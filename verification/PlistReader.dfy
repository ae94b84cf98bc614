/** The loop that pairs the keys of a property list dictionary with its string values. */
module PlistReader {
  import opened Wrappers

  /** A child of an element, as the DOM presents it. Only some nodes have a value. */
  datatype Inner = Inner(nodeValue: Option<string>)

  /** A child of the dictionary: an element with its children, or anything else. */
  datatype Child = Text | Element(tagName: string, childNodes: seq<Inner>)

  datatype Outcome = Parsed(parameters: map<string, string>) | NullPointer

  /** String.trim, for whatever counts as white space. */
  function Trim(s: string, white: char -> bool): string {
    if s == [] then s
    else if white(s[0]) then Trim(s[1..], white)
    else if white(s[|s| - 1]) then Trim(s[..|s| - 1], white)
    else s
  }

  ghost predicate AllWhite(s: string, white: char -> bool) {
    forall i :: 0 <= i < |s| ==> white(s[i])
  }

  /** `s` is `t` between two stretches of white space. */
  ghost predicate Framed(s: string, a: string, t: string, b: string, white: char -> bool) {
    s == a + t + b && AllWhite(a, white) && AllWhite(b, white)
  }

  lemma FrameFront(c: char, s: string, a: string, t: string, b: string, white: char -> bool)
    requires white(c) && Framed(s, a, t, b, white)
    ensures Framed([c] + s, [c] + a, t, b, white)
  {
    assert [c] + s == [c] + a + t + b;
  }

  lemma FrameBack(c: char, s: string, a: string, t: string, b: string, white: char -> bool)
    requires white(c) && Framed(s, a, t, b, white)
    ensures Framed(s + [c], a, t, b + [c], white)
  {
    assert s + [c] == a + t + (b + [c]);
  }

  lemma Ends(s: string)
    requires s != ""
    ensures s == [s[0]] + s[1..] == s[..|s| - 1] + [s[|s| - 1]]
  {
  }

  /** Exactly the white space at either end is gone. */
  lemma {:induction false} TrimDropsTheEnds(s: string, white: char -> bool) returns (a: string, b: string)
    ensures Framed(s, a, Trim(s, white), b, white)
    ensures var t := Trim(s, white);
      t != "" ==> !white(t[0]) && !white(t[|t| - 1])
  {
    a, b := "", "";
    if s != "" {
      var t := Trim(s, white);
      Ends(s);
      if white(s[0]) {
        a, b := TrimDropsTheEnds(s[1..], white);
        FrameFront(s[0], s[1..], a, t, b, white);
        a := [s[0]] + a;
      } else if white(s[|s| - 1]) {
        a, b := TrimDropsTheEnds(s[..|s| - 1], white);
        FrameBack(s[|s| - 1], s[..|s| - 1], a, t, b, white);
        b := b + [s[|s| - 1]];
      }
    }
  }

  predicate IsKey(c: Child) {
    c.Element? && c.tagName == "key"
  }

  predicate IsString(c: Child) {
    c.Element? && c.tagName == "string"
  }

  /** The value of the first child, which the loop takes without looking. */
  function FirstValue(c: Child): Option<string>
    requires c.Element?
  {
    if |c.childNodes| == 0 then None else c.childNodes[0].nodeValue
  }

  /** The loop would dereference null here: a key without a first value, or a string whose
      first child has none. */
  predicate Breaks(c: Child) {
    || (IsKey(c) && FirstValue(c).None?)
    || (IsString(c) && |c.childNodes| > 0 && FirstValue(c).None?)
  }

  function KeyText(c: Child, white: char -> bool): string
    requires IsKey(c) && !Breaks(c)
  {
    Trim(FirstValue(c).value, white)
  }

  function StringText(c: Child, white: char -> bool): string
    requires IsString(c) && !Breaks(c)
  {
    if |c.childNodes| == 0 then "" else Trim(FirstValue(c).value, white)
  }

  /** Which children make the loop dereference null, in terms of the nodes themselves. */
  lemma BreaksMeans(c: Child)
    ensures c.Element? && c.tagName == "key" ==>
      (Breaks(c) <==> |c.childNodes| == 0 || c.childNodes[0].nodeValue == None)
    ensures c.Element? && c.tagName == "string" ==>
      (Breaks(c) <==> |c.childNodes| > 0 && c.childNodes[0].nodeValue == None)
    ensures c.Text? || (c.tagName != "key" && c.tagName != "string") ==> !Breaks(c)
  {
  }

  /** A key's text is its first child's value without the white space around it; so is a
      string's, which is empty when there is no child. */
  lemma TextsMean(c: Child, white: char -> bool)
    requires !Breaks(c)
    ensures IsKey(c) <==> c.Element? && c.tagName == "key"
    ensures IsString(c) <==> c.Element? && c.tagName == "string"
    ensures IsKey(c) ==>
      && |c.childNodes| > 0 && c.childNodes[0].nodeValue.Some?
      && KeyText(c, white) == Trim(c.childNodes[0].nodeValue.value, white)
    ensures IsString(c) && |c.childNodes| == 0 ==> StringText(c, white) == ""
    ensures IsString(c) && |c.childNodes| > 0 ==>
      && c.childNodes[0].nodeValue.Some?
      && StringText(c, white) == Trim(c.childNodes[0].nodeValue.value, white)
  {
  }

  // ---------- What the loop computes ----------

  /** The key in force after the children: the last one, unless a string has used it up. */
  function LastKey(children: seq<Child>, white: char -> bool): string
    requires forall c :: c in children ==> !Breaks(c)
  {
    if children == [] then ""
    else
      var c := children[|children| - 1];
      if IsKey(c) then KeyText(c, white)
      else if IsString(c) then ""
      else LastKey(children[..|children| - 1], white)
  }

  function Parameters(children: seq<Child>, white: char -> bool): map<string, string>
    requires forall c :: c in children ==> !Breaks(c)
  {
    if children == [] then map[]
    else
      var before, c := children[..|children| - 1], children[|children| - 1];
      if IsString(c) then Parameters(before, white)[LastKey(before, white) := StringText(c, white)]
      else Parameters(before, white)
  }

  /** asParametersMap, from the dictionary's children on. */
  method AsParametersMap(children: seq<Child>, white: char -> bool) returns (r: Outcome)
    ensures r.NullPointer? <==> exists c :: c in children && Breaks(c)
    ensures r.Parsed? ==> r.parameters == Parameters(children, white)
  {
    var parametersMap: map<string, string> := map[];
    var lastKey := "";
    for i := 0 to |children|
      invariant forall c :: c in children[..i] ==> !Breaks(c)
      invariant lastKey == LastKey(children[..i], white)
      invariant parametersMap == Parameters(children[..i], white)
    {
      var item := children[i];
      assert children[..i + 1] == children[..i] + [item];
      if item.Element? {
        if item.tagName == "key" {
          if FirstValue(item).None? {
            assert Breaks(item);
            return NullPointer;
          }
          lastKey := Trim(FirstValue(item).value, white);
        }
        if item.tagName == "string" {
          if |item.childNodes| < 1 {
            parametersMap := parametersMap[lastKey := ""];
          } else {
            if FirstValue(item).None? {
              assert Breaks(item);
              return NullPointer;
            }
            parametersMap := parametersMap[lastKey := Trim(FirstValue(item).value, white)];
          }
          lastKey := "";
        }
      }
    }
    assert children[..|children|] == children;
    return Parsed(parametersMap);
  }

  /** The loop cares for keys and strings only. */
  predicate Matters(c: Child) {
    c.Element? && (c.tagName == "key" || c.tagName == "string")
  }

  /** The key in force is that of the last child that matters, if this is a key; a string
      uses the key up, and before the first key there is none. */
  lemma {:induction false} KeyInForce(children: seq<Child>, white: char -> bool, i: int)
    requires forall c :: c in children ==> !Breaks(c)
    requires -1 <= i < |children|
    requires i >= 0 ==> Matters(children[i])
    requires forall j :: i < j < |children| ==> !Matters(children[j])
    ensures LastKey(children, white) ==
      if i >= 0 && children[i].tagName == "key" then KeyText(children[i], white) else ""
  {
    if children != [] {
      var n := |children| - 1;
      if i < n {
        KeyInForce(children[..n], white, i);
      }
    }
  }

  /** The string at `i` is the last one that the key `k` is in force for. */
  ghost predicate LastFor(children: seq<Child>, k: string, i: nat, white: char -> bool)
    requires forall c :: c in children ==> !Breaks(c)
  {
    && i < |children| && IsString(children[i]) && LastKey(children[..i], white) == k
    && forall j :: i < j < |children| && IsString(children[j]) ==> LastKey(children[..j], white) != k
  }

  lemma {:induction false} ParametersSnoc(children: seq<Child>, k: string, i: nat, white: char -> bool)
    requires forall c :: c in children ==> !Breaks(c)
    requires children != [] && i < |children| - 1
    ensures var n := |children| - 1;
      LastFor(children, k, i, white) <==>
        LastFor(children[..n], k, i, white) && !(IsString(children[n]) && LastKey(children[..n], white) == k)
  {
    var n := |children| - 1;
    var before := children[..n];
    assert before[..i] == children[..i];
    forall j | i < j < n
      ensures before[j] == children[j] && before[..j] == children[..j]
    {
    }
  }

  /** Whatever the children are, each string is filed under the key in force where it
      stands, and a later one under the same key replaces it. */
  lemma {:induction false} StringsAreFiled(children: seq<Child>, white: char -> bool, k: string, i: nat)
    requires forall c :: c in children ==> !Breaks(c)
    requires LastFor(children, k, i, white)
    ensures k in Parameters(children, white) && Parameters(children, white)[k] == StringText(children[i], white)
    decreases |children|
  {
    var n := |children| - 1;
    if i < n {
      ParametersSnoc(children, k, i, white);
      StringsAreFiled(children[..n], white, k, i);
    }
  }

  /** And there is nothing else in the result. */
  lemma {:induction false} NothingElseIsFiled(children: seq<Child>, white: char -> bool, k: string)
    requires forall c :: c in children ==> !Breaks(c)
    requires forall i :: 0 <= i < |children| && IsString(children[i]) ==> LastKey(children[..i], white) != k
    ensures k !in Parameters(children, white)
    decreases |children|
  {
    if children != [] {
      var n := |children| - 1;
      forall i | 0 <= i < n
        ensures children[..n][i] == children[i] && children[..n][..i] == children[..i]
      {
      }
      NothingElseIsFiled(children[..n], white, k);
    }
  }

  // ---------- Dictionaries ----------

  datatype ElementPair = ElementPair(key: Child, value: Child) {
    predicate Valid() {
      && IsKey(key) && !Breaks(key)
      && value.Element? && !IsKey(value) && !Breaks(value)
    }
  }

  /** An entry of a dictionary: a key element, then its one value element. */
  type Entry = e: ElementPair | e.Valid()
    witness ElementPair(Element("key", [Inner(Some(""))]), Element("string", []))

  /** The elements among the children, in order. */
  function Elements(children: seq<Child>): seq<Child> {
    if children == [] then []
    else
      var c := children[|children| - 1];
      Elements(children[..|children| - 1]) + if c.Text? then [] else [c]
  }

  function Flatten(entries: seq<Entry>): seq<Child> {
    if entries == [] then []
    else Flatten(entries[..|entries| - 1]) + [entries[|entries| - 1].key, entries[|entries| - 1].value]
  }

  /** The children are these entries, with text anywhere between their elements. */
  ghost predicate Dictionary(children: seq<Child>, entries: seq<Entry>) {
    Elements(children) == Flatten(entries)
  }

  /** Entry `j` is the last whose key is `k` among those with a string value. */
  predicate LastStringFor(entries: seq<Entry>, k: string, j: nat, white: char -> bool)
  {
    && j < |entries|
    && IsString(entries[j].value) && KeyText(entries[j].key, white) == k
    && forall i :: j < i < |entries| ==> !(IsString(entries[i].value) && KeyText(entries[i].key, white) == k)
  }

  /** The trimmed string entries, the last of equal keys winning. */
  function StringEntries(entries: seq<Entry>, white: char -> bool): map<string, string>
  {
    if entries == [] then map[]
    else
      var before, e := entries[..|entries| - 1], entries[|entries| - 1];
      if IsString(e.value) then StringEntries(before, white)[KeyText(e.key, white) := StringText(e.value, white)]
      else StringEntries(before, white)
  }

  lemma {:induction false} ElementsOnlyMatter(children: seq<Child>, white: char -> bool)
    requires forall c :: c in children ==> !Breaks(c)
    ensures forall c :: c in Elements(children) ==> !Breaks(c)
    ensures LastKey(children, white) == LastKey(Elements(children), white)
    ensures Parameters(children, white) == Parameters(Elements(children), white)
  {
    if children != [] {
      var before, c := children[..|children| - 1], children[|children| - 1];
      ElementsOnlyMatter(before, white);
      if c.Text? {
        assert Elements(children) == Elements(before);
      } else {
        assert Elements(children)[..|Elements(before)|] == Elements(before);
      }
    }
  }

  lemma {:induction false} BreaksOnlyInElements(children: seq<Child>, c: Child)
    requires c in children && !c.Text?
    ensures c in Elements(children)
  {
    var last := |children| - 1;
    if children[last] != c {
      assert children == children[..last] + [children[last]];
      BreaksOnlyInElements(children[..last], c);
    }
  }

  lemma {:induction false} FlattenIsSound(entries: seq<Entry>)
    ensures forall c :: c in Flatten(entries) ==> !Breaks(c)
  {
    if entries != [] {
      FlattenIsSound(entries[..|entries| - 1]);
    }
  }

  lemma {:induction false} EntriesPair(entries: seq<Entry>, white: char -> bool)
    requires forall c :: c in Flatten(entries) ==> !Breaks(c)
    ensures Parameters(Flatten(entries), white) == StringEntries(entries, white)
  {
    if entries != [] {
      var before, e := entries[..|entries| - 1], entries[|entries| - 1];
      var all, rest := Flatten(entries), Flatten(before);
      FlattenIsSound(before);
      EntriesPair(before, white);
      assert all[..|all| - 1] == rest + [e.key];
      assert (rest + [e.key])[..|rest|] == rest;
      assert Parameters(rest + [e.key], white) == Parameters(rest, white);
      assert LastKey(rest + [e.key], white) == KeyText(e.key, white);
    }
  }

  /** On every dictionary the loop succeeds and returns exactly its string entries: text is
      skipped, and the key of a value that is no string never reaches a later string. */
  lemma DictionaryIsRead(children: seq<Child>, entries: seq<Entry>, white: char -> bool)
    requires Dictionary(children, entries)
    ensures forall c :: c in children ==> !Breaks(c)
    ensures Parameters(children, white) == StringEntries(entries, white)
  {
    FlattenIsSound(entries);
    forall c | c in children
      ensures !Breaks(c)
    {
      if !c.Text? {
        BreaksOnlyInElements(children, c);
      }
    }
    ElementsOnlyMatter(children, white);
    EntriesPair(entries, white);
  }

  /** A key is in the result exactly when some string entry has it, and then it has the
      text of the last one. */
  lemma {:induction false} LastDuplicateWins(entries: seq<Entry>, white: char -> bool, k: string)
    ensures k in StringEntries(entries, white) <==> exists j: nat :: LastStringFor(entries, k, j, white)
    ensures forall j: nat :: LastStringFor(entries, k, j, white) ==>
              StringEntries(entries, white)[k] == StringText(entries[j].value, white)
  {
    if entries != [] {
      var n := |entries| - 1;
      var before, e := entries[..n], entries[n];
      LastDuplicateWins(before, white, k);
      if IsString(e.value) && KeyText(e.key, white) == k {
        assert LastStringFor(entries, k, n, white);
      } else {
        forall j: nat
          ensures LastStringFor(entries, k, j, white) <==> LastStringFor(before, k, j, white)
        {
          assert forall i :: 0 <= i < n ==> before[i] == entries[i];
        }
      }
    }
  }
}
