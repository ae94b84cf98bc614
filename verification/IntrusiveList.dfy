/** The intrusive circular doubly linked list. A `ListHead` is embedded in every entry and
    in every list head; nothing but the links says which list an entry is on. */
module IntrusiveList {
  class ListHead {
    var prev: ListHead?
    var next: ListHead?

    constructor ()
      ensures next == this && prev == this
      ensures Ring(this, [])
    {
      prev, next := this, this;
    }
  }

  ghost predicate Distinct(s: seq<ListHead>) {
    forall i, j :: 0 <= i < j < |s| ==> s[i] != s[j]
  }

  /** Position `i` on the way around from the head through `s` and back to the head. */
  ghost function At(head: ListHead, s: seq<ListHead>, i: int): ListHead {
    if 1 <= i <= |s| then s[i - 1] else head
  }

  ghost predicate LinkedAt(head: ListHead, s: seq<ListHead>, i: int)
    reads head, s
  {
    At(head, s, i).next == At(head, s, i + 1) && At(head, s, i + 1).prev == At(head, s, i)
  }

  /** `head` is the head of a well-formed ring whose entries, in order, are `s`. */
  ghost predicate Ring(head: ListHead, s: seq<ListHead>)
    reads head, s
  {
    && Distinct(s)
    && head !in s
    && forall i :: 0 <= i <= |s| ==> LinkedAt(head, s, i)
  }

  ghost predicate Disjoint(a: seq<ListHead>, b: seq<ListHead>) {
    forall x :: x in a ==> x !in b
  }

  lemma DistinctConcat(a: seq<ListHead>, b: seq<ListHead>)
    requires Distinct(a) && Distinct(b) && Disjoint(a, b)
    ensures Distinct(a + b)
  {
    forall i, j | 0 <= i < j < |a + b|
      ensures (a + b)[i] != (a + b)[j]
    {
      if i < |a| <= j {
        assert a[i] in a && b[j - |a|] in b;
      }
    }
  }

  /** The links determine the entries and their order. */
  lemma RingUnique(head: ListHead, s: seq<ListHead>, t: seq<ListHead>)
    requires Ring(head, s) && Ring(head, t)
    ensures s == t
  {
    if |s| <= |t| {
      SamePrefix(head, s, t, |s|);
      SameEnd(head, s, t);
    } else {
      SamePrefix(head, t, s, |t|);
      SameEnd(head, t, s);
    }
  }

  lemma {:induction false} SamePrefix(head: ListHead, s: seq<ListHead>, t: seq<ListHead>, n: nat)
    requires Ring(head, s) && Ring(head, t)
    requires n <= |s| && n <= |t|
    ensures s[..n] == t[..n]
  {
    if n > 0 {
      SamePrefix(head, s, t, n - 1);
      assert LinkedAt(head, s, n - 1) && LinkedAt(head, t, n - 1);
      assert n > 1 ==> s[n - 2] == s[..n - 1][n - 2] == t[..n - 1][n - 2] == t[n - 2];
      assert s[..n] == s[..n - 1] + [s[n - 1]];
      assert t[..n] == t[..n - 1] + [t[n - 1]];
    }
  }

  lemma SameEnd(head: ListHead, s: seq<ListHead>, t: seq<ListHead>)
    requires Ring(head, s) && Ring(head, t) && s <= t
    ensures s == t
  {
    assert LinkedAt(head, s, |s|) && LinkedAt(head, t, |s|);
  }

  /** list_empty tells exactly the empty rings. */
  lemma EmptyTest(head: ListHead, s: seq<ListHead>)
    requires Ring(head, s)
    ensures head.next == head <==> s == []
  {
    assert LinkedAt(head, s, 0);
  }

  method ListInit(entry: ListHead)
    modifies entry
    ensures entry.next == entry && entry.prev == entry && Ring(entry, [])
  {
    entry.next := entry;
    entry.prev := entry;
  }

  method ListAdd(entry: ListHead, head: ListHead, ghost s: seq<ListHead>)
    requires Ring(head, s) && entry != head && entry !in s
    modifies entry, head, head.next
    ensures Ring(head, [entry] + s)
  {
    assert LinkedAt(head, s, 0);
    ghost var t := [entry] + s;
    label before:
    entry.next := head.next;
    entry.prev := head;
    head.next.prev := entry;
    head.next := entry;
    forall i | 0 <= i <= |t|
      ensures LinkedAt(head, t, i)
    {
      assert i >= 1 ==> old@before(LinkedAt(head, s, i - 1));
    }
  }

  method ListAddTail(entry: ListHead, head: ListHead, ghost s: seq<ListHead>)
    requires Ring(head, s) && entry != head && entry !in s
    modifies entry, head, head.prev
    ensures Ring(head, s + [entry])
  {
    assert LinkedAt(head, s, |s|);
    ghost var t := s + [entry];
    label before:
    entry.next := head;
    entry.prev := head.prev;
    head.prev.next := entry;
    head.prev := entry;
    forall i | 0 <= i <= |t|
      ensures LinkedAt(head, t, i)
    {
      assert i <= |s| ==> old@before(LinkedAt(head, s, i));
    }
  }

  /** Removes the entry at index `k` of the ring it is on, and nulls its links. */
  method ListDel(entry: ListHead, ghost head: ListHead, ghost s: seq<ListHead>, ghost k: nat)
    requires Ring(head, s) && k < |s| && s[k] == entry
    modifies entry, entry.prev, entry.next
    ensures Ring(head, s[..k] + s[k + 1..])
    ensures entry.prev == null && entry.next == null
  {
    assert LinkedAt(head, s, k) && LinkedAt(head, s, k + 1);
    ghost var t := s[..k] + s[k + 1..];
    label before:
    entry.next.prev := entry.prev;
    entry.prev.next := entry.next;
    entry.next := null;
    entry.prev := null;
    forall i | 0 <= i <= |t|
      ensures LinkedAt(head, t, i)
    {
      assert old@before(LinkedAt(head, s, i)) && old@before(LinkedAt(head, s, i + 1));
    }
  }

  /** Moves every entry of `head` to `list`, whatever the links of `list` were. */
  method ListCut(list: ListHead, head: ListHead, ghost s: seq<ListHead>)
    requires Ring(head, s) && list != head && list !in s
    modifies list, head, head.next, head.prev
    ensures Ring(list, s) && Ring(head, [])
  {
    assert LinkedAt(head, s, 0) && LinkedAt(head, s, |s|);
    if head.next == head {
      ListInit(list);
      return;
    }
    label before:
    list.next := head.next;
    list.next.prev := list;
    list.prev := head.prev;
    list.prev.next := list;
    ListInit(head);
    forall i | 0 <= i <= |s|
      ensures LinkedAt(list, s, i)
    {
      assert old@before(LinkedAt(head, s, i));
    }
  }

  /** Puts the entries of `list` before those of `head`. With no entries to put, the code
      instead leaves `head` pointing at `list`, which points at itself: no ring at all. */
  method ListSpliceFront(list: ListHead, head: ListHead, ghost src: seq<ListHead>, ghost dst: seq<ListHead>)
    requires Ring(list, src) && Ring(head, dst)
    requires list != head && list !in dst && head !in src && Disjoint(src, dst)
    modifies list, list.next, list.prev, head, head.next
    ensures src != [] ==> Ring(head, src + dst)
    ensures src == [] ==> head.next == list && list.next == list && list.prev == head
    ensures (exists t :: Ring(head, t)) <==> src != []
  {
    assert LinkedAt(list, src, 0) && LinkedAt(list, src, |src|) && LinkedAt(head, dst, 0);
    ghost var t := src + dst;
    label before:
    list.next.prev := head;
    list.prev.next := head.next;
    head.next.prev := list.prev;
    head.next := list.next;
    if src != [] {
      forall i | 0 <= i <= |t|
        ensures LinkedAt(head, t, i)
      {
        if i <= |src| {
          assert old@before(LinkedAt(list, src, i));
        }
        if i >= |src| {
          assert old@before(LinkedAt(head, dst, i - |src|));
        }
      }
      DistinctConcat(src, dst);
      assert Ring(head, t);
    } else {
      forall u
        ensures !Ring(head, u)
      {
        SelfLoopBreaksRing(head, list, u);
      }
    }
  }

  // ---------- Traversal ----------

  /** The entries that `delete` spares, in order. */
  ghost function Kept(s: seq<ListHead>, delete: ListHead -> bool): seq<ListHead> {
    if s == [] then []
    else Kept(s[..|s| - 1], delete) + if delete(s[|s| - 1]) then [] else [s[|s| - 1]]
  }

  lemma {:induction false} KeptMembers(s: seq<ListHead>, delete: ListHead -> bool, x: ListHead)
    ensures x in Kept(s, delete) <==> x in s && !delete(x)
  {
    if s != [] {
      assert s == s[..|s| - 1] + [s[|s| - 1]];
      KeptMembers(s[..|s| - 1], delete, x);
    }
  }

  /** list_for_each_entry: the plain walk, over a ring the body leaves alone. */
  method ForEachEntry(head: ListHead, ghost s: seq<ListHead>) returns (visited: seq<ListHead>)
    requires Ring(head, s)
    ensures visited == s
  {
    assert LinkedAt(head, s, 0);
    var pos := head.next;
    visited := [];
    while pos != head
      invariant |visited| <= |s| && visited == s[..|visited|]
      invariant pos == At(head, s, |visited| + 1)
      decreases |s| - |visited|
    {
      assert LinkedAt(head, s, |visited| + 1);
      visited := visited + [pos];
      pos := pos.next;
    }
  }

  lemma KeptSnoc(s: seq<ListHead>, x: ListHead, delete: ListHead -> bool)
    ensures Kept(s + [x], delete) == if delete(x) then Kept(s, delete) else Kept(s, delete) + [x]
  {
    assert (s + [x])[..|s|] == s;
  }

  ghost predicate Unlinked(x: ListHead)
    reads x
  {
    x.prev == null && x.next == null
  }

  /** One turn of the walk over a ring of `kept` entries already passed and `todo` entries
      to come: the body may delete the entry at hand, and the cursors move on. */
  method Turn(pos: ListHead, n: ListHead, remove: bool, ghost head: ListHead,
              ghost kept: seq<ListHead>, ghost todo: seq<ListHead>)
      returns (pos': ListHead, n': ListHead)
    requires Ring(head, kept + todo)
    requires todo != [] && pos == todo[0] && n == At(head, todo, 2)
    modifies head, set x | x in kept + todo
    ensures Ring(head, (if remove then kept else kept + [pos]) + todo[1..])
    ensures remove ==> Unlinked(pos)
    ensures pos' == At(head, todo, 2)
    ensures |todo| > 1 ==> n' == At(head, todo, 3)
  {
    ghost var r, j := kept + todo, |kept|;
    ghost var r' := (if remove then kept else kept + [pos]) + todo[1..];
    ghost var j' := if remove then j else j + 1;
    assert r[j] == pos;
    if remove {
      assert LinkedAt(head, r, j) && LinkedAt(head, r, j + 1);
      assert r' == r[..j] + r[j + 1..];
      ListDel(pos, head, r, j);
    } else {
      assert r' == r;
    }
    assert n == At(head, r', j' + 1);
    assert LinkedAt(head, r', 0) && (|todo| > 1 ==> LinkedAt(head, r', j' + 1));
    return n, n.next;
  }

  /** The state of the walk: `visited` is behind it, `todo` ahead, and the ring holds
      what the body spared of the first and all of the second. */
  ghost predicate Walking(head: ListHead, s: seq<ListHead>, delete: ListHead -> bool,
                          visited: seq<ListHead>, todo: seq<ListHead>, pos: ListHead, n: ListHead)
    reads head, s, visited, todo, Kept(visited, delete)
  {
    && s == visited + todo
    && Ring(head, Kept(visited, delete) + todo)
    && (forall x :: x in visited && delete(x) ==> Unlinked(x))
    && pos == At(head, todo, 1)
    && (todo != [] ==> n == At(head, todo, 2))
  }

  /** The body of the loop and the step to the next entry. */
  method VisitAndAdvance(pos: ListHead, n: ListHead, ghost head: ListHead, ghost s: seq<ListHead>,
                         delete: ListHead -> bool, ghost visited: seq<ListHead>, ghost todo: seq<ListHead>)
      returns (pos': ListHead, n': ListHead)
    requires Distinct(s) && head !in s
    requires Walking(head, s, delete, visited, todo, pos, n) && todo != []
    modifies head, set x | x in s
    ensures Walking(head, s, delete, visited + [pos], todo[1..], pos', n')
  {
    ghost var kept := Kept(visited, delete);
    Members(head, s, visited, kept, todo, delete);
    KeptSnoc(visited, pos, delete);
    assert s == (visited + [pos]) + todo[1..];
    pos', n' := Turn(pos, n, delete(pos), head, kept, todo);
  }

  /** list_for_each_entry_safe, with a body that may list_del the entry it is given. The
      successor is read before the body runs, so the walk survives the deletion. */
  method ForEachEntrySafe(head: ListHead, ghost s: seq<ListHead>, delete: ListHead -> bool)
      returns (visited: seq<ListHead>)
    requires Ring(head, s)
    modifies head, set x | x in s
    ensures visited == s
    ensures Ring(head, Kept(s, delete))
    ensures forall x :: x in s && delete(x) ==> Unlinked(x)
  {
    WalkStarts(head, s, delete);
    var pos: ListHead := head.next;
    var n: ListHead := pos.next;
    visited := [];
    ghost var todo := s;
    while pos != head
      invariant Distinct(s) && head !in s
      invariant Walking(head, s, delete, visited, todo, pos, n)
      decreases |todo|
    {
      var entry := pos;
      pos, n := VisitAndAdvance(pos, n, head, s, delete, visited, todo);
      visited, todo := visited + [entry], todo[1..];
    }
    WalkEnds(head, s, delete, visited, todo, n);
  }

  lemma WalkStarts(head: ListHead, s: seq<ListHead>, delete: ListHead -> bool)
    requires Ring(head, s)
    ensures head.next != null && head.next.next != null
    ensures Walking(head, s, delete, [], s, head.next, head.next.next)
  {
    assert LinkedAt(head, s, 0) && (s != [] ==> LinkedAt(head, s, 1));
    assert Kept([], delete) + s == s;
  }

  lemma RestIsWithin(s: seq<ListHead>, visited: seq<ListHead>, todo: seq<ListHead>)
    requires s == visited + todo
    ensures todo == [] || todo[0] in s
  {
    assert todo != [] ==> s[|visited|] == todo[0];
  }

  lemma WalkEnds(head: ListHead, s: seq<ListHead>, delete: ListHead -> bool,
                 visited: seq<ListHead>, todo: seq<ListHead>, n: ListHead)
    requires head !in s
    requires Walking(head, s, delete, visited, todo, head, n)
    ensures visited == s
    ensures Ring(head, Kept(s, delete))
    ensures forall x :: x in s && delete(x) ==> Unlinked(x)
  {
    RestIsWithin(s, visited, todo);
    assert visited == s && Kept(s, delete) + todo == Kept(s, delete);
  }

  /** Everything still on the ring was on it, and nothing deleted is. */
  lemma Members(head: ListHead, s: seq<ListHead>, visited: seq<ListHead>, kept: seq<ListHead>, todo: seq<ListHead>,
                delete: ListHead -> bool)
    requires Distinct(s) && head !in s && s == visited + todo && kept == Kept(visited, delete)
    ensures forall x :: x in kept + todo ==> x in s
    ensures forall x :: x in visited && delete(x) ==> x !in kept + todo && x != head
  {
    forall x
      ensures x in kept ==> x in s && !delete(x)
    {
      KeptMembers(visited, delete, x);
    }
    assert forall i :: 0 <= i < |todo| ==> todo[i] == s[|visited| + i];
    assert forall i :: 0 <= i < |visited| ==> visited[i] == s[i];
  }

  /** A head whose successor points at itself heads no ring. */
  lemma SelfLoopBreaksRing(head: ListHead, list: ListHead, u: seq<ListHead>)
    requires head != list && head.next == list && list.next == list
    ensures !Ring(head, u)
  {
    assert Ring(head, u) ==> LinkedAt(head, u, 0);
    assert Ring(head, u) && |u| >= 1 ==> LinkedAt(head, u, 1);
  }
}
