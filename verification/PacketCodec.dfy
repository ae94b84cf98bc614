/** Length-prefixed vectors (sections 3.3 and 3.4 of RFC 8446) as plain byte strings, and
    the cursor arithmetic of a packet reader as a function of the packet. */
module PacketCodec {
  import opened Wrappers
  import opened Bytes
  import opened Sequences

  // ---------- Vectors ----------

  ghost predicate Fits(k: nat, x: seq<byte>) {
    |x| < Pow256(k)
  }

  ghost predicate AllFit(k: nat, xs: seq<seq<byte>>) {
    forall i :: 0 <= i < |xs| ==> Fits(k, xs[i])
  }

  function EncodeVec(k: nat, x: seq<byte>): seq<byte> {
    ToBigEndian(k, |x|) + x
  }

  function EncodeAll(k: nat, xs: seq<seq<byte>>): seq<byte> {
    if xs == [] then [] else EncodeVec(k, xs[0]) + EncodeAll(k, xs[1..])
  }

  datatype Vec = Vec(body: seq<byte>, rest: seq<byte>)

  /** Splits one vector with a `k`-byte length field off the front of `s`. */
  function DecodeVec(k: nat, s: seq<byte>): Option<Vec> {
    if |s| < k || |s| - k < BigEndian(s[..k]) then None
    else Some(Vec(s[k..k + BigEndian(s[..k])], s[k + BigEndian(s[..k])..]))
  }

  /** Reads vectors until nothing remains; None when some read fails. */
  function DecodeAll(k: nat, s: seq<byte>): Option<seq<seq<byte>>>
    requires k > 0
    decreases |s|
  {
    if s == [] then Some([])
    else match DecodeVec(k, s)
      case None => None
      case Some(v) =>
        match DecodeAll(k, v.rest)
        case None => None
        case Some(xs) => Some([v.body] + xs)
  }

  /** Decoding finds `x` in front of `rest` exactly when the bytes are `x` encoded and then
      `rest`. */
  lemma DecodeVecInverts(k: nat, s: seq<byte>, x: seq<byte>, rest: seq<byte>)
    ensures DecodeVec(k, s) == Some(Vec(x, rest)) <==> Fits(k, x) && s == EncodeVec(k, x) + rest
  {
    if |s| >= k {
      ToBigEndianRoundTrip(s[..k]);
      BigEndianBound(s[..k]);
    }
    if DecodeVec(k, s) == Some(Vec(x, rest)) {
      assert s == s[..k] + x + rest;
    }
    if Fits(k, x) && s == EncodeVec(k, x) + rest {
      assert s[..k] == ToBigEndian(k, |x|);
      BigEndianRoundTrip(k, |x|);
      assert s[k..] == x + rest;
    }
  }

  ghost predicate EncodesTo(k: nat, x: seq<byte>, s: seq<byte>) {
    Fits(k, x) && s == EncodeVec(k, x)
  }

  /** One vector and nothing else. */
  ghost predicate IsVector(k: nat, s: seq<byte>) {
    exists x :: EncodesTo(k, x, s)
  }

  /** A string is one whole vector exactly when decoding one leaves nothing over. */
  lemma OneVector(k: nat, s: seq<byte>)
    ensures var d := DecodeVec(k, s);
      if d.Some? && d.value.rest == [] then EncodesTo(k, d.value.body, s) else !IsVector(k, s)
  {
    forall x
      ensures EncodesTo(k, x, s) <==> DecodeVec(k, s) == Some(Vec(x, []))
    {
      DecodeVecInverts(k, s, x, []);
      assert EncodeVec(k, x) + [] == EncodeVec(k, x);
    }
    if DecodeVec(k, s).Some? {
      var v := DecodeVec(k, s).value;
      assert v.rest == [] ==> v == Vec(v.body, []);
    }
  }

  /** Repeated reading yields `xs` exactly when the bytes are the encoding of `xs` and
      every element fits its length field: a round trip in both directions. */
  lemma {:induction false} DecodeAllInverts(k: nat, s: seq<byte>, xs: seq<seq<byte>>)
    requires k > 0
    ensures DecodeAll(k, s) == Some(xs) <==> AllFit(k, xs) && s == EncodeAll(k, xs)
    decreases |s|
  {
    if s == [] {
      if xs != [] {
        assert |EncodeAll(k, xs)| >= k;
      }
    } else if xs == [] {
      assert DecodeAll(k, s) != Some(xs);
    } else {
      var x, ys := xs[0], xs[1..];
      assert xs == [x] + ys;
      if DecodeAll(k, s) == Some(xs) {
        var v := DecodeVec(k, s).value;
        DecodeVecInverts(k, s, v.body, v.rest);
        assert DecodeAll(k, v.rest).value == ys;
        DecodeAllInverts(k, v.rest, ys);
      }
      if AllFit(k, xs) && s == EncodeAll(k, xs) {
        var rest := EncodeAll(k, ys);
        assert Fits(k, xs[0]);
        assert forall i :: 0 <= i < |ys| ==> ys[i] == xs[i + 1];
        DecodeVecInverts(k, s, x, rest);
        DecodeAllInverts(k, rest, ys);
      }
    }
  }

  // ---------- Cursors ----------

  /** A packet: `remaining` bytes of `buf` from `curr` on. */
  datatype Cursor = Cursor(buf: seq<byte>, curr: nat, remaining: nat) {
    ghost predicate Valid() {
      curr + remaining <= |buf|
    }

    function Content(): seq<byte>
      requires Valid()
    {
      buf[curr..curr + remaining]
    }

    function Skip(n: nat): Cursor
      requires n <= remaining
    {
      Cursor(buf, curr + n, remaining - n)
    }
  }

  /** A read of `n` bytes, or of one vector; either may find too little and do nothing. */
  datatype Read = Take(n: nat) | TakeVec(k: nat)

  /** How far a read moves the cursor. */
  function Width(c: Cursor, op: Read): (n: nat)
    requires c.Valid()
    ensures n <= c.remaining
  {
    match op
    case Take(n) => if n <= c.remaining then n else 0
    case TakeVec(k) =>
      match DecodeVec(k, c.Content())
      case None => 0
      case Some(v) => k + |v.body|
  }

  function Step(c: Cursor, op: Read): (c': Cursor)
    requires c.Valid()
    ensures c'.Valid()
  {
    c.Skip(Width(c, op))
  }

  /** A vector read leaves the cursor on the rest; its body lies just behind the length. */
  lemma VectorParts(k: nat, c: Cursor)
    requires c.Valid() && DecodeVec(k, c.Content()).Some?
    ensures var v := DecodeVec(k, c.Content()).value;
      && k + |v.body| <= c.remaining
      && |v.body| == BigEndian(c.Content()[..k])
      && Step(c, TakeVec(k)) == c.Skip(k).Skip(|v.body|)
      && Step(c, TakeVec(k)).Content() == v.rest
      && Cursor(c.buf, c.curr + k, |v.body|).Content() == v.body
  {
    var s, n := c.Content(), BigEndian(c.Content()[..k]);
    assert s[k..k + n] == c.buf[c.curr + k..c.curr + k + n];
    assert s[k + n..] == c.buf[c.curr + k + n..c.curr + c.remaining];
  }

  /** What the reads of a run consume, in order. */
  function Consumed(c: Cursor, ops: seq<Read>): seq<byte>
    requires c.Valid()
    decreases |ops|
  {
    if ops == [] then [] else c.Content()[..Width(c, ops[0])] + Consumed(Step(c, ops[0]), ops[1..])
  }

  function Run(c: Cursor, ops: seq<Read>): Cursor
    requires c.Valid()
    decreases |ops|
  {
    if ops == [] then c else Run(Step(c, ops[0]), ops[1..])
  }

  lemma SkipSplits(c: Cursor, n: nat)
    requires c.Valid() && n <= c.remaining
    ensures c.Content()[..n] + c.Skip(n).Content() == c.Content()
  {
  }

  /** Over any reads, successful or not, the end of the packet stays put, and what was
      consumed followed by what remains is the packet one started with. */
  lemma {:induction false} RunConserves(c: Cursor, ops: seq<Read>)
    requires c.Valid()
    ensures var c' := Run(c, ops);
      && c'.Valid() && c'.buf == c.buf
      && c'.curr + c'.remaining == c.curr + c.remaining
      && c.curr <= c'.curr
      && Consumed(c, ops) + c'.Content() == c.Content()
    decreases |ops|
  {
    if ops != [] {
      var n, c1 := Width(c, ops[0]), Step(c, ops[0]);
      SkipSplits(c, n);
      RunConserves(c1, ops[1..]);
      Associate(c.Content()[..n], Consumed(c1, ops[1..]), Run(c, ops).Content());
    }
  }
}
