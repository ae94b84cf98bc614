/** What a Merkle-Damgard hash of a byte string is: pad the message, cut it into blocks,
    and fold a compression function over them. Everything here is about whole messages;
    HashCollector.dfy holds the buffering code that is proved against it. */
module HashSpec {
  import opened Bytes
  import opened Division

  datatype ByteOrder = BigFirst | LittleFirst

  /** Folds `f` over the complete `cb`-byte blocks of `m`, left to right. */
  function Fold<S>(f: (S, seq<byte>) -> S, cb: nat, h: S, m: seq<byte>): S
    requires cb > 0
    decreases |m|
  {
    if |m| < cb then h else Fold(f, cb, f(h, m[..cb]), m[cb..])
  }

  /** The bytes after the last complete block. */
  function Tail(cb: nat, m: seq<byte>): (t: seq<byte>)
    requires cb > 0
    ensures |t| < cb
    ensures |t| <= |m|
    decreases |m|
  {
    if |m| < cb then m else Tail(cb, m[cb..])
  }

  // ---------- Folding and cutting ----------

  lemma FoldOne<S>(f: (S, seq<byte>) -> S, cb: nat, h: S, b: seq<byte>)
    requires |b| == cb > 0
    ensures Fold(f, cb, h, b) == f(h, b)
  {
    assert b[..cb] == b;
  }

  /** Whatever was folded so far, only the tail matters for what comes next. */
  lemma {:induction false} FoldExtend<S>(f: (S, seq<byte>) -> S, cb: nat, h: S, m: seq<byte>, d: seq<byte>)
    requires cb > 0
    ensures Fold(f, cb, h, m + d) == Fold(f, cb, Fold(f, cb, h, m), Tail(cb, m) + d)
    ensures Tail(cb, m + d) == Tail(cb, Tail(cb, m) + d)
    decreases |m|
  {
    if |m| >= cb {
      assert (m + d)[..cb] == m[..cb];
      assert (m + d)[cb..] == m[cb..] + d;
      FoldExtend(f, cb, f(h, m[..cb]), m[cb..], d);
    }
  }

  /** The closed form of the tail: what is left after `|m| / cb` blocks. */
  lemma {:induction false} TailClosedForm(cb: nat, m: seq<byte>)
    requires cb > 0
    ensures |Tail(cb, m)| == |m| % cb
    ensures |m| / cb * cb == |m| - |Tail(cb, m)|
    ensures Tail(cb, m) == m[|m| - |Tail(cb, m)|..]
    decreases |m|
  {
    DivParts(|m|, cb);
    if |m| < cb {
      DivSmall(|m|, cb);
    } else {
      DivStep(|m|, cb);
      TailClosedForm(cb, m[cb..]);
    }
  }

  /** Dropping the tail leaves whole blocks, and loses nothing of the fold. */
  lemma {:induction false} FoldIgnoresTail<S>(f: (S, seq<byte>) -> S, cb: nat, h: S, m: seq<byte>)
    requires cb > 0
    ensures var n := |m| - |Tail(cb, m)|;
      Tail(cb, m[..n]) == [] && Fold(f, cb, h, m) == Fold(f, cb, h, m[..n])
    decreases |m|
  {
    if |m| >= cb {
      var n := |m| - |Tail(cb, m)|;
      assert n >= cb;
      assert m[..n][..cb] == m[..cb];
      assert m[..n][cb..] == m[cb..][..n - cb];
      FoldIgnoresTail(f, cb, f(h, m[..cb]), m[cb..]);
    }
  }

  /** A fold over whole blocks ends with one step on the last of them. */
  lemma {:induction false} FoldLast<S>(f: (S, seq<byte>) -> S, cb: nat, h: S, p: seq<byte>) returns (s: S, b: seq<byte>)
    requires cb > 0 && |p| >= cb && Tail(cb, p) == []
    ensures b == p[|p| - cb..]
    ensures s == Fold(f, cb, h, p[..|p| - cb]) && Tail(cb, p[..|p| - cb]) == []
    ensures Fold(f, cb, h, p) == f(s, b)
    decreases |p|
  {
    if |p| < 2 * cb {
      assert Tail(cb, p[cb..]) == p[cb..];
      assert p[..cb] == p;
      return h, p;
    } else {
      var rest, q := p[cb..], p[..|p| - cb];
      s, b := FoldLast(f, cb, f(h, p[..cb]), rest);
      assert q[..cb] == p[..cb];
      assert q[cb..] == rest[..|rest| - cb];
    }
  }

  // ---------- The streaming state ----------

  /** What a collector remembers: chaining value, pending bytes, bits seen modulo 2^64. */
  datatype Stream<S> = Stream(h: S, pending: seq<byte>, count: uint64)

  /** The bit count after `n` more bytes. */
  function AddBytes(count: uint64, n: nat): uint64 {
    (count + 8 * n) % 0x1_0000_0000_0000_0000
  }

  function Absorb<S>(f: (S, seq<byte>) -> S, cb: nat, st: Stream<S>, d: seq<byte>): Stream<S>
    requires cb > 0
  {
    Stream(Fold(f, cb, st.h, st.pending + d), Tail(cb, st.pending + d), AddBytes(st.count, |d|))
  }

  function AbsorbAll<S>(f: (S, seq<byte>) -> S, cb: nat, st: Stream<S>, pieces: seq<seq<byte>>): Stream<S>
    requires cb > 0
    decreases |pieces|
  {
    if pieces == [] then st
    else AbsorbAll(f, cb, Absorb(f, cb, st, pieces[0]), pieces[1..])
  }

  function Flatten(pieces: seq<seq<byte>>): seq<byte> {
    if pieces == [] then [] else pieces[0] + Flatten(pieces[1..])
  }

  lemma CountAdds(count: nat, a: nat, b: nat, d: nat)
    requires d > 0
    ensures ((count + 8 * a) % d + 8 * b) % d == (count + 8 * (a + b)) % d
  {
    ModAdd(count + 8 * a, 8 * b, d);
  }

  lemma AbsorbTwice<S>(f: (S, seq<byte>) -> S, cb: nat, st: Stream<S>, a: seq<byte>, b: seq<byte>)
    requires cb > 0
    ensures Absorb(f, cb, Absorb(f, cb, st, a), b) == Absorb(f, cb, st, a + b)
  {
    var st1 := Absorb(f, cb, st, a);
    var st2, st12 := Absorb(f, cb, st1, b), Absorb(f, cb, st, a + b);
    assert st2.count == st12.count by {
      CountAdds(st.count, |a|, |b|, 0x1_0000_0000_0000_0000);
    }
    assert st.pending + a + b == st.pending + (a + b);
    FoldExtend(f, cb, st.h, st.pending + a, b);
  }

  lemma AbsorbNothing<S>(f: (S, seq<byte>) -> S, cb: nat, st: Stream<S>, d: seq<byte>)
    requires cb > 0 && |st.pending| < cb && d == []
    ensures Absorb(f, cb, st, d) == st
  {
    assert st.pending + d == st.pending;
  }

  /** Every way of cutting a message into pieces, empty ones included, leaves the
      collector in the state that one call on the whole message leaves it in. */
  lemma {:induction false} AnySplitAgrees<S>(f: (S, seq<byte>) -> S, cb: nat, st: Stream<S>, pieces: seq<seq<byte>>)
    requires cb > 0 && |st.pending| < cb
    ensures AbsorbAll(f, cb, st, pieces) == Absorb(f, cb, st, Flatten(pieces))
    decreases |pieces|
  {
    if pieces == [] {
      AbsorbNothing(f, cb, st, []);
    } else {
      AnySplitAgrees(f, cb, Absorb(f, cb, st, pieces[0]), pieces[1..]);
      AbsorbTwice(f, cb, st, pieces[0], Flatten(pieces[1..]));
    }
  }

  /** Two cuttings of one message are indistinguishable. */
  lemma SplitsAgree<S>(f: (S, seq<byte>) -> S, cb: nat, st: Stream<S>, p: seq<seq<byte>>, q: seq<seq<byte>>)
    requires cb > 0 && |st.pending| < cb
    requires Flatten(p) == Flatten(q)
    ensures AbsorbAll(f, cb, st, p) == AbsorbAll(f, cb, st, q)
  {
    AnySplitAgrees(f, cb, st, p);
    AnySplitAgrees(f, cb, st, q);
  }

  // ---------- Padding ----------

  function Zeros(n: nat): (z: seq<byte>)
    ensures |z| == n && forall i :: 0 <= i < n ==> z[i] == 0
  {
    seq(n, _ => 0)
  }

  /** How many zero bytes stand between the 0x80 mark and the length field. */
  function ZeroCount(cb: nat, len: nat): nat
    requires cb > 0
  {
    (cb - (len + 9) % cb) % cb
  }

  function LengthField(order: ByteOrder, bits: uint64): (s: seq<byte>)
    ensures |s| == 8
  {
    if order.BigFirst? then ToBigEndian(8, bits) else ToLittleEndian(8, bits)
  }

  /** The field reads back, in the order of the hash, as the count. */
  lemma LengthFieldReads(bits: uint64)
    ensures BigEndian(LengthField(BigFirst, bits)) == bits
    ensures LittleEndian(LengthField(LittleFirst, bits)) == bits
  {
    assert Pow256(8) == 0x1_0000_0000_0000_0000;
    BigEndianRoundTrip(8, bits);
    LittleEndianRoundTrip(8, bits);
  }

  function Padding(order: ByteOrder, cb: nat, len: nat, bits: uint64): seq<byte>
    requires cb > 0
  {
    [0x80] + Zeros(ZeroCount(cb, len)) + LengthField(order, bits)
  }

  /** Section 5.1.1 of FIPS 180-4 and sections 3.1 and 3.2 of RFC 1321. */
  function Pad(order: ByteOrder, cb: nat, m: seq<byte>): seq<byte>
    requires cb > 0
  {
    m + Padding(order, cb, |m|, 8 * |m| % 0x1_0000_0000_0000_0000)
  }

  /** Zeros enough to reach the end of the block, or of the next one. */
  lemma ZeroCountForm(cb: nat, len: nat)
    requires cb >= 9
    ensures len % cb + 9 <= cb ==> ZeroCount(cb, len) == cb - 9 - len % cb
    ensures len % cb + 9 > cb ==> ZeroCount(cb, len) == 2 * cb - 9 - len % cb
    ensures len + 9 + ZeroCount(cb, len) == (len / cb + if len % cb + 9 <= cb then 1 else 2) * cb
  {
    var q, r := len / cb, len % cb;
    var z := if r + 9 <= cb then cb - 9 - r else 2 * cb - 9 - r;
    var full := if r + 9 <= cb then q + 1 else q + 2;
    DivParts(len, cb);
    assert len + 9 + z == full * cb by {
      assert (q + 1) * cb == q * cb + cb && (q + 2) * cb == q * cb + 2 * cb;
    }
    if z == 0 {
      DivUnique(len + 9, cb, full, 0);
      DivUnique(cb, cb, 1, 0);
    } else {
      assert (full - 1) * cb == full * cb - cb;
      DivUnique(len + 9, cb, full - 1, cb - z);
      DivSmall(z, cb);
    }
  }

  /** Where the padding ends, and that no shorter one would end there. */
  lemma ZeroCountIsLeast(cb: nat, len: nat)
    requires cb >= 9
    ensures FillsBlock(cb, len, ZeroCount(cb, len))
    ensures forall k: nat {:trigger FillsBlock(cb, len, k)} :: FillsBlock(cb, len, k) ==> k >= ZeroCount(cb, len)
  {
    ZeroCountForm(cb, len);
    DivParts(len, cb);
    var z := ZeroCount(cb, len);
    var full := len / cb + if len % cb + 9 <= cb then 1 else 2;
    DivUnique(len + 9 + z, cb, full, 0);
    forall k: nat | k < z
      ensures !FillsBlock(cb, len, k)
    {
      assert (full - 1) * cb == full * cb - cb;
      DivUnique(len + 9 + k, cb, full - 1, cb - z + k);
    }
  }

  predicate FillsBlock(cb: nat, len: nat, zeros: nat)
    requires cb > 0
  {
    (len + 1 + zeros + 8) % cb == 0
  }

  /** A padded message is whole blocks: the complete blocks of the message and then one
      block, or two when the mark and the length field do not fit behind its tail. */
  lemma PadIsWholeBlocks(order: ByteOrder, cb: nat, m: seq<byte>)
    requires cb >= 9
    ensures Tail(cb, Pad(order, cb, m)) == []
    ensures |m| + 9 <= |Pad(order, cb, m)|
    ensures |Pad(order, cb, m)| == |m| / cb * cb + (if |m| % cb + 9 <= cb then cb else 2 * cb)
  {
    ZeroCountIsLeast(cb, |m|);
    ZeroCountForm(cb, |m|);
    DivParts(|m|, cb);
    var p := Pad(order, cb, m);
    assert |p| % cb == 0;
    TailClosedForm(cb, p);
  }

  /** No two messages pad to the same blocks; no bound on their lengths is needed. */
  lemma PadInjective(order: ByteOrder, cb: nat, m: seq<byte>, m': seq<byte>)
    requires cb >= 9
    requires Pad(order, cb, m) == Pad(order, cb, m')
    ensures m == m'
  {
    PadIsWholeBlocks(order, cb, m);
    PadIsWholeBlocks(order, cb, m');
    var p := Pad(order, cb, m);
    MarkPosition(order, cb, m);
    MarkPosition(order, cb, m');
    assert |m| == |m'|;
    assert m == p[..|m|] == m';
  }

  /** In a padded message everything from the mark to the length field is fixed. */
  lemma MarkPosition(order: ByteOrder, cb: nat, m: seq<byte>)
    requires cb >= 9
    ensures var p := Pad(order, cb, m);
      && |p| >= |m| + 9
      && p[|m|] == 0x80
      && (forall i :: |m| < i < |p| - 8 ==> p[i] == 0)
      && p[|p| - 8..] == LengthField(order, 8 * |m| % 0x1_0000_0000_0000_0000)
  {
  }

  /** The hash of a message before the output transformation. */
  function Hash<S>(order: ByteOrder, f: (S, seq<byte>) -> S, cb: nat, h0: S, m: seq<byte>): S
    requires cb > 0
  {
    Fold(f, cb, h0, Pad(order, cb, m))
  }

  /** What finishing a stream yields: the padding goes after the pending bytes. */
  function Finish<S>(order: ByteOrder, f: (S, seq<byte>) -> S, cb: nat, st: Stream<S>): S
    requires cb > 0
  {
    Fold(f, cb, st.h, st.pending + Padding(order, cb, |st.pending|, st.count))
  }

  /** The one or two blocks that finishing compresses. */
  lemma FinishInBlocks<S>(order: ByteOrder, f: (S, seq<byte>) -> S, cb: nat, st: Stream<S>)
    requires 9 <= cb && |st.pending| < cb
    ensures var n := |st.pending|;
      Finish(order, f, cb, st) ==
      if n + 9 <= cb
      then f(st.h, st.pending + [0x80] + Zeros(cb - 9 - n) + LengthField(order, st.count))
      else f(f(st.h, st.pending + [0x80] + Zeros(cb - 1 - n)), Zeros(cb - 8) + LengthField(order, st.count))
  {
    var n := |st.pending|;
    DivSmall(n, cb);
    ZeroCountForm(cb, n);
    var whole := st.pending + Padding(order, cb, n, st.count);
    if n + 9 <= cb {
      assert whole == st.pending + [0x80] + Zeros(cb - 9 - n) + LengthField(order, st.count);
      FoldOne(f, cb, st.h, whole);
    } else {
      var first := st.pending + [0x80] + Zeros(cb - 1 - n);
      var second := Zeros(cb - 8) + LengthField(order, st.count);
      assert whole == first + second;
      assert whole[..cb] == first && whole[cb..] == second;
      FoldOne(f, cb, f(st.h, first), second);
    }
  }

  /** Streaming in any pieces and then finishing is the hash of the whole message. */
  lemma StreamingComputesHash<S>(order: ByteOrder, f: (S, seq<byte>) -> S, cb: nat, h0: S, pieces: seq<seq<byte>>)
    requires cb >= 9
    ensures Finish(order, f, cb, AbsorbAll(f, cb, Stream(h0, [], 0), pieces))
         == Hash(order, f, cb, h0, Flatten(pieces))
  {
    var m := Flatten(pieces);
    AnySplitAgrees(f, cb, Stream(h0, [], 0), pieces);
    assert [] + m == m;
    TailClosedForm(cb, m);
    var t := Tail(cb, m);
    DivSmall(|t|, cb);
    ZeroCountForm(cb, |m|);
    ZeroCountForm(cb, |t|);
    FoldExtend(f, cb, h0, m, Padding(order, cb, |m|, 8 * |m| % 0x1_0000_0000_0000_0000));
  }

  // ---------- Why the length is appended ----------

  ghost predicate Collision<S(!new)>(f: (S, seq<byte>) -> S, cb: nat, s: S, b: seq<byte>, s': S, b': seq<byte>) {
    |b| == cb && |b'| == cb && (s != s' || b != b') && f(s, b) == f(s', b')
  }

  lemma {:induction false} SameLengthCollision<S(!new)>(
      f: (S, seq<byte>) -> S, cb: nat, h: S, p: seq<byte>, q: seq<byte>)
    requires cb > 0 && |p| == |q| && p != q
    requires Tail(cb, p) == [] && Tail(cb, q) == []
    requires Fold(f, cb, h, p) == Fold(f, cb, h, q)
    ensures exists s, b, s', b' :: Collision(f, cb, s, b, s', b')
    decreases |p|
  {
    if |p| < cb {
      assert false;
    } else {
      var n := |p| - cb;
      var s, b := FoldLast(f, cb, h, p);
      var s', b' := FoldLast(f, cb, h, q);
      if s != s' || b != b' {
        assert Collision(f, cb, s, b, s', b');
      } else {
        assert p == p[..n] + p[n..] && q == q[..n] + q[n..];
        SameLengthCollision(f, cb, h, p[..n], q[..n]);
      }
    }
  }

  lemma LastBlocksDiffer<S(!new)>(f: (S, seq<byte>) -> S, cb: nat, h: S, p: seq<byte>, q: seq<byte>)
    requires cb > 0 && |p| >= cb && |q| >= cb && p[|p| - cb..] != q[|q| - cb..]
    requires Tail(cb, p) == [] && Tail(cb, q) == []
    requires Fold(f, cb, h, p) == Fold(f, cb, h, q)
    ensures exists s, b, s', b' :: Collision(f, cb, s, b, s', b')
  {
    var s, b := FoldLast(f, cb, h, p);
    var s', b' := FoldLast(f, cb, h, q);
    assert Collision(f, cb, s, b, s', b');
  }

  /** Messages whose bit counts differ modulo 2^64 differ in their very last block. */
  lemma LengthSeparates(order: ByteOrder, cb: nat, m: seq<byte>, m': seq<byte>)
    requires cb >= 9
    requires 8 * |m| % 0x1_0000_0000_0000_0000 != 8 * |m'| % 0x1_0000_0000_0000_0000
    ensures var p, p' := Pad(order, cb, m), Pad(order, cb, m');
      |p| >= cb && |p'| >= cb && p[|p| - cb..] != p'[|p'| - cb..]
  {
    PadIsWholeBlocks(order, cb, m);
    PadIsWholeBlocks(order, cb, m');
    var p, p' := Pad(order, cb, m), Pad(order, cb, m');
    MarkPosition(order, cb, m);
    MarkPosition(order, cb, m');
    var v, v' := 8 * |m| % 0x1_0000_0000_0000_0000, 8 * |m'| % 0x1_0000_0000_0000_0000;
    assert Pow256(8) == 0x1_0000_0000_0000_0000;
    EncodingsInjective(8, v, v');
    var b, b' := p[|p| - cb..], p'[|p'| - cb..];
    assert b[cb - 8..] == p[|p| - 8..];
    assert b'[cb - 8..] == p'[|p'| - 8..];
  }

  lemma LastBlockCollision<S(!new)>(
      order: ByteOrder, f: (S, seq<byte>) -> S, cb: nat, h0: S, m: seq<byte>, m': seq<byte>)
    requires cb >= 9
    requires 8 * |m| % 0x1_0000_0000_0000_0000 != 8 * |m'| % 0x1_0000_0000_0000_0000
    requires Hash(order, f, cb, h0, m) == Hash(order, f, cb, h0, m')
    ensures exists s, b, s', b' :: Collision(f, cb, s, b, s', b')
  {
    var p, p' := Pad(order, cb, m), Pad(order, cb, m');
    LengthSeparates(order, cb, m, m');
    PadIsWholeBlocks(order, cb, m);
    PadIsWholeBlocks(order, cb, m');
    LastBlocksDiffer(f, cb, h0, p, p');
  }

  lemma SameCountSameResidue(a: nat, b: nat)
    requires 8 * a % 0x1_0000_0000_0000_0000 == 8 * b % 0x1_0000_0000_0000_0000
    ensures a % 0x2000_0000_0000_0000 == b % 0x2000_0000_0000_0000
  {
    assert 8 * a % 0x1_0000_0000_0000_0000 == 8 * (a % 0x2000_0000_0000_0000);
    assert 8 * b % 0x1_0000_0000_0000_0000 == 8 * (b % 0x2000_0000_0000_0000);
  }

  /** The Merkle-Damgard theorem for this padding: two different messages with one hash
      exhibit two different inputs on which the compression function agrees. The length
      condition holds in particular when both are shorter than 2^61 bytes. */
  lemma HashCollisionNeedsCompressionCollision<S(!new)>(
      order: ByteOrder, f: (S, seq<byte>) -> S, cb: nat, h0: S, m: seq<byte>, m': seq<byte>)
    requires cb >= 9
    requires m != m'
    requires |m| % 0x2000_0000_0000_0000 == |m'| % 0x2000_0000_0000_0000 ==> |m| == |m'|
    requires Hash(order, f, cb, h0, m) == Hash(order, f, cb, h0, m')
    ensures exists s, b, s', b' :: Collision(f, cb, s, b, s', b')
  {
    if |m| == |m'| {
      var p, p' := Pad(order, cb, m), Pad(order, cb, m');
      PadIsWholeBlocks(order, cb, m);
      PadIsWholeBlocks(order, cb, m');
      if p == p' {
        PadInjective(order, cb, m, m');
      }
      SameLengthCollision(f, cb, h0, p, p');
    } else {
      if 8 * |m| % 0x1_0000_0000_0000_0000 == 8 * |m'| % 0x1_0000_0000_0000_0000 {
        SameCountSameResidue(|m|, |m'|);
      }
      LastBlockCollision(order, f, cb, h0, m, m');
    }
  }
}
