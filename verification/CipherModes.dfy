/** The ECB, CBC, CFB and OFB modes of NIST SP 800-38A (sections 6.1 to 6.4) over an
    abstract block cipher. The feedback modes are given a byte at a time, which is how the
    library keeps a position `num` inside a block between calls, and are related to the
    block-wise definitions of the standard below. */
module CipherModes {
  import opened Division
  import opened Sequences

  type octet = bv8

  datatype RawCipher = RawCipher(bs: nat, E: seq<octet> -> seq<octet>, D: seq<octet> -> seq<octet>) {
    ghost predicate Valid() {
      && bs > 0
      && (forall x :: |x| == bs ==> |E(x)| == bs && D(E(x)) == x)
      && (forall x :: |x| == bs ==> |D(x)| == bs)
    }
  }

  /** A block cipher: both directions keep the block size, and D undoes E. */
  type Cipher = c: RawCipher | c.Valid() witness RawCipher(1, x => x, x => x)

  datatype Mode = Ofb | Cfb | Cfb8

  /** The chaining register and the number of bytes of it already used. */
  datatype Feedback = Feedback(iv: seq<octet>, num: nat)

  predicate Ready(c: Cipher, st: Feedback) {
    |st.iv| == c.bs && st.num < c.bs
  }

  datatype Result = Result(st: Feedback, out: seq<octet>)

  // ---------- A byte at a time ----------

  /** Position `n` in a block of `bs` bytes, back at the start when the block is used up. */
  function Wrap(bs: nat, n: nat): nat {
    if n == bs then 0 else n
  }

  function StepByte(c: Cipher, mode: Mode, encrypting: bool, st: Feedback, b: octet): (r: (Feedback, octet))
    requires Ready(c, st)
    ensures Ready(c, r.0)
  {
    match mode
    case Ofb =>
      var iv := if st.num == 0 then c.E(st.iv) else st.iv;
      (Feedback(iv, Wrap(c.bs, st.num + 1)), b ^ iv[st.num])
    case Cfb =>
      var iv := if st.num == 0 then c.E(st.iv) else st.iv;
      var o := b ^ iv[st.num];
      (Feedback(iv[st.num := if encrypting then o else b], Wrap(c.bs, st.num + 1)), o)
    case Cfb8 =>
      var o := b ^ c.E(st.iv)[0];
      (Feedback(st.iv[1..] + [if encrypting then o else b], st.num), o)
  }

  /** One unchunked run of a feedback mode. */
  function Run(c: Cipher, mode: Mode, encrypting: bool, st: Feedback, p: seq<octet>): (r: Result)
    requires Ready(c, st)
    ensures Ready(c, r.st) && |r.out| == |p|
    decreases |p|
  {
    if p == [] then Result(st, [])
    else
      var (st1, o) := StepByte(c, mode, encrypting, st, p[0]);
      var r := Run(c, mode, encrypting, st1, p[1..]);
      Result(r.st, [o] + r.out)
  }

  /** Stopping anywhere, even inside a block, and going on from the register and position
      left behind is the same as not stopping. */
  lemma {:induction false} RunAppend(
      c: Cipher, mode: Mode, encrypting: bool, st: Feedback, a: seq<octet>, b: seq<octet>)
    requires Ready(c, st)
    ensures var r := Run(c, mode, encrypting, st, a);
      var r' := Run(c, mode, encrypting, r.st, b);
      Run(c, mode, encrypting, st, a + b) == Result(r'.st, r.out + r'.out)
    decreases |a|
  {
    if a == [] {
      assert a + b == b;
    } else {
      var (st1, o) := StepByte(c, mode, encrypting, st, a[0]);
      assert (a + b)[0] == a[0] && (a + b)[1..] == a[1..] + b;
      RunAppend(c, mode, encrypting, st1, a[1..], b);
      var r := Run(c, mode, encrypting, st1, a[1..]);
      var r' := Run(c, mode, encrypting, r.st, b);
      Associate([o], r.out, r'.out);
    }
  }

  ghost predicate StepUndone(c: Cipher, mode: Mode, st: Feedback, b: octet)
    requires Ready(c, st)
  {
    var (st1, o) := StepByte(c, mode, true, st, b);
    StepByte(c, mode, false, st, o) == (st1, b)
  }

  lemma Cfb8ByteRoundTrip(c: Cipher, st: Feedback, b: octet)
    requires Ready(c, st)
    ensures StepUndone(c, Cfb8, st, b)
  {
    XorCancels(b, c.E(st.iv)[0]);
  }

  lemma OfbByteRoundTrip(c: Cipher, st: Feedback, b: octet)
    requires Ready(c, st)
    ensures StepUndone(c, Ofb, st, b)
  {
    var iv := if st.num == 0 then c.E(st.iv) else st.iv;
    XorCancels(b, iv[st.num]);
  }

  lemma CfbByteRoundTrip(c: Cipher, st: Feedback, b: octet)
    requires Ready(c, st)
    ensures StepUndone(c, Cfb, st, b)
  {
    var iv := if st.num == 0 then c.E(st.iv) else st.iv;
    XorCancels(b, iv[st.num]);
  }

  lemma ByteRoundTrip(c: Cipher, mode: Mode, st: Feedback, b: octet)
    requires Ready(c, st)
    ensures StepUndone(c, mode, st, b)
  {
    match mode
    case Ofb => OfbByteRoundTrip(c, st, b);
    case Cfb => CfbByteRoundTrip(c, st, b);
    case Cfb8 => Cfb8ByteRoundTrip(c, st, b);
  }

  /** Decrypting what was encrypted from the same state gives the input back, and the two
      ends agree on the state afterwards. */
  lemma {:induction false} RunRoundTrip(c: Cipher, mode: Mode, st: Feedback, p: seq<octet>)
    requires Ready(c, st)
    ensures var e := Run(c, mode, true, st, p);
      Run(c, mode, false, st, e.out) == Result(e.st, p)
    decreases |p|
  {
    if p != [] {
      var (st1, o) := StepByte(c, mode, true, st, p[0]);
      var rest := Run(c, mode, true, st1, p[1..]);
      ByteRoundTrip(c, mode, st, p[0]);
      assert StepByte(c, mode, false, st, o) == (st1, p[0]);
      RunRoundTrip(c, mode, st1, p[1..]);
      var q := [o] + rest.out;
      assert q[0] == o && q[1..] == rest.out;
      assert Run(c, mode, false, st, q) == Result(rest.st, [p[0]] + p[1..]);
    }
  }

  // ---------- The standard's block-wise definitions ----------

  function Xor(a: seq<octet>, b: seq<octet>): (r: seq<octet>)
    requires |a| <= |b|
    ensures |r| == |a|
  {
    seq(|a|, i requires 0 <= i < |a| => a[i] ^ b[i])
  }

  function Min(a: nat, b: nat): nat {
    if a < b then a else b
  }

  /** Section 6.4: output blocks are iterates of the cipher on the IV; the last may be cut. */
  function StandardOfb(c: Cipher, iv: seq<octet>, p: seq<octet>): seq<octet>
    requires |iv| == c.bs
    decreases |p|
  {
    if p == [] then []
    else
      var n := Min(c.bs, |p|);
      Xor(p[..n], c.E(iv)) + StandardOfb(c, c.E(iv), p[n..])
  }

  /** Section 6.3 with whole-block segments: each ciphertext block is the next input block. */
  function StandardCfb(c: Cipher, encrypting: bool, iv: seq<octet>, p: seq<octet>): seq<octet>
    requires |iv| == c.bs
    decreases |p|
  {
    if |p| <= c.bs then Xor(p, c.E(iv))
    else
      var o := Xor(p[..c.bs], c.E(iv));
      o + StandardCfb(c, encrypting, if encrypting then o else p[..c.bs], p[c.bs..])
  }

  lemma XorCons(p: seq<octet>, k: seq<octet>)
    requires 0 < |p| <= |k|
    ensures Xor(p, k) == [p[0] ^ k[0]] + Xor(p[1..], k[1..])
  {
  }

  lemma OfbRunWithin(c: Cipher, encrypting: bool, k: seq<octet>, num: nat, p: seq<octet>)
    requires |k| == c.bs && 0 < num < c.bs && p != []
    ensures var r := Run(c, Ofb, encrypting, Feedback(k, Wrap(c.bs, num + 1)), p[1..]);
      Run(c, Ofb, encrypting, Feedback(k, num), p) == Result(r.st, [p[0] ^ k[num]] + r.out)
  {
  }

  /** Within one block, OFB uses up the output block `k` from position `num` on. */
  lemma {:induction false} OfbWithinBlock(c: Cipher, encrypting: bool, k: seq<octet>, num: nat, p: seq<octet>)
    requires |k| == c.bs && 0 < num && num + |p| <= c.bs
    ensures Run(c, Ofb, encrypting, Feedback(k, Wrap(c.bs, num)), p)
         == Result(Feedback(k, Wrap(c.bs, num + |p|)), Xor(p, k[num..]))
    decreases |p|
  {
    if p != [] {
      OfbRunWithin(c, encrypting, k, num, p);
      OfbWithinBlock(c, encrypting, k, num + 1, p[1..]);
      XorCons(p, k[num..]);
      assert k[num..][1..] == k[num + 1..];
    }
  }

  lemma OfbBlock(c: Cipher, encrypting: bool, iv: seq<octet>, p: seq<octet>)
    requires |iv| == c.bs && 0 < |p| <= c.bs
    ensures Run(c, Ofb, encrypting, Feedback(iv, 0), p)
         == Result(Feedback(c.E(iv), Wrap(c.bs, |p|)), Xor(p, c.E(iv)))
  {
    XorCons(p, c.E(iv));
    OfbWithinBlock(c, encrypting, c.E(iv), 1, p[1..]);
  }

  /** The byte-wise OFB, started on a block boundary, is the standard's. */
  lemma {:induction false} OfbIsStandard(c: Cipher, encrypting: bool, iv: seq<octet>, p: seq<octet>)
    requires |iv| == c.bs
    ensures Run(c, Ofb, encrypting, Feedback(iv, 0), p).out == StandardOfb(c, iv, p)
    decreases |p|
  {
    if p != [] {
      var n := Min(c.bs, |p|);
      OfbBlock(c, encrypting, iv, p[..n]);
      assert p == p[..n] + p[n..];
      RunAppend(c, Ofb, encrypting, Feedback(iv, 0), p[..n], p[n..]);
      if n == c.bs {
        OfbIsStandard(c, encrypting, c.E(iv), p[n..]);
      }
    }
  }

  /** What CFB feeds back: the ciphertext, whichever side it is on. */
  function FeedBack(encrypting: bool, p: seq<octet>, k: seq<octet>): (r: seq<octet>)
    requires |p| <= |k|
    ensures |r| == |p|
  {
    if encrypting then Xor(p, k) else p
  }

  lemma FeedBackCons(encrypting: bool, p: seq<octet>, k: seq<octet>)
    requires 0 < |p| <= |k|
    ensures FeedBack(encrypting, p, k)
         == [if encrypting then p[0] ^ k[0] else p[0]] + FeedBack(encrypting, p[1..], k[1..])
  {
    XorCons(p, k);
  }

  lemma CfbByteWithin(c: Cipher, encrypting: bool, done: seq<octet>, k: seq<octet>, b: octet)
    requires |done + k| == c.bs && 0 < |done| && 0 < |k|
    ensures var fed := if encrypting then b ^ k[0] else b;
      StepByte(c, Cfb, encrypting, Feedback(done + k, |done|), b)
      == (Feedback(done + [fed] + k[1..], Wrap(c.bs, |done| + 1)), b ^ k[0])
  {
    var fed := if encrypting then b ^ k[0] else b;
    assert (done + k)[|done| := fed] == done + [fed] + k[1..];
  }

  lemma CfbRunWithin(c: Cipher, encrypting: bool, done: seq<octet>, k: seq<octet>, p: seq<octet>)
    requires |done + k| == c.bs && 0 < |done| && 0 < |p| <= |k|
    ensures var fed := if encrypting then p[0] ^ k[0] else p[0];
      var r := Run(c, Cfb, encrypting, Feedback(done + [fed] + k[1..], Wrap(c.bs, |done| + 1)), p[1..]);
      Run(c, Cfb, encrypting, Feedback(done + k, |done|), p) == Result(r.st, [p[0] ^ k[0]] + r.out)
  {
    CfbByteWithin(c, encrypting, done, k, p[0]);
  }

  lemma Regroup(encrypting: bool, done: seq<octet>, k: seq<octet>, p: seq<octet>)
    requires 0 < |p| <= |k|
    ensures var b := if encrypting then p[0] ^ k[0] else p[0];
      done + [b] + FeedBack(encrypting, p[1..], k[1..]) + k[1..][|p| - 1..]
      == done + FeedBack(encrypting, p, k) + k[|p|..]
  {
    FeedBackCons(encrypting, p, k);
  }

  /** What CFB makes of the rest `k` of an output block whose front is overwritten. */
  function CfbWithin(c: Cipher, encrypting: bool, done: seq<octet>, k: seq<octet>, p: seq<octet>): Result
    requires |p| <= |k|
  {
    Result(Feedback(done + FeedBack(encrypting, p, k) + k[|p|..], Wrap(c.bs, |done| + |p|)), Xor(p, k))
  }

  lemma CfbWithinCons(c: Cipher, encrypting: bool, done: seq<octet>, k: seq<octet>, p: seq<octet>)
    requires 0 < |p| <= |k|
    ensures var b := if encrypting then p[0] ^ k[0] else p[0];
      var r := CfbWithin(c, encrypting, done + [b], k[1..], p[1..]);
      CfbWithin(c, encrypting, done, k, p) == Result(r.st, [p[0] ^ k[0]] + r.out)
  {
    Regroup(encrypting, done, k, p);
    XorCons(p, k);
  }

  ghost predicate CfbRunsWithin(c: Cipher, encrypting: bool, done: seq<octet>, k: seq<octet>, p: seq<octet>)
    requires |done + k| == c.bs && 0 < |done| && |p| <= |k|
  {
    Run(c, Cfb, encrypting, Feedback(done + k, Wrap(c.bs, |done|)), p) == CfbWithin(c, encrypting, done, k, p)
  }

  lemma CfbWithinStep(c: Cipher, encrypting: bool, done: seq<octet>, k: seq<octet>, p: seq<octet>)
    requires |done + k| == c.bs && 0 < |done| && 0 < |p| <= |k|
    requires CfbRunsWithin(c, encrypting, done + [if encrypting then p[0] ^ k[0] else p[0]], k[1..], p[1..])
    ensures CfbRunsWithin(c, encrypting, done, k, p)
  {
    CfbRunWithin(c, encrypting, done, k, p);
    CfbWithinCons(c, encrypting, done, k, p);
  }

  lemma CfbWithinNothing(c: Cipher, encrypting: bool, done: seq<octet>, k: seq<octet>)
    ensures CfbWithin(c, encrypting, done, k, []) == Result(Feedback(done + k, Wrap(c.bs, |done|)), [])
  {
    assert done + [] + k == done + k;
  }

  /** Within one block, CFB overwrites the output block from position `num` on with the
      ciphertext: `done` is what it has overwritten already. */
  lemma {:induction false} CfbWithinBlock(c: Cipher, encrypting: bool, done: seq<octet>, k: seq<octet>, p: seq<octet>)
    requires |done + k| == c.bs && 0 < |done| && |p| <= |k|
    ensures CfbRunsWithin(c, encrypting, done, k, p)
    decreases |p|
  {
    if p == [] {
      CfbWithinNothing(c, encrypting, done, k);
    } else {
      var b := if encrypting then p[0] ^ k[0] else p[0];
      CfbWithinBlock(c, encrypting, done + [b], k[1..], p[1..]);
      CfbWithinStep(c, encrypting, done, k, p);
    }
  }

  lemma CfbBlock(c: Cipher, encrypting: bool, iv: seq<octet>, p: seq<octet>)
    requires |iv| == c.bs && 0 < |p| <= c.bs
    ensures var k := c.E(iv);
      Run(c, Cfb, encrypting, Feedback(iv, 0), p)
      == Result(Feedback(FeedBack(encrypting, p, k) + k[|p|..], Wrap(c.bs, |p|)), Xor(p, k))
  {
    var k := c.E(iv);
    var b := if encrypting then p[0] ^ k[0] else p[0];
    assert k[0 := b] == [b] + k[1..];
    CfbWithinBlock(c, encrypting, [b], k[1..], p[1..]);
    XorCons(p, k);
    FeedBackCons(encrypting, p, k);
    assert k[1..][|p| - 1..] == k[|p|..];
  }

  /** The byte-wise CFB, started on a block boundary, is the standard's. */
  lemma {:induction false} CfbIsStandard(c: Cipher, encrypting: bool, iv: seq<octet>, p: seq<octet>)
    requires |iv| == c.bs
    ensures Run(c, Cfb, encrypting, Feedback(iv, 0), p).out == StandardCfb(c, encrypting, iv, p)
    decreases |p|
  {
    if 0 < |p| <= c.bs {
      CfbBlock(c, encrypting, iv, p);
    } else if p != [] {
      var a, b := p[..c.bs], p[c.bs..];
      var o := Xor(a, c.E(iv));
      CfbBlock(c, encrypting, iv, a);
      assert p == a + b;
      RunAppend(c, Cfb, encrypting, Feedback(iv, 0), a, b);
      assert c.E(iv)[c.bs..] == [];
      var fed := FeedBack(encrypting, a, c.E(iv));
      assert fed + [] == fed;
      CfbIsStandard(c, encrypting, fed, b);
    }
  }

  // ---------- Block modes ----------

  datatype Blocks = Blocks(iv: seq<octet>, out: seq<octet>)

  /** Section 6.2, over the complete blocks of `p`. */
  function Cbc(c: Cipher, encrypting: bool, iv: seq<octet>, p: seq<octet>): (r: Blocks)
    requires |iv| == c.bs
    ensures |r.iv| == c.bs
    decreases |p|
  {
    if |p| < c.bs then Blocks(iv, [])
    else
      var x := p[..c.bs];
      var o := if encrypting then c.E(Xor(x, iv)) else Xor(c.D(x), iv);
      var r := Cbc(c, encrypting, if encrypting then o else x, p[c.bs..]);
      Blocks(r.iv, o + r.out)
  }

  /** Section 6.1, over the complete blocks of `p`. */
  function Ecb(c: Cipher, encrypting: bool, p: seq<octet>): seq<octet>
    decreases |p|
  {
    if |p| < c.bs then []
    else (if encrypting then c.E(p[..c.bs]) else c.D(p[..c.bs])) + Ecb(c, encrypting, p[c.bs..])
  }

  /** `n` bytes are whole blocks. */
  ghost predicate Aligned(bs: nat, n: nat)
    requires bs > 0
  {
    n == 0 || (n >= bs && Aligned(bs, n - bs))
  }

  lemma {:induction false} AlignedIsMultiple(bs: nat, n: nat)
    requires bs > 0
    ensures Aligned(bs, n) <==> n % bs == 0
  {
    if n < bs {
      DivSmall(n, bs);
    } else {
      DivStep(n, bs);
      AlignedIsMultiple(bs, n - bs);
    }
  }

  lemma {:induction false} EcbAppend(c: Cipher, encrypting: bool, a: seq<octet>, b: seq<octet>)
    requires Aligned(c.bs, |a|)
    ensures |Ecb(c, encrypting, a)| == |a|
    ensures Ecb(c, encrypting, a + b) == Ecb(c, encrypting, a) + Ecb(c, encrypting, b)
    decreases |a|
  {
    if a == [] {
      assert a + b == b;
    } else {
      var y := if encrypting then c.E(a[..c.bs]) else c.D(a[..c.bs]);
      assert (a + b)[..c.bs] == a[..c.bs];
      assert (a + b)[c.bs..] == a[c.bs..] + b;
      EcbAppend(c, encrypting, a[c.bs..], b);
      Associate(y, Ecb(c, encrypting, a[c.bs..]), Ecb(c, encrypting, b));
    }
  }

  lemma {:induction false} CbcLength(c: Cipher, encrypting: bool, iv: seq<octet>, p: seq<octet>)
    requires |iv| == c.bs && Aligned(c.bs, |p|)
    ensures |Cbc(c, encrypting, iv, p).out| == |p|
    decreases |p|
  {
    if |p| < c.bs {
    } else {
      var x := p[..c.bs];
      var o := if encrypting then c.E(Xor(x, iv)) else Xor(c.D(x), iv);
      CbcLength(c, encrypting, if encrypting then o else x, p[c.bs..]);
    }
  }

  lemma {:induction false} CbcAppend(c: Cipher, encrypting: bool, iv: seq<octet>, a: seq<octet>, b: seq<octet>)
    requires |iv| == c.bs && Aligned(c.bs, |a|)
    ensures var r := Cbc(c, encrypting, iv, a);
      var r' := Cbc(c, encrypting, r.iv, b);
      Cbc(c, encrypting, iv, a + b) == Blocks(r'.iv, r.out + r'.out)
    decreases |a|
  {
    if |a| < c.bs {
      assert a + b == b;
    } else {
      var x := a[..c.bs];
      var o := if encrypting then c.E(Xor(x, iv)) else Xor(c.D(x), iv);
      assert (a + b)[..c.bs] == x;
      assert (a + b)[c.bs..] == a[c.bs..] + b;
      CbcAppend(c, encrypting, if encrypting then o else x, a[c.bs..], b);
      var r := Cbc(c, encrypting, if encrypting then o else x, a[c.bs..]);
      Associate(o, r.out, Cbc(c, encrypting, r.iv, b).out);
    }
  }

  lemma CbcDecryptCons(c: Cipher, iv: seq<octet>, o: seq<octet>, rest: seq<octet>)
    requires |iv| == c.bs && |o| == c.bs
    ensures var r := Cbc(c, false, o, rest);
      Cbc(c, false, iv, o + rest) == Blocks(r.iv, Xor(c.D(o), iv) + r.out)
  {
    assert (o + rest)[..c.bs] == o && (o + rest)[c.bs..] == rest;
  }

  lemma {:induction false} CbcRoundTrip(c: Cipher, iv: seq<octet>, p: seq<octet>)
    requires |iv| == c.bs && Aligned(c.bs, |p|)
    ensures var e := Cbc(c, true, iv, p);
      Cbc(c, false, iv, e.out) == Blocks(e.iv, p)
    decreases |p|
  {
    if |p| < c.bs {
    } else {
      var x, rest := p[..c.bs], p[c.bs..];
      var o := c.E(Xor(x, iv));
      CbcRoundTrip(c, o, rest);
      CbcDecryptCons(c, iv, o, Cbc(c, true, o, rest).out);
      XorTwice(x, iv);
      Rejoin(p, c.bs);
    }
  }

  lemma XorTwice(a: seq<octet>, b: seq<octet>)
    requires |a| == |b|
    ensures Xor(Xor(a, b), b) == a
  {
    forall i | 0 <= i < |a|
      ensures Xor(Xor(a, b), b)[i] == a[i]
    {
      XorCancels(a[i], b[i]);
    }
  }

  lemma XorCancels(a: octet, b: octet)
    ensures a ^ b ^ b == a
  {
  }
}
