/** The modes written out: what every byte or block of the output is, in terms of the cipher
    applied to known data. These pin the modes of CipherModes and BitFeedback to sections 6.1,
    6.2 and 6.3 of NIST SP 800-38A, where OFB and CFB with whole blocks are related to the
    standard already. */
module ModeEquations {
  import opened CipherModes
  import opened BitFeedback
  import opened Sequences

  // ---------- CFB with segments of eight bits ----------

  /** The register after the ciphertext bytes `fed`: the last `bs` bytes of the initial one
      and what was fed in behind it. */
  function Shifted<T>(iv: seq<T>, fed: seq<T>): (r: seq<T>)
    ensures |r| == |iv|
  {
    (iv + fed)[|fed|..]
  }

  lemma ShiftedNothing<T>(iv: seq<T>)
    ensures Shifted(iv, []) == iv
  {
  }

  lemma ShiftedCons<T>(iv: seq<T>, b: T, fed: seq<T>)
    requires iv != []
    ensures Shifted(iv[1..] + [b], fed) == Shifted(iv, [b] + fed)
  {
    assert iv + ([b] + fed) == [iv[0]] + (iv[1..] + [b] + fed);
  }

  lemma {:induction false} Cfb8Register(c: Cipher, encrypting: bool, st: Feedback, p: seq<octet>)
    requires Ready(c, st)
    ensures var r := Run(c, Cfb8, encrypting, st, p);
      r.st == Feedback(Shifted(st.iv, if encrypting then r.out else p), st.num)
    decreases |p|
  {
    if p == [] {
      ShiftedNothing(st.iv);
    } else {
      var o := p[0] ^ c.E(st.iv)[0];
      var fed := if encrypting then o else p[0];
      var st1 := Feedback(st.iv[1..] + [fed], st.num);
      Cfb8Register(c, encrypting, st1, p[1..]);
      var r := Run(c, Cfb8, encrypting, st1, p[1..]);
      ShiftedCons(st.iv, fed, if encrypting then r.out else p[1..]);
      HeadAndTail(p);
    }
  }

  /** Section 6.3 with segments of eight bits: byte `i` is xored with the first byte of the
      encryption of the last `bs` bytes of the IV followed by the ciphertext so far. */
  lemma Cfb8IsStandard(c: Cipher, encrypting: bool, st: Feedback, p: seq<octet>, i: nat)
    requires Ready(c, st) && i < |p|
    ensures var out := Run(c, Cfb8, encrypting, st, p).out;
      var fed := if encrypting then out else p;
      out[i] == p[i] ^ c.E((st.iv + fed[..i])[i..])[0]
  {
    var a, b := p[..i], p[i..];
    Rejoin(p, i);
    RunAppend(c, Cfb8, encrypting, st, a, b);
    Cfb8Register(c, encrypting, st, a);
    var r := Run(c, Cfb8, encrypting, st, a);
    var out := Run(c, Cfb8, encrypting, st, p).out;
    assert out[..i] == r.out && p[..i] == a;
    assert r.st.iv == (st.iv + (if encrypting then out else p)[..i])[i..];
    assert out[i] == Run(c, Cfb8, encrypting, r.st, b).out[0];
  }

  // ---------- CFB with segments of one bit ----------

  /** The bits of a byte are numbered from the most significant one. */
  lemma UnpackIsBits(b: octet)
    ensures var bits := Unpack(b);
      && bits[0] == ((b >> 7) & 1 == 1) && bits[1] == ((b >> 6) & 1 == 1)
      && bits[2] == ((b >> 5) & 1 == 1) && bits[3] == ((b >> 4) & 1 == 1)
      && bits[4] == ((b >> 3) & 1 == 1) && bits[5] == ((b >> 2) & 1 == 1)
      && bits[6] == ((b >> 1) & 1 == 1) && bits[7] == ((b & 1) == 1)
  {
  }

  lemma UnpackShifted(b: octet, low: bool)
    ensures Unpack(ShiftUp(b, low)) == Unpack(b)[1..] + [low]
  {
  }

  lemma TopIsFirst(x: seq<octet>)
    requires x != []
    ensures UnpackAll(x)[0] == TopBit(x[0])
  {
  }

  lemma ShiftInCons(iv: seq<octet>, bit: bool)
    requires |iv| > 1
    ensures ShiftIn(iv, bit) == [ShiftUp(iv[0], TopBit(iv[1]))] + ShiftIn(iv[1..], bit)
  {
  }

  /** Shifting the register moves its bits up by one. */
  lemma {:induction false} ShiftInShiftsBits(iv: seq<octet>, bit: bool)
    requires iv != []
    ensures UnpackAll(ShiftIn(iv, bit)) == UnpackAll(iv)[1..] + [bit]
  {
    if |iv| == 1 {
      UnpackShifted(iv[0], bit);
      assert ShiftIn(iv, bit) == [ShiftUp(iv[0], bit)] && iv[1..] == [];
      OneByte(iv[0]);
      OneByte(ShiftUp(iv[0], bit));
      assert iv == [iv[0]];
    } else {
      ShiftInCons(iv, bit);
      ShiftInShiftsBits(iv[1..], bit);
      TopIsFirst(iv[1..]);
      UnpackShifted(iv[0], TopBit(iv[1]));
      JoinBits(Unpack(iv[0]), UnpackAll(iv[1..]), bit);
      UnpackCons(ShiftUp(iv[0], TopBit(iv[1])), ShiftIn(iv[1..], bit));
    }
  }

  lemma OneByte(b: octet)
    ensures UnpackAll([b]) == Unpack(b)
  {
    assert [b][1..] == [];
  }

  lemma UnpackCons(b: octet, rest: seq<octet>)
    ensures UnpackAll([b] + rest) == Unpack(b) + UnpackAll(rest)
  {
    assert ([b] + rest)[1..] == rest;
  }

  lemma JoinBits(a: seq<bool>, b: seq<bool>, bit: bool)
    requires a != [] && b != []
    ensures a[1..] + [b[0]] + (b[1..] + [bit]) == (a + b)[1..] + [bit]
  {
  }

  lemma {:induction false} Cfb1Register(c: Cipher, encrypting: bool, iv: seq<octet>, bits: seq<bool>)
    requires |iv| == c.bs
    ensures var r := Cfb1Bits(c, encrypting, iv, bits);
      UnpackAll(r.iv) == Shifted(UnpackAll(iv), if encrypting then r.out else bits)
    decreases |bits|
  {
    if bits == [] {
      ShiftedNothing(UnpackAll(iv));
    } else {
      var (iv1, o) := StepBit(c, encrypting, iv, bits[0]);
      Cfb1Register(c, encrypting, iv1, bits[1..]);
      Cfb1RegisterCons(c, encrypting, iv, bits);
    }
  }

  lemma Cfb1RegisterCons(c: Cipher, encrypting: bool, iv: seq<octet>, bits: seq<bool>)
    requires |iv| == c.bs && bits != []
    requires var (iv1, o) := StepBit(c, encrypting, iv, bits[0]);
      var r := Cfb1Bits(c, encrypting, iv1, bits[1..]);
      UnpackAll(r.iv) == Shifted(UnpackAll(iv1), if encrypting then r.out else bits[1..])
    ensures var r := Cfb1Bits(c, encrypting, iv, bits);
      UnpackAll(r.iv) == Shifted(UnpackAll(iv), if encrypting then r.out else bits)
  {
    var (iv1, o) := StepBit(c, encrypting, iv, bits[0]);
    var fed := if encrypting then o else bits[0];
    var r := Cfb1Bits(c, encrypting, iv1, bits[1..]);
    ShiftInShiftsBits(iv, fed);
    ShiftedCons(UnpackAll(iv), fed, if encrypting then r.out else bits[1..]);
    HeadAndTail(bits);
  }

  lemma FirstBit(c: Cipher, encrypting: bool, iv: seq<octet>, bits: seq<bool>)
    requires |iv| == c.bs && bits != []
    ensures Cfb1Bits(c, encrypting, iv, bits).out[0] == (bits[0] != UnpackAll(c.E(iv))[0])
  {
    TopIsFirst(c.E(iv));
  }

  /** Section 6.3 with segments of one bit: bit `i` is xored with the first bit of the
      encryption of the last bits of the IV followed by the ciphertext so far. */
  lemma Cfb1IsStandard(c: Cipher, encrypting: bool, iv: seq<octet>, bits: seq<bool>, i: nat)
    requires |iv| == c.bs && i < |bits|
    ensures var out := Cfb1Bits(c, encrypting, iv, bits).out;
      var fed := if encrypting then out else bits;
      out[i] == (bits[i] != UnpackAll(c.E(PackAll((UnpackAll(iv) + fed[..i])[i..])))[0])
  {
    var a, b := bits[..i], bits[i..];
    Rejoin(bits, i);
    Cfb1BitsAppend(c, encrypting, iv, a, b);
    Cfb1Register(c, encrypting, iv, a);
    var r := Cfb1Bits(c, encrypting, iv, a);
    var out := Cfb1Bits(c, encrypting, iv, bits).out;
    assert out[..i] == r.out;
    assert UnpackAll(r.iv) == (UnpackAll(iv) + (if encrypting then out else bits)[..i])[i..];
    PackUnpackAll(r.iv);
    FirstBit(c, encrypting, r.iv, b);
    assert out[i] == Cfb1Bits(c, encrypting, r.iv, b).out[0];
  }

  /** Over bytes the one-bit mode is this, on their bits. */
  lemma RunBitsInBits(c: Cipher, encrypting: bool, iv: seq<octet>, p: seq<octet>)
    requires |iv| == c.bs
    ensures UnpackAll(RunBits(c, encrypting, iv, p).out) == Cfb1Bits(c, encrypting, iv, UnpackAll(p)).out
    ensures RunBits(c, encrypting, iv, p).iv == Cfb1Bits(c, encrypting, iv, UnpackAll(p)).iv
  {
    UnpackPackAll(Cfb1Bits(c, encrypting, iv, UnpackAll(p)).out);
  }

  // ---------- CBC and ECB ----------

  lemma XorIsBytewise(a: seq<octet>, b: seq<octet>, i: nat)
    requires |a| <= |b| && i < |a|
    ensures Xor(a, b)[i] == a[i] ^ b[i]
  {
  }

  /** The block that CBC makes of `x` behind the ciphertext block `prev`. */
  function CbcBlock(c: Cipher, encrypting: bool, prev: seq<octet>, x: seq<octet>): (o: seq<octet>)
    requires |prev| == c.bs && |x| == c.bs
    ensures |o| == c.bs
  {
    if encrypting then c.E(Xor(x, prev)) else Xor(c.D(x), prev)
  }

  lemma CbcCons(c: Cipher, encrypting: bool, iv: seq<octet>, x: seq<octet>, rest: seq<octet>)
    requires |iv| == c.bs && |x| == c.bs
    ensures var o := CbcBlock(c, encrypting, iv, x);
      var r := Cbc(c, encrypting, if encrypting then o else x, rest);
      Cbc(c, encrypting, iv, x + rest) == Blocks(r.iv, o + r.out)
  {
    assert (x + rest)[..c.bs] == x && (x + rest)[c.bs..] == rest;
  }

  /** The register after whole blocks: the last ciphertext block. */
  function LastBlock(bs: nat, iv: seq<octet>, fed: seq<octet>): seq<octet>
    requires |fed| == 0 || |fed| >= bs
  {
    if |fed| == 0 then iv else fed[|fed| - bs..]
  }

  lemma LastBlockCons(bs: nat, iv: seq<octet>, x: seq<octet>, fed: seq<octet>)
    requires |x| == bs > 0 && (|fed| == 0 || |fed| >= bs)
    ensures LastBlock(bs, iv, x + fed) == LastBlock(bs, x, fed)
  {
    if fed == [] {
      assert x + fed == x && x[0..] == x;
    } else {
      assert (x + fed)[|x + fed| - bs..] == fed[|fed| - bs..];
    }
  }

  lemma {:induction false} CbcRegister(c: Cipher, encrypting: bool, iv: seq<octet>, a: seq<octet>)
    requires |iv| == c.bs && Aligned(c.bs, |a|)
    ensures var r := Cbc(c, encrypting, iv, a);
      && |r.out| == |a| && (|a| == 0 || |a| >= c.bs)
      && r.iv == LastBlock(c.bs, iv, if encrypting then r.out else a)
    decreases |a|
  {
    CbcLength(c, encrypting, iv, a);
    if |a| >= c.bs {
      var x, rest := a[..c.bs], a[c.bs..];
      var o := CbcBlock(c, encrypting, iv, x);
      var fed := if encrypting then o else x;
      CbcRegister(c, encrypting, fed, rest);
      Rejoin(a, c.bs);
      CbcCons(c, encrypting, iv, x, rest);
      LastBlockCons(c.bs, iv, fed, if encrypting then Cbc(c, encrypting, fed, rest).out else rest);
    }
  }

  lemma FirstBlock(c: Cipher, encrypting: bool, iv: seq<octet>, b: seq<octet>)
    requires |iv| == c.bs && |b| >= c.bs
    ensures var out := Cbc(c, encrypting, iv, b).out;
      |out| >= c.bs && out[..c.bs] == CbcBlock(c, encrypting, iv, b[..c.bs])
  {
  }

  lemma CutFront(r: seq<octet>, s: seq<octet>, n: nat)
    requires n <= |s|
    ensures (r + s)[..|r|] == r && (r + s)[|r|..|r| + n] == s[..n]
  {
  }

  lemma CbcOutput(c: Cipher, encrypting: bool, iv: seq<octet>, a: seq<octet>, b: seq<octet>)
    requires |iv| == c.bs && Aligned(c.bs, |a|) && |b| >= c.bs
    ensures var r := Cbc(c, encrypting, iv, a);
      var out := Cbc(c, encrypting, iv, a + b).out;
      && |out| >= |a| + c.bs && out[..|a|] == r.out
      && out[|a|..|a| + c.bs] == CbcBlock(c, encrypting, r.iv, b[..c.bs])
  {
    CbcAppend(c, encrypting, iv, a, b);
    CbcLength(c, encrypting, iv, a);
    var r := Cbc(c, encrypting, iv, a);
    FirstBlock(c, encrypting, r.iv, b);
    CutFront(r.out, Cbc(c, encrypting, r.iv, b).out, c.bs);
  }

  /** Section 6.2: behind any whole blocks `a`, the next block is xored with the ciphertext
      block before it, or with the IV, ahead of the cipher or behind its inverse. */
  lemma CbcIsStandard(c: Cipher, encrypting: bool, iv: seq<octet>, a: seq<octet>, b: seq<octet>)
    requires |iv| == c.bs && Aligned(c.bs, |a|) && |b| >= c.bs
    ensures var out := Cbc(c, encrypting, iv, a + b).out;
      && |out| >= |a| + c.bs
      && (|a| == 0 || |a| >= c.bs)
      && var prev := if |a| == 0 then iv else (if encrypting then out[..|a|] else a)[|a| - c.bs..];
         out[|a|..|a| + c.bs] == if encrypting then c.E(Xor(b[..c.bs], prev)) else Xor(c.D(b[..c.bs]), prev)
  {
    CbcOutput(c, encrypting, iv, a, b);
    CbcRegister(c, encrypting, iv, a);
    var r := Cbc(c, encrypting, iv, a);
    if |a| == 0 {
      assert r.iv == iv;
    } else if encrypting {
      assert r.iv == r.out[|a| - c.bs..];
    } else {
      assert r.iv == a[|a| - c.bs..];
    }
  }

  lemma FirstEcbBlock(c: Cipher, encrypting: bool, b: seq<octet>)
    requires |b| >= c.bs
    ensures var out := Ecb(c, encrypting, b);
      |out| >= c.bs && out[..c.bs] == if encrypting then c.E(b[..c.bs]) else c.D(b[..c.bs])
  {
  }

  /** Section 6.1: behind any whole blocks `a`, the next block goes through the cipher, or
      its inverse, on its own. */
  lemma EcbIsStandard(c: Cipher, encrypting: bool, a: seq<octet>, b: seq<octet>)
    requires Aligned(c.bs, |a|) && |b| >= c.bs
    ensures var out := Ecb(c, encrypting, a + b);
      && |out| >= |a| + c.bs
      && out[|a|..|a| + c.bs] == if encrypting then c.E(b[..c.bs]) else c.D(b[..c.bs])
  {
    EcbAppend(c, encrypting, a, b);
    FirstEcbBlock(c, encrypting, b);
    CutFront(Ecb(c, encrypting, a), Ecb(c, encrypting, b), c.bs);
  }

  lemma {:induction false} EcbRoundTrip(c: Cipher, p: seq<octet>)
    requires Aligned(c.bs, |p|)
    ensures Ecb(c, false, Ecb(c, true, p)) == p
    decreases |p|
  {
    if |p| >= c.bs {
      var x, rest := p[..c.bs], p[c.bs..];
      EcbRoundTrip(c, rest);
      EcbAppend(c, false, c.E(x), Ecb(c, true, rest));
      assert c.E(x)[..c.bs] == c.E(x) && c.E(x)[c.bs..] == [];
      assert Aligned(c.bs, |c.E(x)|);
      assert c.D(c.E(x)) + [] == x;
      Rejoin(p, c.bs);
    }
  }
}
