/** CFB with one-bit segments (section 6.3 of NIST SP 800-38A), over the bits of a byte
    string, most significant first. */
module BitFeedback {
  import opened CipherModes
  import opened Sequences

  function Unpack(b: octet): (bits: seq<bool>)
    ensures |bits| == 8
  {
    [b & 0x80 != 0, b & 0x40 != 0, b & 0x20 != 0, b & 0x10 != 0,
     b & 0x08 != 0, b & 0x04 != 0, b & 0x02 != 0, b & 0x01 != 0]
  }

  function Bit(on: bool, mask: octet): octet {
    if on then mask else 0
  }

  function Pack(bits: seq<bool>): octet
    requires |bits| == 8
  {
    Bit(bits[0], 0x80) | Bit(bits[1], 0x40) | Bit(bits[2], 0x20) | Bit(bits[3], 0x10)
    | Bit(bits[4], 0x08) | Bit(bits[5], 0x04) | Bit(bits[6], 0x02) | Bit(bits[7], 0x01)
  }

  lemma PackUnpack(b: octet)
    ensures Pack(Unpack(b)) == b
  {
  }

  lemma UnpackPack(bits: seq<bool>)
    requires |bits| == 8
    ensures Unpack(Pack(bits)) == bits
  {
  }

  /** The register moved up one bit, with `bit` entering at the low end. */
  function ShiftIn(iv: seq<octet>, bit: bool): (r: seq<octet>)
    ensures |r| == |iv|
  {
    seq(|iv|, i requires 0 <= i < |iv| => ShiftUp(iv[i], if i + 1 < |iv| then TopBit(iv[i + 1]) else bit))
  }

  function TopBit(b: octet): bool {
    b & 0x80 != 0
  }

  function ShiftUp(b: octet, low: bool): octet {
    (b << 1) | Bit(low, 1)
  }

  datatype BitResult = BitResult(iv: seq<octet>, out: seq<bool>)

  /** One segment: the bit comes out xored with the top bit of the encrypted register, and
      the ciphertext bit, whichever of the two it is, enters the register. */
  function StepBit(c: Cipher, encrypting: bool, iv: seq<octet>, bit: bool): (r: (seq<octet>, bool))
    requires |iv| == c.bs
    ensures |r.0| == c.bs
  {
    var o := bit != TopBit(c.E(iv)[0]);
    (ShiftIn(iv, if encrypting then o else bit), o)
  }

  function Cfb1Bits(c: Cipher, encrypting: bool, iv: seq<octet>, bits: seq<bool>): (r: BitResult)
    requires |iv| == c.bs
    ensures |r.iv| == c.bs && |r.out| == |bits|
    decreases |bits|
  {
    if bits == [] then BitResult(iv, [])
    else
      var (iv1, o) := StepBit(c, encrypting, iv, bits[0]);
      var r := Cfb1Bits(c, encrypting, iv1, bits[1..]);
      BitResult(r.iv, [o] + r.out)
  }

  lemma BitRoundTrip(c: Cipher, iv: seq<octet>, bit: bool)
    requires |iv| == c.bs
    ensures var (iv1, o) := StepBit(c, true, iv, bit);
      StepBit(c, false, iv, o) == (iv1, bit)
  {
  }

  lemma {:induction false} Cfb1BitsRoundTrip(c: Cipher, iv: seq<octet>, bits: seq<bool>)
    requires |iv| == c.bs
    ensures var e := Cfb1Bits(c, true, iv, bits);
      Cfb1Bits(c, false, iv, e.out) == BitResult(e.iv, bits)
    decreases |bits|
  {
    if bits != [] {
      var (iv1, o) := StepBit(c, true, iv, bits[0]);
      var rest := Cfb1Bits(c, true, iv1, bits[1..]);
      BitRoundTrip(c, iv, bits[0]);
      Cfb1BitsRoundTrip(c, iv1, bits[1..]);
      var q := [o] + rest.out;
      assert q[0] == o && q[1..] == rest.out;
      assert [bits[0]] + bits[1..] == bits;
      assert Cfb1Bits(c, false, iv, q) == BitResult(rest.iv, bits);
    }
  }

  lemma {:induction false} Cfb1BitsAppend(c: Cipher, encrypting: bool, iv: seq<octet>, a: seq<bool>, b: seq<bool>)
    requires |iv| == c.bs
    ensures var r := Cfb1Bits(c, encrypting, iv, a);
      var r' := Cfb1Bits(c, encrypting, r.iv, b);
      Cfb1Bits(c, encrypting, iv, a + b) == BitResult(r'.iv, r.out + r'.out)
    decreases |a|
  {
    if a == [] {
      assert a + b == b;
    } else {
      var (iv1, o) := StepBit(c, encrypting, iv, a[0]);
      assert (a + b)[0] == a[0] && (a + b)[1..] == a[1..] + b;
      Cfb1BitsAppend(c, encrypting, iv1, a[1..], b);
      var r := Cfb1Bits(c, encrypting, iv1, a[1..]);
      Associate([o], r.out, Cfb1Bits(c, encrypting, r.iv, b).out);
    }
  }

  // ---------- Whole byte strings ----------

  function UnpackAll(p: seq<octet>): (bits: seq<bool>)
    ensures |bits| == 8 * |p|
  {
    if p == [] then [] else Unpack(p[0]) + UnpackAll(p[1..])
  }

  function PackAll(bits: seq<bool>): (p: seq<octet>)
    requires |bits| % 8 == 0
    ensures 8 * |p| == |bits|
  {
    if bits == [] then [] else [Pack(bits[..8])] + PackAll(bits[8..])
  }

  lemma {:induction false} UnpackAllAppend(a: seq<octet>, b: seq<octet>)
    ensures UnpackAll(a + b) == UnpackAll(a) + UnpackAll(b)
  {
    if a == [] {
      assert a + b == b;
    } else {
      assert (a + b)[1..] == a[1..] + b;
      UnpackAllAppend(a[1..], b);
    }
  }

  lemma {:induction false} PackAllAppend(x: seq<bool>, y: seq<bool>)
    requires |x| % 8 == 0 && |y| % 8 == 0
    ensures PackAll(x + y) == PackAll(x) + PackAll(y)
    decreases |x|
  {
    if x == [] {
      assert x + y == y;
    } else {
      assert (x + y)[..8] == x[..8];
      assert (x + y)[8..] == x[8..] + y;
      PackAllAppend(x[8..], y);
    }
  }

  lemma {:induction false} UnpackPackAll(bits: seq<bool>)
    requires |bits| % 8 == 0
    ensures UnpackAll(PackAll(bits)) == bits
    decreases |bits|
  {
    if bits != [] {
      UnpackPack(bits[..8]);
      UnpackPackAll(bits[8..]);
      assert PackAll(bits)[1..] == PackAll(bits[8..]);
      assert bits == bits[..8] + bits[8..];
    }
  }

  lemma {:induction false} PackUnpackAll(p: seq<octet>)
    ensures PackAll(UnpackAll(p)) == p
  {
    if p != [] {
      PackUnpack(p[0]);
      PackUnpackAll(p[1..]);
      assert UnpackAll(p)[..8] == Unpack(p[0]);
      assert UnpackAll(p)[8..] == UnpackAll(p[1..]);
    }
  }

  /** One unchunked run over the bits of `p`. */
  function RunBits(c: Cipher, encrypting: bool, iv: seq<octet>, p: seq<octet>): (r: Blocks)
    requires |iv| == c.bs
    ensures |r.iv| == c.bs && |r.out| == |p|
  {
    var r := Cfb1Bits(c, encrypting, iv, UnpackAll(p));
    Blocks(r.iv, PackAll(r.out))
  }

  lemma RunBitsOfNothing(c: Cipher, encrypting: bool, iv: seq<octet>)
    requires |iv| == c.bs
    ensures RunBits(c, encrypting, iv, []) == Blocks(iv, [])
  {
    assert UnpackAll([]) == [];
  }

  lemma RunBitsAppend(c: Cipher, encrypting: bool, iv: seq<octet>, a: seq<octet>, b: seq<octet>)
    requires |iv| == c.bs
    ensures var r := RunBits(c, encrypting, iv, a);
      var r' := RunBits(c, encrypting, r.iv, b);
      RunBits(c, encrypting, iv, a + b) == Blocks(r'.iv, r.out + r'.out)
  {
    var x, y := UnpackAll(a), UnpackAll(b);
    var r := Cfb1Bits(c, encrypting, iv, x);
    var r' := Cfb1Bits(c, encrypting, r.iv, y);
    assert |r.out| % 8 == 0 && |r'.out| % 8 == 0;
    assert Cfb1Bits(c, encrypting, iv, UnpackAll(a + b)) == BitResult(r'.iv, r.out + r'.out) by {
      UnpackAllAppend(a, b);
      Cfb1BitsAppend(c, encrypting, iv, x, y);
    }
    PackAllAppend(r.out, r'.out);
  }

  lemma RunBitsRoundTrip(c: Cipher, iv: seq<octet>, p: seq<octet>)
    requires |iv| == c.bs
    ensures var e := RunBits(c, true, iv, p);
      RunBits(c, false, iv, e.out) == Blocks(e.iv, p)
  {
    var bits := UnpackAll(p);
    var e := Cfb1Bits(c, true, iv, bits);
    assert UnpackAll(PackAll(e.out)) == e.out by {
      UnpackPackAll(e.out);
    }
    assert Cfb1Bits(c, false, iv, e.out) == BitResult(e.iv, bits) by {
      Cfb1BitsRoundTrip(c, iv, bits);
    }
    PackUnpackAll(p);
  }
}
