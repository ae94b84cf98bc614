/** Bytes, machine words, and the positional encodings that connect the two. */
module Bytes {
  import opened Division

  type byte = x: int | 0 <= x < 256
  type uint32 = x: int | 0 <= x < 0x1_0000_0000
  type uint64 = x: int | 0 <= x < 0x1_0000_0000_0000_0000

  /** The width of size_t, which differs between the platforms the libraries are built for. */
  datatype Width = Bits32 | Bits64 {
    function Modulus(): nat {
      if Bits32? then 0x1_0000_0000 else 0x1_0000_0000_0000_0000
    }
  }

  /** Unsigned addition in a size_t. */
  function AddWrapping(w: Width, a: nat, b: nat): (sum: nat)
    requires a < w.Modulus() && b < w.Modulus()
    ensures sum < w.Modulus()
  {
    if a + b < w.Modulus() then a + b else a + b - w.Modulus()
  }

  /** The number written by `s` in network (most significant first) order. */
  function BigEndian(s: seq<byte>): nat {
    if s == [] then 0 else BigEndian(s[..|s| - 1]) * 256 + s[|s| - 1]
  }

  /** The low `k` bytes of `v`, most significant first. */
  function ToBigEndian(k: nat, v: nat): (s: seq<byte>)
    ensures |s| == k
  {
    if k == 0 then [] else ToBigEndian(k - 1, v / 256) + [v % 256]
  }

  /** The low `k` bytes of `v`, least significant first. */
  function ToLittleEndian(k: nat, v: nat): (s: seq<byte>)
    ensures |s| == k
  {
    if k == 0 then [] else [v % 256] + ToLittleEndian(k - 1, v / 256)
  }

  function LittleEndian(s: seq<byte>): nat {
    if s == [] then 0 else s[0] + 256 * LittleEndian(s[1..])
  }

  /** 256 to the power `k`: what a `k`-byte field can tell apart. */
  function Pow256(k: nat): (p: nat)
    ensures p >= 1
  {
    if k == 0 then 1 else 256 * Pow256(k - 1)
  }

  /** Reading `k` bytes is reading them one after the other. */
  lemma {:induction false} BigEndianPrefixes(s: seq<byte>, k: nat)
    requires k <= |s|
    ensures BigEndian(s[..0]) == 0
    ensures forall i :: 0 <= i < k ==> BigEndian(s[..i + 1]) == BigEndian(s[..i]) * 256 + s[i]
  {
    if k > 0 {
      BigEndianPrefixes(s, k - 1);
      assert s[..k][..k - 1] == s[..k - 1];
    }
  }

  lemma LittleEndianFour(s: seq<byte>)
    requires |s| == 4
    ensures LittleEndian(s) == s[0] as int + 256 * (s[1] as int + 256 * (s[2] as int + 256 * s[3] as int))
  {
    assert s[1..][1..] == s[2..] && s[2..][1..] == s[3..] && s[3..][1..] == [];
    assert LittleEndian(s[3..]) == s[3] as int;
    assert LittleEndian(s[2..]) == s[2] as int + 256 * LittleEndian(s[3..]);
    assert LittleEndian(s[1..]) == s[1] as int + 256 * LittleEndian(s[2..]);
  }

  /** In network order the first byte weighs most, in the other the last. */
  lemma {:induction false} FirstByteWeighsMost(b: byte, s: seq<byte>)
    ensures BigEndian([b] + s) == b * Pow256(|s|) + BigEndian(s)
  {
    if s == [] {
      assert ([b] + s)[..0] == [];
    } else {
      var n := |s| - 1;
      FirstByteWeighsMost(b, s[..n]);
      assert ([b] + s)[..|s|] == [b] + s[..n];
      assert b * Pow256(n) * 256 == b * (256 * Pow256(n));
    }
  }

  lemma {:induction false} LastByteWeighsMost(s: seq<byte>, b: byte)
    ensures LittleEndian(s + [b]) == LittleEndian(s) + b * Pow256(|s|)
  {
    if s == [] {
      assert (s + [b])[1..] == [];
    } else {
      LastByteWeighsMost(s[1..], b);
      assert (s + [b])[1..] == s[1..] + [b];
      assert b * Pow256(|s| - 1) * 256 == b * (256 * Pow256(|s| - 1));
    }
  }

  lemma {:induction false} BigEndianBound(s: seq<byte>)
    ensures BigEndian(s) < Pow256(|s|)
  {
    if s != [] {
      BigEndianBound(s[..|s| - 1]);
    }
  }

  lemma {:induction false} BigEndianRoundTrip(k: nat, v: nat)
    requires v < Pow256(k)
    ensures BigEndian(ToBigEndian(k, v)) == v
  {
    if k > 0 {
      BigEndianRoundTrip(k - 1, v / 256);
      var s := ToBigEndian(k, v);
      assert s[..k - 1] == ToBigEndian(k - 1, v / 256);
    }
  }

  lemma {:induction false} ToBigEndianRoundTrip(s: seq<byte>)
    ensures ToBigEndian(|s|, BigEndian(s)) == s
  {
    if s != [] {
      var n := |s| - 1;
      ToBigEndianRoundTrip(s[..n]);
      AppendDigit(n, BigEndian(s[..n]), s[n]);
      assert s == s[..n] + [s[n]];
    }
  }

  lemma {:induction false} LittleEndianRoundTrip(k: nat, v: nat)
    requires v < Pow256(k)
    ensures LittleEndian(ToLittleEndian(k, v)) == v
  {
    if k > 0 {
      LittleEndianRoundTrip(k - 1, v / 256);
    }
  }

  /** Both encodings lose nothing below the capacity of the field. */
  lemma EncodingsInjective(k: nat, v: nat, w: nat)
    requires v < Pow256(k) && w < Pow256(k)
    ensures ToBigEndian(k, v) == ToBigEndian(k, w) ==> v == w
    ensures ToLittleEndian(k, v) == ToLittleEndian(k, w) ==> v == w
  {
    BigEndianRoundTrip(k, v);
    BigEndianRoundTrip(k, w);
    LittleEndianRoundTrip(k, v);
    LittleEndianRoundTrip(k, w);
  }

  /** The bytes of a word, as shifts and masks extract them. */
  function WordByte(l: uint32, shift: nat): byte
    requires shift in {0, 8, 16, 24}
  {
    if shift == 24 then l / 0x100_0000 % 256
    else if shift == 16 then l / 0x1_0000 % 256
    else if shift == 8 then l / 0x100 % 256
    else l % 256
  }

  lemma WordDigits(l: uint32)
    ensures l == ((WordByte(l, 24) * 256 + WordByte(l, 16)) * 256 + WordByte(l, 8)) * 256 + WordByte(l, 0)
  {
    var a := l / 0x100;
    assert l / 0x1_0000 == a / 0x100;
    assert l / 0x100_0000 == a / 0x100 / 0x100;
  }

  lemma DigitsOfWord(a: byte, b: byte, c: byte, d: byte)
    ensures var l := ((a * 256 + b) * 256 + c) * 256 + d;
      l < 0x1_0000_0000 &&
      WordByte(l, 24) == a && WordByte(l, 16) == b && WordByte(l, 8) == c && WordByte(l, 0) == d
  {
  }

  lemma AppendDigit(k: nat, a: nat, b: byte)
    ensures ToBigEndian(k + 1, a * 256 + b) == ToBigEndian(k, a) + [b]
    ensures ToLittleEndian(k + 1, a * 256 + b) == [b] + ToLittleEndian(k, a)
  {
    DivUnique(a * 256 + b, 256, a, b);
  }

  lemma AppendTwoDigits(k: nat, a: nat, b: byte, c: byte)
    ensures ToBigEndian(k + 2, (a * 256 + b) * 256 + c) == ToBigEndian(k, a) + [b, c]
    ensures ToLittleEndian(k + 2, (a * 256 + b) * 256 + c) == [c, b] + ToLittleEndian(k, a)
  {
    AppendDigit(k, a, b);
    AppendDigit(k + 1, a * 256 + b, c);
  }

  lemma AppendFourBig(k: nat, a: nat, b3: byte, b2: byte, b1: byte, b0: byte)
    ensures ToBigEndian(k + 4, (((a * 256 + b3) * 256 + b2) * 256 + b1) * 256 + b0)
         == ToBigEndian(k, a) + [b3, b2, b1, b0]
  {
    AppendTwoDigits(k, a, b3, b2);
    AppendTwoDigits(k + 2, (a * 256 + b3) * 256 + b2, b1, b0);
    assert ToBigEndian(k, a) + [b3, b2] + [b1, b0] == ToBigEndian(k, a) + [b3, b2, b1, b0];
  }

  lemma AppendFourLittle(k: nat, a: nat, b3: byte, b2: byte, b1: byte, b0: byte)
    ensures ToLittleEndian(k + 4, (((a * 256 + b3) * 256 + b2) * 256 + b1) * 256 + b0)
         == [b0, b1, b2, b3] + ToLittleEndian(k, a)
  {
    AppendTwoDigits(k, a, b3, b2);
    AppendTwoDigits(k + 2, (a * 256 + b3) * 256 + b2, b1, b0);
    assert [b0, b1] + ([b2, b3] + ToLittleEndian(k, a)) == [b0, b1, b2, b3] + ToLittleEndian(k, a);
  }

  /** The four bytes of a word, most or least significant first. */
  function BigWord(l: uint32): (s: seq<byte>)
    ensures |s| == 4
  {
    [WordByte(l, 24), WordByte(l, 16), WordByte(l, 8), WordByte(l, 0)]
  }

  function LittleWord(l: uint32): (s: seq<byte>)
    ensures |s| == 4
  {
    [WordByte(l, 0), WordByte(l, 8), WordByte(l, 16), WordByte(l, 24)]
  }

  /** Appending a word to a number appends, or prepends, its four bytes. */
  lemma AppendWordBig(k: nat, a: nat, l: uint32)
    ensures ToBigEndian(k + 4, a * 0x1_0000_0000 + l) == ToBigEndian(k, a) + BigWord(l)
  {
    WordDigits(l);
    AppendFourBig(k, a, WordByte(l, 24), WordByte(l, 16), WordByte(l, 8), WordByte(l, 0));
  }

  lemma AppendWordLittle(k: nat, a: nat, l: uint32)
    ensures ToLittleEndian(k + 4, a * 0x1_0000_0000 + l) == LittleWord(l) + ToLittleEndian(k, a)
  {
    WordDigits(l);
    AppendFourLittle(k, a, WordByte(l, 24), WordByte(l, 16), WordByte(l, 8), WordByte(l, 0));
  }

  lemma OneWord(l: uint32)
    ensures ToBigEndian(4, l) == BigWord(l) && ToLittleEndian(4, l) == LittleWord(l)
  {
    AppendWordBig(0, 0, l);
    AppendWordLittle(0, 0, l);
    assert [] + BigWord(l) == BigWord(l) && LittleWord(l) + [] == LittleWord(l);
  }

  /** Two words written in order are the eight bytes of the number they make up. */
  lemma TwoWords(hi: uint32, lo: uint32)
    ensures ToBigEndian(8, hi * 0x1_0000_0000 + lo) == BigWord(hi) + BigWord(lo)
    ensures ToLittleEndian(8, hi * 0x1_0000_0000 + lo) == LittleWord(lo) + LittleWord(hi)
  {
    AppendWordBig(4, hi, lo);
    AppendWordLittle(4, hi, lo);
    OneWord(hi);
  }

  /** Or-ing bytes shifted into disjoint positions adds them, without carry. The rest of
      the project writes the sum where the C code writes the shifts. */
  lemma ShiftOrIsSum(a: bv32, b: bv32, c: bv32, d: bv32)
    requires a < 256 && b < 256 && c < 256 && d < 256
    ensures (a << 24) | (b << 16) | (c << 8) | d == (a << 24) + (b << 16) + (c << 8) + d
  {
    assert (a << 24) & (b << 16) == 0;
  }

  /** The same for the eight bytes of a 64-bit word. */
  lemma ShiftOrIsSum64(a: bv64, b: bv64, c: bv64, d: bv64, e: bv64, f: bv64, g: bv64, h: bv64)
    requires a < 256 && b < 256 && c < 256 && d < 256 && e < 256 && f < 256 && g < 256 && h < 256
    ensures (a << 56) | (b << 48) | (c << 40) | (d << 32) | (e << 24) | (f << 16) | (g << 8) | h
         == (a << 56) + (b << 48) + (c << 40) + (d << 32) + (e << 24) + (f << 16) + (g << 8) + h
  {
  }
}
