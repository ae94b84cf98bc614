/** The generic 32-bit digest collector: a context whose fields are updated in place by
    Update and Final. The compression function, the block size and the byte order are
    fixed per context; the input is memory the collector only reads. */
module HashCollector {
  import opened Bytes
  import opened Division
  import opened HashSpec

  // ---------- The two-word bit counter ----------

  /** The low word after `len` more bytes: shift, add and mask in 32 bits. */
  function NextLow(Nl: uint32, len: uint64): uint32 {
    (Nl + len % 0x1_0000_0000 * 8 % 0x1_0000_0000) % 0x1_0000_0000
  }

  /** The high word: one more when the low word wrapped, plus the bits shifted out of it. */
  function NextHigh(Nl: uint32, Nh: uint32, len: uint64): uint32 {
    var carried := if NextLow(Nl, len) < Nl then (Nh + 1) % 0x1_0000_0000 else Nh;
    (carried + len / 0x2000_0000 % 0x1_0000_0000) % 0x1_0000_0000
  }

  function Count(Nl: uint32, Nh: uint32): uint64 {
    Nh * 0x1_0000_0000 + Nl
  }

  lemma ShiftInWord(len: nat)
    ensures len % 0x1_0000_0000 * 8 % 0x1_0000_0000 == 8 * (len % 0x2000_0000)
  {
  }

  lemma CarryOut(Nl: uint32, s: uint32)
    ensures var l := (Nl + s) % 0x1_0000_0000;
      Nl + s == (if l < Nl then 0x1_0000_0000 else 0) + l
  {
  }

  lemma HighAdds(Nh: uint32, carry: nat, q: nat)
    requires carry <= 1
    ensures var n := if carry == 1 then (Nh + 1) % 0x1_0000_0000 else Nh;
      (n + q % 0x1_0000_0000) % 0x1_0000_0000 == (Nh + carry + q) % 0x1_0000_0000
  {
    ModAdd(Nh + carry, q % 0x1_0000_0000, 0x1_0000_0000);
    ModAdd(q, Nh + carry, 0x1_0000_0000);
  }

  lemma JoinWords(hi: nat, lo: uint32)
    ensures hi % 0x1_0000_0000 * 0x1_0000_0000 + lo == (hi * 0x1_0000_0000 + lo) % 0x1_0000_0000_0000_0000
  {
    DivUnique(hi * 0x1_0000_0000 + lo, 0x1_0000_0000_0000_0000, hi / 0x1_0000_0000,
              hi % 0x1_0000_0000 * 0x1_0000_0000 + lo);
  }

  /** The wrap test, the carry and the `len >> 29` term together are exact modulo 2^64. */
  lemma CounterStep(Nl: uint32, Nh: uint32, len: uint64)
    ensures Count(NextLow(Nl, len), NextHigh(Nl, Nh, len)) == AddBytes(Count(Nl, Nh), len)
  {
    var q, r, l := len / 0x2000_0000, len % 0x2000_0000, NextLow(Nl, len);
    var carry := if l < Nl then 1 else 0;
    assert Nl + 8 * r == carry * 0x1_0000_0000 + l by {
      ShiftInWord(len);
      CarryOut(Nl, 8 * r);
    }
    assert NextHigh(Nl, Nh, len) == (Nh + carry + q) % 0x1_0000_0000 by {
      HighAdds(Nh, carry, q);
    }
    JoinWords(Nh + carry + q, l);
  }

  // ---------- The context ----------

  class HashCtx<S(!new)> {
    const width: Width
    const cblock: nat
    const order: ByteOrder
    const compress: (S, seq<byte>) -> S
    var h: S
    var Nl: uint32
    var Nh: uint32
    var num: nat
    const data: array<byte>

    /** Fewer than a block pending, and the buffer zero behind the pending bytes. */
    ghost predicate Valid()
      reads this, data
    {
      && 9 <= cblock && 2 * cblock <= width.Modulus()
      && data.Length == cblock
      && num < cblock
      && forall i :: num <= i < cblock ==> data[i] == 0
    }

    ghost function View(): Stream<S>
      reads this, data
      requires Valid()
    {
      Stream(h, data[..num], Count(Nl, Nh))
    }

    constructor (width: Width, cblock: nat, order: ByteOrder, compress: (S, seq<byte>) -> S, h0: S)
      requires 9 <= cblock && 2 * cblock <= width.Modulus()
      ensures Valid() && fresh(data)
      ensures this.width == width && this.cblock == cblock && this.order == order && this.compress == compress
      ensures View() == Stream(h0, [], 0)
    {
      this.width := width;
      this.cblock := cblock;
      this.order := order;
      this.compress := compress;
      h := h0;
      Nl, Nh, num := 0, 0, 0;
      data := new byte[cblock](_ => 0);
    }

    /** HASH_BLOCK_DATA_ORDER: compress `n` blocks starting at `p`. */
    method BlockDataOrder(p: seq<byte>, n: nat)
      requires cblock > 0 && n * cblock == |p|
      modifies `h
      ensures h == Fold(compress, cblock, old(h), p)
    {
      h := Fold(compress, cblock, h, p);
    }

    method Transform(block: seq<byte>)
      requires cblock > 0 && |block| == cblock
      modifies `h
      ensures h == compress(old(h), block)
    {
      FoldOne(compress, cblock, h, block);
      BlockDataOrder(block, 1);
    }

    method MemCpy(at: nat, src: seq<byte>)
      requires at + |src| <= data.Length
      modifies data
      ensures forall i :: 0 <= i < data.Length ==>
                data[i] == if at <= i < at + |src| then src[i - at] else old(data[i])
    {
      forall i | 0 <= i < |src| {
        data[at + i] := src[i];
      }
    }

    method MemSet(at: nat, v: byte, n: nat)
      requires at + n <= data.Length
      modifies data
      ensures forall i :: 0 <= i < data.Length ==> data[i] == if at <= i < at + n then v else old(data[i])
    {
      forall i | at <= i < at + n {
        data[i] := v;
      }
    }

    /** The counter update at the head of HASH_UPDATE. */
    method AddLength(len: uint64)
      modifies `Nl, `Nh
      ensures Count(Nl, Nh) == AddBytes(old(Count(Nl, Nh)), len)
    {
      CounterStep(Nl, Nh, len);
      var l := NextLow(Nl, len);
      Nh := NextHigh(Nl, Nh, len);
      Nl := l;
    }

    /** The branch of HASH_UPDATE that finds bytes pending: the input either completes
        their block, which is compressed and cleared, or joins them. */
    method FillPending(input: seq<byte>) returns (rest: seq<byte>, done: bool)
      requires Valid() && 0 < |input| < width.Modulus() && num > 0
      modifies `h, `num, data
      ensures Valid()
      ensures done ==> h == old(h) && data[..num] == old(data[..num]) + input
      ensures !done ==> num == 0 && |old(data[..num]) + input| >= cblock
      ensures !done ==> h == compress(old(h), (old(data[..num]) + input)[..cblock])
      ensures !done ==> rest == (old(data[..num]) + input)[cblock..]
      ensures done <==> old(num) + |input| < cblock
    {
      ghost var pending := data[..num];
      var n := num;
      if |input| >= cblock || AddWrapping(width, |input|, n) >= cblock {
        MemCpy(n, input[..cblock - n]);
        assert data[..] == (pending + input)[..cblock];
        Transform(data[..]);
        num := 0;
        MemSet(0, 0, cblock);
        return input[cblock - n..], false;
      } else {
        MemCpy(n, input);
        num := num + |input|;
        return [], true;
      }
    }

    /** The rest of HASH_UPDATE: whole blocks are compressed where they lie, and what is
        left is kept. */
    method TakeBlocks(input: seq<byte>)
      requires Valid() && num == 0
      modifies `h, `num, data
      ensures Valid()
      ensures h == Fold(compress, cblock, old(h), input)
      ensures data[..num] == Tail(cblock, input)
    {
      TailClosedForm(cblock, input);
      FoldIgnoresTail(compress, cblock, h, input);
      var rest := input;
      var n := |rest| / cblock;
      if n > 0 {
        n := n * cblock;
        BlockDataOrder(rest[..n], |rest| / cblock);
        rest := rest[n..];
      }
      assert rest == Tail(cblock, input);
      if |rest| != 0 {
        num := |rest|;
        MemCpy(0, rest);
      }
    }

    /** HASH_UPDATE without the counter. */
    method TakeInput(input: seq<byte>)
      requires Valid() && 0 < |input| < width.Modulus()
      modifies `h, `num, data
      ensures Valid()
      ensures h == Fold(compress, cblock, old(h), old(data[..num]) + input)
      ensures data[..num] == Tail(cblock, old(data[..num]) + input)
    {
      var rest := input;
      if num != 0 {
        var done;
        rest, done := FillPending(input);
        if done {
          return;
        }
      } else {
        assert data[..num] + input == input;
      }
      TakeBlocks(rest);
    }

    /** HASH_UPDATE. */
    method Update(input: seq<byte>) returns (ok: int)
      requires Valid() && |input| < width.Modulus()
      modifies this, data
      ensures Valid() && ok == 1
      ensures View() == Absorb(compress, cblock, old(View()), input)
    {
      if |input| == 0 {
        AbsorbNothing(compress, cblock, View(), input);
        return 1;
      }
      AddLength(|input|);
      TakeInput(input);
      return 1;
    }

    /** HOST_l2c: the four bytes of a word in the context's byte order. */
    function HostBytes(l: uint32): (s: seq<byte>)
      ensures |s| == 4
    {
      if order.BigFirst? then BigWord(l) else LittleWord(l)
    }

    /** HOST_c2l: the word that four bytes stand for in that order. */
    function HostWord(s: seq<byte>): uint32
      requires |s| == 4
    {
      var a: int, b: int, c: int, d: int :=
        if order.BigFirst? then s[0] else s[3], if order.BigFirst? then s[1] else s[2],
        if order.BigFirst? then s[2] else s[1], if order.BigFirst? then s[3] else s[0];
      a * 0x100_0000 + b * 0x1_0000 + c * 0x100 + d
    }

    /** The two HOST_l2c calls of HASH_FINAL: the length field at the end of the block. */
    method WriteLength()
      requires data.Length == cblock >= 9
      modifies data
      ensures data[cblock - 8..] == LengthField(order, Count(Nl, Nh))
      ensures forall i :: 0 <= i < cblock - 8 ==> data[i] == old(data[i])
    {
      LengthWords(Nl, Nh);
      if order.BigFirst? {
        MemCpy(cblock - 8, HostBytes(Nh));
        MemCpy(cblock - 4, HostBytes(Nl));
      } else {
        MemCpy(cblock - 8, HostBytes(Nl));
        MemCpy(cblock - 4, HostBytes(Nh));
      }
      assert data[cblock - 8..] == data[cblock - 8..cblock - 4] + data[cblock - 4..];
    }

    /** The first half of HASH_FINAL: the mark goes behind the pending bytes, and when
        the length field no longer fits the block is compressed and a fresh one begun. */
    method MarkEnd()
      requires Valid()
      modifies `h, data
      ensures
        if num + 9 <= cblock then
          && h == old(h)
          && data[..cblock - 8] == old(data[..num]) + [0x80] + Zeros(cblock - 9 - num)
        else
          && h == compress(old(h), old(data[..num]) + [0x80] + Zeros(cblock - 1 - num))
          && data[..cblock - 8] == Zeros(cblock - 8)
    {
      ghost var pending := data[..num];
      var n := num;
      data[n] := 0x80;
      n := n + 1;
      if n > cblock - 8 {
        MemSet(n, 0, cblock - n);
        n := 0;
        assert data[..] == pending + [0x80] + Zeros(cblock - 1 - num);
        Transform(data[..]);
      }
      MemSet(n, 0, cblock - 8 - n);
    }

    /** HASH_FINAL up to its last compression. */
    method PadLast()
      requires Valid()
      modifies `h, data
      ensures compress(h, data[..]) == Finish(order, compress, cblock, old(View()))
    {
      FinishInBlocks(order, compress, cblock, View());
      MarkEnd();
      ghost var body := data[..cblock - 8];
      WriteLength();
      assert data[..] == body + data[cblock - 8..];
    }

    /** HASH_FINAL: pad in place, compress one more block or two, clear the buffer. */
    method Final() returns (ok: int)
      requires Valid()
      modifies `h, `num, data
      ensures Valid() && ok == 1
      ensures h == Finish(order, compress, cblock, old(View()))
      ensures num == 0
    {
      PadLast();
      Transform(data[..]);
      num := 0;
      MemSet(0, 0, cblock);
      return 1;
    }

    /** The two counter words, written in the context's order, are its length field. */
    lemma LengthWords(Nl: uint32, Nh: uint32)
      ensures LengthField(order, Count(Nl, Nh))
           == if order.BigFirst? then HostBytes(Nh) + HostBytes(Nl) else HostBytes(Nl) + HostBytes(Nh)
    {
      TwoWords(Nh, Nl);
    }

    /** Reading back what was written gives the word, and writing what was read the bytes. */
    lemma HostRoundTrip(l: uint32, s: seq<byte>)
      requires |s| == 4
      ensures HostWord(HostBytes(l)) == l
      ensures HostBytes(HostWord(s)) == s
    {
      WordDigits(l);
      if order.BigFirst? {
        DigitsOfWord(s[0], s[1], s[2], s[3]);
      } else {
        DigitsOfWord(s[3], s[2], s[1], s[0]);
      }
    }
  }

  /** A digest from beginning to end: a fresh context, any pieces, and the final padding
      give the hash of the message that the pieces make up. */
  method Digest<S(!new)>(width: Width, cblock: nat, order: ByteOrder, compress: (S, seq<byte>) -> S, h0: S,
                         pieces: seq<seq<byte>>)
      returns (h: S)
    requires 9 <= cblock && 2 * cblock <= width.Modulus()
    requires forall i :: 0 <= i < |pieces| ==> |pieces[i]| < width.Modulus()
    ensures h == Hash(order, compress, cblock, h0, Flatten(pieces))
  {
    var c := new HashCtx(width, cblock, order, compress, h0);
    ghost var end := AbsorbAll(compress, cblock, c.View(), pieces);
    for i := 0 to |pieces|
      invariant c.Valid() && fresh(c) && fresh(c.data)
      invariant c.cblock == cblock && c.order == order && c.compress == compress && c.width == width
      invariant AbsorbAll(compress, cblock, c.View(), pieces[i..]) == end
    {
      assert pieces[i..][1..] == pieces[i + 1..];
      var _ := c.Update(pieces[i]);
    }
    StreamingComputesHash(order, compress, cblock, h0, pieces);
    var _ := c.Final();
    return c.h;
  }
}
