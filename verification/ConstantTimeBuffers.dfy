/** Branch-free swapping of buffers and table lookup. */
module ConstantTimeBuffers {
  import Bytes
  import opened Division
  import opened ConstantTimeWords

  // ---------- Conditional swap of buffers ----------

  lemma XorSwap8(mask: bv8, a: bv8, b: bv8, tmp: bv8)
    requires mask == 0 || mask == 0xFF
    requires tmp == (a ^ b) & mask
    ensures a ^ tmp == if mask == 0 then a else b
    ensures b ^ tmp == if mask == 0 then b else a
  {
  }

  /** Xor-ing `xor` into `x` gives `y`. */
  ghost predicate Turns8(xor: bv8, x: bv8, y: bv8) {
    x ^ xor == y
  }

  method MaskedDifference8(mask: bv8, x: bv8, y: bv8) returns (tmp: bv8)
    requires mask == 0 || mask == 0xFF
    ensures mask == 0 ==> Turns8(tmp, x, x) && Turns8(tmp, y, y)
    ensures mask != 0 ==> Turns8(tmp, x, y) && Turns8(tmp, y, x)
  {
    tmp := x ^ y;
    tmp := tmp & mask;
    XorSwap8(mask, x, y, tmp);
  }

  method XorInto(a: array<bv8>, i: nat, xor: bv8, ghost result: bv8)
    requires i < a.Length && Turns8(xor, a[i], result)
    modifies a
    ensures a[..] == old(a[..][i := result])
  {
    a[i] := a[i] ^ xor;
  }

  /** The loop body, on the two bytes in place; they may be one and the same. */
  method SwapBytes(mask: bv8, a: array<bv8>, b: array<bv8>, i: nat)
    requires mask == 0 || mask == 0xFF
    requires i < a.Length && i < b.Length
    modifies a, b
    ensures a[..] == old(a[..][i := if mask == 0 then a[i] else b[i]])
    ensures b[..] == old(b[..][i := if mask == 0 then b[i] else a[i]])
  {
    ghost var x, y := if mask == 0 then a[i] else b[i], if mask == 0 then b[i] else a[i];
    var tmp := MaskedDifference8(mask, a[i], b[i]);
    XorInto(a, i, tmp, x);
    assert b[..] == old(b[..]);
    XorInto(b, i, tmp, y);
  }

  /** constant_time_cond_swap_buff. The two buffers may be one and the same. */
  method CondSwapBuff(mask: bv8, a: array<bv8>, b: array<bv8>, len: nat)
    requires mask == 0 || mask == 0xFF
    requires len <= a.Length && len <= b.Length
    modifies a, b
    ensures mask == 0 ==> a[..] == old(a[..]) && b[..] == old(b[..])
    ensures mask != 0 ==> a[..] == old(b[..len]) + old(a[len..])
    ensures mask != 0 ==> b[..] == old(a[..len]) + old(b[len..])
  {
    for i := 0 to len
      invariant forall j :: 0 <= j < a.Length ==> a[j] == if j < i && mask != 0 then old(b[j]) else old(a[j])
      invariant forall j :: 0 <= j < b.Length ==> b[j] == if j < i && mask != 0 then old(a[j]) else old(b[j])
    {
      SwapBytes(mask, a, b, i);
    }
  }

  // ---------- Table lookup ----------

  /** constant_time_is_zero_s, converted to unsigned char. */
  function ZeroMask(w: Bytes.Width, x: nat): bv8
    requires x < w.Modulus()
  {
    match w
    case Bits32 => (IsZero32(x as bv32) & 0xFF) as bv8
    case Bits64 => (IsZero64(x as bv64) & 0xFF) as bv8
  }

  /** constant_time_select_8 computes in unsigned int and truncates. */
  function Select8(mask: bv8, a: bv8, b: bv8): bv8 {
    (Select32(mask as bv32, a as bv32, b as bv32) & 0xFF) as bv8
  }

  lemma Select8Correct(mask: bv8, a: bv8, b: bv8)
    requires mask == 0xFF || mask == 0
    ensures Select8(mask, a, b) == if mask == 0 then b else a
  {
  }

  lemma ZeroAsBits(x: nat)
    ensures x < 0x1_0000_0000 ==> (x as bv32 == 0 <==> x == 0)
    ensures x < 0x1_0000_0000_0000_0000 ==> (x as bv64 == 0 <==> x == 0)
  {
  }

  /** The mask is full exactly at zero, for either width of size_t. */
  lemma RowMask(w: Bytes.Width, x: nat)
    requires x < w.Modulus()
    ensures ZeroMask(w, x) == if x == 0 then 0xFF else 0
  {
    ZeroAsBits(x);
    match w
    case Bits32 => IsZero32Correct(x as bv32);
    case Bits64 => IsZero64Correct(x as bv64);
  }

  /** The inner loop: or one row, masked, into `out`. */
  method OrRow(out: array<bv8>, row: seq<bv8>, mask: bv8)
    requires mask == 0xFF || mask == 0
    requires |row| <= out.Length
    modifies out
    ensures forall j :: 0 <= j < out.Length ==>
      out[j] == if j < |row| && mask != 0 then old(out[j]) | row[j] else old(out[j])
  {
    for j := 0 to |row|
      invariant forall k :: 0 <= k < out.Length ==>
        out[k] == if k < j && mask != 0 then old(out[k]) | row[k] else old(out[k])
    {
      Select8Correct(mask, row[j], 0);
      OrZero(out[j]);
      out[j] := out[j] | Select8(mask, row[j], 0);
    }
  }

  lemma OrZero(a: bv8)
    ensures a | 0 == a && 0 | a == a
  {
  }

  lemma RowFits(rowsize: nat, numrows: nat, i: nat)
    requires i < numrows
    ensures i * rowsize + rowsize == (i + 1) * rowsize <= numrows * rowsize
  {
    MulNonNegative(numrows - i - 1, rowsize);
    assert numrows * rowsize == (i + 1) * rowsize + (numrows - i - 1) * rowsize;
  }

  /** What `idx` has become after `i` decrements, past zero too. */
  function Countdown(w: Bytes.Width, idx: nat, i: nat): (k: nat)
    requires idx < w.Modulus() && i < w.Modulus()
    ensures k < w.Modulus()
    ensures k == 0 <==> i == idx
  {
    if i <= idx then idx - i else idx - i + w.Modulus()
  }

  function Decrement(w: Bytes.Width, k: nat): nat {
    if k == 0 then w.Modulus() - 1 else k - 1
  }

  /** The work on one row: it is taken exactly when the countdown is at zero. */
  method VisitRow(w: Bytes.Width, out: array<bv8>, row: seq<bv8>, k: nat)
    requires |row| <= out.Length && k < w.Modulus()
    modifies out
    ensures forall j :: 0 <= j < out.Length ==>
      out[j] == if j < |row| && k == 0 then old(out[j]) | row[j] else old(out[j])
  {
    RowMask(w, k);
    OrRow(out, row, ZeroMask(w, k));
  }

  /** The output so far: the row that begins at `start`, if it was taken, or nothing yet. */
  ghost predicate Taken(out: array<bv8>, table: seq<bv8>, rowsize: nat, start: nat, taken: bool)
    requires rowsize <= out.Length && (taken ==> start + rowsize <= |table|)
    reads out
  {
    forall j :: 0 <= j < rowsize ==> out[j] == if taken then table[start + j] else 0
  }

  /** constant_time_lookup: every row is visited, and `k`, which starts as the index, is
      decremented past zero and wraps. */
  method Lookup(w: Bytes.Width, out: array<bv8>, table: seq<bv8>, rowsize: nat, numrows: nat, idx: nat)
    requires rowsize <= out.Length && numrows * rowsize <= |table|
    requires numrows < w.Modulus() && idx < w.Modulus()
    modifies out
    ensures idx < numrows ==> idx * rowsize + rowsize <= |table|
    ensures idx < numrows ==> forall j :: 0 <= j < rowsize ==> out[j] == table[idx * rowsize + j]
    ensures idx >= numrows ==> forall j :: 0 <= j < rowsize ==> out[j] == 0
    ensures out[rowsize..] == old(out[rowsize..])
  {
    forall j | 0 <= j < rowsize {
      out[j] := 0;
    }
    if idx < numrows {
      RowFits(rowsize, numrows, idx);
    }
    ghost var start := idx * rowsize;
    var k, p := idx, 0;
    for i := 0 to numrows
      invariant k == Countdown(w, idx, i)
      invariant p == i * rowsize && (i == idx ==> p == start)
      invariant Taken(out, table, rowsize, start, idx < i)
      invariant out[rowsize..] == old(out[rowsize..])
    {
      RowFits(rowsize, numrows, i);
      VisitRow(w, out, table[p..p + rowsize], k);
      OrZero(0);
      p := p + rowsize;
      k := Decrement(w, k);
    }
  }
}
