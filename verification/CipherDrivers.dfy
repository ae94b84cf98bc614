/** The generic EVP wrappers: they cut long inputs into chunks of at most EVP_MAXCHUNK
    bytes, hand each chunk to a mode routine whose length argument is a signed long, and
    thread the register and the position through the calls. Like the macros they model,
    the drivers are written once for any routine; what they need of it is that going on
    from where it stopped is the same as not stopping. Input and output may be the same
    buffer. */
module CipherDrivers {
  import opened CipherModes
  import opened BitFeedback

  const EVP_MAXCHUNK: nat := 0x4000_0000

  type Routine = (Feedback, seq<octet>) -> Result

  ghost predicate DividesChunk(bs: nat) {
    bs > 0 && Aligned(bs, EVP_MAXCHUNK)
  }

  predicate InBlock(bs: nat, st: Feedback) {
    |st.iv| == bs && st.num < bs
  }

  ghost predicate ComposesAt(f: Routine, unit: nat, st: Feedback, a: seq<octet>, b: seq<octet>)
    requires unit > 0
  {
    Aligned(unit, |a|) ==>
      var r := f(st, a);
      && |r.out| == |a|
      && InBlock(|st.iv|, r.st)
      && f(st, a + b) == Result(f(r.st, b).st, r.out + f(r.st, b).out)
  }

  /** `f`, on a `bs`-byte register, does nothing to nothing and may be interrupted after
      any multiple of `unit` bytes. */
  ghost predicate Composable(f: Routine, bs: nat, unit: nat) {
    && unit > 0
    && (forall st :: InBlock(bs, st) ==> f(st, []) == Result(st, []))
    && (forall st, a, b :: InBlock(bs, st) ==> ComposesAt(f, unit, st, a, b))
  }

  // ---------- The library's routines ----------

  function OfbRoutine(c: Cipher, encrypting: bool): Routine {
    (st: Feedback, p: seq<octet>) =>
      if Ready(c, st) then Run(c, Ofb, encrypting, st, p) else Result(st, p)
  }

  /** The CFB routines of the block size, of eight bits and of one bit. */
  function CfbRoutine(c: Cipher, cbits: nat, encrypting: bool): Routine {
    (st: Feedback, p: seq<octet>) =>
      if !Ready(c, st) then Result(st, p)
      else if cbits == 1 then WithPosition(RunBits(c, encrypting, st.iv, p), st.num)
      else Run(c, if cbits == 8 then Cfb8 else Cfb, encrypting, st, p)
  }

  function CbcRoutine(c: Cipher, encrypting: bool): Routine {
    (st: Feedback, p: seq<octet>) =>
      if Ready(c, st) then WithPosition(Cbc(c, encrypting, st.iv, p), st.num) else Result(st, p)
  }

  function EcbRoutine(c: Cipher, encrypting: bool): Routine {
    (st: Feedback, p: seq<octet>) =>
      Result(st, if Ready(c, st) then Ecb(c, encrypting, p) else p)
  }

  function WithPosition(r: Blocks, num: nat): Result {
    Result(Feedback(r.iv, num), r.out)
  }

  /** OFB can be interrupted after any byte. */
  lemma OfbRoutineComposes(c: Cipher, encrypting: bool)
    ensures Composable(OfbRoutine(c, encrypting), c.bs, 1)
  {
    forall st, a, b | InBlock(c.bs, st)
      ensures ComposesAt(OfbRoutine(c, encrypting), 1, st, a, b)
    {
      RunAppend(c, Ofb, encrypting, st, a, b);
    }
  }

  /** So can CFB, even with one-bit segments. */
  lemma CfbRoutineComposes(c: Cipher, cbits: nat, encrypting: bool)
    ensures Composable(CfbRoutine(c, cbits, encrypting), c.bs, 1)
  {
    forall st, a, b | InBlock(c.bs, st)
      ensures ComposesAt(CfbRoutine(c, cbits, encrypting), 1, st, a, b)
    {
      CfbComposesAt(c, cbits, encrypting, st, a, b);
    }
    forall st | InBlock(c.bs, st)
      ensures CfbRoutine(c, cbits, encrypting)(st, []) == Result(st, [])
    {
      RunBitsOfNothing(c, encrypting, st.iv);
    }
  }

  lemma CfbComposesAt(c: Cipher, cbits: nat, encrypting: bool, st: Feedback, a: seq<octet>, b: seq<octet>)
    requires InBlock(c.bs, st)
    ensures ComposesAt(CfbRoutine(c, cbits, encrypting), 1, st, a, b)
  {
    if cbits == 1 {
      RunBitsAppend(c, encrypting, st.iv, a, b);
    } else {
      RunAppend(c, if cbits == 8 then Cfb8 else Cfb, encrypting, st, a, b);
    }
  }

  /** So can ECB, between blocks. */
  lemma EcbRoutineComposes(c: Cipher, encrypting: bool)
    ensures Composable(EcbRoutine(c, encrypting), c.bs, c.bs)
  {
    forall st, a, b | InBlock(c.bs, st) && Aligned(c.bs, |a|)
      ensures ComposesAt(EcbRoutine(c, encrypting), c.bs, st, a, b)
    {
      EcbAppend(c, encrypting, a, b);
    }
  }

  /** CBC can be interrupted between blocks. */
  lemma CbcRoutineComposes(c: Cipher, encrypting: bool)
    ensures Composable(CbcRoutine(c, encrypting), c.bs, c.bs)
  {
    forall st, a, b | InBlock(c.bs, st) && Aligned(c.bs, |a|)
      ensures ComposesAt(CbcRoutine(c, encrypting), c.bs, st, a, b)
    {
      CbcLength(c, encrypting, st.iv, a);
      CbcAppend(c, encrypting, st.iv, a, b);
    }
  }

  // ---------- The context and its drivers ----------

  class CipherCtx {
    const routine: Routine
    const bs: nat
    const unit: nat
    /** The routine's length argument counts bits, not bytes. */
    const bitLengths: bool
    var iv: seq<octet>
    var num: nat

    constructor (routine: Routine, bs: nat, unit: nat, bitLengths: bool, st: Feedback)
      requires Composable(routine, bs, unit) && InBlock(bs, st)
      ensures Valid() && State() == st
      ensures this.routine == routine && this.bs == bs && this.unit == unit && this.bitLengths == bitLengths
    {
      this.routine, this.bs, this.unit, this.bitLengths := routine, bs, unit, bitLengths;
      iv, num := st.iv, st.num;
    }

    /** How many bytes the routine processes when it is called with this length argument. */
    function ByteCount(length: nat): nat {
      if bitLengths then length / 8 else length
    }

    ghost predicate Valid()
      reads this
    {
      Composable(routine, bs, unit) && InBlock(bs, State())
    }

    function State(): Feedback
      reads this
    {
      Feedback(iv, num)
    }

    /** Writes a routine's output over `output[at..]`. */
    static method Store(output: array<octet>, at: nat, out: seq<octet>)
      requires at + |out| <= output.Length
      modifies output
      ensures output[..] == old(output[..at]) + out + old(output[at + |out|..])
    {
      forall i | 0 <= i < |out| {
        output[at + i] := out[i];
      }
    }

    /** What a driver has done after `pos` bytes: exactly what one unchunked call does to
        them, and nothing behind them. */
    ghost predicate Done(st0: Feedback, input: array<octet>, output: array<octet>, pos: nat,
                         in0: seq<octet>, out0: seq<octet>)
      reads this, input, output
    {
      && pos <= input.Length == |in0| && pos <= output.Length == |out0|
      && InBlock(bs, st0)
      && var r := routine(st0, in0[..pos]);
      && State() == r.st && |r.out| == pos
      && output[..] == r.out + out0[pos..]
      && input[pos..] == in0[pos..]
    }

    lemma Started(input: array<octet>, output: array<octet>)
      requires Valid()
      ensures Done(State(), input, output, 0, input[..], output[..])
    {
      assert input[..][..0] == [];
    }

    /** One call of the routine from within a driver, at `pos` bytes into the buffers. The
        length argument alone decides the number `n` of bytes processed; it must be positive
        and within its bound, and whole bytes if it counts bits. */
    method Call(input: array<octet>, output: array<octet>, pos: nat, length: nat, ghost n: nat,
                ghost st0: Feedback, ghost in0: seq<octet>, ghost out0: seq<octet>)
      requires 0 < length <= EVP_MAXCHUNK && (bitLengths ==> length % 8 == 0) && n == ByteCount(length)
      requires Composable(routine, bs, unit) && Aligned(unit, pos) && Aligned(unit, n)
      requires pos + n <= input.Length && pos + n <= output.Length
      requires Done(st0, input, output, pos, in0, out0)
      modifies `iv, `num, output
      ensures Done(st0, input, output, pos + n, in0, out0)
    {
      ghost var part := in0[pos..pos + n];
      Window(input[..], in0, pos, n);
      assert in0[..pos + n] == in0[..pos] + part;
      assert ComposesAt(routine, unit, st0, in0[..pos], part);
      assert ComposesAt(routine, unit, State(), part, []);
      Splice(routine(st0, in0[..pos]).out, out0, pos, n, routine(State(), part).out);
      var r := routine(State(), input[pos..pos + ByteCount(length)]);
      iv, num := r.st.iv, r.st.num;
      Store(output, pos, r.out);
    }

    /** A call of the OFB and CBC drivers for a full chunk. */
    method CallChunk(input: array<octet>, output: array<octet>, pos: nat,
                     ghost st0: Feedback, ghost in0: seq<octet>, ghost out0: seq<octet>)
      requires !bitLengths && Composable(routine, bs, unit) && DividesChunk(unit) && Aligned(unit, pos)
      requires pos + EVP_MAXCHUNK <= input.Length && pos + EVP_MAXCHUNK <= output.Length
      requires Done(st0, input, output, pos, in0, out0)
      modifies `iv, `num, output
      ensures Done(st0, input, output, pos + EVP_MAXCHUNK, in0, out0)
      ensures Aligned(unit, pos + EVP_MAXCHUNK)
    {
      AlignedSum(unit, pos, EVP_MAXCHUNK);
      Call(input, output, pos, EVP_MAXCHUNK, EVP_MAXCHUNK, st0, in0, out0);
    }

    /** The last call of the OFB and CBC drivers, for what the loop over chunks leaves. */
    method CallRest(input: array<octet>, output: array<octet>, pos: nat, inl: nat,
                    ghost st0: Feedback, ghost in0: seq<octet>, ghost out0: seq<octet>)
      requires !bitLengths && inl < EVP_MAXCHUNK
      requires Composable(routine, bs, unit) && Aligned(unit, pos) && Aligned(unit, pos + inl)
      requires pos + inl <= input.Length && pos + inl <= output.Length
      requires Done(st0, input, output, pos, in0, out0)
      modifies `iv, `num, output
      ensures Done(st0, input, output, pos + inl, in0, out0)
    {
      if inl != 0 {
        AlignedRest(unit, pos, inl);
        Call(input, output, pos, inl, inl, st0, in0, out0);
      }
    }

    /** BLOCK_CIPHER_func_ofb: a loop over full chunks and a last call for the rest. */
    method OfbCipher(input: array<octet>, output: array<octet>, length: nat) returns (ok: int)
      requires Valid() && !bitLengths && unit == 1 && length <= input.Length && length <= output.Length
      modifies `iv, `num, output
      ensures ok == 1
      ensures Done(old(State()), input, output, length, old(input[..]), old(output[..]))
    {
      ghost var st0, in0, out0 := State(), input[..], output[..];
      Started(input, output);
      var inl: nat, pos: nat := length, 0;
      while inl >= EVP_MAXCHUNK
        invariant pos + inl == length
        invariant Done(st0, input, output, pos, in0, out0)
      {
        BytesAlign(pos);
        BytesAlign(EVP_MAXCHUNK);
        CallChunk(input, output, pos, st0, in0, out0);
        inl := inl - EVP_MAXCHUNK;
        pos := pos + EVP_MAXCHUNK;
      }
      BytesAlign(pos);
      BytesAlign(length);
      CallRest(input, output, pos, inl, st0, in0, out0);
      return 1;
    }

    /** BLOCK_CIPHER_func_cbc: the same loop, on whole blocks of a size that divides the
        chunk. */
    method CbcCipher(input: array<octet>, output: array<octet>, length: nat) returns (ok: int)
      requires Valid() && !bitLengths && length <= input.Length && length <= output.Length
      requires Aligned(unit, length) && DividesChunk(unit)
      modifies `iv, `num, output
      ensures ok == 1
      ensures Done(old(State()), input, output, length, old(input[..]), old(output[..]))
    {
      ghost var st0, in0, out0 := State(), input[..], output[..];
      Started(input, output);
      var inl: nat, pos: nat := length, 0;
      while inl >= EVP_MAXCHUNK
        invariant pos + inl == length
        invariant Aligned(unit, pos)
        invariant Done(st0, input, output, pos, in0, out0)
      {
        CallChunk(input, output, pos, st0, in0, out0);
        inl := inl - EVP_MAXCHUNK;
        pos := pos + EVP_MAXCHUNK;
      }
      CallRest(input, output, pos, inl, st0, in0, out0);
      return 1;
    }

    /** BLOCK_CIPHER_func_cfb, without the length-in-bits flag when `cbits` is 1. The chunk
        is an eighth of the usual there, so that its length in bits stays within bounds. */
    method CfbCipher(cbits: nat, lengthBits: bool, input: array<octet>, output: array<octet>, length: nat)
        returns (ok: int)
      requires Valid() && unit == 1 && length <= input.Length && length <= output.Length
      requires bitLengths == (cbits == 1) && !(cbits == 1 && lengthBits)
      modifies `iv, `num, output
      ensures ok == 1
      ensures Done(old(State()), input, output, length, old(input[..]), old(output[..]))
    {
      ghost var st0, in0, out0 := State(), input[..], output[..];
      Started(input, output);
      var inl: nat, pos: nat := length, 0;
      var chunk: nat := EVP_MAXCHUNK;
      if cbits == 1 {
        chunk := chunk / 8;
      }
      if inl < chunk {
        chunk := inl;
      }
      while inl != 0 && inl >= chunk
        invariant pos + inl == length
        invariant chunk <= inl && (inl != 0 ==> chunk != 0)
        invariant (if cbits == 1 then 8 * chunk else chunk) <= EVP_MAXCHUNK
        invariant Done(st0, input, output, pos, in0, out0)
      {
        BytesAlign(chunk);
        BytesAlign(pos);
        Call(input, output, pos, if cbits == 1 && !lengthBits then chunk * 8 else chunk, chunk, st0, in0, out0);
        inl := inl - chunk;
        pos := pos + chunk;
        if inl < chunk {
          chunk := inl;
        }
      }
      return 1;
    }

    /** BLOCK_CIPHER_func_ecb: block after block, and no byte of a trailing partial one. */
    method EcbCipher(input: array<octet>, output: array<octet>, length: nat) returns (ok: int)
      requires Valid() && !bitLengths && unit <= EVP_MAXCHUNK && length <= input.Length && length <= output.Length
      modifies `iv, `num, output
      ensures ok == 1
      ensures Done(old(State()), input, output, WholeBlocks(unit, length), old(input[..]), old(output[..]))
    {
      ghost var st0, in0, out0 := State(), input[..], output[..];
      Started(input, output);
      var bl := unit;
      if length < bl {
        return 1;
      }
      var inl, i: nat := length - bl, 0;
      while i <= inl
        invariant i <= length && Aligned(unit, i)
        invariant Done(st0, input, output, i, in0, out0)
      {
        AlignedSum(unit, unit, i);
        Call(input, output, i, bl, bl, st0, in0, out0);
        i := i + bl;
      }
      WholeBlocksFound(unit, length, i);
      return 1;
    }
  }

  // ---------- The drivers of a cipher ----------

  /** The OFB driver of a cipher: one unchunked run of the mode, whatever the length. */
  method OfbDriver(c: Cipher, encrypting: bool, st: Feedback, input: array<octet>, output: array<octet>, length: nat)
      returns (ctx: CipherCtx)
    requires Ready(c, st) && length <= input.Length && length <= output.Length
    modifies output
    ensures var r := Run(c, Ofb, encrypting, st, old(input[..length]));
      ctx.State() == r.st && output[..] == r.out + old(output[length..])
  {
    OfbRoutineComposes(c, encrypting);
    ctx := new CipherCtx(OfbRoutine(c, encrypting), c.bs, 1, false, st);
    Prefixes(input[..], output[..], length);
    var _ := ctx.OfbCipher(input, output, length);
  }

  /** The CFB drivers, with segments of a block, of eight bits and of one bit. */
  method CfbDriver(c: Cipher, cbits: nat, encrypting: bool, st: Feedback,
                   input: array<octet>, output: array<octet>, length: nat)
      returns (ctx: CipherCtx)
    requires Ready(c, st) && length <= input.Length && length <= output.Length
    modifies output
    ensures var p := old(input[..length]);
      var r := if cbits == 1 then WithPosition(RunBits(c, encrypting, st.iv, p), st.num)
               else Run(c, if cbits == 8 then Cfb8 else Cfb, encrypting, st, p);
      ctx.State() == r.st && output[..] == r.out + old(output[length..])
  {
    CfbRoutineComposes(c, cbits, encrypting);
    ctx := new CipherCtx(CfbRoutine(c, cbits, encrypting), c.bs, 1, cbits == 1, st);
    Prefixes(input[..], output[..], length);
    var _ := ctx.CfbCipher(cbits, false, input, output, length);
  }

  /** The CBC driver, on whole blocks. */
  method CbcDriver(c: Cipher, encrypting: bool, st: Feedback, input: array<octet>, output: array<octet>, length: nat)
      returns (ctx: CipherCtx)
    requires Ready(c, st) && length <= input.Length && length <= output.Length
    requires Aligned(c.bs, length) && DividesChunk(c.bs)
    modifies output
    ensures var r := Cbc(c, encrypting, st.iv, old(input[..length]));
      ctx.State() == Feedback(r.iv, st.num) && output[..] == r.out + old(output[length..])
  {
    CbcRoutineComposes(c, encrypting);
    ctx := new CipherCtx(CbcRoutine(c, encrypting), c.bs, c.bs, false, st);
    Prefixes(input[..], output[..], length);
    var _ := ctx.CbcCipher(input, output, length);
  }

  /** The ECB driver: the whole blocks of the input, and nothing of what follows them. */
  method EcbDriver(c: Cipher, encrypting: bool, st: Feedback, input: array<octet>, output: array<octet>, length: nat)
      returns (ctx: CipherCtx)
    requires Ready(c, st) && c.bs <= EVP_MAXCHUNK && length <= input.Length && length <= output.Length
    modifies output
    ensures var n := WholeBlocks(c.bs, length);
      ctx.State() == st && output[..] == Ecb(c, encrypting, old(input[..n])) + old(output[n..])
  {
    EcbRoutineComposes(c, encrypting);
    ctx := new CipherCtx(EcbRoutine(c, encrypting), c.bs, c.bs, false, st);
    Prefixes(input[..], output[..], WholeBlocks(c.bs, length));
    var _ := ctx.EcbCipher(input, output, length);
  }

  // ---------- Sequences and alignment ----------

  /** The greatest multiple of `bs` that is at most `n`. */
  function WholeBlocks(bs: nat, n: nat): (k: nat)
    requires bs > 0
    ensures k <= n && Aligned(bs, k) && n - k < bs
  {
    if n < bs then 0 else bs + WholeBlocks(bs, n - bs)
  }

  lemma {:induction false} WholeBlocksFound(bs: nat, n: nat, k: nat)
    requires bs > 0 && k <= n && Aligned(bs, k) && n - k < bs
    ensures k == WholeBlocks(bs, n)
  {
    if k != 0 {
      WholeBlocksFound(bs, n - bs, k - bs);
    }
  }

  lemma {:induction false} BytesAlign(n: nat)
    ensures Aligned(1, n)
  {
    if n != 0 {
      BytesAlign(n - 1);
    }
  }

  lemma {:induction false} AlignedRest(bs: nat, a: nat, b: nat)
    requires bs > 0 && Aligned(bs, a) && Aligned(bs, a + b)
    ensures Aligned(bs, b)
  {
    if a != 0 {
      AlignedRest(bs, a - bs, b);
    }
  }

  lemma {:induction false} AlignedSum(bs: nat, a: nat, b: nat)
    requires bs > 0 && Aligned(bs, a) && Aligned(bs, b)
    ensures Aligned(bs, a + b)
  {
    if a != 0 {
      AlignedSum(bs, a - bs, b);
    }
  }

  lemma Prefixes(input: seq<octet>, output: seq<octet>, n: nat)
    requires n <= |input| && n <= |output|
    ensures input[..][..n] == input[..n] && output[..][n..] == output[n..]
  {
  }

  lemma Window(now: seq<octet>, in0: seq<octet>, pos: nat, n: nat)
    requires |now| == |in0| && pos + n <= |in0| && now[pos..] == in0[pos..]
    ensures now[pos..pos + n] == in0[pos..pos + n]
    ensures now[pos + n..] == in0[pos + n..]
  {
    assert now[pos..][..n] == in0[pos..][..n];
    assert now[pos..][n..] == in0[pos..][n..];
  }

  lemma Splice(done: seq<octet>, out0: seq<octet>, pos: nat, n: nat, part: seq<octet>)
    requires |done| == pos && |part| == n && pos + n <= |out0|
    ensures var o := done + out0[pos..];
      && o[..pos] + part + o[pos + n..] == (done + part) + out0[pos + n..]
      && (o[..pos] + part + o[pos + n..])[pos + n..] == o[pos + n..]
  {
  }
}
