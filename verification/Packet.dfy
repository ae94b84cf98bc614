/** The PACKET reader: a mutable cursor over memory it does not own. Reads check what
    remains first; length-prefixed reads work on a copy, so that `subpkt` may be the packet
    itself and a failure leaves both alone. */
module Packet {
  import opened Wrappers
  import opened Bytes
  import opened PacketCodec
  import opened Sequences

  /** Lengths above half of SIZE_MAX are taken for negative ones. */
  predicate Plausible(w: Width, len: nat) {
    len <= (w.Modulus() - 1) / 2
  }

  class Packet {
    var buf: seq<byte>
    var curr: nat
    var remaining: nat

    ghost predicate Valid()
      reads this
    {
      Cur().Valid()
    }

    function Cur(): Cursor
      reads this
    {
      Cursor(buf, curr, remaining)
    }

    ghost function Content(): seq<byte>
      reads this
      requires Valid()
    {
      Cur().Content()
    }

    /** PACKET_end: the position just behind the packet. */
    function End(): nat
      reads this
    {
      curr + remaining
    }

    /** Struct copy. */
    constructor Copy(pkt: Packet)
      ensures Cur() == pkt.Cur()
    {
      buf, curr, remaining := pkt.buf, pkt.curr, pkt.remaining;
    }

    method Assign(pkt: Packet)
      modifies this
      ensures Cur() == old(pkt.Cur())
    {
      buf, curr, remaining := pkt.buf, pkt.curr, pkt.remaining;
    }

    /** PACKET_buf_init: `len` bytes of `memory` from `at`, unless `len` looks negative. */
    method BufInit(w: Width, memory: seq<byte>, at: nat, len: nat) returns (ok: bool)
      requires Plausible(w, len) ==> at + len <= |memory|
      modifies this
      ensures ok <==> Plausible(w, len)
      ensures Cur() == if ok then Cursor(memory, at, len) else old(Cur())
    {
      if len > (w.Modulus() - 1) / 2 {
        return false;
      }
      buf, curr, remaining := memory, at, len;
      return true;
    }

    method PacketForward(len: nat)
      requires len <= remaining
      modifies this
      ensures Cur() == old(Cur()).Skip(len)
    {
      curr := curr + len;
      remaining := remaining - len;
    }

    /** PACKET_forward. */
    method Forward(len: nat) returns (ok: bool)
      requires Valid()
      modifies this
      ensures Valid() && Cur() == Step(old(Cur()), Take(len))
      ensures ok <==> len <= old(remaining)
      ensures if old(remaining) < len then Cur() == old(Cur())
              else Cur() == old(Cursor(buf, curr + len, remaining - len))
    {
      if remaining < len {
        return false;
      }
      PacketForward(len);
      return true;
    }

    /** PACKET_peek_sub_packet. `subpkt` may be this packet. */
    method PeekSubPacket(w: Width, subpkt: Packet, len: nat) returns (ok: bool)
      requires Valid()
      modifies subpkt
      ensures ok <==> len <= old(remaining) && Plausible(w, len)
      ensures subpkt.Cur() == if ok then Cursor(old(buf), old(curr), len) else old(subpkt.Cur())
    {
      if remaining < len {
        return false;
      }
      ok := subpkt.BufInit(w, buf, curr, len);
    }

    /** PACKET_get_sub_packet. Unlike the length-prefixed reads it is not written for
        `subpkt` being the packet itself: the sub-packet would then be skipped over. */
    method GetSubPacket(w: Width, subpkt: Packet, len: nat) returns (ok: bool)
      requires Valid()
      modifies this, subpkt
      ensures Valid()
      ensures ok <==> len <= old(remaining) && Plausible(w, len)
      ensures !ok ==> Cur() == old(Cur()) && subpkt.Cur() == old(subpkt.Cur())
      ensures ok && subpkt != this ==>
        Cur() == Step(old(Cur()), Take(len)) && subpkt.Cur() == Cursor(old(buf), old(curr), len)
      ensures ok && subpkt == this ==> Cur() == Cursor(old(buf), old(curr) + len, 0)
    {
      ok := PeekSubPacket(w, subpkt, len);
      if !ok {
        return false;
      }
      PacketForward(len);
    }

    // ---------- Fixed-width integers ----------

    method Peek1() returns (data: Option<nat>)
      requires Valid()
      ensures data == if remaining < 1 then None else Some(BigEndian(Content()[..1]))
    {
      if remaining == 0 {
        return None;
      }
      BigEndianPrefixes(Content(), 1);
      return Some(buf[curr]);
    }

    method PeekNet2() returns (data: Option<nat>)
      requires Valid()
      ensures data == if remaining < 2 then None else Some(BigEndian(Content()[..2]))
    {
      if remaining < 2 {
        return None;
      }
      BigEndianPrefixes(Content(), 2);
      return Some((buf[curr] as int) * 0x100 + buf[curr + 1]);
    }

    method PeekNet3() returns (data: Option<nat>)
      requires Valid()
      ensures data == if remaining < 3 then None else Some(BigEndian(Content()[..3]))
    {
      if remaining < 3 {
        return None;
      }
      BigEndianPrefixes(Content(), 3);
      return Some((buf[curr] as int) * 0x1_0000 + (buf[curr + 1] as int) * 0x100 + buf[curr + 2]);
    }

    method PeekNet4() returns (data: Option<nat>)
      requires Valid()
      ensures data == if remaining < 4 then None else Some(BigEndian(Content()[..4]))
    {
      if remaining < 4 {
        return None;
      }
      BigEndianPrefixes(Content(), 4);
      return Some((buf[curr] as int) * 0x100_0000 + (buf[curr + 1] as int) * 0x1_0000
                + (buf[curr + 2] as int) * 0x100 + buf[curr + 3]);
    }

    method PeekNet8() returns (data: Option<nat>)
      requires Valid()
      ensures data == if remaining < 8 then None else Some(BigEndian(Content()[..8]))
    {
      if remaining < 8 {
        return None;
      }
      BigEndianPrefixes(Content(), 8);
      return Some((buf[curr] as int) * 0x100_0000_0000_0000 + (buf[curr + 1] as int) * 0x1_0000_0000_0000
                + (buf[curr + 2] as int) * 0x100_0000_0000 + (buf[curr + 3] as int) * 0x1_0000_0000
                + (buf[curr + 4] as int) * 0x100_0000 + (buf[curr + 5] as int) * 0x1_0000
                + (buf[curr + 6] as int) * 0x100 + buf[curr + 7]);
    }

    /** PACKET_peek_4: the only read in reverse network order. */
    method Peek4() returns (data: Option<nat>)
      requires Valid()
      ensures data == if remaining < 4 then None else Some(LittleEndian(Content()[..4]))
    {
      if remaining < 4 {
        return None;
      }
      LittleEndianFour(Content()[..4]);
      return Some(buf[curr] as int + (buf[curr + 1] as int) * 0x100
                + (buf[curr + 2] as int) * 0x1_0000 + (buf[curr + 3] as int) * 0x100_0000);
    }

    method Get1() returns (data: Option<nat>)
      requires Valid()
      modifies this
      ensures Valid() && Cur() == Step(old(Cur()), Take(1))
      ensures data == if old(remaining) < 1 then None else Some(BigEndian(old(Content())[..1]))
      ensures if old(remaining) < 1 then Cur() == old(Cur())
              else Cur() == old(Cursor(buf, curr + 1, remaining - 1))
    {
      data := Peek1();
      if data.None? {
        return;
      }
      PacketForward(1);
    }

    method GetNet2() returns (data: Option<nat>)
      requires Valid()
      modifies this
      ensures Valid() && Cur() == Step(old(Cur()), Take(2))
      ensures data == if old(remaining) < 2 then None else Some(BigEndian(old(Content())[..2]))
      ensures if old(remaining) < 2 then Cur() == old(Cur())
              else Cur() == old(Cursor(buf, curr + 2, remaining - 2))
    {
      data := PeekNet2();
      if data.None? {
        return;
      }
      PacketForward(2);
    }

    method GetNet3() returns (data: Option<nat>)
      requires Valid()
      modifies this
      ensures Valid() && Cur() == Step(old(Cur()), Take(3))
      ensures data == if old(remaining) < 3 then None else Some(BigEndian(old(Content())[..3]))
      ensures if old(remaining) < 3 then Cur() == old(Cur())
              else Cur() == old(Cursor(buf, curr + 3, remaining - 3))
    {
      data := PeekNet3();
      if data.None? {
        return;
      }
      PacketForward(3);
    }

    method GetNet4() returns (data: Option<nat>)
      requires Valid()
      modifies this
      ensures Valid() && Cur() == Step(old(Cur()), Take(4))
      ensures data == if old(remaining) < 4 then None else Some(BigEndian(old(Content())[..4]))
      ensures if old(remaining) < 4 then Cur() == old(Cur())
              else Cur() == old(Cursor(buf, curr + 4, remaining - 4))
    {
      data := PeekNet4();
      if data.None? {
        return;
      }
      PacketForward(4);
    }

    method GetNet8() returns (data: Option<nat>)
      requires Valid()
      modifies this
      ensures Valid() && Cur() == Step(old(Cur()), Take(8))
      ensures data == if old(remaining) < 8 then None else Some(BigEndian(old(Content())[..8]))
      ensures if old(remaining) < 8 then Cur() == old(Cur())
              else Cur() == old(Cursor(buf, curr + 8, remaining - 8))
    {
      data := PeekNet8();
      if data.None? {
        return;
      }
      PacketForward(8);
    }

    method Get4() returns (data: Option<nat>)
      requires Valid()
      modifies this
      ensures Valid() && Cur() == Step(old(Cur()), Take(4))
      ensures data == if old(remaining) < 4 then None else Some(LittleEndian(old(Content())[..4]))
      ensures if old(remaining) < 4 then Cur() == old(Cur())
              else Cur() == old(Cursor(buf, curr + 4, remaining - 4))
    {
      data := Peek4();
      if data.None? {
        return;
      }
      PacketForward(4);
    }

    /** PACKET_get_bytes: the position the bytes are at, not a copy of them. */
    method GetBytes(len: nat) returns (data: Option<nat>)
      requires Valid()
      modifies this
      ensures Valid() && Cur() == Step(old(Cur()), Take(len))
      ensures data == if old(remaining) < len then None else Some(old(curr))
      ensures if old(remaining) < len then Cur() == old(Cur())
              else Cur() == old(Cursor(buf, curr + len, remaining - len))
    {
      if remaining < len {
        return None;
      }
      data := Some(curr);
      PacketForward(len);
    }

    // ---------- Length-prefixed vectors ----------

    /** What every length-prefixed read promises for a `k`-byte length field: with `c` and
        `d` the two packets before and `c'` and `d'` after, either nothing changes, or one
        vector moves from the packet to the sub-packet, which wins if they are the same. */
    static ghost predicate ReadsVector(k: nat, c: Cursor, d: Cursor, c': Cursor, d': Cursor, same: bool, ok: bool)
      requires c.Valid()
    {
      match DecodeVec(k, c.Content())
      case None => !ok && c' == c && d' == d
      case Some(v) =>
        && ok
        && d' == Cursor(c.buf, c.curr + k, |v.body|) && d'.Valid() && d'.Content() == v.body
        && (!same ==> c' == Step(c, TakeVec(k)) && c'.Valid() && c'.Content() == v.rest)
    }

    /** PACKET_get_length_prefixed_1. */
    method GetLengthPrefixed1(subpkt: Packet) returns (ok: bool)
      requires Valid()
      modifies this, subpkt
      ensures Valid() && (ok ==> subpkt.Valid())
      ensures ReadsVector(1, old(Cur()), old(subpkt.Cur()), Cur(), subpkt.Cur(), subpkt == this, ok)
    {
      if DecodeVec(1, Content()).Some? {
        VectorParts(1, Cur());
      }
      var tmp := new Packet.Copy(this);
      var length := tmp.Get1();
      if length.None? {
        return false;
      }
      var data := tmp.GetBytes(length.value);
      if data.None? {
        return false;
      }
      Assign(tmp);
      subpkt.buf, subpkt.curr, subpkt.remaining := buf, data.value, length.value;
      return true;
    }

    /** PACKET_get_length_prefixed_2. */
    method GetLengthPrefixed2(subpkt: Packet) returns (ok: bool)
      requires Valid()
      modifies this, subpkt
      ensures Valid() && (ok ==> subpkt.Valid())
      ensures ReadsVector(2, old(Cur()), old(subpkt.Cur()), Cur(), subpkt.Cur(), subpkt == this, ok)
    {
      if DecodeVec(2, Content()).Some? {
        VectorParts(2, Cur());
      }
      var tmp := new Packet.Copy(this);
      var length := tmp.GetNet2();
      if length.None? {
        return false;
      }
      var data := tmp.GetBytes(length.value);
      if data.None? {
        return false;
      }
      Assign(tmp);
      subpkt.buf, subpkt.curr, subpkt.remaining := buf, data.value, length.value;
      return true;
    }

    /** PACKET_get_length_prefixed_3. */
    method GetLengthPrefixed3(subpkt: Packet) returns (ok: bool)
      requires Valid()
      modifies this, subpkt
      ensures Valid() && (ok ==> subpkt.Valid())
      ensures ReadsVector(3, old(Cur()), old(subpkt.Cur()), Cur(), subpkt.Cur(), subpkt == this, ok)
    {
      if DecodeVec(3, Content()).Some? {
        VectorParts(3, Cur());
      }
      var tmp := new Packet.Copy(this);
      var length := tmp.GetNet3();
      if length.None? {
        return false;
      }
      var data := tmp.GetBytes(length.value);
      if data.None? {
        return false;
      }
      Assign(tmp);
      subpkt.buf, subpkt.curr, subpkt.remaining := buf, data.value, length.value;
      return true;
    }

    /** PACKET_as_length_prefixed_1: the packet must be one vector and nothing else. */
    method AsLengthPrefixed1(subpkt: Packet) returns (ok: bool)
      requires Valid()
      modifies this, subpkt
      ensures ok <==> IsVector(1, old(Content()))
      ensures ok ==> subpkt.Cur() == old(Cursor(buf, curr + 1, remaining - 1))
      ensures ok ==> subpkt.Valid() && EncodesTo(1, subpkt.Content(), old(Content()))
      ensures ok && subpkt != this ==> Cur() == old(Cur().Skip(remaining))
      ensures !ok ==> Cur() == old(Cur()) && subpkt.Cur() == old(subpkt.Cur())
    {
      if DecodeVec(1, Content()).Some? {
        VectorParts(1, Cur());
      }
      OneVector(1, Content());
      var tmp := new Packet.Copy(this);
      var length := tmp.Get1();
      if length.None? {
        return false;
      }
      var data := tmp.GetBytes(length.value);
      if data.None? || tmp.remaining != 0 {
        return false;
      }
      Assign(tmp);
      subpkt.buf, subpkt.curr, subpkt.remaining := buf, data.value, length.value;
      return true;
    }

    /** PACKET_as_length_prefixed_2. */
    method AsLengthPrefixed2(subpkt: Packet) returns (ok: bool)
      requires Valid()
      modifies this, subpkt
      ensures ok <==> IsVector(2, old(Content()))
      ensures ok ==> subpkt.Cur() == old(Cursor(buf, curr + 2, remaining - 2))
      ensures ok ==> subpkt.Valid() && EncodesTo(2, subpkt.Content(), old(Content()))
      ensures ok && subpkt != this ==> Cur() == old(Cur().Skip(remaining))
      ensures !ok ==> Cur() == old(Cur()) && subpkt.Cur() == old(subpkt.Cur())
    {
      if DecodeVec(2, Content()).Some? {
        VectorParts(2, Cur());
      }
      OneVector(2, Content());
      var tmp := new Packet.Copy(this);
      var length := tmp.GetNet2();
      if length.None? {
        return false;
      }
      var data := tmp.GetBytes(length.value);
      if data.None? || tmp.remaining != 0 {
        return false;
      }
      Assign(tmp);
      subpkt.buf, subpkt.curr, subpkt.remaining := buf, data.value, length.value;
      return true;
    }
  }

  // ---------- Reading a list of vectors ----------

  /** The read for a length field of one, two or three bytes. */
  method GetLengthPrefixed(k: nat, pkt: Packet, subpkt: Packet) returns (ok: bool)
    requires pkt.Valid() && 1 <= k <= 3
    modifies pkt, subpkt
    ensures pkt.Valid() && (ok ==> subpkt.Valid())
    ensures Packet.ReadsVector(k, old(pkt.Cur()), old(subpkt.Cur()), pkt.Cur(), subpkt.Cur(), subpkt == pkt, ok)
  {
    if k == 1 {
      ok := pkt.GetLengthPrefixed1(subpkt);
    } else if k == 2 {
      ok := pkt.GetLengthPrefixed2(subpkt);
    } else {
      ok := pkt.GetLengthPrefixed3(subpkt);
    }
  }

  function Prepend(xs: seq<seq<byte>>, d: Option<seq<seq<byte>>>): Option<seq<seq<byte>>> {
    if d.None? then None else Some(xs + d.value)
  }

  lemma OneMore(k: nat, s: seq<byte>, xs: seq<seq<byte>>)
    requires k > 0 && s != [] && DecodeVec(k, s).Some?
    ensures var v := DecodeVec(k, s).value;
      && |v.rest| < |s|
      && Prepend(xs, DecodeAll(k, s)) == Prepend(xs + [v.body], DecodeAll(k, v.rest))
  {
    var d := DecodeAll(k, DecodeVec(k, s).value.rest);
    if d.Some? {
      Associate(xs, [DecodeVec(k, s).value.body], d.value);
    }
  }

  /** One read of the loop below: it finds the first vector of the list, if there is one. */
  method ReadNext(k: nat, pkt: Packet, subpkt: Packet, ghost xs: seq<seq<byte>>) returns (ok: bool, body: seq<byte>)
    requires pkt.Valid() && 1 <= k <= 3 && pkt.remaining > 0 && subpkt != pkt
    modifies pkt, subpkt
    ensures pkt.Valid()
    ensures var before := DecodeAll(k, old(pkt.Content()));
      if ok then Prepend(xs, before) == Prepend(xs + [body], DecodeAll(k, pkt.Content())) else before.None?
    ensures ok ==> pkt.remaining < old(pkt.remaining)
  {
    ghost var s := pkt.Content();
    if DecodeVec(k, s).Some? {
      OneMore(k, s, xs);
    }
    ok := GetLengthPrefixed(k, pkt, subpkt);
    body := if ok then subpkt.buf[subpkt.curr..subpkt.curr + subpkt.remaining] else [];
  }

  /** Reading until nothing remains, as callers do, is decoding the whole list: it succeeds
      exactly when the packet is a list of vectors, and then finds their bodies in order. */
  method ReadVectors(k: nat, pkt: Packet) returns (ok: bool, xs: seq<seq<byte>>)
    requires pkt.Valid() && 1 <= k <= 3
    modifies pkt
    ensures pkt.Valid()
    ensures ok <==> DecodeAll(k, old(pkt.Content())).Some?
    ensures ok ==> xs == DecodeAll(k, old(pkt.Content())).value && pkt.remaining == 0
  {
    var subpkt := new Packet.Copy(pkt);
    ghost var all := DecodeAll(k, pkt.Content());
    xs := [];
    PrependNothing(all);
    while pkt.remaining > 0
      invariant pkt.Valid()
      invariant all == Prepend(xs, DecodeAll(k, pkt.Content()))
      decreases pkt.remaining
    {
      var body;
      ok, body := ReadNext(k, pkt, subpkt, xs);
      if !ok {
        return false, [];
      }
      xs := xs + [body];
    }
    return true, xs;
  }

  lemma PrependNothing(d: Option<seq<seq<byte>>>)
    ensures Prepend([], d) == d
  {
    assert d.Some? ==> [] + d.value == d.value;
  }
}
