/** Where isochronous packets lie in a transfer buffer, and how a control transfer's setup
    packet is laid out and read back. */
module UsbTransfer {
  import opened Bytes
  import opened Division

  const INT_MAX: int := 0x7FFF_FFFF

  // ---------- Isochronous packets ----------

  /** A pointer relative to the transfer buffer; Undefined where C's signed product
      overflows. */
  datatype Position = Null | At(offset: int) | Undefined

  /** The sum of the lengths before packet `p`. */
  function Offset(lengths: seq<uint32>, p: nat): nat
    requires p <= |lengths|
  {
    if p == 0 then 0 else Offset(lengths, p - 1) + lengths[p - 1]
  }

  /** The same sum in a size_t. */
  function Wrapped(w: Width, lengths: seq<uint32>, p: nat): (offset: nat)
    requires p <= |lengths|
    ensures offset < w.Modulus()
  {
    if p == 0 then 0 else AddWrapping(w, Wrapped(w, lengths, p - 1), lengths[p - 1])
  }

  /** The conversion of an unsigned int to int. */
  function ToInt(x: uint32): int {
    if x <= 0x7FFF_FFFF then x else x - 0x1_0000_0000
  }

  class IsoTransfer {
    var numIsoPackets: int
    const lengths: array<uint32>

    ghost predicate Valid()
      reads this
    {
      numIsoPackets <= INT_MAX && numIsoPackets <= lengths.Length
    }

    constructor (capacity: nat, numIsoPackets: int)
      requires numIsoPackets <= INT_MAX && numIsoPackets <= capacity
      ensures Valid() && fresh(lengths) && lengths.Length == capacity && this.numIsoPackets == numIsoPackets
    {
      this.numIsoPackets := numIsoPackets;
      lengths := new uint32[capacity](_ => 0);
    }

    /** libusb_set_iso_packet_lengths. */
    method SetIsoPacketLengths(length: uint32)
      requires Valid()
      modifies lengths
      ensures forall i :: 0 <= i < lengths.Length ==>
        lengths[i] == if i < numIsoPackets then length else old(lengths[i])
    {
      var i := 0;
      while i < numIsoPackets
        invariant 0 <= i && (i <= numIsoPackets || i == 0)
        invariant forall j :: 0 <= j < lengths.Length ==> lengths[j] == if j < i then length else old(lengths[j])
      {
        lengths[i] := length;
        i := i + 1;
      }
    }

    /** libusb_get_iso_packet_buffer: sums the preceding lengths in a size_t. */
    method GetIsoPacketBuffer(w: Width, packet: uint32) returns (p: Position)
      requires Valid()
      ensures p == if packet >= numIsoPackets then Null else At(Offset(lengths[..], packet) % w.Modulus())
      ensures p == Summing(w, numIsoPackets, lengths[..], packet)
    {
      if packet > 0x7FFF_FFFF {
        return Null;
      }
      if packet >= numIsoPackets {
        return Null;
      }
      var offset: nat := 0;
      for i := 0 to packet
        invariant offset == Wrapped(w, lengths[..], i)
      {
        offset := AddWrapping(w, offset, lengths[i]);
      }
      WrappedIsModulo(w, lengths[..], packet);
      return At(offset);
    }

    /** libusb_get_iso_packet_buffer_simple: multiplies the first length, as an int. */
    method GetIsoPacketBufferSimple(packet: uint32) returns (p: Position)
      requires Valid()
      ensures p == if packet >= numIsoPackets then Null
                   else if FitsInt(ToInt(lengths[0]) * packet) then At(ToInt(lengths[0]) * packet) else Undefined
      ensures p == Multiplying(numIsoPackets, lengths[..], packet)
    {
      if packet > 0x7FFF_FFFF {
        return Null;
      }
      if packet >= numIsoPackets {
        return Null;
      }
      var product := ToInt(lengths[0]) * packet;
      return if FitsInt(product) then At(product) else Undefined;
    }
  }

  function Summing(w: Width, num: int, lengths: seq<uint32>, packet: uint32): Position
    requires num <= INT_MAX && num <= |lengths|
  {
    if packet >= num then Null else At(Wrapped(w, lengths, packet))
  }

  predicate FitsInt(x: int) {
    -0x8000_0000 <= x <= 0x7FFF_FFFF
  }

  function Multiplying(num: int, lengths: seq<uint32>, packet: uint32): Position
    requires num <= INT_MAX && num <= |lengths|
  {
    if packet >= num then Null
    else
      var product := ToInt(lengths[0]) * packet;
      if FitsInt(product) then At(product) else Undefined
  }

  /** Wrapping every addition wraps the sum. */
  lemma {:induction false} WrappedIsModulo(w: Width, lengths: seq<uint32>, p: nat)
    requires p <= |lengths|
    ensures Wrapped(w, lengths, p) == Offset(lengths, p) % w.Modulus()
  {
    if p > 0 {
      WrappedIsModulo(w, lengths, p - 1);
      var a, b := Wrapped(w, lengths, p - 1), lengths[p - 1];
      ModAdd(Offset(lengths, p - 1), b, w.Modulus());
      DivUnique(a + b, w.Modulus(), if a + b < w.Modulus() then 0 else 1, AddWrapping(w, a, b));
    }
  }

  lemma {:induction false} OffsetBound(lengths: seq<uint32>, p: nat)
    requires p <= |lengths|
    ensures Offset(lengths, p) <= p * 0xFFFF_FFFF
  {
    if p > 0 {
      OffsetBound(lengths, p - 1);
    }
  }

  /** No sum of int-many unsigned lengths wraps in 64 bits. */
  lemma NeverWrapsIn64(lengths: seq<uint32>, p: nat)
    requires p <= |lengths| && p <= INT_MAX
    ensures Wrapped(Bits64, lengths, p) == Offset(lengths, p)
  {
    OffsetBound(lengths, p);
    WrapsExactly(Bits64, lengths, p);
  }

  /** A sum is what it should be exactly when it stays below the modulus. */
  lemma {:induction false} WrapsExactly(w: Width, lengths: seq<uint32>, p: nat)
    requires p <= |lengths|
    ensures Wrapped(w, lengths, p) == Offset(lengths, p) <==> Offset(lengths, p) < w.Modulus()
    ensures Wrapped(w, lengths, p) <= Offset(lengths, p)
  {
    if p > 0 {
      WrapsExactly(w, lengths, p - 1);
    }
  }

  lemma {:induction false} OffsetGrows(lengths: seq<uint32>, p: nat, q: nat)
    requires p <= q <= |lengths|
    ensures Offset(lengths, p) <= Offset(lengths, q)
    ensures p < q ==> Offset(lengths, p) + lengths[p] <= Offset(lengths, q)
  {
    if p < q - 1 {
      OffsetGrows(lengths, p, q - 1);
    }
  }

  /** The summing lookup puts packet `p` at the sum of the lengths before it, reduced to what
      a size_t holds. */
  lemma SummingIsOffset(w: Width, num: int, lengths: seq<uint32>, packet: uint32)
    requires num <= INT_MAX && num <= |lengths|
    ensures Summing(w, num, lengths, packet)
         == if packet >= num then Null else At(Offset(lengths, packet) % w.Modulus())
  {
    if packet < num {
      WrappedIsModulo(w, lengths, packet);
    }
  }

  /** The region of packet `p`, as the lookup gives it, ends no later than that of packet `q`
      begins. */
  predicate Before(w: Width, num: int, lengths: seq<uint32>, p: uint32, q: uint32)
    requires num <= INT_MAX && num <= |lengths| && p < num && q < num
  {
    var at, at' := Summing(w, num, lengths, p), Summing(w, num, lengths, q);
    at.At? && at'.At? && at.offset + lengths[p] <= at'.offset
  }

  /** The next region begins just where that of packet `p` ends. */
  predicate Touches(w: Width, num: int, lengths: seq<uint32>, p: uint32)
    requires num <= INT_MAX && num <= |lengths| && p + 1 < num
  {
    var at := Summing(w, num, lengths, p);
    at.At? && Summing(w, num, lengths, p + 1) == At(at.offset + lengths[p])
  }

  /** The packets of a transfer lie in order and apart. */
  ghost predicate RegionsInOrder(w: Width, num: int, lengths: seq<uint32>)
    requires num <= INT_MAX && num <= |lengths|
  {
    forall p: uint32, q: uint32 :: p < q < num ==> Before(w, num, lengths, p, q)
  }

  /** The first packet is at the beginning, and every other where the one before it ends. */
  ghost predicate RegionsTouch(w: Width, num: int, lengths: seq<uint32>)
    requires num <= INT_MAX && num <= |lengths|
  {
    && (num > 0 ==> Summing(w, num, lengths, 0) == At(0))
    && forall p: uint32 :: p + 1 < num ==> Touches(w, num, lengths, p)
  }

  lemma NotWrapped(w: Width, lengths: seq<uint32>, p: nat, q: nat)
    requires p <= q <= |lengths| && Offset(lengths, q) < w.Modulus()
    ensures Wrapped(w, lengths, p) == Offset(lengths, p)
  {
    OffsetGrows(lengths, p, q);
    WrapsExactly(w, lengths, p);
  }

  lemma BeforeUnlessWrapping(w: Width, num: int, lengths: seq<uint32>, p: uint32, q: uint32)
    requires num <= INT_MAX && p < q < num <= |lengths| && Offset(lengths, q) < w.Modulus()
    ensures Before(w, num, lengths, p, q)
    ensures q == p + 1 ==> Touches(w, num, lengths, p)
  {
    NotWrapped(w, lengths, p, q);
    NotWrapped(w, lengths, q, q);
    OffsetGrows(lengths, p, q);
  }

  lemma InOrderUnlessWrapping(w: Width, num: int, lengths: seq<uint32>)
    requires 0 < num <= INT_MAX && num <= |lengths| && Offset(lengths, num - 1) < w.Modulus()
    ensures RegionsInOrder(w, num, lengths) && RegionsTouch(w, num, lengths)
  {
    forall p: uint32, q: uint32 | p < q < num
      ensures Before(w, num, lengths, p, q)
    {
      OffsetGrows(lengths, q, num - 1);
      BeforeUnlessWrapping(w, num, lengths, p, q);
    }
    forall p: uint32 | p + 1 < num
      ensures Touches(w, num, lengths, p)
    {
      OffsetGrows(lengths, p + 1, num - 1);
      BeforeUnlessWrapping(w, num, lengths, p, p + 1);
    }
  }

  /** The packets are in order, and then follow each other without a gap, exactly when the
      last of them begins below the modulus. */
  lemma RegionsInOrderExactly(w: Width, num: int, lengths: seq<uint32>)
    requires 0 < num <= INT_MAX && num <= |lengths|
    ensures RegionsInOrder(w, num, lengths) <==> Offset(lengths, num - 1) < w.Modulus()
    ensures RegionsInOrder(w, num, lengths) ==> RegionsTouch(w, num, lengths)
  {
    if RegionsInOrder(w, num, lengths) {
      OrderForbidsWrapping(w, num, lengths, num - 1);
    }
    if Offset(lengths, num - 1) < w.Modulus() {
      InOrderUnlessWrapping(w, num, lengths);
    }
  }

  lemma {:induction false} OrderForbidsWrapping(w: Width, num: int, lengths: seq<uint32>, p: uint32)
    requires p < num <= INT_MAX && num <= |lengths| && RegionsInOrder(w, num, lengths)
    ensures Wrapped(w, lengths, p) == Offset(lengths, p) < w.Modulus()
  {
    if p > 0 {
      OrderForbidsWrapping(w, num, lengths, p - 1);
      assert Before(w, num, lengths, p - 1, p);
      WrapsExactly(w, lengths, p);
    }
  }

  /** In 64 bits the packets of every transfer are in order. */
  lemma RegionsInOrderIn64(num: int, lengths: seq<uint32>)
    requires num <= INT_MAX && num <= |lengths|
    ensures RegionsInOrder(Bits64, num, lengths) && RegionsTouch(Bits64, num, lengths)
  {
    if num > 0 {
      OffsetBound(lengths, num - 1);
      RegionsInOrderExactly(Bits64, num, lengths);
    }
  }

  /** In 32 bits they need not be: here the third packet lies on top of the first. */
  lemma RegionsCanOverlapIn32(lengths: seq<uint32>)
    requires |lengths| == 3 && lengths[0] == lengths[1] == 0x8000_0000
    ensures Summing(Bits32, 3, lengths, 0) == At(0) && Summing(Bits32, 3, lengths, 2) == At(0)
    ensures !RegionsInOrder(Bits32, 3, lengths)
  {
    assert Offset(lengths, 0) == 0 && Wrapped(Bits32, lengths, 0) == 0;
    assert Offset(lengths, 1) == 0x8000_0000 && Wrapped(Bits32, lengths, 1) == 0x8000_0000;
    assert Offset(lengths, 2) == 0x1_0000_0000 && Wrapped(Bits32, lengths, 2) == 0;
    RegionsInOrderExactly(Bits32, 3, lengths);
  }

  lemma {:induction false} UniformOffset(lengths: seq<uint32>, length: uint32, p: nat)
    requires p <= |lengths| && forall i :: 0 <= i < p ==> lengths[i] == length
    ensures Offset(lengths, p) == length * p
  {
    if p > 0 {
      UniformOffset(lengths, length, p - 1);
      assert length * p == length * (p - 1) + length;
    }
  }

  /** The conversion to int: the one value in range that differs by a multiple of 2^32. */
  lemma ToIntIsCongruent(x: uint32)
    ensures FitsInt(ToInt(x)) && (ToInt(x) == x || ToInt(x) == x - 0x1_0000_0000)
  {
  }

  lemma NegativeProduct(x: int, k: nat)
    requires x < 0 && k > 0
    ensures x * k < 0
  {
  }

  lemma ProductAtLeast(x: nat, k: nat)
    ensures x * k >= 0
    ensures k > 0 ==> x * k >= x
  {
    if k > 0 {
      assert x * k == x * (k - 1) + x;
      MulNonNegative(k - 1, x);
    }
  }

  /** The signed product: that of the lengths themselves, or one that is negative. */
  lemma SignedProduct(length: uint32, packet: uint32)
    ensures length * packet >= 0
    ensures length <= INT_MAX || packet == 0 ==> ToInt(length) * packet == length * packet
    ensures length > INT_MAX && packet > 0 ==> ToInt(length) * packet < 0 && length * packet > INT_MAX
    ensures ToInt(length) * packet == length * packet
         || ToInt(length) * packet == length * packet - 0x1_0000_0000 * packet
  {
    ProductAtLeast(length, packet);
    if length > INT_MAX && packet > 0 {
      NegativeProduct(ToInt(length), packet);
    }
  }

  /** With all lengths equal the two lookups agree, on a position or on NULL, exactly when
      the product fits a signed int, whatever the width of size_t. */
  lemma LookupsAgreeExactly(w: Width, num: int, lengths: seq<uint32>, length: uint32, packet: uint32)
    requires num <= INT_MAX && num <= |lengths|
    requires forall i :: 0 <= i < num ==> lengths[i] == length
    ensures Summing(w, num, lengths, packet) == Multiplying(num, lengths, packet)
       <==> packet >= num || length * packet <= INT_MAX
  {
    if packet < num {
      UniformOffset(lengths, length, packet);
      SignedProduct(length, packet);
      WrapsExactly(w, lengths, packet);
    }
  }

  /** Where the two pointers are, on a platform whose addresses wrap at the same width. */
  predicate SameAddress(w: Width, p: Position, q: Position) {
    match (p, q)
    case (Null, Null) => true
    case (At(a), At(b)) => AddressOf(w, a) == AddressOf(w, b)
    case _ => false
  }

  function AddressOf(w: Width, offset: int): nat {
    match w
    case Bits32 => offset % 0x1_0000_0000
    case Bits64 => offset % 0x1_0000_0000_0000_0000
  }

  lemma SameModulo32(x: int, k: int)
    ensures (x - 0x1_0000_0000 * k) % 0x1_0000_0000 == x % 0x1_0000_0000
  {
  }

  lemma SameModulo64(x: nat, y: int)
    requires x < 0x1_0000_0000_0000_0000 - 0x8000_0000 && FitsInt(y)
    ensures y % 0x1_0000_0000_0000_0000 == x <==> y == x
  {
  }

  lemma ProductBelow(length: uint32, packet: uint32)
    requires packet <= INT_MAX
    ensures length * packet < 0x1_0000_0000_0000_0000 - 0x8000_0000
  {
    ProductAtMost(length, packet, 0x7FFF_FFFF);
  }

  lemma ProductAtMost(length: uint32, packet: nat, bound: nat)
    requires packet <= bound
    ensures length * packet <= length * bound
  {
    MulNonNegative(bound - packet, length);
    assert length * bound == length * packet + length * (bound - packet);
  }

  /** In 32 bits the lookups give one address exactly when the product of the ints, negative
      ones included, is defined. */
  lemma AddressesAgreeIn32(num: int, lengths: seq<uint32>, length: uint32, packet: uint32)
    requires num <= INT_MAX && num <= |lengths|
    requires forall i :: 0 <= i < num ==> lengths[i] == length
    ensures SameAddress(Bits32, Summing(Bits32, num, lengths, packet), Multiplying(num, lengths, packet))
       <==> packet >= num || FitsInt(ToInt(length) * packet)
  {
    if packet < num {
      UniformOffset(lengths, length, packet);
      SignedProduct(length, packet);
      SameModulo32(length * packet, packet);
      WrappedIsModulo(Bits32, lengths, packet);
    }
  }

  /** In 64 bits they do so exactly when they agree as positions. */
  lemma AddressesAgreeIn64(num: int, lengths: seq<uint32>, length: uint32, packet: uint32)
    requires num <= INT_MAX && num <= |lengths|
    requires forall i :: 0 <= i < num ==> lengths[i] == length
    ensures SameAddress(Bits64, Summing(Bits64, num, lengths, packet), Multiplying(num, lengths, packet))
       <==> packet >= num || length * packet <= INT_MAX
  {
    if packet < num {
      UniformOffset(lengths, length, packet);
      SignedProduct(length, packet);
      ProductBelow(length, packet);
      NeverWrapsIn64(lengths, packet);
      if FitsInt(ToInt(length) * packet) {
        SameModulo64(length * packet, ToInt(length) * packet);
      }
    }
  }

  // ---------- Control transfers ----------

  datatype Host = LittleHost | BigHost

  type uint16 = x: int | 0 <= x < 0x1_0000

  /** The two bytes a host keeps a uint16_t in, and the reverse. */
  function Store16(host: Host, x: uint16): (s: seq<byte>)
    ensures |s| == 2
  {
    if host.LittleHost? then [x % 256, x / 256] else [x / 256, x % 256]
  }

  function Load16(host: Host, s: seq<byte>): uint16
    requires |s| == 2
  {
    if host.LittleHost? then s[0] as int + (s[1] as int) * 256 else (s[0] as int) * 256 + s[1] as int
  }

  /** What tells the two kinds of host apart. */
  lemma HostOrders(x: uint16, s: seq<byte>)
    requires |s| == 2
    ensures LittleEndian(Store16(LittleHost, x)) == x && BigEndian(Store16(BigHost, x)) == x
    ensures Load16(LittleHost, s) == LittleEndian(s) && Load16(BigHost, s) == BigEndian(s)
  {
    LittleEndianTwo(s);
    LittleEndianTwo(Store16(LittleHost, x));
    BigEndianTwo(s);
    BigEndianTwo(Store16(BigHost, x));
  }

  lemma BigEndianTwo(s: seq<byte>)
    requires |s| == 2
    ensures BigEndian(s) == s[0] as int * 256 + s[1] as int
  {
    BigEndianPrefixes(s, 2);
    assert s[..2] == s;
  }

  /** libusb_cpu_to_le16, through its union; libusb_le16_to_cpu is the same function. */
  function CpuToLe16(host: Host, x: uint16): uint16 {
    Load16(host, [x % 256, x / 256])
  }

  lemma TwoDigits(x: uint16, lo: byte, hi: byte)
    requires x == lo + hi * 256
    ensures x % 256 == lo && x / 256 == hi
  {
  }

  lemma LittleEndianTwo(s: seq<byte>)
    requires |s| == 2
    ensures LittleEndian(s) == s[0] as int + s[1] as int * 256
  {
    assert s[1..][1..] == [];
    assert LittleEndian(s[1..]) == s[1] as int;
  }

  lemma StoredAsLoaded(host: Host, s: seq<byte>)
    requires |s| == 2
    ensures Store16(host, Load16(host, s)) == s
  {
    var x := Load16(host, s);
    if host.LittleHost? {
      TwoDigits(x, s[0], s[1]);
    } else {
      TwoDigits(x, s[1], s[0]);
    }
  }

  lemma LoadedAsLittleEndian(host: Host, s: seq<byte>)
    requires |s| == 2
    ensures CpuToLe16(host, Load16(host, s)) == LittleEndian(s)
  {
    LittleEndianTwo(s);
    var x := Load16(host, s);
    if host.LittleHost? {
      TwoDigits(x, s[0], s[1]);
      assert [x % 256, x / 256] == s;
    } else {
      TwoDigits(x, s[1], s[0]);
      assert [x % 256, x / 256] == [s[1], s[0]];
    }
  }

  /** On either kind of host the converted value lies in memory low byte first, and
      converting twice is the identity. */
  lemma Le16InMemory(host: Host, x: uint16, s: seq<byte>)
    requires |s| == 2
    ensures Store16(host, CpuToLe16(host, x)) == [x % 256, x / 256]
    ensures CpuToLe16(host, CpuToLe16(host, x)) == x
    ensures CpuToLe16(host, Load16(host, s)) == LittleEndian(s)
  {
    var digits := [x % 256, x / 256];
    StoredAsLoaded(host, digits);
    LoadedAsLittleEndian(host, digits);
    LittleEndianTwo(digits);
    LoadedAsLittleEndian(host, s);
  }

  /** The setup packet as the bus wants it, whatever the host. */
  function SetupPacket(requestType: byte, request: byte, value: uint16, index: uint16, length: uint16): (s: seq<byte>)
    ensures |s| == 8
  {
    [requestType, request, value % 256, value / 256, index % 256, index / 256, length % 256, length / 256]
  }

  lemma LowHigh(x: uint16, s: seq<byte>)
    requires s == [x % 256, x / 256]
    ensures LittleEndian(s) == x
  {
    LittleEndianTwo(s);
  }

  /** Reading the fields of a setup packet, low byte first, gives what was put in. */
  lemma SetupFields(requestType: byte, request: byte, value: uint16, index: uint16, length: uint16)
    ensures var s := SetupPacket(requestType, request, value, index, length);
      && s[0] == requestType && s[1] == request
      && LittleEndian(s[2..4]) == value && LittleEndian(s[4..6]) == index && LittleEndian(s[6..8]) == length
  {
    var s := SetupPacket(requestType, request, value, index, length);
    LowHigh(value, s[2..4]);
    LowHigh(index, s[4..6]);
    LowHigh(length, s[6..8]);
  }

  method StoreAt(host: Host, buffer: array<byte>, at: nat, x: uint16)
    requires at + 2 <= buffer.Length
    modifies buffer
    ensures buffer[at] == Store16(host, x)[0] && buffer[at + 1] == Store16(host, x)[1]
    ensures forall i :: 0 <= i < buffer.Length && i != at && i != at + 1 ==> buffer[i] == old(buffer[i])
  {
    buffer[at], buffer[at + 1] := Store16(host, x)[0], Store16(host, x)[1];
  }

  /** libusb_fill_control_setup. */
  method FillControlSetup(host: Host, buffer: array<byte>, requestType: byte, request: byte,
                          value: uint16, index: uint16, length: uint16)
    requires buffer.Length >= 8
    modifies buffer
    ensures buffer[..8] == SetupPacket(requestType, request, value, index, length)
    ensures buffer[0] == requestType && buffer[1] == request
    ensures LittleEndian(buffer[2..4]) == value && LittleEndian(buffer[4..6]) == index
    ensures LittleEndian(buffer[6..8]) == length
    ensures buffer[8..] == old(buffer[8..])
  {
    Le16InMemory(host, value, [0, 0]);
    Le16InMemory(host, index, [0, 0]);
    Le16InMemory(host, length, [0, 0]);
    buffer[0] := requestType;
    buffer[1] := request;
    StoreAt(host, buffer, 2, CpuToLe16(host, value));
    StoreAt(host, buffer, 4, CpuToLe16(host, index));
    StoreAt(host, buffer, 6, CpuToLe16(host, length));
    SetupFields(requestType, request, value, index, length);
    assert buffer[2..4] == buffer[..8][2..4] && buffer[4..6] == buffer[..8][4..6] && buffer[6..8] == buffer[..8][6..8];
  }

  /** A device handle, a callback or a caller's datum: something only passed on. */
  type Handle = nat

  class ControlTransfer {
    var devHandle: Handle
    var endpoint: byte
    var kind: nat
    var timeout: uint32
    var buffer: array?<byte>
    var length: int
    var userData: Handle
    var callback: Handle

    constructor ()
    {
      devHandle, userData, callback := 0, 0, 0;
      endpoint, kind, timeout, buffer, length := 0, 0, 0, null, 0;
    }

    /** libusb_fill_control_transfer: the length comes from the setup packet, if any. */
    method FillControlTransfer(host: Host, devHandle: Handle, buffer: array?<byte>,
                               callback: Handle, userData: Handle, timeout: uint32)
      requires buffer != null ==> buffer.Length >= 8
      modifies this
      ensures this.devHandle == devHandle && this.callback == callback && this.userData == userData
      ensures this.buffer == buffer && endpoint == 0 && kind == 0 && this.timeout == timeout
      ensures length == if buffer == null then old(length) else 8 + LittleEndian(buffer[6..8])
    {
      this.devHandle := devHandle;
      endpoint := 0;
      kind := 0;
      this.timeout := timeout;
      this.buffer := buffer;
      if buffer != null {
        Le16InMemory(host, 0, buffer[6..8]);
        length := 8 + CpuToLe16(host, Load16(host, buffer[6..8]));
      }
      this.userData := userData;
      this.callback := callback;
    }
  }
}
