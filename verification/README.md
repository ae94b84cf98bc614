# Proofs about an Android bridge to iOS devices

The repository lets an Android phone talk to an iOS device: a service tracks USB devices and
their permissions, every command to a device is a session that starts a usbmux daemon in the
same process, and the daemon and the libraries below it move and protect the bytes. Most of it
is plumbing. This project models the parts that decide something and proves what they promise.

| module | what it models |
|---|---|
| HashSpec, HashCollector | the streaming digest collector: buffering, the two-word bit counter, padding |
| IntrusiveList, ListNeighbours, Timespecs | the circular doubly linked list and its walks, on the heap, and what the operations leave alone; time arithmetic |
| PacketCodec, Packet | the PACKET byte reader and its length-prefixed vectors |
| CipherModes, BitFeedback, ModeEquations, CipherDrivers | the chunked ECB, CBC, CFB and OFB drivers over an abstract block cipher |
| ConstantTimeWords, ConstantTimeBuffers | branch-free comparison, selection, swapping and lookup |
| SessionProtocol, SessionOrder, SessionProgress | sessions, the mutex, the daemon threads, the published state and the stop flag, interleaved in any way; the order of their steps, how soon they end and when they are stuck |
| DaemonLoop | the main loop of the daemon, its dispatch pass and its timeout |
| DeviceCache | the list of known devices and their permissions |
| UsbTransfer | isochronous packet positions and control transfer layout |
| PlistReader | pairing keys with strings in a property list |
| Bytes, Division, Sequences, Wrappers | byte order encodings, facts about division and sequences, Option |

`dafny verify dfyconfig.toml` checks all of it.

## How to read the model

- Code that updates state is a class or a method over arrays, with the loops and branches of the
  source; what it computes is tied to a function, and the theorems are about that function.
- The compression function, the block cipher and the answers of the outside world are
  parameters, so every result holds for all of them.
- Words are modelled with their width: sums are reduced modulo 2^32 or 2^64 where the C code
  wraps, and the constant-time expressions are on bit vectors. Bytes that C shifts and ors
  together are added; `Bytes.ShiftOrIsSum` says why that is the same.
- The libraries are built for 32-bit and 64-bit platforms. Where size_t matters its width is a
  parameter, and what holds for one width only says so.
- The repository has no body of a cipher mode. The modes are modelled by their definitions in NIST
  SP 800-38A, a byte at a time, and lemmas that are about no line of the source say what every
  byte or block of their output is: `CipherModes.OfbIsStandard` and `CfbIsStandard`, and
  `ModeEquations.Cfb8IsStandard`, `Cfb1IsStandard`, `CbcIsStandard` and `EcbIsStandard` (sections
  6.1 to 6.4). The round trips are `CipherModes.RunRoundTrip`, `CbcRoundTrip`,
  `BitFeedback.RunBitsRoundTrip` and `ModeEquations.EcbRoundTrip`.
- A session protocol run is any sequence of enabled atomic steps. The sessions end normally.

## Where the code does less than one might expect

- `list_splice_front` with an empty source destroys the destination list. The contract says so
  in both directions.
- `PACKET_get_sub_packet` with the packet itself as sub-packet yields the empty packet behind
  the bytes, unlike the length-prefixed reads, where the sub-packet wins.
- A stop that is written before `loop_main` resets the flag is lost for good; it works exactly
  when the reset came first. The code relies on a delay of 300 ms after Started.
- `waitForStart` looks for Started in a state that keeps only its latest value. A daemon whose
  dispatch pass fails, and which has terminated before its caller looks, leaves the caller, and
  with it the mutex, stuck. This is the only deadlock, and a run that ends in it is given.
- A broadcast that names no device counts as an answer for the device with id 0; an arrival or
  departure counts as its denial.
- The multiplying isochronous lookup multiplies signed ints; beyond that range it is undefined
  or wrong, and agrees with the summing one exactly within it. The summing lookup itself wraps
  where size_t has 32 bits, and packets then overlap.
- A negative timeout gives a timespec that ppoll refuses.
- A key without text is a null dereference.

## Model

| member | source | states |
|---|---|---|
| `HashCollector.HashCtx.Update` | libimobiledevice/src/main/cpp/external/libssl/include/crypto/md32_common.h:150-206 | For any input length a size_t can hold, of either width: the context becomes exactly what absorbing the input into the abstract stream gives (chaining value = fold over all complete blocks of pending + input, buffer = the leftover bytes, counter + 8 times the length modulo 2^64), fewer than a block stays pending and the buffer is zero behind it |
| `HashCollector.HashCtx.FillPending` | libimobiledevice/src/main/cpp/external/libssl/include/crypto/md32_common.h:167-190 | With bytes pending, the input either joins them (exactly when they still make less than a block) or completes their block, which is compressed and cleared, and what is handed on is the rest of pending + input |
| `HashCollector.HashCtx.TakeBlocks` | libimobiledevice/src/main/cpp/external/libssl/include/crypto/md32_common.h:192-204 | On a block boundary, all complete blocks are compressed in one go and exactly the tail is kept |
| `HashCollector.HashCtx.AddLength` | libimobiledevice/src/main/cpp/external/libssl/include/crypto/md32_common.h:160-165 | The two 32-bit counter words, read as one number, grow by 8 times the length modulo 2^64 |
| `HashCollector.CounterStep` | libimobiledevice/src/main/cpp/external/libssl/include/crypto/md32_common.h:160-165 | The wrap test, the carry and the `len >> 29` term together are addition of 8·len modulo 2^64, for every counter and every 64-bit length |
| `HashCollector.HashCtx.MarkEnd` | libimobiledevice/src/main/cpp/external/libssl/include/crypto/md32_common.h:213-226 | The 0x80 mark and the zeros go behind the pending bytes; when the length field no longer fits, that block is compressed and a zero block begun |
| `HashCollector.HashCtx.WriteLength` | libimobiledevice/src/main/cpp/external/libssl/include/crypto/md32_common.h:228-236 | The last eight bytes become the 64-bit bit count in the byte order of the hash, and no other byte changes |
| `HashCollector.HashCtx.Final` | libimobiledevice/src/main/cpp/external/libssl/include/crypto/md32_common.h:213-248 | After any history the chaining value is the one of the padded stream (`Finish`), `num` is 0 and the whole buffer is zero |
| `HashCollector.Digest` | libimobiledevice/src/main/cpp/external/libssl/include/crypto/md32_common.h:150-248 | A fresh context, fed any pieces by updates and then finished, holds the hash of the message they make up, for either width of size_t |
| `HashCollector.HashCtx.HostRoundTrip` | libimobiledevice/src/main/cpp/external/libssl/include/crypto/md32_common.h:120-144 | HOST_c2l undoes HOST_l2c and the reverse, in both byte orders |
| `HashCollector.HashCtx.LengthWords` | libimobiledevice/src/main/cpp/external/libssl/include/crypto/md32_common.h:228-236 | The two words written in the order of the hash are the 8-byte length field of the standards |
| `HashSpec.AnySplitAgrees` | libimobiledevice/src/main/cpp/external/libssl/include/crypto/md32_common.h:150-206 | Every way of cutting a message into pieces, empty ones included, leaves the state that one call on the whole message leaves |
| `HashSpec.SplitsAgree` | libimobiledevice/src/main/cpp/external/libssl/include/crypto/md32_common.h:150-206 | Two cuttings of the same message cannot be told apart |
| `HashSpec.FoldExtend` | libimobiledevice/src/main/cpp/external/libssl/include/crypto/md32_common.h:167-204 | Folding a longer message is folding its tail and the extension from where the shorter one stopped; so only the tail needs buffering |
| `HashSpec.FoldLast` | libimobiledevice/src/main/cpp/external/libssl/include/crypto/md32_common.h:192-198 | Folding whole blocks ends by compressing the last of them into the value of those before |
| `HashSpec.TailClosedForm` | libimobiledevice/src/main/cpp/external/libssl/include/crypto/md32_common.h:192-204 | The bytes kept are the last len mod block of the message, and whole blocks are len div block times the block size |
| `HashSpec.StreamingComputesHash` | libimobiledevice/src/main/cpp/external/libssl/include/crypto/md32_common.h:150-248 | Any pieces and then finishing give the hash of the whole message: fold over message, 0x80, zeros and length (section 5.1.1 of FIPS 180-4, sections 3.1 and 3.2 of RFC 1321) |
| `HashSpec.FinishInBlocks` | libimobiledevice/src/main/cpp/external/libssl/include/crypto/md32_common.h:213-248 | Finishing compresses exactly one block, or two when fewer than nine bytes are free, and these are their contents |
| `HashSpec.ZeroCountIsLeast` | libimobiledevice/src/main/cpp/external/libssl/include/crypto/md32_common.h:215-226 | The zeros written fill the block, and no smaller number of them would |
| `HashSpec.PadIsWholeBlocks` | libimobiledevice/src/main/cpp/external/libssl/include/crypto/md32_common.h:215-237 | A padded message is whole blocks: those of the message and one more, or two |
| `HashSpec.PadInjective` | libimobiledevice/src/main/cpp/external/libssl/include/crypto/md32_common.h:218-237 | Two messages that pad to the same blocks are the same message, with no bound on their lengths |
| `HashSpec.MarkPosition` | libimobiledevice/src/main/cpp/external/libssl/include/crypto/md32_common.h:218-237 | A padded message is the message, 0x80, zeros and the eight bytes of its bit length |
| `HashSpec.LengthFieldReads` | libimobiledevice/src/main/cpp/external/libssl/include/crypto/md32_common.h:228-236 | Those eight bytes, read in the order of the hash, are the bit count |
| `HashSpec.HashCollisionNeedsCompressionCollision` | libimobiledevice/src/main/cpp/external/libssl/include/crypto/md32_common.h:160-237 | Two different messages with one hash yield two different inputs on which the compression function agrees, unless their lengths differ by a multiple of 2^61 bytes, where the bit counter wraps |
| `Bytes.ShiftOrIsSum` | libimobiledevice/src/main/cpp/external/libssl/include/crypto/md32_common.h:122-127 | Or-ing bytes shifted into disjoint positions is adding them, which is how the other members write it |
| `Bytes.ShiftOrIsSum64` | libimobiledevice/src/main/cpp/external/libssl/include/internal/packet.h:235-251 | The same for the eight bytes of a 64-bit read |
| `Bytes.BigEndianRoundTrip` | libimobiledevice/src/main/cpp/external/libssl/include/internal/packet.h:136-146 | Reading k big-endian bytes of a number below 256^k gives the number |
| `Bytes.ToBigEndianRoundTrip` | libimobiledevice/src/main/cpp/external/libssl/include/internal/packet.h:136-146 | Every byte string is the big-endian writing of the number it reads as |
| `Bytes.LittleEndianRoundTrip` | libimobiledevice/src/main/cpp/external/libssl/include/internal/packet.h:327-339 | Reading k little-endian bytes of a number below 256^k gives the number |
| `Bytes.FirstByteWeighsMost` | libimobiledevice/src/main/cpp/external/libssl/include/internal/packet.h:136-146 | In network order the first byte weighs most |
| `Bytes.LastByteWeighsMost` | libimobiledevice/src/main/cpp/external/libssl/include/internal/packet.h:327-339 | In reverse network order the last one does |
| `IntrusiveList.RingUnique` | libimobiledevice/src/main/cpp/external/libusb/include/libusbi.h:150-152 | The links alone determine which entries are on a list and in which order |
| `IntrusiveList.EmptyTest` | libimobiledevice/src/main/cpp/external/libusb/include/libusbi.h:194-194 | `next` points back at the head exactly for the list without entries |
| `IntrusiveList.ListInit` | libimobiledevice/src/main/cpp/external/libusb/include/libusbi.h:196-199 | The entry heads a well-formed ring without entries |
| `IntrusiveList.ListAdd` | libimobiledevice/src/main/cpp/external/libusb/include/libusbi.h:201-208 | The ring becomes the entry followed by the old entries, whatever the entry pointed at before; only the entry, the head and its first neighbour are touched |
| `IntrusiveList.ListAddTail` | libimobiledevice/src/main/cpp/external/libusb/include/libusbi.h:210-218 | The ring becomes the old entries followed by the entry; only the entry, the head and its last neighbour are touched |
| `IntrusiveList.ListDel` | libimobiledevice/src/main/cpp/external/libusb/include/libusbi.h:220-225 | Exactly that entry leaves the ring, the others keep their order, its links become null; only it and its neighbours are touched |
| `IntrusiveList.ListCut` | libimobiledevice/src/main/cpp/external/libusb/include/libusbi.h:227-240 | All entries move to the other head in order, whatever it pointed at, and the source becomes an empty ring |
| `IntrusiveList.ListSpliceFront` | libimobiledevice/src/main/cpp/external/libusb/include/libusbi.h:242-248 | A non-empty source is put in front of the destination; afterwards the destination heads a well-formed ring if and only if the source was not empty |
| `IntrusiveList.SelfLoopBreaksRing` | libimobiledevice/src/main/cpp/external/libusb/include/libusbi.h:242-248 | What an empty source leaves behind is no ring of any entries |
| `IntrusiveList.ForEachEntry` | libimobiledevice/src/main/cpp/external/libusb/include/libusbi.h:174-177 | The walk ends and visits every entry once, in order |
| `IntrusiveList.ForEachEntrySafe` | libimobiledevice/src/main/cpp/external/libusb/include/libusbi.h:179-183 | With a body that may delete the entry at hand, the walk ends, visits every original entry once and in order, leaves exactly the undeleted ones on the ring in their order, and the deleted ones unlinked |
| `IntrusiveList.KeptMembers` | libimobiledevice/src/main/cpp/external/libusb/include/libusbi.h:179-183 | An entry is among those left exactly if it was there and was not deleted |
| `ListNeighbours.LinksStayOnRing` | libimobiledevice/src/main/cpp/external/libusb/include/libusbi.h:150-152 | The links of a well-formed ring never lead out of it |
| `ListNeighbours.AddBesides` | libimobiledevice/src/main/cpp/external/libusb/include/libusbi.h:201-208 | A ring that shares no node with the list and the entry is the same ring afterwards |
| `ListNeighbours.AddTailBesides` | libimobiledevice/src/main/cpp/external/libusb/include/libusbi.h:210-218 | The same for adding at the tail |
| `ListNeighbours.DelBesides` | libimobiledevice/src/main/cpp/external/libusb/include/libusbi.h:220-225 | The same for deleting |
| `ListNeighbours.CutBesides` | libimobiledevice/src/main/cpp/external/libusb/include/libusbi.h:227-240 | The same for cutting |
| `ListNeighbours.SpliceFrontBesides` | libimobiledevice/src/main/cpp/external/libusb/include/libusbi.h:242-248 | The same for splicing, also when the source is empty |
| `Timespecs.CmpComparesInstants` | libimobiledevice/src/main/cpp/external/libusb/include/libusbi.h:273-276 | On normal times TIMESPEC_CMP with any operator compares the instants they stand for |
| `Timespecs.TimespecSub` | libimobiledevice/src/main/cpp/external/libusb/include/libusbi.h:277-285 | The result is the borrowing difference of the operands as they were, also when it is one of them |
| `Timespecs.DifferenceIsExact` | libimobiledevice/src/main/cpp/external/libusb/include/libusbi.h:277-285 | Of normal times that difference is normal, exactly the difference of the instants, and negative exactly when TIMESPEC_CMP finds the first earlier |
| `PacketCodec.DecodeAllInverts` | libimobiledevice/src/main/cpp/external/libssl/include/internal/packet.h:514-628 | Reading vectors until nothing remains yields a list exactly when the bytes are that list encoded and every element fits its length field: the round trip in both directions, for every width of the length |
| `PacketCodec.DecodeVecInverts` | libimobiledevice/src/main/cpp/external/libssl/include/internal/packet.h:514-530 | One vector is read, leaving a rest, exactly when the bytes are its encoding followed by that rest |
| `PacketCodec.OneVector` | libimobiledevice/src/main/cpp/external/libssl/include/internal/packet.h:536-553 | A byte string is one vector and nothing else exactly when decoding one leaves nothing over |
| `PacketCodec.RunConserves` | libimobiledevice/src/main/cpp/external/libssl/include/internal/packet.h:30-53 | Over any sequence of reads, failing ones included, the end of the packet never moves and the bytes consumed followed by those remaining are the original packet |
| `Packet.Packet.BufInit` | libimobiledevice/src/main/cpp/external/libssl/include/internal/packet.h:69-80 | Fails exactly for lengths above SIZE_MAX/2, however little memory there is, and then changes nothing; SIZE_MAX is that of a 32-bit or a 64-bit size_t |
| `Packet.Packet.Forward` | libimobiledevice/src/main/cpp/external/libssl/include/internal/packet.h:497-505 | Skips exactly the given bytes if there are that many, else changes nothing |
| `Packet.Packet.PeekSubPacket` | libimobiledevice/src/main/cpp/external/libssl/include/internal/packet.h:107-114 | The sub-packet is the next bytes; on failure both packets are unchanged |
| `Packet.Packet.GetSubPacket` | libimobiledevice/src/main/cpp/external/libssl/include/internal/packet.h:121-130 | As peeking, and the packet moves behind it; with both the same packet the result is instead the empty packet behind the bytes |
| `Packet.Packet.GetNet2` | libimobiledevice/src/main/cpp/external/libssl/include/internal/packet.h:150-158 | The big-endian value of two bytes, which are consumed, or a failure that changes nothing |
| `Packet.Packet.GetNet3` | libimobiledevice/src/main/cpp/external/libssl/include/internal/packet.h:191-199 | The same for three bytes |
| `Packet.Packet.GetNet4` | libimobiledevice/src/main/cpp/external/libssl/include/internal/packet.h:255-263 | The same for four bytes |
| `Packet.Packet.GetNet8` | libimobiledevice/src/main/cpp/external/libssl/include/internal/packet.h:278-286 | The same for eight bytes |
| `Packet.Packet.Get1` | libimobiledevice/src/main/cpp/external/libssl/include/internal/packet.h:301-309 | The same for one byte |
| `Packet.Packet.Get4` | libimobiledevice/src/main/cpp/external/libssl/include/internal/packet.h:346-354 | The little-endian value of four bytes, which are consumed, or a failure that changes nothing |
| `Packet.Packet.PeekNet2` | libimobiledevice/src/main/cpp/external/libssl/include/internal/packet.h:136-146 | The big-endian value of the next two bytes, if there are two |
| `Packet.Packet.PeekNet3` | libimobiledevice/src/main/cpp/external/libssl/include/internal/packet.h:176-187 | The same for three bytes |
| `Packet.Packet.PeekNet4` | libimobiledevice/src/main/cpp/external/libssl/include/internal/packet.h:217-229 | The same for four bytes |
| `Packet.Packet.PeekNet8` | libimobiledevice/src/main/cpp/external/libssl/include/internal/packet.h:235-251 | The same for eight bytes |
| `Packet.Packet.Peek4` | libimobiledevice/src/main/cpp/external/libssl/include/internal/packet.h:327-339 | The little-endian value of the next four bytes, if there are four |
| `Packet.Packet.GetBytes` | libimobiledevice/src/main/cpp/external/libssl/include/internal/packet.h:380-390 | The position of the next bytes, which are consumed, or a failure that changes nothing |
| `Packet.Packet.GetLengthPrefixed1` | libimobiledevice/src/main/cpp/external/libssl/include/internal/packet.h:514-530 | All or nothing: on failure neither packet changes; else the sub-packet is the body, inside the same memory, and the packet what follows it. With both the same packet the body wins |
| `Packet.Packet.GetLengthPrefixed2` | libimobiledevice/src/main/cpp/external/libssl/include/internal/packet.h:562-579 | The same with a two-byte length |
| `Packet.Packet.GetLengthPrefixed3` | libimobiledevice/src/main/cpp/external/libssl/include/internal/packet.h:612-628 | The same with a three-byte length |
| `Packet.Packet.AsLengthPrefixed1` | libimobiledevice/src/main/cpp/external/libssl/include/internal/packet.h:536-553 | Succeeds exactly when the packet is one vector and nothing else; then the sub-packet is its body, where it lies in the same memory, else neither changes |
| `Packet.Packet.AsLengthPrefixed2` | libimobiledevice/src/main/cpp/external/libssl/include/internal/packet.h:585-603 | The same with a two-byte length |
| `Packet.ReadVectors` | libimobiledevice/src/main/cpp/external/libssl/include/internal/packet.h:514-628 | Repeating the read until nothing remains succeeds exactly when the packet is a list of vectors, and then yields their bodies in order, for lengths of one, two and three bytes |
| `CipherDrivers.OfbDriver` | libimobiledevice/src/main/cpp/external/libssl/include/crypto/evp.h:370-387 | The OFB driver of any block cipher, for every length: output, register and position are those of one unchunked run of the mode, and no byte behind the input is written, also in place |
| `CipherDrivers.CbcDriver` | libimobiledevice/src/main/cpp/external/libssl/include/crypto/evp.h:389-402 | The same for CBC on whole blocks of a size that divides the chunk |
| `CipherDrivers.CfbDriver` | libimobiledevice/src/main/cpp/external/libssl/include/crypto/evp.h:404-426 | The same for CFB with full-block, eight-bit and one-bit segments |
| `CipherDrivers.EcbDriver` | libimobiledevice/src/main/cpp/external/libssl/include/crypto/evp.h:353-366 | The same for ECB over the whole blocks of the input; a trailing partial block is left alone |
| `CipherDrivers.CipherCtx.OfbCipher` | libimobiledevice/src/main/cpp/external/libssl/include/crypto/evp.h:370-387 | The loop itself, for any routine that may be interrupted after any byte: the result is that of one unchunked call |
| `CipherDrivers.CipherCtx.CbcCipher` | libimobiledevice/src/main/cpp/external/libssl/include/crypto/evp.h:389-402 | The loop, for any routine that may be interrupted between its blocks |
| `CipherDrivers.CipherCtx.CfbCipher` | libimobiledevice/src/main/cpp/external/libssl/include/crypto/evp.h:404-426 | The loop, for any routine, the one whose length counts bits included: there the chunk is an eighth and the length argument eight times the chunk |
| `CipherDrivers.CipherCtx.EcbCipher` | libimobiledevice/src/main/cpp/external/libssl/include/crypto/evp.h:353-366 | The loop over the whole blocks of the input |
| `CipherDrivers.CipherCtx.Call` | libimobiledevice/src/main/cpp/external/libssl/include/crypto/evp.h:370-426 | Every call has a length argument, counted in bytes or in bits as the routine does, that is positive and at most 2^30; it alone decides how many bytes are processed |
| `CipherDrivers.OfbRoutineComposes` | libimobiledevice/src/main/cpp/external/libssl/include/crypto/evp.h:370-387 | OFB may be interrupted after any byte |
| `CipherDrivers.CfbRoutineComposes` | libimobiledevice/src/main/cpp/external/libssl/include/crypto/evp.h:404-426 | So may CFB with full-block, eight-bit and one-bit segments |
| `CipherDrivers.CbcRoutineComposes` | libimobiledevice/src/main/cpp/external/libssl/include/crypto/evp.h:389-402 | CBC may be interrupted after any whole number of blocks |
| `CipherDrivers.EcbRoutineComposes` | libimobiledevice/src/main/cpp/external/libssl/include/crypto/evp.h:353-366 | So may ECB |
| `CipherDrivers.WholeBlocksFound` | libimobiledevice/src/main/cpp/external/libssl/include/crypto/evp.h:353-366 | Where the ECB loop stops is the greatest multiple of the block size that fits the input |
| `CipherModes.RunAppend` | libimobiledevice/src/main/cpp/external/libssl/include/crypto/evp.h:370-426 | Going on from the register and position left behind, even inside a block, is the same as not stopping |
| `CipherModes.CbcAppend` | libimobiledevice/src/main/cpp/external/libssl/include/crypto/evp.h:389-402 | CBC cut at a block boundary and continued from its register is CBC of the whole |
| `CipherModes.AlignedIsMultiple` | libimobiledevice/src/main/cpp/external/libssl/include/crypto/evp.h:389-402 | Being made of whole blocks is divisibility by the block size |
| `BitFeedback.RunBitsAppend` | libimobiledevice/src/main/cpp/external/libssl/include/crypto/evp.h:404-426 | One-bit CFB over bytes may be interrupted after any byte |
| `ConstantTimeWords.Lt32Correct` | libimobiledevice/src/main/cpp/external/libssl/include/internal/constant_time.h:121-126 | All ones exactly when a < b as unsigned numbers, else 0, for all 2^64 pairs |
| `ConstantTimeWords.Ge32Correct` | libimobiledevice/src/main/cpp/external/libssl/include/internal/constant_time.h:143-147 | All ones exactly when a >= b, else 0 |
| `ConstantTimeWords.IsZero32Correct` | libimobiledevice/src/main/cpp/external/libssl/include/internal/constant_time.h:175-178 | All ones exactly for 0, else 0 |
| `ConstantTimeWords.Eq32Correct` | libimobiledevice/src/main/cpp/external/libssl/include/internal/constant_time.h:190-194 | All ones exactly when a == b, else 0 |
| `ConstantTimeWords.Select32Correct` | libimobiledevice/src/main/cpp/external/libssl/include/internal/constant_time.h:276-288 | On such a mask, selection is if-then-else |
| `ConstantTimeWords.CondSwap32` | libimobiledevice/src/main/cpp/external/libssl/include/internal/constant_time.h:331-339 | In place, swaps for the full mask and changes nothing for mask 0, also when both pointers are one |
| `ConstantTimeWords.Lt64Correct` | libimobiledevice/src/main/cpp/external/libssl/include/internal/constant_time.h:134-141 | The comparison at 64 bits |
| `ConstantTimeWords.Ge64Correct` | libimobiledevice/src/main/cpp/external/libssl/include/internal/constant_time.h:149-163 | The comparison at 64 bits |
| `ConstantTimeWords.IsZero64Correct` | libimobiledevice/src/main/cpp/external/libssl/include/internal/constant_time.h:165-188 | The zero test at 64 bits, which is size_t |
| `ConstantTimeWords.Eq64Correct` | libimobiledevice/src/main/cpp/external/libssl/include/internal/constant_time.h:190-199 | The equality test at 64 bits |
| `ConstantTimeWords.Select64Correct` | libimobiledevice/src/main/cpp/external/libssl/include/internal/constant_time.h:276-319 | The selection at 64 bits |
| `ConstantTimeWords.CondSwap64` | libimobiledevice/src/main/cpp/external/libssl/include/internal/constant_time.h:351-359 | The conditional swap at 64 bits |
| `ConstantTimeBuffers.Select8Correct` | libimobiledevice/src/main/cpp/external/libssl/include/internal/constant_time.h:290-295 | Byte selection through unsigned int and truncation is if-then-else |
| `ConstantTimeBuffers.CondSwapBuff` | libimobiledevice/src/main/cpp/external/libssl/include/internal/constant_time.h:373-387 | For mask 0xFF the first len bytes of the two buffers are exchanged and the rest kept, for mask 0 both are as before, also when both are one buffer |
| `ConstantTimeBuffers.Lookup` | libimobiledevice/src/main/cpp/external/libssl/include/internal/constant_time.h:394-413 | For either width of size_t, the output is exactly row idx if there is one and all zeros otherwise, although every row is visited and the index wraps below zero; nothing behind the row size is written |
| `SessionProtocol.ReachableInvariant` | libimobiledevice/src/main/kotlin/com/dimkasark/UsbCommandProcessor.kt:39-53 | Every state of every run, over any number of sessions and all interleavings: who is inside is who holds the mutex, the published state is that of the daemon, and the flag means a stop written in time |
| `SessionProtocol.StepKeepsInvariant` | libimobiledevice/src/main/kotlin/com/dimkasark/UsbCommandProcessor.kt:39-53 | One atomic step of any session or daemon keeps that |
| `SessionProtocol.AtMostOneDaemonLives` | libimobiledevice/src/main/kotlin/com/dimkasark/usbmux/UsbMuxDaemon.kt:19-29 | At most one daemon is ever between preparing and publishing Terminated |
| `SessionProtocol.OnlyHolderMoves` | libimobiledevice/src/main/kotlin/com/dimkasark/UsbCommandProcessor.kt:39-53 | Every step but taking the mutex is by the session that holds it, or by its daemon |
| `SessionProtocol.SessionsAreConsecutive` | libimobiledevice/src/main/kotlin/com/dimkasark/UsbCommandProcessor.kt:39-53 | All steps of one session and its daemon follow each other without a step of another |
| `SessionProtocol.PrepareAndFreeAlternate` | libimobiledevice/src/main/kotlin/com/dimkasark/usbmux/UsbMuxDaemon.kt:21-27 | In every run prepare and free strictly alternate, each free by the session that prepared |
| `SessionProtocol.ActionAfterStarted` | libimobiledevice/src/main/kotlin/com/dimkasark/DeviceCommunicationApi.kt:19-22 | An action starts only after its own daemon published Started |
| `SessionProtocol.CloseAfterFree` | libimobiledevice/src/main/kotlin/com/dimkasark/DeviceCommunicationApi.kt:22-24 | A connection closes only after its own daemon freed its resources and published Terminated |
| `SessionOrder.StopFollowsAction` | libimobiledevice/src/main/kotlin/com/dimkasark/DeviceCommunicationApi.kt:21-23 | A session writes its stop only after its action has begun and then ended |
| `SessionOrder.SessionTakesEveryStep` | libimobiledevice/src/main/kotlin/com/dimkasark/DeviceCommunicationApi.kt:12-26 | A session that releases the mutex has taken every step of the source, each once and in order: lock, open, clear the directory, spawn the daemon, see Started, begin and end the action, stop, see Terminated, close, unlock |
| `SessionOrder.CallerStepFollows` | libimobiledevice/src/main/kotlin/com/dimkasark/DeviceCommunicationApi.kt:12-26 | Each of these steps is taken at most once in a run, and only after the one before it |
| `SessionOrder.CallerFollowsOrder` | libimobiledevice/src/main/kotlin/com/dimkasark/UsbCommandProcessor.kt:39-53 | At any point of any run the steps a caller has taken are a beginning of that list |
| `SessionOrder.DaemonFollowsOrder` | libimobiledevice/src/main/kotlin/com/dimkasark/usbmux/UsbMuxDaemon.kt:19-31 | The steps a daemon thread has taken are a beginning of prepare, publish Started, reset the flag, free, publish Terminated |
| `SessionOrder.DaemonTakesEveryStep` | libimobiledevice/src/main/kotlin/com/dimkasark/usbmux/UsbMuxDaemon.kt:19-31 | When it publishes Terminated it has taken all of them, each once and in order |
| `SessionOrder.LoopFollowsSource` | libimobiledevice/src/main/cpp/external/usbmuxd/android/daemon.c:97-166 | Inside the loop a test is followed by a wait, a wait by a pass, and only the end of the loop by the freeing |
| `SessionProtocol.NoStaleStop` | libimobiledevice/src/main/cpp/external/usbmuxd/android/daemon.c:97-98 | The stop of an earlier session never ends a later daemon: short of a failing pass a daemon leaves its loop only after its own stop |
| `SessionProtocol.NoPassStartsAfterStop` | libimobiledevice/src/main/cpp/external/usbmuxd/android/daemon.c:97-121 | Once the flag is written after the reset, the loop takes none of the turns that keep it going |
| `SessionProtocol.AtMostOnePassEndsAfterStop` | libimobiledevice/src/main/cpp/external/usbmuxd/android/daemon.c:97-162 | After such a write at most one dispatch pass, the one under way, still ends |
| `SessionProtocol.LostStopIsForever` | libimobiledevice/src/main/cpp/external/usbmuxd/android/daemon.c:97-98 | A stop written before the reset is lost: short of a failing pass the daemon is never freed, the mutex never released and no other session moves again |
| `SessionProtocol.StopWorksExactlyAfterReset` | libimobiledevice/src/main/cpp/external/usbmuxd/android/daemon.c:97-170 | Right after the stop is written and short of a failing pass, some continuation frees the daemon if and only if the loop had already reset the flag |
| `SessionProtocol.LostStopCanHappen` | libimobiledevice/src/main/kotlin/com/dimkasark/usbmux/UsbMuxDaemon.kt:33-42 | The order of steps alone does not rule the lost stop out: a concrete run in which it happens |
| `SessionProtocol.CanFinish` | libimobiledevice/src/main/cpp/external/usbmuxd/android/daemon.c:117-166 | A daemon stopped in time can always run to its end without any failure and without another session |
| `SessionProgress.StopReleasesMutex` | libimobiledevice/src/main/kotlin/com/dimkasark/usbmux/UsbMuxDaemon.kt:39-42 | After a stop written behind the reset every run, failing passes included, releases the mutex within seven steps: four of the daemon and three of its caller |
| `SessionProgress.StoppedCanMove` | libimobiledevice/src/main/kotlin/com/dimkasark/usbmux/UsbMuxDaemon.kt:39-42 | A session that has written its stop and still holds the mutex is never in a state where nothing can move, not even when the stop was lost |
| `SessionProgress.StuckExactlyWhenDoneOrMissed` | libimobiledevice/src/main/kotlin/com/dimkasark/usbmux/UsbMuxDaemon.kt:33-42 | In every reachable state nothing can move if and only if all sessions are done or one missed the conflated Started because its daemon terminated first |
| `SessionProgress.MissedStartMeans` | libimobiledevice/src/main/kotlin/com/dimkasark/usbmux/UsbMuxDaemon.kt:19-37 | A session misses its start exactly when its daemon published Terminated and its caller never saw Started |
| `SessionProgress.MissedStartNeedsFailure` | libimobiledevice/src/main/kotlin/com/dimkasark/usbmux/UsbMuxDaemon.kt:19-37 | Only a failing dispatch pass leads there |
| `SessionProgress.MissedStartCanHappen` | libimobiledevice/src/main/kotlin/com/dimkasark/usbmux/UsbMuxDaemon.kt:19-37 | And it does: a concrete run of one session, its first pass failing, that ends stuck and not done |
| `SessionProgress.StuckOnlyWhenDone` | libimobiledevice/src/main/kotlin/com/dimkasark/usbmux/UsbMuxDaemon.kt:33-42 | A run without a failing pass is stuck if and only if every session is done |
| `DaemonLoop.Dispatcher.LoopMain` | libimobiledevice/src/main/cpp/external/usbmuxd/android/daemon.c:97-166 | The whole loop, for any answers of the world: it passes some turns, ends in the first that meets a set flag or a failure, and the effects, in order and with every reading of the flag, are exactly those turns and that end, with the code that belongs to it |
| `DaemonLoop.AtMostOnePassAfterWrite` | libimobiledevice/src/main/cpp/external/usbmuxd/android/daemon.c:97-162 | Cut the effects of the loop where the flag is set for good: what follows is at most the end of one wait or of one turn's work, and then the reading that ends the loop |
| `DaemonLoop.ExitsAtFirstSetReading` | libimobiledevice/src/main/cpp/external/usbmuxd/android/daemon.c:98-133 | Without a failure the loop ends at the first reading that finds the flag set, and makes no other such reading |
| `DaemonLoop.Dispatcher.DispatchPass` | libimobiledevice/src/main/cpp/external/usbmuxd/android/daemon.c:137-160 | The calls of a pass are those of its specification; it fails exactly when some descriptor fails, and then the first failing call is the last |
| `DaemonLoop.PassWithUsb` | libimobiledevice/src/main/cpp/external/usbmuxd/android/daemon.c:137-160 | If some ready descriptor is USB's, a pass is: the ready others before the first such one, usb_process once, and the ready others behind it, in index order |
| `DaemonLoop.PassWithoutUsb` | libimobiledevice/src/main/cpp/external/usbmuxd/android/daemon.c:137-160 | Else it is the ready others alone |
| `DaemonLoop.AttendedSnoc` | libimobiledevice/src/main/cpp/external/usbmuxd/android/daemon.c:148-158 | A ready listening descriptor is served by client_accept, a ready client by client_process with its descriptor and events, and nothing else is |
| `DaemonLoop.NoneFailsMeans` | libimobiledevice/src/main/cpp/external/usbmuxd/android/daemon.c:140-154 | No call of a pass fails exactly when usb_process does not for a ready USB descriptor and client_accept for no ready listening one |
| `DaemonLoop.TurnInFull` | libimobiledevice/src/main/cpp/external/usbmuxd/android/daemon.c:98-136 | A turn that does not end the loop, written out: the readings of the flag, the wait, and then nothing, usb_process and device_check_timeouts, or a pass |
| `DaemonLoop.EndInFull` | libimobiledevice/src/main/cpp/external/usbmuxd/android/daemon.c:98-136 | The last turn, written out for each way in which the loop ends |
| `DaemonLoop.PollTimeoutExact` | libimobiledevice/src/main/cpp/external/usbmuxd/android/daemon.c:100-114 | The seconds and nanoseconds are exactly the earlier timeout, divided toward zero, and acceptable to ppoll exactly when neither timeout is negative |
| `DeviceCache.UsbCommunicationService.RefreshDeviceInfo` | service_impl/src/main/kotlin/com/dimkasark/icommunication/UsbCommunicationService.kt:110-140 | The list becomes what dropping absent devices, appending new ones and marking the answered one make of it; without a USB manager it stays |
| `DeviceCache.UsbCommunicationService.RemoveAbsent` | service_impl/src/main/kotlin/com/dimkasark/icommunication/UsbCommunicationService.kt:114-115 | Exactly the entries of attached devices stay, in order |
| `DeviceCache.RefreshMirrorsDevices` | service_impl/src/main/kotlin/com/dimkasark/icommunication/UsbCommunicationService.kt:110-140 | After any refresh the listed ids are exactly the attached ones, each once, survivors first and in their old order |
| `DeviceCache.RefreshEntry` | service_impl/src/main/kotlin/com/dimkasark/icommunication/UsbCommunicationService.kt:110-140 | The entry of each device after a refresh, field by field: dropped with the device, kept as it was, or made of the name, ids and permission of the device as first seen; and the permission is the answer's if the answer is for it |
| `DeviceCache.RefreshOrder` | service_impl/src/main/kotlin/com/dimkasark/icommunication/UsbCommunicationService.kt:114-131 | The devices that stay keep their order, the new ones come behind them in the order of the USB manager's list |
| `DeviceCache.FirstEntry` | service_impl/src/main/kotlin/com/dimkasark/icommunication/UsbCommunicationService.kt:120-129 | A device is first listed with its name, vendor and product id, allowed if it has permission and to be asked for if not |
| `DeviceCache.MarkEntry` | service_impl/src/main/kotlin/com/dimkasark/icommunication/UsbCommunicationService.kt:134-139 | An answer changes the permission of its device, no other field and no other entry |
| `DeviceCache.HistoryMirrorsDevices` | service_impl/src/main/kotlin/com/dimkasark/icommunication/UsbCommunicationService.kt:105-140 | So after every history of refreshes |
| `DeviceCache.RefreshPermission` | service_impl/src/main/kotlin/com/dimkasark/icommunication/UsbCommunicationService.kt:110-140 | What one refresh does to the permission of every device: forgotten, answered, kept or seen first |
| `DeviceCache.PermissionExplained` | service_impl/src/main/kotlin/com/dimkasark/icommunication/UsbCommunicationService.kt:105-140 | For every history, a permission is the last answer since the device last appeared or, without one, what was seen when it did |
| `DeviceCache.LastAnswerStands` | service_impl/src/main/kotlin/com/dimkasark/icommunication/UsbCommunicationService.kt:134-139 | The list remembers an answer given while the device was attached until the next one |
| `DeviceCache.FirstSightStands` | service_impl/src/main/kotlin/com/dimkasark/icommunication/UsbCommunicationService.kt:117-131 | Without an answer the list remembers whether the device had permission when it appeared |
| `DeviceCache.PermissionFromBroadcasts` | service_impl/src/main/kotlin/com/dimkasark/icommunication/UsbCommunicationService.kt:60-140 | For every life of the service, creation and any broadcasts, and every device id but 0: a device that is gone is forgotten, and of a present one the service remembers the last answer the user gave for it since it last appeared, or else the permission it had then |
| `DeviceCache.IndexOf` | service_impl/src/main/kotlin/com/dimkasark/icommunication/UsbCommunicationService.kt:118-119 | The first entry with that id, or a negative number exactly when there is none |
| `DeviceCache.OnlyAnswersName` | service_impl/src/main/kotlin/com/dimkasark/icommunication/UsbCommunicationReceiver.kt:10-26 | A broadcast names exactly the device it answers for, except that every other broadcast names the device with id 0 |
| `DeviceCache.ZeroIdIsDenied` | service_impl/src/main/kotlin/com/dimkasark/icommunication/UsbCommunicationService.kt:134-139 | So an attached device with id 0 is denied by the arrival or departure of another |
| `DeviceCache.OthersDenyZero` | service_impl/src/main/kotlin/com/dimkasark/icommunication/UsbCommunicationService.kt:78-78 | The creation of the service, too, counts as a denial of the device with id 0 |
| `UsbTransfer.LookupsAgreeExactly` | libimobiledevice/src/main/cpp/external/libusb/include/libusb.h:1978-2036 | With equal lengths the multiplying lookup gives the position, or NULL, of the summing one if and only if the packet is out of range or the product fits a signed int, for a size_t of 32 and of 64 bits |
| `UsbTransfer.AddressesAgreeIn32` | libimobiledevice/src/main/cpp/external/libusb/include/libusb.h:1978-2036 | As addresses that wrap at 32 bits they agree if and only if the packet is out of range or the product of the ints is defined, be it negative |
| `UsbTransfer.AddressesAgreeIn64` | libimobiledevice/src/main/cpp/external/libusb/include/libusb.h:1978-2036 | As addresses that wrap at 64 bits they agree exactly when they agree as positions |
| `UsbTransfer.SummingIsOffset` | libimobiledevice/src/main/cpp/external/libusb/include/libusb.h:1995-1998 | The summing lookup gives the sum of the lengths before the packet, whatever they are, modulo the range of size_t |
| `UsbTransfer.ToIntIsCongruent` | libimobiledevice/src/main/cpp/external/libusb/include/libusb.h:2035-2035 | The conversion of the length to int keeps it or takes 2^32 away, so that it fits |
| `UsbTransfer.RegionsInOrderExactly` | libimobiledevice/src/main/cpp/external/libusb/include/libusb.h:1978-1999 | The regions at the positions the summing lookup returns are ordered and disjoint if and only if the last begins below 2^32 or 2^64, the modulus of size_t; then the first is at the beginning and each other where the one before ends |
| `UsbTransfer.RegionsInOrderIn64` | libimobiledevice/src/main/cpp/external/libusb/include/libusb.h:1978-1999 | With a 64-bit size_t they always are |
| `UsbTransfer.RegionsCanOverlapIn32` | libimobiledevice/src/main/cpp/external/libusb/include/libusb.h:1978-1999 | With a 32-bit size_t two lengths of 2^31 put the third packet on top of the first |
| `UsbTransfer.WrappedIsModulo` | libimobiledevice/src/main/cpp/external/libusb/include/libusb.h:1978-1999 | Summing in a size_t is the sum modulo its range |
| `UsbTransfer.UniformOffset` | libimobiledevice/src/main/cpp/external/libusb/include/libusb.h:1978-1999 | With equal lengths the sum is the product |
| `UsbTransfer.IsoTransfer.SetIsoPacketLengths` | libimobiledevice/src/main/cpp/external/libusb/include/libusb.h:1953-1960 | Exactly the lengths of the packets of the transfer are set |
| `UsbTransfer.IsoTransfer.GetIsoPacketBuffer` | libimobiledevice/src/main/cpp/external/libusb/include/libusb.h:1978-1999 | NULL for packets out of range, else the sum of the lengths before it, modulo the range of a size_t of either width |
| `UsbTransfer.IsoTransfer.GetIsoPacketBufferSimple` | libimobiledevice/src/main/cpp/external/libusb/include/libusb.h:2020-2036 | NULL for packets out of range, else the product, where it is defined |
| `UsbTransfer.Le16InMemory` | libimobiledevice/src/main/cpp/external/libusb/include/libusb.h:166-185 | On hosts of either byte order the converted value lies low byte first in memory, and converting twice is the identity |
| `UsbTransfer.HostOrders` | libimobiledevice/src/main/cpp/external/libusb/include/libusb.h:166-175 | The two kinds of host the conversion is about: low byte first, and high byte first |
| `UsbTransfer.FillControlSetup` | libimobiledevice/src/main/cpp/external/libusb/include/libusb.h:1764-1774 | The first eight bytes become the setup packet in bus order whatever the host, and the rest stays |
| `UsbTransfer.ControlTransfer.FillControlTransfer` | libimobiledevice/src/main/cpp/external/libusb/include/libusb.h:1813-1829 | All fields are set as given; the length becomes eight more than the little-endian length field of the setup packet, and stays without a buffer |
| `UsbTransfer.SetupFields` | libimobiledevice/src/main/cpp/external/libusb/include/libusb.h:1764-1774 | Reading the fields of a filled setup packet, low byte first, gives what they were filled with |
| `PlistReader.AsParametersMap` | libimobiledevice/src/main/kotlin/com/dimkasark/utils/PlistUtils.kt:15-29 | The loop dereferences null exactly when some key has no first value or some non-empty string has none; otherwise it computes the pairing below |
| `PlistReader.BreaksMeans` | libimobiledevice/src/main/kotlin/com/dimkasark/utils/PlistUtils.kt:17-27 | Null is dereferenced for a key without a first child or with one that has no value, and for a string whose first child has none |
| `PlistReader.TextsMean` | libimobiledevice/src/main/kotlin/com/dimkasark/utils/PlistUtils.kt:19-25 | The text of a key, and of a string that has a child, is the trimmed value of the first child; a string without children is empty |
| `PlistReader.KeyInForce` | libimobiledevice/src/main/kotlin/com/dimkasark/utils/PlistUtils.kt:15-29 | For any children, the key in force is that of the last key or string before if this is a key, and else empty |
| `PlistReader.StringsAreFiled` | libimobiledevice/src/main/kotlin/com/dimkasark/utils/PlistUtils.kt:21-28 | For any children, each string is filed under the key in force where it stands, and the last one under a key wins |
| `PlistReader.NothingElseIsFiled` | libimobiledevice/src/main/kotlin/com/dimkasark/utils/PlistUtils.kt:21-28 | And nothing else is in the result |
| `PlistReader.DictionaryIsRead` | libimobiledevice/src/main/kotlin/com/dimkasark/utils/PlistUtils.kt:15-29 | On every dictionary, with text anywhere, the result is exactly its trimmed string entries; the key of another kind of value never reaches a later string |
| `PlistReader.LastDuplicateWins` | libimobiledevice/src/main/kotlin/com/dimkasark/utils/PlistUtils.kt:15-29 | A key is in the result exactly when some string entry has it, and then with the text of the last |
| `PlistReader.ElementsOnlyMatter` | libimobiledevice/src/main/kotlin/com/dimkasark/utils/PlistUtils.kt:15-29 | Nodes that are no elements make no difference |
| `PlistReader.TrimDropsTheEnds` | libimobiledevice/src/main/kotlin/com/dimkasark/utils/PlistUtils.kt:19-25 | What trimming leaves has no white space at its ends, and what it takes away is nothing else |

## Left out

- The compression functions and block ciphers themselves, and HASH_MAKE_STRING: parameters here.
- The input of `HASH_UPDATE` and the memory under a PACKET are immutable sequences: writing to them meanwhile, and an input that overlaps the context, are not modelled. `PACKET_null_init`'s null pointer is not either.
- Block sizes of the collector below nine bytes, where the length field would not fit, and of more than half the range of size_t.
- CFB with one-bit segments and the flag that says lengths are in bits: the input is then counted in bits while the driver still moves its pointers by as many bytes.
- ConstantTimeBuffers.CondSwapBuff: the buffers are two arrays or one and the same; buffers that overlap at different offsets are not modelled.
- ConstantTimeBuffers.Lookup: the table is an immutable sequence, so an output that lies inside it is not modelled.
- Timing, `value_barrier` and the assembly versions: only values are modelled. The variants of the constant-time helpers for other widths are casts of those modelled.
- The PACKET accessors that copy or compare (`PACKET_equal`, `PACKET_copy_bytes`, `PACKET_memdup`, `PACKET_strndup` and their kind) and all of WPACKET, which has no bodies here.
- The other `libusb_fill_*` functions and conversions to timeval: they would only add easy members.
- Sessions that end by an exception or a cancelled coroutine, the delay after Started as time, and the connection `stop_loop` makes to wake the loop up: no session here fails, and a blocked wait ends at any time.
- SessionProtocol folds the second reading of the flag after an interrupted wait into the step before it; DaemonLoop has both.
- What usb_process, client_process and client_accept do, building the descriptor list, ppoll: answers of the world.
- One refresh sees one list of attached devices, although the code asks the USB manager more than once.
- White space in `trim` is a parameter, and parsing the XML is not modelled.
- JNI glue, messengers, broadcasts as a transport, file copying, and the installer and lockdown calls: input and output, or bodies that are not in the repository.
