# Verified model of the APX bus protocols

A Dafny model of the transport and codec code under `xbus/`, `crc/` and `mandala/backport/`, with proofs of what that
code is for. `dafny verify dfyconfig.toml` checks everything.

| part | modules |
|---|---|
| CAN multi-frame transport | `CanFormat` (frames, the pool as a row of slots), `CanLists` (lists threaded through one array), `CanPool` (the class on the arrays), `CanMap` (the protocol on a map, refined by the pool), `CanRuns` (whole runs), `CanCodec` (splitting, reading, checksum), `CanReads` (reading until nothing is left), `CanDelivery` (end to end) |
| Telemetry stream | `TelemetryStream` (what a set of transmitted slots becomes), `TelemetrySteps` (the encoder's loop invariant), `TelemetryEncoder` (the class), `TelemetryDecode` (the decoder's reading and the round trip), `TelemetryFormat` (field table, hash, messages), `TelemetryState` (the decoder's state and its guard), `TelemetryTransfer` (handing over a table, then values), `TelemetryDecoder` (the class), `TelemetryAnyBytes` (what is accepted at all), `TelemetrySession` (both sides over many packets) |
| Serial framing | `Cobs` (stuffing, unstuffing, chunks), `CobsCodec` (both classes with their buffers) |
| Numbers | `Crc32`, `Checksums`, `Half` (binary16), `MatrixLu` (LU factorisation over exact reals) |
| Samples | `Samples` (a few packets byte for byte) |
| Shared | `Bytes` |

How the parts fit together: each class method is proved equal to a function on the object's abstract value, and the
properties of whole runs are lemmas about those functions. For the pool there are two levels: the arrays refine a row
of slots, and the row refines a protocol on a map and a bag that needs nothing from the row.

## What the proofs show about the code

- The call of `timeout()` at xbus/can/CanPool.cpp:82 is never reached: for an end frame `push_next` never returns
  `MsgAccepted`.
- `ErrorSeqIdx` (xbus/can/CanPool.cpp:193) is never returned.
- A gap of five sequence frames goes unnoticed by the pool, and a gap of four is taken for a repetition; only the
  packet checksum can reveal either. A repeated start or sequence frame is harmless exactly while an item is free;
  `CanRuns.RepetitionDestroys` is a run, for every pool, after which a repetition destroys a packet.
- A telemetry packet cannot be read back, and resets the decoder, exactly if a transmitted slot has a format of size
  zero, or the table has no bitfields and the last transmitted slot is the second nibble of a byte: the loop guard at
  xbus/telemetry/TelemetryDecoder.cpp:134 wants unread bytes. `TelemetrySession.TwoNibblesRejected` and
  `TelemetrySession.NoFormatRejected` are tables and packets at which this happens.
- Enforcing adds 0x01010101 to the remembered value so that the next comparison sees a difference
  (xbus/telemetry/TelemetryEncoder.cpp:308-309, 357). If the new value is the remembered one plus 0x01010101, there is
  no difference: the slot has changed, is not sent, and loses its mark (`TelemetrySession.ChangedButNotSent`).
  `TelemetrySession.SlotTracked` says for every packet which slots are left behind without a mark, and
  `TelemetrySession.EverySlotShown` that without such a coincidence enforcing brings every slot to the decoder.
- The counter of hash bytes never passes 4, so xbus/telemetry/TelemetryDecoder.cpp:50-51 is dead.
- The comment at xbus/telemetry/TelemetryFormat.h:61 suggests that the stream carries the hash byte by byte. But every
  new byte that differs drops those before it (xbus/telemetry/TelemetryDecoder.cpp:42-45), so value packets alone
  confirm a hash exactly if at most one of its bytes is not zero; any other needs a format message.
- A table can be handed over exactly if the number of its parts fits into one byte of the header
  (`TelemetryTransfer.TransferableExact`); with parts of 64 bytes it always does.
- In `float_to_f16` the code for NaN (xbus/telemetry/TelemetryValuePack.h:140) is never produced, because a NaN is
  replaced by zero before; minus zero also becomes plain zero.
- The buffer of `CobsEncoder` is exactly as large as the longest encoding: for every packet size some payload fills it
  to the last byte (`CobsCodec.BufferFilled`).
- `Codec::read_packet` decides by the number of bytes copied whether it tests the checksum
  (xbus/can/CanCodec.cpp:58), not by the kind of packet. Multi-frame packets can come out untested: with an end frame
  that claims more than eight bytes, of which the pool copies none (`CanDelivery.OverlongUnchecked`), or read into a
  small destination. `CanReads.UncheckedExact` says exactly when.
- A destination of less than two bytes makes `read_packet` lose finished packets, and with one byte it may return a
  payload byte without identifier (`CanMap.ShortReadRefines`).

## Model

| member | source | states |
|---|---|---|
| CanLists.Release | xbus/can/CanPool.cpp:216-226 | Unlinking the first item of one list and putting it in front of the free list keeps all lists acyclic, NIL-terminated, disjoint and together covering every item |
| CanLists.Append | xbus/can/CanPool.cpp:173-202 | Moving the first free item behind the tail of a chain (or into an empty one) keeps the same partition of all items |
| CanPool.Pool.Init | xbus/can/CanPool.cpp:45-62 | Any number of trees and up to 255 items: all trees empty, every item in the free list, the list invariant established |
| CanPool.Pool.Space | xbus/can/CanPool.cpp:242-248 | The walk over the free list ends and counts exactly the items that no chain holds |
| CanPool.Pool.RemoveTree | xbus/can/CanPool.cpp:216-226 | Every item of one tree returns to the free list, all other trees keep their contents |
| CanPool.Pool.Remove | xbus/can/CanPool.cpp:204-215 | Drops exactly the unfinished packets of this key |
| CanPool.Pool.TimeoutStep | xbus/can/CanPool.cpp:292-309 | Every unfinished packet ages by one round or disappears at zero; finished ones are left alone; says whether any disappeared |
| CanPool.Pool.AppendToTree | xbus/can/CanPool.cpp:173-194 | The walk to the tail always succeeds: with a free item no chain can hold max_seq_idx items, so ErrorSeqIdx cannot be returned |
| CanPool.Pool.PushNewTree | xbus/can/CanPool.cpp:99-121 | Refines PushNew on the row of slots |
| CanPool.Pool.PushNextTree | xbus/can/CanPool.cpp:123-171 | Refines PushNext on the row of slots, with repetition and orphan branches |
| CanPool.Pool.PushFrame | xbus/can/CanPool.cpp:64-97 | One message on the linked arrays is Push on the row of slots with the same result code; the branch that would age after an end frame is shown dead |
| CanPool.Pool.ReadTree | xbus/can/CanPool.cpp:265-291 | Copies the chunks of a finished tree in order into the stream capacity and releases the tree |
| CanPool.Pool.ReadPacket | xbus/can/CanPool.cpp:250-264 | Refines ReadFrom: empties finished slots in order until one yields bytes |
| CanMap.RemoveRefines | xbus/can/CanPool.cpp:204-215 | Removing a key from the slots removes it from the map of unfinished packets and nothing else |
| CanMap.AgeRefines | xbus/can/CanPool.cpp:292-309 | A timer round on the slots is a round of ageing on the map |
| CanMap.PushRefines | xbus/can/CanPool.cpp:64-171 | Every push on the slots is one step of a plain protocol on a map from (net, src, pid) to chunks, expected frame and timeout plus a bag of finished packets, with the same result code; the two questions about space are answered by the row |
| CanMap.UsedIsHeld | xbus/can/CanPool.cpp:173-202 | The items in use are exactly the chunks of all unfinished entries and of all finished packets |
| CanMap.PushIsAccept | xbus/can/CanPool.cpp:64-171 | Both questions about space are facts of the map and the bag, so every push is a step of a protocol closed in itself, of m slots and n items |
| CanMap.OtherKeysUntouched | xbus/can/CanPool.cpp:64-171 | A frame never touches the data of another key: at worst that key ages one round, and only when the frame was rejected; every finished packet stays, and a new one has the key of the frame |
| CanMap.ReadRefines | xbus/can/CanPool.cpp:250-291 | A read into two or more bytes takes exactly one finished packet out of the bag and returns its identifier and its own chunks in order, or nothing if there is none |
| CanMap.ShortReadRefines | xbus/can/CanPool.cpp:250-291 | A read into less than two bytes throws away finished packets until none is left or one consists of a single byte that fits, which is then returned without identifier |
| CanMap.SlotsAccounted | xbus/can/CanPool.cpp:99-121 | Occupied trees are exactly the unfinished entries plus the finished packets |
| CanMap.ExhaustedMeaning | xbus/can/CanPool.cpp:99-121 | No tree is left for a key if and only if the other entries and the finished packets fill all trees |
| CanRuns.RunConsistent | xbus/can/CanPool.cpp:99-171 | In every reachable state at most one unfinished packet per key exists, it expects a frame in 0..4, and all chunks fit the items |
| CanRuns.RunRefines | xbus/can/CanPool.cpp:45-309 | Every run of frames, timer rounds and reads from init() is a run of the closed protocol on map and bag |
| CanRuns.RunTraced | xbus/can/CanPool.cpp:64-171 | In every run each stored packet consists of its own frames only, in arrival order, numbered start, 0..4 cyclic, end, all but the last with eight bytes; no frame is used twice |
| CanRuns.WrongLengthRefused | xbus/can/CanPool.cpp:64-97 | While an item is free, frames are refused for their length exactly if they are start or sequence frames without eight bytes or empty end frames, and then nothing changes |
| CanRuns.RepeatedFrame | xbus/can/CanPool.cpp:139-148 | A repeated start or sequence frame leaves the state unchanged if and only if an item is still free; otherwise the packet is lost |
| CanRuns.RepetitionDestroys | xbus/can/CanPool.cpp:139-148 | For every pool: a run of one start frame and its sequence frames, all accepted, that fills the items, after which repeating the last frame destroys the packet |
| CanRuns.RepeatedEnd | xbus/can/CanPool.cpp:76-83 | A repeated end frame completes no second packet and only ages the others |
| CanRuns.NothingWithoutStart | xbus/can/CanPool.cpp:123-171 | Without an unfinished packet, no run free of start and single frames of the key completes a packet of that key |
| CanRuns.LostFrames | xbus/can/CanPool.cpp:136-149 | After j lost sequence frames the transfer survives if and only if j mod 5 is 0 or 4; for 1, 2, 3 nothing is delivered before a new start |
| CanCodec.Codec.FillPart | xbus/can/CanCodec.cpp:139-166 | The next up to eight bytes of payload and checksum, in all cases where the CRC straddles two frames or fills the last one |
| CanCodec.Codec.SendParts | xbus/can/CanCodec.cpp:135-174 | The frames sent are the first ones of the transfer, exactly as many as the driver takes; success if and only if that is all of them |
| CanCodec.Codec.SendPacket | xbus/can/CanCodec.cpp:108-175 | What is sent is the beginning of the single frame or multi-frame transfer that carries the packet and its checksum, exactly as far as the driver takes it; success if and only if it is the whole transfer; nothing for less than two bytes |
| CanCodec.ChecksumExact | xbus/can/CanCodec.cpp:64-75 | The bytes that pass the test are a packet followed by its own checksum, and no others |
| CanCodec.Codec.CheckCrc | xbus/can/CanCodec.cpp:64-75 | The length without checksum exactly for a packet followed by its own checksum, else 0 |
| CanCodec.Codec.ReadPacket | xbus/can/CanCodec.cpp:51-63 | The retry loop ends, because each round empties a finished tree, and returns the first packet of which at most ten bytes were copied, or whose copied bytes end in their checksum |
| CanReads.DrainedReads | xbus/can/CanCodec.cpp:51-75 | Calling read_packet until it returns nothing hands out, as a multiset, the result of each finished packet: its bytes if at most ten were copied, its bytes without checksum if that is right, otherwise nothing; whatever the order of the trees |
| CanReads.HandedOutExact | xbus/can/CanCodec.cpp:51-75 | Draining hands out a reading if and only if some finished packet gives it: ten bytes or less as they are, more only if they are what is handed out followed by its own checksum |
| CanReads.UncheckedExact | xbus/can/CanCodec.cpp:51-63 | A packet escapes the checksum test if and only if it is a single frame, or two frames of which the second does not fit or claims more than eight bytes, or three and more frames read into less than 18 bytes |
| CanDelivery.SentUnchecked | xbus/can/CanCodec.cpp:51-63 | A properly sent packet escapes it if and only if it is a single frame or the destination is too small for it (less than 18 bytes and less than packet and checksum) |
| CanDelivery.OverlongUnchecked | xbus/can/CanCodec.cpp:51-63 | For every pool, any two chunks and every destination of ten or more bytes: a start frame and an end frame that claims 9 to 15 bytes come out as the ten bytes of identifier and first chunk |
| CanDelivery.GapKeeps | xbus/can/CanPool.cpp:292-309 | Among any traffic of other keys, reads and timer rounds an unfinished packet survives if and only if no more ageing rounds pass than it has left, and then only its age has changed |
| CanDelivery.GapHolding | xbus/can/CanPool.cpp:139-148 | The same among repetitions of the frame that came last, any number of them, each finding a free item; a repeated start frame makes the packet new again |
| CanDelivery.Completed | xbus/can/CanCodec.cpp:108-175 | A transfer whose frames arrive in order among such traffic and repetitions completes exactly one packet, made of exactly its chunks |
| CanDelivery.TransferFinishes | xbus/can/CanCodec.cpp:108-175 | The same for single frames: the last frame puts exactly the packet of this transfer into the bag |
| CanDelivery.ReadBack | xbus/can/CanCodec.cpp:51-75 | The result of reading that finished packet is the original bytes and the sender |
| CanDelivery.EndToEnd | xbus/can/CanCodec.cpp:51-175 | send_packet, push of every frame, each but the last repeated any number of times, among traffic of other keys, ageing and reads, with any other packets finished: the last frame adds exactly one reading to what draining read_packet hands out, the identical packet with its sender |
| CanDelivery.LaterEndToEnd | xbus/can/CanCodec.cpp:51-175 | And it is still handed out after any later traffic and timer rounds |
| CanDelivery.Alone | xbus/can/CanCodec.cpp:51-175 | Back to back into a pool with nothing finished and enough room, it is the only reading |
| CanDelivery.FreshDelivers | xbus/can/CanCodec.cpp:51-175 | Every pool fresh from init() with a tree and as many items as the packet has frames hands out the packet once, and nothing else |
| CanDelivery.FreshPoolDelivers | xbus/can/CanPool.h:61-64 | The declared pool of 76 items and 8 trees hands out every packet of 2 to 512 bytes once, and nothing else |
| Crc32.StmCrcSlow | crc/crc32_sw.c:24-37 | The bit loop is thirty-two shift steps of the CRC-32 polynomial on seed xor data |
| Crc32.NibbleTable | crc/crc32_sw.c:41-71 | Every table entry is what four bit steps make of its index |
| Crc32.StmCrcFast | crc/crc32_sw.c:39-72 | Eight table rounds equal the thirty-two bit steps |
| Crc32.Crc32Sw | crc/crc32_sw.c:78-95 | The word loop with its masked tail is the checksum over little-endian words with a zero-extended tail, whatever bytes follow the buffer |
| Crc32.ApxCrc32 | crc/CRC32.cpp:29-32 | The number crc32() returns for a buffer of bytes, whatever the last word reads beyond it |
| Crc32.PacketCrc16 | xbus/can/CanCodec.cpp:136 | Kept in 16 bits, the result for a packet is the checksum that both packet codecs append and test |
| Crc32.WorstCrc | crc/crc32_sw.c:78-95 | For every length the exact checksum of one packet of that length: 0xFFFF, 0xC0CC, 0x0110 or 0xAD97 |
| Crc32.WordStepInjectiveInSeed | crc/crc32_sw.c:39-72 | A word step is injective in the running value |
| Crc32.WordStepInjectiveInWord | crc/crc32_sw.c:39-72 | A word step is injective in the word |
| Crc32.OneWordErrorDetected | crc/crc32_sw.c:78-95 | Two buffers of one length that differ inside one aligned word never share a checksum |
| Crc32.BytesApart | crc/crc32_sw.c:78-95 | Nor do the four bytes of their checksums agree |
| TelemetryFormat.InsertKeepsOrder | xbus/telemetry/TelemetryEncoder.cpp:50-97 | Inserting a new uid behind all fields before it keeps the three zones, each increasing by uid, without duplicates |
| TelemetryFormat.OrderedIsZoned | xbus/telemetry/TelemetryEncoder.cpp:50-97 | That order is the one the value stream relies on |
| TelemetryFormat.OrderedExact | xbus/telemetry/TelemetryEncoder.cpp:50-97 | A table is in order if and only if ordinary, four-bit and bit fields follow each other, each kind increases by uid and no uid occurs twice |
| TelemetryFormat.ParseTableBytes | xbus/telemetry/TelemetryFormat.h:41-48 | The byte image of a field table, whatever follows it, reads back as the table |
| TelemetryFormat.GetHash | xbus/telemetry/TelemetryEncoder.cpp:282-291 | The four bytes shifted out of crc32() over the table image, started with the format version, low byte first, are the hash |
| TelemetryFormat.HashApart | xbus/telemetry/TelemetryDecoder.cpp:105-108 | Two table images of one length that differ inside one aligned word never have the same hash |
| TelemetryEncoder.Encoder.Clear | xbus/telemetry/TelemetryEncoder.cpp:142-148 | From any state: an empty table with all flags, values and indices reset and the hash of nothing |
| TelemetryEncoder.Encoder.SortedIndex | xbus/telemetry/TelemetryEncoder.cpp:50-97 | The index behind exactly the fields that come before the new one |
| TelemetryEncoder.Encoder.Insert | xbus/telemetry/TelemetryEncoder.cpp:122-141 | All four columns shift up together, the new slot is blank, the hash is that of the new table |
| TelemetryEncoder.Encoder.Add | xbus/telemetry/TelemetryEncoder.cpp:36-121 | Refuses a full table, accepts a known uid without change, otherwise inserts; order, first bitfield index, transponder indices and hash are right after every call; slots that were blank stay blank |
| TelemetryEncoder.Encoder.EnforceOne | xbus/telemetry/TelemetryEncoder.cpp:307-314 | One slot is marked and made to differ; the turn passes to the next slot before the bitfields, or back to the first |
| TelemetryStream.SizesAgree | xbus/telemetry/TelemetryValuePack.h:188-276 | What unpack_value takes is what pack_value has written, for each format number |
| TelemetryStream.DueTogether | xbus/telemetry/TelemetryEncoder.cpp:323-336 | At every packet number divisible by four all slots are due, and whenever a rare slot is due so is every other |
| TelemetryStream.DueRates | xbus/telemetry/TelemetryEncoder.cpp:323-336 | Of four packets in sequence, from any number and across the wrap, a rare slot is due in exactly one, a skip slot in two and never twice in a row, any other in all |
| TelemetryEncoder.BumpAdds | xbus/telemetry/TelemetryEncoder.cpp:309 | Enforcing adds 0x01010101 to the word of the remembered bytes, modulo its 32 bits |
| TelemetryEncoder.EnforcedIsSent | xbus/telemetry/TelemetryEncoder.cpp:307-358 | A due slot that is enforced is transmitted if and only if its new packed value is not the old one plus 0x01010101; so always when the value is the one last sent |
| TelemetryEncoder.Encoder.WriteOffset | xbus/telemetry/TelemetryEncoder.cpp:362-370 | A distance is written as full 7-bit pieces and a last smaller one |
| TelemetryEncoder.Encoder.SendSlot | xbus/telemetry/TelemetryEncoder.cpp:357-393 | Setting a presence bit, or replacing two or more zero codes by a distance, and writing the data keeps the promise of the final stream |
| TelemetryEncoder.Encoder.PackSlots | xbus/telemetry/TelemetryEncoder.cpp:316-398 | The loop with its back-patched codes and shared nibbles writes exactly the sparse stream of the transmitted slots and counts them |
| TelemetryEncoder.Encoder.PackBits | xbus/telemetry/TelemetryEncoder.cpp:400-413 | All bitfields, eight to a byte, lowest bit first |
| TelemetryEncoder.Encoder.EncodeValues | xbus/telemetry/TelemetryEncoder.cpp:293-414 | The output is the value stream of the slots that are due, marked and packed differently; marks and remembered values change for exactly those |
| TelemetryEncoder.Encoder.Encode | xbus/telemetry/TelemetryEncoder.cpp:242-252 | Header with the 16-bit time and the selected hash byte, then the value stream |
| TelemetryEncoder.Encoder.EncodeFormat | xbus/telemetry/TelemetryEncoder.cpp:416-442 | The format message of a part: header, hash and the bytes of that part, nothing beyond the last part |
| TelemetrySteps.Jump | xbus/telemetry/TelemetryEncoder.cpp:359-371 | Replacing the trailing zero codes by the distance leads to the same stream as announcing it in advance |
| TelemetrySteps.MarkShared | xbus/telemetry/TelemetryEncoder.cpp:383-386 | A second nibble filled into a byte already written, while the code stays open, keeps the promised stream |
| TelemetryDecode.TailReads | xbus/telemetry/TelemetryDecoder.cpp:225-258 | The bitfield tail is read back flag by flag |
| TelemetryDecode.AtBoundary | xbus/telemetry/TelemetryDecoder.cpp:134-223 | At every presence code the decoding loop ends with exactly the transmitted slots stored, or is left with an open count |
| TelemetryDecode.RoundTrip | xbus/telemetry/TelemetryDecoder.cpp:120-265 | Decoding what encode_values wrote stores exactly the transmitted slots and all bitfields if and only if every transmitted slot has a size and, in a table without bitfields, the last one does not share a nibble byte; otherwise the decoder resets |
| TelemetryDecode.DecodeMasked | xbus/telemetry/TelemetryDecoder.cpp:137-153 | Only the low two bits of pseq matter to the decoder |
| TelemetryDecoder.Decoder.Reset | xbus/telemetry/TelemetryDecoder.cpp:93-103 | Drops table, flags and values, and the hash if asked to |
| TelemetryDecoder.Decoder.CheckHash | xbus/telemetry/TelemetryDecoder.cpp:105-118 | Takes a table into use only under a complete matching hash |
| TelemetryDecoder.Decoder.ReadCode | xbus/telemetry/TelemetryDecoder.cpp:155-186 | Presence code or chained distance, with all refusals |
| TelemetryDecoder.Decoder.ReadSlot | xbus/telemetry/TelemetryDecoder.cpp:188-222 | One slot takes its block or its half of a shared byte |
| TelemetryDecoder.Decoder.DecodeValues | xbus/telemetry/TelemetryDecoder.cpp:120-265 | The loops over slots and bitfields on the arrays compute Decode, and reject by a reset |
| TelemetryDecoder.Decoder.CheckFeed | xbus/telemetry/TelemetryDecoder.cpp:39-51 | The hash byte of a packet; the counter never passes 4, so the reset behind it is dead |
| TelemetryDecoder.Decoder.Decode | xbus/telemetry/TelemetryDecoder.cpp:29-91 | One value packet on the object is Receive on its state and keeps the guard |
| TelemetryDecoder.Decoder.DecodeFormat | xbus/telemetry/TelemetryDecoder.cpp:289-353 | One format message on the object is Format on its state and keeps the guard |
| TelemetryState.ReceiveGuarded | xbus/telemetry/TelemetryDecoder.cpp:39-91 | Value packets keep: counter at most 4, a table only under the hash of exactly that table, valid only under a complete hash |
| TelemetryState.FormatGuarded | xbus/telemetry/TelemetryDecoder.cpp:289-353 | Format messages keep the same guard |
| TelemetryState.HandleAll | xbus/telemetry/TelemetryDecoder.cpp:29-118 | The guard holds after every sequence of messages |
| TelemetryState.DifferentSender | xbus/telemetry/TelemetryDecoder.cpp:39-48 | Packets of a sender with another hash, at least one of each seq in any order, leave the decoder without a table |
| TelemetryState.StreamConfirms | xbus/telemetry/TelemetryDecoder.cpp:39-48 | After a reset, some sequence of value packets assembles a hash if and only if at most one of its four bytes is not zero |
| TelemetryState.FourPacketsConfirm | xbus/telemetry/TelemetryDecoder.cpp:39-48 | A hash with at most one non-zero byte is confirmed by four packets in sequence that begin with it |
| TelemetryState.TimeTracks | xbus/telemetry/TelemetryDecoder.cpp:57-65 | The full timestamp always agrees with the last 16-bit time and always advances |
| TelemetryState.TimeFollows | xbus/telemetry/TelemetryDecoder.cpp:57-65 | The decoder's time advances by exactly the sender's if and only if one step to one whole turn of the 16-bit time has passed |
| TelemetryTransfer.DefaultSizeFits | xbus/telemetry/TelemetryFormat.h:37-39 | With parts of 64 bytes every table can be handed over |
| TelemetryTransfer.TableTransferred | xbus/telemetry/TelemetryDecoder.cpp:289-353 | Part 0 first, the last part last, all others between in any order with any repeats: from every reachable state the decoder ends with exactly the sender's table, valid |
| TelemetryTransfer.TransferableExact | xbus/telemetry/TelemetryDecoder.cpp:289-353 | For every part size: some sequence of the sender's format messages brings a decoder that has no table, one of another size or one under another hash to the sender's table if and only if the number of parts fits its byte |
| TelemetryTransfer.TableTold | xbus/telemetry/TelemetryDecoder.cpp:105-118 | A decoder that uses a table of the same size under the sender's hash has the sender's table or one that differs in more than one word |
| TelemetryTransfer.OldValuesGone | xbus/telemetry/TelemetryDecoder.cpp:93-103 | Format messages of a sender with another hash leave no value of the table before |
| TelemetryTransfer.ValuesDelivered | xbus/telemetry/TelemetryDecoder.cpp:29-91 | Under the sender's table a packet stores exactly what was packed, or, when it is not readable, resets the decoder |
| TelemetryTransfer.NothingDelivered | xbus/telemetry/TelemetryDecoder.cpp:78-82 | A sender without slots keeps its decoder valid |
| TelemetryTransfer.TableThenValues | xbus/telemetry/TelemetryDecoder.cpp:29-91 | Table and then values, from any reachable state |
| TelemetryTransfer.PacketsFollowed | xbus/telemetry/TelemetryDecoder.cpp:29-91 | However many packets follow, the decoder keeps table and validity and its slots follow the sender packet by packet |
| TelemetrySession.SlotFollows | xbus/telemetry/TelemetryEncoder.cpp:307-358 | A slot at which the decoder shows what the encoder remembers stays so through a packet, unless it is the enforced one; that one stays so if and only if it is due and its new packed value is not the bumped one |
| TelemetrySession.SlotTracked | xbus/telemetry/TelemetryEncoder.cpp:307-358 | A slot that is shown as remembered or marked, and any slot newly marked or enforced, is so again after the packet if and only if it is not missed in it: due and marked, not shown as remembered, but packed to the remembered value |
| TelemetrySession.EnforcedTracked | xbus/telemetry/TelemetryEncoder.cpp:307-314 | Under the sender's table, from any columns of the encoder and any values at the decoder: a slot enforced in some round and not missed from then on is shown as remembered or marked at the end, if all packets are readable |
| TelemetrySession.EverySlotTracked | xbus/telemetry/TelemetryEncoder.cpp:307-314 | The same for every slot from its first turn on, after more packets than there are slots |
| TelemetrySession.EverySlotShown | xbus/telemetry/TelemetryEncoder.cpp:307-358 | With a condition on the sender alone, that no new packed value equals the memory as enforcing has left it: every such slot that is due in the last packet is shown as the encoder remembers it, and if it was marked for that packet, with the value packed for it |
| TelemetrySession.ChangedButNotSent | xbus/telemetry/TelemetryEncoder.cpp:308-357 | The first packet of an encoder with one 32-bit field whose value becomes 0x01010101: enforced, due, marked and changed, and neither transmitted nor marked any more; the decoder shows what it showed before |
| TelemetrySession.TwoNibblesRejected | xbus/telemetry/TelemetryDecoder.cpp:134-223 | The first packet of an encoder with two four-bit fields set to 2 and 3, both transmitted, is rejected and makes the decoder drop its table |
| TelemetrySession.NoFormatRejected | xbus/telemetry/TelemetryDecoder.cpp:188-222 | The first packet of an encoder with one field whose format has no size, transmitted unless the unset word it is compared with happens to be the enforced one, is rejected and makes the decoder drop its table |
| TelemetryAnyBytes.OpenCodeExact | xbus/telemetry/TelemetryDecoder.cpp:155-186 | Whatever the bytes, a distance is taken if and only if its pieces are complete and, in sixteen bits, it is at least seven and leads to a slot; the cursor then is exactly there |
| TelemetryAnyBytes.AcceptedWrites | xbus/telemetry/TelemetryDecoder.cpp:120-265 | Whatever the bytes, a stream that is accepted writes exactly as many slots as its first byte says, none of them a bitfield, and otherwise nothing but flags; it counts as an update unless it is the single byte zero |
| TelemetryAnyBytes.NoValues | xbus/telemetry/TelemetryDecoder.cpp:29-91 | A packet without values, or too short to be one, updates nothing |
| TelemetryAnyBytes.FormatAccepted | xbus/telemetry/TelemetryDecoder.cpp:289-353 | Whatever the bytes, a format message is accepted if and only if its version and size are right, it carries the hash in use or is part 0, and its block fits: of the announced size, or at the end at most that and whole fields, inside the table; then it writes this block and nothing else |
| TelemetryAnyBytes.AnnouncedParts | xbus/telemetry/TelemetryEncoder.cpp:416-442 | A format message carries a block if and only if its part number is below the count in its own header |
| Cobs.StuffLength | xbus/serial/CobsEncoder.h:113-139 | n bytes take at most n + ceil(n / 254) bytes, exactly that many without zero bytes |
| Cobs.EncodedShape | xbus/serial/CobsEncoder.h:42-99 | The bound with the delimiter, reached exactly when payload and checksum have no zero byte, and that the delimiter is the only zero byte |
| Cobs.WorstEncoded | xbus/serial/CobsEncoder.h:113-139 | For every length there is a payload whose checksum has no zero byte either, so that the bound is reached |
| Cobs.RunAppend | xbus/serial/CobsDecoder.h:41-90 | Cutting the input anywhere makes no difference to state and events |
| Cobs.Unstuff | xbus/serial/CobsDecoder.h:73-90 | Reading stuffed bytes restores them, zeros included, without an event |
| Cobs.FinishExact | xbus/serial/CobsDecoder.h:43-72 | A delimiter delivers x if and only if the packet is complete and is x, not empty, followed by its own checksum |
| Cobs.PacketExact | xbus/serial/CobsDecoder.h:41-90 | Between two delimiters the decoder delivers x and nothing else if and only if the bytes are whole blocks that stand for x within the packet size and its own checksum |
| Cobs.DeliveredExact | xbus/serial/CobsDecoder.h:41-90 | Whatever is on the line, every packet delivered is there as such blocks with a delimiter behind them, after bytes that leave the decoder restarted |
| Cobs.PacketDelivered | xbus/serial/CobsDecoder.h:41-72 | Every payload of 1 byte up to the packet size is delivered once, at the delimiter |
| Cobs.DelimiterRestarts | xbus/serial/CobsDecoder.h:43-72 | From any state a delimiter restarts the decoder and is reported |
| Cobs.Synchronises | xbus/serial/CobsDecoder.h:41-90 | Behind the next delimiter every packet is delivered in order, whatever came before |
| Cobs.TakeIsRun | xbus/serial/CobsDecoder.h:35-97 | One call stops behind the first packet or takes everything and reports the last failure |
| Cobs.DrainAllIsRun | xbus/serial/CobsDecoder.h:35-97 | Calling decode on chunks, repeated after each packet, yields the packets of the joined bytes |
| Cobs.LineDelivered | xbus/serial/CobsDecoder.h:35-97 | Packets back to back behind any garbage and a delimiter, in any chunks: exactly the payloads in order |
| Cobs.HandedOut | xbus/serial/CobsDecoder.h:35-97 | Whatever is on the line and however it is cut, every payload that a fresh decoder hands out was there with its own checksum |
| Cobs.ChunkedPacket | xbus/serial/CobsDecoder.h:35-97 | One packet in any chunks, empty ones included: PacketAvailable exactly on the chunk with the delimiter, no error on any other, every chunk fully used |
| CobsCodec.AlwaysFits | xbus/serial/CobsEncoder.h:113-139 | The declared buffer holds the encoding of every payload up to the packet size |
| CobsCodec.BufferFilled | xbus/serial/CobsEncoder.h:113-139 | For every packet size some payload of that size fills the buffer to its last byte |
| CobsCodec.Encoder.Append | xbus/serial/CobsEncoder.h:52-89 | The back-patching loop keeps the promised encoding and stays inside the buffer |
| CobsCodec.Encoder.Encode | xbus/serial/CobsEncoder.h:42-99 | The buffer holds the encoding of payload and checksum, and its length is returned |
| CobsCodec.Decoder.WriteDecodedByte | xbus/serial/CobsDecoder.h:143-154 | A byte is appended unless the buffer is full |
| CobsCodec.Decoder.EndOfPacket | xbus/serial/CobsDecoder.h:43-72 | A delimiter: error, bad checksum, or the packet left in the buffer; always a restart |
| CobsCodec.Decoder.Decode | xbus/serial/CobsDecoder.h:35-97 | The loop over a chunk is Decode on the state: bytes used, status and packet |
| Samples.ElevenBytes | xbus/can/CanCodec.cpp:108-175 | Packet 01 00 01 .. 09 is sent as a start frame 01 .. 08 and an end frame 09 D3 FB of three bytes |
| Samples.ElevenRejected | xbus/can/CanCodec.cpp:64-75 | With another last byte it does not pass the test |
| Samples.OneByteOnTheLine | xbus/serial/CobsEncoder.h:42-99 | Payload 01 is 04 01 CC C0 00 on the line |
| Samples.ChangedOnTheLine | xbus/serial/CobsDecoder.h:60-65 | 04 02 CC C0 00 is reported as a checksum error |
| Samples.TwoHashes | xbus/telemetry/TelemetryEncoder.cpp:282-291 | The images and hashes of a table with one field as 32-bit integer and as float |
| Samples.FieldImage | xbus/XbusPacket.h:79-82 | Where uid, priority and sequence are in the image of a field |
| Samples.FiveFieldsPacket | xbus/telemetry/TelemetryEncoder.cpp:293-414 | A value packet with a byte, an unchanged word, two four-bit values and a bit: 03 0D 11 65 01 |
| MatrixLu.Matrix.Mult | mandala/backport/MatrixMath.h:390-404 | Each entry is the sum of products of row and column |
| MatrixLu.Matrix.Eye | mandala/backport/MatrixMath.h:543-549 | The scaled identity |
| MatrixLu.Matrix.Eliminate | mandala/backport/MatrixMath.h:605-612 | In place: factors below the diagonal, remainders on and above it |
| MatrixLu.Matrix.LU | mandala/backport/MatrixMath.h:602-621 | If no pivot is zero, a unit lower and an upper triangular matrix whose product is the matrix before the call, for every n |
| MatrixLu.RestIsRemainder | mandala/backport/MatrixMath.h:605-612 | After k pivots an entry is the original one less the first k terms of the product of the factors |
| MatrixLu.FactorsMultiply | mandala/backport/MatrixMath.h:602-621 | The factors multiply back to the matrix |
| MatrixLu.FactorisationUnique | mandala/backport/MatrixMath.h:602-621 | Any such factorisation is the one elimination computes |
| MatrixLu.PivotsExact | mandala/backport/MatrixMath.h:605-608 | No pivot is zero if and only if the matrix has such a factorisation |
| Half.RoundsToNearest | xbus/telemetry/TelemetryValuePack.h:118-168 | Every non-zero number that is not NaN goes to the nearest half, ties away from zero, sign kept, too large ones to infinity |
| Half.NothingElse | xbus/telemetry/TelemetryValuePack.h:121-129 | Zeros of both signs and NaN become plain zero |
| Half.BetweenIsRounded | xbus/telemetry/TelemetryValuePack.h:151-163 | The midpoint test of the code is rounding to nearest, ties away from zero |
| Half.Monotone | xbus/telemetry/TelemetryValuePack.h:118-168 | The conversion keeps the order of all numbers, infinities included |
| Half.WidenedExactly | xbus/telemetry/TelemetryValueUnpack.h:55-97 | Every half that is not NaN is widened without loss, denormals included |
| Half.PackedAgain | xbus/telemetry/TelemetryValueUnpack.h:55-97 | Packing after unpacking gives the same code if and only if it is neither NaN nor minus zero |
| Half.Normalise | xbus/telemetry/TelemetryValueUnpack.h:71-75 | The normalising loop ends with the mantissa's leading bit in the hidden place, after exactly the counted shifts |
| Half.FloatFromF16 | xbus/telemetry/TelemetryValueUnpack.h:55-97 | The method computes the widening function |
| Checksums.Crc16 | crc/sw/crc_sw.c:69-83 | Bitwise division by the polynomial, highest bit first |
| Checksums.CcittByte | crc/sw/crc_sw.c:60-64 | The branch-free byte step is eight bit steps with 0x1021 |
| Checksums.Crc16Ccitt | crc/sw/crc_sw.c:57-67 | Equal to CRC_16 with 0x1021 for every buffer and seed |
| Checksums.OneByteErrorDetected | crc/sw/crc_sw.c:69-83 | With an odd polynomial two buffers that differ in one byte never share a checksum |
| Checksums.Crc8With8C | crc/sw/crc_sw.c:21-33 | Reflected division by 0x8C, bit by bit |
| Checksums.Crc8 | crc/sw/crc_sw.c:35-48 | For every polynomial the same reflected division; with 0x8C equal to CRC_8_8C |
| Checksums.IbmTable | crc/sw/crc_sw.c:4 | Each of the 256 table entries is eight reflected bit steps with 0xA001 on its index |
| Checksums.UpperPasses | crc/sw/crc_sw.c:10 | The upper byte passes through eight bit steps unchanged |
| Checksums.Crc16Ibm | crc/sw/crc_sw.c:6-12 | The table loop equals the reflected bit loop with 0xA001 for every buffer and seed |

## Left out

- The pending part of the encoder's table (`update(..., sync=true)`, `sync_flush`): the pending entry is written one
  past the range that is searched and flushed, so no invariant over it holds as written. `update` on a known slot only
  stores a value and sets a mark; the model takes marks and values as they are.
- Transponder streams (`encode_xpdr`, `decode_xpdr`): fixed lists of scalar values; only the index table that `add`
  keeps for them is modelled.
- Packing and unpacking of scalar formats other than binary16: a packed value is a block of the format's size, and an
  unpacked one is known by format and block. The bytes that `pack_value` leaves unset are an arbitrary parameter
  (`stack`), so which slots count as changed is arbitrary. Type tags of values and the `dt_ms` output are not kept.
- Capacity of the output streams of the telemetry encoder: the stream is assumed to have room, as the packet size
  limits of the callers provide.
- TelemetryEncoder.Encoder.EncodeValues: the count byte, which the source keeps incrementing in the buffer, is put in
  front of the stream at the end.
- Timestamps are unbounded; wrapping of the 64-bit millisecond counter is not modelled.
- The raw 29-bit CAN identifier: modelled by its fields, with the mask that ignores the frame number as equality of
  the rest. `memset` of released items and the unused upper bits are not modelled.
- CanCodec.Codec.SendMessage: the driver is a list of sent frames and a number of frames it accepts; `lock_push`,
  `accept_filter`, `updateNodeId` and `sendAddressing` are virtual hooks and are not modelled, nor is the test for the
  node's own address in `push_message`.
- CanCodec.Codec.constructor: takes a pool that is already initialised, since the source's constructor does not call
  `Pool::init`.
- TelemetryTransfer.TransferableExact: not for a decoder that already has a table of the same size under the same hash,
  which is this very table or one with the same CRC-32.
- MatrixLu.Matrix.LU: over exact reals, without rounding, overflow or the NaN checks of the debug build.
- Half: masks and shifts are written as quotients and remainders of the bit patterns.
- `CRC_16_CCITT_QT`, `CRC_8XOR`, `CRC_SUM`, `CRC_32` in crc/sw/crc_sw.c; the CAN and serial variants V9 and EscV9; the TCP
  transport; navigation, trigonometry and filters of the backport.
