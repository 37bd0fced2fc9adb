# libtrace: the sorted combiner and the WAG trace reader, in Dafny

This project models two pieces of libtrace, the packet-trace library, and
proves properties of the model.

- **The sorted combiner** (`combiner_sorted.dfy`). It is the result combiner
  that buffers every result a per-packet thread publishes, one queue per
  thread. When the trace ends, it merges the queues, sorts them by key and
  delivers everything except tick results to the reporter. A pause makes
  every buffered result safe, meaning it no longer points into the trace's
  packet buffers.
  - The combiner is a class `SortedCombiner` over an `array<seq<Result>>`,
    one queue per thread.
  - Delivery to the reporter is the `sent` sequence that `ReadFinal` returns.
  - Results, their types and the "make safe" operation are in `results.dfy`.
- **The WAG trace format** (`format_wag.dfy`). It covers:
  - the decision procedure of `wtf_read_packet`, which reads one frame from
    a WAG trace file, checks its magic number and size, and points the
    packet's header and payload into its buffer;
  - the magic check of `wag_read`;
  - the accessors for direction, ERF timestamp, capture, wire and framing
    length;
  - `wtf_config_output`;
  - the return value of `wtf_write_packet`, which is a finding.

  Two pieces are modelled in steps:
  - The trace file is a `TraceFile` object whose unread bytes are consumed
    from the front.
  - The packet is a `Packet` object whose buffer is an `array<uint8>`.

  Which outcome a read has is specified by the function `ReadFrame` on the
  unread bytes. `WtfReadPacket` is proved to follow it.
- `uints.dfy` has the fixed-width integer types and the truncation to
  `int8`.

The frame header layout is an assumption. `frame_t` and `frame_data_rx_t`
are declared in a header that is not part of this model. The model takes:

| field | bytes | encoding |
|---|---|---|
| magic | 0-1 | big-endian |
| size | 2-3 | big-endian |

It also takes these sizes and constants:
- `sizeof(frame_t)` is 8;
- `sizeof(frame_data_rx_t)`, the framing length, is 24;
- `LIBTRACE_PACKET_BUFSIZE` is 65536.

A short read of the header or body counts as an I/O error. The error code
comes from `errno`, so it is one constructor, `IoError`.

The final sort is `qsort`, which promises no order among equal keys. So the
model promises only a key-sorted permutation:
- `ReadFinal` promises only a key-sorted permutation of the buffered
  non-tick results;
- `SortByKey` is one admissible order;
- `SortedPermutationUnique` shows that the order is fully determined when
  all keys are distinct.

## Model

| member | source | states |
|---|---|---|
| CombinerSorted.SortedCombiner.constructor | lib/combiner_sorted.c:7-17 | needs at least one thread; creates one empty queue per thread |
| CombinerSorted.SortedCombiner.Publish | lib/combiner_sorted.c:19-22 | appends the result to the publishing thread's queue; every other queue is unchanged |
| CombinerSorted.SortedCombiner.Read | lib/combiner_sorted.c:24-26 | an intermediate read delivers nothing and changes no queue |
| CombinerSorted.CompareResult | lib/combiner_sorted.c:28-38 | returns -1, 0 or 1 exactly when the first key is below, equal to or above the second |
| CombinerSorted.CompareResultIsTotalPreorder | lib/combiner_sorted.c:28-38 | the comparator's order is reflexive, total and transitive, and it is antisymmetric on keys, as qsort needs |
| CombinerSorted.SortedCombiner.Pause | lib/combiner_sorted.c:40-46 | every queue keeps its length and order, and each result in it is replaced by its safe copy |
| Results.MakeSafe | lib/combiner_sorted.c:44 | the safe copy keeps key and type, owns its packet, and leaves an already-safe result unchanged |
| CombinerSorted.MapSafeKeepsKeysAndTypes | lib/combiner_sorted.c:44 | making a queue safe keeps each position's key and type, makes every result safe, and doing it twice is the same as once |
| CombinerSorted.PauseKeepsDeliverable | lib/combiner_sorted.c:40-73 | a pause before the final read changes the delivered results only by making each one safe |
| CombinerSorted.SortedCombiner.AppendOntoFirst | lib/combiner_sorted.c:52-56 | queue 0 becomes all queues concatenated in thread order, and the others are drained |
| CombinerSorted.SortByKey | lib/combiner_sorted.c:57-58 | the sorted queue is ordered by key and is a permutation of its input |
| CombinerSorted.DeliverNonTicks | lib/combiner_sorted.c:60-71 | the loop delivers, in order, exactly the results that are not tick-interval or tick-count results |
| CombinerSorted.NonTicksCounts | lib/combiner_sorted.c:60-71 | a non-tick result is delivered as many times as it was queued, and a tick never |
| CombinerSorted.NonTicksSorted | lib/combiner_sorted.c:57-71 | skipping ticks keeps a key-sorted queue sorted |
| CombinerSorted.NonTicksPermutation | lib/combiner_sorted.c:57-71 | permuting the queue permutes the delivered results the same way |
| CombinerSorted.FinalDelivery | lib/combiner_sorted.c:57-71 | sorting and then skipping ticks gives a key-sorted sequence holding each non-tick result as often as the queue did, and no tick |
| CombinerSorted.SortedCombiner.ReadFinal | lib/combiner_sorted.c:48-73 | delivers a key-sorted sequence that holds every buffered non-tick result as often as it was published and no tick; every queue is empty afterwards |
| CombinerSorted.SortedPermutationUnique | lib/combiner_sorted.c:57-58 | two key-sorted permutations of the same results with distinct keys are equal, so then the sort fixes the delivery order |
| CombinerSorted.DistinctKeysDeliveredStrictly | lib/combiner_sorted.c:48-73 | when the published results have distinct keys, the delivered keys are strictly increasing |
| CombinerSorted.NoTicksMeansPermutation | lib/combiner_sorted.c:60-71 | when nothing published is a tick, the delivery is a permutation of everything published |
| CombinerSorted.SortedCombiner.Destroy | lib/combiner_sorted.c:75-85 | may only be called once every queue is empty; the combiner is then released |
| CombinerSorted.PauseResumeScenario | lib/combiner_sorted.c:19-85 | with one worker thread that publishes 5, 3 and 8, then a pause, then 12, the final read delivers keys 3, 5, 8, 12 |
| FormatWag.ReadFrame | lib/format_wag.c:300-334 | the unread bytes are always a suffix of the input; a frame read is the input's prefix of the header's size, fits the packet buffer, and carries the magic |
| FormatWag.ReadFrameEndOfTrace | lib/format_wag.c:300-304 | the read returns 0, meaning end of trace, exactly when no header byte is left |
| FormatWag.ReadFrameShortHeader | lib/format_wag.c:306-312 | a partial header is an I/O error |
| FormatWag.ReadFrameBadMagic | lib/format_wag.c:314-318 | a full header without magic 0xdaa1 is a bad packet, and no body byte is consumed |
| FormatWag.ReadFrameSuccess | lib/format_wag.c:300-334 | a frame is read exactly when the header is whole, has the magic, is not undersized and the body is all there; the read then returns the frame size |
| FormatWag.ReadFrameRoundTrip | lib/format_wag.c:300-334 | an encoded header and body followed by any bytes reads back as exactly that frame, leaving the rest |
| FormatWag.ReadFrameReturnCodes | lib/format_wag.c:300-334 | the read returns 0, -1 or the frame size of a frame that fits the buffer |
| FormatWag.TraceFile.Read | lib/format_wag.c:300 | a read copies the next min(count, bytes left) bytes into the buffer at the offset, changes no other buffer byte, and consumes them |
| FormatWag.EnsureOwnBuffer | lib/format_wag.c:293-296 | an external or missing buffer is replaced by a fresh packet-owned buffer of the packet buffer size; an owned one is kept |
| FormatWag.ReadHeader | lib/format_wag.c:300-320 | the header read consumes up to 8 bytes into the buffer start; when all 8 arrive, magic and size are their first two big-endian fields |
| FormatWag.ReadBody | lib/format_wag.c:320-330 | the body read succeeds exactly when the whole body is left; it then lies behind the unchanged header and is consumed |
| FormatWag.ReadFrameInto | lib/format_wag.c:298-334 | reading into an owned buffer returns what `ReadFrame` decides, consumes the same bytes, and sets header and payload only on success |
| FormatWag.WtfReadPacket | lib/format_wag.c:286-336 | returns what `ReadFrame` decides and consumes the same bytes; on success the frame is at the start of the buffer, the header points at it and the payload at the framing length; on failure header and payload are unchanged |
| FormatWag.WagCheckHeader | lib/format_wag.c:231-238 | accepts a header exactly when its magic is 0xdaa1, and then yields its size field |
| FormatWag.BadMagicRejectedByBothReaders | lib/format_wag.c:234-238 | a header that fails the magic check of the device reader is rejected as a bad packet by the file reader too |
| FormatWag.Direction | lib/format_wag.c:369-375 | a frame of type 0 gives its subtype truncated to int8, and any other type gives -1 |
| FormatWag.DirectionOfSmallSubtype | lib/format_wag.c:369-375 | for a type-0 frame with a subtype below 128 the direction is the subtype itself, so it is never -1 |
| FormatWag.ErfTimestamp | lib/format_wag.c:377-382 | the upper 32 bits of the timestamp are the seconds and the lower 32 bits the sub-seconds |
| FormatWag.ErfTimestampRoundTrip | lib/format_wag.c:377-382 | splitting the timestamp gives back the frame's seconds and sub-seconds, and only that pair gives the timestamp |
| FormatWag.ErfTimestampOrder | lib/format_wag.c:377-382 | timestamps compare as (seconds, sub-seconds) pairs in lexicographic order |
| FormatWag.CaptureLength | lib/format_wag.c:384-387 | the capture length is the header's size field, so never above the packet buffer size |
| FormatWag.WireLength | lib/format_wag.c:389-392 | the wire length is the header's size field, so never above the packet buffer size |
| FormatWag.GetFramingLength | lib/format_wag.c:394-396 | the framing length is the size of the receive-frame header, whatever the frame |
| FormatWag.CaptureEqualsWire | lib/format_wag.c:384-392 | capture and wire length agree on every frame |
| FormatWag.CaptureLengthIsFrameSize | lib/format_wag.c:320-334 | for a buffer that starts with the frame just read, as `WtfReadPacket` leaves it, the capture and wire length decoded from that buffer equal the number of bytes the read returned |
| FormatWag.ConfigStatus | lib/format_wag.c:154-177 | the compress option is accepted exactly when zlib is available; otherwise it is rejected as unavailable, and any other option as unknown |
| FormatWag.WagOutput.constructor | lib/format_wag.c:134-142 | a new output has compression level 0, the create and write-only file mode, and no recorded error |
| FormatWag.WagOutput.ConfigOutput | lib/format_wag.c:154-177 | with zlib, the compress option stores the level and returns 0; otherwise it returns -1 and records the error, and the level is unchanged |
| FormatWag.WritePacketAsWrittenReturnsZero | lib/format_wag.c:338-363 | as written, a successful write of a frame returns 0 whatever was written |
| FormatWag.WritePacketAsWritten | lib/format_wag.c:338-363 | -1 with NoConversion on a format mismatch; -1 with IoError when either write returns -1; otherwise 0 |
| FormatWag.WritePacket | lib/format_wag.c:338-363 | the corrected write: it fails on exactly the source's failure inputs, and otherwise returns the payload byte count the second write reports, where the source returns 0 |
| FormatWag.WritePacketReturnsBytes | lib/format_wag.c:338-363 | the corrected write returns the payload bytes on success and fails on exactly the same inputs as the code as written |
| FormatWag.UndersizedFrameOverrunsBuffer | lib/format_wag.c:320-326 | as written, a size field below the header size passes the buffer-size assertion, and the body read is asked for more bytes than the buffer holds |
| FormatWag.ReadFrameStaysInBuffer | lib/format_wag.c:320-334 | with the undersized check, a frame that is read always has a body that fits the buffer behind its header |

## Left out

- Opening, closing and finishing files and devices is not modelled: `wtf_start_input`, `wtf_start_output`, the `fin` and `pause` functions and compression streams are all I/O.
- The retry loops of `wag_read` (`EINTR`/`EAGAIN`), its body read and `wag_read_packet` are not modelled; only the magic-number decision is. These are device I/O.
- The `assert(framesize>len)` in `wag_read` (lib/format_wag.c:241) is not modelled. It compares against the caller's buffer length in the opposite direction to what the comment means. The model does not guess between the two readings.
- A read that returns -1 from the I/O layer and the `printf` diagnostic on a short header are left out; all short reads are one `IoError`.
- `errno` values and the error message texts are left out; errors are `TraceErr` constructors.
- Format registration, help text, `wag_get_link_type` and `wag_get_fd` are left out; each is a constant or a descriptor lookup.
- Thread safety of `publish` is not modelled. Each thread owns its queue, and the calls are sequential here.
- `send_message` is modelled as appending to the `sent` sequence.
- `libtrace_make_result_safe` and the vector library are not part of this model. Results are functional values, and "safe" means the result owns its packet.
- CombinerSorted.SortedCombiner.ReadFinal: does not fix the order of results with equal keys, because `qsort` does not either.
- FormatWag.ReadFrame: a size field below 8 is rejected as `BadPacket` once the header is read, where the source computes a negative body length and reads on (see Findings); `ReadFrameInto` and `WtfReadPacket` follow this branch.
- FormatWag.WtfReadPacket: does not state the buffer contents after a failed read, because the source leaves them partly written.
- FormatWag.WagOutput.ConfigOutput: a compression level outside 0..9 is a precondition, because the source asserts it rather than reporting an error.
- FormatWag.Direction: `type` and `subtype` are taken as already-decoded values; the source reads them raw and does not byte-swap them.
- FormatWag.ErfTimestamp: is stated arithmetically as seconds times 2^32 plus sub-seconds. The equivalence with the source's 64-bit shift-and-or is not proved.
- The frame layout and the constants 8, 24 and 65536 are assumptions, because the headers that define them are not part of this model.
- The ordered and unordered combiners, the trace state machine and the test programs are not part of this model.

## Findings

| source | as written | input that shows it | evidently intended | confidence | as-written member | corrected member |
|---|---|---|---|---|---|---|
| lib/format_wag.c:356-357 | the parenthesis closes after `== -1`, so `numbytes` is assigned the comparison result, which is 0 on success | any successful write, e.g. a 100-byte payload: the call returns 0 | return the number of payload bytes written | not executed; high | FormatWag.WritePacketAsWrittenReturnsZero | FormatWag.WritePacketReturnsBytes |
| lib/format_wag.c:320-326 | no check that the size field is at least `sizeof(frame_t)`; a negative `size` passes `assert(size < LIBTRACE_PACKET_BUFSIZE)` | a header with magic 0xdaa1 and size 0: the body count is -8 and becomes 2^64-8 as a `size_t` | reject an undersized frame as a bad packet | not executed; medium (assumes the read takes a `size_t` count) | FormatWag.UndersizedFrameOverrunsBuffer | FormatWag.ReadFrameStaysInBuffer |
