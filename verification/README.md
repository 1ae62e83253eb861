# Byte-stream components of the RTP benchmark suite

The benchmark suite measures RTP libraries by sending prepared video files and rebuilding them at
the other end. This project models the parts of it that have to get every byte right, and proves
what they promise.

* **Annex B scanning** (Annex B, section B.2, of Rec. ITU-T H.265). `StartCode` is the
  word-at-a-time start-code search and its zero-byte test, `NalIterator` the stateful NAL unit
  iterator over a file, `FrameStart` the second, zero-counting scanner with the chunk splitter on
  top of it.
* **Chunk delivery.** `FramedSource` is the Live555 source that takes length-prefixed chunks apart
  into NAL units and NAL units into segments of at most 1444 bytes.
* **V3C sample streams** (section 8.3.2.2 and Annexes C and D of ISO/IEC 23090-5). `V3cHeader` is
  the bit-packed unit header, `V3cMapper` the nested length-prefixed parser, `V3cWriter` the unit
  and GoP printer, `V3cReceiver` the receive-side state machine. `SampleStream` states the format
  itself, independently of parser and printer; `SampleTiling`, `V3cCodec`, `V3cFile` and
  `V3cDelivery` relate the pieces, up to the end-to-end theorem. `VpccSender` walks the mapped
  units and counts bytes and frames, and `V3cLoop` closes the loop from file to file.
* **Index file and pacing.** `ChunkIndex` writes a stream file and its index of frame sizes and
  reads the index back, `StreamSender` cuts the stream file by the index and paces the frames.

`Bytes` holds byte strings, spans and fixed-width integers; `V3cTypes` holds the V3C records.

Loops and updated objects are methods and classes, each tied by its `ensures` to a function of its
input or of the old state; the theorems are about those functions. Bytes that the programs write
to a socket, a file or a caller's buffer are appended to a log. A file in memory is a byte
sequence that reads as zero past its end; the word loop of the scanner is the exception: there
every access is proved to lie inside the buffer.

Main results, hardest first:

* `V3cLoop.AroundTheLoop`: exactly which files, mapped, sent, received in any interleaving and
  rebuilt, are the same files again, byte for byte.
* `V3cDelivery.EndToEnd`: frames received in any interleaving, rebuilt GoP by GoP into one file
  and mapped again, come back as the same frames in the same units.
* `V3cFile.FileRoundTrip`, `V3cCodec.UnitRoundTrip`, `V3cHeader.HeaderRoundTrip`: a printed file,
  unit or header is parsed back; the unit exactly when it is within the size bounds, the header
  exactly when its fields are representable. `V3cHeader.HeaderRewritten` is the other direction.
* `SampleTiling.MapIsComplete`: exactly when all units of a well-formed file are in its map.
* `FrameStart.SplittersAgree`: the two independent splitters give the same NAL units on every
  well-formed stream, although one of them counts zeros in a byte that wraps.
* `FrameStart.SplitCovers`: exactly which chunks that splitter takes apart cleanly.
* `NalIterator.Tiling` and `NalIterator.RoundTrip`: nothing is lost or invented on any buffer, and
  what was written is read back. `NalIterator.DeliveredWhole`: exactly which files are sent whole.
* `StartCode.FindStartCodeInternal`: the three-phase word search is the naive search.
* `FramedSource.DeliveredExactly`: exactly which chunks the Live555 source delivers unchanged.
* `StreamSender.IndexRoundTrip`, `StreamSender.ClosedForm`: index-file round trip, pacing schedule.

## Where the code differs from what it seems to promise

* The printer shifts bit 6 of an attribute index out (`uvgrtp/v3c_util.cc:410`), and the parser
  leaves the two high bits of a partition index in the low places (`uvgrtp/v3c_util.cc:221`). The
  exact conditions for a header to come back are `V3cHeader.Representable` and, for the bytes of a
  mapped header, `V3cHeader.Rewritable`.
* A unit's parameter-set id is its number modulo 256 when it is received and modulo 16 when it is
  written, so ids repeat (`V3cReceiver.FrameSlot`, `V3cDelivery.EndToEnd`).
* `mmap_v3c_file` returns `EXIT_FAILURE` from a function of type bool on both of its error paths,
  which is `true`: the result does not tell that units are missing (`V3cMapper.MmapV3cFile`). They
  are missing after an unsupported precision, and because units of reserved types are stored in no
  list; `SampleTiling.MapIsComplete` has the exact condition. `SampleTiling.SilentFailure` and
  `SampleTiling.ReservedTypeIsDropped` are files of which nothing is stored.
* `sendFrame` does not clear `c_nal_` at the end of a chunk. The last segment of every chunk but
  the last is sent twice, unless the chunk is empty or ends in a start code
  (`FramedSource.DeliveredExactly`, `FramedSource.OnlyOneChunkIsExact`).
* The zero counter of `get_next_frame_start` wraps at 256, so a start code behind 256 zeros is
  missed (`FrameStart.FindsTrueStart`, `FrameStart.SplitCovers`, `FrameStart.WrapMissesStartCode`).
* `find_next_nal` returns an empty NAL unit between adjacent start codes, and `deliverFrame` takes
  it for the end of the file: a file is sent whole if and only if no start code has another one
  right behind it (`NalIterator.DeliveredWhole`, `NalIterator.EmptyNalStopsDelivery`).
* `copy_rtp_payload` never marks a unit ready when `max_size` is 0, and keeps only the first frame
  of each stream (`V3cReceiver.ZeroSizeNeverReady`, `V3cReceiver.ZeroSizeKeepsOne`).

## Model

| member | source | states |
|---|---|---|
| StartCode.ZeroTestExact | live555/source.cc:40 | the subtract-and-mask test of a 32-bit word is true if and only if one of its four bytes is zero |
| StartCode.TestWord | live555/source.cc:37-40 | the loaded word's test; when it fails, the bytes at p+1 and p+3 are not zero |
| StartCode.ScanBytes | live555/source.cc:31-34 | the byte loop: stops at the first start code, or at its bound with none before it |
| StartCode.ScanWords | live555/source.cc:36-54 | the word loop: loads are aligned and inside the buffer, the zero-byte test hides no start code, and the loop stops at the first one or with none before its end |
| StartCode.FindStartCodeInternal | live555/source.cc:27-62 | returns the least q from the start on with 00 00 01 at q and q before end-3, or end if there is none, for every buffer, range and address alignment; all reads are in the buffer |
| StartCode.FindStartCode | live555/source.cc:64-69 | the same position, one byte earlier when a zero precedes it inside the range |
| NalIterator.NalReader.SkipCode | live555/source.cc:87-88 | moves the cursor past the zeros and the byte after them |
| NalIterator.NalReader.FindNextNal | live555/source.cc:71-99 | each call returns the next NAL unit of the file and adds its size to the running length; once nothing is left every call returns (0, null) and changes neither |
| NalIterator.NalReader.ReadAll | live555/source.cc:71-99 | repeated calls return exactly the NAL units of the file, and the running length ends as the sum of their sizes |
| NalIterator.NalReader.DeliverAll | live555/source.cc:143-155 | the delivery loop sends the NAL units before the first empty one and counts their bytes |
| NalIterator.SentPrefix | live555/source.cc:150-156 | what is sent is the longest prefix of the NAL units without an empty one |
| NalIterator.Tiling | live555/source.cc:64-99 | on every buffer: from the first boundary on it is start code, NAL unit, start code, NAL unit to the end, each code 00 00 01 or 00 00 00 01, no reportable start code inside a NAL unit, and none before the first boundary |
| NalIterator.TiledConserves | live555/source.cc:87-96 | code bytes and NAL unit bytes add up to the rest of the buffer, with three or four code bytes for each NAL unit |
| NalIterator.RoundTrip | live555/source.cc:64-99 | non-empty NAL units without 00 00 01 inside and 00 at the end, written with any mix of three- and four-byte start codes, are returned exactly, at their places and with their bytes |
| NalIterator.DeliveredWhole | live555/source.cc:143-155 | a file is sent whole if and only if no start code has another one, of either form and with a byte behind it, right behind it |
| NalIterator.WellFormedIsDelivered | live555/source.cc:143-155 | every well-formed stream is delivered to its end |
| NalIterator.EmptyNalStopsDelivery | live555/source.cc:150-156 | a concrete file whose adjacent start codes end the delivery before anything is sent |
| FrameStart.GetNextFrameStart | util/util.cc:101-121 | returns one past the first one-byte that follows at least two zeros by the wrapping count, with the count plus one as start-code length, or -1 with the length unchanged, also for an offset behind the data |
| FrameStart.FindsTrueStart | util/util.cc:101-121 | the scanner stops at the first true start code, also one at the very end, if and only if the zeros counted before its one are at least two modulo 256; without a start code it finds nothing |
| FrameStart.WrapMissesStartCode | util/util.cc:103-115 | 256 zeros and a one: a start code that the scanner misses |
| FrameStart.SplitIntoNals | util/live555_util.cc:35-55 | pushes a pointer and a length for each NAL unit of the chunk, in order, behind what is queued; lengths are never negative and the test for an offset above 4 never fails for a later hit |
| FrameStart.SplitCovers | util/live555_util.cc:35-55 | on every chunk: without a start code the chunk is one NAL unit; otherwise, from the first start code on it is NAL unit, separator, NAL unit to its end, each separator being all the zeros before a one and the one, and no start code in a NAL unit, if and only if the zeros before the first one are at least two modulo 256 and at most 254 zeros come before each later one |
| FrameStart.SeparatorExact | util/util.cc:107-113 | the reported length cuts off exactly the separator if and only if at most 254 zeros come before the one |
| FrameStart.SplitWithin | util/live555_util.cc:35-55 | on every chunk, wrapping counter included, at least one NAL unit is pushed and all of them lie in the chunk |
| FrameStart.LastOfSplit | util/live555_util.cc:51-54 | the last NAL unit pushed is empty if and only if the chunk is empty or ends in a one with at least two zeros before it modulo 256 |
| FrameStart.SplittersAgree | util/live555_util.cc:35-55 | on every well-formed stream the splitter and the file iterator give the same spans, if and only if the stream is not empty; no bound on zero runs |
| FramedSource.SegmentsConcat | util/live555_util.cc:95-134 | the segments of a NAL unit concatenate to it |
| FramedSource.SegmentsShape | util/live555_util.cc:95-134 | max(1, ceil(size / 1444)) segments, all but the last of exactly 1444 bytes and none longer |
| FramedSource.FramedSourceCustom.NextChunk | util/live555_util.cc:67-84 | takes the next chunk and splits it; what remains to be sent is unchanged |
| FramedSource.FramedSourceCustom.NextNal | util/live555_util.cc:86-93 | takes the next NAL unit; what remains to be sent is unchanged |
| FramedSource.FramedSourceCustom.SendSegment | util/live555_util.cc:95-134 | emits the first of the segments that remained and leaves exactly the others |
| FramedSource.FramedSourceCustom.SendFrame | util/live555_util.cc:57-135 | before start-up an empty frame and no change; after it one segment of at most 1444 bytes, the first of those that remained, leaving exactly the others |
| FramedSource.FramedSourceCustom.StartFramedSource | util/live555_util.cc:153-181 | the length-prefixed records, all of them or the first 3000, are queued as chunks, and their sizes summed |
| FramedSource.RecordBytes | util/live555_util.cc:169-178 | the file read at start-up is, record by record, eight little-endian bytes of size and that many bytes |
| FramedSource.FramedSourceCustom.PlayAll | util/live555_util.cc:57-135 | calls until the queue is empty emit exactly what remained to be sent |
| FramedSource.RunBytes | util/live555_util.cc:119-134 | a run sends the bytes of all NAL units and once more the last segment of each chunk but the last |
| FramedSource.DeliveredExactly | util/live555_util.cc:119-134 | the bytes sent are the NAL units of all chunks in order if and only if every chunk but the last is empty or ends in a one with at least two zeros before it modulo 256 |
| FramedSource.CallCount | util/live555_util.cc:57-135 | the calls that serve a chunk are the sum over its NAL units of max(1, ceil(size / 1444)) |
| FramedSource.OneChunk | util/live555_util.cc:57-135 | one well-formed chunk from a state without a NAL unit in hand: its NAL units in order, in exactly the stated number of calls |
| FramedSource.OnlyOneChunkIsExact | util/live555_util.cc:119-134 | on well-formed chunks delivery is exact if and only if there is at most one chunk |
| V3cTypes.FileMap.Store | uvgrtp/v3c_util.cc:133-152 | a unit goes to the end of the list of its type and to no other; unknown types are dropped |
| V3cHeader.HeaderRoundTrip | uvgrtp/v3c_util.cc:160-246 | parsing a printed header gives the same header if and only if its fields are representable: ids below 16 and 64, map index below 16, attribute index below 64, partition index below 8, unknown types from 7 to 31 |
| V3cHeader.HeaderRewritten | uvgrtp/v3c_util.cc:383-413 | printing a parsed header gives the same four bytes if and only if its reserved bits are zero and, on attribute units, the high bit of the attribute index and the two high bits of the partition index; a mapped attribute index of 64 or more is lost |
| V3cHeader.VpsFields | uvgrtp/v3c_util.cc:160-188 | a header is a parameter set's if and only if its first byte is below 8 |
| V3cHeader.AdFields | uvgrtp/v3c_util.cc:160-193 | first byte 8 to 15: parameter-set id from the low three bits of byte 0 and the top bit of byte 1, atlas id from the next six bits |
| V3cHeader.OvdFields | uvgrtp/v3c_util.cc:195-199 | the same two fields, for first bytes 16 to 23 |
| V3cHeader.GvdFields | uvgrtp/v3c_util.cc:201-211 | first byte 24 to 31: both ids, the map index from the last bit of byte 1 and the top three of byte 2, the flag from the next bit |
| V3cHeader.AvdFields | uvgrtp/v3c_util.cc:213-229 | first byte 32 to 39: both ids, attribute index, map index and flag as arithmetic on the bytes, and the partition index with its two high bits in the low places |
| V3cHeader.PvdFields | uvgrtp/v3c_util.cc:231-235 | the two ids, for first bytes 40 to 47 |
| V3cHeader.CadFields | uvgrtp/v3c_util.cc:237-240 | the parameter-set id alone, for first bytes 48 to 55 |
| V3cHeader.OtherFields | uvgrtp/v3c_util.cc:242-244 | first bytes from 56 on are unknown types, 7 to 31 |
| V3cHeader.WrittenIds | uvgrtp/v3c_util.cc:383-396 | the four bytes written for parameter sets, atlas, occupancy, packed video and common atlas units, as arithmetic on the ids |
| V3cHeader.WrittenGvd | uvgrtp/v3c_util.cc:398-403 | the four bytes written for a geometry header, as arithmetic on its fields |
| V3cHeader.WrittenAvd | uvgrtp/v3c_util.cc:404-413 | the four bytes written for an attribute header, as arithmetic on its fields; bit 6 of the attribute index is nowhere |
| V3cMapper.CombineBytes2 | uvgrtp/v3c_util.cc:16-19 | two bytes as a big-endian integer |
| V3cMapper.CombineBytes3 | uvgrtp/v3c_util.cc:10-14 | three bytes as a big-endian integer |
| V3cMapper.CombineBytes4 | uvgrtp/v3c_util.cc:3-8 | four bytes as a big-endian integer |
| V3cMapper.ReadUnitSize | uvgrtp/v3c_util.cc:45-58 | reads a unit size of either precision, as a sum of bytes and powers of 256 |
| V3cMapper.ReadNalSize | uvgrtp/v3c_util.cc:99-112 | reads a NAL unit size of any of the three precisions, as a sum of bytes and powers of 256 |
| V3cMapper.NalAreaIs | uvgrtp/v3c_util.cc:82-91 | by the type bits of the first byte: units of types 1 and 6 have a precision byte, whose top three bits plus one are the width of their sizes; NAL units begin behind it, and in all others behind the header with sizes of four bytes |
| V3cMapper.UnitFromBytes | uvgrtp/v3c_util.cc:61-130 | the unit found, from its type bits: a parameter set whole, an empty unit, a failure for a width below 2 or above 4, or the NAL units |
| V3cMapper.MapNalLoop | uvgrtp/v3c_util.cc:94-130 | lists location and size of each NAL unit up to the end of the unit, and fails if and only if there is one to read and the precision is not 2, 3 or 4 |
| V3cMapper.MapOneUnit | uvgrtp/v3c_util.cc:63-154 | stores exactly the unit found, or nothing when the NAL size precision is invalid |
| V3cMapper.MapNext | uvgrtp/v3c_util.cc:41-155 | one round of the outer loop gains at least two bytes and leaves the rest of the units to the later rounds |
| V3cMapper.MmapV3cFile | uvgrtp/v3c_util.cc:27-158 | terminates on every input, adds exactly the units found to the lists of their types, and returns true on every path |
| SampleStream.MapsUnit | uvgrtp/v3c_util.cc:61-154 | on a well-formed unit, at any offset, the mapper finds the header and every NAL unit at its place, or gives up exactly on an atlas unit with NAL units whose size precision is not two, three or four bytes |
| SampleStream.MapsFile | uvgrtp/v3c_util.cc:27-158 | on every well-formed file the mapper finds the units before the first unsupported one, each at its place, none at all when unit sizes do not take two or three bytes; nothing behind the file matters |
| SampleTiling.MapIsComplete | uvgrtp/v3c_util.cc:27-158 | all units of a well-formed file stand in the seven lists of the map if and only if there is no unit, or the first byte is from 32 to 95, every atlas unit with NAL units has a precision byte from 32 to 127, and no unit has a reserved type, 7 to 31 |
| SampleTiling.SilentFailure | uvgrtp/v3c_util.cc:55-58 | a well-formed file of one parameter set, with a unit size of one byte, of which nothing is mapped |
| SampleTiling.ReservedTypeIsDropped | uvgrtp/v3c_util.cc:133-152 | a well-formed file of one unit of reserved type 7: the unit is found and stored in no list |
| SampleTiling.FileTiled | uvgrtp/v3c_util.cc:40-155 | the units found in a well-formed file of supported precisions tile it from byte 1 to its end, and size fields, header, precision byte and NAL units tile each unit |
| SampleTiling.MapByType | uvgrtp/v3c_util.cc:27-158 | on every input each list of the map is the file-order subsequence of its type |
| SampleTiling.MapLists | uvgrtp/v3c_util.cc:133-152 | the seven lists by name: types 0 to 6 are parameter sets, atlas, occupancy, geometry, attribute, packed video and common atlas |
| V3cWriter.ConvertSizeBigEndian | uvgrtp/v3c_util.cc:21-25 | fills the buffer with the low bytes of the size, most significant first |
| V3cWriter.WriteSize | uvgrtp/v3c_util.cc:379-381 | writes a size field at the cursor, advances by its width and changes nothing else |
| V3cWriter.UnitSize | uvgrtp/v3c_util.cc:374-377 | the size field is 4 or, for AD and CAD, 5, plus the byte counter, plus the precision for each NAL unit, modulo 2^32 |
| V3cWriter.WriteHead | uvgrtp/v3c_util.cc:383-424 | writes header and, for atlas units, the precision byte |
| V3cWriter.WrittenHeadIs | uvgrtp/v3c_util.cc:416-424 | the four header bytes, then for AD and CAD one byte of 32 times the precision less one, and for no other unit |
| V3cWriter.WriteNals | uvgrtp/v3c_util.cc:427-442 | writes size and bytes of each NAL unit, in order |
| V3cWriter.CreateV3cUnit | uvgrtp/v3c_util.cc:368-444 | writes exactly the unit at the cursor, advances by its length and changes no other byte of the buffer |
| V3cWriter.GetGopSize | uvgrtp/v3c_util.cc:590-605 | the size of a GoP, or a failure exactly when one of the checked accesses throws |
| V3cWriter.GopSizeIs | uvgrtp/v3c_util.cc:598-603 | one for the stream header, three and the size of the parameter set, 8 and counter and 2 a NAL unit for atlas, 7 and counter and 4 a NAL unit for each of the others |
| V3cWriter.WriteVps | uvgrtp/v3c_util.cc:504-515 | writes the low 32 bits of the size of the first entry, big-endian in three bytes, and that many bytes of the last entry |
| V3cWriter.WriteGop | uvgrtp/v3c_util.cc:495-531 | writes the stream header if asked for and the five units of a GoP, in order |
| V3cWriter.GopStart | uvgrtp/v3c_util.cc:495-500 | a GoP with stream header is the byte 64 and then the GoP without it |
| V3cWriter.ReconstructV3cGop | uvgrtp/v3c_util.cc:446-534 | when all accesses succeed, writes exactly the GoP at the cursor, advances by its length and returns the GoP size, the first byte being 64 when the stream header is asked for; otherwise nothing is written; the units are not changed |
| V3cWriter.ExactSize | uvgrtp/v3c_util.cc:478-534 | the returned size is the number of bytes written if and only if the four byte counters and the size of the parameter set add up to the NAL unit sizes and the parameter-set size modulo 2^32 |
| V3cReceiver.InitMmap | uvgrtp/v3c_util.cc:342-366 | one empty unit in each of the four stream lists and nothing else |
| V3cReceiver.CopyRtpPayload | uvgrtp/v3c_util.cc:551-588 | updates the list of one stream by one arrival and leaves all other lists alone |
| V3cReceiver.RunIsCollected | uvgrtp/v3c_util.cc:551-588 | after any run, each stream's units are its frames cut into groups of max_size, with locations, byte counters, ready flags and ids as the grouping says |
| V3cReceiver.FrameSlot | uvgrtp/v3c_util.cc:551-588 | frame m is in unit m div max_size at slot m mod max_size, located at the sum of the sizes before it in that unit, and the parameter-set id in the header of unit j is j mod 256 |
| V3cReceiver.AllButLastFull | uvgrtp/v3c_util.cc:554-587 | after any run, every unit of a stream but the last is full, no unit is overfull, and the ready units are the full ones |
| V3cReceiver.ReadyExactly | uvgrtp/v3c_util.cc:536-549 | GoP i is ready if and only if its parameter set is there and every stream has delivered (i + 1) * max_size frames |
| V3cReceiver.InterleavingIsIrrelevant | uvgrtp/v3c_util.cc:551-588 | two runs with the same frames on each stream give the same file map, whatever the interleaving |
| V3cReceiver.ZeroSizeNeverReady | uvgrtp/v3c_util.cc:536-588 | with max_size 0 no run of arrivals makes any unit or any GoP ready |
| V3cReceiver.ZeroSizeKeepsOne | uvgrtp/v3c_util.cc:551-588 | with max_size 0 a stream keeps its empty first unit and the first frame alone in a second one; all later frames are dropped |
| V3cReceiver.ReadyGopStays | uvgrtp/v3c_util.cc:536-588 | a ready GoP stays ready, and no later arrival changes its units, its reported size or the bytes printed for it |
| V3cCodec.UnitRoundTrip | uvgrtp/v3c_util.cc:368-444 | mapping a printed unit at any offset ends at the end of the unit and gives NAL sizes, NAL bytes and header back if and only if the unit is shorter than 2^24 bytes and every NAL unit fits its size field; the header is then the same if and only if it is representable |
| V3cFile.WrittenFileIsStream | uvgrtp/v3c_util.cc:446-534 | GoPs printed one after the other, the stream header before the first only, are one well-formed file |
| V3cFile.FileStart | uvgrtp/v3c_util.cc:495-500 | the first byte of a rebuilt file is 64 |
| V3cFile.MappedInOrder | uvgrtp/v3c_util.cc:504-531 | a rebuilt file of g GoPs maps to 5 * g units, each GoP in the order VPS, AD, OVD, GVD, AVD |
| V3cFile.FileRoundTrip | uvgrtp/v3c_util.cc:27-158 | mapping a printed file gives, list by list, the units that were printed and nothing else |
| V3cFile.FileIsExact | uvgrtp/v3c_util.cc:590-605 | within the size bounds the reported sizes of the GoPs add up to the length of the file |
| V3cFile.AddGopSizes | uvgrtp/v3c_util.cc:590-605 | the sum of the sizes that get_gop_size reports, for any addressable GoPs |
| V3cFile.RebuildFile | uvgrtp/v3c_util.cc:446-534 | GoPs printed one after the other into a buffer of that size make the file, each byte of it, and fill the buffer exactly within the size bounds |
| V3cDelivery.RunIsWritable | uvgrtp/v3c_util.cc:536-588 | the ready GoPs of any run meet what the printer needs, byte counters included |
| V3cDelivery.EndToEnd | uvgrtp/v3c_util.cc:27-158 | frames received in any interleaving, with GoPs 0 to g-1 ready and inside the size bounds, rebuilt into a file and mapped again: unit i of each stream is exactly frames i * max_size to (i + 1) * max_size - 1 in order, its id i mod 16, and the parameter sets are those given |
| V3cLoop.AroundTheLoop | uvgrtp/v3c_util.cc:27-588 | a well-formed file is mapped, its streams are pushed, and the frames arrive in any interleaving: the receiver's GoPs are ready and, rebuilt, that file byte for byte, if and only if it is a sequence of GoPs whose units hold max_size NAL units each and have the headers, and the atlas units the precision byte, that the receiver writes |
| VpccSender.SendNal | uvgrtp/vpcc_sender.cc:177-204 | one NAL unit: pushed, its size counted, and the frame counter kept at the count of frame units (see FrameNalsAre) div 4 on geometry and attribute streams and div 1 on the others |
| VpccSender.FrameNalsAre | uvgrtp/vpcc_sender.cc:178-204 | a NAL unit counts towards a frame unless its first byte modulo 128 is from 64 to 69 or, on atlas streams, 72 or more |
| VpccSender.SenderFunc | uvgrtp/vpcc_sender.cc:150-215 | every NAL unit is pushed once in order, the byte total is the sum of the sizes, and the frame count is the number of frame units (see FrameNalsAre) div 4 on geometry and attribute streams and div 1 on the others |
| VpccSender.MappingConserves | uvgrtp/v3c_util.cc:27-158 | the length of a well-formed file of supported precisions is one byte, the overhead of units and NAL units, the bytes in the lists, and the bytes of units of unknown type |
| VpccSender.SendFile | uvgrtp/vpcc_sender.cc:176-215 | for a well-formed file of the five sent types, the four byte totals, the parameter sets and the overhead add up to the file length |
| ChunkIndex.StreamFiles.EncodeFrame | util/test_file_creation.cc:214-258 | a successful call with data appends the frame to the stream file and one record to the index; the other calls append nothing; for a list of chunks given by its data, all the bytes in order and their number in eight bytes; the result and the exit code of each case |
| ChunkIndex.FramesAre | util/test_file_creation.cc:239-255 | a list built from the data ds adds no frame if ds is empty and otherwise one frame, all the data in order; a failed call adds none |
| ChunkIndex.FilesOfCall | util/test_file_creation.cc:239-255 | what such a call leaves in the two files: the data, and the number of its bytes as one eight-byte little-endian record if there is any chunk |
| ChunkIndex.StreamFiles.WriteSize | util/test_file_creation.cc:240-245 | the first walk over the chunk list gives the frame's size modulo 2^64 |
| ChunkIndex.StreamFiles.WriteData | util/test_file_creation.cc:250-254 | the second walk appends all the bytes of the list, in order |
| ChunkIndex.StreamFiles.KvazaarEncode | util/test_file_creation.cc:137-190 | a run leaves the frames up to the first failure or the first empty flush, concatenated, and their index; exit code 0 if and only if nothing failed |
| ChunkIndex.RunFramesAre | util/test_file_creation.cc:140-187 | a run without a failure keeps the frames of all calls of both loops up to the first call of the flush that gives nothing |
| ChunkIndex.FailedRunFramesAre | util/test_file_creation.cc:140-167 | a run whose first loop fails keeps the frames before the failure and none after it |
| ChunkIndex.EveryChunk | util/test_file_creation.cc:250-254 | the stream file of some calls is the data of each of them, every chunk, in order |
| ChunkIndex.GetChunkSizes | util/util.cc:18-54 | appends the value of every whole eight-byte record and of no partial one; a file that cannot be opened appends nothing |
| ChunkIndex.IndexReadsBack | util/util.cc:40-51 | the index of some frames, with up to seven stray bytes behind it, reads back as their sizes modulo 2^64 |
| StreamSender.SlicesTile | uvgrtp/sender.cc:118-132 | the slices pushed have the sizes of the index and tile the stream file |
| StreamSender.IndexRoundTrip | uvgrtp/sender.cc:118-132 | the slices that the index leads to are the encoder's frames in order if and only if every size fits 64 bits |
| StreamSender.SenderThread | uvgrtp/sender.cc:110-147 | pushes the slices in order up to the first failing push, counts their bytes, starts every push when the schedule says, and reports the completion time |
| StreamSender.ClosedForm | uvgrtp/sender.cc:134-142 | the completion time is the one number that is both: the maximum over j of j periods and the costs after frame j |
| StreamSender.OnTime | uvgrtp/sender.cc:134-142 | the sender is on time if and only if every stretch of pushes up to there fits its periods |
| StreamSender.CatchesUp | uvgrtp/sender.cc:138-142 | while each push leaves some slack of its period, each frame takes at least that off the lateness until it is zero |
| StreamSender.RecordAndSend | uvgrtp/sender.cc:118-143 | recorded, indexed and sent, the frames pushed are the encoder's frames up to the first failing push, all of them if and only if none fails, and none before its time |

## Left out

- Sockets, sessions, SRTP and the RTP libraries: foreign code; a push or an encoder call is a parameter or a log entry.
- Memory mapping, opening files, command lines, printing and result files: no logic in them.
- Real clocks: times are natural numbers, a sleep is exact, and the floating-point computation of the period is a parameter.
- live555/latsource.cc and live555/latency_sender.cc: copies of the scanner and iterator of live555/source.cc.
- `sender_func` of uvgrtp/sender.cc: a shorter variant of the walk in uvgrtp/vpcc_sender.cc, and the waiting in the latter, which is the pacing of `sender_thread` again.
- `deliverFrame`: its sleeping and the cut to `fMaxSize` are not modelled, only which NAL units it takes.
- Heap management in `create_v3c_unit` and `copy_rtp_payload`: payloads are sequences; a payload freed by printing a GoP is not tracked, so printing the same GoP twice is outside the model.
- The latency programs, timeout threads, `udperf`, `ffmpeg/` and the Perl scripts: counters and process launching around foreign calls.
- V3cMapper.MmapV3cFile: reads past the end of the file read as zero in the model; in the program they are unchecked, so content is claimed for well-formed files only.
- V3cReceiver.CopyRtpPayload: the pointer to one of the four vectors is a stream selector on the file map.
- FramedSource.FramedSourceCustom.StartFramedSource: a file whose last record is cut short is excluded, since the program then queues a chunk that reaches past the mapped file, and so is a second start with chunks of another file still queued.
- FramedSource.FramedSourceCustom.SendFrame: `c_nal_` starts as null, which the constructor of the program does not ensure, and a call with no chunk left is excluded, since the program then reads the front of an empty queue.
- FrameStart.GetNextFrameStart: offsets are unbounded, so chunks of 2^31 bytes and more, whose offsets the program keeps in 32-bit integers, are outside the model.
- StreamSender.SenderThread: an index that leads past the mapped file is excluded; the program does not check for it.
- V3cFile.RebuildFile: requires that the printed bytes fit the reported sizes; the program does not check, and writes behind its buffer when they do not.
- V3cLoop.AroundTheLoop: the receive hook for parameter sets is not in the program, so the receiver is given them.
- VpccSender.SendNal: a failing push is only printed by the program and changes nothing, so pushes have no result here.
- ChunkIndex.StreamFiles.KvazaarEncode: an encoder that never stops giving chunks is excluded; the host is taken to be little-endian.
- The bodies of `mmap_v3c_file`, `create_v3c_unit`, `reconstruct_v3c_gop`, `sendFrame` and `find_next_nal` are each several methods here, one for each inner loop or phase.
