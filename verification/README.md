# nanom, verified in Dafny

nanom is a C++ header library that decodes and encodes binary formats without copying: compressed blocks
(Snappy, LZ4), columnar pages (RLE/bit-packed hybrid, delta packing, FSST, dictionaries, null spreading, Dremel
levels), tagged messages (Thrift compact, protobuf), fixed-layout structs with bit fields, input split over several
buffers, IP fragment reassembly, a streaming pcapng parse, and the hand-off queue of its Python binding.  This
project models that code and proves what it is relied on for.

How the model is laid out:

- One module a file.  `Bytes`, `BitOps`, `Lz77`, `Leb128`, `Tagged` and `StagedWriter` are shared.  Const input spans
  are `seq<byte>`, output buffers are `array<byte>`, objects the source updates are classes (`RleBpDecoder`, `ReassemblyTable`, `Writer`,
  `Encoder`, `Dictionary`, `Queue`).
- Every loop of the source is a method with its own branches (fast paths, overshooting copies, chunking, staging,
  word-at-a-time steps), proved equal to a specification function that has none of them.
- The specification functions are then related to something independent of the code: a grammar of the wire format
  (`SnappyFormat`, `Lz4Format`, `ThriftWire`, `ProtobufWire`, `PcapngFormat`, `DeltaShapes`), an inverse (all the encoders), a declarative definition (`Assembly.Complete`,
  `Fsst.Longest`, `SpreadNulls.Rank`), or every run of a state machine (`ReassemblyRuns`, `Delivery`, `Eviction`,
  `ChunkQueue`).
- Integers are unbounded in Dafny, so widths, wrap-around, masks and shifts are written out where the source has them.
- Every lemma carries `{:induction false}`: its body is its proof.

The strongest statements, one a component:

| component | main result |
|---|---|
| Snappy, LZ4 | `SnappyFormat.DecodesExactlyTheFormat`, `Lz4Format.DecodesExactlyTheFormat`, with `Snappy.Decompress`, `Lz4.Decompress` |
| reassembly | `Assembly.Assemble`, `ReassemblyRuns.TokensConserved`, `ReassemblyRuns.ReleasedIsFree`, `Delivery.CompletesOnLastPiece`, `Eviction.EvictsExactly`, `Eviction.AddAnswers` |
| RLE hybrid | `RleHybridEncode.Encode`, `RleHybridEncode.Follow`, `RleHybridEncode.LongRunCut` |
| delta | `DeltaPackedEncode.DeltaRoundTrip`, `DeltaShapes.ShapedRoundTrip`, `DeltaStrings.PrefixRoundTrip` |
| Thrift | `ThriftWire.DecodeWire`, `ThriftEvolution.ReadUnderAnother`, `ThriftEvolution.FewerFields`, `ThriftEncode.RoundTrip`, `ThriftSkip.SkipEndsWithDecode`, `ThriftLazy.LazyListAgrees`, `ThriftWriter.Encode` |
| protobuf | `ProtobufWire.DecodeWire`, `ProtobufEvolution.ReadUnderAnother`, `ProtobufEvolution.FewerFields`, `ProtobufWriter.EncodesExactlyWhatDecodes`, `ProtobufWriter.SizeAgreesWithEncode`, `ProtobufWriter.Encode`, `ProtobufMerge.DecodeMerge`, `ProtobufReader.ReadMessageFast` |
| FSST | `FsstEncoder.FindIsLongest`, `FsstCompress.Compress`, `FsstTable.RoundTrip` |
| null spreading | `SpreadNulls.Spreading` |
| segments | `Segments.Follow`, `Segments.SplitDoesNotShow` |
| struct codec | `StructCodec.EmitUndoesStrct`, `StructCodec.StrctUndoesEmit`, `StructLayout.BothOrNeither`, `StructLayout.LayoutLaws`, `ScalarBits.ScalarIsField` |
| dictionaries | `Dictionary.Dictionary.IndexOf`, `Dictionary.Follow`, `Dictionary.StretchIndices` |
| Dremel | `Dremel.ListSlots`, `Dremel.ChildAccepts` |
| pcapng | `PcapngFormat.ParsesFile`, `Pcapng.ParseWindowed`, `Pcapng.CapEnough` |
| hand-off queue | `ChunkQueue.Conserved`, `ChunkQueue.NoLostWakeUp`, `ChunkQueue.BothAsleep`, `ChunkQueue.PopIsAnswered` |

Five properties a reader may expect do not hold of every input.  The model follows the code, and the exact condition
is proved:

- `protobuf_size` is documented as the number of bytes `protobuf_encode` writes.  The encoder checks protobuf's 2 GiB
  limit only for models with nested messages, so a flat message with a 2^31-byte string is written and has no size
  (`ProtobufWriter.FlatMessageTooLong`).  The two agree exactly when messages nest or the encoding is at most 2 GiB
  (`ProtobufWriter.SizeAgreesWithEncode`).
- The hybrid decoder takes at most 2^40 values from one RLE run, and the encoder writes longer ones
  (`RleHybridEncode.OneRunTooLong`).  A list comes back exactly when no run of equal values, less those that fill the
  pending group of 8, is longer (`RleHybridEncode.Encode`).
- The compile-time layout check is documented to keep msb0 and lsb0 bits out of one byte.  It looks at one level of a
  struct, so a nested struct of one msb0 nibble followed by an lsb0 nibble passes, and every value comes back with the
  second nibble twice (`StructLayout.NestedHalfByte`).  Reading undoes writing exactly when no bit belongs to two
  leaves, writing undoes reading exactly when every bit belongs to one, and the two conditions are the same
  (`StructCodec.StrctUndoesEmit`, `StructCodec.EmitUndoesStrct`, `StructLayout.CoveredIffDisjoint`).  The check at every
  level implies them (`StructLayout.LayoutLaws`).
- A subrange that meets more than 64 non-empty parts is refused.  Two splits of one string answer alike exactly when
  they let through the same subranges (`Segments.SplitDoesNotShow`).
- With a bound of zero both sides of the hand-off queue can sleep at once, and with no other bound
  (`ChunkQueue.BothAsleep`).

Verify with `dafny verify dfyconfig.toml`.

## Model

| member | source | states |
|---|---|---|
| Leb128.Read | include/nanom/nom.hpp:1382-1400 | a varint that is accepted advances, stays in the input and is below 2^width |
| Leb128.ReadUleb128 | include/nanom/nom.hpp:1382-1400 | the accumulating loop computes the recursive reading, with the same refusals |
| Leb128.CapIsWidth | include/nanom/nom.hpp:1382-1400 | the last-byte limit admits exactly the values of the width |
| Leb128.Uleb128Encode | include/nanom/nom.hpp:1456-1465 | the loop writes the shortest varint |
| Leb128.UlebRoundTrip | include/nanom/nom.hpp:1382-1465 | a value of the width reads back wherever its bytes stand, consuming exactly them |
| Leb128.ReadShifted | include/nanom/nom.hpp:1382-1400 | bytes put in front only shift a reading, refusals included |
| Leb128.UlebLength | include/nanom/nom.hpp:1456-1465 | a value of 7k bits takes at most k bytes |
| Leb128.ZigzagValue | include/nanom/nom.hpp:1370-1375 | the shift-and-xor form is 2x for x >= 0 and -2x - 1 otherwise |
| Leb128.ZigzagDecodeValue | include/nanom/nom.hpp:1366-1369 | decoding by xor is halving with the sign in the low bit |
| Leb128.ZigzagRoundTrip | include/nanom/nom.hpp:1366-1375 | decoding undoes encoding on all w-bit signed values |
| Leb128.ZigzagOnto | include/nanom/nom.hpp:1366-1375 | encoding undoes decoding on all w-bit unsigned values |
| Leb128.ZigzagNarrow | include/nanom/nom.hpp:1365-1375 | a value fits v bits exactly when its zigzag does: small magnitudes stay small |
| Lz77.CopiedIffPeriodic | include/nanom/codec.hpp:30-43 | a back-reference is the unique extension of the output with period `offset` |
| Lz77.CopyMatch | include/nanom/codec.hpp:30-43 | the exact copy: the periodic bytes, nothing else touched |
| Lz77.CopyChunks | include/nanom/codec.hpp:51-56 | chunks no longer than the offset give the same bytes, at most 15 past the end written |
| Lz77.CopyRun | include/nanom/codec.hpp:57-64 | short offsets: eight single bytes, then chunks from a whole number of periods back, give the same bytes |
| Lz77.LagChunk | include/nanom/codec.hpp:57-64 | a chunk copied from a whole number of periods back continues the period |
| Lz77.CopyMatchWild | include/nanom/codec.hpp:51-65 | for every offset and length the wild copy is the exact copy up to 15 overshot bytes |
| Snappy.FastFields | include/nanom/codec.hpp:88-101 | table lookup plus one masked 4-byte load give the element the checked parse gives |
| Snappy.FastPlan | include/nanom/codec.hpp:147-163 | the wrapping unsigned tests select each fast path only where its copy is legal |
| Snappy.FastLookup | include/nanom/codec.hpp:140-142 | length, extra bytes and offset of the fast path are those of the checked parse |
| Snappy.FastLiteral | include/nanom/codec.hpp:147-155 | two 8-byte moves leave the rest of the decode unchanged |
| Snappy.FastCopy | include/nanom/codec.hpp:147-155 | the same two moves for a copy from at least 8 back |
| Snappy.FastLongCopy | include/nanom/codec.hpp:156-162 | the wild copy for longer or closer matches leaves the rest of the decode unchanged |
| Snappy.FastStep | include/nanom/codec.hpp:134-164 | either nothing is written, or one element is consumed exactly as the reference would |
| Snappy.LiteralLength | include/nanom/codec.hpp:169-174 | 1 to 4 length bytes accumulated by shifts are the little-endian length plus one |
| Snappy.ExactLiteral | include/nanom/codec.hpp:165-182 | the checked literal: consumed as the reference does, or the reference's error and position |
| Snappy.CopyFields | include/nanom/codec.hpp:183-203 | the copy's fields are the parsed element's, or the parse fails there |
| Snappy.ExactCopy | include/nanom/codec.hpp:183-211 | the checked copy: consumed as the reference does, or the reference's error and position |
| Snappy.Decompress | include/nanom/codec.hpp:113-215 | for every input and output size, the status, error, position and bytes of the byte-by-byte decoder |
| SnappyFormat.NextOfEncode | include/nanom/codec.hpp:84-112 | every legal element is parsed back to its meaning, whatever surrounds it |
| SnappyFormat.EncodeOfNext | include/nanom/codec.hpp:165-203 | every element the parser accepts is the encoding of a legal one |
| SnappyFormat.DecodesExactlyTheFormat | include/nanom/codec.hpp:113-215 | decoding succeeds with o exactly when the input is a well-formed block whose LZ77 expansion is o |
| Lz4.ReadExtLen | include/nanom/codec.hpp:230-239 | the length loop computes the nibble-and-continuation length, without overflow |
| Lz4.LiteralStep | include/nanom/codec.hpp:244-256 | the literal half, with its 16-byte move, is the checked literal half |
| Lz4.MatchStep | include/nanom/codec.hpp:258-271 | the match half, with its wild copy, is the checked match half |
| Lz4.Decompress | include/nanom/codec.hpp:223-274 | the status, error, position and bytes of the byte-by-byte decoder |
| Lz4Format.LenBytesOfExtLen | include/nanom/codec.hpp:230-239 | an accepted length is encoded in exactly one way |
| Lz4Format.SequenceOfHalves | include/nanom/codec.hpp:244-271 | a sequence the decoder got through is an encoded one with its meaning |
| Lz4Format.DecodesExactlyTheFormat | include/nanom/codec.hpp:223-274 | decoding succeeds with o exactly when the input is a well-formed block whose LZ77 expansion is o |
| Assembly.DatagramUnique | include/nanom_shark/defrag.hpp:257-298 | at most one byte string agrees with fragments that leave no hole |
| Assembly.RangeEquals | include/nanom_shark/defrag.hpp:169-184 | comparing across part boundaries is comparing the joined bytes |
| Assembly.ScanStep | include/nanom_shark/defrag.hpp:278-297 | one fragment: a hole or a disagreement is real, otherwise the covered prefix grows |
| Assembly.ScanSorted | include/nanom_shark/defrag.hpp:265-298 | done exactly when there is no hole and no disagreement, with parts that spell the datagram |
| Assembly.Sort | include/nanom_shark/defrag.hpp:260-263 | sorted, and the same fragments |
| Assembly.Assemble | include/nanom_shark/defrag.hpp:257-298 | the verdict depends only on which fragments there are, not on their order |
| Reassembly.AddKeepsInv | include/nanom_shark/defrag.hpp:220-307 | an add keeps the table invariant: mapped keys name live uncompleted entries, sizes and ids bounded |
| Reassembly.RetireKeepsInv | include/nanom_shark/defrag.hpp:323-337 | retiring keeps the table invariant |
| Reassembly.EvictKeepsInv | include/nanom_shark/defrag.hpp:365-412 | evicting keeps the table invariant |
| ReassemblyTable.ReassemblyTable.constructor | include/nanom_shark/defrag.hpp:189-196 | a fresh table is empty and counts ids from 1 |
| ReassemblyTable.ReassemblyTable.AddFragment | include/nanom_shark/defrag.hpp:220-307 | the method is the add step: refused, dropped, stored, completed or in conflict, with the parts reported |
| ReassemblyTable.ReassemblyTable.Open | include/nanom_shark/defrag.hpp:224-238 | the key's entry, or a new one under the next id |
| ReassemblyTable.ReassemblyTable.Retire | include/nanom_shark/defrag.hpp:323-337 | the method is the retire step, with the tokens it reports |
| ReassemblyTable.ReassemblyTable.Materialize | include/nanom_shark/defrag.hpp:345-355 | the datagram as one buffer exactly when it can be had, kept for later calls |
| ReassemblyTable.ReassemblyTable.EvictStale | include/nanom_shark/defrag.hpp:365-412 | the method is the evict step for any visiting order, one summary an evicted entry; which entries those are is `Eviction.EvictsExactly` |
| ReassemblyRuns.RunKeepsInv | include/nanom_shark/defrag.hpp:220-412 | the table invariant holds in every state of every run |
| ReassemblyRuns.StepConserves | include/nanom_shark/defrag.hpp:32-56 | pinned before plus stored is pinned after plus released, for every event |
| ReassemblyRuns.TokensConserved | include/nanom_shark/defrag.hpp:32-56 | over every run, tokens stored by retained adds are those still pinned plus those reported released |
| ReassemblyRuns.PinnedOnce | include/nanom_shark/defrag.hpp:38-43 | with one fragment a packet in flight, a token is pinned at most once |
| ReassemblyRuns.ReleasedIsFree | include/nanom_shark/defrag.hpp:38-56 | a reported token is reported once and no entry holds it afterwards |
| Eviction.RunTracks | include/nanom_shark/defrag.hpp:220-412 | over every run the events alone tell which datagrams are in the table, under which key, and what each entry holds |
| Eviction.EvictsExactly | include/nanom_shark/defrag.hpp:365-412 | an eviction reports a datagram exactly when it is in the table and the packet of its last add, plus the timeout in 64 bits, has been reached; the report gives its first and last packet, pieces kept, length and gap; every other datagram keeps its id, key and all it holds |
| Eviction.EvictsWhenDue | include/nanom_shark/defrag.hpp:369-370 | while the sum fits 64 bits: reported exactly once the last add's packet id plus the timeout is at most now |
| Eviction.AddAnswers | include/nanom_shark/defrag.hpp:220-262 | a piece goes to the datagram that awaits its key, else to a new one, refused exactly when the table is full; it is kept exactly when the bytes kept there leave room |
| Delivery.MissingPieceIsHole | include/nanom_shark/defrag.hpp:265-298 | while a piece is missing the datagram is not complete |
| Delivery.AllPiecesComplete | include/nanom_shark/defrag.hpp:265-298 | all pieces, in any order, are a complete datagram |
| Delivery.PieceArrives | include/nanom_shark/defrag.hpp:220-307 | one more piece: retained, and complete exactly when it is the last |
| Delivery.CompletesOnLastPiece | include/nanom_shark/defrag.hpp:198-307 | in any run that brings the pieces of a datagram in any order, exactly the last add completes, with the original bytes |
| BitPacking.LoadFieldIsBits | include/nanom/columnar.hpp:42-61 | a 64-bit load (or two), shift and mask read the value's bits for every width up to 64 |
| BitPacking.Unpack8 | include/nanom/columnar.hpp:42-61 | eight values by unchecked loads are the packed fields |
| BitPacking.UnpackGroup | include/nanom/columnar.hpp:65-79 | a group by the fast or the padded path gives its fields |
| BitPacking.UnpackBits | include/nanom/columnar.hpp:98-112 | false, writing nothing, exactly when width, output or input is too small; else the packed values |
| BitPacking.PackValue | include/nanom/columnar_encode.hpp:63-74 | one value through the 64-bit accumulator, spilling included, extends the packed number |
| BitPacking.PackBits | include/nanom/columnar_encode.hpp:54-77 | whole words then a cut are the packed values, bits above the width masked off |
| BitPacking.PackRoundTrip | include/nanom/columnar_encode.hpp:54-77 | unpacking what was packed gives the values, whatever bytes follow |
| RleHybrid.PackedHeadFits | include/nanom/columnar.hpp:211-224 | a bit-packed run's values never reach past its bytes, so the decoder's ignored unpack result is true |
| RleHybrid.RleBpDecoder.constructor | include/nanom/columnar.hpp:126-134 | all the stream's values are still to come; a width over 32 is refused |
| RleHybrid.RleBpDecoder.NextHeader | include/nanom/columnar.hpp:201-236 | loading a run header keeps the values to come; at the end or a fault there are none |
| RleHybrid.RleBpDecoder.LoadPacked | include/nanom/columnar.hpp:211-224 | a bit-packed run limited by the bytes present and by the 64-bit product |
| RleHybrid.RleBpDecoder.LoadRle | include/nanom/columnar.hpp:225-234 | an RLE run, refused when its value is missing or too wide |
| RleHybrid.RleBpDecoder.TakeBitpacked | include/nanom/columnar.hpp:238-265 | the next values of the run in order, through whole groups and partial ones |
| RleHybrid.RleBpDecoder.Get | include/nanom/columnar.hpp:135-150 | the next min(n, left) values; fewer than n exactly at the end or a fault, and `ok` says which |
| RleHybrid.RleBpDecoder.NextRun | include/nanom/columnar.hpp:164-186 | the next run, never empty while values are left, shows exactly the next values |
| RleHybrid.RleBpDecoder.Skip | include/nanom/columnar.hpp:189-198 | drops exactly the next min(n, left) values |
| RleHybridEncode.DecodeOfChunks | include/nanom/columnar.hpp:126-275 | a stream of well-formed chunks decodes to their values, RLE runs cut at 2^40 |
| RleHybridEncode.KeptIffWhole | include/nanom/columnar.hpp:225-234 | nothing is lost exactly when no RLE run is longer than 2^40 |
| RleHybridEncode.FlushRun | include/nanom/columnar_encode.hpp:122-127 | the pending whole groups, then the run |
| RleHybridEncode.Encode | include/nanom/columnar_encode.hpp:89-137 | every literal chunk is whole groups of 8, and the bytes decode to a stream that begins with the list exactly when no run is too long, and then to the list and fewer than 8 filling zeros |
| RleHybridEncode.ShortRunsFit | include/nanom/columnar_encode.hpp:108-136 | lists without a run longer than 2^40 are never cut |
| RleHybridEncode.LongRunCut | include/nanom/columnar_encode.hpp:108-136 | a run of 2^40 + 8 equal values anywhere is always cut |
| RleHybridEncode.OneRunTooLong | include/nanom/columnar_encode.hpp:108-136 | 2^40 + 1 zeros do not fit, and their RLE run decodes to 2^40 zeros |
| RleHybridEncode.Serve | include/nanom/columnar.hpp:135-198 | one batch, run or skip answers from where the reader stands and advances as far as asked |
| RleHybridEncode.Follow | include/nanom/columnar.hpp:126-275 | any schedule of batches, runs and skips over any encoded list sees the stream's values in place, in turn |
| DeltaPacked.AddChunk | include/nanom/columnar.hpp:334-337 | the running wrapped sum over one chunk |
| DeltaPacked.DecodeMini | include/nanom/columnar.hpp:326-340 | a miniblock in chunks of 1024 is the miniblock at once |
| DeltaPacked.DecodeBlock | include/nanom/columnar.hpp:318-343 | the miniblocks of a block, refused where a width or the input is too small |
| DeltaPacked.DeltaBinaryPacked | include/nanom/columnar.hpp:288-345 | success, values and bytes consumed are those the format defines, for every shape of block (`DeltaShapes.ShapedRoundTrip`); nothing past n is written |
| DeltaPackedEncode.OrAllBelow | include/nanom/columnar_encode.hpp:214-222 | the or of all values is below 2^k exactly when each value is |
| DeltaPackedEncode.MiniWidthIsLeast | include/nanom/columnar_encode.hpp:214-222 | the width written is the least one all values of the miniblock fit |
| DeltaPackedEncode.MinDeltaIsLeast | include/nanom/columnar_encode.hpp:205-210 | the minimum is a signed delta that occurs and no delta is below it |
| DeltaPackedEncode.AdjustedIsDistance | include/nanom/columnar_encode.hpp:211-212 | subtracting the minimum never wraps: what is packed is the distance above it |
| DeltaPackedEncode.BlockDeltas | include/nanom/columnar_encode.hpp:205-210 | the wrapped differences of a block and their least |
| DeltaPackedEncode.AdjustBlock | include/nanom/columnar_encode.hpp:211-212 | the adjusted differences, zero-filled to a block |
| DeltaPackedEncode.BlockWidths | include/nanom/columnar_encode.hpp:214-222 | one width a miniblock, 0 past the values |
| DeltaPackedEncode.PackMinis | include/nanom/columnar_encode.hpp:223-224 | the packed miniblocks that hold values |
| DeltaPackedEncode.EncodeBlock | include/nanom/columnar_encode.hpp:203-224 | one block of the stream |
| DeltaPackedEncode.DeltaBinaryPackedEncode | include/nanom/columnar_encode.hpp:192-224 | appends exactly the stream the format defines |
| DeltaPackedEncode.SumsUndo | include/nanom/columnar.hpp:334-337 | summing adjusted differences, wrap-around included, gives the values back |
| DeltaPackedEncode.DeltaRoundTrip | include/nanom/columnar_encode.hpp:192-224 | every prefix of every int32/int64 list decodes to itself whatever follows; the whole list consumes exactly the bytes written |
| DeltaShapes.MinisBack | include/nanom/columnar.hpp:318-343 | the miniblocks of a block, of any size, give back its values, as many as are asked for |
| DeltaShapes.BlocksBack | include/nanom/columnar.hpp:308-345 | so do the blocks, for any block minimums |
| DeltaShapes.ShapedRoundTrip | include/nanom/columnar.hpp:288-345 | for every legal block size and miniblock count and every choice of block minimums: every prefix of every list decodes to itself whatever follows, and the whole list uses exactly its bytes |
| DeltaShapes.ShapesAdmitted | include/nanom/columnar.hpp:302-306 | the shapes of that round trip are exactly those the decoder admits |
| DeltaStrings.DeltaLengthViews | include/nanom/values.hpp:444-458 | the views are the texts the page defines, or its fault |
| DeltaStrings.DeltaLengthEncode | include/nanom/columnar_encode.hpp:263-278 | accepts exactly lists of texts below 2 GiB, and writes their page |
| DeltaStrings.LengthRoundTrip | include/nanom/columnar_encode.hpp:263-278 | every accepted list comes back, whatever follows it |
| DeltaStrings.SizeArena | include/nanom/values.hpp:476-484 | sizing by lengths alone finds the first fault of rebuilding and the total size |
| DeltaStrings.PlaceText | include/nanom/values.hpp:488-496 | prefix moved within the arena plus suffix is the text |
| DeltaStrings.FillArena | include/nanom/values.hpp:486-496 | every view shows its rebuilt text, though all share one arena |
| DeltaStrings.DeltaPrefixViews | include/nanom/values.hpp:464-498 | the views are the front-coded texts, or the page's fault; the arena stays within the limit |
| DeltaStrings.CommonPrefix | include/nanom/columnar_encode.hpp:282-297 | the longest common prefix |
| DeltaStrings.DeltaPrefixEncode | include/nanom/columnar_encode.hpp:282-297 | accepts exactly lists of texts below 2 GiB, and writes their page |
| DeltaStrings.PrefixRoundTrip | include/nanom/columnar_encode.hpp:282-297 | the front-coded list comes back exactly when its texts fit the limit, else it is refused as too large |
| ThriftEncode.ReadBack | include/nanom/tagged.hpp:669-746 | a written value reads back exactly when it nests within the limit; else the reader says too deep |
| ThriftEncode.ReadBackFields | include/nanom/tagged.hpp:749-804 | the fields written from any point on complete the message |
| ThriftEncode.RoundTrip | include/nanom/tagged_encode.hpp:157-206 | every message: its encoding plus any suffix decodes to it and stops after STOP exactly when it nests within the limit |
| ThriftSkip.SkipsValue | include/nanom/tagged.hpp:613-662 | skipping a value that can be read ends where reading it ends |
| ThriftSkip.SkipsFields | include/nanom/tagged.hpp:580-609 | skipping a struct that can be read ends where reading it ends, unknown fields included |
| ThriftSkip.SkipEndsWithDecode | include/nanom/tagged.hpp:810-826 | whenever decoding as any model succeeds, structural skip succeeds and ends at the same byte |
| ThriftWire.SkipWire | include/nanom/tagged.hpp:613-662 | every value of the format, sets and maps included, is skipped exactly to its end when it nests within the limit and refused as too deep otherwise |
| ThriftWire.SkipFieldsWire | include/nanom/tagged.hpp:580-609 | so is every list of fields, with short and long field headers |
| ThriftWire.ReadWire | include/nanom/tagged.hpp:669-746 | reading a value of the format gives its meaning for the member's type exactly when it has one and nests within the limit |
| ThriftWire.ReadFieldsWire | include/nanom/tagged.hpp:749-804 | so does reading the fields of a struct: by their ids, the last of a member counts, unknown ones and other wire types change nothing |
| ThriftWire.DecodeWire | include/nanom/tagged.hpp:810-818 | every struct of the format under every schema decodes to its meaning, exactly when it has one and nests within the limit, and ends after its STOP byte |
| ThriftEvolution.WireOfEnc | include/nanom/tagged_encode.hpp:157-206 | what the writer writes is a struct of the format |
| ThriftEvolution.MeaningIsView | include/nanom/tagged.hpp:669-804 | the meaning of a written value under another type is the reader's view of it, field by field |
| ThriftEvolution.ReadUnderAnother | include/nanom/tagged.hpp:749-818 | a message written under one schema and read under any other gives the reader's view, at the same end, exactly when there is one and the message nests within the limit |
| ThriftEvolution.ViewSame | include/nanom/tagged.hpp:669-804 | under the writer's own type the view is the value |
| ThriftEvolution.FewerFields | include/nanom/tagged.hpp:762-774 | a reader that declares only some of the fields gets those members as written and ends at the same byte, under the writer's depth condition |
| ThriftEvolution.OtherWireType | include/nanom/tagged.hpp:762-774 | a field declared with another wire type keeps its default, the others come back; a required one fails the read |
| ThriftLazy.ReadValueCut | include/nanom/tagged.hpp:721-741 | a value reads the same from the bytes cut off at its end |
| ThriftLazy.SkipCut | include/nanom/tagged.hpp:613-662 | a value skips the same in the bytes cut off at its end |
| ThriftLazy.ForEach | include/nanom/tagged.hpp:832-855 | visiting is reading the first elements of the kept bytes |
| ThriftLazy.At | include/nanom/tagged.hpp:858-874 | element i by skipping the ones before it |
| ThriftLazy.LazyListAgrees | include/nanom/tagged.hpp:721-733 | whenever the eager read succeeds the lazy one does too, ends at the same byte, and for_each, at(i) and to_vector give the eager vector's elements |
| ThriftLazy.LazyStructAgrees | include/nanom/tagged.hpp:734-741 | decoding a kept struct later gives what reading it in place gives |
| ThriftReader.ReadVarint | include/nanom/tagged.hpp:477-508 | the unchecked ten-byte form and the checked form are the same reading |
| ThriftReader.StepVarint | include/nanom/tagged.hpp:511-522 | stepping over a varint accepts and refuses what skipping does |
| ThriftReader.StrideElems | include/nanom/tagged.hpp:561-578 | fixed-size elements skip in one stride |
| ThriftReader.SkipElements | include/nanom/tagged.hpp:561-578 | the element loop with its strides is element-by-element skipping |
| ThriftReader.SkipEntries | include/nanom/tagged.hpp:613-662 | the map loop is pair-by-pair skipping |
| ThriftReader.SkipOne | include/nanom/tagged.hpp:613-662 | the switch skips as the specification does, with the same faults |
| ThriftReader.SkipMessage | include/nanom/tagged.hpp:580-609 | the inlined field loop skips as the specification does |
| ThriftReader.ReadVector | include/nanom/tagged.hpp:706-720 | the vector loop reads the elements in order |
| ThriftReader.ReadMember | include/nanom/tagged.hpp:669-746 | reading a member, with the same faults |
| ThriftReader.ReadMessage | include/nanom/tagged.hpp:749-804 | the field loop gives what decoding is defined to give; with `ThriftWire.DecodeWire`, the last occurrence wins, unknown fields are skipped and required ones demanded |
| StagedWriter.Writer.constructor | include/nanom/tagged_encode.hpp:45-57 | nothing asked beyond what the sink holds |
| StagedWriter.Writer.Put | include/nanom/sink.hpp:37-47 | all the bytes or none, by the room left |
| StagedWriter.Writer.Flush | include/nanom/tagged_encode.hpp:58-63 | the staged bytes reach the sink, or the first error sticks |
| StagedWriter.Writer.U8 | include/nanom/tagged_encode.hpp:64-68 | one byte more asked, whatever was staged |
| StagedWriter.Writer.Varint | include/nanom/tagged_encode.hpp:69-73 | a varint more asked |
| StagedWriter.Writer.Fixed | include/nanom/protobuf_encode.hpp:214-218 | n little-endian bytes more asked |
| StagedWriter.Writer.Raw | include/nanom/tagged_encode.hpp:74-85 | payload bytes more asked, staged or straight to the sink |
| StagedWriter.Finish | include/nanom/tagged_encode.hpp:200-206 | either the sink holds exactly what was asked and the total counts it, or it does not fit and a prefix stands within the capacity |
| ThriftWriter.WriteListHead | include/nanom/tagged_encode.hpp:95-103 | the list header, or the failure of a count past 2^31 - 1 |
| ThriftWriter.WriteBlob | include/nanom/tagged_encode.hpp:87-94 | length and bytes, or the failure of a length past 2^31 - 1 |
| ThriftWriter.WriteValue | include/nanom/tagged_encode.hpp:109-154 | the value's encoding is asked for, or it is not encodable |
| ThriftWriter.WriteStruct | include/nanom/tagged_encode.hpp:157-193 | the fields in id order with delta headers, and STOP |
| ThriftWriter.Encode | include/nanom/tagged_encode.hpp:200-206 | succeeds exactly when every length fits the wire and the encoding fits the sink; then it appends exactly the encoding and returns its size |
| ProtobufMerge.RecordsShift | include/nanom/protobuf.hpp:413-450 | records read the same wherever the message starts |
| ProtobufMerge.RecordsMerge | include/nanom/protobuf.hpp:413-450 | the records of a ++ b are those of a, then those of b over the result |
| ProtobufMerge.SeenIsExtra | include/nanom/protobuf.hpp:436-448 | the fields met so far only feed the required check |
| ProtobufMerge.DecodeMerge | include/nanom/protobuf.hpp:481-490 | without required members, decoding a ++ b into m is decoding a and then b into the result |
| ProtobufReader.SameRecord | include/nanom/protobuf.hpp:289-331 | a record that repeats the key bytes is one more scalar of the same field |
| ProtobufReader.ReadRun | include/nanom/protobuf.hpp:293-331 | the run loop reads exactly the records dispatch would, or fails as it would |
| ProtobufReader.ReadPackedRun | include/nanom/protobuf.hpp:332-354 | the packed loop reads the scalars to the end of the field |
| ProtobufReader.ReadBody | include/nanom/protobuf.hpp:259-287 | a length-delimited value, nested messages through the fast loop, with the depth check |
| ProtobufReader.ReadOne | include/nanom/protobuf.hpp:293-403 | one record gives what the record's definition gives; with `ProtobufWire.FieldWire` and `ProtobufWire.SkipWire`, its value into its member, other wire types skipped exactly |
| ProtobufReader.ReadMessageFast | include/nanom/protobuf.hpp:413-450 | with the run shortcut at every level of nesting, exactly the result of dispatching every record, which `ProtobufWire.DecodeWire` gives for every message of the format |
| ProtobufEncode.VarintValueBack | include/nanom/protobuf_encode.hpp:51-59 | every scalar's varint form reads back as the scalar |
| ProtobufEncode.PackedBack | include/nanom/protobuf.hpp:332-354 | a packed body gives back its values |
| ProtobufEncode.MessageBack | include/nanom/protobuf.hpp:259-287 | a nested message reads back from its own bytes exactly when it nests within the limit |
| ProtobufEncode.RoundTrip | include/nanom/protobuf.hpp:413-450 | every message decodes from its encoding exactly when it nests within the limit, and fails otherwise |
| ProtobufEvolution.SkipWritten | include/nanom/protobuf.hpp:177-197 | every value the encoder writes is skipped exactly under its type's wire type |
| ProtobufEvolution.SlotIgnored | include/nanom/protobuf.hpp:413-441 | all records of a member the reader does not take change nothing |
| ProtobufEvolution.ReadUnderAnother | include/nanom/protobuf.hpp:413-450 | a message written under one model and read under another that agrees with it: shared fields come back, others keep their defaults; it fails exactly when a shared member nests too deep or a required field is not shared |
| ProtobufEvolution.FewerFields | include/nanom/protobuf.hpp:413-450 | a reader that declares only some of the fields gets those members exactly when they nest within the limit, whatever the others hold |
| ProtobufWire.SkipWire | include/nanom/protobuf.hpp:177-197 | every value of the format is skipped exactly: varint, 8 bytes, 4 bytes, or length and body |
| ProtobufWire.EmptyWire | include/nanom/protobuf.hpp:259-287 | the body of an empty struct may be any records |
| ProtobufWire.FieldWire | include/nanom/protobuf.hpp:293-403 | one record into a member that takes it: scalars by kind, packed runs appended, messages merged over what is held |
| ProtobufWire.RecordsWire | include/nanom/protobuf.hpp:413-441 | the record loop folds the records in order; unknown fields and other wire types change nothing |
| ProtobufWire.DecodeWire | include/nanom/protobuf.hpp:413-450 | every message of the format under every model its bodies suit decodes to its meaning and is refused exactly when it has none |
| ProtobufWriter.VarintSizeIsLength | include/nanom/protobuf_encode.hpp:48-48 | the bit-width formula is the length of the varint |
| ProtobufWriter.ValueSize | include/nanom/protobuf_encode.hpp:116-136 | the real encoded length, the pre-order nested lengths appended, failure exactly outside the limits |
| ProtobufWriter.PackedLength | include/nanom/protobuf_encode.hpp:139-148 | the length of a packed body |
| ProtobufWriter.SlotSize | include/nanom/protobuf_encode.hpp:151-188 | the bytes of one member, keys included |
| ProtobufWriter.Measure | include/nanom/protobuf_encode.hpp:151-188 | the message's real length and its pre-order list of nested lengths |
| ProtobufWriter.WriteVal | include/nanom/protobuf_encode.hpp:243-265 | each nested length taken from the list is the real one; exactly its share is consumed |
| ProtobufWriter.WriteRecord | include/nanom/protobuf_encode.hpp:268-315 | key and value of one record |
| ProtobufWriter.WritePacked | include/nanom/protobuf_encode.hpp:268-315 | a packed field with its measured length |
| ProtobufWriter.WriteSlot | include/nanom/protobuf_encode.hpp:268-315 | one member: absent, single, packed or repeated |
| ProtobufWriter.WriteMsg | include/nanom/protobuf_encode.hpp:268-315 | the whole message, the size list consumed exactly |
| ProtobufWriter.Encode | include/nanom/protobuf_encode.hpp:326-340 | succeeds exactly within the limits, checked only where messages nest, and the sink's room; appends exactly the encoding and returns its size |
| ProtobufWriter.Size | include/nanom/protobuf_encode.hpp:350-357 | the bytes the encoder writes, or none outside the limits |
| ProtobufWriter.SizesExactlyWhatDecodes | include/nanom/protobuf_encode.hpp:150-188 | the measuring pass admits exactly the messages of at most 2 GiB that the decoder returns |
| ProtobufWriter.EncodesExactlyWhatDecodes | include/nanom/protobuf_encode.hpp:326-340 | the encoder accepts exactly the messages the decoder returns, and where messages nest, of these those of at most 2 GiB |
| ProtobufWriter.SizeAgreesWithEncode | include/nanom/protobuf_encode.hpp:326-357 | size answers exactly when the encoder accepts, if and only if messages nest or the encoding is at most 2 GiB |
| ProtobufWriter.FlatMessageTooLong | include/nanom/protobuf_encode.hpp:326-357 | a flat message with a 2^31-byte string is accepted by the encoder and has no size |
| Fsst.LongestIsUnique | include/nanom/fsst_encode.hpp:109-127 | distinct symbols leave one longest match |
| Fsst.GreedyExpands | include/nanom/fsst.hpp:92-124 | expanding the plain greedy codes restores the bytes |
| FsstEncoder.LowBytesEqualIs | include/nanom/fsst_encode.hpp:306-311 | xor and shift out test equality of the low bytes |
| FsstEncoder.FindIsLongest | include/nanom/fsst_encode.hpp:109-127 | find returns the longest matching symbol, for any hash of the first three bytes |
| FsstEncoder.Encoder.constructor | include/nanom/fsst_encode.hpp:82-87 | an encoder without symbols |
| FsstEncoder.Encoder.Add | include/nanom/fsst_encode.hpp:91-106 | the next code, unless a long symbol's slot is taken, then nothing changes; every symbol stays findable |
| FsstEncoder.Encoder.BuildShortOrByte | include/nanom/fsst_encode.hpp:273-280 | the 65536-entry table holds the best symbol of at most two bytes, or the escape |
| FsstCompress.PickCases | include/nanom/fsst_encode.hpp:303-354 | long slot, then two-byte table, then one byte is the greedy choice, near the end too |
| FsstCompress.PickFast | include/nanom/fsst_encode.hpp:303-354 | the table-driven choice is the greedy choice |
| FsstCompress.WholeWords | include/nanom/fsst_encode.hpp:303-319 | greedy codes while eight bytes remain |
| FsstCompress.Tail | include/nanom/fsst_encode.hpp:323-354 | greedy codes for the last bytes from the zero-padded copy: no match runs past the value |
| FsstCompress.Plain | include/nanom/fsst_encode.hpp:356-365 | greedy codes without the table |
| FsstCompress.Compress | include/nanom/fsst_encode.hpp:292-365 | the plain greedy codes, at most twice the input, nothing outside the promised room touched |
| FsstTable.ParseSerialized | include/nanom/fsst_encode.hpp:375-386 | parsing the serialized table gives the encoder's symbols |
| FsstTable.RoundTrip | include/nanom/fsst.hpp:69-124 | compressing and decoding through the serialized table restores every value |
| FsstTable.Serialize | include/nanom/fsst_encode.hpp:375-386 | the loop writes the serialized table |
| FsstTable.ParseTable | include/nanom/fsst.hpp:69-87 | size, magic and length checks as the format has them |
| FsstTable.Decode | include/nanom/fsst.hpp:92-134 | succeeds exactly with room for whole-word stores and codes that expand; then the expansion |
| SpreadNulls.GetBitIs | include/nanom/values.hpp:320-374 | the bit test is the bitmap's bit |
| SpreadNulls.WordBit | include/nanom/values.hpp:327-331 | bit k of a loaded word is slot r + k |
| SpreadNulls.TopAfterShifts | include/nanom/values.hpp:342-347 | after k left shifts the top bit is bit 63 - k |
| SpreadNulls.OneSlot | include/nanom/values.hpp:367-373 | one slot by branch |
| SpreadNulls.FullWord | include/nanom/values.hpp:330-335 | 64 valid slots move as one overlapping block |
| SpreadNulls.EmptyWord | include/nanom/values.hpp:336-340 | 64 null slots are cleared |
| SpreadNulls.MixedWord | include/nanom/values.hpp:341-365 | 64 branchless steps put every slot in place, reading inside the buffer |
| SpreadNulls.SpreadWords | include/nanom/values.hpp:321-374 | blocks, branchless words and single steps together |
| SpreadNulls.Spreading | include/nanom/values.hpp:380-399 | slot r ends as the dense value of its rank if valid, as zero bytes otherwise; later slots untouched |
| Segments.NullIsExhausted | include/nanom/segmented.hpp:126-141 | the cursor is null exactly when nothing is left |
| Segments.Enter | include/nanom/segmented.hpp:263-275 | the first non-empty part from i on |
| Segments.Start | include/nanom/segmented.hpp:136-137 | all the bytes lie ahead |
| Segments.Index | include/nanom/segmented.hpp:150-163 | the byte i ahead, across parts |
| Segments.SafeAt | include/nanom/segmented.hpp:166-169 | that byte, or none past the end |
| Segments.Advance | include/nanom/segmented.hpp:173-188 | n bytes fewer ahead, clamped at the end, offset included |
| Segments.Gather | include/nanom/segmented.hpp:200-250 | the next n bytes exactly when there are as many |
| Segments.PiecesSpell | include/nanom/segmented.hpp:350-373 | a subrange's pieces are non-empty and spell exactly its bytes |
| Segments.Subrange | include/nanom/segmented.hpp:350-373 | those pieces, or none when too few bytes or too many parts |
| Segments.SegUint | include/nanom/segmented.hpp:478-490 | the big- or little-endian number of the next n bytes, or how many are missing |
| Segments.StrctSeg | include/nanom/segmented.hpp:450-468 | the decode of the next window, or how many bytes are missing |
| Segments.PiecesTouched | include/nanom/segmented.hpp:350-373 | a subrange has one piece for every part with a byte in it |
| Segments.CursorPieces | include/nanom/segmented.hpp:350-373 | the pieces at a cursor spell the next n bytes of the concatenation, one a part met |
| Segments.Ask | include/nanom/segmented.hpp:122-276 | one read of any kind is answered by the concatenation and the offset, and moves the offset as they say |
| Segments.Follow | include/nanom/segmented.hpp:122-490 | any program of reads over any split, nested subranges included, is answered as the concatenation answers it |
| Segments.SplitDoesNotShow | include/nanom/segmented.hpp:122-490 | two splits of one string answer every program alike exactly when they let through the same subranges; with at most 64 non-empty parts they do |
| BitFields.ReadOfWrite | include/nanom/emit.hpp:88-112 | a value written reads back, in both bit orders |
| BitFields.WriteOfRead | include/nanom/emit.hpp:88-112 | writing what was read from b puts b's bits there and leaves the others |
| BitFields.ReadDepends | include/nanom/nom.hpp:1744-1768 | a field's value depends on its own bits only |
| BitFields.ReadLoop | include/nanom/nom.hpp:1744-1768 | the byte-wise loop reads the field, in both bit orders |
| BitFields.CoveringWord | include/nanom/reflect.hpp:279-293 | the big-endian covering word, shifted and masked, is the same field |
| BitFields.WriteLoop | include/nanom/emit.hpp:88-112 | the masked byte-wise loop writes the field and nothing else |
| StructCodec.EmitOfAssign | include/nanom/emit.hpp:124-167 | in any layout, emitting a member read from b puts b's bits at the bits it owns and changes nothing else |
| StructCodec.EmitFrame | include/nanom/emit.hpp:124-167 | emitting a member leaves every bit it does not own |
| StructCodec.AssignDepends | include/nanom/reflect.hpp:337-363 | a member's value depends on the bits it owns |
| StructCodec.AssignOfEmit | include/nanom/reflect.hpp:337-363 | a member in range reads back when its leaves share no bit |
| StructCodec.Overlaps | include/nanom/reflect.hpp:337-363 | where two leaves share a bit, some value in range does not read back |
| StructCodec.EmitUndoesStrct | include/nanom/reflect.hpp:389-405 | every byte string of the right size is the encoding of its value exactly when every bit belongs to a leaf |
| StructCodec.StrctUndoesEmit | include/nanom/emit.hpp:227-263 | every value in range is the value of its encoding exactly when no bit belongs to two leaves |
| StructLayout.BeforeNext | include/nanom/reflect.hpp:216-232 | in a layout right at every level the members' stretches are disjoint and consecutive, msb0 and lsb0 mixed |
| StructLayout.OwnsSpan | include/nanom/reflect.hpp:216-232 | in such a layout a member's leaves own exactly its stretch |
| StructLayout.LayoutLaws | include/nanom/reflect.hpp:206-232 | a struct that passes the layout check at every level satisfies both laws |
| StructLayout.OwnedSize | include/nanom/reflect.hpp:180-204 | a member owns as many bits as it is wide exactly when its leaves share none, and never more |
| StructLayout.CoveredIffDisjoint | include/nanom/reflect.hpp:180-204 | every bit belongs to a leaf exactly when no bit belongs to two |
| StructLayout.BothOrNeither | include/nanom/emit.hpp:84-167 | either both laws hold of a layout or neither does |
| StructLayout.NestedHalfByte | include/nanom/reflect.hpp:206-232 | a layout the check accepts in which every value comes back with its second nibble twice |
| StructCodec.AssignField | include/nanom/reflect.hpp:260-363 | the covering-word and loop paths give the member |
| StructCodec.EmitField | include/nanom/emit.hpp:124-167 | fails exactly when some bit field's value does not fit; else writes the member |
| StructCodec.EmitFields | include/nanom/emit.hpp:160-165 | all members in turn, failing exactly when one is out of range |
| ScalarBits.ScalarIsField | include/nanom/reflect.hpp:337-363 | a big-endian scalar at a byte offset is the msb0 bit field of its width there, a little-endian one the lsb0 field |
| ScalarBits.ScalarWritesField | include/nanom/emit.hpp:124-167 | writing a scalar's bytes is writing that bit field |
| Dictionary.HasEmpty | include/nanom/columnar_encode.hpp:353-369 | a table with more slots than entries has an empty slot, so probing stops |
| Dictionary.MaskIsProbe | include/nanom/columnar_encode.hpp:362-365 | masking with size - 1 is the remainder, the table size being a power of two |
| Dictionary.EmptySlot | include/nanom/columnar_encode.hpp:357-368 | the first empty slot from the masked hash on, within one round |
| Dictionary.Grow | include/nanom/columnar_encode.hpp:357-368 | 64 slots or twice as many, every entry findable again |
| Dictionary.Search | include/nanom/columnar_encode.hpp:379-394 | stops at the value's own entry or at an empty slot, and then the value is new |
| Dictionary.Dictionary.constructor | include/nanom/columnar_encode.hpp:376-378 | an empty dictionary |
| Dictionary.Dictionary.IndexOf | include/nanom/columnar_encode.hpp:379-394 | the first-seen index, the value added at the end when new, through growth and collisions |
| Dictionary.Dictionary.Clear | include/nanom/columnar_encode.hpp:399-403 | empty again |
| Dictionary.SeenDistinct | include/nanom/columnar_encode.hpp:376-409 | entries stay distinct over any run |
| Dictionary.SeenGrows | include/nanom/columnar_encode.hpp:376-409 | entries never move |
| Dictionary.RunIndices | include/nanom/columnar_encode.hpp:376-449 | over any list of look-ups, an index names its value and equal indices mean equal values |
| Dictionary.Follow | include/nanom/columnar_encode.hpp:376-449 | any run of look-ups and clears on one dictionary returns the first-seen indices of each stretch |
| Dictionary.StretchIndices | include/nanom/columnar_encode.hpp:376-449 | between clears, an index names its value and equal indices mean equal values |
| Dremel.MarksCount | include/nanom/values.hpp:201-223 | nulls plus set validity bits are the slots |
| Dremel.OffsetsShape | include/nanom/values.hpp:228-257 | offsets start at 0, never decrease and end at the element count |
| Dremel.SetBit | include/nanom/values.hpp:209-223 | sets one bit and no other |
| Dremel.StructSlots | include/nanom/values.hpp:209-223 | accepts exactly the expected number of slots; validity and nulls are right |
| Dremel.ListSlots | include/nanom/values.hpp:228-257 | accepts exactly well-formed levels; offsets, validity, nulls and elements are right |
| Dremel.ChildSlots | include/nanom/values.hpp:201-257 | elements of a list are slots of its element struct but for continuations that stop short |
| Dremel.ChildAccepts | include/nanom/values.hpp:201-257 | the element struct accepts the list's elements exactly when every continuation has the element's definition level |
| Pcapng.HeadSettled | bench/streaming_pcapng_parse.hpp:118-146 | a section header reads the same once it settled the byte order |
| Pcapng.Refill | bench/streaming_pcapng_parse.hpp:95-107 | the unparsed bytes stay, as many more as fit follow, and it fails only at the end or a full window |
| Pcapng.CountEpb | bench/streaming_pcapng_parse.hpp:154-191 | one packet block gives what its definition gives; with `PcapngFormat.PacketBack`, its lengths, options and checksum words |
| Pcapng.ParseWindowed | bench/streaming_pcapng_parse.hpp:84-196 | for every input and window size, the totals and stopping point of a parse of the whole input that gives up at a block longer than the window; the totals themselves are `PcapngFormat.ParsesFile` |
| Pcapng.CapEnough | bench/streaming_pcapng_parse.hpp:84-196 | a window gets as far as no window exactly when it holds every complete block, and then gives the same totals |
| Pcapng.WindowDoesNotShow | bench/streaming_pcapng_parse.hpp:84-196 | two windows that hold every complete block agree |
| PcapngFormat.HeadBack | bench/streaming_pcapng_parse.hpp:118-146 | a block's type, length and byte order are read back under either order in force |
| PcapngFormat.OptionsBack | bench/streaming_pcapng_parse.hpp:171-191 | the options of a packet are counted and folded into the checksum, up to bytes that make no option |
| PcapngFormat.PacketBack | bench/streaming_pcapng_parse.hpp:154-191 | a packet block adds one packet, its captured and original lengths and its options, and folds its time, lengths and options into the checksum |
| PcapngFormat.OverrunBack | bench/streaming_pcapng_parse.hpp:154-191 | a packet that declares more bytes than its block holds is counted without options |
| PcapngFormat.FileBack | bench/streaming_pcapng_parse.hpp:109-196 | the blocks of a file in any byte orders, whatever follows them, are parsed one after the other |
| PcapngFormat.ParsesFile | bench/streaming_pcapng_parse.hpp:84-196 | of a file whose blocks fit the window: packets, captured and original lengths and options are the file's own counts and sums modulo 2^64, and the checksum folds those fields in order |
| ChunkQueue.Queue.constructor | bindings/python/nanom_shark/chunk_queue.hpp:36-36 | an empty queue that is not done |
| ChunkQueue.Queue.Push | bindings/python/nanom_shark/chunk_queue.hpp:41-52 | one pass of push: refused on stop, appended with room, full otherwise |
| ChunkQueue.Queue.Finish | bindings/python/nanom_shark/chunk_queue.hpp:57-62 | done, with the error recorded |
| ChunkQueue.Queue.Pop | bindings/python/nanom_shark/chunk_queue.hpp:68-84 | one pass of pop: the front item first, then end or error once done, else nothing |
| ChunkQueue.NextKeeps | bindings/python/nanom_shark/chunk_queue.hpp:41-93 | every step of either thread, of `wake_all`, of a timeout or a spurious wake-up keeps the invariant |
| ChunkQueue.RunKeeps | bindings/python/nanom_shark/chunk_queue.hpp:41-93 | mutual exclusion, order and notice hold in every state of every interleaving |
| ChunkQueue.Conserved | bindings/python/nanom_shark/chunk_queue.hpp:41-84 | popped ++ queued is pushed, and the queue is within its bound |
| ChunkQueue.EndsWhenDrained | bindings/python/nanom_shark/chunk_queue.hpp:57-84 | end or error is reported only after finish with everything handed out, tells which, and is repeated |
| ChunkQueue.NoLostWakeUp | bindings/python/nanom_shark/chunk_queue.hpp:41-84 | a thread parked though it could go on is woken by the other's next step, which cannot be blocked |
| ChunkQueue.BothAsleep | bindings/python/nanom_shark/chunk_queue.hpp:41-84 | both sides can be parked at once exactly when the bound is zero |
| ChunkQueue.PopIsAnswered | bindings/python/nanom_shark/chunk_queue.hpp:57-84 | from every reachable state a pop that can be answered is, within seven steps of the threads alone |

## Left out

Members stated for less than every value of their C++ types:

- Lz4.Decompress: inputs up to 2^55 bytes, because the source's overflow test on lengths could fire only beyond that.
- Lz4.ReadExtLen: inputs up to 2^55 bytes, for the same reason.
- Lz4.LiteralStep: inputs up to 2^55 bytes, for the same reason.
- Lz4.MatchStep: inputs up to 2^55 bytes, for the same reason.
- ReassemblyTable.ReassemblyTable.constructor: a size limit below 2^32 is assumed, so that offset plus length does not wrap in 32 bits.
- ReassemblyTable.ReassemblyTable.AddFragment: the 32-bit id counter must not have run out.
- ReassemblyRuns.RunKeepsInv: the id counter of a model run is not 32 bits wide; the code's runs are those with fewer than 2^32 - 1 openings.
- ReassemblyRuns.StepConserves: the same runs.
- ReassemblyRuns.TokensConserved: the same runs.
- ReassemblyRuns.PinnedOnce: the same runs; assumes the documented discipline that a token in use is not handed in again; untracked tokens are not counted.
- ReassemblyRuns.ReleasedIsFree: the same runs and discipline.
- Eviction.RunTracks: the same runs.
- Eviction.EvictsExactly: the same runs.
- Eviction.AddAnswers: the same runs.
- Delivery.CompletesOnLastPiece: the same runs; the table has room when the first piece arrives, nothing is evicted meanwhile, and the datagram is within the size limit.
- RleHybridEncode.Encode: lists of fewer than 2^63 values, as every span is.
- RleHybridEncode.Follow: the same.
- ProtobufWriter.Encode: encodings of fewer than 2^64 bytes, so that sizes do not wrap.
- ProtobufWriter.EncodesExactlyWhatDecodes: the same.
- ThriftWire.DecodeWire: varints of the grammar have their shortest form.
- ProtobufWire.DecodeWire: the same; a length-delimited body of a declared field has that field's structure, and the message is shorter than 2^64 bytes.
- ProtobufEvolution.ReadUnderAnother: encodings of fewer than 2^64 bytes, as every span is.
- ProtobufEvolution.FewerFields: the same.
- DeltaShapes.ShapedRoundTrip: each miniblock has the least width its values fit.
- PcapngFormat.ParsesFile: packet blocks have all five of their words, or fewer than four.
- ProtobufMerge.DecodeMerge: models with required members are excluded, since a alone may then be refused.
- FsstEncoder.Encoder.Add: symbols are distinct and fewer than 255, as the training loop guarantees.
- SpreadNulls.Spreading: a slot of the given width moves as a unit; the order of single bytes within a slot is not modelled.
- Dictionary.Dictionary.IndexOf: the 32-bit index does not wrap.
- ChunkQueue.PopIsAnswered: some schedule answers the pop; that a fair scheduler picks it is not modelled.

What the repository does beyond this model:

- Spans and views are byte values here; lifetimes appear only as the reassembly table's tokens.
- `size_t` arithmetic on in-memory sizes is not given a wrap-around where the sum of two such sizes cannot reach 2^64.
- Error texts; protobuf failure reasons and positions; the field path of Thrift errors; encoder error locations.
- Protobuf members that keep unknown fields or lazy messages, oneof helpers; Thrift lazy members inside messages (lazy reads are modelled on their own); enums, which are read as i32.
- Floating-point members are their bit patterns.
- Bool and computed members of structs (`verify_computed`, checksums), views and overlays; arrays are structs of equal members.
- FSST training: a heuristic; the tables are right for whatever symbols it adds.  Hash functions are arbitrary functions, `hash3` one of the first three bytes.
- The reading of `completion_status`; the fragment key.
- `rle_bitmap_encode`, `copy_bits`, byte-stream-split, statistics, UTF-8 checks, level decoding, decimal widening: easy beside what is here.
- FastLanes blocks, the bulk and GPU paths, generation tracking and view guards.
- The parser combinators, text numbers and error rendering of nom.hpp, the reflection machinery, the packet dissectors, the command line, JSON, Avro, CSV and Arrow output.
- The stop token, the clock and the threads of the hand-off queue are steps of a schedule; memory ordering below the mutex is not modelled.
