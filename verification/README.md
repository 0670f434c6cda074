# RapidProto in Dafny

RapidProto compiles `.proto` schemas into C++ decoders. This project models the parts of it whose
correctness is hard to see from the code, and proves what each of them promises.

| module | what it models |
|---|---|
| `Varint`, `Swar`, `StopMask`, `Spans`, `Packed` | base-128 varints, the 64-bit word tricks, the stop mask, and the packed-varint decoder with its six kernels, classifier and re-classification loop |
| `Groups` | tag readers, field skipping and the mutually recursive group scanner |
| `Arena`, `ArenaReplay`, `Accumulator` | the chunked bump arena, its replay after a reset, and the generated array accumulators that trim its tail |
| `Merge`, `Encoding` | the generated decode loop against protobuf's merge semantics, from bytes to tree, and an encoder written from the field kinds with the round trip through that loop |
| `Slots`, `Planner`, `Flatten` | struct slot ordering, the memoised inlining planner over cyclic schemas, and the flatten budget |
| `DumpWriter` | the width-adaptive JSON writer |
| `Resolver`, `Visibility` | import resolution, public-import visibility, the symbol table and name lookup |
| `Naming` | collision-free C++ ids |
| `Lexer`, `Spelling` | the combinators, the string grammar, escape decoding and the token stream; what the grammars recognise, said in characters, and literals written out by a quoting function |
| `Words` | 64-bit words as integers |
| `Basics` | what several modules share: an optional value, the size limit, rounding up, two counting facts |

How the pieces are represented:

- Bytes are `bv8`, words `bv64`, and cursors indices into a sequence. In the lexer and the UTF-8 encoder
  bytes are integers below 256, and an "or" of disjoint bits is a sum.
- Each word kernel is proved against `Varint.VarintAt` or `Spans.DecodeSpan`, which read one byte and one
  varint at a time, and those against plain integers (`Varint.VarintMeans`, `Spans.SpanMeans`). The bit identities are
  closed formulas over eight raw bytes; the loops only use them by name.
- The arena's state is a value `Mem` with integer addresses, and the class `Arena.Arena` refines the functions
  on it. What the host would answer to a growth is a parameter, with 0 for no memory; for the accumulators it is a
  function of the arena's state.
- A schema's reference graph and a file's imports are given as maps and sequences. The name of a file is its
  canonical path, and a text is given as what parsing makes of it.
- In `Merge` a map entry is decoded as a message with fields 1 and 2, which is how protobuf defines it, and a
  skipped record is shown to take the same bytes as a record that is read.

Where the code does not give what its own comments say:

- `src/arenagen/layout.cpp:98-103` says that every slot's size is a multiple of its alignment. A oneof of a string
  and an int64 is planned as 12 bytes aligned to 8 (lines 384-385), so it is not. `Planner.UnionLeavesPadding` plans
  such a message with one more int64: the order chosen is planned as 32 bytes, and another order of the same slots as
  24. This is about planned extents; the compiler pads the emitted union to 16 bytes, which makes both orders 32.
  `Planner.PaddedExactly` says for every planned message exactly when its order pads: when some slot comes after union
  slots of uneven size whose bytes its alignment does not divide. `Slots.PaddingFreeShapes` says which slot shapes never
  pad, and `Planner.EvenUnionsNoPadding` that a message without uneven unions gets an order that no other order beats.
- `include/rapidproto/arena_runtime.hpp:108-126` lets a caller trim a block by its true size. `Arena.ShrinkExactly`
  says when one trim keeps the arena in order: unless the block ends at the bump pointer while lying in an earlier
  chunk. Runs get there: `ArenaReplay.TrimToNothingEscapes` by trimming a block to no bytes,
  `ArenaReplay.EmptyBlockEscapes` by allocating none. `ArenaReplay.ReachableInOrder` shows that nothing else does: after
  any number of resets, a run whose allocations have bytes and whose trims keep some leaves the arena in order.

## Model

| member | source | states |
|---|---|---|
| `Varint.ReadVarint` | include/rapidproto/runtime.hpp:169-195 | the byte loop yields the base-128 value of the bytes up to the first terminator, with overflow past ten bytes or past bit 63 and truncation told apart |
| `Varint.VarintMeans` | include/rapidproto/runtime.hpp:169-195 | in plain integers: the sum of the low seven bits times 128^i up to the first byte below 128 when that is among ten bytes and the sum below 2^64; truncation when fewer than ten bytes are left, none below 128; overflow in every other case |
| `Varint.RoundTrip` | include/rapidproto/runtime.hpp:169-195 | every 64-bit value, encoded anywhere in a buffer, reads back with the cursor just past it |
| `Swar.WordIsGroups` | include/rapidproto/runtime.hpp:225-287 | masking a loaded word to n bytes and compacting its seven-bit lanes gives the base-128 value of those n bytes |
| `Swar.OneVarintWord` | include/rapidproto/runtime.hpp:411-455 | the word test for one n-byte varint holds exactly when the bytes are one, and then the word value is what the byte reader yields |
| `Swar.TwoVarintWord` | include/rapidproto/runtime.hpp:420-441 | the word test for two n-byte varints holds exactly when the bytes are two, and then both values are right |
| `Swar.NineByteWord` | include/rapidproto/runtime.hpp:462-497 | eight lanes and a ninth byte make the nine-byte varint |
| `Swar.TenByteWord` | include/rapidproto/runtime.hpp:480-490 | eight lanes and bytes nine and ten make the ten-byte varint, whose last byte may carry bit 63 only |
| `Swar.PairWord` | include/rapidproto/runtime.hpp:536-547 | each of four two-byte varints in a word is recovered by the pair shift |
| `StopMask.Ctz64` | include/rapidproto/runtime.hpp:268-279 | the index of the lowest set bit |
| `StopMask.LowestIsUnique` | include/rapidproto/runtime.hpp:268-279 | a word has one lowest set bit, so the index is determined |
| `StopMask.NoCarry` | include/rapidproto/runtime.hpp:288-291 | the byte-gathering multiply adds no two bits in one place |
| `StopMask.StopMask64` | include/rapidproto/runtime.hpp:292-298 | bit i of the mask is set exactly when byte i terminates a varint |
| `StopMask.ScanStops` | include/rapidproto/runtime.hpp:325-383 | the lowest bit of the remaining mask is the next terminator, and clearing it moves to the one after |
| `Packed.ReadVarintPacked` | include/rapidproto/runtime.hpp:664-680 | with eight readable bytes the word reader agrees with the byte reader in value, cursor and error |
| `Packed.PackedStrategy` | include/rapidproto/runtime.hpp:323-383 | the kernel and width chosen are the regime of the varint widths in the window, from one scan of the mask |
| `Packed.FillBulk1` | include/rapidproto/runtime.hpp:518-533 | the one-byte kernel keeps the span's meaning, and stops only at a wider varint or near the end |
| `Packed.FillBulk2` | include/rapidproto/runtime.hpp:534-551 | the two-byte kernel keeps the span's meaning, and stops only where four pairs do not follow |
| `Packed.FixedFill` | include/rapidproto/runtime.hpp:411-455 | the fixed-width kernel keeps the span's meaning, and stops only at another width or near the end |
| `Packed.FixedFillWide` | include/rapidproto/runtime.hpp:462-497 | the nine- and ten-byte kernel keeps the span's meaning, and does not take a tenth byte that overflows |
| `Packed.FillSwar` | include/rapidproto/runtime.hpp:624-636 | the mixed-width kernel keeps the span's meaning, or reports its error and offset |
| `Packed.FillStruct` | include/rapidproto/runtime.hpp:583-623 | the kernel that walks the stop mask keeps the span's meaning, or reports its error and offset |
| `Packed.DecodePackedVarints` | include/rapidproto/runtime.hpp:503-658 | for every span, whatever kernels are picked and however often, the sink receives the values, and the caller the count or the error and offset, of reading one varint at a time; it ends, stays in the span and writes no other slot |
| `Spans.SpanMeans` | include/rapidproto/runtime.hpp:503-658 | the values read one after another to the end of the span, or the error and offset of the first varint that cannot be read |
| `Spans.CountWithinBytes` | include/rapidproto/runtime.hpp:503-658 | there are never more elements than bytes |
| `Spans.DecodeEncoded` | include/rapidproto/runtime.hpp:503-658 | a span of encoded values decodes to those values |
| `Groups.ReadTagIsTagAt` | include/rapidproto/runtime.hpp:682-718 | the fused one-byte tag path changes neither tag, cursor nor error |
| `Groups.ReadTagOrEndIsTagAt` | include/rapidproto/runtime.hpp:726-769 | the fused one- and two-byte paths and the end test change nothing either |
| `Groups.TagMeans` | include/rapidproto/runtime.hpp:682-718 | a tag's number divided by 8 is a field number from 1 to 2^29 - 1 and its remainder the code of a wire type, with the three rejections in their order |
| `Groups.SkipValue` | include/rapidproto/runtime.hpp:828-872 | the skipper's cursor, or its error and the offset of it, which lies in the buffer |
| `Groups.ScanGroupEnd` | include/rapidproto/runtime.hpp:874-916 | the loop up to the matching end tag, with every failure offset in the buffer |
| `Groups.SkipIsSound` | include/rapidproto/runtime.hpp:828-916 | whatever is skipped is a well-nested value within the depth cap |
| `Groups.SkipIsComplete` | include/rapidproto/runtime.hpp:828-916 | every well-nested value within the depth cap is skipped, to just past it |
| `Groups.SkipAcceptsExactly` | include/rapidproto/runtime.hpp:828-916 | acceptance both ways: exactly the well-nested values with matching end tags and at most 100 levels |
| `Groups.SkipFaults` | include/rapidproto/runtime.hpp:828-916 | whatever is refused has a fault of the reported kind at the reported offset |
| `Groups.ReadGroup` | include/rapidproto/runtime.hpp:918-932 | the body ends where the matching end tag starts |
| `Groups.WalkRecords` | src/arenagen/generator.cpp:1809-1890 | the record loop with every field skipped ends cleanly exactly when the bytes are a whole number of records |
| `Groups.GroupBodyIsClean` | include/rapidproto/runtime.hpp:918-932 | a body handed out by the group reader, walked alone, is a whole number of records |
| `Arena.Arena.constructor` | include/rapidproto/arena_runtime.hpp:54-58 | an arena seeded with a caller's buffer is in order and has no live block, its one chunk being the buffer from its first 16-byte boundary on; a missing buffer, or one of at most 16 bytes, gives no chunk |
| `Arena.Arena.Allocate` | include/rapidproto/arena_runtime.hpp:66-78 | an aligned new block apart from all others, or failure with nothing changed; the reserve stays within the limit |
| `Arena.Arena.AllocateSlow` | include/rapidproto/arena_runtime.hpp:209-222 | the next chunk when it fits, else growth, else failure |
| `Arena.Arena.Grow` | include/rapidproto/arena_runtime.hpp:236-273 | a chunk inserted after the cursor, within the capacity limit, or no change |
| `Arena.Arena.AllocateArray` | include/rapidproto/arena_runtime.hpp:82-93 | storage for the elements; no elements and counts that overflow are refused, with nothing changed |
| `Arena.Arena.ShrinkLast` | include/rapidproto/arena_runtime.hpp:115-126 | a trim shortens the named block if it is the last one and is otherwise without effect; it leaves the arena in order exactly when the block does not touch the bump pointer from an earlier chunk |
| `Arena.Arena.Reset` | include/rapidproto/arena_runtime.hpp:129-139 | no live block, every chunk and the reserve kept, the bump pointer at the start of the first chunk |
| `Arena.Arena.SetCapacityLimit` | include/rapidproto/arena_runtime.hpp:154-154 | only the limit changes |
| `Arena.AllocateKeeps` | include/rapidproto/arena_runtime.hpp:66-78 | in every state in order, an allocation keeps live blocks aligned, inside one chunk, pairwise disjoint and none past the cursor, the used count their sum, and the reserve the sum of the chunks |
| `Arena.AllocatesFirst` | include/rapidproto/arena_runtime.hpp:66-273 | every request goes to the first aligned place in the rest of the current chunk, else in the next, else in a chunk grown by the next size or what it needs, and fails with nothing changed exactly when none of the three can be |
| `Arena.ShrinkKeeps` | include/rapidproto/arena_runtime.hpp:115-126 | once the bump pointer has left the start of its chunk, a trim by true size takes back exactly its own tail or nothing |
| `Arena.ShrinkExactly` | include/rapidproto/arena_runtime.hpp:115-126 | a trim by true size keeps the state in order if and only if the block does not end at the bump pointer while lying in an earlier chunk |
| `ArenaReplay.TrimToNothingEscapes` | include/rapidproto/arena_runtime.hpp:115-126 | a run from a fresh arena whose trim to no bytes lets a later trim by true size move the bump pointer out of the current chunk |
| `ArenaReplay.EmptyBlockEscapes` | include/rapidproto/arena_runtime.hpp:66-78 | a run where an allocation of no bytes does the same |
| `ArenaReplay.RunInOrder` | include/rapidproto/arena_runtime.hpp:66-126 | from a state in order, every run of allocations with bytes and trims that keep some ends in order, its reserve within the limit |
| `ArenaReplay.ReachableInOrder` | include/rapidproto/arena_runtime.hpp:66-139 | the same for every state such runs reach from a fresh arena, through any number of resets |
| `ArenaReplay.RunPrefix` | include/rapidproto/arena_runtime.hpp:209-273 | no run ever changes or moves the chunks up to the cursor |
| `ArenaReplay.RunMirrors` | include/rapidproto/arena_runtime.hpp:209-273 | two runs of the same operations over chunk lists that agree where the first goes stay in step |
| `ArenaReplay.Replay` | include/rapidproto/arena_runtime.hpp:129-139 | replaying any successful sequence of allocations and trims right after a reset returns the same addresses and never grows, whatever the host would answer |
| `Accumulator.Accumulator.Append` | src/arenagen/generator.cpp:1251-1275 | one expanded element goes after all others, into a block of four or twice as many elements when there is no room, and no other block changes; out of memory exactly when that block is needed and the arena cannot serve it |
| `Accumulator.Accumulator.PackedVarints` | src/arenagen/generator.cpp:1033-1153 | a packed span's elements go after all others, the capacity never exceeds the block, and the trim takes only the unused tail; out of memory exactly when the span may need more room and the arena cannot serve it |
| `Accumulator.Accumulator.PackedFixed` | src/arenagen/generator.cpp:1033-1153 | the same for a span of fixed-width elements, which must divide evenly |
| `Accumulator.Accumulator.GrowTo` | src/arenagen/generator.cpp:1251-1275 | a larger block with the first n elements copied, or failure, exactly when the arena's request fails |
| `Accumulator.Fields.Arrive` | src/arenagen/generator.cpp:1033-1153 | a record of one field adds its elements to that field and leaves every other field, and every block other code owns, as it was |
| `Accumulator.Fields.Trim` | include/rapidproto/arena_runtime.hpp:115-126 | other code trims a block it owns by true size, and every field and every other block is as it was |
| `Accumulator.DecodePackedSmall` | include/rapidproto/arena_runtime.hpp:691-718 | the short-span loop agrees with the general decoder in values, count, error and offset |
| `Accumulator.Fields.Decode` | src/arenagen/generator.cpp:1033-1153 | any number of repeated fields on one arena, their records interleaved with each other and with allocations and trims of other code in any order: each field's first n slots are all its decoded elements in wire order; it stops at the first event that the arena cannot serve or that is malformed, and never for memory when the current chunk has room for all that the events ask |
| `Accumulator.RoomSuffices` | src/arenagen/generator.cpp:1033-1153 | with room in the current chunk for all that the events ask, each is served there and the bump pointer moves no further than that |
| `Merge.ReadValue` | src/arenagen/generator.cpp:1354-1383 | the value after a tag: a varint, fixed bytes, a payload or a group's body; on failure its error and the offset of it, inside a group where it is |
| `Merge.SkipIsRead` | src/arenagen/generator.cpp:1881-1890 | skipping a record and reading it fail together with one error and offset, and leave the same cursor |
| `Merge.RepeatsIsMerge` | src/arenagen/generator.cpp:1541-1553 | the repeat guard fires exactly when the new record would have to be merged with an earlier one |
| `Merge.AlreadyHeld` | src/arenagen/generator.cpp:905-922 | the guard read off the slot of a singular message or the discriminant of a oneof |
| `Merge.Take` | src/arenagen/generator.cpp:900-938 | one record is taken into its field as protobuf would, or refused exactly when its own payload is, for what is wrong in it |
| `Merge.DecodeElems` | src/arenagen/generator.cpp:1397-1506 | what a record adds to a repeated or map field, with a map entry decoded as a message that merges no value |
| `Merge.DecodeBody` | src/arenagen/generator.cpp:1668-1921 | the decode loop accepts exactly the well-formed bodies that need no merge, have their required fields and accepted sub-bodies, and then builds the tree of protobuf's merge semantics; otherwise it reports what the first record that is not accepted is refused for, with the offset, or else the first missing required field |
| `Merge.Decode` | src/arenagen/generator.cpp:1959-1974 | the same for a whole input, with inputs past 32 bits of length rejected as too large |
| `Merge.FirstMissing` | src/arenagen/generator.cpp:1911-1919 | the first required field, in declaration order, that never occurred, and none exactly when all did |
| `Merge.OneFault` | src/arenagen/generator.cpp:1668-1921 | a body has at most one report, however deep the fault lies |
| `Merge.FaultRefuses` | src/arenagen/generator.cpp:1668-1921 | a body that is accepted has none |
| `Encoding.BodyMeans` | src/arenagen/generator.cpp:1668-1921 | the encoding of a message, written from the kinds of its fields, is accepted exactly when no message in it is written over another or lies more than 100 deep and every required field is written, and then decodes to that message, records of other fields and wire types leaving no trace |
| `Encoding.DecodeEncoded` | src/arenagen/generator.cpp:1959-1974 | the round trip through the public entry |
| `Encoding.PackedIsEach` | src/arenagen/generator.cpp:1155-1179 | a packed record and one record for each of its elements decode to the same message, for every packable kind and whatever stands around them |
| `Merge.Find` | include/rapidproto/arena_runtime.hpp:528-537 | a lookup among the decoded entries of a map field finds the last one whose key, converted to the key's type, is the one sought, which is the value of the map the entries make one after another, or the end exactly when there is none |
| `Merge.SameKey` | include/rapidproto/runtime.hpp:940-991 | two varints are one key exactly when they agree in the low 32 bits, in all 64, or in being zero, as the key's type has it, zigzag included |
| `Merge.MapFieldIsEntries` | src/arenagen/generator.cpp:1397-1506 | in an accepted body every map field is decoded to a list of entries, each with a slot for its key and one for its value |
| `Slots.OrderSlots` | src/arenagen/layout.cpp:120-143 | the slots sorted in place, each offset written to its own member, nothing else written, and the struct's extent |
| `Slots.SortMeans` | src/arenagen/layout.cpp:120-132 | the order is by descending alignment, then descending size, then the tiebreak, of the same slots |
| `Slots.OffsetsAreDisjoint` | src/arenagen/layout.cpp:133-140 | in any order, each slot ends before the next one starts |
| `Slots.OffsetInStruct` | src/arenagen/layout.cpp:133-143 | every slot is aligned and lies in the struct |
| `Slots.SortIsOptimal` | src/arenagen/layout.cpp:98-143 | with power-of-two alignments and sizes that are multiples of them there is no padding between slots, and no ordering is smaller |
| `Slots.PaddingFreeShapes` | src/arenagen/layout.cpp:98-103 | a slot shape never causes padding among well-sized slots if and only if its size is a multiple of its alignment |
| `Slots.PaddingExactly` | src/arenagen/layout.cpp:120-143 | with power-of-two alignments, the order chosen pads if and only if some slot comes after slots of uneven size whose bytes its alignment does not divide |
| `Slots.NoPaddingIsLeast` | src/arenagen/layout.cpp:98-103 | an order without padding is never larger than another |
| `Planner.UnionLeavesPadding` | src/arenagen/layout.cpp:377-392 | a message with a oneof of a string and an int64 is planned with a union of 12 bytes aligned to 8: the order chosen pads, and is planned larger than another |
| `Planner.MaskExtent` | src/arenagen/layout.cpp:483-499 | the mask word holds its bits, is the smallest that does, and is a multiple of its alignment |
| `Planner.AllocateBits` | src/arenagen/layout.cpp:470-482 | each member that needs a presence or value bit has its own bit of the mask, as have the unknown fields; the bits are pairwise distinct, below the count, and none is left over |
| `Planner.FixedMeansInlined` | src/arenagen/layout.cpp:539-558 | a message of fixed size stores every message it refers to by value |
| `Planner.FixedExactly` | src/arenagen/layout.cpp:539-558 | a message is of fixed size exactly when it has no oneof and no map, its fields are numbers, bools, enums and messages, and each message is stored by value |
| `Planner.FieldsMean` | src/arenagen/layout.cpp:273-317 | each field's number, bits and bytes, by its type and whether its message is stored by value |
| `Planner.EntriesHold` | src/arenagen/layout.cpp:319-375 | a map's entry has room for its key and its value |
| `Planner.UnionHolds` | src/arenagen/layout.cpp:377-391 | a union is as large as its largest member and as aligned as its most aligned one |
| `Planner.StructHoldsAll` | src/arenagen/layout.cpp:501-520 | the slots are the bytes of all members, unions with their discriminants and the mask, and the struct has room for them |
| `Planner.Planner.ClassifyMessage` | src/arenagen/layout.cpp:194-206 | a reference is stored by value at its target's own extent only when the target is finished, fixed and small; else behind a pointer |
| `Planner.Planner.Compute` | src/arenagen/layout.cpp:417-468 | one message planned, with every finished layout still the one its references call for, unless a chain was cut |
| `Planner.Planner.LayoutFor` | src/arenagen/layout.cpp:162-176 | the memoised or newly computed layout, which is the table's |
| `Planner.Planner.PlanAll` | src/arenagen/layout.cpp:561-567 | for any order of messages the inlining is well-founded with each member at its target's final size; with no reference chain of 201 messages, each reference is stored by value exactly when its target is of fixed size and not above the cutoff, and every layout is what its references' final layouts call for |
| `Planner.OrderIndependent` | src/arenagen/layout.cpp:162-206 | such a table is unique: kinds, sizes and fixed-size verdicts do not depend on the order of planning, cycles included |
| `Planner.EvenUnionsNoPadding` | src/arenagen/layout.cpp:501-520 | every planned message whose unions are multiples of their alignment has no padding between its slots, and no order of them is smaller |
| `Planner.PaddedExactly` | src/arenagen/layout.cpp:501-520 | for every planned message only unions can be of uneven size, that condition decides whether its order pads, and an order that does not pad is least |
| `Flatten.LayoutSet.Settle` | src/arenagen/layout.cpp:685-706 | a message's cost is its own arms plus what it still inlines, saturating, and it is marked exactly when that is over budget and it inlines something |
| `Flatten.LayoutSet.Expand` | src/arenagen/layout.cpp:711-720 | targets in progress are marked, unvisited ones pushed |
| `Flatten.LayoutSet.WalkFrom` | src/arenagen/layout.cpp:733-747 | the walk with its explicit stack settles everything it reaches and keeps what was settled final |
| `Flatten.LayoutSet.ApplyFlattenBudget` | src/arenagen/layout.cpp:722-748 | every message settled, with nothing changed at budget 0 |
| `Flatten.NoUnmarkedCycle` | src/arenagen/layout.cpp:613-617 | every cycle of inlining has a marked message on it |
| `Flatten.FinalCosts` | src/arenagen/layout.cpp:685-706 | each message is settled once, its final cost is its own arms plus the final costs of its unmarked targets, and an unmarked message is within budget or inlines nothing; off cycles the mark is exactly being over budget |
| `DumpWriter.Writer.WriteValue` | include/rapidproto/dump_runtime.hpp:427-477 | for every document, width and indent, the output without layout is the compact rendering without layout, and the output is the document's layout at that column |
| `DumpWriter.Writer.WriteGroup` | include/rapidproto/dump_runtime.hpp:427-477 | the compact form on the line when it fits; else an array as a grid when there can be one, and anything else one entry per line; always the same content, and no truncated probe is ever emitted |
| `DumpWriter.Writer.Probe` | include/rapidproto/dump_runtime.hpp:427-477 | the probe's text is whole whenever it is short enough to be used |
| `DumpWriter.Writer.EntrySep` | include/rapidproto/dump_runtime.hpp:347-371 | the separator of each mode, closing a cell while collecting |
| `DumpWriter.Writer.Body` | src/dumpgen/generator.cpp:285-322 | every entry is written once, in order, unless the probe or a cap has already failed |
| `DumpWriter.Writer.CollectCells` | include/rapidproto/dump_runtime.hpp:525-545 | the cells are the compact entries, all of them, unless a cap was hit |
| `DumpWriter.Writer.TryGrid` | include/rapidproto/dump_runtime.hpp:525-583 | the whole array as a grid with the largest column count that fits: cells in their columns, no row past the width, no line ending in spaces when no entry is empty; or nothing written, exactly when a cap was hit, a cell spans lines or no count fits |
| `DumpWriter.Writer.ChooseColumns` | include/rapidproto/dump_runtime.hpp:546-580 | the largest column count of at least two that fits, and failure only when a cell spans lines or none fits |
| `DumpWriter.Writer.RenderGrid` | include/rapidproto/dump_runtime.hpp:587-628 | every cell's text stands in its column, every row ends within the end of the last column, the content is the cells joined, and with no empty cell no line ends in spaces |
| `DumpWriter.GridRows` | include/rapidproto/dump_runtime.hpp:587-628 | in the emitted text, cells of a column start or right-align together, and neighbours on a row are the comma and at least a space apart |
| `DumpWriter.TooManyColumns` | include/rapidproto/dump_runtime.hpp:558-561 | more columns than the starting count can never fit |
| `DumpWriter.CompactIsJson` | include/rapidproto/dump_runtime.hpp:347-371 | the compact form is the document as a line of JSON |
| `DumpWriter.NumericMeans` | include/rapidproto/dump_runtime.hpp:513-522 | what is right-aligned starts with a digit or a minus sign and has only characters of a number |
| `Resolver.Resolver.Visit` | src/resolver.cpp:153-212 | a file and all it imports are finished with the stack as before, or the error names a real defect: a cycle of import edges, a missing import, a bad text, or a chain of 101 files |
| `Resolver.Resolver.RenderCycle` | src/resolver.cpp:141-150 | the path reported is a cycle of import edges through the file, with no other file twice |
| `Resolver.Resolver.Run` | src/resolver.cpp:95-116 | on success no file twice, imports first, exactly what the entries reach, and the index of each; on failure a real defect |
| `Resolver.ResolutionIsAcyclic` | src/resolver.cpp:153-212 | no file of a successful run lies on an import cycle |
| `Resolver.ResolutionMeansSound` | src/resolver.cpp:153-212 | when the inputs describe one graph, success means that nothing the entries reach is missing, malformed or on a cycle |
| `Visibility.SymbolTable.CollectSymbols` | src/resolve.cpp:100-145 | succeeds exactly when no type name is defined twice, and then the table is exactly the definitions |
| `Visibility.SymbolTable.Record` | src/resolve.cpp:100-109 | refuses exactly a name that is taken |
| `Visibility.AddPublicClosure` | src/resolve.cpp:156-172 | everything newly visible is seen, and all it passes on by public imports is visible |
| `Visibility.VisibleFiles` | src/resolve.cpp:176-191 | exactly the file, its non-option imports and what those pass on by public imports, though the worklists share one set |
| `Visibility.ParentScope` | src/resolve.cpp:55-58 | the next enclosing scope, with none between; the empty scope has itself |
| `Visibility.ResolveName` | src/resolve.cpp:194-221 | the match at the innermost enclosing scope, failure exactly when no enclosing scope has a visible match, and a visible type defined in the scope itself first of all |
| `Visibility.FoundFromItsScope` | src/resolve.cpp:100-221 | a message or enum defined in any message of a visible file is found by its own name from inside that message |
| `Visibility.InnermostIsUnique` | src/resolve.cpp:194-221 | that match is unique |
| `Naming.Escalate` | src/codegen/naming.cpp:502-513 | the loop ends at the first free escalation |
| `Naming.ClaimPackageComponents` | src/codegen/naming.cpp:408-431 | each component is claimed in its parent's namespace |
| `Naming.ClaimToplevelIds` | src/codegen/naming.cpp:460-515 | ids are pairwise distinct in each namespace and distinct from child packages, none is a reserved name, every type is named after itself in its own namespace, and one whose name is not reserved and has no rival is spelled as it is |
| `Naming.SanitizeMeans` | src/codegen/naming.cpp:163-172 | a name with a prefix of the generator's or among the reserved words takes one underscore, any other none |
| `Naming.IdsAreApart` | src/codegen/naming.cpp:433-515 | the same of the assignment as a function of the files |
| `Naming.EveryTypeIsNamed` | src/codegen/naming.cpp:433-459 | a name that needs no escape and meets neither a package nor an equal literal is kept exactly |
| `Naming.FileOrderIsIrrelevant` | src/codegen/naming.cpp:460-515 | with unique qualified names the whole assignment is the same for any permutation of the files |
| `Naming.AssignIds` | src/codegen/naming.cpp:324-331 | members of a class get distinct ids made from their own names, none of them a reserved name, and a free name is kept |
| `Naming.IndexMessage` | src/codegen/naming.cpp:350-397 | in every class at every depth no two members share an id and none has its class's |
| `Lexer.Run` | include/rapidproto/combinators.hpp:60-105 | a parser stops in the input, or fails at a place in it |
| `Lexer.EscapeIs` | src/lexer.cpp:218-242 | the grammar's escapes end where their second byte and the digits after it say |
| `Lexer.QuotedIs` | src/lexer.cpp:244-264 | a recognised literal is a quote, whole items up to the close, and the same quote |
| `Lexer.BodyStep` | include/rapidproto/combinators.hpp:262-291 | inside a body there is an item at every boundary and it does not pass the close |
| `Lexer.DecodeEscape` | src/lexer.cpp:398-479 | the decoder stops at the grammar's boundary with the item's value |
| `Lexer.DecodeString` | src/lexer.cpp:482-496 | the value of the literal item by item as the grammar splits it, ending on the closing quote, or the first bad escape and its offset |
| `Lexer.BodyAppends` | src/lexer.cpp:508-544 | what was decoded before stands in front of the rest and does not affect it |
| `Lexer.Utf8RoundTrip` | src/lexer.cpp:355-372 | every scalar value is written as a sequence that stands for it by RFC 3629 |
| `Lexer.Utf8IsUnique` | src/lexer.cpp:355-372 | and as the only one |
| `Lexer.ReadUnicode` | src/lexer.cpp:377-393 | exactly the digits of the escape are read; surrogates and values out of range are refused |
| `Lexer.CategoryMoves` | src/lexer.cpp:323-328 | every category consumes something, so the stream always moves on |
| `Lexer.TokenStream` | src/lexer.cpp:323-328 | each raw token starts where the one before it ends and is what its category recognises, as far as any matches |
| `Lexer.SpansConcatenate` | src/lexer.cpp:312-328 | the raw spans concatenate to the text they cover |
| `Lexer.AppendString` | src/lexer.cpp:510-544 | a run of literals becomes one token with the concatenated value, and the trivia after it is passed |
| `Lexer.BuildTokens` | src/lexer.cpp:546-595 | succeeds exactly when every number, comment and literal is sound, and then the tokens account for every raw token that is not trivia, keywords told from other words and ints from floats; else it reports the first fault, at its offset |
| `Lexer.TokensAscend` | src/lexer.cpp:546-595 | token texts are disjoint and in source order |
| `Lexer.Lex` | src/lexer.cpp:607-636 | succeeds exactly when the raw tokens cover everything after the byte order mark and are sound; else the error is that of the committed failure, of the first fault, or of the first byte no token starts with |
| `Spelling.IdentMeans` | src/lexer.cpp:199-202 | a word is a letter or underscore and then letters, underscores and digits as far as they go |
| `Spelling.WhitespaceMeans` | src/lexer.cpp:323-328 | whitespace is blanks, tabs and line ends as far as they go |
| `Spelling.SymbolMeans` | src/lexer.cpp:133-174 | one of the sixteen symbol characters |
| `Spelling.CommentMeans` | src/lexer.cpp:266-279 | a comment runs to the end of its line or through the first closing mark |
| `Spelling.NumericMeans` | src/lexer.cpp:204-216 | a digit, perhaps after a dot, and the greedy munch of digits, dots, letters and signs after an e |
| `Spelling.NumberMeans` | src/lexer.cpp:283-308 | exactly the hexadecimal, octal and decimal integers are ints, and exactly the three forms of a fraction are floats |
| `Spelling.SymbolIsLast` | src/lexer.cpp:323-328 | a slash is a symbol only where no comment starts, a dot only where no number does |
| `Spelling.DecodeWritten` | src/lexer.cpp:398-496 | a literal written item by item, each as itself, by name, in octal, in hexadecimal or as a code point, decodes to what was written |

## Left out

- Threading of the decode loop (hub, labels, successor probes): the model has the plain tag switch they are derived from.
- Allocation failure inside `Merge`: the tree is a value, and running out of memory is modelled in `Arena` and `Accumulator`.
- `Merge.DecodeBody`: scalar values stay raw, without zigzag or float conversion; raw-mode fields and the unknown-field bit are not modelled.
- `Arena.Arena.Allocate`: addresses are unbounded integers, so wrap-around of a pointer in `align_up` is not modelled.
- `Accumulator.Fields.Decode`: other code trims a block at most once, since it is not told whether the trim took effect; what it writes into its blocks is not modelled.
- `Flatten.LayoutSet.ApplyFlattenBudget`: the inlined targets and own arms of each message are given, not collected from the layout's members.
- `Planner.Planner.PlanAll`: field modes are given as shapes (a dropped field is absent, a raw one a payload view), and the dump order of members is not modelled.
- `Planner.OrderIndependent`: is about tables no chain cut short; past the depth cap only well-foundedness and sizes are claimed.
- `DumpWriter.Writer.WriteGroup`: the exact text is given for documents no scalar of which is written as nothing, as every scalar printer writes something; the content is given for all.
- `DumpWriter.Writer.WriteValue`: skip paths, number formatting and string escaping happen before a scalar reaches the model as text.
- `Resolver.Resolver.Visit`: path canonicalisation, include-path search and parsing are inputs.
- `Naming.ClaimToplevelIds`: the reserved words are a parameter, and a package is its list of components, so splitting at dots and joining with colons are not modelled.
- The `.proto` grammar, feature and option interpretation, the streaming generator, callback matching, the command line, and all printing of C++ text.
- Float parsing and printing, which rest on library conversions and locales.
