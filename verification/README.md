# ProtoCache wire format, verified

This project models the encoders and zero-copy readers of ProtoCache and proves that they agree: the
perfect-hash index inside maps, the array, map and message encoders over the reverse-growing buffer, the
recursive encoder over dynamic messages, lazily decoded mutable messages, extent detection, the run-length
compressor, and the naming pass of the code generator.

Words are integers below 2^32, strings are byte sequences, scalars are the words of their bit pattern. A slice
of encoded words is a suffix of the enclosing words, so the offsets inside an encoding are relative and nothing
depends on addresses. The hash is an arbitrary function, and the 40 seeds of an index build are an arbitrary function
of the time it happens at, so the index results hold for every hash and every clock.

`dafny verify dfyconfig.toml` checks everything.

## How it is organised

- `Bits`, `FastMod`, `Packing`, `Wrappers`: machine words, 2-bit digits and popcounts, remainder by
  multiplication, little-endian bytes, varints.
- `Peeling`, `PerfectHash`, `IndexFormat`, `IndexBuilder`: the 3-uniform hypergraph and its linked lists, the rank
  lookup, the bytes of an index described on their own, and the builder that ties them together.
- `Buffers`, `Cells`, `Compaction`, `Containers`, `MapContainers`, `Strings`, `Messages`, `MessageEncoder`: the
  encoders, each method proved against a pure layout function.
- `Views`, `ContainerReading`, `Records`, `Extents`, `Lookup`, `Cores`: the readers, what they see in an encoding
  followed by any words, how far an encoding extends, and what detection leaves of one that carries spare words.
- `Schemas`, `TreeReading`, `WireFormat`, `Conveying`, `Counting`, `Overflows`, `Sizing`: schema-typed value trees, the
  wire format as a relation between values and words, the weaker relation every reader depends on, layouts in which
  a count has overflowed, and which values can be written.
- `Delivery`, `MapKeys`, `TreeEncoder`: the recursive encoder.
- `Format`: every layout in plain arithmetic, without the functions that the encoders and readers share.
- `AccessSets`, `MutableValues`, `Overruns`, `MutableEncoder`, `Decoding`, `LazyMessages`, `MessageRuns`: mutable
  messages.
- `Runs`, `Compression`: a reference run encoder and byte-at-a-time decoder, and the fast ones that refine them.
- `Naming`: the generator's name assignment.

Each encoder method is specified by the words it leaves in the buffer (`ArrayWords`, `MapWords`, `MessageWords`,
`RecordWords`, `StringWords`). The rebuilding and the in-place container encoders have the same postcondition, so
they leave the same buffer. A definition that encoder and reader share could be wrong without any of them disagreeing,
so each is tied to what it stands for: index bytes and sizes (`LayoutFits`, `IndexIsLaidOut`), key bytes
(`KeyBytesExact`), the words of every layout (`Format`), which fields are left out (`NormKeeps`, `FieldsLeft`,
`StateLeft`), what an absent field is taken for (`AbsentValue`, `EmptyReads`), runs (`RunFormat`) and spelled names.

`EncodingOf` relates a typed value to every word sequence that encodes it. `Conveys` relates it to every word
sequence in which all readers see it: whatever follows the words, they read as the value, every map in them can be
iterated and searched, they are never taken for a pointer, and detection finds exactly these words. Encodings convey
their value (`FormatConveys`), and what conveys a value reads as it (`ConveysReads`). `EncodeValue` produces
encodings. Mutable messages produce words that start with words conveying the value (`Framed`), take such words as
their source, and so can be decoded, changed and serialized any number of times (`EditMessage`).

## What the proofs show about the code

- A section word keeps 14 bits of the running cell count and the writer shifts it without a check. A field is
  read from its own cell if and only if the count in front of its section is below 2^14 (`FieldFoundIff`,
  `OffsetExact`). Every message of at most 5462 field numbers is safe and no larger bound is (`CountLimitIsSharp`),
  although up to 6387 numbers are accepted. The encoders conclude for the counts that actually occur: what the tree
  encoder leaves is an encoding, or the layout of the value in which some message's count has overflowed
  (`EncodedOrOverflown`; `Laid` computes whether all counts fit, and they do exactly in encodings, `LaidEncodes`,
  `EncodingLaid`); what the mutable encoder leaves conveys the value unless a count has overflowed in these very words
  (`Overrun`). Whether one can overflow is bounded by the types of the present fields, exactly (`Roomy`,
  `RoomyIsExact`), and cannot when at most 5462 are present (`FewFieldsRoomy`). Values within this bound never
  overflow (`CountableFits`, `CountableSound`), which includes every value of a schema of up to 5462 field numbers
  (`SafeCountable`).
- The index builder gives up exactly from 2^28 keys or when all 40 seeds of the time fail (`PlanKeys`). The success
  conditions (`Accepted`, `MAccepted`) exclude maps for which that can happen at some time of the clock, in some order
  of the keys; a single bad seed does not matter.
- `MutableMessage::has_field` is documented as also covering fields that have been set
  (`protocache-core/src/mutable.rs:578-582`); the code only looks at the source message. A field stored in a new
  message is not reported (`StoredButNotReported`); after a run the code does what the documentation says exactly
  when every field stored is present in the source (`HasFieldIff`).
- A sub-message that was materialised by its parent's accessor but not touched itself is copied with everything
  that follows it in the source (`SpareWordsKept` gives such a source). The copy still reads the same; detection finds
  only the words that convey the message, and all of the copy exactly when it consists of those (`CleanExtent`).
  The same holds of every message around it (`SerializedReads`, `DetectedPrefix`), and when every message that is
  copied is tight in this sense (`Tight`) the whole output is found. When all sources are in the wire format and
  untouched messages consist of nothing else (`Canonical`), the output is in the wire format again; whatever is built
  without a source is of this kind (`UnsourcedCanonical`, `BuildMessage`).
- A stored default is not written, and a reader takes an absent field for just this default, so every field shows what
  was stored in it (`EmptyReads`, `RunShown`). Presence alone is lost: a field stored as zero reads back as absent.
- A sub-message that the schema makes an alias of a list of bools encodes to a single zero word when empty and then
  counts as absent; aliases of other lists and of maps do not (`Blank`).
- The scalar loop of the mutable array encoder does not check the element count against the 30 bits of the header,
  unlike every other array encoder. The list is read back in full if and only if it has fewer than 2^30 elements
  (`ScalarCountIff`); a list of 2^30 elements reads back empty (`CountLost`).

## Model

| member | source | states |
|---|---|---|
| `FastMod.FastModIsRemainder` | protocache-core/src/perfect_hash.rs:170-178 | multiplying by the precomputed magic, with the 64-bit wrap and the 128-bit product, gives the remainder for all 32-bit values and divisors from 2 |
| `Peeling.BuildLists` | protocache-core/src/serialize.rs:267-291 | the intrusive lists hold exactly the edges of every slot, doubly linked in both directions |
| `Peeling.UnlinkNode` | protocache-core/src/serialize.rs:312-333 | unlinking one vertex keeps the list invariants of every slot and enqueues a slot only when one edge is left in it |
| `Peeling.RemoveEdge` | protocache-core/src/serialize.rs:303-334 | removing an edge unlinks it from its three slots, never enqueues a slot twice, and keeps the queue invariant |
| `Peeling.PeelGraph` | protocache-core/src/serialize.rs:257-341 | an order is returned exactly when no nonempty set of edges touches each of its slots twice; it is a permutation in which every edge has a slot no later edge uses |
| `Peeling.PeelOrderExcludesCore` | protocache-core/src/serialize.rs:336-340 | a peel order and a core cannot both exist |
| `Peeling.StuckIsCore` | protocache-core/src/serialize.rs:336-340 | when the queue runs dry early, the edges left over are a core |
| `Peeling.TwinEdgesAreACore` | protocache-core/src/serialize.rs:336-340 | two equal edges are a core |
| `PerfectHash.LayoutFits` | protocache-core/src/perfect_hash.rs:121-135 | 105 slots a section for every 256 keys, rounded up, and at least ten; bits for three sections in the fewest whole 8-byte blocks; the narrowest counter that holds the number of keys, none up to 24 |
| `PerfectHash.SlotsAreEdge` | protocache-core/src/perfect_hash.rs:93-103 | the slots a reader computes are the edge the builder peeled: each hash modulo the section, one in each of three sections |
| `PerfectHash.LocateSlotsIsRank` | protocache-core/src/perfect_hash.rs:105-118 | masked popcount plus block counter is the number of used slots in front of the picked slot |
| `PerfectHash.DuplicatesUnpeelable` | protocache-core/src/serialize.rs:388-407 | equal keys cannot be separated under any seed |
| `IndexBuilder.SetBit2` | protocache-core/src/serialize.rs:229-234 | changes exactly one 2-bit value of the bitmap |
| `IndexBuilder.AssignEdge` | protocache-core/src/serialize.rs:413-434 | the value chosen for an edge makes its three slots sum to the picked one modulo 3 and disturbs no edge assigned before |
| `IndexBuilder.AssignSlots` | protocache-core/src/serialize.rs:410-435 | in reverse peel order every edge gets a slot of its own, and all unpicked slots keep the value 3 |
| `IndexBuilder.BuildTable` | protocache-core/src/serialize.rs:442-460 | every block counter is the rank at its block, and no 1-, 2- or 4-byte counter overflows |
| `IndexBuilder.RanksAreBijection` | protocache-core/src/serialize.rs:462-466 | the ranks of the picked slots are a bijection onto [0, n) |
| `IndexBuilder.IndexLocates` | protocache-core/src/perfect_hash.rs:23-118 | parsing the index bytes, also with map widths on top of the header, and looking up a key gives its rank |
| `IndexBuilder.IndexIsLaidOut` | protocache-core/src/serialize.rs:410-469 | read byte by byte, an index holds the number of keys, the seed, two bits a slot and a counter a block; the bits at the three slots of a key select one of them, and the used slots in front of it are the key's position |
| `IndexBuilder.BuildIndexWithPositions` | protocache-core/src/serialize.rs:366-469 | for any hash: a result is an index in this format over the first seed that separates the keys, whose positions are a bijection that every reader finds; no result exactly when there are 2^28 keys or more or all 40 seeds fail; never a result for duplicate keys |
| `Packing.PackUnpack` | protocache-core/src/access.rs:1208-1212 | bytes laid out in words read back, zero padded |
| `Packing.LittleEndian` | protocache-core/src/access.rs:1208-1212 | each word stands for its four bytes from the low end |
| `Packing.VarintRoundTrip` | protocache-core/src/utils.rs:438-455 | a varint below 2^35 followed by anything is read back with its length |
| `Packing.WriteVarint` | protocache-core/src/serialize.rs:108-117 | writes the varint of the value |
| `Packing.ParseVarint` | protocache-core/src/utils.rs:438-455 | agrees with the reference reader on every input, errors included |
| `Buffers.SegmentSurvives` | protocache-core/src/utils.rs:170-262 | a segment addressed from the end keeps its contents while the words behind its start stay |
| `Buffers.UnitSurvivesPrepend` | protocache-core/src/serialize.rs:133-142 | prepending words changes no unit |
| `Buffers.Buffer.Grow` | protocache-core/src/utils.rs:250-264 | reallocation keeps the active words |
| `Buffers.Buffer.Expand` | protocache-core/src/utils.rs:215-225 | the old words follow the new ones |
| `Buffers.Buffer.Shrink` | protocache-core/src/utils.rs:232-235 | drops words from the front only |
| `Buffers.Buffer.PutWords` | protocache-core/src/utils.rs:243-247 | prepends the words |
| `Buffers.FoldField` | protocache-core/src/serialize.rs:473-483 | a segment of fewer than four words at the front moves inline with its words, anything else stays |
| `Strings.NewStringView` | protocache-core/src/access.rs:52-78 | the header loop returns the payload slice or refuses, as the reference reader |
| `Strings.DetectLen` | protocache-core/src/access.rs:82-105 | the header loop returns the length in words, as the reference reader |
| `Strings.StringRoundTrip` | protocache-core/src/access.rs:52-111 | every byte string below 2^30 bytes followed by any words reads back, and its exact extent is detected |
| `Strings.StringFirstWord` | protocache-core/src/serialize.rs:511-542 | the first word of a byte string is never tagged as a pointer, and is zero only for the empty string |
| `Strings.SerializeBytes` | protocache-core/src/serialize.rs:511-542 | delivers the words of the string, inline exactly when one word suffices; fails exactly from 2^30 bytes |
| `Cells.BestWidth` | protocache-core/src/serialize.rs:198-206 | the width is the cheapest of 1 to 3, the narrowest on a tie |
| `Cells.BestSize` | protocache-core/src/serialize.rs:190-215 | the accumulated sizes give the best width and its cost |
| `Cells.BodyCost` | protocache-core/src/serialize.rs:190-195 | cells plus spilled payloads take exactly the computed cost |
| `Cells.UniformWidth` | protocache-core/src/serialize.rs:198-206 | elements of one length of 1 to 3 words get cells of that width |
| `Cells.BodyShows` | protocache-core/src/access.rs:197-204 | every cell shows its item zero padded, or points at its copy, whatever follows |
| `Compaction.PickUnit` | protocache-core/src/serialize.rs:145-170 | a unit's payload moves to the back of the free space, or inline when it fits the cell; nothing else changes |
| `Compaction.NextUntouched` | protocache-core/src/serialize.rs:675-677 | the next unit's segment still lies untouched in front of the compacted payload |
| `Compaction.PickStep` | protocache-core/src/serialize.rs:675-677 | compaction from the back keeps the payload in element order at the end of its region |
| `Compaction.MarkUnit` | protocache-core/src/serialize.rs:173-187 | prepends the cell of a placed unit |
| `Compaction.MarkStep` | protocache-core/src/serialize.rs:679-681 | the cell written for a placed unit is the cell of its item |
| `Containers.SerializeArrayAt` | protocache-core/src/serialize.rs:688-718 | the array layout of the copied units in front of everything older than `last`; fails exactly on unreadable units, a bad boundary or 2^30 words |
| `Containers.SerializeArrayAtMut` | protocache-core/src/serialize.rs:654-684 | in place, for nonempty units in order, the same buffer as the rebuilding encoder |
| `MapContainers.PutMapIndex` | protocache-core/src/serialize.rs:727-735 | prepends the index with both cell widths in its header word |
| `MapContainers.SerializeMapAt` | protocache-core/src/serialize.rs:835-891 | the map layout of the copied units, and exactly when it fails |
| `MapContainers.SerializeMapAtMut` | protocache-core/src/serialize.rs:744-785 | in place, the same buffer as the rebuilding encoder |
| `MapContainers.SerializeMapPairsAtMut` | protocache-core/src/serialize.rs:788-826 | in place over an array of pairs, the same buffer as the rebuilding encoder |
| `ContainerReading.ArrayReads` | protocache-core/src/access.rs:492-566 | every element of an encoded array shows its unit's words, whatever follows |
| `ContainerReading.ScalarArrayWidth` | protocache-core/src/access.rs:569-578 | arrays of L-word elements have width L, as typed scalar access requires |
| `ContainerReading.MapCarriesIndex` | protocache-core/src/access.rs:813-836 | the width bits on top of the header leave the index readable |
| `ContainerReading.MapReads` | protocache-core/src/access.rs:813-905 | every pair of an encoded map shows its key and value, and the index finds every key's position |
| `Messages.FieldReads` | protocache-core/src/access.rs:439-478 | the view of a present field starts at its cell and runs on behind the message |
| `Messages.FieldAbsent` | protocache-core/src/access.rs:439-478 | empty and out-of-range ids read as absent |
| `Messages.FieldRoundTrip` | protocache-core/src/access.rs:439-478 | a field reads as exactly its inline words or its referenced segment |
| `Messages.OffsetExact` | protocache-core/src/access.rs:455-471 | the popcount position is the writer's exactly when the section count fits 14 bits |
| `Messages.FieldFoundIff` | protocache-core/src/serialize.rs:614-635 | the reader finds the cell the writer filled if and only if the section count fits 14 bits |
| `Messages.CountLimitIsSharp` | protocache-core/src/serialize.rs:614-617 | all counts fit for every message of n fields if and only if n is at most 5462; beyond, a message of three-word fields fails |
| `Messages.ExtentExact` | protocache-core/src/access.rs:342-357 | the detected inline length is header plus body exactly when the last section count fits |
| `MessageEncoder.SerializeMessageAt` | protocache-core/src/serialize.rs:553-638 | the message layout of the fields up to the last nonempty one, one zero word without any, and exactly when it fails |
| `Cores.RecordReads` | protocache-core/src/access.rs:439-478 | every field of a record with its payloads shows its encoding, whatever follows |
| `Cores.RecordExtentExact` | protoc-gen-pcrs/src/main.rs:1062-1106 | the generated reverse scan over fields stops early and returns exactly the record's length |
| `Records.RecordDone` | protocache-extension/src/serialize.rs:97-133 | fields encoded from the highest number down and folded complete to the record layout |
| `Counting.RoomyFits` | protocache-core/src/serialize.rs:614-635 | present fields within the bound of their types overflow no section count |
| `Counting.RoomyIsExact` | protocache-core/src/serialize.rs:614-635 | the bound holds if and only if no message of these fields overflows a section count |
| `Counting.FewFieldsRoomy` | protocache-core/src/serialize.rs:614-635 | at most 5462 present fields are within the bound, whatever their numbers |
| `Counting.SafeCountable` | protocache-core/src/serialize.rs:614-635 | every value of a schema of at most 5462 field numbers a message is within the bound |
| `Overflows.LaidEncodes` | protocache-core/src/serialize.rs:614-635 | a layout in which every message's running count fits 14 bits is an encoding |
| `Overflows.EncodingLaid` | protocache-core/src/serialize.rs:614-635 | in an encoding all counts fit |
| `Overflows.RecordOutcome` | protocache-core/src/serialize.rs:553-638 | a record of encoded or overflown fields is an encoding, or itself overflown |
| `Overflows.CountableEncodes` | protocache-core/src/serialize.rs:614-635 | within the bound of the types, every layout is an encoding |
| `Extents.DetectArrayWith` | protocache-core/src/access.rs:1166-1181 | the early-exit loop computes the scan, for any element detector |
| `Extents.DetectMapWith` | protocache-core/src/access.rs:1184-1206 | the early-exit loop computes the scan, value before key |
| `Extents.DetectMessageLen` | protoc-gen-pcrs/src/main.rs:1074-1104 | the emitted field scan, highest id first, for any field detectors |
| `Cores.ScanCore` | protocache-core/src/access.rs:1172-1179 | the first element from the back that reaches past the cells has the last payload, and the scan ends behind its value |
| `Cores.ArrayExtentExact` | protocache-core/src/access.rs:1166-1181 | the detected extent of an encoded array followed by anything is its length |
| `Cores.MapExtentExact` | protocache-core/src/access.rs:1184-1206 | the detected extent of an encoded map followed by anything is its length |
| `Cores.ArrayCoreExtent` | protocache-core/src/access.rs:1166-1181 | when elements carry spare words, the scan stops behind the value of the last payload |
| `Cores.MapCoreExtent` | protocache-core/src/access.rs:1184-1206 | the same for maps |
| `Cores.RecordCoreReads` | protocache-core/src/access.rs:439-478 | every field still reads in a message cut there, whatever words follow |
| `Cores.RecordCoreExtent` | protoc-gen-pcrs/src/main.rs:1062-1106 | the field scan stops at this cut |
| `Conveying.FindsExactly` | protocache-core/src/access.rs:909-936 | lookup finds a key of the map at its position, and no key outside the map |
| `Conveying.FindsValue` | protocache-core/src/access.rs:909-936 | the value found under a key is the one encoded with it |
| `Schemas.NormTidy` | protocache-extension/src/serialize.rs:99-125 | nothing is left out of a value if and only if it has no deprecated or unknown fields and no blank sub-messages |
| `Schemas.NormKeeps` | protocache-extension/src/serialize.rs:97-125 | what is encoded of a message is exactly the fields the schema declares and does not mark deprecated, unless they are blank sub-messages |
| `Schemas.KeyBytesExact` | protocache-core/src/mutable.rs:752-763 | a string key is hashed as it is, a number as all the bytes of its words |
| `Schemas.KeyBytesDiffer` | protocache-core/src/mutable.rs:752-763 | different keys of one kind are different bytes to the hash |
| `TreeReading.ObjectShown` | protocache-core/src/access.rs:197-204 | an object in a cell is followed exactly when it was spilled: inline and pointer are never confused |
| `TreeReading.FieldReadsValue` | protocache-core/src/access.rs:217-285 | a field that shows words of a value reads as the value |
| `TreeReading.ArrayTag` | protocache-core/src/serialize.rs:654-718 | an array of at most three words is never tagged as a pointer |
| `TreeReading.MapTag` | protocache-core/src/serialize.rs:727-891 | a map of at most three words is never tagged as a pointer |
| `TreeReading.RecordIsMessage` | protocache-core/src/serialize.rs:584-599 | a record of at most three words is never tagged as a pointer |
| `TreeReading.ZeroWordIsBlank` | protocache-extension/src/serialize.rs:112-125 | a single zero word can only encode a blank sub-message |
| `Conveying.ConveysReads` | protocache-core/src/access.rs:197-290 | words that convey a value read as it and are detected exactly, whatever follows them |
| `Conveying.FormatConveys` | protocache-core/src/access.rs:197-290 | words in the wire format convey their value, with every map searchable at every depth |
| `Conveying.FormatReads` | protocache-core/src/access.rs:197-290 | words in the wire format of a typed value read as the value and are detected exactly, whatever follows them |
| `Conveying.ListFramed` | protocache-core/src/access.rs:492-566 | an array of elements that start with words conveying their values starts with words conveying the list, and conveys it when the elements do |
| `Conveying.MapFramed` | protocache-core/src/access.rs:813-936 | the same for maps: every entry is read once, and lookup finds exactly the keys |
| `Conveying.RecordFramed` | protocache-core/src/access.rs:342-478 | the same for messages |
| `Conveying.DetectedPrefix` | protocache-core/src/access.rs:1166-1222 | the part that detection finds conveys the value, and is everything exactly when all the words convey it |
| `MapKeys.Reorder` | protocache-extension/src/serialize.rs:284-287 | every key is put at its index position and no position stays empty |
| `MapKeys.BytesApart` | protocache-extension/src/serialize.rs:271-287 | the keys of a map are given to the index builder as pairwise different bytes |
| `MapKeys.PlanKeys` | protocache-extension/src/serialize.rs:271-287 | entries listed in any order, given to the builder as pairwise different key bytes, indexed in the index format with the seeds of the time and arranged in position order; fails exactly on a key of another type or when all 40 of these seeds fail for the keys in this order |
| `Sizing.ArrayWithin` | protocache-core/src/serialize.rs:190-215 | an array takes at most the bounds of its elements, each with a word for its cell |
| `Sizing.PairsWithin` | protocache-core/src/serialize.rs:835-860 | the pairs of a map, in whatever order, take at most the bounds of its entries |
| `Sizing.RecordLength` | protocache-core/src/serialize.rs:553-638 | a message takes at most its header, its data and one pointer a field |
| `TreeEncoder.EncodeValue` | protocache-extension/src/serialize.rs:136-211 | a value encoded successfully is in the wire format of its type, less deprecated fields and blank sub-messages, unless the actual count of some message overflowed; encoding succeeds for every value of the type whose weight is below 2^30 words and whose maps can be indexed at every time of the clock |
| `TreeEncoder.EncodeMessage` | protocache-extension/src/serialize.rs:71-84 | the same for messages; an alias is encoded as the list or map it stands for |
| `TreeEncoder.EncodeRecord` | protocache-extension/src/serialize.rs:86-134 | the same for records, fields from the highest number down; exactly the declared fields that are not deprecated, present and not blank are found in the words |
| `TreeEncoder.EncodeSlot` | protocache-extension/src/serialize.rs:105-127 | one field: dropped exactly when blank, folded when small; succeeds on accepted fields |
| `TreeEncoder.EncodeList` | protocache-extension/src/serialize.rs:213-261 | the same for lists: bools as bytes, an inline header when empty, otherwise an array |
| `TreeEncoder.EncodeMap` | protocache-extension/src/serialize.rs:263-303 | the same for maps, by all the bytes of their keys; fails on a map of the type only when it is too large or all seeds of some time fail for its pairwise different keys |
| `TreeEncoder.SerializeDynamicMessage` | protocache-extension/src/serialize.rs:41-52 | the buffer ends up holding exactly one layout of the message, an encoding unless an actual count overflowed, and always one within the bound of the types; no deprecated field is found in it, and every other field that is present and not blank is; succeeds on every accepted message |
| `TreeEncoder.TreeRoundTrip` | protocache-extension/src/serialize.rs:33-52 | the encoding reads as the tree in any place, with exact extent; a tidy tree comes back unchanged |
| `Format.StringFormat` | protocache-core/src/serialize.rs:511-542 | four times the length, seven bits a byte from the low end, then the bytes, then zeros up to a whole word |
| `Format.BoolsFormat` | protocache-extension/src/serialize.rs:213-261 | a list of bools is such a string of bytes 1 and 0 |
| `Format.ArrayFormat` | protocache-core/src/serialize.rs:654-718 | the header holds the count over the cell width, which is the cheapest and the narrowest of those; the size is that of header, cells and spilled elements |
| `Format.ArrayCellFormat` | protocache-core/src/serialize.rs:145-215 | every element lies in its cell, zero padded, or behind all cells in order, at a distance counted from its cell |
| `Format.MapFormat` | protocache-core/src/serialize.rs:835-891 | the number of pairs and both cell widths in the first word, each width the cheapest, then the rest of the index and the pairs |
| `Format.PairFormat` | protocache-core/src/serialize.rs:788-891 | key and value lie side by side in position order; what does not fit lies behind all pairs, in order |
| `Format.HeadFormat` | protocache-core/src/serialize.rs:584-613 | the first word of a message counts its sections and holds the widths of the first twelve fields |
| `Format.SectionFormat` | protocache-core/src/serialize.rs:614-638 | a section holds the widths of 25 fields and 14 bits of the number of cells in front of it |
| `Format.FieldFormat` | protocache-core/src/serialize.rs:553-638 | a field of at most three words lies in its cell, a longer one behind all cells in field order, at a distance counted from its cell |
| `Format.EmptyFormat` | protocache-core/src/mutable.rs:463-470 | a map without pairs is one word with both widths 1, a list without elements the header of no elements |
| `Format.Limits` | protocache-core/src/serialize.rs:366-407 | the limits every encoder checks, and the number of seeds |
| `AccessSets.WithBitAdds` | protocache-core/src/mutable.rs:605-609 | setting a bit adds exactly that field id |
| `AccessSets.AnyIsSome` | protocache-core/src/mutable.rs:591-593 | some word is nonzero exactly when some field was accessed |
| `MutableEncoder.CopyField` | protocache-core/src/mutable.rs:624-632 | a field never accessed is copied as exactly the words that convey it in the source |
| `MutableEncoder.EncodeAccessed` | protocache-core/src/mutable.rs:634-662 | an accessed field is left out when it is what an absent field is taken for, otherwise its words start with words conveying its slot unless a count in them overflowed, and are those when all it copies is tight; succeeds when the slot is accepted |
| `MutableEncoder.SerializeField` | protocache-core/src/mutable.rs:617-649 | either way the words convey the meaning of the field unless a count in them overflowed; a copy always succeeds, an accessed field when accepted |
| `MutableEncoder.SlotReads` | protocache-core/src/mutable.rs:617-649 | left out or not, a slot is shown to a reader as the value it holds |
| `MutableEncoder.EncodeState` | protoc-gen-pcrs/src/main.rs:849-884 | untouched source words are copied unchanged; otherwise exactly the fields that mean something are found in the words, no deprecated one among them, and, unless a count overflowed in them, the words start with words conveying the meaning of the state, are exactly those when every message copied is tight, and are in the wire format when the sources are; succeeds for every state whose weight is below 2^30 words and whose written maps can be indexed |
| `MutableEncoder.StatePresence` | protoc-gen-pcrs/src/main.rs:849-884 | in the words of a touched state, exactly the fields that mean something are found, and none the schema marks deprecated |
| `MutableEncoder.EncodeScalars` | protocache-core/src/mutable.rs:720-733 | for any number of elements, the elements behind a header that keeps the lower 30 bits of the count |
| `MutableEncoder.ScalarCountIff` | protocache-core/src/mutable.rs:720-733 | the reader finds all elements if and only if there are fewer than 2^30 |
| `MutableEncoder.CountLost` | protocache-core/src/mutable.rs:720-733 | a list of 2^30 scalars reads back empty |
| `MutableEncoder.ScalarsConvey` | protocache-core/src/mutable.rs:720-733 | fewer than 2^30 scalars convey the list |
| `MutableEncoder.EncodeObjects` | protocache-core/src/mutable.rs:1093-1124 | elements encoded from the last to the first meet the order the in-place encoder needs, and the array is laid out over them; succeeds when they are well formed and their weight is below 2^30 words |
| `MutableEncoder.EncodeMapToUnit` | protocache-core/src/mutable.rs:463-519 | the words start with words conveying the entries, and lookup of any key, by all its bytes, finds exactly the entry stored under it, unless a count overflowed in them; succeeds for every accepted map |
| `MutableEncoder.FramedLooksUp` | protocache-core/src/access.rs:909-936 | in every map that words start with, lookup agrees with the entries on every key |
| `MutableEncoder.FormatSlice` | protocache-core/src/mutable.rs:624-632 | the slice detected in a source in the wire format is the encoding of the field's value |
| `MutableValues.EmptyReads` | protocache-core/src/mutable.rs:617-649 | a value other than a sub-message is left out exactly when it is false, zero, empty text or an empty container, the value an absent field is taken for |
| `MutableValues.CanonicalTight` | protocache-core/src/mutable.rs:596-602 | canonical messages are tight |
| `MutableValues.UnsourcedCanonical` | protocache-core/src/mutable.rs:596-649 | a value in which no message comes from a source, below 2^30 words, is canonical |
| `Overruns.CountableSound` | protocache-core/src/serialize.rs:614-635 | no count overflows in any words of a mutable value within the bound of the types |
| `Decoding.FieldDecodes` | protocache-core/src/mutable.rs:449-460 | decoding a field that starts with words conveying a value gives a well-formed value that reads as it |
| `LazyMessages.RunAccess` | protocache-core/src/mutable.rs:580-613 | over every run of accessor calls and assignments the bitset holds exactly the accessed ids and the source stays |
| `LazyMessages.UntouchedKept` | protocache-core/src/mutable.rs:605-632 | a field never accessed keeps its meaning through every run |
| `LazyMessages.ReadOnlyField` | protocache-core/src/mutable.rs:605-612 | a field only read keeps the meaning of its first access |
| `LazyMessages.FirstAccessRead` | protocache-core/src/mutable.rs:605-649 | the first access changes at most presence: what the field shows, the value of an absent field included, stays |
| `LazyMessages.LastSetRead` | protocache-core/src/mutable.rs:605-649 | a field shows the last value stored in it, whether it is stored or left out as the value of an absent field |
| `LazyMessages.RunShown` | protocache-core/src/mutable.rs:605-649 | over every run, every field shows the value stored in it last, or what the source shows |
| `LazyMessages.AccessGives` | protocache-core/src/mutable.rs:605-613 | an accessor hands out what the field shows, and that of a sub-message always a message |
| `LazyMessages.StepValid` | protocache-core/src/mutable.rs:553-613 | every accessor keeps the message well formed |
| `MessageRuns.RunRefines` | protocache-core/src/mutable.rs:553-613 | over every run from a source, the message means what a record changed eagerly by the same run holds |
| `MessageRuns.RunShows` | protocache-core/src/mutable.rs:605-649 | after a run, the record read back shows in every field the value stored last, or what the source shows |
| `MessageRuns.SerializedReads` | protocache-core/src/mutable.rs:617-649 | serialized words read as the fields of the state in any place and are a source again; detection finds a part that conveys the same record, and all of it when every message copied is tight; with canonical sources they are in the wire format |
| `MessageRuns.EditMessage` | protocache-core/src/mutable.rs:553-649 | decode, run, serialize: unless a count overflowed in the words, they read as the eager record, every field shows the value stored in it last, they can be decoded again, and are in the wire format when the sources are; no access leaves the source; succeeds whenever the resulting state is accepted |
| `MessageRuns.BuildMessage` | protocache-core/src/mutable.rs:553-649 | a new message filled with values built without a source: every field shows the value stored in it last, and unless a count overflowed the words it is serialized to are an encoding of just these fields |
| `MessageRuns.CleanExtent` | protocache-core/src/mutable.rs:596-602 | an untouched message is found in full if and only if its words are exactly those that convey it |
| `MessageRuns.SpareWordsKept` | protoc-gen-pcrs/src/main.rs:958-994 | a source whose sub-message, once read, is copied with a word that does not belong to it |
| `MessageRuns.HasFieldIff` | protocache-core/src/mutable.rs:578-582 | has_field is as documented exactly when every field stored is present in the source |
| `MessageRuns.StoredButNotReported` | protocache-core/src/mutable.rs:578-582 | a field stored in a new message is not reported |
| `LazyMessages.MutableMessage.HasField` | protocache-core/src/mutable.rs:578-582 | true exactly when the source message has the field |
| `LazyMessages.MutableMessage.HasAnyAccessed` | protocache-core/src/mutable.rs:591-593 | true exactly when some field was accessed |
| `LazyMessages.MutableMessage.CleanWords` | protocache-core/src/mutable.rs:596-602 | the source words exactly when no field was accessed |
| `LazyMessages.MutableMessage.GetField` | protocache-core/src/mutable.rs:605-612 | the first access sets the bit and decodes into the slot, later ones change nothing |
| `LazyMessages.MutableMessage.Access` | protoc-gen-pcrs/src/main.rs:958-994 | the generated accessor: it hands out what the field shows, and for a sub-message always a message, empty when the source has none |
| `LazyMessages.MutableMessage.Run` | protocache-core/src/mutable.rs:553-613 | any run of calls leaves the state the pure steps describe |
| `LazyMessages.MutableMessage.EncodeToUnit` | protoc-gen-pcrs/src/main.rs:846-892 | untouched source unchanged, otherwise words in which exactly the fields that mean something are found, no deprecated one among them, and that start with words conveying the meaning of the fields unless a count overflowed in them; succeeds for every accepted state |
| `Runs.CompressionRoundTrip` | protocache-core/src/utils.rs:280-383 | every byte string shorter than 2^35 is restored |
| `Runs.CompressedFits` | protocache-core/src/utils.rs:286-293 | the body takes at most n + ceil(n / 14) bytes |
| `Runs.CapacityReached` | protocache-core/src/utils.rs:286-293 | for every n, some input of n bytes takes exactly that many |
| `Runs.RunFormat` | protocache-core/src/utils.rs:396-415 | a run is as long as the format allows: up to four bytes 0x00 or 0xff, marked 8 to 11 or 12 to 15, or up to seven other bytes, marked by their number |
| `Runs.PairFormat` | protocache-core/src/utils.rs:303-339 | two marks a byte, the first in the low half, each pair in front of its literal bytes |
| `Runs.FillsCompress` | protocache-core/src/utils.rs:396-415 | n equal fill bytes take one byte for every eight, rounded up |
| `Compression.PickRun` | protocache-core/src/utils.rs:396-415 | the shift test and the two loops find the run and its mark |
| `Compression.StoreFits` | protocache-core/src/utils.rs:303-338 | where a literal run starts with eight source bytes left, the 8-byte store stays inside the bound |
| `Compression.CompressBody` | protocache-core/src/utils.rs:303-339 | with a destination of exactly the bound, the bytes of the reference encoder, all stores inside |
| `Compression.Compress` | protocache-core/src/utils.rs:280-339 | the output is the reference encoding |
| `Compression.Unpack` | protocache-core/src/utils.rs:457-509 | one nibble: same result, error and output as the byte-at-a-time step, wide stores within seven bytes of the target |
| `Runs.DecodedLength` | protocache-core/src/utils.rs:359-383 | whatever the input, what is accepted is as long as its header says |
| `Compression.Decompress` | protocache-core/src/utils.rs:342-383 | agrees with the byte-at-a-time decoder on every input, well formed or not |
| `Naming.DecimalInjective` | protoc-gen-pcrs/src/main.rs:309-314 | numbered candidates never repeat |
| `Naming.CandidateSpelled` | protoc-gen-pcrs/src/main.rs:309-314 | a numbered candidate is the base, an underscore and the number in plain decimal |
| `Naming.ReserveFree` | protoc-gen-pcrs/src/main.rs:308-314 | ends by pigeonhole with the first free name of the series |
| `Naming.RuntimeListed` | protoc-gen-pcrs/src/main.rs:263-281 | the names no read-only type may take |
| `Naming.Disambiguate` | protoc-gen-pcrs/src/main.rs:282-316 | names distinct per scope, clear of the taken ones, undisputed defaults kept; every disputed type gets the first name of its series that is free |
| `Naming.ReadonlyBaseSpelled` | protoc-gen-pcrs/src/main.rs:301-308 | the series of a read-only type starts with its name inside the package, with underscores for dots |
| `Naming.MutableBaseSpelled` | protoc-gen-pcrs/src/main.rs:348-351 | the series of a mutable type starts with its whole path, with underscores for dots, and Mutable |
| `Naming.OutermostSpelled` | protoc-gen-pcrs/src/main.rs:318-330 | the outermost module of a package ends at its first dot |
| `Naming.RootNamesAre` | protoc-gen-pcrs/src/main.rs:317-330 | the names mutable types avoid are exactly those of the read-only types without a package and the parts of the other packages in front of their first dot |
| `Naming.Registry.NameReadonly` | protoc-gen-pcrs/src/main.rs:282-316 | names distinct per package, never a runtime name, undisputed names unchanged, disputed ones the first free of their series |
| `Naming.Registry.NameMutable` | protoc-gen-pcrs/src/main.rs:317-360 | mutable names distinct everywhere and never a root name, undisputed defaults used, disputed names the first free of their series |
| `Naming.Registry.AssignUniqueNames` | protoc-gen-pcrs/src/main.rs:263-360 | both passes together, undisputed and disputed names of both kinds included, whatever the order of the groups |

## Left out

- Hash and seed generator: the hash and the seeds of a time are parameters, so no property of either is used.
- Protobuf parsing, JSON, files, the C bridge, benchmarks and the text the generator prints: input and output only.
- UTF-8 checks and float semantics: strings are bytes and floats bit patterns; `-0.0`, which the default test of a
  float field treats as zero, counts as a value here.
- Memory: writes through the slice that `expand` returns are modelled as building the words and prepending them,
  saturating sizes as exact ones, byte views of words as functions.
- The `reserve` arithmetic for a reused output vector in `compress_into`: the destination has exactly the capacity
  the code computes, as its safety comment assumes.
- Iteration orders: hash maps and the ordered group maps of the naming pass are visited in arbitrary order, which
  covers the order the program uses.
- Dirty flags of mutable arrays and maps: they report changes and are not read by serialization.
- `TreeEncoder.EncodeValue`: what the readers make of words in which a count has overflowed is stated per field only (`FieldFoundIff`).
- `MutableEncoder.EncodeState`: the same.
- `LazyMessages.MutableMessage.FromWords`: takes words that start with words conveying the message; corrupted sources are not modelled.
- Boxed sub-message fields of older bindings, iterators, tag collection and schema shape checks: variants and easy members.
