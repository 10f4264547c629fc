# Verified model of the PSP disassembler's byte-level cores

This project models the parts of `pspdisasm` that move bytes and addresses, one Dafny module per source component,
and proves what those parts promise.  `dafny verify dfyconfig.toml` checks everything.

- Relocation: `RelocationWords` is the word transform of `prxreloc2.py`; `LoadView`, `LoadViewTheorems`, `Rebase` and
  `LoadViewBuilder` are `load_view.py`, and `LoadViewMeaning` says what a built view does to the file at explicit
  positions; `TypeBDecoder` is the Type-B stream decoder, `TypeBCodec` a writer for its command grammar with a meaning
  for each command, `TypeBCompleteness` the proof that the grammar and the decoder agree in both directions,
  `TypeBRefusals` the refusals by plain arithmetic, and `TypeBView` follows a stream into the view built from it.
- Disc images: `CsoImage` validates a CISO file and decodes one block; `CsoReader` is the seekable reader with its
  eight-block cache, proved against a flat byte stream; `CsoArchive` writes packed files and proves that they open and
  serve the content they were packed from.
- Placement: `Placement` holds the layout and the first-fit search, `PlacementPlan` the planner, and `PlanMeaning` the
  plan said with headers and addresses alone.
- Resources: `ResourceFormats` holds the detectors, `ResourceGrammar` the files that they accept, written by grammars,
  and `ResourceScan` the choice at one offset and the greedy scanner.
- Data typing: `PointerTables` is the maximal-run scanner, `PointerTableMeaning` its result in words of the file,
  `TypeConflicts` the conflict resolver.
- Objects and frames: `ElfParser` and `ElfCodec` parse and write ELF32 in either byte order, `ElfMeaning` is the proof
  that the parser accepts exactly the written files, `ReferenceObject` builds the one-function object, `WebSocket`
  frames messages over a socket that cuts the stream arbitrarily.
- Project images: `Painter` flattens sections and tiles the image; `FlatMeaning` is the image said with section headers.
- Decompilation: `Orchestrator` is the retry loop and series of its runs.

Shared ground lies in `Prelude`, `Bits` (two's-complement bit operations by halving), `ByteStrings` (fixed-width
integers in byte strings), `ElfModel` (the records) and `Sorting` (Python's stable sort).

An exception becomes the `Err` case of a result.  Errors are reported in the order in which the source meets them, except
that a refused placement plan leaves open which of its errors is reported.
A loop of the source is a method with invariants, proved equal to a specification function or to a property that
determines its outcome; mutable objects (the stream reader, the disc reader, the socket, painted buffers) are classes
and arrays.  Integers are unbounded and every 32-bit wrap is written out.

Where the code does something a reader might not expect, the exact condition is proved:

- A jump drops the low two bits of its base, so it moves by the base exactly when the base is word-aligned
  (`JumpTargetMoves`, `ApplyWordComposes`).
- Shifting a load view back does not always restore the entry point (`ShiftAndBack`), and an empty table at the very
  end of a load is torn (`TableLengthKeptIff`, `EmptyTableAtEndTorn`).  A view is refused after the layout check exactly
  for a relocation that does not apply or a table end on 2^32 (`ViewBuiltIff`, `MetadataRefusedIff`).
- The pointer scan tests reserved ranges at slot starts only, so it can claim bytes of a range that begins off the word
  grid, exactly when the word under its start belongs to a qualifying run (`GridRangesAvoided`, `ReservedOverlapIff`,
  `ReservedBytesCanBeTaken`).
- The 0.95 confidence cap of a pointer table never acts (`TableConfidence`), and the trailing padding entry of a tiling
  never appears for a flattened image (`NoTrailingPadding`).
- A frame's opcode survives the trip exactly when it fits four bits (`RoundTripIff`).
- A run blocked halfway records attempts but keeps the old best fields, so these lag exactly when something better was
  tried before the missing backend (`IncompleteCoherentIff`, `BlockedBestMayLag`).

## Model

| member | source | states |
|---|---|---|
| RelocationWords.HighLowPair | src/pspdisasm/prxreloc2.py:144-169 | relocating an HI16 and its low half moves the AHL address they build by the base modulo 2^32, carry out of the low half included, and leaves both upper halves alone |
| RelocationWords.JumpTargetMoves | src/pspdisasm/prxreloc2.py:148-154 | a J26 target moves by the base rounded down to a word, hence by the base exactly when it is word-aligned; the X forms force the J and JAL opcodes |
| RelocationWords.ApplyWordComposes | src/pspdisasm/prxreloc2.py:122-171 | for every type but HI16, relocating by two bases in turn equals relocating by their sum, except that a jump agrees exactly when the two low bit pairs do not carry |
| RelocationWords.ApplyWordIff | src/pspdisasm/prxreloc2.py:122-171 | what is written for each relocation type is exactly the 32-bit word that moves so: whole words by the base modulo 2^32, low halves modulo 2^16 under an unchanged upper half, jump indices by the base in words with the opcode kept or forced to J or JAL, an HI16 so that it builds the moved AHL address with its low half, and no change for the others |
| LoadView.FirstCompanion | src/pspdisasm/load_view.py:69-91 | the companion of a Type-A HI16 is the first later type-1 or type-6 relocation with the same source and target segments |
| LoadViewTheorems.Frame | src/pspdisasm/load_view.py:260-282 | a byte that no relocation source word covers keeps its input value in the patched image |
| LoadViewTheorems.WordsExact | src/pspdisasm/load_view.py:264-281 | with pairwise disjoint source words every patched word is the relocation of the word in the unpatched input |
| LoadViewTheorems.HighLowPairMoves | src/pspdisasm/load_view.py:69-91 | in the patched image a Type-A HI16 and its companion build the address they built in the input plus the segment base, however many HI16s share the companion |
| LoadViewTheorems.OrderIndependent | src/pspdisasm/load_view.py:260-282 | when every HI16 carries its addend and source words are disjoint, success and the patched image do not depend on the order of the relocation list |
| LoadViewTheorems.SucceedsIffEachDoes | src/pspdisasm/load_view.py:260-282 | with explicit HI16 addends the patch loop succeeds exactly when every relocation would succeed alone |
| LoadViewTheorems.PatchSucceedsIff | src/pspdisasm/load_view.py:260-282 | for any list the patch loop succeeds exactly when every relocation has both its load segments, an in-file source word, a supported type and, for an HI16, an explicit addend or a companion whose low half can be read |
| LoadViewBuilder.BuildRelocatedLoadView | src/pspdisasm/load_view.py:234-294 | the builder, with its checks in the order of the source, returns the view its specification describes or the first error |
| LoadViewBuilder.ApplyRelocations | src/pspdisasm/load_view.py:260-282 | the in-place patch loop over a fresh byte array computes the specified image |
| LoadViewBuilder.BasesExact | src/pspdisasm/load_view.py:254-257 | the base table of numbered headers holds exactly the non-empty PT_LOADs, each at its shifted address |
| LoadViewBuilder.ViewBuiltIff | src/pspdisasm/load_view.py:234-294 | a view of numbered headers is built exactly for a little-endian image with a load, at a 32-bit address whose layout fits, when every relocation applies and no table end lands on 2^32 |
| LoadViewBuilder.ViewFrame | src/pspdisasm/load_view.py:234-294 | the view is as long as the input and keeps every byte that no relocation covers |
| LoadViewBuilder.ViewWords | src/pspdisasm/load_view.py:234-294 | with disjoint source words every relocated word of the view is the input word relocated by the virtual address that the view itself gives its target segment |
| LoadViewBuilder.ViewTheorem | src/pspdisasm/load_view.py:234-294 | in a built view every Type-A pair builds its input address plus the new virtual address of the target segment in the rebased headers |
| LoadViewMeaning.UntouchedByte | src/pspdisasm/load_view.py:260-282 | a byte of the view outside every four-byte word at source offset plus relocation offset is the input byte, the source being the explicit segment or byte 1 of info |
| LoadViewMeaning.RelocatedWord | src/pspdisasm/load_view.py:260-282 | the little-endian word at the file position that a relocation names by its source segment moves, as its type says, by the virtual address that the view gives its target segment |
| LoadViewMeaning.RelocatedPair | src/pspdisasm/load_view.py:69-91 | a Type-A HI16 and the first later low half that names the same segments keep their upper halves, and the address built at their two file positions moves by the address of their target |
| LoadViewMeaning.RelocatableIff | src/pspdisasm/load_view.py:44-91 | what a built view asks of a relocation, field by field: two loads, a word inside the extent of the source and the file, a known type, and for an HI16 without an addend a Type-A companion in the file |
| LoadViewMeaning.LayoutFitsIff | src/pspdisasm/load_view.py:113-127 | the layout check accepts exactly the deltas for which the rebased loads and allocated sections lie inside the 32-bit address space |
| LoadViewMeaning.ViewLoads | src/pspdisasm/load_view.py:154-183 | in a built view the lowest non-empty load stands at the load address, every load has moved by the same distance and nothing else in a header changed |
| LoadViewMeaning.ViewSections | src/pspdisasm/load_view.py:168-174 | every non-empty allocated section of the view has moved with the loads and no other section has |
| LoadViewMeaning.ViewMetadata | src/pspdisasm/load_view.py:186-231 | every module-info field, library and NID address of a built view and its entry point is the original carried along by the load it lies in, a table end by the load it closes, zero standing for absent |
| LoadViewMeaning.ViewRefusal | src/pspdisasm/load_view.py:234-282 | a view is refused for the first check that fails: byte order, load address, loads, delta, layout, then the relocations in order with the first complaint of the first bad one, then a table end |
| Rebase.LookupCommutes | src/pspdisasm/load_view.py:154-183 | looking up a rebased address in the view finds the file offset of the original, whenever some load file-backs the address or all file sections are allocated |
| Rebase.ShiftAndBack | src/pspdisasm/load_view.py:154-183 | shifting by a delta and back restores program headers and sections; the entry point returns exactly under the stated condition on where it lay |
| Rebase.AddressesAlwaysRebase | src/pspdisasm/load_view.py:113-135 | after the layout check no address inside a load can fail to rebase |
| Rebase.RangeEndRefusedIff | src/pspdisasm/load_view.py:144-151 | a range end is refused exactly when it is a load end that lands on 2^32 |
| Rebase.NidsAlwaysRebase | src/pspdisasm/load_view.py:186-191 | after the layout check rebasing NID entries succeeds and moves each address as a single address moves |
| Rebase.LibrariesAlwaysRebase | src/pspdisasm/load_view.py:194-200 | after the layout check rebasing libraries succeeds and moves each address as a single address moves |
| Rebase.MetadataRefusedIff | src/pspdisasm/load_view.py:203-220 | after the layout check the metadata is refused exactly when the end of the export or import table is a load end that lands on 2^32 |
| Rebase.TableLengthKeptIff | src/pspdisasm/load_view.py:203-220 | a table with non-zero ends inside one load keeps its length exactly when its start lies below some load end |
| Rebase.EmptyTableAtEndTorn | src/pspdisasm/load_view.py:138-151 | an empty table at the very end of the only load has its end moved but not its start |
| TypeBDecoder.StreamReader.Read | src/pspdisasm/prxreloc2.py:54-74 | a bounded little-endian read that advances only on success and refuses to pass the end |
| TypeBDecoder.StreamReader.ReadSizedTable | src/pspdisasm/prxreloc2.py:76-84 | a table whose first byte is its own size, refused when empty or truncated |
| TypeBDecoder.SegBits | src/pspdisasm/prxreloc2.py:203-205 | the segment field is the least width, at least one bit, whose power of two reaches the header index |
| TypeBDecoder.DecodePrxreloc2 | src/pspdisasm/prxreloc2.py:174-312 | the decoding loop over the mutable reader computes the stepwise specification, with the same first error |
| TypeBDecoder.DecodeEmits | src/pspdisasm/prxreloc2.py:226-310 | every successful decode yields relocations between PT_LOAD segments whose words lie in the source memory size, at strictly increasing stream offsets that begin after both tables, at most one per two bytes of the command stream, and at most a million |
| TypeBDecoder.PackedIndices | src/pspdisasm/prxreloc2.py:289-301 | with indices below 256 an information word unpacks to type, source and target |
| TypeBCodec.StepReadsCommand | src/pspdisasm/prxreloc2.py:226-310 | one decoder step on a written command is the meaning of that command, refusals included |
| TypeBCodec.PayloadSigned | src/pspdisasm/prxreloc2.py:108-115 | the sign-extended payload of a command word is the delta that was packed, at every payload width down to zero |
| TypeBCodec.DecodeInvertsEncode | src/pspdisasm/prxreloc2.py:192-312 | decoding a written stream of any encodable commands gives exactly the relocations they denote, each with the MIPS type it was written with, running base, source segment and stream offsets, or the same refusal |
| TypeBCodec.CodeReads | src/pspdisasm/prxreloc2.py:26-35 | the decoder reads the compact code written for a MIPS relocation type as that type, and refuses every code above seven |
| TypeBCodec.RelocationMade | src/pspdisasm/prxreloc2.py:289-310 | a decoded relocation record carries type, source, target, offset, stream offset, addend and flag in their own fields, with the type below the OR of the shifted indices in info |
| TypeBCodec.SegBitsIff | src/pspdisasm/prxreloc2.py:203-205 | the segment width of the decoder is the least one, at least one bit, whose power of two reaches the header index |
| TypeBCompleteness.DeltaParts | src/pspdisasm/prxreloc2.py:108-115 | the delta read from any word fits the payload width and packs back to the same payload |
| TypeBCompleteness.DecodesIffWritten | src/pspdisasm/prxreloc2.py:192-312 | the decoder returns a relocation list exactly when the segment holds a written stream of encodable commands that denote it |
| TypeBView.StreamMovesWords | src/pspdisasm/load_view.py:260-282 | in the load view built from a written Type-B stream the word of every relocation command moves as the MIPS type of the command says, by the address of the segment the command names |
| TypeBView.CommandsMovePair | src/pspdisasm/prxreloc2.py:156-169 | an HI16 and an LO16 command for one target build the moved AHL address when the HI16 was written with the low half that the LO16 word holds |
| TypeBRefusals.StepRefusal | src/pspdisasm/prxreloc2.py:226-288 | a command is refused for the first of its checks that fails, with its fields taken from the word by quotients and remainders |
| TypeBRefusals.DecodeRefusal | src/pspdisasm/prxreloc2.py:174-312 | a segment is refused for its image, its program header, its extent, its stream header or one of its commands, in that order |
| TypeBRefusals.HeaderRefusal | src/pspdisasm/prxreloc2.py:192-216 | a stream header is refused for fewer than four bytes, widths over sixteen bits, or a table that is empty or cut off |
| CsoImage.OpenedIsValid | src/pspdisasm/disc_image.py:61-110 | an image that opens has monotonic block offsets inside the file and as many blocks as its total size needs |
| CsoImage.BlockPiece | src/pspdisasm/disc_image.py:184-187 | every block of a validated image covers a non-empty piece of the uncompressed size |
| CsoImage.PlainBlocks | src/pspdisasm/disc_image.py:184-228 | in a validated image the negative-span refusal never fires, a plain block is the file bytes at its offset, and it fails exactly when its span is too short |
| CsoImage.DecompressLz4 | src/pspdisasm/disc_image.py:239-270 | the padding-trimming LZ4 loop returns the first candidate that inflates to the expected size |
| CsoReader.BoundedIsMostRecent | src/pspdisasm/disc_image.py:224-227 | evicting before and after each touch keeps the same order as evicting an unbounded history: the cache holds the eight most recent blocks |
| CsoReader.Reader.Seek | src/pspdisasm/disc_image.py:125-138 | the three seek modes, with a negative or unknown request refused and the position kept |
| CsoReader.Reader.Read | src/pspdisasm/disc_image.py:140-164 | a read returns exactly the flat bytes it owes or the error of the first unreadable position, whatever the cache holds, and never the shorter-than-expected error |
| CsoReader.Reader.ReadBlock | src/pspdisasm/disc_image.py:171-228 | a block through the cache equals its uncached decode, a failing block is never cached, and an index outside the image is empty |
| CsoReader.Reader.ReadInto | src/pspdisasm/disc_image.py:166-169 | a buffer receives the read bytes at its start and keeps the rest |
| CsoReader.Reader.Evict | src/pspdisasm/disc_image.py:226-227 | eviction drops the least recently used blocks until eight remain |
| CsoReader.Replay | src/pspdisasm/disc_image.py:121-169 | over any history of seeks, reads and tells the cached reader shows exactly what the flat stream shows |
| CsoReader.SplitRead | src/pspdisasm/disc_image.py:140-164 | cutting a successful read in two gives the same bytes and the same final position |
| CsoArchive.BlockUnpacks | src/pspdisasm/disc_image.py:184-270 | every block of an opened image is its own span of the file unpacked: the first bytes of a plain span, the inflated span, or the LZ4 decode of the least trimming of exact size, with the refusal of each case |
| CsoArchive.WrittenOpens | src/pspdisasm/disc_image.py:61-110 | a file written from header fields, an index table in units of two to the shift, and blocks stored back to back opens as the image it was written for |
| CsoArchive.OpensIffWritten | src/pspdisasm/disc_image.py:61-110 | a file opens exactly when it is such a written file |
| CsoArchive.HeaderRefusal | src/pspdisasm/disc_image.py:61-84 | a bad header is refused for the first check that it fails |
| CsoArchive.TableRefusal | src/pspdisasm/disc_image.py:86-108 | behind a good header the index table is refused for the first of its checks that fails: cut off, overlapping the first block, decreasing, leaving the file, or flagging the last entry of version 2 |
| CsoArchive.PackedServesContent | src/pspdisasm/disc_image.py:121-270 | a file packed from any content by any mix of plain, deflated and LZ4 blocks serves every history of seeks, reads and tells exactly as a plain byte stream of that content |
| CsoArchive.Serve | src/pspdisasm/disc_image.py:48-169 | opening a file and answering a history through the cached reader gives the first refusal of the file or what the flat stream shows |
| Placement.AlignUpIsCeiling | src/pspdisasm/placement.py:67-68 | for powers of two the mask form is the least multiple not below the value |
| Bits.PowerOfTwoTest | src/pspdisasm/placement.py:60-62 | the bit test of a requested alignment recognises exactly the powers of two |
| Placement.LayoutOf | src/pspdisasm/placement.py:47-64 | the layout is the hull of the non-empty loads with the strictest power-of-two alignment, refused without loads or past 2^32 |
| Placement.StrictestAlignment | src/pspdisasm/placement.py:58-63 | the alignment loop ends with a power of two of at least sixteen that is a multiple of every usable request and is sixteen or one of the requests |
| Placement.LayoutUnique | src/pspdisasm/placement.py:47-64 | the headers determine the layout |
| Placement.FindFree | src/pspdisasm/placement.py:78-92 | the search terminates with the least aligned free address at or above the start that ends by 2^32, and fails exactly when none exists or the aligned start is negative |
| PlacementPlan.PlaceBoots | src/pspdisasm/placement.py:169-208 | boot modules follow the boot rules, and a refusal means that no placement follows them |
| PlacementPlan.PlaceSecondaries | src/pspdisasm/placement.py:210-237 | secondary modules follow the first-fit rules, and a refusal means that no placement follows them |
| PlacementPlan.PlanModulePlacements | src/pspdisasm/placement.py:147-239 | for distinct paths a plan follows the rules of all three classes in path order, and a refusal means that no plan does |
| PlacementPlan.RelocatableFits | src/pspdisasm/placement.py:169-239 | every relocatable module of a plan, boot or secondary, starts at a multiple of its own alignment and of every load request, ends by 2^32 and passes the load-view range check; a boot module starts at or above 0x08804000 |
| PlacementPlan.SecondaryDisjoint | src/pspdisasm/placement.py:210-239 | a secondary module shares no byte with any other module of the plan, and secondary addresses rise in path order |
| PlacementPlan.BootsDisjoint | src/pspdisasm/placement.py:169-208 | boot-marked modules never overlap one another |
| PlacementPlan.PlanUnique | src/pspdisasm/placement.py:147-239 | the placement rules leave at most one plan |
| PlanMeaning.PlanIff | src/pspdisasm/placement.py:147-239 | the planning rules hold exactly when every module is well placed, said with headers and addresses alone: executables at their own base, each boot-marked module at the least multiple of its alignment in user memory behind the earlier ones, each other module at the least such address behind all boot modules and its predecessors and clear of the fixed ones, with kind, confidence and both flags of its class |
| PlanMeaning.DescribedIff | src/pspdisasm/placement.py:47-64 | a placement records the hull of the non-empty loads and the strictest of sixteen and the powers of two above one that they ask for |
| PlanMeaning.PlanOrder | src/pspdisasm/placement.py:160-180 | the planner orders the modules, and its answer, by case-folded path |
| ResourceFormats.ScanPng | src/pspdisasm/resource_formats.py:52-79 | the PNG chunk loop computes the recursive walk |
| ResourceFormats.ScanJpeg | src/pspdisasm/resource_formats.py:99-133 | the JPEG segment loop computes the recursive walk |
| ResourceFormats.ScanRiff | src/pspdisasm/resource_formats.py:136-183 | the RIFF chunk loop computes the recursive walk |
| ResourceFormats.FindMarker | src/pspdisasm/resource_formats.py:82-96 | the marker loop computes the recursive scan over fill and stuffed bytes |
| ResourceGrammar.PngDetectedIff | src/pspdisasm/resource_formats.py:52-79 | a PNG is reported exactly where a file of the PNG grammar stands, with its length and chunk count |
| ResourceGrammar.RiffDetectedIff | src/pspdisasm/resource_formats.py:136-183 | a RIFF/WAVE file is reported exactly where the grammar writes one, as ATRAC3 exactly when its last usable format chunk carries that codec tag |
| ResourceGrammar.JpegDetectedIff | src/pspdisasm/resource_formats.py:99-133 | a JPEG is reported exactly where a file of marker segments stands, with the length of that file |
| ResourceGrammar.NextMarkerIff | src/pspdisasm/resource_formats.py:82-96 | the marker scan finds the first byte other than zero and fill that directly follows 0xFF |
| ResourceGrammar.VagDetectedIff | src/pspdisasm/resource_formats.py:186-208 | a VAG is reported exactly where a 48-byte header with a non-zero version, a rate from 4000 to 192000 and the length of the payload behind it stands |
| ResourceGrammar.GimDetectedIff | src/pspdisasm/resource_formats.py:211-223 | a GIM is reported, without an extent, exactly where its signature stands with sixteen bytes to read |
| ResourceGrammar.PsmfDetectedIff | src/pspdisasm/resource_formats.py:226-256 | a PSMF is reported exactly where a header with one of four versions, a stream offset on a sector and a stream size stands, with an extent exactly when the stream lies in the data |
| ResourceGrammar.SignatureTexts | src/pspdisasm/resource_formats.py:8-11 | the signatures that the detectors compare are the texts of their formats |
| ResourceScan.SignatureBytes | src/pspdisasm/resource_formats.py:52-256 | each detector fixes the first byte at its offset |
| ResourceScan.DetectResourceAt | src/pspdisasm/resource_formats.py:270-290 | at most one detector accepts an offset, so the candidate sort never chooses between formats |
| ResourceScan.CarvedDetectsAlike | src/pspdisasm/resource_formats.py:270-290 | carving an extractable match and detecting at zero gives the same format, size, confidence and metadata |
| ResourceScan.ScanResourceBytes | src/pspdisasm/resource_formats.py:293-306 | the scanner returns a greedy left-to-right cover: offsets rise, extents lie in range and contain no later match |
| ResourceScan.ReportedIff | src/pspdisasm/resource_formats.py:293-306 | an offset is reported exactly when it is accepted at the threshold and no earlier extractable extent runs over it |
| ResourceScan.CoverUnique | src/pspdisasm/resource_formats.py:293-306 | the greedy cover is unique, so the detections determine the scan |
| ResourceScan.CarvedRescans | src/pspdisasm/game_resources.py:155-169 | rescanning a carved payload finds exactly that payload |
| PointerTables.RunIsMaximal | src/pspdisasm/data_typing.py:333-340 | a run holds only entries and stops at a slot that is not one |
| PointerTables.ScanRun | src/pspdisasm/data_typing.py:333-340 | the inner loop collects the maximal run and leaves the cursor after it |
| PointerTables.TableConfidence | src/pspdisasm/data_typing.py:383-401 | a table is fully confident exactly when every slot is relocated and every word is a known identity, and 0.90 otherwise, so the 0.95 cap never acts |
| PointerTables.AddLeaves | src/pspdisasm/data_typing.py:358-381 | each slot of a table gets the leaf of its own word and no other key changes |
| PointerTables.ScanSection | src/pspdisasm/data_typing.py:321-404 | one section yields exactly its qualifying maximal runs against the ranges reserved on entry, and reserves exactly them |
| PointerTables.ScanPointerTables | src/pspdisasm/data_typing.py:310-406 | for any image tables are disjoint, no slot begins in a seeded range and the leaf map covers exactly the slots; for disjoint storage sections the tables are exactly the qualifying maximal runs outside the seeded ranges |
| PointerTables.NewTableApart | src/pspdisasm/data_typing.py:325-335 | a table begun at an unreserved slot overlaps no table found before |
| PointerTables.GridRangesAvoided | src/pspdisasm/data_typing.py:325-335 | for any image no table of the scan shares a byte with a seeded range that begins on the word grid |
| PointerTables.ReservedOverlapIff | src/pspdisasm/data_typing.py:325-335 | for disjoint storage sections the scan takes bytes of a seeded range exactly when the range begins off the word grid and the word its start lies in belongs to a qualifying run |
| PointerTables.ReservedBytesCanBeTaken | src/pspdisasm/data_typing.py:325-335 | an image with disjoint storage sections and a reserved range from which every scan takes bytes |
| PointerTableMeaning.ScanFile | src/pspdisasm/data_typing.py:310-406 | for any image each leaf of the scan targets the little-endian word that the file holds at the section offset of its slot; when storage sections are apart the tables are exactly the convincing maximal runs of pointers in the file |
| PointerTableMeaning.ScanFindsRuns | src/pspdisasm/data_typing.py:310-406 | the tables of a scan over disjoint storage sections are, each once, the maximal runs of aligned words that are addresses inside the image, outside the seeded ranges, long and known or relocated enough |
| PointerTableMeaning.LeavesHoldWords | src/pspdisasm/data_typing.py:358-381 | every leaf carries the slot, section name, word of the file, function and relocation marks and confidence of its own slot |
| PointerTableMeaning.QualifiesIff | src/pspdisasm/data_typing.py:342-353 | a run becomes a table exactly when it has three slots of which one is relocated or two hold known addresses, or two slots that are all relocated |
| TypeConflicts.UniqueIs | src/pspdisasm/data_typing.py:640-654 | de-duplication keeps the last record of each fingerprint in order of first appearance |
| TypeConflicts.ChosenIsBest | src/pspdisasm/data_typing.py:639-671 | the chosen record has the strongest type, then the highest confidence, then the least size and evidence, then the earliest fingerprint; a warning is due exactly when two fingerprints tie on type and confidence |
| TypeConflicts.BestUnique | src/pspdisasm/data_typing.py:639-671 | the choice at an address is determined |
| TypeConflicts.GroupByAddress | src/pspdisasm/data_typing.py:634-636 | grouping collects exactly the records of each address in list order |
| TypeConflicts.ResolveConflicts | src/pspdisasm/data_typing.py:633-687 | the result ascends by address and holds exactly the chosen records that are strong or lie outside every strong object; the warned addresses are exactly the ambiguous ones |
| TypeConflicts.ResolutionUnique | src/pspdisasm/data_typing.py:633-687 | the candidates determine the result |
| TypeConflicts.AddressesAccountedFor | src/pspdisasm/data_typing.py:673-687 | every candidate address keeps its best record unless that record is weak and a strong result covers it |
| TypeConflicts.NoWeakInside | src/pspdisasm/data_typing.py:673-686 | no weak record of the result starts inside a strong one |
| TypeConflicts.Idempotent | src/pspdisasm/data_typing.py:633-687 | resolving a resolved list changes nothing and warns of nothing |
| TypeConflicts.ResolvedByType | src/pspdisasm/data_typing.py:26-38 | an address yields a record of the first type of text, jump table, function-pointer table, pointer table, array, struct, function pointer and pointer that a candidate there has; the first four always stay, the last four exactly where no record of the first four in the result occupies their address |
| TypeConflicts.ResultIsRanked | src/pspdisasm/data_typing.py:633-687 | every record of the result has the first type, in the order of the eight names, that a candidate at its address has, and the best confidence, size and evidence of that type |
| TypeConflicts.WarnedByType | src/pspdisasm/data_typing.py:664-670 | a warning is due exactly where two records of the first type share its highest confidence and differ in their fingerprint |
| ElfParser.ParseElf32 | src/pspdisasm/elf32.py:45-150 | the parser accepts exactly the acceptable files, returns their image, and otherwise reports the first error met |
| ElfParser.OutcomeUnique | src/pspdisasm/elf32.py:45-150 | every byte string has exactly one outcome |
| ElfParser.ParsedContained | src/pspdisasm/elf32.py:80-150 | headers and sections are numbered in order, names hold no NUL, and file-backed extents lie in the file |
| ElfParser.LookupInFile | src/pspdisasm/model.py:85-96 | address lookup in a parsed image never leads outside the file |
| ElfCodec.HeaderReadsIff | src/pspdisasm/elf32.py:60-61 | in either byte order the parser reads a header exactly when that header was written after the identification |
| ElfCodec.SegmentReadsIff | src/pspdisasm/elf32.py:86-88 | in either byte order a program header is read exactly when it was written there |
| ElfCodec.SectionReadsIff | src/pspdisasm/elf32.py:95-96 | in either byte order a section header is read exactly when it was written there |
| ElfCodec.WrittenParses | src/pspdisasm/elf32.py:45-150 | a written file parses to its header, program headers and sections, refused only for extents outside the file or a bad section-name table |
| ElfMeaning.ParsedIff | src/pspdisasm/elf32.py:45-150 | the parser returns an image exactly when the file holds it: header, program headers and section headers written in its byte order where the header says, file extents inside the file, names read up to a NUL in the name table and kinds by type and flags |
| ElfMeaning.HeaderRefusal | src/pspdisasm/elf32.py:45-80 | a header is refused for the first check that it fails |
| ElfMeaning.NamesRefusal | src/pspdisasm/elf32.py:104-112 | a section-name table is refused when its index leaves the section table or names a section without file bytes |
| ElfMeaning.LookupIff | src/pspdisasm/model.py:85-96 | an address is found in the first file-backed load segment that holds it, else in the first section with file bytes that does, at its distance from the start |
| ReferenceObject.BuildReferenceObject | src/pspdisasm/matcher.py:154-233 | the builder returns the laid-out object or the first error: no instructions, a gap, a wide word, a NUL in the name, or offsets past 32 bits |
| ReferenceObject.OutcomeUnique | src/pspdisasm/matcher.py:154-233 | building succeeds exactly for non-empty contiguous functions of 32-bit words with a NUL-free name whose object fits 32-bit offsets |
| ReferenceObject.Assemble | src/pspdisasm/matcher.py:226-233 | filling the zeroed buffer slice by slice gives the planned object |
| ReferenceObject.BuildThenParse | src/pspdisasm/matcher.py:154-233 | parsing a built object always succeeds and gives the little-endian MIPS header, the five named sections with every field and offset, each instruction word in the text, and the global function symbol with its name and size |
| ReferenceObject.ObjectDetermines | src/pspdisasm/matcher.py:154-233 | two functions with the same object have the same name and instruction words |
| WebSocket.MaskTwice | src/pspdisasm/runtime/transport.py:81-82 | masking twice with one key restores the payload |
| WebSocket.RecvExact | src/pspdisasm/runtime/transport.py:35-49 | exactly the requested bytes of the stream are returned however the socket cuts them, and the close error means the stream was too short |
| WebSocket.ReceiveFrame | src/pspdisasm/runtime/transport.py:85-103 | a received frame is the first frame of the stream and exactly its bytes are consumed, for every chunking; protocol errors are those of the stream |
| WebSocket.EncodedDecodes | src/pspdisasm/runtime/transport.py:69-103 | an encoded frame decodes to its payload and the low four bits of its opcode across all three length forms |
| WebSocket.RoundTripIff | src/pspdisasm/runtime/transport.py:69-103 | one frame survives the trip exactly when its opcode fits four bits |
| WebSocket.OversizeRefused | src/pspdisasm/runtime/transport.py:95-98 | a payload over the bound is refused from its header alone |
| WebSocket.DeliveredWithinLimit | src/pspdisasm/runtime/transport.py:85-103 | no frame over the bound is delivered |
| WebSocket.FramesRoundTrip | src/pspdisasm/runtime/transport.py:69-103 | any list of frames written one after the other is read back in order and leaves what follows |
| WebSocket.ReceivedIsSent | src/pspdisasm/runtime/transport.py:85-103 | receiving an encoded frame yields it and leaves the rest, unless a timeout or socket error intervenes |
| WebSocket.ReceiveFrames | src/pspdisasm/runtime/transport.py:35-103 | receiving several frames in a row from a calm socket gives the frames, the bytes left and the first error of the byte stream, for every chunking |
| WebSocket.ReceiveSent | src/pspdisasm/runtime/transport.py:35-103 | any list of sendable frames on a calm socket is received as sent and exactly its bytes are consumed, however the stream is cut |
| WebSocket.DecodeIff | src/pspdisasm/runtime/transport.py:85-103 | a frame is read exactly when the stream begins with its bytes: final-fragment bit, opcode nibble, one of three length forms, and each payload byte combined with key byte i modulo four when the mask bit is set |
| WebSocket.DecodeFailsIff | src/pspdisasm/runtime/transport.py:85-103 | a stream is refused as fragmented exactly without the final bit and as too large exactly when its announced length is over the bound; any other refusal is its end |
| WebSocket.EncodesIff | src/pspdisasm/runtime/transport.py:69-82 | encoding is refused exactly for a key that is not four bytes, an opcode over a byte or a length over 64 bits |
| WebSocket.EncodedLayout | src/pspdisasm/runtime/transport.py:69-82 | an encoded frame has the final bit over its opcode, the shortest length form with the mask bit, the key, and each payload byte combined with its key byte |
| Painter.FlattenElf | src/pspdisasm/project.py:76-97 | flattening paints the file-backed sections in order over a zeroed image, with the size and file-bound refusals of the source |
| Painter.LastCoverWins | src/pspdisasm/project.py:91-96 | a painted byte is that of the last section in address and index order that covers it |
| Painter.UncoveredIsZero | src/pspdisasm/project.py:90-96 | a byte that no section covers is zero |
| Painter.AllocatedWellOrdered | src/pspdisasm/project.py:69-73 | allocated sections are exactly the non-empty allocated ones, sorted by address and index |
| Painter.BuildSubsegments | src/pspdisasm/project.py:122-145 | one part per file section in order, starts that never decrease, and padding entries that are exactly the maximal uncovered gaps |
| Painter.PaddingIsZero | src/pspdisasm/project.py:122-134 | every byte the tiling calls padding is zero in the flattened image |
| Painter.NoTrailingPadding | src/pspdisasm/project.py:133-134 | the tiling of a flattened image never ends in padding |
| FlatMeaning.FlatByte | src/pspdisasm/project.py:90-96 | each byte of the flat image comes from the allocated file-backed section that covers it last in address and index order, at the matching place in the file |
| FlatMeaning.FlatZero | src/pspdisasm/project.py:90-96 | a byte of the flat image that no allocated file-backed section covers is zero |
| FlatMeaning.FlatExtent | src/pspdisasm/project.py:76-90 | the image reaches from the lowest allocated section to the highest end of a file-backed one, over at most 128 MiB |
| FlatMeaning.FlatRefused | src/pspdisasm/project.py:76-94 | flattening is refused without allocated file bytes, for a span of no or over 128 MiB, or for a section that leaves the file |
| FlatMeaning.PartTypes | src/pspdisasm/project.py:100-119 | the type of a part follows its section name, then its kind, and without file bytes only small or plain BSS |
| FlatMeaning.BssListed | src/pspdisasm/project.py:136-144 | the sections without file bytes follow in order, each with its type and address, and their sizes add up to the BSS size |
| Orchestrator.BestIsFirstLeast | src/pspdisasm/decompile/orchestrator.py:128-140 | no attempt ranks better than the selected one and it beats every earlier one |
| Orchestrator.BestOnlyImproves | src/pspdisasm/decompile/orchestrator.py:137-140 | a longer history keeps its selection unless a strictly better attempt was added |
| Orchestrator.ExactIffSelected | src/pspdisasm/decompile/orchestrator.py:143-152 | the status is an exact match exactly when some attempt is exact |
| Orchestrator.RunFunction | src/pspdisasm/decompile/orchestrator.py:166-296 | the retry loop computes the next state, including both blocked returns and the early stop on an exact match |
| Orchestrator.RunAppends | src/pspdisasm/decompile/orchestrator.py:200-296 | a run loses no attempt and adds at most max_attempts |
| Orchestrator.CompletedShowsBest | src/pspdisasm/decompile/orchestrator.py:128-152 | a completed run records the attempt of its whole history that ranks first by exactness, higher similarity, fewer differing rows and lesser identity, with the status, percentage and last diagnostic that belong to it |
| Orchestrator.BlockedShows | src/pspdisasm/decompile/orchestrator.py:188-196 | a blocked run counts its attempts and names its failure and changes nothing else |
| Orchestrator.UnforcedKeepsIdsDistinct | src/pspdisasm/decompile/orchestrator.py:226-250 | without force no attempt identity is repeated |
| Orchestrator.UnforcedAddsNothingIff | src/pspdisasm/decompile/orchestrator.py:206-277 | an unforced run adds nothing exactly when every identity it reaches is already recorded |
| Orchestrator.HistoryPrefix | src/pspdisasm/decompile/orchestrator.py:200-296 | over any series of runs each history is a prefix of every later one |
| Orchestrator.BestNeverWorsens | src/pspdisasm/decompile/orchestrator.py:279-296 | across completed runs the best attempt never ranks worse, changes only for a strictly better one, and an exact match stays |
| Orchestrator.BlockedKeepsBest | src/pspdisasm/decompile/orchestrator.py:265-273 | a run that does not complete is blocked and leaves the best fields as they were |
| Orchestrator.StoppedIff | src/pspdisasm/decompile/orchestrator.py:206-277 | the trials are stopped by a missing backend exactly when some tried trial finds its backend missing before any exact match, forced or not |
| Orchestrator.StoppedHistory | src/pspdisasm/decompile/orchestrator.py:206-277 | a run stopped at a trial has appended exactly the attempts of the trials it tried before |
| Orchestrator.BestStaysIff | src/pspdisasm/decompile/orchestrator.py:128-140 | a stopped run, forced or not, leaves the best attempt of the history unchanged exactly when no trial it tried carries a better one |
| Orchestrator.BlockedCoherentIff | src/pspdisasm/decompile/orchestrator.py:265-273 | after an unforced run that is blocked at a trial the best fields still name the best of the history exactly when nothing better was tried before that trial, or nothing at all when the history was empty |
| Orchestrator.IncompleteCoherentIff | src/pspdisasm/decompile/orchestrator.py:166-277 | after any unforced run that does not complete the best fields still name the best of the history exactly when the decompiler itself was missing or no fresh trial before the missing backend was better |
| Orchestrator.BlockedBestMayLag | src/pspdisasm/decompile/orchestrator.py:265-273 | a concrete blocked run after which the recorded best is not the best of the history |
| Orchestrator.RerunAddsNothing | src/pspdisasm/decompile/orchestrator.py:246-247 | an unforced rerun whose identities are all recorded completes and adds nothing |

## Left out

- DEFLATE and LZ4 are an uninterpreted codec given to the reader, which may lack LZ4; SHA-256 attempt identities are numbers in string order.
- The file behind a disc image is a byte string: opening, closing and I/O failures of the file are not modelled.
- Evidence strings, warning texts, display names, file extensions and resource kinds are opaque or dropped; a warning is modelled by its address.
- Confidence values are reals, so the rounding of a table confidence to two digits is the identity here.
- Case folding of paths is an arbitrary integer rank given to the planner.
- Section and symbol names are byte strings; UTF-8 decoding and its replacement characters are not modelled.
- The section name as the last sort key of the storage sections is dropped, because the index decides first.
- Structure and array inference, standalone leaves and typed references of the data-typing pass would only add easy members.
- The WebSocket handshake, tickets, event queues and JSON payloads of the debugger transport.
- Random mask keys are parameters of the encoder.
- One decompilation attempt is an arbitrary outcome or a missing backend; compilers, the matcher and attempt identities are foreign.
- Filesystem writes, ISO traversal, reports, linker labels and command-line handling have no hard property.
- PlacementPlan.PlanModulePlacements: a refusal is promised to mean that no plan exists, but not which of the planner errors is raised; modules that share a path are left open.
- CsoReader.Reader.constructor: takes an image that already opened; an image that fails to open has no reader.
- Painter.FlattenElf: assumes non-negative section offsets, which every parsed image has by ElfParser.ParsedContained.
- Painter.BuildSubsegments: the tiling is promised for sections sorted by address and non-empty, which is how the flattener returns them.
- LoadViewTheorems.OrderIndependent: needs explicit HI16 addends, because a Type-A HI16 takes the first later companion in list order.
- Rebase.LookupCommutes: for an address in no file-backed load it needs every file section to be allocated, because lookup falls back to sections that do not move.
