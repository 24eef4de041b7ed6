# A model of the Avro codec

This project models the parts of the Avro library where most can go wrong and proves what
they promise, for all schemas, data, inputs and runs. `dafny verify dfyconfig.toml` checks
the whole of it.

Schemas are graphs: a sequence of definitions (records, enums, fixed types) that trees of
arrays, maps, unions and ids refer to, so recursive records and shared definitions are the
normal case. Data are finite trees that remember how their arrays and maps were cut into
blocks, so statements about encodings hold for every cut and for sized and unsized block
headers alike. Bytes are numbers below 256. Code that changes state is modelled by classes
and methods with loops; each is proved against a function on values, and the theorems are
about those functions.

| part | files |
|---|---|
| wire format: varints, headers, buffered reader and writer | `Wire`, `WireLaws`, `Datums`, `BufferedReader`, `BufferedWriter`, `Encoders`, `TypedDecoders` |
| schemas, their values, reading and skipping | `Schemas`, `Values`, `Decoding`, `Skipping`, `LogicalValues`, `ReadingLimits`, `Locality`, `Refusals`, `GenericReader`, `SkipDecoders` |
| compatibility: keys, the check, its memo | `Fingerprints`, `FingerprintWriter`, `Compatibility`, `Checking`, `Evolution`, `Unfoldings`, `Memo`, `MemoExactness`, `MisledMemo`, `SchemaCompatibility` |
| resolution: meaning, plans, the compiler of plans | `Meanings`, `Plans`, `Preservation`, `PlanGrowth`, `ResolvedFields`, `BranchChoice`, `Fitting`, `SchemaResolution`, `MisledResolution`, `Pipeline` |
| container files | `ContainerFormat`, `ContainerRefusals`, `ContainerReader`, `ContainerWriter` |
| numbers | `Powers`, `Decimals`, `Integers`, `Timestamps`, `NumberParts`, `Crc64` |
| graphs | `Finite`, `StructFields`, `SchemaClone`, `Dereference`, `ValueCycles` |

The main results:

- **Resolution.** If the memo answers truly for the reader, resolving refuses exactly the
  incompatible pairs, and running the plan over any encoding of a writer's datum delivers what
  the section "Schema Resolution" of the Apache Avro 1.12.0 specification makes of it, consuming
  exactly its bytes; skipping the plan stops at the same place (`Pipeline.ResolveAndRead`,
  `Pipeline.ResolveAndSkip`, `Preservation.ResolutionPreservesMeaning`).
- **Compatibility.** The recursion without its memo terminates on cyclic graphs and decides the
  greatest relation the rules allow (`Checking.CheckExact`). With the memo it is exact for every
  reader whose unions are settled, which includes every reader that is not recursive
  (`MemoExactness.MemoExact`); outside that condition it goes wrong, see "Findings".
- **Schema evolution.** Which pairs the rules accept is spelled out type by type
  (`Evolution.RecordsExact` and its neighbours). A schema reads itself; definitions that only
  grew, through any cycles, read what was written before (`Evolution.GrowthReads`); a record that
  adds fields reads the old one exactly if all of them have defaults (`Evolution.AddedFields`).
- **Values and limits.** Dates, times, instants, durations and decimals read as what was
  written, in seconds and nanoseconds (`LogicalValues`). No input makes the reader deliver more
  than its limits (`ReadingLimits.ReadLimited`), reading looks at no byte it does not consume,
  and an encoding cut short is refused (`Locality.TruncatedRefused`).
- **Wire layer.** The refilling reader and the in-place block writer do on any chunking and any
  capacity what plain functions on byte strings do, and those invert each other.
- **Embedded fields.** The breadth-first search with saturated path counts binds every name as
  the rule over all embedding paths does (`StructFields.DescribeStruct`).
- **Container files.** Any interleaving of operations on a sound output yields a file that reads
  back as exactly the accepted records (`ContainerWriter.WriteThenRead`), in blocks that are cut
  when a limit is reached and not before (`ContainerWriter.DividedByLength`); a file cut inside a
  block is refused (`ContainerRefusals.FileTruncated`).
- **Arithmetic and graphs.** Decimals, timestamps, CRC-64, normal forms of numbers, cloning,
  dereferencing and cycle detection are exact.

## Findings

Where the code does not meet what it promises, the model keeps the code as it is, shows an
input, and proves when it does.

| what goes wrong | shown by | when it is right |
|---|---|---|
| The compatibility memo stores acceptances that rest on a pair still being decided (schema_compatibility.go:178-185). If that pair is then rejected, the stored acceptance is wrong. A reader union `[x.A {b: x.B, x: string}, y.A {b: x.B}]` with `x.B {a: x.A}` is accepted for the writer `A {b: B, x: int}`, `B {a: A}`, which it cannot read. | `MisledMemo.UnionReaderMisled` | `MemoExactness.MemoExact`: every union of the reader is settled, that is, no branch leading to a recursive record is followed by a branch of its kind that some writer could match as well |
| After a rejected call the memo can be wrong without any union: once `x.A` has been rejected, the next call on the same checker accepts `x.B` for `B`. | `MisledMemo.SecondCallMisled` | `MemoExactness.HarmlessCalls`: the rejected readers lead to no recursion, or were refused at first sight |
| `Resolve` asks the same memo for each reader branch (schema_compatibility.go:465-470). With `z.A {}` as third branch the pair is compatible, but the resolution descends into `y.A` and reports an error. | `MisledMemo.WrongBranch`, `MisledResolution.CompatibleButRefused` | `SchemaResolution.Resolve`, `BranchChoice.FirstCachedExact`: a truthful memo and a settled reader |
| A decimal that was written is not always read: with the byte limit disabled, or beyond the platform limit, a payload can be longer than reading admits. | `Decimals.DecimalRoundTrip` | exactly when the payload is within the limit of reading; always for a limit between 1 and the platform limit |

## Model

| member | source | states |
|---|---|---|
| Wire.VarintRoundTrip | writer.go:139-147 | decoding an unsigned varint followed by anything returns the number and exactly what follows, for every number the width admits |
| Wire.UvarintLength | writer.go:139-147 | no varint is longer than its type allows: five bytes for an int, ten for a long |
| Wire.LongRoundTrip | writer.go:129-147 | every int64, zig-zag coded, is decoded to itself whatever follows (the decoder itself is `BufferedReader.Reader.ReadLong`) |
| Wire.IntRoundTrip | writer.go:123-147 | the same for every int32 within five bytes (the decoder itself is `BufferedReader.Reader.ReadInt`) |
| WireLaws.VarintExact | reader.go:210-347 | decoding succeeds exactly on bytes that are all marked but the last, not too many and not too large, and gives the sum of seven bits of each times a power of 128 |
| WireLaws.Utf8Exact | reader.go:371-382 | bytes pass as text exactly if they encode code points that are no surrogates, each in its one shortest form |
| BufferedWriter.ZigzagWordExact | writer.go:124-132 | the shift and flip on machine words is the zig-zag code of every number of the width |
| BufferedWriter.Writer.AppendUvarint | writer.go:139-147 | the loop appends exactly the varint, in the same array when the capacity lasts |
| BufferedWriter.Writer.WriteInt | writer.go:124-127 | appends the zig-zag varint of an int32 and nothing else |
| BufferedWriter.Writer.WriteLong | writer.go:130-137 | appends the zig-zag varint of an int64, leaving later bytes of the array alone |
| BufferedWriter.Writer.WriteBytes | writer.go:160-163 | appends the length and the bytes |
| BufferedWriter.Writer.WriteString | writer.go:166-176 | text that is not UTF-8 is refused and nothing is written |
| BufferedWriter.HeaderFits | writer.go:179-196 | a header for at most 2^62 items and less than 2^62 bytes fits the 18 reserved bytes |
| BufferedWriter.Writer.WriteBlockHeader | writer.go:179-186 | a negated count and the size, or the count alone when sizes are off or the body is empty |
| BufferedWriter.Writer.OpenBlock | writer.go:189-196 | reserves 18 bytes behind an unchanged prefix |
| BufferedWriter.Writer.CloseBlock | writer.go:197-211 | in the same array: the old prefix, then the header, then the body, for any body including nested blocks |
| BufferedWriter.Writer.MoveDown | writer.go:206-209 | the captured body is moved down without being overwritten before it is read |
| BufferedReader.FlowOfParts | reader.go:99-139 | however the input is cut into non-empty parts, with up to 100 empty reads before each, what flows is all of it and then its end |
| BufferedReader.FlowStops | reader.go:99-139 | a source that delivers nothing more than 100 times in a row is given up, whatever it would have delivered later |
| BufferedReader.Reader.constructor | reader.go:55-72 | a reader over a source has all bytes of the source before it |
| BufferedReader.Reader.FromBytes | reader.go:75-82 | a reader over an array has its bytes before it and ends cleanly |
| BufferedReader.Reader.ReportError | reader.go:91-96 | the first error stays, except that the end of input gives way |
| BufferedReader.Reader.Fetch | reader.go:99-139 | one read of the source: part of the next chunk, or all of it with its error |
| BufferedReader.Reader.LoadMore | reader.go:99-139 | a refill neither drops an unread byte nor invents one, and fails exactly when none are left |
| BufferedReader.Reader.ReportUnexpectedEof | reader.go:141-145 | an end of input inside a value becomes an unexpected end |
| BufferedReader.Reader.ReadByte | reader.go:147-166 | the next byte whether or not a refill is needed |
| BufferedReader.Reader.Peek | reader.go:169-176 | the next byte, which stays unread |
| BufferedReader.Reader.ReadInto | reader.go:179-195 | fills the destination with the next bytes across refills; if there are too few, the error is that of the source, a plain end of input becoming an unexpected one |
| BufferedReader.Reader.ReadBool | reader.go:198-207 | one byte, zero or one |
| BufferedReader.ScanVarint | reader.go:226-275 | sweeping over a window either ends the varint, finds an overflow, or leaves an exact state to resume from |
| BufferedReader.Reader.VarintFast | reader.go:218-239 | the fast path over buffered bytes decodes what the plain decoder does |
| BufferedReader.Reader.VarintSlow | reader.go:240-277 | the slow path, refilling between bytes, decodes the same |
| BufferedReader.Reader.SlowStep | reader.go:243-275 | one window of the slow path: done with the right value or failure, or the exact state to go on from |
| BufferedReader.Reader.ReadInt | reader.go:210-278 | the value or failure of decoding the remaining bytes, independent of chunking; exactly the varint is consumed |
| BufferedReader.Reader.ReadLong | reader.go:281-347 | the same for a long |
| BufferedReader.Reader.ReadString | reader.go:371-382 | length-prefixed bytes that must be UTF-8 |
| BufferedReader.Reader.ReadBytes | reader.go:384-422 | length-prefixed bytes within the configured and the platform limit, from the buffer or across refills |
| BufferedReader.Reader.ReadBlockHeader | reader.go:425-448 | count and size; a negative count announces a size; the smallest int64 is refused |
| BufferedReader.Reader.SkipNBytesInt64 | reader_skip.go:6-19 | skips exactly so many bytes or fails |
| BufferedReader.Reader.SkipNBytes | reader_skip.go:22-45 | the refilling loop skips exactly so many bytes or fails |
| BufferedReader.Reader.SkipVarint | reader_skip.go:62-73 | stops where reading the varint would, and refuses what reading refuses |
| BufferedReader.Reader.SkipBytes | reader_skip.go:86-95 | skips the length and so many bytes |
| Skipping.HeaderRoundTrip | reader.go:425-448 | reading inverts writing of block headers, sized and unsized |
| Skipping.SkipVarintAgrees | reader_skip.go:62-73 | skipping a varint succeeds exactly when reading does and leaves the same bytes |
| Skipping.SkipExact | codec_skip.go:17-276 | skipping any plan over any encoded datum, with or without sizes in the data, leaves exactly what follows |
| Skipping.SkipBlocksExact | codec_skip.go:181-238 | the same for blocks, where a positive size is trusted |
| Decoding.PrimitiveDenotes | reader_generic.go:28-101 | a promoted primitive reads as the writer's number or text converted, in its logical type, or fails where that has no value; which value that is, is spelled out by the rows of `LogicalValues` |
| Decoding.ReadDenotes | reader_generic.go:11-206 | reading any plan over any encoded datum followed by anything delivers the value the plan gives the datum and exactly what follows |
| Decoding.DefDenotes | reader_generic.go:102-136 | the same for records, enums and fixed types |
| Decoding.FieldsDenote | reader_generic.go:102-126 | fields in wire order: ignored ones skipped, absent ones from their defaults |
| Decoding.ItemsDenote | reader_generic.go:237-241 | the items of one block |
| Decoding.BlocksDenote | reader_generic.go:226-267 | all blocks together, within the limit on their items |
| Decoding.SkipAgreesWithRead | codec_skip.go:17-276 | skipping and reading the same plan over the same datum leave the same bytes |
| Refusals.BoolStrict | reader.go:198-207 | a boolean is a byte that is zero or one; reading and skipping refuse others |
| Refusals.TextStrict | reader.go:371-382 | text that is delivered is UTF-8 |
| Refusals.UnionStrict | reader_generic.go:153-162 | an index that names no branch is refused, by reading and by skipping |
| Refusals.UnionReads | reader_generic.go:153-172 | a branch is read as itself and delivered under its full name, or its type and logical type; null comes bare |
| Refusals.EnumStrict | reader_generic.go:129-136 | an index outside the writer's symbols is refused, by reading and by skipping; inside, a plain enum gives the symbol at it |
| Refusals.FixedStrict | reader_generic.go:173-178 | a fixed larger than the limits is refused before its bytes are looked at |
| Refusals.HeaderStrict | reader.go:425-448 | a negative count announces a size; the least int64 and negative sizes are refused |
| Refusals.SizedBlockSkipped | codec_skip.go:181-238 | skipping jumps over a block with a size, whatever is in it |
| Refusals.TooManyItems | reader_generic.go:226-267 | more items than the limit are refused as soon as a header announces them |
| ReadingLimits.BytesExact | reader.go:384-422 | bytes are delivered exactly if their length is not negative, within both limits, and they are all there |
| ReadingLimits.ReadLimited | reader_generic.go:11-267 | whatever the input and the plan, every string, array and map inside a delivered value is within the limits |
| Locality.ReadLocal | reader_generic.go:11-267 | reading consumes a prefix, and any input with that prefix reads alike |
| Locality.SkipLocal | codec_skip.go:81-276 | so does skipping |
| Locality.TruncatedRefused | reader_generic.go:11-267 | the encoding of a datum cut short anywhere is refused |
| LogicalValues.PlainReads | reader_generic.go:26-101 | without a logical type a primitive reads as what was written |
| LogicalValues.PromotedReads | converter.go:3-34 | a promoted number is the writer's number in the reader's type |
| LogicalValues.PromotedText | schema_compatibility.go:242-250 | text and bytes stand for each other; bytes that are not text are refused as text |
| LogicalValues.IgnoredLogical | reader_generic.go:28-101 | an annotation that does not fit its type changes nothing |
| LogicalValues.DateReads | codec_native.go:529-557 | a date reads as midnight, so many times 86400 seconds from the epoch; an instant is encoded as that date exactly if it lies within its day |
| LogicalValues.TimeMillisReads | codec_native.go:661-699 | an int from 0 to 86399999 is that many times 1000000 nanoseconds, any other is refused; the encoder inverts this, rounding down |
| LogicalValues.TimeMicrosReads | codec_native.go:701-728 | the same for microseconds, from a long or a promoted int |
| LogicalValues.TimestampReads | codec_native.go:559-626 | every long, or promoted int, is the instant that many times 1000000 or 1000 nanoseconds from the epoch |
| LogicalValues.TimestampRoundTrip | codec_native.go:559-659 | an instant the encoder accepts reads back as itself, rounded down to whole units |
| LogicalValues.DurationReads | reader_generic.go:191-198 | months, days and milliseconds, each four bytes with the lowest first |
| LogicalValues.DecimalReads | decimal.go:109-128 | bytes are delivered as their two's-complement number over 10^scale exactly if they are within the limit, have at most the precision's digits and need no power of ten beyond the limit |
| LogicalValues.FixedDecimalReads | reader_generic.go:181-190 | the same for a fixed whose size holds every number of the precision; a smaller one is read as plain bytes |
| LogicalValues.DecimalRoundTrip | codec_native.go:730-743 | a decimal that can be written reads back as an equal number |
| GenericReader.ReadNext | reader_generic.go:11-206 | over any input, truthful or not, the interpreter on a chunked reader delivers what the pure reading of the remaining bytes does |
| GenericReader.ReadUnion | reader_generic.go:153-172 | the branch comes from the plans of a resolved union, or from its types; a bad index fails |
| GenericReader.ReadDefinition | reader_generic.go:102-136 | records, enums and fixed types as the pure reading has them |
| GenericReader.ReadFixed | reader_generic.go:173-201 | size limit, bytes, then decimal or duration |
| GenericReader.ReadRecord | reader_generic.go:102-126 | field by field, stopping at the first failure |
| GenericReader.ReadDefaultValue | reader_generic.go:208-223 | a default is decoded by a reader of its own and does not move the stream |
| GenericReader.ReadCollection | reader_generic.go:226-267 | for any input bytes the items delivered across all blocks stay within the limit, also before a failure |
| GenericReader.ReadBlock | reader_generic.go:237-263 | the items of one block, keys before values in maps |
| GenericReader.ReadTimeUnits | codec_native.go:670-679 | a time of day outside the day is refused |
| GenericReader.ReadDecimal | decimal.go:109-128 | the rational behind the bytes, or an error |
| GenericReader.ReadLongAs | converter.go:3-10 | a long, or an int widened to one |
| GenericReader.ReadFloatValue | converter.go:12-21 | a float from an int, a long or a float |
| GenericReader.ReadDoubleValue | converter.go:23-34 | a double from an int, a long, a float or a double |
| SkipDecoders.SkipContext.Create | codec_skip.go:17-77 | compiling terminates on cyclic graphs and yields a decoder for the schema |
| SkipDecoders.SkipContext.CreateRecord | codec_skip.go:121-142 | a record met again while it is compiled gets the deferred decoder |
| SkipDecoders.SkipContext.CreateFields | codec_skip.go:128-139 | one decoder per field that occupies bytes |
| SkipDecoders.CreateSkipDecoder | codec_skip.go:8-11 | every record reachable from the result has its decoders filled in |
| SkipDecoders.Run | codec_skip.go:81-276 | over any input a compiled decoder leaves the reader where the pure skip does, or fails with it |
| SkipDecoders.RunRecord | codec_skip.go:148-152 | a deferred record |
| SkipDecoders.RunFields | codec_skip.go:148-152 | the fields in order |
| SkipDecoders.RunEnum | codec_skip.go:158-166 | an index outside the writer's symbols fails |
| SkipDecoders.RunBlocks | codec_skip.go:181-238 | blocks until an empty one; a positive size is jumped over |
| SkipDecoders.RunUnion | codec_skip.go:252-264 | the branch of the index, from the plans of a resolved union |
| SkipDecoders.RunFixed | codec_skip.go:270-276 | the size is checked against the limits before the bytes are skipped |
| TypedDecoders.DecodeArray | codec_array.go:41-89 | whatever the input, a slice grown and filled in place never outgrows the limits, and holds the elements of all blocks in order when decoding succeeds |
| TypedDecoders.AppendBlock | codec_array.go:71-82 | one more block behind the elements already there |
| TypedDecoders.DecodeMap | codec_map.go:59-92 | no more entries than the limit are put in; a key met again takes the later value; other entries of the destination stay |
| Encoders.EncodeArray | codec_array.go:108-139 | blocks of the configured length, each through its reserved header, then an empty header |
| Encoders.EncodeMap | codec_map.go:185-213 | blocks are written until one comes out empty, which is the terminator |
| Encoders.EncodeOneBlock | writer.go:189-212 | one block of a collection whose items may contain blocks themselves |
| Encoders.EncodeDatum | codec_array.go:108-139 | a whole datum with every collection in it cut into blocks; it fails exactly if some map key is not UTF-8 |
| Encoders.ItemsOfCut | codec_array.go:116-131 | cutting into blocks neither loses nor reorders items |
| Encoders.CutSizes | codec_array.go:116-131 | all blocks but the last hold exactly the configured number of items, none is empty, and those with bytes carry a size when it is wanted |
| Encoders.ReblockDenotes | codec_array.go:108-139 | the value of a datum does not depend on how its collections are cut |
| Encoders.BlockingRoundTrip | codec_array.go:41-139 | for every block length and both header settings, what was written reads back as the same value and is consumed exactly; skipping stops there too |
| Encoders.ArrayValue | codec_array.go:41-139 | an array decodes to the values of its items in order, zero-width items included |
| Encoders.MapValue | codec_map.go:59-92 | a map decodes to exactly its keys and their values |
| Fingerprints.FingerprintExact | schema_compatibility.go:22-139 | two schemas have the same fingerprint data exactly when their graphs are isomorphic in everything the rules inspect, cycles and sharing included |
| Fingerprints.PrintDecodes | schema_compatibility.go:58-127 | equal prints followed by anything come from schemas with the same unfolding, and what follows is equal |
| Fingerprints.PrintSame | schema_compatibility.go:58-127 | isomorphic schemas print alike |
| Fingerprints.StringsPrefix | schema_compatibility.go:32-42 | a list of strings is decodable from what it was printed into |
| Fingerprints.DecimalPrefix | schema_compatibility.go:129-139 | so is the decimal part of a logical type |
| FingerprintWriter.Writer.WriteDefinition | schema_compatibility.go:44-56 | a definition is numbered when first met, later only referred to |
| FingerprintWriter.Writer.WriteSchema | schema_compatibility.go:58-127 | the recursion with its growing table terminates on cyclic graphs and appends exactly the print |
| FingerprintWriter.Writer.WriteStrings | schema_compatibility.go:37-42 | count, then each string with its length |
| FingerprintWriter.Writer.WriteDecimal | schema_compatibility.go:129-139 | precision and scale of a decimal, or a zero |
| FingerprintWriter.FingerprintData | schema_compatibility.go:22-26 | the data that are hashed are the print of the schema |
| Checking.AcceptsExact | schema_compatibility.go:165-187 | the recursion with an active set and without the memo accepts a pair exactly if it is in the greatest relation that takes the active pairs for granted |
| Checking.CheckExact | schema_compatibility.go:174-186 | started with no active pairs, that recursion decides the greatest relation the rules allow; the memo of lines 167-173 and 185 is the subject of `Memo` and `MemoExactness` |
| Checking.MatchSame | schema_compatibility.go:189-311 | the rules treat pairs with equal keys alike, so a key may stand for its pair |
| Checking.FixpointByKey | schema_compatibility.go:166-173 | compatibility cannot tell apart schemas with equal fingerprints |
| Checking.FixpointConsistent | schema_compatibility.go:189-311 | the greatest relation is closed under the rules |
| Evolution.CompatibleExact | schema_compatibility.go:189-311 | a pair is compatible exactly if the rules lead to compatible pairs |
| Evolution.SameNameExact | schema_compatibility.go:333-342 | names match exactly if they agree after the last dot or the writer's full name is an alias of the reader |
| Evolution.FieldsExact | schema_compatibility.go:402-436 | matching fields fails exactly if a reader field takes two writer fields by name and aliases; otherwise it is the relation of taking |
| Evolution.RecordsExact | schema_compatibility.go:290-300 | two records are compatible exactly if the names match, no reader field is ambiguous, every matched pair of fields is compatible and every other reader field has a default |
| Evolution.EnumsExact | schema_compatibility.go:275-288 | two enums: the names match, and the reader has all symbols of the writer or a default |
| Evolution.FixedExact | schema_compatibility.go:263-273 | two fixed types: names and sizes agree, and the decimals if both are decimals |
| Evolution.PrimitivesExact | schema_compatibility.go:226-253 | two primitives: the same kind or one of the eight promotions, and the same decimal if both are decimals |
| Evolution.CollectionsExact | schema_compatibility.go:257-261 | arrays and maps: their items and values |
| Evolution.WriterUnionExact | schema_compatibility.go:202-210 | a writer union: every branch of it |
| Evolution.ReaderUnionExact | schema_compatibility.go:213-224 | a reader union and another writer: some branch of it |
| Evolution.DerefExact | schema_compatibility.go:190-196 | a reference is what it refers to |
| Evolution.OthersExact | schema_compatibility.go:253-253 | nothing else is compatible, but null reads null |
| Evolution.GrowthReads | schema_compatibility.go:374-398 | a schema whose records only gained fields with defaults and renamed through aliases, and whose enums only gained symbols, anywhere and through all cycles, reads what was written before |
| Evolution.ReadsItself | schema_compatibility.go:189-311 | every declared schema reads itself |
| Evolution.AddedFields | schema_compatibility.go:383-389 | a record that only adds fields reads the old one exactly if all of them have defaults |
| Evolution.GrowthAccepted | schema_compatibility.go:154-187 | the check accepts such growth, without a memo and with any memo that is reliable for the reader |
| Unfoldings.FiniteExact | schema_compatibility.go:165-187 | a schema unfolds finitely exactly when it leads to no record that contains itself |
| Unfoldings.ShallowTwin | schema_compatibility.go:166-166 | schemas with equal fingerprints unfold equally deep |
| Memo.RejectionsTrue | schema_compatibility.go:165-187 | every stored and returned rejection is a true one, whatever was assumed |
| Memo.AcceptancesJustified | schema_compatibility.go:178-186 | every stored acceptance rests on other acceptances, on pairs still being decided, or on pairs decided and rejected since |
| Memo.NoRejectionNoHarm | schema_compatibility.go:178-186 | a call that stores no new rejection leaves a true memo true |
| MemoExactness.FiniteReaderExact | schema_compatibility.go:165-187 | for a reader that leads to no recursion the memoised check is exact and stores only true verdicts, whatever else is being decided |
| MemoExactness.AcceptedSoundly | schema_compatibility.go:165-187 | an accepted run on a settled reader stores only acceptances that are true or rest on acceptances and active pairs |
| MemoExactness.NamesMeetExact | schema_compatibility.go:333-342 | two reader names compete exactly if some writer name matches both |
| MemoExactness.MemoExact | schema_compatibility.go:154-187 | with a true memo a call answers exactly if the reader's unions are settled; the memo stays true on acceptance, and on rejection if the reader leads to no recursion or was refused at first sight |
| MemoExactness.FiniteUncontested | schema_compatibility.go:213-224 | a reader that leads to no recursion meets that condition whatever its unions |
| MemoExactness.FreshReliable | schema_compatibility.go:147-163 | so a new checker answers truly for every reader that is not recursive |
| MemoExactness.HarmlessCalls | schema_compatibility.go:154-187 | after any run of such calls the memo is still true |
| MisledMemo.UnionReaderMisled | schema_compatibility.go:213-224 | on a fresh memo a reader union is accepted for a writer it cannot read |
| MisledMemo.SecondCallMisled | schema_compatibility.go:178-186 | after a rejected call, and without any union, the next call on the memo accepts an incompatible pair |
| MisledMemo.WrongBranch | schema_compatibility.go:464-475 | for a compatible pair the memo names a branch that does not match |
| MisledMemo.NamespacedExists | schema_compatibility.go:213-224 | such schemas exist, with names that one document can define |
| SchemaCompatibility.IndexByName | schema_compatibility.go:403-408 | writer fields by name |
| SchemaCompatibility.MatchOne | schema_compatibility.go:410-425 | the one writer field a reader field names by its name or an alias, or ambiguity |
| SchemaCompatibility.MatchRecordFields | schema_compatibility.go:402-436 | each reader field is matched to at most one writer field and no writer field twice, or the match fails |
| SchemaCompatibility.Checker.Compatible | schema_compatibility.go:154-163 | the call with an empty active set on the shared memo; what it answers is the subject of `MemoExactness.MemoExact`, and which pairs those are of `Evolution` |
| SchemaCompatibility.Checker.Check | schema_compatibility.go:165-187 | memo, active set and rules in the order the code consults them; the active set is restored |
| SchemaCompatibility.Checker.MatchPair | schema_compatibility.go:189-311 | the rules for one pair, evaluated in the code's order with the memo threaded through |
| SchemaCompatibility.Checker.CheckRecordFields | schema_compatibility.go:374-398 | matched fields are compared, unmatched reader fields need defaults, in reader order; what that amounts to is `Evolution.RecordsExact` |
| Meanings.FirstMatchIsFirst | schema_compatibility.go:464-478 | the branch of a reader union is the first that is compatible |
| Preservation.MatchedOnce | schema_compatibility.go:402-436 | no two reader fields share a writer field |
| Preservation.EnumMeaning | schema_compatibility.go:511-545 | a remapped enum yields the writer's symbol, or the reader's default for one it lacks |
| Preservation.RecordMeaning | schema_compatibility.go:601-699 | a resolved record yields every reader field once, from the matching writer field or the default |
| Preservation.BranchMeaning | schema_compatibility.go:464-478 | a reader union with another writer yields the value of its first matching branch |
| Preservation.UnionMeaning | schema_compatibility.go:481-492 | a writer union is decided by the writer's index, one plan per branch |
| Preservation.PlanMeaning | schema_compatibility.go:455-699 | a plan gives every writer datum its meaning under the reader, recursive records included, union tags erased |
| Preservation.ResolutionPreservesMeaning | schema_resolution.go:39-51 | running the plan over the encoding of a writer datum and anything after it delivers that meaning and leaves exactly what follows; skipping does too |
| PlanGrowth.CheckStep | schema_compatibility.go:189-311 | a compatible pair rests on compatible pairs |
| PlanGrowth.PlanGrows | schema_compatibility.go:612-624 | a plan stays a plan while other records are published and filled in |
| PlanGrowth.Publish | schema_compatibility.go:612-623 | publishing a placeholder keeps the state sound |
| PlanGrowth.Fill | schema_compatibility.go:693-698 | filling it in ends its being pending |
| PlanGrowth.StateComplete | schema_compatibility.go:601-699 | when nothing is pending every placeholder has its fields |
| ResolvedFields.ValidateRecordFields | schema.go:678-698 | accepts exactly the field lists in which no name or alias repeats |
| ResolvedFields.UnmatchedWriterApart | schema_compatibility.go:634-650 | a writer field that matches nothing shares no name with any reader field or alias |
| ResolvedFields.PlanFieldsValid | schema_compatibility.go:693-695 | so the validation of a resolved record cannot fail |
| BranchChoice.FirstCachedExact | schema_compatibility.go:464-478 | asking a true memo branch by branch finds the first branch that truly matches and leaves the memo true, if the union is settled |
| SchemaResolution.Resolution.Resolve | schema_compatibility.go:455-599 | whatever the memo holds it terminates and what it returns fits; with a true memo and a settled reader it never fails on a compatible pair and returns its plan |
| SchemaResolution.Resolution.ResolveBranch | schema_compatibility.go:464-478 | always the first branch the memo accepts; with a true memo the first that matches |
| SchemaResolution.Resolution.ResolveUnion | schema_compatibility.go:481-492 | one plan for every writer branch |
| SchemaResolution.Resolution.ResolveEnum | schema_compatibility.go:511-545 | the reader's enum, or a copy that remembers the writer's symbols |
| SchemaResolution.Resolution.ResolveRecord | schema_compatibility.go:601-699 | a cycle closes on the record published for its pair |
| SchemaResolution.Resolution.ResolveFields | schema_compatibility.go:629-667 | writer fields in order, each feeding its reader field or ignored |
| SchemaResolution.WriterToReader | schema_compatibility.go:624-627 | the matching inverted |
| SchemaResolution.ReaderOnlyFields | schema_compatibility.go:669-691 | a default for every reader field that no writer field feeds |
| SchemaResolution.Resolve | schema_compatibility.go:440-452 | one memo for the check and all branches; if it answers truly for the reader, an error exactly for incompatible pairs, and otherwise a plan whose records are all filled in |
| MisledResolution.NoFit | schema_compatibility.go:455-599 | no finished resolution can have gone through the wrong branch of the example |
| MisledResolution.CompatibleButRefused | schema_compatibility.go:440-478 | on a fresh memo a compatible pair is refused |
| Pipeline.ResolveAndRead | reader_generic.go:11-206 | schemas to value: refusal exactly of incompatible pairs, else the meaning of the datum from a source cut in any way, and exactly its bytes |
| Pipeline.ResolveAndSkip | codec_skip.go:8-276 | the same for skipping |
| ContainerFormat.BlockRoundTrip | ocf/ocf.go:805-818 | a written block is read back with its count and data, whatever follows |
| ContainerFormat.RecordsRoundTrip | ocf/ocf.go:246-264 | its data decode to the records, to the last byte |
| ContainerFormat.FileRoundTrip | ocf/ocf.go:285-349 | a file of readable records decodes to exactly their values in order |
| ContainerFormat.FileCounts | ocf/ocf.go:285-349 | a sound file holds the sum of its declared counts |
| ContainerRefusals.BlockExact | ocf/ocf.go:285-349 | a block is accepted exactly if its counts are within the limits, the marker is the file's, the data decompress, and no data come with a count of zero |
| ContainerRefusals.LeftoverRefused | ocf/ocf.go:246-264 | bytes that the count does not cover are refused |
| ContainerRefusals.BlockTruncated | ocf/ocf.go:285-349 | a block cut short anywhere is refused |
| ContainerRefusals.FileTruncated | ocf/ocf.go:285-349 | a file that ends inside a block is refused, however many sound blocks come before |
| ContainerReader.ReadBlockData | ocf/ocf.go:353-376 | in one piece or in pieces, exactly the bytes of the block or a failure |
| ContainerReader.Decoder.ReadBlock | ocf/ocf.go:285-349 | counts, limits, sync marker and decompression; only a clean end of input is a plain end of file |
| ContainerReader.Decoder.HasNext | ocf/ocf.go:232-242 | false with no error exactly at the end of a sound file |
| ContainerReader.Decoder.Decode | ocf/ocf.go:246-264 | the next value; the last record of a block must use up its bytes |
| ContainerReader.ReadAll | ocf/ocf.go:232-275 | iteration ends without an error exactly if every block was consumed to its last byte, and then has returned all declared records |
| ContainerReader.SkipToEnd | ocf/ocf.go:855-886 | succeeds exactly if whole blocks lead to the end of the file |
| ContainerWriter.Encoder.constructor | ocf/ocf.go:530-644 | a new encoder has accepted nothing |
| ContainerWriter.Encoder.WriterBlock | ocf/ocf.go:805-818 | the buffered records become one block |
| ContainerWriter.Encoder.Write | ocf/ocf.go:676-698 | accepts the caller's bytes as one record unless closed or failed; a block is cut exactly if the new record reaches the block length or size |
| ContainerWriter.Encoder.Encode | ocf/ocf.go:702-726 | a value that cannot be encoded leaves nothing behind; others are accepted in order, and cut a block exactly if they reach the block length or size |
| ContainerWriter.Encoder.Flush | ocf/ocf.go:730-746 | whatever was accepted is in the output, what was pending as one block; a failure already reported is not repeated |
| ContainerWriter.Encoder.Close | ocf/ocf.go:751-768 | once, and nothing pending stays behind |
| ContainerWriter.Encoder.Reset | ocf/ocf.go:777-803 | a new file with a new sync marker on a new output; the old output gets nothing after a failure |
| ContainerWriter.RunAll | ocf/ocf.go:676-768 | any interleaving: exactly the records taken in, or an output failure after which no further byte is written; without a flush every block reached a limit, but for the last of a closed file |
| ContainerWriter.DividedByLength | ocf/ocf.go:666-670 | with a block length alone and no flush, all blocks but the last hold exactly so many records, and none more |
| ContainerWriter.DividedBySize | ocf/ocf.go:666-670 | with a block size alone, all blocks but the last have at least so many bytes, and fewer without their last record |
| ContainerWriter.WriteThenRead | ocf/ocf.go:676-818 | any run on a sound output, closed and read back through a buffer of any size, returns the accepted records in order whatever the block length and size; the blocks are divided as those limits say |
| ContainerWriter.WriteAnotherFile | ocf/ocf.go:777-803 | after a reset the second file holds exactly what was taken in since, under the new sync marker |
| StructFields.AddStep | codec_record.go:478-486 | the table keeps, for every name, a candidate seen than which none is shorter, nor tagged at its length unless it is, and whether it has an equal |
| StructFields.ScanField | codec_record.go:513-553 | one field is skipped, queued or entered, with the table and the queue exact afterwards |
| StructFields.ScanLevel | codec_record.go:501-555 | one level of the search |
| StructFields.Minimize | codec_record.go:506-511 | leaving out structs met on an earlier level loses no best candidate |
| StructFields.TableBinds | codec_record.go:460-486 | the finished table binds a name exactly as the rule over all paths does |
| StructFields.DescribeStruct | codec_record.go:494-561 | terminates on cyclic type graphs; a name is bound to a path exactly if it is the one such path: least deep, at that depth tagged before untagged, hidden, unexported and embedded fields told by their attributes |
| SchemaClone.Cloner.Clone | schema_walk.go:29-142 | a node is cloned once and every time to the same new node |
| SchemaClone.CloneSchemaGraph | schema_walk.go:25-142 | the clone of a cyclic graph is a one-to-one image of it without a node in common |
| SchemaClone.CloneKeepsSharing | schema_walk.go:29-164 | two paths meet in the clone exactly if they met before, at nodes with the same attributes |
| Dereference.Dereferencer.Walk | schema_walk.go:5-23 | pre-order rewriting terminates and leaves the walked part with every name defined once, first |
| Dereference.Dereferencer.WalkNamed | schema_parse.go:645-668 | the first occurrence becomes the definition, later ones references |
| Dereference.Dereferencer.WalkFields | schema_walk.go:5-23 | field types are rewritten in place |
| Dereference.DerefSchema | schema_parse.go:642-669 | if full names denote one node each, every name is defined exactly once, where pre-order first meets it, and nothing else changes |
| ValueCycles.Search.Visit | gen/graph.go:78-96 | a struct met while it is being visited closes a cycle; a finished one cannot |
| ValueCycles.FinishedAcyclic | gen/graph.go:71-102 | if all structs were finished in some order there is no cycle |
| ValueCycles.CheckValueCycles | gen/graph.go:71-102 | an error exactly if some struct contains itself by value |
| ValueCycles.LastDefinition | gen/graph.go:71-77 | the last definition of a name counts |
| NumberParts.PartsValue | schema_parse.go:751-785 | the normal form denotes the number it came from |
| NumberParts.NormalUnique | schema_parse.go:751-785 | equal normal numbers are identical |
| NumberParts.PartsDecideEquality | schema_parse.go:751-785 | two numbers have the same normal form exactly when they are equal |
| Decimals.DecimalBytesExact | decimal.go:86-98 | reading the bytes of an integer gives it back, and one byte fewer could not hold it |
| Decimals.DecimalBytesShortest | decimal.go:131-147 | they are the only shortest two's-complement bytes |
| Decimals.DecimalBytesFit | codec_fixed.go:218-222 | they fit a size exactly when the integer does |
| Decimals.SignedInjective | decimal.go:86-93 | bytes of one length denote different integers |
| Decimals.SignExtendKeepsValue | codec_fixed.go:223-232 | padding with the sign keeps the integer |
| Decimals.PadFixed | codec_fixed.go:224-231 | the loop and the copy fill a buffer with the padded bytes |
| Decimals.EncodeFixedDecimal | codec_fixed.go:208-234 | scaling, size check and padding in one |
| Decimals.FixedRoundTrip | codec_fixed.go:200-234 | what a fixed decimal was written as fills it and reads back as an equal rational, exactly if the fixed is within the limit of reading |
| Decimals.FixedNeverOverflows | schema.go:1843-1856 | when 10^precision is at most 2^(8*size-1) an integer of that precision fits |
| Decimals.FixedSizeSuffices | codec_fixed.go:218-222 | then the overflow error is unreachable |
| Decimals.DecimalPowerExact | decimal.go:35-46 | the cheap exponent test never rejects a power that the exact bit-length test accepts |
| Decimals.ScaledDecimalExact | decimal.go:56-84 | the result is u exactly if u times the denominator is the numerator times 10^scale within all limits |
| Decimals.DecimalRoundTrip | decimal.go:109-165 | what was written reads back as an equal rational exactly when the payload is within the limit of reading |
| Integers.StoresExact | codec_native.go:436-446 | the two comparisons after a wrapping conversion accept exactly the values of the destination type |
| Integers.SendsExact | codec_native.go:373-387 | the encoder's comparisons accept exactly the values in the range of an Avro int |
| Integers.SetInteger | codec_native.go:436-446 | stores the value or reports an error and leaves the destination alone |
| Integers.DecodeInt | codec_native.go:365-371 | an int into a variable of any host type, with the time-of-day check |
| Integers.EncodeInt | codec_native.go:373-387 | writes the value or reports an error and writes nothing |
| Integers.SendInt | codec_native.go:365-387 | what one host type encodes another decodes unchanged, or refuses because it is too narrow |
| Integers.HoldsExact | codec_native.go:436-446 | the ranges of the eight integer types |
| Timestamps.TimestampValueIsFloor | codec_native.go:628-659 | inside the year guard it succeeds exactly if the floor of the instant fits int64, and returns it; no intermediate int64 operation overflows |
| Timestamps.TimestampRoundTrip | codec_native.go:623-659 | every int64 count survives the trip through an instant |
| Timestamps.YearLength | codec_native.go:632-636 | the bounds of the year guard are starts of years: years follow one another from 1970 with 365 or 366 days by the Gregorian rule |
| Crc64.TableEntry | pkg/crc64/crc64.go:36-40 | eight masked shifts of a byte are eight feedback shifts |
| Crc64.MakeTable | pkg/crc64/crc64.go:33-43 | every entry of the table |
| Crc64.Digest.Write | pkg/crc64/crc64.go:93-99 | one table lookup per byte is the bit-serial definition of "Schema Fingerprints" in the Avro specification |
| Crc64.SerialConcat | pkg/crc64/crc64.go:93-99 | writing in any split gives the same sum |
| Crc64.SumBytesCarryChecksum | pkg/crc64/crc64.go:113-140 | the bytes of the sum determine it in either order, and the orders mirror each other |
| Crc64.SumBytesValue | pkg/crc64/crc64.go:113-140 | little-endian bytes are the register with the lowest byte first, big-endian bytes with the highest first |
| Crc64.EmptyValue | pkg/crc64/crc64.go:27-28 | the empty register is 0xc15d213aa4d7a795 |
| Crc64.ShiftDivides | pkg/crc64/crc64.go:36-40 | shifting divides by a power of two |
| Crc64.SumWithByteOrder | pkg/crc64/crc64.go:150-154 | the eight bytes stand for the register after the data, lowest byte first or highest byte first as asked |

## Left out

- Depth of the stack: reading and skipping take a bound on how deeply records nest, as the Go stack does without saying so; the theorems ask for enough of it.
- Identity of nodes: records, enums and fixed types have identity as ids, other nodes are trees, so sharing of unnamed nodes is seen only by the clone.
- The `changed` and `resolved` flags, the cache fingerprints that `finish` and `remember` maintain (schema_resolution.go:35-37, 55-75), and properties, documentation and field order of schemas.
- SchemaResolution.Resolution.ResolveUnion: does not model the duplicate-type check of the union constructor (schema_resolution.go:39-51), whose plans come from a sound reader union.
- Keys of the memo are the data that the code hashes; SHA-256 is taken to be free of collisions.
- Schemas.ValidDecimal: states the bound of schema.go:1849 as an exact inequality of integers, not as the float computation.
- Floating-point numbers are their bits, and conversions to them stay symbolic.
- Field defaults are data whose bytes are their encoding; building them from Go values (codec_default.go) is not modelled.
- Pipeline.ResolveAndRead: asks that every default in the graph is a datum of its field's type within the configured limits, which parsing establishes.
- BufferedReader.Reader.FromBytes: copies instead of aliasing the caller's slice, and small reads are copied out of the buffer rather than into a shared slab.
- BufferedWriter.Writer.CloseBlock: the callback of `WriteBlockCB` is the code between `OpenBlock` and `CloseBlock`; counts up to 2^62 and sizes below 2^62 are asked for, as a larger header would not fit.
- Encoders.EncodeDatum: asks that the bytes to be written stay below 2^62 in all; struct, pointer, union and interface encoders over Go types are not modelled.
- TypedDecoders.DecodeArray: elements are decoded by the generic reader; the runtime's limit is a parameter instead of the platform limit divided by the element size.
- ContainerReader.Decoder.constructor: starts after the file header; parsing it, choosing a codec by name and reading the schema from it are not modelled, and compression is a lossless pair of functions.
- ContainerWriter.WriteThenRead: whether a value can be encoded, and as which bytes, is a parameter of the run; the blocks must respect the reader's limits for the values to be promised.
- ContainerWriter.Encoder.Close: an error of releasing the codec is a parameter.
- SchemaClone.CloneSchemaGraph: clones declared schemas; plans of resolved unions are not cloned, as in the code (schema_walk.go:102-105).
- Timestamps.TimestampValueIsFloor: takes an instant as seconds and nanoseconds of UTC, and the guard on the year as a bound on the seconds; months, days of the month and time zones are not modelled.
- LogicalValues.DateReads: leaves out the guard on the year of a date (codec_native.go:546-549), which only refuses what the range of an int refuses anyway.
- StructFields.DescribeStruct: takes a field's tag as the text before its first comma; reading it from the struct tag is not modelled.
- Reflection, unsafe pointers, text marshallers, JSON text, the registry client, single-object framing, command-line tools, code templates, pools and codec caches.
