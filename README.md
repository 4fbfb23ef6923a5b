# gIPCFuzz core, modelled in Dafny

gIPCFuzz is a coverage-guided fuzzer for gRPC services. It captures gRPC
traffic and works out which fields of a request depend on the answers to
earlier calls. It then mutates messages and replays them against a target
process, which a Frida agent instruments for basic-block coverage. This
project models the sequential, deterministic pieces under the orchestration
and proves what they guarantee.

- **Coverage-feed controller** (`CoverageFeed`, script.js). This is the agent's
  RPC surface. It keeps an event buffer, a target, a one-shot timer and a
  call counter in a `Controller` class. The tracer, module lookup and export
  lookup are parameters or ghost counters.
- **Go symbol-table walker** (`GoSymbols`, script.js). It scans readable memory
  for the pclntab magic and accepts the first match that passes the
  structural check. It then walks the function records with a cursor loop.
  The `GoRuntime` class keeps the two write-once caches. Memory is a map from
  address to byte.
- **Protobuf dumper** (`ProtoDump`, packet.go `decodeProto`). This is the
  wire-format walker that writes one indented line per field into a
  `TextBuffer`. When an embedded parse fails, it rolls the output back.
- **gRPC frame reader** (`Frames`, packet.go `ParseFrameToByteMsg`). It checks
  the length-prefixed-message header, maps the `:path` to a symbol, and picks
  the method's input or output type from the first descriptor file that
  resolves it.
- **Relation analysis** (`Relations`, relations.go). It covers:
  - `unique`;
  - request/response pairing by stream id;
  - the field-relation rule, including the run-time panic of `==` on
    values Go cannot compare;
  - de-duplication of dependencies on `"Msg1:Msg2"`;
  - the transition counts and path index of `CalculateRelationMatrix`.
- **Rescalers and lookups** (`Util`, util.go). These are the in-place min-max
  rescalers with round-half-up on Go's truncating division, plus the two
  searches.
- **Fuzzing-loop pieces** (`FuzzLoop`, loop.go). They cover:
  - queue growth on new coverage;
  - the energy tails (sum, then sort by non-increasing energy);
  - handler selection;
  - the message searches.
- **Coverage decoding** (`TraceCoverage`, trace.go `GetCoverage`). The agent's
  `[start, end]` string pairs become `CoverageBlock`s through
  `strconv.ParseUint(s, 0, 64)`.
- **The two mutators** (`AwareMutator`, `UnawareMutator`, with `MutatorBase`).
  They cover:
  - which fields are dependent, copied or skipped;
  - which field is mutated;
  - the value-choice rules of the unaware mutator's helpers.

Randomness enters as explicit draws. Clocks enter as timestamps. Marshalling,
unmarshalling and value mutation enter as function parameters. Where the
code does something its comments or its evident purpose contradict, the
model carries a `Variant`/`Reading` switch. The as-written case is what the
rest of the model describes; see "## Findings".

## Model

| member | source | states |
|---|---|---|
| Common.GoDiv | util/util.go:162 | Go's `/` truncates toward zero: for two positive-signed operands it is the Euclidean quotient, for two non-positive ones it is (-a) / (-b), and whenever the signs agree the quotient is not negative |
| Common.ToLower | packet/relations.go:124-125 | lower-casing keeps the length and maps each character through the ASCII lower-case mapping |
| Common.ReplaceFirst | packet/packet.go:232 | replacing the first `/` keeps the length, and a string without `/` is returned unchanged |
| Common.HexEncode | packet/packet.go:236 | two lower-case hex digits per byte |
| Common.HexDecode | packet/relations.go:62-69 | a successful decode has half as many bytes as the string has characters |
| Common.HexRoundTrip | packet/packet.go:236 | decoding the hex encoding of any byte string gives the bytes back |
| MutatorBase.Encoded | mutator/dependencyAwareMutator.go:64-69 | the mutation result is the hex string exactly when marshalling succeeds; it decodes back to the marshalled bytes; a marshalling error carries the "Failed to marshal the mutated message!" prefix |
| CoverageFeed.HexRun | script.js:63 | the longest hex-digit prefix: it is a prefix, all its characters are hex digits, and the next character is not |
| CoverageFeed.LiteralAddress | script.js:62-63 | a "0x" handler without digits gives address 0; otherwise the address ends in the last digit's value (modulo 16) |
| CoverageFeed.CollectionsBetweenCount | script.js:49-52 | with the tracer's `garbageCollect` (the name line 75 uses), k further calls from counter `start` reclaim memory (start + k) / 100 - start / 100 times and no exit callback throws |
| CoverageFeed.GarbageNeverCollected | script.js:49-52 | as written (`garbagecollect`), k further calls from counter `start` never reclaim memory and throw (start + k) / 100 - start / 100 times |
| CoverageFeed.Controller.constructor | script.js:3-7 | the initial state: empty buffer, no target, undefined time, counter 0, no probes |
| CoverageFeed.Controller.SetTarget | script.js:56-71 | an empty target array throws the TypeError of reading `handler` of `undefined` and leaves the target as it was; otherwise only `target[0]` is read, a "0x" handler becomes the literal address, a found export becomes the target, a failed lookup keeps the previous target, and the answer is true |
| CoverageFeed.Controller.StartCoverageFeed | script.js:10-21 | throws "Cannot find specified module!" exactly when the target or its module is missing; otherwise one probe is added at module base + target address |
| CoverageFeed.Controller.OnEnter | script.js:22-24 | `execTime` becomes the entry timestamp and the calling thread is followed |
| CoverageFeed.Controller.OnReceive | script.js:32-38 | exactly one `{module, coverage}` entry is appended at the end of the buffer |
| CoverageFeed.Controller.OnLeave | script.js:41-53 | `execTime` becomes now minus the entry time (NaN when no entry time), the counter grows by one, the thread is unfollowed and the tracer flushed; as written, the call throws "Stalker.garbagecollect is not a function" exactly when the counter becomes a multiple of 100 and memory is never collected; as intended, memory is collected then and nothing is thrown |
| CoverageFeed.Controller.GetCoverage | script.js:78-80 | the buffer is answered unchanged |
| CoverageFeed.Controller.GetExecTime | script.js:81-85 | the stored time is answered and reset to undefined |
| CoverageFeed.Controller.ClearCoverage | script.js:86-88 | the buffer becomes empty |
| CoverageFeed.Controller.StopCoverageFeed | script.js:72-77 | unfollows, flushes, collects, and detaches every probe |
| CoverageFeed.LiteralAddressOfDigits | script.js:62-63 | a handler "0x" followed by hexadecimal digits and then a non-digit (or nothing) targets the value of those digits |
| CoverageFeed.OneCallScenario | script.js:9-89 | one instrumented call end to end: nothing is thrown, the probe lands at base plus the export's address, the drained buffer holds the one batch and is empty after a clear, the first time read is t1 - t0 and the second is undefined |
| GoSymbols.ReadCString | script.js:145 | a read name never contains the terminating zero byte |
| GoSymbols.ScanFrom | script.js:105 | the scan answers match addresses wholly inside the range, each where the pattern occurs, in increasing order |
| GoSymbols.FirstAccepted | script.js:108-118 | a found table address is one of the matches and passes the structural check; no matches give null |
| GoSymbols.Locate | script.js:102-123 | a found table address passes the structural check |
| GoSymbols.FirstAcceptedAppend | script.js:102-123 | searching a concatenation searches the second part only when the first has no accepted candidate and no fault |
| GoSymbols.LocateIsFirstCandidate | script.js:102-123 | the nested range/match loops find the first accepted candidate of the concatenated candidate list |
| GoSymbols.FirstAcceptedNone | script.js:123 | without faults the search answers null exactly when every candidate is rejected |
| GoSymbols.FirstAcceptedAt | script.js:108-118 | the search answers candidate i when it is accepted and every earlier one is rejected |
| GoSymbols.OnlyAccepted | script.js:108-118 | with exactly one accepted candidate and no faults, that candidate is found |
| GoSymbols.OneTableAmongDecoys | script.js:95-124 | one genuine table among rejected decoys is found whatever the order of ranges and matches |
| GoSymbols.CursorsAt | script.js:137-152 | the k-th visited cursor is k records past the first and below the table end |
| GoSymbols.DecodeRecord | script.js:142-151 | a decoded record's `table` is the table base plus the offset read at cursor + pointer size, wrapping around the address space, its `tableBase` is the table base, and its name holds no zero byte |
| GoSymbols.PtrAdd | script.js:114 | `NativePointer.add` stays inside the address space and is plain addition whenever the sum fits |
| GoSymbols.DecoyOffsetWraps | script.js:112-114 | an offset word of 2^(8·ps) − d makes the structural check read d bytes below the candidate, as the wrapping addition does |
| GoSymbols.Walk | script.js:134-153 | a walk that succeeds has read the 4-byte count at base + 8, and every symbol carries the table base and a zero-free name |
| GoSymbols.DecodeAll | script.js:141-153 | a successful walk yields one symbol per cursor |
| GoSymbols.CursorCount | script.js:136-141 | with 4- or 8-byte pointers the walk visits max(count - 1, 0) records |
| GoSymbols.CursorsCover | script.js:141 | every cursor below the end is visited |
| GoSymbols.CursorsCount | script.js:141 | no cursor at or past the end is visited |
| GoSymbols.WalkShape | script.js:134-153 | a successful walk yields max(count - 1, 0) symbols, the k-th decoded from cursor base + 8 + ps + 2ps·k, which lies below base + count·2ps |
| GoSymbols.DecodeAllOk | script.js:141-153 | records that all decode give exactly their symbols in order |
| GoSymbols.DecodeAllFault | script.js:141-153 | the walk ends with the fault of the first record that fails |
| GoSymbols.DecodeAllAt | script.js:141-153 | each symbol of a successful walk is the record at its own cursor |
| GoSymbols.FirstByName | script.js:162-167 | the address of the first symbol whose name is equal, or none exactly when no name is equal |
| GoSymbols.MatchingSymbols | script.js:172-178 | the matching symbols are at most as many as the symbols, and each is a symbol whose name matches |
| GoSymbols.MatchingSymbolsCount | script.js:172-178 | each symbol occurs in the filtered list as often as in the table when its name matches, and not at all otherwise |
| GoSymbols.MatchingSymbolsComplete | script.js:172-178 | every symbol whose name matches is in the filtered list |
| GoSymbols.MatchingSymbolsOrdered | script.js:172-178 | the filtered list is a subsequence of the table: its entries sit at increasing table positions |
| GoSymbols.FilterByPattern | script.js:172-178 | the loop computes `MatchingSymbols`: exactly the matching symbols, repetitions kept, as a subsequence of the table in table order |
| GoSymbols.GoRuntime.constructor | script.js:91-93 | both caches start empty |
| GoSymbols.GoRuntime.FindGopclntab | script.js:95-124 | a cached table is answered without scanning; otherwise the first accepted candidate is answered and cached; nothing is cached on null or on a fault |
| GoSymbols.GoRuntime.EnumerateSymbolsSync | script.js:126-158 | a cached list is answered as is; otherwise the located table is walked (empty when none) and the result cached; a fault propagates uncached; the table cache ends as `findGopclntab` leaves it (kept when either cache is set, else the located table or null) |
| GoSymbols.GoRuntime.ReadRecord | script.js:142-151 | the four reads of one loop turn decode the record at the cursor |
| GoSymbols.GoRuntime.WalkTable | script.js:133-153 | the cursor loop computes the walk of the table |
| GoSymbols.GoRuntime.FindSymbolByName | script.js:160-168 | the enumeration's fault is answered exactly when enumeration faults, with the cache unchanged; otherwise the cache holds the enumeration, an existing cache is never replaced, and the answer is the address of the first symbol with the name, or null exactly when none has it; the table cache ends as after `EnumerateSymbolsSync` |
| GoSymbols.GoRuntime.FindSymbolsByPattern | script.js:170-179 | faults and caches as `FindSymbolByName`; otherwise `MatchingSymbols` of the cached list: every symbol whose name matches, and only those, repetitions kept, in symbol-table order |
| ProtoDump.DecodeVarint | packet/packet.go:344-347 | a decoded varint takes 1 to 10 bytes of the input and is below 2^64 |
| ProtoDump.VarintRoundTrip | packet/packet.go:344-349 | decoding an encoded varint gives its value and length back, whatever follows |
| ProtoDump.LittleEndianRoundTrip | packet/packet.go:382-389 | the n-byte little-endian read inverts the n-byte little-endian encoding |
| ProtoDump.Indentation | packet/packet.go:340-342 | depth indentation units, none for a non-positive depth |
| ProtoDump.TextBuffer.Write | packet/packet.go:371 | appends one piece |
| ProtoDump.TextBuffer.Len | packet/packet.go:370 | answers the number of pieces written |
| ProtoDump.TextBuffer.Truncate | packet/packet.go:374 | keeps the first n pieces |
| ProtoDump.DecodeProto | packet/packet.go:333-408 | the loop appends exactly the dump's pieces to `out` and ends as the dump says |
| ProtoDump.Dump | packet/packet.go:333-408 | a dump that finishes writes nothing exactly when the buffer is empty |
| ProtoDump.Turn | packet/packet.go:344-405 | a turn that goes on writes something and consumes bytes; one that stops reports an error |
| ProtoDump.BytesTurn | packet/packet.go:358-377 | a length-delimited value that goes on writes something, consumes bytes and keeps the depth; one that stops reports an error |
| ProtoDump.PayloadTurn | packet/packet.go:367-377 | a present payload goes on with the rest of the buffer at the same depth, writing something; it stops only on a panic |
| ProtoDump.ScalarTurn | packet/packet.go:355-405 | a scalar writes exactly one line and keeps the depth except for group markers; it stops only with `io.ErrUnexpectedEOF`, on a truncated value or an unknown wire type |
| ProtoDump.DumpTurnInto | packet/packet.go:335-405 | one loop turn writes the indentation and one field and keeps the output on course to the dump |
| ProtoDump.WriteIndentation | packet/packet.go:340-342 | appends exactly the indentation of the depth, one unit per level |
| ProtoDump.DecodeField | packet/packet.go:344-405 | the loop body after the indentation writes what one turn writes and continues or ends as it says |
| ProtoDump.DecodeBytesField | packet/packet.go:358-377 | the length-delimited case writes and continues as the bytes turn says |
| ProtoDump.DecodeScalarField | packet/packet.go:354-405 | the other cases of the switch write and continue as the scalar turn says |
| ProtoDump.TurnAfterKey | packet/packet.go:349-354 | a key varint tag·8 + wire (tag = key >> 3, wire type = key & 7) leads to the length-delimited case for wire type 2 and to the scalar cases otherwise, on the bytes after the key |
| ProtoDump.TurnOnField | packet/packet.go:344-405 | the loop body consumes exactly one encoded field and goes on with what follows it |
| ProtoDump.DumpOfMessage | packet/packet.go:333-408 | an encoded message dumps to one line per field, each indented by its depth, and ends without error; the empty buffer writes nothing and succeeds |
| ProtoDump.IntendedNeverPanics | packet/packet.go:364-377 | with the length check fixed, no input makes the dump panic |
| ProtoDump.IntendedMessageSafe | packet/packet.go:333-408 | with both fixes, every well-formed message dumps field by field |
| ProtoDump.Fixed64ReadsItsOwnBytes | packet/packet.go:385-391 | as written, a fixed64 below 2^32 dumps with two spurious "tag=0 varint=0" lines |
| ProtoDump.Fixed64TurnAsWritten | packet/packet.go:385-391 | as written, a fixed64 field leaves its high four bytes in the buffer |
| ProtoDump.TwoZeroVarints | packet/packet.go:392-398 | four zero bytes dump as two "tag=0 varint=0" lines |
| ProtoDump.Fixed64ReadOnce | packet/packet.go:385-391 | consuming eight bytes, a fixed64 field dumps as its one line |
| ProtoDump.HugeLengthPanics | packet/packet.go:359-377 | as written, a declared length of 2^63 or more panics after the struct line |
| ProtoDump.HugeLengthRejected | packet/packet.go:364-366 | with the length compared unsigned, such a length is `io.ErrUnexpectedEOF` |
| ProtoDump.RawPayloadRollback | packet/packet.go:370-377 | a payload that is not a message is rolled back, written raw, and decoding continues after it |
| ProtoDump.UnknownWireEnds | packet/packet.go:355-357 | wire types 6 and 7 write one line and end with `io.ErrUnexpectedEOF` |
| ProtoDump.LengthBeyondBuffer | packet/packet.go:359-366 | a declared length beyond the remaining bytes ends with `io.ErrUnexpectedEOF` |
| ProtoDump.TruncatedKey | packet/packet.go:344-347 | a truncated key ends with `io.ErrUnexpectedEOF` after the indentation alone |
| Frames.SymbolOfPath | packet/packet.go:232 | the symbol is the path without its leading slash, one character shorter |
| Frames.SymbolOfMethodPath | packet/packet.go:232 | "/pkg.Svc/Method" names the symbol "pkg.Svc.Method" |
| Frames.ParseFrameToByteMsg | packet/packet.go:194-267 | a parsed message has the path without its leading `/`, the frame's stream, the side's message type, a descriptor and a message; a rejection returns the unparsed message; an empty frame crashes exactly as written |
| Frames.FirstResolving | packet/packet.go:230-258 | the first descriptor file that resolves the symbol, or none exactly when no file does |
| Frames.ParsedMessage | packet/packet.go:230-253 | a parsed frame has path `path[1:]`, the frame's stream id, the hex of the bytes after the 5-byte header, and the method's input type for a Request, else the output type |
| Frames.RejectedMessage | packet/packet.go:218-267 | every error carries the unparsed record (the path unchanged, the side's type, stream id 0, no descriptor and no message); a frame with the compressed flag is "Message is using compression!" and a symbol no file resolves is "No proto descriptors were found!" |
| Frames.GrpcMessageRoundTrip | packet/packet.go:194-253 | a length-prefixed gRPC message on a known method reads back as its payload at the method's type |
| Frames.EmptyFrameCrashes | packet/packet.go:197-207 | as written, an empty frame panics on `buf[0]` |
| Frames.EmptyFrameRejected | packet/packet.go:199-207 | with the length checked first, an empty frame is the "Message length is zero!" error |
| Frames.RequestFrameTypedAsResponse | packet/packet.go:237-253 | as written, a request-stream frame (side 1) is typed Response and given the output type |
| Frames.SidesTypedAsIntended | packet/packet.go:237-253 | with sides mapped as the comment says, request frames get the input type and response frames the output type |
| Relations.DedupPaths | packet/relations.go:281-291 | `unique` loses no path |
| Relations.Dedup | packet/relations.go:281-291 | `unique` never grows its input and is empty exactly when the input is |
| Relations.DedupKeepsFirstOccurrences | packet/relations.go:281-291 | `unique` keeps exactly the first entry of each path, in input order |
| Relations.DedupDistinct | packet/relations.go:281-291 | no two output entries share a path |
| Relations.DedupFromInput | packet/relations.go:281-291 | every output entry is an input entry |
| Relations.Unique | packet/relations.go:281-291 | the loop builds the first-occurrence list |
| Relations.FirstOfFrom | packet/relations.go:42-48 | the first message of a stream and type at or after a position, or none exactly when there is none |
| Relations.Paired | packet/relations.go:37-53 | after n messages the pairing holds at most 2n messages |
| Relations.PairedHasShape | packet/relations.go:40-52 | requests at even positions, each followed by a response of its stream, no stream paired twice |
| Relations.PairedStreams | packet/relations.go:40-52 | a stream is paired exactly when it has a request and a response |
| Relations.PairedEven | packet/relations.go:44-45 | the output has even length |
| Relations.PairedFirsts | packet/relations.go:40-49 | each pair is the first request and the first response of its stream |
| Relations.PairedInOrder | packet/relations.go:40-51 | pairs come in the order of their requests' positions |
| Relations.PairedFromInput | packet/relations.go:44-45 | every output message is an input message |
| Relations.SortReqResOrder | packet/relations.go:37-53 | the nested loops build the pairing |
| Relations.GetField | packet/relations.go:122-123 | the message's value for the field, or the default when it holds none |
| Relations.ValuesEqual | packet/relations.go:132-138 | as written, `val1 == val2` panics exactly when both values are `[]interface{}` or both `[]byte`; it is true exactly when repeatedness and values agree and it does not panic |
| Relations.RelatedMeansEqual | packet/relations.go:127-141 | related fields have one type, one repeatedness and equal values, and the pair does not panic |
| Relations.RelateFields | packet/relations.go:121-142 | the call panics exactly when the pair reaches `val1 == val2` with two uncomparable values (as written); otherwise fd1 maps to fd2 exactly when the types are equal, one lower-cased name contains the other and the values are equal, and the map is unchanged else |
| Relations.RelatedSymmetric | packet/relations.go:121-142 | the relation rule does not depend on the order of the two messages |
| Relations.RelatedSameName | packet/relations.go:127-135 | for two fields with the same name up to case: as written they panic exactly when their types agree and both are repeated or both are singular bytes fields; they are related exactly when type, repeatedness and value agree and they do not panic; fields of different types neither relate nor panic |
| Relations.UncomparableFieldsPanic | packet/relations.go:132-138 | two same-named, same-typed repeated fields, or two singular bytes fields, panic as written whatever their values, and as intended are related exactly when their values are equal |
| Relations.RowDepsComplete | packet/relations.go:84-102 | keys are never removed, and a related pair always leaves its key |
| Relations.RowDepsValues | packet/relations.go:84-102 | each new key maps to a field it is related to |
| Relations.FieldDepsComplete | packet/relations.go:83-104 | every related field of the first message leaves its fully qualified name as a key |
| Relations.FieldDepsValues | packet/relations.go:83-104 | each key maps to the fully qualified name of a field it is related to |
| Relations.DissectMsgsCommonFields | packet/relations.go:55-119 | the method answers the dissection of the two messages, including the runtime panic of an uncomparable pair |
| Relations.RelateAllFields | packet/relations.go:83-104 | the nested field loop panics exactly when some pair of fields panics, and otherwise builds the dependency map of every pair in loop order |
| Relations.RelateRow | packet/relations.go:84-102 | the inner loop panics exactly when `fd1` panics against some field, and otherwise builds its row of the map |
| Relations.DissectAnswers | packet/relations.go:56-118 | same path and empty payload are refused; otherwise the analysis crashes exactly when some pair of fields panics; when it does not, both names are returned, with an error exactly when no relation was found |
| Relations.IntendedNeverCrashes | packet/relations.go:55-119 | comparing contents, the dissection never crashes, and on messages without an uncomparable pair it answers what the written code answers |
| Relations.FieldDepsReadingsAgree | packet/relations.go:83-104 | without uncomparable pairs both readings build the same dependency map |
| Relations.RowDepsReadingsAgree | packet/relations.go:84-102 | without uncomparable pairs both readings build the same row |
| Relations.KeyOfInjective | packet/relations.go:26 | the "Msg1:Msg2" key determines both names when message names hold no colon |
| Relations.DissectAndKeep | packet/relations.go:22-30 | one iteration reports the dissection's panic and appends the dissected dependency exactly when its key is new |
| Relations.CalculateReqResRelations | packet/relations.go:14-34 | the loop dissects (a[i+1], a[i+2]) of the pairing and keeps first-keyed dependencies; the call panics (None) exactly when one of those dissections does |
| Relations.ExamineNext | packet/relations.go:21-30 | iteration i adds the dissection of (a[i+1], a[i+2]) to the answers, keeps first-keyed dependencies, and a panic there is a panic of the whole call |
| Relations.ExaminationsAt | packet/relations.go:21-22 | answer k of the loop is the dissection of (a[k+1], a[k+2]) |
| Relations.CrashStops | packet/relations.go:21-30 | one panicking iteration makes the whole call panic |
| Relations.ExaminationsCrash | packet/relations.go:21-30 | the loop's answers hold a panic exactly when some visited pair crashes |
| Relations.ReqResRelationsCrash | packet/relations.go:14-34 | `CalculateReqResRelations` panics exactly when some visited pair of the pairing crashes |
| Relations.ReqResRelationsIntendedReturns | packet/relations.go:14-34 | comparing contents, `CalculateReqResRelations` always returns |
| Relations.KeepFirstKeysDistinct | packet/relations.go:26-30 | no two kept dependencies share a key |
| Relations.KeepFirstKeysSound | packet/relations.go:26-30 | each kept dependency is the first one found with its key, in discovery order |
| Relations.KeepFirstKeysComplete | packet/relations.go:26-30 | every dependency found has its key in the list |
| Relations.FirstMessageNeverExamined | packet/relations.go:21-22 | the loop never looks at the first message of the pairing |
| Relations.Bump | packet/relations.go:253 | one increment counts one more transition in its cell |
| Relations.FilterRequests | packet/relations.go:228-233 | the requests among the messages, in order |
| Relations.IndexPaths | packet/relations.go:242-245 | every unique path maps to a position that holds it |
| Relations.CountTransitions | packet/relations.go:247-263 | the two loops count the transitions before the bound they reach |
| Relations.CalculateRelationMatrix | packet/relations.go:227-266 | a square matrix over the unique request paths, each path indexed by its first occurrence, counting transitions |
| Relations.TransitionCounted | packet/relations.go:250-254 | a transition before the bound is counted in its own cell |
| Relations.FinalTransitionUncounted | packet/relations.go:258 | as written, with 11 or more requests only |req| - 2 transitions are visited, and the final transition's cell is one short of its true count |
| Relations.EveryTransitionCounted | packet/relations.go:258-263 | with the bound corrected, every consecutive transition is counted |
| Util.SeqMin | util/util.go:140-150 | an element no greater than every element |
| Util.SeqMax | util/util.go:140-150 | an element no smaller than every element |
| Util.RescaleInPlace | util/util.go:159-164 | the second loop rewrites the array with the rescaled values |
| Util.ScaleIntegers | util/util.go:137-165 | the array becomes its min-max rescaling |
| Util.ScaleIntegersReverse | util/util.go:167-195 | the array becomes its reversed rescaling |
| Util.ConstantUnchanged | util/util.go:152-154 | the length is kept, and an array of equal elements is left as it was |
| Util.NearestHalfUp | util/util.go:161-162 | the rounding lands on the integer nearest z·t/d, the upper one at a tie |
| Util.RoundNegated | util/util.go:190-192 | Go's truncating division of two non-positive operands gives the same rounding |
| Util.RoundBounds | util/util.go:159-163 | the rounding stays in [0, t], grows with z, and maps 0 and d to 0 and t |
| Util.ScaleIntegersAt | util/util.go:159-164 | each element becomes scaleMin plus the rounding of its distance from the minimum |
| Util.ScaleIntegersReverseAt | util/util.go:189-194 | each element becomes scaleMin plus the rounding of its distance from the maximum |
| Util.ScaleIntegersBounds | util/util.go:156-164 | results lie in [scaleMin, scaleMax]; the minimum maps to scaleMin, the maximum to scaleMax |
| Util.RescaledMonotone | util/util.go:159-164 | rescaling from the minimum keeps order |
| Util.RescaledAntitone | util/util.go:189-194 | rescaling from the maximum reverses order |
| Util.ScaleIntegersMonotone | util/util.go:143-164 | a[i] <= a[j] implies r[i] <= r[j] |
| Util.ScaleIntegersReverseBounds | util/util.go:173-194 | results lie in [scaleMin, scaleMax]; the maximum maps to scaleMin, the minimum to scaleMax |
| Util.ScaleIntegersReverseAntitone | util/util.go:173-194 | a[i] <= a[j] implies r[j] <= r[i] |
| Util.GetMethodHandler | util/util.go:119-126 | the first handler configured for the method, or nil exactly when none is |
| Util.GetMapKeyByValue | util/util.go:128-135 | some key mapped to the value when there is one, "" when there is none |
| TraceCoverage.DigitValue | trace/trace.go:125 | digit values are below 36 |
| TraceCoverage.BaseOf | trace/trace.go:125 | base 0 chooses base 2, 8, 10 or 16 from the prefix |
| TraceCoverage.ParseUint | trace/trace.go:125-132 | the empty string is rejected |
| TraceCoverage.ValueGrows | trace/trace.go:125 | the running value never decreases, so testing overflow on the final value is testing it at every step |
| TraceCoverage.NumeralValue | trace/trace.go:125 | the digit loop reads a numeral back as its value |
| TraceCoverage.PointerRoundTrip | trace/trace.go:125-129 | "0x" and a hex numeral parse to its value when it fits 64 bits, and are rejected otherwise |
| TraceCoverage.DecimalRoundTrip | trace/trace.go:125-129 | a decimal numeral parses to its value when it fits 64 bits |
| TraceCoverage.GetCoverage | trace/trace.go:107-140 | the conversion loop computes the coverage outcome: an RPC or JSON failure is an error, an empty list is (nil, nil), otherwise the first entry's blocks |
| TraceCoverage.OnlyFirstEntry | trace/trace.go:124 | entries after the first change nothing |
| TraceCoverage.PairBlocksAppend | trace/trace.go:123-138 | the conversion distributes over concatenation, so surviving pairs keep their order |
| TraceCoverage.PanicPersists | trace/trace.go:124-132 | once a pair panics the later pairs do not matter |
| TraceCoverage.PairBlocksShape | trace/trace.go:133-139 | blocks carry the first entry's module, are no more than the pairs, and each comes from a pair whose two addresses parse |
| TraceCoverage.PairBlockCases | trace/trace.go:124-137 | a pair whose addresses parse becomes a block; an unparsable address skips it; a missing second address after a good first one panics |
| FuzzLoop.CoverageChanged | loop/loop.go:359-368 | the first check is true exactly when the block lists differ in length or at some position |
| FuzzLoop.SameBlocksIgnoresModule | loop/loop.go:364 | the comparison is equality of the block lists once modules are ignored |
| FuzzLoop.InsertByKey | loop/loop.go:820-822 | inserting adds one element, the inserted one is present, and the head is the new element or the old head |
| FuzzLoop.SortByKey | loop/loop.go:820-822 | sorting keeps the length and the first element |
| FuzzLoop.SortByKeyPermutes | loop/loop.go:820-822 | the sort is a permutation |
| FuzzLoop.SortByKeySorted | loop/loop.go:820-822 | the sort orders by non-increasing energy |
| FuzzLoop.ChainGain | loop/loop.go:747-752 | each chain gains exactly its three measurements, its last message carries the chain's new energy, and the other messages are untouched |
| FuzzLoop.EnergyGainBounds | loop/loop.go:810-818 | with varied measurements each entry gains between 3 and 30 energy |
| FuzzLoop.AddEnergy | loop/loop.go:814-818 | each message gains exactly its three rescaled measurements and nothing else of it changes |
| FuzzLoop.ChainWithGain | loop/loop.go:747-752 | the chain gains the amount, its last message takes the chain's energy, and the other messages are unchanged |
| FuzzLoop.AddChainEnergy | loop/loop.go:747-752 | each chain gains exactly its three rescaled measurements, keeps its length, and its last message carries the new energy |
| FuzzLoop.Loop.constructor | loop/loop.go:36-50 | an empty queue and chain list, and a zero path count |
| FuzzLoop.Loop.ProcessCoverageAndAppendMsg | loop/loop.go:358-404 | unchanged coverage or an empty queue changes nothing; otherwise exactly one entry (current message, new coverage) is appended, the count grows by one, and existing entries are untouched |
| FuzzLoop.Loop.AddMessagesEnergy | loop/loop.go:814-818 | each entry gains its three measurements |
| FuzzLoop.Loop.AddMessageChainsEnergy | loop/loop.go:747-752 | each chain gains its measurements, and its last message takes the chain's energy |
| FuzzLoop.Loop.FinishMessagesEnergy | loop/loop.go:810-822 | the three arrays are rescaled to [1, 10] (time reversed), added, and the queue sorted by non-increasing energy |
| FuzzLoop.Loop.FinishChainEnergy | loop/loop.go:743-756 | the same for the chains |
| FuzzLoop.SelectHandler | loop/loop.go:774-780 | the first handler configured for the path, or the zero handler when none is |
| FuzzLoop.GetMessageByPathName | loop/loop.go:672-679 | the first message for the path, or nil exactly when there is none |
| FuzzLoop.GetMessageByPathNamesInOrder | loop/loop.go:681-688 | the first i with the two names at i and i + 1; nil when there is none or fewer than two messages; a panic exactly at the first position whose examination reads a nil descriptor (message i, or message i + 1 after message i matched the first name), before any match |
| AwareMutator.LastSupplier | mutator/dependencyAwareMutator.go:29-34 | the last dependency message of the pair that has the field with the field's own type and cardinality (the value `TrySetFieldByName` accepts), or none exactly when none does |
| AwareMutator.Skipped | mutator/dependencyAwareMutator.go:23-28 | a skipped field needs at least one dependency and one field |
| AwareMutator.CopyField | mutator/dependencyAwareMutator.go:29-33 | copying a field adds at most that field's name to the message |
| AwareMutator.CopyDep | mutator/dependencyAwareMutator.go:25-37 | one dependency's pass keeps every field and adds only fields of the descriptor |
| AwareMutator.CopyDeps | mutator/dependencyAwareMutator.go:23-39 | all dependencies keep every field and add only fields of the descriptor |
| AwareMutator.Kept | mutator/dependencyAwareMutator.go:95-98 | the fields handed to `mutateField` are never more than the descriptor's |
| AwareMutator.CopyFieldLastWins | mutator/dependencyAwareMutator.go:29-33 | copying ends with the value of the last supplier whose value the field's type accepts, and leaves the message alone when there is none |
| AwareMutator.MismatchedKindsIgnored | mutator/dependencyAwareMutator.go:29-33 | dependency messages whose same-named field has another type or cardinality never overwrite the field |
| AwareMutator.CopyFieldIdempotent | mutator/dependencyAwareMutator.go:26-34 | copying twice is copying once |
| AwareMutator.CopyFieldFrame | mutator/dependencyAwareMutator.go:29-33 | a field copy changes no other field |
| AwareMutator.CopyDepFrame | mutator/dependencyAwareMutator.go:25-37 | one dependency's pass changes only the fields it relates |
| AwareMutator.CopyDepsFrame | mutator/dependencyAwareMutator.go:23-39 | only dependent fields change |
| AwareMutator.UnrelatedDepInert | mutator/dependencyAwareMutator.go:24 | a dependency that does not name the message type changes nothing |
| AwareMutator.ConcerningMembers | mutator/dependencyAwareMutator.go:24 | exactly the dependencies naming the message type are kept |
| AwareMutator.UnrelatedDepsIgnored | mutator/dependencyAwareMutator.go:23-39 | copying with all dependencies is copying with only those naming the message type |
| AwareMutator.SkippedIffDependent | mutator/dependencyAwareMutator.go:27-28 | with distinct names, a field is skipped exactly when it is dependent |
| AwareMutator.KeptFields | mutator/dependencyAwareMutator.go:95-98 | the fields handed to `mutateField` are exactly the non-skipped ones |
| AwareMutator.ErrorPersists | mutator/dependencyAwareMutator.go:100-102 | after an error no further field is mutated |
| AwareMutator.CopyFromDepMessages | mutator/dependencyAwareMutator.go:29-34 | the innermost loop performs the field copy, skipping values of another type |
| AwareMutator.CopyIfRelated | mutator/dependencyAwareMutator.go:26-36 | a related field is copied and its name collected; an unrelated one is left |
| AwareMutator.ApplyDependency | mutator/dependencyAwareMutator.go:25-37 | one dependency's pass copies its fields and collects exactly the names it relates |
| AwareMutator.CollectDependencies | mutator/dependencyAwareMutator.go:23-39 | the copies are applied and exactly the skipped names collected |
| AwareMutator.Retry | mutator/dependencyAwareMutator.go:41-48 | the first of eleven draws that falls on an uncollected field, or the eleventh |
| AwareMutator.MutateField | mutator/dependencyAwareMutator.go:16-70 | an empty descriptor panics; the chosen field is the first non-dependent draw; with none, the message is returned with only the copies applied |
| AwareMutator.MutateUnskipped | mutator/dependencyAwareMutator.go:95-103 | the non-skipped fields are mutated in order until one fails |
| AwareMutator.MutateMessage | mutator/dependencyAwareMutator.go:72-111 | after the copies, every non-dependent field is mutated in descriptor order and the first error returned |
| UnawareMutator.PickIndex | mutator/dependencyUnawareMutator.go:218 | as written the index is at most len - 2 and exists only for len >= 2; as intended any index below len |
| UnawareMutator.Repeat | mutator/dependencyUnawareMutator.go:178 | k copies have k times the length |
| UnawareMutator.MutateOneLocal | mutator/dependencyUnawareMutator.go:125-174 | a field mutation reads and touches only that field |
| UnawareMutator.TextRepeated | mutator/dependencyUnawareMutator.go:176-189 | a string becomes itself repeated k < 100 times, or is cleared exactly when that exceeds 2^32 |
| UnawareMutator.BytesRepeated | mutator/dependencyUnawareMutator.go:249-262 | likewise for bytes |
| UnawareMutator.MutateOneErrors | mutator/dependencyUnawareMutator.go:125-174 | an enum without type errors; message fields are left; repeated scalars refuse the value; repeated strings and bytes panic |
| UnawareMutator.LastTableEntryNeverChosen | mutator/dependencyUnawareMutator.go:218 | as written the last int32 value is never chosen, and a one-value enum panics |
| UnawareMutator.EveryTableEntryReachable | mutator/dependencyUnawareMutator.go:218 | with `rand.Intn(len)` every table entry and enum value can be chosen |
| UnawareMutator.FailurePersists | mutator/dependencyUnawareMutator.go:110-112 | after a failure no further field is mutated |
| UnawareMutator.MutateAllKeepsIgnored | mutator/dependencyUnawareMutator.go:97-108 | an ignored field keeps its value |
| UnawareMutator.MutateAllPerField | mutator/dependencyUnawareMutator.go:97-113 | each non-ignored field ends as mutating it alone would leave it |
| UnawareMutator.IgnoredFieldMutated | mutator/dependencyUnawareMutator.go:63-77 | as written, with fields a and b both ignored, field b is still mutated |
| UnawareMutator.SelectedFieldNotIgnored | mutator/dependencyUnawareMutator.go:63-77 | as intended, the first non-ignored field is chosen, and the index is past the end exactly when all fields are ignored |
| UnawareMutator.NameIgnored | mutator/dependencyUnawareMutator.go:99-104 | the scan finds the name exactly when it is ignored |
| UnawareMutator.MutatedMessage.constructor | mutator/dependencyUnawareMutator.go:32-40 | the zero value of the struct: nil descriptor, empty message and ignored list, index 0 |
| UnawareMutator.MutatedMessage.New | mutator/dependencyUnawareMutator.go:42-60 | empty, non-hex and non-unmarshalling input are errors (the first two change nothing); otherwise the message, descriptor and ignored fields are set |
| UnawareMutator.MutatedMessage.MutateField | mutator/dependencyUnawareMutator.go:62-90 | a nil descriptor panics and changes nothing; otherwise the selected field is mutated, and an index past the last field panics |
| UnawareMutator.MutatedMessage.MutateMessage | mutator/dependencyUnawareMutator.go:92-123 | a nil descriptor panics and changes nothing; otherwise every non-ignored field is mutated in descriptor order with its own draw and the first failure is returned |

## Left out

- Frida and the engine are not modelled: module and export lookup, the
  tracer (follow, unfollow, flush, collect, parse) and `Interceptor`. They
  are parameters or ghost counters. The asynchronous delivery of
  `onReceive` from traced threads is concurrency and is left out.
- `Date.now()` and `time.Now()` become timestamp parameters. `rand` becomes
  explicit draws.
- trace/trace.go `Start`, `Stop`, `ClearCoverage` and `sendRpcCall` are
  session plumbing and are not modelled. The RPC reply of `GetCoverage`
  enters as a decoded value, or as the call or JSON error. The "setTargets"
  call of `Start` does not match the script's `setTarget` export. That
  mismatch lies in `Start` and is not part of this model.
- Logging and printing (`log.Printf`, `fmt.Println`, `console.log`) have
  no effect on the modelled state and are left out.
- The text of wrapped errors is modelled by its prefix only. The message of
  the underlying library error is not modelled.
- GoSymbols.ReadCString: the UTF-8 decoding of the name bytes is not
  modelled. Names are the raw bytes before the terminating zero.
- GoSymbols.FilterByPattern: the regular expression is a predicate
  parameter.
- packet.go: pcap capture, TCP reassembly, the HTTP/2 framer
  (`httpStream.run`), `LoadProtoDescriptions`, `ParseFrame` and the
  `dumpProto` logging wrapper are I/O and are left out. Descriptor files are
  partial maps from symbol name to symbol.
- Relations.Dissect: the rules for repeated and nested message fields
  (`getRelationshipsFromRepMessages`, `getRelationshipsFromMessages`) are not
  modelled. They read nested dynamic messages, which this model keeps
  opaque, so the dependency map holds only the relations between the two
  messages' own fields. An unset field reads as one fixed default token.
- Relations.CalculateRelationMatrix: `normalize` and the float32 matrix are
  floating point. The model keeps the integer counts.
- Relations.CalculateRelationMatrix requires at least ten requests. With
  fewer, the first counting loop indexes `requestMsgs[i]` or
  `requestMsgs[i+1]` out of range (packet/relations.go:251-252) and
  panics; that panic is not modelled.
- Util.ScaleIntegers: the 64-bit overflow of
  `zsrc*target_scale*2 + source_scale` is not modelled. Integers are
  unbounded.
- Util.ScaleIntegersBounds, Util.ScaleIntegersReverseBounds,
  Util.ScaleIntegersMonotone and Util.ScaleIntegersReverseAntitone require
  scaleMin <= scaleMax, as every call site in loop.go passes 1 and 10.
- FuzzLoop.Loop.FinishMessagesEnergy and FuzzLoop.Loop.FinishChainEnergy
  require a non-empty queue, because `ScaleIntegers` reads `array[0]`. The
  measurements that fill the arrays come from tracing runs and are
  parameters.
- FuzzLoop.SortByKey: `sort.Slice` is not stable. The model uses one
  admissible order, an insertion sort, and proves only that it is a
  permutation ordered by non-increasing energy.
- The rest of loop.go is orchestration and is left out: `Run`, the
  dependency-sending loops, process start and crash handling, tickers,
  goroutines, `prepareMessages` and `prepareMessageChains`. The chain record
  keeps only the energy and the messages.
- Util.GetMapKeyByValue: Go's map iteration order is unspecified, so the
  contract allows any matching key.
- The unaware mutator's float and double tables are floating point. Their
  entries are opaque tokens.
- `MutateRepeated` does nothing and is modelled as nothing.
- AwareMutator: `mutateField` and `Marshal` are function parameters.
  `isFieldIgnored` is read as membership of the field's name in the
  collected names.
- AwareMutator: a dependency message whose `TryGetFieldByName` fails leaves
  the field unchanged. The caller's `msg` is updated in place in the code;
  the copying step is modelled by the functions `CopyField`, `CopyDep` and
  `CopyDeps` on a message value, and `MutateField` and `MutateMessage`
  answer only the outcome (the hex string or the error), not the updated
  message.
- Relations.ValuesEqual: map fields are read as repeated fields. Go
  compares a map with a slice as unequal and two maps with a panic; the
  model gives both cases the repeated-field answer, so a map field against
  a repeated non-map field is modelled as a panic rather than as unequal.
- CoverageFeed.Controller.SetTarget: an export lookup stores the absolute
  address of the export, and `startCoverageFeed` adds the module base to
  it again (script.js:18). The model keeps both steps as written and does
  not model whether the resulting address is mapped.
- UnawareMutator.MutatedMessage.New: after an unmarshal failure the model
  holds an empty message, not the partially decoded one.
- UnawareMutator.MutatedMessage: the nil `currentMessage` of the zero value
  is held as the empty message. It is nil only while the descriptor is nil
  too, and then both mutating methods panic.
- AwareMutator.Supplies: the check of `TrySetFieldByName` is read as
  equality of the two fields' type and cardinality. Conversions that the
  protobuf library may accept between different field types are not
  modelled.
- GoSymbols: only the additions of offsets read from memory wrap around the
  address space (`PtrAdd`). The constant header and cursor arithmetic
  (base + 8 + ps, cursor + 2·ps, base + count·2·ps) is unbounded.
- CoverageFeed.LiteralAddress: a handler "0x" followed by no hexadecimal
  digit, or by digits and then other characters, targets the value of the
  leading digit run (0 when there is none). How the Frida runtime parses
  such a string for `new ptr` is not part of this model; it may throw
  there instead.

## Findings

| source | as written | input that shows it | evidently intended | confidence | as-written member | corrected member |
|---|---|---|---|---|---|---|
| packet/packet.go:390 | a fixed64 field advances the buffer by 4 bytes | field 1 as fixed64 with value 5: its high four zero bytes dump as two extra "tag=0 varint=0" lines | advance by 8 bytes | not executed | ProtoDump.Fixed64ReadsItsOwnBytes | ProtoDump.Fixed64ReadOnce |
| packet/packet.go:364-372 | `int(l)` of a declared length of 2^63 or more is negative, so the check passes and `buf[0:int(l)]` panics | a bytes field whose length varint is 2^63 | reject as `io.ErrUnexpectedEOF` | not executed | ProtoDump.HugeLengthPanics | ProtoDump.HugeLengthRejected |
| packet/packet.go:197-199 | `buf[0]` is read before the zero-length check | an empty DATA frame | check the length first and return "Message length is zero!" | not executed | Frames.EmptyFrameCrashes | Frames.EmptyFrameRejected |
| packet/packet.go:237 | side 1, which lines 119 and 167 give to the request stream, becomes `MessageType(1)` = Response | a DATA frame on a stream whose headers carried `:path` | side 1 maps to Request and gets the input type | not executed | Frames.RequestFrameTypedAsResponse | Frames.SidesTypedAsIntended |
| packet/relations.go:258 | the sliding loop stops at `len - k`, one iteration early | 11 requests: the transition req[9] -> req[10] is not counted | bound `len - k + 1` | not executed | Relations.FinalTransitionUncounted | Relations.EveryTransitionCounted |
| mutator/dependencyUnawareMutator.go:218 | `rand.Intn(len - 1)` never picks the last table entry and panics on a one-value enum | an int32 field never gets -32768; an enum with one value panics | `rand.Intn(len)` | not executed | UnawareMutator.LastTableEntryNeverChosen | UnawareMutator.EveryTableEntryReachable |
| mutator/dependencyUnawareMutator.go:67-77 | the search looks at field 0 only and moves to field 1 when it is ignored | fields a, b both ignored: b is mutated | skip to the first field that is not ignored | not executed | UnawareMutator.IgnoredFieldMutated | UnawareMutator.SelectedFieldNotIgnored |
| packet/relations.go:132-138 | `val1 == val2` compares two `interface{}` values; when both hold `[]byte` (two singular bytes fields) or both `[]interface{}` (two repeated fields) Go panics at run time | two captured messages of different methods that each have a bytes field named "token" | compare contents (for example with `reflect.DeepEqual` or `bytes.Equal`) | not executed | Relations.UncomparableFieldsPanic | Relations.IntendedNeverCrashes |
| script.js:51 | the exit callback calls `Stalker.garbagecollect()`, which is not a function (line 75 calls `Stalker.garbageCollect()`) | the 100th instrumented call: its exit callback throws a TypeError and no memory is ever reclaimed | call `Stalker.garbageCollect()` | not executed | CoverageFeed.GarbageNeverCollected | CoverageFeed.CollectionsBetweenCount |
