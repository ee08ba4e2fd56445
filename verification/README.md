# REDscope: a verified model of its cores

REDscope logs crashes of a game from inside its process. The I/O around it is thin; the logic in
between has several compact cores, and this project states in Dafny what those cores compute and
proves what they are for. There is one module per component:

| file | models |
|---|---|
| LogTailer.dfy | the wildcard matcher and the last lines of a log |
| CrashCapture.dfy | the double-buffered snapshot worker and the crash handler, as interleaved steps and as code |
| FaultInstruction.dfy | the x86-64 memory-operand decoder |
| Json.dfy, Utf8Text.dfy, Buffers.dfy, JsonSidecar.dfy, DiagnosticReader.dfy | RFC 8259 and UTF-8, the bounded buffer, the diagnostic document, and a reader of it |
| PdbIdentity.dfy | the age and GUID read out of an MSF/PDB container |
| PathHash.dfy, Rsdb.dfy | path hashing, and the `.rsdb` dictionary with its builder and its reader |
| CuratedConflicts.dfy | finalising and evaluating the curated-conflict database |
| ModDiff.dfy, SessionFile.dfy | the mod-list diff, and the file that carries it to the next session |
| ScriptStack.dfy, HangWatchdog.dfy | heartbeat slots, the bounded script stack, and the hang watchdog |
| Fnv.dfy, Fingerprint.dfy | the FNV state machine, crash fingerprints, ids and the mod-set hash |
| StackDump.dfy | the stack dump's runs and counts |
| Grouping.dfy | crash grouping in the analyzer |
| WrapChain.dfy | comment stripping and the capped table of wrap chains |
| Wrappers.dfy, Arithmetic.dfy, Bytes.dfy, NumberText.dfy, AsciiText.dfy, Order.dfy | missing values, division, fixed-width integers, text of numbers, C strings and letter case, string order and sorting |

`dafny verify dfyconfig.toml` checks all of it.

Conventions. Code that works step by step is a method with its loop, or a class with its fields,
proved against a function or relation that is defined independently of the code; the lemmas then
say what that relation means: in other words than its definition, with the constants written out, by
an inverse, or by a reader of what was written. Text is a sequence of characters, one per byte, and binary data a
sequence of bytes. A C string is the characters before its NUL. Widths are written out wherever a
sum can wrap. Library sorts that leave ties in any order are methods that promise an ordered
permutation and no more, and loops over hash maps pick any remaining key, so what is proved holds
for every order the library may choose. In CrashCapture.dfy and ScriptStack.dfy each atomic access is
one sequentially consistent step.

Where the code and what is said of it differ, the model follows the code:

- A formatted append that overflows leaves a NUL as the buffer's last byte, so the contents are then
  not a prefix of what was intended (`Buffers.ContentsArePrefix` says exactly when they are). After a
  failed `Reserve`, `Reset` clears the overflow flag, so a caller has to look at the data pointer too.
- The path built in `ComputeModDiffOnce` lies outside that function's try block. If it throws, the
  inventory cache has been replaced and the generation has not advanced, and later ticks publish the
  old inventory (`CrashCapture.CoherenceStep` gives the exact condition,
  `CrashCapture.AbortedRefreshPublishesStaleInventory` a run). Once the first diff has been computed
  this cannot happen any more (`CrashCapture.CoherentOnceDiffComputed`).
- The operand decoder skips address-size, FS and GS overrides; `FaultInstruction.WhenTheAddressIsLinear`
  says for every set of prefixes exactly when its address is nevertheless the linear one.
- A stack dump cut short by a read fault does not print how many slots it had omitted
  (`StackDump.DumpAccountsForAll`).
- Which updates the diff reports can depend on how the sort breaks ties between mods of one name, and
  two lists of the same mods can differ by updates. `ModDiff.UnchangedReportsNothing` says that this
  happens exactly when some name is listed in two versions (`ModDiff.TiesCanReportUpdates` is such a
  list). In general an update is possible exactly for a mod that has changed
  (`ModDiff.UpdateIsPossible`), and reported however ties fall exactly when the two versions together
  have more copies than either list has mods of that name (`ModDiff.UpdateIsForced`), so
  `ModDiff.UpdatesAreExact` says when the updates are exactly the changes.
- `ParsePdbId` computes block counts in 32 bits. `PdbIdentity.ParsesWellFormed` and
  `PdbIdentity.WrappedCountMisreads` together say exactly when stream 1's own entry is consulted;
  `PdbIdentity.MisreadContainer` is a well-formed container whose age and GUID are read out of stream 0.
- The id of a finished thread can be given to a new one, and slots are never released, so two heartbeat
  slots can carry one id. `ScriptStack.OwnershipIsExclusive` is about threads, not ids.
- A check for a hang reads the slots before it reads the clock, and heartbeats are stored meanwhile. So a
  report comes more than the threshold after the one before began to read the slots, not after it was
  given. `HangWatchdog.ApartExactlyUnlessOvertaken` says exactly when later reports keep that distance
  from the time of a report, `HangWatchdog.ReportsCanBeClose` is a run in which they do not.
- The JSON writer passes the bytes of its strings through, and RFC 8259 asks for UTF-8;
  `JsonSidecar.DiagnosticIsUtf8` says that the document is in UTF-8 exactly when its strings are.
- The script stack's overflow count is 32 bits wide; `ScriptStack.ThreadStack.Push` says for how deep a
  stack it stays right.

## Model

| member | source | states |
|---|---|---|
| LogTailer.GlobMatch | src/logs/LogTailer.cpp:104-126 | for every pattern and name the matcher terminates and answers true exactly when the name is in the pattern's recursive meaning |
| LogTailer.LeftmostBlockSuffices | src/logs/LogTailer.cpp:109-119 | why backtracking only to the last star is complete: a match of the whole goes through the leftmost place of every block between stars |
| LogTailer.StarNeedsRoom | src/logs/LogTailer.cpp:117-119 | a match that begins with a star leaves room for the block after it, so running out of name means no match |
| LogTailer.BlockSkips | src/logs/LogTailer.cpp:117-119 | when a block disagrees at the mark, the star takes one more character without losing any match |
| LogTailer.EndOfName | src/logs/LogTailer.cpp:124-125 | at the end of the name only the stars left in the pattern decide |
| LogTailer.GlobMeans | src/logs/LogTailer.cpp:104-126 | a pattern without a star matches the names of its length that agree with it, `?` for any character and letters in either case; one with a star matches exactly when the block before its first star stands at the start and the rest matches somewhere behind |
| LogTailer.SplitLines | src/logs/LogTailer.cpp:62-77 | the pieces cut out are the lines of the text |
| LogTailer.Cut | src/logs/LogTailer.cpp:155-157 | a line loses one carriage return at its end and nothing else |
| LogTailer.LinesRoundTrip | src/logs/LogTailer.cpp:62-77 | rows written with either line ending, the last one possibly open, are split back exactly, also rows that end in carriage returns of their own where the line ending has one |
| LogTailer.LastNEnds | src/logs/LogTailer.cpp:130-176 | the last lines are an end of the list, and all of it when there are fewer |
| LogTailer.Ring.Push | src/logs/LogTailer.cpp:142-150 | after any number of pushes the ring holds the last `maxLines` of all lines pushed, oldest first |
| LogTailer.Ring.Drain | src/logs/LogTailer.cpp:167-174 | the ring is read out oldest first, wrapped or not |
| LogTailer.Tail | src/logs/LogTailer.cpp:130-176 | the result is the last `maxLines` of all lines of the text |
| CrashCapture.StepKeepsInv | src/snapshot/SnapshotWorker.cpp:452-522 | every step of worker or handler keeps the joint invariant over buffers, generations and activations |
| CrashCapture.RunKeepsInv | src/snapshot/SnapshotWorker.cpp:524-529 | so does every interleaved run, ticks that throw part-way included |
| CrashCapture.OneReportAtATime | src/handler/SehHandler.cpp:78-116 | in every interleaving at most one activation is inside the report body, and only with the worker frozen |
| CrashCapture.UntouchableStep | src/snapshot/SnapshotWorker.cpp:452-512 | once frozen, with no tick in flight about a buffer, no step writes that buffer and no later tick becomes about it |
| CrashCapture.FrozenSnapshotIsStable | src/snapshot/SnapshotWorker.cpp:554-560 | the snapshot a handler reads after freezing never changes afterwards and no enabled step writes it, even when a tick was under way at the freeze |
| CrashCapture.CoherenceStep | src/snapshot/SnapshotWorker.cpp:350-510 | a buffer of the current generation holds exactly the current caches after every step, a throw in mid-copy included, except exactly after a stale inventory was replaced by a different one and the first mod diff threw while building its path |
| CrashCapture.PublishedMatchesCaches | src/snapshot/SnapshotWorker.cpp:495-512 | in every run without such a step each published snapshot's slow fields are the caches at its publication |
| CrashCapture.CoherentOnceDiffComputed | src/snapshot/SnapshotWorker.cpp:272-512 | in every run at all, the correspondence holds, and publications match the caches, from the first computed mod diff on |
| CrashCapture.OnlyInventoryCanLag | src/snapshot/SnapshotWorker.cpp:350-361 | in every run at all, only the inventory of a published snapshot can differ from the caches |
| CrashCapture.AbortedRefreshPublishesStaleInventory | src/snapshot/SnapshotWorker.cpp:272-361 | a concrete run of three ticks with one exception: all caches filled, five minutes later the path throws while the other caches are fresh, then the old inventory is published |
| CrashCapture.TickIsRun | src/snapshot/SnapshotWorker.cpp:452-512 | a whole tick, wherever it throws, is a run of the interleaved machine |
| CrashCapture.SnapshotWorker.ComputeModDiffOnce | src/snapshot/SnapshotWorker.cpp:272-299 | it is done at most once, and an exception leaves it only from building the path, before the diff was ever computed |
| CrashCapture.SnapshotWorker.RefreshIfStale | src/snapshot/SnapshotWorker.cpp:350-449 | with its freshness test and the places that throw, a refresh computes the machine's step: replaced with the generation advanced, nothing, or the inventory replaced alone |
| CrashCapture.RefreshReplaces | src/snapshot/SnapshotWorker.cpp:350-449 | a refresh advances the generation or changes no cache, except exactly where the mod diff throws, and that only before the first diff |
| CrashCapture.RefreshLeaves | src/snapshot/SnapshotWorker.cpp:350-449 | an up-to-date cache (filled less than 300 seconds ago, for the same game state), an unknown game root or an exception leaves everything as it is |
| CrashCapture.RefreshFills | src/snapshot/SnapshotWorker.cpp:350-449 | otherwise the cache of the refresh holds the new content, is stamped, and no other cache but the mod diff changes |
| CrashCapture.DiffIsStored | src/snapshot/SnapshotWorker.cpp:272-299 | after any run, the first inventory refresh that gets to comparing the mods stores its diff and remembers that it did |
| CrashCapture.DiffIsNotDone | src/snapshot/SnapshotWorker.cpp:272-299 | without mods, plugin directory or success nothing is remembered, so a later refresh tries again; an exception after storing leaves the diff stored |
| CrashCapture.DiffIsComputedOnce | src/snapshot/SnapshotWorker.cpp:272-299 | once a diff is remembered, every further run leaves it and the flag unchanged, so it stays the comparison with what the last session left |
| CrashCapture.SnapshotWorker.CopyCaches | src/snapshot/SnapshotWorker.cpp:501-508 | the target's slow fields become the caches, or a prefix of them up to the assignment that throws |
| CrashCapture.SnapshotWorker.Refill | src/snapshot/SnapshotWorker.cpp:500-512 | the copy is made only for a stale buffer, and publication follows unless the copy throws |
| CrashCapture.SnapshotWorker.Tick | src/snapshot/SnapshotWorker.cpp:452-512 | the method's effect on all globals is the tick that TickIsRun places in the machine |
| CrashCapture.TickPublishes | src/snapshot/SnapshotWorker.cpp:452-512 | an uninterrupted tick publishes the buffer it wrote, with what it captured and with the caches, and leaves the other buffer alone |
| CrashCapture.TickKeepsPublished | src/snapshot/SnapshotWorker.cpp:452-500 | a tick that finds the worker frozen, or throws while filling, publishes nothing |
| CrashCapture.SnapshotWorker.FreezeForCrash | src/snapshot/SnapshotWorker.cpp:554-556 | the worker is frozen |
| CrashCapture.SehHandler.Handler | src/handler/SehHandler.cpp:73-116 | exactly a handled exception that finds no report in progress freezes the worker for good and reports on the published snapshot; every call releases what it took |
| Bytes.LE32RoundTrip | src/rtti/FaultInstruction.cpp:31-36 | reading four bytes back gives the 32-bit number they encode |
| Bytes.LE32Determined | src/rtti/FaultInstruction.cpp:31-36 | and no other four bytes read as that number |
| Bytes.LE32Means | src/rtti/FaultInstruction.cpp:31-36 | the first byte counts ones, each later one 256 times as much as the one before |
| FaultInstruction.MeaningOfEncoding | src/rtti/FaultInstruction.cpp:115-144 | every encoding of a memory operand by the tables of the Intel SDM means that operand |
| FaultInstruction.EncodingOfMeaning | src/rtti/FaultInstruction.cpp:115-144 | every well-formed instruction with a memory operand is the encoding of the operand it means |
| FaultInstruction.FetchSerialized | src/rtti/FaultInstruction.cpp:79-144 | prefixes, REX, opcode of one to three bytes, ModRM, SIB and displacement are read back from their bytes, whatever follows |
| FaultInstruction.FetchIsSerialized | src/rtti/FaultInstruction.cpp:79-144 | whatever is read is a well-formed instruction that stands at the start of the bytes |
| FaultInstruction.SkipToModRm | src/rtti/FaultInstruction.cpp:79-108 | the cursor stops at the ModRM byte with the REX bits that matter, or the bytes end before it |
| FaultInstruction.ReadDisp | src/rtti/FaultInstruction.cpp:136-144 | the displacement is sign-extended from one or four bytes, and a truncated one is refused |
| FaultInstruction.DecodeModRm | src/rtti/FaultInstruction.cpp:110-169 | from the ModRM byte on, the answer is the one for the operand that the fields mean |
| FaultInstruction.Address | src/rtti/FaultInstruction.cpp:163-166 | the wrapping 64-bit sum is the SDM's effective address, reduced once |
| FaultInstruction.WrapsOnceAtTheEnd | src/rtti/FaultInstruction.cpp:163-166 | reducing after each addition is reducing at the end |
| FaultInstruction.BuildOperand | src/rtti/FaultInstruction.cpp:38-70 | the printed operand is the complete text, never cut by the 48-byte buffer, with its bracket closed; OperandReadsBack says what it shows |
| FaultInstruction.TextsFit | src/rtti/FaultInstruction.cpp:39-66 | how long base, index and displacement can be at most |
| FaultInstruction.OperandReadsBack | src/rtti/FaultInstruction.cpp:38-70 | for every operand a reader of the printed text gets it back: base or RIP, index and scale, sign and hexadecimal displacement, registers by name |
| FaultInstruction.AnswerMeans | src/rtti/FaultInstruction.cpp:146-169 | the other fields of the answer, for every operand: register names and values, scale, displacement, null base, and whether the address is the faulting one |
| FaultInstruction.Fill | src/rtti/FaultInstruction.cpp:146-169 | registers, text, address and the comparison with the faulting address are those of one operand |
| FaultInstruction.DecodeFaultOperand | src/rtti/FaultInstruction.cpp:74-170 | for every byte string the decoder answers with the encoded operand, its text and its address, or with nothing when no memory operand is encoded |
| FaultInstruction.DecodesWhatWasEncoded | src/rtti/FaultInstruction.cpp:74-170 | for every base, index, scale and displacement, every way of encoding it and any trailing bytes, the operand read is that operand |
| FaultInstruction.DecodesNothingElse | src/rtti/FaultInstruction.cpp:74-170 | an operand is read exactly from the byte strings that begin with an encoded one |
| FaultInstruction.WhenTheAddressIsLinear | src/rtti/FaultInstruction.cpp:81-89 | for every set of prefixes the computed address is the linear one exactly when the segment base that applies equals what a 32-bit computation would drop |
| FaultInstruction.NegativeDisplacement | src/rtti/FaultInstruction.cpp:74-170 | 48 8B 40 F0 is `[rax-0x10]` |
| FaultInstruction.ExtendedRegisters | src/rtti/FaultInstruction.cpp:74-170 | 4F 8B 4C A0 08 is `[r8+r12*4+8]` |
| FaultInstruction.ExtendedIndex | src/rtti/FaultInstruction.cpp:74-170 | 4A 8B 04 C8 is `[rax+r9*8]` |
| FaultInstruction.RipRelativeLoad | src/rtti/FaultInstruction.cpp:74-170 | 8B 0D 78 56 34 12 is `[rip+0x12345678]` |
| FaultInstruction.AbsoluteAddress | src/rtti/FaultInstruction.cpp:74-170 | 0F B6 04 25 10 00 00 00 is `[0x10]` |
| FaultInstruction.PrefixesOfTheManual | src/rtti/FaultInstruction.cpp:81-89 | the prefixes skipped are those of section 2.1.1 of the Intel SDM |
| NumberText.RoundTrip | src/report/JsonSidecar.cpp:202-203 | printed counts read back as the same number and have no leading zero |
| NumberText.HexRoundTrip | src/rtti/FaultInstruction.cpp:55-57 | hexadecimal digits read back as the number printed |
| Json.ParseEscaped | src/report/JsonSidecar.cpp:88-107 | every string is recovered unchanged from its escaped form by the grammar of section 7 of RFC 8259 |
| Json.ParseRenderedDocument | src/report/JsonSidecar.cpp:571-586 | a document laid out like the emitters do parses under RFC 8259 to exactly its tree |
| Buffers.PreallocatedBuffer.Reserve | src/util/PreallocatedBuffer.cpp:8-14 | a fresh buffer is empty, or overflown when nothing was allocated |
| Buffers.PreallocatedBuffer.Reset | src/util/PreallocatedBuffer.cpp:16-19 | the buffer is empty and not overflown, allocated or not |
| Buffers.PreallocatedBuffer.Append | src/util/PreallocatedBuffer.cpp:21-27 | all or nothing, and overflow sticks |
| Buffers.PreallocatedBuffer.AppendChar | src/util/PreallocatedBuffer.cpp:34-39 | the same for one character |
| Buffers.PreallocatedBuffer.Appendf | src/util/PreallocatedBuffer.cpp:41-51 | a text is taken only if its NUL fits too; otherwise overflow sticks and the room may be filled by a cut text |
| Buffers.ContentsArePrefix | src/util/PreallocatedBuffer.cpp:21-51 | the contents are a prefix of what was intended exactly when no formatted append was cut, and all of it when nothing overflowed |
| JsonSidecar.AppendJsonStringN | src/report/JsonSidecar.cpp:88-107 | what is intended for the buffer is the quoted, escaped string |
| JsonSidecar.EmitMods | src/report/JsonSidecar.cpp:161-193 | the list is the non-empty-named mods among the first 2048, commas only between them; ModReadsBack says what each entry shows |
| JsonSidecar.EmitModInventory | src/report/JsonSidecar.cpp:120-194 | the manager lines and the mod list close the document's members |
| JsonSidecar.EmitHardwareJson | src/report/JsonSidecar.cpp:196-227 | one member with the hardware tree, or null without a snapshot |
| JsonSidecar.EmitArchiveConflicts | src/report/JsonSidecar.cpp:229-260 | one member with both nested conflict lists |
| JsonSidecar.EmitSetupIntegrity | src/report/JsonSidecar.cpp:262-277 | one member with the issue list |
| JsonSidecar.BuildDiagnosticJson | src/report/JsonSidecar.cpp:571-586 | the hand-placed punctuation adds up to the rendering of one tree |
| JsonSidecar.DiagnosticParses | src/report/JsonSidecar.cpp:571-586 | for every snapshot, or none, the intended document parses to exactly the intended tree |
| JsonSidecar.WriteDiagnostic | src/report/JsonSidecar.cpp:571-586 | if the buffer exists and did not overflow, its contents parse to exactly the intended tree, which is what DiagnosticReports asks for |
| DiagnosticReader.DiagnosticReports | src/report/JsonSidecar.cpp:571-586 | whatever parses to the intended tree reports the snapshot, or that there is none, to a reader that looks members up by name |
| DiagnosticReader.DiagnosticSaysSnapshot | src/report/JsonSidecar.cpp:120-277 | for every snapshot each field found by its name is the captured one: versions, hardware with sizes in mebibytes and the first adapter only, issues, groups and missing dependencies with their counts, manager lines, and the named mods among the first 2048 |
| DiagnosticReader.DiagnosticSaysNothing | src/report/JsonSidecar.cpp:120-277 | without a snapshot the sections are null, the strings empty, the count 0 and the list empty |
| DiagnosticReader.HardwareReadsBack | src/report/JsonSidecar.cpp:196-227 | every hardware field is found under its own name, the adapter's exactly when there is one |
| DiagnosticReader.CuratedReadsBack | src/report/JsonSidecar.cpp:229-260 | groups and missing dependencies are read back in order, with the size of the database and the number left out |
| DiagnosticReader.ModReadsBack | src/report/JsonSidecar.cpp:161-193 | name, version, enabled, type, subpath and archives of every mod are read back; subpath and archives are left out exactly when empty |
| DiagnosticReader.TypeNameReads | src/report/JsonSidecar.cpp:148-159 | each mod type has a name of its own |
| JsonSidecar.DiagnosticIsUtf8 | src/report/JsonSidecar.cpp:88-107 | the intended document is in UTF-8, as section 8.1 of RFC 8259 asks, exactly when every string of the tree is |
| Utf8Text.ReaderAccepts | src/report/JsonSidecar.cpp:88-107 | reading byte by byte accepts exactly the grammar of section 4 of RFC 3629 |
| Utf8Text.ReadEscaped | src/report/JsonSidecar.cpp:88-107 | escaping changes nothing about being UTF-8 |
| PdbIdentity.Gather | src/symbols/SymbolFetch.cpp:137-145 | the loop collects what the block map names, or fails at the first block outside the file |
| PdbIdentity.WalkDirectory | src/symbols/SymbolFetch.cpp:146-166 | the cursor walk finds the entry that the directory's words place there |
| PdbIdentity.ParsePdbId | src/symbols/SymbolFetch.cpp:111-173 | the whole parser, error paths included, computes the function the next lemmas are about |
| PdbIdentity.GatheredSpread | src/symbols/SymbolFetch.cpp:137-145 | gathering inverts cutting a directory into blocks that lie anywhere, in any order |
| PdbIdentity.SpreadCount | src/symbols/SymbolFetch.cpp:133 | how many blocks a directory takes |
| PdbIdentity.WalkOfDirectory | src/symbols/SymbolFetch.cpp:146-166 | on a directory as a writer lays it out, the walk finds the block entry after those counted for stream 0 |
| PdbIdentity.ParsedContainer | src/symbols/SymbolFetch.cpp:111-173 | for every well-formed container the directory is gathered exactly, unless the 32-bit count of its blocks wraps, and then nothing is found |
| PdbIdentity.ParsesWellFormed | src/symbols/SymbolFetch.cpp:111-173 | for every well-formed container the answer is the age and GUID at the start of stream 1's first block, or nothing if that stream is absent or empty, provided neither count wraps |
| PdbIdentity.IdReadsBack | src/symbols/SymbolFetch.cpp:166-172 | the information header in a block is read back as its age and all 16 bytes of its GUID |
| PdbIdentity.WrittenIdIsFound | src/symbols/SymbolFetch.cpp:111-173 | so the identity written at the start of stream 1 is the answer, wherever the blocks lie, provided neither count wraps |
| PdbIdentity.MagicText | src/symbols/SymbolFetch.cpp:113-115 | the magic is the text `Microsoft C/C++ MSF 7.00`, CR, LF, byte 0x1A and `DS` |
| PdbIdentity.BlocksForIsCeil | src/symbols/SymbolFetch.cpp:160-163 | a 32-bit block count is right exactly when its sum does not wrap, and too small otherwise |
| PdbIdentity.WrappedCountMisreads | src/symbols/SymbolFetch.cpp:146-173 | when the count of stream 0's blocks wraps, the age and GUID come from one of stream 0's own blocks |
| PdbIdentity.MisreadContainer | src/symbols/SymbolFetch.cpp:111-173 | a well-formed container of six blocks, each used once, for which the answer is another than stream 1's |
| PathHash.Sanitize | analyzer/dictionary/fnv1a64.mjs:6-25 | the loop computes the normal form, length limit included |
| PathHash.SanitizedIsNormal | analyzer/dictionary/fnv1a64.mjs:6-25 | the result is canonical, sanitising is idempotent, and it changes exactly the paths that are not canonical |
| PathHash.SanitizedParts | analyzer/dictionary/fnv1a64.mjs:6-25 | one leading quote and the slashes behind it are dropped, and at most 216 code units of the rest, cleaned, are kept |
| PathHash.CleanAppend | analyzer/dictionary/fnv1a64.mjs:12-23 | a path is cleaned part by part |
| PathHash.CleanPlain | analyzer/dictionary/fnv1a64.mjs:12-23 | a part without slashes and quotes keeps its length, with its capitals folded |
| PathHash.CleanJoins | analyzer/dictionary/fnv1a64.mjs:12-23 | a run of slashes of either kind becomes one backslash |
| PathHash.CleanStops | analyzer/dictionary/fnv1a64.mjs:12-23 | the first quote of either kind ends the path |
| PathHash.CharactersAre | analyzer/dictionary/fnv1a64.mjs:9-21 | which code units are quotes and slashes, and that exactly the two cases of an ASCII letter fold together |
| PathHash.Fnv1a64 | analyzer/dictionary/fnv1a64.mjs:27-36 | the hash is the FNV state after the low bytes of the sanitised path, 0 for an empty one |
| PathHash.HashIgnoresSpelling | analyzer/dictionary/fnv1a64.mjs:27-36 | two spellings with one normal form have one hash |
| PathHash.KnownHash | analyzer/dictionary/fnv1a64.mjs:27-36 | four spellings of the path `a` hash to the published value of that text, and a path of slashes to 0 |
| Rsdb.BERoundTrip | analyzer/dictionary/build-dictionary.mjs:67 | big-endian bytes read back as their number |
| Rsdb.ByteOrderIsNumericOrder | analyzer/dictionary/rsdb-reader.mjs:24 | bytewise comparison of equally long strings is comparison of the big-endian numbers |
| Rsdb.HashBytesOrder | analyzer/dictionary/rsdb-reader.mjs:17-24 | so the search compares 64-bit hashes |
| Rsdb.FirstKeptIsFirst | analyzer/dictionary/build-dictionary.mjs:43-51 | what "the first kept path with a hash" means |
| Rsdb.TrimMeans | analyzer/dictionary/build-dictionary.mjs:43-46 | trimming takes white space off both ends and nothing else |
| Rsdb.Collect | analyzer/dictionary/build-dictionary.mjs:40-53 | the entries are exactly the first kept path of every hash, each hash once |
| Rsdb.SortByHash | analyzer/dictionary/build-dictionary.mjs:53-54 | the same entries with strictly ascending hashes |
| Rsdb.WriteRecord | analyzer/dictionary/build-dictionary.mjs:66-69 | the three buffer writes append one record to the index |
| Rsdb.WriteIndex | analyzer/dictionary/build-dictionary.mjs:60-72 | the index is the records with the running offsets, and the writes fail exactly when a number does not fit its field |
| Rsdb.Build | analyzer/dictionary/build-dictionary.mjs:40-84 | the file is the documented layout of the selected, sorted entries, and is written exactly when they fit it |
| Rsdb.OpenDict | analyzer/dictionary/rsdb-reader.mjs:3-14 | exactly a file with the magic is opened, and a dictionary's header fields come back |
| Rsdb.DictionaryHolds | analyzer/dictionary/rsdb-reader.mjs:21-31 | in a dictionary every record and path stands where the reader will look |
| Rsdb.HeaderInBytes | analyzer/dictionary/build-dictionary.mjs:60-84 | bytes 0 to 15 of every dictionary: `RSD1`, number of records, 16, and where the paths start, little-endian |
| Rsdb.RowInBytes | analyzer/dictionary/build-dictionary.mjs:60-84 | where every record and path stands, byte by byte, and that a path starts where the one before it ends |
| Rsdb.Probe | analyzer/dictionary/rsdb-reader.mjs:22-31 | one probe orders the sought hash against the record's and, on a match, returns the record's path bytes |
| Rsdb.LookupBytes | analyzer/dictionary/rsdb-reader.mjs:16-35 | the binary search finds the row with the hash, and null means there is none |
| Rsdb.BuildAndLookup | analyzer/dictionary/build-dictionary.mjs:40-84 | for every path list, looking any hash up in the file built from it gives the first kept path with that hash, through the text codec, and nothing when there is none |
| CuratedConflicts.PairKeyDetermines | src/snapshot/CuratedConflicts.cpp:39-41 | for names free of byte 1 the key determines the unordered pair |
| CuratedConflicts.PairKeyCanCollide | src/snapshot/CuratedConflicts.cpp:39-41 | for other names it need not |
| CuratedConflicts.GroupByTag | src/snapshot/CuratedConflicts.cpp:113-116 | under each tag stand exactly the mods that have it |
| CuratedConflicts.ConflictDB.FinalizeConflictDB | src/snapshot/CuratedConflicts.cpp:112-153 | the groups name known mods only, and two different mods stand together in some group exactly when they share a tag or an explicit group |
| CuratedConflicts.ConflictDB.PruneDependencies | src/snapshot/CuratedConflicts.cpp:137-152 | what is left of the dependencies are the known requirements (or the expansion) of known mods |
| CuratedConflicts.FinalDepsMean | src/snapshot/CuratedConflicts.cpp:137-152 | an entry is kept exactly for a known mod with a requirement that is known or `Phantom Liberty`, and keeps exactly those, each as often as listed |
| CuratedConflicts.InstalledMods | src/snapshot/CuratedConflicts.cpp:188-200 | exactly the mods with an installed archive, up to case |
| CuratedConflicts.ExceptedPairs | src/snapshot/CuratedConflicts.cpp:201-211 | exactly the keys of the pairs inside exception groups |
| CuratedConflicts.Survivors | src/snapshot/CuratedConflicts.cpp:214-228 | exactly the installed members with a non-excepted installed partner in the group |
| CuratedConflicts.SurvivorsArePaired | src/snapshot/CuratedConflicts.cpp:222-228 | a survivor's partner survives too |
| CuratedConflicts.SurvivorsAreNoneOrTwo | src/snapshot/CuratedConflicts.cpp:222-229 | the survivors are none, or at least two different mods |
| CuratedConflicts.ActiveGroups | src/snapshot/CuratedConflicts.cpp:213-234 | the first 64 surviving groups, and how many were beyond |
| CuratedConflicts.MissingDeps | src/snapshot/CuratedConflicts.cpp:236-255 | one entry for each installed mod with unmet requirements, up to 64, and how many were beyond |
| CuratedConflicts.EvaluateConflicts | src/snapshot/CuratedConflicts.cpp:181-266 | the report is a sorting of those lists, and the truncation count is what both leave out |
| CuratedConflicts.ReportedGroupsAreConflicts | src/snapshot/CuratedConflicts.cpp:213-234 | every reported group lists installed mods of one conflict group, each with a non-excepted partner in the reported group |
| CuratedConflicts.ConflictsAreReported | src/snapshot/CuratedConflicts.cpp:213-234 | when nothing was truncated, two installed, non-excepted mods of one conflict group are reported together |
| CuratedConflicts.MissingDepsAreExact | src/snapshot/CuratedConflicts.cpp:236-255 | every reported missing dependency is one, and without truncation all are reported |
| CuratedConflicts.UnmetMeans | src/snapshot/CuratedConflicts.cpp:236-250 | a requirement is missing when it is not installed; the expansion only when the engine was read and has it not |
| CuratedConflicts.TruncatedOnlyWhenFull | src/snapshot/CuratedConflicts.cpp:229-255 | both lists hold at most 64 entries, and something is left out only when one of them holds 64 |
| CuratedConflicts.ExceptionMeansListedTogether | src/snapshot/CuratedConflicts.cpp:201-211 | for clean names a pair is excepted exactly when some exception group lists both |
| CuratedConflicts.RelatedModsAreReported | src/snapshot/CuratedConflicts.cpp:112-234 | from the loaded database to the report: installed mods that share a tag or an explicit group and no exception are reported together unless the report is truncated |
| Order.Sort | src/snapshot/SessionHistory.cpp:16-21 | an ordered permutation, for any strict weak order |
| Order.LessMeans | src/snapshot/CuratedConflicts.cpp:39-41 | strings compare at their first difference, a prefix first |
| Order.LessListMeans | src/snapshot/CuratedConflicts.cpp:258-261 | so do lists of strings |
| AsciiText.FoldsLetters | src/logs/LogTailer.cpp:113-114 | two characters fold alike exactly when they are equal or the two cases of one letter |
| AsciiText.LowerIsPointwise | src/snapshot/CuratedConflicts.cpp:188-200 | so two strings do exactly when they agree letter by letter up to case |
| Order.LessListStrictWeak | src/snapshot/CuratedConflicts.cpp:258-261 | the order of the reported groups is one |
| ModDiff.SortByName | src/snapshot/SessionHistory.cpp:16-21 | an ordering by name, ties in any order |
| ModDiff.MergeSorted | src/snapshot/SessionHistory.cpp:96-119 | the three loops together compute one merge of the two sorted lists |
| ModDiff.MergePatches | src/snapshot/SessionHistory.cpp:98-119 | prior plus added plus updated-to equals current plus removed plus updated-from, as multisets of named mods, and no more is taken than was there |
| ModDiff.MergeCounts | src/snapshot/SessionHistory.cpp:98-119 | per name, removed and added are the positive parts of the difference in counts |
| ModDiff.ComputeModDiff | src/snapshot/SessionHistory.cpp:87-121 | the diff is the merge of two sortings of the lists |
| ModDiff.DiffIsExact | src/snapshot/SessionHistory.cpp:87-121 | however ties fall, the diff is a proper patch between the given lists with exactly those counts |
| ModDiff.DiffIsMinimal | src/snapshot/SessionHistory.cpp:87-121 | no patch that keeps names removes or adds fewer mods of any name |
| ModDiff.UpdatesPair | src/snapshot/SessionHistory.cpp:98-111 | the updates of a name pair its mods in both sorted lists position by position |
| ModDiff.UpdateIsPossible | src/snapshot/SessionHistory.cpp:87-121 | for some way of breaking ties an update is reported exactly when its old version was listed and its new one is |
| ModDiff.UpdateIsForced | src/snapshot/SessionHistory.cpp:87-121 | an update is reported however ties are broken exactly when the copies of its two versions outnumber the mods of that name in either list |
| ModDiff.UpdatesAreExact | src/snapshot/SessionHistory.cpp:105-110 | the updates are exactly the mods whose version changed, however ties are broken, exactly when that holds for every such mod |
| ModDiff.UniqueNamesAreExact | src/snapshot/SessionHistory.cpp:105-110 | so they are for lists that repeat no name |
| ModDiff.UnchangedReportsNothing | src/snapshot/SessionHistory.cpp:105-110 | comparing a list with itself reports no update, however the second copy is sorted, exactly when no name is listed in two versions |
| ModDiff.TiesCanReportUpdates | src/snapshot/SessionHistory.cpp:105-110 | a list with a name in two versions, and a sorting of it that reports two updates |
| SessionFile.StrtollReads | src/snapshot/SessionHistory.cpp:50 | a printed 64-bit timestamp is read back |
| SessionFile.StrtollSaturates | src/snapshot/SessionHistory.cpp:50 | a printed number of any size is read as far as 64 bits go, after any white space and before anything but a digit |
| SessionFile.StampReadsBack | src/snapshot/SessionHistory.cpp:48-52 | the timestamp line is read as that timestamp |
| SessionFile.RowReadsBack | src/snapshot/SessionHistory.cpp:45-60 | a row is read back as its mod exactly when the name is not empty, has no bar and starts with neither a hash sign nor the timestamp key |
| SessionFile.LinesAre | src/snapshot/SessionHistory.cpp:45-60 | what each kind of line is read as: comments, `timestampUnix=`, a name and a version on either side of the first bar |
| SessionFile.FileStarts | src/snapshot/SessionHistory.cpp:66-85 | a file starts with `REDSCOPE_SESSION_PREVIOUS v1` and the timestamp line |
| SessionFile.ReadSession | src/snapshot/SessionHistory.cpp:29-64 | exactly a file with the magic line is parsed; it gives the last timestamp and the readable mods, sorted |
| SessionFile.WriteSession | src/snapshot/SessionHistory.cpp:66-85 | magic, timestamp and one row for each named mod, sorted |
| SessionFile.FileReadsBack | src/snapshot/SessionHistory.cpp:29-85 | the lines of a written file hold the timestamp and the named mods |
| SessionFile.WriteThenRead | src/snapshot/SessionHistory.cpp:29-85 | reading a written file gives back the timestamp and the multiset of named mods, with either line ending |
| ScriptStack.StepKeepsInv | src/hooks/ScriptStack.cpp:13-36 | every compare-exchange, store or return of any thread keeps the ownership invariant |
| ScriptStack.OwnershipIsExclusive | src/hooks/ScriptStack.cpp:13-36 | in every interleaving no slot has two owners, no thread two slots, each taken slot carries its owner's id, and taken slots are a prefix of the array; thread ids may repeat |
| ScriptStack.FailedClaimMeansFull | src/hooks/ScriptStack.cpp:14-24 | a claim fails only when all 16 slots are taken by other threads |
| ScriptStack.SixteenThreadsAllGetSlots | src/hooks/ScriptStack.cpp:13-36 | with at most 16 threads no claim fails |
| ScriptStack.OwnerStays | src/hooks/ScriptStack.cpp:13-36 | a taken slot keeps its owner for the rest of the run |
| ScriptStack.HeartbeatIsOwn | src/hooks/ScriptStack.cpp:27-35 | a thread at rest finds its own last heartbeat in its slot |
| ScriptStack.ThreadStack.Push | src/hooks/ScriptStack.cpp:38-48 | the bounded stack follows an unbounded one, its depth, overflow and peak included, exactly as long as the 32-bit overflow does not wrap |
| ScriptStack.ThreadStack.Pop | src/hooks/ScriptStack.cpp:50-56 | so does popping; an empty stack stays empty |
| HangWatchdog.LatestIsMaximum | src/handler/HangWatchdog.cpp:301-305 | the latest heartbeat is the maximum over claimed slots, or 0 |
| HangWatchdog.Watchdog.CheckForHang | src/handler/HangWatchdog.cpp:281-318 | no verdict when disabled, without threshold or snapshot, under a respected debugger, or when the engine state is not 3 or could not be read; a running engine with a heartbeat gets a report exactly when the silence is over the threshold and none was given, a re-arm exactly when it is not and one was; the flag remembers which |
| HangWatchdog.CheckIsRun | src/handler/HangWatchdog.cpp:293-318 | a check that nothing interrupts is a run of the interleaved machine, with the same verdict and flag |
| HangWatchdog.StepKeepsInv | src/handler/HangWatchdog.cpp:85-318 | every heartbeat, slot read and clock read keeps the invariant over slots, the check under way, verdicts, times and heartbeats |
| HangWatchdog.ReportsAlternateAndAreApart | src/handler/HangWatchdog.cpp:85-318 | over every run with a monotone clock, heartbeats being stored while a check reads the slots one by one: every verdict is about an engine in state 3, reports and re-arms alternate, each report sees a newer heartbeat than the one before, and comes more than the threshold, less the delay between stamping and storing, after the one before began to read |
| HangWatchdog.ApartExactlyUnlessOvertaken | src/handler/HangWatchdog.cpp:301-312 | after a report all later ones keep that distance from its own time exactly when the slots then hold no heartbeat that has overtaken its check without reaching its clock reading |
| HangWatchdog.ReportsCanBeClose | src/handler/HangWatchdog.cpp:301-312 | a run in which two reports are no more than the threshold apart |
| Fnv.StepIsBijective | src/report/Fingerprint.cpp:26-27 | every FNV step is a bijection of the 64-bit states |
| Fnv.AbsorbIsBijective | src/report/Fingerprint.cpp:23-30 | so is absorbing any run of bytes, and unwinding inverts it |
| Fnv.AbsorbAppend | src/report/Fingerprint.cpp:23-47 | absorbing field by field is absorbing their concatenation |
| Fnv.KnownVector | src/report/Fingerprint.cpp:14-30 | the published offset basis, and the published hash of the text `a` |
| Fingerprint.FnvBytes | src/report/Fingerprint.cpp:23-30 | the loop absorbs the bytes |
| Fingerprint.FnvStr | src/report/Fingerprint.cpp:32-39 | a null string changes nothing |
| Fingerprint.HashSite | src/report/Fingerprint.cpp:86-101 | the base hash absorbs code, build and fault site with their separators |
| Fingerprint.HashTail | src/report/Fingerprint.cpp:113-119 | the primary hash goes on with at most five script names; TailDetermines says what they determine |
| Fingerprint.ComputeFingerprintCore | src/report/Fingerprint.cpp:72-126 | both hashes are the ones the next lemmas are about, never zero, with their ids |
| Fingerprint.SiteBytesDetermine | src/report/Fingerprint.cpp:86-101 | for build and module names free of the separator the absorbed bytes are equal exactly for the same code, build, module and place |
| Fingerprint.PlaceBytesDetermine | src/report/Fingerprint.cpp:96-100 | for addresses below 2^56 the place is the same symbol, or no symbol and the same address |
| Fingerprint.TailDetermines | src/report/Fingerprint.cpp:113-119 | for names free of the separator two tails are equal exactly when they have the same number of names among the first five and the same texts there, a null name counting as an empty one |
| Fingerprint.TailsAreAbsorbed | src/report/Fingerprint.cpp:86-119 | so two crashes at one site absorb the same bytes exactly for the same tail |
| Fingerprint.LooseTakes | src/report/Fingerprint.cpp:100-110 | the loose hash takes the innermost script name exactly for a crash in the game's own code without a symbol |
| Fingerprint.ExampleBytes | src/report/Fingerprint.cpp:86-119 | the bytes of one crash, written out |
| Fingerprint.PrimaryComparesBases | src/report/Fingerprint.cpp:86-120 | with the same script tail two crashes share a primary hash exactly when their bases agree, but for the remap of zero |
| Fingerprint.RemapJoinsTwoBases | src/report/Fingerprint.cpp:120 | the remap joins exactly two of the 2^64 bases |
| Fingerprint.IdDigit | src/report/Fingerprint.cpp:63-66 | the shifts and masks take the base-32 digits of the top 40 bits |
| Fingerprint.EncodeId | src/report/Fingerprint.cpp:58-68 | as many digits as fit, and a NUL |
| Fingerprint.IdsEqualIffTopBitsAre | src/report/Fingerprint.cpp:58-68 | two ids are equal exactly when the hashes agree in their top 40 bits |
| Fingerprint.ComputeModSetHash | src/report/Fingerprint.cpp:128-145 | the sum over the enabled, named mods among the first 2048 |
| Fingerprint.SumOfMultiset | src/report/Fingerprint.cpp:133-144 | the wrapping sum depends on the multiset of mods only |
| Fingerprint.CountedAre | src/report/Fingerprint.cpp:133-141 | exactly the enabled mods with a name are counted, each as often as it is listed |
| Fingerprint.ModBytesDetermine | src/report/Fingerprint.cpp:133-141 | a mod's bytes determine its name and version, for names free of the separator |
| Fingerprint.MixInjective | src/report/Fingerprint.cpp:128-145 | mixing a mod's hash loses nothing |
| Fingerprint.ModSetHashIgnoresOrder | src/report/Fingerprint.cpp:128-145 | inventories with the same counted mods have the same hash, whatever their order and whatever else they list |
| StackDump.ScanAscii | src/report/StackDump.cpp:175-185 | the byte loop recognises eight printable characters, and some followed by a NUL |
| StackDump.Dumper.FlushNulls | src/report/StackDump.cpp:120-132 | the pending zero slots are printed one by one or as a run that ends at its last slot |
| StackDump.Dumper.AppendAscii | src/report/StackDump.cpp:140-142 | the text grows up to the buffer's size |
| StackDump.Dumper.FlushAscii | src/report/StackDump.cpp:143-157 | the pending string is printed with its first and last offset |
| StackDump.Dumper.Slot | src/report/StackDump.cpp:175-225 | one slot moves the loop's state on without losing or repeating a slot |
| StackDump.EmitStack | src/report/StackDump.cpp:106-277 | for every memory, read faults included, the lines are those of the maximal runs |
| StackDump.LinesPartitionSlots | src/report/StackDump.cpp:159-274 | printed offsets and omitted count partition the slots in order, each slot under the kind of line its content calls for, run counts and strings true |
| StackDump.LinesAreMaximal | src/report/StackDump.cpp:120-225 | strings and runs of zeroed slots are printed whole: no string ends where the next word goes on with it, runs have three slots or more, and shorter ones stand on lines of their own |
| StackDump.TextIsBytes | src/report/StackDump.cpp:140-193 | the text of a string is its slots' bytes in order |
| StackDump.TextWords | src/report/StackDump.cpp:175-185 | a text word is eight bytes from 0x20 to 0x7E, or one to seven of them and a NUL |
| StackDump.CapMeans | src/report/StackDump.cpp:134-142 | a string is cut after 192 characters |
| StackDump.DumpEnds | src/report/StackDump.cpp:162-275 | a dump ends with the offset of the first slot that cannot be read, or with the number of slots left out, if any |
| StackDump.DumpAccountsForAll | src/report/StackDump.cpp:162-274 | everything read is accounted for exactly when there was no read fault or nothing omitted before it |
| Grouping.AddToGroup | analyzer/core/grouping.lua:56-73 | one summary moves its group's tally on and starts a group exactly for a new id |
| Grouping.AddModules | analyzer/core/grouping.lua:82-91 | its id is filed under each of its modules outside the framework, up to case |
| Grouping.AddLoose | analyzer/core/grouping.lua:75-80 | its id is filed under its loose id |
| Grouping.CountSets | analyzer/core/grouping.lua:103-115 | each key gets the number of distinct ids filed under it |
| Grouping.Analyze | analyzer/core/grouping.lua:48-125 | the result is an analysis: tallies of all ids, ordered, with co-occurrence and loose counts |
| Grouping.TallyOfPermutation | analyzer/core/grouping.lua:70-73 | count, first and last time of an id do not depend on the order of the summaries |
| Grouping.TallyMeans | analyzer/core/grouping.lua:56-73 | a tally is the number of summaries with the id, a lower bound of their times that is one of them, and an upper bound that is one of them; an id has none exactly when no summary has it |
| Grouping.GroupsAreTallies | analyzer/core/grouping.lua:48-125 | every reported group is such a tally |
| Grouping.FirstIsFirst | analyzer/core/grouping.lua:56-69 | a group is named after the first summary with its id |
| Grouping.IdsAre | analyzer/core/grouping.lua:56-58 | a missing or empty id counts as `?` |
| Grouping.GroupsDescend | analyzer/core/grouping.lua:96-101 | counts never grow down the list, equal counts are ordered by last time, and these by id |
| Grouping.CooccurrenceIsExact | analyzer/core/grouping.lua:82-115 | each module outside the four framework modules gets the number of crash ids with it on their stacks, in any case |
| Grouping.LooseCountsAreExact | analyzer/core/grouping.lua:75-115 | each loose id gets the number of its crash ids, an empty one none |
| Grouping.RankedIsUnique | analyzer/core/grouping.lua:96-101 | the comparator leaves only one order of the groups |
| Grouping.OrderDoesNotMatter | analyzer/core/grouping.lua:48-125 | any permutation of the summaries gives the same ordered list of ids, counts and times, the same co-occurrence and loose counts |
| Grouping.CountsAddUp | analyzer/core/grouping.lua:48-125 | the group counts sum to the total |
| WrapChain.StripComments | src/snapshot/WrapChain.cpp:112-142 | blanking in place with the carried flag computes the specified line and flag, of the same length |
| WrapChain.StrippedIsCommentFree | src/snapshot/WrapChain.cpp:112-142 | no comment starts anywhere in a stripped line |
| WrapChain.LineCommentIsBlanked | src/snapshot/WrapChain.cpp:126-130 | code before a line comment is kept, the rest of the line blanked |
| WrapChain.BlockCommentIsBlanked | src/snapshot/WrapChain.cpp:115-136 | exactly a block comment is blanked, and what follows it is code again |
| WrapChain.OpenCommentIsBlanked | src/snapshot/WrapChain.cpp:115-136 | a block comment left open blanks the rest of the line and goes on |
| WrapChain.CodeThen | src/snapshot/WrapChain.cpp:112-142 | code is kept up to where a comment begins |
| WrapChain.BlockThen | src/snapshot/WrapChain.cpp:115-124 | a block comment is blanked up to where it ends |
| WrapChain.StrippingIsIdempotent | src/snapshot/WrapChain.cpp:112-142 | stripping again changes nothing |
| WrapChain.LineByLineIsWholeText | src/snapshot/WrapChain.cpp:172-175 | stripping line by line with the carried flag is stripping the whole script |
| WrapChain.BuildMethodKey | src/snapshot/WrapChain.cpp:269-282 | class, dot and method, as much as the buffer holds, always shorter than the buffer |
| WrapChain.WrapChainTable.FindOrCreateChain | src/snapshot/WrapChain.cpp:77-89 | the first chain with the key, a new one if there is room, or one more drop |
| WrapChain.WrapChainTable.AppendLayer | src/snapshot/WrapChain.cpp:91-103 | a chain keeps its first six layers and counts the rest |
| WrapChain.WrapChainTable.Place | src/snapshot/WrapChain.cpp:348-354 | one more layer keeps the table the capped group-by of the layers so far |
| WrapChain.GroupLayers | src/snapshot/WrapChain.cpp:341-355 | the table is the capped group-by of the layers in file and line order: one chain for each of the first 512 keys, with its first six layers |
| WrapChain.ChainsAre | src/snapshot/WrapChain.cpp:77-103 | a chain for each of the first 512 keys, with the first six layers of its key, the others counted |
| WrapChain.FirstKeysInOrder | src/snapshot/WrapChain.cpp:77-89 | chains stand in the order of their first layers |
| WrapChain.LayersAppend | src/snapshot/WrapChain.cpp:91-103 | the layers of a key are those of its parts, one after the other |
| WrapChain.LayerIs | src/snapshot/WrapChain.cpp:91-103 | a layer has the first 31 characters of the mod's name, the first 95 of the file's, and the line |
| WrapChain.LayersAscend | src/snapshot/WrapChain.cpp:341-347 | layers are placed by file, and within a file by line |
| WrapChain.CaptureWrapChains | src/snapshot/WrapChain.cpp:182-355 | for any wraps found, no matter how long their names, the table is that group-by with the keys as built |
| WrapChain.LayersAreConserved | src/snapshot/WrapChain.cpp:348-354 | layers in chains plus layers counted equal the total, and total plus dropped equal the layers found; no key has two chains |
| WrapChain.LongKeysAreNotGrouped | src/snapshot/WrapChain.cpp:77-103 | any number of layers with one key of 80 or more characters would get a chain each, as long as there is room |

## Left out

- GroupLayers: requires keys shorter than 80 characters; CaptureWrapChains shows that the keys built always are, and LongKeysAreNotGrouped what longer ones would do.
- LinesPartitionSlots: for at most 2^29 slots, beyond which the 32-bit offsets repeat.
- Before: compares strings by byte, where Lua's `<` follows the collation of the locale.
- Stored sessions: a text-mode stream on Windows also ends at a Ctrl-Z character, which is not modelled.
- Fetch: takes whatever follows the prefixes and one REX byte for an opcode with a ModRM byte, as the decoder does. Not so by the SDM: a REX byte before another prefix or REX byte (which is then ignored), VEX prefixes, and instructions without a ModRM byte such as moffs moves, string and stack instructions.
- Beat: a heartbeat carries a stamp at most `delay` older than its store; how long that is, is not modelled (the source stamps a frame before pushing it).
- Weak memory: every atomic access is one sequentially consistent step; a tick's plain writes are separate steps.
- Refreshed: a refresh function is one step of the machine, because nothing but the worker reads or writes what it changes; what `EnumerateInstalled` and its siblings produce, and when they throw, is an input.
- The generation counter `g_cacheGen` and other counters not named above are unbounded.
- A second call of `Start`, `Stop`, and the test-only helpers.
- Reading files and walking directories (`ReadTailBytes`, `LoadConflictDir`, `ScanFile` beyond its comment stripping, `fs.readSync` beyond its zero fill): texts, bytes and lists are inputs.
- simdjson parsing of the conflict database and of summaries: the model starts from parsed records.
- `keepPath`, the UTF-8 codec and the pointer inspection are parameters; results hold for all of them.
- `BuildJsonSidecar`, the crash document, and `CollectStackModules`: their lists are built with the patterns proved for the diagnostic document.
- Texts of groups, report layout, labels and `topModule`: a group's texts are represented by its first summary.
- `ComputeFingerprint` around its core, `ComputeHangId`, `WriteHangReport`, the nested fallback of the handler and process termination.
- The sort in `CollectStuckThreads`, which the maximum does not depend on, and the rows of stuck threads in the report.
- Win32, SEH, DbgHelp and SDK calls, durations, local time and logging.
- Decision tables such as `ShouldHandle`, `CulpritHeuristic`, `SetupIntegrity` and the analyzer's rules, which are settled by reading one branch.
