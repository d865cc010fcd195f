# Verified model of the attestation gate, the portfolio engines and two validators

This project models the algorithmic core of the repository and proves what it is for.

**The system-call filter compiler.** A declarative inventory (per system call, alternative rules that
classify six 64-bit argument words) becomes symbolic code, then an eight-byte-per-instruction classic BPF
program. `CbpfMachine` is the machine, `PolicyCompiler` the compiler, `CompilerCorrectness` the theorem
that compiling and running means the policy for every inventory, `EmittedCode` the static soundness of
whatever is emitted, `PolicyDocument` the canonical policy document, `ShippedPolicies` the two inventories
the gate carries.

**The bounded readers of the same gate.** `StreamReader` and `ArchiveReader` (archive members),
`Enumeration` (paged collections), `JsonDepth` (the structural scan), `Paths` (canonical recorded paths),
`ElfLocate` (objects in the worker image), `BuildGraph` (producers and consumers over three build logs).

**Portfolio allocation.** `Selection` (greedy choice under a sector cap), `WaterFill` (the level found by
doubling and bisection), `Allocation`, `AllocationLaws`, `AllocationEdges` and `PortfolioEngine` (floor,
redistribution, guards, scaling of trades).

**Trade replays.** `PortfolioReplay` and `IntradayReplay`: mutable replays with accounting and concurrency
invariants over whole runs; `IntradayLaws` says what the intraday steps do in prices, sizes and times.

**Two parsers.** `GitStream` and `TreeDigest` (the object stream of the version-control tool and the digest
of an upstream tree), `SchemaValidator` (the validator of broker configurations).

`Bytes`, `Sorting` and `Wrappers` are shared. Code that updates state in the repository is a class or a
method with loops here, and each such method is tied to a function on values; the laws are lemmas about
those functions.

## What the proofs found

- The compiler meets its policy on every record when names are distinct and none is "JA", numbers are
  distinct 32-bit values, and constants of exact and range words are representable. The last condition is
  exact, check by check. Whatever the numbers, constants and names, as long as none is "JA", every jump of the
  program stays inside it and every run returns. A program has to have at most 2^32 instructions for a jump to
  fit its field. An entry without rules falls through to the next entry.
- The comment at lines 3354-3356 of the gate says that the ratio check inside the loop runs before trailing
  bytes are subtracted. The code subtracts first, and the closing check, on the same counts, never fires.
- The ratio of a member is judged while it is read, so whether it is accepted depends on where in the stream
  it expands (`StreamReader.EarlyExpansionRefused`).
- The gate's comment at lines 3176-3181 asks that every archive rule own a reachable violation. With plain
  expected names the rules on directory entries, paths and control characters do not: the name set has been
  compared before. The run-time aggregate bound is unreachable behind the declared one.
- The records bound of the enumeration never decides, and of the four reconciliation conditions only the one
  on the number of records does (`Enumeration.Enumerate`, `Enumeration.Reconcile`).
- The structural scan accepts the empty text.
- The aggregate ceiling on mapped memory never decides: the governed inventory has two loaded segments, and
  each has a ceiling of half as much (`ElfLocate.AggregateNeverDecides`).
- In the located-object check the second disagreement test follows from the first, and the three tests after
  it never decide. Program headers may overlap in memory; the exact condition under which the running image
  still holds the located bytes is `ElfLocate.ImageHoldsObjectIff`.
- The graph function alone fixes the producer of every link input but not whose object the transform
  rewrites (`BuildGraph.StripRewritesOneOf`, and `EachCanBeRewritten` for each alternative). The checks on the
  build log that run before it do: it is always the object of blst-assembly. A link may precede its inputs in
  the union, since producers are the last writers of the whole union.
- A non-positive position limit still selects one candidate (`Selection.NonPositiveLimitTakesOne`). The
  redistribution slack of 1e-14 lets the deficit exceed the capacity by that much, and floor and order break
  exactly then, as they do for the fifty scores of `AllocationEdges.SliverBreaksFloor`. Three of the
  four allocation errors are unreachable; `AllocationEdges.AllocationOutcome` says exactly when the fourth,
  the constraint violation, is raised.
- With the shipped thresholds the break-even rule of the intraday replay has no effect
  (`IntradayReplay.BreakevenNeverTaken`, `ShippedTrailing`) and a trailing stop moves at most once. Only long
  positions ever leave by stop or target, and short ones are marked at nothing until they are closed.
- A list of alternatives in a schema makes the validator pass over every other keyword beside it
  (`SchemaValidator.AlternativesStandAlone`, `SiblingsIgnored`); it also passes over the schema false
  (`FalseAcceptsAll`) and over closed properties with none declared (`ClosedWithoutDeclared`). In one place it
  is stricter than the standard: it refuses a float such as 1.0 where an integer is asked for.

## Model

| member | source | states |
|---|---|---|
| CompilerCorrectness.CompilerCorrect | scripts/crypto_core/qualification/mt4_s3c_trusted_attestation_gate.py:1348-1420 | For every inventory with distinct names, distinct 32-bit numbers and constants the comparison can represent, and for every system call record, running the packed program returns 0x7FFF0000 (allow) exactly when the architecture is 0xC000003E (x86_64), the number is below 0x40000000 (the x32 bit) and some rule of the entry with that number matches all six 64-bit words; in every other case it returns 0x80000000 (kill the process). It never faults and never runs off the end. |
| CompilerCorrectness.CompiledDecision | scripts/crypto_core/qualification/mt4_s3c_trusted_attestation_gate.py:1366-1420 | The same without the conditions on constants and numbers: what the compiled program decides for any named inventory, stated with the truncations the packing really performs. |
| CompilerCorrectness.CompileSucceedsIff | scripts/crypto_core/qualification/mt4_s3c_trusted_attestation_gate.py:1395-1420 | Compilation succeeds exactly when no system call is named "JA"; otherwise the failure is a missing label. The backward-jump and instruction-count failures never happen, and the length is known in advance. |
| EmittedCode.JumpsInBounds | scripts/crypto_core/qualification/mt4_s3c_trusted_attestation_gate.py:1406-1417 | Without a system call named "JA", every jump of the code, executed or not, goes forward and lands inside the program, repeated names included. |
| EmittedCode.CompiledProgramSound | scripts/crypto_core/qualification/mt4_s3c_trusted_attestation_gate.py:1366-1420 | The decoded program passes the static check of a filter: known operation codes, only word loads inside the record, every target of every jump and comparison inside the program, and a return at the end. It holds for repeated names and numbers and for any constants. |
| EmittedCode.EveryRunReturns | scripts/crypto_core/qualification/mt4_s3c_trusted_attestation_gate.py:1366-1420 | On every record such a filter returns ALLOW or KILL, never faults, and executes at most as many instructions as it has. |
| CompilerCorrectness.CheckFaithfulIffRepresentable | scripts/crypto_core/qualification/mt4_s3c_trusted_attestation_gate.py:1348-1363 | One argument check decides its 64-bit meaning on every word exactly when its constants are representable, whatever they are: the high word is only ever compared with zero. |
| CompilerCorrectness.CheckRuns | scripts/crypto_core/qualification/mt4_s3c_trusted_attestation_gate.py:1348-1363 | The emitted check falls through on words it accepts and reaches the failure target on all others, wherever it is placed. |
| CompilerCorrectness.EmitSize | scripts/crypto_core/qualification/mt4_s3c_trusted_attestation_gate.py:1366-1404 | The number of emitted instructions is the closed-form length of the inventory. |
| PolicyCompiler.CodeBuffer.EmitAll | scripts/crypto_core/qualification/mt4_s3c_trusted_attestation_gate.py:1366-1393 | The buffer, appended to step by step, ends up as the specified symbolic code. |
| PolicyCompiler.CodeBuffer.EmitArgumentCheck | scripts/crypto_core/qualification/mt4_s3c_trusted_attestation_gate.py:1348-1363 | One check is appended and nothing already emitted changes. |
| PolicyCompiler.IndexLabels | scripts/crypto_core/qualification/mt4_s3c_trusted_attestation_gate.py:1395-1404 | The first pass computes the address of every label and the instruction count. |
| PolicyCompiler.PackProgram | scripts/crypto_core/qualification/mt4_s3c_trusted_attestation_gate.py:1406-1417 | The second pass packs the resolved program, or stops at the first label it cannot resolve. |
| PolicyCompiler.DeriveProgram | scripts/crypto_core/qualification/mt4_s3c_trusted_attestation_gate.py:1366-1420 | The two-pass assembler computes the specified compilation, failures included. |
| CbpfMachine.UnpackPack | scripts/crypto_core/qualification/mt4_s3c_trusted_attestation_gate.py:1342-1345 | Unpacking a packed instruction gives its fields back, each modulo its width. |
| CbpfMachine.DecodeJoinedPack | scripts/crypto_core/qualification/mt4_s3c_trusted_attestation_gate.py:1406-1420 | The byte string of a program is eight bytes an instruction and decodes to exactly the masked program. |
| CbpfMachine.LoadReadsRecord | scripts/crypto_core/qualification/mt4_s3c_trusted_attestation_gate.py:1148-1151 | The offsets are those of the 64-byte record: loading at any of them reads the four bytes that stand there, number, architecture, instruction pointer and six argument words, each little-endian. |
| ShippedPolicies.ShippedLengths | scripts/crypto_core/qualification/mt4_s3c_trusted_attestation_gate.py:1317-1318 | The two shipped inventories compile to 113 and 400 instructions. |
| ShippedPolicies.ShippedFiltersCorrect | scripts/crypto_core/qualification/mt4_s3c_trusted_attestation_gate.py:1168-1315 | Both shipped inventories meet every condition of the correctness theorem, so their filters decide the shipped policies for every record. |
| ShippedPolicies.InternalFilterAllows | scripts/crypto_core/qualification/mt4_s3c_trusted_attestation_gate.py:1170-1211 | The internal filter in numbers: on x86_64 it allows read(0) of 1 to 184 bytes from descriptor 3, write(1) of 1 to 8 bytes to descriptor 4 and exit_group(231), all unnamed words zero, and kills everything else. |
| ShippedPolicies.OuterFilterAllows | scripts/crypto_core/qualification/mt4_s3c_trusted_attestation_gate.py:1247-1315 | The outer filter in numbers: beside those, close(3) of 0 to 2, execve(59), the two prctl(157) settings, seccomp(317) and close_range(436) from 5 to 4294967295, and nothing else. |
| ShippedPolicies.PreimageLayout | scripts/crypto_core/qualification/mt4_s3c_trusted_attestation_gate.py:3552-3557 | The hashed bytes are the 25 characters of the version, a zero, four bytes that read back as the instruction count, and the program. |
| ShippedPolicies.OuterDocument | scripts/crypto_core/qualification/mt4_s3c_trusted_attestation_gate.py:1247-1315 | The outer document lists its eight calls by name and number in the order they are dispatched, under five reasons. |
| ShippedPolicies.PreimageDeterminesProgram | scripts/crypto_core/qualification/mt4_s3c_trusted_attestation_gate.py:3552-3557 | Two programs have equal digest preimages exactly when they are equal as packed programs. |
| PolicyDocument.CanonicalPartition | scripts/crypto_core/qualification/mt4_s3c_trusted_attestation_gate.py:1423-1449 | Each of the six word indices stands in exactly one of the five fields of the canonical rule, and no other index in any. |
| PolicyDocument.CanonicalPreservesRule | scripts/crypto_core/qualification/mt4_s3c_trusted_attestation_gate.py:1423-1449 | The canonical rule decodes to a rule with the same meaning on every record. |
| PolicyDocument.CanonicalKind | scripts/crypto_core/qualification/mt4_s3c_trusted_attestation_gate.py:1441-1449 | A rule is recorded as of the range kind exactly when it classifies some word as a range. |
| PolicyDocument.EntryDocumentKeeps | scripts/crypto_core/qualification/mt4_s3c_trusted_attestation_gate.py:1452-1464 | The record of an entry keeps its name, number and reason, lists its rules in order and counts them. |
| PolicyDocument.ArgumentRuleToCanonical | scripts/crypto_core/qualification/mt4_s3c_trusted_attestation_gate.py:1423-1449 | The loop over the words builds the specified canonical rule. |
| PolicyDocument.DocumentSorted | scripts/crypto_core/qualification/mt4_s3c_trusted_attestation_gate.py:1452-1465 | The document lists the entries of the inventory, each once, in order of number. |
| PolicyDocument.DeriveSemanticPreimage | scripts/crypto_core/qualification/mt4_s3c_trusted_attestation_gate.py:1452-1483 | The loop and the sort compute the specified document, with every constant field, the number of entries and the reasons, each once, in ascending order. |
| PolicyDocument.ReasonsUnique | scripts/crypto_core/qualification/mt4_s3c_trusted_attestation_gate.py:1479 | Only one list is the ascending reasons of given entries. |
| PolicyDocument.DocumentDeterminesFilter | scripts/crypto_core/qualification/mt4_s3c_trusted_attestation_gate.py:1452-1483 | Recompiling the decoded document gives a filter with the same decision on every record, for any constants and also when numbers repeat, although entries were reordered and irrelevant bounds dropped. |
| PolicyDocument.DecodedMeaning | scripts/crypto_core/qualification/mt4_s3c_trusted_attestation_gate.py:1452-1483 | The decoded document permits exactly what the inventory permits. |
| StreamReader.Account.Take | scripts/crypto_core/qualification/mt4_s3c_trusted_attestation_gate.py:3285-3307 | One production step is counted, and the verdict is what the bounds say about everything counted so far; buffered output never exceeds the member cap. |
| StreamReader.VerdictMeans | scripts/crypto_core/qualification/mt4_s3c_trusted_attestation_gate.py:3285-3307 | The bounds in numbers, and which of them is named when several are broken. |
| StreamReader.LeftoverCountedOnce | scripts/crypto_core/qualification/mt4_s3c_trusted_attestation_gate.py:3338-3345 | Unused input that stands in both buffers at the end of the stream is counted once. |
| StreamReader.StreamStored | scripts/crypto_core/qualification/mt4_s3c_trusted_attestation_gate.py:3309-3317 | The stored branch copies successive slices of the payload; truncation means the compressed range is used up. |
| StreamReader.DeflateReader.Feed | scripts/crypto_core/qualification/mt4_s3c_trusted_attestation_gate.py:3320-3352 | One call of the decompressor: consumption is what was offered minus what came back; the bytes consumed so far followed by the pending ones stay a prefix of the payload, so nothing is counted twice. |
| StreamReader.StreamDeflated | scripts/crypto_core/qualification/mt4_s3c_trusted_attestation_gate.py:3318-3352 | The deflate branch terminates for any decompressor that makes progress; each failure names a bound that is really broken; on success the compressed bytes were each fed once, in order. |
| StreamReader.CloseMember | scripts/crypto_core/qualification/mt4_s3c_trusted_attestation_gate.py:3354-3370 | The closing checks; the restated ratio check never fires. |
| StreamReader.StreamMember | scripts/crypto_core/qualification/mt4_s3c_trusted_attestation_gate.py:3265-3370 | A member is accepted exactly when it can be: stored bytes that are what is declared within every bound, or a run of the decompressor, on the offers the reader would make, that ends the stream, keeps the bounds at every step and yields the declared sizes and checksum. On success the output has the declared size, the ratio is at most 100 and the caps hold. Every failure is explained: truncation means the compressed range is used up, an invalid stream is an answer that was broken, and the compressed-size bound inside the loop never fires. |
| StreamReader.OnlyRun | scripts/crypto_core/qualification/mt4_s3c_trusted_attestation_gate.py:3318-3352 | Reading is deterministic: where one run reads the stream to its end within the bounds, no other run stops anywhere else. |
| StreamReader.EarlyExpansionRefused | scripts/crypto_core/qualification/mt4_s3c_trusted_attestation_gate.py:3285-3307 | The ratio is judged at every step: a member with a total ratio below 100 that expands early is refused. |
| ArchiveReader.PreDecompressionGate | scripts/crypto_core/qualification/mt4_s3c_trusted_attestation_gate.py:3173-3229 | The gate accepts exactly the archives whose declarations satisfy the stated conditions. When the expected names are plain basenames, the directory, path and control-character rules never fire. |
| ArchiveReader.GateAcceptsMeans | scripts/crypto_core/qualification/mt4_s3c_trusted_attestation_gate.py:3186-3229 | The gate accepts at most 16 MiB of archive in which every expected name occurs once and no other, every entry is acceptable, and at most 16 MiB are declared in all. |
| ArchiveReader.EntryAcceptedMeans | scripts/crypto_core/qualification/mt4_s3c_trusted_attestation_gate.py:3199-3226 | What an acceptable entry declares, in characters and numbers. |
| ArchiveReader.LocalHeaderLocated | scripts/crypto_core/qualification/mt4_s3c_trusted_attestation_gate.py:3232-3262 | Wherever a printed local header stands, the member starts right behind its name and extra field if the name is the declared one; another name is a mismatch. |
| ArchiveReader.StoredMemberRoundTrip | scripts/crypto_core/qualification/mt4_s3c_trusted_attestation_gate.py:3232-3317 | A member stored behind a printed header is readable exactly within the caps, and what is extracted is exactly the data that was stored. |
| ArchiveReader.DeflatedMemberExtracted | scripts/crypto_core/qualification/mt4_s3c_trusted_attestation_gate.py:3232-3370 | A deflated member is extracted from its own compressed bytes alone, each fed once and in order. |
| ArchiveReader.ExtractMember | scripts/crypto_core/qualification/mt4_s3c_trusted_attestation_gate.py:3232-3370 | One member, streamed while the declared total bounds the archive: it is extracted exactly when its local header and its stream are acceptable, and the aggregate bound is never what stops it. |
| ArchiveReader.ExtractArtifact | scripts/crypto_core/qualification/mt4_s3c_trusted_attestation_gate.py:3373-3403 | Extraction succeeds exactly when the gate accepts and every member is acceptable after those before it. Then exactly the expected names are extracted, each body is what its member declares, was produced by feeding its own compressed bytes once, and comes with its own digest. Whatever the decompressor answers, the run-time aggregate bound never fires after the gate has passed. |
| Enumeration.AddItems | scripts/crypto_core/qualification/mt4_s3c_trusted_attestation_gate.py:3039-3047 | A page is added exactly when all its items are records with identifiers not seen before. |
| Enumeration.ReadPage | scripts/crypto_core/qualification/mt4_s3c_trusted_attestation_gate.py:3016-3049 | A page that is refused proves that the server offers no complete collection at all. |
| Enumeration.Reconcile | scripts/crypto_core/qualification/mt4_s3c_trusted_attestation_gate.py:3056-3087 | Reconciliation passes exactly when all totals present agree and, for a governed endpoint, equal the number of records, no identifier repeats and a short page ended the reading. After an enumeration, which has refused the last two, only the totals decide. |
| Enumeration.Enumerate | scripts/crypto_core/qualification/mt4_s3c_trusted_attestation_gate.py:3004-3064 | On any server the enumeration terminates; it succeeds exactly when full pages followed by a short one form a consistent collection within fifty pages, and returns exactly its records. It reports a bound exactly when fifty sound full pages came back, so the bound on records is never what stops it. |
| Enumeration.CompleteCollection | scripts/crypto_core/qualification/mt4_s3c_trusted_attestation_gate.py:3004-3087 | What a complete collection is, in numbers: records only, none twice, a hundred a page but for the last, and totals between 0 and 5000 that agree and, if governed, count the records. |
| Enumeration.HonestCompleteIff | scripts/crypto_core/qualification/mt4_s3c_trusted_attestation_gate.py:3004-3087 | On a server that pages an honest collection it succeeds exactly when there are at most 4999 records, and returns them in order. |
| JsonDepth.JsonStructureStatus | scripts/crypto_core/qualification/mt4_s3c_trusted_attestation_gate.py:2827-2858 | The loop over the characters computes the specified scan, which accepts the empty text. |
| JsonDepth.ScanExactOnSpelled | scripts/crypto_core/qualification/mt4_s3c_trusted_attestation_gate.py:2827-2858 | For every document in every legal spelling, with any white space and any choice of escapes, the scan accepts exactly when container nesting is at most 32 and otherwise reports excessive depth (RFC 8259, sections 2 to 7). |
| JsonDepth.TruncatedIsUnbalanced | scripts/crypto_core/qualification/mt4_s3c_trusted_attestation_gate.py:2827-2858 | Cut anywhere before its end, a container within the bound is reported as unbalanced, never as too deep, however it is spelled. |
| Paths.CanonicalIffProperSegments | scripts/crypto_core/qualification/mt4_s3c_trusted_attestation_gate.py:669-686 | The recogniser accepts exactly the paths joined from a non-empty list of segments none of which is empty, "." or "..". |
| Paths.CanonicalIffResolved | scripts/crypto_core/qualification/mt4_s3c_trusted_attestation_gate.py:669-686 | Apart from the root, it accepts exactly the paths that resolving dot segments leaves unchanged. |
| Paths.RootPrefixIsContainment | scripts/crypto_core/qualification/mt4_s3c_trusted_attestation_gate.py:603-607 | On accepted paths, starting with a root and a slash is the same as lying below that root segment by segment, also after resolution. |
| Paths.RootPrefixAloneEscapes | scripts/crypto_core/qualification/mt4_s3c_trusted_attestation_gate.py:669-678 | Without canonicality the prefix says nothing: below every root there is a path with that prefix that resolves to any given target. |
| ElfLocate.CheckSegments | scripts/crypto_core/qualification/mt4_s3c_trusted_attestation_gate.py:1958-1993 | The header loop accepts exactly the segment tables that satisfy the policy and returns the mapped total. |
| ElfLocate.AcceptedHeader | scripts/crypto_core/qualification/mt4_s3c_trusted_attestation_gate.py:1958-1993 | In numbers: three headers, the executable, the writable and the stack one, with file bytes inside the image, memory below 2 to the 64, and at most 16 MiB of whole pages each. |
| ElfLocate.AggregateNeverDecides | scripts/crypto_core/qualification/mt4_s3c_trusted_attestation_gate.py:1985-1990 | With the governed inventory the aggregate ceiling follows from the ceiling of each segment and never decides. |
| ElfLocate.LocateSucceedsIff | scripts/crypto_core/qualification/mt4_s3c_trusted_attestation_gate.py:2061-2122 | An object sitting in one read-only segment is located exactly when its section and that segment have the same displacement between file offset and address. |
| ElfLocate.LateChecksNeverDecide | scripts/crypto_core/qualification/mt4_s3c_trusted_attestation_gate.py:2109-2121 | The second disagreement check, both extent checks and the bounded read never refuse an image whose headers were accepted. |
| ElfLocate.ShiftCaughtIff | scripts/crypto_core/qualification/mt4_s3c_trusted_attestation_gate.py:2061-2068 | Shifting the file offsets of section and segment is noticed exactly when the two shifts differ; a shift of one alone always is. |
| ElfLocate.PagesKeepDisplacement | scripts/crypto_core/qualification/mt4_s3c_trusted_attestation_gate.py:1970-1974 | Alignment and congruence make page-wise mapping put each file byte at the address the header gives it. |
| ElfLocate.LocatedBytesAreMapped | scripts/crypto_core/qualification/mt4_s3c_trusted_attestation_gate.py:2061-2122 | The bytes returned are those the containing segment maps at the addresses of the object, inside both file extents (System V gABI, chapter 5, program loading). |
| ElfLocate.LocatedInTextSegment | scripts/crypto_core/qualification/mt4_s3c_trusted_attestation_gate.py:1815-1819 | Under the accepted inventory every located object lies in the one readable and executable segment. |
| ElfLocate.ImageHoldsObjectIff | scripts/crypto_core/qualification/mt4_s3c_trusted_attestation_gate.py:1991-1993 | The running image holds those bytes exactly when no segment mapped later replaces one of the pages: the header policy orders segments but does not keep them apart. |
| ElfLocate.AcceptedWithOverlap | scripts/crypto_core/qualification/mt4_s3c_trusted_attestation_gate.py:1991-1993 | An accepted image, with a located object, in which it does. |
| BuildGraph.CollectProducers | scripts/crypto_core/qualification/mt4_s3c_trusted_attestation_gate.py:983-1016 | The producer loop succeeds exactly when every compile and link writes a new identity and every transform effectively rewrites the one it consumes; the map then gives the last writer of each identity. |
| BuildGraph.CheckLinks | scripts/crypto_core/qualification/mt4_s3c_trusted_attestation_gate.py:1018-1032 | The link loop passes exactly when the inputs of each link were last written by the operations it requires, in order. |
| BuildGraph.RequireCompleteBuildGraph | scripts/crypto_core/qualification/mt4_s3c_trusted_attestation_gate.py:924-1033 | The union of the three logs is accepted exactly when it is the complete governed graph, and then counts 21 operations. |
| BuildGraph.KindCounts | scripts/crypto_core/qualification/mt4_s3c_trusted_attestation_gate.py:960-976 | Given the identifier and kind checks, there are always fifteen compiles, five links and one transform, so the count checks never fire. |
| BuildGraph.AcceptedRecord | scripts/crypto_core/qualification/mt4_s3c_trusted_attestation_gate.py:770-810 | Every record of an accepted union stands in the log of its own job, has inputs and writes an identity of that job; the transform rewrites what it consumes, and its digests are 64 hexadecimal digits each and differ. |
| BuildGraph.IdsGovernedIff | scripts/crypto_core/qualification/mt4_s3c_trusted_attestation_gate.py:947-959 | Comparing the sorted identifiers with the governed ones holds exactly when the union records twenty-one different governed identifiers. |
| BuildGraph.OutputsDistinct | scripts/crypto_core/qualification/mt4_s3c_trusted_attestation_gate.py:1013-1016 | In an accepted union no two compiles or links share an output. |
| BuildGraph.LinkInputsFromProducers | scripts/crypto_core/qualification/mt4_s3c_trusted_attestation_gate.py:1018-1032 | The k-th input of a link was written by its k-th required operation, which is the last in the whole union to write it. |
| BuildGraph.LinkInputsByName | scripts/crypto_core/qualification/mt4_s3c_trusted_attestation_gate.py:509-522 | By the names on record: which operation wrote each input of each link. |
| BuildGraph.ConsumedOutputsFinal | scripts/crypto_core/qualification/mt4_s3c_trusted_attestation_gate.py:1018-1032 | What a required operation wrote is never rewritten. |
| BuildGraph.InventoryIffRecorded | scripts/crypto_core/qualification/mt4_s3c_trusted_attestation_gate.py:820-897 | The checks on the build log that precede the graph (no identifier twice, exactly the governed set, recorded in the order of the names) fix the sequence of its thirteen identifiers. |
| BuildGraph.StripRewritesBlstAssembly | scripts/crypto_core/qualification/mt4_s3c_trusted_attestation_gate.py:991-1012 | Under those checks the transform is recorded second, consumes and rewrites the object of blst-assembly, which is recorded first, and nothing else writes that object or transforms anything. |
| BuildGraph.RecordedUnionAccepted | scripts/crypto_core/qualification/mt4_s3c_trusted_attestation_gate.py:479-545 | The graph and those checks can be met together: the governed logs, in their recorded order, pass all of them. |
| BuildGraph.StripRewritesOneOf | scripts/crypto_core/qualification/mt4_s3c_trusted_attestation_gate.py:991-1012 | Of the graph function alone: the transform rewrites the output of exactly one operation: blst-assembly, observer-probe or a link. |
| Selection.SelectCandidates | src/bist_core/portfolio_engine_v2.py:34-53 | The sorted greedy loop computes the specified selection. |
| Selection.SelectionOptimalIff | src/bist_core/portfolio_engine_v2.py:34-53 | For a positive limit the selection respects limit and sector cap, and no such choice of candidates has a larger total score if and only if the candidates with non-negative scores fill all positions under the sector cap, or fill the sector of every other candidate. |
| WaterFill.MassMonotoneLipschitz | src/bist_core/portfolio_engine_v2.py:82-83 | The mass is non-decreasing in the level and grows by at most the level times the sum of the weights. |
| WaterFill.MassConcave | src/bist_core/portfolio_engine_v2.py:82-83 | The mass is concave: a larger level holds at most proportionally more. |
| WaterFill.DoublingTerminatesIff | src/bist_core/portfolio_engine_v2.py:92-94 | Some doubling reaches the target exactly when the caps of the positive weights together reach it; otherwise the loop would not end. |
| WaterFill.ComputeLevel | src/bist_core/portfolio_engine_v2.py:88-102 | The doubling and the 64 bisections terminate and compute the specified level. |
| WaterFill.LevelFillsTarget | src/bist_core/portfolio_engine_v2.py:88-102 | Whatever the weights, at the computed level the mass is at least 1 - 1e-15 and exceeds 1 by less than the 63rd negative power of two; if no doubling was needed it does not exceed 1. |
| AllocationLaws.DropsIff | src/bist_core/portfolio_engine_v2.py:117-131 | The drop branch is taken exactly when one floor for every positive weight would exceed the mass; at the water-filled level it needs more than fifty positive weights. |
| AllocationLaws.FilledInProportion | src/bist_core/portfolio_engine_v2.py:66-105 | Before the floor, the weights are the scores in proportion, each cut at 40 percent, or 75 percent of two. |
| AllocationLaws.LargeWeightsStand | src/bist_core/portfolio_engine_v2.py:103-172 | If no such weight lies between zero and 2 percent, they are the weights returned. |
| AllocationLaws.RedistributionSound | src/bist_core/portfolio_engine_v2.py:117-129 | Redistribution preserves the sum; it keeps every weight between floor and cap, and the order of the weights, exactly when the deficit does not exceed the capacity. The slack of 1e-14 admits a sliver where it does. |
| AllocationEdges.SliverBreaksFloor | src/bist_core/portfolio_engine_v2.py:103-129 | Fifty scores in that sliver: the allocation is accepted, and the best score receives less than the floor and less than every other. |
| AllocationLaws.DroppingSound | src/bist_core/portfolio_engine_v2.py:130-158 | Dropping always leaves positions and a positive total, so its two errors never occur; what stays is rescaled in proportion and sums to one, and whoever is dropped weighed no more than whoever is kept. |
| AllocationEdges.DropGuardIff | src/bist_core/portfolio_engine_v2.py:130-172 | After dropping, the closing guard fires exactly when some weight exceeds the cap and its tolerance times the mass that is kept, and never over the sum. |
| AllocationEdges.CrowdedRefused | src/bist_core/portfolio_engine_v2.py:130-172 | Sixty scores that are refused this way: ten positions are dropped, 0.99 is kept and rescaling lifts the largest share over the cap. |
| AllocationLaws.SmallPortfolioRedistributes | src/bist_core/portfolio_engine_v2.py:103-160 | With at most 49 positions the sum, the floor, the cap and the order survive. |
| AllocationLaws.AllocationSucceeds | src/bist_core/portfolio_engine_v2.py:58-172 | For up to 49 positive scores, however far apart, neither closing guard fires and the sum is within 1e-15 of one; with two or more, every weight is between floor and cap, and the order follows the scores. |
| AllocationEdges.AllocationOutcome | src/bist_core/portfolio_engine_v2.py:58-172 | For any scores on which the doubling ends, zeros included, the allocation fails only by the constraint violation, and exactly when the filled weights fall short of one floor for each positive one by more than the slack and some floored weight exceeds the cap and its tolerance times the mass kept after dropping; that takes more than fifty positive scores. In every other case, the sliver of the slack included, it succeeds. |
| PortfolioEngine.ComputeWeights | src/bist_core/portfolio_engine_v2.py:58-172 | The loops over the weights compute the specified weights or error. |
| PortfolioEngine.ComputePortfolioAllocation | src/bist_core/portfolio_engine_v2.py:27-179 | Each share carries the symbol and the weight of the candidate selected at its place. |
| PortfolioEngine.BuildCandidates | src/bist_core/portfolio_engine_v2.py:189-234 | The first row whose edge or confidence cannot be used stops everything, with the error of what is wrong with it; otherwise exactly the rows above both floors become candidates. |
| PortfolioEngine.AcceptableIff | src/bist_core/portfolio_engine_v2.py:190-205 | Rows are acceptable exactly when every one with a symbol has a number for its edge and one for its confidence; which error the first other one raises. |
| PortfolioEngine.GatedIff | src/bist_core/portfolio_engine_v2.py:189-234 | A candidate is the reading of a row with a symbol, at least 0.60 edge and 0.55 confidence, and every such row is one. |
| PortfolioEngine.GateMakesAllocationSucceed | src/bist_core/portfolio_engine_v2.py:206-236 | Behind the hard gate, whatever edges and confidences passed it, the doubling loop ends; up to a limit of 50 no guard fires, and beyond it only the constraint violation can. Up to 49 the weights keep sum, floor and cap, and a symbol whose power of the edge times 0.3 plus 0.7 of its confidence is larger never gets a smaller share; a limit of zero or less counts as one. |
| PortfolioEngine.ScaleTrades | src/bist_core/portfolio_engine_v2.py:249-264 | A trade of an allocated symbol is scaled once however often the scaling is repeated; every other trade is zeroed. |
| PortfolioEngine.ApplyPortfolio | src/bist_core/portfolio_engine_v2.py:182-266 | On failure no trade changes; on success the allocation is returned, and every trade is scaled once by the weight listed last for its symbol, or zeroed. |
| PortfolioReplay.CheckConstraints | src/bist_core/backtest/portfolio_backtest.py:405-449 | The first constraint broken is the one reported. |
| PortfolioReplay.FiguresAdd | src/bist_core/backtest/portfolio_backtest.py:411-433 | Counts, notionals and risks of open positions are additive, so they are those of the positions one by one. |
| PortfolioReplay.AcceptedIff | src/bist_core/backtest/portfolio_backtest.py:219-372 | Exactly when a trade is accepted, what it changes, and with which reason it is rejected otherwise, in numbers. |
| PortfolioReplay.PnlInShares | src/bist_core/backtest/portfolio_backtest.py:330-342 | Without rounding, the profit of a trade is additive in the shares it is given and equals the recorded profit at the recorded shares. |
| PortfolioReplay.PnlFromPrices | src/bist_core/backtest/portfolio_backtest.py:330-342 | A trade recorded without shares or profit earns its move in price less 0.72 percent of what was bought, per share. |
| PortfolioReplay.Replay.Take | src/bist_core/backtest/portfolio_backtest.py:219-372 | One trade updates the state as specified: exits, day roll-over, limits, sizing and the account. |
| PortfolioReplay.Run | src/bist_core/backtest/portfolio_backtest.py:202-372 | The whole replay computes the specified outcome, whatever order the trades arrive in. |
| PortfolioReplay.OpenIsRunning | src/bist_core/backtest/portfolio_backtest.py:233-241 | At every step the open list is exactly the accepted trades whose exit lies after the current entry. |
| PortfolioReplay.ReplayConcurrencyBound | src/bist_core/backtest/portfolio_backtest.py:405-420 | At every instant at most the allowed number of accepted trades, and at most two of one symbol, are running. |
| PortfolioReplay.ReplayExposureBound | src/bist_core/backtest/portfolio_backtest.py:422-435 | Whenever a trade was accepted with positive equity, the others still running held at most 0.65 of it and those of its sector at most 0.20; so with a position of at most 15 percent the total stays within 0.80 and the sector within 0.35. |
| PortfolioReplay.ReplayBalances | src/bist_core/backtest/portfolio_backtest.py:206-372 | At the end equity is the initial one plus the accepted profits, the peak is the maximum of its history, the daily figure is the profit of the current day, and every trade was accepted or rejected exactly once. |
| IntradayReplay.Position.Close | src/bist_core/backtest/intraday_backtest.py:80-104 | Closing records price, time, reason, cost-adjusted profit and its multiple of the risk. |
| IntradayReplay.Position.Track | src/bist_core/backtest/intraday_backtest.py:257-305 | One bar updates the high and the stop and closes the position at stop, target or holding limit, in that order. |
| IntradayReplay.StopMovesOnce | src/bist_core/backtest/intraday_backtest.py:268-279 | Over any holding period the stop never falls; whenever the trailing threshold is at least the trailing distance, as shipped (ShippedTrailing), it moves at most once, to the entry price or beyond. |
| IntradayReplay.ExitFillsInBar | src/bist_core/backtest/intraday_backtest.py:281-296 | A stop never fills above the stop price and a target never below the target price; both fill between the low and the high of the bar that triggers them if its open lies there. |
| IntradayReplay.PopAll | src/bist_core/backtest/intraday_backtest.py:307-310 | Popping the noted indices from the highest down leaves exactly the open positions in order and yields the closed ones, last first. |
| IntradayReplay.Replay.CheckExits | src/bist_core/backtest/intraday_backtest.py:251-310 | The exits of one bar, on the position objects, compute the specified state. |
| IntradayReplay.Replay.ExecutePending | src/bist_core/backtest/intraday_backtest.py:312-359 | The pending signal is executed or rejected on the next bar and never waits. |
| IntradayReplay.Replay.ProcessBar | src/bist_core/backtest/intraday_backtest.py:238-395 | One pass of the event loop computes the specified state. |
| IntradayReplay.Run | src/bist_core/backtest/intraday_backtest.py:203-404 | The whole replay computes the specified final state. |
| IntradayReplay.ReplayKeeps | src/bist_core/backtest/intraday_backtest.py:238-395 | After every bar, whatever the bars hold, equity is the initial one plus the recorded profits; generated signals are the executed, the rejected and the pending ones; every executed signal is recorded once or still open, within the limit; every recorded exit happened at a bar, and inside it if its open lies inside. |
| IntradayReplay.FinishedKeeps | src/bist_core/backtest/intraday_backtest.py:397-404 | At the end, for any bars, every executed signal has exactly one record and the account is conserved. |
| IntradayReplay.OppositePositionsLoseCosts | src/bist_core/backtest/intraday_backtest.py:80-99 | Before rounding, a long and a short position entered and closed alike together lose exactly the costs of both. |
| IntradayLaws.ProfitOfMove | src/bist_core/backtest/intraday_backtest.py:87-99 | Each unit of price is worth the size to a long position and costs it to a short one. |
| IntradayLaws.FlatTradeCosts | src/bist_core/backtest/intraday_backtest.py:87-99 | Closed at its entry price, a position loses exactly its costs in basis points. |
| IntradayLaws.RecordedProfit | src/bist_core/backtest/intraday_backtest.py:80-104 | The recorded profit is the exact one, rounded; price, time and reason are recorded as given and nothing else changes. |
| IntradayLaws.MultipleOfRisk | src/bist_core/backtest/intraday_backtest.py:100-104 | The multiple times the risk is the profit; without risk it is left alone. |
| IntradayLaws.TrailingRule | src/bist_core/backtest/intraday_backtest.py:263-279 | How the high and the stop follow a bar, in units of the initial risk. |
| IntradayLaws.ExitRule | src/bist_core/backtest/intraday_backtest.py:281-305 | Exactly when a position leaves at its stop, its target or the holding limit, and at which price. |
| IntradayLaws.EntryRule | src/bist_core/backtest/intraday_backtest.py:312-359 | Exactly when a pending signal is executed; the position takes its terms from the fill and its size is the largest within the fill and a tenth of the equity. |
| IntradayLaws.WorthIsClosingProfit | src/bist_core/backtest/intraday_backtest.py:376-383 | Open long positions are marked at what closing them would earn before costs; open short ones are marked at nothing. |
| IntradayLaws.EndRule | src/bist_core/backtest/intraday_backtest.py:397-404 | At the end every position still open is closed at the close of the last bar. |
| IntradayLaws.BarOrder | src/bist_core/backtest/intraday_backtest.py:238-374 | Exits free room and equity before the entry, the scan comes after it and sees the bars before, and the bar is remembered last. |
| IntradayLaws.BarMarks | src/bist_core/backtest/intraday_backtest.py:376-395 | The bar marks the account at its close: the peak follows, and one point joins the curve. |
| IntradayLaws.DrawdownIsShare | src/bist_core/backtest/intraday_backtest.py:384-387 | The drawdown is the share of the peak that is lost. |
| IntradayReplay.PeakNeverFalls | src/bist_core/backtest/intraday_backtest.py:376-387 | The peak never falls and is never below the marked account; the recorded drawdown is their rounded relative distance, which is never negative. |
| IntradayReplay.BufferIsLastBars | src/bist_core/backtest/intraday_backtest.py:361-374 | The scanner sees the last 200 bars before the current one and never the current one; what is pending is what the latest scan said. |
| GitStream.ReadBlobsPrefix | scripts/crypto_core/qualification/mt4_blst_dependency_admission_manifest.py:174-189 | Of a printed object stream, cut or continued anywhere, every payload is recovered when no more than the final newline is missing, and the parser refuses otherwise. Payloads are arbitrary bytes. |
| GitStream.DecimalRoundTrip | scripts/crypto_core/qualification/mt4_blst_dependency_admission_manifest.py:183 | Reading a printed decimal size gives it back, so the reader the theorem asks for exists. |
| GitStream.BatchBlobDigests | scripts/crypto_core/qualification/mt4_blst_dependency_admission_manifest.py:160-192 | The loop over the requested objects computes the specified digests; the closing count check never fires. |
| GitStream.AskedInOrder | scripts/crypto_core/qualification/mt4_blst_dependency_admission_manifest.py:162-166 | The distinct identifiers are asked for once each, in the order of their bytes. |
| GitStream.BatchRefusesIff | scripts/crypto_core/qualification/mt4_blst_dependency_admission_manifest.py:162-168 | The request is refused as not plain exactly when some identifier holds a byte from 128 up. |
| TreeDigest.ListingRoundTrip | scripts/crypto_core/qualification/mt4_blst_dependency_admission_manifest.py:115-129 | The NUL-delimited listing is read back whatever its paths contain. |
| TreeDigest.RecordRead | scripts/crypto_core/qualification/mt4_blst_dependency_admission_manifest.py:115-129 | Every record is read at its first tab: three words before it, the second blob or commit, and whatever stands behind it as the path; which error any other record raises. |
| TreeDigest.ListingRefused | scripts/crypto_core/qualification/mt4_blst_dependency_admission_manifest.py:129-135 | A listing without entries is refused, and so is one in which a path stands twice. |
| TreeDigest.FramingUnique | scripts/crypto_core/qualification/mt4_blst_dependency_admission_manifest.py:144-156 | The framing of mode, type, path and identity is uniquely decodable. |
| TreeDigest.InventoryInPathOrder | scripts/crypto_core/qualification/mt4_blst_dependency_admission_manifest.py:133-136 | The entries are bound in the order of the bytes of their paths. |
| TreeDigest.IdentityByKind | scripts/crypto_core/qualification/mt4_blst_dependency_admission_manifest.py:145-148 | A blob is bound to the digest of its content, a submodule to its identifier behind "submodule:". |
| TreeDigest.UpstreamSourceTreeDigest | scripts/crypto_core/qualification/mt4_blst_dependency_admission_manifest.py:107-157 | Reading, sorting, batching and feeding the digest compute the specified result, failures included. |
| TreeDigest.HonestDigest | scripts/crypto_core/qualification/mt4_blst_dependency_admission_manifest.py:107-157 | On an honest store the result is the digest of the inventory in path order, each blob bound to the digest of its content. |
| TreeDigest.PreimageDeterminesInventory | scripts/crypto_core/qualification/mt4_blst_dependency_admission_manifest.py:142-157 | Equal preimages come from checkouts with the same paths, modes, types and content identities. |
| TreeDigest.DigestIgnoresOrder | scripts/crypto_core/qualification/mt4_blst_dependency_admission_manifest.py:133-136 | The order in which the tree is listed does not matter. |
| SchemaValidator.Validate | src/bist_core/broker_config_schema.py:31-82 | The recursive validator terminates on the size of the schema and reports the specified violations in order. |
| SchemaValidator.NoErrorsIffConforms | src/bist_core/broker_config_schema.py:31-82 | Nothing is reported exactly when the instance satisfies the declarative reading of the schema. |
| SchemaValidator.TypeOkIff | src/bist_core/broker_config_schema.py:14-28 | The type tests agree with the table of the types each kind of document has. |
| SchemaValidator.BrokerConfigAccepted | configs/broker_config.schema.json:1-26 | Against the shipped schema nothing is reported exactly for a dictionary of a broker, notes and a provider, all texts, and an integer schema version, with no other key. |
| SchemaValidator.ReportsNothingIffReading | src/bist_core/broker_config_schema.py:31-82 | For every schema, nothing is reported exactly when the instance meets, in the standard meaning but with integral floats not integers, the schema reduced to what the validator reads of it. Where the two readings of integers cannot differ, that is the standard meaning itself. |
| SchemaValidator.IntegralFloatRefused | src/bist_core/broker_config_schema.py:14-28 | Where they differ: every integral float is refused where an integer is asked for, although the standard admits it (JSON Schema 2020-12 Validation, section 6.1.1). |
| SchemaValidator.StandardConforms | src/bist_core/broker_config_schema.py:31-82 | What the standard reading accepts is not refused, if the instance has no integral float or the schema asks for no integer. |
| SchemaValidator.ReportsNothingIffStandard | src/bist_core/broker_config_schema.py:31-82 | Under the same condition, and on schemas without alternatives beside other keywords, the schema false, or closed properties with none declared, nothing is reported exactly when the standard reading accepts (JSON Schema 2020-12 Core, section 10.2.1.2 for alternatives). |
| SchemaValidator.ViolationsLocated | src/bist_core/broker_config_schema.py:31-82 | Every reported path extends the given one and leads to the part of the instance the report speaks of. |

## Left out

- CompilerCorrectness.CompilerCorrect: requires distinct names and numbers and representable constants, because labels live in a dictionary, the first entry of a number wins and the high word is only compared with zero; CompileSucceedsIff and CheckFaithfulIffRepresentable give the exact conditions for names and constants.
- JsonDepth.ScanExactOnSpelled: speaks of texts that spell a document; on other texts only the scan itself is specified.
- StreamReader.StreamMember: takes the checksum and the decompressor as functions; SHA-256, CRC-32 and inflate are not part of this model. Termination of the deflate branch asks that a call which neither ends nor fails uses input or produces output.
- ArchiveReader.ExtractArtifact: takes the central directory as already parsed records, and the digest as a function of the body.
- Enumeration.Enumerate: takes the server as a function from page numbers to answers; requests, redirects and credentials are not modelled.
- ElfLocate.CheckSegments: works on parsed segment, section and symbol records; the bounded reads that build them, the null-symbol check and the undefined-symbol check are not modelled. "No bit but one is set" stands for the bit test on the alignment.
- ElfLocate.ImageHoldsObjectIff: models a loader that maps segments in table order in whole pages of 4096 bytes and zero-fills beyond the file size.
- BuildGraph.RequireCompleteBuildGraph: takes identifiers, jobs and output identities as already split; of the execution-instance contract only the job, the non-empty inputs, the scope of the output and the transform digests are modelled, not tools, arguments, directories or dependency classes.
- BuildGraph.InventoryIffRecorded: of the checks on the build log only those on the identifiers are modelled, not the libraries, the link flags and the declared count and order.
- AllocationLaws.AllocationSucceeds: arithmetic is over the reals, so floating-point rounding is not modelled; from 50 scores on, where the floor can fail, AllocationEdges.AllocationOutcome says what happens.
- PortfolioEngine.ComputePortfolioAllocation: the power 2.2 is an arbitrary function of the edge, and scores whose caps cannot reach the target are excluded because the doubling loop would not end on them (WaterFill.DoublingTerminatesIff).
- PortfolioEngine.GateMakesAllocationSucceed: asks that the powers of gated edges are positive, since the power is an arbitrary function.
- PortfolioReplay.Run: sizing, drawdown, daily-loss and risk limits, sectors, correlation and rounding are arbitrary functions; regimes, the equity curve and metrics are not modelled.
- IntradayReplay.Run: the scanner and the fill model are arbitrary functions, the scanner of the bar index and the buffer it is given; events, previous closes, metrics and per-edge statistics are not modelled, nor are the descriptive fields of a position.
- IntradayReplay.Replay.ProcessBar: does not pass previous closes to the scanner, which is a function of the bar index and the buffer.
- PolicyDocument.DocumentDeterminesFilter: requires distinct names, 32-bit numbers and at most 2^32 instructions: labels live in a dictionary, and a larger number is cut to 32 bits in the program but sorted at full size in the document.
- PortfolioEngine.BuildCandidates: a confidence that is not a number, which passes the gate because comparisons with it are false, and infinite values are not modelled.
- PortfolioReplay.ReplayExposureBound: the sizing is an arbitrary function, so that a position holds at most 15 percent is a condition; the minimum position of the sizing engine can exceed it.
- PortfolioReplay.Replay.Take: leaves out the equity curve and the regime bookkeeping of each trade.
- Enumeration.Reconcile: takes the set of identifiers as that of the records read, as the enumeration builds it.
- IntradayReplay.ExitFillsInBar: bounds a fill by the bar only when the open of the bar lies between its low and its high, which the bar class does not check.
- GitStream.ReadBlobsPrefix: asks the number reader only to read plain decimals; what else the language reads as a number is unconstrained.
- TreeDigest.FramingUnique: asks for modes, types and paths without NUL and identities without newline, which the listing and the digests provide.
- SchemaValidator.ReportsNothingIffReading: the standard reading is of the keywords the validator knows; violation messages are classes and paths are lists of steps.
- SchemaValidator.ReportsNothingIffStandard: asks for a supported schema and that the readings of integers cannot differ; ReportsNothingIffReading holds without either.
- Field-by-field comparisons of records, receipts and manifests, the command line, the environment, file and network access: long but local, or without algorithmic content.
- Regime thresholds, edge heuristics, metrics, reports and exports: tables and formatting.
