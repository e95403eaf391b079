# SpecGate capture: a verified model

SpecGate records the operations a test runs as deterministic traces. A Rust runtime and a C# runtime produce
captures, a weaver rewrites C# methods so that they report what they did, a command line tool decides which
captures count as evidence, and a registry describes the components. This project models the logic those parts
depend on and proves what the design promises of it.

`dafny verify dfyconfig.toml` checks everything. The files, in reading order:

- **Shared.** `Wrappers`: the option type.
- **Values.** `Utf8Order`, `FloatOrder`, `Values`, `ValueCollections`: the order of semantic values, computed from
  UTF-16 code units and raw float bits, is one total order shared by both producers, and sets and maps are built
  canonically. `SemanticEquality`, `CollectionProjector`: a canonical form decides equality of typed values up to
  the order of bags, sets and unordered maps.
- **Sessions.** `CaptureModel`, `SessionSpec`, `SessionLaws`: one session as a state machine and the laws of all its
  runs. `CSharpSession`, `RustCapture`: the two producers as classes over that state machine. `DrivenSession`: the
  C# object under any list of calls. `CaptureLog`: every field of every capture read off the actions of its run;
  `ScopeLog`: the same for runs of Rust scopes. `RustCollector`, `ScopeNesting`: the nesting of Rust scopes, step by step and
  over whole runs. `Validator`: every capture a run can produce passes the trace rules.
- **Persistence.** `Settlement`, `Persistence`: sidecar writes under two locks as interleaved thread steps, a sticky
  failure, and the rules that turn a sidecar into evidence. `PersistenceProgress`: that what is recorded does get
  written, and what an exit leaves behind.
- **Filtering and registries.** `CaptureFilter`, `KeyedOrder`, `RegistryMerge`: a one-pass subtree filter is a
  transitive closure, an incremental merge is a sorted union.
- **Weaver.** `IlMachine`, `Weaver`, `WovenLayout`, `WovenMeaning`, `WovenRuns`, `WovenOutcomes`: a small machine for
  instruction lists with handlers, the in-place rewrite, and the proof that it preserves meaning.
- **Wire form.** `DecimalText`, `FloatFormat`, `JsonText`, `JsonReader`, `CaptureJson`, `WireFormat`, `RoundTrip`,
  `Readers`: the flag-driven JSON writer, the float formatter, a reader, what any reader of doubles makes of the written
  text, and when that is the value that was written.
- **Native inputs.** `NativeCodec`, `InputFolding`: projection and decoding of native values, and the folding of
  construction inputs.

Strings are sequences of UTF-16 code units, a double is the signed 64-bit reading of its bits, and integers are
unbounded except where a width is written out (`Long`, `ULong`, the logical clock's `MAX_TIME`, `i32`, `u32`).

What is taken from outside is a parameter: the meaning of ordinary IL instructions (`IlMachine.Code`), the
conversion between doubles and decimal digits (`CaptureJson.Doubles`, of which only the writing of digits is assumed),
the conversion between `f32` and `f64` (`NativeCodec.Singles`, of which nothing is assumed), the resolution of type
names (`InputFolding.Table`), and, in `Persistence`, the scheduler and the success or failure of each write.

Five places where a promise needs a premise, each with the input that breaks it:

- A woven method keeps returning exactly when every handler of the original body ends at an instruction of the body
  (`ReturnsExactlyWhenClosed`). A handler without an end grows over the appended code, and the one remaining `ret`
  then lies inside it (`OpenBodyIsBroken`). A throwing call needs less: its exception, reported once, leaves the method
  exactly when no try block without an end takes it (`WovenThrows`); one that does catches an exception that was never
  thrown inside it (`OpenTryCatches`).
- The intervals of a capture nest exactly when no operation's end is recorded while a child of it is open
  (`CaptureIntervalsNest`, for every run); in a run that is not poisoned that is the last-in first-out condition
  (`LifoCapturesNest`). Two runs break it: ending the outer of two operations first, after which the current operation
  is one that has ended (`OutOfOrderEndsBreakNesting`), and dropping a synchronous scope without a completion, which
  poisons the session but leaves the operation open (`LostScopeBreaksNesting`). Step by step, the open operations stay
  the ancestor chain of the current one exactly under `StepNests` (`NestingStep`, `NestingRuns`).
- Giving schemas again leaves the registry unchanged if and only if every component that was given once and is now
  repeated had its dependencies sorted (`RepetitionExactly`); `RepetitionSortsDependencies` is a component that does
  change. The documentation of `encode_many` promises independence of order, which holds without a premise
  (`OrderDoesNotMatter`).
- A written value is read back as itself exactly when its doubles are finite and the reader restores it
  (`ComesBackUnderAnyReader`, for every reader and every value). For a value without sets, and for any value under a
  monotone reader, that means that each double in it is given back from its own digits (`ComesBackExactly`). The Rust
  workspace reads with `serde_json` without `float_roundtrip` (rust/Cargo.toml:28), which does not promise that for
  every double. A reader wrong about a single double loses exactly the values that hold it (`OneMisreadDouble`); with a
  correctly rounding reader only NaNs and infinities are lost (`WireRoundTrip`).
- Decoding undoes the projection of a native value exactly when every `f32` in it survives widening and narrowing
  (`DecodeUndoesProject`); a signalling NaN that widening quiets does not (`QuietedIsLost`). The other
  direction has no premise (`ProjectUndoesDecode`).

## Model

| member | source | states |
|---|---|---|
| Utf8Order.NextCodePoint | csharp/SpecGate.Runtime/Utf8KeyComparer.cs:59-72 | consumes one code point, a surrogate pair as one, an unpaired surrogate as itself |
| Utf8Order.Compare | csharp/SpecGate.Runtime/Utf8KeyComparer.cs:22-57 | the loop over two indices computes the lexicographic order of the code points |
| Utf8Order.DecodingLosesNothing | csharp/SpecGate.Runtime/Utf8KeyComparer.cs:59-72 | re-encoding the code points of any string, well-formed or not, gives the string back |
| Utf8Order.DecodingIsInverse | csharp/SpecGate.Runtime/Utf8KeyComparer.cs:59-72 | the decoder gives the one sequence of code points that encodes to the string without tearing a surrogate pair apart, for a well-formed string its scalar values |
| Utf8Order.LexMeans | csharp/SpecGate.Runtime/Utf8KeyComparer.cs:22-57 | a string comes first exactly as a proper prefix or with the smaller unit at the first difference |
| Utf8Order.Utf8Encodes | csharp/SpecGate.Runtime/Utf8KeyComparer.cs:22-57 | the bytes compared have the form and the bits of section 3 of RFC 3629, in the fewest bytes |
| Utf8Order.PointOrderIsByteOrder | csharp/SpecGate.Runtime/Utf8KeyComparer.cs:22-57 | code point order is the byte order of the UTF-8 forms of RFC 3629 section 3 |
| Utf8Order.OrderIsUtf8Order | csharp/SpecGate.Runtime/Utf8KeyComparer.cs:22-57 | the comparer has the sign of comparing the UTF-8 encodings byte by byte |
| Utf8Order.OrderOfEncoded | csharp/SpecGate.Runtime/Utf8KeyComparer.cs:22-57 | two strings, given by their code points, compare as the UTF-8 bytes of those code points, without reference to the decoder |
| Utf8Order.OrderIsTotal | csharp/SpecGate.Runtime/Utf8KeyComparer.cs:22-57 | zero only on equal strings, and antisymmetric, for all strings including malformed ones |
| Utf8Order.OrderIsTransitive | csharp/SpecGate.Runtime/Utf8KeyComparer.cs:22-57 | the order is transitive, strictly so when one side is strict |
| FloatOrder.XorFlipsLowBits | csharp/SpecGate.Runtime/Value.cs:460-465 | exclusive-or with n ones complements the n low bits and keeps the rest |
| FloatOrder.CompareIsTotalOrder | csharp/SpecGate.Runtime/Value.cs:460-465 | comparing the masked bits is the totalOrder predicate of section 5.10 of IEEE 754-2019, with signed zeros, infinities and NaN payloads |
| Values.CompareValues | csharp/SpecGate.Runtime/Value.cs:240-281 | the C# comparison computes the recursive order of all nested values |
| Values.CompareSequences | csharp/SpecGate.Runtime/Value.cs:467-480 | the index loop is the lexicographic order of the items |
| Values.CompareMaps | csharp/SpecGate.Runtime/Value.cs:482-518 | the two-iterator loop is the lexicographic order of the entries, key before value |
| Values.CompareTotal | csharp/SpecGate.Runtime/Value.cs:240-281 | zero exactly on equal values, antisymmetric, between -1 and 1, for all nested values |
| Values.CompareTransitive | csharp/SpecGate.Runtime/Value.cs:240-281 | the order of nested values is transitive |
| Values.ProducersAgree | rust/crates/specgate-runtime/src/value.rs:168-227 | the C# order of any two values is the Rust order of the same values with UTF-8 strings |
| ValueCollections.SortingIsUnique | csharp/SpecGate.Runtime/Value.cs:138-159 | two ascending arrangements of the same elements are the same sequence, so the sorting algorithm is immaterial |
| ValueCollections.CompactInPlace | csharp/SpecGate.Runtime/Value.cs:138-159 | the loop that overwrites the front of the array drops repeated neighbours and returns how many are left |
| ValueCollections.CompactKeepsElements | csharp/SpecGate.Runtime/Value.cs:138-159 | compacting an ascending array gives a strictly ascending one with exactly the same elements |
| ValueCollections.MakeSet | csharp/SpecGate.Runtime/Value.cs:138-159 | a set holds exactly the given elements, strictly ascending |
| ValueCollections.SetDependsOnElementsOnly | csharp/SpecGate.Runtime/Value.cs:138-159 | a set depends only on which elements were given |
| ValueCollections.PutAllGets | csharp/SpecGate.Runtime/Value.cs:165-186 | a map has the given keys, each with the value given last |
| ValueCollections.MapIsUnique | csharp/SpecGate.Runtime/Value.cs:165-186 | a map in key order is determined by its lookups |
| SemanticEquality.CanonicalDecides | csharp/SpecGate.Runtime/SemanticValueEquality.cs:10-83 | canonical forms are equal exactly when the values are equivalent at the type: bags and sets paired off, unordered maps by key, ordered kinds position by position, NaNs identified, recursively |
| CollectionProjector.CountDistinct | csharp/SpecGate.Runtime/CollectionProjector.cs:53-63 | the distinct count is the length exactly when all elements differ |
| CollectionProjector.Unique | csharp/SpecGate.Runtime/CollectionProjector.cs:53-63 | accepts exactly the pairwise inequivalent collections, and the set built from one loses no element |
| CollectionProjector.InequivalentDiffer | csharp/SpecGate.Runtime/CollectionProjector.cs:53-63 | inequivalent elements are different values |
| CollectionProjector.MapBuilder.Add | csharp/SpecGate.Runtime/CollectionProjector.cs:141-159 | refuses exactly a key equivalent to an earlier one, else appends the entry |
| CollectionProjector.MapBuilder.Finish | csharp/SpecGate.Runtime/CollectionProjector.cs:134-162 | every accepted entry is in the built map under its own key, and nothing else is |
| CaptureModel.CheckConfig | csharp/SpecGate.Runtime/CaptureConfig.cs:140-176 | accepts exactly the configurations with a usable clock and pairwise different span identifiers |
| CaptureModel.HexInjective | csharp/SpecGate.Runtime/CaptureSession.cs:377-398 | candidates in range are written differently, so skipping a candidate skips an identifier |
| CaptureModel.HexAt | csharp/SpecGate.Runtime/CaptureSession.cs:377-398 | the digit of weight 16^i of a candidate stands i places from the end of its text |
| SessionSpec.NextIdIsUnique | csharp/SpecGate.Runtime/CaptureSession.cs:377-398 | the next span identifier is determined by the session state |
| SessionSpec.SkippedAreFew | csharp/SpecGate.Runtime/CaptureSession.cs:377-398 | the identifier search skips at most (operations so far + 2) candidates |
| SessionSpec.CloseSkips | csharp/SpecGate.Runtime/CaptureSession.cs:301-309 | closing over operations that are not open changes nothing |
| SessionLaws.StartIsGood | rust/crates/specgate-runtime/src/capture.rs:548-570 | a session started from an accepted configuration obeys all laws |
| SessionLaws.RunLaws | rust/crates/specgate-runtime/src/capture.rs:117-133 | every run keeps: identifiers unique, parents earlier, statuses matching outcomes; next order = begins + observations + terminals; next time = start + step * (2 + begins + observations + terminals + ends); event times distinct and in the order of event orders |
| SessionLaws.CloseLaws | rust/crates/specgate-runtime/src/capture.rs:753-771 | closing the outstanding operations keeps the same laws |
| SessionLaws.CloseWellFormed | csharp/SpecGate.Runtime/CaptureSession.cs:143-173 | projecting, trusted or untrusted, keeps the structural laws |
| SessionLaws.ApplyExtends | csharp/SpecGate.Runtime/CaptureSession.cs:317-370 | a step never takes back an operation or an outcome already recorded |
| CaptureLog.RunTells | rust/crates/specgate-runtime/src/capture.rs:117-133 | in every run the state holds, for each operation, what its begin gave, the inputs recorded last, its observations in order and its completion, each with the counter readings that the actions before it leave |
| CaptureLog.CaptureTells | csharp/SpecGate.Runtime/CaptureSession.cs:115-180 | every field of every capture, trusted or not, read off the actions of the run: the incomplete faults in reverse order after all recorded events, the run and scenario boundaries, and an error status exactly when some operation has one |
| CaptureLog.RecordedInputsAreShown | csharp/SpecGate.Runtime/CaptureSession.cs:639-680 | the inputs recorded last for an operation are the ones every later capture shows |
| CaptureLog.ScenarioEncloses | csharp/SpecGate.Runtime/CaptureSession.cs:115-173 | every operation of every capture lies inside the scenario, and the scenario inside the run |
| DrivenSession.Perform | csharp/SpecGate.Runtime/CaptureSession.cs:143-370 | each call on the object is one step of the state machine; it is carried out whenever the operation allows it and clock and identifiers have room, and a refused call leaves the session, except for what a stalled completion has drawn |
| DrivenSession.FollowsRun | csharp/SpecGate.Runtime/CaptureSession.cs:143-370 | while no completion stalls, the calls carried out are a run of the state machine with no snapshot in it |
| DrivenSession.FollowsLaws | csharp/SpecGate.Runtime/CaptureSession.cs:349-370 | refused and stalled calls included, identifiers, parents, statuses and the order of events stay right |
| DrivenSession.Drive | csharp/SpecGate.Runtime/CaptureSession.cs:143-370 | under any list of calls, refused ones included, the object ends where its steps lead, each snapshot is the projection of the state it was taken in, the structural laws hold of the object, and unless a completion stalls it ends where the run without the snapshots ends, with exact counters |
| CSharpSession.CaptureSession.Tick | csharp/SpecGate.Runtime/CaptureSession.cs:400-405 | returns the current time and advances by the step, or refuses on overflow |
| CSharpSession.CaptureSession.NextSpanId | csharp/SpecGate.Runtime/CaptureSession.cs:377-398 | returns the supplied identifier or the first free candidate, within (operations + 2) of the first one tried |
| CSharpSession.CaptureSession.Begin | csharp/SpecGate.Runtime/CaptureSession.cs:317-341 | adds one operation with the next identifier, order and time, or leaves the session as it was |
| CSharpSession.CaptureSession.RecordInputs | csharp/SpecGate.Runtime/CaptureSession.cs:639-639 | replaces the inputs of that one operation |
| CSharpSession.CaptureSession.Complete | csharp/SpecGate.Runtime/CaptureSession.cs:349-370 | records the outcome and the end of an open operation, refuses a second completion without a change, and on overflow spends only the order and the tick that fitted |
| CSharpSession.CaptureSession.CloseOutstanding | csharp/SpecGate.Runtime/CaptureSession.cs:301-309 | the reverse loop is closing every open operation from the last one down |
| CSharpSession.CaptureSession.Snapshot | csharp/SpecGate.Runtime/CaptureSession.cs:143-173 | equals copying the session, closing what is open (or everything, when untrusted) in reverse, and building, without moving the session |
| CSharpSession.CaptureSession.Finish | csharp/SpecGate.Runtime/CaptureSession.cs:79-113 | builds exactly the terminated sessions that used all supplied identifiers, and that capture is also the snapshot |
| Settlement.ProjectionShows | csharp/SpecGate.Runtime/CaptureSession.cs:143-180 | a projection shows the incomplete fault where it closed an operation and the real record elsewhere |
| Settlement.NothingToClose | csharp/SpecGate.Runtime/CaptureSession.cs:115-173 | with nothing outstanding, projecting is building |
| Settlement.SettlesExactly | rust/crates/specgate-cli/src/capture/sidecar.rs:101-162 | for every process and sidecar: captured exactly with a passing test, no marker, the issued identity, operations and no diagnostic fault; the exact conditions of stopping, skipping and failing |
| Settlement.UntrustedIsNoEvidence | rust/crates/specgate-cli/src/capture/sidecar.rs:101-162 | an untrusted projection never settles as captured |
| Settlement.TrustedIsEvidence | rust/crates/specgate-cli/src/capture/sidecar.rs:101-162 | a trusted projection settles as captured exactly when the test passed without the marker and there are operations, all terminated, none with a reserved fault, and then it is the built capture |
| Persistence.RunInv | csharp/SpecGate.Runtime/CaptureSession.cs:186-299 | every interleaving keeps the invariant of the two locks, the writes and the failure flag |
| Persistence.WritesMoveForward | csharp/SpecGate.Runtime/CaptureSession.cs:186-221 | in every interleaving each write projects a session state that extends the state of every earlier write |
| Persistence.ReturnedOutcomesAreWritten | csharp/SpecGate.Runtime/CaptureSession.cs:349-370 | until a write fails, the last sidecar shows the real outcome, end and status of every operation whose completion returned |
| Persistence.FailureIsFinal | csharp/SpecGate.Runtime/CaptureSession.cs:186-299 | from the first failed write on, every write shows every operation as incomplete and none settles as captured |
| Persistence.EvidenceIsComplete | rust/crates/specgate-cli/src/capture/sidecar.rs:101-162 | a sidecar that settles as captured was written before any failure and is the capture of a state in which every operation had terminated |
| PersistenceProgress.CompletionsArePersisted | csharp/SpecGate.Runtime/CaptureSession.cs:349-370 | in every interleaving without a failure, an operation that has terminated has returned from its completion, or some thread is on its way to writing it |
| PersistenceProgress.SidecarIsCurrent | csharp/SpecGate.Runtime/CaptureSession.cs:186-221 | once no thread is persisting, the last sidecar is the projection of a state that differs from the present one only by operations begun since and still open |
| PersistenceProgress.FinishedSidecar | csharp/SpecGate.Runtime/CaptureSession.cs:186-221 | once every operation has terminated and no thread is persisting, the sidecar is the built capture |
| PersistenceProgress.ExitShowsOutstanding | csharp/SpecGate.Runtime/CaptureSession.cs:223-262 | when the process ends with operations outstanding, the sidecar after the exit hook is the projection of the final state |
| PersistenceProgress.MarkedExactly | csharp/SpecGate.Runtime/CaptureSession.cs:264-299 | the marker has been printed exactly when some exit hook found the failure and could print |
| PersistenceProgress.MarkedFailureStops | csharp/SpecGate.Runtime/CaptureSession.cs:264-299 | once the marker is printed the batch stops, whatever the sidecar shows and the test reports |
| PersistenceProgress.CompletionRuns | csharp/SpecGate.Runtime/CaptureSession.cs:349-370 | left alone, a completion goes through the lock, the snapshot and the write, and the sidecar shows it |
| PersistenceProgress.PoisonedExitRuns | csharp/SpecGate.Runtime/CaptureSession.cs:264-299 | left alone, the exit hook of a failed session prints the marker and writes every operation as incomplete |
| Validator.Validate | docs/ctsc/validate.py:1099-1243 | the two passes accept exactly the traces with unique identifiers, parents of the right kind, one terminal per operation and matching statuses |
| Validator.EveryProjectionConforms | docs/ctsc/validate.py:1099-1243 | every capture any run can finish or project passes the validator |
| RustCollector.CollectorLaws | rust/crates/specgate-runtime/src/capture.rs:365-430 | every run of scope actions, in any order, obeys the session laws |
| RustCollector.PerformRecords | rust/crates/specgate-runtime/src/capture.rs:441-524 | a scope action records the begin under the current operation, the observation unless its name is reserved, the end, or the loss with unwinding before abandonment; exactly a loss that is neither poisons the session |
| ScopeLog.ScopesAreLogged | rust/crates/specgate-runtime/src/capture.rs:365-524 | the session of a run of scopes is the session of the actions it stands for, so its captures are told by them |
| ScopeLog.OutcomesAreCaused | rust/crates/specgate-runtime/src/capture.rs:441-524 | every recorded outcome was ended with or lost to: a panic is never recorded as abandonment |
| ScopeLog.ReservedNamesAreNotObserved | rust/crates/specgate-runtime/src/capture.rs:849-871 | no observation of any run bears a reserved name, and each was made |
| RustCollector.NestingStep | rust/crates/specgate-runtime/src/capture.rs:441-524 | from a nested state a step keeps the open operations the ancestor chain, with spans inside their parents, exactly when: an end, or a drop that records one, is of the current operation, and a drop that records nothing is not |
| RustCollector.ClosingKeepsNesting | rust/crates/specgate-runtime/src/capture.rs:753-771 | closing outstanding operations in reverse is closing innermost first, and keeps the nesting |
| ScopeNesting.NestingRuns | rust/crates/specgate-runtime/src/capture.rs:365-524 | over every run in which a scope is consumed once, poisoned or not, the open operations are the ancestor chain at the end exactly when every step met the step law |
| ScopeNesting.LifoRunsNest | rust/crates/specgate-runtime/src/capture.rs:629-677 | for a run that is not poisoned this is: every end of an open operation ends the current one |
| ScopeNesting.TidyStep | rust/crates/specgate-runtime/src/capture.rs:441-524 | a step keeps closed children inside closed parents exactly when the operation whose end it records has no open child; otherwise some child outlives its parent for good |
| ScopeNesting.CaptureIntervalsNest | rust/crates/specgate-runtime/src/capture.rs:629-771 | for every run, poisoned or not, every child interval of the capture lies strictly inside its parent's and observations precede terminal events exactly when no operation ended before a child of it |
| ScopeNesting.LifoCapturesNest | rust/crates/specgate-runtime/src/capture.rs:629-771 | for a run that is not poisoned the captured intervals nest exactly when every end is of the current operation |
| ScopeNesting.OutOfOrderEndsBreakNesting | rust/crates/specgate-runtime/src/capture.rs:748-752 | a feasible run that ends the outer operation first: the current operation is one that has ended, and an observation lands after its end |
| ScopeNesting.LostScopeBreaksNesting | rust/crates/specgate-runtime/src/capture.rs:515-522 | a feasible run, every end and drop of it of the current operation, that drops a synchronous scope: the child's interval ends after its parent's |
| RustCapture.State.NextSpan | rust/crates/specgate-runtime/src/capture.rs:809-832 | the same identifier rule and bound as the C# search |
| RustCapture.State.BeginActive | rust/crates/specgate-runtime/src/capture.rs:629-677 | adds one operation under the current one and makes it current, or changes nothing; it succeeds while the session is not poisoned and clock and identifiers have room |
| RustCapture.State.ReleaseOperation | rust/crates/specgate-runtime/src/capture.rs:748-752 | the parent becomes current only when the released operation was current |
| RustCapture.State.RecordObservation | rust/crates/specgate-runtime/src/capture.rs:849-871 | appends one observation to the current operation, or refuses on clock overflow, where only the order is spent |
| RustCapture.State.Complete | rust/crates/specgate-runtime/src/capture.rs:365-430 | records the terminal event, the end and the status, and releases the operation |
| RustCapture.State.DropScope | rust/crates/specgate-runtime/src/capture.rs:441-524 | closes an open operation as unwound or abandoned, or poisons the session; on an overflow it poisons, spends the order and the tick that fitted, and releases the operation |
| RustCapture.State.CloseOutstanding | rust/crates/specgate-runtime/src/capture.rs:753-771 | the reverse loop is closing every open operation from the last one down |
| RustCapture.State.Provisional | rust/crates/specgate-runtime/src/capture.rs:782-807 | the clone that is written is the trusted projection, and the session is unchanged |
| RustCapture.State.Finish | rust/crates/specgate-runtime/src/capture.rs:698-734 | builds exactly the terminated, unpoisoned sessions that used all supplied identifiers |
| CaptureFilter.Filter | rust/crates/specgate-cli/src/capture/filter.rs:14-47 | on captures with parents before children the pass selects the operations of the component's subtrees |
| CaptureFilter.OnePassIsClosure | rust/crates/specgate-cli/src/capture/filter.rs:14-47 | one pass over the operations computes the transitive closure of the parent relation |
| CaptureFilter.KeptExactly | rust/crates/specgate-cli/src/capture/filter.rs:14-47 | kept are exactly the operations whose root ancestor is a top-level operation of the component |
| CaptureFilter.ExactlyOneComponent | rust/crates/specgate-cli/src/capture/filter.rs:14-47 | across components each operation is in exactly one result |
| CaptureFilter.KeptIsOrdered | rust/crates/specgate-cli/src/capture/filter.rs:14-47 | every kept parent is still there, before its child |
| CaptureFilter.FilterIsIdempotent | rust/crates/specgate-cli/src/capture/filter.rs:14-47 | filtering twice is filtering once |
| CaptureFilter.SessionsAreOrdered | rust/crates/specgate-runtime/src/capture.rs:643-668 | every capture a session run can project has parents before children and unique identifiers |
| KeyedOrder.StrictIsUnique | rust/crates/specgate-ctsc/src/registry.rs:311-312 | a sequence sorted by key is determined by its elements |
| RegistryMerge.MergeDeclarations | rust/crates/specgate-ctsc/src/registry.rs:355-374 | succeeds exactly when no name is declared two ways, and then gives the union sorted by name |
| RegistryMerge.MergeNames | rust/crates/specgate-ctsc/src/registry.rs:342-353 | the union of both dependency lists, sorted, none repeated |
| RegistryMerge.MergeComponent | rust/crates/specgate-ctsc/src/registry.rs:341-378 | succeeds exactly when operations and types agree, and then is the union of the two |
| RegistryMerge.EncodeAll | rust/crates/specgate-ctsc/src/registry.rs:285-302 | succeeds exactly when all components of one id agree pairwise, and then lists one sorted union per id, by id |
| RegistryMerge.OrderDoesNotMatter | rust/crates/specgate-ctsc/src/registry.rs:285-312 | any permutation of the input succeeds alike and gives the same component list |
| RegistryMerge.RepetitionExactly | rust/crates/specgate-ctsc/src/registry.rs:285-353 | repeating input never changes success, and leaves the registry unchanged if and only if every component given once and now repeated had its dependencies sorted |
| RegistryMerge.RepetitionDoesNotMatter | rust/crates/specgate-ctsc/src/registry.rs:285-312 | in particular, with all dependency lists sorted repeating input changes nothing |
| RegistryMerge.RepetitionSortsDependencies | rust/crates/specgate-ctsc/src/registry.rs:341-353 | an example of a component whose repetition does change the registry |
| Weaver.MethodBody.InsertAllBefore | csharp/SpecGate.Weaver/MethodWeaver.cs:55-59 | repeated insertion before one instruction keeps the inserted ones in order |
| Weaver.MethodBody.FindReturns | csharp/SpecGate.Weaver/MethodWeaver.cs:248-255 | collects the returns in order |
| Weaver.MethodBody.Redirect | csharp/SpecGate.Weaver/MethodWeaver.cs:257-270 | turns one return into a jump, or into a store with the jump after it, and changes nothing else |
| Weaver.MethodBody.RedirectReturns | csharp/SpecGate.Weaver/MethodWeaver.cs:242-271 | the mutating loop over the collected returns rewrites every return of the list |
| Weaver.MethodBody.Weave | csharp/SpecGate.Weaver/MethodWeaver.cs:41-94 | prologue, rewritten body, handler and epilogue in that order, and one more handler around the original code |
| WovenLayout.ReferencesMove | csharp/SpecGate.Weaver/MethodWeaver.cs:233-241 | every reference to an original instruction names the same instruction after weaving |
| WovenMeaning.RegionsMove | csharp/SpecGate.Weaver/MethodWeaver.cs:233-241 | an original region, with or without an end, covers what became of exactly the instructions it covered |
| WovenMeaning.AddedRegion | csharp/SpecGate.Weaver/MethodWeaver.cs:84-91 | the added handler protects exactly the original code |
| WovenRuns.StepMoves | csharp/SpecGate.Weaver/MethodWeaver.cs:41-94 | one original step, exceptions, leaves and finally blocks included, is one woven step |
| WovenOutcomes.ReturnRuns | csharp/SpecGate.Weaver/MethodWeaver.cs:201-271 | from a return the woven body reaches the epilogue, reports the value once and returns it |
| WovenOutcomes.HandlerRuns | csharp/SpecGate.Weaver/MethodWeaver.cs:65-91 | an exception that leaves the original body is reported once and thrown on, out of the method or into the first open try block that takes it |
| WovenOutcomes.WovenKeepsOutcome | csharp/SpecGate.Weaver/MethodWeaver.cs:41-94 | for every meaning of the instructions, the woven call enters once, records inputs once, executes the same instructions from the same data, ends with the same value or exception and reports it once; a value needs closed regions, an exception only that no open try block takes it |
| WovenOutcomes.WovenThrows | csharp/SpecGate.Weaver/MethodWeaver.cs:65-91 | a throwing call of any body is reported once, and its exception leaves the method exactly when no try block without an end takes it |
| WovenOutcomes.OpenTryCatches | csharp/SpecGate.Weaver/MethodWeaver.cs:79-91 | a concrete throwing body whose woven form catches the exception instead |
| WovenOutcomes.WovenNeverEnds | csharp/SpecGate.Weaver/MethodWeaver.cs:41-94 | a call that never ends still never ends after weaving, with or without closed regions |
| WovenOutcomes.WovenOutcomeIsOriginal | csharp/SpecGate.Weaver/MethodWeaver.cs:41-94 | whatever way a woven call of a closed body ends, the original ends that way |
| WovenOutcomes.OpenRegionNeverReturns | csharp/SpecGate.Weaver/MethodWeaver.cs:79-91 | when some handler has no end, no woven call ever returns |
| WovenOutcomes.ReturnsExactlyWhenClosed | csharp/SpecGate.Weaver/MethodWeaver.cs:41-94 | a returning call still returns after weaving if and only if every region ends inside the body |
| WovenOutcomes.OpenBodyIsBroken | csharp/SpecGate.Weaver/MethodWeaver.cs:79-91 | a concrete body that returns, whose woven form does not |
| DecimalText.DecimalReads | csharp/SpecGate.Runtime/JsonText.cs:95-97 | the decimal text of a number reads as that number |
| DecimalText.DecimalIsWhole | csharp/SpecGate.Runtime/JsonText.cs:95-97 | the decimal text has no leading zero |
| FloatFormat.SplitKeeps | csharp/SpecGate.Runtime/CaptureJson.cs:256-269 | trimming zeros and moving them into the scale keeps the number, and leaves no digits only for zero |
| FloatFormat.NotationReads | csharp/SpecGate.Runtime/CaptureJson.cs:271-292 | each of the notations is a number of section 6 of RFC 8259, without leading zeros, and reads back as the significant digits and the scale |
| FloatFormat.FormatIsExact | csharp/SpecGate.Runtime/CaptureJson.cs:247-295 | for every digit string with exponent the text denotes exactly the same rational, sign included |
| FloatFormat.PositionalExactly | csharp/SpecGate.Runtime/CaptureJson.cs:247-295 | the text is positional exactly when the magnitude is in [10^-5, 10^16) |
| FloatFormat.FormatIsCanonical | csharp/SpecGate.Runtime/CaptureJson.cs:247-295 | a sign exactly for a negative number, always a decimal point in positional form and a signed exponent in the other, and no zero that could be left away |
| JsonText.Writer.AppendString | csharp/SpecGate.Runtime/JsonText.cs:120-158 | appends the quoted text with exactly the required escapes |
| JsonText.EscapesExactly | csharp/SpecGate.Runtime/JsonText.cs:120-158 | the quote, the backslash and five named controls take two units, the other controls six with lowercase digits, and nothing else is escaped |
| JsonText.Writer.WritePropertyName | csharp/SpecGate.Runtime/JsonText.cs:51-62 | appends a comma when one is due, the name and the colon |
| JsonText.Writer.BeforeValue | csharp/SpecGate.Runtime/JsonText.cs:110-118 | appends a comma exactly between values, and never after a name |
| CaptureJson.WriteItems | csharp/SpecGate.Runtime/CaptureJson.cs:216-225 | the loop prints the comma-joined array |
| CaptureJson.WriteValue | csharp/SpecGate.Runtime/CaptureJson.cs:171-214 | the flag-driven writer appends, after the comma that is due, what the recursive printer prints for every nested value |
| JsonReader.ReadsString | csharp/SpecGate.Runtime/JsonText.cs:120-158 | unescaping the appended text gives every string of code units back, whatever follows |
| JsonReader.ReadsJson | csharp/SpecGate.Runtime/JsonText.cs:17-158 | reading a printed document gives it back, whatever follows |
| WireFormat.ReadsFloat | csharp/SpecGate.Runtime/CaptureJson.cs:236-295 | the text of a finite double is read as the platform's own digits of it are, by every reader |
| WireFormat.SameNames | rust/crates/specgate-runtime/src/value.rs:63-73 | the kind names and tags of the C# writer are those of the Rust enumerations, two tables written apart |
| WireFormat.ProducersPrintAlike | rust/crates/specgate-runtime/src/value.rs:50-90 | both producers print the same document for every value, as long as they print the same finite doubles |
| WireFormat.FromJsonReads | rust/crates/specgate-runtime/src/value.rs:63-104 | for every reader and every value, decoding the tagged form fails exactly on a float that is not finite, and otherwise gives the value with each double reread and sets and maps built anew |
| WireFormat.WireReads | csharp/SpecGate.Runtime/CaptureJson.cs:171-225 | the same of the written text |
| RoundTrip.ComesBackUnderAnyReader | rust/crates/specgate-runtime/src/value.rs:63-104 | for every reader, a value comes back if and only if its doubles are finite, those outside sets are reread, and each outermost set is read as a rearrangement of itself |
| RoundTrip.ComesBackExactly | rust/crates/specgate-runtime/src/value.rs:63-104 | without sets, or under a monotone reader, a value comes back if and only if each double in it is finite and given back from its own digits |
| RoundTrip.ComingBackPermutes | rust/crates/specgate-runtime/src/value.rs:63-104 | for every reader, one that gives a value back permutes the doubles in it |
| RoundTrip.FloatsMove | rust/crates/specgate-runtime/src/value.rs:63-104 | what is read holds exactly the doubles the reader makes of the written ones |
| Readers.OneMisreadDouble | rust/crates/specgate-runtime/src/value.rs:63-104 | a reader wrong about one double gives back exactly the finite values that do not hold it |
| Readers.SwappedSetComesBack | rust/crates/specgate-runtime/src/value.rs:63-104 | a reader that swaps two doubles gives the set of both back, so the converse needs its premise |
| Readers.FaithfulExists | csharp/SpecGate.Runtime/CaptureJson.cs:236-295 | some pair of writer and reader gives every finite double back, so the correctly rounding premise can be met |
| Readers.FromJsonInverts | rust/crates/specgate-runtime/src/value.rs:63-104 | with a correctly rounding reader, decoding the tagged form gives the value back exactly when all its floats are finite, and fails otherwise |
| Readers.WireRoundTrip | csharp/SpecGate.Runtime/CaptureJson.cs:171-225 | with a correctly rounding reader, decoding the written text gives the value back if and only if all its floats are finite |
| NativeCodec.DecodeUndoesProject | rust/crates/specgate-runtime/src/harness.rs:178-336 | for every value of every supported type, decoding undoes projecting if and only if every `f32` in it survives widening and narrowing |
| NativeCodec.QuietedIsLost | rust/crates/specgate-runtime/src/harness.rs:214-225 | where widening quiets a signalling NaN, it or the quiet NaN does not come back |
| NativeCodec.ProjectionIsCanonical | rust/crates/specgate-runtime/src/lib.rs:338-539 | every projection has its sets in strict order and its maps in key order, a set that falls back to a list included |
| NativeCodec.ProjectUndoesDecode | rust/crates/specgate-runtime/src/lib.rs:338-539 | whenever a decoder accepts a value, projecting the result gives that value back, whatever the conversions of `f32` do |
| NativeCodec.DecoderAcceptsExactlyProjections | rust/crates/specgate-runtime/src/harness.rs:178-336 | a decoder accepts exactly the projections of the values of its type whose every `f32` survives widening and narrowing |
| NativeCodec.SetIsSet | rust/crates/specgate-runtime/src/lib.rs:472-481 | different elements project differently, unless an `f32` in them does not survive widening, so a set never falls back to a list |
| NativeCodec.NativeSetOrder | rust/crates/specgate-runtime/src/lib.rs:472-481 | the iteration order of a set makes no difference to its projection |
| InputFolding.Walk.Visit | rust/crates/specgate-runtime/src/registry.rs:465-495 | the walk with its two stacks appends exactly the leaves under the field, restores the stacks, and ends on every table |
| InputFolding.InputFields | rust/crates/specgate-runtime/src/registry.rs:464-499 | rejects exactly the offending parameters, and otherwise returns exactly the leaves that some walk reaches |
| InputFolding.LeavesAreReached | rust/crates/specgate-runtime/src/registry.rs:464-499 | the leaves are, one for one and in the order of declaration, the fields without properties that a walk reaches, each with the names passed on the way |
| InputFolding.InputFieldsRejects | rust/crates/specgate-runtime/src/registry.rs:464-499 | rejects exactly the parameters below which some walk meets an ambiguous name or enters a type a second time |
| InputFolding.LeavesDiverge | rust/crates/specgate-annotations-macros-impl/src/event.rs:90-113 | with distinct names in every type, no leaf path lies above another |
| InputFolding.PathsAreLookups | rust/crates/specgate-runtime/src/registry.rs:508-520 | a path is followed by looking its names up one after another, and ends at a missing member or at a value that is no map |
| InputFolding.TakenElsewhere | rust/crates/specgate-runtime/src/registry.rs:508-520 | moving one leaf out leaves every other path's value unchanged |
| InputFolding.FoldInput | rust/crates/specgate-runtime/src/registry.rs:501-523 | succeeds exactly when every leaf is present, and returns the original value of each although leaves are moved out one at a time |

## Left out

- The overflow of the 64-bit event order counter: orders are unbounded; the clock's overflow is modelled.
- Readers.FromJsonInverts: asks for a reader that rounds to the nearest double, which the reader the workspace builds does not promise; `ComesBackUnderAnyReader` and `ComesBackExactly` are about that reader too.
- Readers.WireRoundTrip: the same premise.
- A reader that refuses a number the writer prints: a reader makes some double of every decimal.
- Registered setups, producers and their provenance inside a session, and `WeaveSetup`, which shares `RedirectReturns` and adds no handler.
- Two threads finishing a session while others persist it: `Persistence` interleaves begin, inputs, completion, snapshots, writes and the exit writes.
- A completion that stalls on the clock while other threads persist: `DrivenSession` has it, `Persistence` does not.
- A begin or completion on a session that has been finished: `Drive` starts from one that has not.
- The retry loop and the temporary file of the sidecar writer: a write either replaces the sidecar or fails.
- Forward-only writes for the Rust runtime, which writes after releasing its lock and does not promise them.
- The parent a C# caller passes to `Begin` is taken to belong to the same session.
- Exception filters, asynchronous observers, macro forms of instructions, boxing decisions and the reading and writing of assemblies; recording calls do not throw.
- Exceptions that are not derived from `Exception`: the added handler is taken to catch everything, as the runtime's default wrapping makes it.
- The search for `E` and the parsing of the exponent in the platform's float text: the text is given as mantissa and exponent.
- JSON white space and other spellings of numbers: the reader accepts compact documents.
- The span, boundary and completion objects around a value in the sidecar: they are written by the same calls and add no new case.
- Types that are projected but have no decoder.
- The decoding and validation of a schema before its components are merged, the registry counts and their overflow, and the serialization of the document; the input of `EncodeAll` is the sequence of decoded components, each with its declarations sorted and uniquely named.
- The lookup of a parameter by its name before `FoldInput`, and how a type name resolves to a registered type.
- Plain (dynamically typed) values inside `SemanticEquality` keep their NaN payloads, as in the source.
- C# reflection and contract resolution, process launching, command line parsing, the OTLP encoding, the comparison engine and replay.
