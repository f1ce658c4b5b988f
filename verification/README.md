# ReadWriteDiagnostic — a verified model of the read/write verification engine

This project models the engine of the ReadWriteDiagnostic thorn. The thorn
wraps every scheduled routine of a simulation in a pre-call and a post-call
hook. It infers which grid functions a routine actually wrote, and in which
region. It compares that with the routine's declared `WRITES` clauses and
keeps the set of diagnostics. It also gates the data pointers a routine may
obtain.

The model is functional. One immutable `State` record holds the engine's
globals: `wclauses`, `rclauses`, `syncs`, `cksums`, `observed_writes` and
`messages`. Every hook is a pure function from a state to a state. The host
framework is an abstract `Host` record: name lookup, group lookup, group
extents, the number of variables, "is a grid function whose element has the size of a `long`" (8 bytes),
and the grid shape. The grid storage is a map from (time level, variable) to
a buffer of 64-bit words.

Modules, in dependency order:

- `Wrappers`: `Option`, `Result` and a map lookup with a default.
- `Regions`: the masks 0x01, 0x10 and 0x11, `wh_name`, ASCII `tolower`, and the where-keyword table.
- `Words`: 64-bit words as naturals below 2^64, with byte rotation and bitwise XOR written arithmetically.
- `Checksum`: the cell layout, the interior/exterior classification, and `compute_cksum`. It appears both as a fold and as the source's triple loop.
- `Framework`: the host queries and the storage.
- `Clauses`: `compute_clauses`, which parses a declaration and resolves its name to a variable or a group.
- `Globals`: the state record, the message datatype, and `std::map::operator[]` default insertion.
- `Registry`: `init_function` and the routine name "thorn::name".
- `CrossCheck`: `wclause_diagnostic`.
- `Inference`: `pre_call` and `post_call`.
- `AccessGate`: `RDWR_VarDataPtrI`.
- `Scenarios`: one scheduled call end to end.

Assumptions stated by the model:

- A word is the `unsigned long` of an LP64 platform, a natural below 2^64.
- The host's 3-D index macro lays cell (i, j, k) out at `i + lsh0*(j + lsh1*k)`.
- The time-level-0 buffer of every watched grid function holds at least one word per cell of the local box (`Framework.Fits`). Buffers of other variables and other time levels may have any length; the hooks never checksum them.
- Line 186 rotates left by `8*n` bits. When `n == 0` it also shifts right by 64 bits, which C++ leaves undefined. The model treats that shift as giving 0, so rotation by 0 bytes is the identity.

Behaviour of the code that the model reproduces rather than corrects:

- Both variable-collection loops of `pre_call` (lines 209-222) and of `post_call` (lines 244-257) take their map from `rclauses`, although the second names it `writes_m`. A variable a routine only writes is therefore never checksummed when the routine declares some read (`Inference.WriteOnlyIsNeverObserved`).
- A declaration without a parenthesis gets the region `everywhere`, but `str` is never assigned on that path, so the name resolved is the empty string (`Clauses.ParseClause`).
- The "has no write clauses" message of line 149 is built but never inserted. The insertion at lines 163-166 sits inside the other branch (`CrossCheck.UndeclaredRoutineIsSilent`). Through the hooks that branch is unreachable: every routine with observations has an entry in `wclauses` (`Registry.ObservedRegistered`). That holds initially and is kept by `pre_call`, by `post_call` after it, and by the access gate. A registered routine that declares no writes has an empty entry, so every write observed for it is reported as a missing write.
- `RDWR_VarDataPtrI` creates an empty write entry for the current routine when the variable is not a declared read. Taken alone, an access before `init_function` would therefore block the routine's registration, because `init_function` only tests for the presence of that entry (`AccessGate.EarlyAccessBlocksRegistration`). Through the hooks this cannot happen: `pre_call` sets the routine name and registers it at once (lines 203-207), a routine name is never empty (`Registry.RoutineNameNonEmpty`), and after `pre_call` an access changes nothing (`Scenarios.AccessAfterPreCallKeepsState`).

Further properties of the code that the model keeps:

- The code knows only two regions, interior and exterior, with `boundary` as an alias of `exterior`. It has no separate boundary or ghost region.
- `syncs` is built but never read. No synchronisation tracker exists.
- No variable is excluded from checking because of its ghost zones.
- `messages` is a `std::set`, ordered by its text, not by insertion.

## Model

| member | source | states |
|---|---|---|
| Regions.WhName | ReadWriteDiagnostic/src/ReadWriteDiagnostics.cc:32-40 | the printed name is "?" exactly for the empty mask |
| Regions.RegionKeyword | ReadWriteDiagnostic/src/ReadWriteDiagnostics.cc:66-81 | a keyword is accepted iff its lower-cased form is one of everywhere, interior, exterior, boundary, and an accepted keyword never gives the empty mask |
| Regions.BitsInjective | ReadWriteDiagnostic/src/ReadWriteDiagnostics.cc:11-13 | distinct masks are distinct integers, and the named masks are 0x01, 0x10 and 0x11 |
| Regions.KeywordNameRoundTrip | ReadWriteDiagnostic/src/ReadWriteDiagnostics.cc:32-40 | the printed name of every parsed mask is not "?", and it parses back to the same mask |
| Regions.ToLowerChars | ReadWriteDiagnostic/src/ReadWriteDiagnostics.cc:41-47 | lower-casing maps each character on its own: 'A'..'Z' move up 32 code points, every other character is kept, and no upper-case letter remains |
| Regions.ToLowerIdempotent | ReadWriteDiagnostic/src/ReadWriteDiagnostics.cc:41-47 | lower-casing twice is lower-casing once |
| Regions.ToLowerIgnoresCase | ReadWriteDiagnostic/src/ReadWriteDiagnostics.cc:41-47 | strings equal up to ASCII case lower-case to the same string |
| Regions.KeywordTable | ReadWriteDiagnostic/src/ReadWriteDiagnostics.cc:70-81 | everywhere, interior, and exterior-or-boundary each map to their mask, in both directions |
| Regions.KeywordIgnoresCase | ReadWriteDiagnostic/src/ReadWriteDiagnostics.cc:66-81 | keyword matching ignores the case of ASCII letters |
| Words.Rot | ReadWriteDiagnostic/src/ReadWriteDiagnostics.cc:184-186 | rotating left by n bytes moves the low 8-n bytes up by n bytes and the high n bytes down to the bottom |
| Words.RotInverse | ReadWriteDiagnostic/src/ReadWriteDiagnostics.cc:184-186 | rotating a word left by n bytes and back right by n bytes restores it |
| Words.RotInjective | ReadWriteDiagnostic/src/ReadWriteDiagnostics.cc:184-186 | different words rotate to different words |
| Words.XorComm | ReadWriteDiagnostic/src/ReadWriteDiagnostics.cc:187-190 | XOR accumulation is commutative |
| Words.XorAssoc | ReadWriteDiagnostic/src/ReadWriteDiagnostics.cc:187-190 | XOR accumulation is associative |
| Words.XorUndo | ReadWriteDiagnostic/src/ReadWriteDiagnostics.cc:187-190 | XOR-ing a word in twice cancels it |
| Words.XorWord | ReadWriteDiagnostic/src/ReadWriteDiagnostics.cc:15-18 | the XOR of two 64-bit words is a 64-bit word, so the `unsigned long` accumulators never overflow |
| Checksum.CellClassification | ReadWriteDiagnostic/src/ReadWriteDiagnostics.cc:177-183 | the loop visits cell (i,j,k) at its linear index, and that cell counts as interior iff `ng <= coord < lsh - ng` on all three axes |
| Checksum.Products | ReadWriteDiagnostic/src/ReadWriteDiagnostics.cc:183 | the linear index of cell (i,j,k) is `i + lsh0*(j + lsh1*k)`, and the box has `lsh0*lsh1*lsh2` cells |
| Checksum.IndexInjective | ReadWriteDiagnostic/src/ReadWriteDiagnostics.cc:183 | two cells of the box never share a linear index |
| Checksum.DecodeIndex | ReadWriteDiagnostic/src/ReadWriteDiagnostics.cc:177-183 | the c-th cell the loop visits is in the box and has linear index c |
| Checksum.ComputeCksum | ReadWriteDiagnostic/src/ReadWriteDiagnostics.cc:172-195 | both accumulators of the checksum pair are 64-bit words |
| Checksum.CksumSplits | ReadWriteDiagnostic/src/ReadWriteDiagnostics.cc:172-195 | the single pass yields `in` = XOR over the interior cells and `out` = XOR over all other cells |
| Checksum.FoldIsWords | ReadWriteDiagnostic/src/ReadWriteDiagnostics.cc:176-190 | both accumulators stay below 2^64 throughout the pass |
| Checksum.InteriorLocality | ReadWriteDiagnostic/src/ReadWriteDiagnostics.cc:172-195 | a change confined to exterior cells leaves `in` unchanged |
| Checksum.ExteriorLocality | ReadWriteDiagnostic/src/ReadWriteDiagnostics.cc:172-195 | a change confined to interior cells leaves `out` unchanged |
| Checksum.SingleCellWrite | ReadWriteDiagnostic/src/ReadWriteDiagnostics.cc:172-195 | changing one cell always changes the accumulator of that cell's region, and never the other one |
| Checksum.TripleLoop | ReadWriteDiagnostic/src/ReadWriteDiagnostics.cc:177-193 | the k/j/i loop visits the cells in increasing linear order and computes the fold, for any accumulator combination |
| Checksum.ComputeCksumLoops | ReadWriteDiagnostic/src/ReadWriteDiagnostics.cc:172-195 | `compute_cksum` returns the interior and exterior XOR sums of the buffer, each a 64-bit word |
| Framework.Members | ReadWriteDiagnostic/src/ReadWriteDiagnostics.cc:96-100 | a group's variables are exactly the indices from its first index up to first plus count |
| Clauses.Find | ReadWriteDiagnostic/src/ReadWriteDiagnostics.cc:58-60 | `strchr` finds the first occurrence, and finds none iff the character is absent |
| Clauses.ParseClause | ReadWriteDiagnostic/src/ReadWriteDiagnostics.cc:57-84 | no '(' gives the empty name with `everywhere`; only a clause with '(' can fail; a parsed keyword is never the empty mask; a rejected keyword is not one of the four |
| Clauses.KeywordMasks | ReadWriteDiagnostic/src/ReadWriteDiagnostics.cc:63-81 | `name(where)` gets 0x11 iff `where` is everywhere, 0x01 iff interior, 0x10 iff exterior or boundary, whatever the case, and fails iff the keyword is none of these |
| Clauses.ParseIgnoresCase | ReadWriteDiagnostic/src/ReadWriteDiagnostics.cc:65-66 | declarations whose keywords differ only in case parse alike |
| Clauses.ParseRender | ReadWriteDiagnostic/src/ReadWriteDiagnostics.cc:63-81 | writing a clause as `name(wh_name(mask))` and parsing it gives the clause back |
| Clauses.NameResolution | ReadWriteDiagnostic/src/ReadWriteDiagnostics.cc:86-104 | a variable name sets exactly that entry; a group name sets every member and keeps every other entry; an unknown name changes nothing |
| Clauses.ApplyClause | ReadWriteDiagnostic/src/ReadWriteDiagnostics.cc:86-104 | recording a clause adds its targets (the named variable, else the named group's members, else nothing) with the clause's mask and keeps every other entry |
| Clauses.ComputeClauses | ReadWriteDiagnostic/src/ReadWriteDiagnostics.cc:53-106 | the declarations fail iff one of them fails to parse, and a success keeps every key the map already had |
| Clauses.ParseAll | ReadWriteDiagnostic/src/ReadWriteDiagnostics.cc:54-84 | every declaration parses to its clause, in order, and the whole fails iff some declaration fails |
| Clauses.ComputeClausesParsesAll | ReadWriteDiagnostic/src/ReadWriteDiagnostics.cc:53-106 | parsing and recording interleaved equals parsing everything first and recording afterwards, with the first error winning |
| Clauses.LaterClauseWins | ReadWriteDiagnostic/src/ReadWriteDiagnostics.cc:86-104 | each variable ends with the mask of the last declaration that names it, and a variable no declaration names keeps its entry or its absence |
| Registry.RoutineNameNonEmpty | ReadWriteDiagnostic/src/ReadWriteDiagnostics.cc:203-205 | a routine name always holds "::", so it is never the empty name |
| Registry.InitiallyConsistent | ReadWriteDiagnostic/src/ReadWriteDiagnostics.cc:50-51 | the empty registry is consistent, and no routine has observations yet |
| Registry.RoutineNameInjective | ReadWriteDiagnostic/src/ReadWriteDiagnostics.cc:203-205 | with ':'-free thorn names, two routines share a key only if they are the same routine |
| Registry.SyncMembers | ReadWriteDiagnostic/src/ReadWriteDiagnostics.cc:126-134 | the sync set is the union of the members of every sync group |
| Registry.InitFunction | ReadWriteDiagnostic/src/ReadWriteDiagnostics.cc:110-135 | a registered routine is left alone; otherwise the routine is registered and no other routine's entry changes; registry consistency is kept |
| Registry.InitRecords | ReadWriteDiagnostic/src/ReadWriteDiagnostics.cc:110-135 | a first call records the parsed write and read declarations and the sync members, and fails iff some declaration is bad |
| Registry.InitFirstWins | ReadWriteDiagnostic/src/ReadWriteDiagnostics.cc:111-112 | once registered, registering again with any declarations changes nothing |
| CrossCheck.Verdict | ReadWriteDiagnostic/src/ReadWriteDiagnostics.cc:144-166 | a message is issued only for a routine with an entry in `wclauses` (possibly empty): missing-write iff the variable is undeclared, wrong-region iff its declared mask differs from the observed one |
| CrossCheck.Diagnose | ReadWriteDiagnostic/src/ReadWriteDiagnostics.cc:140-170 | the cross-check only adds messages, and each added message reports something observed |
| CrossCheck.DiagnoseSound | ReadWriteDiagnostic/src/ReadWriteDiagnostics.cc:140-170 | every new message reports an observation that truly disagrees with the declarations |
| CrossCheck.DiagnoseComplete | ReadWriteDiagnostic/src/ReadWriteDiagnostics.cc:140-170 | every disagreement of a routine with an entry in `wclauses` is reported, with the right kind and masks |
| CrossCheck.AgreementIsSilent | ReadWriteDiagnostic/src/ReadWriteDiagnostics.cc:156-166 | an observed mask equal to the declared mask adds no message about that variable |
| CrossCheck.UndeclaredRoutineIsSilent | ReadWriteDiagnostic/src/ReadWriteDiagnostics.cc:148-149 | a routine with no entry in `wclauses` is never reported |
| CrossCheck.DiagnoseIdempotent | ReadWriteDiagnostic/src/ReadWriteDiagnostics.cc:21 | the messages form a set, so a second run on the same state adds nothing |
| Inference.PreCall | ReadWriteDiagnostic/src/ReadWriteDiagnostics.cc:198-237 | the routine is named and registered; each examined variable (the routine's declared reads, or every variable when it declares none) that has data at time level 0 and is a grid function with 8-byte elements gets its current checksum stored; every other stored checksum is kept; the registry is what `init_function` left, plus an empty read entry for the routine when it had none; observations and messages are untouched; it fails iff registration fails |
| Inference.PreCallRegisters | ReadWriteDiagnostic/src/ReadWriteDiagnostics.cc:203-215 | after a successful pre-call hook the routine has a non-empty name and both a write and a read entry |
| Inference.PreCallKeepsObservedRegistered | ReadWriteDiagnostic/src/ReadWriteDiagnostics.cc:198-237 | the pre-call hook keeps every observed routine registered |
| Inference.PreCallConsistent | ReadWriteDiagnostic/src/ReadWriteDiagnostics.cc:198-237 | the pre-call hook keeps the registry consistent |
| Inference.DeltaDetects | ReadWriteDiagnostic/src/ReadWriteDiagnostics.cc:268-274 | the observed region is empty iff the checksum pair did not change |
| Inference.Observe | ReadWriteDiagnostic/src/ReadWriteDiagnostics.cc:244-278 | the current routine's observations become the old ones merged with the recorded changes, and are untouched when nothing changed; the write declarations, syncs, routine and messages are kept; the read declarations gain only the routine's empty default entry (lines 245 and 249); the stored checksums gain only zero entries for the checked variables that had none (line 268) |
| Inference.Merge | ReadWriteDiagnostic/src/ReadWriteDiagnostics.cc:275 | each merged mask is the least mask with every bit already observed and every bit that changed; other observations are kept, and merging no change keeps all of them |
| Inference.PostCall | ReadWriteDiagnostic/src/ReadWriteDiagnostics.cc:240-281 | among the observations only the current routine's change; the write declarations, syncs and routine are kept; the read declarations gain only the routine's empty default entry and the stored checksums only zero entries for unstored checked variables; no message is withdrawn |
| Inference.PostCallObservesCurrent | ReadWriteDiagnostic/src/ReadWriteDiagnostics.cc:275 | the post-call hook gives observations only to the current routine |
| Inference.PostCallKeepsObservedRegistered | ReadWriteDiagnostic/src/ReadWriteDiagnostics.cc:240-281 | for a registered routine, the post-call hook keeps every observed routine registered |
| Inference.PostCallRecords | ReadWriteDiagnostic/src/ReadWriteDiagnostics.cc:260-279 | the post-call hook records, for the current routine, the old observations merged with the changes, and nothing new when nothing changed |
| Inference.PostCallConsistent | ReadWriteDiagnostic/src/ReadWriteDiagnostics.cc:240-281 | the post-call hook keeps the registry consistent |
| Inference.PostCallMonotone | ReadWriteDiagnostic/src/ReadWriteDiagnostics.cc:275 | observed masks only grow: no variable is forgotten, no region bit is cleared, no message is withdrawn |
| Inference.ChangeIsRecorded | ReadWriteDiagnostic/src/ReadWriteDiagnostics.cc:268-276 | a checked variable whose checksum changed is observed in at least the changed region |
| Inference.FirstObservation | ReadWriteDiagnostic/src/ReadWriteDiagnostics.cc:268-276 | a routine's first change to a variable is observed as exactly the changed region |
| Inference.OnlyChangesRecorded | ReadWriteDiagnostic/src/ReadWriteDiagnostics.cc:260-278 | an observation changes only for a checked variable, and only by OR-ing in the changed region |
| Inference.UnannotatedExaminesAll | ReadWriteDiagnostic/src/ReadWriteDiagnostics.cc:218-223 | a routine without read declarations has every variable examined |
| Inference.WriteOnlyIsNeverObserved | ReadWriteDiagnostic/src/ReadWriteDiagnostics.cc:244-257 | a routine with read declarations never gains or changes an observation of a variable it does not read |
| Inference.NoWriteNoObservation | ReadWriteDiagnostic/src/ReadWriteDiagnostics.cc:198-281 | a routine that changes no data records no observation |
| AccessGate.VarDataPtr | ReadWriteDiagnostic/src/ReadWriteDiagnostics.cc:283-307 | an access only adds the routine's default read entry and, possibly, its default write entry |
| AccessGate.GateOpens | ReadWriteDiagnostic/src/ReadWriteDiagnostics.cc:283-307 | the host's pointer is returned iff the variable is a declared read or write or is not a watched type; otherwise null is returned |
| AccessGate.GateIdempotent | ReadWriteDiagnostic/src/ReadWriteDiagnostics.cc:283-307 | asking twice gives the same pointer and the same state |
| AccessGate.RegisteredAccessKeepsClauses | ReadWriteDiagnostic/src/ReadWriteDiagnostics.cc:285-288 | an access by a registered routine changes no state |
| AccessGate.GateKeepsObservedRegistered | ReadWriteDiagnostic/src/ReadWriteDiagnostics.cc:283-307 | an access keeps every observed routine registered |
| AccessGate.GateKeepsConsistent | ReadWriteDiagnostic/src/ReadWriteDiagnostics.cc:285-288 | the entries an access creates are empty, so registry consistency is kept |
| AccessGate.EarlyAccessBlocksRegistration | ReadWriteDiagnostic/src/ReadWriteDiagnostics.cc:111-112 | an access before registration creates the write entry that makes the later `init_function` register nothing |
| Scenarios.SingleCellWriteObserved | ReadWriteDiagnostic/src/ReadWriteDiagnostics.cc:198-281 | the first time a routine is seen writing a checked variable, and it changes one cell of it, the hooks observe exactly that cell's region |
| Scenarios.AccessAfterPreCallKeepsState | ReadWriteDiagnostic/src/ReadWriteDiagnostics.cc:283-307 | once the pre-call hook has run, an access by the routine changes no state |
| Scenarios.MisplacedWriteReported | ReadWriteDiagnostic/src/ReadWriteDiagnostics.cc:140-170 | the first time a routine is seen writing a declared variable, a one-cell write in a region other than the declared one yields a wrong-region message with both regions; a write in the declared region yields none |

## Left out

- Console output: `RDWR_ShowDiagnostics`, `RDWR_AddDiagnosticCalls` and hook registration (lines 309-324), and every `std::cout` line inside `compute_clauses`. These are I/O.
- Message text: messages are values of a datatype. Two messages are equal exactly when their texts would be equal, so the set semantics is kept. The text order in which `std::set` reports them is not modelled.
- `Trace/src/trace.cc` is not part of this model. It only traces values, and its only logic is a floating-point comparison.
- `FCall/src/fcall.cc` is not part of this model. It prints routine entry and exit.
- `ScheduleWrapper.hh` is not part of this model. It only declares the host's registration functions.
- The host's `CCTK_*` queries are parameters of a `Host` record. Buffer allocation, pointer casts and the type-size test are folded into `Host.tracked` and `Framework.Fits`.
- Clauses.ParseClause: a clause with a '(' whose first ')' is missing or comes before that '(', or a clause with a '(' but no ':', is fatal in the source: a missing ')' or ':' makes the pointer arithmetic of lines 65 and 67 undefined, and a ')' before the '(' passes a negative length to `assign`, which throws an uncaught `length_error`. The model reports all of these as the fatal `Malformed` error. A missing ':' matters only when there is a '('.
- Clauses.ParseClause: the `assert(false)` on an unknown keyword is modelled as the fatal `UnknownRegion` error.
- Checksum.ComputeCksum: its own contract states only the word bounds. Which cells each accumulator combines is stated by `CksumSplits` and `ComputeCksumLoops`, so that proofs about the hooks do not unfold the XOR sums.
- Scenarios.SingleCellWriteObserved: stated for the routine's first observation of the variable only. On later calls line 275 ORs the cell's region into the earlier mask; `Inference.ChangeIsRecorded` and `Inference.OnlyChangesRecorded` state that general case.
- Scenarios.MisplacedWriteReported: stated for the first observation only, for the same reason. On later calls a wrong-region message carries the merged mask.
- Inference.PostCall: its own contract frames every field but the observations and the messages, and says only which routine's observations may change. What it records is stated by `PostCallRecords`, `PostCallMonotone`, `ChangeIsRecorded`, `FirstObservation` and `OnlyChangesRecorded`.
- The default `{0,0}` checksum entries that `cksums[vi]` creates in `post_call` are modelled. Nothing reads them differently from an absent entry.
- `syncs` is modelled as built. No operation of the code reads it.
