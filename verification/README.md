# A verified model of Coopy's diff, merge and patch core

Coopy compares, merges and patches tables. This project models the small stateful algorithms that do the hard
work and proves, for all inputs, what they are for. Everything is Dafny; `dafny verify dfyconfig.toml` checks it.

| files | what they model |
|---|---|
| `Viterbi.dfy` | the layered cheapest-path engine with its sparse tables |
| `MatchUnits.dfy`, `UnitLists.dfy`, `OrderLattice.dfy`, `OrderMerge.dfy` | the three-way order merge: pairing, lattice, accept and retry, assembly |
| `MoveLists.dfy`, `MoveSearch.dfy`, `Mover.dfy` | lists of moves and how short they can be, the pruned search as a function, and the search itself |
| `DeferredInserts.dfy`, `PoolPatcher.dfy` | inserts that mint ids: which rows can be written, the scan, emission, deferral and the retry loop |
| `CsvParser.dfy`, `CsvGrammar.dfy` | the CSV parser, and a grammar that says what it reads any text as |
| `CsvPrinter.dfy`, `CsvRoundTrip.dfy`, `CsvSurvival.dfy`, `CsvGarbled.dfy` | the CSV printer and reader callbacks, and what survives printing and reading |
| `Tdiff.dfy`, `TdiffRoundTrip.dfy`, `TdiffParts.dfy` | TDIFF row cells, printed and parsed, and the named and conflicting forms of a part |
| `HistoryBits.dfy`, `MatchLattice.dfy`, `UnitMatching.dfy` | one-to-one unit matching: the lattice with history bits, what its cheapest path is worth, and the rounds and passes over it |
| `Sha1.dfy`, `Sha1Answer.dfy` | incremental SHA-1 against RFC 3174, the two ways a table is hashed, and the standard's constants and known answer |
| `SqlDiff.dfy`, `SqlContext.dfy`, `SqlStream.dfy` | the keyed SQL comparison, its application, and the streaming context pass |
| `Common.dfy` | shared notions |

Objects that the program updates in place are classes, loops are loops, and each is tied to a function or predicate
whose properties are proved as lemmas.

## The main results

- **Order merge.** `Merge` never loses or invents a unit, puts deleted units last, and only places units together that
  are immediate successors on the local or the remote side among those unplaced. If one side did nothing but delete,
  the result is exactly the other side's order (`OrderMerge.Merge`, by `OrderLattice.DecidedPath`). Without ordering, a
  remote unit new to the pivot stands before a local unit exactly when that one, or one before it, has a partner beyond it.
- **Cheapest path.** `CalculatePath` returns a chain of added transitions that no chain undercuts, costs of either sign
  (`Viterbi.Viterbi.CalculatePath`). This needs the state range to be settled in the first layer; growth after that loses chains,
  and `Viterbi.GrowthIsExactIff` says exactly when.
- **Deferred inserts.** Of the rows sent, exactly those whose references can be resolved are written, whatever the order
  of arrival; the loop ends with nothing left if and only if the references are acyclic; and every row of the batch is
  sent once if and only if its table is asked for once (or fewer than two tables are named). When no id is minted
  twice, every reference holds the id minted for the row it names, or the cell the pool had for it, or, when the pool
  does not know it, itself.
- **Moves.** The search always succeeds and its list of moves turns the source into the destination with each element
  moved at most once. Unless the solution cap was exceeded no list of moves is shorter, repetitions allowed: its length
  is the number of elements outside a largest set already in the right order. Up to four elements never reach the
  cap; a rotation of 53 elements or more does, and gets `n - 51` moves where one is enough.
- **CSV.** Any chunking of the input makes the same callbacks; the trims never underflow; every text, however sloppily
  quoted, has exactly one reading by a grammar, and the callbacks are that reading's; a table of printable cells
  reads back as itself if and only if every cell survives and no row prints as nothing.
- **Unit matching.** Each comparison keeps the matching one to one and undoes no pair; what it adds is what the score
  test leaves of a choice of candidates with the greatest total score less drift (no candidate twice in a row, no
  contested unit twice), and unless four units are contested a position is refused its unit only if that unit was taken
  before.
- **TDIFF.** A printed row always comes apart into its slots, for all texts, and a slot is read back if and only if no text in
  it is a lone `*` or has a backslash before `n`, `r` or a backslash, and its old text, when an arrow follows, is
  not an unquoted one with an odd number of dashes at its end. A name and a sign before a cell are read as the key
  under the same condition on the name.
- **SHA-1.** However a message of fewer than 2^61 bytes is split into steps, the result is the digest of RFC 3174 of the
  bytes fed; a step feeds all of its text if and only if the text is shorter than 2^31 bytes, or shorter than 2^32 and
  without a zero byte; for rows that are fed whole the row-wise and the cell-wise hash of a table agree. The digest of
  "abc" is the standard's answer, worked out step by step.
- **SQL.** Applying the comparison turns table 1 into exactly table 2 in whatever order its changes arrive, in particular
  in the key order of the context pass, whose output meets a declarative definition.

## Where the code does not do what one would expect

- Naming a new state after the first layer resizes the sparse tables without refiling them (`GrowthIsExactIff`,
  `LateGrowthForgets`). The order merge and the unit matching declare all states first and are not affected.
- The indexing loop of `merge` initialises `lowestL` and `lowestR` from the first unit, so a leading -1 stays: a side offers
  a start, its least unit, if and only if the first unit in the list is on that side
  (`OrderLattice.StartFollowsFirst`, `LeadingGapHidesStart`). The laws hold regardless.
- The cap of 100 solutions ends the move search early (`MoveSearch.RotationIsNotShortest`). It takes fewer elements than
  that rotation has: the order 2, 0, 6, 5, 1, 4, 3 is sorted with 5 moves where 4 are enough.
- A table named twice beside another one is written twice (`PoolPatcher.NamedTwiceWritesTwice`).
- `Sha1Generator::add` narrows the length of a text to an `int`: a text of 2^32 bytes is not hashed at all
  (`Sha1.RoundLengthIsLost`), and one of 2^31 to 2^32 - 1 bytes is cut at its first zero byte.
- With trimming on, `encodeCell` emits the doubling of a quote before the line ends it held back, so a quote
  right after a line end splits the cell, and the table does not come back (`CsvSurvival.HeldLineEndGarbles`,
  `CsvGarbled.GarbledTable`).
- The collision guard adds an underscore even when the null token is off, and the decoder then does not remove it; with both on, it removes an
  underscore before any prefix of the token (`CsvSurvival.GuardRoundTrip`, `ProperPrefixIsLost`).
- A null cell reads back as null with the token as its text, and a text is cut at its first zero byte when it is
  added to the sheet; the laws compare null or text, and the cut is part of the condition.
- An old TDIFF text that ends in `-` swallows the arrow only for an odd number of dashes
  (`TdiffRoundTrip.SlotRoundTrip`), and so does a name before a colon or an equals sign (`TdiffParts.NamedValue`).
- `TDiffPart::apply` does not clear `hasPval`: an earlier parent value shows through every part that gives none of its own
  (`Tdiff.EarlierParentShows`), in particular every part without a `!`.
- The context pass marks the end only from three dropped rows on; one or two rows dropped after the last change leave no
  trace (`SqlContext.EndMarker`).
- `getHash` hashes into one checksum per process, so bytes left there by someone else are part of its digest; the cell-wise
  caller resets first (`Sha1.GetHash`, `Sha1.RawHash`).

## Model

| member | source | states |
|---|---|---|
| `Viterbi.Viterbi.constructor` | src/libcoopy_core/Viterbi.cpp:14-21 | A sized engine has no layers, and its tables are exact for them |
| `Viterbi.KeyIsRowMajor` | src/libcoopy_core/include/coopy/SparseSheet.h:84-90 | A cell is filed under its row times the width plus its column |
| `Viterbi.KeyInjective` | src/libcoopy_core/include/coopy/SparseSheet.h:84-90 | Distinct cells are filed under distinct keys |
| `Viterbi.Viterbi.BeginTransitions` | src/libcoopy_core/include/coopy/Viterbi.h:50-53 | Opens one empty layer unless one is open; exact tables stay exact |
| `Viterbi.Viterbi.EndTransitions` | src/libcoopy_core/include/coopy/Viterbi.h:45-48 | Closes the open layer; the layers and what the tables know of them are unchanged |
| `Viterbi.Viterbi.AddTransition` | src/libcoopy_core/Viterbi.cpp:58-108 | The layer gains exactly this transition; tables stay exact if its states are in range or nothing is filed past the first layer |
| `Viterbi.RelaxTracks` | src/libcoopy_core/Viterbi.cpp:82-107 | Relaxing keeps every filed cell justified by a filed predecessor and no dearer than any transition offers |
| `Viterbi.WidenTracks` | src/libcoopy_core/include/coopy/SparseSheet.h:58-63 | Growing the state range keeps the tables exact while only the first layer is filed |
| `Viterbi.GrowthIsExactIff` | src/libcoopy_core/Viterbi.cpp:59-72 | Growing keeps the tables exact if and only if nothing is filed beyond the first layer |
| `Viterbi.LateGrowthForgets` | src/libcoopy_core/Viterbi.cpp:59-72 | Three transitions after which a reached state counts as unreached |
| `Viterbi.ChainIsFiled` | src/libcoopy_core/Viterbi.cpp:82-107 | Every chain ends in a sourced state whose filed cost is at most the chain's total |
| `Viterbi.TraceIsChain` | src/libcoopy_core/Viterbi.cpp:134-141 | Following the sources back from a filed cell spells a chain whose total is the filed cost |
| `Viterbi.SourcedIffReached` | src/libcoopy_core/Viterbi.cpp:82-107 | A state is sourced at a layer exactly when some chain reaches it there |
| `Viterbi.BestEnd` | src/libcoopy_core/Viterbi.cpp:114-131 | Finds the sourced state of least cost in the last layer, if there is one |
| `Viterbi.Backtrace` | src/libcoopy_core/Viterbi.cpp:134-141 | The path read off backwards is the states of a chain that no full chain undercuts |
| `Viterbi.Viterbi.CalculatePath` | src/libcoopy_core/Viterbi.cpp:110-144 | If a full chain exists, the path is one of least total and `best_cost` is that total |
| `MatchUnits.Pairing.Process` | src/libcoopy_core/OrderMerge.cpp:20-95 | Ends with every local unit up to the stop recorded in order and every remote unit new to the pivot recorded, nothing twice, each new remote unit before exactly the local units from the first one with a partner beyond it on; marked are exactly the new units and the partners recorded |
| `MatchUnits.Pairing.TakeLocal` | src/libcoopy_core/OrderMerge.cpp:29-62 | Records one local unit with its pivot and remote partner, deleted exactly when the pivot is known and the remote lacks it |
| `MatchUnits.Pairing.TakeRemote` | src/libcoopy_core/OrderMerge.cpp:66-85 | Records a remote unit only when it is new to the pivot and not recorded yet |
| `MatchUnits.Pairing.TurnLocal` | src/libcoopy_core/OrderMerge.cpp:36-62 | Before a local unit with a remote partner is recorded, every new remote unit before that partner is |
| `MatchUnits.PlaceLocal` | src/libcoopy_core/OrderMerge.cpp:40-42 | A local unit may be recorded once the new remote units up to the furthest partner so far are |
| `MatchUnits.PlaceRemote` | src/libcoopy_core/OrderMerge.cpp:66-85 | A new remote unit may be recorded after local units whose partners all lie before it |
| `MatchUnits.PairUnits` | src/libcoopy_core/OrderMerge.cpp:397-403 | The whole pairing: exactly the records the two matchings deserve, each once, local units in local order, new remote units in remote order, and a new remote unit before a local one exactly when that one or one before it has a partner beyond it |
| `MatchUnits.RecordsCoverBothSides` | src/libcoopy_core/OrderMerge.cpp:20-95 | Each local unit once; a remote unit occurs exactly when it is new or its pivot is still local; no remote unit deleted locally; shared records share the pivot |
| `OrderLattice.NextIsSuccessor` | src/libcoopy_core/OrderMerge.cpp:368-380 | Looking up the next available key leads to the unit with the next larger one, or to the dud from the largest |
| `OrderLattice.LowestFollowsFirst` | src/libcoopy_core/OrderMerge.cpp:426-451 | The lowest value found is a key if and only if the first one is, and then it is the least |
| `OrderLattice.StartFollowsFirst` | src/libcoopy_core/OrderMerge.cpp:479-486 | A side offers a start if and only if the first unit is on it, and then it is its least unit |
| `OrderLattice.LeadingGapHidesStart` | src/libcoopy_core/OrderMerge.cpp:443-445 | A side whose unit stands second in the list offers no start |
| `OrderMerge.IndexUnits` | src/libcoopy_core/OrderMerge.cpp:418-470 | The maps, sets and lowest values describe exactly the live units and their ranks |
| `OrderMerge.DrawFrom` | src/libcoopy_core/OrderMerge.cpp:498-558 | A unit's transitions lead to its local, remote or pivot successors as the case distinction demands, all free |
| `OrderMerge.BuildLattice` | src/libcoopy_core/OrderMerge.cpp:472-569 | The engine holds exactly the layers of the lattice over the unplaced units |
| `OrderMerge.DudChain` | src/libcoopy_core/OrderMerge.cpp:487-569 | Waiting at the dud is a full chain, so a cheapest path always exists |
| `OrderLattice.FreeChain` | src/libcoopy_core/OrderMerge.cpp:478-563 | When one column decides every step, following it from its least key is a chain of cost zero through all units |
| `OrderLattice.DecidedPath` | src/libcoopy_core/OrderMerge.cpp:478-569 | The cheapest path of such a lattice visits all units in the order of the deciding column |
| `OrderLattice.RemoteDecides` | src/libcoopy_core/OrderMerge.cpp:509-558 | If the local ranks are the pivot ranks and every unit is remote, the remote column decides |
| `OrderLattice.LocalDecides` | src/libcoopy_core/OrderMerge.cpp:509-558 | The same with the sides exchanged |
| `OrderLattice.TargetsAreSuccessors` | src/libcoopy_core/OrderMerge.cpp:509-558 | Every step of the lattice goes to an immediate successor on the local or the remote side |
| `OrderLattice.TargetIffMoved` | src/libcoopy_core/OrderMerge.cpp:509-558 | A unit on both sides is followed to exactly the unit that succeeds it on both, and the local and the remote successor wherever these are not its successor in the pivot; a unit on one side to its successor there |
| `OrderLattice.PathSteps` | src/libcoopy_core/OrderMerge.cpp:583-593 | A cheapest path stays in range and follows every unit to one of its targets |
| `OrderMerge.Accept` | src/libcoopy_core/OrderMerge.cpp:583-606 | Accepts the longest prefix of the path in which neither a state nor its next is the dud or taken; good when that is all |
| `OrderMerge.ClimbIsAccepted` | src/libcoopy_core/OrderMerge.cpp:586-606 | A path that climbs a column is accepted whole |
| `OrderMerge.Remainder` | src/libcoopy_core/OrderMerge.cpp:609-629 | Carries over exactly the live units that were not accepted, in list order |
| `OrderMerge.Round` | src/libcoopy_core/OrderMerge.cpp:416-637 | Places the longest unblocked prefix of a cheapest path, a chain of successor steps, and keeps the rest; if one side only deleted, places everything in the other side's order |
| `OrderMerge.RoundIsSound` | src/libcoopy_core/OrderMerge.cpp:583-606 | Accepted ranks are distinct, in range, linked by lattice steps and taken from a cheapest path; nothing remains when the path was good |
| `OrderMerge.Advance` | src/libcoopy_core/OrderMerge.cpp:608-637 | Between rounds the placed and the remaining units are the original ones, and the remaining shrink by what was placed |
| `OrderMerge.PlaceAll` | src/libcoopy_core/OrderMerge.cpp:405-649 | The loop ends; every round places an accepted prefix of a cheapest path, immediate successors among the unplaced; leftovers only after a round that placed nothing |
| `OrderMerge.NothingLost` | src/libcoopy_core/OrderMerge.cpp:639-649 | The placed units and the leftovers together are a permutation of the live ones |
| `OrderMerge.QuietLocal` | src/libcoopy_core/OrderMerge.cpp:20-95 | If the local side only deleted, every live record is on the remote side and ranked locally as in the pivot |
| `OrderMerge.QuietRemote` | src/libcoopy_core/OrderMerge.cpp:20-95 | The same with the sides exchanged |
| `OrderMerge.Merge` | src/libcoopy_core/OrderMerge.cpp:382-688 | A permutation of the pairing with the deleted units last, placed round by round from cheapest paths; exactly the remote order when the local side only deleted, and the other way round; without ordering the pairing itself, new remote units placed by the partners around them |
| `Mover.Mover.Search` | src/libcoopy_core/Mover.cpp:11-109 | At every depth: what is returned or stored globally is a solution of the top-level call and is what the search function says; the first descent succeeds; no admissible completion beats the stored one while the cap holds; the count is bounded by the elements left to move |
| `Mover.Mover.Try` | src/libcoopy_core/Mover.cpp:64-98 | Searching below one element keeps the stored solution valid and extends the claim to that element |
| `Mover.Mover.Move` | src/libcoopy_core/Mover.cpp:11-109 | Always succeeds; replaying the moves turns source into destination, each element at most once; when at most 100 solutions were counted, and always for up to four elements, no list of moves is shorter |
| `MoveLists.UnmovedKeepOrder` | src/libcoopy_core/Mover.cpp:64-84 | Elements that a successful list of moves never touches were in the right order from the start |
| `MoveLists.OthersSuffice` | src/libcoopy_core/Mover.cpp:64-84 | Moving the elements outside a set that is in the right order reaches the destination |
| `MoveLists.Trimmed` | src/libcoopy_core/Mover.cpp:47-62 | Moves of elements in place can be left out |
| `MoveLists.UnbeatenIsShortest` | src/libcoopy_core/Mover.cpp:11-109 | A solution no admissible list beats is as short as any list of moves, and as long as there are elements outside a largest set in the right order |
| `MoveSearch.RotationIsNotShortest` | src/libcoopy_core/Mover.cpp:24-26 | On a rotation of 53 elements or more the capped search returns n - 51 moves where one is enough |
| `Mover.StepSettles` | src/libcoopy_core/Mover.cpp:64-75 | Moving the first unsettled element lengthens the settled front |
| `Mover.FirstDescent` | src/libcoopy_core/Mover.cpp:39-88 | On the first descent the first movable element is the first unsettled one |
| `Mover.BeatsNext` | src/libcoopy_core/Mover.cpp:39-99 | Having searched element i, the stored solution beats every admissible completion that starts with one of the first i + 1 |
| `PoolPatcher.Scan` | src/libcoopy_core/MergeOutputFilter.cpp:8-45 | Every id some row will mint is filed as not yet linked, and nothing else changes |
| `PoolPatcher.EmissionIsComplete` | src/libcoopy_core/MergeOutputFilter.cpp:47-68 | Every row goes out exactly once if and only if fewer than two tables are named or its table is asked for exactly once |
| `PoolPatcher.NamedTwiceWritesTwice` | src/libcoopy_core/MergeOutputFilter.cpp:57-66 | Asking for A, A and B sends a row of A twice |
| `PoolPatcher.FillRow` | src/libcoopy_core/SheetPatcher.cpp:776-859 | Defers exactly when some reference cannot be written yet; otherwise every column holds its translated, minted or given value |
| `DeferredInserts.PutAllAt` | src/libcoopy_full/PoolImpl.cpp:115-133 | Recording what a row minted makes just those ids usable |
| `PoolPatcher.SheetPatcher.ChangeRow` | src/libcoopy_core/SheetPatcher.cpp:776-1003 | Either the row is written and its ids recorded, or it is put at the end of the deferred rows and nothing changes |
| `DeferredInserts.AttemptKeepsRunning` | src/libcoopy_core/SheetPatcher.cpp:776-859 | Writing a ready row moves it from pending to done and keeps every written row correct against the pool |
| `PoolPatcher.SheetPatcher.MergeDone` | src/libcoopy_core/SheetPatcher.cpp:1142-1165 | Ends with no deferred row ready, and succeeds exactly when none is left |
| `DeferredInserts.StuckIsUnresolvable` | src/libcoopy_core/SheetPatcher.cpp:1142-1165 | When no pending row is ready, the pending rows are exactly the unresolvable ones |
| `DeferredInserts.AcyclicIsResolvable` | src/libcoopy_core/SheetPatcher.cpp:1142-1165 | With a rank that falls along references every row is resolvable |
| `DeferredInserts.ResolvableIsAcyclic` | src/libcoopy_core/SheetPatcher.cpp:1142-1165 | If every row is resolvable there is such a rank |
| `PoolPatcher.ReferencesFollow` | src/libcoopy_core/SheetPatcher.cpp:795-835 | Among the rows written, a reference equals the cell minted for the id it names; an id nobody announced gives its cell in the old pool, or passes unchanged |
| `PoolPatcher.MintsHoldNext` | src/libcoopy_core/SheetPatcher.cpp:836-840 | Writing a row puts into its minting columns what the table mints then, and leaves the rows before it alone |
| `PoolPatcher.SheetPatcher.MergeAllDone` | src/libcoopy_core/MergeOutputFilter.cpp:8-73 | Each row sent is written or left, and these are the batch exactly if every table is asked for once; left are exactly the unresolvable ones; success exactly for acyclic references; every minted column holds the id its table minted, and with distinct mints every reference holds the new id of the row that minted what it names, or the linked cell of the old pool, or, unknown to the pool, itself |
| `CsvParser.RunIsSafe` | src/libcsv/libcsv.c:328-446 | In every reachable state the trims fit in the entry and an open quoted field has no trailing spaces counted |
| `CsvParser.RunConcat` | src/libcsv/libcsv.c:302-448 | Parsing two pieces is parsing their concatenation |
| `CsvParser.CsvParser.IncreaseBuffer` | src/libcsv/libcsv.c:268-300 | The buffer grows and keeps its contents, or a status is set and nothing changes; it grows whenever memory and the size limit allow |
| `CsvParser.CsvParser.SubmitField` | src/libcsv/libcsv.c:47-57 | Reports the entry without its trailing spaces, unless quoted, and never underflows |
| `CsvParser.CsvParser.SubmitRow` | src/libcsv/libcsv.c:59-65 | Reports the end of a row and starts afresh |
| `CsvParser.CsvParser.ConsumeOutside` | src/libcsv/libcsv.c:339-367 | One character before a field, stored inside the buffer if at all |
| `CsvParser.CsvParser.ConsumeInside` | src/libcsv/libcsv.c:368-403 | One character of a field |
| `CsvParser.CsvParser.ConsumeAfterQuote` | src/libcsv/libcsv.c:404-443 | One character after a quote that may have closed the field; the closing quote and spaces are dropped without underflow |
| `CsvParser.CsvParser.Parse` | src/libcsv/libcsv.c:302-448 | Consumes a prefix with the callbacks of that prefix; short only with an error status; all of it when the buffer can grow |
| `CsvParser.CsvParser.Finish` | src/libcsv/libcsv.c:156-194 | Reports what is pending in each of the four states and resets the parser |
| `CsvParser.ParseChunks` | src/libcsv/libcsv.c:156-448 | However the text is cut, the callbacks are those of the whole and every byte is consumed |
| `CsvGrammar.ExtendFollows` | src/libcsv/libcsv.c:339-448 | One more character takes the parser from the state of a reading to the state of the extended one, with the callbacks in between |
| `CsvGrammar.ReadIsUnique` | src/libcsv/libcsv.c:339-448 | A text has no reading but the one built character by character |
| `CsvGrammar.ParsedIsReading` | src/libcsv/libcsv.c:156-448 | Every text has exactly one reading as skipped blanks and line ends, empty, unquoted and quoted fields, and the callbacks with those at the end are that reading's |
| `CsvGrammar.BareFieldsStand` | src/libcsv/libcsv.c:339-405 | An unquoted field has no space or tab at its ends and stands in the text between delimiters, line ends or the ends of the text, with only blanks on either side |
| `CsvGrammar.SkippedBefore` | src/libcsv/libcsv.c:343-356 | Blanks before a field, and blanks and line ends before a row, change nothing and report nothing |
| `CsvGrammar.SkippedAfterQuote` | src/libcsv/libcsv.c:404-417 | Blanks between a closing quote and the end of the field are dropped |
| `CsvGrammar.ParseText` | src/libcsv/libcsv.c:156-448 | Feeding a text in any chunks makes the callbacks of its one reading, and every unquoted field stands in the text |
| `CsvPrinter.EncodeCell` | src/libcoopy_core/DataSheet.cpp:70-131 | The printed form of a cell: token, guard, quoting, doubled quotes, held-back line ends |
| `CsvPrinter.Encode` | src/libcoopy_core/DataSheet.cpp:33-68 | The printed table: cells joined by the delimiter, rows ended or separated by the line end |
| `CsvRoundTrip.PrintedForm` | src/libcoopy_core/DataSheet.cpp:70-131 | A printable cell prints as its shown text with quotes doubled, between quotes exactly when it holds a special character |
| `CsvRoundTrip.CellRun` | src/libcsv/libcsv.c:339-443 | Parsing a printed cell leaves the parser holding exactly the shown text and reports nothing yet |
| `CsvRoundTrip.TableRun` | src/libcsv/libcsv.c:302-448 | Parsing a printed table reports its fields and rows, except rows that print as nothing, with or without a last line end |
| `CsvRoundTrip.CsvSheet.AddField` | src/libcoopy_core/CsvSheet.cpp:10-32 | Appends one cell to the record and keeps the sizes right |
| `CsvRoundTrip.CsvSheet.AddRecord` | src/libcoopy_core/CsvSheet.cpp:34-46 | Moves the record into the rows; width and validity follow the lengths of the rows |
| `CsvRoundTrip.LoadSheet` | src/libcsv/CsvRead.cpp:107-194 | Playing the callbacks into a sheet collects the decoded rows |
| `CsvRoundTrip.ReadPrinted` | src/libcsv/CsvRead.cpp:107-194 | A printed table reads as the decoded shown texts of its rows that print as something |
| `CsvSurvival.GuardRoundTrip` | src/libcoopy_core/DataSheet.cpp:94-107 | A text comes back through guard and decoder if and only if it is not in the family the two disagree on |
| `CsvSurvival.UnderscoresBeforeTokenSurvive` | src/libcsv/CsvRead.cpp:163-176 | Any number of underscores before the whole token survives |
| `CsvSurvival.ProperPrefixIsLost` | src/libcsv/CsvRead.cpp:163-176 | Underscores before a proper prefix of the token are lost |
| `CsvSurvival.CellRoundTrip` | src/libcsv/CsvRead.cpp:153-180 | A cell, null or text, reads back as itself if and only if it survives |
| `CsvSurvival.TableRoundTrip` | src/libcoopy_core/DataSheet.cpp:33-131 | A printed table of printable cells reads back as the same table if and only if every cell survives and no row prints as nothing |
| `CsvSurvival.TextTableRoundTrip` | src/libcoopy_core/DataSheet.cpp:33-131 | With token, guard and trimming off: if and only if every row has two cells or one that is not empty, and no text holds a zero byte |
| `CsvSurvival.SendTable` | src/libcsv/CsvRead.cpp:196-260 | The same law for the program's own steps: print, parse in any chunks, load |
| `CsvSurvival.HeldLineEndGarbles` | src/libcoopy_core/DataSheet.cpp:109-128 | With trimming on, a quote right after a line end makes the parser end the row in the middle of the cell |
| `CsvGarbled.GarbledTable` | src/libcoopy_core/DataSheet.cpp:109-128 | With trimming on, a table whose first such text comes after rows that print as something does not come back |
| `Tdiff.ReplaceIn` | src/libcoopy_core/include/coopy/Stringer.h:65-72 | Every occurrence, found left to right, is replaced and replacements are not looked at again |
| `Tdiff.QuoteSql` | src/libcoopy_core/Stringer.cpp:48-81 | The text between quotes with every quote doubled |
| `Tdiff.Celly` | src/libcoopy_core/MergeOutputTdiff.cpp:22-72 | Null prints as NULL; a text prints bare, or quoted and escaped exactly when it is NULL or holds a character that would be misread |
| `Tdiff.UpdateRow` | src/libcoopy_core/MergeOutputTdiff.cpp:234-313 | The row line: tag, then old, new, both or a star for each column |
| `Tdiff.NormalizedMessage` | src/libcoopy_full/PatchParser.cpp:630-683 | Splits a line at spaces and bars outside quotes and unescapes the parts |
| `Tdiff.TDiffPart.PeelFrom` | src/libcoopy_full/PatchParser.cpp:721-802 | Takes the text before the first separator outside quotes, unquoted, with what follows |
| `Tdiff.ScanPart` | src/libcoopy_full/PatchParser.cpp:735-786 | Where the scan stops, at which separator, and whether it saw a leading quote or a conflict mark |
| `Tdiff.EarlierParentShows` | src/libcoopy_full/PatchParser.cpp:881-890 | An earlier parent value shows through a part if and only if the part gives none of its own |
| `Tdiff.NoBangGivesNoParent` | src/libcoopy_full/PatchParser.cpp:768-782 | A part without a ! gives none |
| `Tdiff.TDiffPart.ApplyElement` | src/libcoopy_full/PatchParser.cpp:827-879 | Files one element as key, old, new or parent value by the separators around it |
| `Tdiff.TDiffPart.Apply` | src/libcoopy_full/PatchParser.cpp:881-934 | Reads up to four elements of a part and settles a conflict |
| `TdiffRoundTrip.EscapesVanish` | src/libcoopy_full/PatchParser.cpp:670-675 | Unescaping an escaped text is unescaping the text |
| `TdiffRoundTrip.UnescapedIffClean` | src/libcoopy_full/PatchParser.cpp:670-675 | Unescaping leaves a text alone if and only if no backslash is followed by n, r or a backslash |
| `TdiffRoundTrip.PeelBefore` | src/libcoopy_full/PatchParser.cpp:721-802 | A printed cell before an arrow is peeled off whole unless it runs into the arrow |
| `TdiffRoundTrip.PeelBlocked` | src/libcoopy_full/PatchParser.cpp:755-783 | An unquoted text with an odd number of dashes at its end hides the arrow |
| `TdiffRoundTrip.SlotRoundTrip` | src/libcoopy_full/PatchParser.cpp:881-934 | A printed slot is read as exactly what it said if and only if it survives |
| `TdiffRoundTrip.RowSplits` | src/libcoopy_full/PatchParser.cpp:630-683 | A printed row comes apart into its tag and one part per slot, for all texts |
| `TdiffRoundTrip.RowRoundTrip` | src/libcoopy_core/MergeOutputTdiff.cpp:287-313 | The row law: parts and slots correspond, and each is read back if and only if it survives |
| `TdiffRoundTrip.PlainRowRoundTrip` | src/libcoopy_core/MergeOutputTdiff.cpp:287-308 | Texts without a backslash or a lone star, and old texts not ending in a dash, always come back, nulls and the text NULL included |
| `TdiffRoundTrip.SendRow` | src/libcoopy_full/PatchParser.cpp:1118-1131 | The row law for the program's own steps: print, split, read |
| `TdiffRoundTrip.TextsLost` | src/libcoopy_full/PatchParser.cpp:670-675 | A text of backslash and n, a lone star, and an old text ending in one dash do not come back |
| `TdiffParts.NamedValue` | src/libcoopy_full/PatchParser.cpp:721-879 | A name, a colon or equals sign and a cell are read as that key and that cell, as an identity for the equals sign only, if and only if the name does not end in an odd number of dashes outside quotes |
| `TdiffParts.NamedChange` | src/libcoopy_full/PatchParser.cpp:827-934 | The same with an old and a new value after the name |
| `TdiffParts.NamedColumn` | src/libcoopy_full/PatchParser.cpp:827-879 | Among columns only the name and the sign count |
| `TdiffParts.PeelParent` | src/libcoopy_full/PatchParser.cpp:766-802 | A cell between bangs is peeled off whole as a parent value |
| `TdiffParts.ParentBeforeChange` | src/libcoopy_full/PatchParser.cpp:881-934 | A change after a parent value is a conflict: the new value is the conflicting one and the old one stands in its place |
| `MatchLattice.LayerMembers` | src/libcoopy_core/MeasureMan.cpp:187-227 | Exactly which transitions the nested loops add to a layer |
| `MatchLattice.LayerRemembers` | src/libcoopy_core/MeasureMan.cpp:187-227 | Every state stays below the declared size, and a step only adds the bit of the unit it enters, which was clear |
| `MatchLattice.HistoryGrows` | src/libcoopy_core/MeasureMan.cpp:192-227 | History bits are never lost along a chain |
| `MatchLattice.FlaggedOnce` | src/libcoopy_core/MeasureMan.cpp:192-227 | No chain matches a flagged unit at two positions |
| `MatchLattice.CheapestWalk` | src/libcoopy_core/MeasureMan.cpp:165-248 | Builds that lattice and returns the states of a cheapest chain through it |
| `MatchLattice.LayerPriced` | src/libcoopy_core/MeasureMan.cpp:204-226 | A step into a candidate costs its score negated, plus the drift when it comes from another candidate; a step to the unmatched state is free |
| `MatchLattice.ChainGain` | src/libcoopy_core/MeasureMan.cpp:204-226 | The cost of a chain is the total score of what it chooses less the drift between matches, negated |
| `MatchLattice.ChoiceIsChain` | src/libcoopy_core/MeasureMan.cpp:187-227 | Every choice of candidates that repeats none from one position to the next and no flagged unit at all is what some chain chooses |
| `MatchLattice.WalkIsBest` | src/libcoopy_core/MeasureMan.cpp:165-248 | The states of a cheapest chain make such a choice, and no other has a greater total score less drift |
| `UnitMatching.AssignRound` | src/libcoopy_core/MeasureMan.cpp:249-328 | Keeps the matching one to one and every pair made, settles each open position by the path and the test, and flags contested units once |
| `UnitMatching.Compare` | src/libcoopy_core/MeasureMan.cpp:159-336 | The repeat loop ends with the matching one to one and no pair undone; its last round took a path whose choices have the greatest total score less drift, settled every open position by path and test, and refused a unit only if it was taken before or four were contested |
| `UnitMatching.UncontestedOutcome` | src/libcoopy_core/MeasureMan.cpp:249-328 | Without a contest every open position holds exactly the unit that this best choice and the test give it |
| `UnitMatching.Compare1` | src/libcoopy_core/MeasureMan.cpp:118-338 | The same with the wider side playing the columns |
| `UnitMatching.CompareCore` | src/libcoopy_core/MeasureMan.cpp:51-115 | The passes keep the matching one to one and undo no pair; each settles the open positions by a best choice of candidates and the test, at a control level that rises after a stalled pass, and they go on until a reason to stop or for twenty |
| `HistoryBits.AddSetsBit` | src/libcoopy_core/MeasureMan.cpp:196-202 | Adding the power of a clear bit sets that bit and no other |
| `HistoryBits.OverlapIsBit` | src/libcoopy_core/MeasureMan.cpp:196-202 | The mask test asks for exactly that bit |
| `Sha1.Schedule` | src/libcoopy_core/Sha1Generator.cpp:277-288 | The 80 words of section 6.1 of RFC 3174 |
| `Sha1.Rounds` | src/libcoopy_core/Sha1Generator.cpp:290-337 | The registers after the 80 steps of section 6.1 |
| `Sha1.Context.ProcessMessageBlock` | src/libcoopy_core/Sha1Generator.cpp:261-346 | Compresses the block into the hash and empties it |
| `Sha1.Context.Count` | src/libcoopy_core/Sha1Generator.cpp:217-227 | The two halves count eight more bits and report the wrap of the 64-bit count |
| `Sha1.Context.TakeByte` | src/libcoopy_core/Sha1Generator.cpp:211-236 | A context that holds a message holds it with one byte more |
| `Sha1.Context.Input` | src/libcoopy_core/Sha1Generator.cpp:194-239 | Takes the data after the message so far, up to the length where the count wraps; a closed context is corrupted instead |
| `Sha1.Context.MakeRoom` | src/libcoopy_core/Sha1Generator.cpp:378-401 | The bit and the zeros up to the length, over a block boundary when fewer than nine bytes are free |
| `Sha1.Context.PadMessage` | src/libcoopy_core/Sha1Generator.cpp:371-417 | The hash becomes the compression function folded over the padded message |
| `Sha1.PaddedTail` | src/libcoopy_core/Sha1Generator.cpp:378-414 | The padding of section 4 is what the two cases write |
| `Sha1.Context.Result` | src/libcoopy_core/Sha1Generator.cpp:140-171 | The octets of the digest, the same on a second call; an error code for a message too long |
| `Sha1.DigestToBase16` | src/libcoopy_core/Sha1Generator.cpp:426-436 | Two hexadecimal digits for every octet, the high one first |
| `Sha1.Checksum.StepText` | src/libcoopy_core/Sha1Generator.cpp:450-461 | What has been fed grows by the named bytes: the first so many, or those before the zero, their number narrowed to 32 bits |
| `Sha1.Checksum.Add` | src/libcoopy_core/include/coopy/Sha1Generator.h:17-23 | Feeds what the narrowed length leaves of a text, all of it when it is short enough |
| `Sha1.FedIffWhole` | src/libcoopy_core/include/coopy/Sha1Generator.h:17-23 | A text is fed whole if and only if it has fewer than 2^31 bytes, or fewer than 2^32 and no zero byte |
| `Sha1.RoundLengthIsLost` | src/libcoopy_core/Sha1Generator.cpp:450-461 | Of a text of 2^32 bytes nothing is fed |
| `Sha1.JoinedIffWhole` | src/libcoopy_core/include/coopy/Sha1Generator.h:17-23 | A split message is fed without loss if and only if every step is |
| `Sha1.Checksum.Finish` | src/libcoopy_core/Sha1Generator.cpp:471-483 | The digest of everything fed since the last finish, and a fresh start |
| `Sha1.HashInSteps` | src/libcoopy_core/Sha1Generator.cpp:450-483 | Any split into steps gives the RFC 3174 digest of the bytes fed, and of the message itself when every step is fed whole, for fewer than 2^61 bytes |
| `Sha1Answer.ConstantsAreRoots` | src/libcoopy_core/Sha1Generator.cpp:263-268 | The four constants are the square roots of 2, 3, 5 and 10 with thirty bits after the point |
| `Sha1Answer.RoundFunctionBits` | src/libcoopy_core/Sha1Generator.cpp:296-337 | Bit for bit the rounds choose, take the parity, take the majority and take the parity |
| `Sha1Answer.Rotl1Multiplies` | src/libcoopy_core/Sha1Generator.cpp:81-82 | A rotation by 1 doubles and adds what falls off the top |
| `Sha1Answer.Rotl5Multiplies` | src/libcoopy_core/Sha1Generator.cpp:81-82 | A rotation by 5 multiplies by 32 and adds what falls off the top |
| `Sha1Answer.Rotl30Multiplies` | src/libcoopy_core/Sha1Generator.cpp:81-82 | A rotation by 30 multiplies by 2^30 and adds what falls off the top |
| `Sha1Answer.StartCounts` | src/libcoopy_core/Sha1Generator.cpp:109-113 | The starting words are, low octet first, the digits up to f and down again, and f0, e1, d2, c3 |
| `Sha1Answer.OctetsValue` | src/libcoopy_core/Sha1Generator.cpp:406-414 | The octets of a length, the highest first, have its value |
| `Sha1Answer.AbcDigest` | src/libcoopy_core/Sha1Generator.cpp:261-346 | The digest of "abc" is the one section 7.3 of RFC 3174 gives |
| `Sha1Answer.HashAbc` | src/libcoopy_core/Sha1Generator.cpp:450-483 | Feeding "abc" in any steps yields that digest in base 16 |
| `Sha1.GetHash` | src/libcoopy_core/DataSheet.cpp:210-224 | The digest of what was fed before followed by what is fed of each row, which is the table when every row is fed whole |
| `Sha1.CoopyAdd` | src/libsqlite/SqliteTextBook.cpp:40-57 | Feeds what is fed of each cell of a row, in order |
| `Sha1.CoopySet` | src/libsqlite/SqliteTextBook.cpp:24-38 | Finishes the checksum, and reports it only for a positive argument |
| `Sha1.RawHash` | src/libsqlite/SqliteSheet.cpp:335-394 | The digest of what is fed of each cell, the table when every cell is fed whole, whatever was fed before |
| `Sha1.HashesAgree` | src/libcoopy_core/DataSheet.cpp:210-224 | When every row's text is fed whole the row-wise and the cell-wise hash of one table are equal |
| `SqlDiff.Compare` | src/libcoopy_sqldiff/SqlCompare.cpp:7-180 | Refuses differing columns, differing keys or no key; otherwise emits inserts, updates and deletes of the three queries in order |
| `SqlDiff.MismatchIsDifference` | src/libcoopy_sqldiff/SqlCompare.cpp:61-66 | For rows of equal key, a mismatch outside the key is any difference |
| `SqlDiff.MissingMembers` | src/libcoopy_sqldiff/SqlCompare.cpp:78-95 | A row is in the insert or delete query exactly when its key is not in the other table |
| `SqlDiff.MismatchedMembers` | src/libcoopy_sqldiff/SqlCompare.cpp:81-81 | A pair is in the update query exactly when keys agree and data differs |
| `SqlDiff.UpdateIsChange` | src/libcoopy_sqldiff/SqlCompare.cpp:132-155 | An update sets at least one column, no key column, only differing ones, and gives the row of table 2 |
| `SqlDiff.ModesAgree` | src/ruby/sql_compare.rb:97-108 | Changes of different kinds never touch the same key |
| `SqlDiff.DiffIsDiff` | src/ruby/sql_compare.rb:97-152 | The comparison says every difference of the two tables, with one change a key |
| `SqlDiff.SqlTable.RowInsert` | src/ruby/diff_apply_sql.rb:11-16 | The row is added |
| `SqlDiff.SqlTable.RowDelete` | src/ruby/diff_apply_sql.rb:18-23 | Exactly the rows equal in all columns go |
| `SqlDiff.SqlTable.RowUpdate` | src/ruby/diff_apply_sql.rb:25-33 | Exactly the rows equal in all columns get the new values in the touched ones |
| `SqlDiff.StepMembers` | src/ruby/diff_apply_sql.rb:11-33 | After any part of a diff the table holds the rows left alone and the rows brought, nothing else |
| `SqlDiff.BecomesReady` | src/ruby/sqlite_sql_wrapper.rb:45-66 | Every insert meets the unique key and every update or delete finds its row |
| `SqlDiff.ApplyDiff` | src/ruby/diff_apply_sql.rb:11-33 | A diff applied in whatever order turns table 1 into exactly table 2 |
| `SqlDiff.Reordered` | src/ruby/sql_compare.rb:154-162 | Another order of the changes is a diff too |
| `SqlDiff.Synchronize` | src/ruby/sql_compare.rb:54-119 | Comparing and applying by the program's own steps yields the rows of table 2, each once, in any order of arrival |
| `SqlContext.PassIsDeclared` | src/ruby/sql_compare.rb:172-219 | The streaming pass shows every change and each row at most two places from one, with a marker exactly where a shown item follows a dropped one |
| `SqlContext.TailShown` | src/ruby/sql_compare.rb:180-216 | Which items at the end are shown: those up to two places after the last change |
| `SqlContext.PassSame` | src/ruby/sql_compare.rb:203-216 | An unchanged row is shown at once when one is due, and held back among the last two otherwise |
| `SqlContext.PassChanged` | src/ruby/sql_compare.rb:187-200 | A change brings out the rows held back, after a marker when more were dropped |
| `SqlContext.EndMarker` | src/ruby/sql_compare.rb:218-218 | The output ends in a marker if and only if there was a change and three or more rows are dropped at the end |
| `SqlStream.ApplyWithContext` | src/ruby/sql_compare.rb:172-219 | The loop with its map of pending changes, history, countdown and flags |
| `SqlStream.HitIffTouched` | src/ruby/sql_compare.rb:173-187 | A key of the stream is hit exactly when a change touches it, and by that change |
| `SqlStream.UntouchedIsShared` | src/ruby/sql_compare.rb:201-203 | A key without a change has the same row in both tables, so the second one is redundant |
| `SqlStream.StreamIsItems` | src/ruby/sql_compare.rb:110-114 | The merged stream of both tables runs as one item for every key |
| `SqlStream.DeclaredChanges` | src/ruby/sql_compare.rb:187-200 | Every change comes out exactly once, in the order of the keys |
| `SqlStream.KeyOrderIsDiff` | src/ruby/sql_compare.rb:154-200 | The changes in key order are a diff of the two tables |
| `SqlStream.CompareWithContext` | src/ruby/sql_compare.rb:54-219 | Compare, pass and apply: the output is the declared one and table 1 becomes table 2 |

## Left out

- Costs are exact reals: the single-precision rounding of `Viterbi` is not modelled.
- Head and tail trimming of `OrderMerge` (the -2 codes) and a second `merge` on the same object.
- `OrderMerge`'s other entry points (`merge_by_id`, the unused shunting merge) and `Merger`'s replay of moves.
- Mover.Mover.Move: shortest is claimed when at most 100 solutions were counted or there are at most four elements; which
  longer inputs exceed the cap is not characterised beyond the rotations.
- Where an inserted row goes in its sheet (`rowCursor`), creating missing sheets, links declared during a run, and every
  change mode but inserts in `SheetPatcher`; what a table mints is arbitrary.
- `SheetPatcher` leaves the process on a cycle; the model returns false with the rows that are left.
- The scores and candidates of `MeasureMan` are arbitrary, and so are its drift, a logarithm of the distance in the program, and its acceptance test.
- `CSV_STRICT`, `CSV_APPEND_NULL` and `CSV_REPALL_NL` in libcsv, header marks, multi-sheet headings and schema sniffing.
- Delimiters longer than one character, and what `memcmp` sees past the end of the field buffer.
- CsvSurvival.TableRoundTrip: speaks of printable cells; a null token that needs quotes and is printed bare, and a text that
  equals the token when the delimiter is an underscore, are outside it, and so is a garbled text below a row that prints as nothing.
- CsvSurvival.SendTable: speaks of printable cells, as `CsvSurvival.TableRoundTrip` does.
- Tdiff.UpdateRow: prints factored rows without conflict marks, the form the row law is about.
- TdiffRoundTrip.RowRoundTrip: speaks of factored rows without conflicts; what the named and conflicting forms are read as is in `TdiffParts`, how they are printed is not modelled.
- Column headers, comments and sheet commands of TDIFF, `inferMove` and `markChanges`.
- `DataSheet::getHash` caching, the debugging count of hashed bytes, and the digest of a message of 2^61 bytes or more, which the program leaves undefined.
- The text of the SQL queries: they are read as relations, with `IS` as equality, and rows in the order of the tables. A table that is all key makes the
  update query malformed, which the C++ version skips; no row can differ there.
- SqlStream.CompareWithContext: assumes that `keyify` tells the keys apart, as joining with "___" may not; the order of the keys is the database's.
- Marker rows are all alike in the model; the program sizes them by the row at hand.
- File formats, databases, bindings, the GUI, options and HTML rendering.
