# Spreadsheet cell engine in Dafny

This project models the dependency and invalidation engine of a small C++
spreadsheet. A `Sheet` owns its cells in a map keyed by `Position`. Each
`Cell` holds one of three contents: Empty, Text, or a Formula with a memoised
value (`cache_`). A cell also holds two edge sets:

- `reference_`: the cells it reads;
- `depend_`: the cells that read it.

`Cell::Set(text)` is modelled as the following protocol, the one its comments
and the rest of the engine rely on (as written, line 50 then re-links the old
references; see Findings):

1. return at once when the text is unchanged;
2. classify the text;
3. parse a formula;
4. reject a circular dependency with a depth-first search;
5. rewrite the edges, creating empty cells for positions read for the first time;
6. swap the content in;
7. reset the caches of the cell and of its cached readers, transitively.

`Sheet` checks positions, creates a cell on first write, clears a cell by
nulling its entry, and computes the printable bounding box.

## How the model is laid out

- `outcomes.dfy`: `Option`, `Result`, and `Outcome` (Pass, or Fail with an error). The exceptions `InvalidPositionException`, `CircularDependencyException` and `FormulaException` become the errors `InvalidPosition`, `CircularDependency` and `SyntaxError`.
- `positions.dfy`: `Position`, `Position::IsValid`, and `Sheet::PositionHasher`.
- `formulas.dfy`: the formula collaborator. A parsed formula is its expression text plus the positions it reads. Parsing and evaluation are function-typed parameters.
- `cells.dfy`: `Content` stands for `Cell::Impl` and its three implementations, with their getters. `Node` is a cell: its content, `reference_` and `depend_`. `Arena` is the sheet's map. A `None` entry is one whose `unique_ptr` was reset by `ClearCell`.
- `graph.dfy`:
  - read edges and reachability;
  - `WellFormed`, the invariant kept between the content and the two edge sets;
  - `Ranked`, acyclicity witnessed by a rank that decreases along read edges;
  - the vocabulary of the cache walk.
- `invalidation.dfy`: what `InvalidateCache` clears, characterised for any order in which the walk visits readers.
- `edges.dfy`: `UpdateDependencies` as a function on the arena, and the commit of a new content.
- `protocol.dfy`:
  - `CellSetSpec`, the specification of `Cell::Set` with the edges taken from the new content;
  - `SetAsWritten`, the protocol exactly as written (see Findings);
  - the properties relating the two.
- `sheet.dfy`: class `Sheet`.
  - The field `cells` is the map, and a ghost `rank` witnesses acyclicity.
  - The `Cell` member functions become methods acting on the cell at a position: `CheckCircularDepend`, `CheckDependency`, `UpdateDependencies`, `InvalidateCache`, `InvalidateCacheRecursive`, `CellSet`, `CellClear` and `CellGetValue`.
  - They sit next to `SetCell`, `GetCell`, `ClearCell` and `GetPrintableSize`.
  - Each method is proved against the specification functions above.

Identities are positions. A `Cell*` in an edge set becomes the `Position` of
that cell, and a cell's `this` becomes the position it is stored at.

## Model

| member | source | states |
|---|---|---|
| Positions.Hash | spreadsheet/sheet.h:35-39 | for a valid position, `row + col*37` is non-negative and at most 16383*38, below 2^31, so neither the `int` arithmetic overflows nor the `size_t` conversion changes it; it is 0 only at (0,0) |
| Positions.HashCollides | spreadsheet/sheet.h:35-45 | two distinct valid positions share a hash, so the map must tell keys apart by Position equality |
| Cells.GetText | spreadsheet/cell.cpp:195-197 | the text of a formula cell starts with FORMULA_SIGN |
| Cells.ReferencedCells | spreadsheet/cell.cpp:199-201 | Empty and Text read nothing (the base implementation at lines 144-146 returns an empty list); a formula returns the positions its parsed formula reports, in order and with repeats, all valid |
| Cells.GetCache | spreadsheet/cell.cpp:207-209 | Empty and Text hold no cache (the base implementation at lines 148-150 returns none); a formula returns its memoised value, present or absent |
| Cells.ResetCache | spreadsheet/cell.cpp:203-205 | afterwards no cache is present; text and referenced cells are unchanged; a content without a cache (Empty, Text, the base no-op) is left as it was |
| Cells.GetValue | spreadsheet/cell.cpp:155-193 | only a formula yields a number or an error; Empty shows ""; a text shows its raw characters, which it changes exactly when they start with ESCAPE_SIGN, and then only by dropping that one sign; a formula's value is its evaluation, whatever its cache holds |
| Cells.Classify | spreadsheet/cell.cpp:22-47 | fails, with SyntaxError only, exactly when the text is "=" followed by something that does not parse; the new content holds no cache; it is Empty exactly for ""; a non-formula content shows the text it was built from |
| Cells.ClassifyCases | spreadsheet/cell.cpp:22-47 | "" gives Empty; "=" followed by at least one character gives a Formula on the rest, or SyntaxError when it does not parse; everything else, a lone "=" included, gives Text; the only error is SyntaxError; a new content never holds a cache |
| Cells.TextRoundTrip | spreadsheet/cell.cpp:164-197 | GetText of the content Set builds is the text Set was given, for a parser that prints formulas back as read |
| Cells.EscapeStripped | spreadsheet/cell.cpp:166-176 | a text cell's value drops exactly one leading ESCAPE_SIGN and its text is the raw string |
| Cells.CacheOnlyInFormula | spreadsheet/cell.cpp:144-152 | only a formula holds a cache; the base ReferencedCells is empty and the base ResetCache changes nothing; resetting is idempotent |
| Graph.ReachesVia | spreadsheet/cell.cpp:84-102 | a position other than the target reaches it exactly when it holds a cell one of whose referenced positions reaches it (the step the DFS takes) |
| Graph.DeadEndReachesOnlyItself | spreadsheet/cell.cpp:92-97 | a null or absent cell, or one that reads nothing, reaches only itself (the DFS skips it) |
| Graph.NoCycle | spreadsheet/cell.cpp:84-102 | in a ranked arena no cell reaches itself through one or more read edges |
| Graph.NoCachedReaches | spreadsheet/cell.cpp:131-141 | when every cached formula's formula inputs are cached and neither p nor any cell reading p holds a cache, no cached cell reaches p |
| Graph.CachesOnlyKeepsWellFormed | spreadsheet/cell.cpp:131-141 | clearing caches keeps the edge invariant |
| Graph.CachesOnlyKeepsRanked | spreadsheet/cell.cpp:131-141 | clearing caches keeps acyclicity |
| Graph.ResetShrinksCached | spreadsheet/cell.cpp:134-138 | resetting a present cache strictly lowers the number of cached cells, so the walk terminates |
| Graph.CachesOnlyIsClearCaches | spreadsheet/cell.cpp:131-141 | a change that only clears caches is exactly ClearCaches on the cells whose cache it cleared |
| Invalidation.InvalidateSpec | spreadsheet/cell.cpp:126-141 | invalidation keeps every key and which entries are live, fills no cache, and leaves the cell's own cache reset |
| Invalidation.InvalidateQuiet | spreadsheet/cell.cpp:126-141 | invalidating a cell that holds no cache and none of whose readers holds one changes nothing |
| Invalidation.WalkClearsCachedDependents | spreadsheet/cell.cpp:131-141 | a walk from x that leaves no cached reader below x or below any cell it cleared, and clears only readers of x or of cleared cells, clears exactly the cells reachable from x through readers holding a cache, in whatever order it visits them |
| Invalidation.ClearedIsReachable | spreadsheet/cell.cpp:131-141 | every cell the walk cleared is reached from x through a chain of cached readers |
| Invalidation.ReachableIsCleared | spreadsheet/cell.cpp:131-141 | every cell reached from x through a chain of cached readers is cleared by the walk |
| Invalidation.InvalidateTouchesCachesOnly | spreadsheet/cell.cpp:126-129 | InvalidateCache changes caches only and leaves the cell's own cache reset |
| Invalidation.InvalidationClearsReaders | spreadsheet/cell.cpp:126-141 | afterwards no direct reader of the cell holds a cache |
| Invalidation.InvalidationCoversCachedReaders | spreadsheet/cell.cpp:126-141 | if every cached formula's formula inputs are cached (readers of p aside), the walk leaves that property holding everywhere, no direct reader of p holds a cache, and no cell still holding a cache reaches p along read edges, so no transitive reader of p keeps a stale cache |
| Invalidation.DirectReaderWalked | spreadsheet/cell.cpp:132-138 | a direct reader of p holding a cache is among the cells the walk clears |
| Invalidation.WalkExtends | spreadsheet/cell.cpp:132-138 | a cached reader of a cell the walk clears is cleared too |
| Invalidation.WalkStepCaches | spreadsheet/cell.cpp:134-138 | one step of the walk (reset a cached reader, then recurse from it) changes caches only, clears that reader and refills nothing |
| Invalidation.WalkStepClosed | spreadsheet/cell.cpp:134-138 | after a step, no reader of any cell cleared so far holds a cache |
| Invalidation.WalkStepSupported | spreadsheet/cell.cpp:134-138 | after a step, every cleared cell reads x or reads a cleared cell |
| Edges.RelinkAt | spreadsheet/cell.cpp:105-124 | per position: the cell leaves the depend_ of every cell it read and joins those of the new positions; its reference_ is the set of new positions; an absent position becomes an empty cell read only by it; other cells keep content and reference_ |
| Edges.Relink | spreadsheet/cell.cpp:105-124 | UpdateDependencies: the keys afterwards are the old keys plus the new positions; the cell stays live with reference_ the set of new positions; a null entry stays as it was |
| Edges.RelinkSameIsIdentity | spreadsheet/cell.cpp:105-124 | in a well-formed arena, re-linking a cell to the positions it already reads changes nothing |
| Edges.CommitSameIsIdentity | spreadsheet/cell.cpp:27-33 | in a well-formed arena, committing the content a cell already holds changes nothing |
| Edges.UnlinkStep | spreadsheet/cell.cpp:108-110 | one erase of this cell from a former reference's depend_ advances the erase loop by that cell |
| Edges.UnlinkedCleared | spreadsheet/cell.cpp:112 | clearing reference_ after the erase loop gives the arena with no new references linked |
| Edges.LinkStep | spreadsheet/cell.cpp:114-123 | one iteration (create if absent, insert into reference_ and depend_) advances the link loop by that position; a repeated position changes nothing |
| Edges.RelinkKeepsInverse | spreadsheet/cell.cpp:105-124 | the rewrite keeps "B in A.reference_ iff A in B.depend_"; reference_ becomes the set of new positions (duplicates collapse); each holds a cell listing this one as a reader; no cell is dropped |
| Edges.CommitEdges | spreadsheet/cell.cpp:31-33 | after rewriting the edges and swapping the content in, the committed cell reads exactly the new content's positions and every other cell reads what it read before |
| Edges.CommitWellFormed | spreadsheet/cell.cpp:31-33 | the commit keeps the edge invariant, and every position the content reads holds a cell |
| Edges.InstallSameReads | spreadsheet/cell.cpp:182-186 | filling a formula's cache keeps the edge invariant and acyclicity |
| Protocol.CellSetSpec | spreadsheet/cell.cpp:13-54 | Set with the edges committed from the new content: unchanged text changes nothing; the only errors are SyntaxError (when classification fails), CircularDependency and NullCell; on success the cell is live, no key is lost and no nulled entry comes back |
| Protocol.CommitRanked | spreadsheet/cell.cpp:27-33 | when no new reference reaches the cell, the commit keeps the graph acyclic (cells that reached it are re-ranked above the others) |
| Protocol.CommitCacheClosed | spreadsheet/cell.cpp:31-33 | swapping in a cache-free content keeps the cache property everywhere except at readers of the changed cell |
| Protocol.SetKeepsValid | spreadsheet/cell.cpp:13-54 | a successful Set keeps the edge invariant and acyclicity |
| Protocol.CellSetWellFormed | spreadsheet/cell.cpp:13-54 | a successful Set keeps the edge invariant |
| Protocol.SetResult | spreadsheet/cell.cpp:22-53 | after a Set that changes the text, the cell holds the classified content and its reference_ is the set of positions that content reads; each of those positions holds a cell listing it as a reader |
| Protocol.SetKeepsCacheClosed | spreadsheet/cell.cpp:13-54 | Set keeps every cached formula's formula inputs cached, and after a change no reader of the cell holds a cache |
| Protocol.SetIdempotent | spreadsheet/cell.cpp:13-54 | in an acyclic, well-formed sheet, setting the same text a second time is a no-op, whatever the parser |
| Protocol.OwnReadsNotCyclic | spreadsheet/cell.cpp:84-102 | in an acyclic arena, no position a cell's content reads leads back to that cell |
| Protocol.SetLeavesReadersUncached | spreadsheet/cell.cpp:13-54 | after a Set that changed the text, neither the cell nor any direct reader of it holds a cache |
| Protocol.SelfReferenceRejected | spreadsheet/cell.cpp:88-90 | a formula that reads its own cell fails with CircularDependency |
| Protocol.ReaderReferenceRejected | spreadsheet/cell.cpp:84-102 | a formula that reads a cell already reading this one fails with CircularDependency |
| Protocol.ClearDropsEdges | spreadsheet/cell.cpp:58-60 | Clear gives text "" whatever the parser; the cell reads nothing and no cell lists it as a reader |
| Protocol.StagedAsWritten | spreadsheet/cell.cpp:22-47 | as written, the branch of Set before line 50: the only errors are SyntaxError, CircularDependency and NullCell; on success the cell is live, holds the classified content and no key is lost |
| Protocol.SetAsWritten | spreadsheet/cell.cpp:13-54 | Set as written: unchanged text changes nothing; the only errors are SyntaxError, CircularDependency and NullCell; after a change the cell's reference_ is the set of positions its OLD content read |
| Protocol.SetAsWrittenRestoresOldEdges | spreadsheet/cell.cpp:50 | as written, after any Set the cell's reference_ is again the set of positions its OLD content read |
| Protocol.SetAsWrittenTail | spreadsheet/cell.cpp:49-53 | as written, Set ends by re-linking the old references and then invalidating |
| Protocol.StagedFormula | spreadsheet/cell.cpp:23-34 | as written, a formula that passes the checks is linked and swapped in before line 50 |
| Protocol.StaleEdgesNotWellFormed | spreadsheet/cell.cpp:50 | a cell whose reference_ differs from its content's references breaks the edge invariant |
| Protocol.InvalidateKeepsNode | spreadsheet/cell.cpp:126-141 | invalidation leaves every cell's edges, referenced cells and text alone |
| Protocol.FormulaEdgesLostAsWritten | spreadsheet/cell.cpp:50 | as written, "=B1" on an empty A1 leaves A1 reading B1 with an empty reference_ and B1 with an empty depend_: the edge invariant breaks |
| Protocol.ClearKeepsEdgesAsWritten | spreadsheet/cell.cpp:50 | as written, clearing a formula A1 that reads B1 leaves text "" but keeps B1 in A1's reference_ and A1 in B1's depend_ |
| Protocol.ClearStagedAsWritten | spreadsheet/cell.cpp:43-46 | as written, clearing a formula A1 that reads B1 first swaps in Empty and commits no references, unlinking A1 and B1 |
| Protocol.ClearAsWrittenSteps | spreadsheet/cell.cpp:13-54 | as written, that Clear is the empty-branch commit, then the re-commit of the old reference list [B1], then invalidation |
| Protocol.ClearRecommitAsWritten | spreadsheet/cell.cpp:50 | line 50 links the old reference B1 again, both ways, under the Empty content |
| Protocol.FormulaSetSucceeds | spreadsheet/cell.cpp:23-34 | with the edges committed from the new content, "=B1" on an empty A1 passes the cycle and null checks |
| Protocol.FormulaEdgesKept | spreadsheet/cell.cpp:27-33 | with the edges committed from the new content, "=B1" on A1 links A1 and B1 both ways and the edge invariant holds |
| Sheets.SetCellSpec | spreadsheet/sheet.cpp:11-22 | InvalidPosition exactly for an invalid position, with nothing changed; for a valid position the key exists afterwards, whatever the outcome; no key is lost; no nulled entry comes back; on Pass the cell is live |
| Sheets.ClearCellSpec | spreadsheet/sheet.cpp:42-53 | InvalidPosition exactly for an invalid position; a failure changes nothing; the keys are kept; on Pass an existing entry is null afterwards; no nulled entry comes back |
| Sheets.Filled | spreadsheet/cell.cpp:182-185 | GetValue on a formula without a cache leaves one present; text and referenced cells unchanged; other contents untouched |
| Sheets.AddEmptyKeepsValid | spreadsheet/sheet.cpp:16-18 | creating an empty cell at a new valid key keeps the edge invariant and acyclicity |
| Sheets.NullDetachedKeepsValid | spreadsheet/sheet.cpp:50-51 | nulling the entry of a cell that reads nothing keeps the invariants; cells that read it keep references to the nulled entry |
| Sheets.SetCellKeepsValid | spreadsheet/sheet.cpp:11-22 | SetCell keeps the edge invariant and acyclicity on every outcome |
| Sheets.ClearCellKeepsValid | spreadsheet/sheet.cpp:42-53 | ClearCell keeps the invariants, and clearing a live cell leaves its key with a null entry |
| Sheets.SetAfterClearFails | spreadsheet/sheet.cpp:16-21 | SetCell on a position ClearCell nulled fails with NullCell and changes nothing |
| Sheets.Sheet.constructor | spreadsheet/sheet.h:45 | a new sheet holds no cells and satisfies the invariants |
| Sheets.Sheet.GetCell | spreadsheet/sheet.cpp:24-40 | InvalidPosition exactly for an invalid position; otherwise null exactly when no live cell is stored (never stored, or cleared), else the stored cell; one function serves both overloads |
| Sheets.Sheet.CheckCircularDepend | spreadsheet/cell.cpp:84-102 | finds the target exactly when it is reachable from one of the positions along read edges; changes nothing; when nothing is found, the visited set only grows and holds only cells that do not reach the target; terminates by the rank |
| Sheets.Sheet.CheckDependency | spreadsheet/cell.cpp:78-82 | CircularDependency exactly when a new reference reaches the cell; changes nothing |
| Sheets.Sheet.DetachReads | spreadsheet/cell.cpp:108-112 | the first half of UpdateDependencies: the cell leaves the depend_ of every cell it read and its reference_ becomes empty; nothing else changes |
| Sheets.Sheet.UpdateDependencies | spreadsheet/cell.cpp:105-124 | the map after the two loops is `Relink` of the old one; the edges stay mirrored; reference_ is the set of new positions; each holds a cell listing this one; a null dereference is reported as NullCell and changes nothing |
| Sheets.Sheet.InvalidateCacheRecursive | spreadsheet/cell.cpp:131-141 | changes caches only; afterwards no reader of the start cell and no reader of a cleared cell holds a cache, and every cleared cell reads the start cell or a cleared cell |
| Sheets.Sheet.InvalidateCache | spreadsheet/cell.cpp:126-129 | the map afterwards is the cell's own cache reset plus the caches of its cached dependents cleared (`InvalidateSpec`); invariants kept |
| Sheets.Sheet.CellSet | spreadsheet/cell.cpp:13-54 | unchanged text: Pass, nothing changes; otherwise Pass with the map `CellSetSpec` gives, or the error it gives with the map unchanged; invariants kept |
| Sheets.Sheet.CellClear | spreadsheet/cell.cpp:58-60 | exactly Set("") |
| Sheets.Sheet.CellGetValue | spreadsheet/cell.cpp:155-193 | the value of the content (the formula's evaluation for a formula); only the cell's cache may change, and it is filled when absent; invariants kept |
| Sheets.Sheet.SetCell | spreadsheet/sheet.cpp:11-22 | InvalidPosition for an invalid position with nothing touched; an empty cell is created when the key is absent and stays even if Set fails; a nulled entry fails with NullCell; otherwise the outcome and map of Set |
| Sheets.Sheet.ClearCell | spreadsheet/sheet.cpp:42-53 | InvalidPosition for an invalid position; on a live cell, Clear, then the entry nulled with the key kept; otherwise nothing |
| Sheets.Sheet.GetPrintableSize | spreadsheet/sheet.cpp:55-72 | every non-null position lies strictly inside the box; (0,0) exactly when there is no non-null entry; each non-zero dimension is one more than the largest row or column of a non-null entry |

## Left out

- Formula parsing and evaluation (`ParseFormula`, `FormulaInterface::Evaluate`, `GetExpression`): formula.h and formula.cpp are not part of this model. The parser and the evaluator are parameters. A parsed formula reports only valid positions.
- Numbers are `real`: double arithmetic and its formatting are not modelled.
- Position::IsValid and the exception classes live in common.h, which is not part of this model. The grid is assumed to be 16384 by 16384.
- `Sheet::PrintValues` and `Sheet::PrintTexts` (spreadsheet/sheet.cpp:74-116) write to a stream; they are I/O.
- `Cell::IsReferenced` (spreadsheet/cell.cpp:74-76) is defined but not declared in spreadsheet/cell.h, so it cannot be called; it is not modelled.
- design/cell.h is an earlier sketch of `Cell` without bodies; it is not modelled.
- Pointer identity and `dynamic_cast`: a cell is identified by its position.
- `IsValidPosition` (spreadsheet/sheet.h:42) and `CheckValidPosition` (spreadsheet/sheet.cpp:118): the declaration and the definition disagree on the name. Only the check itself is modelled, as `IsValid`.
- The iteration order of `depend_` and `reference_` (unordered sets): InvalidateCacheRecursive is proved for every order, and UpdateDependencies erases in an arbitrary order.
- `FormulaImpl::GetValue` evaluates twice and returns the second result. With a deterministic evaluator both results are equal, and the model evaluates once.
- The evaluator fills the caches of the cells a formula reads, through `Sheet::GetCell(...)->GetValue()` in formula.cpp. That is not modelled. CellGetValue fills only the cell's own cache. The property that a cached formula's formula inputs are cached (`CacheClosed`) is therefore an assumption of the invalidation lemmas, not an invariant of the Sheet.
- Undefined behaviour becomes the error NullCell, with nothing changed. This covers three cases: dereferencing a null entry through `SetCell` on a cleared position; the auto-create in UpdateDependencies reaching such a position; and erasing from the `depend_` of a cleared cell still listed in `reference_`. The source would crash or corrupt memory instead. UpdateDependencies checks for these before its first write, while the source would fail part-way.
- UpdateDependencies auto-creates a cell with `SetCell(c, "")`. On a new cell, `Set("")` returns at once because the text is already "", so the model inserts an empty cell directly.
- Sheets.Sheet.CellSet, Sheets.Sheet.SetCell and Sheets.Sheet.ClearCell follow the corrected protocol (`CellSetSpec`), not the re-commit at spreadsheet/cell.cpp:50. The as-written protocol is the function `Protocol.SetAsWritten`; see Findings.

## Findings

| source | as written | input that shows it | evidently intended | confidence | as-written member | corrected member |
|---|---|---|---|---|---|---|
| spreadsheet/cell.cpp:50 | after the new content is committed, `UpdateDependencies(current_referenced)` re-links the references of the OLD content, so the edge sets describe the old content (and the text branch at lines 36-38 re-checks the old references too) | on a sheet holding only an empty A1, setting A1 to "=B1": A1 reads B1 but `reference_` of A1 and `depend_` of B1 are empty, so invalidating B1 does not reach A1's cache; and clearing a formula A1 that reads B1 keeps both edges | commit the edges of the new content (check, link, swap in, invalidate) and do not re-link afterwards | high (by proof; not executed) | Protocol.FormulaEdgesLostAsWritten | Protocol.FormulaEdgesKept |
