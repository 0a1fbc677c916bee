# Kanban task list of ReactDashboard, modelled in Dafny

The dashboard's only rule-governed state is the kanban board in `src/App.js`:
an ordered list of cards (each an `id` and a `content` string) and the text
pending in the "New Task" field. This project models that state as an
immutable `Board` record and each event handler as a pure transition:

- `onDragEnd` (`Kanban.OnDragEnd`): a drag with no destination changes
  nothing; otherwise the card at the source index is spliced out and
  reinserted at the destination index (`Reorder.Move`).
- `handleAddTask` (`Kanban.AddTask`): blank pending text (empty after
  `trim()`) is ignored; otherwise a card `{id: "item-" + (length + 1),
  content: <untrimmed text>}` is appended and the field is cleared.
- `handleDeleteTask` (`Kanban.DeleteTask`): keeps every card whose `id`
  differs from the target, in order (`Kanban.KeepOthers`).
- the text field's `onChange` (`Kanban.EditPending`): replaces the pending
  text.

The board starts as the three seed cards `item-1` .. `item-3` with empty
text (`Kanban.Initial`). `Kanban.Run` plays a history of interactions.

Modules:

- `Text` (`text.dfy`): `String.prototype.trim` over the ECMAScript whitespace
  and line-terminator characters, and the decimal rendering of a number with
  its parsing inverse.
- `Reorder` (`reorder.dfy`): the two `splice` calls as `RemoveAt` and
  `InsertAt`, their composition `Move`, and an index-by-index reference
  definition of a move.
- `Kanban` (`kanban.dfy`): cards, board, drop results, handlers, events and
  histories.
- `KanbanLaws` (`kanban_laws.dfy`): the exact meaning of delete, the
  identifier invariant of delete-free histories, the identifier collision
  that deletes make possible, and a worked session.

Identifiers are derived from the current length, as the code does. They are
therefore NOT unique in general: `KanbanLaws.DeleteThenAddCollides` shows
that deleting `item-2` from the seed and then adding a card yields two cards
called `item-3`. Uniqueness, and more precisely "the identifiers are exactly
`item-1` .. `item-n`", is proved only for histories without deletes
(`KanbanLaws.DeleteFreeHistoryIds`). Nothing in `handleAddTask` keeps
identifiers unique; the model follows the code.

## Model

| member | source | states |
|---|---|---|
| Text.IsBlank | src/App.js:69 | the pending text counts as blank (its trimmed form is empty) exactly when every character is whitespace |
| Text.Trim | src/App.js:69 | the trimmed text is no longer than the input and neither starts nor ends with whitespace |
| Text.TrimSlice | src/App.js:69 | the trimmed text is the contiguous slice of the input left after cutting a whitespace-only prefix and a whitespace-only suffix |
| Text.NatToString | src/App.js:70 | the rendered number is a non-empty digit string with no leading zero except for 0, one digit exactly for numbers below 10 |
| Text.ParseNatToString | src/App.js:70 | reading back a rendered number gives the number |
| Text.NatToStringParse | src/App.js:70 | rendering the value of a canonical digit string gives the string back |
| Text.NatToStringInjective | src/App.js:70 | two numbers render to the same string exactly when they are equal |
| Kanban.ItemId | src/App.js:70 | a new card's identifier starts with the `item-` prefix and has at least one character after it |
| Kanban.ItemIdDigits | src/App.js:70 | after the `item-` prefix, the identifier is a digit string whose value is the number, so `ItemId(n)` is `item-` followed by `n` in decimal |
| Kanban.ItemIdInjective | src/App.js:70 | identifiers built from two numbers are equal exactly when the numbers are |
| Kanban.Initial | src/App.js:44-50 | the board starts with three cards whose identifiers are `item-1`, `item-2`, `item-3`, and empty pending text |
| Reorder.RemoveAt | src/App.js:63 | taking out the element at `i` shortens the list by one, keeps the elements before `i`, shifts the later ones down, and loses exactly one copy of the removed element |
| Reorder.InsertAt | src/App.js:64 | inserting at `j` lengthens the list by one, puts the element at `j`, keeps the elements before `j`, shifts the later ones up, and adds exactly one copy |
| Reorder.Move | src/App.js:62-64 | a move keeps the length, is a permutation, puts the moved element at the destination, and removing it from the old and new lists leaves identical lists |
| Reorder.MoveMatchesReference | src/App.js:62-64 | the two splices agree with an index-by-index definition: the destination holds the moved element, the block between the indices shifts one slot towards the vacated one, all else stays |
| Reorder.MoveInPlace | src/App.js:62-64 | dropping an element at the index it was taken from changes nothing |
| Reorder.MoveRoundTrip | src/App.js:62-64 | moving from `i` to `j` and then from `j` to `i` restores the list, for all in-bounds `i`, `j` |
| Kanban.OnDragEnd | src/App.js:60-66 | without a destination the board is unchanged; with one, the cards are permuted, the moved card sits at the destination, the other cards keep their relative order, and the pending text is kept |
| Kanban.AddTask | src/App.js:68-73 | all-whitespace text changes neither cards nor text; other text appends exactly one card, with the untrimmed text and identifier `item-<old length + 1>`, leaves earlier cards untouched, and clears the text |
| Kanban.KeepOthers | src/App.js:76 | the `filter` of `handleDeleteTask`; its specification is `Kanban.KeepOthersSpec` (an in-order subsequence keeping every card whose identifier differs, at its original multiplicity, and no other) and `KanbanLaws.KeepOthersExact` (that specification determines the result) |
| Kanban.KeepOthersSpec | src/App.js:76 | the filter's result is a subsequence of the cards holding every card whose identifier differs from the target as often as the input does, and no card with the target identifier |
| Kanban.DeleteTask | src/App.js:75-77 | after a delete the cards are an in-order subsequence of the old ones, every card whose identifier differs from the target keeps its number of copies, no card with the target identifier remains, and the pending text is kept |
| Kanban.EditPending | src/App.js:139 | typing replaces the pending text and leaves the cards alone |
| KanbanLaws.SubsequenceMultiset | src/App.js:76 | an in-order subsequence holds no element more often than the list it came from |
| KanbanLaws.KeepOthersExact | src/App.js:76 | any in-order subsequence with exactly the surviving cards at their original multiplicities IS the filter's result, so the filter's specification determines it |
| KanbanLaws.KeepOthersAbsent | src/App.js:76 | filtering out an identifier no card carries returns the cards unchanged |
| KanbanLaws.DeleteAbsent | src/App.js:75-77 | deleting an absent identifier leaves the board unchanged |
| KanbanLaws.DeleteIdempotent | src/App.js:75-77 | deleting the same identifier twice equals deleting it once |
| KanbanLaws.TypeThenAdd | src/App.js:68-73 | typing text then adding appends exactly one card with that text and the next identifier and clears the field when the text is not blank, and otherwise leaves the cards alone and keeps the typed text |
| KanbanLaws.DropRoundTrip | src/App.js:60-66 | dragging a card from `i` to `j` and back from `j` to `i` restores the board |
| KanbanLaws.ExpectedIdsCount | src/App.js:70 | the multiset of the first `n` generated identifiers holds `item-k` once for `1 <= k <= n` and not otherwise |
| KanbanLaws.ExpectedIdsMember | src/App.js:70 | every identifier among the first `n` generated ones is `item-k` for some `1 <= k <= n` |
| KanbanLaws.SequentialIdsDistinct | src/App.js:70 | when the cards carry exactly `item-1` .. `item-n`, no two cards share an identifier |
| KanbanLaws.SequentialIdsInRange | src/App.js:70 | under the same invariant every card's identifier is some `item-k` with `1 <= k <= n` |
| KanbanLaws.SequentialIdsCover | src/App.js:70 | under the same invariant every `item-k` with `1 <= k <= n` is some card's identifier |
| KanbanLaws.SequentialIdsMeaning | src/App.js:70 | the invariant implies distinct identifiers forming exactly `item-1` .. `item-n` |
| KanbanLaws.InitialSequential | src/App.js:44-48 | the seed cards satisfy the identifier invariant |
| KanbanLaws.AppendNextKeepsSequential | src/App.js:70 | appending a card whose identifier is `item-<length + 1>` keeps the identifiers exactly `item-1` .. `item-n` |
| KanbanLaws.AddKeepsSequential | src/App.js:68-73 | adding a card preserves the identifier invariant, because the new identifier is the next number |
| KanbanLaws.IdsOfMove | src/App.js:62-64 | moving cards moves their identifiers in the same way |
| KanbanLaws.DropKeepsSequential | src/App.js:60-66 | a drop preserves the identifier invariant |
| KanbanLaws.DeleteFreeKeepsSequential | src/App.js:60-73 | any history of drops, typing and adds preserves the identifier invariant |
| KanbanLaws.DeleteFreeHistoryIds | src/App.js:44-73 | from the seed, any delete-free history leaves pairwise distinct identifiers that are exactly `item-1` .. `item-n` |
| KanbanLaws.DeleteThenAddCollides | src/App.js:68-77 | from the seed, deleting `item-2` and adding any non-blank text leaves three cards, two of them called `item-3`, so deletes break uniqueness |
| KanbanLaws.SeedSession | src/App.js:44-77 | from the seed, adding a task, deleting `item-2` and dragging index 0 to index 2 gives `item-3`, `item-4` (the new card), `item-1`, with the field cleared |

## Left out

- Rendering, layout and styling of the page (src/App.js:79-184, apart from the input field's `onChange` at line 139): presentation over MUI components with no state rules.
- Routing between the Dashboard, Tables, Charts, Calendar and Kanban views: navigation glue that does not touch the board.
- The static data-grid rows and columns and the chart data (src/App.js:12-35), and the data grid, chart and calendar widgets they feed (src/App.js:115-131): fixed display data handed to third-party widgets.
- Theme toggling (src/App.js:38-42, 52-58): a light/dark flip inside MUI's `createTheme`, with no interaction with the board.
- How the drag-and-drop library computes its result: only the source index and the optional destination index are modelled.
- Kanban.OnDragEnd: requires both indices to address a card when a destination is present; `splice`'s clamping of out-of-range or negative indices is not modelled, because the drag layer only reports indices of rendered cards.
- React's batching of state updates and stale closures: each handler is one synchronous transition of the whole board.
- Text.IsWhitespace: the set of characters `trim` strips is fixed to the ECMAScript WhiteSpace and LineTerminator characters of current Unicode; a future Unicode version adding space separators is not tracked.
- Identifier uniqueness across deletes: not claimed, because it does not hold (see `KanbanLaws.DeleteThenAddCollides`).
