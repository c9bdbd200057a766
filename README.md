# Crossword editor core in Dafny

This project models the core of a crossword-grid editor. The model covers:

- the numbering engine, which numbers every white square that begins a word of two or more squares across or down, and collects the word keys `"{n}-across"` / `"{n}-down"`;
- the editor state and its handlers, which handle typing with automatic advancement, direction toggling, Backspace and the arrow keys, black squares, resizing, and saving and loading a project;
- the board's highlight of the active word;
- the clue panel, which splits the word keys into a sorted across list and a sorted down list.

A grid is a value: a sequence of rows of `Cell(ch, isBlack, number)`. The editor state is `class Crossword`, and each handler is a method that reassigns its fields. Each handler's postcondition gives the whole new state as the old state with the changed fields replaced. Where the source loops (the numbering scan, the fill, the cursor search, the word walk, the copy on resize, the clue split), the model has a method with a loop. That method is proved equal to a specification function, and the promised properties are proved as lemmas about that function.

Modules, one per concern:

- `Types`: cells, grids, positions, directions.
- `Folds`: sums and unions over index ranges.
- `Runs`: walking along a row or column.
- `WordKeys`: printing and parsing `"{n}-{dir}"`.
- `Numbering`: `calculateGridNumbers`.
- `Board`: the highlighted span.
- `Fill`: `fillGridWithSequence`.
- `Editing`: resize, black squares, cursor search.
- `WordInfo`: `activeWordInfo`.
- `Clues`: the clue records of save and load.
- `ClueList`: the clue panel.
- `Hook`: the editor state.
- `SharedDefault`: the default grid object that the store's reset shares with the live grid, as the code is written (see Findings).

## Model

| member | source | states |
|---|---|---|
| Types.Flip | src/hooks/useCrossword.ts:225 | toggling the direction always gives the other direction |
| Numbering.EmptyGrid | src/lib/crossword-utils.ts:4-12 | the grid is `rows` by `cols`, and every square is empty, white and unnumbered |
| Numbering.VisitSquare | src/lib/crossword-utils.ts:27-47 | one square of the scan keeps the scan invariant: the squares visited carry their final numbers, the counter is one past the numbers handed out, and the keys of the words begun so far are collected |
| Numbering.NumberRow | src/lib/crossword-utils.ts:26-48 | one row of the scan carries the invariant from the start of the row to the start of the next |
| Numbering.NumberGrid | src/lib/crossword-utils.ts:14-52 | the scan returns exactly `NumberedGrid(grid)` and `ActiveKeys(grid)` |
| Numbering.NumberingKeepsCells | src/lib/crossword-utils.ts:18-20 | numbering keeps the grid's shape and every square's text and colour; only the number changes |
| Numbering.NumberedIff | src/lib/crossword-utils.ts:27-42 | a square is numbered iff it is white and begins a word of two or more squares across or down; black squares are never numbered |
| Numbering.NumbersIncrease | src/lib/crossword-utils.ts:40-46 | numbers strictly increase in row-major order |
| Numbering.NumberUnique | src/lib/crossword-utils.ts:40-46 | no two squares share a number |
| Numbering.NumbersAreOneToTotal | src/lib/crossword-utils.ts:15-46 | the numbers used are exactly 1..Total, with no gaps |
| Numbering.ActiveKeyShape | src/lib/crossword-utils.ts:43-45 | every word key prints a word key with number at least 1, and parses back to it |
| Numbering.ActiveKeyIff | src/lib/crossword-utils.ts:36-45 | the key `{n}-{d}` is collected iff the square numbered n starts a word of two or more squares in direction d |
| Numbering.ActiveKeyBegins | src/lib/crossword-utils.ts:36-45 | the same fact, stated with the `Begins` predicate the clue panel uses |
| Numbering.NumberedSquareHasKey | src/lib/crossword-utils.ts:36-45 | every numbered square contributes at least one key under its own number |
| Numbering.LayoutDeterminesNumbering | src/lib/crossword-utils.ts:18-45 | two grids with the same shape and the same black squares get the same numbers and the same keys |
| Numbering.NumberingIdempotent | src/lib/crossword-utils.ts:14-52 | renumbering a numbered grid changes nothing, and the keys stay the same |
| WordKeys.NatString | src/lib/crossword-utils.ts:44-45 | a number prints as a non-empty string of decimal digits |
| WordKeys.DigitsValueOfNatString | src/lib/crossword-utils.ts:44-45 | reading back the decimal digits of n gives n |
| WordKeys.ParseKeyString | src/components/crossword/ClueList.tsx:76-77 | splitting a printed key at '-' and parsing the number gives back the key's number and direction |
| WordKeys.KeyStringInjective | src/lib/crossword-utils.ts:44-45 | different words get different keys |
| WordKeys.ClueTextOf | src/hooks/useCrossword.ts:286 | the clue text of a key, with "" as the fallback: the text is empty iff no text is stored under the key or the stored text is empty; a non-empty text is the stored one |
| Runs.RunStartSpec | src/hooks/useCrossword.ts:64-68 | the walk back stays on the cursor's line, passes only white squares, and stops at the edge or just after a black square |
| Runs.RunEndSpec | src/components/crossword/Board.tsx:88-96 | the walk forward stays on the line, passes only white squares, and stops at the edge or just before a black square |
| Runs.WhiteRunLengthSpec | src/hooks/useCrossword.ts:80-92 | the first WhiteRunLength squares are white, and the next square is off the grid or black |
| Runs.NextWhiteFound | src/hooks/useCrossword.ts:197-211 | a found target lies n >= 1 steps beyond the start, is white, and every square between is black |
| Runs.NextWhiteNone | src/hooks/useCrossword.ts:204-205 | when nothing is found, every square beyond the start up to the edge is black |
| Board.ActiveWordRange | src/components/crossword/Board.tsx:80-99 | the loops compute `ActiveRange` |
| Board.ActiveRange | src/components/crossword/Board.tsx:80-99 | the value of `activeWordRange`: none without a cursor; a span always runs along the typing direction on the cursor's row (across) or column (down) |
| Board.IsActive | src/components/crossword/Board.tsx:112 | a square is the active square iff there is a cursor and it is on that square |
| Board.IsInActiveWord | src/components/crossword/Board.tsx:114-130 | every square is in the active word while there is no cursor; with a cursor, a square is in it iff there is a span, the square is on the span's line, and its coordinate along the span lies between the span's ends |
| Board.CursorInActiveWord | src/components/crossword/Board.tsx:112-130 | a white cursor square is both the active square and a square of the active word |
| Board.ActiveRangeNone | src/components/crossword/Board.tsx:81-84 | there is no span iff there is no cursor or the cursor square is black |
| Board.ActiveRangeSpec | src/components/crossword/Board.tsx:86-97 | the span lies on the cursor's line, contains the cursor and is all white; it is maximal, bounded by the edge or a black square at both ends |
| Board.HighlightIff | src/components/crossword/Board.tsx:114-130 | a square is highlighted iff there is no cursor, or the cursor square is white and joined to the square by white squares along the direction |
| Fill.SetChar | src/hooks/useCrossword.ts:268-272 | only square (r, c) changes, and only its text |
| Fill.FillCountAt | src/hooks/useCrossword.ts:108-110 | the loop writes exactly as long as there is text left and the square is on the grid and white |
| Fill.WriteRun | src/hooks/useCrossword.ts:103-118 | the loop writes `FilledGrid` with `FillCount` characters and ends on `LastWritten` |
| Fill.FillSequence | src/hooks/useCrossword.ts:97-137 | the fill returns the filled grid and the cursor `FillCursor` |
| Fill.FillWritesRun | src/hooks/useCrossword.ts:108-118 | the fill writes character i to the i-th square of the white run from the start, and changes nothing else; it stops at the end of the text or at the edge or a black square |
| Fill.FillCursorLands | src/hooks/useCrossword.ts:122-137 | the cursor lands on the grid; after a write it is on a white square, either the one after the last written or, when that one is blocked, the last written itself |
| Editing.Clamp | src/hooks/useCrossword.ts:157-158 | the size is within 3..10 and is the request itself when that is allowed |
| Editing.ClampNearest | src/hooks/useCrossword.ts:157-158 | the clamped size is the allowed size nearest the request |
| Editing.CopyTopLeft | src/hooks/useCrossword.ts:159-165 | the copy loops give `Resized`: the overlap comes from the old grid, and every other square is empty |
| Editing.ResizeKeepsOverlap | src/hooks/useCrossword.ts:156-173 | after resizing, the overlap keeps its text and colour, and the new squares are empty and white |
| Editing.ResizeRoundTrip | src/hooks/useCrossword.ts:156-173 | growing the grid and then shrinking it back gives the original numbered grid |
| Editing.Toggled | src/hooks/useCrossword.ts:177-183 | only square (r, c) changes: its colour flips, and it loses its text when it turns black |
| Editing.ToggleTwice | src/hooks/useCrossword.ts:177-185 | toggling twice restores the numbered grid, except that the square's text is cleared |
| Editing.ScanForWhite | src/hooks/useCrossword.ts:194-213 | the bounded search returns `NextWhite`, the first white square beyond the start, or nothing at the edge |
| WordInfo.WalkBack | src/hooks/useCrossword.ts:61-68 | the loop stops at `RunStart` |
| WordInfo.CollectCells | src/hooks/useCrossword.ts:76-92 | the loop collects `InfoCells` |
| WordInfo.ActiveWordInfo | src/hooks/useCrossword.ts:58-95 | the computation returns `WordInfoOf` |
| WordInfo.InfoCellsSpec | src/hooks/useCrossword.ts:80-92 | one cell per square of the white run, each showing its square's text, active exactly at the cursor |
| WordInfo.WordInfoMatchesBoard | src/hooks/useCrossword.ts:58-95 | on a white cursor square, the word info lists exactly the squares the board highlights, in order, and marks exactly the cursor square active |
| WordInfo.ActiveCellIff | src/hooks/useCrossword.ts:87 | some cell is active iff the cursor square is white |
| WordInfo.KeyActiveAt | src/lib/crossword-utils.ts:43-45 | a numbered square's key in direction d is active iff the square starts a word of two or more squares in d |
| WordInfo.WordInfoKeyActive | src/hooks/useCrossword.ts:70-74 | the number shown is at least 1, and its key is one of the clue panel's keys iff the word shown has two or more squares; a one-square run under a numbered square shows a key the panel never lists |
| Clues.ExportedClue | src/hooks/useCrossword.ts:281-288 | the record made from a key prints back to the key |
| Clues.Enumerate | src/hooks/useCrossword.ts:281 | every element of the set appears exactly once |
| Clues.ExportClues | src/hooks/useCrossword.ts:281-288 | the records form an export: one per key, each with the key's clue text or "" |
| Clues.SaveClues | src/hooks/useCrossword.ts:280-288 | the saved records are an export of the grid's word keys |
| Clues.ImportClues | src/hooks/useCrossword.ts:357-361 | the loop builds `ClueMap` |
| Clues.MapBySpec | src/hooks/useCrossword.ts:357-361 | a key is in the built map iff some record has it, and the map holds the text of the last record with that key |
| Clues.ExportImportRoundTrip | src/hooks/useCrossword.ts:280-361 | loading the saved records gives back the clue text of every saved key ("" when there was none); texts under other keys are dropped |
| Clues.ExportedCluesMatchWords | src/hooks/useCrossword.ts:281-288 | every exported record names a word of the grid: the number is at least 1, and the square with that number begins a word in the record's direction |
| ClueList.SortPermutes | src/components/crossword/ClueList.tsx:83-84 | sorting keeps the same items, as a permutation |
| ClueList.SortOrders | src/components/crossword/ClueList.tsx:83-84 | the sorted list is ordered by number, strictly when the numbers are distinct |
| ClueList.SortByNumber | src/components/crossword/ClueList.tsx:83-84 | the sort keeps the number of items (the permutation and the order are `SortPermutes` and `SortOrders`) |
| ClueList.GatherByItems | src/components/crossword/ClueList.tsx:75-80 | every item the `forEach` pushes is a key of that side, carrying the number parsed from it |
| ClueList.GatherByCovers | src/components/crossword/ClueList.tsx:75-80 | every key of that side is pushed by the `forEach` |
| ClueList.GatherByDistinct | src/components/crossword/ClueList.tsx:75-80 | over distinct keys whose numbers differ, the pushed items carry distinct numbers, so no key is listed twice |
| ClueList.SplitByDirection | src/components/crossword/ClueList.tsx:75-80 | the loop builds both gathered lists |
| ClueList.ActiveKeyRead | src/components/crossword/ClueList.tsx:76-79 | splitting and parsing an active key gives its number (at least 1) and direction; it goes to the across list iff its direction is across |
| ClueList.ActiveKeysApart | src/components/crossword/ClueList.tsx:76-79 | two distinct active keys that go to the same list have different numbers |
| ClueList.GeneratedClues | src/components/crossword/ClueList.tsx:70-86 | the across and down lists hold exactly the active keys of their direction, in strictly ascending order of number |
| ClueList.ListsPartition | src/components/crossword/ClueList.tsx:75-80 | a key is active iff it is listed, and it is never listed in both lists |
| ClueList.ListedIff | src/components/crossword/ClueList.tsx:70-86 | n is listed in direction d iff the square numbered n begins a word of two or more squares in d |
| ClueList.ListEmptyIff | src/components/crossword/ClueList.tsx:28-30 | a list shows its empty message iff no square begins a word in its direction |
| ClueList.EditClue | src/components/crossword/ClueList.tsx:40-41 | the edited key reads back the new text, and every other key's text is unchanged |
| Hook.Restore | src/hooks/useCrossword.ts:339-374 | a restore happens only when a project was found, its size and grid are present, and the grid has the stored size; the restored grid has the restored size |
| Hook.SaveThenLoad | src/hooks/useCrossword.ts:278-368 | loading a project just saved gives back its size, the renumbered grid, the clue text of every word, and the project's id, name and creation time |
| Hook.ResaveAfterLoad | src/hooks/useCrossword.ts:278-368 | saving what a load restored writes the same clue records as the save that was loaded |
| Hook.ResaveOverwrites | src/hooks/useCrossword.ts:293-328 | once a project with an id is stored, the next save does not prompt, and keeps the id, name and creation time |
| Hook.SaveMeta | src/hooks/useCrossword.ts:293-308 | an open project with an id is saved under its own id, name and creation time; a project without an id prompts for a name: cancelling saves nothing, otherwise the save uses the fresh id, the time now, and the answer as the name (the default name, never empty, when the answer is empty) |
| Hook.ArrowMove | src/hooks/useCrossword.ts:252-259 | exactly the four arrow keys move the cursor; left and right move across, up and down move down; right and down move forward |
| Hook.FitCursor | src/hooks/useCrossword.ts:339-375 | the cursor after a load lies on the loaded grid: unchanged when it already does, dropped otherwise |
| Hook.StaleCursorAfterLoad | src/hooks/useCrossword.ts:339-375 | as written, a cursor at (4, 4) survives the load of a 3 by 3 project, off the loaded grid, which has no row 4 |
| Hook.EditedClueShows | src/components/crossword/ClueList.tsx:40-41 | after editing the active word's clue, the word info shows the new text, and the rest of the word info is unchanged |
| Hook.Crossword.constructor | src/store/atoms.ts:7-9 | the defaults: a 5 by 5 empty grid, no clue texts, input mode, across, no cursor, no open project |
| Hook.Crossword.SetMode | src/hooks/useCrossword.ts:23 | only the mode changes |
| Hook.Crossword.ClickOutside | src/components/crossword/Builder.tsx:38-42 | only the cursor is cleared |
| Hook.Crossword.FillWithSequence | src/hooks/useCrossword.ts:97-140 | empty text changes nothing; otherwise the grid becomes the filled grid and the cursor moves to `FillCursor` |
| Hook.Crossword.CompositionStart | src/hooks/useCrossword.ts:142-144 | only the composing flag is set |
| Hook.Crossword.CompositionEnd | src/hooks/useCrossword.ts:146-154 | the composing flag is cleared, and the composed text is filled in |
| Hook.Crossword.InputText | src/hooks/useCrossword.ts:262-275 | while composing, only the square's text changes; otherwise the text is filled in |
| Hook.Crossword.Resize | src/hooks/useCrossword.ts:156-175 | the new size is the clamped size, the grid is the renumbered resized grid, and the cursor is cleared |
| Hook.Crossword.ToggleBlackSquare | src/hooks/useCrossword.ts:177-186 | the grid becomes the renumbered toggled grid; nothing else changes |
| Hook.Crossword.MoveCursor | src/hooks/useCrossword.ts:188-214 | the cursor moves to the first white square beyond, or stays where it was |
| Hook.Crossword.CellClick | src/hooks/useCrossword.ts:216-230 | in every case of mode, right click, black square and cursor square, the exact new state |
| Hook.Crossword.KeyDown | src/hooks/useCrossword.ts:232-260 | the exact new state for black-square mode, Space, Backspace on an empty or a filled square, each arrow key, and any other key |
| Hook.Crossword.EditClue | src/components/crossword/ClueList.tsx:40-41 | only the clue texts change, by `ClueList.EditClue` |
| Hook.Crossword.ActiveWordInfo | src/hooks/useCrossword.ts:58-95 | the word info of the current state |
| Hook.Crossword.Save | src/hooks/useCrossword.ts:278-335 | a cancelled prompt changes nothing and saves nothing; otherwise the saved project has the chosen id, name and times, the size and grid, and an export of the word keys; when stored it becomes the open project |
| Hook.Crossword.Load | src/hooks/useCrossword.ts:339-375 | a project that can be restored replaces the size, grid, clue texts and open project, and keeps the cursor when it lies on the loaded grid (dropping it otherwise); anything else changes nothing |
| Hook.Crossword.Delete | src/hooks/useCrossword.ts:377-404 | reports success iff confirmed and deleted; forgets the open project iff that project was deleted |
| Hook.Crossword.Clear | src/hooks/useCrossword.ts:406-417 | once confirmed, resets the size, grid and clue texts, and clears the cursor and the open project; mode and direction stay |
| SharedDefault.Start | src/store/atoms.ts:8-25 | with nothing stored the live grid is `INITIAL_GRID` itself, the empty 5 by 5 grid |
| SharedDefault.Reset | src/store/atoms.ts:34-43 | a reset makes the live grid the default object again, sharing its cells, with the default's current contents |
| SharedDefault.WriteChar | src/hooks/useCrossword.ts:241-271 | a text written in place lands in the live grid, and in the default too while the cells are shared |
| SharedDefault.Toggle | src/hooks/useCrossword.ts:177-186 | the colour flip lands in the default while the cells are shared; the renumbered live grid no longer shares them |
| SharedDefault.Replace | src/hooks/useCrossword.ts:101 | a fill, a resize or a load installs fresh cells and leaves the default alone |
| SharedDefault.ResetKeepsSharedWrite | src/store/atoms.ts:34-43 | a text written while the cells are shared comes back with the next reset |
| SharedDefault.StaleClearAfterComposing | src/hooks/useCrossword.ts:406-417 | Clear, compose "か" at (0, 0), Clear: the grid brought back shows "か" at (0, 0) |
| SharedDefault.StaleClearAfterToggle | src/hooks/useCrossword.ts:406-417 | Clear, turn (0, 0) black, Clear: the grid brought back has (0, 0) black |

## Left out

- Messages, timers, focus, refs and console output are not modelled. `showMessage`, the `setTimeout` focus calls, `inputRefs` and the logging have no effect on the modelled state.
- The dialogs, the id generator and the clock are parameters of the methods:
  - `prompt` is `promptAnswer`, with `None` for cancel;
  - `confirm` is `confirmed`;
  - `crypto.randomUUID` is `freshId`;
  - `new Date().toISOString()` is `now`.
- The project store and the key-value persistence layer are left out; their outcomes are parameters. The store's answer to a save is `stored`, to a delete is `deleted`, and to a load is the fetched project. src/lib/project-storage.ts and src/lib/tauri-store.ts are not part of this model.
- Hook.Crossword.Save: both timestamps are the same `now`. The source reads the clock twice (for `createdAt` of a new project and for `updatedAt`).
- Hook.Crossword.Save: the word keys are exported before the prompt in the source, and after it in the model. Exporting changes no state, so the outcome is the same.
- Hook.Crossword.Load: a cursor that lies off a smaller loaded grid is dropped. The source keeps it, and the word locators then read a row or column that does not exist; see Findings.
- Hook.Restore: a grid that does not have exactly the stored size is rejected. The source throws inside the numbering for a grid smaller than its size, and the error is caught; that case matches. The source accepts a grid with extra rows or columns and numbers only its first size.rows by size.cols squares; the model does not.
- Hook.Crossword.Clear: the default grid is unnumbered, as `INITIAL_GRID` is. Clear always gives the empty 5 by 5 grid; the source brings back `INITIAL_GRID` with whatever was written into it while shared (`SharedDefault`, see Findings).
- ClueList.SortByNumber: `Array.prototype.sort` is modelled as a stable insertion sort on values, not in place. Within a list the numbers are distinct, so every correct sort gives the same result.
- Clues.Enumerate: the order of the exported records is some enumeration of the key set, not necessarily the set's insertion order. The properties proved do not depend on the order.
- WordKeys.ParseInt: reads only decimal digits. `parseInt` on a non-numeric prefix (NaN) is not modelled; every key the numbering makes is canonical (`Numbering.ActiveKeyShape`), so it never arises.
- Aliasing is not modelled in `Hook.Crossword`. The source assigns to cell objects that the old and the new grid share (`toggleBlackSquare`, Backspace, the composing input); the model replaces cells in a value. Within the modelled state, only the default grid can still hold those cells after the handler, so everything else is the same either way. The default grid `INITIAL_GRID` does hold them after a reset; `SharedDefault` models that case on its own.
- `Array.from(text)` splits a string into code points. The model treats a string as a sequence of `char`, one per square.
- UI layout, styling, icons, the settings panel and the status widgets are left out.

## Findings

| source | as written | input that shows it | evidently intended | confidence | as-written member | corrected member |
|---|---|---|---|---|---|---|
| src/store/atoms.ts:8-43 | the grid the editor starts from and the grid `resetAll` puts back are the one object `INITIAL_GRID`; Backspace and the composing input (src/hooks/useCrossword.ts:245-246, 269-270) and `toggleBlackSquare` (177-182) assign to its cells while the live grid is that object | confirm Clear, click (0, 0), compose "か" and end the composition, confirm Clear again: (0, 0) shows "か"; or turn (0, 0) black between the two Clears: it stays black | Clear always gives the empty 5 by 5 grid | not executed | SharedDefault.StaleClearAfterComposing | Hook.Crossword.Clear |
| src/hooks/useCrossword.ts:339-375 | `handleLoad` leaves the cursor alone, and only a mouse press clears it (src/components/crossword/Board.tsx:55-77); the project list can be used from the keyboard | cursor on (4, 4) of a 5 by 5 grid, then load a 3 by 3 project without a mouse press: `grid[4]` is undefined at src/hooks/useCrossword.ts:65 and src/components/crossword/Board.tsx:84 | a cursor off the loaded grid is dropped; one on it stays | not executed | Hook.StaleCursorAfterLoad | Hook.Crossword.Load |
