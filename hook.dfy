/** The editor state of src/hooks/useCrossword.ts and its handlers: the
    grid, its size, the clue texts, the mode, the typing direction, the
    cursor and the open project, each handler a method that replaces some
    of them. Prompts, confirmations, fresh ids, the clock and the project
    store are parameters. */
module Hook {
  import opened Types
  import opened Runs
  import opened Numbering
  import opened WordKeys
  import Fill
  import Editing
  import WordInfo
  import Clues
  import ClueList

  /** The open project: the id it is saved under, its name and creation
      time (`projectMeta`). */
  datatype ProjectMeta = ProjectMeta(id: string, name: string, createdAt: string)

  /** `CrosswordData` as `handleSave` writes it. */
  datatype SavedData = SavedData(size: GridSize, grid: Grid, clues: seq<Clue>)

  /** `Project` as `handleSave` hands it to the store. */
  datatype Project = Project(id: string, name: string, createdAt: string, updatedAt: string, data: SavedData)

  /** `project.data` as read back: any part may be missing. */
  datatype LoadedData = LoadedData(size: Option<GridSize>, grid: Option<Grid>, clues: Option<seq<Clue>>)

  datatype StoredProject = StoredProject(id: string, name: string, createdAt: string, data: LoadedData)

  /** A snapshot of every field of the editor. */
  datatype EditorState = EditorState(
    size: GridSize, grid: Grid, clueTexts: map<string, string>, mode: Mode,
    direction: Direction, cursor: Option<Pos>, projectMeta: Option<ProjectMeta>, composing: bool)

  /** The name a new project gets when the name prompt is left empty. */
  const DefaultName: string := "無題のクロスワード"

  /** The state a successful load installs: the stored size, the stored
      grid renumbered, the clue texts rebuilt from the stored records, and
      the project's identity. */
  datatype Restored = Restored(size: GridSize, grid: Grid, clueTexts: map<string, string>, meta: ProjectMeta)

  /** What `handleLoad` makes of a fetched project: nothing when there is
      none, or when its size or grid is missing or the grid does not have
      the stored size (the numbering would throw and the error is caught). */
  function Restore(fetched: Option<StoredProject>): (res: Option<Restored>)
    ensures res.Some? ==>
      fetched.Some? && fetched.value.data.size.Some? && fetched.value.data.grid.Some? &&
      Fits(fetched.value.data.grid.value, fetched.value.data.size.value)
    ensures res.Some? ==> Fits(res.value.grid, res.value.size)
  {
    match fetched
    case None => None
    case Some(p) =>
      match (p.data.size, p.data.grid)
      case (Some(size), Some(grid)) =>
        if !Fits(grid, size) then None
        else
          NumberingKeepsCells(grid);
          var clues := if p.data.clues.Some? then p.data.clues.value else [];
          Some(Restored(size, NumberedGrid(grid), Clues.ClueMap(clues), ProjectMeta(p.id, p.name, p.createdAt)))
      case _ => None
  }

  /** The project as the store returns it after saving it. */
  function AsStored(p: Project): StoredProject
  {
    StoredProject(p.id, p.name, p.createdAt, LoadedData(Some(p.data.size), Some(p.data.grid), Some(p.data.clues)))
  }

  /** The id, name and creation time `handleSave` uses: those of the open
      project when it has an id; otherwise `freshId`, the name typed at the
      prompt (the default name when left empty) and `now`, or nothing when
      the prompt is cancelled. */
  function SaveMeta(meta: Option<ProjectMeta>, promptAnswer: Option<string>, freshId: string, now: string): (m: Option<ProjectMeta>)
    ensures meta.Some? && meta.value.id != "" ==> m == meta
    ensures meta.None? || meta.value.id == "" ==>
      (m.None? <==> promptAnswer.None?) &&
      (m.Some? ==> m.value.id == freshId && m.value.createdAt == now && m.value.name != "" &&
                   (promptAnswer.value != "" ==> m.value.name == promptAnswer.value))
  {
    if meta.Some? && meta.value.id != "" then meta
    else if promptAnswer.None? then None
    else Some(ProjectMeta(freshId, if promptAnswer.value == "" then DefaultName else promptAnswer.value, now))
  }

  /** The project written for `meta` at time `now`; a missing creation time
      becomes `now`. */
  function SavedProject(meta: ProjectMeta, now: string, data: SavedData): Project
  {
    Project(meta.id, meta.name, if meta.createdAt == "" then now else meta.createdAt, now, data)
  }

  /** The open-project record of a saved project. */
  function ProjectOf(p: Project): ProjectMeta
  {
    ProjectMeta(p.id, p.name, p.createdAt)
  }

  /** Where `moveCursor` leaves the cursor: on the first white square
      beyond `p` along `dir` in the given sense, or where it was when the
      edge comes first. */
  function Moved(g: Grid, size: GridSize, p: Pos, dir: Direction, forward: bool, cursor: Option<Pos>): Option<Pos>
    requires Fits(g, size) && InBounds(size, p)
  {
    match NextWhite(g, size, p, dir, forward)
    case Some(q) => Some(q)
    case None => cursor
  }

  /** The axis and sense of an arrow key; `None` for any other key. */
  function ArrowMove(key: string): (m: Option<(Direction, bool)>)
    ensures m.Some? <==> key in ["ArrowUp", "ArrowDown", "ArrowLeft", "ArrowRight"]
    ensures m.Some? ==> (m.value.0 == Across <==> key == "ArrowLeft" || key == "ArrowRight")
    ensures m.Some? ==> (m.value.1 <==> key == "ArrowDown" || key == "ArrowRight")
  {
    if key == "ArrowUp" then Some((Down, false))
    else if key == "ArrowDown" then Some((Down, true))
    else if key == "ArrowLeft" then Some((Across, false))
    else if key == "ArrowRight" then Some((Across, true))
    else None
  }

  /** The cursor kept across a load of a grid of size `size`: unchanged
      when it lies on that grid, dropped when it does not. */
  function FitCursor(cursor: Option<Pos>, size: GridSize): (c: Option<Pos>)
    ensures c.Some? ==> InBounds(size, c.value)
    ensures cursor.Some? && InBounds(size, cursor.value) ==> c == cursor
    ensures c.None? ==> cursor.None? || !InBounds(size, cursor.value)
  {
    if cursor.Some? && InBounds(size, cursor.value) then cursor else None
  }

  /** As written, `handleLoad` never touches the cursor. A cursor on square
      (4, 4) of the default 5 by 5 grid survives the load of a 3 by 3
      project, and the loaded grid has no row 4 for the word locators to
      read. */
  lemma StaleCursorAfterLoad(g: Grid)
    requires IsRect(g, 3, 3)
    ensures var fetched := Some(StoredProject("id", "name", "now", LoadedData(Some(GridSize(3, 3)), Some(g), None)));
      var res := Restore(fetched);
      InBounds(GridSize(5, 5), Pos(4, 4)) && res.Some? &&
      !InBounds(res.value.size, Pos(4, 4)) && |res.value.grid| <= 4 &&
      FitCursor(Some(Pos(4, 4)), res.value.size) == None
  {
  }

  /** Loading a project just saved gives back its size, its grid
      renumbered, the clue text of every word of the grid ("" for a word
      without one; texts of keys that are no word are dropped) and the
      project's id, name and creation time. */
  lemma SaveThenLoad(meta: ProjectMeta, now: string, size: GridSize, grid: Grid, texts: map<string, string>, clues: seq<Clue>)
    requires Fits(grid, size) && Clues.IsExport(ActiveKeys(grid), texts, clues)
    ensures var p := SavedProject(meta, now, SavedData(size, grid, clues));
      Restore(Some(AsStored(p))) ==
        Some(Restored(size, NumberedGrid(grid), map k | k in ActiveKeys(grid) :: ClueTextOf(texts, k), ProjectOf(p)))
  {
    Clues.ExportImportRoundTrip(ActiveKeys(grid), texts, clues);
  }

  /** Saving what a load restored writes the same clue records as the save
      that was loaded: the same words, each with the same text. */
  lemma ResaveAfterLoad(size: GridSize, grid: Grid, texts: map<string, string>, clues: seq<Clue>, again: seq<Clue>)
    requires Fits(grid, size) && Clues.IsExport(ActiveKeys(grid), texts, clues)
    requires Clues.IsExport(ActiveKeys(NumberedGrid(grid)), Clues.ClueMap(clues), again)
    ensures Clues.IsExport(ActiveKeys(grid), texts, again)
  {
    Clues.ExportImportRoundTrip(ActiveKeys(grid), texts, clues);
    NumberingIdempotent(grid);
    forall i | 0 <= i < |again| ensures again[i].text == ClueTextOf(texts, Clues.ClueKey(again[i])) {
      assert Clues.ClueKey(again[i]) in ActiveKeys(grid);
    }
  }

  /** Once a save with an id is stored, the next save overwrites the same
      project: no prompt, and the same id, name and creation time (a
      timestamp is never the empty string). */
  lemma ResaveOverwrites(meta: ProjectMeta, now: string, data: SavedData,
                         promptAnswer: Option<string>, freshId: string, later: string, newData: SavedData)
    requires meta.id != "" && now != ""
    ensures var p := SavedProject(meta, now, data);
      var m := SaveMeta(Some(ProjectOf(p)), promptAnswer, freshId, later);
      m == Some(ProjectOf(p)) &&
      var q := SavedProject(m.value, later, newData);
      q.id == p.id && q.name == p.name && q.createdAt == p.createdAt && q.updatedAt == later
  {
  }

  /** After a clue's text box for the word under the cursor is edited, the
      word's heading shows the new text, and the word itself is unchanged. */
  lemma EditedClueShows(g: Grid, size: GridSize, cursor: Option<Pos>, direction: Direction, texts: map<string, string>, value: string)
    requires Fits(g, size) && (cursor.Some? ==> InBounds(size, cursor.value))
    requires WordInfo.WordInfoOf(g, size, cursor, direction, texts).Some?
    ensures var w := WordInfo.WordInfoOf(g, size, cursor, direction, texts).value;
      var key := KeyString(WordKey(w.number, direction));
      WordInfo.WordInfoOf(g, size, cursor, direction, ClueList.EditClue(texts, key, value)) == Some(w.(clueText := value))
  {
    var w := WordInfo.WordInfoOf(g, size, cursor, direction, texts).value;
    var key := KeyString(WordKey(w.number, direction));
    var s := RunStart(g, size, cursor.value, direction);
    RunStartSpec(g, size, cursor.value, direction);
    InGridFromRect(g, size, s);
    assert g[s.r][s.c].number == Some(w.number);
  }

  class Crossword {
    var size: GridSize
    var grid: Grid
    var clueTexts: map<string, string>
    var mode: Mode
    var direction: Direction
    var cursor: Option<Pos>
    var projectMeta: Option<ProjectMeta>
    var composing: bool

    /** The grid has the size, and the cursor, when set, is on the grid
        (possibly on a black square). */
    ghost predicate Valid()
      reads this
    {
      Fits(grid, size) && (cursor.Some? ==> InBounds(size, cursor.value))
    }

    function State(): EditorState
      reads this
    {
      EditorState(size, grid, clueTexts, mode, direction, cursor, projectMeta, composing)
    }

    /** The stored defaults: a 5 by 5 empty grid and no clue texts; input
        mode, across, no cursor and no open project. */
    constructor ()
      ensures Valid()
      ensures State() == EditorState(GridSize(5, 5), EmptyGrid(5, 5), map[], Input, Across, None, None, false)
    {
      size := GridSize(5, 5);
      grid := EmptyGrid(5, 5);
      clueTexts := map[];
      mode := Input;
      direction := Across;
      cursor := None;
      projectMeta := None;
      composing := false;
    }

    /** `setMode`. */
    method SetMode(m: Mode)
      requires Valid()
      modifies this
      ensures Valid()
      ensures State() == old(State()).(mode := m)
    {
      mode := m;
    }

    /** A mouse press outside the board clears the cursor. */
    method ClickOutside()
      requires Valid()
      modifies this
      ensures Valid()
      ensures State() == old(State()).(cursor := None)
    {
      cursor := None;
    }

    /** `fillGridWithSequence`: empty text changes nothing; otherwise the
        text is written along the typing direction from (r, c) and the
        cursor moves past it. */
    method FillWithSequence(r: int, c: int, text: string)
      requires Valid() && InBounds(size, Pos(r, c))
      modifies this
      ensures Valid()
      ensures text == [] ==> State() == old(State())
      ensures text != [] ==>
        var k := Fill.FillCount(old(grid), old(size), Pos(r, c), old(direction), text);
        State() == old(State()).(grid := Fill.FilledGrid(old(grid), Pos(r, c), old(direction), text, k),
                                 cursor := Some(Fill.FillCursor(old(grid), old(size), Pos(r, c), old(direction), k)))
    {
      if text == [] {
        return;
      }
      var newGrid, next := Fill.FillSequence(grid, size, Pos(r, c), direction, text);
      Fill.FillCursorLands(grid, size, Pos(r, c), direction, text);
      grid := newGrid;
      cursor := Some(next);
    }

    /** `handleCompositionStart`. */
    method CompositionStart()
      requires Valid()
      modifies this
      ensures Valid()
      ensures State() == old(State()).(composing := true)
    {
      composing := true;
    }

    /** `handleCompositionEnd`: composition is over, and the composed text
        is filled in from (r, c). */
    method CompositionEnd(r: int, c: int, value: string)
      requires Valid() && InBounds(size, Pos(r, c))
      modifies this
      ensures Valid()
      ensures value == [] ==> State() == old(State()).(composing := false)
      ensures value != [] ==>
        var k := Fill.FillCount(old(grid), old(size), Pos(r, c), old(direction), value);
        State() == old(State()).(composing := false,
                                 grid := Fill.FilledGrid(old(grid), Pos(r, c), old(direction), value, k),
                                 cursor := Some(Fill.FillCursor(old(grid), old(size), Pos(r, c), old(direction), k)))
    {
      composing := false;
      FillWithSequence(r, c, value);
    }

    /** `handleInput`: while composing, the square just shows the text
        typed so far; otherwise the text is filled in from (r, c). */
    method InputText(r: int, c: int, value: string)
      requires Valid() && InBounds(size, Pos(r, c))
      modifies this
      ensures Valid()
      ensures InGrid(old(grid), Pos(r, c))
      ensures old(composing) ==> State() == old(State()).(grid := Fill.SetChar(old(grid), r, c, value))
      ensures !old(composing) && value == [] ==> State() == old(State())
      ensures !old(composing) && value != [] ==>
        var k := Fill.FillCount(old(grid), old(size), Pos(r, c), old(direction), value);
        State() == old(State()).(grid := Fill.FilledGrid(old(grid), Pos(r, c), old(direction), value, k),
                                 cursor := Some(Fill.FillCursor(old(grid), old(size), Pos(r, c), old(direction), k)))
    {
      InGridFromRect(grid, size, Pos(r, c));
      if composing {
        grid := Fill.SetChar(grid, r, c, value);
        return;
      }
      FillWithSequence(r, c, value);
    }

    /** `handleResize`: each requested dimension clamped to 3..10, the
        overlap copied, the rest empty, the grid renumbered and the cursor
        cleared. */
    method Resize(newRows: int, newCols: int)
      requires Valid()
      modifies this
      ensures Valid()
      ensures State() == old(State()).(
        size := GridSize(Editing.Clamp(newRows), Editing.Clamp(newCols)),
        grid := NumberedGrid(Editing.Resized(old(grid), old(size), Editing.Clamp(newRows), Editing.Clamp(newCols))),
        cursor := None)
    {
      var r := Editing.Clamp(newRows);
      var c := Editing.Clamp(newCols);
      var newGrid := Editing.CopyTopLeft(grid, size, r, c);
      Editing.ResizeKeepsOverlap(grid, size, r, c);
      var gridWithNumbers, _ := NumberGrid(newGrid, GridSize(r, c));
      size := GridSize(r, c);
      grid := gridWithNumbers;
      cursor := None;
    }

    /** `toggleBlackSquare`: square (r, c) changes colour (losing its text
        when it turns black) and the grid is renumbered. */
    method ToggleBlackSquare(r: int, c: int)
      requires Valid() && InBounds(size, Pos(r, c))
      modifies this
      ensures Valid()
      ensures InGrid(old(grid), Pos(r, c)) &&
        State() == old(State()).(grid := NumberedGrid(Editing.Toggled(old(grid), r, c)))
    {
      InGridFromRect(grid, size, Pos(r, c));
      var toggled := Editing.Toggled(grid, r, c);
      NumberingKeepsCells(toggled);
      var gridWithNumbers, _ := NumberGrid(toggled, size);
      grid := gridWithNumbers;
    }

    /** `moveCursor`: the cursor goes to the first white square beyond
        (r, c) along `dir`, or stays where it is when the edge comes first. */
    method MoveCursor(r: int, c: int, dir: Direction, forward: bool)
      requires Valid() && InBounds(size, Pos(r, c))
      modifies this
      ensures Valid()
      ensures State() == old(State()).(cursor := Moved(old(grid), old(size), Pos(r, c), dir, forward, old(cursor)))
    {
      var target := Editing.ScanForWhite(grid, size, r, c, dir, forward);
      if target.Some? {
        var n := NextWhiteFound(grid, size, Pos(r, c), dir, forward);
        cursor := target;
      }
    }

    /** `handleCellClick`: in black-square mode or on a right click the
        square changes colour; otherwise a black square is ignored, a click
        on the cursor square turns the typing direction, and a click on
        another square moves the cursor there. */
    method CellClick(r: int, c: int, contextMenu: bool)
      requires Valid() && InBounds(size, Pos(r, c))
      modifies this
      ensures Valid()
      ensures InGrid(old(grid), Pos(r, c))
      ensures old(mode) == EditBlack || contextMenu ==>
        State() == old(State()).(grid := NumberedGrid(Editing.Toggled(old(grid), r, c)))
      ensures old(mode) == Input && !contextMenu && old(grid)[r][c].isBlack ==> State() == old(State())
      ensures old(mode) == Input && !contextMenu && !old(grid)[r][c].isBlack && old(cursor) == Some(Pos(r, c)) ==>
        State() == old(State()).(direction := Flip(old(direction)))
      ensures old(mode) == Input && !contextMenu && !old(grid)[r][c].isBlack && old(cursor) != Some(Pos(r, c)) ==>
        State() == old(State()).(cursor := Some(Pos(r, c)))
    {
      InGridFromRect(grid, size, Pos(r, c));
      if mode == EditBlack || contextMenu {
        ToggleBlackSquare(r, c);
        return;
      }
      if grid[r][c].isBlack {
        return;
      }
      if cursor == Some(Pos(r, c)) {
        direction := Flip(direction);
      } else {
        cursor := Some(Pos(r, c));
      }
    }

    /** `handleKeyDown` on square (r, c): nothing in black-square mode;
        Space turns the typing direction; Backspace clears a square that
        has text and otherwise steps back along the typing direction; the
        arrow keys move along their own axis whatever the direction. */
    method KeyDown(key: string, r: int, c: int)
      requires Valid() && InBounds(size, Pos(r, c))
      modifies this
      ensures Valid()
      ensures InGrid(old(grid), Pos(r, c))
      ensures old(mode) == EditBlack ==> State() == old(State())
      ensures old(mode) == Input && key == " " ==> State() == old(State()).(direction := Flip(old(direction)))
      ensures old(mode) == Input && key == "Backspace" && old(grid)[r][c].ch == "" ==>
        State() == old(State()).(cursor := Moved(old(grid), old(size), Pos(r, c), old(direction), false, old(cursor)))
      ensures old(mode) == Input && key == "Backspace" && old(grid)[r][c].ch != "" ==>
        State() == old(State()).(grid := Fill.SetChar(old(grid), r, c, ""))
      ensures old(mode) == Input && ArrowMove(key).Some? ==>
        State() == old(State()).(cursor := Moved(old(grid), old(size), Pos(r, c), ArrowMove(key).value.0, ArrowMove(key).value.1, old(cursor)))
      ensures old(mode) == Input && key != " " && key != "Backspace" && ArrowMove(key).None? ==> State() == old(State())
    {
      InGridFromRect(grid, size, Pos(r, c));
      if mode == EditBlack {
        return;
      }
      if key == " " {
        direction := Flip(direction);
        return;
      }
      if key == "Backspace" {
        if grid[r][c].ch == "" {
          MoveCursor(r, c, direction, false);
        } else {
          grid := Fill.SetChar(grid, r, c, "");
        }
        return;
      }
      if key == "ArrowUp" {
        MoveCursor(r, c, Down, false);
      } else if key == "ArrowDown" {
        MoveCursor(r, c, Down, true);
      } else if key == "ArrowLeft" {
        MoveCursor(r, c, Across, false);
      } else if key == "ArrowRight" {
        MoveCursor(r, c, Across, true);
      }
    }

    /** A clue's text box: the text stored under `key` becomes `value`. */
    method EditClue(key: string, value: string)
      requires Valid()
      modifies this
      ensures Valid()
      ensures State() == old(State()).(clueTexts := ClueList.EditClue(old(clueTexts), key, value))
    {
      clueTexts := ClueList.EditClue(clueTexts, key, value);
    }

    /** `activeWordInfo` of the current state. */
    method ActiveWordInfo() returns (info: Option<WordInfo.ActiveWord>)
      requires Valid()
      ensures info == WordInfo.WordInfoOf(grid, size, cursor, direction, clueTexts)
    {
      info := WordInfo.ActiveWordInfo(grid, size, cursor, direction, clueTexts);
    }

    /** `handleSave`. A project without an id (`!saveId`) asks for a name:
        a cancelled prompt (`None`) saves nothing; an empty answer becomes
        the default name, and the project gets `freshId` and is created
        `now`. The project written holds the size, the grid and one clue
        record per word key. When the store accepts it (`stored`) it
        becomes the open project. */
    method Save(promptAnswer: Option<string>, freshId: string, now: string, stored: bool) returns (saved: Option<Project>)
      requires Valid()
      modifies this
      ensures Valid()
      ensures SaveMeta(old(projectMeta), promptAnswer, freshId, now).None? ==> saved.None? && State() == old(State())
      ensures SaveMeta(old(projectMeta), promptAnswer, freshId, now).Some? ==>
        var meta := SaveMeta(old(projectMeta), promptAnswer, freshId, now).value;
        saved.Some? &&
        saved.value == SavedProject(meta, now, SavedData(size, grid, saved.value.data.clues)) &&
        Clues.IsExport(ActiveKeys(grid), clueTexts, saved.value.data.clues) &&
        State() == old(State()).(projectMeta := if stored then Some(ProjectOf(saved.value)) else old(projectMeta))
    {
      var meta := SaveMeta(projectMeta, promptAnswer, freshId, now);
      if meta.None? {
        return None;
      }
      var cluesExport := Clues.SaveClues(grid, size, clueTexts);
      var project := SavedProject(meta.value, now, SavedData(size, grid, cluesExport));
      if stored {
        projectMeta := Some(ProjectOf(project));
      }
      saved := Some(project);
    }

    /** `handleLoad` with the fetched project (`None` when the store has
        none): a project that can be restored replaces the size, the grid
        (renumbered), the clue texts and the open project; anything else
        leaves the state as it was. The cursor stays where it is when it
        lies on the loaded grid and is dropped otherwise. */
    method Load(fetched: Option<StoredProject>)
      requires Valid()
      modifies this
      ensures Valid()
      ensures Restore(fetched).None? ==> State() == old(State())
      ensures Restore(fetched).Some? ==>
        var res := Restore(fetched).value;
        State() == old(State()).(size := res.size, grid := res.grid, clueTexts := res.clueTexts,
                                 cursor := FitCursor(old(cursor), res.size), projectMeta := Some(res.meta))
    {
      if fetched.None? {
        return;
      }
      var project := fetched.value;
      var data := project.data;
      if data.size.None? || data.grid.None? {
        return;
      }
      if !Fits(data.grid.value, data.size.value) {
        return;
      }
      var gridWithNumbers, _ := NumberGrid(data.grid.value, data.size.value);
      NumberingKeepsCells(data.grid.value);
      var newClueTexts := Clues.ImportClues(if data.clues.Some? then data.clues.value else []);
      assert Restore(fetched) == Some(Restored(data.size.value, gridWithNumbers, newClueTexts, ProjectMeta(project.id, project.name, project.createdAt)));
      size := data.size.value;
      grid := gridWithNumbers;
      clueTexts := newClueTexts;
      cursor := FitCursor(cursor, size);
      projectMeta := Some(ProjectMeta(project.id, project.name, project.createdAt));
    }

    /** `handleDelete`: nothing without confirmation or when the store
        fails; otherwise reports success and, when the deleted project is
        the open one, forgets it so the next save creates a new project. */
    method Delete(id: string, confirmed: bool, deleted: bool) returns (ok: bool)
      requires Valid()
      modifies this
      ensures Valid()
      ensures ok <==> confirmed && deleted
      ensures ok && old(projectMeta).Some? && old(projectMeta).value.id == id ==> State() == old(State()).(projectMeta := None)
      ensures !(ok && old(projectMeta).Some? && old(projectMeta).value.id == id) ==> State() == old(State())
    {
      if !confirmed || !deleted {
        return false;
      }
      if projectMeta.Some? && projectMeta.value.id == id {
        projectMeta := None;
      }
      return true;
    }

    /** `handleClear`: once confirmed, the size, grid and clue texts go
        back to their stored defaults and the cursor and the open project
        are cleared; the mode and the typing direction stay. */
    method Clear(confirmed: bool)
      requires Valid()
      modifies this
      ensures Valid()
      ensures !confirmed ==> State() == old(State())
      ensures confirmed ==>
        State() == old(State()).(size := GridSize(5, 5), grid := EmptyGrid(5, 5), clueTexts := map[], cursor := None, projectMeta := None)
    {
      if confirmed {
        size := GridSize(5, 5);
        grid := EmptyGrid(5, 5);
        clueTexts := map[];
        cursor := None;
        projectMeta := None;
      }
    }
  }
}
