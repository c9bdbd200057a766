/** The default grid of src/store/atoms.ts as the code is written: the
    grid the editor starts from and the grid a reset puts back are one
    object, `INITIAL_GRID`. While the live grid is that object, the
    handlers that assign to a cell in place (Backspace, the composing
    input, `toggleBlackSquare`) change the default as well, and the next
    reset brings those changes back. `Hook.Crossword` models the intended
    behaviour, where a reset always gives the empty 5 by 5 grid. */
module SharedDefault {
  import opened Types
  import opened Numbering
  import Fill
  import Editing

  /** The live grid, the current contents of `INITIAL_GRID`, and whether the
      live grid's cells are `INITIAL_GRID`'s own cells. */
  datatype Store = Store(live: Grid, initial: Grid, shared: bool)

  /** While the cells are shared, the live grid and the default are the
      same grid. */
  predicate Coherent(s: Store)
  {
    s.shared ==> s.live == s.initial
  }

  /** The editor's first grid when nothing is stored: `INITIAL_GRID` itself,
      as `generateEmptyGrid(5, 5)` made it. */
  function Start(): (s: Store)
    ensures Coherent(s) && s.shared && s.live == EmptyGrid(5, 5)
  {
    Store(EmptyGrid(5, 5), EmptyGrid(5, 5), true)
  }

  /** `resetAll`: the live grid becomes the default object again, with
      whatever was written into it. */
  function Reset(s: Store): (t: Store)
    ensures Coherent(t) && t.shared && t.initial == s.initial
  {
    Store(s.initial, s.initial, true)
  }

  /** Backspace (`newGrid[r][c].char = ""`) and the composing input
      (`newGrid[r][c].char = val`): the outer array is copied but the cell
      is not, so the text lands in the default too while it is shared. */
  function WriteChar(s: Store, r: int, c: int, text: string): (t: Store)
    requires Coherent(s) && InGrid(s.live, Pos(r, c))
    ensures Coherent(t) && t.shared == s.shared
    ensures t.live == Fill.SetChar(s.live, r, c, text)
    ensures !s.shared ==> t.initial == s.initial
  {
    var live := Fill.SetChar(s.live, r, c, text);
    Store(live, if s.shared then live else s.initial, s.shared)
  }

  /** `toggleBlackSquare`: the colour flip is written into the shared cell,
      and the renumbering then builds fresh cells for the live grid. */
  function Toggle(s: Store, r: int, c: int): (t: Store)
    requires Coherent(s) && InGrid(s.live, Pos(r, c))
    ensures Coherent(t) && !t.shared
    ensures t.live == NumberedGrid(Editing.Toggled(s.live, r, c))
    ensures s.shared ==> t.initial == Editing.Toggled(s.live, r, c)
    ensures !s.shared ==> t.initial == s.initial
  {
    var flipped := Editing.Toggled(s.live, r, c);
    Store(NumberedGrid(flipped), if s.shared then flipped else s.initial, false)
  }

  /** `fillGridWithSequence`, `handleResize` and `handleLoad` install a grid
      of freshly copied cells and leave the default alone. */
  function Replace(s: Store, g: Grid): (t: Store)
    ensures Coherent(t) && !t.shared && t.live == g && t.initial == s.initial
  {
    Store(g, s.initial, false)
  }

  /** A reset does not undo a text written while the cells were shared:
      the grid it brings back shows that text. */
  lemma {:induction false} ResetKeepsSharedWrite(s: Store, r: int, c: int, text: string, g: Grid)
    requires Coherent(s) && s.shared && InGrid(s.live, Pos(r, c))
    ensures Reset(Replace(WriteChar(s, r, c, text), g)).live == Fill.SetChar(s.live, r, c, text)
  {
    var t := WriteChar(s, r, c, text);
    assert t.initial == t.live;
  }

  /** Confirm Clear, click square (0, 0), compose "か" and end the
      composition (the fill writes a fresh copy), then confirm Clear
      again: square (0, 0) of the grid brought back still shows "か", so
      it is not the empty 5 by 5 grid. */
  lemma StaleClearAfterComposing(before: Store, filled: Grid)
    requires before.initial == EmptyGrid(5, 5)
    ensures var cleared := Reset(before);
      InGrid(cleared.live, Pos(0, 0)) &&
      var again := Reset(Replace(WriteChar(cleared, 0, 0, "か"), filled));
      InGrid(again.live, Pos(0, 0)) && again.live[0][0].ch == "か" && again.live != EmptyGrid(5, 5)
  {
    var cleared := Reset(before);
    ResetKeepsSharedWrite(cleared, 0, 0, "か", filled);
  }

  /** Confirm Clear, turn square (0, 0) black, then confirm Clear again:
      square (0, 0) of the grid brought back is still black. */
  lemma StaleClearAfterToggle(before: Store)
    requires before.initial == EmptyGrid(5, 5)
    ensures var cleared := Reset(before);
      InGrid(cleared.live, Pos(0, 0)) &&
      var again := Reset(Toggle(cleared, 0, 0));
      InGrid(again.live, Pos(0, 0)) && again.live[0][0].isBlack && again.live != EmptyGrid(5, 5)
  {
  }
}
