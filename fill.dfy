/** Typing into the grid (src/hooks/useCrossword.ts): the single-square
    writes of Backspace and of text still being composed, and
    `fillGridWithSequence`, which spreads text along the current direction
    and places the cursor after it. */
module Fill {
  import opened Types
  import opened Runs

  /** The grid with the text of square (r, c) replaced by `s`. */
  function SetChar(g: Grid, r: int, c: int, s: string): (h: Grid)
    requires InGrid(g, Pos(r, c))
    ensures SameLayout(g, h)
    ensures h[r][c] == g[r][c].(ch := s)
    ensures forall i, j :: 0 <= i < |g| && 0 <= j < |g[i]| && (i, j) != (r, c) ==> h[i][j] == g[i][j]
  {
    g[r := g[r][c := g[r][c].(ch := s)]]
  }

  /** How far `q` lies from `start` along `dir` on `start`'s line; -1 for a
      square off that line. */
  function Offset(start: Pos, dir: Direction, q: Pos): int
  {
    if Fixed(q, dir) == Fixed(start, dir) then Along(q, dir) - Along(start, dir) else -1
  }

  lemma OffsetStep(start: Pos, dir: Direction, q: Pos, i: int)
    ensures Offset(start, dir, q) == i && 0 <= i <==> q == Step(start, dir, i) && 0 <= i
  {
  }

  /** How many characters a fill writes: as many as there are, up to the
      first square that is off the grid or black. */
  function FillCount(g: Grid, size: GridSize, start: Pos, dir: Direction, text: string): nat
    requires Fits(g, size) && InBounds(size, start)
  {
    var run := WhiteRunLength(g, size, start, dir);
    if |text| < run then |text| else run
  }

  /** The grid with square `p`'s text replaced by `s`; unchanged when `p`
      is not a square of the grid. */
  function WriteAt(g: Grid, p: Pos, s: string): (h: Grid)
    ensures SameLayout(g, h)
  {
    if InGrid(g, p) then SetChar(g, p.r, p.c, s) else g
  }

  lemma WriteAtAt(g: Grid, p: Pos, s: string, r: int, c: int)
    requires 0 <= r < |g| && 0 <= c < |g[r]|
    ensures |WriteAt(g, p, s)| == |g| && |WriteAt(g, p, s)[r]| == |g[r]|
    ensures WriteAt(g, p, s)[r][c] == if p == Pos(r, c) then g[r][c].(ch := s) else g[r][c]
  {
  }

  /** The grid after the first `k` characters of `text` are written one per
      square from `start` along `dir`. */
  function FilledGrid(g: Grid, start: Pos, dir: Direction, text: string, k: nat): (h: Grid)
    requires k <= |text|
    ensures SameLayout(g, h)
  {
    if k == 0 then g
    else WriteAt(FilledGrid(g, start, dir, text, k - 1), Step(start, dir, k - 1), [text[k - 1]])
  }

  /** Square (r, c) of the filled grid holds the character whose offset
      from `start` it is when that offset is below `k`, and is unchanged
      otherwise. */
  lemma {:induction false} FilledGridAt(g: Grid, start: Pos, dir: Direction, text: string, k: nat, r: int, c: int)
    requires k <= |text| && 0 <= r < |g| && 0 <= c < |g[r]|
    ensures var i := Offset(start, dir, Pos(r, c));
      FilledGrid(g, start, dir, text, k)[r][c] == if 0 <= i < k then g[r][c].(ch := [text[i]]) else g[r][c]
  {
    if k > 0 {
      FilledGridAt(g, start, dir, text, k - 1, r, c);
      OffsetStep(start, dir, Pos(r, c), k - 1);
      var h := FilledGrid(g, start, dir, text, k - 1);
      WriteAtAt(h, Step(start, dir, k - 1), [text[k - 1]], r, c);
    }
  }

  /** The walk writes one more character exactly when text is left and the
      square reached is on the grid and white. */
  lemma FillCountAt(g: Grid, size: GridSize, start: Pos, dir: Direction, text: string, i: nat)
    requires Fits(g, size) && InBounds(size, start)
    requires i <= FillCount(g, size, start, dir, text)
    ensures i < FillCount(g, size, start, dir, text) <==> i < |text| && !Blocked(g, size, Step(start, dir, i))
  {
    WhiteRunLengthSpec(g, size, start, dir);
    BlockedIff(g, size, Step(start, dir, i));
  }

  /** The last square written; the start square when nothing was written. */
  function LastWritten(start: Pos, dir: Direction, k: int): Pos
  {
    if k <= 0 then start else Step(start, dir, k - 1)
  }

  /** Where the cursor goes after a fill that wrote `k` characters: the
      square after the last one written if it is on the grid and white,
      otherwise the last one written. */
  function FillCursor(g: Grid, size: GridSize, start: Pos, dir: Direction, k: int): Pos
    requires Fits(g, size)
  {
    var last := LastWritten(start, dir, k);
    var next := Step(last, dir, 1);
    if InBounds(size, next) && (InGridFromRect(g, size, next); !g[next.r][next.c].isBlack) then next else last
  }

  /** Writing character `i` into the `i`-th square of a grid filled with
      `i` characters gives the grid filled with `i + 1`; that square has
      the colour it had in `g`. */
  lemma WriteStep(g: Grid, size: GridSize, start: Pos, dir: Direction, text: string, i: nat)
    requires Fits(g, size) && i < |text| && InBounds(size, Step(start, dir, i))
    ensures var p := Step(start, dir, i);
      var h := FilledGrid(g, start, dir, text, i);
      InGrid(h, p) && h[p.r][p.c].isBlack == g[p.r][p.c].isBlack &&
      h[p.r := h[p.r][p.c := h[p.r][p.c].(ch := [text[i]])]] == FilledGrid(g, start, dir, text, i + 1)
  {
    var p := Step(start, dir, i);
    InGridFromRect(g, size, p);
    SameLayoutWhite(g, FilledGrid(g, start, dir, text, i), p);
  }

  /** The writing loop of `fillGridWithSequence`: one character per square
      from `start` along `dir` until the text runs out or the walk reaches
      the edge or a black square; also returns the last square written. */
  method WriteRun(grid: Grid, size: GridSize, start: Pos, dir: Direction, text: string)
    returns (newGrid: Grid, lastR: int, lastC: int)
    requires Fits(grid, size) && InBounds(size, start)
    ensures newGrid == FilledGrid(grid, start, dir, text, FillCount(grid, size, start, dir, text))
    ensures Pos(lastR, lastC) == LastWritten(start, dir, FillCount(grid, size, start, dir, text))
  {
    ghost var k := FillCount(grid, size, start, dir, text);
    newGrid := grid;
    var currR, currC := start.r, start.c;
    lastR, lastC := start.r, start.c;
    var i := 0;
    while i < |text|
      invariant 0 <= i <= k
      invariant Pos(currR, currC) == Step(start, dir, i)
      invariant Pos(lastR, lastC) == LastWritten(start, dir, i)
      invariant newGrid == FilledGrid(grid, start, dir, text, i)
    {
      FillCountAt(grid, size, start, dir, text, i);
      if currR >= size.rows || currC >= size.cols {
        break;
      }
      WriteStep(grid, size, start, dir, text, i);
      if newGrid[currR][currC].isBlack {
        break;
      }
      newGrid := newGrid[currR := newGrid[currR][currC := newGrid[currR][currC].(ch := [text[i]])]];
      lastR, lastC := currR, currC;
      if dir == Across {
        currC := currC + 1;
      } else {
        currR := currR + 1;
      }
      i := i + 1;
    }
    FillCountAt(grid, size, start, dir, text, i);
  }

  /** `fillGridWithSequence` after its empty-text check: writes the run,
      then moves the cursor to the square after the last one written when
      that square is on the grid and white, else to the last one written. */
  method FillSequence(grid: Grid, size: GridSize, start: Pos, dir: Direction, text: string)
    returns (newGrid: Grid, cursor: Pos)
    requires Fits(grid, size) && InBounds(size, start)
    ensures newGrid == FilledGrid(grid, start, dir, text, FillCount(grid, size, start, dir, text))
    ensures cursor == FillCursor(grid, size, start, dir, FillCount(grid, size, start, dir, text))
  {
    var lastR, lastC;
    newGrid, lastR, lastC := WriteRun(grid, size, start, dir, text);
    ghost var k := FillCount(grid, size, start, dir, text);
    var nextR, nextC := lastR, lastC;
    if dir == Across {
      nextC := nextC + 1;
    } else {
      nextR := nextR + 1;
    }
    assert Pos(nextR, nextC) == Step(LastWritten(start, dir, k), dir, 1);
    InGridFromRect(newGrid, size, Pos(nextR, nextC));
    assert InBounds(size, Pos(nextR, nextC)) ==> newGrid[nextR][nextC].isBlack == grid[nextR][nextC].isBlack;
    if nextR < size.rows && nextC < size.cols && !newGrid[nextR][nextC].isBlack {
      cursor := Pos(nextR, nextC);
    } else {
      cursor := Pos(lastR, lastC);
    }
  }

  /** A fill writes the `i`-th character into the `i`-th square from
      `start` for every `i` below the count, those squares are white, the
      walk stopped because the text ran out or the next square is off the
      grid or black, and no other square and no black square changes. */
  lemma FillWritesRun(g: Grid, size: GridSize, start: Pos, dir: Direction, text: string)
    requires Fits(g, size) && InBounds(size, start)
    ensures var k := FillCount(g, size, start, dir, text);
      var h := FilledGrid(g, start, dir, text, k);
      SameLayout(g, h) &&
      (k == |text| || Blocked(g, size, Step(start, dir, k))) &&
      (forall i :: 0 <= i < k ==> White(g, Step(start, dir, i))) &&
      (forall r, c :: 0 <= r < |g| && 0 <= c < |g[r]| ==>
         h[r][c] == if 0 <= Offset(start, dir, Pos(r, c)) < k then g[r][c].(ch := [text[Offset(start, dir, Pos(r, c))]]) else g[r][c])
  {
    var k := FillCount(g, size, start, dir, text);
    WhiteRunLengthSpec(g, size, start, dir);
    forall r, c | 0 <= r < |g| && 0 <= c < |g[r]|
      ensures FilledGrid(g, start, dir, text, k)[r][c] ==
        if 0 <= Offset(start, dir, Pos(r, c)) < k then g[r][c].(ch := [text[Offset(start, dir, Pos(r, c))]]) else g[r][c]
    {
      FilledGridAt(g, start, dir, text, k, r, c);
    }
  }

  /** After a fill the cursor is on the grid; when something was written it
      is on a white square, either the square after the last one written or
      that last square itself. */
  lemma FillCursorLands(g: Grid, size: GridSize, start: Pos, dir: Direction, text: string)
    requires Fits(g, size) && InBounds(size, start)
    ensures var k := FillCount(g, size, start, dir, text);
      var p := FillCursor(g, size, start, dir, k);
      InBounds(size, p) &&
      (k >= 1 ==> White(g, p) && (p == Step(start, dir, k) || p == Step(start, dir, k - 1))) &&
      (k >= 1 && p == Step(start, dir, k - 1) ==> Blocked(g, size, Step(start, dir, k)))
  {
    var k := FillCount(g, size, start, dir, text);
    WhiteRunLengthSpec(g, size, start, dir);
    var last := LastWritten(start, dir, k);
    var next := Step(last, dir, 1);
    BlockedIff(g, size, next);
    if k >= 1 {
      assert White(g, Step(start, dir, k - 1));
      InGridFromRect(g, size, last);
      assert next == Step(start, dir, k);
    }
  }
}
