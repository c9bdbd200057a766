/** Grid edits of src/hooks/useCrossword.ts other than typing: clamping and
    copying the grid on resize, toggling a black square, and the search
    `moveCursor` makes for the next white square. */
module Editing {
  import opened Types
  import opened Runs
  import opened Numbering
  import Fill

  // ---- Resize ----

  /** `Math.max(3, Math.min(10, n))`: the size a requested row or column
      count is clamped to. */
  function Clamp(n: int): (m: int)
    ensures 3 <= m <= 10
    ensures 3 <= n <= 10 ==> m == n
  {
    if n < 3 then 3 else if n > 10 then 10 else n
  }

  /** The clamped size is the allowed size nearest to the request. */
  lemma ClampNearest(n: int, x: int)
    requires 3 <= x <= 10
    ensures var m := Clamp(n);
      (if m <= n then n - m else m - n) <= (if x <= n then n - x else x - n)
  {
  }

  function Min(a: int, b: int): int
  {
    if a < b then a else b
  }

  /** The grid of `rows` by `cols` whose top-left overlap with `g` is
      copied from `g` and whose other squares are empty. */
  function Resized(g: Grid, size: GridSize, rows: nat, cols: nat): Grid
    requires Fits(g, size)
  {
    seq(rows, i requires 0 <= i < rows =>
      seq(cols, j requires 0 <= j < cols =>
        if i < size.rows && j < size.cols then g[i][j] else EmptyCell))
  }

  /** The squares before (i, j) in row-major order within the first `mc`
      columns hold `g`'s cells; every other square is empty. */
  ghost predicate CopiedUpTo(h: Grid, g: Grid, i: int, j: int, mc: int)
  {
    forall a, b :: 0 <= a < |h| && 0 <= b < |h[a]| ==>
      h[a][b] == if (a < i || (a == i && b < j)) && b < mc && a < |g| && b < |g[a]| then g[a][b] else EmptyCell
  }

  lemma CopiedAll(h: Grid, g: Grid, size: GridSize, rows: nat, cols: nat)
    requires Fits(g, size) && IsRect(h, rows, cols)
    requires CopiedUpTo(h, g, Min(size.rows, rows), 0, Min(size.cols, cols))
    ensures h == Resized(g, size, rows, cols)
  {
    var w := Resized(g, size, rows, cols);
    forall a | 0 <= a < rows ensures h[a] == w[a] {
      forall b | 0 <= b < cols ensures h[a][b] == w[a][b] {
        if a < size.rows {
          assert |g[a]| == size.cols;
        }
      }
    }
  }

  /** The copy loop of `handleResize`: an empty grid of the new size whose
      top-left overlap is copied square by square from the old grid. */
  method CopyTopLeft(grid: Grid, size: GridSize, rows: nat, cols: nat) returns (newGrid: Grid)
    requires Fits(grid, size)
    ensures newGrid == Resized(grid, size, rows, cols)
  {
    newGrid := EmptyGrid(rows, cols);
    var mr := Min(size.rows, rows);
    var mc := Min(size.cols, cols);
    for i := 0 to mr
      invariant IsRect(newGrid, rows, cols)
      invariant CopiedUpTo(newGrid, grid, i, 0, mc)
    {
      assert |grid[i]| == size.cols;
      for j := 0 to mc
        invariant IsRect(newGrid, rows, cols)
        invariant CopiedUpTo(newGrid, grid, i, j, mc)
      {
        newGrid := newGrid[i := newGrid[i][j := grid[i][j]]];
      }
    }
    CopiedAll(newGrid, grid, size, rows, cols);
  }

  /** Numbering looks only at the text and colour of the squares: grids
      that differ only in their numbers are numbered alike. */
  lemma NumberingIgnoresNumbers(g: Grid, h: Grid)
    requires SameLayout(g, h)
    requires forall r, c :: 0 <= r < |g| && 0 <= c < |g[r]| ==> g[r][c].ch == h[r][c].ch
    ensures NumberedGrid(g) == NumberedGrid(h)
  {
    LayoutDeterminesNumbering(g, h);
    forall r | 0 <= r < |g| ensures NumberedGrid(g)[r] == NumberedGrid(h)[r] {
    }
  }

  /** After `handleResize` the overlap keeps its text and colour and every
      new square is empty and white. */
  lemma ResizeKeepsOverlap(g: Grid, size: GridSize, rows: nat, cols: nat)
    requires Fits(g, size)
    ensures var h := NumberedGrid(Resized(g, size, rows, cols));
      IsRect(h, rows, cols) &&
      forall i, j :: 0 <= i < rows && 0 <= j < cols ==>
        if i < size.rows && j < size.cols
        then h[i][j].ch == g[i][j].ch && h[i][j].isBlack == g[i][j].isBlack
        else h[i][j].ch == "" && !h[i][j].isBlack
  {
    NumberingKeepsCells(Resized(g, size, rows, cols));
  }

  /** Growing the grid and shrinking it back to its old size restores the
      numbered grid exactly. */
  lemma ResizeRoundTrip(g: Grid, size: GridSize, rows: nat, cols: nat)
    requires Fits(g, size) && size.rows <= rows && size.cols <= cols
    ensures var big := NumberedGrid(Resized(g, size, rows, cols));
      Fits(big, GridSize(rows, cols)) &&
      NumberedGrid(Resized(big, GridSize(rows, cols), size.rows, size.cols)) == NumberedGrid(g)
  {
    var big := NumberedGrid(Resized(g, size, rows, cols));
    ResizeKeepsOverlap(g, size, rows, cols);
    var back := Resized(big, GridSize(rows, cols), size.rows, size.cols);
    forall r | 0 <= r < |g| ensures |back[r]| == |g[r]| {
    }
    NumberingIgnoresNumbers(back, g);
  }

  // ---- Black squares ----

  /** `toggleBlackSquare` before renumbering: square (r, c) changes colour,
      and loses its text when it turns black. */
  function Toggled(g: Grid, r: int, c: int): (h: Grid)
    requires InGrid(g, Pos(r, c))
    ensures |h| == |g| && forall i :: 0 <= i < |g| ==> |h[i]| == |g[i]|
    ensures h[r][c].isBlack == !g[r][c].isBlack
    ensures h[r][c].ch == if h[r][c].isBlack then "" else g[r][c].ch
    ensures forall i, j :: 0 <= i < |g| && 0 <= j < |g[i]| && (i, j) != (r, c) ==> h[i][j] == g[i][j]
  {
    var cell := g[r][c];
    var black := !cell.isBlack;
    g[r := g[r][c := cell.(isBlack := black, ch := if black then "" else cell.ch)]]
  }

  /** Toggling a square twice restores the numbered grid, except that the
      square's text is gone. */
  lemma ToggleTwice(g: Grid, r: int, c: int)
    requires InGrid(g, Pos(r, c))
    ensures var once := NumberedGrid(Toggled(g, r, c));
      InGrid(once, Pos(r, c)) &&
      NumberedGrid(Toggled(once, r, c)) == NumberedGrid(Fill.SetChar(g, r, c, ""))
  {
    var t := Toggled(g, r, c);
    var once := NumberedGrid(t);
    NumberingKeepsCells(t);
    var twice := Toggled(once, r, c);
    var cleared := Fill.SetChar(g, r, c, "");
    forall i | 0 <= i < |g| ensures |twice[i]| == |cleared[i]| {
    }
    NumberingIgnoresNumbers(twice, cleared);
  }

  // ---- Cursor movement ----

  /** `moveCursor`'s search: steps from (r, c) along `dir`, forward or
      backward, past black squares, at most max(rows, cols) times; stops
      with `None` at the edge. */
  method ScanForWhite(grid: Grid, size: GridSize, r: int, c: int, dir: Direction, forward: bool)
    returns (target: Option<Pos>)
    requires Fits(grid, size) && InBounds(size, Pos(r, c))
    ensures target == NextWhite(grid, size, Pos(r, c), dir, forward)
  {
    var nextR, nextC := r, c;
    var steps := 0;
    var bound := if size.rows > size.cols then size.rows else size.cols;
    while steps < bound
      invariant 0 <= steps
      invariant Pos(nextR, nextC) == Toward(Pos(r, c), dir, forward, steps)
      invariant InBounds(size, Pos(nextR, nextC))
      invariant FirstWhiteFrom(grid, size, Toward(Pos(nextR, nextC), dir, forward, 1), dir, forward)
        == NextWhite(grid, size, Pos(r, c), dir, forward)
    {
      ghost var q := Toward(Pos(nextR, nextC), dir, forward, 1);
      if dir == Across {
        nextC := if forward then nextC + 1 else nextC - 1;
      } else {
        nextR := if forward then nextR + 1 else nextR - 1;
      }
      if nextR < 0 || nextR >= size.rows || nextC < 0 || nextC >= size.cols {
        return None;
      }
      if !grid[nextR][nextC].isBlack {
        return Some(Pos(nextR, nextC));
      }
      assert Pos(nextR, nextC) == q;
      FirstWhiteSkip(grid, size, q, dir, forward);
      steps := steps + 1;
    }
    assert false;
    target := None;
  }
}
