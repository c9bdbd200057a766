/** The crossword's data model: cells, grids, sizes, positions and the
    geometry of walking along a row or a column. */
module Types {

  datatype Option<+T> = None | Some(value: T)

  datatype Direction = Across | Down

  datatype Mode = Input | EditBlack

  /** One grid square. `ch` is the text shown in the square (normally zero
      or one character); `number` is derived by the numbering engine. */
  datatype Cell = Cell(ch: string, isBlack: bool, number: Option<int>)

  type Grid = seq<seq<Cell>>

  datatype GridSize = GridSize(rows: int, cols: int)

  datatype Pos = Pos(r: int, c: int)

  /** A clue as stored in a saved project. */
  datatype Clue = Clue(number: int, direction: Direction, text: string)

  const EmptyCell: Cell := Cell("", false, None)

  function Flip(d: Direction): (e: Direction)
    ensures e != d
  {
    if d == Across then Down else Across
  }

  /** The grid has exactly `rows` rows of `cols` cells each. */
  predicate IsRect(g: Grid, rows: int, cols: int)
  {
    |g| == rows && 0 <= cols && forall r :: 0 <= r < |g| ==> |g[r]| == cols
  }

  predicate Fits(g: Grid, size: GridSize)
  {
    IsRect(g, size.rows, size.cols)
  }

  predicate InGrid(g: Grid, p: Pos)
  {
    0 <= p.r < |g| && 0 <= p.c < |g[p.r]|
  }

  predicate InBounds(size: GridSize, p: Pos)
  {
    0 <= p.r < size.rows && 0 <= p.c < size.cols
  }

  /** A square that exists and is not black. */
  predicate White(g: Grid, p: Pos)
  {
    InGrid(g, p) && !g[p.r][p.c].isBlack
  }

  /** A square that exists and is black (squares off the grid are neither). */
  predicate Black(g: Grid, p: Pos)
  {
    InGrid(g, p) && g[p.r][p.c].isBlack
  }

  /** The square `k` steps from `p` along `dir` (negative `k` walks back). */
  function Step(p: Pos, dir: Direction, k: int): Pos
  {
    if dir == Across then Pos(p.r, p.c + k) else Pos(p.r + k, p.c)
  }

  /** Two grids with the same shape and the same black squares. */
  ghost predicate SameLayout(g: Grid, h: Grid)
  {
    |g| == |h| &&
    (forall r :: 0 <= r < |g| ==> |g[r]| == |h[r]|) &&
    (forall r, c :: 0 <= r < |g| && 0 <= c < |g[r]| ==> g[r][c].isBlack == h[r][c].isBlack)
  }

  lemma SameLayoutWhite(g: Grid, h: Grid, p: Pos)
    requires SameLayout(g, h)
    ensures White(g, p) == White(h, p) && InGrid(g, p) == InGrid(h, p)
  {
  }

  lemma InGridFromRect(g: Grid, size: GridSize, p: Pos)
    requires Fits(g, size)
    ensures InGrid(g, p) <==> InBounds(size, p)
  {
    if 0 <= p.r < |g| {
      assert |g[p.r]| == size.cols;
    }
  }
}
