/** The board's word locator (src/components/crossword/Board.tsx): the
    span of the word through the cursor and the per-square highlight
    predicates. */
module Board {
  import opened Types
  import opened Runs

  /** `activeWordRange`: the direction, the fixed row (across) or column
      (down), and the first and last coordinate of the span. */
  datatype WordRange = WordRange(dir: Direction, line: int, start: int, end: int)

  /** The span the locator computes: none without a cursor or on a black
      cursor square, otherwise from where the walk back stops to where the
      walk forward stops. */
  function ActiveRange(g: Grid, size: GridSize, cursor: Option<Pos>, direction: Direction): (w: Option<WordRange>)
    requires Fits(g, size) && (cursor.Some? ==> InBounds(size, cursor.value))
    ensures cursor.None? ==> w.None?
    ensures w.Some? ==> cursor.Some? && w.value.dir == direction && w.value.line == Fixed(cursor.value, direction)
  {
    match cursor
    case None => None
    case Some(p) =>
      InGridFromRect(g, size, p);
      if g[p.r][p.c].isBlack then None
      else Some(WordRange(direction, Fixed(p, direction),
                          Along(RunStart(g, size, p, direction), direction),
                          Along(RunEnd(g, size, p, direction), direction)))
  }

  /** `activeWordRange`, with its two boundary walks. */
  method ActiveWordRange(grid: Grid, size: GridSize, cursor: Option<Pos>, direction: Direction) returns (range: Option<WordRange>)
    requires Fits(grid, size) && (cursor.Some? ==> InBounds(size, cursor.value))
    ensures range == ActiveRange(grid, size, cursor, direction)
  {
    if cursor == None {
      return None;
    }
    var r, c := cursor.value.r, cursor.value.c;
    assert |grid[r]| == size.cols;
    if grid[r][c].isBlack {
      return None;
    }
    if direction == Across {
      var startC, endC := AcrossWalks(grid, size, r, c);
      range := Some(WordRange(Across, r, startC, endC));
    } else {
      var startR, endR := DownWalks(grid, size, r, c);
      range := Some(WordRange(Down, c, startR, endR));
    }
  }

  /** The two walks along row `r` from column `c`. */
  method AcrossWalks(grid: Grid, size: GridSize, r: int, c: int) returns (startC: int, endC: int)
    requires Fits(grid, size) && InBounds(size, Pos(r, c))
    ensures startC == RunStart(grid, size, Pos(r, c), Across).c
    ensures endC == RunEnd(grid, size, Pos(r, c), Across).c
  {
    assert |grid[r]| == size.cols;
    startC, endC := c, c;
    while startC > 0 && !grid[r][startC - 1].isBlack
      invariant 0 <= startC <= c
      invariant RunStart(grid, size, Pos(r, startC), Across) == RunStart(grid, size, Pos(r, c), Across)
    {
      startC := startC - 1;
    }
    while endC < size.cols - 1 && !grid[r][endC + 1].isBlack
      invariant c <= endC < size.cols
      invariant RunEnd(grid, size, Pos(r, endC), Across) == RunEnd(grid, size, Pos(r, c), Across)
    {
      endC := endC + 1;
    }
  }

  /** The two walks along column `c` from row `r`. */
  method DownWalks(grid: Grid, size: GridSize, r: int, c: int) returns (startR: int, endR: int)
    requires Fits(grid, size) && InBounds(size, Pos(r, c))
    ensures startR == RunStart(grid, size, Pos(r, c), Down).r
    ensures endR == RunEnd(grid, size, Pos(r, c), Down).r
  {
    startR, endR := r, r;
    while startR > 0 && !grid[startR - 1][c].isBlack
      invariant 0 <= startR <= r
      invariant RunStart(grid, size, Pos(startR, c), Down) == RunStart(grid, size, Pos(r, c), Down)
    {
      assert |grid[startR - 1]| == size.cols;
      startR := startR - 1;
    }
    while endR < size.rows - 1 && !grid[endR + 1][c].isBlack
      invariant r <= endR < size.rows
      invariant RunEnd(grid, size, Pos(endR, c), Down) == RunEnd(grid, size, Pos(r, c), Down)
    {
      assert |grid[endR + 1]| == size.cols;
      endR := endR + 1;
    }
  }

  /** `isActive`: the square is the cursor square. */
  predicate IsActive(cursor: Option<Pos>, r: int, c: int): (b: bool)
    ensures b <==> cursor.Some? && cursor.value.r == r && cursor.value.c == c
  {
    cursor == Some(Pos(r, c))
  }

  /** `isInActiveWord`: every square while there is no cursor; otherwise
      the squares of the span, on its line between its ends. */
  predicate IsInActiveWord(cursor: Option<Pos>, range: Option<WordRange>, r: int, c: int): (b: bool)
    ensures cursor.None? ==> b
    ensures cursor.Some? ==>
      (b <==> range.Some? && Fixed(Pos(r, c), range.value.dir) == range.value.line &&
              range.value.start <= Along(Pos(r, c), range.value.dir) <= range.value.end)
  {
    if cursor == None then true
    else match range
      case None => false
      case Some(w) =>
        if w.dir == Across then r == w.line && w.start <= c <= w.end
        else c == w.line && w.start <= r <= w.end
  }

  /** The span is missing exactly when there is no cursor or the cursor
      square is black. */
  lemma ActiveRangeNone(g: Grid, size: GridSize, cursor: Option<Pos>, direction: Direction)
    requires Fits(g, size) && (cursor.Some? ==> InBounds(size, cursor.value))
    ensures ActiveRange(g, size, cursor, direction) == None <==> cursor == None || Black(g, cursor.value)
  {
    if cursor.Some? {
      InGridFromRect(g, size, cursor.value);
    }
  }

  /** The cursor square, when white, is both the active square and a
      square of the active word. */
  lemma CursorInActiveWord(g: Grid, size: GridSize, p: Pos, direction: Direction)
    requires Fits(g, size) && InBounds(size, p) && White(g, p)
    ensures IsActive(Some(p), p.r, p.c)
    ensures IsInActiveWord(Some(p), ActiveRange(g, size, Some(p), direction), p.r, p.c)
  {
    ActiveRangeSpec(g, size, p, direction);
  }

  /** On a white cursor square the span runs along `direction` on the
      cursor's line, contains the cursor, is all white, and is maximal: it
      starts at the edge or after a black square and ends at the edge or
      before one. */
  lemma ActiveRangeSpec(g: Grid, size: GridSize, p: Pos, direction: Direction)
    requires Fits(g, size) && InBounds(size, p) && White(g, p)
    ensures match ActiveRange(g, size, Some(p), direction)
      case None => false
      case Some(w) =>
        w.dir == direction && w.line == Fixed(p, direction) &&
        0 <= w.start <= Along(p, direction) <= w.end < Limit(size, direction) &&
        (forall k :: w.start <= k <= w.end ==> White(g, At(p, direction, k))) &&
        (w.start == 0 || Black(g, At(p, direction, w.start - 1))) &&
        (w.end == Limit(size, direction) - 1 || Black(g, At(p, direction, w.end + 1)))
  {
    var q := RunStart(g, size, p, direction);
    var e := RunEnd(g, size, p, direction);
    InGridFromRect(g, size, p);
    assert ActiveRange(g, size, Some(p), direction) ==
      Some(WordRange(direction, Fixed(p, direction), Along(q, direction), Along(e, direction)));
    StartSide(g, size, p, direction);
    EndSide(g, size, p, direction);
  }

  /** The walk back from a white square covers white squares up to and
      including the square, and stops at the edge or after a black square. */
  lemma StartSide(g: Grid, size: GridSize, p: Pos, dir: Direction)
    requires Fits(g, size) && InBounds(size, p) && White(g, p)
    ensures var a := Along(RunStart(g, size, p, dir), dir);
      0 <= a <= Along(p, dir) &&
      (forall k :: a <= k <= Along(p, dir) ==> White(g, At(p, dir, k))) &&
      (a == 0 || Black(g, At(p, dir, a - 1)))
  {
    RunStartSpec(g, size, p, dir);
    var q := RunStart(g, size, p, dir);
    assert p == At(p, dir, Along(p, dir));
    assert Step(q, dir, -1) == At(p, dir, Along(q, dir) - 1);
    InGridFromRect(g, size, Step(q, dir, -1));
  }

  /** The walk forward from a white square covers white squares from the
      square on, and stops at the edge or before a black square. */
  lemma EndSide(g: Grid, size: GridSize, p: Pos, dir: Direction)
    requires Fits(g, size) && InBounds(size, p) && White(g, p)
    ensures var b := Along(RunEnd(g, size, p, dir), dir);
      Along(p, dir) <= b < Limit(size, dir) &&
      (forall k :: Along(p, dir) <= k <= b ==> White(g, At(p, dir, k))) &&
      (b == Limit(size, dir) - 1 || Black(g, At(p, dir, b + 1)))
  {
    RunEndSpec(g, size, p, dir);
    var e := RunEnd(g, size, p, dir);
    assert p == At(p, dir, Along(p, dir));
    assert Step(e, dir, 1) == At(p, dir, Along(e, dir) + 1);
    InGridFromRect(g, size, Step(e, dir, 1));
  }

  /** All squares of `p`'s line with coordinates from `lo` to `hi` are white. */
  ghost predicate WhiteBetween(g: Grid, p: Pos, dir: Direction, lo: int, hi: int)
  {
    forall k :: lo <= k <= hi ==> White(g, At(p, dir, k))
  }

  /** A square is highlighted iff there is no cursor, or the cursor square
      is white and the square is joined to it along `direction` by white
      squares only. */
  lemma HighlightIff(g: Grid, size: GridSize, cursor: Option<Pos>, direction: Direction, q: Pos)
    requires Fits(g, size) && (cursor.Some? ==> InBounds(size, cursor.value)) && InBounds(size, q)
    ensures IsInActiveWord(cursor, ActiveRange(g, size, cursor, direction), q.r, q.c) <==>
      cursor == None ||
      (White(g, cursor.value) && Fixed(q, direction) == Fixed(cursor.value, direction) &&
       var a, b := Along(q, direction), Along(cursor.value, direction);
       WhiteBetween(g, q, direction, if a < b then a else b, if a < b then b else a))
  {
    if cursor.Some? {
      var p := cursor.value;
      InGridFromRect(g, size, p);
      if White(g, p) {
        ActiveRangeSpec(g, size, p, direction);
        if Fixed(q, direction) == Fixed(p, direction) {
          SpanHolds(g, size, p, direction, ActiveRange(g, size, cursor, direction).value, q);
        }
      }
    }
  }

  /** For a square `q` on the line of `p`, a maximal white span through `p`
      contains `q` iff every square between `q` and `p` is white. */
  lemma SpanHolds(g: Grid, size: GridSize, p: Pos, direction: Direction, w: WordRange, q: Pos)
    requires Fits(g, size) && InBounds(size, q) && Fixed(q, direction) == Fixed(p, direction)
    requires 0 <= w.start <= Along(p, direction) <= w.end < Limit(size, direction)
    requires forall k :: w.start <= k <= w.end ==> White(g, At(p, direction, k))
    requires w.start == 0 || Black(g, At(p, direction, w.start - 1))
    requires w.end == Limit(size, direction) - 1 || Black(g, At(p, direction, w.end + 1))
    ensures w.start <= Along(q, direction) <= w.end <==>
      var a, b := Along(q, direction), Along(p, direction);
      WhiteBetween(g, q, direction, if a < b then a else b, if a < b then b else a)
  {
    var a, b := Along(q, direction), Along(p, direction);
    assert forall k :: At(q, direction, k) == At(p, direction, k);
    assert q == At(p, direction, a);
    var lo, hi := if a < b then a else b, if a < b then b else a;
    assert WhiteBetween(g, q, direction, lo, hi) && lo <= w.start - 1 <= hi ==> White(g, At(p, direction, w.start - 1));
    assert WhiteBetween(g, q, direction, lo, hi) && lo <= w.end + 1 <= hi ==> White(g, At(p, direction, w.end + 1));
  }
}
