/** `activeWordInfo` of src/hooks/useCrossword.ts: the number, direction,
    clue text and squares of the word the cursor is in, as shown above the
    board. */
module WordInfo {
  import opened Types
  import opened Runs
  import opened WordKeys
  import opened Numbering
  import Board

  /** One square of the word: its text, and whether it is the cursor square. */
  datatype InfoCell = InfoCell(ch: string, isActive: bool)

  datatype ActiveWord = ActiveWord(number: int, direction: Direction, clueText: string, cells: seq<InfoCell>)

  /** The squares from `q` on along `dir` while they are on the grid and
      white, each marked active when it is `cursor`. */
  function InfoCells(g: Grid, size: GridSize, q: Pos, dir: Direction, cursor: Pos): seq<InfoCell>
    requires Fits(g, size) && 0 <= Along(q, dir)
    decreases Limit(size, dir) - Along(q, dir)
  {
    if Blocked(g, size, q) then []
    else [InfoCell(g[q.r][q.c].ch, q == cursor)] + InfoCells(g, size, Step(q, dir, 1), dir, cursor)
  }

  /** What `activeWordInfo` yields: nothing without a cursor or when the
      square where the walk back from the cursor stops has no number;
      otherwise that number, the clue text stored under its key, and the
      white squares from that square on. */
  function WordInfoOf(g: Grid, size: GridSize, cursor: Option<Pos>, direction: Direction, texts: map<string, string>): Option<ActiveWord>
    requires Fits(g, size) && (cursor.Some? ==> InBounds(size, cursor.value))
  {
    match cursor
    case None => None
    case Some(p) =>
      var s := RunStart(g, size, p, direction);
      RunStartInBounds(g, size, p, direction);
      InGridFromRect(g, size, s);
      match g[s.r][s.c].number
      case None => None
      case Some(n) =>
        Some(ActiveWord(n, direction, ClueTextOf(texts, KeyString(WordKey(n, direction))),
                        InfoCells(g, size, s, direction, p)))
  }

  /** The first loop of `activeWordInfo`: walks back from the cursor
      while the previous square is white. */
  method WalkBack(grid: Grid, size: GridSize, r: int, c: int, direction: Direction) returns (startR: int, startC: int)
    requires Fits(grid, size) && InBounds(size, Pos(r, c))
    ensures Pos(startR, startC) == RunStart(grid, size, Pos(r, c), direction)
  {
    startR, startC := r, c;
    if direction == Across {
      while startC > 0 && !grid[startR][startC - 1].isBlack
        invariant 0 <= startC <= c && startR == r
        invariant RunStart(grid, size, Pos(startR, startC), Across) == RunStart(grid, size, Pos(r, c), Across)
      {
        startC := startC - 1;
      }
    } else {
      while startR > 0 && !grid[startR - 1][startC].isBlack
        invariant 0 <= startR <= r && startC == c
        invariant RunStart(grid, size, Pos(startR, startC), Down) == RunStart(grid, size, Pos(r, c), Down)
      {
        assert |grid[startR - 1]| == size.cols;
        startR := startR - 1;
      }
    }
  }

  /** One step of the collecting loop: the cell of white square `q`
      moves from the part still to collect to the part collected. */
  lemma CollectStep(g: Grid, size: GridSize, cells: seq<InfoCell>, q: Pos, dir: Direction, cursor: Pos, whole: seq<InfoCell>)
    requires Fits(g, size) && InBounds(size, q) && !g[q.r][q.c].isBlack
    requires cells + InfoCells(g, size, q, dir, cursor) == whole
    ensures (cells + [InfoCell(g[q.r][q.c].ch, q == cursor)]) + InfoCells(g, size, Step(q, dir, 1), dir, cursor) == whole
  {
    var rest := InfoCells(g, size, Step(q, dir, 1), dir, cursor);
    assert InfoCells(g, size, q, dir, cursor) == [InfoCell(g[q.r][q.c].ch, q == cursor)] + rest;
    assert (cells + [InfoCell(g[q.r][q.c].ch, q == cursor)]) + rest == cells + ([InfoCell(g[q.r][q.c].ch, q == cursor)] + rest);
  }

  /** The second loop of `activeWordInfo`: collects the squares from
      (startR, startC) on while they are on the grid and white. */
  method CollectCells(grid: Grid, size: GridSize, startR: int, startC: int, direction: Direction, r: int, c: int)
    returns (cells: seq<InfoCell>)
    requires Fits(grid, size) && InBounds(size, Pos(startR, startC))
    ensures cells == InfoCells(grid, size, Pos(startR, startC), direction, Pos(r, c))
  {
    cells := [];
    var currR, currC := startR, startC;
    while currR < size.rows && currC < size.cols && !grid[currR][currC].isBlack
      invariant 0 <= currR && 0 <= currC && Fixed(Pos(currR, currC), direction) == Fixed(Pos(startR, startC), direction)
      invariant cells + InfoCells(grid, size, Pos(currR, currC), direction, Pos(r, c))
        == InfoCells(grid, size, Pos(startR, startC), direction, Pos(r, c))
      decreases Limit(size, direction) - Along(Pos(currR, currC), direction)
    {
      ghost var q := Pos(currR, currC);
      var cell := InfoCell(grid[currR][currC].ch, currR == r && currC == c);
      CollectStep(grid, size, cells, q, direction, Pos(r, c), InfoCells(grid, size, Pos(startR, startC), direction, Pos(r, c)));
      cells := cells + [cell];
      if direction == Across {
        currC := currC + 1;
      } else {
        currR := currR + 1;
      }
      assert Pos(currR, currC) == Step(q, direction, 1);
    }
    assert cells + [] == cells;
  }

  /** `activeWordInfo`: walks back from the cursor, reads the number there,
      looks up the clue text, and collects the squares forward. */
  method ActiveWordInfo(grid: Grid, size: GridSize, cursor: Option<Pos>, direction: Direction, clueTexts: map<string, string>)
    returns (info: Option<ActiveWord>)
    requires Fits(grid, size) && (cursor.Some? ==> InBounds(size, cursor.value))
    ensures info == WordInfoOf(grid, size, cursor, direction, clueTexts)
  {
    if cursor == None {
      return None;
    }
    var r, c := cursor.value.r, cursor.value.c;
    var startR, startC := WalkBack(grid, size, r, c, direction);
    RunStartSpec(grid, size, Pos(r, c), direction);
    assert |grid[startR]| == size.cols;
    var number := grid[startR][startC].number;
    if number == None {
      return None;
    }
    var clueKey := KeyString(WordKey(number.value, direction));
    var clueText := ClueTextOf(clueTexts, clueKey);
    var cells := CollectCells(grid, size, startR, startC, direction, r, c);
    info := Some(ActiveWord(number.value, direction, clueText, cells));
  }

  // ---- What the word info promises ----

  /** `cell` shows the square `i` steps from `q`: that square is white,
      and `cell` has its text and is active iff that square is `cursor`. */
  predicate ShowsStep(g: Grid, q: Pos, dir: Direction, i: int, cursor: Pos, cell: InfoCell)
  {
    var sq := Step(q, dir, i);
    White(g, sq) && cell == InfoCell(g[sq.r][sq.c].ch, sq == cursor)
  }

  /** The collected squares are the WhiteRunLength squares from `q` on,
      each with its text, marked active exactly when it is the cursor. */
  lemma {:induction false} InfoCellsSpec(g: Grid, size: GridSize, q: Pos, dir: Direction, cursor: Pos)
    requires Fits(g, size) && 0 <= Along(q, dir)
    ensures |InfoCells(g, size, q, dir, cursor)| == WhiteRunLength(g, size, q, dir)
    ensures forall i :: 0 <= i < |InfoCells(g, size, q, dir, cursor)| ==>
      ShowsStep(g, q, dir, i, cursor, InfoCells(g, size, q, dir, cursor)[i])
    decreases Limit(size, dir) - Along(q, dir)
  {
    BlockedIff(g, size, q);
    if !Blocked(g, size, q) {
      var q' := Step(q, dir, 1);
      InfoCellsSpec(g, size, q', dir, cursor);
      var cells := InfoCells(g, size, q, dir, cursor);
      forall i | 1 <= i < |cells| ensures Step(q', dir, i - 1) == Step(q, dir, i) {
      }
      assert Step(q, dir, 0) == q;
    }
  }

  /** A run of exactly `n` white squares from `q` followed by a square off
      the grid or black has WhiteRunLength `n`. */
  lemma WhiteRunLengthExact(g: Grid, size: GridSize, q: Pos, dir: Direction, n: nat)
    requires Fits(g, size) && 0 <= Along(q, dir)
    requires forall i :: 0 <= i < n ==> White(g, Step(q, dir, i))
    requires Blocked(g, size, Step(q, dir, n))
    ensures WhiteRunLength(g, size, q, dir) == n
  {
    WhiteRunLengthSpec(g, size, q, dir);
    var m := WhiteRunLength(g, size, q, dir);
    BlockedIff(g, size, Step(q, dir, m));
    BlockedIff(g, size, Step(q, dir, n));
    assert m < n ==> White(g, Step(q, dir, m));
    assert n < m ==> White(g, Step(q, dir, n));
  }

  lemma OnLineStep(p: Pos, s: Pos, dir: Direction)
    requires s == At(p, dir, Along(s, dir))
    ensures forall i :: Step(s, dir, i) == At(p, dir, Along(s, dir) + i)
  {
  }

  /** On a white square the run from where the walk back stops reaches
      exactly to where the walk forward stops. */
  lemma RunLengthIsSpan(g: Grid, size: GridSize, p: Pos, dir: Direction)
    requires Fits(g, size) && InBounds(size, p) && White(g, p)
    ensures var s := RunStart(g, size, p, dir);
      0 <= Along(s, dir) &&
      WhiteRunLength(g, size, s, dir) == Along(RunEnd(g, size, p, dir), dir) - Along(s, dir) + 1
  {
    RunStartSpec(g, size, p, dir);
    RunEndSpec(g, size, p, dir);
    var s := RunStart(g, size, p, dir);
    var e := RunEnd(g, size, p, dir);
    var n := Along(e, dir) - Along(s, dir) + 1;
    OnLineStep(p, s, dir);
    forall i | 0 <= i < n ensures White(g, Step(s, dir, i)) {
      var k := Along(s, dir) + i;
      assert Step(s, dir, i) == At(p, dir, k);
      if k == Along(p, dir) {
        assert p == At(p, dir, k);
      }
    }
    assert Step(s, dir, n) == Step(e, dir, 1);
    WhiteRunLengthExact(g, size, s, dir, n);
  }

  /** `cell` shows square `k` of `p`'s line along `dir`: that square is
      white, `cell` has its text, and `cell` is active iff it is `p`. */
  predicate ShowsSquare(g: Grid, p: Pos, dir: Direction, k: int, cell: InfoCell)
  {
    var sq := At(p, dir, k);
    White(g, sq) && cell.ch == g[sq.r][sq.c].ch && (cell.isActive <==> k == Along(p, dir))
  }

  /** On a white cursor square the word info lists exactly the squares the
      board highlights, in order, with their text, and marks exactly the
      cursor square active. */
  lemma WordInfoMatchesBoard(g: Grid, size: GridSize, p: Pos, direction: Direction, texts: map<string, string>,
                             w: ActiveWord, span: Board.WordRange)
    requires Fits(g, size) && InBounds(size, p) && White(g, p)
    requires WordInfoOf(g, size, Some(p), direction, texts) == Some(w)
    requires Board.ActiveRange(g, size, Some(p), direction) == Some(span)
    ensures |w.cells| == span.end - span.start + 1
    ensures forall i :: 0 <= i < |w.cells| ==> ShowsSquare(g, p, direction, span.start + i, w.cells[i])
  {
    RunCellsShowSquares(g, size, p, direction);
    SpanIsRun(g, size, p, direction);
    InfoIsRun(g, size, p, direction, texts);
  }

  /** The squares collected from the start of a white square's run are the
      squares of the run, in order. */
  lemma RunCellsShowSquares(g: Grid, size: GridSize, p: Pos, dir: Direction)
    requires Fits(g, size) && InBounds(size, p) && White(g, p)
    ensures var s := RunStart(g, size, p, dir);
      0 <= Along(s, dir) &&
      var cells := InfoCells(g, size, s, dir, p);
      |cells| == Along(RunEnd(g, size, p, dir), dir) - Along(s, dir) + 1 &&
      ShowsSquares(g, p, dir, Along(s, dir), cells)
  {
    var s := RunStart(g, size, p, dir);
    RunLengthIsSpan(g, size, p, dir);
    RunStartInBounds(g, size, p, dir);
    InfoCellsSpec(g, size, s, dir, p);
    CellsShowSquares(g, p, s, dir, InfoCells(g, size, s, dir, p), Along(s, dir));
  }

  /** `cells` show the squares of `p`'s line from coordinate `start` on. */
  ghost predicate ShowsSquares(g: Grid, p: Pos, dir: Direction, start: int, cells: seq<InfoCell>)
  {
    forall i :: 0 <= i < |cells| ==> ShowsSquare(g, p, dir, start + i, cells[i])
  }

  lemma CellsShowSquares(g: Grid, p: Pos, s: Pos, dir: Direction, cells: seq<InfoCell>, start: int)
    requires s == At(p, dir, Along(s, dir)) && start == Along(s, dir)
    requires forall i :: 0 <= i < |cells| ==> ShowsStep(g, s, dir, i, p, cells[i])
    ensures ShowsSquares(g, p, dir, start, cells)
  {
    forall i | 0 <= i < |cells| ensures ShowsSquare(g, p, dir, Along(s, dir) + i, cells[i]) {
      StepShowsSquare(g, p, s, dir, i, cells[i]);
    }
  }

  /** A cell showing step `i` from `s` on `p`'s line shows square
      `Along(s) + i` of that line. */
  lemma StepShowsSquare(g: Grid, p: Pos, s: Pos, dir: Direction, i: int, cell: InfoCell)
    requires s == At(p, dir, Along(s, dir)) && ShowsStep(g, s, dir, i, p, cell)
    ensures ShowsSquare(g, p, dir, Along(s, dir) + i, cell)
  {
    assert Step(s, dir, i) == At(p, dir, Along(s, dir) + i);
    assert At(p, dir, Along(s, dir) + i) == p <==> Along(s, dir) + i == Along(p, dir);
  }

  lemma SpanIsRun(g: Grid, size: GridSize, p: Pos, direction: Direction)
    requires Fits(g, size) && InBounds(size, p) && White(g, p)
    ensures Board.ActiveRange(g, size, Some(p), direction) ==
      Some(Board.WordRange(direction, Fixed(p, direction),
        Along(RunStart(g, size, p, direction), direction), Along(RunEnd(g, size, p, direction), direction)))
  {
  }

  lemma InfoIsRun(g: Grid, size: GridSize, p: Pos, direction: Direction, texts: map<string, string>)
    requires Fits(g, size) && InBounds(size, p)
    requires WordInfoOf(g, size, Some(p), direction, texts).Some?
    ensures 0 <= Along(RunStart(g, size, p, direction), direction)
    ensures WordInfoOf(g, size, Some(p), direction, texts).value.cells ==
      InfoCells(g, size, RunStart(g, size, p, direction), direction, p)
  {
    RunStartSpec(g, size, p, direction);
  }

  /** Some square of the word info is active iff the cursor square is
      white; when the cursor square is black the info (if any) lists the
      squares of a word ending before the cursor and marks none. */
  lemma ActiveCellIff(g: Grid, size: GridSize, p: Pos, direction: Direction, texts: map<string, string>)
    requires Fits(g, size) && InBounds(size, p)
    requires WordInfoOf(g, size, Some(p), direction, texts).Some?
    ensures var cells := WordInfoOf(g, size, Some(p), direction, texts).value.cells;
      (exists i :: 0 <= i < |cells| && cells[i].isActive) <==> White(g, p)
  {
    var s := RunStart(g, size, p, direction);
    RunStartSpec(g, size, p, direction);
    var cells := WordInfoOf(g, size, Some(p), direction, texts).value.cells;
    InfoCellsSpec(g, size, s, direction, p);
    if White(g, p) {
      RunLengthIsSpan(g, size, p, direction);
      RunEndSpec(g, size, p, direction);
      var k := Along(p, direction) - Along(s, direction);
      assert Step(s, direction, k) == p;
      assert cells[k].isActive;
    }
  }

  /** A run has two or more squares iff its first two squares are white. */
  lemma RunAtLeastTwo(g: Grid, size: GridSize, q: Pos, dir: Direction)
    requires Fits(g, size) && 0 <= Along(q, dir)
    ensures WhiteRunLength(g, size, q, dir) >= 2 <==> White(g, q) && White(g, Step(q, dir, 1))
  {
    BlockedIff(g, size, q);
    BlockedIff(g, size, Step(q, dir, 1));
  }

  /** A square where the walk back stops starts a word in that direction
      in the sense of the numbering rule. */
  lemma RunStartStarts(g: Grid, size: GridSize, s: Pos, dir: Direction)
    requires Fits(g, size) && InBounds(size, s) && Blocked(g, size, Step(s, dir, -1))
    ensures if dir == Across then StartsAcross(g, s.r, s.c) else StartsDown(g, s.r, s.c)
  {
    InGridFromRect(g, size, Step(s, dir, -1));
  }

  /** Square (r, c) starts a word of two or more squares in direction `d`. */
  predicate WordAt(g: Grid, r: int, c: int, d: Direction)
  {
    if d == Across then StartsAcross(g, r, c) && HasNextAcross(g, r, c)
    else StartsDown(g, r, c) && HasNextDown(g, r, c)
  }

  /** The key of a numbered square's number in direction `d` is active iff
      that square starts a word in `d`. */
  lemma KeyActiveAt(g: Grid, r: int, c: int, n: nat, d: Direction)
    requires 0 <= r < |g| && 0 <= c < |g[r]| && NumberedGrid(g)[r][c].number == Some(n)
    ensures KeyString(WordKey(n, d)) in ActiveKeys(g) <==> WordAt(g, r, c, d)
  {
    ActiveKeyIff(g, n, d);
    if KeyString(WordKey(n, d)) in ActiveKeys(g) {
      var i, j :| 0 <= i < |g| && 0 <= j < |g[i]| && NumberedGrid(g)[i][j].number == Some(n) &&
        (if d == Across then StartsAcross(g, i, j) && HasNextAcross(g, i, j)
         else StartsDown(g, i, j) && HasNextDown(g, i, j));
      NumberUnique(g, i, j, r, c);
    }
  }

  /** On a grid the numbering engine produced, the word info's key is an
      active key exactly when its word has two or more squares; a
      one-square run next to a numbered word of the other direction still
      gets a number and a key that has no clue entry. */
  lemma WordInfoKeyActive(g: Grid, size: GridSize, p: Pos, direction: Direction, texts: map<string, string>)
    requires Fits(g, size) && InBounds(size, p) && NumberedGrid(g) == g
    requires WordInfoOf(g, size, Some(p), direction, texts).Some?
    ensures var w := WordInfoOf(g, size, Some(p), direction, texts).value;
      w.number >= 1 &&
      (KeyString(WordKey(w.number, direction)) in ActiveKeys(g) <==> |w.cells| >= 2)
  {
    var w := WordInfoOf(g, size, Some(p), direction, texts).value;
    var s := RunStart(g, size, p, direction);
    RunStartSpec(g, size, p, direction);
    InGridFromRect(g, size, s);
    InfoIsRun(g, size, p, direction, texts);
    InfoCellsSpec(g, size, s, direction, p);
    assert NumberedGrid(g)[s.r][s.c].number == Some(w.number);
    NumberedIff(g, s.r, s.c);
    StartKeyActive(g, size, s, direction, w.number);
  }

  /** A numbered square where a walk back stops has its key in that
      direction active iff the white run from it has two or more squares. */
  lemma StartKeyActive(g: Grid, size: GridSize, s: Pos, dir: Direction, n: nat)
    requires Fits(g, size) && InBounds(size, s) && Blocked(g, size, Step(s, dir, -1))
    requires 0 <= Along(s, dir) && InGrid(g, s) && NumberedGrid(g)[s.r][s.c].number == Some(n)
    ensures KeyString(WordKey(n, dir)) in ActiveKeys(g) <==> WhiteRunLength(g, size, s, dir) >= 2
  {
    RunAtLeastTwo(g, size, s, dir);
    RunStartStarts(g, size, s, dir);
    KeyActiveAt(g, s.r, s.c, n, dir);
    assert Step(s, dir, 1) == if dir == Across then Pos(s.r, s.c + 1) else Pos(s.r + 1, s.c);
    assert WordAt(g, s.r, s.c, dir) <==> White(g, Step(s, dir, 1));
  }
}
