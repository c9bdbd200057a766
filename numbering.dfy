/** The numbering engine of src/lib/crossword-utils.ts: an empty grid, and
    the row-major scan that numbers every white square starting a word of
    two or more squares across or down and collects the set of word keys. */
module Numbering {
  import opened Types
  import opened WordKeys
  import opened Folds

  /** `generateEmptyGrid`: `rows` rows of `cols` empty white unnumbered squares. */
  function EmptyGrid(rows: nat, cols: nat): (g: Grid)
    ensures IsRect(g, rows, cols)
    ensures forall r, c :: 0 <= r < rows && 0 <= c < cols ==> g[r][c].ch == "" && !g[r][c].isBlack && g[r][c].number == None
  {
    seq(rows, _ => seq(cols, _ => EmptyCell))
  }

  // ---- The numbering rule, square by square ----

  /** Column 0, or the square to the left is black. */
  predicate StartsAcross(g: Grid, r: int, c: int)
  {
    c == 0 || Black(g, Pos(r, c - 1))
  }

  /** Row 0, or the square above is black. */
  predicate StartsDown(g: Grid, r: int, c: int)
  {
    r == 0 || Black(g, Pos(r - 1, c))
  }

  /** The square to the right exists and is white. */
  predicate HasNextAcross(g: Grid, r: int, c: int)
  {
    White(g, Pos(r, c + 1))
  }

  /** The square below exists and is white. */
  predicate HasNextDown(g: Grid, r: int, c: int)
  {
    White(g, Pos(r + 1, c))
  }

  /** A white square that begins a word of length two or more in `d`. */
  predicate Begins(g: Grid, r: int, c: int, d: Direction)
  {
    White(g, Pos(r, c)) &&
    if d == Across then StartsAcross(g, r, c) && HasNextAcross(g, r, c)
    else StartsDown(g, r, c) && HasNextDown(g, r, c)
  }

  predicate NeedsNumber(g: Grid, r: int, c: int)
  {
    Begins(g, r, c, Across) || Begins(g, r, c, Down)
  }

  // ---- The running counter, in row-major order ----

  /** 1 for each square of row `r` that gets a number, 0 otherwise. */
  function NumberFlags(g: Grid, r: int): int -> nat
  {
    j => if NeedsNumber(g, r, j) then 1 else 0
  }

  /** How many squares of row `r` left of column `c` get a number. */
  function RowCount(g: Grid, r: int, c: int): nat
  {
    SumUpTo(NumberFlags(g, r), c)
  }

  function RowTotal(g: Grid, r: int): nat
  {
    if 0 <= r < |g| then RowCount(g, r, |g[r]|) else 0
  }

  function RowTotals(g: Grid): int -> nat
  {
    r => RowTotal(g, r)
  }

  /** How many squares in the rows above row `r` get a number. */
  function CountBeforeRow(g: Grid, r: int): nat
  {
    SumUpTo(RowTotals(g), r)
  }

  /** How many squares before (r, c) in row-major order get a number. */
  function CountBefore(g: Grid, r: int, c: int): nat
  {
    CountBeforeRow(g, r) + RowCount(g, r, c)
  }

  /** How many squares of the whole grid get a number. */
  function Total(g: Grid): nat
  {
    CountBeforeRow(g, |g|)
  }

  /** The number the scan gives square (r, c). */
  function NumberAt(g: Grid, r: int, c: int): Option<int>
  {
    if NeedsNumber(g, r, c) then Some(CountBefore(g, r, c) + 1) else None
  }

  /** The copy made before the scan: every number reset to null. */
  function ClearNumbers(g: Grid): (h: Grid)
  {
    seq(|g|, r requires 0 <= r < |g| => seq(|g[r]|, c requires 0 <= c < |g[r]| => g[r][c].(number := None)))
  }

  /** The grid the scan returns: the input with its numbers recomputed. */
  function NumberedGrid(g: Grid): (h: Grid)
  {
    seq(|g|, r requires 0 <= r < |g| => seq(|g[r]|, c requires 0 <= c < |g[r]| => g[r][c].(number := NumberAt(g, r, c))))
  }

  // ---- The word keys ----

  /** The keys square (r, c) adds: "{n}-across" and/or "{n}-down" for the
      number n it gets, one per direction in which it begins a word. */
  function CellKeys(g: Grid, r: int, c: int): set<string>
  {
    var n := CountBefore(g, r, c) + 1;
    (if Begins(g, r, c, Across) then {KeyString(WordKey(n, Across))} else {}) +
    (if Begins(g, r, c, Down) then {KeyString(WordKey(n, Down))} else {})
  }

  function CellKeySets(g: Grid, r: int): int -> set<string>
  {
    c => CellKeys(g, r, c)
  }

  /** The keys the scan adds in row `r` before column `c`. */
  function RowKeys(g: Grid, r: int, c: int): set<string>
  {
    UnionUpTo(CellKeySets(g, r), c)
  }

  function RowAllKeys(g: Grid, r: int): set<string>
  {
    if 0 <= r < |g| then RowKeys(g, r, |g[r]|) else {}
  }

  function RowKeySets(g: Grid): int -> set<string>
  {
    r => RowAllKeys(g, r)
  }

  /** The keys the scan adds in the rows above row `r`. */
  function KeysBeforeRow(g: Grid, r: int): set<string>
  {
    UnionUpTo(RowKeySets(g), r)
  }

  /** `activeClueKeys`: the keys of every word of the grid. */
  function ActiveKeys(g: Grid): set<string>
  {
    KeysBeforeRow(g, |g|)
  }

  // ---- The scan itself ----

  /** The working copy after the scan has visited every square before
      (r, c): those carry their final number, all others none. */
  ghost predicate ScannedUpTo(h: Grid, g: Grid, r: int, c: int)
  {
    |h| == |g| && (forall i :: 0 <= i < |g| ==> |h[i]| == |g[i]|) &&
    forall i, j :: 0 <= i < |g| && 0 <= j < |g[i]| ==>
      h[i][j] == g[i][j].(number := if i < r || (i == r && j < c) then NumberAt(g, i, j) else None)
  }

  lemma ScanStart(g: Grid)
    ensures ScannedUpTo(ClearNumbers(g), g, 0, 0)
  {
  }

  /** Passing a square the scan leaves unnumbered. */
  lemma ScanSkip(h: Grid, g: Grid, r: int, c: int)
    requires 0 <= r < |g| && 0 <= c < |g[r]|
    requires ScannedUpTo(h, g, r, c) && NumberAt(g, r, c) == None
    ensures ScannedUpTo(h, g, r, c + 1)
  {
  }

  /** Writing the number of (r, c) into the working copy. */
  lemma ScanWrite(h: Grid, g: Grid, r: int, c: int)
    requires 0 <= r < |g| && 0 <= c < |g[r]|
    requires ScannedUpTo(h, g, r, c)
    ensures ScannedUpTo(h[r := h[r][c := h[r][c].(number := NumberAt(g, r, c))]], g, r, c + 1)
  {
    var h' := h[r := h[r][c := h[r][c].(number := NumberAt(g, r, c))]];
    forall i, j | 0 <= i < |g| && 0 <= j < |g[i]|
      ensures h'[i][j] == g[i][j].(number := if i < r || (i == r && j < c + 1) then NumberAt(g, i, j) else None)
    {
      if i == r && j == c {
      } else {
        assert h'[i][j] == h[i][j];
      }
    }
  }

  lemma ScanNextRow(h: Grid, g: Grid, r: int)
    requires 0 <= r < |g|
    requires ScannedUpTo(h, g, r, |g[r]|)
    ensures ScannedUpTo(h, g, r + 1, 0)
  {
  }

  lemma ScanDone(h: Grid, g: Grid)
    requires ScannedUpTo(h, g, |g|, 0)
    ensures h == NumberedGrid(g)
  {
    assert forall i :: 0 <= i < |g| ==> h[i] == NumberedGrid(g)[i];
  }

  /** What the scan reads from its working copy at (r, c) decides the
      numbering rule exactly as the input grid does. */
  lemma ScanSquare(h: Grid, g: Grid, size: GridSize, r: int, c: int)
    requires Fits(g, size) && ScannedUpTo(h, g, r, c)
    requires 0 <= r < size.rows && 0 <= c < size.cols
    ensures !h[r][c].isBlack <==> White(g, Pos(r, c))
    ensures !h[r][c].isBlack ==>
      ((c == 0 || h[r][c - 1].isBlack) && (c + 1 < size.cols && !h[r][c + 1].isBlack) <==> Begins(g, r, c, Across))
    ensures !h[r][c].isBlack ==>
      ((r == 0 || h[r - 1][c].isBlack) && (r + 1 < size.rows && !h[r + 1][c].isBlack) <==> Begins(g, r, c, Down))
  {
    assert |g[r]| == size.cols;
    if r > 0 { assert |g[r - 1]| == size.cols; }
    if r + 1 < size.rows { assert |g[r + 1]| == size.cols; }
  }

  /** Visiting (r, c) adds one to the counter iff the square needs a
      number. */
  lemma CountStep(g: Grid, r: int, c: int)
    requires 0 <= c
    ensures CountBefore(g, r, c + 1) == CountBefore(g, r, c) + (if NeedsNumber(g, r, c) then 1 else 0)
  {
  }

  /** Visiting (r, c) adds its keys one direction at a time. */
  lemma KeysStep(g: Grid, r: int, c: int)
    requires 0 <= c
    ensures KeysBeforeRow(g, r) + RowKeys(g, r, c + 1) ==
      var ks := KeysBeforeRow(g, r) + RowKeys(g, r, c);
      var n := CountBefore(g, r, c) + 1;
      var withAcross := if Begins(g, r, c, Across) then ks + {KeyString(WordKey(n, Across))} else ks;
      if Begins(g, r, c, Down) then withAcross + {KeyString(WordKey(n, Down))} else withAcross
  {
  }

  /** One square of the scan of `calculateGridNumbers`: a white square
      that begins a word across or down gets the next number, and the keys
      of the words it begins are added. */
  method VisitSquare(grid: Grid, size: GridSize, r: int, c: int, newGrid: Grid, currentNum: int, activeClueKeys: set<string>)
    returns (newGrid': Grid, currentNum': int, activeClueKeys': set<string>)
    requires Fits(grid, size) && 0 <= r < size.rows && 0 <= c < size.cols
    requires ScannedUpTo(newGrid, grid, r, c)
    requires currentNum == CountBefore(grid, r, c) + 1
    requires activeClueKeys == KeysBeforeRow(grid, r) + RowKeys(grid, r, c)
    ensures ScannedUpTo(newGrid', grid, r, c + 1)
    ensures currentNum' == CountBefore(grid, r, c + 1) + 1
    ensures activeClueKeys' == KeysBeforeRow(grid, r) + RowKeys(grid, r, c + 1)
  {
    ScanSquare(newGrid, grid, size, r, c);
    CountStep(grid, r, c);
    KeysStep(grid, r, c);
    newGrid', currentNum', activeClueKeys' := newGrid, currentNum, activeClueKeys;
    if newGrid[r][c].isBlack {
      ScanSkip(newGrid, grid, r, c);
      return;
    }
    var startAcross := c == 0 || newGrid[r][c - 1].isBlack;
    var startDown := r == 0 || newGrid[r - 1][c].isBlack;
    var hasNextAcross := c + 1 < size.cols && !newGrid[r][c + 1].isBlack;
    var hasNextDown := r + 1 < size.rows && !newGrid[r + 1][c].isBlack;
    var needsNumber := (startAcross && hasNextAcross) || (startDown && hasNextDown);
    if needsNumber {
      newGrid' := newGrid[r := newGrid[r][c := newGrid[r][c].(number := Some(currentNum))]];
      if startAcross && hasNextAcross {
        activeClueKeys' := activeClueKeys' + {KeyString(WordKey(currentNum, Across))};
      }
      if startDown && hasNextDown {
        activeClueKeys' := activeClueKeys' + {KeyString(WordKey(currentNum, Down))};
      }
      currentNum' := currentNum + 1;
      ScanWrite(newGrid, grid, r, c);
    } else {
      ScanSkip(newGrid, grid, r, c);
    }
  }

  /** The inner loop of `calculateGridNumbers`: visits row `r` left to
      right. */
  method NumberRow(grid: Grid, size: GridSize, r: int, newGrid: Grid, currentNum: int, activeClueKeys: set<string>)
    returns (newGrid': Grid, currentNum': int, activeClueKeys': set<string>)
    requires Fits(grid, size) && 0 <= r < size.rows
    requires ScannedUpTo(newGrid, grid, r, 0)
    requires currentNum == CountBeforeRow(grid, r) + 1
    requires activeClueKeys == KeysBeforeRow(grid, r)
    ensures ScannedUpTo(newGrid', grid, r + 1, 0)
    ensures currentNum' == CountBeforeRow(grid, r + 1) + 1
    ensures activeClueKeys' == KeysBeforeRow(grid, r + 1)
  {
    newGrid', currentNum', activeClueKeys' := newGrid, currentNum, activeClueKeys;
    var c := 0;
    while c < size.cols
      invariant 0 <= c <= size.cols
      invariant ScannedUpTo(newGrid', grid, r, c)
      invariant currentNum' == CountBefore(grid, r, c) + 1
      invariant activeClueKeys' == KeysBeforeRow(grid, r) + RowKeys(grid, r, c)
    {
      newGrid', currentNum', activeClueKeys' := VisitSquare(grid, size, r, c, newGrid', currentNum', activeClueKeys');
      c := c + 1;
    }
    assert |grid[r]| == size.cols;
    ScanNextRow(newGrid', grid, r);
    RowDone(grid, r);
  }

  /** Finishing row `r` finishes the rows above `r + 1`. */
  lemma RowDone(g: Grid, r: int)
    requires 0 <= r < |g|
    ensures CountBefore(g, r, |g[r]|) == CountBeforeRow(g, r + 1)
    ensures KeysBeforeRow(g, r) + RowKeys(g, r, |g[r]|) == KeysBeforeRow(g, r + 1)
  {
  }

  /** `calculateGridNumbers`: numbers a copy of the grid in one row-major
      pass with a running counter, and collects the word keys. */
  method NumberGrid(grid: Grid, size: GridSize) returns (gridWithNumbers: Grid, activeClueKeys: set<string>)
    requires Fits(grid, size)
    ensures gridWithNumbers == NumberedGrid(grid)
    ensures activeClueKeys == ActiveKeys(grid)
  {
    var newGrid := ClearNumbers(grid);
    ScanStart(grid);
    var currentNum := 1;
    activeClueKeys := {};
    var r := 0;
    while r < size.rows
      invariant 0 <= r <= size.rows
      invariant ScannedUpTo(newGrid, grid, r, 0)
      invariant currentNum == CountBeforeRow(grid, r) + 1
      invariant activeClueKeys == KeysBeforeRow(grid, r)
    {
      newGrid, currentNum, activeClueKeys := NumberRow(grid, size, r, newGrid, currentNum, activeClueKeys);
      r := r + 1;
    }
    ScanDone(newGrid, grid);
    gridWithNumbers := newGrid;
  }

  // ---- What the numbering promises ----

  /** The numbered grid has the input's shape, and every square keeps its
      character and its colour; only `number` is replaced. */
  lemma NumberingKeepsCells(g: Grid)
    ensures SameLayout(g, NumberedGrid(g))
    ensures forall r, c :: 0 <= r < |g| && 0 <= c < |g[r]| ==>
      NumberedGrid(g)[r][c].ch == g[r][c].ch && NumberedGrid(g)[r][c].isBlack == g[r][c].isBlack
  {
  }

  /** A square is numbered iff it is white and begins a word of length two
      or more across or down; in particular black squares are unnumbered. */
  lemma NumberedIff(g: Grid, r: int, c: int)
    requires 0 <= r < |g| && 0 <= c < |g[r]|
    ensures NumberedGrid(g)[r][c].number.Some? <==>
      !g[r][c].isBlack &&
      ((StartsAcross(g, r, c) && HasNextAcross(g, r, c)) || (StartsDown(g, r, c) && HasNextDown(g, r, c)))
    ensures g[r][c].isBlack ==> NumberedGrid(g)[r][c].number == None
  {
  }

  /** A numbered square uses up one value of the counter before its row ends. */
  lemma NumberedBeforeRowEnd(g: Grid, r: int, c: int)
    requires 0 <= r < |g| && 0 <= c < |g[r]|
    requires NeedsNumber(g, r, c)
    ensures CountBefore(g, r, c) + 1 <= CountBeforeRow(g, r + 1)
  {
    SumMono(NumberFlags(g, r), c + 1, |g[r]|);
  }

  /** Numbers strictly increase in row-major scan order: no repeats. */
  lemma NumbersIncrease(g: Grid, r1: int, c1: int, r2: int, c2: int)
    requires 0 <= r1 < |g| && 0 <= c1 < |g[r1]| && 0 <= r2 < |g| && 0 <= c2 < |g[r2]|
    requires r1 < r2 || (r1 == r2 && c1 < c2)
    requires NumberedGrid(g)[r1][c1].number.Some? && NumberedGrid(g)[r2][c2].number.Some?
    ensures NumberedGrid(g)[r1][c1].number.value < NumberedGrid(g)[r2][c2].number.value
  {
    if r1 == r2 {
      SumPastTerm(NumberFlags(g, r1), c1, c2);
    } else {
      NumberedBeforeRowEnd(g, r1, c1);
      SumMono(RowTotals(g), r1 + 1, r2);
    }
  }

  /** No two squares share a number. */
  lemma NumberUnique(g: Grid, r1: int, c1: int, r2: int, c2: int)
    requires 0 <= r1 < |g| && 0 <= c1 < |g[r1]| && 0 <= r2 < |g| && 0 <= c2 < |g[r2]|
    requires NumberedGrid(g)[r1][c1].number.Some?
    requires NumberedGrid(g)[r1][c1].number == NumberedGrid(g)[r2][c2].number
    ensures r1 == r2 && c1 == c2
  {
    if r1 < r2 || (r1 == r2 && c1 < c2) {
      NumbersIncrease(g, r1, c1, r2, c2);
    } else if r2 < r1 || (r1 == r2 && c2 < c1) {
      NumbersIncrease(g, r2, c2, r1, c1);
    }
  }

  /** Every counter value below CountBeforeRow(g, r) is the count just
      before some numbered square of an earlier row. */
  lemma {:induction false} GridOnto(g: Grid, r: int, k: int) returns (i: int, j: int)
    requires 0 <= r <= |g|
    requires 0 <= k < CountBeforeRow(g, r)
    ensures 0 <= i < r && 0 <= j < |g[i]| && NeedsNumber(g, i, j) && CountBefore(g, i, j) == k
    decreases r
  {
    if k < CountBeforeRow(g, r - 1) {
      i, j := GridOnto(g, r - 1, k);
    } else {
      i := r - 1;
      j := SumOnto(NumberFlags(g, i), |g[i]|, k - CountBeforeRow(g, i));
    }
  }

  /** Some square of the numbered grid carries number `n`. */
  ghost predicate SomeSquareNumbered(g: Grid, n: int)
  {
    exists r, c :: 0 <= r < |g| && 0 <= c < |g[r]| && NumberedGrid(g)[r][c].number == Some(n)
  }

  /** The numbers handed out are exactly 1, 2, ..., Total(g): each lies in
      that range, and each value of that range is some square's number. */
  lemma NumbersAreOneToTotal(g: Grid)
    ensures forall r, c :: 0 <= r < |g| && 0 <= c < |g[r]| && NumberedGrid(g)[r][c].number.Some? ==>
      1 <= NumberedGrid(g)[r][c].number.value <= Total(g)
    ensures forall n :: 1 <= n <= Total(g) ==> SomeSquareNumbered(g, n)
  {
    forall r, c | 0 <= r < |g| && 0 <= c < |g[r]| && NumberedGrid(g)[r][c].number.Some?
      ensures 1 <= NumberedGrid(g)[r][c].number.value <= Total(g)
    {
      NumberedBeforeRowEnd(g, r, c);
      SumMono(RowTotals(g), r + 1, |g|);
    }
    forall n | 1 <= n <= Total(g) ensures SomeSquareNumbered(g, n) {
      var i, j := NumberReached(g, n);
    }
  }

  lemma NumberReached(g: Grid, n: int) returns (r: int, c: int)
    requires 1 <= n <= Total(g)
    ensures 0 <= r < |g| && 0 <= c < |g[r]| && NumberedGrid(g)[r][c].number == Some(n)
  {
    r, c := GridOnto(g, |g|, n - 1);
  }

  /** The key of number n and direction d belongs to square (r, c) iff the
      square begins a word in d and gets number n. */
  lemma CellKeysMember(g: Grid, r: int, c: int, n: nat, d: Direction)
    ensures KeyString(WordKey(n, d)) in CellKeys(g, r, c) <==> Begins(g, r, c, d) && n == CountBefore(g, r, c) + 1
  {
    var m := CountBefore(g, r, c) + 1;
    if KeyString(WordKey(n, d)) in CellKeys(g, r, c) {
      if Begins(g, r, c, Across) && KeyString(WordKey(n, d)) == KeyString(WordKey(m, Across)) {
        KeyStringInjective(WordKey(n, d), WordKey(m, Across));
      } else {
        KeyStringInjective(WordKey(n, d), WordKey(m, Down));
      }
    }
  }

  /** Every collected key comes from a square of an earlier row. */
  lemma KeyOrigin(g: Grid, r: int, key: string) returns (i: int, j: int)
    requires r <= |g|
    requires key in KeysBeforeRow(g, r)
    ensures 0 <= i < r && 0 <= j < |g[i]| && key in CellKeys(g, i, j)
  {
    i := UnionOrigin(RowKeySets(g), r, key);
    j := UnionOrigin(CellKeySets(g, i), |g[i]|, key);
  }

  /** Every key of a square of an earlier row is collected. */
  lemma KeyIncludes(g: Grid, r: int, i: int, j: int, key: string)
    requires r <= |g|
    requires 0 <= i < r && 0 <= j < |g[i]| && key in CellKeys(g, i, j)
    ensures key in KeysBeforeRow(g, r)
  {
    UnionIncludes(CellKeySets(g, i), |g[i]|, j, key);
    UnionIncludes(RowKeySets(g), r, i, key);
  }

  /** Every active key is "{n}-across" or "{n}-down" for a number n >= 1,
      and parses back to that number and direction. */
  lemma ActiveKeyShape(g: Grid, key: string) returns (k: WordKey)
    requires key in ActiveKeys(g)
    ensures k.number >= 1 && key == KeyString(k) && ParseKey(key) == Some(k)
  {
    var i, j := KeyOrigin(g, |g|, key);
    var n := CountBefore(g, i, j) + 1;
    if key == KeyString(WordKey(n, Across)) {
      k := WordKey(n, Across);
    } else {
      k := WordKey(n, Down);
    }
    ParseKeyString(k);
  }

  /** "{n}-across" (resp. "{n}-down") is an active key iff the square
      numbered n begins an across (resp. down) word of length two or more. */
  lemma ActiveKeyIff(g: Grid, n: nat, d: Direction)
    ensures KeyString(WordKey(n, d)) in ActiveKeys(g) <==>
      exists r, c :: 0 <= r < |g| && 0 <= c < |g[r]| && NumberedGrid(g)[r][c].number == Some(n) &&
        (if d == Across then StartsAcross(g, r, c) && HasNextAcross(g, r, c)
         else StartsDown(g, r, c) && HasNextDown(g, r, c))
  {
    if KeyString(WordKey(n, d)) in ActiveKeys(g) {
      var i, j := ActiveKeyOrigin(g, n, d);
    }
    if exists r, c :: 0 <= r < |g| && 0 <= c < |g[r]| && NumberedGrid(g)[r][c].number == Some(n) &&
        (if d == Across then StartsAcross(g, r, c) && HasNextAcross(g, r, c)
         else StartsDown(g, r, c) && HasNextDown(g, r, c)) {
      var r, c :| 0 <= r < |g| && 0 <= c < |g[r]| && NumberedGrid(g)[r][c].number == Some(n) &&
        (if d == Across then StartsAcross(g, r, c) && HasNextAcross(g, r, c)
         else StartsDown(g, r, c) && HasNextDown(g, r, c));
      ActiveKeyFrom(g, n, d, r, c);
    }
  }

  /** An active key comes from the square carrying its number, which
      starts a word in its direction. */
  lemma ActiveKeyOrigin(g: Grid, n: nat, d: Direction) returns (r: int, c: int)
    requires KeyString(WordKey(n, d)) in ActiveKeys(g)
    ensures 0 <= r < |g| && 0 <= c < |g[r]| && NumberedGrid(g)[r][c].number == Some(n)
    ensures if d == Across then StartsAcross(g, r, c) && HasNextAcross(g, r, c) else StartsDown(g, r, c) && HasNextDown(g, r, c)
  {
    r, c := KeyOrigin(g, |g|, KeyString(WordKey(n, d)));
    CellKeysMember(g, r, c, n, d);
  }

  /** A numbered square that starts a word in direction `d` adds its key. */
  lemma ActiveKeyFrom(g: Grid, n: nat, d: Direction, r: int, c: int)
    requires 0 <= r < |g| && 0 <= c < |g[r]| && NumberedGrid(g)[r][c].number == Some(n)
    requires if d == Across then StartsAcross(g, r, c) && HasNextAcross(g, r, c) else StartsDown(g, r, c) && HasNextDown(g, r, c)
    ensures KeyString(WordKey(n, d)) in ActiveKeys(g)
  {
    CellKeysMember(g, r, c, n, d);
    KeyIncludes(g, |g|, r, c, KeyString(WordKey(n, d)));
  }

  /** "{n}-across" (resp. "{n}-down") is an active key iff some square
      numbered n is white and begins a word in that direction. */
  lemma ActiveKeyBegins(g: Grid, n: nat, d: Direction)
    ensures KeyString(WordKey(n, d)) in ActiveKeys(g) <==>
      exists r, c :: 0 <= r < |g| && 0 <= c < |g[r]| && NumberedGrid(g)[r][c].number == Some(n) && Begins(g, r, c, d)
  {
    ActiveKeyIff(g, n, d);
    if KeyString(WordKey(n, d)) in ActiveKeys(g) {
      var r, c :| 0 <= r < |g| && 0 <= c < |g[r]| && NumberedGrid(g)[r][c].number == Some(n) &&
        (if d == Across then StartsAcross(g, r, c) && HasNextAcross(g, r, c)
         else StartsDown(g, r, c) && HasNextDown(g, r, c));
      NumberedIff(g, r, c);
      assert Begins(g, r, c, d);
    }
  }

  /** Every numbered square contributes at least one key. */
  lemma NumberedSquareHasKey(g: Grid, r: int, c: int)
    requires 0 <= r < |g| && 0 <= c < |g[r]|
    requires NumberedGrid(g)[r][c].number.Some?
    ensures KeyString(WordKey(NumberedGrid(g)[r][c].number.value, Across)) in ActiveKeys(g) ||
            KeyString(WordKey(NumberedGrid(g)[r][c].number.value, Down)) in ActiveKeys(g)
  {
    var n := NumberedGrid(g)[r][c].number.value;
    ActiveKeyIff(g, n, Across);
    ActiveKeyIff(g, n, Down);
  }

  // ---- Numbering depends on the black squares only ----

  lemma SameLayoutBegins(g: Grid, h: Grid)
    requires SameLayout(g, h)
    ensures forall r, c, d :: Begins(g, r, c, d) == Begins(h, r, c, d)
  {
    forall p: Pos ensures White(g, p) == White(h, p) && Black(g, p) == Black(h, p) {
      SameLayoutWhite(g, h, p);
    }
  }

  lemma SameLayoutCounts(g: Grid, h: Grid)
    requires SameLayout(g, h)
    ensures forall r, c :: CountBefore(g, r, c) == CountBefore(h, r, c)
  {
    SameLayoutBegins(g, h);
    forall r, c ensures RowCount(g, r, c) == RowCount(h, r, c) {
      SumExt(NumberFlags(g, r), NumberFlags(h, r), c);
    }
    forall r ensures CountBeforeRow(g, r) == CountBeforeRow(h, r) {
      SumExt(RowTotals(g), RowTotals(h), r);
    }
  }

  lemma SameLayoutKeys(g: Grid, h: Grid)
    requires SameLayout(g, h)
    ensures ActiveKeys(g) == ActiveKeys(h)
  {
    SameLayoutBegins(g, h);
    SameLayoutCounts(g, h);
    forall r, c ensures RowKeys(g, r, c) == RowKeys(h, r, c) {
      UnionExt(CellKeySets(g, r), CellKeySets(h, r), c);
    }
    UnionExt(RowKeySets(g), RowKeySets(h), |g|);
  }

  /** Two grids with the same shape and black squares get the same numbers
      and the same keys. */
  lemma LayoutDeterminesNumbering(g: Grid, h: Grid)
    requires SameLayout(g, h)
    ensures forall r, c :: NumberAt(g, r, c) == NumberAt(h, r, c)
    ensures ActiveKeys(g) == ActiveKeys(h)
  {
    SameLayoutNumbers(g, h);
    SameLayoutKeys(g, h);
  }

  lemma SameLayoutNumbers(g: Grid, h: Grid)
    requires SameLayout(g, h)
    ensures forall r, c :: NumberAt(g, r, c) == NumberAt(h, r, c)
  {
    SameLayoutBegins(g, h);
    SameLayoutCounts(g, h);
    forall r, c ensures NumberAt(g, r, c) == NumberAt(h, r, c) {
      assert NeedsNumber(g, r, c) == NeedsNumber(h, r, c);
    }
  }

  /** Numbering is idempotent: numbering the numbered grid changes nothing,
      because incoming numbers are reset before the scan. */
  lemma NumberingIdempotent(g: Grid)
    ensures NumberedGrid(NumberedGrid(g)) == NumberedGrid(g)
    ensures ActiveKeys(NumberedGrid(g)) == ActiveKeys(g)
  {
    var h := NumberedGrid(g);
    LayoutDeterminesNumbering(g, h);
    assert forall r :: 0 <= r < |g| ==> NumberedGrid(h)[r] == h[r];
  }
}
