/** Runs of white squares along a row or a column: where a walk back from
    a square stops, where a walk forward stops, how many white squares
    follow a square, and the first white square beyond one. */
module Runs {
  import opened Types

  /** The coordinate of `p` that changes when moving along `dir`. */
  function Along(p: Pos, dir: Direction): int
  {
    if dir == Across then p.c else p.r
  }

  /** The coordinate of `p` that stays fixed when moving along `dir`: its
      row for across, its column for down. */
  function Fixed(p: Pos, dir: Direction): int
  {
    if dir == Across then p.r else p.c
  }

  /** The number of squares on a line along `dir`. */
  function Limit(size: GridSize, dir: Direction): int
  {
    if dir == Across then size.cols else size.rows
  }

  /** The square of `p`'s line along `dir` whose coordinate is `k`. */
  function At(p: Pos, dir: Direction, k: int): Pos
  {
    if dir == Across then Pos(p.r, k) else Pos(k, p.c)
  }

  lemma AtStep(p: Pos, dir: Direction, k: int)
    ensures At(p, dir, Along(p, dir) + k) == Step(p, dir, k)
    ensures Along(Step(p, dir, k), dir) == Along(p, dir) + k
  {
  }

  /** Off the grid or black (the squares a walk stops at). */
  predicate Blocked(g: Grid, size: GridSize, p: Pos)
    requires Fits(g, size)
  {
    !InBounds(size, p) || (InGrid(g, p) && g[p.r][p.c].isBlack)
  }

  lemma BlockedIff(g: Grid, size: GridSize, p: Pos)
    requires Fits(g, size)
    ensures Blocked(g, size, p) <==> !White(g, p)
  {
    InGridFromRect(g, size, p);
  }

  /** Where walking back from `p` stops: the walk moves to the previous
      square while it is on the grid and white. */
  function RunStart(g: Grid, size: GridSize, p: Pos, dir: Direction): Pos
    requires Fits(g, size) && InBounds(size, p)
    decreases Along(p, dir)
  {
    var prev := Step(p, dir, -1);
    InGridFromRect(g, size, prev);
    if Along(p, dir) > 0 && !g[prev.r][prev.c].isBlack then RunStart(g, size, prev, dir) else p
  }

  /** Where walking forward from `p` stops: the walk moves to the next
      square while it is on the grid and white. */
  function RunEnd(g: Grid, size: GridSize, p: Pos, dir: Direction): Pos
    requires Fits(g, size) && InBounds(size, p)
    decreases Limit(size, dir) - Along(p, dir)
  {
    var next := Step(p, dir, 1);
    InGridFromRect(g, size, next);
    if Along(p, dir) < Limit(size, dir) - 1 && !g[next.r][next.c].isBlack then RunEnd(g, size, next, dir) else p
  }

  /** The walk back stays on `p`'s line, passes only white squares before
      `p`, and stops at the edge or just after a black square. */
  lemma {:induction false} RunStartSpec(g: Grid, size: GridSize, p: Pos, dir: Direction)
    requires Fits(g, size) && InBounds(size, p)
    ensures var q := RunStart(g, size, p, dir);
      q == At(p, dir, Along(q, dir)) && 0 <= Along(q, dir) <= Along(p, dir) &&
      (forall k :: Along(q, dir) <= k < Along(p, dir) ==> White(g, At(p, dir, k))) &&
      Blocked(g, size, Step(q, dir, -1))
    decreases Along(p, dir)
  {
    var prev := Step(p, dir, -1);
    InGridFromRect(g, size, prev);
    if Along(p, dir) > 0 && !g[prev.r][prev.c].isBlack {
      RunStartSpec(g, size, prev, dir);
      assert forall k :: At(prev, dir, k) == At(p, dir, k);
      assert At(p, dir, Along(p, dir) - 1) == prev;
    }
  }

  /** The walk back stops on the grid, on `p`'s line. */
  lemma RunStartInBounds(g: Grid, size: GridSize, p: Pos, dir: Direction)
    requires Fits(g, size) && InBounds(size, p)
    ensures var q := RunStart(g, size, p, dir);
      InBounds(size, q) && 0 <= Along(q, dir) && q == At(p, dir, Along(q, dir))
  {
    RunStartSpec(g, size, p, dir);
  }

  /** The walk forward stays on `p`'s line, passes only white squares after
      `p`, and stops at the edge or just before a black square. */
  lemma {:induction false} RunEndSpec(g: Grid, size: GridSize, p: Pos, dir: Direction)
    requires Fits(g, size) && InBounds(size, p)
    ensures var q := RunEnd(g, size, p, dir);
      q == At(p, dir, Along(q, dir)) && Along(p, dir) <= Along(q, dir) < Limit(size, dir) &&
      (forall k :: Along(p, dir) < k <= Along(q, dir) ==> White(g, At(p, dir, k))) &&
      Blocked(g, size, Step(q, dir, 1))
    decreases Limit(size, dir) - Along(p, dir)
  {
    var next := Step(p, dir, 1);
    InGridFromRect(g, size, next);
    if Along(p, dir) < Limit(size, dir) - 1 && !g[next.r][next.c].isBlack {
      RunEndSpec(g, size, next, dir);
      assert forall k :: At(next, dir, k) == At(p, dir, k);
      assert At(p, dir, Along(p, dir) + 1) == next;
    }
  }

  /** How many white squares follow one another from `p` on: 0 when `p`
      itself is off the grid or black. */
  function WhiteRunLength(g: Grid, size: GridSize, p: Pos, dir: Direction): nat
    requires Fits(g, size)
    requires 0 <= Along(p, dir)
    decreases Limit(size, dir) - Along(p, dir)
  {
    if Blocked(g, size, p) then 0 else 1 + WhiteRunLength(g, size, Step(p, dir, 1), dir)
  }

  /** The first WhiteRunLength squares from `p` are white, and the square
      after them is off the grid or black. */
  lemma {:induction false} WhiteRunLengthSpec(g: Grid, size: GridSize, p: Pos, dir: Direction)
    requires Fits(g, size) && 0 <= Along(p, dir)
    ensures var n := WhiteRunLength(g, size, p, dir);
      (forall i :: 0 <= i < n ==> White(g, Step(p, dir, i))) && Blocked(g, size, Step(p, dir, n))
    decreases Limit(size, dir) - Along(p, dir)
  {
    BlockedIff(g, size, p);
    if !Blocked(g, size, p) {
      var q := Step(p, dir, 1);
      WhiteRunLengthSpec(g, size, q, dir);
      var n := WhiteRunLength(g, size, q, dir);
      forall i | 0 <= i < n + 1 ensures White(g, Step(p, dir, i)) {
        if i > 0 {
          assert Step(q, dir, i - 1) == Step(p, dir, i);
        }
      }
      assert Step(q, dir, n) == Step(p, dir, n + 1);
    }
  }

  /** The square `i` steps from `p` along `dir`, forward or backward. */
  function Toward(p: Pos, dir: Direction, forward: bool, i: int): Pos
  {
    Step(p, dir, if forward then i else -i)
  }

  /** The first white square from `q` on, moving forward or backward along
      `dir`; `None` when the edge comes first. */
  function FirstWhiteFrom(g: Grid, size: GridSize, q: Pos, dir: Direction, forward: bool): Option<Pos>
    requires Fits(g, size)
    requires if forward then 0 <= Along(q, dir) else Along(q, dir) < Limit(size, dir)
    decreases if forward then Limit(size, dir) - Along(q, dir) else Along(q, dir) + 1
  {
    if !InBounds(size, q) then None
    else if !g[q.r][q.c].isBlack then Some(q)
    else FirstWhiteFrom(g, size, Toward(q, dir, forward, 1), dir, forward)
  }

  /** `moveCursor`'s target: the first white square strictly beyond `p`. */
  function NextWhite(g: Grid, size: GridSize, p: Pos, dir: Direction, forward: bool): Option<Pos>
    requires Fits(g, size) && InBounds(size, p)
  {
    FirstWhiteFrom(g, size, Toward(p, dir, forward, 1), dir, forward)
  }

  /** From a black square the search goes on at the next square. */
  lemma FirstWhiteSkip(g: Grid, size: GridSize, q: Pos, dir: Direction, forward: bool)
    requires Fits(g, size) && InBounds(size, q) && Black(g, q)
    ensures FirstWhiteFrom(g, size, q, dir, forward) == FirstWhiteFrom(g, size, Toward(q, dir, forward, 1), dir, forward)
  {
  }

  lemma {:induction false} FirstWhiteFound(g: Grid, size: GridSize, q: Pos, dir: Direction, forward: bool) returns (n: nat)
    requires Fits(g, size)
    requires if forward then 0 <= Along(q, dir) else Along(q, dir) < Limit(size, dir)
    requires FirstWhiteFrom(g, size, q, dir, forward).Some?
    ensures FirstWhiteFrom(g, size, q, dir, forward).value == Toward(q, dir, forward, n)
    ensures White(g, Toward(q, dir, forward, n))
    ensures forall i :: 0 <= i < n ==> Black(g, Toward(q, dir, forward, i))
    decreases if forward then Limit(size, dir) - Along(q, dir) else Along(q, dir) + 1
  {
    InGridFromRect(g, size, q);
    if g[q.r][q.c].isBlack {
      var q' := Toward(q, dir, forward, 1);
      var m := FirstWhiteFound(g, size, q', dir, forward);
      n := m + 1;
      assert Toward(q', dir, forward, m) == Toward(q, dir, forward, n);
      forall i | 0 <= i < n ensures Black(g, Toward(q, dir, forward, i)) {
        if i > 0 {
          assert Toward(q', dir, forward, i - 1) == Toward(q, dir, forward, i);
        }
      }
    } else {
      n := 0;
      assert q == Toward(q, dir, forward, 0);
    }
  }

  lemma {:induction false} FirstWhiteNone(g: Grid, size: GridSize, q: Pos, dir: Direction, forward: bool)
    requires Fits(g, size)
    requires if forward then 0 <= Along(q, dir) else Along(q, dir) < Limit(size, dir)
    requires FirstWhiteFrom(g, size, q, dir, forward) == None
    ensures forall i :: 0 <= i && InBounds(size, Toward(q, dir, forward, i)) ==> Black(g, Toward(q, dir, forward, i))
    decreases if forward then Limit(size, dir) - Along(q, dir) else Along(q, dir) + 1
  {
    if InBounds(size, q) {
      var q' := Toward(q, dir, forward, 1);
      FirstWhiteNone(g, size, q', dir, forward);
      forall i | 0 <= i && InBounds(size, Toward(q, dir, forward, i)) ensures Black(g, Toward(q, dir, forward, i)) {
        InGridFromRect(g, size, Toward(q, dir, forward, i));
        if i > 0 {
          assert Toward(q', dir, forward, i - 1) == Toward(q, dir, forward, i);
        }
      }
    }
  }

  /** `moveCursor`'s target, when there is one, is a white square `n >= 1`
      steps beyond `p` with only black squares between. */
  lemma NextWhiteFound(g: Grid, size: GridSize, p: Pos, dir: Direction, forward: bool) returns (n: nat)
    requires Fits(g, size) && InBounds(size, p)
    requires NextWhite(g, size, p, dir, forward).Some?
    ensures 1 <= n && NextWhite(g, size, p, dir, forward).value == Toward(p, dir, forward, n)
    ensures White(g, Toward(p, dir, forward, n))
    ensures forall i :: 1 <= i < n ==> Black(g, Toward(p, dir, forward, i))
  {
    var q := Toward(p, dir, forward, 1);
    var m := FirstWhiteFound(g, size, q, dir, forward);
    n := m + 1;
    assert Toward(q, dir, forward, m) == Toward(p, dir, forward, n);
    forall i | 1 <= i < n ensures Black(g, Toward(p, dir, forward, i)) {
      assert Toward(q, dir, forward, i - 1) == Toward(p, dir, forward, i);
    }
  }

  /** When `moveCursor` finds no target, every square beyond `p` up to the
      edge is black. */
  lemma NextWhiteNone(g: Grid, size: GridSize, p: Pos, dir: Direction, forward: bool)
    requires Fits(g, size) && InBounds(size, p)
    requires NextWhite(g, size, p, dir, forward) == None
    ensures forall i :: 1 <= i && InBounds(size, Toward(p, dir, forward, i)) ==> Black(g, Toward(p, dir, forward, i))
  {
    var q := Toward(p, dir, forward, 1);
    FirstWhiteNone(g, size, q, dir, forward);
    forall i | 1 <= i && InBounds(size, Toward(p, dir, forward, i)) ensures Black(g, Toward(p, dir, forward, i)) {
      assert Toward(q, dir, forward, i - 1) == Toward(p, dir, forward, i);
    }
  }
}
