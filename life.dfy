/**
 * One generation of Conway's Game of Life on a torus (life_step).
 *
 * The grid is a rectangular sequence of rows. The step is modelled the way
 * the source computes it: the neighbour count is the element-wise sum of
 * eight cyclically rolled copies of the grid, and the new grid is obtained
 * from the old one by three successive "where" overrides.
 */
module Life {
  import Arith

  type Grid = seq<seq<int>>

  /** Number of columns; an empty grid has none. */
  function Width(g: Grid): nat
  {
    if |g| == 0 then 0 else |g[0]|
  }

  /** Every row has the same length, as in a two-dimensional array. */
  predicate Rect(g: Grid)
  {
    forall r :: 0 <= r < |g| ==> |g[r]| == Width(g)
  }

  /** g is an h-by-w grid. */
  predicate IsGrid(g: Grid, h: nat, w: nat)
  {
    |g| == h && forall r :: 0 <= r < h ==> |g[r]| == w
  }

  /** Every cell is dead (0) or alive (1). */
  predicate Binary(g: Grid)
  {
    forall r, c :: 0 <= r < |g| && 0 <= c < |g[r]| ==> g[r][c] == 0 || g[r][c] == 1
  }

  /** Two grids of the same shape with the same cells are equal. */
  lemma SameCells(a: Grid, b: Grid, h: nat, w: nat)
    requires IsGrid(a, h, w) && IsGrid(b, h, w)
    requires forall r, c :: 0 <= r < h && 0 <= c < w ==> a[r][c] == b[r][c]
    ensures a == b
  {
    forall r | 0 <= r < h ensures a[r] == b[r] {
      assert forall c :: 0 <= c < w ==> a[r][c] == b[r][c];
    }
  }

  function Zeros(h: nat, w: nat): (z: Grid)
    ensures IsGrid(z, h, w)
    ensures forall r, c :: 0 <= r < h && 0 <= c < w ==> z[r][c] == 0
  {
    seq(h, _ => seq(w, _ => 0))
  }

  /**
   * np.roll(np.roll(g, i, axis=0), j, axis=1): the cell at (r, c) of the
   * result is the cell of g at ((r - i) mod H, (c - j) mod W).
   */
  function Roll(g: Grid, i: int, j: int): (t: Grid)
    requires Rect(g)
    ensures IsGrid(t, |g|, Width(g))
  {
    seq(|g|, r requires 0 <= r < |g| =>
      seq(Width(g), c requires 0 <= c < Width(g) => g[(r - i) % |g|][(c - j) % Width(g)]))
  }

  /** Element-wise sum of two grids of the same shape. */
  function Add(a: Grid, b: Grid): (s: Grid)
    requires IsGrid(b, |a|, Width(a)) && Rect(a)
    ensures IsGrid(s, |a|, Width(a))
    ensures forall r, c :: 0 <= r < |a| && 0 <= c < Width(a) ==> s[r][c] == a[r][c] + b[r][c]
  {
    seq(|a|, r requires 0 <= r < |a| =>
      seq(Width(a), c requires 0 <= c < Width(a) => a[r][c] + b[r][c]))
  }

  /** The offsets (i, j) of the source's generator, in its iteration order. */
  const Offsets: seq<(int, int)> :=
    [(-1, -1), (-1, 0), (-1, 1), (0, -1), (0, 1), (1, -1), (1, 0), (1, 1)]

  /** sum(np.roll(...) for (i, j) in offs), starting from the scalar 0. */
  function SumRolls(g: Grid, offs: seq<(int, int)>): (s: Grid)
    requires Rect(g)
    ensures IsGrid(s, |g|, Width(g))
  {
    if offs == [] then Zeros(|g|, Width(g))
    else Add(Roll(g, offs[0].0, offs[0].1), SumRolls(g, offs[1..]))
  }

  /** The source's numberOfNeigbours array. */
  function NeighbourCounts(g: Grid): (n: Grid)
    requires Rect(g)
    ensures IsGrid(n, |g|, Width(g))
  {
    SumRolls(g, Offsets)
  }

  /** The cell at (r, c) with both indices wrapped around the torus. */
  function Wrapped(g: Grid, r: int, c: int): int
    requires Rect(g) && |g| > 0 && Width(g) > 0
  {
    g[r % |g|][c % Width(g)]
  }

  /**
   * Reference definition of the neighbour count: the sum of the cells at
   * the eight offsets (dr, dc) != (0, 0), indices taken modulo H and W.
   * On a grid with H or W at most 2 the same cell is counted more than once.
   */
  function NeighbourCount(g: Grid, r: int, c: int): int
    requires Rect(g) && |g| > 0 && Width(g) > 0
  {
    Wrapped(g, r - 1, c - 1) + Wrapped(g, r - 1, c) + Wrapped(g, r - 1, c + 1) +
    Wrapped(g, r, c - 1) + Wrapped(g, r, c + 1) +
    Wrapped(g, r + 1, c - 1) + Wrapped(g, r + 1, c) + Wrapped(g, r + 1, c + 1)
  }

  /** np.where(cond(n), v, s). */
  function Where(n: Grid, cond: int -> bool, v: int, s: Grid): (t: Grid)
    requires Rect(s) && IsGrid(n, |s|, Width(s))
    ensures IsGrid(t, |s|, Width(s))
    ensures forall r, c :: 0 <= r < |s| && 0 <= c < Width(s) ==>
      t[r][c] == if cond(n[r][c]) then v else s[r][c]
  {
    seq(|s|, r requires 0 <= r < |s| =>
      seq(Width(s), c requires 0 <= c < Width(s) => if cond(n[r][c]) then v else s[r][c]))
  }

  /** life_step: one generation, every cell computed from the old grid. */
  function LifeStep(g: Grid): (next: Grid)
    requires Rect(g)
    ensures IsGrid(next, |g|, Width(g)) && Rect(next) && Width(next) == Width(g)
  {
    var n := NeighbourCounts(g);
    var underPopulated := Where(n, k => k < 2, 0, g);
    var overPopulated := Where(n, k => k > 3, 0, underPopulated);
    Where(n, k => k == 3, 1, overPopulated)
  }

  /**
   * The click handler's edit: the cell at row y, column x becomes
   * (value + 1) % 2, and no other cell changes.
   */
  function FlipCell(g: Grid, y: nat, x: nat): (f: Grid)
    requires Rect(g) && y < |g| && x < Width(g)
    ensures Rect(f) && IsGrid(f, |g|, Width(g))
    ensures forall r, c :: 0 <= r < |g| && 0 <= c < Width(g) && (r, c) != (y, x) ==> f[r][c] == g[r][c]
    ensures g[y][x] == 0 ==> f[y][x] == 1
    ensures g[y][x] == 1 ==> f[y][x] == 0
  {
    g[y := g[y][x := (g[y][x] + 1) % 2]]
  }

  /** Flipping a 0/1 cell twice restores the grid, and a 0/1 grid stays 0/1. */
  lemma FlipCellTwice(g: Grid, y: nat, x: nat)
    requires Rect(g) && y < |g| && x < Width(g) && Binary(g)
    ensures Binary(FlipCell(g, y, x))
    ensures FlipCell(FlipCell(g, y, x), y, x) == g
  {
    var f := FlipCell(g, y, x);
    assert FlipCell(f, y, x)[y] == g[y];
  }

  // ---------------------------------------------------------------------
  // The neighbour count

  /** The rolled sum at one cell: each offset (i, j) reads cell (r - i, c - j). */
  function RolledCellSum(g: Grid, r: int, c: int, offs: seq<(int, int)>): int
    requires Rect(g) && |g| > 0 && Width(g) > 0
  {
    if offs == [] then 0
    else Wrapped(g, r - offs[0].0, c - offs[0].1) + RolledCellSum(g, r, c, offs[1..])
  }

  lemma {:induction false} SumRollsAt(g: Grid, offs: seq<(int, int)>, r: nat, c: nat)
    requires Rect(g) && r < |g| && c < Width(g)
    ensures SumRolls(g, offs)[r][c] == RolledCellSum(g, r, c, offs)
    decreases |offs|
  {
    if offs != [] {
      var rl := Roll(g, offs[0].0, offs[0].1);
      var rest := SumRolls(g, offs[1..]);
      assert SumRolls(g, offs) == Add(rl, rest);
      assert rl[r][c] == Wrapped(g, r - offs[0].0, c - offs[0].1);
      SumRollsAt(g, offs[1..], r, c);
    }
  }

  /**
   * The source's rolled sum is the toroidal neighbour count: the rolls by
   * (i, j) read the cells at (-i, -j), and the eight offsets are closed
   * under negation.
   */
  lemma NeighbourCountsAt(g: Grid, r: nat, c: nat)
    requires Rect(g) && r < |g| && c < Width(g)
    ensures NeighbourCounts(g)[r][c] == NeighbourCount(g, r, c)
  {
    SumRollsAt(g, Offsets, r, c);
    var o := Offsets;
    assert RolledCellSum(g, r, c, o[8..]) == 0;
    assert RolledCellSum(g, r, c, o[7..]) == Wrapped(g, r - 1, c - 1);
    assert RolledCellSum(g, r, c, o[6..]) == Wrapped(g, r - 1, c) + RolledCellSum(g, r, c, o[7..]);
    assert RolledCellSum(g, r, c, o[5..]) == Wrapped(g, r - 1, c + 1) + RolledCellSum(g, r, c, o[6..]);
    assert RolledCellSum(g, r, c, o[4..]) == Wrapped(g, r, c - 1) + RolledCellSum(g, r, c, o[5..]);
    assert RolledCellSum(g, r, c, o[3..]) == Wrapped(g, r, c + 1) + RolledCellSum(g, r, c, o[4..]);
    assert RolledCellSum(g, r, c, o[2..]) == Wrapped(g, r + 1, c - 1) + RolledCellSum(g, r, c, o[3..]);
    assert RolledCellSum(g, r, c, o[1..]) == Wrapped(g, r + 1, c) + RolledCellSum(g, r, c, o[2..]);
    assert RolledCellSum(g, r, c, o) == Wrapped(g, r + 1, c + 1) + RolledCellSum(g, r, c, o[1..]);
  }

  /** On a 0/1 grid the neighbour count lies in 0..8. */
  lemma NeighbourCountRange(g: Grid, r: int, c: int)
    requires Rect(g) && |g| > 0 && Width(g) > 0 && Binary(g)
    ensures 0 <= NeighbourCount(g, r, c) <= 8
  {
    WrappedBinary(g, r - 1, c - 1);
    WrappedBinary(g, r - 1, c);
    WrappedBinary(g, r - 1, c + 1);
    WrappedBinary(g, r, c - 1);
    WrappedBinary(g, r, c + 1);
    WrappedBinary(g, r + 1, c - 1);
    WrappedBinary(g, r + 1, c);
    WrappedBinary(g, r + 1, c + 1);
  }

  lemma WrappedBinary(g: Grid, r: int, c: int)
    requires Rect(g) && |g| > 0 && Width(g) > 0 && Binary(g)
    ensures Wrapped(g, r, c) == 0 || Wrapped(g, r, c) == 1
  {
    assert |g[r % |g|]| == Width(g);
  }

  // ---------------------------------------------------------------------
  // The rule

  /**
   * The next value of a cell: 1 when exactly three neighbours are alive,
   * the old value when exactly two are, 0 otherwise.
   */
  lemma LifeStepAt(g: Grid, r: nat, c: nat)
    requires Rect(g) && r < |g| && c < Width(g)
    ensures LifeStep(g)[r][c] ==
      if NeighbourCount(g, r, c) == 3 then 1
      else if NeighbourCount(g, r, c) == 2 then g[r][c]
      else 0
  {
    NeighbourCountsAt(g, r, c);
  }

  /** The Life rule for one cell with n live neighbours. */
  function Rule(alive: int, n: int): int
  {
    if n == 3 then 1 else if n == 2 then alive else 0
  }

  /** Reference step: the rule applied to every cell of the old grid. */
  function RuleStep(g: Grid): (next: Grid)
    requires Rect(g)
    ensures IsGrid(next, |g|, Width(g))
  {
    seq(|g|, r requires 0 <= r < |g| =>
      seq(Width(g), c requires 0 <= c < Width(g) => Rule(g[r][c], NeighbourCount(g, r, c))))
  }

  lemma RuleStepAt(g: Grid, r: nat, c: nat)
    requires Rect(g) && r < |g| && c < Width(g)
    ensures RuleStep(g)[r][c] == Rule(g[r][c], NeighbourCount(g, r, c))
  {
  }

  lemma LifeStepRuleStepAt(g: Grid, r: nat, c: nat)
    requires Rect(g) && r < |g| && c < Width(g)
    ensures LifeStep(g)[r][c] == RuleStep(g)[r][c]
  {
    LifeStepAt(g, r, c);
    RuleStepAt(g, r, c);
  }

  /** The three overrides of the source compute exactly the reference step. */
  lemma LifeStepIsRuleStep(g: Grid)
    requires Rect(g)
    ensures LifeStep(g) == RuleStep(g)
  {
    forall r, c | 0 <= r < |g| && 0 <= c < Width(g)
      ensures LifeStep(g)[r][c] == RuleStep(g)[r][c]
    {
      LifeStepRuleStepAt(g, r, c);
    }
    SameCells(LifeStep(g), RuleStep(g), |g|, Width(g));
  }

  /** On a 0/1 grid: a cell is alive next iff n == 3, or it is alive and n == 2. */
  lemma LifeStepAlive(g: Grid, r: nat, c: nat)
    requires Rect(g) && Binary(g) && r < |g| && c < Width(g)
    ensures LifeStep(g)[r][c] == 0 || LifeStep(g)[r][c] == 1
    ensures LifeStep(g)[r][c] == 1 <==>
      NeighbourCount(g, r, c) == 3 || (g[r][c] == 1 && NeighbourCount(g, r, c) == 2)
  {
    LifeStepAt(g, r, c);
  }

  /** A 0/1 grid stays a 0/1 grid of the same shape. */
  lemma LifeStepBinary(g: Grid)
    requires Rect(g) && Binary(g)
    ensures Binary(LifeStep(g)) && IsGrid(LifeStep(g), |g|, Width(g))
  {
    forall r, c | 0 <= r < |g| && 0 <= c < |LifeStep(g)[r]|
      ensures LifeStep(g)[r][c] == 0 || LifeStep(g)[r][c] == 1
    {
      LifeStepAlive(g, r, c);
    }
  }

  /** The all-dead grid is a fixed point. */
  lemma ZerosFixed(h: nat, w: nat)
    ensures LifeStep(Zeros(h, w)) == Zeros(h, w)
  {
    var z := Zeros(h, w);
    forall r, c | 0 <= r < h && 0 <= c < w
      ensures LifeStep(z)[r][c] == 0
    {
      LifeStepAt(z, r, c);
    }
    assert forall r | 0 <= r < h :: LifeStep(z)[r] == z[r];
  }

  /**
   * On a 1-by-1 torus all eight offsets wrap back onto the cell itself: the
   * cell is counted eight times, so a lone live cell dies.
   */
  lemma OneByOneCountsItself(g: Grid)
    requires Rect(g) && |g| == 1 && Width(g) == 1
    ensures NeighbourCounts(g)[0][0] == 8 * g[0][0]
    ensures g[0][0] == 1 ==> LifeStep(g)[0][0] == 0
  {
    NeighbourCountsAt(g, 0, 0);
    assert (-1) % 1 == 0 && 1 % 1 == 0 && 0 % 1 == 0;
    assert Wrapped(g, -1, -1) == g[0][0] && Wrapped(g, -1, 0) == g[0][0] && Wrapped(g, -1, 1) == g[0][0];
    assert Wrapped(g, 0, -1) == g[0][0] && Wrapped(g, 0, 1) == g[0][0];
    assert Wrapped(g, 1, -1) == g[0][0] && Wrapped(g, 1, 0) == g[0][0] && Wrapped(g, 1, 1) == g[0][0];
    LifeStepAt(g, 0, 0);
  }

  // ---------------------------------------------------------------------
  // Translation equivariance

  lemma WrappedRoll(g: Grid, a: int, b: int, r: int, c: int)
    requires Rect(g) && |g| > 0 && Width(g) > 0
    ensures Wrapped(Roll(g, a, b), r, c) == Wrapped(g, r - a, c - b)
  {
    var h, w := |g|, Width(g);
    Arith.ModShift(r, -a, h);
    Arith.ModShift(c, -b, w);
  }

  lemma NeighbourCountRoll(g: Grid, a: int, b: int, r: int, c: int)
    requires Rect(g) && |g| > 0 && Width(g) > 0
    ensures NeighbourCount(Roll(g, a, b), r, c) == NeighbourCount(g, r - a, c - b)
  {
    WrappedRoll(g, a, b, r - 1, c - 1);
    WrappedRoll(g, a, b, r - 1, c);
    WrappedRoll(g, a, b, r - 1, c + 1);
    WrappedRoll(g, a, b, r, c - 1);
    WrappedRoll(g, a, b, r, c + 1);
    WrappedRoll(g, a, b, r + 1, c - 1);
    WrappedRoll(g, a, b, r + 1, c);
    WrappedRoll(g, a, b, r + 1, c + 1);
  }

  /** A cell of the torus read at wrapped coordinates equals its neighbour count there. */
  lemma NeighbourCountWrapped(g: Grid, r: int, c: int)
    requires Rect(g) && |g| > 0 && Width(g) > 0
    ensures NeighbourCount(g, r % |g|, c % Width(g)) == NeighbourCount(g, r, c)
  {
    var h, w := |g|, Width(g);
    Arith.ModShift(r, -1, h); Arith.ModShift(r, 0, h); Arith.ModShift(r, 1, h);
    Arith.ModShift(c, -1, w); Arith.ModShift(c, 0, w); Arith.ModShift(c, 1, w);
  }

  lemma RollAt(g: Grid, a: int, b: int, r: nat, c: nat)
    requires Rect(g) && r < |g| && c < Width(g)
    ensures Roll(g, a, b)[r][c] == g[(r - a) % |g|][(c - b) % Width(g)]
  {
  }

  lemma LifeStepRollAt(g: Grid, a: int, b: int, r: nat, c: nat)
    requires Rect(g) && r < |g| && c < Width(g)
    ensures LifeStep(Roll(g, a, b))[r][c] == Roll(LifeStep(g), a, b)[r][c]
  {
    var h, w := |g|, Width(g);
    var r0, c0 := (r - a) % h, (c - b) % w;
    var rolled := Roll(g, a, b);
    var n := NeighbourCount(g, r0, c0);
    NeighbourCountRoll(g, a, b, r, c);
    NeighbourCountWrapped(g, r - a, c - b);
    assert NeighbourCount(rolled, r, c) == n;
    RollAt(g, a, b, r, c);
    LifeStepAt(rolled, r, c);
    assert LifeStep(rolled)[r][c] == if n == 3 then 1 else if n == 2 then g[r0][c0] else 0;
    LifeStepAt(g, r0, c0);
    RollAt(LifeStep(g), a, b, r, c);
  }

  /**
   * Periodic boundaries make the step commute with cyclic shifts:
   * stepping a rolled grid equals rolling the stepped grid.
   */
  lemma LifeStepRoll(g: Grid, a: int, b: int)
    requires Rect(g)
    ensures LifeStep(Roll(g, a, b)) == Roll(LifeStep(g), a, b)
  {
    var lhs, rhs := LifeStep(Roll(g, a, b)), Roll(LifeStep(g), a, b);
    forall r | 0 <= r < |g|
      ensures lhs[r] == rhs[r]
    {
      forall c | 0 <= c < Width(g)
        ensures lhs[r][c] == rhs[r][c]
      {
        LifeStepRollAt(g, a, b, r, c);
      }
    }
  }
}
