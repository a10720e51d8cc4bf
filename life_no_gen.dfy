/**
 * The Game of Life without a generator: the displayed grid is updated by
 * the animation callback unless the global pause flag is set, the space key
 * flips that flag, the load key replaces the grid, and a left click flips
 * one cell in place.
 */
module LifeNoGen {
  import opened Life
  import LifeGen

  /** The displayed image array together with the global PAUSE flag. */
  class InteractiveLife {
    var image: Grid
    var paused: bool

    ghost predicate Valid()
      reads this
    {
      Rect(image)
    }

    /** The same two pieces of state, as the generator variant names them. */
    ghost function Snapshot(): LifeGen.GenState
      reads this
    {
      LifeGen.GenState(image, paused)
    }

    /** interactive_game_of_life: show the initial grid, PAUSE = False. */
    constructor (initial: Grid)
      requires Rect(initial)
      ensures Valid() && Snapshot() == LifeGen.Start(initial)
    {
      image := initial;
      paused := false;
    }

    /** The animation callback: one generation unless paused. */
    method UpdateImage()
      requires Valid()
      modifies this
      ensures Valid() && paused == old(paused)
      ensures image == if old(paused) then old(image) else LifeStep(old(image))
      ensures Snapshot() == LifeGen.Receive(old(Snapshot()), LifeGen.Advance)
    {
      if !paused {
        image := LifeStep(image);
      }
    }

    /**
     * The key handler. Space flips PAUSE; 'l' shows the grid read back from
     * the snapshot file (passed in as saved); 's' only writes that file.
     */
    method OnKeyPress(key: char, saved: Grid)
      requires Valid() && (key == 'l' ==> Rect(saved))
      modifies this
      ensures Valid()
      ensures key == ' ' ==> image == old(image) && paused == !old(paused)
      ensures key == 'l' ==> image == saved && paused == old(paused)
      ensures key != ' ' && key != 'l' ==> image == old(image) && paused == old(paused)
      ensures key == ' ' ==> Snapshot() == LifeGen.Receive(old(Snapshot()), LifeGen.TogglePause)
      ensures key == 'l' ==> Snapshot() == LifeGen.Receive(old(Snapshot()), LifeGen.Replace(saved))
    {
      if key == ' ' {
        paused := !paused;
      }
      if key == 'l' {
        image := saved;
      }
    }

    /** A left click at column x, row y flips that one cell, paused or not. */
    method OnClick(x: nat, y: nat)
      requires Valid() && y < |image| && x < Width(image)
      modifies this
      ensures Valid() && paused == old(paused)
      ensures image == FlipCell(old(image), y, x)
      ensures Snapshot() == LifeGen.Receive(old(Snapshot()), LifeGen.Replace(FlipCell(old(image), y, x)))
    {
      var row := image[y];
      row := row[x := (row[x] + 1) % 2];
      image := image[y := row];
    }
  }

  // ---------------------------------------------------------------------
  // The demonstration grid: a blinker on a 4-by-5 torus

  /** Row 2, columns 1 to 3 alive. */
  const Horizontal: Grid := seq(4, r => seq(5, c => if r == 2 && 1 <= c <= 3 then 1 else 0))

  /** Column 2, rows 1 to 3 alive. */
  const Vertical: Grid := seq(4, r => seq(5, c => if c == 2 && r != 0 then 1 else 0))

  lemma SameRowOfFive(a: seq<int>, b: seq<int>)
    requires |a| == |b| == 5
    requires a[0] == b[0] && a[1] == b[1] && a[2] == b[2] && a[3] == b[3] && a[4] == b[4]
    ensures a == b
  {
  }

  lemma SameGridOfFour(a: Grid, b: Grid)
    requires |a| == |b| == 4
    requires a[0] == b[0] && a[1] == b[1] && a[2] == b[2] && a[3] == b[3]
    ensures a == b
  {
  }

  /** A row of the reference step of a five-column grid, from its five cells. */
  lemma RuleStepRow(g: Grid, r: nat, row: seq<int>)
    requires Rect(g) && Width(g) == 5 && r < |g| && |row| == 5
    requires Rule(g[r][0], NeighbourCount(g, r, 0)) == row[0]
    requires Rule(g[r][1], NeighbourCount(g, r, 1)) == row[1]
    requires Rule(g[r][2], NeighbourCount(g, r, 2)) == row[2]
    requires Rule(g[r][3], NeighbourCount(g, r, 3)) == row[3]
    requires Rule(g[r][4], NeighbourCount(g, r, 4)) == row[4]
    ensures RuleStep(g)[r] == row
  {
    RuleStepAt(g, r, 0);
    RuleStepAt(g, r, 1);
    RuleStepAt(g, r, 2);
    RuleStepAt(g, r, 3);
    RuleStepAt(g, r, 4);
    SameRowOfFive(RuleStep(g)[r], row);
  }

  lemma HorizontalRow0() ensures Rect(Horizontal) && RuleStep(Horizontal)[0] == Vertical[0]
  { assert Rect(Horizontal) && Width(Horizontal) == 5; RuleStepRow(Horizontal, 0, Vertical[0]); }
  lemma HorizontalRow1() ensures Rect(Horizontal) && RuleStep(Horizontal)[1] == Vertical[1]
  { assert Rect(Horizontal) && Width(Horizontal) == 5; RuleStepRow(Horizontal, 1, Vertical[1]); }
  lemma HorizontalRow2() ensures Rect(Horizontal) && RuleStep(Horizontal)[2] == Vertical[2]
  { assert Rect(Horizontal) && Width(Horizontal) == 5; RuleStepRow(Horizontal, 2, Vertical[2]); }
  lemma HorizontalRow3() ensures Rect(Horizontal) && RuleStep(Horizontal)[3] == Vertical[3]
  { assert Rect(Horizontal) && Width(Horizontal) == 5; RuleStepRow(Horizontal, 3, Vertical[3]); }

  lemma VerticalRow0() ensures Rect(Vertical) && RuleStep(Vertical)[0] == Horizontal[0]
  { assert Rect(Vertical) && Width(Vertical) == 5; RuleStepRow(Vertical, 0, Horizontal[0]); }
  lemma VerticalRow1() ensures Rect(Vertical) && RuleStep(Vertical)[1] == Horizontal[1]
  { assert Rect(Vertical) && Width(Vertical) == 5; RuleStepRow(Vertical, 1, Horizontal[1]); }
  lemma VerticalRow2() ensures Rect(Vertical) && RuleStep(Vertical)[2] == Horizontal[2]
  { assert Rect(Vertical) && Width(Vertical) == 5; RuleStepRow(Vertical, 2, Horizontal[2]); }
  lemma VerticalRow3() ensures Rect(Vertical) && RuleStep(Vertical)[3] == Horizontal[3]
  { assert Rect(Vertical) && Width(Vertical) == 5; RuleStepRow(Vertical, 3, Horizontal[3]); }

  /**
   * The demonstration: one step turns the horizontal blinker into the
   * vertical one, and a second step restores the original grid.
   */
  lemma BlinkerOscillates()
    ensures Rect(Horizontal) && Rect(Vertical)
    ensures LifeStep(Horizontal) == Vertical
    ensures LifeStep(Vertical) == Horizontal
    ensures LifeStep(LifeStep(Horizontal)) == Horizontal
  {
    HorizontalRow0(); HorizontalRow1(); HorizontalRow2(); HorizontalRow3();
    VerticalRow0(); VerticalRow1(); VerticalRow2(); VerticalRow3();
    SameGridOfFour(RuleStep(Horizontal), Vertical);
    SameGridOfFour(RuleStep(Vertical), Horizontal);
    LifeStepIsRuleStep(Horizontal);
    LifeStepIsRuleStep(Vertical);
  }
}
