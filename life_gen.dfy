/**
 * The generator-driven Game of Life (life_generator): a state machine over
 * the current grid and a paused flag that reacts to three kinds of message.
 */
module LifeGen {
  import opened Life

  /** What a caller sends: next() / send(None), 'toggle pause', or a new grid. */
  datatype Message = Advance | TogglePause | Replace(grid: Grid)

  /** The generator's two local variables. */
  datatype GenState = GenState(state: Grid, paused: bool)

  predicate WellFormed(s: GenState)
  {
    Rect(s.state)
  }

  /** A message can be handled: a replacement is a two-dimensional array. */
  predicate Acceptable(m: Message)
  {
    m.Replace? ==> Rect(m.grid)
  }

  /** The generator starts from the initial grid, unpaused. */
  function Start(initial: Grid): (s: GenState)
    ensures s.state == initial && !s.paused
  {
    GenState(initial, false)
  }

  /** One pass through the body of the generator's loop. */
  function Receive(s: GenState, m: Message): (t: GenState)
    requires WellFormed(s) && Acceptable(m)
    ensures WellFormed(t)
  {
    match m
    case Advance => if s.paused then s else GenState(LifeStep(s.state), s.paused)
    case TogglePause => GenState(s.state, !s.paused)
    case Replace(g) => GenState(g, s.paused)
  }

  predicate AllAcceptable(ms: seq<Message>)
  {
    forall i :: 0 <= i < |ms| ==> Acceptable(ms[i])
  }

  /** The state after the messages ms have been sent, in order. */
  function Run(s: GenState, ms: seq<Message>): (t: GenState)
    requires WellFormed(s) && AllAcceptable(ms)
    ensures WellFormed(t)
    decreases |ms|
  {
    if ms == [] then s else Run(Receive(s, ms[0]), ms[1..])
  }

  function Advances(k: nat): (ms: seq<Message>)
    ensures |ms| == k && forall i :: 0 <= i < k ==> ms[i] == Advance
  {
    if k == 0 then [] else [Advance] + Advances(k - 1)
  }

  // ---------------------------------------------------------------------
  // Properties of one message

  /** Advancing steps the grid unless paused, and never changes the mode. */
  lemma AdvanceEffect(s: GenState)
    requires WellFormed(s)
    ensures Receive(s, Advance).paused == s.paused
    ensures Receive(s, Advance).state == if s.paused then s.state else LifeStep(s.state)
  {
  }

  /** Toggling flips the mode, keeps the grid, and two toggles restore the state. */
  lemma ToggleTwice(s: GenState)
    requires WellFormed(s)
    ensures Receive(s, TogglePause) == GenState(s.state, !s.paused)
    ensures Receive(Receive(s, TogglePause), TogglePause) == s
  {
  }

  /** A replacement takes effect whatever the mode and leaves the mode alone. */
  lemma ReplaceOverridesPause(s: GenState, g: Grid)
    requires WellFormed(s) && Rect(g)
    ensures Receive(s, Replace(g)) == GenState(g, s.paused)
  {
  }

  // ---------------------------------------------------------------------
  // Properties of message sequences

  lemma {:induction false} RunAppend(s: GenState, ms: seq<Message>, ns: seq<Message>)
    requires WellFormed(s) && AllAcceptable(ms) && AllAcceptable(ns)
    ensures AllAcceptable(ms + ns)
    ensures Run(s, ms + ns) == Run(Run(s, ms), ns)
    decreases |ms|
  {
    if ms != [] {
      assert (ms + ns)[0] == ms[0] && (ms + ns)[1..] == ms[1..] + ns;
      assert AllAcceptable(ms[1..]);
      RunAppend(Receive(s, ms[0]), ms[1..], ns);
      assert Run(s, ms + ns) == Run(Receive(s, ms[0]), ms[1..] + ns);
    } else {
      assert ms + ns == ns;
    }
  }

  /** While paused, any number of advances leaves the grid as it was. */
  lemma {:induction false} PausedAdvances(s: GenState, k: nat)
    requires WellFormed(s) && s.paused
    ensures AllAcceptable(Advances(k))
    ensures Run(s, Advances(k)) == s
  {
    if k > 0 {
      assert Advances(k)[1..] == Advances(k - 1);
      PausedAdvances(s, k - 1);
    }
  }

  /** While running, k advances apply the step k times. */
  lemma {:induction false} RunningAdvances(s: GenState, k: nat)
    requires WellFormed(s) && !s.paused
    ensures AllAcceptable(Advances(k))
    ensures Run(s, Advances(k)) == GenState(Steps(s.state, k), false)
    decreases k
  {
    if k > 0 {
      assert Advances(k)[1..] == Advances(k - 1);
      RunningAdvances(GenState(LifeStep(s.state), false), k - 1);
      StepsFirst(s.state, k);
    }
  }

  /** k generations of the step. */
  function Steps(g: Grid, k: nat): (r: Grid)
    requires Rect(g)
    ensures Rect(r) && |r| == |g| && Width(r) == Width(g)
  {
    if k == 0 then g else LifeStep(Steps(g, k - 1))
  }

  lemma {:induction false} StepsFirst(g: Grid, k: nat)
    requires Rect(g) && k > 0
    ensures Steps(g, k) == Steps(LifeStep(g), k - 1)
  {
    if k > 1 {
      StepsFirst(g, k - 1);
    }
  }

  /**
   * Pause, any number of advances, resume, advance: the net effect is one
   * step of the grid that was current before the pause.
   */
  lemma PauseResume(s: GenState, k: nat)
    requires WellFormed(s) && !s.paused
    ensures AllAcceptable([TogglePause] + Advances(k) + [TogglePause, Advance])
    ensures Run(s, [TogglePause] + Advances(k) + [TogglePause, Advance]) == GenState(LifeStep(s.state), false)
  {
    var paused := Receive(s, TogglePause);
    PausedAdvances(paused, k);
    RunAppend(s, [TogglePause], Advances(k));
    RunAppend(s, [TogglePause] + Advances(k), [TogglePause, Advance]);
  }

  /** Every state reached from a 0/1 grid through 0/1 replacements is a 0/1 grid. */
  lemma {:induction false} RunKeepsBinary(s: GenState, ms: seq<Message>)
    requires WellFormed(s) && AllAcceptable(ms) && Binary(s.state)
    requires forall i :: 0 <= i < |ms| && ms[i].Replace? ==> Binary(ms[i].grid)
    ensures Binary(Run(s, ms).state)
    decreases |ms|
  {
    if ms != [] {
      if ms[0].Advance? {
        LifeStepBinary(s.state);
      }
      RunKeepsBinary(Receive(s, ms[0]), ms[1..]);
    }
  }

  // ---------------------------------------------------------------------
  // The generator object

  /**
   * The suspended generator: its locals state and paused, updated by each
   * message the caller sends.
   */
  class LifeGenerator {
    var state: Grid
    var paused: bool

    ghost predicate Valid()
      reads this
    {
      Rect(state)
    }

    ghost function Snapshot(): GenState
      reads this
    {
      GenState(state, paused)
    }

    /** life_generator(initialState) followed by the first next(): yields the initial grid. */
    constructor (initial: Grid)
      requires Rect(initial)
      ensures Valid() && Snapshot() == Start(initial)
    {
      state := initial;
      paused := false;
    }

    /** next(life) or life.send(None). */
    method Advance() returns (yielded: Grid)
      requires Valid()
      modifies this
      ensures Valid() && Snapshot() == Receive(old(Snapshot()), Message.Advance)
      ensures paused == old(paused)
      ensures state == (if paused then old(state) else LifeStep(old(state)))
      ensures yielded == state
    {
      if !paused {
        state := LifeStep(state);
      }
      yielded := state;
    }

    /** life.send('toggle pause'). */
    method TogglePause() returns (yielded: Grid)
      requires Valid()
      modifies this
      ensures Valid() && Snapshot() == Receive(old(Snapshot()), Message.TogglePause)
      ensures paused == !old(paused) && state == old(state)
      ensures yielded == state
    {
      paused := !paused;
      yielded := state;
    }

    /** life.send(g) for a grid g. */
    method Replace(g: Grid) returns (yielded: Grid)
      requires Valid() && Rect(g)
      modifies this
      ensures Valid() && Snapshot() == Receive(old(Snapshot()), Message.Replace(g))
      ensures state == g && paused == old(paused)
      ensures yielded == g
    {
      state := g;
      yielded := state;
    }

    /** life.send(m): dispatch on the kind of message, then yield the state. */
    method Send(m: Message) returns (yielded: Grid)
      requires Valid() && Acceptable(m)
      modifies this
      ensures Valid() && Snapshot() == Receive(old(Snapshot()), m)
      ensures yielded == state
    {
      match m
      case Advance => yielded := Advance();
      case TogglePause => yielded := TogglePause();
      case Replace(g) => yielded := Replace(g);
    }

    /** Sends every message of ms in order. */
    method SendAll(ms: seq<Message>)
      requires Valid() && AllAcceptable(ms)
      modifies this
      ensures Valid() && Snapshot() == Run(old(Snapshot()), ms)
    {
      var i := 0;
      while i < |ms|
        invariant 0 <= i <= |ms| && Valid()
        invariant Run(old(Snapshot()), ms) == Run(Snapshot(), ms[i..])
      {
        assert ms[i..][1..] == ms[i + 1..];
        var _ := Send(ms[i]);
        i := i + 1;
      }
    }
  }
}
