# Game of Life and the Sieve of Eratosthenes, in Dafny

This project models two small components of a scientific-Python teaching
repository and proves what their code promises.

**Conway's Game of Life on a torus.** An H×W grid of 0/1 cells is advanced
by `life_step`. For each cell, `life_step` sums eight `np.roll`-shifted copies
of the grid, so neighbour indices wrap modulo H and W. It then applies three
`np.where` overrides to the old grid:
- fewer than two neighbours gives 0;
- more than three gives 0;
- exactly three gives 1.

Two controllers drive the step:
- **The generator.** `life_generator` is a coroutine with locals `state` and
  `paused`. It reacts to three messages: advance (`None`), `'toggle pause'`,
  and a replacement grid.
- **The non-generator interactive variant.** It keeps the displayed grid and a
  global `PAUSE`. The animation callback steps the grid unless paused, the
  space key flips `PAUSE`, the `l` key shows a loaded grid, and a left click
  flips one cell.

**The Sieve of Eratosthenes, three times.** The three versions are a Python
list version, a NumPy version (strided slice assignment, `np.nonzero`) and a
C++ version. The C++ version collects primes during the first loop and in a
second tail loop. A last module models the closing comparison of the timing
script.

Modules, one per file:

| file | module | models |
|---|---|---|
| `arith.dfy` | `Arith` | facts about Euclidean `%` and `/` used below |
| `life.dfy` | `Life` | `life_step`; both copies of it are one function |
| `life_gen.dfy` | `LifeGen` | `life_generator` as a transition function and as a class |
| `life_no_gen.dfy` | `LifeNoGen` | `PAUSE`, `update_image`, the key and click handlers, the 4×5 demo |
| `sieve.dfy` | `Sieve` | primality, the reference result, `int(sqrt(n))`, the inner clearing loop |
| `primes.dfy` | `Primes` | `sieve_of_eratosthenes` in `Primes.py` |
| `numpy_primes.dfy` | `NumpyPrimes` | `sieve_of_eratosthenes_np` |
| `cpp_primes.dfy` | `CppPrimes` | the C++ `sieve_of_eratosthenes` |
| `timing_primes.dfy` | `TimingPrimes` | the equality checks at the end of `TimingPrimes.py` |

A grid is a `seq<seq<int>>`. `Roll(g, i, j)` is `np.roll` along both axes: cell
(r, c) reads `g[(r - i) % H][(c - j) % W]`. Dafny's `%` is Euclidean, which
agrees with Python's for a positive modulus. The generator is modelled twice:
- `LifeGen.Receive` is one pass through the loop body, as a function on a
  `GenState(state, paused)` value;
- the class `LifeGen.LifeGenerator` has the two locals as fields and one method
  per message, each specified by `Receive`.

The interactive class `LifeNoGen.InteractiveLife` is specified by the same
`Receive`.

The three sieves share one reference result, `Sieve.PrimesUpTo(n)` (all
primes from 2 to n, ascending), and each is proved to return exactly it.
The C++ version also returns it for n = 1. Its tail loop starts at
(int)sqrt(1) + 1 = 2, which already exceeds n, so index 1 is never appended and
the result is empty, as in the two Python versions.

## Model

| member | source | states |
|---|---|---|
| `Life.LifeStep` | Code/LifeGen.py:7-23 | the next generation has the same H×W shape as the input |
| `Life.RollAt` | Code/LifeGen.py:13 | a cell of `np.roll(np.roll(g, i, 0), j, 1)` is the cell i rows and j columns back, indices modulo H and W |
| `Life.Where` | Code/LifeGen.py:17 | `np.where(cond(n), v, s)` picks v where the condition holds and the old cell elsewhere |
| `Life.NeighbourCountsAt` | Code/LifeGen.py:13-14 | the rolled sum at (r, c) equals the sum of the eight cells at offsets (dr, dc) ≠ (0, 0), indices modulo H and W |
| `Life.NeighbourCountRange` | Code/LifeGen.py:11-14 | on a 0/1 grid every neighbour count lies in 0..8 |
| `Life.OneByOneCountsItself` | Code/LifeGen.py:12-14 | on a 1×1 torus all eight offsets land on the cell itself: the count is 8 × the cell, and a lone live cell dies |
| `Life.LifeStepAt` | Code/LifeGen.py:16-21 | the next value is 1 if the count is 3, the old value if it is 2, and 0 otherwise; all from the pre-step grid |
| `Life.LifeStepIsRuleStep` | Code/LifeNoGen.py:9-25 | the rolled-and-overridden step equals the textbook rule applied cell by cell to the wrapped neighbour count |
| `Life.LifeStepAlive` | Code/LifeGen.py:16-21 | on a 0/1 grid a cell is 1 next iff the count is 3, or the cell is alive and the count is 2 |
| `Life.LifeStepBinary` | Code/LifeGen.py:7-23 | a 0/1 grid steps to a 0/1 grid of the same shape |
| `Life.ZerosFixed` | Code/LifeGen.py:17-21 | the all-dead grid of any shape is a fixed point |
| `Life.NeighbourCountRoll` | Code/LifeGen.py:12-14 | the count of a shifted grid at (r, c) is the count of the original at (r − a, c − b) |
| `Life.NeighbourCountWrapped` | Code/LifeGen.py:12-14 | the count is periodic in both coordinates |
| `Life.LifeStepRoll` | Code/LifeGen.py:12-14 | stepping a cyclically shifted grid equals shifting the stepped grid |
| `Life.FlipCell` | Code/LifeNoGen.py:106-108 | `(state[y,x] + 1) % 2` turns 0 into 1 and 1 into 0 and changes no other cell |
| `Life.FlipCellTwice` | Code/LifeNoGen.py:107 | on a 0/1 grid the flip keeps the grid 0/1, and flipping the same cell twice restores the grid |
| `LifeGen.Start` | Code/LifeGen.py:25-29 | the first yield is the initial grid, unstepped, with `paused` false |
| `LifeGen.Receive` | Code/LifeGen.py:29-36 | one received message keeps the grid two-dimensional |
| `LifeGen.AdvanceEffect` | Code/LifeGen.py:30-32 | advance steps the grid unless paused and never changes `paused` |
| `LifeGen.ToggleTwice` | Code/LifeGen.py:33-34 | toggling flips `paused`, keeps the grid, and two toggles restore the state |
| `LifeGen.ReplaceOverridesPause` | Code/LifeGen.py:35-36 | any other value replaces the grid whatever `paused` is and keeps `paused` |
| `LifeGen.Run` | Code/LifeGen.py:28-36 | any sequence of messages keeps the grid two-dimensional |
| `LifeGen.RunAppend` | Code/LifeGen.py:28 | sending ms and then ns is sending ms + ns |
| `LifeGen.PausedAdvances` | Code/LifeGen.py:31 | while paused, any number of advances leaves the state unchanged |
| `LifeGen.RunningAdvances` | Code/LifeGen.py:30-32 | while running, k advances apply the step k times and leave the generator running |
| `LifeGen.Steps` | Code/LifeGen.py:32 | k steps keep the shape |
| `LifeGen.StepsFirst` | Code/LifeGen.py:32 | k steps are one step followed by k − 1 steps |
| `LifeGen.PauseResume` | Code/LifeGen.py:30-34 | pause, any number of advances, resume, advance: the net effect is one step of the grid held before the pause |
| `LifeGen.RunKeepsBinary` | Code/LifeGen.py:28-36 | starting from a 0/1 grid, with only 0/1 replacement grids, every reached grid is 0/1 |
| `LifeGen.LifeGenerator.constructor` | Code/LifeGen.py:25-27 | the generator starts from the initial grid, unpaused |
| `LifeGen.LifeGenerator.Advance` | Code/LifeGen.py:30-32 | `next(life)`: steps the field `state` unless paused, keeps `paused`, yields the new state |
| `LifeGen.LifeGenerator.TogglePause` | Code/LifeGen.py:33-34 | `send('toggle pause')`: flips `paused`, keeps `state`, yields it |
| `LifeGen.LifeGenerator.Replace` | Code/LifeGen.py:35-36 | `send(g)`: sets `state` to g, keeps `paused`, yields g |
| `LifeGen.LifeGenerator.Send` | Code/LifeGen.py:29-36 | any message moves the fields exactly as `Receive` does and yields the new state |
| `LifeGen.LifeGenerator.SendAll` | Code/LifeGen.py:28-36 | sending a sequence of messages moves the fields exactly as `Run` does |
| `LifeNoGen.InteractiveLife.constructor` | Code/LifeNoGen.py:55-59 | the displayed grid is the initial one and `PAUSE` is false |
| `LifeNoGen.InteractiveLife.UpdateImage` | Code/LifeNoGen.py:61-63 | the grid is stepped unless `PAUSE`, which is unchanged; this is the generator's advance |
| `LifeNoGen.InteractiveLife.OnKeyPress` | Code/LifeNoGen.py:72-86 | space flips `PAUSE` and keeps the grid; `l` shows the loaded grid whatever `PAUSE` is and keeps `PAUSE`; other keys change nothing |
| `LifeNoGen.InteractiveLife.OnClick` | Code/LifeNoGen.py:106-108 | the clicked cell is flipped in place, paused or not, and `PAUSE` is kept |
| `LifeNoGen.BlinkerOscillates` | Code/LifeNoGen.py:118-121 | on the 4×5 torus, row 2 columns 1–3 steps to column 2 rows 1–3 and back: period two |
| `Sieve.PrimesUpToContents` | Code/Primes.py:19-21 | the reference result holds exactly the primes p with 2 ≤ p ≤ n, strictly ascending |
| `Sieve.Isqrt` | Code/Primes.py:28 | `int(sqrt(n))` is the s with s² ≤ n < (s + 1)² |
| `Sieve.IsqrtBounds` | Code/CppPrimes.cpp:23 | the tail loop's start (int)sqrt(n) + 1 is at most n + 1, and at least 2 once n ≥ 1 |
| `Sieve.TrueIndicesContents` | Code/Primes.py:36 | the comprehension holds exactly the marked indices from lo to n, strictly ascending |
| `Sieve.SmallFactor` | Code/Primes.py:27 | every number that is not prime has a divisor d ≥ 2 with d² ≤ k |
| `Sieve.NoFactorBelowIsPrime` | Code/Primes.py:26-28 | once b² > k, having no divisor d in [2, b) with d² ≤ k is being prime |
| `Sieve.MarkedRoundIsPrime` | Code/Primes.py:29 | an i still marked at its own turn is prime, and an unmarked one is not |
| `Sieve.RoundInRange` | Code/Primes.py:28-29 | every i the outer loop visits is at most n, so `A[i]` is in bounds |
| `Sieve.SieveRound` | Code/Primes.py:28-33 | the round of i clears exactly the multiples of i from i²; when i is not prime the round changes nothing |
| `Sieve.InitialMarks` | Code/NumpyPrimes.py:8-9 | n + 1 set entries, with entries 0 and 1 set or cleared, are the marks before the first round |
| `Sieve.RoundKeepsMarks` | Code/Primes.py:29-33 | one round, clearing only when `A[i]` is set, takes the marks for i to the marks for i + 1 |
| `Sieve.SieveDone` | Code/Primes.py:27 | once every i ≤ int(sqrt(n)) has had its turn, an entry k ≥ 2 is marked iff k is prime |
| `Sieve.ClearedAreComposite` | Code/Primes.py:30-33 | what the inner loop clears is never prime |
| `Sieve.MarkedArePrimes` | Code/Primes.py:36 | if the entries from lo on say which numbers are prime, the primes below lo followed by the marked indices from lo are all primes up to n |
| `Sieve.NextPrimes` | Code/CppPrimes.cpp:11-13 | appending i exactly when it is still marked extends the primes up to i − 1 to the primes up to i |
| `Sieve.SieveResult` | Code/Primes.py:35-36 | after the outer loop, the primes below lo followed by the marked indices from lo are the primes up to n |
| `Sieve.ClearMultiples` | Code/Primes.py:32-33 | exactly the indices i², i² + i, … ≤ n are cleared; every other entry is unchanged |
| `Primes.SieveOfEratosthenes` | Code/Primes.py:18-36 | the result is exactly the primes from 2 to n, ascending; empty for n < 2 |
| `NumpyPrimes.SieveOfEratosthenesNp` | Code/NumpyPrimes.py:3-18 | the nonzero indices are exactly the primes from 2 to n, ascending |
| `CppPrimes.SieveOfEratosthenes` | Code/CppPrimes.cpp:5-31 | the returned vector is exactly the primes from 2 to n, ascending, for every n ≥ 0 |
| `CppPrimes.SieveUpToRoot` | Code/CppPrimes.cpp:10-19 | the first loop appends exactly the primes up to (int)sqrt(n) and leaves the marks of a finished sieve |
| `CppPrimes.AppendMarked` | Code/CppPrimes.cpp:23-28 | the tail loop appends exactly the marked indices from its start to n, ascending |
| `TimingPrimes.ResultsAgree` | Code/TimingPrimes.py:46-50 | the C++ and NumPy results equal the list version's for every n |

## Left out

- Rendering and animation are not modelled: `game_of_life`, `FuncAnimation`,
  `imshow`, the pause label and the `rcParams` settings are matplotlib UI.
- Saving with `dump` and the file mechanics of `np.load` are not modelled.
  This is file I/O. The `l` key takes the loaded grid as a parameter.
- Mouse handling is not modelled: `event.xdata`, `round` and the `None` checks.
  The click is an in-bounds (row, column) pair. The code itself does no bounds
  check, so numpy would wrap or raise on an out-of-range index.
- No dimension check on a replaced or loaded grid. The code has none; the model
  only requires the replacement to be rectangular, as a numpy array is.
- Aliasing between the displayed image array and the generator's state is not
  modelled. In the click handler of `Code/LifeGen.py` (lines 105-108) the
  flipped array is sent as a replacement grid; the model treats it as a fresh
  value.
- The generator variant's key and click handlers (`Code/LifeGen.py` lines
  76-108) are modelled only as the messages they send
  (`LifeGen.LifeGenerator.Send`).
- Python message typing: the messages are a three-case datatype. Python tells
  them apart by `is None` and `== 'toggle pause'`.
- Grids are unbounded integers. numpy's element dtype is not modelled, and
  neither is the float dtype of `np.zeros` in the demos.
- `int(n)` on a float and the float `sqrt` are not modelled. The sieves take
  n ≥ 0 and use the exact integer square root. A negative n makes the Python
  versions fail in `sqrt` and is outside the model.
- C++ `int` overflow of `i*i` and `j += i` for n near 2³¹ is not modelled.
  Neither is `primes.reserve`, which only sets capacity.
- The C++ first loop is its own method (`CppPrimes.SieveUpToRoot`). The model
  does not inline it into the function body.
- The NumPy slice assignment `A[i**2:n+1:i] = False` is modelled by the same
  element-by-element clearing method as the Python and C++ inner loops
  (`Sieve.ClearMultiples`). Its effect is identical.
- The Cython implementations `CyPrimes` and the C++ wrapper module are not part
  of this model. Neither are the timing code (`timeit`, `subprocess`),
  `CppPrimesSetup.py`, `main` and the `__main__` printing.
- `Soliton.py`, `SolitonSurface.py` and `SolitonAnimation.py` are not
  modelled. They are floating-point transcendental functions and plotting.
