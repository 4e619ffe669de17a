# Flee-path planner

A Dafny model of `CalculateFleePathTask`, the behaviour-tree leaf task of the
game's AI that plans an escape route for a player's cursor across the tile
map. `DoAction` resolves the start tile under the cursor and then walks
greedily for at most `steps = 8` steps. Each step moves to the neighbour
(of the eight directions, scanned in order 0..7) with the largest current
capacity that is strictly above the best seen so far. The running best
starts at 0 (line 77), so a neighbour of capacity 0 or below is never
chosen. The first
direction wins a tie. A tile already on the path is skipped. The path does
not contain the start tile, so the walk may step back onto it. A step that
finds nothing stops the walk. Finally the task commits the path to the
blackboard and signals success when it has at least `steps / 3 = 2` tiles.
Otherwise it signals failure and leaves the blackboard alone.

Files and modules:

- `wrappers.dfy` (`Wrappers`): `Option`, standing for a Java reference that may be null.
- `grid.dfy` (`Grid`): the map's query surface. A tile is an opaque id
  compared by identity. A `Map` value holds two total functions:
  `neighbour(tile, dir)` (`Map.GetNeighbour`, `None` for null) and
  `capacity(tile)` (`Tile.GetCurrentCapacity`).
- `flee_spec.dfy` (`FleeSpec`): the reference definitions.
  - `Eligible`, `StuckAt` and `IsGreedyChoice` say which directions one step may take.
  - `BestFrom` is the step's choice. It is defined by backward recursion
    with a non-strict comparison, independently of the task's forward scan
    with a strict one.
  - `FleePath` is the walk of a bounded number of greedy steps.
  - The lemmas characterise both.
- `flee_task.dfy` (`FleeTask`): the imperative task, proved against `FleeSpec`.
  - The `Blackboard` class holds the `path` slot.
  - The `Controller` class records every terminal signal it receives, so
    "exactly one signal per call" becomes "exactly one signal appended".
  - The `CalculateFleePathTask` class holds `CheckConditions`, `NotInPath`,
    the loop body `GreedyStep`, the step loop `Walk`, and `DoAction`.
- `flee_examples.dfy` (`FleeExamples`): two concrete maps worked out in full,
  and a client that runs the shipped and the intended `DoAction` side by side.

The step loop at line 75 reads `for(curSteps = 0; curSteps > this.steps; curSteps++)`.
Its guard is false at entry, so the loop never runs. `Walk` therefore takes
the guard as a parameter: `AsWritten` is the shipped `curSteps > steps` and
`Intended` is `curSteps < steps`. Both share one loop body.

- `DoAction` runs the shipped guard. It is proved to take no step and to
  always fail.
- `DoActionIntended` runs the evident intent, `curSteps < steps`. This is
  the evident intent, not shipped behaviour. The greedy, no-revisit, length
  and threshold properties are proved about it.

## Model

| member | source | states |
|---|---|---|
| `FleeTask.CalculateFleePathTask.CheckConditions` | Code/src/com/game/AI/CalculateFleePathTask.java:46-50 | the task's condition always holds; checking it changes no state |
| `FleeTask.CalculateFleePathTask.NotInPath` | Code/src/com/game/AI/CalculateFleePathTask.java:143-156 | returns true exactly when no element of the path is the given tile (the scan may stop early at the first identical tile) |
| `FleeTask.CalculateFleePathTask.GreedyStep` | Code/src/com/game/AI/CalculateFleePathTask.java:77-100 | the direction scan returns `Stuck` (8) exactly when no neighbour exists with positive capacity off the path; otherwise it returns a direction whose neighbour exists, has positive capacity and is off the path, with capacity at least every other such neighbour's and strictly above every earlier one's; this equals the reference choice `BestFrom` |
| `FleeTask.CalculateFleePathTask.Walk` | Code/src/com/game/AI/CalculateFleePathTask.java:61-106 | with the shipped guard the loop takes no step and the path stays empty; with the intended guard the path is the greedy walk `FleePath` from the start tile, has no repeated tile and at most `steps` tiles |
| `FleeTask.CalculateFleePathTask.Run` | Code/src/com/game/AI/CalculateFleePathTask.java:57-117 | no start tile gives exactly one failure signal and leaves the blackboard untouched; otherwise the blackboard path is overwritten and success signalled iff the walked path has at least `steps / 3` tiles, else one failure signal with the blackboard unchanged |
| `FleeTask.CalculateFleePathTask.DoAction` | Code/src/com/game/AI/CalculateFleePathTask.java:57-117 | as shipped, every call ends in exactly one failure signal and leaves the blackboard path as it was, whatever the map and start tile |
| `FleeTask.CalculateFleePathTask.DoActionIntended` | Code/src/com/game/AI/CalculateFleePathTask.java:57-117 | with the intended loop bound: exactly one signal per call; failure without touching the blackboard when the start tile is missing or the walk is shorter than `steps / 3`; otherwise the walk is committed and success signalled |
| `FleeTask.CalculateFleePathTask.constructor` | Code/src/com/game/AI/CalculateFleePathTask.java:27-30 | the task keeps the blackboard and controller it is given |
| `FleeTask.Controller.FinishWithSuccess` | Code/src/com/game/AI/CalculateFleePathTask.java:116 | the controller records one success signal |
| `FleeTask.Controller.FinishWithFailure` | Code/src/com/game/AI/CalculateFleePathTask.java:71 | the controller records one failure signal |
| `FleeSpec.BestFrom` | Code/src/com/game/AI/CalculateFleePathTask.java:77-93 | the choice among directions `d`..7 lies in `d`..8, and a direction it returns below 8 has a neighbour that exists, has positive capacity and is off the path |
| `FleeSpec.BestFromStuck` | Code/src/com/game/AI/CalculateFleePathTask.java:78-100 | the scan reports the sentinel 8 exactly when no direction in range is eligible |
| `FleeSpec.BestFromMaximal` | Code/src/com/game/AI/CalculateFleePathTask.java:84-91 | a chosen direction's capacity is at least that of every eligible direction in range, and strictly above that of every eligible direction before it (lowest direction wins ties) |
| `FleeSpec.BestIsGreedyChoice` | Code/src/com/game/AI/CalculateFleePathTask.java:77-100 | over all eight directions: stuck iff nothing is eligible, else the greedy choice |
| `FleeSpec.GreedyChoiceUnique` | Code/src/com/game/AI/CalculateFleePathTask.java:86-91 | the greedy choice is unique, so a step is deterministic |
| `FleeSpec.FleePath` | Code/src/com/game/AI/CalculateFleePathTask.java:75-106 | a walk of at most `n` steps extends the path it starts from by at most `n` tiles and preserves the absence of duplicates |
| `FleeSpec.FleePathUnfold` | Code/src/com/game/AI/CalculateFleePathTask.java:101-105 | a step that is not stuck moves to the chosen neighbour and appends it to the path |
| `FleeSpec.FleePathAddsOnlyNewTiles` | Code/src/com/game/AI/CalculateFleePathTask.java:86-104 | no tile the walk appends was already on the path it started from |
| `FleeSpec.FleePathIsGreedy` | Code/src/com/game/AI/CalculateFleePathTask.java:75-106 | every tile the walk appends is a greedy move from the tile before it, given the path so far |
| `FleeSpec.FleePathStopsOnlyWhenStuck` | Code/src/com/game/AI/CalculateFleePathTask.java:95-100 | a walk that ends before its step budget ends where no neighbour is eligible |
| `FleeSpec.IntendedFleePath` | Code/src/com/game/AI/CalculateFleePathTask.java:75-106 | the intended walk from the start tile has no repeated tile and at most 8 tiles; each tile is a greedy move; it stops early only when stuck |
| `FleeExamples.TieGoesToLowestDirection` | Code/src/com/game/AI/CalculateFleePathTask.java:86-91 | with neighbour capacities 0,5,5,2,0,0,0,0 the step takes direction 1; the walk then stops at one tile, below the threshold |
| `FleeExamples.WalkReentersStart` | Code/src/com/game/AI/CalculateFleePathTask.java:86-104 | on two mutually adjacent tiles the walk from tile 0 is [1, 0], stepping back onto the start tile, and meets the threshold |
| `FleeExamples.ShippedVersusIntended` | Code/src/com/game/AI/CalculateFleePathTask.java:75-117 | on that map the shipped task signals failure and the intended one signals success and commits [1, 0] |

## Left out

- `Start`, `End` and every `LogTask` call (lines 48, 59, 70, 98, 124-136): they only log.
- `Map.AtWorld` and the float-to-int conversion of the cursor position (lines 64-66). The resolved start tile is an `Option<Tile>` input.
- The commented-out density term (line 85).
- The `LeafTask` base class and the scheduler that calls the task. `LeafTask` is not part of this model. The controller is reduced to the record of signals it receives.
- Java `int` width. Capacities are only compared, never computed with. The loop counter stays within 0..8. So 32-bit wrap-around cannot arise and capacities are unbounded integers here.
- Sharing of the `Vector`: `bb.path = path` makes the blackboard alias the task's vector. The model copies a sequence, which is the same thing because the task never touches the vector afterwards.
- Concurrent changes of capacities during a walk. The map is a read-only value for one call.
- Code/src/com/game/InputDevice/TouchInputDevice.java (Android event plumbing) and Code/src/com/game/Constants.java (constants only) are not part of this model.
- The shipped loop bound. `DoAction` keeps the guard `curSteps > steps` of line 75. `DoActionIntended` uses `curSteps < steps`, the bound that the threshold check at line 109 presupposes (see ## Findings).
- The debug-name constructor (lines 37-40). The constructor of lines 27-30 is modelled, with the controller passed in to stand for the one `LeafTask` holds as `this.control`.

## Findings

| source | as written | input that shows it | evidently intended | confidence | as-written member | corrected member |
|---|---|---|---|---|---|---|
| Code/src/com/game/AI/CalculateFleePathTask.java:75 | loop guard `curSteps > this.steps` is false at `curSteps = 0`, so no step is taken and every call with a start tile fails | two tiles, each the other's only neighbour, capacity 5, start tile 0: a two-tile path [1, 0] exists, yet the task fails | `curSteps < this.steps`, walking up to 8 steps | high; not executed | `FleeTask.CalculateFleePathTask.DoAction`, `FleeExamples.ShippedVersusIntended` | `FleeTask.CalculateFleePathTask.DoActionIntended` |
