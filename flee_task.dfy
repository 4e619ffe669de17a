/**
 * The flee-path leaf task: its blackboard slot, its owning controller and
 * the task itself, whose `DoAction` plans a flee path with a greedy walk.
 */
module FleeTask {
  import opened Wrappers
  import opened Grid
  import opened FleeSpec

  /** A terminal signal a task sends its controller. */
  datatype Signal = Success | Failure

  /** The blackboard's output slot: the path later tasks follow. */
  class Blackboard {
    var path: seq<Tile>

    constructor (path: seq<Tile>)
      ensures this.path == path
    {
      this.path := path;
    }
  }

  /** The owning controller, reduced to the record of the signals it has received. */
  class Controller {
    var signals: seq<Signal>

    constructor ()
      ensures signals == []
    {
      signals := [];
    }

    method FinishWithSuccess()
      modifies this
      ensures signals == old(signals) + [Success]
    {
      signals := signals + [Success];
    }

    method FinishWithFailure()
      modifies this
      ensures signals == old(signals) + [Failure]
    {
      signals := signals + [Failure];
    }
  }

  /**
   * The step loop's guard. `AsWritten` is the shipped `curSteps > steps`,
   * false at entry, so the loop never runs; `Intended` is `curSteps < steps`,
   * the bound the rest of the method evidently means.
   */
  datatype LoopGuard = AsWritten | Intended

  predicate Continues(guard: LoopGuard, curSteps: int)
  {
    match guard
    case AsWritten => curSteps > Steps
    case Intended => curSteps < Steps
  }

  class CalculateFleePathTask {
    const bb: Blackboard
    const control: Controller

    constructor (bb: Blackboard, control: Controller)
      ensures this.bb == bb && this.control == control
    {
      this.bb := bb;
      this.control := control;
    }

    /** The task has no conditions: it is always ready to act, and changes nothing. */
    method CheckConditions() returns (r: bool)
      ensures r
    {
      r := true;
    }

    /** Whether `tile` is absent from `path`, by a scan that stops at the first identical tile. */
    method NotInPath(tile: Tile, path: seq<Tile>) returns (r: bool)
      ensures r <==> tile !in path
    {
      var found := false;
      var i := 0;
      while i < |path|
        invariant 0 <= i <= |path|
        invariant tile !in path[..i]
      {
        if tile == path[i] {
          found := true;
          break;
        }
        i := i + 1;
      }
      r := !found;
    }

    /**
     * One step of the walk: scan the eight directions in order, keeping the
     * neighbour on no earlier step whose capacity is strictly above the best
     * so far (which starts at 0). Returns that direction, or `Stuck`.
     */
    method GreedyStep(m: Map, cur: Tile, path: seq<Tile>) returns (best: nat)
      ensures best <= Stuck
      ensures best == Stuck <==> StuckAt(m, cur, path)
      ensures best < Stuck ==> IsGreedyChoice(m, cur, path, best)
      ensures best == BestFrom(m, cur, path, 0)
    {
      var maxCapacity := 0;
      best := Stuck;
      for dir := 0 to 8
        invariant best <= Stuck
        invariant best == Stuck ==> maxCapacity == 0 && forall e: Dir :: e < dir ==> !Eligible(m, cur, path, e)
        invariant best < Stuck ==>
          && best < dir
          && Eligible(m, cur, path, best)
          && maxCapacity == CapacityAt(m, cur, best)
          && forall e: Dir :: e < dir && Eligible(m, cur, path, e) ==>
               && CapacityAt(m, cur, e) <= maxCapacity
               && (e < best ==> CapacityAt(m, cur, e) < maxCapacity)
      {
        var neighbor := m.neighbour(cur, dir);
        if neighbor.Some? {
          var neighborCapacity := m.capacity(neighbor.value);
          if neighborCapacity > maxCapacity {
            var notInPath := NotInPath(neighbor.value, path);
            if notInPath {
              best := dir;
              maxCapacity := neighborCapacity;
            }
          }
        }
      }
      BestIsGreedyChoice(m, cur, path);
      if best < Stuck {
        GreedyChoiceUnique(m, cur, path, best, BestFrom(m, cur, path, 0));
      }
    }

    /**
     * The step loop of `DoAction` from a resolved start tile, under either
     * guard. As written it takes no step; as intended it produces the greedy
     * flee walk, which never repeats a tile and has at most `Steps` tiles.
     */
    method Walk(m: Map, start: Tile, guard: LoopGuard) returns (path: seq<Tile>)
      ensures guard == AsWritten ==> path == []
      ensures guard == Intended ==> path == FleePath(m, start, [], Steps)
      ensures guard == Intended ==> NoDuplicates(path) && |path| <= Steps
    {
      var curTile := start;
      path := [];
      var curSteps := 0;
      while Continues(guard, curSteps)
        invariant 0 <= curSteps <= Steps && |path| == curSteps
        invariant guard == AsWritten ==> curSteps == 0 && path == []
        invariant FleePath(m, curTile, path, Steps - curSteps) == FleePath(m, start, [], Steps)
        decreases Steps - curSteps
      {
        var best := GreedyStep(m, curTile, path);
        if best == Stuck {
          break;
        }
        FleePathUnfold(m, curTile, path, Steps - curSteps);
        curTile := m.neighbour(curTile, best).value;
        path := path + [curTile];
        curSteps := curSteps + 1;
      }
    }

    /**
     * The body of `DoAction` under the given loop guard: fail at once when
     * there is no start tile; otherwise walk, then commit the path and
     * report success when it has at least `Threshold` tiles, and report
     * failure, leaving the blackboard alone, when it is shorter.
     */
    method Run(m: Map, start: Option<Tile>, guard: LoopGuard)
      modifies bb, control
      ensures start.None? ==> bb.path == old(bb.path) && control.signals == old(control.signals) + [Failure]
      ensures start.Some? && guard == AsWritten ==>
        bb.path == old(bb.path) && control.signals == old(control.signals) + [Failure]
      ensures start.Some? && guard == Intended ==>
        var path := FleePath(m, start.value, [], Steps);
        if |path| >= Threshold
        then bb.path == path && control.signals == old(control.signals) + [Success]
        else bb.path == old(bb.path) && control.signals == old(control.signals) + [Failure]
    {
      if start.None? {
        control.FinishWithFailure();
        return;
      }
      var path := Walk(m, start.value, guard);
      if |path| < Threshold {
        control.FinishWithFailure();
      } else {
        bb.path := path;
        control.FinishWithSuccess();
      }
    }

    /**
     * `DoAction` as shipped: the inverted loop guard means no step is ever
     * taken, so every call ends in exactly one failure signal and leaves the
     * blackboard's path as it was, whatever the map and start tile.
     */
    method DoAction(m: Map, start: Option<Tile>)
      modifies bb, control
      ensures bb.path == old(bb.path)
      ensures control.signals == old(control.signals) + [Failure]
    {
      Run(m, start, AsWritten);
    }

    /**
     * `DoAction` with the loop bound it evidently intends: exactly one signal
     * per call; the blackboard's path is overwritten with the flee walk and
     * success reported exactly when the walk has at least `Threshold` tiles.
     */
    method DoActionIntended(m: Map, start: Option<Tile>)
      modifies bb, control
      ensures start.None? ==> bb.path == old(bb.path) && control.signals == old(control.signals) + [Failure]
      ensures start.Some? ==>
        var path := FleePath(m, start.value, [], Steps);
        && (|path| >= Threshold ==> bb.path == path && control.signals == old(control.signals) + [Success])
        && (|path| < Threshold ==> bb.path == old(bb.path) && control.signals == old(control.signals) + [Failure])
    {
      Run(m, start, Intended);
    }
  }
}
