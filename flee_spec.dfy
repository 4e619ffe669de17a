/**
 * Reference definitions for the greedy flee walk of
 * `CalculateFleePathTask.DoAction`: which neighbour one step chooses, and
 * the path a walk of a bounded number of steps produces. The imperative
 * task (module FleeTask) is proved against these.
 */
module FleeSpec {
  import opened Wrappers
  import opened Grid

  /** Largest number of steps in a flee path (the task's `steps`). */
  const Steps: nat := 8

  /** Shortest path the task accepts: `steps / 3` in Java integer division. */
  const Threshold: nat := Steps / 3

  /** The direction value the step uses for "no neighbour to flee to". */
  const Stuck: nat := 8

  predicate NoDuplicates(s: seq<Tile>)
  {
    forall i, j :: 0 <= i < j < |s| ==> s[i] != s[j]
  }

  /** The tile a walk from `start` that has taken `path` stands on. */
  function LastTile(start: Tile, path: seq<Tile>): Tile
  {
    if path == [] then start else path[|path| - 1]
  }

  /** Capacity of the neighbour of `from` in direction `d`; 0 where there is none. */
  function CapacityAt(m: Map, from: Tile, d: Dir): int
  {
    match m.neighbour(from, d)
    case Some(t) => m.capacity(t)
    case None => 0
  }

  /**
   * The neighbour in direction `d` may be chosen: it exists, its capacity is
   * positive (the running maximum starts at 0 and only a strictly larger
   * capacity replaces it) and it is not on the path yet.
   */
  predicate Eligible(m: Map, from: Tile, path: seq<Tile>, d: Dir)
  {
    match m.neighbour(from, d)
    case Some(t) => m.capacity(t) > 0 && t !in path
    case None => false
  }

  /** No direction is eligible: the walk cannot go on from `from`. */
  predicate StuckAt(m: Map, from: Tile, path: seq<Tile>)
  {
    forall d: Dir :: !Eligible(m, from, path, d)
  }

  /**
   * `d` is the direction one greedy step takes: eligible, of capacity at
   * least that of every eligible direction, and of capacity strictly above
   * that of every eligible direction before it (the lowest direction wins a tie).
   */
  predicate IsGreedyChoice(m: Map, from: Tile, path: seq<Tile>, d: Dir)
  {
    && Eligible(m, from, path, d)
    && forall e: Dir :: Eligible(m, from, path, e) ==>
         && CapacityAt(m, from, e) <= CapacityAt(m, from, d)
         && (e < d ==> CapacityAt(m, from, e) < CapacityAt(m, from, d))
  }

  /** The walk may move from `from` to `to` in one greedy step. */
  ghost predicate GreedyMove(m: Map, from: Tile, path: seq<Tile>, to: Tile)
  {
    exists d: Dir :: IsGreedyChoice(m, from, path, d) && m.neighbour(from, d) == Some(to)
  }

  /** The `i`-th tile of a walk from `start` is a greedy move from the tile before it. */
  ghost predicate GreedyStepAt(m: Map, start: Tile, walk: seq<Tile>, i: nat)
    requires i < |walk|
  {
    GreedyMove(m, LastTile(start, walk[..i]), walk[..i], walk[i])
  }

  /**
   * The greedy choice among directions `d`..7, or `Stuck`. Defined from the
   * last direction backwards, keeping the earlier direction when capacities
   * are equal: an independent formulation of the forward scan with a strict
   * comparison that the task performs.
   */
  function BestFrom(m: Map, from: Tile, path: seq<Tile>, d: nat): (r: nat)
    requires d <= 8
    decreases 8 - d
    ensures d <= r <= Stuck
    ensures r < Stuck ==> Eligible(m, from, path, r)
  {
    if d == 8 then Stuck
    else
      var rest := BestFrom(m, from, path, d + 1);
      if Eligible(m, from, path, d) && (rest == Stuck || CapacityAt(m, from, d) >= CapacityAt(m, from, rest))
      then d
      else rest
  }

  /** The scan over directions `d`..7 reports `Stuck` exactly when none of them is eligible. */
  lemma {:induction false} BestFromStuck(m: Map, from: Tile, path: seq<Tile>, d: nat)
    requires d <= 8
    decreases 8 - d
    ensures BestFrom(m, from, path, d) == Stuck <==> forall e: Dir :: d <= e ==> !Eligible(m, from, path, e)
  {
    if d < 8 {
      BestFromStuck(m, from, path, d + 1);
    }
  }

  /**
   * Otherwise it reports the eligible direction of largest capacity among
   * them, and the lowest such direction when several share that capacity.
   */
  lemma {:induction false} BestFromMaximal(m: Map, from: Tile, path: seq<Tile>, d: nat)
    requires d <= 8
    decreases 8 - d
    ensures var r := BestFrom(m, from, path, d);
      r < Stuck ==> forall e: Dir :: d <= e && Eligible(m, from, path, e) ==>
        && CapacityAt(m, from, e) <= CapacityAt(m, from, r)
        && (e < r ==> CapacityAt(m, from, e) < CapacityAt(m, from, r))
  {
    if d < 8 {
      BestFromMaximal(m, from, path, d + 1);
      BestFromStuck(m, from, path, d + 1);
    }
  }

  /** The greedy step is determined: at most one direction is the greedy choice. */
  lemma GreedyChoiceUnique(m: Map, from: Tile, path: seq<Tile>, d1: Dir, d2: Dir)
    requires IsGreedyChoice(m, from, path, d1) && IsGreedyChoice(m, from, path, d2)
    ensures d1 == d2
  {
  }

  /** The whole scan: `Stuck` exactly when no direction is eligible, else the greedy choice. */
  lemma BestIsGreedyChoice(m: Map, from: Tile, path: seq<Tile>)
    ensures BestFrom(m, from, path, 0) == Stuck <==> StuckAt(m, from, path)
    ensures BestFrom(m, from, path, 0) < Stuck ==> IsGreedyChoice(m, from, path, BestFrom(m, from, path, 0))
  {
    BestFromStuck(m, from, path, 0);
    BestFromMaximal(m, from, path, 0);
  }

  /** When not stuck, the scan's direction leads to a greedy move. */
  lemma BestIsGreedyMove(m: Map, from: Tile, path: seq<Tile>)
    requires BestFrom(m, from, path, 0) < Stuck
    ensures GreedyMove(m, from, path, m.neighbour(from, BestFrom(m, from, path, 0)).value)
  {
    var d := BestFrom(m, from, path, 0);
    BestIsGreedyChoice(m, from, path);
    assert IsGreedyChoice(m, from, path, d);
  }

  /**
   * The flee walk: from `cur`, having taken `path`, take at most `n` more
   * greedy steps, stopping early when stuck. The start tile is not on the
   * path, so nothing keeps the walk from stepping back onto it.
   */
  function FleePath(m: Map, cur: Tile, path: seq<Tile>, n: nat): (r: seq<Tile>)
    decreases n
    ensures |path| <= |r| <= |path| + n
    ensures r[..|path|] == path
    ensures NoDuplicates(path) ==> NoDuplicates(r)
  {
    if n == 0 then path
    else
      var d := BestFrom(m, cur, path, 0);
      if d == Stuck then path
      else
        var next := m.neighbour(cur, d).value;
        FleePath(m, next, path + [next], n - 1)
  }

  /** One step of the walk, when it is not stuck. */
  lemma FleePathUnfold(m: Map, cur: Tile, path: seq<Tile>, n: nat)
    requires n > 0 && BestFrom(m, cur, path, 0) != Stuck
    ensures var next := m.neighbour(cur, BestFrom(m, cur, path, 0)).value;
      FleePath(m, cur, path, n) == FleePath(m, next, path + [next], n - 1)
  {
  }

  /** No tile the walk appends was on the path it started from. */
  lemma {:induction false} FleePathAddsOnlyNewTiles(m: Map, cur: Tile, path: seq<Tile>, n: nat)
    ensures var r := FleePath(m, cur, path, n);
      forall i :: |path| <= i < |r| ==> r[i] !in path
    decreases n
  {
    if n > 0 && BestFrom(m, cur, path, 0) != Stuck {
      var next := m.neighbour(cur, BestFrom(m, cur, path, 0)).value;
      FleePathUnfold(m, cur, path, n);
      FleePathAddsOnlyNewTiles(m, next, path + [next], n - 1);
    }
  }

  /**
   * Every tile the walk appends is a greedy move from the tile before it
   * (the start tile for the first), given the path so far.
   */
  lemma {:induction false} FleePathIsGreedy(m: Map, start: Tile, cur: Tile, path: seq<Tile>, n: nat)
    requires cur == LastTile(start, path)
    ensures var r := FleePath(m, cur, path, n);
      forall i :: |path| <= i < |r| ==> GreedyStepAt(m, start, r, i)
    decreases n
  {
    var r := FleePath(m, cur, path, n);
    var d := BestFrom(m, cur, path, 0);
    if n > 0 && d != Stuck {
      var next := m.neighbour(cur, d).value;
      var path' := path + [next];
      FleePathUnfold(m, cur, path, n);
      FleePathIsGreedy(m, start, next, path', n - 1);
      assert r[..|path'|] == path';
      assert r[..|path|] == path by {
        assert r[..|path|] == (r[..|path'|])[..|path|];
      }
      BestIsGreedyMove(m, cur, path);
      assert GreedyStepAt(m, start, r, |path|);
    }
  }

  /** A walk that used fewer than its `n` steps ended because it was stuck where it stands. */
  lemma {:induction false} FleePathStopsOnlyWhenStuck(m: Map, start: Tile, cur: Tile, path: seq<Tile>, n: nat)
    requires cur == LastTile(start, path)
    ensures var r := FleePath(m, cur, path, n);
      |r| < |path| + n ==> StuckAt(m, LastTile(start, r), r)
    decreases n
  {
    var d := BestFrom(m, cur, path, 0);
    BestIsGreedyChoice(m, cur, path);
    if n > 0 && d != Stuck {
      var next := m.neighbour(cur, d).value;
      FleePathStopsOnlyWhenStuck(m, start, next, path + [next], n - 1);
    }
  }

  /** The walk the task intends: from the start tile, no revisits, at most `Steps` tiles, greedy throughout. */
  lemma IntendedFleePath(m: Map, start: Tile)
    ensures var r := FleePath(m, start, [], Steps);
      && NoDuplicates(r)
      && |r| <= Steps
      && (forall i :: 0 <= i < |r| ==> GreedyStepAt(m, start, r, i))
      && (|r| < Steps ==> StuckAt(m, LastTile(start, r), r))
  {
    FleePathIsGreedy(m, start, start, [], Steps);
    FleePathStopsOnlyWhenStuck(m, start, start, [], Steps);
  }
}
