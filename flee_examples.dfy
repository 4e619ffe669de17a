/** Concrete maps on which the flee walk is worked out in full. */
module FleeExamples {
  import opened Wrappers
  import opened Grid
  import opened FleeSpec
  import opened FleeTask

  /**
   * Tile 0's neighbour in direction d is tile d + 1, of capacity
   * 0, 5, 5, 2, 0, 0, 0, 0 in direction order; no other tile has neighbours.
   */
  function TieMap(): Map
  {
    Map(
      (t: Tile, d: Dir) => if t == 0 then Some(d + 1) else None,
      (t: Tile) => if t == 2 || t == 3 then 5 else if t == 4 then 2 else 0)
  }

  /**
   * On TieMap the first step takes direction 1, the first of the two
   * directions of largest capacity, and the walk then stops at one tile,
   * short of the acceptance threshold.
   */
  lemma TieGoesToLowestDirection()
    ensures BestFrom(TieMap(), 0, [], 0) == 1
    ensures FleePath(TieMap(), 0, [], Steps) == [2]
    ensures |FleePath(TieMap(), 0, [], Steps)| < Threshold
  {
  }

  /** Two tiles, each the other's only neighbour (in direction 0), both of capacity 5. */
  function TwoTileMap(): Map
  {
    Map(
      (t: Tile, d: Dir) => if d == 0 then Some(if t == 0 then 1 else 0) else None,
      (t: Tile) => 5)
  }

  /**
   * On TwoTileMap the walk from tile 0 goes to tile 1 and back onto the
   * start tile, which the visited check never excludes, and is then stuck:
   * a path of two tiles, which meets the acceptance threshold.
   */
  lemma WalkReentersStart()
    ensures FleePath(TwoTileMap(), 0, [], Steps) == [1, 0]
    ensures |FleePath(TwoTileMap(), 0, [], Steps)| >= Threshold
  {
  }

  /**
   * On TwoTileMap with start tile 0, the shipped `DoAction` reports failure
   * and leaves the blackboard's path empty, while the intended version
   * commits the path [1, 0] and reports success.
   */
  method ShippedVersusIntended() returns (shipped: seq<Signal>, intended: seq<Signal>, committed: seq<Tile>)
    ensures shipped == [Failure] && intended == [Success]
    ensures committed == [1, 0]
  {
    WalkReentersStart();
    var board := new Blackboard([]);
    var control := new Controller();
    var task := new CalculateFleePathTask(board, control);
    task.DoAction(TwoTileMap(), Some(0));
    shipped := control.signals;
    assert board.path == [];
    var control' := new Controller();
    var task' := new CalculateFleePathTask(board, control');
    task'.DoActionIntended(TwoTileMap(), Some(0));
    intended := control'.signals;
    committed := board.path;
  }
}
