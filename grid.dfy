/**
 * The query surface of the game map that the flee planner consumes.
 * The map itself is not part of this model: only the two queries the
 * planner makes of it, neighbour lookup and current capacity, are kept,
 * as total functions, so that a map is a read-only value for one walk.
 */
module Grid {
  import opened Wrappers

  /** A tile, known only by its identity (Java reference equality). */
  type Tile = nat

  /** One of the eight neighbour directions, enumerated 0..7 in a fixed order. */
  type Dir = d: int | 0 <= d < 8

  /**
   * `neighbour(t, d)` is `Map.GetNeighbour(t, d)`: `None` where the map has no
   * tile in that direction (the Java null). `capacity(t)` is `t.GetCurrentCapacity()`.
   */
  datatype Map = Map(neighbour: (Tile, Dir) -> Option<Tile>, capacity: Tile -> int)
}
