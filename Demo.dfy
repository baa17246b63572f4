/**
 * The demo's two buttons in sequence: "spawn map" generates a maze, then
 * "start" lets the NPC find its way from the start mark to the end mark.
 * Together they show that in every maze at least 5 cells wide or high the
 * NPC finds a shortest walk through the carved cells from (1, 1) to the
 * chosen end, and that in smaller mazes it does not move at all.
 */
module Demo {
  import opened Geometry
  import opened Maze
  import opened NPCController
  import opened Randomness

  /** On a painted maze the cells the search may step onto are exactly the carved cells. */
  lemma PaintedWalkable(gm: GridManager, maze: set<Vector2Int>, ends: set<Vector2Int>)
    requires gm.Painted(maze, ends) && ends <= maze && Start in maze && InsideRing(maze, gm.width, gm.height)
    ensures Walkable(gm) == maze
  {
    forall c | c in maze
      ensures c in Walkable(gm)
    {
      assert gm.grid[c.x, c.y] == gm.CodeAt(Vector2Int(c.x, c.y), maze, ends);
      WalkableTest(gm, c);
    }
    forall c | c in Walkable(gm)
      ensures c in maze
    {
      WalkableTest(gm, c);
      assert gm.grid[c.x, c.y] == gm.CodeAt(Vector2Int(c.x, c.y), maze, ends);
    }
  }

  /** With the end elsewhere, the start scan finds (1, 1): no other cell holds the start mark. */
  lemma StartFound(gm: GridManager, maze: set<Vector2Int>, e: Vector2Int, pos: Vector2Int)
    requires gm.Painted(maze, {e}) && e != Start && gm.InBounds(1, 1)
    requires FirstMark(gm, StartMark, pos) || (NoMark(gm, StartMark) && pos == Zero)
    ensures pos == Start
  {
    assert gm.grid[1, 1] == gm.CodeAt(Vector2Int(1, 1), maze, {e});
    assert !NoMark(gm, StartMark);
    assert gm.grid[pos.x, pos.y] == gm.CodeAt(Vector2Int(pos.x, pos.y), maze, {e});
  }

  /** The end scan finds the marked end: no other cell holds the end mark. */
  lemma EndFound(gm: GridManager, maze: set<Vector2Int>, e: Vector2Int, pos: Vector2Int)
    requires gm.Painted(maze, {e}) && gm.InBounds(e.x, e.y)
    requires FirstMark(gm, EndMark, pos) || (NoMark(gm, EndMark) && pos == Zero)
    ensures pos == e
  {
    assert gm.grid[e.x, e.y] == gm.CodeAt(Vector2Int(e.x, e.y), maze, {e});
    assert !NoMark(gm, EndMark);
    assert gm.grid[pos.x, pos.y] == gm.CodeAt(Vector2Int(pos.x, pos.y), maze, {e});
  }

  /** With the end marked over (1, 1), no cell holds the start mark and the start scan gives zero. */
  lemma StartLost(gm: GridManager, maze: set<Vector2Int>, pos: Vector2Int)
    requires gm.Painted(maze, {Start})
    requires FirstMark(gm, StartMark, pos) || (NoMark(gm, StartMark) && pos == Zero)
    ensures pos == Zero
  {
    forall x, y | 0 <= x < gm.width && 0 <= y < gm.height
      ensures gm.grid[x, y] != StartMark
    {
      assert gm.grid[x, y] == gm.CodeAt(Vector2Int(x, y), maze, {Start});
    }
  }

  /**
   * UI_Manager's "spawn map" then "start": generate a maze, then let the
   * NPC search it. In a maze at least 5 wide or high the NPC gets a path
   * from (1, 1) to the end, and no walk through the carved cells is
   * shorter; otherwise the start mark is gone and the NPC gets none.
   */
  method SpawnThenStart(gm: GridManager, rng: Random)
    returns (endPos: Vector2Int, route: Option<seq<Vector2Int>>)
    requires gm.width >= 3 && gm.height >= 3
    modifies gm, rng
    ensures gm.width >= 5 || gm.height >= 5 ==>
      && endPos != Start
      && route.Some? && Shortest(route.value, gm.carved, Start, endPos)
    ensures gm.width < 5 && gm.height < 5 ==> endPos == Start && route.None?
  {
    ghost var pathEnds, walk;
    endPos, pathEnds, walk := gm.GenerateGrid(rng);
    var startPos, endFound;
    startPos, endFound, route := StartMove(gm);
    EndFound(gm, gm.carved, endPos, endFound);
    if gm.width >= 5 || gm.height >= 5 {
      StartFound(gm, gm.carved, endPos, startPos);
      PaintedWalkable(gm, gm.carved, {endPos});
      assert endPos != Zero;
      assert Route(walk, Walkable(gm), Start, endPos);
    } else {
      StartLost(gm, gm.carved, startPos);
    }
  }
}
