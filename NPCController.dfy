/**
 * The path finder of the demo's NPC: A* over 4-neighbour unit-cost moves on
 * the maze grid, from the cell marked 2 to the cell marked 3, with the
 * Manhattan distance as heuristic. The grid manager is passed explicitly.
 */
module NPCController {
  import opened Geometry
  import opened Lists
  import opened Maze

  datatype Option<T> = None | Some(value: T)

  /** Lines 145-148: the Manhattan distance, zero exactly on the goal. */
  function Heuristic(a: Vector2Int, b: Vector2Int): (h: nat)
    ensures h == 0 <==> a == b
  {
    Manhattan(a, b)
  }

  /** One move changes the heuristic by at most one: it is consistent. */
  lemma HeuristicConsistent(a: Vector2Int, b: Vector2Int, goal: Vector2Int)
    requires Adjacent(a, b)
    ensures Heuristic(a, goal) <= Heuristic(b, goal) + 1
  {
  }

  /** The heuristic never overestimates: from any cell of a walk, the rest of the walk is at least as long. */
  lemma {:induction false} HeuristicAdmissible(p: seq<Vector2Int>, j: int)
    requires |p| > 0 && 0 <= j < |p|
    requires forall k | 0 <= k < |p| - 1 :: Adjacent(p[k], p[k + 1])
    ensures Heuristic(p[j], p[|p| - 1]) <= |p| - 1 - j
    decreases |p| - j
  {
    if j < |p| - 1 {
      HeuristicAdmissible(p, j + 1);
      HeuristicConsistent(p[j], p[j + 1], p[|p| - 1]);
    }
  }

  /** Lines 140-143: a cell of the grid, ring included. */
  function IsValidPosition(gm: GridManager, pos: Vector2Int): (valid: bool)
    ensures valid <==> gm.InBounds(pos.x, pos.y)
  {
    pos.x >= 0 && pos.x < gm.width && pos.y >= 0 && pos.y < gm.height
  }

  /** The cells the search may step onto (line 123): in the grid and not a wall. */
  ghost function Walkable(gm: GridManager): (walk: set<Vector2Int>)
    requires gm.Shaped()
    reads gm, gm.grid
  {
    set i, j | 0 <= i < gm.width && 0 <= j < gm.height && gm.grid[i, j] != Wall :: Vector2Int(i, j)
  }

  /** Membership in `Walkable` is the test of line 123. */
  lemma WalkableTest(gm: GridManager, c: Vector2Int)
    requires gm.Shaped()
    ensures c in Walkable(gm) <==> IsValidPosition(gm, c) && gm.GetGridValue(c.x, c.y) != Wall
  {
    if IsValidPosition(gm, c) && gm.GetGridValue(c.x, c.y) != Wall {
      assert c == Vector2Int(c.x, c.y);
    }
  }

  /** The start and end marks are not walls, so the search steps onto them like passages. */
  lemma MarksWalkable(gm: GridManager, c: Vector2Int)
    requires gm.Shaped() && gm.InBounds(c.x, c.y)
    requires gm.grid[c.x, c.y] == StartMark || gm.grid[c.x, c.y] == EndMark
    ensures c in Walkable(gm)
  {
    WalkableTest(gm, c);
  }

  /** The four collections of FindPath: the open list and the cameFrom, gScore and fScore dictionaries. */
  datatype Search = Search(openSet: seq<Vector2Int>, cameFrom: map<Vector2Int, Vector2Int>,
                           gScore: map<Vector2Int, nat>, fScore: map<Vector2Int, nat>)

  /** The walkable neighbour of `v` in direction `i`, if any, scores at most one more than `v`. */
  ghost predicate RelaxedAlong(walk: set<Vector2Int>, g: map<Vector2Int, nat>, v: Vector2Int, i: int)
    requires 0 <= i < 4 && v in g
  {
    var w := Neighbour(v, i);
    w in walk ==> w in g && g[w] <= g[v] + 1
  }

  /** Every walkable neighbour of `v` scores at most one more than `v`: `v` has been expanded with its score. */
  ghost predicate Closed(walk: set<Vector2Int>, g: map<Vector2Int, nat>, v: Vector2Int)
    requires v in g
  {
    forall i | 0 <= i < 4 :: RelaxedAlong(walk, g, v, i)
  }

  /**
   * The bookkeeping of the search: `start` scores 0 and has no predecessor;
   * every scored cell is `start` or walkable; `cameFrom` links every other
   * scored cell to an adjacent scored cell of lower score (a tree rooted at
   * `start`); fScore is gScore plus the heuristic; the open list holds
   * scored cells, each once.
   */
  ghost predicate SearchShape(walk: set<Vector2Int>, start: Vector2Int, end: Vector2Int, s: Search)
  {
    && start in s.gScore && s.gScore[start] == 0 && start !in s.cameFrom
    && (forall n | n in s.gScore :: n == start || n in walk)
    && TreeOver(s.gScore.Keys, s.cameFrom, s.gScore, start)
    && (forall n | n in s.cameFrom :: n in s.gScore)
    && (forall n | n in s.gScore :: n in s.fScore && s.fScore[n] == s.gScore[n] + Heuristic(n, end))
    && (forall k | 0 <= k < |s.openSet| :: s.openSet[k] in s.gScore)
    && Distinct(s.openSet)
  }

  /**
   * The invariant of the main loop: the bookkeeping, every scored cell off
   * the open list is `Closed`, and the end, once scored, is open (it leaves
   * the list only by being returned).
   */
  ghost predicate SearchInv(walk: set<Vector2Int>, start: Vector2Int, end: Vector2Int, s: Search)
  {
    && SearchShape(walk, start, end, s)
    && (forall v {:trigger Closed(walk, s.gScore, v)} | v in s.gScore && v !in s.openSet :: Closed(walk, s.gScore, v))
    && (end in s.gScore ==> end in s.openSet)
  }

  /**
   * The invariant of the neighbour loop over `current`, after the first `i`
   * directions: as `SearchInv`, except that `current`, taken off the open
   * list, is relaxed only along those directions.
   */
  ghost predicate Expanding(walk: set<Vector2Int>, start: Vector2Int, end: Vector2Int, current: Vector2Int,
                            s: Search, i: int)
    requires 0 <= i <= 4
  {
    && SearchShape(walk, start, end, s)
    && current in s.gScore && current != end
    && (forall v {:trigger Closed(walk, s.gScore, v)} | v in s.gScore && v !in s.openSet && v != current ::
          Closed(walk, s.gScore, v))
    && (forall k | 0 <= k < i :: RelaxedAlong(walk, s.gScore, current, k))
    && (end in s.gScore ==> end in s.openSet)
  }

  /** The sum of the scores over `cells` (unscored cells count 0): what an improvement lowers. */
  ghost function Total(g: map<Vector2Int, nat>, cells: set<Vector2Int>): (sum: nat)
  {
    if cells == {} then 0
    else
      var c :| c in cells;
      (if c in g then g[c] else 0) + Total(g, cells - {c})
  }

  /** Any cell of `cells` can be taken out of the total first. */
  lemma {:induction false} TotalRemove(g: map<Vector2Int, nat>, cells: set<Vector2Int>, y: Vector2Int)
    requires y in cells
    ensures Total(g, cells) == (if y in g then g[y] else 0) + Total(g, cells - {y})
    decreases cells
  {
    var x :| x in cells && Total(g, cells) == (if x in g then g[x] else 0) + Total(g, cells - {x});
    if x != y {
      TotalRemove(g, cells - {x}, y);
      TotalRemove(g, cells - {y}, x);
      assert cells - {x} - {y} == cells - {y} - {x};
    }
  }

  /** Scores that agree on `cells` have the same total. */
  lemma {:induction false} TotalAgree(g: map<Vector2Int, nat>, g': map<Vector2Int, nat>, cells: set<Vector2Int>)
    requires forall c | c in cells :: (c in g <==> c in g') && (c in g ==> g[c] == g'[c])
    ensures Total(g, cells) == Total(g', cells)
    decreases cells
  {
    if cells != {} {
      var c :| c in cells;
      TotalRemove(g, cells, c);
      TotalRemove(g', cells, c);
      TotalAgree(g, g', cells - {c});
    }
  }

  /** Lowering one score lowers the total. */
  lemma TotalLower(g: map<Vector2Int, nat>, cells: set<Vector2Int>, w: Vector2Int, t: nat)
    requires w in g && w in cells && t < g[w]
    ensures Total(g[w := t], cells) < Total(g, cells)
  {
    TotalRemove(g, cells, w);
    TotalRemove(g[w := t], cells, w);
    TotalAgree(g, g[w := t], cells - {w});
  }

  /** Adding a scored cell inside `area` shrinks the unscored part of `area`. */
  lemma MeasureDrops(area: set<Vector2Int>, keys0: set<Vector2Int>, keys: set<Vector2Int>)
    requires keys0 <= keys <= area && keys != keys0
    ensures area - keys < area - keys0
  {
    var w :| w in keys && w !in keys0;
    assert w in area - keys0 && w !in area - keys;
  }

  /**
   * The measure of the neighbour loop against the state `s0` it started
   * from: scored cells are only added, and when none was added either
   * nothing changed or the total score went down.
   */
  ghost predicate Progress(area: set<Vector2Int>, s0: Search, s: Search)
  {
    && s0.gScore.Keys <= s.gScore.Keys
    && (s.gScore.Keys == s0.gScore.Keys ==>
          (s.gScore == s0.gScore && s.openSet == s0.openSet) || Total(s.gScore, area) < Total(s0.gScore, area))
  }

  /** The neighbour loop's state after `i` directions, measured against its start `s0`. */
  ghost predicate Stepped(walk: set<Vector2Int>, area: set<Vector2Int>, start: Vector2Int, end: Vector2Int,
                          current: Vector2Int, s0: Search, s: Search, i: int)
    requires 0 <= i <= 4
  {
    Expanding(walk, start, end, current, s, i) && Progress(area, s0, s)
  }

  /** Lines 127-132: the search after `w` is reached through `current`, one step further than `current`'s score. */
  function Improve(s: Search, current: Vector2Int, w: Vector2Int, end: Vector2Int): (next: Search)
    requires current in s.gScore
  {
    var t := s.gScore[current] + 1;
    Search(if w in s.openSet then s.openSet else s.openSet + [w], s.cameFrom[w := current],
           s.gScore[w := t], s.fScore[w := t + Heuristic(w, end)])
  }

  /** Improving a walkable neighbour keeps the bookkeeping. */
  lemma ImproveShape(walk: set<Vector2Int>, start: Vector2Int, end: Vector2Int, current: Vector2Int,
                     s: Search, i: int)
    requires 0 <= i < 4 && SearchShape(walk, start, end, s) && current in s.gScore
    requires Neighbour(current, i) in walk
    requires Neighbour(current, i) !in s.gScore || s.gScore[current] + 1 < s.gScore[Neighbour(current, i)]
    ensures SearchShape(walk, start, end, Improve(s, current, Neighbour(current, i), end))
  {
    var w := Neighbour(current, i);
    var t := s.gScore[current] + 1;
    var next := Improve(s, current, w, end);
    NeighbourIsAdjacent(current, i);
    assert w != start;
    TreeRelink(s.gScore.Keys, s.cameFrom, s.gScore, start, w, current, t);
    assert next.gScore.Keys == s.gScore.Keys + {w};
    forall k | 0 <= k < |next.openSet|
      ensures next.openSet[k] in next.gScore
    {
      if k < |s.openSet| {
        assert next.openSet[k] == s.openSet[k];
      }
    }
  }

  /** Improving a neighbour only lowers scores, so closed cells stay closed and `current` is relaxed one direction further. */
  lemma ImproveClosed(walk: set<Vector2Int>, start: Vector2Int, end: Vector2Int, current: Vector2Int,
                      s: Search, i: int)
    requires 0 <= i < 4 && Expanding(walk, start, end, current, s, i)
    requires Neighbour(current, i) in walk
    requires Neighbour(current, i) !in s.gScore || s.gScore[current] + 1 < s.gScore[Neighbour(current, i)]
    ensures var next := Improve(s, current, Neighbour(current, i), end);
      && (forall v {:trigger Closed(walk, next.gScore, v)} | v in next.gScore && v !in next.openSet && v != current ::
            Closed(walk, next.gScore, v))
      && (forall k | 0 <= k <= i :: RelaxedAlong(walk, next.gScore, current, k))
      && (end in next.gScore ==> end in next.openSet)
  {
    var w := Neighbour(current, i);
    var next := Improve(s, current, w, end);
    forall v | v in next.gScore && v !in next.openSet && v != current
      ensures Closed(walk, next.gScore, v)
    {
      assert v != w && v in s.gScore && v !in s.openSet;
      assert Closed(walk, s.gScore, v);
      forall j | 0 <= j < 4
        ensures RelaxedAlong(walk, next.gScore, v, j)
      {
        assert RelaxedAlong(walk, s.gScore, v, j);
      }
    }
    forall k | 0 <= k <= i
      ensures RelaxedAlong(walk, next.gScore, current, k)
    {
      if k < i {
        assert RelaxedAlong(walk, s.gScore, current, k);
      }
    }
  }

  /** Lines 125-132: the neighbour in direction `i` gets a better score through `current`; `next` is the updated search. */
  lemma Relax(walk: set<Vector2Int>, area: set<Vector2Int>, start: Vector2Int, end: Vector2Int,
              current: Vector2Int, s0: Search, s: Search, i: int, next: Search)
    requires 0 <= i < 4 && Stepped(walk, area, start, end, current, s0, s, i)
    requires area == walk + {start}
    requires Neighbour(current, i) in walk
    requires Neighbour(current, i) !in s.gScore || s.gScore[current] + 1 < s.gScore[Neighbour(current, i)]
    requires next == Improve(s, current, Neighbour(current, i), end)
    ensures Stepped(walk, area, start, end, current, s0, next, i + 1)
  {
    var w := Neighbour(current, i);
    ImproveShape(walk, start, end, current, s, i);
    ImproveClosed(walk, start, end, current, s, i);
    if w in s.gScore {
      TotalLower(s.gScore, area, w, s.gScore[current] + 1);
    }
  }

  /** Lines 123-126: the neighbour in direction `i` is not walkable, or scores no worse already: nothing changes. */
  lemma Skip(walk: set<Vector2Int>, area: set<Vector2Int>, start: Vector2Int, end: Vector2Int,
             current: Vector2Int, s0: Search, s: Search, i: int)
    requires 0 <= i < 4 && Stepped(walk, area, start, end, current, s0, s, i)
    requires Neighbour(current, i) in walk ==>
      Neighbour(current, i) in s.gScore && s.gScore[Neighbour(current, i)] <= s.gScore[current] + 1
    ensures Stepped(walk, area, start, end, current, s0, s, i + 1)
  {
  }

  /** Lines 117-134: score and open the walkable neighbours of `current` that it reaches more cheaply. */
  method ExpandNeighbours(gm: GridManager, current: Vector2Int, end: Vector2Int, openSet: seq<Vector2Int>,
                          cameFrom: map<Vector2Int, Vector2Int>, gScore: map<Vector2Int, nat>,
                          fScore: map<Vector2Int, nat>, ghost walk: set<Vector2Int>, ghost area: set<Vector2Int>,
                          ghost start: Vector2Int)
    returns (openSet': seq<Vector2Int>, cameFrom': map<Vector2Int, Vector2Int>, gScore': map<Vector2Int, nat>,
             fScore': map<Vector2Int, nat>)
    requires gm.Shaped() && walk == Walkable(gm) && area == walk + {start}
    requires Expanding(walk, start, end, current, Search(openSet, cameFrom, gScore, fScore), 0)
    ensures SearchInv(walk, start, end, Search(openSet', cameFrom', gScore', fScore'))
    ensures Progress(area, Search(openSet, cameFrom, gScore, fScore), Search(openSet', cameFrom', gScore', fScore'))
  {
    ghost var s0 := Search(openSet, cameFrom, gScore, fScore);
    openSet', cameFrom', gScore', fScore' := openSet, cameFrom, gScore, fScore;
    for i := 0 to 4
      invariant Stepped(walk, area, start, end, current, s0, Search(openSet', cameFrom', gScore', fScore'), i)
    {
      openSet', cameFrom', gScore', fScore' :=
        TryNeighbour(gm, current, end, i, openSet', cameFrom', gScore', fScore', walk, area, start, s0);
    }
    EndExpand(walk, start, end, current, Search(openSet', cameFrom', gScore', fScore'));
  }

  /** Lines 121-133: the neighbour of `current` in direction `i`, scored and opened if walkable and reached more cheaply. */
  method TryNeighbour(gm: GridManager, current: Vector2Int, end: Vector2Int, i: int, openSet: seq<Vector2Int>,
                      cameFrom: map<Vector2Int, Vector2Int>, gScore: map<Vector2Int, nat>,
                      fScore: map<Vector2Int, nat>, ghost walk: set<Vector2Int>, ghost area: set<Vector2Int>,
                      ghost start: Vector2Int, ghost s0: Search)
    returns (openSet': seq<Vector2Int>, cameFrom': map<Vector2Int, Vector2Int>, gScore': map<Vector2Int, nat>,
             fScore': map<Vector2Int, nat>)
    requires gm.Shaped() && walk == Walkable(gm) && area == walk + {start} && 0 <= i < 4
    requires Stepped(walk, area, start, end, current, s0, Search(openSet, cameFrom, gScore, fScore), i)
    ensures Stepped(walk, area, start, end, current, s0, Search(openSet', cameFrom', gScore', fScore'), i + 1)
  {
    openSet', cameFrom', gScore', fScore' := openSet, cameFrom, gScore, fScore;
    var neighbor := Vector2Int(current.x + Dx[i], current.y + Dy[i]);
    assert neighbor == Neighbour(current, i);
    WalkableTest(gm, neighbor);
    if IsValidPosition(gm, neighbor) && gm.GetGridValue(neighbor.x, neighbor.y) != Wall {
      var tentativeGScore := gScore[current] + 1;
      if neighbor !in gScore || tentativeGScore < gScore[neighbor] {
        cameFrom' := cameFrom[neighbor := current];
        gScore' := gScore[neighbor := tentativeGScore];
        fScore' := fScore[neighbor := gScore'[neighbor] + Heuristic(neighbor, end)];
        if neighbor !in openSet {
          openSet' := openSet + [neighbor];
        }
        Relax(walk, area, start, end, current, s0, Search(openSet, cameFrom, gScore, fScore), i,
              Search(openSet', cameFrom', gScore', fScore'));
      } else {
        Skip(walk, area, start, end, current, s0, Search(openSet, cameFrom, gScore, fScore), i);
      }
    } else {
      Skip(walk, area, start, end, current, s0, Search(openSet, cameFrom, gScore, fScore), i);
    }
  }

  /** After all four directions, `current` is closed and the main loop's invariant is back. */
  lemma EndExpand(walk: set<Vector2Int>, start: Vector2Int, end: Vector2Int, current: Vector2Int, s: Search)
    requires Expanding(walk, start, end, current, s, 4)
    ensures SearchInv(walk, start, end, s)
  {
    forall v | v in s.gScore && v !in s.openSet
      ensures Closed(walk, s.gScore, v)
    {
      if v == current {
        assert forall k | 0 <= k < 4 :: RelaxedAlong(walk, s.gScore, current, k);
      }
    }
  }

  /**
   * Lines 150-159: the first cell of the open list with the lowest fScore
   * (the comparison is strict, so ties keep the earlier cell).
   */
  method GetLowestFScore(openSet: seq<Vector2Int>, fScore: map<Vector2Int, nat>) returns (lowest: Vector2Int)
    requires |openSet| > 0 && forall k | 0 <= k < |openSet| :: openSet[k] in fScore
    ensures lowest in openSet && lowest in fScore
    ensures forall k | 0 <= k < |openSet| :: fScore[lowest] <= fScore[openSet[k]]
    ensures exists k | 0 <= k < |openSet| ::
      && openSet[k] == lowest
      && forall j | 0 <= j < k :: fScore[lowest] < fScore[openSet[j]]
  {
    lowest := openSet[0];
    ghost var at := 0;
    for k := 0 to |openSet|
      invariant 0 <= at < |openSet| && openSet[at] == lowest
      invariant forall j | 0 <= j < k :: fScore[lowest] <= fScore[openSet[j]]
      invariant forall j | 0 <= j < at :: fScore[lowest] < fScore[openSet[j]]
    {
      var pos := openSet[k];
      if fScore[pos] < fScore[lowest] {
        lowest := pos;
        at := k;
      }
    }
  }

  /** `cameFrom` only leads from scored cells to scored cells of lower score. */
  ghost predicate Descending(cameFrom: map<Vector2Int, Vector2Int>, g: map<Vector2Int, nat>)
  {
    forall n | n in cameFrom :: n in g && cameFrom[n] in g && g[cameFrom[n]] < g[n]
  }

  /** `a` is the predecessor recorded for `b`. */
  ghost predicate LinkedBy(cameFrom: map<Vector2Int, Vector2Int>, a: Vector2Int, b: Vector2Int)
  {
    b in cameFrom && cameFrom[b] == a
  }

  /**
   * Lines 161-172: follow `cameFrom` back from `current` to a cell without
   * a predecessor, then reverse. The result runs from that cell to
   * `current`, each cell the predecessor of the next, and has at most one
   * cell per unit of score between its ends. `gScore` is ghost: the scores
   * only show that the walk back ends.
   */
  method ReconstructPath(cameFrom: map<Vector2Int, Vector2Int>, current: Vector2Int, ghost gScore: map<Vector2Int, nat>)
    returns (path: seq<Vector2Int>)
    requires Descending(cameFrom, gScore) && current in gScore
    ensures |path| > 0 && path[|path| - 1] == current && path[0] !in cameFrom
    ensures forall k | 0 <= k < |path| - 1 :: LinkedBy(cameFrom, path[k], path[k + 1])
    ensures forall k | 0 <= k < |path| :: path[k] in gScore
    ensures |path| - 1 + gScore[path[0]] <= gScore[current]
  {
    var back := [current];
    var cell := current;
    while cell in cameFrom
      invariant |back| > 0 && back[0] == current && back[|back| - 1] == cell && cell in gScore
      invariant forall k | 0 <= k < |back| - 1 :: LinkedBy(cameFrom, back[k + 1], back[k])
      invariant forall k | 0 <= k < |back| :: back[k] in gScore
      invariant |back| - 1 + gScore[cell] <= gScore[current]
      decreases gScore[cell]
    {
      cell := cameFrom[cell];
      back := back + [cell];
    }
    var a := new Vector2Int[|back|](k requires 0 <= k < |back| => back[k]);
    ReverseInPlace(a);
    path := a[..];
    forall k | 0 <= k < |path| - 1
      ensures LinkedBy(cameFrom, path[k], path[k + 1])
    {
      assert path[k + 1] == back[|back| - 2 - k] && path[k] == back[|back| - 1 - k];
    }
  }

  /** The bookkeeping makes `cameFrom` descend in gScore, and `start` is the only scored cell without a predecessor. */
  lemma ShapeDescends(walk: set<Vector2Int>, start: Vector2Int, end: Vector2Int, s: Search)
    requires SearchShape(walk, start, end, s)
    ensures Descending(s.cameFrom, s.gScore)
    ensures forall n | n in s.gScore && n !in s.cameFrom :: n == start
  {
    forall n | n in s.cameFrom
      ensures s.cameFrom[n] in s.gScore && s.gScore[s.cameFrom[n]] < s.gScore[n]
    {
      assert HasParentIn(s.gScore.Keys, s.cameFrom, s.gScore, n);
    }
    forall n | n in s.gScore && n != start
      ensures n in s.cameFrom
    {
      assert HasParentIn(s.gScore.Keys, s.cameFrom, s.gScore, n);
    }
  }

  /**
   * Along any walk from `start`, up to position `n`: some cell at or
   * before `n` is open with a score at most its position, or the cell at
   * `n` is scored at most `n` (and closed, when `j == n` is not open).
   * The returned `j` is that cell's position.
   */
  lemma {:induction false} Frontier(walk: set<Vector2Int>, start: Vector2Int, end: Vector2Int, s: Search,
                                    p: seq<Vector2Int>, n: int) returns (j: int)
    requires SearchInv(walk, start, end, s)
    requires IsPathIn(p, walk + {start}) && p[0] == start && 0 <= n < |p|
    ensures 0 <= j <= n && p[j] in s.gScore && s.gScore[p[j]] <= j
    ensures p[j] in s.openSet || j == n
    decreases n
  {
    if n == 0 {
      j := 0;
    } else {
      j := Frontier(walk, start, end, s, p, n - 1);
      if p[j] !in s.openSet {
        var v := p[n - 1];
        assert Closed(walk, s.gScore, v);
        assert Adjacent(p[n - 1], p[n]) && p[n] in walk + {start};
        var i := DirectionTo(v, p[n]);
        assert RelaxedAlong(walk, s.gScore, v, i);
        j := n;
      }
    }
  }

  /**
   * Lines 113-114: when the end is selected it has the lowest fScore, and
   * any walk to it has an open cell whose fScore bounds the walk's length;
   * so the path back, no longer than the end's score, is a shortest route.
   */
  lemma FoundIsShortest(walk: set<Vector2Int>, start: Vector2Int, end: Vector2Int, s: Search,
                        path: seq<Vector2Int>)
    requires SearchInv(walk, start, end, s) && end in s.openSet
    requires forall k | 0 <= k < |s.openSet| :: s.fScore[end] <= s.fScore[s.openSet[k]]
    requires |path| > 0 && path[|path| - 1] == end && path[0] !in s.cameFrom
    requires forall k | 0 <= k < |path| - 1 :: LinkedBy(s.cameFrom, path[k], path[k + 1])
    requires forall k | 0 <= k < |path| :: path[k] in s.gScore
    requires |path| - 1 + s.gScore[path[0]] <= s.gScore[end]
    ensures Shortest(path, walk, start, end)
  {
    ShapeDescends(walk, start, end, s);
    assert path[0] == start;
    forall k | 0 <= k < |path| - 1
      ensures Adjacent(path[k], path[k + 1])
    {
      assert LinkedBy(s.cameFrom, path[k], path[k + 1]) && path[k + 1] in s.gScore;
      assert HasParentIn(s.gScore.Keys, s.cameFrom, s.gScore, path[k + 1]);
    }
    forall k | 0 <= k < |path|
      ensures path[k] in walk + {start}
    {
      assert path[k] in s.gScore;
    }
    forall p | Route(p, walk, start, end)
      ensures |path| <= |p|
    {
      var j := Frontier(walk, start, end, s, p, |p| - 1);
      var m :| 0 <= m < |s.openSet| && s.openSet[m] == p[j];
      HeuristicAdmissible(p, j);
      assert s.fScore[end] <= s.fScore[p[j]];
    }
  }

  /** Line 137: once the open list is empty, no walk from `start` reaches the end. */
  lemma NoRouteLeft(walk: set<Vector2Int>, start: Vector2Int, end: Vector2Int, s: Search)
    requires SearchInv(walk, start, end, s) && s.openSet == []
    ensures forall p | IsPathIn(p, walk + {start}) && p[0] == start :: p[|p| - 1] != end
  {
    forall p | IsPathIn(p, walk + {start}) && p[0] == start
      ensures p[|p| - 1] != end
    {
      var j := Frontier(walk, start, end, s, p, |p| - 1);
    }
  }

  /** Taking `current`, not the end, off the open list starts its expansion. */
  lemma BeginExpand(walk: set<Vector2Int>, start: Vector2Int, end: Vector2Int, s: Search, current: Vector2Int)
    requires SearchInv(walk, start, end, s) && current in s.openSet && current != end
    ensures Expanding(walk, start, end, current,
                      Search(RemoveFirst(s.openSet, current), s.cameFrom, s.gScore, s.fScore), 0)
  {
    RemoveDistinct(s.openSet, current);
    var s' := Search(RemoveFirst(s.openSet, current), s.cameFrom, s.gScore, s.fScore);
    forall k | 0 <= k < |s'.openSet|
      ensures s'.openSet[k] in s'.gScore
    {
      assert s'.openSet[k] in s.openSet;
    }
    forall v | v in s'.gScore && v !in s'.openSet && v != current
      ensures Closed(walk, s'.gScore, v)
    {
      assert v !in s.openSet;
      assert Closed(walk, s.gScore, v);
    }
  }

  /**
   * One round of the main loop lowers its measure: the cells of `area` not
   * yet scored, then the total score over `area`, then the length of the
   * open list, in that order.
   */
  lemma LoopMeasure(walk: set<Vector2Int>, area: set<Vector2Int>, start: Vector2Int, end: Vector2Int,
                    s: Search, current: Vector2Int, s': Search)
    requires area == walk + {start} && current in s.openSet && Distinct(s.openSet)
    requires SearchShape(walk, start, end, s')
    requires Progress(area, Search(RemoveFirst(s.openSet, current), s.cameFrom, s.gScore, s.fScore), s')
    ensures || area - s'.gScore.Keys < area - s.gScore.Keys
            || (&& area - s'.gScore.Keys == area - s.gScore.Keys
                && (|| Total(s'.gScore, area) < Total(s.gScore, area)
                    || (Total(s'.gScore, area) == Total(s.gScore, area) && |s'.openSet| < |s.openSet|)))
  {
    RemoveDistinct(s.openSet, current);
    if s'.gScore.Keys != s.gScore.Keys {
      assert s'.gScore.Keys <= area;
      MeasureDrops(area, s.gScore.Keys, s'.gScore.Keys);
    } else {
      assert |RemoveFirst(s.openSet, current)| < |s.openSet|;
    }
  }

  /**
   * Lines 99-138: A* from `start` to `end`. A returned path is a shortest
   * walk from `start` to `end` over walkable cells; no path is returned
   * only when no such walk exists.
   */
  method FindPath(gm: GridManager, start: Vector2Int, end: Vector2Int) returns (path: Option<seq<Vector2Int>>)
    requires gm.Shaped()
    ensures path.Some? ==> Shortest(path.value, Walkable(gm), start, end)
    ensures path.None? ==> forall p | IsPathIn(p, Walkable(gm) + {start}) && p[0] == start :: p[|p| - 1] != end
  {
    ghost var walk := Walkable(gm);
    ghost var area := walk + {start};
    var openSet := [start];
    var cameFrom: map<Vector2Int, Vector2Int> := map[];
    var gScore: map<Vector2Int, nat> := map[start := 0];
    var fScore: map<Vector2Int, nat> := map[start := Heuristic(start, end)];
    while |openSet| > 0
      invariant SearchInv(walk, start, end, Search(openSet, cameFrom, gScore, fScore))
      decreases area - gScore.Keys, Total(gScore, area), |openSet|
    {
      ghost var s := Search(openSet, cameFrom, gScore, fScore);
      var current := GetLowestFScore(openSet, fScore);
      if current == end {
        ShapeDescends(walk, start, end, s);
        var route := ReconstructPath(cameFrom, current, gScore);
        FoundIsShortest(walk, start, end, s, route);
        assert walk == Walkable(gm);
        return Some(route);
      }
      BeginExpand(walk, start, end, s, current);
      openSet := RemoveFirst(openSet, current);  // openSet.Remove(current), line 116
      RemoveDistinct(s.openSet, current);
      openSet, cameFrom, gScore, fScore :=
        ExpandNeighbours(gm, current, end, openSet, cameFrom, gScore, fScore, walk, area, start);
      LoopMeasure(walk, area, start, end, s, current, Search(openSet, cameFrom, gScore, fScore));
    }
    NoRouteLeft(walk, start, end, Search(openSet, cameFrom, gScore, fScore));
    assert walk == Walkable(gm);
    return None;
  }

  /** `a` comes before `b` in the scan order of lines 83-85: by column, then by row. */
  predicate ScannedBefore(a: Vector2Int, b: Vector2Int)
  {
    a.x < b.x || (a.x == b.x && a.y < b.y)
  }

  /** No cell of the grid holds `code`. */
  ghost predicate NoMark(gm: GridManager, code: int)
    requires gm.Shaped()
    reads gm, gm.grid
  {
    forall x, y | 0 <= x < gm.width && 0 <= y < gm.height :: gm.grid[x, y] != code
  }

  /** `pos` holds `code` and is the first cell in scan order that does. */
  ghost predicate FirstMark(gm: GridManager, code: int, pos: Vector2Int)
    requires gm.Shaped()
    reads gm, gm.grid
  {
    && gm.InBounds(pos.x, pos.y) && gm.grid[pos.x, pos.y] == code
    && forall x, y | 0 <= x < gm.width && 0 <= y < gm.height && ScannedBefore(Vector2Int(x, y), pos) ::
         gm.grid[x, y] != code
  }

  /**
   * The scan shared by FindStartPosition and FindEndPosition: columns from
   * the left, each from the bottom, returning the first cell holding `code`,
   * or Vector2Int.zero when there is none.
   */
  method FindMark(gm: GridManager, code: int) returns (pos: Vector2Int)
    requires gm.Shaped()
    ensures FirstMark(gm, code, pos) || (NoMark(gm, code) && pos == Zero)
  {
    for x := 0 to gm.width
      invariant forall x', y | 0 <= x' < x && 0 <= y < gm.height :: gm.grid[x', y] != code
    {
      for y := 0 to gm.height
        invariant forall x', y' | 0 <= x' < x && 0 <= y' < gm.height :: gm.grid[x', y'] != code
        invariant forall y' | 0 <= y' < y :: gm.grid[x, y'] != code
      {
        if gm.GetGridValue(x, y) == code {
          return Vector2Int(x, y);
        }
      }
    }
    return Zero;
  }

  /** Lines 81-88: the first cell marked as the start, or Vector2Int.zero. */
  method FindStartPosition(gm: GridManager) returns (pos: Vector2Int)
    requires gm.Shaped()
    ensures FirstMark(gm, StartMark, pos) || (NoMark(gm, StartMark) && pos == Zero)
  {
    pos := FindMark(gm, StartMark);
  }

  /** Lines 90-97: the first cell marked as the end, or Vector2Int.zero. */
  method FindEndPosition(gm: GridManager) returns (pos: Vector2Int)
    requires gm.Shaped()
    ensures FirstMark(gm, EndMark, pos) || (NoMark(gm, EndMark) && pos == Zero)
  {
    pos := FindMark(gm, EndMark);
  }

  /**
   * Lines 25-37: without a grid manager nothing happens; otherwise find the
   * two marks and, when neither scan came back as Vector2Int.zero, search
   * for a path between them. `route` is the path handed on to be
   * highlighted and walked (lines 36 and 40-58), or None where the method
   * returns early.
   */
  method StartMove(gm: GridManager?) returns (startPos: Vector2Int, endPos: Vector2Int,
                                             route: Option<seq<Vector2Int>>)
    requires gm != null ==> gm.Shaped()
    ensures gm == null ==> route.None?
    ensures gm != null ==> FirstMark(gm, StartMark, startPos) || (NoMark(gm, StartMark) && startPos == Zero)
    ensures gm != null ==> FirstMark(gm, EndMark, endPos) || (NoMark(gm, EndMark) && endPos == Zero)
    ensures route.Some? ==>
      && gm != null && startPos != Zero && endPos != Zero
      && Shortest(route.value, Walkable(gm), startPos, endPos)
    ensures gm != null && startPos != Zero && endPos != Zero && route.None? ==>
      forall p | IsPathIn(p, Walkable(gm) + {startPos}) && p[0] == startPos :: p[|p| - 1] != endPos
  {
    startPos, endPos, route := Zero, Zero, None;
    if gm == null {
      return;
    }
    startPos := FindStartPosition(gm);
    endPos := FindEndPosition(gm);
    if startPos != Zero && endPos != Zero {
      route := FindPath(gm, startPos, endPos);
    }
  }
}
