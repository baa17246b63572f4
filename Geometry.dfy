/**
 * Grid coordinates shared by the maze generator and the path finder:
 * Unity's Vector2Int as a value type, 4-neighbour adjacency, the shared
 * `dx`/`dy` direction tables, paths, and a parent/rank witness of
 * connectivity from which a concrete path can be built.
 */
module Geometry {

  /** Unity's Vector2Int: a pair of integer coordinates with structural equality. */
  datatype Vector2Int = Vector2Int(x: int, y: int)

  /** Vector2Int.zero, used by the path finder as a "not found" sentinel. */
  const Zero := Vector2Int(0, 0)

  function Abs(n: int): nat
  {
    if n < 0 then -n else n
  }

  /** |a.x - b.x| + |a.y - b.y| */
  function Manhattan(a: Vector2Int, b: Vector2Int): nat
  {
    Abs(a.x - b.x) + Abs(a.y - b.y)
  }

  /** Two cells are 4-neighbours: they differ by one unit in exactly one axis. */
  predicate Adjacent(a: Vector2Int, b: Vector2Int)
  {
    Manhattan(a, b) == 1
  }

  /** The `dx` and `dy` tables both scripts iterate over: up, down, right, left. */
  const Dx: seq<int> := [0, 0, 1, -1]
  const Dy: seq<int> := [1, -1, 0, 0]

  /** The neighbour of `c` in direction `i` of the tables. */
  function Neighbour(c: Vector2Int, i: int): Vector2Int
    requires 0 <= i < 4
  {
    Vector2Int(c.x + Dx[i], c.y + Dy[i])
  }

  /** The four table directions are exactly the 4-neighbours: the index of the direction leading to `b`. */
  function DirectionTo(a: Vector2Int, b: Vector2Int): (i: int)
    requires Adjacent(a, b)
    ensures 0 <= i < 4 && Neighbour(a, i) == b
    ensures forall j | 0 <= j < 4 && Neighbour(a, j) == b :: j == i
  {
    if b.y == a.y + 1 then 0
    else if b.y == a.y - 1 then 1
    else if b.x == a.x + 1 then 2
    else 3
  }

  lemma NeighbourIsAdjacent(c: Vector2Int, i: int)
    requires 0 <= i < 4
    ensures Adjacent(c, Neighbour(c, i)) && Neighbour(c, i) != c
  {
  }

  /** `p` is a non-empty 4-connected walk whose every cell lies in `cells`. */
  ghost predicate IsPathIn(p: seq<Vector2Int>, cells: set<Vector2Int>)
  {
    && |p| > 0
    && (forall i | 0 <= i < |p| :: p[i] in cells)
    && (forall i | 0 <= i < |p| - 1 :: Adjacent(p[i], p[i + 1]))
  }

  /** A walk from `start` to `end` whose cells after the first lie in `walk`. */
  ghost predicate Route(p: seq<Vector2Int>, walk: set<Vector2Int>, start: Vector2Int, end: Vector2Int)
  {
    IsPathIn(p, walk + {start}) && p[0] == start && p[|p| - 1] == end
  }

  /** `path` is a route from `start` to `end` and no route is shorter. */
  ghost predicate Shortest(path: seq<Vector2Int>, walk: set<Vector2Int>, start: Vector2Int, end: Vector2Int)
  {
    Route(path, walk, start, end) && forall p | Route(p, walk, start, end) :: |path| <= |p|
  }

  /** `c` has a parent in `cells` that is one of its 4-neighbours and has a strictly smaller rank. */
  ghost predicate HasParentIn(cells: set<Vector2Int>, parent: map<Vector2Int, Vector2Int>,
                              rank: map<Vector2Int, nat>, c: Vector2Int)
  {
    && c in parent
    && parent[c] in cells
    && parent[c] in rank
    && c in rank
    && Adjacent(parent[c], c)
    && rank[parent[c]] < rank[c]
  }

  /**
   * Every cell of `cells` has a rank, and every cell other than `root` has
   * a parent in `cells` (see `HasParentIn`): a spanning forest whose only
   * possible root is `root`, i.e. a witness that every cell is connected to
   * `root` inside `cells`. The parent clause is instantiated only where
   * `HasParentIn` is mentioned, so that following one parent does not by
   * itself invite the verifier to follow the next.
   */
  ghost predicate TreeOver(cells: set<Vector2Int>, parent: map<Vector2Int, Vector2Int>,
                           rank: map<Vector2Int, nat>, root: Vector2Int)
  {
    && (forall c | c in cells :: c in rank)
    && (forall c {:trigger HasParentIn(cells, parent, rank, c)} | c in cells && c != root ::
          HasParentIn(cells, parent, rank, c))
  }

  /** Adding a fresh cell next to one already in the tree, with a rank above all others, keeps the tree. */
  lemma TreeGrow(cells: set<Vector2Int>, parent: map<Vector2Int, Vector2Int>, rank: map<Vector2Int, nat>,
                 root: Vector2Int, c: Vector2Int, p: Vector2Int, r: nat)
    requires TreeOver(cells, parent, rank, root)
    requires c !in cells && c != root && p in cells && Adjacent(p, c)
    requires forall q | q in rank :: rank[q] < r
    ensures TreeOver(cells + {c}, parent[c := p], rank[c := r], root)
  {
    var cells', parent', rank' := cells + {c}, parent[c := p], rank[c := r];
    forall d | d in cells' && d != root
      ensures HasParentIn(cells', parent', rank', d)
    {
      if d != c {
        assert HasParentIn(cells, parent, rank, d);
      }
    }
  }

  /**
   * Giving `c` the adjacent parent `p` of lower rank and lowering the rank of
   * `c` to `r` (or adding `c` with rank `r`) keeps the tree: the cells whose
   * parent is `c` still rank above it.
   */
  lemma TreeRelink(cells: set<Vector2Int>, parent: map<Vector2Int, Vector2Int>, rank: map<Vector2Int, nat>,
                   root: Vector2Int, c: Vector2Int, p: Vector2Int, r: nat)
    requires TreeOver(cells, parent, rank, root)
    requires c != root && p in cells && p in rank && p != c && Adjacent(p, c) && rank[p] < r
    requires c in cells ==> r <= rank[c]
    ensures TreeOver(cells + {c}, parent[c := p], rank[c := r], root)
  {
    var cells', parent', rank' := cells + {c}, parent[c := p], rank[c := r];
    forall d | d in cells' && d != root
      ensures HasParentIn(cells', parent', rank', d)
    {
      if d != c {
        assert HasParentIn(cells, parent, rank, d);
      }
    }
  }

  /** Following parents from any cell of the tree reaches `root`: the path they spell, read backwards. */
  lemma {:induction false} ChainToRoot(cells: set<Vector2Int>, parent: map<Vector2Int, Vector2Int>,
                                       rank: map<Vector2Int, nat>, root: Vector2Int, c: Vector2Int)
    returns (p: seq<Vector2Int>)
    requires TreeOver(cells, parent, rank, root) && c in cells
    ensures IsPathIn(p, cells) && p[0] == root && p[|p| - 1] == c
    decreases rank[c]
  {
    if c == root {
      p := [root];
    } else {
      assert HasParentIn(cells, parent, rank, c);
      var q := ChainToRoot(cells, parent, rank, root, parent[c]);
      p := q + [c];
    }
  }

  /** No 4-neighbour of `c` lies in `cells`. */
  predicate NoNeighbourIn(c: Vector2Int, cells: set<Vector2Int>)
  {
    forall i | 0 <= i < 4 :: Neighbour(c, i) !in cells
  }

  /** A cell of `cells` adjacent to `c` is a 4-neighbour of `c` in `cells` other than `c`. */
  lemma AdjacentOpens(c: Vector2Int, next: Vector2Int, cells: set<Vector2Int>)
    requires Adjacent(c, next) && next in cells
    ensures !NoNeighbourIn(c, cells - {c})
  {
    var i := DirectionTo(c, next);
    var rest := cells - {c};
    assert next in rest;
    assert Neighbour(c, i) in rest;
  }

  /** A tree that holds a cell other than its root holds a neighbour of the root: the first step of the path back. */
  lemma TreeLeavesRoot(cells: set<Vector2Int>, parent: map<Vector2Int, Vector2Int>, rank: map<Vector2Int, nat>,
                       root: Vector2Int, far: Vector2Int)
    requires TreeOver(cells, parent, rank, root) && far in cells && far != root
    ensures !NoNeighbourIn(root, cells - {root})
  {
    var p := ChainToRoot(cells, parent, rank, root, far);
    assert |p| > 1 && Adjacent(p[0], p[1]) && p[1] in cells;
    AdjacentOpens(root, p[1], cells);
  }
}
