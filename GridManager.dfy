/**
 * The maze side of the demo: a width x height grid of cell codes
 * (0 passage, 1 wall, 2 start, 3 end), carved by a randomized recursive
 * backtracker that steps two cells at a time from (1, 1), and an end
 * point chosen among the dead ends of a breadth-first scan from (1, 1).
 */
module Maze {
  import opened Geometry
  import opened Lists
  import opened Randomness

  const Passage := 0
  const Wall := 1
  const StartMark := 2
  const EndMark := 3

  /** The fixed entry cell of every maze. */
  const Start := Vector2Int(1, 1)

  /** The carving steps, in the order the `directions` list is initialised. */
  const Directions: seq<Vector2Int> :=
    [Vector2Int(0, 2), Vector2Int(2, 0), Vector2Int(0, -2), Vector2Int(-2, 0)]

  function SquaredDistance(a: Vector2Int, b: Vector2Int): nat
  {
    (a.x - b.x) * (a.x - b.x) + (a.y - b.y) * (a.y - b.y)
  }

  /** Fisher-Yates: swap each position, from the last down to 1, with a random position at or below it. */
  method Shuffle<T>(list: array<T>, rng: Random)
    modifies list, rng
    ensures multiset(list[..]) == old(multiset(list[..]))
  {
    var i := list.Length - 1;
    while i > 0
      invariant i < list.Length
      invariant multiset(list[..]) == old(multiset(list[..]))
    {
      var randomIndex := rng.Range(0, i + 1);
      list[i], list[randomIndex] := list[randomIndex], list[i];
      i := i - 1;
    }
  }

  /**
   * A cell with two even coordinates: never carved, since carving moves two
   * cells at a time from (1, 1) and only opens the cell in between.
   */
  predicate Pillar(c: Vector2Int)
  {
    c.x % 2 == 0 && c.y % 2 == 0
  }

  /**
   * The shape of a set of carved cells in a width x height grid: all lie
   * strictly inside the outer ring; none has two even coordinates; and every
   * carved cell is linked to (1, 1) through carved cells by `parent`, with
   * ranks below `nextRank`.
   */
  ghost predicate CarvedShape(carved: set<Vector2Int>, parent: map<Vector2Int, Vector2Int>,
                              rank: map<Vector2Int, nat>, nextRank: nat, width: int, height: int)
  {
    && (forall c | c in carved :: 1 <= c.x < width - 1 && 1 <= c.y < height - 1)
    && (forall c {:trigger Pillar(c)} | c in carved :: !Pillar(c))
    && (carved != {} ==> Start in carved)
    && TreeOver(carved, parent, rank, Start)
    && (forall c | c in rank :: rank[c] < nextRank)
  }

  /** Carving the entry cell first keeps the shape. */
  lemma CarveStartShape(carved: set<Vector2Int>, parent: map<Vector2Int, Vector2Int>,
                        rank: map<Vector2Int, nat>, nextRank: nat, width: int, height: int)
    requires CarvedShape(carved, parent, rank, nextRank, width, height)
    requires width >= 3 && height >= 3 && Start !in carved
    ensures CarvedShape(carved + {Start}, parent, rank[Start := nextRank], nextRank + 1, width, height)
  {
  }

  /**
   * A carving step from the odd-odd cell (x, y) passes through a 4-neighbour
   * `mid` of (x, y) to a 4-neighbour of `mid` that is again odd-odd; `mid`
   * moves one coordinate by one and keeps the other, which stays odd.
   */
  lemma StepGeometry(x: int, y: int, dir: Vector2Int)
    requires x % 2 == 1 && y % 2 == 1 && dir in Directions
    ensures var hx, hy := dir.x / 2, dir.y / 2;
      && dir.x == 2 * hx && dir.y == 2 * hy
      && ((hx == 0 && (hy == 1 || hy == -1)) || (hy == 0 && (hx == 1 || hx == -1)))
      && Adjacent(Vector2Int(x, y), Vector2Int(x + hx, y + hy))
      && Adjacent(Vector2Int(x + hx, y + hy), Vector2Int(x + dir.x, y + dir.y))
      && (x + dir.x) % 2 == 1 && (y + dir.y) % 2 == 1
      && !Pillar(Vector2Int(x + hx, y + hy)) && !Pillar(Vector2Int(x + dir.x, y + dir.y))
      && Vector2Int(x + hx, y + hy) != Vector2Int(x, y)
  {
    if dir == Directions[0] {
    } else if dir == Directions[1] {
    } else if dir == Directions[2] {
    } else {
      assert dir == Directions[3];
    }
  }

  /**
   * Carving a step from the lattice cell (x, y) to the valid lattice cell
   * `target` two cells along `dir`, together with the corridor cell `mid`
   * between them (which gets (x, y) as parent unless it is already carved),
   * keeps the shape.
   */
  lemma CarveStepShape(carved: set<Vector2Int>, parent: map<Vector2Int, Vector2Int>,
                       rank: map<Vector2Int, nat>, nextRank: nat, width: int, height: int,
                       x: int, y: int, dir: Vector2Int)
    requires CarvedShape(carved, parent, rank, nextRank, width, height)
    requires Vector2Int(x, y) in carved && x % 2 == 1 && y % 2 == 1 && dir in Directions
    requires 1 <= x + dir.x < width - 1 && 1 <= y + dir.y < height - 1
    requires Vector2Int(x + dir.x, y + dir.y) !in carved
    ensures var mid := Vector2Int(x + dir.x / 2, y + dir.y / 2);
      var target := Vector2Int(x + dir.x, y + dir.y);
      var parent' := if mid in carved then parent else parent[mid := Vector2Int(x, y)];
      var rank' := if mid in carved then rank else rank[mid := nextRank];
      CarvedShape(carved + {mid} + {target}, parent'[target := mid], rank'[target := nextRank + 1],
                  nextRank + 2, width, height)
  {
    var mid := Vector2Int(x + dir.x / 2, y + dir.y / 2);
    var target := Vector2Int(x + dir.x, y + dir.y);
    StepGeometry(x, y, dir);
    var parent', rank' := parent, rank;
    if mid !in carved {
      TreeGrow(carved, parent, rank, Start, mid, Vector2Int(x, y), nextRank);
      parent', rank' := parent[mid := Vector2Int(x, y)], rank[mid := nextRank];
    } else {
      assert carved + {mid} == carved;
    }
    TreeGrow(carved + {mid}, parent', rank', Start, target, mid, nextRank + 1);
  }

  /** Two sequences with the same multiset have the same members. */
  lemma PermutationMembers<T>(a: seq<T>, b: seq<T>)
    requires multiset(a) == multiset(b)
    ensures forall t :: t in a <==> t in b
  {
    forall t
      ensures t in a <==> t in b
    {
      assert t in a <==> t in multiset(a);
      assert t in b <==> t in multiset(b);
    }
  }

  /** A fresh list of the four carving steps, shuffled. */
  method ShuffledDirections(rng: Random) returns (order: seq<Vector2Int>)
    modifies rng
    ensures |order| == 4 && multiset(order) == multiset(Directions)
    ensures forall d :: d in order <==> d in Directions
  {
    var randomizedDirections := new Vector2Int[4](i requires 0 <= i < 4 => Directions[i]);
    assert randomizedDirections[..] == Directions;
    Shuffle(randomizedDirections, rng);
    order := randomizedDirections[..];
    PermutationMembers(order, Directions);
  }

  /**
   * Lines 136-147: the first of `ends` at the smallest distance from
   * `target`. The source compares Euclidean distances; their squares are
   * ordered the same way.
   */
  method ClosestTo(ends: seq<Vector2Int>, target: Vector2Int) returns (bestEnd: Vector2Int)
    requires |ends| > 0
    ensures bestEnd in ends
    ensures forall j | 0 <= j < |ends| :: SquaredDistance(target, bestEnd) <= SquaredDistance(target, ends[j])
    ensures exists k | 0 <= k < |ends| ::
      && ends[k] == bestEnd
      && forall j | 0 <= j < k :: SquaredDistance(target, bestEnd) < SquaredDistance(target, ends[j])
  {
    bestEnd := ends[0];
    var minDist := SquaredDistance(target, bestEnd);
    ghost var best := 0;
    for i := 0 to |ends|
      invariant 0 <= best < |ends| && ends[best] == bestEnd && minDist == SquaredDistance(target, bestEnd)
      invariant forall j | 0 <= j < i :: minDist <= SquaredDistance(target, ends[j])
      invariant forall j | 0 <= j < best :: minDist < SquaredDistance(target, ends[j])
    {
      var dist := SquaredDistance(target, ends[i]);
      if dist < minDist {
        minDist := dist;
        bestEnd := ends[i];
        best := i;
      }
    }
  }

  /**
   * `best` is the first element of `ends` at the smallest distance from
   * `target`: no element is closer, and every earlier one is farther.
   */
  ghost predicate FirstClosest(ends: seq<Vector2Int>, target: Vector2Int, best: Vector2Int)
  {
    exists k | 0 <= k < |ends| ::
      && ends[k] == best
      && (forall j | 0 <= j < |ends| :: SquaredDistance(target, best) <= SquaredDistance(target, ends[j]))
      && (forall j | 0 <= j < k :: SquaredDistance(target, best) < SquaredDistance(target, ends[j]))
  }

  /** The cells strictly inside the outer ring of a width x height grid. */
  ghost function InteriorOf(width: int, height: int): set<Vector2Int>
  {
    set i, j | 1 <= i < width - 1 && 1 <= j < height - 1 :: Vector2Int(i, j)
  }

  /** Every cell of `cells` lies strictly inside the outer ring. */
  ghost predicate InsideRing(cells: set<Vector2Int>, width: int, height: int)
  {
    forall c | c in cells :: 1 <= c.x < width - 1 && 1 <= c.y < height - 1
  }

  /**
   * The ghost record of the breadth-first scan of FindEndOfPath: the cells
   * in the order they were enqueued, the same cells as a set, and for each
   * the cell it was enqueued from and its position in that order (a tree
   * rooted at (1, 1)).
   */
  datatype Discovery = Discovery(order: seq<Vector2Int>, seen: set<Vector2Int>,
                                 parent: map<Vector2Int, Vector2Int>, rank: map<Vector2Int, nat>)

  /**
   * The neighbours of `c` along the first `n` directions of the `dx`/`dy`
   * tables that the scan enqueues from `c`, in that order: those in `open`
   * and not yet in `seen`.
   */
  ghost function NewNeighbours(c: Vector2Int, open: set<Vector2Int>, seen: set<Vector2Int>, n: int): (added: seq<Vector2Int>)
    requires 0 <= n <= 4
  {
    if n == 0 then []
    else
      var m := Neighbour(c, n - 1);
      NewNeighbours(c, open, seen, n - 1) + if m in open && m !in seen then [m] else []
  }

  /** Nothing is enqueued from `c` exactly when none of its neighbours is an unseen cell of `open`. */
  lemma {:induction false} NewNeighboursEmpty(c: Vector2Int, open: set<Vector2Int>, seen: set<Vector2Int>, n: int)
    requires 0 <= n <= 4
    ensures NewNeighbours(c, open, seen, n) == [] <==>
      forall i | 0 <= i < n :: Neighbour(c, i) !in open || Neighbour(c, i) in seen
  {
    if n > 0 {
      NewNeighboursEmpty(c, open, seen, n - 1);
    }
  }

  /** The cells of a list, as a set. */
  ghost function Elems<T>(s: seq<T>): set<T>
  {
    set x | x in s
  }

  /** What is enqueued from `c` is in `open`, not yet seen, and a neighbour of `c` along one of the first `n` directions. */
  lemma {:induction false} NewNeighboursFresh(c: Vector2Int, open: set<Vector2Int>, seen: set<Vector2Int>, n: int)
    requires 0 <= n <= 4
    ensures forall m | m in NewNeighbours(c, open, seen, n) :: m in open && m !in seen
    ensures forall m | m in NewNeighbours(c, open, seen, n) :: exists i | 0 <= i < n :: m == Neighbour(c, i)
  {
    if n > 0 {
      NewNeighboursFresh(c, open, seen, n - 1);
    }
  }

  /** After the round from `c`, every neighbour of `c` in `open` along the first `n` directions is seen. */
  lemma {:induction false} NewNeighboursCover(c: Vector2Int, open: set<Vector2Int>, seen: set<Vector2Int>, n: int)
    requires 0 <= n <= 4
    ensures forall i | 0 <= i < n && Neighbour(c, i) in open ::
      Neighbour(c, i) in seen + Elems(NewNeighbours(c, open, seen, n))
  {
    if n > 0 {
      NewNeighboursCover(c, open, seen, n - 1);
      assert NewNeighbours(c, open, seen, n - 1) <= NewNeighbours(c, open, seen, n);
    }
  }

  /**
   * The breadth-first scan of FindEndOfPath (lines 110-126) over the
   * passages `open`, from the state where `seen` is marked visited, `queue`
   * waits and `ends` is collected: each dequeued cell enqueues and marks its
   * unseen neighbours in `open`, in table order, and joins the ends when it
   * enqueues none. The result is the list of ends when the queue runs dry.
   */
  ghost function Sweep(open: set<Vector2Int>, seen: set<Vector2Int>, queue: seq<Vector2Int>,
                       ends: seq<Vector2Int>): (found: seq<Vector2Int>)
    decreases open - seen, |queue|
  {
    if queue == [] then ends
    else
      var added := NewNeighbours(queue[0], open, seen, 4);
      if added == [] then Sweep(open, seen, queue[1..], ends + [queue[0]])
      else
        NewNeighboursFresh(queue[0], open, seen, 4);
        assert added[0] in open - seen && added[0] !in open - (seen + Elems(added));
        Sweep(open, seen + Elems(added), queue[1..] + added, ends)
  }

  /** The dead ends the scan from (1, 1) collects, in the order it dequeues them. */
  ghost function DeadEnds(open: set<Vector2Int>): seq<Vector2Int>
  {
    Sweep(open, {Start}, [Start], [])
  }

  /** Every neighbour of `c` in `open` is in `seen`. */
  ghost predicate Explored(c: Vector2Int, open: set<Vector2Int>, seen: set<Vector2Int>)
  {
    forall i | 0 <= i < 4 && Neighbour(c, i) in open :: Neighbour(c, i) in seen
  }

  /**
   * The invariant of the scan over the passages `open`: `seen` holds the
   * enqueued cells, (1, 1) first and passages after it, and each cell's rank
   * is its position in the enqueue order (so no cell is enqueued twice);
   * `parent` links every seen cell to (1, 1) through seen cells.
   */
  ghost predicate ScanShape(d: Discovery, open: set<Vector2Int>)
  {
    && |d.order| > 0 && d.order[0] == Start
    && (forall k | 0 <= k < |d.order| :: d.order[k] in d.seen && d.order[k] in d.rank && d.rank[d.order[k]] == k)
    && (forall c | c in d.seen :: c == Start || c in open)
    && TreeOver(d.seen, d.parent, d.rank, Start)
    && (forall c | c in d.rank :: d.rank[c] < |d.order|)
  }

  /** No cell is enqueued twice. */
  lemma ScanOrderDistinct(d: Discovery, open: set<Vector2Int>)
    requires ScanShape(d, open)
    ensures Distinct(d.order)
  {
    forall i, j | 0 <= i < j < |d.order|
      ensures d.order[i] != d.order[j]
    {
      assert d.rank[d.order[i]] == i && d.rank[d.order[j]] == j;
    }
  }

  /** Every cell enqueued after (1, 1) is a passage. */
  lemma ScanEnqueuesPassages(d: Discovery, open: set<Vector2Int>)
    requires ScanShape(d, open)
    ensures forall k | 1 <= k < |d.order| :: d.order[k] in open
  {
    forall k | 1 <= k < |d.order|
      ensures d.order[k] in open
    {
      assert d.rank[d.order[k]] == k && d.rank[d.order[0]] == 0;
    }
  }

  /**
   * Enqueuing an unseen cell of `open` next to a seen cell keeps the
   * invariant and leaves fewer interior cells to see.
   */
  lemma ScanStep(d: Discovery, open: set<Vector2Int>, width: int, height: int, current: Vector2Int, n: Vector2Int)
    requires ScanShape(d, open) && InsideRing(open, width, height)
    requires current in d.seen && n in open && n !in d.seen && Adjacent(current, n)
    ensures var d' := Discovery(d.order + [n], d.seen + {n}, d.parent[n := current], d.rank[n := |d.order|]);
      && ScanShape(d', open)
      && InteriorOf(width, height) - d'.seen < InteriorOf(width, height) - d.seen
  {
    TreeGrow(d.seen, d.parent, d.rank, Start, n, current, |d.order|);
    var d' := Discovery(d.order + [n], d.seen + {n}, d.parent[n := current], d.rank[n := |d.order|]);
    assert n in InteriorOf(width, height) by {
      assert n == Vector2Int(n.x, n.y);
    }
    assert n in InteriorOf(width, height) - d.seen && n !in InteriorOf(width, height) - d'.seen;
    forall k | 0 <= k < |d'.order|
      ensures d'.order[k] in d'.seen && d'.order[k] in d'.rank && d'.rank[d'.order[k]] == k
    {
      if k < |d.order| {
        assert d'.order[k] == d.order[k] && d.order[k] in d.rank && d.rank[d.order[k]] < |d.order|;
      }
    }
  }

  /**
   * The invariant of the neighbour loop of the scan after the first `i`
   * directions from `current`: `d` is `d0` with the new neighbours among
   * them enqueued, and the neighbours along the remaining directions are
   * seen in `d` exactly when they were seen in `d0`.
   */
  ghost predicate Visiting(current: Vector2Int, open: set<Vector2Int>, d0: Discovery, d: Discovery, i: int,
                           width: int, height: int)
    requires 0 <= i <= 4
  {
    var added := NewNeighbours(current, open, d0.seen, i);
    && ScanShape(d, open)
    && d.order == d0.order + added
    && d.seen == d0.seen + Elems(added)
    && (added != [] ==> InteriorOf(width, height) - d.seen < InteriorOf(width, height) - d0.seen)
    && (added == [] ==> d == d0)
    && forall k | i <= k < 4 :: Neighbour(current, k) in d.seen <==> Neighbour(current, k) in d0.seen
  }

  /** The direction loop after `i` directions, with the queue and the count of enqueued cells kept beside the record. */
  ghost predicate VisitRound(current: Vector2Int, open: set<Vector2Int>, d0: Discovery, d: Discovery, i: int,
                             width: int, height: int, queue0: seq<Vector2Int>, queue: seq<Vector2Int>, count: int)
    requires 0 <= i <= 4
  {
    && Visiting(current, open, d0, d, i, width, height)
    && queue == queue0 + NewNeighbours(current, open, d0.seen, i)
    && count == |NewNeighbours(current, open, d0.seen, i)|
  }

  /** Direction `i` leads to a seen cell or to no passage: nothing is enqueued. */
  lemma VisitSkip(current: Vector2Int, open: set<Vector2Int>, d0: Discovery, d: Discovery, i: int,
                  width: int, height: int)
    requires 0 <= i < 4 && Visiting(current, open, d0, d, i, width, height)
    requires Neighbour(current, i) !in open || Neighbour(current, i) in d.seen
    ensures NewNeighbours(current, open, d0.seen, i + 1) == NewNeighbours(current, open, d0.seen, i)
    ensures Visiting(current, open, d0, d, i + 1, width, height)
  {
  }

  /** Direction `i` leads to an unseen passage: it is enqueued, and `next` is the record with it. */
  lemma VisitTake(current: Vector2Int, open: set<Vector2Int>, d0: Discovery, d: Discovery, i: int,
                  width: int, height: int) returns (next: Discovery)
    requires 0 <= i < 4 && Visiting(current, open, d0, d, i, width, height) && current in d0.seen
    requires InsideRing(open, width, height)
    requires Neighbour(current, i) in open && Neighbour(current, i) !in d.seen
    ensures var n := Neighbour(current, i);
      && next == Discovery(d.order + [n], d.seen + {n}, d.parent[n := current], d.rank[n := |d.order|])
      && NewNeighbours(current, open, d0.seen, i + 1) == NewNeighbours(current, open, d0.seen, i) + [n]
      && Visiting(current, open, d0, next, i + 1, width, height)
  {
    var n := Neighbour(current, i);
    NeighbourIsAdjacent(current, i);
    ScanStep(d, open, width, height, current, n);
    next := Discovery(d.order + [n], d.seen + {n}, d.parent[n := current], d.rank[n := |d.order|]);
    var added := NewNeighbours(current, open, d0.seen, i);
    assert NewNeighbours(current, open, d0.seen, i + 1) == added + [n];
    assert (d0.order + added) + [n] == d0.order + (added + [n]);
    assert Elems(added + [n]) == Elems(added) + {n};
  }

  /** Scanning from (1, 1) when nothing else is seen enqueues nothing exactly when no neighbour of (1, 1) is open. */
  lemma FirstVisit(open: set<Vector2Int>)
    ensures NewNeighbours(Start, open, {Start}, 4) == [] <==> NoNeighbourIn(Start, open)
  {
    NewNeighboursEmpty(Start, open, {Start}, 4);
    forall i | 0 <= i < 4
      ensures Neighbour(Start, i) != Start
    {
      NeighbourIsAdjacent(Start, i);
    }
  }

  /**
   * The invariant of the scan's main loop, `head` cells dequeued: the queue
   * is what was enqueued after them; `ScanTrace` holds; every path end
   * found was enqueued; the queue and the path ends are never both empty;
   * and once (1, 1) has been dequeued, it is a path end exactly when no
   * neighbour is open.
   */
  ghost predicate Scanning(open: set<Vector2Int>, d: Discovery, head: int, queue: seq<Vector2Int>,
                           pathEnds: seq<Vector2Int>)
  {
    ScanShape(d, open) && ScanRest(open, d, head, queue, pathEnds)
  }

  /** The invariant of the scan's main loop besides `ScanShape`. */
  ghost predicate ScanRest(open: set<Vector2Int>, d: Discovery, head: int, queue: seq<Vector2Int>,
                           pathEnds: seq<Vector2Int>)
  {
    && 0 <= head <= |d.order| && queue == d.order[head..]
    && ScanTrace(open, d, head, queue, pathEnds)
    && ScanFound(open, d.seen, head, queue, pathEnds)
  }

  /**
   * The path ends found after `head` rounds: all seen; never empty together
   * with the queue; none before the first round; and after it, (1, 1) is
   * one exactly when no neighbour of it is open.
   */
  ghost predicate ScanFound(open: set<Vector2Int>, seen: set<Vector2Int>, head: int, queue: seq<Vector2Int>,
                            pathEnds: seq<Vector2Int>)
  {
    && (forall c | c in pathEnds :: c in seen)
    && (|queue| > 0 || |pathEnds| > 0)
    && (head == 0 ==> seen == {Start} && queue == [Start] && pathEnds == [])
    && (head > 0 ==> (Start in pathEnds <==> NoNeighbourIn(Start, open)))
  }

  /**
   * What the scan has done so far, `head` cells dequeued: the seen cells
   * are the enqueued ones; the scan still to run from here ends with
   * `DeadEnds(open)`; and every dequeued cell has all its neighbours in
   * `open` seen.
   */
  ghost predicate ScanTrace(open: set<Vector2Int>, d: Discovery, head: int, queue: seq<Vector2Int>,
                            pathEnds: seq<Vector2Int>)
    requires 0 <= head <= |d.order|
  {
    && d.seen == Elems(d.order)
    && Sweep(open, d.seen, queue, pathEnds) == DeadEnds(open)
    && (forall k | 0 <= k < head :: Explored(d.order[k], open, d.seen))
  }

  /** Before the first round only (1, 1) is enqueued and seen. */
  lemma ScanBegins(open: set<Vector2Int>)
    ensures Scanning(open, Discovery([Start], {Start}, map[], map[Start := 0]), 0, [Start], [])
  {
    assert Elems([Start]) == {Start};
  }

  /**
   * Once the queue is empty, the path ends are the scan's dead ends, none
   * is missing, and they hold (1, 1) exactly when it has no open neighbour;
   * the scan has seen every cell of `open` next to a seen cell.
   */
  lemma ScanEnds(open: set<Vector2Int>, d: Discovery, head: int, queue: seq<Vector2Int>, pathEnds: seq<Vector2Int>)
    requires Scanning(open, d, head, queue, pathEnds) && |queue| == 0
    ensures pathEnds == DeadEnds(open) && |pathEnds| > 0
    ensures forall c | c in pathEnds :: c in d.seen
    ensures ScanShape(d, open)
    ensures forall c | c in d.seen :: Explored(c, open, d.seen)
    ensures Start in pathEnds <==> NoNeighbourIn(Start, open)
  {
    forall c | c in d.seen
      ensures Explored(c, open, d.seen)
    {
      var k :| 0 <= k < |d.order| && d.order[k] == c;
    }
  }

  /** One round of the scan from `queue`, with `seen'` the seen cells after it, leaves the same scan to run. */
  lemma SweepRound(open: set<Vector2Int>, seen: set<Vector2Int>, queue: seq<Vector2Int>, ends: seq<Vector2Int>,
                   seen': set<Vector2Int>)
    requires |queue| > 0 && seen' == seen + Elems(NewNeighbours(queue[0], open, seen, 4))
    ensures var added := NewNeighbours(queue[0], open, seen, 4);
      Sweep(open, seen, queue, ends) ==
      Sweep(open, seen', queue[1..] + added, if |added| == 0 then ends + [queue[0]] else ends)
  {
    if NewNeighbours(queue[0], open, seen, 4) == [] {
      assert seen' == seen && queue[1..] + [] == queue[1..];
    }
  }

  /**
   * After the round from `d.order[head]`, which enqueues its new neighbours,
   * the seen cells are still the enqueued ones and the first `head + 1`
   * cells are explored.
   */
  lemma ExploreRound(open: set<Vector2Int>, d: Discovery, head: int, d': Discovery)
    requires 0 <= head < |d.order| && d.seen == Elems(d.order)
    requires forall k | 0 <= k < head :: Explored(d.order[k], open, d.seen)
    requires d'.seen == d.seen + Elems(NewNeighbours(d.order[head], open, d.seen, 4))
    requires d'.order == d.order + NewNeighbours(d.order[head], open, d.seen, 4)
    ensures d'.seen == Elems(d'.order)
    ensures forall k | 0 <= k < head + 1 :: Explored(d'.order[k], open, d'.seen)
  {
    var added := NewNeighbours(d.order[head], open, d.seen, 4);
    assert Elems(d'.order) == d'.seen by {
      assert forall c | c in d'.order :: c in d.order || c in added;
    }
    NewNeighboursCover(d.order[head], open, d.seen, 4);
    assert Explored(d'.order[head], open, d'.seen);
    forall k | 0 <= k < head
      ensures Explored(d'.order[k], open, d'.seen)
    {
      assert Explored(d.order[k], open, d.seen);
    }
  }

  /** One round of the main loop keeps `ScanTrace`. */
  lemma TraceRound(open: set<Vector2Int>, d: Discovery, head: int, queue: seq<Vector2Int>,
                   pathEnds: seq<Vector2Int>, d': Discovery, queue': seq<Vector2Int>, pathEnds': seq<Vector2Int>)
    requires 0 <= head < |d.order| && queue == d.order[head..]
    requires ScanTrace(open, d, head, queue, pathEnds)
    requires d'.seen == d.seen + Elems(NewNeighbours(queue[0], open, d.seen, 4))
    requires d'.order == d.order + NewNeighbours(queue[0], open, d.seen, 4)
    requires queue' == queue[1..] + NewNeighbours(queue[0], open, d.seen, 4)
    requires pathEnds' == if |NewNeighbours(queue[0], open, d.seen, 4)| == 0 then pathEnds + [queue[0]] else pathEnds
    ensures ScanTrace(open, d', head + 1, queue', pathEnds')
  {
    SweepRound(open, d.seen, queue, pathEnds, d'.seen);
    ExploreRound(open, d, head, d');
  }

  /**
   * One round of the main loop: dequeue the head, enqueue its new
   * neighbours `added`, and record the head as a path end when there are none.
   */
  lemma ScanAdvance(open: set<Vector2Int>, d: Discovery, head: int, queue: seq<Vector2Int>,
                    pathEnds: seq<Vector2Int>, d': Discovery, queue': seq<Vector2Int>, pathEnds': seq<Vector2Int>)
    requires Scanning(open, d, head, queue, pathEnds) && |queue| > 0
    requires d'.seen == d.seen + Elems(NewNeighbours(queue[0], open, d.seen, 4))
    requires d'.order == d.order + NewNeighbours(queue[0], open, d.seen, 4)
    requires queue' == queue[1..] + NewNeighbours(queue[0], open, d.seen, 4)
    requires pathEnds' == if |NewNeighbours(queue[0], open, d.seen, 4)| == 0 then pathEnds + [queue[0]] else pathEnds
    ensures ScanRest(open, d', head + 1, queue', pathEnds')
  {
    var added := NewNeighbours(queue[0], open, d.seen, 4);
    assert queue' == d'.order[head + 1..] by {
      assert d.order[head..][1..] + added == (d.order + added)[head + 1..];
    }
    TraceRound(open, d, head, queue, pathEnds, d', queue', pathEnds');
    assert queue[0] in d.seen && (head > 0 ==> queue[0] != Start) by {
      assert d.rank[d.order[head]] == head && d.rank[d.order[0]] == 0;
    }
    FoundRound(open, d.seen, head, queue, pathEnds, d'.seen, queue', pathEnds');
  }

  /** After a round, the path ends found still satisfy `ScanFound`. */
  lemma FoundRound(open: set<Vector2Int>, seen: set<Vector2Int>, head: int, queue: seq<Vector2Int>,
                   pathEnds: seq<Vector2Int>, seen': set<Vector2Int>, queue': seq<Vector2Int>,
                   pathEnds': seq<Vector2Int>)
    requires ScanFound(open, seen, head, queue, pathEnds) && |queue| > 0 && 0 <= head
    requires queue[0] in seen && (head > 0 ==> queue[0] != Start)
    requires seen' == seen + Elems(NewNeighbours(queue[0], open, seen, 4))
    requires queue' == queue[1..] + NewNeighbours(queue[0], open, seen, 4)
    requires pathEnds' == if |NewNeighbours(queue[0], open, seen, 4)| == 0 then pathEnds + [queue[0]] else pathEnds
    ensures ScanFound(open, seen', head + 1, queue', pathEnds')
  {
    if head == 0 {
      FirstVisit(open);
    }
  }

  class GridManager {
    const width: int
    const height: int
    var grid: array2?<int>

    /** The cells that are not walls, kept equal to the grid's non-1 cells. */
    ghost var carved: set<Vector2Int>
    /** For each carved cell other than (1, 1): the carved neighbour it was reached from. */
    ghost var parent: map<Vector2Int, Vector2Int>
    /** The order in which cells were carved. */
    ghost var rank: map<Vector2Int, nat>
    ghost var nextRank: nat
    /** The interior cells not carved yet: what carving consumes, so what makes it terminate. */
    ghost var uncarved: set<Vector2Int>

    constructor (width: int, height: int)
      ensures this.width == width && this.height == height && grid == null
    {
      this.width := width;
      this.height := height;
      grid := null;
    }

    ghost predicate Shaped()
      reads this`grid
    {
      grid != null && grid.Length0 == width && grid.Length1 == height
    }

    predicate InBounds(x: int, y: int)
    {
      0 <= x < width && 0 <= y < height
    }

    /** The outer ring of the grid. */
    predicate OnRing(x: int, y: int)
    {
      x == 0 || x == width - 1 || y == 0 || y == height - 1
    }

    /** A carving target must lie strictly inside the outer wall ring. */
    predicate IsValidPosition(x: int, y: int): (valid: bool)
      ensures valid <==> InBounds(x, y) && !OnRing(x, y)
    {
      x >= 1 && x < width - 1 && y >= 1 && y < height - 1
    }

    /** Reads outside the grid, however far out, see a wall. */
    function GetGridValue(x: int, y: int): (v: int)
      requires Shaped()
      reads this`grid, grid
      ensures InBounds(x, y) ==> v == grid[x, y]
      ensures !InBounds(x, y) ==> v == Wall
    {
      if x >= 0 && x < width && y >= 0 && y < height then grid[x, y] else Wall
    }

    /** The grid is allocated with this manager's dimensions, and its cells are passages exactly at `carved` and walls elsewhere. */
    ghost predicate Synced()
      reads this`grid, this`carved, grid
    {
      && Shaped()
      && forall i, j {:trigger grid[i, j]} | 0 <= i < width && 0 <= j < height ::
           grid[i, j] == if Vector2Int(i, j) in carved then Passage else Wall
    }

    /** Every interior cell is carved or still to carve. */
    ghost predicate Covered()
      reads this`carved, this`uncarved
    {
      forall i, j | 1 <= i < width - 1 && 1 <= j < height - 1 ::
        Vector2Int(i, j) in carved || Vector2Int(i, j) in uncarved
    }

    /** The invariant of carving: see `Synced`, `CarvedShape` and `Covered`. */
    ghost predicate MazeInv()
      reads this`grid, this`carved, this`parent, this`rank, this`nextRank, this`uncarved, grid
    {
      && width >= 3 && height >= 3
      && Synced()
      && CarvedShape(carved, parent, rank, nextRank, width, height)
      && Covered()
    }

    /** The cell two steps from (x, y) along `d` is carved if it is valid. */
    ghost predicate StepCarved(x: int, y: int, d: Vector2Int)
      reads this`carved
    {
      IsValidPosition(x + d.x, y + d.y) ==> Vector2Int(x + d.x, y + d.y) in carved
    }

    /** Every valid cell two steps away from (x, y) is carved. */
    ghost predicate StepNeighboursCarved(x: int, y: int)
      reads this`carved
    {
      && StepCarved(x, y, Directions[0]) && StepCarved(x, y, Directions[1])
      && StepCarved(x, y, Directions[2]) && StepCarved(x, y, Directions[3])
    }

    /**
     * GenerateMaze(x, y): carve (x, y), then try the four shuffled
     * directions, then, when Random.value < 0.3, try a fresh shuffle of
     * them again. Since the grid follows `carved`, "no carved cell reverts"
     * is `old(carved) <= carved`.
     */
    method GenerateMaze(x: int, y: int, rng: Random)
      requires MazeInv()
      requires IsValidPosition(x, y) && x % 2 == 1 && y % 2 == 1
      requires Vector2Int(x, y) == Start || Vector2Int(x, y) in carved
      modifies grid, rng, this`carved, this`parent, this`rank, this`nextRank, this`uncarved
      ensures MazeInv() && old(carved) <= carved && uncarved <= old(uncarved)
      ensures Vector2Int(x, y) in carved
      ensures StepNeighboursCarved(x, y)
      ensures old(StepNeighboursCarved(x, y)) ==> carved == old(carved) + {Vector2Int(x, y)}
      decreases uncarved, 3
    {
      if grid[x, y] == Wall {
        CarveEntry();
      }
      CarvePass(x, y, rng);
      var chance := rng.Value();
      if chance < 300 {
        CarvePass(x, y, rng);
      }
    }

    /**
     * One pass over a fresh shuffle of the four directions. Afterwards every
     * valid two-step neighbour is carved; and a pass that starts with every
     * such neighbour already carved carves nothing, which is why the second
     * pass of GenerateMaze never carves.
     */
    method CarvePass(x: int, y: int, rng: Random)
      requires MazeInv()
      requires IsValidPosition(x, y) && x % 2 == 1 && y % 2 == 1 && Vector2Int(x, y) in carved
      modifies grid, rng, this`carved, this`parent, this`rank, this`nextRank, this`uncarved
      ensures MazeInv() && old(carved) <= carved && uncarved <= old(uncarved)
      ensures StepNeighboursCarved(x, y)
      ensures old(StepNeighboursCarved(x, y)) ==> carved == old(carved) && uncarved == old(uncarved)
      decreases uncarved, 2
    {
      var shuffled := ShuffledDirections(rng);
      ghost var closed, carved0, uncarved0 := StepNeighboursCarved(x, y), carved, uncarved;
      for i := 0 to 4
        invariant MazeInv() && carved0 <= carved && uncarved <= uncarved0
        invariant StepTargets(x, y, shuffled[..i]) <= carved
        invariant closed ==> carved == carved0 && uncarved == uncarved0
      {
        var dir := shuffled[i];
        if closed {
          ClosedStep(x, y, dir);
        }
        CarveToward(x, y, dir, rng);
        StepTargetsSnoc(x, y, shuffled, i);
      }
      assert shuffled[..4] == shuffled;
      AllStepsTried(x, y, shuffled);
    }

    lemma ClosedStep(x: int, y: int, dir: Vector2Int)
      requires StepNeighboursCarved(x, y) && dir in Directions
      ensures StepCarved(x, y, dir)
    {
    }

    /** Having tried every direction of a shuffle of `Directions`, every two-step neighbour has been tried. */
    lemma AllStepsTried(x: int, y: int, shuffled: seq<Vector2Int>)
      requires forall d :: d in shuffled <==> d in Directions
      requires StepTargets(x, y, shuffled) <= carved
      ensures StepNeighboursCarved(x, y)
    {
      StepTargetsCover(x, y, shuffled);
      assert Directions[0] in shuffled && Directions[1] in shuffled;
      assert Directions[2] in shuffled && Directions[3] in shuffled;
    }

    /** The valid cells two steps from (x, y) along the directions of `ds`. */
    ghost function StepTargets(x: int, y: int, ds: seq<Vector2Int>): set<Vector2Int>
    {
      if ds == [] then {}
      else
        var d := ds[|ds| - 1];
        StepTargets(x, y, ds[..|ds| - 1]) +
          if IsValidPosition(x + d.x, y + d.y) then {Vector2Int(x + d.x, y + d.y)} else {}
    }

    /** Extending the prefix by one direction adds at most that direction's target. */
    lemma StepTargetsSnoc(x: int, y: int, ds: seq<Vector2Int>, i: int)
      requires 0 <= i < |ds|
      ensures StepTargets(x, y, ds[..i + 1]) == StepTargets(x, y, ds[..i]) +
        if IsValidPosition(x + ds[i].x, y + ds[i].y) then {Vector2Int(x + ds[i].x, y + ds[i].y)} else {}
    {
      assert ds[..i + 1][..i] == ds[..i];
    }

    /** Every valid two-step target along a direction of `ds` is collected. */
    lemma {:induction false} StepTargetsCover(x: int, y: int, ds: seq<Vector2Int>)
      ensures forall d | d in ds && IsValidPosition(x + d.x, y + d.y) ::
        Vector2Int(x + d.x, y + d.y) in StepTargets(x, y, ds)
    {
      if ds != [] {
        StepTargetsCover(x, y, ds[..|ds| - 1]);
        forall d | d in ds
          ensures d in ds[..|ds| - 1] || d == ds[|ds| - 1]
        {
          var k :| 0 <= k < |ds| && ds[k] == d;
          if k < |ds| - 1 {
            assert ds[..|ds| - 1][k] == d;
          }
        }
      }
    }

    /** The body of the direction loop: carve the wall between (x, y) and its neighbour two steps along `dir`, and recurse there, if that neighbour is a valid wall. */
    method CarveToward(x: int, y: int, dir: Vector2Int, rng: Random)
      requires MazeInv()
      requires IsValidPosition(x, y) && x % 2 == 1 && y % 2 == 1 && Vector2Int(x, y) in carved
      requires dir in Directions
      modifies grid, rng, this`carved, this`parent, this`rank, this`nextRank, this`uncarved
      ensures MazeInv() && old(carved) <= carved && uncarved <= old(uncarved)
      ensures StepCarved(x, y, dir)
      ensures old(!IsValidPosition(x + dir.x, y + dir.y) || Vector2Int(x + dir.x, y + dir.y) in carved) ==>
                carved == old(carved) && uncarved == old(uncarved)
      decreases uncarved, 1
    {
      var newX, newY := x + dir.x, y + dir.y;
      if IsValidPosition(newX, newY) && grid[newX, newY] == Wall {
        CarveStep(x, y, dir);
        GenerateMaze(newX, newY, rng);
      }
    }

    /** Line 58: the first call, at (1, 1), finds it still a wall and carves it. */
    method CarveEntry()
      requires MazeInv() && grid[Start.x, Start.y] == Wall
      modifies grid, this`carved, this`rank, this`nextRank, this`uncarved
      ensures MazeInv()
      ensures carved == old(carved) + {Start} && uncarved == old(uncarved) - {Start}
    {
      CarveStartShape(carved, parent, rank, nextRank, width, height);
      rank := rank[Start := nextRank];
      nextRank := nextRank + 1;
      CarveCell(Start.x, Start.y);
    }

    /** Lines 68-69: carve the corridor cell and the target cell two steps along `dir`. */
    method CarveStep(x: int, y: int, dir: Vector2Int)
      requires MazeInv()
      requires IsValidPosition(x, y) && x % 2 == 1 && y % 2 == 1 && Vector2Int(x, y) in carved
      requires dir in Directions
      requires IsValidPosition(x + dir.x, y + dir.y) && grid[x + dir.x, y + dir.y] == Wall
      modifies grid, this`carved, this`parent, this`rank, this`nextRank, this`uncarved
      ensures MazeInv()
      ensures carved == old(carved) + {Vector2Int(x + dir.x / 2, y + dir.y / 2)} + {Vector2Int(x + dir.x, y + dir.y)}
      ensures Vector2Int(x + dir.x, y + dir.y) in old(uncarved)
      ensures uncarved == old(uncarved) - {Vector2Int(x + dir.x / 2, y + dir.y / 2)} - {Vector2Int(x + dir.x, y + dir.y)}
    {
      var newX, newY := x + dir.x, y + dir.y;
      var midX, midY := x + dir.x / 2, y + dir.y / 2;
      ghost var mid, target := Vector2Int(midX, midY), Vector2Int(newX, newY);
      ghost var carved0, parent0, rank0, nextRank0 := carved, parent, rank, nextRank;
      CarveStepShape(carved0, parent0, rank0, nextRank0, width, height, x, y, dir);
      CarveCell(midX, midY);
      CarveCell(newX, newY);
      parent := (if mid in carved0 then parent0 else parent0[mid := Vector2Int(x, y)])[target := mid];
      rank := (if mid in carved0 then rank0 else rank0[mid := nextRank0])[target := nextRank0 + 1];
      nextRank := nextRank0 + 2;
      assert carved == carved0 + {mid} + {target};
    }

    /** One write of a passage into the grid, mirrored in `carved` and `uncarved`. */
    method CarveCell(x: int, y: int)
      requires Synced() && Covered() && InBounds(x, y)
      modifies grid, this`carved, this`uncarved
      ensures Synced() && Covered()
      ensures carved == old(carved) + {Vector2Int(x, y)}
      ensures uncarved == old(uncarved) - {Vector2Int(x, y)}
    {
      grid[x, y] := Passage;
      carved := carved + {Vector2Int(x, y)};
      uncarved := uncarved - {Vector2Int(x, y)};
    }

    /** The interior cells holding a passage: the cells the scan of FindEndOfPath may enter (line 117). */
    ghost function Passages(): (open: set<Vector2Int>)
      requires Shaped()
      reads this`grid, grid
    {
      set i, j | 1 <= i < width - 1 && 1 <= j < height - 1 && grid[i, j] == Passage :: Vector2Int(i, j)
    }

    /** Membership in `Passages` is the test of line 117. */
    lemma PassageTest(x: int, y: int)
      requires Shaped()
      ensures Vector2Int(x, y) in Passages() <==> IsValidPosition(x, y) && grid[x, y] == Passage
    {
      if IsValidPosition(x, y) && grid[x, y] == Passage {
        assert Vector2Int(x, y) == Vector2Int(x, y);
      }
    }

    lemma PassagesInside()
      requires Shaped()
      ensures InsideRing(Passages(), width, height)
    {
    }

    /** `visited` is a width x height array marking exactly the cells of `seen`. */
    ghost predicate Mirrors(visited: array2<bool>, seen: set<Vector2Int>)
      reads visited
    {
      && visited.Length0 == width && visited.Length1 == height
      && forall i, j {:trigger visited[i, j]} | 0 <= i < width && 0 <= j < height ::
           visited[i, j] <==> Vector2Int(i, j) in seen
    }

    /** Line 120: mark one cell visited. */
    method MarkVisited(visited: array2<bool>, x: int, y: int, ghost seen: set<Vector2Int>)
      requires Mirrors(visited, seen) && InBounds(x, y)
      modifies visited
      ensures Mirrors(visited, seen + {Vector2Int(x, y)})
    {
      visited[x, y] := true;
    }

    /** Lines 113-123: enqueue and mark, in table order, each valid unvisited passage next to `current`. */
    method VisitNeighbours(current: Vector2Int, visited: array2<bool>, queue: seq<Vector2Int>,
                           ghost open: set<Vector2Int>, ghost d: Discovery)
      returns (queue': seq<Vector2Int>, neighborCount: int, ghost d': Discovery)
      requires Shaped() && open == Passages() && InsideRing(open, width, height)
      requires ScanShape(d, open) && Mirrors(visited, d.seen) && current in d.seen
      modifies visited
      ensures ScanShape(d', open) && Mirrors(visited, d'.seen)
      ensures queue' == queue + NewNeighbours(current, open, d.seen, 4)
      ensures d'.order == d.order + NewNeighbours(current, open, d.seen, 4)
      ensures neighborCount == |NewNeighbours(current, open, d.seen, 4)|
      ensures d'.seen == d.seen + Elems(NewNeighbours(current, open, d.seen, 4))
      ensures neighborCount > 0 ==> InteriorOf(width, height) - d'.seen < InteriorOf(width, height) - d.seen
      ensures neighborCount == 0 ==> d' == d
    {
      queue', neighborCount, d' := queue, 0, d;
      for i := 0 to 4
        invariant VisitRound(current, open, d, d', i, width, height, queue, queue', neighborCount)
        invariant Mirrors(visited, d'.seen)
      {
        queue', neighborCount, d' := TryVisit(current, visited, i, queue, queue', neighborCount, open, d, d');
      }
    }

    /** Lines 114-122, for direction `i`: enqueue and mark the neighbour that way if it is a valid unvisited passage. */
    method TryVisit(current: Vector2Int, visited: array2<bool>, i: int, ghost queue0: seq<Vector2Int>,
                    queue: seq<Vector2Int>, neighborCount: int, ghost open: set<Vector2Int>,
                    ghost d0: Discovery, ghost d: Discovery)
      returns (queue': seq<Vector2Int>, neighborCount': int, ghost d': Discovery)
      requires Shaped() && open == Passages() && InsideRing(open, width, height) && 0 <= i < 4
      requires current in d0.seen && VisitRound(current, open, d0, d, i, width, height, queue0, queue, neighborCount)
      requires Mirrors(visited, d.seen)
      modifies visited
      ensures VisitRound(current, open, d0, d', i + 1, width, height, queue0, queue', neighborCount')
      ensures Mirrors(visited, d'.seen)
    {
      queue', neighborCount', d' := queue, neighborCount, d;
      var newX, newY := current.x + Dx[i], current.y + Dy[i];
      PassageTest(newX, newY);
      if IsValidPosition(newX, newY) && grid[newX, newY] == Passage && !visited[newX, newY] {
        d' := VisitTake(current, open, d0, d, i, width, height);
        assert (queue0 + NewNeighbours(current, open, d0.seen, i)) + [Neighbour(current, i)] ==
               queue0 + (NewNeighbours(current, open, d0.seen, i) + [Neighbour(current, i)]);
        queue' := queue + [Vector2Int(newX, newY)];
        MarkVisited(visited, newX, newY, d.seen);
        neighborCount' := neighborCount + 1;
      } else {
        VisitSkip(current, open, d0, d, i, width, height);
      }
    }

    /**
     * Lines 99-127: breadth-first scan of the passages from (1, 1),
     * collecting the cells from which nothing new is enqueued. The list is
     * never empty, since the last cell dequeued enqueues nothing; every cell
     * in it was enqueued (see `ScanShape`: once, and as (1, 1) or a passage
     * joined to (1, 1) through enqueued cells); and (1, 1) is in it exactly
     * when it has no passage neighbour.
     */
    method PathEnds() returns (pathEnds: seq<Vector2Int>, ghost d: Discovery)
      requires Shaped() && width >= 3 && height >= 3
      ensures pathEnds == DeadEnds(Passages()) && |pathEnds| > 0
      ensures forall c | c in pathEnds :: c in d.seen
      ensures ScanShape(d, Passages())
      ensures forall c | c in d.seen :: Explored(c, Passages(), d.seen)
      ensures Start in pathEnds <==> NoNeighbourIn(Start, Passages())
    {
      var queue := [Vector2Int(1, 1)];
      var visited := new bool[width, height]((i, j) => false);
      pathEnds := [];
      visited[1, 1] := true;
      ghost var open := Passages();
      PassagesInside();
      d := Discovery([Start], {Start}, map[], map[Start := 0]);
      ScanBegins(open);
      ghost var head;
      pathEnds, d, head := ScanAll(visited, queue, pathEnds, open, d);
      ScanEnds(open, d, head, [], pathEnds);
      assert open == Passages();
    }

    /** Lines 108-127: run the scan's rounds until the queue is empty. */
    method ScanAll(visited: array2<bool>, queue0: seq<Vector2Int>, pathEnds0: seq<Vector2Int>,
                   ghost open: set<Vector2Int>, ghost d0: Discovery)
      returns (pathEnds: seq<Vector2Int>, ghost d: Discovery, ghost head: int)
      requires Shaped() && open == Passages() && InsideRing(open, width, height)
      requires Scanning(open, d0, 0, queue0, pathEnds0) && Mirrors(visited, d0.seen)
      modifies visited
      ensures Scanning(open, d, head, [], pathEnds)
    {
      var queue := queue0;
      pathEnds, d, head := pathEnds0, d0, 0;
      while |queue| > 0
        invariant Scanning(open, d, head, queue, pathEnds) && Mirrors(visited, d.seen)
        decreases InteriorOf(width, height) - d.seen, |queue|
      {
        queue, pathEnds, d := ScanRound(visited, queue, pathEnds, open, d, head);
        head := head + 1;
      }
    }

    /**
     * Lines 110-126, one round of the scan: dequeue a cell, enqueue its new
     * neighbours, and record it as a path end when there are none.
     */
    method ScanRound(visited: array2<bool>, queue: seq<Vector2Int>, pathEnds: seq<Vector2Int>,
                     ghost open: set<Vector2Int>, ghost d: Discovery, ghost head: int)
      returns (queue': seq<Vector2Int>, pathEnds': seq<Vector2Int>, ghost d': Discovery)
      requires Shaped() && open == Passages() && InsideRing(open, width, height) && |queue| > 0
      requires Scanning(open, d, head, queue, pathEnds) && Mirrors(visited, d.seen)
      modifies visited
      ensures Scanning(open, d', head + 1, queue', pathEnds') && Mirrors(visited, d'.seen)
      ensures var added := NewNeighbours(queue[0], open, d.seen, 4);
        && queue' == queue[1..] + added
        && pathEnds' == if |added| == 0 then pathEnds + [queue[0]] else pathEnds
      ensures InteriorOf(width, height) - d'.seen < InteriorOf(width, height) - d.seen ||
              (d' == d && |queue'| < |queue|)
    {
      var current := queue[0];
      queue' := queue[1..];
      var neighborCount;
      queue', neighborCount, d' := VisitNeighbours(current, visited, queue', open, d);
      pathEnds' := pathEnds;
      if neighborCount == 0 {
        pathEnds' := pathEnds' + [current];
      }
      ScanAdvance(open, d, head, queue, pathEnds, d', queue', pathEnds');
    }

    /**
     * Lines 97-149: the scan's dead end closest to (width - 2, height - 2),
     * the first one on ties. The retry branch (lines 129-134) is dead, since
     * the scan always finds an end.
     */
    method FindEndOfPath() returns (bestEnd: Vector2Int, ghost pathEnds: seq<Vector2Int>, ghost d: Discovery)
      requires Shaped() && width >= 3 && height >= 3
      ensures pathEnds == DeadEnds(Passages())
      ensures bestEnd == Start || bestEnd in Passages()
      ensures bestEnd in pathEnds
      ensures FirstClosest(pathEnds, Vector2Int(width - 2, height - 2), bestEnd)
      ensures forall c | c in pathEnds :: c in d.seen
      ensures ScanShape(d, Passages())
      ensures forall c | c in d.seen :: Explored(c, Passages(), d.seen)
      ensures Start in pathEnds <==> NoNeighbourIn(Start, Passages())
    {
      ghost var open := Passages();
      var ends;
      ends, d := PathEnds();
      pathEnds := ends;
      if |ends| == 0 {
        assert false;
      }
      bestEnd := ClosestTo(ends, Vector2Int(width - 2, height - 2));
      assert open == Passages();
    }

    /**
     * The code of cell `c` once the maze `maze` is carved and marked: the
     * end mark on the cells of `ends`, then the start mark on (1, 1), then
     * passages on `maze` and walls elsewhere.
     */
    ghost function CodeAt(c: Vector2Int, maze: set<Vector2Int>, ends: set<Vector2Int>): (code: int)
    {
      if c in ends then EndMark else if c == Start then StartMark else if c in maze then Passage else Wall
    }

    /** Every cell of the grid holds its `CodeAt` code. */
    ghost predicate Painted(maze: set<Vector2Int>, ends: set<Vector2Int>)
      reads this`grid, grid
    {
      && Shaped()
      && forall i, j {:trigger grid[i, j]} | 0 <= i < width && 0 <= j < height ::
           grid[i, j] == CodeAt(Vector2Int(i, j), maze, ends)
    }

    /** Line 48: mark (1, 1), the first carved cell, as the start. */
    method MarkStart()
      requires Synced() && width >= 3 && height >= 3
      modifies grid
      ensures Painted(carved, {})
    {
      grid[1, 1] := StartMark;
    }

    /** Line 50: mark the chosen end, overwriting whatever it held. */
    method MarkEnd(endPos: Vector2Int, ghost maze: set<Vector2Int>)
      requires Painted(maze, {}) && InBounds(endPos.x, endPos.y)
      modifies grid
      ensures Painted(maze, {endPos})
    {
      grid[endPos.x, endPos.y] := EndMark;
    }

    /** Once (1, 1) is marked, the passages the scan may enter are the carved cells other than (1, 1). */
    lemma MarkedPassages(maze: set<Vector2Int>)
      requires Painted(maze, {}) && InsideRing(maze, width, height)
      ensures Passages() == maze - {Start}
    {
      forall c | c in maze - {Start}
        ensures c in Passages()
      {
        PassageTest(c.x, c.y);
      }
    }

    /**
     * In a grid of width or height at least 5, the carving from (1, 1) has
     * reached a lattice cell two steps away, so (1, 1) has a carved neighbour.
     */
    lemma StartHasExit()
      requires CarvedShape(carved, parent, rank, nextRank, width, height) && StepNeighboursCarved(1, 1)
      requires width >= 3 && height >= 3 && (width >= 5 || height >= 5)
      ensures !NoNeighbourIn(Start, carved - {Start})
    {
      assert Directions[0] == Vector2Int(0, 2) && Directions[1] == Vector2Int(2, 0);
      if width >= 5 {
        assert StepCarved(1, 1, Directions[1]);
        TreeLeavesRoot(carved, parent, rank, Start, Vector2Int(3, 1));
      } else {
        assert StepCarved(1, 1, Directions[0]);
        TreeLeavesRoot(carved, parent, rank, Start, Vector2Int(1, 3));
      }
    }

    /** Lines 41-44: a fresh width x height grid with a wall in every cell. */
    static method AllWalls(width: int, height: int) returns (g: array2<int>)
      requires width >= 0 && height >= 0
      ensures fresh(g) && g.Length0 == width && g.Length1 == height
      ensures forall i, j {:trigger g[i, j]} | 0 <= i < width && 0 <= j < height :: g[i, j] == Wall
    {
      g := new int[width, height];
      for x := 0 to width
        invariant forall i, j {:trigger g[i, j]} | 0 <= i < x && 0 <= j < height :: g[i, j] == Wall
      {
        for y := 0 to height
          invariant forall i, j {:trigger g[i, j]} | 0 <= i < x && 0 <= j < height :: g[i, j] == Wall
          invariant forall j | 0 <= j < y :: g[x, j] == Wall
        {
          g[x, y] := Wall;
        }
      }
    }

    /**
     * Lines 41-50: a fresh grid of walls, carved from (1, 1), with (1, 1)
     * marked as the start and the chosen dead end marked as the end. The
     * carved cells lie inside the outer ring, avoid the even-even pillars
     * and are joined to (1, 1) by the spanning tree `parent`; the end is reachable along `route`; it is
     * a distinct cell exactly when the grid is at least 5 wide or high, and
     * otherwise the only carved cell is (1, 1), whose start mark it overwrites.
     */
    method GenerateGrid(rng: Random) returns (endPos: Vector2Int, ghost pathEnds: seq<Vector2Int>,
                                              ghost route: seq<Vector2Int>)
      requires width >= 3 && height >= 3
      modifies this`grid, this`carved, this`parent, this`rank, this`nextRank, this`uncarved, rng
      ensures fresh(grid) && Painted(carved, {endPos})
      ensures CarvedShape(carved, parent, rank, nextRank, width, height) && Start in carved
      ensures pathEnds == DeadEnds(carved - {Start})
      ensures endPos in pathEnds && endPos in carved
      ensures FirstClosest(pathEnds, Vector2Int(width - 2, height - 2), endPos)
      ensures IsPathIn(route, carved) && route[0] == Start && route[|route| - 1] == endPos
      ensures width >= 5 || height >= 5 ==> endPos != Start
      ensures width < 5 && height < 5 ==> carved == {Start} && endPos == Start
    {
      grid := AllWalls(width, height);
      carved, parent, rank, nextRank, uncarved := {}, map[], map[], 0, InteriorOf(width, height);
      ghost var small := StepNeighboursCarved(1, 1);
      GenerateMaze(1, 1, rng);
      endPos, pathEnds, route := MarkEnds();
    }

    /**
     * Lines 48-50, on a freshly carved maze: mark (1, 1) as the start, then
     * mark the end chosen by FindEndOfPath.
     */
    method MarkEnds() returns (endPos: Vector2Int, ghost pathEnds: seq<Vector2Int>, ghost route: seq<Vector2Int>)
      requires MazeInv() && Start in carved && StepNeighboursCarved(1, 1)
      requires width < 5 && height < 5 ==> carved == {Start}
      modifies grid
      ensures Painted(carved, {endPos})
      ensures pathEnds == DeadEnds(carved - {Start})
      ensures endPos in pathEnds && endPos in carved
      ensures FirstClosest(pathEnds, Vector2Int(width - 2, height - 2), endPos)
      ensures IsPathIn(route, carved) && route[0] == Start && route[|route| - 1] == endPos
      ensures width >= 5 || height >= 5 ==> endPos != Start
      ensures width < 5 && height < 5 ==> endPos == Start
    {
      MarkStart();
      ghost var maze := carved;
      MarkedPassages(maze);
      ghost var d;
      endPos, pathEnds, d := FindEndOfPath();
      assert endPos in d.seen;
      route := ChainToRoot(carved, parent, rank, Start, endPos);
      if width >= 5 || height >= 5 {
        StartHasExit();
      } else {
        forall c | c in pathEnds
          ensures c == Start
        {
          assert c in d.seen;
        }
      }
      MarkEnd(endPos, maze);
    }
  }
}
