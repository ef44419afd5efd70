/** The grid path finder: a shortest route for a unit to its target on the 27 x 21
    battlefield, moving one cell at a time in any of 8 directions, around the cells that
    other living units occupy. Breadth-first search from the attacker's cell; the path is
    read back along the recorded parents and includes the attacker's own cell. */
module TargetPath {
  import opened Basics
  import opened Units

  const Width: int := 27
  const Height: int := 21

  /** The 8 moves, in the order the search tries them. */
  const DX: seq<int> := [-1, -1, -1, 0, 0, 1, 1, 1]
  const DY: seq<int> := [-1, 0, 1, -1, 1, -1, 0, 1]

  /** A grid cell; a returned path is a sequence of them. */
  datatype Edge = Edge(x: int, y: int)

  /** `isValid`: the coordinates lie on the grid. */
  predicate IsValid(x: int, y: int) {
    0 <= x < Width && 0 <= y < Height
  }

  predicate InGrid(c: Edge) {
    IsValid(c.x, c.y)
  }

  function CellOf(u: Unit): Edge {
    Edge(u.x, u.y)
  }

  /** The cell reached from `c` by move `k`. */
  function Neighbor(c: Edge, k: nat): Edge
    requires k < 8
  {
    Edge(c.x + DX[k], c.y + DY[k])
  }

  /** `b` is one move away from `a`. */
  predicate Adjacent(a: Edge, b: Edge) {
    exists k :: 0 <= k < 8 && b == Neighbor(a, k)
  }

  function Abs(v: int): nat {
    if v < 0 then -v else v
  }

  /** The number of king moves from `a` to `b` on an empty board. */
  function KingDistance(a: Edge, b: Edge): nat {
    var dx, dy := Abs(a.x - b.x), Abs(a.y - b.y);
    if dx < dy then dy else dx
  }

  /** The direction tables hold exactly the 8 king moves. */
  lemma AdjacentIsKingMove(a: Edge, b: Edge)
    ensures Adjacent(a, b) <==> KingDistance(a, b) == 1
  {
    if KingDistance(a, b) == 1 {
      var dx, dy := b.x - a.x, b.y - a.y;
      var k := if dx == -1 then (if dy == -1 then 0 else if dy == 0 then 1 else 2)
               else if dx == 0 then (if dy == -1 then 3 else 4)
               else (if dy == -1 then 5 else if dy == 0 then 6 else 7);
      assert b == Neighbor(a, k);
    }
  }

  // ---------------------------------------------------------------------------------------
  // Occupied cells

  /** A unit of `existingUnitList` that blocks its cell: non-null, neither the attacker nor
      the target, alive, and on the grid. */
  predicate Blocks(e: Option<Unit>, attacker: Unit, target: Unit) {
    e.Some? && e.value != attacker && e.value != target && IsAlive(e.value) && InGrid(CellOf(e.value))
  }

  /** The `occupied` set built from the units of `units`. */
  function Occupied(units: seq<Option<Unit>>, attacker: Unit, target: Unit): set<Edge>
  {
    if units == [] then {}
    else
      var n := |units| - 1;
      Occupied(units[..n], attacker, target)
        + (if Blocks(units[n], attacker, target) then {CellOf(units[n].value)} else {})
  }

  /** A cell is occupied exactly when some blocking unit stands on it. */
  lemma {:induction false} OccupiedMeaning(units: seq<Option<Unit>>, attacker: Unit, target: Unit, c: Edge)
    ensures c in Occupied(units, attacker, target) <==>
      exists i :: 0 <= i < |units| && Blocks(units[i], attacker, target) && CellOf(units[i].value) == c
  {
    if units != [] {
      var n := |units| - 1;
      OccupiedMeaning(units[..n], attacker, target, c);
      assert forall i :: 0 <= i < n ==> units[..n][i] == units[i];
    }
  }

  // ---------------------------------------------------------------------------------------
  // Walks and paths

  /** A cell a walk may step onto: on the grid, and free or the target's own cell. */
  predicate Enterable(c: Edge, target: Edge, occupied: set<Edge>) {
    InGrid(c) && (c !in occupied || c == target)
  }

  /** Step `i` of `w` is one of the 8 moves onto an enterable cell. */
  predicate StepOk(w: seq<Edge>, i: nat, target: Edge, occupied: set<Edge>)
    requires i + 1 < |w|
  {
    Adjacent(w[i], w[i + 1]) && Enterable(w[i + 1], target, occupied)
  }

  /** A route from `start` to `target` listed cell by cell, start included: every step is
      one of the 8 moves onto an enterable cell. Cells may repeat. */
  predicate IsWalk(w: seq<Edge>, start: Edge, target: Edge, occupied: set<Edge>) {
    && |w| >= 1 && w[0] == start && w[|w| - 1] == target
    && forall i :: 0 <= i < |w| - 1 ==> StepOk(w, i, target, occupied)
  }

  /** Consecutive cells are one move apart. */
  predicate Connected(w: seq<Edge>) {
    forall i :: 0 <= i < |w| - 1 ==> Adjacent(w[i], w[i + 1])
  }

  predicate NoRepeats(w: seq<Edge>) {
    forall i, j :: 0 <= i < j < |w| ==> w[i] != w[j]
  }

  /** A path the finder may return: a walk without repeated cells from an on-grid start,
      and no walk from start to target has fewer cells. */
  ghost predicate IsShortestPath(p: seq<Edge>, start: Edge, target: Edge, occupied: set<Edge>) {
    && InGrid(start) && IsWalk(p, start, target, occupied) && NoRepeats(p)
    && forall w :: IsWalk(w, start, target, occupied) ==> |p| <= |w|
  }

  /** Every walk from `start` to `target` has more than `d` steps. */
  ghost predicate NoWalkWithin(start: Edge, target: Edge, occupied: set<Edge>, d: nat) {
    forall w :: IsWalk(w, start, target, occupied) ==> d < |w|
  }

  ghost predicate Unreachable(start: Edge, target: Edge, occupied: set<Edge>) {
    forall w :: !IsWalk(w, start, target, occupied)
  }

  /** A walk needs at least one step per unit of king distance. */
  lemma {:induction false} WalkLength(w: seq<Edge>)
    requires |w| >= 1 && Connected(w)
    ensures |w| > KingDistance(w[0], w[|w| - 1])
  {
    if |w| > 1 {
      var n := |w| - 1;
      var front := w[..n];
      assert Connected(front) by {
        forall i | 0 <= i < |front| - 1
          ensures Adjacent(front[i], front[i + 1])
        {
          assert front[i] == w[i] && front[i + 1] == w[i + 1];
        }
      }
      WalkLength(front);
      AdjacentIsKingMove(w[n - 1], w[n]);
    }
  }

  /** With nothing in the way, the target two cells along a row is reached in two steps:
      three cells, start included. */
  lemma StraightLineExample()
    ensures IsWalk([Edge(0, 0), Edge(1, 0), Edge(2, 0)], Edge(0, 0), Edge(2, 0), {})
    ensures forall w :: IsWalk(w, Edge(0, 0), Edge(2, 0), {}) ==> |w| >= 3
  {
    assert Edge(1, 0) == Neighbor(Edge(0, 0), 6);
    assert Edge(2, 0) == Neighbor(Edge(1, 0), 6);
    forall w | IsWalk(w, Edge(0, 0), Edge(2, 0), {})
      ensures |w| >= 3
    {
      assert Connected(w) by {
        forall i | 0 <= i < |w| - 1
          ensures Adjacent(w[i], w[i + 1])
        {
          assert StepOk(w, i, Edge(2, 0), {});
        }
      }
      WalkLength(w);
    }
  }

  /** A unit standing on its target's cell gets the one-cell path. */
  lemma SameCellPath(p: seq<Edge>, start: Edge, occupied: set<Edge>)
    requires IsShortestPath(p, start, start, occupied)
    ensures p == [start]
  {
    assert IsWalk([start], start, start, occupied);
    assert |p| == 1;
  }

  /** A returned path has more cells than the king distance between its ends. */
  lemma ShortestPathLength(p: seq<Edge>, start: Edge, target: Edge, occupied: set<Edge>)
    requires IsShortestPath(p, start, target, occupied)
    ensures |p| > KingDistance(start, target)
  {
    assert Connected(p) by {
      forall i | 0 <= i < |p| - 1
        ensures Adjacent(p[i], p[i + 1])
      {
        assert StepOk(p, i, target, occupied);
      }
    }
    WalkLength(p);
  }

  // ---------------------------------------------------------------------------------------
  // The search

  /** The parent links as a tree: `dist` maps every visited cell to its depth and `par` maps
      every visited cell but the start to the cell it was discovered from. */
  ghost predicate Tree(start: Edge, target: Edge, occupied: set<Edge>, dist: map<Edge, nat>, par: map<Edge, Edge>) {
    && start in dist && dist[start] == 0 && start !in par
    && (forall p :: p in dist ==> InGrid(p))
    && (forall p :: p in dist && p != start ==>
          && p in par && par[p] in dist && Adjacent(par[p], p)
          && Enterable(p, target, occupied) && dist[p] == dist[par[p]] + 1)
  }

  /** The queue: distinct visited cells, depths non-decreasing and within one of `lo`. */
  ghost predicate QueueOk(queue: seq<Edge>, dist: map<Edge, nat>, lo: int) {
    && (forall i :: 0 <= i < |queue| ==> queue[i] in dist && lo <= dist[queue[i]] <= lo + 1)
    && (forall i, j :: 0 <= i < j < |queue| ==> dist[queue[i]] <= dist[queue[j]])
    && (forall i, j :: 0 <= i < j < |queue| ==> queue[i] != queue[j])
  }

  /** A visited cell that has left the queue has had all its moves tried. */
  ghost predicate Expanded(c: Edge, target: Edge, occupied: set<Edge>, dist: map<Edge, nat>)
    requires c in dist
  {
    forall k :: 0 <= k < 8 && Enterable(Neighbor(c, k), target, occupied) ==>
      Neighbor(c, k) in dist && dist[Neighbor(c, k)] <= dist[c] + 1
  }

  /** The invariant of the search loop. */
  ghost predicate BfsInv(start: Edge, target: Edge, occupied: set<Edge>, queue: seq<Edge>,
                         dist: map<Edge, nat>, par: map<Edge, Edge>) {
    && Tree(start, target, occupied, dist, par)
    && (queue != [] ==> queue[0] in dist && QueueOk(queue, dist, dist[queue[0]]))
    && (forall c :: c in dist && c !in queue ==> Expanded(c, target, occupied, dist))
    && (queue != [] ==> forall c :: c in dist && c !in queue ==> dist[c] <= dist[queue[0]])
    && (target in dist ==> target in queue)
  }

  /** The invariant while the moves of `cur` (already dequeued) are tried: moves below `i` done. */
  ghost predicate Expanding(start: Edge, target: Edge, occupied: set<Edge>, cur: Edge, queue: seq<Edge>,
                            dist: map<Edge, nat>, par: map<Edge, Edge>, i: nat) {
    && i <= 8
    && Tree(start, target, occupied, dist, par)
    && cur in dist && cur !in queue && cur != target
    && QueueOk(queue, dist, dist[cur])
    && (forall c :: c in dist && c !in queue && c != cur ==> Expanded(c, target, occupied, dist))
    && (forall k :: 0 <= k < i && Enterable(Neighbor(cur, k), target, occupied) ==>
          Neighbor(cur, k) in dist && dist[Neighbor(cur, k)] <= dist[cur] + 1)
    && (forall c :: c in dist && c !in queue ==> dist[c] <= dist[cur])
    && (target in dist ==> target in queue)
  }

  lemma BeginExpand(start: Edge, target: Edge, occupied: set<Edge>, queue: seq<Edge>,
                    dist: map<Edge, nat>, par: map<Edge, Edge>)
    requires BfsInv(start, target, occupied, queue, dist, par)
    requires queue != [] && queue[0] != target
    ensures Expanding(start, target, occupied, queue[0], queue[1..], dist, par, 0)
  {
    var cur, rest := queue[0], queue[1..];
    assert cur !in rest by {
      forall j | 0 <= j < |rest| ensures rest[j] != cur {
        assert rest[j] == queue[j + 1];
      }
    }
    forall c | c in dist && c !in rest && c != cur
      ensures Expanded(c, target, occupied, dist)
    {
      assert c !in queue;
    }
    forall c | c in dist && c !in rest
      ensures dist[c] <= dist[cur]
    {
      if c != cur {
        assert c !in queue;
      }
    }
    assert QueueOk(rest, dist, dist[cur]) by {
      forall i | 0 <= i < |rest|
        ensures rest[i] in dist && dist[cur] <= dist[rest[i]] <= dist[cur] + 1
      {
        assert rest[i] == queue[i + 1];
      }
      forall i, j | 0 <= i < j < |rest|
        ensures dist[rest[i]] <= dist[rest[j]] && rest[i] != rest[j]
      {
        assert rest[i] == queue[i + 1] && rest[j] == queue[j + 1];
      }
    }
  }

  /** Move `i` leads off the grid, onto a blocked cell, or onto a visited cell: nothing to do. */
  lemma ExpandSkip(start: Edge, target: Edge, occupied: set<Edge>, cur: Edge, queue: seq<Edge>,
                   dist: map<Edge, nat>, par: map<Edge, Edge>, i: nat)
    requires Expanding(start, target, occupied, cur, queue, dist, par, i) && i < 8
    requires !Enterable(Neighbor(cur, i), target, occupied) || Neighbor(cur, i) in dist
    ensures Expanding(start, target, occupied, cur, queue, dist, par, i + 1)
  {
    var n := Neighbor(cur, i);
    if Enterable(n, target, occupied) && n in dist && n !in queue {
      assert dist[n] <= dist[cur];
    }
  }

  /** Adding a newly discovered cell `n` under `cur` keeps the tree. */
  lemma AddToTree(start: Edge, target: Edge, occupied: set<Edge>, dist: map<Edge, nat>,
                  par: map<Edge, Edge>, cur: Edge, n: Edge)
    requires Tree(start, target, occupied, dist, par)
    requires cur in dist && n !in dist && Adjacent(cur, n) && Enterable(n, target, occupied)
    ensures Tree(start, target, occupied, dist[n := dist[cur] + 1], par[n := cur])
  {
    var dist', par' := dist[n := dist[cur] + 1], par[n := cur];
    forall p | p in dist' && p != start
      ensures p in par' && par'[p] in dist' && Adjacent(par'[p], p)
      ensures Enterable(p, target, occupied) && dist'[p] == dist'[par'[p]] + 1
    {
      if p != n {
        assert p in dist && par[p] in dist && par[p] != n;
      }
    }
  }

  /** Appending a newly discovered cell one level below `cur` keeps the queue ordered. */
  lemma AddToQueue(queue: seq<Edge>, dist: map<Edge, nat>, cur: Edge, n: Edge)
    requires cur in dist && n !in dist && QueueOk(queue, dist, dist[cur])
    ensures QueueOk(queue + [n], dist[n := dist[cur] + 1], dist[cur])
  {
    var queue', dist' := queue + [n], dist[n := dist[cur] + 1];
    forall j | 0 <= j < |queue'|
      ensures queue'[j] in dist' && dist[cur] <= dist'[queue'[j]] <= dist[cur] + 1
    {
      if j < |queue| {
        assert queue'[j] == queue[j] && queue[j] in dist && queue[j] != n;
      }
    }
    forall j, l | 0 <= j < l < |queue'|
      ensures dist'[queue'[j]] <= dist'[queue'[l]] && queue'[j] != queue'[l]
    {
      assert queue'[j] == queue[j] && queue[j] in dist && queue[j] != n;
      if l < |queue| {
        assert queue'[l] == queue[l] && queue[l] in dist && queue[l] != n;
      }
    }
  }

  /** Move `i` leads onto an enterable unvisited cell: it joins the queue one level deeper. */
  lemma ExpandAdd(start: Edge, target: Edge, occupied: set<Edge>, cur: Edge, queue: seq<Edge>,
                  dist: map<Edge, nat>, par: map<Edge, Edge>, i: nat)
    requires Expanding(start, target, occupied, cur, queue, dist, par, i) && i < 8
    requires Enterable(Neighbor(cur, i), target, occupied) && Neighbor(cur, i) !in dist
    ensures var n := Neighbor(cur, i);
      Expanding(start, target, occupied, cur, queue + [n], dist[n := dist[cur] + 1], par[n := cur], i + 1)
  {
    var n := Neighbor(cur, i);
    var queue', dist', par' := queue + [n], dist[n := dist[cur] + 1], par[n := cur];
    assert Adjacent(cur, n);
    AddToTree(start, target, occupied, dist, par, cur, n);
    AddToQueue(queue, dist, cur, n);
    forall c | c in dist' && c !in queue' && c != cur
      ensures Expanded(c, target, occupied, dist')
    {
      assert c != n && c in dist && c !in queue;
      assert Expanded(c, target, occupied, dist);
      forall k | 0 <= k < 8 && Enterable(Neighbor(c, k), target, occupied)
        ensures Neighbor(c, k) in dist' && dist'[Neighbor(c, k)] <= dist'[c] + 1
      {
        assert Neighbor(c, k) in dist && Neighbor(c, k) != n;
      }
    }
    forall k | 0 <= k < i + 1 && Enterable(Neighbor(cur, k), target, occupied)
      ensures Neighbor(cur, k) in dist' && dist'[Neighbor(cur, k)] <= dist'[cur] + 1
    {
      if k < i && Neighbor(cur, k) != n {
        assert Neighbor(cur, k) in dist;
      }
    }
    forall c | c in dist' && c !in queue'
      ensures dist'[c] <= dist'[cur]
    {
      assert c != n && c in dist && c !in queue;
    }
  }

  /** All 8 moves of `cur` tried: `cur` is expanded and the search invariant holds again. */
  lemma FinishExpand(start: Edge, target: Edge, occupied: set<Edge>, cur: Edge, queue: seq<Edge>,
                     dist: map<Edge, nat>, par: map<Edge, Edge>)
    requires Expanding(start, target, occupied, cur, queue, dist, par, 8)
    ensures BfsInv(start, target, occupied, queue, dist, par)
  {
    assert Expanded(cur, target, occupied, dist);
    if queue != [] {
      var lo := dist[queue[0]];
      assert QueueOk(queue, dist, lo) by {
        forall j | 0 <= j < |queue|
          ensures queue[j] in dist && lo <= dist[queue[j]] <= lo + 1
        {
          if j > 0 {
            assert dist[queue[0]] <= dist[queue[j]];
          }
        }
      }
    }
  }

  /** Along a walk whose first `i` cells have all been expanded, the `i`-th cell has been
      visited at depth at most `i`. */
  lemma {:induction false} WalkReach(start: Edge, target: Edge, occupied: set<Edge>, queue: seq<Edge>,
                                     dist: map<Edge, nat>, par: map<Edge, Edge>, w: seq<Edge>, i: nat)
    requires BfsInv(start, target, occupied, queue, dist, par)
    requires IsWalk(w, start, target, occupied)
    requires i < |w|
    requires forall j :: 0 <= j < i ==> w[j] !in queue
    ensures w[i] in dist && dist[w[i]] <= i
  {
    if i > 0 {
      WalkReach(start, target, occupied, queue, dist, par, w, i - 1);
      var prev := w[i - 1];
      assert prev in dist && prev !in queue;
      assert Expanded(prev, target, occupied, dist);
      assert StepOk(w, i - 1, target, occupied);
      var k :| 0 <= k < 8 && w[i] == Neighbor(prev, k);
    }
  }

  /** The first cell of `w` that is in `queue`, when its last one is. */
  lemma FirstQueued(w: seq<Edge>, queue: seq<Edge>) returns (i: nat)
    requires |w| >= 1 && w[|w| - 1] in queue
    ensures i < |w| && w[i] in queue
    ensures forall j :: 0 <= j < i ==> w[j] !in queue
  {
    i := 0;
    while w[i] !in queue
      invariant 0 <= i < |w|
      invariant forall j :: 0 <= j < i ==> w[j] !in queue
      decreases |w| - i
    {
      i := i + 1;
    }
  }

  /** The head of the queue is at a depth no greater than any queued cell. */
  lemma QueueHeadLeast(start: Edge, target: Edge, occupied: set<Edge>, queue: seq<Edge>,
                       dist: map<Edge, nat>, par: map<Edge, Edge>, j: nat)
    requires BfsInv(start, target, occupied, queue, dist, par)
    requires j < |queue|
    ensures queue[0] in dist && queue[j] in dist && dist[queue[0]] <= dist[queue[j]]
  {
    if j > 0 {
      assert dist[queue[0]] <= dist[queue[j]];
    }
  }

  /** When the target reaches the head of the queue, no walk to it is shorter than its depth. */
  lemma FoundIsShortest(start: Edge, target: Edge, occupied: set<Edge>, queue: seq<Edge>,
                        dist: map<Edge, nat>, par: map<Edge, Edge>, w: seq<Edge>)
    requires BfsInv(start, target, occupied, queue, dist, par)
    requires queue != [] && queue[0] == target
    requires IsWalk(w, start, target, occupied)
    ensures dist[target] < |w|
  {
    assert |w| >= 1 && w[|w| - 1] == queue[0];
    hide BfsInv, IsWalk;
    var i := FirstQueued(w, queue);
    WalkReach(start, target, occupied, queue, dist, par, w, i);
    var j :| 0 <= j < |queue| && queue[j] == w[i];
    QueueHeadLeast(start, target, occupied, queue, dist, par, j);
  }

  /** When the target comes to the front of the queue, its distance is a lower bound for
      every walk. */
  lemma FoundIsOptimal(start: Edge, target: Edge, occupied: set<Edge>, queue: seq<Edge>,
                       dist: map<Edge, nat>, par: map<Edge, Edge>)
    requires BfsInv(start, target, occupied, queue, dist, par)
    requires queue != [] && queue[0] == target
    ensures target in dist && NoWalkWithin(start, target, occupied, dist[target])
  {
    forall w | IsWalk(w, start, target, occupied)
      ensures dist[target] < |w|
    {
      FoundIsShortest(start, target, occupied, queue, dist, par, w);
    }
  }

  /** When the queue runs empty without the target, no walk reaches it. */
  lemma ExhaustedIsUnreachable(start: Edge, target: Edge, occupied: set<Edge>,
                               dist: map<Edge, nat>, par: map<Edge, Edge>)
    requires BfsInv(start, target, occupied, [], dist, par)
    ensures Unreachable(start, target, occupied)
  {
    forall w | IsWalk(w, start, target, occupied)
      ensures false
    {
      WalkReach(start, target, occupied, [], dist, par, w, |w| - 1);
    }
  }

  /** Every cell of the grid. */
  function GridCells(): set<Edge> {
    set x, y | 0 <= x < Width && 0 <= y < Height :: Edge(x, y)
  }

  /** `visited[x][y]` records exactly the cells of `dist`. */
  ghost predicate VisitedMirror(visited: array2<bool>, dist: map<Edge, nat>)
    reads visited
  {
    && visited.Length0 == Width && visited.Length1 == Height
    && forall x, y :: 0 <= x < Width && 0 <= y < Height ==> (visited[x, y] <==> Edge(x, y) in dist)
  }

  /** `parent[x][y]` holds the parent of every visited cell, and null at the start. */
  ghost predicate ParentMirror(parent: array2<Option<Edge>>, start: Edge, dist: map<Edge, nat>, par: map<Edge, Edge>)
    reads parent
  {
    && parent.Length0 == Width && parent.Length1 == Height
    && forall p :: p in dist && InGrid(p) ==>
         parent[p.x, p.y] == (if p == start || p !in par then None else Some(par[p]))
  }

  /** Records `next` as visited, discovered from `current`. */
  method Mark(visited: array2<bool>, parent: array2<Option<Edge>>, start: Edge, next: Edge, current: Edge,
              ghost dist: map<Edge, nat>, ghost par: map<Edge, Edge>, ghost depth: nat)
    requires VisitedMirror(visited, dist) && ParentMirror(parent, start, dist, par)
    requires InGrid(next) && next !in dist && start in dist
    modifies visited, parent
    ensures VisitedMirror(visited, dist[next := depth])
    ensures ParentMirror(parent, start, dist[next := depth], par[next := current])
  {
    visited[next.x, next.y] := true;
    parent[next.x, next.y] := Some(current);
  }

  /** One pass of the inner loop of the search: try move `i` from `current`. A cell joins the
      queue when it is on the grid, not yet visited, and free or the target's cell. */
  method TryMove(start: Edge, target: Edge, occupied: set<Edge>, current: Edge, i: nat,
                 visited: array2<bool>, parent: array2<Option<Edge>>,
                 queue: seq<Edge>, ghost dist: map<Edge, nat>, ghost par: map<Edge, Edge>)
    returns (queue': seq<Edge>, ghost dist': map<Edge, nat>, ghost par': map<Edge, Edge>)
    requires i < 8 && Expanding(start, target, occupied, current, queue, dist, par, i)
    requires VisitedMirror(visited, dist) && ParentMirror(parent, start, dist, par)
    requires dist.Keys <= GridCells()
    modifies visited, parent
    ensures Expanding(start, target, occupied, current, queue', dist', par', i + 1)
    ensures VisitedMirror(visited, dist') && ParentMirror(parent, start, dist', par')
    ensures dist.Keys <= dist'.Keys <= GridCells()
    ensures GridCells() - dist'.Keys < GridCells() - dist.Keys || (dist' == dist && queue' == queue)
  {
    queue', dist', par' := queue, dist, par;
    var newX := current.x + DX[i];
    var newY := current.y + DY[i];
    var next := Edge(newX, newY);
    assert next == Neighbor(current, i);
    if IsValid(newX, newY) && !visited[newX, newY] {
      // occupied cells are skipped, except the target's own
      if next in occupied && !(newX == target.x && newY == target.y) {
        ExpandSkip(start, target, occupied, current, queue, dist, par, i);
        return;
      }
      ExpandAdd(start, target, occupied, current, queue, dist, par, i);
      Mark(visited, parent, start, next, current, dist, par, dist[current] + 1);
      queue' := queue + [next];
      dist', par' := dist[next := dist[current] + 1], par[next := current];
      assert next in GridCells() - dist.Keys && next !in GridCells() - dist'.Keys;
    } else {
      ExpandSkip(start, target, occupied, current, queue, dist, par, i);
    }
  }

  /** The inner loop of the search: try the 8 moves of the dequeued cell `current`. */
  method ExpandCell(start: Edge, target: Edge, occupied: set<Edge>, current: Edge,
                    visited: array2<bool>, parent: array2<Option<Edge>>,
                    queue: seq<Edge>, ghost dist: map<Edge, nat>, ghost par: map<Edge, Edge>)
    returns (queue': seq<Edge>, ghost dist': map<Edge, nat>, ghost par': map<Edge, Edge>)
    requires Expanding(start, target, occupied, current, queue, dist, par, 0)
    requires VisitedMirror(visited, dist) && ParentMirror(parent, start, dist, par)
    requires dist.Keys <= GridCells()
    modifies visited, parent
    ensures BfsInv(start, target, occupied, queue', dist', par')
    ensures VisitedMirror(visited, dist') && ParentMirror(parent, start, dist', par')
    ensures dist.Keys <= dist'.Keys <= GridCells()
    ensures GridCells() - dist'.Keys < GridCells() - dist.Keys || (dist' == dist && queue' == queue)
  {
    queue', dist', par' := queue, dist, par;
    for i := 0 to 8
      invariant Expanding(start, target, occupied, current, queue', dist', par', i)
      invariant VisitedMirror(visited, dist') && ParentMirror(parent, start, dist', par')
      invariant dist.Keys <= dist'.Keys <= GridCells()
      invariant GridCells() - dist'.Keys < GridCells() - dist.Keys || (dist' == dist && queue' == queue)
    {
      queue', dist', par' := TryMove(start, target, occupied, current, i, visited, parent, queue', dist', par');
    }
    FinishExpand(start, target, occupied, current, queue', dist', par');
  }

  /** The state before the first dequeue: only `start` is visited and queued. */
  method StartSearch(start: Edge, target: Edge, occupied: set<Edge>)
    returns (visited: array2<bool>, parent: array2<Option<Edge>>, queue: seq<Edge>,
             ghost dist: map<Edge, nat>, ghost par: map<Edge, Edge>)
    requires InGrid(start)
    ensures fresh(visited) && fresh(parent)
    ensures BfsInv(start, target, occupied, queue, dist, par)
    ensures VisitedMirror(visited, dist) && ParentMirror(parent, start, dist, par)
    ensures dist.Keys <= GridCells()
  {
    visited := new bool[Width, Height]((i, j) => false);
    parent := new Option<Edge>[Width, Height]((i, j) => None);
    queue := [start];
    visited[start.x, start.y] := true;
    parent[start.x, start.y] := None;
    dist, par := map[start := 0], map[];
  }

  /** The breadth-first search of `getTargetPath`: explore from `start` until `target` is
      dequeued or the queue is empty. */
  method Search(start: Edge, target: Edge, occupied: set<Edge>)
    returns (found: bool, parent: array2<Option<Edge>>, ghost dist: map<Edge, nat>, ghost par: map<Edge, Edge>)
    requires InGrid(start) && InGrid(target)
    ensures fresh(parent)
    ensures Tree(start, target, occupied, dist, par) && ParentMirror(parent, start, dist, par)
    ensures found ==> target in dist && NoWalkWithin(start, target, occupied, dist[target])
    ensures !found ==> Unreachable(start, target, occupied)
  {
    var visited, queue;
    visited, parent, queue, dist, par := StartSearch(start, target, occupied);
    found := false;
    while queue != []
      invariant BfsInv(start, target, occupied, queue, dist, par)
      invariant VisitedMirror(visited, dist) && ParentMirror(parent, start, dist, par)
      invariant dist.Keys <= GridCells()
      decreases GridCells() - dist.Keys, |queue|
    {
      var current := queue[0];
      if current.x == target.x && current.y == target.y {
        FoundIsOptimal(start, target, occupied, queue, dist, par);
        found := true;
        break;
      }
      BeginExpand(start, target, occupied, queue, dist, par);
      queue := queue[1..];
      queue, dist, par := ExpandCell(start, target, occupied, current, visited, parent, queue, dist, par);
    }
    if !found {
      ExhaustedIsUnreachable(start, target, occupied, dist, par);
    }
  }

  /** What one step back along the parent links relies on. */
  lemma ParentLink(start: Edge, target: Edge, occupied: set<Edge>, parent: array2<Option<Edge>>,
                   dist: map<Edge, nat>, par: map<Edge, Edge>, c: Edge)
    requires Tree(start, target, occupied, dist, par) && ParentMirror(parent, start, dist, par)
    requires c in dist
    ensures InGrid(c) && parent.Length0 == Width && parent.Length1 == Height
    ensures c == start ==> dist[c] == 0 && parent[c.x, c.y] == None
    ensures c != start ==> c in par && par[c] in dist && dist[c] == dist[par[c]] + 1 && parent[c.x, c.y] == Some(par[c])
  {
  }

  /** A chain of cells from the start, each the parent of the next and one level deeper, is
      a walk without repeated cells. */
  lemma ChainIsPath(start: Edge, target: Edge, occupied: set<Edge>, dist: map<Edge, nat>,
                    par: map<Edge, Edge>, path: seq<Edge>)
    requires Tree(start, target, occupied, dist, par)
    requires path != [] && path[0] == start && path[|path| - 1] == target
    requires forall j :: 0 <= j < |path| ==> path[j] in dist && dist[path[j]] == dist[path[0]] + j
    requires forall j :: 1 <= j < |path| ==> path[j] != start && path[j] in par && par[path[j]] == path[j - 1]
    ensures IsWalk(path, start, target, occupied) && NoRepeats(path)
  {
    forall j | 0 <= j < |path| - 1
      ensures StepOk(path, j, target, occupied)
    {
      assert path[j + 1] in dist && path[j + 1] != start;
    }
    forall i, j | 0 <= i < j < |path|
      ensures path[i] != path[j]
    {
      assert dist[path[i]] < dist[path[j]];
    }
  }

  /** Read the path back from `target` along the parent links, adding each cell at the front,
      until the start (which has no parent) has been added. */
  method Reconstruct(start: Edge, target: Edge, occupied: set<Edge>, parent: array2<Option<Edge>>,
                     ghost dist: map<Edge, nat>, ghost par: map<Edge, Edge>)
    returns (path: seq<Edge>)
    requires Tree(start, target, occupied, dist, par) && ParentMirror(parent, start, dist, par)
    requires target in dist
    ensures IsWalk(path, start, target, occupied) && NoRepeats(path)
    ensures |path| == dist[target] + 1
  {
    hide Tree, ParentMirror, IsWalk, NoRepeats;
    path := [];
    var current := Some(target);
    while current.Some?
      invariant current.Some? ==> current.value in dist && dist[current.value] + |path| == dist[target]
      invariant current.Some? <==> |path| <= dist[target]
      invariant current.Some? && path != [] ==> path[0] != start && path[0] in par && par[path[0]] == current.value
      invariant current.None? ==> path != [] && path[0] == start
      invariant current == Some(target) <==> path == []
      invariant path != [] ==> path[|path| - 1] == target
      invariant forall j :: 0 <= j < |path| ==>
        path[j] in dist && dist[path[j]] == dist[target] + 1 - |path| + j
      invariant forall j :: 1 <= j < |path| ==> path[j] != start && path[j] in par && par[path[j]] == path[j - 1]
      decreases if current.Some? then dist[current.value] + 1 else 0
    {
      var c := current.value;
      ParentLink(start, target, occupied, parent, dist, par, c);
      path := [c] + path;
      current := parent[c.x, c.y];
    }
    ChainIsPath(start, target, occupied, dist, par, path);
  }

  /** `getTargetPath`: the empty path for a missing unit, an off-grid start or target, or an
      unreachable target; otherwise a shortest walk from the attacker's cell to the target's. */
  method GetTargetPath(attackUnit: Option<Unit>, targetUnit: Option<Unit>, existingUnitList: seq<Option<Unit>>)
    returns (path: seq<Edge>)
    ensures attackUnit.None? || targetUnit.None? ==> path == []
    ensures attackUnit.Some? && targetUnit.Some? ==>
      var start, target := CellOf(attackUnit.value), CellOf(targetUnit.value);
      var occupied := Occupied(existingUnitList, attackUnit.value, targetUnit.value);
      && (!InGrid(start) || !InGrid(target) ==> path == [])
      && (InGrid(start) && InGrid(target) ==>
            && (path == [] <==> Unreachable(start, target, occupied))
            && (path != [] ==> IsShortestPath(path, start, target, occupied)))
  {
    if attackUnit.None? || targetUnit.None? {
      return [];
    }
    var attacker, targetU := attackUnit.value, targetUnit.value;
    var start, target := CellOf(attacker), CellOf(targetU);
    if !IsValid(start.x, start.y) || !IsValid(target.x, target.y) {
      return [];
    }
    var occupied: set<Edge> := {};
    for i := 0 to |existingUnitList|
      invariant occupied == Occupied(existingUnitList[..i], attacker, targetU)
    {
      assert existingUnitList[..i + 1][..i] == existingUnitList[..i];
      var unit := existingUnitList[i];
      if unit.Some? && unit.value != attacker && unit.value != targetU && IsAlive(unit.value) {
        if IsValid(unit.value.x, unit.value.y) {
          occupied := occupied + {CellOf(unit.value)};
        }
      }
    }
    assert existingUnitList[..|existingUnitList|] == existingUnitList;
    var found, parent, dist, par := Search(start, target, occupied);
    if !found {
      return [];
    }
    path := Reconstruct(start, target, occupied, parent, dist, par);
  }
}
