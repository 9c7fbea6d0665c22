/** The planner (astar_search.py): a best-first search over copies of grid
    cells, with a priority fringe, a visited set and parent links.

    Search nodes live in an arena, a sequence of cell copies; a node's
    `parent` is the arena index of the node it was pushed from, which is
    always smaller than its own index. Fringe items name arena indices. The
    priority queue is a sequence; a pop takes an item of least priority
    (the source's heap breaks ties in an order the model does not fix). */
module AStar {
  import opened Wrappers
  import opened Grid

  /** `PrioritizedItem`: a priority and the arena index of the node it carries. */
  datatype Item = Item(priority: int, node: nat)

  /** Every parent link points to an earlier node of the arena. */
  ghost predicate WellLinked(arena: seq<Cell>)
  {
    forall i :: 0 <= i < |arena| && arena[i].parent.Some? ==> arena[i].parent.value < i
  }

  /** The parent chain that ends at node `i`, first node first. */
  function Chain(arena: seq<Cell>, i: nat): (r: seq<Cell>)
    requires WellLinked(arena) && i < |arena|
    ensures |r| >= 1 && r[|r| - 1] == arena[i] && r[0].parent.None?
    decreases i
  {
    if arena[i].parent.None? then [arena[i]]
    else Chain(arena, arena[i].parent.value) + [arena[i]]
  }

  /** The arena indices of `Chain(arena, i)`. */
  ghost function ChainIdx(arena: seq<Cell>, i: nat): (r: seq<nat>)
    requires WellLinked(arena) && i < |arena|
    ensures |r| >= 1 && r[|r| - 1] == i
    ensures forall k :: 0 <= k < |r| ==> r[k] <= i
    decreases i
  {
    if arena[i].parent.None? then [i]
    else ChainIdx(arena, arena[i].parent.value) + [i]
  }

  /** The chain is read off the arena at its indices; the indices increase;
      the first has no parent and each later node's parent is the one before. */
  lemma {:induction false} ChainShape(arena: seq<Cell>, i: nat)
    requires WellLinked(arena) && i < |arena|
    ensures |ChainIdx(arena, i)| == |Chain(arena, i)|
    ensures forall k :: 0 <= k < |Chain(arena, i)| ==>
              ChainIdx(arena, i)[k] < |arena| && Chain(arena, i)[k] == arena[ChainIdx(arena, i)[k]]
    ensures forall k, l :: 0 <= k < l < |ChainIdx(arena, i)| ==> ChainIdx(arena, i)[k] < ChainIdx(arena, i)[l]
    ensures arena[ChainIdx(arena, i)[0]].parent.None?
    ensures forall k :: 0 < k < |Chain(arena, i)| ==>
              Chain(arena, i)[k].parent == Some(ChainIdx(arena, i)[k - 1])
    decreases i
  {
    if arena[i].parent.Some? {
      var p := arena[i].parent.value;
      ChainShape(arena, p);
      var c, ci := Chain(arena, p), ChainIdx(arena, p);
      assert Chain(arena, i) == c + [arena[i]];
      assert ChainIdx(arena, i) == ci + [i];
      assert ci[|ci| - 1] == p;
    }
  }

  /** `backtrack`: follows parent links from node `i`, prepending each node. */
  method Backtrack(arena: seq<Cell>, i: nat) returns (path: seq<Cell>)
    requires WellLinked(arena) && i < |arena|
    ensures path == Chain(arena, i)
    ensures |path| >= 1 && path[|path| - 1] == arena[i] && path[0].parent.None?
  {
    path := [];
    var current: Option<nat> := Some(i);
    while current.Some?
      invariant current.Some? ==> current.value < |arena| && Chain(arena, current.value) + path == Chain(arena, i)
      invariant current.None? ==> path == Chain(arena, i)
      decreases if current.Some? then current.value + 1 else 0
    {
      var c := arena[current.value];
      path := [c] + path;
      current := c.parent;
    }
  }

  /** The positions of a path's cells. */
  function Positions(p: seq<Cell>): (r: seq<Pos>)
    ensures |r| == |p| && forall k :: 0 <= k < |p| ==> r[k] == p[k].At()
  {
    seq(|p|, k requires 0 <= k < |p| => p[k].At())
  }

  /** A walk from `s` to `goal`: in bounds, 4-adjacent steps, and no cell after
      the first is Blocked in `grid` (an Unconfirmed cell is passable). */
  ghost predicate IsWalk(grid: GridWorld, s: Pos, goal: Pos, w: seq<Pos>)
    reads grid.cells
    requires grid.Valid()
  {
    |w| >= 1 && w[0] == s && w[|w| - 1] == goal &&
    (forall k :: 0 <= k < |w| ==> InBounds(w[k], grid.dim)) &&
    (forall k :: 0 < k < |w| ==> Manhattan(w[k - 1], w[k]) == 1) &&
    (forall k :: 0 < k < |w| ==> InBounds(w[k], grid.dim) && !grid.cells[w[k].x, w[k].y].IsBlocked())
  }

  ghost predicate Reachable(grid: GridWorld, s: Pos, goal: Pos)
    reads grid.cells
    requires grid.Valid()
  {
    exists w :: IsWalk(grid, s, goal, w)
  }

  /** What a returned path satisfies: it starts with (the copy of) `start`,
      ends at `goal`, walks through non-Blocked cells, never repeats a
      coordinate, and every later cell is a copy of its grid cell whose g is
      the start's g (never incremented) and whose h is its distance to `goal`. */
  ghost predicate PlannedPath(grid: GridWorld, start: Cell, goal: Pos, p: seq<Cell>)
    reads grid.cells
    requires grid.Valid()
  {
    IsWalk(grid, start.At(), goal, Positions(p)) && p[0] == start &&
    (forall k, l :: 0 <= k < l < |p| ==> p[k].At() != p[l].At()) &&
    (forall k :: 0 < k < |p| ==>
       InBounds(p[k].At(), grid.dim) && p[k].parent.Some? &&
       p[k] == grid.cells[p[k].x, p[k].y].UpdateFGH(start.g, goal).(parent := p[k].parent))
  }

  /** Node `i` (not the start) was pushed from an expanded neighbour: it is a
      copy of a non-Blocked grid cell with the start's g, and `exp` maps its
      parent's coordinates to its parent. */
  ghost predicate NodeOk(grid: GridWorld, start: Cell, goal: Pos, arena: seq<Cell>, exp: map<Pos, nat>, i: int)
    reads grid.cells
    requires grid.Valid()
  {
    0 < i < |arena| &&
    var c := arena[i];
    c.parent.Some? && c.parent.value < i && InBounds(c.At(), grid.dim) &&
    Manhattan(arena[c.parent.value].At(), c.At()) == 1 &&
    !grid.cells[c.x, c.y].IsBlocked() &&
    c == grid.cells[c.x, c.y].UpdateFGH(start.g, goal).(parent := c.parent) &&
    arena[c.parent.value].At() in exp && exp[arena[c.parent.value].At()] == c.parent.value
  }

  /** The arena starts with the start node, every other node is `NodeOk`, and
      `exp` maps each expanded coordinate to the node expanded there. */
  ghost predicate ArenaOk(grid: GridWorld, start: Cell, goal: Pos, arena: seq<Cell>, exp: map<Pos, nat>)
    reads grid.cells
    requires grid.Valid()
  {
    |arena| >= 1 && arena[0] == start &&
    (forall i :: 0 < i < |arena| ==> NodeOk(grid, start, goal, arena, exp, i)) &&
    (forall p :: p in exp ==> exp[p] < |arena| && arena[exp[p]].At() == p)
  }

  /** Fringe items name arena nodes; the first item has priority 0 and every
      other item the f value of its node. */
  ghost predicate FringeOk(arena: seq<Cell>, fringe: seq<Item>)
  {
    forall j :: 0 <= j < |fringe| ==>
      fringe[j].node < |arena| &&
      fringe[j].priority == (if fringe[j].node == 0 then 0 else arena[fringe[j].node].f)
  }

  ghost function FringePos(arena: seq<Cell>, fringe: seq<Item>): set<Pos>
    requires forall j :: 0 <= j < |fringe| ==> fringe[j].node < |arena|
  {
    set j | 0 <= j < |fringe| :: arena[fringe[j].node].At()
  }

  /** Every open 4-neighbour of an expanded cell is expanded or waits in the fringe. */
  ghost predicate Closed(grid: GridWorld, visited: set<Pos>, waiting: set<Pos>)
    reads grid.cells
    requires grid.Valid()
  {
    forall v, n ::
      (v in visited && n in Neighbors4(v, grid.dim) && InBounds(n, grid.dim) &&
       !grid.cells[n.x, n.y].IsBlocked()) ==> n in visited || n in waiting
  }

  ghost function AllPos(dim: nat): set<Pos>
  {
    set x, y | 0 <= x < dim && 0 <= y < dim :: Pos(x, y)
  }

  /** The loop invariant of `AStarSearch`. */
  ghost predicate SearchInv(grid: GridWorld, start: Cell, goal: Pos, arena: seq<Cell>,
                            fringe: seq<Item>, visited: set<Pos>, exp: map<Pos, nat>)
    reads grid.cells
    requires grid.Valid()
  {
    ArenaOk(grid, start, goal, arena, exp) && FringeOk(arena, fringe) &&
    exp.Keys == visited && visited <= AllPos(grid.dim) && goal !in visited &&
    (visited == {} ==> |arena| == 1 && fringe == [Item(0, 0)]) &&
    (visited != {} ==> start.At() in visited) &&
    Closed(grid, visited, FringePos(arena, fringe))
  }

  /** The index of an item of least priority (the heap's pop). */
  method PopIndex(fringe: seq<Item>) returns (k: nat)
    requires fringe != []
    ensures k < |fringe| && forall j :: 0 <= j < |fringe| ==> fringe[k].priority <= fringe[j].priority
  {
    k := 0;
    var j := 1;
    while j < |fringe|
      invariant 1 <= j <= |fringe| && k < j
      invariant forall l :: 0 <= l < j ==> fringe[k].priority <= fringe[l].priority
    {
      if fringe[j].priority < fringe[k].priority {
        k := j;
      }
      j := j + 1;
    }
  }

  /** Removing item `k` loses at most its own coordinates from the fringe. */
  lemma RemoveItem(arena: seq<Cell>, fringe: seq<Item>, k: nat)
    requires FringeOk(arena, fringe) && k < |fringe|
    ensures FringeOk(arena, fringe[..k] + fringe[k + 1..])
    ensures FringePos(arena, fringe) <= FringePos(arena, fringe[..k] + fringe[k + 1..]) + {arena[fringe[k].node].At()}
  {
    var rest := fringe[..k] + fringe[k + 1..];
    forall n | n in FringePos(arena, fringe)
      ensures n in FringePos(arena, rest) + {arena[fringe[k].node].At()}
    {
      var j :| 0 <= j < |fringe| && arena[fringe[j].node].At() == n;
      if j < k {
        assert rest[j] == fringe[j];
      } else if j > k {
        assert rest[j - 1] == fringe[j];
      }
    }
  }

  /** Growing the arena and the fringe at their ends keeps what they held. */
  lemma Extend(grid: GridWorld, start: Cell, goal: Pos, arena: seq<Cell>, fringe: seq<Item>, exp: map<Pos, nat>,
               arena': seq<Cell>, fringe': seq<Item>)
    requires grid.Valid() && ArenaOk(grid, start, goal, arena, exp) && FringeOk(arena, fringe)
    requires |arena| <= |arena'| && arena'[..|arena|] == arena
    requires |fringe| <= |fringe'| && fringe'[..|fringe|] == fringe
    requires forall j :: 0 <= j < |fringe'| ==> fringe'[j].node < |arena'|
    ensures forall i :: 0 < i < |arena| ==> NodeOk(grid, start, goal, arena', exp, i)
    ensures FringePos(arena, fringe) <= FringePos(arena', fringe')
  {
    forall i | 0 < i < |arena| ensures NodeOk(grid, start, goal, arena', exp, i) {
      assert NodeOk(grid, start, goal, arena, exp, i);
      assert arena'[i] == arena[i] && arena'[arena[i].parent.value] == arena[arena[i].parent.value];
    }
    forall n | n in FringePos(arena, fringe) ensures n in FringePos(arena', fringe') {
      var j :| 0 <= j < |fringe| && arena[fringe[j].node].At() == n;
      assert fringe'[j] == fringe[j] && arena'[fringe[j].node] == arena[fringe[j].node];
    }
  }

  /** Pushes a copy of every open, unvisited 4-neighbour of node `idx`, with
      the node's g, its heuristic to `goal`, and `idx` as parent (lines 35-46). */
  method Expand(grid: GridWorld, start: Cell, goal: Pos, arena: seq<Cell>, fringe: seq<Item>,
                visited: set<Pos>, ghost exp: map<Pos, nat>, idx: nat)
    returns (arena': seq<Cell>, fringe': seq<Item>)
    requires grid.Valid() && ArenaOk(grid, start, goal, arena, exp) && FringeOk(arena, fringe)
    requires idx < |arena| && InBounds(arena[idx].At(), grid.dim)
    requires arena[idx].At() in exp && exp[arena[idx].At()] == idx && arena[idx].g == start.g
    ensures ArenaOk(grid, start, goal, arena', exp) && FringeOk(arena', fringe')
    ensures |arena| <= |arena'| && arena'[..|arena|] == arena
    ensures forall i :: |arena| <= i < |arena'| ==> arena'[i].parent == Some(idx)
    ensures |fringe| <= |fringe'| && fringe'[..|fringe|] == fringe
    ensures FringePos(arena, fringe) <= FringePos(arena', fringe')
    ensures forall n ::
              (n in Neighbors4(arena[idx].At(), grid.dim) && InBounds(n, grid.dim) &&
               !grid.cells[n.x, n.y].IsBlocked() && n !in visited) ==> n in FringePos(arena', fringe')
  {
    var current := arena[idx];
    var neighbors := grid.GetNeighbors(current);
    arena', fringe' := arena, fringe;
    for t := 0 to |neighbors|
      invariant ArenaOk(grid, start, goal, arena', exp) && FringeOk(arena', fringe')
      invariant |arena| <= |arena'| && arena'[..|arena|] == arena
      invariant forall i :: |arena| <= i < |arena'| ==> arena'[i].parent == Some(idx)
      invariant |fringe| <= |fringe'| && fringe'[..|fringe|] == fringe
      invariant Queued(neighbors, t, visited, FringePos(arena', fringe'))
    {
      var neighbor := neighbors[t];
      ghost var before := FringePos(arena', fringe');
      if !neighbor.IsBlocked() && neighbor.At() !in visited {
        var copy := neighbor.UpdateFGH(current.g, goal).(parent := Some(idx));
        var a, f := arena' + [copy], fringe' + [Item(copy.f, |arena'|)];
        assert NodeOk(grid, start, goal, a, exp, |arena'|);
        PushCopy(grid, start, goal, arena', fringe', exp, copy, a, f, |arena|, |fringe|);
        assert copy.At() == neighbor.At();
        arena', fringe' := a, f;
      }
      QueuedNext(neighbors, t, visited, before, FringePos(arena', fringe'));
    }
    Extend(grid, start, goal, arena, fringe, exp, arena', fringe');
    forall n | n in Neighbors4(current.At(), grid.dim) && InBounds(n, grid.dim) &&
               !grid.cells[n.x, n.y].IsBlocked() && n !in visited
      ensures n in FringePos(arena', fringe')
    {
      var ns := Neighbors4(current.At(), grid.dim);
      var j :| 0 <= j < |ns| && ns[j] == n;
      assert neighbors[j].At() == n;
    }
  }

  /** The open, unvisited cells among the first `t` of `neighbors` are in `queued`. */
  ghost predicate Queued(neighbors: seq<Cell>, t: int, visited: set<Pos>, queued: set<Pos>)
  {
    forall j :: 0 <= j < t && j < |neighbors| && !neighbors[j].IsBlocked() && neighbors[j].At() !in visited ==>
      neighbors[j].At() in queued
  }

  lemma QueuedNext(neighbors: seq<Cell>, t: nat, visited: set<Pos>, queued: set<Pos>, queued': set<Pos>)
    requires t < |neighbors| && Queued(neighbors, t, visited, queued) && queued <= queued'
    requires !neighbors[t].IsBlocked() && neighbors[t].At() !in visited ==> neighbors[t].At() in queued'
    ensures Queued(neighbors, t + 1, visited, queued')
  {
  }

  /** Pushing a well-formed node copy onto the arena and an item for it onto
      the fringe keeps both well-formed, keeps their prefixes and puts the
      copy's coordinates in the fringe. */
  lemma PushCopy(grid: GridWorld, start: Cell, goal: Pos, arena: seq<Cell>, fringe: seq<Item>, exp: map<Pos, nat>,
                 copy: Cell, a: seq<Cell>, f: seq<Item>, m: nat, l: nat)
    requires grid.Valid() && ArenaOk(grid, start, goal, arena, exp) && FringeOk(arena, fringe)
    requires a == arena + [copy] && f == fringe + [Item(copy.f, |arena|)]
    requires NodeOk(grid, start, goal, a, exp, |arena|)
    requires m <= |arena| && l <= |fringe|
    ensures ArenaOk(grid, start, goal, a, exp) && FringeOk(a, f)
    ensures a[..m] == arena[..m] && f[..l] == fringe[..l]
    ensures FringePos(arena, fringe) + {copy.At()} <= FringePos(a, f)
  {
    Extend(grid, start, goal, arena, fringe, exp, a, f);
    assert a[f[|fringe|].node] == copy;
    assert a[..m] == arena[..m] && f[..l] == fringe[..l];
  }

  /** Every coordinate of a walk that starts in a closed set of expanded
      cells is in that set. */
  lemma {:induction false} ClosedHoldsWalk(grid: GridWorld, visited: set<Pos>, s: Pos, goal: Pos, w: seq<Pos>, k: nat)
    requires grid.Valid() && Closed(grid, visited, {}) && IsWalk(grid, s, goal, w) && s in visited
    requires k < |w|
    ensures w[k] in visited
  {
    if k > 0 {
      ClosedHoldsWalk(grid, visited, s, goal, w, k - 1);
      assert w[k] in Neighbors4(w[k - 1], grid.dim);
    }
  }

  /** Parent links of a well-formed arena point backwards. */
  lemma ArenaLinked(grid: GridWorld, start: Cell, goal: Pos, arena: seq<Cell>, exp: map<Pos, nat>)
    requires grid.Valid() && ArenaOk(grid, start, goal, arena, exp) && start.parent.None?
    ensures WellLinked(arena)
    ensures forall j :: 0 <= j < |arena| && arena[j].parent.None? ==> j == 0
  {
    forall j | 0 < j < |arena| ensures arena[j].parent.Some? && arena[j].parent.value < j {
      assert NodeOk(grid, start, goal, arena, exp, j);
    }
  }

  /** Every node on the chain of an expanded node is the node expanded at its
      coordinates, so the chain's coordinates are pairwise different. */
  lemma ChainExpanded(grid: GridWorld, start: Cell, goal: Pos, arena: seq<Cell>, exp: map<Pos, nat>, i: nat)
    requires grid.Valid() && ArenaOk(grid, start, goal, arena, exp) && start.parent.None?
    requires WellLinked(arena) && i < |arena| && arena[i].At() in exp && exp[arena[i].At()] == i
    ensures forall k, l :: 0 <= k < l < |Chain(arena, i)| ==> Chain(arena, i)[k].At() != Chain(arena, i)[l].At()
  {
    ChainShape(arena, i);
    var p, ci := Chain(arena, i), ChainIdx(arena, i);
    forall k, l | 0 <= k < l < |p| ensures p[k].At() != p[l].At() {
      ChainInExp(grid, start, goal, arena, exp, i, k);
      ChainInExp(grid, start, goal, arena, exp, i, l);
      assert ci[k] < ci[l];
    }
  }

  /** Each chain node of an expanded node is the node expanded at its coordinates. */
  lemma ChainInExp(grid: GridWorld, start: Cell, goal: Pos, arena: seq<Cell>, exp: map<Pos, nat>, i: nat, k: nat)
    requires grid.Valid() && ArenaOk(grid, start, goal, arena, exp) && start.parent.None?
    requires WellLinked(arena) && i < |arena| && arena[i].At() in exp && exp[arena[i].At()] == i
    requires k < |Chain(arena, i)| && k < |ChainIdx(arena, i)|
    ensures Chain(arena, i)[k].At() in exp && exp[Chain(arena, i)[k].At()] == ChainIdx(arena, i)[k]
  {
    ChainShape(arena, i);
    var ci := ChainIdx(arena, i);
    if k < |ci| - 1 {
      assert NodeOk(grid, start, goal, arena, exp, ci[k + 1]);
    }
  }

  /** Every chain node after the first is a non-start node of the arena:
      an open grid cell next to its predecessor, copied with the start's g. */
  lemma ChainSteps(grid: GridWorld, start: Cell, goal: Pos, arena: seq<Cell>, exp: map<Pos, nat>, i: nat)
    requires grid.Valid() && ArenaOk(grid, start, goal, arena, exp) && start.parent.None?
    requires WellLinked(arena) && i < |arena|
    ensures Chain(arena, i)[0] == start
    ensures forall k :: 0 < k < |Chain(arena, i)| ==>
              InBounds(Chain(arena, i)[k].At(), grid.dim) && Chain(arena, i)[k].parent.Some? &&
              Manhattan(Chain(arena, i)[k - 1].At(), Chain(arena, i)[k].At()) == 1 &&
              !grid.cells[Chain(arena, i)[k].x, Chain(arena, i)[k].y].IsBlocked() &&
              Chain(arena, i)[k] == grid.cells[Chain(arena, i)[k].x, Chain(arena, i)[k].y]
                                     .UpdateFGH(start.g, goal).(parent := Chain(arena, i)[k].parent)
  {
    ArenaLinked(grid, start, goal, arena, exp);
    ChainShape(arena, i);
    var p, ci := Chain(arena, i), ChainIdx(arena, i);
    assert ci[0] == 0;
    forall k | 0 < k < |p|
      ensures InBounds(p[k].At(), grid.dim) && p[k].parent.Some? && Manhattan(p[k - 1].At(), p[k].At()) == 1
      ensures !grid.cells[p[k].x, p[k].y].IsBlocked()
      ensures p[k] == grid.cells[p[k].x, p[k].y].UpdateFGH(start.g, goal).(parent := p[k].parent)
    {
      assert 0 < ci[k] by { assert ci[0] < ci[k]; }
      assert NodeOk(grid, start, goal, arena, exp, ci[k]);
    }
  }

  /** The chain of an expanded node at `goal` is a `PlannedPath`. */
  lemma ChainIsPlanned(grid: GridWorld, start: Cell, goal: Pos, arena: seq<Cell>, exp: map<Pos, nat>, i: nat)
    requires grid.Valid() && ArenaOk(grid, start, goal, arena, exp)
    requires InBounds(start.At(), grid.dim) && start.parent.None?
    requires i < |arena| && arena[i].At() == goal && arena[i].At() in exp && exp[arena[i].At()] == i
    ensures WellLinked(arena)
    ensures PlannedPath(grid, start, goal, Chain(arena, i))
  {
    ArenaLinked(grid, start, goal, arena, exp);
    ChainExpanded(grid, start, goal, arena, exp, i);
    ChainSteps(grid, start, goal, arena, exp, i);
    var p := Chain(arena, i);
    var w := Positions(p);
    assert IsWalk(grid, start.At(), goal, w);
  }

  /** Recording one more expanded coordinate keeps the arena well formed. */
  lemma Expanded(grid: GridWorld, start: Cell, goal: Pos, arena: seq<Cell>, exp: map<Pos, nat>, u: Pos, idx: nat)
    requires grid.Valid() && ArenaOk(grid, start, goal, arena, exp)
    requires u !in exp && idx < |arena| && arena[idx].At() == u
    ensures ArenaOk(grid, start, goal, arena, exp[u := idx])
  {
    var exp' := exp[u := idx];
    forall i | 0 < i < |arena| ensures NodeOk(grid, start, goal, arena, exp', i) {
      assert NodeOk(grid, start, goal, arena, exp, i);
    }
  }

  /** After node `u` is expanded, its open unvisited neighbours wait in the
      fringe, so closure carries over from before the pop. */
  lemma StillClosed(grid: GridWorld, visited0: set<Pos>, u: Pos, before: set<Pos>, after: set<Pos>)
    requires grid.Valid() && Closed(grid, visited0, before)
    requires before <= after + {u}
    requires forall n ::
               (n in Neighbors4(u, grid.dim) && InBounds(n, grid.dim) &&
                !grid.cells[n.x, n.y].IsBlocked() && n !in visited0 + {u}) ==> n in after
    ensures Closed(grid, visited0 + {u}, after)
  {
  }

  /** The invariant holds before the first pop. */
  lemma InitInv(grid: GridWorld, start: Cell, goal: Pos)
    requires grid.Valid() && InBounds(start.At(), grid.dim)
    ensures SearchInv(grid, start, goal, [start], [Item(0, 0)], {}, map[])
  {
  }

  /** Popping an item whose coordinates were already expanded keeps the invariant. */
  lemma SkipInv(grid: GridWorld, start: Cell, goal: Pos, arena: seq<Cell>, fringe: seq<Item>,
                visited: set<Pos>, exp: map<Pos, nat>, k: nat)
    requires grid.Valid() && SearchInv(grid, start, goal, arena, fringe, visited, exp)
    requires k < |fringe| && arena[fringe[k].node].At() in visited
    ensures SearchInv(grid, start, goal, arena, fringe[..k] + fringe[k + 1..], visited, exp)
  {
    RemoveItem(arena, fringe, k);
  }

  /** What the pop of an unexpanded node gives: it is in bounds, it carries
      the start's g, and recording it as expanded keeps the arena well formed. */
  lemma VisitFacts(grid: GridWorld, start: Cell, goal: Pos, arena: seq<Cell>, fringe: seq<Item>,
                   visited: set<Pos>, exp: map<Pos, nat>, k: nat)
    requires grid.Valid() && SearchInv(grid, start, goal, arena, fringe, visited, exp)
    requires InBounds(start.At(), grid.dim)
    requires k < |fringe| && arena[fringe[k].node].At() !in visited
    ensures InBounds(arena[fringe[k].node].At(), grid.dim) && arena[fringe[k].node].g == start.g
    ensures arena[fringe[k].node].At() in AllPos(grid.dim)
    ensures ArenaOk(grid, start, goal, arena, exp[arena[fringe[k].node].At() := fringe[k].node])
    ensures FringeOk(arena, fringe[..k] + fringe[k + 1..])
  {
    var idx := fringe[k].node;
    if idx > 0 { assert NodeOk(grid, start, goal, arena, exp, idx); }
    Expanded(grid, start, goal, arena, exp, arena[idx].At(), idx);
    RemoveItem(arena, fringe, k);
  }

  /** Expanding the popped node keeps the invariant. */
  lemma ExpandInv(grid: GridWorld, start: Cell, goal: Pos, arena: seq<Cell>, fringe: seq<Item>,
                  visited: set<Pos>, exp: map<Pos, nat>, k: nat, arena': seq<Cell>, fringe': seq<Item>)
    requires grid.Valid() && SearchInv(grid, start, goal, arena, fringe, visited, exp)
    requires InBounds(start.At(), grid.dim)
    requires k < |fringe| && arena[fringe[k].node].At() !in visited && arena[fringe[k].node].At() != goal
    requires ArenaOk(grid, start, goal, arena', exp[arena[fringe[k].node].At() := fringe[k].node])
    requires FringeOk(arena', fringe') && FringeOk(arena, fringe[..k] + fringe[k + 1..])
    requires FringePos(arena, fringe[..k] + fringe[k + 1..]) <= FringePos(arena', fringe')
    requires forall n ::
               (n in Neighbors4(arena[fringe[k].node].At(), grid.dim) && InBounds(n, grid.dim) &&
                !grid.cells[n.x, n.y].IsBlocked() && n !in visited + {arena[fringe[k].node].At()}) ==>
               n in FringePos(arena', fringe')
    ensures SearchInv(grid, start, goal, arena', fringe', visited + {arena[fringe[k].node].At()},
                      exp[arena[fringe[k].node].At() := fringe[k].node])
  {
    var u := arena[fringe[k].node].At();
    RemoveItem(arena, fringe, k);
    var idx := fringe[k].node;
    if idx > 0 { assert NodeOk(grid, start, goal, arena, exp, idx); }
    StillClosed(grid, visited, u, FringePos(arena, fringe), FringePos(arena', fringe'));
  }

  /** `astar_search` from a parentless start: a path to `goal` exactly when
      one exists through non-Blocked cells, and then a `PlannedPath`. The
      grid is only read (the method has no `modifies` clause). */
  method AStarSearch(start: Cell, goal: Pos, grid: GridWorld) returns (path: Option<seq<Cell>>)
    requires grid.Valid() && InBounds(start.At(), grid.dim) && start.parent.None?
    ensures path.Some? <==> Reachable(grid, start.At(), goal)
    ensures path.Some? ==> PlannedPath(grid, start, goal, path.value)
  {
    var arena := [start];
    var fringe := [Item(0, 0)];
    var visited: set<Pos> := {};
    ghost var exp: map<Pos, nat> := map[];
    InitInv(grid, start, goal);
    while fringe != []
      invariant SearchInv(grid, start, goal, arena, fringe, visited, exp)
      decreases AllPos(grid.dim) - visited, |fringe|
    {
      var k := PopIndex(fringe);
      var idx := fringe[k].node;
      var current := arena[idx];
      var rest := fringe[..k] + fringe[k + 1..];
      if current.At() in visited {
        SkipInv(grid, start, goal, arena, fringe, visited, exp, k);
        fringe := rest;
      } else {
        VisitFacts(grid, start, goal, arena, fringe, visited, exp, k);
        var exp' := exp[current.At() := idx];
        if current.At() == goal {
          ChainIsPlanned(grid, start, goal, arena, exp', idx);
          var p := Backtrack(arena, idx);
          assert IsWalk(grid, start.At(), goal, Positions(p));
          return Some(p);
        }
        var arena', fringe' := Expand(grid, start, goal, arena, rest, visited + {current.At()}, exp', idx);
        ExpandInv(grid, start, goal, arena, fringe, visited, exp, k, arena', fringe');
        arena, fringe, visited, exp := arena', fringe', visited + {current.At()}, exp';
      }
    }
    assert FringePos(arena, fringe) == {};
    forall w | IsWalk(grid, start.At(), goal, w) ensures false {
      ClosedHoldsWalk(grid, visited, start.At(), goal, w, |w| - 1);
    }
    return None;
  }
}
