/** agent_9.py: agent 7 (its belief, confidences and walk) with partial
    sensing and a target that moves. After a walk the agent senses whether the
    target is among the 8 neighbours of the cell it stopped on. If it is, it
    picks, on a copy of its belief masked to the 3×3 block around that cell,
    the nearest cell of maximal belief and moves there. Otherwise it examines
    the cell a terrain-dependent number of times. After every round the target
    moves to an open 8-neighbour. */
module AgentNine {
  import opened Wrappers
  import opened Grid
  import opened Belief
  import opened AStar
  import opened Targeting
  import opened AgentSix
  import opened AgentSeven

  /** How many examinations the examine branch of `execute` makes on a cell
      of terrain `t` (agent_9.py:153-159): 2 on Flat, 3 on Hilly, 4 on
      Forest, 1 otherwise. */
  function Checks(t: Option<Terrain>): (n: nat)
    ensures 1 <= n <= 4
    ensures n > 1 <==> t.Some? && t.value.IsSurface()
  {
    if t == Some(Flat) then 2
    else if t == Some(Hilly) then 3
    else if t == Some(Forest) then 4
    else 1
  }

  /** `p` lies in the block the mask of agent_9.py:136 keeps: both
      coordinates strictly within 2 of `cur`. */
  predicate Kept(p: Pos, cur: Pos)
  {
    cur.x - 2 < p.x < cur.x + 2 && cur.y - 2 < p.y < cur.y + 2
  }

  /** The kept block is the cells at Chebyshev distance at most 1. */
  lemma KeptIsNear(p: Pos, cur: Pos)
    ensures Kept(p, cur) <==> Chebyshev(p, cur) <= 1
  {
  }

  /** Whether some cell of `cs` is the Target (the loop of `partial_sensing`). */
  function AnyTarget(cs: seq<Cell>): (r: bool)
    ensures r <==> exists k :: 0 <= k < |cs| && cs[k].IsTarget()
  {
    if cs == [] then false
    else
      assert forall k :: 0 < k < |cs| ==> cs[k] == cs[1..][k - 1];
      cs[0].IsTarget() || AnyTarget(cs[1..])
  }

  /** The cells of `cs` that are not Blocked, in order (the list
      comprehension of `move_target`). */
  function OpenCells(cs: seq<Cell>): (r: seq<Cell>)
    ensures forall c :: c in r <==> c in cs && !c.IsBlocked()
  {
    if cs == [] then []
    else (if cs[0].IsBlocked() then [] else [cs[0]]) + OpenCells(cs[1..])
  }

  /** `m` is the masked copy of belief `b` around `cur` (agent_9.py:130-140):
      the entry of `cur` and every entry outside the 3×3 block are 0, the
      others are `b`'s. */
  ghost predicate MaskOf(m: seq<real>, b: seq<real>, dim: nat, cur: Pos)
  {
    |m| == Area(dim) && |b| == Area(dim) &&
    forall p :: InBounds(p, dim) ==>
      m[Slot(p, dim)] == if Kept(p, cur) && p != cur then b[Slot(p, dim)] else 0.0
  }

  /** The target picked on a masked copy is within one step, in any of the
      8 directions, of the cell the mask is centred on: a positive maximum
      lies in the block, and a maximum of 0 is met at `cur` itself, which is
      then the nearest. */
  lemma MaskedTargetNear(m: seq<real>, b: seq<real>, dim: nat, cur: Pos, u: Pos)
    requires InBounds(cur, dim) && MaskOf(m, b, dim, cur)
    requires NearestMax(m, dim, cur, u)
    ensures Chebyshev(cur, u) <= 1
  {
    KeptIsNear(u, cur);
    if !(Kept(u, cur) && u != cur) {
      assert BeliefAt(m, dim, u) == m[Slot(u, dim)] == 0.0;
      assert BeliefAt(m, dim, cur) == m[Slot(cur, dim)] == 0.0;
      assert Match(m, dim, Max(m), cur);
    }
  }

  /** The nearest maximal cell of a non-negative belief, seen from `cur`,
      has a positive belief unless it is `cur` itself. A goal that A* cannot
      reach is not `cur`, so ruling it out lowers the number of positive
      entries. */
  lemma NearestMaxPositive(b: seq<real>, dim: nat, cur: Pos, goal: Pos)
    requires InBounds(cur, dim) && |b| == Area(dim) && NonNegative(b)
    requires NearestMax(b, dim, cur, goal)
    ensures goal == cur || BeliefAt(b, dim, goal) > 0.0
  {
    if BeliefAt(b, dim, goal) <= 0.0 {
      assert b[Slot(cur, dim)] >= 0.0;
      assert Match(b, dim, Max(b), cur);
    }
  }

  /** A position reaches itself by the one-cell walk. */
  lemma ReachesItself(grid: GridWorld, p: Pos)
    requires grid.Valid() && InBounds(p, grid.dim)
    ensures Reachable(grid, p, p)
  {
    assert IsWalk(grid, p, p, [p]);
  }

  /** A planned path from an unvisited cell of a grid none of whose cells
      is visited has no visited cell: its later cells are copies of grid
      cells. */
  lemma PlannedUnvisited(grid: GridWorld, start: Cell, goal: Pos, p: seq<Cell>)
    requires grid.Valid() && PlannedPath(grid, start, goal, p) && !start.visited
    requires forall i, j :: 0 <= i < grid.dim && 0 <= j < grid.dim ==> !grid.cells[i, j].visited
    ensures forall k :: 0 <= k < |p| ==> !p[k].visited
  {
    forall k | 0 < k < |p| ensures !p[k].visited {
      var c := grid.cells[p[k].x, p[k].y];
      assert p[k] == c.UpdateFGH(start.g, goal).(parent := p[k].parent);
    }
  }

  class Agent9 {
    /** The agent 7 part: maze, knowledge grid, rates, confidences, belief
        and the walk of `execute`. */
    const base: Agent7
    /** `examine_count`, which `execute` and `solve` both raise. */
    var examineCount: nat

    ghost predicate Valid()
      reads base, base.maze, base.maze.cells, base.knowledge.cells, base.belief
    {
      base.Valid()
    }

    /** `Agent9(maze, density, fnr)`: the same state as agent 7's
        constructor builds (agent_9.py:18-33). */
    constructor (maze: GridWorld, density: real, fnr: seq<real>)
      requires maze.IsMaze() && Rates(fnr) && Sum(Complements(fnr)) != 0.0
      ensures Valid() && fresh(base) && examineCount == 0
      ensures base.maze == maze && base.fnr == fnr && base.dim == maze.dim
      ensures forall k :: 0 <= k < base.belief.Length ==> base.belief[k] == 1.0
      ensures base.confidence == Confidences(fnr)
    {
      base := new Agent7(maze, density, fnr);
      examineCount := 0;
    }

    /** `partial_sensing`: whether the Target is among the 8 neighbours of
        the maze cell `c` (never `c` itself). */
    function PartialSensing(c: Cell): (sensed: bool)
      reads base, base.maze, base.maze.cells
      requires base.maze.IsMaze() && InBounds(c.At(), base.maze.dim)
      ensures sensed <==> Chebyshev(c.At(), base.maze.target.value) == 1
    {
      var ns := base.maze.GetAllNeighbors(c);
      var t := base.maze.target.value;
      assert Chebyshev(c.At(), t) == 1 ==> exists k :: 0 <= k < |ns| && ns[k].IsTarget() by {
        if Chebyshev(c.At(), t) == 1 {
          var all := Neighbors8(c.At(), base.maze.dim);
          assert t in all;
          var k :| 0 <= k < |all| && all[k] == t;
          assert ns[k].At() == t;
        }
      }
      AnyTarget(ns)
    }

    /** `move_target`: the Target cell becomes Empty and an open
        8-neighbour of it, chosen freely, becomes the Target and is named by
        the maze. With no open neighbour `choice` raises: the old cell has
        already become Empty and nothing else changed. No cell changes
        whether it is Blocked. */
    method MoveTarget() returns (r: Result<Pos, SolveStatus>)
      requires Valid()
      modifies base.maze, base.maze.cells
      ensures var t := old(base.maze.target.value);
              r.Failure? <==>
                forall n :: InBounds(n, base.dim) && Chebyshev(t, n) == 1 ==> old(base.maze.cells[n.x, n.y]).IsBlocked()
      ensures var t := old(base.maze.target.value);
              base.maze.cells[t.x, t.y] == old(base.maze.cells[t.x, t.y]).(status := Empty)
      ensures r.Failure? ==> r.error == TargetStuck && base.maze.target == old(base.maze.target)
      ensures r.Success? ==>
                var t, n := old(base.maze.target.value), r.value;
                Valid() && base.maze.target == Some(n) && InBounds(n, base.dim) && Chebyshev(t, n) == 1 &&
                !old(base.maze.cells[n.x, n.y]).IsBlocked() &&
                base.maze.cells[n.x, n.y] == old(base.maze.cells[n.x, n.y]).(status := Target)
      ensures base.maze.Valid() && base.Own()
      ensures forall i, j :: 0 <= i < base.dim && 0 <= j < base.dim ==>
                base.maze.cells[i, j].IsBlocked() == old(base.maze.cells[i, j]).IsBlocked()
      ensures Open() == old(Open())
      ensures forall i, j :: 0 <= i < base.dim && 0 <= j < base.dim &&
                Pos(i, j) != old(base.maze.target.value) && (r.Failure? || Pos(i, j) != r.value)
                ==> base.maze.cells[i, j] == old(base.maze.cells[i, j])
    {
      var t := base.maze.target.value;
      Vacate();
      var next := PickOpen(t);
      if next.None? {
        return Failure(TargetStuck);
      }
      Occupy(t, next.value);
      r := Success(next.value);
    }

    /** Line 93: an open 8-neighbour of `t`, chosen freely (`choice`), or
        none when all of them are Blocked. */
    method PickOpen(t: Pos) returns (r: Option<Pos>)
      requires base.maze.Valid() && InBounds(t, base.maze.dim)
      ensures r.None? <==>
                forall n :: InBounds(n, base.maze.dim) && Chebyshev(t, n) == 1 ==> base.maze.cells[n.x, n.y].IsBlocked()
      ensures r.Some? ==>
                var n := r.value;
                InBounds(n, base.maze.dim) && Chebyshev(t, n) == 1 && !base.maze.cells[n.x, n.y].IsBlocked()
    {
      var ns := base.maze.GetAllNeighbors(base.maze.cells[t.x, t.y]);
      var open := OpenCells(ns);
      if open == [] {
        forall n | InBounds(n, base.maze.dim) && Chebyshev(t, n) == 1
          ensures base.maze.cells[n.x, n.y].IsBlocked()
        {
          var all := Neighbors8(t, base.maze.dim);
          var k :| 0 <= k < |all| && all[k] == n;
          assert ns[k] !in open;
        }
        return None;
      }
      assert open[0] in open;
      var next :| next in open;
      var k :| 0 <= k < |ns| && ns[k] == next;
      return Some(next.At());
    }

    /** The maze between the two writes of `move_target`: the old Target
        cell `t` is Empty and no cell is the Target, otherwise as a maze. */
    ghost predicate Vacated(t: Pos)
      reads base, base.maze, base.maze.cells
    {
      var m := base.maze;
      m.Valid() && m.dim == base.dim && m.target == Some(t) && InBounds(t, m.dim) && !m.cells[0, 0].IsBlocked() &&
      (forall i, j :: 0 <= i < m.dim && 0 <= j < m.dim ==>
         (m.cells[i, j].status == Empty || m.cells[i, j].status == Blocked) &&
         (m.cells[i, j].IsBlocked() <==> m.cells[i, j].terrain == Some(BlockedTerrain)) &&
         (!m.cells[i, j].IsBlocked() ==> m.cells[i, j].terrain.Some? && m.cells[i, j].terrain.value.IsSurface()))
    }

    /** Line 92: the Target cell becomes Empty. */
    method Vacate()
      requires Valid()
      modifies base.maze.cells
      ensures Vacated(base.maze.target.value) && base.Own()
      ensures var t := base.maze.target.value;
              base.maze.cells[t.x, t.y] == old(base.maze.cells[t.x, t.y]).(status := Empty)
      ensures forall i, j :: 0 <= i < base.dim && 0 <= j < base.dim && Pos(i, j) != base.maze.target.value ==>
                base.maze.cells[i, j] == old(base.maze.cells[i, j])
    {
      var t := base.maze.target.value;
      base.maze.SetStatus(t.x, t.y, Empty);
    }

    /** Lines 94-95: the open cell `n` becomes the Target and the maze names it. */
    method Occupy(t: Pos, n: Pos)
      requires Vacated(t) && base.Own() && InBounds(n, base.dim) && !base.maze.cells[n.x, n.y].IsBlocked()
      modifies base.maze, base.maze.cells
      ensures Valid() && base.maze.target == Some(n)
      ensures base.maze.cells[n.x, n.y] == old(base.maze.cells[n.x, n.y]).(status := Target)
      ensures forall i, j :: 0 <= i < base.dim && 0 <= j < base.dim && Pos(i, j) != n ==>
                base.maze.cells[i, j] == old(base.maze.cells[i, j])
    {
      base.maze.SetTarget(n);
      base.maze.SetStatus(n.x, n.y, Target);
    }

    /** Lines 130-140: a deep copy of the belief masked around the walked
        cell `c`: its own entry set to 0 (`update_belief_state` with Blocked
        on the copy) and then, row by row, every entry outside the 3×3 block. */
    method MaskedCopy(c: Cell) returns (copy: array<real>)
      requires Valid() && InBounds(c.At(), base.dim)
      ensures fresh(copy) && MaskOf(copy[..], base.belief[..], base.dim, c.At())
    {
      var dim := base.dim;
      copy := new real[base.belief.Length](k requires 0 <= k < base.belief.Length reads base.belief => base.belief[k]);
      var zeroed := base.UpdateBeliefState(c, copy, Blocked);
      forall p | InBounds(p, dim) && p != c.At() ensures copy[Slot(p, dim)] == base.belief[Slot(p, dim)] {
        SlotInjective(p, c.At(), dim);
      }
      for i := 0 to dim
        invariant Masking(copy[..], i, 0, c.At())
      {
        MaskRow(copy, i, c.At());
      }
    }

    /** The copy once the cells before (`i`, `j`) in row-major order were
        scanned: masked there, the belief elsewhere except 0 at `cur`. */
    ghost predicate Masking(m: seq<real>, i: int, j: int, cur: Pos)
      reads this, base, base.maze, base.maze.cells, base.knowledge.cells, base.belief
    {
      Valid() && InBounds(cur, base.dim) && |m| == Area(base.dim) &&
      forall p :: InBounds(p, base.dim) ==>
        m[Slot(p, base.dim)] ==
          if p == cur || ((p.x < i || (p.x == i && p.y < j)) && !Kept(p, cur)) then 0.0
          else base.belief[Slot(p, base.dim)]
    }

    /** One row of the mask (the inner loop of lines 135-140). */
    method MaskRow(copy: array<real>, i: nat, cur: Pos)
      requires copy != base.belief && i < base.dim && Masking(copy[..], i, 0, cur)
      modifies copy
      ensures Masking(copy[..], i + 1, 0, cur)
    {
      for j := 0 to base.dim
        invariant Masking(copy[..], i, j, cur)
      {
        MaskCell(copy, i, j, cur);
      }
    }

    /** Lines 136-140 for the cell (`i`, `j`): outside the block around
        `cur`, its knowledge cell is set to 0 in the copy. */
    method MaskCell(copy: array<real>, i: nat, j: nat, cur: Pos)
      requires copy != base.belief && i < base.dim && j < base.dim && Masking(copy[..], i, j, cur)
      modifies copy
      ensures Masking(copy[..], i, j + 1, cur)
    {
      if !Kept(Pos(i, j), cur) {
        var cell := base.knowledge.cells[i, j];
        ghost var before := copy[..];
        var zeroed := base.UpdateBeliefState(cell, copy, Blocked);
        forall p | InBounds(p, base.dim) && p != Pos(i, j) ensures copy[Slot(p, base.dim)] == before[Slot(p, base.dim)] {
          SlotInjective(p, Pos(i, j), base.dim);
        }
      }
    }

    /** What `execute` returns once the walk stopped on the open cell `c`,
        cell number `count` of the route, from belief `b0` and count `e0`:
        with the target among the 8 neighbours of `c`, head for the nearest
        maximal cell of the masked belief (its knowledge cell), belief and
        count untouched; otherwise 'find goal' on the target after fewer
        than `Checks` failed examinations and the belief untouched, or
        'examine failed' after `Checks` of them, the belief of `c`
        multiplied once by its terrain's false negative rate. */
    ghost predicate Concluded(c: Cell, count: int, o: Outcome, b0: seq<real>, e0: nat)
      reads this, base, base.maze, base.maze.cells, base.knowledge.cells, base.belief
    {
      Valid() && InBounds(c.At(), base.dim) && !base.maze.cells[c.x, c.y].IsBlocked() &&
      c.terrain == base.maze.cells[c.x, c.y].terrain && |b0| == Area(base.dim) && o.count == count &&
      (o.status == MoveToward || o.status == FoundGoal || o.status == ExamineFailed) &&
      (o.status == MoveToward <==> Chebyshev(c.At(), base.maze.target.value) == 1) &&
      (o.status == MoveToward ==>
         base.belief[..] == b0 && examineCount == e0 &&
         InBounds(o.end.At(), base.dim) && o.end == base.knowledge.cells[o.end.x, o.end.y] &&
         Headed(c.At(), o.end.At())) &&
      (o.status == FoundGoal ==>
         o.end == c && base.maze.cells[c.x, c.y].IsTarget() && base.belief[..] == b0 &&
         e0 <= examineCount < e0 + Checks(c.terrain)) &&
      (o.status == ExamineFailed ==>
         o.end == c && examineCount == e0 + Checks(c.terrain) &&
         base.belief[..] == b0[Slot(c.At(), base.dim) :=
           Weigh(b0[Slot(c.At(), base.dim)], base.fnr[c.terrain.value.RateIndex()])])
    }

    /** `goal` is the cell that `get_target` picks on the belief masked
        around `cur`: the first cell of maximal belief in the breadth-first
        visit order from `cur`, which is a nearest one. It is within one step
        of `cur`. */
    ghost predicate Headed(cur: Pos, goal: Pos)
      reads this, base, base.belief
      requires InBounds(cur, base.dim)
    {
      InBounds(goal, base.dim) && Chebyshev(cur, goal) <= 1 &&
      exists m :: MaskOf(m, base.belief[..], base.dim, cur) && NearestMax(m, base.dim, cur, goal) &&
                  [goal] == BfsAnswer(m, base.dim, Max(m), cur)
    }

    /** Lines 130-142: mask a copy of the belief around the walked cell `c`
        and search it for a potential target. */
    method PotentialTarget(c: Cell) returns (goal: Pos)
      requires Valid() && InBounds(c.At(), base.dim)
      ensures Headed(c.At(), goal)
      ensures unchanged(this, base, base.maze, base.maze.cells, base.knowledge.cells, base.belief)
    {
      var copy := MaskedCopy(c);
      var picked := GetTarget9(copy[..], base.dim, c.At());
      goal := picked.value;
      MaskedTargetNear(copy[..], base.belief[..], base.dim, c.At(), goal);
    }

    /** The sensing branch of `execute` (agent_9.py:127-151): head for the
        potential target. */
    method HeadFor(c: Cell, count: int) returns (o: Outcome)
      requires Valid() && InBounds(c.At(), base.dim) && !base.maze.cells[c.x, c.y].IsBlocked()
      requires c.terrain == base.maze.cells[c.x, c.y].terrain
      requires Chebyshev(c.At(), base.maze.target.value) == 1
      ensures Concluded(c, count, o, base.belief[..], examineCount)
    {
      var goal := PotentialTarget(c);
      o := Outcome(base.knowledge.cells[goal.x, goal.y], count, MoveToward);
      HeadedConcluded(c, count, goal, o);
    }

    /** Heading for the knowledge cell of a potential target concludes the
        walk with 'move in potential target direction', leaving belief and
        count as they are. */
    lemma HeadedConcluded(c: Cell, count: int, goal: Pos, o: Outcome)
      requires Valid() && InBounds(c.At(), base.dim) && !base.maze.cells[c.x, c.y].IsBlocked()
      requires c.terrain == base.maze.cells[c.x, c.y].terrain
      requires Chebyshev(c.At(), base.maze.target.value) == 1
      requires Headed(c.At(), goal) && o == Outcome(base.knowledge.cells[goal.x, goal.y], count, MoveToward)
      ensures Concluded(c, count, o, base.belief[..], examineCount)
    {
    }

    /** The examine branch of `execute` (agent_9.py:152-174): examine the
        walked cell `c` up to `Checks` times, counting every failed
        examination. Finding the target ends it at once and leaves the
        belief alone; after the last failure the belief of `c` is multiplied
        once by its terrain's false negative rate. */
    method ExamineRepeatedly(c: Cell, count: int) returns (o: Outcome)
      requires Valid() && InBounds(c.At(), base.dim) && !base.maze.cells[c.x, c.y].IsBlocked()
      requires c.terrain == base.maze.cells[c.x, c.y].terrain
      requires Chebyshev(c.At(), base.maze.target.value) != 1
      modifies this, base.belief
      ensures Concluded(c, count, o, old(base.belief[..]), old(examineCount))
    {
      var checks := Checks(c.terrain);
      for i := 0 to checks
        invariant Valid() && examineCount == old(examineCount) + i
        invariant base.belief[..] == old(base.belief[..])
      {
        var found := ExamineCell(base.maze, base.fnr, c.At(), c.terrain.value);
        if found {
          return Outcome(c, count, FoundGoal);
        }
        examineCount := examineCount + 1;
      }
      ghost var before := base.belief[..];
      var i := Slot(c.At(), base.dim);
      var failed := base.UpdateBeliefState(c, base.belief, Examine);
      assert base.belief[..] == before[i := Weigh(before[i], base.fnr[c.terrain.value.RateIndex()])];
      o := Outcome(c, count, ExamineFailed);
    }

    /** What `execute` does once the walk stopped on the open cell `c`
        (agent_9.py:127-174): sense, then head for a potential target or
        examine `c`. */
    method Conclude(c: Cell, count: int) returns (o: Outcome)
      requires Valid() && InBounds(c.At(), base.dim) && !base.maze.cells[c.x, c.y].IsBlocked()
      requires c.terrain == base.maze.cells[c.x, c.y].terrain
      modifies this, base.belief
      ensures Concluded(c, count, o, old(base.belief[..]), old(examineCount))
    {
      if PartialSensing(base.maze.cells[c.x, c.y]) {
        o := HeadFor(c, count);
      } else {
        o := ExamineRepeatedly(c, count);
      }
    }

    /** The positions of the maze that are not Blocked. */
    ghost function Open(): set<Pos>
      reads base.maze.cells
      requires base.maze.Valid()
    {
      set i, j | 0 <= i < base.maze.dim && 0 <= j < base.maze.dim && !base.maze.cells[i, j].IsBlocked() :: Pos(i, j)
    }

    /** Every cell of `cells` lies on an open position of the maze. */
    ghost predicate OnOpen(cells: seq<Cell>)
      reads base.maze.cells
    {
      base.maze.Valid() && forall k :: 0 <= k < |cells| ==> cells[k].At() in Open()
    }

    /** Two runs of cells on open cells join into one. */
    lemma OnOpenJoin(p: seq<Cell>, q: seq<Cell>)
      requires OnOpen(p) && OnOpen(q)
      ensures OnOpen(p + q)
    {
      assert forall k :: |p| <= k < |p + q| ==> (p + q)[k] == q[k - |p|];
    }

    /** What `solve` needs of a finished `execute` that started with count
        `e0`: the agent ends in the grid, the cells it adds to the total path
        are open, at most 4 examinations were counted, and 'find goal' ends
        on the target. */
    ghost predicate Landed(o: Outcome, walked: seq<Cell>, e0: nat)
      reads this, base, base.maze, base.maze.cells
    {
      o.count < |walked| && OnOpen(Walked(walked, o.count)) && InBounds(o.end.At(), base.dim) &&
      e0 <= examineCount <= e0 + 4 &&
      (o.status == FoundGoal ==>
         base.maze.Valid() && InBounds(o.end.At(), base.maze.dim) && base.maze.cells[o.end.x, o.end.y].IsTarget())
    }

    /** The cells `solve` adds after a walk lie on open positions: they are
        copies of route cells before the one the walk ended on. */
    lemma WalkedOpen(path: seq<Cell>, walked: seq<Cell>, stop: nat, count: int)
      requires Valid() && base.InGrid(path) && stop < |path| && base.Copies(path, walked, stop)
      requires count < |path| && (count >= 1 ==> base.OpenPrefix(path, count + 1))
      ensures OnOpen(Walked(walked, count))
    {
      var seg := Walked(walked, count);
      if count >= 1 {
        base.OpenPrefixAt(path, count + 1);
        forall k | 0 <= k < |seg| ensures seg[k].At() in Open() {
          var c := path[k + 1];
          assert seg[k].At() == c.At();
          assert !base.maze.cells[c.x, c.y].IsBlocked();
        }
      }
    }

    /** The state `execute` leaves after walking `path` from belief `b0` and
        count `e0`, the walk having stopped on cell `stop`: the route
        copies up to it are revealed and the cells before it are open, and no
        earlier cell's weighed belief reached the route end's. A Blocked cell
        at `stop` gives 'blocked' with the cell before it, or the route's
        last cell when it is the first cell that is Blocked (its parent is
        None), with count one less than `stop`, and its belief 0. Otherwise
        the walk ended on the route's end or on the first cell whose belief
        reached the end's, and `execute` concludes on it (see `Concluded`). */
    ghost predicate Executed(path: seq<Cell>, o: Outcome, walked: seq<Cell>, stop: nat, b0: seq<real>, e0: nat)
      reads this, base, base.maze, base.maze.cells, base.knowledge.cells, base.belief
    {
      Valid() && base.InGrid(path) && |b0| == Area(base.dim) &&
      stop < |path| && base.Copies(path, walked, stop) && base.OpenPrefix(path, stop) &&
      base.NotAbandoned(b0, path, stop, b0[Slot(path[|path| - 1].At(), base.dim)]) &&
      (o.status == HitBlock <==> base.maze.cells[path[stop].x, path[stop].y].IsBlocked()) &&
      (o.status == HitBlock ==>
         examineCount == e0 &&
         o == (if stop == 0 then Outcome(walked[|path| - 1], -1, HitBlock)
               else Outcome(walked[stop - 1], stop - 1, HitBlock)) &&
         base.belief[..] == base.Revealed(b0, path, stop)[Slot(path[stop].At(), base.dim) := 0.0]) &&
      (o.status != HitBlock ==>
         base.OpenPrefix(path, stop + 1) &&
         (stop < |path| - 1 ==> !base.NotAbandoned(b0, path, stop + 1, b0[Slot(path[|path| - 1].At(), base.dim)])) &&
         Concluded(walked[stop], stop, o, base.Revealed(b0, path, stop + 1), e0))
    }

    /** `execute` (agent_9.py:99-174): walk the route as agent 7 does (see
        `Agent7.Walk`), then stop on a Blocked cell or conclude on the cell
        the walk ended on (see `Executed`). */
    method Execute(path: seq<Cell>) returns (o: Outcome, walked: seq<Cell>, ghost stop: nat)
      requires Valid() && |path| >= 1 && base.InGrid(path) && Distinct(path)
      requires forall k :: 0 <= k < |path| ==> !path[k].visited
      modifies this, base.belief
      ensures Valid() && Executed(path, o, walked, stop, old(base.belief[..]), old(examineCount))
    {
      var n, hit, cells := base.Walk(path);
      walked := cells;
      stop := n;
      if hit {
        if n == 0 {
          return Outcome(walked[|path| - 1], -1, HitBlock), walked, n;
        }
        return Outcome(walked[n - 1], n - 1, HitBlock), walked, n;
      }
      o := Conclude(walked[n], n);
    }

    /** After `execute` the agent stands in the grid, the cells `solve` adds
        are open, and at most 4 examinations were counted. */
    lemma ExecutedLands(path: seq<Cell>, o: Outcome, walked: seq<Cell>, stop: nat, b0: seq<real>, e0: nat)
      requires Executed(path, o, walked, stop, b0, e0)
      ensures Landed(o, walked, e0)
    {
      if o.status == HitBlock {
        BlockedLands(path, o, walked, stop, e0);
      } else {
        ConcludedLands(path, o, walked, stop, base.Revealed(b0, path, stop + 1), e0);
      }
    }

    /** `ExecutedLands` when the walk met a Blocked cell. */
    lemma BlockedLands(path: seq<Cell>, o: Outcome, walked: seq<Cell>, stop: nat, e0: nat)
      requires Valid() && base.InGrid(path) && stop < |path| && base.Copies(path, walked, stop)
      requires base.OpenPrefix(path, stop) && examineCount == e0 && o.status == HitBlock
      requires o == (if stop == 0 then Outcome(walked[|path| - 1], -1, HitBlock)
                     else Outcome(walked[stop - 1], stop - 1, HitBlock))
      ensures Landed(o, walked, e0)
    {
      WalkedOpen(path, walked, stop, o.count);
      assert walked[if stop == 0 then |path| - 1 else stop - 1].At() == path[if stop == 0 then |path| - 1 else stop - 1].At();
    }

    /** `ExecutedLands` when the walk concluded on cell `stop`. */
    lemma ConcludedLands(path: seq<Cell>, o: Outcome, walked: seq<Cell>, stop: nat, b1: seq<real>, e0: nat)
      requires Valid() && base.InGrid(path) && stop < |path| && base.Copies(path, walked, stop)
      requires base.OpenPrefix(path, stop + 1) && Concluded(walked[stop], stop, o, b1, e0)
      ensures Landed(o, walked, e0)
    {
      WalkedOpen(path, walked, stop, stop);
    }

    /** A route the walk of `execute` can take from `cur`: it starts at
        `cur`, steps between 4-neighbours, stays in the grid, never repeats a
        cell and none of its cells is visited. */
    ghost predicate Walkable(p: seq<Cell>, cur: Pos)
      reads this, base
    {
      |p| >= 1 && p[0].At() == cur && Trail(Positions(p)) && base.InGrid(p) && Distinct(p) &&
      forall k :: 0 <= k < |p| ==> !p[k].visited
    }

    /** Lines 205-207: a goal A* cannot reach is marked Blocked in the
        knowledge grid and its belief set to 0. */
    method RuleOut(goal: Pos)
      requires Valid() && InBounds(goal, base.dim)
      modifies base.knowledge.cells, base.belief
      ensures Valid()
      ensures base.knowledge.cells[goal.x, goal.y] == old(base.knowledge.cells[goal.x, goal.y]).(status := Blocked)
      ensures forall i, j :: 0 <= i < base.dim && 0 <= j < base.dim && Pos(i, j) != goal ==>
                base.knowledge.cells[i, j] == old(base.knowledge.cells[i, j])
      ensures base.belief[..] == old(base.belief[..])[Slot(goal, base.dim) := 0.0]
    {
      base.knowledge.SetStatus(goal.x, goal.y, Blocked);
      var cell := base.knowledge.cells[goal.x, goal.y];
      ghost var before := base.belief[..];
      var zeroed := base.UpdateBeliefState(cell, base.belief, Blocked);
      assert base.belief[..] == before[Slot(goal, base.dim) := 0.0];
    }

    /** The retry loop of `solve` (agent_9.py:183-208): pick the nearest cell
        of maximal belief and plan to it with A* on the knowledge grid; when
        no route exists, rule that cell out, move the target and pick again.
        The loop ends because each retry zeroes one positive belief: the
        unreachable goal is not `cur`, which A* always reaches. The route
        returned leads to the cell `get_target` picks: the first cell of
        maximal belief in the breadth-first visit order from `cur`, a nearest
        one. When the target
        has no open neighbour to move to, the loop stops with TargetStuck. */
    method Plan(cur: Pos) returns (r: Result<seq<Cell>, SolveStatus>)
      requires Valid() && InBounds(cur, base.dim)
      modifies base.maze, base.maze.cells, base.knowledge.cells, base.belief
      ensures base.maze.Valid() && base.Own()
      ensures Open() == old(Open())
      ensures r.Failure? ==> r.error == TargetStuck
      ensures r.Success? ==>
                var p := r.value;
                Valid() && Walkable(p, cur) && NearestMax(base.belief[..], base.dim, cur, p[|p| - 1].At()) &&
                [p[|p| - 1].At()] == BfsAnswer(base.belief[..], base.dim, Max(base.belief[..]), cur) &&
                (forall k :: 0 < k < |p| ==> !base.knowledge.cells[p[k].x, p[k].y].IsBlocked())
    {
      while true
        invariant Valid()
        invariant Open() == old(Open())
        decreases PositiveCount(base.belief[..])
      {
        var picked := GetTarget9(base.belief[..], base.dim, cur);
        var goal := picked.value;
        var path := Route(cur, goal);
        if path.Some? {
          return Success(path.value);
        }
        var moved := Retry(cur, goal);
        if moved.Failure? {
          return Failure(TargetStuck);
        }
      }
    }

    /** Line 192: A* on the knowledge grid from the agent's knowledge cell to
        `goal`. */
    method Route(cur: Pos, goal: Pos) returns (path: Option<seq<Cell>>)
      requires Valid() && InBounds(cur, base.dim)
      ensures path.Some? <==> Reachable(base.knowledge, cur, goal)
      ensures path.Some? ==>
                var p := path.value;
                Walkable(p, cur) && p[|p| - 1].At() == goal &&
                (forall k :: 0 < k < |p| ==> !base.knowledge.cells[p[k].x, p[k].y].IsBlocked())
    {
      var start := base.knowledge.cells[cur.x, cur.y];
      path := AStarSearch(start, goal, base.knowledge);
      if path.Some? {
        var p := path.value;
        PlannedWalk(base.knowledge, start, goal, p);
        PlannedUnvisited(base.knowledge, start, goal, p);
        assert Positions(p)[|p| - 1] == goal;
      }
    }

    /** Lines 204-208: rule out the nearest maximal cell `goal`, which A*
        cannot reach, and move the target. Fewer cells keep a positive
        belief afterwards. */
    method Retry(cur: Pos, goal: Pos) returns (r: Result<Pos, SolveStatus>)
      requires Valid() && InBounds(cur, base.dim)
      requires NearestMax(base.belief[..], base.dim, cur, goal) && !Reachable(base.knowledge, cur, goal)
      modifies base.maze, base.maze.cells, base.knowledge.cells, base.belief
      ensures base.maze.Valid() && base.Own()
      ensures Open() == old(Open())
      ensures PositiveCount(base.belief[..]) < old(PositiveCount(base.belief[..]))
      ensures r.Failure? ==> r.error == TargetStuck
      ensures r.Success? ==> Valid()
    {
      ReachesItself(base.knowledge, cur);
      NearestMaxPositive(base.belief[..], base.dim, cur, goal);
      ghost var before := base.belief[..];
      RuleOut(goal);
      PositiveCountZero(before, Slot(goal, base.dim));
      r := MoveTarget();
    }

    /** The cells of the route that `solve` adds to the total path after
        `execute` returned `count` (agent_9.py:212): those with index 1 up to
        `count`, none when `count` is below 1. */
    function Walked(walked: seq<Cell>, count: int): (seg: seq<Cell>)
      requires count < |walked|
      ensures |seg| == if count < 1 then 0 else count
      ensures forall k :: 0 <= k < |seg| ==> seg[k] == walked[k + 1]
    {
      if count < 1 then [] else walked[1..count + 1]
    }

    /** One round of `solve` (agent_9.py:183-214): plan (see `Plan`), walk
        (see `Execute`) and count an examined cell once more. `seg` is what
        the round adds to the total path; the agent ends on `o.end`. */
    method Round(cur: Pos) returns (r: Result<(Outcome, seq<Cell>), SolveStatus>)
      requires Valid() && InBounds(cur, base.dim)
      modifies this, base.maze, base.maze.cells, base.knowledge.cells, base.belief
      ensures base.maze.Valid() && Open() == old(Open())
      ensures r.Failure? ==> r.error == TargetStuck && examineCount == old(examineCount)
      ensures r.Success? ==>
                var (o, seg) := r.value;
                Valid() && OnOpen(seg) && InBounds(o.end.At(), base.dim) &&
                examineCount <= old(examineCount) + 5 &&
                (o.status == FoundGoal ==> base.maze.cells[o.end.x, o.end.y].IsTarget() && examineCount >= 1)
    {
      var planned := Plan(cur);
      if planned.Failure? {
        return Failure(TargetStuck);
      }
      var o, seg := Take(planned.value);
      return Success((o, seg));
    }

    /** Lines 210-214 of a round: walk the planned route (see `Execute`),
        take the cells walked and count an examined cell once more. */
    method Take(path: seq<Cell>) returns (o: Outcome, seg: seq<Cell>)
      requires Valid() && |path| >= 1 && base.InGrid(path) && Distinct(path)
      requires forall k :: 0 <= k < |path| ==> !path[k].visited
      modifies this, base.belief
      ensures Valid() && OnOpen(seg) && InBounds(o.end.At(), base.dim)
      ensures old(examineCount) <= examineCount <= old(examineCount) + 5
      ensures o.status == FoundGoal ==> base.maze.cells[o.end.x, o.end.y].IsTarget() && examineCount >= 1
    {
      var walked;
      o, walked := Land(path);
      seg := Walked(walked, o.count);
      CountExamined(o);
    }

    /** The walk of `Take`: `Execute`, and what `solve` needs of its outcome
        (see `ExecutedLands`). */
    method Land(path: seq<Cell>) returns (o: Outcome, walked: seq<Cell>)
      requires Valid() && |path| >= 1 && base.InGrid(path) && Distinct(path)
      requires forall k :: 0 <= k < |path| ==> !path[k].visited
      modifies this, base.belief
      ensures Valid() && Landed(o, walked, old(examineCount))
    {
      ghost var b0, e0 := base.belief[..], examineCount;
      ghost var stop;
      o, walked, stop := Execute(path);
      ExecutedLands(path, o, walked, stop, b0, e0);
    }

    /** Lines 213-214: an examined cell ('find goal' or 'examine failed')
        counts once more. */
    method CountExamined(o: Outcome)
      modifies this
      ensures examineCount == old(examineCount) + if o.status == FoundGoal || o.status == ExamineFailed then 1 else 0
    {
      if o.status == FoundGoal || o.status == ExamineFailed {
        examineCount := examineCount + 1;
      }
    }

    /** `solve` (agent_9.py:176-229): for at most `steps` rounds, plan a
        route to the cell `get_target` picks, walk it, add the cells walked
        to the total path and count the examination of an examined cell (see
        `Round`); stop on 'find goal'; after every other round the target
        moves to an open 8-neighbour (see `MoveTarget`). The count is at most
        5 per round: up to 4 examinations in `execute` and one in `solve`.
        Every cell of the total path is open in the maze. A target that
        cannot move ends the search with TargetStuck. */
    method Solve(start: Pos, steps: nat) returns (examined: nat, totalPath: seq<Cell>, status: SolveStatus)
      requires Valid() && InBounds(start, base.dim)
      modifies this, base.maze, base.maze.cells, base.knowledge.cells, base.belief
      ensures examined == examineCount && examined <= 5 * steps
      ensures status == Found || status == OutOfSteps || status == TargetStuck
      ensures status != TargetStuck ==> Valid()
      ensures status == Found ==> examined >= 1
      ensures OnOpen(totalPath)
    {
      examineCount := 0;
      totalPath := [];
      var cur := start;
      ghost var open := Open();
      for step := 0 to steps
        invariant Valid() && InBounds(cur, base.dim)
        invariant examineCount <= 5 * step
        invariant Open() == open && OnOpen(totalPath)
      {
        var round := Round(cur);
        if round.Failure? {
          return examineCount, totalPath, TargetStuck;
        }
        var (o, seg) := round.value;
        OnOpenJoin(totalPath, seg);
        totalPath := totalPath + seg;
        cur := o.end.At();
        if o.status == FoundGoal {
          return examineCount, totalPath, Found;
        }
        var moved := MoveTarget();
        if moved.Failure? {
          return examineCount, totalPath, TargetStuck;
        }
      }
      return examineCount, totalPath, OutOfSteps;
    }
  }
}
