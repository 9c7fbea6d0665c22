/** agent_6.py: the basic agent. It keeps a belief, for every cell, that the
    cell holds the target; the belief starts uniform and, after a Blocked cell
    or a failed examination, is rescaled so that it stays a probability
    distribution. The agent plans with A* on what it knows and walks the plan
    on the real maze. */
module AgentSix {
  import opened Wrappers
  import opened Grid
  import opened Belief
  import opened AStar
  import opened Targeting

  /** How a walk along a planned path ended (the status strings of
      `execute`): 'blocked', 'find goal', 'examine failed', and, for agents 7
      and 9, 'Target change' and 'move in potential target direction'. */
  datatype Walk = HitBlock | FoundGoal | ExamineFailed | TargetChanged | MoveToward

  /** `(end_cell, count, status)` as returned by `execute`. */
  datatype Outcome = Outcome(end: Cell, count: int, status: Walk)

  /** How `solve` ended: 'find goal', 'cannot find goal in limited steps', a
      belief of 1 met by a rescale, where numpy would divide by zero, or (agent
      9) a target with no open cell around it to move to, where `choice`
      raises. */
  datatype SolveStatus = Found | OutOfSteps | BeliefUndefined | TargetStuck

  /** Three false negative rates, indexed by `Terrain.RateIndex`. */
  ghost predicate Rates(fnr: seq<real>)
  {
    |fnr| == 3 && forall t :: 0 <= t < 3 ==> 0.0 <= fnr[t] <= 1.0
  }

  /** The belief array slot of an in-bounds position (`belief[x][y]`). */
  function Slot(p: Pos, dim: nat): (k: nat)
    requires InBounds(p, dim)
    ensures k < Area(dim) && k == Index(p.x, p.y, dim)
  {
    IndexInRange(p.x, p.y, dim);
    Index(p.x, p.y, dim)
  }

  /** Different positions have different slots. */
  lemma SlotInjective(p: Pos, q: Pos, dim: nat)
    requires InBounds(p, dim) && InBounds(q, dim) && p != q
    ensures Slot(p, dim) != Slot(q, dim)
  {
    if Slot(p, dim) == Slot(q, dim) {
      IndexInjective(p.x, p.y, q.x, q.y, dim);
    }
  }

  /** The rescale factor after a Blocked cell of belief `p`. */
  function BlockedFactor(p: real): real
    requires p != 1.0
  {
    1.0 / (1.0 - p)
  }

  /** The rescale factor after a failed examination of a cell of belief `p`. */
  function ExamineFactor(p: real, rate: real): real
    requires p != 1.0
  {
    (1.0 - rate * p) / (1.0 - p)
  }

  /** The belief after a Blocked cell at slot `i` (agent_6.py:113-115): all
      entries rescaled by 1/(1-p), then the cell's entry set to 0. A
      distribution stays a distribution, and the cell is ruled out. */
  ghost function AfterBlocked(s: seq<real>, i: nat): (t: seq<real>)
    requires i < |s| && s[i] != 1.0
    ensures |t| == |s| && t[i] == 0.0
    ensures NonNegative(s) && Sum(s) == 1.0 ==> NonNegative(t) && Sum(t) == 1.0
  {
    var c := BlockedFactor(s[i]);
    if NonNegative(s) && Sum(s) == 1.0 then
      NormalisedBlockedUpdate(s, i, c);
      Scale(s, c)[i := 0.0]
    else
      Scale(s, c)[i := 0.0]
  }

  /** The belief after a failed examination of slot `i` with false negative
      rate `rate` (agent_6.py:125-127): all entries rescaled by
      (1-rate·p)/(1-p), then the cell's entry set to rate·p. */
  ghost function AfterExamine(s: seq<real>, i: nat, rate: real): (t: seq<real>)
    requires i < |s| && s[i] != 1.0
    ensures |t| == |s| && t[i] == s[i] * rate
    ensures NonNegative(s) && Sum(s) == 1.0 && 0.0 <= rate <= 1.0 ==>
              NonNegative(t) && Sum(t) == 1.0
  {
    var c := ExamineFactor(s[i], rate);
    var t := Scale(s, c)[i := Missed(s[i], rate)];
    if NonNegative(s) && Sum(s) == 1.0 && 0.0 <= rate <= 1.0 then
      NormalisedExamineUpdate(s, i, c, rate);
      t
    else
      t
  }

  /** What a failed examination leaves of belief `p`: p·rate. */
  function Missed(p: real, rate: real): real
  {
    p * rate
  }

  /** Ruling out a cell of maximal belief removes one positive entry, so the
      retry loop of `solve`, which does this for every unreachable goal, ends. */
  lemma RetryShrinks(s: seq<real>, i: nat)
    requires i < |s| && NonNegative(s) && Sum(s) == 1.0
    requires s[i] == Max(s) && s[i] != 1.0
    ensures PositiveCount(AfterBlocked(s, i)) == PositiveCount(s) - 1
  {
    MaxPositiveWhenNormalised(s);
    EntryAtMostSum(s, i);
    DivPositive(1.0 - s[i]);
    ZeroingShrinks(s, i, BlockedFactor(s[i]));
  }

  lemma ZeroingShrinks(s: seq<real>, i: nat, c: real)
    requires i < |s| && s[i] > 0.0 && c > 0.0
    ensures PositiveCount(Scale(s, c)[i := 0.0]) == PositiveCount(s) - 1
  {
    PositiveCountScale(s, c);
    MulPositive(s[i], c);
    PositiveCountZero(Scale(s, c), i);
  }

  lemma DivUnique(c: real, d: real, e: real)
    requires d != 0.0 && c * d == e
    ensures c == e / d
  {
  }

  lemma DivPositive(d: real)
    requires d > 0.0
    ensures 1.0 / d > 0.0
  {
  }

  lemma MulPositive(a: real, b: real)
    requires a > 0.0 && b > 0.0
    ensures a * b > 0.0
  {
  }

  /** A dim-by-dim grid of cells, as rows. */
  ghost predicate Square(g: seq<seq<Cell>>, dim: nat)
  {
    |g| == dim && forall i :: 0 <= i < dim ==> |g[i]| == dim
  }

  /** `p` is the position of one of the first `n` cells of a path. */
  ghost predicate Stepped(path: seq<Cell>, n: nat, p: Pos)
    requires n <= |path|
  {
    n > 0 && (path[n - 1].At() == p || Stepped(path, n - 1, p))
  }

  /** A stepped position is the position of one of the first `n` cells. */
  lemma {:induction false} SteppedWitness(path: seq<Cell>, n: nat, p: Pos)
    requires n <= |path| && Stepped(path, n, p)
    ensures exists k :: 0 <= k < n && path[k].At() == p
  {
    if p != path[n - 1].At() {
      SteppedWitness(path, n - 1, p);
    }
  }

  /** A knowledge cell once the agent has stood on it (execute, lines
      109-118): visited, and Blocked or Empty as the maze says. A cell visited
      before is left alone. */
  function Visit(c: Cell, blocked: bool): (r: Cell)
    ensures r.visited && r.At() == c.At() && r.parent == c.parent
    ensures c.visited ==> r == c
    ensures !c.visited ==> r.IsBlocked() == blocked && (r.IsEmpty() <==> !blocked)
  {
    if c.visited then c
    else c.(visited := true, status := if blocked then Blocked else Empty)
  }

  /** Consecutive positions are 4-neighbours. */
  ghost predicate Trail(w: seq<Pos>)
  {
    forall k :: 0 < k < |w| ==> Manhattan(w[k - 1], w[k]) == 1
  }

  /** Joining a trail that ends at `x` with a trail that starts at `x`. */
  lemma TrailJoin(a: seq<Pos>, x: Pos, b: seq<Pos>)
    requires Trail(a + [x]) && Trail(b) && |b| >= 1 && b[0] == x
    ensures Trail(a + b)
  {
    var w := a + b;
    forall k | 0 < k < |w| ensures Manhattan(w[k - 1], w[k]) == 1 {
      if k < |a| {
        assert w[k - 1] == (a + [x])[k - 1] && w[k] == (a + [x])[k];
      } else if k == |a| {
        assert w[k - 1] == (a + [x])[k - 1] && w[k] == (a + [x])[k];
      } else {
        assert w[k - 1] == b[k - 1 - |a|] && w[k] == b[k - |a|];
      }
    }
  }

  /** What `Execute` needs of a planned path: it starts on the start cell,
      stays in bounds, and no cell after the first is Blocked in the grid. */
  lemma PlannedWalk(grid: GridWorld, start: Cell, goal: Pos, p: seq<Cell>)
    requires grid.Valid() && PlannedPath(grid, start, goal, p)
    ensures |p| >= 1 && p[0] == start && Trail(Positions(p))
    ensures forall k :: 0 <= k < |p| ==> InBounds(p[k].At(), grid.dim)
    ensures forall k :: 0 < k < |p| ==>
              InBounds(p[k].At(), grid.dim) && !grid.cells[p[k].x, p[k].y].IsBlocked()
  {
    var w := Positions(p);
    assert IsWalk(grid, start.At(), goal, w);
    forall k | 0 <= k < |p| ensures InBounds(p[k].At(), grid.dim) {
      assert w[k] == p[k].At();
    }
  }

  /** Appending the walked prefix of a path that starts where the trail ends
      keeps a trail from `start`. */
  lemma TrailExtend(tp: seq<Cell>, cur: Pos, start: Pos, path: seq<Cell>, count: int)
    requires Trail(Positions(tp) + [cur]) && (Positions(tp) + [cur])[0] == start
    requires Trail(Positions(path)) && |path| >= 1 && path[0].At() == cur
    requires 0 <= count < |path|
    ensures Trail(Positions(tp + path[..count]) + [path[count].At()])
    ensures (Positions(tp + path[..count]) + [path[count].At()])[0] == start
  {
    var a := Positions(tp);
    var b := Positions(path)[..count + 1];
    assert Trail(b) by {
      forall k | 0 < k < |b| ensures Manhattan(b[k - 1], b[k]) == 1 {
        assert b[k - 1] == Positions(path)[k - 1] && b[k] == Positions(path)[k];
      }
    }
    TrailJoin(a, cur, b);
    assert Positions(tp + path[..count]) + [path[count].At()] == a + b;
    if |a| == 0 {
      assert (a + b)[0] == b[0] == cur;
    } else {
      assert (a + b)[0] == a[0] == (a + [cur])[0];
    }
  }

  /** `examine` (agent_6.py:101-102): a cell that is not the target of the
      maze is never found; the target is found when a uniform draw from
      [0, 1] beats the false negative rate of `terrain`, which is impossible
      when that rate is 1. Agents 7 and 9 use it with the terrain of the maze
      cell. */
  method ExamineCell(maze: GridWorld, fnr: seq<real>, p: Pos, terrain: Terrain) returns (found: bool)
    requires maze.Valid() && InBounds(p, maze.dim) && |fnr| == 3
    requires maze.cells[p.x, p.y].IsTarget() ==> terrain.IsSurface()
    ensures found ==> maze.cells[p.x, p.y].IsTarget() && fnr[terrain.RateIndex()] < 1.0
  {
    var draw: real :| 0.0 <= draw <= 1.0;
    if maze.cells[p.x, p.y].IsTarget() {
      found := draw > fnr[terrain.RateIndex()];
    } else {
      found := false;
    }
  }

  class Agent6 {
    const maze: GridWorld
    const knowledge: GridWorld
    const dim: nat
    const density: real
    const fnr: seq<real>
    const belief: array<real>

    /** The maze is a generated maze; the knowledge grid has the same size,
        never gives a cell a parent, and records as Blocked every visited cell
        that is Blocked in the maze; the belief is a distribution. */
    ghost predicate Valid()
      reads this, maze, maze.cells, knowledge.cells, belief
    {
      maze.IsMaze() && dim == maze.dim && knowledge.dim == dim && knowledge.Valid() &&
      knowledge.cells != maze.cells && Rates(fnr) &&
      belief.Length == Area(dim) && NonNegative(belief[..]) && Sum(belief[..]) == 1.0 &&
      (forall i, j :: 0 <= i < dim && 0 <= j < dim ==>
         knowledge.cells[i, j].parent.None? &&
         (knowledge.cells[i, j].visited && maze.cells[i, j].IsBlocked() ==>
            knowledge.cells[i, j].IsBlocked()))
    }

    /** Stepping on `p` ends the walk: not visited yet, and Blocked in the maze. */
    ghost predicate Blocks(p: Pos)
      reads this, maze, maze.cells, knowledge.cells, belief
      requires Valid() && InBounds(p, dim)
    {
      !knowledge.cells[p.x, p.y].visited && maze.cells[p.x, p.y].IsBlocked()
    }

    /** `Agent6(maze, density, fnr)`: a fresh knowledge grid and the uniform
        belief 1/dim², which sums to one. */
    constructor (maze: GridWorld, density: real, fnr: seq<real>)
      requires maze.IsMaze() && Rates(fnr)
      ensures Valid()
      ensures this.maze == maze && this.density == density && this.fnr == fnr && dim == maze.dim
      ensures fresh(knowledge) && fresh(knowledge.cells) && fresh(belief)
      ensures forall k :: 0 <= k < belief.Length ==> belief[k] == 1.0 / ((dim * dim) as real)
      ensures forall i, j :: 0 <= i < dim && 0 <= j < dim ==>
                knowledge.cells[i, j].IsUnconfirmed() && !knowledge.cells[i, j].visited
    {
      this.maze := maze;
      this.density := density;
      this.fnr := fnr;
      dim := maze.dim;
      knowledge := new GridWorld.Knowledge(maze.dim);
      var n := maze.dim * maze.dim;
      AreaIsSquare(maze.dim);
      belief := new real[n](_ => 1.0 / (n as real));
      new;
      assert belief[..] == seq(n, _ => 1.0 / (n as real));
      UniformSumsToOne(n);
    }

    /** `update_belief_state`: multiply every entry by `scalar`. */
    method UpdateBeliefState(scalar: real)
      modifies belief
      ensures belief[..] == Scale(old(belief[..]), scalar)
    {
      for i := 0 to belief.Length
        invariant forall j :: 0 <= j < i ==> belief[j] == old(belief[j]) * scalar
        invariant forall j :: i <= j < belief.Length ==> belief[j] == old(belief[j])
      {
        var v := belief[i];
        belief[i] := v * scalar;
      }
      assert belief[..] == Scale(old(belief[..]), scalar) by {
        forall j | 0 <= j < belief.Length ensures belief[..][j] == Scale(old(belief[..]), scalar)[j] {
        }
      }
    }

    /** Lines 113-115 (and 146-148 of `solve`): rescale by `get_scalar` for
        a Blocked cell, then zero the cell's entry. */
    method RuleOut(i: nat) returns (r: Result<(), BeliefError>)
      requires Valid() && i < belief.Length
      modifies belief
      ensures Valid()
      ensures r.Failure? <==> old(belief[i]) == 1.0
      ensures r.Failure? ==> r.error == ZeroDivision && belief[..] == old(belief[..])
      ensures r.Success? ==> belief[..] == AfterBlocked(old(belief[..]), i)
    {
      var scalar := GetScalar([0.0, 0.0, 0.0], belief[i], Blocked, Flat);
      if scalar.Failure? {
        return Failure(ZeroDivision);
      }
      ghost var before := belief[..];
      DivUnique(scalar.value, 1.0 - before[i], 1.0);
      assert scalar.value == BlockedFactor(before[i]);
      UpdateBeliefState(scalar.value);
      belief[i] := 0.0;
      assert belief[..] == AfterBlocked(before, i);
      return Success(());
    }

    /** Lines 125-127: rescale by `get_scalar` for a failed examination on
        terrain `t`, then set the cell's entry to its old value times the
        terrain's false negative rate. */
    method Lower(i: nat, t: Terrain) returns (r: Result<(), BeliefError>)
      requires Valid() && i < belief.Length && t.IsSurface()
      modifies belief
      ensures Valid()
      ensures r.Failure? <==> old(belief[i]) == 1.0
      ensures r.Failure? ==> r.error == ZeroDivision && belief[..] == old(belief[..])
      ensures r.Success? ==> belief[..] == AfterExamine(old(belief[..]), i, fnr[t.RateIndex()])
    {
      var p := belief[i];
      var scalar := GetScalar(fnr, p, Status.Examine, t);
      if scalar.Failure? {
        return Failure(ZeroDivision);
      }
      ghost var before := belief[..];
      assert before[i] == p;
      var rate := fnr[t.RateIndex()];
      ghost var after := AfterExamine(before, i, rate);
      assert 0.0 <= rate <= 1.0;
      assert NonNegative(after) && Sum(after) == 1.0;
      var c := scalar.value;
      DivUnique(c, 1.0 - p, 1.0 - rate * p);
      assert c == ExamineFactor(before[i], rate);
      UpdateBeliefState(c);
      ghost var scaled := belief[..];
      belief[i] := Missed(p, rate);
      assert belief[..] == scaled[i := Missed(p, rate)];
      return Success(());
    }

    /** The knowledge cells, row by row, as a value. */
    ghost function Snapshot(): (g: seq<seq<Cell>>)
      reads knowledge.cells
      requires knowledge.cells.Length0 == dim && knowledge.cells.Length1 == dim
      ensures Square(g, dim)
      ensures forall i, j {:trigger g[i][j]} :: 0 <= i < dim && 0 <= j < dim ==> g[i][j] == knowledge.cells[i, j]
    {
      seq(dim, i requires 0 <= i < dim reads knowledge.cells =>
        seq(dim, j requires 0 <= j < dim reads knowledge.cells => knowledge.cells[i, j]))
    }

    /** The knowledge grid after the agent stepped on the first `n` cells of
        `path`, starting from the knowledge `k0`: exactly those cells went
        through `Visit`. */
    ghost predicate WalkedFrom(k0: seq<seq<Cell>>, path: seq<Cell>, n: nat)
      reads maze.cells, knowledge.cells
      requires n <= |path|
    {
      Square(k0, dim) &&
      knowledge.cells.Length0 == dim && knowledge.cells.Length1 == dim &&
      maze.cells.Length0 == dim && maze.cells.Length1 == dim &&
      forall i, j :: 0 <= i < dim && 0 <= j < dim ==>
        knowledge.cells[i, j] ==
          (if Stepped(path, n, Pos(i, j)) then Visit(k0[i][j], maze.cells[i, j].IsBlocked()) else k0[i][j])
    }

    /** The first `n` cells of `path` are open in the maze. */
    ghost predicate OpenSteps(path: seq<Cell>, n: nat)
      reads maze.cells
      requires n <= |path|
    {
      forall k :: 0 <= k < n ==>
        InBounds(path[k].At(), dim) && maze.cells.Length0 == dim && maze.cells.Length1 == dim &&
        !maze.cells[path[k].x, path[k].y].IsBlocked()
    }

    /** Lines 107-118 for one cell: mark it visited and record what the maze
        says, unless it was visited before. `hit` tells whether the walk stops
        here. */
    method StepOn(c: Cell) returns (hit: bool)
      requires Valid() && InBounds(c.At(), dim)
      modifies knowledge.cells
      ensures Valid()
      ensures hit == old(Blocks(c.At()))
      ensures knowledge.cells[c.x, c.y] == Visit(old(knowledge.cells[c.x, c.y]), maze.cells[c.x, c.y].IsBlocked())
      ensures forall i, j :: 0 <= i < dim && 0 <= j < dim && (i != c.x || j != c.y) ==>
                knowledge.cells[i, j] == old(knowledge.cells[i, j])
    {
      hit := false;
      if !knowledge.cells[c.x, c.y].visited {
        knowledge.MarkVisited(c.x, c.y);
        if maze.cells[c.x, c.y].IsBlocked() {
          knowledge.SetStatus(c.x, c.y, Blocked);
          hit := true;
        } else {
          knowledge.SetStatus(c.x, c.y, Empty);
        }
      }
    }

    /** One turn of the loop of `execute`: step on cell `n` of `path`. The
        walk stops (`hit`) exactly when that cell is, in the knowledge `k0`
        from before the walk, unvisited and Blocked in the maze. */
    method StepAlong(path: seq<Cell>, n: nat, ghost k0: seq<seq<Cell>>) returns (hit: bool)
      requires Valid() && n < |path|
      requires WalkedFrom(k0, path, n) && OpenSteps(path, n)
      requires forall k :: 0 <= k < |path| ==> InBounds(path[k].At(), dim)
      requires InBounds(path[0].At(), dim) && !maze.cells[path[0].x, path[0].y].IsBlocked()
      requires forall k :: 0 < k < |path| ==> InBounds(path[k].At(), dim) && !k0[path[k].x][path[k].y].IsBlocked()
      modifies knowledge.cells
      ensures Valid() && WalkedFrom(k0, path, n + 1)
      ensures var c := path[n];
              InBounds(c.At(), dim) && hit == (!k0[c.x][c.y].visited && maze.cells[c.x, c.y].IsBlocked())
      ensures !hit ==> OpenSteps(path, n + 1)
    {
      var cell := path[n];
      if Stepped(path, n, cell.At()) {
        SteppedWitness(path, n, cell.At());
      } else {
        assert knowledge.cells[cell.x, cell.y] == k0[cell.x][cell.y];
      }
      hit := StepOn(cell);
      forall i, j | 0 <= i < dim && 0 <= j < dim
        ensures knowledge.cells[i, j] ==
                  (if Stepped(path, n + 1, Pos(i, j)) then Visit(k0[i][j], maze.cells[i, j].IsBlocked()) else k0[i][j])
      {
        if i != cell.x || j != cell.y {
          assert Stepped(path, n + 1, Pos(i, j)) == Stepped(path, n, Pos(i, j));
        }
      }
    }

    /** The loop of `execute` (lines 106-118): step on the cells of `path`
        in order, and stop on the first one that is unvisited and Blocked in
        the maze (`hit`). `n` is the number of cells stepped on. */
    method WalkPath(path: seq<Cell>) returns (n: nat, hit: bool)
      requires Valid()
      requires |path| >= 1 && forall k :: 0 <= k < |path| ==> InBounds(path[k].At(), dim)
      requires InBounds(path[0].At(), dim) && !maze.cells[path[0].x, path[0].y].IsBlocked()
      requires forall k :: 0 < k < |path| ==>
                 InBounds(path[k].At(), dim) && !knowledge.cells[path[k].x, path[k].y].IsBlocked()
      modifies knowledge.cells
      ensures Valid() && belief[..] == old(belief[..])
      ensures 0 < n <= |path| && WalkedFrom(old(Snapshot()), path, n)
      ensures hit ==> n >= 2 && old(Blocks(path[n - 1].At()))
      ensures !hit ==> n == |path|
      ensures forall k :: 0 <= k < (if hit then n - 1 else n) ==>
                !old(Blocks(path[k].At())) &&
                InBounds(path[k].At(), dim) && !maze.cells[path[k].x, path[k].y].IsBlocked()
    {
      ghost var k0 := Snapshot();
      n := 0;
      hit := false;
      while n < |path|
        invariant 0 <= n <= |path|
        invariant Valid()
        invariant WalkedFrom(k0, path, n) && OpenSteps(path, n) && !hit
      {
        hit := StepAlong(path, n, k0);
        n := n + 1;
        if hit {
          break;
        }
      }
    }

    /** What the end of `execute` leaves behind, from the belief `b0` it
        started with, after a walk that stepped on `n` cells of `path` (`hit`:
        the last of them was Blocked). A Blocked cell is ruled out of the
        belief and the agent stops on its predecessor; otherwise the agent is
        on the last cell, where the target is found or the examination fails
        and lowers that cell's belief. Every cell up to the agent's is open in
        the maze. A belief that cannot be renormalised is a ZeroDivision and
        leaves the belief as it was. */
    ghost predicate Concluded(b0: seq<real>, path: seq<Cell>, n: nat, hit: bool, r: Result<Outcome, BeliefError>)
      reads maze.cells, belief
      requires maze.cells.Length0 == dim && maze.cells.Length1 == dim && |b0| == Area(dim) && Rates(fnr)
      requires 0 < n <= |path| && forall k :: 0 <= k < |path| ==> InBounds(path[k].At(), dim)
    {
      (r.Failure? ==> r.error == ZeroDivision && belief[..] == b0) &&
      (r.Success? ==>
         var o := r.value;
         0 <= o.count < |path| && o.end == path[o.count] && InBounds(o.end.At(), dim) &&
         o.status != TargetChanged &&
         forall k :: 0 <= k <= o.count ==>
           InBounds(path[k].At(), dim) && !maze.cells[path[k].x, path[k].y].IsBlocked()) &&
      (r.Success? && r.value.status == HitBlock ==>
         hit && r.value.count + 2 == n &&
         var c := Slot(path[n - 1].At(), dim);
         b0[c] != 1.0 && belief[..] == AfterBlocked(b0, c)) &&
      (r.Success? && r.value.status != HitBlock ==> !hit && n == |path| && r.value.count == |path| - 1) &&
      (r.Success? && r.value.status == FoundGoal ==>
         maze.cells[r.value.end.x, r.value.end.y].IsTarget() && belief[..] == b0) &&
      (r.Success? && r.value.status == ExamineFailed ==>
         var e := r.value.end;
         var t := maze.cells[e.x, e.y].terrain;
         t.Some? && t.value.IsSurface() && b0[Slot(e.At(), dim)] != 1.0 &&
         belief[..] == AfterExamine(b0, Slot(e.At(), dim), fnr[t.value.RateIndex()]))
    }

    /** The end of `execute` (lines 120-128), once the walk stepped on `n`
        cells of `path`. */
    method AfterWalk(path: seq<Cell>, n: nat, hit: bool) returns (r: Result<Outcome, BeliefError>)
      requires Valid()
      requires 0 < n <= |path| && forall k :: 0 <= k < |path| ==> InBounds(path[k].At(), dim)
      requires hit ==> n >= 2
      requires !hit ==> n == |path|
      requires forall k :: 0 <= k < (if hit then n - 1 else n) ==>
                 InBounds(path[k].At(), dim) && !maze.cells[path[k].x, path[k].y].IsBlocked()
      modifies belief
      ensures Valid() && Concluded(old(belief[..]), path, n, hit, r)
    {
      if hit {
        var cell := path[n - 1];
        var ok := RuleOut(Slot(cell.At(), dim));
        if ok.Failure? {
          return Failure(ZeroDivision);
        }
        return Success(Outcome(path[n - 2], n - 2, HitBlock));
      }
      var last := path[|path| - 1];
      var t := maze.cells[last.x, last.y].terrain.value;
      var found := ExamineCell(maze, fnr, last.At(), t);
      if found {
        return Success(Outcome(last, |path| - 1, FoundGoal));
      }
      var ok := Lower(Slot(last.At(), dim), t);
      if ok.Failure? {
        return Failure(ZeroDivision);
      }
      return Success(Outcome(last, |path| - 1, ExamineFailed));
    }

    /** `execute`: walk `path` until the first cell that is unvisited and
        Blocked in the maze; mark the walked cells visited (Blocked or Empty
        as the maze says) and, on a Blocked cell, rule it out of the belief and
        stop on its predecessor. Otherwise examine the last cell: the target
        may be found; a failed examination lowers that cell's belief. `stop`
        is the number of path cells the walk stepped on, `hit` whether the
        last of them was Blocked. */
    method Execute(path: seq<Cell>) returns (r: Result<Outcome, BeliefError>, ghost stop: nat, ghost hit: bool)
      requires Valid()
      requires |path| >= 1 && forall k :: 0 <= k < |path| ==> InBounds(path[k].At(), dim)
      requires InBounds(path[0].At(), dim) && !maze.cells[path[0].x, path[0].y].IsBlocked()
      requires forall k :: 0 < k < |path| ==>
                 InBounds(path[k].At(), dim) && !knowledge.cells[path[k].x, path[k].y].IsBlocked()
      modifies knowledge.cells, belief
      ensures Valid()
      ensures 0 < stop <= |path| && WalkedFrom(old(Snapshot()), path, stop)
      ensures hit ==> old(Blocks(path[stop - 1].At()))
      ensures forall k :: 0 <= k < (if hit then stop - 1 else stop) ==> !old(Blocks(path[k].At()))
      ensures Concluded(old(belief[..]), path, stop, hit, r)
    {
      var n, blocked := WalkPath(path);
      stop, hit := n, blocked;
      r := AfterWalk(path, n, blocked);
    }

    /** Line 149: an unreachable target is recorded as Blocked. */
    method MarkBlocked(p: Pos)
      requires Valid() && InBounds(p, dim)
      modifies knowledge.cells
      ensures Valid()
      ensures knowledge.cells[p.x, p.y] == old(knowledge.cells[p.x, p.y]).(status := Blocked)
      ensures forall i, j :: 0 <= i < dim && 0 <= j < dim && (i != p.x || j != p.y) ==>
                knowledge.cells[i, j] == old(knowledge.cells[i, j])
    {
      knowledge.SetStatus(p.x, p.y, Blocked);
    }

    /** Lines 146-149: a target of maximal belief that cannot be reached is
        ruled out of the belief and marked Blocked; one positive belief fewer
        remains. */
    method GiveUp(goal: Pos) returns (r: Result<(), BeliefError>)
      requires Valid() && InBounds(goal, dim) && belief[Slot(goal, dim)] == Max(belief[..])
      modifies knowledge.cells, belief
      ensures Valid()
      ensures r.Failure? ==> r.error == ZeroDivision
      ensures r.Success? ==> PositiveCount(belief[..]) < old(PositiveCount(belief[..]))
      ensures r.Success? ==> knowledge.cells[goal.x, goal.y].IsBlocked()
    {
      var i := Slot(goal, dim);
      ghost var before := belief[..];
      r := RuleOut(i);
      if r.Failure? {
        return;
      }
      RetryShrinks(before, i);
      MarkBlocked(goal);
    }

    /** Line 142: A* on the knowledge grid from the agent's own knowledge
        cell. A route, when there is one, starts at `cur`, is a trail, and
        only its first cell may be Blocked in the knowledge grid. */
    method Route(cur: Pos, goal: Pos) returns (path: Option<seq<Cell>>)
      requires Valid() && InBounds(cur, dim)
      ensures path.Some? <==> Reachable(knowledge, cur, goal)
      ensures path.Some? ==>
                var p := path.value;
                |p| >= 1 && p[0].At() == cur && p[|p| - 1].At() == goal && Trail(Positions(p)) &&
                (forall k :: 0 <= k < |p| ==> InBounds(p[k].At(), dim)) &&
                (forall k :: 0 < k < |p| ==>
                   InBounds(p[k].At(), dim) && !knowledge.cells[p[k].x, p[k].y].IsBlocked())
    {
      path := AStarSearch(knowledge.cells[cur.x, cur.y], goal, knowledge);
      if path.Some? {
        PlannedWalk(knowledge, knowledge.cells[cur.x, cur.y], goal, path.value);
        assert Positions(path.value)[|path.value| - 1] == goal;
      }
    }

    /** The retry loop of `solve` (lines 137-149): pick a target with
        `get_target` and plan to it with A* on the knowledge grid; when no
        route exists, rule the target out of the belief, mark it Blocked and
        pick again. The loop ends because each retry zeroes one positive
        belief. The route returned is a planned path from `cur` to a cell
        that `get_target` may pick from the belief as it then stands: a
        maximal-belief cell nearest to `cur`. */
    method Plan(cur: Pos) returns (r: Result<seq<Cell>, BeliefError>)
      requires Valid() && InBounds(cur, dim)
      modifies knowledge.cells, belief
      ensures Valid()
      ensures r.Failure? ==> r.error == ZeroDivision
      ensures r.Success? ==>
                var p := r.value;
                |p| >= 1 && p[0].At() == cur && Trail(Positions(p)) &&
                NearestMax(belief[..], dim, cur, p[|p| - 1].At()) &&
                p[|p| - 1].At() in PotentialTargets(belief[..], dim, cur) &&
                (forall k :: 0 <= k < |p| ==> InBounds(p[k].At(), dim)) &&
                (forall k :: 0 < k < |p| ==>
                   InBounds(p[k].At(), dim) && !knowledge.cells[p[k].x, p[k].y].IsBlocked())
    {
      while true
        invariant Valid()
        decreases PositiveCount(belief[..])
      {
        var goal := GetTarget6(belief[..], dim, cur);
        var planned := Route(cur, goal);
        if planned.Some? {
          assert planned.value[|planned.value| - 1].At() == goal;
          return Success(planned.value);
        }
        var ok := GiveUp(goal);
        if ok.Failure? {
          return Failure(ZeroDivision);
        }
      }
    }

    /** One round of `solve` (lines 137-158): plan a route from `cur`, then
        walk it. The agent ends on cell `o.count` of the route, and every cell
        up to it is open in the maze. */
    method Round(cur: Pos) returns (r: Result<(seq<Cell>, Outcome), BeliefError>)
      requires Valid() && InBounds(cur, dim) && !maze.cells[cur.x, cur.y].IsBlocked()
      modifies knowledge.cells, belief
      ensures Valid()
      ensures r.Success? ==>
                var (path, o) := r.value;
                |path| >= 1 && path[0].At() == cur && Trail(Positions(path)) &&
                0 <= o.count < |path| && o.end == path[o.count] &&
                (forall k :: 0 <= k <= o.count ==>
                   InBounds(path[k].At(), dim) && !maze.cells[path[k].x, path[k].y].IsBlocked()) &&
                (o.status == FoundGoal ==> maze.cells[o.end.x, o.end.y].IsTarget())
    {
      var planned := Plan(cur);
      if planned.Failure? {
        return Failure(planned.error);
      }
      var path := planned.value;
      var res, stop, hit := Execute(path);
      if res.Failure? {
        return Failure(res.error);
      }
      return Success((path, res.value));
    }

    /** `solve`: for at most `steps` rounds, pick a target of maximal belief
        nearest to the current cell and plan to it on the knowledge grid; a
        target the planner cannot reach is ruled out and marked Blocked, and
        another is picked. Then walk the plan. The route walked is
        `totalPath` followed by the final cell `at`: a trail of 4-neighbours
        from `start` through cells that are open in the maze; 'find goal'
        means the agent stands on the target. */
    method Solve(start: Pos, steps: nat)
      returns (examineCount: nat, totalPath: seq<Cell>, status: SolveStatus, ghost at: Pos)
      requires Valid() && InBounds(start, dim) && !maze.cells[start.x, start.y].IsBlocked()
      modifies knowledge.cells, belief
      ensures Valid()
      ensures examineCount <= steps
      ensures InBounds(at, dim) && !maze.cells[at.x, at.y].IsBlocked()
      ensures status == Found ==> maze.cells[at.x, at.y].IsTarget() && examineCount >= 1
      ensures Trail(Positions(totalPath) + [at]) && (Positions(totalPath) + [at])[0] == start
      ensures forall k :: 0 <= k < |totalPath| ==>
                InBounds(totalPath[k].At(), dim) && !maze.cells[totalPath[k].x, totalPath[k].y].IsBlocked()
    {
      examineCount := 0;
      totalPath := [];
      status := OutOfSteps;
      var cur := start;
      at := cur;
      for step := 0 to steps
        invariant Valid()
        invariant examineCount <= step
        invariant at == cur && InBounds(cur, dim) && !maze.cells[cur.x, cur.y].IsBlocked()
        invariant Trail(Positions(totalPath) + [cur]) && (Positions(totalPath) + [cur])[0] == start
        invariant forall k :: 0 <= k < |totalPath| ==>
                    InBounds(totalPath[k].At(), dim) && !maze.cells[totalPath[k].x, totalPath[k].y].IsBlocked()
      {
        var round := Round(cur);
        if round.Failure? {
          status := BeliefUndefined;
          return;
        }
        var (path, o) := round.value;
        TrailExtend(totalPath, cur, start, path, o.count);
        totalPath := totalPath + path[..o.count];
        cur := o.end.At();
        at := cur;
        if o.status == FoundGoal || o.status == ExamineFailed {
          examineCount := examineCount + 1;
        }
        if o.status == FoundGoal {
          status := Found;
          return;
        }
      }
      status := OutOfSteps;
    }
  }
}
