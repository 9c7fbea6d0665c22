/** agent_7.py: the agent that trusts terrain. Its belief is not normalised:
    it starts at 1 everywhere and changes one entry at a time. Walking onto an
    open cell multiplies the cell's entry by the confidence of its terrain, a
    Blocked cell sets it to 0, and a failed examination multiplies it by the
    terrain's false negative rate. On the way to its target the agent gives up
    the route at the first cell whose belief is at least the target's. */
module AgentSeven {
  import opened Wrappers
  import opened Grid
  import opened Belief
  import opened AgentSix

  /** No two cells of a path share coordinates, as on every A* path. */
  ghost predicate Distinct(path: seq<Cell>)
  {
    forall k, l :: 0 <= k < l < |path| ==> path[k].At() != path[l].At()
  }

  /** A path cell once the agent has walked onto it (agent_7.py:37-44):
      visited, and Blocked or Empty as the maze cell `m` says; an open cell
      also takes the maze's terrain. */
  function Reveal(c: Cell, m: Cell): (r: Cell)
    ensures r.visited && r.At() == c.At() && r.parent == c.parent
    ensures r.IsBlocked() == m.IsBlocked() && (r.IsEmpty() <==> !m.IsBlocked())
    ensures r.terrain == if m.IsBlocked() then c.terrain else m.terrain
  {
    if m.IsBlocked() then c.(visited := true, status := Blocked)
    else c.(visited := true, status := Empty, terrain := m.terrain)
  }

  /** A belief weighed by a terrain factor: a confidence, or a false negative
      rate after a failed examination. */
  function Weigh(p: real, w: real): real
  {
    p * w
  }

  /** Every slot names an entry of a belief of `size` entries. */
  predicate SlotsWithin(slots: seq<nat>, size: nat)
  {
    forall k :: 0 <= k < |slots| ==> slots[k] < size
  }

  /** No slot appears twice. */
  predicate SlotsDistinct(slots: seq<nat>)
  {
    forall j, k :: 0 <= j < k < |slots| ==> slots[j] != slots[k]
  }

  /** The belief `b` after its entries `slots[0]`, ..., `slots[n-1]` were
      weighed, in that order, by `confs[0]`, ..., `confs[n-1]`. */
  function Weighed(b: seq<real>, slots: seq<nat>, confs: seq<real>, n: nat): (r: seq<real>)
    requires n <= |slots| && n <= |confs| && SlotsWithin(slots, |b|)
    ensures |r| == |b|
  {
    if n == 0 then b
    else
      var r := Weighed(b, slots, confs, n - 1);
      r[slots[n - 1] := Weigh(r[slots[n - 1]], confs[n - 1])]
  }

  /** Entries that none of the first `n` slots names keep their value. */
  lemma {:induction false} WeighedElsewhere(b: seq<real>, slots: seq<nat>, confs: seq<real>, n: nat, j: nat)
    requires n <= |slots| && n <= |confs| && SlotsWithin(slots, |b|) && j < |b|
    requires forall k :: 0 <= k < n ==> slots[k] != j
    ensures Weighed(b, slots, confs, n)[j] == b[j]
  {
    if n > 0 {
      WeighedElsewhere(b, slots, confs, n - 1, j);
    }
  }

  /** Weighing entry `slots[n]` of the belief after `n` steps gives the
      belief after `n + 1`; that entry is then its original value weighed
      once, and with distinct slots the last slot is still untouched. */
  lemma WeighedNext(b: seq<real>, slots: seq<nat>, confs: seq<real>, n: nat, end: nat,
                    before: seq<real>, after: seq<real>)
    requires n < |slots| && |slots| <= |confs| && SlotsWithin(slots, |b|) && SlotsDistinct(slots)
    requires end == slots[|slots| - 1]
    requires before == Weighed(b, slots, confs, n)
    requires after == before[slots[n] := Weigh(before[slots[n]], confs[n])]
    ensures after == Weighed(b, slots, confs, n + 1)
    ensures after[slots[n]] == Weigh(b[slots[n]], confs[n])
    ensures n < |slots| - 1 ==> after[end] == b[end]
    ensures n == |slots| - 1 ==> end == slots[n]
  {
    WeighedElsewhere(b, slots, confs, n, slots[n]);
    if n < |slots| - 1 {
      WeighedElsewhere(b, slots, confs, n + 1, end);
    }
  }

  /** With distinct slots, each of the first `n` entries is weighed exactly
      once. */
  lemma {:induction false} WeighedAt(b: seq<real>, slots: seq<nat>, confs: seq<real>, n: nat, k: nat)
    requires n <= |slots| && n <= |confs| && SlotsWithin(slots, |b|) && SlotsDistinct(slots)
    requires k < n
    ensures Weighed(b, slots, confs, n)[slots[k]] == Weigh(b[slots[k]], confs[k])
  {
    if k == n - 1 {
      WeighedElsewhere(b, slots, confs, n - 1, slots[k]);
    } else {
      WeighedAt(b, slots, confs, n - 1, k);
    }
  }

  /** Factors that are not negative keep every entry non-negative and every
      zero entry at zero. */
  lemma {:induction false} WeighedBounds(b: seq<real>, slots: seq<nat>, confs: seq<real>, n: nat)
    requires n <= |slots| && n <= |confs| && SlotsWithin(slots, |b|)
    requires forall k :: 0 <= k < |confs| ==> confs[k] >= 0.0
    requires NonNegative(b)
    ensures NonNegative(Weighed(b, slots, confs, n))
    ensures forall j :: 0 <= j < |b| && b[j] == 0.0 ==> Weighed(b, slots, confs, n)[j] == 0.0
  {
    if n > 0 {
      WeighedBounds(b, slots, confs, n - 1);
      var r := Weighed(b, slots, confs, n - 1);
      MulNonNegative(r[slots[n - 1]], confs[n - 1]);
    }
  }

  /** None of the first `n` weighed entries reached `end`. */
  predicate BelowEnd(b: seq<real>, slots: seq<nat>, confs: seq<real>, n: nat, end: real)
    requires n <= |slots| && n <= |confs| && SlotsWithin(slots, |b|)
  {
    n == 0 || (BelowEnd(b, slots, confs, n - 1, end) && Weigh(b[slots[n - 1]], confs[n - 1]) < end)
  }

  /** `BelowEnd` entry by entry. */
  lemma {:induction false} BelowEndAt(b: seq<real>, slots: seq<nat>, confs: seq<real>, n: nat, end: real)
    requires n <= |slots| && n <= |confs| && SlotsWithin(slots, |b|)
    ensures BelowEnd(b, slots, confs, n, end) <==>
              forall k :: 0 <= k < n ==> Weigh(b[slots[k]], confs[k]) < end
  {
    if n > 0 {
      BelowEndAt(b, slots, confs, n - 1, end);
    }
  }

  class Agent7 {
    const maze: GridWorld
    const knowledge: GridWorld
    const dim: nat
    const density: real
    const fnr: seq<real>
    const confidence: seq<real>
    const belief: array<real>

    /** The maze is a generated maze; the knowledge grid has the same size
        and its cells are never visited and never get a parent (the walks of
        this agent write on path copies); no confidence and no belief is
        negative. */
    ghost predicate Valid()
      reads this, maze, maze.cells, knowledge.cells, belief
    {
      maze.IsMaze() && dim == maze.dim && Own()
    }

    /** The part of `Valid` that does not read the maze. */
    ghost predicate Own()
      reads this, knowledge.cells, belief
    {
      knowledge.dim == dim && knowledge.Valid() &&
      knowledge.cells != maze.cells && Rates(fnr) &&
      |confidence| == 3 && (forall t :: 0 <= t < 3 ==> confidence[t] >= 0.0) &&
      belief.Length == Area(dim) && NonNegative(belief[..]) &&
      (forall i, j :: 0 <= i < dim && 0 <= j < dim ==>
         knowledge.cells[i, j].parent.None? && !knowledge.cells[i, j].visited)
    }

    /** `Agent7(maze, density, fnr)`: the confidence table
        (1 - fnr_t) / mean(1 - fnr), a fresh knowledge grid and a belief of 1
        in every cell. */
    constructor (maze: GridWorld, density: real, fnr: seq<real>)
      requires maze.IsMaze() && Rates(fnr) && Sum(Complements(fnr)) != 0.0
      ensures Valid()
      ensures this.maze == maze && this.density == density && this.fnr == fnr && dim == maze.dim
      ensures fresh(knowledge) && fresh(knowledge.cells) && fresh(belief)
      ensures forall k :: 0 <= k < belief.Length ==> belief[k] == 1.0
      ensures confidence == Confidences(fnr) && Sum(confidence) == 3.0
    {
      this.maze := maze;
      this.density := density;
      this.fnr := fnr;
      confidence := Confidences(fnr);
      dim := maze.dim;
      knowledge := new GridWorld.Knowledge(maze.dim);
      AreaIsSquare(maze.dim);
      belief := new real[maze.dim * maze.dim](_ => 1.0);
    }

    /** The maze cell at `p`. */
    function MazeCell(p: Pos): Cell
      reads maze.cells
      requires maze.Valid() && InBounds(p, maze.dim)
    {
      maze.cells[p.x, p.y]
    }

    /** What the belief weights need: a grid of this size and a confidence
        per terrain. */
    ghost predicate Sized()
      reads maze.cells
    {
      maze.Valid() && dim == maze.dim && |confidence| == 3
    }

    /** Every cell of `path` is in bounds. */
    ghost predicate InGrid(path: seq<Cell>)
    {
      forall k :: 0 <= k < |path| ==> InBounds(path[k].At(), dim)
    }

    /** The first `n` cells of `path` are open in the maze. */
    ghost predicate OpenPrefix(path: seq<Cell>, n: nat)
      reads maze.cells
      requires Sized() && InGrid(path) && n <= |path|
    {
      n == 0 || (OpenPrefix(path, n - 1) && !maze.cells[path[n - 1].x, path[n - 1].y].IsBlocked())
    }

    /** `OpenPrefix` cell by cell. */
    lemma {:induction false} OpenPrefixAt(path: seq<Cell>, n: nat)
      requires Sized() && InGrid(path) && n <= |path|
      ensures OpenPrefix(path, n) <==>
                forall k :: 0 <= k < n ==> !maze.cells[path[k].x, path[k].y].IsBlocked()
    {
      if n > 0 {
        OpenPrefixAt(path, n - 1);
      }
    }

    /** The path copies after a walk that stopped on cell `n`: the cells up
        to `n` revealed from the maze, the rest untouched. */
    ghost predicate Copies(path: seq<Cell>, cells: seq<Cell>, n: int)
      reads maze.cells
      requires Sized() && InGrid(path)
    {
      |cells| == |path| &&
      forall k :: 0 <= k < |path| ==>
        cells[k] == if k <= n then Reveal(path[k], maze.cells[path[k].x, path[k].y]) else path[k]
    }

    /** The slot of each cell of `path`. */
    ghost function Slots(path: seq<Cell>): (r: seq<nat>)
      requires InGrid(path)
      ensures |r| == |path| && SlotsWithin(r, Area(dim))
      ensures forall k :: 0 <= k < |path| ==> r[k] == Slot(path[k].At(), dim)
    {
      seq(|path|, k requires 0 <= k < |path| => Slot(path[k].At(), dim))
    }

    /** Cells at distinct positions have distinct slots. */
    lemma SlotsOfDistinct(path: seq<Cell>)
      requires InGrid(path) && Distinct(path)
      ensures SlotsDistinct(Slots(path))
    {
      forall j, k | 0 <= j < k < |path|
        ensures Slots(path)[j] != Slots(path)[k]
      {
        SlotInjective(path[j].At(), path[k].At(), dim);
      }
    }

    /** The confidence of the terrain of a maze cell (1 for a cell without
        a surface terrain, which no open cell of a maze is). */
    ghost function ConfAt(p: Pos): real
      reads maze.cells
      requires Sized() && InBounds(p, dim)
    {
      var t := maze.cells[p.x, p.y].terrain;
      if t.Some? && t.value.IsSurface() then confidence[t.value.RateIndex()] else 1.0
    }

    /** The confidence of the maze terrain under each of the first `n`
        cells of `path`. */
    ghost function Confs(path: seq<Cell>, n: nat): (r: seq<real>)
      reads maze.cells
      requires Sized() && InGrid(path) && n <= |path|
      ensures |r| == n
      ensures forall k :: 0 <= k < n ==> r[k] == ConfAt(path[k].At())
    {
      if n == 0 then [] else Confs(path, n - 1) + [ConfAt(path[n - 1].At())]
    }

    /** The belief `b` after the agent walked onto the first `n` cells of
        `path` (all open): each one's entry weighed by its terrain's
        confidence, in path order. */
    ghost function Revealed(b: seq<real>, path: seq<Cell>, n: nat): (r: seq<real>)
      reads maze.cells
      requires Sized() && InGrid(path) && |b| == Area(dim) && n <= |path|
      ensures |r| == |b|
    {
      Weighed(b, Slots(path), Confs(path, |path|), n)
    }

    /** Revealing the next path cell extends `Copies` by one. */
    lemma CopiesStep(path: seq<Cell>, cells: seq<Cell>, n: nat, c': Cell)
      requires Sized() && InGrid(path) && n < |path| && Copies(path, cells, n - 1)
      requires c' == Reveal(path[n], maze.cells[path[n].x, path[n].y])
      ensures Copies(path, cells[n := c'], n)
    {
    }

    /** No walked cell's weighed belief reached `end`: the walk did not stop
        early on any of the first `n` cells. */
    ghost predicate NotAbandoned(b: seq<real>, path: seq<Cell>, n: nat, end: real)
      reads maze.cells
      requires Sized() && InGrid(path) && |b| == Area(dim) && n <= |path|
    {
      BelowEnd(b, Slots(path), Confs(path, |path|), n, end)
    }

    /** `update_belief_state` of agent_9.py:35-44, which agent_7.py:40,58 call
        too: only the entry of `c` in `b` may change. Blocked sets it to 0,
        Empty leaves it, Examine multiplies it by the false negative rate of
        the cell's terrain, and any other status is refused. No entry grows, a
        zero stays zero and, when no entry was negative, none becomes so. */
    method UpdateBeliefState(c: Cell, b: array<real>, status: Status) returns (r: Result<(), BeliefError>)
      requires Valid() && b.Length == Area(dim) && InBounds(c.At(), dim)
      requires status == Examine ==> c.terrain.Some? && c.terrain.value.IsSurface()
      modifies b
      ensures b == belief ==> Valid()
      ensures r.Success? <==> status == Blocked || status == Empty || status == Examine
      ensures r.Failure? ==> r.error == InvalidStatus && b[..] == old(b[..])
      ensures forall j :: 0 <= j < b.Length && j != Slot(c.At(), dim) ==> b[j] == old(b[j])
      ensures status == Blocked ==> b[Slot(c.At(), dim)] == 0.0
      ensures status == Empty ==> b[..] == old(b[..])
      ensures status == Examine ==>
                b[Slot(c.At(), dim)] == Weigh(old(b[Slot(c.At(), dim)]), fnr[c.terrain.value.RateIndex()])
      ensures NonNegative(old(b[..])) ==>
                NonNegative(b[..]) &&
                forall j :: 0 <= j < b.Length ==> b[j] <= old(b[j]) && (old(b[j]) == 0.0 ==> b[j] == 0.0)
    {
      var i := Slot(c.At(), dim);
      var rate := if status == Examine then fnr[c.terrain.value.RateIndex()] else 0.0;
      ghost var before := b[..];
      r := UpdateUnnormalised(b, i, status, rate);
      if r.Success? && NonNegative(before) {
        UnnormalisedKeepsBounds(before, i, status, rate);
      }
    }

    /** `update_confidence`: multiply the belief of `c` by the confidence of
        its terrain, and report whether that confidence is not negative, which
        it always is (so agent_7.py:49-52 never run). */
    method UpdateConfidence(c: Cell) returns (up: bool)
      requires Valid() && InBounds(c.At(), dim) && c.terrain.Some? && c.terrain.value.IsSurface()
      modifies belief
      ensures Valid()
      ensures up <==> confidence[c.terrain.value.RateIndex()] >= 0.0
      ensures up
      ensures belief[..] == old(belief[..])[Slot(c.At(), dim) :=
                Weigh(old(belief[Slot(c.At(), dim)]), confidence[c.terrain.value.RateIndex()])]
    {
      var conf := confidence[c.terrain.value.RateIndex()];
      var i := Slot(c.At(), dim);
      ghost var before := belief[..];
      var v := belief[i];
      MulNonNegative(v, conf);
      belief[i] := Weigh(v, conf);
      assert belief[..] == before[i := Weigh(v, conf)];
      up := conf >= 0.0;
    }

    /** One cell of the walk (agent_7.py:36-48): reveal the unvisited copy
        `c` from the maze. A Blocked cell gets belief 0 (`hit`); an open cell
        has its belief weighed by its terrain's confidence, and `stay` tells
        whether that belief has reached the belief in slot `end`
        (`belief_is_greater`). */
    method Step(c: Cell, end: nat) returns (hit: bool, stay: bool, c': Cell)
      requires Valid() && InBounds(c.At(), dim) && !c.visited && end < belief.Length
      modifies belief
      ensures Valid()
      ensures c' == Reveal(c, MazeCell(c.At()))
      ensures hit <==> MazeCell(c.At()).IsBlocked()
      ensures hit ==> belief[..] == old(belief[..])[Slot(c.At(), dim) := 0.0]
      ensures !hit ==>
                belief[..] == old(belief[..])[Slot(c.At(), dim) :=
                  Weigh(old(belief[Slot(c.At(), dim)]), ConfAt(c.At()))]
      ensures !hit ==> (stay <==> belief[Slot(c.At(), dim)] >= belief[end])
    {
      var m := maze.cells[c.x, c.y];
      var i := Slot(c.At(), dim);
      c' := c.(visited := true);
      if m.IsBlocked() {
        c' := c'.(status := Blocked);
        ghost var before := belief[..];
        var zeroed := UpdateBeliefState(c', belief, Blocked);
        assert belief[..] == before[i := 0.0];
        return true, false, c';
      }
      c' := c'.(status := Empty, terrain := m.terrain);
      var up := UpdateConfidence(c');
      if up {
        stay := BeliefIsGreater(belief[..], i, end);
      } else {
        assert false;
      }
      hit := false;
    }

    /** The state of the walk before cell `n` of `path`: the belief is `b0`
        with the first `n` cells weighed (their slots `slots` and confidences
        `confs`), none of which reached the belief `b0[end]` of the route's
        end, and the copies `cells` are revealed up to `n - 1`. */
    ghost predicate Walking(path: seq<Cell>, cells: seq<Cell>, n: nat, end: nat,
                            b0: seq<real>, slots: seq<nat>, confs: seq<real>)
      reads this, maze, maze.cells, knowledge.cells, belief
    {
      Valid() && InGrid(path) && n < |path| && |b0| == Area(dim) &&
      (forall k :: 0 <= k < |path| ==> !path[k].visited) &&
      |slots| == |path| && |confs| == |path| && SlotsWithin(slots, Area(dim)) && SlotsDistinct(slots) &&
      (forall k :: 0 <= k < |path| ==> slots[k] == Slot(path[k].At(), dim) && confs[k] == ConfAt(path[k].At())) &&
      end == slots[|path| - 1] &&
      Copies(path, cells, n - 1) && OpenPrefix(path, n) &&
      BelowEnd(b0, slots, confs, n, b0[end]) && belief[..] == Weighed(b0, slots, confs, n)
    }

    /** Where the walk ended, in the terms of `Walking`: cell `n` was Blocked
        (`hit`), with its entry zeroed, or it was open and weighed, and the
        walk did not stop early at an earlier cell. */
    ghost predicate WalkEnded(path: seq<Cell>, cells: seq<Cell>, n: nat, hit: bool, end: nat,
                              b0: seq<real>, slots: seq<nat>, confs: seq<real>)
      reads this, maze, maze.cells, knowledge.cells, belief
    {
      Valid() && InGrid(path) && n < |path| && |b0| == Area(dim) &&
      |slots| == |path| && |confs| == |path| && SlotsWithin(slots, Area(dim)) && end < |b0| &&
      Copies(path, cells, n) && OpenPrefix(path, n) &&
      BelowEnd(b0, slots, confs, n, b0[end]) &&
      (hit <==> maze.cells[path[n].x, path[n].y].IsBlocked()) &&
      (hit ==> belief[..] == Weighed(b0, slots, confs, n)[slots[n] := 0.0]) &&
      (!hit ==> OpenPrefix(path, n + 1) && belief[..] == Weighed(b0, slots, confs, n + 1)) &&
      (!hit && n < |path| - 1 ==> !BelowEnd(b0, slots, confs, n + 1, b0[end]))
    }

    /** One pass of the loop of `execute` on cell `n` of `path` (see
        `Walking`): reveal the copy (`Step`) and report whether it was Blocked
        (`hit`) or the walk stops there (`stay`, at the route's end or once
        the weighed belief reached the end's); otherwise the walk goes on. */
    method Advance(path: seq<Cell>, cells: seq<Cell>, n: nat, end: nat,
                   ghost b0: seq<real>, ghost slots: seq<nat>, ghost confs: seq<real>)
      returns (hit: bool, stay: bool, cells': seq<Cell>)
      requires Walking(path, cells, n, end, b0, slots, confs)
      modifies belief
      ensures hit || stay ==> WalkEnded(path, cells', n, hit, end, b0, slots, confs)
      ensures !hit && !stay ==> n < |path| - 1 && Walking(path, cells', n + 1, end, b0, slots, confs)
    {
      var c := cells[n];
      assert c == path[n] && slots[n] == Slot(c.At(), dim) && confs[n] == ConfAt(c.At());
      ghost var before := belief[..];
      var blocked, stop, c' := Step(c, end);
      CopiesStep(path, cells, n, c');
      cells' := cells[n := c'];
      hit, stay := blocked, stop;
      if !blocked {
        WeighedNext(b0, slots, confs, n, end, before, belief[..]);
      }
    }

    /** Where the walk ends, `Advance`'s account of the belief in the terms
        of `Revealed` and `NotAbandoned`. */
    lemma WalkEnds(path: seq<Cell>, cells: seq<Cell>, n: nat, end: nat, hit: bool,
                   b0: seq<real>, slots: seq<nat>, confs: seq<real>)
      requires Valid() && InGrid(path) && n < |path| && |b0| == Area(dim)
      requires slots == Slots(path) && confs == Confs(path, |path|) && end == slots[|path| - 1]
      requires BelowEnd(b0, slots, confs, n, b0[end])
      requires hit ==> belief[..] == Weighed(b0, slots, confs, n)[slots[n] := 0.0]
      requires !hit ==> belief[..] == Weighed(b0, slots, confs, n + 1)
      requires !hit && n < |path| - 1 ==> !BelowEnd(b0, slots, confs, n + 1, b0[end])
      ensures NotAbandoned(b0, path, n, b0[Slot(path[|path| - 1].At(), dim)])
      ensures hit ==> belief[..] == Revealed(b0, path, n)[Slot(path[n].At(), dim) := 0.0]
      ensures !hit ==> belief[..] == Revealed(b0, path, n + 1)
      ensures !hit && n < |path| - 1 ==> !NotAbandoned(b0, path, n + 1, b0[Slot(path[|path| - 1].At(), dim)])
    {
    }

    /** The loop of `execute` (agent_7.py:34-52, and agent_9.py:100-125): walk
        the copies of the path cells in order (see `Advance`). A Blocked cell
        ends the walk (`hit`); otherwise the walk stops at the first cell whose
        weighed belief is at least the current belief of the route's end,
        which at the route's end always holds. `n` is the index of the cell
        the walk stopped on, and `cells` the path copies as the walk left
        them. */
    method Walk(path: seq<Cell>) returns (n: nat, hit: bool, cells: seq<Cell>)
      requires Valid() && |path| >= 1 && InGrid(path) && Distinct(path)
      requires forall k :: 0 <= k < |path| ==> !path[k].visited
      modifies belief
      ensures Valid()
      ensures n < |path| && Copies(path, cells, n) && OpenPrefix(path, n)
      ensures NotAbandoned(old(belief[..]), path, n, old(belief[..])[Slot(path[|path| - 1].At(), dim)])
      ensures hit <==> maze.cells[path[n].x, path[n].y].IsBlocked()
      ensures hit ==> belief[..] == Revealed(old(belief[..]), path, n)[Slot(path[n].At(), dim) := 0.0]
      ensures !hit ==> OpenPrefix(path, n + 1) && belief[..] == Revealed(old(belief[..]), path, n + 1)
      ensures !hit && n < |path| - 1 ==>
                !NotAbandoned(old(belief[..]), path, n + 1, old(belief[..])[Slot(path[|path| - 1].At(), dim)])
    {
      ghost var b0 := belief[..];
      ghost var slots := Slots(path);
      ghost var confs := Confs(path, |path|);
      SlotsOfDistinct(path);
      var end := Slot(path[|path| - 1].At(), dim);
      n, hit, cells := WalkFrom(path, end, b0, slots, confs);
      WalkEnds(path, cells, n, end, hit, b0, slots, confs);
    }

    /** The loop of `Walk`, from the first cell of `path` on. */
    method WalkFrom(path: seq<Cell>, end: nat, ghost b0: seq<real>, ghost slots: seq<nat>, ghost confs: seq<real>)
      returns (n: nat, hit: bool, cells: seq<Cell>)
      requires Walking(path, path, 0, end, b0, slots, confs)
      modifies belief
      ensures WalkEnded(path, cells, n, hit, end, b0, slots, confs)
    {
      cells := path;
      n := 0;
      while true
        invariant Walking(path, cells, n, end, b0, slots, confs)
        decreases |path| - n
      {
        var stay;
        hit, stay, cells := Advance(path, cells, n, end, b0, slots, confs);
        if hit || stay {
          break;
        }
        n := n + 1;
      }
    }

    /** The end of `execute` (agent_7.py:54-59): examine the walked cell `c`,
        which carries the terrain of its open maze cell. A failed examination
        multiplies its belief by that terrain's false negative rate; a found
        target leaves the belief as it is. */
    method Inspect(c: Cell) returns (found: bool)
      requires Valid() && InBounds(c.At(), dim) && !maze.cells[c.x, c.y].IsBlocked()
      requires c.terrain == maze.cells[c.x, c.y].terrain
      modifies belief
      ensures Valid()
      ensures found ==> maze.cells[c.x, c.y].IsTarget() && belief[..] == old(belief[..])
      ensures !found ==>
                belief[..] == old(belief[..])[Slot(c.At(), dim) :=
                  Weigh(old(belief[Slot(c.At(), dim)]), fnr[c.terrain.value.RateIndex()])]
    {
      found := ExamineCell(maze, fnr, c.At(), c.terrain.value);
      if !found {
        ghost var before := belief[..];
        var i := Slot(c.At(), dim);
        var failed := UpdateBeliefState(c, belief, Status.Examine);
        assert belief[..] == before[i := Weigh(before[i], fnr[c.terrain.value.RateIndex()])];
      }
    }

    /** `execute`: walk the path (see `Walk`). On a Blocked cell return its
        predecessor with 'blocked'. Otherwise examine the cell the walk
        stopped on, which is the route's end or the first cell whose belief
        reached the end's: 'find goal' only on the target; after a failed
        examination that cell's belief is multiplied by its terrain's false
        negative rate. `stop` is the index of the cell the walk stopped on. */
    method Execute(path: seq<Cell>) returns (o: Outcome, walked: seq<Cell>, ghost stop: nat)
      requires Valid() && |path| >= 1 && InGrid(path) && Distinct(path)
      requires forall k :: 0 <= k < |path| ==> !path[k].visited
      requires InBounds(path[0].At(), dim) && !maze.cells[path[0].x, path[0].y].IsBlocked()
      modifies belief
      ensures Valid()
      ensures stop < |path| && Copies(path, walked, stop) && OpenPrefix(path, stop)
      ensures NotAbandoned(old(belief[..]), path, stop, old(belief[Slot(path[|path| - 1].At(), dim)]))
      ensures o.status == HitBlock || o.status == FoundGoal || o.status == ExamineFailed
      ensures o.status == HitBlock <==> maze.cells[path[stop].x, path[stop].y].IsBlocked()
      ensures o.status == HitBlock ==>
                stop >= 1 && o == Outcome(walked[stop - 1], stop - 1, HitBlock) &&
                belief[..] == Revealed(old(belief[..]), path, stop)[Slot(path[stop].At(), dim) := 0.0]
      ensures o.status != HitBlock ==>
                OpenPrefix(path, stop + 1) && o.count == stop && o.end == walked[stop] &&
                (stop < |path| - 1 ==>
                   Weigh(old(belief[Slot(path[stop].At(), dim)]), ConfAt(path[stop].At())) >=
                     old(belief[Slot(path[|path| - 1].At(), dim)]))
      ensures o.status == FoundGoal ==>
                maze.cells[path[stop].x, path[stop].y].IsTarget() &&
                belief[..] == Revealed(old(belief[..]), path, stop + 1)
      ensures o.status == ExamineFailed ==>
                var r := Revealed(old(belief[..]), path, stop + 1);
                var i := Slot(path[stop].At(), dim);
                belief[..] == r[i := Weigh(r[i], fnr[maze.cells[path[stop].x, path[stop].y].terrain.value.RateIndex()])]
    {
      var n, hit, cells := Walk(path);
      walked := cells;
      stop := n;
      if hit {
        return Outcome(walked[n - 1], n - 1, HitBlock), walked, n;
      }
      var c := walked[n];
      var found := Inspect(c);
      if found {
        return Outcome(c, n, FoundGoal), walked, n;
      }
      return Outcome(c, n, ExamineFailed), walked, n;
    }
  }
}
