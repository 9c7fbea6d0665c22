/** Target selection: the nearest cell of maximal belief, found by
    breadth-first search from the agent (agent_6.py `get_target`,
    agent_9.py `breadth_first_search` and `get_target`) or read off the
    belief array directly (agent_6.py `get_potential_target`).

    On an open dim-by-dim grid the hop distance of the search is the
    Manhattan distance, which is what the contracts use. Both searches seed
    `visited` with `set(start)`, the set of the two coordinates of the
    start, not the start itself; the start can therefore be enqueued a
    second time, at distance 2, by one of its neighbours. The model keeps
    that behaviour and proves it harmless. */
module Targeting {
  import opened Wrappers
  import opened Grid
  import opened Belief

  /** A queue entry: a position and its distance from the start. */
  datatype Node = Node(dist: nat, pos: Pos)

  /** The belief of an in-bounds cell. */
  function BeliefAt(b: seq<real>, dim: nat, u: Pos): real
    requires |b| == Area(dim) && InBounds(u, dim)
  {
    IndexInRange(u.x, u.y, dim);
    b[Index(u.x, u.y, dim)]
  }

  /** `u` is an in-bounds cell whose belief is `tv` (the source compares with
      `==` or `math.isclose`; the model uses equality). */
  ghost predicate Match(b: seq<real>, dim: nat, tv: real, u: Pos)
  {
    |b| == Area(dim) && InBounds(u, dim) && BeliefAt(b, dim, u) == tv
  }

  /** `u` holds the maximal belief and no such cell is nearer to `start`. */
  ghost predicate NearestMax(b: seq<real>, dim: nat, start: Pos, u: Pos)
    requires |b| == Area(dim) && dim > 0
  {
    Match(b, dim, Max(b), u) &&
    forall v :: Match(b, dim, Max(b), v) ==> Manhattan(start, u) <= Manhattan(start, v)
  }

  /** Some cell holds the maximal belief. */
  lemma MaxIsAttained(b: seq<real>, dim: nat)
    requires |b| == Area(dim) && dim > 0
    ensures exists u :: Match(b, dim, Max(b), u)
  {
    var k :| 0 <= k < |b| && b[k] == Max(b);
    PosOfIndex(k, dim);
    assert Match(b, dim, Max(b), PosOf(k, dim));
  }

  // ---------------------------------------------------------------------
  // get_potential_target

  /** The maximal cells among the first `k` flat indices, in row-major order. */
  function MaxCells(b: seq<real>, dim: nat, k: nat): (r: seq<Pos>)
    requires |b| == Area(dim) && dim > 0 && k <= |b|
    ensures forall p :: p in r ==> Match(b, dim, Max(b), p) && Index(p.x, p.y, dim) < k
    ensures forall i, j :: 0 <= i < j < |r| ==> Index(r[i].x, r[i].y, dim) < Index(r[j].x, r[j].y, dim)
  {
    if k == 0 then []
    else
      var rest := MaxCells(b, dim, k - 1);
      var p := PosOf(k - 1, dim);
      PosOfIndex(k - 1, dim);
      assert InBounds(p, dim) && Index(p.x, p.y, dim) == k - 1;
      if b[k - 1] == Max(b) then
        assert Match(b, dim, Max(b), p);
        rest + [p]
      else rest
  }

  /** Every maximal flat index below `k` has its cell in `MaxCells`. */
  lemma {:induction false} MaxCellsComplete(b: seq<real>, dim: nat, k: nat, j: nat)
    requires |b| == Area(dim) && dim > 0 && k <= |b|
    requires j < k && b[j] == Max(b)
    ensures PosOf(j, dim) in MaxCells(b, dim, k)
  {
    if j < k - 1 {
      MaxCellsComplete(b, dim, k - 1, j);
    }
  }

  /** The least Manhattan distance from `start` to a position of `ps`. */
  function MinDist(ps: seq<Pos>, start: Pos): (d: nat)
    requires ps != []
    ensures exists p :: p in ps && Manhattan(start, p) == d
    ensures forall p :: p in ps ==> d <= Manhattan(start, p)
  {
    if |ps| == 1 then Manhattan(start, ps[0])
    else
      var rest := MinDist(ps[1..], start);
      assert forall p :: p in ps ==> p == ps[0] || p in ps[1..];
      if Manhattan(start, ps[0]) < rest then Manhattan(start, ps[0]) else rest
  }

  /** The positions of `ps` at distance `d` from `start`, in order. */
  function AtDist(ps: seq<Pos>, start: Pos, d: nat): (r: seq<Pos>)
    ensures forall p :: p in r <==> p in ps && Manhattan(start, p) == d
    ensures |r| <= |ps|
  {
    if ps == [] then []
    else (if Manhattan(start, ps[0]) == d then [ps[0]] else []) + AtDist(ps[1..], start, d)
  }

  /** `get_potential_target` before its random pick: the maximal cells nearest
      to `start`, in row-major order. Whichever of its three returns the
      source takes, it returns one of these. */
  function PotentialTargets(b: seq<real>, dim: nat, start: Pos): (r: seq<Pos>)
    requires |b| == Area(dim) && dim > 0
    ensures r != []
    ensures forall u :: u in r <==> NearestMax(b, dim, start, u)
  {
    var all := MaxCells(b, dim, |b|);
    assert forall v :: Match(b, dim, Max(b), v) ==> v in all by {
      forall v | Match(b, dim, Max(b), v) ensures v in all {
        IndexInRange(v.x, v.y, dim);
        PosOfIndex(Index(v.x, v.y, dim), dim);
        MaxCellsComplete(b, dim, |b|, Index(v.x, v.y, dim));
        IndexInjective(v.x, v.y, PosOf(Index(v.x, v.y, dim), dim).x, PosOf(Index(v.x, v.y, dim), dim).y, dim);
      }
    }
    assert all != [] by {
      MaxIsAttained(b, dim);
      var u :| Match(b, dim, Max(b), u);
      assert u in all;
    }
    var near := AtDist(all, start, MinDist(all, start));
    near
  }

  // ---------------------------------------------------------------------
  // The search state shared by both breadth-first searches

  ghost function QPos(q: seq<Node>): set<Pos>
  {
    set j | 0 <= j < |q| :: q[j].pos
  }

  /** The positions of the queue entries at distance `d`. */
  ghost function QPosAt(q: seq<Node>, d: nat): set<Pos>
  {
    set j | 0 <= j < |q| && q[j].dist == d :: q[j].pos
  }

  ghost function AllCells(dim: nat): set<Pos>
  {
    set x, y | 0 <= x < dim && 0 <= y < dim :: Pos(x, y)
  }

  ghost predicate IsMinAt(q: seq<Node>, k: int)
  {
    0 <= k < |q| && forall j :: 0 <= j < |q| ==> q[k].dist <= q[j].dist
  }

  /** Queue entries are in bounds, at distance `front` or `front + 1`, and at
      their true distance, except the start enqueued again once popped. */
  ghost predicate EntriesOk(dim: nat, start: Pos, q: seq<Node>, done: set<Pos>, front: nat)
  {
    (forall j :: 0 <= j < |q| ==> InBounds(q[j].pos, dim) && front <= q[j].dist <= front + 1) &&
    (forall j :: 0 <= j < |q| && q[j].pos != start ==> q[j].dist == Manhattan(start, q[j].pos)) &&
    (forall j :: 0 <= j < |q| && q[j].pos == start ==> q[j].dist == 0 || start in done)
  }

  /** Popped positions are in bounds and do not match. */
  ghost predicate DoneOk(b: seq<real>, dim: nat, tv: real, done: set<Pos>)
  {
    forall u :: u in done ==> InBounds(u, dim) && !Match(b, dim, tv, u)
  }

  /** The neighbours of popped positions are seen (or the start), and every
      seen position was enqueued and is popped or still queued. */
  ghost predicate SetsOk(dim: nat, start: Pos, q: seq<Node>, seen: set<Pos>, done: set<Pos>)
  {
    (forall u, n :: u in done && n in Neighbors4(u, dim) ==> n in seen || n == start) &&
    QPos(q) <= seen + {start} && done <= seen + {start} &&
    seen + {start} <= done + QPos(q)
  }

  /** Every cell nearer than `front` has been popped. */
  ghost predicate LayersOk(dim: nat, start: Pos, done: set<Pos>, front: nat)
  {
    forall u :: InBounds(u, dim) && Manhattan(start, u) < front ==> u in done
  }

  ghost predicate StartOk(start: Pos, q: seq<Node>, seen: set<Pos>, done: set<Pos>, front: nat)
  {
    (done == {} ==> q == [Node(0, start)] && seen == {} && front == 0) &&
    (done != {} ==> start in done)
  }

  /** The invariant of the search loop before a match is found. `seen` is the
      source's `visited`, `done` the positions popped without a match. */
  ghost predicate SearchInv(b: seq<real>, dim: nat, tv: real, start: Pos,
                            q: seq<Node>, seen: set<Pos>, done: set<Pos>, front: nat)
  {
    InBounds(start, dim) && seen <= AllCells(dim) &&
    EntriesOk(dim, start, q, done, front) && DoneOk(b, dim, tv, done) &&
    SetsOk(dim, start, q, seen, done) && LayersOk(dim, start, done, front) &&
    StartOk(start, q, seen, done, front)
  }

  lemma InitSearch(b: seq<real>, dim: nat, tv: real, start: Pos)
    requires InBounds(start, dim)
    ensures SearchInv(b, dim, tv, start, [Node(0, start)], {}, {}, 0)
  {
    QPosAppend([], Node(0, start));
  }

  lemma QPosAppend(q: seq<Node>, node: Node)
    ensures QPos(q + [node]) == QPos(q) + {node.pos}
  {
    var q' := q + [node];
    assert q'[|q|] == node;
    forall p | p in QPos(q) ensures p in QPos(q') {
      var j :| 0 <= j < |q| && q[j].pos == p;
      assert q'[j] == q[j];
    }
  }

  /** A neighbour of `u` one step nearer to `start`. */
  function StepToward(start: Pos, u: Pos): (n: Pos)
    requires u != start
    ensures Manhattan(start, n) + 1 == Manhattan(start, u)
    ensures Manhattan(n, u) == 1
  {
    if u.x < start.x then Pos(u.x + 1, u.y)
    else if u.x > start.x then Pos(u.x - 1, u.y)
    else if u.y < start.y then Pos(u.x, u.y + 1)
    else Pos(u.x, u.y - 1)
  }

  lemma StepTowardInBounds(start: Pos, u: Pos, dim: nat)
    requires u != start && InBounds(start, dim) && InBounds(u, dim)
    ensures InBounds(StepToward(start, u), dim)
    ensures u in Neighbors4(StepToward(start, u), dim)
  {
  }

  /** When the least entry is at distance `front + 1`, every cell up to
      distance `front` has been popped. */
  lemma LayerDone(b: seq<real>, dim: nat, tv: real, start: Pos,
                  q: seq<Node>, seen: set<Pos>, done: set<Pos>, front: nat, k: nat)
    requires SearchInv(b, dim, tv, start, q, seen, done, front) && IsMinAt(q, k)
    ensures forall u :: InBounds(u, dim) && Manhattan(start, u) < q[k].dist ==> u in done
  {
    if q[k].dist == front + 1 {
      forall u | InBounds(u, dim) && Manhattan(start, u) == front ensures u in done {
        if front == 0 {
          assert u == start;
          assert done != {};
        } else {
          var n := StepToward(start, u);
          StepTowardInBounds(start, u, dim);
          assert n in done;
          assert u in seen;
        }
      }
    }
  }

  /** A popped entry that matches sits at its true distance, which is the
      least distance of any match, and every match at that distance is the
      popped position or waits in the rest of the queue at that distance. */
  lemma MatchFacts(b: seq<real>, dim: nat, tv: real, start: Pos,
                   q: seq<Node>, seen: set<Pos>, done: set<Pos>, front: nat, k: nat)
    requires SearchInv(b, dim, tv, start, q, seen, done, front) && IsMinAt(q, k)
    requires Match(b, dim, tv, q[k].pos)
    ensures q[k].dist == Manhattan(start, q[k].pos)
    ensures forall v :: Match(b, dim, tv, v) ==> q[k].dist <= Manhattan(start, v)
    ensures forall v :: Match(b, dim, tv, v) && Manhattan(start, v) == q[k].dist ==>
              v == q[k].pos || v in QPosAt(q[..k] + q[k + 1..], q[k].dist)
    ensures forall j :: 0 <= j < |q| && Match(b, dim, tv, q[j].pos) ==> q[j].dist == Manhattan(start, q[j].pos)
  {
    LayerDone(b, dim, tv, start, q, seen, done, front, k);
    LayerMatches(b, dim, tv, start, q, seen, done, front, k);
  }

  /** Every match at the popped entry's distance is the popped position or
      waits in the rest of the queue at that distance. */
  lemma LayerMatches(b: seq<real>, dim: nat, tv: real, start: Pos,
                     q: seq<Node>, seen: set<Pos>, done: set<Pos>, front: nat, k: nat)
    requires SearchInv(b, dim, tv, start, q, seen, done, front) && IsMinAt(q, k)
    requires forall u :: InBounds(u, dim) && Manhattan(start, u) < q[k].dist ==> u in done
    ensures forall v :: Match(b, dim, tv, v) && Manhattan(start, v) == q[k].dist ==>
              v == q[k].pos || v in QPosAt(q[..k] + q[k + 1..], q[k].dist)
  {
    var d, rest := q[k].dist, q[..k] + q[k + 1..];
    forall v | Match(b, dim, tv, v) && Manhattan(start, v) == d
      ensures v == q[k].pos || v in QPosAt(rest, d)
    {
      if d == 0 {
        assert v == start;
        assert q[k].pos == start;
      } else {
        var n := StepToward(start, v);
        StepTowardInBounds(start, v, dim);
        assert n in done;
        assert v in seen;
        var j :| 0 <= j < |q| && q[j].pos == v;
        if j != k {
          RestHolds(q, k, j);
        }
      }
    }
  }

  /** An entry other than the `k`th stays in the queue once the `k`th is
      popped. */
  lemma RestHolds(q: seq<Node>, k: nat, j: nat)
    requires k < |q| && j < |q| && j != k
    ensures q[j].pos in QPosAt(q[..k] + q[k + 1..], q[j].dist)
  {
    var rest := q[..k] + q[k + 1..];
    if j < k {
      assert rest[j] == q[j];
    } else {
      assert rest[j - 1] == q[j];
    }
  }

  /** When the queue runs empty, no cell matches: the popped cells contain
      the start and every open neighbour of a popped cell. */
  lemma EmptyMeansNoMatch(b: seq<real>, dim: nat, tv: real, start: Pos,
                          seen: set<Pos>, done: set<Pos>, front: nat)
    requires SearchInv(b, dim, tv, start, [], seen, done, front)
    ensures forall u :: !Match(b, dim, tv, u)
  {
    forall u | InBounds(u, dim) ensures u in done {
      Reach(dim, start, seen, done, u, Manhattan(start, u));
    }
  }

  lemma {:induction false} Reach(dim: nat, start: Pos, seen: set<Pos>, done: set<Pos>, u: Pos, d: nat)
    requires start in done && seen + {start} <= done && InBounds(start, dim)
    requires forall u, n :: u in done && n in Neighbors4(u, dim) ==> n in seen || n == start
    requires InBounds(u, dim) && Manhattan(start, u) == d
    ensures u in done
    decreases d
  {
    if u != start {
      var n := StepToward(start, u);
      StepTowardInBounds(start, u, dim);
      Reach(dim, start, seen, done, n, d - 1);
    }
  }

  /** Enqueues every position of `neighbors` (the 4-neighbours of the popped
      cell) not yet in `seen`, at distance `dist + 1`, and marks it seen
      (agent_6.py:71-75, agent_9.py:67-71). */
  method PushNeighbors(q: seq<Node>, seen: set<Pos>, neighbors: seq<Pos>, dist: nat)
    returns (q': seq<Node>, seen': set<Pos>)
    ensures seen' == seen + Elems(neighbors)
    ensures |q| <= |q'| && q'[..|q|] == q
    ensures forall j :: |q| <= j < |q'| ==>
              q'[j].dist == dist + 1 && q'[j].pos in neighbors && q'[j].pos !in seen
    ensures QPos(q') == QPos(q) + Unseen(neighbors, seen)
    ensures q' == Enqueued(q, neighbors, seen, dist)
    ensures seen' == seen ==> q' == q
  {
    q', seen' := q, seen;
    for t := 0 to |neighbors|
      invariant Pushed(q, seen, neighbors, dist, t, q', seen')
      invariant Enqueued(q', neighbors[t..], seen', dist) == Enqueued(q, neighbors, seen, dist)
    {
      var q'', seen'' := PushNext(q, seen, neighbors, dist, t, q', seen');
      FreshStep(neighbors, dist, t, q', seen', q'');
      q', seen' := q'', seen'';
    }
    assert neighbors[..|neighbors|] == neighbors && neighbors[|neighbors|..] == [];
    assert q' + [] == q';
  }

  /** The queue and visited set after the loop above handled the first `t`
      neighbours. */
  ghost predicate Pushed(q: seq<Node>, seen: set<Pos>, neighbors: seq<Pos>, dist: nat, t: nat,
                         q': seq<Node>, seen': set<Pos>)
  {
    t <= |neighbors| &&
    seen' == seen + Elems(neighbors[..t]) &&
    |q| <= |q'| && q'[..|q|] == q &&
    (forall j :: |q| <= j < |q'| ==>
       q'[j].dist == dist + 1 && q'[j].pos in neighbors && q'[j].pos !in seen) &&
    QPos(q') == QPos(q) + Unseen(neighbors[..t], seen) &&
    (seen' == seen ==> q' == q)
  }

  /** One turn of the loop of `PushNeighbors`: enqueue neighbour `t` at
      distance `dist + 1` and mark it seen, unless it was seen. */
  method PushNext(q: seq<Node>, seen: set<Pos>, neighbors: seq<Pos>, dist: nat, t: nat,
                  q': seq<Node>, seen': set<Pos>)
    returns (q'': seq<Node>, seen'': set<Pos>)
    requires t < |neighbors| && Pushed(q, seen, neighbors, dist, t, q', seen')
    ensures seen'' == seen' + {neighbors[t]}
    ensures neighbors[t] in seen' ==> q'' == q'
    ensures neighbors[t] !in seen' ==> q'' == q' + [Node(dist + 1, neighbors[t])]
    ensures Pushed(q, seen, neighbors, dist, t + 1, q'', seen'')
  {
    var n := neighbors[t];
    PrefixSets(neighbors, seen, t);
    if n in seen' {
      q'', seen'' := q', seen';
    } else {
      q'', seen'' := q' + [Node(dist + 1, n)], seen' + {n};
      QPosAppend(q', Node(dist + 1, n));
      assert q''[..|q|] == q'[..|q|];
    }
  }

  /** What the rest of the loop of `PushNeighbors` enqueues stays the same
      over one turn. */
  lemma FreshStep(neighbors: seq<Pos>, dist: nat, t: nat,
                  q': seq<Node>, seen': set<Pos>, q'': seq<Node>)
    requires t < |neighbors|
    requires neighbors[t] in seen' ==> q'' == q'
    requires neighbors[t] !in seen' ==> q'' == q' + [Node(dist + 1, neighbors[t])]
    ensures Enqueued(q'', neighbors[t + 1..], seen' + {neighbors[t]}, dist) == Enqueued(q', neighbors[t..], seen', dist)
  {
    var n := neighbors[t];
    assert neighbors[t..][0] == n && neighbors[t..][1..] == neighbors[t + 1..];
    if n in seen' {
      assert seen' + {n} == seen';
    } else {
      var rest := Fresh(neighbors[t + 1..], seen' + {n});
      assert Fresh(neighbors[t..], seen') == [n] + rest;
      assert ([n] + rest)[1..] == rest;
      assert Nodes([n] + rest, dist + 1) == [Node(dist + 1, n)] + Nodes(rest, dist + 1);
    }
  }

  /** The queue `q` after the loop of lines 72-75 (agent_6.py) and 68-71
      (agent_9.py) went through `ns`, from a node at distance `dist`. */
  ghost function Enqueued(q: seq<Node>, ns: seq<Pos>, seen: set<Pos>, dist: nat): seq<Node>
  {
    q + Nodes(Fresh(ns, seen), dist + 1)
  }

  /** Queue entries at distance `d` for the positions `ps`, in order. */
  ghost function Nodes(ps: seq<Pos>, d: nat): seq<Node>
  {
    if ps == [] then [] else [Node(d, ps[0])] + Nodes(ps[1..], d)
  }

  lemma {:induction false} NodesAt(ps: seq<Pos>, d: nat)
    ensures |Nodes(ps, d)| == |ps|
    ensures forall j :: 0 <= j < |ps| ==> Nodes(ps, d)[j] == Node(d, ps[j])
  {
    if ps != [] {
      NodesAt(ps[1..], d);
    }
  }

  /** The positions of `ns` that the loop of lines 72-75 (agent_6.py) and
      68-71 (agent_9.py) enqueues when `seen` holds the visited positions:
      each position of `ns` not visited yet, in the order of `ns`, marking it
      visited as it goes. */
  ghost function Fresh(ns: seq<Pos>, seen: set<Pos>): seq<Pos>
  {
    if ns == [] then []
    else if ns[0] in seen then Fresh(ns[1..], seen)
    else [ns[0]] + Fresh(ns[1..], seen + {ns[0]})
  }

  /** `Fresh` enqueues exactly the positions of `ns` not yet visited. */
  lemma {:induction false} FreshMembers(ns: seq<Pos>, seen: set<Pos>)
    ensures forall n :: n in Fresh(ns, seen) <==> n in ns && n !in seen
  {
    if ns != [] {
      FreshMembers(ns[1..], seen);
      FreshMembers(ns[1..], seen + {ns[0]});
      assert forall n :: n in ns <==> n == ns[0] || n in ns[1..];
    }
  }

  /** The positions of a sequence, and those of them not in `seen`. */
  ghost function Elems(s: seq<Pos>): set<Pos>
  {
    set n | n in s
  }

  ghost function Unseen(s: seq<Pos>, seen: set<Pos>): set<Pos>
  {
    set n | n in s && n !in seen
  }

  lemma PrefixSets(s: seq<Pos>, seen: set<Pos>, t: nat)
    requires t < |s|
    ensures Elems(s[..t + 1]) == Elems(s[..t]) + {s[t]}
    ensures Unseen(s[..t + 1], seen) == Unseen(s[..t], seen) + (if s[t] in seen then {} else {s[t]})
  {
    assert s[..t + 1] == s[..t] + [s[t]];
  }

  /** The queue without entry `k`. */
  lemma RestFacts(q: seq<Node>, k: nat)
    requires k < |q|
    ensures var rest := q[..k] + q[k + 1..];
            |rest| == |q| - 1 &&
            (forall j :: 0 <= j < |rest| ==> rest[j] == q[if j < k then j else j + 1]) &&
            QPos(rest) <= QPos(q) && QPos(q) <= QPos(rest) + {q[k].pos}
  {
    var rest := q[..k] + q[k + 1..];
    forall j | 0 <= j < |rest| ensures rest[j] == q[if j < k then j else j + 1] {
    }
    forall p | p in QPos(rest) ensures p in QPos(q) {
      var j :| 0 <= j < |rest| && rest[j].pos == p;
      assert q[if j < k then j else j + 1].pos == p;
    }
    forall p | p in QPos(q) ensures p in QPos(rest) + {q[k].pos} {
      var j :| 0 <= j < |q| && q[j].pos == p;
      if j < k { assert rest[j] == q[j]; } else if j > k { assert rest[j - 1] == q[j]; }
    }
  }

  /** The neighbours of the popped position that are not yet seen lie one
      step further out; the start is among them only once it was popped. */
  lemma FreshNeighbours(b: seq<real>, dim: nat, tv: real, start: Pos,
                        q: seq<Node>, seen: set<Pos>, done: set<Pos>, front: nat, k: nat)
    requires SearchInv(b, dim, tv, start, q, seen, done, front) && IsMinAt(q, k)
    ensures forall n :: n in Neighbors4(q[k].pos, dim) && n !in seen && n != start ==>
              Manhattan(start, n) == q[k].dist + 1
    ensures forall n :: n in Neighbors4(q[k].pos, dim) && n !in seen && n == start ==> start in done
  {
    var u, d := q[k].pos, q[k].dist;
    LayerDone(b, dim, tv, start, q, seen, done, front, k);
    forall n | n in Neighbors4(u, dim) && n !in seen
      ensures n != start ==> Manhattan(start, n) == d + 1
      ensures n == start ==> start in done
    {
      if n == start {
        assert done != {};
      } else {
        assert u !in done;
        assert d == Manhattan(start, u) by {
          if u == start { assert d == 0; }
        }
        assert Manhattan(u, n) == 1;
      }
    }
  }

  /** The entries after a step are well placed. */
  lemma EntriesStep(dim: nat, start: Pos, rest: seq<Node>, q': seq<Node>, done: set<Pos>, done': set<Pos>,
                    u: Pos, d: nat, seen: set<Pos>)
    requires InBounds(u, dim) && done <= done'
    requires forall j :: 0 <= j < |rest| ==> InBounds(rest[j].pos, dim) && d <= rest[j].dist <= d + 1
    requires forall j :: 0 <= j < |rest| && rest[j].pos != start ==> rest[j].dist == Manhattan(start, rest[j].pos)
    requires forall j :: 0 <= j < |rest| && rest[j].pos == start ==> rest[j].dist == 0 || start in done
    requires |rest| <= |q'| && q'[..|rest|] == rest
    requires forall j :: |rest| <= j < |q'| ==> q'[j].dist == d + 1 && q'[j].pos in Neighbors4(u, dim) && q'[j].pos !in seen
    requires forall n :: n in Neighbors4(u, dim) && n !in seen && n != start ==> Manhattan(start, n) == d + 1
    requires forall n :: n in Neighbors4(u, dim) && n !in seen && n == start ==> start in done
    ensures EntriesOk(dim, start, q', done', d)
  {
    forall j | 0 <= j < |rest| ensures q'[j] == rest[j] {
      assert q'[..|rest|][j] == q'[j];
    }
  }

  /** The set relations after a step. */
  lemma SetsStep(dim: nat, start: Pos, q: seq<Node>, rest: seq<Node>, q': seq<Node>,
                 seen: set<Pos>, seen': set<Pos>, done: set<Pos>, u: Pos)
    requires SetsOk(dim, start, q, seen, done)
    requires QPos(rest) <= QPos(q) && QPos(q) <= QPos(rest) + {u} && u in QPos(q)
    requires seen' == seen + Elems(Neighbors4(u, dim))
    requires QPos(q') == QPos(rest) + Unseen(Neighbors4(u, dim), seen)
    ensures SetsOk(dim, start, q', seen', done + {u})
  {
  }

  /** Popping the least entry `k` without a match and pushing its unseen
      neighbours keeps the invariant, with `front` moved to the popped distance. */
  lemma ExpandStep(b: seq<real>, dim: nat, tv: real, start: Pos,
                   q: seq<Node>, seen: set<Pos>, done: set<Pos>, front: nat, k: nat,
                   q': seq<Node>, seen': set<Pos>)
    requires SearchInv(b, dim, tv, start, q, seen, done, front) && IsMinAt(q, k)
    requires !Match(b, dim, tv, q[k].pos)
    requires var rest := q[..k] + q[k + 1..];
             seen' == seen + Elems(Neighbors4(q[k].pos, dim)) &&
             |rest| <= |q'| && q'[..|rest|] == rest &&
             (forall j :: |rest| <= j < |q'| ==>
                q'[j].dist == q[k].dist + 1 && q'[j].pos in Neighbors4(q[k].pos, dim) && q'[j].pos !in seen) &&
             QPos(q') == QPos(rest) + Unseen(Neighbors4(q[k].pos, dim), seen)
    ensures SearchInv(b, dim, tv, start, q', seen', done + {q[k].pos}, q[k].dist)
  {
    var u, d, rest := q[k].pos, q[k].dist, q[..k] + q[k + 1..];
    var done' := done + {u};
    RestFacts(q, k);
    LayerDone(b, dim, tv, start, q, seen, done, front, k);
    FreshNeighbours(b, dim, tv, start, q, seen, done, front, k);
    assert InBounds(u, dim);
    EntriesStep(dim, start, rest, q', done, done', u, d, seen);
    assert u in QPos(q);
    SetsStep(dim, start, q, rest, q', seen, seen', done, u);
    assert seen' <= AllCells(dim);
    assert DoneOk(b, dim, tv, done');
    assert LayersOk(dim, start, done', d);
    assert StartOk(start, q', seen', done', d) by {
      if done == {} { assert q == [Node(0, start)]; }
    }
  }

  /** Pops entry `k`, a least one that does not match, and enqueues its
      unseen neighbours: the step both searches take when no match is found. */
  method ExpandMin(b: seq<real>, dim: nat, tv: real, start: Pos, q: seq<Node>, seen: set<Pos>,
                   ghost done: set<Pos>, ghost front: nat, k: nat)
    returns (q': seq<Node>, seen': set<Pos>)
    requires SearchInv(b, dim, tv, start, q, seen, done, front) && IsMinAt(q, k)
    requires !Match(b, dim, tv, q[k].pos)
    ensures SearchInv(b, dim, tv, start, q', seen', done + {q[k].pos}, q[k].dist)
    ensures seen <= seen' && (seen' == seen ==> |q'| < |q|)
    ensures |q| - 1 <= |q'| && q'[..|q| - 1] == q[..k] + q[k + 1..]
    ensures forall j :: |q| - 1 <= j < |q'| ==> q'[j].dist == q[k].dist + 1
    ensures seen' == seen + Elems(Neighbors4(q[k].pos, dim))
    ensures q' == Enqueued(q[..k] + q[k + 1..], Neighbors4(q[k].pos, dim), seen, q[k].dist)
  {
    var rest := q[..k] + q[k + 1..];
    q', seen' := PushNeighbors(rest, seen, Neighbors4(q[k].pos, dim), q[k].dist);
    ExpandStep(b, dim, tv, start, q, seen, done, front, k, q', seen');
  }

  // ---------------------------------------------------------------------
  // agent_6.py get_target

  /** The index of a least entry of the priority queue (its pop). */
  method PopMin(q: seq<Node>) returns (k: nat)
    requires q != []
    ensures IsMinAt(q, k)
  {
    k := 0;
    var j := 1;
    while j < |q|
      invariant 1 <= j <= |q| && k < j
      invariant forall l :: 0 <= l < j ==> q[k].dist <= q[l].dist
    {
      if q[j].dist < q[k].dist {
        k := j;
      }
      j := j + 1;
    }
  }

  /** Lines 49-76 of `get_target`: pops entries by least distance; at the first
      maximal cell it also collects every maximal cell still queued at the
      same distance. The collected list holds exactly the nearest maximal cells. */
  method CollectNearestMax(b: seq<real>, dim: nat, start: Pos) returns (maxList: seq<Pos>)
    requires |b| == Area(dim) && InBounds(start, dim)
    ensures maxList != []
    ensures forall u :: u in maxList <==> NearestMax(b, dim, start, u)
  {
    var maximum := Max(b);
    var q := [Node(0, start)];
    var seen: set<Pos> := {};
    ghost var done: set<Pos> := {};
    ghost var front: nat := 0;
    InitSearch(b, dim, maximum, start);
    MaxIsAttained(b, dim);
    while true
      invariant SearchInv(b, dim, maximum, start, q, seen, done, front)
      decreases AllCells(dim) - seen, |q|
    {
      if q == [] {
        EmptyMeansNoMatch(b, dim, maximum, start, seen, done, front);
        assert false;
      }
      var k := PopMin(q);
      var node := q[k];
      assert InBounds(node.pos, dim);
      if BeliefAt(b, dim, node.pos) == maximum {
        maxList := CollectFrom(b, dim, maximum, start, q, seen, done, front, k);
        return;
      }
      var q', seen' := ExpandMin(b, dim, maximum, start, q, seen, done, front, k);
      q, seen, done, front := q', seen', done + {node.pos}, node.dist;
    }
  }

  /** The first maximal entry popped, entry `k`, starts the collection of
      its layer from the rest of the queue. */
  method CollectFrom(b: seq<real>, dim: nat, tv: real, start: Pos, q: seq<Node>, seen: set<Pos>,
                     ghost done: set<Pos>, ghost front: nat, k: nat)
    returns (maxList: seq<Pos>)
    requires SearchInv(b, dim, tv, start, q, seen, done, front) && IsMinAt(q, k)
    requires |b| == Area(dim) && |b| > 0 && tv == Max(b)
    requires Match(b, dim, tv, q[k].pos)
    ensures maxList != []
    ensures forall u :: u in maxList <==> NearestMax(b, dim, start, u)
  {
    MatchFacts(b, dim, tv, start, q, seen, done, front, k);
    RestFacts(q, k);
    var rest := q[..k] + q[k + 1..];
    maxList := CollectLayer(b, dim, tv, start, q[k], rest);
  }

  /** Lines 61-69: after the first maximal entry `first`, keeps popping least
      entries while they are at its distance, collecting the maximal ones. */
  method CollectLayer(b: seq<real>, dim: nat, tv: real, start: Pos, first: Node, q: seq<Node>)
    returns (maxList: seq<Pos>)
    requires |b| == Area(dim) && dim > 0 && tv == Max(b)
    requires Match(b, dim, tv, first.pos) && first.dist == Manhattan(start, first.pos)
    requires forall v :: Match(b, dim, tv, v) ==> first.dist <= Manhattan(start, v)
    requires forall v :: Match(b, dim, tv, v) && Manhattan(start, v) == first.dist ==>
               v == first.pos || v in QPosAt(q, first.dist)
    requires forall j :: 0 <= j < |q| ==> first.dist <= q[j].dist && InBounds(q[j].pos, dim)
    requires forall j :: 0 <= j < |q| && Match(b, dim, tv, q[j].pos) ==> q[j].dist == Manhattan(start, q[j].pos)
    ensures maxList != []
    ensures forall u :: u in maxList <==> NearestMax(b, dim, start, u)
  {
    var d := first.dist;
    maxList := [first.pos];
    var rest := q;
    while rest != []
      invariant first.pos in maxList
      invariant forall u :: u in maxList ==> Match(b, dim, tv, u) && Manhattan(start, u) == d
      invariant forall v :: Match(b, dim, tv, v) && Manhattan(start, v) == d ==>
                  v in maxList || v in QPosAt(rest, d)
      invariant forall j :: 0 <= j < |rest| ==> d <= rest[j].dist && InBounds(rest[j].pos, dim)
      invariant forall j :: 0 <= j < |rest| && Match(b, dim, tv, rest[j].pos) ==>
                  rest[j].dist == Manhattan(start, rest[j].pos)
    {
      var k := PopMin(rest);
      var node := rest[k];
      var rest' := rest[..k] + rest[k + 1..];
      if node.dist != d {
        assert forall j :: 0 <= j < |rest| ==> rest[j].dist != d;
        assert QPosAt(rest, d) == {};
        break;
      }
      assert QPosAt(rest, d) <= QPosAt(rest', d) + {node.pos} by {
        forall p | p in QPosAt(rest, d) ensures p in QPosAt(rest', d) + {node.pos} {
          var j :| 0 <= j < |rest| && rest[j].dist == d && rest[j].pos == p;
          if j < k { assert rest'[j] == rest[j]; } else if j > k { assert rest'[j - 1] == rest[j]; }
        }
      }
      assert forall j :: 0 <= j < |rest'| ==> rest'[j] in rest[..k] || rest'[j] in rest[k + 1..];
      if BeliefAt(b, dim, node.pos) == tv {
        maxList := maxList + [node.pos];
      }
      rest := rest';
    }
  }

  /** `get_target` of agent_6.py: a nearest maximal cell, picked from the
      collected list (the source's `randrange`, here any choice). */
  method GetTarget6(b: seq<real>, dim: nat, start: Pos) returns (target: Pos)
    requires |b| == Area(dim) && InBounds(start, dim)
    ensures NearestMax(b, dim, start, target)
    ensures target in PotentialTargets(b, dim, start)
  {
    var maxList := CollectNearestMax(b, dim, start);
    assert maxList[0] in maxList;
    target :| target in maxList;
  }

  // ---------------------------------------------------------------------
  // agent_9.py breadth_first_search and get_target

  ghost predicate Sorted(q: seq<Node>)
  {
    forall i, j :: 0 <= i < j < |q| ==> q[i].dist <= q[j].dist
  }

  /** First-in first-out order keeps the queue sorted by distance. */
  lemma SortedAfterPop(q: seq<Node>, q': seq<Node>)
    requires q != [] && Sorted(q) && |q| - 1 <= |q'| && q'[..|q| - 1] == q[..0] + q[0 + 1..]
    requires forall j :: |q| - 1 <= j < |q'| ==> q'[j].dist == q[0].dist + 1
    requires forall j :: 0 <= j < |q| ==> q[j].dist <= q[0].dist + 1
    ensures Sorted(q')
  {
    forall i, j | 0 <= i < j < |q'| ensures q'[i].dist <= q'[j].dist {
      if j < |q| - 1 {
        assert q'[i] == q[i + 1] && q'[j] == q[j + 1] by { assert q'[..|q| - 1] == q[1..]; }
      } else if i < |q| - 1 {
        assert q'[i] == q[i + 1] by { assert q'[..|q| - 1] == q[1..]; }
      }
    }
  }

  /** Every queue entry is in bounds. */
  ghost predicate QueueIn(q: seq<Node>, dim: nat)
  {
    forall j :: 0 <= j < |q| ==> InBounds(q[j].pos, dim)
  }

  /** The positions that the loop of `breadth_first_search` pops, in order,
      when its queue is `q` and `seen` is `visited`, if no match stops it:
      the front, then the search from the rest of the queue followed by the
      front's unvisited neighbours in N, E, S, W order. */
  ghost function BfsFrom(dim: nat, q: seq<Node>, seen: set<Pos>): (order: seq<Pos>)
    requires QueueIn(q, dim)
    decreases AllCells(dim) - seen, |q|
  {
    if q == [] then []
    else
      var ns := Neighbors4(q[0].pos, dim);
      BfsStep(dim, q, seen);
      [q[0].pos] + BfsFrom(dim, Enqueued(q[1..], ns, seen, q[0].dist), seen + Elems(ns))
  }

  /** The visit order from `start`; `visited` starts without the start
      itself (see the module comment). */
  ghost function BfsOrder(dim: nat, start: Pos): seq<Pos>
    requires InBounds(start, dim)
  {
    BfsFrom(dim, [Node(0, start)], {})
  }

  /** The answer the visit order gives: its first position whose belief is
      `tv`, if any. */
  ghost function BfsAnswer(b: seq<real>, dim: nat, tv: real, start: Pos): seq<Pos>
    requires InBounds(start, dim)
  {
    FirstMatch(b, dim, tv, BfsOrder(dim, start))
  }

  /** One pop of `BfsFrom` keeps the queue in bounds, and either leaves
      `seen` as it is or adds an in-bounds cell to it. */
  lemma BfsStep(dim: nat, q: seq<Node>, seen: set<Pos>)
    requires q != [] && QueueIn(q, dim)
    ensures var ns := Neighbors4(q[0].pos, dim);
            QueueIn(Enqueued(q[1..], ns, seen, q[0].dist), dim) &&
            (Fresh(ns, seen) == [] ==> seen + Elems(ns) == seen) &&
            (Fresh(ns, seen) != [] ==> AllCells(dim) - (seen + Elems(ns)) < AllCells(dim) - seen)
  {
    EnqueuedIn(dim, q[1..], Neighbors4(q[0].pos, dim), seen, q[0].dist);
    FreshShrinks(dim, Neighbors4(q[0].pos, dim), seen);
  }

  /** The entries a pop enqueues are in bounds when the neighbours are. */
  lemma EnqueuedIn(dim: nat, q: seq<Node>, ns: seq<Pos>, seen: set<Pos>, dist: nat)
    requires QueueIn(q, dim) && forall n :: n in ns ==> InBounds(n, dim)
    ensures QueueIn(Enqueued(q, ns, seen, dist), dim)
  {
    var fr := Fresh(ns, seen);
    var next := Enqueued(q, ns, seen, dist);
    NodesAt(fr, dist + 1);
    FreshMembers(ns, seen);
    forall j | |q| <= j < |next| ensures InBounds(next[j].pos, dim) {
      assert next[j].pos == fr[j - |q|];
      assert next[j].pos in fr;
    }
  }

  /** Marking the in-bounds neighbours `ns` visited either changes nothing
      or leaves fewer cells unvisited. */
  lemma FreshShrinks(dim: nat, ns: seq<Pos>, seen: set<Pos>)
    requires forall n :: n in ns ==> InBounds(n, dim)
    ensures Fresh(ns, seen) == [] ==> seen + Elems(ns) == seen
    ensures Fresh(ns, seen) != [] ==> AllCells(dim) - (seen + Elems(ns)) < AllCells(dim) - seen
  {
    var fr := Fresh(ns, seen);
    FreshMembers(ns, seen);
    if fr != [] {
      var n := fr[0];
      assert n in fr;
      assert Pos(n.x, n.y) in AllCells(dim);
      Shrink(AllCells(dim), seen, Elems(ns), n);
    }
  }

  /** Adding a new member of `all` to `seen` shrinks what is left of `all`. */
  lemma Shrink(all: set<Pos>, seen: set<Pos>, more: set<Pos>, n: Pos)
    requires n in all && n !in seen && n in more
    ensures all - (seen + more) < all - seen
  {
    assert n in all - seen;
  }

  /** The first position of `order` whose belief is `tv`, as a list of at
      most one position. */
  ghost function FirstMatch(b: seq<real>, dim: nat, tv: real, order: seq<Pos>): (r: seq<Pos>)
    ensures |r| <= 1
  {
    if order == [] then []
    else if Match(b, dim, tv, order[0]) then [order[0]]
    else FirstMatch(b, dim, tv, order[1..])
  }

  /** `FirstMatch` holds at most one position: none exactly when no
      position of `order` has the value, otherwise a position that has it
      and that no earlier position with the value precedes. */
  lemma {:induction false} FirstMatchSpec(b: seq<real>, dim: nat, tv: real, order: seq<Pos>)
    ensures var r := FirstMatch(b, dim, tv, order);
            |r| <= 1 &&
            (r == [] <==> forall j :: 0 <= j < |order| ==> !Match(b, dim, tv, order[j])) &&
            (r != [] ==> exists i :: 0 <= i < |order| && order[i] == r[0] && Match(b, dim, tv, r[0]) &&
                           forall j :: 0 <= j < i ==> !Match(b, dim, tv, order[j]))
  {
    if order != [] && !Match(b, dim, tv, order[0]) {
      FirstMatchSpec(b, dim, tv, order[1..]);
      assert forall j :: 1 <= j < |order| ==> order[j] == order[1..][j - 1];
      var r := FirstMatch(b, dim, tv, order[1..]);
      if r != [] {
        var i :| 0 <= i < |order[1..]| && order[1..][i] == r[0] && Match(b, dim, tv, r[0]) &&
                 forall j :: 0 <= j < i ==> !Match(b, dim, tv, order[1..][j]);
        assert order[i + 1] == r[0];
      }
    }
  }

  /** The loop invariant of `breadth_first_search` about the search state:
      the search invariant and a queue sorted by distance. */
  ghost predicate BfsInv(b: seq<real>, dim: nat, tv: real, start: Pos,
                         q: seq<Node>, seen: set<Pos>, done: set<Pos>, front: nat)
  {
    SearchInv(b, dim, tv, start, q, seen, done, front) && Sorted(q)
  }

  /** The loop invariant about the order: the first match of the visit order
      from the current queue is the first match of the visit order from the
      start. */
  ghost predicate SameFirst(b: seq<real>, dim: nat, tv: real, start: Pos, q: seq<Node>, seen: set<Pos>)
    requires InBounds(start, dim)
  {
    QueueIn(q, dim) &&
    FirstMatch(b, dim, tv, BfsFrom(dim, q, seen)) == BfsAnswer(b, dim, tv, start)
  }

  /** `breadth_first_search`: first-in first-out search for a cell whose
      belief is `tv`. Line 60 tests `queue.empty` without calling it, so
      the loop that would collect further matches never runs: the result is
      the first match in the visit order, or empty when no cell matches.
      That match is nearest to `start` among all matches. */
  method BreadthFirstSearch(b: seq<real>, dim: nat, tv: real, start: Pos) returns (targets: seq<Pos>)
    requires |b| == Area(dim) && InBounds(start, dim)
    ensures |targets| <= 1
    ensures targets == [] <==> forall u :: !Match(b, dim, tv, u)
    ensures forall p :: p in targets ==>
              Match(b, dim, tv, p) && forall v :: Match(b, dim, tv, v) ==> Manhattan(start, p) <= Manhattan(start, v)
    ensures targets == BfsAnswer(b, dim, tv, start)
  {
    var q := [Node(0, start)];
    var seen: set<Pos> := {};
    ghost var done: set<Pos> := {};
    ghost var front: nat := 0;
    targets := [];
    BfsStart(b, dim, tv, start);
    while q != []
      invariant BfsInv(b, dim, tv, start, q, seen, done, front)
      invariant SameFirst(b, dim, tv, start, q, seen)
      decreases AllCells(dim) - seen, |q|
    {
      var node := q[0];
      assert InBounds(node.pos, dim);
      if BeliefAt(b, dim, node.pos) == tv {
        BfsFound(b, dim, tv, start, q, seen, done, front);
        BfsHit(b, dim, tv, start, q, seen);
        targets := [node.pos];
        return;
      }
      var q', seen' := BfsVisit(b, dim, tv, start, q, seen, done, front);
      VisitShrinks(dim, node.pos, seen, seen');
      BfsSkip(b, dim, tv, start, q, seen, q', seen');
      q, seen, done, front := q', seen', done + {node.pos}, node.dist;
    }
    BfsExhausted(b, dim, tv, start, q, seen, done, front);
  }

  /** Both loop invariants hold with the start alone in the queue. */
  lemma BfsStart(b: seq<real>, dim: nat, tv: real, start: Pos)
    requires InBounds(start, dim)
    ensures BfsInv(b, dim, tv, start, [Node(0, start)], {}, {}, 0)
    ensures SameFirst(b, dim, tv, start, [Node(0, start)], {})
  {
    InitSearch(b, dim, tv, start);
  }

  /** A match at the front of the queue is nearest to the start. */
  lemma BfsFound(b: seq<real>, dim: nat, tv: real, start: Pos, q: seq<Node>, seen: set<Pos>,
                 done: set<Pos>, front: nat)
    requires q != [] && BfsInv(b, dim, tv, start, q, seen, done, front)
    requires Match(b, dim, tv, q[0].pos)
    ensures forall v :: Match(b, dim, tv, v) ==> Manhattan(start, q[0].pos) <= Manhattan(start, v)
  {
    assert IsMinAt(q, 0);
    MatchFacts(b, dim, tv, start, q, seen, done, front, 0);
  }

  /** A match at the front of the queue is the first match of the visit order. */
  lemma BfsHit(b: seq<real>, dim: nat, tv: real, start: Pos, q: seq<Node>, seen: set<Pos>)
    requires InBounds(start, dim) && q != [] && SameFirst(b, dim, tv, start, q, seen)
    requires Match(b, dim, tv, q[0].pos)
    ensures [q[0].pos] == BfsAnswer(b, dim, tv, start)
  {
    assert BfsFrom(dim, q, seen)[0] == q[0].pos;
  }

  /** An exhausted queue means that no cell matches, and that the visit
      order holds no match. */
  lemma BfsExhausted(b: seq<real>, dim: nat, tv: real, start: Pos, q: seq<Node>, seen: set<Pos>,
                     done: set<Pos>, front: nat)
    requires q == [] && BfsInv(b, dim, tv, start, q, seen, done, front)
    requires SameFirst(b, dim, tv, start, q, seen)
    ensures forall u :: !Match(b, dim, tv, u)
    ensures BfsAnswer(b, dim, tv, start) == []
  {
    EmptyMeansNoMatch(b, dim, tv, start, seen, done, front);
  }

  /** Lines 67-71: the front entry did not match; it is dropped and its
      unvisited neighbours are enqueued. */
  method BfsVisit(b: seq<real>, dim: nat, tv: real, start: Pos, q: seq<Node>, seen: set<Pos>,
                  ghost done: set<Pos>, ghost front: nat)
    returns (q': seq<Node>, seen': set<Pos>)
    requires q != [] && BfsInv(b, dim, tv, start, q, seen, done, front)
    requires !Match(b, dim, tv, q[0].pos)
    ensures BfsInv(b, dim, tv, start, q', seen', done + {q[0].pos}, q[0].dist)
    ensures seen <= seen' && (seen' == seen ==> |q'| < |q|)
    ensures q' == Enqueued(q[1..], Neighbors4(q[0].pos, dim), seen, q[0].dist)
    ensures seen' == seen + Elems(Neighbors4(q[0].pos, dim))
  {
    var k := 0;
    FrontLeast(q);
    q', seen' := ExpandMin(b, dim, tv, start, q, seen, done, front, k);
    PopSorted(dim, start, q, done, front, k, q');
  }

  /** The front of a sorted queue is a least entry. */
  lemma FrontLeast(q: seq<Node>)
    requires q != [] && Sorted(q)
    ensures IsMinAt(q, 0)
  {
  }

  /** Popping the front (`k` is 0) of a sorted queue and appending entries
      one step further keeps the queue sorted; what is left of the old queue
      is its tail. */
  lemma PopSorted(dim: nat, start: Pos, q: seq<Node>, done: set<Pos>, front: nat, k: nat, q': seq<Node>)
    requires k == 0 && q != [] && Sorted(q) && EntriesOk(dim, start, q, done, front)
    requires |q| - 1 <= |q'| && q'[..|q| - 1] == q[..k] + q[k + 1..]
    requires forall j :: |q| - 1 <= j < |q'| ==> q'[j].dist == q[k].dist + 1
    ensures Sorted(q') && q[..k] + q[k + 1..] == q[1..]
  {
    FrontSpread(dim, start, q, done, front);
    SortedAfterPop(q, q');
  }

  /** Every queue entry lies within one step of the front entry. */
  lemma FrontSpread(dim: nat, start: Pos, q: seq<Node>, done: set<Pos>, front: nat)
    requires q != [] && EntriesOk(dim, start, q, done, front)
    ensures forall j :: 0 <= j < |q| ==> q[j].dist <= q[0].dist + 1
  {
  }

  /** Marking the neighbours of an in-bounds cell seen either changes
      nothing or leaves fewer unvisited cells. */
  lemma VisitShrinks(dim: nat, p: Pos, seen: set<Pos>, seen': set<Pos>)
    requires InBounds(p, dim) && seen' == seen + Elems(Neighbors4(p, dim))
    ensures seen' != seen ==> AllCells(dim) - seen' < AllCells(dim) - seen
  {
    FreshShrinks(dim, Neighbors4(p, dim), seen);
  }

  /** Popping a non-matching front and pushing its unvisited neighbours
      keeps the first match of the visit order ahead. */
  lemma BfsSkip(b: seq<real>, dim: nat, tv: real, start: Pos, q: seq<Node>, seen: set<Pos>,
                q': seq<Node>, seen': set<Pos>)
    requires InBounds(start, dim) && q != [] && SameFirst(b, dim, tv, start, q, seen)
    requires !Match(b, dim, tv, q[0].pos)
    requires q' == Enqueued(q[1..], Neighbors4(q[0].pos, dim), seen, q[0].dist)
    requires seen' == seen + Elems(Neighbors4(q[0].pos, dim))
    ensures SameFirst(b, dim, tv, start, q', seen')
  {
    BfsStep(dim, q, seen);
    var order := BfsFrom(dim, q, seen);
    assert order == [q[0].pos] + BfsFrom(dim, q', seen');
    assert order[1..] == BfsFrom(dim, q', seen');
  }

  datatype TargetError = NoTarget

  /** `get_target` of agent_9.py: the search for the maximal belief, which
      always finds a nearest maximal cell, so the error is never raised. */
  method GetTarget9(b: seq<real>, dim: nat, start: Pos) returns (r: Result<Pos, TargetError>)
    requires |b| == Area(dim) && InBounds(start, dim)
    ensures r.Success? && NearestMax(b, dim, start, r.value)
    ensures r.Success? ==> [r.value] == BfsAnswer(b, dim, Max(b), start)
  {
    var targetValue := Max(b);
    var targets := BreadthFirstSearch(b, dim, targetValue, start);
    if |targets| < 1 {
      SomeTarget(b, dim, targets);
      return Failure(NoTarget);
    }
    assert targets[0] in targets;
    var t :| t in targets;
    ChosenIsNearest(b, dim, start, targets, t);
    return Success(t);
  }

  /** The cell chosen from a search for the maximal belief is a nearest
      maximal cell, and it is the search's only answer. */
  lemma ChosenIsNearest(b: seq<real>, dim: nat, start: Pos, targets: seq<Pos>, t: Pos)
    requires |b| == Area(dim) && dim > 0 && |targets| <= 1 && t in targets
    requires forall p :: p in targets ==>
               Match(b, dim, Max(b), p) && forall v :: Match(b, dim, Max(b), v) ==> Manhattan(start, p) <= Manhattan(start, v)
    ensures NearestMax(b, dim, start, t) && targets == [t]
  {
  }

  /** A search for the maximal belief never comes back empty, because some
      cell holds it. */
  lemma SomeTarget(b: seq<real>, dim: nat, targets: seq<Pos>)
    requires |b| == Area(dim) && dim > 0
    requires targets == [] <==> forall u :: !Match(b, dim, Max(b), u)
    ensures targets != []
  {
    MaxIsAttained(b, dim);
  }
}
