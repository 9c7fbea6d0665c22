/** Cells and grids of the grid world: coordinates, neighbourhoods, and the
    agent's initial knowledge grid (gridworld.py). */
module Grid {
  import opened Wrappers

  /** Traversal status of a cell. `Examine` and `Path` are tags that the
      agents and the drivers pass around; no grid cell of the model holds them. */
  datatype Status = Empty | Blocked | Unconfirmed | Target | Examine | Path

  /** Terrain category. `BlockedTerrain` is the source's `TerrainType.Blocked`. */
  datatype Terrain = Flat | Hilly | Forest | Unknown | BlockedTerrain
  {
    /** The three terrains a false-negative rate is configured for. */
    predicate IsSurface() { this == Flat || this == Hilly || this == Forest }

    /** Position of the terrain's rate in a rate list (its enum value). */
    function RateIndex(): (k: nat)
      requires IsSurface()
      ensures k < 3
    {
      match this
      case Flat => 0
      case Hilly => 1
      case Forest => 2
    }
  }

  /** A grid coordinate, the source's `[x, y]` lists and `(x, y)` tuples. */
  datatype Pos = Pos(x: int, y: int)

  function Abs(n: int): nat { if n < 0 then -n else n }

  function Manhattan(a: Pos, b: Pos): nat { Abs(a.x - b.x) + Abs(a.y - b.y) }

  function Chebyshev(a: Pos, b: Pos): nat
  {
    if Abs(a.x - b.x) < Abs(a.y - b.y) then Abs(a.y - b.y) else Abs(a.x - b.x)
  }

  predicate InBounds(p: Pos, dim: int) { 0 <= p.x < dim && 0 <= p.y < dim }

  /** One grid cell. `parent` is the index of the predecessor in the arena of
      search nodes of one planner run; `terrain` is `None` until set. */
  datatype Cell = Cell(x: int, y: int, g: int, h: int, f: int, parent: Option<nat>,
                       status: Status, terrain: Option<Terrain>, visited: bool)
  {
    function At(): Pos { Pos(x, y) }

    predicate IsBlocked() { status == Blocked }
    predicate IsEmpty() { status == Empty }
    predicate IsUnconfirmed() { status == Unconfirmed }
    predicate IsTarget() { status == Target }

    /** `update_f_g_h` on a copy: records g, the heuristic to `goal` and their sum. */
    function UpdateFGH(g': int, goal: Pos): (c: Cell)
      ensures c.g == g' && c.h == Manhattan(At(), goal) && c.f == c.g + c.h
      ensures c == this.(g := c.g, h := c.h, f := c.f)
    {
      var h' := Abs(x - goal.x) + Abs(y - goal.y);
      this.(g := g', h := h', f := g' + h')
    }
  }

  /** `Cell(parent, x, y, dim, status)`: scratch fields zero, terrain unset, unvisited. */
  function NewCell(parent: Option<nat>, x: int, y: int, status: Status): Cell
  {
    Cell(x, y, 0, 0, 0, parent, status, None, false)
  }

  /** The status predicates hold exactly when the stored status is theirs,
      so at most one of them holds. */
  lemma StatusPredicatesExclusive(c: Cell)
    ensures c.IsBlocked() <==> c.status == Blocked
    ensures c.IsEmpty() <==> c.status == Empty
    ensures c.IsUnconfirmed() <==> c.status == Unconfirmed
    ensures c.IsTarget() <==> c.status == Target
    ensures c.IsBlocked() ==> !c.IsEmpty() && !c.IsUnconfirmed() && !c.IsTarget()
    ensures c.IsEmpty() ==> !c.IsUnconfirmed() && !c.IsTarget()
    ensures c.IsUnconfirmed() ==> !c.IsTarget()
  {
  }

  /** `get_index`: the row-major position of (x, y) in a dim-by-dim grid,
      x * dim + y (`IndexRowMajor`), counted row after row so that it stays
      linear. */
  function Index(x: int, y: int, dim: nat): (k: int)
    ensures k >= y
    decreases if x > 0 then x else 0
  {
    if x <= 0 then y else Index(x - 1, y, dim) + dim
  }

  /** The number of cells of a dim-by-dim grid, dim * dim (`AreaIsSquare`). */
  function Area(dim: nat): nat
  {
    if dim == 0 then 0 else Index(dim - 1, dim, dim)
  }

  lemma {:induction false} IndexRowMajor(x: int, y: int, dim: nat)
    requires x >= 0
    ensures Index(x, y, dim) == x * dim + y
  {
    if x > 0 {
      IndexRowMajor(x - 1, y, dim);
    }
  }

  lemma AreaIsSquare(dim: nat)
    ensures Area(dim) == dim * dim
  {
    if dim > 0 {
      IndexRowMajor(dim - 1, dim, dim);
    }
  }

  /** Rows further down come later: row x ends before row x' starts. */
  lemma {:induction false} IndexRows(x: int, x': int, y: int, y': int, dim: nat)
    requires 0 <= x < x' && 0 <= y < dim && 0 <= y'
    ensures Index(x, y, dim) < Index(x', y', dim)
  {
    if x' - 1 > x {
      IndexRows(x, x' - 1, y, y', dim);
    } else {
      IndexShift(x, y, dim);
      IndexShift(x', y', dim);
    }
  }

  lemma {:induction false} IndexShift(x: int, y: int, dim: nat)
    requires x >= 0
    ensures Index(x, y, dim) == Index(x, 0, dim) + y
  {
    if x > 0 {
      IndexShift(x - 1, y, dim);
    }
  }

  lemma IndexInRange(x: int, y: int, dim: nat)
    requires InBounds(Pos(x, y), dim)
    ensures 0 <= Index(x, y, dim) < Area(dim)
  {
    IndexShift(x, y, dim);
    IndexShift(0, 0, dim);
    if x > 0 {
      IndexRows(0, x, 0, 0, dim);
    }
    if x < dim - 1 {
      IndexRows(x, dim - 1, y, dim, dim);
    } else {
      IndexShift(x, dim, dim);
    }
  }

  /** Different in-range coordinates have different indices. */
  lemma IndexInjective(x: int, y: int, x': int, y': int, dim: nat)
    requires InBounds(Pos(x, y), dim) && InBounds(Pos(x', y'), dim)
    requires Index(x, y, dim) == Index(x', y', dim)
    ensures x == x' && y == y'
  {
    if x < x' {
      IndexRows(x, x', y, y', dim);
    } else if x' < x {
      IndexRows(x', x, y', y, dim);
    } else {
      IndexShift(x, y, dim);
      IndexShift(x, y', dim);
    }
  }

  /** The cell of a flat index: row k / dim, column k % dim, counted off a
      row at a time like `Index`. */
  function PosOf(k: nat, dim: nat): Pos
    requires dim > 0
  {
    if k < dim then Pos(0, k) else var p := PosOf(k - dim, dim); Pos(p.x + 1, p.y)
  }

  /** `PosOf` inverts `Index` on the flat indices of the grid: flat index
      `k` is cell (k / dim, k % dim). */
  lemma {:induction false} PosOfIndex(k: nat, dim: nat)
    requires dim > 0 && k < Area(dim)
    ensures PosOf(k, dim) == Pos(k / dim, k % dim)
    ensures InBounds(PosOf(k, dim), dim)
    ensures Index(PosOf(k, dim).x, PosOf(k, dim).y, dim) == k
  {
    if k < dim {
      DivModUnique(k, dim, 0, k);
    } else {
      PosOfIndex(k - dim, dim);
      var p := PosOf(k - dim, dim);
      DivModUnique(k - dim, dim, p.x, p.y);
      DivModUnique(k, dim, p.x + 1, p.y);
      if p.x + 1 >= dim {
        IndexShift(dim - 1, p.y, dim);
        IndexShift(dim - 1, dim, dim);
        assert false;
      }
    }
  }

  /** Euclidean division has one quotient and one remainder. */
  lemma DivModUnique(k: int, dim: int, q: int, r: int)
    requires dim > 0 && 0 <= r < dim && k == q * dim + r
    ensures k / dim == q && k % dim == r
  {
    var q0, r0 := k / dim, k % dim;
    assert k == q0 * dim + r0;
    if q0 < q {
      MulGap(q0, q, dim);
      assert false;
    } else if q < q0 {
      MulGap(q, q0, dim);
      assert false;
    }
  }

  /** Multiples of `dim` with different factors lie at least `dim` apart. */
  lemma {:induction false} MulGap(a: int, b: int, dim: int)
    requires a < b && dim > 0
    ensures a * dim + dim <= b * dim
    decreases b - a
  {
    if a + 1 < b {
      MulGap(a + 1, b, dim);
    }
    assert (a + 1) * dim == a * dim + dim;
  }

  /** Direction rank of a 4-neighbour: N, E, S, W. */
  function Dir4(p: Pos, n: Pos): nat
  {
    if n.x == p.x - 1 then 0 else if n.y == p.y + 1 then 1 else if n.x == p.x + 1 then 2 else 3
  }

  /** `get_neighbors` on coordinates: the in-bounds cells N, E, S, W of `p`. */
  function Neighbors4(p: Pos, dim: int): (r: seq<Pos>)
    ensures |r| <= 4 && p !in r
    ensures forall n :: n in r ==> Manhattan(p, n) == 1
    ensures forall i, j :: 0 <= i < j < |r| ==> r[i] != r[j]
    ensures forall i, j :: 0 <= i < j < |r| ==> Dir4(p, r[i]) < Dir4(p, r[j])
    ensures InBounds(p, dim) ==> forall n :: n in r <==> InBounds(n, dim) && Manhattan(p, n) == 1
  {
    (if p.x - 1 >= 0 then [Pos(p.x - 1, p.y)] else [])
    + (if p.y + 1 < dim then [Pos(p.x, p.y + 1)] else [])
    + (if p.x + 1 < dim then [Pos(p.x + 1, p.y)] else [])
    + (if p.y - 1 >= 0 then [Pos(p.x, p.y - 1)] else [])
  }

  /** The in-bounds diagonal neighbours NW, NE, SW, SE of `p`. */
  function Diagonals(p: Pos, dim: int): (r: seq<Pos>)
    ensures |r| <= 4
    ensures forall n :: n in r ==> Abs(n.x - p.x) == 1 && Abs(n.y - p.y) == 1
    ensures forall i, j :: 0 <= i < j < |r| ==> r[i] != r[j]
    ensures InBounds(p, dim) ==> forall n :: n in r <==>
              InBounds(n, dim) && Abs(n.x - p.x) == 1 && Abs(n.y - p.y) == 1
  {
    (if p.x - 1 >= 0 && p.y - 1 >= 0 then [Pos(p.x - 1, p.y - 1)] else [])
    + (if p.x - 1 >= 0 && p.y + 1 < dim then [Pos(p.x - 1, p.y + 1)] else [])
    + (if p.x + 1 < dim && p.y - 1 >= 0 then [Pos(p.x + 1, p.y - 1)] else [])
    + (if p.x + 1 < dim && p.y + 1 < dim then [Pos(p.x + 1, p.y + 1)] else [])
  }

  /** `get_all_neighbors` on coordinates: the 4-neighbours, then the diagonals. */
  function Neighbors8(p: Pos, dim: int): (r: seq<Pos>)
    ensures |r| <= 8 && p !in r
    ensures |Neighbors4(p, dim)| <= |r| && r[..|Neighbors4(p, dim)|] == Neighbors4(p, dim)
    ensures forall i, j :: 0 <= i < j < |r| ==> r[i] != r[j]
    ensures InBounds(p, dim) ==> forall n :: n in r <==> InBounds(n, dim) && Chebyshev(p, n) == 1
  {
    var four, diag := Neighbors4(p, dim), Diagonals(p, dim);
    var r := four + diag;
    assert forall i, j :: 0 <= i < |four| && 0 <= j < |diag| ==> four[i] != diag[j] by {
      forall i, j | 0 <= i < |four| && 0 <= j < |diag| ensures four[i] != diag[j] {
        assert four[i] in four && diag[j] in diag;
      }
    }
    assert forall i, j :: 0 <= i < j < |r| ==> r[i] != r[j];
    assert InBounds(p, dim) ==> forall n :: n in r <==> InBounds(n, dim) && Chebyshev(p, n) == 1 by {
      if InBounds(p, dim) {
        forall n ensures n in r <==> InBounds(n, dim) && Chebyshev(p, n) == 1 {
          Neighbors8Member(p, dim, n);
        }
      }
    }
    r
  }

  /** The cells at Chebyshev distance 1 are the 4-neighbours and the diagonals. */
  lemma ChebyshevOne(p: Pos, n: Pos)
    ensures Chebyshev(p, n) == 1 <==>
              Manhattan(p, n) == 1 || (Abs(n.x - p.x) == 1 && Abs(n.y - p.y) == 1)
  {
  }

  lemma Neighbors8Member(p: Pos, dim: int, n: Pos)
    requires InBounds(p, dim)
    ensures n in Neighbors4(p, dim) + Diagonals(p, dim) <==> InBounds(n, dim) && Chebyshev(p, n) == 1
  {
    ChebyshevOne(p, n);
    assert n in Neighbors4(p, dim) + Diagonals(p, dim) <==> n in Neighbors4(p, dim) || n in Diagonals(p, dim);
  }

  datatype GridError = XOutOfRange | YOutOfRange | MissingDensity

  /** The guard of the grid constructor: a maze needs a density. */
  function CheckArgs(isMaze: bool, density: Option<real>): (r: Result<(), GridError>)
    ensures r.Failure? <==> isMaze && density.None?
    ensures r.Failure? ==> r.error == MissingDensity
  {
    if isMaze && density == None then Failure(MissingDensity) else Success(())
  }

  /** A dim-by-dim grid of cells; `target` names the Target cell of a maze. */
  class GridWorld {
    const dim: nat
    const isMaze: bool
    var target: Option<Pos>
    const cells: array2<Cell>

    /** Every cell sits at its own coordinates. */
    ghost predicate Valid()
      reads cells
    {
      cells.Length0 == dim && cells.Length1 == dim &&
      forall i, j :: 0 <= i < dim && 0 <= j < dim ==> cells[i, j].x == i && cells[i, j].y == j
    }

    /** What the maze generator guarantees: (0, 0) is open, a blocked cell has
        blocked terrain, an open cell a surface terrain, and exactly one cell,
        the one `target` names, is the Target. */
    ghost predicate IsMaze()
      reads this, cells
    {
      Valid() && dim >= 1 && target.Some? && InBounds(target.value, dim) &&
      !cells[0, 0].IsBlocked() &&
      (forall i, j :: 0 <= i < dim && 0 <= j < dim ==>
         (cells[i, j].status == Target <==> Pos(i, j) == target.value)) &&
      (forall i, j :: 0 <= i < dim && 0 <= j < dim ==>
         (cells[i, j].status == Empty || cells[i, j].status == Blocked || cells[i, j].status == Target) &&
         (cells[i, j].IsBlocked() <==> cells[i, j].terrain == Some(BlockedTerrain)) &&
         (!cells[i, j].IsBlocked() ==> cells[i, j].terrain.Some? && cells[i, j].terrain.value.IsSurface()))
    }

    /** `GridWorld(dim, False)`: the knowledge grid, built by `create_knowledge`. */
    constructor Knowledge(dim: nat)
      ensures this.dim == dim && !isMaze && target == None && fresh(cells)
      ensures Valid()
      ensures forall i, j :: 0 <= i < dim && 0 <= j < dim ==>
                cells[i, j].IsUnconfirmed() && cells[i, j].terrain == Some(Unknown) &&
                !cells[i, j].visited && cells[i, j].parent == None &&
                cells[i, j].g == 0 && cells[i, j].h == 0 && cells[i, j].f == 0
    {
      var grid := new Cell[dim, dim]((x, y) => NewCell(None, x, y, Unconfirmed));
      var row := 0;
      while row < dim
        invariant 0 <= row <= dim
        invariant forall i, j :: 0 <= i < dim && 0 <= j < dim ==>
                    grid[i, j] == NewCell(None, i, j, Unconfirmed).(terrain := if i < row then Some(Unknown) else None)
      {
        var col := 0;
        while col < dim
          invariant 0 <= col <= dim
          invariant forall i, j :: 0 <= i < dim && 0 <= j < dim ==>
                      grid[i, j] == NewCell(None, i, j, Unconfirmed).(terrain :=
                        if i < row || (i == row && j < col) then Some(Unknown) else None)
        {
          grid[row, col] := grid[row, col].(terrain := Some(Unknown));
          col := col + 1;
        }
        row := row + 1;
      }
      this.dim := dim;
      isMaze := false;
      target := None;
      cells := grid;
    }

    /** `get_cell`: the cell at (x, y), or the error raised for a bad coordinate. */
    function GetCell(x: int, y: int): (r: Result<Cell, GridError>)
      reads cells
      requires Valid()
      ensures r.Success? <==> InBounds(Pos(x, y), dim)
      ensures r.Success? ==> r.value == cells[x, y] && r.value.At() == Pos(x, y)
      ensures !(0 <= x < dim) ==> r == Failure(XOutOfRange)
      ensures 0 <= x < dim && !(0 <= y < dim) ==> r == Failure(YOutOfRange)
    {
      if !(0 <= x < dim) then Failure(XOutOfRange)
      else if !(0 <= y < dim) then Failure(YOutOfRange)
      else Success(cells[x, y])
    }

    /** `get_neighbors`: the cells N, E, S, W of a cell of this grid. */
    function GetNeighbors(c: Cell): (r: seq<Cell>)
      reads cells
      requires Valid() && InBounds(c.At(), dim)
      ensures |r| == |Neighbors4(c.At(), dim)| <= 4
      ensures forall k :: 0 <= k < |r| ==>
                r[k].At() == Neighbors4(c.At(), dim)[k] && InBounds(r[k].At(), dim) &&
                Manhattan(c.At(), r[k].At()) == 1 && r[k] == cells[r[k].x, r[k].y]
    {
      var ns := Neighbors4(c.At(), dim);
      assert forall k :: 0 <= k < |ns| ==> ns[k] in ns;
      seq(|ns|, k requires 0 <= k < |ns| reads cells => cells[ns[k].x, ns[k].y])
    }

    /** `get_all_neighbors`: the cells of the 8-neighbourhood, 4-neighbours first. */
    function GetAllNeighbors(c: Cell): (r: seq<Cell>)
      reads cells
      requires Valid() && InBounds(c.At(), dim)
      ensures |r| == |Neighbors8(c.At(), dim)| <= 8
      ensures forall k :: 0 <= k < |r| ==>
                r[k].At() == Neighbors8(c.At(), dim)[k] && InBounds(r[k].At(), dim) &&
                Chebyshev(c.At(), r[k].At()) == 1 && r[k] == cells[r[k].x, r[k].y]
    {
      var ns := Neighbors8(c.At(), dim);
      assert forall k :: 0 <= k < |ns| ==> ns[k] in ns;
      seq(|ns|, k requires 0 <= k < |ns| reads cells => cells[ns[k].x, ns[k].y])
    }

    /** `set_status` on the cell at (x, y). */
    method SetStatus(x: int, y: int, s: Status)
      requires Valid() && InBounds(Pos(x, y), dim)
      modifies cells
      ensures Valid()
      ensures cells[x, y] == old(cells[x, y]).(status := s)
      ensures forall i, j :: 0 <= i < dim && 0 <= j < dim && (i != x || j != y) ==>
                cells[i, j] == old(cells[i, j])
    {
      cells[x, y] := cells[x, y].(status := s);
    }

    /** `set_terrain_type` on the cell at (x, y). */
    method SetTerrain(x: int, y: int, t: Terrain)
      requires Valid() && InBounds(Pos(x, y), dim)
      modifies cells
      ensures Valid()
      ensures cells[x, y] == old(cells[x, y]).(terrain := Some(t))
      ensures forall i, j :: 0 <= i < dim && 0 <= j < dim && (i != x || j != y) ==>
                cells[i, j] == old(cells[i, j])
    {
      cells[x, y] := cells[x, y].(terrain := Some(t));
    }

    /** `isVisited = True` on the cell at (x, y). */
    method MarkVisited(x: int, y: int)
      requires Valid() && InBounds(Pos(x, y), dim)
      modifies cells
      ensures Valid()
      ensures cells[x, y] == old(cells[x, y]).(visited := true)
      ensures forall i, j :: 0 <= i < dim && 0 <= j < dim && (i != x || j != y) ==>
                cells[i, j] == old(cells[i, j])
    {
      cells[x, y] := cells[x, y].(visited := true);
    }

    /** `set_target`. */
    method SetTarget(t: Pos)
      modifies this
      ensures target == Some(t)
    {
      target := Some(t);
    }
  }
}
