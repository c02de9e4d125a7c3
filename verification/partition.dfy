/** The master's partitioning: launch validation, the block grid (xdim x ydim),
    the block shape (rows x columns) and every worker's four neighbours. */
module Partition {
  import opened Primality
  import opened Layout

  /** Problem size and step count the program is built with (NXPROB, NYPROB, STEPS). */
  const NXPROB: nat := 256
  const NYPROB: nat := 320
  const STEPS: nat := 100

  /** floor(sqrt(n)). The source truncates the double `sqrt(numworkers) + 1` to
      an int; for worker counts an int can hold, that is ISqrt(n) + 1. */
  function ISqrt(n: nat): (r: nat)
    ensures r * r <= n < (r + 1) * (r + 1)
  {
    if n == 0 then 0
    else
      var s := ISqrt(n - 1);
      if (s + 1) * (s + 1) <= n then s + 1 else s
  }

  /** Squaring is monotone on naturals. */
  lemma SquareMonotone(a: int, b: int)
    requires 0 <= a && 0 <= b
    ensures a <= b ==> a * a <= b * b
  {
    if a <= b {
      assert a * a <= a * b <= b * b;
    }
  }

  /** The downward scan `for (x = start; x >= 1; x--) if (w % x == 0) break;`:
      the first divisor of w met counting down from x. */
  function ScanDivisor(w: nat, x: nat): (d: nat)
    requires w >= 1 && x >= 1
    ensures 1 <= d <= x && Divides(d, w)
    ensures forall y :: d < y <= x ==> !Divides(y, w)
    decreases x
  {
    if w % x == 0 then x else ScanDivisor(w, x - 1)
  }

  /** d is the largest divisor of w that does not exceed bound. */
  predicate LargestDivisorUpTo(w: nat, bound: nat, d: nat) {
    1 <= d <= bound && Divides(d, w) && forall y :: d < y <= bound ==> !Divides(y, w)
  }

  /** The shape of the worker grid: xdim block-rows by ydim block-columns. */
  datatype BlockGrid = BlockGrid(xdim: nat, ydim: nat)

  /** Factor-pair search of lines 120-133: x is the largest divisor of w not above
      floor(sqrt(w)) + 1, (xdim, ydim) = (x, w / x), swapped when the field is
      wider than tall (ny > nx) and ydim < xdim. */
  function FactorPair(w: nat, nx: int, ny: int): (g: BlockGrid)
    requires w >= 1
    ensures g.xdim * g.ydim == w && g.xdim >= 1 && g.ydim >= 1
    ensures ny > nx ==> g.xdim <= g.ydim
    ensures LargestDivisorUpTo(w, ISqrt(w) + 1, g.xdim) || LargestDivisorUpTo(w, ISqrt(w) + 1, g.ydim)
    ensures ny <= nx ==> LargestDivisorUpTo(w, ISqrt(w) + 1, g.xdim)
  {
    var x := ScanDivisor(w, ISqrt(w) + 1);
    var y := w / x;
    DivisorQuotient(x, w);
    if ny > nx && y < x then BlockGrid(y, x) else BlockGrid(x, y)
  }

  /** Dividing w by one of its divisors gives the cofactor. */
  lemma DivisorQuotient(d: int, w: nat)
    requires w >= 1 && Divides(d, w)
    ensures d * (w / d) == w && w / d >= 1
  {
    var q := Cofactor(d, w);
    CellOfOffset(q, 0, d);
  }

  /** For a composite worker count both sides of the block grid are at least 2. */
  lemma CompositeFactorPair(w: nat, nx: int, ny: int)
    requires w >= 2 && !Prime(w)
    ensures FactorPair(w, nx, ny).xdim >= 2 && FactorPair(w, nx, ny).ydim >= 2
  {
    var s := ISqrt(w);
    var x := ScanDivisor(w, s + 1);
    var d :| 2 <= d < w && Divides(d, w);
    var e := DivisorBelowSqrt(w, d);
    assert x >= 2;
    SqrtPlusOneBelow(w, d);
    var y := Cofactor(x, w);
    assert w / x == y by {
      CellOfOffset(y, 0, x);
    }
    QuotientAtLeastTwo(x, y);
  }

  /** The cofactor of a divisor. */
  lemma Cofactor(d: int, w: nat) returns (q: int)
    requires w >= 1 && Divides(d, w)
    ensures d * q == w && q >= 1
  {
    var c := CellOf(w, d);
    q := c.0;
    assert w == q * d;
    MulSign(q, d);
  }

  /** A number with a proper divisor has one between 2 and its square root. */
  lemma DivisorBelowSqrt(w: nat, d: int) returns (e: int)
    requires 2 <= d < w && Divides(d, w)
    ensures 2 <= e <= ISqrt(w) && Divides(e, w)
  {
    var q := Cofactor(d, w);
    QuotientAtLeastTwo(d, q);
    DividesProduct(q, d);
    e := if d <= q then d else q;
    SquareAtMostProduct(d, q);
    SquareMonotone(ISqrt(w) + 1, e);
  }

  /** The smaller of two factors squared is at most their product. */
  lemma SquareAtMostProduct(d: int, q: int)
    requires d >= 0 && q >= 0
    ensures var e := if d <= q then d else q; e * e <= d * q
  {
    if d <= q {
      assert d * d <= d * q;
    } else {
      assert q * q <= q * d;
    }
  }

  /** The scan starts below w once w has a proper divisor (so w >= 4). */
  lemma SqrtPlusOneBelow(w: nat, d: int)
    requires 2 <= d < w && Divides(d, w)
    ensures ISqrt(w) + 1 < w
  {
    var s := ISqrt(w);
    var q := Cofactor(d, w);
    QuotientAtLeastTwo(d, q);
    MulLe(q, 2, d);
    assert w >= 4;
    if s >= 2 {
      MulLe(s, 2, s);
      assert s * 2 <= s * s <= w;
    }
  }

  /** Block shape of lines 138-139: rows = NX / xdim, columns = NY / ydim. The
      remainder rows and columns are dropped. */
  function BlockRows(nx: nat, g: BlockGrid): (rows: nat)
    requires g.xdim >= 1
    ensures g.xdim * rows <= nx < g.xdim * (rows + 1)
  {
    nx / g.xdim
  }

  /** See BlockRows; the same truncation across the columns. */
  function BlockColumns(ny: nat, g: BlockGrid): (columns: nat)
    requires g.ydim >= 1
    ensures g.ydim * columns <= ny < g.ydim * (columns + 1)
  {
    ny / g.ydim
  }

  /** A neighbour slot: MPI_PROC_NULL or a worker rank. */
  datatype Rank = NoProc | Proc(id: nat)

  /** The four neighbours a worker exchanges halos with. */
  datatype Neighbors = Neighbors(left: Rank, right: Rank, up: Rank, down: Rank)

  /** The neighbours the master computes for worker i (lines 146-164). */
  function WorkerNeighbors(i: nat, g: BlockGrid): Neighbors
    requires g.ydim >= 1
  {
    Neighbors(
      left := if i % g.ydim == 0 then NoProc else Proc(i - 1),
      right := if i % g.ydim == g.ydim - 1 then NoProc else Proc(i + 1),
      up := if i < g.ydim then NoProc else Proc(i - g.ydim),
      down := if i >= (g.xdim - 1) * g.ydim then NoProc else Proc(i + g.ydim))
  }

  /** The master's own neighbours, hard-coded at lines 179-186. */
  function MasterNeighbors(w: nat, g: BlockGrid): (nb: Neighbors)
    ensures nb.left == NoProc && nb.up == NoProc
  {
    if w == 1 then Neighbors(NoProc, NoProc, NoProc, NoProc)
    else Neighbors(NoProc, Proc(1), NoProc, Proc(g.ydim))
  }

  /** Every worker's neighbours: the master's hard-coded set at index 0, the
      general rule elsewhere. */
  function NeighborTable(w: nat, g: BlockGrid): (t: seq<Neighbors>)
    requires g.ydim >= 1
    ensures |t| == w
  {
    seq(w, i requires 0 <= i < w => if i == 0 then MasterNeighbors(w, g) else WorkerNeighbors(i, g))
  }

  /** Block-grid position (row, column) of worker i in row-major numbering. */
  function Position(i: int, g: BlockGrid): (int, int)
    requires g.ydim >= 1
  {
    CellOf(i, g.ydim)
  }

  /** Reference rule for one side: the worker at the given block-grid position,
      or none when the position lies outside the grid (no wrap-around). */
  predicate AdjacentRank(r: Rank, g: BlockGrid, row: int, col: int) {
    if 0 <= row < g.xdim && 0 <= col < g.ydim then r == Proc(Offset(row, col, g.ydim)) else r == NoProc
  }

  /** Reference rule for a non-periodic Cartesian worker grid: each neighbour is
      the worker one step away on that side, or none on the grid's border. */
  predicate CartesianNeighbors(nb: Neighbors, i: int, g: BlockGrid)
    requires g.ydim >= 1
  {
    var (row, col) := Position(i, g);
    && AdjacentRank(nb.left, g, row, col - 1)
    && AdjacentRank(nb.right, g, row, col + 1)
    && AdjacentRank(nb.up, g, row - 1, col)
    && AdjacentRank(nb.down, g, row + 1, col)
  }

  /** The master's index comparisons implement the Cartesian rule. */
  lemma WorkerNeighborsCartesian(i: nat, g: BlockGrid)
    requires g.ydim >= 1 && i < g.xdim * g.ydim
    ensures CartesianNeighbors(WorkerNeighbors(i, g), i, g)
  {
    var m := g.ydim;
    var (row, col) := Position(i, g);
    assert i == row * m + col;
    // row lies in 0 .. xdim-1
    MulSign(row, m);
    MulSign(g.xdim - row, m);
    assert 0 <= row < g.xdim;
    // i < ydim exactly on block-row 0
    MulSign(row - 1, m);
    assert i < m <==> row == 0;
    // i >= (xdim-1)*ydim exactly on the last block-row
    MulSign(row - (g.xdim - 1), m);
    assert (row - (g.xdim - 1)) * m == row * m - (g.xdim - 1) * m;
    assert i >= (g.xdim - 1) * m <==> row == g.xdim - 1;
    // the ranks on each side have the expected flat offsets
    assert i - 1 == Offset(row, col - 1, m);
    assert i + 1 == Offset(row, col + 1, m);
    assert i - m == Offset(row - 1, col, m);
    assert i + m == Offset(row + 1, col, m);
  }

  /** Every present neighbour is a valid rank and the neighbours are pairwise
      distinct. */
  lemma NeighborsInRangeAndDistinct(i: nat, g: BlockGrid)
    requires g.ydim >= 1 && i < g.xdim * g.ydim
    ensures var nb := WorkerNeighbors(i, g);
      forall r :: r in [nb.left, nb.right, nb.up, nb.down] && r.Proc? ==> r.id < g.xdim * g.ydim
    ensures var nb := WorkerNeighbors(i, g);
      && (nb.left.Proc? ==> nb.left != nb.right && nb.left != nb.up && nb.left != nb.down)
      && (nb.right.Proc? ==> nb.right != nb.up && nb.right != nb.down)
      && (nb.up.Proc? ==> nb.up != nb.down)
  {
    WorkerNeighborsCartesian(i, g);
    var m := g.ydim;
    var (row, col) := Position(i, g);
    var nb := WorkerNeighbors(i, g);
    forall r | r in [nb.left, nb.right, nb.up, nb.down] && r.Proc?
      ensures r.id < g.xdim * m
    {
      var c := Position(r.id, g);
      OffsetRankInRange(r, g, row, col);
    }
    DistinctPositions(g, row, col - 1, row, col + 1);
    DistinctPositions(g, row, col - 1, row - 1, col);
    DistinctPositions(g, row, col - 1, row + 1, col);
    DistinctPositions(g, row, col + 1, row - 1, col);
    DistinctPositions(g, row, col + 1, row + 1, col);
    DistinctPositions(g, row - 1, col, row + 1, col);
  }

  /** A rank chosen by the Cartesian rule around (row, col) is in range. */
  lemma OffsetRankInRange(r: Rank, g: BlockGrid, row: int, col: int)
    requires g.ydim >= 1 && r.Proc?
    requires || AdjacentRank(r, g, row, col - 1) || AdjacentRank(r, g, row, col + 1)
             || AdjacentRank(r, g, row - 1, col) || AdjacentRank(r, g, row + 1, col)
    ensures r.id < g.xdim * g.ydim
  {
    var m := g.ydim;
    if AdjacentRank(r, g, row, col - 1) {
      OffsetInRange(row, col - 1, g.xdim, m);
    } else if AdjacentRank(r, g, row, col + 1) {
      OffsetInRange(row, col + 1, g.xdim, m);
    } else if AdjacentRank(r, g, row - 1, col) {
      OffsetInRange(row - 1, col, g.xdim, m);
    } else {
      OffsetInRange(row + 1, col, g.xdim, m);
    }
  }

  /** Two different block-grid positions never name the same present rank. */
  lemma DistinctPositions(g: BlockGrid, r1: int, c1: int, r2: int, c2: int)
    requires g.ydim >= 1 && (r1, c1) != (r2, c2)
    ensures forall a, b :: AdjacentRank(a, g, r1, c1) && AdjacentRank(b, g, r2, c2) && a.Proc? ==> a != b
  {
    forall a, b | AdjacentRank(a, g, r1, c1) && AdjacentRank(b, g, r2, c2) && a.Proc?
      ensures a != b
    {
      if b.Proc? && 0 <= c1 < g.ydim && 0 <= c2 < g.ydim {
        if Offset(r1, c1, g.ydim) == Offset(r2, c2, g.ydim) {
          OffsetInjective(r1, c1, r2, c2, g.ydim);
        }
      }
    }
  }

  /** The relation is symmetric: j is i's right neighbour exactly when i is j's
      left neighbour. */
  lemma RightLeftSymmetric(i: nat, j: nat, g: BlockGrid)
    requires g.ydim >= 1 && i < g.xdim * g.ydim && j < g.xdim * g.ydim
    ensures WorkerNeighbors(i, g).right == Proc(j) <==> WorkerNeighbors(j, g).left == Proc(i)
  {
    WorkerNeighborsCartesian(i, g);
    WorkerNeighborsCartesian(j, g);
    var m := g.ydim;
    var (ri, ci) := Position(i, g);
    var (rj, cj) := Position(j, g);
    if WorkerNeighbors(i, g).right == Proc(j) {
      OffsetInjective(ri, ci + 1, rj, cj, m);
    }
    if WorkerNeighbors(j, g).left == Proc(i) {
      OffsetInjective(rj, cj - 1, ri, ci, m);
    }
  }

  /** The relation is symmetric: j is below i exactly when i is above j. */
  lemma DownUpSymmetric(i: nat, j: nat, g: BlockGrid)
    requires g.ydim >= 1 && i < g.xdim * g.ydim && j < g.xdim * g.ydim
    ensures WorkerNeighbors(i, g).down == Proc(j) <==> WorkerNeighbors(j, g).up == Proc(i)
  {
    WorkerNeighborsCartesian(i, g);
    WorkerNeighborsCartesian(j, g);
    var m := g.ydim;
    var (ri, ci) := Position(i, g);
    var (rj, cj) := Position(j, g);
    if WorkerNeighbors(i, g).down == Proc(j) {
      OffsetInjective(ri + 1, ci, rj, cj, m);
    }
    if WorkerNeighbors(j, g).up == Proc(i) {
      OffsetInjective(rj - 1, cj, ri, ci, m);
    }
  }

  /** The master's hard-coded neighbours equal the general rule at rank 0 for a
      single worker and whenever both grid sides are at least 2, which covers
      every composite worker count. */
  lemma MasterMatchesRule(w: nat, g: BlockGrid)
    requires g.xdim * g.ydim == w && g.ydim >= 1
    requires w == 1 || (g.xdim >= 2 && g.ydim >= 2)
    ensures MasterNeighbors(w, g) == WorkerNeighbors(0, g)
  {
    if w != 1 {
      assert (g.xdim - 1) * g.ydim >= g.ydim;
    }
  }

  /** With two workers on a tall field the scan gives a 2 x 1 grid, whose rank 1
      lies below the master, yet the hard-coded rule names rank 1 as the
      master's right neighbour; its down neighbour, rank ydim = 1, is the
      rule's. The launch check never lets this through,
      because 2 is prime. */
  lemma MasterRuleDiffersForTwoWorkers()
    ensures FactorPair(2, 2, 1) == BlockGrid(2, 1)
    ensures MasterNeighbors(2, BlockGrid(2, 1)).right != WorkerNeighbors(0, BlockGrid(2, 1)).right
    ensures MasterNeighbors(2, BlockGrid(2, 1)).down == WorkerNeighbors(0, BlockGrid(2, 1)).down
    ensures IsPrime(2)
  {
    assert ISqrt(1) == 1;
    assert ISqrt(2) == 1;
  }

  /** Why the program refuses to start. */
  datatype LaunchError = PrimeWorkerCount | CellsNotDivisible

  /** What the master hands every worker (xdim, ydim, rows, columns). */
  datatype Config = Config(grid: BlockGrid, rows: nat, columns: nat)

  datatype Verdict = Accepted(cfg: Config) | Rejected(error: LaunchError)

  /** Launch validation (lines 90-102) followed by the partition (117-139). The
      worker count comes from MPI_Comm_size and is at least 1. */
  function Launch(w: nat, nx: nat, ny: nat): (l: Verdict)
    requires w >= 1
    ensures l == Rejected(PrimeWorkerCount) <==> Prime(w)
    ensures l == Rejected(CellsNotDivisible) <==> !Prime(w) && (nx * ny) % w != 0
    ensures l.Accepted? ==>
      var c := l.cfg;
      && c.grid == FactorPair(w, nx, ny)
      && c.grid.xdim * c.grid.ydim == w
      && (w == 1 || (c.grid.xdim >= 2 && c.grid.ydim >= 2))
      && (ny > nx ==> c.grid.xdim <= c.grid.ydim)
      && c.grid.xdim * c.rows <= nx < c.grid.xdim * (c.rows + 1)
      && c.grid.ydim * c.columns <= ny < c.grid.ydim * (c.columns + 1)
  {
    if IsPrime(w) then Rejected(PrimeWorkerCount)
    else if (nx * ny) % w != 0 then Rejected(CellsNotDivisible)
    else
      var g := FactorPair(w, nx, ny);
      if w >= 2 then
        CompositeFactorPair(w, nx, ny);
        Accepted(Config(g, BlockRows(nx, g), BlockColumns(ny, g)))
      else
        Accepted(Config(g, BlockRows(nx, g), BlockColumns(ny, g)))
  }

  /** For every accepted launch, each worker's entry in the neighbour table,
      the master's included, follows the Cartesian rule. */
  lemma AcceptedTableCartesian(w: nat, nx: nat, ny: nat)
    requires w >= 1 && Launch(w, nx, ny).Accepted?
    ensures var g := Launch(w, nx, ny).cfg.grid;
      forall i :: 0 <= i < w ==> CartesianNeighbors(NeighborTable(w, g)[i], i, g)
  {
    var g := Launch(w, nx, ny).cfg.grid;
    MasterMatchesRule(w, g);
    forall i | 0 <= i < w
      ensures CartesianNeighbors(NeighborTable(w, g)[i], i, g)
    {
      WorkerNeighborsCartesian(i, g);
    }
  }
}
