/** The time loop (lines 303-357) and its meaning.

    Every worker keeps two haloed blocks, local[0] and local[1]. Step it
    (it = 1 .. STEPS) exchanges the halo of the source buffer
    newiz = (it % 2) * (-1) + 1 and runs both stencil passes from it into the
    other buffer; after the loop, buffer STEPS % 2 is gathered (line 364).

    The reference is the serial heat2D update of the whole NX x NY field:
    every cell off the domain edge gets the five-point update and the edge
    stays fixed. When the blocks tile the field exactly and the table follows
    the Cartesian rule, one parallel step is one serial step. */
module Simulation {
  import opened Layout
  import opened Partition
  import opened Distribute
  import opened Halo
  import opened Stencil
  import opened Primality

  /** newiz of line 304: the buffer step it reads from. */
  function SourceBuffer(it: int): (b: int)
    ensures b == 0 || b == 1
  {
    (it % 2) * (-1) + 1
  }

  /** 1 - newiz: the buffer step it writes (lines 321 and 331). */
  function DestBuffer(it: int): (b: int)
    ensures (b == 0 || b == 1) && b != SourceBuffer(it)
  {
    1 - SourceBuffer(it)
  }

  /** The buffers alternate: each step writes the buffer the next step reads,
      reads the one it did not write, and writes buffer it % 2. The first
      step reads buffer 0, which the scatter filled, and after STEPS steps the
      last buffer written is STEPS % 2, the one gathered. */
  lemma BufferParity(it: int)
    ensures SourceBuffer(it) in {0, 1} && DestBuffer(it) == 1 - SourceBuffer(it)
    ensures DestBuffer(it) == SourceBuffer(it + 1)
    ensures DestBuffer(it) == it % 2
    ensures SourceBuffer(1) == 0 && DestBuffer(STEPS) == STEPS % 2
  {
  }

  /** The serial update of an nx x ny field: the five-point update off the
      domain edge, the edge held fixed. */
  function GlobalStep(p: Parms, f: Grid<real>, nx: nat, ny: nat): (f': Grid<real>)
    requires nx >= 1 && IsGrid(f, nx, ny)
    ensures IsGrid(f', nx, ny)
  {
    seq(nx, gx requires 0 <= gx < nx =>
      seq(ny, gy requires 0 <= gy < ny =>
        if 1 <= gx <= nx - 2 && 1 <= gy <= ny - 2 then Point(p, f, gx, gy) else f[gx][gy]))
  }

  /** n serial steps. */
  function GlobalRun(p: Parms, f: Grid<real>, nx: nat, ny: nat, n: nat): (f': Grid<real>)
    requires nx >= 1 && IsGrid(f, nx, ny)
    ensures IsGrid(f', nx, ny)
  {
    if n == 0 then f else GlobalStep(p, GlobalRun(p, f, nx, ny, n - 1), nx, ny)
  }

  /** Field cell of local cell (x, y) of worker k's block. */
  function FieldCell(k: int, x: int, y: int, g: BlockGrid, rows: nat, columns: nat): (int, int)
    requires g.ydim >= 1
  {
    Global(CellOf(k, g.ydim).0, CellOf(k, g.ydim).1, x, y, rows, columns)
  }

  /** c names a cell of f. */
  predicate InField(c: (int, int), f: Grid<real>) {
    0 <= c.0 < |f| && 0 <= c.1 < |f[c.0]|
  }

  /** c is on the edge of an nx x ny field. */
  predicate OnEdge(c: (int, int), nx: int, ny: int) {
    c.0 == 0 || c.0 == nx - 1 || c.1 == 0 || c.1 == ny - 1
  }

  /** The blocks and the field have the shapes of an exact tiling: W blocks of
      (rows+2) x (columns+2) and a (xdim*rows) x (ydim*columns) field. */
  predicate Tiling(bs: seq<Grid<real>>, f: Grid<real>, g: BlockGrid, rows: nat, columns: nat) {
    && g.xdim >= 1 && g.ydim >= 1 && rows >= 1 && columns >= 1
    && |bs| == g.xdim * g.ydim && Blocks(bs, rows, columns)
    && IsGrid(f, g.xdim * rows, g.ydim * columns)
  }

  /** The owned cells of the blocks hold the field. */
  ghost predicate Holds(bs: seq<Grid<real>>, f: Grid<real>, g: BlockGrid, rows: nat, columns: nat) {
    && Tiling(bs, f, g, rows, columns)
    && forall k, x, y :: 0 <= k < |bs| && Owned(x, y, rows, columns) && InField(FieldCell(k, x, y, g, rows, columns), f) ==>
         bs[k][x][y] == f[FieldCell(k, x, y, g, rows, columns).0][FieldCell(k, x, y, g, rows, columns).1]
  }

  /** The owned cells of the blocks that lie on the domain edge hold the field. */
  ghost predicate EdgesAgree(bs: seq<Grid<real>>, f: Grid<real>, g: BlockGrid, rows: nat, columns: nat) {
    && Tiling(bs, f, g, rows, columns)
    && forall k, x, y ::
         && 0 <= k < |bs| && Owned(x, y, rows, columns) && InField(FieldCell(k, x, y, g, rows, columns), f)
         && OnEdge(FieldCell(k, x, y, g, rows, columns), g.xdim * rows, g.ydim * columns)
         ==> bs[k][x][y] == f[FieldCell(k, x, y, g, rows, columns).0][FieldCell(k, x, y, g, rows, columns).1]
  }

  /** Every owned cell of every block lies in the field, at row
      bi*rows + x - 1 and column bj*columns + y - 1 of block (bi, bj). */
  lemma FieldCellInField(k: int, x: int, y: int, g: BlockGrid, rows: nat, columns: nat)
    requires g.ydim >= 1 && 0 <= k < g.xdim * g.ydim && Owned(x, y, rows, columns)
    ensures 0 <= CellOf(k, g.ydim).0 < g.xdim && 0 <= CellOf(k, g.ydim).1 < g.ydim
    ensures 0 <= FieldCell(k, x, y, g, rows, columns).0 < g.xdim * rows
    ensures 0 <= FieldCell(k, x, y, g, rows, columns).1 < g.ydim * columns
  {
    var (i, j) := CellOf(k, g.ydim);
    BlockCellInField(i, j, x - 1, y - 1, g.xdim, g.ydim, rows, columns, k);
  }

  /** The table follows the Cartesian rule for every worker. */
  predicate CartesianTable(table: seq<Neighbors>, g: BlockGrid)
    requires g.ydim >= 1
  {
    forall k :: 0 <= k < |table| ==> CartesianNeighbors(table[k], k, g)
  }

  /** A Cartesian table names only workers of the grid. */
  lemma CartesianRanksBelow(table: seq<Neighbors>, g: BlockGrid)
    requires g.ydim >= 1 && |table| == g.xdim * g.ydim && CartesianTable(table, g)
    ensures forall k :: 0 <= k < |table| ==> RanksBelow(table[k], |table|)
  {
    forall k | 0 <= k < |table|
      ensures RanksBelow(table[k], |table|)
    {
      AdjacentInRange(table[k], k, g);
    }
  }

  /** A rank the Cartesian rule names is a worker of the grid. */
  lemma AdjacentInRange(nb: Neighbors, k: nat, g: BlockGrid)
    requires g.ydim >= 1 && k < g.xdim * g.ydim && CartesianNeighbors(nb, k, g)
    ensures RanksBelow(nb, g.xdim * g.ydim)
  {
    var (bi, bj) := Position(k, g);
    AdjacentBelow(nb.left, g, bi, bj - 1);
    AdjacentBelow(nb.right, g, bi, bj + 1);
    AdjacentBelow(nb.up, g, bi - 1, bj);
    AdjacentBelow(nb.down, g, bi + 1, bj);
  }

  /** One side of AdjacentInRange. */
  lemma AdjacentBelow(r: Rank, g: BlockGrid, row: int, col: int)
    requires g.ydim >= 1 && AdjacentRank(r, g, row, col)
    ensures r.Proc? ==> r.id < g.xdim * g.ydim
  {
    if 0 <= row < g.xdim && 0 <= col < g.ydim {
      OffsetInRange(row, col, g.xdim, g.ydim);
    }
  }

  /** The worker a Cartesian table names on side d of worker k sits one step
      away on the block grid, and is absent exactly at the grid's border. */
  lemma SideWorker(nb: Neighbors, k: nat, g: BlockGrid, d: Dir)
    requires g.ydim >= 1 && k < g.xdim * g.ydim && CartesianNeighbors(nb, k, g)
    ensures var (bi, bj) := CellOf(k, g.ydim);
      var (ni, nj) := (bi + Step(d).0, bj + Step(d).1);
      && (Side(nb, d).Proc? <==> 0 <= ni < g.xdim && 0 <= nj < g.ydim)
      && (Side(nb, d).Proc? ==> CellOf(Side(nb, d).id, g.ydim) == (ni, nj))
  {
    var (bi, bj) := CellOf(k, g.ydim);
    var (ni, nj) := (bi + Step(d).0, bj + Step(d).1);
    FieldCellInField(k, 1, 1, g, 1, 1);
    if 0 <= ni < g.xdim && 0 <= nj < g.ydim {
      CellOfOffset(ni, nj, g.ydim);
    }
  }

  /** Where block-row bi sits among xdim block-rows of `rows` rows each. */
  lemma BlockRowBounds(bi: int, rows: nat, xdim: nat)
    requires 0 <= bi < xdim && rows >= 1
    ensures 0 <= bi * rows && bi * rows + rows <= xdim * rows
    ensures bi >= 1 ==> bi * rows >= rows
    ensures bi + 1 < xdim ==> bi * rows + rows <= xdim * rows - rows
  {
    MulLe(rows, 0, bi);
    MulLe(rows, bi + 1, xdim);
    if bi >= 1 {
      MulLe(rows, 1, bi);
    }
    if bi + 1 < xdim {
      MulLe(rows, bi + 2, xdim);
    }
  }

  /** One axis of UpdatedIffInterior: line x of block b (of n lines, among
      dim blocks) is off the domain edge exactly when the block edge it lies
      on, if any, faces a neighbour block. */
  lemma AxisInterior(x: int, b: int, n: nat, dim: nat, before: bool, after: bool)
    requires 0 <= b < dim && n >= 1 && 1 <= x <= n
    requires before <==> b >= 1
    requires after <==> b + 1 < dim
    ensures (x == 1 ==> before) && (x == n ==> after) <==> 1 <= b * n + x - 1 <= dim * n - 2
  {
    BlockRowBounds(b, n, dim);
  }

  /** The stencil's update set is the field's interior: under the Cartesian
      rule an owned cell is updated exactly when its field cell is off the
      domain edge. */
  lemma UpdatedIffInterior(nb: Neighbors, k: nat, x: int, y: int, g: BlockGrid, rows: nat, columns: nat)
    requires g.ydim >= 1 && k < g.xdim * g.ydim && CartesianNeighbors(nb, k, g)
    requires rows >= 1 && columns >= 1 && Owned(x, y, rows, columns)
    ensures var (gx, gy) := FieldCell(k, x, y, g, rows, columns);
      Updated(x, y, rows, columns, nb) <==> 1 <= gx <= g.xdim * rows - 2 && 1 <= gy <= g.ydim * columns - 2
  {
    var (bi, bj) := CellOf(k, g.ydim);
    FieldCellInField(k, x, y, g, rows, columns);
    SideWorker(nb, k, g, Left);
    SideWorker(nb, k, g, Right);
    SideWorker(nb, k, g, Up);
    SideWorker(nb, k, g, Down);
    AxisInterior(x, bi, rows, g.xdim, nb.up.Proc?, nb.down.Proc?);
    AxisInterior(y, bj, columns, g.ydim, nb.left.Proc?, nb.right.Proc?);
  }

  /** Cell (x, y) of worker k's block after the exchange, as the cell-by-cell
      reference describes it. */
  lemma ExchangeCell(src: seq<Grid<real>>, table: seq<Neighbors>, rows: nat, columns: nat, k: nat, x: int, y: int)
    requires |table| == |src| && Blocks(src, rows, columns) && k < |src| && InBlock(x, y, rows, columns)
    requires forall i :: 0 <= i < |table| ==> RanksBelow(table[i], |src|)
    ensures Exchange(src, table, rows, columns)[k][x][y] == Exchanged(src, table[k], k, x, y, rows, columns)
  {
    ExchangeBlockSpec(src, table[k], k, rows, columns);
  }

  /** A halo cell facing a worker receives the field value at its own field
      cell: the neighbour's partner cell is the same field cell, and the
      neighbour's owned cells hold the field. */
  lemma HaloHolds(src: seq<Grid<real>>, f: Grid<real>, g: BlockGrid, rows: nat, columns: nat,
                  table: seq<Neighbors>, k: nat, d: Dir, x: int, y: int)
    requires Holds(src, f, g, rows, columns) && |table| == |src| && CartesianTable(table, g)
    requires k < |src| && OnRecv(d, x, y, rows, columns) && Side(table[k], d).Proc?
    ensures forall i :: 0 <= i < |table| ==> RanksBelow(table[i], |src|)
    ensures InField(FieldCell(k, x, y, g, rows, columns), f)
    ensures Exchange(src, table, rows, columns)[k][x][y]
      == f[FieldCell(k, x, y, g, rows, columns).0][FieldCell(k, x, y, g, rows, columns).1]
  {
    CartesianRanksBelow(table, g);
    var n := Side(table[k], d).id;
    var (px, py) := Partner(d, x, y, rows, columns);
    PartnerCell(table[k], k, g, rows, columns, d, x, y);
    ExchangeCell(src, table, rows, columns, k, x, y);
    ExchangedPartner(src, table[k], k, d, x, y, rows, columns);
    assert src[n][px][py] == f[FieldCell(n, px, py, g, rows, columns).0][FieldCell(n, px, py, g, rows, columns).1];
  }

  /** A halo cell on a line facing a worker takes that worker's partner cell:
      the four receive lines do not overlap. */
  lemma ExchangedPartner(bs: seq<Grid<real>>, nb: Neighbors, me: nat, d: Dir, x: int, y: int, rows: nat, columns: nat)
    requires me < |bs| && Blocks(bs, rows, columns) && RanksBelow(nb, |bs|)
    requires OnRecv(d, x, y, rows, columns) && Side(nb, d).Proc?
    ensures InBlock(x, y, rows, columns)
    ensures Exchanged(bs, nb, me, x, y, rows, columns)
      == bs[Side(nb, d).id][Partner(d, x, y, rows, columns).0][Partner(d, x, y, rows, columns).1]
  {
  }

  /** The neighbour on side d owns the partner of halo cell (x, y), and that
      partner is the same field cell. */
  lemma PartnerCell(nb: Neighbors, k: nat, g: BlockGrid, rows: nat, columns: nat, d: Dir, x: int, y: int)
    requires g.ydim >= 1 && k < g.xdim * g.ydim && CartesianNeighbors(nb, k, g) && rows >= 1 && columns >= 1
    requires OnRecv(d, x, y, rows, columns) && Side(nb, d).Proc?
    ensures Side(nb, d).id < g.xdim * g.ydim
    ensures Owned(Partner(d, x, y, rows, columns).0, Partner(d, x, y, rows, columns).1, rows, columns)
    ensures FieldCell(Side(nb, d).id, Partner(d, x, y, rows, columns).0, Partner(d, x, y, rows, columns).1, g, rows, columns)
         == FieldCell(k, x, y, g, rows, columns)
    ensures 0 <= FieldCell(k, x, y, g, rows, columns).0 < g.xdim * rows
    ensures 0 <= FieldCell(k, x, y, g, rows, columns).1 < g.ydim * columns
  {
    var n := Side(nb, d).id;
    var (bi, bj) := CellOf(k, g.ydim);
    AdjacentInRange(nb, k, g);
    SideWorker(nb, k, g, d);
    var i := RecvIndex(d, x, y);
    OnRecvIsRecvCell(d, x, y, rows, columns);
    RecvCellOnRecv(d, i, rows, columns);
    RegionsOnRingAndOwned(Opposite(d), i, rows, columns);
    Alignment(d, i, bi, bj, rows, columns);
    var (px, py) := Partner(d, x, y, rows, columns);
    FieldCellInField(n, px, py, g, rows, columns);
  }

  /** Cells a worker's passes may read after the exchange: its owned cells
      and the halo lines that face a worker. */
  predicate Readable(nb: Neighbors, x: int, y: int, rows: nat, columns: nat) {
    || Owned(x, y, rows, columns)
    || (OnRecv(Left, x, y, rows, columns) && nb.left.Proc?)
    || (OnRecv(Right, x, y, rows, columns) && nb.right.Proc?)
    || (OnRecv(Up, x, y, rows, columns) && nb.up.Proc?)
    || (OnRecv(Down, x, y, rows, columns) && nb.down.Proc?)
  }

  /** Every readable cell of every block holds the field. */
  ghost predicate ReadsField(ex: seq<Grid<real>>, f: Grid<real>, table: seq<Neighbors>, g: BlockGrid, rows: nat, columns: nat) {
    && Tiling(ex, f, g, rows, columns) && |table| == |ex|
    && forall k, x, y :: 0 <= k < |ex| && Readable(table[k], x, y, rows, columns) && InField(FieldCell(k, x, y, g, rows, columns), f) ==>
         ex[k][x][y] == f[FieldCell(k, x, y, g, rows, columns).0][FieldCell(k, x, y, g, rows, columns).1]
  }

  /** After the exchange every cell the passes read holds the field: owned
      cells keep it, and a halo line facing a worker gets that worker's copy. */
  lemma ExchangeReadsField(src: seq<Grid<real>>, f: Grid<real>, g: BlockGrid, rows: nat, columns: nat, table: seq<Neighbors>)
    requires Holds(src, f, g, rows, columns) && |table| == |src| && CartesianTable(table, g)
    ensures forall i :: 0 <= i < |table| ==> RanksBelow(table[i], |src|)
    ensures ReadsField(Exchange(src, table, rows, columns), f, table, g, rows, columns)
  {
    CartesianRanksBelow(table, g);
    var ex := Exchange(src, table, rows, columns);
    ExchangeKeepsOwned(src, table, rows, columns);
    forall k, x, y | 0 <= k < |ex| && Readable(table[k], x, y, rows, columns) && InField(FieldCell(k, x, y, g, rows, columns), f)
      ensures ex[k][x][y] == f[FieldCell(k, x, y, g, rows, columns).0][FieldCell(k, x, y, g, rows, columns).1]
    {
      if Owned(x, y, rows, columns) {
      } else if OnRecv(Left, x, y, rows, columns) && table[k].left.Proc? {
        HaloHolds(src, f, g, rows, columns, table, k, Left, x, y);
      } else if OnRecv(Right, x, y, rows, columns) && table[k].right.Proc? {
        HaloHolds(src, f, g, rows, columns, table, k, Right, x, y);
      } else if OnRecv(Up, x, y, rows, columns) && table[k].up.Proc? {
        HaloHolds(src, f, g, rows, columns, table, k, Up, x, y);
      } else {
        HaloHolds(src, f, g, rows, columns, table, k, Down, x, y);
      }
    }
  }

  /** At an updated cell the block's five-point update is the field's
      five-point update at the matching field cell, once the cells the
      passes read hold the field. */
  lemma PointHolds(p: Parms, ex: seq<Grid<real>>, f: Grid<real>, g: BlockGrid, rows: nat, columns: nat,
                   table: seq<Neighbors>, k: nat, x: int, y: int)
    requires ReadsField(ex, f, table, g, rows, columns) && CartesianTable(table, g) && k < |ex|
    requires Updated(x, y, rows, columns, table[k])
    ensures var (gx, gy) := FieldCell(k, x, y, g, rows, columns);
      && 1 <= gx < |f| - 1 && 1 <= gy < |f[0]| - 1
      && Point(p, ex[k], x, y) == Point(p, f, gx, gy)
  {
    var (gx, gy) := FieldCell(k, x, y, g, rows, columns);
    UpdatedIffInterior(table[k], k, x, y, g, rows, columns);
    NeighborHolds(ex, f, g, rows, columns, table, k, x, y, 0, 0);
    NeighborHolds(ex, f, g, rows, columns, table, k, x, y, -1, 0);
    NeighborHolds(ex, f, g, rows, columns, table, k, x, y, 1, 0);
    NeighborHolds(ex, f, g, rows, columns, table, k, x, y, 0, -1);
    NeighborHolds(ex, f, g, rows, columns, table, k, x, y, 0, 1);
    PointCongruent(p, ex[k], x, y, f, gx, gy);
  }

  /** A cell the update of an updated cell reads, dx rows and dy columns away,
      holds the field's value at the matching field cell. */
  lemma NeighborHolds(ex: seq<Grid<real>>, f: Grid<real>, g: BlockGrid, rows: nat, columns: nat,
                      table: seq<Neighbors>, k: nat, x: int, y: int, dx: int, dy: int)
    requires ReadsField(ex, f, table, g, rows, columns) && CartesianTable(table, g) && k < |ex|
    requires Updated(x, y, rows, columns, table[k]) && -1 <= dx <= 1 && -1 <= dy <= 1 && dx * dy == 0
    ensures var (gx, gy) := FieldCell(k, x, y, g, rows, columns);
      && 0 <= gx + dx < |f| && 0 <= gy + dy < |f[gx + dx]|
      && ex[k][x + dx][y + dy] == f[gx + dx][gy + dy]
  {
    var (gx, gy) := FieldCell(k, x, y, g, rows, columns);
    UpdatedIffInterior(table[k], k, x, y, g, rows, columns);
    assert Readable(table[k], x + dx, y + dy, rows, columns);
    assert FieldCell(k, x + dx, y + dy, g, rows, columns) == (gx + dx, gy + dy);
  }

  /** Block sizes for which every worker's passes are sound (Stencil.Sized)
      on an xdim x ydim block grid: at least 2 x 2, and a block only two rows
      (columns) deep needs a second block-row (block-column). */
  predicate SoundSize(g: BlockGrid, rows: nat, columns: nat) {
    && rows >= 2 && columns >= 2
    && (rows >= 3 || g.xdim >= 2)
    && (columns >= 3 || g.ydim >= 2)
  }

  /** Under the Cartesian rule a sound size makes every worker's passes sound. */
  lemma SoundSizeSized(nb: Neighbors, k: nat, g: BlockGrid, rows: nat, columns: nat)
    requires g.ydim >= 1 && k < g.xdim * g.ydim && CartesianNeighbors(nb, k, g)
    requires SoundSize(g, rows, columns)
    ensures Sized(rows, columns, nb)
  {
    var (bi, bj) := CellOf(k, g.ydim);
    FieldCellInField(k, 1, 1, g, 1, 1);
    if rows < 3 {
      if bi >= 1 { assert nb.up.Proc?; } else { assert nb.down.Proc?; }
    }
    if columns < 3 {
      if bj >= 1 { assert nb.left.Proc?; } else { assert nb.right.Proc?; }
    }
  }

  /** Both passes of every worker, from its current block into its next block. */
  function ParallelStep(p: Parms, cur: seq<Grid<real>>, next: seq<Grid<real>>, table: seq<Neighbors>,
                        g: BlockGrid, rows: nat, columns: nat): (next': seq<Grid<real>>)
    requires g.ydim >= 1 && |cur| == |next| == |table| == g.xdim * g.ydim && CartesianTable(table, g)
    requires SoundSize(g, rows, columns) && Blocks(cur, rows, columns) && Blocks(next, rows, columns)
    ensures |next'| == |cur| && Blocks(next', rows, columns)
  {
    seq(|cur|, k requires 0 <= k < |cur| =>
      SoundSizeSized(table[k], k, g, rows, columns);
      StencilStep(p, cur[k], next[k], rows, columns, table[k]))
  }

  /** One owned cell of one time step: once the cells the passes read hold
      the field, the passes leave in the destination buffer the serial
      step's value of the matching field cell. Off the domain edge that is
      the five-point update; on it, the fixed value the destination already
      held. */
  lemma CellStepHolds(p: Parms, ex: seq<Grid<real>>, dst: seq<Grid<real>>, f: Grid<real>, g: BlockGrid,
                      rows: nat, columns: nat, table: seq<Neighbors>, k: nat, x: int, y: int)
    requires ReadsField(ex, f, table, g, rows, columns) && EdgesAgree(dst, f, g, rows, columns)
    requires CartesianTable(table, g) && SoundSize(g, rows, columns)
    requires k < |ex| && Owned(x, y, rows, columns)
    ensures var (gx, gy) := FieldCell(k, x, y, g, rows, columns);
      && 0 <= gx < g.xdim * rows && 0 <= gy < g.ydim * columns
      && ParallelStep(p, ex, dst, table, g, rows, columns)[k][x][y]
         == GlobalStep(p, f, g.xdim * rows, g.ydim * columns)[gx][gy]
  {
    var (gx, gy) := FieldCell(k, x, y, g, rows, columns);
    FieldCellInField(k, x, y, g, rows, columns);
    SoundSizeSized(table[k], k, g, rows, columns);
    StencilStepSpec(p, ex[k], dst[k], rows, columns, table[k]);
    UpdatedIffInterior(table[k], k, x, y, g, rows, columns);
    if Updated(x, y, rows, columns, table[k]) {
      PointHolds(p, ex, f, g, rows, columns, table, k, x, y);
    } else {
      assert OnEdge((gx, gy), g.xdim * rows, g.ydim * columns);
    }
  }

  /** The passes of one time step, from blocks whose readable cells hold the
      field into blocks that agree with it on the domain edge, produce the
      stepped field. */
  lemma PassesHold(p: Parms, ex: seq<Grid<real>>, dst: seq<Grid<real>>, f: Grid<real>, g: BlockGrid,
                   rows: nat, columns: nat, table: seq<Neighbors>)
    requires ReadsField(ex, f, table, g, rows, columns) && EdgesAgree(dst, f, g, rows, columns)
    requires CartesianTable(table, g) && SoundSize(g, rows, columns)
    ensures Holds(ParallelStep(p, ex, dst, table, g, rows, columns), GlobalStep(p, f, g.xdim * rows, g.ydim * columns), g, rows, columns)
  {
    var f' := GlobalStep(p, f, g.xdim * rows, g.ydim * columns);
    var next := ParallelStep(p, ex, dst, table, g, rows, columns);
    forall k, x, y | 0 <= k < |next| && Owned(x, y, rows, columns) && InField(FieldCell(k, x, y, g, rows, columns), f')
      ensures next[k][x][y] == f'[FieldCell(k, x, y, g, rows, columns).0][FieldCell(k, x, y, g, rows, columns).1]
    {
      CellStepHolds(p, ex, dst, f, g, rows, columns, table, k, x, y);
    }
    assert Tiling(next, f', g, rows, columns);
  }

  /** The serial step leaves the domain edge alone, so blocks whose owned
      cells hold the field agree with the stepped field on the domain edge. */
  lemma EdgeKept(p: Parms, ex: seq<Grid<real>>, f: Grid<real>, g: BlockGrid, rows: nat, columns: nat, table: seq<Neighbors>)
    requires ReadsField(ex, f, table, g, rows, columns)
    ensures EdgesAgree(ex, GlobalStep(p, f, g.xdim * rows, g.ydim * columns), g, rows, columns)
  {
    var nx, ny := g.xdim * rows, g.ydim * columns;
    var f' := GlobalStep(p, f, nx, ny);
    forall k, x, y | && 0 <= k < |ex| && Owned(x, y, rows, columns) && InField(FieldCell(k, x, y, g, rows, columns), f')
                     && OnEdge(FieldCell(k, x, y, g, rows, columns), nx, ny)
      ensures ex[k][x][y] == f'[FieldCell(k, x, y, g, rows, columns).0][FieldCell(k, x, y, g, rows, columns).1]
    {
      var (gx, gy) := FieldCell(k, x, y, g, rows, columns);
      assert Readable(table[k], x, y, rows, columns);
      assert f'[gx][gy] == f[gx][gy];
    }
  }

  /** One time step of all workers is one serial step: if the source buffer
      holds the field and the destination buffer agrees with it on the domain
      edge, then afterwards the destination holds the stepped field and the
      exchanged source agrees with the stepped field on the domain edge, ready
      to be the next step's destination. */
  lemma StepHolds(p: Parms, src: seq<Grid<real>>, dst: seq<Grid<real>>, f: Grid<real>, g: BlockGrid,
                  rows: nat, columns: nat, table: seq<Neighbors>)
    requires Holds(src, f, g, rows, columns) && EdgesAgree(dst, f, g, rows, columns)
    requires |table| == |src| && CartesianTable(table, g) && SoundSize(g, rows, columns)
    ensures forall i :: 0 <= i < |table| ==> RanksBelow(table[i], |src|)
    ensures var ex := Exchange(src, table, rows, columns);
      var f' := GlobalStep(p, f, g.xdim * rows, g.ydim * columns);
      Holds(ParallelStep(p, ex, dst, table, g, rows, columns), f', g, rows, columns)
      && EdgesAgree(ex, f', g, rows, columns)
  {
    ExchangeReadsField(src, f, g, rows, columns, table);
    PassesHold(p, Exchange(src, table, rows, columns), dst, f, g, rows, columns, table);
    EdgeKept(p, Exchange(src, table, rows, columns), f, g, rows, columns, table);
  }

  /** Both buffers of every worker: local[0] and local[1]. */
  datatype World = World(zero: seq<Grid<real>>, one: seq<Grid<real>>)

  /** Buffer i of every worker. */
  function Buffer(w: World, i: int): seq<Grid<real>> {
    if i == 0 then w.zero else w.one
  }

  /** Both buffers hold one haloed block per worker of the grid. */
  predicate Shaped(w: World, g: BlockGrid, rows: nat, columns: nat) {
    && |w.zero| == |w.one| == g.xdim * g.ydim
    && Blocks(w.zero, rows, columns) && Blocks(w.one, rows, columns)
  }

  /** Iteration it of the time loop: exchange the halo of buffer newiz in
      place, then run both passes from it into buffer 1 - newiz. The receives
      complete before the passes read the halo; the interior pass, which the
      program overlaps with the transfers, does not read it
      (Stencil.InternalIgnoresHalo). */
  function Iterate(p: Parms, w: World, table: seq<Neighbors>, g: BlockGrid, rows: nat, columns: nat, it: int): (w': World)
    requires g.ydim >= 1 && |table| == g.xdim * g.ydim && CartesianTable(table, g)
    requires SoundSize(g, rows, columns) && Shaped(w, g, rows, columns)
    ensures Shaped(w', g, rows, columns)
  {
    CartesianRanksBelow(table, g);
    var s := SourceBuffer(it);
    var ex := Exchange(Buffer(w, s), table, rows, columns);
    var next := ParallelStep(p, ex, Buffer(w, 1 - s), table, g, rows, columns);
    if s == 0 then World(ex, next) else World(next, ex)
  }

  /** Iterations 1 .. n of the time loop. */
  function Run(p: Parms, w: World, table: seq<Neighbors>, g: BlockGrid, rows: nat, columns: nat, n: nat): (w': World)
    requires g.ydim >= 1 && |table| == g.xdim * g.ydim && CartesianTable(table, g)
    requires SoundSize(g, rows, columns) && Shaped(w, g, rows, columns)
    ensures Shaped(w', g, rows, columns)
  {
    if n == 0 then w else Iterate(p, Run(p, w, table, g, rows, columns, n - 1), table, g, rows, columns, n)
  }

  /** The loop invariant: after n iterations buffer n % 2 holds n serial steps
      of the field, and the other buffer agrees with them on the domain edge. */
  lemma {:induction false} RunHolds(p: Parms, w: World, f: Grid<real>, table: seq<Neighbors>, g: BlockGrid,
                                    rows: nat, columns: nat, n: nat)
    requires Holds(w.zero, f, g, rows, columns) && EdgesAgree(w.one, f, g, rows, columns)
    requires |table| == g.xdim * g.ydim && CartesianTable(table, g) && SoundSize(g, rows, columns)
    ensures Shaped(w, g, rows, columns) && g.xdim * rows >= 1
    ensures var w' := Run(p, w, table, g, rows, columns, n);
      var f' := GlobalRun(p, f, g.xdim * rows, g.ydim * columns, n);
      Holds(Buffer(w', n % 2), f', g, rows, columns) && EdgesAgree(Buffer(w', 1 - n % 2), f', g, rows, columns)
  {
    MulLe(rows, 1, g.xdim);
    if n > 0 {
      RunHolds(p, w, f, table, g, rows, columns, n - 1);
      var w0 := Run(p, w, table, g, rows, columns, n - 1);
      var f0 := GlobalRun(p, f, g.xdim * rows, g.ydim * columns, n - 1);
      BufferParity(n - 1);
      BufferParity(n);
      assert SourceBuffer(n) == (n - 1) % 2 && 1 - SourceBuffer(n) == 1 - (n - 1) % 2;
      IterateHolds(p, w0, f0, table, g, rows, columns, n);
      assert Run(p, w, table, g, rows, columns, n) == Iterate(p, w0, table, g, rows, columns, n);
      assert GlobalRun(p, f, g.xdim * rows, g.ydim * columns, n) == GlobalStep(p, f0, g.xdim * rows, g.ydim * columns);
      assert DestBuffer(n) == n % 2 && SourceBuffer(n) == 1 - n % 2;
    }
  }

  /** Iteration it moves the invariant along: from buffer SourceBuffer(it)
      holding the field and the other buffer agreeing on the domain edge, to
      buffer DestBuffer(it) holding one more serial step and the source
      buffer agreeing with it on the domain edge. */
  lemma IterateHolds(p: Parms, w: World, f: Grid<real>, table: seq<Neighbors>, g: BlockGrid,
                     rows: nat, columns: nat, it: int)
    requires SourceBuffer(it) in {0, 1}
    requires Holds(Buffer(w, SourceBuffer(it)), f, g, rows, columns)
    requires EdgesAgree(Buffer(w, 1 - SourceBuffer(it)), f, g, rows, columns)
    requires |table| == g.xdim * g.ydim && CartesianTable(table, g) && SoundSize(g, rows, columns)
    ensures Shaped(w, g, rows, columns) && g.xdim * rows >= 1
    ensures var w' := Iterate(p, w, table, g, rows, columns, it);
      var f' := GlobalStep(p, f, g.xdim * rows, g.ydim * columns);
      Holds(Buffer(w', DestBuffer(it)), f', g, rows, columns) && EdgesAgree(Buffer(w', SourceBuffer(it)), f', g, rows, columns)
  {
    MulLe(rows, 1, g.xdim);
    var s := SourceBuffer(it);
    StepHolds(p, Buffer(w, s), Buffer(w, 1 - s), f, g, rows, columns, table);
  }

  /** The row-major array u[nx][ny] seen as a grid. */
  function FieldOf(u: seq<real>, nx: nat, ny: nat): (f: Grid<real>)
    requires |u| == nx * ny
    ensures IsGrid(f, nx, ny)
  {
    seq(nx, i requires 0 <= i < nx =>
      seq(ny, j requires 0 <= j < ny =>
        OffsetInRange(i, j, nx, ny);
        u[Offset(i, j, ny)]))
  }

  /** The field is zero on the domain edge, as inidat makes it
      (ix*(nx-ix-1)*iy*(ny-iy-1) vanishes there). */
  ghost predicate EdgeZero(f: Grid<real>, nx: nat, ny: nat) {
    forall i, j :: 0 <= i < nx && 0 <= j < ny && i < |f| && j < |f[i]| && OnEdge((i, j), nx, ny) ==> f[i][j] == 0.0
  }

  /** The all-zero blocks of lines 213-217. */
  function ZeroBlocks(n: nat, rows: nat, columns: nat): (bs: seq<Grid<real>>)
    ensures |bs| == n && Blocks(bs, rows, columns)
  {
    seq(n, k => seq(rows + 2, x => seq(columns + 2, y => 0.0)))
  }

  /** The start-up of the workers: scatter u, whose rows are ny wide, with
      placement pl into buffer 0 (line 261), exchange its halo once with the
      persistent requests (lines 283-294); buffer 1 keeps the zeros of lines
      213-217. The blocks need not tile u: pl only has to stay inside it. */
  function StartWorkers(u: seq<real>, ny: nat, pl: Placement, table: seq<Neighbors>, g: BlockGrid, rows: nat, columns: nat): (w: World)
    requires g.ydim >= 1 && SoundSize(g, rows, columns)
    requires |pl.displs| == g.xdim * g.ydim && Fits(pl, |u|, ny, rows, columns)
    requires |table| == g.xdim * g.ydim && CartesianTable(table, g)
    ensures Shaped(w, g, rows, columns)
  {
    var scattered := Scatter(u, pl, ny, rows, columns);
    CartesianRanksBelow(table, g);
    World(Exchange(scattered, table, rows, columns), ZeroBlocks(g.xdim * g.ydim, rows, columns))
  }

  /** The field after n steps as the program computes it: launch the
      workers, run iterations 1 .. n, and gather buffer n % 2 back into u
      with the same placement (lines 364-365). */
  function Simulate(p: Parms, u: seq<real>, ny: nat, pl: Placement, table: seq<Neighbors>, g: BlockGrid, rows: nat, columns: nat, n: nat): (u': seq<real>)
    requires g.ydim >= 1 && SoundSize(g, rows, columns)
    requires |pl.displs| == g.xdim * g.ydim && Fits(pl, |u|, ny, rows, columns)
    requires |table| == g.xdim * g.ydim && CartesianTable(table, g)
    ensures |u'| == |u|
  {
    var w := StartWorkers(u, ny, pl, table, g, rows, columns);
    Gather(u, pl, ny, rows, columns, Buffer(Run(p, w, table, g, rows, columns, n), n % 2))
  }

  /** After the launch buffer 0 holds the field, and buffer 1, all zeros,
      agrees with it on the domain edge, where the field is zero. */
  lemma StartHolds(u: seq<real>, pl: Placement, table: seq<Neighbors>, g: BlockGrid, rows: nat, columns: nat)
    requires g.xdim >= 1 && g.ydim >= 1 && SoundSize(g, rows, columns)
    requires |u| == (g.xdim * rows) * (g.ydim * columns)
    requires PlacesBlocks(pl, g.ydim * columns, g.xdim, g.ydim, rows, columns)
    requires |table| == g.xdim * g.ydim && CartesianTable(table, g)
    requires EdgeZero(FieldOf(u, g.xdim * rows, g.ydim * columns), g.xdim * rows, g.ydim * columns)
    ensures Fits(pl, |u|, g.ydim * columns, rows, columns)
    ensures var f := FieldOf(u, g.xdim * rows, g.ydim * columns);
      var w := StartWorkers(u, g.ydim * columns, pl, table, g, rows, columns);
      Holds(w.zero, f, g, rows, columns) && EdgesAgree(w.one, f, g, rows, columns)
  {
    var nx, ny := g.xdim * rows, g.ydim * columns;
    PlacedFits(pl, nx, ny, g.xdim, g.ydim, rows, columns);
    var f := FieldOf(u, nx, ny);
    ScatterHolds(u, pl, g, rows, columns);
    var scattered := Scatter(u, pl, ny, rows, columns);
    CartesianRanksBelow(table, g);
    ExchangedHolds(scattered, f, table, g, rows, columns);
    ZeroEdgesAgree(f, g, rows, columns);
  }

  /** The exchange leaves the owned cells, and so what they hold, alone. */
  lemma ExchangedHolds(bs: seq<Grid<real>>, f: Grid<real>, table: seq<Neighbors>, g: BlockGrid, rows: nat, columns: nat)
    requires Holds(bs, f, g, rows, columns) && |table| == |bs|
    requires forall i :: 0 <= i < |table| ==> RanksBelow(table[i], |bs|)
    ensures Holds(Exchange(bs, table, rows, columns), f, g, rows, columns)
  {
    ExchangeKeepsOwned(bs, table, rows, columns);
  }

  /** All-zero blocks agree on the domain edge with a field that is zero there. */
  lemma ZeroEdgesAgree(f: Grid<real>, g: BlockGrid, rows: nat, columns: nat)
    requires g.xdim >= 1 && g.ydim >= 1 && rows >= 1 && columns >= 1
    requires IsGrid(f, g.xdim * rows, g.ydim * columns) && EdgeZero(f, g.xdim * rows, g.ydim * columns)
    ensures EdgesAgree(ZeroBlocks(g.xdim * g.ydim, rows, columns), f, g, rows, columns)
  {
  }

  /** Right after the scatter buffer 0 holds the field. */
  lemma ScatterHolds(u: seq<real>, pl: Placement, g: BlockGrid, rows: nat, columns: nat)
    requires g.xdim >= 1 && g.ydim >= 1 && rows >= 1 && columns >= 1
    requires |u| == (g.xdim * rows) * (g.ydim * columns)
    requires PlacesBlocks(pl, g.ydim * columns, g.xdim, g.ydim, rows, columns)
    ensures var ny := g.ydim * columns;
      && Fits(pl, |u|, ny, rows, columns)
      && Holds(Scatter(u, pl, ny, rows, columns), FieldOf(u, g.xdim * rows, ny), g, rows, columns)
  {
    var nx, ny := g.xdim * rows, g.ydim * columns;
    ScatterShaped(u, pl, g, rows, columns);
    ScatterPlacesCells(u, pl, ny, g.xdim, g.ydim, rows, columns);
    var bs := Scatter(u, pl, ny, rows, columns);
    var f := FieldOf(u, nx, ny);
    forall k, x, y | 0 <= k < |bs| && Owned(x, y, rows, columns) && InField(FieldCell(k, x, y, g, rows, columns), f)
      ensures bs[k][x][y] == f[FieldCell(k, x, y, g, rows, columns).0][FieldCell(k, x, y, g, rows, columns).1]
    {
      assert bs[k][x][y] == u[FieldOffset(ny, g.ydim, rows, columns, k, x - 1, y - 1)];
      FieldOfCell(u, f, g, rows, columns, k, x, y);
    }
  }

  /** The field cell of owned cell (x, y) of worker k is the element of u at
      the flat offset the placement sends from. */
  lemma FieldOfCell(u: seq<real>, f: Grid<real>, g: BlockGrid, rows: nat, columns: nat, k: int, x: int, y: int)
    requires g.ydim >= 1 && |u| == (g.xdim * rows) * (g.ydim * columns)
    requires f == FieldOf(u, g.xdim * rows, g.ydim * columns)
    requires InField(FieldCell(k, x, y, g, rows, columns), f)
    ensures 0 <= FieldOffset(g.ydim * columns, g.ydim, rows, columns, k, x - 1, y - 1) < |u|
    ensures f[FieldCell(k, x, y, g, rows, columns).0][FieldCell(k, x, y, g, rows, columns).1]
      == u[FieldOffset(g.ydim * columns, g.ydim, rows, columns, k, x - 1, y - 1)]
  {
    var (gx, gy) := FieldCell(k, x, y, g, rows, columns);
    var ny := g.ydim * columns;
    assert FieldOffset(ny, g.ydim, rows, columns, k, x - 1, y - 1) == Offset(gx, gy, ny);
    OffsetInRange(gx, gy, g.xdim * rows, ny);
  }

  /** The scatter with the intended geometry gives every worker a haloed block. */
  lemma ScatterShaped(u: seq<real>, pl: Placement, g: BlockGrid, rows: nat, columns: nat)
    requires g.xdim >= 1 && g.ydim >= 1 && rows >= 1 && columns >= 1
    requires |u| == (g.xdim * rows) * (g.ydim * columns)
    requires PlacesBlocks(pl, g.ydim * columns, g.xdim, g.ydim, rows, columns)
    ensures Fits(pl, |u|, g.ydim * columns, rows, columns)
    ensures |Scatter(u, pl, g.ydim * columns, rows, columns)| == g.xdim * g.ydim
      && Blocks(Scatter(u, pl, g.ydim * columns, rows, columns), rows, columns)
  {
    var nx, ny := g.xdim * rows, g.ydim * columns;
    PlacedFits(pl, nx, ny, g.xdim, g.ydim, rows, columns);
    var bs := Scatter(u, pl, ny, rows, columns);
    forall k | 0 <= k < |bs|
      ensures IsGrid(bs[k], rows + 2, columns + 2)
    {
      assert bs[k] == ScatterBlock(u, pl, ny, rows, columns, k);
    }
  }

  /** Where field cell (x, y) lives: worker k = (x/rows)*ydim + y/columns,
      owned cell (1 + x%rows, 1 + y%columns). */
  lemma CellOwner(x: int, y: int, g: BlockGrid, rows: nat, columns: nat) returns (k: nat, r: int, c: int)
    requires g.ydim >= 1 && rows >= 1 && columns >= 1
    requires 0 <= x < g.xdim * rows && 0 <= y < g.ydim * columns
    ensures k < g.xdim * g.ydim && 0 <= r < rows && 0 <= c < columns
    ensures FieldCell(k, 1 + r, 1 + c, g, rows, columns) == (x, y)
    ensures FieldOffset(g.ydim * columns, g.ydim, rows, columns, k, r, c) == Offset(x, y, g.ydim * columns)
  {
    var (i, r') := CellOf(x, rows);
    var (j, c') := CellOf(y, columns);
    BlockOf(x, rows, g.xdim);
    BlockOf(y, columns, g.ydim);
    r, c := r', c';
    OffsetInRange(i, j, g.xdim, g.ydim);
    k := Offset(i, j, g.ydim);
    CellOfOffset(i, j, g.ydim);
  }

  /** A line below dim blocks of n lines lies in a block-row below dim. */
  lemma BlockOf(x: int, n: nat, dim: nat)
    requires n >= 1 && 0 <= x < dim * n
    ensures 0 <= CellOf(x, n).0 < dim
  {
    var i := CellOf(x, n).0;
    if i < 0 {
      MulSign(i, n);
    }
    if i >= dim {
      MulLe(n, dim, i);
    }
  }

  /** Gathering blocks that hold a field stores the field back into u. */
  lemma GatherHolds(u: seq<real>, pl: Placement, bs: seq<Grid<real>>, f: Grid<real>, g: BlockGrid, rows: nat, columns: nat)
    requires Holds(bs, f, g, rows, columns) && |u| == (g.xdim * rows) * (g.ydim * columns)
    requires PlacesBlocks(pl, g.ydim * columns, g.xdim, g.ydim, rows, columns)
    ensures var ny := g.ydim * columns;
      && Fits(pl, |u|, ny, rows, columns)
      && forall x, y :: 0 <= x < g.xdim * rows && 0 <= y < ny ==>
           0 <= Offset(x, y, ny) < |u| && Gather(u, pl, ny, rows, columns, bs)[Offset(x, y, ny)] == f[x][y]
  {
    var nx, ny := g.xdim * rows, g.ydim * columns;
    GatherPlacesBlocks(u, pl, nx, ny, g.xdim, g.ydim, rows, columns, bs);
    forall x, y | 0 <= x < nx && 0 <= y < ny
      ensures 0 <= Offset(x, y, ny) < |u| && Gather(u, pl, ny, rows, columns, bs)[Offset(x, y, ny)] == f[x][y]
    {
      OffsetInRange(x, y, nx, ny);
      var k, r, c := CellOwner(x, y, g, rows, columns);
      assert Owned(1 + r, 1 + c, rows, columns);
    }
  }

  /** The parallel program computes the serial heat2D update: for a field
      that is zero on the domain edge, blocks that tile it exactly, a
      Cartesian neighbour table and sound block sizes, the field gathered
      after n iterations is the field after n serial steps, cell for cell. */
  lemma SimulateIsSerial(p: Parms, u: seq<real>, pl: Placement, table: seq<Neighbors>, g: BlockGrid, rows: nat, columns: nat, n: nat)
    requires g.xdim >= 1 && g.ydim >= 1 && SoundSize(g, rows, columns)
    requires |u| == (g.xdim * rows) * (g.ydim * columns)
    requires PlacesBlocks(pl, g.ydim * columns, g.xdim, g.ydim, rows, columns)
    requires |table| == g.xdim * g.ydim && CartesianTable(table, g)
    requires EdgeZero(FieldOf(u, g.xdim * rows, g.ydim * columns), g.xdim * rows, g.ydim * columns)
    ensures g.xdim * rows >= 1 && Fits(pl, |u|, g.ydim * columns, rows, columns)
    ensures var ny := g.ydim * columns;
      && |Simulate(p, u, ny, pl, table, g, rows, columns, n)| == |u|
      && forall x, y :: 0 <= x < g.xdim * rows && 0 <= y < ny ==>
           0 <= Offset(x, y, ny) < |u|
           && Simulate(p, u, ny, pl, table, g, rows, columns, n)[Offset(x, y, ny)]
              == GlobalRun(p, FieldOf(u, g.xdim * rows, ny), g.xdim * rows, ny, n)[x][y]
  {
    var nx, ny := g.xdim * rows, g.ydim * columns;
    var f := FieldOf(u, nx, ny);
    StartHolds(u, pl, table, g, rows, columns);
    var w := StartWorkers(u, ny, pl, table, g, rows, columns);
    RunHolds(p, w, f, table, g, rows, columns, n);
    var w' := Run(p, w, table, g, rows, columns, n);
    GatherHolds(u, pl, Buffer(w', n % 2), GlobalRun(p, f, nx, ny, n), g, rows, columns);
  }

  /** inidat (lines 560-566): u[ix][iy] = ix*(nx-ix-1)*iy*(ny-iy-1). For
      NXPROB x NYPROB the products stay below 2^31, so the int arithmetic does
      not wrap; the conversion to float is taken as exact. */
  function Inidat(nx: nat, ny: nat): (u: seq<real>)
    ensures |u| == nx * ny
  {
    seq(nx * ny, o requires 0 <= o < nx * ny => InitialValue(CellOf(o, ny).0, CellOf(o, ny).1, nx, ny))
  }

  /** The value inidat gives cell (ix, iy). */
  function InitialValue(ix: int, iy: int, nx: int, ny: int): real {
    (ix * (nx - ix - 1) * iy * (ny - iy - 1)) as real
  }

  /** The initial value vanishes on the domain edge and is non-negative inside. */
  lemma InitialValueSign(ix: int, iy: int, nx: int, ny: int)
    requires 0 <= ix < nx && 0 <= iy < ny
    ensures OnEdge((ix, iy), nx, ny) ==> InitialValue(ix, iy, nx, ny) == 0.0
    ensures InitialValue(ix, iy, nx, ny) >= 0.0
  {
    var a, b, c, d := ix, nx - ix - 1, iy, ny - iy - 1;
    assert InitialValue(ix, iy, nx, ny) == (a * b * c * d) as real;
    NonNegProduct(a, b, c, d);
    if a == 0 || b == 0 || c == 0 || d == 0 {
      ZeroProduct(a, b, c, d);
    }
  }

  /** A product of four non-negative factors is non-negative. */
  lemma NonNegProduct(a: int, b: int, c: int, d: int)
    requires a >= 0 && b >= 0 && c >= 0 && d >= 0
    ensures a * b * c * d >= 0
  {
    MulLe(a, 0, b);
    MulLe(a * b, 0, c);
    MulLe(a * b * c, 0, d);
  }

  /** A product of four factors one of which is zero is zero. */
  lemma ZeroProduct(a: int, b: int, c: int, d: int)
    requires a == 0 || b == 0 || c == 0 || d == 0
    ensures a * b * c * d == 0
  {
    if a == 0 || b == 0 {
      assert a * b == 0;
    } else if c == 0 {
      assert a * b * c == 0;
    }
  }

  /** inidat's field is zero on the domain edge and nowhere negative inside. */
  lemma InidatEdgeZero(nx: nat, ny: nat)
    ensures EdgeZero(FieldOf(Inidat(nx, ny), nx, ny), nx, ny)
    ensures forall i, j :: 0 <= i < nx && 0 <= j < ny ==> FieldOf(Inidat(nx, ny), nx, ny)[i][j] >= 0.0
  {
    var f := FieldOf(Inidat(nx, ny), nx, ny);
    forall i, j | 0 <= i < nx && 0 <= j < ny
      ensures f[i][j] == InitialValue(i, j, nx, ny)
    {
      OffsetInRange(i, j, nx, ny);
      CellOfOffset(i, j, ny);
    }
    forall i, j | 0 <= i < nx && 0 <= j < ny
      ensures OnEdge((i, j), nx, ny) ==> f[i][j] == 0.0
      ensures f[i][j] >= 0.0
    {
      InitialValueSign(i, j, nx, ny);
    }
  }

  /** The launch accepted w workers and their block sizes are sound, so the
      passes stay inside every block. */
  predicate Runs(w: nat)
    requires w >= 1
  {
    && Launch(w, NXPROB, NYPROB).Accepted?
    && var c := Launch(w, NXPROB, NYPROB).cfg;
       SoundSize(c.grid, c.rows, c.columns)
  }

  /** A run whose blocks moreover tile the field exactly. */
  predicate Exact(w: nat)
    requires w >= 1
  {
    && Runs(w)
    && var c := Launch(w, NXPROB, NYPROB).cfg;
       c.grid.xdim * c.rows == NXPROB && c.grid.ydim * c.columns == NYPROB
  }

  /** main as built: NXPROB x NYPROB cells initialised by inidat, the
      partition of the accepted launch of w workers, the master's neighbour
      table, the program's own displacements, STEPS iterations and the final
      gather. The blocks need not tile the field: the truncated remainder rows
      and columns are simply never sent. */
  function Heat2D(w: nat): (u': seq<real>)
    requires w >= 1 && Runs(w)
    ensures |u'| == NXPROB * NYPROB
  {
    var c := Launch(w, NXPROB, NYPROB).cfg;
    AcceptedTableCartesian(w, NXPROB, NYPROB);
    AsWrittenFits(NXPROB, NYPROB, c.grid.xdim, c.grid.ydim, c.rows, c.columns);
    var pl := AsWritten(c.grid.xdim, c.grid.ydim, c.rows, c.columns);
    Simulate(PARMS, Inidat(NXPROB, NYPROB), NYPROB, pl, NeighborTable(w, c.grid), c.grid, c.rows, c.columns, STEPS)
  }

  /** Whenever the blocks tile the field exactly and have sound sizes, the
      program's gathered field is STEPS serial steps of inidat's field. */
  lemma ProgramIsSerial(w: nat)
    requires w >= 1 && Exact(w)
    ensures var u' := Heat2D(w);
      && |u'| == NXPROB * NYPROB
      && forall x, y :: 0 <= x < NXPROB && 0 <= y < NYPROB ==>
           u'[Offset(x, y, NYPROB)]
           == GlobalRun(PARMS, FieldOf(Inidat(NXPROB, NYPROB), NXPROB, NYPROB), NXPROB, NYPROB, STEPS)[x][y]
  {
    var c := Launch(w, NXPROB, NYPROB).cfg;
    var g, rows, columns := c.grid, c.rows, c.columns;
    ExactSetup(w);
    InidatEdgeZero(NXPROB, NYPROB);
    var u := Inidat(NXPROB, NYPROB);
    var pl := AsWritten(g.xdim, g.ydim, rows, columns);
    var table := NeighborTable(w, g);
    SimulateIsSerial(PARMS, u, pl, table, g, rows, columns, STEPS);
    assert Heat2D(w) == Simulate(PARMS, u, NYPROB, pl, table, g, rows, columns, STEPS);
  }

  /** What an exact launch hands the simulation: a Cartesian neighbour table
      with one entry per block, and the program's own placement, which puts
      every block at its field position. */
  lemma ExactSetup(w: nat)
    requires w >= 1 && Exact(w)
    ensures var c := Launch(w, NXPROB, NYPROB).cfg;
      && c.grid.xdim >= 1 && c.grid.ydim >= 1
      && |NeighborTable(w, c.grid)| == c.grid.xdim * c.grid.ydim
      && CartesianTable(NeighborTable(w, c.grid), c.grid)
      && PlacesBlocks(AsWritten(c.grid.xdim, c.grid.ydim, c.rows, c.columns), c.grid.ydim * c.columns, c.grid.xdim, c.grid.ydim, c.rows, c.columns)
  {
    var c := Launch(w, NXPROB, NYPROB).cfg;
    AcceptedTableCartesian(w, NXPROB, NYPROB);
    AsWrittenPlacesBlocks(c.grid.xdim, c.grid.ydim, c.rows, c.columns, NYPROB);
  }

  /** Four workers give a 2 x 2 grid of 128 x 160 blocks, which tile the
      field exactly. */
  lemma FourWorkersExact()
    ensures Launch(4, NXPROB, NYPROB) == Accepted(Config(BlockGrid(2, 2), 128, 160))
    ensures Exact(4)
  {
    assert !Prime(4) by {
      assert Divides(2, 4);
    }
    assert ISqrt(4) == 2 by {
      assert ISqrt(0) == 0;
      assert ISqrt(1) == 1;
      assert ISqrt(2) == 1;
      assert ISqrt(3) == 1;
    }
    assert ScanDivisor(4, 3) == 2;
    assert FactorPair(4, NXPROB, NYPROB) == BlockGrid(2, 2);
  }

  /** Forty workers give a 5 x 8 grid of 51 x 40 blocks. They cover 255 of
      the 256 rows, so the tiling is not exact, yet the program runs and so
      does the model: Heat2D(40) is defined. */
  lemma FortyWorkersRun()
    ensures Launch(40, NXPROB, NYPROB) == Accepted(Config(BlockGrid(5, 8), 51, 40))
    ensures Runs(40) && !Exact(40)
    ensures |Heat2D(40)| == NXPROB * NYPROB
  {
    FortyWorkersLaunch();
  }

  /** The launch of forty workers on the built field. */
  lemma FortyWorkersLaunch()
    ensures Launch(40, NXPROB, NYPROB) == Accepted(Config(BlockGrid(5, 8), 51, 40))
  {
    FortyWorkersGrid();
    var l := Launch(40, NXPROB, NYPROB);
    assert l.Accepted? && l.cfg.grid == BlockGrid(5, 8);
    assert l.cfg.rows == 51 && l.cfg.columns == 40;
  }

  /** The scan of lines 120-133 picks 5 x 8 for forty workers, a composite
      count. */
  lemma FortyWorkersGrid()
    ensures !Prime(40) && FactorPair(40, NXPROB, NYPROB) == BlockGrid(5, 8)
  {
    assert !Prime(40) by {
      assert Divides(2, 40);
    }
    assert ISqrt(40) == 6 by {
      var r := ISqrt(40);
      if r >= 7 {
        SquareMonotone(7, r);
      }
      if r <= 5 {
        SquareMonotone(r + 1, 6);
      }
    }
    assert ScanDivisor(40, 7) == 5 by {
      assert ScanDivisor(40, 5) == 5;
      assert ScanDivisor(40, 6) == ScanDivisor(40, 5);
    }
    assert ScanDivisor(40, ISqrt(40) + 1) == 5 && 40 / 5 == 8;
  }

  /** The drift on the built field: a 64 x 128 grid of 4 x 2 blocks, sound
      in size, whose send items overlap. Worker 32's last row and worker
      128's first row both start at offset 1024, so the gather receives two
      values for that cell. */
  lemma WideGridOverlaps()
    ensures SoundSize(BlockGrid(64, 128), 4, 2)
    ensures SendOffset(AsWritten(64, 128, 4, 2), NYPROB, 32, 3, 0) == 1024
    ensures SendOffset(AsWritten(64, 128, 4, 2), NYPROB, 128, 0, 0) == 1024
    ensures !Disjoint(AsWritten(64, 128, 4, 2), NYPROB, 4, 2)
  {
    var p := AsWritten(64, 128, 4, 2);
    assert p.displs[32] == 32 && p.displs[128] == 512;
    assert SendOffset(p, NYPROB, 32, 3, 0) == SendOffset(p, NYPROB, 128, 0, 0);
  }

  /** The launch check accepts the field of the displacement drift example:
      four workers on a 4 x 3 field get a 2 x 2 grid of 2 x 1 blocks, the
      configuration under which DriftMisplaces and AsWrittenLosesCell hold. */
  lemma DriftLaunch()
    ensures Launch(4, 4, 3) == Accepted(Config(BlockGrid(2, 2), 2, 1))
  {
    assert !Prime(4) by {
      assert Divides(2, 4);
    }
    assert ISqrt(4) == 2 by {
      assert ISqrt(0) == 0;
      assert ISqrt(1) == 1;
      assert ISqrt(2) == 1;
      assert ISqrt(3) == 1;
    }
    assert ScanDivisor(4, 3) == 2;
    assert FactorPair(4, 4, 3) == BlockGrid(2, 2);
  }

  /** A worker with no neighbours keeps its block through the exchange. */
  lemma ExchangeAlone(bs: seq<Grid<real>>, table: seq<Neighbors>, rows: nat, columns: nat)
    requires |table| == |bs| && Blocks(bs, rows, columns)
    requires forall i :: 0 <= i < |table| ==> table[i] == Neighbors(NoProc, NoProc, NoProc, NoProc)
    ensures Exchange(bs, table, rows, columns) == bs
  {
    var ex := Exchange(bs, table, rows, columns);
    forall k | 0 <= k < |bs|
      ensures ex[k] == bs[k]
    {
      ExchangeBlockSpec(bs, table[k], k, rows, columns);
      GridExtensional(ex[k], bs[k], rows + 2, columns + 2);
    }
  }

  /** The serial update keeps a uniform 3 x 3 field of 5.0 uniform. */
  lemma UniformSerial()
    ensures GlobalRun(PARMS, seq(3, i => seq(3, j => 5.0)), 3, 3, 2) == seq(3, i => seq(3, j => 5.0))
  {
    var f := seq(3, i => seq(3, j => 5.0));
    var f1 := GlobalRun(PARMS, f, 3, 3, 1);
    assert GlobalRun(PARMS, f, 3, 3, 0) == f;
    assert f1 == GlobalStep(PARMS, f, 3, 3);
    GridExtensional(f1, f, 3, 3);
    assert GlobalRun(PARMS, f, 3, 3, 2) == GlobalStep(PARMS, f1, 3, 3);
    GridExtensional(GlobalStep(PARMS, f1, 3, 3), f, 3, 3);
  }

  /** A worker with no neighbours. */
  const ALONE: Neighbors := Neighbors(NoProc, NoProc, NoProc, NoProc)

  /** A lone 3 x 3 block updates only its centre: the eight owned cells
      around it lie on the domain edge. */
  lemma AloneStep(cur: Grid<real>, next: Grid<real>)
    requires IsGrid(cur, 5, 5) && IsGrid(next, 5, 5)
    ensures var r := StencilStep(PARMS, cur, next, 3, 3, ALONE);
      && r[2][2] == Point(PARMS, cur, 2, 2)
      && r[1][2] == next[1][2] && r[3][2] == next[3][2] && r[2][1] == next[2][1] && r[2][3] == next[2][3]
  {
    StencilStepSpec(PARMS, cur, next, 3, 3, ALONE);
    assert Updated(2, 2, 3, 3, ALONE);
  }

  /** The five-point update at the centre of a 5 x 5 block whose centre is c
      and whose four neighbours of the centre are e. */
  lemma CentrePoint(u: Grid<real>, c: real, e: real)
    requires IsGrid(u, 5, 5) && u[2][2] == c
    requires u[1][2] == e && u[3][2] == e && u[2][1] == e && u[2][3] == e
    ensures Point(PARMS, u, 2, 2) == c + 0.2 * (2.0 * e - 2.0 * c)
  {
  }

  /** The field of u = 5.0 everywhere, seen as a 3 x 3 grid. */
  lemma UniformFieldOf()
    ensures FieldOf(seq(9, o => 5.0), 3, 3) == seq(3, i => seq(3, j => 5.0))
  {
    GridExtensional(FieldOf(seq(9, o => 5.0), 3, 3), seq(3, i => seq(3, j => 5.0)), 3, 3);
  }

  /** The lone worker's block right after the scatter: 5.0 on the owned
      cells. */
  lemma UniformScatter()
    ensures Fits(AsWritten(1, 1, 3, 3), 9, 3, 3, 3)
    ensures var b := Scatter(seq(9, o => 5.0), AsWritten(1, 1, 3, 3), 3, 3, 3);
      && Blocks(b, 3, 3) && |b| == 1
      && forall x, y :: Owned(x, y, 3, 3) ==> b[0][x][y] == 5.0
  {
    var u := seq(9, o => 5.0);
    var pl := AsWritten(1, 1, 3, 3);
    AsWrittenPlacesBlocks(1, 1, 3, 3, 3);
    PlacedFits(pl, 3, 3, 1, 1, 3, 3);
    ScatterPlacesCells(u, pl, 3, 1, 1, 3, 3);
    var sc := Scatter(u, pl, 3, 3, 3);
    assert sc[0] == ScatterBlock(u, pl, 3, 3, 3, 0);
  }

  /** Two iterations of a lone 3 x 3 worker whose buffer 0 holds 5.0 on the
      owned cells and whose buffer 1 is zero leave 3.0 at the centre of
      buffer 0. */
  lemma AloneTwoIterations(b: seq<Grid<real>>)
    requires |b| == 1 && Blocks(b, 3, 3)
    requires forall x, y :: Owned(x, y, 3, 3) ==> b[0][x][y] == 5.0
    ensures CartesianTable([ALONE], BlockGrid(1, 1))
    ensures Run(PARMS, World(b, ZeroBlocks(1, 3, 3)), [ALONE], BlockGrid(1, 1), 3, 3, 2).zero[0][2][2] == 3.0
  {
    var g := BlockGrid(1, 1);
    var table := [ALONE];
    assert CartesianNeighbors(ALONE, 0, g);
    var z := ZeroBlocks(1, 3, 3);
    var w := World(b, z);
    ExchangeAlone(b, table, 3, 3);
    // iteration 1: buffer 0 into buffer 1
    var n1 := ParallelStep(PARMS, b, z, table, g, 3, 3);
    assert Run(PARMS, w, table, g, 3, 3, 1) == World(b, n1) by {
      assert Run(PARMS, w, table, g, 3, 3, 0) == w;
    }
    assert n1[0] == StencilStep(PARMS, b[0], z[0], 3, 3, ALONE);
    AloneStep(b[0], z[0]);
    CentrePoint(b[0], 5.0, 5.0);
    // iteration 2: buffer 1 into buffer 0
    ExchangeAlone(n1, table, 3, 3);
    var n2 := ParallelStep(PARMS, n1, b, table, g, 3, 3);
    assert Run(PARMS, w, table, g, 3, 3, 2) == World(n2, n1);
    assert n2[0] == StencilStep(PARMS, n1[0], b[0], 3, 3, ALONE);
    AloneStep(n1[0], b[0]);
    CentrePoint(n1[0], 5.0, 0.0);
  }

  /** The program does not keep a field that is non-zero on the domain edge:
      one worker, a 3 x 3 field of 5.0 and two iterations give 3.0 at the
      centre, where the serial update keeps 5.0. Buffer 1 starts all zero
      (lines 213-217) and only buffer 0 receives the scatter, so after the
      first iteration the edge of buffer 1 reads 0.0 and the second iteration
      pulls the centre towards it. For inidat's field, zero on the edge, the
      two agree (SimulateIsSerial). */
  lemma UniformFieldNotKept()
    ensures CartesianTable([ALONE], BlockGrid(1, 1))
    ensures var u := seq(9, o => 5.0);
      && |Simulate(PARMS, u, 3, AsWritten(1, 1, 3, 3), [ALONE], BlockGrid(1, 1), 3, 3, 2)| == 9
      && Simulate(PARMS, u, 3, AsWritten(1, 1, 3, 3), [ALONE], BlockGrid(1, 1), 3, 3, 2)[Offset(1, 1, 3)] == 3.0
      && GlobalRun(PARMS, FieldOf(u, 3, 3), 3, 3, 2)[1][1] == 5.0
  {
    var u := seq(9, o => 5.0);
    var g := BlockGrid(1, 1);
    var table := [ALONE];
    var pl := AsWritten(1, 1, 3, 3);
    UniformScatter();
    var sc := Scatter(u, pl, 3, 3, 3);
    UniformStart(sc);
    AloneTwoIterations(sc);
    var n2 := Run(PARMS, World(sc, ZeroBlocks(1, 3, 3)), table, g, 3, 3, 2).zero;
    assert Simulate(PARMS, u, 3, pl, table, g, 3, 3, 2) == Gather(u, pl, 3, 3, 3, n2);
    UniformGather(u, n2);
    UniformSerial();
    UniformFieldOf();
  }

  /** The lone worker starts from the scattered block in buffer 0: with no
      neighbours the start-up exchange changes nothing. */
  lemma UniformStart(sc: seq<Grid<real>>)
    requires Fits(AsWritten(1, 1, 3, 3), 9, 3, 3, 3)
    requires sc == Scatter(seq(9, o => 5.0), AsWritten(1, 1, 3, 3), 3, 3, 3) && Blocks(sc, 3, 3)
    ensures CartesianTable([ALONE], BlockGrid(1, 1))
    ensures StartWorkers(seq(9, o => 5.0), 3, AsWritten(1, 1, 3, 3), [ALONE], BlockGrid(1, 1), 3, 3) == World(sc, ZeroBlocks(1, 3, 3))
  {
    assert CartesianNeighbors(ALONE, 0, BlockGrid(1, 1));
    ExchangeAlone(sc, [ALONE], 3, 3);
  }

  /** Gathering the lone worker's block stores its centre at u[1][1]. */
  lemma UniformGather(u: seq<real>, n2: seq<Grid<real>>)
    requires |u| == 9 && |n2| == 1 && Blocks(n2, 3, 3)
    ensures Fits(AsWritten(1, 1, 3, 3), 9, 3, 3, 3)
    ensures |Gather(u, AsWritten(1, 1, 3, 3), 3, 3, 3, n2)| == 9
    ensures Gather(u, AsWritten(1, 1, 3, 3), 3, 3, 3, n2)[Offset(1, 1, 3)] == n2[0][2][2]
  {
    var pl := AsWritten(1, 1, 3, 3);
    AsWrittenPlacesBlocks(1, 1, 3, 3, 3);
    GatherPlacesBlocks(u, pl, 3, 3, 1, 1, 3, 3, n2);
    assert CellOf(0, 1) == (0, 0);
    assert FieldOffset(3, 1, 3, 3, 0, 1, 1) == Offset(1, 1, 3);
  }
}
