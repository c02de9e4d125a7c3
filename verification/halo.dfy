/** The halo exchange: the regions of a worker's (rows+2) x (columns+2) block
    that the four receives write and the four sends read: the persistent
    requests of lines 283-291, started and waited at lines 293-294, and the
    receives of lines 308-311 and sends of lines 314-317 inside the time loop.

    A region is an MPI typemap placed at a base address inside the block. A
    column goes through the vector type of line 276, `rows` floats at stride
    columns+2, and a row through `columns` contiguous floats. Element k of a
    region therefore lies at flat offset base + k*(columns+2) or base + k of
    the row-major block, and the k-th element sent is the k-th received. */
module Halo {
  import opened Layout
  import opened Partition

  /** The side a halo line faces. */
  datatype Dir = Left | Right | Up | Down

  /** The side a neighbour sees this worker on. */
  function Opposite(d: Dir): Dir {
    match d
    case Left => Right
    case Right => Left
    case Up => Down
    case Down => Up
  }

  /** Width of a haloed block row. */
  function Width(columns: nat): nat {
    columns + 2
  }

  /** The vector type of line 276: rows blocks of one float at stride columns+2. */
  function ColumnType(rows: nat, columns: nat): seq<int> {
    seq(rows, k => k * Width(columns))
  }

  /** `columns` consecutive MPI_FLOATs. */
  function RowType(columns: nat): seq<int> {
    seq(columns, k => k)
  }

  /** A typemap placed at a base offset. */
  function Place(base: int, typemap: seq<int>): seq<int> {
    seq(|typemap|, k requires 0 <= k < |typemap| => base + typemap[k])
  }

  /** The buffer each receive writes: left &local[1][0] and right
      &local[1][columns+1] as columns, down &local[rows+1][1] and up
      &local[0][1] as rows. */
  function RecvRegion(d: Dir, rows: nat, columns: nat): (r: seq<int>)
    ensures |r| == Count(d, rows, columns)
  {
    var w := Width(columns);
    match d
    case Left => Place(Offset(1, 0, w), ColumnType(rows, columns))
    case Right => Place(Offset(1, columns + 1, w), ColumnType(rows, columns))
    case Down => Place(Offset(rows + 1, 1, w), RowType(columns))
    case Up => Place(Offset(0, 1, w), RowType(columns))
  }

  /** The buffer each send reads: right &local[1][columns] and left
      &local[1][1] as columns, up &local[1][1] and down &local[rows][1] as
      rows. */
  function SendRegion(d: Dir, rows: nat, columns: nat): (r: seq<int>)
    ensures |r| == Count(d, rows, columns)
  {
    var w := Width(columns);
    match d
    case Right => Place(Offset(1, columns, w), ColumnType(rows, columns))
    case Left => Place(Offset(1, 1, w), ColumnType(rows, columns))
    case Up => Place(Offset(1, 1, w), RowType(columns))
    case Down => Place(Offset(rows, 1, w), RowType(columns))
  }

  /** Number of floats in a line facing d. */
  function Count(d: Dir, rows: nat, columns: nat): nat {
    if d == Left || d == Right then rows else columns
  }

  /** Reference description of the receive regions by cell: element k is the
      k-th cell of the halo line on side d. */
  function RecvCell(d: Dir, k: int, rows: nat, columns: nat): (int, int) {
    match d
    case Left => (1 + k, 0)
    case Right => (1 + k, columns + 1)
    case Up => (0, 1 + k)
    case Down => (rows + 1, 1 + k)
  }

  /** Reference description of the send regions by cell: element k is the
      k-th cell of the owned edge line on side d. */
  function SendCell(d: Dir, k: int, rows: nat, columns: nat): (int, int) {
    match d
    case Left => (1 + k, 1)
    case Right => (1 + k, columns)
    case Up => (1, 1 + k)
    case Down => (rows, 1 + k)
  }

  /** Cells of the block that the worker owns (the scattered interior). */
  predicate Owned(x: int, y: int, rows: nat, columns: nat) {
    1 <= x <= rows && 1 <= y <= columns
  }

  /** Cells of the (rows+2) x (columns+2) block. */
  predicate InBlock(x: int, y: int, rows: nat, columns: nat) {
    0 <= x < rows + 2 && 0 <= y < columns + 2
  }

  /** The four corner cells, which no line of the exchange touches. */
  predicate Corner(x: int, y: int, rows: nat, columns: nat) {
    (x == 0 || x == rows + 1) && (y == 0 || y == columns + 1)
  }

  /** The typemaps place element k of each receive region at its reference
      cell, and there are Count(d) elements. */
  lemma RecvRegionCells(d: Dir, rows: nat, columns: nat)
    ensures |RecvRegion(d, rows, columns)| == Count(d, rows, columns)
    ensures forall k :: 0 <= k < |RecvRegion(d, rows, columns)| ==>
      && InBlock(RecvCell(d, k, rows, columns).0, RecvCell(d, k, rows, columns).1, rows, columns)
      && RecvRegion(d, rows, columns)[k] == Offset(RecvCell(d, k, rows, columns).0, RecvCell(d, k, rows, columns).1, Width(columns))
      && CellOf(RecvRegion(d, rows, columns)[k], Width(columns)) == RecvCell(d, k, rows, columns)
  {
    var w := Width(columns);
    var reg := RecvRegion(d, rows, columns);
    forall k | 0 <= k < |reg|
      ensures InBlock(RecvCell(d, k, rows, columns).0, RecvCell(d, k, rows, columns).1, rows, columns)
      ensures reg[k] == Offset(RecvCell(d, k, rows, columns).0, RecvCell(d, k, rows, columns).1, w)
    {
      ColumnStep(k, w);
    }
    forall k | 0 <= k < |reg|
      ensures CellOf(reg[k], w) == RecvCell(d, k, rows, columns)
    {
      CellOfOffset(RecvCell(d, k, rows, columns).0, RecvCell(d, k, rows, columns).1, w);
    }
  }

  /** The typemaps place element k of each send region at its reference cell,
      and there are Count(d) elements. */
  lemma SendRegionCells(d: Dir, rows: nat, columns: nat)
    ensures |SendRegion(d, rows, columns)| == Count(d, rows, columns)
    ensures forall k :: 0 <= k < |SendRegion(d, rows, columns)| ==>
      && InBlock(SendCell(d, k, rows, columns).0, SendCell(d, k, rows, columns).1, rows, columns)
      && SendRegion(d, rows, columns)[k] == Offset(SendCell(d, k, rows, columns).0, SendCell(d, k, rows, columns).1, Width(columns))
      && CellOf(SendRegion(d, rows, columns)[k], Width(columns)) == SendCell(d, k, rows, columns)
  {
    var w := Width(columns);
    var reg := SendRegion(d, rows, columns);
    forall k | 0 <= k < |reg|
      ensures InBlock(SendCell(d, k, rows, columns).0, SendCell(d, k, rows, columns).1, rows, columns)
      ensures reg[k] == Offset(SendCell(d, k, rows, columns).0, SendCell(d, k, rows, columns).1, w)
    {
      ColumnStep(k, w);
    }
    forall k | 0 <= k < |reg|
      ensures CellOf(reg[k], w) == SendCell(d, k, rows, columns)
    {
      CellOfOffset(SendCell(d, k, rows, columns).0, SendCell(d, k, rows, columns).1, w);
    }
  }

  /** Moving k strides of w down from row i lands on row i + k. */
  lemma ColumnStep(k: int, w: int)
    ensures forall i, j :: Offset(i, j, w) + k * w == Offset(i + k, j, w)
  {
    forall i, j
      ensures Offset(i, j, w) + k * w == Offset(i + k, j, w)
    {
      assert (i + k) * w == i * w + k * w;
    }
  }

  /** Every send on side d is as long as the receive its partner posts on the
      opposite side. */
  lemma MatchedLengths(d: Dir, rows: nat, columns: nat)
    ensures |SendRegion(d, rows, columns)| == |RecvRegion(Opposite(d), rows, columns)|
  {
    SendRegionCells(d, rows, columns);
    RecvRegionCells(Opposite(d), rows, columns);
  }

  /** Block-grid step from a worker to its neighbour on side d. */
  function Step(d: Dir): (int, int) {
    match d
    case Left => (0, -1)
    case Right => (0, 1)
    case Up => (-1, 0)
    case Down => (1, 0)
  }

  /** Global field cell of local cell (x, y) of block (bi, bj). */
  function Global(bi: int, bj: int, x: int, y: int, rows: nat, columns: nat): (int, int) {
    (bi * rows + x - 1, bj * columns + y - 1)
  }

  /** Orientation: the k-th halo cell received on side d is the global cell
      whose value the neighbour on side d sends as the k-th element of its
      opposite edge line, so nothing is transposed or reversed. */
  lemma Alignment(d: Dir, k: int, bi: int, bj: int, rows: nat, columns: nat)
    ensures var (x, y) := RecvCell(d, k, rows, columns);
      var (x', y') := SendCell(Opposite(d), k, rows, columns);
      Global(bi, bj, x, y, rows, columns) == Global(bi + Step(d).0, bj + Step(d).1, x', y', rows, columns)
  {
    assert (bi + 1) * rows == bi * rows + rows;
    assert (bi - 1) * rows == bi * rows - rows;
    assert (bj + 1) * columns == bj * columns + columns;
    assert (bj - 1) * columns == bj * columns - columns;
  }

  /** Receives write only the halo ring and never a corner; sends read only
      owned cells. */
  lemma RegionsOnRingAndOwned(d: Dir, k: int, rows: nat, columns: nat)
    requires rows >= 1 && columns >= 1 && 0 <= k < Count(d, rows, columns)
    ensures var (x, y) := RecvCell(d, k, rows, columns);
      InBlock(x, y, rows, columns) && !Owned(x, y, rows, columns) && !Corner(x, y, rows, columns)
    ensures var (x, y) := SendCell(d, k, rows, columns); Owned(x, y, rows, columns)
  {
  }

  /** The four receive regions are pairwise disjoint, and within one region
      every element has its own cell. */
  lemma RecvDisjoint(d: Dir, k: int, d': Dir, k': int, rows: nat, columns: nat)
    requires 0 <= k < Count(d, rows, columns) && 0 <= k' < Count(d', rows, columns)
    ensures RecvCell(d, k, rows, columns) == RecvCell(d', k', rows, columns) ==> d == d' && k == k'
  {
  }

  /** Cell (x, y) lies on the halo line facing d, excluding corners. */
  predicate OnRecv(d: Dir, x: int, y: int, rows: nat, columns: nat) {
    match d
    case Left => y == 0 && 1 <= x <= rows
    case Right => y == columns + 1 && 1 <= x <= rows
    case Up => x == 0 && 1 <= y <= columns
    case Down => x == rows + 1 && 1 <= y <= columns
  }

  /** The neighbour's cell that halo cell (x, y) on side d mirrors: the column
      next to the shared border for left and right, the row next to it for up
      and down. */
  function Partner(d: Dir, x: int, y: int, rows: nat, columns: nat): (int, int) {
    match d
    case Left => (x, columns)
    case Right => (x, 1)
    case Up => (rows, y)
    case Down => (1, y)
  }

  /** The regions described cell by cell: RecvCell(d, k) is on line d, and
      the element sent to it is the partner cell. */
  lemma RecvCellOnRecv(d: Dir, k: int, rows: nat, columns: nat)
    requires 0 <= k < Count(d, rows, columns)
    ensures OnRecv(d, RecvCell(d, k, rows, columns).0, RecvCell(d, k, rows, columns).1, rows, columns)
    ensures Partner(d, RecvCell(d, k, rows, columns).0, RecvCell(d, k, rows, columns).1, rows, columns)
      == SendCell(Opposite(d), k, rows, columns)
  {
  }

  /** The index of halo cell (x, y) within the receive region on side d. */
  function RecvIndex(d: Dir, x: int, y: int): int {
    if d == Left || d == Right then x - 1 else y - 1
  }

  /** Every cell on line d is some element of the receive region. */
  lemma OnRecvIsRecvCell(d: Dir, x: int, y: int, rows: nat, columns: nat)
    requires OnRecv(d, x, y, rows, columns)
    ensures 0 <= RecvIndex(d, x, y) < Count(d, rows, columns)
    ensures RecvCell(d, RecvIndex(d, x, y), rows, columns) == (x, y)
  {
  }

  /** Block g with cell (x, y) set to v. */
  function SetCell(g: Grid<real>, x: int, y: int, v: real): (g': Grid<real>)
    requires 0 <= x < |g| && 0 <= y < |g[x]|
    ensures |g'| == |g| && forall i :: 0 <= i < |g| ==> |g'[i]| == |g[i]|
  {
    g[x := g[x][y := v]]
  }

  /** Every offset of reg names a cell of an n x w block. */
  predicate RegionInBlock(reg: seq<int>, n: nat, w: nat) {
    w >= 1 && forall k :: 0 <= k < |reg| ==> 0 <= CellOf(reg[k], w).0 < n
  }

  /** Unpacking a message: vals[k] stored at offset reg[k], one after another. */
  function WriteRegion(g: Grid<real>, reg: seq<int>, vals: seq<real>, w: nat): (g': Grid<real>)
    requires IsGrid(g, |g|, w) && RegionInBlock(reg, |g|, w) && |vals| == |reg|
    ensures IsGrid(g', |g|, w)
    decreases |reg|
  {
    if |reg| == 0 then g
    else
      var (x, y) := CellOf(reg[0], w);
      WriteRegion(SetCell(g, x, y, vals[0]), reg[1..], vals[1..], w)
  }

  /** Packing a message: the values at the offsets of reg, in order. */
  function ReadRegion(g: Grid<real>, reg: seq<int>, w: nat): (vals: seq<real>)
    requires IsGrid(g, |g|, w) && RegionInBlock(reg, |g|, w)
    ensures |vals| == |reg|
  {
    seq(|reg|, k requires 0 <= k < |reg| => g[CellOf(reg[k], w).0][CellOf(reg[k], w).1])
  }

  /** With distinct offsets each offset ends up holding its own message
      element and every other cell keeps its value. */
  lemma {:induction false} WriteRegionAt(g: Grid<real>, reg: seq<int>, vals: seq<real>, w: nat)
    requires IsGrid(g, |g|, w) && RegionInBlock(reg, |g|, w) && |vals| == |reg|
    requires forall k, k' :: 0 <= k < k' < |reg| ==> reg[k] != reg[k']
    ensures forall k :: 0 <= k < |reg| ==>
      WriteRegion(g, reg, vals, w)[CellOf(reg[k], w).0][CellOf(reg[k], w).1] == vals[k]
    ensures forall x, y :: 0 <= x < |g| && 0 <= y < w && Offset(x, y, w) !in reg ==>
      WriteRegion(g, reg, vals, w)[x][y] == g[x][y]
    decreases |reg|
  {
    if |reg| > 0 {
      var (x0, y0) := CellOf(reg[0], w);
      var g1 := SetCell(g, x0, y0, vals[0]);
      var rest := reg[1..];
      assert forall k :: 0 <= k < |rest| ==> rest[k] == reg[k + 1];
      WriteRegionAt(g1, rest, vals[1..], w);
      var r := WriteRegion(g, reg, vals, w);
      assert r == WriteRegion(g1, rest, vals[1..], w);
      forall k | 0 <= k < |reg|
        ensures r[CellOf(reg[k], w).0][CellOf(reg[k], w).1] == vals[k]
      {
        if k == 0 {
          CellOfOffset(x0, y0, w);
          assert reg[0] !in rest;
        } else {
          assert reg[k] == rest[k - 1];
        }
      }
      forall x, y | 0 <= x < |g| && 0 <= y < w && Offset(x, y, w) !in reg
        ensures r[x][y] == g[x][y]
      {
        assert Offset(x, y, w) !in rest;
        assert (x, y) != (x0, y0);
      }
    }
  }

  /** Worker b receiving on side d from neighbour block nb: nb's opposite send
      region unpacked into b's receive region. */
  function Receive(b: Grid<real>, d: Dir, nb: Grid<real>, rows: nat, columns: nat): (b': Grid<real>)
    requires IsGrid(b, rows + 2, columns + 2) && IsGrid(nb, rows + 2, columns + 2)
    ensures IsGrid(b', rows + 2, columns + 2)
  {
    RecvRegionCells(d, rows, columns);
    SendRegionCells(Opposite(d), rows, columns);
    MatchedLengths(Opposite(d), rows, columns);
    var w := Width(columns);
    WriteRegion(b, RecvRegion(d, rows, columns), ReadRegion(nb, SendRegion(Opposite(d), rows, columns), w), w)
  }

  /** A receive sets exactly the halo line facing d to the neighbour's
      partner cells and leaves every other cell of the block alone. */
  lemma ReceiveSpec(b: Grid<real>, d: Dir, nb: Grid<real>, rows: nat, columns: nat)
    requires IsGrid(b, rows + 2, columns + 2) && IsGrid(nb, rows + 2, columns + 2)
    ensures forall x, y :: InBlock(x, y, rows, columns) ==>
      Receive(b, d, nb, rows, columns)[x][y]
      == if OnRecv(d, x, y, rows, columns)
         then nb[Partner(d, x, y, rows, columns).0][Partner(d, x, y, rows, columns).1]
         else b[x][y]
  {
    var r := Receive(b, d, nb, rows, columns);
    ReceiveWrites(b, d, nb, rows, columns);
    forall x, y | InBlock(x, y, rows, columns) && OnRecv(d, x, y, rows, columns)
      ensures r[x][y] == nb[Partner(d, x, y, rows, columns).0][Partner(d, x, y, rows, columns).1]
    {
      var k := RecvIndex(d, x, y);
      OnRecvIsRecvCell(d, x, y, rows, columns);
      RecvCellOnRecv(d, k, rows, columns);
    }
  }

  /** The receive in terms of the regions: the k-th receive cell gets the
      neighbour's k-th send cell, and cells off the receive line are kept. */
  lemma ReceiveWrites(b: Grid<real>, d: Dir, nb: Grid<real>, rows: nat, columns: nat)
    requires IsGrid(b, rows + 2, columns + 2) && IsGrid(nb, rows + 2, columns + 2)
    ensures forall k :: 0 <= k < Count(d, rows, columns) ==>
      && 0 <= SendCell(Opposite(d), k, rows, columns).0 < rows + 2
      && 0 <= SendCell(Opposite(d), k, rows, columns).1 < columns + 2
      && 0 <= RecvCell(d, k, rows, columns).0 < rows + 2
      && 0 <= RecvCell(d, k, rows, columns).1 < columns + 2
      && Receive(b, d, nb, rows, columns)[RecvCell(d, k, rows, columns).0][RecvCell(d, k, rows, columns).1]
         == nb[SendCell(Opposite(d), k, rows, columns).0][SendCell(Opposite(d), k, rows, columns).1]
    ensures forall x, y :: InBlock(x, y, rows, columns) && !OnRecv(d, x, y, rows, columns) ==>
      Receive(b, d, nb, rows, columns)[x][y] == b[x][y]
  {
    var w := Width(columns);
    var reg := RecvRegion(d, rows, columns);
    var sreg := SendRegion(Opposite(d), rows, columns);
    RecvRegionCells(d, rows, columns);
    SendRegionCells(Opposite(d), rows, columns);
    MatchedLengths(Opposite(d), rows, columns);
    var vals := ReadRegion(nb, sreg, w);
    RecvDistinct(d, rows, columns);
    WriteRegionAt(b, reg, vals, w);
    ReceiveKeeps(b, d, nb, rows, columns);
  }

  /** No receive region names a cell twice. */
  lemma RecvDistinct(d: Dir, rows: nat, columns: nat)
    ensures forall k, k' :: 0 <= k < k' < |RecvRegion(d, rows, columns)| ==>
      RecvRegion(d, rows, columns)[k] != RecvRegion(d, rows, columns)[k']
  {
    var reg := RecvRegion(d, rows, columns);
    forall k, k' | 0 <= k < k' < |reg|
      ensures reg[k] != reg[k']
    {
      RecvDisjoint(d, k, d, k', rows, columns);
    }
  }

  /** A receive leaves every cell off its halo line alone. */
  lemma ReceiveKeeps(b: Grid<real>, d: Dir, nb: Grid<real>, rows: nat, columns: nat)
    requires IsGrid(b, rows + 2, columns + 2) && IsGrid(nb, rows + 2, columns + 2)
    ensures forall x, y :: InBlock(x, y, rows, columns) && !OnRecv(d, x, y, rows, columns) ==>
      Receive(b, d, nb, rows, columns)[x][y] == b[x][y]
  {
    var w := Width(columns);
    var reg := RecvRegion(d, rows, columns);
    var sreg := SendRegion(Opposite(d), rows, columns);
    RecvRegionCells(d, rows, columns);
    SendRegionCells(Opposite(d), rows, columns);
    MatchedLengths(Opposite(d), rows, columns);
    var vals := ReadRegion(nb, sreg, w);
    RecvDistinct(d, rows, columns);
    WriteRegionAt(b, reg, vals, w);
    var r := Receive(b, d, nb, rows, columns);
    forall x, y | InBlock(x, y, rows, columns) && !OnRecv(d, x, y, rows, columns)
      ensures r[x][y] == b[x][y]
    {
      CellOfOffset(x, y, w);
      forall k | 0 <= k < |reg|
        ensures reg[k] != Offset(x, y, w)
      {
        RecvCellOnRecv(d, k, rows, columns);
      }
    }
  }

  /** Every neighbour rank in the table names one of n workers. */
  predicate RanksBelow(nb: Neighbors, n: nat) {
    && (nb.left.Proc? ==> nb.left.id < n)
    && (nb.right.Proc? ==> nb.right.id < n)
    && (nb.up.Proc? ==> nb.up.id < n)
    && (nb.down.Proc? ==> nb.down.id < n)
  }

  /** A receive from MPI_PROC_NULL completes without touching the buffer. */
  function ReceiveFrom(b: Grid<real>, d: Dir, r: Rank, bs: seq<Grid<real>>, rows: nat, columns: nat): (b': Grid<real>)
    requires IsGrid(b, rows + 2, columns + 2) && Blocks(bs, rows, columns)
    requires r.Proc? ==> r.id < |bs|
    ensures IsGrid(b', rows + 2, columns + 2)
  {
    match r
    case NoProc => b
    case Proc(n) => Receive(b, d, bs[n], rows, columns)
  }

  /** One worker's four receives in program order (left, right, down, up),
      each reading its neighbour's block as it was before the exchange. */
  function ExchangeBlock(bs: seq<Grid<real>>, nb: Neighbors, me: nat, rows: nat, columns: nat): (b': Grid<real>)
    requires me < |bs| && Blocks(bs, rows, columns) && RanksBelow(nb, |bs|)
    ensures IsGrid(b', rows + 2, columns + 2)
  {
    var b1 := ReceiveFrom(bs[me], Left, nb.left, bs, rows, columns);
    var b2 := ReceiveFrom(b1, Right, nb.right, bs, rows, columns);
    var b3 := ReceiveFrom(b2, Down, nb.down, bs, rows, columns);
    ReceiveFrom(b3, Up, nb.up, bs, rows, columns)
  }

  /** The neighbour rank on side d. */
  function Side(nb: Neighbors, d: Dir): Rank {
    match d
    case Left => nb.left
    case Right => nb.right
    case Up => nb.up
    case Down => nb.down
  }

  /** Reference value of cell (x, y) after the exchange: on a halo line facing
      a worker, that worker's partner cell; anywhere else, the old value. */
  function Exchanged(bs: seq<Grid<real>>, nb: Neighbors, me: nat, x: int, y: int, rows: nat, columns: nat): real
    requires me < |bs| && Blocks(bs, rows, columns) && RanksBelow(nb, |bs|) && InBlock(x, y, rows, columns)
  {
    if OnRecv(Left, x, y, rows, columns) && nb.left.Proc? then bs[nb.left.id][x][columns]
    else if OnRecv(Right, x, y, rows, columns) && nb.right.Proc? then bs[nb.right.id][x][1]
    else if OnRecv(Up, x, y, rows, columns) && nb.up.Proc? then bs[nb.up.id][rows][y]
    else if OnRecv(Down, x, y, rows, columns) && nb.down.Proc? then bs[nb.down.id][1][y]
    else bs[me][x][y]
  }

  /** The region-by-region exchange agrees with the cell-by-cell reference:
      each halo line facing a worker holds that worker's adjacent edge line,
      and the owned cells, the corners and the lines facing no worker keep
      their values. */
  lemma ExchangeBlockSpec(bs: seq<Grid<real>>, nb: Neighbors, me: nat, rows: nat, columns: nat)
    requires me < |bs| && Blocks(bs, rows, columns) && RanksBelow(nb, |bs|)
    ensures forall x, y :: InBlock(x, y, rows, columns) ==>
      ExchangeBlock(bs, nb, me, rows, columns)[x][y] == Exchanged(bs, nb, me, x, y, rows, columns)
  {
    var b1 := ReceiveFrom(bs[me], Left, nb.left, bs, rows, columns);
    var b2 := ReceiveFrom(b1, Right, nb.right, bs, rows, columns);
    var b3 := ReceiveFrom(b2, Down, nb.down, bs, rows, columns);
    if nb.left.Proc? { ReceiveSpec(bs[me], Left, bs[nb.left.id], rows, columns); }
    if nb.right.Proc? { ReceiveSpec(b1, Right, bs[nb.right.id], rows, columns); }
    if nb.down.Proc? { ReceiveSpec(b2, Down, bs[nb.down.id], rows, columns); }
    if nb.up.Proc? { ReceiveSpec(b3, Up, bs[nb.up.id], rows, columns); }
  }

  /** Every worker's exchange, all reading the blocks as they were before it. */
  function Exchange(bs: seq<Grid<real>>, table: seq<Neighbors>, rows: nat, columns: nat): (bs': seq<Grid<real>>)
    requires |table| == |bs| && Blocks(bs, rows, columns)
    requires forall i :: 0 <= i < |table| ==> RanksBelow(table[i], |bs|)
    ensures |bs'| == |bs| && Blocks(bs', rows, columns)
  {
    seq(|bs|, me requires 0 <= me < |bs| => ExchangeBlock(bs, table[me], me, rows, columns))
  }

  /** Owned cells are never changed by the exchange. */
  lemma ExchangeKeepsOwned(bs: seq<Grid<real>>, table: seq<Neighbors>, rows: nat, columns: nat)
    requires |table| == |bs| && Blocks(bs, rows, columns)
    requires forall i :: 0 <= i < |table| ==> RanksBelow(table[i], |bs|)
    ensures forall me, x, y :: 0 <= me < |bs| && Owned(x, y, rows, columns) ==>
      Exchange(bs, table, rows, columns)[me][x][y] == bs[me][x][y]
  {
    forall me | 0 <= me < |bs|
      ensures forall x, y :: Owned(x, y, rows, columns) ==>
        Exchange(bs, table, rows, columns)[me][x][y] == bs[me][x][y]
    {
      ExchangeBlockSpec(bs, table[me], me, rows, columns);
    }
  }

  /** Exchanging twice is exchanging once: the second round sends the same
      owned cells again. The program relies on this when the persistent
      requests of lines 283-294 exchange buffer 0 once before the loop and the
      first iteration exchanges the same buffer again. */
  lemma ExchangeIdempotent(bs: seq<Grid<real>>, table: seq<Neighbors>, rows: nat, columns: nat)
    requires rows >= 1 && columns >= 1
    requires |table| == |bs| && Blocks(bs, rows, columns)
    requires forall i :: 0 <= i < |table| ==> RanksBelow(table[i], |bs|)
    ensures Exchange(Exchange(bs, table, rows, columns), table, rows, columns) == Exchange(bs, table, rows, columns)
  {
    var once := Exchange(bs, table, rows, columns);
    var twice := Exchange(once, table, rows, columns);
    ExchangeKeepsOwned(bs, table, rows, columns);
    forall me | 0 <= me < |bs|
      ensures twice[me] == once[me]
    {
      ExchangeBlockAgain(bs, once, table[me], me, rows, columns);
    }
  }

  /** One worker's block after a second exchange whose neighbours' owned
      cells are those of the first. */
  lemma ExchangeBlockAgain(bs: seq<Grid<real>>, once: seq<Grid<real>>, nb: Neighbors, me: nat, rows: nat, columns: nat)
    requires rows >= 1 && columns >= 1
    requires me < |bs| == |once| && Blocks(bs, rows, columns) && Blocks(once, rows, columns) && RanksBelow(nb, |bs|)
    requires once[me] == ExchangeBlock(bs, nb, me, rows, columns)
    requires forall k, x, y :: 0 <= k < |bs| && Owned(x, y, rows, columns) ==> once[k][x][y] == bs[k][x][y]
    ensures ExchangeBlock(once, nb, me, rows, columns) == once[me]
  {
    var again := ExchangeBlock(once, nb, me, rows, columns);
    ExchangeBlockSpec(bs, nb, me, rows, columns);
    ExchangeBlockSpec(once, nb, me, rows, columns);
    forall x, y | InBlock(x, y, rows, columns)
      ensures again[x][y] == once[me][x][y]
    {
      ExchangedAgain(bs, once, nb, me, x, y, rows, columns);
    }
    GridExtensional(again, once[me], rows + 2, columns + 2);
  }

  /** One cell of ExchangeBlockAgain: a halo line facing a worker reads that
      worker's owned partner cell, which the first exchange left alone. */
  lemma ExchangedAgain(bs: seq<Grid<real>>, once: seq<Grid<real>>, nb: Neighbors, me: nat, x: int, y: int, rows: nat, columns: nat)
    requires rows >= 1 && columns >= 1
    requires me < |bs| == |once| && Blocks(bs, rows, columns) && Blocks(once, rows, columns) && RanksBelow(nb, |bs|)
    requires InBlock(x, y, rows, columns)
    requires once[me][x][y] == Exchanged(bs, nb, me, x, y, rows, columns)
    requires forall k, x, y :: 0 <= k < |bs| && Owned(x, y, rows, columns) ==> once[k][x][y] == bs[k][x][y]
    ensures Exchanged(once, nb, me, x, y, rows, columns) == once[me][x][y]
  {
    if OnRecv(Left, x, y, rows, columns) && nb.left.Proc? {
      assert Owned(x, columns, rows, columns);
      assert once[nb.left.id][x][columns] == bs[nb.left.id][x][columns];
    } else if OnRecv(Right, x, y, rows, columns) && nb.right.Proc? {
      assert Owned(x, 1, rows, columns);
      assert once[nb.right.id][x][1] == bs[nb.right.id][x][1];
    } else if OnRecv(Up, x, y, rows, columns) && nb.up.Proc? {
      assert Owned(rows, y, rows, columns);
      assert once[nb.up.id][rows][y] == bs[nb.up.id][rows][y];
    } else if OnRecv(Down, x, y, rows, columns) && nb.down.Proc? {
      assert Owned(1, y, rows, columns);
      assert once[nb.down.id][1][y] == bs[nb.down.id][1][y];
    }
  }

  /** Two n x m grids that agree on every cell are equal. */
  lemma GridExtensional(a: Grid<real>, b: Grid<real>, n: nat, m: nat)
    requires IsGrid(a, n, m) && IsGrid(b, n, m)
    requires forall x, y :: 0 <= x < n && 0 <= y < m ==> a[x][y] == b[x][y]
    ensures a == b
  {
    forall x | 0 <= x < n
      ensures a[x] == b[x]
    {
    }
  }
}
