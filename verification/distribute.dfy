/** The distributor: MPI_Scatterv of the global field into the workers' haloed
    blocks before the time loop and MPI_Gatherv back afterwards.

    The global field u is the flat row-major array `&u[0][0]` of NX*NY floats.
    The send type is an NX x NY subarray of size rows x columns starting at
    (0, 0), so element (r, c) of a send item lies at flat offset r*NY + c from
    where the item starts; the item for worker k starts displs[k] extents into
    u, and the type is resized to an extent of `columns` floats. The receive
    type is the rows x columns interior, starting at (1, 1), of a
    (rows+2) x (columns+2) block. Both subarrays list their elements in
    row-major order, so element e of a message is interior cell
    (e / columns, e % columns) on both sides. MPI requires subarray sizes of at
    least 1, hence rows >= 1 and columns >= 1 throughout. */
module Distribute {
  import opened Layout

  /** Closed form of the displacement of block (i, j) in units of the send
      type's extent. */
  function ClosedDispl(i: int, j: int, rows: int, ydim: int): int {
    i * rows * ydim + j
  }

  /** The displacement loop of lines 250-257. */
  method ComputeDispls(xdim: nat, ydim: nat, rows: nat) returns (displs: seq<int>)
    requires ydim >= 1
    ensures |displs| == xdim * ydim
    ensures forall k :: 0 <= k < |displs| ==>
      displs[k] == ClosedDispl(CellOf(k, ydim).0, CellOf(k, ydim).1, rows, ydim)
  {
    displs := [];
    var disp := 0;
    var i := 0;
    while i < xdim
      invariant 0 <= i <= xdim
      invariant |displs| == i * ydim
      invariant disp == i * rows * ydim
      invariant forall k :: 0 <= k < |displs| ==>
        displs[k] == ClosedDispl(CellOf(k, ydim).0, CellOf(k, ydim).1, rows, ydim)
    {
      var j := 0;
      while j < ydim
        invariant 0 <= j <= ydim
        invariant |displs| == i * ydim + j
        invariant disp == i * rows * ydim + j
        invariant forall k :: 0 <= k < |displs| ==>
          displs[k] == ClosedDispl(CellOf(k, ydim).0, CellOf(k, ydim).1, rows, ydim)
      {
        CellOfOffset(i, j, ydim);
        displs := displs + [disp];
        disp := disp + 1;
        j := j + 1;
      }
      assert disp + (rows - 1) * ydim == (i + 1) * rows * ydim;
      disp := disp + (rows - 1) * ydim;
      i := i + 1;
    }
  }

  /** How the root's flat buffer u is cut into send items: worker k's item
      starts displs[k] * extent floats into u. */
  datatype Placement = Placement(extent: int, displs: seq<int>)

  /** The placement the program builds: extent `columns` (the resized send
      type) and the displacements of the loop above. */
  function AsWritten(xdim: nat, ydim: nat, rows: nat, columns: nat): (p: Placement)
    requires ydim >= 1
  {
    Placement(columns, seq(xdim * ydim, k requires 0 <= k < xdim * ydim =>
      ClosedDispl(CellOf(k, ydim).0, CellOf(k, ydim).1, rows, ydim)))
  }

  /** Flat offset in u of element (r, c) of worker k's send item. */
  function SendOffset(p: Placement, ny: int, k: int, r: int, c: int): int
    requires 0 <= k < |p.displs|
  {
    p.displs[k] * p.extent + Offset(r, c, ny)
  }

  /** Every element of every send item lies inside u. */
  predicate Fits(p: Placement, size: int, ny: int, rows: nat, columns: nat) {
    forall k, r, c :: 0 <= k < |p.displs| && 0 <= r < rows && 0 <= c < columns ==>
      0 <= SendOffset(p, ny, k, r, c) < size
  }

  /** Where cell (r, c) of block k = i*ydim + j belongs in the field: row
      i*rows + r, column j*columns + c. */
  function FieldOffset(ny: int, ydim: nat, rows: nat, columns: nat, k: int, r: int, c: int): int
    requires ydim >= 1
  {
    Offset(CellOf(k, ydim).0 * rows + r, CellOf(k, ydim).1 * columns + c, ny)
  }

  /** The intended geometry: worker k = i*ydim + j gets the rows x columns
      rectangle of the field whose top-left cell is (i*rows, j*columns). */
  predicate PlacesBlocks(p: Placement, ny: int, xdim: nat, ydim: nat, rows: nat, columns: nat)
    requires ydim >= 1
  {
    && |p.displs| == xdim * ydim
    && forall k, r, c :: 0 <= k < xdim * ydim && 0 <= r < rows && 0 <= c < columns ==>
         SendOffset(p, ny, k, r, c) == FieldOffset(ny, ydim, rows, columns, k, r, c)
  }

  /** When ydim*columns == NY the program's placement has the intended geometry. */
  lemma AsWrittenPlacesBlocks(xdim: nat, ydim: nat, rows: nat, columns: nat, ny: int)
    requires ydim >= 1 && ydim * columns == ny
    ensures PlacesBlocks(AsWritten(xdim, ydim, rows, columns), ny, xdim, ydim, rows, columns)
  {
    var p := AsWritten(xdim, ydim, rows, columns);
    forall k, r, c | 0 <= k < xdim * ydim && 0 <= r < rows && 0 <= c < columns
      ensures SendOffset(p, ny, k, r, c) == FieldOffset(ny, ydim, rows, columns, k, r, c)
    {
      var (i, j) := CellOf(k, ydim);
      calc {
        SendOffset(p, ny, k, r, c);
        (i * rows * ydim + j) * columns + r * ny + c;
        i * rows * (ydim * columns) + j * columns + r * ny + c;
        i * rows * ny + j * columns + r * ny + c;
        (i * rows + r) * ny + j * columns + c;
      }
    }
  }

  /** The displacement step of the loop, (rows-1)*ydim extents of `columns`
      floats per block-row, is replaced by offsets counted in single floats:
      block (i, j) starts at cell (i*rows, j*columns) whatever NY is. */
  function Corrected(xdim: nat, ydim: nat, rows: nat, columns: nat, ny: int): (p: Placement)
    requires ydim >= 1
  {
    Placement(1, seq(xdim * ydim, k requires 0 <= k < xdim * ydim =>
      Offset(CellOf(k, ydim).0 * rows, CellOf(k, ydim).1 * columns, ny)))
  }

  /** The corrected placement has the intended geometry for every NY. */
  lemma CorrectedPlacesBlocks(xdim: nat, ydim: nat, rows: nat, columns: nat, ny: int)
    requires ydim >= 1
    ensures PlacesBlocks(Corrected(xdim, ydim, rows, columns, ny), ny, xdim, ydim, rows, columns)
  {
    var p := Corrected(xdim, ydim, rows, columns, ny);
    forall k, r, c | 0 <= k < xdim * ydim && 0 <= r < rows && 0 <= c < columns
      ensures SendOffset(p, ny, k, r, c) == FieldOffset(ny, ydim, rows, columns, k, r, c)
    {
      var (i, j) := CellOf(k, ydim);
      calc {
        SendOffset(p, ny, k, r, c);
        (i * rows) * ny + j * columns + r * ny + c;
        (i * rows + r) * ny + j * columns + c;
      }
    }
  }

  /** A placement with the intended geometry keeps every item inside an
      nx x ny field that the block grid fits in. */
  lemma PlacedFits(p: Placement, nx: nat, ny: nat, xdim: nat, ydim: nat, rows: nat, columns: nat)
    requires ydim >= 1 && PlacesBlocks(p, ny, xdim, ydim, rows, columns)
    requires xdim * rows <= nx && ydim * columns <= ny
    ensures Fits(p, nx * ny, ny, rows, columns)
  {
    forall k, r, c | 0 <= k < |p.displs| && 0 <= r < rows && 0 <= c < columns
      ensures 0 <= SendOffset(p, ny, k, r, c) < nx * ny
    {
      var (i, j) := CellOf(k, ydim);
      BlockCellInField(i, j, r, c, xdim, ydim, rows, columns, k);
      OffsetInRange(i * rows + r, j * columns + c, xdim * rows, ny);
      assert xdim * rows * ny <= nx * ny;
    }
  }

  /** Cell (r, c) of block (i, j) = CellOf(k, ydim) lies inside the
      (xdim*rows) x (ydim*columns) region the block grid covers. */
  lemma BlockCellInField(i: int, j: int, r: int, c: int, xdim: nat, ydim: nat, rows: nat, columns: nat, k: int)
    requires ydim >= 1 && 0 <= k < xdim * ydim && (i, j) == CellOf(k, ydim)
    requires 0 <= r < rows && 0 <= c < columns
    ensures 0 <= i < xdim && 0 <= j < ydim
    ensures 0 <= i * rows + r < xdim * rows
    ensures 0 <= j * columns + c < ydim * columns
  {
    MulSign(i, ydim);
    MulSign(xdim - i, ydim);
    assert (xdim - i) * ydim == xdim * ydim - i * ydim;
    OffsetInRange(i, r, xdim, rows);
    OffsetInRange(j, c, ydim, columns);
  }

  /** The program's placement always stays inside u, drift or not. */
  lemma AsWrittenFits(nx: nat, ny: nat, xdim: nat, ydim: nat, rows: nat, columns: nat)
    requires ydim >= 1 && xdim * rows <= nx && ydim * columns <= ny
    ensures Fits(AsWritten(xdim, ydim, rows, columns), nx * ny, ny, rows, columns)
  {
    var p := AsWritten(xdim, ydim, rows, columns);
    forall k, r, c | 0 <= k < |p.displs| && 0 <= r < rows && 0 <= c < columns
      ensures 0 <= SendOffset(p, ny, k, r, c) < nx * ny
    {
      var (i, j) := CellOf(k, ydim);
      BlockCellInField(i, j, r, c, xdim, ydim, rows, columns, k);
      AsWrittenOffsetBound(i, j, r, c, nx, ny, xdim, ydim, rows, columns);
    }
  }

  /** Arithmetic of AsWrittenFits for one element: block-row i starts at
      i*rows*ydim*columns <= i*rows*NY, and the element adds less than rows*NY. */
  lemma AsWrittenOffsetBound(i: int, j: int, r: int, c: int, nx: nat, ny: nat, xdim: nat, ydim: nat, rows: nat, columns: nat)
    requires 0 <= i < xdim && 0 <= r < rows && 0 <= c < columns
    requires 0 <= j * columns + c < ydim * columns
    requires xdim * rows <= nx && ydim * columns <= ny
    ensures 0 <= ClosedDispl(i, j, rows, ydim) * columns + Offset(r, c, ny) < nx * ny
  {
    var a := i * rows;
    var w := ydim * columns;
    assert ClosedDispl(i, j, rows, ydim) * columns + Offset(r, c, ny) == a * w + (j * columns + c) + r * ny by {
      ClosedDisplScaled(a, i, j, rows, ydim, columns);
    }
    assert 0 <= a * w <= a * ny by {
      MulSign(i, rows + 1);
      MulLe(a, w, ny);
      MulSign(a, w + 1);
    }
    assert 0 <= r * ny <= (rows - 1) * ny by {
      MulLe(ny, r, rows - 1);
      MulSign(r, ny + 1);
    }
    assert a * ny + ny + (rows - 1) * ny <= nx * ny by {
      RowBlockEnd(a, ny, rows);
      BlockRowsFit(i, rows, xdim, nx, ny);
    }
    SumBound(ClosedDispl(i, j, rows, ydim) * columns + Offset(r, c, ny), a * w, a * ny,
             j * columns + c, r * ny, (rows - 1) * ny, ny, nx * ny);
  }

  /** The linear step of AsWrittenOffsetBound, with the products as plain numbers. */
  lemma SumBound(o: int, p: int, q: int, e: int, s: int, t: int, ny: int, n: int)
    requires o == p + e + s && 0 <= p <= q && 0 <= e < ny && 0 <= s <= t && q + ny + t <= n
    ensures 0 <= o < n
  {
  }

  /** Block-rows 0 .. i end within the first xdim*rows <= NX rows. */
  lemma BlockRowsFit(i: int, rows: nat, xdim: nat, nx: nat, ny: nat)
    requires 0 <= i < xdim && xdim * rows <= nx
    ensures (i * rows + rows) * ny <= nx * ny
  {
    MulLe(rows, i + 1, xdim);
    assert i * rows + rows <= nx;
    MulLe(ny, i * rows + rows, nx);
  }

  /** The displacement of block (i, j) in floats, split at the block-row start. */
  lemma ClosedDisplScaled(a: int, i: int, j: int, rows: int, ydim: int, columns: int)
    requires a == i * rows
    ensures ClosedDispl(i, j, rows, ydim) * columns == a * (ydim * columns) + j * columns
  {
    calc {
      ClosedDispl(i, j, rows, ydim) * columns;
      (a * ydim + j) * columns;
      a * ydim * columns + j * columns;
    }
  }

  /** Rows a .. a+rows-1 of an NY-wide field end at (a+rows)*NY. */
  lemma RowBlockEnd(a: int, ny: int, rows: int)
    ensures a * ny + ny + (rows - 1) * ny == (a + rows) * ny
  {
  }

  /** The haloed block worker k holds after the scatter: interior cell
      (1+r, 1+c) receives send element (r, c); the halo ring keeps the zeros
      written at lines 214-217. */
  function ScatterBlock(u: seq<real>, p: Placement, ny: int, rows: nat, columns: nat, k: nat): (b: Grid<real>)
    requires k < |p.displs| && Fits(p, |u|, ny, rows, columns)
    ensures IsGrid(b, rows + 2, columns + 2)
  {
    seq(rows + 2, x requires 0 <= x < rows + 2 =>
      seq(columns + 2, y requires 0 <= y < columns + 2 =>
        if 1 <= x <= rows && 1 <= y <= columns then u[SendOffset(p, ny, k, x - 1, y - 1)] else 0.0))
  }

  /** Every worker's block after the scatter. */
  function Scatter(u: seq<real>, p: Placement, ny: int, rows: nat, columns: nat): (bs: seq<Grid<real>>)
    requires Fits(p, |u|, ny, rows, columns)
    ensures |bs| == |p.displs|
  {
    seq(|p.displs|, k requires 0 <= k < |p.displs| => ScatterBlock(u, p, ny, rows, columns, k))
  }

  /** With the intended geometry, worker k = i*ydim + j receives
      local[1+r][1+c] = u[i*rows + r][j*columns + c] on its interior and zeros
      on its halo ring. */
  lemma ScatterPlacesCells(u: seq<real>, p: Placement, ny: nat, xdim: nat, ydim: nat, rows: nat, columns: nat)
    requires ydim >= 1 && PlacesBlocks(p, ny, xdim, ydim, rows, columns)
    requires Fits(p, |u|, ny, rows, columns)
    ensures forall k, r, c :: 0 <= k < xdim * ydim && 0 <= r < rows && 0 <= c < columns ==>
      0 <= FieldOffset(ny, ydim, rows, columns, k, r, c) < |u|
    ensures forall k, x, y :: 0 <= k < xdim * ydim && 0 <= x < rows + 2 && 0 <= y < columns + 2 ==>
      Scatter(u, p, ny, rows, columns)[k][x][y]
      == if 1 <= x <= rows && 1 <= y <= columns
         then u[FieldOffset(ny, ydim, rows, columns, k, x - 1, y - 1)]
         else 0.0
  {
    var bs := Scatter(u, p, ny, rows, columns);
    forall k, x, y | 0 <= k < xdim * ydim && 0 <= x < rows + 2 && 0 <= y < columns + 2
      ensures bs[k][x][y]
        == if 1 <= x <= rows && 1 <= y <= columns
           then u[FieldOffset(ny, ydim, rows, columns, k, x - 1, y - 1)]
           else 0.0
    {
      ScatterCell(u, p, ny, rows, columns, k, x, y);
      if 1 <= x <= rows && 1 <= y <= columns {
        assert SendOffset(p, ny, k, x - 1, y - 1) == FieldOffset(ny, ydim, rows, columns, k, x - 1, y - 1);
      }
    }
  }

  /** Cell (x, y) of worker k's block after the scatter: the element of u its
      send item names on the interior, zero on the halo ring. */
  lemma ScatterCell(u: seq<real>, p: Placement, ny: int, rows: nat, columns: nat, k: nat, x: int, y: int)
    requires Fits(p, |u|, ny, rows, columns) && k < |p.displs| && 0 <= x < rows + 2 && 0 <= y < columns + 2
    ensures 1 <= x <= rows && 1 <= y <= columns ==> 0 <= SendOffset(p, ny, k, x - 1, y - 1) < |u|
    ensures Scatter(u, p, ny, rows, columns)[k][x][y]
      == if 1 <= x <= rows && 1 <= y <= columns then u[SendOffset(p, ny, k, x - 1, y - 1)] else 0.0
  {
    assert Scatter(u, p, ny, rows, columns)[k] == ScatterBlock(u, p, ny, rows, columns, k);
  }

  /** Distinct (worker, row, column) triples are sent from distinct cells of u:
      the blocks do not overlap. */
  lemma PlacedInjective(p: Placement, ny: int, xdim: nat, ydim: nat, rows: nat, columns: nat,
                        k: int, r: int, c: int, k': int, r': int, c': int)
    requires ydim >= 1 && PlacesBlocks(p, ny, xdim, ydim, rows, columns) && ydim * columns <= ny
    requires 0 <= k < xdim * ydim && 0 <= r < rows && 0 <= c < columns
    requires 0 <= k' < xdim * ydim && 0 <= r' < rows && 0 <= c' < columns
    requires SendOffset(p, ny, k, r, c) == SendOffset(p, ny, k', r', c')
    ensures k == k' && r == r' && c == c'
  {
    var (i, j) := CellOf(k, ydim);
    var (i', j') := CellOf(k', ydim);
    BlockCellInField(i, j, r, c, xdim, ydim, rows, columns, k);
    BlockCellInField(i', j', r', c', xdim, ydim, rows, columns, k');
    OffsetInjective(i * rows + r, j * columns + c, i' * rows + r', j' * columns + c', ny);
    OffsetInjective(i, r, i', r', rows);
    OffsetInjective(j, c, j', c', columns);
  }

  /** Write vals[e] at offset offs[e], one after another. */
  function WriteAll(u: seq<real>, offs: seq<int>, vals: seq<real>): (u': seq<real>)
    requires |offs| == |vals| && forall e :: 0 <= e < |offs| ==> 0 <= offs[e] < |u|
    ensures |u'| == |u|
    decreases |offs|
  {
    if |offs| == 0 then u else WriteAll(u[offs[0] := vals[0]], offs[1..], vals[1..])
  }

  /** Writing back the values already stored changes nothing. */
  lemma {:induction false} WriteAllOwnValues(u: seq<real>, offs: seq<int>, vals: seq<real>)
    requires |offs| == |vals| && forall e :: 0 <= e < |offs| ==> 0 <= offs[e] < |u|
    requires forall e :: 0 <= e < |offs| ==> vals[e] == u[offs[e]]
    ensures WriteAll(u, offs, vals) == u
    decreases |offs|
  {
    if |offs| > 0 {
      assert u[offs[0] := vals[0]] == u;
      WriteAllOwnValues(u, offs[1..], vals[1..]);
    }
  }

  /** With pairwise distinct offsets, each offset ends up with its own value and
      every other element is untouched. */
  lemma {:induction false} WriteAllAt(u: seq<real>, offs: seq<int>, vals: seq<real>)
    requires |offs| == |vals| && forall e :: 0 <= e < |offs| ==> 0 <= offs[e] < |u|
    requires forall e, e' :: 0 <= e < e' < |offs| ==> offs[e] != offs[e']
    ensures forall e :: 0 <= e < |offs| ==> WriteAll(u, offs, vals)[offs[e]] == vals[e]
    ensures forall o :: 0 <= o < |u| && o !in offs ==> WriteAll(u, offs, vals)[o] == u[o]
    decreases |offs|
  {
    if |offs| > 0 {
      var u1 := u[offs[0] := vals[0]];
      WriteAllAt(u1, offs[1..], vals[1..]);
      forall e | 0 <= e < |offs|
        ensures WriteAll(u, offs, vals)[offs[e]] == vals[e]
      {
        if e > 0 {
          assert offs[e] == offs[1..][e - 1];
        } else {
          assert offs[0] !in offs[1..] by {
            forall e' | 0 <= e' < |offs[1..]|
              ensures offs[1..][e'] != offs[0]
            {
              assert offs[1..][e'] == offs[e' + 1];
            }
          }
        }
      }
      forall o | 0 <= o < |u| && o !in offs
        ensures WriteAll(u, offs, vals)[o] == u[o]
      {
        assert o !in offs[1..] by {
          forall e' | 0 <= e' < |offs[1..]|
            ensures offs[1..][e'] != o
          {
            assert offs[1..][e'] == offs[e' + 1];
          }
        }
      }
    }
  }

  /** The flat offsets worker k's gathered message lands on, in message order. */
  function BlockOffsets(p: Placement, ny: int, rows: nat, columns: nat, k: nat): (offs: seq<int>)
    requires columns >= 1 && k < |p.displs|
    ensures |offs| == rows * columns
  {
    seq(rows * columns, e requires 0 <= e < rows * columns =>
      SendOffset(p, ny, k, CellOf(e, columns).0, CellOf(e, columns).1))
  }

  /** The message worker k sends back: its interior in row-major order. */
  function BlockValues(b: Grid<real>, rows: nat, columns: nat): (vals: seq<real>)
    requires columns >= 1 && IsGrid(b, rows + 2, columns + 2)
    ensures |vals| == rows * columns
  {
    seq(rows * columns, e requires 0 <= e < rows * columns =>
      MessageCellInRange(e, rows, columns);
      b[1 + CellOf(e, columns).0][1 + CellOf(e, columns).1])
  }

  /** Element e of a rows x columns message is interior cell CellOf(e, columns). */
  lemma MessageCellInRange(e: int, rows: nat, columns: nat)
    requires columns >= 1 && 0 <= e < rows * columns
    ensures 0 <= CellOf(e, columns).0 < rows
  {
    var (r, c) := CellOf(e, columns);
    MulSign(r, columns);
    MulSign(rows - r, columns);
    assert (rows - r) * columns == rows * columns - r * columns;
  }

  /** Each item lists offsets inside a buffer of the given size, one per value
      of its message. */
  predicate ValidItems(items: seq<seq<int>>, msgs: seq<seq<real>>, size: int) {
    && |items| == |msgs|
    && (forall k :: 0 <= k < |items| ==> |items[k]| == |msgs[k]|)
    && (forall k, e :: 0 <= k < |items| && 0 <= e < |items[k]| ==> 0 <= items[k][e] < size)
  }

  /** The root storing the messages of workers 0, 1, ... in rank order, each
      element at its item's offset. When two items share an offset MPI leaves
      the result undefined; rank order is the model's choice there, and the
      later rank's value is the one kept. */
  function WriteItems(u: seq<real>, items: seq<seq<int>>, msgs: seq<seq<real>>): (u': seq<real>)
    requires ValidItems(items, msgs, |u|)
    ensures |u'| == |u|
    decreases |items|
  {
    if |items| == 0 then u
    else
      var n := |items| - 1;
      assert ValidItems(items[..n], msgs[..n], |u|) by {
        assert forall k :: 0 <= k < n ==> items[..n][k] == items[k] && msgs[..n][k] == msgs[k];
      }
      var prev := WriteItems(u, items[..n], msgs[..n]);
      WriteAll(prev, items[n], msgs[n])
  }

  /** No offset occurs twice among all items. */
  predicate ItemsDistinct(items: seq<seq<int>>) {
    forall k, e, k', e' ::
      && 0 <= k < |items| && 0 <= e < |items[k]|
      && 0 <= k' < |items| && 0 <= e' < |items[k']|
      && (k, e) != (k', e')
      ==> items[k][e] != items[k'][e']
  }

  /** Every offset some item lists. */
  function Covered(items: seq<seq<int>>): set<int> {
    set k, e | 0 <= k < |items| && 0 <= e < |items[k]| :: items[k][e]
  }

  /** Messages that carry the values already stored leave the buffer as it was. */
  lemma {:induction false} WriteItemsOwnValues(u: seq<real>, items: seq<seq<int>>, msgs: seq<seq<real>>)
    requires ValidItems(items, msgs, |u|)
    requires forall k, e :: 0 <= k < |items| && 0 <= e < |items[k]| ==> msgs[k][e] == u[items[k][e]]
    ensures WriteItems(u, items, msgs) == u
    decreases |items|
  {
    if |items| > 0 {
      var n := |items| - 1;
      assert forall k :: 0 <= k < n ==> items[..n][k] == items[k] && msgs[..n][k] == msgs[k];
      WriteItemsOwnValues(u, items[..n], msgs[..n]);
      WriteAllOwnValues(u, items[n], msgs[n]);
    }
  }

  /** With no offset repeated, every offset ends up holding its own message
      element, and offsets outside all items keep their values. */
  lemma {:induction false} WriteItemsAt(u: seq<real>, items: seq<seq<int>>, msgs: seq<seq<real>>)
    requires ValidItems(items, msgs, |u|) && ItemsDistinct(items)
    ensures forall k, e :: 0 <= k < |items| && 0 <= e < |items[k]| ==>
      WriteItems(u, items, msgs)[items[k][e]] == msgs[k][e]
    ensures forall o :: 0 <= o < |u| && o !in Covered(items) ==> WriteItems(u, items, msgs)[o] == u[o]
    decreases |items|
  {
    if |items| > 0 {
      var n := |items| - 1;
      var front, fmsgs := items[..n], msgs[..n];
      assert forall k :: 0 <= k < n ==> front[k] == items[k] && fmsgs[k] == msgs[k];
      WriteItemsAt(u, front, fmsgs);
      var prev := WriteItems(u, front, fmsgs);
      var g := WriteItems(u, items, msgs);
      assert g == WriteAll(prev, items[n], msgs[n]);
      WriteAllAt(prev, items[n], msgs[n]);
      forall k, e | 0 <= k < |items| && 0 <= e < |items[k]|
        ensures g[items[k][e]] == msgs[k][e]
      {
        if k < n {
          assert items[k][e] !in items[n];
          assert prev[front[k][e]] == fmsgs[k][e];
        }
      }
      assert Covered(front) <= Covered(items) by {
        forall o | o in Covered(front)
          ensures o in Covered(items)
        {
          var k, e :| 0 <= k < |front| && 0 <= e < |front[k]| && front[k][e] == o;
          assert items[k][e] == o;
        }
      }
      forall o | 0 <= o < |u| && o !in Covered(items)
        ensures g[o] == u[o]
      {
        assert o !in items[n];
      }
    }
  }

  /** Offsets no write names keep their values, repeated offsets or not. */
  lemma {:induction false} WriteAllFrame(u: seq<real>, offs: seq<int>, vals: seq<real>, o: int)
    requires |offs| == |vals| && forall e :: 0 <= e < |offs| ==> 0 <= offs[e] < |u|
    requires 0 <= o < |u| && o !in offs
    ensures WriteAll(u, offs, vals)[o] == u[o]
    decreases |offs|
  {
    if |offs| > 0 {
      assert o !in offs[1..] by {
        forall e | 0 <= e < |offs[1..]|
          ensures offs[1..][e] != o
        {
          assert offs[1..][e] == offs[e + 1];
        }
      }
      WriteAllFrame(u[offs[0] := vals[0]], offs[1..], vals[1..], o);
    }
  }

  /** Offsets outside every item keep their values, repeated offsets or not. */
  lemma {:induction false} WriteItemsFrame(u: seq<real>, items: seq<seq<int>>, msgs: seq<seq<real>>, o: int)
    requires ValidItems(items, msgs, |u|)
    requires 0 <= o < |u| && o !in Covered(items)
    ensures WriteItems(u, items, msgs)[o] == u[o]
    decreases |items|
  {
    if |items| > 0 {
      var n := |items| - 1;
      var front, fmsgs := items[..n], msgs[..n];
      assert forall k :: 0 <= k < n ==> front[k] == items[k] && fmsgs[k] == msgs[k];
      assert o !in Covered(front) by {
        forall k, e | 0 <= k < |front| && 0 <= e < |front[k]|
          ensures front[k][e] != o
        {
          assert items[k][e] in Covered(items);
        }
      }
      WriteItemsFrame(u, front, fmsgs, o);
      assert o !in items[n] by {
        forall e | 0 <= e < |items[n]|
          ensures items[n][e] != o
        {
          assert items[n][e] in Covered(items);
        }
      }
      WriteAllFrame(WriteItems(u, front, fmsgs), items[n], msgs[n], o);
    }
  }

  /** The offsets of every worker's item, in message order. */
  function Items(p: Placement, ny: int, rows: nat, columns: nat): (items: seq<seq<int>>)
    requires columns >= 1
    ensures |items| == |p.displs|
  {
    seq(|p.displs|, k requires 0 <= k < |p.displs| => BlockOffsets(p, ny, rows, columns, k))
  }

  /** Every worker's message. */
  function Messages(bs: seq<Grid<real>>, rows: nat, columns: nat): (msgs: seq<seq<real>>)
    requires columns >= 1 && Blocks(bs, rows, columns)
    ensures |msgs| == |bs|
  {
    seq(|bs|, k requires 0 <= k < |bs| => BlockValues(bs[k], rows, columns))
  }

  /** A placement inside u gives items inside u. */
  lemma ItemsValid(p: Placement, ny: int, rows: nat, columns: nat, bs: seq<Grid<real>>, size: int)
    requires columns >= 1 && |bs| == |p.displs| && Blocks(bs, rows, columns)
    requires Fits(p, size, ny, rows, columns)
    ensures ValidItems(Items(p, ny, rows, columns), Messages(bs, rows, columns), size)
  {
    var items := Items(p, ny, rows, columns);
    forall k, e | 0 <= k < |items| && 0 <= e < |items[k]|
      ensures 0 <= items[k][e] < size
    {
      MessageCellInRange(e, rows, columns);
    }
  }

  /** MPI_Gatherv of line 365: every worker's interior stored back into u
      through the same send type and displacements. */
  function Gather(u: seq<real>, p: Placement, ny: int, rows: nat, columns: nat, bs: seq<Grid<real>>): (u': seq<real>)
    requires columns >= 1 && |bs| == |p.displs| && Blocks(bs, rows, columns)
    requires Fits(p, |u|, ny, rows, columns)
    ensures |u'| == |u|
  {
    ItemsValid(p, ny, rows, columns, bs, |u|);
    WriteItems(u, Items(p, ny, rows, columns), Messages(bs, rows, columns))
  }

  /** Gathering the blocks straight after the scatter gives u back, for any
      placement that stays inside u, overlapping or not: every element returns
      to the offset it was read from. */
  lemma GatherScatterIdentity(u: seq<real>, p: Placement, ny: int, rows: nat, columns: nat)
    requires columns >= 1 && Fits(p, |u|, ny, rows, columns)
    ensures Blocks(Scatter(u, p, ny, rows, columns), rows, columns)
    ensures Gather(u, p, ny, rows, columns, Scatter(u, p, ny, rows, columns)) == u
  {
    var bs := Scatter(u, p, ny, rows, columns);
    var items, msgs := Items(p, ny, rows, columns), Messages(bs, rows, columns);
    ItemsValid(p, ny, rows, columns, bs, |u|);
    forall k | 0 <= k < |items|
      ensures forall e :: 0 <= e < |items[k]| ==> msgs[k][e] == u[items[k][e]]
    {
      assert bs[k] == ScatterBlock(u, p, ny, rows, columns, k);
      assert msgs[k] == BlockValues(bs[k], rows, columns) && items[k] == BlockOffsets(p, ny, rows, columns, k);
      ScatteredValues(u, p, ny, rows, columns, k);
    }
    WriteItemsOwnValues(u, items, msgs);
  }

  /** Worker k's message, taken from its scattered block, carries the values
      of u at the offsets it was scattered from. */
  lemma ScatteredValues(u: seq<real>, p: Placement, ny: int, rows: nat, columns: nat, k: nat)
    requires columns >= 1 && k < |p.displs| && Fits(p, |u|, ny, rows, columns)
    requires IsGrid(Scatter(u, p, ny, rows, columns)[k], rows + 2, columns + 2)
    ensures forall e :: 0 <= e < rows * columns ==>
      && 0 <= BlockOffsets(p, ny, rows, columns, k)[e] < |u|
      && BlockValues(Scatter(u, p, ny, rows, columns)[k], rows, columns)[e]
         == u[BlockOffsets(p, ny, rows, columns, k)[e]]
  {
    var b := Scatter(u, p, ny, rows, columns)[k];
    forall e | 0 <= e < rows * columns
      ensures 0 <= BlockOffsets(p, ny, rows, columns, k)[e] < |u|
      ensures BlockValues(b, rows, columns)[e] == u[BlockOffsets(p, ny, rows, columns, k)[e]]
    {
      BlockValuesAt(b, rows, columns, e);
      ScatterCell(u, p, ny, rows, columns, k, 1 + CellOf(e, columns).0, 1 + CellOf(e, columns).1);
    }
  }

  /** Element e of a message is interior cell CellOf(e, columns) of the block. */
  lemma BlockValuesAt(b: Grid<real>, rows: nat, columns: nat, e: int)
    requires columns >= 1 && IsGrid(b, rows + 2, columns + 2) && 0 <= e < rows * columns
    ensures 0 <= CellOf(e, columns).0 < rows
    ensures BlockValues(b, rows, columns)[e] == b[1 + CellOf(e, columns).0][1 + CellOf(e, columns).1]
  {
    MessageCellInRange(e, rows, columns);
  }

  /** No two elements of the send items share a cell of u. */
  predicate Disjoint(p: Placement, ny: int, rows: nat, columns: nat) {
    forall k, r, c, k', r', c' ::
      && 0 <= k < |p.displs| && 0 <= r < rows && 0 <= c < columns
      && 0 <= k' < |p.displs| && 0 <= r' < rows && 0 <= c' < columns
      && (k, r, c) != (k', r', c')
      ==> SendOffset(p, ny, k, r, c) != SendOffset(p, ny, k', r', c')
  }

  /** The cells of u that the send items cover. */
  function Sent(p: Placement, ny: int, rows: nat, columns: nat): set<int> {
    set k, r, c | 0 <= k < |p.displs| && 0 <= r < rows && 0 <= c < columns :: SendOffset(p, ny, k, r, c)
  }

  /** A placement with the intended geometry inside the field is disjoint. */
  lemma PlacedDisjoint(p: Placement, ny: int, xdim: nat, ydim: nat, rows: nat, columns: nat)
    requires ydim >= 1 && PlacesBlocks(p, ny, xdim, ydim, rows, columns) && ydim * columns <= ny
    ensures Disjoint(p, ny, rows, columns)
  {
    forall k, r, c, k', r', c' |
      && 0 <= k < |p.displs| && 0 <= r < rows && 0 <= c < columns
      && 0 <= k' < |p.displs| && 0 <= r' < rows && 0 <= c' < columns
      && SendOffset(p, ny, k, r, c) == SendOffset(p, ny, k', r', c')
      ensures (k, r, c) == (k', r', c')
    {
      PlacedInjective(p, ny, xdim, ydim, rows, columns, k, r, c, k', r', c');
    }
  }

  /** Element Offset(r, c, columns) of worker k's item and message is interior
      cell (r, c). */
  lemma ItemElement(p: Placement, ny: int, rows: nat, columns: nat, bs: seq<Grid<real>>, k: int, r: int, c: int)
    requires columns >= 1 && |bs| == |p.displs| && Blocks(bs, rows, columns)
    requires 0 <= k < |p.displs| && 0 <= r < rows && 0 <= c < columns
    ensures 0 <= Offset(r, c, columns) < |Items(p, ny, rows, columns)[k]|
    ensures Items(p, ny, rows, columns)[k][Offset(r, c, columns)] == SendOffset(p, ny, k, r, c)
    ensures Messages(bs, rows, columns)[k][Offset(r, c, columns)] == bs[k][1 + r][1 + c]
  {
    OffsetInRange(r, c, rows, columns);
    CellOfOffset(r, c, columns);
  }

  /** A disjoint placement gives items with no repeated offset, covering
      exactly the sent cells. */
  lemma DisjointItems(p: Placement, ny: int, rows: nat, columns: nat)
    requires columns >= 1 && Disjoint(p, ny, rows, columns)
    ensures ItemsDistinct(Items(p, ny, rows, columns))
    ensures Covered(Items(p, ny, rows, columns)) <= Sent(p, ny, rows, columns)
  {
    var items := Items(p, ny, rows, columns);
    forall k, e, k', e' |
      && 0 <= k < |items| && 0 <= e < |items[k]|
      && 0 <= k' < |items| && 0 <= e' < |items[k']|
      && (k, e) != (k', e')
      ensures items[k][e] != items[k'][e']
    {
      MessageCellInRange(e, rows, columns);
      MessageCellInRange(e', rows, columns);
      var (r, c) := CellOf(e, columns);
      var (r', c') := CellOf(e', columns);
      assert (k, r, c) != (k', r', c');
    }
    forall o | o in Covered(items)
      ensures o in Sent(p, ny, rows, columns)
    {
      var k, e :| 0 <= k < |items| && 0 <= e < |items[k]| && items[k][e] == o;
      MessageCellInRange(e, rows, columns);
    }
  }

  /** For a disjoint placement the gather stores interior cell (1+r, 1+c) of
      worker k's block at the cell of u the scatter read it from, and leaves
      every cell that no item covers as it was. */
  lemma GatherStoresBlocks(u: seq<real>, p: Placement, ny: int, rows: nat, columns: nat, bs: seq<Grid<real>>)
    requires columns >= 1 && |bs| == |p.displs| && Blocks(bs, rows, columns)
    requires Fits(p, |u|, ny, rows, columns) && Disjoint(p, ny, rows, columns)
    ensures forall k, r, c :: 0 <= k < |bs| && 0 <= r < rows && 0 <= c < columns ==>
      Gather(u, p, ny, rows, columns, bs)[SendOffset(p, ny, k, r, c)] == bs[k][1 + r][1 + c]
    ensures forall o :: 0 <= o < |u| && o !in Sent(p, ny, rows, columns) ==>
      Gather(u, p, ny, rows, columns, bs)[o] == u[o]
  {
    var items, msgs := Items(p, ny, rows, columns), Messages(bs, rows, columns);
    ItemsValid(p, ny, rows, columns, bs, |u|);
    DisjointItems(p, ny, rows, columns);
    WriteItemsAt(u, items, msgs);
    forall k, r, c | 0 <= k < |bs| && 0 <= r < rows && 0 <= c < columns
      ensures Gather(u, p, ny, rows, columns, bs)[SendOffset(p, ny, k, r, c)] == bs[k][1 + r][1 + c]
    {
      ItemElement(p, ny, rows, columns, bs, k, r, c);
    }
  }

  /** With the intended geometry, gathering puts every block's interior back on
      its own rectangle of the field, and cells outside the xdim*rows x
      ydim*columns region keep their values. */
  lemma GatherPlacesBlocks(u: seq<real>, p: Placement, nx: nat, ny: nat, xdim: nat, ydim: nat, rows: nat, columns: nat, bs: seq<Grid<real>>)
    requires ydim >= 1 && columns >= 1 && PlacesBlocks(p, ny, xdim, ydim, rows, columns)
    requires |u| == nx * ny && xdim * rows <= nx && ydim * columns <= ny
    requires |bs| == xdim * ydim && Blocks(bs, rows, columns)
    ensures Fits(p, |u|, ny, rows, columns)
    ensures forall k, r, c :: 0 <= k < |bs| && 0 <= r < rows && 0 <= c < columns ==>
      0 <= FieldOffset(ny, ydim, rows, columns, k, r, c) < |u|
    ensures forall k, r, c :: 0 <= k < |bs| && 0 <= r < rows && 0 <= c < columns ==>
      Gather(u, p, ny, rows, columns, bs)[FieldOffset(ny, ydim, rows, columns, k, r, c)] == bs[k][1 + r][1 + c]
    ensures forall x, y :: 0 <= x < nx && 0 <= y < ny && (x >= xdim * rows || y >= ydim * columns) ==>
      0 <= Offset(x, y, ny) < |u| && Gather(u, p, ny, rows, columns, bs)[Offset(x, y, ny)] == u[Offset(x, y, ny)]
  {
    PlacedFits(p, nx, ny, xdim, ydim, rows, columns);
    PlacedDisjoint(p, ny, xdim, ydim, rows, columns);
    GatherStoresBlocks(u, p, ny, rows, columns, bs);
    forall k, r, c | 0 <= k < |bs| && 0 <= r < rows && 0 <= c < columns
      ensures 0 <= FieldOffset(ny, ydim, rows, columns, k, r, c) < |u|
    {
      assert SendOffset(p, ny, k, r, c) == FieldOffset(ny, ydim, rows, columns, k, r, c);
    }
    forall x, y | 0 <= x < nx && 0 <= y < ny && (x >= xdim * rows || y >= ydim * columns)
      ensures 0 <= Offset(x, y, ny) < |u|
      ensures Offset(x, y, ny) !in Sent(p, ny, rows, columns)
    {
      OffsetInRange(x, y, nx, ny);
      if Offset(x, y, ny) in Sent(p, ny, rows, columns) {
        var k, r, c :| 0 <= k < |bs| && 0 <= r < rows && 0 <= c < columns && SendOffset(p, ny, k, r, c) == Offset(x, y, ny);
        var (i, j) := CellOf(k, ydim);
        BlockCellInField(i, j, r, c, xdim, ydim, rows, columns, k);
        OffsetInjective(i * rows + r, j * columns + c, x, y, ny);
        assert false;
      }
    }
  }

  /** Cells no send item covers come back from the gather unchanged, whatever
      the workers computed, overlap or not. */
  lemma GatherKeepsUnsent(u: seq<real>, p: Placement, ny: int, rows: nat, columns: nat, bs: seq<Grid<real>>, o: int)
    requires columns >= 1 && |bs| == |p.displs| && Blocks(bs, rows, columns)
    requires Fits(p, |u|, ny, rows, columns)
    requires 0 <= o < |u| && o !in Sent(p, ny, rows, columns)
    ensures Gather(u, p, ny, rows, columns, bs)[o] == u[o]
  {
    var items := Items(p, ny, rows, columns);
    ItemsValid(p, ny, rows, columns, bs, |u|);
    assert o !in Covered(items) by {
      forall k, e | 0 <= k < |items| && 0 <= e < |items[k]|
        ensures items[k][e] != o
      {
        MessageCellInRange(e, rows, columns);
      }
    }
    WriteItemsFrame(u, items, Messages(bs, rows, columns), o);
  }

  /** Two placements whose send items name the same cells of u, element by
      element. */
  predicate SameOffsets(p: Placement, q: Placement, ny: int, rows: nat, columns: nat) {
    && |p.displs| == |q.displs|
    && forall k, r, c :: 0 <= k < |p.displs| && 0 <= r < rows && 0 <= c < columns ==>
         SendOffset(p, ny, k, r, c) == SendOffset(q, ny, k, r, c)
  }

  /** Placements naming the same cells scatter the same blocks. */
  lemma SameOffsetsScatter(u: seq<real>, p: Placement, q: Placement, ny: int, rows: nat, columns: nat)
    requires SameOffsets(p, q, ny, rows, columns) && Fits(p, |u|, ny, rows, columns)
    ensures Fits(q, |u|, ny, rows, columns)
    ensures Scatter(u, p, ny, rows, columns) == Scatter(u, q, ny, rows, columns)
  {
    forall k | 0 <= k < |p.displs|
      ensures ScatterBlock(u, p, ny, rows, columns, k) == ScatterBlock(u, q, ny, rows, columns, k)
    {
      SameOffsetsBlock(u, p, q, ny, rows, columns, k);
    }
  }

  /** One block of SameOffsetsScatter. */
  lemma SameOffsetsBlock(u: seq<real>, p: Placement, q: Placement, ny: int, rows: nat, columns: nat, k: nat)
    requires SameOffsets(p, q, ny, rows, columns) && Fits(p, |u|, ny, rows, columns) && k < |p.displs|
    ensures Fits(q, |u|, ny, rows, columns)
    ensures ScatterBlock(u, p, ny, rows, columns, k) == ScatterBlock(u, q, ny, rows, columns, k)
  {
    var a, b := ScatterBlock(u, p, ny, rows, columns, k), ScatterBlock(u, q, ny, rows, columns, k);
    forall x | 0 <= x < rows + 2
      ensures a[x] == b[x]
    {
      forall y | 0 <= y < columns + 2
        ensures a[x][y] == b[x][y]
      {
        if 1 <= x <= rows && 1 <= y <= columns {
          assert SendOffset(p, ny, k, x - 1, y - 1) == SendOffset(q, ny, k, x - 1, y - 1);
        }
      }
    }
  }

  /** Placements naming the same cells gather the same field. */
  lemma SameOffsetsGather(u: seq<real>, bs: seq<Grid<real>>, p: Placement, q: Placement, ny: int, rows: nat, columns: nat)
    requires columns >= 1 && SameOffsets(p, q, ny, rows, columns) && Fits(p, |u|, ny, rows, columns)
    requires |bs| == |p.displs| && Blocks(bs, rows, columns)
    ensures Fits(q, |u|, ny, rows, columns)
    ensures Gather(u, p, ny, rows, columns, bs) == Gather(u, q, ny, rows, columns, bs)
  {
    var ip, iq := Items(p, ny, rows, columns), Items(q, ny, rows, columns);
    forall k | 0 <= k < |p.displs|
      ensures ip[k] == iq[k]
    {
      forall e | 0 <= e < rows * columns
        ensures ip[k][e] == iq[k][e]
      {
        MessageCellInRange(e, rows, columns);
      }
    }
    assert ip == iq;
  }

  /** When the blocks span the field's width exactly, the program's
      displacements and the corrected ones name the same cells of u, so
      scattering and gathering through either give the same result. */
  lemma AsWrittenAgreesWhenExact(u: seq<real>, bs: seq<Grid<real>>, xdim: nat, ydim: nat, rows: nat, columns: nat, ny: int)
    requires ydim >= 1 && columns >= 1 && ydim * columns == ny
    requires Fits(AsWritten(xdim, ydim, rows, columns), |u|, ny, rows, columns)
    ensures Fits(Corrected(xdim, ydim, rows, columns, ny), |u|, ny, rows, columns)
    ensures Scatter(u, AsWritten(xdim, ydim, rows, columns), ny, rows, columns)
         == Scatter(u, Corrected(xdim, ydim, rows, columns, ny), ny, rows, columns)
    ensures |bs| == xdim * ydim && Blocks(bs, rows, columns) ==>
      Gather(u, AsWritten(xdim, ydim, rows, columns), ny, rows, columns, bs)
      == Gather(u, Corrected(xdim, ydim, rows, columns, ny), ny, rows, columns, bs)
  {
    var a, c := AsWritten(xdim, ydim, rows, columns), Corrected(xdim, ydim, rows, columns, ny);
    AsWrittenPlacesBlocks(xdim, ydim, rows, columns, ny);
    CorrectedPlacesBlocks(xdim, ydim, rows, columns, ny);
    assert SameOffsets(a, c, ny, rows, columns);
    SameOffsetsScatter(u, a, c, ny, rows, columns);
    if |bs| == xdim * ydim && Blocks(bs, rows, columns) {
      SameOffsetsGather(u, bs, a, c, ny, rows, columns);
    }
  }

  /** The displacement drift on a 4 x 3 field split over a 2 x 2 block grid of
      2 x 1 blocks (ydim*columns = 2 < NY = 3): worker 2 = block (1, 0) should
      start at cell (2, 0), offset 6, but its displacement 1*2*2 + 0 = 4 extents
      of one float puts it at cell (1, 1). */
  lemma DriftMisplaces()
    ensures SendOffset(AsWritten(2, 2, 2, 1), 3, 2, 0, 0) == 4
    ensures FieldOffset(3, 2, 2, 1, 2, 0, 0) == 6
    ensures !PlacesBlocks(AsWritten(2, 2, 2, 1), 3, 2, 2, 2, 1)
  {
    DriftDispls();
    CellOfOffset(1, 0, 2);
  }

  /** On the same field, cell (1, 1) is in the items of both worker 1 (its
      second row) and worker 2. */
  lemma DriftOverlaps()
    ensures SendOffset(AsWritten(2, 2, 2, 1), 3, 1, 1, 0) == SendOffset(AsWritten(2, 2, 2, 1), 3, 2, 0, 0)
    ensures !Disjoint(AsWritten(2, 2, 2, 1), 3, 2, 1)
  {
    DriftDispls();
  }

  /** On the same field, cell (2, 0) belongs to no item. */
  lemma DriftUnsent()
    ensures Offset(2, 0, 3) !in Sent(AsWritten(2, 2, 2, 1), 3, 2, 1)
  {
    var p := AsWritten(2, 2, 2, 1);
    DriftDispls();
    forall k, r, c | 0 <= k < 4 && 0 <= r < 2 && 0 <= c < 1
      ensures SendOffset(p, 3, k, r, c) != 6
    {
      assert SendOffset(p, 3, k, r, c) == p.displs[k] + 3 * r;
    }
  }

  /** The displacements of the 2 x 2 grid of 2-row blocks: 0, 1, 4, 5. */
  lemma DriftDispls()
    ensures AsWritten(2, 2, 2, 1).displs == [0, 1, 4, 5]
  {
    CellOfOffset(0, 0, 2);
    CellOfOffset(0, 1, 2);
    CellOfOffset(1, 0, 2);
    CellOfOffset(1, 1, 2);
  }

  /** Consequence of the drift: on that 4 x 3 field whatever worker 2 computes
      for its first cell never reaches cell (2, 0); the gather leaves the old
      value there. */
  lemma AsWrittenLosesCell(u: seq<real>, bs: seq<Grid<real>>)
    requires |u| == 12 && |bs| == 4 && Blocks(bs, 2, 1)
    ensures Fits(AsWritten(2, 2, 2, 1), |u|, 3, 2, 1)
    ensures Gather(u, AsWritten(2, 2, 2, 1), 3, 2, 1, bs)[Offset(2, 0, 3)] == u[Offset(2, 0, 3)]
  {
    AsWrittenFits(4, 3, 2, 2, 2, 1);
    DriftUnsent();
    GatherKeepsUnsent(u, AsWritten(2, 2, 2, 1), 3, 2, 1, bs, Offset(2, 0, 3));
  }

  /** The corrected placement on the same field returns worker 2's first cell
      to cell (2, 0). */
  lemma CorrectedKeepsCell(u: seq<real>, bs: seq<Grid<real>>)
    requires |u| == 12 && |bs| == 4 && Blocks(bs, 2, 1)
    ensures Fits(Corrected(2, 2, 2, 1, 3), |u|, 3, 2, 1)
    ensures Gather(u, Corrected(2, 2, 2, 1, 3), 3, 2, 1, bs)[Offset(2, 0, 3)] == bs[2][1][1]
  {
    var p := Corrected(2, 2, 2, 1, 3);
    CorrectedPlacesBlocks(2, 2, 2, 1, 3);
    GatherPlacesBlocks(u, p, 4, 3, 2, 2, 2, 1, bs);
    CellOfOffset(1, 0, 2);
    assert FieldOffset(3, 2, 2, 1, 2, 0, 0) == Offset(2, 0, 3);
  }
}
