/** The stencil passes: updateInternal (lines 408-424) and updateExternal
    (lines 432-554) write cells of the "next" block from the "current" block.

    Both passes address the (rows+2) x (columns+2) block through pointer
    arithmetic with row stride columns+2, so index (ix, iy) is block cell
    (ix, iy). Each write stores the five-point update of the current block at
    that cell; the value depends on the current block only, so the order of the
    writes, their split over OpenMP threads and cells written twice do not
    matter. Values are reals: float rounding is not modelled. */
module Stencil {
  import opened Layout
  import opened Partition
  import opened Halo

  /** The diffusion coefficients of struct Parms. */
  datatype Parms = Parms(cx: real, cy: real)

  /** The program's coefficients (line 44). */
  const PARMS: Parms := Parms(0.1, 0.1)

  /** The five-point update of cell (x, y) of u. */
  function Point(p: Parms, u: Grid<real>, x: int, y: int): (v: real)
    requires |u| >= 1 && IsGrid(u, |u|, |u[0]|)
    requires 1 <= x < |u| - 1 && 1 <= y < |u[0]| - 1
    ensures u[x - 1][y] == u[x + 1][y] == u[x][y - 1] == u[x][y + 1] == u[x][y] ==> v == u[x][y]
  {
    u[x][y]
    + p.cx * (u[x + 1][y] + u[x - 1][y] - 2.0 * u[x][y])
    + p.cy * (u[x][y + 1] + u[x][y - 1] - 2.0 * u[x][y])
  }

  /** Cells (x, lo), (x, lo+1), ..., (x, hi): one pass of an inner `iy` loop. */
  function Span(x: int, lo: int, hi: int): (cells: seq<(int, int)>)
    ensures forall a, b :: (a, b) in cells <==> a == x && lo <= b <= hi
  {
    var n := if hi < lo then 0 else hi - lo + 1;
    var cells := seq(n, k requires 0 <= k < n => (x, lo + k));
    assert forall b :: lo <= b <= hi ==> cells[b - lo] == (x, b);
    cells
  }

  /** Cells (lo, y), (lo+1, y), ..., (hiExcl-1, y): a column loop with `<`. */
  function ColumnSpan(y: int, lo: int, hiExcl: int): (cells: seq<(int, int)>)
    ensures forall a, b :: (a, b) in cells <==> b == y && lo <= a < hiExcl
  {
    var n := if hiExcl <= lo then 0 else hiExcl - lo;
    var cells := seq(n, k requires 0 <= k < n => (lo + k, y));
    assert forall a :: lo <= a < hiExcl ==> cells[a - lo] == (a, y);
    cells
  }

  /** The cells updateInternal(start, end, ny) writes, in loop order: rows
      start .. end, columns 2 .. ny-1. */
  function InternalCells(start: int, end: int, ny: int): (cells: seq<(int, int)>)
    ensures forall i :: 0 <= i < |cells| ==> start <= cells[i].0 <= end && 2 <= cells[i].1 <= ny - 1
    decreases end - start
  {
    if end < start then [] else InternalCells(start, end - 1, ny) + Span(end, 2, ny - 1)
  }

  /** updateInternal writes exactly the rectangle it is given. */
  lemma {:induction false} InternalCellsExact(start: int, end: int, ny: int)
    ensures forall a, b :: (a, b) in InternalCells(start, end, ny) <==> start <= a <= end && 2 <= b <= ny - 1
    decreases end - start
  {
    if end >= start {
      InternalCellsExact(start, end - 1, ny);
    }
  }

  /** The cells updateExternal(start, end, ny, right, left, up, down) writes,
      in loop order, with the program's own arithmetic: ny and end are first
      raised by 2, then come the first external row, the last external row,
      the first external column and the last external column. A side counts
      as present when its rank is not MPI_PROC_NULL. */
  function ExternalCells(start: int, end: int, ny: int, nb: Neighbors): seq<(int, int)> {
    var ny := ny + 2;
    var end := end + 2;
    // first external row
    var ix1 := if nb.up.Proc? then start else start + 1;
    var iy1 := if nb.left.Proc? then 1 else 2;
    var endny1 := if nb.right.Proc? then ny - 3 else ny - 3;
    // last external row
    var ix2 := if nb.down.Proc? then end - 2 else end - 3;
    var iy2 := if nb.left.Proc? then 1 else 2;
    var endny2 := if nb.right.Proc? then ny - 2 else ny - 3;
    // first external column
    var ix3 := if nb.up.Proc? then start else start + 1;
    var iy3 := if nb.left.Proc? then 1 else 2;
    var endloop3 := if nb.down.Proc? then end - 2 else end - 3;
    // last external column
    var ix4 := if nb.up.Proc? then start else start + 1;
    var iy4 := if nb.right.Proc? then ny - 2 else ny - 3;
    var endloop4 := if nb.down.Proc? then end - 2 else end - 3;
    Span(ix1, iy1, endny1) + Span(ix2, iy2, endny2) + ColumnSpan(iy3, ix3, endloop3) + ColumnSpan(iy4, ix4, endloop4)
  }

  /** Both passes of one time step as the program calls them (lines 321 and
      331): updateInternal(2, rows-1, columns) then
      updateExternal(1, rows, columns, ...). */
  function StepCells(rows: nat, columns: nat, nb: Neighbors): seq<(int, int)> {
    InternalCells(2, rows - 1, columns) + ExternalCells(1, rows, columns, nb)
  }

  /** Reference: the cells one time step must update. An owned cell is
      updated unless it lies on a side of the block that has no neighbour,
      because such a side is the edge of the whole domain, which stays fixed. */
  predicate Updated(x: int, y: int, rows: nat, columns: nat, nb: Neighbors) {
    && Owned(x, y, rows, columns)
    && (x == 1 ==> nb.up.Proc?)
    && (x == rows ==> nb.down.Proc?)
    && (y == 1 ==> nb.left.Proc?)
    && (y == columns ==> nb.right.Proc?)
  }

  /** The block sizes for which the passes are sound: at least two rows and
      two columns, and a block only two rows high (or wide) must have a
      neighbour above or below (left or right). */
  predicate Sized(rows: nat, columns: nat, nb: Neighbors) {
    && rows >= 2 && columns >= 2
    && (rows >= 3 || nb.up.Proc? || nb.down.Proc?)
    && (columns >= 3 || nb.left.Proc? || nb.right.Proc?)
  }

  /** Coverage: for blocks of sound size the two passes write exactly the
      cells the reference says must be updated, so every owned cell off the
      domain edge is computed and no halo cell or domain-edge cell is ever
      written. */
  lemma StepCellsExact(rows: nat, columns: nat, nb: Neighbors)
    requires Sized(rows, columns, nb)
    ensures forall x, y :: (x, y) in StepCells(rows, columns, nb) <==> Updated(x, y, rows, columns, nb)
  {
    InternalCellsExact(2, rows - 1, columns);
  }

  /** The sound-size condition is needed: a 2 x 3 block with no neighbour
      above or below (a single block-row two cells high) gets its last row,
      which is the bottom edge of the domain, written by the first-row pass. */
  lemma TwoRowBlockWritesDomainEdge()
    ensures var nb := Neighbors(NoProc, NoProc, NoProc, NoProc);
      && (2, 2) in StepCells(2, 3, nb)
      && !Updated(2, 2, 2, 3, nb)
  {
    var nb := Neighbors(NoProc, NoProc, NoProc, NoProc);
    assert (2, 2) in Span(2, 2, 2);
  }

  /** Every cell written is owned: the five cells each update reads then lie
      inside the block. */
  predicate Writable(cells: seq<(int, int)>, rows: nat, columns: nat) {
    forall i :: 0 <= i < |cells| ==> Owned(cells[i].0, cells[i].1, rows, columns)
  }

  /** Writes of the five-point update of cur at each of cells, in order, into
      next. */
  function Apply(p: Parms, cur: Grid<real>, next: Grid<real>, cells: seq<(int, int)>, rows: nat, columns: nat): (next': Grid<real>)
    requires IsGrid(cur, rows + 2, columns + 2) && IsGrid(next, rows + 2, columns + 2)
    requires Writable(cells, rows, columns)
    ensures IsGrid(next', rows + 2, columns + 2)
    decreases |cells|
  {
    if |cells| == 0 then next
    else
      var (x, y) := cells[0];
      var next1 := SetCell(next, x, y, Point(p, cur, x, y));
      Apply(p, cur, next1, cells[1..], rows, columns)
  }

  /** After a pass each listed cell holds the update of cur at that cell, once
      or several times over, and every other cell of next is untouched. */
  lemma {:induction false} ApplyAt(p: Parms, cur: Grid<real>, next: Grid<real>, cells: seq<(int, int)>, rows: nat, columns: nat)
    requires IsGrid(cur, rows + 2, columns + 2) && IsGrid(next, rows + 2, columns + 2)
    requires Writable(cells, rows, columns)
    ensures forall x, y :: InBlock(x, y, rows, columns) ==>
      Apply(p, cur, next, cells, rows, columns)[x][y]
      == if (x, y) in cells then Point(p, cur, x, y) else next[x][y]
    decreases |cells|
  {
    if |cells| > 0 {
      var (x0, y0) := cells[0];
      var next1 := SetCell(next, x0, y0, Point(p, cur, x0, y0));
      var rest := cells[1..];
      assert Writable(rest, rows, columns) by {
        assert forall i :: 0 <= i < |rest| ==> rest[i] == cells[i + 1];
      }
      ApplyAt(p, cur, next1, rest, rows, columns);
      assert forall c :: c in cells <==> c == cells[0] || c in rest by {
        assert cells == [cells[0]] + rest;
      }
    }
  }

  /** The writes of sound-sized passes stay inside the owned cells. */
  lemma StepCellsWritable(rows: nat, columns: nat, nb: Neighbors)
    requires Sized(rows, columns, nb)
    ensures Writable(StepCells(rows, columns, nb), rows, columns)
  {
    var cells := StepCells(rows, columns, nb);
    StepCellsExact(rows, columns, nb);
    forall i | 0 <= i < |cells|
      ensures Owned(cells[i].0, cells[i].1, rows, columns)
    {
      assert (cells[i].0, cells[i].1) in cells;
    }
  }

  /** Each pass on its own writes only owned cells. */
  lemma PassesWritable(rows: nat, columns: nat, nb: Neighbors)
    requires Sized(rows, columns, nb)
    ensures Writable(InternalCells(2, rows - 1, columns), rows, columns)
    ensures Writable(ExternalCells(1, rows, columns, nb), rows, columns)
  {
    StepCellsWritable(rows, columns, nb);
    var internal := InternalCells(2, rows - 1, columns);
    var external := ExternalCells(1, rows, columns, nb);
    var all := StepCells(rows, columns, nb);
    forall i | 0 <= i < |internal|
      ensures Owned(internal[i].0, internal[i].1, rows, columns)
    {
      assert all[i] == internal[i];
    }
    forall i | 0 <= i < |external|
      ensures Owned(external[i].0, external[i].1, rows, columns)
    {
      assert all[|internal| + i] == external[i];
    }
  }

  /** The five-point update depends only on the five cells it reads. */
  lemma PointCongruent(p: Parms, u: Grid<real>, x: int, y: int, v: Grid<real>, a: int, b: int)
    requires |u| >= 1 && IsGrid(u, |u|, |u[0]|) && 1 <= x < |u| - 1 && 1 <= y < |u[0]| - 1
    requires |v| >= 1 && IsGrid(v, |v|, |v[0]|) && 1 <= a < |v| - 1 && 1 <= b < |v[0]| - 1
    requires u[x][y] == v[a][b]
    requires u[x - 1][y] == v[a - 1][b] && u[x + 1][y] == v[a + 1][b]
    requires u[x][y - 1] == v[a][b - 1] && u[x][y + 1] == v[a][b + 1]
    ensures Point(p, u, x, y) == Point(p, v, a, b)
  {
  }

  /** One worker's time step: both passes from cur into next. */
  function StencilStep(p: Parms, cur: Grid<real>, next: Grid<real>, rows: nat, columns: nat, nb: Neighbors): (next': Grid<real>)
    requires Sized(rows, columns, nb)
    requires IsGrid(cur, rows + 2, columns + 2) && IsGrid(next, rows + 2, columns + 2)
    ensures IsGrid(next', rows + 2, columns + 2)
  {
    PassesWritable(rows, columns, nb);
    var internal := InternalCells(2, rows - 1, columns);
    var external := ExternalCells(1, rows, columns, nb);
    Apply(p, cur, Apply(p, cur, next, internal, rows, columns), external, rows, columns)
  }

  /** A time step computes the update at exactly the cells the reference
      names and leaves every other cell of next, halo and domain edge
      included, as it was. */
  lemma StencilStepSpec(p: Parms, cur: Grid<real>, next: Grid<real>, rows: nat, columns: nat, nb: Neighbors)
    requires Sized(rows, columns, nb)
    requires IsGrid(cur, rows + 2, columns + 2) && IsGrid(next, rows + 2, columns + 2)
    ensures forall x, y :: InBlock(x, y, rows, columns) ==>
      StencilStep(p, cur, next, rows, columns, nb)[x][y]
      == if Updated(x, y, rows, columns, nb) then Point(p, cur, x, y) else next[x][y]
  {
    PassesWritable(rows, columns, nb);
    StepCellsExact(rows, columns, nb);
    var internal := InternalCells(2, rows - 1, columns);
    var external := ExternalCells(1, rows, columns, nb);
    var mid := Apply(p, cur, next, internal, rows, columns);
    ApplyAt(p, cur, next, internal, rows, columns);
    ApplyAt(p, cur, mid, external, rows, columns);
  }

  /** The interior pass reads only owned cells: its cells and their four
      neighbours lie in rows 1 .. rows and columns 1 .. columns, never in the
      halo ring the receives write. */
  lemma InternalReadsOwned(rows: nat, columns: nat)
    ensures forall x, y :: (x, y) in InternalCells(2, rows - 1, columns) ==>
      && Owned(x, y, rows, columns)
      && Owned(x - 1, y, rows, columns) && Owned(x + 1, y, rows, columns)
      && Owned(x, y - 1, rows, columns) && Owned(x, y + 1, rows, columns)
  {
    InternalCellsExact(2, rows - 1, columns);
  }

  /** Hence the interior pass may run while the halo is still in flight
      (lines 321-329): two current blocks that agree on the owned cells give
      the same interior result. */
  lemma InternalIgnoresHalo(p: Parms, cur: Grid<real>, cur': Grid<real>, next: Grid<real>, rows: nat, columns: nat)
    requires IsGrid(cur, rows + 2, columns + 2) && IsGrid(cur', rows + 2, columns + 2) && IsGrid(next, rows + 2, columns + 2)
    requires forall x, y :: Owned(x, y, rows, columns) ==> cur[x][y] == cur'[x][y]
    ensures Writable(InternalCells(2, rows - 1, columns), rows, columns)
    ensures Apply(p, cur, next, InternalCells(2, rows - 1, columns), rows, columns)
      == Apply(p, cur', next, InternalCells(2, rows - 1, columns), rows, columns)
  {
    var cells := InternalCells(2, rows - 1, columns);
    InternalReadsOwned(rows, columns);
    assert Writable(cells, rows, columns) by {
      forall i | 0 <= i < |cells|
        ensures Owned(cells[i].0, cells[i].1, rows, columns)
      {
        assert (cells[i].0, cells[i].1) in cells;
      }
    }
    var a := Apply(p, cur, next, cells, rows, columns);
    var b := Apply(p, cur', next, cells, rows, columns);
    ApplyAt(p, cur, next, cells, rows, columns);
    ApplyAt(p, cur', next, cells, rows, columns);
    forall x, y | InBlock(x, y, rows, columns)
      ensures a[x][y] == b[x][y]
    {
      if (x, y) in cells {
        assert a[x][y] == Point(p, cur, x, y) && b[x][y] == Point(p, cur', x, y);
        assert Owned(x - 1, y, rows, columns) && Owned(x + 1, y, rows, columns);
        assert Owned(x, y - 1, rows, columns) && Owned(x, y + 1, rows, columns);
        PointCongruent(p, cur, x, y, cur', x, y);
      } else {
        assert a[x][y] == next[x][y] == b[x][y];
      }
    }
    GridExtensional(a, b, rows + 2, columns + 2);
  }
}
