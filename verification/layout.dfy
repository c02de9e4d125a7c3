/** Row-major storage of two-dimensional arrays.

    The program keeps every 2D array in one contiguous allocation: the global
    field `u[NXPROB][NYPROB]` and each worker's haloed blocks, whose row pointers
    `malloc2darr` points at `p[i*m]`. Element (i, j) of an n x m array therefore
    sits at flat offset i*m + j, which is also how the MPI datatypes and the
    stencil's pointer arithmetic address it. */
module Layout {

  /** A two-dimensional array as a sequence of rows. */
  type Grid<T> = seq<seq<T>>

  /** g has n rows of m elements each. */
  predicate IsGrid<T>(g: Grid<T>, n: int, m: int) {
    |g| == n && forall i :: 0 <= i < |g| ==> |g[i]| == m
  }

  /** Every worker's block has the haloed shape (rows+2) x (columns+2). */
  predicate Blocks(bs: seq<Grid<real>>, rows: nat, columns: nat) {
    forall k :: 0 <= k < |bs| ==> IsGrid(bs[k], rows + 2, columns + 2)
  }

  /** Flat offset of element (i, j) in a row-major array of width m. */
  function Offset(i: int, j: int, m: int): int {
    i * m + j
  }

  /** Row and column of flat offset o in a row-major array of width m. */
  function CellOf(o: int, m: int): (c: (int, int))
    requires m > 0
    ensures 0 <= c.1 < m
    ensures Offset(c.0, c.1, m) == o
  {
    (o / m, o % m)
  }

  /** Division by the width undoes Offset: a flat offset names exactly one cell. */
  lemma CellOfOffset(i: int, j: int, m: int)
    requires m > 0 && 0 <= j < m
    ensures CellOf(Offset(i, j, m), m) == (i, j)
  {
    var o := Offset(i, j, m);
    var c := CellOf(o, m);
    OffsetInjective(c.0, c.1, i, j, m);
  }

  /** Multiplying by a positive width keeps the sign and scales the step. */
  lemma MulSign(d: int, m: int)
    requires m > 0
    ensures d >= 1 ==> d * m >= m
    ensures d <= 0 ==> d * m <= 0
    ensures d <= -1 ==> d * m <= -m
  {
  }

  /** Multiplying by a non-negative factor preserves <=. */
  lemma MulLe(a: int, b: int, c: int)
    requires a >= 0 && b <= c
    ensures a * b <= a * c
    ensures b * a <= c * a
  {
    MulSign(c - b, a + 1);
    assert a * (c - b) >= 0;
  }

  /** Two cells whose columns lie inside the width share an offset only if they are equal. */
  lemma OffsetInjective(i: int, j: int, i': int, j': int, m: int)
    requires m > 0 && 0 <= j < m && 0 <= j' < m
    requires Offset(i, j, m) == Offset(i', j', m)
    ensures i == i' && j == j'
  {
    assert (i - i') * m == j' - j;
    MulSign(i - i', m);
  }

  /** Offsets of the cells of an n x m array are exactly 0 .. n*m-1. */
  lemma OffsetInRange(i: int, j: int, n: int, m: int)
    requires 0 <= i < n && 0 <= j < m
    ensures 0 <= Offset(i, j, m) < n * m
  {
    calc {
      Offset(i, j, m);
      < i * m + m;
      == (i + 1) * m;
      <= n * m;
    }
  }

  /** The row pointers malloc2darr sets up for an n x m array: row i starts at i*m. */
  function RowStarts(n: nat, m: nat): (starts: seq<int>)
    ensures |starts| == n
    ensures forall i :: 0 <= i < n ==> starts[i] == Offset(i, 0, m)
  {
    if n == 0 then [] else RowStarts(n - 1, m) + [(n - 1) * m]
  }

  /** Consecutive rows are m elements apart and do not overlap: row i occupies
      exactly the offsets starts[i] .. starts[i]+m-1. */
  lemma RowStartsTile(n: nat, m: nat, o: int)
    requires m > 0 && 0 <= o < n * m
    ensures var c := CellOf(o, m); 0 <= c.0 < n && RowStarts(n, m)[c.0] <= o < RowStarts(n, m)[c.0] + m
  {
    var c := CellOf(o, m);
    assert (n - c.0) * m > 0;
    MulSign(n - c.0, m);
  }
}
