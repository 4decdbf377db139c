/**
  The part of main that ties the components together: compute the
  sequential baseline into a fresh C buffer, then compare it with the
  parallel result in C_opencl using the fixed tolerance.
*/
module Benchmark {
  import opened Wrappers
  import opened SequentialMatMul
  import opened Verification

  /** Every cell (j, i) of the product is close to d at j * COL_B + i. */
  ghost predicate CloseAtCells(m: Operands, d: seq<real>, tol: real)
    requires m.Valid() && |d| == m.rowA * m.colB
  {
    forall j: nat, i: nat :: j < m.rowA && i < m.colB ==>
      Index(j, i, m.colB) < |d| && Close(Cell(m, j, i), d[Index(j, i, m.colB)], tol)
  }

  /** Closeness at every flat index gives closeness at every cell. */
  lemma CloseAtCellsFromFlat(m: Operands, d: seq<real>, tol: real)
    requires m.Valid() && |d| == m.rowA * m.colB
    requires forall p :: 0 <= p < |d| ==> Close(Product(m, m.rowA)[p], d[p], tol)
    ensures CloseAtCells(m, d, tol)
  {
    forall j: nat, i: nat | j < m.rowA && i < m.colB
      ensures Index(j, i, m.colB) < |d| && Close(Cell(m, j, i), d[Index(j, i, m.colB)], tol)
    {
      ProductAt(m, m.rowA, j, i);
      assert Index(j, i, m.colB) == j * m.colB + i;
    }
  }

  /** Closeness at every cell gives closeness at every flat index. */
  lemma FlatFromCloseAtCells(m: Operands, d: seq<real>, tol: real)
    requires m.Valid() && |d| == m.rowA * m.colB
    requires CloseAtCells(m, d, tol)
    ensures forall p :: 0 <= p < |d| ==> Close(Product(m, m.rowA)[p], d[p], tol)
  {
    forall p | 0 <= p < |d|
      ensures Close(Product(m, m.rowA)[p], d[p], tol)
    {
      RowMajorSplit(p, m.rowA, m.colB);
      var j: nat, i: nat := p / m.colB, p % m.colB;
      ProductAt(m, m.rowA, j, i);
      assert Index(j, i, m.colB) == j * m.colB + i == p;
      assert Close(Cell(m, j, i), d[Index(j, i, m.colB)], tol);
    }
  }

  /** Comparing the product with d at every flat index is comparing it at every cell (j, i). */
  lemma CloseEverywhere(m: Operands, d: seq<real>, tol: real)
    requires m.Valid() && |d| == m.rowA * m.colB
    ensures (forall p :: 0 <= p < |d| ==> Close(Product(m, m.rowA)[p], d[p], tol)) <==> CloseAtCells(m, d, tol)
  {
    if forall p :: 0 <= p < |d| ==> Close(Product(m, m.rowA)[p], d[p], tol) {
      CloseAtCellsFromFlat(m, d, tol);
    }
    if CloseAtCells(m, d, tol) {
      FlatFromCloseAtCells(m, d, tol);
    }
  }

  /**
    The baseline-and-compare flow of main: the verdict is a match exactly
    when every element of the parallel result lies within TOLERANCE of the
    exact row-major product, and a reported mismatch is the first element,
    in row-major order, that does not.
  */
  method CheckAgainstBaseline(A: array<real>, B: array<real>, cOpencl: array<real>, rowA: nat, colA: nat, colB: nat)
    returns (equal: int, report: Option<Mismatch>)
    requires A.Length == rowA * colA && B.Length == colA * colB
    requires cOpencl.Length == rowA * colB
    ensures equal == 0 || equal == 1
    ensures equal == 1 <==> report == None
    ensures equal == 1 <==> CloseAtCells(Operands(A[..], B[..], rowA, colA, colB), cOpencl[..], TOLERANCE)
    ensures report.Some? ==>
      && report.value.index < rowA * colB
      && report.value.index < |Product(Operands(A[..], B[..], rowA, colA, colB), rowA)|
      && report.value.expected == Product(Operands(A[..], B[..], rowA, colA, colB), rowA)[report.value.index]
      && report.value.actual == cOpencl[report.value.index]
      && !Close(report.value.expected, report.value.actual, TOLERANCE)
    ensures report.Some? ==> forall p :: 0 <= p < report.value.index ==>
      p < |Product(Operands(A[..], B[..], rowA, colA, colB), rowA)| &&
      Close(Product(Operands(A[..], B[..], rowA, colA, colB), rowA)[p], cOpencl[p], TOLERANCE)
  {
    ghost var m := Operands(A[..], B[..], rowA, colA, colB);
    var cSeq := new real[rowA * colB];
    ghost var written := MatMulSeq(A, B, cSeq, rowA, colA, colB);
    equal, report := CompareResults(cSeq, cOpencl, rowA * colB, TOLERANCE);
    assert cSeq[..] == Product(m, rowA);
    assert A[..] == m.a && B[..] == m.b;
    CloseEverywhere(m, cOpencl[..], TOLERANCE);
  }
}
