/**
  The sequential reference engine: a triple loop over row-major buffers that
  fills C (ROW_A x COL_B) with the product of A (ROW_A x COL_A) and
  B (COL_A x COL_B). Elements are exact reals, so the float rounding of the
  running sum is abstracted away; the sum is still accumulated in the order
  the loop uses (k ascending).
*/
module SequentialMatMul {
  import opened Arithmetic

  /** The row-major position of element (r, c) in a buffer with cols columns. */
  function Index(r: nat, c: nat, cols: nat): nat {
    r * cols + c
  }

  /** Element (r, c) of a rows x cols row-major buffer lies inside it. */
  lemma RowMajorInBounds(r: nat, c: nat, rows: nat, cols: nat)
    requires r < rows && c < cols
    ensures r * cols + c < rows * cols
  {
    MulMonotone(r + 1, rows, cols);
  }

  /** A flat index p below rows * cols is the row-major index of (p / cols, p % cols). */
  lemma RowMajorSplit(p: nat, rows: nat, cols: nat)
    requires p < rows * cols
    ensures cols > 0 && p / cols < rows && p % cols < cols
    ensures Index(p / cols, p % cols, cols) == p
  {
    if rows <= p / cols {
      MulMonotone(rows, p / cols, cols);
    }
  }

  /** The two operands of one multiplication, with the dimensions passed alongside them. */
  datatype Operands = Operands(a: seq<real>, b: seq<real>, rowA: nat, colA: nat, colB: nat)
  {
    /** A holds ROW_A x COL_A elements and B holds COL_A x COL_B elements. */
    predicate Valid() {
      |a| == rowA * colA && |b| == colA * colB
    }

    /** A[j][k], stored at A[j * COL_A + k]. */
    function A(j: nat, k: nat): real
      requires Valid() && j < rowA && k < colA
    {
      RowMajorInBounds(j, k, rowA, colA);
      a[j * colA + k]
    }

    /** B[k][i], stored at B[k * COL_B + i]. */
    function B(k: nat, i: nat): real
      requires Valid() && k < colA && i < colB
    {
      RowMajorInBounds(k, i, colA, colB);
      b[k * colB + i]
    }
  }

  /** The sum of A[j][k] * B[k][i] over k < n, added up in ascending k as the source's running sum. */
  function PartialDot(m: Operands, j: nat, i: nat, n: nat): real
    requires m.Valid() && j < m.rowA && i < m.colB && n <= m.colA
  {
    if n == 0 then 0.0 else PartialDot(m, j, i, n - 1) + m.A(j, n - 1) * m.B(n - 1, i)
  }

  /** Element (j, i) of the product: the sum over every k < COL_A. */
  function Cell(m: Operands, j: nat, i: nat): real
    requires m.Valid() && j < m.rowA && i < m.colB
  {
    PartialDot(m, j, i, m.colA)
  }

  /** Elements (j, 0) .. (j, n - 1) of the product. */
  function RowPrefix(m: Operands, j: nat, n: nat): (r: seq<real>)
    requires m.Valid() && j < m.rowA && n <= m.colB
    ensures |r| == n
  {
    if n == 0 then [] else RowPrefix(m, j, n - 1) + [Cell(m, j, n - 1)]
  }

  /** Rows 0 .. n - 1 of the product, laid out row-major. */
  function Product(m: Operands, n: nat): (c: seq<real>)
    requires m.Valid() && n <= m.rowA
    ensures |c| == n * m.colB
  {
    if n == 0 then [] else Product(m, n - 1) + RowPrefix(m, n - 1, m.colB)
  }

  lemma {:induction false} RowPrefixAt(m: Operands, j: nat, n: nat, c: nat)
    requires m.Valid() && j < m.rowA && n <= m.colB && c < n
    ensures RowPrefix(m, j, n)[c] == Cell(m, j, c)
  {
    if c < n - 1 {
      RowPrefixAt(m, j, n - 1, c);
    }
  }

  /** The product is row-major: element (r, c) sits at index r * COL_B + c. */
  lemma {:induction false} ProductAt(m: Operands, n: nat, r: nat, c: nat)
    requires m.Valid() && n <= m.rowA && r < n && c < m.colB
    ensures r * m.colB + c < |Product(m, n)|
    ensures Product(m, n)[r * m.colB + c] == Cell(m, r, c)
  {
    RowMajorInBounds(r, c, n, m.colB);
    if r == n - 1 {
      RowPrefixAt(m, r, m.colB, c);
    } else {
      RowMajorInBounds(r, c, n - 1, m.colB);
      ProductAt(m, n - 1, r, c);
    }
  }

  /** A buffer that holds the whole product holds Cell(m, j, i) at j * COL_B + i, for every row j and column i. */
  lemma ProductCells(m: Operands, c: seq<real>)
    requires m.Valid() && c == Product(m, m.rowA)
    ensures forall j: nat, i: nat :: j < m.rowA && i < m.colB ==>
      Index(j, i, m.colB) < |c| && c[Index(j, i, m.colB)] == Cell(m, j, i)
  {
    forall j: nat, i: nat | j < m.rowA && i < m.colB
      ensures Index(j, i, m.colB) < |c| && c[Index(j, i, m.colB)] == Cell(m, j, i)
    {
      ProductAt(m, m.rowA, j, i);
    }
  }

  /** A is the n x n identity matrix. */
  ghost predicate IsIdentity(m: Operands)
    requires m.Valid()
  {
    m.rowA == m.colA &&
    forall r: nat, c: nat :: r < m.rowA && c < m.colA ==> m.A(r, c) == if r == c then 1.0 else 0.0
  }

  lemma {:induction false} IdentityPartialDot(m: Operands, j: nat, i: nat, n: nat)
    requires m.Valid() && IsIdentity(m) && j < m.rowA && i < m.colB && n <= m.colA
    ensures PartialDot(m, j, i, n) == if j < n then m.B(j, i) else 0.0
  {
    if n > 0 {
      IdentityPartialDot(m, j, i, n - 1);
    }
  }

  /** Multiplying by the identity on the left gives back B, element by element. */
  lemma IdentityLeft(m: Operands, j: nat, i: nat)
    requires m.Valid() && IsIdentity(m) && j < m.rowA && i < m.colB
    ensures Cell(m, j, i) == m.B(j, i)
  {
    IdentityPartialDot(m, j, i, m.colA);
  }

  /**
    The innermost loop of vec_mul_seq: the running sum of A[j][k] * B[k][i]
    for k from 0 up to COL_A.
  */
  method RowColumnSum(A: array<real>, B: array<real>, rowA: nat, colA: nat, colB: nat, j: nat, i: nat)
    returns (sum: real)
    requires A.Length == rowA * colA && B.Length == colA * colB
    requires j < rowA && i < colB
    ensures sum == Cell(Operands(A[..], B[..], rowA, colA, colB), j, i)
  {
    ghost var m := Operands(A[..], B[..], rowA, colA, colB);
    sum := 0.0;
    var k := 0;
    while k < colA
      invariant k <= colA
      invariant sum == PartialDot(m, j, i, k)
    {
      RowMajorInBounds(j, k, rowA, colA);
      RowMajorInBounds(k, i, colA, colB);
      sum := sum + A[j * colA + k] * B[k * colB + i];
      k := k + 1;
    }
  }

  /**
    vec_mul_seq: for every row j and column i, sums A[j][k] * B[k][i] over k
    into a running total and stores it at C[j * COL_B + i]. A and B are only
    read; C is written at indices below ROW_A * COL_B, each once, in
    row-major order. The ghost log `written` records each index next to the
    assignment `C[q] := sum`; Dafny does not link the log to the array
    writes, so the "once, in order" claim rests on the log being appended
    beside that one assignment, while the frame (`modifies C` and the
    unchanged suffix) is what the verifier itself checks.
  */
  method MatMulSeq(A: array<real>, B: array<real>, C: array<real>, rowA: nat, colA: nat, colB: nat)
    returns (ghost written: seq<nat>)
    requires A.Length == rowA * colA && B.Length == colA * colB
    requires rowA * colB <= C.Length
    requires C != A && C != B
    modifies C
    ensures C[..rowA * colB] == Product(Operands(A[..], B[..], rowA, colA, colB), rowA)
    ensures forall j: nat, i: nat :: j < rowA && i < colB ==>
      Index(j, i, colB) < C.Length && C[Index(j, i, colB)] == Cell(Operands(A[..], B[..], rowA, colA, colB), j, i)
    ensures C[rowA * colB..] == old(C[rowA * colB..])
    ensures |written| == rowA * colB && forall t :: 0 <= t < |written| ==> written[t] == t
  {
    ghost var m := Operands(A[..], B[..], rowA, colA, colB);
    written := [];
    var j := 0;
    while j < rowA
      invariant j <= rowA
      invariant j * colB <= rowA * colB
      invariant C[..j * colB] == Product(m, j)
      invariant forall p :: j * colB <= p < C.Length ==> C[p] == old(C[p])
      invariant |written| == j * colB && forall t :: 0 <= t < |written| ==> written[t] == t
    {
      MulMonotone(j + 1, rowA, colB);
      var row := j * colB;
      assert row + colB <= rowA * colB;
      var i := 0;
      while i < colB
        invariant i <= colB
        invariant C[..row + i] == Product(m, j) + RowPrefix(m, j, i)
        invariant forall p :: row + i <= p < C.Length ==> C[p] == old(C[p])
        invariant |written| == row + i && forall t :: 0 <= t < |written| ==> written[t] == t
      {
        var sum := RowColumnSum(A, B, rowA, colA, colB, j, i);
        var q := row + i;
        assert C[..q + 1] == C[..q] + [C[q]];
        C[q] := sum;
        written := written + [q];
        assert C[..q + 1] == Product(m, j) + RowPrefix(m, j, i) + [Cell(m, j, i)];
        i := i + 1;
      }
      assert row + colB == (j + 1) * colB;
      j := j + 1;
    }
    assert A[..] == m.a && B[..] == m.b;
    ProductCells(m, C[..rowA * colB]);
  }
}
