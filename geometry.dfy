/**
  The work geometry a parallel variant is dispatched with: per dimension, a
  global extent rounded up to a multiple of the local (work-group) extent.
  Dimension 0 covers the rows of C (ROW_A), dimension 1 its columns (COL_B).
  Variant 4 lets each work-item compute WPT rows, so for it dimension 0 is
  first divided by WPT, both its global and its local extent.
  Sizes are size_t in the source; here they are unbounded naturals.
*/
module WorkGeometry {
  import opened Arithmetic

  /** The work-group edge length. */
  const TS: nat := 16
  /** The rows one work-item of variant 4 computes. */
  const WPT: nat := 8
  /** The variant whose dimension 0 is divided by WPT. */
  const REGISTER_BLOCKED: int := 4

  /** (n + l - 1) / l * l: n rounded up to a multiple of l. */
  function RoundUp(n: nat, l: nat): (r: nat)
    requires l > 0
    ensures r % l == 0
    ensures n <= r < n + l
  {
    var q := (n + l - 1) / l;
    MultipleMod(q, l);
    q * l
  }

  lemma MultipleMod(q: nat, l: nat)
    requires l > 0
    ensures (q * l) % l == 0
  {
    var r := (q * l) % l;
    var d := (q * l) / l;
    assert q * l == d * l + r;
    assert (q - d) * l == r;
    if q > d {
      MulAtLeast(q - d, l);
    } else if q < d {
      MulAtLeast(d - q, l);
    }
  }

  lemma MulAtLeast(x: nat, l: nat)
    requires x >= 1
    ensures x * l >= l
  {
  }

  /** Two different multiples of l are at least l apart. */
  lemma MultiplesApart(x: nat, y: nat, l: nat)
    requires l > 0 && x % l == 0 && y % l == 0 && y < x
    ensures x - y >= l
  {
    var qx, qy := x / l, y / l;
    assert x == qx * l && y == qy * l;
    MulCancel(qy, qx, l);
    assert (qx - qy) * l == x - y;
    MulAtLeast(qx - qy, l);
  }

  lemma MulCancel(a: nat, b: nat, l: nat)
    requires a * l < b * l
    ensures a < b
  {
    if b <= a {
      MulMonotone(b, a, l);
    }
  }

  /** RoundUp gives the least multiple of l that is at least n. */
  lemma RoundUpLeast(n: nat, l: nat, m: nat)
    requires l > 0 && m % l == 0 && n <= m
    ensures RoundUp(n, l) <= m
  {
    var r := RoundUp(n, l);
    if m < r {
      MultiplesApart(r, m, l);
    }
  }

  /** A size that already is a multiple of l is left unchanged; so rounding twice is rounding once. */
  lemma RoundUpIdempotent(n: nat, l: nat)
    requires l > 0
    ensures n % l == 0 ==> RoundUp(n, l) == n
    ensures RoundUp(RoundUp(n, l), l) == RoundUp(n, l)
  {
    if n % l == 0 {
      RoundUpLeast(n, l, n);
    }
    RoundUpLeast(RoundUp(n, l), l, RoundUp(n, l));
  }

  /** Global and local extent of one dimension. */
  datatype Extent = Extent(global: nat, local: nat)

  /** The two-dimensional work geometry: dim0 over the rows of C, dim1 over its columns. */
  datatype Geometry = Geometry(dim0: Extent, dim1: Extent)

  /** A dimension is tiled when its local extent is positive and divides its global extent. */
  predicate Tiled(e: Extent) {
    e.local > 0 && e.global % e.local == 0
  }

  /**
    The geometry vec_mul_opencl dispatches variant `variant` with: global
    (ROW_A, COL_B) and local (TS, TS); for variant 4 the row dimension's
    global and local extent are divided by WPT (truncating); then each
    global extent is rounded up to a multiple of its local extent.
  */
  function GeometryFor(rowA: nat, colB: nat, variant: int): (g: Geometry)
    ensures Tiled(g.dim0) && Tiled(g.dim1)
    ensures g.dim1.local == TS && colB <= g.dim1.global < colB + TS
    ensures variant != REGISTER_BLOCKED ==> g.dim0.local == TS && rowA <= g.dim0.global < rowA + TS
    ensures variant == REGISTER_BLOCKED ==>
      g.dim0.local == 2 && rowA / WPT <= g.dim0.global < rowA / WPT + 2
  {
    var local0 := if variant == REGISTER_BLOCKED then TS / WPT else TS;
    var global0 := if variant == REGISTER_BLOCKED then rowA / WPT else rowA;
    Geometry(Extent(RoundUp(global0, local0), local0), Extent(RoundUp(colB, TS), TS))
  }

  /**
    The geometry block of vec_mul_opencl: fills the two-element size arrays
    and updates them in place, dimension by dimension.
  */
  method ComputeGeometry(rowA: nat, colB: nat, variant: int) returns (globalSize: array<nat>, localSize: array<nat>)
    ensures fresh(globalSize) && fresh(localSize)
    ensures globalSize.Length == 2 && localSize.Length == 2
    ensures globalSize[0] == GeometryFor(rowA, colB, variant).dim0.global
    ensures globalSize[1] == GeometryFor(rowA, colB, variant).dim1.global
    ensures localSize[0] == GeometryFor(rowA, colB, variant).dim0.local
    ensures localSize[1] == GeometryFor(rowA, colB, variant).dim1.local
  {
    globalSize := new nat[2];
    globalSize[0], globalSize[1] := rowA, colB;
    localSize := new nat[2];
    localSize[0], localSize[1] := TS, TS;
    if variant == REGISTER_BLOCKED {
      globalSize[0] := globalSize[0] / WPT;
      localSize[0] := localSize[0] / WPT;
    }
    globalSize[0] := (globalSize[0] + localSize[0] - 1) / localSize[0] * localSize[0];
    globalSize[1] := (globalSize[1] + localSize[1] - 1) / localSize[1] * localSize[1];
  }

  /** Every variant other than 4 gets local extent (TS, TS) and global extents rounded from (ROW_A, COL_B). */
  lemma PlainVariants(rowA: nat, colB: nat, variant: int)
    requires variant != REGISTER_BLOCKED
    ensures GeometryFor(rowA, colB, variant) == Geometry(Extent(RoundUp(rowA, TS), TS), Extent(RoundUp(colB, TS), TS))
  {
    var g := GeometryFor(rowA, colB, variant);
    RoundUpLeast(rowA, TS, g.dim0.global);
    RoundUpLeast(g.dim0.global, TS, RoundUp(rowA, TS));
  }

  /** The WPT adjustment touches dimension 0 only: dimension 1 is the same for every variant. */
  lemma ColumnsIndependentOfVariant(rowA: nat, colB: nat, v: int, w: int)
    ensures GeometryFor(rowA, colB, v).dim1 == GeometryFor(rowA, colB, w).dim1
  {
  }

  /** The rows of C that the work-items of dimension 0 compute: WPT each for variant 4, one each otherwise. */
  function RowsCovered(g: Geometry, variant: int): nat {
    if variant == REGISTER_BLOCKED then g.dim0.global * WPT else g.dim0.global
  }

  /**
    As written, variant 4 covers every row exactly when ROW_A is a multiple
    of WPT or ROW_A / WPT is odd (so rounding up to the local extent 2 adds
    the rows the truncation dropped).
  */
  lemma RegisterBlockedCoverage(rowA: nat, colB: nat)
    ensures RowsCovered(GeometryFor(rowA, colB, REGISTER_BLOCKED), REGISTER_BLOCKED) >= rowA
        <==> rowA % WPT == 0 || (rowA / WPT) % 2 == 1
  {
    var q := rowA / WPT;
    var g0 := GeometryFor(rowA, colB, REGISTER_BLOCKED).dim0.global;
    assert rowA == q * WPT + rowA % WPT;
    if q % 2 == 0 {
      RoundUpIdempotent(q, 2);
      assert g0 == q;
    } else {
      assert g0 == q + 1;
    }
  }

  /** A concrete case: with ROW_A = 17 variant 4 dispatches 2 work-items of 8 rows, 16 rows in all. */
  lemma RegisterBlockedDropsRow()
    ensures RowsCovered(GeometryFor(17, 16, REGISTER_BLOCKED), REGISTER_BLOCKED) == 16
  {
    RegisterBlockedCoverage(17, 16);
    RoundUpIdempotent(2, 2);
  }

  /** ROW_A / WPT rounded up rather than down. */
  function CeilDiv(n: nat, d: nat): (q: nat)
    requires d > 0
    ensures q * d >= n && (q == 0 || (q - 1) * d < n)
  {
    var r := (n + d - 1) / d;
    assert (n + d - 1) == r * d + (n + d - 1) % d;
    assert (r - 1) * d == r * d - d;
    r
  }

  /**
    The geometry with the row division for variant 4 rounded up, so that the
    work-items cover every row of C whatever ROW_A is.
  */
  function CoveringGeometryFor(rowA: nat, colB: nat, variant: int): (g: Geometry)
    ensures Tiled(g.dim0) && Tiled(g.dim1)
    ensures g.dim0.local == (if variant == REGISTER_BLOCKED then TS / WPT else TS)
    ensures g.dim1 == GeometryFor(rowA, colB, variant).dim1
    ensures RowsCovered(g, variant) >= rowA
  {
    var local0 := if variant == REGISTER_BLOCKED then TS / WPT else TS;
    var global0 := if variant == REGISTER_BLOCKED then CeilDiv(rowA, WPT) else rowA;
    MulMonotone(global0, RoundUp(global0, local0), WPT);
    Geometry(Extent(RoundUp(global0, local0), local0), Extent(RoundUp(colB, TS), TS))
  }

  /** The covering geometry is the source's whenever ROW_A is a multiple of WPT (as with ROW_A = 1024). */
  lemma CoveringAgreesWhenDivisible(rowA: nat, colB: nat, variant: int)
    requires rowA % WPT == 0
    ensures CoveringGeometryFor(rowA, colB, variant) == GeometryFor(rowA, colB, variant)
  {
    if variant == REGISTER_BLOCKED {
      assert CeilDiv(rowA, WPT) == rowA / WPT;
    }
  }
}
