# OpenCL-GEMM host logic in Dafny

OpenCL-GEMM benchmarks dense single-precision matrix multiplication
C = A x B (A is ROW_A x COL_A, B is COL_A x COL_B, all buffers row-major).
A sequential triple loop produces the baseline. Four OpenCL kernel variants
are dispatched with a per-variant work geometry. The last parallel result is
then compared with the baseline under an absolute tolerance of 0.001.

This project models the sequential, integer and index logic of the host
program `main.cpp`:

- `SequentialMatMul`: `vec_mul_seq` as a method over `array<real>`. It is
  proved against `Product`, the row-major product built row by row. Each
  element is `PartialDot`, a sum accumulated in the loop's own order.
- `WorkGeometry`: the global/local size computation. It has two parts:
  `RoundUp` (ceiling to a multiple of the local size) and `GeometryFor`
  (with the WPT adjustment of variant 4). `ComputeGeometry` performs the
  in-place updates of the two-element size arrays.
- `Verification`: the mismatch scan of `main`, a first-witness-or-all
  search.
- `KernelNames`: `sprintf(kernel_cl, "vec_mul_%d", type)`, with `%d`
  modelled as decimal formatting. It also covers the 11-byte buffer and
  the four entry-point names.
- `Benchmark`: `main`'s baseline-and-compare flow, built from the
  `SequentialMatMul` and `Verification` methods.
- `Wrappers`: an `Option` type.

Elements are exact reals, so IEEE rounding is abstracted away. Sizes are
unbounded naturals.

## Model

| member | source | states |
|---|---|---|
| `SequentialMatMul.MatMulSeq` | main.cpp:88-102 | After the loop nest, C[j*COL_B+i] is the sum over k < COL_A of A[j*COL_A+k]*B[k*COL_B+i] for every j < ROW_A and i < COL_B. C[..ROW_A*COL_B] equals the row-major product. C is unchanged from ROW_A*COL_B on. A and B are only read. The write log shows each index below ROW_A*COL_B written exactly once, in row-major order. |
| `SequentialMatMul.RowColumnSum` | main.cpp:95-97 | The running `sum` over k < COL_A equals the product's element (j, i). |
| `SequentialMatMul.RowMajorInBounds` | main.cpp:96-98 | Every index the loop uses (j*COL_A+k, k*COL_B+i, j*COL_B+i) lies inside its buffer. |
| `SequentialMatMul.Product` | main.cpp:93-98 | The reference product of the first n rows has n*COL_B elements. |
| `SequentialMatMul.ProductAt` | main.cpp:93-98 | The reference product is row-major: element (r, c) sits at r*COL_B+c. |
| `SequentialMatMul.ProductCells` | main.cpp:93-98 | A buffer equal to the whole product holds element (j, i) at j*COL_B+i, for all j, i. |
| `SequentialMatMul.IdentityLeft` | main.cpp:93-98 | When A is the identity, element (j, i) of the product is B[j][i]. For example, [[1,0],[0,1]] x [[2,3],[4,5]] gives [[2,3],[4,5]]. |
| `WorkGeometry.RoundUp` | main.cpp:177-178 | (n + l - 1) / l * l is a multiple of l, at least n and below n + l. |
| `WorkGeometry.RoundUpLeast` | main.cpp:177-178 | The rounded size is the least multiple of the local size that covers n. |
| `WorkGeometry.RoundUpIdempotent` | main.cpp:177-178 | A size that is already a multiple stays unchanged (1024 with 16 stays 1024). Rounding twice equals rounding once. |
| `WorkGeometry.GeometryFor` | main.cpp:170-178 | In both dimensions, global is a multiple of local. Dimension 1 has local TS=16 and global in [COL_B, COL_B+16). Variants other than 4 have local 16 and global in [ROW_A, ROW_A+16) in dimension 0. Variant 4 has local TS/WPT = 2 and global in [ROW_A/WPT, ROW_A/WPT+2), with truncating division. |
| `WorkGeometry.ComputeGeometry` | main.cpp:170-178 | The two size arrays, after their in-place updates, hold GeometryFor's global and local extents. |
| `WorkGeometry.PlainVariants` | main.cpp:170-178 | For every type other than 4, local is (16, 16) and global is (ROW_A, COL_B) each rounded up to 16. |
| `WorkGeometry.ColumnsIndependentOfVariant` | main.cpp:173-178 | The WPT adjustment leaves dimension 1 alone: it is the same for every variant. |
| `WorkGeometry.RegisterBlockedCoverage` | main.cpp:173-177 | Variant 4's work-items, WPT rows each, cover all ROW_A rows exactly when ROW_A is a multiple of WPT or ROW_A/WPT is odd. |
| `WorkGeometry.RegisterBlockedDropsRow` | main.cpp:173-177 | With ROW_A = 17, variant 4 covers only 16 rows. |
| `WorkGeometry.CoveringGeometryFor` | main.cpp:173-177 | Corrected geometry, dividing with rounding up. It is tiled in both dimensions, has the same local sizes and dimension 1 as the source, and always covers ROW_A rows. |
| `WorkGeometry.CoveringAgreesWhenDivisible` | main.cpp:173-177 | When ROW_A is a multiple of WPT (1024 is), the corrected geometry equals the source's. |
| `Verification.Abs` | main.cpp:39 | fabs: non-negative, and equal to x or -x. |
| `Verification.CompareResults` | main.cpp:38-43 | The scan returns equal == 1 iff abs(C_seq[p] - C_opencl[p]) <= tol for every p < n, and otherwise equal == 0. A mismatch is reported exactly when equal == 0. It names the smallest violating index with both values. |
| `Benchmark.CloseEverywhere` | main.cpp:38-39 | Comparing the product at every flat index below ROW_A*COL_B is the same as comparing it at every cell (j, i). |
| `Benchmark.CheckAgainstBaseline` | main.cpp:31-46 | The verdict is "equal" iff every element of the parallel result is within 0.001 of the exact product element (j, i). A reported mismatch is the first index in row-major order whose product element and parallel value differ by more than 0.001: every earlier index is within 0.001. |
| `KernelNames.Digits` | main.cpp:165 | %d's digits: at least one, all decimal digits, no leading zero. |
| `KernelNames.FormatInt` | main.cpp:165 | %d of any int is non-empty. |
| `KernelNames.KernelName` | main.cpp:165 | The name starts with "vec_mul_" and has something after it. |
| `KernelNames.ParseDigitsInverse` | main.cpp:165 | Reading the printed digits back gives the number (round trip). |
| `KernelNames.DigitsLength` | main.cpp:164-165 | The digits of n number at most k iff n < 10^k. |
| `KernelNames.KernelNameFits` | main.cpp:164-165 | The name and its NUL fit the 11-byte buffer iff -9 <= type <= 99. |
| `KernelNames.FormatIntInjective` | main.cpp:165 | %d prints different ints as different strings. |
| `KernelNames.KernelNameInjective` | main.cpp:165 | Different types give different names. |
| `KernelNames.KernelNameIsEntryPoint` | main.cpp:165-166 | The name is one of vec_mul_1 .. vec_mul_4 iff 1 <= type <= 4. |
| `KernelNames.VariantNames` | main.cpp:164-165 | For the types main passes (1..4), the name is "vec_mul_" plus that digit: 9 characters, 10 bytes with the NUL. |

## Left out

- `get_source_code` (main.cpp:57-86) is file I/O. Its newline counter is computed and never used.
- All OpenCL calls are foreign calls with device-side concurrency: platform and device lookup, context, queue, program build and build log, buffers, kernel arguments, enqueue and release (main.cpp:117-235).
- The four kernel variants are not modelled. `kernel.cl` is not part of this model. `ENTRY_POINTS` stands for the four names it is expected to define.
- `main` runs variants 1..4 in turn and overwrites C_opencl each time, so only variant 4's output reaches the comparison. `CheckAgainstBaseline` takes that output as a parameter.
- `CHECK_ERROR`, `exit`, `clock()` timing and every `printf` are not modelled. They are process termination, wall-clock time and console output.
- The build-options `sprintf` (`-D TS=%d -D WPT=%d`, main.cpp:143) is not modelled. It is compiler plumbing.
- The random inputs (`srand`/`rand`, main.cpp:26-28) are not modelled. A and B are parameters.
- IEEE single-precision rounding of the products and sums is not modelled. Neither is the float-to-double promotion in the comparison. Values are `real`.
- `Verification.CompareResults` and `Benchmark.CheckAgainstBaseline`: in the source, a NaN difference (a NaN element, or two infinities of the same sign) makes `fabs(...) > 0.001` false, so that element counts as equal and the scan moves on. Reals have no NaN or infinity, so the model cannot express this case.
- The read-back at main.cpp:216 sizes its transfer with `sizeof(int)` instead of `sizeof(float)`. It is likely a defect, but its effect depends on platform type sizes, so it is not modelled.
- `SequentialMatMul.MatMulSeq`: the dimensions are `nat`. 32-bit `int` overflow of the index arithmetic is not modelled. It cannot occur for the 1024 x 1024 inputs `main` uses. The `type` parameter only labels the timing line and is dropped.
- `SequentialMatMul.RowColumnSum`: the innermost `k` loop of `vec_mul_seq` is a separate method here. It computes the same running sum.
- `WorkGeometry.ComputeGeometry`: `size_t` wrap-around of `global_size + local_size - 1` near 2^64 is not modelled. Sizes are unbounded naturals.

## Findings

| source | as written | input that shows it | evidently intended | confidence | as-written member | corrected member |
|---|---|---|---|---|---|---|
| main.cpp:173-177 | For variant 4, `global_size[0] /= WPT` truncates ROW_A / WPT before rounding up to the local size 2. | ROW_A = 17 with any COL_B gives global_size[0] = 2. Two work-items of WPT = 8 rows cover 16 rows, so row 16 has no work-item. | Divide rounding up, so that global_size[0] * WPT >= ROW_A for every ROW_A. Output dimensions need not be multiples of WPT. | low: not executed. The finding assumes each variant-4 work-item computes WPT rows; the kernel source is not part of this model. | `WorkGeometry.RegisterBlockedDropsRow` | `WorkGeometry.CoveringGeometryFor` |

`ComputeGeometry` keeps the source's arithmetic, so it is modelled as written. No other part of this model uses the geometry. `CoveringAgreesWhenDivisible` shows that the two definitions agree for the 1024-row inputs `main` uses.
