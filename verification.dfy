/**
  The verification harness: compares the sequential result with a parallel
  result element by element, in row-major order, and stops at the first
  pair whose absolute difference exceeds the tolerance.
*/
module Verification {
  import opened Wrappers

  /** The absolute tolerance of the comparison. */
  const TOLERANCE: real := 0.001

  /** fabs */
  function Abs(x: real): (r: real)
    ensures r >= 0.0 && (r == x || r == -x)
  {
    if x < 0.0 then -x else x
  }

  /** The two results agree at one position. */
  predicate Close(expected: real, actual: real, tol: real) {
    Abs(expected - actual) <= tol
  }

  /** What is printed for the first mismatch: its index and both values. */
  datatype Mismatch = Mismatch(index: nat, expected: real, actual: real)

  /**
    The scan in main: `equal` starts at 1; the first index i < n whose pair
    is not Close is reported, `equal` becomes 0 and the loop breaks.
    Ends with equal == 1 exactly when every pair is Close; otherwise the
    report names the smallest index that is not.
  */
  method CompareResults(cSeq: array<real>, cPar: array<real>, n: nat, tol: real)
    returns (equal: int, report: Option<Mismatch>)
    requires n <= cSeq.Length && n <= cPar.Length
    ensures equal == 0 || equal == 1
    ensures equal == 1 <==> report == None
    ensures equal == 1 <==> forall p :: 0 <= p < n ==> Close(cSeq[p], cPar[p], tol)
    ensures report.Some? ==>
      && report.value.index < n
      && report.value.expected == cSeq[report.value.index]
      && report.value.actual == cPar[report.value.index]
      && !Close(report.value.expected, report.value.actual, tol)
      && forall p :: 0 <= p < report.value.index ==> Close(cSeq[p], cPar[p], tol)
  {
    equal := 1;
    report := None;
    var i := 0;
    while i < n
      invariant i <= n
      invariant equal == 1 && report == None
      invariant forall p :: 0 <= p < i ==> Close(cSeq[p], cPar[p], tol)
    {
      if Abs(cSeq[i] - cPar[i]) > tol {
        report := Some(Mismatch(i, cSeq[i], cPar[i]));
        equal := 0;
        break;
      }
      i := i + 1;
    }
  }
}
