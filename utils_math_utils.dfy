/** The second copy of `MathUtils.matrixToCanvasTransform`, in src/utils/MathUtils.ts. */
module UtilsMathUtils {
  import opened Wrappers
  import opened Matrices
  import MathUtils

  /** `matrixToCanvasTransform` of src/utils/MathUtils.ts: fails unless the matrix has three
      rows and its first row three entries; otherwise returns six entries, read column by
      column from the top two rows. What that layout means is stated by
      `AgreesWithModelCopy` (the canvas reading of the model copy) and `IgnoresBottomRow`. */
  function MatrixToCanvasTransform(m: Matrix): (r: Result<seq<real>, MathUtils.MathError>)
    requires IsRectangular(m)
    ensures r.Failure? <==> !(|m| == 3 && |m[0]| == 3)
    ensures r.Success? ==> Is3x3(m) && |r.value| == 6
    ensures r.Success? ==> forall k :: 0 <= k < 6 ==> r.value[k] == m[k % 2][k / 2]
  {
    if |m| != 3 || |m[0]| != 3 then
      Failure(MathUtils.NotThreeByThree)
    else
      Success([m[0][0], m[1][0], m[0][1], m[1][1], m[0][2], m[1][2]])
  }

  /** The two copies of the helper agree on every matrix. */
  lemma AgreesWithModelCopy(m: Matrix)
    requires IsRectangular(m)
    ensures MatrixToCanvasTransform(m) == MathUtils.MatrixToCanvasTransform(m)
  {
  }

  /** Two matrices that differ only in their bottom row produce identical output. */
  lemma IgnoresBottomRow(m: Matrix, n: Matrix)
    requires Is3x3(m) && Is3x3(n) && m[0] == n[0] && m[1] == n[1]
    ensures MatrixToCanvasTransform(m) == MatrixToCanvasTransform(n)
  {
    var rm, rn := MatrixToCanvasTransform(m), MatrixToCanvasTransform(n);
    assert forall k :: 0 <= k < 6 ==> rm.value[k] == rn.value[k];
  }
}
