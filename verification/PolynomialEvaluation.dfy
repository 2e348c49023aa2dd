/**
 A file as the coefficients of a polynomial, and its evaluation at a point as a product of the
 coefficient matrix with two side vectors.
 */
module PolynomialEvaluation {
  import opened Arithmetic
  import opened Fields
  import opened Vectors
  import opened Polynomials
  import opened Merkle
  import opened LinearCode
  import opened Commitment
  import opened Transcripts
  import opened Protocol
  import opened Openings
  import opened Completeness
  import opened Soundness

  // ---------- evaluating the coefficients ----------

  method EvaluateAtPoint(coefficients: Vector, point: Elem) returns (result: Elem)
    ensures result == Eval(coefficients, point)
  {
    result := EvaluateFromPower(coefficients, point, 0, 1);
    MulLaws(Eval(coefficients, point), 1, 1);
  }

  method EvaluateAtPointWithElevatedDegree(coefficients: Vector, point: Elem, degreeOffset: nat) returns (result: Elem)
    ensures result == Mul(Pow(point, degreeOffset), Eval(coefficients, point))
  {
    result := EvaluateFromPower(coefficients, point, degreeOffset, Pow(point, degreeOffset));
  }

  // Adds up the coefficients times the powers of the point from point^k on.
  method EvaluateFromPower(coefficients: Vector, point: Elem, ghost k: nat, start: Elem) returns (result: Elem)
    requires start == Pow(point, k)
    ensures result == Mul(Pow(point, k), Eval(coefficients, point))
  {
    result := 0;
    var currentPower := start;
    ghost var powers := Powers(point, k, |coefficients|);
    for i := 0 to |coefficients|
      invariant currentPower == Pow(point, k + i)
      invariant result == DotFirst(coefficients, powers, i)
    {
      result := Add(result, Mul(coefficients[i], currentPower));
      currentPower := Mul(currentPower, point);
    }
    PowerSumIsEval(coefficients, point, k);
  }

  // ---------- side vectors ----------

  // 1, x^w, x^2w, ...
  function LeftVector(x: Elem, w: nat, n: nat): (v: Vector)
    ensures |v| == n
  {
    Powers(Pow(x, w), 0, n)
  }

  // 1, x, x^2, ...
  function RightVector(x: Elem, w: nat): (v: Vector)
    ensures |v| == w
  {
    Powers(x, 0, w)
  }

  method FormSideVectors(point: Elem, nRows: nat, nCols: nat) returns (left: Vector, right: Vector)
    ensures left == LeftVector(point, nCols, nRows) && right == RightVector(point, nCols)
  {
    var acc;
    right, acc := Accumulate(point, nCols);
    var rest;
    left, rest := Accumulate(acc, nRows);
  }

  method Accumulate(factor: Elem, n: nat) returns (v: Vector, acc: Elem)
    ensures v == Powers(factor, 0, n) && acc == Pow(factor, n)
  {
    v, acc := [], 1;
    for i := 0 to n
      invariant v == Powers(factor, 0, n)[..i] && acc == Pow(factor, i)
    {
      v := v + [acc];
      acc := Mul(acc, factor);
    }
  }

  // left^T * M * right is the polynomial whose coefficients are the entries of M, row after row.
  lemma {:induction false} SideVectorsEvaluate(m: Vector, w: nat, n: nat, x: Elem)
    requires |m| == n * w
    ensures Bilinear(LeftVector(x, w, n), RowsOf(m, w, n), RightVector(x, w)) == Eval(m, x)
    decreases n
  {
    if n > 0 {
      var k := n - 1;
      MulDistributes(k, 1, w);
      MulLe(0, k, w);
      var upper, row := m[..k * w], m[k * w..];
      assert m == upper + row;
      SideVectorsEvaluate(upper, w, k, x);
      AppendRow(upper, row, w, k);
      var rows, right := RowsOf(m, w, n), RightVector(x, w);
      assert rows[..k] == RowsOf(upper, w, k) && rows[k] == row;
      DotFirstPrefix(LeftVector(x, w, n), RowDots(rows, right), LeftVector(x, w, k), RowDots(rows[..k], right), k);
      EvalIsPowerSum(row, x);
      EvalConcat(upper, row, x);
      PowMul(x, w, k);
      MulCommutes(w, k);
    }
  }

  // The value does not depend on how the coefficients are laid out in rows.
  lemma ShapeIndependent(coeffs: Vector, enc: Encoding, x: Elem)
    requires 0 < enc.nPerRow
    ensures |coeffs| <= |PaddedCoeffs(enc, coeffs)| == RowCount(enc, |coeffs|) * enc.nPerRow
    ensures var n, w := RowCount(enc, |coeffs|), enc.nPerRow;
      Bilinear(LeftVector(x, w, n), RowsOf(PaddedCoeffs(enc, coeffs), w, n), RightVector(x, w)) == Eval(coeffs, x)
  {
    var n, w := RowCount(enc, |coeffs|), enc.nPerRow;
    CeilDivBounds(|coeffs|, w);
    SideVectorsEvaluate(PaddedCoeffs(enc, coeffs), w, n, x);
    EvalPadded(coeffs, n * w, x);
  }

  // ---------- the protocol evaluates the polynomial ----------

  // In every shape and with every linear code, the honest proof for the side vectors of a point is
  // accepted with the value of the polynomial there.
  lemma HonestPolynomialValue(coeffs: Vector, enc: Encoding, x: Elem, h: History)
    requires 0 < |coeffs| && IsLinearCode(enc) && enc.nCols <= MAX_COLS && 0 < enc.nColOpens
    ensures CommitSpec(coeffs, enc).Ok?
    ensures var c := CommitSpec(coeffs, enc).value;
      var left, right := LeftVector(x, c.nPerRow, c.nRows), RightVector(x, c.nPerRow);
      var (proof, asked) := ProveSpec(c, left, enc, h);
      && proof.Ok? && |proof.value.pRandomVec| == enc.nDegreeTests
      && VerifySpec(Last(c.hashes), left, right, proof.value, enc, h) == (Accepted(Eval(coeffs, x)), asked)
  {
    var n, w := RowCount(enc, |coeffs|), enc.nPerRow;
    HonestProofIsAccepted(coeffs, enc, LeftVector(x, w, n), RightVector(x, w), h);
    ShapeIndependent(coeffs, enc, x);
  }

  // Whatever the prover sent: an accepted value at a point is the value of the committed
  // polynomial there, or the proof reveals a collision.
  lemma AcceptedPolynomialValue(coeffs: Vector, enc: Encoding, d: nat, c: LcCommit, x: Elem,
                                proof: LcEvalProof, h: History, value: Elem)
    requires 0 < |coeffs| && IsLinearCode(enc) && HasDistance(enc, d) && CommitSpec(coeffs, enc) == Ok(c)
    requires VerifySpec(Last(c.hashes), LeftVector(x, c.nPerRow, c.nRows), RightVector(x, c.nPerRow), proof, enc, h).0
          == Accepted(value)
    requires enc.nCols < |Drawn(DrawnColumns(LeftVector(x, c.nPerRow, c.nRows), proof, enc, h))| + d
    ensures HoldsTree(c) && |proof.columns| == enc.nColOpens
    ensures var drawn := DrawnColumns(LeftVector(x, c.nPerRow, c.nRows), proof, enc, h);
      match FirstCollision(c, proof.columns, drawn, enc.nColOpens)
      case Some(x) => Reveals(c, proof.columns, drawn, enc.nColOpens, x)
      case None => value == Eval(coeffs, x)
  {
    AcceptedEvaluationIsTrue(coeffs, enc, d, c, LeftVector(x, c.nPerRow, c.nRows), RightVector(x, c.nPerRow),
                             proof, h, value);
    ShapeIndependent(coeffs, enc, x);
  }
}
