/** The polynomial commitment over the generated expander codes. */
module Brakedown {
  import opened Fields
  import opened Vectors
  import opened Merkle
  import opened Polynomials
  import opened ExpanderCode
  import opened CodeDimensions
  import opened LinearCode
  import opened Commitment
  import opened Transcripts
  import opened Protocol
  import opened Openings
  import opened Soundness
  import opened PolynomialEvaluation

  // The code, with the numbers of columns opened and of degree tests the caller chose.
  function EncodingOf(g: GeneratedCode, colOpens: nat, degreeTests: nat): Encoding
    requires IsKnown(g.spec) && 0 < |g.pre| && Chained(g.pre, g.post, g.n, BaseSize(g.spec, g.n))
  {
    ExpanderEncoding(g.pre, g.post, g.n, BaseSize(g.spec, g.n), colOpens, degreeTests)
  }

  // Every generated code is what the commitment asks for: a linear injective map from n symbols to
  // r*n rounded up, more than n.
  lemma GeneratedCodeIsLinear(g: GeneratedCode, colOpens: nat, degreeTests: nat)
    requires g.Valid()
    ensures 0 < |g.pre| && Chained(g.pre, g.post, g.n, BaseSize(g.spec, g.n))
    ensures var enc := EncodingOf(g, colOpens, degreeTests);
      && IsLinearCode(enc) && InjectiveOnMessages(enc) && HasDistance(enc, 1)
      && enc.nPerRow == g.n < enc.nCols == WordSize(g.spec, g.n)
  {
    GeneratedCodeFits(g.spec, g.n, g.terms, g.pre, g.post);
    ExpanderCodeIsLinear(g.pre, g.post, g.n, BaseSize(g.spec, g.n), colOpens, degreeTests);
    InjectiveHasDistanceOne(EncodingOf(g, colOpens, degreeTests));
  }

  // With any generated code, the honest proof of any polynomial's value at any point is accepted.
  lemma HonestValueIsAccepted(g: GeneratedCode, colOpens: nat, degreeTests: nat, coeffs: Vector, x: Elem, h: History)
    requires g.Valid() && 0 < |coeffs| && 0 < colOpens && WordSize(g.spec, g.n) <= MAX_COLS
    ensures 0 < |g.pre| && Chained(g.pre, g.post, g.n, BaseSize(g.spec, g.n))
    ensures CommitSpec(coeffs, EncodingOf(g, colOpens, degreeTests)).Ok?
    ensures var enc := EncodingOf(g, colOpens, degreeTests);
      var c := CommitSpec(coeffs, enc).value;
      var left, right := LeftVector(x, c.nPerRow, c.nRows), RightVector(x, c.nPerRow);
      var (proof, asked) := ProveSpec(c, left, enc, h);
      && proof.Ok? && |proof.value.pRandomVec| == enc.nDegreeTests
      && VerifySpec(Last(c.hashes), left, right, proof.value, enc, h) == (Accepted(Eval(coeffs, x)), asked)
  {
    GeneratedCodeIsLinear(g, colOpens, degreeTests);
    HonestPolynomialValue(coeffs, EncodingOf(g, colOpens, degreeTests), x, h);
  }

  // With any generated code, an accepted proof whose draws hit every column carries the true
  // value, or reveals a collision.
  lemma AcceptedValueIsTrue(g: GeneratedCode, colOpens: nat, degreeTests: nat, coeffs: Vector, c: LcCommit, x: Elem,
                            proof: LcEvalProof, h: History, value: Elem)
    requires g.Valid() && 0 < |coeffs|
    requires 0 < |g.pre| && Chained(g.pre, g.post, g.n, BaseSize(g.spec, g.n))
    requires CommitSpec(coeffs, EncodingOf(g, colOpens, degreeTests)) == Ok(c)
    requires VerifySpec(Last(c.hashes), LeftVector(x, c.nPerRow, c.nRows), RightVector(x, c.nPerRow), proof,
                        EncodingOf(g, colOpens, degreeTests), h).0 == Accepted(value)
    requires forall j: nat :: j < c.nCols ==>
      j in DrawnColumns(LeftVector(x, c.nPerRow, c.nRows), proof, EncodingOf(g, colOpens, degreeTests), h)
    ensures HoldsTree(c) && |proof.columns| == colOpens
    ensures var left, enc := LeftVector(x, c.nPerRow, c.nRows), EncodingOf(g, colOpens, degreeTests);
      var drawn := DrawnColumns(left, proof, enc, h);
      match FirstCollision(c, proof.columns, drawn, colOpens)
      case Some(x) => Reveals(c, proof.columns, drawn, colOpens, x)
      case None => value == Eval(coeffs, x)
  {
    var enc := EncodingOf(g, colOpens, degreeTests);
    GeneratedCodeIsLinear(g, colOpens, degreeTests);
    DrawingAllColumnsIsEnough(enc, DrawnColumns(LeftVector(x, c.nPerRow, c.nRows), proof, enc, h));
    AcceptedPolynomialValue(coeffs, enc, 1, c, x, proof, h, value);
  }
}
