/** Reed-Solomon as the code of a commitment: its distance says how many columns must be drawn. */
module ReedSolomonCode {
  import opened Fields
  import opened Vectors
  import opened Options
  import opened Merkle
  import opened Polynomials
  import opened ReedSolomon
  import opened LinearCode
  import opened Commitment
  import opened Protocol
  import opened Openings
  import opened Transcripts
  import opened Soundness
  import opened PolynomialEvaluation

  // Messages of n symbols, evaluated at 1, 2, ..., len.
  function RsEncoding(n: nat, len: nat, colOpens: nat, degreeTests: nat): Encoding
    requires n < len
  {
    EncodingRecord(n, len, false, x => if |x| == len then Some(RsWord(x[..n], len)) else None, colOpens, degreeTests)
  }

  lemma RsCodeIsLinear(n: nat, len: nat, colOpens: nat, degreeTests: nat)
    requires 0 < n < len
    ensures IsLinearCode(RsEncoding(n, len, colOpens, degreeTests))
  {
    var enc := RsEncoding(n, len, colOpens, degreeTests);
    forall k, x, y | |x| == len && |y| == len ensures LinearAt(enc, k, x, y) {
      assert VAdd(x, Scale(k, y))[..n] == VAdd(x[..n], Scale(k, y[..n]));
      RsLinear(x[..n], k, y[..n], len);
    }
  }

  // Codewords of different messages differ in at least len - n + 1 places.
  lemma RsCodeHasDistance(n: nat, len: nat, colOpens: nat, degreeTests: nat)
    requires 0 < n < len && PointsNonzero(len)
    ensures IsLinearCode(RsEncoding(n, len, colOpens, degreeTests))
    ensures HasDistance(RsEncoding(n, len, colOpens, degreeTests), len - n + 1)
  {
    var enc := RsEncoding(n, len, colOpens, degreeTests);
    RsCodeIsLinear(n, len, colOpens, degreeTests);
    forall x, y | |x| == n && |y| == n && x != y
      ensures |Agreements(Codeword(enc, x), Codeword(enc, y))| + (len - n + 1) <= len
    {
      assert Resize(x, len)[..n] == x && Resize(y, len)[..n] == y;
      RsDistance(x, y, len);
    }
  }

  // n different columns are enough: any accepted proof that draws so many carries the true value,
  // or reveals a collision.
  lemma ManyColumnsAreEnough(n: nat, len: nat, colOpens: nat, degreeTests: nat, coeffs: Vector, c: LcCommit, x: Elem,
                             proof: LcEvalProof, h: History, value: Elem)
    requires 0 < n < len && PointsNonzero(len) && 0 < |coeffs|
    requires CommitSpec(coeffs, RsEncoding(n, len, colOpens, degreeTests)) == Ok(c)
    requires VerifySpec(Last(c.hashes), LeftVector(x, c.nPerRow, c.nRows), RightVector(x, c.nPerRow), proof,
                        RsEncoding(n, len, colOpens, degreeTests), h).0 == Accepted(value)
    requires n <= |Drawn(DrawnColumns(LeftVector(x, c.nPerRow, c.nRows), proof,
                                      RsEncoding(n, len, colOpens, degreeTests), h))|
    ensures HoldsTree(c) && |proof.columns| == colOpens && c.nCols == len
    ensures var left, enc := LeftVector(x, c.nPerRow, c.nRows), RsEncoding(n, len, colOpens, degreeTests);
      var drawn := DrawnColumns(left, proof, enc, h);
      match FirstCollision(c, proof.columns, drawn, colOpens)
      case Some(collision) => Reveals(c, proof.columns, drawn, colOpens, collision)
      case None => value == Eval(coeffs, x)
  {
    RsCodeHasDistance(n, len, colOpens, degreeTests);
    AcceptedPolynomialValue(coeffs, RsEncoding(n, len, colOpens, degreeTests), len - n + 1, c, x, proof, h, value);
  }
}
