/** An honest proof of an honest commitment is accepted, with the true evaluation. */
module Completeness {
  import opened Vectors
  import opened Options
  import opened Merkle
  import opened LinearCode
  import opened Commitment
  import opened Transcripts
  import opened Protocol

  lemma {:induction false} CombinationsPrefix(c: LcCommit, h: History, n: nat, m: nat)
    requires c.nRows * c.nPerRow <= |c.coeffs| && n <= m
    ensures ProverTests(c, h, m).combinations[..n] == ProverTests(c, h, n).combinations
    decreases m
  {
    if n < m {
      CombinationsPrefix(c, h, n, m - 1);
      var before := ProverTests(c, h, m - 1).combinations;
      assert ProverTests(c, h, m).combinations[..n] == before[..n];
    }
  }

  // Tensor i of the verifier is the one combination i was made with, and word i its encoding.
  ghost predicate TestsAgree(c: LcCommit, enc: Encoding, combinations: seq<Vector>, tests: Tests)
    requires IsLinearCode(enc) && c.nRows * c.nPerRow <= |c.coeffs|
  {
    && !tests.failed
    && |tests.tensors| == |tests.words| <= |combinations|
    && forall i :: 0 <= i < |tests.words| ==>
         && |tests.tensors[i]| == c.nRows
         && combinations[i] == Collapse(c.coeffs, c.nPerRow, tests.tensors[i])
         && tests.words[i] == Codeword(enc, combinations[i])
  }

  // Prover and verifier draw the same challenges: their transcripts move in lockstep.
  lemma {:induction false} Lockstep(c: LcCommit, enc: Encoding, h: History, combinations: seq<Vector>, n: nat)
    requires IsLinearCode(enc) && c.nRows * c.nPerRow <= |c.coeffs|
    requires n <= |combinations| && combinations[..n] == ProverTests(c, h, n).combinations
    ensures TestsAgree(c, enc, combinations, VerifierTests(combinations, enc, c.nRows, h, n))
    ensures VerifierTests(combinations, enc, c.nRows, h, n).history == ProverTests(c, h, n).history
  {
    hide Collapse, DrawTensor, Messages;
    if n > 0 {
      var before := ProverTests(c, h, n - 1);
      assert ProverTests(c, h, n).combinations[..n - 1] == before.combinations;
      assert combinations[..n - 1] == combinations[..n][..n - 1];
      Lockstep(c, enc, h, combinations, n - 1);
      assert combinations[n - 1] == combinations[..n][n - 1];
      var word := Codeword(enc, combinations[n - 1]);
      assert enc.encode(Resize(combinations[n - 1], enc.nCols)) == Some(word);
    }
  }

  lemma HonestColumnOk(c: LcCommit, coeffs: Vector, enc: Encoding, outer: Vector, tests: Tests,
                       combinations: seq<Vector>, j: nat)
    requires 0 < |coeffs| && IsLinearCode(enc) && CommitSpec(coeffs, enc) == Ok(c) && j < enc.nCols
    requires |outer| == c.nRows && c.nRows * c.nPerRow <= |c.coeffs|
    requires TestsAgree(c, enc, combinations, tests)
    requires |c.comm| == c.nRows * c.nCols && |c.hashes| == 2 * NextPowerOfTwo(c.nCols) - 1
    ensures var evalWord := Codeword(enc, Collapse(c.coeffs, c.nPerRow, outer));
      ColumnOk(OpenColumnSpec(c, j).value, j, outer, tests, evalWord, Last(c.hashes))
  {
    EncodedColumnDot(enc, c.coeffs, outer, j);
    forall i | 0 <= i < |tests.words|
      ensures ColumnValueOk(OpenColumnSpec(c, j).value, tests.tensors[i], tests.words[i][j])
    {
      EncodedColumnDot(enc, c.coeffs, tests.tensors[i], j);
    }
    HonestOpeningClimbs(c.comm, c.nRows, c.nCols, j);
  }

  lemma CommitIsWellFormed(coeffs: Vector, enc: Encoding)
    requires 0 < |coeffs| && IsLinearCode(enc) && enc.nCols <= MAX_COLS
    ensures CommitSpec(coeffs, enc).Ok? && WellFormed(CommitSpec(coeffs, enc).value, enc)
  {
    EncodeRowsSucceeds(enc, PaddedCoeffs(enc, coeffs), RowCount(enc, |coeffs|));
  }

  lemma HonestProofPassesChecks(coeffs: Vector, enc: Encoding, outer: Vector, h: History, c: LcCommit,
                                proof: LcEvalProof)
    requires 0 < |coeffs| && IsLinearCode(enc) && enc.nCols <= MAX_COLS
    requires CommitSpec(coeffs, enc) == Ok(c) && WellFormed(c, enc) && |outer| == c.nRows
    requires ProveSpec(c, outer, enc, h).0 == Ok(proof)
    ensures var tests := VerifierTests(proof.pRandomVec, enc, |outer|, h, enc.nDegreeTests);
      var asked := AskColumns(tests.history, proof.pEval);
      var cols := DrawColumns(asked, proof.nCols, enc.nColOpens);
      var evalWord := Codeword(enc, proof.pEval);
      && !tests.failed && Fits(cols, tests, enc.nCols)
      && asked == ProveSpec(c, outer, enc, h).1
      && ColumnsError(proof.columns, cols, enc.nColOpens, outer, tests, evalWord, Last(c.hashes)).None?
  {
    hide Collapse, Climb, FlatPath, EncodeRows, Leaves;
    Lockstep(c, enc, h, proof.pRandomVec, enc.nDegreeTests);
    var tests := VerifierTests(proof.pRandomVec, enc, |outer|, h, enc.nDegreeTests);
    var asked := AskColumns(tests.history, proof.pEval);
    var cols := DrawColumns(asked, proof.nCols, enc.nColOpens);
    var evalWord := Codeword(enc, proof.pEval);
    forall j | 0 <= j < enc.nColOpens
      ensures ColumnOk(proof.columns[j], cols[j], outer, tests, evalWord, Last(c.hashes))
    {
      HonestColumnOk(c, coeffs, enc, outer, tests, proof.pRandomVec, cols[j]);
    }
    NoColumnError(proof.columns, cols, enc.nColOpens, outer, tests, evalWord, Last(c.hashes));
  }

  // For every list of coefficients, linear code, pair of tensors and transcript, the verifier
  // accepts the honest proof and returns outer^T * M * inner, leaving the transcript where the
  // prover left it.
  lemma HonestProofIsAccepted(coeffs: Vector, enc: Encoding, outer: Vector, inner: Vector, h: History)
    requires 0 < |coeffs| && IsLinearCode(enc) && enc.nCols <= MAX_COLS && 0 < enc.nColOpens
    requires |outer| == RowCount(enc, |coeffs|) && |inner| == enc.nPerRow
    ensures CommitSpec(coeffs, enc).Ok?
    ensures var c := CommitSpec(coeffs, enc).value;
      && c.nRows * c.nPerRow == |c.coeffs|
      && var (proof, asked) := ProveSpec(c, outer, enc, h);
      && proof.Ok?
      && |proof.value.pRandomVec| == enc.nDegreeTests
      && VerifySpec(Last(c.hashes), outer, inner, proof.value, enc, h)
         == (Accepted(Bilinear(outer, RowsOf(c.coeffs, c.nPerRow, c.nRows), inner)), asked)
  {
    CommitIsWellFormed(coeffs, enc);
    var c := CommitSpec(coeffs, enc).value;
    var proof := ProveSpec(c, outer, enc, h).0.value;
    HonestProofPassesChecks(coeffs, enc, outer, h, c, proof);
    CollapseIsCombine(c.coeffs, c.nPerRow, outer);
    CombineThenDot(outer, RowsOf(c.coeffs, c.nPerRow, c.nRows), c.nPerRow, inner);
  }
}
