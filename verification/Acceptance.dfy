/**
 What the verifier accepts, said without its intermediate values, and what each rejection means.
 */
module Acceptance {
  import opened Vectors
  import opened Options
  import opened Hashing
  import opened Merkle
  import opened LinearCode
  import opened Commitment
  import opened Transcripts
  import opened Protocol
  import opened RunHistories

  // ---------- the checks of one column ----------

  // A proof of the shape the verifier asks for, with a combination for every test.
  predicate RightShape(outer: Vector, inner: Vector, proof: LcEvalProof, enc: Encoding) {
    && 0 < enc.nColOpens == |proof.columns| && enc.nDegreeTests <= |proof.pRandomVec|
    && |inner| == |proof.pEval| == enc.nPerRow && |outer| == |proof.columns[0].col| && proof.nCols == enc.nCols
  }

  // The columns are drawn after everything the proof claims.
  function AskedColumns(proof: LcEvalProof, enc: Encoding, h: History): (cols: seq<nat>)
    requires enc.nDegreeTests <= |proof.pRandomVec| && 0 < proof.nCols
    ensures |cols| == enc.nColOpens && forall k :: 0 <= k < |cols| ==> cols[k] < proof.nCols
  {
    DrawColumns(h + Rounds(proof.pRandomVec[..enc.nDegreeTests], Claim(proof.pEval)), proof.nCols, enc.nColOpens)
  }

  // Tensor i of the degree tests is drawn after the combinations before it.
  function TestTensor(proof: LcEvalProof, h: History, i: nat, nRows: nat): Vector
    requires i <= |proof.pRandomVec|
  {
    DrawTensor(BeforeTensor(h, proof.pRandomVec, i), nRows)
  }

  // In every degree test the column, weighted with the tensor, is the entry of the encoded combination.
  ghost predicate DegreeHolds(proof: LcEvalProof, enc: Encoding, h: History, nRows: nat, column: LcColumn, j: nat)
    requires IsLinearCode(enc) && enc.nDegreeTests <= |proof.pRandomVec| && j < enc.nCols
  {
    forall i :: 0 <= i < enc.nDegreeTests ==>
      Dot(TestTensor(proof, h, i, nRows), column.col) == Codeword(enc, proof.pRandomVec[i])[j]
  }

  ghost predicate EvaluationHolds(proof: LcEvalProof, enc: Encoding, outer: Vector, column: LcColumn, j: nat)
    requires IsLinearCode(enc) && j < enc.nCols
  {
    Dot(outer, column.col) == Codeword(enc, proof.pEval)[j]
  }

  predicate PathHolds(root: Digest, column: LcColumn, j: nat) {
    Climb(LeafHash(column.col), j, column.path) == root
  }

  ghost predicate ColumnHolds(root: Digest, outer: Vector, inner: Vector, proof: LcEvalProof, enc: Encoding, h: History,
                              k: nat)
    requires IsLinearCode(enc) && RightShape(outer, inner, proof, enc) && k < enc.nColOpens
  {
    var column, j := proof.columns[k], AskedColumns(proof, enc, h)[k];
    && DegreeHolds(proof, enc, h, |outer|, column, j)
    && EvaluationHolds(proof, enc, outer, column, j)
    && PathHolds(root, column, j)
  }

  // ---------- in terms of the run ----------

  // The tests of a run with a linear code, and the words and draws of its proof.
  lemma TestsOfRun(outer: Vector, inner: Vector, proof: LcEvalProof, enc: Encoding, h: History)
    requires IsLinearCode(enc) && RightShape(outer, inner, proof, enc)
    ensures var tests := VerifierTests(proof.pRandomVec, enc, |outer|, h, enc.nDegreeTests);
      && !tests.failed
      && DrawColumns(AskColumns(tests.history, proof.pEval), proof.nCols, enc.nColOpens) == AskedColumns(proof, enc, h)
      && Fits(AskedColumns(proof, enc, h), tests, enc.nCols)
  {
    TestsDoNotFail(proof.pRandomVec, enc, |outer|, h, enc.nDegreeTests);
    VerifierTestRounds(proof.pRandomVec, enc, |outer|, h, enc.nDegreeTests, Claim(proof.pEval));
    var tests := VerifierTests(proof.pRandomVec, enc, |outer|, h, enc.nDegreeTests);
    assert AskColumns(tests.history, proof.pEval) == tests.history + Claim(proof.pEval);
  }

  lemma DegreeOkMeans(proof: LcEvalProof, enc: Encoding, h: History, nRows: nat, column: LcColumn, j: nat)
    requires IsLinearCode(enc) && enc.nDegreeTests <= |proof.pRandomVec| && j < enc.nCols
    ensures var tests := VerifierTests(proof.pRandomVec, enc, nRows, h, enc.nDegreeTests);
      !tests.failed && (DegreeOk(column, tests, j) <==> DegreeHolds(proof, enc, h, nRows, column, j))
  {
    var tests := VerifierTests(proof.pRandomVec, enc, nRows, h, enc.nDegreeTests);
    TestsDoNotFail(proof.pRandomVec, enc, nRows, h, enc.nDegreeTests);
    forall i | 0 <= i < enc.nDegreeTests
      ensures tests.tensors[i] == TestTensor(proof, h, i, nRows) && tests.words[i] == Codeword(enc, proof.pRandomVec[i])
    {
      TestsDrawn(proof.pRandomVec, enc, nRows, h, enc.nDegreeTests, i);
    }
  }

  lemma ColumnOkMeans(root: Digest, outer: Vector, inner: Vector, proof: LcEvalProof, enc: Encoding, h: History, k: nat)
    requires IsLinearCode(enc) && RightShape(outer, inner, proof, enc) && k < enc.nColOpens
    ensures var tests := VerifierTests(proof.pRandomVec, enc, |outer|, h, enc.nDegreeTests);
      && !tests.failed
      && (ColumnOk(proof.columns[k], AskedColumns(proof, enc, h)[k], outer, tests, Codeword(enc, proof.pEval), root)
          <==> ColumnHolds(root, outer, inner, proof, enc, h, k))
  {
    DegreeOkMeans(proof, enc, h, |outer|, proof.columns[k], AskedColumns(proof, enc, h)[k]);
  }

  // ---------- acceptance ----------

  // With a linear code the verifier accepts exactly the proofs of the right shape all of whose columns
  // hold, and returns the inner product of the claimed row.
  lemma AcceptedExactlyWhen(root: Digest, outer: Vector, inner: Vector, proof: LcEvalProof, enc: Encoding, h: History)
    requires IsLinearCode(enc)
    ensures var r := VerifySpec(root, outer, inner, proof, enc, h).0;
      && (r.Accepted? <==>
          RightShape(outer, inner, proof, enc)
          && forall k :: 0 <= k < enc.nColOpens ==> ColumnHolds(root, outer, inner, proof, enc, h, k))
      && (r.Accepted? ==> r.value == Dot(inner, proof.pEval))
  {
    TestsDoNotFail(proof.pRandomVec, enc, |outer|, h, TestsHeld(proof, enc));
    if RightShape(outer, inner, proof, enc) {
      TestsOfRun(outer, inner, proof, enc, h);
      var tests := VerifierTests(proof.pRandomVec, enc, |outer|, h, enc.nDegreeTests);
      var cols, evalWord := AskedColumns(proof, enc, h), Codeword(enc, proof.pEval);
      NoColumnError(proof.columns, cols, enc.nColOpens, outer, tests, evalWord, root);
      forall k | 0 <= k < enc.nColOpens
        ensures ColumnOk(proof.columns[k], cols[k], outer, tests, evalWord, root)
           <==> ColumnHolds(root, outer, inner, proof, enc, h, k)
      {
        ColumnOkMeans(root, outer, inner, proof, enc, h, k);
      }
      hide ColumnOk, ColumnHolds, AskColumns, VerifierTests, Codeword;
    }
  }

  // The shape is judged first, in this order and whatever else is wrong.
  lemma ShapeVerdicts(root: Digest, outer: Vector, inner: Vector, proof: LcEvalProof, enc: Encoding, h: History)
    requires IsLinearCode(enc)
    ensures var r := VerifySpec(root, outer, inner, proof, enc, h).0;
      var counted := 0 < enc.nColOpens == |proof.columns|;
      && (r == Rejected(NumColOpens) <==> !counted)
      && (r == Rejected(InnerTensor) <==> counted && |inner| != |proof.pEval|)
      && (r == Rejected(OuterTensor) <==>
          counted && |inner| == |proof.pEval| && |outer| != |proof.columns[0].col|)
      && (r == Rejected(EncodingDims) <==>
          counted && |inner| == |proof.pEval| && |outer| == |proof.columns[0].col|
          && (|proof.pEval|, proof.nCols) != (enc.nPerRow, enc.nCols))
      && r != Rejected(EncodingFailed)
  {
    TestsDoNotFail(proof.pRandomVec, enc, |outer|, h, TestsHeld(proof, enc));
    if RightShape(outer, inner, proof, enc) {
      TestsOfRun(outer, inner, proof, enc, h);
      var tests := VerifierTests(proof.pRandomVec, enc, |outer|, h, enc.nDegreeTests);
      ColumnErrors(proof.columns, AskedColumns(proof, enc, h), enc.nColOpens, outer, tests,
                   Codeword(enc, proof.pEval), root);
      hide AskColumns, VerifierTests, Codeword, ColumnsError;
    }
  }

  // ---------- rejection ----------

  lemma {:induction false} FirstFault(columns: seq<LcColumn>, cols: seq<nat>, n: nat, outer: Vector, tests: Tests,
                                      evalWord: Vector, root: Digest)
    returns (k: nat)
    requires n <= |columns| && n <= |cols| && Fits(cols, tests, |evalWord|)
    requires ColumnsError(columns, cols, n, outer, tests, evalWord, root).Some?
    ensures k < n && forall m :: 0 <= m < k ==> ColumnOk(columns[m], cols[m], outer, tests, evalWord, root)
    ensures ColumnsError(columns, cols, n, outer, tests, evalWord, root)
         == Some(if !DegreeOk(columns[k], tests, cols[k]) then ColumnDegree
                 else if !ColumnValueOk(columns[k], outer, evalWord[cols[k]]) then ColumnEval
                 else ColumnPath)
    ensures !ColumnOk(columns[k], cols[k], outer, tests, evalWord, root)
    decreases n
  {
    NoColumnError(columns, cols, n - 1, outer, tests, evalWord, root);
    if ColumnsError(columns, cols, n - 1, outer, tests, evalWord, root).Some? {
      k := FirstFault(columns, cols, n - 1, outer, tests, evalWord, root);
    } else {
      k := n - 1;
    }
  }

  // The error of a column that does not hold.
  ghost predicate Fault(root: Digest, outer: Vector, inner: Vector, proof: LcEvalProof, enc: Encoding, h: History,
                        k: nat, e: VerifierError)
    requires IsLinearCode(enc) && RightShape(outer, inner, proof, enc) && k < enc.nColOpens
  {
    var column, j := proof.columns[k], AskedColumns(proof, enc, h)[k];
    var degree := DegreeHolds(proof, enc, h, |outer|, column, j);
    var evaluation := EvaluationHolds(proof, enc, outer, column, j);
    || (e == ColumnDegree && !degree)
    || (e == ColumnEval && degree && !evaluation)
    || (e == ColumnPath && degree && evaluation && !PathHolds(root, column, j))
  }

  // A rejection over the columns names the first check that the first bad column fails.
  lemma RejectionNamesTheFault(root: Digest, outer: Vector, inner: Vector, proof: LcEvalProof, enc: Encoding,
                               h: History)
    returns (k: nat)
    requires IsLinearCode(enc) && RightShape(outer, inner, proof, enc)
    requires !VerifySpec(root, outer, inner, proof, enc, h).0.Accepted?
    ensures k < enc.nColOpens && VerifySpec(root, outer, inner, proof, enc, h).0.Rejected?
    ensures forall m :: 0 <= m < k ==> ColumnHolds(root, outer, inner, proof, enc, h, m)
    ensures Fault(root, outer, inner, proof, enc, h, k, VerifySpec(root, outer, inner, proof, enc, h).0.error)
  {
    TestsOfRun(outer, inner, proof, enc, h);
    var tests := VerifierTests(proof.pRandomVec, enc, |outer|, h, enc.nDegreeTests);
    var cols, evalWord := AskedColumns(proof, enc, h), Codeword(enc, proof.pEval);
    assert VerifySpec(root, outer, inner, proof, enc, h).0
        == Rejected(ColumnsError(proof.columns, cols, enc.nColOpens, outer, tests, evalWord, root).value);
    hide VerifySpec;
    k := FirstFault(proof.columns, cols, enc.nColOpens, outer, tests, evalWord, root);
    forall m | 0 <= m <= k
      ensures ColumnOk(proof.columns[m], cols[m], outer, tests, evalWord, root)
         <==> ColumnHolds(root, outer, inner, proof, enc, h, m)
    {
      ColumnOkMeans(root, outer, inner, proof, enc, h, m);
    }
    DegreeOkMeans(proof, enc, h, |outer|, proof.columns[k], cols[k]);
    hide DegreeOk, DegreeHolds, AskColumns, VerifierTests, ColumnsError;
  }

  // ---------- the prover's refusals ----------

  // The prover refuses exactly commitments whose sizes do not fit, and tensors of another length.
  lemma ProverVerdicts(c: LcCommit, outer: Vector, enc: Encoding, h: History)
    ensures var r := ProveSpec(c, outer, enc, h).0;
      var fits := && |c.comm| == c.nRows * c.nCols && |c.coeffs| == c.nRows * c.nPerRow
                  && |c.hashes| == 2 * NextPowerOfTwo(c.nCols) - 1
                  && c.nPerRow == enc.nPerRow && c.nCols == enc.nCols && c.nPerRow < c.nCols
                  && (enc.powerOfTwo ==> IsPowerOfTwo(c.nCols));
      && (r == Err(BadCommit) <==> !fits)
      && (r == Err(BadOuterTensor) <==> fits && |outer| != c.nRows)
      && (r.Ok? <==> fits && |outer| == c.nRows)
  {
  }
}
