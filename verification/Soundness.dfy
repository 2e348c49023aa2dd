/**
 What an accepted proof establishes about an honest commitment, whatever the prover sent: the
 evaluation is the true one, or the proof contains a collision of the hash function.
 */
module Soundness {
  import opened Fields
  import opened Vectors
  import opened Options
  import opened Hashing
  import opened Merkle
  import opened LinearCode
  import opened Commitment
  import opened Transcripts
  import opened Protocol
  import opened Openings
  import opened Acceptance
  import opened Completeness

  // ---------- distance ----------

  // Codewords of different messages differ in at least d places.
  ghost predicate HasDistance(enc: Encoding, d: nat)
    requires IsLinearCode(enc)
  {
    forall x, y :: |x| == enc.nPerRow && |y| == enc.nPerRow && x != y ==>
      |Agreements(Codeword(enc, x), Codeword(enc, y))| + d <= enc.nCols
  }

  ghost function Drawn(cols: seq<nat>): set<nat> {
    set i | 0 <= i < |cols| :: cols[i]
  }

  lemma SubsetSize<T>(a: set<T>, b: set<T>)
    requires a <= b
    ensures |a| <= |b|
    decreases |a|
  {
    if a != {} {
      var x :| x in a;
      SubsetSize(a - {x}, b - {x});
    }
  }

  // A word that matches the codeword of `truth` on enough places can only come from `truth`.
  lemma DistanceDecides(enc: Encoding, d: nat, claim: Vector, truth: Vector, places: set<nat>)
    requires IsLinearCode(enc) && HasDistance(enc, d)
    requires |claim| == enc.nPerRow && |truth| == enc.nPerRow
    requires forall j :: j in places ==> j < enc.nCols && Codeword(enc, claim)[j] == Codeword(enc, truth)[j]
    requires enc.nCols < |places| + d
    ensures claim == truth
  {
    SubsetSize(places, Agreements(Codeword(enc, claim), Codeword(enc, truth)));
  }

  // ---------- the theorem ----------

  // The columns drawn when this proof is checked from this transcript.
  function DrawnColumns(outer: Vector, proof: LcEvalProof, enc: Encoding, h: History): seq<nat>
    requires 0 < proof.nCols
  {
    var tests := VerifierTests(proof.pRandomVec, enc, |outer|, h, TestsHeld(proof, enc));
    DrawColumns(AskColumns(tests.history, proof.pEval), proof.nCols, enc.nColOpens)
  }

  // What acceptance says about each column.
  lemma AcceptedChecks(root: Digest, outer: Vector, inner: Vector, proof: LcEvalProof, enc: Encoding, h: History)
    requires IsLinearCode(enc)
    requires VerifySpec(root, outer, inner, proof, enc, h).0.Accepted?
    ensures RightShape(outer, inner, proof, enc) && DrawnColumns(outer, proof, enc, h) == AskedColumns(proof, enc, h)
    ensures VerifySpec(root, outer, inner, proof, enc, h).0 == Accepted(Dot(inner, proof.pEval))
    ensures forall k :: 0 <= k < enc.nColOpens ==> ColumnHolds(root, outer, inner, proof, enc, h, k)
  {
    hide VerifySpec;
    AcceptedExactlyWhen(root, outer, inner, proof, enc, h);
    TestsOfRun(outer, inner, proof, enc, h);
  }

  // The columns of an accepted proof are those of the commitment, or a collision is revealed.
  lemma AcceptedColumns(coeffs: Vector, enc: Encoding, c: LcCommit, outer: Vector, inner: Vector, proof: LcEvalProof,
                        h: History)
    requires 0 < |coeffs| && IsLinearCode(enc) && CommitSpec(coeffs, enc) == Ok(c)
    requires VerifySpec(Last(c.hashes), outer, inner, proof, enc, h).0.Accepted?
    ensures HoldsTree(c) && RightShape(outer, inner, proof, enc)
    ensures c.nRows * c.nPerRow == |c.coeffs| && EncodeRows(enc, c.coeffs, c.nRows) == Some(c.comm)
    ensures var cols := DrawnColumns(outer, proof, enc, h);
      match FirstCollision(c, proof.columns, cols, enc.nColOpens)
      case Some(x) => Reveals(c, proof.columns, cols, enc.nColOpens, x)
      case None =>
        && |outer| == c.nRows
        && forall k :: 0 <= k < enc.nColOpens ==> proof.columns[k].col == Column(c.comm, c.nCols, c.nRows, cols[k])
  {
    hide VerifySpec, EncodeRows, VerifierTests, FlatPath, Climb, FlatTree, DegreeHolds, EvaluationHolds;
    var root := Last(c.hashes);
    AcceptedChecks(root, outer, inner, proof, enc, h);
    var cols := DrawnColumns(outer, proof, enc, h);
    forall k | 0 <= k < enc.nColOpens ensures ColumnPathOk(proof.columns[k], cols[k], root) {
      assert ColumnHolds(root, outer, inner, proof, enc, h, k);
    }
    ColumnsBind(c, proof.columns, cols, enc.nColOpens, root);
  }

  // A column that weighs right says so of the codewords.
  lemma ColumnDecides(coeffs: Vector, enc: Encoding, c: LcCommit, tensor: Vector, message: Vector, j: nat)
    requires 0 < |coeffs| && IsLinearCode(enc) && CommitSpec(coeffs, enc) == Ok(c) && HoldsTree(c)
    requires |tensor| == c.nRows && c.nRows * c.nPerRow == |c.coeffs| && j < enc.nCols
    requires Dot(tensor, Column(c.comm, c.nCols, c.nRows, j)) == Codeword(enc, message)[j]
    ensures Codeword(enc, message)[j] == Codeword(enc, Collapse(c.coeffs, c.nPerRow, tensor))[j]
  {
    EncodedColumnDot(enc, c.coeffs, tensor, j);
  }

  // Any accepted proof whose draws hit more columns than two codewords can share carries the true
  // collapsed row and returns the true evaluation, or one of the messages hashed to check it collides
  // with one hashed for the commitment.
  lemma AcceptedEvaluationIsTrue(coeffs: Vector, enc: Encoding, d: nat, c: LcCommit,
                                 outer: Vector, inner: Vector, proof: LcEvalProof, h: History, value: Elem)
    requires 0 < |coeffs| && IsLinearCode(enc) && HasDistance(enc, d) && CommitSpec(coeffs, enc) == Ok(c)
    requires VerifySpec(Last(c.hashes), outer, inner, proof, enc, h).0 == Accepted(value)
    requires enc.nCols < |Drawn(DrawnColumns(outer, proof, enc, h))| + d
    ensures HoldsTree(c) && |proof.columns| == enc.nColOpens && c.nRows * c.nPerRow == |c.coeffs|
    ensures var cols := DrawnColumns(outer, proof, enc, h);
      match FirstCollision(c, proof.columns, cols, enc.nColOpens)
      case Some(x) => Reveals(c, proof.columns, cols, enc.nColOpens, x)
      case None =>
        && |outer| == c.nRows
        && proof.pEval == Collapse(c.coeffs, c.nPerRow, outer)
        && value == Bilinear(outer, RowsOf(c.coeffs, c.nPerRow, c.nRows), inner)
  {
    hide VerifySpec, EncodeRows, VerifierTests, FlatTree, DegreeHolds, PathHolds, HoldsTree, FirstCollision;
    AcceptedColumns(coeffs, enc, c, outer, inner, proof, h);
    AcceptedChecks(Last(c.hashes), outer, inner, proof, enc, h);
    var cols := DrawnColumns(outer, proof, enc, h);
    if FirstCollision(c, proof.columns, cols, enc.nColOpens).None? {
      var truth := Collapse(c.coeffs, c.nPerRow, outer);
      forall j | j in Drawn(cols) ensures Codeword(enc, proof.pEval)[j] == Codeword(enc, truth)[j] {
        var k :| 0 <= k < |cols| && cols[k] == j;
        assert ColumnHolds(Last(c.hashes), outer, inner, proof, enc, h, k);
        ColumnDecides(coeffs, enc, c, outer, proof.pEval, j);
      }
      DistanceDecides(enc, d, proof.pEval, truth, Drawn(cols));
      CollapseIsCombine(c.coeffs, c.nPerRow, outer);
      CombineThenDot(outer, RowsOf(c.coeffs, c.nPerRow, c.nRows), c.nPerRow, inner);
    }
  }

  // ---------- the degree tests ----------

  // At every column drawn each combination of an accepted proof encodes like the true one, collapsed
  // with a tensor that was drawn after the combinations before it; or a collision is revealed.
  lemma AcceptedCombinationsAgree(coeffs: Vector, enc: Encoding, c: LcCommit, outer: Vector, inner: Vector,
                                  proof: LcEvalProof, h: History)
    requires 0 < |coeffs| && IsLinearCode(enc) && CommitSpec(coeffs, enc) == Ok(c)
    requires VerifySpec(Last(c.hashes), outer, inner, proof, enc, h).0.Accepted?
    ensures HoldsTree(c) && RightShape(outer, inner, proof, enc) && c.nRows * c.nPerRow == |c.coeffs|
    ensures var cols := DrawnColumns(outer, proof, enc, h);
      match FirstCollision(c, proof.columns, cols, enc.nColOpens)
      case Some(x) => Reveals(c, proof.columns, cols, enc.nColOpens, x)
      case None =>
        forall i, k :: 0 <= i < enc.nDegreeTests && 0 <= k < enc.nColOpens ==>
          Codeword(enc, proof.pRandomVec[i])[cols[k]] == Codeword(enc, TrueCombination(c, proof, h, i))[cols[k]]
  {
    hide VerifySpec, EncodeRows, VerifierTests, FlatTree, PathHolds, HoldsTree, FirstCollision;
    AcceptedColumns(coeffs, enc, c, outer, inner, proof, h);
    AcceptedChecks(Last(c.hashes), outer, inner, proof, enc, h);
    var cols := DrawnColumns(outer, proof, enc, h);
    if FirstCollision(c, proof.columns, cols, enc.nColOpens).None? {
      forall i, k | 0 <= i < enc.nDegreeTests && 0 <= k < enc.nColOpens
        ensures Codeword(enc, proof.pRandomVec[i])[cols[k]] == Codeword(enc, TrueCombination(c, proof, h, i))[cols[k]]
      {
        assert ColumnHolds(Last(c.hashes), outer, inner, proof, enc, h, k);
        ColumnDecides(coeffs, enc, c, TestTensor(proof, h, i, c.nRows), proof.pRandomVec[i], cols[k]);
      }
    }
  }

  // The combination that an honest prover makes with the tensor of test i.
  function TrueCombination(c: LcCommit, proof: LcEvalProof, h: History, i: nat): Vector
    requires c.nRows * c.nPerRow <= |c.coeffs| && i <= |proof.pRandomVec|
  {
    Collapse(c.coeffs, c.nPerRow, TestTensor(proof, h, i, c.nRows))
  }

  lemma PaddedCodeword(enc: Encoding, message: Vector)
    requires IsLinearCode(enc) && |message| <= enc.nPerRow
    ensures Codeword(enc, Resize(message, enc.nPerRow)) == Codeword(enc, message)
  {
    assert Resize(Resize(message, enc.nPerRow), enc.nCols) == Resize(message, enc.nCols);
  }

  // With draws past the distance a combination no longer than a row is the true one, up to zeros that
  // are left out at its end; its length is not checked.
  lemma AcceptedCombinationIsTrue(coeffs: Vector, enc: Encoding, d: nat, c: LcCommit, outer: Vector, inner: Vector,
                                  proof: LcEvalProof, h: History, i: nat)
    requires 0 < |coeffs| && IsLinearCode(enc) && HasDistance(enc, d) && CommitSpec(coeffs, enc) == Ok(c)
    requires VerifySpec(Last(c.hashes), outer, inner, proof, enc, h).0.Accepted? && 0 < proof.nCols
    requires enc.nCols < |Drawn(DrawnColumns(outer, proof, enc, h))| + d
    requires i < enc.nDegreeTests && i < |proof.pRandomVec| && |proof.pRandomVec[i]| <= enc.nPerRow
    ensures HoldsTree(c) && RightShape(outer, inner, proof, enc) && c.nRows * c.nPerRow == |c.coeffs|
    ensures var cols := DrawnColumns(outer, proof, enc, h);
      match FirstCollision(c, proof.columns, cols, enc.nColOpens)
      case Some(x) => Reveals(c, proof.columns, cols, enc.nColOpens, x)
      case None => Resize(proof.pRandomVec[i], enc.nPerRow) == TrueCombination(c, proof, h, i)
  {
    hide VerifySpec, EncodeRows, VerifierTests, FlatTree, HoldsTree, FirstCollision, Codeword, TestTensor;
    AcceptedCombinationsAgree(coeffs, enc, c, outer, inner, proof, h);
    var cols := DrawnColumns(outer, proof, enc, h);
    if FirstCollision(c, proof.columns, cols, enc.nColOpens).None? {
      var truth := TrueCombination(c, proof, h, i);
      var sent := Resize(proof.pRandomVec[i], enc.nPerRow);
      PaddedCodeword(enc, proof.pRandomVec[i]);
      forall j | j in Drawn(cols) ensures Codeword(enc, sent)[j] == Codeword(enc, truth)[j] {
        var k :| 0 <= k < |cols| && cols[k] == j;
      }
      DistanceDecides(enc, d, sent, truth, Drawn(cols));
    }
  }

  // An injective code has distance one, so that drawing every column is always enough.
  lemma InjectiveHasDistanceOne(enc: Encoding)
    requires IsLinearCode(enc) && InjectiveOnMessages(enc)
    ensures HasDistance(enc, 1)
  {
    forall x, y | |x| == enc.nPerRow && |y| == enc.nPerRow && x != y
      ensures |Agreements(Codeword(enc, x), Codeword(enc, y))| + 1 <= enc.nCols
    {
      var u, v := Codeword(enc, x), Codeword(enc, y);
      var j :| 0 <= j < enc.nCols && u[j] != v[j];
      SubsetSize(Agreements(u, v), Below(enc.nCols) - {j});
    }
  }

  ghost function Below(n: nat): (s: set<nat>)
    ensures forall k: nat :: k in s <==> k < n
    ensures |s| == n
  {
    if n == 0 then {} else Below(n - 1) + {n - 1}
  }

  lemma DrawingAllColumnsIsEnough(enc: Encoding, cols: seq<nat>)
    requires forall j: nat :: j < enc.nCols ==> j in cols
    ensures enc.nCols < |Drawn(cols)| + 1
  {
    forall j | j in Below(enc.nCols) ensures j in Drawn(cols) {
      assert j in cols;
      var i :| 0 <= i < |cols| && cols[i] == j;
    }
    SubsetSize(Below(enc.nCols), Drawn(cols));
  }

  // ---------- honest proofs meet the hypotheses ----------

  // An honest proof has the right width and as many combinations as tests, all its paths are full
  // length, and no collision is found in it: only the coverage of the draws is left to chance.
  lemma HonestProofMeetsHypotheses(coeffs: Vector, enc: Encoding, outer: Vector, h: History, c: LcCommit,
                                   proof: LcEvalProof)
    requires 0 < |coeffs| && IsLinearCode(enc) && enc.nCols <= MAX_COLS
    requires CommitSpec(coeffs, enc) == Ok(c) && WellFormed(c, enc) && |outer| == c.nRows
    requires ProveSpec(c, outer, enc, h).0 == Ok(proof)
    ensures proof.nCols == enc.nCols && |proof.pRandomVec| == enc.nDegreeTests && |proof.columns| == enc.nColOpens
    ensures forall i :: 0 <= i < |proof.columns| ==> |proof.columns[i].path| == Log2(enc.nCols)
    ensures HoldsTree(c) && FirstCollision(c, proof.columns, DrawnColumns(outer, proof, enc, h), enc.nColOpens) == None
  {
    hide Collapse, Climb, EncodeRows, Leaves;
    HonestProofPassesChecks(coeffs, enc, outer, h, c, proof);
    Log2OfNextPower(c.nCols);
    HonestColumnsDoNotCollide(c, proof.columns, DrawnColumns(outer, proof, enc, h), enc.nColOpens);
  }
}
