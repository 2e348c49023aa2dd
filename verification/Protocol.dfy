/** Proving and verifying an evaluation of a committed matrix. */
module Protocol {
  import opened Fields
  import opened Vectors
  import opened Options
  import opened Hashing
  import opened Merkle
  import opened LinearCode
  import opened Commitment
  import opened Transcripts

  datatype LcEvalProof = LcEvalProof(
    nCols: nat,
    pEval: Vector,
    pRandomVec: seq<Vector>,
    columns: seq<LcColumn>)

  datatype VerifierError =
    | NumColOpens
    | ColumnPath
    | ColumnEval
    | ColumnDegree
    | OuterTensor
    | InnerTensor
    | EncodingDims
    | EncodingFailed

  // Panicked: an index past the end of a list.
  datatype VerifierResult = Accepted(value: Elem) | Rejected(error: VerifierError) | Panicked

  // ---------- the prover ----------

  datatype TestRun = TestRun(combinations: seq<Vector>, history: History)

  // The first n degree tests: draw a tensor, collapse the rows with it, append the result.
  function ProverTests(c: LcCommit, h: History, n: nat): (run: TestRun)
    requires c.nRows * c.nPerRow <= |c.coeffs|
    ensures |run.combinations| == n
    ensures forall i :: 0 <= i < n ==> |run.combinations[i]| == c.nPerRow
  {
    if n == 0 then TestRun([], h) else
      var before := ProverTests(c, h, n - 1);
      var asked := before.history + [Challenge(DegreeTest)];
      var p := Collapse(c.coeffs, c.nPerRow, DrawTensor(asked, c.nRows));
      TestRun(before.combinations + [p], asked + Messages(RandomCombination, p))
  }

  function AskColumns(h: History, pEval: Vector): History {
    h + Messages(Evaluation, pEval) + [Challenge(ColumnOpening)]
  }

  function OpenAll(c: LcCommit, cols: seq<nat>): (columns: seq<LcColumn>)
    requires |c.comm| == c.nRows * c.nCols && |c.hashes| == 2 * NextPowerOfTwo(c.nCols) - 1
    requires forall i :: 0 <= i < |cols| ==> cols[i] < c.nCols
    ensures |columns| == |cols|
  {
    seq(|cols|, i requires 0 <= i < |cols| => OpenColumnSpec(c, cols[i]).value)
  }

  function ProveSpec(c: LcCommit, outer: Vector, enc: Encoding, h: History): (ProverResult<LcEvalProof>, History) {
    if !WellFormed(c, enc) then (Err(BadCommit), h)
    else if |outer| != c.nRows then (Err(BadOuterTensor), h)
    else
      var run := ProverTests(c, h, enc.nDegreeTests);
      var pEval := Collapse(c.coeffs, c.nPerRow, outer);
      var asked := AskColumns(run.history, pEval);
      var cols := DrawColumns(asked, c.nCols, enc.nColOpens);
      (Ok(LcEvalProof(c.nCols, pEval, run.combinations, OpenAll(c, cols))), asked)
  }

  method Prove(c: LcCommit, outer: Vector, enc: Encoding, tr: Transcript) returns (r: ProverResult<LcEvalProof>)
    modifies tr
    ensures (r, tr.history) == ProveSpec(c, outer, enc, old(tr.history))
  {
    var ok := CheckComm(c, enc);
    if !ok {
      return Err(BadCommit);
    }
    if |outer| != c.nRows {
      return Err(BadOuterTensor);
    }
    var pRandomVec: seq<Vector> := [];
    for i := 0 to enc.nDegreeTests
      invariant TestRun(pRandomVec, tr.history) == ProverTests(c, old(tr.history), i)
    {
      var tensor := tr.ChallengeTensor(DegreeTest, c.nRows);
      var pRandom := CollapseFresh(c.coeffs, tensor, c.nPerRow);
      tr.Append(RandomCombination, pRandom);
      pRandomVec := pRandomVec + [pRandom];
    }
    var pEval := CollapseFresh(c.coeffs, outer, c.nPerRow);
    tr.Append(Evaluation, pEval);
    var cols := tr.ChallengeColumns(ColumnOpening, c.nCols, enc.nColOpens);
    var columns: seq<LcColumn> := [];
    for i := 0 to |cols|
      invariant tr.history == AskColumns(ProverTests(c, old(tr.history), enc.nDegreeTests).history, pEval)
      invariant columns == OpenAll(c, cols)[..i]
    {
      var column := OpenColumn(c, cols[i]);
      assert column.Ok?;  // the columns drawn exist
      columns := columns + [column.value];
    }
    assert columns == OpenAll(c, cols);
    r := Ok(LcEvalProof(c.nCols, pEval, pRandomVec, columns));
  }

  // ---------- the verifier ----------

  // What the verifier holds after some degree tests; failed when a combination does not encode.
  datatype Tests = Tests(tensors: seq<Vector>, words: seq<Vector>, history: History, failed: bool)

  function VerifierTests(pRandomVec: seq<Vector>, enc: Encoding, nRows: nat, h: History, n: nat): (t: Tests)
    requires n <= |pRandomVec|
    ensures !t.failed ==> |t.tensors| == n && |t.words| == n
    ensures !t.failed ==> forall i :: 0 <= i < n ==> |t.words[i]| == enc.nCols
  {
    if n == 0 then Tests([], [], h, false) else
      var before := VerifierTests(pRandomVec, enc, nRows, h, n - 1);
      if before.failed then before else
        var asked := before.history + [Challenge(DegreeTest)];
        var tensors := before.tensors + [DrawTensor(asked, nRows)];
        var word := enc.encode(Resize(pRandomVec[n - 1], enc.nCols));
        if word.None? then Tests(tensors, before.words, asked, true)
        else Tests(tensors, before.words + [word.value],
                   asked + Messages(RandomCombination, pRandomVec[n - 1]), false)
  }

  predicate ColumnValueOk(column: LcColumn, tensor: Vector, polyEval: Elem) {
    polyEval == Dot(tensor, column.col)
  }

  predicate ColumnPathOk(column: LcColumn, colNum: nat, root: Digest) {
    Climb(LeafHash(column.col), colNum, column.path) == root
  }

  predicate DegreeOk(column: LcColumn, tests: Tests, colNum: nat)
    requires |tests.tensors| == |tests.words|
    requires forall i :: 0 <= i < |tests.words| ==> colNum < |tests.words[i]|
  {
    forall i :: 0 <= i < |tests.words| ==> ColumnValueOk(column, tests.tensors[i], tests.words[i][colNum])
  }

  predicate ColumnOk(column: LcColumn, colNum: nat, outer: Vector, tests: Tests, evalWord: Vector, root: Digest)
    requires |tests.tensors| == |tests.words| && colNum < |evalWord|
    requires forall i :: 0 <= i < |tests.words| ==> colNum < |tests.words[i]|
  {
    && DegreeOk(column, tests, colNum)
    && ColumnValueOk(column, outer, evalWord[colNum])
    && ColumnPathOk(column, colNum, root)
  }

  // Every codeword held is as wide as the draws demand.
  ghost predicate Fits(cols: seq<nat>, tests: Tests, width: nat) {
    && |tests.tensors| == |tests.words|
    && (forall j :: 0 <= j < |cols| ==> cols[j] < width)
    && (forall i :: 0 <= i < |tests.words| ==> |tests.words[i]| == width)
  }

  // The error of the first of the first n columns that fails a check.
  function ColumnsError(columns: seq<LcColumn>, cols: seq<nat>, n: nat,
                        outer: Vector, tests: Tests, evalWord: Vector, root: Digest): Option<VerifierError>
    requires n <= |columns| && n <= |cols| && Fits(cols, tests, |evalWord|)
  {
    if n == 0 then None else
      var before := ColumnsError(columns, cols, n - 1, outer, tests, evalWord, root);
      var column, colNum := columns[n - 1], cols[n - 1];
      if before.Some? then before
      else if !DegreeOk(column, tests, colNum) then Some(ColumnDegree)
      else if !ColumnValueOk(column, outer, evalWord[colNum]) then Some(ColumnEval)
      else if !ColumnPathOk(column, colNum, root) then Some(ColumnPath)
      else None
  }

  lemma {:induction false} NoColumnError(columns: seq<LcColumn>, cols: seq<nat>, n: nat,
                                         outer: Vector, tests: Tests, evalWord: Vector, root: Digest)
    requires n <= |columns| && n <= |cols| && Fits(cols, tests, |evalWord|)
    ensures ColumnsError(columns, cols, n, outer, tests, evalWord, root).None? <==>
      forall j :: 0 <= j < n ==> ColumnOk(columns[j], cols[j], outer, tests, evalWord, root)
  {
    hide DegreeOk, ColumnValueOk, ColumnPathOk;
    if n > 0 {
      NoColumnError(columns, cols, n - 1, outer, tests, evalWord, root);
    }
  }

  // The checks made before anything is drawn.
  function ShapeError(outer: Vector, inner: Vector, proof: LcEvalProof, enc: Encoding): Option<VerifierError> {
    if enc.nColOpens != |proof.columns| || enc.nColOpens == 0 then Some(NumColOpens)
    else if |inner| != |proof.pEval| then Some(InnerTensor)
    else if |outer| != |proof.columns[0].col| then Some(OuterTensor)
    else if !enc.DimsOk(|proof.pEval|, proof.nCols) then Some(EncodingDims)
    else None
  }

  // The degree tests for which the proof has a combination.
  function TestsHeld(proof: LcEvalProof, enc: Encoding): (n: nat)
    ensures n <= |proof.pRandomVec| && n <= enc.nDegreeTests
  {
    if enc.nDegreeTests <= |proof.pRandomVec| then enc.nDegreeTests else |proof.pRandomVec|
  }

  // pRandomVec is indexed once for each degree test without a check of its length.
  function VerifySpec(root: Digest, outer: Vector, inner: Vector, proof: LcEvalProof, enc: Encoding, h: History):
    (VerifierResult, History)
  {
    var shape := ShapeError(outer, inner, proof, enc);
    if shape.Some? then (Rejected(shape.value), h) else
      var tests := VerifierTests(proof.pRandomVec, enc, |outer|, h, TestsHeld(proof, enc));
      if tests.failed then (Rejected(EncodingFailed), tests.history)
      else if |proof.pRandomVec| < enc.nDegreeTests then (Panicked, tests.history + [Challenge(DegreeTest)])
      else
        var asked := AskColumns(tests.history, proof.pEval);
        var cols := DrawColumns(asked, proof.nCols, enc.nColOpens);
        var evalWord := enc.encode(Resize(proof.pEval, proof.nCols));
        if evalWord.None? then (Rejected(EncodingFailed), asked) else
          var e := ColumnsError(proof.columns, cols, enc.nColOpens, outer, tests, evalWord.value, root);
          if e.Some? then (Rejected(e.value), asked)
          else (Accepted(Dot(inner, proof.pEval)), asked)
  }

  method VerifyColumnPath(column: LcColumn, colNum: nat, root: Digest) returns (ok: bool)
    ensures ok <==> ColumnPathOk(column, colNum, root)
  {
    var digest := [Block(DefaultDigest())];
    for i := 0 to |column.col|
      invariant digest == ColumnState(column.col[..i])
    {
      ElementsPush(column.col[..i], column.col[i]);
      assert column.col[..i + 1] == column.col[..i] + [column.col[i]];
      digest := digest + [Element(column.col[i])];
    }
    assert column.col[..|column.col|] == column.col;
    var hash := ClimbPath(HASH(digest), colNum, column.path);
    ok := hash == root;
  }

  method DotProduct(a: Vector, b: Vector) returns (sum: Elem)
    ensures sum == Dot(a, b)
  {
    sum := 0;
    var n := if |a| <= |b| then |a| else |b|;
    for i := 0 to n
      invariant sum == DotFirst(a, b, i)
    {
      sum := Add(sum, Mul(a[i], b[i]));
    }
  }

  method CheckColumn(column: LcColumn, colNum: nat, outer: Vector, tests: Tests, evalWord: Vector, root: Digest)
    returns (degree: bool, eval: bool, path: bool)
    requires |tests.tensors| == |tests.words| && colNum < |evalWord|
    requires forall i :: 0 <= i < |tests.words| ==> |tests.words[i]| == |evalWord|
    ensures degree <==> forall i :: 0 <= i < |tests.words| ==>
      tests.words[i][colNum] == Dot(tests.tensors[i], column.col)
    ensures eval <==> evalWord[colNum] == Dot(outer, column.col)
    ensures path <==> Climb(LeafHash(column.col), colNum, column.path) == root
    ensures degree == DegreeOk(column, tests, colNum)
    ensures eval == ColumnValueOk(column, outer, evalWord[colNum]) && path == ColumnPathOk(column, colNum, root)
  {
    degree := true;
    for i := 0 to |tests.words|
      invariant degree <==> forall k :: 0 <= k < i ==> ColumnValueOk(column, tests.tensors[k], tests.words[k][colNum])
    {
      var sum := DotProduct(tests.tensors[i], column.col);
      degree := degree && tests.words[i][colNum] == sum;
    }
    var sum := DotProduct(outer, column.col);
    eval := evalWord[colNum] == sum;
    path := VerifyColumnPath(column, colNum, root);
  }

  method RunTests(proof: LcEvalProof, enc: Encoding, nRows: nat, tr: Transcript) returns (t: Tests, panicked: bool)
    modifies tr
    ensures t == VerifierTests(proof.pRandomVec, enc, nRows, old(tr.history), TestsHeld(proof, enc))
    ensures panicked <==> !t.failed && |proof.pRandomVec| < enc.nDegreeTests
    ensures tr.history == if panicked then t.history + [Challenge(DegreeTest)] else t.history
  {
    var pRandomVec := proof.pRandomVec;
    var tensors: seq<Vector>, words: seq<Vector> := [], [];
    panicked := false;
    for i := 0 to enc.nDegreeTests
      invariant i <= |pRandomVec|
      invariant Tests(tensors, words, tr.history, false)
             == VerifierTests(pRandomVec, enc, nRows, old(tr.history), i)
    {
      var before := tr.history;
      var tensor := tr.ChallengeTensor(DegreeTest, nRows);
      if i >= |pRandomVec| {
        return Tests(tensors, words, before, false), true;
      }
      tensors := tensors + [tensor];
      var word := enc.encode(Resize(pRandomVec[i], enc.nCols));
      if word.None? {
        FailedTestStays(pRandomVec, enc, nRows, old(tr.history), i + 1, TestsHeld(proof, enc));
        return Tests(tensors, words, tr.history, true), false;
      }
      words := words + [word.value];
      tr.Append(RandomCombination, pRandomVec[i]);
    }
    t := Tests(tensors, words, tr.history, false);
  }

  method CheckColumns(columns: seq<LcColumn>, cols: seq<nat>, outer: Vector, tests: Tests, evalWord: Vector,
                      root: Digest)
    returns (e: Option<VerifierError>)
    requires |columns| == |cols| && Fits(cols, tests, |evalWord|)
    ensures e == ColumnsError(columns, cols, |columns|, outer, tests, evalWord, root)
  {
    hide DegreeOk, ColumnValueOk, ColumnPathOk, Climb, Dot;
    for j := 0 to |columns|
      invariant ColumnsError(columns, cols, j, outer, tests, evalWord, root).None?
    {
      var degree, eval, path := CheckColumn(columns[j], cols[j], outer, tests, evalWord, root);
      if !degree || !eval || !path {
        ColumnErrorStays(columns, cols, j + 1, |columns|, outer, tests, evalWord, root);
        return Some(if !degree then ColumnDegree else if !eval then ColumnEval else ColumnPath);
      }
    }
    e := None;
  }

  method Verify(root: Digest, outer: Vector, inner: Vector, proof: LcEvalProof, enc: Encoding, tr: Transcript)
    returns (r: VerifierResult)
    modifies tr
    ensures (r, tr.history) == VerifySpec(root, outer, inner, proof, enc, old(tr.history))
  {
    if enc.nColOpens != |proof.columns| || enc.nColOpens == 0 {
      return Rejected(NumColOpens);
    }
    var nRows, nCols, nPerRow := |proof.columns[0].col|, proof.nCols, |proof.pEval|;
    if |inner| != nPerRow {
      return Rejected(InnerTensor);
    }
    if |outer| != nRows {
      return Rejected(OuterTensor);
    }
    if !enc.DimsOk(nPerRow, nCols) {
      return Rejected(EncodingDims);
    }
    var tests, panicked := RunTests(proof, enc, nRows, tr);
    if panicked {
      return Panicked;
    }
    if tests.failed {
      return Rejected(EncodingFailed);
    }
    tr.Append(Evaluation, proof.pEval);
    var cols := tr.ChallengeColumns(ColumnOpening, nCols, enc.nColOpens);
    var evalWord := enc.encode(Resize(proof.pEval, nCols));
    if evalWord.None? {
      return Rejected(EncodingFailed);
    }
    var e := CheckColumns(proof.columns, cols, outer, tests, evalWord.value, root);
    if e.Some? {
      return Rejected(e.value);
    }
    var value := DotProduct(inner, proof.pEval);
    r := Accepted(value);
  }

  lemma {:induction false} FailedTestStays(pRandomVec: seq<Vector>, enc: Encoding, nRows: nat, h: History, n: nat,
                                           m: nat)
    requires n <= m <= |pRandomVec| && VerifierTests(pRandomVec, enc, nRows, h, n).failed
    ensures VerifierTests(pRandomVec, enc, nRows, h, m) == VerifierTests(pRandomVec, enc, nRows, h, n)
    decreases m
  {
    if n < m {
      FailedTestStays(pRandomVec, enc, nRows, h, n, m - 1);
    }
  }

  lemma {:induction false} ColumnErrorStays(columns: seq<LcColumn>, cols: seq<nat>, n: nat, m: nat,
                                            outer: Vector, tests: Tests, evalWord: Vector, root: Digest)
    requires n <= m <= |columns| && m <= |cols| && Fits(cols, tests, |evalWord|)
    requires ColumnsError(columns, cols, n, outer, tests, evalWord, root).Some?
    ensures ColumnsError(columns, cols, m, outer, tests, evalWord, root)
         == ColumnsError(columns, cols, n, outer, tests, evalWord, root)
    decreases m
  {
    if n < m {
      ColumnErrorStays(columns, cols, n, m - 1, outer, tests, evalWord, root);
    }
  }

  lemma {:induction false} TestsDoNotFail(pRandomVec: seq<Vector>, enc: Encoding, nRows: nat, h: History, n: nat)
    requires IsLinearCode(enc) && n <= |pRandomVec|
    ensures !VerifierTests(pRandomVec, enc, nRows, h, n).failed
  {
    if n > 0 {
      TestsDoNotFail(pRandomVec, enc, nRows, h, n - 1);
      var word := Codeword(enc, pRandomVec[n - 1]);
      assert enc.encode(Resize(pRandomVec[n - 1], enc.nCols)) == Some(word);
    }
  }

  // With a linear code the verifier panics exactly on the proofs of the right shape that hold fewer
  // combinations than there are degree tests.
  lemma PanicsExactlyWhenShort(root: Digest, outer: Vector, inner: Vector, proof: LcEvalProof, enc: Encoding,
                               h: History)
    requires IsLinearCode(enc)
    ensures VerifySpec(root, outer, inner, proof, enc, h).0.Panicked? <==>
      ShapeError(outer, inner, proof, enc).None? && |proof.pRandomVec| < enc.nDegreeTests
  {
    TestsDoNotFail(proof.pRandomVec, enc, |outer|, h, TestsHeld(proof, enc));
  }

  // A proof of the right shape without any combination: it panics as soon as there is a degree test.
  lemma NoCombinationsPanic(root: Digest, enc: Encoding, h: History)
    requires IsLinearCode(enc) && 0 < enc.nDegreeTests && 0 < enc.nColOpens
    ensures var columns := seq(enc.nColOpens, _ => LcColumn([], []));
      var proof := LcEvalProof(enc.nCols, Zeros(enc.nPerRow), [], columns);
      VerifySpec(root, [], Zeros(enc.nPerRow), proof, enc, h).0 == Panicked
  {
    var proof := LcEvalProof(enc.nCols, Zeros(enc.nPerRow), [], seq(enc.nColOpens, _ => LcColumn([], [])));
    PanicsExactlyWhenShort(root, [], Zeros(enc.nPerRow), proof, enc, h);
  }
}
