/**
 What the transcript of a whole run holds. It fixes everything the prover claimed, and every
 challenge is drawn after the claims it must not be known before.
 */
module RunHistories {
  import opened Vectors
  import opened Options
  import opened Hashing
  import opened LinearCode
  import opened Commitment
  import opened Transcripts
  import opened Protocol

  // For each combination a challenge and the combination, and then the rest.
  function Rounds(combinations: seq<Vector>, rest: History): History {
    if combinations == [] then rest
    else [Challenge(DegreeTest)] + Messages(RandomCombination, combinations[0]) + Rounds(combinations[1..], rest)
  }

  // The claimed row, and the question which columns to open.
  function Claim(pEval: Vector): History {
    Messages(Evaluation, pEval) + [Challenge(ColumnOpening)]
  }

  // The history that tensor i of the degree tests is drawn from.
  function BeforeTensor(h: History, combinations: seq<Vector>, i: nat): History
    requires i <= |combinations|
  {
    h + Rounds(combinations[..i], [Challenge(DegreeTest)])
  }

  lemma {:induction false} RoundsPush(combinations: seq<Vector>, p: Vector, rest: History)
    ensures Rounds(combinations + [p], rest)
         == Rounds(combinations, [Challenge(DegreeTest)] + Messages(RandomCombination, p) + rest)
    decreases |combinations|
  {
    if combinations == [] {
      assert ([p])[1..] == [];
    } else {
      assert (combinations + [p])[1..] == combinations[1..] + [p];
      RoundsPush(combinations[1..], p, rest);
    }
  }

  // ---------- the runs ----------

  lemma {:induction false} ProverTestRounds(c: LcCommit, h: History, n: nat, rest: History)
    requires c.nRows * c.nPerRow <= |c.coeffs|
    ensures var run := ProverTests(c, h, n);
      run.history + rest == h + Rounds(run.combinations, rest)
    decreases n
  {
    if n > 0 {
      var before, run := ProverTests(c, h, n - 1), ProverTests(c, h, n);
      var p := run.combinations[n - 1];
      assert run.combinations == before.combinations + [p];
      var round := [Challenge(DegreeTest)] + Messages(RandomCombination, p);
      assert run.history + rest == before.history + (round + rest);
      ProverTestRounds(c, h, n - 1, round + rest);
      RoundsPush(before.combinations, p, rest);
    }
  }

  lemma {:induction false} VerifierTestRounds(combinations: seq<Vector>, enc: Encoding, nRows: nat, h: History, n: nat,
                                              rest: History)
    requires n <= |combinations| && !VerifierTests(combinations, enc, nRows, h, n).failed
    ensures VerifierTests(combinations, enc, nRows, h, n).history + rest == h + Rounds(combinations[..n], rest)
    decreases n
  {
    if n > 0 {
      var p := combinations[n - 1];
      var before := VerifierTests(combinations, enc, nRows, h, n - 1);
      var round := [Challenge(DegreeTest)] + Messages(RandomCombination, p);
      assert VerifierTests(combinations, enc, nRows, h, n).history + rest == before.history + (round + rest);
      VerifierTestRounds(combinations, enc, nRows, h, n - 1, round + rest);
      RoundsPush(combinations[..n - 1], p, rest);
      assert combinations[..n] == combinations[..n - 1] + [p];
    }
  }

  // Every tensor is drawn after the combinations before it; every word encodes its combination.
  lemma {:induction false} TestsDrawn(combinations: seq<Vector>, enc: Encoding, nRows: nat, h: History, n: nat, i: nat)
    requires i < n <= |combinations| && !VerifierTests(combinations, enc, nRows, h, n).failed
    ensures var tests := VerifierTests(combinations, enc, nRows, h, n);
      && tests.tensors[i] == DrawTensor(BeforeTensor(h, combinations, i), nRows)
      && enc.encode(Resize(combinations[i], enc.nCols)) == Some(tests.words[i])
    decreases n
  {
    if i == n - 1 {
      VerifierTestRounds(combinations, enc, nRows, h, i, [Challenge(DegreeTest)]);
    } else {
      TestsDrawn(combinations, enc, nRows, h, n - 1, i);
    }
  }

  lemma {:induction false} CombinationsDrawn(c: LcCommit, h: History, n: nat, i: nat)
    requires c.nRows * c.nPerRow <= |c.coeffs| && i < n
    ensures var combinations := ProverTests(c, h, n).combinations;
      combinations[i] == Collapse(c.coeffs, c.nPerRow, DrawTensor(BeforeTensor(h, combinations, i), c.nRows))
    decreases n
  {
    var before, run := ProverTests(c, h, n - 1), ProverTests(c, h, n);
    assert run.combinations[..n - 1] == before.combinations;
    if i == n - 1 {
      ProverTestRounds(c, h, i, [Challenge(DegreeTest)]);
    } else {
      CombinationsDrawn(c, h, n - 1, i);
      assert run.combinations[..i] == before.combinations[..i];
    }
  }

  // An honest run: each combination collapses with a tensor drawn after those before it, and the
  // columns opened are drawn after the claimed row.
  lemma ProverSays(c: LcCommit, outer: Vector, enc: Encoding, h: History, proof: LcEvalProof)
    requires ProveSpec(c, outer, enc, h).0 == Ok(proof)
    ensures WellFormed(c, enc) && |outer| == c.nRows && |proof.pRandomVec| == enc.nDegreeTests
    ensures var end := ProveSpec(c, outer, enc, h).1;
      && end == h + Rounds(proof.pRandomVec, Claim(proof.pEval))
      && 0 < c.nCols && proof.columns == OpenAll(c, DrawColumns(end, c.nCols, enc.nColOpens))
    ensures forall i :: 0 <= i < enc.nDegreeTests ==>
      proof.pRandomVec[i] == Collapse(c.coeffs, c.nPerRow, DrawTensor(BeforeTensor(h, proof.pRandomVec, i), c.nRows))
  {
    hide Collapse;
    ProverTestRounds(c, h, enc.nDegreeTests, Claim(proof.pEval));
    var run := ProverTests(c, h, enc.nDegreeTests);
    assert AskColumns(run.history, proof.pEval) == run.history + Claim(proof.pEval);
    forall i | 0 <= i < enc.nDegreeTests
      ensures proof.pRandomVec[i]
           == Collapse(c.coeffs, c.nPerRow, DrawTensor(BeforeTensor(h, proof.pRandomVec, i), c.nRows))
    {
      CombinationsDrawn(c, h, enc.nDegreeTests, i);
    }
  }

  // The run came to the checks of the columns.
  predicate Judged(r: VerifierResult) {
    r.Accepted? || (r.Rejected? && r.error in {ColumnDegree, ColumnEval, ColumnPath})
  }

  lemma {:induction false} ColumnErrors(columns: seq<LcColumn>, cols: seq<nat>, n: nat, outer: Vector, tests: Tests,
                                        evalWord: Vector, root: Digest)
    requires n <= |columns| && n <= |cols| && Fits(cols, tests, |evalWord|)
    ensures var e := ColumnsError(columns, cols, n, outer, tests, evalWord, root);
      e.Some? ==> e.value in {ColumnDegree, ColumnEval, ColumnPath}
  {
    if n > 0 {
      ColumnErrors(columns, cols, n - 1, outer, tests, evalWord, root);
    }
  }

  // The verifier hears the same of a proof.
  lemma VerifierHears(root: Digest, outer: Vector, inner: Vector, proof: LcEvalProof, enc: Encoding, h: History)
    requires Judged(VerifySpec(root, outer, inner, proof, enc, h).0)
    ensures enc.nDegreeTests <= |proof.pRandomVec|
    ensures VerifySpec(root, outer, inner, proof, enc, h).1
         == h + Rounds(proof.pRandomVec[..enc.nDegreeTests], Claim(proof.pEval))
  {
    var tests := VerifierTests(proof.pRandomVec, enc, |outer|, h, TestsHeld(proof, enc));
    VerifierTestRounds(proof.pRandomVec, enc, |outer|, h, enc.nDegreeTests, Claim(proof.pEval));
    assert AskColumns(tests.history, proof.pEval) == tests.history + Claim(proof.pEval);
  }

  // ---------- one history, one set of claims ----------

  ghost predicate StartsOtherwise(h: History, tag: Label) {
    0 < |h| && (h[0].Message? ==> h[0].tag != tag)
  }

  lemma FirstOfMessages(tag: Label, v: Vector, s: History)
    requires StartsOtherwise(s, tag)
    ensures var first := (Messages(tag, v) + s)[0];
      v != [] <==> first.Message? && first.tag == tag
  {
  }

  lemma {:induction false} MessagesEnd(tag: Label, v: Vector, s: History, w: Vector, t: History)
    requires StartsOtherwise(s, tag) && StartsOtherwise(t, tag)
    requires Messages(tag, v) + s == Messages(tag, w) + t
    ensures v == w && s == t
    decreases |v|
  {
    var x, y := Messages(tag, v) + s, Messages(tag, w) + t;
    FirstOfMessages(tag, v, s);
    FirstOfMessages(tag, w, t);
    if v == [] {
      assert x == s && y == t;
    } else {
      assert x[0] == Message(tag, v[0]) && y[0] == Message(tag, w[0]);
      assert x[1..] == Messages(tag, v[1..]) + s && y[1..] == Messages(tag, w[1..]) + t;
      MessagesEnd(tag, v[1..], s, w[1..], t);
      assert v == [v[0]] + v[1..] && w == [w[0]] + w[1..];
    }
  }

  lemma RoundsStart(combinations: seq<Vector>, pEval: Vector)
    ensures var r := Rounds(combinations, Claim(pEval));
      StartsOtherwise(r, RandomCombination) && (r[0] == Challenge(DegreeTest) <==> combinations != [])
  {
  }

  lemma {:induction false} RoundsInjective(ps: seq<Vector>, e: Vector, qs: seq<Vector>, f: Vector)
    requires Rounds(ps, Claim(e)) == Rounds(qs, Claim(f))
    ensures ps == qs && e == f
    decreases |ps|
  {
    RoundsStart(ps, e);
    RoundsStart(qs, f);
    if ps == [] {
      MessagesEnd(Evaluation, e, [Challenge(ColumnOpening)], f, [Challenge(ColumnOpening)]);
    } else {
      RoundsStart(ps[1..], e);
      RoundsStart(qs[1..], f);
      var s, t := Rounds(ps[1..], Claim(e)), Rounds(qs[1..], Claim(f));
      assert Rounds(ps, Claim(e))[1..] == Messages(RandomCombination, ps[0]) + s;
      assert Rounds(qs, Claim(f))[1..] == Messages(RandomCombination, qs[0]) + t;
      MessagesEnd(RandomCombination, ps[0], s, qs[0], t);
      RoundsInjective(ps[1..], e, qs[1..], f);
      assert ps == [ps[0]] + ps[1..] && qs == [qs[0]] + qs[1..];
    }
  }

  lemma SameEnd(h: History, ps: seq<Vector>, e: Vector, qs: seq<Vector>, f: Vector)
    requires h + Rounds(ps, Claim(e)) == h + Rounds(qs, Claim(f))
    ensures ps == qs && e == f
  {
    var x, y := Rounds(ps, Claim(e)), Rounds(qs, Claim(f));
    assert x == (h + x)[|h|..] == (h + y)[|h|..] == y;
    RoundsInjective(ps, e, qs, f);
  }

  // Two verifier runs from one history that come to the columns and end in one history were given
  // the same claimed row and the same combinations.
  lemma VerifiersHeardTheSame(h: History, root: Digest, outer: Vector, inner: Vector, p: LcEvalProof, enc: Encoding,
                              root': Digest, outer': Vector, inner': Vector, q: LcEvalProof, enc': Encoding)
    requires Judged(VerifySpec(root, outer, inner, p, enc, h).0)
    requires Judged(VerifySpec(root', outer', inner', q, enc', h).0)
    requires VerifySpec(root, outer, inner, p, enc, h).1 == VerifySpec(root', outer', inner', q, enc', h).1
    ensures p.pEval == q.pEval && enc.nDegreeTests == enc'.nDegreeTests
    ensures enc.nDegreeTests <= |p.pRandomVec| && enc.nDegreeTests <= |q.pRandomVec|
    ensures p.pRandomVec[..enc.nDegreeTests] == q.pRandomVec[..enc.nDegreeTests]
  {
    hide VerifySpec;
    VerifierHears(root, outer, inner, p, enc, h);
    VerifierHears(root', outer', inner', q, enc', h);
    SameEnd(h, p.pRandomVec[..enc.nDegreeTests], p.pEval, q.pRandomVec[..enc'.nDegreeTests], q.pEval);
    assert |p.pRandomVec[..enc.nDegreeTests]| == enc.nDegreeTests;
  }

  // Two honest runs from one history that end in one history made the same claims.
  lemma ProversSaidTheSame(h: History, c: LcCommit, outer: Vector, enc: Encoding, p: LcEvalProof,
                           c': LcCommit, outer': Vector, enc': Encoding, q: LcEvalProof)
    requires ProveSpec(c, outer, enc, h).0 == Ok(p) && ProveSpec(c', outer', enc', h).0 == Ok(q)
    requires ProveSpec(c, outer, enc, h).1 == ProveSpec(c', outer', enc', h).1
    ensures p.pEval == q.pEval && p.pRandomVec == q.pRandomVec
  {
    hide ProveSpec;
    ProverSays(c, outer, enc, h, p);
    ProverSays(c', outer', enc', h, q);
    SameEnd(h, p.pRandomVec, p.pEval, q.pRandomVec, q.pEval);
  }

  // A verifier whose transcript ends where the prover's did was given what the prover claimed.
  lemma VerifierHeardTheProver(h: History, c: LcCommit, outer: Vector, enc: Encoding, p: LcEvalProof,
                               root: Digest, outer': Vector, inner: Vector, q: LcEvalProof, enc': Encoding)
    requires ProveSpec(c, outer, enc, h).0 == Ok(p)
    requires Judged(VerifySpec(root, outer', inner, q, enc', h).0)
    requires ProveSpec(c, outer, enc, h).1 == VerifySpec(root, outer', inner, q, enc', h).1
    ensures p.pEval == q.pEval && enc.nDegreeTests == enc'.nDegreeTests <= |q.pRandomVec|
    ensures p.pRandomVec == q.pRandomVec[..enc'.nDegreeTests]
  {
    hide ProveSpec, VerifySpec;
    ProverSays(c, outer, enc, h, p);
    VerifierHears(root, outer', inner, q, enc', h);
    SameEnd(h, p.pRandomVec, p.pEval, q.pRandomVec[..enc'.nDegreeTests], q.pEval);
    assert |q.pRandomVec[..enc'.nDegreeTests]| == enc'.nDegreeTests;
  }
}
