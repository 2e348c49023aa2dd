/**
 The linear-time code: a message is shrunk by a list of precodes, the last result is encoded by
 Reed-Solomon, and postcodes add check symbols on the way back.
 */
module ExpanderCode {
  import opened Fields
  import opened Vectors
  import opened Options
  import opened Slices
  import opened ReedSolomon
  import opened SparseMatrices
  import opened LinearCode

  type Matrices = seq<SparseMatrix>

  // The length of a codeword when the base code has length rs.
  function CodeLength(pre: Matrices, post: Matrices, rs: nat): nat
    requires |pre| == |post|
  {
    if |pre| == 0 then rs else pre[0].ins + CodeLength(pre[1..], post[1..], rs) + post[0].outs
  }

  // The matrices fit together for messages of length n.
  predicate Chained(pre: Matrices, post: Matrices, n: nat, rs: nat) {
    && |pre| == |post|
    && (|pre| > 0 ==>
          && pre[0].Valid() && post[0].Valid()
          && pre[0].ins == n
          && post[0].ins == CodeLength(pre[1..], post[1..], rs)
          && Chained(pre[1..], post[1..], pre[0].outs, rs))
  }

  // (x, z, z * postcode) where z encodes x * precode.
  function Encoded(x: Vector, pre: Matrices, post: Matrices, rs: nat): (word: Vector)
    requires Chained(pre, post, |x|, rs)
    ensures |word| == CodeLength(pre, post, rs)
    decreases |pre|
  {
    if |pre| == 0 then RsWord(x, rs) else
      var z := Encoded(Apply(pre[0], x), pre[1..], post[1..], rs);
      x + z + Apply(post[0], z)
  }

  // ---------- the code is systematic and linear ----------

  lemma Systematic(x: Vector, pre: Matrices, post: Matrices, rs: nat)
    requires 0 < |pre| && Chained(pre, post, |x|, rs)
    ensures |x| <= CodeLength(pre, post, rs)
    ensures Encoded(x, pre, post, rs)[..|x|] == x
  {
  }

  lemma ConcatLinear(a: Vector, b: Vector, k: Elem, c: Vector, d: Vector)
    requires |a| == |c| && |b| == |d|
    ensures VAdd(a, Scale(k, c)) + VAdd(b, Scale(k, d)) == VAdd(a + b, Scale(k, c + d))
  {
  }

  lemma {:induction false} EncodedLinear(x: Vector, k: Elem, y: Vector, pre: Matrices, post: Matrices, rs: nat)
    requires |x| == |y| && Chained(pre, post, |x|, rs)
    ensures Encoded(VAdd(x, Scale(k, y)), pre, post, rs)
         == VAdd(Encoded(x, pre, post, rs), Scale(k, Encoded(y, pre, post, rs)))
    decreases |pre|
  {
    if |pre| == 0 {
      RsLinear(x, k, y, rs);
    } else {
      var a, b := Apply(pre[0], x), Apply(pre[0], y);
      ApplyLinear(pre[0], x, k, y);
      EncodedLinear(a, k, b, pre[1..], post[1..], rs);
      var u, v := Encoded(a, pre[1..], post[1..], rs), Encoded(b, pre[1..], post[1..], rs);
      ApplyLinear(post[0], u, k, v);
      ConcatLinear(x, u, k, y, v);
      ConcatLinear(x + u, Apply(post[0], u), k, y + v, Apply(post[0], v));
    }
  }

  // ---------- as an encoding for the commitment ----------

  function ExpanderEncoding(pre: Matrices, post: Matrices, n: nat, rs: nat, colOpens: nat, degreeTests: nat): Encoding
    requires 0 < |pre| && Chained(pre, post, n, rs)
  {
    var len := CodeLength(pre, post, rs);
    EncodingRecord(n, len, false,
                   x => if |x| == len && n <= len then Some(Encoded(x[..n], pre, post, rs)) else None,
                   colOpens, degreeTests)
  }

  lemma ExpanderCodeIsLinear(pre: Matrices, post: Matrices, n: nat, rs: nat, colOpens: nat, degreeTests: nat)
    requires 0 < |pre| && Chained(pre, post, n, rs) && 0 < n < CodeLength(pre, post, rs)
    ensures IsLinearCode(ExpanderEncoding(pre, post, n, rs, colOpens, degreeTests))
    ensures InjectiveOnMessages(ExpanderEncoding(pre, post, n, rs, colOpens, degreeTests))
  {
    var enc := ExpanderEncoding(pre, post, n, rs, colOpens, degreeTests);
    forall k, x, y | |x| == enc.nCols && |y| == enc.nCols ensures LinearAt(enc, k, x, y) {
      assert VAdd(x, Scale(k, y))[..n] == VAdd(x[..n], Scale(k, y[..n]));
      EncodedLinear(x[..n], k, y[..n], pre, post, rs);
    }
    forall x, y | |x| == n && |y| == n && Codeword(enc, x) == Codeword(enc, y) ensures x == y {
      assert Resize(x, enc.nCols)[..n] == x && Resize(y, enc.nCols)[..n] == y;
      Systematic(x, pre, post, rs);
      Systematic(y, pre, post, rs);
    }
  }

  // ---------- the length as the source adds it up ----------

  function SumIns(ms: Matrices): nat {
    if |ms| == 0 then 0 else ms[0].ins + SumIns(ms[1..])
  }

  function SumOuts(ms: Matrices): nat {
    if |ms| == 0 then 0 else ms[0].outs + SumOuts(ms[1..])
  }

  function CodewordLength(pre: Matrices, post: Matrices): nat
    requires 0 < |pre| == |post|
  {
    pre[0].ins + post[|post| - 1].ins + SumOuts(pre[..|pre| - 1]) + SumOuts(post)
  }

  lemma {:induction false} CodewordLengthIsCodeLength(pre: Matrices, post: Matrices, n: nat)
    requires 0 < |pre| == |post| && Chained(pre, post, n, post[|post| - 1].ins)
    ensures CodewordLength(pre, post) == CodeLength(pre, post, post[|post| - 1].ins)
    decreases |pre|
  {
    if |pre| > 1 {
      assert post[1..][|post| - 2] == post[|post| - 1];
      CodewordLengthIsCodeLength(pre[1..], post[1..], pre[0].outs);
      assert pre[..|pre| - 1][1..] == pre[1..][..|pre| - 2];
    } else {
      assert pre[..0] == [];
      assert post[1..] == [];
    }
  }

  // ---------- the in-place encoder ----------

  // The message after i precodes.
  function Shrunk(x: Vector, pre: Matrices, post: Matrices, rs: nat, i: nat): (v: Vector)
    requires Chained(pre, post, |x|, rs) && i <= |pre|
    ensures Chained(pre[i..], post[i..], |v|, rs)
  {
    if i == 0 then
      assert pre[0..] == pre && post[0..] == post;
      x
    else
      var before := Shrunk(x, pre, post, rs, i - 1);
      assert pre[i - 1..][1..] == pre[i..] && post[i - 1..][1..] == post[i..];
      Apply(pre[i - 1], before)
  }

  // The messages of the first i levels, one after the other.
  function Head(x: Vector, pre: Matrices, post: Matrices, rs: nat, i: nat): Vector
    requires Chained(pre, post, |x|, rs) && i <= |pre|
  {
    if i == 0 then [] else Head(x, pre, post, rs, i - 1) + Shrunk(x, pre, post, rs, i - 1)
  }

  // The codeword of level i.
  function Inner(x: Vector, pre: Matrices, post: Matrices, rs: nat, i: nat): (v: Vector)
    requires Chained(pre, post, |x|, rs) && i <= |pre|
    ensures |v| == CodeLength(pre[i..], post[i..], rs)
  {
    Encoded(Shrunk(x, pre, post, rs, i), pre[i..], post[i..], rs)
  }

  lemma InnerStep(x: Vector, pre: Matrices, post: Matrices, rs: nat, i: nat)
    requires Chained(pre, post, |x|, rs) && i < |pre|
    ensures post[i].Valid() && post[i].ins == |Inner(x, pre, post, rs, i + 1)|
    ensures pre[i].Valid() && pre[i].ins == |Shrunk(x, pre, post, rs, i)|
    ensures Inner(x, pre, post, rs, i)
         == Shrunk(x, pre, post, rs, i) + Inner(x, pre, post, rs, i + 1)
             + Apply(post[i], Inner(x, pre, post, rs, i + 1))
  {
    var xi := Shrunk(x, pre, post, rs, i);
    assert pre[i..][1..] == pre[i + 1..] && post[i..][1..] == post[i + 1..];
    assert pre[i..][0] == pre[i] && post[i..][0] == post[i];
    assert Shrunk(x, pre, post, rs, i + 1) == Apply(pre[i], xi);
  }

  // The buffer is the heads of the levels above i, the codeword of level i, and the check
  // symbols of the levels above i.
  lemma {:induction false} Layout(x: Vector, pre: Matrices, post: Matrices, rs: nat, i: nat)
    requires Chained(pre, post, |x|, rs) && i <= |pre|
    ensures |Head(x, pre, post, rs, i)| + |Inner(x, pre, post, rs, i)| + SumOuts(post[..i])
         == CodeLength(pre, post, rs)
  {
    hide Encoded, Shrunk, Inner, CodeLength;
    if i == 0 {
      assert pre[0..] == pre && post[0..] == post && post[..0] == [];
    } else {
      Layout(x, pre, post, rs, i - 1);
      InnerStep(x, pre, post, rs, i - 1);
      assert post[..i] == post[..i - 1] + [post[i - 1]];
      SumOutsPush(post[..i - 1], post[i - 1]);
    }
  }

  lemma {:induction false} SumOutsPush(ms: Matrices, m: SparseMatrix)
    ensures SumOuts(ms + [m]) == SumOuts(ms) + m.outs
  {
    if |ms| == 0 {
      assert ms + [m] == [m];
      assert [m][1..] == [];
    } else {
      assert (ms + [m])[1..] == ms[1..] + [m];
      SumOutsPush(ms[1..], m);
    }
  }

  // One step down: the next message goes behind the messages so far.
  lemma ShrinkStep(x: Vector, pre: Matrices, post: Matrices, rs: nat, i: nat)
    requires Chained(pre, post, |x|, rs) && i < |pre|
    ensures pre[i].Valid()
    ensures |Head(x, pre, post, rs, i + 1)| == |Head(x, pre, post, rs, i)| + pre[i].ins <= CodeLength(pre, post, rs)
    ensures Shrunk(x, pre, post, rs, i + 1)
         == Apply(pre[i], Head(x, pre, post, rs, i + 1)[|Head(x, pre, post, rs, i)|..])
  {
    InnerStep(x, pre, post, rs, i);
    Layout(x, pre, post, rs, i + 1);
    var head := Head(x, pre, post, rs, i);
    assert (head + Shrunk(x, pre, post, rs, i))[|head|..] == Shrunk(x, pre, post, rs, i);
  }

  // The part of the buffer that is final once level i is encoded.
  function Written(x: Vector, pre: Matrices, post: Matrices, rs: nat, i: nat): (v: Vector)
    requires Chained(pre, post, |x|, rs) && i <= |pre|
    ensures |v| == |Head(x, pre, post, rs, i)| + CodeLength(pre[i..], post[i..], rs)
  {
    Head(x, pre, post, rs, i) + Inner(x, pre, post, rs, i)
  }

  lemma Regroup(a: Vector, b: Vector, c: Vector, d: Vector)
    ensures a + (b + c + d) == a + b + c + d
    ensures (a + b + c)[|a + b|..] == c
  {
  }

  // One step up: the check symbols of level i go behind its inner codeword.
  lemma GrowStep(x: Vector, pre: Matrices, post: Matrices, rs: nat, i: nat)
    requires Chained(pre, post, |x|, rs) && i < |pre|
    ensures post[i].Valid() && pre[i].outs == |Shrunk(x, pre, post, rs, i + 1)|
    ensures |Head(x, pre, post, rs, i + 1)| == |Head(x, pre, post, rs, i)| + |Shrunk(x, pre, post, rs, i)|
    ensures |Head(x, pre, post, rs, i + 1)| + post[i].ins == |Written(x, pre, post, rs, i + 1)|
    ensures |Written(x, pre, post, rs, i + 1)| + post[i].outs
         == |Written(x, pre, post, rs, i)| <= CodeLength(pre, post, rs)
    ensures Written(x, pre, post, rs, i)
         == Written(x, pre, post, rs, i + 1)
          + Apply(post[i], Written(x, pre, post, rs, i + 1)[|Head(x, pre, post, rs, i + 1)|..])
  {
    InnerStep(x, pre, post, rs, i);
    Layout(x, pre, post, rs, i);
    var z := Inner(x, pre, post, rs, i + 1);
    Regroup(Head(x, pre, post, rs, i), Shrunk(x, pre, post, rs, i), z, Apply(post[i], z));
  }

  // Overwrites part of the buffer just behind the first `at` entries.
  method WriteAfter(xi: array<Elem>, at: nat, v: Vector)
    requires at + |v| <= xi.Length
    modifies xi
    ensures xi[..at + |v|] == old(xi[..at]) + v
  {
    for i := 0 to |v|
      invariant xi[..at + i] == old(xi[..at]) + v[..i]
    {
      xi[at + i] := v[i];
    }
  }

  // The product of a matrix with xi[inStart..inEnd] goes to xi[inEnd..].
  method ProductAfter(m: SparseMatrix, xi: array<Elem>, inStart: nat, inEnd: nat)
    requires m.Valid() && inStart + m.ins == inEnd && inEnd + m.outs <= xi.Length
    modifies xi
    ensures xi[..inEnd + m.outs] == old(xi[..inEnd]) + Apply(m, old(xi[..inEnd])[inStart..])
  {
    assert xi[inStart..inEnd] == xi[..inEnd][inStart..];
    var product := Multiply(m, xi[inStart..inEnd]);
    WriteAfter(xi, inEnd, product);
  }

  // Precodes all the way down: the buffer then starts with every level's message.
  method ShrinkInPlace(xi: array<Elem>, pre: Matrices, post: Matrices, ghost x: Vector, ghost rs: nat)
    returns (inStart: nat)
    requires 0 < |pre| && Chained(pre, post, |x|, rs)
    requires xi.Length == CodeLength(pre, post, rs) && |x| <= xi.Length && xi[..|x|] == x
    modifies xi
    ensures inStart == |Head(x, pre, post, rs, |pre| - 1)|
    ensures |Head(x, pre, post, rs, |pre|)| <= xi.Length
    ensures xi[..|Head(x, pre, post, rs, |pre|)|] == Head(x, pre, post, rs, |pre|)
  {
    hide Apply, CodeLength;
    inStart := 0;
    ShrinkStep(x, pre, post, rs, 0);
    for i := 0 to |pre| - 1
      invariant inStart == |Head(x, pre, post, rs, i)|
      invariant |Head(x, pre, post, rs, i + 1)| <= xi.Length
      invariant xi[..|Head(x, pre, post, rs, i + 1)|] == Head(x, pre, post, rs, i + 1)
    {
      ShrinkStep(x, pre, post, rs, i);
      ShrinkStep(x, pre, post, rs, i + 1);
      var inEnd := inStart + pre[i].ins;
      ProductAfter(pre[i], xi, inStart, inEnd);
      inStart := inEnd;
    }
  }

  // The last precode goes through temporary storage into the base code.
  method EncodeBase(xi: array<Elem>, pre: Matrices, post: Matrices, inStart: nat, ghost x: Vector, ghost rs: nat)
    returns (inEnd: nat, outEnd: nat)
    requires 0 < |pre| && Chained(pre, post, |x|, rs) && rs == post[|post| - 1].ins
    requires xi.Length == CodeLength(pre, post, rs)
    requires inStart == |Head(x, pre, post, rs, |pre| - 1)|
    requires |Head(x, pre, post, rs, |pre|)| <= xi.Length
    requires xi[..|Head(x, pre, post, rs, |pre|)|] == Head(x, pre, post, rs, |pre|)
    modifies xi
    ensures inEnd == |Head(x, pre, post, rs, |pre|)| && outEnd == inEnd + rs <= xi.Length
    ensures xi[..outEnd] == Written(x, pre, post, rs, |pre|)
  {
    hide Apply, CodeLength, Head, RsWord, Written, Shrunk;
    ghost var head := Head(x, pre, post, rs, |pre|);
    BaseStep(x, pre, post, rs);
    var precode := pre[|pre| - 1];
    inEnd := inStart + precode.ins;
    assert xi[inStart..inEnd] == xi[..inEnd][inStart..];
    var base := Multiply(precode, xi[inStart..inEnd]);
    outEnd := inEnd + post[|post| - 1].ins;
    RsHorner(base, xi, inEnd, outEnd);
    ghost var done := xi[..];
    assert done[..inEnd] == head && done[inEnd..outEnd] == RsWord(base, rs);
    SplitAt(done[..outEnd], inEnd);
  }

  lemma BaseStep(x: Vector, pre: Matrices, post: Matrices, rs: nat)
    requires 0 < |pre| && Chained(pre, post, |x|, rs)
    ensures pre[|pre| - 1].Valid()
    ensures |Head(x, pre, post, rs, |pre|)| == |Head(x, pre, post, rs, |pre| - 1)| + pre[|pre| - 1].ins
    ensures |Head(x, pre, post, rs, |pre|)| + rs <= CodeLength(pre, post, rs)
    ensures var base := Apply(pre[|pre| - 1], Head(x, pre, post, rs, |pre|)[|Head(x, pre, post, rs, |pre| - 1)|..]);
      Written(x, pre, post, rs, |pre|) == Head(x, pre, post, rs, |pre|) + RsWord(base, rs)
  {
    ShrinkStep(x, pre, post, rs, |pre| - 1);
    Layout(x, pre, post, rs, |pre|);
    assert pre[|pre|..] == [] && post[|pre|..] == [];
  }

  lemma AllWritten(x: Vector, pre: Matrices, post: Matrices, rs: nat)
    requires Chained(pre, post, |x|, rs)
    ensures |Head(x, pre, post, rs, 0)| + |Shrunk(x, pre, post, rs, 0)| == |x|
    ensures Written(x, pre, post, rs, 0) == Encoded(x, pre, post, rs)
  {
    assert pre[0..] == pre && post[0..] == post;
  }

  // What one postcode does to the written part `inner` whose last codeword begins at `start`.
  ghost predicate Grows(precode: SparseMatrix, postcode: SparseMatrix, innerStart: nat, inner: Vector,
                        start: nat, outer: Vector, len: nat)
  {
    && postcode.Valid()
    && innerStart == start + precode.outs
    && start + postcode.ins == |inner|
    && |outer| <= len
    && outer == inner + Apply(postcode, inner[start..])
  }

  // Postcodes all the way up.
  method GrowInPlace(xi: array<Elem>, pre: Matrices, post: Matrices, start: nat, outEnd: nat,
                     ghost starts: seq<nat>, ghost written: seq<Vector>)
    returns (inStart: nat, outStart: nat)
    requires |starts| == |written| == |pre| + 1 == |post| + 1
    requires forall i {:trigger written[i]} :: 0 <= i < |pre| ==>
      Grows(pre[i], post[i], starts[i + 1], written[i + 1], starts[i], written[i], xi.Length)
    requires start == starts[|pre|] && outEnd == |written[|pre|]| <= xi.Length && xi[..outEnd] == written[|pre|]
    modifies xi
    ensures inStart == starts[0] && outStart == |written[0]| <= xi.Length
    ensures xi[..outStart] == written[0]
  {
    inStart, outStart := start, outEnd;
    for i := |pre| downto 0
      invariant inStart == starts[i] && outStart == |written[i]| <= xi.Length
      invariant xi[..outStart] == written[i]
    {
      assert Grows(pre[i], post[i], starts[i + 1], written[i + 1], starts[i], written[i], xi.Length);
      inStart := inStart - pre[i].outs;
      ProductAfter(post[i], xi, inStart, outStart);
      outStart := outStart + post[i].outs;
    }
  }

  // Where the codeword of level i begins, seen from the level below.
  function StartAt(x: Vector, pre: Matrices, post: Matrices, rs: nat, i: nat): nat
    requires Chained(pre, post, |x|, rs) && i <= |pre|
  {
    |Head(x, pre, post, rs, i)| + |Shrunk(x, pre, post, rs, i)|
  }

  lemma LevelTables(x: Vector, pre: Matrices, post: Matrices, rs: nat) returns (starts: seq<nat>, written: seq<Vector>)
    requires Chained(pre, post, |x|, rs)
    ensures |starts| == |written| == |pre| + 1
    ensures forall i {:trigger written[i]} :: 0 <= i < |pre| ==>
      Grows(pre[i], post[i], starts[i + 1], written[i + 1], starts[i], written[i], CodeLength(pre, post, rs))
    ensures starts[0] == |x| && written[0] == Encoded(x, pre, post, rs)
    ensures starts[|pre|] == StartAt(x, pre, post, rs, |pre|) && written[|pre|] == Written(x, pre, post, rs, |pre|)
  {
    starts := seq(|pre| + 1, i requires 0 <= i <= |pre| => StartAt(x, pre, post, rs, i));
    written := seq(|pre| + 1, i requires 0 <= i <= |pre| => Written(x, pre, post, rs, i));
    forall i | 0 <= i < |pre|
      ensures Grows(pre[i], post[i], starts[i + 1], written[i + 1], starts[i], written[i], CodeLength(pre, post, rs))
    {
      GrowStep(x, pre, post, rs, i);
    }
    AllWritten(x, pre, post, rs);
  }

  method Encode(xi: array<Elem>, pre: Matrices, post: Matrices)
    requires 0 < |pre| == |post| && Chained(pre, post, pre[0].ins, post[|post| - 1].ins)
    requires xi.Length == CodewordLength(pre, post)
    modifies xi
    ensures pre[0].ins <= xi.Length
    ensures xi[..] == Encoded(old(xi[..])[..pre[0].ins], pre, post, post[|post| - 1].ins)
  {
    ghost var n, rs := pre[0].ins, post[|post| - 1].ins;
    CodewordLengthIsCodeLength(pre, post, n);
    ghost var x := xi[..n];
    var inStart := ShrinkInPlace(xi, pre, post, x, rs);
    var inEnd, outEnd := EncodeBase(xi, pre, post, inStart, x, rs);
    ghost var starts, written := LevelTables(x, pre, post, rs);
    LastStart(x, pre, post, rs);
    var inFinal, outFinal := GrowInPlace(xi, pre, post, inEnd + pre[|pre| - 1].outs, outEnd, starts, written);
    assert inFinal == pre[0].ins && outFinal == xi.Length;
    TakeAll(xi[..], outFinal);
  }

  lemma LastStart(x: Vector, pre: Matrices, post: Matrices, rs: nat)
    requires 0 < |pre| && Chained(pre, post, |x|, rs)
    ensures StartAt(x, pre, post, rs, |pre|) == |Head(x, pre, post, rs, |pre|)| + pre[|pre| - 1].outs
    ensures |Written(x, pre, post, rs, |pre|)| == |Head(x, pre, post, rs, |pre|)| + rs
  {
  }
}
