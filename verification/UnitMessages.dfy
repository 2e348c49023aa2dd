/** What codewords hold behind their message, in terms of the entries of the matrices. */
module UnitMessages {
  import opened Fields
  import opened Vectors
  import opened Polynomials
  import opened ReedSolomon
  import opened SparseMatrices
  import opened ExpanderCode
  import opened CodeDimensions
  import opened CodeGeneration

  // The length of the part of a codeword that encodes the shrunk message.
  function MiddleLength(pre: Matrices, post: Matrices, rs: nat): nat
    requires 0 < |pre| == |post|
  {
    CodeLength(pre[1..], post[1..], rs)
  }

  // A codeword is its message, the codeword of the shrunk message, and the check symbols of that
  // codeword: each a sum of its symbols weighted with the entries of the postcode.
  lemma CodewordParts(x: Vector, pre: Matrices, post: Matrices, rs: nat)
    requires 0 < |pre| && Chained(pre, post, |x|, rs)
    ensures var n, w := |x|, MiddleLength(pre, post, rs);
      var word := Encoded(x, pre, post, rs);
      && |word| == n + w + post[0].outs && word[..n] == x
      && word[n..n + w] == Encoded(Apply(pre[0], x), pre[1..], post[1..], rs)
      && var checks := word[n + w..];
        forall j :: 0 <= j < post[0].outs ==>
          checks[j] == Dot(word[n..n + w], seq(w, i requires 0 <= i < w => EntryAt(post[0].lines[i], j)))
  {
    var n, w := |x|, MiddleLength(pre, post, rs);
    var z := Encoded(Apply(pre[0], x), pre[1..], post[1..], rs);
    var word := Encoded(x, pre, post, rs);
    assert word == x + z + Apply(post[0], z);
    assert word[n..n + w] == z;
    var checks := word[n + w..];
    assert checks == Apply(post[0], z);
    forall j | 0 <= j < post[0].outs
      ensures checks[j] == Dot(z, seq(w, i requires 0 <= i < w => EntryAt(post[0].lines[i], j)))
    {
      assert DenseColumn(post[0], j) == seq(w, i requires 0 <= i < w => EntryAt(post[0].lines[i], j));
    }
  }

  // With two levels or more the codeword of a unit message holds, right behind the message, the
  // entries of its line of the first matrix, at their places and with zeros between them.
  lemma UnitCodeword(pre: Matrices, post: Matrices, n: nat, rs: nat, i: nat, d: nat)
    requires 1 < |pre| && Chained(pre, post, n, rs) && i < n && GoodLine(pre[0].lines[i], pre[0].outs, d)
    ensures n + pre[0].outs <= |Encoded(Unit(n, i), pre, post, rs)|
    ensures var line, symbols := pre[0].lines[i], Encoded(Unit(n, i), pre, post, rs)[n..n + pre[0].outs];
      && (forall k :: 0 <= k < d ==> symbols[line[k].out] == line[k].value)
      && (forall j :: 0 <= j < |symbols| && j !in Outs(line) ==> symbols[j] == 0)
  {
    FirstChecks(Unit(n, i), pre, post, rs);
    LineOfUnit(pre[0], i, d);
  }

  lemma LineOfUnit(m: SparseMatrix, i: nat, d: nat)
    requires m.Valid() && i < m.ins && GoodLine(m.lines[i], m.outs, d)
    ensures var line, symbols := m.lines[i], Apply(m, Unit(m.ins, i));
      && (forall k :: 0 <= k < d ==> symbols[line[k].out] == line[k].value)
      && (forall j :: 0 <= j < |symbols| && j !in Outs(line) ==> symbols[j] == 0)
  {
    var line, symbols := m.lines[i], Apply(m, Unit(m.ins, i));
    forall k | 0 <= k < d ensures symbols[line[k].out] == line[k].value {
      ApplyUnit(m, i, line[k].out);
      EntryOfLine(line, line[k].out);
    }
    forall j | 0 <= j < |symbols| && j !in Outs(line) ensures symbols[j] == 0 {
      ApplyUnit(m, i, j);
      EntryOfLine(line, j);
      forall k | 0 <= k < |line| ensures line[k].out != j {
        assert Outs(line)[k] == line[k].out;
      }
    }
  }

  lemma FirstChecks(x: Vector, pre: Matrices, post: Matrices, rs: nat)
    requires 1 < |pre| && Chained(pre, post, |x|, rs)
    ensures |x| + pre[0].outs <= |Encoded(x, pre, post, rs)|
    ensures Encoded(x, pre, post, rs)[|x|..|x| + pre[0].outs] == Apply(pre[0], x)
  {
    var n, w, y := |x|, MiddleLength(pre, post, rs), Apply(pre[0], x);
    CodewordParts(x, pre, post, rs);
    Systematic(y, pre[1..], post[1..], rs);
    var word := Encoded(x, pre, post, rs);
    assert word[n..n + w][..|y|] == word[n..n + |y|];
  }

  // With one level the symbols behind the message are the line's polynomial at 1, 2, ...
  lemma UnitCodewordOneLevel(pre: Matrices, post: Matrices, n: nat, rs: nat, i: nat, p: nat)
    requires |pre| == 1 && Chained(pre, post, n, rs) && i < n && p < rs
    ensures n + rs <= |Encoded(Unit(n, i), pre, post, rs)|
    ensures Encoded(Unit(n, i), pre, post, rs)[n + p]
         == Eval(seq(pre[0].outs, j requires 0 <= j < pre[0].outs => EntryAt(pre[0].lines[i], j)), Multiple(p + 1))
  {
    var x := Unit(n, i);
    CodewordParts(x, pre, post, rs);
    var y := Apply(pre[0], x);
    assert pre[1..] == [] && Encoded(y, pre[1..], post[1..], rs) == RsWord(y, rs);
    forall j | 0 <= j < pre[0].outs ensures y[j] == EntryAt(pre[0].lines[i], j) {
      ApplyUnit(pre[0], i, j);
    }
    assert y == seq(pre[0].outs, j requires 0 <= j < pre[0].outs => EntryAt(pre[0].lines[i], j));
    assert Encoded(x, pre, post, rs)[n + p] == Encoded(x, pre, post, rs)[n..n + rs][p];
  }

  // What a generated code with two levels or more gives the lemma on unit messages.
  lemma GeneratedLine(s: CodeSpec, n: nat, f: FloatTerms, pre: Matrices, post: Matrices, i: nat)
    requires IsKnown(s) && s.baselen < Shrink(s, n) && s.baselen < n && i < n
    requires AllGenerated(pre, PreDims(s, n, f), |PreDims(s, n, f)|)
    requires AllGenerated(post, PostDims(s, n, f), |PostDims(s, n, f)|)
    ensures 1 < |pre| && Chained(pre, post, n, BaseSize(s, n))
    ensures GoodLine(pre[0].lines[i], pre[0].outs, PreDim(s, n, f).density) && pre[0].outs == Shrink(s, n)
  {
    assert PreDims(s, n, f) == [PreDim(s, n, f)] + PreDims(s, Shrink(s, n), f);
    assert Generated(pre[0], PreDims(s, n, f)[0]);
    GeneratedCodeFits(s, n, f, pre, post);
  }

  lemma SymbolOfUnit(pre: Matrices, post: Matrices, n: nat, m: nat, rs: nat, i: nat, d: nat, k: nat)
    requires 1 < |pre| && Chained(pre, post, n, rs) && i < n && GoodLine(pre[0].lines[i], pre[0].outs, d)
    requires k < d && m == pre[0].outs
    ensures k < |pre[0].lines[i]|
    ensures var word, e := Encoded(Unit(n, i), pre, post, rs), pre[0].lines[i][k];
      e.out < m && n + m <= |word| && word[n..n + m][e.out] == e.value != 0
  {
    UnitCodeword(pre, post, n, rs, i, d);
  }

  // In a generated code the codeword of a unit message carries the nonzero values of its line.
  lemma GeneratedUnitCodeword(s: CodeSpec, n: nat, f: FloatTerms, pre: Matrices, post: Matrices, i: nat, k: nat)
    requires IsKnown(s) && s.baselen < Shrink(s, n) && s.baselen < n && i < n
    requires AllGenerated(pre, PreDims(s, n, f), |PreDims(s, n, f)|)
    requires AllGenerated(post, PostDims(s, n, f), |PostDims(s, n, f)|)
    requires k < PreDim(s, n, f).density
    ensures 1 < |pre| && Chained(pre, post, n, BaseSize(s, n)) && k < |pre[0].lines[i]|
    ensures var word, e := Encoded(Unit(n, i), pre, post, BaseSize(s, n)), pre[0].lines[i][k];
      e.out < Shrink(s, n) && n + Shrink(s, n) <= |word| && word[n..n + Shrink(s, n)][e.out] == e.value != 0
  {
    hide *;
    GeneratedLine(s, n, f, pre, post, i);
    SymbolOfUnit(pre, post, n, Shrink(s, n), BaseSize(s, n), i, PreDim(s, n, f).density, k);
  }
}
