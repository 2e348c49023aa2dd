/** The shapes of the matrices of the expander code, for the codes the repository names. */
module CodeDimensions {
  import opened Vectors
  import opened Options
  import opened ReedSolomon
  import opened SparseMatrices
  import opened ExpanderCode

  // alpha, beta and the inverse rate r as fractions, and the size below which Reed-Solomon is used.
  datatype CodeSpec = CodeSpec(an: nat, ad: nat, bn: nat, bd: nat, rn: nat, rd: nat, baselen: nat)

  const CODE_1 := CodeSpec(239, 2000, 71, 2500, 71, 50, 20)
  const CODE_2 := CodeSpec(69, 500, 111, 2500, 147, 100, 20)
  const CODE_3 := CodeSpec(89, 500, 61, 1000, 1521, 1000, 20)
  const CODE_4 := CodeSpec(1, 5, 41, 500, 41, 25, 20)
  const CODE_5 := CodeSpec(211, 1000, 97, 1000, 202, 125, 20)
  const CODE_6 := CodeSpec(119, 500, 241, 2000, 43, 25, 20)

  // The parameters of the reference encoder.
  const REFERENCE_CODE := CodeSpec(89, 500, 157, 2000, 157, 100, 20)

  predicate IsKnown(s: CodeSpec) {
    s in [CODE_1, CODE_2, CODE_3, CODE_4, CODE_5, CODE_6, REFERENCE_CODE]
  }

  function CeilMulDiv(n: nat, num: nat, den: nat): nat
    requires 0 < den
  {
    (n * num + den - 1) / den
  }

  // A level of n symbols shrinks, and leaves room for at least one check symbol.
  ghost predicate LevelFits(n: nat, an: nat, ad: nat, rn: nat, rd: nat)
    requires 0 < ad && 0 < rd
  {
    var m := CeilMulDiv(n, an, ad);
    0 < m < n && n + CeilMulDiv(m, rn, rd) < CeilMulDiv(n, rn, rd)
  }

  lemma LevelFits1(n: nat)
    requires n > 20
    ensures LevelFits(n, 239, 2000, 71, 50)
  {
  }

  lemma LevelFits2(n: nat)
    requires n > 20
    ensures LevelFits(n, 69, 500, 147, 100)
  {
  }

  lemma LevelFits3(n: nat)
    requires n > 20
    ensures LevelFits(n, 89, 500, 1521, 1000)
  {
  }

  lemma LevelFits4(n: nat)
    requires n > 20
    ensures LevelFits(n, 1, 5, 41, 25)
  {
  }

  lemma LevelFits5(n: nat)
    requires n > 20
    ensures LevelFits(n, 211, 1000, 202, 125)
  {
  }

  lemma LevelFits6(n: nat)
    requires n > 20
    ensures LevelFits(n, 119, 500, 43, 25)
  {
  }

  lemma LevelFitsReference(n: nat)
    requires n > 20
    ensures LevelFits(n, 89, 500, 157, 100)
  {
  }

  lemma EveryLevelFits(s: CodeSpec, n: nat)
    requires IsKnown(s) && s.baselen < n
    ensures 0 < s.ad && 0 < s.rd && s.baselen == 20
    ensures LevelFits(n, s.an, s.ad, s.rn, s.rd)
  {
    if s == CODE_1 {
      LevelFits1(n);
    } else if s == CODE_2 {
      LevelFits2(n);
    } else if s == CODE_3 {
      LevelFits3(n);
    } else if s == CODE_4 {
      LevelFits4(n);
    } else if s == CODE_5 {
      LevelFits5(n);
    } else if s == CODE_6 {
      LevelFits6(n);
    } else {
      LevelFitsReference(n);
    }
  }

  // ---------- the dimensions ----------

  datatype Dim = Dim(ins: nat, outs: nat, density: nat)

  // The terms of the densities that the source computes in floating point.
  datatype FloatTerms = FloatTerms(preEntropy: nat -> nat, postField: nat -> nat, postEntropy: nat -> nat)

  function Min(a: nat, b: nat): nat {
    if a <= b then a else b
  }

  function Max(a: nat, b: nat): nat {
    if a <= b then b else a
  }

  function Shrink(s: CodeSpec, n: nat): (m: nat)
    requires IsKnown(s)
    ensures s.baselen < n ==> 0 < m < n
  {
    if s.baselen < n then EveryLevelFits(s, n); CeilMulDiv(n, s.an, s.ad) else CeilMulDiv(n, s.an, s.ad)
  }

  function WordSize(s: CodeSpec, n: nat): nat
    requires IsKnown(s)
  {
    CeilMulDiv(n, s.rn, s.rd)
  }

  function PreDim(s: CodeSpec, n: nat, f: FloatTerms): Dim
    requires IsKnown(s) && s.baselen < n
  {
    var m := Shrink(s, n);
    var scaled := Max(CeilMulDiv(n, 32 * s.bn, 25 * s.bd), 4 + CeilMulDiv(n, s.bn, s.bd));
    Dim(n, m, Min(Min(scaled, f.preEntropy(n)), m))
  }

  // Subtraction of sizes: the source relies on it not to go below zero.
  function PostDim(s: CodeSpec, n: nat, f: FloatTerms): Dim
    requires IsKnown(s) && s.baselen < n
  {
    EveryLevelFits(s, n);
    var ins := WordSize(s, Shrink(s, n));
    var outs := WordSize(s, n) - n - ins;
    var scaled := CeilMulDiv(n, 2 * s.bn, s.bd) + f.postField(WordSize(s, n) - n + 110);
    Dim(ins, outs, Min(Min(scaled, f.postEntropy(n)), outs))
  }

  function PreDims(s: CodeSpec, n: nat, f: FloatTerms): seq<Dim>
    requires IsKnown(s)
    decreases n
  {
    if n <= s.baselen then [] else [PreDim(s, n, f)] + PreDims(s, Shrink(s, n), f)
  }

  function PostDims(s: CodeSpec, n: nat, f: FloatTerms): seq<Dim>
    requires IsKnown(s)
    decreases n
  {
    if n <= s.baselen then [] else [PostDim(s, n, f)] + PostDims(s, Shrink(s, n), f)
  }

  // Every level: sizes chain, nothing underflows, and no row is denser than the matrix is wide.
  lemma {:induction false} DimensionsFit(s: CodeSpec, n: nat, f: FloatTerms, i: nat)
    requires IsKnown(s) && i < |PreDims(s, n, f)|
    ensures |PreDims(s, n, f)| == |PostDims(s, n, f)|
    ensures var pre, post := PreDims(s, n, f)[i], PostDims(s, n, f)[i];
      && s.baselen < pre.ins <= n && 0 < pre.outs < pre.ins
      && pre.density <= pre.outs && post.density <= post.outs && 0 < post.outs
      && post.ins == WordSize(s, pre.outs)
      && pre.ins + post.ins + post.outs == WordSize(s, pre.ins)
    ensures if i + 1 < |PreDims(s, n, f)|
      then PreDims(s, n, f)[i + 1].ins == PreDims(s, n, f)[i].outs
      else PreDims(s, n, f)[i].outs <= s.baselen
    decreases n
  {
    var m := Shrink(s, n);
    SameCount(s, n, f);
    EveryLevelFits(s, n);
    if i > 0 {
      DimensionsFit(s, m, f, i - 1);
    }
  }

  lemma {:induction false} SameCount(s: CodeSpec, n: nat, f: FloatTerms)
    requires IsKnown(s)
    ensures |PreDims(s, n, f)| == |PostDims(s, n, f)|
    decreases n
  {
    if n > s.baselen {
      SameCount(s, Shrink(s, n), f);
    }
  }

  // The first level of a thousand symbols, code by code.
  lemma PrecodesOfThousand(f: FloatTerms)
    ensures PreDim(CODE_1, 1000, f) == Dim(1000, 120, Min(37, f.preEntropy(1000)))
    ensures PreDim(CODE_2, 1000, f) == Dim(1000, 138, Min(57, f.preEntropy(1000)))
    ensures PreDim(CODE_3, 1000, f) == Dim(1000, 178, Min(79, f.preEntropy(1000)))
    ensures PreDim(CODE_4, 1000, f) == Dim(1000, 200, Min(105, f.preEntropy(1000)))
    ensures PreDim(CODE_5, 1000, f) == Dim(1000, 211, Min(125, f.preEntropy(1000)))
    ensures PreDim(CODE_6, 1000, f) == Dim(1000, 238, Min(155, f.preEntropy(1000)))
    ensures PreDim(REFERENCE_CODE, 1000, f) == Dim(1000, 178, Min(101, f.preEntropy(1000)))
  {
  }

  lemma PostcodesOfThousand(f: FloatTerms)
    ensures PostDim(CODE_1, 1000, f) == Dim(171, 249, Min(Min(57 + f.postField(530), f.postEntropy(1000)), 249))
    ensures PostDim(CODE_2, 1000, f) == Dim(203, 267, Min(Min(89 + f.postField(580), f.postEntropy(1000)), 267))
  {
  }

  lemma DenserPostcodesOfThousand(f: FloatTerms)
    ensures PostDim(CODE_3, 1000, f) == Dim(271, 250, Min(Min(122 + f.postField(631), f.postEntropy(1000)), 250))
    ensures PostDim(CODE_4, 1000, f) == Dim(328, 312, Min(Min(164 + f.postField(750), f.postEntropy(1000)), 312))
  {
  }

  lemma DensestPostcodesOfThousand(f: FloatTerms)
    ensures PostDim(CODE_5, 1000, f) == Dim(341, 275, Min(Min(194 + f.postField(726), f.postEntropy(1000)), 275))
    ensures PostDim(CODE_6, 1000, f) == Dim(410, 310, Min(Min(241 + f.postField(830), f.postEntropy(1000)), 310))
  {
  }

  lemma ReferencePostcodeOfThousand(f: FloatTerms)
    ensures PostDim(REFERENCE_CODE, 1000, f)
         == Dim(280, 290, Min(Min(157 + f.postField(680), f.postEntropy(1000)), 290))
  {
  }

  // For fewer symbols the additive bound on the density is the larger one.
  lemma FirstLevelOfHundred(f: FloatTerms)
    ensures PreDim(CODE_6, 100, f) == Dim(100, 24, Min(17, f.preEntropy(100)))
    ensures PreDim(CODE_1, 100, f) == Dim(100, 12, Min(7, f.preEntropy(100)))
  {
  }

  // No matrix is empty: with positive terms every line has an entry.
  lemma {:induction false} DensitiesArePositive(s: CodeSpec, n: nat, f: FloatTerms, i: nat)
    requires IsKnown(s) && i < |PreDims(s, n, f)|
    requires forall k {:trigger f.preEntropy(k)} :: 0 < f.preEntropy(k)
    requires forall k {:trigger f.postEntropy(k)} :: 0 < f.postEntropy(k)
    ensures |PreDims(s, n, f)| == |PostDims(s, n, f)|
    ensures 0 < PreDims(s, n, f)[i].density && 0 < PostDims(s, n, f)[i].density
    decreases n
  {
    SameCount(s, n, f);
    EveryLevelFits(s, n);
    if i > 0 {
      DensitiesArePositive(s, Shrink(s, n), f, i - 1);
    } else {
      CeilIsPositive(n, 2 * s.bn, s.bd);
    }
  }

  lemma CeilIsPositive(n: nat, num: nat, den: nat)
    requires 0 < n && 0 < num && 0 < den
    ensures 0 < CeilMulDiv(n, num, den)
  {
    assert 0 < n * num;
    if n * num + den - 1 < den {
      assert false;
    }
  }

  // ---------- matrices of these dimensions ----------

  predicate HasShapes(ms: Matrices, dims: seq<Dim>) {
    |ms| == |dims| && forall i :: 0 <= i < |ms| ==>
      ms[i].Valid() && ms[i].ins == dims[i].ins && ms[i].outs == dims[i].outs
  }

  // The length of the Reed-Solomon word at the bottom.
  function BaseSize(s: CodeSpec, n: nat): nat
    requires IsKnown(s)
    decreases n
  {
    if n <= s.baselen then WordSize(s, n) else BaseSize(s, Shrink(s, n))
  }

  lemma ShapesOfTail(ms: Matrices, dims: seq<Dim>)
    requires HasShapes(ms, dims) && 0 < |ms|
    ensures HasShapes(ms[1..], dims[1..])
  {
  }

  // The matrices chain, and the codeword length telescopes to r*n rounded up.
  lemma {:induction false} GeneratedCodeFits(s: CodeSpec, n: nat, f: FloatTerms, pre: Matrices, post: Matrices)
    requires IsKnown(s) && HasShapes(pre, PreDims(s, n, f)) && HasShapes(post, PostDims(s, n, f))
    ensures Chained(pre, post, n, BaseSize(s, n))
    ensures CodeLength(pre, post, BaseSize(s, n)) == WordSize(s, n)
    ensures n > s.baselen ==> 0 < |post| && post[|post| - 1].ins == BaseSize(s, n) && n < WordSize(s, n)
    decreases n
  {
    SameCount(s, n, f);
    if n > s.baselen {
      var m := Shrink(s, n);
      EveryLevelFits(s, n);
      ShapesOfTail(pre, PreDims(s, n, f));
      ShapesOfTail(post, PostDims(s, n, f));
      GeneratedCodeFits(s, m, f, pre[1..], post[1..]);
      if m > s.baselen {
        assert post[|post| - 1] == post[1..][|post| - 2];
      }
    }
  }

  // A known code, with matrices of the dimensions computed for messages of n symbols.
  datatype GeneratedCode = GeneratedCode(spec: CodeSpec, n: nat, terms: FloatTerms, pre: Matrices, post: Matrices) {
    ghost predicate Valid() {
      && IsKnown(spec) && spec.baselen < n
      && HasShapes(pre, PreDims(spec, n, terms)) && HasShapes(post, PostDims(spec, n, terms))
    }
  }

  // ---------- the recursive reference encoder ----------

  // Reed-Solomon up to 20 symbols, otherwise one level down; None where an assertion fails.
  function EncodeDoc(x: Vector, pre: Matrices, post: Matrices, shift: nat, s: CodeSpec): Option<Vector>
    requires IsKnown(s)
    decreases |pre| - shift
  {
    if |x| <= 20 then Some(RsWord(x, WordSize(s, |x|)))
    else if shift >= |pre| || shift >= |post| || !pre[shift].Valid() || pre[shift].ins != |x| then None
    else
      var z := EncodeDoc(Apply(pre[shift], x), pre, post, shift + 1, s);
      if z.None? || !post[shift].Valid() || post[shift].ins != |z.value| then None
      else Some(x + z.value + Apply(post[shift], z.value))
  }

  // On generated matrices the reference encoder and the levelled one are the same function.
  lemma {:induction false} EncodersAgree(x: Vector, pre: Matrices, post: Matrices, shift: nat, s: CodeSpec,
                                         f: FloatTerms)
    requires IsKnown(s) && shift <= |pre| == |post|
    requires HasShapes(pre[shift..], PreDims(s, |x|, f)) && HasShapes(post[shift..], PostDims(s, |x|, f))
    ensures Chained(pre[shift..], post[shift..], |x|, BaseSize(s, |x|))
    ensures EncodeDoc(x, pre, post, shift, s) == Some(Encoded(x, pre[shift..], post[shift..], BaseSize(s, |x|)))
    decreases |pre| - shift
  {
    GeneratedCodeFits(s, |x|, f, pre[shift..], post[shift..]);
    if |x| > s.baselen {
      assert pre[shift..][0] == pre[shift] && post[shift..][0] == post[shift];
      assert pre[shift..][1..] == pre[shift + 1..] && post[shift..][1..] == post[shift + 1..];
      ShapesOfTail(pre[shift..], PreDims(s, |x|, f));
      ShapesOfTail(post[shift..], PostDims(s, |x|, f));
      EncodersAgree(Apply(pre[shift], x), pre, post, shift + 1, s, f);
    }
  }
}
