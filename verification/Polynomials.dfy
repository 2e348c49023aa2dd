/** Polynomials given by their coefficients, lowest degree first. */
module Polynomials {
  import opened Fields
  import opened Vectors

  // ---------- evaluation ----------

  // c[0] + x*(c[1] + x*(c[2] + ...))
  function Eval(c: Vector, x: Elem): Elem {
    if |c| == 0 then 0 else Add(c[0], Mul(x, Eval(c[1..], x)))
  }

  // x^k, x^(k+1), ..., n of them
  function Powers(x: Elem, k: nat, n: nat): (v: Vector)
    ensures |v| == n
  {
    seq<Elem>(n, i requires 0 <= i < n => Pow(x, k + i))
  }

  lemma PowSucc(x: Elem, n: nat)
    ensures Pow(x, n + 1) == Mul(x, Pow(x, n))
  {
    MulLaws(Pow(x, n), x, 0);
  }

  // Summing c[i]*x^(k+i) is evaluating at an elevated degree.
  lemma {:induction false} PowerSumIsEval(c: Vector, x: Elem, k: nat)
    ensures Dot(c, Powers(x, k, |c|)) == Mul(Pow(x, k), Eval(c, x))
  {
    if |c| == 0 {
      MulZero(Pow(x, k));
    } else {
      var p, rest := Powers(x, k, |c|), c[1..];
      PowerSumIsEval(rest, x, k + 1);
      assert p[1..] == Powers(x, k + 1, |rest|);
      DotHead(c, p);
      PowSucc(x, k);
      MulLaws(x, Pow(x, k), 0);
      MulLaws(Pow(x, k), x, Eval(rest, x));
      MulLaws(c[0], Pow(x, k), 0);
      Distributes(Pow(x, k), c[0], Mul(x, Eval(rest, x)));
    }
  }

  lemma {:induction false} DotFirstHead(a: Vector, b: Vector, n: nat)
    requires 0 < n <= |a| && n <= |b|
    ensures DotFirst(a, b, n) == Add(Mul(a[0], b[0]), DotFirst(a[1..], b[1..], n - 1))
  {
    if n == 1 {
      AddLaws(Mul(a[0], b[0]), 0, 0);
    } else {
      DotFirstHead(a, b, n - 1);
      AddLaws(Mul(a[0], b[0]), DotFirst(a[1..], b[1..], n - 2), Mul(a[n - 1], b[n - 1]));
    }
  }

  lemma DotHead(a: Vector, b: Vector)
    requires 0 < |a| == |b|
    ensures Dot(a, b) == Add(Mul(a[0], b[0]), Dot(a[1..], b[1..]))
  {
    DotFirstHead(a, b, |a|);
  }

  lemma EvalIsPowerSum(c: Vector, x: Elem)
    ensures Dot(c, Powers(x, 0, |c|)) == Eval(c, x)
  {
    PowerSumIsEval(c, x, 0);
    MulLaws(Eval(c, x), 1, 1);
  }

  lemma {:induction false} EvalConcat(a: Vector, b: Vector, x: Elem)
    ensures Eval(a + b, x) == Add(Eval(a, x), Mul(Pow(x, |a|), Eval(b, x)))
  {
    if |a| == 0 {
      assert a + b == b;
      MulLaws(Eval(b, x), 1, 1);
      AddLaws(Eval(b, x), 0, 0);
    } else {
      assert (a + b)[1..] == a[1..] + b;
      EvalConcat(a[1..], b, x);
      var tail, shifted := Eval(a[1..], x), Mul(Pow(x, |a| - 1), Eval(b, x));
      Distributes(x, tail, shifted);
      MulLaws(x, Pow(x, |a| - 1), Eval(b, x));
      PowSucc(x, |a| - 1);
      AddLaws(a[0], Mul(x, tail), Mul(x, shifted));
    }
  }

  lemma {:induction false} EvalZeros(n: nat, x: Elem)
    ensures Eval(Zeros(n), x) == 0
  {
    if n > 0 {
      assert Zeros(n)[1..] == Zeros(n - 1);
      EvalZeros(n - 1, x);
      MulZero(x);
      AddLaws(0, 0, 0);
    }
  }

  // Trailing zeros do not change the value.
  lemma EvalPadded(c: Vector, n: nat, x: Elem)
    requires |c| <= n
    ensures Eval(Resize(c, n), x) == Eval(c, x)
  {
    if |c| < n {
      EvalConcat(c, Zeros(n - |c|), x);
      EvalZeros(n - |c|, x);
      MulZero(Pow(x, |c|));
      AddLaws(Eval(c, x), 0, 0);
    } else {
      assert Resize(c, n) == c;
    }
  }

  lemma {:induction false} EvalLinear(a: Vector, k: Elem, b: Vector, x: Elem)
    requires |a| == |b|
    ensures Eval(VAdd(a, Scale(k, b)), x) == Add(Eval(a, x), Mul(k, Eval(b, x)))
  {
    if |a| == 0 {
      MulZero(k);
      AddLaws(0, 0, 0);
    } else {
      var sum := VAdd(a, Scale(k, b));
      assert sum[1..] == VAdd(a[1..], Scale(k, b[1..]));
      EvalLinear(a[1..], k, b[1..], x);
      var ea, eb := Eval(a[1..], x), Eval(b[1..], x);
      Distributes(x, ea, Mul(k, eb));
      MulLaws(x, k, eb);
      MulLaws(k, x, eb);
      Distributes(k, b[0], Mul(x, eb));
      Interchange(a[0], Mul(k, b[0]), Mul(x, ea), Mul(k, Mul(x, eb)));
    }
  }

  // ---------- roots ----------

  predicate AllZero(c: Vector) {
    forall i :: 0 <= i < |c| ==> c[i] == 0
  }

  // The quotient of c by (x - a).
  function DivideBy(c: Vector, a: Elem): (q: Vector)
    ensures |c| > 0 ==> |q| == |c| - 1
  {
    if |c| <= 1 then [] else [Eval(c[1..], a)] + DivideBy(c[1..], a)
  }

  // With X = x - a: c0 + x*(X*q + r) is X*(r + x*q) + (c0 + a*r).
  lemma DivisionStep(c0: Elem, x: Elem, a: Elem, q: Elem, r: Elem)
    ensures Add(c0, Mul(x, Add(Mul(Sub(x, a), q), r)))
         == Add(Mul(Sub(x, a), Add(r, Mul(x, q))), Add(c0, Mul(a, r)))
  {
    var d := Sub(x, a);
    SubAdd(x, a);
    calc {
      Mul(x, Add(Mul(d, q), r));
      { Distributes(x, Mul(d, q), r); }
      Add(Mul(x, Mul(d, q)), Mul(x, r));
      { MulLaws(x, d, q); MulLaws(d, x, q); }
      Add(Mul(d, Mul(x, q)), Mul(x, r));
      Add(Mul(d, Mul(x, q)), Mul(Add(d, a), r));
      { Distributes(r, d, a); }
      Add(Mul(d, Mul(x, q)), Add(Mul(d, r), Mul(a, r)));
      { AddLaws(Mul(d, Mul(x, q)), Mul(d, r), Mul(a, r)); }
      Add(Add(Mul(d, Mul(x, q)), Mul(d, r)), Mul(a, r));
      { Distributes(d, Mul(x, q), r); AddLaws(Mul(x, q), r, 0); }
      Add(Mul(d, Add(r, Mul(x, q))), Mul(a, r));
    }
    var s := Mul(d, Add(r, Mul(x, q)));
    AddLaws(c0, s, Mul(a, r));
    AddLaws(s, c0, Mul(a, r));
  }

  lemma {:induction false} Division(c: Vector, a: Elem, x: Elem)
    requires |c| > 0
    ensures Eval(c, x) == Add(Mul(Sub(x, a), Eval(DivideBy(c, a), x)), Eval(c, a))
  {
    if |c| == 1 {
      MulZero(x);
      MulZero(a);
      MulZero(Sub(x, a));
      AddLaws(c[0], 0, 0);
    } else {
      Division(c[1..], a, x);
      var q := DivideBy(c[1..], a);
      assert DivideBy(c, a)[1..] == q;
      DivisionStep(c[0], x, a, Eval(q, x), Eval(c[1..], a));
    }
  }

  lemma {:induction false} EvalAllZero(c: Vector, x: Elem)
    requires AllZero(c)
    ensures Eval(c, x) == 0
  {
    assert c == Zeros(|c|);
    EvalZeros(|c|, x);
  }

  lemma {:induction false} ZeroQuotient(c: Vector, a: Elem)
    requires |c| > 0 && AllZero(DivideBy(c, a))
    ensures AllZero(c[1..])
  {
    if |c| > 1 {
      var q := DivideBy(c, a);
      assert q[1..] == DivideBy(c[1..], a);
      assert forall i :: 0 <= i < |q[1..]| ==> q[1..][i] == q[i + 1];
      ZeroQuotient(c[1..], a);
      EvalAllZero(c[1..][1..], a);
      MulZero(a);
      AddLaws(c[1], 0, 0);
      assert q[0] == Eval(c[1..], a) == c[1];
      assert forall i :: 1 <= i < |c[1..]| ==> c[1..][i] == c[1..][1..][i - 1];
    }
  }

  // Dividing out a root leaves zero only of zero.
  lemma NonzeroQuotient(c: Vector, a: Elem)
    requires |c| > 0 && Eval(c, a) == 0
    ensures AllZero(DivideBy(c, a)) ==> AllZero(c)
  {
    if AllZero(DivideBy(c, a)) {
      ZeroQuotient(c, a);
      EvalAllZero(c[1..], a);
      MulZero(a);
      AddLaws(c[0], 0, 0);
      assert forall i :: 1 <= i < |c| ==> c[i] == c[1..][i - 1];
    }
  }

  // A polynomial with n coefficients, not all zero, has fewer than n roots.
  lemma {:induction false} FewRoots(c: Vector, roots: set<Elem>)
    requires !AllZero(c) && forall r :: r in roots ==> Eval(c, r) == 0
    ensures |roots| < |c|
    decreases |c|
  {
    if roots != {} {
      var a :| a in roots;
      var q := DivideBy(c, a);
      NonzeroQuotient(c, a);
      forall r | r in roots - {a} ensures Eval(q, r) == 0 {
        Division(c, a, r);
        AddLaws(Mul(Sub(r, a), Eval(q, r)), 0, 0);
        ZeroProduct(Sub(r, a), Eval(q, r));
        SubAdd(r, a);
      }
      FewRoots(q, roots - {a});
    }
  }
}
