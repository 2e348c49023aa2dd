/**
 The finite field every other module computes in. The repository is generic over the field, so
 the model is too: K is an arbitrary field of at least 256 elements, numbered from 0 (zero) and
 1 (one).
 ResiduesFormField shows that the residues of every prime satisfy the laws.
 */
module Fields {
  import opened Arithmetic

  datatype FieldStructure = FieldStructure(
    order: int,
    add: (int, int) -> int,
    neg: int -> int,
    mul: (int, int) -> int)

  ghost predicate In(f: FieldStructure, a: int) {
    0 <= a < f.order
  }

  ghost predicate AdditiveLawsAt(f: FieldStructure, a: int, b: int, c: int) {
    && In(f, f.add(a, b)) && In(f, f.neg(a))
    && f.add(a, b) == f.add(b, a)
    && f.add(f.add(a, b), c) == f.add(a, f.add(b, c))
    && f.add(a, 0) == a
    && f.add(a, f.neg(a)) == 0
  }

  ghost predicate MultiplicativeLawsAt(f: FieldStructure, a: int, b: int, c: int) {
    && In(f, f.mul(a, b))
    && f.mul(a, b) == f.mul(b, a)
    && f.mul(f.mul(a, b), c) == f.mul(a, f.mul(b, c))
    && f.mul(a, 1) == a
    && (f.mul(a, b) == 0 ==> a == 0 || b == 0)
  }

  // The laws of a finite field for three of its elements. A finite commutative ring without zero
  // divisors is a field.
  ghost predicate LawsAt(f: FieldStructure, a: int, b: int, c: int) {
    && AdditiveLawsAt(f, a, b, c)
    && MultiplicativeLawsAt(f, a, b, c)
    && f.mul(a, f.add(b, c)) == f.add(f.mul(a, b), f.mul(a, c))
  }

  ghost predicate IsField(f: FieldStructure) {
    && 2 <= f.order
    && forall a, b, c {:trigger LawsAt(f, a, b, c)} :: In(f, a) && In(f, b) && In(f, c) ==> LawsAt(f, a, b, c)
  }

  // ---------- the residues of a prime ----------

  ghost predicate IsPrime(p: int) {
    2 <= p && forall m :: 2 <= m < p ==> p % m != 0
  }

  // x modulo p, by repeated subtraction.
  function Reduce(x: int, p: int): (r: int)
    requires 2 <= p
    ensures 0 <= r < p
    ensures 0 <= x < p ==> r == x
    decreases if x < 0 then p - x else x
  {
    if x < 0 then Reduce(x + p, p) else if x < p then x else Reduce(x - p, p)
  }

  function Residues(p: int): FieldStructure
    requires 2 <= p
  {
    FieldStructure(p, (a, b) => Reduce(a + b, p), a => Reduce(-a, p), (a, b) => Reduce(a * b, p))
  }

  lemma {:induction false} Quotient(x: int, p: int) returns (k: int)
    requires 2 <= p
    ensures x == k * p + Reduce(x, p)
    decreases if x < 0 then p - x else x
  {
    if x < 0 {
      k := Quotient(x + p, p);
      MulDistributes(k, 1, p);
      k := k - 1;
    } else if x < p {
      k := 0;
    } else {
      k := Quotient(x - p, p);
      MulDistributes(k, 1, p);
      k := k + 1;
    }
  }

  lemma ReduceShift(x: int, k: int, p: int)
    requires 2 <= p
    ensures Reduce(x + k * p, p) == Reduce(x, p)
  {
    var i := Quotient(x, p);
    var j := Quotient(x + k * p, p);
    assert (i + k) * p == i * p + k * p;
    CellUnique(p, i + k, Reduce(x, p), j, Reduce(x + k * p, p));
  }

  // Residues of sums and products may be reduced early.
  lemma ReduceSum(x: int, y: int, p: int)
    requires 2 <= p
    ensures Reduce(Reduce(x, p) + y, p) == Reduce(x + y, p)
  {
    var k := Quotient(x, p);
    ReduceShift(Reduce(x, p) + y, k, p);
  }

  lemma ReduceProduct(x: int, y: int, p: int)
    requires 2 <= p
    ensures Reduce(Reduce(x, p) * y, p) == Reduce(x * y, p)
  {
    var k := Quotient(x, p);
    var r := Reduce(x, p);
    MulDistributes(k * p, r, y);
    MulRotate(p, k, y);
    MulRotate(k, y, p);
    ReduceShift(r * y, k * y, p);
  }

  lemma RemainderTimes(p: int, q: int, a: int, b: int, k: int)
    requires a * b == k * p
    ensures p * b - q * a * b == (b - q * k) * p
  {
  }

  // Euclid's lemma, by descent on a: dividing p by a leaves a smaller witness.
  lemma {:induction false} PrimeHasNoZeroDivisors(a: int, b: int, p: int)
    requires IsPrime(p) && 0 < a < p && 0 < b < p
    ensures Reduce(a * b, p) != 0
    decreases a
  {
    if a > 1 {
      var q, r := p / a, p % a;
      assert p == q * a + r;
      PrimeHasNoZeroDivisors(r, b, p);
      if Reduce(a * b, p) == 0 {
        var k := Quotient(a * b, p);
        assert r * b == (b - q * k) * p by {
          MulDistributes(p, q * a, b);
          RemainderTimes(p, q, a, b, k);
        }
        ReduceShift(0, b - q * k, p);
      }
    }
  }

  lemma ResidueAdditiveLaws(f: FieldStructure, a: int, b: int, c: int)
    requires 2 <= f.order && f == Residues(f.order)
    requires In(f, a) && In(f, b) && In(f, c)
    ensures AdditiveLawsAt(f, a, b, c)
  {
  }

  lemma ResidueMultiplicativeLaws(f: FieldStructure, a: int, b: int, c: int)
    requires IsPrime(f.order) && f == Residues(f.order)
    requires In(f, a) && In(f, b) && In(f, c)
    ensures MultiplicativeLawsAt(f, a, b, c)
  {
    var p := f.order;
    ReduceProduct(a * b, c, p);
    ReduceProduct(b * c, a, p);
    MulRotate(a, b, c);
    MulCommutes(a, Reduce(b * c, p));
    MulCommutes(a, b);
    if 0 < a && 0 < b {
      PrimeHasNoZeroDivisors(a, b, p);
    }
  }

  lemma ReduceBoth(x: int, y: int, p: int)
    requires 2 <= p
    ensures Reduce(Reduce(x, p) + Reduce(y, p), p) == Reduce(x + y, p)
  {
    ReduceSum(x, Reduce(y, p), p);
    ReduceSum(y, x, p);
  }

  lemma ReduceFactor(a: int, s: int, t: int, p: int)
    requires 2 <= p && t == s * a
    ensures Reduce(a * Reduce(s, p), p) == Reduce(t, p)
  {
    MulCommutes(a, Reduce(s, p));
    ReduceProduct(s, a, p);
  }

  lemma ResiduesDistribute(a: int, s: int, x: int, y: int, p: int)
    requires 2 <= p && s * a == x + y
    ensures Reduce(a * Reduce(s, p), p) == Reduce(Reduce(x, p) + Reduce(y, p), p)
  {
    ReduceFactor(a, s, x + y, p);
    ReduceBoth(x, y, p);
  }

  lemma ResidueLaws(f: FieldStructure, a: int, b: int, c: int)
    requires IsPrime(f.order) && f == Residues(f.order)
    requires In(f, a) && In(f, b) && In(f, c)
    ensures LawsAt(f, a, b, c)
  {
    ResidueAdditiveLaws(f, a, b, c);
    ResidueMultiplicativeLaws(f, a, b, c);
    MulDistributes(b, c, a);
    ResiduesDistribute(a, b + c, a * b, a * c, f.order);
  }

  lemma ResiduesFormField(p: int)
    requires IsPrime(p)
    ensures IsField(Residues(p))
  {
    var f := Residues(p);
    forall a, b, c | In(f, a) && In(f, b) && In(f, c)
      ensures LawsAt(f, a, b, c)
    {
      ResidueLaws(f, a, b, c);
    }
  }

  lemma Prime257()
    ensures IsPrime(257)
  {
  }

  function Residues257(): (f: FieldStructure)
    ensures IsField(f) && 256 <= f.order
  {
    Prime257();
    ResiduesFormField(257);
    Residues(257)
  }

  // A field in which a byte can be stored.
  type Field = f: FieldStructure | IsField(f) && 256 <= f.order witness Residues257()

  // ---------- the field of the model ----------

  const K: Field

  type Elem = a: int | 0 <= a < K.order witness 0

  function Add(a: Elem, b: Elem): Elem {
    assert LawsAt(K, a, b, a);
    K.add(a, b)
  }

  function Mul(a: Elem, b: Elem): Elem {
    assert LawsAt(K, a, b, a);
    K.mul(a, b)
  }

  function Neg(a: Elem): Elem {
    assert LawsAt(K, a, a, a);
    K.neg(a)
  }

  function Sub(a: Elem, b: Elem): Elem {
    Add(a, Neg(b))
  }

  lemma AddLaws(a: Elem, b: Elem, c: Elem)
    ensures Add(a, b) == Add(b, a)
    ensures Add(Add(a, b), c) == Add(a, Add(b, c))
    ensures Add(a, 0) == a && Add(0, a) == a
    ensures Add(a, Neg(a)) == 0
  {
    assert LawsAt(K, a, b, c);
    assert LawsAt(K, 0, a, a);
    assert LawsAt(K, a, 0, 0);
  }

  lemma MulLaws(a: Elem, b: Elem, c: Elem)
    ensures Mul(a, b) == Mul(b, a)
    ensures Mul(Mul(a, b), c) == Mul(a, Mul(b, c))
    ensures Mul(a, 1) == a && Mul(1, a) == a
  {
    assert LawsAt(K, a, b, c);
    assert LawsAt(K, 1, a, a);
    assert LawsAt(K, a, 1, 1);
  }

  lemma Distributes(a: Elem, b: Elem, c: Elem)
    ensures Mul(a, Add(b, c)) == Add(Mul(a, b), Mul(a, c))
    ensures Mul(Add(b, c), a) == Add(Mul(b, a), Mul(c, a))
  {
    assert LawsAt(K, a, b, c);
    MulLaws(a, b, 0);
    MulLaws(a, c, 0);
    MulLaws(a, Add(b, c), 0);
  }

  lemma ZeroProduct(a: Elem, b: Elem)
    ensures Mul(a, b) == 0 ==> a == 0 || b == 0
  {
    assert LawsAt(K, a, b, a);
  }

  // Adding the same element on both sides can be undone.
  lemma Cancel(a: Elem, b: Elem, c: Elem)
    requires Add(a, c) == Add(b, c)
    ensures a == b
  {
    AddLaws(a, c, Neg(c));
    AddLaws(b, c, Neg(c));
    AddLaws(c, c, c);
  }

  lemma MulZero(a: Elem)
    ensures Mul(a, 0) == 0 && Mul(0, a) == 0
  {
    AddLaws(0, 0, 0);
    Distributes(a, 0, 0);
    AddLaws(Mul(a, 0), 0, 0);
    Cancel(Mul(a, 0), 0, Mul(a, 0));
    MulLaws(a, 0, 0);
  }

  lemma Interchange(a: Elem, b: Elem, c: Elem, d: Elem)
    ensures Add(Add(a, b), Add(c, d)) == Add(Add(a, c), Add(b, d))
  {
    AddLaws(a, b, Add(c, d));
    AddLaws(b, c, d);
    AddLaws(c, b, d);
    AddLaws(a, c, Add(b, d));
  }

  lemma SubAdd(a: Elem, b: Elem)
    ensures Add(Sub(a, b), b) == a
    ensures Sub(Add(a, b), b) == a
    ensures Sub(a, b) == 0 <==> a == b
  {
    AddLaws(a, Neg(b), b);
    AddLaws(b, Neg(b), b);
    AddLaws(a, b, Neg(b));
    AddLaws(a, 0, 0);
    AddLaws(Neg(b), b, 0);
    AddLaws(0, b, 0);
    AddLaws(b, 0, 0);
  }

  // ---------- powers and multiples of one ----------

  function Pow(x: Elem, n: nat): Elem {
    if n == 0 then 1 else Mul(Pow(x, n - 1), x)
  }

  lemma {:induction false} PowAdd(x: Elem, m: nat, n: nat)
    ensures Pow(x, m + n) == Mul(Pow(x, m), Pow(x, n))
  {
    if n == 0 {
      MulLaws(Pow(x, m), 1, 1);
    } else {
      PowAdd(x, m, n - 1);
      MulLaws(Pow(x, m), Pow(x, n - 1), x);
    }
  }

  lemma {:induction false} PowMul(x: Elem, m: nat, n: nat)
    ensures Pow(Pow(x, m), n) == Pow(x, m * n)
  {
    if n > 0 {
      PowMul(x, m, n - 1);
      PowAdd(x, m * (n - 1), m);
      assert m * (n - 1) + m == m * n;
    }
  }

  // n times one: the evaluation points 1, 2, 3, ... of the Reed-Solomon code.
  function Multiple(n: nat): Elem {
    if n == 0 then 0 else Add(Multiple(n - 1), 1)
  }

  lemma {:induction false} MultipleAdd(m: nat, n: nat)
    ensures Multiple(m + n) == Add(Multiple(m), Multiple(n))
  {
    if n == 0 {
      AddLaws(Multiple(m), 0, 0);
    } else {
      MultipleAdd(m, n - 1);
      AddLaws(Multiple(m), Multiple(n - 1), 1);
    }
  }
}
