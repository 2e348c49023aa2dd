/** The base code: a message is evaluated as a polynomial at the points 1, 2, 3, ... */
module ReedSolomon {
  import opened Fields
  import opened Vectors
  import opened Polynomials

  function RsWord(message: Vector, m: nat): (word: Vector)
    ensures |word| == m
  {
    seq<Elem>(m, i requires 0 <= i < m => Eval(message, Multiple(i + 1)))
  }

  // ---------- the two ways of computing it ----------

  // The Vandermonde product: powers of each point, accumulated, times the message.
  method RsVandermonde(message: Vector, m: nat) returns (word: Vector)
    ensures word == RsWord(message, m)
  {
    word := [];
    var point: Elem := 0;
    for i := 0 to m
      invariant point == Multiple(i)
      invariant word == RsWord(message, m)[..i]
    {
      point := Add(point, 1);
      var sum := PowerSumAt(message, point);
      word := word + [sum];
    }
  }

  method PowerSumAt(message: Vector, point: Elem) returns (sum: Elem)
    ensures sum == Eval(message, point)
  {
    var power: Elem := 1;
    sum := 0;
    ghost var powers := Powers(point, 0, |message|);
    for j := 0 to |message|
      invariant power == Pow(point, j)
      invariant sum == DotFirst(message, powers, j)
    {
      MulLaws(power, message[j], 0);
      sum := Add(sum, Mul(power, message[j]));
      power := Mul(power, point);
    }
    EvalIsPowerSum(message, point);
  }

  // Horner's rule, written into a slice of the buffer.
  method RsHorner(message: Vector, xo: array<Elem>, lo: nat, hi: nat)
    requires lo <= hi <= xo.Length
    modifies xo
    ensures xo[lo..hi] == RsWord(message, hi - lo)
    ensures xo[..lo] == old(xo[..lo]) && xo[hi..] == old(xo[hi..])
  {
    ghost var word := RsWord(message, hi - lo);
    var x: Elem := Multiple(1);
    for i := 0 to hi - lo
      invariant x == Multiple(i + 1)
      invariant xo[lo..lo + i] == word[..i]
      invariant xo[..lo] == old(xo[..lo]) && xo[hi..] == old(xo[hi..])
    {
      var r := HornerAt(message, x);
      xo[lo + i] := r;
      x := Add(x, 1);
    }
  }

  method HornerAt(message: Vector, x: Elem) returns (r: Elem)
    ensures r == Eval(message, x)
  {
    r := 0;
    for j := |message| downto 0
      invariant r == Eval(message[j..], x)
    {
      assert message[j..][1..] == message[j + 1..];
      r := Mul(r, x);
      MulLaws(r, x, 0);
      MulLaws(x, Eval(message[j + 1..], x), 0);
      AddLaws(message[j], r, 0);
      r := Add(r, message[j]);
    }
    assert message[0..] == message;
  }

  // ---------- linearity and distance ----------

  lemma RsLinear(a: Vector, k: Elem, b: Vector, m: nat)
    requires |a| == |b|
    ensures RsWord(VAdd(a, Scale(k, b)), m) == VAdd(RsWord(a, m), Scale(k, RsWord(b, m)))
  {
    forall i | 0 <= i < m
      ensures RsWord(VAdd(a, Scale(k, b)), m)[i] == VAdd(RsWord(a, m), Scale(k, RsWord(b, m)))[i]
    {
      EvalLinear(a, k, b, Multiple(i + 1));
    }
  }

  // The field is large enough that 1, 2, ..., m are not zero.
  ghost predicate PointsNonzero(m: nat) {
    forall i: nat :: 0 < i <= m ==> Multiple(i) != 0
  }

  lemma PointsDiffer(i: nat, j: nat, m: nat)
    requires PointsNonzero(m) && i < j <= m
    ensures Multiple(i) != Multiple(j)
  {
    MultipleAdd(i, j - i);
    if Multiple(i) == Multiple(j) {
      AddLaws(Multiple(i), Multiple(j - i), 0);
      AddLaws(Multiple(i), 0, 0);
      Cancel(Multiple(j - i), 0, Multiple(i));
    }
  }

  // Among the residues of p, every m < p is small enough.
  lemma {:induction false} MultipleOfResidues(p: int, n: nat)
    requires IsPrime(p) && K == Residues(p) && n < p
    ensures Multiple(n) == n
  {
    if n > 0 {
      MultipleOfResidues(p, n - 1);
    }
  }

  lemma ResiduesHaveNonzeroPoints(p: int, m: nat)
    requires IsPrime(p) && K == Residues(p) && m < p
    ensures PointsNonzero(m)
  {
    forall i: nat | 0 < i <= m ensures Multiple(i) != 0 {
      MultipleOfResidues(p, i);
    }
  }

  ghost function ZeroPlaces(word: Vector): set<nat> {
    set i: nat | i < |word| && word[i] == 0
  }

  lemma {:induction false} ImageSize<T(!new)>(s: set<T>, f: T -> Elem, image: set<Elem>)
    requires forall x :: x in s ==> f(x) in image
    requires forall y :: y in image ==> exists x :: x in s && f(x) == y
    requires forall x, x' :: x in s && x' in s && f(x) == f(x') ==> x == x'
    ensures |image| == |s|
    decreases s
  {
    if s == {} {
      assert image == {};
    } else {
      var x :| x in s;
      ImageSize(s - {x}, f, image - {f(x)});
    }
  }

  // The points where a word is zero are as many as the places.
  lemma PointsOf(places: set<nat>, m: nat) returns (points: set<Elem>)
    requires PointsNonzero(m) && forall i :: i in places ==> i < m
    ensures |points| == |places|
    ensures forall p :: p in points ==> exists i :: i in places && Multiple(i + 1) == p
  {
    var f := (i: nat) => Multiple(i + 1);
    points := set i | i in places :: f(i);
    forall i, j | i in places && j in places && f(i) == f(j) ensures i == j {
      if i < j {
        PointsDiffer(i + 1, j + 1, m);
      } else if j < i {
        PointsDiffer(j + 1, i + 1, m);
      }
    }
    ImageSize(places, f, points);
  }

  // The word of a message of length l that is not all zero has at most l - 1 zeros.
  lemma NonzeroWordHasFewZeros(message: Vector, m: nat)
    requires !AllZero(message) && PointsNonzero(m)
    ensures |ZeroPlaces(RsWord(message, m))| < |message|
  {
    var places := ZeroPlaces(RsWord(message, m));
    var points := PointsOf(places, m);
    FewRoots(message, points);
  }

  // Two messages of length l give words that share at most l - 1 places.
  lemma RsDistance(a: Vector, b: Vector, m: nat)
    requires |a| == |b| && a != b && PointsNonzero(m)
    ensures |Agreements(RsWord(a, m), RsWord(b, m))| < |a|
  {
    var minusOne := Neg(1);
    var d := VAdd(a, Scale(minusOne, b));
    RsLinear(a, minusOne, b, m);
    forall x: Elem, y: Elem ensures Add(x, Mul(minusOne, y)) == Sub(x, y) {
      NegIsMinusOne(y);
    }
    var i :| 0 <= i < |a| && a[i] != b[i];
    SubAdd(a[i], b[i]);
    assert d[i] != 0;
    NonzeroWordHasFewZeros(d, m);
    var u, v := RsWord(a, m), RsWord(b, m);
    forall j: nat | j < m ensures RsWord(d, m)[j] == 0 <==> u[j] == v[j] {
      SubAdd(u[j], v[j]);
    }
    assert Agreements(u, v) == ZeroPlaces(RsWord(d, m));
  }

  lemma NegIsMinusOne(y: Elem)
    ensures Mul(Neg(1), y) == Neg(y)
  {
    Distributes(y, Neg(1), 1);
    AddLaws(1, Neg(1), 0);
    AddLaws(Neg(1), 1, 0);
    MulZero(y);
    MulLaws(y, 0, 0);
    AddLaws(y, Neg(y), 0);
    AddLaws(Neg(y), y, 0);
    Cancel(Mul(Neg(1), y), Neg(y), y);
  }
}
