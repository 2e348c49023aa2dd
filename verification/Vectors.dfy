/** Vectors and matrices over the field, and the linear algebra the proofs need. */
module Vectors {
  import opened Arithmetic
  import opened Fields

  type Vector = seq<Elem>

  function Zeros(n: nat): (v: Vector)
    ensures |v| == n
  {
    seq(n, _ => 0)
  }

  function VAdd(a: Vector, b: Vector): (v: Vector)
    requires |a| == |b|
    ensures |v| == |a|
  {
    seq(|a|, i requires 0 <= i < |a| => Add(a[i], b[i]))
  }

  function Scale(k: Elem, a: Vector): (v: Vector)
    ensures |v| == |a|
  {
    seq(|a|, i requires 0 <= i < |a| => Mul(k, a[i]))
  }

  // Vec::resize with zeros: truncates a longer vector, pads a shorter one.
  function Resize(a: Vector, n: nat): (v: Vector)
    ensures |v| == n
  {
    if n <= |a| then a[..n] else a + Zeros(n - |a|)
  }

  // The fold over zip in the source: the longer vector is cut to the shorter one.
  function Dot(a: Vector, b: Vector): Elem {
    DotFirst(a, b, if |a| <= |b| then |a| else |b|)
  }

  function DotFirst(a: Vector, b: Vector, n: nat): Elem
    requires n <= |a| && n <= |b|
  {
    if n == 0 then 0 else Add(DotFirst(a, b, n - 1), Mul(a[n - 1], b[n - 1]))
  }

  // The message that is one at one place.
  function Unit(n: nat, i: nat): (v: Vector)
    ensures |v| == n
  {
    seq(n, k => if k == i then 1 else 0)
  }

  // Such a message picks one entry out of a product.
  lemma {:induction false} DotUnit(v: Vector, i: nat, n: nat)
    requires n <= |v|
    ensures DotFirst(Unit(|v|, i), v, n) == if i < n then v[i] else 0
  {
    if n > 0 {
      DotUnit(v, i, n - 1);
      MulLaws(v[n - 1], 1, 0);
      MulZero(v[n - 1]);
      AddLaws(v[n - 1], 0, 0);
      AddLaws(if i < n - 1 then v[i] else 0, 0, 0);
    }
  }

  // The places where two words hold the same entry.
  ghost function Agreements(u: Vector, v: Vector): set<nat>
    requires |u| == |v|
  {
    set j: nat | j < |u| && u[j] == v[j]
  }

  // ---------- dot products ----------

  lemma {:induction false} DotFirstPrefix(a: Vector, b: Vector, a': Vector, b': Vector, n: nat)
    requires n <= |a| && n <= |b| && n <= |a'| && n <= |b'|
    requires a[..n] == a'[..n] && b[..n] == b'[..n]
    ensures DotFirst(a, b, n) == DotFirst(a', b', n)
  {
    if n > 0 {
      assert a[n - 1] == a[..n][n - 1] == a'[n - 1];
      assert b[n - 1] == b[..n][n - 1] == b'[n - 1];
      assert a[..n - 1] == a[..n][..n - 1] == a'[..n - 1];
      assert b[..n - 1] == b[..n][..n - 1] == b'[..n - 1];
      DotFirstPrefix(a, b, a', b', n - 1);
    }
  }

  lemma {:induction false} DotFirstSymmetric(a: Vector, b: Vector, n: nat)
    requires n <= |a| && n <= |b|
    ensures DotFirst(a, b, n) == DotFirst(b, a, n)
  {
    if n > 0 {
      DotFirstSymmetric(a, b, n - 1);
      MulLaws(a[n - 1], b[n - 1], 0);
    }
  }

  lemma {:induction false} DotFirstZeros(a: Vector, b: Vector, n: nat)
    requires n <= |a| && n <= |b|
    requires forall i :: 0 <= i < n ==> b[i] == 0
    ensures DotFirst(a, b, n) == 0
  {
    if n > 0 {
      DotFirstZeros(a, b, n - 1);
      MulZero(a[n - 1]);
      AddLaws(0, 0, 0);
    }
  }

  lemma {:induction false} DotFirstAdd(t: Vector, a: Vector, b: Vector, n: nat)
    requires n <= |t| && n <= |a| == |b|
    ensures DotFirst(t, VAdd(a, b), n) == Add(DotFirst(t, a, n), DotFirst(t, b, n))
  {
    if n == 0 {
      AddLaws(0, 0, 0);
    } else {
      DotFirstAdd(t, a, b, n - 1);
      Distributes(t[n - 1], a[n - 1], b[n - 1]);
      Interchange(DotFirst(t, a, n - 1), DotFirst(t, b, n - 1), Mul(t[n - 1], a[n - 1]), Mul(t[n - 1], b[n - 1]));
    }
  }

  lemma {:induction false} DotFirstScale(t: Vector, k: Elem, a: Vector, n: nat)
    requires n <= |t| && n <= |a|
    ensures DotFirst(t, Scale(k, a), n) == Mul(k, DotFirst(t, a, n))
  {
    if n == 0 {
      MulZero(k);
    } else {
      DotFirstScale(t, k, a, n - 1);
      MulLaws(t[n - 1], k, a[n - 1]);
      MulLaws(k, t[n - 1], a[n - 1]);
      Distributes(k, DotFirst(t, a, n - 1), Mul(t[n - 1], a[n - 1]));
    }
  }

  lemma DotAdd(t: Vector, a: Vector, b: Vector)
    requires |t| == |a| == |b|
    ensures Dot(t, VAdd(a, b)) == Add(Dot(t, a), Dot(t, b))
  {
    DotFirstAdd(t, a, b, |t|);
  }

  lemma DotScale(t: Vector, k: Elem, a: Vector)
    requires |t| == |a|
    ensures Dot(t, Scale(k, a)) == Mul(k, Dot(t, a))
  {
    DotFirstScale(t, k, a, |t|);
  }

  lemma DotSymmetric(a: Vector, b: Vector)
    ensures Dot(a, b) == Dot(b, a)
  {
    DotFirstSymmetric(a, b, if |a| <= |b| then |a| else |b|);
  }

  // ---------- combinations of rows ----------

  ghost predicate Rectangular(rows: seq<Vector>, w: nat) {
    forall r :: 0 <= r < |rows| ==> |rows[r]| == w
  }

  // t[0]*rows[0] + t[1]*rows[1] + ...
  function Combine(t: Vector, rows: seq<Vector>, w: nat): (v: Vector)
    requires |t| == |rows| && Rectangular(rows, w)
    ensures |v| == w
  {
    if |t| == 0 then Zeros(w)
    else
      var n := |t| - 1;
      VAdd(Combine(t[..n], rows[..n], w), Scale(t[n], rows[n]))
  }

  function ColumnOf(rows: seq<Vector>, w: nat, c: nat): (v: Vector)
    requires Rectangular(rows, w) && c < w
    ensures |v| == |rows|
  {
    seq(|rows|, r requires 0 <= r < |rows| => rows[r][c])
  }

  function Columns(rows: seq<Vector>, w: nat): (columns: seq<Vector>)
    requires Rectangular(rows, w)
    ensures |columns| == w
  {
    seq(w, c requires 0 <= c < w => ColumnOf(rows, w, c))
  }

  // Entry c of a combination of rows is the dot product of the weights with column c.
  lemma {:induction false} CombineEntry(t: Vector, rows: seq<Vector>, w: nat, c: nat)
    requires |t| == |rows| && Rectangular(rows, w) && c < w
    ensures Combine(t, rows, w)[c] == Dot(t, ColumnOf(rows, w, c))
  {
    if |t| > 0 {
      var n := |t| - 1;
      CombineEntry(t[..n], rows[..n], w, c);
      DotFirstPrefix(t[..n], ColumnOf(rows[..n], w, c), t, ColumnOf(rows, w, c), n);
    }
  }

  // left^T * rows * right
  function Bilinear(left: Vector, rows: seq<Vector>, right: Vector): Elem {
    Dot(left, RowDots(rows, right))
  }

  function RowDots(rows: seq<Vector>, right: Vector): (v: Vector)
    ensures |v| == |rows|
  {
    seq<Elem>(|rows|, r requires 0 <= r < |rows| => Dot(rows[r], right))
  }

  // Summing over rows first or over columns first gives the same value.
  lemma {:induction false} CombineThenDot(left: Vector, rows: seq<Vector>, w: nat, right: Vector)
    requires |left| == |rows| && Rectangular(rows, w) && |right| == w
    ensures Dot(right, Combine(left, rows, w)) == Bilinear(left, rows, right)
  {
    if |left| == 0 {
      DotFirstZeros(right, Zeros(w), w);
    } else {
      var n := |left| - 1;
      CombineThenDot(left[..n], rows[..n], w, right);
      DotFirstPrefix(left[..n], RowDots(rows[..n], right), left, RowDots(rows, right), n);
      DotAdd(right, Combine(left[..n], rows[..n], w), Scale(left[n], rows[n]));
      DotScale(right, left[n], rows[n]);
      DotSymmetric(right, rows[n]);
    }
  }

  // Reading a matrix of width w off a flat buffer, row after row.
  function RowAt(m: Vector, w: nat, r: nat): (v: Vector)
    requires (r + 1) * w <= |m|
    ensures |v| == w
  {
    MulDistributes(r, 1, w);
    MulLe(0, r, w);
    m[r * w..(r + 1) * w]
  }

  function RowsOf(m: Vector, w: nat, n: nat): (rows: seq<Vector>)
    requires n * w <= |m|
    ensures |rows| == n && Rectangular(rows, w)
  {
    seq(n, r requires 0 <= r < n => MulLe(r + 1, n, w); RowAt(m, w, r))
  }

  function Column(m: Vector, w: nat, n: nat, c: nat): (v: Vector)
    requires n * w <= |m| && c < w
    ensures |v| == n
  {
    seq(n, r requires 0 <= r < n => CellInRange(n, w, r, c); m[r * w + c])
  }

  lemma ColumnOfRows(m: Vector, w: nat, n: nat, c: nat)
    requires n * w <= |m| && c < w
    ensures ColumnOf(RowsOf(m, w, n), w, c) == Column(m, w, n, c)
  {
  }
}
