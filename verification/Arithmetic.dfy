/** Facts about products of integers that the solver does not find by itself. */
module Arithmetic {

  lemma MulLe(a: int, b: int, w: int)
    requires a <= b && 0 <= w
    ensures a * w <= b * w
  {
    var d := b - a;
    assert b * w == a * w + d * w;
  }

  lemma MulRotate(a: int, b: int, c: int)
    ensures a * b * c == b * c * a
  {
  }

  lemma MulCommutes(a: int, b: int)
    ensures a * b == b * a
  {
  }

  lemma MulDistributes(a: int, b: int, c: int)
    ensures (a + b) * c == a * c + b * c
    ensures (a - b) * c == a * c - b * c
    ensures (a + b) * c == c * a + c * b
  {
  }

  // Cell (r, c) of an n by w table stored row after row.
  lemma CellInRange(n: int, w: int, r: int, c: int)
    requires 0 <= r < n && 0 <= c < w
    ensures 0 <= r * w && r * w + c < n * w
    ensures (r + 1) * w == r * w + w <= n * w
  {
    MulLe(r + 1, n, w);
    MulLe(0, r, w);
  }

  // Two cells at the same position are the same cell.
  lemma CellUnique(w: int, r: int, c: int, r': int, c': int)
    requires 0 <= c < w && 0 <= c' < w && r * w + c == r' * w + c'
    ensures r == r' && c == c'
  {
    if r < r' {
      MulLe(r + 1, r', w);
    } else if r' < r {
      MulLe(r' + 1, r, w);
    }
  }

  function CeilDiv(a: nat, b: nat): nat
    requires 0 < b
  {
    (a + b - 1) / b
  }

  lemma CeilDivBounds(a: nat, b: nat)
    requires 0 < b
    ensures CeilDiv(a, b) * b >= a
    ensures 0 < a ==> 0 < CeilDiv(a, b) && (CeilDiv(a, b) - 1) * b < a
    ensures a == 0 ==> CeilDiv(a, b) == 0
  {
  }

  lemma QuotientUnique(x: int, b: int, q: int, r: int)
    requires 0 < b && 0 <= r < b && x == q * b + r
    ensures x / b == q && x % b == r
  {
    assert x == (x / b) * b + x % b;
    CellUnique(b, q, r, x / b, x % b);
  }

  lemma CeilDivUnique(a: nat, b: nat, q: nat)
    requires 0 < b && 0 < q && (q - 1) * b < a <= q * b
    ensures CeilDiv(a, b) == q
  {
    MulDistributes(q, 1, b);
    QuotientUnique(a + b - 1, b, q, a + b - 1 - q * b);
  }

  lemma CeilDivPlus(a: nat, b: nat)
    requires 0 < b
    ensures CeilDiv(a + b, b) == CeilDiv(a, b) + 1
  {
    var s := a + b - 1;
    assert s == (s / b) * b + s % b;
    MulDistributes(s / b, 1, b);
    QuotientUnique(s + b, b, s / b + 1, s % b);
  }

  lemma {:induction false} CeilDivShift(a: nat, b: nat, k: nat)
    requires 0 < b
    ensures 0 <= k * b && CeilDiv(k * b + a, b) == k + CeilDiv(a, b)
  {
    if k > 0 {
      MulDistributes(k, 1, b);
      CeilDivShift(a, b, k - 1);
      CeilDivPlus((k - 1) * b + a, b);
    }
  }

  // Dividing twice is dividing by the product.
  lemma NestedDiv(x: nat, a: nat, b: nat)
    requires 0 < a && 0 < b
    ensures 0 < b * a && (x / a) / b == x / (b * a)
  {
    var q := (x / a) / b;
    var r, s := x % a, (x / a) % b;
    assert x == (x / a) * a + r;
    assert x / a == q * b + s;
    CellInRange(b, a, s, r);
    MulDistributes(q * b, s, a);
    MulRotate(q, b, a);
    MulRotate(b, a, q);
    MulCommutes(q, b * a);
    MulLe(1, b, a);
    QuotientUnique(x, b * a, q, s * a + r);
  }

  // The largest multiple of a*b up to x, counted in units of b.
  lemma AlignedDown(x: nat, a: nat, b: nat, w: nat) returns (k: nat)
    requires 0 < a && 0 < b && 0 < w == b * a
    ensures k == x / w * a && k * b == x - x % w
  {
    var q := x / w;
    assert x == q * w + x % w;
    MulLe(0, q, a);
    k := q * a;
    MulRotate(q, a, b);
    MulRotate(a, b, q);
    MulCommutes(a, b);
    MulCommutes(q, w);
  }

  lemma NestedCeilDiv(x: nat, a: nat, b: nat)
    requires 0 < a && 0 < b
    ensures 0 < b * a && CeilDiv(CeilDiv(x, a), b) == CeilDiv(x, b * a)
  {
    MulLe(1, b, a);
    var m := CeilDiv(x, a);
    CeilDivBounds(x, a);
    CeilDivBounds(m, b);
    CeilDivBounds(x, b * a);
    if x > 0 {
      var q := CeilDiv(m, b);
      // (q - 1)*b < m <= q*b, so (q - 1)*b*a < x <= q*b*a
      MulLe(m, q * b, a);
      MulLe((q - 1) * b, m - 1, a);
      MulRotate(q, b, a);
      MulRotate(b, a, q);
      MulRotate(q - 1, b, a);
      MulRotate(b, a, q - 1);
      MulCommutes(q, b * a);
      MulCommutes(q - 1, b * a);
      CeilDivUnique(x, b * a, q);
    }
  }
}
