/** What the commitment asks of an encoding: the LcEncoding interface, and linearity. */
module LinearCode {
  import opened Fields
  import opened Vectors
  import opened Options
  import opened Merkle

  // encode works in place, so a result is as long as its input; None is an encoding error.
  datatype EncodingRecord = EncodingRecord(
    nPerRow: nat,
    nCols: nat,
    powerOfTwo: bool,  // whether only powers of two are accepted for nCols (Ligero)
    encode: Vector -> Option<Vector>,
    nColOpens: nat,
    nDegreeTests: nat)
  {
    predicate DimsOk(rowLength: nat, codeLength: nat) {
      && rowLength < codeLength
      && (powerOfTwo ==> IsPowerOfTwo(codeLength))
      && rowLength == nPerRow
      && codeLength == nCols
    }
  }

  ghost predicate InPlace(enc: EncodingRecord) {
    forall x :: enc.encode(x).Some? ==> |enc.encode(x).value| == |x|
  }

  type Encoding = enc: EncodingRecord | InPlace(enc)
    witness EncodingRecord(1, 2, false, x => Some(x), 1, 0)

  ghost predicate LinearAt(enc: Encoding, k: Elem, x: Vector, y: Vector)
    requires |x| == |y|
  {
    && enc.encode(x).Some? && enc.encode(y).Some?
    && enc.encode(VAdd(x, Scale(k, y))) == Some(VAdd(enc.encode(x).value, Scale(k, enc.encode(y).value)))
  }

  // A linear map on vectors of nCols elements that fits its own dimensions.
  ghost predicate IsLinearCode(enc: Encoding) {
    && 0 < enc.nPerRow && enc.DimsOk(enc.nPerRow, enc.nCols)
    && forall k, x, y {:trigger LinearAt(enc, k, x, y)} ::
         |x| == enc.nCols && |y| == enc.nCols ==> LinearAt(enc, k, x, y)
  }

  // A message is padded with zeros to the length of a codeword before it is encoded.
  ghost function Codeword(enc: Encoding, message: Vector): (v: Vector)
    requires IsLinearCode(enc)
    ensures |v| == enc.nCols
    ensures enc.encode(Resize(message, enc.nCols)) == Some(v)
  {
    var padded := Resize(message, enc.nCols);
    assert LinearAt(enc, 0, padded, padded);
    enc.encode(padded).value
  }

  ghost predicate InjectiveOnMessages(enc: Encoding)
    requires IsLinearCode(enc)
  {
    forall x, y :: |x| == enc.nPerRow && |y| == enc.nPerRow && Codeword(enc, x) == Codeword(enc, y) ==> x == y
  }

  ghost function Codewords(enc: Encoding, rows: seq<Vector>): (words: seq<Vector>)
    requires IsLinearCode(enc)
    ensures |words| == |rows| && Rectangular(words, enc.nCols)
  {
    seq(|rows|, r requires 0 <= r < |rows| => Codeword(enc, rows[r]))
  }

  lemma VAddZero(v: Vector)
    ensures VAdd(v, Zeros(|v|)) == v && VAdd(Zeros(|v|), v) == v
  {
    forall i | 0 <= i < |v| ensures Add(v[i], 0) == v[i] == Add(0, v[i]) {
      AddLaws(v[i], 0, 0);
    }
  }

  lemma CodewordOfZeros(enc: Encoding)
    requires IsLinearCode(enc)
    ensures Codeword(enc, Zeros(enc.nPerRow)) == Zeros(enc.nCols)
  {
    var z := Zeros(enc.nCols);
    var w := enc.encode(z);
    assert Resize(Zeros(enc.nPerRow), enc.nCols) == z;
    assert LinearAt(enc, 1, z, z);
    assert VAdd(z, Scale(1, z)) == z by {
      MulZero(1);
      VAddZero(z);
      assert Scale(1, z) == z;
    }
    forall i | 0 <= i < enc.nCols ensures w.value[i] == 0 {
      MulLaws(w.value[i], 1, 1);
      AddLaws(w.value[i], 0, 0);
      assert VAdd(w.value, Scale(1, w.value))[i] == w.value[i];
      Cancel(w.value[i], 0, w.value[i]);
    }
  }

  // Padding commutes with linear combination.
  lemma ResizeLinear(x: Vector, k: Elem, y: Vector, n: nat)
    requires |x| == |y| <= n
    ensures Resize(VAdd(x, Scale(k, y)), n) == VAdd(Resize(x, n), Scale(k, Resize(y, n)))
  {
    MulZero(k);
    AddLaws(0, 0, 0);
  }

  lemma CodewordLinear(enc: Encoding, x: Vector, k: Elem, y: Vector)
    requires IsLinearCode(enc) && |x| == |y| == enc.nPerRow
    ensures Codeword(enc, VAdd(x, Scale(k, y))) == VAdd(Codeword(enc, x), Scale(k, Codeword(enc, y)))
  {
    ResizeLinear(x, k, y, enc.nCols);
    assert LinearAt(enc, k, Resize(x, enc.nCols), Resize(y, enc.nCols));
  }

  // Combining rows and then encoding gives what combining the encoded rows gives.
  lemma {:induction false} EncodingCommutesWithCombine(enc: Encoding, t: Vector, rows: seq<Vector>)
    requires IsLinearCode(enc) && |t| == |rows| && Rectangular(rows, enc.nPerRow)
    ensures Codeword(enc, Combine(t, rows, enc.nPerRow)) == Combine(t, Codewords(enc, rows), enc.nCols)
  {
    if |t| == 0 {
      CodewordOfZeros(enc);
    } else {
      var n := |t| - 1;
      EncodingCommutesWithCombine(enc, t[..n], rows[..n]);
      assert Codewords(enc, rows)[..n] == Codewords(enc, rows[..n]);
      CodewordLinear(enc, Combine(t[..n], rows[..n], enc.nPerRow), t[n], rows[n]);
    }
  }
}
