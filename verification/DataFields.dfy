/** Storing bytes in field elements, a fixed number of them in each. */
module DataFields {
  import opened Arithmetic
  import opened Fields
  import opened Vectors
  import opened Bytes

  datatype Packing = Packing(capacity: nat, pack: Bytes -> int, unpack: int -> Bytes)

  ghost predicate PacksAt(p: Packing, v: Bytes) {
    |v| == p.capacity ==> In(K, p.pack(v)) && p.unpack(p.pack(v)) == v
  }

  // Unpacking undoes packing, and a block of zero bytes is stored as zero.
  ghost predicate IsPacking(p: Packing) {
    && 0 < p.capacity
    && (forall v {:trigger PacksAt(p, v)} :: PacksAt(p, v))
    && (forall e {:trigger p.unpack(e)} :: |p.unpack(e)| == p.capacity)
    && p.pack(ZeroBytes(p.capacity)) == 0
  }

  // The packing of a field whose elements are kept as limbs in a scaled (Montgomery) form: the
  // bytes are the limbs of the scaled value, so the element is that value scaled back.
  function LimbPacking(capacity: nat, scale: Elem, unscale: Elem): Packing
    requires Power256(capacity) <= K.order
  {
    Packing(capacity,
            v => if |v| == capacity then Mul(FromLittleEndian(v), unscale) else 0,
            e => if 0 <= e < K.order then ToLittleEndian(Mul(e, scale), capacity) else ZeroBytes(capacity))
  }

  lemma LimbPackingWorks(capacity: nat, scale: Elem, unscale: Elem)
    requires 0 < capacity && Power256(capacity) <= K.order && Mul(unscale, scale) == 1
    ensures IsPacking(LimbPacking(capacity, scale, unscale))
  {
    var p := LimbPacking(capacity, scale, unscale);
    forall v: Bytes ensures PacksAt(p, v) {
      if |v| == capacity {
        var x := FromLittleEndian(v);
        MulLaws(x, unscale, scale);
        MulLaws(x, 1, 1);
        LittleEndianRoundTrip(v);
      }
    }
    LittleEndianZeros(capacity);
    MulZero(unscale);
  }

  // The modulus of the 63-bit field that files are stored in.
  const FT63_MODULUS: nat := 5102708120182849537

  // Seven bytes are always below it, eight are not.
  lemma SevenBytesFit(scale: Elem, unscale: Elem)
    requires K.order == FT63_MODULUS && Mul(unscale, scale) == 1
    ensures Power256(7) <= K.order < Power256(8)
    ensures IsPacking(LimbPacking(7, scale, unscale))
  {
    assert Power256(4) == 256 * (256 * (256 * 256)) by {
      assert Power256(2) == 256 * 256;
    }
    assert Power256(7) == 256 * (256 * (256 * Power256(4)));
    LimbPackingWorks(7, scale, unscale);
  }

  function OneBytePacking(): (p: Packing)
    ensures IsPacking(p)
  {
    MulLaws(1, 1, 1);
    assert Power256(1) == 256 by { assert Power256(0) == 1; }
    LimbPackingWorks(1, 1, 1);
    LimbPacking(1, 1, 1)
  }

  type DataPacking = p: Packing | IsPacking(p) witness OneBytePacking()

  // The packing of the model, arbitrary.
  const DATA: DataPacking

  // DATA_BYTE_CAPACITY
  const CAPACITY: Positive := DATA.capacity

  function FromDataBytes(v: Bytes): Elem
    requires |v| == CAPACITY
  {
    assert PacksAt(DATA, v);
    DATA.pack(v)
  }

  function ToDataBytes(e: Elem): (v: Bytes)
    ensures |v| == CAPACITY
  {
    DATA.unpack(e)
  }

  lemma DataRoundTrip(v: Bytes)
    requires |v| == CAPACITY
    ensures ToDataBytes(FromDataBytes(v)) == v
  {
    assert PacksAt(DATA, v);
  }

  lemma DataZero()
    ensures FromDataBytes(ZeroBytes(CAPACITY)) == 0
  {
  }

  // ---------- runs of bytes ----------

  // The last chunk is padded with zero bytes.
  function FromBytes(v: Bytes): (e: Vector)
    decreases |v|
  {
    if |v| == 0 then []
    else if |v| <= CAPACITY then [FromDataBytes(v + ZeroBytes(CAPACITY - |v|))]
    else [FromDataBytes(v[..CAPACITY])] + FromBytes(v[CAPACITY..])
  }

  function ToBytes(e: Vector): (v: Bytes)
    ensures |v| == |e| * CAPACITY
  {
    if |e| == 0 then [] else
      MulDistributes(1, |e| - 1, CAPACITY);
      ToDataBytes(e[0]) + ToBytes(e[1..])
  }

  // v with zero bytes appended to fill n bytes.
  function PadBytes(v: Bytes, n: nat): (r: Bytes)
    requires |v| <= n
    ensures |r| == n
  {
    v + ZeroBytes(n - |v|)
  }

  lemma {:induction false} FromBytesLength(v: Bytes)
    ensures |FromBytes(v)| == CeilDiv(|v|, CAPACITY)
    decreases |v|
  {
    if |v| == 0 {
      CeilDivBounds(0, CAPACITY);
    } else if |v| <= CAPACITY {
      CeilDivUnique(|v|, CAPACITY, 1);
    } else {
      FromBytesLength(v[CAPACITY..]);
      CeilDivPlus(|v| - CAPACITY, CAPACITY);
    }
  }

  // Whole chunks can be converted on their own.
  lemma {:induction false} FromBytesSplit(a: Bytes, b: Bytes, k: nat)
    requires |a| == k * CAPACITY
    ensures FromBytes(a + b) == FromBytes(a) + FromBytes(b) && |FromBytes(a)| == k
    decreases k
  {
    hide FromDataBytes;
    if k == 0 {
      assert a + b == b;
    } else {
      MulDistributes(k - 1, 1, CAPACITY);
      MulLe(0, k - 1, CAPACITY);
      var rest := a[CAPACITY..];
      FromBytesSplit(rest, b, k - 1);
      FirstChunk(a);
      if b == [] {
        assert a + b == a;
      } else {
        assert (a + b)[CAPACITY..] == rest + b;
        assert (a + b)[..CAPACITY] == a[..CAPACITY];
      }
    }
  }

  lemma FirstChunk(a: Bytes)
    requires CAPACITY <= |a|
    ensures FromBytes(a) == [FromDataBytes(a[..CAPACITY])] + FromBytes(a[CAPACITY..])
  {
    if |a| == CAPACITY {
      assert a + ZeroBytes(0) == a && a[..CAPACITY] == a;
    }
  }

  lemma {:induction false} FromZeroBytes(k: nat)
    requires 0 <= k * CAPACITY
    ensures FromBytes(ZeroBytes(k * CAPACITY)) == Zeros(k)
  {
    if k > 0 {
      MulDistributes(k - 1, 1, CAPACITY);
      MulLe(0, k - 1, CAPACITY);
      FromZeroBytes(k - 1);
      var z := ZeroBytes(k * CAPACITY);
      FirstChunk(z);
      assert z[CAPACITY..] == ZeroBytes((k - 1) * CAPACITY);
      assert z[..CAPACITY] == ZeroBytes(CAPACITY);
      DataZero();
    }
  }

  // Padding bytes with zeros pads the elements with zeros.
  lemma {:induction false} FromPaddedBytes(v: Bytes, k: nat, n: nat)
    requires |v| <= n == k * CAPACITY
    ensures |FromBytes(v)| <= k
    ensures FromBytes(PadBytes(v, n)) == Resize(FromBytes(v), k)
    decreases |v|
  {
    hide FromDataBytes;
    if |v| == 0 {
      FromZeroBytes(k);
      assert PadBytes(v, n) == ZeroBytes(n);
    } else {
      var padded, m := PadBytes(v, n), n - CAPACITY;
      MulDistributes(k - 1, 1, CAPACITY);
      if k > 0 {
        MulLe(0, k - 1, CAPACITY);
      }
      FirstChunk(padded);
      if |v| <= CAPACITY {
        assert padded[..CAPACITY] == v + ZeroBytes(CAPACITY - |v|);
        assert padded[CAPACITY..] == ZeroBytes(m);
        FromZeroBytes(k - 1);
      } else {
        assert padded[..CAPACITY] == v[..CAPACITY];
        assert padded[CAPACITY..] == PadBytes(v[CAPACITY..], m);
        FromPaddedBytes(v[CAPACITY..], k - 1, m);
      }
    }
  }

  // Bytes go into the field and back unchanged, up to the padding of the last element.
  lemma {:induction false} BytesRoundTrip(v: Bytes)
    ensures |v| <= |ToBytes(FromBytes(v))|
    ensures ToBytes(FromBytes(v)) == PadBytes(v, |ToBytes(FromBytes(v))|)
    ensures |ToBytes(FromBytes(v))| < |v| + CAPACITY
    decreases |v|
  {
    if |v| == 0 {
      assert ToBytes(FromBytes(v)) == PadBytes(v, 0);
    } else if |v| <= CAPACITY {
      var block := v + ZeroBytes(CAPACITY - |v|);
      DataRoundTrip(block);
      var e := FromBytes(v);
      assert e[1..] == [];
      assert ToBytes(e) == ToDataBytes(e[0]) + ToBytes(e[1..]) == block;
    } else {
      var e := FromBytes(v);
      BytesRoundTrip(v[CAPACITY..]);
      DataRoundTrip(v[..CAPACITY]);
      assert e[1..] == FromBytes(v[CAPACITY..]);
      assert v == v[..CAPACITY] + v[CAPACITY..];
      var tail := ToBytes(e[1..]);
      assert PadBytes(v, CAPACITY + |tail|) == v[..CAPACITY] + PadBytes(v[CAPACITY..], |tail|);
    }
  }

  lemma WholeBytesRoundTrip(v: Bytes, k: nat)
    requires |v| == k * CAPACITY
    ensures ToBytes(FromBytes(v)) == v && |FromBytes(v)| == k
  {
    assert v + [] == v;
    FromBytesSplit(v, [], k);
    BytesRoundTrip(v);
    assert PadBytes(v, |v|) == v;
  }
}
