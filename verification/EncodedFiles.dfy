/** What a store must hold: each row of the raw file, converted, padded and encoded. */
module EncodedFiles {
  import opened Arithmetic
  import opened Fields
  import opened Vectors
  import opened Options
  import opened Bytes
  import opened Slices
  import opened DataFields
  import opened Hashing
  import opened LinearCode

  // Changing the capacity of a store is refused when rows would be lost, and panics over buffer
  // lengths for any other smaller capacity.
  datatype Resizing = Resized | Destructive | BuffersMisfit

  // An encoding together with the decoder that undoes it on whole buffers.
  datatype CodecRecord = CodecRecord(enc: Encoding, decode: Vector -> Vector)

  ghost predicate DecodesAt(c: CodecRecord, x: Vector) {
    |x| == c.enc.nCols ==> c.enc.encode(x).Some? && c.decode(c.enc.encode(x).value) == x
  }

  ghost predicate IsCodec(c: CodecRecord) {
    && 0 < c.enc.nPerRow && c.enc.powerOfTwo && c.enc.DimsOk(c.enc.nPerRow, c.enc.nCols)
    && (forall x {:trigger DecodesAt(c, x)} :: DecodesAt(c, x))
    && (forall y {:trigger c.decode(y)} :: |c.decode(y)| == |y|)
  }

  type Codec = c: CodecRecord | IsCodec(c)
    witness CodecRecord(EncodingRecord(1, 2, true, x => Some(x), 1, 0), y => y)

  // A message padded with zeros to a codeword's length and encoded.
  function EncodeRow(c: Codec, message: Vector): (word: Vector)
    requires |message| <= c.enc.nCols
    ensures |word| == c.enc.nCols
    ensures c.enc.encode(Resize(message, c.enc.nCols)) == Some(word)
  {
    assert DecodesAt(c, Resize(message, c.enc.nCols));
    c.enc.encode(Resize(message, c.enc.nCols)).value
  }

  function DecodeRow(c: Codec, word: Vector): (message: Vector)
    requires |word| == c.enc.nCols
    ensures |message| == c.enc.nPerRow
  {
    c.decode(word)[..c.enc.nPerRow]
  }

  lemma RowRoundTrip(c: Codec, message: Vector)
    requires |message| <= c.enc.nPerRow
    ensures DecodeRow(c, EncodeRow(c, message)) == Resize(message, c.enc.nPerRow)
  {
    assert DecodesAt(c, Resize(message, c.enc.nCols));
  }

  // Messages that pad to the same row have the same encoding.
  lemma EncodePadded(c: Codec, message: Vector)
    requires |message| <= c.enc.nPerRow
    ensures EncodeRow(c, Resize(message, c.enc.nPerRow)) == EncodeRow(c, message)
  {
    assert Resize(Resize(message, c.enc.nPerRow), c.enc.nCols) == Resize(message, c.enc.nCols);
  }

  // Bytes in a full row.
  function RowBytes(c: Codec): (n: nat)
    ensures 0 < n
  {
    MulLe(1, c.enc.nPerRow, CAPACITY);
    c.enc.nPerRow * CAPACITY
  }

  // The row that holds the byte at a position.
  function RowOf(c: Codec, position: nat): (r: nat)
    ensures r * RowBytes(c) <= position < r * RowBytes(c) + RowBytes(c)
  {
    var n := RowBytes(c);
    assert position == (position / n) * n + position % n;
    position / n
  }

  function RowsNeeded(c: Codec, len: nat): nat {
    CeilDiv(len, RowBytes(c))
  }

  // Rows counted by elements are rows counted by bytes.
  lemma RowsOfElements(c: Codec, len: nat)
    ensures CeilDiv(CeilDiv(len, CAPACITY), c.enc.nPerRow) == RowsNeeded(c, len)
  {
    NestedCeilDiv(len, CAPACITY, c.enc.nPerRow);
  }

  lemma NoRows(c: Codec)
    ensures FileRows(c, []) == [] && RowsNeeded(c, 0) == 0
  {
    CeilDivBounds(0, RowBytes(c));
  }

  // The bytes of row r; the last row may be short.
  function RawRow(raw: Bytes, width: nat, r: nat): (v: Bytes)
    requires 0 < width && r < CeilDiv(|raw|, width)
    ensures 0 < |v| <= width
  {
    RowSpan(|raw|, width, r);
    raw[r * width..if (r + 1) * width <= |raw| then (r + 1) * width else |raw|]
  }

  // Row r starts inside the file, and every row but the last is full.
  lemma RowSpan(len: nat, width: nat, r: nat)
    requires 0 < width && r < CeilDiv(len, width)
    ensures 0 <= r * width < len && (r + 1) * width == r * width + width
    ensures r + 1 < CeilDiv(len, width) ==> (r + 1) * width < len
    ensures r + 1 == CeilDiv(len, width) ==> len <= (r + 1) * width
  {
    var n := CeilDiv(len, width);
    CeilDivBounds(len, width);
    MulLe(r, n - 1, width);
    MulLe(0, r, width);
    MulDistributes(r, 1, width);
    if r + 1 < n {
      MulLe(r + 1, n - 1, width);
    }
  }

  lemma ShortMessage(c: Codec, v: Bytes)
    requires |v| <= RowBytes(c)
    ensures |FromBytes(v)| <= c.enc.nPerRow
  {
    FromPaddedBytes(v, c.enc.nPerRow, RowBytes(c));
  }

  function EncodeBytes(c: Codec, v: Bytes): (word: Vector)
    requires |v| <= RowBytes(c)
    ensures |word| == c.enc.nCols
  {
    ShortMessage(c, v);
    EncodeRow(c, FromBytes(v))
  }

  lemma EncodedMessage(c: Codec, v: Bytes)
    requires |v| <= RowBytes(c)
    ensures |FromBytes(v)| <= c.enc.nCols && EncodeRow(c, FromBytes(v)) == EncodeBytes(c, v)
  {
    ShortMessage(c, v);
  }

  // A short row encodes like the row padded with zero bytes.
  lemma EncodePaddedBytes(c: Codec, v: Bytes)
    requires |v| <= RowBytes(c)
    ensures EncodeBytes(c, PadBytes(v, RowBytes(c))) == EncodeBytes(c, v)
  {
    FromPaddedBytes(v, c.enc.nPerRow, RowBytes(c));
    EncodePadded(c, FromBytes(v));
  }

  // The rows of the encoded file, from scratch.
  function FileRows(c: Codec, raw: Bytes): (rows: seq<Vector>)
    ensures |rows| == RowsNeeded(c, |raw|) && Rectangular(rows, c.enc.nCols)
  {
    seq(RowsNeeded(c, |raw|), r requires 0 <= r < RowsNeeded(c, |raw|) => EncodeBytes(c, RawRow(raw, RowBytes(c), r)))
  }

  lemma RawRowsOfConcat(a: Bytes, b: Bytes, width: nat, k: nat, r: nat)
    requires 0 < width && |a| == k * width && CeilDiv(|a|, width) == k
    requires CeilDiv(|a + b|, width) == k + CeilDiv(|b|, width) && r < k + CeilDiv(|b|, width)
    ensures RawRow(a + b, width, r) == if r < k then RawRow(a, width, r) else RawRow(b, width, r - k)
  {
    RowSpan(|a + b|, width, r);
    if r < k {
      RowSpan(|a|, width, r);
      MulLe(r + 1, k, width);
    } else {
      RowSpan(|b|, width, r - k);
      MulDistributes(r, k, width);
      MulDistributes(r + 1, k, width);
      var from, to := (r - k) * width, if (r - k + 1) * width <= |b| then (r - k + 1) * width else |b|;
      assert (a + b)[|a| + from..|a| + to] == b[from..to];
    }
  }

  // A file that starts with whole rows can be encoded in two parts.
  lemma FileRowsConcat(c: Codec, a: Bytes, b: Bytes, k: nat)
    requires |a| == k * RowBytes(c)
    ensures |FileRows(c, a)| == k
    ensures FileRows(c, a + b) == FileRows(c, a) + FileRows(c, b)
  {
    hide RowBytes;
    var w := RowBytes(c);
    CeilDivShift(|b|, w, k);
    CeilDivShift(0, w, k);
    CeilDivBounds(0, w);
    forall r | 0 <= r < k + CeilDiv(|b|, w)
      ensures FileRows(c, a + b)[r] == (FileRows(c, a) + FileRows(c, b))[r]
    {
      RawRowsOfConcat(a, b, w, k, r);
    }
  }

  lemma SingleRow(c: Codec, v: Bytes)
    requires 0 < |v| <= RowBytes(c)
    ensures FileRows(c, v) == [EncodeBytes(c, v)]
  {
    hide RowBytes;
    CeilDivUnique(|v|, RowBytes(c), 1);
    RowSpan(|v|, RowBytes(c), 0);
    assert RawRow(v, RowBytes(c), 0) == v;
  }

  // The first row of a file, whole or short, and the rest.
  lemma FileRowsHead(c: Codec, v: Bytes, rest: Bytes)
    requires 0 < |v| <= RowBytes(c) && (|v| == RowBytes(c) || rest == [])
    ensures FileRows(c, v + rest) == [EncodeBytes(c, v)] + FileRows(c, rest)
  {
    hide RowBytes;
    SingleRow(c, v);
    if rest == [] {
      CeilDivBounds(0, RowBytes(c));
      assert v + rest == v && FileRows(c, []) == [];
    } else {
      FileRowsConcat(c, v, rest, 1);
    }
  }

  // ---------- hashing rows ----------

  function RowLeaves(rows: seq<Vector>, width: nat): (leaves: seq<Digest>)
    requires Rectangular(rows, width)
    ensures |leaves| == width
  {
    seq<Digest>(width, c requires 0 <= c < width => LeafHash(ColumnOf(rows, width, c)))
  }

  // ---------- the column-major file ----------

  // Cell (r, c) of a file of `width` columns with room for `capacity` rows in each.
  function Cell(file: Vector, capacity: nat, width: nat, r: nat, c: nat): Elem
    requires |file| == width * capacity && r < capacity && c < width
  {
    CellInRange(width, capacity, c, r);
    file[c * capacity + r]
  }

  function StoreRow(file: Vector, capacity: nat, width: nat, r: nat): (row: Vector)
    requires |file| == width * capacity && r < capacity
    ensures |row| == width
  {
    seq<Elem>(width, c requires 0 <= c < width => Cell(file, capacity, width, r, c))
  }

  function StoreRows(file: Vector, capacity: nat, width: nat, n: nat): (rows: seq<Vector>)
    requires |file| == width * capacity && n <= capacity
    ensures |rows| == n && Rectangular(rows, width)
  {
    seq(n, r requires 0 <= r < n => StoreRow(file, capacity, width, r))
  }

  // A column is contiguous in the file.
  lemma StoreColumn(file: Vector, capacity: nat, width: nat, n: nat, c: nat)
    requires |file| == width * capacity && n <= capacity && c < width
    ensures 0 <= c * capacity && c * capacity + n <= |file|
    ensures file[c * capacity..c * capacity + n] == ColumnOf(StoreRows(file, capacity, width, n), width, c)
  {
    MulLe(c + 1, width, capacity);
    MulLe(0, c, capacity);
    MulDistributes(c, 1, capacity);
    var rows := StoreRows(file, capacity, width, n);
    forall r | 0 <= r < n ensures file[c * capacity..c * capacity + n][r] == ColumnOf(rows, width, c)[r] {
      assert rows[r][c] == Cell(file, capacity, width, r, c);
    }
  }

  // Overwriting one cell leaves every other cell alone.
  lemma WriteCell(file: Vector, capacity: nat, width: nat, r: nat, c: nat, v: Elem)
    requires |file| == width * capacity && r < capacity && c < width
    ensures 0 <= c * capacity + r < |file|
    ensures forall r', c' :: 0 <= r' < capacity && 0 <= c' < width ==>
      Cell(file[c * capacity + r := v], capacity, width, r', c')
      == if r' == r && c' == c then v else Cell(file, capacity, width, r', c')
  {
    CellInRange(width, capacity, c, r);
    var file' := file[c * capacity + r := v];
    forall r', c' | 0 <= r' < capacity && 0 <= c' < width
      ensures Cell(file', capacity, width, r', c')
           == if r' == r && c' == c then v else Cell(file, capacity, width, r', c')
    {
      CellInRange(width, capacity, c', r');
      if c' * capacity + r' == c * capacity + r {
        CellUnique(capacity, c, r, c', r');
      }
    }
  }

  // ---------- the bytes a list of rows decodes to ----------

  function DecodedRow(c: Codec, word: Vector): (v: Bytes)
    requires |word| == c.enc.nCols
    ensures |v| == RowBytes(c)
  {
    ToBytes(DecodeRow(c, word))
  }

  function DecodedBytes(c: Codec, rows: seq<Vector>): (v: Bytes)
    requires Rectangular(rows, c.enc.nCols)
    ensures |v| == |rows| * RowBytes(c)
  {
    if |rows| == 0 then [] else
      var n := |rows| - 1;
      MulDistributes(n, 1, RowBytes(c));
      DecodedBytes(c, rows[..n]) + DecodedRow(c, rows[n])
  }

  // A row encoded from a full row of bytes decodes to those bytes.
  lemma EncodedBytesDecode(c: Codec, v: Bytes)
    requires |v| == RowBytes(c)
    ensures DecodedRow(c, EncodeBytes(c, v)) == v
  {
    WholeBytesRoundTrip(v, c.enc.nPerRow);
    RowRoundTrip(c, FromBytes(v));
    assert Resize(FromBytes(v), c.enc.nPerRow) == FromBytes(v);
  }

  // Row r of the store is bytes r*RowBytes .. (r+1)*RowBytes of the decoded file.
  lemma {:induction false} DecodedBytesAt(c: Codec, rows: seq<Vector>, r: nat)
    requires Rectangular(rows, c.enc.nCols) && r < |rows|
    ensures 0 <= r * RowBytes(c) && r * RowBytes(c) + RowBytes(c) <= |rows| * RowBytes(c)
    ensures DecodedBytes(c, rows)[r * RowBytes(c)..r * RowBytes(c) + RowBytes(c)] == DecodedRow(c, rows[r])
    decreases |rows|
  {
    hide RowBytes;
    var n, b := |rows| - 1, RowBytes(c);
    CellInRange(|rows|, b, r, 0);
    CellInRange(|rows|, b, n, 0);
    var head := DecodedBytes(c, rows[..n]);
    if r < n {
      DecodedBytesAt(c, rows[..n], r);
      assert (head + DecodedRow(c, rows[n]))[r * b..r * b + b] == head[r * b..r * b + b];
    } else {
      assert (head + DecodedRow(c, rows[n]))[n * b..n * b + b] == DecodedRow(c, rows[n]);
    }
  }

  // Replacing a row replaces its bytes.
  lemma {:induction false} DecodedBytesUpdate(c: Codec, rows: seq<Vector>, r: nat, word: Vector)
    requires Rectangular(rows, c.enc.nCols) && r < |rows| && |word| == c.enc.nCols
    ensures 0 <= r * RowBytes(c) && r * RowBytes(c) + RowBytes(c) <= |rows| * RowBytes(c)
    ensures DecodedBytes(c, rows[r := word]) == Splice(DecodedBytes(c, rows), r * RowBytes(c), DecodedRow(c, word))
    decreases |rows|
  {
    hide RowBytes;
    var n, b := |rows| - 1, RowBytes(c);
    CellInRange(|rows|, b, r, 0);
    CellInRange(|rows|, b, n, 0);
    var head, last, v := DecodedBytes(c, rows[..n]), DecodedRow(c, rows[n]), DecodedRow(c, word);
    if r < n {
      DecodedBytesUpdate(c, rows[..n], r, word);
      assert rows[r := word][..n] == rows[..n][r := word];
      SpliceInHead(head, last, r * b, v);
    } else {
      assert rows[r := word][..n] == rows[..n];
      SpliceLast(head, last, v);
    }
  }
}
