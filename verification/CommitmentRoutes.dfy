/**
 The ways of committing to a file agree: committing to its field elements, and hashing its rows
 as they are encoded from the bytes.
 */
module CommitmentRoutes {
  import opened Arithmetic
  import opened Fields
  import opened Vectors
  import opened Bytes
  import opened Options
  import opened DataFields
  import opened Hashing
  import opened Merkle
  import opened MerkleTrees
  import opened LinearCode
  import opened Commitment
  import opened Protocol
  import opened EncodedFiles
  import opened RowStreams

  // ---------- rows of elements and rows of bytes ----------

  // Row r of the padded elements of a file holds the bytes of row r of the file.
  lemma RowOfElements(c: Codec, raw: Bytes, r: nat)
    requires r < RowsNeeded(c, |raw|)
    requires (r + 1) * c.enc.nPerRow <= |PaddedCoeffs(c.enc, FromBytes(raw))|
    ensures |FromBytes(RawRow(raw, RowBytes(c), r))| <= c.enc.nPerRow
    ensures RowAt(PaddedCoeffs(c.enc, FromBytes(raw)), c.enc.nPerRow, r)
         == Resize(FromBytes(RawRow(raw, RowBytes(c), r)), c.enc.nPerRow)
  {
    hide RowBytes;
    var w, k, n := RowBytes(c), c.enc.nPerRow, |PaddedCoeffs(c.enc, FromBytes(raw))|;
    var before, v, rest := SplitAtRow(raw, w, r);
    WholeRows(c, r);
    FromBytesSplit(before, v + rest, r * k);
    ShortMessage(c, v);
    RowIsWhole(c);
    CeilDivBounds(|FromBytes(raw)|, k);
    RowOfPadded(FromBytes(before), v, rest, k, w, FromBytes(raw), n, r);
  }

  lemma SplitAtRow(raw: Bytes, w: nat, r: nat) returns (before: Bytes, row: Bytes, rest: Bytes)
    requires 0 < w && r < CeilDiv(|raw|, w)
    ensures raw == before + (row + rest) && |before| == r * w && row == RawRow(raw, w, r)
    ensures |row| == w || rest == []
  {
    RowSpan(|raw|, w, r);
    row := RawRow(raw, w, r);
    before, rest := raw[..r * w], raw[r * w + |row|..];
  }

  lemma RowIsWhole(c: Codec)
    ensures RowBytes(c) == c.enc.nPerRow * CAPACITY
  {
  }

  lemma WholeRows(c: Codec, r: nat)
    ensures 0 <= r * c.enc.nPerRow && r * RowBytes(c) == r * c.enc.nPerRow * CAPACITY
  {
    MulLe(0, r, c.enc.nPerRow);
    MulRotate(r, c.enc.nPerRow, CAPACITY);
    MulCommutes(r, RowBytes(c));
  }

  lemma RowOfPadded(before: Vector, v: Bytes, rest: Bytes, k: nat, w: nat, elements: Vector, n: nat, r: nat)
    requires |v| <= w == k * CAPACITY && (rest != [] ==> |v| == w) && |before| == r * k
    requires elements == before + FromBytes(v + rest) && |FromBytes(v)| <= k
    requires |elements| <= n && (r + 1) * k <= n
    ensures RowAt(Resize(elements, n), k, r) == Resize(FromBytes(v), k)
  {
    MulDistributes(r, 1, k);
    if |v| == w {
      FromBytesSplit(v, rest, k);
    } else {
      assert v + rest == v;
    }
    var padded := Resize(elements, n);
    assert padded[r * k..(r + 1) * k] == padded[r * k..][..k];
    assert padded == elements + Zeros(n - |elements|);
    assert padded[r * k..] == FromBytes(v + rest) + Zeros(n - |elements|);
  }

  lemma {:induction false} EncodedRows(c: Codec, coeffs: Vector, n: nat)
    requires n * c.enc.nPerRow <= |coeffs|
    ensures EncodeRows(c.enc, coeffs, n).Some?
    ensures forall r :: 0 <= r < n ==>
      RowsOf(EncodeRows(c.enc, coeffs, n).value, c.enc.nCols, n)[r]
      == EncodeRow(c, RowsOf(coeffs, c.enc.nPerRow, n)[r])
  {
    if n > 0 {
      MulLe(n - 1, n, c.enc.nPerRow);
      EncodedRows(c, coeffs, n - 1);
      var word := EncodeRow(c, RowAt(coeffs, c.enc.nPerRow, n - 1));
      AppendRow(EncodeRows(c.enc, coeffs, n - 1).value, word, c.enc.nCols, n - 1);
      assert RowsOf(coeffs, c.enc.nPerRow, n)
           == RowsOf(coeffs, c.enc.nPerRow, n - 1) + [RowAt(coeffs, c.enc.nPerRow, n - 1)];
    }
  }

  // The matrix committed to for a file has the rows of the encoded file.
  lemma CommittedRows(c: Codec, raw: Bytes)
    ensures RowCount(c.enc, |FromBytes(raw)|) == RowsNeeded(c, |raw|)
    ensures var n := RowsNeeded(c, |raw|);
      var padded := PaddedCoeffs(c.enc, FromBytes(raw));
      && |padded| == n * c.enc.nPerRow
      && EncodeRows(c.enc, padded, n).Some?
      && RowsOf(EncodeRows(c.enc, padded, n).value, c.enc.nCols, n) == FileRows(c, raw)
  {
    var n, elements := RowsNeeded(c, |raw|), FromBytes(raw);
    FromBytesLength(raw);
    NestedCeilDiv(|raw|, CAPACITY, c.enc.nPerRow);
    var padded := PaddedCoeffs(c.enc, elements);
    EncodedRows(c, padded, n);
    var rows := RowsOf(EncodeRows(c.enc, padded, n).value, c.enc.nCols, n);
    forall r | 0 <= r < n ensures rows[r] == FileRows(c, raw)[r] {
      MulLe(r + 1, n, c.enc.nPerRow);
      RowOfElements(c, raw, r);
      EncodePadded(c, FromBytes(RawRow(raw, RowBytes(c), r)));
    }
  }

  // ---------- one commitment ----------

  lemma LeavesAreRowLeaves(comm: Vector, nRows: nat, nCols: nat)
    requires |comm| == nRows * nCols && IsPowerOfTwo(nCols)
    ensures Leaves(comm, nRows, nCols) == RowLeaves(RowsOf(comm, nCols, nRows), nCols)
  {
    NextPowerOfTwoFixed(nCols);
    forall j | 0 <= j < nCols ensures Leaves(comm, nRows, nCols)[j] == RowLeaves(RowsOf(comm, nCols, nRows), nCols)[j] {
      ColumnOfRows(comm, nCols, nRows, j);
    }
  }

  // Committing to the elements of a file gives the tree over its encoded rows, which is also the
  // tree that a store of those rows keeps, and opens the columns of that store.
  lemma OneCommitment(c: Codec, raw: Bytes)
    requires raw != [] && c.enc.nCols <= MAX_COLS
    ensures 0 < |FromBytes(raw)| && CommitSpec(FromBytes(raw), c.enc).Ok?
    ensures var commit, leaves := CommitSpec(FromBytes(raw), c.enc).value, RowLeaves(FileRows(c, raw), c.enc.nCols);
      && WellFormed(commit, c.enc) && IsPowerOfTwo(|leaves|)
      && commit.hashes == FlatTree(leaves)
      && TreeOf(leaves) == Some(MerkleTree(commit.hashes, c.enc.nCols))
      && commit.hashes[..c.enc.nCols] == leaves
      && forall j :: 0 <= j < c.enc.nCols ==>
           OpenColumnSpec(commit, j) == Ok(FullColumn(FileRows(c, raw), c.enc.nCols, j))
  {
    CommittedRows(c, raw);
    FromBytesLength(raw);
    CeilDivBounds(|raw|, CAPACITY);
    var commit := CommitSpec(FromBytes(raw), c.enc).value;
    LeavesAreRowLeaves(commit.comm, commit.nRows, commit.nCols);
    NextPowerOfTwoFixed(commit.nCols);
    forall j | 0 <= j < c.enc.nCols
      ensures OpenColumnSpec(commit, j) == Ok(FullColumn(FileRows(c, raw), c.enc.nCols, j))
    {
      ColumnOfRows(commit.comm, commit.nCols, commit.nRows, j);
    }
  }

  // A column of the store with its path, as a server sends it, passes the verifier's check against
  // the root of the commitment to the file.
  lemma StoreColumnsVerify(c: Codec, raw: Bytes, j: nat)
    requires j < c.enc.nCols
    ensures IsPowerOfTwo(c.enc.nCols)
    ensures var leaves := RowLeaves(FileRows(c, raw), c.enc.nCols);
      ColumnPathOk(FullColumn(FileRows(c, raw), c.enc.nCols, j), j, Last(FlatTree(leaves)))
  {
    TreePathLeadsToRoot(RowLeaves(FileRows(c, raw), c.enc.nCols), j);
  }

  // ---------- hashing only some columns ----------

  datatype ConversionError = EmptyData | BadDimensions | EncodingError

  datatype LeafHashes = Hashes(hashes: seq<Digest>) | Failed(error: ConversionError)

  function RequestedLeaves(fieldData: Vector, enc: Encoding, requested: seq<nat>): LeafHashes
    requires forall i :: 0 <= i < |requested| ==> requested[i] < enc.nCols
  {
    if |fieldData| == 0 then Failed(EmptyData)
    else if enc.nPerRow < 1 || enc.nCols < 2 || !IsPowerOfTwo(enc.nCols) || enc.nCols <= enc.nPerRow
      then Failed(BadDimensions)
    else
      var nRows := RowCount(enc, |fieldData|);
      var comm := EncodeRows(enc, PaddedCoeffs(enc, fieldData), nRows);
      if comm.None? then Failed(EncodingError)
      else Hashes(Selected(ColumnHashes(comm.value, enc.nCols, nRows, 0, enc.nCols), requested))
  }

  // The commitment to the elements, where there is one.
  predicate Committed(fieldData: Vector, enc: Encoding, commit: LcCommit) {
    && 0 < |fieldData| && 0 < enc.nPerRow && enc.DimsOk(enc.nPerRow, enc.nCols) && IsPowerOfTwo(enc.nCols)
    && CommitSpec(fieldData, enc) == Ok(commit)
  }

  lemma LeavesAreCommitted(fieldData: Vector, enc: Encoding, requested: seq<nat>, commit: LcCommit)
    requires Committed(fieldData, enc, commit)
    requires forall i :: 0 <= i < |requested| ==> requested[i] < enc.nCols
    ensures enc.nCols <= |commit.hashes|
    ensures RequestedLeaves(fieldData, enc, requested) == Hashes(Selected(commit.hashes, requested))
  {
    NextPowerOfTwoFixed(enc.nCols);
  }

  method CopyRow(fieldData: Vector, coeffs: array<Elem>, lo: nat, hi: nat)
    requires lo <= hi <= |fieldData| <= coeffs.Length
    requires coeffs[..lo] == fieldData[..lo] && coeffs[lo..] == Zeros(coeffs.Length - lo)
    modifies coeffs
    ensures coeffs[..hi] == fieldData[..hi] && coeffs[hi..] == Zeros(coeffs.Length - hi)
  {
    assert coeffs[hi..] == coeffs[lo..][hi - lo..] == Zeros(coeffs.Length - hi);
    CopyInto(fieldData[lo..hi], coeffs, lo);
    assert coeffs[..hi] == coeffs[..lo] + coeffs[lo..hi];
  }

  // Copies the elements into a zeroed matrix row by row.
  method PadRows(fieldData: Vector, nRows: nat, nPerRow: nat) returns (padded: Vector)
    requires 0 < nPerRow && nRows == CeilDiv(|fieldData|, nPerRow)
    ensures padded == Resize(fieldData, nRows * nPerRow)
  {
    hide CeilDiv;
    CeilDivBounds(|fieldData|, nPerRow);
    var coeffs := new Elem[nRows * nPerRow](_ => 0);
    ghost var done := 0;
    for row := 0 to nRows
      invariant done == if row * nPerRow <= |fieldData| then row * nPerRow else |fieldData|
      invariant 0 <= done <= |fieldData| <= coeffs.Length
      invariant coeffs[..done] == fieldData[..done] && coeffs[done..] == Zeros(coeffs.Length - done)
    {
      RowSpan(|fieldData|, nPerRow, row);
      var lo := row * nPerRow;
      var hi := if (row + 1) * nPerRow <= |fieldData| then (row + 1) * nPerRow else |fieldData|;
      CopyRow(fieldData, coeffs, lo, hi);
      done := hi;
    }
    assert done == |fieldData|;
    padded := coeffs[..];
    assert padded == coeffs[..done] + coeffs[done..];
  }

  // A column number past the width would read from the next row.
  method ConvertToLeaves(fieldData: Vector, enc: Encoding, requested: seq<nat>) returns (r: LeafHashes)
    requires forall i :: 0 <= i < |requested| ==> requested[i] < enc.nCols
    ensures r == RequestedLeaves(fieldData, enc, requested)
    ensures r == Failed(EmptyData) <==> fieldData == []
    ensures r == Failed(BadDimensions) <==>
      fieldData != []
      && !(1 <= enc.nPerRow < enc.nCols && 2 <= enc.nCols && IsPowerOfTwo(enc.nCols))
    ensures forall commit :: Committed(fieldData, enc, commit) ==>
      enc.nCols <= |commit.hashes| && r == Hashes(Selected(commit.hashes, requested))
  {
    hide Committed;
    forall commit | Committed(fieldData, enc, commit)
      ensures enc.nCols <= |commit.hashes|
      ensures RequestedLeaves(fieldData, enc, requested) == Hashes(Selected(commit.hashes, requested))
    {
      LeavesAreCommitted(fieldData, enc, requested, commit);
    }
    if |fieldData| == 0 {
      return Failed(EmptyData);
    }
    if enc.nPerRow < 1 || enc.nCols < 2 || !IsPowerOfTwo(enc.nCols) || enc.nCols <= enc.nPerRow {
      return Failed(BadDimensions);
    }
    var nRows, nCols := RowCount(enc, |fieldData|), enc.nCols;
    var padded := PadRows(fieldData, nRows, enc.nPerRow);
    var encoded := EncodeMatrix(padded, nRows, enc);
    if encoded.None? {
      return Failed(EncodingError);
    }
    var comm := encoded.value;
    var digests := seq(|requested|, _ => [Block(DefaultDigest())]);
    FreshStates(comm, nCols, 0, nCols);
    for row := 0 to nRows
      invariant row * nCols <= |comm|
      invariant digests == Selected(ColumnStates(comm, nCols, row, 0, nCols), requested)
    {
      MulLe(row + 1, nRows, nCols);
      digests := AbsorbSelected(comm, digests, requested, row, nCols);
    }
    var hashes: seq<Digest> := [];
    for i := 0 to |digests|
      invariant hashes == Selected(ColumnHashes(comm, nCols, nRows, 0, nCols), requested)[..i]
    {
      hashes := hashes + [HASH(digests[i])];
    }
    r := Hashes(hashes);
  }

  method AbsorbSelected(comm: Vector, digests: seq<seq<Atom>>, requested: seq<nat>, row: nat, nCols: nat)
    returns (fed: seq<seq<Atom>>)
    requires (row + 1) * nCols <= |comm| && row * nCols <= |comm|
    requires forall i :: 0 <= i < |requested| ==> requested[i] < nCols
    requires digests == Selected(ColumnStates(comm, nCols, row, 0, nCols), requested)
    ensures fed == Selected(ColumnStates(comm, nCols, row + 1, 0, nCols), requested)
  {
    fed := digests;
    for i := 0 to |requested|
      invariant |fed| == |digests| && fed[i..] == digests[i..]
      invariant fed[..i] == Selected(ColumnStates(comm, nCols, row + 1, 0, nCols), requested)[..i]
    {
      ColumnPush(comm, nCols, row, 0 + requested[i]);
      assert fed[i] == fed[i..][0] == digests[i];
      fed := fed[i := fed[i] + [Element(comm[row * nCols + requested[i]])]];
    }
  }
}
