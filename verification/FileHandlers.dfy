/** A file kept next to its encoded store, and the operations that change both. */
module FileHandlers {
  import opened Arithmetic
  import opened Vectors
  import opened Bytes
  import opened Slices
  import opened DataFields
  import opened Options
  import opened Hashing
  import opened Merkle
  import opened MerkleTrees
  import opened Commitment
  import opened EncodedFiles
  import opened EncodedFileReaders
  import opened EncodedFileWriters
  import opened ColumnDigests
  import opened RowStreams

  class FileHandler {
    var codec: Codec
    var rowsWritten: nat
    var rowCapacity: nat
    var totalDataBytes: nat
    var unencodedFile: Bytes
    var reader: EncodedFileReader
    var merkleTree: MerkleTree

    // Handler and reader agree on the shape of the store.
    ghost predicate Valid()
      reads this, reader
    {
      && reader.Valid() && reader.codec == codec
      && rowCapacity == reader.rowCapacity
      && |merkleTree.digests| == 2 * merkleTree.width - 1
    }

    // The store is the encoding of the file from scratch, and the tree is the tree of the store.
    ghost predicate Agrees()
      reads this, reader
    {
      && Valid()
      && totalDataBytes == |unencodedFile|
      && rowsWritten == RowsNeeded(codec, totalDataBytes) == reader.rowsWritten
      && reader.Rows() == FileRows(codec, unencodedFile)
      && TreeOf(RowLeaves(reader.Rows(), codec.enc.nCols)) == Some(merkleTree)
    }

    // Attaching to a store on disk, whose tree is kept as bytes.
    constructor (codec: Codec, raw: Bytes, stored: StoredFile, tree: MerkleTree)
      requires StoreOf(codec, raw, stored) && tree == stored.tree
      ensures Agrees() && fresh(reader)
      ensures this.codec == codec && unencodedFile == raw && rowCapacity == stored.rowCapacity
    {
      this.codec, unencodedFile, totalDataBytes := codec, raw, stored.dataBytes;
      rowsWritten, rowCapacity := stored.rowsWritten, stored.rowCapacity;
      reader := new EncodedFileReader(codec, stored.file, stored.rowsWritten, stored.rowCapacity);
      merkleTree := tree;
      new;
      assert stored.file == reader.file;
    }

    // ---------- reading ----------

    method GetUnencodedRow(row: nat) returns (bytes: Option<Bytes>)
      requires totalDataBytes == |unencodedFile| && rowsWritten == RowsNeeded(codec, totalDataBytes)
      ensures bytes == if row < rowsWritten then Some(RawRow(unencodedFile, RowBytes(codec), row)) else None
    {
      if row >= rowsWritten {
        return None;
      }
      RowSpan(|unencodedFile|, RowBytes(codec), row);
      var startByte, endByte := row * RowBytes(codec), (row + 1) * RowBytes(codec);
      endByte := if endByte > totalDataBytes then totalDataBytes else endByte;
      bytes := Some(unencodedFile[startByte..endByte]);
    }

    // A column of the store with its path in the kept tree.
    method OpenColumn(column: nat) returns (r: Option<LcColumn>)
      requires Agrees()
      ensures r == if column < codec.enc.nCols
        then Some(FullColumn(FileRows(codec, unencodedFile), codec.enc.nCols, column)) else None
    {
      var col := reader.GetEncodedColumn(column);
      if col.None? || column >= codec.enc.nCols {
        return None;
      }
      var path := GetPath(merkleTree, column);
      assert path.Some?;
      r := Some(LcColumn(col.value, path.value));
    }

    method ReadFullColumns(indices: seq<nat>) returns (r: Option<seq<LcColumn>>)
      requires Agrees()
      ensures r.Some? <==> forall i :: 0 <= i < |indices| ==> indices[i] < codec.enc.nCols
      ensures r.Some? ==> |r.value| == |indices| && forall i :: 0 <= i < |indices| ==>
        r.value[i] == FullColumn(FileRows(codec, unencodedFile), codec.enc.nCols, indices[i])
    {
      hide RowBytes, FileRows, FullColumn, RowsNeeded, StoreRows;
      var columns: seq<LcColumn> := [];
      for i := 0 to |indices|
        invariant |columns| == i
        invariant forall j :: 0 <= j < i ==> indices[j] < codec.enc.nCols
        invariant forall j :: 0 <= j < i ==>
          columns[j] == FullColumn(FileRows(codec, unencodedFile), codec.enc.nCols, indices[j])
      {
        var column := OpenColumn(indices[i]);
        if column.None? {
          return None;
        }
        columns := columns + [column.value];
      }
      r := Some(columns);
    }

    // ---------- changing ----------

    method RecalculateMerkleTree() returns (t: MerkleTree)
      requires Valid()
      modifies this`merkleTree
      ensures Valid() && merkleTree == t
      ensures TreeOf(RowLeaves(reader.Rows(), codec.enc.nCols)) == Some(t)
    {
      var tree := reader.ProcessToMerkleTree();
      merkleTree := tree.value;
      t := tree.value;
    }

    // Encodes one row of the file into the store again. The store has a row there, or ends there.
    method ReencodeRow(row: nat) returns (ok: bool)
      requires Valid() && totalDataBytes == |unencodedFile| && rowsWritten == RowsNeeded(codec, totalDataBytes)
      requires row < rowsWritten ==> row < rowCapacity && row <= reader.rowsWritten
      modifies reader
      ensures Valid() && ok == (row < rowsWritten)
      ensures ok ==> reader.Rows() == PutRow(old(reader.Rows()), row, FileRows(codec, unencodedFile)[row])
      ensures !ok ==> unchanged(reader)
    {
      if row >= rowsWritten {
        return false;
      }
      var decoded := GetUnencodedRow(row);
      assert decoded.Some?;
      EncodedMessage(codec, decoded.value);
      var written := reader.ReplaceRowWithDecodedBytes(row, decoded.value);
      ok := written == Written;
    }

    // The row's bytes as they are in the file, with zeros after its end.
    method ReadRowBuffer(row: nat) returns (buffer: Bytes)
      requires row < RowsNeeded(codec, |unencodedFile|)
      ensures buffer == PadBytes(RawRow(unencodedFile, RowBytes(codec), row), RowBytes(codec))
    {
      RowSpan(|unencodedFile|, RowBytes(codec), row);
      var at, rowBytes := row * RowBytes(codec), RowBytes(codec);
      var n := if at + rowBytes <= |unencodedFile| then rowBytes else |unencodedFile| - at;
      buffer := unencodedFile[at..at + n] + ZeroBytes(rowBytes - n);
    }

    // Replaces bytes of the file and encodes the rows they are in again.
    method EditBytes(byteStart: nat, bytes: Bytes) returns (r: Option<(Bytes, MerkleTree)>)
      requires Agrees()
      modifies this, reader
      ensures Agrees() && reader == old(reader) && codec == old(codec)
      ensures r.Some? <==> byteStart + |bytes| <= old(|unencodedFile|)
      ensures r.None? ==> unchanged(this) && unchanged(reader)
      ensures r.Some? ==> unencodedFile == Splice(old(unencodedFile), byteStart, bytes)
      ensures r.Some? ==> r.value == (old(unencodedFile)[byteStart..byteStart + |bytes|], merkleTree)
    {
      if byteStart + |bytes| > totalDataBytes {
        return None;
      }
      hide RowBytes, FileRows, RowsNeeded, StoreRows;
      ghost var before := unencodedFile;
      var originalBytes := unencodedFile[byteStart..byteStart + |bytes|];
      unencodedFile := Splice(unencodedFile, byteStart, bytes);
      var startRow, endRow := RowOf(codec, byteStart), RowsNeeded(codec, byteStart + |bytes|);
      EditedRowsExist(codec, byteStart, |bytes|, |before|);
      RewriteRows(startRow, endRow);
      RowsOutsideEdit(codec, before, byteStart, bytes);
      assert reader.Rows() == FileRows(codec, unencodedFile);
      var tree := RecalculateMerkleTree();
      r := Some((originalBytes, tree));
    }

    // Encodes the padded bytes of some rows again.
    method RewriteRows(startRow: nat, endRow: nat)
      requires Valid() && startRow <= endRow <= RowsNeeded(codec, |unencodedFile|) == reader.rowsWritten
      modifies reader
      ensures Valid() && reader.rowsWritten == old(reader.rowsWritten)
      ensures Replaced(old(reader.Rows()), FileRows(codec, unencodedFile), reader.Rows(), startRow, endRow)
    {
      hide RowBytes, FileRows, EncodeBytes, StoreRows;
      for row := startRow to endRow
        invariant Valid() && reader.rowsWritten == old(reader.rowsWritten)
        invariant Replaced(old(reader.Rows()), FileRows(codec, unencodedFile), reader.Rows(), startRow, row)
      {
        var buffer := ReadRowBuffer(row);
        EncodePaddedBytes(codec, RawRow(unencodedFile, RowBytes(codec), row));
        FileRow(codec, unencodedFile, row);
        EncodedMessage(codec, buffer);
        var written := reader.ReplaceRowWithDecodedBytes(row, buffer);
      }
    }

    // Grows the store to twice the rows needed when they do not fit.
    method MakeRoom(endRow: nat)
      requires Valid() && reader.rowsWritten <= endRow
      modifies this`rowCapacity, reader
      ensures Valid() && rowCapacity == if endRow <= old(rowCapacity) then old(rowCapacity) else 2 * endRow
      ensures reader.rowsWritten == old(reader.rowsWritten) && reader.Rows() == old(reader.Rows())
    {
      if endRow > rowCapacity {
        var grown := reader.SetNewCapacity(endRow * 2);
        rowCapacity := endRow * 2;
      }
    }

    // Encodes the rows from startRow on again, up to the last one.
    method ReencodeRows(startRow: nat, endRow: nat)
      requires Valid() && totalDataBytes == |unencodedFile|
      requires rowsWritten == endRow == RowsNeeded(codec, totalDataBytes) <= rowCapacity
      requires startRow <= reader.rowsWritten <= endRow && (startRow == endRow ==> reader.rowsWritten == endRow)
      requires reader.Rows()[..startRow] == FileRows(codec, unencodedFile)[..startRow]
      modifies reader
      ensures Valid() && reader.Rows() == FileRows(codec, unencodedFile)
    {
      hide RowBytes, FileRows, EncodeBytes, RowsNeeded, StoreRows, PutRow;
      for row := startRow to endRow
        invariant Valid()
        invariant row <= reader.rowsWritten <= endRow && (row == endRow ==> reader.rowsWritten == endRow)
        invariant reader.Rows()[..row] == FileRows(codec, unencodedFile)[..row]
      {
        ghost var rows := reader.Rows();
        var ok := ReencodeRow(row);
        PutNext(rows, FileRows(codec, unencodedFile), row);
      }
      assert reader.Rows() == reader.Rows()[..endRow];
      assert FileRows(codec, unencodedFile) == FileRows(codec, unencodedFile)[..endRow];
    }

    // Appends bytes to the file; a store that is too short is first grown to twice what is needed.
    method AppendBytes(bytes: Bytes) returns (t: MerkleTree)
      requires Agrees()
      modifies this, reader
      ensures Agrees() && reader == old(reader) && codec == old(codec) && t == merkleTree
      ensures unencodedFile == old(unencodedFile) + bytes
      ensures rowCapacity == if RowsNeeded(codec, |unencodedFile|) <= old(rowCapacity) then old(rowCapacity)
                             else 2 * RowsNeeded(codec, |unencodedFile|)
    {
      hide RowBytes, FileRows, RowsNeeded, StoreRows;
      ghost var before := unencodedFile;
      unencodedFile := unencodedFile + bytes;
      var startRow, endRow := RowOf(codec, totalDataBytes), RowsNeeded(codec, totalDataBytes + |bytes|);
      AppendedRows(codec, |before|, |bytes|);
      RowsBeforeAppend(codec, before, bytes);
      MakeRoom(endRow);
      totalDataBytes := totalDataBytes + |bytes|;
      rowsWritten := endRow;
      ReencodeRows(startRow, endRow);
      t := RecalculateMerkleTree();
    }

    // Writes the store again from the file. Nothing here checks that every row was written: counts
    // and store stop at the rows that reached the file.
    method ReencodeUnencodedFile()
      requires Valid()
      modifies this
      ensures Valid() && fresh(reader) && codec == old(codec) && unencodedFile == old(unencodedFile)
      ensures TreeOf(RowLeaves(FileRows(codec, unencodedFile), codec.enc.nCols)) == Some(merkleTree)
      ensures totalDataBytes == |unencodedFile|
      ensures rowsWritten == reader.rowsWritten == RowsReaching(codec, |unencodedFile|)
      ensures reader.Rows() == FileRows(codec, unencodedFile)[..rowsWritten]
      ensures Agrees() <==> EveryRowIsWritten(codec, |unencodedFile|)
    {
      hide RowBytes, FileRows, RowsNeeded, EveryRowIsWritten;
      var s := StreamFile(unencodedFile, codec, RowBytes(codec));
      totalDataBytes, rowCapacity, rowsWritten := s.dataBytes, s.rowCapacity, s.rowsWritten;
      reader := new EncodedFileReader(codec, s.file, rowsWritten, rowCapacity);
      merkleTree := s.tree;
      TreeIsTree(RowLeaves(FileRows(codec, unencodedFile), codec.enc.nCols));
      assert reader.Rows() == FileRows(codec, unencodedFile)[..rowsWritten];
      if rowsWritten == RowsNeeded(codec, totalDataBytes) {
        assert reader.Rows() == FileRows(codec, unencodedFile);
      }
    }

    // Writes the store in another shape. When the conversion leaves rows unwritten it panics, and the
    // old store is lost: the file then holds only the first rows of the new shape.
    method Reshape(newCodec: Codec) returns (t: Option<MerkleTree>)
      requires Agrees()
      modifies this, reader
      ensures t.Some? <==> EveryRowIsWritten(newCodec, |old(unencodedFile)|)
      ensures unencodedFile == old(unencodedFile)
      ensures t.Some? ==> Agrees() && fresh(reader) && codec == newCodec && t.value == merkleTree
      ensures t.Some? ==> rowCapacity == 2 * RowsNeeded(newCodec, |unencodedFile|)
      ensures t.None? ==> unchanged(this) && LeftShort(newCodec, unencodedFile, reader.file)
    {
      hide RowBytes, FileRows, RowsNeeded, EveryRowIsWritten;
      var ok, s := ConvertUnencodedFile(unencodedFile, newCodec);
      reader.file := s.file;
      if !ok {
        return None;
      }
      codec, rowsWritten, rowCapacity := newCodec, s.rowsWritten, s.rowCapacity;
      reader := new EncodedFileReader(newCodec, s.file, rowsWritten, rowCapacity);
      merkleTree := s.tree;
      TreeIsTree(RowLeaves(FileRows(codec, unencodedFile), codec.enc.nCols));
      t := Some(s.tree);
    }

    // ---------- checking ----------

    // Hashes the store and the file anew and compares both with the tree.
    method VerifyAllFilesAgree() returns (ok: bool)
      requires Valid()
      ensures ok <==>
        && TreeOf(RowLeaves(reader.Rows(), codec.enc.nCols)) == Some(merkleTree)
        && TreeOf(RowLeaves(FileRows(codec, unencodedFile), codec.enc.nCols)) == Some(merkleTree)
        && totalDataBytes == |unencodedFile|
    {
      var recalculated := reader.ProcessToMerkleTree();
      TreeIsTree(RowLeaves(reader.Rows(), codec.enc.nCols));
      SameTreeIsEquality(recalculated.value, merkleTree);
      if !SameTree(recalculated.value, merkleTree) {
        return false;
      }
      var fromFile := TreeOfFile();
      if |unencodedFile| != totalDataBytes {
        return false;
      }
      TreeIsTree(RowLeaves(FileRows(codec, unencodedFile), codec.enc.nCols));
      SameTreeIsEquality(fromFile, merkleTree);
      ok := SameTree(fromFile, merkleTree);
    }

    method TreeOfFile() returns (t: MerkleTree)
      requires Valid()
      ensures TreeOf(RowLeaves(FileRows(codec, unencodedFile), codec.enc.nCols)) == Some(t)
    {
      hide RowBytes, FileRows, DigestStates, EncodeBytes;
      var digests := new ColumnDigestAccumulator(codec.enc.nCols);
      var position := 0;
      ghost var row := 0;
      NoRows(codec);
      while position < |unencodedFile|
        invariant position <= |unencodedFile| && digests.Valid() && fresh(digests) && digests.width == codec.enc.nCols
        invariant digests.rows == FileRows(codec, unencodedFile[..position])
        invariant position < |unencodedFile| ==> position == row * RowBytes(codec)
      {
        var bytesRead := RowChunk(codec, |unencodedFile| - position);
        var buffer := unencodedFile[position..position + bytesRead];
        FileRowsConcat(codec, unencodedFile[..position], buffer, row);
        SingleRow(codec, buffer);
        assert unencodedFile[..position + bytesRead] == unencodedFile[..position] + buffer;
        ShortMessage(codec, buffer);
        var word := codec.enc.encode(Resize(FromBytes(buffer), codec.enc.nCols));
        EncodedBuffer(codec, buffer);
        var ok := digests.Update(word.value);
        MulDistributes(row, 1, RowBytes(codec));
        position, row := position + bytesRead, row + 1;
      }
      assert unencodedFile[..position] == unencodedFile;
      var tree := digests.FinalizeToMerkleTree();
      t := tree.value;
    }

    // The check passes on a handler that agrees with its files. When it passes on a handler and a
    // reader that count the same rows, the handler agrees with its files, or a column of the store
    // collides with that column of the file's encoding.
    lemma VerifiedFilesAgree() returns (x: Option<Collision>)
      requires Valid() && rowsWritten == reader.rowsWritten && totalDataBytes == |unencodedFile|
      requires TreeOf(RowLeaves(reader.Rows(), codec.enc.nCols)) == Some(merkleTree)
      requires TreeOf(RowLeaves(FileRows(codec, unencodedFile), codec.enc.nCols)) == Some(merkleTree)
      ensures match x
        case Some(c) => c.Valid() && ColumnsCollide(reader.Rows(), FileRows(codec, unencodedFile), codec.enc.nCols, c)
        case None => Agrees()
    {
      hide RowBytes, FileRows;
      var a, b, w := reader.Rows(), FileRows(codec, unencodedFile), codec.enc.nCols;
      assert FlatTree(RowLeaves(a, w))[..w] == RowLeaves(a, w) && FlatTree(RowLeaves(b, w))[..w] == RowLeaves(b, w);
      x := EqualLeavesBind(a, b, w);
    }
  }

  lemma EncodedBuffer(c: Codec, v: Bytes)
    requires |v| <= RowBytes(c)
    ensures c.enc.encode(Resize(FromBytes(v), c.enc.nCols)) == Some(EncodeBytes(c, v))
  {
    ShortMessage(c, v);
  }

  lemma TreeIsTree(leaves: seq<Digest>)
    ensures match TreeOf(leaves)
      case Some(t) => |t.digests| == 2 * t.width - 1
      case None => true
  {
  }

  // A collision between one column of these rows and the same column of those.
  ghost predicate ColumnsCollide(a: seq<Vector>, b: seq<Vector>, width: nat, x: Collision)
    requires Rectangular(a, width) && Rectangular(b, width)
  {
    exists j :: 0 <= j < width && x == Collision(ColumnState(ColumnOf(a, width, j)), ColumnState(ColumnOf(b, width, j)))
  }

  // Rows with the same leaf hashes are the same rows, or two of their columns collide.
  lemma EqualLeavesBind(a: seq<Vector>, b: seq<Vector>, width: nat) returns (x: Option<Collision>)
    requires 0 < width && Rectangular(a, width) && Rectangular(b, width)
    requires RowLeaves(a, width) == RowLeaves(b, width)
    ensures match x
      case Some(c) => c.Valid() && ColumnsCollide(a, b, width, c)
      case None => a == b
  {
    if c :| 0 <= c < width && ColumnOf(a, width, c) != ColumnOf(b, width, c) {
      var u, v := ColumnOf(a, width, c), ColumnOf(b, width, c);
      assert LeafHash(u) == RowLeaves(a, width)[c] == RowLeaves(b, width)[c] == LeafHash(v);
      x := Some(Collision(ColumnState(u), ColumnState(v)));
      if ColumnState(u) == ColumnState(v) {
        assert Elements(u) == ColumnState(u)[1..] == ColumnState(v)[1..] == Elements(v);
        ElementsInjective(u, v);
      }
    } else {
      x := None;
      assert |a| == |ColumnOf(a, width, 0)| == |ColumnOf(b, width, 0)| == |b|;
      forall r | 0 <= r < |a| ensures a[r] == b[r] {
        forall c | 0 <= c < width ensures a[r][c] == b[r][c] {
          assert ColumnOf(a, width, c)[r] == ColumnOf(b, width, c)[r];
        }
      }
    }
  }

  // A row put in place extends the part that is right.
  lemma PutNext(rows: seq<Vector>, target: seq<Vector>, row: nat)
    requires row <= |rows| && row < |target| && rows[..row] == target[..row]
    ensures PutRow(rows, row, target[row])[..row + 1] == target[..row + 1]
  {
  }

  // The first row an append changes is the last row of the file, or the next one.
  lemma AppendedRows(c: Codec, len: nat, size: nat)
    ensures RowOf(c, len) <= RowsNeeded(c, len) <= RowOf(c, len) + 1
    ensures RowOf(c, len) <= RowsNeeded(c, len) <= RowsNeeded(c, len + size)
  {
    hide RowBytes;
    var w, k := RowBytes(c), RowOf(c, len);
    CeilDivMonotone(len, len + size, w);
    RowsSoFar(c, k, k * w, len - k * w);
  }

  // The rows before it stay as they are.
  lemma RowsBeforeAppend(c: Codec, raw: Bytes, bytes: Bytes)
    ensures RowOf(c, |raw|) <= RowsNeeded(c, |raw|) <= RowsNeeded(c, |raw + bytes|)
    ensures FileRows(c, raw + bytes)[..RowOf(c, |raw|)] == FileRows(c, raw)[..RowOf(c, |raw|)]
  {
    hide RowBytes, FileRows;
    AppendedRows(c, |raw|, |bytes|);
    var k := RowOf(c, |raw|);
    var whole, rest := raw[..k * RowBytes(c)], raw[k * RowBytes(c)..];
    assert raw == whole + rest && raw + bytes == whole + (rest + bytes);
    FileRowsConcat(c, whole, rest, k);
    FileRowsConcat(c, whole, rest + bytes, k);
  }

  lemma FileRow(c: Codec, raw: Bytes, r: nat)
    requires r < RowsNeeded(c, |raw|)
    ensures FileRows(c, raw)[r] == EncodeBytes(c, RawRow(raw, RowBytes(c), r))
  {
  }

  // The rows from..to are those of `after`, the others those of `before`.
  ghost predicate Replaced(before: seq<Vector>, after: seq<Vector>, now: seq<Vector>, from: nat, to: nat) {
    && |now| == |before| == |after|
    && forall r :: 0 <= r < |now| ==> now[r] == if from <= r < to then after[r] else before[r]
  }

  lemma EditedRowsExist(c: Codec, start: nat, size: nat, len: nat)
    requires start + size <= len
    ensures RowOf(c, start) <= RowsNeeded(c, start + size) <= RowsNeeded(c, len)
  {
    hide RowBytes;
    var w := RowBytes(c);
    CeilDivBounds(start + size, w);
    CeilDivBounds(len, w);
    CeilDivMonotone(start + size, len, w);
    if RowsNeeded(c, start + size) < RowOf(c, start) {
      MulLe(RowsNeeded(c, start + size), RowOf(c, start), w);
      MulLe(RowsNeeded(c, start + size) + 1, RowOf(c, start), w);
      MulDistributes(RowsNeeded(c, start + size), 1, w);
    }
  }

  lemma CeilDivMonotone(a: nat, b: nat, w: nat)
    requires 0 < w && a <= b
    ensures CeilDiv(a, w) <= CeilDiv(b, w)
  {
    CeilDivBounds(a, w);
    CeilDivBounds(b, w);
    if CeilDiv(b, w) < CeilDiv(a, w) {
      MulLe(CeilDiv(b, w), CeilDiv(a, w) - 1, w);
    }
  }

  // An edit leaves the rows before and after it alone.
  lemma RowsOutsideEdit(c: Codec, raw: Bytes, start: nat, bytes: Bytes)
    requires start + |bytes| <= |raw|
    ensures var now := Splice(raw, start, bytes);
      forall r :: 0 <= r < RowsNeeded(c, |raw|) && !(RowOf(c, start) <= r < RowsNeeded(c, start + |bytes|)) ==>
        FileRows(c, now)[r] == FileRows(c, raw)[r]
  {
    var now := Splice(raw, start, bytes);
    forall r | 0 <= r < RowsNeeded(c, |raw|) && !(RowOf(c, start) <= r < RowsNeeded(c, start + |bytes|))
      ensures FileRows(c, now)[r] == FileRows(c, raw)[r]
    {
      RowOutsideEdit(raw, now, RowBytes(c), r, start, |bytes|, RowOf(c, start));
    }
  }

  lemma RowOutsideEdit(raw: Bytes, now: Bytes, w: nat, r: nat, start: nat, size: nat, startRow: nat)
    requires 0 < w && |raw| == |now| && start + size <= |raw| && r < CeilDiv(|raw|, w)
    requires now[..start] == raw[..start] && now[start + size..] == raw[start + size..]
    requires startRow * w <= start && (r < startRow || CeilDiv(start + size, w) <= r)
    ensures RawRow(now, w, r) == RawRow(raw, w, r)
  {
    RowSpan(|raw|, w, r);
    var lo, hi := r * w, if (r + 1) * w <= |raw| then (r + 1) * w else |raw|;
    if r < startRow {
      MulLe(r + 1, startRow, w);
    } else {
      CeilDivBounds(start + size, w);
      MulLe(CeilDiv(start + size, w), r, w);
    }
    SliceOutsideEdit(raw, now, start, size, lo, hi);
  }

  lemma SliceOutsideEdit(raw: Bytes, now: Bytes, start: nat, size: nat, lo: nat, hi: nat)
    requires |raw| == |now| && start + size <= |raw| && lo <= hi <= |raw|
    requires now[..start] == raw[..start] && now[start + size..] == raw[start + size..]
    requires hi <= start || start + size <= lo
    ensures now[lo..hi] == raw[lo..hi]
  {
    if hi <= start {
      assert raw[lo..hi] == raw[..start][lo..hi];
      assert now[lo..hi] == now[..start][lo..hi];
    } else {
      var from := start + size;
      assert raw[lo..hi] == raw[from..][lo - from..hi - from];
      assert now[lo..hi] == now[from..][lo - from..hi - from];
    }
  }

  // A file of cells that holds the whole buffers of a raw file's rows, but not the rows after them.
  ghost predicate LeftShort(c: Codec, raw: Bytes, file: Vector) {
    var capacity, n := 2 * RowsNeeded(c, |raw|), RowsInBuffers(RowsNeeded(c, |raw|));
    && |file| == c.enc.nCols * capacity && n < RowsNeeded(c, |raw|)
    && StoreRows(file, capacity, c.enc.nCols, n) == FileRows(c, raw)[..n]
  }

  // ---------- whole runs ----------

  // The tree comes back from the bytes it is kept as.
  method AttachToExistingFiles(codec: Codec, raw: Bytes, stored: StoredFile, merkleBytes: Bytes)
    returns (h: Option<FileHandler>)
    requires StoreOf(codec, raw, stored) && merkleBytes == TreeToBytes(stored.tree)
    ensures h.Some? && fresh(h.value) && fresh(h.value.reader) && h.value.Agrees()
    ensures h.value.codec == codec && h.value.unencodedFile == raw
  {
    TreeBytesRoundTrip(RowLeaves(FileRows(codec, raw), codec.enc.nCols));
    var tree := TreeFromBytes(merkleBytes);
    if tree.None? {
      return None;
    }
    var handler := new FileHandler(codec, raw, stored, tree.value);
    h := Some(handler);
  }

  method CreateFromUnencodedFile(raw: Bytes, codec: Codec) returns (h: Option<FileHandler>)
    ensures h.Some? <==> EveryRowIsWritten(codec, |raw|)
    ensures h.Some? ==> fresh(h.value) && fresh(h.value.reader) && h.value.Agrees()
    ensures h.Some? ==> h.value.codec == codec && h.value.unencodedFile == raw
  {
    var ok, stored := ConvertUnencodedFile(raw, codec);
    if !ok {
      return None;
    }
    h := AttachToExistingFiles(codec, raw, stored, TreeToBytes(stored.tree));
  }

  datatype Operation =
    | Edit(start: nat, bytes: Bytes)
    | Append(bytes: Bytes)
    | Reencode(row: nat)
    | Recalculate
    | ReencodeAll
    | ChangeShape(codec: Codec)

  // A raw file and the code it is stored in.
  datatype Content = Content(codec: Codec, raw: Bytes)

  // What an operation does to the content. An edit past the end is refused.
  function Applied(c: Content, op: Operation): Content {
    match op
    case Edit(start, bytes) => if start + |bytes| <= |c.raw| then c.(raw := Splice(c.raw, start, bytes)) else c
    case Append(bytes) => c.(raw := c.raw + bytes)
    case ChangeShape(codec) => c.(codec := codec)
    case _ => c
  }

  function AppliedAll(c: Content, ops: seq<Operation>): Content {
    if ops == [] then c else Applied(AppliedAll(c, ops[..|ops| - 1]), ops[|ops| - 1])
  }

  // Writing a whole store needs a file all of whose rows get written.
  predicate Completes(c: Content, op: Operation) {
    match op
    case ReencodeAll => EveryRowIsWritten(c.codec, |c.raw|)
    case ChangeShape(codec) => EveryRowIsWritten(codec, |c.raw|)
    case _ => true
  }

  predicate AllComplete(c: Content, ops: seq<Operation>) {
    forall i :: 0 <= i < |ops| ==> Completes(AppliedAll(c, ops[..i]), ops[i])
  }

  method Apply(h: FileHandler, op: Operation)
    requires h.Agrees() && Completes(Content(h.codec, h.unencodedFile), op)
    modifies h, h.reader
    ensures h.Agrees() && (h.reader == old(h.reader) || fresh(h.reader))
    ensures Content(h.codec, h.unencodedFile) == Applied(old(Content(h.codec, h.unencodedFile)), op)
  {
    hide RowBytes, FileRows, RowsNeeded, EveryRowIsWritten;
    match op
    case Edit(start, bytes) =>
      var r := h.EditBytes(start, bytes);
    case Append(bytes) =>
      var t := h.AppendBytes(bytes);
    case Reencode(row) =>
      assert row < h.rowsWritten ==> PutRow(h.reader.Rows(), row, h.reader.Rows()[row]) == h.reader.Rows();
      var ok := h.ReencodeRow(row);
    case Recalculate =>
      var t := h.RecalculateMerkleTree();
    case ReencodeAll =>
      h.ReencodeUnencodedFile();
    case ChangeShape(codec) =>
      var t := h.Reshape(codec);
  }

  // After any run of operations the store is the encoding from scratch of the file they leave, and
  // the kept tree is its tree.
  method Run(h: FileHandler, ops: seq<Operation>)
    requires h.Agrees() && AllComplete(Content(h.codec, h.unencodedFile), ops)
    modifies h, h.reader
    ensures h.Agrees()
    ensures Content(h.codec, h.unencodedFile) == AppliedAll(old(Content(h.codec, h.unencodedFile)), ops)
  {
    hide Completes, Applied;
    for i := 0 to |ops|
      invariant h.Agrees() && (h.reader == old(h.reader) || fresh(h.reader))
      invariant Content(h.codec, h.unencodedFile) == AppliedAll(old(Content(h.codec, h.unencodedFile)), ops[..i])
    {
      assert ops[..i + 1][..i] == ops[..i];
      Apply(h, ops[i]);
    }
    assert ops[..|ops|] == ops;
  }
}
