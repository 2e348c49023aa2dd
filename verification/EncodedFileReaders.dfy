/** The store of encoded rows, kept column by column, and its in-place updates. */
module EncodedFileReaders {
  import opened Arithmetic
  import opened Fields
  import opened Vectors
  import opened Bytes
  import opened Slices
  import opened DataFields
  import opened Options
  import opened Hashing
  import opened MerkleTrees
  import opened EncodedFiles

  // Row r of a list set to word; one past the end appends it.
  function PutRow(rows: seq<Vector>, r: nat, word: Vector): (updated: seq<Vector>)
    requires r <= |rows|
    ensures |updated| == if r == |rows| then |rows| + 1 else |rows|
  {
    if r == |rows| then rows + [word] else rows[r := word]
  }

  // The bytes an edit replaced, or why it stopped.
  datatype EditReply = OldBytes(original: Bytes) | RowMissing | AssertionFailed

  // How much of an edit falls inside a file of len bytes.
  function Fitting(len: nat, start: nat, size: nat): (n: nat)
    ensures n <= size && (0 < n ==> start + n <= len)
  {
    if start + size <= len then size else if start <= len then len - start else 0
  }

  function Piece(v: Bytes, start: nat, n: nat): (piece: Bytes)
    requires n == 0 || start + n <= |v|
    ensures |piece| == n
  {
    if n == 0 then [] else v[start..start + n]
  }

  // Reads at a row that exists stay inside the file; otherwise the read in the last column does not.
  lemma ReadPosition(i: nat, width: nat, capacity: nat, target: nat)
    requires i < width
    ensures 0 <= i * capacity
    ensures target < capacity ==> i * capacity + target < width * capacity
    ensures capacity <= target && i == width - 1 ==> width * capacity <= i * capacity + target
  {
    MulLe(0, i, capacity);
    MulDistributes(width - 1, 1, capacity);
    if target < capacity {
      CellInRange(width, capacity, i, target);
    }
  }

  // One element written at a position, which may be the end of the file.
  function WriteAt(file: Vector, position: nat, value: Elem): (r: Vector)
    requires position <= |file|
  {
    if position < |file| then file[position := value] else file + [value]
  }

  // The cells of a row up to column `done` hold the word, all others what they held.
  ghost predicate RowWritten(before: Vector, file: Vector, capacity: nat, width: nat, target: nat, word: Vector,
                             done: nat)
    requires |before| == width * capacity && done <= width == |word|
  {
    && |file| == |before|
    && forall r, c :: 0 <= r < capacity && 0 <= c < width ==>
         Cell(file, capacity, width, r, c)
         == if r == target && c < done then word[c] else Cell(before, capacity, width, r, c)
  }

  // The word in the first cells of columns 1, 2, ..., done.
  ghost predicate Overwritten(before: Vector, file: Vector, capacity: nat, width: nat, word: Vector, done: nat)
    requires |before| == width * capacity && done <= width == |word|
  {
    && |file| >= |before|
    && forall r, c :: 0 <= r < capacity && 0 <= c < width ==>
         Cell(file[..|before|], capacity, width, r, c)
         == if r == 0 && 0 < c <= done then word[c - 1] else Cell(before, capacity, width, r, c)
  }

  // A row appended to a full store, with the first `done` entries written: one cell past each column,
  // which for the last column is past the end of the file.
  ghost predicate Overrunning(before: Vector, file: Vector, capacity: nat, width: nat, word: Vector, done: nat)
    requires |before| == width * capacity && done <= width == |word| && 0 < width
  {
    if capacity == 0 then if done == 0 then file == [] else |file| == 1 && file[0] in word[..done]
    else
      && Overwritten(before, file, capacity, width, word, done)
      && |file| == |before| + (if done == width then 1 else 0)
      && (done == width ==> file[|before|] == word[width - 1])
  }

  // What such a row does: all of the first row but its first cell is lost.
  ghost predicate Overrun(before: Vector, file: Vector, capacity: nat, width: nat, word: Vector)
    requires |before| == width * capacity && width == |word| && 0 < width
  {
    Overrunning(before, file, capacity, width, word, width)
  }

  // A full store of one row of zeros that gets a row of ones: its row keeps only its first cell, and
  // the last of the ones is past the end.
  lemma OneRowOverrun(width: nat, file: Vector)
    requires 1 < width && Overrun(Zeros(width), file, 1, width, Ones(width))
    ensures file == [0] + Ones(width) && StoreRow(file[..width], 1, width, 0) != Zeros(width)
  {
    var before := Zeros(width);
    assert file[|before|] == 1;
    forall p | 0 <= p < width ensures file[p] == if p == 0 then 0 else 1 {
      assert Cell(file[..width], 1, width, 0, p) == file[..width][p];
      assert Cell(before, 1, width, 0, p) == before[p];
    }
    assert StoreRow(file[..width], 1, width, 0)[1] == file[..width][1];
  }

  function Ones(n: nat): (v: Vector)
    ensures |v| == n
  {
    seq(n, _ => 1)
  }

  // One cell of each column, at the same distance from the column's start.
  method WriteCells(before: Vector, capacity: nat, target: nat, word: Vector) returns (file: Vector)
    requires |before| == |word| * capacity && target <= capacity && 0 < |word|
    ensures target < capacity ==> RowWritten(before, file, capacity, |word|, target, word, |word|)
    ensures target == capacity ==> Overrun(before, file, capacity, |word|, word)
  {
    var width := |word|;
    file := before;
    NothingWritten(before, capacity, width, target, word);
    hide RowWritten, Overrunning;
    for i := 0 to width
      invariant target < capacity ==> RowWritten(before, file, capacity, width, target, word, i)
      invariant target == capacity ==> Overrunning(before, file, capacity, width, word, i)
    {
      if target < capacity {
        WriteStep(before, file, capacity, width, target, word, i);
      } else {
        OverrunStep(before, file, capacity, width, word, i);
      }
      file := WriteAt(file, i * capacity + target, word[i]);
    }
  }

  lemma NothingWritten(before: Vector, capacity: nat, width: nat, target: nat, word: Vector)
    requires |before| == width * capacity && width == |word| && 0 < width
    ensures RowWritten(before, before, capacity, width, target, word, 0)
    ensures Overrunning(before, before, capacity, width, word, 0)
  {
    assert before[..|before|] == before;
  }

  lemma WriteStep(before: Vector, file: Vector, capacity: nat, width: nat, target: nat, word: Vector, i: nat)
    requires |before| == width * capacity && i < width == |word| && target < capacity
    requires RowWritten(before, file, capacity, width, target, word, i)
    ensures 0 <= i * capacity && i * capacity + target < |file|
    ensures RowWritten(before, file[i * capacity + target := word[i]], capacity, width, target, word, i + 1)
  {
    WriteCell(file, capacity, width, target, i, word[i]);
    var file' := file[i * capacity + target := word[i]];
    forall r, c | 0 <= r < capacity && 0 <= c < width
      ensures Cell(file', capacity, width, r, c)
           == if r == target && c < i + 1 then word[c] else Cell(before, capacity, width, r, c)
    {
      assert Cell(file', capacity, width, r, c)
          == if r == target && c == i then word[i] else Cell(file, capacity, width, r, c);
    }
  }

  lemma OverrunStep(before: Vector, file: Vector, capacity: nat, width: nat, word: Vector, i: nat)
    requires |before| == width * capacity && i < width == |word|
    requires Overrunning(before, file, capacity, width, word, i)
    ensures 0 <= i * capacity && i * capacity + capacity <= |file|
    ensures Overrunning(before, WriteAt(file, i * capacity + capacity, word[i]), capacity, width, word, i + 1)
  {
    MulLe(0, i, capacity);
    MulLe(i + 1, width, capacity);
    MulDistributes(i, 1, capacity);
    if capacity > 0 {
      if i + 1 < width {
        MulLe(i + 2, width, capacity);
        MulDistributes(i, 2, capacity);
      }
      OverwriteStep(before, file, capacity, width, word, i);
    }
  }

  lemma OverwriteStep(before: Vector, file: Vector, capacity: nat, width: nat, word: Vector, i: nat)
    requires |before| == width * capacity && i < width == |word| && 0 < capacity
    requires Overwritten(before, file, capacity, width, word, i) && |file| == |before|
    requires 0 <= i * capacity && i * capacity + capacity <= |before|
    ensures Overwritten(before, WriteAt(file, i * capacity + capacity, word[i]), capacity, width, word, i + 1)
  {
    var at := i * capacity + capacity;
    var after := WriteAt(file, at, word[i]);
    MulDistributes(i, 1, capacity);
    assert file[..|before|] == file;
    forall r, c | 0 <= r < capacity && 0 <= c < width
      ensures Cell(after[..|before|], capacity, width, r, c)
           == if r == 0 && 0 < c <= i + 1 then word[c - 1] else Cell(before, capacity, width, r, c)
    {
      CellInRange(width, capacity, c, r);
      if c * capacity + r == at {
        CellUnique(capacity, i + 1, 0, c, r);
      } else {
        assert Cell(after[..|before|], capacity, width, r, c) == Cell(file[..|before|], capacity, width, r, c);
      }
    }
  }

  lemma RowPut(before: Vector, file: Vector, capacity: nat, width: nat, target: nat, word: Vector, rows: nat)
    requires |before| == width * capacity && width == |word| && target <= rows <= capacity && target < capacity
    requires RowWritten(before, file, capacity, width, target, word, width)
    ensures StoreRows(file, capacity, width, if target == rows then rows + 1 else rows)
         == PutRow(StoreRows(before, capacity, width, rows), target, word)
  {
    var n := if target == rows then rows + 1 else rows;
    forall r | 0 <= r < n
      ensures StoreRows(file, capacity, width, n)[r]
           == PutRow(StoreRows(before, capacity, width, rows), target, word)[r]
    {
      if r == target {
        assert StoreRow(file, capacity, width, r) == word;
      } else {
        assert StoreRow(file, capacity, width, r) == StoreRow(before, capacity, width, r);
      }
    }
  }

  datatype RowWriting = Written | NoSuchRow | BytesOverflow

  class EncodedFileReader {
    const codec: Codec
    var file: Vector
    var rowsWritten: nat
    var rowCapacity: nat

    ghost predicate Valid()
      reads this
    {
      |file| == codec.enc.nCols * rowCapacity && rowsWritten <= rowCapacity
    }

    ghost function Rows(): (rows: seq<Vector>)
      requires Valid()
      reads this
      ensures |rows| == rowsWritten && Rectangular(rows, codec.enc.nCols)
    {
      StoreRows(file, rowCapacity, codec.enc.nCols, rowsWritten)
    }

    constructor (codec: Codec, file: Vector, rowsWritten: nat, rowCapacity: nat)
      requires |file| == codec.enc.nCols * rowCapacity && rowsWritten <= rowCapacity
      ensures Valid() && this.codec == codec && this.file == file
      ensures this.rowsWritten == rowsWritten && this.rowCapacity == rowCapacity
    {
      this.codec, this.file, this.rowsWritten, this.rowCapacity := codec, file, rowsWritten, rowCapacity;
    }

    // One cell of each column; the last read passes the end of the file when there is no such row.
    method GetEncodedRow(target: nat) returns (row: Option<Vector>)
      requires Valid()
      ensures row == if target < rowCapacity then Some(StoreRow(file, rowCapacity, codec.enc.nCols, target)) else None
    {
      var width := codec.enc.nCols;
      var values: Vector := [];
      for i := 0 to width
        invariant target < rowCapacity ==> values == StoreRow(file, rowCapacity, width, target)[..i]
        invariant rowCapacity <= target ==> i < width
      {
        ReadPosition(i, width, rowCapacity, target);
        var position := i * rowCapacity + target;
        if position >= |file| {
          return None;
        }
        values := values + [file[position]];
      }
      assert values == StoreRow(file, rowCapacity, width, target);
      row := Some(values);
    }

    // A row appended to a full store goes over the first cells of the columns after the first, and
    // past the end of the file.
    method ReplaceEncodedRow(target: nat, word: Vector) returns (ok: bool)
      requires Valid() && |word| == codec.enc.nCols
      modifies this
      ensures rowCapacity == old(rowCapacity) && (ok <==> target <= old(rowsWritten))
      ensures ok && target < rowCapacity ==> Valid() && Rows() == PutRow(old(Rows()), target, word)
      ensures ok && target == rowCapacity ==> !Valid() && rowsWritten == old(rowsWritten) + 1
      ensures ok && target == rowCapacity ==> Overrun(old(file), file, rowCapacity, codec.enc.nCols, word)
      ensures !ok ==> unchanged(this)
    {
      if target > rowsWritten {
        return false;
      }
      ghost var before := file;
      file := WriteCells(file, rowCapacity, target, word);
      if target == rowsWritten {
        rowsWritten := rowsWritten + 1;
      }
      if target < rowCapacity {
        RowPut(before, file, rowCapacity, codec.enc.nCols, target, word, old(rowsWritten));
      }
      ok := true;
    }

    method GetEncodedColumn(column: nat) returns (values: Option<Vector>)
      requires Valid()
      ensures column < codec.enc.nCols ==> values == Some(ColumnOf(Rows(), codec.enc.nCols, column))
      ensures codec.enc.nCols <= column ==> values == if rowsWritten == 0 then Some([]) else None
    {
      var start := column * rowCapacity;
      MulLe(0, column, rowCapacity);
      if column < codec.enc.nCols {
        StoreColumn(file, rowCapacity, codec.enc.nCols, rowsWritten, column);
      } else {
        MulLe(codec.enc.nCols, column, rowCapacity);
      }
      if rowsWritten == 0 {
        return Some([]);
      }
      if start + rowsWritten > |file| {
        return None;
      }
      values := Some(file[start..start + rowsWritten]);
    }

    // Rehashes every column of the store.
    method ProcessToMerkleTree() returns (t: Option<MerkleTree>)
      requires Valid()
      ensures t == TreeOf(RowLeaves(Rows(), codec.enc.nCols)) && t.Some?
    {
      var width := codec.enc.nCols;
      ghost var leaves := RowLeaves(Rows(), width);
      var digests: seq<Digest> := [];
      for i := 0 to width
        invariant digests == leaves[..i]
      {
        var column := GetEncodedColumn(i);
        assert column.Some?;
        var digest := [Block(DefaultDigest())];
        for k := 0 to |column.value|
          invariant digest == ColumnState(column.value[..k])
        {
          ElementsPush(column.value[..k], column.value[k]);
          assert column.value[..k + 1] == column.value[..k] + [column.value[k]];
          digest := digest + [Element(column.value[k])];
        }
        assert column.value[..|column.value|] == column.value;
        digests := digests + [HASH(digest)];
      }
      assert digests == leaves;
      t := New(digests);
    }

    // Grows every column in place, from the last to the first. With a smaller capacity the buffer for
    // the new columns is too short to read an old one into: the file has been cut off by then.
    method SetNewCapacity(newCapacity: nat) returns (o: Resizing)
      requires Valid()
      modifies this
      ensures o == if newCapacity < old(rowsWritten) then Destructive
                   else if newCapacity < old(rowCapacity) then BuffersMisfit else Resized
      ensures o == Destructive ==> unchanged(this)
      ensures o == BuffersMisfit ==> file == Resize(old(file), codec.enc.nCols * newCapacity) && !Valid()
      ensures o == BuffersMisfit ==> unchanged(this`rowsWritten, this`rowCapacity)
      ensures o == Resized ==> Valid() && rowCapacity == newCapacity && rowsWritten == old(rowsWritten)
      ensures o == Resized ==> Rows() == old(Rows())
      ensures o == Resized ==> forall r, c :: 0 <= r < newCapacity && 0 <= c < codec.enc.nCols ==>
        Cell(file, newCapacity, codec.enc.nCols, r, c)
        == if r < old(rowCapacity) then Cell(old(file), old(rowCapacity), codec.enc.nCols, r, c) else 0
    {
      if newCapacity < rowsWritten {
        return Destructive;
      }
      var width, oldCapacity := codec.enc.nCols, rowCapacity;
      ghost var before := file;
      file := Resize(file, width * newCapacity);
      var buffer := Zeros(newCapacity);
      if |buffer| < oldCapacity {
        GrownLength(width, newCapacity, oldCapacity);
        return BuffersMisfit;
      }
      GrownLength(width, oldCapacity, newCapacity);
      for c := width downto 0
        invariant |file| == width * newCapacity && |buffer| == newCapacity
        invariant rowsWritten == old(rowsWritten) && rowCapacity == oldCapacity
        invariant buffer[oldCapacity..] == Zeros(newCapacity - oldCapacity)
        invariant 0 <= c * oldCapacity <= |before| <= |file| && file[..c * oldCapacity] == before[..c * oldCapacity]
        invariant MovedFrom(before, oldCapacity, file, newCapacity, width, c)
      {
        ColumnMove(c, width, oldCapacity, newCapacity);
        var oldStart, newStart := c * oldCapacity, c * newCapacity;
        ghost var wide := file;
        assert file[oldStart..oldStart + oldCapacity] == before[oldStart..oldStart + oldCapacity];
        buffer := file[oldStart..oldStart + oldCapacity] + buffer[oldCapacity..];
        file := file[..newStart] + buffer + file[newStart + newCapacity..];
        MoveColumn(before, oldCapacity, wide, file, newCapacity, width, c, buffer);
        assert file[..oldStart] == wide[..oldStart];
      }
      rowCapacity := newCapacity;
      SameRows(before, oldCapacity, file, newCapacity, width, rowsWritten);
      o := Resized;
    }

    // The bytes may fill a whole codeword; the length of the padding goes below zero for more.
    method ReplaceRowWithDecodedBytes(target: nat, bytes: Bytes) returns (o: RowWriting)
      requires Valid()
      modifies this
      ensures rowCapacity == old(rowCapacity)
      ensures o == if codec.enc.nCols < |FromBytes(bytes)| then BytesOverflow
                   else if old(rowsWritten) < target then NoSuchRow else Written
      ensures o == Written && target < rowCapacity ==>
        Valid() && Rows() == PutRow(old(Rows()), target, EncodeRow(codec, FromBytes(bytes)))
      ensures o == Written && target == rowCapacity ==> !Valid() && rowsWritten == old(rowsWritten) + 1
      ensures o == Written && target == rowCapacity ==>
        Overrun(old(file), file, rowCapacity, codec.enc.nCols, EncodeRow(codec, FromBytes(bytes)))
      ensures o != Written ==> unchanged(this)
    {
      var message := FromBytes(bytes);
      var padding := codec.enc.nCols - |message|;
      if padding < 0 {
        return BytesOverflow;
      }
      var word := codec.enc.encode(message + Zeros(padding));
      assert Resize(message, codec.enc.nCols) == message + Zeros(padding);
      assert word == Some(EncodeRow(codec, message));
      var ok := ReplaceEncodedRow(target, word.value);
      o := if ok then Written else NoSuchRow;
    }

    method GetUnencodedRowBytes(target: nat) returns (bytes: Option<Bytes>)
      requires Valid()
      ensures bytes == if target < rowsWritten then Some(DecodedRow(codec, Rows()[target])) else None
    {
      if target >= rowsWritten {
        return None;
      }
      var row := GetEncodedRow(target);
      assert row.Some?;
      bytes := Some(ToBytes(DecodeRow(codec, row.value)));
    }

    // The part of an edit that falls in one row.
    method EditRow(row: nat, currentByte: nat, endByte: nat, data: Bytes, bytesWritten: nat, ghost rowStart: nat)
      returns (original: Bytes)
      requires Valid() && row < rowsWritten && rowStart == row * RowBytes(codec)
      requires rowStart <= currentByte < endByte && currentByte < rowStart + RowBytes(codec)
      requires bytesWritten + endByte - currentByte == |data|
      modifies this
      ensures Valid() && rowCapacity == old(rowCapacity) && rowsWritten == old(rowsWritten)
      ensures |original| == PieceSize(rowStart + RowBytes(codec), currentByte, endByte)
      ensures EditedRow(codec, old(Rows()), Rows(), row, currentByte - rowStart,
                        data[bytesWritten..bytesWritten + |original|], original)
    {
      hide StoreRows, EncodeBytes, DecodedRow;
      var rowBytes := RowBytes(codec);
      var startOfRow, endOfRow := row * rowBytes, (row + 1) * rowBytes;
      var bytes := GetUnencodedRowBytes(row);
      assert bytes.Some?;
      var from := (if currentByte >= startOfRow then currentByte else startOfRow) % rowBytes;
      var to := (if endByte <= endOfRow then endByte else endOfRow) % rowBytes;
      to := if to == 0 then rowBytes else to;
      EditWindow(row, rowBytes, currentByte, endByte);
      original := bytes.value[from..to];
      var edited := bytes.value[..from] + data[bytesWritten..bytesWritten + to - from] + bytes.value[to..];
      EncodedMessage(codec, edited);
      var written := ReplaceRowWithDecodedBytes(row, edited);
    }

    // The rows an edit touches, counted in elements first.
    method EditRange(start: nat, size: nat) returns (startRow: nat, endRow: nat)
      ensures startRow == RowOf(codec, start) && endRow == RowsNeeded(codec, start + size)
    {
      var startElement, endElement := start / CAPACITY, CeilDiv(start + size, CAPACITY);
      NestedDiv(start, CAPACITY, codec.enc.nPerRow);
      NestedCeilDiv(start + size, CAPACITY, codec.enc.nPerRow);
      startRow, endRow := startElement / codec.enc.nPerRow, CeilDiv(endElement, codec.enc.nPerRow);
    }

    // The next row of an edit that has come to it.
    method EditNextRow(start: nat, data: Bytes, bytesWritten: nat, row: nat,
                       ghost before: seq<Vector>, ghost now: seq<Vector>, ghost original: Bytes)
      returns (piece: Bytes, ghost after: seq<Vector>)
      requires Valid() && now == Rows() && row < rowsWritten && bytesWritten <= |data|
      requires 0 < |data| || start % RowBytes(codec) == 0
      requires RowOf(codec, start) <= row < RowsNeeded(codec, start + |data|)
      requires start + bytesWritten == EditReach(start, start + |data|, RowBytes(codec), row)
      requires Rectangular(before, codec.enc.nCols) && Rectangular(now, codec.enc.nCols)
      requires EditProgress(codec, before, now, start, data, bytesWritten, RowOf(codec, start), row, original)
      modifies this
      ensures Valid() && after == Rows() && rowCapacity == old(rowCapacity) && rowsWritten == old(rowsWritten)
      ensures bytesWritten + |piece| <= |data|
      ensures start + bytesWritten + |piece| == EditReach(start, start + |data|, RowBytes(codec), row + 1)
      ensures EditProgress(codec, before, after, start, data, bytesWritten + |piece|, RowOf(codec, start), row + 1,
                           original + piece)
    {
      hide RowBytes, Cell, StoreRows, StoreRow, EditedRow;
      ghost var rowStart, from := row * RowBytes(codec), RowOf(codec, start);
      RowReached(start, start + |data|, RowBytes(codec), from, row, RowsNeeded(codec, start + |data|));
      piece := EditRow(row, start + bytesWritten, start + |data|, data, bytesWritten, rowStart);
      after := Rows();
      EditProgresses(codec, before, now, after, start, data, bytesWritten, from, row, original, piece,
                     rowStart, start + bytesWritten - rowStart);
    }

    // Replaces the bytes of the decoded file from `start` on. When a row is missing, the rows before it
    // are already edited. Each row starts with an assertion that something is left to write.
    method EditDecodedBytes(start: nat, data: Bytes) returns (reply: EditReply)
      requires Valid()
      modifies this
      ensures Valid() && rowCapacity == old(rowCapacity) && rowsWritten == old(rowsWritten)
      ensures reply.AssertionFailed? <==> |data| == 0 && start % RowBytes(codec) != 0
      ensures reply.AssertionFailed? ==> Rows() == old(Rows())
      ensures !reply.AssertionFailed? ==> EditOutcome(codec, old(Rows()), Rows(), start, data, reply)
    {
      hide RowBytes, Cell, StoreRows, StoreRow, EditProgress, EditOutcome, RowsNeeded;
      var startRow, endRow := EditRange(start, |data|);
      ghost var before, now := Rows(), Rows();
      ghost var proper := 0 < |data| || start % RowBytes(codec) == 0;
      EditSpan(codec, start, |data|);
      EmptyEditEntersLoop(codec, start);
      EditBegins(codec, before, start, data, startRow);
      var result: Bytes := [];
      var currentByte, bytesWritten := start, 0;
      for row := startRow to endRow
        invariant Valid() && now == Rows() && rowCapacity == old(rowCapacity) && rowsWritten == old(rowsWritten)
        invariant bytesWritten <= |data| && currentByte == start + bytesWritten
        invariant currentByte == EditReach(start, start + |data|, RowBytes(codec), row)
        invariant EditProgress(codec, before, now, start, data, bytesWritten, startRow, row, result)
        invariant proper || (row == startRow && now == before)
      {
        if proper {
          RowHasWork(codec, start, |data|, row);
        }
        if currentByte >= start + |data| {
          return AssertionFailed;
        }
        if row >= rowsWritten {
          EditStopped(codec, before, now, start, data, bytesWritten, row, result);
          return RowMissing;
        }
        var piece;
        piece, now := EditNextRow(start, data, bytesWritten, row, before, now, result);
        result := result + piece;
        bytesWritten := bytesWritten + |piece|;
        currentByte := currentByte + |piece|;
      }
      EditCompleted(codec, before, now, start, data, startRow, endRow, bytesWritten, result);
      reply := OldBytes(result);
    }
  }

  // Rows from..to are the encodings of what they decode to; the others are as they were.
  ghost predicate Reencoded(codec: Codec, before: seq<Vector>, now: seq<Vector>, from: nat, to: nat)
    requires Rectangular(now, codec.enc.nCols)
  {
    && |now| == |before|
    && forall r :: 0 <= r < |now| ==>
         now[r] == if from <= r < to then EncodeBytes(codec, DecodedRow(codec, now[r])) else before[r]
  }

  // What an edit does to the rows: the part of the data that fits is spliced into the decoded
  // bytes, and the rows it does not touch stay as they are. The old bytes if all of it fits.
  ghost predicate EditOutcome(codec: Codec, before: seq<Vector>, now: seq<Vector>, start: nat, data: Bytes,
                              reply: EditReply)
    requires Rectangular(before, codec.enc.nCols) && Rectangular(now, codec.enc.nCols)
  {
    var was := DecodedBytes(codec, before);
    var fit := Fitting(|was|, start, |data|);
    && DecodedBytes(codec, now) == Edited(was, start, data[..fit])
    && reply == (if fit == |data| then OldBytes(Piece(was, start, fit)) else RowMissing)
    && Reencoded(codec, before, now, RowOf(codec, start), RowsNeeded(codec, start + |data|))
  }

  // The same with the first `done` bytes written, into rows from..to.
  ghost predicate EditProgress(codec: Codec, before: seq<Vector>, now: seq<Vector>, start: nat, data: Bytes,
                               done: nat, from: nat, to: nat, original: Bytes)
    requires Rectangular(before, codec.enc.nCols) && Rectangular(now, codec.enc.nCols)
  {
    var was := DecodedBytes(codec, before);
    && done <= |data| && (done == 0 || start + done <= |was|)
    && DecodedBytes(codec, now) == Edited(was, start, data[..done])
    && original == Piece(was, start, done)
    && Reencoded(codec, before, now, from, to)
  }

  lemma EditBegins(codec: Codec, rows: seq<Vector>, start: nat, data: Bytes, from: nat)
    requires Rectangular(rows, codec.enc.nCols)
    ensures EditProgress(codec, rows, rows, start, data, 0, from, from, [])
  {
  }

  // One more piece, `at` bytes into the row that starts at rowStart.
  lemma EditProgresses(codec: Codec, before: seq<Vector>, current: seq<Vector>, now: seq<Vector>, start: nat,
                       data: Bytes, done: nat, from: nat, row: nat, original: Bytes, piece: Bytes,
                       rowStart: nat, at: nat)
    requires Rectangular(before, codec.enc.nCols) && Rectangular(current, codec.enc.nCols)
    requires Rectangular(now, codec.enc.nCols)
    requires EditProgress(codec, before, current, start, data, done, from, row, original)
    requires from <= row < |current| && rowStart == row * RowBytes(codec)
    requires 0 < |piece| && done + |piece| <= |data|
    requires rowStart + at == start + done && at + |piece| <= RowBytes(codec)
    requires EditedRow(codec, current, now, row, at, data[done..done + |piece|], piece)
    ensures EditProgress(codec, before, now, start, data, done + |piece|, from, row + 1, original + piece)
  {
    hide RowBytes, Reencoded, EncodeBytes, DecodedRow, DecodedBytes, Edited, Piece, Splice;
    var bytes := DecodedRow(codec, current[row]);
    DecodedBytesAt(codec, current, row);
    ReencodeOne(codec, before, current, from, row, Splice(bytes, at, data[done..done + |piece|]));
    EditStep(DecodedBytes(codec, before), start, data, done, |piece|, DecodedBytes(codec, current),
             rowStart, bytes, at);
  }

  // One row re-encoded with new bytes from `at` on, in place of `piece`.
  ghost predicate EditedRow(codec: Codec, current: seq<Vector>, now: seq<Vector>, row: nat, at: nat, data: Bytes,
                            piece: Bytes)
    requires Rectangular(current, codec.enc.nCols) && row < |current|
    requires |data| == |piece| && at + |piece| <= RowBytes(codec)
  {
    var bytes := DecodedRow(codec, current[row]);
    && piece == bytes[at..at + |piece|]
    && now == current[row := EncodeBytes(codec, Splice(bytes, at, data))]
  }

  // One more row re-encoded: its bytes are spliced into the decoded file.
  lemma ReencodeOne(codec: Codec, before: seq<Vector>, current: seq<Vector>, from: nat, row: nat, edited: Bytes)
    requires Rectangular(current, codec.enc.nCols) && from <= row < |current| && |edited| == RowBytes(codec)
    requires Reencoded(codec, before, current, from, row)
    ensures 0 <= row * RowBytes(codec) && row * RowBytes(codec) + RowBytes(codec) <= |DecodedBytes(codec, current)|
    ensures var now := current[row := EncodeBytes(codec, edited)];
      && Reencoded(codec, before, now, from, row + 1)
      && DecodedBytes(codec, now) == Splice(DecodedBytes(codec, current), row * RowBytes(codec), edited)
  {
    EncodedBytesDecode(codec, edited);
    DecodedBytesUpdate(codec, current, row, EncodeBytes(codec, edited));
  }

  // The rows end before the edit does.
  lemma EditStopped(codec: Codec, before: seq<Vector>, now: seq<Vector>, start: nat, data: Bytes, done: nat,
                    row: nat, original: Bytes)
    requires Rectangular(before, codec.enc.nCols) && Rectangular(now, codec.enc.nCols)
    requires EditProgress(codec, before, now, start, data, done, RowOf(codec, start), row, original)
    requires 0 < |data| || start % RowBytes(codec) == 0
    requires |now| <= row && RowOf(codec, start) <= row < RowsNeeded(codec, start + |data|)
    requires start + done == EditReach(start, start + |data|, RowBytes(codec), row)
    ensures EditOutcome(codec, before, now, start, data, RowMissing)
  {
    var was := DecodedBytes(codec, before);
    RowReached(start, start + |data|, RowBytes(codec), RowOf(codec, start), row, RowsNeeded(codec, start + |data|));
    MulLe(|now|, row, RowBytes(codec));
    assert |was| <= start + done;
    assert Fitting(|was|, start, |data|) == done;
  }

  lemma EditCompleted(codec: Codec, before: seq<Vector>, now: seq<Vector>, start: nat, data: Bytes,
                      from: nat, to: nat, done: nat, original: Bytes)
    requires Rectangular(before, codec.enc.nCols) && Rectangular(now, codec.enc.nCols)
    requires EditProgress(codec, before, now, start, data, done, from, to, original)
    requires from == RowOf(codec, start) && to == RowsNeeded(codec, start + |data|)
    requires start + done == EditReach(start, start + |data|, RowBytes(codec), to)
    ensures EditOutcome(codec, before, now, start, data, OldBytes(original))
  {
    CeilDivBounds(start + |data|, RowBytes(codec));
    assert done == |data|;
    assert Fitting(|DecodedBytes(codec, before)|, start, |data|) == |data|;
  }

  // How much of an edit is left in the row that ends at rowEnd.
  function PieceSize(rowEnd: nat, currentByte: nat, endByte: nat): (n: nat)
    requires currentByte < endByte && currentByte < rowEnd
    ensures 0 < n && currentByte + n <= rowEnd && currentByte + n <= endByte
  {
    (if endByte <= rowEnd then endByte else rowEnd) - currentByte
  }

  // Offsets within the row, as the remainders the source computes; an end at 0 means the row's end.
  lemma EditWindow(row: nat, rowBytes: nat, currentByte: nat, endByte: nat)
    requires 0 < rowBytes && 0 <= row * rowBytes <= currentByte < endByte && currentByte < (row + 1) * rowBytes
    ensures currentByte % rowBytes == currentByte - row * rowBytes
    ensures var end := if endByte <= (row + 1) * rowBytes then endByte else (row + 1) * rowBytes;
      (if end % rowBytes == 0 then rowBytes else end % rowBytes) == end - row * rowBytes
  {
    MulDistributes(row, 1, rowBytes);
    QuotientUnique(currentByte, rowBytes, row, currentByte - row * rowBytes);
    var end := if endByte <= (row + 1) * rowBytes then endByte else (row + 1) * rowBytes;
    if end == (row + 1) * rowBytes {
      QuotientUnique(end, rowBytes, row + 1, 0);
    } else {
      QuotientUnique(end, rowBytes, row, end - row * rowBytes);
    }
  }

  // v written at `start`, where nothing is written when v is empty.
  function Edited(was: Bytes, start: nat, v: Bytes): (now: Bytes)
    requires |v| == 0 || start + |v| <= |was|
    ensures |now| == |was|
  {
    if |v| == 0 then was else Splice(was, start, v)
  }

  // How far an edit has come when row r is next.
  function EditReach(start: nat, endByte: nat, rowBytes: nat, r: nat): int {
    if r * rowBytes <= start then start else if endByte <= r * rowBytes then endByte else r * rowBytes
  }

  lemma EditSpan(codec: Codec, start: nat, size: nat)
    ensures RowOf(codec, start) <= RowsNeeded(codec, start + size)
    ensures EditReach(start, start + size, RowBytes(codec), RowOf(codec, start)) == start
  {
  }

  // An empty edit off a row boundary still comes to a row, with nothing to write there.
  lemma EmptyEditEntersLoop(codec: Codec, start: nat)
    ensures RowOf(codec, start) < RowsNeeded(codec, start) <==> start % RowBytes(codec) != 0
  {
    hide RowBytes;
    var b, q := RowBytes(codec), RowOf(codec, start);
    QuotientUnique(start, b, q, start - q * b);
    if start % b == 0 {
      ExactCeilDiv(start, b, q);
    } else {
      MulDistributes(q, 1, b);
      CeilDivUnique(start, b, q + 1);
    }
  }

  // One byte past the start of the file, in any code whose rows hold two bytes or more.
  lemma EmptyEditFails(codec: Codec)
    requires 1 < RowBytes(codec)
    ensures 1 % RowBytes(codec) != 0 && RowOf(codec, 1) < RowsNeeded(codec, 1)
  {
    EmptyEditEntersLoop(codec, 1);
  }

  lemma ExactCeilDiv(x: nat, b: nat, q: nat)
    requires 0 < b && x % b == 0 && q * b <= x < q * b + b
    ensures CeilDiv(x, b) == q
  {
    QuotientUnique(x, b, q, x - q * b);
    QuotientUnique(x + b - 1, b, q, b - 1);
  }

  // A row between the first and the last of an edit still has something to write.
  lemma RowReached(start: nat, endByte: nat, rowBytes: nat, startRow: nat, row: nat, endRow: nat)
    requires 0 < rowBytes && start <= endByte && endRow == CeilDiv(endByte, rowBytes)
    requires startRow <= row < endRow && (start < endByte || start % rowBytes == 0)
    requires startRow * rowBytes <= start < startRow * rowBytes + rowBytes
    ensures 0 <= row * rowBytes <= EditReach(start, endByte, rowBytes, row) < endByte
    ensures EditReach(start, endByte, rowBytes, row) < row * rowBytes + rowBytes
    ensures row == startRow ==> EditReach(start, endByte, rowBytes, row) == start
    ensures startRow < row ==> start < row * rowBytes
    ensures EditReach(start, endByte, rowBytes, row + 1)
         == if endByte <= row * rowBytes + rowBytes then endByte else row * rowBytes + rowBytes
  {
    var at := row * rowBytes;
    assert 0 <= at < endByte && (row + 1) * rowBytes == at + rowBytes by {
      CeilDivBounds(endByte, rowBytes);
      MulLe(row, endRow - 1, rowBytes);
      MulLe(0, row, rowBytes);
      MulDistributes(row, 1, rowBytes);
    }
    if startRow < row {
      assert start < at by {
        MulDistributes(startRow, 1, rowBytes);
        MulLe(startRow + 1, row, rowBytes);
      }
    } else if start == endByte {
      ExactCeilDiv(start, rowBytes, startRow);
    }
  }

  lemma RowHasWork(codec: Codec, start: nat, size: nat, row: nat)
    requires 0 < size || start % RowBytes(codec) == 0
    requires RowOf(codec, start) <= row < RowsNeeded(codec, start + size)
    ensures EditReach(start, start + size, RowBytes(codec), row) < start + size
  {
    RowReached(start, start + size, RowBytes(codec), RowOf(codec, start), row, RowsNeeded(codec, start + size));
  }

  // One more piece of the edit, `at` bytes into its row, written into a file that already holds
  // the part before it.
  lemma EditStep(was: Bytes, start: nat, data: Bytes, done: nat, n: nat, decoded: Bytes,
                 rowStart: nat, row: Bytes, at: nat)
    requires 0 < n && done + n <= |data| && (done == 0 || start + done <= |was|)
    requires decoded == Edited(was, start, data[..done])
    requires rowStart + |row| <= |decoded| && row == decoded[rowStart..rowStart + |row|]
    requires rowStart + at == start + done && at + n <= |row|
    ensures start + done + n <= |was|
    ensures Piece(was, start, done) + row[at..at + n] == Piece(was, start, done + n)
    ensures Splice(decoded, rowStart, Splice(row, at, data[done..done + n]))
         == Edited(was, start, data[..done + n])
  {
    UntouchedTail(was, start, data[..done], n);
    SliceOfSlice(decoded, rowStart, row, at, n);
    JoinPieces(was, start, done, n);
    SpliceNested(decoded, rowStart, row, at, data[done..done + n]);
    SpliceTwice(was, start, data, done, n);
  }

  lemma JoinPieces(was: Bytes, start: nat, done: nat, n: nat)
    requires 0 < n && start + done + n <= |was|
    ensures Piece(was, start, done) + was[start + done..start + done + n] == Piece(was, start, done + n)
  {
  }

  lemma UntouchedTail(was: Bytes, start: nat, v: Bytes, n: nat)
    requires start + |v| + n <= |was|
    ensures Edited(was, start, v)[start + |v|..start + |v| + n] == was[start + |v|..start + |v| + n]
  {
  }

  lemma SpliceNested(s: Bytes, start: nat, row: Bytes, at: nat, v: Bytes)
    requires start + |row| <= |s| && row == s[start..start + |row|] && at + |v| <= |row|
    ensures Splice(s, start, Splice(row, at, v)) == Splice(s, start + at, v)
  {
  }

  lemma SpliceTwice(was: Bytes, start: nat, data: Bytes, done: nat, n: nat)
    requires 0 < n && done + n <= |data| && start + done + n <= |was|
    ensures Splice(Edited(was, start, data[..done]), start + done, data[done..done + n])
         == Edited(was, start, data[..done + n])
  {
  }

  // ---------- growing ----------

  lemma GrownLength(width: nat, oldCapacity: nat, newCapacity: nat)
    requires oldCapacity <= newCapacity
    ensures 0 <= width * oldCapacity <= width * newCapacity
    ensures 0 < width && oldCapacity < newCapacity ==> width * oldCapacity < width * newCapacity
  {
  }

  // The columns from `first` on are in their final place, with zeros in the new rows.
  ghost predicate MovedFrom(before: Vector, oldCapacity: nat, file: Vector, newCapacity: nat, width: nat, first: nat)
    requires |before| == width * oldCapacity && |file| == width * newCapacity && oldCapacity <= newCapacity
  {
    forall r, c :: 0 <= r < newCapacity && first <= c < width ==>
      Cell(file, newCapacity, width, r, c) == if r < oldCapacity then Cell(before, oldCapacity, width, r, c) else 0
  }

  // The source of column c ends before the target of column c + 1 begins.
  lemma ColumnMove(c: nat, width: nat, oldCapacity: nat, newCapacity: nat)
    requires c < width && oldCapacity <= newCapacity
    ensures 0 <= c * oldCapacity <= c * newCapacity
    ensures c * oldCapacity + oldCapacity == (c + 1) * oldCapacity <= width * oldCapacity
    ensures c * newCapacity + newCapacity == (c + 1) * newCapacity <= width * newCapacity
  {
    MulLe(c + 1, width, oldCapacity);
    MulLe(c + 1, width, newCapacity);
    MulLe(0, c, oldCapacity);
    MulDistributes(c, 1, oldCapacity);
    MulDistributes(c, 1, newCapacity);
    MulCommutes(c, oldCapacity);
    MulCommutes(c, newCapacity);
    MulLe(oldCapacity, newCapacity, c);
  }

  lemma MoveColumn(before: Vector, oldCapacity: nat, wide: Vector, file: Vector, newCapacity: nat, width: nat,
                   c: nat, buffer: Vector)
    requires |before| == width * oldCapacity && |wide| == |file| == width * newCapacity && oldCapacity <= newCapacity
    requires c < width && |buffer| == newCapacity
    requires 0 <= c * oldCapacity && c * oldCapacity + oldCapacity <= |before|
    requires 0 <= c * newCapacity && c * newCapacity + newCapacity <= |wide|
    requires buffer == before[c * oldCapacity..c * oldCapacity + oldCapacity] + Zeros(newCapacity - oldCapacity)
    requires file == wide[..c * newCapacity] + buffer + wide[c * newCapacity + newCapacity..]
    requires MovedFrom(before, oldCapacity, wide, newCapacity, width, c + 1)
    ensures MovedFrom(before, oldCapacity, file, newCapacity, width, c)
  {
    forall r, c' | 0 <= r < newCapacity && c <= c' < width
      ensures Cell(file, newCapacity, width, r, c')
           == if r < oldCapacity then Cell(before, oldCapacity, width, r, c') else 0
    {
      CellInRange(width, newCapacity, c', r);
      if c' == c {
        assert file[c * newCapacity + r] == buffer[r];
      } else {
        MulLe(c + 1, c', newCapacity);
        MulDistributes(c, 1, newCapacity);
        assert file[c' * newCapacity + r] == wide[c' * newCapacity + r];
        assert Cell(file, newCapacity, width, r, c') == Cell(wide, newCapacity, width, r, c');
      }
    }
  }

  lemma SameRows(before: Vector, oldCapacity: nat, file: Vector, newCapacity: nat, width: nat, n: nat)
    requires |before| == width * oldCapacity && |file| == width * newCapacity && n <= oldCapacity <= newCapacity
    requires MovedFrom(before, oldCapacity, file, newCapacity, width, 0)
    ensures StoreRows(file, newCapacity, width, n) == StoreRows(before, oldCapacity, width, n)
  {
    forall r | 0 <= r < n
      ensures StoreRows(file, newCapacity, width, n)[r] == StoreRows(before, oldCapacity, width, n)[r]
    {
      assert StoreRow(file, newCapacity, width, r) == StoreRow(before, oldCapacity, width, r);
    }
  }
}
