/** Writing the store of encoded rows from a stream of bytes, buffering rows between writes. */
module EncodedFileWriters {
  import opened Arithmetic
  import opened Vectors
  import opened Bytes
  import opened Slices
  import opened DataFields
  import opened Options
  import opened Hashing
  import opened MerkleTrees
  import opened EncodedFiles
  import opened StoreGrowth
  import opened ColumnDigests
  import opened RowStreams

  // Rows kept in memory before they are written, at most.
  const MAX_BUFFERED_ROWS: nat := 1024

  function BufferSize(numRows: nat): (n: nat)
    ensures n <= 1024 && n <= numRows && (n == 1024 || n == numRows)
  {
    if MAX_BUFFERED_ROWS <= numRows then MAX_BUFFERED_ROWS else numRows
  }

  // How many whole rows some bytes make up.
  function WholeRows(c: Codec, len: nat): (k: nat)
    ensures k * RowBytes(c) <= len < k * RowBytes(c) + RowBytes(c)
  {
    RowOf(c, len)
  }

  // What a writer has come to after some rows: it works below its capacity, has grown wrongly at it,
  // and has failed an assertion past it.
  datatype Outcome = Kept | Overgrew | AssertionFailed

  function OutcomeOf(rows: nat, capacity: nat): Outcome {
    if rows == 0 || rows < capacity then Kept else if rows == capacity then Overgrew else AssertionFailed
  }

  class EncodedFileWriter {
    const codec: Codec
    const columnDigestAccumulator: ColumnDigestAccumulator
    const outgoingFieldBufferSize: nat
    const rowCapacity: nat
    var incomingByteBuffer: Bytes
    var outgoingFieldBuffer: seq<Vector>
    var bytesReceived: nat
    var bytesWritten: nat
    var rowsProcessed: nat
    var rowsWritten: nat
    var file: Vector
    ghost var taken: Bytes  // the bytes encoded so far

    // The rows encoded so far.
    ghost function Rows(): seq<Vector>
      reads this, columnDigestAccumulator
    {
      columnDigestAccumulator.rows
    }

    ghost function Received(): Bytes
      reads this
    {
      taken + incomingByteBuffer
    }

    // The first rowsWritten rows are in the file, the others in the column buffers.
    ghost predicate Stored(rows: seq<Vector>)
      reads this
      requires Rectangular(rows, codec.enc.nCols)
    {
      && |file| == codec.enc.nCols * rowCapacity && rowsWritten <= rowCapacity
      && rowsWritten <= |rows|
      && StoreRows(file, rowCapacity, codec.enc.nCols, rowsWritten) == rows[..rowsWritten]
      && outgoingFieldBuffer == Columns(rows[rowsWritten..], codec.enc.nCols)
    }

    // The bytes taken are hashed row by row.
    ghost predicate Consuming()
      reads this, columnDigestAccumulator
    {
      && columnDigestAccumulator.Valid() && columnDigestAccumulator.width == codec.enc.nCols
      && |Rows()| == rowsProcessed
      && Rows() == FileRows(codec, taken)
      && bytesReceived == |taken| + |incomingByteBuffer| && bytesWritten == |taken|
      && (0 < rowCapacity ==> 0 < outgoingFieldBufferSize)
    }

    ghost predicate Valid()
      reads this, columnDigestAccumulator
    {
      Consuming() && Stored(Rows())
    }

    // No row has been cut short, and rows have been written by the bufferful.
    ghost predicate Streaming()
      reads this, columnDigestAccumulator
    {
      && Valid() && OutcomeOf(rowsProcessed, rowCapacity) == Kept
      && |taken| == rowsProcessed * RowBytes(codec)
      && (if outgoingFieldBufferSize == 0 then rowsProcessed == 0
          else rowsWritten == rowsProcessed - rowsProcessed % outgoingFieldBufferSize)
    }

    // The rows have reached the capacity: growing has put zeros over columns that held them.
    ghost predicate Overgrown()
      reads this, columnDigestAccumulator
    {
      && Consuming()
      && rowsProcessed == rowsWritten == rowCapacity > 0
      && outgoingFieldBuffer == Columns([], codec.enc.nCols)
      && FirstColumnLeft(Rows(), codec.enc.nCols, rowCapacity, file)
    }

    // No row has been cut short.
    ghost predicate InStep()
      reads this, columnDigestAccumulator
    {
      Streaming() || (Overgrown() && |taken| == rowsProcessed * RowBytes(codec))
    }

    constructor (codec: Codec, originalFileSize: nat)
      ensures Streaming() && this.codec == codec && fresh(columnDigestAccumulator)
      ensures Received() == [] && rowsWritten == 0
      ensures rowCapacity == 2 * RowsNeeded(codec, originalFileSize)
      ensures outgoingFieldBufferSize == BufferSize(RowsNeeded(codec, originalFileSize))
    {
      hide RowBytes, RowsNeeded, FileRows, DigestStates, Cell, CeilDiv, EncodeBytes;
      var numRows := CeilDiv(CeilDiv(originalFileSize, CAPACITY), codec.enc.nPerRow);
      RowsOfElements(codec, originalFileSize);
      NoRows(codec);
      this.codec := codec;
      columnDigestAccumulator := new ColumnDigestAccumulator(codec.enc.nCols);
      rowCapacity := numRows * 2;
      outgoingFieldBufferSize := if MAX_BUFFERED_ROWS <= numRows then MAX_BUFFERED_ROWS else numRows;
      MulLe(0, numRows * 2, codec.enc.nCols);
      MulCommutes(numRows * 2, codec.enc.nCols);
      file := Zeros(numRows * 2 * codec.enc.nCols);
      outgoingFieldBuffer := seq(codec.enc.nCols, _ => []);
      incomingByteBuffer, taken := [], [];
      bytesReceived, bytesWritten, rowsProcessed, rowsWritten := 0, 0, 0, 0;
      new;
      assert outgoingFieldBuffer == Columns([], codec.enc.nCols);
    }

    // Takes the bytes of one row off the buffer and encodes them.
    method EncodeCurrentRow() returns (word: Vector)
      requires incomingByteBuffer != []
      modifies this`incomingByteBuffer, this`bytesWritten, this`taken
      ensures var n := RowChunk(codec, |old(incomingByteBuffer)|);
        && word == EncodeBytes(codec, old(incomingByteBuffer)[..n])
        && taken == old(taken) + old(incomingByteBuffer)[..n]
        && incomingByteBuffer == old(incomingByteBuffer)[n..]
        && bytesWritten == old(bytesWritten) + n
    {
      var drainTarget := RowChunk(codec, |incomingByteBuffer|);
      bytesWritten := bytesWritten + drainTarget;
      var drained := incomingByteBuffer[..drainTarget];
      incomingByteBuffer := incomingByteBuffer[drainTarget..];
      taken := taken + drained;
      var message := CollectElements(drained);
      ShortMessage(codec, drained);
      assert Resize(message, codec.enc.nCols) == message + Zeros(codec.enc.nCols - |message|);
      var encoded := codec.enc.encode(message + Zeros(codec.enc.nCols - |message|));
      assert encoded == Some(EncodeBytes(codec, drained));
      word := encoded.value;
    }

    // The next row, encoded and hashed.
    method HashCurrentRow() returns (word: Vector)
      requires Consuming() && |taken| == rowsProcessed * RowBytes(codec) && incomingByteBuffer != []
      modifies this`incomingByteBuffer, this`bytesWritten, this`taken, columnDigestAccumulator
      ensures columnDigestAccumulator.Valid() && |word| == codec.enc.nCols
      ensures Rows() == old(Rows()) + [word] == FileRows(codec, taken)
      ensures var n := RowChunk(codec, |old(incomingByteBuffer)|);
        && |taken| == |old(taken)| + n && incomingByteBuffer == old(incomingByteBuffer)[n..]
      ensures Received() == old(Received()) && bytesWritten == |taken|
    {
      hide RowBytes, FileRows, DigestStates, EncodeBytes;
      FileRowsConcat(codec, taken, incomingByteBuffer[..RowChunk(codec, |incomingByteBuffer|)], rowsProcessed);
      SingleRow(codec, incomingByteBuffer[..RowChunk(codec, |incomingByteBuffer|)]);
      word := EncodeCurrentRow();
      var ok := columnDigestAccumulator.Update(word);
    }

    // Moves one run for each row written, where the file has one run for each column.
    method SetNewCapacity(newCapacity: nat) returns (o: Resizing)
      requires |file| == codec.enc.nCols * rowCapacity
      modifies this`file
      ensures o == if newCapacity < rowsWritten then Destructive
                   else if newCapacity < rowCapacity then BuffersMisfit else Resized
      ensures o == Destructive ==> unchanged(this)
      ensures o == BuffersMisfit ==> file == Resize(old(file), codec.enc.nCols * newCapacity)
      ensures o == Resized && 0 < rowsWritten ==> newCapacity <= |file|
      ensures o == Resized && 0 < rowsWritten ==> file[rowCapacity..newCapacity] == Zeros(newCapacity - rowCapacity)
      ensures o == Resized && 2 * rowCapacity <= newCapacity ==>
        RunsMoved(Resize(old(file), codec.enc.nCols * newCapacity), file, rowCapacity, rowsWritten * newCapacity)
    {
      if newCapacity < rowsWritten {
        return Destructive;
      }
      MulLe(1, codec.enc.nCols, newCapacity);
      file := Resize(file, codec.enc.nCols * newCapacity);
      if newCapacity < rowCapacity {
        return BuffersMisfit;
      }
      file := MoveRuns(file, rowCapacity, newCapacity, rowsWritten);
      o := Resized;
    }

    // Appends a row to the column buffers; writes them out when they are full or on request. Past the
    // capacity the row is written as well, one cell after each column, before the assertion fails.
    method BufferedWriteRow(word: Vector, finalize: bool, ghost rows: seq<Vector>) returns (o: Outcome)
      requires |word| == codec.enc.nCols && Rectangular(rows, codec.enc.nCols)
      requires (OutcomeOf(|rows|, rowCapacity) == Kept && Stored(rows))
        || (|rows| == rowsWritten == rowCapacity > 0 && outgoingFieldBuffer == Columns([], codec.enc.nCols)
            && FirstColumnLeft(rows, codec.enc.nCols, rowCapacity, file))
      requires 0 < rowCapacity ==> 0 < outgoingFieldBufferSize
      modifies this`outgoingFieldBuffer, this`rowsWritten, this`file
      ensures o == OutcomeOf(|rows| + 1, rowCapacity)
      ensures o == Kept ==> Stored(rows + [word])
      ensures o == Kept ==>
        rowsWritten == if finalize || outgoingFieldBufferSize <= |rows| + 1 - old(rowsWritten) then |rows| + 1
                       else old(rowsWritten)
      ensures o == Overgrew ==> rowsWritten == rowCapacity
      ensures o == Overgrew ==> FirstColumnLeft(rows + [word], codec.enc.nCols, rowCapacity, file)
      ensures o == Overgrew ==> outgoingFieldBuffer == Columns([], codec.enc.nCols)
      ensures o == AssertionFailed ==> rowsWritten == |rows| + 1
      ensures o == AssertionFailed ==> PastCapacity(old(file), file, rowCapacity, word, |word|)
    {
      hide FirstColumnLeft, PastCapacity, StoreRows;
      assert rows[|rows|..] == [];
      var buffers := PushEach(outgoingFieldBuffer, word, rows[rowsWritten..]);
      ghost var after := rows + [word];
      assert rows[rowsWritten..] + [word] == after[rowsWritten..];
      outgoingFieldBuffer := buffers;
      var currentBufSize := |outgoingFieldBuffer[0]|;
      assert after[..rowsWritten] == rows[..rowsWritten];
      if currentBufSize < outgoingFieldBufferSize && currentBufSize + rowsWritten < rowCapacity && !finalize {
        return Kept;
      }
      if rowsWritten + currentBufSize > rowCapacity {
        if rowCapacity > 0 {
          LeftLength(rows, codec.enc.nCols, rowCapacity, file);
        }
        file := WritePastCapacity(file, rowCapacity, word, outgoingFieldBuffer);
        rowsWritten := rowsWritten + currentBufSize;
        return AssertionFailed;
      }
      o := WriteBuffers(after, currentBufSize);
    }

    // Puts the column buffers behind what is in the file, and grows it when it is full.
    method WriteBuffers(ghost rows: seq<Vector>, currentBufSize: nat) returns (o: Outcome)
      requires Rectangular(rows, codec.enc.nCols) && Stored(rows) && 0 < |rows| <= rowCapacity
      requires currentBufSize == |rows| - rowsWritten
      modifies this`outgoingFieldBuffer, this`rowsWritten, this`file
      ensures o == OutcomeOf(|rows|, rowCapacity) && rowsWritten == |rows|
      ensures o == Kept ==> Stored(rows)
      ensures o == Overgrew ==> FirstColumnLeft(rows, codec.enc.nCols, rowCapacity, file)
      ensures outgoingFieldBuffer == Columns([], codec.enc.nCols)
    {
      var width := codec.enc.nCols;
      file := WriteColumns(file, rowCapacity, width, rowsWritten, rows[rowsWritten..], outgoingFieldBuffer);
      outgoingFieldBuffer := seq(width, _ => []);
      assert rows == rows[..rowsWritten] + rows[rowsWritten..];
      rowsWritten := rowsWritten + currentBufSize;
      assert outgoingFieldBuffer == Columns([], width) && rows[rowsWritten..] == [];
      hide StoreRows, RunsMoved, FirstColumnLeft;
      if rowsWritten == rowCapacity {
        ghost var full := file;
        var grown := SetNewCapacity(rowCapacity * 2);
        GrownStore(full, file, rows, width, rowCapacity);
        return Overgrew;
      }
      o := Kept;
    }

    method ProcessCurrentRow(finalize: bool) returns (o: Outcome)
      requires InStep() && incomingByteBuffer != []
      modifies this, columnDigestAccumulator
      ensures o == OutcomeOf(old(rowsProcessed) + 1, rowCapacity)
      ensures o != AssertionFailed ==> Received() == old(Received()) && rowsProcessed == old(rowsProcessed) + 1
      ensures o != AssertionFailed ==>
        incomingByteBuffer == old(incomingByteBuffer)[RowChunk(codec, |old(incomingByteBuffer)|)..]
      ensures o == Kept ==> Valid() && (finalize ==> rowsWritten == rowsProcessed)
      ensures o == Kept && !finalize && RowBytes(codec) <= |old(incomingByteBuffer)| ==> Streaming()
      ensures o == Overgrew ==> Overgrown()
      ensures o == Overgrew && RowBytes(codec) <= |old(incomingByteBuffer)| ==>
        |taken| == rowsProcessed * RowBytes(codec)
    {
      hide RowBytes, FileRows, DigestStates, Cell, StoreRows, FirstColumnLeft, PastCapacity, EncodeBytes, Columns;
      ghost var rows := Rows();
      var word := HashCurrentRow();
      o := BufferedWriteRow(word, finalize, rows);
      if o == AssertionFailed {
        return;
      }
      rowsProcessed := rowsProcessed + 1;
      MulDistributes(rowsProcessed - 1, 1, RowBytes(codec));
      NextMultiple(rowsProcessed - 1, outgoingFieldBufferSize);
    }

    method Receive(bytes: Bytes)
      requires InStep()
      modifies this`bytesReceived, this`incomingByteBuffer
      ensures InStep() && Received() == old(Received()) + bytes
    {
      bytesReceived := bytesReceived + |bytes|;
      incomingByteBuffer := incomingByteBuffer + bytes;
    }

    // What becomes of the store depends on the whole rows received: below the capacity the writer
    // keeps its invariant, at the capacity it loses a column, and past it an assertion fails.
    method PushBytes(bytes: Bytes) returns (o: Outcome)
      requires InStep() && |incomingByteBuffer| < RowBytes(codec)
      modifies this, columnDigestAccumulator
      ensures o == OutcomeOf(WholeRows(codec, |old(Received())| + |bytes|), rowCapacity)
      ensures o == Kept ==> Streaming()
      ensures o == Overgrew ==> Overgrown()
      ensures o != AssertionFailed ==> InStep() && |incomingByteBuffer| < RowBytes(codec)
      ensures o != AssertionFailed ==> Received() == old(Received()) + bytes
    {
      hide RowBytes, FileRows, DigestStates, StoreRows, Consuming, Stored, FirstColumnLeft;
      Receive(bytes);
      ghost var received := Received();
      while |incomingByteBuffer| >= RowBytes(codec)
        invariant InStep() && Received() == received
        decreases |incomingByteBuffer|
      {
        RoomForRow(codec, rowsProcessed, |received|);
        var step := ProcessCurrentRow(false);
        if step == AssertionFailed {
          return AssertionFailed;
        }
      }
      RowsCounted(codec, rowsProcessed, |incomingByteBuffer|, |received|);
      o := if rowsProcessed < rowCapacity || rowsProcessed == 0 then Kept else Overgrew;
    }

    // What every push keeps, said of one column: what is on disk followed by what is in its buffer
    // is that column of the encoded whole rows received, and its hasher has absorbed just that.
    lemma ColumnSoFar(c: nat)
      requires Streaming() && |incomingByteBuffer| < RowBytes(codec) && c < codec.enc.nCols
      ensures 0 <= c * rowCapacity && c * rowCapacity + rowsWritten <= |file|
      ensures |taken| == |Received()| / RowBytes(codec) * RowBytes(codec)
      ensures var column := ColumnOf(FileRows(codec, Received()[..|taken|]), codec.enc.nCols, c);
        && file[c * rowCapacity..c * rowCapacity + rowsWritten] + outgoingFieldBuffer[c] == column
        && columnDigestAccumulator.columnDigests[c] == ColumnState(column)
    {
      hide RowBytes, FileRows;
      assert Received()[..|taken|] == taken;
      QuotientUnique(|Received()|, RowBytes(codec), rowsProcessed, |incomingByteBuffer|);
      StoreColumn(file, rowCapacity, codec.enc.nCols, rowsWritten, c);
      var rows, width := Rows(), codec.enc.nCols;
      assert ColumnOf(rows, width, c) == ColumnOf(rows[..rowsWritten], width, c)
          + ColumnOf(rows[rowsWritten..], width, c);
    }

    // Only a row cut short makes finalizing write out the buffers.
    method FinalizeToMerkleTree() returns (o: Outcome, t: Option<MerkleTree>)
      requires InStep() && |incomingByteBuffer| < RowBytes(codec)
      modifies this, columnDigestAccumulator
      ensures o == OutcomeOf(RowsNeeded(codec, |old(Received())|), rowCapacity)
      ensures o != AssertionFailed ==> incomingByteBuffer == [] && taken == old(Received())
      ensures o != AssertionFailed ==> rowsProcessed == RowsNeeded(codec, |old(Received())|)
      ensures o != AssertionFailed ==>
        t.Some? && t == TreeOf(RowLeaves(FileRows(codec, old(Received())), codec.enc.nCols))
      ensures o == Overgrew ==> Overgrown()
      ensures o == Kept ==> Valid()
      ensures o == Kept ==>
        rowsWritten == if outgoingFieldBufferSize == 0 || old(incomingByteBuffer) != [] then rowsProcessed
                       else rowsProcessed - rowsProcessed % outgoingFieldBufferSize
    {
      hide RowBytes, FileRows, DigestStates, FirstColumnLeft;
      ghost var received := Received();
      RowsSoFar(codec, rowsProcessed, |taken|, |incomingByteBuffer|);
      o := if rowsWritten == rowCapacity && 0 < rowCapacity then Overgrew else Kept;
      while incomingByteBuffer != []
        invariant Received() == received && o == OutcomeOf(rowsProcessed, rowCapacity) != AssertionFailed
        invariant o == Overgrew ==> Overgrown()
        invariant o == Kept ==> Valid()
        invariant incomingByteBuffer == old(incomingByteBuffer) ==> InStep() && rowsProcessed == old(rowsProcessed)
        invariant incomingByteBuffer == old(incomingByteBuffer)
          || (incomingByteBuffer == [] && rowsProcessed == old(rowsProcessed) + 1
              && (o == Kept ==> rowsWritten == rowsProcessed))
        decreases |incomingByteBuffer|
      {
        o := ProcessCurrentRow(true);
        if o == AssertionFailed {
          return AssertionFailed, None;
        }
      }
      assert taken == received;
      t := columnDigestAccumulator.FinalizeToMerkleTree();
    }
  }

  lemma RowsSoFar(c: Codec, k: nat, taken: nat, left: nat)
    requires taken == k * RowBytes(c) && left < RowBytes(c)
    ensures RowsNeeded(c, taken + left) == if left == 0 then k else k + 1
  {
    CeilDivShift(left, RowBytes(c), k);
    CeilDivBounds(left, RowBytes(c));
    if 0 < left {
      CeilDivUnique(left, RowBytes(c), 1);
    }
  }

  lemma NextMultiple(p: nat, b: nat)
    requires 0 < b
    ensures if p % b + 1 == b then (p + 1) % b == 0 else (p + 1) % b == p % b + 1
  {
    var q, r := p / b, p % b;
    assert p == q * b + r;
    MulDistributes(q, 1, b);
    if r + 1 == b {
      QuotientUnique(p + 1, b, q + 1, 0);
    } else {
      QuotientUnique(p + 1, b, q, r + 1);
    }
  }

  // A row still in the buffer is one of the whole rows received.
  lemma RoomForRow(c: Codec, k: nat, len: nat)
    requires k * RowBytes(c) + RowBytes(c) <= len
    ensures k < WholeRows(c, len)
  {
    hide RowBytes;
    if WholeRows(c, len) <= k {
      MulLe(WholeRows(c, len), k, RowBytes(c));
    }
  }

  lemma RowsCounted(c: Codec, k: nat, left: nat, len: nat)
    requires len == k * RowBytes(c) + left && left < RowBytes(c)
    ensures WholeRows(c, len) == k
  {
    QuotientUnique(len, RowBytes(c), k, left);
  }

  // How many bytes the next row takes.
  function RowChunk(c: Codec, available: nat): (n: nat)
    ensures n <= available && n <= RowBytes(c) && (0 < available ==> 0 < n)
  {
    if RowBytes(c) <= available then RowBytes(c) else available
  }

  // Entry c of the row goes to the end of column c.
  method PushEach(columns: seq<Vector>, row: Vector, ghost rows: seq<Vector>) returns (longer: seq<Vector>)
    requires Rectangular(rows, |row|) && columns == Columns(rows, |row|)
    ensures longer == Columns(rows + [row], |row|)
  {
    longer := columns;
    for c := 0 to |row|
      invariant |longer| == |row| && longer[c..] == columns[c..]
      invariant longer[..c] == Columns(rows + [row], |row|)[..c]
    {
      PushRow(rows, row, |row|, c);
      assert longer[c] == longer[c..][0] == columns[c];
      longer := longer[c := longer[c] + [row[c]]];
    }
  }

  // The columns up to `done` hold the new rows from row `at` on.
  ghost predicate WrittenTo(before: Vector, file: Vector, capacity: nat, width: nat, at: nat, rows: seq<Vector>,
                            done: nat)
    requires |before| == |file| == width * capacity && at + |rows| <= capacity && Rectangular(rows, width)
  {
    forall r, c :: 0 <= r < capacity && 0 <= c < width ==>
      Cell(file, capacity, width, r, c)
      == if c < done && at <= r < at + |rows| then rows[r - at][c] else Cell(before, capacity, width, r, c)
  }

  // Writes one run of elements into each column of the file.
  method WriteColumns(before: Vector, capacity: nat, width: nat, at: nat, ghost rows: seq<Vector>, columns: seq<Vector>)
    returns (file: Vector)
    requires |before| == width * capacity && at + |rows| <= capacity && Rectangular(rows, width)
    requires columns == Columns(rows, width)
    ensures |file| == width * capacity
    ensures StoreRows(file, capacity, width, at + |rows|) == StoreRows(before, capacity, width, at) + rows
  {
    file := before;
    for c := 0 to width
      invariant |file| == width * capacity && WrittenTo(before, file, capacity, width, at, rows, c)
    {
      RunInColumn(width, capacity, c, at, |rows|);
      WriteRun(before, file, capacity, width, at, rows, c);
      file := Splice(file, c * capacity + at, columns[c]);
    }
    WrittenRows(before, file, capacity, width, at, rows);
  }

  lemma RunInColumn(width: nat, capacity: nat, c: nat, at: nat, n: nat)
    requires c < width && at + n <= capacity
    ensures 0 <= c * capacity && c * capacity + at + n <= width * capacity
  {
    MulLe(c + 1, width, capacity);
    MulLe(0, c, capacity);
    MulDistributes(c, 1, capacity);
  }

  lemma WriteRun(before: Vector, file: Vector, capacity: nat, width: nat, at: nat, rows: seq<Vector>, c: nat)
    requires |before| == |file| == width * capacity && at + |rows| <= capacity && Rectangular(rows, width) && c < width
    requires 0 <= c * capacity && c * capacity + at + |rows| <= width * capacity
    requires WrittenTo(before, file, capacity, width, at, rows, c)
    ensures var file' := Splice(file, c * capacity + at, ColumnOf(rows, width, c));
      WrittenTo(before, file', capacity, width, at, rows, c + 1)
  {
    var lo, run := c * capacity + at, ColumnOf(rows, width, c);
    var file' := Splice(file, lo, run);
    forall r, c' | 0 <= r < capacity && 0 <= c' < width
      ensures Cell(file', capacity, width, r, c')
           == if c' < c + 1 && at <= r < at + |rows| then rows[r - at][c'] else Cell(before, capacity, width, r, c')
    {
      CellInRange(width, capacity, c', r);
      var i := c' * capacity + r;
      if lo <= i < lo + |run| {
        CellUnique(capacity, c, at + (i - lo), c', r);
        assert file'[i] == run[i - lo];
      } else {
        assert file'[i] == file[i];
        assert Cell(file', capacity, width, r, c') == Cell(file, capacity, width, r, c');
      }
    }
  }

  lemma WrittenRows(before: Vector, file: Vector, capacity: nat, width: nat, at: nat, rows: seq<Vector>)
    requires |before| == |file| == width * capacity && at + |rows| <= capacity && Rectangular(rows, width)
    requires WrittenTo(before, file, capacity, width, at, rows, width)
    ensures StoreRows(file, capacity, width, at + |rows|) == StoreRows(before, capacity, width, at) + rows
  {
    forall r | 0 <= r < at + |rows|
      ensures StoreRows(file, capacity, width, at + |rows|)[r] == (StoreRows(before, capacity, width, at) + rows)[r]
    {
      if r < at {
        assert StoreRow(file, capacity, width, r) == StoreRow(before, capacity, width, r);
      } else {
        assert StoreRow(file, capacity, width, r) == rows[r - at];
      }
    }
  }

  // ---------- converting a whole file ----------

  datatype StoredFile = StoredFile(file: Vector, rowsWritten: nat, rowCapacity: nat, tree: MerkleTree, dataBytes: nat)

  // Whether every row reaches the file: the last row is short, or the rows fill whole buffers.
  predicate EveryRowIsWritten(c: Codec, len: nat) {
    len % RowBytes(c) != 0 || RowsNeeded(c, len) <= MAX_BUFFERED_ROWS || RowsNeeded(c, len) % MAX_BUFFERED_ROWS == 0
  }

  function RowsInBuffers(rows: nat): (n: nat)
    ensures n <= rows
  {
    rows - rows % MAX_BUFFERED_ROWS
  }

  // The rows that reach the file: all of them, or as many as fill whole buffers.
  function RowsReaching(c: Codec, len: nat): (n: nat)
    ensures n <= RowsNeeded(c, len) && (n == RowsNeeded(c, len) <==> EveryRowIsWritten(c, len))
  {
    if EveryRowIsWritten(c, len) then RowsNeeded(c, len) else RowsInBuffers(RowsNeeded(c, len))
  }

  // A store that holds the encoding of these bytes.
  ghost predicate StoreOf(c: Codec, raw: Bytes, s: StoredFile) {
    && |s.file| == c.enc.nCols * s.rowCapacity
    && s.rowsWritten == RowsNeeded(c, |raw|) <= s.rowCapacity
    && StoreRows(s.file, s.rowCapacity, c.enc.nCols, s.rowsWritten) == FileRows(c, raw)
    && TreeOf(RowLeaves(FileRows(c, raw), c.enc.nCols)) == Some(s.tree)
    && s.dataBytes == |raw|
  }

  // A store that holds the first of those rows, with the tree of them all.
  ghost predicate Streamed(c: Codec, raw: Bytes, s: StoredFile) {
    && |s.file| == c.enc.nCols * s.rowCapacity && s.rowCapacity == 2 * RowsNeeded(c, |raw|)
    && s.rowsWritten == RowsReaching(c, |raw|) && s.dataBytes == |raw|
    && StoreRows(s.file, s.rowCapacity, c.enc.nCols, s.rowsWritten) == FileRows(c, raw)[..s.rowsWritten]
    && TreeOf(RowLeaves(FileRows(c, raw), c.enc.nCols)) == Some(s.tree)
  }

  // Writes a file through a fresh writer, some bytes at a time.
  method StreamFile(raw: Bytes, codec: Codec, readSize: Positive) returns (s: StoredFile)
    ensures Streamed(codec, raw, s)
  {
    hide RowBytes, FileRows, DigestStates, Cell;
    var encodedWriter := new EncodedFileWriter(codec, |raw|);
    var totalBytesRead := 0;
    while totalBytesRead < |raw|
      invariant totalBytesRead <= |raw| && encodedWriter.Received() == raw[..totalBytesRead]
      invariant encodedWriter.Streaming() && |encodedWriter.incomingByteBuffer| < RowBytes(codec)
      invariant fresh(encodedWriter) && fresh(encodedWriter.columnDigestAccumulator)
    {
      var bytesRead := if readSize <= |raw| - totalBytesRead then readSize else |raw| - totalBytesRead;
      var chunk := raw[totalBytesRead..totalBytesRead + bytesRead];
      FewerRows(codec, totalBytesRead + bytesRead, |raw|);
      assert raw[..totalBytesRead + bytesRead] == raw[..totalBytesRead] + chunk;
      var kept := encodedWriter.PushBytes(chunk);
      assert kept == Kept;
      totalBytesRead := totalBytesRead + bytesRead;
    }
    assert raw[..totalBytesRead] == raw;
    LeftOver(codec, encodedWriter.rowsProcessed, |encodedWriter.incomingByteBuffer|, |raw|);
    var outcome, tree := encodedWriter.FinalizeToMerkleTree();
    assert outcome == Kept;
    s := StoredFile(encodedWriter.file, encodedWriter.rowsWritten, encodedWriter.rowCapacity,
                    tree.value, totalBytesRead);
  }

  const READ_SIZE: Positive := 32768

  // The conversion checks in the end that the rows written are the rows of the file: that check
  // fails exactly when full rows are left in the buffers, with the store already written over.
  method ConvertUnencodedFile(raw: Bytes, codec: Codec) returns (ok: bool, s: StoredFile)
    ensures Streamed(codec, raw, s)
    ensures ok <==> EveryRowIsWritten(codec, |raw|)
    ensures if ok then StoreOf(codec, raw, s) else s.rowsWritten == RowsInBuffers(RowsNeeded(codec, |raw|))
    ensures |raw| % RowBytes(codec) != 0 ==> ok
    ensures |raw| % RowBytes(codec) == 0 ==>
      var k := |raw| / RowBytes(codec);
      && s.rowsWritten == (if k <= 1024 then k else k - k % 1024)
      && (ok <==> k <= 1024 || k % 1024 == 0)
  {
    hide RowBytes, FileRows, RowsReaching, EveryRowIsWritten;
    RowsThatReach(codec, |raw|);
    s := StreamFile(raw, codec, READ_SIZE);
    ok := CeilDiv(|raw|, RowBytes(codec)) == s.rowsWritten;
    if ok {
      assert FileRows(codec, raw)[..s.rowsWritten] == FileRows(codec, raw);
    }
  }

  // Up to 1024 full rows all reach the file; of more, as many as are a multiple of 1024. A file that
  // ends in a short row reaches it whole.
  lemma RowsThatReach(c: Codec, len: nat)
    ensures len % RowBytes(c) != 0 ==> EveryRowIsWritten(c, len)
    ensures len % RowBytes(c) == 0 ==>
      var k := len / RowBytes(c);
      && RowsNeeded(c, len) == k && RowsReaching(c, len) == (if k <= 1024 then k else k - k % 1024)
      && (EveryRowIsWritten(c, len) <==> k <= 1024 || k % 1024 == 0)
  {
    hide RowBytes, RowsNeeded;
    if len % RowBytes(c) == 0 {
      WholeRowsNeeded(c, len);
    }
  }

  lemma WholeRowsNeeded(c: Codec, len: nat)
    requires len % RowBytes(c) == 0
    ensures RowsNeeded(c, len) == len / RowBytes(c)
  {
    hide RowBytes;
    var w, k := RowBytes(c), len / RowBytes(c);
    assert len == k * w + len % w;
    RowsSoFar(c, k, len, 0);
  }

  // A writer for one byte, given two full rows.
  lemma TwoRowsOvergrow(c: Codec)
    ensures OutcomeOf(WholeRows(c, 2 * RowBytes(c)), 2 * RowsNeeded(c, 1)) == Overgrew
  {
    hide RowBytes;
    RowsCounted(c, 2, 0, 2 * RowBytes(c));
    CeilDivUnique(1, RowBytes(c), 1);
  }

  // A store for a file never gets full while the file is written.
  lemma FewerRows(c: Codec, part: nat, len: nat)
    requires part <= len
    ensures OutcomeOf(WholeRows(c, part), 2 * RowsNeeded(c, len)) == Kept
    ensures OutcomeOf(RowsNeeded(c, len), 2 * RowsNeeded(c, len)) == Kept
  {
    var w := RowBytes(c);
    assert part == part / w * w + part % w;
    CeilDivBounds(len, w);
    if RowsNeeded(c, len) < part / w {
      MulLe(RowsNeeded(c, len) + 1, part / w, w);
      MulDistributes(RowsNeeded(c, len), 1, w);
    }
  }

  // Bytes are left over exactly when the length is not a whole number of rows.
  lemma LeftOver(c: Codec, k: nat, left: nat, len: nat)
    requires len == k * RowBytes(c) + left && left < RowBytes(c)
    ensures len % RowBytes(c) == left
    ensures left == 0 ==> RowsNeeded(c, len) == k
    ensures 0 < RowsNeeded(c, len) ==>
      (k % BufferSize(RowsNeeded(c, len)) == 0 || 0 < left <==> EveryRowIsWritten(c, len))
  {
    hide RowBytes, RowsNeeded;
    QuotientUnique(len, RowBytes(c), k, left);
    RowsSoFar(c, k, len - left, left);
    if left == 0 && 0 < k <= MAX_BUFFERED_ROWS {
      QuotientUnique(k, k, 1, 0);
    }
  }

  // 1025 full rows: one row never leaves the buffers.
  lemma SomeRowsAreNotWritten(c: Codec)
    ensures 0 <= 1025 * RowBytes(c) && !EveryRowIsWritten(c, 1025 * RowBytes(c))
  {
    CeilDivShift(0, RowBytes(c), 1025);
    CeilDivBounds(0, RowBytes(c));
    QuotientUnique(1025 * RowBytes(c), RowBytes(c), 1025, 0);
  }
}
