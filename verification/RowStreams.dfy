/** Encoding a stream of bytes row by row, without holding the file. */
module RowStreams {
  import opened Arithmetic
  import opened Fields
  import opened Vectors
  import opened Bytes
  import opened DataFields
  import opened Options
  import opened Slices
  import opened Hashing
  import opened Merkle
  import opened MerkleTrees
  import opened Commitment
  import opened EncodedFiles
  import opened ColumnDigests

  // How many of the bytes left go into the next element.
  function ChunkSize(v: Bytes): (n: nat)
    ensures n <= |v| && n <= CAPACITY
  {
    if |v| <= CAPACITY then |v| else CAPACITY
  }

  // Field elements from a stream of bytes.
  class FieldGeneratorIter {
    var inner: Bytes  // the bytes not yet taken
    const buffer: array<Byte>
    var bufferPos: nat

    ghost predicate Valid()
      reads this, buffer
    {
      buffer.Length == CAPACITY && bufferPos == 0 && buffer[..] == ZeroBytes(CAPACITY)
    }

    constructor (inner: Bytes)
      ensures Valid() && fresh(buffer) && this.inner == inner
    {
      this.inner, bufferPos := inner, 0;
      buffer := new Byte[CAPACITY](_ => 0);
    }

    method Next() returns (r: Option<Elem>)
      requires Valid()
      modifies this, buffer
      ensures Valid()
      ensures var taken := old(inner)[..ChunkSize(old(inner))];
        && old(inner) == taken + inner
        && FromBytes(taken) == match r { case None => [] case Some(e) => [e] }
        && (r.None? <==> old(inner) == [])
    {
      ghost var all := inner;
      while bufferPos < CAPACITY
        invariant bufferPos <= ChunkSize(all) && inner == all[bufferPos..]
        invariant buffer[..bufferPos] == all[..bufferPos]
        invariant buffer[bufferPos..] == ZeroBytes(CAPACITY - bufferPos)
      {
        if inner == [] {
          break;
        }
        buffer[bufferPos] := inner[0];
        inner := inner[1..];
        bufferPos := bufferPos + 1;
      }
      if bufferPos == 0 {
        return None;
      }
      ghost var taken := all[..bufferPos];
      SplitAt(buffer[..], bufferPos);
      assert buffer[..] == taken + ZeroBytes(CAPACITY - bufferPos);
      var output := FromDataBytes(buffer[..]);
      forall i | 0 <= i < buffer.Length {
        buffer[i] := 0;
      }
      bufferPos := 0;
      r := Some(output);
    }
  }

  // Encoded rows from a stream of field elements.
  class RowGeneratorIter {
    const codec: Codec
    const fieldIterator: FieldGeneratorIter
    const coefsBuffer: array<Elem>
    var coefBufferPosition: nat

    ghost predicate Valid()
      reads this, fieldIterator, fieldIterator.buffer, coefsBuffer
    {
      && fieldIterator.Valid()
      && coefsBuffer.Length == codec.enc.nCols && coefBufferPosition == 0
      && coefsBuffer[..] == Zeros(codec.enc.nCols)
    }

    // The rows still to come.
    ghost function Pending(): (rows: seq<Vector>)
      reads this, fieldIterator
      ensures Rectangular(rows, codec.enc.nCols)
    {
      FileRows(codec, fieldIterator.inner)
    }

    constructor (fieldIterator: FieldGeneratorIter, codec: Codec)
      requires fieldIterator.Valid()
      ensures Valid() && fresh(coefsBuffer) && this.fieldIterator == fieldIterator && this.codec == codec
      ensures Pending() == FileRows(codec, fieldIterator.inner)
    {
      this.codec, this.fieldIterator, coefBufferPosition := codec, fieldIterator, 0;
      coefsBuffer := new Elem[codec.enc.nCols](_ => 0);
    }

    // Fills the buffer with up to a row of elements.
    method FillBuffer(ghost all: Bytes) returns (ghost taken: Bytes)
      requires Valid() && fieldIterator.inner == all
      modifies this, fieldIterator, fieldIterator.buffer, coefsBuffer
      ensures fieldIterator.Valid() && all == taken + fieldIterator.inner
      ensures |taken| <= RowBytes(codec) && (|taken| == RowBytes(codec) || fieldIterator.inner == [])
      ensures coefsBuffer[..] == Resize(FromBytes(taken), codec.enc.nCols)
      ensures coefBufferPosition == |FromBytes(taken)|
      ensures coefBufferPosition == 0 <==> all == []
    {
      taken := [];
      while coefBufferPosition < codec.enc.nPerRow
        invariant fieldIterator.Valid()
        invariant coefBufferPosition <= codec.enc.nPerRow
        invariant coefBufferPosition == 0 ==> taken == []
        invariant Filling(coefsBuffer[..], coefBufferPosition, taken, fieldIterator.inner, all)
      {
        ghost var rest := fieldIterator.inner;
        var next := fieldIterator.Next();
        if next.None? {
          break;
        }
        ghost var before := coefsBuffer[..];
        coefsBuffer[coefBufferPosition] := next.value;
        FillStep(before, coefBufferPosition, taken, rest, fieldIterator.inner, all, next.value);
        taken := taken + rest[..ChunkSize(rest)];
        coefBufferPosition := coefBufferPosition + 1;
      }
      FilledRow(codec, coefBufferPosition, taken, fieldIterator.inner);
      SplitAt(coefsBuffer[..], coefBufferPosition);
    }

    method Next() returns (row: Option<Vector>)
      requires Valid()
      modifies this, fieldIterator, fieldIterator.buffer, coefsBuffer
      ensures Valid()
      ensures match row
        case None => old(Pending()) == [] && Pending() == []
        case Some(word) => |word| == codec.enc.nCols && old(Pending()) == [word] + Pending()
    {
      ghost var all := fieldIterator.inner;
      ghost var taken := FillBuffer(all);
      if coefBufferPosition == 0 {
        CeilDivBounds(0, RowBytes(codec));
        assert coefsBuffer[..] == Zeros(codec.enc.nCols);
        return None;
      }
      ShortMessage(codec, taken);
      var encoded := codec.enc.encode(coefsBuffer[..]);
      assert encoded == Some(EncodeBytes(codec, taken));
      FileRowsHead(codec, taken, fieldIterator.inner);
      coefBufferPosition := 0;
      forall i | 0 <= i < coefsBuffer.Length {
        coefsBuffer[i] := 0;
      }
      row := encoded;
    }

    method GetColumnDigests() returns (hashes: seq<Digest>)
      requires Valid()
      modifies this, fieldIterator, fieldIterator.buffer, coefsBuffer
      ensures hashes == RowLeaves(old(Pending()), codec.enc.nCols)
    {
      hide FileRows, RowsNeeded, RowBytes, EncodeBytes;
      ghost var all := Pending();
      var digests := new ColumnDigestAccumulator(coefsBuffer.Length);
      while true
        invariant Valid() && digests.Valid() && fresh(digests) && digests.width == codec.enc.nCols
        invariant all == digests.rows + Pending()
        decreases |Pending()|
      {
        var row := Next();
        if row.None? {
          break;
        }
        var ok := digests.Update(row.value);
      }
      assert digests.rows == all;
      hashes := digests.GetColumnDigests();
    }

    method GetSpecifiedColumnDigests(columnIndices: seq<nat>) returns (hashes: seq<Digest>)
      requires Valid() && forall i :: 0 <= i < |columnIndices| ==> columnIndices[i] < codec.enc.nCols
      modifies this, fieldIterator, fieldIterator.buffer, coefsBuffer
      ensures hashes == Selected(RowLeaves(old(Pending()), codec.enc.nCols), columnIndices)
    {
      hide FileRows, RowsNeeded, RowBytes, EncodeBytes, DigestStates;
      var width := codec.enc.nCols;
      var digests := seq(|columnIndices|, _ => [Block(DefaultDigest())]);
      ghost var all, done: seq<Vector> := Pending(), [];
      NothingSelected(width, columnIndices);
      while true
        invariant Valid() && Rectangular(done, width) && all == done + Pending()
        invariant digests == Selected(DigestStates(done, width), columnIndices)
        decreases |Pending()|
      {
        var row := Next();
        if row.None? {
          break;
        }
        digests := UpdateSelected(digests, columnIndices, row.value, done);
        done := done + [row.value];
      }
      hashes := [];
      for i := 0 to |digests|
        invariant hashes == Selected(RowLeaves(all, width), columnIndices)[..i]
      {
        assert done == all;
        LeafOfState(all, width, columnIndices[i]);
        hashes := hashes + [HASH(digests[i])];
      }
    }

    // An empty stream has the tree of empty columns.
    method ConvertToCommitRoot() returns (root: Digest)
      requires Valid()
      modifies this, fieldIterator, fieldIterator.buffer, coefsBuffer
      ensures root == Last(FlatTree(RowLeaves(old(Pending()), codec.enc.nCols)))
    {
      var leaves := GetColumnDigests();
      var ins := new Digest[|leaves|](i requires 0 <= i < |leaves| => leaves[i]);
      var nodesOfTree := new Digest[|leaves| - 1](_ => DefaultDigest());
      assert ins[0..ins.Length] == leaves;
      MerkleLevels(ins, 0, ins.Length, nodesOfTree, 0, nodesOfTree.Length);
      assert nodesOfTree[..] == nodesOfTree[0..nodesOfTree.Length] == Upper(leaves);
      LastOfConcat(leaves, nodesOfTree[..]);
      root := nodesOfTree[nodesOfTree.Length - 1];
    }

    // The columns come out in the reverse of the order they were asked for.
    method GetFullColumns(specifiedColumns: seq<nat>) returns (result: seq<LcColumn>)
      requires Valid() && forall i :: 0 <= i < |specifiedColumns| ==> specifiedColumns[i] < codec.enc.nCols
      modifies this, fieldIterator, fieldIterator.buffer, coefsBuffer
      ensures |result| == |specifiedColumns|
      ensures forall i :: 0 <= i < |result| ==>
        result[i] == FullColumn(old(Pending()), codec.enc.nCols, specifiedColumns[|result| - 1 - i])
    {
      hide FileRows, RowsNeeded, RowBytes, EncodeBytes, DigestStates;
      var width := codec.enc.nCols;
      var digests := new ColumnDigestAccumulator(coefsBuffer.Length);
      var columnValues := seq(|specifiedColumns|, _ => []);
      ghost var all := Pending();
      NothingSelected(width, specifiedColumns);
      while true
        invariant Valid() && digests.Valid() && fresh(digests) && digests.width == width
        invariant all == digests.rows + Pending()
        invariant columnValues == Selected(Columns(digests.rows, width), specifiedColumns)
        decreases |Pending()|
      {
        var row := Next();
        if row.None? {
          break;
        }
        columnValues := PushSelected(columnValues, specifiedColumns, row.value, digests.rows, width);
        var ok := digests.Update(row.value);
      }
      assert digests.rows == all;
      var tree := digests.FinalizeToMerkleTree();
      assert tree.Some?;
      result := PopColumns(columnValues, tree.value, specifiedColumns, all, width);
    }
  }

  function Selected<T>(s: seq<T>, indices: seq<nat>): (r: seq<T>)
    requires forall i :: 0 <= i < |indices| ==> indices[i] < |s|
    ensures |r| == |indices|
  {
    seq(|indices|, i requires 0 <= i < |indices| => s[indices[i]])
  }

  // A column of the rows with its path in their tree.
  function FullColumn(rows: seq<Vector>, width: nat, c: nat): LcColumn
    requires Rectangular(rows, width) && IsPowerOfTwo(width) && c < width
  {
    LcColumn(ColumnOf(rows, width, c), FlatPath(FlatTree(RowLeaves(rows, width)), width, c))
  }

  lemma NothingSelected(width: nat, indices: seq<nat>)
    requires forall i :: 0 <= i < |indices| ==> indices[i] < width
    ensures Selected(DigestStates([], width), indices) == seq(|indices|, _ => [Block(DefaultDigest())])
    ensures Selected(Columns([], width), indices) == seq(|indices|, _ => [])
  {
    forall i | 0 <= i < |indices|
      ensures Selected(DigestStates([], width), indices)[i] == [Block(DefaultDigest())]
    {
      NothingAbsorbed(width, indices[i]);
    }
  }

  // Feeds one row to the hashers of the chosen columns.
  method UpdateSelected(digests: seq<seq<Atom>>, indices: seq<nat>, row: Vector, ghost rows: seq<Vector>)
    returns (fed: seq<seq<Atom>>)
    requires Rectangular(rows, |row|) && forall i :: 0 <= i < |indices| ==> indices[i] < |row|
    requires digests == Selected(DigestStates(rows, |row|), indices)
    ensures fed == Selected(DigestStates(rows + [row], |row|), indices)
  {
    fed := digests;
    for i := 0 to |indices|
      invariant |fed| == |digests| && fed[i..] == digests[i..]
      invariant fed[..i] == Selected(DigestStates(rows + [row], |row|), indices)[..i]
    {
      PushRow(rows, row, |row|, indices[i]);
      assert fed[i] == fed[i..][0] == digests[i];
      fed := fed[i := fed[i] + [Element(row[indices[i]])]];
    }
  }

  // Appends the entries of one row to the chosen columns.
  method PushSelected(columns: seq<Vector>, indices: seq<nat>, row: Vector, ghost rows: seq<Vector>, width: nat)
    returns (longer: seq<Vector>)
    requires |row| == width && Rectangular(rows, width) && forall i :: 0 <= i < |indices| ==> indices[i] < width
    requires columns == Selected(Columns(rows, width), indices)
    ensures longer == Selected(Columns(rows + [row], width), indices)
  {
    longer := columns;
    for i := 0 to |indices|
      invariant |longer| == |columns| && longer[i..] == columns[i..]
      invariant longer[..i] == Selected(Columns(rows + [row], width), indices)[..i]
    {
      PushRow(rows, row, width, indices[i]);
      assert longer[i] == longer[i..][0] == columns[i];
      longer := longer[i := longer[i] + [row[indices[i]]]];
    }
  }

  // Takes the columns off the end of the list, pairing each with its path.
  method PopColumns(columns: seq<Vector>, tree: MerkleTree, indices: seq<nat>, ghost rows: seq<Vector>,
                    ghost width: nat)
    returns (result: seq<LcColumn>)
    requires Rectangular(rows, width) && forall i :: 0 <= i < |indices| ==> indices[i] < width
    requires columns == Selected(Columns(rows, width), indices)
    requires IsPowerOfTwo(width) && tree == MerkleTree(FlatTree(RowLeaves(rows, width)), width)
    ensures |result| == |indices|
    ensures forall i :: 0 <= i < |result| ==> result[i] == FullColumn(rows, width, indices[|result| - 1 - i])
  {
    var columnValues := columns;
    result := [];
    for i := |indices| downto 0
      invariant columnValues == columns[..i] && |result| == |indices| - i
      invariant forall j :: 0 <= j < |result| ==> result[j] == FullColumn(rows, width, indices[|indices| - 1 - j])
    {
      var col := columnValues[i];
      columnValues := columnValues[..i];
      var path := GetPath(tree, indices[i]);
      assert path.Some?;
      result := result + [LcColumn(col, path.value)];
    }
  }

  // Every element the bytes give.
  method CollectElements(bytes: Bytes) returns (elements: Vector)
    ensures elements == FromBytes(bytes)
  {
    var fields := new FieldGeneratorIter(bytes);
    elements := [];
    ghost var taken: Bytes := [];
    while true
      invariant fields.Valid() && fresh(fields) && fresh(fields.buffer) && bytes == taken + fields.inner
      invariant elements == FromBytes(taken) && (fields.inner != [] ==> |taken| == |elements| * CAPACITY)
      decreases |fields.inner|
    {
      ghost var rest := fields.inner;
      var next := fields.Next();
      if next.None? {
        break;
      }
      FromBytesSplit(taken, rest[..ChunkSize(rest)], |elements|);
      MulDistributes(|elements|, 1, CAPACITY);
      taken := taken + rest[..ChunkSize(rest)];
      elements := elements + [next.value];
    }
    assert taken == bytes;
  }

  // The first k entries of the buffer hold the bytes taken, and k is as many as fit.
  ghost predicate Filling(buffer: Vector, k: nat, taken: Bytes, rest: Bytes, all: Bytes) {
    && k <= |buffer| && all == taken + rest
    && |taken| <= k * CAPACITY && (rest != [] ==> |taken| == k * CAPACITY)
    && buffer[..k] == FromBytes(taken) && buffer[k..] == Zeros(|buffer| - k)
  }

  lemma FillStep(buffer: Vector, k: nat, taken: Bytes, rest: Bytes, left: Bytes, all: Bytes, e: Elem)
    requires Filling(buffer, k, taken, rest, all) && k < |buffer| && rest != []
    requires rest == rest[..ChunkSize(rest)] + left && FromBytes(rest[..ChunkSize(rest)]) == [e]
    ensures Filling(buffer[k := e], k + 1, taken + rest[..ChunkSize(rest)], left, all)
  {
    var chunk := rest[..ChunkSize(rest)];
    FromBytesSplit(taken, chunk, k);
    MulDistributes(k, 1, CAPACITY);
    assert buffer[k := e][..k + 1] == buffer[..k] + [e];
    assert buffer[k := e][k + 1..] == buffer[k..][1..];
  }

  lemma FilledRow(codec: Codec, k: nat, taken: Bytes, rest: Bytes)
    requires k <= codec.enc.nPerRow && |FromBytes(taken)| == k
    requires |taken| <= k * CAPACITY && (rest != [] ==> |taken| == k * CAPACITY && k == codec.enc.nPerRow)
    ensures |taken| <= RowBytes(codec) && (|taken| == RowBytes(codec) || rest == [])
  {
    MulLe(k, codec.enc.nPerRow, CAPACITY);
  }
}
