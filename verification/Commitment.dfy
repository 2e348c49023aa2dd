/** Committing to a matrix of coefficients, and opening its columns. */
module Commitment {
  import opened Arithmetic
  import opened Fields
  import opened Vectors
  import opened Options
  import opened Slices
  import opened Hashing
  import opened Merkle
  import opened LinearCode

  datatype LcCommit = LcCommit(
    comm: Vector,
    coeffs: Vector,
    nRows: nat,
    nCols: nat,
    nPerRow: nat,
    hashes: seq<Digest>)

  datatype LcColumn = LcColumn(col: Vector, path: seq<Digest>)

  datatype ProverError = TooBig | EncodeFailed | BadCommit | ColumnNumber | BadOuterTensor

  datatype ProverResult<+T> = Ok(value: T) | Err(error: ProverError)

  // The largest width whose next power of two fits a 64-bit word.
  const MAX_COLS: nat := 0x8000_0000_0000_0000

  // ---------- specification ----------

  function RowCount(enc: Encoding, len: nat): nat
    requires 0 < enc.nPerRow
  {
    CeilDiv(len, enc.nPerRow)
  }

  function PaddedCoeffs(enc: Encoding, coeffs: Vector): Vector
    requires 0 < enc.nPerRow
  {
    Resize(coeffs, RowCount(enc, |coeffs|) * enc.nPerRow)
  }

  // The first n rows, each encoded, one after the other; None if any of them fails to encode.
  function EncodeRows(enc: Encoding, coeffs: Vector, n: nat): (m: Option<Vector>)
    requires enc.nPerRow <= enc.nCols && n * enc.nPerRow <= |coeffs|
    ensures m.Some? ==> |m.value| == n * enc.nCols
  {
    if n == 0 then Some([]) else
      MulLe(n - 1, n, enc.nPerRow);
      MulDistributes(n - 1, 1, enc.nCols);
      var before := EncodeRows(enc, coeffs, n - 1);
      var row := enc.encode(Resize(RowAt(coeffs, enc.nPerRow, n - 1), enc.nCols));
      if before.None? || row.None? then None else Some(before.value + row.value)
  }

  // The hashes of k neighbouring columns of an n by w matrix.
  function ColumnHashes(m: Vector, w: nat, n: nat, offset: nat, k: nat): (hashes: seq<Digest>)
    requires n * w <= |m| && offset + k <= w
    ensures |hashes| == k
  {
    seq<Digest>(k, i requires 0 <= i < k => LeafHash(Column(m, w, n, offset + i)))
  }

  // The hashes of the columns, padded with empty digests to a power of two.
  function Leaves(comm: Vector, nRows: nat, nCols: nat): (leaves: seq<Digest>)
    requires |comm| == nRows * nCols
    ensures |leaves| == NextPowerOfTwo(nCols)
  {
    seq(NextPowerOfTwo(nCols), c requires 0 <= c < NextPowerOfTwo(nCols) =>
      if c < nCols then LeafHash(Column(comm, nCols, nRows, c)) else DefaultDigest())
  }

  function CommitSpec(coeffs: Vector, enc: Encoding): ProverResult<LcCommit>
    requires 0 < |coeffs| && 0 < enc.nPerRow && enc.DimsOk(enc.nPerRow, enc.nCols)
  {
    var nRows := RowCount(enc, |coeffs|);
    var padded := PaddedCoeffs(enc, coeffs);
    var comm := EncodeRows(enc, padded, nRows);
    if comm.None? then Err(EncodeFailed)
    else if enc.nCols > MAX_COLS then Err(TooBig)
    else Ok(LcCommit(comm.value, padded, nRows, enc.nCols, enc.nPerRow,
                     FlatTree(Leaves(comm.value, nRows, enc.nCols))))
  }

  predicate WellFormed(c: LcCommit, enc: Encoding) {
    && |c.comm| == c.nRows * c.nCols
    && |c.coeffs| == c.nRows * c.nPerRow
    && |c.hashes| == 2 * NextPowerOfTwo(c.nCols) - 1
    && enc.DimsOk(c.nPerRow, c.nCols)
  }

  function OpenColumnSpec(c: LcCommit, column: nat): ProverResult<LcColumn>
    requires |c.comm| == c.nRows * c.nCols && |c.hashes| == 2 * NextPowerOfTwo(c.nCols) - 1
  {
    if column >= c.nCols then Err(ColumnNumber)
    else Ok(LcColumn(Column(c.comm, c.nCols, c.nRows, column),
                     FlatPath(c.hashes, NextPowerOfTwo(c.nCols), column)))
  }

  // The weights times the matrix of coefficients.
  function Collapse(coeffs: Vector, nPerRow: nat, tensor: Vector): (v: Vector)
    requires |tensor| * nPerRow <= |coeffs|
    ensures |v| == nPerRow
  {
    seq(nPerRow, c requires 0 <= c < nPerRow => Dot(tensor, Column(coeffs, nPerRow, |tensor|, c)))
  }

  // ---------- facts about the specification ----------

  // No fewer rows hold the coefficients.
  lemma RowCountIsLeast(enc: Encoding, coeffs: Vector)
    requires 0 < enc.nPerRow && 0 < |coeffs|
    ensures var n := RowCount(enc, |coeffs|);
      0 < n && (n - 1) * enc.nPerRow < |coeffs| <= n * enc.nPerRow
  {
    CeilDivBounds(|coeffs|, enc.nPerRow);
  }

  // A width is too large exactly when its next power of two does not fit 64 bits.
  lemma TooBigExactlyWhen(coeffs: Vector, enc: Encoding)
    requires 0 < |coeffs| && IsLinearCode(enc)
    ensures CommitSpec(coeffs, enc) == Err(TooBig) <==> 0x1_0000_0000_0000_0000 <= NextPowerOfTwo(enc.nCols)
    ensures CommitSpec(coeffs, enc).Err? ==> CommitSpec(coeffs, enc) == Err(TooBig)
  {
    EncodeRowsSucceeds(enc, PaddedCoeffs(enc, coeffs), RowCount(enc, |coeffs|));
    PowerOf63();
    if enc.nCols <= 0x8000_0000_0000_0000 {
      NextPowerIsLeast(enc.nCols, 0x8000_0000_0000_0000);
    } else {
      PowersDouble(0x8000_0000_0000_0000, NextPowerOfTwo(enc.nCols));
    }
  }

  lemma PowerOf63()
    ensures IsPowerOfTwo(0x8000_0000_0000_0000)
  {
    assert IsPowerOfTwo(128);
    Times256(128);
    Times256(128 * 256);
    Times256(128 * 256 * 256);
    Times256(128 * 256 * 256 * 256);
    Times256(128 * 256 * 256 * 256 * 256);
    Times256(128 * 256 * 256 * 256 * 256 * 256);
    Times256(128 * 256 * 256 * 256 * 256 * 256 * 256);
  }

  lemma Times256(n: nat)
    requires IsPowerOfTwo(n)
    ensures IsPowerOfTwo(256 * n)
  {
    hide IsPowerOfTwo;
    Twice(n);
    Twice(2 * n);
    Twice(4 * n);
    Twice(8 * n);
    Twice(16 * n);
    Twice(32 * n);
    Twice(64 * n);
    Twice(128 * n);
  }

  lemma Twice(n: nat)
    requires IsPowerOfTwo(n)
    ensures IsPowerOfTwo(2 * n)
  {
  }

  lemma {:induction false} NextPowerIsLeast(n: nat, p: nat)
    requires n <= p && IsPowerOfTwo(p)
    ensures NextPowerOfTwo(n) <= p
    decreases p
  {
    if n > 1 {
      NextPowerIsLeast((n + 1) / 2, p / 2);
    }
  }

  // The next power of two after p is twice p.
  lemma {:induction false} PowersDouble(p: nat, q: nat)
    requires IsPowerOfTwo(p) && IsPowerOfTwo(q) && p < q
    ensures 2 * p <= q
    decreases p
  {
    if p > 1 {
      PowersDouble(p / 2, q / 2);
    }
  }

  lemma CollapseIsCombine(coeffs: Vector, nPerRow: nat, tensor: Vector)
    requires |tensor| * nPerRow <= |coeffs|
    ensures Collapse(coeffs, nPerRow, tensor) == Combine(tensor, RowsOf(coeffs, nPerRow, |tensor|), nPerRow)
  {
    var rows := RowsOf(coeffs, nPerRow, |tensor|);
    forall c | 0 <= c < nPerRow
      ensures Collapse(coeffs, nPerRow, tensor)[c] == Combine(tensor, rows, nPerRow)[c]
    {
      CombineEntry(tensor, rows, nPerRow, c);
      ColumnOfRows(coeffs, nPerRow, |tensor|, c);
    }
  }

  lemma {:induction false} EncodeRowsSucceeds(enc: Encoding, coeffs: Vector, n: nat)
    requires IsLinearCode(enc) && n * enc.nPerRow <= |coeffs|
    ensures EncodeRows(enc, coeffs, n).Some?
    ensures RowsOf(EncodeRows(enc, coeffs, n).value, enc.nCols, n) == Codewords(enc, RowsOf(coeffs, enc.nPerRow, n))
  {
    if n > 0 {
      MulLe(n - 1, n, enc.nPerRow);
      EncodeRowsSucceeds(enc, coeffs, n - 1);
      var word := Codeword(enc, RowAt(coeffs, enc.nPerRow, n - 1));
      AppendRow(EncodeRows(enc, coeffs, n - 1).value, word, enc.nCols, n - 1);
      assert RowsOf(coeffs, enc.nPerRow, n) == RowsOf(coeffs, enc.nPerRow, n - 1) + [RowAt(coeffs, enc.nPerRow, n - 1)];
    }
  }

  lemma AppendRow(m: Vector, row: Vector, w: nat, n: nat)
    requires |m| == n * w && |row| == w
    ensures (n + 1) * w == |m + row|
    ensures RowsOf(m + row, w, n + 1) == RowsOf(m, w, n) + [row]
  {
    MulDistributes(n, 1, w);
    forall r | 0 <= r < n + 1
      ensures RowsOf(m + row, w, n + 1)[r] == (RowsOf(m, w, n) + [row])[r]
    {
      MulLe(r + 1, n + 1, w);
      MulDistributes(r, 1, w);
      if r < n {
        MulLe(r + 1, n, w);
        MulLe(0, r, w);
        assert (m + row)[r * w..(r + 1) * w] == m[r * w..(r + 1) * w];
      } else {
        assert (m + row)[n * w..(n + 1) * w] == row;
      }
    }
  }

  // Column j of the encoded matrix, weighted, is entry j of the encoded collapsed row.
  lemma EncodedColumnDot(enc: Encoding, coeffs: Vector, tensor: Vector, j: nat)
    requires IsLinearCode(enc) && |tensor| * enc.nPerRow <= |coeffs| && j < enc.nCols
    requires EncodeRows(enc, coeffs, |tensor|).Some?
    ensures Dot(tensor, Column(EncodeRows(enc, coeffs, |tensor|).value, enc.nCols, |tensor|, j))
         == Codeword(enc, Collapse(coeffs, enc.nPerRow, tensor))[j]
  {
    var n := |tensor|;
    var comm := EncodeRows(enc, coeffs, n).value;
    var rows := RowsOf(coeffs, enc.nPerRow, n);
    EncodeRowsSucceeds(enc, coeffs, n);
    ColumnOfRows(comm, enc.nCols, n, j);
    CombineEntry(tensor, Codewords(enc, rows), enc.nCols, j);
    EncodingCommutesWithCombine(enc, tensor, rows);
    CollapseIsCombine(coeffs, enc.nPerRow, tensor);
  }

  // The path opened for a column of an honest commitment leads to its root.
  lemma HonestOpeningClimbs(comm: Vector, nRows: nat, nCols: nat, j: nat)
    requires |comm| == nRows * nCols && j < nCols
    ensures var leaves := Leaves(comm, nRows, nCols);
      Climb(LeafHash(Column(comm, nCols, nRows, j)), j, FlatPath(FlatTree(leaves), |leaves|, j))
           == Last(FlatTree(leaves))
  {
    var leaves := Leaves(comm, nRows, nCols);
    FlatPathIsPath(leaves, j);
    PathClimbsToRoot(leaves, j);
    LastIsRoot(leaves);
  }

  // ---------- in-place computation ----------

  lemma ColumnPush(m: Vector, w: nat, n: nat, c: nat)
    requires (n + 1) * w <= |m| && c < w
    ensures n * w <= |m| && 0 <= n * w + c < |m|
    ensures Column(m, w, n + 1, c) == Column(m, w, n, c) + [m[n * w + c]]
    ensures ColumnState(Column(m, w, n + 1, c)) == ColumnState(Column(m, w, n, c)) + [Element(m[n * w + c])]
  {
  }

  function ColumnStates(m: Vector, w: nat, n: nat, offset: nat, k: nat): (states: seq<seq<Atom>>)
    requires n * w <= |m| && offset + k <= w
    ensures |states| == k
  {
    seq(k, i requires 0 <= i < k => ColumnState(Column(m, w, n, offset + i)))
  }

  lemma FreshStates(m: Vector, w: nat, offset: nat, k: nat)
    requires 0 * w <= |m| && offset + k <= w
    ensures ColumnStates(m, w, 0, offset, k) == seq(k, _ => [Block(DefaultDigest())])
  {
    var states := ColumnStates(m, w, 0, offset, k);
    forall i | 0 <= i < k ensures states[i] == [Block(DefaultDigest())] {
      var c := Column(m, w, 0, offset + i);
      assert c == [];
      assert Elements(c) == [];
      assert states[i] == ColumnState(c);
      assert ColumnState(c) == [Block(DefaultDigest())] + Elements(c);
    }
  }

  // Feeding row n to every hasher.
  method AbsorbRow(comm: Vector, digests: seq<seq<Atom>>, row: nat, nCols: nat, offset: nat)
    returns (fed: seq<seq<Atom>>)
    requires (row + 1) * nCols <= |comm| && offset + |digests| <= nCols && row * nCols <= |comm|
    requires digests == ColumnStates(comm, nCols, row, offset, |digests|)
    ensures fed == ColumnStates(comm, nCols, row + 1, offset, |digests|)
  {
    fed := digests;
    for col := 0 to |digests|
      invariant |fed| == |digests| && fed[col..] == digests[col..]
      invariant fed[..col] == ColumnStates(comm, nCols, row + 1, offset, |digests|)[..col]
    {
      ColumnPush(comm, nCols, row, offset + col);
      assert fed[col] == fed[col..][0] == digests[col];
      fed := fed[col := fed[col] + [Element(comm[row * nCols + (offset + col)])]];
    }
  }

  // The base case: one hasher for each column of the slice, fed row by row.
  method HashColumnBlock(comm: Vector, hashes: array<Digest>, lo: nat, hi: nat, nRows: nat, nCols: nat, offset: nat)
    requires lo <= hi <= hashes.Length && nRows * nCols <= |comm| && offset + (hi - lo) <= nCols
    modifies hashes
    ensures hashes[lo..hi] == ColumnHashes(comm, nCols, nRows, offset, hi - lo)
    ensures hashes[..lo] == old(hashes[..lo]) && hashes[hi..] == old(hashes[hi..])
  {
    var n := hi - lo;
    var digests := seq(n, _ => [Block(DefaultDigest())]);
    FreshStates(comm, nCols, offset, n);
    for row := 0 to nRows
      invariant hashes[..] == old(hashes[..])
      invariant row * nCols <= |comm|
      invariant digests == ColumnStates(comm, nCols, row, offset, n)
    {
      MulLe(row + 1, nRows, nCols);
      digests := AbsorbRow(comm, digests, row, nCols, offset);
    }
    FinalizedStates(comm, nCols, nRows, offset, n);
    FinalizeAll(digests, hashes, lo);
  }

  function Finalized(digests: seq<seq<Atom>>): (hashes: seq<Digest>)
    ensures |hashes| == |digests|
  {
    seq<Digest>(|digests|, i requires 0 <= i < |digests| => HASH(digests[i]))
  }

  lemma FinalizedStates(m: Vector, w: nat, n: nat, offset: nat, k: nat)
    requires n * w <= |m| && offset + k <= w
    ensures Finalized(ColumnStates(m, w, n, offset, k)) == ColumnHashes(m, w, n, offset, k)
  {
    var states := ColumnStates(m, w, n, offset, k);
    forall i | 0 <= i < k ensures Finalized(states)[i] == ColumnHashes(m, w, n, offset, k)[i] {
      var c := Column(m, w, n, offset + i);
      assert states[i] == ColumnState(c);
      assert ColumnHashes(m, w, n, offset, k)[i] == LeafHash(c);
    }
  }

  method FinalizeAll(digests: seq<seq<Atom>>, hashes: array<Digest>, lo: nat)
    requires lo + |digests| <= hashes.Length
    modifies hashes
    ensures hashes[lo..lo + |digests|] == Finalized(digests)
    ensures hashes[..lo] == old(hashes[..lo])
    ensures hashes[lo + |digests|..] == old(hashes[lo + |digests|..])
  {
    for col := 0 to |digests|
      invariant hashes[lo..lo + col] == Finalized(digests)[..col]
      invariant hashes[..lo] == old(hashes[..lo])
      invariant hashes[lo + |digests|..] == old(hashes[lo + |digests|..])
    {
      hashes[lo + col] := HASH(digests[col]);
    }
  }

  method HashColumns(comm: Vector, hashes: array<Digest>, lo: nat, hi: nat, nRows: nat, nCols: nat, offset: nat)
    requires lo <= hi <= hashes.Length && nRows * nCols <= |comm| && offset + (hi - lo) <= nCols
    modifies hashes
    ensures hashes[lo..hi] == ColumnHashes(comm, nCols, nRows, offset, hi - lo)
    ensures hashes[..lo] == old(hashes[..lo]) && hashes[hi..] == old(hashes[hi..])
    decreases hi - lo
  {
    if hi - lo <= BASE_WIDTH {
      HashColumnBlock(comm, hashes, lo, hi, nRows, nCols, offset);
    } else {
      var half := (hi - lo) / 2;
      HashColumns(comm, hashes, lo, lo + half, nRows, nCols, offset);
      ghost var between := hashes[..];
      HashColumns(comm, hashes, lo + half, hi, nRows, nCols, offset + half);
      JoinHalves(old(hashes[..]), between, hashes[..], lo, lo + half, hi);
      assert ColumnHashes(comm, nCols, nRows, offset, hi - lo)
          == ColumnHashes(comm, nCols, nRows, offset, half)
           + ColumnHashes(comm, nCols, nRows, offset + half, hi - lo - half);
    }
  }

  // The weighted sum of the first `rows` entries of column c, added to start.
  function PartialSum(start: Elem, coeffs: Vector, tensor: Vector, nPerRow: nat, c: nat, rows: nat): Elem
    requires |tensor| * nPerRow <= |coeffs| && c < nPerRow && rows <= |tensor|
  {
    Add(start, DotFirst(tensor, Column(coeffs, nPerRow, |tensor|, c), rows))
  }

  lemma PartialSumPush(start: Elem, coeffs: Vector, tensor: Vector, nPerRow: nat, c: nat, row: nat)
    requires |tensor| * nPerRow <= |coeffs| && c < nPerRow && row < |tensor|
    ensures 0 <= row * nPerRow + c < |coeffs|
    ensures Add(PartialSum(start, coeffs, tensor, nPerRow, c, row), Mul(coeffs[row * nPerRow + c], tensor[row]))
         == PartialSum(start, coeffs, tensor, nPerRow, c, row + 1)
  {
    CellInRange(|tensor|, nPerRow, row, c);
    var column := Column(coeffs, nPerRow, |tensor|, c);
    MulLaws(tensor[row], column[row], 0);
    AddLaws(start, DotFirst(tensor, column, row), Mul(tensor[row], column[row]));
  }

  // Entry j of the buffer belongs to column offset + (j - lo).
  ghost predicate HoldsSums(poly: Vector, start: Vector, lo: nat, hi: nat,
                            coeffs: Vector, tensor: Vector, nPerRow: nat, offset: nat, rows: nat)
    requires lo <= hi <= |poly| == |start| && |tensor| * nPerRow <= |coeffs|
    requires offset + (hi - lo) <= nPerRow && rows <= |tensor|
  {
    forall j :: lo <= j < hi ==>
      poly[j] == PartialSum(start[j], coeffs, tensor, nPerRow, offset + (j - lo), rows)
  }

  ghost predicate SameOutside(poly: Vector, start: Vector, lo: nat, hi: nat) {
    |poly| == |start| && forall j :: 0 <= j < |poly| && !(lo <= j < hi) ==> poly[j] == start[j]
  }

  // One row of coefficients, times its weight, added to the slice.
  method AddRow(coeffs: Vector, tensor: Vector, poly: array<Elem>, lo: nat, hi: nat, nPerRow: nat, offset: nat,
                row: nat, ghost start: Vector)
    requires lo <= hi <= poly.Length == |start| && |tensor| * nPerRow <= |coeffs|
    requires offset + (hi - lo) <= nPerRow && row < |tensor|
    requires HoldsSums(poly[..], start, lo, hi, coeffs, tensor, nPerRow, offset, row)
    modifies poly
    ensures HoldsSums(poly[..], start, lo, hi, coeffs, tensor, nPerRow, offset, row + 1)
    ensures SameOutside(poly[..], old(poly[..]), lo, hi)
  {
    hide PartialSum;
    for j := lo to hi
      invariant HoldsSums(poly[..], start, lo, j, coeffs, tensor, nPerRow, offset, row + 1)
      invariant SameOutside(poly[..], old(poly[..]), lo, j)
    {
      var col := j - lo;
      PartialSumPush(start[j], coeffs, tensor, nPerRow, offset + col, row);
      assert poly[j] == old(poly[..])[j];
      poly[j] := Add(poly[j], Mul(coeffs[row * nPerRow + (offset + col)], tensor[row]));
    }
  }

  // The base case: the slice is updated in place, row by row.
  method CollapseBlock(coeffs: Vector, tensor: Vector, poly: array<Elem>, lo: nat, hi: nat, nPerRow: nat, offset: nat)
    requires lo <= hi <= poly.Length && |tensor| * nPerRow <= |coeffs| && offset + (hi - lo) <= nPerRow
    modifies poly
    ensures HoldsSums(poly[..], old(poly[..]), lo, hi, coeffs, tensor, nPerRow, offset, |tensor|)
    ensures SameOutside(poly[..], old(poly[..]), lo, hi)
  {
    ghost var start := poly[..];
    forall j | lo <= j < hi ensures Add(start[j], 0) == start[j] {
      AddLaws(start[j], 0, 0);
    }
    for row := 0 to |tensor|
      invariant HoldsSums(poly[..], start, lo, hi, coeffs, tensor, nPerRow, offset, row)
      invariant SameOutside(poly[..], start, lo, hi)
    {
      AddRow(coeffs, tensor, poly, lo, hi, nPerRow, offset, row, start);
    }
  }

  method CollapseColumns(coeffs: Vector, tensor: Vector, poly: array<Elem>, lo: nat, hi: nat, nPerRow: nat, offset: nat)
    requires lo <= hi <= poly.Length && |tensor| * nPerRow <= |coeffs| && offset + (hi - lo) <= nPerRow
    modifies poly
    ensures HoldsSums(poly[..], old(poly[..]), lo, hi, coeffs, tensor, nPerRow, offset, |tensor|)
    ensures SameOutside(poly[..], old(poly[..]), lo, hi)
    decreases hi - lo
  {
    if hi - lo <= BASE_WIDTH {
      CollapseBlock(coeffs, tensor, poly, lo, hi, nPerRow, offset);
    } else {
      var half := (hi - lo) / 2;
      CollapseColumns(coeffs, tensor, poly, lo, lo + half, nPerRow, offset);
      CollapseColumns(coeffs, tensor, poly, lo + half, hi, nPerRow, offset + half);
    }
  }

  // A fresh buffer of zeros, collapsed into.
  method CollapseFresh(coeffs: Vector, tensor: Vector, nPerRow: nat) returns (poly: Vector)
    requires |tensor| * nPerRow <= |coeffs|
    ensures poly == Collapse(coeffs, nPerRow, tensor)
  {
    var tmp := new Elem[nPerRow](_ => 0);
    CollapseColumns(coeffs, tensor, tmp, 0, nPerRow, nPerRow, 0);
    poly := tmp[..];
    forall c | 0 <= c < nPerRow ensures poly[c] == Collapse(coeffs, nPerRow, tensor)[c] {
      AddLaws(Dot(tensor, Column(coeffs, nPerRow, |tensor|, c)), 0, 0);
      assert poly[c] == PartialSum(0, coeffs, tensor, nPerRow, 0 + (c - 0), |tensor|);
    }
  }

  lemma LeafLevel(comm: Vector, nRows: nat, nCols: nat, before: seq<Digest>, after: seq<Digest>)
    requires |comm| == nRows * nCols && |before| == |after| && NextPowerOfTwo(nCols) <= |after|
    requires before[nCols..NextPowerOfTwo(nCols)] == seq(NextPowerOfTwo(nCols) - nCols, _ => DefaultDigest())
    requires after[0..nCols] == ColumnHashes(comm, nCols, nRows, 0, nCols) && after[nCols..] == before[nCols..]
    ensures after[0..NextPowerOfTwo(nCols)] == Leaves(comm, nRows, nCols)
  {
    var leaves := Leaves(comm, nRows, nCols);
    forall c | 0 <= c < |leaves| ensures after[c] == leaves[c] {
      if c < nCols {
        assert after[c] == after[0..nCols][c] == LeafHash(Column(comm, nCols, nRows, c));
      } else {
        assert after[c] == after[nCols..][c - nCols] == before[c];
        assert before[c] == before[nCols..NextPowerOfTwo(nCols)][c - nCols];
      }
    }
  }

  method Merkleize(comm: Vector, nRows: nat, nCols: nat, hashes: array<Digest>)
    requires |comm| == nRows * nCols && 2 <= nCols
    requires hashes.Length == 2 * NextPowerOfTwo(nCols) - 1
    requires hashes[nCols..NextPowerOfTwo(nCols)] == seq(NextPowerOfTwo(nCols) - nCols, _ => DefaultDigest())
    modifies hashes
    ensures hashes[..] == FlatTree(Leaves(comm, nRows, nCols))
  {
    var width := (hashes.Length + 1) / 2;
    ghost var leaves := Leaves(comm, nRows, nCols);
    HashColumns(comm, hashes, 0, nCols, nRows, nCols, 0);
    LeafLevel(comm, nRows, nCols, old(hashes[..]), hashes[..]);
    assert hashes[..width] == hashes[0..width] == leaves;
    MerkleLevels(hashes, 0, width, hashes, width, hashes.Length);
    assert hashes[width..] == hashes[width..hashes.Length] == Upper(leaves);
    assert hashes[..width] == leaves;
    SplitAt(hashes[..], width);
  }

  // ---------- commit, open ----------

  lemma {:induction false} FailureStays(enc: Encoding, coeffs: Vector, n: nat, m: nat)
    requires enc.nPerRow <= enc.nCols && n <= m && m * enc.nPerRow <= |coeffs|
    requires n * enc.nPerRow <= |coeffs| && EncodeRows(enc, coeffs, n).None?
    ensures EncodeRows(enc, coeffs, m).None?
    decreases m
  {
    if n < m {
      MulLe(m - 1, m, enc.nPerRow);
      FailureStays(enc, coeffs, n, m - 1);
    }
  }

  // Overwrites comm[lo..lo + |v|].
  method CopyInto(v: Vector, comm: array<Elem>, lo: nat)
    requires lo + |v| <= comm.Length
    modifies comm
    ensures comm[lo..lo + |v|] == v
    ensures comm[..lo] == old(comm[..lo]) && comm[lo + |v|..] == old(comm[lo + |v|..])
  {
    for i := 0 to |v|
      invariant comm[lo..lo + i] == v[..i]
      invariant comm[..lo] == old(comm[..lo]) && comm[lo + |v|..] == old(comm[lo + |v|..])
    {
      comm[lo + i] := v[i];
    }
  }

  // Copies a message into a zeroed slot and encodes the slot in place.
  method EncodeInPlace(message: Vector, comm: array<Elem>, lo: nat, hi: nat, enc: Encoding) returns (ok: bool)
    requires lo <= hi <= comm.Length && |message| <= hi - lo
    requires comm[lo..] == Zeros(comm.Length - lo)
    modifies comm
    ensures ok == enc.encode(Resize(message, hi - lo)).Some?
    ensures ok ==> comm[lo..hi] == enc.encode(Resize(message, hi - lo)).value
    ensures comm[..lo] == old(comm[..lo]) && comm[hi..] == Zeros(comm.Length - hi)
  {
    var mid := lo + |message|;
    assert comm[mid..] == comm[lo..][|message|..] == Zeros(comm.Length - mid);
    CopyInto(message, comm, lo);
    assert comm[mid..hi] == comm[mid..][..hi - mid] == Zeros(hi - mid);
    assert comm[hi..] == comm[mid..][hi - mid..] == Zeros(comm.Length - hi);
    assert comm[lo..hi] == comm[lo..mid] + comm[mid..hi] == Resize(message, hi - lo);
    var encoded := enc.encode(comm[lo..hi]);
    if encoded.None? {
      return false;
    }
    CopyInto(encoded.value, comm, lo);
    ok := true;
  }

  // One row of coefficients, encoded in its slot.
  method EncodeSlot(coeffs: Vector, comm: array<Elem>, row: nat, nRows: nat, enc: Encoding) returns (ok: bool)
    requires row < nRows && enc.nPerRow <= enc.nCols
    requires |coeffs| == nRows * enc.nPerRow && comm.Length == nRows * enc.nCols
    requires (row + 1) * enc.nPerRow <= |coeffs| && 0 <= row * enc.nCols <= (row + 1) * enc.nCols <= comm.Length
    requires row * enc.nPerRow <= |coeffs|
    requires EncodeRows(enc, coeffs, row) == Some(comm[..row * enc.nCols])
    requires comm[row * enc.nCols..] == Zeros(comm.Length - row * enc.nCols)
    modifies comm
    ensures ok == EncodeRows(enc, coeffs, row + 1).Some?
    ensures ok ==> EncodeRows(enc, coeffs, row + 1) == Some(comm[..(row + 1) * enc.nCols])
    ensures ok ==> comm[(row + 1) * enc.nCols..] == Zeros(comm.Length - (row + 1) * enc.nCols)
  {
    var lo, hi := row * enc.nCols, (row + 1) * enc.nCols;
    MulDistributes(row, 1, enc.nCols);
    ok := EncodeInPlace(RowAt(coeffs, enc.nPerRow, row), comm, lo, hi, enc);
    assert comm[..hi] == comm[..lo] + comm[lo..hi];
  }

  method CheckComm(c: LcCommit, enc: Encoding) returns (ok: bool)
    ensures ok <==> WellFormed(c, enc)
    ensures ok <==>
      && |c.comm| == c.nRows * c.nCols && |c.coeffs| == c.nRows * c.nPerRow
      && |c.hashes| == 2 * NextPowerOfTwo(c.nCols) - 1
      && c.nPerRow == enc.nPerRow && c.nCols == enc.nCols && c.nPerRow < c.nCols
      && (enc.powerOfTwo ==> IsPowerOfTwo(c.nCols))
  {
    var commSize := |c.comm| != c.nRows * c.nCols;
    var coeffSize := |c.coeffs| != c.nRows * c.nPerRow;
    var hashLen := |c.hashes| != 2 * NextPowerOfTwo(c.nCols) - 1;
    var dims := !enc.DimsOk(c.nPerRow, c.nCols);
    ok := !(commSize || coeffSize || hashLen || dims);
  }

  method EncodeMatrix(padded: Vector, nRows: nat, enc: Encoding) returns (r: Option<Vector>)
    requires enc.nPerRow <= enc.nCols && |padded| == nRows * enc.nPerRow
    ensures r == EncodeRows(enc, padded, nRows)
  {
    var nPerRow, nCols := enc.nPerRow, enc.nCols;
    MulLe(0, nRows, nCols);
    var comm := new Elem[nRows * nCols](_ => 0);
    for row := 0 to nRows
      invariant row * nPerRow <= |padded| && 0 <= row * nCols <= comm.Length
      invariant EncodeRows(enc, padded, row) == Some(comm[..row * nCols])
      invariant comm[row * nCols..] == Zeros(comm.Length - row * nCols)
    {
      MulLe(row + 1, nRows, nPerRow);
      MulLe(row + 1, nRows, nCols);
      MulLe(row, row + 1, nCols);
      var ok := EncodeSlot(padded, comm, row, nRows, enc);
      if !ok {
        FailureStays(enc, padded, row + 1, nRows);
        return None;
      }
    }
    assert comm[..nRows * nCols] == comm[..];
    r := Some(comm[..]);
  }

  // An empty list of coefficients would make the row count wrap around, and n_per_row is a divisor.
  method Commit(coeffsIn: Vector, enc: Encoding) returns (r: ProverResult<LcCommit>)
    requires 0 < |coeffsIn| && 0 < enc.nPerRow && enc.DimsOk(enc.nPerRow, enc.nCols)
    ensures r == CommitSpec(coeffsIn, enc)
  {
    var nRows, nPerRow, nCols := RowCount(enc, |coeffsIn|), enc.nPerRow, enc.nCols;
    CeilDivBounds(|coeffsIn|, nPerRow);
    var coeffs := new Elem[nRows * nPerRow](_ => 0);
    CopyInto(coeffsIn, coeffs, 0);
    var padded := coeffs[..];
    assert padded == coeffs[0..|coeffsIn|] + coeffs[|coeffsIn|..];
    assert padded == PaddedCoeffs(enc, coeffsIn);

    var comm := EncodeMatrix(padded, nRows, enc);
    if comm.None? {
      return Err(EncodeFailed);
    }
    if nCols > MAX_COLS {
      return Err(TooBig);
    }
    var hashes := new Digest[2 * NextPowerOfTwo(nCols) - 1](_ => DefaultDigest());
    var ret := LcCommit(comm.value, padded, nRows, nCols, nPerRow, hashes[..]);
    var wellFormed := CheckComm(ret, enc);
    if !wellFormed {
      return Err(BadCommit);
    }
    Merkleize(comm.value, nRows, nCols, hashes);
    r := Ok(ret.(hashes := hashes[..]));
  }

  method OpenColumn(c: LcCommit, column: nat) returns (r: ProverResult<LcColumn>)
    requires |c.comm| == c.nRows * c.nCols && |c.hashes| == 2 * NextPowerOfTwo(c.nCols) - 1
    ensures r == OpenColumnSpec(c, column)
  {
    if column >= c.nCols {
      return Err(ColumnNumber);
    }
    var col: Vector := [];
    for row := 0 to c.nRows
      invariant col == Column(c.comm, c.nCols, c.nRows, column)[..row]
    {
      CellInRange(c.nRows, c.nCols, row, column);
      col := col + [c.comm[row * c.nCols + column]];
    }
    assert col == Column(c.comm, c.nCols, c.nRows, column);
    var path := WalkPath(c.hashes, c.nCols, column);
    r := Ok(LcColumn(col, path));
  }
}
