/**
 Two ways to edit a stored file: in the raw file with the rows encoded again, or in the decoded
 bytes of the store. On a store of the file both leave the same store.
 */
module EditRoutes {
  import opened Arithmetic
  import opened Vectors
  import opened Bytes
  import opened Slices
  import opened DataFields
  import opened EncodedFiles
  import opened EncodedFileReaders
  import opened FileHandlers

  // ---------- what a store decodes to ----------

  lemma PaddedRow(raw: Bytes, w: nat, n: nat, r: nat)
    requires 0 < w && n == CeilDiv(|raw|, w) && r < n && |raw| <= n * w
    ensures 0 <= r * w && r * w + w <= n * w
    ensures PadBytes(raw, n * w)[r * w..r * w + w] == PadBytes(RawRow(raw, w, r), w)
  {
    CellInRange(n, w, r, 0);
    RowSpan(|raw|, w, r);
  }

  lemma RowDecodes(c: Codec, raw: Bytes, r: nat)
    requires r < RowsNeeded(c, |raw|)
    ensures DecodedRow(c, FileRows(c, raw)[r]) == PadBytes(RawRow(raw, RowBytes(c), r), RowBytes(c))
  {
    var row := RawRow(raw, RowBytes(c), r);
    EncodePaddedBytes(c, row);
    EncodedBytesDecode(c, PadBytes(row, RowBytes(c)));
  }

  // Bytes that agree row by row are the same.
  lemma SameRowsSameBytes(a: Bytes, b: Bytes, w: nat, n: nat)
    requires 0 < w && |a| == |b| == n * w
    requires forall r :: 0 <= r < n ==> RowSlice(a, w, r) == RowSlice(b, w, r)
    ensures a == b
  {
    forall k | 0 <= k < |a| ensures a[k] == b[k] {
      var r := k / w;
      assert k == r * w + k % w;
      if n <= r {
        MulLe(n, r, w);
      }
      CellInRange(n, w, r, 0);
      assert RowSlice(a, w, r)[k % w] == a[k] && RowSlice(b, w, r)[k % w] == b[k];
    }
  }

  function RowSlice(v: Bytes, w: nat, r: nat): Bytes {
    if 0 <= r * w && r * w + w <= |v| then v[r * w..r * w + w] else []
  }

  // The store of a file decodes to the file, with zeros to the end of its last row.
  lemma StoreDecodesToFile(c: Codec, raw: Bytes)
    ensures |raw| <= RowsNeeded(c, |raw|) * RowBytes(c)
    ensures DecodedBytes(c, FileRows(c, raw)) == PadBytes(raw, RowsNeeded(c, |raw|) * RowBytes(c))
  {
    hide RowBytes, FileRows, DecodedBytes, DecodedRow;
    var w, n := RowBytes(c), RowsNeeded(c, |raw|);
    CeilDivBounds(|raw|, w);
    forall r | 0 <= r < n
      ensures RowSlice(DecodedBytes(c, FileRows(c, raw)), w, r) == RowSlice(PadBytes(raw, n * w), w, r)
    {
      DecodedBytesAt(c, FileRows(c, raw), r);
      RowDecodes(c, raw, r);
      PaddedRow(raw, w, n, r);
    }
    SameRowsSameBytes(DecodedBytes(c, FileRows(c, raw)), PadBytes(raw, n * w), w, n);
  }

  // ---------- the two routes ----------

  lemma SplicePadded(raw: Bytes, n: nat, start: nat, data: Bytes)
    requires start + |data| <= |raw| <= n
    ensures Splice(PadBytes(raw, n), start, data) == PadBytes(Splice(raw, start, data), n)
  {
  }

  // What an edit of the decoded bytes leaves of a store of the file is the store of the edited file,
  // and the bytes returned are the file's.
  lemma EditRoutesAgree(c: Codec, raw: Bytes, now: seq<Vector>, start: nat, data: Bytes, reply: EditReply)
    requires start + |data| <= |raw| && Rectangular(now, c.enc.nCols)
    requires EditOutcome(c, FileRows(c, raw), now, start, data, reply)
    ensures now == FileRows(c, Splice(raw, start, data))
    ensures reply == OldBytes(raw[start..start + |data|])
  {
    hide RowBytes, FileRows, DecodedBytes, DecodedRow, EncodeBytes;
    var w, n, edited := RowBytes(c), RowsNeeded(c, |raw|), Splice(raw, start, data);
    StoreDecodesToFile(c, raw);
    SplicePadded(raw, n * w, start, data);
    assert DecodedBytes(c, now) == PadBytes(edited, n * w);
    RowsOutsideEdit(c, raw, start, data);
    forall r | 0 <= r < n ensures now[r] == FileRows(c, edited)[r] {
      if RowOf(c, start) <= r < RowsNeeded(c, start + |data|) {
        DecodedBytesAt(c, now, r);
        PaddedRow(edited, w, n, r);
        EncodePaddedBytes(c, RawRow(edited, w, r));
        FileRow(c, edited, r);
      }
    }
  }

  // An edit that reaches past the last row of a store writes the part that fits and reports the missing
  // row; one that starts past it changes nothing.
  lemma EditPastTheEnd(c: Codec, before: seq<Vector>, now: seq<Vector>, start: nat, data: Bytes, reply: EditReply)
    requires Rectangular(before, c.enc.nCols) && Rectangular(now, c.enc.nCols)
    requires EditOutcome(c, before, now, start, data, reply)
    requires 0 < |data| && |before| * RowBytes(c) < start + |data|
    ensures reply == RowMissing
    ensures var was, len := DecodedBytes(c, before), |before| * RowBytes(c);
      DecodedBytes(c, now) == if start <= len then was[..start] + data[..len - start] else was
  {
    hide RowBytes, DecodedBytes, Reencoded;
    EditedToTheEnd(DecodedBytes(c, before), start, data);
  }

  lemma EditedToTheEnd(was: Bytes, start: nat, data: Bytes)
    requires 0 < |data| && |was| < start + |data|
    ensures Fitting(|was|, start, |data|) < |data|
    ensures Edited(was, start, data[..Fitting(|was|, start, |data|)])
         == if start <= |was| then was[..start] + data[..|was| - start] else was
  {
    if start <= |was| {
      assert was[|was|..] == [] && was[..start] + [] == was[..start];
    }
  }
}
