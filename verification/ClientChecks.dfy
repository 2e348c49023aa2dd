/**
 The client's checks of an append and of an edit: from the changed bytes alone it works out how
 the value of the file's polynomial must change.
 */
module ClientChecks {
  import opened Arithmetic
  import opened Fields
  import opened Vectors
  import opened Bytes
  import opened Slices
  import opened DataFields
  import opened Polynomials
  import opened PolynomialEvaluation

  // The value at a point of the polynomial whose coefficients hold a file.
  function FileValue(raw: Bytes, x: Elem): Elem {
    Eval(FromBytes(raw), x)
  }

  // The results differ as the values of the files do.
  ghost predicate DifferAlike(newResult: Elem, oldResult: Elem, now: Bytes, was: Bytes, x: Elem) {
    Add(newResult, FileValue(was, x)) == Add(oldResult, FileValue(now, x))
  }

  // Next to the true old value, only the true new value differs as the files do.
  lemma OnlyTrueValuePasses(newResult: Elem, now: Bytes, was: Bytes, x: Elem)
    ensures DifferAlike(newResult, FileValue(was, x), now, was, x) <==> newResult == FileValue(now, x)
  {
    AddLaws(FileValue(was, x), FileValue(now, x), 0);
    if DifferAlike(newResult, FileValue(was, x), now, was, x) {
      Cancel(newResult, FileValue(now, x), FileValue(was, x));
    }
  }

  // ---------- facts about differences ----------

  // A file that starts with k whole coefficients.
  lemma FileValueSplit(head: Bytes, tail: Bytes, k: nat, x: Elem)
    requires |head| == k * CAPACITY
    ensures FileValue(head + tail, x) == Add(FileValue(head, x), Mul(Pow(x, k), FileValue(tail, x)))
  {
    FromBytesSplit(head, tail, k);
    EvalConcat(FromBytes(head), FromBytes(tail), x);
  }

  // Changing one summand from a to b changes the sum by b - a.
  lemma DifferenceIsExact(claimed: Elem, known: Elem, common: Elem, a: Elem, b: Elem)
    ensures claimed == Add(known, Sub(b, a)) <==> Add(claimed, Add(common, a)) == Add(known, Add(common, b))
  {
    var target := Add(known, Sub(b, a));
    assert Add(target, Add(common, a)) == Add(known, Add(common, b)) by {
      Interchange(known, Sub(b, a), common, a);
      SubAdd(b, a);
      AddLaws(known, common, b);
    }
    if Add(claimed, Add(common, a)) == Add(known, Add(common, b)) {
      Cancel(claimed, target, Add(common, a));
    }
  }

  lemma SubFromZero(a: Elem, b: Elem)
    ensures Add(Sub(0, a), b) == Sub(b, a)
    ensures Add(0, b) == Sub(b, 0)
  {
    AddLaws(0, Neg(a), 0);
    AddLaws(Neg(a), 0, 0);
    AddLaws(Neg(a), b, 0);
    AddLaws(0, b, 0);
    SubAdd(b, 0);
    AddLaws(Sub(b, 0), 0, 0);
    AddLaws(b, 0, 0);
  }

  // ---------- append ----------

  // Coefficient k of a longer file starts with the bytes the file ends with.
  lemma PartialCoefficient(whole: Bytes, part: Bytes, data: Bytes, k: nat)
    requires |whole| == k * CAPACITY && 0 < |part| < CAPACITY
    ensures k < |FromBytes(whole + part + data)|
    ensures ToDataBytes(FromBytes(whole + part + data)[k])[..|part|] == part
  {
    var tail := part + data;
    assert whole + part + data == whole + tail;
    FromBytesSplit(whole, tail, k);
    var chunk := if |tail| <= CAPACITY then tail + ZeroBytes(CAPACITY - |tail|) else tail[..CAPACITY];
    assert FromBytes(tail)[0] == FromDataBytes(chunk);
    DataRoundTrip(chunk);
    assert chunk[..|part|] == part;
  }

  // The last coefficient of the old file, taken out of the row the server sends.
  method OriginalBytes(changed: Elem, byteOffset: nat) returns (bytes: Bytes)
    requires byteOffset <= CAPACITY
    ensures bytes == ToDataBytes(changed)[..byteOffset]
  {
    var all := ToBytes([changed]);
    assert all == ToDataBytes(changed) + ToBytes([]);
    bytes := all[..byteOffset];
  }

  // How many coefficients a file of len bytes fills.
  function WholeCoefficients(len: nat): (k: nat)
    ensures 0 <= len - k * CAPACITY == len % CAPACITY < CAPACITY
  {
    assert len == len / CAPACITY * CAPACITY + len % CAPACITY;
    len / CAPACITY
  }

  // The bytes of a file past its last whole coefficient.
  function PartialBytes(raw: Bytes): (part: Bytes)
    ensures |part| == |raw| % CAPACITY <= |raw|
    ensures raw == raw[..|raw| - |part|] + part
  {
    raw[|raw| - |raw| % CAPACITY..]
  }

  // An append changes only the coefficients from the first partial one on.
  lemma AppendedValue(raw: Bytes, data: Bytes, x: Elem, claimed: Elem, known: Elem)
    ensures var k, part := WholeCoefficients(|raw|), PartialBytes(raw);
      var before, after := Mul(Pow(x, k), FileValue(part, x)), Mul(Pow(x, k), FileValue(part + data, x));
      claimed == Add(known, Sub(after, before)) <==>
      Add(claimed, FileValue(raw, x)) == Add(known, FileValue(raw + data, x))
  {
    var k, part := WholeCoefficients(|raw|), PartialBytes(raw);
    var whole := raw[..|raw| - |part|];
    assert raw == whole + part && raw + data == whole + (part + data);
    FileValueSplit(whole, part, k, x);
    FileValueSplit(whole, part + data, k, x);
    DifferenceIsExact(claimed, known, FileValue(whole, x), Mul(Pow(x, k), FileValue(part, x)),
                      Mul(Pow(x, k), FileValue(part + data, x)));
  }

  lemma SentCoefficient(raw: Bytes, data: Bytes, numColumns: nat, row: Vector)
    requires 0 < numColumns && |raw| % CAPACITY != 0
    requires RowSent(row, FromBytes(raw + data), WholeCoefficients(|raw|), numColumns)
    ensures ToDataBytes(row[WholeCoefficients(|raw|) % numColumns])[..|raw| % CAPACITY] == PartialBytes(raw)
  {
    var k, part := WholeCoefficients(|raw|), PartialBytes(raw);
    var whole := raw[..|raw| - |part|];
    assert raw + data == whole + part + data;
    PartialCoefficient(whole, part, data, k);
    RowEntry(row, FromBytes(raw + data), k, k % numColumns);
  }

  lemma RowEntry(row: Vector, elements: Vector, k: nat, j: nat)
    requires j <= k && j < |row| && k - j + |row| <= |elements| && row == elements[k - j..k - j + |row|]
    ensures row[j] == elements[k]
  {
  }

  // The row sent holds the coefficients of the longer file from the start of the row on. The check
  // passes exactly when the values change by what the appended bytes change.
  method CheckAppend(oldResult: Elem, newResult: Elem, ghost raw: Bytes, fileSize: nat, data: Bytes,
                     numColumns: nat, editedRow: Vector, point: Elem)
    returns (accepted: bool)
    requires fileSize == |raw| && 0 < numColumns
    requires fileSize % CAPACITY != 0 ==>
      RowSent(editedRow, FromBytes(raw + data), WholeCoefficients(fileSize), numColumns)
    ensures accepted <==> DifferAlike(newResult, oldResult, raw + data, raw, point)
  {
    var degree, byteOffset: nat := WholeCoefficients(fileSize), fileSize % CAPACITY;
    ghost var part := PartialBytes(raw);
    ghost var before := Mul(Pow(point, degree), FileValue(part, point));
    var expected: Elem := 0;
    var bytes: Bytes := [];
    if byteOffset != 0 {
      SentCoefficient(raw, data, numColumns, editedRow);
      var original := OriginalBytes(editedRow[degree % numColumns], byteOffset);
      bytes := original;
      var coefficient := FromBytes(original);
      assert |coefficient| == 1;
      var value := EvaluateAtPointWithElevatedDegree(coefficient, point, degree);
      expected := Sub(expected, value);
    } else {
      MulZero(Pow(point, degree));
    }
    bytes := bytes + data;
    assert bytes == part + data;
    var after := EvaluateAtPointWithElevatedDegree(FromBytes(bytes), point, degree);
    SubFromZero(before, after);
    expected := Add(expected, after);
    AppendedValue(raw, data, point, newResult, oldResult);
    accepted := newResult == Add(oldResult, expected);
  }

  // Coefficients of a row of the file, from the row's start past coefficient k.
  ghost predicate RowSent(row: Vector, elements: Vector, k: nat, numColumns: nat)
    requires 0 < numColumns
  {
    var start := k - k % numColumns;
    && 0 <= start && start + |row| <= |elements| && row == elements[start..start + |row|]
    && k % numColumns < |row|
  }

  // ---------- edit ----------

  // Values of a file around a run of whole coefficients.
  lemma FileValueAround(head: Bytes, rows: Bytes, tail: Bytes, k: nat, m: nat, x: Elem)
    requires |head| == k * CAPACITY && |rows| == m * CAPACITY
    ensures FileValue(head + rows + tail, x)
         == Add(Add(FileValue(head, x), Mul(Pow(x, k), Mul(Pow(x, m), FileValue(tail, x)))),
                Mul(Pow(x, k), FileValue(rows, x)))
  {
    assert head + rows + tail == head + (rows + tail);
    var h, r, t := FileValue(head, x), FileValue(rows, x), Mul(Pow(x, m), FileValue(tail, x));
    FileValueSplit(head, rows + tail, k, x);
    FileValueSplit(rows, tail, m, x);
    Distributes(Pow(x, k), r, t);
    AddLaws(Mul(Pow(x, k), r), Mul(Pow(x, k), t), 0);
    AddLaws(h, Mul(Pow(x, k), t), Mul(Pow(x, k), r));
  }

  // Replacing whole coefficients changes the value by what they change.
  lemma EditedValue(head: Bytes, rows: Bytes, edited: Bytes, tail: Bytes, k: nat, m: nat, x: Elem, claimed: Elem,
                    known: Elem)
    requires |head| == k * CAPACITY && |rows| == |edited| == m * CAPACITY
    ensures var before, after := Mul(Pow(x, k), FileValue(rows, x)), Mul(Pow(x, k), FileValue(edited, x));
      claimed == Add(known, Sub(after, before)) <==>
      Add(claimed, FileValue(head + rows + tail, x)) == Add(known, FileValue(head + edited + tail, x))
  {
    FileValueAround(head, rows, tail, k, m, x);
    FileValueAround(head, edited, tail, k, m, x);
    DifferenceIsExact(claimed, known, Add(FileValue(head, x), Mul(Pow(x, k), Mul(Pow(x, m), FileValue(tail, x)))),
                      Mul(Pow(x, k), FileValue(rows, x)), Mul(Pow(x, k), FileValue(edited, x)));
  }

  // Different bytes give different coefficients.
  lemma CoefficientsTellBytesApart(a: Bytes, b: Bytes, m: nat)
    requires |a| == |b| == m * CAPACITY
    ensures FromBytes(a) == FromBytes(b) <==> a == b
  {
    WholeBytesRoundTrip(a, m);
    WholeBytesRoundTrip(b, m);
  }

  // The first row an edit touches, the coefficients before it and the coefficients in the rows.
  lemma WholeRowsSent(start: nat, sent: nat, numColumns: nat)
    returns (k: nat, m: nat)
    requires 0 < numColumns && 0 < CAPACITY * numColumns && sent % (CAPACITY * numColumns) == 0
    ensures k == start / numColumns / CAPACITY * numColumns
    ensures k * CAPACITY == start - start % (CAPACITY * numColumns) && sent == m * CAPACITY
  {
    NestedDiv(start, numColumns, CAPACITY);
    k := AlignedDown(start, numColumns, CAPACITY, CAPACITY * numColumns);
    m := AlignedDown(sent, numColumns, CAPACITY, CAPACITY * numColumns);
  }

  datatype EditVerdict = NotWholeRows | NothingEdited | WrongDifference | EditAccepted

  // rows are the bytes of the old file from the start of the first row touched, past the edit.
  ghost predicate RowsSent(rows: Bytes, raw: Bytes, start: nat, size: nat, rowBytes: nat)
    requires 0 < rowBytes
  {
    var from := start - start % rowBytes;
    && 0 <= from && from + |rows| <= |raw| && rows == raw[from..from + |rows|]
    && start % rowBytes + size <= |rows|
  }

  method CheckEdit(oldResult: Elem, newResult: Elem, ghost raw: Bytes, rows: Bytes, start: nat, data: Bytes,
                   numColumns: nat, point: Elem)
    returns (verdict: EditVerdict)
    requires 0 < numColumns && 0 < CAPACITY * numColumns
    requires RowsSent(rows, raw, start, |data|, CAPACITY * numColumns)
    ensures start + |data| <= |raw|
    ensures verdict ==
      if |rows| % (CAPACITY * numColumns) != 0 then NotWholeRows
      else if raw[start..start + |data|] == data then NothingEdited
      else if !DifferAlike(newResult, oldResult, Splice(raw, start, data), raw, point) then WrongDifference
      else EditAccepted
  {
    var rowBytes := CAPACITY * numColumns;
    if |rows| % rowBytes != 0 {
      return NotWholeRows;
    }
    ghost var k, m := WholeRowsSent(start, |rows|, numColumns);
    var offset: nat := start % rowBytes;
    var expected := rows[..offset] + data + rows[offset + |data|..];
    ghost var head, tail := raw[..start - offset], raw[start - offset + |rows|..];
    EditInRows(raw, rows, start, data, offset);
    CoefficientsTellBytesApart(rows, expected, m);
    var original, edited := FromBytes(rows), FromBytes(expected);
    if edited == original {
      return NothingEdited;
    }
    var firstEditedRow := start / numColumns / CAPACITY;
    var after := EvaluateAtPointWithElevatedDegree(edited, point, firstEditedRow * numColumns);
    var before := EvaluateAtPointWithElevatedDegree(original, point, firstEditedRow * numColumns);
    EditedValue(head, rows, expected, tail, k, m, point, newResult, oldResult);
    verdict := if Add(oldResult, Sub(after, before)) == newResult then EditAccepted else WrongDifference;
  }

  lemma EditInRows(raw: Bytes, rows: Bytes, start: nat, data: Bytes, offset: nat)
    requires offset <= start && start - offset + |rows| <= |raw| && offset + |data| <= |rows|
    requires rows == raw[start - offset..start - offset + |rows|]
    ensures var expected := rows[..offset] + data + rows[offset + |data|..];
      && raw == raw[..start - offset] + rows + raw[start - offset + |rows|..]
      && Splice(raw, start, data) == raw[..start - offset] + expected + raw[start - offset + |rows|..]
      && (expected == rows <==> raw[start..start + |data|] == data)
  {
  }
}
