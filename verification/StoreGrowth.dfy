/** Growing a store the wrong way round: runs of cells move where columns are meant. */
module StoreGrowth {
  import opened Arithmetic
  import opened Fields
  import opened Vectors
  import opened Slices
  import opened EncodedFiles

  // Reading at a position fills as much of the buffer as the file has.
  function ReadOver(file: Vector, position: nat, buffer: Vector): (r: Vector)
    ensures |r| == |buffer|
  {
    if |file| <= position then buffer
    else if position + |buffer| <= |file| then file[position..position + |buffer|]
    else file[position..] + buffer[|file| - position..]
  }

  // Writing at a position extends the file where it is too short.
  function WriteOver(file: Vector, position: nat, run: Vector): (r: Vector)
    ensures |r| == if position + |run| <= |file| then |file| else position + |run|
    ensures r[position..position + |run|] == run
    ensures forall i :: 0 <= i < |file| && (i < position || position + |run| <= i) ==> r[i] == file[i]
  {
    var longer := if position + |run| <= |file| then file else file + Zeros(position + |run| - |file|);
    Splice(longer, position, run)
  }

  // Moves a run, with a pad after it. What is before `keep` stays.
  method MoveRun(file: Vector, from: nat, to: nat, buffer: Vector, pad: Vector, ghost keep: nat)
    returns (moved: Vector, run: Vector)
    requires keep <= to && keep <= |file|
    ensures run == ReadOver(file, from, buffer)
    ensures moved == WriteOver(WriteOver(file, to, run), to + |buffer|, pad)
    ensures |file| <= |moved| && to + |buffer| + |pad| <= |moved|
    ensures moved[to + |buffer|..to + |buffer| + |pad|] == pad
    ensures moved[..keep] == file[..keep]
  {
    run := ReadOver(file, from, buffer);
    moved := WriteOver(file, to, run);
    moved := WriteOver(moved, to + |buffer|, pad);
  }

  // One run for each row, each with a pad after it.
  method MoveRuns(wide: Vector, capacity: nat, newCapacity: nat, rows: nat) returns (file: Vector)
    requires capacity <= newCapacity <= |wide|
    ensures newCapacity <= |file|
    ensures 0 < rows ==> file[capacity..newCapacity] == Zeros(newCapacity - capacity)
    ensures 2 * capacity <= newCapacity ==> RunsMoved(wide, file, capacity, rows * newCapacity)
  {
    file := wide;
    var buffer, pad := Zeros(capacity), Zeros(newCapacity - capacity);
    for row := 0 to rows
      invariant |buffer| == capacity && newCapacity <= |file|
      invariant 0 < row ==> file[capacity..newCapacity] == pad
      invariant 2 * capacity <= newCapacity ==> RunsMoved(wide, file, capacity, row * newCapacity)
    {
      MulLe(0, row, capacity);
      MulLe(if row == 0 then 0 else 1, row, newCapacity);
      hide RunsMoved, ReadOver, WriteOver;
      if 2 * capacity <= newCapacity {
        RunMoves(wide, file, capacity, newCapacity, row, buffer);
      }
      ghost var keep := if row == 0 then 0 else newCapacity;
      var moved, run := MoveRun(file, row * capacity, row * newCapacity, buffer, pad, keep);
      if row > 0 {
        assert moved[capacity..newCapacity] == moved[..newCapacity][capacity..];
        assert file[capacity..newCapacity] == file[..newCapacity][capacity..];
      }
      file, buffer := moved, run;
    }
  }

  // The file after runs have been moved up to `end`: its first `run` cells are left, zeros follow them,
  // and what is behind has not been reached.
  ghost predicate RunsMoved(wide: Vector, file: Vector, run: nat, end: nat) {
    && run <= |wide| && |file| == (if end <= |wide| then |wide| else end)
    && forall p :: 0 <= p < |file| ==> file[p] == if p < run || end <= p then wide[p] else 0
  }

  // With at least twice the capacity every run but the first is read from zeros.
  lemma RunMoves(wide: Vector, file: Vector, capacity: nat, newCapacity: nat, row: nat, buffer: Vector)
    requires 2 * capacity <= newCapacity <= |file| && |buffer| == capacity
    requires RunsMoved(wide, file, capacity, row * newCapacity)
    ensures 0 <= row * capacity && 0 <= row * newCapacity
    ensures var to := row * newCapacity;
      var moved := WriteOver(file, to, ReadOver(file, row * capacity, buffer));
      RunsMoved(wide, WriteOver(moved, to + capacity, Zeros(newCapacity - capacity)), capacity, (row + 1) * newCapacity)
  {
    hide RunsMoved, ReadOver, WriteOver;
    var from, to, end := row * capacity, row * newCapacity, (row + 1) * newCapacity;
    MulLe(0, row, capacity);
    MulLe(0, row, newCapacity);
    MulDistributes(row, 1, newCapacity);
    if row > 0 {
      MulLe(1, row, capacity);
      MulLe(1, row, newCapacity);
      TwiceAsFar(row, capacity, newCapacity);
    }
    OneRunMoves(wide, file, capacity, from, to, end, buffer);
  }

  lemma TwiceAsFar(row: nat, capacity: nat, newCapacity: nat)
    requires 0 < row && 2 * capacity <= newCapacity
    ensures row * capacity + capacity <= row * newCapacity
  {
    MulLe(1, row, capacity);
    MulLe(2 * capacity, newCapacity, row);
  }

  lemma OneRunMoves(wide: Vector, file: Vector, capacity: nat, from: nat, to: nat, end: nat, buffer: Vector)
    requires RunsMoved(wide, file, capacity, to) && |buffer| == capacity <= end - to
    requires from == to == 0 || (capacity <= from && from + capacity <= to)
    ensures var moved := WriteOver(file, to, ReadOver(file, from, buffer));
      RunsMoved(wide, WriteOver(moved, to + capacity, Zeros(end - to - capacity)), capacity, end)
  {
    var run := ReadOver(file, from, buffer);
    var moved := WriteOver(file, to, run);
    var pad := Zeros(end - to - capacity);
    var after := WriteOver(moved, to + capacity, pad);
    assert run == file[from..from + capacity];
    forall p | 0 <= p < |after| ensures after[p] == if p < capacity || end <= p then wide[p] else 0 {
      if to + capacity <= p < end {
        assert after[p] == after[to + capacity..end][p - to - capacity];
      } else if to <= p < to + capacity {
        assert after[p] == moved[p] == moved[to..to + capacity][p - to] == file[from + p - to];
      }
    }
  }

  // What growing leaves of a full store of these rows.
  ghost predicate FirstColumnLeft(rows: seq<Vector>, width: nat, capacity: nat, file: Vector) {
    && |rows| == capacity && (width + 1) * capacity <= |file|
    && exists full: Vector :: |full| == width * capacity && StoreRows(full, capacity, width, capacity) == rows
         && RunsMoved(Resize(full, width * (2 * capacity)), file, capacity, capacity * (2 * capacity))
  }

  lemma GrownStore(full: Vector, file: Vector, rows: seq<Vector>, width: nat, capacity: nat)
    requires 0 < width && |rows| == capacity && |full| == width * capacity
    requires StoreRows(full, capacity, width, capacity) == rows
    requires RunsMoved(Resize(full, width * (2 * capacity)), file, capacity, capacity * (2 * capacity))
    ensures FirstColumnLeft(rows, width, capacity, file)
  {
    MulLe(width + 1, 2 * width, capacity);
    MulRotate(width, 2, capacity);
    assert (2 * width) * capacity == width * (2 * capacity);
  }

  lemma LeftLength(rows: seq<Vector>, width: nat, capacity: nat, file: Vector)
    requires FirstColumnLeft(rows, width, capacity, file)
    ensures (width + 1) * capacity <= |file|
  {
  }

  // A row written one cell past each column, up to column `done`. Without any capacity all its cells
  // go to one place.
  ghost predicate PastCapacity(before: Vector, file: Vector, capacity: nat, word: Vector, done: nat)
    requires done <= |word|
  {
    if capacity == 0 then if done == 0 then file == [] else |file| == 1 && file[0] in word[..done]
    else
      && |file| == |before|
      && forall p :: 0 <= p < |file| ==> file[p] == PastCell(before, capacity, word, done, p)
  }

  function PastCell(before: Vector, capacity: nat, word: Vector, done: nat, p: nat): Elem
    requires p < |before| && 0 < capacity && done <= |word|
  {
    if p % capacity == 0 && 0 < p / capacity <= done then word[p / capacity - 1] else before[p]
  }

  method WritePastCapacity(before: Vector, capacity: nat, word: Vector, buffers: seq<Vector>) returns (file: Vector)
    requires |buffers| == |word| && forall i :: 0 <= i < |word| ==> buffers[i] == [word[i]]
    requires if capacity == 0 then before == [] else (|word| + 1) * capacity <= |before| && 0 < |word|
    ensures PastCapacity(before, file, capacity, word, |word|)
  {
    file := before;
    hide PastCapacity;
    NothingPast(before, capacity, word);
    for i := 0 to |word|
      invariant PastCapacity(before, file, capacity, word, i)
    {
      PastStep(before, file, capacity, word, i);
      file := WriteOver(file, capacity + i * capacity, buffers[i]);
    }
  }

  lemma NothingPast(before: Vector, capacity: nat, word: Vector)
    requires capacity == 0 ==> before == []
    ensures PastCapacity(before, before, capacity, word, 0)
  {
  }

  lemma PastStep(before: Vector, file: Vector, capacity: nat, word: Vector, i: nat)
    requires i < |word| && (capacity == 0 || (|word| + 1) * capacity <= |before|)
    requires PastCapacity(before, file, capacity, word, i)
    ensures 0 <= i * capacity
    ensures PastCapacity(before, WriteOver(file, capacity + i * capacity, [word[i]]), capacity, word, i + 1)
  {
    MulLe(0, i, capacity);
    MulDistributes(i, 1, capacity);
    var at := capacity + i * capacity;
    var after := WriteOver(file, at, [word[i]]);
    assert after[at] == after[at..at + 1][0];
    if capacity > 0 {
      MulLe(i + 1, |word| + 1, capacity);
      MulLe(i + 2, |word| + 1, capacity);
      MulDistributes(i + 1, 1, capacity);
      QuotientUnique(at, capacity, i + 1, 0);
      forall p | 0 <= p < |after| ensures after[p] == PastCell(before, capacity, word, i + 1, p) {
        if p != at {
          assert p == p / capacity * capacity + p % capacity;
          assert after[p] == file[p];
        }
      }
    }
  }
}
