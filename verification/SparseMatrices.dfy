/** Sparse matrices kept as a list of entries for each input coordinate. */
module SparseMatrices {
  import opened Fields
  import opened Vectors

  datatype Entry = Entry(out: nat, value: Elem)

  // lines[i] lists the entries that multiply input coordinate i.
  datatype SparseMatrix = SparseMatrix(ins: nat, outs: nat, lines: seq<seq<Entry>>) {
    predicate Valid() {
      && |lines| == ins
      && forall i :: 0 <= i < ins ==> ValidLine(lines[i], outs)
    }
  }

  predicate ValidLine(line: seq<Entry>, outs: nat) {
    forall k :: 0 <= k < |line| ==> line[k].out < outs
  }

  // The matrix entry that a list stands for: the entries at one output add up.
  function EntryAt(line: seq<Entry>, j: nat): Elem {
    if |line| == 0 then 0 else
      var n := |line| - 1;
      if line[n].out == j then Add(EntryAt(line[..n], j), line[n].value) else EntryAt(line[..n], j)
  }

  function DenseColumn(m: SparseMatrix, j: nat): (v: Vector)
    ensures |v| == |m.lines|
  {
    seq<Elem>(|m.lines|, i requires 0 <= i < |m.lines| => EntryAt(m.lines[i], j))
  }

  // Output j is the dot product of the input with column j of the matrix.
  function Apply(m: SparseMatrix, x: Vector): (y: Vector)
    requires m.Valid() && |x| == m.ins
    ensures |y| == m.outs
  {
    seq<Elem>(m.outs, j requires 0 <= j < m.outs => Dot(x, DenseColumn(m, j)))
  }

  lemma ApplyLinear(m: SparseMatrix, a: Vector, k: Elem, b: Vector)
    requires m.Valid() && |a| == |b| == m.ins
    ensures Apply(m, VAdd(a, Scale(k, b))) == VAdd(Apply(m, a), Scale(k, Apply(m, b)))
  {
    forall j | 0 <= j < m.outs
      ensures Apply(m, VAdd(a, Scale(k, b)))[j] == VAdd(Apply(m, a), Scale(k, Apply(m, b)))[j]
    {
      var c := DenseColumn(m, j);
      DotSymmetric(VAdd(a, Scale(k, b)), c);
      DotSymmetric(a, c);
      DotSymmetric(b, c);
      DotAdd(c, a, Scale(k, b));
      DotScale(c, k, b);
    }
  }

  // ---------- what the product is ----------

  // The entries of a line that count at an output.
  function Hits(line: seq<Entry>, j: nat): (v: Vector)
    ensures |v| == |line|
  {
    seq(|line|, k requires 0 <= k < |line| => if line[k].out == j then 1 else 0)
  }

  function ValuesOf(line: seq<Entry>): (v: Vector)
    ensures |v| == |line|
  {
    seq<Elem>(|line|, k requires 0 <= k < |line| => line[k].value)
  }

  // What a line holds at an output is the sum of its values there, also where an output is repeated.
  lemma {:induction false} EntryIsSum(line: seq<Entry>, j: nat)
    ensures EntryAt(line, j) == Dot(ValuesOf(line), Hits(line, j))
  {
    if |line| > 0 {
      var n := |line| - 1;
      EntryIsSum(line[..n], j);
      DotFirstPrefix(ValuesOf(line), Hits(line, j), ValuesOf(line[..n]), Hits(line[..n], j), n);
      MulLaws(line[n].value, 1, 0);
      MulZero(line[n].value);
      AddLaws(EntryAt(line[..n], j), 0, 0);
    }
  }

  // A line whose outputs are in order holds its values at them, and zeros elsewhere.
  lemma {:induction false} EntryOfLine(line: seq<Entry>, j: nat)
    requires forall a, b :: 0 <= a < b < |line| ==> line[a].out < line[b].out
    ensures forall k :: 0 <= k < |line| && line[k].out == j ==> EntryAt(line, j) == line[k].value
    ensures (forall k :: 0 <= k < |line| ==> line[k].out != j) ==> EntryAt(line, j) == 0
  {
    if |line| > 0 {
      var n := |line| - 1;
      EntryOfLine(line[..n], j);
      assert forall k :: 0 <= k < n ==> line[..n][k] == line[k];
      AddLaws(line[n].value, 0, 0);
    }
  }

  // The product with the message that is one at place i is line i.
  lemma ApplyUnit(m: SparseMatrix, i: nat, j: nat)
    requires m.Valid() && i < m.ins && j < m.outs
    ensures Apply(m, Unit(m.ins, i))[j] == EntryAt(m.lines[i], j)
  {
    DotUnit(DenseColumn(m, j), i, m.ins);
  }

  // Every product is the sum of the lines, weighted with the message.
  lemma ApplyIsSumOfLines(m: SparseMatrix, x: Vector, j: nat)
    requires m.Valid() && |x| == m.ins && j < m.outs
    ensures Apply(m, x)[j]
         == Dot(x, seq<Elem>(m.ins, i requires 0 <= i < m.ins => Apply(m, Unit(m.ins, i))[j]))
  {
    forall i | 0 <= i < m.ins ensures DenseColumn(m, j)[i] == Apply(m, Unit(m.ins, i))[j] {
      ApplyUnit(m, i, j);
    }
    assert DenseColumn(m, j) == seq<Elem>(m.ins, i requires 0 <= i < m.ins => Apply(m, Unit(m.ins, i))[j]);
  }

  // ---------- the product, entry by entry ----------

  // Output j after the first i input coordinates and the first k entries of the next.
  function Partial(m: SparseMatrix, x: Vector, j: nat, i: nat, line: seq<Entry>): Elem
    requires m.Valid() && |x| == m.ins && i < m.ins
  {
    Add(DotFirst(x, DenseColumn(m, j), i), Mul(x[i], EntryAt(line, j)))
  }

  lemma PartialPush(m: SparseMatrix, x: Vector, j: nat, i: nat, line: seq<Entry>, e: Entry)
    requires m.Valid() && |x| == m.ins && i < m.ins
    ensures Partial(m, x, j, i, line + [e])
         == if e.out == j then Add(Partial(m, x, j, i, line), Mul(x[i], e.value)) else Partial(m, x, j, i, line)
  {
    assert (line + [e])[..|line|] == line;
    if e.out == j {
      Distributes(x[i], EntryAt(line, j), e.value);
      AddLaws(DotFirst(x, DenseColumn(m, j), i), Mul(x[i], EntryAt(line, j)), Mul(x[i], e.value));
    }
  }

  method Multiply(m: SparseMatrix, x: Vector) returns (y: Vector)
    requires m.Valid() && |x| == m.ins
    ensures y == Apply(m, x)
  {
    y := Zeros(m.outs);
    for i := 0 to m.ins
      invariant |y| == m.outs
      invariant forall j :: 0 <= j < m.outs ==> y[j] == DotFirst(x, DenseColumn(m, j), i)
    {
      var line := m.lines[i];
      forall j | 0 <= j < m.outs ensures y[j] == Partial(m, x, j, i, []) {
        MulZero(x[i]);
        AddLaws(y[j], 0, 0);
      }
      assert line[..0] == [];
      for k := 0 to |line|
        invariant |y| == m.outs
        invariant forall j :: 0 <= j < m.outs ==> y[j] == Partial(m, x, j, i, line[..k])
      {
        var e := line[k];
        assert line[..k + 1] == line[..k] + [e];
        var next := y[e.out := Add(y[e.out], Mul(x[i], e.value))];
        forall j | 0 <= j < m.outs ensures next[j] == Partial(m, x, j, i, line[..k + 1]) {
          PartialPush(m, x, j, i, line[..k], e);
        }
        y := next;
      }
      assert line[..|line|] == line;
    }
  }
}
