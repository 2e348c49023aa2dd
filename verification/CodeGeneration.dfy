/**
 Generating the random matrices of an expander code. The draws of the random generator are
 parameters: for each row a list of column draws, long enough to hold as many different columns
 as are wanted, and nonzero values.
 */
module CodeGeneration {
  import opened Fields
  import opened Vectors
  import opened SparseMatrices
  import opened ExpanderCode
  import opened CodeDimensions

  // ---------- choosing columns without repetition ----------

  // The different values of a list, in the order they first appear.
  function Distinct(s: seq<nat>): (r: seq<nat>)
    ensures forall x :: x in r <==> x in s
    ensures NoRepeats(r)
  {
    if |s| == 0 then [] else
      var n := |s| - 1;
      assert s == s[..n] + [s[n]];
      var before := Distinct(s[..n]);
      if s[n] in before then before else before + [s[n]]
  }

  predicate NoRepeats(s: seq<nat>) {
    forall i, j :: 0 <= i < j < |s| ==> s[i] != s[j]
  }

  predicate Increasing(s: seq<nat>) {
    forall i, j :: 0 <= i < j < |s| ==> s[i] < s[j]
  }

  lemma {:induction false} DistinctOfPrefix(s: seq<nat>, k: nat)
    requires k <= |s|
    ensures Distinct(s[..k]) <= Distinct(s)
    decreases |s| - k
  {
    if k < |s| {
      DistinctOfPrefix(s, k + 1);
      assert s[..k + 1][..k] == s[..k];
    } else {
      assert s[..k] == s;
    }
  }

  method SampleColumns(draws: seq<nat>, d: nat) returns (tmp: seq<nat>)
    requires d <= |Distinct(draws)|
    ensures tmp == Distinct(draws)[..d]
  {
    tmp := [];
    var k := 0;
    while |tmp| < d
      invariant k <= |draws| && tmp == Distinct(draws[..k]) && |tmp| <= d
      decreases |draws| - k
    {
      assert k < |draws| by {
        assert draws[..|draws|] == draws;
      }
      assert draws[..k + 1][..k] == draws[..k];
      if draws[k] !in tmp {
        tmp := tmp + [draws[k]];
      }
      k := k + 1;
    }
    DistinctOfPrefix(draws, k);
  }

  // Insertion sort; the repetitions it could leave in are not there.
  method SortColumns(cols: seq<nat>) returns (sorted: seq<nat>)
    requires NoRepeats(cols)
    ensures Increasing(sorted) && |sorted| == |cols| && forall x :: x in sorted <==> x in cols
  {
    sorted := [];
    for i := 0 to |cols|
      invariant Increasing(sorted) && |sorted| == i && forall x :: x in sorted <==> x in cols[..i]
    {
      var at := 0;
      while at < |sorted| && sorted[at] < cols[i]
        invariant at <= |sorted| && forall j :: 0 <= j < at ==> sorted[j] < cols[i]
      {
        at := at + 1;
      }
      InsertAt(sorted, at, cols[i]);
      assert cols[..i + 1] == cols[..i] + [cols[i]];
      sorted := sorted[..at] + [cols[i]] + sorted[at..];
    }
    assert cols[..|cols|] == cols;
  }

  lemma InsertAt(s: seq<nat>, at: nat, x: nat)
    requires Increasing(s) && at <= |s| && x !in s
    requires (forall j :: 0 <= j < at ==> s[j] < x) && (at < |s| ==> x <= s[at])
    ensures Increasing(s[..at] + [x] + s[at..])
    ensures forall y :: y in s[..at] + [x] + s[at..] <==> y in s || y == x
  {
  }

  // ---------- compressed columns ----------

  datatype CsMat = CsMat(outs: nat, ins: nat, ptrs: seq<nat>, idxs: seq<nat>, data: Vector)

  function Outs(line: seq<Entry>): (v: seq<nat>)
    ensures |v| == |line|
  {
    seq(|line|, k requires 0 <= k < |line| => line[k].out)
  }

  function Values(line: seq<Entry>): (v: Vector)
    ensures |v| == |line|
  {
    seq<Elem>(|line|, k requires 0 <= k < |line| => line[k].value)
  }

  // Line i is the run of entries from ptrs[i] up to ptrs[i + 1].
  ghost predicate LineEncoded(ptrs: seq<nat>, idxs: seq<nat>, data: Vector, i: nat, line: seq<Entry>) {
    && i + 1 < |ptrs| && ptrs[i] + |line| == ptrs[i + 1] <= |idxs| == |data|
    && idxs[ptrs[i]..ptrs[i + 1]] == Outs(line)
    && data[ptrs[i]..ptrs[i + 1]] == Values(line)
  }

  ghost predicate Encodes(ptrs: seq<nat>, idxs: seq<nat>, data: Vector, lines: seq<seq<Entry>>) {
    && |ptrs| == |lines| + 1 && ptrs[0] == 0 && ptrs[|lines|] == |idxs| == |data|
    && forall i :: 0 <= i < |lines| ==> LineEncoded(ptrs, idxs, data, i, lines[i])
  }

  lemma PushLine(ptrs: seq<nat>, idxs: seq<nat>, data: Vector, lines: seq<seq<Entry>>, line: seq<Entry>)
    requires Encodes(ptrs, idxs, data, lines)
    ensures Encodes(ptrs + [|data| + |line|], idxs + Outs(line), data + Values(line), lines + [line])
  {
  }

  // What is asked of a line: d entries at different places below m, in order, none of them zero.
  ghost predicate GoodLine(line: seq<Entry>, m: nat, d: nat) {
    && |line| == d && ValidLine(line, m)
    && (forall i, j :: 0 <= i < j < d ==> line[i].out < line[j].out)
    && (forall k :: 0 <= k < d ==> line[k].value != 0)
  }

  // The draws for a matrix: the column draws of each line, and its nonzero values.
  datatype Draws = Draws(column: nat -> seq<nat>, value: (nat, nat) -> Elem)

  ghost predicate GoodRow(r: Draws, i: nat, m: nat, d: nat) {
    && d <= |Distinct(r.column(i))|
    && (forall x :: x in r.column(i) ==> x < m)
    && (forall k {:trigger r.value(i, k)} :: r.value(i, k) != 0)
  }

  ghost predicate EnoughDraws(r: Draws, n: nat, m: nat, d: nat) {
    forall i {:trigger GoodRow(r, i, m, d)} :: 0 <= i < n ==> GoodRow(r, i, m, d)
  }

  // The outputs of a line are its first d different draws, and its values are drawn in order.
  ghost predicate DrawnLine(line: seq<Entry>, r: Draws, i: nat, d: nat) {
    && |line| == d <= |Distinct(r.column(i))|
    && (forall x :: x in Outs(line) <==> x in Distinct(r.column(i))[..d])
    && (forall k :: 0 <= k < d ==> line[k].value == r.value(i, k))
  }

  method SampleRow(r: Draws, i: nat, m: nat, d: nat) returns (idxs: seq<nat>, data: Vector, ghost line: seq<Entry>)
    requires GoodRow(r, i, m, d)
    ensures GoodLine(line, m, d) && idxs == Outs(line) && data == Values(line)
    ensures forall x :: x in idxs <==> x in Distinct(r.column(i))[..d]
    ensures DrawnLine(line, r, i, d)
  {
    hide Distinct;
    var tmp := SampleColumns(r.column(i), d);
    var cols := SortColumns(tmp);
    assert forall x :: x in cols ==> x in Distinct(r.column(i));
    var last := m + 1;
    idxs, data := [], [];
    for k := 0 to d
      invariant k == 0 || last == cols[k - 1]
      invariant k == 0 ==> last == m + 1
      invariant idxs == cols[..k] && |data| == k && forall j :: 0 <= j < k ==> data[j] == r.value(i, j)
    {
      var col := cols[k];
      assert col in cols;
      if col == last {
        continue;
      }
      last := col;
      data := data + [r.value(i, k)];
      idxs := idxs + [col];
    }
    line := LineOfDraws(cols, data, r, i, m, d);
  }

  lemma LineOfDraws(cols: seq<nat>, data: Vector, r: Draws, i: nat, m: nat, d: nat) returns (line: seq<Entry>)
    requires GoodRow(r, i, m, d) && Increasing(cols) && |cols| == |data| == d
    requires forall x :: x in cols <==> x in Distinct(r.column(i))[..d]
    requires forall k :: 0 <= k < d ==> data[k] == r.value(i, k)
    ensures GoodLine(line, m, d) && DrawnLine(line, r, i, d) && cols == Outs(line) && data == Values(line)
  {
    hide Distinct;
    line := seq<Entry>(d, k requires 0 <= k < d => Entry(cols[k], data[k]));
    assert cols == Outs(line) && data == Values(line);
    assert forall x :: x in cols ==> x in Distinct(r.column(i));
    assert forall k :: 0 <= k < d ==> cols[k] in cols;
  }

  method GenCode(n: nat, m: nat, d: nat, r: Draws) returns (c: CsMat, ghost lines: seq<seq<Entry>>)
    requires EnoughDraws(r, n, m, d)
    ensures c.outs == m && c.ins == n && Encodes(c.ptrs, c.idxs, c.data, lines)
    ensures |lines| == n && forall i :: 0 <= i < n ==> GoodLine(lines[i], m, d) && DrawnLine(lines[i], r, i, d)
  {
    hide DrawnLine;
    var ptrs: seq<nat>, idxs: seq<nat>, data: Vector := [0], [], [];
    lines := [];
    for i := 0 to n
      invariant |lines| == i && Encodes(ptrs, idxs, data, lines)
      invariant forall j :: 0 <= j < i ==> GoodLine(lines[j], m, d) && DrawnLine(lines[j], r, j, d)
    {
      assert GoodRow(r, i, m, d);
      var newIdxs, newData, line := SampleRow(r, i, m, d);
      PushLine(ptrs, idxs, data, lines, line);
      idxs, data := idxs + newIdxs, data + newData;
      ptrs := ptrs + [|data|];
      lines := lines + [line];
    }
    c := CsMat(m, n, ptrs, idxs, data);
  }

  // ---------- the matrices of a code ----------

  predicate LineFits(c: CsMat, i: nat) {
    i + 1 < |c.ptrs| && c.ptrs[i] <= c.ptrs[i + 1] <= |c.idxs| == |c.data|
  }

  function LineOf(c: CsMat, i: nat): (line: seq<Entry>)
    requires LineFits(c, i)
  {
    seq<Entry>(c.ptrs[i + 1] - c.ptrs[i], k requires 0 <= k < c.ptrs[i + 1] - c.ptrs[i] =>
      Entry(c.idxs[c.ptrs[i] + k], c.data[c.ptrs[i] + k]))
  }

  // The matrix that the compressed form stands for.
  function MatrixOf(c: CsMat): SparseMatrix
    requires forall i :: 0 <= i < c.ins ==> LineFits(c, i)
  {
    SparseMatrix(c.ins, c.outs, seq(c.ins, i requires 0 <= i < c.ins => LineOf(c, i)))
  }

  lemma DecodesToLines(c: CsMat, lines: seq<seq<Entry>>)
    requires Encodes(c.ptrs, c.idxs, c.data, lines) && |lines| == c.ins
    ensures forall i :: 0 <= i < c.ins ==> LineFits(c, i)
    ensures MatrixOf(c) == SparseMatrix(c.ins, c.outs, lines)
  {
    forall i | 0 <= i < c.ins ensures LineFits(c, i) && LineOf(c, i) == lines[i] {
      assert LineEncoded(c.ptrs, c.idxs, c.data, i, lines[i]);
      var lo, hi := c.ptrs[i], c.ptrs[i + 1];
      forall k | 0 <= k < |lines[i]| ensures LineOf(c, i)[k] == lines[i][k] {
        assert c.idxs[lo..hi][k] == Outs(lines[i])[k] && c.data[lo..hi][k] == Values(lines[i])[k];
      }
    }
  }

  // A matrix of the given shape whose lines all have the given number of nonzero entries.
  ghost predicate Generated(m: SparseMatrix, dim: Dim) {
    && m.Valid() && m.ins == dim.ins && m.outs == dim.outs
    && forall i :: 0 <= i < m.ins ==> GoodLine(m.lines[i], dim.outs, dim.density)
  }

  ghost predicate AllGenerated(ms: Matrices, dims: seq<Dim>, n: nat) {
    |ms| == n <= |dims| && forall i :: 0 <= i < n ==> Generated(ms[i], dims[i])
  }

  method GenMatrix(dim: Dim, r: Draws) returns (m: SparseMatrix)
    requires EnoughDraws(r, dim.ins, dim.outs, dim.density)
    ensures Generated(m, dim) && forall i :: 0 <= i < m.ins ==> DrawnLine(m.lines[i], r, i, dim.density)
  {
    hide DrawnLine;
    var c, lines := GenCode(dim.ins, dim.outs, dim.density, r);
    DecodesToLines(c, lines);
    m := MatrixOf(c);
  }

  ghost predicate DrawsFor(draws: nat -> Draws, dims: seq<Dim>) {
    forall i {:trigger dims[i]} :: 0 <= i < |dims| ==> EnoughDraws(draws(i), dims[i].ins, dims[i].outs, dims[i].density)
  }

  // All matrices of a code. They have the shapes computed for it, so the code is one of those the
  // commitment works with.
  method Generate(s: CodeSpec, n: nat, f: FloatTerms, preDraws: nat -> Draws, postDraws: nat -> Draws)
    returns (pre: Matrices, post: Matrices)
    requires IsKnown(s) && s.baselen < n
    requires DrawsFor(preDraws, PreDims(s, n, f)) && DrawsFor(postDraws, PostDims(s, n, f))
    ensures AllGenerated(pre, PreDims(s, n, f), |PreDims(s, n, f)|)
    ensures AllGenerated(post, PostDims(s, n, f), |PostDims(s, n, f)|)
    ensures GeneratedCode(s, n, f, pre, post).Valid()
  {
    var preDims, postDims := PreDims(s, n, f), PostDims(s, n, f);
    SameCount(s, n, f);
    pre, post := [], [];
    for i := 0 to |preDims|
      invariant AllGenerated(pre, preDims, i) && AllGenerated(post, postDims, i)
    {
      var precode := GenMatrix(preDims[i], preDraws(i));
      var postcode := GenMatrix(postDims[i], postDraws(i));
      pre, post := pre + [precode], post + [postcode];
    }
  }
}
