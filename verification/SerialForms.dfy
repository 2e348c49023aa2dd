/** The plain serial loops that the divide-and-conquer forms must agree with. */
module SerialForms {
  import opened Arithmetic
  import opened Fields
  import opened Vectors
  import opened Slices
  import opened Hashing
  import opened Merkle
  import opened Commitment

  // The hash of one column, row by row.
  method HashColumn(comm: Vector, nRows: nat, nCols: nat, col: nat) returns (hash: Digest)
    requires |comm| == nRows * nCols && col < nCols
    ensures hash == LeafHash(Column(comm, nCols, nRows, col))
  {
    var digest := [Block(DefaultDigest())];
    MulLe(0, nRows, nCols);
    FreshStates(comm, nCols, col, 1);
    assert ColumnStates(comm, nCols, 0, col, 1)[0] == ColumnState(Column(comm, nCols, 0, col + 0));
    for row := 0 to nRows
      invariant row * nCols <= |comm|
      invariant digest == ColumnState(Column(comm, nCols, row, col))
    {
      MulLe(row + 1, nRows, nCols);
      ColumnPush(comm, nCols, row, col);
      digest := digest + [Element(comm[row * nCols + col])];
    }
    hash := HASH(digest);
  }

  // The parents of a level's pairs, put over the front of what follows.
  function Filled(level: seq<Digest>, rest: seq<Digest>): (filled: seq<Digest>)
    requires |level| / 2 <= |rest|
    ensures |filled| == |rest|
  {
    Parents(level[..2 * (|level| / 2)]) + rest[|level| / 2..]
  }

  // What the serial loops put above a level: half of what follows, rounded up, is the next level,
  // whatever it held before.
  function SerialUpper(level: seq<Digest>, rest: seq<Digest>): (up: seq<Digest>)
    requires |level| / 2 <= |rest|
    ensures |up| == |rest|
    decreases |rest|
  {
    if rest == [] then []
    else
      var filled, half := Filled(level, rest), (|rest| + 1) / 2;
      filled[..half] + SerialUpper(filled[..half], filled[half..])
  }

  function SerialTree(leaves: seq<Digest>, rest: seq<Digest>): seq<Digest>
    requires |leaves| / 2 <= |rest|
  {
    leaves + SerialUpper(leaves, rest)
  }

  lemma {:induction false} SerialUpperIsUpper(level: seq<Digest>, rest: seq<Digest>)
    requires IsPowerOfTwo(|level|) && |rest| == |level| - 1
    ensures SerialUpper(level, rest) == Upper(level)
    decreases |level|
  {
    if |level| > 1 {
      var n := |level| / 2;
      var filled := Filled(level, rest);
      assert level[..2 * n] == level;
      assert filled[..n] == Parents(level) && |filled[n..]| == n - 1;
      SerialUpperIsUpper(Parents(level), filled[n..]);
    }
  }

  lemma FirstParent(level: seq<Digest>, rest: seq<Digest>)
    requires 2 <= |level| && |level| / 2 <= |rest|
    ensures SerialUpper(level, rest)[0] == NodeHash(level[0], level[1])
  {
    hide Parents, Filled;
    var filled, half := Filled(level, rest), (|rest| + 1) / 2;
    FilledStarts(level, rest);
    SerialUpperStarts(level, rest, filled[..half], filled[half..]);
  }

  lemma FilledStarts(level: seq<Digest>, rest: seq<Digest>)
    requires 2 <= |level| && |level| / 2 <= |rest|
    ensures Filled(level, rest)[0] == NodeHash(level[0], level[1])
  {
    var pairs := level[..2 * (|level| / 2)];
    assert Parents(pairs)[0] == NodeHash(pairs[0], pairs[1]);
  }

  lemma SerialUpperStarts(level: seq<Digest>, rest: seq<Digest>, next: seq<Digest>, above: seq<Digest>)
    requires |level| / 2 <= |rest| && rest != []
    requires next == Filled(level, rest)[..(|rest| + 1) / 2] && above == Filled(level, rest)[(|rest| + 1) / 2..]
    ensures SerialUpper(level, rest)[0] == Filled(level, rest)[0]
  {
    hide Parents, Filled;
    assert SerialUpper(level, rest) == next + SerialUpper(next, above);
    hide SerialUpper;
    assert next[0] == Filled(level, rest)[0];
  }

  // For widths that are powers of two the serial array is the flat tree. For others it has a node where
  // the flat tree has its first empty digest.
  lemma SerialTreeIsFlatTree(comm: Vector, nRows: nat, nCols: nat, rest: seq<Digest>)
    requires |comm| == nRows * nCols && 0 < nCols && nCols + |rest| == 2 * NextPowerOfTwo(nCols) - 1
    ensures var leaves := Leaves(comm, nRows, nCols);
      var serial := SerialTree(leaves[..nCols], rest);
      if IsPowerOfTwo(nCols) then serial == FlatTree(leaves)
      else serial[nCols] == NodeHash(leaves[0], leaves[1]) && FlatTree(leaves)[nCols] == DefaultDigest()
  {
    var leaves := Leaves(comm, nRows, nCols);
    var level := leaves[..nCols];
    if IsPowerOfTwo(nCols) {
      NextPowerOfTwoFixed(nCols);
      assert level == leaves;
      SerialUpperIsUpper(leaves, rest);
    } else {
      assert IsPowerOfTwo(NextPowerOfTwo(nCols)) && nCols < NextPowerOfTwo(nCols);
      FirstParent(level, rest);
    }
  }

  // Whatever the array held before.
  method MerkleizeSer(comm: Vector, nRows: nat, nCols: nat, hashes: array<Digest>)
    requires |comm| == nRows * nCols && 0 < nCols && hashes.Length == 2 * NextPowerOfTwo(nCols) - 1
    modifies hashes
    ensures hashes[..] == SerialTree(Leaves(comm, nRows, nCols)[..nCols], old(hashes[nCols..]))
  {
    ghost var leaves := Leaves(comm, nRows, nCols);
    for col := 0 to nCols
      invariant hashes[..col] == leaves[..col] && hashes[nCols..] == old(hashes[nCols..])
    {
      var hash := HashColumn(comm, nRows, nCols, col);
      hashes[col] := hash;
    }
    FillLevels(hashes, nCols);
  }

  // Level after level, each from the one before it.
  method FillLevels(hashes: array<Digest>, width: nat)
    requires width + width / 2 <= hashes.Length
    modifies hashes
    ensures hashes[..] == SerialTree(old(hashes[..width]), old(hashes[width..]))
  {
    hide SerialUpper, Parents;
    var inLo: nat, outLo: nat := 0, width;
    ghost var below, level, rest := [], hashes[..width], hashes[width..];
    ghost var target := SerialTree(level, rest);
    while outLo < hashes.Length
      invariant hashes[..] == below + level + rest && |below| == inLo && |below| + |level| == outLo
      invariant |level| / 2 <= |rest| && below + level + SerialUpper(level, rest) == target
      decreases hashes.Length - outLo
    {
      var half := (hashes.Length - outLo + 1) / 2;
      HashHalf(hashes, inLo, outLo, (outLo - inLo) / 2, below, level, rest);
      ghost var filled := SerialStep(below, level, rest, half);
      below, level, rest := below + level, filled[..half], filled[half..];
      inLo, outLo := outLo, outLo + half;
    }
    assert SerialUpper(level, rest) == [];
  }

  method HashHalf(hashes: array<Digest>, inLo: nat, outLo: nat, n: nat, ghost below: seq<Digest>,
                  ghost level: seq<Digest>, ghost rest: seq<Digest>)
    requires hashes[..] == below + level + rest && |below| == inLo && |below| + |level| == outLo
    requires n == |level| / 2 <= |rest|
    modifies hashes
    ensures hashes[..] == below + level + Filled(level, rest)
  {
    hide Parents;
    assert hashes[inLo..inLo + 2 * n] == level[..2 * n];
    assert hashes[..outLo] == below + level && hashes[outLo + n..] == rest[n..];
    HashPairs(hashes, inLo, hashes, outLo, n);
    assert hashes[..] == hashes[..outLo] + (hashes[outLo..outLo + n] + hashes[outLo + n..]);
  }

  lemma SerialStep(below: seq<Digest>, level: seq<Digest>, rest: seq<Digest>, half: nat) returns (filled: seq<Digest>)
    requires |level| / 2 <= |rest| && rest != [] && half == (|rest| + 1) / 2
    ensures filled == Filled(level, rest) && half / 2 <= |rest| - half
    ensures below + level + filled == below + level + filled[..half] + filled[half..]
    ensures below + level + SerialUpper(level, rest)
         == below + level + filled[..half] + SerialUpper(filled[..half], filled[half..])
  {
    hide Parents;
    filled := Filled(level, rest);
    Regroup(below + level, filled[..half], filled[half..]);
    SplitAt(filled, half);
    Regroup(below + level, filled[..half], SerialUpper(filled[..half], filled[half..]));
  }

  lemma Regroup(a: seq<Digest>, b: seq<Digest>, c: seq<Digest>)
    ensures a + (b + c) == a + b + c
  {
  }

  // The weighted sum of the rows, one row at a time over the whole width.
  method EvalOuterSer(c: LcCommit, tensor: Vector) returns (r: ProverResult<Vector>)
    requires |c.coeffs| == c.nRows * c.nPerRow
    ensures r == if |tensor| != c.nRows then Err(BadOuterTensor) else Ok(Collapse(c.coeffs, c.nPerRow, tensor))
  {
    if |tensor| != c.nRows {
      return Err(BadOuterTensor);
    }
    var poly := new Elem[c.nPerRow](_ => 0);
    CollapseBlock(c.coeffs, tensor, poly, 0, c.nPerRow, c.nPerRow, 0);
    forall j | 0 <= j < c.nPerRow ensures poly[j] == Collapse(c.coeffs, c.nPerRow, tensor)[j] {
      AddLaws(Dot(tensor, Column(c.coeffs, c.nPerRow, |tensor|, j)), 0, 0);
      assert poly[..][j] == PartialSum(0, c.coeffs, tensor, c.nPerRow, 0 + (j - 0), |tensor|);
    }
    assert poly[..] == Collapse(c.coeffs, c.nPerRow, tensor);
    r := Ok(poly[..]);
  }
}
