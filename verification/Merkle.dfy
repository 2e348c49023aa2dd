/** The Merkle tree stored as one flat array, leaves first and root last. */
module Merkle {
  import opened Hashing
  import opened Options
  import opened Slices

  // ---------- powers of two ----------

  predicate IsPowerOfTwo(n: nat) {
    n == 1 || (n > 1 && n % 2 == 0 && IsPowerOfTwo(n / 2))
  }

  function NextPowerOfTwo(n: nat): (m: nat)
    ensures IsPowerOfTwo(m) && n <= m
    ensures 1 < n ==> m < 2 * n
  {
    if n <= 1 then 1 else 2 * NextPowerOfTwo((n + 1) / 2)
  }

  function Log2(n: nat): nat {
    if n <= 1 then 0 else 1 + Log2((n + 1) / 2)
  }

  lemma {:induction false} NextPowerOfTwoFixed(n: nat)
    requires IsPowerOfTwo(n)
    ensures NextPowerOfTwo(n) == n
  {
    if n > 1 {
      NextPowerOfTwoFixed(n / 2);
    }
  }

  lemma {:induction false} Log2OfNextPower(n: nat)
    ensures Log2(NextPowerOfTwo(n)) == Log2(n)
  {
    if n > 1 {
      Log2OfNextPower((n + 1) / 2);
    }
  }

  // ---------- the tree over a level of digests ----------

  function Parents(level: seq<Digest>): (up: seq<Digest>)
    requires |level| % 2 == 0
    ensures |up| == |level| / 2
  {
    seq(|level| / 2, i requires 0 <= i < |level| / 2 => NodeHash(level[2 * i], level[2 * i + 1]))
  }

  // Every level above the given one, lowest first.
  function Upper(level: seq<Digest>): (up: seq<Digest>)
    requires IsPowerOfTwo(|level|)
    ensures |up| == |level| - 1
    decreases |level|
  {
    if |level| == 1 then [] else Parents(level) + Upper(Parents(level))
  }

  function FlatTree(leaves: seq<Digest>): (tree: seq<Digest>)
    requires IsPowerOfTwo(|leaves|)
    ensures |tree| == 2 * |leaves| - 1
  {
    leaves + Upper(leaves)
  }

  function Root(level: seq<Digest>): Digest
    requires IsPowerOfTwo(|level|)
    decreases |level|
  {
    if |level| == 1 then level[0] else Root(Parents(level))
  }

  function Last(digests: seq<Digest>): Digest
    requires 0 < |digests|
  {
    digests[|digests| - 1]
  }

  lemma LastOfConcat(a: seq<Digest>, b: seq<Digest>)
    requires 0 < |b|
    ensures Last(a + b) == Last(b)
  {
  }

  lemma {:induction false} LastIsRoot(leaves: seq<Digest>)
    requires IsPowerOfTwo(|leaves|)
    ensures Last(FlatTree(leaves)) == Root(leaves)
    decreases |leaves|
  {
    if |leaves| > 1 {
      var up := Parents(leaves);
      LastIsRoot(up);
      assert FlatTree(leaves) == leaves + FlatTree(up);
      LastOfConcat(leaves, FlatTree(up));
    }
  }

  // ---------- paths ----------

  function Sibling(i: nat): nat {
    if i % 2 == 0 then i + 1 else i - 1
  }

  lemma SiblingInRange(n: nat, i: nat)
    requires n % 2 == 0 && i < n
    ensures Sibling(i) < n && i / 2 < n / 2
  {
  }

  // The siblings met on the way from leaf i to the root.
  function Path(level: seq<Digest>, i: nat): (path: seq<Digest>)
    requires IsPowerOfTwo(|level|) && i < |level|
    ensures |path| == Log2(|level|)
    decreases |level|
  {
    if |level| == 1 then [] else
      assert Sibling(i) < |level| && i / 2 < |level| / 2 by { SiblingInRange(|level|, i); }
      [level[Sibling(i)]] + Path(Parents(level), i / 2)
  }

  function NodeInputAt(hash: Digest, i: nat, sibling: Digest): seq<Atom> {
    if i % 2 == 0 then NodeInput(hash, sibling) else NodeInput(sibling, hash)
  }

  // The digest reached from position i by hashing with each element of the path in turn.
  function Climb(hash: Digest, i: nat, path: seq<Digest>): Digest
    decreases |path|
  {
    if |path| == 0 then hash else Climb(HASH(NodeInputAt(hash, i, path[0])), i / 2, path[1..])
  }

  lemma ParentOf(level: seq<Digest>, i: nat)
    requires |level| % 2 == 0 && i < |level|
    ensures Sibling(i) < |level| && i / 2 < |Parents(level)|
    ensures Parents(level)[i / 2] == HASH(NodeInputAt(level[i], i, level[Sibling(i)]))
  {
  }

  lemma {:induction false} PathClimbsToRoot(level: seq<Digest>, i: nat)
    requires IsPowerOfTwo(|level|) && i < |level|
    ensures Climb(level[i], i, Path(level, i)) == Root(level)
    decreases |level|
  {
    if |level| > 1 {
      SiblingInRange(|level|, i);
      PathClimbsToRoot(Parents(level), i / 2);
      ParentOf(level, i);
      assert Path(level, i)[1..] == Path(Parents(level), i / 2);
    }
  }

  // ---------- binding ----------

  // Where two climbs of one length meet in a digest they either never differed or some node
  // input differs while its digest does not: the first such pair from the top is returned.
  function ClimbCollision(a: Digest, pathA: seq<Digest>, b: Digest, pathB: seq<Digest>, i: nat): Option<Collision>
    requires |pathA| == |pathB|
    decreases |pathA|
  {
    if |pathA| == 0 then None else
      var inA, inB := NodeInputAt(a, i, pathA[0]), NodeInputAt(b, i, pathB[0]);
      var above := ClimbCollision(HASH(inA), pathA[1..], HASH(inB), pathB[1..], i / 2);
      if above.Some? then above
      else if inA != inB then Some(Collision(inA, inB))
      else None
  }

  lemma {:induction false} ClimbBinds(a: Digest, pathA: seq<Digest>, b: Digest, pathB: seq<Digest>, i: nat)
    requires |pathA| == |pathB| && Climb(a, i, pathA) == Climb(b, i, pathB)
    ensures var c := ClimbCollision(a, pathA, b, pathB, i);
      if c.Some? then c.value.Valid() else a == b && pathA == pathB
    decreases |pathA|
  {
    if |pathA| > 0 {
      var inA, inB := NodeInputAt(a, i, pathA[0]), NodeInputAt(b, i, pathB[0]);
      ClimbBinds(HASH(inA), pathA[1..], HASH(inB), pathB[1..], i / 2);
      assert inA[0].digest == (if i % 2 == 0 then a else pathA[0]);
      assert inA[1].digest == (if i % 2 == 0 then pathA[0] else a);
      assert inB[0].digest == (if i % 2 == 0 then b else pathB[0]);
      assert inB[1].digest == (if i % 2 == 0 then pathB[0] else b);
      assert pathA == [pathA[0]] + pathA[1..] && pathB == [pathB[0]] + pathB[1..];
    }
  }

  // ---------- in-place construction ----------

  // Arrays are split in halves down to this many inputs.
  const BASE_WIDTH: nat := 32

  // The base case: every hash of the slice, one after the other.
  method HashPairs(ins: array<Digest>, inLo: nat, outs: array<Digest>, outLo: nat, n: nat)
    requires inLo + 2 * n <= ins.Length && outLo + n <= outs.Length
    requires ins != outs || inLo + 2 * n <= outLo
    modifies outs
    ensures outs[outLo..outLo + n] == old(Parents(ins[inLo..inLo + 2 * n]))
    ensures outs[..outLo] == old(outs[..outLo]) && outs[outLo + n..] == old(outs[outLo + n..])
  {
    ghost var level := ins[inLo..inLo + 2 * n];
    for idx := 0 to n
      invariant ins[inLo..inLo + 2 * n] == level
      invariant outs[outLo..outLo + idx] == Parents(level)[..idx]
      invariant outs[..outLo] == old(outs[..outLo]) && outs[outLo + n..] == old(outs[outLo + n..])
    {
      assert ins[inLo + 2 * idx] == level[2 * idx];
      assert ins[inLo + 2 * idx + 1] == level[2 * idx + 1];
      outs[outLo + idx] := NodeHash(ins[inLo + 2 * idx], ins[inLo + 2 * idx + 1]);
    }
  }

  method MerkleLayer(ins: array<Digest>, inLo: nat, inHi: nat, outs: array<Digest>, outLo: nat, outHi: nat)
    requires inLo <= inHi <= ins.Length && outLo <= outHi <= outs.Length
    requires ins != outs || inHi <= outLo
    requires inHi - inLo == 2 * (outHi - outLo) && IsPowerOfTwo(inHi - inLo)
    modifies outs
    ensures outs[outLo..outHi] == old(Parents(ins[inLo..inHi]))
    ensures outs[..outLo] == old(outs[..outLo]) && outs[outHi..] == old(outs[outHi..])
    decreases inHi - inLo
  {
    hide Parents;
    if inHi - inLo <= BASE_WIDTH {
      HashPairs(ins, inLo, outs, outLo, outHi - outLo);
    } else {
      var half := (outHi - outLo) / 2;
      var inMid, outMid := inLo + (inHi - inLo) / 2, outLo + half;
      ghost var left, right := ins[inLo..inMid], ins[inMid..inHi];
      assert ins[inLo..inHi] == left + right;
      ghost var before := outs[..];
      MerkleLayer(ins, inLo, inMid, outs, outLo, outMid);
      ghost var between := outs[..];
      assert between[..outLo] == before[..outLo] && between[outMid..] == before[outMid..];
      assert ins[inMid..inHi] == right;
      MerkleLayer(ins, inMid, inHi, outs, outMid, outHi);
      JoinHalves(before, between, outs[..], outLo, outMid, outHi);
      ParentsSplit(left, right);
    }
  }

  lemma ParentsSplit(left: seq<Digest>, right: seq<Digest>)
    requires |left| % 2 == 0 && |right| % 2 == 0
    ensures Parents(left + right) == Parents(left) + Parents(right)
  {
  }

  method MerkleLevels(ins: array<Digest>, inLo: nat, inHi: nat, outs: array<Digest>, outLo: nat, outHi: nat)
    requires inLo <= inHi <= ins.Length && outLo <= outHi <= outs.Length
    requires ins != outs || inHi <= outLo
    requires inHi - inLo == outHi - outLo + 1 && IsPowerOfTwo(inHi - inLo) && 2 <= inHi - inLo
    modifies outs
    ensures outs[outLo..outHi] == old(Upper(ins[inLo..inHi]))
    ensures outs[..outLo] == old(outs[..outLo]) && outs[outHi..] == old(outs[outHi..])
    decreases inHi - inLo
  {
    var outMid := outLo + (outHi - outLo + 1) / 2;
    ghost var level := ins[inLo..inHi];
    MerkleLayer(ins, inLo, inHi, outs, outLo, outMid);
    assert outs[outLo..outMid] == Parents(level);
    if outMid < outHi {
      ghost var between := outs[..];
      MerkleLevels(outs, outLo, outMid, outs, outMid, outHi);
      JoinHalves(old(outs[..]), between, outs[..], outLo, outMid, outHi);
    } else {
      assert Upper(Parents(level)) == [];
    }
  }

  // ---------- opening and checking ----------

  // The path read off a flat tree, dropping the lowest level at each step.
  function FlatPath(tree: seq<Digest>, width: nat, i: nat): (path: seq<Digest>)
    requires IsPowerOfTwo(width) && |tree| == 2 * width - 1 && i < width
    ensures |path| == Log2(width)
    decreases width
  {
    if width == 1 then [] else
      SiblingInRange(width, i);
      [tree[Sibling(i)]] + FlatPath(tree[width..], width / 2, i / 2)
  }

  lemma {:induction false} FlatPathIsPath(leaves: seq<Digest>, i: nat)
    requires IsPowerOfTwo(|leaves|) && i < |leaves|
    ensures FlatPath(FlatTree(leaves), |leaves|, i) == Path(leaves, i)
    decreases |leaves|
  {
    if |leaves| > 1 {
      SiblingInRange(|leaves|, i);
      assert FlatTree(leaves)[|leaves|..] == FlatTree(Parents(leaves));
      FlatPathIsPath(Parents(leaves), i / 2);
    }
  }

  method WalkPath(tree: seq<Digest>, width: nat, index: nat) returns (path: seq<Digest>)
    requires |tree| == 2 * NextPowerOfTwo(width) - 1 && index < NextPowerOfTwo(width)
    ensures path == FlatPath(tree, NextPowerOfTwo(width), index)
  {
    var pathLen := Log2(width);
    Log2OfNextPower(width);
    path := [];
    var hashes: seq<Digest>, column: nat := tree, index;
    ghost var w: nat := NextPowerOfTwo(width);
    for k := 0 to pathLen
      invariant |hashes| == 2 * w - 1 && IsPowerOfTwo(w) && column < w
      invariant Log2(w) == pathLen - k
      invariant path + FlatPath(hashes, w, column) == FlatPath(tree, NextPowerOfTwo(width), index)
    {
      SiblingInRange(w, column);
      path := path + [hashes[Sibling(column)]];
      hashes := hashes[(|hashes| + 1) / 2..];
      column := column / 2;
      w := w / 2;
    }
  }

  method ClimbPath(start: Digest, index: nat, path: seq<Digest>) returns (hash: Digest)
    ensures hash == Climb(start, index, path)
  {
    hash := start;
    var column := index;
    for k := 0 to |path|
      invariant Climb(hash, column, path[k..]) == Climb(start, index, path)
    {
      assert path[k..][1..] == path[k + 1..];
      if column % 2 == 0 {
        hash := NodeHash(hash, path[k]);
      } else {
        hash := NodeHash(path[k], hash);
      }
      column := column / 2;
    }
  }
}
