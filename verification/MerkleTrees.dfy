/** The Merkle tree a store keeps: the flat tree with its width, and its byte form. */
module MerkleTrees {
  import opened Arithmetic
  import opened Fields
  import opened Bytes
  import opened Options
  import opened Hashing
  import opened Merkle

  datatype MerkleTree = MerkleTree(digests: seq<Digest>, width: nat)

  // Only widths that are powers of two and at least two are accepted.
  function TreeOf(leaves: seq<Digest>): Option<MerkleTree> {
    if IsPowerOfTwo(|leaves|) && 2 <= |leaves| then Some(MerkleTree(FlatTree(leaves), |leaves|)) else None
  }

  method New(leaves: seq<Digest>) returns (r: Option<MerkleTree>)
    ensures r == TreeOf(leaves)
  {
    if !IsPowerOfTwo(|leaves|) || |leaves| < 2 {
      return None;
    }
    var ins := new Digest[|leaves|](i requires 0 <= i < |leaves| => leaves[i]);
    var parents := new Digest[|leaves| - 1](_ => DefaultDigest());
    assert ins[0..ins.Length] == leaves;
    MerkleLevels(ins, 0, ins.Length, parents, 0, parents.Length);
    assert parents[..] == parents[0..parents.Length] == Upper(leaves);
    r := Some(MerkleTree(leaves + parents[..], |leaves|));
  }

  method GetPath(t: MerkleTree, index: nat) returns (path: Option<seq<Digest>>)
    requires IsPowerOfTwo(t.width) && |t.digests| == 2 * t.width - 1
    ensures path == if index < t.width then Some(FlatPath(t.digests, t.width, index)) else None
  {
    if index >= t.width {
      return None;
    }
    NextPowerOfTwoFixed(t.width);
    var p := WalkPath(t.digests, t.width, index);
    path := Some(p);
  }

  // The path handed out for a leaf leads from it to the root of the tree.
  lemma TreePathLeadsToRoot(leaves: seq<Digest>, index: nat)
    requires TreeOf(leaves).Some? && index < |leaves|
    ensures var t := TreeOf(leaves).value;
      Climb(leaves[index], index, FlatPath(t.digests, t.width, index)) == Last(t.digests)
  {
    FlatPathIsPath(leaves, index);
    PathClimbsToRoot(leaves, index);
    LastIsRoot(leaves);
  }

  // Equality as the source tests it: widths, and the digests both have.
  predicate SameTree(a: MerkleTree, b: MerkleTree) {
    a.width == b.width &&
    forall i :: 0 <= i < |a.digests| && i < |b.digests| ==> a.digests[i] == b.digests[i]
  }

  lemma SameTreeIsEquality(a: MerkleTree, b: MerkleTree)
    requires |a.digests| == 2 * a.width - 1 && |b.digests| == 2 * b.width - 1
    ensures SameTree(a, b) <==> a == b
  {
  }

  // ---------- small trees ----------

  // What is hashed for a column of two entries, and for trees of two and of four leaves.
  lemma SmallHashes(a: Elem, b: Elem)
    ensures LeafHash([a, b]) == HASH([Block(DefaultDigest()), Element(a), Element(b)])
    ensures forall k :: 0 <= k < DIGEST_BYTES ==> DefaultDigest()[k] == 0
  {
    assert ColumnState([a, b]) == [Block(DefaultDigest()), Element(a), Element(b)];
  }

  lemma TreeOfTwo(a: Digest, b: Digest)
    ensures TreeOf([a, b]) == Some(MerkleTree([a, b, HASH([Block(a), Block(b)])], 2))
  {
    assert Parents([a, b]) == [NodeHash(a, b)];
    assert IsPowerOfTwo(|[a, b]|);
    assert Upper([a, b]) == Parents([a, b]) + Upper(Parents([a, b])) == [NodeHash(a, b)];
    assert FlatTree([a, b]) == [a, b, NodeHash(a, b)];
  }

  lemma TreeOfFour(a: Digest, b: Digest, c: Digest, d: Digest)
    ensures var ab, cd := HASH([Block(a), Block(b)]), HASH([Block(c), Block(d)]);
      && TreeOf([a, b, c, d]) == Some(MerkleTree([a, b, c, d, ab, cd, HASH([Block(ab), Block(cd)])], 4))
      && Path([a, b, c, d], 2) == [d, ab]
  {
    var leaves, ab, cd := [a, b, c, d], NodeHash(a, b), NodeHash(c, d);
    assert Parents(leaves) == [ab, cd];
    TreeOfTwo(ab, cd);
    assert FlatTree([ab, cd]) == [ab, cd, NodeHash(ab, cd)];
    assert IsPowerOfTwo(|leaves|);
    assert FlatTree(leaves) == leaves + FlatTree(Parents(leaves)) == [a, b, c, d, ab, cd, NodeHash(ab, cd)];
    assert Path([ab, cd], 1) == [ab] + Path(Parents([ab, cd]), 0);
  }

  // ---------- bytes ----------

  function Concatenated(digests: seq<Digest>): (v: Bytes)
    ensures |v| == |digests| * DIGEST_BYTES
  {
    if |digests| == 0 then [] else
      MulDistributes(1, |digests| - 1, DIGEST_BYTES);
      digests[0] + Concatenated(digests[1..])
  }

  function TreeToBytes(t: MerkleTree): Bytes {
    Concatenated(t.digests)
  }

  function Chunks(v: Bytes, n: nat): (digests: seq<Digest>)
    requires n * DIGEST_BYTES <= |v|
    ensures |digests| == n
    decreases n
  {
    if n == 0 then [] else
      MulDistributes(n - 1, 1, DIGEST_BYTES);
      MulLe(0, n - 1, DIGEST_BYTES);
      [v[..DIGEST_BYTES]] + Chunks(v[DIGEST_BYTES..], n - 1)
  }

  function TreeFromBytes(v: Bytes): Option<MerkleTree> {
    var n := |v| / DIGEST_BYTES;
    if !IsPowerOfTwo(n + 1) || n <= 2 then None else
      MulCommutes(n, DIGEST_BYTES);
      Some(MerkleTree(Chunks(v, n), (n + 1) / 2))
  }

  lemma {:induction false} ChunksOfConcatenated(digests: seq<Digest>)
    ensures Chunks(Concatenated(digests), |digests|) == digests
  {
    if |digests| > 0 {
      var v := Concatenated(digests);
      MulDistributes(1, |digests| - 1, DIGEST_BYTES);
      MulLe(0, |digests| - 1, DIGEST_BYTES);
      assert v[..DIGEST_BYTES] == digests[0];
      assert v[DIGEST_BYTES..] == Concatenated(digests[1..]);
      ChunksOfConcatenated(digests[1..]);
    }
  }

  lemma {:induction false} ConcatenatedOfChunks(v: Bytes, n: nat)
    requires n * DIGEST_BYTES <= |v|
    ensures 0 <= n * DIGEST_BYTES && Concatenated(Chunks(v, n)) == v[..n * DIGEST_BYTES]
    decreases n
  {
    MulLe(0, n, DIGEST_BYTES);
    if n > 0 {
      MulDistributes(n - 1, 1, DIGEST_BYTES);
      MulLe(0, n - 1, DIGEST_BYTES);
      ConcatenatedOfChunks(v[DIGEST_BYTES..], n - 1);
      assert v[..n * DIGEST_BYTES] == v[..DIGEST_BYTES] + v[DIGEST_BYTES..][..(n - 1) * DIGEST_BYTES];
    }
  }

  // Bytes are taken for a tree exactly when they hold one digest less than a power of two, and at
  // least three. What is left over after the last digest is ignored.
  lemma TreeFromBytesExactlyWhen(v: Bytes)
    ensures var n := |v| / DIGEST_BYTES;
      && (TreeFromBytes(v).Some? <==> IsPowerOfTwo(n + 1) && 3 <= n)
      && 0 <= n * DIGEST_BYTES <= |v|
      && (TreeFromBytes(v).Some? ==>
            && |TreeFromBytes(v).value.digests| == n && 2 * TreeFromBytes(v).value.width == n + 1
            && TreeToBytes(TreeFromBytes(v).value) == v[..n * DIGEST_BYTES])
  {
    var n := |v| / DIGEST_BYTES;
    assert |v| == n * DIGEST_BYTES + |v| % DIGEST_BYTES;
    ConcatenatedOfChunks(v, n);
  }

  // Every tree that can be built comes back from its bytes.
  lemma TreeBytesRoundTrip(leaves: seq<Digest>)
    requires TreeOf(leaves).Some?
    ensures TreeFromBytes(TreeToBytes(TreeOf(leaves).value)) == TreeOf(leaves)
  {
    hide Upper, Concatenated, Chunks;
    var t := TreeOf(leaves).value;
    QuotientUnique(|TreeToBytes(t)|, DIGEST_BYTES, |t.digests|, 0);
    ChunksOfConcatenated(t.digests);
  }
}
