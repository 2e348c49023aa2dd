/**
 Openings of a committed column, with paths of any length: an opening that leads to the root of the
 tree is the committed one, or its check hashes a message that collides with one hashed for the tree.
 */
module Openings {
  import opened Arithmetic
  import opened Vectors
  import opened Options
  import opened Hashing
  import opened Merkle
  import opened Commitment
  import opened Protocol

  // ---------- what is hashed ----------

  // What a climb hashes, step by step.
  function Hashed(hash: Digest, i: nat, path: seq<Digest>): seq<seq<Atom>>
    decreases |path|
  {
    if path == [] then []
    else
      var input := NodeInputAt(hash, i, path[0]);
      [input] + Hashed(HASH(input), i / 2, path[1..])
  }

  // Everything that is hashed when an opening is checked.
  function HashedFor(o: LcColumn, i: nat): seq<seq<Atom>> {
    [ColumnState(o.col)] + Hashed(LeafHash(o.col), i, o.path)
  }

  function NodeInputs(level: seq<Digest>): (inputs: seq<seq<Atom>>)
    requires |level| % 2 == 0
    ensures |inputs| == |level| / 2
  {
    seq(|level| / 2, i requires 0 <= i < |level| / 2 => NodeInput(level[2 * i], level[2 * i + 1]))
  }

  // What is hashed to build a tree over a level.
  function HashedAbove(level: seq<Digest>): seq<seq<Atom>>
    requires IsPowerOfTwo(|level|)
    decreases |level|
  {
    if |level| == 1 then [] else NodeInputs(level) + HashedAbove(Parents(level))
  }

  // A commitment whose flat tree is the tree of its columns.
  predicate HoldsTree(c: LcCommit) {
    && 0 < c.nCols && |c.comm| == c.nRows * c.nCols
    && c.hashes == FlatTree(Leaves(c.comm, c.nRows, c.nCols))
  }

  function CommittedColumn(c: LcCommit, j: nat): Vector
    requires HoldsTree(c) && j < c.nCols
  {
    Column(c.comm, c.nCols, c.nRows, j)
  }

  // Everything that is hashed for a commitment: its columns and the nodes of its tree.
  ghost predicate HashedForCommitment(c: LcCommit, message: seq<Atom>)
    requires HoldsTree(c)
  {
    || (exists j :: 0 <= j < c.nCols && message == ColumnState(CommittedColumn(c, j)))
    || message in HashedAbove(Leaves(c.comm, c.nRows, c.nCols))
  }

  // ---------- collisions between openings of one length ----------

  // The pair of hash inputs that two different openings of one column give away.
  function OpeningCollision(a: LcColumn, b: LcColumn, colNum: nat): Option<Collision>
    requires |a.path| == |b.path|
  {
    var above := ClimbCollision(LeafHash(a.col), a.path, LeafHash(b.col), b.path, colNum);
    if above.Some? then above
    else if a.col != b.col then Some(Collision(ColumnState(a.col), ColumnState(b.col)))
    else None
  }

  // Two openings of one column that lead to one root are equal or contain a collision.
  lemma OpeningBinds(a: LcColumn, b: LcColumn, colNum: nat, root: Digest)
    requires |a.path| == |b.path|
    requires ColumnPathOk(a, colNum, root) && ColumnPathOk(b, colNum, root)
    ensures match OpeningCollision(a, b, colNum)
      case Some(x) => x.Valid() && x.first in HashedFor(a, colNum) && x.second in HashedFor(b, colNum)
      case None => a == b
  {
    ClimbBinds(LeafHash(a.col), a.path, LeafHash(b.col), b.path, colNum);
    CollisionIsHashed(LeafHash(a.col), a.path, LeafHash(b.col), b.path, colNum);
    if a.col != b.col {
      ColumnStateInjective(a.col, b.col);
    }
  }

  lemma {:induction false} CollisionIsHashed(a: Digest, pathA: seq<Digest>, b: Digest, pathB: seq<Digest>, i: nat)
    requires |pathA| == |pathB|
    ensures match ClimbCollision(a, pathA, b, pathB, i)
      case Some(x) => x.first in Hashed(a, i, pathA) && x.second in Hashed(b, i, pathB)
      case None => true
    decreases |pathA|
  {
    if |pathA| > 0 {
      var inA, inB := NodeInputAt(a, i, pathA[0]), NodeInputAt(b, i, pathB[0]);
      CollisionIsHashed(HASH(inA), pathA[1..], HASH(inB), pathB[1..], i / 2);
    }
  }

  lemma ColumnStateInjective(v: Vector, w: Vector)
    requires v != w
    ensures ColumnState(v) != ColumnState(w)
  {
    if ColumnState(v) == ColumnState(w) {
      assert Elements(v) == ColumnState(v)[1..] == ColumnState(w)[1..] == Elements(w);
      ElementsInjective(v, w);
    }
  }

  // A column starts with one digest, a node with two.
  lemma LeafIsNoNode(v: Vector, input: seq<Atom>)
    requires |input| == 2 && input[1].Block?
    ensures ColumnState(v) != input
  {
    assert |ColumnState(v)| == 2 ==> ColumnState(v)[1] == Elements(v)[0];
  }

  // ---------- levels of a tree ----------

  // A node's path is hashed as part of the tree.
  lemma {:induction false} PathIsHashed(level: seq<Digest>, i: nat)
    requires IsPowerOfTwo(|level|) && i < |level|
    ensures forall m :: m in Hashed(level[i], i, Path(level, i)) ==> m in HashedAbove(level)
    decreases |level|
  {
    if |level| > 1 {
      SiblingInRange(|level|, i);
      ParentOf(level, i);
      PathIsHashed(Parents(level), i / 2);
      assert Path(level, i)[1..] == Path(Parents(level), i / 2);
      var input := NodeInputAt(level[i], i, level[Sibling(i)]);
      assert input == NodeInputs(level)[i / 2] by { InputOfNode(level, i); }
      assert Hashed(level[i], i, Path(level, i)) == [input] + Hashed(HASH(input), i / 2, Path(Parents(level), i / 2));
      hide Hashed, Path, Parents, NodeInputs, NodeInputAt, IsPowerOfTwo;
    }
  }

  lemma InputOfNode(level: seq<Digest>, i: nat)
    requires |level| % 2 == 0 && i < |level|
    ensures Sibling(i) < |level| && NodeInputAt(level[i], i, level[Sibling(i)]) == NodeInputs(level)[i / 2]
  {
  }

  // The level that has p levels above it, and one more.
  function LevelBelow(level: seq<Digest>, p: nat): (lower: seq<Digest>)
    requires IsPowerOfTwo(|level|) && p < Log2(|level|)
    ensures IsPowerOfTwo(|lower|) && 1 < |lower| && |lower| % 2 == 0 && Log2(|lower|) == p + 1
    ensures IsPowerOfTwo(|lower| / 2) && 0 < |lower| / 2 && Log2(|lower| / 2) == p
    decreases |level|
  {
    if Log2(|level|) == p + 1 then level else LevelBelow(Parents(level), p)
  }

  lemma {:induction false} LevelBelowIsInTree(level: seq<Digest>, p: nat)
    requires IsPowerOfTwo(|level|) && p < Log2(|level|)
    ensures var lower := LevelBelow(level, p);
      && Root(Parents(lower)) == Root(level)
      && (forall m :: m in NodeInputs(lower) ==> m in HashedAbove(level))
      && (forall m :: m in HashedAbove(Parents(lower)) ==> m in HashedAbove(level))
    decreases |level|
  {
    if Log2(|level|) > p + 1 {
      LevelBelowIsInTree(Parents(level), p);
    }
  }

  lemma NodesAreHashed(level: seq<Digest>, k: nat)
    requires |level| % 2 == 0 && k < |level| / 2
    ensures Parents(level)[k] == HASH(NodeInputs(level)[k])
    ensures |NodeInputs(level)[k]| == 2 && NodeInputs(level)[k][1].Block?
  {
  }

  // A climb of p steps only sees the last p bits of the position.
  lemma {:induction false} ClimbWraps(hash: Digest, i: nat, path: seq<Digest>, w: nat)
    requires IsPowerOfTwo(w) && |path| == Log2(w)
    ensures Climb(hash, i, path) == Climb(hash, i % w, path) && Hashed(hash, i, path) == Hashed(hash, i % w, path)
    decreases w
  {
    if w > 1 {
      assert i % w % 2 == i % 2 && i % w / 2 == i / 2 % (w / 2) by { HalfOfRemainder(i, w / 2); }
      ClimbWraps(HASH(NodeInputAt(hash, i, path[0])), i / 2, path[1..], w / 2);
      ClimbWraps(HASH(NodeInputAt(hash, i, path[0])), i % w / 2, path[1..], w / 2);
    }
  }

  lemma HalfOfRemainder(i: nat, v: nat)
    requires 0 < v
    ensures i % (2 * v) % 2 == i % 2 && i % (2 * v) / 2 == i / 2 % v
  {
    var w, q, r := 2 * v, i / (2 * v), i % (2 * v);
    assert i == w * q + r && w * q == 2 * (v * q);
    Halved(i, v * q, r);
    QuotientUnique(i / 2, v, q, r / 2);
  }

  lemma Halved(i: nat, p: int, r: nat)
    requires i == 2 * p + r
    ensures i % 2 == r % 2 && i / 2 == p + r / 2
  {
  }

  function Shifted(i: nat, n: nat): (k: nat)
    ensures k <= i
  {
    if n == 0 then i else Shifted(i / 2, n - 1)
  }

  lemma {:induction false} ClimbSplit(hash: Digest, i: nat, path: seq<Digest>, n: nat)
    requires n <= |path|
    ensures var middle := Climb(hash, i, path[..n]);
      && Climb(hash, i, path) == Climb(middle, Shifted(i, n), path[n..])
      && Hashed(hash, i, path) == Hashed(hash, i, path[..n]) + Hashed(middle, Shifted(i, n), path[n..])
    decreases n
  {
    if n > 0 {
      ClimbSplit(HASH(NodeInputAt(hash, i, path[0])), i / 2, path[1..], n - 1);
      assert path[1..][..n - 1] == path[..n][1..] && path[1..][n - 1..] == path[n..];
    } else {
      assert path[0..] == path && path[..0] == [];
    }
  }

  // ---------- openings against a tree ----------

  // A path that is too short: the column's hash is a node of the tree, or they differ further up.
  function ShortCollision(leaves: seq<Digest>, o: LcColumn, j: nat): Collision
    requires IsPowerOfTwo(|leaves|) && |o.path| < Log2(|leaves|)
  {
    var lower := LevelBelow(leaves, |o.path|);
    var upper := Parents(lower);
    var k := j % |upper|;
    var above := ClimbCollision(upper[k], Path(upper, k), LeafHash(o.col), o.path, k);
    if above.Some? then above.value
    else Collision(NodeInputs(lower)[k], ColumnState(o.col))
  }

  lemma ShortCollides(leaves: seq<Digest>, o: LcColumn, j: nat)
    requires IsPowerOfTwo(|leaves|) && |o.path| < Log2(|leaves|) && ColumnPathOk(o, j, Root(leaves))
    ensures var x := ShortCollision(leaves, o, j);
      x.Valid() && x.first in HashedAbove(leaves) && x.second in HashedFor(o, j)
  {
    hide IsPowerOfTwo, Log2, Parents, Path, Root, NodeInputs, HashedAbove, LevelBelow, Hashed, Climb, ClimbCollision;
    var lower := LevelBelow(leaves, |o.path|);
    var upper := Parents(lower);
    var k := j % |upper|;
    NodesAreHashed(lower, k);
    LevelBelowIsInTree(leaves, |o.path|);
    ClimbWraps(LeafHash(o.col), j, o.path, |upper|);
    PathClimbsToRoot(upper, k);
    PathIsHashed(upper, k);
    ClimbBinds(upper[k], Path(upper, k), LeafHash(o.col), o.path, k);
    CollisionIsHashed(upper[k], Path(upper, k), LeafHash(o.col), o.path, k);
    LeafIsNoNode(o.col, NodeInputs(lower)[k]);
  }

  // A path that is too long: what is hashed last before the height of the leaves is a node, and in
  // its place the tree has a column.
  function LongCollision(c: LcCommit, o: LcColumn, j: nat): Collision
    requires HoldsTree(c) && j < c.nCols && Log2(c.nCols) < |o.path|
  {
    Log2OfNextPower(c.nCols);
    var leaves := Leaves(c.comm, c.nRows, c.nCols);
    var n := |o.path| - Log2(c.nCols);
    var k, below := Shifted(j, n), Climb(LeafHash(o.col), j, o.path[..n - 1]);
    var input := NodeInputAt(below, Shifted(j, n - 1), o.path[n - 1]);
    var above := ClimbCollision(leaves[k], Path(leaves, k), HASH(input), o.path[n..], k);
    if above.Some? then above.value else Collision(ColumnState(CommittedColumn(c, k)), input)
  }

  lemma LongCollides(c: LcCommit, o: LcColumn, j: nat)
    requires HoldsTree(c) && j < c.nCols && Log2(c.nCols) < |o.path|
    requires ColumnPathOk(o, j, Root(Leaves(c.comm, c.nRows, c.nCols)))
    ensures var x := LongCollision(c, o, j);
      x.Valid() && HashedForCommitment(c, x.first) && x.second in HashedFor(o, j)
  {
    Log2OfNextPower(c.nCols);
    var leaves := Leaves(c.comm, c.nRows, c.nCols);
    var n := |o.path| - Log2(c.nCols);
    var k, leaf := Shifted(j, n), LeafHash(o.col);
    var below := Climb(leaf, j, o.path[..n - 1]);
    var input := NodeInputAt(below, Shifted(j, n - 1), o.path[n - 1]);
    ClimbSplit(leaf, j, o.path, n - 1);
    assert o.path[n - 1..][1..] == o.path[n..];
    ShiftedOnce(j, n - 1);
    PathClimbsToRoot(leaves, k);
    PathIsHashed(leaves, k);
    ClimbBinds(leaves[k], Path(leaves, k), HASH(input), o.path[n..], k);
    CollisionIsHashed(leaves[k], Path(leaves, k), HASH(input), o.path[n..], k);
    LeafIsNoNode(CommittedColumn(c, k), input);
  }

  lemma {:induction false} ShiftedOnce(i: nat, n: nat)
    ensures Shifted(i, n + 1) == Shifted(i, n) / 2
  {
    if n > 0 {
      ShiftedOnce(i / 2, n - 1);
    }
  }

  // ---------- openings of committed columns ----------

  // The collision that an accepted opening of column j gives away, if it is not the committed one.
  function CommittedCollision(c: LcCommit, o: LcColumn, j: nat): Option<Collision>
    requires HoldsTree(c) && j < c.nCols
  {
    Log2OfNextPower(c.nCols);
    if |o.path| < Log2(c.nCols) then Some(ShortCollision(Leaves(c.comm, c.nRows, c.nCols), o, j))
    else if Log2(c.nCols) < |o.path| then Some(LongCollision(c, o, j))
    else OpeningCollision(OpenColumnSpec(c, j).value, o, j)
  }

  // Whatever the length of its path, an accepted opening is the committed one, or one of the
  // messages hashed to check it collides with one hashed for the commitment.
  lemma CommittedOpeningBinds(c: LcCommit, o: LcColumn, j: nat)
    requires HoldsTree(c) && j < c.nCols && ColumnPathOk(o, j, Last(c.hashes))
    ensures match CommittedCollision(c, o, j)
      case Some(x) => x.Valid() && HashedForCommitment(c, x.first) && x.second in HashedFor(o, j)
      case None => o == OpenColumnSpec(c, j).value
  {
    hide HashedForCommitment, HashedFor, FlatTree, FlatPath, Hashed, Path, Climb;
    var leaves := Leaves(c.comm, c.nRows, c.nCols);
    Log2OfNextPower(c.nCols);
    LastIsRoot(leaves);
    if |o.path| < Log2(c.nCols) {
      ShortCollides(leaves, o, j);
      NodeIsHashed(c, ShortCollision(leaves, o, j).first);
    } else if Log2(c.nCols) < |o.path| {
      LongCollides(c, o, j);
    } else {
      HonestOpeningClimbs(c.comm, c.nRows, c.nCols, j);
      OpeningBinds(OpenColumnSpec(c, j).value, o, j, Root(leaves));
      HonestOpeningIsHashed(c, j);
    }
  }

  lemma NodeIsHashed(c: LcCommit, message: seq<Atom>)
    requires HoldsTree(c) && message in HashedAbove(Leaves(c.comm, c.nRows, c.nCols))
    ensures HashedForCommitment(c, message)
  {
  }

  // What is hashed to check an honest opening is hashed for the commitment too.
  lemma HonestOpeningIsHashed(c: LcCommit, j: nat)
    requires HoldsTree(c) && j < c.nCols
    ensures forall m :: m in HashedFor(OpenColumnSpec(c, j).value, j) ==> HashedForCommitment(c, m)
  {
    var leaves := Leaves(c.comm, c.nRows, c.nCols);
    FlatPathIsPath(leaves, j);
    PathIsHashed(leaves, j);
    var column := CommittedColumn(c, j);
    assert OpenColumnSpec(c, j).value == LcColumn(column, Path(leaves, j)) && leaves[j] == LeafHash(column);
    hide Hashed, HashedAbove, Path, FlatPath, FlatTree, Leaves, IsPowerOfTwo, NextPowerOfTwo;
  }

  // ---------- the columns of a proof ----------

  // The first collision between the columns sent and the committed ones.
  function FirstCollision(c: LcCommit, columns: seq<LcColumn>, cols: seq<nat>, n: nat): Option<Collision>
    requires HoldsTree(c) && n <= |columns| && n <= |cols|
    requires forall i :: 0 <= i < |cols| ==> cols[i] < c.nCols
  {
    if n == 0 then None else
      var before := FirstCollision(c, columns, cols, n - 1);
      if before.Some? then before else CommittedCollision(c, columns[n - 1], cols[n - 1])
  }

  // A collision between a message hashed for the commitment and one hashed to check these columns.
  ghost predicate Reveals(c: LcCommit, columns: seq<LcColumn>, cols: seq<nat>, n: nat, x: Collision)
    requires HoldsTree(c) && n <= |columns| && n <= |cols|
  {
    && x.Valid() && HashedForCommitment(c, x.first)
    && exists i :: 0 <= i < n && x.second in HashedFor(columns[i], cols[i])
  }

  lemma {:induction false} ColumnsBind(c: LcCommit, columns: seq<LcColumn>, cols: seq<nat>, n: nat, root: Digest)
    requires HoldsTree(c) && root == Last(c.hashes) && n <= |columns| && n <= |cols|
    requires forall i :: 0 <= i < |cols| ==> cols[i] < c.nCols
    requires forall i :: 0 <= i < n ==> ColumnPathOk(columns[i], cols[i], root)
    ensures match FirstCollision(c, columns, cols, n)
      case Some(x) => Reveals(c, columns, cols, n, x)
      case None => forall i :: 0 <= i < n ==> columns[i] == OpenColumnSpec(c, cols[i]).value
  {
    hide HoldsTree, CommittedCollision, HashedForCommitment, HashedFor;
    if n > 0 {
      ColumnsBind(c, columns, cols, n - 1, root);
      CommittedOpeningBinds(c, columns[n - 1], cols[n - 1]);
    }
  }

  // ---------- honest columns ----------

  lemma {:induction false} NoCollisionWithItself(hash: Digest, path: seq<Digest>, i: nat)
    ensures ClimbCollision(hash, path, hash, path, i) == None
    decreases |path|
  {
    if |path| > 0 {
      NoCollisionWithItself(HASH(NodeInputAt(hash, i, path[0])), path[1..], i / 2);
    }
  }

  lemma {:induction false} HonestColumnsDoNotCollide(c: LcCommit, columns: seq<LcColumn>, cols: seq<nat>, n: nat)
    requires HoldsTree(c) && n <= |columns| && n <= |cols| && forall i :: 0 <= i < |cols| ==> cols[i] < c.nCols
    requires forall i :: 0 <= i < n ==> columns[i] == OpenColumnSpec(c, cols[i]).value
    ensures FirstCollision(c, columns, cols, n) == None
  {
    if n > 0 {
      HonestColumnsDoNotCollide(c, columns, cols, n - 1);
      Log2OfNextPower(c.nCols);
      NoCollisionWithItself(LeafHash(columns[n - 1].col), columns[n - 1].path, cols[n - 1]);
    }
  }
}
