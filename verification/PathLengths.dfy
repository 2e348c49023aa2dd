/**
 The path check takes paths of any length. Whether openings of one column with paths of different
 lengths still bind is decided by the lengths and the column number, not by the hash function.
 */
module PathLengths {
  import opened Vectors
  import opened Hashing
  import opened Merkle
  import opened Commitment
  import opened Protocol
  import opened Openings

  // The side from which step k of a climb from position i joins its sibling.
  function Turn(i: nat, k: nat): nat {
    if k == 0 then i % 2 else Turn(i / 2, k - 1)
  }

  function Joined(hash: Digest, turn: nat, sibling: Digest): seq<Atom> {
    if turn == 0 then NodeInput(hash, sibling) else NodeInput(sibling, hash)
  }

  // A climb seen from its last step.
  lemma {:induction false} ClimbLast(hash: Digest, i: nat, path: seq<Digest>)
    requires 0 < |path|
    ensures var n := |path| - 1;
      var input := Joined(Climb(hash, i, path[..n]), Turn(i, n), path[n]);
      Climb(hash, i, path) == HASH(input) && Hashed(hash, i, path) == Hashed(hash, i, path[..n]) + [input]
    decreases |path|
  {
    var n := |path| - 1;
    if n > 0 {
      ClimbLast(HASH(NodeInputAt(hash, i, path[0])), i / 2, path[1..]);
      assert path[1..][..n - 1] == path[..n][1..];
      assert path[..n][0] == path[0];
    }
  }

  // Counted from the root, the shorter climb takes the same turns as the longer one.
  ghost predicate SameTurns(i: nat, m: nat, n: nat) {
    m <= n && forall j :: 0 <= j < m ==> Turn(i, j) == Turn(i, j + (n - m))
  }

  // Two of the messages hashed for one opening and for the other collide.
  ghost predicate Collide(a: LcColumn, b: LcColumn, i: nat) {
    exists x: Collision :: x.Valid() && x.first in HashedFor(a, i) && x.second in HashedFor(b, i)
  }

  // With the same turns, two openings of different columns meet in a collision; a shorter opening
  // meets the inside of a longer one, whatever the columns.
  lemma {:induction false} SameTurnsCollide(a: LcColumn, b: LcColumn, i: nat, root: Digest) returns (x: Collision)
    requires SameTurns(i, |a.path|, |b.path|)
    requires ColumnPathOk(a, i, root) && ColumnPathOk(b, i, root)
    requires a.col != b.col || |a.path| < |b.path|
    ensures x.Valid() && x.first in HashedFor(a, i) && x.second in HashedFor(b, i)
    decreases |a.path|
  {
    var m, n := |a.path| - 1, |b.path| - 1;
    if n < 0 {
      x := Collision(ColumnState(a.col), ColumnState(b.col));
      ColumnStateInjective(a.col, b.col);
    } else {
      ClimbLast(LeafHash(b.col), i, b.path);
      var shortB := LcColumn(b.col, b.path[..n]);
      var inB := Joined(Climb(LeafHash(b.col), i, shortB.path), Turn(i, n), b.path[n]);
      if m < 0 {
        x := Collision(ColumnState(a.col), inB);
        LeafIsNoNode(a.col, inB);
      } else {
        ClimbLast(LeafHash(a.col), i, a.path);
        var shortA := LcColumn(a.col, a.path[..m]);
        var inA := Joined(Climb(LeafHash(a.col), i, shortA.path), Turn(i, m), a.path[m]);
        if inA != inB {
          x := Collision(inA, inB);
        } else {
          assert Turn(i, m) == Turn(i, m + (n - m));
          assert inA[0].digest == inB[0].digest && inA[1].digest == inB[1].digest;
          x := SameTurnsCollide(shortA, shortB, i, Climb(LeafHash(a.col), i, shortA.path));
        }
      }
    }
  }

  // The path made longer by n siblings, each the digest it is joined with.
  function Extended(leaf: Digest, i: nat, path: seq<Digest>, n: nat): (r: seq<Digest>)
    ensures |r| == |path| + n
  {
    if n == 0 then path
    else
      var before := Extended(leaf, i, path, n - 1);
      before + [Climb(leaf, i, before)]
  }

  lemma {:induction false} ExtendedMeet(a: Digest, pathA: seq<Digest>, b: Digest, pathB: seq<Digest>, i: nat, n: nat)
    requires Climb(a, i, pathA) == Climb(b, i, pathB)
    ensures Climb(a, i, Extended(a, i, pathA, n)) == Climb(b, i, Extended(b, i, pathB, n))
  {
    if n > 0 {
      ExtendedMeet(a, pathA, b, pathB, i, n - 1);
      var x, y := Extended(a, i, pathA, n - 1), Extended(b, i, pathB, n - 1);
      ClimbOneMore(a, i, x, Climb(a, i, x));
      ClimbOneMore(b, i, y, Climb(b, i, y));
    }
  }

  // Where a turn differs, any two columns have openings of these lengths under one root: each
  // climb takes the other's digest as its sibling there.
  ghost function Crossed(a: Vector, b: Vector, i: nat, m: nat, n: nat): (r: (LcColumn, LcColumn))
    requires m < n && !SameTurns(i, m, n)
    ensures r.0.col == a && |r.0.path| == m && r.1.col == b && |r.1.path| == n
    ensures exists root :: ColumnPathOk(r.0, i, root) && ColumnPathOk(r.1, i, root)
  {
    var j: nat :| j < m && Turn(i, j) != Turn(i, j + (n - m));
    var lowA, lowB := seq(j, _ => DefaultDigest()), seq(j + (n - m), _ => DefaultDigest());
    var leafA, leafB := LeafHash(a), LeafHash(b);
    var hashA, hashB := Climb(leafA, i, lowA), Climb(leafB, i, lowB);
    ClimbOneMore(leafA, i, lowA, hashB);
    ClimbOneMore(leafB, i, lowB, hashA);
    TurnIsSide(i, j);
    TurnIsSide(i, j + (n - m));
    ExtendedMeet(leafA, lowA + [hashB], leafB, lowB + [hashA], i, m - j - 1);
    var r := (LcColumn(a, Extended(leafA, i, lowA + [hashB], m - j - 1)),
              LcColumn(b, Extended(leafB, i, lowB + [hashA], m - j - 1)));
    assert ColumnPathOk(r.0, i, Climb(leafA, i, r.0.path));
    r
  }

  lemma ClimbOneMore(hash: Digest, i: nat, path: seq<Digest>, sibling: Digest)
    ensures Climb(hash, i, path + [sibling]) == HASH(Joined(Climb(hash, i, path), Turn(i, |path|), sibling))
  {
    ClimbLast(hash, i, path + [sibling]);
    assert (path + [sibling])[..|path|] == path;
  }

  lemma {:induction false} TurnIsSide(i: nat, k: nat)
    ensures Turn(i, k) == 0 || Turn(i, k) == 1
  {
    if k > 0 {
      TurnIsSide(i / 2, k - 1);
    }
  }

  // ---------- binding, exactly ----------

  // Openings of column i with paths of these lengths under one root show the same column, or two of
  // the messages hashed for them collide.
  ghost predicate Binds(i: nat, m: nat, n: nat) {
    forall a: LcColumn, b: LcColumn, root {:trigger ColumnPathOk(a, i, root), ColumnPathOk(b, i, root)} ::
      |a.path| == m && |b.path| == n && ColumnPathOk(a, i, root) && ColumnPathOk(b, i, root)
      ==> a.col == b.col || Collide(a, b, i)
  }

  // Openings bind exactly when the turns agree; equal lengths are the plain case. Of the hash it is
  // enough that it has no collision among the messages of one pair of crossed openings.
  lemma BindingIsDecidedByTurns(i: nat, m: nat, n: nat, a: Vector, b: Vector)
    requires m <= n && a != b
    requires !SameTurns(i, m, n) ==> !Collide(Crossed(a, b, i, m, n).0, Crossed(a, b, i, m, n).1, i)
    ensures Binds(i, m, n) <==> SameTurns(i, m, n)
  {
    if SameTurns(i, m, n) {
      forall x: LcColumn, y: LcColumn, root |
        |x.path| == m && |y.path| == n && ColumnPathOk(x, i, root) && ColumnPathOk(y, i, root)
        ensures x.col == y.col || Collide(x, y, i)
      {
        if x.col != y.col {
          var collision := SameTurnsCollide(x, y, i, root);
        }
      }
    } else {
      var (x, y) := Crossed(a, b, i, m, n);
      var root :| ColumnPathOk(x, i, root) && ColumnPathOk(y, i, root);
    }
  }

  // Column 1, paths of one and of two digests: any two columns pass under one root.
  lemma ColumnOneDoesNotBind(a: Vector, b: Vector, p: Digest)
    requires a != b
    ensures var leafA, nodeB := LeafHash(a), NodeHash(p, LeafHash(b));
      var root := NodeHash(nodeB, leafA);
      ColumnPathOk(LcColumn(a, [nodeB]), 1, root) && ColumnPathOk(LcColumn(b, [p, leafA]), 1, root)
  {
    var leafA, nodeB := LeafHash(a), NodeHash(p, LeafHash(b));
    assert Climb(leafA, 1, [nodeB]) == Climb(NodeHash(nodeB, leafA), 0, [nodeB][1..]);
    assert [p, leafA][1..] == [leafA];
    assert Climb(LeafHash(b), 1, [p, leafA]) == Climb(nodeB, 0, [leafA]);
    assert Climb(nodeB, 0, [leafA]) == Climb(NodeHash(nodeB, leafA), 0, [leafA][1..]);
  }

  // ---------- the columns of a tree ----------

  lemma {:induction false} NoTurnsAbove(i: nat, width: nat, k: nat)
    requires IsPowerOfTwo(width) && i < width && Log2(width) <= k
    ensures Turn(i, k) == 0
    decreases width
  {
    if width > 1 {
      NoTurnsAbove(i / 2, width / 2, k - 1);
    } else {
      StraightClimb(k);
    }
  }

  lemma {:induction false} StraightClimb(k: nat)
    ensures Turn(0, k) == 0
  {
    if k > 0 {
      StraightClimb(k - 1);
    }
  }

  lemma {:induction false} LastTurn(i: nat) returns (j: nat)
    requires 0 < i
    ensures Turn(i, j) == 1 && forall k :: j < k ==> Turn(i, k) == 0
    decreases i
  {
    if i == 1 {
      j := 0;
      forall k: nat | j < k ensures Turn(i, k) == 0 {
        StraightClimb(k - 1);
      }
    } else {
      j := LastTurn(i / 2);
      forall k: nat | j + 1 < k ensures Turn(i, k) == 0 {
        assert Turn(i, k) == Turn(i / 2, k - 1);
      }
      j := j + 1;
    }
  }

  // Two openings of which one has a path as long as those in a tree of nCols columns and the other a
  // longer one: they bind for column 0 and for no other. (Next to a tree a longer path always gives a
  // collision: the module Openings.)
  lemma LongerPathsBindColumnZeroOnly(i: nat, nCols: nat, n: nat)
    requires i < nCols && Log2(nCols) < n
    ensures SameTurns(i, Log2(nCols), n) <==> i == 0
  {
    var m := Log2(nCols);
    if i == 0 {
      forall j: nat | j < m ensures Turn(i, j) == Turn(i, j + (n - m)) {
        StraightClimb(j);
        StraightClimb(j + (n - m));
      }
    } else {
      var j := LastTurn(i);
      Log2OfNextPower(nCols);
      if m <= j {
        NoTurnsAbove(i, NextPowerOfTwo(nCols), j);
      }
      assert Turn(i, j) != Turn(i, j + (n - m));
    }
  }
}
