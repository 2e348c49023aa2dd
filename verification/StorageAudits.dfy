/**
 The client's audit of a stored file: it asks for some columns, compares their hashes with the
 leaves it derived from its own copy, and checks their paths against the root it kept.
 */
module StorageAudits {
  import opened Arithmetic
  import opened Vectors
  import opened Bytes
  import opened Options
  import opened Hashing
  import opened Merkle
  import opened LinearCode
  import opened Commitment
  import opened Protocol
  import opened Openings
  import opened DataFields
  import opened EncodedFiles
  import opened RowStreams
  import opened CommitmentRoutes

  // ---------- the checks ----------

  method HashFieldVecToDigest(column: Vector) returns (digest: Digest)
    ensures digest == LeafHash(column)
  {
    var hasher := [Block(DefaultDigest())];
    for i := 0 to |column|
      invariant hasher == ColumnState(column[..i])
    {
      ElementsPush(column[..i], column[i]);
      assert column[..i + 1] == column[..i] + [column[i]];
      hasher := hasher + [Element(column[i])];
    }
    assert column[..|column|] == column;
    digest := HASH(hasher);
  }

  function ReceivedLeaves(columns: seq<LcColumn>): (leaves: seq<Digest>)
    ensures |leaves| == |columns|
  {
    seq<Digest>(|columns|, i requires 0 <= i < |columns| => LeafHash(columns[i].col))
  }

  // The error of the audit, if any: numbers, then leaves, then paths.
  function AuditError(root: Digest, local: seq<Digest>, requested: seq<nat>, received: seq<LcColumn>, required: nat):
    Option<VerifierError>
  {
    if required < |local| || required < |requested| || required < |received| then Some(NumColOpens)
    else if |local| != |requested| || |received| != |requested| then Some(NumColOpens)
    else if local != ReceivedLeaves(received) then Some(NumColOpens)
    else if !(forall i :: 0 <= i < |received| ==> ColumnPathOk(received[i], requested[i], root)) then Some(ColumnEval)
    else None
  }

  method VerifyColumnLeaves(local: seq<Digest>, requested: seq<nat>, received: seq<Digest>)
    returns (e: Option<VerifierError>)
    ensures e == if |local| == |requested| == |received| && local == received then None else Some(NumColOpens)
  {
    if |local| != |requested| || |received| != |requested| {
      return Some(NumColOpens);
    }
    for i := 0 to |local|
      invariant local[..i] == received[..i]
    {
      if local[i] != received[i] {
        return Some(NumColOpens);
      }
    }
    assert local[..|local|] == local && received[..|local|] == received;
    e := None;
  }

  method VerifyColumnPaths(root: Digest, requested: seq<nat>, received: seq<LcColumn>)
    returns (e: Option<VerifierError>)
    ensures e ==
      if |received| == |requested| && forall i :: 0 <= i < |received| ==> ColumnPathOk(received[i], requested[i], root)
      then None else Some(ColumnEval)
  {
    if |received| != |requested| {
      return Some(ColumnEval);
    }
    for i := 0 to |received|
      invariant forall j :: 0 <= j < i ==> ColumnPathOk(received[j], requested[j], root)
    {
      var ok := VerifyColumnPath(received[i], requested[i], root);
      if !ok {
        return Some(ColumnEval);
      }
    }
    e := None;
  }

  method VerifyCommitment(root: Digest, local: seq<Digest>, requested: seq<nat>, received: seq<LcColumn>, required: nat)
    returns (e: Option<VerifierError>)
    ensures e == AuditError(root, local, requested, received, required)
  {
    if required < |local| || required < |requested| || required < |received| {
      return Some(NumColOpens);
    }
    var leaves: seq<Digest> := [];
    for i := 0 to |received|
      invariant leaves == ReceivedLeaves(received)[..i]
    {
      var leaf := HashFieldVecToDigest(received[i].col);
      leaves := leaves + [leaf];
    }
    e := VerifyColumnLeaves(local, requested, leaves);
    if e.None? {
      e := VerifyColumnPaths(root, requested, received);
    }
  }

  // ---------- what the audit establishes ----------

  // As many leaves and columns as were asked for, and no more than required.
  predicate Counted(local: seq<Digest>, requested: seq<nat>, received: seq<LcColumn>, required: nat) {
    |local| == |requested| == |received| <= required
  }

  // The audit passes exactly when the numbers are right, every column hashes to the leaf at hand, and
  // every column climbs to the root. Fewer columns than required are not refused.
  lemma AuditPassesExactlyWhen(root: Digest, local: seq<Digest>, requested: seq<nat>, received: seq<LcColumn>,
                               required: nat)
    ensures AuditError(root, local, requested, received, required) == None <==>
      Counted(local, requested, received, required)
      && forall i :: 0 <= i < |received| ==>
           && LeafHash(received[i].col) == local[i]
           && Climb(LeafHash(received[i].col), requested[i], received[i].path) == root
    ensures AuditError(root, local, requested, received, required) == Some(ColumnEval) <==>
      Counted(local, requested, received, required)
      && (forall i :: 0 <= i < |received| ==> LeafHash(received[i].col) == local[i])
      && exists i :: 0 <= i < |received| && Climb(LeafHash(received[i].col), requested[i], received[i].path) != root
    ensures AuditError(root, local, requested, received, required) in [None, Some(ColumnEval), Some(NumColOpens)]
  {
    if |local| == |received| {
      assert local == ReceivedLeaves(received) <==>
        forall i :: 0 <= i < |received| ==> LeafHash(received[i].col) == local[i];
    }
    assert forall i :: 0 <= i < |received| && i < |requested| ==>
      (ColumnPathOk(received[i], requested[i], root) <==>
        Climb(LeafHash(received[i].col), requested[i], received[i].path) == root);
  }

  // Against a root that one of the columns does not climb to, the audit fails.
  lemma OtherRootFails(root: Digest, local: seq<Digest>, requested: seq<nat>, received: seq<LcColumn>, required: nat,
                       i: nat)
    requires i < |received| && i < |requested|
    requires Climb(LeafHash(received[i].col), requested[i], received[i].path) != root
    ensures AuditError(root, local, requested, received, required) != None
  {
    AuditPassesExactlyWhen(root, local, requested, received, required);
  }

  // The commitment to a file, as its store holds it.
  ghost function StoreCommitment(c: Codec, raw: Bytes): (commit: LcCommit)
    ensures HoldsTree(commit) && commit.nCols == c.enc.nCols
    ensures commit.hashes == FlatTree(RowLeaves(FileRows(c, raw), c.enc.nCols))
    ensures forall j :: 0 <= j < c.enc.nCols ==>
      OpenColumnSpec(commit, j) == Ok(FullColumn(FileRows(c, raw), c.enc.nCols, j))
  {
    CommittedRows(c, raw);
    var n, w, padded := RowsNeeded(c, |raw|), c.enc.nCols, PaddedCoeffs(c.enc, FromBytes(raw));
    var comm := EncodeRows(c.enc, padded, n).value;
    LeavesAreRowLeaves(comm, n, w);
    NextPowerOfTwoFixed(w);
    var commit := LcCommit(comm, padded, n, w, c.enc.nPerRow, FlatTree(Leaves(comm, n, w)));
    assert forall j :: 0 <= j < w ==> OpenColumnSpec(commit, j) == Ok(FullColumn(FileRows(c, raw), w, j)) by {
      forall j | 0 <= j < w ensures OpenColumnSpec(commit, j) == Ok(FullColumn(FileRows(c, raw), w, j)) {
        ColumnOfRows(comm, w, n, j);
      }
    }
    commit
  }

  // Against the root of the file's encoding, whatever leaves the client compared with: each column
  // received is the store's with its full path, or its check hashes a message that collides with one
  // hashed for the file.
  lemma PassingServerOpensStore(c: Codec, raw: Bytes, local: seq<Digest>, requested: seq<nat>,
                                received: seq<LcColumn>, required: nat, i: nat)
    requires AuditError(Last(FlatTree(RowLeaves(FileRows(c, raw), c.enc.nCols))), local, requested, received, required)
          == None
    requires i < |requested| && requested[i] < c.enc.nCols
    ensures |received| == |requested|
    ensures var commit := StoreCommitment(c, raw);
      match CommittedCollision(commit, received[i], requested[i])
      case Some(x) =>
        x.Valid() && HashedForCommitment(commit, x.first) && x.second in HashedFor(received[i], requested[i])
      case None => received[i] == FullColumn(FileRows(c, raw), c.enc.nCols, requested[i])
  {
    var root := Last(FlatTree(RowLeaves(FileRows(c, raw), c.enc.nCols)));
    AuditPassesExactlyWhen(root, local, requested, received, required);
    assert ColumnPathOk(received[i], requested[i], root);
    hide FlatTree, Climb, FileRows, CommittedCollision, HashedFor, HashedForCommitment;
    CommittedOpeningBinds(StoreCommitment(c, raw), received[i], requested[i]);
  }

  // The columns of the file's encoding at the places asked for.
  function TrueColumns(c: Codec, raw: Bytes, requested: seq<nat>): (columns: seq<LcColumn>)
    requires forall i :: 0 <= i < |requested| ==> requested[i] < c.enc.nCols
    ensures |columns| == |requested|
  {
    seq<LcColumn>(|requested|, i requires 0 <= i < |requested| =>
      FullColumn(FileRows(c, raw), c.enc.nCols, requested[i]))
  }

  // A server that holds the store of the file passes.
  lemma HonestServerPasses(c: Codec, raw: Bytes, requested: seq<nat>, required: nat)
    requires forall i :: 0 <= i < |requested| ==> requested[i] < c.enc.nCols
    requires |requested| <= required
    ensures IsPowerOfTwo(c.enc.nCols)
    ensures var leaves := RowLeaves(FileRows(c, raw), c.enc.nCols);
      AuditError(Last(FlatTree(leaves)), Selected(leaves, requested), requested, TrueColumns(c, raw, requested),
                 required) == None
  {
    var leaves, columns := RowLeaves(FileRows(c, raw), c.enc.nCols), TrueColumns(c, raw, requested);
    forall i | 0 <= i < |requested|
      ensures Selected(leaves, requested)[i] == ReceivedLeaves(columns)[i]
      ensures ColumnPathOk(columns[i], requested[i], Last(FlatTree(leaves)))
    {
      StoreColumnsVerify(c, raw, requested[i]);
    }
    assert Selected(leaves, requested) == ReceivedLeaves(columns);
  }

  // A server that passes sent the true columns of the file, or a collision.
  lemma PassingServerHoldsColumns(c: Codec, raw: Bytes, root: Digest, requested: seq<nat>, received: seq<LcColumn>,
                                  required: nat, i: nat)
    requires forall i :: 0 <= i < |requested| ==> requested[i] < c.enc.nCols
    requires AuditError(root, Selected(RowLeaves(FileRows(c, raw), c.enc.nCols), requested), requested,
                        received, required) == None
    requires i < |requested|
    ensures |received| == |requested|
    ensures var truth := ColumnOf(FileRows(c, raw), c.enc.nCols, requested[i]);
      received[i].col == truth || Collision(ColumnState(received[i].col), ColumnState(truth)).Valid()
  {
    var truth := ColumnOf(FileRows(c, raw), c.enc.nCols, requested[i]);
    var local := Selected(RowLeaves(FileRows(c, raw), c.enc.nCols), requested);
    assert LeafHash(truth) == local[i] == ReceivedLeaves(received)[i] == LeafHash(received[i].col);
    var u, v := received[i].col, truth;
    if ColumnState(u) == ColumnState(v) {
      assert Elements(u) == ColumnState(u)[1..] == ColumnState(v)[1..] == Elements(v);
      ElementsInjective(u, v);
    }
  }

  // ---------- the server's evaluation ----------

  // The columns dealt out of a matrix stored row after row: q entries in each, one more in the first t.
  ghost predicate Dealt(columns: seq<Vector>, comm: Vector, w: nat, n: nat, q: nat, t: nat)
    requires n * w <= |comm|
  {
    && |columns| == w && t <= w && q <= n && (0 < t ==> q < n)
    && forall j :: 0 <= j < w ==> columns[j] == Column(comm, w, n, j)[..if j < t then q + 1 else q]
  }

  lemma DealOne(columns: seq<Vector>, comm: Vector, w: nat, n: nat, q: nat, t: nat)
    requires n * w <= |comm| && Dealt(columns, comm, w, n, q, t) && t < w && q < n
    ensures 0 <= q * w + t < |comm|
    ensures Dealt(columns[t := columns[t] + [comm[q * w + t]]], comm, w, n, q, t + 1)
  {
    CellInRange(n, w, q, t);
    var column := Column(comm, w, n, t);
    assert column[..q + 1] == column[..q] + [comm[q * w + t]];
  }

  // Every column of the encoded matrix weighted by the left vector.
  method VerifiablePolynomialEvaluation(c: LcCommit, left: Vector) returns (result: Vector)
    requires |c.comm| == c.nRows * c.nCols && 0 < c.nCols
    ensures |result| == c.nCols
    ensures forall j :: 0 <= j < c.nCols ==> result[j] == Dot(left, Column(c.comm, c.nCols, c.nRows, j))
  {
    var columns := seq(c.nCols, _ => []);
    ghost var q, t := 0, 0;
    for i := 0 to |c.comm|
      invariant i == q * c.nCols + t && t < c.nCols
      invariant Dealt(columns, c.comm, c.nCols, c.nRows, q, t)
    {
      QuotientUnique(i, c.nCols, q, t);
      NextCell(i, c.nRows, c.nCols, q, t);
      DealOne(columns, c.comm, c.nCols, c.nRows, q, t);
      columns := columns[i % c.nCols := columns[i % c.nCols] + [c.comm[i]]];
      if t + 1 == c.nCols {
        MulDistributes(q, 1, c.nCols);
        q, t := q + 1, 0;
      } else {
        t := t + 1;
      }
    }
    CellUnique(c.nCols, c.nRows, 0, q, t);
    result := [];
    for j := 0 to c.nCols
      invariant |result| == j
      invariant forall k :: 0 <= k < j ==> result[k] == Dot(left, Column(c.comm, c.nCols, c.nRows, k))
    {
      assert columns[j] == Column(c.comm, c.nCols, c.nRows, j);
      var entry := DotProduct(left, columns[j]);
      result := result + [entry];
    }
  }

  lemma NextCell(i: nat, n: nat, w: nat, q: nat, t: nat)
    requires i == q * w + t < n * w && t < w
    ensures q < n
  {
  }

  // For a linear code that vector is the encoding of the collapsed row, so the client could check
  // any of its entries against the row.
  lemma EvaluationIsCodeword(coeffs: Vector, enc: Encoding, c: LcCommit, left: Vector, j: nat)
    requires 0 < |coeffs| && IsLinearCode(enc) && CommitSpec(coeffs, enc) == Ok(c)
    requires |left| == c.nRows && j < c.nCols
    ensures |c.comm| == c.nRows * c.nCols && |left| * c.nPerRow <= |c.coeffs|
    ensures Dot(left, Column(c.comm, c.nCols, c.nRows, j)) == Codeword(enc, Collapse(c.coeffs, c.nPerRow, left))[j]
  {
    EncodedColumnDot(enc, c.coeffs, left, j);
  }
}
