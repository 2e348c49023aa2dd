/** Hashing the columns of a matrix while its rows arrive. */
module ColumnDigests {
  import opened Vectors
  import opened Options
  import opened Hashing
  import opened MerkleTrees
  import opened EncodedFiles

  // What the hashers of all columns have absorbed after these rows.
  function DigestStates(rows: seq<Vector>, width: nat): (states: seq<seq<Atom>>)
    requires Rectangular(rows, width)
    ensures |states| == width
  {
    seq(width, c requires 0 <= c < width => ColumnState(ColumnOf(rows, width, c)))
  }

  lemma PushRow(rows: seq<Vector>, row: Vector, width: nat, c: nat)
    requires Rectangular(rows, width) && |row| == width && c < width
    ensures ColumnOf(rows + [row], width, c) == ColumnOf(rows, width, c) + [row[c]]
    ensures ColumnState(ColumnOf(rows + [row], width, c)) == ColumnState(ColumnOf(rows, width, c)) + [Element(row[c])]
  {
  }

  lemma LeafOfState(rows: seq<Vector>, width: nat, c: nat)
    requires Rectangular(rows, width) && c < width
    ensures HASH(DigestStates(rows, width)[c]) == RowLeaves(rows, width)[c]
  {
  }

  lemma NothingAbsorbed(width: nat, c: nat)
    requires c < width
    ensures ColumnState(ColumnOf([], width, c)) == [Block(DefaultDigest())]
  {
    assert ColumnOf([], width, c) == [];
    assert Elements([]) == [];
  }

  class ColumnDigestAccumulator {
    const width: nat
    var columnDigests: seq<seq<Atom>>
    ghost var rows: seq<Vector>  // the rows absorbed

    ghost predicate Valid()
      reads this
    {
      Rectangular(rows, width) && columnDigests == DigestStates(rows, width)
    }

    constructor (width: nat)
      ensures Valid() && this.width == width && rows == []
    {
      this.width, rows := width, [];
      columnDigests := seq(width, _ => [Block(DefaultDigest())]);
      new;
      forall c | 0 <= c < width ensures columnDigests[c] == DigestStates([], width)[c] {
        NothingAbsorbed(width, c);
      }
    }

    method Update(row: Vector) returns (ok: bool)
      requires Valid()
      modifies this
      ensures ok <==> |row| == width
      ensures ok ==> Valid() && rows == old(rows) + [row]
      ensures !ok ==> unchanged(this)
    {
      if |row| != |columnDigests| {
        return false;
      }
      ghost var after := rows + [row];
      for c := 0 to width
        invariant |columnDigests| == width && rows == old(rows)
        invariant columnDigests[c..] == old(columnDigests)[c..]
        invariant columnDigests[..c] == DigestStates(after, width)[..c]
      {
        PushRow(rows, row, width, c);
        assert columnDigests[c] == columnDigests[c..][0] == old(columnDigests)[c];
        columnDigests := columnDigests[c := columnDigests[c] + [Element(row[c])]];
      }
      rows := after;
      ok := true;
    }

    method GetColumnDigests() returns (hashes: seq<Digest>)
      requires Valid()
      ensures hashes == RowLeaves(rows, width)
    {
      hashes := [];
      for c := 0 to width
        invariant hashes == RowLeaves(rows, width)[..c]
      {
        hashes := hashes + [HASH(columnDigests[c])];
      }
    }

    method FinalizeToMerkleTree() returns (t: Option<MerkleTree>)
      requires Valid()
      ensures t == TreeOf(RowLeaves(rows, width))
    {
      var leaves := GetColumnDigests();
      t := New(leaves);
    }
  }
}
