/**
 Digests. The hash function is an arbitrary function of the messages absorbed: a digest
 (the block of zeros that starts a column hash, or a child of a tree node) or a field element.
 */
module Hashing {
  import opened Fields
  import opened Vectors
  import opened Bytes

  const DIGEST_BYTES: Positive

  type Digest = d: seq<Byte> | |d| == DIGEST_BYTES witness seq(DIGEST_BYTES, _ => 0)

  datatype Atom = Block(digest: Digest) | Element(value: Elem)

  const HASH: seq<Atom> -> Digest

  // Output::<D>::default()
  function DefaultDigest(): Digest {
    seq(DIGEST_BYTES, _ => 0)
  }

  function Elements(v: Vector): (atoms: seq<Atom>)
    ensures |atoms| == |v|
  {
    seq(|v|, i requires 0 <= i < |v| => Element(v[i]))
  }

  lemma ElementsInjective(v: Vector, w: Vector)
    requires Elements(v) == Elements(w)
    ensures v == w
  {
    assert |v| == |w|;
    forall i | 0 <= i < |v| ensures v[i] == w[i] {
      assert Elements(v)[i] == Element(v[i]);
      assert Elements(w)[i] == Element(w[i]);
    }
  }

  lemma ElementsPush(v: Vector, e: Elem)
    ensures Elements(v + [e]) == Elements(v) + [Element(e)]
  {
  }

  // What a column hasher has absorbed after the given values: a block of zeros comes first.
  function ColumnState(values: Vector): seq<Atom> {
    [Block(DefaultDigest())] + Elements(values)
  }

  function LeafHash(values: Vector): Digest {
    HASH(ColumnState(values))
  }

  function NodeInput(left: Digest, right: Digest): seq<Atom> {
    [Block(left), Block(right)]
  }

  function NodeHash(left: Digest, right: Digest): Digest {
    HASH(NodeInput(left, right))
  }

  // Two different messages with one digest.
  datatype Collision = Collision(first: seq<Atom>, second: seq<Atom>) {
    predicate Valid() {
      first != second && HASH(first) == HASH(second)
    }
  }
}
