/** Bytes and the little-endian reading of a run of bytes. */
module Bytes {

  type Byte = b: int | 0 <= b < 256

  type Bytes = seq<Byte>

  type Positive = n: int | 0 < n witness 1

  function ZeroBytes(n: nat): (v: Bytes)
    ensures |v| == n
  {
    seq(n, _ => 0)
  }

  function Power256(n: nat): nat {
    if n == 0 then 1 else 256 * Power256(n - 1)
  }

  function FromLittleEndian(v: Bytes): (x: nat)
    ensures x < Power256(|v|)
  {
    if |v| == 0 then 0 else v[0] + 256 * FromLittleEndian(v[1..])
  }

  function ToLittleEndian(x: nat, n: nat): (v: Bytes)
    ensures |v| == n
  {
    if n == 0 then [] else [x % 256] + ToLittleEndian(x / 256, n - 1)
  }

  // Later bytes weigh more.
  lemma {:induction false} LittleEndianConcat(v: Bytes, w: Bytes)
    ensures FromLittleEndian(v + w) == FromLittleEndian(v) + Power256(|v|) * FromLittleEndian(w)
  {
    if v == [] {
      assert v + w == w;
    } else {
      assert (v + w)[1..] == v[1..] + w && (v + w)[0] == v[0];
      var rest, tail, p := FromLittleEndian(v[1..]), FromLittleEndian(w), Power256(|v| - 1);
      LittleEndianConcat(v[1..], w);
      assert FromLittleEndian(v) == v[0] + 256 * rest && Power256(|v|) == 256 * p;
      assert FromLittleEndian(v + w) == v[0] + 256 * FromLittleEndian(v[1..] + w);
      hide FromLittleEndian, Power256;
      OneByteMore(v[0], rest, p, tail);
    }
  }

  lemma OneByteMore(b: int, rest: int, p: int, tail: int)
    ensures b + 256 * (rest + p * tail) == (b + 256 * rest) + 256 * p * tail
  {
  }

  lemma {:induction false} LittleEndianRoundTrip(v: Bytes)
    ensures ToLittleEndian(FromLittleEndian(v), |v|) == v
  {
    if |v| > 0 {
      var rest := FromLittleEndian(v[1..]);
      LittleEndianRoundTrip(v[1..]);
      LowestByte(v[0], rest);
      assert FromLittleEndian(v) == v[0] + 256 * rest;
      assert ToLittleEndian(v[0] + 256 * rest, |v|) == [v[0]] + ToLittleEndian(rest, |v| - 1);
    }
  }

  lemma LowestByte(b: Byte, rest: nat)
    ensures (b + 256 * rest) % 256 == b && (b + 256 * rest) / 256 == rest
  {
  }

  lemma {:induction false} LittleEndianZeros(n: nat)
    ensures FromLittleEndian(ZeroBytes(n)) == 0
  {
    if n > 0 {
      assert ZeroBytes(n)[1..] == ZeroBytes(n - 1);
      LittleEndianZeros(n - 1);
    }
  }
}
