/** Slices of buffers that are written in place. */
module Slices {

  lemma SplitAt<T>(s: seq<T>, k: nat)
    requires k <= |s|
    ensures s == s[..k] + s[k..]
  {
  }

  lemma TakeAll<T>(s: seq<T>, n: nat)
    requires n == |s|
    ensures s[..n] == s
  {
  }

  // Two writes to adjacent slices are one write to both.
  lemma JoinHalves<T>(before: seq<T>, between: seq<T>, after: seq<T>, lo: nat, mid: nat, hi: nat)
    requires |before| == |between| == |after| && lo <= mid <= hi <= |after|
    requires between[..lo] == before[..lo] && between[mid..] == before[mid..]
    requires after[..mid] == between[..mid] && after[hi..] == between[hi..]
    ensures after[lo..hi] == between[lo..mid] + after[mid..hi]
    ensures after[..lo] == before[..lo] && after[hi..] == before[hi..]
  {
  }

  // v in place of the elements from `at` on.
  function Splice<T>(s: seq<T>, at: nat, v: seq<T>): (r: seq<T>)
    requires at + |v| <= |s|
    ensures |r| == |s|
  {
    s[..at] + v + s[at + |v|..]
  }

  lemma SpliceInHead<T>(head: seq<T>, last: seq<T>, at: nat, v: seq<T>)
    requires at + |v| <= |head|
    ensures Splice(head + last, at, v) == Splice(head, at, v) + last
  {
  }

  lemma SpliceLast<T>(head: seq<T>, last: seq<T>, v: seq<T>)
    requires |v| == |last|
    ensures Splice(head + last, |head|, v) == head + v
  {
  }

  lemma SliceOfSlice<T>(s: seq<T>, start: nat, part: seq<T>, at: nat, n: nat)
    requires start + |part| <= |s| && part == s[start..start + |part|] && at + n <= |part|
    ensures part[at..at + n] == s[start + at..start + at + n]
  {
    assert s[start..start + |part|] == s[start..][..|part|];
    assert s[start + at..start + at + n] == s[start..][at..at + n];
  }
}
