/**
 The Fiat-Shamir transcript. Its state is the history of what was appended and asked; every
 challenge is an arbitrary function of that history.
 */
module Transcripts {
  import opened Fields
  import opened Vectors

  // The labels of the degree test, random combination, evaluation and column opening steps.
  datatype Label = DegreeTest | RandomCombination | Evaluation | ColumnOpening

  datatype Event = Message(tag: Label, value: Elem) | Challenge(tag: Label)

  type History = seq<Event>

  // Entry i of the stream of field elements, and of column draws, seeded after this history.
  const TENSOR_STREAM: (History, nat) -> Elem
  const COLUMN_STREAM: (History, nat, nat) -> nat

  function DrawTensor(h: History, n: nat): (t: Vector)
    ensures |t| == n
  {
    seq<Elem>(n, i requires 0 <= i < n => TENSOR_STREAM(h, i))
  }

  // Uniform::new(0, nCols): draws below nCols.
  function DrawColumns(h: History, nCols: nat, n: nat): (cols: seq<nat>)
    requires 0 < nCols
    ensures |cols| == n && forall i :: 0 <= i < n ==> cols[i] < nCols
  {
    seq<nat>(n, i requires 0 <= i < n => COLUMN_STREAM(h, nCols, i) % nCols)
  }

  function Messages(tag: Label, values: Vector): History {
    seq<Event>(|values|, i requires 0 <= i < |values| => Message(tag, values[i]))
  }

  class Transcript {
    var history: History

    constructor ()
      ensures history == []
    {
      history := [];
    }

    method Append(tag: Label, values: Vector)
      modifies this
      ensures history == old(history) + Messages(tag, values)
    {
      for i := 0 to |values|
        invariant history == old(history) + Messages(tag, values)[..i]
      {
        history := history + [Message(tag, values[i])];
      }
      assert Messages(tag, values)[..|values|] == Messages(tag, values);
    }

    method ChallengeTensor(tag: Label, n: nat) returns (tensor: Vector)
      modifies this
      ensures history == old(history) + [Challenge(tag)]
      ensures tensor == DrawTensor(history, n)
      ensures |tensor| == n && forall i :: 0 <= i < n ==> tensor[i] == TENSOR_STREAM(history, i)
    {
      history := history + [Challenge(tag)];
      tensor := [];
      for i := 0 to n
        invariant history == old(history) + [Challenge(tag)]
        invariant tensor == DrawTensor(history, n)[..i]
      {
        tensor := tensor + [TENSOR_STREAM(history, i)];
      }
    }

    method ChallengeColumns(tag: Label, nCols: nat, n: nat) returns (cols: seq<nat>)
      requires 0 < nCols
      modifies this
      ensures history == old(history) + [Challenge(tag)]
      ensures cols == DrawColumns(history, nCols, n)
      ensures |cols| == n && forall i :: 0 <= i < n ==> cols[i] == COLUMN_STREAM(history, nCols, i) % nCols
    {
      history := history + [Challenge(tag)];
      cols := [];
      for i := 0 to n
        invariant history == old(history) + [Challenge(tag)]
        invariant cols == DrawColumns(history, nCols, n)[..i]
      {
        cols := cols + [COLUMN_STREAM(history, nCols, i) % nCols];
      }
    }
  }
}
