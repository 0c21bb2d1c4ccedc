/** A received datagram as the network stack hands it over: a chain of
    buffer fragments, the place in the first fragment where the application
    data starts, and the application-data length the stack reports. */
module Chains {
  import opened Machine

  /** `frags` are the data of the fragments in chain order; `appdataOffset`
      is the distance of the application-data pointer from the start of the
      first fragment's data; `appdataLen` is the stack's own count of
      application bytes, a 16-bit value. */
  datatype RxBuf = RxBuf(frags: seq<seq<bv8>>, appdataOffset: nat, appdataLen: u16)

  /** The shape the copy loop relies on: the head buffer has at least one
      fragment, and the application data starts inside the first one. */
  predicate WellFormed(b: RxBuf)
  {
    |b.frags| > 0 && b.appdataOffset <= |b.frags[0]|
  }

  /** All fragments' bytes, one after the other. */
  function Concat(xs: seq<seq<bv8>>): seq<bv8>
  {
    if xs == [] then [] else xs[0] + Concat(xs[1..])
  }

  /** The sum of the fragments' lengths. */
  function TotalLen(xs: seq<seq<bv8>>): nat
  {
    if xs == [] then 0 else |xs[0]| + TotalLen(xs[1..])
  }

  /** The byte ranges the copy reads, one per fragment: the first from the
      application-data offset on, every later one whole. */
  function Views(b: RxBuf): (v: seq<seq<bv8>>)
    requires WellFormed(b)
    ensures |v| == |b.frags|
    ensures v[0] == b.frags[0][b.appdataOffset..]
    ensures forall i :: 0 < i < |v| ==> v[i] == b.frags[i]
  {
    [b.frags[0][b.appdataOffset..]] + b.frags[1..]
  }

  /** The flat application payload of a datagram. */
  function Payload(b: RxBuf): seq<bv8>
    requires WellFormed(b)
  {
    Concat(Views(b))
  }

  lemma {:induction false} ConcatLength(xs: seq<seq<bv8>>)
    ensures |Concat(xs)| == TotalLen(xs)
  {
    if xs != [] {
      ConcatLength(xs[1..]);
    }
  }

  lemma {:induction false} ConcatSnoc(xs: seq<seq<bv8>>, x: seq<bv8>)
    ensures Concat(xs + [x]) == Concat(xs) + x
  {
    if xs == [] {
      assert [] + [x] == [x];
      assert [x][1..] == [];
    } else {
      assert (xs + [x])[1..] == xs[1..] + [x];
      ConcatSnoc(xs[1..], x);
    }
  }

  lemma {:induction false} ConcatSplit(xs: seq<seq<bv8>>, k: nat)
    requires k <= |xs|
    ensures Concat(xs) == Concat(xs[..k]) + Concat(xs[k..])
  {
    if k > 0 {
      assert xs[..k][1..] == xs[1..][..k - 1];
      assert xs[k..] == xs[1..][k - 1..];
      ConcatSplit(xs[1..], k - 1);
    } else {
      assert xs[k..] == xs;
    }
  }

  /** The payload is the first fragment's tail from the application-data
      offset followed by every later fragment, and its length is the sum of
      those lengths. */
  lemma PayloadShape(b: RxBuf)
    requires WellFormed(b)
    ensures Payload(b) == b.frags[0][b.appdataOffset..] + Concat(b.frags[1..])
    ensures |Payload(b)| == |b.frags[0]| - b.appdataOffset + TotalLen(b.frags[1..])
  {
    var v := Views(b);
    assert v[1..] == b.frags[1..];
    ConcatLength(b.frags[1..]);
  }
}
