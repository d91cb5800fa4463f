/**
 * The communicator as far as `MPI.send` uses it (mpiutils/mpiclass.py:58-75):
 * a log of the point-to-point sends issued, in order, and the list of
 * sends one call of `send` issues.
 */
module Comm {
  import opened Wrappers

  /** One blocking point-to-point send: destination rank, tag and payload. */
  datatype Message<D> = Message(dest: int, tag: int, data: D)

  /** `comm.send(data, dest=…, tag=…)`, recorded in the order issued. */
  class Communicator<D> {
    var log: seq<Message<D>>

    constructor ()
      ensures log == []
    {
      log := [];
    }

    method Send(data: D, dest: int, tag: int)
      modifies this
      ensures log == old(log) + [Message(dest, tag, data)]
    {
      log := log + [Message(dest, tag, data)];
    }
  }

  /** Sends issued by `for i in range(0, n): if i != rank: send(data, i, tag)`. */
  function FanOut<D>(rank: int, n: nat, data: D, tag: int): seq<Message<D>> {
    if n == 0 then []
    else FanOut(rank, n - 1, data, tag) + (if n - 1 != rank then [Message(n - 1, tag, data)] else [])
  }

  /** Sends issued by one call of `send(data, to_rank, tag)` on rank `rank` of `size`. */
  function Outgoing<D>(rank: int, size: nat, data: D, toRank: Option<int>, tag: int): seq<Message<D>> {
    match toRank
    case Some(dest) => [Message(dest, tag, data)]
    case None => FanOut(rank, size, data, tag)
  }

  /** Some send of `out` goes to rank i. */
  predicate SendsTo<D>(out: seq<Message<D>>, i: int) {
    exists k :: 0 <= k < |out| && out[k].dest == i
  }

  /** The k-th fan-out send goes to rank k below `rank` and to k+1 from there on. */
  lemma {:induction false} FanOutAt<D>(rank: int, n: nat, data: D, tag: int)
    requires 0 <= rank < n
    ensures |FanOut(rank, n, data, tag)| == n - 1
    ensures forall k :: 0 <= k < n - 1 ==>
      FanOut(rank, n, data, tag)[k] == Message(if k < rank then k else k + 1, tag, data)
  {
    if n - 1 == rank {
      FanOutBelow(rank, n - 1, data, tag);
    } else {
      FanOutAt(rank, n - 1, data, tag);
    }
  }

  /** Below `rank` the fan-out sends to every rank of range(0, n), in order. */
  lemma {:induction false} FanOutBelow<D>(rank: int, n: nat, data: D, tag: int)
    requires n <= rank
    ensures |FanOut(rank, n, data, tag)| == n
    ensures forall k :: 0 <= k < n ==> FanOut(rank, n, data, tag)[k] == Message(k, tag, data)
  {
    if n > 0 {
      FanOutBelow(rank, n - 1, data, tag);
    }
  }

  /**
   * With a destination, `send` issues exactly one send to it. Without one,
   * it issues size-1 sends carrying the same data and tag, to ranks in
   * strictly ascending order, never to itself, and exactly one to every
   * other rank of the group.
   */
  lemma OutgoingSends<D>(rank: int, size: nat, data: D, toRank: Option<int>, tag: int)
    requires 0 <= rank < size
    ensures toRank.Some? ==> Outgoing(rank, size, data, toRank, tag) == [Message(toRank.value, tag, data)]
    ensures toRank.None? ==>
      var out := Outgoing(rank, size, data, toRank, tag);
      |out| == size - 1 &&
      (forall k :: 0 <= k < |out| ==>
        out[k].data == data && out[k].tag == tag && 0 <= out[k].dest < size && out[k].dest != rank) &&
      (forall k, m :: 0 <= k < m < |out| ==> out[k].dest < out[m].dest) &&
      (forall i :: 0 <= i < size && i != rank ==> SendsTo(out, i))
  {
    if toRank.None? {
      var out := Outgoing(rank, size, data, toRank, tag);
      FanOutAt(rank, size, data, tag);
      forall i | 0 <= i < size && i != rank
        ensures SendsTo(out, i)
      {
        var k := if i < rank then i else i - 1;
        assert out[k].dest == i;
      }
    }
  }
}
