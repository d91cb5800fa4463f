/**
 * The `MPI` helper class of mpiutils/mpiclass.py: one object per process,
 * holding its rank, the group size, the optional length of the current
 * distributed loop, and an info line; with the partition arithmetic of
 * `split` and the destination fan-out of `send`.
 *
 * The rank and size that mpi4py reports are constructor arguments; the
 * communicator is a Comm.Communicator that records the sends issued.
 */
module MpiClass {
  import opened Wrappers
  import Decimal
  import Partition
  import Comm

  /**
   * `loops.get_MPI_loop_size` and `loops.MPI_ind2ind` live in
   * mpiutils/loops.py, which is not part of this model; the class receives
   * them as values and only forwards its state to them.
   */
  datatype LoopHelpers = LoopHelpers(
    getLoopSize: (int, int) -> int,
    ind2ind: (int, int, int, Option<int>) -> int)

  /** Default tag of `send` and `recv`. */
  const DefaultTag: int := 11

  /** `'Proc ' + str(rank+1) + ' of ' + str(size)`. */
  function InfoLine(rank: nat, size: nat): string {
    "Proc " + Decimal.NatToString(rank + 1) + " of " + Decimal.NatToString(size)
  }

  /**
   * The info line is "Proc ", a decimal numeral that reads back as rank+1,
   * " of ", and a decimal numeral that reads back as size.
   */
  lemma InfoLineReadsBack(rank: nat, size: nat)
    ensures exists p, q ::
      Decimal.AllDigits(p) && Decimal.AllDigits(q) &&
      (|p| > 1 ==> p[0] != '0') && (|q| > 1 ==> q[0] != '0') &&
      Decimal.StringToNat(p) == rank + 1 && Decimal.StringToNat(q) == size &&
      InfoLine(rank, size) == "Proc " + p + " of " + q
  {
    Decimal.NatToStringRoundTrip(rank + 1);
    Decimal.NatToStringRoundTrip(size);
  }

  /** The first of four processes reports "Proc 1 of 4"; the tenth of twelve "Proc 10 of 12". */
  lemma InfoLineExamples()
    ensures InfoLine(0, 4) == "Proc 1 of 4"
    ensures InfoLine(9, 12) == "Proc 10 of 12"
  {
    assert Decimal.NatToString(10) == "10" by {
      assert Decimal.NatToString(1) == "1";
    }
    assert Decimal.NatToString(12) == "12" by {
      assert Decimal.NatToString(1) == "1";
    }
  }

  /** `np.cumsum`, done in place: entry j becomes the sum of entries 0..j. */
  method CumSum(a: array<nat>)
    modifies a
    ensures forall j :: 0 <= j < a.Length ==> a[j] == Partition.Sum(old(a[..])[..j + 1])
  {
    ghost var before := a[..];
    for k := 0 to a.Length
      invariant forall j :: 0 <= j < k ==> a[j] == Partition.Sum(before[..j + 1])
      invariant forall j :: k <= j < a.Length ==> a[j] == before[j]
    {
      assert before[..k + 1][..k] == before[..k];
      if k > 0 {
        a[k] := a[k - 1] + a[k];
      }
    }
  }

  class Mpi<D> {
    const comm: Comm.Communicator<D>
    const rank: int
    const size: int
    var loopSize: Option<int>
    const mpiInfo: string

    /** The rank lies in the group. */
    predicate Valid() {
      0 <= rank < size
    }

    /** `__init__`: no loop is set and the info line names this process. */
    constructor (comm: Comm.Communicator<D>, rank: int, size: int)
      requires 0 <= rank < size
      ensures Valid()
      ensures this.comm == comm && this.rank == rank && this.size == size
      ensures loopSize == None
      ensures mpiInfo == InfoLine(rank, size)
    {
      this.comm := comm;
      this.rank := rank;
      this.size := size;
      loopSize := None;
      mpiInfo := InfoLine(rank, size);
    }

    /**
     * `set_loop`: remembers the loop length and returns this process's
     * share of it as computed by `loops.get_MPI_loop_size`.
     */
    method SetLoop(n: int, loops: LoopHelpers) returns (localSize: int)
      modifies this`loopSize
      ensures loopSize == Some(n)
      ensures localSize == loops.getLoopSize(n, size)
    {
      loopSize := Some(n);
      localSize := loops.getLoopSize(n, size);
    }

    /** `clean_loop`: forgets the loop length. */
    method CleanLoop()
      modifies this`loopSize
      ensures loopSize == None
    {
      loopSize := None;
    }

    /**
     * `mpi_ind2ind`: hands the local index, together with the stored rank,
     * size and loop length (None when no loop is set), to `loops.MPI_ind2ind`.
     */
    function MpiInd2Ind(mpiInd: int, loops: LoopHelpers): (r: int)
      reads this
      ensures loopSize.None? ==> r == loops.ind2ind(mpiInd, rank, size, None)
      ensures loopSize.Some? ==> r == loops.ind2ind(mpiInd, rank, size, Some(loopSize.value))
    {
      loops.ind2ind(mpiInd, rank, size, loopSize)
    }

    /**
     * `split`: builds the size+1 count array, adds one to the slice
     * [1:remainder], and takes the cumulative sum in place; the starts are
     * every boundary but the last, the ends every boundary but the first.
     */
    method Split(length: nat) returns (split1: seq<nat>, split2: seq<nat>)
      requires Valid()
      ensures split1 == Partition.Starts(length, size)
      ensures split2 == Partition.Ends(length, size)
    {
      var splitLength := length / size;
      var splits := new nat[size + 1](_ => 0);
      // splits[1:] = split_length
      for k := 1 to size + 1
        invariant splits[0] == 0
        invariant forall j :: 1 <= j < k ==> splits[j] == splitLength
      {
        splits[k] := splitLength;
      }
      var remainder := Partition.Remainder(length, size);
      ghost var extra := Partition.ExtraRanks(length, size);
      // splits[1:remainder] += 1
      var k := 1;
      while k < remainder
        invariant 1 <= k <= if remainder >= 1 then remainder else 1
        invariant splits[0] == 0
        invariant forall j :: 1 <= j <= size ==> splits[j] == if j < k then splitLength + 1 else splitLength
      {
        splits[k] := splits[k] + 1;
        k := k + 1;
      }
      assert k - 1 == extra;
      ghost var counts := splits[..];
      CumSum(splits);
      forall j | 0 <= j <= size
        ensures splits[j] == Partition.Offset(splitLength, extra, j)
      {
        Partition.OffsetIsSum(splitLength, extra, counts, j);
      }
      assert splits[..] == Partition.Bounds(splitLength, extra, size);
      assert Partition.SplitBounds(length, size) == splits[..];
      split1 := splits[..size];
      split2 := splits[1..];
    }

    /**
     * `send`: to `toRank` when given; otherwise to every rank of the group
     * but this one, in ascending order. Each send is appended to the log.
     */
    method Send(data: D, toRank: Option<int> := None, tag: int := DefaultTag)
      requires Valid()
      modifies comm
      ensures comm.log == old(comm.log) + Comm.Outgoing(rank, size, data, toRank, tag)
    {
      match toRank
      case Some(dest) =>
        comm.Send(data, dest, tag);
      case None =>
        for i := 0 to size
          invariant comm.log == old(comm.log) + Comm.FanOut(rank, i, data, tag)
        {
          if i != rank {
            comm.Send(data, i, tag);
          }
        }
    }
  }
}
