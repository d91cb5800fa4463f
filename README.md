# MPIutils `MPI` helper class, modelled in Dafny

MPIutils gives each process of an MPI job one `MPI` object
(mpiutils/mpiclass.py). The object knows the process's rank and the size of
the group. It can remember the length of a distributed loop. It splits an
index range `[0, length)` into one contiguous range per rank, and it sends a
payload to one rank or to every other rank.

This project models that class:

- `Partition` (partition.dfy) holds the arithmetic of `split` as pure
  functions. Rank `i` owns the half-open range `[starts[i], ends[i])`. The
  boundaries are the cumulative sums of the per-rank counts, with a leading
  0. Lemmas state the shape of the result, the divisible case, the case with
  a remainder, and the worked example of 10 indices over 3 ranks.
- `MpiClass` (mpiclass.dfy) holds the class `Mpi`. Its constant fields are
  `rank`, `size`, `mpiInfo` and `comm`. Its mutable field is
  `loopSize: Option<int>`, which stands for Python's `None`-or-int. `Split`
  builds its boundaries in an array, as the source does. It fills the count array,
  adds one to the slice `[1:remainder]`, and takes the cumulative sum in
  place (`CumSum`). It is proved equal to `Partition.Starts`/`Partition.Ends`.
- `Comm` (comm.dfy) models the communicator as a log of
  `(dest, tag, data)` sends. `Outgoing` is the list of sends that one call
  of `send` issues. `OutgoingSends` characterises that list.
- `Decimal` (decimal.dfy) models Python's `str()` on a non-negative
  integer. The info line `"Proc <rank+1> of <size>"` is built with it.
- `Wrappers` (wrappers.dfy) defines `Option`.

`rank` and `size` are constructor arguments with `0 <= rank < size`. They
stand in for what mpi4py's `Get_rank`/`Get_size` report. The helpers
`loops.get_MPI_loop_size` and `loops.MPI_ind2ind` are defined in
mpiutils/loops.py, and that file is not part of this model. The class
receives them as function values (`LoopHelpers`) and only forwards its
state to them.

The file never imports numpy, although line 41 uses `np.floor`. The model
reads line 41 as exact integer floor division, with `length >= 0` and
`size >= 1`.

The docstring of `split` (mpiutils/mpiclass.py:40) says it is for splitting
an array across nodes, so every index should go to some rank. The slice
`splits[1:remainder]` at line 45 touches only `remainder - 1` entries. So
only ranks `0 .. remainder-2` get the extra element, and the last range ends
at `length - 1`: for 10 over 3 the ends are `[3, 6, 9]` and index 9 has no
owner (`Partition.SplitWithRemainder`). `Mpi.Split` models the code as
written. The intended split is kept beside it as `IntendedStarts` and
`IntendedEnds` (see Findings).

## Model

| member | source | states |
|---|---|---|
| `MpiClass.Mpi.constructor` | mpiutils/mpiclass.py:9-15 | rank and size are stored, no loop is set, and `mpiInfo` is `"Proc " + str(rank+1) + " of " + str(size)` |
| `MpiClass.InfoLineReadsBack` | mpiutils/mpiclass.py:15 | the info line is "Proc ", a numeral without leading zero that reads back as rank+1, " of ", and a numeral without leading zero that reads back as size |
| `MpiClass.InfoLineExamples` | mpiutils/mpiclass.py:15 | rank 0 of 4 gives "Proc 1 of 4"; rank 9 of 12 gives "Proc 10 of 12" |
| `Decimal.NatToString` | mpiutils/mpiclass.py:15 | `str(n)` is a non-empty string of decimal digits with no leading zero |
| `Decimal.NatToStringRoundTrip` | mpiutils/mpiclass.py:15 | reading back the numeral `str(n)` gives `n` |
| `MpiClass.Mpi.SetLoop` | mpiutils/mpiclass.py:23-26 | stores `Some(n)` as the loop size, changes no other field, and returns `get_MPI_loop_size(n, size)` |
| `MpiClass.Mpi.MpiInd2Ind` | mpiutils/mpiclass.py:29-31 | the helper receives the local index and the stored rank, size and loop size unchanged, and `None` when no loop is set |
| `MpiClass.Mpi.CleanLoop` | mpiutils/mpiclass.py:34-36 | the loop size becomes `None` and no other field changes |
| `MpiClass.Mpi.Split` | mpiutils/mpiclass.py:39-49 | the array algorithm returns exactly `Partition.Starts(length, size)` and `Partition.Ends(length, size)` |
| `MpiClass.CumSum` | mpiutils/mpiclass.py:46 | after the in-place cumulative sum, entry j is the sum of the original entries 0..j |
| `Partition.Remainder` | mpiutils/mpiclass.py:41-44 | `length - floor(length/size)*size` equals `length % size` |
| `Partition.OffsetIsSum` | mpiutils/mpiclass.py:42-46 | the cumulative sum of the count array `[0, share of rank 0, ...]` is the array of range boundaries |
| `Partition.OffsetClosedForm` | mpiutils/mpiclass.py:43-46 | the boundary before rank i is `i*base + min(i, extra)` |
| `Partition.BoundsPartition` | mpiutils/mpiclass.py:46-48 | boundaries built from per-rank shares give contiguous ranges that cover `[0, last boundary)`, each point exactly once |
| `Partition.SplitShape` | mpiutils/mpiclass.py:42-48 | `size` starts and `size` ends; the first start is 0; `ends[i] == starts[i+1]`; each length is base+1 below `ExtraRanks` and base from there on, so lengths never grow with rank |
| `Partition.SplitDivisible` | mpiutils/mpiclass.py:41-48 | when size divides length, every range holds length/size elements, the last end is length, and every index in `[0, length)` lies in exactly one range |
| `Partition.SplitWithRemainder` | mpiutils/mpiclass.py:44-48 | when r = length % size > 0, only ranks below r-1 get base+1, the last end is length-1, and index length-1 lies in no range |
| `Partition.SplitTenOverThree` | mpiutils/mpiclass.py:39-49 | 10 over 3 gives starts `[0, 3, 6]` and ends `[3, 6, 9]` |
| `Partition.IntendedSplitPartitions` | mpiutils/mpiclass.py:41-48 | with the extra element on the first length % size ranks, the ranges cover `[0, length)` exactly once, for every length and size |
| `Partition.IntendedTenOverThree` | mpiutils/mpiclass.py:44-46 | the intended split of 10 over 3 gives starts `[0, 4, 7]` and ends `[4, 7, 10]` |
| `Comm.Communicator.Send` | mpiutils/mpiclass.py:71 | one point-to-point send appends `(dest, tag, data)` to the log |
| `MpiClass.Mpi.Send` | mpiutils/mpiclass.py:58-75 | the log grows by exactly `Comm.Outgoing(rank, size, data, to_rank, tag)`; the defaults are `to_rank = None` and `tag = 11` |
| `Comm.FanOutAt` | mpiutils/mpiclass.py:73-75 | the k-th fan-out send goes to rank k below the own rank and to rank k+1 from there on, with size-1 sends in all |
| `Comm.OutgoingSends` | mpiutils/mpiclass.py:70-75 | with a destination, exactly one send goes to it with the given tag. Without one, size-1 sends carry the same data and tag, go to strictly ascending ranks, never to the sender, and reach every other rank |

## Left out

- `wait` (Barrier), `recv`, `end` (Finalize) and the rank/size discovery in `__init__`: these belong to the mpi4py transport. `recv` is a single blocking call into it, and the model has no inbox.
- `mpi_print`: console output with flush.
- `loops.get_MPI_loop_size` and `loops.MPI_ind2ind`: mpiutils/loops.py is not part of this model. They are parameters, so nothing is proved about the local loop size or the index mapping.
- `MpiClass.Mpi.Split`: the two results are modelled as independent sequences copied from the boundary array, not as the overlapping numpy views `splits[:-1]` and `splits[1:]` of one buffer; the aliasing between them (a write to `split1[i+1]` also changes `split2[i]`) is not captured.
- `MpiClass.Mpi.MpiInd2Ind`: it reports no error when no loop is set, because the source forwards `None` unchecked.
- The floating-point `np.floor(length / size)` at line 41 is modelled as exact integer floor division. For very large lengths a float could round differently.
- Integer width of the numpy `int` array: Dafny integers are unbounded, so overflow of the cumulative sum is not modelled.
- The payload of `send` is any value of a type parameter `D`. Blocking and delivery are not modelled.
- The class is modelled without `numpy` being imported. As written, the module would fail at line 41 with a missing name. The model assumes the intended import.

## Findings

| source | as written | input that shows it | evidently intended | confidence | as-written member | corrected member |
|---|---|---|---|---|---|---|
| mpiutils/mpiclass.py:45 | `splits[1:remainder] += 1` adds the extra element to `remainder - 1` ranks only, so the ranges stop at `length - 1` and the last index belongs to no rank | length 10, size 3: ends `[3, 6, 9]`, index 9 is owned by nobody | `splits[1:remainder+1] += 1`: the first `remainder` ranks get one element more and the ranges cover `[0, length)` | high (not executed) | `Partition.SplitWithRemainder` | `Partition.IntendedSplitPartitions` |

`Mpi.Split` keeps the behaviour as written, because it models the source.
The corrected split (`IntendedStarts`, `IntendedEnds`) is proved to be a
balanced partition of `[0, length)` for every length and size.
