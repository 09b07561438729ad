/** How `main` splits the rows of the result matrix among its threads, and which
    rows each call of `multiplyTwo2DArrays` then actually writes.

    Every call gets a packet index `part`, a row count `numOfElements` and a
    `remainder`; it loops `i` from `part * numOfElements` up to, but excluding,
    `part * numOfElements + numOfElements - 1 + remainder`.  That bound is one
    below the end of the packet, so every call leaves the last row of its packet
    alone; the lemmas below state exactly which rows are written, and the
    evidently intended bound (without the `- 1`) is modelled beside it. */
module Partition {

  /** The three numbers a call of `multiplyTwo2DArrays` receives to pick its rows. */
  datatype Packet = Packet(part: int, numOfElements: int, remainder: int) {

    /** `indexFirstElementOfPacket`. */
    function First(): int {
      part * numOfElements
    }

    /** `indexLastElementOfPacket`, used as an exclusive bound. */
    function Last(): int {
      First() + numOfElements - 1 + remainder
    }

    /** Whether the call's row loop visits row `i`. */
    predicate Writes(i: int) {
      First() <= i < Last()
    }

    /** The exclusive bound that makes the packet cover all of its rows. */
    function IntendedLast(): int {
      First() + numOfElements + remainder
    }

    predicate IntendedWrites(i: int) {
      First() <= i < IntendedLast()
    }

    /** Every row the call visits exists in a `size` by `size` matrix. */
    predicate FitsIn(size: int) {
      Last() <= First() || (0 <= First() && Last() <= size)
    }
  }

  /** `columnsPerThread` in `main`: the rows of one packet, the whole matrix
      for one thread and the integer quotient `size / n` otherwise. */
  function RowsPerThread(size: int, n: int): (r: int)
    requires n >= 1
    ensures n == 1 ==> r == size
    ensures 0 <= size ==> 0 <= r && n * r <= size < n * r + n
  {
    if n > 1 then size / n else size
  }

  /** `remainingColumns` in `main`: the rows left over when every one of the
      `n` packets gets `RowsPerThread` rows. */
  function RemainingRows(size: int, n: int): (m: int)
    requires n >= 1
    ensures 0 <= m < n
    ensures n * RowsPerThread(size, n) + m == size
  {
    size % n
  }

  /** The packets of the calls `main` makes with `n` threads, indexed by the value
      `packetCounter` has at each call: the workers get no remainder, the last
      call (made on the main thread) gets all of it. */
  function Packets(size: int, n: int): (pks: seq<Packet>)
    requires n >= 1
    ensures |pks| == n
  {
    seq(n, p => Packet(p, RowsPerThread(size, n), if p < n - 1 then 0 else RemainingRows(size, n)))
  }

  /** The packets lie end to end: the first starts at row 0, and each starts
      where the intended bound of the one before it ends. */
  lemma PacketsEndToEnd(size: int, n: int, p: int)
    requires 1 <= n && 0 <= p < n - 1
    ensures Packets(size, n)[0].First() == 0
    ensures Packets(size, n)[p + 1].First() == Packets(size, n)[p].IntendedLast()
  {
    var r := RowsPerThread(size, n);
    assert (p + 1) * r == p * r + r;
  }

  /** The packet of call `p`: the workers' packets carry no remainder. */
  lemma PacketAt(size: int, n: int, p: int)
    requires 1 <= n && 0 <= p < n
    ensures Packets(size, n)[p].part == p
    ensures Packets(size, n)[p].numOfElements == RowsPerThread(size, n)
    ensures Packets(size, n)[p].remainder == if p < n - 1 then 0 else RemainingRows(size, n)
  {
  }

  /** Some call of the run with `n` threads writes row `i`. */
  predicate Covered(size: int, n: int, i: int)
    requires n >= 1
  {
    exists p :: 0 <= p < n && Packets(size, n)[p].Writes(i)
  }

  predicate InRange(i: int, lo: int, hi: int) {
    lo <= i < hi
  }

  /** The rows `[lo, hi)`. */
  function RowRange(lo: int, hi: int): set<int> {
    // `InRange` repeats the bounds so that the comprehension has a term to trigger on
    set i | lo <= i < hi && InRange(i, lo, hi)
  }

  lemma {:induction false} RowRangeSize(lo: int, hi: int)
    ensures |RowRange(lo, hi)| == if lo < hi then hi - lo else 0
    decreases hi - lo
  {
    if lo < hi {
      assert RowRange(lo, hi) == RowRange(lo, hi - 1) + {hi - 1};
      RowRangeSize(lo, hi - 1);
    } else {
      assert RowRange(lo, hi) == {};
    }
  }

  lemma MulMono(a: int, b: int, r: int)
    requires a <= b && 0 <= r
    ensures a * r <= b * r
  {
    assert (b - a) * r >= 0;
  }

  lemma DivisionFacts(size: int, n: int)
    requires 1 <= size && 1 <= n
    ensures 0 <= RowsPerThread(size, n) && 0 <= RemainingRows(size, n) < n
    ensures n * RowsPerThread(size, n) + RemainingRows(size, n) == size
  {
  }

  lemma InBlock(i: int, r: int, p: int)
    requires 0 < r && p * r <= i < p * r + r
    ensures i / r == p && i % r == i - p * r
  {
    var q, m := i / r, i % r;
    assert i == q * r + m && 0 <= m < r;
    if q < p {
      MulMono(q + 1, p, r);
      assert false;
    } else if q > p {
      MulMono(p + 1, q, r);
      assert false;
    }
  }

  /** The last call of a run stops just before row `size - 1`. */
  lemma LastPacketBounds(size: int, n: int)
    requires 1 <= size && 1 <= n
    ensures Packets(size, n)[n - 1].First() == (n - 1) * RowsPerThread(size, n)
    ensures Packets(size, n)[n - 1].Last() == size - 1
    ensures Packets(size, n)[n - 1].IntendedLast() == size
  {
    DivisionFacts(size, n);
    var r := RowsPerThread(size, n);
    assert (n - 1) * r + r == n * r;
  }

  /** Every row a call visits lies in `[0, size - 1)`: inside the matrix, and never
      its last row. */
  lemma PacketWithinMatrix(size: int, n: int, p: int, i: int)
    requires 1 <= size && 1 <= n && 0 <= p < n
    requires Packets(size, n)[p].Writes(i)
    ensures 0 <= i < size - 1
  {
    var r := RowsPerThread(size, n);
    DivisionFacts(size, n);
    LastPacketBounds(size, n);
    MulMono(0, p, r);
    if p < n - 1 {
      MulMono(p + 1, n, r);
      assert p * r + r == (p + 1) * r;
    }
  }

  /** Every call `main` makes respects the bounds of the matrix. */
  lemma PacketsFit(size: int, n: int, p: int)
    requires 1 <= size && 1 <= n && 0 <= p < n
    ensures Packets(size, n)[p].FitsIn(size)
  {
    var pk := Packets(size, n)[p];
    if pk.First() < pk.Last() {
      PacketWithinMatrix(size, n, p, pk.First());
      PacketWithinMatrix(size, n, p, pk.Last() - 1);
    }
  }

  /** No row is written by two different calls: the threads never write the same
      row of the result. */
  lemma PacketsDisjoint(size: int, n: int, p: int, q: int, i: int)
    requires 1 <= size && 1 <= n && 0 <= p < n && 0 <= q < n && p != q
    ensures !(Packets(size, n)[p].Writes(i) && Packets(size, n)[q].Writes(i))
  {
    var r := RowsPerThread(size, n);
    DivisionFacts(size, n);
    if p < q {
      MulMono(p + 1, q, r);
      assert p * r + r == (p + 1) * r;
    } else {
      MulMono(q + 1, p, r);
      assert q * r + r == (q + 1) * r;
    }
  }

  /** A call visits `numOfElements - 1 + remainder` rows, or none when that is not positive. */
  lemma PacketRowCount(pk: Packet)
    ensures forall i :: i in RowRange(pk.First(), pk.Last()) <==> pk.Writes(i)
    ensures |RowRange(pk.First(), pk.Last())| ==
      if pk.numOfElements - 1 + pk.remainder > 0 then pk.numOfElements - 1 + pk.remainder else 0
  {
    RowRangeSize(pk.First(), pk.Last());
  }

  /** The rows the run writes, as a formula: below `size - 1`, and either in the
      last packet or not the last row of a worker's packet. */
  predicate WrittenRow(size: int, n: int, i: int)
    requires n >= 1
  {
    var r := RowsPerThread(size, n);
    0 <= i < size - 1 && (i >= (n - 1) * r || (r > 0 && i % r != r - 1))
  }

  lemma CoveredRowIsWritten(size: int, n: int, i: int)
    requires 1 <= size && 1 <= n
    requires Covered(size, n, i)
    ensures WrittenRow(size, n, i)
  {
    var r := RowsPerThread(size, n);
    var p :| 0 <= p < n && Packets(size, n)[p].Writes(i);
    PacketWithinMatrix(size, n, p, i);
    if p < n - 1 {
      assert p * r <= i < p * r + r - 1;
      InBlock(i, r, p);
    } else {
      LastPacketBounds(size, n);
    }
  }

  lemma WrittenRowIsCovered(size: int, n: int, i: int)
    requires 1 <= size && 1 <= n
    requires WrittenRow(size, n, i)
    ensures Covered(size, n, i)
  {
    var r := RowsPerThread(size, n);
    DivisionFacts(size, n);
    LastPacketBounds(size, n);
    if i >= (n - 1) * r {
      assert Packets(size, n)[n - 1].Writes(i);
    } else {
      var p := i / r;
      assert i == p * r + i % r;
      if p >= n - 1 {
        MulMono(n - 1, p, r);
        assert false;
      }
      MulMono(0, p, r);
      assert Packets(size, n)[p].Writes(i);
    }
  }

  /** Exactly the rows of `WrittenRow` are written by some call of the run. */
  lemma CoveredRows(size: int, n: int, i: int)
    requires 1 <= size && 1 <= n
    ensures Covered(size, n, i) <==> WrittenRow(size, n, i)
  {
    if Covered(size, n, i) {
      CoveredRowIsWritten(size, n, i);
    }
    if WrittenRow(size, n, i) {
      WrittenRowIsCovered(size, n, i);
    }
  }

  /** The last row of the result is never written, whatever the size and the
      number of threads. */
  lemma LastRowNeverWritten(size: int, n: int)
    requires 1 <= size && 1 <= n
    ensures !Covered(size, n, size - 1)
  {
    CoveredRows(size, n, size - 1);
  }

  /** With two rows and one thread only row 0 is written. */
  lemma OneThreadTwoRows()
    ensures Packets(2, 1) == [Packet(0, 2, 0)]
    ensures Covered(2, 1, 0) && !Covered(2, 1, 1)
  {
    assert RowsPerThread(2, 1) == 2 && RemainingRows(2, 1) == 0;
    assert Packets(2, 1)[0] == Packet(0, 2, 0);
    assert Packets(2, 1)[0].Writes(0);
    LastRowNeverWritten(2, 1);
  }

  /** The thread count changes the result: with four rows, row 1 is written by
      the single call of a one-thread run, and by no call of a two-thread run,
      where it is the skipped last row of the first packet. */
  lemma ThreadCountChangesRows()
    ensures WrittenRow(4, 1, 1) && Covered(4, 1, 1)
    ensures !WrittenRow(4, 2, 1) && !Covered(4, 2, 1)
  {
    assert RowsPerThread(4, 1) == 4 && RowsPerThread(4, 2) == 2;
    CoveredRows(4, 1, 1);
    CoveredRows(4, 2, 1);
  }

  /** With the intended bound, every row a call visits lies in `[0, size)`. */
  lemma IntendedRowInMatrix(size: int, n: int, p: int, i: int)
    requires 1 <= size && 1 <= n && 0 <= p < n
    requires Packets(size, n)[p].IntendedWrites(i)
    ensures 0 <= i < size
  {
    var r := RowsPerThread(size, n);
    DivisionFacts(size, n);
    LastPacketBounds(size, n);
    PacketAt(size, n, p);
    MulMono(0, p, r);
    if p < n - 1 {
      MulMono(p + 1, n - 1, r);
      MulMono(n - 1, n, r);
      assert p * r + r == (p + 1) * r;
    }
  }

  /** With the intended bound, no row is visited by two different calls. */
  lemma IntendedPacketsDisjoint(size: int, n: int, p: int, q: int, i: int)
    requires 1 <= size && 1 <= n && 0 <= p < q < n
    ensures !(Packets(size, n)[p].IntendedWrites(i) && Packets(size, n)[q].IntendedWrites(i))
  {
    var r := RowsPerThread(size, n);
    DivisionFacts(size, n);
    PacketAt(size, n, p);
    PacketAt(size, n, q);
    MulMono(p + 1, q, r);
    assert p * r + r == (p + 1) * r;
  }

  /** With the intended bound, every row of the matrix is visited by some call. */
  lemma IntendedRowHasPacket(size: int, n: int, i: int) returns (p: int)
    requires 1 <= size && 1 <= n && 0 <= i < size
    ensures 0 <= p < n && Packets(size, n)[p].IntendedWrites(i)
  {
    var r := RowsPerThread(size, n);
    DivisionFacts(size, n);
    LastPacketBounds(size, n);
    if i >= (n - 1) * r {
      p := n - 1;
    } else {
      assert r > 0;
      p := i / r;
      assert i == p * r + i % r;
      if p >= n - 1 {
        MulMono(n - 1, p, r);
        assert false;
      }
      MulMono(0, p, r);
      PacketAt(size, n, p);
    }
  }

  /** With the intended bound the packets partition the rows: every row of the
      matrix belongs to exactly one packet, and no other row to any. */
  lemma IntendedPacketsPartitionRows(size: int, n: int, i: int)
    requires 1 <= size && 1 <= n
    ensures (exists p :: 0 <= p < n && Packets(size, n)[p].IntendedWrites(i)) <==> 0 <= i < size
    ensures forall p, q ::
      0 <= p < n && 0 <= q < n && Packets(size, n)[p].IntendedWrites(i) && Packets(size, n)[q].IntendedWrites(i) ==> p == q
  {
    if 0 <= i < size {
      var p := IntendedRowHasPacket(size, n, i);
    }
    forall p | 0 <= p < n && Packets(size, n)[p].IntendedWrites(i)
      ensures 0 <= i < size
    {
      IntendedRowInMatrix(size, n, p, i);
    }
    forall p, q | 0 <= p < q < n
      ensures !(Packets(size, n)[p].IntendedWrites(i) && Packets(size, n)[q].IntendedWrites(i))
    {
      IntendedPacketsDisjoint(size, n, p, q, i);
    }
  }

  /** With the intended bound every call still stays inside the matrix. */
  lemma IntendedPacketsFit(size: int, n: int, p: int)
    requires 1 <= size && 1 <= n && 0 <= p < n
    ensures 0 <= Packets(size, n)[p].First() <= Packets(size, n)[p].IntendedLast() <= size
  {
    var r := RowsPerThread(size, n);
    DivisionFacts(size, n);
    LastPacketBounds(size, n);
    MulMono(0, p, r);
    if p < n - 1 {
      MulMono(p + 1, n - 1, r);
      MulMono(n - 1, n, r);
      assert p * r + r == (p + 1) * r;
    }
  }
}
