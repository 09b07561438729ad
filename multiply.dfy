/** The in-place part of the benchmark: `multiplyTwo2DArrays`, which overwrites
    rows of the result array, and the dispatch in `main`, which hands out packet
    indices through `packetCounter` and makes one call per packet.  The worker
    threads are modelled as calls made one after the other; `DispatchScheduled`
    makes the same calls in any order a schedule gives. */
module Multiply {
  import opened Arguments
  import opened Partition
  import opened Matrices

  /** The cells of an array as a matrix value. */
  ghost function Grid(m: array2<int>): (g: Matrix)
    reads m
    ensures |g| == m.Length0
    ensures forall i :: 0 <= i < m.Length0 ==> |g[i]| == m.Length1
    ensures forall i, j :: 0 <= i < m.Length0 && 0 <= j < m.Length1 ==> g[i][j] == m[i, j]
  {
    seq(m.Length0, i requires 0 <= i < m.Length0 reads m =>
      seq(m.Length1, j requires 0 <= j < m.Length1 reads m => m[i, j]))
  }

  predicate Square(m: array2<int>, size: int) {
    m.Length0 == size && m.Length1 == size
  }

  /** The loop over `k` of `multiplyTwo2DArrays` for one cell: each term is
      assigned to `C[i][j]` in turn, so the cell ends up holding the last term.
      No other cell changes. */
  method AssignTerms(tabA: array2<int>, tabB: array2<int>, tabResult: array2<int>, tabSize: int,
                     i: int, j: int, isTransposed: bool)
    requires Square(tabA, tabSize) && Square(tabB, tabSize) && Square(tabResult, tabSize)
    requires tabResult != tabA && tabResult != tabB
    requires 0 <= i < tabSize && 0 <= j < tabSize
    modifies tabResult
    ensures tabResult[i, j] == LastTerm(Grid(tabA), Grid(tabB), tabSize, isTransposed, i, j)
    ensures forall r, s :: 0 <= r < tabSize && 0 <= s < tabSize && (r != i || s != j) ==>
      tabResult[r, s] == old(tabResult[r, s])
  {
    var k := 0;
    while k < tabSize
      invariant 0 <= k <= tabSize
      invariant k > 0 ==> tabResult[i, j] == Term(Grid(tabA), Grid(tabB), tabSize, isTransposed, i, j, k - 1)
      invariant forall r, s :: 0 <= r < tabSize && 0 <= s < tabSize && (r != i || s != j) ==>
        tabResult[r, s] == old(tabResult[r, s])
    {
      if !isTransposed {
        tabResult[i, j] := tabA[i, k] * tabB[k, j];
      } else {
        tabResult[i, j] := tabA[i, k] * tabB[j, k];
      }
      k := k + 1;
    }
  }

  /** The loop over `j` of `multiplyTwo2DArrays` for row `i`: the row ends up
      holding last terms, and no other row changes. */
  method AssignRow(tabA: array2<int>, tabB: array2<int>, tabResult: array2<int>, tabSize: int,
                   i: int, isTransposed: bool)
    requires Square(tabA, tabSize) && Square(tabB, tabSize) && Square(tabResult, tabSize)
    requires tabResult != tabA && tabResult != tabB
    requires 0 <= i < tabSize
    modifies tabResult
    ensures forall s :: 0 <= s < tabSize ==> tabResult[i, s] == LastTerm(Grid(tabA), Grid(tabB), tabSize, isTransposed, i, s)
    ensures forall r, s :: 0 <= r < tabSize && 0 <= s < tabSize && r != i ==> tabResult[r, s] == old(tabResult[r, s])
  {
    var j := 0;
    while j < tabSize
      invariant 0 <= j <= tabSize
      invariant forall s :: 0 <= s < j ==> tabResult[i, s] == LastTerm(Grid(tabA), Grid(tabB), tabSize, isTransposed, i, s)
      invariant forall r, s :: 0 <= r < tabSize && 0 <= s < tabSize && r != i ==> tabResult[r, s] == old(tabResult[r, s])
    {
      AssignTerms(tabA, tabB, tabResult, tabSize, i, j, isTransposed);
      j := j + 1;
    }
  }

  /** `multiplyTwo2DArrays`: for every row `i` from `partOfMatrix * numOfElements`
      up to the exclusive bound `... + numOfElements - 1 + remainder`, every column
      `j` and every `k`, assigns `A[i][k] * B[k][j]` (`B[j][k]` when transposed) to
      `C[i][j]`.  The new result is `Call` of the old one: the rows visited hold
      last terms, every other cell is unchanged, and A and B are only read. */
  method MultiplyTwo2DArrays(tabA: array2<int>, tabB: array2<int>, tabResult: array2<int>, tabSize: int,
                             partOfMatrix: int, numOfElements: int, remainder: int, isTransposed: bool)
    requires Square(tabA, tabSize) && Square(tabB, tabSize) && Square(tabResult, tabSize)
    requires tabResult != tabA && tabResult != tabB
    requires Packet(partOfMatrix, numOfElements, remainder).FitsIn(tabSize)
    modifies tabResult
    ensures Grid(tabResult) ==
      Call(old(Grid(tabResult)), Grid(tabA), Grid(tabB), tabSize, isTransposed, Packet(partOfMatrix, numOfElements, remainder))
  {
    ghost var a, b, c0 := Grid(tabA), Grid(tabB), Grid(tabResult);
    ghost var last := LastTerms(a, b, tabSize, isTransposed);
    var indexFirstElementOfPacket := partOfMatrix * numOfElements;
    var indexLastElementOfPacket := indexFirstElementOfPacket + numOfElements - 1 + remainder;
    ghost var first := indexFirstElementOfPacket;
    var i := indexFirstElementOfPacket;
    while i < indexLastElementOfPacket
      invariant i == first || first < i <= indexLastElementOfPacket
      invariant forall r, s :: 0 <= r < tabSize && 0 <= s < tabSize && first <= r < i ==> tabResult[r, s] == last[r][s]
      invariant forall r, s :: 0 <= r < tabSize && 0 <= s < tabSize && !(first <= r < i) ==> tabResult[r, s] == c0[r][s]
    {
      AssignRow(tabA, tabB, tabResult, tabSize, i, isTransposed);
      i := i + 1;
    }
    SameCells(Grid(tabResult), Call(c0, a, b, tabSize, isTransposed, Packet(partOfMatrix, numOfElements, remainder)), tabSize);
  }

  /** The partition arithmetic and the calls of `main`, the worker calls made in
      the order the threads are started and the remainder packet last.  The new
      result is `Run` of the old one over `Packets`: the rows of `WrittenRow` hold
      last terms and all other cells, row `matrixSize - 1` among them, keep their
      old values. */
  method Dispatch(a: array2<int>, b: array2<int>, c: array2<int>, matrixSize: int, numOfThreads: int, transposed: bool)
    requires Square(a, matrixSize) && Square(b, matrixSize) && Square(c, matrixSize)
    requires c != a && c != b
    requires 1 <= matrixSize && MIN_THREADS <= numOfThreads <= MAX_THREADS
    modifies c
    ensures Grid(c) == Run(old(Grid(c)), Grid(a), Grid(b), matrixSize, transposed, Packets(matrixSize, numOfThreads))
    ensures forall i, j :: 0 <= i < matrixSize && 0 <= j < matrixSize ==>
      c[i, j] == if WrittenRow(matrixSize, numOfThreads, i) then LastTerm(Grid(a), Grid(b), matrixSize, transposed, i, j)
                 else old(c[i, j])
  {
    ghost var pks := Packets(matrixSize, numOfThreads);
    ghost var c0 := Grid(c);
    var columnsPerThread := if numOfThreads > 1 then matrixSize / numOfThreads else matrixSize;
    var remainingColumns := matrixSize % numOfThreads;
    var packetCounter := 0;
    if numOfThreads > 1 {
      var i := 0;
      while i < numOfThreads - 1
        invariant 0 <= i <= numOfThreads - 1
        invariant packetCounter == i
        invariant Grid(c) == Run(c0, Grid(a), Grid(b), matrixSize, transposed, pks[..i])
      {
        PacketsFit(matrixSize, numOfThreads, packetCounter);
        PacketAt(matrixSize, numOfThreads, packetCounter);
        MultiplyTwo2DArrays(a, b, c, matrixSize, packetCounter, columnsPerThread, 0, transposed);
        assert pks[..i + 1][..i] == pks[..i];
        packetCounter := packetCounter + 1;
        i := i + 1;
      }
    }
    PacketsFit(matrixSize, numOfThreads, packetCounter);
    PacketAt(matrixSize, numOfThreads, packetCounter);
    MultiplyTwo2DArrays(a, b, c, matrixSize, packetCounter, columnsPerThread, remainingColumns, transposed);
    assert pks[..numOfThreads][..numOfThreads - 1] == pks[..numOfThreads - 1];
    assert pks[..numOfThreads] == pks;
    forall i, j | 0 <= i < matrixSize && 0 <= j < matrixSize
      ensures c[i, j] == if WrittenRow(matrixSize, numOfThreads, i) then LastTerm(Grid(a), Grid(b), matrixSize, transposed, i, j)
                         else c0[i][j]
    {
      RunOfPackets(c0, Grid(a), Grid(b), matrixSize, transposed, numOfThreads, i, j);
    }
  }

  /** The same calls as `Dispatch`, made in the order `schedule` gives: packet
      `schedule[0]` first, then `schedule[1]`, and so on.  Whatever the order, the
      result is the one `Dispatch` leaves. */
  method DispatchScheduled(a: array2<int>, b: array2<int>, c: array2<int>, matrixSize: int, numOfThreads: int,
                           transposed: bool, schedule: seq<int>)
    requires Square(a, matrixSize) && Square(b, matrixSize) && Square(c, matrixSize)
    requires c != a && c != b
    requires 1 <= matrixSize && MIN_THREADS <= numOfThreads <= MAX_THREADS
    requires |schedule| == numOfThreads
    requires forall t :: 0 <= t < |schedule| ==> 0 <= schedule[t] < numOfThreads
    requires forall p :: 0 <= p < numOfThreads ==> p in schedule
    modifies c
    ensures Grid(c) == Run(old(Grid(c)), Grid(a), Grid(b), matrixSize, transposed, Packets(matrixSize, numOfThreads))
  {
    ghost var pks := Packets(matrixSize, numOfThreads);
    ghost var order := seq(|schedule|, t requires 0 <= t < |schedule| => pks[schedule[t]]);
    ghost var c0 := Grid(c);
    var columnsPerThread := if numOfThreads > 1 then matrixSize / numOfThreads else matrixSize;
    var remainingColumns := matrixSize % numOfThreads;
    var t := 0;
    while t < |schedule|
      invariant 0 <= t <= |schedule|
      invariant Grid(c) == Run(c0, Grid(a), Grid(b), matrixSize, transposed, order[..t])
    {
      var packetCounter := schedule[t];
      var rem := if packetCounter < numOfThreads - 1 then 0 else remainingColumns;
      PacketsFit(matrixSize, numOfThreads, packetCounter);
      PacketAt(matrixSize, numOfThreads, packetCounter);
      MultiplyTwo2DArrays(a, b, c, matrixSize, packetCounter, columnsPerThread, rem, transposed);
      assert order[..t + 1][..t] == order[..t];
      t := t + 1;
    }
    assert order[..|schedule|] == order;
    RunScheduled(c0, Grid(a), Grid(b), matrixSize, transposed, pks, schedule);
  }

  /** The intended loop over `k` for one cell: the cell is cleared and every
      term added to it, so it ends up holding the dot product.  No other cell
      changes. */
  method SumTerms(tabA: array2<int>, tabB: array2<int>, tabResult: array2<int>, tabSize: int,
                  i: int, j: int, isTransposed: bool)
    requires Square(tabA, tabSize) && Square(tabB, tabSize) && Square(tabResult, tabSize)
    requires tabResult != tabA && tabResult != tabB
    requires 0 <= i < tabSize && 0 <= j < tabSize
    modifies tabResult
    ensures tabResult[i, j] == Dot(Grid(tabA), Grid(tabB), tabSize, isTransposed, i, j)
    ensures forall r, s :: 0 <= r < tabSize && 0 <= s < tabSize && (r != i || s != j) ==>
      tabResult[r, s] == old(tabResult[r, s])
  {
    tabResult[i, j] := 0;
    var k := 0;
    while k < tabSize
      invariant 0 <= k <= tabSize
      invariant tabResult[i, j] == DotPrefix(Grid(tabA), Grid(tabB), tabSize, isTransposed, i, j, k)
      invariant forall r, s :: 0 <= r < tabSize && 0 <= s < tabSize && (r != i || s != j) ==>
        tabResult[r, s] == old(tabResult[r, s])
    {
      if !isTransposed {
        tabResult[i, j] := tabResult[i, j] + tabA[i, k] * tabB[k, j];
      } else {
        tabResult[i, j] := tabResult[i, j] + tabA[i, k] * tabB[j, k];
      }
      k := k + 1;
    }
  }

  /** The intended loop over `j` for row `i`: the row ends up holding row `i` of
      the product, and no other row changes. */
  method SumRow(tabA: array2<int>, tabB: array2<int>, tabResult: array2<int>, tabSize: int,
                i: int, isTransposed: bool)
    requires Square(tabA, tabSize) && Square(tabB, tabSize) && Square(tabResult, tabSize)
    requires tabResult != tabA && tabResult != tabB
    requires 0 <= i < tabSize
    modifies tabResult
    ensures forall s :: 0 <= s < tabSize ==> tabResult[i, s] == Dot(Grid(tabA), Grid(tabB), tabSize, isTransposed, i, s)
    ensures forall r, s :: 0 <= r < tabSize && 0 <= s < tabSize && r != i ==> tabResult[r, s] == old(tabResult[r, s])
  {
    var j := 0;
    while j < tabSize
      invariant 0 <= j <= tabSize
      invariant forall s :: 0 <= s < j ==> tabResult[i, s] == Dot(Grid(tabA), Grid(tabB), tabSize, isTransposed, i, s)
      invariant forall r, s :: 0 <= r < tabSize && 0 <= s < tabSize && r != i ==> tabResult[r, s] == old(tabResult[r, s])
    {
      SumTerms(tabA, tabB, tabResult, tabSize, i, j, isTransposed);
      j := j + 1;
    }
  }

  /** The evidently intended call: every row of the packet, bound without the
      `- 1`, and each cell set to the sum of all its terms rather than to the
      last one. */
  method MultiplyRowsIntended(tabA: array2<int>, tabB: array2<int>, tabResult: array2<int>, tabSize: int,
                              partOfMatrix: int, numOfElements: int, remainder: int, isTransposed: bool)
    requires Square(tabA, tabSize) && Square(tabB, tabSize) && Square(tabResult, tabSize)
    requires tabResult != tabA && tabResult != tabB
    requires 0 <= Packet(partOfMatrix, numOfElements, remainder).First()
    requires Packet(partOfMatrix, numOfElements, remainder).IntendedLast() <= tabSize
    modifies tabResult
    ensures forall r, s :: 0 <= r < tabSize && 0 <= s < tabSize ==>
      tabResult[r, s] == if Packet(partOfMatrix, numOfElements, remainder).IntendedWrites(r)
                         then Dot(Grid(tabA), Grid(tabB), tabSize, isTransposed, r, s) else old(tabResult[r, s])
  {
    ghost var c0 := Grid(tabResult);
    ghost var product := Product(Grid(tabA), Grid(tabB), tabSize, isTransposed);
    var first := partOfMatrix * numOfElements;
    var last := first + numOfElements + remainder;
    var i := first;
    while i < last
      invariant i == first || first < i <= last
      invariant forall r, s :: 0 <= r < tabSize && 0 <= s < tabSize && first <= r < i ==> tabResult[r, s] == product[r][s]
      invariant forall r, s :: 0 <= r < tabSize && 0 <= s < tabSize && !(first <= r < i) ==> tabResult[r, s] == c0[r][s]
    {
      SumRow(tabA, tabB, tabResult, tabSize, i, isTransposed);
      i := i + 1;
    }
  }

  /** `main`'s dispatch with the intended calls: the result is the whole product,
      A times B (or A times the transpose of B in transposed mode). */
  method DispatchIntended(a: array2<int>, b: array2<int>, c: array2<int>, matrixSize: int, numOfThreads: int, transposed: bool)
    requires Square(a, matrixSize) && Square(b, matrixSize) && Square(c, matrixSize)
    requires c != a && c != b
    requires 1 <= matrixSize && MIN_THREADS <= numOfThreads <= MAX_THREADS
    modifies c
    ensures forall i, j :: 0 <= i < matrixSize && 0 <= j < matrixSize ==>
      c[i, j] == Dot(Grid(a), Grid(b), matrixSize, transposed, i, j)
  {
    ghost var pks := Packets(matrixSize, numOfThreads);
    var columnsPerThread := if numOfThreads > 1 then matrixSize / numOfThreads else matrixSize;
    var remainingColumns := matrixSize % numOfThreads;
    var packetCounter := 0;
    ghost var done := 0;
    if numOfThreads > 1 {
      var i := 0;
      while i < numOfThreads - 1
        invariant 0 <= i <= numOfThreads - 1
        invariant packetCounter == i
        invariant done == pks[i].First()
        invariant forall r, s :: 0 <= r < matrixSize && 0 <= s < matrixSize && r < done ==>
          c[r, s] == Dot(Grid(a), Grid(b), matrixSize, transposed, r, s)
      {
        IntendedPacketsFit(matrixSize, numOfThreads, packetCounter);
        PacketAt(matrixSize, numOfThreads, packetCounter);
        MultiplyRowsIntended(a, b, c, matrixSize, packetCounter, columnsPerThread, 0, transposed);
        PacketsEndToEnd(matrixSize, numOfThreads, i);
        done := pks[i].IntendedLast();
        packetCounter := packetCounter + 1;
        i := i + 1;
      }
    }
    IntendedPacketsFit(matrixSize, numOfThreads, packetCounter);
    LastPacketBounds(matrixSize, numOfThreads);
    PacketAt(matrixSize, numOfThreads, packetCounter);
    MultiplyRowsIntended(a, b, c, matrixSize, packetCounter, columnsPerThread, remainingColumns, transposed);
  }
}
