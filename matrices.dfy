/** Values of the three square matrices and what the calls of
    `multiplyTwo2DArrays` do to the result, one packet at a time.

    The innermost statement of the program assigns `C[i][j]` instead of adding to
    it, so a call leaves in every cell of its rows the last term of the dot
    product only.  `Dot` is the real dot product, kept beside it for comparison. */
module Matrices {
  import opened Partition

  /** A matrix as a sequence of rows. */
  type Matrix = seq<seq<int>>

  predicate IsSquare(m: Matrix, size: int) {
    |m| == size && forall i :: 0 <= i < size ==> |m[i]| == size
  }

  /** Term `k` of row `i` of A times column `j` of B; in transposed mode B is read
      as already transposed, so its row `j` stands for the column. */
  function Term(a: Matrix, b: Matrix, size: int, transposed: bool, i: int, j: int, k: int): int
    requires IsSquare(a, size) && IsSquare(b, size)
    requires 0 <= i < size && 0 <= j < size && 0 <= k < size
  {
    a[i][k] * (if transposed then b[j][k] else b[k][j])
  }

  /** What the loop over `k` leaves in a cell: the term with `k = size - 1`. */
  function LastTerm(a: Matrix, b: Matrix, size: int, transposed: bool, i: int, j: int): int
    requires IsSquare(a, size) && IsSquare(b, size)
    requires 0 <= i < size && 0 <= j < size
  {
    Term(a, b, size, transposed, i, j, size - 1)
  }

  /** The sum of the first `k` terms. */
  function DotPrefix(a: Matrix, b: Matrix, size: int, transposed: bool, i: int, j: int, k: int): int
    requires IsSquare(a, size) && IsSquare(b, size)
    requires 0 <= i < size && 0 <= j < size && 0 <= k <= size
  {
    if k == 0 then 0 else DotPrefix(a, b, size, transposed, i, j, k - 1) + Term(a, b, size, transposed, i, j, k - 1)
  }

  /** Cell `(i, j)` of the product. */
  function Dot(a: Matrix, b: Matrix, size: int, transposed: bool, i: int, j: int): int
    requires IsSquare(a, size) && IsSquare(b, size)
    requires 0 <= i < size && 0 <= j < size
  {
    DotPrefix(a, b, size, transposed, i, j, size)
  }

  /** The last term of every cell. */
  function LastTerms(a: Matrix, b: Matrix, size: int, transposed: bool): (m: Matrix)
    requires IsSquare(a, size) && IsSquare(b, size)
    ensures IsSquare(m, size)
    ensures forall i, j :: 0 <= i < size && 0 <= j < size ==> m[i][j] == LastTerm(a, b, size, transposed, i, j)
  {
    seq(size, i requires 0 <= i < size => seq(size, j requires 0 <= j < size => LastTerm(a, b, size, transposed, i, j)))
  }

  /** The whole product, cell by cell. */
  function Product(a: Matrix, b: Matrix, size: int, transposed: bool): (p: Matrix)
    requires IsSquare(a, size) && IsSquare(b, size)
    ensures IsSquare(p, size)
    ensures forall i, j :: 0 <= i < size && 0 <= j < size ==> p[i][j] == Dot(a, b, size, transposed, i, j)
  {
    seq(size, i requires 0 <= i < size => seq(size, j requires 0 <= j < size => Dot(a, b, size, transposed, i, j)))
  }

  /** The result matrix after one call with packet `pk`: the rows the call
      visits hold last terms, the others are as they were. */
  function Call(c: Matrix, a: Matrix, b: Matrix, size: int, transposed: bool, pk: Packet): (r: Matrix)
    requires IsSquare(c, size) && IsSquare(a, size) && IsSquare(b, size)
    ensures IsSquare(r, size)
  {
    var last := LastTerms(a, b, size, transposed);
    seq(size, i requires 0 <= i < size => if pk.Writes(i) then last[i] else c[i])
  }

  /** The result matrix after the calls `pks`, made one after the other in that order. */
  function Run(c: Matrix, a: Matrix, b: Matrix, size: int, transposed: bool, pks: seq<Packet>): (r: Matrix)
    requires IsSquare(c, size) && IsSquare(a, size) && IsSquare(b, size)
    ensures IsSquare(r, size)
  {
    if pks == [] then c
    else Call(Run(c, a, b, size, transposed, pks[..|pks| - 1]), a, b, size, transposed, pks[|pks| - 1])
  }

  /** Some call among `pks` visits row `i`. */
  predicate SomeWrites(pks: seq<Packet>, i: int) {
    exists q :: 0 <= q < |pks| && pks[q].Writes(i)
  }

  /** Two square matrices with the same cells are equal. */
  lemma SameCells(m1: Matrix, m2: Matrix, size: int)
    requires IsSquare(m1, size) && IsSquare(m2, size)
    requires forall i, j :: 0 <= i < size && 0 <= j < size ==> m1[i][j] == m2[i][j]
    ensures m1 == m2
  {
    forall i | 0 <= i < size
      ensures m1[i] == m2[i]
    {
      assert forall j :: 0 <= j < size ==> m1[i][j] == m2[i][j];
    }
  }

  /** After any sequence of calls, a cell holds its last term if one of the calls
      visits its row, and its old value otherwise. */
  lemma {:induction false} RunCell(c: Matrix, a: Matrix, b: Matrix, size: int, transposed: bool, pks: seq<Packet>, i: int, j: int)
    requires IsSquare(c, size) && IsSquare(a, size) && IsSquare(b, size)
    requires 0 <= i < size && 0 <= j < size
    ensures Run(c, a, b, size, transposed, pks)[i][j] ==
      if SomeWrites(pks, i) then LastTerm(a, b, size, transposed, i, j) else c[i][j]
  {
    if pks != [] {
      var init := pks[..|pks| - 1];
      RunCell(c, a, b, size, transposed, init, i, j);
      if SomeWrites(pks, i) && !pks[|pks| - 1].Writes(i) {
        var q :| 0 <= q < |pks| && pks[q].Writes(i);
        assert init[q].Writes(i);
      }
      if SomeWrites(init, i) {
        var q :| 0 <= q < |init| && init[q].Writes(i);
        assert pks[q].Writes(i);
      }
    }
  }

  /** The order of the calls does not matter: any two sequences made of the same
      packets leave the same result matrix.  This holds even for overlapping
      packets, since every value written depends on A and B alone. */
  lemma RunOrderIrrelevant(c: Matrix, a: Matrix, b: Matrix, size: int, transposed: bool, pks: seq<Packet>, qks: seq<Packet>)
    requires IsSquare(c, size) && IsSquare(a, size) && IsSquare(b, size)
    requires forall pk :: pk in pks <==> pk in qks
    ensures Run(c, a, b, size, transposed, pks) == Run(c, a, b, size, transposed, qks)
  {
    forall i, j | 0 <= i < size && 0 <= j < size
      ensures Run(c, a, b, size, transposed, pks)[i][j] == Run(c, a, b, size, transposed, qks)[i][j]
    {
      RunCell(c, a, b, size, transposed, pks, i, j);
      RunCell(c, a, b, size, transposed, qks, i, j);
      if SomeWrites(pks, i) {
        var q :| 0 <= q < |pks| && pks[q].Writes(i);
        assert pks[q] in qks;
      }
      if SomeWrites(qks, i) {
        var q :| 0 <= q < |qks| && qks[q].Writes(i);
        assert qks[q] in pks;
      }
    }
    SameCells(Run(c, a, b, size, transposed, pks), Run(c, a, b, size, transposed, qks), size);
  }

  /** Making the packets `pks` in the order `schedule` gives (a permutation of
      their indices) leaves the same result as making them in their own order. */
  lemma RunScheduled(c: Matrix, a: Matrix, b: Matrix, size: int, transposed: bool, pks: seq<Packet>, schedule: seq<int>)
    requires IsSquare(c, size) && IsSquare(a, size) && IsSquare(b, size)
    requires forall t :: 0 <= t < |schedule| ==> 0 <= schedule[t] < |pks|
    requires forall p :: 0 <= p < |pks| ==> p in schedule
    ensures Run(c, a, b, size, transposed, seq(|schedule|, t requires 0 <= t < |schedule| => pks[schedule[t]]))
         == Run(c, a, b, size, transposed, pks)
  {
    var order := seq(|schedule|, t requires 0 <= t < |schedule| => pks[schedule[t]]);
    forall pk | pk in pks
      ensures pk in order
    {
      var p :| 0 <= p < |pks| && pks[p] == pk;
      assert p in schedule;
      var t :| 0 <= t < |schedule| && schedule[t] == p;
      assert order[t] == pk;
    }
    RunOrderIrrelevant(c, a, b, size, transposed, order, pks);
  }

  /** Two calls commute, which is what lets the threads run side by side. */
  lemma CallsCommute(c: Matrix, a: Matrix, b: Matrix, size: int, transposed: bool, p1: Packet, p2: Packet)
    requires IsSquare(c, size) && IsSquare(a, size) && IsSquare(b, size)
    ensures Call(Call(c, a, b, size, transposed, p1), a, b, size, transposed, p2)
         == Call(Call(c, a, b, size, transposed, p2), a, b, size, transposed, p1)
  {
    var left := Call(Call(c, a, b, size, transposed, p1), a, b, size, transposed, p2);
    var right := Call(Call(c, a, b, size, transposed, p2), a, b, size, transposed, p1);
    SameCells(left, right, size);
  }

  /** Running the same call twice is the same as running it once. */
  lemma CallIdempotent(c: Matrix, a: Matrix, b: Matrix, size: int, transposed: bool, pk: Packet)
    requires IsSquare(c, size) && IsSquare(a, size) && IsSquare(b, size)
    ensures Call(Call(c, a, b, size, transposed, pk), a, b, size, transposed, pk) == Call(c, a, b, size, transposed, pk)
  {
    SameCells(Call(Call(c, a, b, size, transposed, pk), a, b, size, transposed, pk), Call(c, a, b, size, transposed, pk), size);
  }

  /** The result of `main`'s calls with `n` threads: the rows of `WrittenRow` hold
      last terms, every other row (among them row `size - 1`) keeps its old value. */
  lemma RunOfPackets(c: Matrix, a: Matrix, b: Matrix, size: int, transposed: bool, n: int, i: int, j: int)
    requires IsSquare(c, size) && IsSquare(a, size) && IsSquare(b, size)
    requires 1 <= size && 1 <= n && 0 <= i < size && 0 <= j < size
    ensures Run(c, a, b, size, transposed, Packets(size, n))[i][j] ==
      if WrittenRow(size, n, i) then LastTerm(a, b, size, transposed, i, j) else c[i][j]
  {
    RunCell(c, a, b, size, transposed, Packets(size, n), i, j);
    CoveredRows(size, n, i);
    assert SomeWrites(Packets(size, n), i) == Covered(size, n, i);
  }

  /** What the assignment costs: with A and B all ones and `size = 2`, a cell
      holds 1 where the product has 2. */
  lemma LastTermIsNotTheProduct()
    ensures IsSquare([[1, 1], [1, 1]], 2)
    ensures LastTerm([[1, 1], [1, 1]], [[1, 1], [1, 1]], 2, false, 0, 0) == 1
    ensures Dot([[1, 1], [1, 1]], [[1, 1], [1, 1]], 2, false, 0, 0) == 2
  {
    var ones: Matrix := [[1, 1], [1, 1]];
    assert DotPrefix(ones, ones, 2, false, 0, 0, 1) == 1;
  }
}
