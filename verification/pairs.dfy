/** Numbering of the ordered pairs (i, j), i != j, of an N-document run in the
    row-major order of the full-mode double loop: the value of the running
    counter `file_ind` when pair (i, j) is reached. */
module Pairs {

  /** Off-diagonal cells per row. */
  function RowWidth(n: nat): nat {
    if n == 0 then 0 else n - 1
  }

  /** Counter value when row i starts: each earlier row contributed RowWidth(n). */
  function RowStart(n: nat, i: nat): nat {
    if i == 0 then 0 else RowStart(n, i - 1) + RowWidth(n)
  }

  /** Number of ordered pairs of distinct positions among `n`. */
  function PairCount(n: nat): nat {
    RowStart(n, n)
  }

  lemma {:induction false} RowStartMonotone(n: nat, i: nat, i': nat)
    requires i <= i'
    ensures RowStart(n, i) <= RowStart(n, i')
    decreases i' - i
  {
    if i < i' {
      RowStartMonotone(n, i, i' - 1);
    }
  }

  lemma {:induction false} RowStartIsProduct(n: nat, i: nat)
    ensures RowStart(n, i) == i * RowWidth(n)
  {
    if i > 0 {
      RowStartIsProduct(n, i - 1);
      assert i * RowWidth(n) == (i - 1) * RowWidth(n) + RowWidth(n);
    }
  }

  /** The counter advances by n - 1 per row, so n rows make n * (n - 1) pairs. */
  lemma PairCountIsProduct(n: nat)
    ensures PairCount(n) == n * (n - 1)
  {
    RowStartIsProduct(n, n);
  }

  /** Counter value at pair (i, j): the rows before i, then the columns of row i
      before j other than the diagonal. */
  function PairIndex(n: nat, i: nat, j: nat): (k: nat)
    requires i < n && j < n && i != j
    ensures RowStart(n, i) <= k < RowStart(n, i + 1)
    ensures k < PairCount(n)
  {
    RowStartMonotone(n, i + 1, n);
    RowStart(n, i) + (if j < i then j else j - 1)
  }

  /** The pair reached when the counter holds `k`. */
  function PairAt(n: nat, k: nat): (p: (nat, nat))
    requires k < PairCount(n)
    ensures p.0 < n && p.1 < n && p.0 != p.1
  {
    assert n > 0;
    PairAtFrom(n, 0, k)
  }

  /** Scans rows from `i` on for the one whose counter range holds `k`. */
  function PairAtFrom(n: nat, i: nat, k: nat): (p: (nat, nat))
    requires i < n && RowStart(n, i) <= k < PairCount(n)
    ensures i <= p.0 < n && p.1 < n && p.0 != p.1
    ensures RowStart(n, p.0) <= k < RowStart(n, p.0 + 1)
    decreases n - i
  {
    if k < RowStart(n, i + 1) then
      var c := k - RowStart(n, i);
      (i, if c < i then c else c + 1)
    else
      PairAtFrom(n, i + 1, k)
  }

  /** Reading the pair back from its counter value gives the pair. */
  lemma PairAtIndex(n: nat, i: nat, j: nat)
    requires i < n && j < n && i != j
    ensures PairAt(n, PairIndex(n, i, j)) == (i, j)
  {
    var k := PairIndex(n, i, j);
    var p := PairAt(n, k);
    if p.0 < i {
      RowStartMonotone(n, p.0 + 1, i);
    } else if p.0 > i {
      RowStartMonotone(n, i + 1, p.0);
    }
    RowOfIndex(n, 0, k);
  }

  /** Within the row found, the column is the counter offset skipping the diagonal. */
  lemma {:induction false} RowOfIndex(n: nat, i: nat, k: nat)
    requires i < n && RowStart(n, i) <= k < PairCount(n)
    ensures var p := PairAtFrom(n, i, k);
      p.1 == (var c := k - RowStart(n, p.0); if c < p.0 then c else c + 1)
    decreases n - i
  {
    if k >= RowStart(n, i + 1) {
      RowOfIndex(n, i + 1, k);
    }
  }

  /** Every counter value below the pair count belongs to exactly one pair. */
  lemma IndexPairAt(n: nat, k: nat)
    requires k < PairCount(n)
    ensures PairIndex(n, PairAt(n, k).0, PairAt(n, k).1) == k
  {
    RowOfIndex(n, 0, k);
  }

  /** Distinct pairs get distinct counter values. */
  lemma PairIndexInjective(n: nat, i: nat, j: nat, i': nat, j': nat)
    requires i < n && j < n && i != j
    requires i' < n && j' < n && i' != j'
    requires PairIndex(n, i, j) == PairIndex(n, i', j')
    ensures i == i' && j == j'
  {
    PairAtIndex(n, i, j);
    PairAtIndex(n, i', j');
  }
}
