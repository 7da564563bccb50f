/**
 * The row partition every chunk engine uses: n bands of a total of rows, the remainder spread over
 * the earliest bands.
 */
module RowBands {
  import opened Prelude
  import opened Arithmetic

  /** Rows of band i: Math.floor(total / n), plus one for the first total % n bands. */
  function BandRows(total: nat, n: nat, i: nat): nat
    requires n > 0
  {
    total / n + if i < total % n then 1 else 0
  }

  /** The first row of band i: the rows of all bands before it. */
  function BandStart(total: nat, n: nat, i: nat): nat
    requires n > 0
  {
    if i == 0 then 0 else BandStart(total, n, i - 1) + BandRows(total, n, i - 1)
  }

  lemma {:induction false} BandStartClosed(total: nat, n: nat, i: nat)
    requires n > 0
    ensures BandStart(total, n, i) == i * (total / n) + Min(i, total % n)
  {
    if i > 0 {
      BandStartClosed(total, n, i - 1);
      MulDistrib(i - 1, 1, total / n);
    }
  }

  /** n bands end exactly at the last row. */
  lemma BandsCover(total: nat, n: nat)
    requires n > 0
    ensures BandStart(total, n, n) == total
  {
    BandStartClosed(total, n, n);
  }

  lemma {:induction false} BandStartMonotone(total: nat, n: nat, i: nat, j: nat)
    requires n > 0 && i <= j <= n
    ensures BandStart(total, n, i) <= BandStart(total, n, j) <= total
    decreases n - i
  {
    if i < n {
      BandStartMonotone(total, n, i + 1, Max(i + 1, j));
    } else {
      BandsCover(total, n);
    }
  }

  /** No band is empty, and no two bands differ by more than one row. */
  lemma BandsBalanced(total: nat, n: nat, i: nat, j: nat)
    requires 0 < n <= total && i < n && j < n
    ensures BandRows(total, n, i) >= 1
    ensures i <= j ==> BandRows(total, n, j) <= BandRows(total, n, i) <= BandRows(total, n, j) + 1
  {
    QuotientBounds(total, n, 1, total);
  }
}
