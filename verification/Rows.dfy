/** Distances in memory: y rows of wpl words, or of any other unit. */
module Rows {
  // wpl * y by repeated addition, which keeps products out of the proofs about pointers
  ghost function Row(wpl: nat, y: nat): nat {
    if y == 0 then 0 else Row(wpl, y - 1) + wpl
  }

  lemma RowIsProduct(wpl: nat, y: nat)
    ensures Row(wpl, y) == wpl * y
  {
  }

  lemma NextRow(wpl: nat, y: nat)
    ensures Row(wpl, y + 1) == Row(wpl, y) + wpl
  {
  }

  lemma RowMonotone(wpl: nat, y: nat, y': nat)
    requires y < y'
    ensures Row(wpl, y) + wpl <= Row(wpl, y')
  {
    if y + 1 < y' { RowMonotone(wpl, y, y' - 1); }
  }

  lemma RowSum(n: nat, a: nat, b: nat)
    ensures Row(n, a + b) == Row(n, a) + Row(n, b)
  {
    if b > 0 { RowSum(n, a, b - 1); }
  }
}
