/**
 * The record layout shared by the data source and the K-means job: a point
 * is stored as `dim` doubles followed by one label slot, and records are
 * laid end to end.
 */
module RecordLayout {

  /** Size of a double, in bytes. */
  const DoubleSize: nat := 8

  /** Record stride, in doubles: the coordinates and the label slot. */
  function Stride(dim: nat): nat { dim + 1 }

  /** Record size, in bytes (`item_size` in the source). */
  function ItemSize(dim: nat): nat { DoubleSize * Stride(dim) }

  /** The number of whole records in `n` bytes. */
  function RecordCount(n: nat, dim: nat): nat
  {
    if n < ItemSize(dim) then 0 else 1 + RecordCount(n - ItemSize(dim), dim)
  }

  /** The double index just past `n` records laid end to end from `base`. */
  function RecordsEnd(base: nat, n: nat, dim: nat): (e: nat)
    ensures e >= base
  {
    if n == 0 then base else RecordsEnd(base, n - 1, dim) + Stride(dim)
  }

  /** ... which is `base + n * point_stride`. */
  lemma {:induction false} RecordsEndIsOffset(base: nat, n: nat, dim: nat)
    ensures RecordsEnd(base, n, dim) == base + n * Stride(dim)
  {
    if n > 0 {
      RecordsEndIsOffset(base, n - 1, dim);
      MulAdd(n - 1, 1, Stride(dim));
    }
  }

  lemma {:induction false} RecordsEndMono(base: nat, i: nat, n: nat, dim: nat)
    requires i <= n
    ensures RecordsEnd(base, i, dim) <= RecordsEnd(base, n, dim)
  {
    if i < n {
      RecordsEndMono(base, i, n - 1, dim);
    }
  }

  /** Multiplication distributes over addition. */
  lemma MulAdd(a: nat, b: nat, c: nat)
    ensures (a + b) * c == a * c + b * c
  {
  }
}
