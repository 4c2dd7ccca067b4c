/** Column storage as the hash joiner sees it: unsigned 64-bit words, the
    batch capacity, optional selection vectors and value columns with a
    null bitmap. */
module Columns {

  /** 2^64: unsigned 64-bit arithmetic wraps modulo this. */
  const U64: int := 0x1_0000_0000_0000_0000

  /** An unsigned 64-bit word (Go's uint64). */
  type u64 = x: int | 0 <= x < U64

  /** Row capacity of a column batch, and so of the output staging arrays. */
  const ColBatchSize: nat := 1024

  datatype Option<T> = None | Some(value: T)

  function Min(a: int, b: int): int { if a <= b then a else b }

  /** A selection vector is either absent (nil) or long enough for rows [0, n). */
  predicate SelCovers(sel: Option<seq<nat>>, n: nat)
  {
    sel.Some? ==> n <= |sel.value|
  }

  /** Physical position of logical row `i`: `sel[i]` when a selection
      vector is present, `i` itself when it is nil. */
  function SelIndex(sel: Option<seq<nat>>, i: nat): nat
    requires SelCovers(sel, i + 1)
  {
    if sel.Some? then sel.value[i] else i
  }

  /** A typed column: its values and, position by position, whether the
      value is null. A null position still holds some (meaningless) value. */
  datatype ColVec<V> = ColVec(values: seq<V>, nulls: seq<bool>) {

    predicate Valid() { |values| == |nulls| }

    predicate NullAt(k: nat)
      requires k < |nulls|
    {
      nulls[k]
    }
  }
}
