/** The hash kernel behind `rehash`: each equality column folds one value
    hash into a per-row 64-bit accumulator as acc*31 + hash. */
module Hashing {
  import opened Columns

  /** One rehash step, wrapping modulo 2^64 like Go's uint64 arithmetic. */
  function Combine(acc: u64, h: u64): u64
  {
    (acc * 31 + h) % U64
  }

  /** The accumulator after folding the values of `row` (one value per
      equality column, left to right) into `init`, each hashed by its own
      column's kernel hashes[c], as one rehash call per column does. */
  ghost function KeyHash<V>(hashes: seq<V -> u64>, init: u64, row: seq<V>): u64
    requires |hashes| == |row|
    decreases |row|
  {
    if row == [] then init
    else
      var n := |row| - 1;
      Combine(KeyHash(hashes[..n], init, row[..n]), hashes[n](row[n]))
  }

  /** The same fold over unbounded integers: the base-31 polynomial
      init*31^n + h0*31^(n-1) + ... + h(n-1), where hc is the hash of
      column c's value. */
  ghost function Poly<V>(hashes: seq<V -> u64>, init: int, row: seq<V>): int
    requires |hashes| == |row|
    decreases |row|
  {
    if row == [] then init
    else
      var n := |row| - 1;
      Poly(hashes[..n], init, row[..n]) * 31 + hashes[n](row[n])
  }

  /** Adding a multiple of 2^64 does not change a residue. */
  lemma ModAddMultiple(x: int, m: int)
    ensures (x + m * U64) % U64 == x % U64
  {
    var q, r := x / U64, x % U64;
    assert x == q * U64 + r;
    assert x + m * U64 == (q + m) * U64 + r;
  }

  /** Reducing the accumulator before a step gives the same residue as
      reducing after it. */
  lemma ModMulAdd(a: int, h: int)
    ensures ((a % U64) * 31 + h) % U64 == (a * 31 + h) % U64
  {
    var q, r := a / U64, a % U64;
    assert a == q * U64 + r;
    assert a * 31 + h == (r * 31 + h) + (q * 31) * U64;
    ModAddMultiple(r * 31 + h, q * 31);
  }

  /** The wrapping per-column fold computes the base-31 polynomial of the
      column hashes reduced modulo 2^64: intermediate wrap-around loses
      nothing; the polynomial takes the column hashes in column order. */
  lemma {:induction false} KeyHashIsPolynomial<V>(hashes: seq<V -> u64>, init: u64, row: seq<V>)
    requires |hashes| == |row|
    ensures KeyHash(hashes, init, row) == Poly(hashes, init, row) % U64
    decreases |row|
  {
    if row != [] {
      var n := |row| - 1;
      KeyHashIsPolynomial(hashes[..n], init, row[..n]);
      ModMulAdd(Poly(hashes[..n], init, row[..n]), hashes[n](row[n]));
    }
  }

  /** Two rows that agree on their first columns get the same key hash
      after one more column exactly when the hashes of that column's values
      agree: every rehash step keeps the new column's hash recoverable from
      the accumulator it starts from. */
  lemma KeyHashStepInjective<V>(hashes: seq<V -> u64>, hash: V -> u64, init: u64, row: seq<V>, v: V, w: V)
    requires |hashes| == |row|
    ensures KeyHash(hashes + [hash], init, row + [v]) == KeyHash(hashes + [hash], init, row + [w]) <==> hash(v) == hash(w)
  {
    assert (hashes + [hash])[..|row|] == hashes;
    assert (row + [v])[..|row|] == row && (row + [w])[..|row|] == row;
  }
}
