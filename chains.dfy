/** What the collector emits, stated on values: the chains of build row ids
    the hash table links through `same`, the (build index, probe position)
    pairs a set of per-row cursors still has to produce, and the pairs the
    distinct fast path produces from `groupID`. */
module Chains {
  import opened Columns

  /** Shape of the hash table's `same` links: id 0 is the sentinel that
      ends every chain, and every id links to a smaller one, so that every
      chain walk terminates. */
  predicate LinksWellFormed(same: seq<nat>)
  {
    |same| > 0 && same[0] == 0 && forall k :: 0 < k < |same| ==> same[k] < k
  }

  /** The 1-based build row ids visited from cursor `id` by following
      `same` until the sentinel 0. */
  ghost function Chain(same: seq<nat>, id: nat): (c: seq<nat>)
    requires LinksWellFormed(same) && id < |same|
    ensures |c| <= id
    ensures (c == []) == (id == 0)
    ensures forall k :: 0 <= k < |c| ==> 0 < c[k] <= id
    ensures c != [] ==> c[0] == id && same[c[|c| - 1]] == 0
    ensures forall k {:trigger same[c[k]]} :: 0 <= k < |c| - 1 ==> same[c[k]] == c[k + 1]
    ensures forall j, k :: 0 <= j < k < |c| ==> c[j] > c[k]
    decreases id
  {
    if id == 0 then [] else [id] + Chain(same, same[id])
  }

  /** One staged output row: the build row index (id - 1) and the probe row
      position it is joined with. A build index of -1 marks a null-extended
      row of a right-outer join. */
  datatype Pair = Pair(build: int, probe: nat)

  /** Pairs produced by walking the chain from cursor `id` for the probe
      row at position `pos`. */
  ghost function RowPairs(same: seq<nat>, id: nat, pos: nat): seq<Pair>
    requires LinksWellFormed(same) && id < |same|
    decreases id
  {
    if id == 0 then [] else [Pair(id - 1, pos)] + RowPairs(same, same[id], pos)
  }

  /** A row's pairs are exactly (id - 1, pos) for the ids of its chain, in
      chain order; so every build index is at least 0. */
  lemma {:induction false} RowPairsWalkChain(same: seq<nat>, id: nat, pos: nat)
    requires LinksWellFormed(same) && id < |same|
    ensures |RowPairs(same, id, pos)| == |Chain(same, id)|
    ensures forall k :: 0 <= k < |Chain(same, id)| ==> RowPairs(same, id, pos)[k] == Pair(Chain(same, id)[k] - 1, pos)
    decreases id
  {
    if id != 0 {
      RowPairsWalkChain(same, same[id], pos);
    }
  }

  /** Pairs one probe row contributes: its chain, and in right-outer mode
      a single null-extended pair when its cursor is 0. */
  ghost function RowOf(outer: bool, same: seq<nat>, id: nat, pos: nat): seq<Pair>
    requires LinksWellFormed(same) && id < |same|
  {
    if outer && id == 0 then [Pair(-1, pos)] else RowPairs(same, id, pos)
  }

  /** Every cursor of rows [from, to) names a row id of the table. */
  ghost predicate CursorsInRange(same: seq<nat>, head: seq<nat>, from: nat, to: nat)
    requires to <= |head|
  {
    forall j :: from <= j < to ==> head[j] < |same|
  }

  ghost predicate PendingPre(same: seq<nat>, head: seq<nat>, sel: Option<seq<nat>>, from: nat, to: nat)
  {
    LinksWellFormed(same) && from <= to <= |head| && SelCovers(sel, to) && CursorsInRange(same, head, from, to)
  }

  /** The pairs that the cursors `head` of probe rows [from, to) still have
      to produce, in probe row order and, within a row, in chain order. */
  ghost function Pending(outer: bool, same: seq<nat>, head: seq<nat>, sel: Option<seq<nat>>, from: nat, to: nat): seq<Pair>
    requires PendingPre(same, head, sel, from, to)
    decreases (to as int) - (from as int)
  {
    if from == to then []
    else RowOf(outer, same, head[from], SelIndex(sel, from)) + Pending(outer, same, head, sel, from + 1, to)
  }

  /** Concatenation regroups. */
  lemma AppendAssoc<T>(a: seq<T>, b: seq<T>, c: seq<T>)
    ensures (a + b) + c == a + (b + c)
  {
  }

  /** Consuming the head of a suffix: if s[n..] starts with x, then x is at
      n and the rest of the suffix starts at n + 1. */
  lemma SuffixStep<T>(s: seq<T>, n: nat, x: T, a: seq<T>, b: seq<T>)
    requires n <= |s| && s[n..] == [x] + a + b
    ensures n < |s| && s[n] == x && s[n + 1..] == a + b
  {
    AppendAssoc([x], a, b);
    assert s[n..][0] == x;
    assert s[n + 1..] == s[n..][1..];
  }

  /** With outer semantics a row's pairs start with the pair of its cursor
      (null-extended for cursor 0), followed by the pairs of the next id,
      if that is not the sentinel. */
  lemma RowOfOuterStep(same: seq<nat>, id: nat, pos: nat)
    requires LinksWellFormed(same) && id < |same|
    ensures RowOf(true, same, id, pos)
         == [Pair(id - 1, pos)] + (if same[id] == 0 then [] else RowOf(true, same, same[id], pos))
  {
    if id != 0 {
      assert RowOf(true, same, id, pos) == [Pair(id - 1, pos)] + RowPairs(same, same[id], pos);
      assert same[id] == 0 ==> RowPairs(same, same[id], pos) == [];
    }
  }

  /** Pending reads only the cursors of rows [from, to). */
  lemma {:induction false} PendingFrame(outer: bool, same: seq<nat>, h1: seq<nat>, h2: seq<nat>, sel: Option<seq<nat>>, from: nat, to: nat)
    requires PendingPre(same, h1, sel, from, to) && to <= |h2|
    requires forall j :: from <= j < to ==> h1[j] == h2[j]
    ensures PendingPre(same, h2, sel, from, to)
    ensures Pending(outer, same, h1, sel, from, to) == Pending(outer, same, h2, sel, from, to)
    decreases (to as int) - (from as int)
  {
    if from < to {
      PendingFrame(outer, same, h1, h2, sel, from + 1, to);
      assert h1[from] == h2[from];
      assert Pending(outer, same, h1, sel, from, to)
          == RowOf(outer, same, h1[from], SelIndex(sel, from)) + Pending(outer, same, h1, sel, from + 1, to);
    }
  }

  /** Appending one more probe row appends that row's pairs. */
  lemma {:induction false} PendingSnoc(outer: bool, same: seq<nat>, head: seq<nat>, sel: Option<seq<nat>>, from: nat, to: nat)
    requires PendingPre(same, head, sel, from, to + 1) && from <= to
    ensures Pending(outer, same, head, sel, from, to + 1)
         == Pending(outer, same, head, sel, from, to) + RowOf(outer, same, head[to], SelIndex(sel, to))
    decreases (to as int) - (from as int)
  {
    var last := RowOf(outer, same, head[to], SelIndex(sel, to));
    if from == to {
      assert Pending(outer, same, head, sel, to + 1, to + 1) == [];
      assert Pending(outer, same, head, sel, from, to + 1) == last + [];
    } else {
      assert PendingPre(same, head, sel, from + 1, to + 1);
      PendingSnoc(outer, same, head, sel, from + 1, to);
      var row := RowOf(outer, same, head[from], SelIndex(sel, from));
      var mid := Pending(outer, same, head, sel, from + 1, to);
      assert Pending(outer, same, head, sel, from, to + 1) == row + (mid + last);
      assert Pending(outer, same, head, sel, from, to) == row + mid;
      assert row + (mid + last) == (row + mid) + last;
    }
  }

  /** Without outer semantics, drained rows (cursor 0) contribute nothing. */
  lemma {:induction false} PendingSkipDrained(same: seq<nat>, head: seq<nat>, sel: Option<seq<nat>>, from: nat, mid: nat, to: nat)
    requires PendingPre(same, head, sel, from, to) && from <= mid <= to
    requires forall j :: from <= j < mid ==> head[j] == 0
    ensures Pending(false, same, head, sel, from, to) == Pending(false, same, head, sel, mid, to)
    decreases (mid as int) - (from as int)
  {
    if from < mid {
      PendingSkipDrained(same, head, sel, from + 1, mid, to);
    }
  }

  /** With outer semantics every probe row of [from, to) appears in the
      pairs at least once, matched or null-extended. */
  lemma {:induction false} OuterPendingCoversRows(same: seq<nat>, head: seq<nat>, sel: Option<seq<nat>>, from: nat, to: nat, i: nat)
    requires PendingPre(same, head, sel, from, to) && from <= i < to
    ensures exists k :: (0 <= k < |Pending(true, same, head, sel, from, to)| &&
                         Pending(true, same, head, sel, from, to)[k].probe == SelIndex(sel, i))
    decreases (to as int) - (from as int)
  {
    var row := RowOf(true, same, head[from], SelIndex(sel, from));
    var rest := Pending(true, same, head, sel, from + 1, to);
    assert Pending(true, same, head, sel, from, to) == row + rest;
    if i == from {
      assert |row| > 0 && row[0].probe == SelIndex(sel, i);
      assert (row + rest)[0] == row[0];
    } else {
      OuterPendingCoversRows(same, head, sel, from + 1, to, i);
      var k :| 0 <= k < |rest| && rest[k].probe == SelIndex(sel, i);
      assert (row + rest)[|row| + k] == rest[k];
    }
  }

  /** Pairs of the distinct fast path without outer semantics: one pair per
      probe row of [0, n) whose groupID is nonzero, in row order. */
  ghost function DistinctPairs(gid: seq<nat>, sel: Option<seq<nat>>, n: nat): (r: seq<Pair>)
    requires n <= |gid| && SelCovers(sel, n)
    ensures |r| <= n
    ensures forall k :: 0 <= k < |r| ==> r[k].build >= 0
  {
    if n == 0 then []
    else DistinctPairs(gid, sel, n - 1) + (if gid[n - 1] != 0 then [Pair(gid[n - 1] - 1, SelIndex(sel, n - 1))] else [])
  }

  /** Pairs of the distinct fast path with outer semantics: exactly one pair
      per probe row of [0, n). */
  ghost function DistinctOuterPairs(gid: seq<nat>, sel: Option<seq<nat>>, n: nat): seq<Pair>
    requires n <= |gid| && SelCovers(sel, n)
  {
    seq(n, i requires 0 <= i < n => Pair(gid[i] as int - 1, SelIndex(sel, i)))
  }

  /** A cursor whose id ends its chain contributes at most its own pair. */
  lemma RowOfUnique(outer: bool, same: seq<nat>, id: nat, pos: nat)
    requires LinksWellFormed(same) && id < |same| && same[id] == 0
    ensures RowOf(outer, same, id, pos)
         == if id != 0 then [Pair(id - 1, pos)] else if outer then [Pair(-1, pos)] else []
  {
    if id != 0 {
      assert RowPairs(same, same[id], pos) == [];
    }
  }

  /** The distinct fast path agrees with the general collector without
      outer semantics: when every resolved candidate ends its chain and the
      cursors are seeded from groupID, walking the chains yields exactly the
      pairs the fast path stages. */
  lemma {:induction false} DistinctAgreesNoOuter(same: seq<nat>, gid: seq<nat>, sel: Option<seq<nat>>, n: nat)
    requires LinksWellFormed(same) && n <= |gid| && SelCovers(sel, n)
    requires forall i :: 0 <= i < n ==> gid[i] < |same| && same[gid[i]] == 0
    ensures Pending(false, same, gid, sel, 0, n) == DistinctPairs(gid, sel, n)
    decreases n
  {
    if n > 0 {
      DistinctAgreesNoOuter(same, gid, sel, n - 1);
      PendingSnoc(false, same, gid, sel, 0, n - 1);
      RowOfUnique(false, same, gid[n - 1], SelIndex(sel, n - 1));
    }
  }

  /** The same agreement with right-outer semantics, where a row without a
      candidate yields its null-extended pair on both paths. */
  lemma {:induction false} DistinctAgreesOuter(same: seq<nat>, gid: seq<nat>, sel: Option<seq<nat>>, n: nat)
    requires LinksWellFormed(same) && n <= |gid| && SelCovers(sel, n)
    requires forall i :: 0 <= i < n ==> gid[i] < |same| && same[gid[i]] == 0
    ensures Pending(true, same, gid, sel, 0, n) == DistinctOuterPairs(gid, sel, n)
    decreases n
  {
    if n > 0 {
      DistinctAgreesOuter(same, gid, sel, n - 1);
      PendingSnoc(true, same, gid, sel, 0, n - 1);
      var id, pos := gid[n - 1], SelIndex(sel, n - 1);
      RowOfUnique(true, same, id, pos);
      assert DistinctOuterPairs(gid, sel, n) == DistinctOuterPairs(gid, sel, n - 1) + [Pair(id as int - 1, pos)];
    }
  }
}
