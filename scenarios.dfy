/** Concrete scenarios, after the hash joiner's own test cases, worked out
    on the specification functions. */
module Scenarios {
  import opened Columns
  import opened Chains
  import opened Checking

  /** Build keys 0, b, 2b, 3b all land in one bucket; the probe keys 0, b,
      3b are all sent to the bucket's most recent entry, id 4 (key 3b).
      Checking the equality column tells the colliding keys apart: only the
      probe row with key 3b keeps a clean verdict. */
  lemma CollidingKeysAreToldApart(b: int)
    requires b > 0
    ensures var st := CheckState([4, 4, 4], [false, false, false]);
            var probe := ColVec([0, b, 3 * b], [false, false, false]);
            var build := ColVec([0, b, 2 * b, 3 * b], [false, false, false, false]);
            && CheckInputs(st, [0, 1, 2], 3, probe, build, None)
            && CheckColRef(st, [0, 1, 2], 3, probe, build, None) == CheckState([4, 4, 4], [true, true, false])
  {
    var st := CheckState([4, 4, 4], [false, false, false]);
    var probe := ColVec([0, b, 3 * b], [false, false, false]);
    var build := ColVec([0, b, 2 * b, 3 * b], [false, false, false, false]);
    var tc := [0, 1, 2];
    assert CheckInputs(st, tc, 3, probe, build, None);
    var s1 := CheckState([4, 4, 4], [true, false, false]);
    var s2 := CheckState([4, 4, 4], [true, true, false]);
    assert CheckColRef(st, tc, 1, probe, build, None) == CheckStep(st, 0, probe, build, None) == s1;
    assert CheckColRef(st, tc, 2, probe, build, None) == CheckStep(s1, 1, probe, build, None) == s2;
    assert CheckColRef(st, tc, 3, probe, build, None) == CheckStep(s2, 2, probe, build, None) == s2;
  }

  /** A null probe value rejects its row even when its candidate's value
      is equal, while a null build value only marks the row as differing. */
  lemma NullsAreAsymmetric()
    ensures var st := CheckState([1, 2], [false, false]);
            var probe := ColVec([7, 7], [true, false]);
            var build := ColVec([7, 7], [false, true]);
            && CheckInputs(st, [0, 1], 2, probe, build, None)
            && CheckColRef(st, [0, 1], 2, probe, build, None) == CheckState([0, 2], [false, true])
  {
    var st := CheckState([1, 2], [false, false]);
    var probe := ColVec([7, 7], [true, false]);
    var build := ColVec([7, 7], [false, true]);
    var s1 := CheckState([0, 2], [false, false]);
    assert CheckInputs(st, [0, 1], 2, probe, build, None);
    assert CheckColRef(st, [0, 1], 1, probe, build, None) == CheckStep(st, 0, probe, build, None) == s1;
    assert CheckColRef(st, [0, 1], 2, probe, build, None) == CheckStep(s1, 1, probe, build, None);
  }

  /** An N:1 inner join whose probe side has duplicate keys 1, 1, 1, 2, 2
      against unique build keys 0..4: after checking, groupID holds ids
      2, 2, 2, 3, 3, and the fast path stages one pair per probe row. When
      no two build rows share a chain (every `same` link is 0), the general
      collector stages the same pairs. */
  lemma DuplicateProbeKeys()
    ensures DistinctPairs([2, 2, 2, 3, 3], None, 5)
         == [Pair(1, 0), Pair(1, 1), Pair(1, 2), Pair(2, 3), Pair(2, 4)]
    ensures Pending(false, [0, 0, 0, 0, 0, 0], [2, 2, 2, 3, 3], None, 0, 5)
         == [Pair(1, 0), Pair(1, 1), Pair(1, 2), Pair(2, 3), Pair(2, 4)]
  {
    var gid: seq<nat> := [2, 2, 2, 3, 3];
    assert DistinctPairs(gid, None, 1) == [Pair(1, 0)];
    assert DistinctPairs(gid, None, 2) == [Pair(1, 0), Pair(1, 1)];
    assert DistinctPairs(gid, None, 3) == [Pair(1, 0), Pair(1, 1), Pair(1, 2)];
    assert DistinctPairs(gid, None, 4) == [Pair(1, 0), Pair(1, 1), Pair(1, 2), Pair(2, 3)];
    DistinctAgreesNoOuter([0, 0, 0, 0, 0, 0], gid, None, 5);
  }

  /** Build rows 1 and 2 share a chain (same[2] == 1), build row 3 is alone.
      With cursors 2, 3 and 0, the no-outer collector owes row 0 both of
      its matches in chain order and row 1 its one match; the right-outer
      collector also owes row 2 a null-extended pair. */
  lemma ChainsInProbeOrder()
    ensures Pending(false, [0, 0, 1, 0], [2, 3, 0], None, 0, 3) == [Pair(1, 0), Pair(0, 0), Pair(2, 1)]
    ensures Pending(true, [0, 0, 1, 0], [2, 3, 0], None, 0, 3) == [Pair(1, 0), Pair(0, 0), Pair(2, 1), Pair(-1, 2)]
  {
    var same: seq<nat> := [0, 0, 1, 0];
    var head: seq<nat> := [2, 3, 0];
    assert RowPairs(same, 1, 0) == [Pair(0, 0)];
    assert RowPairs(same, 2, 0) == [Pair(1, 0), Pair(0, 0)];
    assert RowPairs(same, 3, 1) == [Pair(2, 1)];
    assert Pending(false, same, head, None, 2, 3) == [];
    assert Pending(true, same, head, None, 2, 3) == [Pair(-1, 2)];
    assert Pending(false, same, head, None, 1, 3) == [Pair(2, 1)];
    assert Pending(true, same, head, None, 1, 3) == [Pair(2, 1), Pair(-1, 2)];
  }

  /** Drained cursors owe nothing without outer semantics, but with outer
      semantics each drained row is owed a null-extended pair again: this
      is why the right-outer collector does not resume where it left off. */
  lemma DrainedRowsUnderOuter()
    ensures Pending(false, [0, 0, 1], [0, 0], None, 0, 2) == []
    ensures Pending(true, [0, 0, 1], [0, 0], None, 0, 2) == [Pair(-1, 0), Pair(-1, 1)]
  {
    assert Pending(true, [0, 0, 1], [0, 0], None, 1, 2) == [Pair(-1, 1)];
  }
}
