/** Verification of one equality column (`checkCol`), stated on values: for
    every probe row listed in `toCheck` whose candidate build row id is
    nonzero, compare the probe value with the candidate's build value. A
    null probe value rejects the row outright (groupID := 0); a null build
    value or unequal values only mark `differs`. */
module Checking {
  import opened Columns

  /** The part of the prober that `checkCol` updates. */
  datatype CheckState = CheckState(groupID: seq<nat>, differs: seq<bool>)

  /** What checking probe row position `p` needs: the row exists, its value
      can be read through the selection vector, and its candidate id (if
      any) names a row of the build column. */
  ghost predicate RowInputs<V>(st: CheckState, p: nat, probe: ColVec<V>, build: ColVec<V>, sel: Option<seq<nat>>)
  {
    && |st.differs| == |st.groupID|
    && probe.Valid() && build.Valid()
    && p < |st.groupID|
    && SelCovers(sel, p + 1)
    && SelIndex(sel, p) < |probe.values|
    && st.groupID[p] <= |build.values|
  }

  /** The inputs of a `checkCol` call over toCheck[0..n). */
  ghost predicate CheckInputs<V>(st: CheckState, toCheck: seq<nat>, n: nat, probe: ColVec<V>, build: ColVec<V>, sel: Option<seq<nat>>)
  {
    && |st.differs| == |st.groupID|
    && probe.Valid() && build.Valid()
    && n <= |toCheck|
    && forall i :: 0 <= i < n ==> RowInputs(st, toCheck[i], probe, build, sel)
  }

  /** One iteration of the checkCol loop, for probe row position p. */
  ghost function CheckStep<V>(st: CheckState, p: nat, probe: ColVec<V>, build: ColVec<V>, sel: Option<seq<nat>>): CheckState
    requires RowInputs(st, p, probe, build, sel)
  {
    var keyID := st.groupID[p];
    if keyID == 0 then st
    else
      var q := SelIndex(sel, p);
      if probe.NullAt(q) then st.(groupID := st.groupID[p := 0])
      else if build.NullAt(keyID - 1) then st.(differs := st.differs[p := true])
      else if build.values[keyID - 1] != probe.values[q] then st.(differs := st.differs[p := true])
      else st
  }

  /** The checkCol loop over toCheck[0..n), one step per listed position. */
  ghost function CheckColRef<V>(st: CheckState, toCheck: seq<nat>, n: nat, probe: ColVec<V>, build: ColVec<V>, sel: Option<seq<nat>>): (r: CheckState)
    requires CheckInputs(st, toCheck, n, probe, build, sel)
    ensures |r.groupID| == |st.groupID| && |r.differs| == |st.differs|
    ensures forall p :: 0 <= p < |st.groupID| ==> r.groupID[p] == st.groupID[p] || r.groupID[p] == 0
    ensures forall p :: 0 <= p < |st.differs| && st.differs[p] ==> r.differs[p]
    decreases n
  {
    if n == 0 then st
    else CheckStep(CheckColRef(st, toCheck, n - 1, probe, build, sel), toCheck[n - 1], probe, build, sel)
  }

  /** Position p of `after` equals position p of `before`. */
  ghost predicate Untouched(before: CheckState, after: CheckState, p: nat)
    requires p < |before.groupID| && p < |before.differs| && p < |after.groupID| && p < |after.differs|
  {
    after.groupID[p] == before.groupID[p] && after.differs[p] == before.differs[p]
  }

  /** The verdict for a checked probe row position p, relating the state
      before the call to the state after it: rows without a candidate are
      untouched; a null probe value clears the candidate and leaves
      `differs`; otherwise the candidate stays, and `differs` becomes true
      when the build value is null or the values are unequal, and keeps its
      old value when they are equal. */
  ghost predicate Checked<V>(before: CheckState, after: CheckState, p: nat, probe: ColVec<V>, build: ColVec<V>, sel: Option<seq<nat>>)
    requires RowInputs(before, p, probe, build, sel)
    requires |after.groupID| == |before.groupID| && |after.differs| == |before.differs|
  {
    var keyID := before.groupID[p];
    var q := SelIndex(sel, p);
    if keyID == 0 then Untouched(before, after, p)
    else if probe.NullAt(q) then after.groupID[p] == 0 && after.differs[p] == before.differs[p]
    else if build.NullAt(keyID - 1) then after.groupID[p] == keyID && after.differs[p]
    else after.groupID[p] == keyID && after.differs[p] == (before.differs[p] || build.values[keyID - 1] != probe.values[q])
  }

  /** A step at position p changes nothing at any other position. */
  lemma CheckStepFrame<V>(st: CheckState, p: nat, probe: ColVec<V>, build: ColVec<V>, sel: Option<seq<nat>>, x: nat)
    requires RowInputs(st, p, probe, build, sel) && x < |st.groupID| && x != p
    ensures Untouched(st, CheckStep(st, p, probe, build, sel), x)
  {
  }

  /** A step at position p brings p to its verdict, and a further step at p
      on a state that already holds the verdict keeps it: repeated entries
      in toCheck do no harm. */
  lemma CheckStepVerdict<V>(st: CheckState, mid: CheckState, p: nat, probe: ColVec<V>, build: ColVec<V>, sel: Option<seq<nat>>)
    requires RowInputs(st, p, probe, build, sel)
    requires |mid.groupID| == |st.groupID| && |mid.differs| == |st.differs|
    requires Untouched(st, mid, p) || Checked(st, mid, p, probe, build, sel)
    ensures RowInputs(mid, p, probe, build, sel)
    ensures Checked(st, CheckStep(mid, p, probe, build, sel), p, probe, build, sel)
  {
  }

  /** checkCol leaves every position that toCheck[0..n) does not list
      untouched. */
  lemma {:induction false} CheckColFrame<V>(st: CheckState, toCheck: seq<nat>, n: nat, probe: ColVec<V>, build: ColVec<V>, sel: Option<seq<nat>>, p: nat)
    requires CheckInputs(st, toCheck, n, probe, build, sel) && p < |st.groupID|
    requires forall i :: 0 <= i < n ==> toCheck[i] != p
    ensures Untouched(st, CheckColRef(st, toCheck, n, probe, build, sel), p)
    decreases n
  {
    if n > 0 {
      var mid := CheckColRef(st, toCheck, n - 1, probe, build, sel);
      CheckColFrame(st, toCheck, n - 1, probe, build, sel, p);
      assert RowInputs(st, toCheck[n - 1], probe, build, sel);
      CheckStepFrame(mid, toCheck[n - 1], probe, build, sel, p);
    }
  }

  /** checkCol brings each position it scans to its verdict, whatever order
      and repetitions toCheck has. */
  lemma {:induction false} CheckColVerdicts<V>(st: CheckState, toCheck: seq<nat>, n: nat, probe: ColVec<V>, build: ColVec<V>, sel: Option<seq<nat>>)
    requires CheckInputs(st, toCheck, n, probe, build, sel)
    ensures forall i :: 0 <= i < n ==> Checked(st, CheckColRef(st, toCheck, n, probe, build, sel), toCheck[i], probe, build, sel)
    decreases n
  {
    if n > 0 {
      var mid := CheckColRef(st, toCheck, n - 1, probe, build, sel);
      var r := CheckColRef(st, toCheck, n, probe, build, sel);
      var last := toCheck[n - 1];
      CheckColVerdicts(st, toCheck, n - 1, probe, build, sel);
      assert RowInputs(st, last, probe, build, sel);
      if i :| 0 <= i < n - 1 && toCheck[i] == last {
        assert Checked(st, mid, last, probe, build, sel);
      } else {
        CheckColFrame(st, toCheck, n - 1, probe, build, sel, last);
      }
      CheckStepVerdict(st, mid, last, probe, build, sel);
      forall i | 0 <= i < n - 1 && toCheck[i] != last
        ensures Checked(st, r, toCheck[i], probe, build, sel)
      {
        assert RowInputs(st, toCheck[i], probe, build, sel);
        assert RowInputs(mid, last, probe, build, sel);
        CheckStepFrame(mid, last, probe, build, sel, toCheck[i]);
      }
    }
  }

  /** The null asymmetry and the comparison, as the caller sees them for the
      row at toCheck[i] when it had a candidate. */
  lemma NullAsymmetry<V>(st: CheckState, toCheck: seq<nat>, n: nat, probe: ColVec<V>, build: ColVec<V>, sel: Option<seq<nat>>, i: nat)
    requires CheckInputs(st, toCheck, n, probe, build, sel) && i < n && st.groupID[toCheck[i]] != 0
    ensures var p := toCheck[i];
            var r := CheckColRef(st, toCheck, n, probe, build, sel);
            var q, k := SelIndex(sel, p), st.groupID[p] - 1;
            && (probe.NullAt(q) ==> r.groupID[p] == 0 && r.differs[p] == st.differs[p])
            && (!probe.NullAt(q) && build.NullAt(k) ==> r.groupID[p] == st.groupID[p] && r.differs[p])
            && (!probe.NullAt(q) && !build.NullAt(k) ==>
                  r.groupID[p] == st.groupID[p] && r.differs[p] == (st.differs[p] || build.values[k] != probe.values[q]))
  {
    CheckColVerdicts(st, toCheck, n, probe, build, sel);
    assert RowInputs(st, toCheck[i], probe, build, sel);
  }
}
