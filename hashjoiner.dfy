/** The inner loops of the vectorized hash join: `rehash` folds one equality
    column into per-row hash accumulators, `checkCol` verifies one equality
    column for the probe rows still being checked, `collect` drains the
    per-row chain cursors into the output staging arrays (resumably, when a
    batch has more matches than fit), and `distinctCollect` is the N:1 fast
    path that reads the matches straight from `groupID`. */
module HashJoiner {
  import opened Columns
  import opened Hashing
  import opened Chains
  import opened Checking

  /** The build side, once built. Rows are numbered from 1 so that id 0 can
      end a chain. Only `visited` changes while probing. */
  class HashTable<V(==)> {
    /** same[id]: the id after `id` on the chain that `collect` walks, 0 at
        the end of the chain. */
    const same: seq<nat>
    /** visited[id]: build row `id` matched some probe row (build-outer joins). */
    const visited: array<bool>
    /** The stored build columns, by column position. */
    const vals: seq<ColVec<V>>
    /** keyCols[c]: position in `vals` of the c-th equality column. */
    const keyCols: seq<nat>

    ghost predicate Valid()
    {
      LinksWellFormed(same) && visited.Length == |same|
    }

    constructor (same: seq<nat>, visited: array<bool>, vals: seq<ColVec<V>>, keyCols: seq<nat>)
      requires LinksWellFormed(same) && visited.Length == |same|
      ensures Valid()
      ensures this.same == same && this.visited == visited && this.vals == vals && this.keyCols == keyCols
    {
      this.same := same;
      this.visited := visited;
      this.vals := vals;
      this.keyCols := keyCols;
    }

    /** Folds one equality column into the accumulators of rows [0, nKeys):
        buckets[i] := buckets[i]*31 + hash(value of row i), modulo 2^64. The
        value of row i is read through the selection vector when there is
        one. `hash` is the type's hash kernel. */
    method Rehash(buckets: array<u64>, hash: V -> u64, keys: seq<V>, nKeys: nat, sel: Option<seq<nat>>)
      requires nKeys <= buckets.Length && SelCovers(sel, nKeys)
      requires forall i :: 0 <= i < nKeys ==> SelIndex(sel, i) < |keys|
      modifies buckets
      ensures forall i :: 0 <= i < nKeys ==> buckets[i] == Combine(old(buckets[i]), hash(keys[SelIndex(sel, i)]))
      ensures forall i :: nKeys <= i < buckets.Length ==> buckets[i] == old(buckets[i])
      ensures forall i, j :: (0 <= i < nKeys && 0 <= j < nKeys && old(buckets[i]) == old(buckets[j]) &&
                              keys[SelIndex(sel, i)] == keys[SelIndex(sel, j)]) ==> buckets[i] == buckets[j]
    {
      var i := 0;
      while i < nKeys
        invariant i <= nKeys
        invariant forall k :: 0 <= k < i ==> buckets[k] == Combine(old(buckets[k]), hash(keys[SelIndex(sel, k)]))
        invariant forall k :: i <= k < buckets.Length ==> buckets[k] == old(buckets[k])
      {
        var v := keys[SelIndex(sel, i)];
        buckets[i] := Combine(buckets[i], hash(v));
        i := i + 1;
      }
    }
  }

  /** Per-probe-batch state of the join, reused from batch to batch. `B` is
      the type of the probe batches themselves, which the prober only
      remembers. */
  class Prober<V(==), B> {
    const ht: HashTable<V>
    /** Right-outer join: unmatched probe rows are emitted null-extended. */
    const outer: bool
    /** Build-outer join: matched build rows are recorded in ht.visited. */
    const buildOuter: bool
    /** The current probe batch's equality columns. */
    var keys: seq<ColVec<V>>
    /** groupID[i]: the candidate build row id of probe row i, 0 if none. */
    const groupID: array<nat>
    /** differs[i]: the candidate of probe row i failed some equality column. */
    const differs: array<bool>
    /** The probe row positions still being verified. */
    const toCheck: array<nat>
    /** head[i]: the chain cursor of probe row i, saved between collect calls. */
    const head: array<nat>
    /** Output staging: build row index, probe row position, null build side. */
    const buildIdx: array<int>
    const probeIdx: array<nat>
    const buildNil: array<bool>
    /** The batch whose matches did not all fit into the last output. */
    var prevBatch: Option<B>

    ghost predicate Valid()
    {
      && ht.Valid()
      && groupID.Length == ColBatchSize && differs.Length == ColBatchSize
      && toCheck.Length == ColBatchSize && head.Length == ColBatchSize
      && buildIdx.Length == ColBatchSize && probeIdx.Length == ColBatchSize
      && buildNil.Length == ColBatchSize + 1
      && groupID != toCheck && groupID != head && groupID != probeIdx
      && toCheck != head && toCheck != probeIdx
      && head != probeIdx
      && differs != buildNil && differs != ht.visited && buildNil != ht.visited
    }

    constructor (ht: HashTable<V>, outer: bool, buildOuter: bool)
      requires ht.Valid()
      ensures Valid() && this.ht == ht && this.outer == outer && this.buildOuter == buildOuter
      ensures keys == [] && prevBatch == None
      ensures fresh(groupID) && fresh(differs) && fresh(toCheck) && fresh(head)
      ensures fresh(buildIdx) && fresh(probeIdx) && fresh(buildNil)
    {
      this.ht := ht;
      this.outer := outer;
      this.buildOuter := buildOuter;
      keys := [];
      groupID := new nat[ColBatchSize];
      differs := new bool[ColBatchSize];
      toCheck := new nat[ColBatchSize];
      head := new nat[ColBatchSize];
      buildIdx := new int[ColBatchSize];
      probeIdx := new nat[ColBatchSize];
      buildNil := new bool[ColBatchSize + 1];
      prevBatch := None;
    }

    /** The probe batch's values of equality column c. */
    function ProbeVec(c: nat): ColVec<V>
      reads this
      requires c < |keys|
    {
      keys[c]
    }

    /** The build table's values of equality column c. */
    function BuildVec(c: nat): ColVec<V>
      requires c < |ht.keyCols| && ht.keyCols[c] < |ht.vals|
    {
      ht.vals[ht.keyCols[c]]
    }

    ghost function CheckView(): CheckState
      reads groupID, differs
    {
      CheckState(groupID[..], differs[..])
    }

    /** One iteration of the checkCol loop: verifies the probe value at row
        position p against its candidate's build value. */
    method CheckRow(p: nat, probeVec: ColVec<V>, buildVec: ColVec<V>, sel: Option<seq<nat>>)
      requires Valid() && RowInputs(CheckView(), p, probeVec, buildVec, sel)
      modifies groupID, differs
      ensures CheckView() == CheckStep(old(CheckView()), p, probeVec, buildVec, sel)
    {
      ghost var cur := CheckView();
      var keyID := groupID[p];
      if keyID != 0 {
        var q := SelIndex(sel, p);
        if probeVec.NullAt(q) {
          groupID[p] := 0;
          assert groupID[..] == cur.groupID[p := 0];
        } else if buildVec.NullAt(keyID - 1) {
          differs[p] := true;
          assert differs[..] == cur.differs[p := true];
        } else {
          var unique := buildVec.values[keyID - 1] != probeVec.values[q];
          if unique {
            differs[p] := true;
            assert differs[..] == cur.differs[p := true];
          }
        }
      }
    }

    /** The checkCol loop over toCheck[0..nToCheck), one CheckRow per listed
        position. */
    method CheckRows(nToCheck: nat, probeVec: ColVec<V>, buildVec: ColVec<V>, sel: Option<seq<nat>>)
      requires Valid() && CheckInputs(CheckView(), toCheck[..], nToCheck, probeVec, buildVec, sel)
      modifies groupID, differs
      ensures CheckView() == CheckColRef(old(CheckView()), toCheck[..], nToCheck, probeVec, buildVec, sel)
    {
      ghost var st, tc := CheckView(), toCheck[..];
      var i := 0;
      while i < nToCheck
        invariant i <= nToCheck && toCheck[..] == tc
        invariant CheckView() == CheckColRef(st, tc, i, probeVec, buildVec, sel)
      {
        var p := toCheck[i];
        ghost var cur := CheckView();
        assert RowInputs(st, tc[i], probeVec, buildVec, sel);
        assert CheckColRef(st, tc, i + 1, probeVec, buildVec, sel) == CheckStep(cur, p, probeVec, buildVec, sel);
        assert RowInputs(cur, p, probeVec, buildVec, sel);
        CheckRow(p, probeVec, buildVec, sel);
        i := i + 1;
      }
    }

    /** Verifies equality column c for the probe rows toCheck[0..nToCheck)
        against their candidates groupID[...]: a null probe value clears the
        candidate, a null build value or unequal values set `differs`. */
    method CheckCol(c: nat, nToCheck: nat, sel: Option<seq<nat>>)
      requires Valid()
      requires c < |keys| && c < |ht.keyCols| && ht.keyCols[c] < |ht.vals|
      requires CheckInputs(CheckView(), toCheck[..], nToCheck, ProbeVec(c), BuildVec(c), sel)
      modifies groupID, differs
      ensures CheckView() == CheckColRef(old(CheckView()), toCheck[..], nToCheck, ProbeVec(c), BuildVec(c), sel)
      ensures forall i :: 0 <= i < nToCheck ==>
                Checked(old(CheckView()), CheckView(), toCheck[i], ProbeVec(c), BuildVec(c), sel)
      ensures forall p :: 0 <= p < groupID.Length && (forall i :: 0 <= i < nToCheck ==> toCheck[i] != p) ==>
                groupID[p] == old(groupID[p]) && differs[p] == old(differs[p])
    {
      var probeVec, buildVec := ProbeVec(c), BuildVec(c);
      ghost var st := CheckView();
      CheckRows(nToCheck, probeVec, buildVec, sel);
      CheckColVerdicts(st, toCheck[..], nToCheck, probeVec, buildVec, sel);
      forall p | 0 <= p < groupID.Length && (forall i :: 0 <= i < nToCheck ==> toCheck[i] != p)
        ensures groupID[p] == old(groupID[p]) && differs[p] == old(differs[p])
      {
        CheckColFrame(st, toCheck[..], nToCheck, probeVec, buildVec, sel, p);
      }
    }

    /** The first |ps| slots of the staging arrays hold the pairs ps. */
    ghost predicate StagedAre(ps: seq<Pair>)
      reads buildIdx, probeIdx
    {
      |ps| <= buildIdx.Length && |ps| <= probeIdx.Length &&
      forall k :: 0 <= k < |ps| ==> ps[k] == Pair(buildIdx[k], probeIdx[k])
    }

    /** What `collect` needs: at most a batch of probe rows, a selection
        vector covering them, and cursors naming rows of the table. */
    ghost predicate CollectPre(batchSize: nat, sel: Option<seq<nat>>)
      reads head
    {
      batchSize <= ColBatchSize && batchSize <= head.Length && SelCovers(sel, batchSize) &&
      CursorsInRange(ht.same, head[..], 0, batchSize)
    }

    /** The pairs the cursors of probe rows [0, batchSize) still have to
        produce. */
    ghost function PendingPairs(outerMode: bool, batchSize: nat, sel: Option<seq<nat>>): seq<Pair>
      reads head
      requires Valid() && CollectPre(batchSize, sel)
    {
      Pending(outerMode, ht.same, head[..], sel, 0, batchSize)
    }

    /** The inner loop of the no-outer collector for probe row i (physical
        position pos): stages one pair per id of the chain from head[i],
        from slot n0 on, until the chain ends or the staging arrays are
        full. `full` reports the second case; head[i] then holds the id
        the next call resumes from. The pairs are recorded against `p0`,
        the pairs the whole call is due to stage: slots before n hold
        p0's first n pairs, and p0[n..] is what is left. */
    method CollectChain(i: nat, pos: nat, n0: nat, ghost p0: seq<Pair>, ghost rest: seq<Pair>)
      returns (n: nat, full: bool)
      requires Valid() && i < head.Length && head[i] < |ht.same|
      requires n0 <= ColBatchSize && n0 <= |p0|
      requires forall k :: 0 <= k < n0 ==> p0[k] == Pair(buildIdx[k], probeIdx[k])
      requires p0[n0..] == RowPairs(ht.same, head[i], pos) + rest
      modifies head, buildIdx, probeIdx
      ensures n0 <= n <= ColBatchSize && n <= |p0| && head[i] < |ht.same|
      ensures forall k :: 0 <= k < n ==> p0[k] == Pair(buildIdx[k], probeIdx[k])
      ensures p0[n..] == RowPairs(ht.same, head[i], pos) + rest
      ensures full == (head[i] != 0) && (full ==> n == ColBatchSize)
      ensures forall j :: 0 <= j < head.Length && j != i ==> head[j] == old(head[j])
    {
      var currentID := head[i];
      n, full := n0, false;
      while currentID != 0
        invariant n0 <= n <= ColBatchSize && n <= |p0|
        invariant forall k :: 0 <= k < n ==> p0[k] == Pair(buildIdx[k], probeIdx[k])
        invariant head[i] == currentID < |ht.same|
        invariant p0[n..] == RowPairs(ht.same, currentID, pos) + rest
        invariant forall j :: 0 <= j < head.Length && j != i ==> head[j] == old(head[j])
        decreases currentID
      {
        if n >= ColBatchSize {
          full := true;
          return;
        }
        ghost var pair := Pair(currentID as int - 1, pos);
        ghost var next := ht.same[currentID];
        assert RowPairs(ht.same, currentID, pos) == [pair] + RowPairs(ht.same, next, pos);
        SuffixStep(p0, n, pair, RowPairs(ht.same, next, pos), rest);
        buildIdx[n] := currentID as int - 1;
        probeIdx[n] := pos;
        currentID := ht.same[currentID];
        head[i] := currentID;
        n := n + 1;
      }
    }

    /** The state of a collector after probe rows [0, i), against the
        cursors h0 it started from: slots before n hold the first n pairs of
        p0, the cursors of rows before i are drained, those from i on are
        untouched, and p0[n..] is what rows [i, batchSize) have to produce. */
    ghost predicate Progress(outerMode: bool, p0: seq<Pair>, h0: seq<nat>, batchSize: nat, sel: Option<seq<nat>>, i: nat, n: nat)
      reads head, buildIdx, probeIdx
    {
      && ht.Valid() && batchSize <= ColBatchSize && batchSize <= head.Length && SelCovers(sel, batchSize)
      && |h0| == head.Length && CursorsInRange(ht.same, h0, 0, batchSize)
      && i <= batchSize && n <= ColBatchSize && n <= |p0|
      && n <= buildIdx.Length && n <= probeIdx.Length
      && (forall k :: 0 <= k < n ==> p0[k] == Pair(buildIdx[k], probeIdx[k]))
      && (forall j :: 0 <= j < i ==> head[j] == 0)
      && (forall j :: i <= j < head.Length ==> head[j] == h0[j])
      && p0[n..] == Pending(outerMode, ht.same, h0, sel, i, batchSize)
    }

    /** The state of a collector that filled the staging arrays in probe
        row i: as Progress, except that head[i] points into the rest of
        row i's chain, whose pairs come next. */
    ghost predicate Stopped(outerMode: bool, p0: seq<Pair>, h0: seq<nat>, batchSize: nat, sel: Option<seq<nat>>, i: nat, n: nat)
      reads head, buildIdx, probeIdx
    {
      && ht.Valid() && batchSize <= ColBatchSize && batchSize <= head.Length && SelCovers(sel, batchSize)
      && |h0| == head.Length && CursorsInRange(ht.same, h0, 0, batchSize)
      && i < batchSize && n == ColBatchSize && n < |p0|
      && n <= buildIdx.Length && n <= probeIdx.Length
      && (forall k :: 0 <= k < n ==> p0[k] == Pair(buildIdx[k], probeIdx[k]))
      && (forall j :: 0 <= j < i ==> head[j] == 0)
      && (forall j :: i < j < head.Length ==> head[j] == h0[j])
      && head[i] < |ht.same|
      && p0[n..] == RowOf(outerMode, ht.same, head[i], SelIndex(sel, i)) + Pending(outerMode, ht.same, h0, sel, i + 1, batchSize)
    }

    /** Slots before n of buildNil record a null-extended pair of p0 on top
        of their old value nil0; the slots from n on still hold nil0. */
    ghost predicate NilStaged(p0: seq<Pair>, nil0: seq<bool>, n: nat)
      reads buildNil
    {
      && |nil0| == buildNil.Length && n <= |p0| && n < buildNil.Length
      && (forall k :: 0 <= k < n ==> buildNil[k] == (p0[k].build < 0 || nil0[k]))
      && (forall k :: n <= k < buildNil.Length ==> buildNil[k] == nil0[k])
    }

    /** Probe row i of the no-outer collector. */
    method NoOuterRow(batchSize: nat, sel: Option<seq<nat>>, i: nat, n0: nat, ghost p0: seq<Pair>, ghost h0: seq<nat>)
      returns (n: nat, full: bool)
      requires Valid() && Progress(false, p0, h0, batchSize, sel, i, n0) && i < batchSize
      modifies head, buildIdx, probeIdx
      ensures !full ==> Progress(false, p0, h0, batchSize, sel, i + 1, n)
      ensures full ==> Stopped(false, p0, h0, batchSize, sel, i, n)
    {
      var pos := SelIndex(sel, i);
      ghost var rest := Pending(false, ht.same, h0, sel, i + 1, batchSize);
      assert Pending(false, ht.same, h0, sel, i, batchSize) == RowPairs(ht.same, h0[i], pos) + rest;
      n, full := CollectChain(i, pos, n0, p0, rest);
      if full {
        assert |RowPairs(ht.same, head[i], pos)| > 0;
      } else {
        assert RowPairs(ht.same, head[i], pos) == [];
      }
    }

    /** The row loop of the no-outer collector: stops in row i when the
        staging arrays are full, or after the last row. */
    method NoOuterRows(batchSize: nat, sel: Option<seq<nat>>, ghost p0: seq<Pair>, ghost h0: seq<nat>)
      returns (n: nat, i: nat, full: bool)
      requires Valid() && Progress(false, p0, h0, batchSize, sel, 0, 0)
      modifies head, buildIdx, probeIdx
      ensures !full ==> Progress(false, p0, h0, batchSize, sel, batchSize, n) && i == batchSize
      ensures full ==> Stopped(false, p0, h0, batchSize, sel, i, n)
    {
      n, i, full := 0, 0, false;
      while i < batchSize
        invariant Progress(false, p0, h0, batchSize, sel, i, n)
      {
        n, full := NoOuterRow(batchSize, sel, i, n, p0, h0);
        if full {
          return;
        }
        i := i + 1;
      }
    }

    /** The no-outer collector: walks each probe row's chain from its cursor,
        staging (id - 1, row position) pairs, and stops when the staging
        arrays are full, leaving the cursor where the next call resumes.
        `stop` is the row it stopped in (batchSize when it drained them all). */
    method CollectNoOuter(batch: B, batchSize: nat, sel: Option<seq<nat>>) returns (n: nat, ghost stop: nat)
      requires Valid() && CollectPre(batchSize, sel)
      modifies head, buildIdx, probeIdx, this`prevBatch
      ensures n <= ColBatchSize && CollectPre(batchSize, sel)
      ensures var p0 := old(PendingPairs(false, batchSize, sel));
              n <= |p0| && StagedAre(p0[..n]) && PendingPairs(false, batchSize, sel) == p0[n..]
      ensures var total := |old(PendingPairs(false, batchSize, sel))|;
              if total > ColBatchSize then n == ColBatchSize && prevBatch == Some(batch)
              else n == total && prevBatch == old(prevBatch) && forall j :: 0 <= j < batchSize ==> head[j] == 0
      ensures stop <= batchSize && (forall j :: 0 <= j < stop ==> head[j] == 0)
      ensures forall j :: 0 <= j < head.Length && (stop < j || batchSize <= j) ==> head[j] == old(head[j])
    {
      ghost var p0 := PendingPairs(false, batchSize, sel);
      ghost var h0 := head[..];
      var full;
      n, stop, full := NoOuterRows(batchSize, sel, p0, h0);
      if full {
        prevBatch := Some(batch);
        PendingSkipDrained(ht.same, head[..], sel, 0, stop, batchSize);
        PendingFrame(false, ht.same, head[..], h0, sel, stop + 1, batchSize);
      } else {
        PendingSkipDrained(ht.same, head[..], sel, 0, batchSize, batchSize);
      }
    }

    /** The inner loop of the right-outer collector for probe row i
        (physical position pos), from slot n0 on: as CollectChain, except
        that it runs at least once, so that a cursor of 0 still stages one
        pair, null-extended (build index -1). */
    method CollectChainOuter(i: nat, pos: nat, n0: nat, ghost p0: seq<Pair>, ghost rest: seq<Pair>)
      returns (n: nat, full: bool)
      requires Valid() && i < head.Length && head[i] < |ht.same|
      requires n0 <= ColBatchSize && n0 <= |p0|
      requires forall k :: 0 <= k < n0 ==> p0[k] == Pair(buildIdx[k], probeIdx[k])
      requires p0[n0..] == RowOf(true, ht.same, head[i], pos) + rest
      modifies head, buildIdx, probeIdx
      ensures n0 <= n <= ColBatchSize && n <= |p0| && head[i] < |ht.same|
      ensures forall k :: 0 <= k < n ==> p0[k] == Pair(buildIdx[k], probeIdx[k])
      ensures full ==> n == ColBatchSize && p0[n..] == RowOf(true, ht.same, head[i], pos) + rest
      ensures !full ==> head[i] == 0 && n0 < n && p0[n..] == rest
      ensures forall k :: n0 <= k < n ==> (p0[k].build < 0) == (k == n0 && old(head[i]) == 0)
      ensures forall j :: 0 <= j < head.Length && j != i ==> head[j] == old(head[j])
    {
      var currentID := head[i];
      ghost var id0 := currentID;
      n, full := n0, false;
      while true
        invariant n0 <= n <= ColBatchSize && n <= |p0|
        invariant forall k :: 0 <= k < n ==> p0[k] == Pair(buildIdx[k], probeIdx[k])
        invariant head[i] == currentID < |ht.same|
        invariant (currentID == 0) == (n == n0 && id0 == 0)
        invariant p0[n..] == RowOf(true, ht.same, currentID, pos) + rest
        invariant forall j :: 0 <= j < head.Length && j != i ==> head[j] == old(head[j])
        invariant forall k :: n0 <= k < n ==> (p0[k].build < 0) == (k == n0 && id0 == 0)
        decreases currentID
      {
        if n >= ColBatchSize {
          full := true;
          return;
        }
        ghost var pair := Pair(currentID as int - 1, pos);
        ghost var next := ht.same[currentID];
        ghost var tail := if next == 0 then [] else RowOf(true, ht.same, next, pos);
        RowOfOuterStep(ht.same, currentID, pos);
        SuffixStep(p0, n, pair, tail, rest);
        buildIdx[n] := currentID as int - 1;
        probeIdx[n] := pos;
        currentID := ht.same[currentID];
        head[i] := currentID;
        n := n + 1;
        if currentID == 0 {
          break;
        }
      }
    }

    /** Probe row i of the right-outer collector: a cursor of 0 marks the
        row's slot null-extended in buildNil before the capacity check,
        which is why buildNil has one slot more than the other staging
        arrays. */
    method RightOuterRow(batchSize: nat, sel: Option<seq<nat>>, i: nat, n0: nat, ghost p0: seq<Pair>, ghost h0: seq<nat>, ghost nil0: seq<bool>)
      returns (n: nat, full: bool)
      requires Valid() && Progress(true, p0, h0, batchSize, sel, i, n0) && NilStaged(p0, nil0, n0) && i < batchSize
      modifies head, buildIdx, probeIdx, buildNil
      ensures !full ==> Progress(true, p0, h0, batchSize, sel, i + 1, n) && NilStaged(p0, nil0, n)
      ensures full ==> Stopped(true, p0, h0, batchSize, sel, i, n)
      ensures full ==> forall k :: 0 <= k < n ==> buildNil[k] == (p0[k].build < 0 || nil0[k])
      ensures full ==> buildNil[n] == (old(head[i]) == 0 || nil0[n])
    {
      var pos := SelIndex(sel, i);
      ghost var rest := Pending(true, ht.same, h0, sel, i + 1, batchSize);
      assert Pending(true, ht.same, h0, sel, i, batchSize) == RowOf(true, ht.same, h0[i], pos) + rest;
      if head[i] == 0 {
        buildNil[n0] := true;
      }
      n, full := CollectChainOuter(i, pos, n0, p0, rest);
      if full {
        assert |RowOf(true, ht.same, head[i], pos)| > 0;
      }
    }

    /** The row loop of the right-outer collector: stops in row i when the
        staging arrays are full, or after the last row. */
    method RightOuterRows(batchSize: nat, sel: Option<seq<nat>>, ghost p0: seq<Pair>, ghost h0: seq<nat>, ghost nil0: seq<bool>)
      returns (n: nat, i: nat, full: bool)
      requires Valid() && Progress(true, p0, h0, batchSize, sel, 0, 0) && NilStaged(p0, nil0, 0)
      modifies head, buildIdx, probeIdx, buildNil
      ensures !full ==> Progress(true, p0, h0, batchSize, sel, batchSize, n) && NilStaged(p0, nil0, n) && i == batchSize
      ensures full ==> Stopped(true, p0, h0, batchSize, sel, i, n)
      ensures full ==> forall k :: 0 <= k < n ==> buildNil[k] == (p0[k].build < 0 || nil0[k])
      ensures full ==> buildNil[n] == (h0[i] == 0 || nil0[n])
    {
      n, i, full := 0, 0, false;
      while i < batchSize
        invariant Progress(true, p0, h0, batchSize, sel, i, n) && NilStaged(p0, nil0, n)
      {
        n, full := RightOuterRow(batchSize, sel, i, n, p0, h0, nil0);
        if full {
          return;
        }
        i := i + 1;
      }
    }

    /** The right-outer collector: as the no-outer one, except that a probe
        row whose cursor is 0 takes one slot, null-extended (buildNil set,
        build index -1). Staging stops when the arrays are full; `stop` is
        the row it stopped in (batchSize when it went through them all). */
    method CollectRightOuter(batch: B, batchSize: nat, sel: Option<seq<nat>>) returns (n: nat, ghost stop: nat)
      requires Valid() && CollectPre(batchSize, sel)
      modifies head, buildIdx, probeIdx, buildNil, this`prevBatch
      ensures n <= ColBatchSize && CollectPre(batchSize, sel)
      ensures var p0 := old(PendingPairs(true, batchSize, sel));
              && n == Min(|p0|, ColBatchSize)
              && StagedAre(p0[..n])
              && prevBatch == if |p0| > ColBatchSize then Some(batch) else old(prevBatch)
      ensures forall k :: 0 <= k < n ==> buildNil[k] == (buildIdx[k] < 0 || old(buildNil[k]))
      ensures forall k :: n < k < buildNil.Length ==> buildNil[k] == old(buildNil[k])
      ensures n < ColBatchSize ==> buildNil[n] == old(buildNil[n])
      ensures buildNil[n] == if stop < batchSize then old(head[stop]) == 0 || old(buildNil[n]) else old(buildNil[n])
      ensures stop <= batchSize && (forall j :: 0 <= j < stop ==> head[j] == 0)
      ensures forall j :: 0 <= j < head.Length && (stop < j || batchSize <= j) ==> head[j] == old(head[j])
    {
      ghost var p0 := PendingPairs(true, batchSize, sel);
      ghost var h0 := head[..];
      ghost var nil0 := buildNil[..];
      var full;
      n, stop, full := RightOuterRows(batchSize, sel, p0, h0, nil0);
      if full {
        prevBatch := Some(batch);
      } else {
        assert Pending(true, ht.same, h0, sel, batchSize, batchSize) == [];
      }
    }

    /** Stages the pairs of the current probe batch, capped at ColBatchSize,
        choosing the right-outer or the no-outer collector; `stop` is the
        probe row it stopped in (batchSize when it went through them all). */
    method Collect(batch: B, batchSize: nat, sel: Option<seq<nat>>) returns (n: nat, ghost stop: nat)
      requires Valid() && CollectPre(batchSize, sel)
      modifies head, buildIdx, probeIdx, buildNil, this`prevBatch
      ensures n <= ColBatchSize && CollectPre(batchSize, sel)
      ensures var p0 := old(PendingPairs(outer, batchSize, sel));
              && n == Min(|p0|, ColBatchSize)
              && StagedAre(p0[..n])
              && prevBatch == if |p0| > ColBatchSize then Some(batch) else old(prevBatch)
      ensures !outer ==> PendingPairs(false, batchSize, sel) == old(PendingPairs(false, batchSize, sel))[n..]
      ensures !outer ==> buildNil[..] == old(buildNil[..])
      ensures outer ==> forall k :: 0 <= k < n ==> buildNil[k] == (buildIdx[k] < 0 || old(buildNil[k]))
      ensures outer ==> forall k :: n < k < buildNil.Length ==> buildNil[k] == old(buildNil[k])
      ensures outer && n < ColBatchSize ==> buildNil[n] == old(buildNil[n])
      ensures outer ==> buildNil[n] == if stop < batchSize then old(head[stop]) == 0 || old(buildNil[n]) else old(buildNil[n])
      ensures stop <= batchSize && (forall j :: 0 <= j < stop ==> head[j] == 0)
      ensures forall j :: 0 <= j < head.Length && (stop < j || batchSize <= j) ==> head[j] == old(head[j])
    {
      if outer {
        n, stop := CollectRightOuter(batch, batchSize, sel);
      } else {
        n, stop := CollectNoOuter(batch, batchSize, sel);
      }
    }

    /** The N:1 fast path in right-outer mode: every probe row of the
        batch is staged with its only candidate (build index -1 and buildNil
        set when it has none). */
    method DistinctCollectRightOuter(batchSize: nat, sel: Option<seq<nat>>) returns (n: nat)
      requires Valid() && batchSize <= ColBatchSize && SelCovers(sel, batchSize)
      modifies buildIdx, probeIdx, buildNil
      ensures n == batchSize && StagedAre(DistinctOuterPairs(groupID[..], sel, batchSize))
      ensures forall i :: 0 <= i < batchSize ==> buildNil[i] == (groupID[i] == 0)
      ensures forall k :: batchSize <= k < buildNil.Length ==> buildNil[k] == old(buildNil[k])
    {
      n := batchSize;
      for i := 0 to batchSize
        invariant forall k :: 0 <= k < i ==>
                    buildIdx[k] == groupID[k] as int - 1 && probeIdx[k] == SelIndex(sel, k) && buildNil[k] == (groupID[k] == 0)
        invariant forall k :: i <= k < buildNil.Length ==> buildNil[k] == old(buildNil[k])
      {
        buildIdx[i] := groupID[i] as int - 1;
        probeIdx[i] := SelIndex(sel, i);
        buildNil[i] := groupID[i] == 0;
      }
    }

    /** The N:1 fast path without outer semantics: each probe row with a
        candidate is staged with it, in row order. */
    method DistinctCollectNoOuter(batchSize: nat, sel: Option<seq<nat>>) returns (n: nat)
      requires Valid() && batchSize <= ColBatchSize && SelCovers(sel, batchSize)
      modifies buildIdx, probeIdx
      ensures n == |DistinctPairs(groupID[..], sel, batchSize)| && StagedAre(DistinctPairs(groupID[..], sel, batchSize))
    {
      n := 0;
      ghost var out: seq<Pair> := [];
      for i := 0 to batchSize
        invariant n <= i && |out| == n
        invariant forall k :: 0 <= k < n ==> out[k] == Pair(buildIdx[k], probeIdx[k])
        invariant out == DistinctPairs(groupID[..], sel, i)
      {
        if groupID[i] != 0 {
          buildIdx[n] := groupID[i] as int - 1;
          probeIdx[n] := SelIndex(sel, i);
          out := out + [Pair(groupID[i] as int - 1, SelIndex(sel, i))];
          n := n + 1;
        }
      }
    }

    /** Marks as visited every build row id that occurs anywhere in groupID
        (all ColBatchSize entries, not only the current batch's). */
    method MarkVisited()
      requires Valid() && forall j :: 0 <= j < groupID.Length ==> groupID[j] < ht.visited.Length
      modifies ht.visited
      ensures forall j :: 0 <= j < groupID.Length ==> ht.visited[groupID[j]]
      ensures forall x :: 0 <= x < ht.visited.Length && ht.visited[x] != old(ht.visited[x]) ==>
                exists j :: 0 <= j < groupID.Length && groupID[j] == x
    {
      for j := 0 to groupID.Length
        invariant forall k :: 0 <= k < j ==> ht.visited[groupID[k]]
        invariant forall x :: 0 <= x < ht.visited.Length && ht.visited[x] != old(ht.visited[x]) ==>
                    exists k :: 0 <= k < j && groupID[k] == x
      {
        ht.visited[groupID[j]] := true;
      }
    }

    /** The N:1 fast path: groupID already holds each probe row's only match.
        For build-outer joins the matched build rows are then marked
        visited. */
    method DistinctCollect(batchSize: nat, sel: Option<seq<nat>>) returns (n: nat)
      requires Valid() && batchSize <= ColBatchSize && SelCovers(sel, batchSize)
      requires buildOuter ==> forall j :: 0 <= j < groupID.Length ==> groupID[j] < ht.visited.Length
      modifies buildIdx, probeIdx, buildNil, ht.visited
      ensures var ps := if outer then DistinctOuterPairs(groupID[..], sel, batchSize) else DistinctPairs(groupID[..], sel, batchSize);
              n == |ps| && StagedAre(ps)
      ensures outer ==> forall i :: 0 <= i < batchSize ==> buildNil[i] == (groupID[i] == 0)
      ensures outer ==> forall k :: batchSize <= k < buildNil.Length ==> buildNil[k] == old(buildNil[k])
      ensures !outer ==> buildNil[..] == old(buildNil[..])
      ensures buildOuter ==> forall j :: 0 <= j < groupID.Length ==> ht.visited[groupID[j]]
      ensures forall x :: 0 <= x < ht.visited.Length && ht.visited[x] != old(ht.visited[x]) ==>
                buildOuter && exists j :: 0 <= j < groupID.Length && groupID[j] == x
    {
      if outer {
        n := DistinctCollectRightOuter(batchSize, sel);
      } else {
        n := DistinctCollectNoOuter(batchSize, sel);
      }
      if buildOuter {
        MarkVisited();
      }
    }
  }
}
