/** Rebuilding the free lists after a crash: the clear bits of the final bitmap, as
maximal runs inside the bounds of each list. */
module BlockRecovery {
  import opened RangeTree
  import opened FreeLists

  /** Blocks start .. end - 1 belong to a list. */
  datatype Bounds = Bounds(start: nat, end: nat)

  /** The lists divide the blocks: each begins where the one before ends. */
  ghost predicate Divided(lists: seq<Bounds>, size: nat) {
    && lists != [] && lists[0].start == 0 && lists[|lists| - 1].end == size
    && (forall i :: 0 <= i < |lists| ==> lists[i].start < lists[i].end)
    && (forall i :: 0 <= i < |lists| - 1 ==> lists[i].end == lists[i + 1].start)
  }

  /** The bounds of the per-processor lists and of the shared one. */
  method InitBlockmap(numBlocks: nat, cpus: nat) returns (lists: seq<Bounds>)
    requires 0 < cpus <= numBlocks
    ensures Divided(lists, numBlocks) && |lists| == if numBlocks % cpus == 0 then cpus else cpus + 1
    ensures forall i :: 0 <= i < cpus ==> lists[i].end - lists[i].start == numBlocks / cpus
  {
    var per := numBlocks / cpus;
    lists := [];
    OneEach(numBlocks, cpus);
    for i := 0 to cpus
      invariant |lists| == i && (i > 0 ==> Divided(lists, per * i)) && (i == 0 ==> per * i == 0)
      invariant forall x :: 0 <= x < i ==> lists[x].end - lists[x].start == per
    {
      NextBounds(per, i);
      lists := lists + [Bounds(per * i, per * i + per)];
    }
    if per * cpus < numBlocks {
      lists := lists + [Bounds(per * cpus, numBlocks)];
    }
    assert per == numBlocks / cpus;
  }

  lemma OneEach(numBlocks: nat, cpus: nat)
    requires 0 < cpus <= numBlocks
    ensures numBlocks / cpus >= 1 && numBlocks / cpus * cpus <= numBlocks
    ensures numBlocks / cpus * cpus == numBlocks <==> numBlocks % cpus == 0
  {
    assert numBlocks == cpus * (numBlocks / cpus) + numBlocks % cpus;
  }

  lemma NextBounds(per: nat, i: nat)
    ensures per * i + per == per * (i + 1) && per * i >= 0
  {
  }

  // ----- the bitmap --------------------------------------------------------------------------------------

  /** The first clear bit from `start` on, or `end`. */
  method FindNextZeroBit(bitmap: seq<bool>, end: nat, start: nat) returns (next: nat)
    requires start <= end <= |bitmap|
    ensures start <= next <= end && (next < end ==> !bitmap[next]) && forall x :: start <= x < next ==> bitmap[x]
  {
    next := start;
    while next < end && bitmap[next]
      invariant start <= next <= end && forall x :: start <= x < next ==> bitmap[x]
    {
      next := next + 1;
    }
  }

  /** The first set bit from `start` on, or `end`. */
  method FindNextBit(bitmap: seq<bool>, end: nat, start: nat) returns (next: nat)
    requires start <= end <= |bitmap|
    ensures start <= next <= end && (next < end ==> bitmap[next]) && forall x :: start <= x < next ==> !bitmap[x]
  {
    next := start;
    while next < end && !bitmap[next]
      invariant start <= next <= end && forall x :: start <= x < next ==> !bitmap[x]
    {
      next := next + 1;
    }
  }

  // ----- the lists ---------------------------------------------------------------------------------------

  /** The ranges are the maximal runs of clear bits between `lo` and `hi`. */
  ghost predicate Clear(s: seq<Range>, bitmap: seq<bool>, lo: nat, hi: nat) {
    && hi <= |bitmap| && Maximal(s) && DistinctIds(s)
    && (forall x: nat :: Holds(s, x) ==> lo <= x < hi)
    && (forall x: nat :: lo <= x < hi ==> (Holds(s, x) <==> !bitmap[x]))
  }

  /** All identities are below `n`. */
  ghost predicate IdsBelow(s: seq<Range>, n: nat) {
    forall i :: 0 <= i < |s| ==> s[i].id < n
  }

  lemma SkipSet(s: seq<Range>, bitmap: seq<bool>, lo: nat, hi: nat, next: nat)
    requires Clear(s, bitmap, lo, hi) && lo <= hi <= next <= |bitmap| && forall x :: hi <= x < next ==> bitmap[x]
    ensures Clear(s, bitmap, lo, next)
  {
  }

  lemma {:induction false} Behind(s: seq<Range>, hi: nat)
    requires Maximal(s) && forall x: nat :: Holds(s, x) ==> x < hi
    ensures forall i :: 0 <= i < |s| ==> s[i].high < hi
  {
    forall i | 0 <= i < |s| ensures s[i].high < hi {
      assert Has(s[i], s[i].high);
      assert Holds(s, s[i].high);
    }
  }

  /** One more run, behind a set bit or at the very start. */
  lemma AddRun(s: seq<Range>, bitmap: seq<bool>, lo: nat, low: nat, next: nat, id: nat)
    requires Clear(s, bitmap, lo, low) && lo <= low < next <= |bitmap| && IdsBelow(s, id)
    requires forall x :: low <= x < next ==> !bitmap[x]
    requires low == lo || bitmap[low - 1]
    ensures Clear(s + [Range(id, low, next - 1)], bitmap, lo, next) && IdsBelow(s + [Range(id, low, next - 1)], id + 1)
    ensures Total(s + [Range(id, low, next - 1)]) == Total(s) + (next - low)
  {
    var r := Range(id, low, next - 1);
    var t := s + [r];
    Behind(s, low);
    assert s[..|s|] == s && s[|s|..] == [] && s[..|s|] + [r] + s[|s|..] == t;
    if s != [] {
      var last := s[|s| - 1];
      assert Has(last, last.high);
      assert Holds(s, last.high);
      assert last.high != low - 1;
    }
    assert SlotAt(s, low, next - 1, |s|);
    assert !Live(s, id);
    InsertRange(s, |s|, r, 1);
  }

  /** Everything before list `cpu` is done, and that list up to `at`. */
  ghost predicate Building(runs: seq<seq<Range>>, counts: seq<nat>, lists: seq<Bounds>, bitmap: seq<bool>, cpu: nat,
                           at: nat, id: nat)
  {
    && |counts| == |runs| && (forall i :: 0 <= i < |runs| ==> counts[i] == Total(runs[i]))
    && |runs| == |lists| && cpu < |lists| && lists[cpu].start <= at <= lists[cpu].end <= |bitmap|
    && (forall i :: 0 <= i < cpu ==> lists[i].end <= |bitmap| && Clear(runs[i], bitmap, lists[i].start, lists[i].end))
    && Clear(runs[cpu], bitmap, lists[cpu].start, at)
    && (forall i :: cpu < i < |lists| ==> runs[i] == [])
    && (forall i :: 0 <= i < |lists| ==> IdsBelow(runs[i], id))
    && (at == lists[cpu].start || at == lists[cpu].end || bitmap[at])
  }

  lemma NextList(runs: seq<seq<Range>>, counts: seq<nat>, lists: seq<Bounds>, bitmap: seq<bool>, cpu: nat, id: nat)
    requires Divided(lists, |bitmap|) && cpu + 1 < |lists|
    requires Building(runs, counts, lists, bitmap, cpu, lists[cpu].end, id)
    ensures Building(runs, counts, lists, bitmap, cpu + 1, lists[cpu + 1].start, id)
  {
    EndsInside(lists, |bitmap|, cpu + 1);
  }

  lemma {:induction false} EndsInside(lists: seq<Bounds>, size: nat, i: nat)
    requires Divided(lists, size) && i < |lists|
    ensures lists[i].end <= size
    decreases |lists| - i
  {
    if i + 1 < |lists| {
      EndsInside(lists, size, i + 1);
    }
  }

  /** Builds the lists from the bitmap: exactly the clear bits, as maximal runs inside
      the bounds of each list. */
  method BuildBlocknodeMap(bitmap: seq<bool>, lists: seq<Bounds>) returns (runs: seq<seq<Range>>, counts: seq<nat>)
    requires Divided(lists, |bitmap|)
    ensures |runs| == |counts| == |lists| && forall i :: 0 <= i < |lists| ==> counts[i] == Total(runs[i])
    ensures forall i :: 0 <= i < |lists| ==>
              lists[i].end <= |bitmap| && Clear(runs[i], bitmap, lists[i].start, lists[i].end)
  {
    hide Building, Clear;
    var bsize := |bitmap|;
    runs, counts := seq(|lists|, i => []), seq(|lists|, i => 0);
    var cpu: nat, start: nat, id: nat := 0, 0, 0;
    NothingBuilt(runs, counts, lists, bitmap);
    while true
      invariant Building(runs, counts, lists, bitmap, cpu, start, id) && cpu < |lists|
                && start <= lists[cpu].end <= bsize
      invariant |runs| == |counts| == |lists|
      decreases |lists| - cpu, bsize - start
    {
      var end := lists[cpu].end;
      var next := FindNextZeroBit(bitmap, end, start);
      if next == end {
        SkipToEnd(runs, counts, lists, bitmap, cpu, start, id);
      } else {
        var low := next;
        next := FindNextBit(bitmap, end, low);
        RunAdded(runs, counts, lists, bitmap, cpu, start, id, low, next);
        runs := runs[cpu := runs[cpu] + [Range(id, low, next - 1)]];
        counts := counts[cpu := counts[cpu] + (next - low)];
        id := id + 1;
      }
      start := next;
      if next == bsize {
        LastList(lists, bsize, cpu);
        AllBuilt(runs, counts, lists, bitmap, cpu, id);
        break;
      }
      if next == end {
        NotLast(lists, bsize, cpu);
        NextList(runs, counts, lists, bitmap, cpu, id);
        EndsInside(lists, bsize, cpu + 1);
        cpu := cpu + 1;
        start := lists[cpu].start;
      }
    }
  }

  lemma NothingBuilt(runs: seq<seq<Range>>, counts: seq<nat>, lists: seq<Bounds>, bitmap: seq<bool>)
    requires Divided(lists, |bitmap|) && |runs| == |counts| == |lists|
    requires forall i :: 0 <= i < |lists| ==> runs[i] == [] && counts[i] == 0
    ensures Building(runs, counts, lists, bitmap, 0, 0, 0) && lists[0].end <= |bitmap|
  {
    EndsInside(lists, |bitmap|, 0);
  }

  lemma SkipToEnd(runs: seq<seq<Range>>, counts: seq<nat>, lists: seq<Bounds>, bitmap: seq<bool>, cpu: nat, at: nat,
                  id: nat)
    requires Building(runs, counts, lists, bitmap, cpu, at, id)
    requires forall x :: at <= x < lists[cpu].end ==> bitmap[x]
    ensures Building(runs, counts, lists, bitmap, cpu, lists[cpu].end, id)
  {
    SkipSet(runs[cpu], bitmap, lists[cpu].start, at, lists[cpu].end);
  }

  lemma RunAdded(runs: seq<seq<Range>>, counts: seq<nat>, lists: seq<Bounds>, bitmap: seq<bool>, cpu: nat, at: nat,
                 id: nat, low: nat, next: nat)
    requires Building(runs, counts, lists, bitmap, cpu, at, id) && at <= low < next <= lists[cpu].end
    requires (forall x :: at <= x < low ==> bitmap[x]) && (forall x :: low <= x < next ==> !bitmap[x])
    requires next == lists[cpu].end || bitmap[next]
    ensures Building(runs[cpu := runs[cpu] + [Range(id, low, next - 1)]], counts[cpu := counts[cpu] + (next - low)],
                     lists, bitmap, cpu, next, id + 1)
  {
    var lo := lists[cpu].start;
    SkipSet(runs[cpu], bitmap, lo, at, low);
    AddRun(runs[cpu], bitmap, lo, low, next, id);
    hide Clear, Total;
    var out := runs[cpu := runs[cpu] + [Range(id, low, next - 1)]];
    forall i | 0 <= i < |out| ensures IdsBelow(out[i], id + 1) {
      assert i != cpu ==> IdsBelow(runs[i], id);
    }
  }

  lemma AllBuilt(runs: seq<seq<Range>>, counts: seq<nat>, lists: seq<Bounds>, bitmap: seq<bool>, cpu: nat, id: nat)
    requires cpu == |lists| - 1 && Building(runs, counts, lists, bitmap, cpu, lists[cpu].end, id)
    ensures |runs| == |counts| == |lists|
    ensures forall i :: 0 <= i < |lists| ==>
              && counts[i] == Total(runs[i]) && lists[i].end <= |bitmap|
              && Clear(runs[i], bitmap, lists[i].start, lists[i].end)
  {
  }

  /** Only the last list ends where the bitmap ends. */
  lemma LastList(lists: seq<Bounds>, size: nat, i: nat)
    requires Divided(lists, size) && i < |lists| && lists[i].end == size
    ensures i == |lists| - 1
  {
    if i + 1 < |lists| {
      EndsInside(lists, size, i + 1);
    }
  }

  lemma NotLast(lists: seq<Bounds>, size: nat, i: nat)
    requires Divided(lists, size) && i < |lists| && lists[i].end != size
    ensures i + 1 < |lists|
  {
  }
}
