/** Indexing the entries of a committed write, one page at a time. */
module WriteRuns {
  import opened LogPages
  import opened FileReplay
  import opened BlockLists
  import opened LogSurgery
  import opened LogSweep
  import opened InodeLogs
  import opened FileIndex
  import opened FileData
  import opened LogMeaning

  ghost predicate Uses(slots: map<nat, Slot>, b: nat) {
    exists p :: p in slots && slots[p].block == b
  }

  /** The blocks of `e` from the i-th on are neither free nor mapped. */
  ghost predicate RunApart(e: Entry, i: nat, slots: map<nat, Slot>, free: set<nat>)
    requires e.FileWrite?
  {
    forall b: nat :: e.block + i <= b < e.block + e.numPages ==> b !in free && !Uses(slots, b)
  }

  predicate RunsDisjoint(e: Entry, f: Entry)
    requires e.FileWrite? && f.FileWrite?
  {
    e.block + e.numPages <= f.block || f.block + f.numPages <= e.block
  }

  predicate NewWrite(r: LogRec) {
    r.e.FileWrite? && r.e.invalidPages == 0 && 1 <= r.e.numPages && 1 <= r.e.block
  }

  ghost predicate AllWrites(rest: seq<LogRec>) {
    forall i :: 0 <= i < |rest| ==> NewWrite(rest[i])
  }

  /** The runs of entries n, n + 1, ... are apart from each other and from all
      other blocks in use or free. */
  ghost predicate RunsApart(rest: seq<LogRec>, n: nat, slots: map<nat, Slot>, free: set<nat>)
    requires AllWrites(rest)
  {
    && (forall x :: n <= x < |rest| ==> RunApart(rest[x].e, 0, slots, free))
    && (forall x, y :: n <= x < y < |rest| ==> RunsDisjoint(rest[x].e, rest[y].e))
  }

  // ----- dues --------------------------------------------------------------------------------------------

  /** Exactly the entries from n on are due, with all their pages. */
  ghost predicate DuesAre(due: Dues, rest: seq<LogRec>, n: nat)
    requires AllWrites(rest)
  {
    && (forall x :: n <= x < |rest| ==> Due(due, rest[x].addr) == rest[x].e.numPages)
    && (forall a :: Due(due, a) > 0 ==> exists x :: n <= x < |rest| && rest[x].addr == a)
  }

  function DuesOf(rest: seq<LogRec>): Dues {
    if rest == [] then map[]
    else
      var r := rest[|rest| - 1];
      DuesOf(rest[..|rest| - 1])[r.addr := if r.e.FileWrite? then r.e.numPages else 0]
  }

  lemma {:induction false} DuesOfAre(rest: seq<LogRec>)
    requires AllWrites(rest) && DistinctAddrs(rest)
    ensures DuesAre(DuesOf(rest), rest, 0)
    decreases |rest|
  {
    if rest != [] {
      var n := |rest| - 1;
      assert forall i :: 0 <= i < n ==> rest[..n][i] == rest[i];
      DuesOfAre(rest[..n]);
      forall x | 0 <= x < n ensures Due(DuesOf(rest), rest[x].addr) == rest[x].e.numPages {
        assert rest[..n][x].addr == rest[x].addr != rest[n].addr;
      }
      forall a | Due(DuesOf(rest), a) > 0 ensures exists x :: 0 <= x < |rest| && rest[x].addr == a {
        if a == rest[n].addr {
          assert rest[n].addr == a;
        } else {
          assert Due(DuesOf(rest[..n]), a) > 0;
          var x :| 0 <= x < n && rest[..n][x].addr == a;
          assert rest[x].addr == a;
        }
      }
    }
  }

  lemma RestDistinct(log: seq<LogRec>, rest: seq<LogRec>)
    requires DistinctAddrs(log + rest)
    ensures DistinctAddrs(rest)
  {
    forall i, j | 0 <= i < j < |rest| ensures rest[i].addr != rest[j].addr {
      assert (log + rest)[|log| + i] == rest[i] && (log + rest)[|log| + j] == rest[j];
    }
  }

  lemma OldNotDue(log: seq<LogRec>, rest: seq<LogRec>, due: Dues, i: nat)
    requires DistinctAddrs(log + rest) && AllWrites(rest) && DuesAre(due, rest, 0) && i < |log|
    ensures Due(due, log[i].addr) == 0
  {
    forall x | 0 <= x < |rest| ensures rest[x].addr != log[i].addr {
      assert (log + rest)[i] == log[i] && (log + rest)[|log| + x] == rest[x];
    }
  }

  /** Right after the commit: the new entries are due with all their pages. */
  lemma StartCounting(tree: Index, log: seq<LogRec>, rest: seq<LogRec>)
    requires Counted(tree, log, map[]) && Indexed(tree, log)
    requires DistinctAddrs(log + rest) && AllWrites(rest)
    ensures Counted(tree, log + rest, DuesOf(rest))
    ensures DuesAre(DuesOf(rest), rest, 0)
  {
    var all, due := log + rest, DuesOf(rest);
    RestDistinct(log, rest);
    DuesOfAre(rest);
    forall i | 0 <= i < |all| ensures CountOk(tree, due, all[i]) {
      if i < |log| {
        assert CountOk(tree, map[], log[i]);
        OldNotDue(log, rest, due, i);
      } else {
        NotYetIndexed(tree, log, rest, i - |log|);
      }
    }
  }

  lemma NotYetIndexed(tree: Index, log: seq<LogRec>, rest: seq<LogRec>, x: nat)
    requires Indexed(tree, log) && DistinctAddrs(log + rest) && x < |rest| && rest[x].e.FileWrite?
    ensures Slots(tree, rest[x].addr, rest[x].e.pgoff, rest[x].e.pgoff + rest[x].e.numPages) == 0
  {
    var e := rest[x].e;
    forall r | r in log ensures r.addr != rest[x].addr {
      var i :| 0 <= i < |log| && log[i] == r;
      assert (log + rest)[i] == r && (log + rest)[|log| + x] == rest[x];
    }
    forall p | e.pgoff <= p < e.pgoff + e.numPages ensures !(p in tree && tree[p] == rest[x].addr) {
      if p in tree {
        assert PointsInto(tree[p], p, log);
      }
    }
    SlotsNone(tree, rest[x].addr, e.pgoff, e.pgoff + e.numPages);
  }

  lemma NothingDue(tree: Index, log: seq<LogRec>, due: Dues, rest: seq<LogRec>)
    requires Counted(tree, log, due) && AllWrites(rest) && DuesAre(due, rest, |rest|)
    ensures Counted(tree, log, map[])
  {
    forall i | 0 <= i < |log| ensures CountOk(tree, map[], log[i]) {
      assert CountOk(tree, due, log[i]);
    }
  }

  // ----- one page ----------------------------------------------------------------------------------------

  /** The index, the counts and the blocks, while entries are being indexed. */
  ghost predicate Indexing(tree: Index, slots: map<nat, Slot>, log: seq<LogRec>, due: Dues, free: set<nat>) {
    && Matches(tree, slots) && AllGiven(slots, log)
    && Counted(tree, log, due) && DistinctAddrs(log)
    && BlocksApart(slots, free)
  }

  /** Slot p points at record q. */
  ghost predicate Owner(tree: Index, slots: map<nat, Slot>, log: seq<LogRec>, p: nat, q: nat) {
    && p in tree && p in slots && q < |log| && log[q].addr == tree[p]
    && log[q].e.FileWrite? && Covers(log[q].e, p) && BlockOf(log[q].e, p) == slots[p].block
    && log[q].e.invalidPages < log[q].e.numPages
  }

  lemma FindOwner(tree: Index, slots: map<nat, Slot>, log: seq<LogRec>, due: Dues, p: nat) returns (q: nat)
    requires Matches(tree, slots) && AllGiven(slots, log) && Counted(tree, log, due)
    requires p in tree
    ensures Owner(tree, slots, log, p, q)
  {
    assert Given(log, p, slots[p]);
    q :| Gives(log, q, p, slots[p]);
    assert CountOk(tree, due, log[q]);
    var e := log[q].e;
    SlotsNone(tree, log[q].addr, e.pgoff, e.pgoff + e.numPages);
  }

  function WithoutSlot<T>(slots: map<nat, T>, p: nat): map<nat, T> {
    map x | x in slots && x != p :: slots[x]
  }

  lemma MarkDistinct(log: seq<LogRec>, q: nat)
    requires DistinctAddrs(log) && q < |log| && log[q].e.FileWrite?
    ensures DistinctAddrs(MarkOne(log, q))
  {
    var log' := MarkOne(log, q);
    forall i, j | 0 <= i < j < |log'| ensures log'[i].addr != log'[j].addr {
      assert log[i].addr != log[j].addr;
    }
  }

  lemma FreeSlotBlock(tree: Index, slots: map<nat, Slot>, free: set<nat>, p: nat)
    requires Matches(tree, slots) && BlocksApart(slots, free) && p in slots
    ensures Matches(WithoutSlot(tree, p), WithoutSlot(slots, p))
    ensures BlocksApart(WithoutSlot(slots, p), free + {slots[p].block})
    ensures slots[p].block !in free && slots[p].block != 0 && !Uses(WithoutSlot(slots, p), slots[p].block)
  {
  }

  lemma GivenSubset(slots: map<nat, Slot>, log: seq<LogRec>, p: nat)
    requires AllGiven(slots, log)
    ensures AllGiven(WithoutSlot(slots, p), log)
  {
  }

  /** Emptying slot p: the page is counted invalid and its block can be freed. */
  lemma EmptySlot(tree: Index, slots: map<nat, Slot>, log: seq<LogRec>, due: Dues, free: set<nat>, p: nat, q: nat)
    requires Indexing(tree, slots, log, due, free) && Owner(tree, slots, log, p, q)
    ensures Indexing(WithoutSlot(tree, p), WithoutSlot(slots, p), MarkOne(log, q), due, free)
    ensures slots[p].block !in free && slots[p].block != 0 && !Uses(WithoutSlot(slots, p), slots[p].block)
  {
    DropSlot(tree, WithoutSlot(tree, p), log, due, p, q);
    MarkGiven(slots, log, q);
    GivenSubset(slots, MarkOne(log, q), p);
    MarkDistinct(log, q);
    FreeSlotBlock(tree, slots, free, p);
    FewerFree(WithoutSlot(slots, p), free + {slots[p].block}, free);
  }

  lemma FewerFree(slots: map<nat, Slot>, free: set<nat>, free': set<nat>)
    requires BlocksApart(slots, free) && free' <= free
    ensures BlocksApart(slots, free')
  {
  }

  /** Blocks that nothing uses may be freed. */
  lemma MoreFree(slots: map<nat, Slot>, free: set<nat>, more: set<nat>)
    requires BlocksApart(slots, free) && forall b :: b in more ==> !Uses(slots, b)
    ensures BlocksApart(slots, free + more)
  {
    forall p | p in slots ensures slots[p].block !in free + more {
      assert Uses(slots, slots[p].block);
    }
  }

  /** Filling slot p with an entry that is due for it. */
  lemma FillIndex(tree: Index, slots: map<nat, Slot>, log: seq<LogRec>, due: Dues, free: set<nat>, p: nat, w: nat)
    requires Indexing(tree, slots, log, due, free) && p !in tree
    requires w < |log| && log[w].e.FileWrite? && Covers(log[w].e, p) && Due(due, log[w].addr) > 0
    requires BlockOf(log[w].e, p) !in free && BlockOf(log[w].e, p) != 0 && !Uses(slots, BlockOf(log[w].e, p))
    ensures var a := log[w].addr;
            Indexing(tree[p := a], slots[p := Slot(a, BlockOf(log[w].e, p))], log, due[a := Due(due, a) - 1], free)
  {
    var a := log[w].addr;
    var slots' := slots[p := Slot(a, BlockOf(log[w].e, p))];
    FillSlot(tree, log, due, p, w);
    forall x | x in slots' ensures Given(log, x, slots'[x]) {
      if x == p {
        assert Gives(log, w, p, slots'[p]);
      } else {
        assert Given(log, x, slots[x]);
      }
    }
  }

  /** Replacing what slot p held by an entry that is due for it. */
  lemma RefillIndex(tree: Index, slots: map<nat, Slot>, log: seq<LogRec>, due: Dues, free: set<nat>, p: nat, w: nat)
    requires p !in tree && Indexing(tree, slots, log, due, free)
    requires w < |log| && NewWrite(log[w]) && Covers(log[w].e, p) && Due(due, log[w].addr) > 0
    requires BlockOf(log[w].e, p) !in free && !Uses(slots, BlockOf(log[w].e, p))
    ensures Indexing(tree[p := log[w].addr], AssignSlot(slots, log[w], p), log, Paid(due, log[w].addr), free)
  {
    FillIndex(tree, slots, log, due, free, p, w);
  }

  function AssignSlot(slots: map<nat, Slot>, r: LogRec, p: nat): map<nat, Slot>
    requires r.e.FileWrite? && r.e.pgoff <= p
  {
    slots[p := Slot(r.addr, BlockOf(r.e, p))]
  }

  function Paid(due: Dues, a: Addr): Dues
    requires Due(due, a) > 0
  {
    due[a := Due(due, a) - 1]
  }

  /** `slots` once the pages of `r` below hi have been assigned one by one. */
  function AssignedTo(slots: map<nat, Slot>, r: LogRec, hi: nat): map<nat, Slot>
    requires r.e.FileWrite?
  {
    if hi <= r.e.pgoff then slots else AssignSlot(AssignedTo(slots, r, hi - 1), r, hi - 1)
  }

  lemma {:induction false} AssignedIs(slots: map<nat, Slot>, r: LogRec, hi: nat)
    requires r.e.FileWrite? && r.e.pgoff <= hi
    ensures AssignedTo(slots, r, hi) == slots + map p: nat | r.e.pgoff <= p < hi :: Slot(r.addr, BlockOf(r.e, p))
    decreases hi
  {
    if r.e.pgoff < hi {
      AssignedIs(slots, r, hi - 1);
    }
  }

  lemma AssignOneMore(slots: map<nat, Slot>, r: LogRec, p: nat, free0: set<nat>, free: set<nat>, free': set<nat>)
    requires r.e.FileWrite? && r.e.pgoff <= p
    requires free == free0 + BlocksIn(slots, r.e.pgoff, p)
    requires free' == free + if p in slots then {slots[p].block} else {}
    ensures AssignedTo(slots, r, p + 1) == AssignSlot(AssignedTo(slots, r, p), r, p)
    ensures free' == free0 + BlocksIn(slots, r.e.pgoff, p + 1)
  {
  }

  lemma PaidOne(due: Dues, a: Addr, due0: Dues)
    requires Due(due, a) > 0 && forall x :: x != a ==> Due(due, x) == Due(due0, x)
    ensures Due(Paid(due, a), a) == Due(due, a) - 1
    ensures forall x :: x != a ==> Due(Paid(due, a), x) == Due(due0, x)
  {
  }

  lemma AssignedAhead(slots: map<nat, Slot>, r: LogRec, p: nat)
    requires r.e.FileWrite? && r.e.pgoff <= p
    ensures p in AssignedTo(slots, r, p) <==> p in slots
    ensures p in slots ==> AssignedTo(slots, r, p)[p] == slots[p]
  {
    AssignedIs(slots, r, p);
  }

  lemma AssignedAll(slots: map<nat, Slot>, r: LogRec)
    requires r.e.FileWrite?
    ensures AssignedTo(slots, r, r.e.pgoff) == slots
    ensures AssignedTo(slots, r, r.e.pgoff + r.e.numPages) == Assign(slots, r.addr, r.e)
  {
    AssignedIs(slots, r, r.e.pgoff + r.e.numPages);
  }

  lemma AssignOver(slots: map<nat, Slot>, r: LogRec, p: nat)
    requires r.e.FileWrite? && r.e.pgoff <= p
    ensures AssignSlot(WithoutSlot(slots, p), r, p) == AssignSlot(slots, r, p)
  {
  }

  /** A run stays apart when slot p is emptied and its block freed. */
  lemma RunStaysApart(e: Entry, i: nat, slots: map<nat, Slot>, free: set<nat>, p: nat)
    requires e.FileWrite? && p in slots && RunApart(e, i, slots, free)
    ensures RunApart(e, i, WithoutSlot(slots, p), free + {slots[p].block})
  {
    forall b: nat | e.block + i <= b < e.block + e.numPages
      ensures b !in free + {slots[p].block} && !Uses(WithoutSlot(slots, p), b)
    {
      assert !Uses(slots, b);
    }
  }

  lemma UsesMore(slots: map<nat, Slot>, p: nat, s: Slot, b: nat)
    requires !Uses(slots, b) && s.block != b
    ensures !Uses(slots[p := s], b)
  {
    var more := slots[p := s];
    forall x | x in more ensures more[x].block != b {
      if x != p {
        assert more[x] == slots[x];
      }
    }
  }

  /** ... and when a block outside the run is mapped. */
  lemma RunApartMore(e: Entry, i: nat, slots: map<nat, Slot>, free: set<nat>, p: nat, s: Slot)
    requires e.FileWrite? && RunApart(e, i, slots, free)
    requires !(e.block + i <= s.block < e.block + e.numPages)
    ensures RunApart(e, i, slots[p := s], free)
  {
    var more := slots[p := s];
    forall b: nat | e.block + i <= b < e.block + e.numPages ensures b !in free && !Uses(more, b) {
      assert !Uses(slots, b);
      UsesMore(slots, p, s, b);
    }
    assert RunApart(e, i, more, free);
  }

  /** The blocks behind the slots lo .. hi. */
  function BlocksIn(slots: map<nat, Slot>, lo: nat, hi: nat): set<nat> {
    if hi <= lo then {}
    else BlocksIn(slots, lo, hi - 1) + if hi - 1 in slots then {slots[hi - 1].block} else {}
  }

  /** The blocks of the mapped pages lo .. hi, in the order of the pages. */
  function BlockSeq(blocks: map<nat, nat>, lo: nat, hi: nat): seq<nat> {
    if hi <= lo then []
    else BlockSeq(blocks, lo, hi - 1) + if hi - 1 in blocks then [blocks[hi - 1]] else []
  }

  lemma {:induction false} BlockSeqHole(blocks: map<nat, nat>, lo: nat, p: nat, q: nat)
    requires lo <= p <= q && forall x :: p <= x < q ==> x !in blocks
    ensures BlockSeq(blocks, lo, q) == BlockSeq(blocks, lo, p)
    decreases q
  {
    if p < q {
      BlockSeqHole(blocks, lo, p, q - 1);
    }
  }

  /** The blocks of the mapped pages lo .. hi went back in the order of the pages, run by
      run. */
  ghost predicate WentInRuns(blocks: map<nat, nat>, lo: nat, hi: nat, back: map<nat, nat>) {
    var gone := BlockSeq(blocks, lo, hi);
    forall b :: b in RunStarts(gone, |gone|) ==> b in back && back[b] == RunStarts(gone, |gone|)[b]
  }

  lemma GoneInRuns(blocks: map<nat, nat>, lo: nat, hi: nat, back0: map<nat, nat>, back: map<nat, nat>)
    requires var gone := BlockSeq(blocks, lo, hi); back == Then(back0, RunStarts(gone, |gone|))
    ensures WentInRuns(blocks, lo, hi, back)
  {
  }

  /** An entry that is due with all its pages has no slot yet. */
  lemma DueHasNoSlot(tree: Index, slots: map<nat, Slot>, log: seq<LogRec>, due: Dues, w: nat)
    requires Matches(tree, slots) && AllGiven(slots, log) && Counted(tree, log, due) && DistinctAddrs(log)
    requires w < |log| && log[w].e.FileWrite? && Due(due, log[w].addr) == log[w].e.numPages
    ensures log[w].e.invalidPages == 0
    ensures forall x :: x in slots ==> slots[x].addr != log[w].addr
  {
    var e := log[w].e;
    assert CountOk(tree, due, log[w]);
    SlotsNone(tree, log[w].addr, e.pgoff, e.pgoff + e.numPages);
    forall x | x in slots ensures slots[x].addr != log[w].addr {
      assert Given(log, x, slots[x]);
      var i: nat :| Gives(log, i, x, slots[x]);
      assert x in tree && tree[x] == slots[x].addr;
      assert i < w ==> log[i].addr != log[w].addr;
    }
  }

  // ----- all entries of a write ---------------------------------------------------------------------------

  /** `rest` lies behind `log` and its first n entries have been indexed. */
  ghost predicate IndexedUpTo(tree: Index, slots: map<nat, Slot>, log0: seq<LogRec>, log: seq<LogRec>,
                              rest: seq<LogRec>, n: nat,
                              due: Dues, free: set<nat>)
  {
    && AllWrites(rest) && n <= |rest| <= |log0|
    && log0[|log0| - |rest|..] == rest
    && slots == Replay(FRESH, log0[..|log0| - |rest| + n]).tree
    && DuesAre(due, rest, n) && RunsApart(rest, n, slots, free)
    && OnlyCounts(log0, log)
  }

  lemma StartIndexing(tree: Index, log: seq<LogRec>, rest: seq<LogRec>, free: set<nat>)
    requires Counted(tree, log, map[]) && Matches(tree, Replay(FRESH, log).tree)
    requires DistinctAddrs(log + rest) && AllWrites(rest)
    requires BlocksApart(Replay(FRESH, log).tree, free) && RunsApart(rest, 0, Replay(FRESH, log).tree, free)
    ensures Indexing(tree, Replay(FRESH, log).tree, log + rest, DuesOf(rest), free)
    ensures IndexedUpTo(tree, Replay(FRESH, log).tree, log + rest, log + rest, rest, 0, DuesOf(rest), free)
  {
    var slots := Replay(FRESH, log).tree;
    MatchesIsIndexed(tree, log);
    StartCounting(tree, log, rest);
    forall p | p in slots ensures Given(log + rest, p, slots[p]) {
      assert Given(log, p, slots[p]);
      var i: nat :| Gives(log, i, p, slots[p]);
      assert Gives(log + rest, i, p, slots[p]);
    }
    assert (log + rest)[..|log|] == log && (log + rest)[|log|..] == rest;
    forall i | 0 <= i < |log + rest| ensures SameButCount((log + rest)[i], (log + rest)[i]) {
      CountInRange(tree, log + rest, DuesOf(rest), i);
    }
  }

  lemma CountInRange(tree: Index, log: seq<LogRec>, due: Dues, i: nat)
    requires Counted(tree, log, due) && i < |log|
    ensures log[i].e.FileWrite? ==> log[i].e.invalidPages <= log[i].e.numPages
  {
    assert CountOk(tree, due, log[i]);
  }

  /** The entry that comes next is as it was written. */
  lemma NextUntouched(tree: Index, slots: map<nat, Slot>, log0: seq<LogRec>, log: seq<LogRec>, rest: seq<LogRec>,
                      n: nat,
                      due: Dues, free: set<nat>)
    requires IndexedUpTo(tree, slots, log0, log, rest, n, due, free) && n < |rest|
    requires Indexing(tree, slots, log, due, free)
    ensures var w := |log0| - |rest| + n;
            w < |log| == |log0| && log[w] == rest[n] && Due(due, rest[n].addr) == rest[n].e.numPages
    ensures RunApart(rest[n].e, 0, slots, free) && NewWrite(rest[n])
  {
    var w := |log0| - |rest| + n;
    assert log0[|log0| - |rest|..][n] == log0[w];
    assert SameButCount(log0[w], log[w]);
    DueHasNoSlot(tree, slots, log, due, w);
  }

  /** The runs still to come stay apart when the next entry has been indexed. */
  lemma RunsStep(rest: seq<LogRec>, n: nat, slots: map<nat, Slot>, free: set<nat>, free': set<nat>)
    requires AllWrites(rest) && n < |rest| && RunsApart(rest, n, slots, free)
    requires free' == free + BlocksIn(slots, rest[n].e.pgoff, rest[n].e.pgoff + rest[n].e.numPages)
    ensures RunsApart(rest, n + 1, Assign(slots, rest[n].addr, rest[n].e), free')
  {
    var e := rest[n].e;
    var slots' := Assign(slots, rest[n].addr, e);
    forall x | n + 1 <= x < |rest| ensures RunApart(rest[x].e, 0, slots', free') {
      var f := rest[x].e;
      assert RunApart(f, 0, slots, free) && RunsDisjoint(e, f);
      forall b: nat | f.block <= b < f.block + f.numPages ensures b !in free' && !Uses(slots', b) {
        assert !Uses(slots, b);
        BlocksInUses(slots, e.pgoff, e.pgoff + e.numPages, b);
        AssignUses(slots, rest[n], b);
      }
    }
  }

  /** Every block of `slots0` is still mapped, or it has been given back. */
  ghost predicate NoneLost(slots0: map<nat, Slot>, slots: map<nat, Slot>, owned: set<nat>) {
    forall p :: p in slots0 ==> Uses(slots, slots0[p].block) || slots0[p].block in owned
  }

  lemma SelfNoneLost(slots: map<nat, Slot>, owned: set<nat>)
    ensures NoneLost(slots, slots, owned)
  {
    forall p | p in slots ensures Uses(slots, slots[p].block) {
    }
  }

  lemma {:induction false} BlocksInHas(slots: map<nat, Slot>, lo: nat, hi: nat, p: nat)
    requires lo <= p < hi && p in slots
    ensures slots[p].block in BlocksIn(slots, lo, hi)
    decreases hi
  {
    if p < hi - 1 {
      BlocksInHas(slots, lo, hi - 1, p);
    }
  }

  /** Indexing an entry gives back the blocks that it supersedes. */
  lemma AssignLosesNone(slots0: map<nat, Slot>, slots: map<nat, Slot>, owned: set<nat>, r: LogRec)
    requires NoneLost(slots0, slots, owned) && r.e.FileWrite?
    ensures NoneLost(slots0, Assign(slots, r.addr, r.e),
                     owned + BlocksIn(slots, r.e.pgoff, r.e.pgoff + r.e.numPages))
  {
    var slots', freed := Assign(slots, r.addr, r.e), BlocksIn(slots, r.e.pgoff, r.e.pgoff + r.e.numPages);
    forall p | p in slots0 && slots0[p].block !in owned + freed ensures Uses(slots', slots0[p].block) {
      var q :| q in slots && slots[q].block == slots0[p].block;
      if Covers(r.e, q) {
        BlocksInHas(slots, r.e.pgoff, r.e.pgoff + r.e.numPages, q);
      } else {
        assert slots'[q].block == slots0[p].block;
      }
    }
  }

  /** Every block of the old page map is mapped still, or it is free and went back by
      itself. */
  ghost predicate NoneLeaked(blocks0: map<nat, nat>, blocks: map<nat, nat>, pool: set<nat>, back: map<nat, nat>) {
    forall p :: p in blocks0 ==>
      || blocks0[p] in blocks.Values
      || (blocks0[p] in pool && blocks0[p] in back && back[blocks0[p]] == blocks0[p])
  }

  /** Every block of the old page map is mapped still, or it is free and in the list of
      its part of the device. */
  ghost predicate WentHome(blocks0: map<nat, nat>, blocks: map<nat, nat>, pool: set<nat>, home: map<nat, nat>,
                           cpus: Positive, perList: Positive) {
    forall p :: p in blocks0 ==>
      || blocks0[p] in blocks.Values
      || (blocks0[p] in pool && blocks0[p] in home && home[blocks0[p]] == PartOf(blocks0[p], cpus, perList))
  }

  lemma ThenHome(blocks0: map<nat, nat>, blocks: map<nat, nat>, pool: set<nat>, back: map<nat, nat>,
                 home0: map<nat, nat>, cpus: Positive, perList: Positive)
    requires NoneLeaked(blocks0, blocks, pool, back)
    ensures WentHome(blocks0, blocks, pool, Settled(home0, back, cpus, perList), cpus, perList)
  {
    hide PartOf;
    var home := Settled(home0, back, cpus, perList);
    forall b | b in back ensures b in home && home[b] == PartOf(back[b], cpus, perList) {
    }
  }

  lemma NothingLeaked(slots0: map<nat, Slot>, slots: map<nat, Slot>, owned0: set<nat>, pages: set<nat>, pool: set<nat>,
                      back0: map<nat, nat>, back: map<nat, nat>)
    requires NoneLost(slots0, slots, pool + pages) && BlocksApart(slots0, owned0) && pages <= owned0
    requires Grew(back0, owned0, back, pool + pages)
    ensures NoneLeaked(Blocks(slots0), Blocks(slots), pool, back)
  {
    forall p | p in slots0
      ensures var b := slots0[p].block; b in Blocks(slots).Values || (b in pool && b in back && back[b] == b)
    {
      var b := slots0[p].block;
      if Uses(slots, b) {
        var q :| q in slots && slots[q].block == b;
        assert Blocks(slots)[q] == b;
      } else {
        assert b !in owned0 && b in pool + pages - owned0;
      }
    }
  }

  lemma {:induction false} BlocksInUses(slots: map<nat, Slot>, lo: nat, hi: nat, b: nat)
    ensures b in BlocksIn(slots, lo, hi) ==> Uses(slots, b)
    decreases hi
  {
    if lo < hi {
      BlocksInUses(slots, lo, hi - 1, b);
    }
  }

  lemma AssignUses(slots: map<nat, Slot>, r: LogRec, b: nat)
    requires r.e.FileWrite? && !Uses(slots, b) && !(r.e.block <= b < r.e.block + r.e.numPages)
    ensures !Uses(Assign(slots, r.addr, r.e), b)
  {
    var slots' := Assign(slots, r.addr, r.e);
    forall p | p in slots' ensures slots'[p].block != b {
      if Covers(r.e, p) {
        assert slots'[p].block == BlockOf(r.e, p);
      } else {
        assert p in slots && slots'[p] == slots[p];
      }
    }
  }

  /** One entry further. */
  lemma IndexedOneMore(tree: Index, tree': Index, slots: map<nat, Slot>, log0: seq<LogRec>, log: seq<LogRec>,
                       log': seq<LogRec>,
                       rest: seq<LogRec>, n: nat, due: Dues, due': Dues, free: set<nat>, free': set<nat>)
    requires IndexedUpTo(tree, slots, log0, log, rest, n, due, free) && n < |rest| && DistinctAddrs(rest)
    requires OnlyCounts(log0, log')
    requires Due(due', rest[n].addr) == 0 && forall a :: a != rest[n].addr ==> Due(due', a) == Due(due, a)
    requires free' == free + BlocksIn(slots, rest[n].e.pgoff, rest[n].e.pgoff + rest[n].e.numPages)
    ensures IndexedUpTo(tree', Assign(slots, rest[n].addr, rest[n].e), log0, log', rest, n + 1, due', free')
  {
    RunsStep(rest, n, slots, free, free');
    var at := |log0| - |rest| + n;
    assert log0[..at + 1] == log0[..at] + [log0[at]];
    assert log0[|log0| - |rest|..][n] == log0[at];
    ReplayStep(FRESH, log0[..at], log0[at]);
    assert Live(rest[n].e);
    forall x | n + 1 <= x < |rest| ensures Due(due', rest[x].addr) == rest[x].e.numPages {
      assert rest[n].addr != rest[x].addr;
    }
    forall a | Due(due', a) > 0 ensures exists x :: n + 1 <= x < |rest| && rest[x].addr == a {
      assert Due(due, a) > 0;
      var x :| n <= x < |rest| && rest[x].addr == a;
      assert x != n;
    }
  }

  /** Each entry follows the one before it as the writer puts them. */
  ghost predicate TightRun(rest: seq<LogRec>) {
    forall i :: 0 <= i < |rest| - 1 ==> TightAt(rest, i)
  }

  ghost predicate TightAt(rest: seq<LogRec>, i: nat)
    requires i + 1 < |rest|
  {
    Tight(Addr(rest[i].addr.page, rest[i].addr.off + Len(rest[i].e)), Len(rest[i + 1].e), rest[i + 1].addr)
  }

  /** Indexing earlier entries changes neither the place nor the length of an entry. */
  lemma PlaceKept(log0: seq<LogRec>, log: seq<LogRec>, rest: seq<LogRec>, n: nat)
    requires OnlyCounts(log0, log) && 0 < n <= |rest| <= |log0| && log0[|log0| - |rest|..] == rest
    ensures var w := |log0| - |rest| + n; log[w - 1].addr == rest[n - 1].addr && Len(log[w - 1].e) == Len(rest[n - 1].e)
  {
    var w := |log0| - |rest| + n;
    assert log0[|log0| - |rest|..][n - 1] == log0[w - 1];
    assert SameButCount(log0[w - 1], log[w - 1]);
  }

  // ----- writing the entries --------------------------------------------------------------------------------

  /** The run of `e` has been taken from the allocator and nobody else uses it. */
  ghost predicate Reserved(e: Entry, rest: seq<LogRec>, slots: map<nat, Slot>, free: set<nat>)
    requires e.FileWrite? && AllWrites(rest)
  {
    && RunApart(e, 0, slots, free)
    && (forall x :: 0 <= x < |rest| ==> RunsDisjoint(rest[x].e, e))
  }

  /** Taking a run out of the free blocks reserves it. */
  lemma Reserve(e: Entry, rest: seq<LogRec>, slots: map<nat, Slot>, free: set<nat>, free': set<nat>)
    requires e.FileWrite? && 1 <= e.numPages && AllWrites(rest) && RunsApart(rest, 0, slots, free)
             && BlocksApart(slots, free)
    requires forall b: nat :: e.block <= b < e.block + e.numPages ==> b in free
    requires free' == set b | b in free && !(e.block <= b < e.block + e.numPages)
    ensures Reserved(e, rest, slots, free') && RunsApart(rest, 0, slots, free') && BlocksApart(slots, free')
  {
    forall x | 0 <= x < |rest| ensures RunsDisjoint(rest[x].e, e) && RunApart(rest[x].e, 0, slots, free') {
      var f := rest[x].e;
      assert RunApart(f, 0, slots, free) && NewWrite(rest[x]);
      assert e.block in free && f.block !in free;
      forall b: nat | f.block <= b < f.block + f.numPages ensures b !in free' && !Uses(slots, b) {
        assert !Uses(slots, b);
      }
    }
  }

  /** Appending the entry of a reserved run. */
  lemma RunsAdd(rest: seq<LogRec>, r: LogRec, slots: map<nat, Slot>, free: set<nat>)
    requires AllWrites(rest) && NewWrite(r) && RunsApart(rest, 0, slots, free) && Reserved(r.e, rest, slots, free)
    ensures AllWrites(rest + [r]) && RunsApart(rest + [r], 0, slots, free)
  {
    var all := rest + [r];
    forall x | 0 <= x < |all| ensures RunApart(all[x].e, 0, slots, free) {
      if x < |rest| {
        assert RunApart(rest[x].e, 0, slots, free);
      }
    }
    forall x, y | 0 <= x < y < |all| ensures RunsDisjoint(all[x].e, all[y].e) {
      if y < |rest| {
        assert RunsDisjoint(rest[x].e, rest[y].e);
      } else {
        assert RunsDisjoint(rest[x].e, r.e);
      }
    }
  }

  /** Blocks reached through the log and the new entries are old blocks or lie in a new run. */
  lemma {:induction false} UsesAfter(s: State, rest: seq<LogRec>, b: nat)
    requires AllWrites(rest) && Uses(Replay(s, rest).tree, b)
    ensures || Uses(s.tree, b)
            || exists x :: 0 <= x < |rest| && rest[x].e.block <= b < rest[x].e.block + rest[x].e.numPages
    decreases |rest|
  {
    if rest != [] {
      assert NewWrite(rest[0]);
      var s' := Apply(s, rest[0]);
      assert forall i :: 0 <= i < |rest| - 1 ==> rest[1..][i] == rest[i + 1];
      UsesAfter(s', rest[1..], b);
      if x :| 0 <= x < |rest| - 1 && rest[1..][x].e.block <= b < rest[1..][x].e.block + rest[1..][x].e.numPages {
        assert rest[x + 1].e.block <= b < rest[x + 1].e.block + rest[x + 1].e.numPages;
      } else if !Uses(s.tree, b) && !(rest[0].e.block <= b < rest[0].e.block + rest[0].e.numPages) {
        AssignUses(s.tree, rest[0], b);
      }
    }
  }

  lemma TightAdd(rest: seq<LogRec>, r: LogRec)
    requires TightRun(rest)
    requires rest != [] ==>
             Tight(Addr(rest[|rest| - 1].addr.page, rest[|rest| - 1].addr.off + Len(rest[|rest| - 1].e)), Len(r.e),
                 r.addr)
    ensures TightRun(rest + [r])
  {
    var all := rest + [r];
    forall i | 0 <= i < |all| - 1 ensures TightAt(all, i) {
      if i + 1 < |rest| {
        assert TightAt(rest, i);
      }
    }
  }

  // ----- crashes while the index is brought up to date ---------------------------------------------------

  /** Every slot that replay would fill is filled already, or its entry is due. */
  ghost predicate Ahead(slots: map<nat, Slot>, due: Dues, goal: map<nat, Slot>) {
    forall p :: p in goal ==> AheadAt(slots, due, goal, p)
  }

  ghost predicate AheadAt(slots: map<nat, Slot>, due: Dues, goal: map<nat, Slot>, p: nat)
    requires p in goal
  {
    (p in slots && slots[p] == goal[p]) || Due(due, goal[p].addr) > 0
  }

  /** What slot p holds now is not what it will hold in the end. */
  ghost predicate Leaving(p: nat, due: Dues, goal: map<nat, Slot>) {
    p in goal ==> Due(due, goal[p].addr) > 0
  }

  /** The pages of entry `a` other than p are there, or more than one page of it is due. */
  ghost predicate OthersAhead(slots: map<nat, Slot>, due: Dues, goal: map<nat, Slot>, a: Addr, p: nat) {
    forall x :: x in goal && goal[x].addr == a && x != p ==> (x in slots && slots[x] == goal[x]) || Due(due, a) > 1
  }

  /** The pages of `r` will end up with `r` or with an entry that is due. */
  ghost predicate LaterOnes(r: LogRec, due: Dues, goal: map<nat, Slot>)
    requires r.e.FileWrite?
  {
    forall p :: Covers(r.e, p) ==> p in goal && (goal[p].addr == r.addr || Due(due, goal[p].addr) > 0)
  }

  lemma AheadWithout(slots: map<nat, Slot>, due: Dues, goal: map<nat, Slot>, p: nat)
    requires Ahead(slots, due, goal) && Leaving(p, due, goal)
    ensures Ahead(WithoutSlot(slots, p), due, goal)
  {
    forall x | x in goal ensures AheadAt(WithoutSlot(slots, p), due, goal, x) {
      assert AheadAt(slots, due, goal, x);
    }
  }

  lemma OthersStillAhead(slots: map<nat, Slot>, due: Dues, goal: map<nat, Slot>, a: Addr, p: nat)
    requires OthersAhead(slots, due, goal, a, p)
    ensures OthersAhead(WithoutSlot(slots, p), due, goal, a, p)
  {
  }

  /** A slot of the replay that points at `r` has the block that `r` gives. */
  lemma GoalSlot(log0: seq<LogRec>, log: seq<LogRec>, r: LogRec, w: nat, p: nat)
    requires DistinctAddrs(log0) && OnlyCounts(log0, log) && w < |log| && log[w] == r && r.e.FileWrite?
    requires p in Replay(FRESH, log0).tree && Replay(FRESH, log0).tree[p].addr == r.addr
    ensures Covers(r.e, p) && Replay(FRESH, log0).tree[p] == Slot(r.addr, BlockOf(r.e, p))
  {
    var s := Replay(FRESH, log0).tree[p];
    ReplayGives(FRESH, log0, p);
    var i: nat :| Gives(log0, i, p, s);
    assert SameButCount(log0[w], log[w]);
    assert log0[i].addr == log0[w].addr;
    assert i == w;
  }

  lemma AheadWith(slots: map<nat, Slot>, due: Dues, log0: seq<LogRec>, log: seq<LogRec>, r: LogRec, w: nat, p: nat)
    requires DistinctAddrs(log0) && OnlyCounts(log0, log) && w < |log| && log[w] == r && r.e.FileWrite?
    requires p !in slots && r.e.pgoff <= p && Due(due, r.addr) > 0
    requires Ahead(slots, due, Replay(FRESH, log0).tree) && OthersAhead(slots, due, Replay(FRESH, log0).tree, r.addr, p)
    ensures Ahead(AssignSlot(slots, r, p), Paid(due, r.addr), Replay(FRESH, log0).tree)
  {
    var goal := Replay(FRESH, log0).tree;
    var slots', due' := AssignSlot(slots, r, p), Paid(due, r.addr);
    forall x | x in goal ensures AheadAt(slots', due', goal, x) {
      assert AheadAt(slots, due, goal, x);
      if goal[x].addr == r.addr && x == p {
        GoalSlot(log0, log, r, w, p);
      }
    }
  }

  /** Half way through the pages of `r`, whatever slot p holds is leaving and the rest is ahead. */
  lemma GoalWhileAssigning(slots0: map<nat, Slot>, log0: seq<LogRec>, log: seq<LogRec>, r: LogRec, w: nat, p: nat,
                           due: Dues, due0: Dues)
    requires DistinctAddrs(log0) && OnlyCounts(log0, log) && w < |log| && log[w] == r && r.e.FileWrite?
    requires r.e.pgoff <= p < r.e.pgoff + r.e.numPages && Due(due, r.addr) == r.e.pgoff + r.e.numPages - p
    requires forall a :: a != r.addr ==> Due(due, a) == Due(due0, a)
    requires LaterOnes(r, due0, Replay(FRESH, log0).tree)
    ensures Leaving(p, due, Replay(FRESH, log0).tree)
    ensures OthersAhead(AssignedTo(slots0, r, p), due, Replay(FRESH, log0).tree, r.addr, p)
  {
    var goal := Replay(FRESH, log0).tree;
    assert Covers(r.e, p);
    AssignedIs(slots0, r, p);
    forall x | x in goal && goal[x].addr == r.addr && x != p
      ensures (x in AssignedTo(slots0, r, p) && AssignedTo(slots0, r, p)[x] == goal[x]) || Due(due, r.addr) > 1
    {
      GoalSlot(log0, log, r, w, x);
    }
  }

  /** The last entry that covers a page gives it its slot. */
  lemma {:induction false} LaterWins(s: State, rest: seq<LogRec>, n: nat, p: nat)
    requires AllWrites(rest) && n < |rest| && Covers(rest[n].e, p)
    ensures p in Replay(s, rest).tree && exists y :: n <= y < |rest| && Replay(s, rest).tree[p].addr == rest[y].addr
    decreases |rest|
  {
    var x := |rest| - 1;
    assert NewWrite(rest[x]);
    assert rest == rest[..x] + [rest[x]];
    ReplayStep(s, rest[..x], rest[x]);
    if Covers(rest[x].e, p) {
      assert Replay(s, rest).tree[p].addr == rest[x].addr;
    } else {
      assert forall i :: 0 <= i < x ==> rest[..x][i] == rest[i];
      LaterWins(s, rest[..x], n, p);
      var y :| n <= y < x && Replay(s, rest[..x]).tree[p].addr == rest[..x][y].addr;
      assert Replay(s, rest).tree[p].addr == rest[y].addr;
    }
  }

  lemma LaterAreDue(log0: seq<LogRec>, rest: seq<LogRec>, n: nat, due: Dues)
    requires AllWrites(rest) && n < |rest| <= |log0| && log0[|log0| - |rest|..] == rest && DuesAre(due, rest, n)
    ensures LaterOnes(rest[n], due, Replay(FRESH, log0).tree)
  {
    var pre := log0[..|log0| - |rest|];
    assert log0 == pre + rest;
    ReplayConcat(FRESH, pre, rest);
    forall p | Covers(rest[n].e, p)
      ensures p in Replay(FRESH, log0).tree && Due(due, Replay(FRESH, log0).tree[p].addr) > 0
    {
      LaterWins(Replay(FRESH, pre), rest, n, p);
      var y :| n <= y < |rest| && Replay(FRESH, log0).tree[p].addr == rest[y].addr;
      assert NewWrite(rest[y]);
    }
  }

  /** Slots that no new entry covers stay as they are. */
  lemma {:induction false} Uncovered(s: State, rest: seq<LogRec>, p: nat)
    requires AllWrites(rest) && p in Replay(s, rest).tree
    ensures (p in s.tree && s.tree[p] == Replay(s, rest).tree[p]) || exists n :: 0 <= n < |rest| && Covers(rest[n].e, p)
    decreases |rest|
  {
    if rest != [] {
      assert NewWrite(rest[0]);
      assert forall i :: 0 <= i < |rest| - 1 ==> rest[1..][i] == rest[i + 1];
      Uncovered(Apply(s, rest[0]), rest[1..], p);
      if n :| 0 <= n < |rest| - 1 && Covers(rest[1..][n].e, p) {
        assert Covers(rest[n + 1].e, p);
      } else if Covers(rest[0].e, p) {
      }
    }
  }

  /** Right after the commit: what is not yet indexed is due. */
  lemma AheadAtStart(log: seq<LogRec>, rest: seq<LogRec>, due: Dues)
    requires AllWrites(rest) && DuesAre(due, rest, 0)
    ensures Ahead(Replay(FRESH, log).tree, due, Replay(FRESH, log + rest).tree)
  {
    var slots, goal := Replay(FRESH, log).tree, Replay(FRESH, log + rest).tree;
    ReplayConcat(FRESH, log, rest);
    forall p | p in goal ensures AheadAt(slots, due, goal, p) {
      Uncovered(Replay(FRESH, log), rest, p);
      if n :| 0 <= n < |rest| && Covers(rest[n].e, p) {
        LaterWins(Replay(FRESH, log), rest, n, p);
        var y :| n <= y < |rest| && goal[p].addr == rest[y].addr;
        assert NewWrite(rest[y]);
      }
    }
  }

  lemma SoundWhileIndexing(log0: seq<LogRec>, log: seq<LogRec>, tree: Index, slots: map<nat, Slot>, due: Dues)
    requires Sound(0, log0) && DistinctAddrs(log0) && OnlyCounts(log0, log)
    requires Matches(tree, slots) && Counted(tree, log, due) && Ahead(slots, due, Replay(FRESH, log0).tree)
    ensures Sound(0, log)
  {
    forall i | 0 <= i < |log| && log[i].e.FileWrite? && !Live(log[i].e) ensures HasSizing(log0[i + 1..]) {
      assert SameButCount(log0[i], log[i]);
      if !HasSizing(log0[i + 1..]) {
        LastWriteIsIndexed(FRESH, log0, i);
        GoalIsLive(log0, log, tree, slots, due, log0[i].e.pgoff);
      }
    }
    SoundCounts(0, log0, log);
  }

  /** A crash while entries are being marked: those that are dead by then are not
      needed, so the log is sound and replays to what was committed. */
  lemma CrashWhileIndexing(log0: seq<LogRec>, log: seq<LogRec>, tree: Index, slots: map<nat, Slot>, due: Dues)
    requires Sound(0, log0) && DistinctAddrs(log0) && OnlyCounts(log0, log)
    requires Matches(tree, slots) && Counted(tree, log, due) && Ahead(slots, due, Replay(FRESH, log0).tree)
    ensures Sound(0, log) && Replay(FRESH, log) == Replay(FRESH, log0)
  {
    SoundWhileIndexing(log0, log, tree, slots, due);
    hide Sound;
    var goal := Replay(FRESH, log0).tree;
    var dead := set i | 0 <= i < |log| && log[i].e.FileWrite? && !Live(log[i].e) :: log[i].addr;
    assert Recounted(log0, log, dead) by {
      forall i | 0 <= i < |log0| ensures RecountedRec(log0[i], log[i], dead) {
        assert SameButCount(log0[i], log[i]);
        if log[i].e.FileWrite? && !Live(log[i].e) {
          assert log[i].addr in dead;
        }
      }
    }
    forall p | p in goal ensures goal[p].addr !in dead {
      GoalIsLive(log0, log, tree, slots, due, p);
    }
    DeadEntriesDoNotMatter(log0, log, dead);
  }

  lemma GoalIsLive(log0: seq<LogRec>, log: seq<LogRec>, tree: Index, slots: map<nat, Slot>, due: Dues, p: nat)
    requires DistinctAddrs(log0) && OnlyCounts(log0, log)
    requires Matches(tree, slots) && Counted(tree, log, due) && Ahead(slots, due, Replay(FRESH, log0).tree)
    requires p in Replay(FRESH, log0).tree
    ensures forall i :: 0 <= i < |log| && log[i].e.FileWrite? && log[i].addr == Replay(FRESH, log0).tree[p].addr ==>
            Live(log[i].e)
  {
    var goal := Replay(FRESH, log0).tree;
    assert AheadAt(slots, due, goal, p);
    forall i | 0 <= i < |log| && log[i].e.FileWrite? && log[i].addr == goal[p].addr ensures Live(log[i].e) {
      GoalSlot(log0, log, log[i], i, p);
      assert CountOk(tree, due, log[i]);
      SlotsNone(tree, log[i].addr, log[i].e.pgoff, log[i].e.pgoff + log[i].e.numPages);
    }
  }

  /** A mount finds a sound log in the image, and it replays to `goal`. */
  ghost predicate Finds(img: Image, goal: State) {
    exists log: seq<LogRec> :: Shows(img, log) && Sound(0, log) && Replay(FRESH, log) == goal
  }

  /** The bytes up to the end of the file are the same. */
  ghost predicate Visible(d: Mem, data: Mem, goal: State) {
    forall off: nat :: off < goal.size ==> FileByte(Blocks(goal.tree), d, off) == FileByte(Blocks(goal.tree), data, off)
  }

  /** A crash at any of these points leaves the file that `goal` and `data` describe. */
  ghost predicate AfterOk(after: seq<Crash>, goal: State, data: Mem) {
    forall i :: 0 <= i < |after| ==> Finds(after[i].img, goal) && Visible(after[i].data, data, goal)
  }

  lemma AfterMore(after: seq<Crash>, c: Crash, goal: State, data: Mem, log: seq<LogRec>)
    requires AfterOk(after, goal, data)
    requires Shows(c.img, log) && Sound(0, log) && Replay(FRESH, log) == goal && c.data == data
    ensures AfterOk(after + [c], goal, data)
  {
    var all := after + [c];
    forall i | 0 <= i < |all| ensures Finds(all[i].img, goal) && Visible(all[i].data, data, goal) {
      if i < |after| {
        assert all[i] == after[i];
      } else {
        assert all[i] == c;
      }
    }
  }

  // ----- deleting a range of slots -----------------------------------------------------------------------------

  /** `slots` without the pages lo .. hi. */
  function CutTo(slots: map<nat, Slot>, lo: nat, hi: nat): map<nat, Slot> {
    map p | p in slots && !(lo <= p < hi) :: slots[p]
  }

  lemma CutOneMore(slots: map<nat, Slot>, lo: nat, p: nat)
    requires lo <= p
    ensures WithoutSlot(CutTo(slots, lo, p), p) == CutTo(slots, lo, p + 1)
    ensures p in slots <==> p in CutTo(slots, lo, p)
    ensures p in slots ==> CutTo(slots, lo, p)[p] == slots[p]
  {
  }

  lemma CutNothing(slots: map<nat, Slot>, lo: nat)
    ensures CutTo(slots, lo, lo) == slots && BlocksIn(slots, lo, lo) == {}
  {
  }

  /** Skipping a stretch without slots. */
  lemma {:induction false} CutHole(slots: map<nat, Slot>, lo: nat, p: nat, q: nat)
    requires lo <= p <= q && forall x :: p <= x < q ==> x !in slots
    ensures CutTo(slots, lo, p) == CutTo(slots, lo, q)
    ensures BlocksIn(slots, lo, p) == BlocksIn(slots, lo, q)
    decreases q
  {
    if p < q {
      CutHole(slots, lo, p, q - 1);
    }
  }

  /** Blocks unmapped so far: those already freed and those waiting. */
  ghost predicate Waiting(slots: map<nat, Slot>, free: set<nat>, block: nat, n: nat) {
    && (block == 0 <==> n == 0)
    && Run(block, n) !! free
    && (forall b :: b in Run(block, n) ==> !Uses(slots, b))
  }

  lemma WaitMore(slots: map<nat, Slot>, p: nat, free: set<nat>, block: nat, n: nat)
    requires Waiting(slots, free, block, n) && p in slots && BlocksApart(slots, free)
    ensures slots[p].block !in free && slots[p].block !in Run(block, n)
    ensures Waiting(WithoutSlot(slots, p), free, block, n)
  {
    assert Uses(slots, slots[p].block);
    forall b | b in Run(block, n) ensures !Uses(WithoutSlot(slots, p), b) {
      assert !Uses(slots, b);
    }
  }

  /** The run waiting is part of what waited before and the block just unmapped. */
  lemma WaitLess(slots: map<nat, Slot>, free: set<nat>, block: nat, n: nat, b: nat, free': set<nat>, block': nat,
                 n': nat)
    requires Waiting(slots, free, block, n) && !Uses(slots, b)
    requires (block' == 0 <==> n' == 0) && Run(block', n') !! free' && Run(block', n') <= Run(block, n) + {b}
    ensures Waiting(slots, free', block', n')
  {
  }

  /** The run waiting could be freed at any time. */
  lemma WaitingApart(slots: map<nat, Slot>, free: set<nat>, block: nat, n: nat)
    requires Waiting(slots, free, block, n) && BlocksApart(slots, free)
    ensures BlocksApart(slots, free + Run(block, n)) && 0 !in Run(block, n)
  {
    MoreFree(slots, free, Run(block, n));
    RunHas(block, n, 0);
  }
}
