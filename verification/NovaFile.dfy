/** A file: its log, its page index, its data blocks.  Copy-on-write writes,
truncation and reads, as the file system performs them. */
module NovaFiles {
  import opened Options
  import opened LogPages
  import opened FileReplay
  import opened LogSurgery
  import opened LogSweep
  import opened InodeLogs
  import opened LogMeaning
  import opened FileData
  import opened FileIndex
  import opened WriteRuns
  import opened BlockLists
  import opened CowState
  import opened HeaderRuns
  import opened SizeChange
  import opened CrashView

  datatype Outcome = Done | NoSpace | Stopped

  class NovaFile {
    const log: InodeLog
    /** The size in the VFS inode. */
    var size: nat

    /** The index and the counts are right, and no block is used twice: the pages
        of the log, the log.Owned() blocks and the mapped blocks are all apart. */
    ghost predicate Valid()
      reads this, log
    {
      && log.Inv()
      && FileOk(log.tree, log.Log(), size)
      && BlocksApart(Replay(FRESH, log.Log()).tree, log.Owned())
      && LinkOk(log.Log(), log.lastLink)
    }

    /** A new file. */
    constructor (log: InodeLog)
      requires log.Inv() && log.Log() == [] && log.tree == map[]
      ensures Valid() && this.log == log && size == 0
    {
      this.log, this.size := log, 0;
    }

    /** Gives a block back.  No block is ever freed twice. */
    method FreeDataBlock(b: nat)
      requires log.Inv() && b !in log.Owned() && b != 0
      modifies log`pool, log`home, log`back
      ensures log.Inv() && log.pool == old(log.pool) + {b} && log.Owned() == old(log.Owned()) + {b}
      ensures Grew(old(log.back), old(log.Owned()), log.back, log.Owned())
    {
      hide Grew, OneRun, Then, InodeLog.HomesOk, Run;
      GrewOne(log.back, log.Owned(), b);
      log.FreePage(b);
      assert log.Owned() == old(log.Owned()) + {b};
    }

    // ----- indexing committed entries -------------------------------------------------------

    /** While the index is brought up to date with the committed log `log0`.  Every
        image since the commit replays to what `log0` replays to. */
    ghost predicate Updating(slots: map<nat, Slot>, due: Dues, log0: seq<LogRec>)
      reads log
    {
      && log.Inv() && DistinctAddrs(log0) && Sound(0, log0)
      && Indexing(log.tree, slots, log.Log(), due, log.Owned())
      && OnlyCounts(log0, log.Log())
      && Ahead(slots, due, Replay(FRESH, log0).tree)
      && AfterOk(log.after, Replay(FRESH, log0), log.data)
    }

    /** Empties slot p and counts the page invalid in its entry. */
    method UnmapSlot(p: nat, ghost slots: map<nat, Slot>, ghost due: Dues,
                     ghost log0: seq<LogRec>) returns (block: nat, ghost q: nat)
      requires Updating(slots, due, log0) && p in log.tree && Leaving(p, due, Replay(FRESH, log0).tree)
      modifies log`m, log`lay, log`tree, log`after
      ensures Updating(WithoutSlot(slots, p), due, log0)
      ensures p in slots && block == slots[p].block && block !in log.Owned() && block != 0
              && !Uses(WithoutSlot(slots, p), block)
      ensures q < |old(log.Log())| && old(log.Log())[q].addr == slots[p].addr && old(log.Log())[q].e.FileWrite?
      ensures log.Log() == MarkOne(old(log.Log()), q) && log.lay.pages == old(log.lay.pages)
              && log.Owned() == old(log.Owned())
      ensures old(log.after) <= log.after
    {
      hide Ahead, Leaving, AfterOk, BlocksApart, DistinctAddrs, AllGiven, Counted, OnlyCounts, InodeLog.Log, Replay,
           Sound;
      q := FindOwner(log.tree, slots, log.Log(), due, p);
      log.CellAt(q);
      var a := log.tree[p];
      var e := Read(log.m.cells, a).e;
      EmptySlot(log.tree, slots, log.Log(), due, log.Owned(), p, q);
      OnlyCountsMark(log0, log.Log(), q);
      AheadWithout(slots, due, Replay(FRESH, log0).tree, p);
      CrashWhileIndexing(log0, MarkOne(log.Log(), q), WithoutSlot(log.tree, p), WithoutSlot(slots, p), due);
      ghost var after0 := log.after;
      log.RewriteEntry(a, Invalidated(e), q, log.Log());
      AfterMore(after0, Crash(log.Img(), log.data), Replay(FRESH, log0), log.data, log.Log());
      block := BlockOf(e, p);
      log.tree := WithoutSlot(log.tree, p);
    }

    /** Empties slot p and frees its block. */
    method ClearSlot(p: nat, ghost slots: map<nat, Slot>, ghost due: Dues,
                     ghost log0: seq<LogRec>) returns (ghost q: nat)
      requires Updating(slots, due, log0) && p in log.tree && Leaving(p, due, Replay(FRESH, log0).tree)
      modifies log`m, log`lay, log`tree, log`pool, log`home, log`back, log`after
      ensures Updating(WithoutSlot(slots, p), due, log0)
      ensures p in slots && log.Owned() == old(log.Owned()) + {slots[p].block}
      ensures q < |old(log.Log())| && old(log.Log())[q].addr == slots[p].addr && old(log.Log())[q].e.FileWrite?
      ensures log.Log() == MarkOne(old(log.Log()), q) && log.lay.pages == old(log.lay.pages)
      ensures Grew(old(log.back), old(log.Owned()), log.back, log.Owned())
    {
      hide Grew, Matches, AllGiven, Counted, DistinctAddrs, OnlyCounts, InodeLog.Inv, InodeLog.Log, BlocksApart,
           WithoutSlot,
           MarkOne, Ahead, Leaving,
           AfterOk, InodeLog.Owned;
      var block;
      block, q := UnmapSlot(p, slots, due, log0);
      MoreFree(WithoutSlot(slots, p), log.Owned(), {block});
      FreeDataBlock(block);
    }

    /** Points the empty slot p at the entry `r`, which is record w of the log. */
    method FillPage(r: LogRec, p: nat, ghost w: nat, ghost slots: map<nat, Slot>, ghost due: Dues,
                    ghost log0: seq<LogRec>)
      requires Updating(slots, due, log0) && p !in log.tree
      requires w < |log.Log()| && log.Log()[w] == r && NewWrite(r) && Covers(r.e, p) && Due(due, r.addr) > 0
      requires RunApart(r.e, p - r.e.pgoff, slots, log.Owned()) && OthersAhead(slots, due, Replay(FRESH, log0).tree,
               r.addr, p)
      modifies log`tree
      ensures Updating(AssignSlot(slots, r, p), Paid(due, r.addr), log0)
      ensures RunApart(r.e, p + 1 - r.e.pgoff, AssignSlot(slots, r, p), log.Owned())
    {
      hide Ahead, OthersAhead, AfterOk, BlocksApart, DistinctAddrs, OnlyCounts, InodeLog.Inv, InodeLog.Log,
           InodeLog.Owned, Counted, AllGiven;
      assert BlockOf(r.e, p) == r.e.block + (p - r.e.pgoff);
      AheadWith(slots, due, log0, log.Log(), r, w, p);
      RefillIndex(log.tree, slots, log.Log(), due, log.Owned(), p, w);
      RunApartMore(r.e, p + 1 - r.e.pgoff, slots, log.Owned(), p, Slot(r.addr, BlockOf(r.e, p)));
      log.tree := log.tree[p := r.addr];
    }

    /** Points slot p at the entry `r`, which is record w of the log; a page that
        another entry gave becomes invalid and its block is freed. */
    method AssignPage(r: LogRec, p: nat, ghost w: nat, ghost slots: map<nat, Slot>, ghost due: Dues,
                      ghost log0: seq<LogRec>)
      requires Updating(slots, due, log0)
      requires w < |log.Log()| && log.Log()[w] == r && NewWrite(r) && Covers(r.e, p) && Due(due, r.addr) > 0
      requires p in slots ==> slots[p].addr != r.addr
      requires Leaving(p, due, Replay(FRESH, log0).tree) && OthersAhead(slots, due, Replay(FRESH, log0).tree, r.addr, p)
      requires RunApart(r.e, p - r.e.pgoff, slots, log.Owned())
      modifies log`m, log`lay, log`tree, log`pool, log`home, log`back, log`after
      ensures Updating(AssignSlot(slots, r, p), Paid(due, r.addr), log0)
      ensures w < |log.Log()| && log.Log()[w] == r && log.lay.pages == old(log.lay.pages)
      ensures log.Owned() == old(log.Owned()) + if p in slots then {slots[p].block} else {}
      ensures RunApart(r.e, p + 1 - r.e.pgoff, AssignSlot(slots, r, p), log.Owned())
      ensures Grew(old(log.back), old(log.Owned()), log.back, log.Owned())
    {
      hide Grew, Indexing, OnlyCounts, Ahead, Leaving, OthersAhead, AfterOk, DistinctAddrs, InodeLog.Inv, InodeLog.Log,
           InodeLog.Owned, RunApart, AssignSlot,
           WithoutSlot;
      SameKeys(slots, due, log0, p);
      if p in log.tree {
        RunStaysApart(r.e, p - r.e.pgoff, slots, log.Owned(), p);
        OthersStillAhead(slots, due, Replay(FRESH, log0).tree, r.addr, p);
        ghost var q := ClearSlot(p, slots, due, log0);
        SameKeys(WithoutSlot(slots, p), due, log0, p);
        AssignOver(slots, r, p);
        FillPage(r, p, w, WithoutSlot(slots, p), due, log0);
      } else {
        GrewNone(log.back, log.Owned());
        FillPage(r, p, w, slots, due, log0);
      }
    }

    lemma SameKeys(slots: map<nat, Slot>, due: Dues, log0: seq<LogRec>, p: nat)
      requires Updating(slots, due, log0)
      ensures p in log.tree <==> p in slots
      ensures forall x :: p !in WithoutSlot(slots, x) || p != x
    {
    }

    /** Pages of `r` below p have been assigned. */
    ghost predicate Assigning(r: LogRec, w: nat, p: nat, slots: map<nat, Slot>, due: Dues,
                              slots0: map<nat, Slot>, due0: Dues, owned0: set<nat>, log0: seq<LogRec>)
      reads this, log
    {
      && Updating(slots, due, log0)
      && w < |log.Log()| && log.Log()[w] == r && NewWrite(r) && r.e.pgoff <= p <= r.e.pgoff + r.e.numPages
      && Due(due, r.addr) == r.e.pgoff + r.e.numPages - p
      && (forall a :: a != r.addr ==> Due(due, a) == Due(due0, a))
      && RunApart(r.e, p - r.e.pgoff, slots, log.Owned())
      && slots == AssignedTo(slots0, r, p) && log.Owned() == owned0 + BlocksIn(slots0, r.e.pgoff, p)
    }

    method AssignNext(r: LogRec, p: nat, ghost w: nat, ghost slots: map<nat, Slot>, ghost due: Dues,
                      ghost slots0: map<nat, Slot>, ghost due0: Dues, ghost owned0: set<nat>, ghost log0: seq<LogRec>)
      returns (ghost slots': map<nat, Slot>, ghost due': Dues)
      requires Assigning(r, w, p, slots, due, slots0, due0, owned0, log0) && p < r.e.pgoff + r.e.numPages
      requires (forall x :: x in slots0 ==> slots0[x].addr != r.addr) && LaterOnes(r, due0, Replay(FRESH, log0).tree)
      modifies log`m, log`lay, log`tree, log`pool, log`home, log`back, log`after
      ensures Assigning(r, w, p + 1, slots', due', slots0, due0, owned0, log0) && log.lay.pages == old(log.lay.pages)
      ensures Grew(old(log.back), old(log.Owned()), log.back, log.Owned())
    {
      hide Grew, Indexing, OnlyCounts, Ahead, Leaving, OthersAhead, AfterOk, DistinctAddrs, InodeLog.Inv, RunApart,
           LaterOnes;
      AssignedAhead(slots0, r, p);
      PaidOne(due, r.addr, due0);
      GoalWhileAssigning(slots0, log0, log.Log(), r, w, p, due, due0);
      AssignPage(r, p, w, slots, due, log0);
      AssignOneMore(slots0, r, p, owned0, old(log.Owned()), log.Owned());
      slots', due' := AssignSlot(slots, r, p), Paid(due, r.addr);
    }

    /** Assigns the pages of `r` one after the other. */
    method AssignPages(r: LogRec, ghost w: nat, ghost slots: map<nat, Slot>, ghost due: Dues, ghost owned0: set<nat>,
                       ghost log0: seq<LogRec>)
      returns (ghost slots': map<nat, Slot>, ghost due': Dues)
      requires r.e.FileWrite? && Assigning(r, w, r.e.pgoff, slots, due, slots, due, owned0, log0)
      requires (forall x :: x in slots ==> slots[x].addr != r.addr) && LaterOnes(r, due, Replay(FRESH, log0).tree)
      modifies log`m, log`lay, log`tree, log`pool, log`home, log`back, log`after
      ensures Assigning(r, w, r.e.pgoff + r.e.numPages, slots', due', slots, due, owned0, log0)
              && log.lay.pages == old(log.lay.pages)
      ensures Grew(old(log.back), old(log.Owned()), log.back, log.Owned())
    {
      hide *;
      var p := r.e.pgoff;
      slots', due' := slots, due;
      GrewNone(log.back, log.Owned());
      while p < r.e.pgoff + r.e.numPages
        invariant p <= r.e.pgoff + r.e.numPages && log.lay.pages == old(log.lay.pages)
        invariant Assigning(r, w, p, slots', due', slots, due, owned0, log0)
        invariant Grew(old(log.back), old(log.Owned()), log.back, log.Owned())
      {
        ghost var back1, owned1 := log.back, log.Owned();
        slots', due' := AssignNext(r, p, w, slots', due', slots, due, owned0, log0);
        GrewMore(old(log.back), old(log.Owned()), back1, owned1, log.back, log.Owned());
        p := p + 1;
      }
    }

    /** Indexes one committed write entry. */
    method AssignWriteEntry(r: LogRec, ghost w: nat, ghost slots: map<nat, Slot>, ghost due: Dues,
                            ghost log0: seq<LogRec>)
      returns (ghost slots': map<nat, Slot>, ghost due': Dues)
      requires Updating(slots, due, log0)
      requires w < |log.Log()| && log.Log()[w] == r && NewWrite(r) && Due(due, r.addr) == r.e.numPages
      requires RunApart(r.e, 0, slots, log.Owned()) && LaterOnes(r, due, Replay(FRESH, log0).tree)
      modifies log`m, log`lay, log`tree, log`pool, log`home, log`back, log`after
      ensures Due(due', r.addr) == 0 && forall a :: a != r.addr ==> Due(due', a) == Due(due, a)
      ensures slots' == Assign(slots, r.addr, r.e) && Updating(slots', due', log0)
              && log.lay.pages == old(log.lay.pages)
      ensures log.Owned() == old(log.Owned()) + BlocksIn(slots, r.e.pgoff, r.e.pgoff + r.e.numPages)
      ensures Grew(old(log.back), old(log.Owned()), log.back, log.Owned())
    {
      hide Grew, Ahead, AfterOk, LaterOnes, InodeLog.Inv, OnlyCounts, BlocksApart;
      DueHasNoSlot(log.tree, slots, log.Log(), due, w);
      AssignedAll(slots, r);
      slots', due' := AssignPages(r, w, slots, due, log.Owned(), log0);
    }

    /** The first n entries of `rest`, which ends the committed log `log0`, have been indexed. */
    ghost predicate Reassigning(slots: map<nat, Slot>, due: Dues, log0: seq<LogRec>, rest: seq<LogRec>, n: nat)
      reads this, log
    {
      && Updating(slots, due, log0)
      && IndexedUpTo(log.tree, slots, log0, log.Log(), rest, n, due, log.Owned())
      && DistinctAddrs(rest) && TightRun(rest)
    }

    /** The place where the walk over the new entries stands before entry n. */
    ghost predicate WalkAt(curr: Addr, rest: seq<LogRec>, n: nat)
      reads log
    {
      if n == 0 then rest != [] && curr == rest[0].addr
      else
        && n <= |rest| && curr == Addr(rest[n - 1].addr.page, rest[n - 1].addr.off + Len(rest[n - 1].e))
        && (n == |rest| ==> curr == log.tail)
    }

    lemma NextNewEntry(curr: Addr, slots: map<nat, Slot>, due: Dues, log0: seq<LogRec>, rest: seq<LogRec>, n: nat)
      requires Reassigning(slots, due, log0, rest, n) && WalkAt(curr, rest, n) && n < |rest|
      ensures curr != log.tail && curr.page != 0
      ensures (if IsLastEntry(curr, 40) then NextLogPage(log.m, curr) else curr) == rest[n].addr
      ensures Read(log.m.cells, rest[n].addr) == Rec(rest[n].e)
      ensures var w := |log0| - |rest| + n; w < |log.Log()| && log.Log()[w] == rest[n]
    {
      var w := |log0| - |rest| + n;
      NextUntouched(log.tree, slots, log0, log.Log(), rest, n, due, log.Owned());
      if n > 0 {
        PlaceKept(log0, log.Log(), rest, n);
        assert TightAt(rest, n - 1);
      }
      log.StepToEntry(w, curr);
    }

    lemma NextNewReady(slots: map<nat, Slot>, due: Dues, log0: seq<LogRec>, rest: seq<LogRec>, n: nat)
      requires Reassigning(slots, due, log0, rest, n) && n < |rest|
      ensures Updating(slots, due, log0) && IndexedUpTo(log.tree, slots, log0, log.Log(), rest, n, due, log.Owned())
      ensures NewWrite(rest[n]) && rest[n].e.FileWrite? && Due(due, rest[n].addr) == rest[n].e.numPages
      ensures RunApart(rest[n].e, 0, slots, log.Owned()) && DistinctAddrs(rest) && TightRun(rest)
      ensures LaterOnes(rest[n], due, Replay(FRESH, log0).tree)
    {
      LaterAreDue(log0, rest, n, due);
      NextUntouched(log.tree, slots, log0, log.Log(), rest, n, due, log.Owned());
    }

    lemma NextNewDone(tree0: Index, slots: map<nat, Slot>, log0: seq<LogRec>, log1: seq<LogRec>, rest: seq<LogRec>,
                      n: nat, due: Dues, free0: set<nat>,
                      slots': map<nat, Slot>, due': Dues, at: Addr)
      requires IndexedUpTo(tree0, slots, log0, log1, rest, n, due, free0) && n < |rest| && DistinctAddrs(rest)
               && TightRun(rest)
      requires Updating(slots', due', log0) && rest[n].e.FileWrite? && slots' == Assign(slots, rest[n].addr, rest[n].e)
      requires Due(due', rest[n].addr) == 0 && forall a :: a != rest[n].addr ==> Due(due', a) == Due(due, a)
      requires log.Owned() == free0 + BlocksIn(slots, rest[n].e.pgoff, rest[n].e.pgoff + rest[n].e.numPages)
      requires at == rest[n].addr
      requires log.tail == Addr(rest[|rest| - 1].addr.page, rest[|rest| - 1].addr.off + Len(rest[|rest| - 1].e))
      ensures Reassigning(slots', due', log0, rest, n + 1) && WalkAt(Addr(at.page, at.off + 40), rest, n + 1)
    {
      hide Covers, Assign, BlocksIn, InodeLog.Log, Sound, AfterOk, Ahead, OnlyCounts;
      IndexedOneMore(tree0, log.tree, slots, log0, log1, log.Log(), rest, n, due, due', free0, log.Owned());
      assert Len(rest[n].e) == 40;
    }

    /** One round of the walk: finds the next new entry and indexes it. */
    method ReassignNext(curr: Addr, ghost slots: map<nat, Slot>, ghost due: Dues, ghost log0: seq<LogRec>,
                        ghost rest: seq<LogRec>, ghost n: nat, ghost slots0: map<nat, Slot>)
      returns (curr': Addr, ghost slots': map<nat, Slot>, ghost due': Dues)
      requires Reassigning(slots, due, log0, rest, n) && WalkAt(curr, rest, n) && n < |rest|
      requires NoneLost(slots0, slots, log.Owned())
      requires log.tail == Addr(rest[|rest| - 1].addr.page, rest[|rest| - 1].addr.off + Len(rest[|rest| - 1].e))
      modifies log`m, log`lay, log`tree, log`pool, log`home, log`back, log`after
      ensures Reassigning(slots', due', log0, rest, n + 1) && WalkAt(curr', rest, n + 1)
              && log.lay.pages == old(log.lay.pages) && NoneLost(slots0, slots', log.Owned())
      ensures Grew(old(log.back), old(log.Owned()), log.back, log.Owned())
    {
      hide *;
      NextNewEntry(curr, slots, due, log0, rest, n);
      NextNewReady(slots, due, log0, rest, n);
      var at := if IsLastEntry(curr, 40) then NextLogPage(log.m, curr) else curr;
      var e := Read(log.m.cells, at).e;
      slots', due' := AssignWriteEntry(LogRec(at, e), |log0| - |rest| + n, slots, due, log0);
      AssignLosesNone(slots0, slots, old(log.Owned()), LogRec(at, e));
      NextNewDone(old(log.tree), slots, log0, old(log.Log()), rest, n, due, old(log.Owned()), slots', due', at);
      curr' := Addr(at.page, at.off + 40);
    }

    /** Indexes the entries of a committed write, walking them on media. */
    method ReassignFileTree(begin: Addr, ghost slots: map<nat, Slot>, ghost due: Dues, ghost log0: seq<LogRec>,
                            ghost rest: seq<LogRec>)
      returns (ghost slots': map<nat, Slot>, ghost due': Dues)
      requires Reassigning(slots, due, log0, rest, 0) && rest != [] && begin == rest[0].addr
      requires log.tail == Addr(rest[|rest| - 1].addr.page, rest[|rest| - 1].addr.off + Len(rest[|rest| - 1].e))
      modifies log`m, log`lay, log`tree, log`pool, log`home, log`back, log`after
      ensures Reassigning(slots', due', log0, rest, |rest|) && log.lay.pages == old(log.lay.pages)
      ensures NoneLost(slots, slots', log.Owned())
      ensures Grew(old(log.back), old(log.Owned()), log.back, log.Owned())
    {
      hide Reassigning, NoneLost, Grew, InodeLog.Owned;
      SelfNoneLost(slots, log.Owned());
      GrewNone(log.back, log.Owned());
      var curr := begin;
      slots', due' := slots, due;
      ghost var n: nat := 0;
      while curr != log.tail
        invariant n <= |rest| && log.lay.pages == old(log.lay.pages)
        invariant Reassigning(slots', due', log0, rest, n) && WalkAt(curr, rest, n)
        invariant NoneLost(slots, slots', log.Owned())
        invariant Grew(old(log.back), old(log.Owned()), log.back, log.Owned())
        decreases |rest| - n
      {
        ghost var back1, owned1 := log.back, log.Owned();
        if n < |rest| {
          NextNewEntry(curr, slots', due', log0, rest, n);
        }
        curr, slots', due' := ReassignNext(curr, slots', due', log0, rest, n, slots);
        GrewMore(old(log.back), old(log.Owned()), back1, owned1, log.back, log.Owned());
        n := n + 1;
      }
      if n < |rest| {
        NextNewEntry(curr, slots', due', log0, rest, n);
      }
    }

    /** Once all entries are indexed the file is in order again. */
    lemma AllIndexed(slots: map<nat, Slot>, due: Dues, log0: seq<LogRec>, rest: seq<LogRec>)
      requires Reassigning(slots, due, log0, rest, |rest|) && Sound(0, log0) && DistinctAddrs(log0)
      ensures FileOk(log.tree, log.Log(), Replay(FRESH, log0).size)
      ensures Replay(FRESH, log.Log()) == Replay(FRESH, log0) && BlocksApart(Replay(FRESH, log0).tree, log.Owned())
      ensures slots == Replay(FRESH, log0).tree
      ensures AfterOk(log.after, Replay(FRESH, log0), log.data)
    {
      hide Ahead;
      assert log0[..|log0|] == log0;
      NothingDue(log.tree, log.Log(), due, rest);
      CountsKeepReplay(log0, log.Log(), log.tree);
      CountsKeepSound(log0, log.Log(), log.tree);
    }

    // ----- the copy-on-write write --------------------------------------------------------------

    /** The page map of the committed file. */
    ghost function FileBlocks(): map<nat, nat>
      reads log`lay, log`k, log`j
    {
      Blocks(Replay(FRESH, log.Log()).tree)
    }

    /** The block behind a page, through the index and the entry it points at. */
    method LookupSlot(p: nat, ghost slots: map<nat, Slot>) returns (found: bool, block: nat)
      requires log.Inv() && Matches(log.tree, slots) && AllGiven(slots, log.Log()) && Counted(log.tree, log.Log(),
               map[])
      ensures found <==> p in slots
      ensures found ==> block == slots[p].block
    {
      found, block := p in log.tree, 0;
      if found {
        ghost var q := FindOwner(log.tree, slots, log.Log(), map[], p);
        log.CellAt(q);
        block := BlockOf(Read(log.m.cells, log.tree[p]).e, p);
      }
    }

    method LookupBlock(p: nat) returns (found: bool, block: nat)
      requires log.Inv() && FileOk(log.tree, log.Log(), size)
      ensures found <==> p in FileBlocks()
      ensures found ==> block == FileBlocks()[p]
    {
      MatchesIsIndexed(log.tree, log.Log());
      found, block := LookupSlot(p, Replay(FRESH, log.Log()).tree);
    }

    /** Between two stores of a write: the log is safe and the old file stands. */
    ghost predicate Storing()
      reads this, log
    {
      && log.Writing() && FileOk(log.tree, log.Log(), size)
      && log.blocks0 == FileBlocks()
    }

    lemma StoringSafe()
      requires Storing()
      ensures log.Writing() && log.Inv() && FileOk(log.tree, log.Log(), size)
      ensures log.TraceSafe() && Safe(log.Img(), log.base) && OldKept(FileBlocks(), log.data, log.data0)
    {
      log.NowSafe();
    }

    /** Stores to blocks that the old file does not use. */
    method StoreBytes(at: nat, bytes: seq<Byte>, ghost block: nat, ghost n: nat)
      requires Storing() && Unused(FileBlocks(), block, n) && block * BLOCK <= at && at + |bytes| <= (block + n) * BLOCK
      modifies log`data, log`trace
      ensures Storing() && log.data == Store(old(log.data), at, bytes)
    {
      hide FileOk, Unused, Collected, Indexed, Store, OldKept, InodeLog.Inv, InodeLog.TraceSafe, InodeLog.Log,
           InodeLog.Rest;
      StoringSafe();
      log.StoreData(at, bytes, block, n);
    }

    /** The bytes of a page that the write does not cover: those of the old block, zeros for a hole. */
    method OldBytesOf(page: nat, from: nat, len: nat, ghost data0: Mem) returns (bytes: seq<Byte>)
      requires Storing() && from + len <= BLOCK && OldKept(FileBlocks(), log.data, data0)
      ensures |bytes| == len && OldBytes(bytes, FileBlocks(), data0, page, from)
    {
      hide FileOk, OldKept, OldBytes, FileBlocks, InodeLog.Inv, InodeLog.Writing, Load;
      StoringSafe();
      var found, b := LookupBlock(page);
      bytes := if found then Load(log.data, b * BLOCK + from, len) else Zeros(len);
      OldBytesFound(FileBlocks(), log.data, data0, page, from, len);
    }

    /** Fills the parts of the first and last block that the write does not cover. */
    method HandleHeadTailBlocks(pos: nat, count: nat, block: nat, ghost data0: Mem)
      requires Storing()
      requires 0 < count && Unused(FileBlocks(), block, BlocksFor(pos, count)) && OldKept(FileBlocks(), log.data, data0)
      modifies log`data, log`trace
      ensures Storing() && SameBut(log.data, old(log.data), block, BlocksFor(pos, count))
      ensures HeadOk(log.data, FileBlocks(), data0, block, pos / BLOCK, pos % BLOCK)
      ensures TailOk(log.data, FileBlocks(), data0, block, BlocksFor(pos, count), pos / BLOCK, pos % BLOCK + count)
    {
      hide OldKept, HeadOk, TailOk, SameBut, Unused, FileBlocks, OldBytes, Storing, Store;
      var offset, n, start := pos % BLOCK, BlocksFor(pos, count), pos / BLOCK;
      ghost var blocks := FileBlocks();
      FillNothing(log.data, blocks, data0, block, n, start, pos % BLOCK + count);
      LastBlock(pos, count);
      if offset != 0 {
        var bytes := OldBytesOf(start, 0, offset, data0);
        FillHead(log.data, blocks, data0, block, n, start, bytes);
        OldStaysKept(blocks, log.data, Store(log.data, block * BLOCK, bytes), data0, block, n);
        StoreBytes(block * BLOCK, bytes, block, n);
      }
      ghost var data1 := log.data;
      var eoff := (pos + count) % BLOCK;
      if eoff != 0 {
        var bytes := OldBytesOf(start + n - 1, eoff, BLOCK - eoff, data0);
        FillTail(log.data, blocks, data0, block, n, start, eoff, bytes, offset);
        StoreBytes((block + n - 1) * BLOCK + eoff, bytes, block, n);
      } else {
        FillNothing(log.data, blocks, data0, block, n, start, pos % BLOCK + count);
      }
      SameButTrans(old(log.data), data1, log.data, block, n);
    }

    /** Fills the blocks of a chunk: old bytes around, user data in the middle. */
    method FillChunk(pos: nat, chunk: seq<Byte>, block: nat, n: nat)
      requires Storing()
      requires 0 < |chunk| && n == BlocksFor(pos, |chunk|) && Unused(FileBlocks(), block, n)
      modifies log`data, log`trace
      ensures Storing() && SameBut(log.data, old(log.data), block, n)
      ensures Filled(log.data, FileBlocks(), old(log.data), block, n, pos / BLOCK, pos, chunk)
    {
      hide Storing, HeadOk, TailOk, SameBut, Unused, FileBlocks, Filled, OldKept, Store;
      ghost var data0, blocks := log.data, FileBlocks();
      var offset := pos % BLOCK;
      SelfKept(blocks, log.data);
      FillNothing(log.data, blocks, data0, block, n, pos / BLOCK, offset + |chunk|);
      LastBlock(pos, |chunk|);
      if offset != 0 || (offset + |chunk|) % BLOCK != 0 {
        HandleHeadTailBlocks(pos, |chunk|, block, data0);
      }
      UserBytes(log.data, data0, blocks, block, n, pos, chunk);
      StoreBytes(block * BLOCK + offset, chunk, block, n);
    }

    /** The attributes and the link count have not changed since the operation began. */
    ghost predicate HeadersOk()
      reads log`lay, log`k, log`j, log`base, log`heads0, log`lastSetattr, log`lastLink
    {
      HeadersKept(log.base, log.heads0, log.Log(), log.Heads())
    }

    /** The entries for `len` bytes at `pos0` have been written behind the old file, whose page map is `blocks0`. */
    ghost predicate WritesLog(blocks0: map<nat, nat>, pos0: nat, len: nat)
      reads this`size, log`tree, log`lay, log`k, log`j, log`pool, log`blocks0, log`base, log`heads0, log`lastSetattr,
            log`lastLink
    {
      && WriteState(log.tree, log.Log(), log.Rest(), size, log.Owned())
      && HeadersOk()
      && log.blocks0 == FileBlocks() == blocks0
      && SizeWith(log.Log(), log.Rest()) == (if len == 0 then size else Max(size, pos0 + len))
      && (len == 0 <==> log.Rest() == [])
    }

    /** `bytes` have been written at `pos0`, but not committed: `blocks0` and `data0` are the old file. */
    ghost predicate Writes(blocks0: map<nat, nat>, data0: Mem, pos0: nat, bytes: seq<Byte>)
      reads this, log
    {
      && log.Writing() && WritesLog(blocks0, pos0, |bytes|) && log.data0 == data0
      && Content(BlocksWith(log.Log(), log.Rest()), log.data, blocks0, data0, pos0, bytes)
    }

    /** The entry for a chunk. */
    function ChunkEntry(pos: nat, len: nat, block: nat, n: nat): Entry
      reads this`size
    {
      FileWrite(pos / BLOCK, n, 0, block, Max(pos + len, size))
    }

    /** The writer stands behind the last entry it has written. */
    ghost predicate StandsAt(from: Addr)
      reads log`head, log`tail, log`lay, log`k, log`j
    {
      && log.GoesOnAt(from)
      && var rest := log.Rest();
         rest != [] ==> from == Addr(rest[|rest| - 1].addr.page, rest[|rest| - 1].addr.off + Len(rest[|rest| - 1].e))
    }

    /** The blocks of the next chunk have been taken from the allocator. */
    ghost predicate ChunkReserved(pos: nat, len: nat, block: nat, n: nat)
      reads this`size, log`lay, log`k, log`j, log`pool
    {
      && 1 <= n && 1 <= block && AllWrites(log.Rest())
      && Reserved(ChunkEntry(pos, len, block, n), log.Rest(), Replay(FRESH, log.Log()).tree, log.Owned())
    }

    /** Before the chunk is filled: nothing that is in use lies in its blocks. */
    lemma ChunkUnused(blocks0: map<nat, nat>, data0: Mem, pos0: nat, bytes: seq<Byte>, pos: nat, len: nat, block: nat,
                      n: nat)
      requires Writes(blocks0, data0, pos0, bytes) && ChunkReserved(pos, len, block, n)
      ensures Storing() && FileBlocks() == blocks0 && WritesLog(blocks0, pos0, |bytes|)
      ensures Unused(BlocksWith(log.Log(), log.Rest()), block, n) && Unused(blocks0, block, n)
      ensures OldKept(blocks0, log.data, data0)
      ensures Content(BlocksWith(log.Log(), log.Rest()), log.data, blocks0, data0, pos0, bytes)
    {
      ReservedUnused(log.tree, log.Log(), log.Rest(), size, log.Owned(), ChunkEntry(pos, len, block, n));
    }

    /** Fills the blocks of the next chunk. */
    method PrepareChunk(pos: nat, chunk: seq<Byte>, block: nat, n: nat,
                        ghost blocks0: map<nat, nat>, ghost data0: Mem, ghost pos0: nat, ghost bytes: seq<Byte>)
      requires Writes(blocks0, data0, pos0, bytes) && ChunkReserved(pos, |chunk|, block, n)
      requires 0 < |chunk| && n == BlocksFor(pos, |chunk|) && pos == pos0 + |bytes| && (bytes == [] || pos % BLOCK == 0)
      modifies log`data, log`trace
      ensures Writes(blocks0, data0, pos0, bytes) && ChunkReserved(pos, |chunk|, block, n)
      ensures Content(BlocksWith(log.Log(), log.Rest()) + ChunkMap(pos / BLOCK, n, block), log.data, blocks0, data0,
              pos0, bytes + chunk)
    {
      hide WritesLog, ChunkReserved, Storing, SameBut, Unused, Filled, OldKept, Content, BlocksWith, FileBlocks,
           ChunkMap, InodeLog.Writing,
           BlocksFor, InodeLog.Log, InodeLog.Rest, InodeLog.Inv, InodeLog.TraceSafe, FileOk;
      ChunkUnused(blocks0, data0, pos0, bytes, pos, |chunk|, block, n);
      ghost var before := log.data;
      FillChunk(pos, chunk, block, n);
      LastBlock(pos, |chunk|);
      ghost var cur := BlocksWith(log.Log(), log.Rest());
      ContentStays(cur, before, log.data, blocks0, data0, pos0, bytes, block, n);
      ChunkContent(cur, before, log.data, blocks0, data0, pos0, bytes, block, n, chunk);
      StoringSafe();
    }

    /** The file after its log was collected: nothing of it has changed. */
    lemma AfterGc(log0: seq<LogRec>, tree0: Index, ll0: Addr, rest: seq<LogRec>, mid: seq<LogRec>, moves: map<Addr,
                  Addr>, owned0: set<nat>)
      requires WriteState(tree0, log0, rest, size, owned0) && log.Inv() && log.Owned() <= owned0
      requires GcLog(log0, tree0, ll0, log.Log(), log.tree, mid, moves)
      ensures WriteState(log.tree, log.Log(), rest, size, log.Owned())
      ensures BlocksWith(log.Log(), rest) == BlocksWith(log0, rest) && SizeWith(log.Log(), rest) == SizeWith(log0, rest)
      ensures FileBlocks() == Blocks(Replay(FRESH, log0).tree)
      ensures forall e: Entry :: e.FileWrite? && Reserved(e, rest, Replay(FRESH, log0).tree, owned0) ==>
                Reserved(e, rest, Replay(FRESH, log.Log()).tree, log.Owned())
    {
      log.LogOnMedia();
      WriteGc(log0, tree0, ll0, log.Log(), log.tree, mid, moves, rest, size, owned0);
      FewerOwned(log.tree, log.Log(), rest, size, owned0, log.Owned());
      GcKeepsFile(log0, tree0, ll0, log.Log(), log.tree, mid, moves);
      forall e: Entry | e.FileWrite? && Reserved(e, rest, Replay(FRESH, log0).tree, owned0)
        ensures Reserved(e, rest, Replay(FRESH, log.Log()).tree, log.Owned())
      {
        MovedReserved(moves, e, rest, Replay(FRESH, log0).tree, owned0);
        FewerReserved(e, rest, Replay(FRESH, log.Log()).tree, owned0, log.Owned());
      }
    }

    /** What the log code needs to know, and what it will be judged by. */
    lemma BeforeAppend(blocks0: map<nat, nat>, pos0: nat, done: nat, pos: nat, len: nat, block: nat, n: nat, from: Addr)
      requires log.Inv() && WritesLog(blocks0, pos0, done) && ChunkReserved(pos, len, block, n) && StandsAt(from)
      ensures OnMedia(log.Log()) && DistinctAddrs(log.Log()) && HeadersKept(log.base, log.heads0, log.Log(),
              log.Heads())
      ensures log.GoesOnAt(from) && Fits(ChunkEntry(pos, len, block, n)) && AllWrites(log.Rest())
      ensures WriteState(log.tree, log.Log(), log.Rest(), size, log.Owned()) && log.blocks0 == blocks0
      ensures 1 <= n && 1 <= block && Reserved(ChunkEntry(pos, len, block, n), log.Rest(),
              Replay(FRESH, log.Log()).tree, log.Owned())
      ensures Blocks(Replay(FRESH, log.Log()).tree) == blocks0
      ensures SizeWith(log.Log(), log.Rest()) == (if done == 0 then size else Max(size, pos0 + done))
      ensures done == 0 <==> log.Rest() == []
      ensures var rest := log.Rest();
              rest != [] ==> from == Addr(rest[|rest| - 1].addr.page,
                  rest[|rest| - 1].addr.off + Len(rest[|rest| - 1].e))
    {
      log.LogOnMedia();
    }

    /** A collection keeps what the header says. */
    lemma HeadersAfterGc(log0: seq<LogRec>, tree0: Index, h0: Head, owned0: set<nat>, rest: seq<LogRec>,
                         how: Collection)
      requires WriteState(tree0, log0, rest, size, owned0) && OnMedia(log0) && DistinctAddrs(log0)
      requires HeadersKept(log.base, log.heads0, log0, h0)
      requires Gc(log0, tree0, h0, log.Log(), log.tree, log.Heads(), how)
      ensures HeadersOk()
    {
      GcKeepsHeaders(log.base, log.heads0, log0, tree0, h0, log.Log(), log.tree, log.Heads(), how);
    }

    lemma AfterFailedAppend(log0: seq<LogRec>, tree0: Index, h0: Head, owned0: set<nat>, rest: seq<LogRec>,
                            how: Collection,
                            blocks0: map<nat, nat>, pos0: nat, done: nat)
      requires WriteState(tree0, log0, rest, size, owned0) && log.Inv() && log.Owned() <= owned0
               && log.blocks0 == blocks0
      requires Gc(log0, tree0, h0, log.Log(), log.tree, log.Heads(), how) && log.Rest() == rest && HeadersOk()
      requires Blocks(Replay(FRESH, log0).tree) == blocks0 && (done == 0 <==> rest == [])
      requires SizeWith(log0, rest) == (if done == 0 then size else Max(size, pos0 + done))
      ensures WritesLog(blocks0, pos0, done) && BlocksWith(log.Log(), log.Rest()) == BlocksWith(log0, rest)
    {
      AfterGc(log0, tree0, h0.ll, rest, Mid(how, h0), how.moves, owned0);
    }

    lemma AfterAppend(log0: seq<LogRec>, tree0: Index, h0: Head, owned0: set<nat>, rest: seq<LogRec>, how: Collection,
                      blocks0: map<nat, nat>, pos0: nat, done: nat, pos: nat, len: nat, block: nat, n: nat, from: Addr,
                          c: Addr)
      requires WriteState(tree0, log0, rest, size, owned0) && log.Inv() && log.Owned() <= owned0 && AllWrites(rest)
               && log.blocks0 == blocks0
      requires Gc(log0, tree0, h0, log.Log(), log.tree, log.Heads(), how) && HeadersOk()
      requires Blocks(Replay(FRESH, log0).tree) == blocks0 && pos == pos0 + done
      requires SizeWith(log0, rest) == (if done == 0 then size else Max(size, pos0 + done))
      requires 0 < len && n == BlocksFor(pos, len) && 1 <= block
      requires Reserved(ChunkEntry(pos, len, block, n), rest, Replay(FRESH, log0).tree, owned0)
      requires log.Rest() == rest + [LogRec(c, ChunkEntry(pos, len, block, n))]
      requires Tight(from, Len(ChunkEntry(pos, len, block, n)), c)
      requires rest != [] ==> from == Addr(rest[|rest| - 1].addr.page,
               rest[|rest| - 1].addr.off + Len(rest[|rest| - 1].e))
      ensures WritesLog(blocks0, pos0, done + len)
      ensures BlocksWith(log.Log(), log.Rest()) == BlocksWith(log0, rest) + ChunkMap(pos / BLOCK, n, block)
    {
      var e := ChunkEntry(pos, len, block, n);
      AfterGc(log0, tree0, h0.ll, rest, Mid(how, h0), how.moves, owned0);
      LastBlock(pos, len);
      assert pos == pos / BLOCK * BLOCK + pos % BLOCK;
      WriteAppend(log.tree, log.Log(), rest, size, log.Owned(), LogRec(c, e));
    }

    /** Appends the entry of a chunk whose blocks are filled. */
    method AppendChunk(pos: nat, len: nat, block: nat, n: nat, from: Addr, num: nat,
                       ghost blocks0: map<nat, nat>, ghost pos0: nat, ghost done: nat, ghost cur: map<nat, nat>,
                           ghost rest: seq<LogRec>)
      returns (c: Addr, ok: bool)
      requires log.Writing() && WritesLog(blocks0, pos0, done) && ChunkReserved(pos, len, block, n) && StandsAt(from)
      requires pos == pos0 + done && 0 < len && n == BlocksFor(pos, len) && 0 < num
      requires cur == BlocksWith(log.Log(), log.Rest()) && rest == log.Rest()
      modifies log`m, log`head, log`tail, log`trace, log`tore, log`pool, log`home, log`back, log`lay, log`k, log`j,
               log`validBytes,
               log`tree, log`lastSetattr,
               log`lastLink
      ensures log.TraceSafe() && (!ok || c.page == 0 ==> log.NoList(num)) && (ok ==> log.Owned() == old(log.Owned()))
      ensures log.tore <==> old(log.tore) || (old(log.head) == 0 && log.head != 0)
      ensures old(log.head) != 0 ==> log.head != 0
      ensures ok && c.page == 0 ==>
                log.Writing() && WritesLog(blocks0, pos0, done) && BlocksWith(log.Log(), log.Rest()) == cur
      ensures ok && c.page != 0 ==>
                && log.Writing() && WritesLog(blocks0, pos0, done + len)
                && BlocksWith(log.Log(), log.Rest()) == cur + ChunkMap(pos / BLOCK, n, block)
                && log.Rest() == rest + [LogRec(c, ChunkEntry(pos, len, block, n))]
                && log.EndsAt(Addr(c.page, c.off + 40))
    {
      hide WritesLog, ChunkReserved, StandsAt, WriteState, BlocksWith, SizeWith, Reserved, ChunkMap, Gc,
           InodeLog.EndsAt,
           InodeLog.Log, InodeLog.Rest, InodeLog.TraceSafe, Tight, Blocks, InodeLog.GoesOnAt, InodeLog.Owned,
               InodeLog.Heads, InodeLog.Inv,
           HeadersKept, HeadersOk, OnMedia, DistinctAddrs;
      var e := ChunkEntry(pos, len, block, n);
      ghost var log0, tree0, h0, owned0 := log.Log(), log.tree, log.Heads(), log.Owned();
      BeforeAppend(blocks0, pos0, done, pos, len, block, n, from);
      ghost var how;
      c, ok, how := log.Append(e, from, num, log0, rest);
      NoneAtAll(num);
      if ok {
        HeadersAfterGc(log0, tree0, h0, owned0, rest, how);
        if c.page == 0 {
          AfterFailedAppend(log0, tree0, h0, owned0, rest, how, blocks0, pos0, done);
        } else {
          AfterAppend(log0, tree0, h0, owned0, rest, how, blocks0, pos0, done, pos, len, block, n, from, c);
        }
      }
    }

    /** A list without a block has no more than that. */
    lemma NoneAtAll(num: nat)
      requires 0 < num
      ensures log.NoList(1) ==> log.NoList(num)
    {
    }

    /** Takes up to `num` consecutive blocks; none if and only if no processor's list
        has `num` of them. */
    method NewDataBlocks(num: nat) returns (block: nat, n: nat)
      requires 0 < num && log.Inv()
      modifies log`pool
      ensures n <= num && (n == 0 <==> old(log.NoList(num))) && (n == 0 ==> log.pool == old(log.pool))
      ensures Run(block, n) <= old(log.Owned()) && log.Owned() == old(log.Owned()) - Run(block, n)
      ensures log.Inv()
    {
      ghost var from;
      n, block, from := log.NewBlocks(num);
    }

    /** Blocks taken from the allocator are reserved for the chunk. */
    lemma ChunkTaken(blocks0: map<nat, nat>, pos0: nat, done: nat, pos: nat, len: nat, block: nat, n: nat,
                     owned0: set<nat>)
      requires WriteState(log.tree, log.Log(), log.Rest(), size, owned0) && log.blocks0 == FileBlocks() == blocks0
               && 0 !in owned0
      requires SizeWith(log.Log(), log.Rest()) == (if done == 0 then size else Max(size, pos0 + done))
               && (done == 0 <==> log.Rest() == [])
      requires 1 <= n && Run(block, n) <= owned0 && HeadersOk()
      requires log.Owned() == owned0 - Run(block, n)
      ensures WritesLog(blocks0, pos0, done) && ChunkReserved(pos, len, block, n)
    {
      var e := ChunkEntry(pos, len, block, n);
      forall b: nat ensures b in Run(block, n) <==> block <= b < block + n {
        RunHas(block, n, b);
      }
      Reserve(e, log.Rest(), Replay(FRESH, log.Log()).tree, owned0, log.Owned());
      assert block in owned0;
    }

    /** What WritesLog says, for the proofs that keep it closed. */
    lemma WritesLogMeans(blocks0: map<nat, nat>, pos0: nat, done: nat)
      requires log.Inv() && WritesLog(blocks0, pos0, done)
      ensures WriteState(log.tree, log.Log(), log.Rest(), size, log.Owned()) && log.blocks0 == FileBlocks() == blocks0
              && 0 !in log.Owned()
      ensures SizeWith(log.Log(), log.Rest()) == (if done == 0 then size else Max(size, pos0 + done))
              && (done == 0 <==> log.Rest() == [])
      ensures HeadersOk()
    {
    }

    /** Allocates blocks for the next chunk. */
    method ReserveChunk(pos: nat, count: nat, numBlocks: nat, ghost blocks0: map<nat, nat>, ghost pos0: nat,
                        ghost done: nat)
      returns (block: nat, n: nat, len: nat)
      requires log.Inv() && WritesLog(blocks0, pos0, done) && 0 < count && numBlocks == BlocksFor(pos, count)
      modifies log`pool
      ensures n <= numBlocks && (n > 0 ==> len == Min(n * BLOCK - pos % BLOCK, count))
      ensures (n == 0 <==> old(log.NoList(numBlocks))) && (n == 0 ==> log.pool == old(log.pool))
      ensures Run(block, n) <= old(log.Owned()) && log.Owned() == old(log.Owned()) - Run(block, n)
      ensures log.Inv() && WritesLog(blocks0, pos0, done)
      ensures n > 0 ==> ChunkReserved(pos, len, block, n)
    {
      hide WritesLog, ChunkReserved, WriteState, SizeWith, FileBlocks, InodeLog.Owned, InodeLog.Inv, HeadersOk;
      WritesLogMeans(blocks0, pos0, done);
      ghost var owned0 := log.Owned();
      block, n := NewDataBlocks(numBlocks);
      len := 0;
      if n > 0 {
        BlockIsBig(pos, n);
        len := Min(n * BLOCK - pos % BLOCK, count);
        ChunkTaken(blocks0, pos0, done, pos, len, block, n, owned0);
      }
    }

    /** `done` bytes of `buf` have been written, the writer stands at `from`, and
        `numBlocks` blocks are still to come. */
    ghost predicate WriteAt(blocks0: map<nat, nat>, data0: Mem, pos0: nat, buf: seq<Byte>, done: nat, numBlocks: nat,
                            from: Addr)
      reads this, log
    {
      && done <= |buf| && Writes(blocks0, data0, pos0, buf[..done]) && StandsAt(from)
      && (done > 0 ==> log.EndsAt(from))
      && (done < |buf| ==>
            numBlocks == BlocksFor(pos0 + done, |buf| - done) && (done == 0 || (pos0 + done) % BLOCK == 0))
      && (done == |buf| ==> numBlocks == 0)
    }

    lemma OneMoreChunk(blocks0: map<nat, nat>, data0: Mem, pos0: nat, buf: seq<Byte>, done: nat, numBlocks: nat,
                       n: nat, len: nat,
                       block: nat, cur: map<nat, nat>, rest: seq<LogRec>, r: LogRec)
      requires done < |buf| && numBlocks == BlocksFor(pos0 + done, |buf| - done) && 0 < n <= numBlocks
      requires len == Min(n * BLOCK - (pos0 + done) % BLOCK, |buf| - done)
      requires log.Writing() && WritesLog(blocks0, pos0, done + len) && log.data0 == data0
      requires BlocksWith(log.Log(), log.Rest()) == cur + ChunkMap((pos0 + done) / BLOCK, n, block)
      requires Content(cur + ChunkMap((pos0 + done) / BLOCK, n, block), log.data, blocks0, data0, pos0,
               buf[..done] + buf[done..done + len])
      requires log.Rest() == rest + [r] && Len(r.e) == 40 && r.addr.page != 0
      requires log.EndsAt(Addr(r.addr.page, r.addr.off + 40))
      ensures WriteAt(blocks0, data0, pos0, buf, done + len, numBlocks - n, Addr(r.addr.page, r.addr.off + 40))
    {
      hide Content, WritesLog, ChunkMap, BlocksWith, BlocksFor, InodeLog.Log, InodeLog.Rest, InodeLog.Writing;
      ChunkSize(pos0 + done, |buf| - done, n);
      assert buf[..done] + buf[done..done + len] == buf[..done + len];
      StandsBehind(rest, r);
    }

    lemma StandsBehind(rest: seq<LogRec>, r: LogRec)
      requires log.Rest() == rest + [r] && Len(r.e) == 40 && r.addr.page != 0
      requires log.EndsAt(Addr(r.addr.page, r.addr.off + 40))
      ensures StandsAt(Addr(r.addr.page, r.addr.off + 40))
    {
    }

    lemma RunIsEmpty(block: nat, n: nat)
      ensures Run(block, n) == {} <==> n == 0
    {
      RunHas(block, n, block);
    }

    /** An allocation that failed leaves the lists as they are. */
    twostate lemma ListsStay(num: nat)
      ensures log.pool == old(log.pool) && log.home == old(log.home) ==> (log.NoList(num) <==> old(log.NoList(num)))
    {
    }

    /** Writes one chunk.  `took` are the blocks taken for it; when it fails, no
        processor's list has the `asked` blocks asked for last. */
    method WriteChunk(pos0: nat, buf: seq<Byte>, done: nat, numBlocks: nat, from: Addr, num: nat,
                      ghost blocks0: map<nat, nat>, ghost data0: Mem)
      returns (outcome: Outcome, done': nat, numBlocks': nat, c: Addr, ghost asked: nat, ghost took: set<nat>)
      requires WriteAt(blocks0, data0, pos0, buf, done, numBlocks, from) && 0 < numBlocks && 0 < num
      modifies log`data, log`pool, log`home, log`back, log`m, log`head, log`tail, log`trace, log`tore, log`lay, log`k,
               log`j,
               log`validBytes, log`tree,
               log`lastSetattr, log`lastLink
      ensures log.TraceSafe() && (!outcome.Done? ==> 0 < asked <= Max(numBlocks, num) && log.NoList(asked))
      ensures !outcome.Stopped? ==> took <= old(log.Owned()) && log.Owned() == old(log.Owned()) - took
      ensures took == {} <==> old(log.NoList(numBlocks))
      ensures log.tore <==> old(log.tore) || (old(log.head) == 0 && log.head != 0)
      ensures old(log.head) != 0 ==> log.head != 0
      ensures outcome.NoSpace? ==> Writes(blocks0, data0, pos0, buf[..done])
      ensures outcome.Done? ==> took != {}
      ensures outcome.Done? ==>
                && WriteAt(blocks0, data0, pos0, buf, done', numBlocks', Addr(c.page, c.off + 40)) && done < done'
                   && numBlocks' < numBlocks
                && |log.Rest()| == |old(log.Rest())| + 1 && log.Rest()[..|log.Rest()| - 1] == old(log.Rest())
                && log.Rest()[|log.Rest()| - 1].addr == c && c.page != 0
    {
      hide WritesLog, ChunkReserved, StandsAt, BlocksWith, ChunkMap, InodeLog.EndsAt, InodeLog.Rest, InodeLog.Log,
           Content, BlocksFor, FileBlocks,
           Collected, Indexed, InodeLog.Inv, InodeLog.TraceSafe, InodeLog.Owned, InodeLog.NoList, Run;
      done', numBlocks', c, asked, took := done, numBlocks, NOWHERE, numBlocks, {};
      var pos := pos0 + done;
      assert done < |buf|;
      ghost var rest := log.Rest();
      var block, n, len := ReserveChunk(pos, |buf| - done, numBlocks, blocks0, pos0, done);
      took := Run(block, n);
      RunIsEmpty(block, n);
      ListsStay(numBlocks);
      if n == 0 {
        outcome := NoSpace;
        return;
      }
      ChunkSize(pos, |buf| - done, n);
      var chunk := buf[done..done + len];
      PrepareChunk(pos, chunk, block, n, blocks0, data0, pos0, buf[..done]);
      ghost var cur := BlocksWith(log.Log(), log.Rest());
      var ok;
      c, ok := AppendChunk(pos, len, block, n, from, num, blocks0, pos0, done, cur, rest);
      asked := num;
      if !ok {
        outcome := Stopped;
      } else if c.page == 0 {
        outcome := NoSpace;
      } else {
        outcome := Done;
        OneMoreChunk(blocks0, data0, pos0, buf, done, numBlocks, n, len, block, cur, rest,
            LogRec(c, ChunkEntry(pos, len, block, n)));
        done', numBlocks' := done + len, numBlocks - n;
      }
    }

    /** The committed entries are ready to be indexed. */
    lemma ReadyToIndex(log0: seq<LogRec>, rest: seq<LogRec>)
      requires log.Inv() && log.Log() == log0 + rest && log.after == [Crash(log.Img(), log.data)]
               && Shows(log.Img(), log0 + rest)
      requires WriteState(log.tree, log0, rest, size, log.Owned())
      ensures Reassigning(Replay(FRESH, log0).tree, DuesOf(rest), log0 + rest, rest, 0)
      ensures Sound(0, log0 + rest) && DistinctAddrs(log0 + rest)
    {
      log.LogIsDistinct();
      StartIndexing(log.tree, log0, rest, log.Owned());
      RestDistinct(log0, rest);
      SoundConcat(FRESH, log0, rest);
      AheadAtStart(log0, rest, DuesOf(rest));
      AfterMore([], Crash(log.Img(), log.data), Replay(FRESH, log0 + rest), log.data, log0 + rest);
      assert [] + log.after == log.after;
    }

    /** Commits what has been written and indexes it. */
    method CommitWrite(from: Addr, begin: Addr, ghost blocks0: map<nat, nat>, ghost pos0: nat, ghost len: nat,
                       ghost log0: seq<LogRec>, ghost rest: seq<LogRec>)
      requires log.Writing() && WritesLog(blocks0, pos0, len) && 0 < len && StandsAt(from) && log.EndsAt(from)
      requires log0 == log.Log() && rest == log.Rest() && rest != [] && begin == rest[0].addr
      modifies log`pool, log`home, log`back, log`tail, log`k, log`j, log`m, log`lay, log`tree, log`after
      ensures log.Inv() && log.head != 0 && FileOk(log.tree, log.Log(), Max(size, pos0 + len))
      ensures BlocksApart(Replay(FRESH, log.Log()).tree, log.Owned())
      ensures FileBlocks() == BlocksWith(log0, rest) && AfterOk(log.after, Replay(FRESH, log.Log()), log.data)
              && HeadersOk() && NoneLeaked(blocks0, FileBlocks(), log.pool, log.back)
    {
      hide Grew, NoneLost, NoneLeaked, HeadersOk, WriteState, BlocksWith, SizeWith, Reassigning, FileOk, BlocksApart,
           Indexed, FileBlocks, AfterOk,
           Collected,
           InodeLog.EndsAt, InodeLog.GoesOnAt, InodeLog.Inv, InodeLog.Log, InodeLog.Rest, InodeLog.Owned,
               InodeLog.TraceSafe, Updating;
      WritesLogMeans(blocks0, pos0, len);
      BlocksOfLog(log0);
      ghost var h := log.Heads();
      assert HeadersKept(log.base, log.heads0, log0, h) by {
        HeadersMean();
      }
      log.UpdateTail(from, log0, rest);
      ReadyToIndex(log0, rest);
      BeforeIndexing(log0, rest);
      ghost var owned, back0 := log.Owned(), log.back;
      ghost var slots, due := ReassignFileTree(begin, Replay(FRESH, log0).tree, DuesOf(rest), log0 + rest, rest);
      StillThere(slots, due, log0 + rest, rest);
      AllIndexed(slots, due, log0 + rest, rest);
      Unwrap(log0, rest);
      HeadersStay(slots, due, log0, rest);
      SupersededFreed(log0, slots, owned, blocks0, back0);
    }

    lemma BeforeIndexing(log0: seq<LogRec>, rest: seq<LogRec>)
      requires WriteState(log.tree, log0, rest, size, log.Owned())
      ensures BlocksApart(Replay(FRESH, log0).tree, log.Owned()) && PageSet(log.lay.pages) <= log.Owned()
    {
    }

    /** The blocks that the write supersedes are free. */
    lemma SupersededFreed(log0: seq<LogRec>, slots: map<nat, Slot>, owned0: set<nat>, blocks0: map<nat, nat>,
                          back0: map<nat, nat>)
      requires NoneLost(Replay(FRESH, log0).tree, slots, log.Owned()) && slots == Replay(FRESH, log.Log()).tree
      requires BlocksApart(Replay(FRESH, log0).tree, owned0) && PageSet(log.lay.pages) <= owned0
      requires Blocks(Replay(FRESH, log0).tree) == blocks0 && Grew(back0, owned0, log.back, log.Owned())
      ensures NoneLeaked(blocks0, FileBlocks(), log.pool, log.back)
    {
      NothingLeaked(Replay(FRESH, log0).tree, slots, owned0, PageSet(log.lay.pages), log.pool, back0, log.back);
    }

    lemma LinkStays()
      requires HeadersOk() && LinkOk(log.base, log.heads0.ll)
      ensures LinkOk(log.Log(), log.lastLink)
    {
    }

    lemma SameHeaders(base: seq<LogRec>, h: Head)
      ensures HeadersKept(base, h, base, h)
    {
    }

    lemma HeadersMean()
      requires HeadersOk()
      ensures HeadersKept(log.base, log.heads0, log.Log(), log.Heads())
    {
    }

    lemma HeadersStay(slots: map<nat, Slot>, due: Dues, log0: seq<LogRec>, rest: seq<LogRec>)
      requires HeadersKept(log.base, log.heads0, log0, log.Heads()) && Replay(FRESH, log.Log()) == Replay(FRESH,
               log0 + rest)
      requires Reassigning(slots, due, log0 + rest, rest, |rest|)
      ensures HeadersOk()
    {
      CommitKeepsHeaders(log.base, log.heads0, log0, rest, log.Log(), log.Heads());
    }

    lemma StillThere(slots: map<nat, Slot>, due: Dues, log0: seq<LogRec>, rest: seq<LogRec>)
      requires Reassigning(slots, due, log0, rest, |rest|)
      ensures log.Inv()
    {
    }

    lemma Unwrap(log0: seq<LogRec>, rest: seq<LogRec>)
      requires Replay(FRESH, log.Log()) == Replay(FRESH, log0 + rest)
      ensures FileBlocks() == BlocksWith(log0, rest) && SizeWith(log0, rest) == Replay(FRESH, log0 + rest).size
    {
    }

    /** An operation begins: nothing has been written yet. */
    lemma NothingWritten(pos: nat)
      requires log.Writing() && log.Rest() == [] && FileOk(log.tree, log.Log(), size)
      requires BlocksApart(Replay(FRESH, log.Log()).tree, log.Owned()) && log.blocks0 == FileBlocks()
               && log.data0 == log.data
      requires log.GoesOnAt(log.tail) && log.base == log.Log() && log.heads0 == log.Heads()
      ensures Writes(FileBlocks(), log.data, pos, []) && StandsAt(log.tail)
    {
      assert log.Log() + [] == log.Log();
      ReplayConcat(FRESH, log.Log(), []);
    }

    /** What a write that did not commit leaves: the old file. */
    lemma OldFileStands(blocks0: map<nat, nat>, data0: Mem, pos0: nat, bytes: seq<Byte>)
      requires Writes(blocks0, data0, pos0, bytes) && LinkOk(log.base, log.heads0.ll)
      ensures Valid() && FileBlocks() == blocks0 && OldKept(blocks0, log.data, data0) && HeadersOk()
    {
    }

    lemma SameNoneLeaked(blocks: map<nat, nat>, pool: set<nat>, back: map<nat, nat>)
      ensures NoneLeaked(blocks, blocks, pool, back)
    {
      forall p | p in blocks ensures blocks[p] in blocks.Values {
        assert p in blocks.Keys;
      }
    }

    lemma NothingToWrite(blocks0: map<nat, nat>, data0: Mem, pos: nat)
      ensures Content(blocks0, data0, blocks0, data0, pos, [])
    {
    }

    lemma BlocksOfLog(log0: seq<LogRec>)
      requires log.Log() == log0
      ensures FileBlocks() == Blocks(Replay(FRESH, log0).tree)
    {
    }

    lemma IndexInUse()
      requires Valid()
      ensures log.Inv() && Indexed(log.tree, log.Log())
    {
      MatchesIsIndexed(log.tree, log.Log());
    }

    lemma StartWriting(blocks0: map<nat, nat>, data0: Mem, pos: nat, buf: seq<Byte>, from: Addr)
      requires Writes(blocks0, data0, pos, []) && StandsAt(from) && buf != []
      ensures WriteAt(blocks0, data0, pos, buf, 0, BlocksFor(pos, |buf|), from) && log.Rest() == [] && log.TraceSafe()
    {
      assert buf[..0] == [];
    }

    lemma AllWritten(blocks0: map<nat, nat>, data0: Mem, pos: nat, buf: seq<Byte>, done: nat, from: Addr)
      requires WriteAt(blocks0, data0, pos, buf, done, 0, from) && buf != []
      ensures log.Writing() && WritesLog(blocks0, pos, |buf|) && StandsAt(from) && log.EndsAt(from) && log.Rest() != []
      ensures Content(BlocksWith(log.Log(), log.Rest()), log.data, blocks0, data0, pos, buf)
    {
      assert buf[..|buf|] == buf;
    }

    /** Where the first of the new entries lies. */
    ghost predicate BeginsAt(begin: Addr)
      reads log
    {
      if log.Rest() == [] then begin.page == 0 else begin.page != 0 && begin == log.Rest()[0].addr
    }

    lemma BeginStays(begin: Addr, rest: seq<LogRec>, c: Addr)
      requires if rest == [] then begin.page == 0 else begin.page != 0 && begin == rest[0].addr
      requires |log.Rest()| == |rest| + 1 && log.Rest()[..|log.Rest()| - 1] == rest
               && log.Rest()[|log.Rest()| - 1].addr == c && c.page != 0
      ensures BeginsAt(if begin.page == 0 then c else begin)
    {
      if rest != [] {
        assert log.Rest()[..|log.Rest()| - 1][0] == log.Rest()[0];
      }
    }

    /** Writes all chunks of `buf`. */
    method WriteChunks(pos: nat, buf: seq<Byte>, num: nat, ghost blocks0: map<nat, nat>, ghost data0: Mem)
      returns (outcome: Outcome, begin: Addr, from: Addr, ghost asked: nat, ghost lost: set<nat>)
      requires Writes(blocks0, data0, pos, []) && StandsAt(log.tail) && buf != [] && 0 < num
      modifies log`data, log`pool, log`home, log`back, log`m, log`head, log`tail, log`trace, log`tore, log`lay, log`k,
               log`j,
               log`validBytes, log`tree,
               log`lastSetattr, log`lastLink
      ensures log.TraceSafe()
      ensures !outcome.Done? ==> 0 < asked <= Max(BlocksFor(pos, |buf|), num) && log.NoList(asked)
      ensures outcome.NoSpace? ==> Lost(old(log.Owned()), lost)
      ensures outcome.NoSpace? ==> (lost == {} <==> old(log.NoList(BlocksFor(pos, |buf|))))
      ensures log.tore <==> old(log.tore) || (old(log.head) == 0 && log.head != 0)
      ensures outcome.NoSpace? ==> exists n :: 0 <= n <= |buf| && Writes(blocks0, data0, pos, buf[..n])
      ensures outcome.Done? ==>
                && log.Writing() && WritesLog(blocks0, pos, |buf|) && StandsAt(from) && log.EndsAt(from)
                   && log.Rest() != [] && BeginsAt(begin)
                && Content(BlocksWith(log.Log(), log.Rest()), log.data, blocks0, data0, pos, buf)
    {
      hide WritesLog, Writes, WriteAt, StandsAt, Content, BlocksWith, InodeLog.TraceSafe, InodeLog.Log, InodeLog.Rest,
           InodeLog.EndsAt, BlocksFor,
           InodeLog.Writing, InodeLog.Owned, InodeLog.NoList;
      outcome, begin, from, asked, lost := Done, NOWHERE, log.tail, 0, {};
      var done, numBlocks: nat := 0, BlocksFor(pos, |buf|);
      ghost var total := numBlocks;
      StartWriting(blocks0, data0, pos, buf, from);
      ghost var head0 := log.head;
      while numBlocks > 0
        invariant WriteAt(blocks0, data0, pos, buf, done, numBlocks, from)
        invariant log.TraceSafe() && BeginsAt(begin) && outcome.Done?
        invariant log.tore <==> old(log.tore) || (head0 == 0 && log.head != 0)
        invariant head0 != 0 ==> log.head != 0
        invariant Lost(old(log.Owned()), lost) && numBlocks <= total
        invariant if lost == {} then numBlocks == total && log.pool == old(log.pool) && log.home == old(log.home)
                  else !old(log.NoList(total))
        decreases numBlocks
      {
        ghost var rest, before := log.Rest(), done;
        ListsStay(total);
        ghost var took;
        WroteSoFar(blocks0, data0, pos, buf, done, numBlocks, from);
        var c;
        outcome, done, numBlocks, c, asked, took := WriteChunk(pos, buf, done, numBlocks, from, num, blocks0, data0);
        lost := lost + took;
        if !outcome.Done? {
          assert outcome.NoSpace? ==> Writes(blocks0, data0, pos, buf[..before]);
          return;
        }
        BeginStays(begin, rest, c);
        if begin.page == 0 {
          begin := c;
        }
        from := Addr(c.page, c.off + 40);
      }
      AllWritten(blocks0, data0, pos, buf, done, from);
    }

    /** Of the blocks `owned0`, those in `lost` are neither free nor in the log. */
    ghost predicate Lost(owned0: set<nat>, lost: set<nat>)
      reads log`pool, log`lay
    {
      lost <= owned0 && log.Owned() == owned0 - lost
    }

    lemma WroteSoFar(blocks0: map<nat, nat>, data0: Mem, pos: nat, buf: seq<Byte>, done: nat, numBlocks: nat,
                     from: Addr)
      requires WriteAt(blocks0, data0, pos, buf, done, numBlocks, from)
      ensures done <= |buf|
    {
    }

    /** Commits the write, indexes it and sets the size. */
    method FinishWrite(from: Addr, begin: Addr, ghost blocks0: map<nat, nat>, pos: nat, len: nat,
                       ghost log0: seq<LogRec>, ghost rest: seq<LogRec>)
      requires log.Writing() && WritesLog(blocks0, pos, len) && 0 < len && StandsAt(from) && log.EndsAt(from)
      requires log0 == log.Log() && rest == log.Rest() && rest != [] && begin == rest[0].addr
      requires LinkOk(log.base, log.heads0.ll)
      modifies this`size, log`pool, log`home, log`back, log`tail, log`k, log`j, log`m, log`lay, log`tree, log`after
      ensures Valid() && log.head != 0 && size == Max(old(size), pos + len)
      ensures HeadersKept(log.base, log.heads0, log.Log(), log.Heads()) && log.ListsFrom(log.home0)
      ensures FileBlocks() == BlocksWith(log0, rest) && AfterOk(log.after, Replay(FRESH, log.Log()), log.data)
              && NoneLeaked(blocks0, FileBlocks(), log.pool, log.back)
    {
      hide WritesLog, StandsAt, BlocksWith, FileBlocks, InodeLog.Log, InodeLog.Rest, AfterOk, InodeLog.Writing,
           InodeLog.EndsAt, FileOk, BlocksApart, InodeLog.Inv, InodeLog.Owned, HeadersOk, HeadersKept, LinkOk,
           NoneLeaked, Replay, Blocks, InodeLog.ListsFrom;
      CommitWrite(from, begin, blocks0, pos, len, log0, rest);
      log.ListsAre();
      HeadersMean();
      LinkStays();
      if pos + len > size {
        size := pos + len;
      }
    }

    lemma TraceMeans()
      requires log.TraceSafe()
      ensures TraceOk(log.trace, log.base, log.tore) && AllKept(log.trace, log.blocks0, log.data0)
      ensures OldKept(log.blocks0, log.data, log.data0)
    {
    }

    /** Nothing has been written yet. */
    ghost method BeginWrite(pos: nat)
      requires Valid()
      modifies log`lay, log`base, log`heads0, log`trace, log`tore, log`blocks0, log`data0, log`home0, log`back
      ensures log.home0 == log.home
      ensures Writes(FileBlocks(), log.data, pos, []) && StandsAt(log.tail) && log.TraceSafe()
      ensures log.Log() == old(log.Log()) && FileBlocks() == old(FileBlocks()) && log.Owned() == old(log.Owned())
      ensures log.base == log.Log() && log.heads0 == log.Heads() == old(log.Heads()) && !log.tore
      ensures log.blocks0 == FileBlocks() && log.data0 == log.data && LinkOk(log.base, log.heads0.ll)
    {
      hide WritesLog, Writes, StandsAt, FileBlocks, InodeLog.Log, InodeLog.Rest, TraceOk, AllKept, InodeLog.GoesOnAt,
           FileOk, BlocksApart, InodeLog.Inv, Indexed, InodeLog.Owned, LinkOk, OldKept, Collected, Replay, Blocks;
      ghost var blocks0 := FileBlocks();
      IndexInUse();
      BlocksOfLog(log.Log());
      log.Begin(blocks0);
      BlocksOfLog(log.Log());
      NothingWritten(pos);
    }

    /** Copy-on-write write of `buf` at `pos`.  `num` is the number of pages to ask
        for when the log is full.

        Done: every byte of the file is the one of `buf` where it was written and
        the old one elsewhere; blocks no longer mapped are free.  NoSpace: the file is
        as it was, but the blocks taken so far, `lost`, are neither free nor in use;
        there are none of them if and only if the first request failed.  Stopped: the
        kernel stopped on a null pointer in the middle of a collection.  Both come
        only when no processor's list has the `asked` blocks asked for last.

        Before the commit, every image but a torn one holds the old file: its log
        is a collected form of the old one, its bytes are untouched.  One image is
        torn if and only if the write gave the log its first page.  From the
        commit on, every image holds the new file. */
    method CowWrite(pos: nat, buf: seq<Byte>, num: nat)
      returns (outcome: Outcome, ghost asked: nat, ghost lost: set<nat>)
      requires Valid() && 0 < num
      modifies this`size, log
      ensures !outcome.Stopped? ==> Valid() && HeadersKept(old(log.Log()), old(log.Heads()), log.Log(), log.Heads())
      ensures !outcome.Done? ==>
                && buf != [] && 0 < asked <= Max(BlocksFor(pos, |buf|), num) && log.NoList(asked)
                && OldKept(old(FileBlocks()), log.data, old(log.data))
      ensures outcome.NoSpace? ==>
                buf != [] && Lost(old(log.Owned()), lost) && (lost == {} <==> old(log.NoList(BlocksFor(pos, |buf|))))
      ensures outcome.Done? ==>
                && size == (if buf == [] then old(size) else Max(old(size), pos + |buf|))
                   && (buf != [] ==> log.head != 0)
                && Content(FileBlocks(), log.data, old(FileBlocks()), old(log.data), pos, buf)
                && NoneLeaked(old(FileBlocks()), FileBlocks(), log.pool, log.back)
      ensures outcome.NoSpace? ==> size == old(size) && FileBlocks() == old(FileBlocks())
      ensures buf != [] && !outcome.Stopped? ==> log.ListsFrom(old(log.home))
      ensures buf != [] ==>
                && log.base == old(log.Log()) && TraceOk(log.trace, log.base, log.tore)
                && (log.tore <==> old(log.head) == 0 && log.head != 0)
                && AllKept(log.trace, old(FileBlocks()), old(log.data))
      ensures buf != [] && outcome.Done? ==> AfterOk(log.after, Replay(FRESH, log.Log()), log.data)
    {
      hide WritesLog, Writes, StandsAt, Content, OldKept, BlocksWith, FileBlocks, InodeLog.Log, InodeLog.Rest,
           TraceOk, AllKept, AfterOk, InodeLog.Writing, InodeLog.EndsAt, InodeLog.GoesOnAt, FileOk, BlocksApart,
           InodeLog.Inv, Indexed, InodeLog.Owned, HeadersOk, HeadersKept, LinkOk, NoneLeaked, InodeLog.NoList,
           BlocksFor, Lost, Recorded, Replay, Blocks, Torn, InodeLog.ListsFrom, InodeLog.TraceSafe, Secure, Homed;
      ghost var blocks0, data0 := FileBlocks(), log.data;
      outcome, asked, lost := Done, 0, {};
      if |buf| == 0 {
        NothingToWrite(blocks0, data0, pos);
        SameNoneLeaked(blocks0, log.pool, log.back);
        SameHeaders(log.Log(), log.Heads());
        return;
      }
      BeginWrite(pos);
      ListsStay(BlocksFor(pos, |buf|));
      var begin, from;
      outcome, begin, from, asked, lost := WriteChunks(pos, buf, num, blocks0, data0);
      TraceMeans();
      if outcome.NoSpace? {
        ghost var n :| 0 <= n <= |buf| && Writes(blocks0, data0, pos, buf[..n]);
        OldFileStands(blocks0, data0, pos, buf[..n]);
        log.ListsAre();
        HeadersMean();
      } else if outcome.Done? {
        FinishWrite(from, begin, blocks0, pos, |buf|, log.Log(), log.Rest());
      }
    }

    /** The write system call: a copy-on-write write, as a crash sees it.

        Before the commit every image holds the old file, except for one torn
        image, which is there if and only if the log got its first page.  From the
        commit on every image holds the new file.  Bytes past the end of the file
        stay zero. */
    method DaxFileWrite(pos: nat, buf: seq<Byte>, num: nat)
      returns (outcome: Outcome, ghost asked: nat, ghost lost: set<nat>)
      requires Valid() && 0 < num && buf != []
      modifies this`size, log
      ensures !outcome.Stopped? ==> Valid() && log.ListsFrom(old(log.home))
      ensures outcome.Done? ==>
                && size == Max(old(size), pos + |buf|) && log.head != 0
                && Content(FileBlocks(), log.data, old(FileBlocks()), old(log.data), pos, buf)
                && WentHome(old(FileBlocks()), FileBlocks(), log.pool, log.home, log.cpus, log.perList)
                && (ZeroPast(old(FileBlocks()), old(log.data), old(size)) ==> ZeroPast(FileBlocks(), log.data, size))
                && AllHold(log.after, FileBlocks(), size, log.data)
      ensures outcome.NoSpace? ==>
                size == old(size) && FileBlocks() == old(FileBlocks()) && OldKept(FileBlocks(), log.data, old(log.data))
      ensures !outcome.Done? ==> 0 < asked <= Max(BlocksFor(pos, |buf|), num) && log.NoList(asked)
      ensures outcome.NoSpace? ==>
                Lost(old(log.Owned()), lost) && (lost == {} <==> old(log.NoList(BlocksFor(pos, |buf|))))
      ensures AllHold(log.trace, old(FileBlocks()), old(size), old(log.data))
      ensures (exists i :: 0 <= i < |log.trace| && Torn(log.trace[i].img)) <==> old(log.head) == 0 && log.head != 0
    {
      hide Content, OldKept, FileBlocks, InodeLog.Log, AllKept, AfterOk, HeadersKept, ZeroPast, AllHold, NoneLeaked,
           WentHome, Homed, Settled;
      FileIsSound();
      outcome, asked, lost := CowWrite(pos, buf, num);
      OldFileHeld(log.trace, log.base, log.tore, old(log.data));
      if outcome.Done? {
        FileIsSound();
        NewFileHeld(log.after, Replay(FRESH, log.Log()), log.data);
        WriteKeepsZeros(FileBlocks(), log.data, old(FileBlocks()), old(log.data), old(size), pos, buf);
        ThenHome(old(FileBlocks()), FileBlocks(), log.pool, log.back, old(log.home), log.cpus, log.perList);
      }
    }

    lemma FileIsSound()
      requires Valid()
      ensures Sound(0, log.Log()) && FileBlocks() == Blocks(Replay(FRESH, log.Log()).tree)
              && size == Replay(FRESH, log.Log()).size
    {
    }

    // ----- reading ----------------------------------------------------------------------------------

    /** How many pages can be read in one go from page `index`: all that follow in
        the entry when none of its pages is invalid, one otherwise. */
    method FindRun(index: nat) returns (found: bool, pages: nat, block: nat)
      requires Valid()
      ensures found <==> index in FileBlocks()
      ensures 1 <= pages && (found ==> RunOf(FileBlocks(), index, pages, block))
      ensures found ==> exists r :: r in log.Log() && AsLongAs(r, index, log.tree, pages)
    {
      hide InodeLog.HomesOk, Sound, BlocksApart, LinkOk;
      found, pages, block := index in log.tree, 1, 0;
      if found {
        ghost var slots := Replay(FRESH, log.Log()).tree;
        MatchesIsIndexed(log.tree, log.Log());
        ghost var q := FindOwner(log.tree, slots, log.Log(), map[], index);
        log.CellAt(q);
        var e := Read(log.m.cells, log.tree[index]).e;
        block := BlockOf(e, index);
        if e.invalidPages == 0 {
          log.LogIsDistinct();
          pages := e.numPages - (index - e.pgoff);
          EntryRun(log.tree, slots, log.Log(), q, index);
        }
        assert log.Log()[q] in log.Log() && AsLongAs(log.Log()[q], index, log.tree, pages);
      }
    }

    /** The run is the rest of the entry behind the page if none of its pages is invalid,
        else the one page. */
    ghost predicate AsLongAs(r: LogRec, index: nat, tree: Index, pages: nat) {
      && index in tree && r.addr == tree[index] && r.e.FileWrite?
      && pages == if r.e.invalidPages == 0 then r.e.numPages - (index - r.e.pgoff) else 1
    }

    /** Reads up to `len` bytes from `pos` on: exactly the bytes of the file, up to its end. */
    method ReadFile(pos: nat, len: nat) returns (bytes: seq<Byte>)
      requires Valid()
      ensures |bytes| == (if pos < size then Min(len, size - pos) else 0)
      ensures Reads(FileBlocks(), log.data, pos, bytes)
    {
      hide Valid, FileBlocks, Reads, RunOf;
      bytes := [];
      ReadsNothing(FileBlocks(), log.data, pos);
      if size == 0 {
        return;
      }
      var left := if pos <= size && len > size - pos then size - pos else len;
      if left == 0 {
        return;
      }
      var index: nat, offset: nat, endIndex := pos / BLOCK, pos % BLOCK, (size - 1) / BLOCK;
      while |bytes| < left
        invariant offset < BLOCK && index * BLOCK + offset == pos + |bytes|
        invariant |bytes| <= left && (pos < size || bytes == [])
        invariant Reads(FileBlocks(), log.data, pos, bytes)
        decreases left - |bytes|
      {
        if index > endIndex || (index == endIndex && (size - 1) % BLOCK + 1 <= offset) {
          PastTheEnd(size, index, offset);
          return;
        }
        InsideTheFile(size, index, offset);
        var found, pages, block := FindRun(index);
        BlockIsBig(offset, pages);
        var nr := Min((if found then pages * BLOCK else BLOCK) - offset, left - |bytes|);
        var piece := if found then Load(log.data, block * BLOCK + offset, nr) else Zeros(nr);
        if found {
          RunReads(FileBlocks(), log.data, index, pages, block, offset, nr);
        } else {
          HoleReads(FileBlocks(), log.data, index, offset, nr);
        }
        ReadsMore(FileBlocks(), log.data, pos, bytes, piece);
        bytes := bytes + piece;
        index, offset := index + (offset + nr) / BLOCK, (offset + nr) % BLOCK;
      }
    }

    // ----- truncation ---------------------------------------------------------------------------------

    /** Gives a run of blocks back.  None of them is freed twice. */
    method FreeDataBlocks(block: nat, n: nat)
      requires log.Inv() && Run(block, n) !! log.Owned() && 0 !in Run(block, n)
      modifies log`pool, log`home, log`back
      ensures log.Inv() && log.Owned() == old(log.Owned()) + Run(block, n)
      ensures log.back == Then(old(log.back), OneRun(block, Run(block, n)))
    {
      hide Run, OneRun, Then, InodeLog.HomesOk, Rehomed, PartOf;
      log.FreeBlocks(block, n);
    }

    /** Puts a block behind the run waiting to be freed, or frees that run and starts a new one. */
    method FreeContiguous(b: nat, block: nat, n: nat) returns (block': nat, n': nat)
      requires log.Inv() && b != 0 && b !in log.Owned() && b !in Run(block, n) && 0 !in Run(block, n)
      requires Run(block, n) !! log.Owned() && (block == 0 <==> n == 0)
      modifies log`pool, log`home, log`back
      ensures log.Inv() && (block' == 0 <==> n' == 0) && Run(block', n') !! log.Owned()
      ensures log.Owned() + Run(block', n') == old(log.Owned()) + Run(block, n) + {b}
      ensures log.Owned() <= old(log.Owned()) + Run(block, n) && Run(block', n') <= Run(block, n) + {b}
      ensures if block == 0 then block' == b && n' == 1 && log.back == old(log.back)
              else if b == block + n then block' == block && n' == n + 1 && log.back == old(log.back)
              else block' == b && n' == 1 && log.back == Then(old(log.back), OneRun(block, Run(block, n)))
    {
      hide InodeLog.Inv, InodeLog.Owned, Then, OneRun;
      RunGrows(block, n);
      RunGrows(b, 0);
      if block == 0 {
        block', n' := b, 1;
      } else if b == block + n {
        block', n' := block, n + 1;
      } else {
        FreeDataBlocks(block, n);
        block', n' := b, 1;
      }
    }

    /** The first mapped page from `p` on, if there is one, and the entry behind it. */
    method FindNextEntry(p: nat, ghost slots: map<nat, Slot>, ghost due: Dues, ghost log0: seq<LogRec>)
      returns (found: bool, e: Entry, ghost q: nat)
      requires Updating(slots, due, log0)
      ensures !found ==> forall x :: x in slots ==> x < p
      ensures found ==>
                q in slots && p <= q && (forall x :: x in slots && p <= x ==> q <= x) && e.FileWrite? && e.pgoff <= q
    {
      e, q := LinkChange(0, 0, 0), 0;
      var ahead := set x | x in log.tree && p <= x;
      assert forall x :: x in slots && p <= x ==> x in ahead;
      found := ahead != {};
      if found {
        HasLeast(ahead);
        assert exists x :: x in ahead && forall y :: y in ahead ==> x <= y by {
          var z :| IsLeast(z, ahead);
        }
        var x :| x in ahead && forall y :: y in ahead ==> x <= y;
        q := x;
        ghost var w := FindOwner(log.tree, slots, log.Log(), due, x);
        log.CellAt(w);
        e := Read(log.m.cells, log.tree[x]).e;
      }
    }

    /** The pages from `start` up to p have been deleted; their blocks are free or wait to be freed. */
    ghost predicate Deleting(slots: map<nat, Slot>, log0: seq<LogRec>, slots0: map<nat, Slot>, start: nat, p: nat,
                             block: nat, n: nat, owned0: set<nat>, back0: map<nat, nat>)
      reads this, log
    {
      && Updating(slots, map[], log0) && start <= p
      && slots == CutTo(slots0, start, p)
      && Waiting(slots, log.Owned(), block, n) && log.Owned() + Run(block, n) == owned0 + BlocksIn(slots0, start, p)
      && LastRunWaits(BlockSeq(Blocks(slots0), start, p), block, n, back0, log.back)
    }

    lemma Skipped(slots: map<nat, Slot>, log0: seq<LogRec>, slots0: map<nat, Slot>, start: nat, p: nat, q: nat,
                  block: nat, n: nat, owned0: set<nat>, back0: map<nat, nat>)
      requires Deleting(slots, log0, slots0, start, p, block, n, owned0, back0)
      requires p <= q && forall x :: p <= x < q ==> x !in slots
      ensures Deleting(slots, log0, slots0, start, q, block, n, owned0, back0)
    {
      forall x | p <= x < q ensures x !in slots0 {
        assert x in slots0 ==> x in CutTo(slots0, start, p);
      }
      CutHole(slots0, start, p, q);
      BlockSeqHole(Blocks(slots0), start, p, q);
    }

    /** The parts of Updating that do not concern free blocks. */
    ghost predicate UpdatingLog(slots: map<nat, Slot>, log0: seq<LogRec>)
      reads log`m, log`head, log`tail, log`lay, log`k, log`j, log`tree, log`after, log`data
    {
      && DistinctAddrs(log0) && Sound(0, log0)
      && Matches(log.tree, slots) && AllGiven(slots, log.Log()) && Counted(log.tree, log.Log(), map[])
         && DistinctAddrs(log.Log())
      && OnlyCounts(log0, log.Log())
      && Ahead(slots, map[], Replay(FRESH, log0).tree)
      && AfterOk(log.after, Replay(FRESH, log0), log.data)
    }

    lemma UpdatingParts(slots: map<nat, Slot>, log0: seq<LogRec>)
      ensures Updating(slots, map[], log0) <==> log.Inv() && UpdatingLog(slots, log0) && BlocksApart(slots, log.Owned())
      ensures Updating(slots, map[], log0) ==> log.tree.Keys == slots.Keys
    {
    }

    /** Unmaps page p. */
    method DeletePage(p: nat, block: nat, n: nat, ghost slots: map<nat, Slot>, ghost log0: seq<LogRec>,
                      ghost slots0: map<nat, Slot>,
                      ghost start: nat, ghost owned0: set<nat>, ghost back0: map<nat, nat>)
      returns (block': nat, n': nat, ghost slots': map<nat, Slot>)
      requires Deleting(slots, log0, slots0, start, p, block, n, owned0, back0) && p in log.tree
               && p !in Replay(FRESH, log0).tree
      modifies log`m, log`lay, log`tree, log`pool, log`home, log`back, log`after
      ensures Deleting(slots', log0, slots0, start, p + 1, block', n', owned0, back0)
              && log.lay.pages == old(log.lay.pages)
      ensures old(log.after) <= log.after
    {
      hide Updating, UpdatingLog, InodeLog.Inv, InodeLog.Log, WithoutSlot, MarkOne, CutTo, InodeLog.Owned, Run,
           BlocksApart, Waiting, LastRunWaits, Then, OneRun;
      UpdatingParts(slots, log0);
      CutOneMore(slots0, start, p);
      WaitMore(slots, p, log.Owned(), block, n);
      WaitingApart(slots, log.Owned(), block, n);
      ghost var q;
      var b;
      ghost var owned1 := log.Owned();
      b, q := UnmapSlot(p, slots, map[], log0);
      slots' := WithoutSlot(slots, p);
      UpdatingParts(slots', log0);
      WaitingApart(slots', log.Owned(), block, n);
      OneMoreWaits(BlockSeq(Blocks(slots0), start, p), b, block, n, back0, log.back);
      block', n' := FreeContiguous(b, block, n);
      FewerFree(slots', owned1 + Run(block, n), log.Owned());
      UpdatingParts(slots', log0);
      assert log.Owned() + Run(block', n') == owned0 + BlocksIn(slots0, start, p + 1);
      WaitLess(slots', owned1, block, n, b, log.Owned(), block', n');
    }

    /** One round of the deletion: a mapped page is unmapped, a hole is jumped. */
    method DeleteNext(p: nat, last: nat, block: nat, n: nat, ghost slots: map<nat, Slot>, ghost log0: seq<LogRec>,
                      ghost slots0: map<nat, Slot>,
                      ghost start: nat, ghost owned0: set<nat>, ghost back0: map<nat, nat>)
      returns (more: bool, p': nat, block': nat, n': nat, ghost slots': map<nat, Slot>)
      requires Deleting(slots, log0, slots0, start, p, block, n, owned0, back0) && p <= last
      requires p !in Replay(FRESH, log0).tree
      modifies log`m, log`lay, log`tree, log`pool, log`home, log`back, log`after
      ensures if more then p < p' && Deleting(slots', log0, slots0, start, Min(p', last + 1), block', n', owned0, back0)
              else Deleting(slots', log0, slots0, start, last + 1, block', n', owned0, back0)
      ensures log.lay.pages == old(log.lay.pages) && old(log.after) <= log.after
    {
      hide Deleting, Updating;
      more, p', block', n', slots' := true, p, block, n, slots;
      if p in log.tree {
        block', n', slots' := DeletePage(p, block, n, slots, log0, slots0, start, owned0, back0);
        p' := p + 1;
      } else {
        StillUpdating(slots, log0, slots0, start, p, block, n, owned0, back0);
        ghost var q;
        var e;
        more, e, q := FindNextEntry(p, slots, map[], log0);
        if more {
          p' := if p + 1 > e.pgoff then p + 1 else e.pgoff;
          Skipped(slots, log0, slots0, start, p, Min(p', last + 1), block, n, owned0, back0);
        } else {
          Skipped(slots, log0, slots0, start, p, last + 1, block, n, owned0, back0);
        }
      }
    }

    lemma StillUpdating(slots: map<nat, Slot>, log0: seq<LogRec>, slots0: map<nat, Slot>, start: nat, p: nat,
                        block: nat, n: nat, owned0: set<nat>, back0: map<nat, nat>)
      requires Deleting(slots, log0, slots0, start, p, block, n, owned0, back0)
      ensures Updating(slots, map[], log0) && (p in slots <==> p in log.tree)
    {
    }

    /** Deletes the slots start .. last, jumping over holes and freeing blocks in
        runs: every block that was mapped there is freed, each exactly once. */
    method DeleteFileTree(start: nat, last: nat, ghost slots0: map<nat, Slot>,
                          ghost log0: seq<LogRec>) returns (ghost slots: map<nat, Slot>)
      requires Updating(slots0, map[], log0) && start <= last
      requires forall x :: start <= x <= last ==> x !in Replay(FRESH, log0).tree
      modifies log`m, log`lay, log`tree, log`pool, log`home, log`back, log`after
      ensures Updating(slots, map[], log0) && slots == Cut(slots0, start, last) && log.lay.pages == old(log.lay.pages)
      ensures log.Owned() == old(log.Owned()) + BlocksIn(slots0, start, last + 1) && old(log.after) <= log.after
      ensures var gone := BlockSeq(Blocks(slots0), start, last + 1);
              log.back == Then(old(log.back), RunStarts(gone, |gone|))
    {
      hide Then, OneRun, RunStarts, Deleting, Updating, UpdatingLog, InodeLog.Inv, InodeLog.Owned, BlocksApart, Run;
      slots := slots0;
      var p: nat, block: nat, n: nat := start, 0, 0;
      StartDeleting(slots0, log0, start);
      while p <= last
        invariant start <= p && log.lay.pages == old(log.lay.pages) && old(log.after) <= log.after
        invariant Deleting(slots, log0, slots0, start, Min(p, last + 1), block, n, old(log.Owned()), old(log.back))
        decreases last + 1 - p
      {
        var more;
        more, p, block, n, slots := DeleteNext(p, last, block, n, slots, log0, slots0, start, old(log.Owned()),
            old(log.back));
        if !more {
          p := last + 1;
          break;
        }
      }
      DoneDeleting(slots, log0, slots0, start, last, block, n, old(log.Owned()), old(log.back));
      UpdatingParts(slots, log0);
      if block != 0 {
        FreeDataBlocks(block, n);
      }
      UpdatingParts(slots, log0);
    }

    /** What is left to do at the end of the deletion. */
    lemma DoneDeleting(slots: map<nat, Slot>, log0: seq<LogRec>, slots0: map<nat, Slot>, start: nat, last: nat,
                       block: nat, n: nat, owned0: set<nat>, back0: map<nat, nat>)
      requires Deleting(slots, log0, slots0, start, last + 1, block, n, owned0, back0)
      ensures Updating(slots, map[], log0) && slots == Cut(slots0, start, last)
      ensures Run(block, n) !! log.Owned() && 0 !in Run(block, n) && BlocksApart(slots, log.Owned() + Run(block, n))
      ensures log.Owned() + Run(block, n) == owned0 + BlocksIn(slots0, start, last + 1)
      ensures block == 0 ==> log.Owned() == owned0 + BlocksIn(slots0, start, last + 1)
      ensures var gone := BlockSeq(Blocks(slots0), start, last + 1);
              && Then(log.back, OneRun(block, Run(block, n))) == Then(back0, RunStarts(gone, |gone|))
              && (block == 0 ==> log.back == Then(back0, RunStarts(gone, |gone|)))
    {
      WaitingApart(slots, log.Owned(), block, n);
      LastRunGoes(BlockSeq(Blocks(slots0), start, last + 1), block, n, back0, log.back);
    }

    lemma StartDeleting(slots0: map<nat, Slot>, log0: seq<LogRec>, start: nat)
      requires Updating(slots0, map[], log0)
      ensures Deleting(slots0, log0, slots0, start, start, 0, 0, log.Owned(), log.back)
    {
      CutNothing(slots0, start);
      NothingWaits(log.back);
    }

    // ----- attributes, size and link count ------------------------------------------------------------------

    /** Up to the commit the old file stands in every image but a torn one, and
        one is torn if and only if the log got its first page. */
    ghost predicate Recorded(base: seq<LogRec>, head0: nat, blocks0: map<nat, nat>, data0: Mem)
      reads log`base, log`trace, log`tore, log`head
    {
      && log.base == base && TraceOk(log.trace, base, log.tore) && (log.tore <==> head0 == 0 && log.head != 0)
      && AllKept(log.trace, blocks0, data0)
    }

    lemma StartChange()
      requires log.Writing() && log.Rest() == [] && FileOk(log.tree, log.Log(), size) && log.GoesOnAt(log.tail)
      requires BlocksApart(Replay(FRESH, log.Log()).tree, log.Owned()) && log.base == log.Log()
               && log.heads0 == log.Heads()
      ensures WriteState(log.tree, log.Log(), [], size, log.Owned()) && log.GoesOnAt(NOWHERE) && HeadersOk()
      ensures OnMedia(log.Log()) && DistinctAddrs(log.Log())
    {
      log.LogOnMedia();
    }

    lemma ChangeFailed(blocks0: map<nat, nat>)
      requires log.Inv() && WriteState(log.tree, log.Log(), [], size, log.Owned()) && HeadersOk()
               && LinkOk(log.base, log.heads0.ll)
      requires FileBlocks() == blocks0
      ensures Valid() && FileBlocks() == blocks0
    {
    }

    /** Writes an entry that is not a write behind the tail. */
    method AppendOther(e: Entry, num: nat) returns (outcome: Outcome, c: Addr)
      requires Valid() && 0 < num && (e.SetAttr? || e.LinkChange?)
      modifies log`m, log`head, log`tail, log`trace, log`tore, log`pool, log`home, log`back, log`lay, log`k, log`j,
               log`validBytes,
               log`tree, log`lastSetattr,
               log`lastLink, log`base, log`heads0, log`blocks0, log`data0, log`home0
      ensures outcome.NoSpace? <==> old(log.NoPlace(NOWHERE, Len(e), num))
      ensures outcome.Stopped? ==> log.NoList(1)
      ensures log.home0 == old(log.home)
      ensures Recorded(old(log.Log()), old(log.head), old(FileBlocks()), old(log.data))
      ensures outcome.NoSpace? ==> Valid() && FileBlocks() == old(FileBlocks())
      ensures !outcome.Stopped? ==>
                && HeadersKept(old(log.Log()), old(log.Heads()), log.Log(), log.Heads())
                   && LinkOk(log.Log(), log.lastLink)
      ensures outcome.Done? ==>
                && log.Writing() && WriteState(log.tree, log.Log(), [], size, log.Owned())
                   && log.Owned() <= old(log.Owned())
                && log.Rest() == [LogRec(c, e)] && log.EndsAt(Addr(c.page, c.off + Len(e)))
                && FileBlocks() == old(FileBlocks())
    {
      hide WriteState, Gc, HeadersKept, HeadersOk, LinkOk, FileOk, BlocksApart, FileBlocks, TraceOk, AllKept, OldKept,
           Collected, Indexed,
           InodeLog.Log, InodeLog.Rest, InodeLog.Owned, InodeLog.EndsAt, InodeLog.GoesOnAt, InodeLog.Inv, Tight,
               OnMedia, DistinctAddrs, Reserved, NoneHas;
      ghost var blocks0 := FileBlocks();
      IndexInUse();
      BlocksOfLog(log.Log());
      log.Begin(blocks0);
      BlocksOfLog(log.Log());
      StartChange();
      ghost var log1, tree1, h1, owned1 := log.Log(), log.tree, log.Heads(), log.Owned();
      HeadersMean();
      ghost var how;
      var ok;
      c, ok, how := log.Append(e, NOWHERE, num, log1, []);
      outcome := if !ok then Stopped else if c.page == 0 then NoSpace else Done;
      if ok {
        ChangeGc(log1, tree1, h1, owned1, how);
        if c.page == 0 {
          ChangeFailed(blocks0);
        }
      }
    }

    /** The file after the collection that made room for the entry. */
    lemma ChangeGc(log0: seq<LogRec>, tree0: Index, h0: Head, owned0: set<nat>, how: Collection)
      requires WriteState(tree0, log0, [], size, owned0) && log.Inv() && log.Owned() <= owned0
      requires Gc(log0, tree0, h0, log.Log(), log.tree, log.Heads(), how)
      requires OnMedia(log0) && DistinctAddrs(log0) && HeadersKept(log.base, log.heads0, log0, h0)
               && LinkOk(log.base, log.heads0.ll)
      ensures WriteState(log.tree, log.Log(), [], size, log.Owned()) && FileBlocks() == Blocks(Replay(FRESH, log0).tree)
      ensures HeadersOk() && HeadersKept(log.base, log.heads0, log.Log(), log.Heads())
              && LinkOk(log.Log(), log.lastLink)
    {
      AfterGc(log0, tree0, h0.ll, [], Mid(how, h0), how.moves, owned0);
      HeadersAfterGc(log0, tree0, h0, owned0, [], how);
    }

    /** Appends and commits an entry that is not a write; the index still has the
        pages it had. */
    method CommitChange(e: Entry, num: nat) returns (outcome: Outcome, ghost log0: seq<LogRec>, ghost h: Head)
      requires Valid() && 0 < num && (e.SetAttr? || e.LinkChange?) && RecOk(size, LogRec(NOWHERE, e), false)
      modifies log`m, log`head, log`tail, log`trace, log`tore, log`pool, log`home, log`back, log`lay, log`k, log`j,
               log`validBytes,
               log`tree, log`lastSetattr,
               log`lastLink, log`base, log`heads0, log`blocks0, log`data0, log`home0, log`after
      ensures outcome.NoSpace? <==> old(log.NoPlace(NOWHERE, Len(e), num))
      ensures outcome.Stopped? ==> log.NoList(1)
      ensures log.home0 == old(log.home)
      ensures Recorded(old(log.Log()), old(log.head), old(FileBlocks()), old(log.data))
      ensures outcome.NoSpace? ==> Valid() && FileBlocks() == old(FileBlocks())
      ensures outcome.NoSpace? ==> HeadersKept(old(log.Log()), old(log.Heads()), log.Log(), log.Heads())
      ensures outcome.Done? ==>
                && HeadersKept(old(log.Log()), old(log.Heads()), log0, h) && LinkOk(log0, h.ll)
                && JustCommitted(log0, LogRec(if e.SetAttr? then log.lastSetattr else log.lastLink, e))
                && log.Heads() == (if e.SetAttr? then Head(log.lastSetattr, h.ll) else Head(h.ls, log.lastLink))
                && Blocks(Replay(FRESH, log0).tree) == old(FileBlocks()) && log.Owned() <= old(log.Owned())
                && log.head != 0 && log.after == [Crash(log.Img(), log.data)]
    {
      hide *;
      var c;
      outcome, c := AppendOther(e, num);
      log0, h := log.Log(), log.Heads();
      log.HeadsAre();
      if outcome.Done? {
        BlocksOfLog(log0);
        if e.SetAttr? {
          log.lastSetattr := c;
        } else {
          log.lastLink := c;
        }
        log.HeadsAre();
        log.UpdateTail(Addr(c.page, c.off + Len(e)), log0, [LogRec(c, e)]);
        ChangeCommitted(log0, LogRec(c, e));
      }
    }

    /** The entry `r` has been committed behind `log0`; nothing has been done about it yet. */
    ghost predicate JustCommitted(log0: seq<LogRec>, r: LogRec)
      reads this, log
    {
      && log.Log() == log0 + [r] && Sound(0, log0 + [r]) && Replay(FRESH, log0).size == size
         && Bounded(Replay(FRESH, log0).tree, size)
      && Replay(FRESH, log0 + [r]) == Apply(Replay(FRESH, log0), r)
      && Replay(FRESH, log0 + [r]).tree ==
         (if r.e.SetAttr? then Below(Replay(FRESH, log0).tree, PagesFor(r.e.size)) else Replay(FRESH, log0).tree)
      && Updating(Replay(FRESH, log0).tree, map[], log0 + [r])
    }

    lemma ChangeCommitted(log0: seq<LogRec>, r: LogRec)
      requires log.Inv() && log.Log() == log0 + [r] && WriteState(log.tree, log0, [], size, log.Owned())
      requires (r.e.SetAttr? || r.e.LinkChange?) && RecOk(size, LogRec(NOWHERE, r.e), false)
      requires log.after == [Crash(log.Img(), log.data)] && Shows(log.Img(), log0 + [r])
      ensures JustCommitted(log0, r)
    {
      log.LogIsDistinct();
      CommitOther(log.tree, log0, size, log.Owned(), r);
      AfterMore([], Crash(log.Img(), log.data), Replay(FRESH, log0 + [r]), log.data, log0 + [r]);
      assert [] + log.after == log.after;
    }

    /** Zeroes the rest of the page in which the file is to end. */
    method ClearLastPageTail(newSize: nat, ghost slots: map<nat, Slot>, ghost log0: seq<LogRec>)
      requires Updating(slots, map[], log0) && Replay(FRESH, log0).size == newSize
      requires Replay(FRESH, log0).tree == Below(slots, PagesFor(newSize))
      modifies log`data, log`after
      ensures Updating(slots, map[], log0)
      ensures if newSize % BLOCK == 0 || newSize > size then log.data == old(log.data)
              else TailCleared(Blocks(slots), log.data, old(log.data), newSize)
      ensures old(log.after) <= log.after
    {
      hide AfterOk, Ahead, Store, TailCleared, PagesFor, Sound, OnlyCounts, DistinctAddrs, Counted, AllGiven,
           InodeLog.Inv;
      var offset := newSize % BLOCK;
      if offset == 0 || newSize > size {
        return;
      }
      var found, block := LookupSlot(newSize / BLOCK, slots);
      if !found {
        NothingToClear(slots, log.data, newSize);
        return;
      }
      ghost var data0, after0 := log.data, log.after;
      ClearTail(slots, log.Owned(), log.data, newSize);
      log.data := Store(log.data, block * BLOCK + offset, Zeros(BLOCK - offset));
      log.after := log.after + [Crash(log.Img(), log.data)];
      StillReplays(slots, log0);
      ClearedIsInvisible(after0, log.Img(), log.Log(), slots, Replay(FRESH, log0), log.data, data0);
    }

    /** While the index is brought up to date, what is on media already replays to the goal. */
    lemma StillReplays(slots: map<nat, Slot>, log0: seq<LogRec>)
      requires log.Inv() && DistinctAddrs(log0) && Sound(0, log0)
      requires Indexing(log.tree, slots, log.Log(), map[], log.Owned())
      requires OnlyCounts(log0, log.Log()) && Ahead(slots, map[], Replay(FRESH, log0).tree)
      ensures Shows(log.Img(), log.Log()) && Sound(0, log.Log()) && Replay(FRESH, log.Log()) == Replay(FRESH, log0)
    {
      CrashWhileIndexing(log0, log.Log(), log.tree, slots, map[]);
      log.ShowsLog();
    }

    lemma PagesForIs(size: nat)
      ensures PagesFor(size) == if size == 0 then 0 else (size - 1) / BLOCK + 1
    {
    }

    /** Deletes the pages past the new end and frees their blocks. */
    method TruncateFileBlocks(newSize: nat, oldSize: nat, ghost slots0: map<nat, Slot>, ghost log0: seq<LogRec>)
      returns (ghost slots: map<nat, Slot>)
      requires Updating(slots0, map[], log0) && Bounded(slots0, oldSize)
      requires Replay(FRESH, log0).tree == Below(slots0, PagesFor(newSize))
      modifies log`m, log`lay, log`tree, log`pool, log`home, log`back, log`after
      ensures Updating(slots, map[], log0) && slots == Below(slots0, PagesFor(newSize))
              && log.lay.pages == old(log.lay.pages)
      ensures log.Owned() == old(log.Owned()) + CutBlocks(Blocks(slots0), PagesFor(newSize))
              && old(log.after) <= log.after
      ensures var gone := BlockSeq(Blocks(slots0), PagesFor(newSize), PagesFor(oldSize));
              log.back == Then(old(log.back), RunStarts(gone, |gone|))
    {
      hide Updating, InodeLog.Owned, CutBlocks, PagesFor, Then;
      PagesForIs(oldSize);
      ThenThen(log.back, map[], map[]);
      slots := slots0;
      var first := PagesFor(newSize);
      if oldSize == 0 {
        NoneCut(slots0, oldSize, first);
        return;
      }
      var last := (oldSize - 1) / BLOCK;
      if first > last {
        NoneCut(slots0, oldSize, first);
        return;
      }
      slots := DeleteFileTree(first, last, slots0, log0);
      AllCut(slots0, oldSize, first, last);
    }

    /** The file is in order again once the index has the pages that replay gives. */
    lemma ChangeDone(slots: map<nat, Slot>, log0: seq<LogRec>, h: Head)
      requires Updating(slots, map[], log0) && slots == Replay(FRESH, log0).tree && Sound(0, log0)
      requires LinkOk(log0, h.ll)
      ensures log.Inv() && FileOk(log.tree, log.Log(), Replay(FRESH, log0).size)
      ensures Replay(FRESH, log.Log()) == Replay(FRESH, log0) && BlocksApart(Replay(FRESH, log.Log()).tree, log.Owned())
      ensures LastChange(log.Log(), NOWHERE) == LastChange(log0, NOWHERE) && LinkOk(log.Log(), h.ll)
      ensures LastTruncAttr(log.Log()) == LastTruncAttr(log0)
      ensures AfterOk(log.after, Replay(FRESH, log.Log()), log.data)
    {
      hide Ahead, AfterOk;
      CountsKeepReplay(log0, log.Log(), log.tree);
      CountsKeepSound(log0, log.Log(), log.tree);
      HeaderStays(log0, log.Log(), h);
    }

    /** Cutting moves blocks from the file to the pool. */
    lemma CutIsFree(owned0: set<nat>, pages0: seq<nat>, cut: set<nat>)
      requires log.lay.pages == pages0 && log.Owned() == owned0 + cut && PageSet(pages0) <= owned0 && cut !! owned0
      ensures cut <= log.pool && log.pool <= owned0 + cut
    {
    }

    lemma PoolIsOwned()
      ensures log.pool <= log.Owned()
    {
    }

    lemma CutApart(slots: map<nat, Slot>, owned: set<nat>, first: nat)
      requires BlocksApart(slots, owned)
      ensures CutBlocks(Blocks(slots), first) !! owned
    {
      forall b | b in CutBlocks(Blocks(slots), first) ensures b !in owned {
        var p :| p in Blocks(slots) && p >= first && Blocks(slots)[p] == b;
        assert slots[p].block == b;
      }
    }

    /** Sets the size once the entry has been committed. */
    method SetSize(newSize: nat, ghost log0: seq<LogRec>, ghost r: LogRec)
      requires JustCommitted(log0, r) && r.e.SetAttr? && r.e.size == newSize
      requires LinkOk(log0 + [r], log.lastLink)
      modifies this`size, log`m, log`lay, log`tree, log`pool, log`home, log`back, log`after, log`data
      ensures log.Inv() && size == newSize && FileOk(log.tree, log.Log(), size)
      ensures BlocksApart(Replay(FRESH, log.Log()).tree, log.Owned()) && LinkOk(log.Log(), log.lastLink)
      ensures Replay(FRESH, log.Log()) == Replay(FRESH, log0 + [r])
              && LastChange(log.Log(), NOWHERE) == LastChange(log0 + [r], NOWHERE)
              && LastTruncAttr(log.Log()) == LastTruncAttr(log0 + [r])
      ensures AfterOk(log.after, Replay(FRESH, log.Log()), log.data)
      ensures forall off: nat ::
                FileByte(FileBlocks(), log.data, off) == Resized(Blocks(Replay(FRESH, log0).tree), old(log.data),
                    old(size), newSize, off)
      ensures var cut := CutBlocks(Blocks(Replay(FRESH, log0).tree), PagesFor(newSize));
              cut <= log.pool && log.pool <= old(log.Owned()) + cut
      ensures old(log.after) <= log.after
      ensures WentInRuns(Blocks(Replay(FRESH, log0).tree), PagesFor(newSize), PagesFor(old(size)), log.back)
    {
      hide WentInRuns, Then, RunStarts, BlockSeq, Updating, FileOk, AfterOk, LinkOk, BlocksApart, CutBlocks, Resized,
           TailCleared, PagesFor, InodeLog.Log,
           Sound, Bounded;
      ghost var slots0, data0, owned0, pages0 := Replay(FRESH, log0).tree, log.data, log.Owned(), log.lay.pages;
      assert JustCommitted(log0, r);
      assert Replay(FRESH, log0 + [r]).size == newSize;
      var oldSize := size;
      if newSize != oldSize {
        ClearLastPageTail(newSize, slots0, log0 + [r]);
        size := newSize;
      }
      UpdatingParts(slots0, log0 + [r]);
      CutApart(slots0, owned0, PagesFor(newSize));
      ghost var slots := TruncateFileBlocks(newSize, oldSize, slots0, log0 + [r]);
      GoneInRuns(Blocks(slots0), PagesFor(newSize), PagesFor(oldSize), old(log.back), log.back);
      ChangeDone(slots, log0 + [r], log.Heads());
      CutIsFree(owned0, pages0, CutBlocks(Blocks(slots0), PagesFor(newSize)));
      forall off: nat
        ensures FileByte(FileBlocks(), log.data, off) == Resized(Blocks(slots0), data0, oldSize, newSize, off)
      {
        ResizedBytes(slots0, log.data, data0, oldSize, newSize, off);
      }
    }

    lemma AttrCommitted(base: seq<LogRec>, hb: Head, log0: seq<LogRec>, h: Head, r: LogRec)
      requires JustCommitted(log0, r) && r.e.SetAttr?
      requires HeadersKept(base, hb, log0, h) && LinkOk(base, hb.ll)
      ensures LinkOk(log0 + [r], h.ll) && LastChange(log0 + [r], NOWHERE) == r.addr
      ensures LastTruncAttr(log0 + [r]) == if r.e.setsSize then Some(r.e.attr) else LastTruncAttr(base)
      ensures Replay(FRESH, log0 + [r]).attr == Some(r.e.attr) && Replay(FRESH, log0 + [r]).link == Replay(FRESH,
              base).link
    {
      HeaderAfterChange(log0, r, h);
    }

    /** A change of attributes alone leaves nothing to do. */
    lemma SameSize(log0: seq<LogRec>, r: LogRec)
      requires JustCommitted(log0, r) && r.e.SetAttr? && r.e.size == size
      requires LinkOk(log0 + [r], log.lastLink)
      ensures log.Inv() && FileOk(log.tree, log.Log(), size)
      ensures BlocksApart(Replay(FRESH, log.Log()).tree, log.Owned()) && LinkOk(log.Log(), log.lastLink)
      ensures Replay(FRESH, log.Log()) == Replay(FRESH, log0 + [r])
              && LastChange(log.Log(), NOWHERE) == LastChange(log0 + [r], NOWHERE)
              && LastTruncAttr(log.Log()) == LastTruncAttr(log0 + [r])
      ensures AfterOk(log.after, Replay(FRESH, log.Log()), log.data)
      ensures forall off: nat ::
                FileByte(FileBlocks(), log.data, off) == Resized(Blocks(Replay(FRESH, log0).tree), log.data, size,
                    size, off)
      ensures CutBlocks(Blocks(Replay(FRESH, log0).tree), PagesFor(size)) == {}
      ensures WentInRuns(Blocks(Replay(FRESH, log0).tree), PagesFor(size), PagesFor(size), log.back)
    {
      hide Updating, FileOk, AfterOk, LinkOk, BlocksApart, CutBlocks, Resized, TailCleared, Sound, Bounded;
      var slots0 := Replay(FRESH, log0).tree;
      NoneCut(slots0, size, PagesFor(size));
      ChangeDone(slots0, log0 + [r], log.Heads());
      forall off: nat
        ensures FileByte(FileBlocks(), log.data, off) == Resized(Blocks(slots0), log.data, size, size, off)
      {
        ResizedBytes(slots0, log.data, log.data, size, size, off);
      }
    }

    /** Changes the attributes and, if `setsSize`, the size.  `eofBlocks` tells
        whether blocks were set aside past the end of the file.

        Done: the file has the new size and attributes; a byte is the old one, or
        zero if it lay at or past a smaller end.  Exactly the blocks of the pages
        past the end have been freed.  The header points at the new change.

        Stopped: the entry needs pages that no processor's list has, or collection
        ran out of pages.  Crashes are as for a write. */
    method NotifyChange(setsSize: bool, newSize: nat, eofBlocks: bool, attr: Attr, num: nat) returns (outcome: Outcome)
      requires Valid() && IsReg(attr.mode) && 0 < num
      modifies this`size, log
      ensures !outcome.NoSpace?
      ensures old(log.NoPlace(NOWHERE, 32, num)) ==> outcome.Stopped?
      ensures outcome.Stopped? ==> (old(log.NoPlace(NOWHERE, 32, num)) || log.NoList(1)) && log.data == old(log.data)
      ensures Recorded(old(log.Log()), old(log.head), old(FileBlocks()), old(log.data))
      ensures AllHold(log.trace, old(FileBlocks()), old(size), old(log.data))
      ensures outcome.Done? ==>
                && Valid() && size == (if setsSize then newSize else old(size))
                && Replay(FRESH, log.Log()).attr == Some(attr) && LastChange(log.Log(), NOWHERE) == log.lastSetattr
                && Replay(FRESH, log.Log()).link == old(Replay(FRESH, log.Log()).link)
                && LastTruncAttr(log.Log()) == (if setsSize then Some(attr) else old(LastTruncAttr(log.Log())))
                && FileBlocks() == BelowBlocks(old(FileBlocks()), PagesFor(size))
                && (size < old(size) || ZeroPast(old(FileBlocks()), old(log.data), old(size)) ==>
                   ZeroPast(FileBlocks(), log.data, size))
                && AllHold(log.after, FileBlocks(), size, log.data) && log.after != []
                   && log.after[0].data == old(log.data)
                && (ZeroPastIn(log.after[0], size) <==> LastPageZero(old(FileBlocks()), old(log.data), size))
      ensures outcome.Done? ==> forall off: nat ::
                FileByte(FileBlocks(), log.data, off) == Resized(old(FileBlocks()), old(log.data), old(size), size, off)
      ensures outcome.Done? ==> var cut := CutBlocks(old(FileBlocks()), PagesFor(size));
                cut <= log.pool && log.pool <= old(log.Owned()) + cut
      ensures outcome.Done? ==>
                && log.ListsFrom(old(log.home))
                && WentInRuns(old(FileBlocks()), PagesFor(size), PagesFor(old(size)), log.back)
    {
      hide Updating, FileOk, AfterOk, BlocksApart, CutBlocks, Resized, InodeLog.Log, InodeLog.Owned, Sound,
           HeadersKept, LinkOk, Bounded,
           InodeLog.Inv, BelowBlocks, PagesFor, TraceOk, AllKept, LastChange, AllHold, ZeroPast, ZeroPastIn,
           LastPageZero, WentInRuns, InodeLog.ListsFrom, LastTruncAttr;
      FileIsSound();
      var e := SetAttr(setsSize, attr, if setsSize then newSize else size);
      ghost var log0, h;
      outcome, log0, h := CommitChange(e, num);
      OldFileHeld(log.trace, log.base, log.tore, old(log.data));
      if outcome.Done? {
        ghost var r := LogRec(log.lastSetattr, e);
        AttrCommitted(old(log.Log()), old(log.Heads()), log0, h, r);
        if setsSize && (newSize != size || eofBlocks) {
          SetSize(newSize, log0, r);
        } else {
          SameSize(log0, r);
          PoolIsOwned();
        }
        BelowIsBelow(Replay(FRESH, log0).tree, PagesFor(size));
        ResizeKeepsZeros(FileBlocks(), log.data, old(FileBlocks()), old(log.data), old(size), size);
        ZeroPastAtCommitIff(log.after, Replay(FRESH, log.Log()), log.data, old(FileBlocks()));
        NewFileHeld(log.after, Replay(FRESH, log.Log()), log.data);
        log.ListsAre();
      } else if outcome.NoSpace? {
        outcome := Stopped;
      }
    }

    /** Records a new link count.  The attributes stay as they are if they were secure. */
    method AppendLinkChange(link: Link, num: nat) returns (outcome: Outcome)
      requires Valid() && 0 < num
      modifies log
      ensures !outcome.Stopped? ==>
                && Valid() && FileBlocks() == old(FileBlocks()) && log.data == old(log.data)
                && log.ListsFrom(old(log.home))
      ensures outcome.NoSpace? <==> old(log.NoPlace(NOWHERE, 32, num))
      ensures outcome.Stopped? ==> log.NoList(1) && log.data == old(log.data)
      ensures Recorded(old(log.Log()), old(log.head), old(FileBlocks()), old(log.data))
      ensures AllHold(log.trace, old(FileBlocks()), size, old(log.data))
      ensures outcome.NoSpace? ==> HeadersKept(old(log.Log()), old(log.Heads()), log.Log(), log.Heads())
      ensures outcome.Done? ==>
                && Replay(FRESH, log.Log()).link == Some(link) && LastLinkChange(log.Log(), NOWHERE) == log.lastLink
                && (old(Secure(log.Log(), log.lastSetattr)) ==>
                      && Secure(log.Log(), log.lastSetattr)
                      && Replay(FRESH, log.Log()).attr == old(Replay(FRESH, log.Log()).attr))
                && AllHold(log.after, FileBlocks(), size, log.data)
    {
      hide Updating, FileOk, AfterOk, BlocksApart, InodeLog.Log, InodeLog.Owned, Sound, HeadersKept, LinkOk, Bounded,
           JustCommitted,
           InodeLog.Inv, TraceOk, AllKept, LastLinkChange, Secure, AllHold, InodeLog.ListsFrom;
      FileIsSound();
      var e := LinkChange(link.links, link.flags, link.generation);
      ghost var log0, h;
      outcome, log0, h := CommitChange(e, num);
      OldFileHeld(log.trace, log.base, log.tore, old(log.data));
      if outcome.Done? {
        LinkCommitted(old(log.Log()), old(log.Heads()), log0, h, LogRec(log.lastLink, e));
        NewFileHeld(log.after, Replay(FRESH, log.Log()), log.data);
      }
      if !outcome.Stopped? {
        log.ListsAre();
      }
    }

    lemma LinkCommitted(base: seq<LogRec>, hb: Head, log0: seq<LogRec>, h: Head, r: LogRec)
      requires JustCommitted(log0, r) && r.e.LinkChange? && r.addr == log.lastLink && log.Heads() == Head(h.ls, r.addr)
      requires HeadersKept(base, hb, log0, h) && LinkOk(log0, h.ll)
      ensures Valid() && FileBlocks() == Blocks(Replay(FRESH, log0).tree) && size == Replay(FRESH, log.Log()).size
      ensures FileBlocks() == Blocks(Replay(FRESH, log.Log()).tree)
      ensures Replay(FRESH, log.Log()).link == Some(Link(r.e.links, r.e.flags, r.e.generation))
      ensures LastLinkChange(log.Log(), NOWHERE) == log.lastLink
      ensures Secure(base, hb.ls) ==>
                Secure(log.Log(), log.lastSetattr) && Replay(FRESH, log.Log()).attr == Replay(FRESH, base).attr
      ensures AfterOk(log.after, Replay(FRESH, log.Log()), log.data)
    {
      HeaderAfterChange(log0, r, h);
      ChangeDone(Replay(FRESH, log0).tree, log0 + [r], Head(h.ls, r.addr));
      ReplayAttr(FRESH, log.Log());
      ReplayAttr(FRESH, base);
      var all := log0 + [r];
      assert all[..|all| - 1] == log0 && all[|all| - 1] == r;
    }
  }

  lemma {:induction false} HasLeast(s: set<nat>)
    requires s != {}
    ensures exists x :: IsLeast(x, s)
    decreases s
  {
    var x :| x in s;
    var rest := s - {x};
    if rest == {} {
      assert s == {x};
      assert IsLeast(x, s);
    } else {
      HasLeast(rest);
      var z :| IsLeast(z, rest);
      assert forall y :: y in s ==> y == x || y in rest;
      assert IsLeast(if x < z then x else z, s);
    }
  }

  ghost predicate IsLeast(x: nat, s: set<nat>) {
    x in s && forall y :: y in s ==> x <= y
  }
}
