/** The state of a copy-on-write write between its steps: entries written past
the tail, their blocks, and what a commit would make of the file. */
module CowState {
  import opened LogPages
  import opened FileReplay
  import opened LogSurgery
  import opened LogSweep
  import opened InodeLogs
  import opened LogMeaning
  import opened FileData
  import opened FileIndex
  import opened WriteRuns
  import opened HeaderRuns

  /** The live index is what replay would build, and its counts are exact. */
  ghost predicate FileOk(tree: Index, log: seq<LogRec>, size: nat) {
    && Sound(0, log)
    && Matches(tree, Replay(FRESH, log).tree) && size == Replay(FRESH, log).size
    && Counted(tree, log, map[])
  }

  lemma {:induction false} NoNamesIn(size: nat, log: seq<LogRec>)
    requires Sound(size, log)
    ensures forall r :: r in log ==> !r.e.Dentry?
    decreases |log|
  {
    if log != [] {
      NoNamesIn(SizeAfter(size, log[0]), log[1..]);
      assert log == [log[0]] + log[1..];
    }
  }

  /** The collectors' test of a write, told from the index: an entry is in use if and only
      if a page is mapped to it. */
  lemma FileIndexExact(tree: Index, log: seq<LogRec>, size: nat)
    requires FileOk(tree, log, size) && DistinctAddrs(log)
    ensures Exact(tree, log)
  {
    NoNamesIn(0, log);
    hide Sound;
    forall r | r in log ensures IndexTells(tree, r) {
      var i :| 0 <= i < |log| && log[i] == r;
      if r.e.FileWrite? {
        assert CountOk(tree, map[], log[i]);
        SlotsNone(tree, r.addr, r.e.pgoff, r.e.pgoff + r.e.numPages);
        if Pointed(tree, r.addr) {
          var p :| p in tree && tree[p] == r.addr;
          ReplayGives(FRESH, log, p);
          var j: nat :| Gives(log, j, p, Replay(FRESH, log).tree[p]);
          assert i == j;
        }
      }
    }
  }

  /** The page map the file would have if `rest` were committed behind `log`. */
  ghost function BlocksWith(log: seq<LogRec>, rest: seq<LogRec>): map<nat, nat> {
    Blocks(Replay(FRESH, log + rest).tree)
  }

  ghost function SizeWith(log: seq<LogRec>, rest: seq<LogRec>): nat {
    Replay(FRESH, log + rest).size
  }

  ghost predicate WriteState(tree: Index, log: seq<LogRec>, rest: seq<LogRec>, size: nat, free: set<nat>) {
    var slots := Replay(FRESH, log).tree;
    && FileOk(tree, log, size) && BlocksApart(slots, free)
    && AllWrites(rest) && RunsApart(rest, 0, slots, free) && TightRun(rest)
    && Sound(size, rest)
  }

  /** Nothing is lost when fewer blocks are spoken for. */
  lemma FewerOwned(tree: Index, log: seq<LogRec>, rest: seq<LogRec>, size: nat, owned: set<nat>, owned': set<nat>)
    requires WriteState(tree, log, rest, size, owned) && owned' <= owned
    ensures WriteState(tree, log, rest, size, owned')
  {
    var slots := Replay(FRESH, log).tree;
    FewerFree(slots, owned, owned');
    forall x | 0 <= x < |rest| ensures RunApart(rest[x].e, 0, slots, owned') {
      assert RunApart(rest[x].e, 0, slots, owned);
    }
  }

  lemma FewerReserved(e: Entry, rest: seq<LogRec>, slots: map<nat, Slot>, owned: set<nat>, owned': set<nat>)
    requires e.FileWrite? && AllWrites(rest) && Reserved(e, rest, slots, owned) && owned' <= owned
    ensures Reserved(e, rest, slots, owned')
  {
  }

  // ----- a collection in the middle of a write ------------------------------------------------------------

  lemma MovedBlocksApart(moves: map<Addr, Addr>, slots: map<nat, Slot>, free: set<nat>)
    requires BlocksApart(slots, free)
    ensures BlocksApart(MoveTree(moves, slots), free)
  {
  }

  lemma MovedUses(moves: map<Addr, Addr>, slots: map<nat, Slot>, b: nat)
    ensures Uses(MoveTree(moves, slots), b) <==> Uses(slots, b)
  {
    if p :| p in slots && slots[p].block == b {
      assert MoveTree(moves, slots)[p].block == b;
    }
    if p :| p in MoveTree(moves, slots) && MoveTree(moves, slots)[p].block == b {
      assert slots[p].block == b;
    }
  }

  lemma MovedRunsApart(moves: map<Addr, Addr>, rest: seq<LogRec>, slots: map<nat, Slot>, free: set<nat>)
    requires AllWrites(rest) && RunsApart(rest, 0, slots, free)
    ensures RunsApart(rest, 0, MoveTree(moves, slots), free)
  {
    forall x | 0 <= x < |rest| ensures RunApart(rest[x].e, 0, MoveTree(moves, slots), free) {
      assert RunApart(rest[x].e, 0, slots, free);
      forall b: nat | rest[x].e.block <= b < rest[x].e.block + rest[x].e.numPages
        ensures b !in free && !Uses(MoveTree(moves, slots), b)
      {
        assert !Uses(slots, b);
        MovedUses(moves, slots, b);
      }
    }
  }

  lemma MovedReserved(moves: map<Addr, Addr>, e: Entry, rest: seq<LogRec>, slots: map<nat, Slot>, free: set<nat>)
    requires e.FileWrite? && AllWrites(rest) && Reserved(e, rest, slots, free)
    ensures Reserved(e, rest, MoveTree(moves, slots), free)
  {
    forall b: nat | e.block <= b < e.block + e.numPages ensures b !in free && !Uses(MoveTree(moves, slots), b) {
      assert !Uses(slots, b);
      MovedUses(moves, slots, b);
    }
  }

  /** Entries yet to be committed do the same to a file whose index was renamed. */
  lemma {:induction false} SameBlocksAfter(s: State, t: State, rest: seq<LogRec>)
    requires AllWrites(rest) && Blocks(s.tree) == Blocks(t.tree) && s.size == t.size
    ensures Blocks(Replay(s, rest).tree) == Blocks(Replay(t, rest).tree)
    ensures Replay(s, rest).size == Replay(t, rest).size
    decreases |rest|
  {
    if rest != [] {
      assert NewWrite(rest[0]);
      AssignBlocks(s.tree, rest[0]);
      AssignBlocks(t.tree, rest[0]);
      assert forall i :: 0 <= i < |rest| - 1 ==> rest[1..][i] == rest[i + 1];
      SameBlocksAfter(Apply(s, rest[0]), Apply(t, rest[0]), rest[1..]);
    }
  }

  lemma AssignBlocks(tree: map<nat, Slot>, r: LogRec)
    requires r.e.FileWrite?
    ensures Blocks(Assign(tree, r.addr, r.e)) == Blocks(tree) + ChunkMap(r.e.pgoff, r.e.numPages, r.e.block)
  {
    var a, b := Blocks(Assign(tree, r.addr, r.e)), Blocks(tree) + ChunkMap(r.e.pgoff, r.e.numPages, r.e.block);
    assert a.Keys == b.Keys;
    forall p | p in a ensures a[p] == b[p] {
    }
  }

  lemma WriteGc(log0: seq<LogRec>, tree0: Index, ll0: Addr, log: seq<LogRec>, tree: Index, mid: seq<LogRec>,
                moves: map<Addr, Addr>,
                rest: seq<LogRec>, size: nat, free: set<nat>)
    requires WriteState(tree0, log0, rest, size, free)
    requires GcLog(log0, tree0, ll0, log, tree, mid, moves) && DistinctAddrs(log)
    ensures WriteState(tree, log, rest, size, free)
    ensures BlocksWith(log, rest) == BlocksWith(log0, rest) && SizeWith(log, rest) == SizeWith(log0, rest)
    ensures Blocks(Replay(FRESH, log).tree) == Blocks(Replay(FRESH, log0).tree)
  {
    var slots0 := Replay(FRESH, log0).tree;
    GcKeepsFile(log0, tree0, ll0, log, tree, mid, moves);
    MatchesIsIndexed(tree0, log0);
    GcKeepsCounts(log0, tree0, ll0, log, tree, mid, moves);
    GcKeepsMatch(log0, tree0, ll0, log, tree, mid, moves, slots0);
    MovedBlocksApart(moves, slots0, free);
    MovedRunsApart(moves, rest, slots0, free);
    MovesKeepBlocks(moves, slots0);
    ReplayConcat(FRESH, log0, rest);
    ReplayConcat(FRESH, log, rest);
    SameBlocksAfter(Replay(FRESH, log), Replay(FRESH, log0), rest);
  }

  // ----- one more entry -----------------------------------------------------------------------------------

  lemma WriteAppend(tree: Index, log: seq<LogRec>, rest: seq<LogRec>, size: nat, free: set<nat>, r: LogRec)
    requires WriteState(tree, log, rest, size, free)
    requires NewWrite(r) && Reserved(r.e, rest, Replay(FRESH, log).tree, free)
    requires RecOk(SizeWith(log, rest), r, false)
    requires rest != [] ==>
             Tight(Addr(rest[|rest| - 1].addr.page, rest[|rest| - 1].addr.off + Len(rest[|rest| - 1].e)), Len(r.e),
                 r.addr)
    ensures WriteState(tree, log, rest + [r], size, free)
    ensures BlocksWith(log, rest + [r]) == BlocksWith(log, rest) + ChunkMap(r.e.pgoff, r.e.numPages, r.e.block)
    ensures SizeWith(log, rest + [r]) == r.e.size
  {
    var s := Replay(FRESH, log);
    RunsAdd(rest, r, s.tree, free);
    TightAdd(rest, r);
    ReplayConcat(FRESH, log, rest);
    SoundAppend(s, rest, r);
    assert log + (rest + [r]) == (log + rest) + [r];
    ReplayStep(FRESH, log + rest, r);
    AssignBlocks(Replay(FRESH, log + rest).tree, r);
  }

  /** A reserved run is used neither by the old file nor by the chunks written so far. */
  lemma ReservedUnused(tree: Index, log: seq<LogRec>, rest: seq<LogRec>, size: nat, free: set<nat>, e: Entry)
    requires WriteState(tree, log, rest, size, free)
    requires e.FileWrite? && Reserved(e, rest, Replay(FRESH, log).tree, free)
    ensures Unused(BlocksWith(log, rest), e.block, e.numPages)
    ensures Unused(Blocks(Replay(FRESH, log).tree), e.block, e.numPages)
  {
    var s := Replay(FRESH, log);
    ReplayConcat(FRESH, log, rest);
    var t := Replay(FRESH, log + rest).tree;
    forall p | p in s.tree ensures !(e.block <= s.tree[p].block < e.block + e.numPages) {
      assert Uses(s.tree, s.tree[p].block);
    }
    forall p | p in t ensures !(e.block <= t[p].block < e.block + e.numPages) {
      assert Uses(t, t[p].block);
      UsesAfter(s, rest, t[p].block);
    }
  }

  // ----- the header ------------------------------------------------------------------------------------------

  lemma {:induction false} CountsKeepChanges(a: seq<LogRec>, b: seq<LogRec>, d: Addr)
    requires OnlyCounts(a, b)
    ensures LastAttr(a) == LastAttr(b) && LastTruncAttr(a) == LastTruncAttr(b)
    ensures forall p :: LateOn(a, p) <==> LateOn(b, p)
    ensures LastChange(a, d) == LastChange(b, d) && LastLinkChange(a, d) == LastLinkChange(b, d)
    decreases |a|
  {
    if a != [] {
      var n := |a| - 1;
      assert SameButCount(a[n], b[n]);
      forall i | 0 <= i < n ensures SameButCount(a[..n][i], b[..n][i]) {
        assert SameButCount(a[i], b[i]);
      }
      CountsKeepChanges(a[..n], b[..n], d);
    }
  }

  /** Counting invalid pages does nothing to the header. */
  lemma CountsKeepHeaders(base: seq<LogRec>, hb: Head, a: seq<LogRec>, b: seq<LogRec>, h: Head)
    requires HeadersKept(base, hb, a, h) && OnlyCounts(a, b) && Replay(FRESH, a) == Replay(FRESH, b)
    ensures HeadersKept(base, hb, b, h)
  {
    CountsKeepSecure(a, b, h.ls);
    CountsKeepChanges(a, b, h.ll);
  }

  lemma CountsKeepSecure(a: seq<LogRec>, b: seq<LogRec>, ls: Addr)
    requires OnlyCounts(a, b)
    ensures Secure(a, ls) <==> Secure(b, ls)
    ensures LastAttr(a) == LastAttr(b) && LastChange(a, NOWHERE) == LastChange(b, NOWHERE)
  {
    CountsKeepChanges(a, b, NOWHERE);
    if r :| r in a && r.addr == ls && Truncates(r) {
      var i :| 0 <= i < |a| && a[i] == r;
      assert SameButCount(a[i], b[i]);
      assert b[i] in b;
    }
    if r :| r in b && r.addr == ls && Truncates(r) {
      var i :| 0 <= i < |b| && b[i] == r;
      assert SameButCount(a[i], b[i]);
      assert a[i] in a;
    }
  }

  /** Writing touches neither the attributes nor the link count. */
  lemma CommitKeepsHeaders(base: seq<LogRec>, hb: Head, log0: seq<LogRec>, rest: seq<LogRec>, log: seq<LogRec>, h: Head)
    requires HeadersKept(base, hb, log0, h) && AllWrites(rest)
    requires OnlyCounts(log0 + rest, log) && Replay(FRESH, log0 + rest) == Replay(FRESH, log)
    ensures HeadersKept(base, hb, log, h)
  {
    forall i | 0 <= i < |rest| ensures !rest[i].e.SetAttr? && !rest[i].e.LinkChange? {
      assert NewWrite(rest[i]);
    }
    AppendKeepsHeaders(base, hb, log0, h, rest);
    CountsKeepHeaders(base, hb, log0 + rest, log, h);
  }

  // ----- reading runs ----------------------------------------------------------------------------------------

  /** With exact counts, an entry without invalid pages gives all its pages. */
  lemma EntryRun(tree: Index, slots: map<nat, Slot>, log: seq<LogRec>, q: nat, index: nat)
    requires Matches(tree, slots) && AllGiven(slots, log) && Counted(tree, log, map[]) && DistinctAddrs(log)
    requires Owner(tree, slots, log, index, q) && log[q].e.invalidPages == 0
    ensures var e := log[q].e; RunOf(Blocks(slots), index, e.numPages - (index - e.pgoff), BlockOf(e, index))
  {
    var e := log[q].e;
    WholeRun(tree, log, q);
    forall p | index <= p < e.pgoff + e.numPages ensures p in slots && slots[p].block == NthBlock(BlockOf(e, index),
        index, p) {
      assert Covers(e, p);
      assert Given(log, p, slots[p]);
      var i: nat :| Gives(log, i, p, slots[p]);
      assert log[i].addr == log[q].addr;
      assert i == q;
    }
  }
}
