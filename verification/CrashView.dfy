/** What a mount reads after a crash: which file a crash image holds. */
module CrashView {
  import opened LogPages
  import opened FileReplay
  import opened LogSurgery
  import opened InodeLogs
  import opened LogMeaning
  import opened FileData
  import opened WriteRuns
  import opened SizeChange

  /** The log is sound, and replaying it over the bytes `d` gives a file of `size`
      bytes that reads like the page map `blocks` over `data`. */
  ghost predicate ReadsAs(log: seq<LogRec>, d: Mem, blocks: map<nat, nat>, size: nat, data: Mem) {
    && Sound(0, log) && Replay(FRESH, log).size == size
    && forall off: nat :: off < size ==> FileByte(Blocks(Replay(FRESH, log).tree), d, off) == FileByte(blocks, data,
       off)
  }

  /** A mount finds a log, only one, and it gives this file. */
  ghost predicate HoldsFile(c: Crash, blocks: map<nat, nat>, size: nat, data: Mem) {
    && (exists log: seq<LogRec> :: Shows(c.img, log))
    && (forall log: seq<LogRec> :: Shows(c.img, log) ==> ReadsAs(log, c.data, blocks, size, data))
  }

  /** Every image but the torn ones holds this file. */
  ghost predicate AllHold(crashes: seq<Crash>, blocks: map<nat, nat>, size: nat, data: Mem) {
    forall i :: 0 <= i < |crashes| ==> Torn(crashes[i].img) || HoldsFile(crashes[i], blocks, size, data)
  }

  /** Before the commit the old file can be read. */
  lemma CrashReadsOldFile(c: Crash, base: seq<LogRec>, data: Mem)
    requires Safe(c.img, base) && Sound(0, base)
    requires OldKept(Blocks(Replay(FRESH, base).tree), c.data, data)
    ensures HoldsFile(c, Blocks(Replay(FRESH, base).tree), Replay(FRESH, base).size, data)
  {
    CrashKeepsFile(c.img, base);
  }

  lemma OldFileHeld(trace: seq<Crash>, base: seq<LogRec>, tore: bool, data: Mem)
    requires TraceOk(trace, base, tore) && Sound(0, base)
    requires AllKept(trace, Blocks(Replay(FRESH, base).tree), data)
    ensures AllHold(trace, Blocks(Replay(FRESH, base).tree), Replay(FRESH, base).size, data)
  {
    forall i | 0 <= i < |trace| && !Torn(trace[i].img)
      ensures HoldsFile(trace[i], Blocks(Replay(FRESH, base).tree), Replay(FRESH, base).size, data)
    {
      CrashReadsOldFile(trace[i], base, data);
    }
  }

  /** From the commit on the new file can be read. */
  lemma CrashReadsNewFile(c: Crash, goal: State, data: Mem)
    requires Finds(c.img, goal) && Visible(c.data, data, goal)
    ensures HoldsFile(c, Blocks(goal.tree), goal.size, data)
  {
    var found :| Shows(c.img, found) && Sound(0, found) && Replay(FRESH, found) == goal;
    forall log: seq<LogRec> | Shows(c.img, log) ensures ReadsAs(log, c.data, Blocks(goal.tree), goal.size, data) {
      ShowsOne(c.img, found, log);
    }
  }

  lemma NewFileHeld(after: seq<Crash>, goal: State, data: Mem)
    requires AfterOk(after, goal, data)
    ensures AllHold(after, Blocks(goal.tree), goal.size, data)
  {
    forall i | 0 <= i < |after| ensures HoldsFile(after[i], Blocks(goal.tree), goal.size, data) {
      CrashReadsNewFile(after[i], goal, data);
    }
  }

  /** After a crash at this point a file that ends at `size` has nothing behind its end. */
  ghost predicate ZeroPastIn(c: Crash, size: nat) {
    forall log: seq<LogRec> :: Shows(c.img, log) ==> ZeroPast(Blocks(Replay(FRESH, log).tree), c.data, size)
  }

  /** The page in which the file is to end holds zeros from the end on. */
  ghost predicate LastPageZero(blocks: map<nat, nat>, data: Mem, size: nat) {
    forall off: nat :: size <= off < PagesFor(size) * BLOCK ==> FileByte(blocks, data, off) == 0
  }

  /** The last page is zeroed after the commit.  A crash between the two leaves zeros
      past the end if and only if there were zeros already. */
  lemma ZeroPastAtCommitIff(after: seq<Crash>, goal: State, data: Mem, blocks: map<nat, nat>)
    requires AfterOk(after, goal, data) && after != []
    requires Blocks(goal.tree) == BelowBlocks(blocks, PagesFor(goal.size))
    ensures ZeroPastIn(after[0], goal.size) <==> LastPageZero(blocks, after[0].data, goal.size)
  {
    var c, size := after[0], goal.size;
    assert Finds(c.img, goal);
    var found :| Shows(c.img, found) && Sound(0, found) && Replay(FRESH, found) == goal;
    assert ZeroPastIn(c, size) <==> ZeroPast(Blocks(goal.tree), c.data, size) by {
      forall log: seq<LogRec> | Shows(c.img, log) ensures log == found {
        ShowsOne(c.img, found, log);
      }
    }
    var below := Blocks(goal.tree);
    forall off: nat
      ensures FileByte(below, c.data, off) == if off < PagesFor(size) * BLOCK then FileByte(blocks, c.data, off) else 0
    {
    }
  }

  /** One page is written and the file cut to 100 bytes: in the image of the commit the
      old byte 100 is still there and would come back if the file grew. */
  lemma StaleByteAtCommit(c: Crash, a: Addr, b: Addr, attr: Attr)
    requires Shows(c.img, [LogRec(a, FileWrite(0, 1, 0, 7, BLOCK)), LogRec(b, SetAttr(true, attr, 100))])
    requires c.data == map[7 * BLOCK + 100 := 1]
    ensures !ZeroPastIn(c, 100)
  {
    var w, t := LogRec(a, FileWrite(0, 1, 0, 7, BLOCK)), LogRec(b, SetAttr(true, attr, 100));
    var log := [w, t];
    assert log[1..] == [t] && [t][1..] == [];
    var s := Apply(FRESH, w);
    assert 0 in s.tree && s.tree[0].block == 7;
    var tree := Apply(s, t).tree;
    assert Replay(FRESH, log) == Replay(s, [t]) == Replay(Apply(s, t), []);
    assert PagesFor(100) == 1;
    assert 0 in tree && tree[0] == s.tree[0];
    assert FileByte(Blocks(tree), c.data, 100) == 1;
  }

  /** A torn image holds no file at all. */
  lemma TornHoldsNothing(c: Crash, blocks: map<nat, nat>, size: nat, data: Mem)
    requires Torn(c.img)
    ensures !HoldsFile(c, blocks, size, data)
  {
    TornIsUnreadable(c.img, []);
  }
}
