/** Directory logs: what replaying one gives, and why collection does not change it.
Names are kept under their hash; two names of a directory are taken to have
different hashes. */
module DirLogs {
  import opened LogPages
  import opened FileReplay
  import opened LogSurgery
  import opened LogSweep
  import opened InodeLogs
  import opened LogMeaning
  import opened HeaderRuns

  /** The entry that gives a name, and the inode it names. */
  datatype DirSlot = DirSlot(addr: Addr, ino: nat)

  datatype DirState = DirState(tree: map<nat, DirSlot>, ok: bool)

  /** A valid entry that adds a name with hash h. */
  predicate Adds(r: LogRec, h: nat) {
    r.e.Dentry? && r.e.ino != 0 && !r.e.invalid && Hash(r.e.name) == h
  }

  predicate Removes(r: LogRec, h: nat) {
    r.e.Dentry? && r.e.ino == 0 && Hash(r.e.name) == h
  }

  /** One iteration of the mount-time loop; it stops at the first conflict. */
  function DirApply(s: DirState, r: LogRec): DirState {
    if !s.ok || !r.e.Dentry? then s
    else
      var h := Hash(r.e.name);
      if r.e.ino == 0 then s.(tree := s.tree - {h})
      else if r.e.invalid then s
      else if r.e.name == [] || h in s.tree then s.(ok := false)
      else s.(tree := s.tree[h := DirSlot(r.addr, r.e.ino)])
  }

  function DirReplay(log: seq<LogRec>): DirState {
    if log == [] then DirState(map[], true) else DirApply(DirReplay(log[..|log| - 1]), log[|log| - 1])
  }

  /** `r` may come after `x`: it neither adds nor removes the name that `x` adds. */
  predicate MayFollow(x: LogRec, r: LogRec) {
    Adds(x, if x.e.Dentry? then Hash(x.e.name) else 0) ==> !Adds(r, Hash(x.e.name)) && !Removes(r, Hash(x.e.name))
  }

  ghost predicate AllMayPrecede(log: seq<LogRec>, r: LogRec) {
    forall i :: 0 <= i < |log| ==> MayFollow(log[i], r)
  }

  /** The logs that a run without crashes can write: once a name has been removed
      its entry is marked invalid. */
  ghost predicate DirSound(log: seq<LogRec>) {
    log == [] ||
    (var r := log[|log| - 1];
     && DirSound(log[..|log| - 1]) && AllMayPrecede(log[..|log| - 1], r)
     && (r.e.Dentry? && r.e.ino != 0 && !r.e.invalid ==> r.e.name != []) && !r.e.FileWrite?)
  }

  lemma {:induction false} NoWritesIn(log: seq<LogRec>)
    requires DirSound(log)
    ensures forall r :: r in log ==> !r.e.FileWrite?
    decreases |log|
  {
    if log != [] {
      NoWritesIn(log[..|log| - 1]);
      assert log == log[..|log| - 1] + [log[|log| - 1]];
    }
  }

  /** The collectors' test of a name, told from the index: an entry is in use if and only
      if replay gives it a slot. */
  lemma DirIndexExact(log: seq<LogRec>)
    requires DirSound(log) && DistinctAddrs(log)
    ensures Exact(Index(DirReplay(log).tree), log)
  {
    var tree := DirReplay(log).tree;
    ReplayFindsNames(log);
    NoWritesIn(log);
    hide DirSound, DirReplay, Hash;
    forall r | r in log ensures IndexTells(Index(tree), r) {
      var i :| 0 <= i < |log| && log[i] == r;
      if r.e.Dentry? {
        var h := Hash(r.e.name);
        if Adds(r, h) {
          assert h in tree && tree[h].addr == r.addr && Index(tree)[h] == r.addr;
        }
        if Pointed(Index(tree), r.addr) {
          var p :| p in Index(tree) && Index(tree)[p] == r.addr;
          assert Named(log, p);
          var j :| 0 <= j < |log| && Adds(log[j], p);
          assert tree[p].addr == log[j].addr;
          assert i == j;
        }
      }
    }
  }

  // ----- replay gives the live names ---------------------------------------------------------------------

  ghost predicate Named(log: seq<LogRec>, h: nat) {
    exists i :: 0 <= i < |log| && Adds(log[i], h)
  }

  /** The index holds exactly the valid entries. */
  ghost predicate LiveNames(tree: map<nat, DirSlot>, log: seq<LogRec>) {
    && (forall h :: h in tree <==> Named(log, h))
    && (forall i, h :: 0 <= i < |log| && Adds(log[i], h) ==> h in tree && tree[h] == DirSlot(log[i].addr, log[i].e.ino))
  }

  lemma NamedMore(log: seq<LogRec>, r: LogRec, h: nat)
    ensures Named(log + [r], h) <==> Named(log, h) || Adds(r, h)
  {
    var all := log + [r];
    if Named(log, h) {
      var i :| 0 <= i < |log| && Adds(log[i], h);
      assert Adds(all[i], h);
    }
    if Adds(r, h) {
      assert Adds(all[|log|], h);
    }
    if Named(all, h) {
      var i :| 0 <= i < |all| && Adds(all[i], h);
      assert i < |log| ==> Adds(log[i], h);
    }
  }

  lemma NotNamed(log: seq<LogRec>, r: LogRec, h: nat)
    requires AllMayPrecede(log, r) && (Adds(r, h) || Removes(r, h))
    ensures !Named(log, h)
  {
    forall i | 0 <= i < |log| ensures !Adds(log[i], h) {
      assert MayFollow(log[i], r);
    }
  }

  /** Replay meets no conflict and finds exactly the names whose entries are valid. */
  lemma {:induction false} ReplayFindsNames(log: seq<LogRec>)
    requires DirSound(log)
    ensures DirReplay(log).ok && LiveNames(DirReplay(log).tree, log)
    decreases |log|
  {
    if log != [] {
      var n := |log| - 1;
      var init, r := log[..n], log[n];
      ReplayFindsNames(init);
      assert log == init + [r];
      forall h: nat ensures Named(log, h) <==> Named(init, h) || Adds(r, h) {
        NamedMore(init, r, h);
      }
      if r.e.Dentry? && (Adds(r, Hash(r.e.name)) || Removes(r, Hash(r.e.name))) {
        NotNamed(init, r, Hash(r.e.name));
      }
      assert forall i :: 0 <= i < n ==> log[i] == init[i];
      NamesStep(DirReplay(init), init, r);
    }
  }

  lemma NamesStep(s: DirState, log: seq<LogRec>, r: LogRec)
    requires s.ok && LiveNames(s.tree, log)
    requires r.e.Dentry? && (Adds(r, Hash(r.e.name)) || Removes(r, Hash(r.e.name))) ==> !Named(log, Hash(r.e.name))
    requires r.e.Dentry? && r.e.ino != 0 && !r.e.invalid ==> r.e.name != []
    ensures DirApply(s, r).ok && LiveNames(DirApply(s, r).tree, log + [r])
  {
    var all, t := log + [r], DirApply(s, r).tree;
    forall h: nat ensures h in t <==> Named(all, h) {
      NamedMore(log, r, h);
    }
    forall i, h | 0 <= i < |all| && Adds(all[i], h) ensures h in t && t[h] == DirSlot(all[i].addr, all[i].e.ino) {
      if i < |log| {
        assert Adds(log[i], h);
        assert Named(log, h);
      }
    }
  }

  // ----- collection --------------------------------------------------------------------------------------

  lemma {:induction false} SubsetMayPrecede(a: seq<LogRec>, b: seq<LogRec>, r: LogRec)
    requires AllMayPrecede(a, r) && forall i :: 0 <= i < |b| ==> b[i] in a
    ensures AllMayPrecede(b, r)
  {
    forall i | 0 <= i < |b| ensures MayFollow(b[i], r) {
      assert b[i] in a;
    }
  }

  /** Dropping entries that the collectors consider invalid changes no name. */
  lemma {:induction false} CompactionKeepsNames(a: seq<LogRec>, b: seq<LogRec>, ls: Addr, ll: Addr)
    requires DirSound(a) && Compacted(a, b, ls, ll)
    ensures DirSound(b) && DirReplay(b) == DirReplay(a)
    decreases |a|
  {
    if a != [] {
      var n := |a| - 1;
      var init, r := a[..n], a[n];
      assert a == init + [r];
      CompactedLast(init, r, b, ls, ll);
      ReplayFindsNames(init);
      if b != [] && b[|b| - 1] == r && Compacted(init, b[..|b| - 1], ls, ll) {
        CompactionKeepsNames(init, b[..|b| - 1], ls, ll);
        CompactedSubset(init, b[..|b| - 1], ls, ll);
        SubsetMayPrecede(init, b[..|b| - 1], r);
      } else {
        CompactionKeepsNames(init, b, ls, ll);
        if r.e.Dentry? && r.e.ino == 0 {
          NotNamed(init, r, Hash(r.e.name));
          assert DirReplay(init).tree - {Hash(r.e.name)} == DirReplay(init).tree;
        }
      }
    }
  }

  function MoveSlots(moves: map<Addr, Addr>, tree: map<nat, DirSlot>): map<nat, DirSlot> {
    map h | h in tree :: DirSlot(Moved(moves, tree[h].addr), tree[h].ino)
  }

  /** Moving entries renames the slots of the index. */
  lemma {:induction false} MovesKeepNames(moves: map<Addr, Addr>, log: seq<LogRec>)
    requires DirSound(log)
    ensures DirSound(MoveLog(moves, log))
    ensures DirReplay(MoveLog(moves, log)) == DirState(MoveSlots(moves, DirReplay(log).tree), DirReplay(log).ok)
    decreases |log|
  {
    if log != [] {
      var n := |log| - 1;
      MoveInit(moves, log);
      MovesKeepNames(moves, log[..n]);
      var moved := MoveLog(moves, log);
      forall i | 0 <= i < n ensures MayFollow(moved[..n][i], moved[n]) {
        MovedAt(moves, log[..n], i);
        assert MayFollow(log[..n][i], log[n]);
      }
      MovedStep(moves, DirReplay(log[..n]), log[n]);
    } else {
      assert MoveSlots(moves, map[]) == map[];
    }
  }

  lemma {:induction false} MovedAt(moves: map<Addr, Addr>, log: seq<LogRec>, i: nat)
    requires i < |log|
    ensures |MoveLog(moves, log)| == |log| && MoveLog(moves, log)[i] == MoveRec(moves, log[i])
    decreases |log|
  {
    if i > 0 {
      MovedAt(moves, log[1..], i - 1);
    }
  }

  lemma MovedStep(moves: map<Addr, Addr>, s: DirState, r: LogRec)
    ensures DirApply(DirState(MoveSlots(moves, s.tree), s.ok), MoveRec(moves, r)) ==
            DirState(MoveSlots(moves, DirApply(s, r).tree), DirApply(s, r).ok)
  {
    var t := DirApply(s, r).tree;
    var u := DirApply(DirState(MoveSlots(moves, s.tree), s.ok), MoveRec(moves, r)).tree;
    assert u == MoveSlots(moves, t);
  }

  /** The inode behind each name. */
  function Inos(tree: map<nat, DirSlot>): map<nat, nat> {
    map h | h in tree :: tree[h].ino
  }

  /** The live index: where the entry of each name lies. */
  function Index(tree: map<nat, DirSlot>): map<nat, Addr> {
    map h | h in tree :: tree[h].addr
  }

  /** A collection leaves a directory whose replay gives the same names, and the live
      index follows. */
  lemma GcKeepsNames(log0: seq<LogRec>, tree0: map<nat, Addr>, ll0: Addr, log: seq<LogRec>, tree: map<nat, Addr>,
                     mid: seq<LogRec>, moves: map<Addr, Addr>)
    requires GcLog(log0, tree0, ll0, log, tree, mid, moves) && DirSound(log0) && tree0 == Index(DirReplay(log0).tree)
    ensures DirSound(log) && tree == Index(DirReplay(log).tree)
    ensures Inos(DirReplay(log).tree) == Inos(DirReplay(log0).tree)
  {
    CompactionKeepsNames(log0, mid, NOWHERE, ll0);
    MovesKeepNames(moves, mid);
    MovedIndex(moves, DirReplay(mid).tree);
  }

  lemma MovedIndex(moves: map<Addr, Addr>, tree: map<nat, DirSlot>)
    ensures Index(MoveSlots(moves, tree)) == MoveAddrs(moves, Index(tree)) && Inos(MoveSlots(moves, tree)) == Inos(tree)
  {
  }

  /** A mount finds a log, only one, meets no conflict and gets these names. */
  ghost predicate HoldsNames(img: Image, names: map<nat, nat>) {
    && (exists log: seq<LogRec> :: Shows(img, log))
    && forall log: seq<LogRec> :: Shows(img, log) ==> DirReplay(log).ok && Inos(DirReplay(log).tree) == names
  }

  /** Every image holds these names. */
  ghost predicate AllHoldNames(crashes: seq<Crash>, names: map<nat, nat>) {
    forall i :: 0 <= i < |crashes| ==> HoldsNames(crashes[i].img, names)
  }

  /** A crash before the commit, at any image but a torn one: the next mount finds
      exactly one log, and it gives the old names. */
  lemma CrashKeepsNames(img: Image, base: seq<LogRec>)
    requires Safe(img, base) && DirSound(base)
    ensures HoldsNames(img, Inos(DirReplay(base).tree))
  {
    var found :| Shows(img, found) && Collected(base, found);
    var mid: seq<LogRec>, moves: map<Addr, Addr> :|
      Compacted(base, mid, NOWHERE, NOWHERE) && found == MoveLog(moves, mid);
    CompactionKeepsNames(base, mid, NOWHERE, NOWHERE);
    MovesKeepNames(moves, mid);
    MovedIndex(moves, DirReplay(mid).tree);
    ReplayFindsNames(found);
    OnlyLog(img, found);
  }

  lemma OnlyLog(img: Image, found: seq<LogRec>)
    requires Shows(img, found) && DirReplay(found).ok
    ensures HoldsNames(img, Inos(DirReplay(found).tree))
  {
    forall log: seq<LogRec> | Shows(img, log) ensures log == found {
      ShowsOne(img, log, found);
    }
  }

  lemma OldNamesHeld(trace: seq<Crash>, base: seq<LogRec>)
    requires TraceOk(trace, base, false) && DirSound(base)
    ensures AllHoldNames(trace, Inos(DirReplay(base).tree))
  {
    forall i | 0 <= i < |trace|
      ensures HoldsNames(trace[i].img, Inos(DirReplay(base).tree))
    {
      CrashKeepsNames(trace[i].img, base);
    }
  }

  // ----- adding and removing -----------------------------------------------------------------------------

  lemma AddName(log: seq<LogRec>, r: LogRec)
    requires DirSound(log) && Adds(r, if r.e.Dentry? then Hash(r.e.name) else 0) && r.e.name != []
    requires Hash(r.e.name) !in DirReplay(log).tree
    ensures DirSound(log + [r])
    ensures DirReplay(log + [r]) == DirState(DirReplay(log).tree[Hash(r.e.name) := DirSlot(r.addr, r.e.ino)], true)
  {
    var all, h := log + [r], Hash(r.e.name);
    ReplayFindsNames(log);
    assert all[..|log|] == log;
    forall i | 0 <= i < |log| ensures MayFollow(log[i], r) {
      assert Adds(log[i], h) ==> Named(log, h);
    }
  }

  function Invalid(r: LogRec): LogRec
    requires r.e.Dentry?
  {
    r.(e := r.e.(invalid := true))
  }

  lemma {:induction false} InvalidSound(log: seq<LogRec>, q: nat)
    requires DirSound(log) && q < |log| && log[q].e.Dentry?
    ensures DirSound(log[q := Invalid(log[q])])
    decreases |log|
  {
    var n := |log| - 1;
    var out := log[q := Invalid(log[q])];
    if q < n {
      InvalidSound(log[..n], q);
      assert out[..n] == log[..n][q := Invalid(log[q])];
      forall i | 0 <= i < n ensures MayFollow(out[..n][i], out[n]) {
        assert MayFollow(log[..n][i], log[n]);
      }
    } else {
      assert out[..n] == log[..n];
      forall i | 0 <= i < n ensures MayFollow(out[..n][i], out[n]) {
        assert MayFollow(log[..n][i], log[n]);
      }
    }
  }

  /** Marking the entry of a name invalid takes exactly that name away. */
  lemma InvalidateName(log: seq<LogRec>, q: nat, h: nat)
    requires DirSound(log) && q < |log| && Adds(log[q], h)
    ensures DirSound(log[q := Invalid(log[q])])
    ensures DirReplay(log[q := Invalid(log[q])]) == DirState(DirReplay(log).tree - {h}, true)
  {
    var out := log[q := Invalid(log[q])];
    InvalidSound(log, q);
    ReplayFindsNames(log);
    ReplayFindsNames(out);
    hide DirReplay, DirSound, Hash;
    var t, u := DirReplay(log).tree, DirReplay(out).tree;
    forall x: nat ensures x in u <==> x in t && x != h {
      NamedWithout(log, q, h, x);
    }
    forall x | x in u ensures u[x] == t[x] {
      var i :| 0 <= i < |out| && Adds(out[i], x);
      assert Adds(log[i], x);
    }
    assert u == t - {h};
  }

  lemma NamedWithout(log: seq<LogRec>, q: nat, h: nat, x: nat)
    requires DirSound(log) && q < |log| && Adds(log[q], h)
    ensures Named(log[q := Invalid(log[q])], x) <==> Named(log, x) && x != h
  {
    var out := log[q := Invalid(log[q])];
    hide Hash;
    if Named(out, x) {
      var i :| 0 <= i < |out| && Adds(out[i], x);
      assert i != q && Adds(log[i], x);
      if x == h {
        OneEntry(log, i, q, h);
      }
    }
    if Named(log, x) && x != h {
      var i :| 0 <= i < |log| && Adds(log[i], x);
      assert Adds(out[i], x);
    }
  }

  lemma {:induction false} OneEntry(log: seq<LogRec>, i: nat, j: nat, h: nat)
    requires DirSound(log) && i < |log| && j < |log| && Adds(log[i], h) && Adds(log[j], h)
    ensures i == j
    decreases |log|
  {
    var n := |log| - 1;
    assert forall x :: 0 <= x < n ==> MayFollow(log[..n][x], log[n]) && log[..n][x] == log[x];
    if i < n && j < n {
      OneEntry(log[..n], i, j, h);
    }
  }

  lemma RemoveName(log: seq<LogRec>, r: LogRec)
    requires DirSound(log) && r.e.Dentry? && r.e.ino == 0 && Hash(r.e.name) !in DirReplay(log).tree
    ensures DirSound(log + [r]) && DirReplay(log + [r]) == DirReplay(log)
  {
    var all, h := log + [r], Hash(r.e.name);
    ReplayFindsNames(log);
    assert all[..|log|] == log;
    forall i | 0 <= i < |log| ensures MayFollow(log[i], r) {
      assert Adds(log[i], h) ==> Named(log, h);
    }
    assert DirReplay(log).tree - {h} == DirReplay(log).tree;
  }

  // ----- the two first entries ---------------------------------------------------------------------------

  /** The bytes that an entry with this name takes. */
  function DentryLen(name: string): nat {
    Len(Dentry(name, 0, false, 0, 0))
  }

  /** The length of an entry with a name of one or two characters. */
  const DOT_LEN: nat := 32

  /** A valid entry of this name. */
  predicate Gives(r: LogRec, name: string) {
    r.e.Dentry? && r.e.name == name && r.e.ino != 0 && !r.e.invalid
  }

  /** The log begins with "." at the start of its first page and ".." right behind,
      where rename looks for it. */
  predicate DotsFirst(log: seq<LogRec>, head: nat) {
    && 2 <= |log| && Gives(log[0], ".") && Gives(log[1], "..")
    && log[0].addr == Addr(head, 0) && log[1].addr == Addr(head, DOT_LEN)
  }

  lemma DotHashes()
    ensures Hash(".") == 46 && Hash("..") == 6072
  {
    assert "."[..0] == [] && ".."[..1] == ".";
  }

  /** The first records stay the first when dead pages go. */
  lemma PurgedPrefix(log: seq<LogRec>, gone: set<nat>, n: nat)
    requires n <= |log| && forall i :: 0 <= i < n ==> log[i].addr.page !in gone
    ensures n <= |Purged(log, gone)| && Purged(log, gone)[..n] == log[..n]
  {
    assert log == log[..n] + log[n..];
    PurgedConcat(log[..n], log[n..], gone);
    PurgedAll(log[..n], gone);
  }

  lemma {:induction false} CopyPrefix(a: seq<LogRec>, b: seq<LogRec>, ls: Addr, ll: Addr)
    ensures Copy(a, ls, ll).kept <= Copy(a + b, ls, ll).kept
    decreases |b|
  {
    if b == [] {
      assert a + b == a;
    } else {
      assert (a + b)[..|a + b| - 1] == a + b[..|b| - 1];
      CopyPrefix(a, b[..|b| - 1], ls, ll);
    }
  }

  /** "." and ".." are copied first. */
  lemma CopyDots(pre: seq<LogRec>, ls: Addr, ll: Addr)
    requires 2 <= |pre| && Gives(pre[0], ".") && Gives(pre[1], "..")
    ensures var kept := Copy(pre, ls, ll).kept; 2 <= |kept| && kept[0] == pre[0] && kept[1] == pre[1]
  {
    var one, two := [pre[0]], [pre[0], pre[1]];
    assert one[..0] == [] && two[..1] == one;
    assert Copy(one, ls, ll).kept == [] + [pre[0]] && Copy(two, ls, ll).kept == one + [pre[1]];
    assert pre == two + pre[2..];
    CopyPrefix(two, pre[2..], ls, ll);
  }

  /** What fast collection leaves begins with the two entries. */
  lemma DotsSwept(log0: seq<LogRec>, h0: Head, head0: nat, how: Collection)
    requires how.ran && FastSteps(log0, h0, how) && DotsFirst(log0, head0)
    ensures var fast := how.pre + how.post; 2 <= |fast| && fast[0] == log0[0] && fast[1] == log0[1]
  {
    var fast := how.pre + how.post;
    var gone: set<nat> :| Sweeps(log0, fast, gone, h0.ls, h0.ll, how.tail);
    assert log0[0] in log0 && log0[1] in log0;
    PurgedPrefix(log0, gone, 2);
    assert fast[..2][0] == fast[0] && fast[..2][1] == fast[1] && log0[..2][0] == log0[0] && log0[..2][1] == log0[1];
  }

  /** The two entries lie before the tail page when there is something to copy. */
  lemma DotsBefore(log0: seq<LogRec>, head0: nat, pre: seq<LogRec>, post: seq<LogRec>, tail: nat, h: Head)
    requires DotsFirst(log0, head0) && 2 <= |pre + post| && (pre + post)[0] == log0[0] && (pre + post)[1] == log0[1]
    requires (forall r :: r in pre ==> r.addr.page != tail) && forall r :: r in post ==> r.addr.page == tail
    requires ThoroughDue(pre, h.ls, h.ll)
    ensures 2 <= |pre| && pre[0] == log0[0] && pre[1] == log0[1]
  {
    assert pre == [] ==> PagesOf(pre) == {};
    var all := pre + post;
    assert all[0] == pre[0] && pre[0] in pre;
    assert forall i :: |pre| <= i < |all| ==> all[i] == post[i - |pre|] && all[i] in post;
  }

  /** Thorough collection copies them first, one behind the other. */
  lemma DotsCopied(log0: seq<LogRec>, h0: Head, head0: nat, log: seq<LogRec>, h: Head, how: Collection, head: nat)
    requires GcSteps(log0, h0, log, h, how) && how.switched && DotsFirst(log0, head0)
    requires head != 0 && (log != [] ==> log[0].addr == Addr(head, 0))
    ensures DotsFirst(log, head)
  {
    hide Copy, Swept, AllLive, ThoroughDue, MovesFrom, FreshMoves, HeadsAfter, MoveLog, Tightly;
    DotsSwept(log0, h0, head0, how);
    DotsBefore(log0, head0, how.pre, how.post, how.tail, h0);
    DotsMoved(how.pre, how.post, how.moves, h0, log, head);
  }

  lemma DotsMoved(pre: seq<LogRec>, post: seq<LogRec>, moves: map<Addr, Addr>, h0: Head, log: seq<LogRec>, head: nat)
    requires 2 <= |pre| && Gives(pre[0], ".") && Gives(pre[1], "..")
    requires Tightly(NOWHERE, MoveLog(moves, Copy(pre, h0.ls, h0.ll).kept))
    requires log == MoveLog(moves, Copy(pre, h0.ls, h0.ll).kept + post)
    requires head != 0 && (log != [] ==> log[0].addr == Addr(head, 0))
    ensures DotsFirst(log, head)
  {
    CopyDots(pre, h0.ls, h0.ll);
    hide Copy, MoveLog;
    var kept := Copy(pre, h0.ls, h0.ll).kept;
    var copied := MoveLog(moves, kept);
    MoveConcat(moves, kept, post);
    MovedAt(moves, kept, 0);
    MovedAt(moves, kept, 1);
    assert log[0] == copied[0] && log[1] == copied[1];
    assert Tight(Cursor(NOWHERE, copied, 1), Len(copied[1].e), copied[1].addr);
  }

  /** No collection moves the two entries from their place. */
  lemma GcKeepsDots(log0: seq<LogRec>, h0: Head, head0: nat, log: seq<LogRec>, h: Head, how: Collection, head: nat)
    requires GcSteps(log0, h0, log, h, how) && DotsFirst(log0, head0)
    requires head != 0 && (log != [] ==> log[0].addr == Addr(head, 0))
    ensures DotsFirst(log, head)
  {
    if how.switched {
      DotsCopied(log0, h0, head0, log, h, how, head);
    } else {
      MoveNowhere(how.pre + how.post);
      if how.ran {
        DotsSwept(log0, h0, head0, how);
      } else {
        assert [] + log0 == log0;
      }
    }
  }

  /** Replacing the inode of an entry changes what its name stands for. */
  lemma AddsAlike(log: seq<LogRec>, q: nat, ino: nat, x: nat)
    requires q < |log| && log[q].e.Dentry? && log[q].e.ino != 0 && ino != 0
    ensures var out := log[q := LogRec(log[q].addr, log[q].e.(ino := ino))];
            (exists i :: 0 <= i < |out| && Adds(out[i], x)) <==> exists i :: 0 <= i < |log| && Adds(log[i], x)
  {
    var out := log[q := LogRec(log[q].addr, log[q].e.(ino := ino))];
    assert forall i :: 0 <= i < |log| ==> (Adds(out[i], x) <==> Adds(log[i], x));
  }

  lemma ReplaceIno(log: seq<LogRec>, q: nat, h: nat, ino: nat)
    requires DirSound(log) && q < |log| && Adds(log[q], h) && ino != 0
    ensures var out := log[q := LogRec(log[q].addr, log[q].e.(ino := ino))];
            DirSound(out) && DirReplay(out) == DirState(DirReplay(log).tree[h := DirSlot(log[q].addr, ino)], true)
  {
    var out := log[q := LogRec(log[q].addr, log[q].e.(ino := ino))];
    ReplaceSound(log, q, ino);
    ReplayFindsNames(log);
    ReplayFindsNames(out);
    var t, u := DirReplay(log).tree, DirReplay(out).tree;
    hide DirReplay, DirSound;
    forall x: nat ensures x in u <==> x in t {
      AddsAlike(log, q, ino, x);
    }
    forall x | x in u ensures u[x] == if x == h then DirSlot(log[q].addr, ino) else t[x] {
      var i :| 0 <= i < |out| && Adds(out[i], x);
      assert Adds(log[i], x);
      if x == h {
        OneEntry(log, i, q, h);
      }
    }
    assert Adds(out[q], h);
    assert u == t[h := DirSlot(log[q].addr, ino)];
  }

  lemma {:induction false} ReplaceSound(log: seq<LogRec>, q: nat, ino: nat)
    requires DirSound(log) && q < |log| && log[q].e.Dentry? && log[q].e.ino != 0 && ino != 0
    ensures DirSound(log[q := LogRec(log[q].addr, log[q].e.(ino := ino))])
    decreases |log|
  {
    var n := |log| - 1;
    var out := log[q := LogRec(log[q].addr, log[q].e.(ino := ino))];
    if q < n {
      ReplaceSound(log[..n], q, ino);
      assert out[..n] == log[..n][q := out[q]];
    } else {
      assert out[..n] == log[..n];
    }
    forall i | 0 <= i < n ensures MayFollow(out[..n][i], out[n]) {
      assert MayFollow(log[..n][i], log[n]);
    }
  }
}
