/** A directory: its log and its index of names.  Names are added and removed as the
file system does it, and the live index always is what replay would build. */
module NovaDirs {
  import opened LogPages
  import opened FileReplay
  import opened LogSurgery
  import opened LogSweep
  import opened BlockLists
  import opened InodeLogs
  import opened LogMeaning
  import opened HeaderRuns
  import opened DirLogs
  import opened NameHash
  import opened FileData

  datatype NameOutcome = Done | NoName | Exists | Stopped

  /** A valid entry has the name. */
  ghost predicate HasName(log: seq<LogRec>, name: string) {
    exists i :: 0 <= i < |log| && Adds(log[i], Hash(name)) && log[i].e.name == name
  }

  ghost predicate AllShort(log: seq<LogRec>) {
    forall i :: 0 <= i < |log| && log[i].e.Dentry? ==> ShortName(log[i].e.name)
  }

  /** Among short names, a hash is in use if and only if the name is. */
  lemma ShortNames(log: seq<LogRec>, name: string)
    requires DirSound(log)
    ensures ShortName(name) && AllShort(log) ==> (Hash(name) in DirReplay(log).tree <==> HasName(log, name))
  {
    ReplayFindsNames(log);
    hide Hash, DirSound, DirReplay, ShortName;
    if ShortName(name) && AllShort(log) && Hash(name) in DirReplay(log).tree {
      assert Named(log, Hash(name));
      var i :| 0 <= i < |log| && Adds(log[i], Hash(name));
      if log[i].e.name != name {
        HashTellsApart(log[i].e.name, name);
      }
    }
  }

  /** The other short names, and what they stand for, stay. */
  ghost predicate OthersStay(name: string, names0: map<nat, nat>, names: map<nat, nat>) {
    forall other: string :: ShortName(other) && other != name ==>
      (Hash(other) in names <==> Hash(other) in names0)
          && (Hash(other) in names ==> names[Hash(other)] == names0[Hash(other)])
  }

  lemma OthersAreApart(name: string, names: map<nat, nat>, ino: nat)
    requires ShortName(name)
    ensures OthersStay(name, names, names - {Hash(name)}) && OthersStay(name, names, names[Hash(name) := ino])
  {
    forall other: string | ShortName(other) && other != name ensures Hash(other) != Hash(name) {
      HashTellsApart(name, other);
    }
  }

  class NovaDir {
    const log: InodeLog

    /** The live index is what replay would build, replay meets no conflict, and the
        log begins with "." and "..". */
    ghost predicate Valid()
      reads log
    {
      log.Inv() && DirOk()
    }

    ghost predicate DirOk()
      reads log`lay, log`k, log`j, log`tree, log`head
    {
      DirSound(log.Log()) && log.tree == Index(DirReplay(log.Log()).tree) && DotsFirst(log.Log(), log.head)
    }

    /** The inode behind each name, by hash. */
    ghost function Names(): map<nat, nat>
      reads log`lay, log`k, log`j
    {
      Inos(DirReplay(log.Log()).tree)
    }

    /** A directory without entries yet. */
    constructor (log: InodeLog)
      requires log.Inv() && log.head == 0 && log.tree == map[]
      ensures this.log == log
    {
      this.log := log;
    }

    /** Gives a new directory its entries "." and ".." and builds its index. */
    method AppendDirInitEntries(self: nat, parent: nat) returns (ok: bool)
      requires log.Inv() && log.head == 0 && log.tree == map[] && self != 0 && parent != 0
      modifies log
      ensures ok <==> !old(log.NoList(1))
      ensures ok ==> Valid() && Names() == map[Hash(".") := self, Hash("..") := parent]
      ensures ok ==> log.Log() == [LogRec(Addr(log.head, 0), Dentry(".", self, false, 1, 4096)),
                                   LogRec(Addr(log.head, DOT_LEN), Dentry("..", parent, false, 2, 4096))]
      ensures !ok ==> log.Inv() && log.head == 0 && log.tree == map[] && log.pool == old(log.pool)
    {
      ok := log.StartWithTwo(Dentry(".", self, false, 1, 4096), Dentry("..", parent, false, 2, 4096));
      if ok {
        RebuildTwo(self, parent);
        log.tree := map[Hash(".") := Addr(log.head, 0), Hash("..") := Addr(log.head, DOT_LEN)];
      }
    }

    /** What replaying the two entries gives. */
    lemma RebuildTwo(self: nat, parent: nat)
      requires self != 0 && parent != 0
      requires var a, b := Dentry(".", self, false, 1, 4096), Dentry("..", parent, false, 2, 4096);
               log.Log() == [LogRec(Addr(log.head, 0), a), LogRec(Addr(log.head, DOT_LEN), b)]
      ensures DirSound(log.Log()) && DotsFirst(log.Log(), log.head)
      ensures Index(DirReplay(log.Log()).tree) == map[Hash(".") := Addr(log.head, 0), Hash("..") := Addr(log.head,
              DOT_LEN)]
      ensures Inos(DirReplay(log.Log()).tree) == map[Hash(".") := self, Hash("..") := parent]
    {
      DotHashes();
      var r, q := log.Log()[0], log.Log()[1];
      assert [] + [r] == [r] && [r] + [q] == log.Log();
      AddName([], r);
      AddName([r], q);
    }

    lemma IndexInUse()
      requires log.Inv() && DirOk()
      ensures Indexed(log.tree, log.Log())
    {
      ReplayFindsNames(log.Log());
      forall h | h in log.tree ensures PointsInto(log.tree[h], h, log.Log()) {
        var i :| 0 <= i < |log.Log()| && Adds(log.Log()[i], h);
        assert log.Log()[i] in log.Log();
      }
    }

    /** Writes a directory entry behind the tail. */
    method AppendDirInodeEntry(e: Entry, num: nat) returns (outcome: NameOutcome, c: Addr)
      requires Valid() && e.Dentry? && Fits(e) && 0 < num
      modifies log`m, log`head, log`tail, log`trace, log`tore, log`pool, log`home, log`back, log`lay, log`k, log`j,
               log`validBytes,
               log`tree,
               log`lastSetattr, log`lastLink, log`base, log`heads0, log`blocks0, log`data0, log`home0
      ensures outcome.Done? || outcome.Stopped?
      ensures old(log.NoPlace(NOWHERE, Len(e), num)) ==> outcome.Stopped?
      ensures outcome.Stopped? ==> old(log.NoPlace(NOWHERE, Len(e), num)) || log.NoList(1)
      ensures log.base == old(log.Log()) && TraceOk(log.trace, log.base, log.tore) && !log.tore
      ensures log.home0 == old(log.home)
      ensures outcome.Done? ==>
                && log.Writing() && DirOk() && Names() == old(Names())
                && log.Rest() == [LogRec(c, e)] && log.EndsAt(Addr(c.page, c.off + Len(e)))
    {
      hide Gc, TraceOk, AllKept, OldKept, Collected, Indexed, DirSound, DirReplay, Index, Inos, InodeLog.Log,
           InodeLog.Rest,
           InodeLog.EndsAt, InodeLog.GoesOnAt, InodeLog.Inv, InodeLog.Owned, Tight, DotsFirst, NoneHas;
      IndexInUse();
      log.Begin(map[]);
      ghost var log0, tree0, h0, head0 := log.Log(), log.tree, log.Heads(), log.head;
      HasHead();
      FromTail();
      ghost var how;
      var ok;
      c, ok, how := log.Append(e, NOWHERE, num, log0, []);
      outcome := if ok && c.page != 0 then Done else Stopped;
      if outcome.Done? {
        AfterGc(log0, tree0, h0, head0, how);
      }
    }

    /** A directory has a first page. */
    lemma HasHead()
      requires log.Inv() && DotsFirst(log.Log(), log.head)
      ensures log.head != 0
    {
      log.FirstAtHead();
    }

    lemma FromTail()
      requires log.GoesOnAt(log.tail)
      ensures log.GoesOnAt(NOWHERE)
    {
    }

    lemma AfterGc(log0: seq<LogRec>, tree0: map<nat, Addr>, h0: Head, head0: nat, how: Collection)
      requires Gc(log0, tree0, h0, log.Log(), log.tree, log.Heads(), how)
      requires DirSound(log0) && tree0 == Index(DirReplay(log0).tree)
      requires DotsFirst(log0, head0) && log.Inv() && log.head != 0
      ensures DirOk() && Names() == Inos(DirReplay(log0).tree)
    {
      GcKeepsNames(log0, tree0, h0.ll, log.Log(), log.tree, Mid(how, h0), how.moves);
      if log.Log() != [] {
        log.FirstAtHead();
      }
      GcKeepsDots(log0, h0, head0, log.Log(), log.Heads(), how, log.head);
    }

    lemma ShortOrNot(name: string, ino: nat)
      requires Valid()
      ensures ShortName(name) && AllShort(log.Log()) ==> (Hash(name) in Names() <==> HasName(log.Log(), name))
      ensures ShortName(name) ==>
                && OthersStay(name, Names(), Names() - {Hash(name)}) && OthersStay(name, Names(),
                   Names()[Hash(name) := ino])
    {
      ShortNames(log.Log(), name);
      if ShortName(name) {
        OthersAreApart(name, Names(), ino);
      }
    }

    /** The last committed entry. */
    ghost predicate LastIs(e: Entry)
      reads log`lay, log`k, log`j
    {
      log.Log() != [] && log.Log()[|log.Log()| - 1].e == e
    }

    lemma InOrder()
      requires log.Writing()
      ensures log.Inv()
    {
    }

    /** Adds a name.  Exists: its hash is in the index already, and the directory stays as
        it was.  Stopped: the entry needs pages that no processor's list has, or collection
        ran out of pages.  Up to the commit every image holds the old names, from then on
        every image holds the new ones. */
    method AddDentry(name: string, ino: nat, links: nat, size: nat, num: nat) returns (outcome: NameOutcome)
      requires Valid() && ino > 0 && |name| <= 255 && 0 < num
      modifies log
      ensures !outcome.Stopped? ==> Valid()
      ensures name != [] && old(log.NoPlace(NOWHERE, DentryLen(name), num)) ==> outcome.Stopped?
      ensures outcome.Stopped? ==> old(log.NoPlace(NOWHERE, DentryLen(name), num)) || log.NoList(1)
      ensures outcome.NoName? <==> name == []
      ensures outcome.Done? ==> Hash(name) !in old(Names()) && Names() == old(Names())[Hash(name) := ino]
      ensures outcome.NoName? || outcome.Exists? ==> Names() == old(Names())
      ensures outcome.Exists? ==> Hash(name) in Names()
      ensures name != [] && !outcome.Stopped? && ShortName(name) && AllShort(old(log.Log())) ==>
                (outcome.Exists? <==> HasName(old(log.Log()), name))
      ensures outcome.Done? && ShortName(name) ==> OthersStay(name, old(Names()), Names())
      ensures outcome.Done? ==> LastIs(Dentry(name, ino, false, links, size))
      ensures name != [] ==> AllHoldNames(log.trace, old(Names()))
      ensures outcome.Done? || outcome.Exists? ==> log.ListsFrom(old(log.home))
      ensures outcome.Done? ==> log.after != [] && AllHoldNames(log.after, Names())
    {
      hide TraceOk, DirOk, Names, InodeLog.Writing, InodeLog.Rest, InodeLog.EndsAt, Hash, Adds, AllHoldNames, DirSound,
           InodeLog.NoPlace, InodeLog.NoList, InodeLog.ListsFrom, LastIs, ShortName, AllShort, HasName, OthersStay,
               InodeLog.Log,
           InodeLog.Inv;
      if |name| == 0 {
        return NoName;
      }
      NamesOf();
      ShortOrNot(name, ino);
      var e := Dentry(name, ino, false, links, size);
      var c;
      outcome, c := AppendDirInodeEntry(e, num);
      OldNamesHeld(log.trace, log.base);
      if outcome.Stopped? {
        return;
      }
      InOrder();
      log.ListsAre();
      var h := Hash(name);
      IsThere(h);
      if h in log.tree {
        outcome := Exists;
      } else {
        NewAdds(LogRec(c, e));
        CommitAdd(LogRec(c, e), h);
      }
    }

    lemma NamesOf()
      requires Valid()
      ensures DirSound(log.Log()) && Names() == Inos(DirReplay(log.Log()).tree)
    {
    }

    lemma NewAdds(r: LogRec)
      requires r.e.Dentry? && r.e.ino != 0 && !r.e.invalid
      ensures Adds(r, Hash(r.e.name))
    {
    }

    /** What the index tells of a name. */
    lemma IsThere(h: nat)
      requires log.Writing() && DirOk()
      ensures Valid() && (h in log.tree <==> h in Names())
    {
    }

    /** Puts the entry into the index and commits it. */
    method CommitAdd(r: LogRec, h: nat)
      requires log.Writing() && DirOk() && log.Rest() == [r] && log.EndsAt(Addr(r.addr.page, r.addr.off + Len(r.e)))
      requires Adds(r, h) && r.e.name != [] && h !in log.tree
      modifies log`tree, log`tail, log`k, log`j, log`after
      ensures Valid() && Names() == old(Names())[h := r.e.ino] && log.after != [] && AllHoldNames(log.after, Names())
      ensures LastIs(r.e)
    {
      hide TraceOk, AllKept, OldKept, Collected, Indexed, DirSound, DirReplay, InodeLog.Log, InodeLog.Rest,
           InodeLog.EndsAt, InodeLog.Inv, InodeLog.TraceSafe, Hash;
      ghost var log0 := log.Log();
      NewSlot(log.tree, log0, r, h);
      log.tree := log.tree[h := r.addr];
      log.UpdateTail(Addr(r.addr.page, r.addr.off + Len(r.e)), log0, [r]);
      StillFirst(log0, [r]);
      AddName(log0, r);
      AddedSlot(DirReplay(log0).tree, h, DirSlot(r.addr, r.e.ino));
      OnlyLog(log.Img(), log0 + [r]);
    }

    lemma StillFirst(log0: seq<LogRec>, rest: seq<LogRec>)
      requires DotsFirst(log0, log.head)
      ensures DotsFirst(log0 + rest, log.head)
    {
      assert (log0 + rest)[0] == log0[0] && (log0 + rest)[1] == log0[1];
    }

    /** The new entry, not yet committed, is in the index. */
    lemma NewSlot(tree: map<nat, Addr>, log0: seq<LogRec>, r: LogRec, h: nat)
      requires Indexed(tree, log0 + [r]) && Adds(r, h)
      ensures Indexed(tree[h := r.addr], log0 + [r])
    {
      var all, t := log0 + [r], tree[h := r.addr];
      forall p | p in t ensures PointsInto(t[p], p, all) {
        if p == h {
          assert all[|log0|] == r;
          assert r in all && KeyOf(r.e, p) && InUse(r, NOWHERE, NOWHERE);
        } else {
          assert PointsInto(tree[p], p, all);
        }
      }
    }

    lemma AddedSlot(tree: map<nat, DirSlot>, h: nat, s: DirSlot)
      ensures Index(tree[h := s]) == Index(tree)[h := s.addr] && Inos(tree[h := s]) == Inos(tree)[h := s.ino]
    {
    }

    lemma RemovedSlot(tree: map<nat, DirSlot>, h: nat)
      ensures Index(tree - {h}) == Index(tree) - {h} && Inos(tree - {h}) == Inos(tree) - {h}
    {
    }

    /** The entry that a slot of the index points at. */
    lemma EntryOf(h: nat) returns (q: nat)
      requires log.Inv() && DirOk() && h in log.tree
      ensures q < |log.Log()| && Adds(log.Log()[q], h) && log.Log()[q].addr == log.tree[h]
    {
      ReplayFindsNames(log.Log());
      q :| 0 <= q < |log.Log()| && Adds(log.Log()[q], h);
    }

    /** Every slot but h still points into the log once the entry of h is marked. */
    lemma SlotsStay(tree: map<nat, Addr>, log0: seq<LogRec>, rest: seq<LogRec>, q: nat, h: nat)
      requires Indexed(tree, log0 + rest) && q < |log0| && Adds(log0[q], h) && DistinctAddrs(log0 + rest)
      requires h in tree && tree[h] == log0[q].addr
      ensures Indexed(tree - {h}, log0[q := Invalid(log0[q])] + rest)
    {
      var all, out := log0 + rest, log0[q := Invalid(log0[q])] + rest;
      forall p | p in tree - {h} ensures PointsInto(tree[p], p, out) {
        assert PointsInto(tree[p], p, all);
        var r :| r in all && r.addr == tree[p] && KeyOf(r.e, p) && InUse(r, NOWHERE, NOWHERE);
        var i :| 0 <= i < |all| && all[i] == r;
        assert all[q] == log0[q];
        assert i != q;
        assert out[i] == r;
      }
    }

    /** Takes the name out of the index and marks its entry, before anything is
        committed: from here on a crash finds the name gone. */
    method RemoveDirRadixTree(h: nat)
      requires log.Writing() && DirOk() && h in log.tree && h != Hash(".") && h != Hash("..")
      modifies log`m, log`lay, log`tree, log`after, log`base, log`heads0, log`trace, log`tore, log`data0
      ensures log.Writing() && DirOk() && Names() == old(Names()) - {h} && h !in log.tree
      ensures log.Rest() == old(log.Rest()) && forall c: Addr :: old(log.EndsAt(c)) ==> log.EndsAt(c)
      ensures log.base == log.Log() && log.trace == [] && !log.tore
      ensures log.after == old(log.after) + [Crash(log.Img(), log.data)] && HoldsNames(log.Img(), Names())
    {
      hide TraceOk, AllKept, OldKept, Collected, Indexed, DirSound, DirReplay, InodeLog.Log, InodeLog.Rest,
           InodeLog.EndsAt, InodeLog.Inv, InodeLog.TraceSafe, Adds, DistinctAddrs;
      ghost var log0, rest := log.Log(), log.Rest();
      ghost var q := EntryOf(h);
      log.CellAt(q);
      log.AllDistinct();
      IsDentry(log0[q], h);
      var a := log.tree[h];
      var e := Read(log.m.cells, a).e;
      SlotsStay(log.tree, log0, rest, q, h);
      InvalidateName(log0, q, h);
      OthersFirst(log0, q, h);
      RemovedSlot(DirReplay(log0).tree, h);
      log.RewriteEntry(a, e.(invalid := true), q, log0);
      log.tree := log.tree - {h};
      OnlyLog(log.Img(), log.Log());
      log.Resume();
    }

    /** Marking any other entry leaves "." and ".." alone. */
    lemma OthersFirst(log0: seq<LogRec>, q: nat, h: nat)
      requires DotsFirst(log0, log.head) && q < |log0| && Adds(log0[q], h) && h != Hash(".") && h != Hash("..")
      ensures DotsFirst(log0[q := Invalid(log0[q])], log.head)
    {
    }

    lemma IsDentry(r: LogRec, h: nat)
      requires Adds(r, h)
      ensures r.e.Dentry? && Len(r.e.(invalid := true)) == Len(r.e)
    {
    }

    /** Commits the entry that records a removal. */
    method CommitRemove(r: LogRec, h: nat)
      requires log.Writing() && DirOk() && log.Rest() == [r] && log.EndsAt(Addr(r.addr.page, r.addr.off + Len(r.e)))
      requires r.e.Dentry? && r.e.ino == 0 && h == Hash(r.e.name) && h !in log.tree
      modifies log`tail, log`k, log`j, log`after
      ensures Valid() && Names() == old(Names()) && log.after != [] && AllHoldNames(log.after, Names())
      ensures LastIs(r.e)
    {
      hide TraceOk, AllKept, OldKept, Collected, Indexed, DirSound, DirReplay, InodeLog.Log, InodeLog.Rest,
           InodeLog.EndsAt, InodeLog.Inv, InodeLog.TraceSafe, Hash;
      ghost var log0 := log.Log();
      log.UpdateTail(Addr(r.addr.page, r.addr.off + Len(r.e)), log0, [r]);
      StillFirst(log0, [r]);
      RemoveName(log0, r);
      ReplayFindsNames(log0);
      OnlyLog(log.Img(), log0 + [r]);
    }

    /** Takes the name out of the index, if it is there, and commits the removal. */
    method FinishRemove(r: LogRec, h: nat) returns (ghost mark: seq<Crash>)
      requires log.Writing() && DirOk() && log.Rest() == [r] && log.EndsAt(Addr(r.addr.page, r.addr.off + Len(r.e)))
      requires r.e.Dentry? && r.e.ino == 0 && h == Hash(r.e.name) && h != Hash(".") && h != Hash("..")
      modifies log`m, log`lay, log`tree, log`after, log`base, log`heads0, log`trace, log`tore, log`data0, log`tail,
               log`k,
               log`j
      ensures Valid() && Names() == old(Names()) - {h} && log.after != [] && AllHoldNames(log.after, Names())
      ensures |mark| == (if h in old(Names()) then 1 else 0) && AllHoldNames(mark, Names()) && LastIs(r.e)
    {
      hide *;
      mark := [];
      NoImages(Names() - {h});
      IsThere(h);
      if h in log.tree {
        RemoveDirRadixTree(h);
        mark := [Crash(log.Img(), log.data)];
        OneImage(mark[0], Names());
      } else {
        NothingToRemove(Names(), h);
      }
      CommitRemove(r, h);
    }

    lemma NoImages(names: map<nat, nat>)
      ensures AllHoldNames([], names)
    {
    }

    lemma OneImage(c: Crash, names: map<nat, nat>)
      requires HoldsNames(c.img, names)
      ensures AllHoldNames([c], names)
    {
    }

    lemma NothingToRemove(names: map<nat, nat>, h: nat)
      requires h !in names
      ensures names - {h} == names
    {
    }

    /** Removes a name.  Up to the mark every image (`early`) holds the old names; the
        image with the mark, which is there if the name was, and every image from the
        commit on hold those without it. */
    method RemoveDentry(name: string, links: nat, size: nat, num: nat)
      returns (outcome: NameOutcome, ghost early: seq<Crash>, ghost mark: seq<Crash>)
      requires Valid() && |name| <= 255 && 0 < num && Hash(name) != Hash(".") && Hash(name) != Hash("..")
      modifies log
      ensures !outcome.Stopped? ==> Valid()
      ensures name != [] && old(log.NoPlace(NOWHERE, DentryLen(name), num)) ==> outcome.Stopped?
      ensures outcome.Stopped? ==> old(log.NoPlace(NOWHERE, DentryLen(name), num)) || log.NoList(1)
      ensures outcome.NoName? <==> name == []
      ensures outcome.NoName? ==> Names() == old(Names())
      ensures outcome.Done? ==>
                && Names() == old(Names()) - {Hash(name)} && log.after != [] && AllHoldNames(log.after, Names())
                && |mark| == (if Hash(name) in old(Names()) then 1 else 0) && AllHoldNames(mark, Names())
      ensures !outcome.Exists?
      ensures outcome.Done? && ShortName(name) ==> OthersStay(name, old(Names()), Names())
      ensures outcome.Done? ==> LastIs(Dentry(name, 0, false, links, size))
      ensures AllHoldNames(early, old(Names()))
      ensures outcome.Done? ==> log.ListsFrom(old(log.home))
    {
      hide TraceOk, DirOk, Names, InodeLog.Writing, InodeLog.Rest, InodeLog.EndsAt, Hash, AllHoldNames, DirSound,
           InodeLog.NoPlace, InodeLog.NoList, InodeLog.ListsFrom, LastIs, ShortName, OthersStay, InodeLog.Log,
               InodeLog.Inv;
      early, mark := [], [];
      NoImages(Names());
      if |name| == 0 {
        outcome := NoName;
        return;
      }
      NamesOf();
      ShortOrNot(name, 0);
      var e := Dentry(name, 0, false, links, size);
      var c;
      outcome, c := AppendDirInodeEntry(e, num);
      early := log.trace;
      OldNamesHeld(early, log.base);
      if outcome.Stopped? {
        return;
      }
      InOrder();
      log.ListsAre();
      mark := FinishRemove(LogRec(c, e), Hash(name));
    }

    /** Gives the directory another parent, when it is renamed: the entry right behind
        the first one is changed in place. */
    method ChangeParent(ino: nat)
      requires Valid() && ino != 0
      modifies log`m, log`lay, log`after
      ensures Valid() && Names() == old(Names())[Hash("..") := ino]
      ensures log.after == old(log.after) + [Crash(log.Img(), log.data)] && HoldsNames(log.Img(), Names())
    {
      hide DirSound, DirReplay, InodeLog.Rest, InodeLog.EndsAt, Hash;
      ghost var log0 := log.Log();
      log.CellAt(1);
      var a := Addr(log.head, DOT_LEN);
      var e := Read(log.m.cells, a).e;
      IsParent(log0);
      ReplaceIno(log0, 1, Hash(".."), ino);
      log.RewriteEntry(a, e.(ino := ino), 1, log0);
      SameIndex(DirReplay(log0).tree, Hash(".."), DirSlot(a, ino));
      OnlyLog(log.Img(), log.Log());
    }

    lemma IsParent(log0: seq<LogRec>)
      requires DotsFirst(log0, log.head) && DirSound(log0)
      ensures Adds(log0[1], Hash(".."))
      ensures Hash("..") in DirReplay(log0).tree && DirReplay(log0).tree[Hash("..")].addr == log0[1].addr
    {
      ReplayFindsNames(log0);
    }

    lemma SameIndex(tree: map<nat, DirSlot>, h: nat, s: DirSlot)
      requires h in tree && tree[h].addr == s.addr
      ensures Index(tree[h := s]) == Index(tree) && Inos(tree[h := s]) == Inos(tree)[h := s.ino]
    {
    }
  }
}
