/** Attribute, size and link changes on values: what one more entry that is not a
write makes of the file, and what zeroing the last page does to its bytes. */
module SizeChange {
  import opened Options
  import opened LogPages
  import opened FileReplay
  import opened LogSurgery
  import opened InodeLogs
  import opened LogMeaning
  import opened FileData
  import opened FileIndex
  import opened WriteRuns
  import opened HeaderRuns
  import opened CowState

  /** The pages below `first`. */
  function BelowBlocks(blocks: map<nat, nat>, first: nat): map<nat, nat> {
    map p | p in blocks && p < first :: blocks[p]
  }

  /** The blocks of the pages from `first` on. */
  function CutBlocks(blocks: map<nat, nat>, first: nat): set<nat> {
    set p | p in blocks && p >= first :: blocks[p]
  }

  /** Byte `off` of a file of `oldSize` bytes whose size is set to `newSize`. */
  function Resized(blocks: map<nat, nat>, data: Mem, oldSize: nat, newSize: nat, off: nat): Byte {
    if newSize < oldSize && newSize <= off then 0 else FileByte(blocks, data, off)
  }

  // ----- one more entry -----------------------------------------------------------------------------------

  lemma CommitOther(tree: Index, log: seq<LogRec>, size: nat, owned: set<nat>, r: LogRec)
    requires WriteState(tree, log, [], size, owned) && DistinctAddrs(log + [r])
    requires (r.e.SetAttr? || r.e.LinkChange?) && RecOk(size, r, false)
    ensures Indexing(tree, Replay(FRESH, log).tree, log + [r], map[], owned) && OnlyCounts(log + [r], log + [r])
    ensures Replay(FRESH, log + [r]) == Apply(Replay(FRESH, log), r)
    ensures Sound(0, log + [r]) && Bounded(Replay(FRESH, log).tree, size)
    ensures Replay(FRESH, log + [r]).tree ==
              if r.e.SetAttr? then Below(Replay(FRESH, log).tree, PagesFor(r.e.size)) else Replay(FRESH, log).tree
    ensures Ahead(Replay(FRESH, log).tree, map[], Replay(FRESH, log + [r]).tree)
  {
    var s, all := Replay(FRESH, log), log + [r];
    MatchesIsIndexed(tree, log);
    ReplayStep(FRESH, log, r);
    SoundAppend(FRESH, log, r);
    ReplayBounded(FRESH, log);
    if r.e.SetAttr? {
      TruncationCuts(s.tree, size, r.e);
    }
    forall p | p in s.tree ensures Given(all, p, s.tree[p]) {
      assert Given(log, p, s.tree[p]);
      var i: nat :| Gives(log, i, p, s.tree[p]);
      assert Gives(all, i, p, s.tree[p]);
    }
    assert Counted(tree, all, map[]) by {
      forall i | 0 <= i < |all| ensures CountOk(tree, map[], all[i]) {
        if i < |log| {
          assert CountOk(tree, map[], log[i]);
        }
      }
    }
    SelfCounts(tree, all);
  }

  lemma SelfCounts(tree: Index, log: seq<LogRec>)
    requires Counted(tree, log, map[])
    ensures OnlyCounts(log, log)
  {
    forall i | 0 <= i < |log| ensures SameButCount(log[i], log[i]) {
      assert CountOk(tree, map[], log[i]);
    }
  }

  /** The header after one more change. */
  lemma HeaderAfterChange(log: seq<LogRec>, r: LogRec, h: Head)
    requires LinkOk(log, h.ll) && (r.e.SetAttr? || r.e.LinkChange?)
    ensures r.e.SetAttr? ==> LastChange(log + [r], NOWHERE) == r.addr && LinkOk(log + [r], h.ll)
    ensures r.e.LinkChange? ==> LinkOk(log + [r], r.addr)
    ensures LastTruncAttr(log + [r]) == if r.e.SetAttr? && r.e.setsSize then Some(r.e.attr) else LastTruncAttr(log)
    ensures r.e.LinkChange? && Secure(log, h.ls) ==> Secure(log + [r], h.ls) && LastAttr(log + [r]) == LastAttr(log)
  {
    var all := log + [r];
    assert all[..|all| - 1] == log && all[|all| - 1] == r;
    if r.e.LinkChange? {
      AddKeepsSecure(log, h.ls, [r]);
    }
  }

  /** Nothing about the header changes while pages are counted invalid. */
  lemma HeaderStays(a: seq<LogRec>, b: seq<LogRec>, h: Head)
    requires OnlyCounts(a, b)
    ensures LastChange(a, NOWHERE) == LastChange(b, NOWHERE) && (LinkOk(a, h.ll) <==> LinkOk(b, h.ll))
    ensures LastTruncAttr(a) == LastTruncAttr(b)
  {
    CountsKeepChanges(a, b, NOWHERE);
    CountsKeepChanges(a, b, h.ll);
  }

  // ----- zeroing the last page ------------------------------------------------------------------------------

  /** The bytes of the page of `newSize` from there on are zero, the others as they were. */
  ghost predicate TailCleared(blocks: map<nat, nat>, data: Mem, data0: Mem, newSize: nat) {
    forall off: nat ::
      FileByte(blocks, data, off) ==
      if newSize <= off && off / BLOCK == newSize / BLOCK then 0 else FileByte(blocks, data0, off)
  }

  lemma ClearTail(slots: map<nat, Slot>, free: set<nat>, data: Mem, newSize: nat)
    requires BlocksApart(slots, free) && newSize / BLOCK in slots
    ensures var offset := newSize % BLOCK;
            TailCleared(Blocks(slots), Store(data, slots[newSize / BLOCK].block * BLOCK + offset,
                Zeros(BLOCK - offset)), data, newSize)
  {
    var page, offset, blocks := newSize / BLOCK, newSize % BLOCK, Blocks(slots);
    var b := slots[page].block;
    var data' := Store(data, b * BLOCK + offset, Zeros(BLOCK - offset));
    forall off: nat
      ensures FileByte(blocks, data', off) ==
              if newSize <= off && off / BLOCK == page then 0 else FileByte(blocks, data, off)
    {
      ClearedByte(slots, free, data, newSize, off);
    }
  }

  lemma ClearedByte(slots: map<nat, Slot>, free: set<nat>, data: Mem, newSize: nat, off: nat)
    requires BlocksApart(slots, free) && newSize / BLOCK in slots
    ensures var offset := newSize % BLOCK;
            var data' := Store(data, slots[newSize / BLOCK].block * BLOCK + offset, Zeros(BLOCK - offset));
            FileByte(Blocks(slots), data', off) ==
            if newSize <= off && off / BLOCK == newSize / BLOCK then 0 else FileByte(Blocks(slots), data, off)
  {
    var page, offset, p := newSize / BLOCK, newSize % BLOCK, off / BLOCK;
    var b := slots[page].block;
    var zeros := Zeros(BLOCK - offset);
    assert newSize == page * BLOCK + offset && off == p * BLOCK + off % BLOCK;
    if p in slots {
      var x := slots[p].block * BLOCK + off % BLOCK;
      if p == page {
        if offset <= off % BLOCK {
          StoreAt(data, b * BLOCK + offset, zeros, off % BLOCK - offset);
          assert b * BLOCK + offset + (off % BLOCK - offset) == x;
        }
      } else {
        assert slots[p].block != b;
        assert !(b * BLOCK + offset <= x < b * BLOCK + offset + |zeros|);
      }
    }
  }

  /** Where no page is mapped there is nothing to clear. */
  lemma NothingToClear(slots: map<nat, Slot>, data: Mem, newSize: nat)
    requires newSize / BLOCK !in slots
    ensures TailCleared(Blocks(slots), data, data, newSize)
  {
  }

  /** Clearing past the end of the file cannot be seen in it. */
  lemma ClearedIsInvisible(after: seq<Crash>, img: Image, log: seq<LogRec>, slots: map<nat, Slot>, goal: State,
                           data: Mem, data0: Mem)
    requires AfterOk(after, goal, data0) && goal.tree == Below(slots, PagesFor(goal.size))
    requires TailCleared(Blocks(slots), data, data0, goal.size)
    requires Shows(img, log) && Sound(0, log) && Replay(FRESH, log) == goal
    ensures AfterOk(after + [Crash(img, data)], goal, data)
  {
    forall off: nat | off < goal.size
      ensures FileByte(Blocks(goal.tree), data, off) == FileByte(Blocks(goal.tree), data0, off)
    {
      assert off / BLOCK < PagesFor(goal.size);
      assert FileByte(Blocks(slots), data, off) == FileByte(Blocks(slots), data0, off);
    }
    var all := after + [Crash(img, data)];
    forall i | 0 <= i < |all| ensures Finds(all[i].img, goal) && Visible(all[i].data, data, goal) {
      if i < |after| {
        assert all[i] == after[i] && Visible(after[i].data, data0, goal);
      }
    }
  }

  /** Once the pages past the new end are gone, the file has been resized. */
  lemma ResizedBytes(slots: map<nat, Slot>, data: Mem, data0: Mem, oldSize: nat, newSize: nat, off: nat)
    requires Bounded(slots, oldSize)
    requires if newSize % BLOCK == 0 || newSize >= oldSize then data == data0
             else TailCleared(Blocks(slots), data, data0, newSize)
    ensures FileByte(Blocks(Below(slots, PagesFor(newSize))), data, off) == Resized(Blocks(slots), data0, oldSize,
            newSize, off)
  {
    var p, first := off / BLOCK, PagesFor(newSize);
    assert off == p * BLOCK + off % BLOCK;
    assert newSize <= first * BLOCK < newSize + BLOCK;
    if p < first {
      if newSize % BLOCK != 0 && newSize < oldSize {
        assert FileByte(Blocks(slots), data, off) ==
               if newSize <= off && p == newSize / BLOCK then 0 else FileByte(Blocks(slots), data0, off);
        assert newSize <= off ==> p == newSize / BLOCK;
      } else if newSize % BLOCK == 0 {
        assert off < newSize;
      }
    } else if newSize >= oldSize {
      assert p !in slots;
    }
  }

  lemma ResizeKeepsZeros(blocks: map<nat, nat>, data: Mem, blocks0: map<nat, nat>, data0: Mem, oldSize: nat,
                         newSize: nat)
    requires forall off: nat :: FileByte(blocks, data, off) == Resized(blocks0, data0, oldSize, newSize, off)
    ensures newSize < oldSize || ZeroPast(blocks0, data0, oldSize) ==> ZeroPast(blocks, data, newSize)
  {
  }

  lemma BelowIsBelow(slots: map<nat, Slot>, first: nat)
    ensures Blocks(Below(slots, first)) == BelowBlocks(Blocks(slots), first)
  {
  }

  /** What the deletion loop frees are the blocks of the pages that are cut. */
  lemma {:induction false} BlocksInCut(slots: map<nat, Slot>, first: nat, hi: nat)
    requires first <= hi
    ensures BlocksIn(slots, first, hi) == set p | p in slots && first <= p < hi :: slots[p].block
    decreases hi
  {
    if first < hi {
      BlocksInCut(slots, first, hi - 1);
    }
  }

  lemma AllCut(slots: map<nat, Slot>, size: nat, first: nat, last: nat)
    requires Bounded(slots, size) && 0 < size && last == (size - 1) / BLOCK && first <= last
    ensures Cut(slots, first, last) == Below(slots, first)
    ensures BlocksIn(slots, first, last + 1) == CutBlocks(Blocks(slots), first)
  {
    forall p | p in slots ensures p <= last {
      assert p * BLOCK < size;
    }
    BlocksInCut(slots, first, last + 1);
    var a, b := BlocksIn(slots, first, last + 1), CutBlocks(Blocks(slots), first);
    forall x | x in a ensures x in b {
      var p :| p in slots && first <= p < last + 1 && slots[p].block == x;
      assert Blocks(slots)[p] == x;
    }
    forall x | x in b ensures x in a {
      var p :| p in Blocks(slots) && p >= first && Blocks(slots)[p] == x;
      assert slots[p].block == x;
    }
  }

  lemma NoneCut(slots: map<nat, Slot>, size: nat, first: nat)
    requires Bounded(slots, size) && (size == 0 || first > (size - 1) / BLOCK)
    ensures Below(slots, first) == slots && CutBlocks(Blocks(slots), first) == {}
  {
    forall p | p in slots ensures p < first {
      assert p * BLOCK < size;
    }
  }
}
