/** The scan of a file log after a crash: it walks the log once per window of
pages and marks the blocks of the window that are in use, with an array in place
of the page index. */
module CrashScan {
  import opened LogPages
  import opened FileReplay
  import opened LogSurgery
  import opened InodeLogs

  /** The number of pages in a window. */
  const MAX_PGOFF: nat := 262144

  // ----- what the array and the bitmap should hold -------------------------------------------------------

  /** The block of page p, or 0. */
  function BlockAt(tree: map<nat, Slot>, p: nat): nat {
    if p in tree then tree[p].block else 0
  }

  /** The array holds the blocks of the window that starts at page `base`. */
  ghost predicate RingShows(ring: seq<nat>, base: nat, tree: map<nat, Slot>) {
    |ring| == MAX_PGOFF && forall x :: 0 <= x < MAX_PGOFF ==> ring[x] == BlockAt(tree, base + x)
  }

  ghost predicate AllZero(ring: seq<nat>) {
    |ring| == MAX_PGOFF && forall x :: 0 <= x < MAX_PGOFF ==> ring[x] == 0
  }

  /** The blocks of the pages below `to`. */
  ghost function BlocksBelow(tree: map<nat, Slot>, upTo: nat): set<nat> {
    set p | p in tree && p < upTo :: tree[p].block
  }

  /** All blocks of the file. */
  ghost function AllBlocks(tree: map<nat, Slot>): set<nat> {
    set p | p in tree :: tree[p].block
  }

  ghost predicate NoBlockZero(tree: map<nat, Slot>) {
    forall p :: p in tree ==> tree[p].block != 0
  }

  lemma {:induction false} ReplayNoBlockZero(s: State, log: seq<LogRec>)
    requires NoBlockZero(s.tree) && Sound(s.size, log)
    ensures NoBlockZero(Replay(s, log).tree)
    decreases |log|
  {
    if log != [] {
      assert Apply(s, log[0]).size == SizeAfter(s.size, log[0]);
      ReplayNoBlockZero(Apply(s, log[0]), log[1..]);
    }
  }

  // ----- the array ---------------------------------------------------------------------------------------

  /** Enters the pages of a write that lie in the window. */
  method SetRingArray(a: Addr, e: Entry, ring: array<nat>, base: nat, ghost tree: map<nat, Slot>)
    requires e.FileWrite? && RingShows(ring[..], base, tree)
    modifies ring
    ensures RingShows(ring[..], base, Assign(tree, a, e))
  {
    var start := if e.pgoff < base then base else e.pgoff;
    var end := e.pgoff + e.numPages;
    if end > base + MAX_PGOFF {
      end := base + MAX_PGOFF;
    }
    var pgoff := start;
    while pgoff < end
      invariant start <= pgoff
      invariant forall x :: 0 <= x < MAX_PGOFF ==>
                  ring[x] == if start <= base + x < pgoff && base + x < end then e.block + (base + x) - e.pgoff
                             else BlockAt(tree, base + x)
    {
      ring[pgoff - base] := e.block + pgoff - e.pgoff;
      pgoff := pgoff + 1;
    }
    forall x | 0 <= x < MAX_PGOFF ensures ring[x] == BlockAt(Assign(tree, a, e), base + x) {
    }
  }

  /** Clears the pages of the window that a truncation cuts. */
  method RingSetAttr(e: Entry, size: nat, ring: array<nat>, base: nat, ghost tree: map<nat, Slot>)
    requires e.SetAttr? && IsReg(e.attr.mode) && RingShows(ring[..], base, tree)
    modifies ring
    ensures RingShows(ring[..], base, TreeAfterSetAttr(tree, size, e))
  {
    if size > e.size {
      var first, last := PagesFor(e.size), (size - 1) / BLOCK;
      if first > last {
        return;
      }
      var from := if first < base then base else first;
      var upTo := if last > base + MAX_PGOFF - 1 then base + MAX_PGOFF - 1 else last;
      var pgoff := from;
      while pgoff <= upTo
        invariant from <= pgoff
        invariant forall x :: 0 <= x < MAX_PGOFF ==>
                    ring[x] == if from <= base + x < pgoff && base + x <= upTo then 0 else BlockAt(tree, base + x)
        decreases upTo + 1 - pgoff
      {
        ring[pgoff - base] := 0;
        pgoff := pgoff + 1;
      }
      forall x | 0 <= x < MAX_PGOFF ensures ring[x] == BlockAt(Cut(tree, first, last), base + x) {
      }
    }
  }

  /** One entry of the log. */
  method ScanEntry(r: LogRec, size: nat, ring: array<nat>, base: nat, ghost s: State) returns (size': nat)
    requires RingShows(ring[..], base, s.tree) && size == s.size
    requires r.e.SetAttr? ==> IsReg(r.e.attr.mode)
    requires !r.e.Dentry?
    modifies ring
    ensures RingShows(ring[..], base, Apply(s, r).tree) && size' == Apply(s, r).size
  {
    size' := size;
    match r.e {
      case SetAttr(_, _, newSize) =>
        RingSetAttr(r.e, size, ring, base, s.tree);
        size' := newSize;
      case FileWrite(pgoff, numPages, invalidPages, _, newSize) =>
        size' := newSize;
        if numPages != invalidPages {
          if pgoff < base + MAX_PGOFF && pgoff + numPages > base {
            SetRingArray(r.addr, r.e, ring, base, s.tree);
          } else {
            forall x | 0 <= x < MAX_PGOFF ensures ring[x] == BlockAt(Assign(s.tree, r.addr, r.e), base + x) {
            }
          }
        }
      case LinkChange(_, _, _) =>
    }
  }

  // ----- the bitmap --------------------------------------------------------------------------------------

  /** Marks the blocks in the array up to the last page of the file and clears it. */
  method SetFileBm(ring: array<nat>, bm0: set<nat>, base: nat, last: nat, ghost tree: map<nat,
                   Slot>) returns (bm: set<nat>)
    requires RingShows(ring[..], base, tree) && base <= last && NoBlockZero(tree)
    requires forall p :: p in tree ==> p <= last
    modifies ring
    ensures AllZero(ring[..])
    ensures bm + BlocksBelow(tree, base) == bm0 + BlocksBelow(tree, base + MAX_PGOFF)
    ensures bm0 <= bm
  {
    bm := bm0;
    var upTo := if last >= base + MAX_PGOFF then MAX_PGOFF - 1 else last - base;
    var x := 0;
    while x <= upTo
      invariant 0 <= x <= upTo + 1
      invariant forall y :: 0 <= y < x ==> ring[y] == 0
      invariant forall y :: x <= y < MAX_PGOFF ==> ring[y] == BlockAt(tree, base + y)
      invariant bm0 <= bm && bm + BlocksBelow(tree, base) == bm0 + BlocksBelow(tree, base + x)
      decreases upTo + 1 - x
    {
      var nvmm := ring[x];
      OneMorePage(tree, base + x);
      if nvmm != 0 {
        bm := bm + {nvmm};
        ring[x] := 0;
      }
      x := x + 1;
    }
    NoMorePages(tree, base + x, base + MAX_PGOFF, last);
  }

  lemma OneMorePage(tree: map<nat, Slot>, p: nat)
    ensures BlocksBelow(tree, p + 1) == BlocksBelow(tree, p) + if p in tree then {tree[p].block} else {}
  {
    var a, b := BlocksBelow(tree, p + 1), BlocksBelow(tree, p) + if p in tree then {tree[p].block} else {};
    forall x | x in b ensures x in a {
      if p in tree && x == tree[p].block {
        assert p < p + 1;
      } else {
        var q :| q in tree && q < p && tree[q].block == x;
        assert q < p + 1;
      }
    }
  }

  lemma NoMorePages(tree: map<nat, Slot>, from: nat, upTo: nat, last: nat)
    requires from <= upTo && (from > last || from == upTo) && forall p :: p in tree ==> p <= last
    ensures BlocksBelow(tree, from) == BlocksBelow(tree, upTo)
  {
    forall p | p in tree && p < upTo ensures p < from {
    }
    var a, b := BlocksBelow(tree, from), BlocksBelow(tree, upTo);
    forall x | x in a ensures x in b {
      var p :| p in tree && p < from && tree[p].block == x;
      assert p < upTo;
    }
  }

  // ----- the walk ----------------------------------------------------------------------------------------

  /** The walk stands behind the first x entries of page i. */
  ghost predicate At(lay: Layout, i: nat, x: nat, curr: Addr) {
    i < |lay.recs| <= |lay.pages| && x <= |lay.recs[i]| && curr == CutAddr(lay, i, x)
  }

  lemma EntryHere(m: Nvm, lay: Layout, i: nat, x: nat)
    requires Holds(m, lay) && i < |lay.recs| && x < |lay.recs[i]|
    ensures Read(m.cells, CutAddr(lay, i, x)) == Rec(lay.recs[i][x]) && !GotoNextPage(m, CutAddr(lay, i, x))
    ensures CutAddr(lay, i, x + 1) == Addr(lay.pages[i], CutAddr(lay, i, x).off + Len(lay.recs[i][x]))
  {
    var es := lay.recs[i];
    assert PageOk(m, lay, i);
    PageHoldsAt(m.cells, lay.pages[i], 0, es, x);
    SizeStep(es, x);
    assert Fits(es[x]);
  }

  /** The next entry: on this page, or the first one of the next page. */
  lemma NextEntry(m: Nvm, lay: Layout, i: nat, x: nat) returns (i': nat, x': nat)
    requires Holds(m, lay) && i < |lay.recs| && x <= |lay.recs[i]| && CutAddr(lay, i, x) != End(lay)
    ensures i' < |lay.recs| && x' < |lay.recs[i']| && i <= i' && (i' > i ==> x' == 0)
    ensures var c := CutAddr(lay, i, x);
            && (GotoNextPage(m, c) <==> i' == i + 1) && i' <= i + 1
            && Hop(m, c) == CutAddr(lay, i', x') && (i' == i ==> x' == x)
            && Read(m.cells, Hop(m, c)) == Rec(lay.recs[i'][x'])
            && CutAddr(lay, i', x' + 1) == Addr(Hop(m, c).page, Hop(m, c).off + Len(lay.recs[i'][x']))
    ensures LogOf(Committed(lay, i', x' + 1)) ==
            LogOf(Committed(lay, i, x)) + [LogRec(CutAddr(lay, i', x'), lay.recs[i'][x'])]
  {
    if x < |lay.recs[i]| {
      i', x' := i, x;
    } else {
      assert lay.recs[i][..x] == lay.recs[i];
      HopIff(m, lay, i, x);
      NextPageRecords(lay, i);
      i', x' := i + 1, 0;
      assert PageOk(m, lay, i');
      assert lay.recs[i'][..0] == [];
    }
    EntryHere(m, lay, i', x');
    NextRecord(lay, i', x');
  }

  lemma NoSizeNoEntries(es: seq<Entry>)
    requires AllFit(es) && Size(es) == 0
    ensures es == []
  {
    assert es != [] ==> Fits(es[0]);
  }

  /** At the tail everything has been seen. */
  lemma AtTail(m: Nvm, lay: Layout, i: nat, x: nat)
    requires Holds(m, lay) && i < |lay.recs| && x <= |lay.recs[i]| && CutAddr(lay, i, x) == End(lay)
    ensures i == |lay.recs| - 1 && LogOf(Committed(lay, i, x)) == LogOf(lay)
  {
    var k := |lay.recs| - 1;
    assert lay.pages[i] == lay.pages[k];
    assert PageOk(m, lay, k);
    SizeAppend(lay.recs[k][..x], lay.recs[k][x..]);
    assert lay.recs[k] == lay.recs[k][..x] + lay.recs[k][x..];
    NoSizeNoEntries(lay.recs[k][x..]);
    assert lay.recs[k][..|lay.recs[k]|] == lay.recs[k];
    assert lay.recs == lay.recs[..k] + [lay.recs[k]];
  }

  /** Pages seen by the walk. */
  lemma OneMoreSeen(pages: seq<nat>, i: nat)
    requires i + 1 < |pages|
    ensures PageSet(pages[..i + 2]) == PageSet(pages[..i + 1]) + {pages[i + 1]}
  {
    assert pages[..i + 2] == pages[..i + 1] + [pages[i + 1]];
  }

  lemma {:induction false} PrefixSound(size: nat, log: seq<LogRec>, n: nat)
    requires Sound(size, log) && n < |log|
    ensures log[n].e.SetAttr? ==> IsReg(log[n].e.attr.mode)
    ensures !log[n].e.Dentry?
    decreases |log|
  {
    if n > 0 {
      PrefixSound(SizeAfter(size, log[0]), log[1..], n - 1);
    }
  }

  /** What the walk has made of the entries seen so far. */
  ghost predicate Scanned(ring: seq<nat>, base: nat, size: nat, bm: set<nat>, bm0: set<nat>, lay: Layout, i: nat,
                          x: nat)
    requires i < |lay.recs| <= |lay.pages| && x <= |lay.recs[i]|
  {
    var s := Replay(FRESH, LogOf(Committed(lay, i, x)));
    && RingShows(ring, base, s.tree) && size == s.size
    && bm == if base == 0 then bm0 + PageSet(lay.pages[..i + 1]) else bm0
  }

  /** One round of the walk. */
  method ScanNext(m: Nvm, curr: Addr, ring: array<nat>, base: nat, size: nat, bm: set<nat>, ghost bm0: set<nat>,
                  ghost lay: Layout, ghost i: nat, ghost x: nat)
    returns (curr': Addr, size': nat, bm': set<nat>, ghost i': nat, ghost x': nat)
    requires Holds(m, lay) && Sound(0, LogOf(lay)) && At(lay, i, x, curr) && curr != End(lay)
    requires Scanned(ring[..], base, size, bm, bm0, lay, i, x)
    modifies ring
    ensures At(lay, i', x', curr') && Scanned(ring[..], base, size', bm', bm0, lay, i', x')
    ensures |LogOf(Committed(lay, i', x'))| == |LogOf(Committed(lay, i, x))| + 1 <= |LogOf(lay)|
  {
    hide Holds, RingShows, Sound, LogOf;
    ghost var y;
    i', y := NextEntry(m, lay, i, x);
    x' := y + 1;
    curr', bm' := curr, bm;
    if GotoNextPage(m, curr) {
      curr' := NextLogPage(m, curr);
      if base == 0 {
        bm' := bm + {curr'.page};
        OneMoreSeen(lay.pages, i);
      }
    }
    var e := Read(m.cells, curr').e;
    ghost var done := LogOf(Committed(lay, i, x));
    ReplayStep(FRESH, done, LogRec(curr', e));
    SeenSoFar(m, lay, i', x');
    PrefixSound(0, LogOf(lay), |done|);
    size' := ScanEntry(LogRec(curr', e), size, ring, base, Replay(FRESH, done));
    curr' := Addr(curr'.page, curr'.off + Len(e));
  }

  /** The entries seen are the first ones of the log. */
  lemma SeenSoFar(m: Nvm, lay: Layout, i: nat, x: nat)
    requires Holds(m, lay) && i < |lay.recs| && x <= |lay.recs[i]|
    ensures LogOf(Committed(lay, i, x)) <= LogOf(lay)
  {
    CommittedLog(lay, i, x);
    FlatSplit(lay, i);
    RecsAppend(lay.pages[i], 0, lay.recs[i][..x], lay.recs[i][x..]);
    assert lay.recs[i] == lay.recs[i][..x] + lay.recs[i][x..];
  }

  /** Walks the log once, for one window. */
  method ScanLog(m: Nvm, head: nat, tail: Addr, ring: array<nat>, base: nat, bm0: set<nat>, ghost lay: Layout)
    returns (size: nat, bm: set<nat>)
    requires Holds(m, lay) && Sound(0, LogOf(lay)) && head == lay.pages[0] && tail == End(lay)
    requires AllZero(ring[..])
    modifies ring
    ensures RingShows(ring[..], base, Replay(FRESH, LogOf(lay)).tree) && size == Replay(FRESH, LogOf(lay)).size
    ensures bm == if base == 0 then bm0 + PageSet(lay.pages) else bm0
  {
    hide Sound, LogOf;
    size := 0;
    bm := if base == 0 then bm0 + {head} else bm0;
    var curr := Addr(head, 0);
    ghost var i, x := 0, 0;
    NothingScanned(lay, ring[..], base, bm0);
    while curr != tail
      invariant At(lay, i, x, curr) && Scanned(ring[..], base, size, bm, bm0, lay, i, x)
      decreases |LogOf(lay)| - |LogOf(Committed(lay, i, x))|
    {
      curr, size, bm, i, x := ScanNext(m, curr, ring, base, size, bm, bm0, lay, i, x);
    }
    AtTail(m, lay, i, x);
    if base == 0 {
      bm := MarkRest(m, curr.page, bm, bm0, lay, i);
    }
  }

  lemma NothingScanned(lay: Layout, ring: seq<nat>, base: nat, bm0: set<nat>)
    requires 0 < |lay.recs| <= |lay.pages| && AllZero(ring)
    ensures At(lay, 0, 0, Addr(lay.pages[0], 0))
    ensures Scanned(ring, base, 0, if base == 0 then bm0 + {lay.pages[0]} else bm0, bm0, lay, 0, 0)
  {
    CommittedLog(lay, 0, 0);
    assert lay.recs[0][..0] == [] && lay.recs[..0] == [] && lay.pages[..1] == [lay.pages[0]];
  }

  /** Marks the pages of the chain behind the tail. */
  method MarkRest(m: Nvm, page: nat, bm1: set<nat>, ghost bm0: set<nat>, ghost lay: Layout,
                  ghost i0: nat) returns (bm: set<nat>)
    requires Linked(m.next, lay.pages) && i0 < |lay.pages| && page == lay.pages[i0]
             && bm1 == bm0 + PageSet(lay.pages[..i0 + 1])
    ensures bm == bm0 + PageSet(lay.pages)
  {
    bm := bm1;
    var p := page;
    ghost var i := i0;
    while Next(m.next, p) != 0
      invariant i < |lay.pages| && p == lay.pages[i] && bm == bm0 + PageSet(lay.pages[..i + 1])
      decreases |lay.pages| - i
    {
      assert Next(m.next, lay.pages[i]) == After(lay.pages, i);
      OneMoreSeen(lay.pages, i);
      p := Next(m.next, p);
      bm := bm + {p};
      i := i + 1;
    }
    assert Next(m.next, lay.pages[i]) == After(lay.pages, i);
    assert lay.pages[..i + 1] == lay.pages;
  }

  // ----- the windows -------------------------------------------------------------------------------------

  /** Marks the blocks of one file, log pages and data.  It marks exactly the pages
      of the log's chain and the blocks that replaying the log would map, and it
      leaves the array zero for the next file. */
  method TraverseFileLog(m: Nvm, head: nat, tail: Addr, ring: array<nat>, bm0: set<nat>, ghost lay: Layout)
    returns (bm: set<nat>)
    requires head == 0 ==> tail == NOWHERE && lay == Layout([], [])
    requires head != 0 ==> Holds(m, lay) && head == lay.pages[0] && tail == End(lay)
    requires |lay.recs| <= |lay.pages| && Sound(0, LogOf(lay)) && AllZero(ring[..])
    modifies ring
    ensures AllZero(ring[..])
    ensures bm == bm0 + PageSet(lay.pages) + AllBlocks(Replay(FRESH, LogOf(lay)).tree)
  {
    hide Sound, LogOf;
    ghost var s := Replay(FRESH, LogOf(lay));
    bm := bm0;
    if head == 0 && tail.page == 0 {
      NoEntries(lay);
      return;
    }
    ReplayBounded(FRESH, LogOf(lay));
    ReplayNoBlockZero(FRESH, LogOf(lay));
    var base := 0;
    var size;
    size, bm := ScanLog(m, head, tail, ring, base, bm, lay);
    if size == 0 {
      EmptyFile(s.tree, ring[..]);
      return;
    }
    var last := (size - 1) / BLOCK;
    PagesUpTo(s.tree, size);
    ghost var bm1 := bm;
    NoPagesBelow(s.tree);
    bm := SetFileBm(ring, bm, base, last, s.tree);
    while last >= base + MAX_PGOFF
      invariant AllZero(ring[..]) && size == s.size
      invariant bm == bm1 + BlocksBelow(s.tree, base + MAX_PGOFF)
      decreases last - base
    {
      base := base + MAX_PGOFF;
      size, bm := ScanLog(m, head, tail, ring, base, bm, lay);
      ghost var bm2 := bm;
      bm := SetFileBm(ring, bm, base, last, s.tree);
      assert BlocksBelow(s.tree, base) <= bm2;
    }
    AllBelow(s.tree, base + MAX_PGOFF, last);
  }

  lemma NoEntries(lay: Layout)
    requires lay == Layout([], [])
    ensures LogOf(lay) == [] && PageSet(lay.pages) == {} && AllBlocks(Replay(FRESH, []).tree) == {}
  {
  }

  lemma EmptyFile(tree: map<nat, Slot>, ring: seq<nat>)
    requires Bounded(tree, 0) && RingShows(ring, 0, tree)
    ensures AllZero(ring) && AllBlocks(tree) == {}
  {
    assert forall p: nat :: p * BLOCK >= 0;
    assert tree == map[];
  }

  lemma PagesUpTo(tree: map<nat, Slot>, size: nat)
    requires Bounded(tree, size) && 0 < size
    ensures forall p :: p in tree ==> p <= (size - 1) / BLOCK
  {
    forall p | p in tree ensures p <= (size - 1) / BLOCK {
      assert p * BLOCK < size;
    }
  }

  lemma NoPagesBelow(tree: map<nat, Slot>)
    ensures BlocksBelow(tree, 0) == {}
  {
  }

  lemma AllBelow(tree: map<nat, Slot>, upTo: nat, last: nat)
    requires last < upTo && forall p :: p in tree ==> p <= last
    ensures BlocksBelow(tree, upTo) == AllBlocks(tree)
  {
    forall x | x in AllBlocks(tree) ensures x in BlocksBelow(tree, upTo) {
      var p :| p in tree && tree[p].block == x;
      assert p < upTo;
    }
  }
}
