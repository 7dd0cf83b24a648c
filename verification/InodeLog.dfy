/** The inode log as the file system changes it: appending, extending, fast and
thorough garbage collection.

Crash safety is a discipline on stores.  Every store to persistent memory goes
through a primitive that records the image it leaves in a ghost trace, and that
demands the image to be safe: the next mount must be able to read from it a
collected form of `base`, the log that was committed when the operation began.
One store cannot meet that demand, the one that gives an empty log its tail: it
is recorded as torn. */
module InodeLogs {
  import opened Options
  import opened LogPages
  import opened FileReplay
  import opened LogSurgery
  import opened LogSweep
  import opened LogInPlace
  import opened FileData
  import opened BlockLists

  /** A byte of a name as the signed number that it is added as. */
  function CharValue(c: char): int {
    if c as int < 128 then c as int else c as int - 256
  }

  /** BKDR hash of a file name, in 64-bit arithmetic. */
  function Hash(name: string): nat {
    if name == [] then 0
    else (Hash(name[..|name| - 1]) * 131 + CharValue(name[|name| - 1])) % 0x1_0000_0000_0000_0000
  }

  /** The index keys under which an entry may be found. */
  predicate KeyOf(e: Entry, p: nat) {
    match e
    case FileWrite(_, _, _, _, _) => Covers(e, p)
    case Dentry(name, _, _, _, _) => p == Hash(name)
    case _ => false
  }

  ghost predicate SlotsFit(tree: map<nat, Addr>, log: seq<LogRec>) {
    forall p, r :: p in tree && r in log && tree[p] == r.addr ==> KeyOf(r.e, p)
  }

  /** Every index slot points at an entry of the log that is in use and has the
      slot among its keys. */
  ghost predicate Indexed(tree: map<nat, Addr>, log: seq<LogRec>) {
    forall p :: p in tree ==> PointsInto(tree[p], p, log)
  }

  ghost predicate PointsInto(a: Addr, p: nat, log: seq<LogRec>) {
    exists r :: r in log && r.addr == a && KeyOf(r.e, p) && InUse(r, NOWHERE, NOWHERE)
  }

  // ----- what is needed, told from the index and the header ----------------------------------------------

  /** A slot of the index points there. */
  ghost predicate Pointed(tree: map<nat, Addr>, a: Addr) {
    exists p :: p in tree && tree[p] == a
  }

  /** A write or a name is needed if the index points at it; an attribute change if it is
      a truncation or the header points at it; a link change if the header does. */
  ghost predicate Needed(tree: map<nat, Addr>, r: LogRec, h: Head) {
    match r.e
    case FileWrite(_, _, _, _, _) => Pointed(tree, r.addr)
    case Dentry(_, _, _, _, _) => Pointed(tree, r.addr)
    case SetAttr(setsSize, _, _) => setsSize || r.addr == h.ls
    case LinkChange(_, _, _) => r.addr == h.ll
  }

  /** The marks in the entries and the index say the same. */
  ghost predicate IndexTells(tree: map<nat, Addr>, r: LogRec) {
    r.e.FileWrite? || r.e.Dentry? ==> (InUse(r, NOWHERE, NOWHERE) <==> Pointed(tree, r.addr))
  }

  ghost predicate Exact(tree: map<nat, Addr>, log: seq<LogRec>) {
    forall r :: r in log ==> IndexTells(tree, r)
  }

  /** No record of the page is needed. */
  ghost predicate Unneeded(tree: map<nat, Addr>, log: seq<LogRec>, h: Head, page: nat) {
    forall r :: r in log && r.addr.page == page ==> !Needed(tree, r, h)
  }

  lemma InUseIsNeeded(tree: map<nat, Addr>, r: LogRec, h: Head)
    requires IndexTells(tree, r)
    ensures InUse(r, h.ls, h.ll) <==> Needed(tree, r, h)
  {
  }

  lemma DeadIsUnneeded(tree: map<nat, Addr>, log: seq<LogRec>, h: Head, page: nat)
    requires Exact(tree, log)
    ensures Dead(log, page, h.ls, h.ll) <==> Unneeded(tree, log, h, page)
  {
    forall r | r in log ensures InUse(r, h.ls, h.ll) <==> Needed(tree, r, h) {
      InUseIsNeeded(tree, r, h);
    }
  }

  /** Of the pages of `log0` but the tail page, exactly those stay that hold a record
      that is needed. */
  ghost predicate KeepsNeeded(tree: map<nat, Addr>, log0: seq<LogRec>, h0: Head, how: Collection) {
    forall r :: r in log0 && r.addr.page != how.tail ==>
      (r in how.pre + how.post <==> !Unneeded(tree, log0, h0, r.addr.page))
  }

  lemma FastKeepsNeeded(tree: map<nat, Addr>, log0: seq<LogRec>, h0: Head, how: Collection)
    requires FastSteps(log0, h0, how) && Exact(tree, log0)
    ensures KeepsNeeded(tree, log0, h0, how)
  {
    var log := how.pre + how.post;
    var gone: set<nat> :| Sweeps(log0, log, gone, h0.ls, h0.ll, how.tail);
    PurgedHas(log0, gone);
    forall r | r in log0 && r.addr.page != how.tail
      ensures r in log <==> !Unneeded(tree, log0, h0, r.addr.page)
    {
      DeadIsUnneeded(tree, log0, h0, r.addr.page);
      if r in log {
        assert !Dead(log, r.addr.page, h0.ls, h0.ll);
      }
    }
  }

  lemma GcKeepsNeeded(tree: map<nat, Addr>, log0: seq<LogRec>, h0: Head, log: seq<LogRec>, tree': map<nat, Addr>,
                      h: Head, how: Collection)
    requires Gc(log0, tree, h0, log, tree', h, how) && how.ran
    ensures Exact(tree, log0) ==> KeepsNeeded(tree, log0, h0, how)
  {
    if Exact(tree, log0) {
      FastKeepsNeeded(tree, log0, h0, how);
    }
  }

  /** What the collectors find on a page, told from the index and the header. */
  lemma PageDeadIff(tree: map<nat, Addr>, page: nat, es: seq<Entry>, h: Head)
    requires AllFit(es)
    ensures Exact(tree, Recs(page, 0, es)) ==>
              (PageDead(page, es, h.ls, h.ll) <==> Unneeded(tree, Recs(page, 0, es), h, page))
  {
    var recs := Recs(page, 0, es);
    if Exact(tree, recs) {
      PagesOfPost(page, es);
      forall i | 0 <= i < |es| ensures InUse(recs[i], h.ls, h.ll) <==> Needed(tree, recs[i], h) {
        assert recs[i] in recs;
        InUseIsNeeded(tree, recs[i], h);
      }
    }
  }

  /** The bytes of the records that are needed. */
  ghost function NeededBytes(tree: map<nat, Addr>, log: seq<LogRec>, h: Head): nat {
    if log == [] then 0
    else
      var r := log[|log| - 1];
      NeededBytes(tree, log[..|log| - 1], h) + if Needed(tree, r, h) then Len(r.e) else 0
  }

  /** What the collectors count as bytes in use, told from the index and the header. */
  lemma {:induction false} UsedIsNeeded(tree: map<nat, Addr>, log: seq<LogRec>, h: Head)
    requires Exact(tree, log)
    ensures UsedBytes(log, h.ls, h.ll) == NeededBytes(tree, log, h)
    decreases |log|
  {
    if log != [] {
      var n := |log| - 1;
      assert log == log[..n] + [log[n]];
      UsedIsNeeded(tree, log[..n], h);
      InUseIsNeeded(tree, log[n], h);
    }
  }

  /** Of the writes and names before the tail page exactly those that the index points at
      are copied, of the attribute changes every truncation, of the link changes the one
      that the header points at. */
  ghost predicate CopiesNeeded(tree: map<nat, Addr>, pre: seq<LogRec>, h0: Head) {
    forall r :: r in pre && (r.e.SetAttr? ==> r.e.setsSize) ==>
      (r in Copy(pre, h0.ls, h0.ll).kept <==> Needed(tree, r, h0))
  }

  lemma {:induction false} CopyNeeds(tree: map<nat, Addr>, pre: seq<LogRec>, h0: Head)
    requires Exact(tree, pre) && DistinctAddrs(pre) && OnMedia(pre)
    ensures CopiesNeeded(tree, pre, h0)
    ensures var g := Copy(pre, h0.ls, h0.ll);
            && (forall r :: r in g.kept ==> r in pre)
            && (g.ll == h0.ll || (g.ll == NOWHERE && exists r :: r in pre && r.e.LinkChange? && r.addr == h0.ll))
    decreases |pre|
  {
    if pre != [] {
      var n := |pre| - 1;
      var front, last := pre[..n], pre[n];
      assert pre == front + [last];
      assert forall i :: 0 <= i < n ==> front[i] == pre[i];
      CopyNeeds(tree, front, h0);
      var g := Copy(front, h0.ls, h0.ll);
      InUseIsNeeded(tree, last, Head(g.ls, g.ll));
      forall i | 0 <= i < n ensures front[i].addr != last.addr {
        assert pre[i].addr != pre[n].addr;
      }
      assert last.addr != NOWHERE;
    }
  }

  /** Only records of `log` move. */
  ghost predicate MovesFrom(moves: map<Addr, Addr>, log: seq<LogRec>) {
    forall a :: a in moves ==> exists n :: 0 <= n < |log| && log[n].addr == a
  }

  /** Records move to pages where no record of `log` lies. */
  ghost predicate FreshMoves(moves: map<Addr, Addr>, log: seq<LogRec>) {
    forall a, r :: a in moves && r in log ==> moves[a].page != r.addr.page
  }

  /** The pointers kept in the inode header. */
  datatype Head = Head(ls: Addr, ll: Addr)

  /** The header after the records of `pre` in use have been copied. */
  ghost predicate HeadsAfter(moves: map<Addr, Addr>, pre: seq<LogRec>, h0: Head, h: Head) {
    var copied := MoveLog(moves, Copy(pre, h0.ls, h0.ll).kept);
    h.ls == LastChange(copied, h0.ls) && h.ll == LastLinkChange(copied, h0.ll)
  }

  function PageSet(pages: seq<nat>): set<nat> {
    set p | p in pages
  }

  lemma NoPages(next: map<nat, nat>)
    ensures Linked(next, []) && PageSet([]) == {}
  {
  }

  lemma FastGave(back0: map<nat, nat>, pages0: set<nat>, pool0: set<nat>, back: map<nat, nat>, pages: set<nat>)
    requires Gave(back0, pages0, back, pages)
    ensures CollectionGave(back0, pages0, pool0, back, false)
  {
    assert DeadAndChain(back0, pages0, pool0, back, false, pages0 - pages, []);
  }

  lemma BothGave(back0: map<nat, nat>, pages0: set<nat>, pool0: set<nat>, pages: seq<nat>, k: nat, pool1: set<nat>,
                 back1: map<nat, nat>, back: map<nat, nat>)
    requires Gave(back0, pages0, back1, PageSet(pages)) && k <= |pages| && CopyGave(back1, pool1, back, pages[..k])
    requires pool1 + PageSet(pages) == pool0 + pages0 && PageSet(pages) !! pool1
    ensures CollectionGave(back0, pages0, pool0, back, true)
  {
    var dead, chain := pages0 - PageSet(pages), pages[..k];
    var spare: seq<nat> :| GaveRuns(back1, pool1, back, spare, chain);
    assert GaveRuns(Then(back0, Singles(dead)), pool0 + dead, back, spare, chain);
    assert forall p :: p in chain ==> p in pages && p in PageSet(pages);
    assert DeadAndChain(back0, pages0, pool0, back, true, dead, chain);
  }

  lemma NextInChain(next: map<nat, nat>, chain: seq<nat>, n: nat)
    requires Linked(next, chain) && n < |chain|
    ensures chain[n] != 0 && Distinct(chain) && Next(next, chain[n]) == if n + 1 < |chain| then chain[n + 1] else 0
  {
    assert Next(next, chain[n]) == After(chain, n);
  }

  lemma ChainFacts(next: map<nat, nat>, chain: seq<nat>)
    requires Linked(next, chain)
    ensures Distinct(chain) && forall i :: 0 <= i < |chain| ==> chain[i] != 0
  {
  }

  /** The pages of a run. */
  lemma RunPages(chain: seq<nat>, n: nat, start: nat, num: nat)
    requires IsRun(chain, n, start, num)
    ensures PageSet(chain[n - num..n]) == Run(start, num)
  {
    var part := chain[n - num..n];
    hide Run;
    forall b: nat ensures b in part <==> b in Run(start, num) {
      RunHas(start, num, b);
      if start <= b < start + num {
        assert part[b - start] == chain[n - num + (b - start)] == b;
      }
    }
  }

  /** A run at the end of the first n pages is apart from those before it. */
  lemma RunApartFrom(chain: seq<nat>, n: nat, start: nat, num: nat)
    requires IsRun(chain, n, start, num) && Distinct(chain)
    ensures PageSet(chain[..n]) == PageSet(chain[..n - num]) + Run(start, num)
    ensures Run(start, num) !! PageSet(chain[..n - num]) && Run(start, num) <= PageSet(chain)
  {
    RunPages(chain, n, start, num);
    hide Run, IsRun;
    assert chain[..n] == chain[..n - num] + chain[n - num..n];
  }

  lemma Disjoint(a: seq<nat>, b: seq<nat>)
    requires PageSet(a) !! PageSet(b)
    ensures forall p :: p in b ==> p !in a
  {
    forall p | p in b ensures p !in a {
      assert p in PageSet(b);
      assert p !in PageSet(a);
    }
  }

  /** Images that differ only in pages of `work`. */
  ghost predicate SameOutside(a: Image, b: Image, work: set<nat>) {
    && a.head == b.head && a.tail == b.tail
    && (forall x: Addr :: x.page !in work ==> Read(a.m.cells, x) == Read(b.m.cells, x))
    && (forall p :: p !in work ==> Next(a.m.next, p) == Next(b.m.next, p))
  }

  /** Memories whose cells differ only in pages of `work`. */
  ghost predicate CellsKept(a: Nvm, b: Nvm, work: set<nat>) {
    forall x: Addr :: x.page !in work ==> Read(a.cells, x) == Read(b.cells, x)
  }

  /** Stores to pages of `work` cannot be seen by the next mount. */
  ghost predicate Scratch(at: Image, work: set<nat>, base: seq<LogRec>) {
    forall img :: SameOutside(img, at, work) ==> Safe(img, base)
  }

  /** Pages that the log does not use are scratch pages. */
  lemma UnusedIsScratch(m: Nvm, lay: Layout, k: nat, j: nat, work: set<nat>, base: seq<LogRec>)
    requires Holds(m, lay) && CutOk(lay, k, j)
    requires PageSet(lay.pages) !! work
    requires Collected(base, LogOf(Committed(lay, k, j)))
    ensures Scratch(Image(m, lay.pages[0], CutAddr(lay, k, j)), work, base)
  {
    var at := Image(m, lay.pages[0], CutAddr(lay, k, j));
    forall img | SameOutside(img, at, work) ensures Safe(img, base) {
      StillHolds(at, img, lay, work);
      Snapshot(img.m, lay, k, j);
    }
  }

  lemma StillHolds(at: Image, img: Image, lay: Layout, work: set<nat>)
    requires Holds(at.m, lay)
    requires PageSet(lay.pages) !! work
    requires SameOutside(img, at, work)
    ensures Holds(img.m, lay)
  {
    forall p | p in lay.pages ensures p !in work {
      assert p in PageSet(lay.pages);
    }
    HoldsFrame(at.m, img.m, lay);
  }

  /** None of the first n entries of a page is in use. */
  ghost predicate DeadUpTo(page: nat, es: seq<Entry>, n: nat, ls: Addr, ll: Addr)
    requires n <= |es|
  {
    forall i :: 0 <= i < n ==> !InUse(Recs(page, 0, es)[i], ls, ll)
  }

  ghost predicate PageDead(page: nat, es: seq<Entry>, ls: Addr, ll: Addr) {
    DeadUpTo(page, es, |es|, ls, ll)
  }

  /** What the next mount finds: the log and the rest of the device. */
  datatype Crash = Crash(img: Image, data: Mem)

  /** A tail without a head. */
  predicate Torn(img: Image) {
    img.head == 0 && img.tail.page != 0
  }

  /** No log can be read from a torn image. */
  lemma TornIsUnreadable(img: Image, base: seq<LogRec>)
    requires Torn(img)
    ensures !Safe(img, base) && forall log: seq<LogRec> :: !Shows(img, log)
  {
  }

  /** Every image is safe, except that `tore` tells whether one is torn. */
  ghost predicate TraceOk(trace: seq<Crash>, base: seq<LogRec>, tore: bool) {
    && (forall i :: 0 <= i < |trace| ==> Safe(trace[i].img, base) || Torn(trace[i].img))
    && (tore <==> exists i :: 0 <= i < |trace| && Torn(trace[i].img))
  }

  /** The bytes of the old file are intact in every image. */
  ghost predicate AllKept(trace: seq<Crash>, blocks0: map<nat, nat>, data0: Mem) {
    forall i :: 0 <= i < |trace| ==> OldKept(blocks0, trace[i].data, data0)
  }

  /** The images are all safe if and only if none is torn. */
  lemma SafeIffNotTorn(trace: seq<Crash>, base: seq<LogRec>, tore: bool)
    requires TraceOk(trace, base, tore)
    ensures (forall i :: 0 <= i < |trace| ==> Safe(trace[i].img, base)) <==> !tore
  {
    forall i | 0 <= i < |trace| && Torn(trace[i].img) ensures !Safe(trace[i].img, base) {
      TornIsUnreadable(trace[i].img, base);
    }
  }

  lemma TraceStart(base: seq<LogRec>, blocks: map<nat, nat>, data: Mem)
    ensures TraceOk([], base, false) && AllKept([], blocks, data) && OldKept(blocks, data, data)
  {
    SelfKept(blocks, data);
  }

  lemma TraceMore(trace: seq<Crash>, c: Crash, base: seq<LogRec>, tore: bool, blocks0: map<nat, nat>, data0: Mem)
    requires TraceOk(trace, base, tore) && AllKept(trace, blocks0, data0)
    requires Safe(c.img, base) || Torn(c.img)
    requires OldKept(blocks0, c.data, data0)
    ensures TraceOk(trace + [c], base, tore || Torn(c.img)) && AllKept(trace + [c], blocks0, data0)
  {
    var all := trace + [c];
    assert forall i :: 0 <= i < |trace| ==> all[i] == trace[i];
    assert all[|trace|] == c;
  }

  /** A log of one empty page. */
  lemma FirstPageSafe(m: Nvm, page: nat, base: seq<LogRec>) returns (lay: Layout)
    requires Linked(m.next, [page]) && Collected(base, [])
    ensures lay == Layout([page], [[]]) && PageSet(lay.pages) == {page}
    ensures Holds(m, lay) && CutOk(lay, 0, 0) && CutAddr(lay, 0, 0) == End(lay) == Addr(page, 0)
    ensures LogAt(lay, 0, 0) == [] && Pending(lay, 0, 0) == [] && Safe(Image(m, page, Addr(page, 0)), base)
  {
    lay := Layout([page], [[]]);
    OnePage(m, lay);
    Snapshot(m, lay, 0, 0);
  }

  /** Entries and marks lie before the link at the end of the page. */
  predicate BeforeLink(a: Addr, v: Cell) {
    match v
    case Rec(e) => a.off + Len(e) <= LAST_ENTRY
    case _ => a.off < LAST_ENTRY
  }

  lemma ReadyFits(m: Nvm, lay: Layout, e: Entry, c: Addr)
    requires Fits(e) && Ready(m, lay, Len(e), c)
    ensures BeforeLink(c, Rec(e))
  {
  }

  class InodeLog {
    var m: Nvm
    var head: nat
    var tail: Addr
    /** The free blocks, and the list each of them is in. */
    var pool: set<nat>
    var home: map<nat, nat>
    const cpus: Positive
    const perList: Positive
    var lastSetattr: Addr
    var lastLink: Addr
    var tree: map<nat, Addr>
    var validBytes: nat
    /** The device outside the log pages. */
    var data: Mem

    /** All entries written; the first j entries of page k end the committed ones. */
    ghost var lay: Layout
    ghost var k: nat
    ghost var j: nat
    ghost var base: seq<LogRec>
    ghost var heads0: Head
    /** The file when the operation began: its page map and its bytes. */
    ghost var blocks0: map<nat, nat>
    ghost var data0: Mem
    /** What a crash could have left so far, before and after the commit. */
    ghost var trace: seq<Crash>
    ghost var after: seq<Crash>
    /** The trace holds an image that no mount can read. */
    ghost var tore: bool
    /** The lists when the operation began, and the blocks given back since, each with
        the first block of the run it was in. */
    ghost var home0: map<nat, nat>
    ghost var back: map<nat, nat>

    /** Every free block is in a list, and the lists are what giving blocks back has made
        of them. */
    ghost predicate HomesOk()
      reads this`pool, this`home, this`home0, this`back
    {
      Homed(pool, home, cpus) && home == Settled(home0, back, cpus, perList)
    }

    /** Every free block is in a list; the lists are those of `before`, but for the blocks
        given back since, which went to the list of the first block of their run. */
    ghost predicate ListsFrom(before: map<nat, nat>)
      reads this`pool, this`home, this`back
    {
      Homed(pool, home, cpus) && home == Settled(before, back, cpus, perList)
    }

    lemma ListsAre()
      requires Inv()
      ensures ListsFrom(home0)
    {
    }

    ghost predicate Inv()
      reads this`m, this`head, this`tail, this`pool, this`lay, this`k, this`j, this`home, this`home0, this`back
    {
      && 0 !in pool && HomesOk()
      && PageSet(lay.pages) !! pool
      && if head == 0 then tail == NOWHERE && lay == Layout([], [])
         else Holds(m, lay) && CutOk(lay, k, j) && head == lay.pages[0] && tail == CutAddr(lay, k, j)
    }

    /** What the next mount would replay. */
    ghost function Log(): seq<LogRec>
      reads this`lay, this`k, this`j
    {
      LogAt(lay, k, j)
    }

    ghost function Img(): Image
      reads this`m, this`head, this`tail
    {
      Image(m, head, tail)
    }

    ghost predicate TraceSafe()
      reads this`base, this`trace, this`tore, this`data, this`blocks0, this`data0
    {
      && OnMedia(base) && TraceOk(trace, base, tore)
      && OldKept(blocks0, data, data0) && AllKept(trace, blocks0, data0)
    }

    /** The pages the log may use: its own and the free ones. */
    ghost function Owned(): set<nat>
      reads this`pool, this`lay
    {
      pool + PageSet(lay.pages)
    }

    /** The header's pointers. */
    ghost function Heads(): Head
      reads this`lastSetattr, this`lastLink
    {
      Head(lastSetattr, lastLink)
    }

    lemma HeadsAre()
      ensures Heads() == Head(lastSetattr, lastLink)
    {
    }

    /** An empty log on a device with the given free blocks. */
    constructor (pool: set<nat>, home: map<nat, nat>, cpus: Positive, perList: Positive, data: Mem)
      requires 0 !in pool && Homed(pool, home, cpus)
      ensures Inv() && Log() == [] && tree == map[] && this.pool == pool && this.data == data
      ensures this.home == home && this.cpus == cpus && this.perList == perList
      ensures head == 0 && lastSetattr == lastLink == NOWHERE
    {
      m, head, tail, this.pool, this.data := Nvm(map[], map[]), 0, NOWHERE, pool, data;
      this.home, this.cpus, this.perList := home, cpus, perList;
      lastSetattr, lastLink, tree, validBytes := NOWHERE, NOWHERE, map[], 0;
      lay, k, j, base, trace, after, tore := Layout([], []), 0, 0, [], [], [], false;
      home0, back := home, map[];
    }

    /** Index slots lie among the keys of the committed entries they point at. */
    ghost predicate IndexOk()
      reads this`tree, this`lay, this`k, this`j
    {
      SlotsFit(tree, Log())
    }

    lemma LogOnMedia()
      requires Inv()
      ensures OnMedia(Log()) && DistinctAddrs(Log())
      ensures forall r :: r in Log() ==> r.addr.page in lay.pages
    {
      if head != 0 {
        CommittedHolds(m, lay, k, j);
        LogAddrs(m, Committed(lay, k, j));
        forall r | r in Log() ensures r.addr.page in lay.pages {
          var i :| 0 <= i < |Log()| && Log()[i] == r;
        }
      }
    }

    /** No two entries lie at the same place, committed or not. */
    lemma AllDistinct()
      requires Inv()
      ensures DistinctAddrs(Log() + Rest())
    {
      if head != 0 {
        CommittedThenPending(lay, k, j);
        LogAddrs(m, lay);
      }
    }

    lemma LogIsDistinct()
      requires Inv()
      ensures DistinctAddrs(Log())
    {
      LogOnMedia();
    }

    lemma NowSafe()
      requires Inv() && Collected(base, Log())
      ensures Safe(Img(), base)
    {
      ShowsLog();
    }

    // ----- visible stores --------------------------------------------------------

    method StoreCell(a: Addr, v: Cell)
      requires TraceSafe() && Safe(Image(Nvm(m.cells[a := v], m.next), head, tail), base) && BeforeLink(a, v)
      modifies this`m, this`trace
      ensures m == Nvm(old(m).cells[a := v], old(m).next)
      ensures TraceSafe() && trace == old(trace) + [Crash(Img(), data)]
    {
      m := Nvm(m.cells[a := v], m.next);
      Record();
    }

    method StoreNext(page: nat, to: nat)
      requires TraceSafe() && Safe(Image(SetNext(m, page, to), head, tail), base)
      modifies this`m, this`trace
      ensures m == SetNext(old(m), page, to)
      ensures TraceSafe() && trace == old(trace) + [Crash(Img(), data)]
    {
      m := Nvm(m.cells, m.next[page := to]);
      Record();
    }

    method StoreHead(page: nat)
      requires TraceSafe() && Safe(Image(m, page, tail), base)
      modifies this`head, this`trace
      ensures head == page
      ensures TraceSafe() && trace == old(trace) + [Crash(Img(), data)]
    {
      head := page;
      Record();
    }

    /** A store to blocks that the old file does not use.  Whatever part of it
        a crash lets through, the old file is intact. */
    method StoreData(at: nat, bytes: seq<Byte>, ghost block: nat, ghost n: nat)
      requires TraceSafe() && Safe(Img(), base)
      requires Unused(blocks0, block, n) && block * BLOCK <= at && at + |bytes| <= (block + n) * BLOCK
      modifies this`data, this`trace
      ensures data == Store(old(data), at, bytes) && TraceSafe() && trace == old(trace) + [Crash(Img(), data)]
      ensures forall d: Mem :: SameBut(d, old(data), block, n) ==> OldKept(blocks0, d, data0)
    {
      StoreInside(data, at, bytes, block, n);
      OldStaysKept(blocks0, data, Store(data, at, bytes), data0, block, n);
      forall d: Mem | SameBut(d, data, block, n) ensures OldKept(blocks0, d, data0) {
        OldStaysKept(blocks0, data, d, data0, block, n);
      }
      data := Store(data, at, bytes);
      Record();
    }

    /** Adds the present image to the trace. */
    ghost method Record()
      requires TraceSafe() && Safe(Img(), base)
      modifies this`trace
      ensures TraceSafe() && trace == old(trace) + [Crash(Img(), data)]
    {
      if Torn(Img()) {
        TornIsUnreadable(Img(), base);
      }
      TraceMore(trace, Crash(Img(), data), base, tore, blocks0, data0);
      trace := trace + [Crash(Img(), data)];
    }

    // ----- stores to scratch pages ------------------------------------------------

    /** Since `at`, only scratch pages have changed. */
    ghost predicate OnScratch(at: Image, work: set<nat>)
      reads this`m, this`head, this`tail, this`base, this`trace, this`tore, this`data, this`blocks0, this`data0
    {
      TraceSafe() && Scratch(at, work, base) && SameOutside(Img(), at, work)
    }

    method WorkCell(a: Addr, v: Cell, ghost at: Image, ghost work: set<nat>)
      requires OnScratch(at, work) && a.page in work && BeforeLink(a, v)
      modifies this`m, this`trace
      ensures m == Nvm(old(m).cells[a := v], old(m).next)
      ensures OnScratch(at, work)
    {
      assert SameOutside(Image(Nvm(m.cells[a := v], m.next), head, tail), at, work);
      StoreCell(a, v);
    }

    method WorkNext(page: nat, to: nat, ghost at: Image, ghost work: set<nat>)
      requires OnScratch(at, work) && page in work
      modifies this`m, this`trace
      ensures m == SetNext(old(m), page, to)
      ensures OnScratch(at, work)
    {
      assert SameOutside(Image(SetNext(m, page, to), head, tail), at, work);
      StoreNext(page, to);
    }

    // ----- pages from and to the allocator ------------------------------------------

    /** Links one more page behind a chain of pages not yet in use. */
    method AddPage(pages: seq<nat>, p: nat, ghost at: Image, ghost work: set<nat>)
      requires p != 0 && p in work && p !in pages && PageSet(pages) <= work
      requires Linked(m.next, pages)
      requires OnScratch(at, work)
      modifies this`m, this`trace
      ensures Linked(m.next, pages + [p])
      ensures m.cells == old(m).cells
      ensures forall q :: q !in pages && q != p ==> Next(m.next, q) == Next(old(m).next, q)
      ensures OnScratch(at, work)
    {
      WorkNext(p, 0, at, work);
      LinkedFrame(old(m).next, m.next, pages);
      if pages == [] {
        assert pages + [p] == [p];
        assert Linked(m.next, [p]);
      } else {
        assert pages[|pages| - 1] in PageSet(pages);
        ConcatLinked(m.next, pages, [p]);
        WorkNext(pages[|pages| - 1], p, at, work);
      }
    }

    /** No processor's list has `num` free blocks. */
    ghost predicate NoList(num: nat)
      reads this`pool, this`home
    {
      NoneHas(pool, home, cpus, num)
    }

    /** Takes up to `num` consecutive blocks out of the list of a processor that has
        `num` of them; none if no processor has.  The free lists decide which
        processor's list it is and how long the run. */
    method NewBlocks(num: nat) returns (n: nat, block: nat, ghost from: nat)
      requires 0 < num
      modifies this`pool
      ensures old(HomesOk()) ==> HomesOk()
      ensures n <= num && (n == 0 <==> old(NoList(num))) && (n == 0 ==> pool == old(pool))
      ensures Run(block, n) <= old(pool) && pool == old(pool) - Run(block, n)
      ensures n > 0 ==> from < cpus && |ListOf(pool, home, from)| >= num - n
    {
      n, block, from := 0, 0, 0;
      if i: nat :| i < cpus && |ListOf(pool, home, i)| >= num {
        from := i;
        var list := ListOf(pool, home, i);
        assert list != {};
        block :| block in list;
        RunGrows(block, 0);
        var wish :| 1 <= wish <= num;
        n := 1;
        while n < wish && block + n in list
          invariant 1 <= n <= wish && Run(block, n) <= list && pool == old(pool)
        {
          RunGrows(block, n);
          n := n + 1;
        }
        RunSize(block, n);
        TakeFromList(pool, home, i, Run(block, n));
        pool := pool - Run(block, n);
      } else {
        assert NoList(num);
      }
    }

    /** Gives a run of blocks back, to the list of its first block.  None of them is
        free already. */
    method FreeBlocks(block: nat, n: nat)
      requires Run(block, n) !! pool && HomesOk()
      modifies this`pool, this`home, this`back
      ensures pool == old(pool) + Run(block, n)
      ensures home == Rehomed(old(home), Run(block, n), PartOf(block, cpus, perList))
      ensures HomesOk() && back == Then(old(back), OneRun(block, Run(block, n)))
    {
      hide Run, PartOf, Homed, Settled, Rehomed, Then, OneRun;
      HomedMore(pool, home, Run(block, n), PartOf(block, cpus, perList), cpus);
      SettledMore(home0, back, block, Run(block, n), cpus, perList);
      pool := pool + Run(block, n);
      home := Rehomed(home, Run(block, n), PartOf(block, cpus, perList));
      back := Then(back, OneRun(block, Run(block, n)));
    }

    /** Gives one page back. */
    method FreePage(page: nat)
      requires page !in pool && HomesOk()
      modifies this`pool, this`home, this`back
      ensures HomesOk() && pool == old(pool) + {page} && back == Then(old(back), OneRun(page, {page}))
    {
      RunGrows(page, 0);
      hide Run, HomesOk, Then, OneRun, Rehomed, PartOf;
      FreeBlocks(page, 1);
    }

    /** Chains a run of pages behind others. */
    method CoalesceLogPages(first: seq<nat>, block: nat, n: nat, ghost at: Image, ghost work: set<nat>)
      returns (pages: seq<nat>)
      requires Run(block, n) <= work && 0 !in Run(block, n) && PageSet(first) !! Run(block, n) && PageSet(first) <= work
      requires Linked(m.next, first) && OnScratch(at, work)
      modifies this`m, this`trace
      ensures |pages| == |first| + n && PageSet(pages) == PageSet(first) + Run(block, n) && Linked(m.next, pages)
      ensures first <= pages
      ensures m.cells == old(m).cells && OnScratch(at, work)
      ensures forall p :: p !in pages ==> Next(m.next, p) == Next(old(m).next, p)
    {
      hide Run, Linked, OnScratch, HomesOk, Then;
      pages := first;
      RunGrows(block, 0);
      for i := 0 to n
        invariant |pages| == |first| + i && PageSet(pages) == PageSet(first) + Run(block, i) && Linked(m.next, pages)
        invariant first <= pages
        invariant m.cells == old(m).cells && OnScratch(at, work)
        invariant forall p :: p !in pages ==> Next(m.next, p) == Next(old(m).next, p)
      {
        var p := block + i;
        RunGrows(block, i);
        RunHas(block, n, p);
        RunHas(block, i, p);
        RunPart(block, i + 1, n);
        assert p in Run(block, n) && p !in PageSet(pages) && PageSet(pages) <= work;
        AddPage(pages, p, at, work);
        assert PageSet(pages + [p]) == PageSet(pages) + {p};
        pages := pages + [p];
      }
    }

    /** Takes `num` pages and chains them, or none if no processor's list has so
        many: a list that has enough for the first request has enough for the rest. */
    method AllocateLogPages(num: nat, ghost at: Image, ghost work: set<nat>) returns (pages: seq<nat>)
      requires 0 !in pool && pool <= work && 0 < num && HomesOk()
      requires OnScratch(at, work)
      modifies this`m, this`trace, this`pool
      ensures HomesOk()
      ensures |pages| == (if old(NoList(num)) then 0 else num) && (pages == [] ==> pool == old(pool))
      ensures PageSet(pages) + pool == old(pool) && PageSet(pages) !! pool
      ensures Linked(m.next, pages)
      ensures m.cells == old(m).cells
      ensures forall p :: p !in pages ==> Next(m.next, p) == Next(old(m).next, p)
      ensures OnScratch(at, work)
    {
      hide TraceOk, AllKept, OldKept, OnMedia, Scratch, SameOutside, NoneHas, Run, Linked, Has, OnScratch, ListOf,
           HomesOk, Then;
      pages := [];
      NoPages(m.next);
      var left: nat := num;
      ghost var from: nat := 0;
      while left > 0
        invariant |pages| + left == num && HomesOk()
        invariant if left == num then pool == old(pool) else !old(NoList(num)) && Has(from, left)
        invariant PageSet(pages) + pool == old(pool) && PageSet(pages) !! pool && 0 !in pool
        invariant Linked(m.next, pages)
        invariant m.cells == old(m).cells
        invariant forall p :: p !in pages ==> Next(m.next, p) == Next(old(m).next, p)
        invariant OnScratch(at, work)
      {
        if left < num {
          HasMeans(from, left);
        }
        var n, block;
        n, block, from := NewBlocks(left);
        if n == 0 {
          break;
        }
        HasLeft(from, left - n);
        ghost var before := pages;
        pages := CoalesceLogPages(pages, block, n, at, work);
        assert forall p :: p in before ==> p in pages;
        left := left - n;
      }
    }

    /** A processor's list has `num` free blocks. */
    ghost predicate Has(i: nat, num: nat)
      reads this`pool, this`home
    {
      i < cpus && |ListOf(pool, home, i)| >= num
    }

    lemma HasLeft(i: nat, num: nat)
      requires i < cpus && |ListOf(pool, home, i)| >= num
      ensures Has(i, num)
    {
    }

    lemma HasMeans(i: nat, num: nat)
      requires Has(i, num)
      ensures !NoList(num)
    {
    }

    /** The first n pages of the chain have been given back. */
    ghost predicate FreedTo(chain: seq<nat>, n: nat, pool0: set<nat>, back0: map<nat, nat>)
      reads this`pool, this`home, this`home0, this`back
    {
      && n <= |chain| && HomesOk()
      && pool == pool0 + PageSet(chain[..n]) && back == Then(back0, RunStarts(chain, n))
    }

    /** Gives back the run at the end of the first n pages. */
    method FreeWaiting(start: nat, num: nat, ghost chain: seq<nat>, ghost n: nat, ghost pool0: set<nat>,
                       ghost back0: map<nat, nat>)
      requires IsRun(chain, n, start, num) && num <= n <= |chain| && FreedTo(chain, n - num, pool0, back0)
      requires Distinct(chain) && PageSet(chain) !! pool0
      modifies this`pool, this`home, this`back
      ensures FreedTo(chain, n, pool0, back0)
    {
      hide Run, RunStarts, IsRun, HomesOk, Rehomed, PartOf, OneRun, PageSet, Then;
      RunApartFrom(chain, n, start, num);
      RunStartsRun(chain, n, start, num);
      ThenThen(back0, RunStarts(chain, n - num), OneRun(start, Run(start, num)));
      FreeBlocks(start, num);
    }

    lemma NothingFreed(chain: seq<nat>)
      requires HomesOk()
      ensures FreedTo(chain, 0, pool, back) && IsRun(chain, 0, 0, 0)
    {
      ThenThen(back, map[], map[]);
    }

    lemma AllFreed(chain: seq<nat>, pool0: set<nat>, back0: map<nat, nat>)
      requires FreedTo(chain, |chain|, pool0, back0)
      ensures HomesOk() && pool == pool0 + PageSet(chain) && back == Then(back0, RunStarts(chain, |chain|))
    {
      assert chain[..|chain|] == chain;
    }

    /** Frees a chain of pages, following the links; pages next to each other go
        back as one run.  No page is freed twice. */
    method FreeContiguous(first: nat, ghost chain: seq<nat>)
      requires Linked(m.next, chain) && PageSet(chain) !! pool
      requires first == if chain == [] then 0 else chain[0]
      requires HomesOk()
      modifies this`pool, this`home, this`back
      ensures HomesOk()
      ensures pool == old(pool) + PageSet(chain) && back == Then(old(back), RunStarts(chain, |chain|))
    {
      hide Run, Distinct, Linked, HomesOk, IsRun, FreedTo, PageSet, RunStarts, Then, Next, RunStart;
      ChainFacts(m.next, chain);
      NothingFreed(chain);
      var curr, start: nat, num: nat := first, 0, 0;
      ghost var n: nat := 0;
      while curr != 0
        invariant IsRun(chain, n, start, num) && num <= n <= |chain|
        invariant (num == 0 <==> start == 0) && (n > 0 ==> num > 0)
        invariant curr == if n < |chain| then chain[n] else 0
        invariant FreedTo(chain, n - num, old(pool), old(back))
        decreases |chain| - n
      {
        var block := curr;
        NextInChain(m.next, chain, n);
        curr := Next(m.next, curr);
        NextOfRun(chain, n, start, num);
        if start == 0 {
          start, num := block, 1;
        } else if block == start + num {
          num := num + 1;
        } else {
          FreeWaiting(start, num, chain, n, old(pool), old(back));
          start, num := block, 1;
        }
        n := n + 1;
      }
      if start != 0 {
        FreeWaiting(start, num, chain, n, old(pool), old(back));
      }
      AllFreed(chain, old(pool), old(back));
    }

    /** Does a page that is not the tail page hold no entry in use?  Adds the
        bytes of the entries in use to `validBytes`. */
    method CurrPageInvalid(page: nat, ghost i: nat) returns (dead: bool)
      requires head != 0 && Holds(m, lay)
      requires i < |lay.recs| - 1 && page == lay.pages[i]
      modifies this`validBytes
      ensures dead <==> PageDead(page, lay.recs[i], lastSetattr, lastLink)
      ensures Exact(tree, Recs(page, 0, lay.recs[i])) ==>
                (dead <==> Unneeded(tree, Recs(page, 0, lay.recs[i]), Heads(), page))
      ensures validBytes == old(validBytes) + UsedBytes(Recs(page, 0, lay.recs[i]), lastSetattr, lastLink)
    {
      assert PageOk(m, lay, i);
      var off := 0;
      dead := true;
      ghost var n := 0;
      ghost var es := lay.recs[i];
      ghost var recs := Recs(page, 0, es);
      while off < LAST_ENTRY
        invariant n <= |es|
        invariant off == Size(es[..n]) || (n == |es| && off >= LAST_ENTRY)
        invariant dead <==> DeadUpTo(page, es, n, lastSetattr, lastLink)
        invariant validBytes == old(validBytes) + UsedBytes(recs[..n], lastSetattr, lastLink)
        decreases LAST_ENTRY - off
      {
        HopIff(m, lay, i, n);
        if n == |es| {
          assert es[..n] == es;
          assert Closed(m.cells, page, off);
        } else {
          RecAt(page, es, n);
          assert recs[..n + 1][..n] == recs[..n];
        }
        var cell := Read(m.cells, Addr(page, off));
        var length := 0;
        match cell {
          case Rec(e) =>
            if InUse(LogRec(Addr(page, off), e), lastSetattr, lastLink) {
              validBytes := validBytes + Len(e);
              dead := false;
            }
            length := Len(e);
            assert Fits(es[n]);
            n := n + 1;
          case _ => length := 4096 - off;
        }
        off := off + length;
      }
      if off == Size(es[..n]) {
        NothingFollows(es, n);
      }
      assert n == |es| && recs[..n] == recs;
      PageDeadIff(tree, page, es, Heads());
    }

    // ----- building the new log of thorough collection -----------------------------

    /** The new log and the free pages, which together are the scratch pages. */
    ghost predicate Building(nl: Layout, work: set<nat>)
      reads this`m, this`pool
    {
      && Holds(m, nl)
      && 0 !in pool
      && PageSet(nl.pages) !! pool
      && PageSet(nl.pages) + pool == work
    }

    /** Marks the end of a page, unless the entries reach its very end. */
    method WorkFlag(ghost nl: Layout, a: Addr, ghost at: Image, ghost work: set<nat>)
      requires Holds(m, nl) && a == End(nl) && a.page in work
      requires OnScratch(at, work)
      modifies this`m, this`trace
      ensures Holds(m, nl) && Closed(m.cells, a.page, a.off)
      ensures m.next == old(m).next
      ensures OnScratch(at, work)
    {
      if a.off < LAST_ENTRY {
        MarkEnd(m, nl);
        WorkCell(a, NextPage, at, work);
      }
    }

    /** Adds one page behind the new log. */
    method AppendOneLogPage(ghost nl: Layout, last: nat, ghost at: Image, ghost work: set<nat>)
      returns (ok: bool, ghost nl': Layout)
      requires Building(nl, work)
      requires last == nl.pages[|nl.pages| - 1]
      requires OnScratch(at, work)
      requires HomesOk()
      modifies this`m, this`trace, this`pool
      ensures HomesOk()
      ensures OnScratch(at, work)
      ensures m.cells == old(m).cells
      ensures ok ==>
                && Building(nl', work)
                && nl'.recs == nl.recs && nl.pages <= nl'.pages && |nl'.pages| == |nl.pages| + 1
      ensures !ok ==> NoList(1)
    {
      hide HomesOk, Then, TraceOk, AllKept, OldKept, OnMedia, Scratch, SameOutside;
      nl' := nl;
      var more := AllocateLogPages(1, at, work);
      ok := more != [];
      if ok {
        assert PageSet(nl.pages) !! PageSet(more);
        Disjoint(nl.pages, more);
        HoldsFrame(old(m), m, nl);
        ExtendChain(m, nl, more);
        assert last in PageSet(nl.pages);
        WorkNext(last, more[0], at, work);
        nl' := Layout(nl.pages + more, nl.recs);
        assert PageSet(nl'.pages) == PageSet(nl.pages) + PageSet(more);
      }
    }

    /** Sends the writer of the new log on, adding a page when there is none. */
    method NewLogSpot(curr: Addr, size: nat, ghost nl: Layout, ghost at: Image, ghost work: set<nat>)
      returns (c: Addr, ghost nl': Layout)
      requires Building(nl, work) && curr == End(nl)
      requires MIN_ENTRY <= size <= LAST_ENTRY
      requires OnScratch(at, work)
      requires HomesOk()
      modifies this`m, this`trace, this`pool
      ensures HomesOk()
      ensures OnScratch(at, work)
      ensures c.page != 0 ==>
                && Building(nl', work) && Ready(m, nl', size, c) && Tight(curr, size, c)
                && nl'.recs == nl.recs && nl.pages <= nl'.pages
      ensures c.page == 0 ==> NoList(1)
    {
      nl' := nl;
      c := curr;
      if IsLastEntry(curr, size) {
        assert Next(m.next, nl.pages[|nl.recs| - 1]) == After(nl.pages, |nl.recs| - 1);
        var full := NextLogPage(m, curr).page == 0;
        assert curr.page in PageSet(nl.pages);
        WorkFlag(nl, curr, at, work);
        if full {
          var ok;
          ok, nl' := AppendOneLogPage(nl, curr.page, at, work);
          if !ok {
            c := NOWHERE;
            return;
          }
        }
        assert Next(m.next, nl'.pages[|nl'.recs| - 1]) == After(nl'.pages, |nl'.recs| - 1);
        c := NextLogPage(m, curr);
      }
    }

    method PutNewRecord(e: Entry, c: Addr, ghost nl: Layout, ghost at: Image, ghost work: set<nat>)
      returns (ghost nl': Layout)
      requires Building(nl, work)
      requires Fits(e) && Ready(m, nl, Len(e), c)
      requires OnScratch(at, work)
      modifies this`m, this`trace
      ensures OnScratch(at, work)
      ensures Building(nl', work)
      ensures nl'.pages == nl.pages && c.page in work
      ensures nl'.recs[|nl'.recs| - 1] != []
      ensures LogOf(nl') == LogOf(nl) + [LogRec(c, e)]
      ensures End(nl') == Addr(c.page, c.off + Len(e))
    {
      PutReady(m, nl, e, c);
      PutEnd(nl, e, c);
      ReadyPage(m, nl, Len(e), c);
      assert c.page in PageSet(nl.pages);
      nl' := Put(nl, e);
      ReadyFits(m, nl, e, c);
      WorkCell(c, Rec(e), at, work);
    }

    /** Copies one entry to the new log. */
    method CopyRecord(e: Entry, newCurr: Addr, ghost nl: Layout, ghost at: Image, ghost work: set<nat>)
      returns (c: Addr, ghost nl': Layout)
      requires Building(nl, work) && newCurr == End(nl)
      requires Fits(e)
      requires OnScratch(at, work)
      requires HomesOk()
      modifies this`m, this`trace, this`pool
      ensures HomesOk()
      ensures OnScratch(at, work)
      ensures c.page != 0 ==>
                && Building(nl', work)
                && nl'.pages[0] == nl.pages[0]
                && nl'.recs[|nl'.recs| - 1] != []
                && LogOf(nl') == LogOf(nl) + [LogRec(c, e)]
                && End(nl') == Addr(c.page, c.off + Len(e))
                && c.page in work && Tight(newCurr, Len(e), c)
      ensures c.page == 0 ==> NoList(1)
    {
      hide TraceOk, AllKept, OldKept, OnMedia, Scratch, SameOutside, HomesOk, Then;
      c, nl' := NewLogSpot(newCurr, Len(e), nl, at, work);
      if c.page != 0 {
        FlatIgnoresSpare(nl.pages, nl'.pages, nl.recs);
        nl' := PutNewRecord(e, c, nl', at, work);
      }
    }

    /** Repoints the index slots of a moved entry, and the header. */
    method GcAssign(from: Addr, e: Entry, to: Addr)
      modifies this`tree, this`lastSetattr, this`lastLink
      ensures tree == map p | p in old(tree) :: if old(tree)[p] == from && KeyOf(e, p) then to else old(tree)[p]
      ensures lastSetattr == if e.SetAttr? then to else old(lastSetattr)
      ensures lastLink == if e.LinkChange? then to else old(lastLink)
    {
      match e {
        case SetAttr(_, _, _) =>
          lastSetattr := to;
        case LinkChange(_, _, _) =>
          lastLink := to;
        case FileWrite(pgoff, num, _, _, _) =>
          for i := 0 to num
            invariant tree == map p | p in old(tree) ::
                        if old(tree)[p] == from && pgoff <= p < pgoff + i then to else old(tree)[p]
            invariant lastSetattr == old(lastSetattr) && lastLink == old(lastLink)
          {
            var p := pgoff + i;
            if p in tree && tree[p] == from {
              tree := tree[p := to];
            }
          }
        case Dentry(name, _, _, _, _) =>
          var p := Hash(name);
          if p in tree && tree[p] == from {
            tree := tree[p := to];
          }
      }
    }

    /** Repoints the volatile state for record r, copied to c. */
    method FollowCopy(r: LogRec, c: Addr, ghost done: seq<LogRec>, ghost copied: seq<LogRec>, ghost moves: map<Addr,
                      Addr>,
                      ghost tree0: map<nat, Addr>, ghost ls0: Addr, ghost ll0: Addr, ghost work: set<nat>)
      requires CopiedSoFar(done, moves, copied, tree0, tree, ls0, lastSetattr, ll0, lastLink, work)
      requires ComesNext(done, r, tree0, work)
      requires InUse(r, lastSetattr, lastLink) && c.page in work
      modifies this`tree, this`lastSetattr, this`lastLink
      ensures CopiedSoFar(done + [r], moves[r.addr := c], copied + [LogRec(c, r.e)], tree0, tree,
                          ls0, lastSetattr, ll0, lastLink, work)
    {
      ghost var tree1, ls1, ll1 := tree, lastSetattr, lastLink;
      OnlyUnmoved(moves, tree0, tree1, r.addr, r.e, done, work);
      GcAssign(r.addr, r.e, c);
      CopyStep(done, r, c, moves, copied, tree0, tree1, tree, ls0, ls1, ll0, ll1, work);
    }

    /** Copies a record if it is in use. */
    method CopyIfUsed(r: LogRec, newCurr: Addr, ghost done: seq<LogRec>, ghost nl: Layout, ghost moves: map<Addr, Addr>,
                      ghost tree0: map<nat, Addr>, ghost ls0: Addr, ghost ll0: Addr, ghost at: Image,
                          ghost work: set<nat>)
      returns (ok: bool, newCurr': Addr, ghost nl': Layout, ghost moves': map<Addr, Addr>)
      requires ComesNext(done, r, tree0, work)
      requires Building(nl, work) && newCurr == End(nl)
      requires OnScratch(at, work)
      requires CopiedSoFar(done, moves, LogOf(nl), tree0, tree, ls0, lastSetattr, ll0, lastLink, work)
      requires Tightly(Addr(nl.pages[0], 0), LogOf(nl))
      requires HomesOk()
      modifies this`m, this`trace, this`pool, this`tree, this`lastSetattr, this`lastLink
      ensures HomesOk()
      ensures OnScratch(at, work)
      ensures ok ==>
                && Building(nl', work) && nl'.pages[0] == nl.pages[0] && newCurr' == End(nl')
                && Tightly(Addr(nl'.pages[0], 0), LogOf(nl'))
                && CopiedSoFar(done + [r], moves', LogOf(nl'), tree0, tree, ls0, lastSetattr, ll0, lastLink, work)
      ensures !ok ==> NoList(1)
    {
      hide TraceOk, AllKept, OldKept, OnMedia, Scratch, SameOutside, CopiedSoFar, Linked, LogOf, Tightly, Tight,
           HomesOk, Then;
      ok, newCurr', nl', moves' := true, newCurr, nl, moves;
      if InUse(r, lastSetattr, lastLink) {
        var c;
        EndIsCursor(m, nl);
        c, nl' := CopyRecord(r.e, newCurr, nl, at, work);
        ok := c.page != 0;
        if ok {
          newCurr', moves' := Addr(c.page, c.off + Len(r.e)), moves[r.addr := c];
          TightlyMore(Addr(nl.pages[0], 0), LogOf(nl), LogRec(c, r.e));
          FollowCopy(r, c, done, LogOf(nl), moves, tree0, ls0, ll0, work);
        }
      } else {
        SkipStep(done, r, moves, LogOf(nl), tree0, tree, ls0, lastSetattr, ll0, lastLink, work);
      }
    }

    lemma NothingUnderway(nl: Layout, newHead: nat, at: Image, work: set<nat>)
      requires OnScratch(at, work) && Building(nl, work) && nl.recs == [[]] && nl.pages[0] == newHead
      ensures Underway([], nl, map[], newHead, Addr(newHead, 0), tree, lastSetattr, lastLink, at, work)
    {
      NothingCopied(nl, tree);
    }

    /** Walks the log up to the tail page and copies what is in use.  The log is
        `log`, and its first n records lie before the tail page. */
    method CopyLive(newHead: nat, ghost log: seq<LogRec>, ghost n: nat, ghost nl0: Layout, ghost at: Image,
                    ghost work: set<nat>)
      returns (ok: bool, newCurr: Addr, oldCurr: Addr, ghost nl: Layout, ghost moves: map<Addr, Addr>)
      requires CanCopy(at, log, n, tree, work) && head == at.head && tail == at.tail
      requires Building(nl0, work) && nl0.recs == [[]] && nl0.pages[0] == newHead
      requires OnScratch(at, work)
      requires HomesOk()
      modifies this`m, this`trace, this`pool, this`tree, this`lastSetattr, this`lastLink
      ensures HomesOk()
      ensures OnScratch(at, work)
      ensures ok ==> Underway(log[..n], nl, moves, newHead, newCurr, old(tree), old(lastSetattr), old(lastLink), at,
              work)
      ensures ok ==> oldCurr.page == log[n - 1].addr.page
      ensures !ok ==> NoList(1)
    {
      hide TraceOk, AllKept, OldKept, OnMedia, Scratch, Copy, MoveLog, MoveAddrs, LogOf, Recs, Holds, Underway,
           HomesOk, Then;
      var curr := Addr(head, 0);
      oldCurr := curr;
      newCurr := Addr(newHead, 0);
      nl, moves := nl0, map[];
      ok := true;
      ghost var q: nat := 0;
      NothingUnderway(nl0, newHead, at, work);
      assert CanCopyAt(at, log, n, tree, work, 0);
      assert log[..0] == [];
      while curr != tail
        invariant ok && q <= n && HomesOk()
        invariant curr == Cursor(Addr(head, 0), log, q) && curr.page != tail.page
        invariant Underway(log[..q], nl, moves, newHead, newCurr, old(tree), old(lastSetattr), old(lastLink), at, work)
        decreases n - q
      {
        oldCurr := curr;
        var stop;
        ok, stop, curr, newCurr, q, nl, moves :=
          CopyNext(curr, newCurr, log, n, q, nl, moves, newHead, old(tree), old(lastSetattr), old(lastLink), at, work);
        if !ok {
          return;
        }
        if stop {
          break;
        }
      }
    }

    /** The copy has seen the records `done`. */
    ghost predicate Underway(done: seq<LogRec>, nl: Layout, moves: map<Addr, Addr>, newHead: nat, newCurr: Addr,
                             tree0: map<nat, Addr>, ls0: Addr, ll0: Addr, at: Image, work: set<nat>)
      reads this
    {
      && OnScratch(at, work)
      && Building(nl, work) && nl.pages[0] == newHead && newCurr == End(nl)
      && Tightly(Addr(newHead, 0), LogOf(nl))
      && CopiedSoFar(done, moves, LogOf(nl), tree0, tree, ls0, lastSetattr, ll0, lastLink, work)
    }

    /** One round of the copy: hop, stop on the tail page, or look at the record there. */
    method CopyNext(curr: Addr, newCurr: Addr, ghost log: seq<LogRec>, ghost n: nat, ghost q: nat, ghost nl: Layout,
                    ghost moves: map<Addr, Addr>,
                    ghost newHead: nat, ghost tree0: map<nat, Addr>, ghost ls0: Addr, ghost ll0: Addr, ghost at: Image,
                        ghost work: set<nat>)
      returns (ok: bool, stop: bool, curr': Addr, newCurr': Addr, ghost q': nat, ghost nl': Layout,
              ghost moves': map<Addr, Addr>)
      requires CanCopy(at, log, n, tree0, work) && head == at.head && tail == at.tail
      requires q <= n && curr == Cursor(Addr(head, 0), log, q)
      requires Underway(log[..q], nl, moves, newHead, newCurr, tree0, ls0, ll0, at, work)
      requires HomesOk()
      modifies this`m, this`trace, this`pool, this`tree, this`lastSetattr, this`lastLink
      ensures HomesOk()
      ensures OnScratch(at, work)
      ensures ok ==> (stop <==> q == n) && q' == if stop then q else q + 1
      ensures ok ==> Underway(log[..q'], nl', moves', newHead, newCurr', tree0, ls0, ll0, at, work)
      ensures ok && !stop ==> curr' == Cursor(Addr(head, 0), log, q') && curr'.page != tail.page
      ensures !ok ==> NoList(1)
    {
      NextToCopy(at, Img(), log, n, q, tree0, work);
      curr' := if GotoNextPage(m, curr) then NextLogPage(m, curr) else curr;
      stop := curr'.page == tail.page;
      ok, newCurr', q', nl', moves' := true, newCurr, q, nl, moves;
      if !stop {
        q' := q + 1;
        var e := Read(m.cells, curr').e;
        ok, newCurr', nl', moves' := CopyIfUsed(LogRec(curr', e), newCurr, log[..q], nl, moves, tree0, ls0, ll0, at,
            work);
        curr' := Addr(curr'.page, curr'.off + Len(e));
      }
    }

    // ----- thorough collection --------------------------------------------------------

    /** Gives back the pages of the new log that no entry needed. */
    method TrimNewLog(last: nat, ghost nl: Layout)
      requires Holds(m, nl) && last == nl.pages[|nl.recs| - 1] && PageSet(nl.pages) !! pool
      requires HomesOk()
      modifies this`pool, this`home, this`back
      ensures HomesOk()
      ensures pool == old(pool) + PageSet(nl.pages[|nl.recs|..])
      ensures back == Then(old(back), RunStarts(nl.pages[|nl.recs|..], |nl.pages| - |nl.recs|))
    {
      ghost var n := |nl.recs|;
      assert Next(m.next, nl.pages[n - 1]) == After(nl.pages, n - 1);
      var next := Next(m.next, last);
      if next != 0 {
        StretchLinked(m.next, nl.pages, n, |nl.pages|);
        SplitSet(nl.pages, n);
        FreeContiguous(next, nl.pages[n..]);
      } else {
        assert nl.pages[n..] == [];
        ThenThen(back, map[], map[]);
      }
    }

    /** Step 1: marks the end of the new log and links it to the tail page. */
    method LinkToTail(newCurr: Addr, ghost nl: Layout, ghost at: Image, ghost work: set<nat>)
      requires Holds(m, nl) && newCurr == End(nl) && nl.recs[|nl.recs| - 1] != [] && PageSet(nl.pages) <= work
      requires 0 < k < |lay.recs| <= |lay.pages| && tail.page == lay.pages[k]
      requires Holds(at.m, lay) && PageSet(lay.pages) !! work
      requires OnScratch(at, work)
      modifies this`m, this`trace
      ensures OnScratch(at, work)
      ensures Holds(m, Joined(nl, lay, k))
    {
      assert newCurr.page in PageSet(nl.pages);
      WorkFlag(nl, newCurr, at, work);
      StillHolds(at, Img(), lay, work);
      assert PageSet(nl.pages) !! PageSet(lay.pages);
      Disjoint(lay.pages, nl.pages);
      JoinHolds(m, nl, lay, k);
      WorkNext(newCurr.page, tail.page, at, work);
    }

    /** Step 1 and 2: links the new log to the tail page and switches to it. */
    method SwitchLog(newCurr: Addr, newHead: nat, ghost nl: Layout, ghost mid: seq<LogRec>, ghost moves: map<Addr,
                     Addr>,
                     ghost at: Image, ghost work: set<nat>)
      requires Building(nl, work) && newCurr == End(nl) && newHead == nl.pages[0] && nl.recs[|nl.recs| - 1] != []
      requires 0 < k && CutOk(lay, k, j) && tail == CutAddr(lay, k, j)
      requires Holds(at.m, lay) && PageSet(lay.pages) !! work
      requires OnScratch(at, work)
      requires Collected(base, mid)
      requires LogOf(nl) + Recs(lay.pages[k], 0, lay.recs[k][..j]) == MoveLog(moves, mid)
      requires HomesOk()
      modifies this`m, this`trace, this`pool, this`home, this`back, this`head
      ensures HomesOk()
      ensures TraceSafe()
      ensures head == newHead
      ensures Holds(m, Joined(nl, lay, k))
      ensures pool == old(pool) + PageSet(nl.pages[|nl.recs|..])
      ensures back == Then(old(back), RunStarts(nl.pages[|nl.recs|..], |nl.pages| - |nl.recs|))
      ensures forall p :: p in lay.pages ==> Next(m.next, p) == Next(at.m.next, p)
      ensures CellsKept(m, at.m, work)
    {
      hide Collected, TraceOk, AllKept, OldKept, OnMedia, MoveLog, Scratch, HomesOk, Then;
      TrimNewLog(newCurr.page, nl);
      LinkToTail(newCurr, nl, at, work);
      forall p | p in lay.pages ensures Next(m.next, p) == Next(at.m.next, p) {
        assert p in PageSet(lay.pages);
      }
      JoinedIsSafe(m, nl, lay, k, j, mid, moves, base);
      StoreHead(newHead);
    }

    /** Step 3 and 4: unlinks the old log and frees its pages. */
    method DropOldLog(oldHead: nat, oldLast: nat, ghost lay0: Layout, ghost k0: nat)
      requires Inv() && head != 0 && TraceSafe()
      requires Collected(base, Log())
      requires 0 < k0 <= |lay0.pages| && oldHead == lay0.pages[0] && oldLast == lay0.pages[k0 - 1]
      requires Linked(m.next, lay0.pages)
      requires PageSet(lay0.pages[..k0]) !! PageSet(lay.pages) + pool
      modifies this`m, this`trace, this`pool, this`home, this`back
      ensures Inv() && TraceSafe()
      ensures pool == old(pool) + PageSet(lay0.pages[..k0]) && back == Then(old(back), RunStarts(lay0.pages[..k0], k0))
      ensures m.cells == old(m).cells
    {
      hide Collected, TraceOk, AllKept, OldKept, OnMedia, Holds, HomesOk, Then;
      assert oldLast in PageSet(lay0.pages[..k0]) by {
        assert lay0.pages[..k0][k0 - 1] == oldLast;
      }
      assert oldLast !in lay.pages by {
        assert oldLast !in PageSet(lay.pages);
      }
      StretchLinked(m.next, lay0.pages, 0, k0);
      assert lay0.pages[0..k0] == lay0.pages[..k0];
      HoldsFrame(m, SetNext(m, oldLast, 0), lay);
      Snapshot(SetNext(m, oldLast, 0), lay, k, j);
      StoreNext(oldLast, 0);
      FreeContiguous(oldHead, lay0.pages[..k0]);
      assert 0 !in PageSet(lay0.pages[..k0]);
    }

    /** Copies the entries in use before the tail page to a new log and switches
        to it.  `ok` is false when memory runs out during the copy; the kernel
        then stops on a null pointer, with the committed log still intact. */
    method ThoroughGc(blocks: nat, ghost pre: seq<LogRec>, ghost post: seq<LogRec>)
      returns (ok: bool, ghost switched: bool, ghost moves: map<Addr, Addr>)
      requires Inv() && head != 0 && IndexOk() && TraceSafe()
      requires Collected(base, Log())
      requires pre == LogOf(Committed(lay, k, 0)) && post == Recs(lay.pages[k], 0, lay.recs[k][..j])
      requires 0 < blocks
      requires 0 < k ==> exists r :: r in pre && InUse(r, lastSetattr, lastLink)
      modifies this`m, this`head, this`pool, this`home, this`back, this`tree, this`lastSetattr, this`lastLink,
               this`lay, this`k,
               this`trace
      ensures TraceSafe()
      ensures ok ==>
                && Inv() && head != 0
                && TailSame(lay, k, old(lay), old(k)) && CellsKept(m, old(m), old(pool))
      ensures ok && !switched ==> Log() == old(Log()) && tree == old(tree) && Heads() == old(Heads()) && moves == map[]
      ensures ok && !switched ==> pool == old(pool) && home == old(home) && back == old(back)
      ensures ok && switched ==> CopyGave(old(back), old(pool), back, old(lay).pages[..old(k)])
      ensures Exact(old(tree), pre) && old(k) > 0 ==> CopiesNeeded(old(tree), pre, old(Heads()))
      ensures ok ==> (switched <==> old(k) > 0 && !old(NoList(blocks))) && Owned() == old(Owned())
      ensures ok && switched ==>
                && Log() == MoveLog(moves, Copy(pre, old(lastSetattr), old(lastLink)).kept + post)
                && tree == MoveAddrs(moves, old(tree)) && MovesFrom(moves, pre) && FreshMoves(moves, pre + post)
                && HeadsAfter(moves, pre, old(Heads()), Heads())
                && Tightly(Addr(head, 0), MoveLog(moves, Copy(pre, old(lastSetattr), old(lastLink)).kept))
      ensures !ok ==> NoList(1)
      ensures !ok ==> head == old(head)
    {
      hide Collected, TraceOk, AllKept, OldKept, OnMedia, CanCopy, MoveLog, MoveAddrs, Copy, SlotsFit, MovesFrom,
           HeadsAfter, FreshMoves, Tightly, HomesOk, Then, Exact, CopiesNeeded;
      ok, switched, moves := true, false, map[];
      if head == tail.page {
        return;
      }
      assert 0 < k;
      ghost var at, work := Img(), pool;
      GcSetup(m, lay, k, j, tree, work, base);
      PreNeeds(at, pre, post, tree, work, Heads());
      var spares := AllocateLogPages(blocks, at, work);
      if |spares| != blocks {
        StillHolds(at, Img(), lay, work);
        return;
      }
      switched := true;
      ghost var nl := Layout(spares, [[]]);
      assert PageOk(m, nl, 0);
      ok, moves := CopyAndSwitch(spares[0], pre, post, nl, at, work);
    }

    /** The second half of thorough collection, once the pages are there. */
    method CopyAndSwitch(newHead: nat, ghost pre: seq<LogRec>, ghost post: seq<LogRec>, ghost nl0: Layout,
                         ghost at: Image, ghost work: set<nat>)
      returns (ok: bool, ghost moves: map<Addr, Addr>)
      requires 0 < k && CutOk(lay, k, j) && Holds(at.m, lay) && head == lay.pages[0] && tail == CutAddr(lay, k, j)
      requires OnScratch(at, work) && PageSet(lay.pages) !! work
      requires post == Recs(lay.pages[k], 0, lay.recs[k][..j])
      requires CanCopy(at, pre + post, |pre|, tree, work) && pre[|pre| - 1].addr.page == lay.pages[k - 1]
      requires Collected(base, pre + post)
      requires Building(nl0, work) && nl0.recs == [[]] && nl0.pages[0] == newHead
      requires exists r :: r in pre && InUse(r, lastSetattr, lastLink)
      requires HomesOk()
      modifies this`m, this`head, this`pool, this`home, this`back, this`tree, this`lastSetattr, this`lastLink,
               this`lay, this`k,
               this`trace
      ensures TraceSafe()
      ensures ok ==>
                && Inv() && head != 0
                && Log() == MoveLog(moves, Copy(pre, old(lastSetattr), old(lastLink)).kept + post)
                && tree == MoveAddrs(moves, old(tree)) && MovesFrom(moves, pre) && FreshMoves(moves, pre + post)
                && HeadsAfter(moves, pre, old(Heads()), Heads())
                && Tightly(Addr(head, 0), MoveLog(moves, Copy(pre, old(lastSetattr), old(lastLink)).kept))
                && TailSame(lay, k, old(lay), old(k))
                && pool + PageSet(lay.pages) == work + PageSet(old(lay).pages) && CellsKept(m, at.m, work)
                && CopyGave(old(back), work, back, old(lay).pages[..old(k)])
      ensures !ok ==> NoList(1)
      ensures !ok ==> head == old(head)
    {
      hide Collected, TraceOk, AllKept, OldKept, OnMedia, CanCopy, MoveLog, MoveAddrs, Copy, MovesFrom, HeadsAfter,
           TailSame, CellsKept, Scratch, Holds, FreshMoves, Tightly, Building, Recs, LogOf, InUse, Inv, HomesOk, Then,
           RunStarts, CopyGave;
      ghost var mid := Copy(pre, lastSetattr, lastLink).kept + post;
      var newCurr, oldCurr;
      ghost var nl;
      ok, newCurr, oldCurr, nl, moves := CopyAll(newHead, pre, post, nl0, at, work);
      if ok {
        SpareIsWork(nl, work);
        ghost var spare, chain := nl.pages[|nl.recs|..], lay.pages[..k];
        FinishGc(newCurr, oldCurr.page, newHead, nl, mid, moves, at, work);
        GaveCopy(old(back), work, back, spare, chain);
      }
    }

    /** The copy as a whole: `pre` lies before the tail page, `post` on it. */
    method CopyAll(newHead: nat, ghost pre: seq<LogRec>, ghost post: seq<LogRec>, ghost nl0: Layout, ghost at: Image,
                   ghost work: set<nat>)
      returns (ok: bool, newCurr: Addr, oldCurr: Addr, ghost nl: Layout, ghost moves: map<Addr, Addr>)
      requires CanCopy(at, pre + post, |pre|, tree, work) && head == at.head && tail == at.tail
      requires Building(nl0, work) && nl0.recs == [[]] && nl0.pages[0] == newHead
      requires OnScratch(at, work)
      requires Collected(base, pre + post)
      requires exists r :: r in pre && InUse(r, lastSetattr, lastLink)
      requires HomesOk()
      modifies this`m, this`trace, this`pool, this`tree, this`lastSetattr, this`lastLink
      ensures HomesOk()
      ensures OnScratch(at, work)
      ensures ok ==>
                && Building(nl, work) && nl.pages[0] == newHead && newCurr == End(nl) && nl.recs[|nl.recs| - 1] != []
                && oldCurr.page == pre[|pre| - 1].addr.page
                && Collected(base, Copy(pre, old(lastSetattr), old(lastLink)).kept + post)
                && LogOf(nl) + post == MoveLog(moves, Copy(pre, old(lastSetattr), old(lastLink)).kept + post)
                && tree == MoveAddrs(moves, old(tree)) && MovesFrom(moves, pre) && FreshMoves(moves, pre + post)
                && HeadsAfter(moves, pre, old(Heads()), Heads())
                && Tightly(Addr(newHead, 0), MoveLog(moves, Copy(pre, old(lastSetattr), old(lastLink)).kept))
      ensures !ok ==> NoList(1)
    {
      assert 0 < |pre| && OnMedia(pre + post) && DistinctAddrs(pre + post);
      hide TraceOk, AllKept, OldKept, OnMedia, Scratch, SameOutside, MoveLog, MoveAddrs, Copy, Collected, CanCopy,
           DistinctAddrs, FreshMoves, MovesFrom, CopiedSoFar, Tightly, HeadsAfter, Holds, LogOf, InUse, HomesOk, Then;
      ok, newCurr, oldCurr, nl, moves := CopyLive(newHead, pre + post, |pre|, nl0, at, work);
      if ok {
        assert (pre + post)[..|pre|] == pre;
        OffWork(at, pre + post, |pre|, old(tree), work);
        AfterCopy(pre, post, old(lastSetattr), old(lastLink), moves, work, base, nl, m, old(tree), tree, lastSetattr,
            lastLink);
      }
    }

    /** Steps 1 and 2 of thorough collection, and what the log then is. */
    method SwitchTo(newCurr: Addr, newHead: nat, ghost nl: Layout, ghost mid: seq<LogRec>, ghost moves: map<Addr, Addr>,
                    ghost at: Image, ghost work: set<nat>) returns (ghost jo: Layout, ghost n: nat)
      requires Building(nl, work) && newCurr == End(nl) && newHead == nl.pages[0] && nl.recs[|nl.recs| - 1] != []
      requires 0 < k && CutOk(lay, k, j) && tail == CutAddr(lay, k, j)
      requires Holds(at.m, lay) && PageSet(lay.pages) !! work
      requires OnScratch(at, work)
      requires Collected(base, mid)
      requires LogOf(nl) + Recs(lay.pages[k], 0, lay.recs[k][..j]) == MoveLog(moves, mid)
      requires HomesOk()
      modifies this`m, this`trace, this`pool, this`home, this`back, this`head
      ensures HomesOk()
      ensures TraceSafe()
      ensures Holds(m, jo) && CutOk(jo, n, j) && CutAddr(jo, n, j) == tail
      ensures head == newHead == jo.pages[0] && newHead != 0
      ensures LogOf(Committed(jo, n, j)) == MoveLog(moves, mid)
      ensures TailSame(jo, n, lay, k)
      ensures 0 !in pool && PageSet(jo.pages) !! pool
      ensures PageSet(lay.pages[..k]) !! PageSet(jo.pages) + pool
      ensures pool + PageSet(jo.pages) + PageSet(lay.pages[..k]) == work + PageSet(lay.pages)
      ensures Linked(m.next, lay.pages)
      ensures CellsKept(m, at.m, work)
      ensures back == Then(old(back), RunStarts(nl.pages[|nl.recs|..], |nl.pages| - |nl.recs|))
    {
      SwitchLog(newCurr, newHead, nl, mid, moves, at, work);
      jo, n := Joined(nl, lay, k), |nl.recs|;
      JoinLog(nl, lay, k, j);
      JoinTail(nl, lay, k);
      PagesApart(nl, lay, k, old(pool), pool, work);
      LinkedFrame(at.m.next, m.next, lay.pages);
      NewHeadPage(nl, lay, k, pool, work, old(pool));
    }

    /** Steps 1 and 2 of thorough collection: the new log is the log. */
    method SwitchOver(newCurr: Addr, newHead: nat, ghost nl: Layout, ghost mid: seq<LogRec>,
                      ghost moves: map<Addr, Addr>, ghost at: Image, ghost work: set<nat>)
      requires Building(nl, work) && newCurr == End(nl) && newHead == nl.pages[0] && nl.recs[|nl.recs| - 1] != []
      requires 0 < k && CutOk(lay, k, j) && tail == CutAddr(lay, k, j) && head == lay.pages[0]
      requires Holds(at.m, lay) && PageSet(lay.pages) !! work
      requires OnScratch(at, work)
      requires Collected(base, mid)
      requires LogOf(nl) + Recs(lay.pages[k], 0, lay.recs[k][..j]) == MoveLog(moves, mid)
      requires HomesOk()
      modifies this`m, this`trace, this`pool, this`home, this`back, this`head, this`lay, this`k
      ensures Inv() && head != 0 && TraceSafe()
      ensures Log() == MoveLog(moves, mid) && head == newHead && Collected(base, Log())
      ensures TailSame(lay, k, old(lay), old(k)) && CellsKept(m, at.m, work)
      ensures PageSet(old(lay).pages[..old(k)]) !! PageSet(lay.pages) + pool && Linked(m.next, old(lay).pages)
      ensures pool + PageSet(lay.pages) + PageSet(old(lay).pages[..old(k)]) == work + PageSet(old(lay).pages)
      ensures back == Then(old(back), RunStarts(nl.pages[|nl.recs|..], |nl.pages| - |nl.recs|))
    {
      hide Collected, TraceOk, AllKept, OldKept, OnMedia, MoveLog, TailSame, Scratch, Recs, Linked, Holds, CutAddr,
           LogOf, HomesOk, RunStarts, Then, CellsKept, PageSet;
      ghost var jo, n := SwitchTo(newCurr, newHead, nl, mid, moves, at, work);
      lay, k := jo, n;
      CollectedMoves(base, mid, moves);
    }

    /** Steps 1 to 4 of thorough collection. */
    method FinishGc(newCurr: Addr, oldLast: nat, newHead: nat, ghost nl: Layout, ghost mid: seq<LogRec>,
                    ghost moves: map<Addr, Addr>,
                    ghost at: Image, ghost work: set<nat>)
      requires Building(nl, work) && newCurr == End(nl) && newHead == nl.pages[0] && nl.recs[|nl.recs| - 1] != []
      requires 0 < k && CutOk(lay, k, j) && tail == CutAddr(lay, k, j) && head == lay.pages[0]
               && oldLast == lay.pages[k - 1]
      requires Holds(at.m, lay) && PageSet(lay.pages) !! work
      requires OnScratch(at, work)
      requires Collected(base, mid)
      requires LogOf(nl) + Recs(lay.pages[k], 0, lay.recs[k][..j]) == MoveLog(moves, mid)
      requires HomesOk()
      modifies this`m, this`trace, this`pool, this`home, this`back, this`head, this`lay, this`k
      ensures Inv() && head != 0 && TraceSafe()
      ensures Log() == MoveLog(moves, mid) && head == newHead
      ensures TailSame(lay, k, old(lay), old(k))
      ensures pool + PageSet(lay.pages) == work + PageSet(old(lay).pages) && CellsKept(m, at.m, work)
      ensures back == Then(Then(old(back), RunStarts(nl.pages[|nl.recs|..], |nl.pages| - |nl.recs|)),
                           RunStarts(old(lay).pages[..old(k)], old(k)))
    {
      hide Collected, TraceOk, AllKept, OldKept, OnMedia, MoveLog, TailSame, Scratch, Recs, Linked, Holds, CutAddr,
           LogOf, HomesOk, RunStarts, Then, Building, OnScratch, SameOutside, Inv, TraceSafe, Log;
      ghost var lay0, k0, chain := lay, k, lay.pages[..k];
      var oldHead := head;
      SwitchOver(newCurr, newHead, nl, mid, moves, at, work);
      InEitherOrder(pool, PageSet(lay.pages), PageSet(chain), work + PageSet(lay0.pages));
      DropOldLog(oldHead, oldLast, lay0, k0);
    }

    static lemma InEitherOrder(a: set<nat>, b: set<nat>, c: set<nat>, all: set<nat>)
      requires a + b + c == all
      ensures a + c + b == all
    {
    }

    lemma SpareIsWork(nl: Layout, work: set<nat>)
      requires Building(nl, work)
      ensures |nl.recs| <= |nl.pages| && forall p :: p in nl.pages[|nl.recs|..] ==> p in work
    {
      forall p | p in nl.pages[|nl.recs|..] ensures p in work {
        assert p in PageSet(nl.pages);
      }
    }

    // ----- fast collection ---------------------------------------------------------------

    /** No page is lost, and links of pages outside `all` are as they were. */
    ghost predicate Kept(all: set<nat>, next0: map<nat, nat>)
      reads this`m, this`pool, this`lay
    {
      pool + PageSet(lay.pages) == all && forall p :: p !in all ==> Next(m.next, p) == Next(next0, p)
    }

    /** Unlinks and frees a page that holds no entry in use. */
    method FreeCurrPage(curr: nat, last: nat, next: nat, ghost i: nat, ghost log0: seq<LogRec>, ghost all: set<nat>,
                        ghost next0: map<nat, nat>)
      requires Inv() && head != 0 && TraceSafe()
      requires 0 < i < k && curr == lay.pages[i] && last == lay.pages[i - 1] && next == lay.pages[i + 1]
      requires PageDead(curr, lay.recs[i], lastSetattr, lastLink)
      requires OnMedia(log0) && Collected(base, log0) && Swept(log0, Log(), lastSetattr, lastLink, tail.page)
      requires Kept(all, next0)
      modifies this`m, this`trace, this`pool, this`home, this`back, this`lay, this`k
      ensures Inv() && TraceSafe() && Kept(all, next0)
      ensures k == old(k) - 1 && SameBefore(lay, old(lay), i) && lay.pages[i] == next
      ensures Swept(log0, Log(), lastSetattr, lastLink, tail.page)
      ensures TailSame(lay, k, old(lay), old(k)) && m.cells == old(m).cells
      ensures Gave(old(back), PageSet(old(lay).pages), back, PageSet(lay.pages))
    {
      hide Collected, TraceOk, AllKept, OldKept, OnMedia, Swept, TailSame, PageDead, HomesOk, Gave, Then, OneRun, Holds,
           LogAt, CutAddr, Linked, SameBefore;
      ghost var lay' := UnlinkSetup(curr, last, next, i, log0);
      GaveOne(back, PageSet(lay.pages), curr);
      StoreNext(last, next);
      FreePage(curr);
      lay, k := lay', k - 1;
    }

    lemma UnlinkSetup(curr: nat, last: nat, next: nat, i: nat, log0: seq<LogRec>) returns (lay': Layout)
      requires Inv() && head != 0 && TraceSafe()
      requires 0 < i < k && curr == lay.pages[i] && last == lay.pages[i - 1] && next == lay.pages[i + 1]
      requires PageDead(curr, lay.recs[i], lastSetattr, lastLink)
      requires OnMedia(log0) && Collected(base, log0) && Swept(log0, Log(), lastSetattr, lastLink, tail.page)
      ensures Holds(SetNext(m, last, next), lay') && CutOk(lay', k - 1, j) && CutAddr(lay', k - 1, j) == tail
      ensures SameBefore(lay', lay, i) && lay'.pages[i] == next && lay'.pages[0] == lay.pages[0]
      ensures Swept(log0, LogAt(lay', k - 1, j), lastSetattr, lastLink, tail.page) && TailSame(lay', k - 1, lay, k)
      ensures PageSet(lay'.pages) == PageSet(lay.pages) - {curr} && curr in PageSet(lay.pages)
      ensures last in PageSet(lay.pages) && curr != 0
      ensures Safe(Image(SetNext(m, last, next), head, tail), base)
    {
      hide Collected, TraceOk, AllKept, OldKept, OnMedia, Swept, TailSame, PageDead, HomesOk;
      lay' := UnlinkSweeps(m, lay, k, j, i, lastSetattr, lastLink, log0);
      StillSafe(SetNext(m, last, next), lay', k - 1, j, lastSetattr, lastLink, tail.page, log0, base);
      assert last in PageSet(lay.pages) && curr in PageSet(lay.pages);
    }

    /** Where fast collection stands: before page i of the log. */
    ghost predicate FastAt(i: nat, curr: nat, last: nat, first: bool, found: bool, possible: nat, log0: seq<LogRec>)
      reads this
    {
      && Inv() && head != 0 && TraceSafe()
      && i <= k && curr == lay.pages[i]
      && (i > 0 ==> last == lay.pages[i - 1])
      && (first ==> i > 0)
      && (i > 0 ==> (first <==> PageDead(lay.pages[0], lay.recs[0], lastSetattr, lastLink)))
      && (found <==> if first then i > 1 else i > 0)
      && (found ==> possible == lay.pages[if first then 1 else 0])
      && LiveFrom(lay, if first then 1 else 0, i, lastSetattr, lastLink)
      && validBytes == UsedBytes(LogOf(Committed(lay, i, 0)), lastSetattr, lastLink)
      && OnMedia(log0) && Collected(base, log0) && Swept(log0, Log(), lastSetattr, lastLink, tail.page)
    }

    /** Unlinks the dead page that fast collection has come to. */
    method FastUnlink(curr: nat, last: nat, next: nat, first: bool, found: bool, possible: nat, ghost i: nat,
                      ghost log0: seq<LogRec>,
                      ghost all: set<nat>, ghost next0: map<nat, nat>)
      requires FastAt(i, curr, last, first, found, possible, log0) && 0 < i < k && next == lay.pages[i + 1]
      requires Kept(all, next0)
      requires PageDead(curr, lay.recs[i], lastSetattr, lastLink)
      modifies this`m, this`trace, this`pool, this`home, this`back, this`lay, this`k
      ensures FastAt(i, next, last, first, found, possible, log0) && Kept(all, next0)
      ensures k == old(k) - 1
      ensures TailSame(lay, k, old(lay), old(k)) && m.cells == old(m).cells
      ensures Gave(old(back), PageSet(old(lay).pages), back, PageSet(lay.pages))
    {
      hide Holds, LogAt, LogOf, Linked, TraceOk, AllKept, OldKept, OnMedia, Collected, Swept, UsedBytes, LiveFrom,
           PageDead, TailSame, CutAddr, HomesOk, Then;
      FreeCurrPage(curr, last, next, i, log0, all, next0);
      SameBeforeAt(lay, old(lay), i, i - 1);
      SameBeforeAt(lay, old(lay), i, 0);
      if found && first {
        SameBeforeAt(lay, old(lay), i, 1);
      }
      SameBeforeLog(lay, old(lay), i, if first then 1 else 0, lastSetattr, lastLink);
    }

    /** One round: a dead page is unlinked (the first one later), a live one kept. */
    method FastStep(curr: nat, last: nat, first: bool, found: bool, possible: nat, ghost i: nat,
                    ghost log0: seq<LogRec>,
                    ghost all: set<nat>, ghost next0: map<nat, nat>)
      returns (curr': nat, last': nat, first': bool, found': bool, possible': nat, freed: nat, ghost i': nat)
      requires FastAt(i, curr, last, first, found, possible, log0) && i < k
      requires Kept(all, next0)
      modifies this`m, this`trace, this`pool, this`home, this`back, this`lay, this`k, this`validBytes
      ensures FastAt(i', curr', last', first', found', possible', log0) && Kept(all, next0)
      ensures k - i' == old(k) - i - 1 && freed <= 1
      ensures i' - (if first' then 1 else 0) + freed == i - (if first then 1 else 0) + 1
      ensures TailSame(lay, k, old(lay), old(k)) && m.cells == old(m).cells
      ensures Gave(old(back), PageSet(old(lay).pages), back, PageSet(lay.pages))
    {
      GaveNone(back, PageSet(lay.pages));
      hide Gave, HomesOk, TraceOk, AllKept, OldKept, OnMedia, Collected, Swept, UsedBytes, LogOf, CutAddr, Recs, LogAt,
           PageDead, Then;
      last', first', found', possible', freed := last, first, found, possible, 0;
      assert Next(m.next, lay.pages[i]) == After(lay.pages, i);
      assert i > 0 ==> curr != head;
      curr' := Next(m.next, curr);
      var dead := CurrPageInvalid(curr, i);
      NextUsed(lay, i, lastSetattr, lastLink);
      if dead {
        freed := 1;
        if curr == head {
          first', last' := true, curr;
          i' := i + 1;
        } else {
          FastUnlink(curr, last, curr', first, found, possible, i, log0, all, next0);
          i' := i;
        }
      } else {
        if !found {
          found', possible' := true, curr;
        }
        last' := curr;
        i' := i + 1;
      }
    }

    /** Visits the pages before the tail page. */
    method FastLoop(ghost log0: seq<LogRec>, ghost all: set<nat>, ghost next0: map<nat, nat>)
      returns (possible: nat, first: bool, checked: nat)
      requires Inv() && head != 0 && TraceSafe() && log0 == Log() && Kept(all, next0)
      requires Collected(base, log0)
      modifies this`m, this`trace, this`pool, this`home, this`back, this`lay, this`k, this`validBytes
      ensures Inv() && head != 0 && TraceSafe() && Kept(all, next0)
      ensures HeadFound(possible, first, checked)
      ensures OnMedia(log0) && Swept(log0, Log(), lastSetattr, lastLink, tail.page)
      ensures TailSame(lay, k, old(lay), old(k)) && m.cells == old(m).cells
      ensures Gave(old(back), PageSet(old(lay).pages), back, PageSet(lay.pages))
    {
      GaveNone(back, PageSet(lay.pages));
      hide Gave, HomesOk, Then;
      LogOnMedia();
      SweptRefl(log0, lastSetattr, lastLink, tail.page);
      NothingBefore(lay, lastSetattr, lastLink);
      var curr, last, found, freed := head, 0, false, 0;
      possible, first, checked, validBytes := 0, false, 0, 0;
      ghost var i: nat := 0;
      while curr != tail.page
        invariant FastAt(i, curr, last, first, found, possible, log0) && Kept(all, next0)
        invariant TailSame(lay, k, old(lay), old(k)) && m.cells == old(m).cells
        invariant Gave(old(back), PageSet(old(lay).pages), back, PageSet(lay.pages))
        invariant checked == i - (if first then 1 else 0)
        decreases k - i
      {
        assert i < k;
        var n;
        ghost var back1, pages1 := back, PageSet(lay.pages);
        curr, last, first, found, possible, n, i := FastStep(curr, last, first, found, possible, i, log0, all, next0);
        GaveMore(old(back), PageSet(old(lay).pages), back1, pages1, back, PageSet(lay.pages));
        freed := freed + n;
        checked := checked + 1 - n;
      }
      assert i == k;
      if !found {
        possible := curr;
      }
    }

    /** Links the new pages behind the page of the last entry. */
    method LinkNewPages(last: nat, newPages: seq<nat>, ghost log0: seq<LogRec>)
      requires Inv() && head != 0 && TraceSafe()
      requires |lay.recs| == |lay.pages| && last == lay.pages[|lay.pages| - 1]
      requires newPages != [] && Linked(m.next, newPages) && PageSet(newPages) !! PageSet(lay.pages)
               && PageSet(newPages) !! pool
      requires OnMedia(log0) && Collected(base, log0) && Swept(log0, Log(), lastSetattr, lastLink, tail.page)
      modifies this`m, this`trace, this`lay
      ensures Inv() && TraceSafe()
      ensures lay == Layout(old(lay).pages + newPages, old(lay).recs)
      ensures Log() == old(Log()) && m.cells == old(m).cells
    {
      hide Collected, TraceOk, AllKept, OldKept, OnMedia, Swept, Linked, Recs, HomesOk, Then;
      Disjoint(lay.pages, newPages);
      ExtendChain(m, lay, newPages);
      ExtendLog(lay, k, j, newPages);
      ghost var lay' := Layout(lay.pages + newPages, lay.recs);
      StillSafe(SetNext(m, last, newPages[0]), lay', k, j, lastSetattr, lastLink, tail.page, log0, base);
      StoreNext(last, newPages[0]);
      assert PageSet(lay'.pages) == PageSet(lay.pages) + PageSet(newPages);
      lay := lay';
    }

    /** Moves the head past a dead first page and frees that page. */
    method DropHead(possible: nat, ghost log0: seq<LogRec>)
      requires Inv() && head != 0 && TraceSafe()
      requires 0 < k && PageDead(lay.pages[0], lay.recs[0], lastSetattr, lastLink) && possible == lay.pages[1]
      requires OnMedia(log0) && Collected(base, log0) && Swept(log0, Log(), lastSetattr, lastLink, tail.page)
      modifies this`head, this`trace, this`lay, this`k, this`pool, this`home, this`back
      ensures Inv() && head != 0 && TraceSafe()
      ensures k == old(k) - 1 && lay == Layout(old(lay).pages[1..], old(lay).recs[1..])
      ensures Swept(log0, Log(), lastSetattr, lastLink, tail.page)
      ensures TailSame(lay, k, old(lay), old(k))
      ensures pool + PageSet(lay.pages) == old(pool) + PageSet(old(lay).pages)
      ensures Gave(old(back), PageSet(old(lay).pages), back, PageSet(lay.pages))
    {
      hide Collected, TraceOk, AllKept, OldKept, OnMedia, Swept, TailSame, PageDead, Safe, Rehomed, PartOf, Run, Holds,
           LogAt, CutOk, CutAddr, HomesOk, Gave, Then;
      var gone := head;
      ghost var lay' := DropSetup(log0);
      GaveOne(back, PageSet(lay.pages), gone);
      StoreHead(possible);
      FreePage(gone);
      lay, k := lay', k - 1;
    }

    lemma DropSetup(log0: seq<LogRec>) returns (lay': Layout)
      requires Inv() && head != 0 && TraceSafe()
      requires 0 < k && PageDead(lay.pages[0], lay.recs[0], lastSetattr, lastLink)
      requires OnMedia(log0) && Collected(base, log0) && Swept(log0, Log(), lastSetattr, lastLink, tail.page)
      ensures lay' == Layout(lay.pages[1..], lay.recs[1..]) && Holds(m, lay') && CutOk(lay', k - 1, j)
      ensures tail == CutAddr(lay', k - 1, j) && lay'.pages[0] == lay.pages[1] && lay.pages[1] != 0
      ensures Swept(log0, LogAt(lay', k - 1, j), lastSetattr, lastLink, tail.page) && TailSame(lay', k - 1, lay, k)
      ensures Safe(Image(m, lay.pages[1], tail), base)
      ensures PageSet(lay'.pages) !! pool + {head} && pool + {head} + PageSet(lay'.pages) == pool + PageSet(lay.pages)
      ensures head !in pool && head in PageSet(lay.pages) && PageSet(lay'.pages) == PageSet(lay.pages) - {head}
    {
      hide Collected, TraceOk, AllKept, OldKept, OnMedia, Swept, TailSame, PageDead, Safe, HomesOk, Then;
      assert head in PageSet(lay.pages);
      FreeOne(pool, PageSet(lay.pages), head);
      lay' := DropFirstSweeps(m, lay, k, j, lastSetattr, lastLink, log0);
      StillSafe(m, lay', k - 1, j, lastSetattr, lastLink, tail.page, log0, base);
    }

    /** The first pages of the log, as the loop of fast collection leaves them. */
    ghost predicate HeadFound(possible: nat, first: bool, checked: nat)
      reads this`lay, this`k, this`lastSetattr, this`lastLink, this`validBytes
    {
      FoundIn(lay, k, lastSetattr, lastLink, validBytes, possible, first, checked)
    }

    /** Moves the head to the first page that is not dead. */
    method MoveHead(possible: nat, first: bool, ghost checked: nat, ghost log0: seq<LogRec>)
      requires Inv() && head != 0 && TraceSafe() && HeadFound(possible, first, checked)
      requires OnMedia(log0) && Collected(base, log0) && Swept(log0, Log(), lastSetattr, lastLink, tail.page)
      modifies this`head, this`trace, this`lay, this`k, this`pool, this`home, this`back
      ensures Inv() && head != 0 && TraceSafe()
      ensures Swept(log0, Log(), lastSetattr, lastLink, tail.page)
      ensures FoundIn(lay, k, lastSetattr, lastLink, validBytes, head, false, checked)
      ensures TailSame(lay, k, old(lay), old(k))
      ensures pool + PageSet(lay.pages) == old(pool) + PageSet(old(lay).pages)
      ensures Gave(old(back), PageSet(old(lay).pages), back, PageSet(lay.pages))
    {
      GaveNone(back, PageSet(lay.pages));
      hide Collected, TraceOk, AllKept, OldKept, OnMedia, Swept, PageDead, Linked, UsedBytes, LiveFrom, Recs, Rehomed,
           HomesOk, Gave, Then;
      ghost var lay0 := lay;
      if first {
        DropHead(possible, log0);
        FoundBehind(lay0, k + 1, lastSetattr, lastLink, validBytes, possible, checked);
      } else {
        StillSafe(m, lay, k, j, lastSetattr, lastLink, tail.page, log0, base);
        StoreHead(possible);
      }
    }

    /** Unlinks the dead pages after the first and links the new ones. */
    method UnlinkAndLink(currTail: Addr, newPages: seq<nat>, ghost log0: seq<LogRec>)
      returns (possible: nat, first: bool, checked: nat)
      requires Inv() && head != 0 && TraceSafe() && log0 == Log() && Collected(base, log0)
      requires |lay.recs| == |lay.pages| && currTail.page == lay.pages[|lay.pages| - 1]
      requires newPages != [] && Linked(m.next, newPages) && PageSet(newPages) !! PageSet(lay.pages) + pool
      modifies this`m, this`trace, this`pool, this`home, this`back, this`lay, this`k, this`validBytes
      ensures Inv() && head != 0 && TraceSafe() && HeadFound(possible, first, checked)
      ensures OnMedia(log0) && Swept(log0, Log(), lastSetattr, lastLink, tail.page)
      ensures TailSame(lay, k, Layout(old(lay).pages + newPages, old(lay).recs), old(k)) && m.cells == old(m).cells
      ensures pool + PageSet(lay.pages) == old(pool) + PageSet(old(lay).pages) + PageSet(newPages)
      ensures Gave(old(back), PageSet(old(lay).pages) + PageSet(newPages), back, PageSet(lay.pages))
    {
      hide Collected, TraceOk, AllKept, OldKept, OnMedia, Swept, TailSame, Holds, LogAt, Linked, HomesOk, Gave, Then,
           CutAddr, CutOk, Recs, LogOf;
      ghost var next0 := m.next;
      ghost var all := pool + PageSet(lay.pages);
      possible, first, checked := FastLoop(log0, all, next0);
      NewPagesApart(next0, m.next, newPages, all);
      LastPageSame(lay, k, old(lay), old(k));
      TailGrows(lay, k, old(lay), old(k), newPages);
      ghost var lay1 := lay;
      LinkNewPages(currTail.page, newPages, log0);
      assert PageSet(lay.pages) == PageSet(lay1.pages) + PageSet(newPages);
      GaveBeside(old(back), PageSet(old(lay).pages), back, PageSet(lay1.pages), PageSet(newPages));
      FoundGrows(lay1, newPages, k, lastSetattr, lastLink, validBytes, possible, first, checked);
    }

    /** The fast part of collection: unlinks the dead pages, links the new ones
        and moves the head.  No page is lost. */
    method FastPart(currTail: Addr, newPages: seq<nat>, ghost log0: seq<LogRec>) returns (checked: nat)
      requires Inv() && head != 0 && TraceSafe() && log0 == Log() && Collected(base, log0)
      requires |lay.recs| == |lay.pages| && currTail.page == lay.pages[|lay.pages| - 1]
      requires newPages != [] && Linked(m.next, newPages) && PageSet(newPages) !! PageSet(lay.pages) + pool
      modifies this`m, this`head, this`trace, this`pool, this`home, this`back, this`lay, this`k, this`validBytes
      ensures Inv() && head != 0 && TraceSafe()
      ensures OnMedia(log0) && Swept(log0, Log(), lastSetattr, lastLink, tail.page)
      ensures FoundIn(lay, k, lastSetattr, lastLink, validBytes, head, false, checked)
      ensures TailSame(lay, k, Layout(old(lay).pages + newPages, old(lay).recs), old(k)) && m.cells == old(m).cells
      ensures pool + PageSet(lay.pages) == old(pool) + PageSet(old(lay).pages) + PageSet(newPages)
      ensures Gave(old(back), PageSet(old(lay).pages) + PageSet(newPages), back, PageSet(lay.pages))
    {
      hide Collected, TraceOk, OnMedia, Swept, Holds, LogAt, Linked, HomesOk, Gave, Then;
      var possible, first;
      possible, first, checked := UnlinkAndLink(currTail, newPages, log0);
      ghost var back1, pages1 := back, PageSet(lay.pages);
      MoveHead(possible, first, checked, log0);
      GaveMore(old(back), PageSet(old(lay).pages) + PageSet(newPages), back1, pages1, back, PageSet(lay.pages));
    }

    /** The log and the index on which thorough collection works. */
    ghost predicate Collectable(rest: seq<LogRec>)
      reads this
    {
      && Inv() && head != 0 && TraceSafe() && Collected(base, Log())
      && Indexed(tree, Log() + rest) && OnMedia(Log() + rest) && DistinctAddrs(Log() + rest)
    }

    lemma LogAndRest(rest: seq<LogRec>)
      requires Inv() && head != 0 && rest == Pending(lay, k, j)
      ensures OnMedia(Log() + rest) && DistinctAddrs(Log() + rest)
    {
      LogAddrs(m, lay);
      CommittedThenPending(lay, k, j);
    }

    method FastCollect(currTail: Addr, newPages: seq<nat>, ghost log0: seq<LogRec>,
                       ghost rest: seq<LogRec>) returns (checked: nat)
      requires Collectable(rest) && log0 == Log() && rest == Pending(lay, k, j)
      requires |lay.recs| == |lay.pages| && currTail.page == lay.pages[|lay.pages| - 1]
      requires newPages != [] && Linked(m.next, newPages) && PageSet(newPages) !! PageSet(lay.pages) + pool
      modifies this`m, this`head, this`trace, this`pool, this`home, this`back, this`lay, this`k, this`validBytes
      ensures Collectable(rest)
      ensures Compacted(log0, Log(), NOWHERE, lastLink) && Swept(log0, Log(), lastSetattr, lastLink, tail.page)
      ensures AllLive(Log(), lastSetattr, lastLink, tail.page)
      ensures Owned() == old(Owned()) + PageSet(newPages)
      ensures FoundIn(lay, k, lastSetattr, lastLink, validBytes, head, false, checked)
      ensures TailSame(lay, k, Layout(old(lay).pages + newPages, old(lay).recs), old(k)) && m.cells == old(m).cells
      ensures Gave(old(back), PageSet(old(lay).pages) + PageSet(newPages), back, PageSet(lay.pages))
    {
      hide HomesOk, Gave, Then;
      checked := FastPart(currTail, newPages, log0);
      RestStays(lay, k, old(lay), old(k), j, newPages);
      LogAndRest(rest);
      SweptCompacts(log0, Log(), lastSetattr, lastLink, tail.page);
      FastKeepsIndex(tree, log0, Log(), rest, lastSetattr, lastLink, base);
      FoundIsLive(m, lay, k, j, lastSetattr, lastLink, validBytes, head, checked);
    }

    /** Thorough collection, and what it does to the index. */
    method ThoroughPart(blocks: nat, ghost log0: seq<LogRec>, ghost rest: seq<LogRec>)
      returns (ok: bool, ghost how: Collection)
      requires Collectable(rest) && 0 < blocks && 2 * blocks < k
      requires Compacted(log0, Log(), NOWHERE, lastLink) && Swept(log0, Log(), lastSetattr, lastLink, tail.page)
      requires AllLive(Log(), lastSetattr, lastLink, tail.page) && LiveFrom(lay, 0, k, lastSetattr, lastLink)
      requires blocks == LogBlocks(UsedBytes(LogOf(Committed(lay, k, 0)), lastSetattr, lastLink))
      modifies this`m, this`head, this`trace, this`pool, this`home, this`back, this`lay, this`k, this`tree,
               this`lastSetattr,
               this`lastLink
      ensures TraceSafe() && head != 0 && (!ok ==> NoList(1))
      ensures ok ==>
                && Inv() && head != 0 && Owned() == old(Owned())
                && Gc(log0, old(tree), old(Heads()), Log(), tree, Heads(), how) && Indexed(tree, Log() + rest)
                && how.ran && how.tail == tail.page
                && (how.switched || NoList(LogBlocks(UsedBytes(how.pre, old(lastSetattr), old(lastLink)))))
                && TailSame(lay, k, old(lay), old(k)) && CellsKept(m, old(m), old(pool))
                && (if how.switched then CopyGave(old(back), old(pool), back, old(lay).pages[..old(k)])
                    else back == old(back))
    {
      hide Indexed, Collected, TraceOk, AllKept, OldKept, MoveLog, MoveAddrs, Copy, CellsKept, TailSame, Swept, AllLive,
           ThoroughDue, HeadsAfter, MovesFrom, FreshMoves, Tightly, UsedBytes, NoneHas, HomesOk, Then;
      ghost var ls, ll, log := lastSetattr, lastLink, Log();
      ghost var pre, post := LogOf(Committed(lay, k, 0)), Recs(lay.pages[k], 0, lay.recs[k][..j]);
      PrePost(lay, k, j);
      LivePage(lay, k, ls, ll);
      SplitAtTail(m, lay, k, j);
      IsDue(m, lay, k, ls, ll, blocks);
      IndexedFits(tree, log + rest, log);
      ThoroughIndex(tree, log0, pre, post, rest, ls, ll);
      NoMoves(log, tree);
      ghost var switched, moves;
      ok, switched, moves := ThoroughGc(blocks, pre, post);
      how := Collection(true, tail.page, pre, post, switched, moves);
      if ok && switched {
        StartAnywhere(Addr(head, 0), MoveLog(moves, Copy(pre, ls, ll).kept));
      }
    }

    /** The fast part of a collection; `due` tells whether thorough collection is to follow. */
    method FastPhase(currTail: Addr, newPages: seq<nat>, ghost log0: seq<LogRec>, ghost rest: seq<LogRec>)
      returns (due: bool, blocks: nat, ghost how: Collection)
      requires Collectable(rest) && log0 == Log() && rest == Pending(lay, k, j)
      requires |lay.recs| == |lay.pages| && currTail.page == lay.pages[|lay.pages| - 1]
      requires newPages != [] && Linked(m.next, newPages) && PageSet(newPages) !! PageSet(lay.pages) + pool
      modifies this`m, this`head, this`trace, this`pool, this`home, this`back, this`lay, this`k, this`validBytes
      ensures Collectable(rest) && Owned() == old(Owned()) + PageSet(newPages)
      ensures Compacted(log0, Log(), NOWHERE, lastLink) && Swept(log0, Log(), lastSetattr, lastLink, tail.page)
      ensures AllLive(Log(), lastSetattr, lastLink, tail.page)
      ensures how == Collection(true, tail.page, LogOf(Committed(lay, k, 0)), Recs(lay.pages[k], 0, lay.recs[k][..j]),
                                false, map[])
      ensures Gc(log0, tree, Heads(), Log(), tree, Heads(), how)
      ensures due <==> ThoroughDue(how.pre, lastSetattr, lastLink)
      ensures blocks == LogBlocks(UsedBytes(how.pre, lastSetattr, lastLink))
      ensures due ==> 0 < blocks && 2 * blocks < k && LiveFrom(lay, 0, k, lastSetattr, lastLink)
      ensures TailSame(lay, k, Layout(old(lay).pages + newPages, old(lay).recs), old(k)) && m.cells == old(m).cells
      ensures currTail.page !in pool
      ensures Gave(old(back), PageSet(old(lay).pages) + PageSet(newPages), back, PageSet(lay.pages))
    {
      hide Collected, TraceOk, AllKept, OldKept, OnMedia, DistinctAddrs, Indexed, Compacted, PageDead, MoveLog,
           MoveAddrs, Linked, Swept, AllLive, ThoroughDue, UsedBytes, NoneHas, Holds, LogBlocks, LiveFrom, Copy, Recs,
               LogOf, HomesOk, Then;
      var checked := FastCollect(currTail, newPages, log0, rest);
      SplitAtTail(m, lay, k, j);
      how := Collection(true, tail.page, LogOf(Committed(lay, k, 0)), Recs(lay.pages[k], 0, lay.recs[k][..j]), false,
          map[]);
      NoMoves(Log(), tree);
      LastPageStays(lay, k, old(lay), old(k), newPages);
      blocks := LogBlocks(validBytes);
      WhenDue(m, lay, k, lastSetattr, lastLink, validBytes, head, checked);
      due := blocks > 0 && blocks * 2 < checked;
    }

    /** Fast collection, and thorough collection when less than half of the
        remaining pages would do for the bytes in use.  Called when the page of the
        last entry is full; leaves `newPages` behind it.  Every slot of the
        index still points at an entry in use. */
    method FastGc(currTail: Addr, newPages: seq<nat>, ghost log0: seq<LogRec>, ghost rest: seq<LogRec>)
      returns (ok: bool, ghost how: Collection)
      requires Collectable(rest) && log0 == Log() && rest == Pending(lay, k, j)
      requires |lay.recs| == |lay.pages| && currTail.page == lay.pages[|lay.pages| - 1]
      requires newPages != [] && Linked(m.next, newPages) && PageSet(newPages) !! PageSet(lay.pages) + pool
      modifies this`m, this`head, this`trace, this`pool, this`home, this`back, this`lay, this`k, this`validBytes,
               this`tree,
               this`lastSetattr, this`lastLink
      ensures TraceSafe() && head != 0 && (!ok ==> NoList(1))
      ensures ok ==>
                && Inv() && head != 0 && Owned() == old(Owned()) + PageSet(newPages)
                && Gc(log0, old(tree), old(Heads()), Log(), tree, Heads(), how) && Indexed(tree, Log() + rest)
                && how.ran && how.tail == tail.page
                && (how.switched || !ThoroughDue(how.pre, old(lastSetattr), old(lastLink))
                    || NoList(LogBlocks(UsedBytes(how.pre, old(lastSetattr), old(lastLink)))))
                && TailSame(lay, k, Layout(old(lay).pages + newPages, old(lay).recs), old(k))
                && Read(m.cells, currTail) == Read(old(m).cells, currTail)
                && CollectionGave(old(back), PageSet(old(lay).pages) + PageSet(newPages), old(pool), back, how.switched)
                && (Exact(old(tree), log0) ==> KeepsNeeded(old(tree), log0, old(Heads()), how))
    {
      hide Collected, TraceOk, AllKept, OldKept, OnMedia, DistinctAddrs, Indexed, Compacted, PageDead, MoveLog,
           MoveAddrs, Linked, Swept, AllLive, ThoroughDue, UsedBytes, NoneHas, Holds, LogBlocks, LiveFrom, Copy, Recs,
           LogOf, Gc, LogAt, HomesOk, Then, Exact, KeepsNeeded, CollectionGave, CopyGave, Gave, TraceSafe, Closed,
           CutAddr;
      ok := true;
      var due, blocks;
      due, blocks, how := FastPhase(currTail, newPages, log0, rest);
      ghost var back1, lay1, k1, pool1 := back, lay, k, pool;
      ghost var pages0 := PageSet(old(lay).pages) + PageSet(newPages);
      FastGave(old(back), pages0, old(pool), back, PageSet(lay.pages));
      if due {
        ok, how := ThoroughPart(blocks, log0, rest);
        if ok && how.switched {
          BothGave(old(back), pages0, old(pool), lay1.pages, k1, pool1, back1, back);
        }
      }
      if ok {
        GcKeepsNeeded(old(tree), log0, old(Heads()), Log(), tree, Heads(), how);
      }
    }

    // ----- appending ---------------------------------------------------------------------

    /** Entries written past the committed tail. */
    ghost function Rest(): seq<LogRec>
      reads this`lay, this`k, this`j
    {
      if k < |lay.recs| <= |lay.pages| && j <= |lay.recs[k]| then Pending(lay, k, j) else []
    }

    /** In the middle of an operation that found the log `base`: whenever the
        power fails, the next mount reads a collected form of `base`. */
    ghost predicate Writing()
      reads this`m, this`head, this`tail, this`pool, this`lay, this`k, this`j, this`tree, this`data, this`base,
            this`trace, this`tore, this`blocks0, this`data0, this`home, this`home0, this`back
    {
      Inv() && TraceSafe() && Collected(base, Log()) && Indexed(tree, Log() + Rest())
    }

    lemma ListsMean()
      requires HomesOk()
      ensures Homed(pool, home, cpus)
    {
    }

    lemma ListsStart()
      requires Homed(pool, home, cpus) && home0 == home && back == map[]
      ensures HomesOk()
    {
      assert Settled(home, map[], cpus, perList) == home;
    }

    /** Forgets what lies past the committed tail, and which blocks were given back. */
    ghost method Forget()
      requires Inv()
      modifies this`lay, this`home0, this`back
      ensures home0 == home && back == map[] && Owned() == old(Owned())
      ensures Inv() && Log() == old(Log()) && Rest() == [] && lay.pages == old(lay).pages && GoesOnAt(tail)
    {
      hide LogOf, Holds, HomesOk, Homed, CutAddr, LogAt, PageSet, Pending;
      ListsMean();
      home0, back := home, map[];
      ListsStart();
      if head != 0 {
        lay := ForgetRest(m, lay, k, j);
      }
    }

    /** An operation starts at the committed tail; whatever a failed one left
        past it is forgotten. */
    ghost method Begin(blocks: map<nat, nat>)
      requires Inv() && Indexed(tree, Log())
      modifies this`lay, this`base, this`heads0, this`trace, this`tore, this`blocks0, this`data0, this`home0, this`back
      ensures Writing() && Rest() == [] && trace == [] && !tore && Owned() == old(Owned())
      ensures home0 == home && back == map[]
      ensures base == Log() == old(Log()) && heads0 == Heads() && blocks0 == blocks && data0 == data
      ensures GoesOnAt(tail)
    {
      hide TraceOk, AllKept, OldKept, OnMedia, Collected, Indexed, GoesOnAt, Inv, LogAt, Log, Rest, Writing, TraceSafe,
           HomesOk, Owned;
      ghost var log := Log();
      LogIsItsOwnBase();
      TraceStart(log, blocks, data);
      Forget();
      Note(log, blocks);
      NothingYet(log);
    }

    /** Notes what the operation starts from. */
    ghost method Note(log: seq<LogRec>, blocks: map<nat, nat>)
      modifies this`base, this`heads0, this`trace, this`tore, this`blocks0, this`data0
      ensures base == log && heads0 == Heads() && trace == [] && !tore && blocks0 == blocks && data0 == data
    {
      base, heads0, trace, tore, blocks0, data0 := log, Heads(), [], false, blocks, data;
    }

    /** The committed log has been changed in place: from here on it is the one to keep. */
    ghost method Resume()
      requires Inv() && Indexed(tree, Log() + Rest())
      modifies this`base, this`heads0, this`trace, this`tore, this`data0
      ensures Writing() && base == Log() && trace == [] && !tore && heads0 == Heads() && data0 == data
    {
      hide TraceOk, AllKept, OldKept, OnMedia, Collected, Indexed, GoesOnAt, Inv, LogAt, Log, Rest, HomesOk, Then;
      LogIsItsOwnBase();
      TraceStart(Log(), blocks0, data);
      base, heads0, trace, tore, data0 := Log(), Heads(), [], false, data;
    }

    lemma NothingYet(log: seq<LogRec>)
      requires Inv() && Log() == log && Rest() == [] && Indexed(tree, log) && base == log
      requires OnMedia(log) && Collected(log, log) && TraceOk(trace, log, tore)
      requires OldKept(blocks0, data, data0) && AllKept(trace, blocks0, data0)
      ensures Writing()
    {
      hide TraceOk, AllKept, OldKept, OnMedia, Collected, Indexed, Inv, HomesOk, Then;
      assert log + [] == log;
    }

    lemma LogIsItsOwnBase()
      requires Inv()
      ensures OnMedia(Log()) && Collected(Log(), Log())
    {
      LogOnMedia();
      CompactedRefl(Log(), NOWHERE, NOWHERE);
      CompactedIsCollected(Log(), Log());
    }

    /** Stores the tail, then the head: between the two lies an image that no
        mount can read. */
    method StartLog(page: nat)
      requires head == 0 && tail == NOWHERE && Linked(m.next, [page]) && TraceSafe() && Collected(base, [])
      modifies this`head, this`tail, this`lay, this`k, this`j, this`trace, this`tore
      ensures PageSet(lay.pages) == {page} && head == page && tail == Addr(page, 0)
      ensures TraceSafe() && Holds(m, lay) && CutOk(lay, k, j) && tail == CutAddr(lay, k, j) == End(lay)
      ensures lay.pages[0] == page && Log() == [] && Rest() == [] && tore
    {
      hide TraceOk, AllKept, OldKept, OnMedia, Collected, LogOf, Shows, Holds, Safe, LogAt, Pending, HomesOk, Then;
      ghost var lay' := FirstPageSafe(m, page, base);
      tail := Addr(page, 0);
      TraceMore(trace, Crash(Img(), data), base, tore, blocks0, data0);
      trace, tore := trace + [Crash(Img(), data)], true;
      head := page;
      Record();
      lay, k, j := lay', 0, 0;
    }

    /** Gives an empty log its first page. */
    method FirstPage() returns (ok: bool)
      requires Writing() && head == 0 && Rest() == []
      modifies this`m, this`head, this`tail, this`pool, this`lay, this`k, this`j, this`trace, this`tore
      ensures Writing() && Rest() == [] && Log() == []
      ensures ok <==> !old(NoList(1))
      ensures ok ==> head != 0 && tail == End(lay) == Addr(head, 0) && tore
      ensures !ok ==> head == 0 && tore == old(tore) && pool == old(pool)
      ensures Owned() == old(Owned())
    {
      hide Indexed, Collected, TraceOk, AllKept, OldKept, OnMedia, Scratch, Linked, Holds, CutOk, LogOf, HomesOk, Then;
      ghost var at, work := Img(), pool;
      assert Log() == [];
      EmptyIsScratch(at, work, base);
      var pages := AllocateLogPages(1, at, work);
      ok := |pages| == 1;
      if ok {
        assert pages == [pages[0]] && pages[0] in PageSet(pages);
        StartLog(pages[0]);
      }
      OwnedSame(old(pool), old(lay).pages, pool, lay.pages);
    }

    /** Marks the end of the page that the writer leaves. */
    method SetNextPageFlag(curr: Addr)
      requires Writing() && head != 0 && curr == End(lay)
      modifies this`m, this`trace
      ensures Writing() && Closed(m.cells, curr.page, curr.off) && m.next == old(m).next
    {
      if curr.off < LAST_ENTRY {
        MarkEnd(m, lay);
        Snapshot(Nvm(m.cells[curr := NextPage], m.next), lay, k, j);
        StoreCell(curr, NextPage);
      }
    }

    /** Links new pages behind the full last page, collecting the log on the way. */
    method GrowLog(curr: Addr, pages: seq<nat>, ghost log0: seq<LogRec>, ghost rest: seq<LogRec>)
      returns (ok: bool, ghost how: Collection)
      requires Writing() && head != 0 && log0 == Log() && rest == Rest()
      requires curr == End(lay) && |lay.recs| == |lay.pages| && Closed(m.cells, curr.page, curr.off)
      requires pages != [] && Linked(m.next, pages) && PageSet(pages) !! PageSet(lay.pages) + pool
      modifies this`m, this`head, this`trace, this`pool, this`home, this`back, this`lay, this`k, this`validBytes,
               this`tree,
               this`lastSetattr, this`lastLink
      ensures TraceSafe() && head != 0 && (!ok ==> NoList(1))
      ensures ok ==>
                && Writing() && head != 0 && Rest() == rest && Owned() == old(Owned()) + PageSet(pages)
                && Gc(log0, old(tree), old(Heads()), Log(), tree, Heads(), how)
                && End(lay) == curr && |lay.recs| < |lay.pages| && lay.pages[|lay.recs|] == pages[0]
                && Closed(m.cells, curr.page, curr.off)
    {
      hide GcSteps, Indexed, TraceOk, AllKept, OldKept, Holds, LogAt, Collected, OnMedia, Linked, HomesOk, Then;
      LogAndRest(rest);
      LogOnMediaOf(log0, rest);
      ok, how := FastGc(curr, pages, log0, rest);
      if ok {
        GcIsCollected(log0, old(tree), old(lastLink), Log(), tree, Mid(how, old(Heads())), how.moves, base);
        Grown(lay, k, old(lay), old(k), j, pages);
      }
    }

    /** Pages to go behind the log, which stays as it is. */
    method TakeLogPages(num: nat) returns (pages: seq<nat>)
      requires Writing() && head != 0 && 0 < num
      modifies this`m, this`trace, this`pool
      ensures |pages| == (if old(NoList(num)) then 0 else num) && (pages == [] ==> pool == old(pool))
      ensures Writing() && Linked(m.next, pages) && 0 !in pages
      ensures PageSet(pages) + pool == old(pool) && PageSet(pages) !! PageSet(lay.pages) + pool
      ensures m.cells == old(m).cells
    {
      hide Indexed, TraceOk, AllKept, OldKept, Collected, NoneHas, OnMedia, Scratch, Linked, LogOf, HomesOk, Then;
      ghost var at, work := Img(), pool;
      UnusedIsScratch(m, lay, k, j, work, base);
      pages := AllocateLogPages(num, at, work);
      StillHolds(at, Img(), lay, work);
      assert 0 !in PageSet(pages);
    }

    /** Adds pages behind the full last page of the log. */
    method ExtendInodeLog(curr: Addr, num: nat, ghost log0: seq<LogRec>, ghost rest: seq<LogRec>)
      returns (c: Addr, ok: bool, ghost how: Collection)
      requires Writing() && head != 0 && log0 == Log() && rest == Rest()
      requires curr == End(lay) && |lay.recs| == |lay.pages| && Closed(m.cells, curr.page, curr.off) && 0 < num
      modifies this`m, this`head, this`trace, this`pool, this`home, this`back, this`lay, this`k, this`validBytes,
               this`tree,
               this`lastSetattr, this`lastLink
      ensures TraceSafe() && head != 0 && (!ok ==> NoList(1))
      ensures c.page == 0 <==> old(NoList(num))
      ensures c.page == 0 ==> ok && pool == old(pool) && home == old(home)
      ensures ok ==>
                && Writing() && head != 0 && Rest() == rest && Owned() == old(Owned())
                && Gc(log0, old(tree), old(Heads()), Log(), tree, Heads(), how)
                && End(lay) == curr && Closed(m.cells, curr.page, curr.off)
      ensures ok && c.page != 0 ==> |lay.recs| < |lay.pages| && c == Addr(lay.pages[|lay.recs|], 0)
      ensures ok && c.page == 0 ==> lay == old(lay)
    {
      hide Gc, Indexed, TraceOk, AllKept, OldKept, Collected, NoneHas, OnMedia, Linked, LogOf, Closed, Holds, Inv,
           TraceSafe, HomesOk, Then;
      var pages := TakeLogPages(num);
      c := NOWHERE;
      if pages == [] {
        ok, how := true, NotRun(log0);
        NoGc(log0, tree, Heads());
      } else {
        assert pages[0] in PageSet(pages);
        c := Addr(pages[0], 0);
        ok, how := GrowLog(curr, pages, log0, rest);
      }
    }

    /** Where the next entry of `size` bytes goes, in a log that has pages. */
    method FindSpot(curr: Addr, size: nat, num: nat, ghost log0: seq<LogRec>, ghost rest: seq<LogRec>)
      returns (c: Addr, ok: bool, ghost how: Collection)
      requires Writing() && head != 0 && log0 == Log() && rest == Rest() && curr == End(lay)
      requires MIN_ENTRY <= size <= LAST_ENTRY && 0 < num
      modifies this`m, this`head, this`trace, this`pool, this`home, this`back, this`lay, this`k, this`validBytes,
               this`tree,
               this`lastSetattr, this`lastLink
      ensures TraceSafe() && head != 0 && (!ok ==> NoList(1))
      ensures c.page == 0 <==> old(Full(curr, size)) && old(NoList(num))
      ensures c.page == 0 ==> ok && pool == old(pool) && home == old(home)
      ensures ok ==>
                && Writing() && head != 0 && Rest() == rest && Owned() == old(Owned())
                && Gc(log0, old(tree), old(Heads()), Log(), tree, Heads(), how)
      ensures ok && c.page != 0 ==> Ready(m, lay, size, c) && (!IsLastEntry(curr, size) ==> c == curr)
    {
      hide Gc, Indexed, TraceOk, AllKept, OldKept, Collected, HomesOk, Then;
      ok, how := true, NotRun(log0);
      NoGc(log0, tree, Heads());
      c := curr;
      assert curr.page != 0;
      if IsLastEntry(curr, size) {
        assert Next(m.next, lay.pages[|lay.recs| - 1]) == After(lay.pages, |lay.recs| - 1);
        SetNextPageFlag(curr);
        c := NextLogPage(m, curr);
        if c.page == 0 {
          c, ok, how := ExtendInodeLog(curr, num, log0, rest);
        }
      }
    }

    /** The writer goes on at `from`, or at the tail when it has written nothing yet. */
    ghost predicate GoesOnAt(from: Addr)
      reads this`head, this`tail, this`lay
    {
      if from.page == 0 then
        from == NOWHERE && (head != 0 ==> 0 < |lay.recs| <= |lay.pages| && tail == End(lay))
      else head != 0 && 0 < |lay.recs| <= |lay.pages| && from == End(lay)
    }

    /** The entries written so far end at `c`. */
    ghost predicate EndsAt(c: Addr)
      reads this`head, this`lay
    {
      head != 0 && 0 < |lay.recs| <= |lay.pages| && End(lay) == c && lay.recs[|lay.recs| - 1] != []
    }

    /** The log has no room for an entry of `size` bytes at `curr`. */
    ghost predicate Full(curr: Addr, size: nat)
      reads this`m
    {
      IsLastEntry(curr, size) && NextLogPage(m, curr).page == 0
    }

    /** An entry of `size` bytes needs new pages, one for an empty log and otherwise
        `num`, and no processor's list has so many. */
    ghost predicate NoPlace(from: Addr, size: nat, num: nat)
      reads this`m, this`tail, this`pool, this`home
    {
      var curr := if from.page != 0 then from else tail;
      if curr.page == 0 then NoList(1) else Full(curr, size) && NoList(num)
    }

    /** Finds the place for an entry of `size` bytes.  `num` is how many pages
        to ask for when the log is full.  There is none if and only if pages are
        needed and no processor's list has them; `ok` is false only when collection
        ran out of pages halfway. */
    method GetAppendHead(from: Addr, size: nat, num: nat, ghost log0: seq<LogRec>, ghost rest: seq<LogRec>)
      returns (c: Addr, ok: bool, ghost how: Collection)
      requires Writing() && log0 == Log() && rest == Rest() && GoesOnAt(from)
      requires MIN_ENTRY <= size <= LAST_ENTRY && 0 < num
      modifies this`m, this`head, this`tail, this`trace, this`tore, this`pool, this`home, this`back, this`lay, this`k,
               this`j,
               this`validBytes, this`tree,
               this`lastSetattr, this`lastLink
      ensures TraceSafe() && (!ok ==> NoList(1))
      ensures c.page == 0 <==> old(NoPlace(from, size, num))
      ensures c.page == 0 ==> ok && pool == old(pool) && home == old(home)
      ensures tore <==> old(tore) || (old(head) == 0 && head != 0)
      ensures old(head) != 0 ==> head != 0
      ensures ok ==>
                && Writing() && Rest() == rest && Owned() == old(Owned())
                && Gc(log0, old(tree), old(Heads()), Log(), tree, Heads(), how)
      ensures ok && c.page != 0 ==> head != 0 && Ready(m, lay, size, c) && Tight(from, size, c)
    {
      hide Gc, Indexed, TraceOk, AllKept, OldKept, Collected, NoneHas, OnMedia, LogOf, PageSet, Closed, CutAddr,
           Pending, HomesOk, Then;
      var curr := if from.page != 0 then from else tail;
      if curr.page == 0 {
        ok, how := true, NotRun(log0);
        NoGc(log0, tree, Heads());
        var got := FirstPage();
        c := if got then Addr(head, 0) else NOWHERE;
      } else {
        c, ok, how := FindSpot(curr, size, num, log0, rest);
      }
    }

    /** Writes an entry at the place found for it. */
    method PutEntry(e: Entry, c: Addr, ghost rest: seq<LogRec>)
      requires Writing() && head != 0 && Fits(e) && Ready(m, lay, Len(e), c) && rest == Rest()
      modifies this`m, this`trace, this`lay
      ensures Writing() && Rest() == rest + [LogRec(c, e)] && Log() == old(Log())
      ensures EndsAt(Addr(c.page, c.off + Len(e))) && lay.pages == old(lay).pages
    {
      hide TraceOk, AllKept, OldKept, OnMedia, Collected, Indexed, Ready, Fits, Holds, Shows, HomesOk, Then;
      ghost var lay' := PutKeeps(m, lay, k, j, e, c);
      ReadyFits(m, lay, e, c);
      StoreCell(c, Rec(e));
      IndexedMore(tree, Log(), rest, [LogRec(c, e)]);
      lay := lay';
    }

    /** Appends one entry past the tail; the committed log keeps its meaning. */
    method Append(e: Entry, from: Addr, num: nat, ghost log0: seq<LogRec>, ghost rest: seq<LogRec>)
      returns (c: Addr, ok: bool, ghost how: Collection)
      requires Writing() && log0 == Log() && rest == Rest() && GoesOnAt(from)
      requires Fits(e) && 0 < num
      modifies this`m, this`head, this`tail, this`trace, this`tore, this`pool, this`home, this`back, this`lay, this`k,
               this`j,
               this`validBytes, this`tree,
               this`lastSetattr, this`lastLink
      ensures TraceSafe() && (!ok ==> NoList(1))
      ensures c.page == 0 <==> old(NoPlace(from, Len(e), num))
      ensures c.page == 0 ==> ok && pool == old(pool) && home == old(home)
      ensures tore <==> old(tore) || (old(head) == 0 && head != 0)
      ensures old(head) != 0 ==> head != 0
      ensures ok ==>
                && Writing() && Gc(log0, old(tree), old(Heads()), Log(), tree, Heads(), how) && Owned() == old(Owned())
                && Rest() == if c.page != 0 then rest + [LogRec(c, e)] else rest
      ensures ok && c.page != 0 ==> EndsAt(Addr(c.page, c.off + Len(e))) && Tight(from, Len(e), c)
    {
      hide Collected, TraceOk, AllKept, OldKept, OnMedia, Indexed, Gc, Ready, Tight, Holds, NoneHas, LogOf, Pending,
           EndsAt, HomesOk, Then;
      c, ok, how := GetAppendHead(from, Len(e), num, log0, rest);
      if ok && c.page != 0 {
        PutEntry(e, c, rest);
      }
    }

    /** The one store that makes everything written visible to the next mount. */
    method UpdateTail(newTail: Addr, ghost log0: seq<LogRec>, ghost rest: seq<LogRec>)
      requires Writing() && log0 == Log() && rest == Rest() && EndsAt(newTail)
      modifies this`tail, this`k, this`j, this`after
      ensures tail == newTail && Inv() && head != 0 && Log() == log0 + rest && Rest() == [] && Indexed(tree, Log())
      ensures Shows(Img(), log0 + rest) && after == [Crash(Img(), data)]
    {
      hide TraceOk, AllKept, OldKept, OnMedia, Collected, LogOf, Indexed, Holds, Shows, LogAt, Pending, HomesOk, Then;
      tail := newTail;
      after := [Crash(Img(), data)];
      CommitRest(m, lay, k, j);
      k, j := |lay.recs| - 1, |lay.recs[|lay.recs| - 1]|;
      assert log0 + rest == Log();
    }

    /** What the next mount reads is the committed log. */
    lemma ShowsLog()
      requires Inv()
      ensures Shows(Img(), Log())
    {
      if head != 0 {
        Snapshot(m, lay, k, j);
      }
    }

    /** The first record lies at the start of the first page. */
    lemma FirstAtHead()
      requires Inv() && Log() != []
      ensures head != 0 && Log()[0].addr == Addr(head, 0)
    {
      var com := Committed(lay, k, j);
      CommittedHolds(m, lay, k, j);
      assert PageOk(m, com, 0);
      if |com.recs| == 1 {
        assert com.recs[1..] == [];
        assert Flat(com.pages[1..], com.recs[1..]) == [];
      }
    }

    /** Takes one page for an empty log. */
    method TakeOnePage() returns (pages: seq<nat>)
      requires Inv() && head == 0 && Indexed(tree, [])
      modifies this
      ensures |pages| == (if old(NoList(1)) then 0 else 1) && Linked(m.next, pages)
      ensures PageSet(pages) + pool == old(pool) && PageSet(pages) !! pool && (pages == [] ==> pool == old(pool))
      ensures Inv() && head == 0 && tree == old(tree) && data == old(data)
    {
      hide TraceOk, AllKept, OldKept, OnMedia, Scratch, Collected, Indexed, NoneHas, Linked, HomesOk,
           Then;
      assert Log() == [];
      Begin(map[]);
      ghost var at, work := Img(), pool;
      EmptyIsScratch(at, work, base);
      pages := AllocateLogPages(1, at, work);
    }

    /** Gives an empty log one page with two entries.  Nothing points at this log yet,
        so that no crash image of it counts. */
    method StartWithTwo(a: Entry, b: Entry) returns (ok: bool)
      requires Inv() && head == 0 && Indexed(tree, []) && Fits(a) && Fits(b) && Len(a) + Len(b) <= LAST_ENTRY
      modifies this
      ensures ok <==> !old(NoList(1))
      ensures Inv() && tree == old(tree) && Owned() == old(Owned()) && data == old(data)
      ensures if ok then head != 0 && Log() == [LogRec(Addr(head, 0), a), LogRec(Addr(head, Len(a)), b)]
              else head == 0 && pool == old(pool)
    {
      hide Indexed, NoneHas, Holds, LogAt, CutOk, CutAddr, Linked, Fits, HomesOk, Then, PageSet, LogOf, Recs;
      var pages := TakeOnePage();
      ok := pages != [];
      if ok {
        var page := pages[0];
        PageIsThere(m.next, pages);
        head, tail := page, Addr(page, 0);
        m := Nvm(m.cells[Addr(page, 0) := Rec(a)], m.next);
        AfterFirst(a);
        m := Nvm(m.cells[Addr(page, Len(a)) := Rec(b)], m.next);
        tail := Addr(page, Len(a) + Len(b));
        lay, k, j := Layout([page], [[a, b]]), 0, 2;
        TwoOnAPage(m, page, a, b);
      }
      OwnedSame(old(pool), old(lay).pages, pool, lay.pages);
    }

    // ----- entries in place -----------------------------------------------------------------

    lemma CellAt(q: nat)
      requires Inv() && q < |Log()|
      ensures Read(m.cells, Log()[q].addr) == Rec(Log()[q].e)
    {
      Snapshot(m, lay, k, j);
      WalkSteps(m, Addr(head, 0), tail, Log());
      assert StepAt(m, Addr(head, 0), Log(), q);
    }

    /** A walk that knows the size of the next entry finds it without looking for
        the marker. */
    lemma StepToEntry(q: nat, curr: Addr)
      requires Inv() && q < |Log()|
      requires curr == Log()[q].addr || (curr == Cursor(Addr(head, 0), Log(), q) && Tight(curr, Len(Log()[q].e),
               Log()[q].addr))
      ensures curr.page != 0
      ensures (if IsLastEntry(curr, Len(Log()[q].e)) then NextLogPage(m, curr) else curr) == Log()[q].addr
      ensures Read(m.cells, Log()[q].addr) == Rec(Log()[q].e)
      ensures Cursor(Addr(head, 0), Log(), q) != tail && Log()[q].addr != tail
    {
      Snapshot(m, lay, k, j);
      WalkSteps(m, Addr(head, 0), tail, Log());
      assert StepAt(m, Addr(head, 0), Log(), q);
      EntryInPage(m, lay, k, j, q);
    }

    /** Stores another entry of the same length over a committed one. */
    method RewriteEntry(a: Addr, e: Entry, ghost q: nat, ghost log0: seq<LogRec>)
      requires Inv() && log0 == Log() && q < |log0| && log0[q].addr == a && Len(e) == Len(log0[q].e)
      modifies this`m, this`lay, this`after
      ensures Inv() && Log() == log0[q := LogRec(a, e)] && Rest() == old(Rest())
      ensures lay.pages == old(lay).pages && forall c: Addr :: old(EndsAt(c)) ==> EndsAt(c)
      ensures Shows(Img(), Log()) && after == old(after) + [Crash(Img(), data)]
    {
      hide Holds, Recs, Committed, Pending, Linked, Shows, PageSet, CutOk, CutAddr, HomesOk, Then;
      assert head != 0;
      ghost var lay' := StoreInPlace(m, lay, k, j, q, e);
      m := Nvm(m.cells[a := Rec(e)], m.next);
      after := after + [Crash(Img(), data)];
      lay := lay';
      Snapshot(m, lay, k, j);
    }
  }

  // ----- appending: the values -----------------------------------------------------------------

  /** Entries lie wholly inside their pages, and their pages are not page 0. */
  lemma EntryInPage(m: Nvm, lay: Layout, k: nat, j: nat, q: nat)
    requires Holds(m, lay) && CutOk(lay, k, j) && q < |LogAt(lay, k, j)|
    ensures var r := LogAt(lay, k, j)[q];
            r.addr.page != 0 && !IsLastEntry(r.addr, Len(r.e)) && r.addr != CutAddr(lay, k, j)
    ensures Cursor(Addr(lay.pages[0], 0), LogAt(lay, k, j), q).page != 0
  {
    EntryPlace(m, lay, k, j, q);
    if q > 0 {
      EntryPlace(m, lay, k, j, q - 1);
    }
  }

  lemma EntryPlace(m: Nvm, lay: Layout, k: nat, j: nat, q: nat)
    requires Holds(m, lay) && CutOk(lay, k, j) && q < |LogAt(lay, k, j)|
    ensures var r := LogAt(lay, k, j)[q];
            r.addr.page != 0 && r.addr.off + Len(r.e) <= LAST_ENTRY && r.addr != CutAddr(lay, k, j)
  {
    var com := Committed(lay, k, j);
    CommittedHolds(m, lay, k, j);
    forall n | 0 <= n < |com.recs| ensures AllFit(com.recs[n]) {
      assert PageOk(m, com, n);
    }
    var i, n := FlatAt(com.pages, com.recs, q);
    RecsAt(com.pages[i], 0, com.recs[i], n);
    assert PageOk(m, com, i);
    assert Fits(com.recs[i][n]);
    assert com.recs[k] == lay.recs[k][..j];
  }

  /** A collection turned `log0` into `log`, by way of `mid`, and the index with it. */
  ghost predicate GcLog(log0: seq<LogRec>, tree0: map<nat, Addr>, ll0: Addr, log: seq<LogRec>, tree: map<nat, Addr>,
                        mid: seq<LogRec>, moves: map<Addr, Addr>)
  {
    Compacted(log0, mid, NOWHERE, ll0) && log == MoveLog(moves, mid) && tree == MoveAddrs(moves, tree0)
  }

  /** How a collection went, if there was one: the tail page, what fast collection
      left before it and on it, and where thorough collection moved records. */
  datatype Collection = Collection(ran: bool, tail: nat, pre: seq<LogRec>, post: seq<LogRec>, switched: bool,
      moves: map<Addr, Addr>)

  /** No collection took place. */
  function NotRun(log: seq<LogRec>): Collection {
    Collection(false, 0, [], log, false, map[])
  }

  ghost function Mid(how: Collection, h0: Head): seq<LogRec> {
    (if how.switched then Copy(how.pre, h0.ls, h0.ll).kept else how.pre) + how.post
  }

  /** Fast collection drops exactly the dead pages before the tail page. */
  ghost predicate FastSteps(log0: seq<LogRec>, h0: Head, how: Collection) {
    && Swept(log0, how.pre + how.post, h0.ls, h0.ll, how.tail)
    && AllLive(how.pre + how.post, h0.ls, h0.ll, how.tail)
    && (forall r :: r in how.pre ==> r.addr.page != how.tail)
    && (forall r :: r in how.post ==> r.addr.page == how.tail)
  }

  /** Thorough collection, which must be due, copies what is in use before the tail
      page to fresh pages, closely packed; the header follows the copies. */
  ghost predicate ThoroughSteps(h0: Head, h: Head, how: Collection) {
    && how.ran && ThoroughDue(how.pre, h0.ls, h0.ll) && HeadsAfter(how.moves, how.pre, h0, h)
    && MovesFrom(how.moves, how.pre) && FreshMoves(how.moves, how.pre + how.post)
    && Tightly(NOWHERE, MoveLog(how.moves, Copy(how.pre, h0.ls, h0.ll).kept))
  }

  /** The steps of a collection and what they do to the header. */
  ghost predicate GcSteps(log0: seq<LogRec>, h0: Head, log: seq<LogRec>, h: Head, how: Collection) {
    && (if how.ran then FastSteps(log0, h0, how) else how == NotRun(log0))
    && log == MoveLog(how.moves, Mid(how, h0))
    && if how.switched then ThoroughSteps(h0, h, how) else h == h0 && how.moves == map[]
  }

  ghost predicate Gc(log0: seq<LogRec>, tree0: map<nat, Addr>, h0: Head, log: seq<LogRec>, tree: map<nat, Addr>,
                     h: Head, how: Collection) {
    GcLog(log0, tree0, h0.ll, log, tree, Mid(how, h0), how.moves) && GcSteps(log0, h0, log, h, how)
  }

  lemma NoGc(log: seq<LogRec>, tree: map<nat, Addr>, h: Head)
    ensures Gc(log, tree, h, log, tree, h, NotRun(log))
  {
    CompactedRefl(log, NOWHERE, h.ll);
    NoMoves(log, tree);
    assert [] + log == log;
  }

  lemma GcIsCollected(log0: seq<LogRec>, tree0: map<nat, Addr>, ll0: Addr, log: seq<LogRec>, tree: map<nat, Addr>,
                      mid: seq<LogRec>, moves: map<Addr, Addr>, base: seq<LogRec>)
    requires GcLog(log0, tree0, ll0, log, tree, mid, moves)
    requires Collected(base, log0) && OnMedia(base) && OnMedia(log0)
    ensures Collected(base, log)
  {
    CompactedWeaken(log0, mid, NOWHERE, ll0, NOWHERE, NOWHERE);
    assert Collected(log0, log);
    CollectedTrans(base, log0, log);
  }

  lemma LogOnMediaOf(log: seq<LogRec>, rest: seq<LogRec>)
    requires OnMedia(log + rest)
    ensures OnMedia(log)
  {
    assert forall i :: 0 <= i < |log| ==> (log + rest)[i] == log[i];
  }

  /** After the log has grown: the new pages follow the last entry. */
  lemma Grown(lay: Layout, k: nat, lay0: Layout, k0: nat, j: nat, more: seq<nat>)
    requires k0 < |lay0.recs| == |lay0.pages| && j <= |lay0.recs[k0]| && more != []
    requires TailSame(lay, k, Layout(lay0.pages + more, lay0.recs), k0)
    ensures End(lay) == End(lay0) && |lay.recs| < |lay.pages| && lay.pages[|lay.recs|] == more[0]
    ensures j <= |lay.recs[k]| && Pending(lay, k, j) == Pending(lay0, k0, j)
  {
    var grown := Layout(lay0.pages + more, lay0.recs);
    TailSameMeans(lay, k, grown, k0, j);
    RestStays(lay, k, lay0, k0, j, more);
    assert grown.pages[|grown.recs|..] == more;
    assert lay.pages[|lay.recs|..][0] == more[0];
  }

  lemma ForgetRest(m: Nvm, lay: Layout, k: nat, j: nat) returns (com: Layout)
    requires Holds(m, lay) && CutOk(lay, k, j)
    ensures Holds(m, com) && CutOk(com, k, j) && com.pages == lay.pages
    ensures LogAt(com, k, j) == LogAt(lay, k, j) && CutAddr(com, k, j) == CutAddr(lay, k, j) == End(com)
    ensures Pending(com, k, j) == [] && End(com).page != 0
  {
    com := Committed(lay, k, j);
    CommittedHolds(m, lay, k, j);
    assert com.recs[k] == lay.recs[k][..j] && com.recs[k][..j] == com.recs[k] && com.recs[k][j..] == [];
    assert com.recs[..k] == lay.recs[..k] && com.recs[k + 1..] == [];
    assert Committed(com, k, j) == com;
  }

  lemma PutKeeps(m: Nvm, lay: Layout, k: nat, j: nat, e: Entry, c: Addr) returns (lay': Layout)
    requires Fits(e) && Ready(m, lay, Len(e), c) && CutOk(lay, k, j)
    ensures var m' := Nvm(m.cells[c := Rec(e)], m.next);
            Holds(m', lay') && Shows(Image(m', lay.pages[0], CutAddr(lay, k, j)), LogAt(lay, k, j))
    ensures CutOk(lay', k, j) && CutAddr(lay', k, j) == CutAddr(lay, k, j) && LogAt(lay', k, j) == LogAt(lay, k, j)
    ensures lay'.pages == lay.pages && Pending(lay', k, j) == Pending(lay, k, j) + [LogRec(c, e)]
    ensures End(lay') == Addr(c.page, c.off + Len(e)) && lay'.recs[|lay'.recs| - 1] != []
  {
    lay' := Put(lay, e);
    PutReady(m, lay, e, c);
    PutEnd(lay, e, c);
    LastNotEmpty(m, lay, e);
    PutPastTail(lay, k, j, e);
    Snapshot(Nvm(m.cells[c := Rec(e)], m.next), lay', k, j);
    CommittedThenPending(lay, k, j);
    CommittedThenPending(lay', k, j);
    hide *;
    OneMorePending(LogAt(lay, k, j), Pending(lay, k, j), Pending(lay', k, j), LogRec(c, e));
  }

  lemma OneMorePending(log: seq<LogRec>, p: seq<LogRec>, q: seq<LogRec>, r: LogRec)
    requires log + q == log + p + [r]
    ensures q == p + [r]
  {
    assert q == (log + q)[|log|..] && p + [r] == (log + p + [r])[|log|..];
  }

  lemma LastNotEmpty(m: Nvm, lay: Layout, e: Entry)
    requires Holds(m, lay) && Fits(e)
    ensures Size(lay.recs[|lay.recs| - 1]) == 0 ==> !IsLastEntry(End(lay), Len(e))
  {
  }

  lemma IndexedMore(tree: map<nat, Addr>, log: seq<LogRec>, rest: seq<LogRec>, more: seq<LogRec>)
    requires Indexed(tree, log + rest)
    ensures Indexed(tree, log + (rest + more))
  {
    forall p | p in tree ensures PointsInto(tree[p], p, log + (rest + more)) {
      assert PointsInto(tree[p], p, log + rest);
    }
  }

  lemma CommitRest(m: Nvm, lay: Layout, k: nat, j: nat)
    requires Holds(m, lay) && CutOk(lay, k, j) && lay.recs[|lay.recs| - 1] != []
    ensures var n := |lay.recs| - 1;
            var i := |lay.recs[n]|;
            && CutOk(lay, n, i) && CutAddr(lay, n, i) == End(lay)
            && LogAt(lay, n, i) == LogAt(lay, k, j) + Pending(lay, k, j) && Pending(lay, n, i) == []
            && Shows(Image(m, lay.pages[0], End(lay)), LogAt(lay, n, i))
  {
    var n := |lay.recs| - 1;
    var i := |lay.recs[n]|;
    CommitAll(lay);
    CommittedThenPending(lay, k, j);
    assert lay.recs[n][..i] == lay.recs[n];
    assert lay.recs[n][i..] == [] && lay.recs[n + 1..] == [];
    assert Flat(lay.pages[n + 1..], lay.recs[n + 1..]) == [];
    Snapshot(m, lay, n, i);
  }

  lemma EmptyIsScratch(at: Image, work: set<nat>, base: seq<LogRec>)
    requires at.head == 0 && at.tail == NOWHERE && Collected(base, [])
    ensures Scratch(at, work, base)
  {
    forall img | SameOutside(img, at, work) ensures Safe(img, base) {
      assert Shows(img, []);
    }
  }

  lemma OnePage(m: Nvm, lay: Layout)
    requires |lay.pages| == 1 && lay.recs == [[]] && Linked(m.next, lay.pages)
    ensures Holds(m, lay) && CutOk(lay, 0, 0) && CutAddr(lay, 0, 0) == End(lay) == Addr(lay.pages[0], 0)
    ensures LogOf(Committed(lay, 0, 0)) == [] && Pending(lay, 0, 0) == []
  {
    assert PageOk(m, lay, 0);
    var com := Committed(lay, 0, 0);
    assert com.recs[0] == [] && com.recs[1..] == [];
    assert Flat(com.pages[1..], com.recs[1..]) == [];
    assert lay.recs[0][0..] == [] && lay.recs[1..] == [];
    assert Flat(lay.pages[1..], lay.recs[1..]) == [];
  }

  // ----- what collection does to the index -------------------------------------------------------

  lemma {:induction false} CompactedKeepsUsed(a: seq<LogRec>, b: seq<LogRec>, ls: Addr, ll: Addr, r: LogRec)
    requires Compacted(a, b, ls, ll)
    requires r in a && InUse(r, ls, ll)
    ensures r in b
    decreases |a|
  {
    if b != [] && b[0] == a[0] && Compacted(a[1..], b[1..], ls, ll) {
      if r != a[0] {
        CompactedKeepsUsed(a[1..], b[1..], ls, ll, r);
      }
    } else {
      CompactedKeepsUsed(a[1..], b, ls, ll, r);
    }
  }

  lemma {:induction false} MovedIsThere(moves: map<Addr, Addr>, log: seq<LogRec>, r: LogRec)
    requires r in log
    ensures MoveRec(moves, r) in MoveLog(moves, log)
    decreases |log|
  {
    if r != log[0] {
      MovedIsThere(moves, log[1..], r);
    }
  }

  /** Distinct records lie at distinct places, so a slot fits the one it points at. */
  lemma IndexedFits(tree: map<nat, Addr>, log: seq<LogRec>, part: seq<LogRec>)
    requires Indexed(tree, log) && DistinctAddrs(log)
    requires forall r :: r in part ==> r in log
    ensures SlotsFit(tree, part)
  {
    forall p, r | p in tree && r in part && tree[p] == r.addr ensures KeyOf(r.e, p) {
      assert PointsInto(tree[p], p, log);
      var q :| q in log && q.addr == tree[p] && KeyOf(q.e, p) && InUse(q, NOWHERE, NOWHERE);
      assert q == r;
    }
  }

  lemma FastKeepsIndex(tree: map<nat, Addr>, log0: seq<LogRec>, log: seq<LogRec>, rest: seq<LogRec>, ls: Addr,
                       ll: Addr, base: seq<LogRec>)
    requires Indexed(tree, log0 + rest) && OnMedia(log0)
    requires OnMedia(base) && Collected(base, log0) && Compacted(log0, log, ls, ll)
    ensures Indexed(tree, log + rest)
    ensures Compacted(log0, log, NOWHERE, ll) && Collected(base, log)
  {
    CompactedWeaken(log0, log, ls, ll, NOWHERE, ll);
    CompactedWeaken(log0, log, ls, ll, NOWHERE, NOWHERE);
    CollectedMore(base, log0, log);
    forall p | p in tree ensures PointsInto(tree[p], p, log + rest) {
      assert PointsInto(tree[p], p, log0 + rest);
      var r :| r in log0 + rest && r.addr == tree[p] && KeyOf(r.e, p) && InUse(r, NOWHERE, NOWHERE);
      if r in log0 {
        CompactedKeepsUsed(log0, log, ls, ll, r);
      }
      assert r in log + rest;
    }
  }

  lemma ThoroughKeepsIndex(tree: map<nat, Addr>, pre: seq<LogRec>, post: seq<LogRec>, rest: seq<LogRec>,
                           moves: map<Addr, Addr>, ls: Addr, ll: Addr)
    requires Indexed(tree, pre + (post + rest))
    requires OnMedia(pre + (post + rest)) && DistinctAddrs(pre + (post + rest))
    requires MovesFrom(moves, pre)
    ensures Indexed(MoveAddrs(moves, tree), MoveLog(moves, Copy(pre, ls, ll).kept + post) + rest)
  {
    var kept := Copy(pre, ls, ll).kept;
    var mid := kept + post;
    SubAddrs(pre, post + rest);
    CopyCompacts(pre, ls, ll);
    var tree' := MoveAddrs(moves, tree);
    forall p | p in tree' ensures PointsInto(tree'[p], p, MoveLog(moves, mid) + rest) {
      assert PointsInto(tree[p], p, pre + (post + rest));
      var r :| r in pre + (post + rest) && r.addr == tree[p] && KeyOf(r.e, p) && InUse(r, NOWHERE, NOWHERE);
      var q := MoveRec(moves, r);
      assert q.addr == tree'[p] && InUse(q, NOWHERE, NOWHERE);
      if r in pre {
        CompactedKeepsUsed(pre, kept, NOWHERE, ll, r);
        MovedIsThere(moves, mid, r);
      } else {
        assert r in post + rest;
        assert r.addr !in moves;
        assert q == r;
        if r in post {
          MovedIsThere(moves, mid, r);
        }
      }
      assert q in MoveLog(moves, mid) + rest;
    }
  }

  /** Before thorough collection: whatever it moves, the index will follow. */
  lemma ThoroughIndex(tree: map<nat, Addr>, log0: seq<LogRec>, pre: seq<LogRec>, post: seq<LogRec>, rest: seq<LogRec>,
                      ls: Addr, ll: Addr)
    requires Indexed(tree, pre + post + rest)
    requires OnMedia(pre + post + rest) && DistinctAddrs(pre + post + rest)
    requires Compacted(log0, pre + post, NOWHERE, ll)
    ensures var mid := Copy(pre, ls, ll).kept + post;
            && Compacted(log0, mid, NOWHERE, ll)
            && forall moves: map<Addr, Addr> {:trigger MoveLog(moves, mid)} ::
                 MovesFrom(moves, pre) ==> Indexed(MoveAddrs(moves, tree), MoveLog(moves, mid) + rest)
  {
    var kept := Copy(pre, ls, ll).kept;
    assert pre + post + rest == pre + (post + rest);
    SubAddrs(pre, post + rest);
    CopyCompacts(pre, ls, ll);
    CompactedRefl(post, NOWHERE, ll);
    CompactedConcat(pre, kept, post, post, NOWHERE, ll);
    CompactedTrans(log0, pre + post, kept + post, NOWHERE, ll);
    forall moves: map<Addr, Addr> | MovesFrom(moves, pre)
      ensures Indexed(MoveAddrs(moves, tree), MoveLog(moves, kept + post) + rest)
    {
      ThoroughKeepsIndex(tree, pre, post, rest, moves, ls, ll);
    }
  }

  lemma NoMoves(log: seq<LogRec>, tree: map<nat, Addr>)
    ensures MoveLog(map[], log) == log && MoveAddrs(map[], tree) == tree
  {
    MoveNowhere(log);
  }

  /** A live first page gives the copy something to keep. */
  lemma LivePage(lay: Layout, k: nat, ls: Addr, ll: Addr)
    requires 0 < k < |lay.recs| <= |lay.pages|
    requires LiveFrom(lay, 0, k, ls, ll)
    ensures exists r :: r in LogOf(Committed(lay, k, 0)) && InUse(r, ls, ll)
  {
    var com := Committed(lay, k, 0);
    var first := Recs(lay.pages[0], 0, lay.recs[0]);
    assert com.recs[0] == lay.recs[0];
    var i :| 0 <= i < |first| && InUse(first[i], ls, ll);
    assert first[i] in LogOf(com);
  }

  /** The committed log, split before the tail page. */
  lemma SplitAtTail(m: Nvm, lay: Layout, k: nat, j: nat)
    requires Holds(m, lay) && CutOk(lay, k, j)
    ensures var pre, post := LogOf(Committed(lay, k, 0)), Recs(lay.pages[k], 0, lay.recs[k][..j]);
            && LogAt(lay, k, j) == pre + post
            && (forall r :: r in pre ==> r.addr.page != lay.pages[k])
            && (forall r :: r in post ==> r.addr.page == lay.pages[k])
  {
    PrePost(lay, k, j);
    PagesOfPre(m, lay, k);
    assert PageOk(m, lay, k);
    PagesOfPost(lay.pages[k], lay.recs[k][..j]);
    assert lay.pages[k] !in lay.pages[..k];
  }

  lemma IsDue(m: Nvm, lay: Layout, k: nat, ls: Addr, ll: Addr, blocks: nat)
    requires Holds(m, lay) && k < |lay.recs|
    requires blocks == LogBlocks(UsedBytes(LogOf(Committed(lay, k, 0)), ls, ll))
    ensures ThoroughDue(LogOf(Committed(lay, k, 0)), ls, ll) <==> 0 < blocks && 2 * blocks < k
  {
    PagesBefore(m, lay, k);
  }

  lemma StartAnywhere(start: Addr, log: seq<LogRec>)
    requires Tightly(start, log)
    ensures Tightly(NOWHERE, log)
  {
    forall q | 0 <= q < |log| ensures Tight(Cursor(NOWHERE, log, q), Len(log[q].e), log[q].addr) {
      assert Tight(Cursor(start, log, q), Len(log[q].e), log[q].addr);
    }
  }

  // ----- the pages before the tail page ----------------------------------------------------------

  /** Pages lo .. hi each hold an entry in use. */
  ghost predicate LiveFrom(lay: Layout, lo: nat, hi: nat, ls: Addr, ll: Addr) {
    && hi <= |lay.recs| <= |lay.pages|
    && forall x :: lo <= x < hi ==> !PageDead(lay.pages[x], lay.recs[x], ls, ll)
  }

  /** What the loop of fast collection has found: the first page is dead or not, no
      other page before the tail page is; `checked` of them remain, and `bytes` bytes
      on them are in use. */
  ghost predicate FoundIn(lay: Layout, k: nat, ls: Addr, ll: Addr, bytes: nat, possible: nat, first: bool,
                          checked: nat) {
    var f := if first then 1 else 0;
    && f <= k < |lay.recs| <= |lay.pages| && possible == lay.pages[f] && checked == k - f
    && (first ==> PageDead(lay.pages[0], lay.recs[0], ls, ll))
    && LiveFrom(lay, f, k, ls, ll)
    && bytes == UsedBytes(LogOf(Committed(lay, k, 0)), ls, ll)
  }

  lemma NothingBefore(lay: Layout, ls: Addr, ll: Addr)
    requires 0 < |lay.recs| <= |lay.pages|
    ensures UsedBytes(LogOf(Committed(lay, 0, 0)), ls, ll) == 0 && LiveFrom(lay, 0, 0, ls, ll)
  {
    CommittedLog(lay, 0, 0);
    assert lay.recs[0][..0] == [] && lay.recs[..0] == [];
    assert LogOf(Committed(lay, 0, 0)) == [];
  }

  lemma NextUsed(lay: Layout, i: nat, ls: Addr, ll: Addr)
    requires i + 1 < |lay.recs| <= |lay.pages|
    ensures UsedBytes(LogOf(Committed(lay, i + 1, 0)), ls, ll) ==
            UsedBytes(LogOf(Committed(lay, i, 0)), ls, ll) + UsedBytes(Recs(lay.pages[i], 0, lay.recs[i]), ls, ll)
    ensures PageDead(lay.pages[i], lay.recs[i], ls, ll) ==> UsedBytes(Recs(lay.pages[i], 0, lay.recs[i]), ls, ll) == 0
  {
    BeforeNext(lay, i);
    UsedConcat(LogOf(Committed(lay, i, 0)), Recs(lay.pages[i], 0, lay.recs[i]), ls, ll);
    if PageDead(lay.pages[i], lay.recs[i], ls, ll) {
      UsedNone(Recs(lay.pages[i], 0, lay.recs[i]), ls, ll);
    }
  }

  lemma SameBeforeLog(lay: Layout, lay0: Layout, n: nat, lo: nat, ls: Addr, ll: Addr)
    requires SameBefore(lay, lay0, n)
    ensures LogOf(Committed(lay, n, 0)) == LogOf(Committed(lay0, n, 0))
    ensures LiveFrom(lay0, lo, n, ls, ll) ==> LiveFrom(lay, lo, n, ls, ll)
  {
    CommittedLog(lay, n, 0);
    CommittedLog(lay0, n, 0);
    assert lay.recs[n][..0] == [] && lay0.recs[n][..0] == [];
    if LiveFrom(lay0, lo, n, ls, ll) {
      forall x | lo <= x < n ensures !PageDead(lay.pages[x], lay.recs[x], ls, ll) {
        SameBeforeAt(lay, lay0, n, x);
      }
    }
  }

  lemma FoundGrows(lay: Layout, more: seq<nat>, k: nat, ls: Addr, ll: Addr, bytes: nat, possible: nat, first: bool,
                   checked: nat)
    requires FoundIn(lay, k, ls, ll, bytes, possible, first, checked)
    ensures FoundIn(Layout(lay.pages + more, lay.recs), k, ls, ll, bytes, possible, first, checked)
  {
    var lay' := Layout(lay.pages + more, lay.recs);
    assert lay'.pages[..k] == lay.pages[..k] && lay'.recs[..k] == lay.recs[..k];
    SameBeforeLog(lay', lay, k, if first then 1 else 0, ls, ll);
  }

  /** The head moves past a dead first page. */
  lemma FirstPageOf(lay: Layout, k: nat)
    requires 0 < k < |lay.recs| <= |lay.pages|
    ensures LogOf(Committed(lay, k, 0)) ==
            Recs(lay.pages[0], 0, lay.recs[0]) + LogOf(Committed(Layout(lay.pages[1..], lay.recs[1..]), k - 1, 0))
  {
    var lay' := Layout(lay.pages[1..], lay.recs[1..]);
    CommittedLog(lay, k, 0);
    CommittedLog(lay', k - 1, 0);
    assert lay.recs[k][..0] == [] && lay'.recs[k - 1][..0] == [];
    assert lay.pages[..k][1..] == lay'.pages[..k - 1] && lay.recs[..k][1..] == lay'.recs[..k - 1];
  }

  lemma FoundBehind(lay: Layout, k: nat, ls: Addr, ll: Addr, bytes: nat, possible: nat, checked: nat)
    requires FoundIn(lay, k, ls, ll, bytes, possible, true, checked)
    ensures FoundIn(Layout(lay.pages[1..], lay.recs[1..]), k - 1, ls, ll, bytes, possible, false, checked)
  {
    var lay' := Layout(lay.pages[1..], lay.recs[1..]);
    FirstPageOf(lay, k);
    hide LogOf, Committed, Recs, UsedBytes;
    var page := Recs(lay.pages[0], 0, lay.recs[0]);
    UsedConcat(page, LogOf(Committed(lay', k - 1, 0)), ls, ll);
    UsedNone(page, ls, ll);
  }

  /** No page before the tail page is dead. */
  lemma FoundIsLive(m: Nvm, lay: Layout, k: nat, j: nat, ls: Addr, ll: Addr, bytes: nat, possible: nat, checked: nat)
    requires Holds(m, lay) && CutOk(lay, k, j) && FoundIn(lay, k, ls, ll, bytes, possible, false, checked)
    ensures AllLive(LogAt(lay, k, j), ls, ll, lay.pages[k])
  {
    var log := LogAt(lay, k, j);
    SplitAtTail(m, lay, k, j);
    PagesOfPre(m, lay, k);
    forall r | r in log && r.addr.page != lay.pages[k] ensures !Dead(log, r.addr.page, ls, ll) {
      var x :| 0 <= x < k && lay.pages[..k][x] == r.addr.page;
      assert !PageDead(lay.pages[x], lay.recs[x], ls, ll);
      var page := Recs(lay.pages[x], 0, lay.recs[x]);
      var i :| 0 <= i < |page| && InUse(page[i], ls, ll);
      assert PageOk(m, lay, x);
      RecsAt(lay.pages[x], 0, lay.recs[x], i);
      PageInLog(lay, k, x);
      assert page[i] in log;
    }
  }

  /** The records of a page before page k are among those before page k. */
  lemma {:induction false} PageInLog(lay: Layout, k: nat, x: nat)
    requires x < k < |lay.recs| <= |lay.pages|
    ensures forall r :: r in Recs(lay.pages[x], 0, lay.recs[x]) ==> r in LogOf(Committed(lay, k, 0))
    decreases k
  {
    BeforeNext(lay, k - 1);
    if x < k - 1 {
      PageInLog(lay, k - 1, x);
    }
  }

  lemma WhenDue(m: Nvm, lay: Layout, k: nat, ls: Addr, ll: Addr, bytes: nat, possible: nat, checked: nat)
    requires Holds(m, lay) && FoundIn(lay, k, ls, ll, bytes, possible, false, checked)
    ensures var blocks := LogBlocks(bytes);
            && (ThoroughDue(LogOf(Committed(lay, k, 0)), ls, ll) <==> 0 < blocks && 2 * blocks < checked)
            && checked == k && LiveFrom(lay, 0, k, ls, ll) && bytes == UsedBytes(LogOf(Committed(lay, k, 0)), ls, ll)
  {
    IsDue(m, lay, k, ls, ll, LogBlocks(bytes));
  }

  lemma NewPagesApart(next0: map<nat, nat>, next: map<nat, nat>, newPages: seq<nat>, all: set<nat>)
    requires Linked(next0, newPages) && PageSet(newPages) !! all
    requires forall p :: p !in all ==> Next(next, p) == Next(next0, p)
    ensures Linked(next, newPages)
  {
    forall p | p in newPages ensures p !in all {
      assert p in PageSet(newPages);
    }
    LinkedFrame(next0, next, newPages);
  }

  lemma LastPageSame(lay: Layout, k: nat, lay0: Layout, k0: nat)
    requires TailSame(lay, k, lay0, k0) && |lay0.recs| == |lay0.pages|
    ensures |lay.recs| == |lay.pages| && lay.pages[|lay.pages| - 1] == lay0.pages[|lay0.pages| - 1]
  {
    assert lay.pages[|lay.pages| - 1] == lay.pages[k..][|lay.pages| - 1 - k];
    assert lay0.pages[|lay0.pages| - 1] == lay0.pages[k0..][|lay.pages| - 1 - k];
  }

  lemma LastPageStays(lay: Layout, k: nat, lay0: Layout, k0: nat, more: seq<nat>)
    requires k0 < |lay0.recs| == |lay0.pages|
    requires TailSame(lay, k, Layout(lay0.pages + more, lay0.recs), k0)
    ensures lay0.pages[|lay0.pages| - 1] in PageSet(lay.pages)
  {
    var n := |lay0.pages| - 1 - k0;
    assert (lay0.pages + more)[k0..][n] == lay0.pages[|lay0.pages| - 1];
    assert lay.pages[k..][n] == lay.pages[k + n];
  }

  lemma TailGrows(lay: Layout, k: nat, lay0: Layout, k0: nat, more: seq<nat>)
    requires TailSame(lay, k, lay0, k0)
    ensures TailSame(Layout(lay.pages + more, lay.recs), k, Layout(lay0.pages + more, lay0.recs), k0)
  {
    assert (lay.pages + more)[k..] == lay.pages[k..] + more;
    assert (lay0.pages + more)[k0..] == lay0.pages[k0..] + more;
  }

  /** Entries past the tail are where they were when pages were added behind them. */
  lemma RestStays(lay: Layout, k: nat, lay0: Layout, k0: nat, j: nat, more: seq<nat>)
    requires k0 < |lay0.recs| <= |lay0.pages| && j <= |lay0.recs[k0]|
    requires TailSame(lay, k, Layout(lay0.pages + more, lay0.recs), k0)
    ensures j <= |lay.recs[k]| && Pending(lay, k, j) == Pending(lay0, k0, j)
  {
    var grown := Layout(lay0.pages + more, lay0.recs);
    TailSameMeans(lay, k, grown, k0, j);
    assert grown.pages[k0 + 1..] == lay0.pages[k0 + 1..] + more;
    FlatIgnoresSpare(grown.pages[k0 + 1..], lay0.pages[k0 + 1..], lay0.recs[k0 + 1..]);
  }

  /** The records of the committed log lie on pages of the layout. */
  lemma OnPagesOf(m: Nvm, lay: Layout, k: nat, j: nat)
    requires Holds(m, lay) && CutOk(lay, k, j)
    ensures forall r :: r in LogOf(Committed(lay, k, j)) ==> r.addr.page in lay.pages
  {
    CommittedHolds(m, lay, k, j);
    LogAddrs(m, Committed(lay, k, j));
    forall r | r in LogOf(Committed(lay, k, j)) ensures r.addr.page in lay.pages {
      var i :| 0 <= i < |LogOf(Committed(lay, k, j))| && LogOf(Committed(lay, k, j))[i] == r;
    }
  }

  lemma DeadRecords(page: nat, es: seq<Entry>, ls: Addr, ll: Addr)
    requires PageDead(page, es, ls, ll) && AllFit(es)
    ensures forall r :: r in Recs(page, 0, es) ==> r.addr.page == page && !InUse(r, ls, ll)
  {
    PagesOfPost(page, es);
    forall r | r in Recs(page, 0, es) ensures !InUse(r, ls, ll) {
      var i :| 0 <= i < |es| && Recs(page, 0, es)[i] == r;
    }
  }

  lemma DropFirstSweeps(m: Nvm, lay: Layout, k: nat, j: nat, ls: Addr, ll: Addr,
                        log0: seq<LogRec>) returns (lay': Layout)
    requires Holds(m, lay) && CutOk(lay, k, j) && 0 < k
    requires PageDead(lay.pages[0], lay.recs[0], ls, ll)
    requires Swept(log0, LogOf(Committed(lay, k, j)), ls, ll, lay.pages[k])
    ensures Holds(m, lay') && lay' == Layout(lay.pages[1..], lay.recs[1..])
    ensures CutOk(lay', k - 1, j) && CutAddr(lay', k - 1, j) == CutAddr(lay, k, j)
    ensures Swept(log0, LogOf(Committed(lay', k - 1, j)), ls, ll, lay.pages[k])
    ensures TailSame(lay', k - 1, lay, k)
    ensures PageSet(lay'.pages) == PageSet(lay.pages) - {lay.pages[0]}
  {
    hide Swept, PageDead;
    lay' := Layout(lay.pages[1..], lay.recs[1..]);
    DropFirst(m, lay);
    DropFirstLog(lay, k, j);
    WithoutSet(lay.pages, 0);
    assert Without(lay.pages, 0) == lay.pages[1..];
    OnPagesOf(m, lay', k - 1, j);
    assert PageOk(m, lay, 0);
    DeadRecords(lay.pages[0], lay.recs[0], ls, ll);
    var d, b := Recs(lay.pages[0], 0, lay.recs[0]), LogOf(Committed(lay', k - 1, j));
    assert [] + d + b == d + b && [] + b == b;
    SweptMore(log0, [], d, b, lay.pages[0], ls, ll, lay.pages[k]);
  }

  lemma StillSafe(m: Nvm, lay: Layout, k: nat, j: nat, ls: Addr, ll: Addr, tail: nat, log0: seq<LogRec>,
                  base: seq<LogRec>)
    requires Holds(m, lay) && CutOk(lay, k, j)
    requires OnMedia(log0) && OnMedia(base) && Collected(base, log0)
    requires Swept(log0, LogOf(Committed(lay, k, j)), ls, ll, tail)
    ensures Safe(Image(m, lay.pages[0], CutAddr(lay, k, j)), base)
  {
    var log := LogOf(Committed(lay, k, j));
    SweptCompacts(log0, log, ls, ll, tail);
    CompactedWeaken(log0, log, ls, ll, NOWHERE, NOWHERE);
    CollectedMore(base, log0, log);
    Snapshot(m, lay, k, j);
  }

  /** Layouts with the same first n pages, all of which hold entries. */
  ghost predicate SameBefore(lay: Layout, lay0: Layout, n: nat) {
    && n < |lay.recs| <= |lay.pages| && n < |lay0.recs| <= |lay0.pages|
    && lay.pages[..n] == lay0.pages[..n] && lay.recs[..n] == lay0.recs[..n]
  }

  lemma SameBeforeAt(lay: Layout, lay0: Layout, n: nat, x: nat)
    requires SameBefore(lay, lay0, n) && x < n
    ensures lay.pages[x] == lay0.pages[x] && lay.recs[x] == lay0.recs[x]
  {
    assert lay.pages[..n][x] == lay0.pages[..n][x] && lay.recs[..n][x] == lay0.recs[..n][x];
  }

  lemma UnlinkSweeps(m: Nvm, lay: Layout, k: nat, j: nat, i: nat, ls: Addr, ll: Addr,
                     log0: seq<LogRec>) returns (lay': Layout)
    requires Holds(m, lay) && CutOk(lay, k, j) && 0 < i < k
    requires PageDead(lay.pages[i], lay.recs[i], ls, ll)
    requires Swept(log0, LogOf(Committed(lay, k, j)), ls, ll, lay.pages[k])
    ensures Holds(SetNext(m, lay.pages[i - 1], lay.pages[i + 1]), lay')
    ensures CutOk(lay', k - 1, j) && CutAddr(lay', k - 1, j) == CutAddr(lay, k, j)
    ensures SameBefore(lay', lay, i) && lay'.pages[i] == lay.pages[i + 1] && lay'.pages[0] == lay.pages[0]
    ensures Swept(log0, LogOf(Committed(lay', k - 1, j)), ls, ll, lay.pages[k])
    ensures TailSame(lay', k - 1, lay, k)
    ensures PageSet(lay'.pages) == PageSet(lay.pages) - {lay.pages[i]}
  {
    hide Swept, PageDead, PageOk, SetNext, LogOf, Committed, CutAddr, TailSame, SameBefore;
    lay' := Layout(Without(lay.pages, i), Without(lay.recs, i));
    UnlinkPage(m, lay, i);
    WithoutParts(lay, k, i);
    WithoutSet(lay.pages, i);
    PageIsAway(m, lay, k, i, ls, ll);
    var a, b := UnlinkLog(lay, k, j, i);
    assert lay'.pages == Without(lay.pages, i);
    UnlinkedIsSwept(SetNext(m, lay.pages[i - 1], lay.pages[i + 1]), lay, lay', k, j, i, ls, ll, log0, a, b);
  }

  lemma UnlinkedIsSwept(m: Nvm, lay: Layout, lay': Layout, k: nat, j: nat, i: nat, ls: Addr, ll: Addr,
                        log0: seq<LogRec>, a: seq<LogRec>, b: seq<LogRec>)
    requires Holds(m, lay') && 0 < i < k < |lay.recs| <= |lay.pages| && CutOk(lay, k, j) && CutOk(lay', k - 1, j)
    requires PageSet(lay'.pages) == PageSet(lay.pages) - {lay.pages[i]} && lay.pages[i] != lay.pages[k]
    requires forall r :: r in Recs(lay.pages[i], 0, lay.recs[i]) ==> r.addr.page == lay.pages[i] && !InUse(r, ls, ll)
    requires LogOf(Committed(lay, k, j)) == a + Recs(lay.pages[i], 0, lay.recs[i]) + b
    requires LogOf(Committed(lay', k - 1, j)) == a + b
    requires Swept(log0, LogOf(Committed(lay, k, j)), ls, ll, lay.pages[k])
    ensures Swept(log0, LogOf(Committed(lay', k - 1, j)), ls, ll, lay.pages[k])
  {
    hide *;
    OnPagesOf(m, lay', k - 1, j);
    AwayFrom(a + b, lay.pages, lay'.pages, lay.pages[i]);
    SweptMore(log0, a, Recs(lay.pages[i], 0, lay.recs[i]), b, lay.pages[i], ls, ll, lay.pages[k]);
  }

  lemma PageIsAway(m: Nvm, lay: Layout, k: nat, i: nat, ls: Addr, ll: Addr)
    requires Holds(m, lay) && 0 < i < k < |lay.recs| && PageDead(lay.pages[i], lay.recs[i], ls, ll)
    ensures lay.pages[i] != lay.pages[k]
    ensures forall r :: r in Recs(lay.pages[i], 0, lay.recs[i]) ==> r.addr.page == lay.pages[i] && !InUse(r, ls, ll)
  {
    hide PageDead, Recs;
    assert PageOk(m, lay, i);
    DeadRecords(lay.pages[i], lay.recs[i], ls, ll);
  }

  lemma AwayFrom(log: seq<LogRec>, pages: seq<nat>, pages': seq<nat>, page: nat)
    requires PageSet(pages') == PageSet(pages) - {page} && forall r :: r in log ==> r.addr.page in pages'
    ensures forall r :: r in log ==> r.addr.page != page
  {
    forall r | r in log ensures r.addr.page != page {
      assert r.addr.page in PageSet(pages');
    }
  }

  lemma WithoutParts(lay: Layout, k: nat, i: nat)
    requires 0 < i < k < |lay.recs| <= |lay.pages|
    ensures var lay' := Layout(Without(lay.pages, i), Without(lay.recs, i));
            && SameBefore(lay', lay, i) && lay'.pages[i] == lay.pages[i + 1] && lay'.pages[0] == lay.pages[0]
            && TailSame(lay', k - 1, lay, k)
  {
    WithoutRest(lay.pages, i, k - 1);
    WithoutRest(lay.recs, i, k - 1);
    assert Without(lay.pages, i)[..i] == lay.pages[..i] && Without(lay.recs, i)[..i] == lay.recs[..i];
  }

  lemma PageIsThere(next: map<nat, nat>, pages: seq<nat>)
    requires |pages| == 1 && Linked(next, pages)
    ensures pages == [pages[0]] && PageSet(pages) == {pages[0]} && pages[0] != 0
  {
  }

  lemma AfterFirst(a: Entry)
    requires Fits(a)
    ensures Len(a) > 0
  {
  }

  lemma TwoOnAPage(m: Nvm, page: nat, a: Entry, b: Entry)
    requires Linked(m.next, [page]) && Fits(a) && Fits(b) && Len(a) + Len(b) <= LAST_ENTRY
    requires Read(m.cells, Addr(page, 0)) == Rec(a) && Read(m.cells, Addr(page, Len(a))) == Rec(b)
    ensures var lay := Layout([page], [[a, b]]);
            && Holds(m, lay) && CutOk(lay, 0, 2) && CutAddr(lay, 0, 2) == Addr(page, Len(a) + Len(b))
            && LogAt(lay, 0, 2) == [LogRec(Addr(page, 0), a), LogRec(Addr(page, Len(a)), b)]
  {
    var lay, es := Layout([page], [[a, b]]), [a, b];
    assert es[1..] == [b] && [b][1..] == [] && es[..2] == es;
    assert Size(es) == Len(a) + Size([b]) && Size([b]) == Len(b) + Size([b][1..]);
    assert PageHolds(m.cells, page, Len(a), [b]);
    assert PageOk(m, lay, 0);
    assert Recs(page, Len(a), [b]) == [LogRec(Addr(page, Len(a)), b)] + Recs(page, Len(a) + Len(b), [b][1..]);
    assert Recs(page, 0, es) == [LogRec(Addr(page, 0), a)] + Recs(page, Len(a), [b]);
    CommitAll(lay);
    assert lay.recs[1..] == [] && lay.pages[1..] == [];
    assert Flat(lay.pages, lay.recs) == Recs(page, 0, es) + Flat(lay.pages[1..], lay.recs[1..]);
  }

  lemma OwnedSame(pool0: set<nat>, pages0: seq<nat>, pool: set<nat>, pages: seq<nat>)
    requires pages0 == [] && PageSet(pages) + pool == pool0
    ensures pool + PageSet(pages) == pool0 + PageSet(pages0)
  {
  }

  lemma FreeOne(pool: set<nat>, used: set<nat>, p: nat)
    requires p in used && pool !! used
    ensures used - {p} !! pool + {p}
    ensures (pool + {p}) + (used - {p}) == pool + used
  {
  }

  lemma WithoutSet(s: seq<nat>, i: nat)
    requires i < |s| && Distinct(s)
    ensures PageSet(Without(s, i)) == PageSet(s) - {s[i]}
  {
    var t := Without(s, i);
    forall p | p in s && p != s[i] ensures p in t {
      var n :| 0 <= n < |s| && s[n] == p;
      assert t[if n < i then n else n - 1] == p;
    }
    forall p | p in t ensures p in s && p != s[i] {
      var n :| 0 <= n < |t| && t[n] == p;
      assert s[if n < i then n else n + 1] == p;
    }
  }

  lemma NewHeadPage(nl: Layout, lay: Layout, k: nat, pool: set<nat>, work: set<nat>, before: set<nat>)
    requires 0 < |nl.recs| <= |nl.pages| && k < |lay.recs| <= |lay.pages|
    requires 0 !in before && forall i :: 0 <= i < |nl.pages| ==> nl.pages[i] != 0
    requires pool == before + PageSet(nl.pages[|nl.recs|..])
    ensures 0 !in pool
    ensures Joined(nl, lay, k).pages[0] == nl.pages[0]
  {
  }


  lemma JoinedIsSafe(m: Nvm, nl: Layout, lay: Layout, k: nat, j: nat, mid: seq<LogRec>, moves: map<Addr, Addr>,
                     base: seq<LogRec>)
    requires 0 < |nl.recs| <= |nl.pages| && 0 < k && CutOk(lay, k, j)
    requires Holds(m, Joined(nl, lay, k))
    requires OnMedia(base) && Collected(base, mid)
    requires LogOf(nl) + Recs(lay.pages[k], 0, lay.recs[k][..j]) == MoveLog(moves, mid)
    ensures Safe(Image(m, nl.pages[0], CutAddr(lay, k, j)), base)
  {
    JoinLog(nl, lay, k, j);
    Snapshot(m, Joined(nl, lay, k), |nl.recs|, j);
    assert Joined(nl, lay, k).pages[0] == nl.pages[0];
    CollectedMoves(base, mid, moves);
  }

  /** What the copy needs to know of record q, when the first n lie before the tail page. */
  ghost predicate CanCopyAt(at: Image, log: seq<LogRec>, n: nat, tree0: map<nat, Addr>, work: set<nat>, q: nat)
    requires q < |log|
  {
    && StepAt(at.m, Addr(at.head, 0), log, q)
    && log[q].addr.page !in work && Fits(log[q].e)
    && (log[q].addr.page == at.tail.page <==> n <= q)
    && (q < n ==> forall p :: p in tree0 && tree0[p] == log[q].addr ==> KeyOf(log[q].e, p))
  }

  /** What the copy of a log needs to know of it. */
  ghost predicate CanCopy(at: Image, log: seq<LogRec>, n: nat, tree0: map<nat, Addr>, work: set<nat>) {
    && 0 < n < |log|
    && at.head == log[0].addr.page
    && OnMedia(log) && DistinctAddrs(log)
    && (forall q {:trigger CanCopyAt(at, log, n, tree0, work, q)} :: 0 <= q < |log| ==> CanCopyAt(at, log, n, tree0,
       work, q))
  }

  lemma PreNeeds(at: Image, pre: seq<LogRec>, post: seq<LogRec>, tree: map<nat, Addr>, work: set<nat>, h: Head)
    requires CanCopy(at, pre + post, |pre|, tree, work)
    ensures Exact(tree, pre) ==> CopiesNeeded(tree, pre, h)
  {
    if Exact(tree, pre) {
      assert forall i :: 0 <= i < |pre| ==> pre[i] == (pre + post)[i];
      CopyNeeds(tree, pre, h);
    }
  }

  /** The reader stands before record q <= n. */
  lemma NextToCopy(at: Image, img: Image, log: seq<LogRec>, n: nat, q: nat, tree0: map<nat, Addr>, work: set<nat>)
    requires CanCopy(at, log, n, tree0, work) && q <= n
    requires SameOutside(img, at, work)
    ensures var c := Hop(img.m, Cursor(Addr(at.head, 0), log, q));
            && c == log[q].addr
            && (c.page == at.tail.page <==> q == n)
            && Read(img.m.cells, c) == Rec(log[q].e)
            && (q < n ==> ComesNext(log[..q], log[q], tree0, work))
            && log[..q + 1] == log[..q] + [log[q]]
  {
    assert CanCopyAt(at, log, n, tree0, work, q);
    if q > 0 {
      assert CanCopyAt(at, log, n, tree0, work, q - 1);
    }
  }

  lemma NothingCopied(nl: Layout, tree: map<nat, Addr>)
    requires nl.recs == [[]] && nl.pages != []
    ensures LogOf(nl) == []
    ensures tree == MoveAddrs(map[], tree)
    ensures End(nl) == Addr(nl.pages[0], 0)
  {
    assert nl.recs[0] == [] && nl.recs[1..] == [];
    assert Flat(nl.pages[1..], nl.recs[1..]) == [];
  }

  /** Record `r`, not yet seen, comes next. */
  ghost predicate ComesNext(done: seq<LogRec>, r: LogRec, tree0: map<nat, Addr>, work: set<nat>) {
    && Fits(r.e) && r.addr != NOWHERE && r.addr.page !in work
    && OnMedia(done) && DistinctAddrs(done)
    && (forall q :: q in done ==> q.addr != r.addr)
    && (forall p :: p in tree0 && tree0[p] == r.addr ==> KeyOf(r.e, p))
  }

  /** Slots that point at an entry before it is copied are those that always did. */
  lemma OnlyUnmoved(moves: map<Addr, Addr>, tree0: map<nat, Addr>, tree: map<nat, Addr>, a: Addr, e: Entry,
                    done: seq<LogRec>, work: set<nat>)
    requires tree == MoveAddrs(moves, tree0)
    requires forall x :: x in moves ==> moves[x].page in work && exists n :: 0 <= n < |done| && done[n].addr == x
    requires forall q :: q in done ==> q.addr != a
    requires a.page !in work
    requires forall p :: p in tree0 && tree0[p] == a ==> KeyOf(e, p)
    ensures forall p :: p in tree ==> (tree[p] == a && KeyOf(e, p) <==> tree0[p] == a)
  {
  }

  lemma ReadyPage(m: Nvm, lay: Layout, size: nat, c: Addr)
    requires Ready(m, lay, size, c)
    ensures c.page in lay.pages
  {
  }

  lemma PutEnd(lay: Layout, e: Entry, c: Addr)
    requires 0 < |lay.recs| <= |lay.pages|
    requires if IsLastEntry(End(lay), Len(e)) then |lay.recs| < |lay.pages| && c == Addr(lay.pages[|lay.recs|],
             0) else c == End(lay)
    ensures Put(lay, e).pages == lay.pages
    ensures |Put(lay, e).recs| <= |lay.pages|
    ensures Put(lay, e).recs[|Put(lay, e).recs| - 1] != []
    ensures End(Put(lay, e)) == Addr(c.page, c.off + Len(e))
  {
    assert Size([e]) == Len(e) + Size([e][1..]);
    SizeAppend(lay.recs[|lay.recs| - 1], [e]);
  }

  /** Once the entries reach the end of a page there are no more of them. */
  lemma NothingFollows(es: seq<Entry>, n: nat)
    requires AllFit(es) && Size(es) <= LAST_ENTRY
    requires n <= |es| && Size(es[..n]) >= LAST_ENTRY
    ensures n == |es|
  {
    if n < |es| {
      assert Fits(es[n]);
      SizeStep(es, n);
    }
  }

  /** The n-th record of a page lies after the bytes of the first n entries. */
  lemma RecAt(page: nat, es: seq<Entry>, n: nat)
    requires n < |es|
    ensures Recs(page, 0, es)[n] == LogRec(Addr(page, Size(es[..n])), es[n])
  {
    RecsAppend(page, 0, es[..n], es[n..]);
    assert es == es[..n] + es[n..];
  }

  /** The committed log is what lies before the tail page, then what lies on it. */
  lemma PrePost(lay: Layout, k: nat, j: nat)
    requires CutOk(lay, k, j)
    ensures LogOf(Committed(lay, k, j)) == LogOf(Committed(lay, k, 0)) + Recs(lay.pages[k], 0, lay.recs[k][..j])
  {
    CommittedLog(lay, k, j);
    CommittedLog(lay, k, 0);
    assert lay.recs[k][..0] == [];
  }

  /** The last record before page k lies on page k - 1. */
  lemma LastBefore(lay: Layout, k: nat)
    requires 0 < k < |lay.recs| <= |lay.pages| && lay.recs[k - 1] != []
    ensures var pre := LogOf(Committed(lay, k, 0)); pre != [] && pre[|pre| - 1].addr.page == lay.pages[k - 1]
  {
    var x := |lay.recs[k - 1]| - 1;
    NextPageRecords(lay, k - 1);
    NextRecord(lay, k - 1, x);
  }

  lemma PagesOfPre(m: Nvm, lay: Layout, k: nat)
    requires Holds(m, lay) && k < |lay.recs|
    ensures forall r :: r in LogOf(Committed(lay, k, 0)) ==> r.addr.page in lay.pages[..k] && Fits(r.e)
  {
    CommittedLog(lay, k, 0);
    assert lay.recs[k][..0] == [];
    var pre := LogOf(Committed(lay, k, 0));
    assert pre == Flat(lay.pages[..k], lay.recs[..k]);
    forall i | 0 <= i < k ensures AllFit(lay.recs[i]) {
      assert PageOk(m, lay, i);
    }
    forall r | r in pre ensures r.addr.page in lay.pages[..k] && Fits(r.e) {
      var q :| 0 <= q < |pre| && pre[q] == r;
      var a, b := FlatAt(lay.pages[..k], lay.recs[..k], q);
      assert lay.pages[..k][a] == r.addr.page;
    }
  }

  lemma PagesOfPost(page: nat, es: seq<Entry>)
    requires AllFit(es)
    ensures forall r :: r in Recs(page, 0, es) ==> r.addr.page == page && Fits(r.e)
  {
    forall r | r in Recs(page, 0, es) ensures r.addr.page == page && Fits(r.e) {
      var q :| 0 <= q < |es| && Recs(page, 0, es)[q] == r;
      RecsAt(page, 0, es, q);
    }
  }

  /** A log with entries before its tail page is ready to be copied. */
  lemma CopySetup(m: Nvm, lay: Layout, k: nat, j: nat, tree: map<nat, Addr>, work: set<nat>)
    requires Holds(m, lay) && CutOk(lay, k, j) && 0 < k
    requires PageSet(lay.pages) !! work
    requires SlotsFit(tree, LogOf(Committed(lay, k, j)))
    ensures CanCopy(Image(m, lay.pages[0], CutAddr(lay, k, j)), LogOf(Committed(lay, k, j)),
                    |LogOf(Committed(lay, k, 0))|, tree, work)
  {
    var com, pre, post := Committed(lay, k, j), LogOf(Committed(lay, k, 0)), Recs(lay.pages[k], 0, lay.recs[k][..j]);
    var log := LogOf(com);
    PrePost(lay, k, j);
    assert PageOk(m, lay, k - 1) && PageOk(m, lay, k) && PageOk(m, lay, 0);
    LastBefore(lay, k);
    CommittedHolds(m, lay, k, j);
    WalkSeesLayout(m, com);
    WalkSteps(m, Addr(lay.pages[0], 0), CutAddr(lay, k, j), log);
    LogAddrs(m, com);
    PagesOfPre(m, lay, k);
    PagesOfPost(lay.pages[k], lay.recs[k][..j]);
    assert com.recs[0] == lay.recs[0] && lay.recs[0] != [];
    assert log[0] == Recs(lay.pages[0], 0, com.recs[0])[0];
    var at := Image(m, lay.pages[0], CutAddr(lay, k, j));
    forall q | 0 <= q < |log| ensures CanCopyAt(at, log, |pre|, tree, work, q) {
      assert StepAt(m, Addr(lay.pages[0], 0), log, q);
      assert log[q] in if q < |pre| then pre else post;
      assert log[q].addr.page in PageSet(lay.pages);
    }
  }

  lemma GcSetup(m: Nvm, lay: Layout, k: nat, j: nat, tree: map<nat, Addr>, work: set<nat>, base: seq<LogRec>)
    requires Holds(m, lay) && CutOk(lay, k, j) && 0 < k
    requires PageSet(lay.pages) !! work
    requires SlotsFit(tree, LogOf(Committed(lay, k, j)))
    requires Collected(base, LogOf(Committed(lay, k, j)))
    ensures var at := Image(m, lay.pages[0], CutAddr(lay, k, j));
            var pre, post := LogOf(Committed(lay, k, 0)), Recs(lay.pages[k], 0, lay.recs[k][..j]);
            && Scratch(at, work, base)
            && pre + post == LogOf(Committed(lay, k, j))
            && CanCopy(at, pre + post, |pre|, tree, work)
            && pre[|pre| - 1].addr.page == lay.pages[k - 1]
  {
    UnusedIsScratch(m, lay, k, j, work, base);
    CopySetup(m, lay, k, j, tree, work);
    PrePost(lay, k, j);
    assert PageOk(m, lay, k - 1);
    LastBefore(lay, k);
  }

  lemma {:induction false} MoveKeeps(moves: map<Addr, Addr>, log: seq<LogRec>)
    requires forall i :: 0 <= i < |log| ==> log[i].addr !in moves
    ensures MoveLog(moves, log) == log
    decreases |log|
  {
    if log != [] {
      MoveKeeps(moves, log[1..]);
    }
  }

  /** What the finished copy is. */
  lemma AfterCopy(pre: seq<LogRec>, post: seq<LogRec>, ls0: Addr, ll0: Addr, moves: map<Addr, Addr>, work: set<nat>,
                  base: seq<LogRec>,
                  nl: Layout, m: Nvm, tree0: map<nat, Addr>, tree: map<nat, Addr>, ls: Addr, ll: Addr)
    requires Holds(m, nl)
    requires OnMedia(pre + post) && DistinctAddrs(pre + post)
    requires CopiedSoFar(pre, moves, LogOf(nl), tree0, tree, ls0, ls, ll0, ll, work)
    requires exists r :: r in pre && InUse(r, ls0, ll0)
    requires OnMedia(base) && Collected(base, pre + post)
    requires forall r :: r in pre + post ==> r.addr.page !in work
    ensures FreshMoves(moves, pre + post) && LogOf(nl) == MoveLog(moves, Copy(pre, ls0, ll0).kept)
    ensures var mid := Copy(pre, ls0, ll0).kept + post;
            && Collected(base, mid)
            && LogOf(nl) + post == MoveLog(moves, mid)
    ensures nl.recs[|nl.recs| - 1] != []
    ensures tree == MoveAddrs(moves, tree0) && MovesFrom(moves, pre)
    ensures HeadsAfter(moves, pre, Head(ls0, ll0), Head(ls, ll))
  {
    var kept := Copy(pre, ls0, ll0).kept;
    SubAddrs(pre, post);
    CopyCompacts(pre, ls0, ll0);
    CompactedWeaken(pre, kept, NOWHERE, ll0, NOWHERE, NOWHERE);
    CompactedRefl(post, NOWHERE, NOWHERE);
    CompactedConcat(pre, kept, post, post, NOWHERE, NOWHERE);
    CollectedMore(base, pre + post, kept + post);
    CopyIsNotEmpty(pre, ls0, ll0);
    MoveConcat(moves, kept, post);
    forall i | 0 <= i < |post| ensures post[i].addr !in moves {
      assert (pre + post)[|pre| + i] == post[i];
    }
    MoveKeeps(moves, post);
    NewLogNotEmpty(m, nl);
  }

  lemma OffWork(at: Image, log: seq<LogRec>, n: nat, tree: map<nat, Addr>, work: set<nat>)
    requires CanCopy(at, log, n, tree, work)
    ensures forall r :: r in log ==> r.addr.page !in work
  {
    forall r | r in log ensures r.addr.page !in work {
      var q :| 0 <= q < |log| && log[q] == r;
      assert CanCopyAt(at, log, n, tree, work, q);
    }
  }

  lemma NewLogNotEmpty(m: Nvm, nl: Layout)
    requires Holds(m, nl) && LogOf(nl) != []
    ensures nl.recs[|nl.recs| - 1] != []
  {
    assert PageOk(m, nl, |nl.recs| - 1);
    if |nl.recs| == 1 {
      assert nl.recs[1..] == [];
      assert Flat(nl.pages[1..], nl.recs[1..]) == [];
    }
  }

  lemma SubAddrs(pre: seq<LogRec>, post: seq<LogRec>)
    requires OnMedia(pre + post) && DistinctAddrs(pre + post)
    ensures OnMedia(pre) && DistinctAddrs(pre)
    ensures forall i, j :: 0 <= i < |pre| && 0 <= j < |post| ==> pre[i].addr != post[j].addr
  {
    var all := pre + post;
    forall i | 0 <= i < |pre| ensures pre[i].addr != NOWHERE {
      assert all[i] == pre[i];
    }
    forall i, j | 0 <= i < j < |pre| ensures pre[i].addr != pre[j].addr {
      assert all[i] == pre[i] && all[j] == pre[j];
    }
    forall i, j | 0 <= i < |pre| && 0 <= j < |post| ensures pre[i].addr != post[j].addr {
      assert all[i] == pre[i] && all[|pre| + j] == post[j];
    }
  }

  lemma JoinTail(nl: Layout, lay: Layout, k: nat)
    requires 0 < |nl.recs| <= |nl.pages| && k < |lay.recs| <= |lay.pages|
    ensures TailSame(Joined(nl, lay, k), |nl.recs|, lay, k)
  {
  }

  lemma SplitSet(pages: seq<nat>, n: nat)
    requires n <= |pages|
    ensures PageSet(pages) == PageSet(pages[..n]) + PageSet(pages[n..])
  {
    assert pages == pages[..n] + pages[n..];
  }

  /** After the switch: the pages of the log, the pages to be freed and the free pages. */
  lemma PagesApart(nl: Layout, lay: Layout, k: nat, before: set<nat>, pool: set<nat>, work: set<nat>)
    requires 0 < |nl.recs| <= |nl.pages| && k < |lay.recs| <= |lay.pages|
    requires Distinct(nl.pages) && Distinct(lay.pages)
    requires PageSet(lay.pages) !! work
    requires PageSet(nl.pages) !! before && PageSet(nl.pages) + before == work
    requires pool == before + PageSet(nl.pages[|nl.recs|..])
    ensures PageSet(Joined(nl, lay, k).pages) !! pool
    ensures PageSet(lay.pages[..k]) !! PageSet(Joined(nl, lay, k).pages) + pool
    ensures pool + PageSet(Joined(nl, lay, k).pages) + PageSet(lay.pages[..k]) == work + PageSet(lay.pages)
  {
    SplitSet(nl.pages, |nl.recs|);
    SplitSet(lay.pages, k);
    assert PageSet(Joined(nl, lay, k).pages) == PageSet(nl.pages[..|nl.recs|]) + PageSet(lay.pages[k..]);
    var jo := Joined(nl, lay, k).pages;
    var n := |nl.recs|;
    forall p | p in jo ensures p !in pool && p !in lay.pages[..k] {
      var i :| 0 <= i < |jo| && jo[i] == p;
      if i < n {
        assert p == nl.pages[i] && p in PageSet(nl.pages);
        assert forall x :: 0 <= x < |nl.pages[n..]| ==> nl.pages[n..][x] == nl.pages[n + x];
        assert forall x :: 0 <= x < k ==> lay.pages[..k][x] in PageSet(lay.pages);
      } else {
        assert p == lay.pages[i - n + k] && p in PageSet(lay.pages);
        assert forall x :: 0 <= x < |nl.pages[n..]| ==> nl.pages[n..][x] in PageSet(nl.pages);
        assert forall x :: 0 <= x < k ==> lay.pages[..k][x] == lay.pages[x];
      }
    }
  }
}
