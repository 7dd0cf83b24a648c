/** What the collectors and the appender do to the chain of log pages, one
store at a time, and what a crash would leave to the next mount after each. */
module LogSurgery {
  import opened LogPages
  import opened FileReplay

  /** The persistent state of one inode's log. */
  datatype Image = Image(m: Nvm, head: nat, tail: Addr)

  /** What the next mount would read from an image. */
  ghost predicate Shows(img: Image, log: seq<LogRec>) {
    if img.head == 0 then img.tail.page == 0 && log == []
    else Walks(img.m, Addr(img.head, 0), img.tail, log)
  }

  // ----- the committed part of a layout ----------------------------------------

  /** Position (k, j): after the first j entries of page k. */
  ghost predicate CutOk(lay: Layout, k: nat, j: nat) {
    && k < |lay.recs| <= |lay.pages|
    && j <= |lay.recs[k]|
    && (k > 0 ==> j > 0)
  }

  function Committed(lay: Layout, k: nat, j: nat): Layout
    requires k < |lay.recs| && j <= |lay.recs[k]|
  {
    Layout(lay.pages, lay.recs[..k] + [lay.recs[k][..j]])
  }

  /** The committed log; empty when nothing has been written. */
  function LogAt(lay: Layout, k: nat, j: nat): seq<LogRec> {
    if k < |lay.recs| <= |lay.pages| && j <= |lay.recs[k]| then LogOf(Committed(lay, k, j)) else []
  }

  function CutAddr(lay: Layout, k: nat, j: nat): Addr
    requires k < |lay.recs| <= |lay.pages| && j <= |lay.recs[k]|
  {
    Addr(lay.pages[k], Size(lay.recs[k][..j]))
  }

  lemma CommittedHolds(m: Nvm, lay: Layout, k: nat, j: nat)
    requires Holds(m, lay)
    requires CutOk(lay, k, j)
    ensures Holds(m, Committed(lay, k, j))
    ensures End(Committed(lay, k, j)) == CutAddr(lay, k, j)
  {
    var com := Committed(lay, k, j);
    assert PageOk(m, lay, k);
    PageHoldsPrefix(m.cells, lay.pages[k], 0, lay.recs[k], j);
    SizeAppend(lay.recs[k][..j], lay.recs[k][j..]);
    assert lay.recs[k] == lay.recs[k][..j] + lay.recs[k][j..];
    forall i | 0 <= i < |com.recs| ensures PageOk(m, com, i) {
      assert PageOk(m, lay, i);
      if i < k {
        assert com.recs[i] == lay.recs[i];
      }
    }
  }

  /** The reader of an image sees exactly the committed entries. */
  lemma Snapshot(m: Nvm, lay: Layout, k: nat, j: nat)
    requires Holds(m, lay)
    requires CutOk(lay, k, j)
    ensures Shows(Image(m, lay.pages[0], CutAddr(lay, k, j)), LogOf(Committed(lay, k, j)))
  {
    CommittedHolds(m, lay, k, j);
    WalkSeesLayout(m, Committed(lay, k, j));
  }

  /** The committed entries up to the page of the tail, then those of that page. */
  lemma CommittedLog(lay: Layout, k: nat, j: nat)
    requires k < |lay.recs| <= |lay.pages| && j <= |lay.recs[k]|
    ensures LogOf(Committed(lay, k, j)) == Flat(lay.pages[..k], lay.recs[..k]) + Recs(lay.pages[k], 0, lay.recs[k][..j])
  {
    var com := Committed(lay, k, j);
    FlatSplit(com, k);
    assert com.recs[..k] == lay.recs[..k] && com.recs[k] == lay.recs[k][..j];
    assert com.recs[k + 1..] == [];
  }

  /** Committing at the end commits everything. */
  lemma CommitAll(lay: Layout)
    requires 0 < |lay.recs| <= |lay.pages|
    ensures var k := |lay.recs| - 1; Committed(lay, k, |lay.recs[k]|) == lay
  {
    var k := |lay.recs| - 1;
    assert lay.recs[k][..|lay.recs[k]|] == lay.recs[k];
    assert lay.recs == lay.recs[..k] + [lay.recs[k]];
  }

  // ----- frames --------------------------------------------------------------------

  /** Two memories that agree on the pages of a layout. */
  ghost predicate SameOn(m: Nvm, n: Nvm, pages: seq<nat>) {
    && (forall a: Addr :: a.page in pages ==> Read(m.cells, a) == Read(n.cells, a))
    && (forall p :: p in pages ==> Next(m.next, p) == Next(n.next, p))
  }

  lemma HoldsFrame(m: Nvm, n: Nvm, lay: Layout)
    requires Holds(m, lay)
    requires SameOn(m, n, lay.pages)
    ensures Holds(n, lay)
  {
    forall i | 0 <= i < |lay.recs| ensures PageOk(n, lay, i) {
      assert PageOk(m, lay, i);
      assert lay.pages[i] in lay.pages;
      PageHoldsFrame(m.cells, n.cells, lay.pages[i], 0, lay.recs[i]);
    }
  }

  lemma LinkedFrame(next: map<nat, nat>, next': map<nat, nat>, pages: seq<nat>)
    requires Linked(next, pages)
    requires forall p :: p in pages ==> Next(next, p) == Next(next', p)
    ensures Linked(next', pages)
  {
  }

  // ----- changing the chain ---------------------------------------------------------

  function Without<T>(s: seq<T>, i: nat): seq<T>
    requires i < |s|
  {
    s[..i] + s[i + 1..]
  }

  lemma WithoutRest<T>(s: seq<T>, i: nat, k: nat)
    requires i <= k < |s|
    ensures Without(s, i)[k..] == s[k + 1..]
  {
    assert forall n :: k <= n < |s| - 1 ==> Without(s, i)[n] == s[n + 1];
  }

  function SetNext(m: Nvm, page: nat, to: nat): Nvm {
    Nvm(m.cells, m.next[page := to])
  }

  /** Moving the head to the second page drops the entries of the first. */
  lemma DropFirst(m: Nvm, lay: Layout)
    requires Holds(m, lay)
    requires 1 < |lay.recs|
    ensures Holds(m, Layout(lay.pages[1..], lay.recs[1..]))
    ensures LogOf(lay) == Recs(lay.pages[0], 0, lay.recs[0]) + LogOf(Layout(lay.pages[1..], lay.recs[1..]))
  {
    var lay' := Layout(lay.pages[1..], lay.recs[1..]);
    forall i | 0 <= i < |lay'.pages|
      ensures Next(m.next, lay'.pages[i]) == After(lay'.pages, i)
    {
      assert lay'.pages[i] == lay.pages[i + 1];
    }
    forall n | 0 <= n < |lay'.recs| ensures PageOk(m, lay', n) {
      assert PageOk(m, lay, n + 1);
    }
  }

  /** Two disjoint chains become one when the end of the first links to the second. */
  lemma ConcatLinked(next: map<nat, nat>, a: seq<nat>, b: seq<nat>)
    requires Linked(next, a) && Linked(next, b)
    requires a != [] && b != []
    requires forall p :: p in b ==> p !in a
    ensures Linked(next[a[|a| - 1] := b[0]], a + b)
  {
    var next' := next[a[|a| - 1] := b[0]];
    var c := a + b;
    forall i, j | 0 <= i < j < |c| ensures c[i] != c[j] {
      if i < |a| <= j {
        assert c[j] in b && c[i] in a;
      }
    }
    forall i | 0 <= i < |c| ensures Next(next', c[i]) == After(c, i) {
      if i < |a| {
        assert Next(next, a[i]) == After(a, i);
        assert i < |a| - 1 ==> c[i] != a[|a| - 1];
      } else {
        assert c[i] == b[i - |a|] && c[i] in b && a[|a| - 1] in a;
        assert Next(next, b[i - |a|]) == After(b, i - |a|);
      }
    }
  }

  /** A stretch of a chain whose last page is relinked. */
  lemma StretchLinked(next: map<nat, nat>, pages: seq<nat>, from: nat, to: nat)
    requires Linked(next, pages)
    requires from < to <= |pages|
    ensures Linked(next[pages[to - 1] := 0], pages[from..to])
    ensures to == |pages| ==> Linked(next, pages[from..])
  {
    var next' := next[pages[to - 1] := 0];
    var c := pages[from..to];
    forall i | 0 <= i < |c| ensures Next(next', c[i]) == After(c, i) {
      assert c[i] == pages[from + i];
      assert Next(next, pages[from + i]) == After(pages, from + i);
      assert i < |c| - 1 ==> pages[from + i] != pages[to - 1];
    }
    if to == |pages| {
      assert pages[from..] == c;
      assert forall i :: 0 <= i < |c| ==> Next(next, c[i]) == Next(next', c[i]);
    }
  }

  lemma UnlinkLinked(next: map<nat, nat>, pages: seq<nat>, i: nat)
    requires Linked(next, pages)
    requires 0 < i < |pages| - 1
    ensures Linked(next[pages[i - 1] := pages[i + 1]], Without(pages, i))
  {
    var a, b := pages[..i], pages[i + 1..];
    StretchLinked(next, pages, 0, i);
    assert pages[0..i] == a;
    StretchLinked(next, pages, i + 1, |pages|);
    forall p | p in b ensures p !in a && Next(next, p) == Next(next[pages[i - 1] := 0], p) {
      var n :| 0 <= n < |b| && p == b[n];
      assert p == pages[n + i + 1];
    }
    LinkedFrame(next, next[pages[i - 1] := 0], b);
    ConcatLinked(next[pages[i - 1] := 0], a, b);
    assert next[pages[i - 1] := 0][pages[i - 1] := pages[i + 1]] == next[pages[i - 1] := pages[i + 1]];
  }

  /** Unlinking a page that is neither the first nor the last to hold entries
      removes its entries and no others. */
  lemma UnlinkPage(m: Nvm, lay: Layout, i: nat)
    requires Holds(m, lay)
    requires 0 < i < |lay.recs| - 1
    ensures var lay' := Layout(Without(lay.pages, i), Without(lay.recs, i));
            && Holds(SetNext(m, lay.pages[i - 1], lay.pages[i + 1]), lay')
            && LogOf(lay') == Flat(lay.pages[..i], lay.recs[..i]) + Flat(lay.pages[i + 1..], lay.recs[i + 1..])
  {
    var lay' := Layout(Without(lay.pages, i), Without(lay.recs, i));
    UnlinkLinked(m.next, lay.pages, i);
    var m' := SetNext(m, lay.pages[i - 1], lay.pages[i + 1]);
    forall n | 0 <= n < |lay'.recs| ensures PageOk(m', lay', n) {
      var o := if n < i then n else n + 1;
      assert PageOk(m, lay, o);
      assert lay'.recs[n] == lay.recs[o] && lay'.pages[n] == lay.pages[o];
    }
    FlatAppend(lay.pages[..i], lay.recs[..i], lay.pages[i + 1..], lay.recs[i + 1..]);
  }

  /** Linking fresh pages behind the last one changes no entry. */
  lemma ExtendChain(m: Nvm, lay: Layout, more: seq<nat>)
    requires Holds(m, lay)
    requires Linked(m.next, more)
    requires more != []
    requires forall p :: p in more ==> p !in lay.pages
    ensures Holds(SetNext(m, lay.pages[|lay.pages| - 1], more[0]), Layout(lay.pages + more, lay.recs))
    ensures LogOf(Layout(lay.pages + more, lay.recs)) == LogOf(lay)
  {
    var m' := SetNext(m, lay.pages[|lay.pages| - 1], more[0]);
    var pages := lay.pages + more;
    ConcatLinked(m.next, lay.pages, more);
    forall i | 0 <= i < |lay.recs| ensures PageOk(m', Layout(pages, lay.recs), i) {
      assert PageOk(m, lay, i);
    }
    FlatIgnoresSpare(pages, lay.pages, lay.recs);
  }

  /** The log that thorough collection switches to: the copied entries, then the
      pages of the old log from page k on. */
  function Joined(nl: Layout, lay: Layout, k: nat): Layout
    requires 0 < |nl.recs| <= |nl.pages|
    requires k < |lay.recs| <= |lay.pages|
  {
    Layout(nl.pages[..|nl.recs|] + lay.pages[k..], nl.recs + lay.recs[k..])
  }

  lemma JoinLinked(m: Nvm, nl: Layout, lay: Layout, k: nat)
    requires Holds(m, nl) && Holds(m, lay)
    requires k < |lay.recs|
    requires forall p :: p in nl.pages ==> p !in lay.pages
    ensures Linked(SetNext(m, nl.pages[|nl.recs| - 1], lay.pages[k]).next, Joined(nl, lay, k).pages)
  {
    var used, rest := nl.pages[..|nl.recs|], lay.pages[k..];
    var last := nl.pages[|nl.recs| - 1];
    StretchLinked(m.next, nl.pages, 0, |nl.recs|);
    assert nl.pages[0..|nl.recs|] == used;
    StretchLinked(m.next, lay.pages, k, |lay.pages|);
    assert last in nl.pages;
    LinkedFrame(m.next, m.next[last := 0], rest);
    forall p | p in rest ensures p !in used {
      assert p in lay.pages;
    }
    ConcatLinked(m.next[last := 0], used, rest);
    assert m.next[last := 0][last := rest[0]] == m.next[last := rest[0]];
  }

  lemma JoinHolds(m: Nvm, nl: Layout, lay: Layout, k: nat)
    requires Holds(m, nl) && Holds(m, lay)
    requires 0 < k < |lay.recs|
    requires forall p :: p in nl.pages ==> p !in lay.pages
    requires nl.recs[|nl.recs| - 1] != []
    requires Closed(m.cells, End(nl).page, End(nl).off)
    ensures Holds(SetNext(m, nl.pages[|nl.recs| - 1], lay.pages[k]), Joined(nl, lay, k))
    ensures LogOf(Joined(nl, lay, k)) == LogOf(nl) + Flat(lay.pages[k..], lay.recs[k..])
  {
    JoinLinked(m, nl, lay, k);
    var jo := Joined(nl, lay, k);
    var n := |nl.recs|;
    var m' := SetNext(m, nl.pages[n - 1], lay.pages[k]);
    forall i | 0 <= i < |jo.recs| ensures PageOk(m', jo, i) {
      if i < n {
        assert PageOk(m, nl, i);
        assert jo.recs[i] == nl.recs[i] && jo.pages[i] == nl.pages[i];
      } else {
        assert PageOk(m, lay, i - n + k);
        assert jo.recs[i] == lay.recs[i - n + k] && jo.pages[i] == lay.pages[i - n + k];
      }
    }
    FlatAppend(nl.pages[..n], nl.recs, lay.pages[k..], lay.recs[k..]);
    FlatIgnoresSpare(nl.pages, nl.pages[..n], nl.recs);
  }

  // ----- reading one page -------------------------------------------------------------

  /** While entries remain on a closed page the reader stays; at their end it hops. */
  lemma HopIff(m: Nvm, lay: Layout, i: nat, j: nat)
    requires Holds(m, lay)
    requires i < |lay.recs| - 1 && j <= |lay.recs[i]|
    ensures j < |lay.recs[i]| ==>
              && Read(m.cells, CutAddr(lay, i, j)) == Rec(lay.recs[i][j])
              && !GotoNextPage(m, CutAddr(lay, i, j))
              && Size(lay.recs[i][..j]) + Len(lay.recs[i][j]) == Size(lay.recs[i][..j + 1]) <= LAST_ENTRY
    ensures j == |lay.recs[i]| ==>
              && GotoNextPage(m, CutAddr(lay, i, j))
              && NextLogPage(m, CutAddr(lay, i, j)) == Addr(lay.pages[i + 1], 0)
  {
    var es := lay.recs[i];
    assert PageOk(m, lay, i);
    assert Next(m.next, lay.pages[i]) == After(lay.pages, i);
    if j < |es| {
      PageHoldsAt(m.cells, lay.pages[i], 0, es, j);
      SizeStep(es, j);
      assert Fits(es[j]);
    } else {
      assert es[..j] == es;
    }
  }

  // ----- collected logs ------------------------------------------------------------------

  /** No entry lies in the super block, so this address belongs to none. */
  const NOWHERE: Addr := Addr(0, 0)

  ghost predicate OnMedia(log: seq<LogRec>) {
    forall i :: 0 <= i < |log| ==> log[i].addr != NOWHERE
  }

  ghost predicate DistinctAddrs(log: seq<LogRec>) {
    forall i, j :: 0 <= i < j < |log| ==> log[i].addr != log[j].addr
  }

  /** `log` is `base` without some records that no header protects, with the
      remaining ones possibly moved. */
  ghost predicate Collected(base: seq<LogRec>, log: seq<LogRec>) {
    exists mid: seq<LogRec>, moves: map<Addr, Addr> ::
      Compacted(base, mid, NOWHERE, NOWHERE) && log == MoveLog(moves, mid)
  }

  /** Every image a crash could leave shows a collected form of `base`. */
  ghost predicate Safe(img: Image, base: seq<LogRec>) {
    exists log: seq<LogRec> :: Shows(img, log) && Collected(base, log)
  }

  lemma {:induction false} MoveNowhere(log: seq<LogRec>)
    ensures MoveLog(map[], log) == log
    decreases |log|
  {
    if log != [] {
      MoveNowhere(log[1..]);
    }
  }

  /** A record protected by no header is unprotected by any. */
  lemma {:induction false} CompactedWeaken(a: seq<LogRec>, b: seq<LogRec>, ls: Addr, ll: Addr, ls': Addr, ll': Addr)
    requires Compacted(a, b, ls, ll)
    requires ls' == ls || ls' == NOWHERE
    requires ll' == ll || ll' == NOWHERE
    requires OnMedia(a)
    ensures Compacted(a, b, ls', ll')
    decreases |a|
  {
    if a != [] {
      assert OnMedia(a[1..]);
      if b != [] && b[0] == a[0] && Compacted(a[1..], b[1..], ls, ll) {
        CompactedWeaken(a[1..], b[1..], ls, ll, ls', ll');
      } else {
        assert a[0].addr != NOWHERE;
        CompactedWeaken(a[1..], b, ls, ll, ls', ll');
      }
    }
  }

  lemma CompactedIsCollected(base: seq<LogRec>, log: seq<LogRec>)
    requires Compacted(base, log, NOWHERE, NOWHERE)
    ensures Collected(base, log)
  {
    MoveNowhere(log);
  }

  /** Where two page numbers may meet: never twice in one log. */
  lemma LogAddrs(m: Nvm, lay: Layout)
    requires Holds(m, lay)
    ensures OnMedia(LogOf(lay))
    ensures DistinctAddrs(LogOf(lay))
    ensures forall i :: 0 <= i < |LogOf(lay)| ==> LogOf(lay)[i].addr.page in lay.pages[..|lay.recs|]
  {
    var log := LogOf(lay);
    forall i | 0 <= i < |lay.recs| ensures AllFit(lay.recs[i]) {
      assert PageOk(m, lay, i);
    }
    forall i | 0 <= i < |log| ensures log[i].addr != NOWHERE && log[i].addr.page in lay.pages[..|lay.recs|] {
      var k, j := FlatAt(lay.pages, lay.recs, i);
      assert lay.pages[..|lay.recs|][k] == lay.pages[k];
    }
    FlatDistinct(lay.pages, lay.recs);
  }

  lemma {:induction false} RecsDistinct(page: nat, off: nat, es: seq<Entry>)
    requires AllFit(es)
    ensures DistinctAddrs(Recs(page, off, es))
    decreases |es|
  {
    if es != [] {
      var rest := Recs(page, off + Len(es[0]), es[1..]);
      RecsDistinct(page, off + Len(es[0]), es[1..]);
      assert Fits(es[0]);
      forall j | 0 <= j < |rest| ensures rest[j].addr.off > off {
        RecsAt(page, off + Len(es[0]), es[1..], j);
      }
    }
  }

  lemma {:induction false} FlatDistinct(pages: seq<nat>, recs: seq<seq<Entry>>)
    requires |recs| <= |pages|
    requires Distinct(pages)
    requires forall i :: 0 <= i < |recs| ==> AllFit(recs[i])
    ensures DistinctAddrs(Flat(pages, recs))
    decreases |recs|
  {
    if recs != [] {
      var first := Recs(pages[0], 0, recs[0]);
      var rest := Flat(pages[1..], recs[1..]);
      RecsDistinct(pages[0], 0, recs[0]);
      FlatDistinct(pages[1..], recs[1..]);
      forall i, j | 0 <= i < |first| && 0 <= j < |rest| ensures first[i].addr != rest[j].addr {
        RecsAt(pages[0], 0, recs[0], i);
        var k, n := FlatAt(pages[1..], recs[1..], j);
        assert pages[1..][k] == pages[k + 1];
      }
    }
  }

  // ----- what thorough collection copies ---------------------------------------------------

  /** The copied records and the header's pointers after the copy.  A pointer
      that moved to the new log protects nothing in the old one. */
  datatype Copying = Copying(kept: seq<LogRec>, ls: Addr, ll: Addr)

  function CopyOne(g: Copying, r: LogRec): Copying {
    if InUse(r, g.ls, g.ll) then
      Copying(g.kept + [r], if r.e.SetAttr? then NOWHERE else g.ls, if r.e.LinkChange? then NOWHERE else g.ll)
    else g
  }

  function Copy(log: seq<LogRec>, ls: Addr, ll: Addr): Copying {
    if log == [] then Copying([], ls, ll)
    else CopyOne(Copy(log[..|log| - 1], ls, ll), log[|log| - 1])
  }

  /** The link pointer moves only when its record has been copied. */
  lemma {:induction false} CopyLinkPointer(log: seq<LogRec>, ls: Addr, ll: Addr)
    requires OnMedia(log)
    ensures var g := Copy(log, ls, ll);
            g.ll == ll || (g.ll == NOWHERE && exists i :: 0 <= i < |log| && log[i].addr == ll)
    decreases |log|
  {
    if log != [] {
      var n := |log| - 1;
      CopyLinkPointer(log[..n], ls, ll);
      assert forall i :: 0 <= i < n ==> log[..n][i] == log[i];
    }
  }

  lemma CopyOneCompacts(before: seq<LogRec>, g: Copying, r: LogRec, ll: Addr)
    requires Compacted(before, g.kept, NOWHERE, ll)
    requires r.addr != NOWHERE
    requires g.ll == ll || r.addr != ll
    ensures Compacted(before + [r], CopyOne(g, r).kept, NOWHERE, ll)
  {
    if InUse(r, g.ls, g.ll) {
      CompactedRefl([r], NOWHERE, ll);
      CompactedConcat(before, g.kept, [r], [r], NOWHERE, ll);
    } else {
      assert !InUse(r, NOWHERE, ll);
      CompactedAway([r], NOWHERE, ll);
      CompactedConcat(before, g.kept, [r], [], NOWHERE, ll);
      assert g.kept + [] == g.kept;
    }
  }

  /** The copy drops only records that no header pointer protects, except that
      it may lose the last attribute change; it always keeps the last link
      change. */
  lemma {:induction false} CopyCompacts(log: seq<LogRec>, ls: Addr, ll: Addr)
    requires OnMedia(log) && DistinctAddrs(log)
    ensures Compacted(log, Copy(log, ls, ll).kept, NOWHERE, ll)
    decreases |log|
  {
    if log != [] {
      var n := |log| - 1;
      CopyCompacts(log[..n], ls, ll);
      CopyLinkPointer(log[..n], ls, ll);
      assert forall i :: 0 <= i < n ==> log[..n][i].addr != log[n].addr;
      CopyOneCompacts(log[..n], Copy(log[..n], ls, ll), log[n], ll);
      assert log == log[..n] + [log[n]];
    }
  }

  lemma {:induction false} CopyIsNotEmpty(log: seq<LogRec>, ls: Addr, ll: Addr)
    ensures Copy(log, ls, ll).kept == [] ==>
              && Copy(log, ls, ll) == Copying([], ls, ll)
              && forall i :: 0 <= i < |log| ==> !InUse(log[i], ls, ll)
    decreases |log|
  {
    if log != [] {
      CopyIsNotEmpty(log[..|log| - 1], ls, ll);
    }
  }

  // ----- putting an entry where the writer was sent ---------------------------------------

  /** `c` is the place where the writer must put an entry of `size` bytes. */
  ghost predicate Ready(m: Nvm, lay: Layout, size: nat, c: Addr) {
    && Holds(m, lay)
    && if IsLastEntry(End(lay), size) then
         && |lay.recs| < |lay.pages|
         && c == Addr(lay.pages[|lay.recs|], 0)
         && Closed(m.cells, End(lay).page, End(lay).off)
       else c == End(lay)
  }

  function Put(lay: Layout, e: Entry): Layout
    requires 0 < |lay.recs| <= |lay.pages|
  {
    if IsLastEntry(End(lay), Len(e)) then PutNext(lay, e) else PutHere(lay, e)
  }

  lemma PutReady(m: Nvm, lay: Layout, e: Entry, c: Addr)
    requires Fits(e)
    requires Ready(m, lay, Len(e), c)
    ensures Holds(Nvm(m.cells[c := Rec(e)], m.next), Put(lay, e))
    ensures LogOf(Put(lay, e)) == LogOf(lay) + [LogRec(c, e)]
  {
    if IsLastEntry(End(lay), Len(e)) {
      PutNextHolds(m, lay, e);
      PutNextLog(lay, e);
    } else {
      PutHereHolds(m, lay, e);
      PutHereLog(lay, e);
    }
  }

  /** The marker goes where the entries of the page end. */
  lemma MarkEnd(m: Nvm, lay: Layout)
    requires Holds(m, lay)
    ensures Holds(Nvm(m.cells[End(lay) := NextPage], m.next), lay)
  {
    StorePastEnd(m, lay, End(lay), NextPage);
  }

  // ----- renaming in the index -----------------------------------------------------------------

  function MoveAddrs(moves: map<Addr, Addr>, tree: map<nat, Addr>): map<nat, Addr> {
    map p | p in tree :: Moved(moves, tree[p])
  }

  lemma {:induction false} MoveMore(moves: map<Addr, Addr>, a: Addr, c: Addr, log: seq<LogRec>)
    requires forall i :: 0 <= i < |log| ==> log[i].addr != a
    ensures MoveLog(moves[a := c], log) == MoveLog(moves, log)
    decreases |log|
  {
    if log != [] {
      MoveMore(moves, a, c, log[1..]);
    }
  }

  lemma {:induction false} CompactedSubset(a: seq<LogRec>, b: seq<LogRec>, ls: Addr, ll: Addr)
    requires Compacted(a, b, ls, ll)
    ensures forall r :: r in b ==> r in a
    decreases |a|
  {
    if a != [] {
      if b != [] && b[0] == a[0] && Compacted(a[1..], b[1..], ls, ll) {
        CompactedSubset(a[1..], b[1..], ls, ll);
        assert forall r :: r in b ==> r == b[0] || r in b[1..];
      } else {
        CompactedSubset(a[1..], b, ls, ll);
      }
    }
  }

  // ----- what lies past the committed tail -------------------------------------------------------

  function Pending(lay: Layout, k: nat, j: nat): seq<LogRec>
    requires k < |lay.recs| <= |lay.pages| && j <= |lay.recs[k]|
  {
    Recs(lay.pages[k], Size(lay.recs[k][..j]), lay.recs[k][j..]) + Flat(lay.pages[k + 1..], lay.recs[k + 1..])
  }

  lemma CommittedThenPending(lay: Layout, k: nat, j: nat)
    requires CutOk(lay, k, j)
    ensures LogOf(lay) == LogOf(Committed(lay, k, j)) + Pending(lay, k, j)
  {
    hide Flat, Recs;
    FlatSplit(lay, k);
    CommittedLog(lay, k, j);
    RecsAppend(lay.pages[k], 0, lay.recs[k][..j], lay.recs[k][j..]);
    assert lay.recs[k] == lay.recs[k][..j] + lay.recs[k][j..];
  }

  /** Appending past the tail changes nothing that is committed. */
  lemma PutPastTail(lay: Layout, k: nat, j: nat, e: Entry)
    requires CutOk(lay, k, j)
    requires IsLastEntry(End(lay), Len(e)) ==> |lay.recs| < |lay.pages|
    requires Size(lay.recs[|lay.recs| - 1]) == 0 ==> !IsLastEntry(End(lay), Len(e))
    ensures CutOk(Put(lay, e), k, j)
    ensures Committed(Put(lay, e), k, j) == Committed(lay, k, j)
    ensures CutAddr(Put(lay, e), k, j) == CutAddr(lay, k, j)
  {
    var put := Put(lay, e);
    assert put.recs[..k] == lay.recs[..k];
    assert put.recs[k][..j] == lay.recs[k][..j];
  }

  /** Unlinking a page before the committed tail removes its records from the
      committed log and touches nothing past the tail. */
  lemma UnlinkLog(lay: Layout, k: nat, j: nat, i: nat) returns (a: seq<LogRec>, b: seq<LogRec>)
    requires CutOk(lay, k, j)
    requires 0 < i < k
    ensures var lay' := Layout(Without(lay.pages, i), Without(lay.recs, i));
            && CutOk(lay', k - 1, j)
            && CutAddr(lay', k - 1, j) == CutAddr(lay, k, j)
            && LogOf(Committed(lay, k, j)) == a + Recs(lay.pages[i], 0, lay.recs[i]) + b
            && LogOf(Committed(lay', k - 1, j)) == a + b
            && Pending(lay', k - 1, j) == Pending(lay, k, j)
  {
    var lay' := Layout(Without(lay.pages, i), Without(lay.recs, i));
    var com := Committed(lay, k, j);
    var com' := Committed(lay', k - 1, j);
    a, b := Flat(com.pages[..i], com.recs[..i]), Flat(com.pages[i + 1..], com.recs[i + 1..]);
    FlatSplit(com, i);
    assert com.recs[i] == lay.recs[i];
    assert lay'.recs[k - 1] == lay.recs[k] && lay'.pages[k - 1] == lay.pages[k];
    assert lay'.recs[..k - 1] == lay.recs[..i] + lay.recs[i + 1..k];
    assert com.recs[i + 1..] == lay.recs[i + 1..k] + [lay.recs[k][..j]];
    assert com'.recs == com.recs[..i] + com.recs[i + 1..];
    FlatAppend(com.pages[..i], com.recs[..i], com.pages[i + 1..], com.recs[i + 1..]);
    WithoutRest(lay.pages, i, k);
    WithoutRest(lay.recs, i, k);
  }

  lemma DropFirstLog(lay: Layout, k: nat, j: nat)
    requires CutOk(lay, k, j)
    requires 0 < k
    ensures var lay' := Layout(lay.pages[1..], lay.recs[1..]);
            && CutOk(lay', k - 1, j)
            && CutAddr(lay', k - 1, j) == CutAddr(lay, k, j)
            && LogOf(Committed(lay, k, j)) == Recs(lay.pages[0], 0, lay.recs[0]) + LogOf(Committed(lay', k - 1, j))
            && Pending(lay', k - 1, j) == Pending(lay, k, j)
  {
    var lay' := Layout(lay.pages[1..], lay.recs[1..]);
    var com := Committed(lay, k, j);
    assert com.recs[1..] == Committed(lay', k - 1, j).recs;
    assert lay'.pages[k..] == lay.pages[k + 1..] && lay'.recs[k..] == lay.recs[k + 1..];
  }

  lemma ExtendLog(lay: Layout, k: nat, j: nat, more: seq<nat>)
    requires CutOk(lay, k, j)
    ensures var lay' := Layout(lay.pages + more, lay.recs);
            && CutOk(lay', k, j)
            && CutAddr(lay', k, j) == CutAddr(lay, k, j)
            && LogOf(Committed(lay', k, j)) == LogOf(Committed(lay, k, j))
            && Pending(lay', k, j) == Pending(lay, k, j)
  {
    var lay' := Layout(lay.pages + more, lay.recs);
    FlatIgnoresSpare(lay'.pages, lay.pages, Committed(lay, k, j).recs);
    FlatIgnoresSpare(lay'.pages[k + 1..], lay.pages[k + 1..], lay.recs[k + 1..]);
  }

  lemma JoinLog(nl: Layout, lay: Layout, k: nat, j: nat)
    requires 0 < |nl.recs| <= |nl.pages|
    requires CutOk(lay, k, j)
    requires 0 < k
    ensures var jo := Joined(nl, lay, k); var n := |nl.recs|;
            && CutOk(jo, n, j)
            && CutAddr(jo, n, j) == CutAddr(lay, k, j)
            && LogOf(Committed(jo, n, j)) == LogOf(nl) + Recs(lay.pages[k], 0, lay.recs[k][..j])
            && Pending(jo, n, j) == Pending(lay, k, j)
  {
    hide Flat, Recs;
    var jo := Joined(nl, lay, k);
    var n := |nl.recs|;
    CommittedLog(jo, n, j);
    assert jo.pages[..n] == nl.pages[..n] && jo.recs[..n] == nl.recs;
    FlatIgnoresSpare(nl.pages, nl.pages[..n], nl.recs);
    assert jo.pages[n] == lay.pages[k] && jo.recs[n] == lay.recs[k];
    assert jo.pages[n + 1..] == lay.pages[k + 1..] && jo.recs[n + 1..] == lay.recs[k + 1..];
  }

  // ----- walking the committed entries ---------------------------------------------------------

  lemma NextRecord(lay: Layout, i: nat, x: nat)
    requires i < |lay.recs| <= |lay.pages| && x < |lay.recs[i]|
    ensures LogOf(Committed(lay, i, x + 1)) == LogOf(Committed(lay, i, x)) + [LogRec(CutAddr(lay, i, x),
            lay.recs[i][x])]
  {
    CommittedLog(lay, i, x);
    CommittedLog(lay, i, x + 1);
    var es := lay.recs[i];
    assert es[..x + 1] == es[..x] + [es[x]];
    RecsAppend(lay.pages[i], 0, es[..x], [es[x]]);
  }

  lemma NextPageRecords(lay: Layout, i: nat)
    requires i + 1 < |lay.recs| <= |lay.pages|
    ensures LogOf(Committed(lay, i + 1, 0)) == LogOf(Committed(lay, i, |lay.recs[i]|))
  {
    CommittedLog(lay, i, |lay.recs[i]|);
    CommittedLog(lay, i + 1, 0);
    assert lay.recs[i][..|lay.recs[i]|] == lay.recs[i];
    assert lay.pages[..i + 1] == lay.pages[..i] + [lay.pages[i]];
    assert lay.recs[..i + 1] == lay.recs[..i] + [lay.recs[i]];
    FlatAppend(lay.pages[..i], lay.recs[..i], [lay.pages[i]], [lay.recs[i]]);
    var one := [lay.recs[i]];
    assert one[1..] == [];
    assert Flat([lay.pages[i]], one) == Recs(lay.pages[i], 0, lay.recs[i]) + Flat([lay.pages[i]][1..], one[1..]);
  }

  /** How far the copy has come, in terms of the records seen. */
  ghost predicate CopiedSoFar(done: seq<LogRec>, moves: map<Addr, Addr>, copied: seq<LogRec>,
                              tree0: map<nat, Addr>, tree: map<nat, Addr>,
                              ls0: Addr, ls: Addr, ll0: Addr, ll: Addr, work: set<nat>)
  {
    var g := Copy(done, ls0, ll0);
    && copied == MoveLog(moves, g.kept)
    && tree == MoveAddrs(moves, tree0)
    && (forall a :: a in moves ==> moves[a].page in work && exists n :: 0 <= n < |done| && done[n].addr == a)
    && ((g.ls == ls0 && ls == ls0) || (g.ls == NOWHERE && ls.page in work))
    && ((g.ll == ll0 && ll == ll0) || (g.ll == NOWHERE && ll.page in work))
    && ls == LastChange(copied, ls0) && ll == LastLinkChange(copied, ll0)
  }

  /** The header's pointer after `log` has been copied: the last attribute change
      in it, or what the header pointed at before. */
  function LastChange(log: seq<LogRec>, ls: Addr): Addr {
    if log == [] then ls
    else if log[|log| - 1].e.SetAttr? then log[|log| - 1].addr
    else LastChange(log[..|log| - 1], ls)
  }

  function LastLinkChange(log: seq<LogRec>, ll: Addr): Addr {
    if log == [] then ll
    else if log[|log| - 1].e.LinkChange? then log[|log| - 1].addr
    else LastLinkChange(log[..|log| - 1], ll)
  }

  lemma CopyStep(done: seq<LogRec>, r: LogRec, c: Addr, moves: map<Addr, Addr>, copied: seq<LogRec>,
                 tree0: map<nat, Addr>, tree: map<nat, Addr>, tree': map<nat, Addr>,
                 ls0: Addr, ls: Addr, ll0: Addr, ll: Addr, work: set<nat>)
    requires CopiedSoFar(done, moves, copied, tree0, tree, ls0, ls, ll0, ll, work)
    requires OnMedia(done) && DistinctAddrs(done)
    requires forall q :: q in done ==> q.addr != r.addr
    requires r.addr != NOWHERE && r.addr.page !in work && c.page in work
    requires tree'.Keys == tree.Keys
    requires forall p :: p in tree ==> tree'[p] == if tree0[p] == r.addr then c else tree[p]
    requires InUse(r, ls, ll)
    ensures CopiedSoFar(done + [r], moves[r.addr := c], copied + [LogRec(c, r.e)], tree0, tree',
                        ls0, if r.e.SetAttr? then c else ls, ll0, if r.e.LinkChange? then c else ll, work)
    ensures Copy(done + [r], ls0, ll0).kept == Copy(done, ls0, ll0).kept + [r]
  {
    hide Compacted;
    var g := Copy(done, ls0, ll0);
    var moves' := moves[r.addr := c];
    assert (done + [r])[..|done|] == done;
    assert InUse(r, g.ls, g.ll);
    CopyCompacts(done, ls0, ll0);
    CompactedSubset(done, g.kept, NOWHERE, ll0);
    MoveMore(moves, r.addr, c, g.kept);
    MoveConcat(moves', g.kept, [r]);
    assert MoveLog(moves', [r]) == [LogRec(c, r.e)];
    forall a | a in moves' ensures exists n :: 0 <= n < |done + [r]| && (done + [r])[n].addr == a {
      if a == r.addr {
        assert (done + [r])[|done|].addr == a;
      } else {
        var n :| 0 <= n < |done| && done[n].addr == a;
        assert (done + [r])[n].addr == a;
      }
    }
    TreeFollows(moves, r.addr, c, tree0, tree, tree');
    assert (copied + [LogRec(c, r.e)])[..|copied|] == copied;
  }

  lemma TreeFollows(moves: map<Addr, Addr>, a: Addr, c: Addr, tree0: map<nat, Addr>, tree: map<nat, Addr>,
                    tree': map<nat, Addr>)
    requires tree == MoveAddrs(moves, tree0)
    requires tree'.Keys == tree.Keys
    requires forall p :: p in tree ==> tree'[p] == if tree0[p] == a then c else tree[p]
    ensures tree' == MoveAddrs(moves[a := c], tree0)
  {
  }

  lemma SkipStep(done: seq<LogRec>, r: LogRec, moves: map<Addr, Addr>, copied: seq<LogRec>,
                 tree0: map<nat, Addr>, tree: map<nat, Addr>,
                 ls0: Addr, ls: Addr, ll0: Addr, ll: Addr, work: set<nat>)
    requires CopiedSoFar(done, moves, copied, tree0, tree, ls0, ls, ll0, ll, work)
    requires r.addr != NOWHERE && r.addr.page !in work
    requires !InUse(r, ls, ll)
    ensures CopiedSoFar(done + [r], moves, copied, tree0, tree, ls0, ls, ll0, ll, work)
    ensures Copy(done + [r], ls0, ll0).kept == Copy(done, ls0, ll0).kept
  {
    assert (done + [r])[..|done|] == done;
    var g := Copy(done, ls0, ll0);
    assert !InUse(r, g.ls, g.ll);
    forall a | a in moves ensures exists n :: 0 <= n < |done + [r]| && (done + [r])[n].addr == a {
      var n :| 0 <= n < |done| && done[n].addr == a;
      assert (done + [r])[n].addr == a;
    }
  }

  // ----- one collection after another ------------------------------------------------------------

  function Compose(first: map<Addr, Addr>, second: map<Addr, Addr>): map<Addr, Addr> {
    map a | a in first.Keys + second.Keys :: Moved(second, Moved(first, a))
  }

  lemma {:induction false} ComposeMoves(first: map<Addr, Addr>, second: map<Addr, Addr>, log: seq<LogRec>)
    ensures MoveLog(second, MoveLog(first, log)) == MoveLog(Compose(first, second), log)
    decreases |log|
  {
    if log != [] {
      ComposeMoves(first, second, log[1..]);
      var once := MoveLog(first, log);
      assert once[1..] == MoveLog(first, log[1..]);
      assert MoveLog(second, once) == [MoveRec(second, once[0])] + MoveLog(second, once[1..]);
    }
  }

  /** What may be dropped from a log does not depend on where its records lie. */
  lemma {:induction false} CompactBeforeMoving(moves: map<Addr, Addr>, a: seq<LogRec>,
                                               b: seq<LogRec>) returns (mid: seq<LogRec>)
    requires OnMedia(a)
    requires Compacted(MoveLog(moves, a), b, NOWHERE, NOWHERE)
    ensures Compacted(a, mid, NOWHERE, NOWHERE) && MoveLog(moves, mid) == b
    decreases |a|
  {
    if a == [] {
      mid := [];
    } else {
      var ma := MoveLog(moves, a);
      assert ma[1..] == MoveLog(moves, a[1..]);
      if b != [] && b[0] == ma[0] && Compacted(ma[1..], b[1..], NOWHERE, NOWHERE) {
        var rest := CompactBeforeMoving(moves, a[1..], b[1..]);
        mid := [a[0]] + rest;
        assert mid[1..] == rest;
      } else {
        assert a[0].addr != NOWHERE;
        mid := CompactBeforeMoving(moves, a[1..], b);
      }
    }
  }

  lemma CollectedTrans(a: seq<LogRec>, b: seq<LogRec>, c: seq<LogRec>)
    requires Collected(a, b) && Collected(b, c) && OnMedia(a)
    ensures Collected(a, c)
  {
    var mid1: seq<LogRec>, moves1: map<Addr, Addr> :| Compacted(a, mid1, NOWHERE, NOWHERE)
        && b == MoveLog(moves1, mid1);
    var mid2: seq<LogRec>, moves2: map<Addr, Addr> :| Compacted(b, mid2, NOWHERE, NOWHERE)
        && c == MoveLog(moves2, mid2);
    CompactedSubset(a, mid1, NOWHERE, NOWHERE);
    assert OnMedia(mid1) by {
      forall i | 0 <= i < |mid1| ensures mid1[i].addr != NOWHERE {
        assert mid1[i] in mid1;
      }
    }
    var mid := CompactBeforeMoving(moves1, mid1, mid2);
    CompactedTrans(a, mid1, mid, NOWHERE, NOWHERE);
    ComposeMoves(moves1, moves2, mid);
    assert c == MoveLog(Compose(moves1, moves2), mid);
  }

  lemma CollectedMore(base: seq<LogRec>, log0: seq<LogRec>, log: seq<LogRec>)
    requires OnMedia(base) && Collected(base, log0) && Compacted(log0, log, NOWHERE, NOWHERE)
    ensures Collected(base, log)
  {
    CompactedIsCollected(log0, log);
    CollectedTrans(base, log0, log);
  }

  lemma CollectedMoves(base: seq<LogRec>, mid: seq<LogRec>, moves: map<Addr, Addr>)
    requires OnMedia(base) && Collected(base, mid)
    ensures Collected(base, MoveLog(moves, mid))
  {
    CompactedRefl(mid, NOWHERE, NOWHERE);
    assert Collected(mid, MoveLog(moves, mid));
    CollectedTrans(base, mid, MoveLog(moves, mid));
  }

  // ----- the part of the log from the tail page on --------------------------------------------

  /** From the page of the committed tail on, the two layouts are the same. */
  ghost predicate TailSame(lay: Layout, k: nat, lay0: Layout, k0: nat) {
    && k < |lay.recs| <= |lay.pages| && k0 < |lay0.recs| <= |lay0.pages|
    && lay.pages[k..] == lay0.pages[k0..]
    && lay.recs[k..] == lay0.recs[k0..]
  }

  lemma TailSameMeans(lay: Layout, k: nat, lay0: Layout, k0: nat, j: nat)
    requires TailSame(lay, k, lay0, k0)
    requires j <= |lay0.recs[k0]|
    ensures j <= |lay.recs[k]| && CutAddr(lay, k, j) == CutAddr(lay0, k0, j)
    ensures Pending(lay, k, j) == Pending(lay0, k0, j)
    ensures End(lay) == End(lay0)
    ensures lay.pages[|lay.recs|..] == lay0.pages[|lay0.recs|..]
  {
    var ps, rs := lay.pages[k..], lay.recs[k..];
    assert lay.pages[k] == ps[0] == lay0.pages[k0] && lay.recs[k] == rs[0] == lay0.recs[k0];
    assert lay.pages[k + 1..] == ps[1..] == lay0.pages[k0 + 1..];
    assert lay.recs[k + 1..] == rs[1..] == lay0.recs[k0 + 1..];
    var n := |rs| - 1;
    assert lay.recs[|lay.recs| - 1] == rs[n] == lay0.recs[|lay0.recs| - 1];
    assert lay.pages[|lay.recs| - 1] == ps[n] == lay0.pages[|lay0.recs| - 1];
    assert lay.pages[|lay.recs|..] == ps[n + 1..] == lay0.pages[|lay0.recs|..];
  }
}
