/** What fast collection takes away: whole pages, exactly those before the tail
page that hold no record in use.  And when thorough collection follows. */
module LogSweep {
  import opened LogPages
  import opened FileReplay
  import opened LogSurgery

  /** `log` without the records on the pages `gone`. */
  function Purged(log: seq<LogRec>, gone: set<nat>): seq<LogRec> {
    if log == [] then []
    else
      var r := log[|log| - 1];
      Purged(log[..|log| - 1], gone) + if r.addr.page in gone then [] else [r]
  }

  lemma {:induction false} PurgedConcat(a: seq<LogRec>, b: seq<LogRec>, gone: set<nat>)
    ensures Purged(a + b, gone) == Purged(a, gone) + Purged(b, gone)
    decreases |b|
  {
    if b == [] {
      assert a + b == a;
    } else {
      assert (a + b)[..|a + b| - 1] == a + b[..|b| - 1];
      PurgedConcat(a, b[..|b| - 1], gone);
    }
  }

  lemma {:induction false} PurgedHas(log: seq<LogRec>, gone: set<nat>)
    ensures forall r :: r in Purged(log, gone) <==> r in log && r.addr.page !in gone
    decreases |log|
  {
    if log != [] {
      PurgedHas(log[..|log| - 1], gone);
      assert log == log[..|log| - 1] + [log[|log| - 1]];
    }
  }

  lemma {:induction false} PurgedAll(log: seq<LogRec>, gone: set<nat>)
    ensures (forall r :: r in log ==> r.addr.page in gone) ==> Purged(log, gone) == []
    ensures (forall r :: r in log ==> r.addr.page !in gone) ==> Purged(log, gone) == log
    decreases |log|
  {
    if log != [] {
      PurgedAll(log[..|log| - 1], gone);
      assert log[|log| - 1] in log;
    }
  }

  lemma {:induction false} PurgedTwice(log: seq<LogRec>, gone: set<nat>, more: set<nat>)
    ensures Purged(Purged(log, gone), more) == Purged(log, gone + more)
    decreases |log|
  {
    if log != [] {
      var n := |log| - 1;
      PurgedTwice(log[..n], gone, more);
      var last := if log[n].addr.page in gone then [] else [log[n]];
      PurgedConcat(Purged(log[..n], gone), last, more);
      assert last != [] ==> last[..0] == [];
    }
  }

  /** Nothing on the page is in use. */
  ghost predicate Dead(log: seq<LogRec>, page: nat, ls: Addr, ll: Addr) {
    forall r :: r in log && r.addr.page == page ==> !InUse(r, ls, ll)
  }

  ghost predicate Sweeps(log0: seq<LogRec>, log: seq<LogRec>, gone: set<nat>, ls: Addr, ll: Addr, tail: nat) {
    && log == Purged(log0, gone) && tail !in gone
    && forall r :: r in log0 && r.addr.page in gone ==> !InUse(r, ls, ll)
  }

  /** `log` is `log0` without some dead pages; the tail page is not one of them. */
  ghost predicate Swept(log0: seq<LogRec>, log: seq<LogRec>, ls: Addr, ll: Addr, tail: nat) {
    exists gone: set<nat> :: Sweeps(log0, log, gone, ls, ll, tail)
  }

  /** No page but the tail page is dead. */
  ghost predicate AllLive(log: seq<LogRec>, ls: Addr, ll: Addr, tail: nat) {
    forall r :: r in log && r.addr.page != tail ==> !Dead(log, r.addr.page, ls, ll)
  }

  lemma SweptRefl(log: seq<LogRec>, ls: Addr, ll: Addr, tail: nat)
    ensures Swept(log, log, ls, ll, tail)
  {
    PurgedAll(log, {});
    assert Sweeps(log, log, {}, ls, ll, tail);
  }

  /** Taking one more dead page away. */
  lemma SweptMore(log0: seq<LogRec>, a: seq<LogRec>, d: seq<LogRec>, b: seq<LogRec>, page: nat, ls: Addr, ll: Addr,
                  tail: nat)
    requires Swept(log0, a + d + b, ls, ll, tail) && page != tail
    requires forall r :: r in d ==> r.addr.page == page && !InUse(r, ls, ll)
    requires forall r :: r in a + b ==> r.addr.page != page
    ensures Swept(log0, a + b, ls, ll, tail)
  {
    var gone: set<nat> :| Sweeps(log0, a + d + b, gone, ls, ll, tail);
    PurgedTwice(log0, gone, {page});
    PageAway(a, d, b, page);
    forall r | r in log0 && r.addr.page in gone + {page} ensures !InUse(r, ls, ll) {
      if r.addr.page !in gone {
        PurgedHas(log0, gone);
        assert r in d;
      }
    }
    assert Sweeps(log0, a + b, gone + {page}, ls, ll, tail);
  }

  lemma PageAway(a: seq<LogRec>, d: seq<LogRec>, b: seq<LogRec>, page: nat)
    requires forall r :: r in d ==> r.addr.page == page
    requires forall r :: r in a + b ==> r.addr.page != page
    ensures Purged(a + d + b, {page}) == a + b
    ensures forall r :: r in a + d + b && r.addr.page == page ==> r in d
  {
    assert forall r :: r in a || r in b ==> r in a + b;
    PurgedConcat(a + d, b, {page});
    PurgedConcat(a, d, {page});
    PurgedAll(a, {page});
    PurgedAll(d, {page});
    PurgedAll(b, {page});
    assert a + [] == a;
  }

  lemma {:induction false} PurgedCompacts(log: seq<LogRec>, gone: set<nat>, ls: Addr, ll: Addr)
    requires forall r :: r in log && r.addr.page in gone ==> !InUse(r, ls, ll)
    ensures Compacted(log, Purged(log, gone), ls, ll)
    decreases |log|
  {
    if log != [] {
      var n := |log| - 1;
      var last := if log[n].addr.page in gone then [] else [log[n]];
      assert log == log[..n] + [log[n]];
      PurgedCompacts(log[..n], gone, ls, ll);
      assert [log[n]][1..] == [];
      assert Compacted([log[n]], last, ls, ll);
      CompactedConcat(log[..n], Purged(log[..n], gone), [log[n]], last, ls, ll);
    }
  }

  lemma SweptCompacts(log0: seq<LogRec>, log: seq<LogRec>, ls: Addr, ll: Addr, tail: nat)
    requires Swept(log0, log, ls, ll, tail)
    ensures Compacted(log0, log, ls, ll)
  {
    var gone: set<nat> :| Sweeps(log0, log, gone, ls, ll, tail);
    PurgedCompacts(log0, gone, ls, ll);
  }

  // ----- when thorough collection is due -----------------------------------------------------------------

  /** The bytes of the records in use. */
  function UsedBytes(log: seq<LogRec>, ls: Addr, ll: Addr): nat {
    if log == [] then 0
    else
      var r := log[|log| - 1];
      UsedBytes(log[..|log| - 1], ls, ll) + if InUse(r, ls, ll) then Len(r.e) else 0
  }

  lemma {:induction false} UsedConcat(a: seq<LogRec>, b: seq<LogRec>, ls: Addr, ll: Addr)
    ensures UsedBytes(a + b, ls, ll) == UsedBytes(a, ls, ll) + UsedBytes(b, ls, ll)
    decreases |b|
  {
    if b == [] {
      assert a + b == a;
    } else {
      assert (a + b)[..|a + b| - 1] == a + b[..|b| - 1];
      UsedConcat(a, b[..|b| - 1], ls, ll);
    }
  }

  lemma {:induction false} UsedNone(log: seq<LogRec>, ls: Addr, ll: Addr)
    requires forall i :: 0 <= i < |log| ==> !InUse(log[i], ls, ll)
    ensures UsedBytes(log, ls, ll) == 0
    decreases |log|
  {
    if log != [] {
      UsedNone(log[..|log| - 1], ls, ll);
    }
  }

  ghost function PagesOf(log: seq<LogRec>): set<nat> {
    set r | r in log :: r.addr.page
  }

  /** The pages that `bytes` bytes of records fill, rounded up. */
  function LogBlocks(bytes: nat): nat {
    bytes / LAST_ENTRY + if bytes % LAST_ENTRY != 0 then 1 else 0
  }

  /** It is the least number of pages that holds the bytes. */
  lemma LogBlocksIsLeast(bytes: nat, n: nat)
    ensures n * LAST_ENTRY >= bytes <==> n >= LogBlocks(bytes)
  {
    assert bytes == LAST_ENTRY * (bytes / LAST_ENTRY) + bytes % LAST_ENTRY;
  }

  /** Less than half of the pages before the tail page would do for what is in use there. */
  ghost predicate ThoroughDue(pre: seq<LogRec>, ls: Addr, ll: Addr) {
    var blocks := LogBlocks(UsedBytes(pre, ls, ll));
    0 < blocks && 2 * blocks < |PagesOf(pre)|
  }

  lemma PagesOfConcat(a: seq<LogRec>, b: seq<LogRec>)
    ensures PagesOf(a + b) == PagesOf(a) + PagesOf(b)
  {
  }

  /** The records before page k + 1 are those before page k and those on it. */
  lemma BeforeNext(lay: Layout, k: nat)
    requires k + 1 < |lay.recs| <= |lay.pages|
    ensures LogOf(Committed(lay, k + 1, 0)) == LogOf(Committed(lay, k, 0)) + Recs(lay.pages[k], 0, lay.recs[k])
  {
    NextPageRecords(lay, k);
    CommittedLog(lay, k, |lay.recs[k]|);
    CommittedLog(lay, k, 0);
    assert lay.recs[k][..|lay.recs[k]|] == lay.recs[k] && lay.recs[k][..0] == [];
  }

  lemma NoPageBefore(lay: Layout)
    requires 0 < |lay.recs| <= |lay.pages|
    ensures PagesOf(LogOf(Committed(lay, 0, 0))) == {}
  {
    CommittedLog(lay, 0, 0);
    assert lay.recs[0][..0] == [] && lay.recs[..0] == [];
    assert LogOf(Committed(lay, 0, 0)) == [];
  }

  lemma PageIsNew(m: Nvm, lay: Layout, n: nat)
    requires Holds(m, lay) && n + 1 < |lay.recs|
    ensures lay.pages[n] !in lay.pages[..n] && lay.recs[n] != [] && AllFit(lay.recs[n])
  {
    hide Recs, LogOf;
    assert PageOk(m, lay, n);
  }

  lemma OneMorePage(found: set<nat>, pages: seq<nat>, n: nat)
    requires n < |pages| && |found| == n && (forall p :: p in found ==> p in pages[..n]) && pages[n] !in pages[..n]
    ensures |found + {pages[n]}| == n + 1
    ensures forall p :: p in found + {pages[n]} ==> p in pages[..n + 1]
  {
    assert pages[..n + 1] == pages[..n] + [pages[n]];
  }

  lemma {:induction false} PagesBefore(m: Nvm, lay: Layout, k: nat)
    requires Holds(m, lay) && k < |lay.recs|
    ensures |PagesOf(LogOf(Committed(lay, k, 0)))| == k
    ensures forall p :: p in PagesOf(LogOf(Committed(lay, k, 0))) ==> p in lay.pages[..k]
    decreases k
  {
    if k == 0 {
      NoPageBefore(lay);
    } else {
      var n := k - 1;
      PagesBefore(m, lay, n);
      BeforeNext(lay, n);
      PageIsNew(m, lay, n);
      assert n < |lay.pages| && LogOf(Committed(lay, n + 1, 0)) == LogOf(Committed(lay, k, 0));
      hide *;
      var pre, page := LogOf(Committed(lay, n, 0)), Recs(lay.pages[n], 0, lay.recs[n]);
      PagesOfConcat(pre, page);
      PagesOfPage(lay.pages[n], lay.recs[n]);
      OneMorePage(PagesOf(pre), lay.pages, n);
    }
  }

  lemma PagesOfPage(page: nat, es: seq<Entry>)
    requires es != [] && AllFit(es)
    ensures PagesOf(Recs(page, 0, es)) == {page}
  {
    var recs := Recs(page, 0, es);
    forall r | r in recs ensures r.addr.page == page {
      var i :| 0 <= i < |recs| && recs[i] == r;
      RecsAt(page, 0, es, i);
    }
    assert recs[0] in recs;
  }

  // ----- records packed tightly --------------------------------------------------------------------------

  /** The writer leaves a page only when the entry does not fit. */
  predicate Tight(from: Addr, size: nat, c: Addr) {
    from.page != 0 && !IsLastEntry(from, size) ==> c == from
  }

  /** The records lie one behind the other from `start` on, as closely as they fit. */
  ghost predicate Tightly(start: Addr, log: seq<LogRec>) {
    forall q :: 0 <= q < |log| ==> Tight(Cursor(start, log, q), Len(log[q].e), log[q].addr)
  }

  lemma TightlyMore(start: Addr, log: seq<LogRec>, r: LogRec)
    requires Tightly(start, log) && Tight(Cursor(start, log, |log|), Len(r.e), r.addr)
    ensures Tightly(start, log + [r])
  {
    var all := log + [r];
    forall q | 0 <= q < |all| ensures Tight(Cursor(start, all, q), Len(all[q].e), all[q].addr) {
      assert Cursor(start, all, q) == Cursor(start, log, q);
    }
  }

  /** The end of a layout is where the last record ends. */
  lemma EndIsCursor(m: Nvm, lay: Layout)
    requires Holds(m, lay)
    ensures Cursor(Addr(lay.pages[0], 0), LogOf(lay), |LogOf(lay)|) == End(lay)
  {
    WalkSeesLayout(m, lay);
    WalkSteps(m, Addr(lay.pages[0], 0), End(lay), LogOf(lay));
  }
}
