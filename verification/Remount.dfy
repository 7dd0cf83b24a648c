/** Unmounting and mounting cleanly: the free lists are saved to a log whose pages come
out of the lists themselves, loaded again, and the pages of the log are freed.  The
same blocks are free afterwards, each in the list of the first block of a free run. */
module Remount {
  import opened Options
  import opened RangeTree
  import opened FreeLists
  import opened BlockLists
  import opened RangeLog

  // ----- the free blocks of all lists --------------------------------------------------------------------

  ghost predicate FreeIn(all: seq<seq<Range>>, x: nat) {
    exists i :: 0 <= i < |all| && FreeLists.Holds(all[i], x)
  }

  ghost predicate SameFree(all: seq<seq<Range>>, other: seq<seq<Range>>) {
    forall x: nat :: FreeIn(all, x) <==> FreeIn(other, x)
  }

  lemma TakenFree(all: seq<seq<Range>>, c: nat, t: seq<Range>, low: nat, high: nat)
    requires AllSeparate(all) && c < |all| && Taken(all[c], t, low, high)
    ensures forall x: nat :: FreeIn(all[c := t], x) <==> FreeIn(all, x) && !(low <= x <= high)
    ensures forall x: nat :: low <= x <= high ==> FreeIn(all, x)
  {
    var after := all[c := t];
    forall x: nat
      ensures FreeIn(after, x) <==> FreeIn(all, x) && !(low <= x <= high)
      ensures low <= x <= high ==> FreeIn(all, x)
    {
      if FreeIn(after, x) {
        var i :| 0 <= i < |after| && FreeLists.Holds(after[i], x);
        assert FreeLists.Holds(all[i], x);
        assert i < c ==> Separate(all[i], all[c]);
        assert c < i ==> Separate(all[c], all[i]);
      }
      if FreeIn(all, x) && !(low <= x <= high) {
        var i :| 0 <= i < |all| && FreeLists.Holds(all[i], x);
        assert FreeLists.Holds(after[i], x);
      }
    }
  }

  lemma AddedFree(all: seq<seq<Range>>, c: nat, t: seq<Range>, low: nat, high: nat)
    requires c < |all| && forall x: nat :: FreeLists.Holds(t, x) <==> FreeLists.Holds(all[c], x) || low <= x <= high
    ensures forall x: nat :: FreeIn(all[c := t], x) <==> FreeIn(all, x) || low <= x <= high
  {
    var after := all[c := t];
    forall x: nat ensures FreeIn(after, x) <==> FreeIn(all, x) || low <= x <= high {
      if FreeIn(after, x) {
        var i :| 0 <= i < |after| && FreeLists.Holds(after[i], x);
        assert i != c ==> FreeLists.Holds(all[i], x);
      }
      if FreeIn(all, x) {
        var i :| 0 <= i < |all| && FreeLists.Holds(all[i], x);
        assert FreeLists.Holds(after[i], x);
      }
      if low <= x <= high {
        assert FreeLists.Holds(after[c], x);
      }
    }
  }

  /** How many nodes the lists have. */
  function Nodes(all: seq<seq<Range>>): nat {
    if all == [] then 0 else Nodes(all[..|all| - 1]) + |all[|all| - 1]|
  }

  lemma {:induction false} NodesUpdate(all: seq<seq<Range>>, c: nat, t: seq<Range>)
    requires c < |all|
    ensures Nodes(all[c := t]) + |all[c]| == Nodes(all) + |t|
    decreases |all|
  {
    var n := |all| - 1;
    var after := all[c := t];
    if c < n {
      NodesUpdate(all[..n], c, t);
      assert after[..n] == all[..n][c := t];
    } else {
      assert after[..n] == all[..n];
    }
  }

  /** The counters of a list, by its ranges. */
  lemma CountsAre(a: BlockAllocator)
    requires a.Valid()
    ensures forall i :: 0 <= i < |a.All()| ==>
              && a.All()[i].numFree == FreeLists.Total(a.AllRanges()[i]) && a.All()[i].numNodes == |a.AllRanges()[i]|
              && Spaced(a.AllRanges()[i], 0)
    ensures AllSeparate(a.AllRanges())
  {
    forall i | 0 <= i < |a.All()|
      ensures a.All()[i].numFree == FreeLists.Total(a.AllRanges()[i]) && a.All()[i].numNodes == |a.AllRanges()[i]|
      ensures Spaced(a.AllRanges()[i], 0)
    {
      assert a.All()[i].Valid();
    }
  }

  // ----- taking the pages --------------------------------------------------------------------------------

  function RunSeq(block: nat, n: nat): seq<nat> {
    seq(n, i => block + i)
  }

  ghost predicate Distinct(pages: seq<nat>) {
    forall i, j :: 0 <= i < j < |pages| ==> pages[i] != pages[j]
  }

  lemma DistinctMore(pages: seq<nat>, block: nat, n: nat)
    requires Distinct(pages) && forall x :: x in pages ==> !(block <= x < block + n)
    ensures Distinct(pages + RunSeq(block, n))
    ensures forall x: nat :: x in pages + RunSeq(block, n) <==> x in pages || block <= x < block + n
  {
    var run := RunSeq(block, n);
    forall x: nat | block <= x < block + n ensures x in run {
      assert run[x - block] == x;
    }
    var all := pages + run;
    forall i, j | 0 <= i < j < |all| ensures all[i] != all[j] {
      assert i < |pages| ==> all[i] in pages;
    }
  }

  /** No processor's list has `num` blocks. */
  ghost predicate NoneEnough(all: seq<seq<Range>>, cpus: nat, num: nat)
    requires cpus <= |all|
  {
    forall i :: 0 <= i < cpus ==> FreeLists.Total(all[i]) < num
  }

  /** The lists `now` are the lists `was` without the blocks in `pages`, and without
      more nodes. */
  ghost predicate TookPages(was: seq<seq<Range>>, now: seq<seq<Range>>, pages: seq<nat>) {
    && (forall x: nat :: FreeIn(now, x) <==> FreeIn(was, x) && x !in pages)
    && (forall x :: x in pages ==> FreeIn(was, x)) && Distinct(pages) && Nodes(now) <= Nodes(was)
  }

  lemma TookMore(was: seq<seq<Range>>, now: seq<seq<Range>>, pages: seq<nat>, c: nat, t: seq<Range>, block: nat, n: nat)
    requires TookPages(was, now, pages) && AllSeparate(now) && c < |now| && 0 < n && |t| <= |now[c]|
    requires Taken(now[c], t, block, block + n - 1)
    ensures TookPages(was, now[c := t], pages + RunSeq(block, n))
  {
    TakenFree(now, c, t, block, block + n - 1);
    NodesUpdate(now, c, t);
    DistinctMore(pages, block, n);
  }

  lemma TakenTotal(s: seq<Range>, t: seq<Range>, block: nat, n: nat)
    requires 0 < n && Taken(s, t, block, block + n - 1)
    ensures FreeLists.Total(t) + n == FreeLists.Total(s)
  {
  }

  /** One request: some blocks of a list that has `left`, which then has the rest. */
  method TakeSome(a: BlockAllocator, start: nat, left: nat, pages: seq<nat>, ghost was: seq<seq<Range>>)
    returns (n: nat, more: seq<nat>, ghost from: nat)
    requires a.Valid() && start < |a.lists| && 0 < left && TookPages(was, a.AllRanges(), pages)
    modifies a.All()
    ensures a.Valid() && n <= left && TookPages(was, a.AllRanges(), more) && |more| == |pages| + n
    ensures n == 0 <==> NoneEnough(old(a.AllRanges()), |a.lists|, left)
    ensures n == 0 ==> a.AllRanges() == old(a.AllRanges()) && more == pages
    ensures n > 0 ==> from < |a.lists| && FreeLists.Total(a.AllRanges()[from]) >= left - n
  {
    hide FreeIn, FreeLists.Holds, Taken, FreeLists.Total, AllSeparate, TookPages, FreeList.Valid;
    CountsAre(a);
    ghost var now := a.AllRanges();
    assert forall i :: 0 <= i < |a.lists| ==> a.All()[i] == a.lists[i];
    var block;
    n, block, from := a.NewBlocks(start, left);
    more := pages;
    if n > 0 {
      CountsAre(a);
      assert a.All()[from] == a.lists[from];
      TakenTotal(now[from], a.AllRanges()[from], block, n);
      TookMore(was, now, pages, from, a.lists[from].Ranges(), block, n);
      more := pages + RunSeq(block, n);
    }
  }

  /** Takes `num` pages out of the lists, or none if no processor's list has so many. */
  method TakePages(a: BlockAllocator, start: nat, num: nat) returns (pages: seq<nat>)
    requires a.Valid() && start < |a.lists| && 0 < num
    modifies a.All()
    ensures a.Valid() && |pages| == (if NoneEnough(old(a.AllRanges()), |a.lists|, num) then 0 else num)
    ensures TookPages(old(a.AllRanges()), a.AllRanges(), pages)
    ensures pages == [] ==> a.AllRanges() == old(a.AllRanges())
  {
    hide FreeIn, FreeLists.Holds, Taken, FreeLists.Total, AllSeparate, TookPages, FreeList.Valid;
    ghost var was := a.AllRanges();
    TookNone(was);
    pages := [];
    var left: nat := num;
    ghost var from: nat := 0;
    while left > 0
      invariant a.Valid() && |pages| + left == num && TookPages(was, a.AllRanges(), pages) && from < |a.lists|
      invariant if left == num then a.AllRanges() == was
                else !NoneEnough(was, |a.lists|, num) && FreeLists.Total(a.AllRanges()[from]) >= left
    {
      var n;
      ghost var from';
      n, pages, from' := TakeSome(a, start, left, pages, was);
      if n == 0 {
        break;
      }
      from := from';
      left := left - n;
    }
  }

  // ----- saving ------------------------------------------------------------------------------------------

  function LowHighs(s: seq<Range>): seq<LowHigh> {
    seq(|s|, i requires 0 <= i < |s| => LowHigh(s[i].low, s[i].high))
  }

  function OnMedia(all: seq<seq<Range>>): seq<seq<LowHigh>> {
    seq(|all|, i requires 0 <= i < |all| => LowHighs(all[i]))
  }

  lemma {:induction false} NodesAreEntries(all: seq<seq<Range>>, n: nat)
    requires n <= |all|
    ensures RangeLog.Total(OnMedia(all), n) == Nodes(all[..n])
    decreases n
  {
    if n > 0 {
      NodesAreEntries(all, n - 1);
      assert all[..n][..n - 1] == all[..n - 1];
    }
  }

  /** Counts the nodes of all lists. */
  method CountNodes(a: BlockAllocator) returns (count: nat)
    requires a.Valid()
    ensures count == Nodes(a.AllRanges())
  {
    CountsAre(a);
    ghost var all := a.AllRanges();
    count := 0;
    assert all[..0] == [];
    for i := 0 to |a.lists|
      invariant count == Nodes(all[..i])
    {
      assert all[..i + 1][..i] == all[..i] && a.All()[i] == a.lists[i];
      count := count + a.lists[i].numNodes;
    }
    var n := |a.lists|;
    assert all[..n + 1] == all && all[..n] == all[..|all| - 1] && a.All()[n] == a.shared;
    count := count + a.shared.numNodes;
  }

  /** The ranges of all lists, in order. */
  method ReadLists(a: BlockAllocator) returns (lists: seq<seq<LowHigh>>)
    requires a.Valid()
    ensures lists == OnMedia(a.AllRanges())
  {
    lists := [];
    ghost var all := OnMedia(a.AllRanges());
    for i := 0 to |a.lists|
      invariant lists == all[..i]
    {
      assert a.All()[i] == a.lists[i];
      lists := lists + [LowHighs(Inorder(a.lists[i].tree))];
    }
    assert a.All()[|a.lists|] == a.shared;
    lists := lists + [LowHighs(Inorder(a.shared.tree))];
  }

  /** Saves the free lists: counts the nodes, takes the pages for them out of the lists,
      and writes what is left in the lists.  Taking pages never adds a node, so they
      suffice.  Fails if and only if there is nothing to save or no processor's list has
      the pages; then nothing changes. */
  method SaveBlocknodeMappings(a: BlockAllocator, media: Media, start: nat)
    returns (ok: bool, media': Media, tail: Pos, pages: seq<nat>)
    requires a.Valid() && start < |a.lists|
    modifies a.All()
    ensures a.Valid() && TookPages(old(a.AllRanges()), a.AllRanges(), pages)
    ensures var num := PagesFor(Nodes(old(a.AllRanges())));
            ok <==> num > 0 && !NoneEnough(old(a.AllRanges()), |a.lists|, num)
    ensures !ok ==> pages == [] && a.AllRanges() == old(a.AllRanges())
    ensures ok ==>
              var es := Entries(OnMedia(a.AllRanges()), |a.AllRanges()|, false);
              Contains(media', es) && tail == RangeLog.Before(|es|)
  {
    hide FreeIn, FreeLists.Holds, FreeLists.Total, AllSeparate, TookPages, NoneEnough, PagesFor, Contains, Entries,
         OnMedia,
         BlockAllocator.Valid, FreeList.Valid;
    ghost var was := a.AllRanges();
    TookNone(was);
    ok, media', tail, pages := false, media, Pos(0, 0), [];
    var count := CountNodes(a);
    var num := PagesFor(count);
    if num == 0 {
      return;
    }
    pages := TakePages(a, start, num);
    if |pages| != num {
      return;
    }
    var lists := ReadLists(a);
    PagesSuffice(was, a.AllRanges(), pages);
    ok, media', tail := SaveAll(media, num, lists, false);
  }

  lemma TookNone(all: seq<seq<Range>>)
    ensures TookPages(all, all, [])
  {
  }

  lemma PagesSuffice(was: seq<seq<Range>>, now: seq<seq<Range>>, pages: seq<nat>)
    requires TookPages(was, now, pages)
    ensures |OnMedia(now)| == |now| && PagesFor(RangeLog.Total(OnMedia(now), |now|)) <= PagesFor(Nodes(was))
  {
    NodesAreEntries(now, |now|);
    assert now[..|now|] == now;
    MorePages(Nodes(now), Nodes(was));
  }

  // ----- what is on media --------------------------------------------------------------------------------

  predicate In(e: LowHigh, x: nat) {
    e.low <= x <= e.high
  }

  ghost predicate Covered(es: seq<LowHigh>, x: nat) {
    exists n :: 0 <= n < |es| && In(es[n], x)
  }

  ghost predicate Clear(e: LowHigh, f: LowHigh) {
    e.high < f.low || f.high < e.low
  }

  /** Entries that are not empty, do not overlap and leave block 0 out. */
  ghost predicate Entered(es: seq<LowHigh>) {
    && (forall n :: 0 <= n < |es| ==> 0 < es[n].low <= es[n].high)
    && (forall m, n :: 0 <= m < n < |es| ==> Clear(es[m], es[n]))
  }

  lemma CoveredConcat(a: seq<LowHigh>, b: seq<LowHigh>, x: nat)
    ensures Covered(a + b, x) <==> Covered(a, x) || Covered(b, x)
  {
    var all := a + b;
    if Covered(a, x) {
      var n :| 0 <= n < |a| && In(a[n], x);
      assert In(all[n], x);
    }
    if Covered(b, x) {
      var n :| 0 <= n < |b| && In(b[n], x);
      assert In(all[|a| + n], x);
    }
    if Covered(all, x) {
      var n :| 0 <= n < |all| && In(all[n], x);
      assert if n < |a| then In(a[n], x) else In(b[n - |a|], x);
    }
  }

  lemma CoveredList(s: seq<Range>, x: nat)
    ensures Covered(LowHighs(s), x) <==> FreeLists.Holds(s, x)
  {
    var es := LowHighs(s);
    if Covered(es, x) {
      var n :| 0 <= n < |es| && In(es[n], x);
      assert Has(s[n], x);
    }
    if FreeLists.Holds(s, x) {
      var n :| 0 <= n < |s| && Has(s[n], x);
      assert In(es[n], x);
    }
  }

  /** The entries cover exactly the free blocks. */
  lemma {:induction false} EntriesCover(all: seq<seq<Range>>, n: nat, x: nat)
    requires n <= |all|
    ensures Covered(Entries(OnMedia(all), n, false), x) <==> FreeIn(all[..n], x)
    decreases n
  {
    if n > 0 {
      EntriesCover(all, n - 1, x);
      CoveredConcat(Entries(OnMedia(all), n - 1, false), LowHighs(all[n - 1]), x);
      CoveredList(all[n - 1], x);
      assert forall i :: 0 <= i < n - 1 ==> all[..n - 1][i] == all[..n][i];
      if FreeIn(all[..n - 1], x) {
        var i :| 0 <= i < n - 1 && FreeLists.Holds(all[..n - 1][i], x);
        assert FreeLists.Holds(all[..n][i], x);
      }
      if FreeLists.Holds(all[n - 1], x) {
        assert FreeLists.Holds(all[..n][n - 1], x);
      }
    }
  }

  lemma ListEntered(s: seq<Range>)
    requires Spaced(s, 0) && !FreeLists.Holds(s, 0)
    ensures Entered(LowHighs(s))
  {
    var es := LowHighs(s);
    forall n | 0 <= n < |es| ensures 0 < es[n].low <= es[n].high {
      assert !Has(s[n], 0);
    }
    forall m, n | 0 <= m < n < |es| ensures Clear(es[m], es[n]) {
      assert Gap(s, m, n, 0);
    }
  }

  lemma EnteredConcat(a: seq<LowHigh>, b: seq<LowHigh>)
    requires Entered(a) && Entered(b) && forall x: nat :: Covered(a, x) ==> !Covered(b, x)
    ensures Entered(a + b)
  {
    var all := a + b;
    forall m, n | 0 <= m < n < |all| ensures Clear(all[m], all[n]) {
      if m < |a| <= n {
        var e, f := a[m], b[n - |a|];
        if !Clear(e, f) {
          var x := if e.low < f.low then f.low else e.low;
          assert In(e, x) && In(f, x);
          assert Covered(a, x) && Covered(b, x);
        }
      } else {
        assert m < |a| ==> Clear(a[m], a[n]);
        assert m >= |a| ==> Clear(b[m - |a|], b[n - |a|]);
      }
    }
  }

  lemma {:induction false} EntriesEntered(all: seq<seq<Range>>, n: nat)
    requires n <= |all| && AllSeparate(all) && forall i :: 0 <= i < |all| ==> Spaced(all[i], 0)
    ensures Entered(Entries(OnMedia(all), n, false))
    decreases n
  {
    if n > 0 {
      EntriesEntered(all, n - 1);
      var a, b := Entries(OnMedia(all), n - 1, false), LowHighs(all[n - 1]);
      ListEntered(all[n - 1]);
      forall x: nat | Covered(a, x) ensures !Covered(b, x) {
        EntriesCover(all, n - 1, x);
        CoveredList(all[n - 1], x);
        var i :| 0 <= i < n - 1 && FreeLists.Holds(all[..n - 1][i], x);
        assert Separate(all[i], all[n - 1]);
      }
      EnteredConcat(a, b);
    }
  }

  // ----- loading -----------------------------------------------------------------------------------------

  /** An identity that no node has. */
  method NewNode(b: BlockAllocator) returns (id: nat)
    requires b.Valid()
    ensures forall i :: 0 <= i < |b.AllRanges()| ==> !Live(b.AllRanges()[i], id)
  {
    id := 0;
    for i := 0 to |b.lists|
      invariant forall x, r :: 0 <= x < i && r in b.lists[x].Ranges() ==> r.id < id
    {
      id := Above(Inorder(b.lists[i].tree), id);
    }
    id := Above(Inorder(b.shared.tree), id);
    forall i | 0 <= i < |b.AllRanges()| ensures !Live(b.AllRanges()[i], id) {
      assert b.AllRanges()[i] == b.All()[i].Ranges();
      var s := b.AllRanges()[i];
      forall j | 0 <= j < |s| ensures s[j].id != id {
        assert s[j] in s;
      }
    }
  }

  method Above(s: seq<Range>, low: nat) returns (id: nat)
    ensures low <= id && forall r :: r in s ==> r.id < id
  {
    id := low;
    for i := 0 to |s|
      invariant low <= id && forall x :: 0 <= x < i ==> s[x].id < id
    {
      if s[i].id >= id {
        id := s[i].id + 1;
      }
    }
  }

  ghost predicate NoPointers(b: BlockAllocator)
    reads b.All()
  {
    forall i :: 0 <= i < |b.All()| ==> b.All()[i].pNode.None?
  }

  /** List `at` has the blocks low .. high as well; the other lists are as they were. */
  ghost predicate OneGrew(was: seq<seq<Range>>, now: seq<seq<Range>>, at: nat, low: nat, high: nat) {
    && at < |was| == |now| && now == was[at := now[at]]
    && forall x: nat :: FreeLists.Holds(now[at], x) <==> FreeLists.Holds(was[at], x) || low <= x <= high
  }

  lemma HasAll(b: BlockAllocator)
    requires b.Valid()
    ensures |b.AllRanges()| == |b.All()| == |b.lists| + 1
  {
  }

  /** Block x belongs to an entry whose first block lies in part i. */
  ghost predicate CoveredIn(es: seq<LowHigh>, i: nat, x: nat, cpus: Positive, perList: Positive) {
    exists n :: 0 <= n < |es| && In(es[n], x) && PartOf(es[n].low, cpus, perList) == i
  }

  /** Each list holds exactly the entries whose first block lies in its part. */
  ghost predicate ListsHold(all: seq<seq<Range>>, es: seq<LowHigh>, cpus: Positive, perList: Positive) {
    forall i, x: nat :: 0 <= i < |all| ==> (FreeLists.Holds(all[i], x) <==> CoveredIn(es, i, x, cpus, perList))
  }

  lemma OneMoreHeld(was: seq<seq<Range>>, now: seq<seq<Range>>, es: seq<LowHigh>, n: nat, cpus: Positive,
                    perList: Positive)
    requires n < |es| && ListsHold(was, es[..n], cpus, perList)
    requires OneGrew(was, now, PartOf(es[n].low, cpus, perList), es[n].low, es[n].high)
    ensures ListsHold(now, es[..n + 1], cpus, perList)
  {
    var some, more, at := es[..n], es[..n + 1], PartOf(es[n].low, cpus, perList);
    hide PartOf, FreeLists.Holds;
    assert forall m :: 0 <= m < n ==> some[m] == more[m] && more[n] == es[n];
    forall i, x: nat | 0 <= i < |now|
      ensures FreeLists.Holds(now[i], x) <==> CoveredIn(more, i, x, cpus, perList)
    {
      assert FreeLists.Holds(was[i], x) <==> CoveredIn(some, i, x, cpus, perList);
      if CoveredIn(some, i, x, cpus, perList) {
        var m :| 0 <= m < |some| && In(some[m], x) && PartOf(some[m].low, cpus, perList) == i;
        assert In(more[m], x) && PartOf(more[m].low, cpus, perList) == i;
      }
      if CoveredIn(more, i, x, cpus, perList) {
        var m :| 0 <= m < |more| && In(more[m], x) && PartOf(more[m].low, cpus, perList) == i;
        assert m < n ==> In(some[m], x);
      }
      if i == at && In(es[n], x) {
        assert In(more[n], x) && PartOf(more[n].low, cpus, perList) == i;
      }
    }
  }

  /** Puts one entry into the list of its first block. */
  method LoadOne(b: BlockAllocator, e: LowHigh, id: nat)
    requires b.Valid() && NoPointers(b) && 0 < e.low <= e.high
    requires forall i :: 0 <= i < |b.AllRanges()| ==> !Live(b.AllRanges()[i], id)
    requires forall x: nat :: In(e, x) ==> !FreeIn(b.AllRanges(), x)
    modifies b.All()
    ensures b.Valid() && NoPointers(b)
    ensures forall x: nat :: FreeIn(b.AllRanges(), x) <==> FreeIn(old(b.AllRanges()), x) || In(e, x)
    ensures OneGrew(old(b.AllRanges()), b.AllRanges(), PartOf(e.low, |b.lists|, b.perList), e.low, e.high)
  {
    hide FreeIn, FreeLists.Holds, FreeList.Valid, FreeList.Ranges, AllSeparate, Live, OneGrew, BlockAllocator.AllRanges;
    var cpuid := e.low / b.perList;
    var list := if cpuid >= |b.lists| then b.shared else b.lists[cpuid];
    ghost var at := if cpuid >= |b.lists| then |b.lists| else cpuid;
    assert b.All()[at] == list;
    NotFree(b.AllRanges(), e);
    HasAll(b);
    LoadInto(b, list, at, e, id);
  }

  lemma NotFree(all: seq<seq<Range>>, e: LowHigh)
    requires forall x: nat :: In(e, x) ==> !FreeIn(all, x)
    ensures forall i, x: nat :: 0 <= i < |all| && e.low <= x <= e.high ==> !FreeLists.Holds(all[i], x)
  {
    forall i, x: nat | 0 <= i < |all| && e.low <= x <= e.high ensures !FreeLists.Holds(all[i], x) {
      assert In(e, x) && !FreeIn(all, x);
    }
  }

  method LoadInto(b: BlockAllocator, list: FreeList, ghost at: nat, e: LowHigh, id: nat)
    requires b.Valid() && NoPointers(b) && 0 < e.low <= e.high && at < |b.All()| && b.All()[at] == list
    requires !Live(b.AllRanges()[at], id)
    requires forall i, x: nat :: 0 <= i < |b.All()| && e.low <= x <= e.high ==> !FreeLists.Holds(b.AllRanges()[i], x)
    modifies b.All()
    ensures b.Valid() && NoPointers(b)
    ensures forall x: nat :: FreeIn(b.AllRanges(), x) <==> FreeIn(old(b.AllRanges()), x) || In(e, x)
    ensures OneGrew(old(b.AllRanges()), b.AllRanges(), at, e.low, e.high)
  {
    hide AllSeparate, FreeIn, FreeList.Valid, FreeList.Ranges, Misses, Live, FreeLists.Holds;
    ghost var was := b.AllRanges();
    assert was[at] == list.Ranges();
    EntryMisses(list, e);
    list.LoadNode(Range(id, e.low, e.high));
    AddedSeparate(was, at, list.Ranges(), e.low, e.high);
    b.OneChanged(was, at);
    AddedFree(was, at, list.Ranges(), e.low, e.high);
    ghost var now := b.AllRanges();
    assert now == was[at := list.Ranges()];
    forall x: nat ensures FreeIn(now, x) <==> FreeIn(was, x) || In(e, x) {
      assert FreeIn(was[at := list.Ranges()], x) <==> FreeIn(was, x) || e.low <= x <= e.high;
    }
  }

  lemma EntryMisses(list: FreeList, e: LowHigh)
    requires list.Valid() && e.low <= e.high && forall x: nat :: In(e, x) ==> !FreeLists.Holds(list.Ranges(), x)
    ensures Misses(list.Ranges(), e.low, e.high)
  {
    MissesFree(list, e.low, e.high - e.low + 1);
  }

  /** Reads entry n and puts it into its list. */
  method LoadNext(b: BlockAllocator, media: Media, curr: Pos, ghost es: seq<LowHigh>, ghost n: nat) returns (curr': Pos)
    requires Contains(media, es) && Entered(es) && n < |es| && curr == RangeLog.Before(n)
    requires b.Valid() && NoPointers(b) && forall x: nat :: FreeIn(b.AllRanges(), x) <==> Covered(es[..n], x)
    requires ListsHold(b.AllRanges(), es[..n], |b.lists|, b.perList)
    modifies b.All()
    ensures b.Valid() && NoPointers(b) && curr' == RangeLog.Before(n + 1)
    ensures forall x: nat :: FreeIn(b.AllRanges(), x) <==> Covered(es[..n + 1], x)
    ensures ListsHold(b.AllRanges(), es[..n + 1], |b.lists|, b.perList)
  {
    HasLists(b);
    hide Contains, PlaceOf, RangeLog.Before, FreeIn, Covered, BlockAllocator.Valid, FreeList.Valid, Entered, NoPointers,
         FreeList.Ranges, Live, ListsHold, OneGrew;
    StepsToEntry(n);
    var p := Step(curr);
    var e := Get(media, p);
    EntryAt(media, es, n);
    NextEntry(es, n);
    var id := NewNode(b);
    ghost var was := b.AllRanges();
    LoadOne(b, e, id);
    OneMoreHeld(was, b.AllRanges(), es, n, |b.lists|, b.perList);
    curr' := Pos(p.page, p.off + ENTRY_SIZE);
  }

  method LoadEntries(b: BlockAllocator, media: Media, tail: Pos, ghost es: seq<LowHigh>)
    requires Contains(media, es) && tail == RangeLog.Before(|es|) && Entered(es)
    requires b.Valid() && NoPointers(b) && forall x: nat :: !FreeIn(b.AllRanges(), x)
    modifies b.All()
    ensures b.Valid() && forall x: nat :: FreeIn(b.AllRanges(), x) <==> Covered(es, x)
    ensures ListsHold(b.AllRanges(), es, |b.lists|, b.perList)
  {
    HasLists(b);
    HoldNone(b.AllRanges(), es, |b.lists|, b.perList);
    CoversNone(es);
    FirstPlace();
    hide Contains, PlaceOf, RangeLog.Before, FreeIn, Covered, BlockAllocator.Valid, FreeList.Valid, Entered, NoPointers,
         FreeList.Ranges, BlockAllocator.AllRanges, ListsHold;
    var curr := Pos(0, 0);
    ghost var n: nat := 0;
    while curr != tail
      invariant n <= |es| && curr == RangeLog.Before(n) && b.Valid() && NoPointers(b)
      invariant forall x: nat :: FreeIn(b.AllRanges(), x) <==> Covered(es[..n], x)
      invariant 0 < |b.lists| && 0 < b.perList && ListsHold(b.AllRanges(), es[..n], |b.lists|, b.perList)
      decreases |es| - n
    {
      curr := LoadNext(b, media, curr, es, n);
      n := n + 1;
    }
    if n != |es| {
      PlacesDiffer(n, |es|);
    }
    assert es[..|es|] == es;
  }

  lemma HoldNone(all: seq<seq<Range>>, es: seq<LowHigh>, cpus: Positive, perList: Positive)
    requires forall x: nat :: !FreeIn(all, x)
    ensures ListsHold(all, es[..0], cpus, perList)
  {
    forall i, x: nat | 0 <= i < |all| ensures !FreeLists.Holds(all[i], x) {
      assert !FreeIn(all, x);
    }
  }

  /** Loads the free lists: each entry goes to the list of its first block, whichever list
      it was saved from. */
  method InitBlockmapFromInode(media: Media, tail: Pos, cpus: nat, perList: nat, ghost es: seq<LowHigh>)
    returns (b: BlockAllocator)
    requires Contains(media, es) && tail == RangeLog.Before(|es|) && Entered(es) && 0 < cpus && 0 < perList
    ensures fresh(b.All()) && b.Valid() && |b.lists| == cpus && b.perList == perList
    ensures forall x: nat :: FreeIn(b.AllRanges(), x) <==> Covered(es, x)
    ensures ListsHold(b.AllRanges(), es, cpus, perList)
  {
    hide Contains, RangeLog.Before, FreeIn, Covered, BlockAllocator.Valid, FreeList.Valid, Entered, NoPointers,
         FreeList.Ranges, ListsHold;
    b := new BlockAllocator.Blank(cpus, perList);
    BlankHasNone(b.AllRanges());
    StartsBlank(b);
    LoadEntries(b, media, tail, es);
  }

  lemma FirstPlace()
    ensures RangeLog.Before(0) == Pos(0, 0)
  {
  }

  lemma BlankHasNone(all: seq<seq<Range>>)
    requires forall i :: 0 <= i < |all| ==> all[i] == []
    ensures forall x: nat :: !FreeIn(all, x)
  {
  }

  lemma StartsBlank(b: BlockAllocator)
    requires forall i :: 0 <= i < |b.All()| ==> b.All()[i].pNode.None?
    ensures NoPointers(b)
  {
  }

  lemma CoversNone(es: seq<LowHigh>)
    ensures forall x: nat :: !Covered(es[..0], x)
  {
  }

  /** The next entry is clear of those before it. */
  lemma NextEntry(es: seq<LowHigh>, n: nat)
    requires Entered(es) && n < |es|
    ensures 0 < es[n].low <= es[n].high && forall x: nat :: In(es[n], x) ==> !Covered(es[..n], x)
    ensures forall x: nat :: Covered(es[..n + 1], x) <==> Covered(es[..n], x) || In(es[n], x)
  {
    forall x: nat
      ensures In(es[n], x) ==> !Covered(es[..n], x)
      ensures Covered(es[..n + 1], x) <==> Covered(es[..n], x) || In(es[n], x)
    {
      assert es[..n + 1] == es[..n] + [es[n]];
      CoveredConcat(es[..n], [es[n]], x);
      assert In(es[n], x) ==> In([es[n]][0], x);
      if Covered(es[..n], x) {
        var m :| 0 <= m < n && In(es[..n][m], x);
        assert Clear(es[m], es[n]);
      }
    }
  }

  // ----- freeing the log ---------------------------------------------------------------------------------

  /** Gives one run of pages back. */
  method FreePages(b: BlockAllocator, block: nat, n: nat)
    requires b.Valid() && 0 < n && 0 < block && forall x: nat :: block <= x < block + n ==> !FreeIn(b.AllRanges(), x)
    modifies b.All()
    ensures b.Valid()
    ensures forall x: nat :: FreeIn(b.AllRanges(), x) <==> FreeIn(old(b.AllRanges()), x) || block <= x < block + n
    ensures OneGrew(old(b.AllRanges()), b.AllRanges(), PartOf(block, |b.lists|, b.perList), block, block + n - 1)
  {
    hide FreeIn, FreeLists.Holds, Live, BlockAllocator.Valid, FreeList.Valid, FreeList.Ranges, Added,
         BlockAllocator.AllRanges;
    ghost var was := b.AllRanges();
    var id := NewNode(b);
    NotFree(was, LowHigh(block, block + n - 1));
    HasAll(b);
    HasLists(b);
    var ok;
    ghost var at;
    ok, at := b.FreeRun(block, n, id);
    ghost var t := b.All()[at].Ranges();
    AddedHolds(was[at], t, block, block + n - 1);
    AddedFree(was, at, t, block, block + n - 1);
    assert b.AllRanges() == was[at := t];
  }

  /** The pages `freed` have been freed, run by run, each run to the list of its first
      page. */
  ghost predicate FreedTo(was: seq<seq<Range>>, now: seq<seq<Range>>, pages: seq<nat>, n: nat, cpus: Positive,
                          perList: Positive)
    requires n <= |pages|
  {
    && |now| == |was|
    && forall i, x: nat :: 0 <= i < |was| ==> (FreeLists.Holds(now[i], x) <==>
         FreeLists.Holds(was[i], x) || InList(RunStarts(pages, n), i, x, cpus, perList))
  }

  ghost predicate InList(starts: map<nat, nat>, i: nat, x: nat, cpus: Positive, perList: Positive) {
    x in starts && PartOf(starts[x], cpus, perList) == i
  }

  ghost predicate FreedSoFar(was: seq<seq<Range>>, now: seq<seq<Range>>, freed: seq<nat>) {
    forall x: nat :: FreeIn(now, x) <==> FreeIn(was, x) || x in freed
  }

  /** One more run. */
  lemma OneMoreFreed(was: seq<seq<Range>>, now: seq<seq<Range>>, next: seq<seq<Range>>, pages: seq<nat>, n: nat,
                     start: nat, num: nat, cpus: Positive, perList: Positive)
    requires IsRun(pages, n, start, num) && 0 < num <= n <= |pages| && Distinct(pages)
    requires FreedTo(was, now, pages, n - num, cpus, perList)
    requires OneGrew(now, next, PartOf(start, cpus, perList), start, start + num - 1)
    ensures FreedTo(was, next, pages, n, cpus, perList)
  {
    hide RunStarts, PartOf, FreeLists.Holds, Run, IsRun, Distinct;
    RunStartsRun(pages, n, start, num);
    var before, after := RunStarts(pages, n - num), RunStarts(pages, n);
    forall i, x: nat | 0 <= i < |was|
      ensures FreeLists.Holds(next[i], x) <==>
              FreeLists.Holds(was[i], x) || InList(after, i, x, cpus, perList)
    {
      RunHas(start, num, x);
      StartsAre(pages, n - num, x);
      RunIs(pages, n, start, num, x);
      assert FreeLists.Holds(now[i], x) <==> FreeLists.Holds(was[i], x) || InList(before, i, x, cpus, perList);
    }
  }

  lemma {:induction false} StartsAre(pages: seq<nat>, n: nat, x: nat)
    requires n <= |pages|
    ensures x in RunStarts(pages, n) <==> x in pages[..n]
    decreases n
  {
    if n > 0 {
      StartsAre(pages, n - 1, x);
      assert pages[..n] == pages[..n - 1] + [pages[n - 1]];
    }
  }

  lemma RunIs(pages: seq<nat>, n: nat, start: nat, num: nat, x: nat)
    requires IsRun(pages, n, start, num) && Distinct(pages)
    ensures x in pages[..n] <==> x in pages[..n - num] || start <= x < start + num
    ensures start <= x < start + num ==> x in pages && x !in pages[..n - num]
  {
    assert pages[..n] == pages[..n - num] + pages[n - num..n];
    if start <= x < start + num {
      var i := n - num + (x - start);
      assert pages[i] == x && pages[n - num..n][x - start] == x;
    }
    if x in pages[n - num..n] {
      var i :| 0 <= i < num && pages[n - num..n][i] == x;
      assert pages[n - num + i] == x;
    }
  }

  /** The first n pages but the last `num` have been freed. */
  ghost predicate Freeing(b: BlockAllocator, was: seq<seq<Range>>, pages: seq<nat>, n: nat)
    requires b.Valid() && n <= |pages|
    reads b, b.All()
  {
    FreedSoFar(was, b.AllRanges(), pages[..n]) && FreedTo(was, b.AllRanges(), pages, n, |b.lists|, b.perList)
  }

  /** Frees the run that waits. */
  method FreeWaiting(b: BlockAllocator, pages: seq<nat>, ghost n: nat, start: nat, num: nat, ghost was: seq<seq<Range>>)
    requires b.Valid() && IsRun(pages, n, start, num) && 0 < num <= n <= |pages| && 0 < start && Distinct(pages)
    requires Freeing(b, was, pages, n - num)
    requires forall x :: x in pages ==> !FreeIn(was, x)
    modifies b.All()
    ensures b.Valid() && Freeing(b, was, pages, n)
  {
    hide FreeIn, BlockAllocator.Valid, BlockAllocator.AllRanges, FreedTo, OneGrew, IsRun;
    forall x: nat ensures x in pages[..n] <==> x in pages[..n - num] || start <= x < start + num
                  ensures start <= x < start + num ==> x in pages && x !in pages[..n - num] {
      RunIs(pages, n, start, num, x);
    }
    HasLists(b);
    ghost var now := b.AllRanges();
    FreePages(b, start, num);
    OneMoreFreed(was, now, b.AllRanges(), pages, n, start, num, |b.lists|, b.perList);
  }

  lemma NothingFreed(b: BlockAllocator, pages: seq<nat>)
    requires b.Valid()
    ensures Freeing(b, b.AllRanges(), pages, 0) && IsRun(pages, 0, 0, 0)
  {
  }

  /** Frees the pages of the log; pages next to each other go back as one run, to the list
      of the first of them. */
  method FreeInodeLog(b: BlockAllocator, pages: seq<nat>)
    requires b.Valid() && Distinct(pages) && 0 !in pages && forall x :: x in pages ==> !FreeIn(b.AllRanges(), x)
    modifies b.All()
    ensures b.Valid() && FreedSoFar(old(b.AllRanges()), b.AllRanges(), pages)
    ensures FreedTo(old(b.AllRanges()), b.AllRanges(), pages, |pages|, |b.lists|, b.perList)
  {
    hide FreeIn, BlockAllocator.Valid, BlockAllocator.AllRanges, FreedTo, FreedSoFar, IsRun, Freeing;
    ghost var was := b.AllRanges();
    var n: nat, start: nat, num: nat := 0, 0, 0;
    NothingFreed(b, pages);
    while n < |pages|
      invariant n <= |pages| && num <= n && (n > 0 ==> num > 0) && (num == 0 <==> start == 0)
      invariant b.Valid() && IsRun(pages, n, start, num) && Freeing(b, was, pages, n - num)
    {
      var block := pages[n];
      assert block in pages;
      NextOfRun(pages, n, start, num);
      if start == 0 {
        start, num := block, 1;
      } else if block == start + num {
        num := num + 1;
      } else {
        FreeWaiting(b, pages, n, start, num, was);
        start, num := block, 1;
      }
      n := n + 1;
    }
    if start != 0 {
      FreeWaiting(b, pages, n, start, num, was);
    }
    AllFreed(b, was, pages);
  }

  lemma AllFreed(b: BlockAllocator, was: seq<seq<Range>>, pages: seq<nat>)
    requires b.Valid() && Freeing(b, was, pages, |pages|)
    ensures FreedSoFar(was, b.AllRanges(), pages)
    ensures 0 < |b.lists| && 0 < b.perList && FreedTo(was, b.AllRanges(), pages, |pages|, |b.lists|, b.perList)
  {
    assert pages[..|pages|] == pages;
  }

  // ----- the round trip ----------------------------------------------------------------------------------

  lemma HasNotZero(a: BlockAllocator)
    requires a.Valid()
    ensures !FreeIn(a.AllRanges(), 0)
  {
    var all := a.AllRanges();
    assert forall i :: 0 <= i < |all| ==> !FreeLists.Holds(all[i], 0);
  }

  lemma WhatIsSaved(all: seq<seq<Range>>)
    ensures forall x: nat :: Covered(Entries(OnMedia(all), |all|, false), x) <==> FreeIn(all, x)
  {
    forall x: nat ensures Covered(Entries(OnMedia(all), |all|, false), x) <==> FreeIn(all, x) {
      EntriesCover(all, |all|, x);
      assert all[..|all|] == all;
    }
  }

  /** How many blocks are free. */
  function FreeCount(all: seq<seq<Range>>): nat {
    if all == [] then 0 else FreeCount(all[..|all| - 1]) + FreeLists.Total(all[|all| - 1])
  }

  ghost function FreeSet(all: seq<seq<Range>>): set<nat> {
    if all == [] then {} else FreeSet(all[..|all| - 1]) + SetOf(all[|all| - 1])
  }

  lemma {:induction false} FreeSetHas(all: seq<seq<Range>>, x: nat)
    ensures x in FreeSet(all) <==> FreeIn(all, x)
    decreases |all|
  {
    if all != [] {
      var n := |all| - 1;
      FreeSetHas(all[..n], x);
      SetOfHolds(all[n], x);
      assert forall i :: 0 <= i < n ==> all[..n][i] == all[i];
      if FreeIn(all[..n], x) {
        var i :| 0 <= i < n && FreeLists.Holds(all[..n][i], x);
        assert FreeLists.Holds(all[i], x);
      }
      if FreeLists.Holds(all[n], x) {
        assert FreeIn(all, x);
      }
    }
  }

  lemma {:induction false} CountIsSize(all: seq<seq<Range>>)
    requires AllSeparate(all) && forall i :: 0 <= i < |all| ==> Spaced(all[i], 0)
    ensures FreeCount(all) == |FreeSet(all)|
    decreases |all|
  {
    if all != [] {
      var n := |all| - 1;
      assert forall i :: 0 <= i < n ==> all[..n][i] == all[i];
      CountIsSize(all[..n]);
      SpacedApart(all[n]);
      TotalIsSize(all[n]);
      forall x | x in FreeSet(all[..n]) ensures x !in SetOf(all[n]) {
        FreeSetHas(all[..n], x);
        SetOfHolds(all[n], x);
        var i :| 0 <= i < n && FreeLists.Holds(all[..n][i], x);
        assert Separate(all[i], all[n]);
      }
      DisjointSize(FreeSet(all[..n]), SetOf(all[n]));
    }
  }

  /** Lists with the same blocks count the same. */
  lemma SameCount(a: BlockAllocator, all: seq<seq<Range>>)
    requires a.Valid() && AllSeparate(all) && forall i :: 0 <= i < |all| ==> Spaced(all[i], 0)
    requires SameFree(a.AllRanges(), all)
    ensures FreeCount(a.AllRanges()) == FreeCount(all)
  {
    CountsAre(a);
    CountIsSize(a.AllRanges());
    CountIsSize(all);
    forall x: nat ensures x in FreeSet(a.AllRanges()) <==> x in FreeSet(all) {
      FreeSetHas(a.AllRanges(), x);
      FreeSetHas(all, x);
    }
    assert FreeSet(a.AllRanges()) == FreeSet(all);
  }

  /** A clean unmount and the mount after it.  The lists can be saved unless they are
      empty or no processor's list has the pages.  Then the same blocks are free as
      before, and as many, no block is in two lists, and every counter is right.
      Otherwise the lists are as they were, nothing is saved, and the next mount scans. */
  method UnmountAndMount(a: BlockAllocator, media: Media, start: nat) returns (ok: bool, b: BlockAllocator)
    requires a.Valid() && start < |a.lists|
    modifies a.All()
    ensures b.Valid() && |b.lists| == |a.lists| && b.perList == a.perList && (ok ==> fresh(b.All()))
    ensures var num := PagesFor(Nodes(old(a.AllRanges())));
            ok <==> num > 0 && !NoneEnough(old(a.AllRanges()), |a.lists|, num)
    ensures SameFree(b.AllRanges(), old(a.AllRanges())) && FreeCount(b.AllRanges()) == FreeCount(old(a.AllRanges()))
    ensures if ok then InRunLists(b.AllRanges(), |b.lists|, b.perList) else b.AllRanges() == old(a.AllRanges())
  {
    hide SameFree, TookPages, FreedSoFar, BlockAllocator.Valid, InRunLists, FreeIn, BlockAllocator.AllRanges,
         NoneEnough, PagesFor, Contains, Entered, Covered, RangeLog.Before, Entries,
         OnMedia, AllSeparate, FreeList.Valid, FreeCount, Spaced, Nodes;
    ghost var was := a.AllRanges();
    HasNotZero(a);
    ListsInOrder(a);
    HasLists(a);
    var media', tail, pages;
    ok, media', tail, pages := SaveBlocknodeMappings(a, media, start);
    b := a;
    PagesApart(was, a.AllRanges(), pages);
    if ok {
      b := Mount(media', tail, a, pages);
      BackAgain(was, a.AllRanges(), b.AllRanges(), pages);
    }
    SameCount(b, was);
  }

  /** The mount: loads what was saved and frees the log. */
  method Mount(media: Media, tail: Pos, a: BlockAllocator, pages: seq<nat>) returns (b: BlockAllocator)
    requires a.Valid() && Distinct(pages) && 0 !in pages && forall x :: x in pages ==> !FreeIn(a.AllRanges(), x)
    requires var es := Entries(OnMedia(a.AllRanges()), |a.AllRanges()|, false);
             Contains(media, es) && tail == RangeLog.Before(|es|)
    ensures b.Valid() && |b.lists| == |a.lists| && b.perList == a.perList && fresh(b.All())
    ensures FreedSoFar(a.AllRanges(), b.AllRanges(), pages)
    ensures InRunLists(b.AllRanges(), |b.lists|, b.perList)
  {
    hide FreeIn, Contains, Entered, Covered, RangeLog.Before, Entries, LowHighs, AllSeparate,
         FreeList.Valid, Spaced, BlockAllocator.Valid, ListsHold, FreedTo, InRunLists, FreedSoFar,
         FreeList.Ranges;
    ghost var now := a.AllRanges();
    ListsInOrder(a);
    ghost var es := Entries(OnMedia(now), |now|, false);
    EntriesEntered(now, |now|);
    WhatIsSaved(now);
    HasLists(a);
    b := InitBlockmapFromInode(media, tail, |a.lists|, a.perList, es);
    ghost var loaded := b.AllRanges();
    SavedAreLoaded(now, loaded, es, pages);
    FreeInodeLog(b, pages);
    LoadedAndFreed(loaded, b.AllRanges(), es, pages, |b.lists|, b.perList);
    SavedAndFreed(now, loaded, b.AllRanges(), pages);
  }

  lemma ListsInOrder(a: BlockAllocator)
    requires a.Valid()
    ensures AllSeparate(a.AllRanges()) && forall i :: 0 <= i < |a.AllRanges()| ==> Spaced(a.AllRanges()[i], 0)
  {
    forall i | 0 <= i < |a.AllRanges()| ensures Spaced(a.AllRanges()[i], 0) {
      assert a.All()[i].Valid();
    }
  }

  lemma PagesApart(was: seq<seq<Range>>, now: seq<seq<Range>>, pages: seq<nat>)
    requires TookPages(was, now, pages) && !FreeIn(was, 0)
    ensures Distinct(pages) && 0 !in pages && forall x :: x in pages ==> !FreeIn(now, x)
    ensures pages == [] ==> SameFree(now, was)
  {
  }

  lemma BackAgain(was: seq<seq<Range>>, now: seq<seq<Range>>, all: seq<seq<Range>>, pages: seq<nat>)
    requires TookPages(was, now, pages) && FreedSoFar(now, all, pages)
    ensures SameFree(all, was)
  {
  }

  lemma SavedAreLoaded(now: seq<seq<Range>>, loaded: seq<seq<Range>>, es: seq<LowHigh>, pages: seq<nat>)
    requires forall x: nat :: FreeIn(loaded, x) <==> Covered(es, x)
    requires forall x: nat :: Covered(es, x) <==> FreeIn(now, x)
    requires forall x :: x in pages ==> !FreeIn(now, x)
    ensures SameFree(loaded, now) && forall x :: x in pages ==> !FreeIn(loaded, x)
  {
  }

  lemma SavedAndFreed(now: seq<seq<Range>>, loaded: seq<seq<Range>>, freed: seq<seq<Range>>, pages: seq<nat>)
    requires SameFree(loaded, now) && FreedSoFar(loaded, freed, pages)
    ensures FreedSoFar(now, freed, pages)
  {
  }

  /** The blocks s .. x are free. */
  ghost predicate FreeRun(all: seq<seq<Range>>, s: nat, x: nat) {
    s <= x && forall y: nat :: s <= y <= x ==> FreeIn(all, y)
  }

  /** Every free block is in the list of the first block of a free run that it is in. */
  ghost predicate InRunLists(all: seq<seq<Range>>, cpus: Positive, perList: Positive) {
    forall i, x: nat :: 0 <= i < |all| && FreeLists.Holds(all[i], x) ==> StartsIn(all, i, x, cpus, perList)
  }

  ghost predicate StartsIn(all: seq<seq<Range>>, i: nat, x: nat, cpus: Positive, perList: Positive) {
    exists s: nat :: FreeRun(all, s, x) && PartOf(s, cpus, perList) == i
  }

  lemma LoadedAndFreed(loaded: seq<seq<Range>>, all: seq<seq<Range>>, es: seq<LowHigh>, pages: seq<nat>,
                       cpus: Positive, perList: Positive)
    requires ListsHold(loaded, es, cpus, perList) && FreedTo(loaded, all, pages, |pages|, cpus, perList)
    requires FreedSoFar(loaded, all, pages) && forall x: nat :: FreeIn(loaded, x) <==> Covered(es, x)
    ensures InRunLists(all, cpus, perList)
  {
    hide PartOf, FreeLists.Holds, FreeIn, RunStarts;
    forall i, x: nat | 0 <= i < |all| && FreeLists.Holds(all[i], x) ensures StartsIn(all, i, x, cpus, perList) {
      if FreeLists.Holds(loaded[i], x) {
        assert CoveredIn(es, i, x, cpus, perList);
        var n :| 0 <= n < |es| && In(es[n], x) && PartOf(es[n].low, cpus, perList) == i;
        forall y: nat | es[n].low <= y <= x ensures FreeIn(all, y) {
          assert In(es[n], y) && Covered(es, y);
        }
        assert FreeRun(all, es[n].low, x);
      } else {
        var s := RunStarts(pages, |pages|)[x];
        StartsAre(pages, |pages|, x);
        assert pages[..|pages|] == pages;
        RunToStart(pages, |pages|, x);
        assert FreeRun(all, s, x);
      }
    }
  }

  /** From the first page of its run up to a page, all are pages. */
  lemma {:induction false} RunToStart(pages: seq<nat>, n: nat, x: nat)
    requires n <= |pages| && x in RunStarts(pages, n)
    ensures RunStarts(pages, n)[x] <= x && forall y: nat :: RunStarts(pages, n)[x] <= y <= x ==> y in pages
    decreases n
  {
    if x == pages[n - 1] {
      StartBelow(pages, n - 1);
    } else {
      RunToStart(pages, n - 1, x);
    }
  }

  lemma {:induction false} StartBelow(pages: seq<nat>, n: nat)
    requires n < |pages|
    ensures RunStart(pages, n) <= pages[n] && forall y: nat :: RunStart(pages, n) <= y <= pages[n] ==> y in pages
    decreases n
  {
    if n > 0 && pages[n] == pages[n - 1] + 1 {
      StartBelow(pages, n - 1);
    }
  }

  /** Unless the block just below its part is free, a free block is in the list of its own
      part. */
  lemma OwnPart(all: seq<seq<Range>>, i: nat, x: nat, cpus: Positive, perList: Positive)
    requires InRunLists(all, cpus, perList) && i < |all| && FreeLists.Holds(all[i], x) && x / perList < cpus
    requires x / perList == 0 || !FreeIn(all, x / perList * perList - 1)
    ensures i == PartOf(x, cpus, perList)
  {
    hide FreeLists.Holds, FreeIn, PartOf;
    assert StartsIn(all, i, x, cpus, perList);
    var s: nat :| FreeRun(all, s, x) && PartOf(s, cpus, perList) == i;
    SamePart(s, x, cpus, perList);
  }

  lemma SamePart(s: nat, x: nat, cpus: Positive, perList: Positive)
    requires s <= x && x / perList < cpus
    ensures x / perList * perList <= s ==> PartOf(s, cpus, perList) == PartOf(x, cpus, perList)
    ensures 0 <= x / perList * perList <= x
  {
    InPart(x, x / perList, perList);
    InPart(s, x / perList, perList);
  }

  lemma InPart(s: nat, q: nat, d: Positive)
    ensures s / d == q <==> q * d <= s < q * d + d
  {
    var k := s / d;
    assert s == d * k + s % d;
    if k < q {
      assert d * q == d * k + d * (q - k);
      Grows(d, q - k);
    } else if k > q {
      assert d * k == d * q + d * (k - q);
      Grows(d, k - q);
    }
  }

  lemma Grows(d: Positive, n: Positive)
    ensures d * n >= d
  {
  }

  lemma HasLists(a: BlockAllocator)
    requires a.Valid()
    ensures 0 < |a.lists| && 0 < a.perList
  {
  }
}
