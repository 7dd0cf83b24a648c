/** The page index of a file and the counts of invalid pages in its write entries.

In a run without crashes, the pages of a write entry are exactly the slots that
point at it, the pages counted invalid, and the pages still due to be indexed. */
module FileIndex {
  import opened LogPages
  import opened FileReplay
  import opened LogSurgery
  import opened InodeLogs

  type Index = map<nat, Addr>

  /** How many slots of lo .. hi point at `a`. */
  function Slots(tree: Index, a: Addr, lo: nat, hi: nat): nat {
    if hi <= lo then 0
    else Slots(tree, a, lo, hi - 1) + if hi - 1 in tree && tree[hi - 1] == a then 1 else 0
  }

  lemma {:induction false} SlotsBound(tree: Index, a: Addr, lo: nat, hi: nat)
    requires lo <= hi
    ensures Slots(tree, a, lo, hi) <= hi - lo
    decreases hi
  {
    if lo < hi {
      SlotsBound(tree, a, lo, hi - 1);
    }
  }

  /** All slots point at `a` if and only if the count is full. */
  lemma {:induction false} SlotsFull(tree: Index, a: Addr, lo: nat, hi: nat)
    requires lo <= hi
    ensures Slots(tree, a, lo, hi) == hi - lo <==> forall p :: lo <= p < hi ==> p in tree && tree[p] == a
    decreases hi
  {
    if lo < hi {
      SlotsBound(tree, a, lo, hi - 1);
      SlotsFull(tree, a, lo, hi - 1);
    }
  }

  lemma {:induction false} SlotsNone(tree: Index, a: Addr, lo: nat, hi: nat)
    requires lo <= hi
    ensures Slots(tree, a, lo, hi) == 0 <==> forall p :: lo <= p < hi ==> !(p in tree && tree[p] == a)
    decreases hi
  {
    if lo < hi {
      SlotsNone(tree, a, lo, hi - 1);
    }
  }

  /** Indexes that agree about `a` between lo and hi. */
  lemma {:induction false} SlotsSame(t: Index, u: Index, a: Addr, b: Addr, lo: nat, hi: nat)
    requires forall p :: lo <= p < hi ==> ((p in t && t[p] == a) <==> (p in u && u[p] == b))
    ensures Slots(t, a, lo, hi) == Slots(u, b, lo, hi)
    decreases hi
  {
    if lo < hi {
      SlotsSame(t, u, a, b, lo, hi - 1);
    }
  }

  function Points(tree: Index, a: Addr, p: nat): nat {
    if p in tree && tree[p] == a then 1 else 0
  }

  /** Changing one slot changes the count by what that slot said. */
  lemma {:induction false} SlotsChange(t: Index, u: Index, a: Addr, lo: nat, hi: nat, p: nat)
    requires lo <= p < hi
    requires forall x :: x != p ==> ((x in t && t[x] == a) <==> (x in u && u[x] == a))
    ensures Slots(u, a, lo, hi) + Points(t, a, p) == Slots(t, a, lo, hi) + Points(u, a, p)
    decreases hi
  {
    if p == hi - 1 {
      SlotsSame(t, u, a, a, lo, hi - 1);
    } else {
      SlotsChange(t, u, a, lo, hi - 1, p);
    }
  }

  // ----- counting the pages of an entry ------------------------------------------------------------

  /** Pages of entries that have been committed but not yet indexed. */
  type Dues = map<Addr, nat>

  function Due(due: Dues, a: Addr): nat {
    if a in due then due[a] else 0
  }

  ghost predicate CountOk(tree: Index, due: Dues, r: LogRec) {
    r.e.FileWrite? ==>
      r.e.invalidPages + Slots(tree, r.addr, r.e.pgoff, r.e.pgoff + r.e.numPages) + Due(due, r.addr) == r.e.numPages
  }

  ghost predicate Counted(tree: Index, log: seq<LogRec>, due: Dues) {
    forall i {:trigger CountOk(tree, due, log[i])} :: 0 <= i < |log| ==> CountOk(tree, due, log[i])
  }

  function Invalidated(e: Entry): Entry
    requires e.FileWrite?
  {
    e.(invalidPages := e.invalidPages + 1)
  }

  /** One page of entry q becomes invalid. */
  function MarkOne(log: seq<LogRec>, q: nat): seq<LogRec>
    requires q < |log| && log[q].e.FileWrite?
  {
    log[q := LogRec(log[q].addr, Invalidated(log[q].e))]
  }

  /** Taking slot p away from the entry it points at, and counting the page
      invalid, keeps every count. */
  lemma DropSlot(tree: Index, tree': Index, log: seq<LogRec>, due: Dues, p: nat, q: nat)
    requires Counted(tree, log, due) && DistinctAddrs(log)
    requires q < |log| && log[q].e.FileWrite? && Covers(log[q].e, p)
    requires p in tree && tree[p] == log[q].addr
    requires tree' == map x | x in tree && x != p :: tree[x]
    ensures Counted(tree', MarkOne(log, q), due)
  {
    var log' := MarkOne(log, q);
    forall i | 0 <= i < |log'| ensures CountOk(tree', due, log'[i]) {
      assert CountOk(tree, due, log[i]);
      if log[i].e.FileWrite? {
        var e := log[i].e;
        if i == q {
          SlotsChange(tree, tree', log[q].addr, e.pgoff, e.pgoff + e.numPages, p);
        } else {
          assert log[i].addr != log[q].addr;
          SlotsSame(tree, tree', log[i].addr, log[i].addr, e.pgoff, e.pgoff + e.numPages);
        }
      }
    }
  }

  /** Pointing an empty slot at an entry that is due for it keeps every count. */
  lemma FillSlot(tree: Index, log: seq<LogRec>, due: Dues, p: nat, w: nat)
    requires Counted(tree, log, due) && DistinctAddrs(log)
    requires w < |log| && log[w].e.FileWrite? && Covers(log[w].e, p)
    requires p !in tree && Due(due, log[w].addr) > 0
    ensures Counted(tree[p := log[w].addr], log, due[log[w].addr := Due(due, log[w].addr) - 1])
  {
    var a := log[w].addr;
    var tree', due' := tree[p := a], due[a := Due(due, a) - 1];
    forall i | 0 <= i < |log| ensures CountOk(tree', due', log[i]) {
      assert CountOk(tree, due, log[i]);
      if log[i].e.FileWrite? {
        var e := log[i].e;
        if i == w {
          SlotsChange(tree, tree', a, e.pgoff, e.pgoff + e.numPages, p);
        } else {
          assert log[i].addr != a;
          SlotsSame(tree, tree', log[i].addr, log[i].addr, e.pgoff, e.pgoff + e.numPages);
        }
      }
    }
  }

  /** With an exact count, an entry none of whose pages is invalid owns all of its
      slots: the read path may take its blocks as one run. */
  lemma WholeRun(tree: Index, log: seq<LogRec>, q: nat)
    requires Counted(tree, log, map[])
    requires q < |log| && log[q].e.FileWrite? && log[q].e.invalidPages == 0
    ensures forall p :: Covers(log[q].e, p) ==> p in tree && tree[p] == log[q].addr
  {
    var e := log[q].e;
    assert CountOk(tree, map[], log[q]);
    SlotsFull(tree, log[q].addr, e.pgoff, e.pgoff + e.numPages);
  }

  /** With an exact count, an entry is live if and only if some slot points at it. */
  lemma LiveIffIndexed(tree: Index, log: seq<LogRec>, q: nat)
    requires Counted(tree, log, map[])
    requires q < |log| && log[q].e.FileWrite?
    ensures Live(log[q].e) <==> exists p :: Covers(log[q].e, p) && p in tree && tree[p] == log[q].addr
  {
    var e := log[q].e;
    assert CountOk(tree, map[], log[q]);
    SlotsNone(tree, log[q].addr, e.pgoff, e.pgoff + e.numPages);
  }

  // ----- the index and its blocks -----------------------------------------------------------------

  /** The radix tree holds the addresses of `slots`. */
  ghost predicate Matches(tree: Index, slots: map<nat, Slot>) {
    tree.Keys == slots.Keys && forall p :: p in tree ==> tree[p] == slots[p].addr
  }

  /** Record i is the write entry that gives page p its block. */
  ghost predicate Gives(log: seq<LogRec>, i: nat, p: nat, s: Slot) {
    i < |log| && log[i].addr == s.addr && log[i].e.FileWrite? && Covers(log[i].e, p) && BlockOf(log[i].e, p) == s.block
  }

  ghost predicate Given(log: seq<LogRec>, p: nat, s: Slot) {
    exists i: nat :: Gives(log, i, p, s)
  }

  ghost predicate AllGiven(slots: map<nat, Slot>, log: seq<LogRec>) {
    forall p :: p in slots ==> Given(log, p, slots[p])
  }

  /** No block is mapped twice, none of them is free. */
  ghost predicate BlocksApart(slots: map<nat, Slot>, free: set<nat>) {
    && (forall p :: p in slots ==> slots[p].block !in free && slots[p].block != 0)
    && (forall p, q :: p in slots && q in slots && p != q ==> slots[p].block != slots[q].block)
  }

  /** Replay fills slots only from live entries of the log. */
  lemma {:induction false} ReplayGives(s: State, log: seq<LogRec>, p: nat)
    requires p in Replay(s, log).tree
    ensures var slot := Replay(s, log).tree[p];
            || (p in s.tree && s.tree[p] == slot)
            || exists i: nat :: Gives(log, i, p, slot) && Live(log[i].e)
    decreases |log|
  {
    if log != [] {
      var slot := Replay(s, log).tree[p];
      var s' := Apply(s, log[0]);
      ReplayGives(s', log[1..], p);
      if i: nat :| Gives(log[1..], i, p, slot) && Live(log[1..][i].e) {
        assert Gives(log, i + 1, p, slot) && Live(log[i + 1].e);
      } else if !(p in s.tree && s.tree[p] == slot) {
        assert Gives(log, 0, p, slot) && Live(log[0].e);
      }
    }
  }

  /** An index that matches the replay points at entries in use. */
  lemma MatchesIsIndexed(tree: Index, log: seq<LogRec>)
    requires Matches(tree, Replay(FRESH, log).tree)
    ensures Indexed(tree, log)
    ensures AllGiven(Replay(FRESH, log).tree, log)
  {
    var slots := Replay(FRESH, log).tree;
    forall p | p in slots ensures Given(log, p, slots[p]) && PointsInto(tree[p], p, log) {
      ReplayGives(FRESH, log, p);
      var i: nat :| Gives(log, i, p, slots[p]) && Live(log[i].e);
      assert log[i] in log && KeyOf(log[i].e, p) && InUse(log[i], NOWHERE, NOWHERE);
    }
  }

  lemma MarkGiven(slots: map<nat, Slot>, log: seq<LogRec>, q: nat)
    requires q < |log| && log[q].e.FileWrite? && AllGiven(slots, log)
    ensures AllGiven(slots, MarkOne(log, q))
  {
    forall p | p in slots ensures Given(MarkOne(log, q), p, slots[p]) {
      assert Given(log, p, slots[p]);
      var i: nat :| Gives(log, i, p, slots[p]);
      assert Gives(MarkOne(log, q), i, p, slots[p]);
    }
  }

  // ----- logs that differ in their counts ----------------------------------------------------------

  ghost predicate SameButCount(r: LogRec, q: LogRec) {
    if r.e.FileWrite? then
      q.e.FileWrite? && q == r.(e := r.e.(invalidPages := q.e.invalidPages))
          && r.e.invalidPages <= q.e.invalidPages <= r.e.numPages
    else q == r
  }

  ghost predicate OnlyCounts(a: seq<LogRec>, b: seq<LogRec>) {
    |a| == |b| && forall i {:trigger SameButCount(a[i], b[i])} :: 0 <= i < |a| ==> SameButCount(a[i], b[i])
  }

  lemma OnlyCountsMark(a: seq<LogRec>, b: seq<LogRec>, q: nat)
    requires OnlyCounts(a, b) && q < |b| && b[q].e.FileWrite? && b[q].e.invalidPages < b[q].e.numPages
    ensures OnlyCounts(a, MarkOne(b, q))
  {
    var b' := MarkOne(b, q);
    forall i | 0 <= i < |a| ensures SameButCount(a[i], b'[i]) {
      assert SameButCount(a[i], b[i]);
    }
  }

  /** When the counts are exact, the entries they make dead are not needed. */
  lemma CountsKeepReplay(a: seq<LogRec>, b: seq<LogRec>, tree: Index)
    requires OnlyCounts(a, b) && DistinctAddrs(a)
    requires Counted(tree, b, map[]) && Matches(tree, Replay(FRESH, a).tree)
    ensures Replay(FRESH, b) == Replay(FRESH, a)
  {
    var dead := set i | 0 <= i < |b| && b[i].e.FileWrite? && !Live(b[i].e) :: b[i].addr;
    assert Recounted(a, b, dead) by {
      forall i | 0 <= i < |a| ensures RecountedRec(a[i], b[i], dead) {
        assert SameButCount(a[i], b[i]);
        if b[i].e.FileWrite? && !Live(b[i].e) {
          assert b[i].addr in dead;
        }
      }
    }
    var slots := Replay(FRESH, a).tree;
    forall p | p in slots ensures slots[p].addr !in dead {
      if slots[p].addr in dead {
        DeadHasNoSlot(a, b, tree, p);
      }
    }
    DeadEntriesDoNotMatter(a, b, dead);
  }

  lemma DeadHasNoSlot(a: seq<LogRec>, b: seq<LogRec>, tree: Index, p: nat)
    requires OnlyCounts(a, b) && DistinctAddrs(a)
    requires Counted(tree, b, map[]) && Matches(tree, Replay(FRESH, a).tree) && p in tree
    ensures forall i :: 0 <= i < |b| && b[i].e.FileWrite? && b[i].addr == tree[p] ==> Live(b[i].e)
  {
    var slot := Replay(FRESH, a).tree[p];
    ReplayGives(FRESH, a, p);
    var j: nat :| Gives(a, j, p, slot);
    forall i | 0 <= i < |b| && b[i].e.FileWrite? && b[i].addr == tree[p] ensures Live(b[i].e) {
      assert SameButCount(a[i], b[i]) && SameButCount(a[j], b[j]);
      assert i == j;
      LiveIffIndexed(tree, b, i);
    }
  }

  // ----- sound logs stay sound -----------------------------------------------------------------------

  /** Attribute changes after the last record that decides the size touch no slot. */
  lemma {:induction false} NoMoreSizing(s: State, log: seq<LogRec>)
    requires Sound(s.size, log) && !HasSizing(log)
    ensures Replay(s, log).tree == s.tree
    decreases |log|
  {
    if log != [] {
      var s' := Apply(s, log[0]);
      assert s'.tree == s.tree && s'.size == SizeAfter(s.size, log[0]);
      NoMoreSizing(s', log[1..]);
    }
  }

  /** The last record that decides the size, if it is a write, has its slots. */
  lemma {:induction false} LastWriteIsIndexed(s: State, log: seq<LogRec>, i: nat)
    requires Sound(s.size, log)
    requires i < |log| && log[i].e.FileWrite? && !HasSizing(log[i + 1..])
    ensures var t := Replay(s, log).tree; log[i].e.pgoff in t && t[log[i].e.pgoff].addr == log[i].addr
    decreases |log|
  {
    var s' := Apply(s, log[0]);
    assert s'.size == SizeAfter(s.size, log[0]);
    if i == 0 {
      NoMoreSizing(s', log[1..]);
    } else {
      assert log[1..][i..] == log[i + 1..];
      LastWriteIsIndexed(s', log[1..], i - 1);
    }
  }

  /** Counts may grow as long as the last record that decides the size lives. */
  lemma {:induction false} SoundCounts(size: nat, a: seq<LogRec>, b: seq<LogRec>)
    requires Sound(size, a) && OnlyCounts(a, b)
    requires forall i :: 0 <= i < |b| && b[i].e.FileWrite? && !Live(b[i].e) ==> HasSizing(a[i + 1..])
    ensures Sound(size, b) && HasSizing(b) == HasSizing(a)
    decreases |a|
  {
    if a != [] {
      assert SameButCount(a[0], b[0]);
      var a', b' := a[1..], b[1..];
      assert OnlyCounts(a', b') by {
        forall i | 0 <= i < |a'| ensures SameButCount(a'[i], b'[i]) {
          assert SameButCount(a[i + 1], b[i + 1]);
        }
      }
      forall i | 0 <= i < |b'| && b'[i].e.FileWrite? && !Live(b'[i].e) ensures HasSizing(a'[i + 1..]) {
        assert b[i + 1] == b'[i];
        assert a'[i + 1..] == a[i + 2..];
      }
      SoundCounts(SizeAfter(size, a[0]), a', b');
    }
  }

  /** When an index is complete and its counts exact, the log is sound again. */
  lemma CountsKeepSound(a: seq<LogRec>, b: seq<LogRec>, tree: Index)
    requires Sound(0, a) && OnlyCounts(a, b) && DistinctAddrs(a)
    requires Counted(tree, b, map[]) && Matches(tree, Replay(FRESH, a).tree)
    ensures Sound(0, b)
  {
    forall i | 0 <= i < |b| && b[i].e.FileWrite? && !Live(b[i].e) ensures HasSizing(a[i + 1..]) {
      assert SameButCount(a[i], b[i]);
      if !HasSizing(a[i + 1..]) {
        LastWriteIsIndexed(FRESH, a, i);
        DeadHasNoSlot(a, b, tree, a[i].e.pgoff);
      }
    }
    SoundCounts(0, a, b);
  }

  lemma {:induction false} SoundConcat(s: State, a: seq<LogRec>, b: seq<LogRec>)
    requires Sound(s.size, a) && Sound(Replay(s, a).size, b)
    ensures Sound(s.size, a + b)
    decreases |a|
  {
    if a == [] {
      assert a + b == b;
    } else {
      assert (a + b)[1..] == a[1..] + b;
      HasSizingConcat(a[1..], b);
      assert Apply(s, a[0]).size == SizeAfter(s.size, a[0]);
      SoundConcat(Apply(s, a[0]), a[1..], b);
    }
  }

  // ----- collection keeps the counts -------------------------------------------------------------------

  lemma {:induction false} MoveLogAt(moves: map<Addr, Addr>, log: seq<LogRec>, i: nat)
    requires i < |log|
    ensures MoveLog(moves, log)[i] == MoveRec(moves, log[i])
    decreases |log|
  {
    if i > 0 {
      MoveLogAt(moves, log[1..], i - 1);
    }
  }

  /** A slot follows the entry it points at, and no other. */
  lemma MovedSlot(tree0: Index, log0: seq<LogRec>, ll0: Addr, mid: seq<LogRec>, moves: map<Addr, Addr>, i: nat, p: nat)
    requires Indexed(tree0, log0) && Compacted(log0, mid, NOWHERE, ll0)
    requires DistinctAddrs(MoveLog(moves, mid)) && i < |mid| && p in tree0
    ensures Moved(moves, tree0[p]) == Moved(moves, mid[i].addr) <==> tree0[p] == mid[i].addr
  {
    assert PointsInto(tree0[p], p, log0);
    var r :| r in log0 && r.addr == tree0[p] && KeyOf(r.e, p) && InUse(r, NOWHERE, NOWHERE);
    CompactedKeepsUsed(log0, mid, NOWHERE, ll0, r);
    var k :| 0 <= k < |mid| && mid[k] == r;
    var log := MoveLog(moves, mid);
    MoveLogAt(moves, mid, i);
    MoveLogAt(moves, mid, k);
    if log[k].addr == log[i].addr {
      assert k == i;
    }
  }

  lemma GcKeepsCounts(log0: seq<LogRec>, tree0: Index, ll0: Addr, log: seq<LogRec>, tree: Index, mid: seq<LogRec>,
                      moves: map<Addr, Addr>)
    requires GcLog(log0, tree0, ll0, log, tree, mid, moves)
    requires Indexed(tree0, log0) && Counted(tree0, log0, map[]) && DistinctAddrs(log)
    ensures Counted(tree, log, map[])
  {
    CompactedSubset(log0, mid, NOWHERE, ll0);
    forall i | 0 <= i < |log| ensures CountOk(tree, map[], log[i]) {
      MoveLogAt(moves, mid, i);
      assert mid[i] in log0;
      var i0 :| 0 <= i0 < |log0| && log0[i0] == mid[i];
      assert CountOk(tree0, map[], log0[i0]);
      if log[i].e.FileWrite? {
        var e := log[i].e;
        forall p | e.pgoff <= p < e.pgoff + e.numPages
          ensures (p in tree && tree[p] == log[i].addr) <==> (p in tree0 && tree0[p] == mid[i].addr)
        {
          if p in tree0 {
            MovedSlot(tree0, log0, ll0, mid, moves, i, p);
          }
        }
        SlotsSame(tree, tree0, log[i].addr, mid[i].addr, e.pgoff, e.pgoff + e.numPages);
      }
    }
  }

  lemma GcKeepsMatch(log0: seq<LogRec>, tree0: Index, ll0: Addr, log: seq<LogRec>, tree: Index, mid: seq<LogRec>,
                     moves: map<Addr, Addr>,
                     slots0: map<nat, Slot>)
    requires GcLog(log0, tree0, ll0, log, tree, mid, moves) && Matches(tree0, slots0)
    ensures Matches(tree, MoveTree(moves, slots0))
  {
  }
}
