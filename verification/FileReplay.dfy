/** What a file log means: replaying it rebuilds the page index, the size and
the attributes of the file.  Dropping dead records and moving live ones keeps
that meaning. */
module FileReplay {
  import opened Options
  import opened LogPages

  const BLOCK: nat := 4096

  /** One slot of the page index: the write entry it points at, and the block
      that entry gives for the page. */
  datatype Slot = Slot(addr: Addr, block: nat)

  datatype Link = Link(links: nat, flags: nat, generation: nat)

  datatype State = State(tree: map<nat, Slot>, size: nat, attr: Option<Attr>, link: Option<Link>)

  const FRESH: State := State(map[], 0, None, None)

  predicate IsReg(mode: nat) {
    mode / 4096 % 16 == 8
  }

  /** The first page that lies wholly at or past byte `size`. */
  function PagesFor(size: nat): nat {
    (size + BLOCK - 1) / BLOCK
  }

  predicate Live(e: Entry)
    requires e.FileWrite?
  {
    e.numPages != e.invalidPages
  }

  function BlockOf(e: Entry, pgoff: nat): nat
    requires e.FileWrite? && e.pgoff <= pgoff
  {
    e.block + pgoff - e.pgoff
  }

  predicate Covers(e: Entry, p: nat)
    requires e.FileWrite?
  {
    e.pgoff <= p < e.pgoff + e.numPages
  }

  function Assign(tree: map<nat, Slot>, a: Addr, e: Entry): map<nat, Slot>
    requires e.FileWrite?
  {
    tree + map p: nat | e.pgoff <= p < e.pgoff + e.numPages :: Slot(a, BlockOf(e, p))
  }

  /** Delete the slots first..last. */
  function Cut(tree: map<nat, Slot>, first: nat, last: nat): map<nat, Slot> {
    map p | p in tree && !(first <= p <= last) :: tree[p]
  }

  /** Delete every slot from `first` on. */
  function Below(tree: map<nat, Slot>, first: nat): map<nat, Slot> {
    map p | p in tree && p < first :: tree[p]
  }

  function TreeAfterSetAttr(tree: map<nat, Slot>, oldSize: nat, e: Entry): map<nat, Slot>
    requires e.SetAttr?
  {
    if oldSize > e.size && IsReg(e.attr.mode) then
      var first := PagesFor(e.size);
      var last := (oldSize - 1) / BLOCK;
      if first > last then tree else Cut(tree, first, last)
    else tree
  }

  /** One iteration of the mount-time replay loop. */
  function Apply(s: State, r: LogRec): State {
    match r.e
    case FileWrite(_, _, _, _, size) =>
      State(if Live(r.e) then Assign(s.tree, r.addr, r.e) else s.tree, size, s.attr, s.link)
    case SetAttr(_, attr, size) =>
      State(TreeAfterSetAttr(s.tree, s.size, r.e), size, Some(attr), s.link)
    case LinkChange(links, flags, generation) => s.(link := Some(Link(links, flags, generation)))
    case Dentry(_, _, _, _, _) => s
  }

  function Replay(s: State, log: seq<LogRec>): State
    decreases |log|
  {
    if log == [] then s else Replay(Apply(s, log[0]), log[1..])
  }

  lemma {:induction false} ReplayConcat(s: State, a: seq<LogRec>, b: seq<LogRec>)
    ensures Replay(s, a + b) == Replay(Replay(s, a), b)
    decreases |a|
  {
    if a == [] {
      assert a + b == b;
    } else {
      assert (a + b)[1..] == a[1..] + b;
      ReplayConcat(Apply(s, a[0]), a[1..], b);
    }
  }

  lemma ReplayStep(s: State, a: seq<LogRec>, r: LogRec)
    ensures Replay(s, a + [r]) == Apply(Replay(s, a), r)
  {
    ReplayConcat(s, a, [r]);
    assert [r][1..] == [];
    assert Replay(Replay(s, a), [r]) == Replay(Apply(Replay(s, a), r), [r][1..]);
  }

  // ----- logs that a file system run can write -------------------------------

  function SizeAfter(size: nat, r: LogRec): nat {
    match r.e
    case FileWrite(_, _, _, _, s) => s
    case SetAttr(_, _, s) => s
    case _ => size
  }

  /** A record that decides the size: a write or a truncation. */
  predicate Sizes(r: LogRec) {
    r.e.FileWrite? || (r.e.SetAttr? && r.e.setsSize)
  }

  predicate HasSizing(log: seq<LogRec>) {
    log != [] && (Sizes(log[0]) || HasSizing(log[1..]))
  }

  /** What every record promises when it is appended at file size `size`, and
      keeps promising while others are collected.  Only a truncation lowers the
      size; the last record that decides the size is never dead; attribute
      changes after it repeat its size. */
  predicate RecOk(size: nat, r: LogRec, more: bool) {
    match r.e
    case FileWrite(pgoff, num, invalid, block, s) =>
      && 1 <= num && invalid <= num && 1 <= block
      && (pgoff + num - 1) * BLOCK < s
      && size <= s
      && (more || num != invalid)
    case SetAttr(setsSize, attr, s) =>
      && IsReg(attr.mode)
      && (!setsSize ==> size <= s && (more || s == size))
    case LinkChange(_, _, _) => true
    case Dentry(_, _, _, _, _) => false
  }

  predicate Sound(size: nat, log: seq<LogRec>)
    decreases |log|
  {
    log == [] ||
    (RecOk(size, log[0], HasSizing(log[1..])) && Sound(SizeAfter(size, log[0]), log[1..]))
  }

  /** No page at or past the end of the file is mapped. */
  ghost predicate Bounded(tree: map<nat, Slot>, size: nat) {
    forall p :: p in tree ==> p * BLOCK < size
  }

  /** On a bounded tree a truncation deletes exactly the pages past the new end. */
  lemma TruncationCuts(tree: map<nat, Slot>, size: nat, e: Entry)
    requires e.SetAttr? && IsReg(e.attr.mode)
    requires Bounded(tree, size)
    ensures TreeAfterSetAttr(tree, size, e) == Below(tree, PagesFor(e.size))
    ensures Bounded(Below(tree, PagesFor(e.size)), e.size)
  {
    var t := TreeAfterSetAttr(tree, size, e);
    var u := Below(tree, PagesFor(e.size));
    forall p | p in tree ensures p < PagesFor(e.size) <==> p * BLOCK < e.size {
    }
    assert t == u;
  }

  lemma StepBounded(s: State, r: LogRec, more: bool)
    requires Bounded(s.tree, s.size)
    requires RecOk(s.size, r, more)
    ensures Bounded(Apply(s, r).tree, Apply(s, r).size)
    ensures Apply(s, r).size == SizeAfter(s.size, r)
  {
    if r.e.SetAttr? {
      TruncationCuts(s.tree, s.size, r.e);
    }
  }

  lemma {:induction false} ReplayBounded(s: State, log: seq<LogRec>)
    requires Bounded(s.tree, s.size)
    requires Sound(s.size, log)
    ensures Bounded(Replay(s, log).tree, Replay(s, log).size)
    decreases |log|
  {
    if log != [] {
      StepBounded(s, log[0], HasSizing(log[1..]));
      ReplayBounded(Apply(s, log[0]), log[1..]);
    }
  }

  // ----- appending ------------------------------------------------------------

  lemma {:induction false} HasSizingConcat(a: seq<LogRec>, b: seq<LogRec>)
    ensures HasSizing(a + b) <==> HasSizing(a) || HasSizing(b)
    decreases |a|
  {
    if a == [] {
      assert a + b == b;
    } else {
      assert (a + b)[1..] == a[1..] + b;
      HasSizingConcat(a[1..], b);
    }
  }

  /** A log stays sound when a record is appended that is sound at its end:
      a live write, a truncation, a link change, or a size-preserving attribute
      change. */
  lemma {:induction false} SoundAppend(s: State, a: seq<LogRec>, r: LogRec)
    requires Sound(s.size, a)
    requires RecOk(Replay(s, a).size, r, false)
    ensures Sound(s.size, a + [r])
    decreases |a|
  {
    if a == [] {
      assert a + [r] == [r];
      assert [r][1..] == [];
    } else {
      assert (a + [r])[1..] == a[1..] + [r];
      HasSizingConcat(a[1..], [r]);
      SoundAppend(Apply(s, a[0]), a[1..], r);
      assert Apply(s, a[0]).size == SizeAfter(s.size, a[0]);
    }
  }

  // ----- garbage collection ----------------------------------------------------

  /** The collectors' test, from the addresses remembered in the inode header. */
  predicate InUse(r: LogRec, lastSetattr: Addr, lastLink: Addr) {
    match r.e
    case SetAttr(setsSize, _, _) => r.addr == lastSetattr || setsSize
    case LinkChange(_, _, _) => r.addr == lastLink
    case FileWrite(_, _, _, _, _) => Live(r.e)
    case Dentry(_, ino, invalid, _, _) => ino != 0 && !invalid
  }

  /** `b` is `a` without some of its invalid records, in the same order. */
  ghost predicate Compacted(a: seq<LogRec>, b: seq<LogRec>, ls: Addr, ll: Addr)
    decreases |a|
  {
    if a == [] then b == []
    else
      || (b != [] && b[0] == a[0] && Compacted(a[1..], b[1..], ls, ll))
      || (!InUse(a[0], ls, ll) && Compacted(a[1..], b, ls, ll))
  }

  lemma {:induction false} CompactedRefl(a: seq<LogRec>, ls: Addr, ll: Addr)
    ensures Compacted(a, a, ls, ll)
    decreases |a|
  {
    if a != [] {
      CompactedRefl(a[1..], ls, ll);
    }
  }

  lemma {:induction false} CompactedTrans(a: seq<LogRec>, b: seq<LogRec>, c: seq<LogRec>, ls: Addr, ll: Addr)
    requires Compacted(a, b, ls, ll) && Compacted(b, c, ls, ll)
    ensures Compacted(a, c, ls, ll)
    decreases |a|
  {
    if a != [] {
      if b != [] && b[0] == a[0] && Compacted(a[1..], b[1..], ls, ll) {
        if c != [] && c[0] == b[0] && Compacted(b[1..], c[1..], ls, ll) {
          CompactedTrans(a[1..], b[1..], c[1..], ls, ll);
        } else {
          CompactedTrans(a[1..], b[1..], c, ls, ll);
        }
      } else {
        CompactedTrans(a[1..], b, c, ls, ll);
      }
    }
  }

  lemma {:induction false} CompactedConcat(a: seq<LogRec>, b: seq<LogRec>, c: seq<LogRec>, d: seq<LogRec>, ls: Addr,
                                           ll: Addr)
    requires Compacted(a, b, ls, ll) && Compacted(c, d, ls, ll)
    ensures Compacted(a + c, b + d, ls, ll)
    decreases |a|
  {
    if a == [] {
      assert a + c == c && b + d == d;
    } else {
      assert (a + c)[1..] == a[1..] + c;
      if b != [] && b[0] == a[0] && Compacted(a[1..], b[1..], ls, ll) {
        assert (b + d)[1..] == b[1..] + d;
        CompactedConcat(a[1..], b[1..], c, d, ls, ll);
      } else {
        CompactedConcat(a[1..], b, c, d, ls, ll);
      }
    }
  }

  lemma {:induction false} CompactedAway(a: seq<LogRec>, ls: Addr, ll: Addr)
    requires forall i :: 0 <= i < |a| ==> !InUse(a[i], ls, ll)
    ensures Compacted(a, [], ls, ll)
    decreases |a|
  {
    if a != [] {
      CompactedAway(a[1..], ls, ll);
    }
  }

  /** The record that decides the size survives every collection. */
  lemma {:induction false} SizingSurvives(size: nat, a: seq<LogRec>, b: seq<LogRec>, ls: Addr, ll: Addr)
    requires Sound(size, a)
    requires Compacted(a, b, ls, ll)
    ensures HasSizing(a) == HasSizing(b)
    decreases |a|
  {
    if a != [] {
      var size' := SizeAfter(size, a[0]);
      if b != [] && b[0] == a[0] && Compacted(a[1..], b[1..], ls, ll) {
        SizingSurvives(size', a[1..], b[1..], ls, ll);
      } else {
        SizingSurvives(size', a[1..], b, ls, ll);
      }
    }
  }

  /** Replaying the full and the collected log side by side: the trees agree at
      every step, although the collected log may run with a smaller size until
      the next record that decides it. */
  lemma {:induction false} ReplaySideBySide(s: State, t: State, a: seq<LogRec>, b: seq<LogRec>, ls: Addr, ll: Addr)
    requires Compacted(a, b, ls, ll)
    requires Sound(s.size, a)
    requires s.tree == t.tree
    requires Bounded(t.tree, t.size)
    requires t.size <= s.size
    requires t.size == s.size || HasSizing(a)
    ensures Replay(t, b).tree == Replay(s, a).tree
    ensures Replay(t, b).size == Replay(s, a).size
    ensures Sound(t.size, b)
    decreases |a|
  {
    if a != [] {
      var more := HasSizing(a[1..]);
      assert Bounded(s.tree, s.size);
      StepBounded(s, a[0], more);
      if b != [] && b[0] == a[0] && Compacted(a[1..], b[1..], ls, ll) {
        SizingSurvives(SizeAfter(s.size, a[0]), a[1..], b[1..], ls, ll);
        if a[0].e.SetAttr? {
          TruncationCuts(s.tree, s.size, a[0].e);
          TruncationCuts(t.tree, t.size, a[0].e);
        }
        StepBounded(t, b[0], more);
        ReplaySideBySide(Apply(s, a[0]), Apply(t, b[0]), a[1..], b[1..], ls, ll);
      } else {
        if a[0].e.SetAttr? {
          TruncationCuts(s.tree, s.size, a[0].e);
          assert Below(s.tree, PagesFor(a[0].e.size)) == s.tree;
        }
        ReplaySideBySide(Apply(s, a[0]), t, a[1..], b, ls, ll);
      }
    }
  }

  /** The header points at the last attribute change of the log, if there is one. */
  predicate PointsAtLastSetAttr(log: seq<LogRec>, ls: Addr) {
    log == [] ||
    ((log[0].e.SetAttr? && !HasSetAttr(log[1..]) ==> log[0].addr == ls) && PointsAtLastSetAttr(log[1..], ls))
  }

  predicate HasSetAttr(log: seq<LogRec>) {
    log != [] && (log[0].e.SetAttr? || HasSetAttr(log[1..]))
  }

  predicate PointsAtLastLink(log: seq<LogRec>, ll: Addr) {
    log == [] ||
    ((log[0].e.LinkChange? && !HasLink(log[1..]) ==> log[0].addr == ll) && PointsAtLastLink(log[1..], ll))
  }

  predicate HasLink(log: seq<LogRec>) {
    log != [] && (log[0].e.LinkChange? || HasLink(log[1..]))
  }

  lemma {:induction false} AttrSideBySide(s: State, t: State, a: seq<LogRec>, b: seq<LogRec>, ls: Addr, ll: Addr)
    requires Compacted(a, b, ls, ll)
    requires PointsAtLastSetAttr(a, ls)
    requires s.attr == t.attr || HasSetAttr(a)
    ensures Replay(t, b).attr == Replay(s, a).attr
    decreases |a|
  {
    if a != [] {
      if b != [] && b[0] == a[0] && Compacted(a[1..], b[1..], ls, ll) {
        AttrSideBySide(Apply(s, a[0]), Apply(t, b[0]), a[1..], b[1..], ls, ll);
      } else {
        AttrSideBySide(Apply(s, a[0]), t, a[1..], b, ls, ll);
      }
    }
  }

  lemma {:induction false} LinkSideBySide(s: State, t: State, a: seq<LogRec>, b: seq<LogRec>, ls: Addr, ll: Addr)
    requires Compacted(a, b, ls, ll)
    requires PointsAtLastLink(a, ll)
    requires s.link == t.link || HasLink(a)
    ensures Replay(t, b).link == Replay(s, a).link
    decreases |a|
  {
    if a != [] {
      if b != [] && b[0] == a[0] && Compacted(a[1..], b[1..], ls, ll) {
        LinkSideBySide(Apply(s, a[0]), Apply(t, b[0]), a[1..], b[1..], ls, ll);
      } else {
        LinkSideBySide(Apply(s, a[0]), t, a[1..], b, ls, ll);
      }
    }
  }

  /** Dropping any set of invalid records keeps the page index and the size of
      the file, and leaves a log that can be collected again. */
  lemma CompactionKeepsFile(a: seq<LogRec>, b: seq<LogRec>, ls: Addr, ll: Addr)
    requires Sound(0, a)
    requires Compacted(a, b, ls, ll)
    ensures Replay(FRESH, b).tree == Replay(FRESH, a).tree
    ensures Replay(FRESH, b).size == Replay(FRESH, a).size
    ensures Sound(0, b)
    ensures PointsAtLastSetAttr(a, ls) ==> Replay(FRESH, b).attr == Replay(FRESH, a).attr
    ensures PointsAtLastLink(a, ll) ==> Replay(FRESH, b).link == Replay(FRESH, a).link
  {
    ReplaySideBySide(FRESH, FRESH, a, b, ls, ll);
    if PointsAtLastSetAttr(a, ls) {
      AttrSideBySide(FRESH, FRESH, a, b, ls, ll);
    }
    if PointsAtLastLink(a, ll) {
      LinkSideBySide(FRESH, FRESH, a, b, ls, ll);
    }
  }

  // ----- moving records --------------------------------------------------------

  function Moved(moves: map<Addr, Addr>, a: Addr): Addr {
    if a in moves then moves[a] else a
  }

  function MoveRec(moves: map<Addr, Addr>, r: LogRec): LogRec {
    LogRec(Moved(moves, r.addr), r.e)
  }

  function MoveLog(moves: map<Addr, Addr>, log: seq<LogRec>): (moved: seq<LogRec>)
    ensures |moved| == |log|
  {
    if log == [] then [] else [MoveRec(moves, log[0])] + MoveLog(moves, log[1..])
  }

  function MoveTree(moves: map<Addr, Addr>, tree: map<nat, Slot>): map<nat, Slot> {
    map p | p in tree :: Slot(Moved(moves, tree[p].addr), tree[p].block)
  }

  function MoveState(moves: map<Addr, Addr>, s: State): State {
    s.(tree := MoveTree(moves, s.tree))
  }

  lemma MoveApply(moves: map<Addr, Addr>, s: State, r: LogRec)
    ensures Apply(MoveState(moves, s), MoveRec(moves, r)) == MoveState(moves, Apply(s, r))
  {
    var x := Apply(MoveState(moves, s), MoveRec(moves, r));
    var y := MoveState(moves, Apply(s, r));
    assert x.tree.Keys == y.tree.Keys;
    assert x.tree == y.tree;
  }

  /** Copying records elsewhere renames the index and changes nothing else. */
  lemma {:induction false} MoveReplay(moves: map<Addr, Addr>, s: State, log: seq<LogRec>)
    ensures Replay(MoveState(moves, s), MoveLog(moves, log)) == MoveState(moves, Replay(s, log))
    decreases |log|
  {
    if log != [] {
      MoveApply(moves, s, log[0]);
      MoveReplay(moves, Apply(s, log[0]), log[1..]);
      assert MoveLog(moves, log)[1..] == MoveLog(moves, log[1..]);
    }
  }

  lemma {:induction false} MoveSound(moves: map<Addr, Addr>, size: nat, log: seq<LogRec>)
    ensures Sound(size, MoveLog(moves, log)) == Sound(size, log)
    ensures HasSizing(MoveLog(moves, log)) == HasSizing(log)
    decreases |log|
  {
    if log != [] {
      MoveSound(moves, SizeAfter(size, log[0]), log[1..]);
      assert MoveLog(moves, log)[1..] == MoveLog(moves, log[1..]);
    }
  }

  lemma {:induction false} MoveConcat(moves: map<Addr, Addr>, a: seq<LogRec>, b: seq<LogRec>)
    ensures MoveLog(moves, a + b) == MoveLog(moves, a) + MoveLog(moves, b)
    decreases |a|
  {
    if a == [] {
      assert a + b == b;
    } else {
      assert (a + b)[1..] == a[1..] + b;
      MoveConcat(moves, a[1..], b);
    }
  }

  // ----- marking entries dead ----------------------------------------------------

  /** The same log with different counts of invalid pages; an entry may die only
      if its address is in `dead`, and a dead one stays dead. */
  ghost predicate Recounted(a: seq<LogRec>, b: seq<LogRec>, dead: set<Addr>) {
    && |a| == |b|
    && forall i :: 0 <= i < |a| ==> RecountedRec(a[i], b[i], dead)
  }

  predicate RecountedRec(r: LogRec, q: LogRec, dead: set<Addr>) {
    if r.e.FileWrite? then
      && q.e.FileWrite?
      && q == r.(e := r.e.(invalidPages := q.e.invalidPages))
      && (Live(q.e) ==> Live(r.e))
      && (Live(r.e) && !Live(q.e) ==> r.addr in dead)
    else q == r
  }

  /** The trees agree wherever the first does not point into `dead`. */
  ghost predicate AgreeBut(t: map<nat, Slot>, u: map<nat, Slot>, dead: set<Addr>) {
    && (forall p :: p in t && t[p].addr !in dead ==> p in u && u[p] == t[p])
    && (forall p :: p in u && p !in t ==> false)
  }

  lemma AgreeStep(s: State, t: State, r: LogRec, q: LogRec, dead: set<Addr>)
    requires RecountedRec(r, q, dead)
    requires AgreeBut(s.tree, t.tree, dead)
    requires s.size == t.size && s.attr == t.attr && s.link == t.link
    ensures var s' := Apply(s, r); var t' := Apply(t, q);
            AgreeBut(s'.tree, t'.tree, dead) && s'.size == t'.size && s'.attr == t'.attr && s'.link == t'.link
  {
  }

  lemma {:induction false} RecountSideBySide(s: State, t: State, a: seq<LogRec>, b: seq<LogRec>, dead: set<Addr>)
    requires Recounted(a, b, dead)
    requires AgreeBut(s.tree, t.tree, dead)
    requires s.size == t.size && s.attr == t.attr && s.link == t.link
    ensures var s' := Replay(s, a); var t' := Replay(t, b);
            AgreeBut(s'.tree, t'.tree, dead) && s'.size == t'.size && s'.attr == t'.attr && s'.link == t'.link
    decreases |a|
  {
    if a != [] {
      AgreeStep(s, t, a[0], b[0], dead);
      RecountSideBySide(Apply(s, a[0]), Apply(t, b[0]), a[1..], b[1..], dead);
    }
  }

  /** Entries to which no slot of the final index points can be marked dead: the
      replay, which then skips them, still gives the same result. */
  lemma DeadEntriesDoNotMatter(a: seq<LogRec>, b: seq<LogRec>, dead: set<Addr>)
    requires Recounted(a, b, dead)
    requires forall p :: p in Replay(FRESH, a).tree ==> Replay(FRESH, a).tree[p].addr !in dead
    ensures Replay(FRESH, b) == Replay(FRESH, a)
  {
    RecountSideBySide(FRESH, FRESH, a, b, dead);
    assert Replay(FRESH, a).tree == Replay(FRESH, b).tree;
  }

  // ----- the size found in the inode ------------------------------------------

  /** Replay starts from whatever size the inode holds on media.  That size
      only ever truncates an empty index, so the index does not depend on it,
      and neither does the size once a record carries one. */
  lemma {:induction false} StaleSizeIsHarmless(s: State, t: State, log: seq<LogRec>)
    requires s.tree == t.tree == map[]
    ensures Replay(s, log).tree == Replay(t, log).tree
    ensures (exists i :: 0 <= i < |log| && (log[i].e.FileWrite? || log[i].e.SetAttr?))
            ==> Replay(s, log).size == Replay(t, log).size
    decreases |log|
  {
    if log != [] {
      var s', t' := Apply(s, log[0]), Apply(t, log[0]);
      if log[0].e.FileWrite? || log[0].e.SetAttr? {
        assert s'.tree == t'.tree && s'.size == t'.size;
        SameTreeAndSize(s', t', log[1..]);
      } else {
        StaleSizeIsHarmless(s', t', log[1..]);
        if i: nat :| i < |log| && (log[i].e.FileWrite? || log[i].e.SetAttr?) {
          assert log[1..][i - 1] == log[i];
        }
      }
    }
  }

  lemma {:induction false} SameTreeAndSize(s: State, t: State, log: seq<LogRec>)
    requires s.tree == t.tree && s.size == t.size
    ensures Replay(s, log).tree == Replay(t, log).tree && Replay(s, log).size == Replay(t, log).size
    decreases |log|
  {
    if log != [] {
      SameTreeAndSize(Apply(s, log[0]), Apply(t, log[0]), log[1..]);
    }
  }
}
