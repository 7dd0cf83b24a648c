/** The attributes of a file over any run of appends, counts and collections: they
survive every run if and only if there is no attribute change, or no truncation,
or the last truncation carries the attributes of the last change. */
module AttributeRuns {
  import opened Options
  import opened LogPages
  import opened FileReplay
  import opened LogSurgery
  import opened LogSweep
  import opened InodeLogs
  import opened LogMeaning
  import opened HeaderRuns
  import opened FileIndex
  import opened CowState

  /** A log and the header that belongs to it. */
  datatype HeadLog = HeadLog(log: seq<LogRec>, h: Head)

  function EndOf(log: seq<LogRec>): Addr {
    Cursor(NOWHERE, log, |log|)
  }

  /** The writer puts a record behind the last one if it fits there, and otherwise at
      the start of another page. */
  ghost predicate Follows(log: seq<LogRec>, r: LogRec) {
    && r.addr.page != 0
    && if log != [] && !IsLastEntry(EndOf(log), Len(r.e)) then r.addr == EndOf(log)
       else r.addr.off == 0 && r.addr.page !in PagesOf(log)
  }

  /** A write or a link change that a file with this log can receive. */
  ghost predicate CanAppend(log: seq<LogRec>, r: LogRec) {
    (r.e.FileWrite? || r.e.LinkChange?) && RecOk(Replay(FRESH, log).size, r, false) && Follows(log, r)
  }

  ghost predicate Appended(log: seq<LogRec>, rest: seq<LogRec>) {
    forall i :: 0 <= i < |rest| ==> CanAppend(log + rest[..i], rest[i])
  }

  /** Writes and link changes are appended; pages of writes become invalid; or the log
      is collected. */
  datatype LogStep = Add(rest: seq<LogRec>) | Count | Collect(how: Collection)

  ghost predicate StepOk(s: HeadLog, t: HeadLog, step: LogStep) {
    match step
    case Add(rest) =>
      Appended(s.log, rest) && t == HeadLog(s.log + rest, Head(s.h.ls, LastLinkChange(rest, s.h.ll)))
    case Count => OnlyCounts(s.log, t.log) && t.h == s.h
    case Collect(how) =>
      && OnMedia(s.log) && DistinctAddrs(s.log) && s.log != []
      && how.ran && how.tail == s.log[|s.log| - 1].addr.page && GcSteps(s.log, s.h, t.log, t.h, how)
  }

  ghost predicate LogRun(states: seq<HeadLog>, steps: seq<LogStep>) {
    && |states| == |steps| + 1
    && forall i :: 0 <= i < |steps| ==> StepOk(states[i], states[i + 1], steps[i])
  }

  // ----- secure logs -------------------------------------------------------------------------------------

  lemma StepKeeps(s: HeadLog, t: HeadLog, step: LogStep)
    requires StepOk(s, t, step) && Secure(s.log, s.h.ls)
    ensures Secure(t.log, t.h.ls) && LastAttr(t.log) == LastAttr(s.log)
  {
    match step {
      case Add(rest) =>
        forall i | 0 <= i < |rest| ensures !rest[i].e.SetAttr? {
          assert CanAppend(s.log + rest[..i], rest[i]);
        }
        AddKeepsSecure(s.log, s.h.ls, rest);
      case Count =>
        CountsKeepSecure(s.log, t.log, s.h.ls);
      case Collect(how) =>
        StepKeepsSecure(s.log, s.h, t.log, t.h, how);
    }
  }

  /** From a secure log, no run changes the attributes. */
  lemma {:induction false} SecureLogsKeepAttributes(states: seq<HeadLog>, steps: seq<LogStep>)
    requires LogRun(states, steps) && Secure(states[0].log, states[0].h.ls)
    ensures var last := states[|states| - 1];
            Secure(last.log, last.h.ls) && Replay(FRESH, last.log).attr == Replay(FRESH, states[0].log).attr
    decreases |steps|
  {
    if steps != [] {
      var n := |steps| - 1;
      var s, t := states[n], states[n + 1];
      assert StepOk(s, t, steps[n]);
      assert forall i :: 0 <= i < n ==> steps[..n][i] == steps[i];
      assert forall i :: 0 <= i <= n ==> states[..n + 1][i] == states[i];
      SecureLogsKeepAttributes(states[..n + 1], steps[..n]);
      StepKeeps(s, t, steps[n]);
      ReplayAttr(FRESH, s.log);
      ReplayAttr(FRESH, t.log);
    }
  }

  // ----- logs that grow ----------------------------------------------------------------------------------

  /** Records lie at distinct places, and none lies behind the last one on its page. */
  ghost predicate Placed(log: seq<LogRec>) {
    && DistinctAddrs(log) && (forall r :: r in log ==> r.addr.page != 0)
    && forall r :: r in log && r.addr.page == EndOf(log).page ==> r.addr.off < EndOf(log).off
  }

  lemma PlacedMore(log: seq<LogRec>, r: LogRec)
    requires Placed(log) && CanAppend(log, r)
    ensures Placed(log + [r]) && Appended(log, [r]) && EndOf(log + [r]) == Addr(r.addr.page, r.addr.off + Len(r.e))
  {
    var all := log + [r];
    assert [r][..0] == [] && log + [] == log;
    assert Len(r.e) > 0;
    forall q | q in log ensures q.addr != r.addr && (q.addr.page == r.addr.page ==> q.addr.off < r.addr.off) {
      assert q.addr.page in PagesOf(log);
      if r.addr != EndOf(log) {
        assert log == [] || IsLastEntry(EndOf(log), Len(r.e));
      }
    }
    forall i, j | 0 <= i < j < |all| ensures all[i].addr != all[j].addr {
      assert i < |log| && all[i] == log[i] && log[i] in log;
      if j < |log| {
        assert all[j] == log[j];
      }
    }
  }

  lemma AppendedBoth(log: seq<LogRec>, a: seq<LogRec>, b: seq<LogRec>)
    requires Appended(log, a) && Appended(log + a, b)
    ensures Appended(log, a + b) && log + (a + b) == log + a + b
  {
    var all := a + b;
    assert log + all == log + a + b;
    forall i | 0 <= i < |all| ensures CanAppend(log + all[..i], all[i]) {
      if i < |a| {
        assert all[..i] == a[..i];
      } else {
        assert all[..i] == a + b[..i - |a|];
        assert log + all[..i] == log + a + b[..i - |a|];
      }
    }
  }

  function MaxPage(log: seq<LogRec>): nat {
    if log == [] then 0
    else
      var rest, p := MaxPage(log[..|log| - 1]), log[|log| - 1].addr.page;
      if p > rest then p else rest
  }

  lemma {:induction false} PagesBelow(log: seq<LogRec>)
    ensures forall r :: r in log ==> r.addr.page <= MaxPage(log)
    decreases |log|
  {
    if log != [] {
      PagesBelow(log[..|log| - 1]);
      assert log == log[..|log| - 1] + [log[|log| - 1]];
    }
  }

  ghost predicate OnlyLinks(rest: seq<LogRec>) {
    forall i :: 0 <= i < |rest| ==> rest[i].e.LinkChange?
  }

  /** The page is full: not even the smallest record fits. */
  ghost predicate PageFull(log: seq<LogRec>) {
    log != [] && IsLastEntry(EndOf(log), MIN_ENTRY)
  }

  /** Link changes fill the page of the last record. */
  lemma {:induction false} Pad(log: seq<LogRec>) returns (rest: seq<LogRec>)
    requires Placed(log) && log != []
    ensures Appended(log, rest) && OnlyLinks(rest) && Placed(log + rest) && PageFull(log + rest)
    decreases if IsLastEntry(EndOf(log), MIN_ENTRY) then 0 else LAST_ENTRY - EndOf(log).off
  {
    var c := EndOf(log);
    if IsLastEntry(c, MIN_ENTRY) {
      rest := [];
      assert log + rest == log;
    } else {
      var r := LogRec(c, LinkChange(0, 0, 0));
      assert log[|log| - 1] in log;
      PlacedMore(log, r);
      var more := Pad(log + [r]);
      AppendedBoth(log, [r], more);
      rest := [r] + more;
    }
  }

  /** A write past the end of the file, on a new page of the log. */
  lemma FreshWrite(log: seq<LogRec>) returns (w: LogRec)
    requires Placed(log) && PageFull(log)
    ensures w.e.FileWrite? && Live(w.e) && w.addr.page !in PagesOf(log) && w.addr.page != 0
    ensures Placed(log + [w]) && Appended(log, [w])
  {
    var size := Replay(FRESH, log).size;
    w := LogRec(Addr(MaxPage(log) + 1, 0), FileWrite(PagesFor(size), 1, 0, 1, (PagesFor(size) + 1) * BLOCK));
    PagesBelow(log);
    PlacedMore(log, w);
  }

  /** One more page with a write in use and link changes. */
  lemma NewPage(log: seq<LogRec>, ls: Addr) returns (rest: seq<LogRec>, p: nat)
    requires Placed(log) && PageFull(log)
    ensures Appended(log, rest) && Placed(log + rest) && PageFull(log + rest)
    ensures p !in PagesOf(log) && exists r :: r in rest && r.addr.page == p && r.e.FileWrite? && Live(r.e)
    ensures UsedBytes(rest, ls, NOWHERE) == 40
  {
    var w := FreshWrite(log);
    var pad := Pad(log + [w]);
    AppendedBoth(log, [w], pad);
    rest, p := [w] + pad, w.addr.page;
    assert w in rest;
    UsedConcat([w], pad, ls, NOWHERE);
    assert [w][..0] == [];
    LinksUnused(log + [w], pad, ls);
  }

  lemma LinksUnused(log: seq<LogRec>, rest: seq<LogRec>, ls: Addr)
    requires OnlyLinks(rest) && Placed(log + rest)
    ensures UsedBytes(rest, ls, NOWHERE) == 0
  {
    forall i | 0 <= i < |rest| ensures !InUse(rest[i], ls, NOWHERE) {
      assert (log + rest)[|log| + i] == rest[i];
      assert rest[i] in log + rest;
    }
    UsedNone(rest, ls, NOWHERE);
  }

  ghost predicate HasWrite(log: seq<LogRec>, p: nat) {
    exists r :: r in log && r.addr.page == p && r.e.FileWrite? && Live(r.e)
  }

  /** Pages with writes, seen from a longer log. */
  lemma MoreWrites(log: seq<LogRec>, page: seq<LogRec>, more: seq<LogRec>, p: nat, ps: set<nat>)
    requires HasWrite(page, p) && p !in PagesOf(log) && ps !! PagesOf(log + page)
    requires forall x :: x in ps ==> HasWrite(more, x)
    ensures p !in ps && ps + {p} !! PagesOf(log) && forall x :: x in ps + {p} ==> HasWrite(page + more, x)
  {
    PagesOfConcat(log, page);
    assert p in PagesOf(page);
    forall x | x in ps + {p} ensures HasWrite(page + more, x) {
      var part := if x in ps then more else page;
      var r :| r in part && r.addr.page == x && r.e.FileWrite? && Live(r.e);
      assert r in page + more;
    }
  }

  /** n more pages, each with a write in use. */
  lemma {:induction false} Grow(log: seq<LogRec>, n: nat, ls: Addr) returns (rest: seq<LogRec>, pages: set<nat>)
    requires Placed(log) && PageFull(log)
    ensures Appended(log, rest) && Placed(log + rest) && PageFull(log + rest)
    ensures |pages| == n && pages !! PagesOf(log) && forall p :: p in pages ==> HasWrite(rest, p)
    ensures UsedBytes(rest, ls, NOWHERE) == 40 * n
    decreases n
  {
    hide Placed, PageFull, Appended, PagesOf, HasWrite;
    if n == 0 {
      rest, pages := [], {};
      assert log + rest == log;
      NothingAppended(log);
    } else {
      var page, p := NewPage(log, ls);
      var more, ps := Grow(log + page, n - 1, ls);
      AppendedBoth(log, page, more);
      MoreWrites(log, page, more, p, ps);
      UsedConcat(page, more, ls, NOWHERE);
      rest, pages := page + more, ps + {p};
    }
  }

  lemma NothingAppended(log: seq<LogRec>)
    ensures Appended(log, [])
  {
  }

  // ----- logs that are not secure ------------------------------------------------------------------------

  /** The records of `kept` move to pages `page` .. `last`, one behind the other. */
  ghost predicate Packed(moves: map<Addr, Addr>, kept: seq<LogRec>, page: nat, last: nat) {
    && Tightly(NOWHERE, MoveLog(moves, kept)) && page <= last
    && (forall a :: a in moves ==> page <= moves[a].page <= last)
    && MovesFrom(moves, kept) && forall i :: 0 <= i < |kept| ==> kept[i].addr in moves
  }

  lemma PackOne(moves: map<Addr, Addr>, kept: seq<LogRec>, page: nat, last: nat, r: LogRec, a: Addr)
    requires Packed(moves, kept, page, last) && forall i :: 0 <= i < |kept| ==> kept[i].addr != r.addr
    requires page <= a.page && Tight(Cursor(NOWHERE, MoveLog(moves, kept), |kept|), Len(r.e), a)
    ensures Packed(moves[r.addr := a], kept + [r], page, if a.page > last then a.page else last)
  {
    var moves', all := moves[r.addr := a], kept + [r];
    MoveMore(moves, r.addr, a, kept);
    MoveConcat(moves', kept, [r]);
    assert MoveLog(moves', [r]) == [LogRec(a, r.e)];
    TightlyMore(NOWHERE, MoveLog(moves, kept), LogRec(a, r.e));
    hide Tightly, MoveLog;
    forall x | x in moves' ensures exists i :: 0 <= i < |all| && all[i].addr == x {
      if x == r.addr {
        assert all[|kept|].addr == x;
      } else {
        var i :| 0 <= i < |kept| && kept[i].addr == x;
        assert all[i].addr == x;
      }
    }
  }

  lemma PackedCursor(moves: map<Addr, Addr>, kept: seq<LogRec>, page: nat, last: nat)
    requires Packed(moves, kept, page, last) && kept != []
    ensures page <= Cursor(NOWHERE, MoveLog(moves, kept), |kept|).page
  {
    MoveInit(moves, kept);
    assert kept[|kept| - 1].addr in moves;
  }

  /** Where thorough collection puts the records it copies: one behind the other, from
      a page on that is not in use. */
  lemma {:induction false} Pack(kept: seq<LogRec>, page: nat) returns (moves: map<Addr, Addr>, last: nat)
    requires DistinctAddrs(kept)
    ensures Packed(moves, kept, page, last)
    decreases |kept|
  {
    if kept == [] {
      moves, last := map[], page;
    } else {
      var n := |kept| - 1;
      var init, r := kept[..n], kept[n];
      assert kept == init + [r] && forall i :: 0 <= i < n ==> init[i] == kept[i];
      moves, last := Pack(init, page);
      hide Packed;
      var c := Cursor(NOWHERE, MoveLog(moves, init), n);
      if n > 0 {
        PackedCursor(moves, init, page, last);
      }
      var a := if n > 0 && !IsLastEntry(c, Len(r.e)) then c else Addr(page + last + 1, 0);
      PackOne(moves, init, page, last, r, a);
      moves, last := moves[r.addr := a], if a.page > last then a.page else last;
    }
  }

  /** Dropping what is not in use leaves the bytes in use. */
  lemma {:induction false} PurgedUsed(log: seq<LogRec>, gone: set<nat>, ls: Addr, ll: Addr)
    requires forall r :: r in log && r.addr.page in gone ==> !InUse(r, ls, ll)
    ensures UsedBytes(Purged(log, gone), ls, ll) == UsedBytes(log, ls, ll)
    decreases |log|
  {
    if log != [] {
      var n := |log| - 1;
      assert log == log[..n] + [log[n]];
      PurgedUsed(log[..n], gone, ls, ll);
      var init := Purged(log[..n], gone);
      assert (init + [log[n]])[..|init|] == init && init + [] == init;
    }
  }

  /** A link pointer that points elsewhere might as well be null. */
  lemma {:induction false} UsedElsewhere(log: seq<LogRec>, ls: Addr, ll: Addr)
    requires OnMedia(log) && forall r :: r in log ==> r.addr != ll
    ensures UsedBytes(log, ls, ll) == UsedBytes(log, ls, NOWHERE)
    decreases |log|
  {
    if log != [] {
      var n := |log| - 1;
      assert forall i :: 0 <= i < n ==> log[..n][i] == log[i];
      assert log[n] in log && log[n].addr != NOWHERE;
      UsedElsewhere(log[..n], ls, ll);
    }
  }

  lemma {:induction false} SubsetSize(a: set<nat>, b: set<nat>)
    requires a <= b
    ensures |a| <= |b|
    decreases a
  {
    if x :| x in a {
      SubsetSize(a - {x}, b - {x});
    }
  }

  /** Enough pages with little in use on them. */
  lemma Enough(v: nat, pages: nat)
    requires pages >= v + 4
    ensures var blocks := LogBlocks(v + 40 * (v + 4)); 0 < blocks && 2 * blocks < pages
  {
  }

  /** A link change, alone on its page. */
  lemma LoneLink(log: seq<LogRec>) returns (last: LogRec)
    requires Placed(log) && PageFull(log)
    ensures last.e.LinkChange? && Appended(log, [last]) && Placed(log + [last])
    ensures forall r :: r in log ==> r.addr.page != last.addr.page
  {
    last := LogRec(Addr(MaxPage(log) + 1, 0), LinkChange(0, 0, 0));
    PagesBelow(log);
    PlacedMore(log, last);
  }

  /** The bytes in use on the log grown long. */
  lemma LongBytes(log: seq<LogRec>, pad: seq<LogRec>, more: seq<LogRec>, ls: Addr, ll: Addr)
    requires Placed(log + pad) && OnlyLinks(pad) && Placed(log + pad + more)
    requires forall r :: r in log + pad + more ==> r.addr != ll
    ensures UsedBytes(log + pad + more, ls, ll) ==
            UsedBytes(log, ls, NOWHERE) + UsedBytes(more, ls, NOWHERE)
  {
    var all := log + pad + more;
    UsedConcat(log, pad, ls, NOWHERE);
    UsedConcat(log + pad, more, ls, NOWHERE);
    LinksUnused(log, pad, ls);
    assert forall i :: 0 <= i < |all| ==> all[i] in all;
    UsedElsewhere(all, ls, ll);
  }

  lemma NoChanges(log: seq<LogRec>, rest: seq<LogRec>)
    requires Appended(log, rest)
    ensures forall i :: 0 <= i < |rest| ==> !rest[i].e.SetAttr?
  {
    forall i | 0 <= i < |rest| ensures !rest[i].e.SetAttr? {
      assert CanAppend(log + rest[..i], rest[i]);
    }
  }

  lemma WritesThere(log: seq<LogRec>, more: seq<LogRec>, pages: set<nat>)
    requires forall p :: p in pages ==> HasWrite(more, p)
    ensures forall p :: p in pages ==> HasWrite(log + more, p)
  {
    forall p | p in pages ensures HasWrite(log + more, p) {
      var r :| r in more && r.addr.page == p && r.e.FileWrite? && Live(r.e);
      assert r in log + more;
    }
  }

  /** The log grown long: writes and link changes follow, and the last link change is
      alone on its page. */
  lemma GrowLong(log: seq<LogRec>, ls: Addr) returns (rest: seq<LogRec>, last: LogRec, pages: set<nat>)
    requires Placed(log) && log != []
    ensures Appended(log, rest + [last]) && Placed(log + rest + [last]) && last.e.LinkChange?
    ensures forall r :: r in log + rest ==> r.addr.page != last.addr.page
    ensures UsedBytes(log + rest, ls, last.addr) == UsedBytes(log, ls, NOWHERE) + 40 * |pages|
    ensures |pages| == UsedBytes(log, ls, NOWHERE) + 4 && forall p :: p in pages ==> HasWrite(log + rest, p)
    ensures forall i :: 0 <= i < |rest| ==> !rest[i].e.SetAttr?
  {
    hide Placed, PageFull, Appended, PagesOf, HasWrite, UsedBytes;
    var pad := Pad(log);
    var more;
    more, pages := Grow(log + pad, UsedBytes(log, ls, NOWHERE) + 4, ls);
    AppendedBoth(log, pad, more);
    rest := pad + more;
    last := LoneLink(log + rest);
    AppendedBoth(log, rest, [last]);
    LongBytes(log, pad, more, ls, last.addr);
    WritesThere(log + pad, more, pages);
    NoChanges(log, rest);
  }

  /** Fast collection of the log grown long. */
  lemma SweepLong(log: seq<LogRec>, last: LogRec, ls: Addr, pages: set<nat>) returns (pre: seq<LogRec>)
    requires Placed(log + [last]) && forall r :: r in log ==> r.addr.page != last.addr.page
    requires forall p :: p in pages ==> HasWrite(log, p)
    ensures var how := Collection(true, last.addr.page, pre, [last], false, map[]);
            FastSteps(log + [last], Head(ls, last.addr), how)
    ensures UsedBytes(pre, ls, last.addr) == UsedBytes(log, ls, last.addr) && |pages| <= |PagesOf(pre)|
  {
    var all, ll := log + [last], last.addr;
    var gone := set p | p in PagesOf(log) && Dead(all, p, ls, ll);
    pre := Purged(log, gone);
    SweepAll(log, last, ls, gone);
    PurgedUsed(log, gone, ls, ll);
    forall p | p in pages ensures p in PagesOf(pre) {
      PageStays(log, last, ls, gone, p);
    }
    SubsetSize(pages, PagesOf(pre));
  }

  /** A page with a write in use stays. */
  lemma PageStays(log: seq<LogRec>, last: LogRec, ls: Addr, gone: set<nat>, p: nat)
    requires HasWrite(log, p) && gone == set p | p in PagesOf(log) && Dead(log + [last], p, ls, last.addr)
    ensures p in PagesOf(Purged(log, gone))
  {
    var r :| r in log && r.addr.page == p && r.e.FileWrite? && Live(r.e);
    assert r in log + [last] && InUse(r, ls, last.addr);
    assert !Dead(log + [last], p, ls, last.addr);
    PurgedHas(log, gone);
    assert r in Purged(log, gone);
  }

  /** Dropping exactly the dead pages is what fast collection does. */
  lemma SweepAll(log: seq<LogRec>, last: LogRec, ls: Addr, gone: set<nat>)
    requires forall r :: r in log ==> r.addr.page != last.addr.page
    requires gone == set p | p in PagesOf(log) && Dead(log + [last], p, ls, last.addr)
    ensures FastSteps(log + [last], Head(ls, last.addr),
                      Collection(true, last.addr.page, Purged(log, gone), [last], false, map[]))
    ensures forall r :: r in log && r.addr.page in gone ==> !InUse(r, ls, last.addr)
  {
    var all, ll, tail, pre := log + [last], last.addr, last.addr.page, Purged(log, gone);
    PurgedConcat(log, [last], gone);
    PurgedAll([last], gone);
    PurgedHas(log, gone);
    assert forall r :: r in log ==> r in all;
    assert Sweeps(all, pre + [last], gone, ls, ll, tail) by {
      forall r | r in all && r.addr.page in gone ensures !InUse(r, ls, ll) {
        assert Dead(all, r.addr.page, ls, ll);
      }
    }
    forall r | r in pre + [last] && r.addr.page != tail ensures !Dead(pre + [last], r.addr.page, ls, ll) {
      assert r in pre && r.addr.page in PagesOf(log) && !Dead(all, r.addr.page, ls, ll);
      var q :| q in all && q.addr.page == r.addr.page && InUse(q, ls, ll);
      assert q in log && q in pre + [last];
    }
  }

  /** What is left of the attributes after the collection of the log grown long. */
  lemma LostAttributes(s: HeadLog, rest: seq<LogRec>, last: LogRec, pre: seq<LogRec>)
    requires Placed(s.log + rest + [last]) && last.e.LinkChange? && HeaderOk(s.log, s.h.ls)
    requires !Secure(s.log, s.h.ls) && forall i :: 0 <= i < |rest| ==> !rest[i].e.SetAttr?
    requires Compacted(s.log + rest + [last], pre + [last], s.h.ls, last.addr)
    requires OnMedia(pre + [last]) && DistinctAddrs(pre + [last])
    ensures LastAttr(Copy(pre, s.h.ls, last.addr).kept) == LastTruncAttr(s.log) != LastAttr(s.log)
  {
    var ls, all := s.h.ls, s.log + rest + [last];
    SecureIff(s.log, ls);
    AddKeepsSecure(s.log, ls, rest);
    AddKeepsSecure(s.log + rest, ls, [last]);
    FastKeepsNoAttr(all, pre + [last], ls, last.addr);
    FastKeepsLast(all, pre + [last], ls, last.addr);
    AddKeepsSecure(pre, ls, [last]);
    SubAddrs(pre, [last]);
    var i := LastChangeIsThere(pre);
    OnlyLastIsLast(pre, i);
    CopyKeepsTruncations(pre, ls, last.addr);
  }

  /** From a log that is not secure, a run loses the last attribute change: writes and
      link changes until the log is long, then one collection. */
  lemma InsecureLogsLoseAttributes(s: HeadLog) returns (t: HeadLog, u: HeadLog, rest: seq<LogRec>, how: Collection)
    requires Placed(s.log) && HeaderOk(s.log, s.h.ls) && !Secure(s.log, s.h.ls)
    ensures StepOk(s, t, Add(rest)) && StepOk(t, u, Collect(how))
    ensures Replay(FRESH, u.log).attr != Replay(FRESH, s.log).attr
  {
    assert s.log != [];
    hide *;
    var more, last, pages := GrowLong(s.log, s.h.ls);
    rest := more + [last];
    t := HeadLog(s.log + rest, Head(s.h.ls, last.addr));
    IsAdd(s, more, last);
    SameLog(s.log, more, last);
    how, u := LoseLong(s, more, last, pages, t.log);
    IsCollect(t, u, how);
  }

  lemma SameLog(log: seq<LogRec>, more: seq<LogRec>, last: LogRec)
    ensures log + (more + [last]) == log + more + [last] && (log + (more + [last]))[|log| + |more|] == last
  {
  }

  /** The collection of the log grown long. */
  lemma LoseLong(s: HeadLog, more: seq<LogRec>, last: LogRec, pages: set<nat>, log: seq<LogRec>)
    returns (how: Collection, u: HeadLog)
    requires log == s.log + more + [last] && Placed(log) && last.e.LinkChange?
    requires forall r :: r in s.log + more ==> r.addr.page != last.addr.page
    requires UsedBytes(s.log + more, s.h.ls, last.addr) == UsedBytes(s.log, s.h.ls, NOWHERE) + 40 * |pages|
    requires |pages| == UsedBytes(s.log, s.h.ls, NOWHERE) + 4 && forall p :: p in pages ==> HasWrite(s.log + more, p)
    requires forall i :: 0 <= i < |more| ==> !more[i].e.SetAttr?
    requires HeaderOk(s.log, s.h.ls) && !Secure(s.log, s.h.ls)
    ensures how.ran && how.tail == last.addr.page && OnMedia(log) && DistinctAddrs(log)
    ensures GcSteps(log, Head(s.h.ls, last.addr), u.log, u.h, how)
    ensures Replay(FRESH, u.log).attr != Replay(FRESH, s.log).attr
  {
    hide *;
    var pre := SweepLong(s.log + more, last, s.h.ls, pages);
    how, u := CollectLong(log, Head(s.h.ls, last.addr), pre, last, pages, UsedBytes(s.log, s.h.ls, NOWHERE));
    LostByCollection(s, more, last, pre, how, u);
  }

  lemma IsAdd(s: HeadLog, more: seq<LogRec>, last: LogRec)
    requires Appended(s.log, more + [last]) && last.e.LinkChange?
    ensures StepOk(s, HeadLog(s.log + (more + [last]), Head(s.h.ls, last.addr)), Add(more + [last]))
  {
    LinkConcat(more, [last], s.h.ll);
    assert [last][..0] == [];
  }

  lemma IsCollect(t: HeadLog, u: HeadLog, how: Collection)
    requires OnMedia(t.log) && DistinctAddrs(t.log) && t.log != [] && GcSteps(t.log, t.h, u.log, u.h, how)
    requires how.ran && how.tail == t.log[|t.log| - 1].addr.page
    ensures StepOk(t, u, Collect(how))
  {
  }

  lemma LostByCollection(s: HeadLog, more: seq<LogRec>, last: LogRec, pre: seq<LogRec>, how: Collection, u: HeadLog)
    requires Placed(s.log + more + [last]) && last.e.LinkChange? && HeaderOk(s.log, s.h.ls)
    requires !Secure(s.log, s.h.ls) && forall i :: 0 <= i < |more| ==> !more[i].e.SetAttr?
    requires how.ran && how.pre == pre && how.post == [last] && OnMedia(s.log + more + [last])
    requires FastSteps(s.log + more + [last], Head(s.h.ls, last.addr), how)
    requires u.log == MoveLog(how.moves, Copy(pre, s.h.ls, last.addr).kept + [last])
    ensures Replay(FRESH, u.log).attr != Replay(FRESH, s.log).attr
  {
    var ls, h := s.h.ls, Head(s.h.ls, last.addr);
    AfterFast(s.log + more + [last], h, how);
    LostAttributes(s, more, last, pre);
    hide Copy, MoveLog;
    LastAttrConcat(Copy(pre, ls, last.addr).kept, [last]);
    assert [last][..0] == [];
    MoveKeepsAttrs(how.moves, Copy(pre, ls, last.addr).kept + [last]);
    ReplayAttr(FRESH, u.log);
    ReplayAttr(FRESH, s.log);
  }

  lemma CollectLong(log: seq<LogRec>, h: Head, pre: seq<LogRec>, last: LogRec, pages: set<nat>, v: nat)
    returns (how: Collection, u: HeadLog)
    requires Placed(log) && h.ll == last.addr && last.e.LinkChange?
    requires FastSteps(log, h, Collection(true, last.addr.page, pre, [last], false, map[]))
    requires |pages| == v + 4 && |pages| <= |PagesOf(pre)| && UsedBytes(pre, h.ls, h.ll) == v + 40 * (v + 4)
    ensures how == Collection(true, last.addr.page, pre, [last], true, how.moves)
    ensures OnMedia(log) && DistinctAddrs(log) && GcSteps(log, h, u.log, u.h, how) && FastSteps(log, h, how)
    ensures u.log == MoveLog(how.moves, Copy(pre, h.ls, h.ll).kept + [last])
  {
    hide Swept, AllLive, UsedBytes, Copy, Tightly, MoveLog;
    var kept := Copy(pre, h.ls, h.ll).kept;
    assert OnMedia(log) by {
      assert forall i :: 0 <= i < |log| ==> log[i] in log;
    }
    how := Collection(true, last.addr.page, pre, [last], false, map[]);
    AfterFast(log, h, how);
    var moves := PackCopies(pre, last, h);
    how := how.(switched := true, moves := moves);
    Enough(v, |PagesOf(pre)|);
    var copied := MoveLog(moves, kept);
    u := HeadLog(MoveLog(moves, kept + [last]), Head(LastChange(copied, h.ls), LastLinkChange(copied, h.ll)));
  }

  lemma PackCopies(pre: seq<LogRec>, last: LogRec, h: Head) returns (moves: map<Addr, Addr>)
    requires OnMedia(pre + [last]) && DistinctAddrs(pre + [last])
    ensures var kept := Copy(pre, h.ls, h.ll).kept;
            Tightly(NOWHERE, MoveLog(moves, kept)) && MovesFrom(moves, pre) && FreshMoves(moves, pre + [last])
  {
    var kept := Copy(pre, h.ls, h.ll).kept;
    SubAddrs(pre, [last]);
    CopyCompacts(pre, h.ls, h.ll);
    CompactedSubset(pre, kept, NOWHERE, h.ll);
    CompactedPlaces(pre, kept, NOWHERE, h.ll);
    PagesBelow(pre + [last]);
    var to;
    moves, to := Pack(kept, MaxPage(pre + [last]) + 1);
    forall a | a in moves ensures exists n :: 0 <= n < |pre| && pre[n].addr == a {
      var i :| 0 <= i < |kept| && kept[i].addr == a;
      assert kept[i] in pre;
    }
  }

  /** Every run from `s` leaves the attributes as they are. */
  ghost predicate AttributesSurvive(s: HeadLog) {
    forall states: seq<HeadLog>, steps: seq<LogStep> :: LogRun(states, steps) && states[0] == s ==>
      Replay(FRESH, states[|states| - 1].log).attr == Replay(FRESH, s.log).attr
  }

  /** With a right header, the attributes survive every run if and only if no change,
      or no truncation is in the log, or the last truncation carries the attributes of
      the last change. */
  lemma AttributesSurviveIff(s: HeadLog)
    requires Placed(s.log) && HeaderOk(s.log, s.h.ls)
    ensures AttributesSurvive(s) <==>
              LastAttr(s.log).None? || LastTruncAttr(s.log).None? || LastTruncAttr(s.log) == LastAttr(s.log)
  {
    SecureIff(s.log, s.h.ls);
    if Secure(s.log, s.h.ls) {
      forall states: seq<HeadLog>, steps: seq<LogStep> | LogRun(states, steps) && states[0] == s
        ensures Replay(FRESH, states[|states| - 1].log).attr == Replay(FRESH, s.log).attr
      {
        SecureLogsKeepAttributes(states, steps);
      }
    } else {
      hide StepOk, Secure, LastAttr, LastTruncAttr;
      var t, u, rest, how := InsecureLogsLoseAttributes(s);
      var states, steps := [s, t, u], [Add(rest), Collect(how)];
      assert StepOk(states[0], states[1], steps[0]) && StepOk(states[1], states[2], steps[1]);
      assert LogRun(states, steps);
    }
  }

  /** A truncation, then a change of mode: the header is right, and yet the change of
      mode can be lost. */
  lemma ChmodCanBeLost()
    ensures var truncate := LogRec(Addr(1, 0), SetAttr(true, Attr(0x81A4, 0, 0), 0));
            var chmod := LogRec(Addr(2, 0), SetAttr(false, Attr(0x8180, 0, 0), 0));
            var s := HeadLog([truncate, chmod], Head(chmod.addr, NOWHERE));
            HeaderOk(s.log, s.h.ls) && !AttributesSurvive(s)
  {
    var truncate := LogRec(Addr(1, 0), SetAttr(true, Attr(0x81A4, 0, 0), 0));
    var chmod := LogRec(Addr(2, 0), SetAttr(false, Attr(0x8180, 0, 0), 0));
    var log := [truncate, chmod];
    assert log[..1] == [truncate];
    assert LastTruncAttr(log) == LastTruncAttr(log[..1]) && LastAttr(log) == Some(chmod.e.attr);
    AttributesSurviveIff(HeadLog(log, Head(chmod.addr, NOWHERE)));
  }

  /** A change of mode that is taken back is safe, whatever came in between. */
  lemma ChmodTakenBackSurvives(a: Attr, b: Attr)
    ensures var truncate := LogRec(Addr(1, 0), SetAttr(true, a, 0));
            var chmod, back := LogRec(Addr(2, 0), SetAttr(false, b, 0)), LogRec(Addr(2, 32), SetAttr(false, a, 0));
            AttributesSurvive(HeadLog([truncate, chmod, back], Head(back.addr, NOWHERE)))
  {
    var truncate := LogRec(Addr(1, 0), SetAttr(true, a, 0));
    var chmod, back := LogRec(Addr(2, 0), SetAttr(false, b, 0)), LogRec(Addr(2, 32), SetAttr(false, a, 0));
    var log := [truncate, chmod, back];
    assert log[..2] == [truncate, chmod] && [truncate, chmod][..1] == [truncate];
    assert LastTruncAttr(log) == LastTruncAttr(log[..2]) == LastTruncAttr([truncate]) == Some(a);
    AttributesSurviveIff(HeadLog(log, Head(back.addr, NOWHERE)));
  }
}
