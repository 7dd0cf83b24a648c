/** What one collection does to the attributes and the link count of a file.

The inode header points at the last attribute change and at the last link
change; fast collection spares those two, and every truncation.  Thorough
collection moves the attribute pointer to the last attribute change it copied,
even when a later one lies on the tail page. */
module HeaderRuns {
  import opened Options
  import opened LogPages
  import opened FileReplay
  import opened LogSurgery
  import opened LogSweep
  import opened InodeLogs
  import opened LogMeaning

  /** The header points at the last attribute change, if there is one. */
  predicate HeaderOk(log: seq<LogRec>, ls: Addr) {
    LastAttr(log).None? || LastChange(log, NOWHERE) == ls
  }

  /** The header points at a truncation. */
  ghost predicate AtTruncation(log: seq<LogRec>, ls: Addr) {
    exists r :: r in log && r.addr == ls && Truncates(r)
  }

  predicate Truncates(r: LogRec) {
    r.e.SetAttr? && r.e.setsSize
  }

  /** The attribute changes that follow the last truncation all lie on page p. */
  predicate LateOn(log: seq<LogRec>, p: nat) {
    log == [] ||
    (var r := log[|log| - 1];
     Truncates(r) || ((r.e.SetAttr? ==> r.addr.page == p) && LateOn(log[..|log| - 1], p)))
  }

  /** What keeps the attributes safe: there is no change; or there is no truncation
      and the header is right; or the last truncation carries the attributes of the
      last change, and either the header is right, or it points at a truncation and
      later changes share their fate, since they lie on one page. */
  ghost predicate Secure(log: seq<LogRec>, ls: Addr) {
    || LastAttr(log).None?
    || (LastTruncAttr(log).None? && LastChange(log, NOWHERE) == ls)
    || (LastTruncAttr(log) == LastAttr(log) && LastChange(log, NOWHERE) == ls)
    || (LastTruncAttr(log) == LastAttr(log) && AtTruncation(log, ls) && exists p :: LateOn(log, p))
  }

  /** With a right header, only the attributes themselves matter. */
  lemma SecureIff(log: seq<LogRec>, ls: Addr)
    requires HeaderOk(log, ls)
    ensures Secure(log, ls) <==>
              LastAttr(log).None? || LastTruncAttr(log).None? || LastTruncAttr(log) == LastAttr(log)
  {
  }

  // ----- fast collection -------------------------------------------------------------------------------

  /** Compaction, seen from the end of the log. */
  lemma {:induction false} CompactedLast(a: seq<LogRec>, r: LogRec, b: seq<LogRec>, ls: Addr, ll: Addr)
    requires Compacted(a + [r], b, ls, ll)
    ensures || (b != [] && b[|b| - 1] == r && Compacted(a, b[..|b| - 1], ls, ll))
            || (!InUse(r, ls, ll) && Compacted(a, b, ls, ll))
    decreases |a|
  {
    var all := a + [r];
    if a == [] {
      assert all == [r] && all[1..] == [];
    } else {
      assert all[0] == a[0] && all[1..] == a[1..] + [r];
      if b != [] && b[0] == a[0] && Compacted(all[1..], b[1..], ls, ll) {
        CompactedLast(a[1..], r, b[1..], ls, ll);
        if b[1..] != [] && b[1..][|b| - 2] == r && Compacted(a[1..], b[1..][..|b| - 2], ls, ll) {
          assert b[..|b| - 1][1..] == b[1..][..|b| - 2];
        }
      } else {
        CompactedLast(a[1..], r, b, ls, ll);
      }
    }
  }

  lemma {:induction false} FastKeepsNoAttr(a: seq<LogRec>, b: seq<LogRec>, ls: Addr, ll: Addr)
    requires Compacted(a, b, ls, ll)
    ensures LastAttr(a).None? ==> LastAttr(b).None?
    ensures LastTruncAttr(a) == LastTruncAttr(b)
    decreases |a|
  {
    if a != [] {
      var n := |a| - 1;
      assert a == a[..n] + [a[n]];
      CompactedLast(a[..n], a[n], b, ls, ll);
      if b != [] && b[|b| - 1] == a[n] && Compacted(a[..n], b[..|b| - 1], ls, ll) {
        FastKeepsNoAttr(a[..n], b[..|b| - 1], ls, ll);
      } else {
        FastKeepsNoAttr(a[..n], b, ls, ll);
      }
    }
  }

  /** The change the header points at stays, and stays the last one. */
  lemma {:induction false} FastKeepsLast(a: seq<LogRec>, b: seq<LogRec>, ls: Addr, ll: Addr)
    requires Compacted(a, b, ls, ll) && LastAttr(a).Some? && LastChange(a, NOWHERE) == ls
    ensures LastAttr(b) == LastAttr(a) && LastChange(b, NOWHERE) == ls
    decreases |a|
  {
    var n := |a| - 1;
    assert a == a[..n] + [a[n]];
    CompactedLast(a[..n], a[n], b, ls, ll);
    if !a[n].e.SetAttr? {
      if b != [] && b[|b| - 1] == a[n] && Compacted(a[..n], b[..|b| - 1], ls, ll) {
        FastKeepsLast(a[..n], b[..|b| - 1], ls, ll);
      } else {
        FastKeepsLast(a[..n], b, ls, ll);
      }
    }
  }

  /** Later changes on one page go or stay together. */
  lemma {:induction false} LatePurged(a: seq<LogRec>, gone: set<nat>, p: nat)
    requires LateOn(a, p) && forall r :: r in a && Truncates(r) ==> r.addr.page !in gone
    ensures LateOn(Purged(a, gone), p)
    ensures LastAttr(Purged(a, gone)) == if p in gone then LastTruncAttr(a) else LastAttr(a)
    decreases |a|
  {
    if a != [] {
      var n := |a| - 1;
      var init := Purged(a[..n], gone);
      assert a[n] in a;
      var all := init + [a[n]];
      assert all[..|init|] == init && all[|init|] == a[n] && init + [] == init;
      if Truncates(a[n]) {
        assert Purged(a, gone) == all;
      } else {
        LatePurged(a[..n], gone, p);
      }
    }
  }

  lemma FastKeepsSecure(a: seq<LogRec>, b: seq<LogRec>, ls: Addr, ll: Addr, tail: nat)
    requires Swept(a, b, ls, ll, tail) && Secure(a, ls)
    ensures Secure(b, ls) && LastAttr(b) == LastAttr(a)
  {
    SweptCompacts(a, b, ls, ll, tail);
    FastKeepsNoAttr(a, b, ls, ll);
    if LastAttr(a).Some? {
      if LastChange(a, NOWHERE) == ls {
        FastKeepsLast(a, b, ls, ll);
      } else {
        var p :| LateOn(a, p);
        var gone: set<nat> :| Sweeps(a, b, gone, ls, ll, tail);
        LatePurged(a, gone, p);
        PurgedHas(a, gone);
      }
    }
  }

  // ----- thorough collection ---------------------------------------------------------------------------

  lemma {:induction false} MoveKeepsAttrs(moves: map<Addr, Addr>, log: seq<LogRec>)
    ensures LastAttr(MoveLog(moves, log)) == LastAttr(log) && LastTruncAttr(MoveLog(moves, log)) == LastTruncAttr(log)
    ensures LastAttr(log).Some? ==> LastChange(MoveLog(moves, log), NOWHERE) == Moved(moves, LastChange(log, NOWHERE))
    decreases |log|
  {
    if log != [] {
      var n := |log| - 1;
      MoveInit(moves, log);
      MoveKeepsAttrs(moves, log[..n]);
    }
  }

  lemma MoveInit(moves: map<Addr, Addr>, log: seq<LogRec>)
    requires log != []
    ensures var moved := MoveLog(moves, log);
            moved[|log| - 1] == MoveRec(moves, log[|log| - 1]) && moved[..|log| - 1] == MoveLog(moves, log[..|log| - 1])
  {
    var n := |log| - 1;
    assert log == log[..n] + [log[n]];
    MoveConcat(moves, log[..n], [log[n]]);
    assert MoveLog(moves, [log[n]]) == [MoveRec(moves, log[n])];
  }

  lemma {:induction false} ConcatAttrs(a: seq<LogRec>, b: seq<LogRec>)
    ensures LastAttr(a + b) == if LastAttr(b).Some? then LastAttr(b) else LastAttr(a)
    ensures LastTruncAttr(a + b) == if LastTruncAttr(b).Some? then LastTruncAttr(b) else LastTruncAttr(a)
    ensures forall d :: LastChange(a + b, d) == if LastAttr(b).Some? then LastChange(b, NOWHERE) else LastChange(a, d)
    ensures forall p :: LateOn(a + b, p) <==> LateOn(b, p) && (LastTruncAttr(b).Some? || LateOn(a, p))
    decreases |b|
  {
    if b == [] {
      assert a + b == a;
    } else {
      var n := |b| - 1;
      assert (a + b)[..|a + b| - 1] == a + b[..n] && (a + b)[|a + b| - 1] == b[n];
      ConcatAttrs(a, b[..n]);
    }
  }

  /** The last attribute change is a truncation, if there is one. */
  predicate EndsInTruncation(log: seq<LogRec>) {
    log == [] ||
    (var r := log[|log| - 1];
     if r.e.SetAttr? then r.e.setsSize else EndsInTruncation(log[..|log| - 1]))
  }

  lemma {:induction false} TruncationLast(moves: map<Addr, Addr>, log: seq<LogRec>)
    requires EndsInTruncation(log)
    ensures EndsInTruncation(MoveLog(moves, log)) && LastAttr(log) == LastTruncAttr(log) && forall p :: LateOn(log, p)
    ensures LastAttr(log).Some? ==> AtTruncation(log, LastChange(log, NOWHERE))
    decreases |log|
  {
    if log != [] {
      var n := |log| - 1;
      MoveInit(moves, log);
      if log[n].e.SetAttr? {
        assert log[n] in log;
      } else {
        TruncationLast(moves, log[..n]);
      }
    }
  }

  /** The change the header points at, if it is in the log, is a truncation. */
  ghost predicate PointsAtTruncation(log: seq<LogRec>, ls: Addr) {
    forall r :: r in log && r.addr == ls && r.e.SetAttr? ==> r.e.setsSize
  }

  /** Of the attribute changes only truncations are copied, or none follows the
      last truncation copied. */
  lemma {:induction false} CopyEndsInTruncation(log: seq<LogRec>, ls: Addr, ll: Addr)
    requires OnMedia(log) && ls != NOWHERE
    requires PointsAtTruncation(log, ls) || (LastOrAbsent(log, ls) && LastTruncAttr(log).Some?)
    ensures EndsInTruncation(Copy(log, ls, ll).kept) && LastTruncAttr(Copy(log, ls, ll).kept) == LastTruncAttr(log)
    decreases |log|
  {
    if log != [] {
      var n := |log| - 1;
      var g := Copy(log[..n], ls, ll);
      assert forall i :: 0 <= i < n ==> log[..n][i] == log[i];
      assert log[n].addr != NOWHERE && log[n] in log;
      assert (g.kept + [log[n]])[..|g.kept|] == g.kept;
      CopyPointer(log[..n], ls, ll);
      if PointsAtTruncation(log, ls) {
        CopyEndsInTruncation(log[..n], ls, ll);
      } else {
        CopyKeepsTruncations(log[..n], ls, ll);
        KeptTruncations(log[..n], ls, ll);
        if LastTruncAttr(log[..n]).Some? {
          CopyEndsInTruncation(log[..n], ls, ll);
        }
      }
    }
  }

  lemma {:induction false} CopyPointer(log: seq<LogRec>, ls: Addr, ll: Addr)
    ensures Copy(log, ls, ll).ls == ls || Copy(log, ls, ll).ls == NOWHERE
    decreases |log|
  {
    if log != [] {
      CopyPointer(log[..|log| - 1], ls, ll);
    }
  }

  lemma {:induction false} KeptTruncations(log: seq<LogRec>, ls: Addr, ll: Addr)
    ensures LastTruncAttr(Copy(log, ls, ll).kept) == LastTruncAttr(log)
    decreases |log|
  {
    if log != [] {
      var n := |log| - 1;
      var g := Copy(log[..n], ls, ll);
      KeptTruncations(log[..n], ls, ll);
      assert (g.kept + [log[n]])[..|g.kept|] == g.kept;
    }
  }

  /** Without truncations, only the change the header points at is copied. */
  lemma {:induction false} CopyWithoutTruncation(log: seq<LogRec>, ls: Addr, ll: Addr)
    requires LastTruncAttr(log).None? && OnMedia(log) && DistinctAddrs(log)
    ensures LastTruncAttr(Copy(log, ls, ll).kept).None?
    ensures LastAttr(Copy(log, ls, ll).kept).Some? ==>
              LastChange(Copy(log, ls, ll).kept, NOWHERE) == ls && exists i :: 0 <= i < |log| && log[i].addr == ls
    ensures Copy(log, ls, ll).ls == ls || Copy(log, ls, ll).ls == NOWHERE
    decreases |log|
  {
    if log != [] {
      var n := |log| - 1;
      var g := Copy(log[..n], ls, ll);
      assert forall i :: 0 <= i < n ==> log[..n][i] == log[i];
      CopyWithoutTruncation(log[..n], ls, ll);
      assert (g.kept + [log[n]])[..|g.kept|] == g.kept;
      assert log[n].addr != NOWHERE;
      if i :| 0 <= i < n && log[..n][i].addr == ls {
        assert log[i].addr == ls;
      }
    }
  }

  lemma {:induction false} CopyHeader(log: seq<LogRec>, ls: Addr, ll: Addr)
    requires LastTruncAttr(log).None? && LastAttr(log).Some? && LastChange(log, NOWHERE) == ls && OnMedia(log)
             && DistinctAddrs(log)
    ensures LastAttr(Copy(log, ls, ll).kept) == LastAttr(log) && LastChange(Copy(log, ls, ll).kept, NOWHERE) == ls
    decreases |log|
  {
    var n := |log| - 1;
    var g := Copy(log[..n], ls, ll);
    assert forall i :: 0 <= i < n ==> log[..n][i] == log[i];
    assert (g.kept + [log[n]])[..|g.kept|] == g.kept;
    if log[n].e.SetAttr? {
      HeaderUntouched(log[..n], ls, ll);
    } else {
      CopyHeader(log[..n], ls, ll);
    }
  }

  /** A header that points elsewhere stays while no truncation is copied. */
  lemma {:induction false} HeaderUntouched(log: seq<LogRec>, ls: Addr, ll: Addr)
    requires LastTruncAttr(log).None? && forall i :: 0 <= i < |log| ==> log[i].addr != ls
    ensures Copy(log, ls, ll).ls == ls && LastAttr(Copy(log, ls, ll).kept).None?
    decreases |log|
  {
    if log != [] {
      var n := |log| - 1;
      var g := Copy(log[..n], ls, ll);
      assert forall i :: 0 <= i < n ==> log[..n][i] == log[i];
      assert (g.kept + [log[n]])[..|g.kept|] == g.kept;
      HeaderUntouched(log[..n], ls, ll);
    }
  }

  lemma {:induction false} LastChangeIsThere(log: seq<LogRec>) returns (i: nat)
    requires LastAttr(log).Some?
    ensures i < |log| && log[i].addr == LastChange(log, NOWHERE) && log[i].e.SetAttr?
    decreases |log|
  {
    var n := |log| - 1;
    if log[n].e.SetAttr? {
      i := n;
    } else {
      i := LastChangeIsThere(log[..n]);
    }
  }

  /** Records that do not move stay late on their page. */
  lemma {:induction false} TailStays(moves: map<Addr, Addr>, post: seq<LogRec>, p: nat)
    requires forall r :: r in post ==> r.addr.page == p && r.addr !in moves
    ensures MoveLog(moves, post) == post && LateOn(post, p)
    decreases |post|
  {
    if post != [] {
      var n := |post| - 1;
      MoveInit(moves, post);
      assert post[n] in post;
      assert post == post[..n] + [post[n]];
      TailStays(moves, post[..n], p);
    }
  }

  /** The pieces of a thorough collection, for the proofs below. */
  lemma ThoroughPieces(pre: seq<LogRec>, post: seq<LogRec>, moves: map<Addr, Addr>, h0: Head, h: Head, tail: nat)
    requires OnMedia(pre + post) && DistinctAddrs(pre + post) && MovesFrom(moves, pre)
    requires HeadsAfter(moves, pre, h0, h) && forall r :: r in post ==> r.addr.page == tail
    ensures var copied := MoveLog(moves, Copy(pre, h0.ls, h0.ll).kept);
            && MoveLog(moves, Copy(pre, h0.ls, h0.ll).kept + post) == copied + post
            && h.ls == (if LastAttr(copied).Some? then LastChange(copied, NOWHERE) else h0.ls)
            && LateOn(post, tail) && OnMedia(pre) && DistinctAddrs(pre)
            && forall i, j :: 0 <= i < |pre| && 0 <= j < |post| ==> pre[i].addr != post[j].addr
  {
    var kept := Copy(pre, h0.ls, h0.ll).kept;
    SubAddrs(pre, post);
    MoveConcat(moves, kept, post);
    forall r | r in post ensures r.addr !in moves {
      var j :| 0 <= j < |post| && post[j] == r;
    }
    TailStays(moves, post, tail);
    LastChangeOr(MoveLog(moves, kept), h0.ls);
  }

  /** What thorough collection leaves of the attributes and the header. */
  lemma ThoroughKeepsSecure(pre: seq<LogRec>, post: seq<LogRec>, moves: map<Addr, Addr>, h0: Head, h: Head, tail: nat)
    requires OnMedia(pre + post) && DistinctAddrs(pre + post) && MovesFrom(moves, pre)
    requires HeadsAfter(moves, pre, h0, h) && Secure(pre + post, h0.ls)
    requires forall r :: r in post ==> r.addr.page == tail
    ensures var log := MoveLog(moves, Copy(pre, h0.ls, h0.ll).kept + post);
            Secure(log, h.ls) && LastAttr(log) == LastAttr(pre + post)
  {
    var kept := Copy(pre, h0.ls, h0.ll).kept;
    ConcatAttrs(pre, post);
    if LastAttr(pre + post).None? {
      CopyAddsNoAttr(pre, h0.ls, h0.ll);
      MoveKeepsAttrs(moves, kept + post);
      ConcatAttrs(kept, post);
    } else if LastTruncAttr(pre + post).None? {
      ThoroughWithoutTruncation(pre, post, moves, h0, h);
    } else if LastTruncAttr(pre).Some? {
      ThoroughWithTruncation(pre, post, moves, h0, h, tail);
    } else {
      TruncationOnTail(pre, post, moves, h0, h, tail);
    }
  }

  /** A secure header that points into a log with truncations. */
  lemma SecurePoints(pre: seq<LogRec>, post: seq<LogRec>, ls: Addr)
    requires OnMedia(pre + post) && DistinctAddrs(pre + post)
    requires Secure(pre + post, ls) && LastTruncAttr(pre + post).Some?
    ensures ls != NOWHERE && LastTruncAttr(pre + post) == LastAttr(pre + post)
    ensures PointsAtTruncation(pre, ls) || LastOrAbsent(pre, ls)
  {
    var all := pre + post;
    TruncIsAttr(all);
    assert forall i :: 0 <= i < |pre| ==> all[i] == pre[i];
    if LastChange(all, NOWHERE) == ls {
      var i := LastChangeIsThere(all);
      assert all[i].addr != NOWHERE;
      OnlyLastIsLast(all, i);
    } else {
      var r :| r in all && r.addr == ls && Truncates(r);
      var i :| 0 <= i < |all| && all[i] == r;
      forall q | q in pre && q.addr == ls ensures q == r {
        var j :| 0 <= j < |pre| && pre[j] == q;
        assert all[j] == q;
      }
    }
  }

  /** No attribute change follows the last one. */
  lemma {:induction false} OnlyLastIsLast(log: seq<LogRec>, i: nat)
    requires DistinctAddrs(log) && i < |log| && log[i].e.SetAttr? && log[i].addr == LastChange(log, NOWHERE)
    ensures LastOrAbsent(log, log[i].addr)
    decreases |log|
  {
    var n := |log| - 1;
    assert forall x :: 0 <= x < n ==> log[..n][x] == log[x];
    if log[n].e.SetAttr? {
      assert i == n;
    } else {
      OnlyLastIsLast(log[..n], i);
    }
  }

  lemma ThoroughWithTruncation(pre: seq<LogRec>, post: seq<LogRec>, moves: map<Addr, Addr>, h0: Head, h: Head,
                               tail: nat)
    requires OnMedia(pre + post) && DistinctAddrs(pre + post) && MovesFrom(moves, pre)
    requires HeadsAfter(moves, pre, h0, h) && Secure(pre + post, h0.ls) && LastTruncAttr(pre).Some?
    requires forall r :: r in post ==> r.addr.page == tail
    ensures var log := MoveLog(moves, Copy(pre, h0.ls, h0.ll).kept + post);
            Secure(log, h.ls) && LastAttr(log) == LastAttr(pre + post)
  {
    var kept := Copy(pre, h0.ls, h0.ll).kept;
    var copied := MoveLog(moves, kept);
    hide Copy, MoveLog;
    ThoroughPieces(pre, post, moves, h0, h, tail);
    ConcatAttrs(pre, post);
    ConcatAttrs(copied, post);
    SecurePoints(pre, post, h0.ls);
    TruncIsAttr(post);
    CopyEndsInTruncation(pre, h0.ls, h0.ll);
    MoveKeepsAttrs(moves, kept);
    TruncationLast(moves, kept);
    TruncationLast(moves, copied);
    assert AtTruncation(copied + post, h.ls) by {
      var r :| r in copied && r.addr == h.ls && Truncates(r);
      assert r in copied + post;
    }
    assert LateOn(copied + post, tail);
  }

  /** All truncations lie on the tail page: nothing is copied, the header stays. */
  lemma TruncationOnTail(pre: seq<LogRec>, post: seq<LogRec>, moves: map<Addr, Addr>, h0: Head, h: Head, tail: nat)
    requires OnMedia(pre + post) && DistinctAddrs(pre + post) && MovesFrom(moves, pre)
    requires HeadsAfter(moves, pre, h0, h) && Secure(pre + post, h0.ls)
    requires LastTruncAttr(pre).None? && LastTruncAttr(pre + post).Some?
    requires forall r :: r in post ==> r.addr.page == tail
    ensures var log := MoveLog(moves, Copy(pre, h0.ls, h0.ll).kept + post);
            Secure(log, h.ls) && LastAttr(log) == LastAttr(pre + post)
  {
    var kept := Copy(pre, h0.ls, h0.ll).kept;
    var copied := MoveLog(moves, kept);
    ThoroughPieces(pre, post, moves, h0, h, tail);
    ConcatAttrs(pre, post);
    ConcatAttrs(copied, post);
    TruncIsAttr(post);
    HeaderOnTail(pre, post, h0.ls);
    HeaderUntouched(pre, h0.ls, h0.ll);
    MoveKeepsAttrs(moves, kept);
    if LastChange(pre + post, NOWHERE) != h0.ls {
      var r :| r in pre + post && r.addr == h0.ls && Truncates(r);
      NotTruncation(pre);
      assert r in copied + post;
      assert LateOn(copied + post, tail);
    }
  }

  lemma {:induction false} NotTruncation(log: seq<LogRec>)
    ensures LastTruncAttr(log).None? <==> forall r :: r in log ==> !Truncates(r)
    decreases |log|
  {
    if log != [] {
      var n := |log| - 1;
      NotTruncation(log[..n]);
      assert log == log[..n] + [log[n]] && log[n] in log;
    }
  }

  lemma HeaderOnTail(pre: seq<LogRec>, post: seq<LogRec>, ls: Addr)
    requires OnMedia(pre + post) && DistinctAddrs(pre + post)
    requires Secure(pre + post, ls) && LastTruncAttr(pre).None? && LastTruncAttr(post).Some?
    ensures forall i :: 0 <= i < |pre| ==> pre[i].addr != ls
  {
    var all := pre + post;
    ConcatAttrs(pre, post);
    TruncIsAttr(post);
    SubAddrs(pre, post);
    if LastChange(all, NOWHERE) == ls {
      var j := LastChangeIsThere(post);
    } else {
      var r :| r in all && r.addr == ls && Truncates(r);
      NotTruncation(pre);
      var j :| 0 <= j < |post| && post[j] == r;
    }
  }

  lemma ThoroughWithoutTruncation(pre: seq<LogRec>, post: seq<LogRec>, moves: map<Addr, Addr>, h0: Head, h: Head)
    requires OnMedia(pre + post) && DistinctAddrs(pre + post) && MovesFrom(moves, pre)
    requires HeadsAfter(moves, pre, h0, h)
    requires LastAttr(pre + post).Some? && LastTruncAttr(pre + post).None? && LastChange(pre + post, NOWHERE) == h0.ls
    ensures var log := MoveLog(moves, Copy(pre, h0.ls, h0.ll).kept + post);
            LastAttr(log) == LastAttr(pre + post) && LastTruncAttr(log).None? && LastChange(log, NOWHERE) == h.ls
  {
    var kept := Copy(pre, h0.ls, h0.ll).kept;
    SubAddrs(pre, post);
    MoveKeepsAttrs(moves, kept + post);
    MoveKeepsAttrs(moves, kept);
    ConcatAttrs(pre, post);
    ConcatAttrs(kept, post);
    CopyWithoutTruncation(pre, h0.ls, h0.ll);
    LastChangeOr(MoveLog(moves, kept), h0.ls);
    if LastAttr(post).Some? {
      var i := LastChangeIsThere(post);
      assert forall x :: 0 <= x < |pre| ==> pre[x].addr != post[i].addr;
      HeaderUntouched(pre, h0.ls, h0.ll);
      assert h0.ls !in moves;
    } else {
      CopyHeader(pre, h0.ls, h0.ll);
    }
  }

  lemma {:induction false} LastChangeOr(log: seq<LogRec>, d: Addr)
    ensures LastChange(log, d) == if LastAttr(log).Some? then LastChange(log, NOWHERE) else d
    decreases |log|
  {
    if log != [] {
      LastChangeOr(log[..|log| - 1], d);
    }
  }

  /** The header is right after thorough collection if and only if no attribute
      change was copied or none lies on the tail page. */
  lemma HeaderSurvivesIff(pre: seq<LogRec>, post: seq<LogRec>, moves: map<Addr, Addr>, h0: Head, h: Head)
    requires OnMedia(pre + post) && DistinctAddrs(pre + post) && MovesFrom(moves, pre)
    requires DistinctAddrs(MoveLog(moves, Copy(pre, h0.ls, h0.ll).kept + post))
    requires HeadsAfter(moves, pre, h0, h) && HeaderOk(pre + post, h0.ls)
    ensures HeaderOk(MoveLog(moves, Copy(pre, h0.ls, h0.ll).kept + post), h.ls)
            <==> LastAttr(Copy(pre, h0.ls, h0.ll).kept).None? || LastAttr(post).None?
  {
    var kept := Copy(pre, h0.ls, h0.ll).kept;
    var copied, rest := MoveLog(moves, kept), MoveLog(moves, post);
    SubAddrs(pre, post);
    MoveConcat(moves, kept, post);
    MoveKeepsAttrs(moves, kept);
    MoveKeepsAttrs(moves, post);
    ConcatAttrs(pre, post);
    ConcatAttrs(copied, rest);
    LastChangeOr(copied, h0.ls);
    if LastAttr(post).Some? {
      var j := LastChangeIsThere(post);
      assert post[j].addr !in moves;
      if LastAttr(kept).Some? {
        var i := LastChangeIsThere(copied);
        var k := LastChangeIsThere(rest);
        assert (copied + rest)[i] == copied[i] && (copied + rest)[|copied| + k] == rest[k];
      }
    }
  }

  // ----- the link pointer ------------------------------------------------------------------------------

  /** The header points at the last link change, if there is one. */
  predicate LinkOk(log: seq<LogRec>, ll: Addr) {
    LastLinkChange(log, ll) == ll
  }

  predicate NoLink(log: seq<LogRec>) {
    forall i :: 0 <= i < |log| ==> !log[i].e.LinkChange?
  }

  lemma {:induction false} LinkConcat(a: seq<LogRec>, b: seq<LogRec>, d: Addr)
    ensures LastLinkChange(a + b, d) == LastLinkChange(b, LastLinkChange(a, d))
    decreases |b|
  {
    if b == [] {
      assert a + b == a;
    } else {
      assert (a + b)[..|a + b| - 1] == a + b[..|b| - 1] && (a + b)[|a + b| - 1] == b[|b| - 1];
      LinkConcat(a, b[..|b| - 1], d);
    }
  }

  /** Either there is a link change, and the default does not matter, or there is none. */
  lemma {:induction false} LinkOrNone(log: seq<LogRec>, c: Addr, d: Addr)
    ensures NoLink(log) ==> LastLinkChange(log, c) == c && LastLinkChange(log, d) == d
    ensures !NoLink(log) ==> LastLinkChange(log, c) == LastLinkChange(log, d)
    ensures !NoLink(log) ==> exists i :: 0 <= i < |log| && log[i].addr == LastLinkChange(log, d)
    decreases |log|
  {
    if log != [] {
      var n := |log| - 1;
      assert forall i :: 0 <= i < n ==> log[..n][i] == log[i];
      LinkOrNone(log[..n], c, d);
      if !log[n].e.LinkChange? && !NoLink(log[..n]) {
        var i :| 0 <= i < n && log[..n][i].addr == LastLinkChange(log[..n], d);
        assert log[i].addr == LastLinkChange(log, d);
      }
    }
  }

  lemma {:induction false} FastKeepsLink(a: seq<LogRec>, b: seq<LogRec>, ls: Addr, ll: Addr)
    requires Compacted(a, b, ls, ll) && LinkOk(a, ll)
    ensures LinkOk(b, ll)
    decreases |a|
  {
    if a != [] {
      var n := |a| - 1;
      assert a == a[..n] + [a[n]];
      CompactedLast(a[..n], a[n], b, ls, ll);
      if !a[n].e.LinkChange? {
        if b != [] && b[|b| - 1] == a[n] && Compacted(a[..n], b[..|b| - 1], ls, ll) {
          FastKeepsLink(a[..n], b[..|b| - 1], ls, ll);
        } else {
          FastKeepsLink(a[..n], b, ls, ll);
        }
      }
    }
  }

  lemma {:induction false} MoveLink(moves: map<Addr, Addr>, log: seq<LogRec>, d: Addr)
    ensures LastLinkChange(MoveLog(moves, log), Moved(moves, d)) == Moved(moves, LastLinkChange(log, d))
    ensures NoLink(MoveLog(moves, log)) <==> NoLink(log)
    decreases |log|
  {
    if log != [] {
      var n := |log| - 1;
      MoveInit(moves, log);
      MoveLink(moves, log[..n], d);
      var moved := MoveLog(moves, log);
      assert forall i :: 0 <= i < n ==> log[..n][i] == log[i];
      assert forall i :: 0 <= i < n ==> moved[..n][i] == moved[i];
    }
  }

  /** The copy keeps the link change that the header points at, and no other. */
  lemma {:induction false} CopyLink(log: seq<LogRec>, ls: Addr, ll: Addr)
    requires OnMedia(log) && DistinctAddrs(log)
    ensures var g := Copy(log, ls, ll);
            && LinkOk(g.kept, ll)
            && (g.ll == ll || (g.ll == NOWHERE && !NoLink(g.kept)))
            && (LinkOk(log, ll) ==> LastLinkChange(g.kept, NOWHERE) == LastLinkChange(log, NOWHERE))
            && ((forall i :: 0 <= i < |log| ==> log[i].addr != ll) ==> NoLink(g.kept))
    decreases |log|
  {
    if log != [] {
      var n := |log| - 1;
      var g := Copy(log[..n], ls, ll);
      assert forall i :: 0 <= i < n ==> log[..n][i] == log[i];
      CopyLink(log[..n], ls, ll);
      var more := g.kept + [log[n]];
      assert more[..|g.kept|] == g.kept && more[|g.kept|] == log[n];
      assert forall i :: 0 <= i < |g.kept| ==> more[i] == g.kept[i];
      assert log[n].addr != NOWHERE;
      LinkOrNone(log[..n], ll, NOWHERE);
      LinkOrNone(g.kept, ll, NOWHERE);
      if log[n].e.LinkChange? && log[n].addr == ll {
        assert forall i :: 0 <= i < n ==> log[..n][i].addr != ll;
      }
    }
  }

  lemma ThoroughKeepsLink(pre: seq<LogRec>, post: seq<LogRec>, moves: map<Addr, Addr>, h0: Head, h: Head)
    requires OnMedia(pre + post) && DistinctAddrs(pre + post) && MovesFrom(moves, pre)
    requires HeadsAfter(moves, pre, h0, h) && LinkOk(pre + post, h0.ll)
    ensures LinkOk(MoveLog(moves, Copy(pre, h0.ls, h0.ll).kept + post), h.ll)
  {
    var kept := Copy(pre, h0.ls, h0.ll).kept;
    var copied, rest := MoveLog(moves, kept), MoveLog(moves, post);
    SubAddrs(pre, post);
    MoveConcat(moves, kept, post);
    CopyLink(pre, h0.ls, h0.ll);
    hide Copy, MoveLog, OnMedia, DistinctAddrs;
    LinkConcat(pre, post, h0.ll);
    LinkConcat(copied, rest, h.ll);
    MoveLink(moves, kept, h0.ll);
    MoveLink(moves, post, h0.ll);
    LinkOrNone(post, LastLinkChange(pre, h0.ll), h0.ll);
    LinkOrNone(rest, LastLinkChange(copied, h.ll), Moved(moves, h0.ll));
    LinkOrNone(copied, h0.ll, h.ll);
    LinkOrNone(copied, h0.ll, Moved(moves, h0.ll));
    if !NoLink(post) {
      var j :| 0 <= j < |post| && post[j].addr == h0.ll;
      assert forall i :: 0 <= i < |pre| ==> pre[i].addr != post[j].addr;
      assert h0.ll !in moves;
    }
  }

  lemma {:induction false} LinkOkPoints(log: seq<LogRec>, ll: Addr)
    requires LinkOk(log, ll)
    ensures PointsAtLastLink(log, ll)
    decreases |log|
  {
    if log != [] {
      var r, rest := log[0], log[1..];
      assert log == [r] + rest;
      LinkConcat([r], rest, ll);
      assert [r][..0] == [] && LastLinkChange([r], ll) == if r.e.LinkChange? then r.addr else ll;
      LinkOrNone(rest, LastLinkChange([r], ll), ll);
      NoLinkHas(rest);
      LinkOkPoints(rest, ll);
    }
  }

  lemma {:induction false} NoLinkHas(log: seq<LogRec>)
    ensures HasLink(log) <==> !NoLink(log)
    decreases |log|
  {
    if log != [] {
      NoLinkHas(log[1..]);
      assert forall i :: 0 < i < |log| ==> log[i] == log[1..][i - 1];
    }
  }

  /** The log between fast and thorough collection. */
  lemma AfterFast(log0: seq<LogRec>, h0: Head, how: Collection)
    requires how.ran && FastSteps(log0, h0, how) && OnMedia(log0) && DistinctAddrs(log0)
    ensures Compacted(log0, how.pre + how.post, h0.ls, h0.ll)
    ensures OnMedia(how.pre + how.post) && DistinctAddrs(how.pre + how.post)
  {
    SweptCompacts(log0, how.pre + how.post, h0.ls, h0.ll, how.tail);
    CompactedPlaces(log0, how.pre + how.post, h0.ls, h0.ll);
  }

  lemma StepKeepsLink(log0: seq<LogRec>, h0: Head, log: seq<LogRec>, h: Head, how: Collection)
    requires GcSteps(log0, h0, log, h, how) && OnMedia(log0) && DistinctAddrs(log0) && LinkOk(log0, h0.ll)
    ensures LinkOk(log, h.ll)
  {
    if how.ran {
      AfterFast(log0, h0, how);
      FastKeepsLink(log0, how.pre + how.post, h0.ls, h0.ll);
    } else {
      assert [] + log0 == log0;
    }
    if how.switched {
      ThoroughKeepsLink(how.pre, how.post, how.moves, h0, h);
    } else {
      MoveNowhere(how.pre + how.post);
    }
  }

  lemma StepKeepsSecure(log0: seq<LogRec>, h0: Head, log: seq<LogRec>, h: Head, how: Collection)
    requires GcSteps(log0, h0, log, h, how) && OnMedia(log0) && DistinctAddrs(log0) && Secure(log0, h0.ls)
    ensures Secure(log, h.ls) && LastAttr(log) == LastAttr(log0)
  {
    hide Secure, Swept, AllLive, ThoroughDue, Tightly, MovesFrom, HeadsAfter, FreshMoves, Copy;
    if how.ran {
      AfterFast(log0, h0, how);
      FastKeepsSecure(log0, how.pre + how.post, h0.ls, h0.ll, how.tail);
    } else {
      assert [] + log0 == log0;
    }
    if how.switched {
      ThoroughKeepsSecure(how.pre, how.post, how.moves, h0, h, how.tail);
    } else {
      MoveNowhere(how.pre + how.post);
    }
  }

  // ----- what an operation does to the header ----------------------------------------------------------

  /** Attributes that were secure when the operation began are secure still, and the
      same; and so are a right link pointer and the link count; the last truncation is
      the same. */
  ghost predicate HeadersKept(base: seq<LogRec>, h0: Head, log: seq<LogRec>, h: Head) {
    && LastTruncAttr(log) == LastTruncAttr(base)
    && (Secure(base, h0.ls) ==> Secure(log, h.ls) && LastAttr(log) == LastAttr(base))
    && (LinkOk(base, h0.ll) ==> LinkOk(log, h.ll) && Replay(FRESH, log).link == Replay(FRESH, base).link)
  }

  lemma GcKeepsHeaders(base: seq<LogRec>, hb: Head, log0: seq<LogRec>, tree0: map<nat, Addr>, h0: Head,
                       log: seq<LogRec>, tree: map<nat, Addr>, h: Head, how: Collection)
    requires HeadersKept(base, hb, log0, h0) && Gc(log0, tree0, h0, log, tree, h, how)
    requires OnMedia(log0) && DistinctAddrs(log0) && Sound(0, log0)
    ensures HeadersKept(base, hb, log, h)
  {
    GcKeepsTruncations(log0, h0, log, h, how);
    if Secure(log0, h0.ls) {
      StepKeepsSecure(log0, h0, log, h, how);
    }
    if LinkOk(log0, h0.ll) {
      LinkOkPoints(log0, h0.ll);
      GcKeepsFile(log0, tree0, h0.ll, log, tree, Mid(how, h0), how.moves);
      StepKeepsLink(log0, h0, log, h, how);
    }
  }

  /** No collection changes which truncation is the last. */
  lemma GcKeepsTruncations(log0: seq<LogRec>, h0: Head, log: seq<LogRec>, h: Head, how: Collection)
    requires GcSteps(log0, h0, log, h, how)
    ensures LastTruncAttr(log) == LastTruncAttr(log0)
  {
    if how.ran {
      SweptCompacts(log0, how.pre + how.post, h0.ls, h0.ll, how.tail);
      FastKeepsNoAttr(log0, how.pre + how.post, h0.ls, h0.ll);
    } else {
      assert how.pre + how.post == log0;
    }
    MoveKeepsAttrs(how.moves, Mid(how, h0));
    KeptTruncations(how.pre, h0.ls, h0.ll);
    ConcatAttrs(how.pre, how.post);
    ConcatAttrs(Copy(how.pre, h0.ls, h0.ll).kept, how.post);
  }

  /** Records that change neither attributes nor the link count. */
  predicate Plain(rest: seq<LogRec>) {
    forall i :: 0 <= i < |rest| ==> !rest[i].e.SetAttr? && !rest[i].e.LinkChange?
  }

  lemma {:induction false} PlainAttrs(rest: seq<LogRec>)
    requires forall i :: 0 <= i < |rest| ==> !rest[i].e.SetAttr?
    ensures LastAttr(rest).None? && LastTruncAttr(rest).None? && forall p :: LateOn(rest, p)
    decreases |rest|
  {
    if rest != [] {
      var n := |rest| - 1;
      assert forall i :: 0 <= i < n ==> rest[..n][i] == rest[i];
      PlainAttrs(rest[..n]);
    }
  }

  lemma {:induction false} PlainLinks(rest: seq<LogRec>, s: State)
    requires Plain(rest)
    ensures Replay(s, rest).link == s.link && NoLink(rest)
    decreases |rest|
  {
    if rest != [] {
      var n := |rest| - 1;
      assert forall i :: 0 <= i < n ==> rest[..n][i] == rest[i];
      PlainLinks(rest[..n], s);
      assert rest == rest[..n] + [rest[n]];
      ReplayStep(s, rest[..n], rest[n]);
    }
  }

  /** Records that change no attributes keep them secure. */
  lemma AddKeepsSecure(log: seq<LogRec>, ls: Addr, rest: seq<LogRec>)
    requires forall i :: 0 <= i < |rest| ==> !rest[i].e.SetAttr?
    ensures LastAttr(log + rest) == LastAttr(log) && LastTruncAttr(log + rest) == LastTruncAttr(log)
    ensures LastChange(log + rest, NOWHERE) == LastChange(log, NOWHERE)
    ensures Secure(log, ls) ==> Secure(log + rest, ls)
  {
    PlainAttrs(rest);
    ConcatAttrs(log, rest);
    if AtTruncation(log, ls) {
      var r :| r in log && r.addr == ls && Truncates(r);
      assert r in log + rest;
    }
  }

  lemma AppendKeepsHeaders(base: seq<LogRec>, hb: Head, log: seq<LogRec>, h: Head, rest: seq<LogRec>)
    requires HeadersKept(base, hb, log, h) && Plain(rest)
    ensures HeadersKept(base, hb, log + rest, h)
  {
    PlainLinks(rest, Replay(FRESH, log));
    AddKeepsSecure(log, h.ls, rest);
    ReplayConcat(FRESH, log, rest);
    LinkConcat(log, rest, h.ll);
    LinkOrNone(rest, h.ll, LastLinkChange(log, h.ll));
  }

  // ----- places -----------------------------------------------------------------------------------------

  lemma {:induction false} CompactedPlaces(a: seq<LogRec>, b: seq<LogRec>, ls: Addr, ll: Addr)
    requires Compacted(a, b, ls, ll) && OnMedia(a) && DistinctAddrs(a)
    ensures OnMedia(b) && DistinctAddrs(b)
    decreases |a|
  {
    CompactedSubset(a, b, ls, ll);
    forall i | 0 <= i < |b| ensures b[i].addr != NOWHERE {
      assert b[i] in a;
    }
    if a != [] {
      assert forall i :: 0 <= i < |a| - 1 ==> a[1..][i] == a[i + 1];
      if b != [] && b[0] == a[0] && Compacted(a[1..], b[1..], ls, ll) {
        CompactedPlaces(a[1..], b[1..], ls, ll);
        CompactedSubset(a[1..], b[1..], ls, ll);
        forall i, j | 0 <= i < j < |b| ensures b[i].addr != b[j].addr {
          assert b[1..][j - 1] == b[j] && b[j] in a[1..];
          assert i > 0 ==> b[1..][i - 1] == b[i];
        }
      } else {
        CompactedPlaces(a[1..], b, ls, ll);
      }
    }
  }
}
