/** What the stores of the log code mean for the file: a crash at any of them,
and any collection, leave the page map and the size of the file alone.  One
thorough collection can lose attribute changes, and exactly when is stated. */
module LogMeaning {
  import opened Options
  import opened LogPages
  import opened FileReplay
  import opened LogSurgery
  import opened InodeLogs

  /** The blocks of a file, whatever log entries they are found through. */
  function Blocks(tree: map<nat, Slot>): map<nat, nat> {
    map p | p in tree :: tree[p].block
  }

  lemma MovesKeepBlocks(moves: map<Addr, Addr>, tree: map<nat, Slot>)
    ensures Blocks(MoveTree(moves, tree)) == Blocks(tree)
  {
  }

  lemma MoveFresh(moves: map<Addr, Addr>)
    ensures MoveState(moves, FRESH) == FRESH
  {
    assert MoveTree(moves, map[]) == map[];
  }

  /** Dropping what may be dropped and moving the rest keeps blocks and size. */
  lemma CollectedKeepsFile(base: seq<LogRec>, log: seq<LogRec>)
    requires Sound(0, base) && Collected(base, log)
    ensures Sound(0, log)
    ensures Replay(FRESH, log).size == Replay(FRESH, base).size
    ensures Blocks(Replay(FRESH, log).tree) == Blocks(Replay(FRESH, base).tree)
  {
    var mid: seq<LogRec>, moves: map<Addr, Addr> :| Compacted(base, mid, NOWHERE, NOWHERE)
        && log == MoveLog(moves, mid);
    CompactionKeepsFile(base, mid, NOWHERE, NOWHERE);
    MoveSound(moves, 0, mid);
    MoveReplay(moves, FRESH, mid);
    MoveFresh(moves);
    MovesKeepBlocks(moves, Replay(FRESH, mid).tree);
  }

  /** A crash before the commit, at any image but a torn one: the next mount finds
      exactly one log, and it means the file the operation began with. */
  lemma CrashKeepsFile(img: Image, base: seq<LogRec>)
    requires Safe(img, base) && Sound(0, base)
    ensures exists log: seq<LogRec> :: Shows(img, log)
    ensures forall log: seq<LogRec> :: Shows(img, log) ==>
              && Sound(0, log) && Replay(FRESH, log).size == Replay(FRESH, base).size
              && Blocks(Replay(FRESH, log).tree) == Blocks(Replay(FRESH, base).tree)
    ensures forall a: seq<LogRec>, b: seq<LogRec> :: Shows(img, a) && Shows(img, b) ==> a == b
  {
    var found :| Shows(img, found) && Collected(base, found);
    forall a: seq<LogRec>, b: seq<LogRec> | Shows(img, a) && Shows(img, b) ensures a == b {
      ShowsOne(img, a, b);
    }
    CollectedKeepsFile(base, found);
  }

  lemma ShowsOne(img: Image, a: seq<LogRec>, b: seq<LogRec>)
    requires Shows(img, a) && Shows(img, b)
    ensures a == b
  {
    if img.head != 0 {
      WalkIsUnique(img.m, Addr(img.head, 0), img.tail, a, b);
    }
  }

  /** Collection renames the index of the file and changes nothing else of it;
      the link count survives too when the header points at the last change. */
  lemma GcKeepsFile(log0: seq<LogRec>, tree0: map<nat, Addr>, ll0: Addr, log: seq<LogRec>, tree: map<nat, Addr>,
                    mid: seq<LogRec>, moves: map<Addr, Addr>)
    requires GcLog(log0, tree0, ll0, log, tree, mid, moves) && Sound(0, log0)
    ensures Sound(0, log)
    ensures Replay(FRESH, log).tree == MoveTree(moves, Replay(FRESH, log0).tree)
    ensures Replay(FRESH, log).size == Replay(FRESH, log0).size
    ensures PointsAtLastLink(log0, ll0) ==> Replay(FRESH, log).link == Replay(FRESH, log0).link
  {
    CompactionKeepsFile(log0, mid, NOWHERE, ll0);
    MoveSound(moves, 0, mid);
    MoveReplay(moves, FRESH, mid);
    MoveFresh(moves);
  }

  // ----- attributes under thorough collection ----------------------------------------------------

  /** The attributes carried by the last attribute change. */
  function LastAttr(log: seq<LogRec>): Option<Attr> {
    if log == [] then None
    else
      var r := log[|log| - 1];
      if r.e.SetAttr? then Some(r.e.attr) else LastAttr(log[..|log| - 1])
  }

  /** The attributes carried by the last truncation. */
  function LastTruncAttr(log: seq<LogRec>): Option<Attr> {
    if log == [] then None
    else
      var r := log[|log| - 1];
      if r.e.SetAttr? && r.e.setsSize then Some(r.e.attr) else LastTruncAttr(log[..|log| - 1])
  }

  lemma {:induction false} ReplayAttr(s: State, log: seq<LogRec>)
    ensures Replay(s, log).attr == if LastAttr(log).Some? then LastAttr(log) else s.attr
    decreases |log|
  {
    if log != [] {
      var n := |log| - 1;
      assert log == log[..n] + [log[n]];
      ReplayStep(s, log[..n], log[n]);
      ReplayAttr(s, log[..n]);
    }
  }

  lemma {:induction false} LastAttrConcat(a: seq<LogRec>, b: seq<LogRec>)
    ensures LastAttr(a + b) == if LastAttr(b).Some? then LastAttr(b) else LastAttr(a)
    decreases |b|
  {
    if b == [] {
      assert a + b == a;
    } else {
      assert (a + b)[..|a + b| - 1] == a + b[..|b| - 1];
      LastAttrConcat(a, b[..|b| - 1]);
    }
  }

  /** The header points at the last attribute change of the log, or at none in it. */
  ghost predicate LastOrAbsent(log: seq<LogRec>, ls: Addr) {
    forall i, j :: 0 <= i < j < |log| && log[i].e.SetAttr? && log[i].addr == ls ==> !log[j].e.SetAttr?
  }

  ghost predicate Present(log: seq<LogRec>, ls: Addr) {
    exists i :: 0 <= i < |log| && log[i].e.SetAttr? && log[i].addr == ls
  }

  /** Of the attribute changes, the copy keeps the truncations; the one the
      header points at is kept only if no truncation came before it. */
  lemma {:induction false} CopyKeepsTruncations(log: seq<LogRec>, ls: Addr, ll: Addr)
    requires OnMedia(log) && ls != NOWHERE && LastOrAbsent(log, ls)
    ensures var g := Copy(log, ls, ll);
            && (g.ls == ls || g.ls == NOWHERE)
            && (g.ls == ls <==> LastAttr(g.kept).None?)
            && (LastTruncAttr(log).Some? ==> LastAttr(g.kept) == LastTruncAttr(log))
            && (LastTruncAttr(log).None? ==> LastAttr(g.kept) == if Present(log, ls) then LastAttr(log) else None)
    decreases |log|
  {
    if log != [] {
      var n := |log| - 1;
      var g := Copy(log[..n], ls, ll);
      assert forall i :: 0 <= i < n ==> log[..n][i] == log[i];
      CopyKeepsTruncations(log[..n], ls, ll);
      assert log[n].addr != NOWHERE;
      assert (g.kept + [log[n]])[..|g.kept|] == g.kept;
      assert Present(log, ls) <==> Present(log[..n], ls) || (log[n].e.SetAttr? && log[n].addr == ls);
    }
  }

  lemma {:induction false} CopyAddsNoAttr(log: seq<LogRec>, ls: Addr, ll: Addr)
    requires LastAttr(log).None?
    ensures LastAttr(Copy(log, ls, ll).kept).None?
    decreases |log|
  {
    if log != [] {
      var n := |log| - 1;
      var g := Copy(log[..n], ls, ll);
      CopyAddsNoAttr(log[..n], ls, ll);
      assert (g.kept + [log[n]])[..|g.kept|] == g.kept;
    }
  }

  lemma {:induction false} NoAttrNoChange(log: seq<LogRec>)
    ensures LastAttr(log).None? <==> forall i :: 0 <= i < |log| ==> !log[i].e.SetAttr?
    ensures LastAttr(log).None? ==> LastTruncAttr(log).None?
    decreases |log|
  {
    if log != [] {
      var n := |log| - 1;
      NoAttrNoChange(log[..n]);
      assert forall i :: 0 <= i < n ==> log[..n][i] == log[i];
    }
  }

  /** Record i is the last attribute change, and the header points at it. */
  ghost predicate HeaderAt(log: seq<LogRec>, ls: Addr, i: nat) {
    i < |log| && log[i].e.SetAttr? && log[i].addr == ls && forall j :: i < j < |log| ==> !log[j].e.SetAttr?
  }

  lemma HeaderInPre(pre: seq<LogRec>, post: seq<LogRec>, ls: Addr, i: nat)
    requires OnMedia(pre + post) && DistinctAddrs(pre + post)
    requires HeaderAt(pre + post, ls, i) && LastAttr(post).None?
    ensures ls != NOWHERE && OnMedia(pre) && LastOrAbsent(pre, ls) && Present(pre, ls)
  {
    NoAttrNoChange(post);
    SubAddrs(pre, post);
    var log := pre + post;
    assert i < |pre| && log[i] == pre[i] && log[i].addr != NOWHERE;
    forall x, y | 0 <= x < y < |pre| && pre[x].e.SetAttr? && pre[x].addr == ls ensures !pre[y].e.SetAttr? {
      assert x == i;
      assert log[y] == pre[y];
    }
  }

  /** Thorough collection keeps the attributes of the file if and only if a later
      attribute change lies on the tail page, or no truncation was collected, or
      the last truncation carries the same attributes as the last change. */
  lemma ThoroughGcKeepsAttrIff(pre: seq<LogRec>, post: seq<LogRec>, ls: Addr, ll: Addr)
    requires OnMedia(pre + post) && DistinctAddrs(pre + post)
    requires LastAttr(pre + post).None? || exists i :: HeaderAt(pre + post, ls, i)
    ensures Replay(FRESH, Copy(pre, ls, ll).kept + post).attr == Replay(FRESH, pre + post).attr
            <==> LastAttr(post).Some? || LastTruncAttr(pre).None? || LastTruncAttr(pre) == LastAttr(pre)
  {
    var kept := Copy(pre, ls, ll).kept;
    ReplayAttr(FRESH, kept + post);
    ReplayAttr(FRESH, pre + post);
    LastAttrConcat(kept, post);
    LastAttrConcat(pre, post);
    if LastAttr(post).None? {
      if LastAttr(pre).None? {
        CopyAddsNoAttr(pre, ls, ll);
        NoAttrNoChange(pre);
      } else {
        var i :| HeaderAt(pre + post, ls, i);
        HeaderInPre(pre, post, ls, i);
        CopyKeepsTruncations(pre, ls, ll);
        TruncIsAttr(pre);
      }
    }
  }

  lemma {:induction false} TruncIsAttr(log: seq<LogRec>)
    ensures LastTruncAttr(log).Some? ==> LastAttr(log).Some?
    decreases |log|
  {
    if log != [] {
      TruncIsAttr(log[..|log| - 1]);
    }
  }

  /** A change of mode that follows a truncation is lost. */
  lemma ChmodAfterTruncateIsLost()
    ensures var truncate := LogRec(Addr(1, 0), SetAttr(true, Attr(0x81A4, 0, 0), 0));
            var chmod := LogRec(Addr(1, 32), SetAttr(false, Attr(0x8180, 0, 0), 0));
            var write := LogRec(Addr(2, 0), FileWrite(0, 1, 0, 7, 4096));
            var pre, post := [truncate, chmod], [write];
            && HeaderAt(pre + post, chmod.addr, 1)
            && Replay(FRESH, pre + post).attr == Some(chmod.e.attr)
            && Replay(FRESH, Copy(pre, chmod.addr, NOWHERE).kept + post).attr == Some(truncate.e.attr)
  {
    var truncate := LogRec(Addr(1, 0), SetAttr(true, Attr(0x81A4, 0, 0), 0));
    var chmod := LogRec(Addr(1, 32), SetAttr(false, Attr(0x8180, 0, 0), 0));
    var write := LogRec(Addr(2, 0), FileWrite(0, 1, 0, 7, 4096));
    var pre, post := [truncate, chmod], [write];
    assert pre[..1] == [truncate] && [truncate][..0] == [];
    assert Copy([truncate], chmod.addr, NOWHERE) == Copying([truncate], NOWHERE, NOWHERE);
    var kept := Copy(pre, chmod.addr, NOWHERE).kept;
    assert kept == [truncate];
    ReplayAttr(FRESH, pre + post);
    ReplayAttr(FRESH, kept + post);
    LastAttrConcat(pre, post);
    LastAttrConcat(kept, post);
    assert post[..0] == [];
  }
}
