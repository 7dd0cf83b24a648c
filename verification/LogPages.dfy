/** The on-media layout of an inode log.

A log is a chain of 4 KB pages.  The first 4064 bytes of a page hold entries,
packed from offset 0; the last 32 bytes hold the link to the next page.  An
entry never straddles two pages: when it does not fit, the writer leaves a
NEXT_PAGE marker where the entry would have gone and moves on.

An address is a page number together with an offset in that page; page 0 holds
the super block and plays the role of the null pointer.  Memory that nobody
wrote is garbage, and nothing below depends on what it contains.
*/
module LogPages {

  const LAST_ENTRY: nat := 4064
  const MIN_ENTRY: nat := 32

  datatype Addr = Addr(page: nat, off: nat)

  datatype Attr = Attr(mode: nat, uid: nat, gid: nat)

  datatype Entry =
    | FileWrite(pgoff: nat, numPages: nat, invalidPages: nat, block: nat, size: nat)
    | Dentry(name: string, ino: nat, invalid: bool, links: nat, size: nat)
    | SetAttr(setsSize: bool, attr: Attr, size: nat)
    | LinkChange(links: nat, flags: nat, generation: nat)

  /** What an 8-byte aligned location of a log page looks like to a reader. */
  datatype Cell = Rec(e: Entry) | NextPage | Garbage

  /** A log entry together with the place where it lies. */
  datatype LogRec = LogRec(addr: Addr, e: Entry)

  datatype Nvm = Nvm(cells: map<Addr, Cell>, next: map<nat, nat>)

  function Read(cells: map<Addr, Cell>, a: Addr): Cell {
    if a in cells then cells[a] else Garbage
  }

  function Next(next: map<nat, nat>, page: nat): nat {
    if page in next then next[page] else 0
  }

  /** The bytes an entry takes; a directory entry is padded to 8 bytes. */
  function Len(e: Entry): nat {
    match e
    case FileWrite(_, _, _, _, _) => 40
    case Dentry(name, _, _, _, _) => (|name| + 36) / 8 * 8
    case SetAttr(_, _, _) => 32
    case LinkChange(_, _, _) => 32
  }

  predicate Fits(e: Entry) {
    MIN_ENTRY <= Len(e) <= LAST_ENTRY
  }

  predicate IsLastEntry(curr: Addr, size: nat) {
    curr.off + size > LAST_ENTRY
  }

  predicate GotoNextPage(m: Nvm, curr: Addr) {
    curr.off + MIN_ENTRY > LAST_ENTRY || Read(m.cells, curr) == NextPage
  }

  function NextLogPage(m: Nvm, curr: Addr): Addr {
    Addr(Next(m.next, curr.page), 0)
  }

  /** The reader's hop rule. */
  function Hop(m: Nvm, curr: Addr): Addr {
    if GotoNextPage(m, curr) then NextLogPage(m, curr) else curr
  }

  /** The reader's loop, started at `curr`, reaches `tail` after having seen
      exactly `log`. */
  ghost predicate Walks(m: Nvm, curr: Addr, tail: Addr, log: seq<LogRec>)
    decreases |log|
  {
    if log == [] then curr == tail
    else
      var c := Hop(m, curr);
      && curr != tail
      && c.page != 0
      && log[0].addr == c
      && Read(m.cells, c) == Rec(log[0].e)
      && Walks(m, Addr(c.page, c.off + Len(log[0].e)), tail, log[1..])
  }

  /** Two walks from the same place to the same tail see the same entries. */
  lemma {:induction false} WalkIsUnique(m: Nvm, curr: Addr, tail: Addr, a: seq<LogRec>, b: seq<LogRec>)
    requires Walks(m, curr, tail, a)
    requires Walks(m, curr, tail, b)
    ensures a == b
    decreases |a|
  {
    if a != [] && b != [] {
      var c := Hop(m, curr);
      assert a[0] == b[0];
      WalkIsUnique(m, Addr(c.page, c.off + Len(a[0].e)), tail, a[1..], b[1..]);
      assert a == [a[0]] + a[1..] && b == [b[0]] + b[1..];
    }
  }

  /** Where the reader stands before record q. */
  function Cursor(start: Addr, log: seq<LogRec>, q: nat): Addr
    requires q <= |log|
  {
    if q == 0 then start else Addr(log[q - 1].addr.page, log[q - 1].addr.off + Len(log[q - 1].e))
  }

  predicate StepAt(m: Nvm, start: Addr, log: seq<LogRec>, q: nat)
    requires q < |log|
  {
    && Hop(m, Cursor(start, log, q)) == log[q].addr
    && Read(m.cells, log[q].addr) == Rec(log[q].e)
  }

  /** The walk, step by step. */
  lemma {:induction false} WalkSteps(m: Nvm, curr: Addr, tail: Addr, log: seq<LogRec>)
    requires Walks(m, curr, tail, log)
    ensures forall q :: 0 <= q < |log| ==> StepAt(m, curr, log, q) && Cursor(curr, log, q) != tail
    ensures Cursor(curr, log, |log|) == tail
    decreases |log|
  {
    if log != [] {
      var c := Addr(log[0].addr.page, log[0].addr.off + Len(log[0].e));
      WalkSteps(m, c, tail, log[1..]);
      forall q | 0 <= q < |log| ensures StepAt(m, curr, log, q) && Cursor(curr, log, q) != tail {
        if q > 0 {
          assert StepAt(m, c, log[1..], q - 1);
          assert Cursor(c, log[1..], q - 1) == Cursor(curr, log, q);
        }
      }
      assert Cursor(c, log[1..], |log| - 1) == Cursor(curr, log, |log|);
    }
  }

  // ----- pages --------------------------------------------------------------

  function Size(es: seq<Entry>): nat {
    if es == [] then 0 else Len(es[0]) + Size(es[1..])
  }

  predicate AllFit(es: seq<Entry>) {
    forall i :: 0 <= i < |es| ==> Fits(es[i])
  }

  /** Entries `es` lie one after the other from offset `off` of `page`. */
  ghost predicate PageHolds(cells: map<Addr, Cell>, page: nat, off: nat, es: seq<Entry>)
    decreases |es|
  {
    es == [] ||
    (Read(cells, Addr(page, off)) == Rec(es[0]) &&
     PageHolds(cells, page, off + Len(es[0]), es[1..]))
  }

  /** A page whose entries end at offset `size` sends every reader on. */
  ghost predicate Closed(cells: map<Addr, Cell>, page: nat, size: nat) {
    size < LAST_ENTRY ==> Read(cells, Addr(page, size)) == NextPage
  }

  function Recs(page: nat, off: nat, es: seq<Entry>): (log: seq<LogRec>)
    ensures |log| == |es|
    decreases |es|
  {
    if es == [] then []
    else [LogRec(Addr(page, off), es[0])] + Recs(page, off + Len(es[0]), es[1..])
  }

  /** `pages` is the whole chain; the entries are in the first |recs| pages. */
  datatype Layout = Layout(pages: seq<nat>, recs: seq<seq<Entry>>)

  ghost predicate Distinct(s: seq<nat>) {
    forall i, j :: 0 <= i < j < |s| ==> s[i] != s[j]
  }

  function After(pages: seq<nat>, i: nat): nat
    requires i < |pages|
  {
    if i + 1 < |pages| then pages[i + 1] else 0
  }

  /** The links of the chain; `pages` may be empty. */
  ghost predicate Linked(next: map<nat, nat>, pages: seq<nat>) {
    && Distinct(pages)
    && (forall i :: 0 <= i < |pages| ==> pages[i] != 0)
    && (forall i {:trigger Next(next, pages[i])} :: 0 <= i < |pages| ==> Next(next, pages[i]) == After(pages, i))
  }

  /** Page i holds its entries, and sends readers on unless it is the last to hold any. */
  ghost predicate PageOk(m: Nvm, lay: Layout, i: nat)
    requires i < |lay.recs| <= |lay.pages|
  {
    && AllFit(lay.recs[i])
    && Size(lay.recs[i]) <= LAST_ENTRY
    && PageHolds(m.cells, lay.pages[i], 0, lay.recs[i])
    && (i < |lay.recs| - 1 ==> Closed(m.cells, lay.pages[i], Size(lay.recs[i])))
    && (|lay.recs| > 1 ==> lay.recs[i] != [])
  }

  ghost predicate Holds(m: Nvm, lay: Layout) {
    && Linked(m.next, lay.pages)
    && 0 < |lay.recs| <= |lay.pages|
    && forall i {:trigger PageOk(m, lay, i)} :: 0 <= i < |lay.recs| ==> PageOk(m, lay, i)
  }

  /** Where the next entry goes if it fits. */
  function End(lay: Layout): Addr
    requires 0 < |lay.recs| <= |lay.pages|
  {
    Addr(lay.pages[|lay.recs| - 1], Size(lay.recs[|lay.recs| - 1]))
  }

  function Flat(pages: seq<nat>, recs: seq<seq<Entry>>): seq<LogRec>
    requires |recs| <= |pages|
  {
    if recs == [] then [] else Recs(pages[0], 0, recs[0]) + Flat(pages[1..], recs[1..])
  }

  function LogOf(lay: Layout): seq<LogRec>
    requires |lay.recs| <= |lay.pages|
  {
    Flat(lay.pages, lay.recs)
  }

  // ----- sequence facts -----------------------------------------------------

  lemma {:induction false} SizeAppend(es: seq<Entry>, fs: seq<Entry>)
    ensures Size(es + fs) == Size(es) + Size(fs)
    decreases |es|
  {
    if es == [] {
      assert es + fs == fs;
    } else {
      assert (es + fs)[1..] == es[1..] + fs;
      SizeAppend(es[1..], fs);
    }
  }

  lemma {:induction false} RecsAppend(page: nat, off: nat, es: seq<Entry>, fs: seq<Entry>)
    ensures Recs(page, off, es + fs) == Recs(page, off, es) + Recs(page, off + Size(es), fs)
    decreases |es|
  {
    if es == [] {
      assert es + fs == fs;
    } else {
      assert (es + fs)[1..] == es[1..] + fs;
      RecsAppend(page, off + Len(es[0]), es[1..], fs);
    }
  }

  lemma {:induction false} FlatAppend(pages: seq<nat>, rs: seq<seq<Entry>>, more: seq<nat>, ss: seq<seq<Entry>>)
    requires |rs| == |pages| && |ss| <= |more|
    ensures Flat(pages + more, rs + ss) == Flat(pages, rs) + Flat(more, ss)
    decreases |rs|
  {
    if rs == [] {
      assert rs + ss == ss && pages + more == more;
    } else {
      assert (rs + ss)[1..] == rs[1..] + ss && (pages + more)[1..] == pages[1..] + more;
      FlatAppend(pages[1..], rs[1..], more, ss);
    }
  }

  /** The log up to page i, page i, and the log from page i + 1 on. */
  lemma FlatSplit(lay: Layout, i: nat)
    requires i < |lay.recs| <= |lay.pages|
    ensures LogOf(lay) == Flat(lay.pages[..i], lay.recs[..i]) + Recs(lay.pages[i], 0, lay.recs[i])
                          + Flat(lay.pages[i + 1..], lay.recs[i + 1..])
  {
    assert lay.recs == lay.recs[..i] + lay.recs[i..];
    assert lay.pages == lay.pages[..i] + lay.pages[i..];
    FlatAppend(lay.pages[..i], lay.recs[..i], lay.pages[i..], lay.recs[i..]);
    assert lay.recs[i..][1..] == lay.recs[i + 1..] && lay.pages[i..][1..] == lay.pages[i + 1..];
  }

  /** Only pages that hold entries matter to the flattened log. */
  lemma {:induction false} FlatIgnoresSpare(pages: seq<nat>, qages: seq<nat>, recs: seq<seq<Entry>>)
    requires |recs| <= |pages| && |recs| <= |qages|
    requires pages[..|recs|] == qages[..|recs|]
    ensures Flat(pages, recs) == Flat(qages, recs)
    decreases |recs|
  {
    if recs != [] {
      assert pages[0] == pages[..|recs|][0] == qages[0];
      assert pages[1..][..|recs| - 1] == pages[..|recs|][1..];
      assert qages[1..][..|recs| - 1] == qages[..|recs|][1..];
      FlatIgnoresSpare(pages[1..], qages[1..], recs[1..]);
    }
  }

  lemma {:induction false} RecsAt(page: nat, off: nat, es: seq<Entry>, i: nat)
    requires i < |es|
    requires AllFit(es)
    ensures Recs(page, off, es)[i].e == es[i]
    ensures Recs(page, off, es)[i].addr.page == page
    ensures off <= Recs(page, off, es)[i].addr.off
    ensures Recs(page, off, es)[i].addr.off + Len(es[i]) <= off + Size(es)
    decreases |es|
  {
    if i > 0 {
      RecsAt(page, off + Len(es[0]), es[1..], i - 1);
    }
  }

  /** Every record of the flattened log lies in one of the pages that hold entries. */
  lemma {:induction false} FlatAt(pages: seq<nat>, recs: seq<seq<Entry>>, i: nat) returns (k: nat, j: nat)
    requires |recs| <= |pages|
    requires i < |Flat(pages, recs)|
    requires forall n :: 0 <= n < |recs| ==> AllFit(recs[n])
    ensures k < |recs| && j < |recs[k]|
    ensures Flat(pages, recs)[i] == Recs(pages[k], 0, recs[k])[j]
    ensures Flat(pages, recs)[i].addr.page == pages[k]
    ensures Flat(pages, recs)[i].e == recs[k][j]
    decreases |recs|
  {
    var first := Recs(pages[0], 0, recs[0]);
    if i < |first| {
      k, j := 0, i;
      RecsAt(pages[0], 0, recs[0], i);
    } else {
      k, j := FlatAt(pages[1..], recs[1..], i - |first|);
      k := k + 1;
    }
  }

  // ----- frames -------------------------------------------------------------

  /** Page contents depend only on the bytes from `off` to the end of the entries. */
  lemma {:induction false} PageHoldsFrame(c: map<Addr, Cell>, d: map<Addr, Cell>, page: nat, off: nat, es: seq<Entry>)
    requires PageHolds(c, page, off, es)
    requires AllFit(es)
    requires forall o :: off <= o < off + Size(es) ==> Read(c, Addr(page, o)) == Read(d, Addr(page, o))
    ensures PageHolds(d, page, off, es)
    decreases |es|
  {
    if es != [] {
      assert Fits(es[0]);
      assert Read(c, Addr(page, off)) == Read(d, Addr(page, off));
      PageHoldsFrame(c, d, page, off + Len(es[0]), es[1..]);
    }
  }

  lemma {:induction false} PageHoldsAppend(c: map<Addr, Cell>, page: nat, off: nat, es: seq<Entry>, e: Entry)
    requires PageHolds(c, page, off, es)
    requires Read(c, Addr(page, off + Size(es))) == Rec(e)
    ensures PageHolds(c, page, off, es + [e])
    decreases |es|
  {
    if es != [] {
      assert (es + [e])[1..] == es[1..] + [e];
      PageHoldsAppend(c, page, off + Len(es[0]), es[1..], e);
    }
  }

  lemma {:induction false} PageHoldsPrefix(c: map<Addr, Cell>, page: nat, off: nat, es: seq<Entry>, j: nat)
    requires PageHolds(c, page, off, es)
    requires j <= |es|
    ensures PageHolds(c, page, off, es[..j])
    decreases |es|
  {
    if j > 0 {
      assert es[..j][1..] == es[1..][..j - 1];
      PageHoldsPrefix(c, page, off + Len(es[0]), es[1..], j - 1);
    }
  }

  lemma {:induction false} PageHoldsAt(c: map<Addr, Cell>, page: nat, off: nat, es: seq<Entry>, j: nat)
    requires PageHolds(c, page, off, es)
    requires j < |es|
    ensures Read(c, Addr(page, off + Size(es[..j]))) == Rec(es[j])
    decreases |es|
  {
    if j > 0 {
      PageHoldsAt(c, page, off + Len(es[0]), es[1..], j - 1);
      assert es[..j][1..] == es[1..][..j - 1];
      assert es[..j][0] == es[0];
    }
  }

  lemma SizeStep(es: seq<Entry>, j: nat)
    requires j < |es|
    ensures Size(es[..j + 1]) == Size(es[..j]) + Len(es[j])
    ensures Size(es[..j + 1]) <= Size(es)
  {
    SizeAppend(es[..j], [es[j]]);
    assert es[..j + 1] == es[..j] + [es[j]];
    SizeAppend(es[..j + 1], es[j + 1..]);
    assert es == es[..j + 1] + es[j + 1..];
  }

  /** A store past the end of the entries of the last page, or in a page that
      holds none, leaves the layout as it is. */
  lemma StorePastEnd(m: Nvm, lay: Layout, a: Addr, v: Cell)
    requires Holds(m, lay)
    requires forall i :: 0 <= i < |lay.recs| && a.page == lay.pages[i] ==> i == |lay.recs| - 1 && a.off >= End(lay).off
    ensures Holds(Nvm(m.cells[a := v], m.next), lay)
  {
    var d := m.cells[a := v];
    forall i | 0 <= i < |lay.recs| ensures PageOk(Nvm(d, m.next), lay, i) {
      assert PageOk(m, lay, i);
      PageHoldsFrame(m.cells, d, lay.pages[i], 0, lay.recs[i]);
    }
  }

  // ----- the reader sees what the layout says -------------------------------

  lemma WalkStep(m: Nvm, page: nat, off: nat, e: Entry, tail: Addr, log: seq<LogRec>)
    requires page != 0
    requires Fits(e)
    requires off + Len(e) <= LAST_ENTRY
    requires Read(m.cells, Addr(page, off)) == Rec(e)
    requires tail != Addr(page, off)
    requires Walks(m, Addr(page, off + Len(e)), tail, log)
    ensures Walks(m, Addr(page, off), tail, [LogRec(Addr(page, off), e)] + log)
  {
    assert ([LogRec(Addr(page, off), e)] + log)[1..] == log;
  }

  lemma {:induction false} WalkPage(m: Nvm, page: nat, off: nat, es: seq<Entry>, tail: Addr, rest: seq<LogRec>)
    requires page != 0
    requires AllFit(es)
    requires off + Size(es) <= LAST_ENTRY
    requires PageHolds(m.cells, page, off, es)
    requires tail.page == page ==> off + Size(es) <= tail.off
    requires Walks(m, Addr(page, off + Size(es)), tail, rest)
    ensures Walks(m, Addr(page, off), tail, Recs(page, off, es) + rest)
    decreases |es|
  {
    if es == [] {
      assert Recs(page, off, es) + rest == rest;
    } else {
      assert Fits(es[0]);
      WalkPage(m, page, off + Len(es[0]), es[1..], tail, rest);
      var log := Recs(page, off + Len(es[0]), es[1..]) + rest;
      WalkStep(m, page, off, es[0], tail, log);
      assert [LogRec(Addr(page, off), es[0])] + log == Recs(page, off, es) + rest;
    }
  }

  /** The end of a closed page and the start of the next one look alike to a reader. */
  lemma WalkHop(m: Nvm, curr: Addr, page: nat, tail: Addr, log: seq<LogRec>)
    requires Closed(m.cells, curr.page, curr.off)
    requires Next(m.next, curr.page) == page != 0
    requires curr != tail
    requires log != []
    requires Read(m.cells, Addr(page, 0)) != NextPage
    requires Walks(m, Addr(page, 0), tail, log)
    ensures Walks(m, curr, tail, log)
  {
    assert Hop(m, curr) == Addr(page, 0) == Hop(m, Addr(page, 0));
  }

  lemma {:induction false} WalkFrom(m: Nvm, lay: Layout, i: nat)
    requires Holds(m, lay)
    requires i < |lay.recs|
    ensures Walks(m, Addr(lay.pages[i], 0), End(lay), Flat(lay.pages[i..], lay.recs[i..]))
    decreases |lay.recs| - i
  {
    var es := lay.recs[i];
    assert PageOk(m, lay, i);
    var curr := Addr(lay.pages[i], Size(es));
    var rest := Flat(lay.pages[i + 1..], lay.recs[i + 1..]);
    assert lay.recs[i..][1..] == lay.recs[i + 1..] && lay.pages[i..][1..] == lay.pages[i + 1..];
    assert Flat(lay.pages[i..], lay.recs[i..]) == Recs(lay.pages[i], 0, es) + rest;
    if i < |lay.recs| - 1 {
      WalkFrom(m, lay, i + 1);
      var next := lay.recs[i + 1];
      assert PageOk(m, lay, i + 1);
      assert Next(m.next, lay.pages[i]) == After(lay.pages, i);
      assert lay.recs[i + 1..][0] == next && next != [];
      assert rest[0] == Recs(lay.pages[i + 1], 0, next)[0];
      WalkHop(m, curr, lay.pages[i + 1], End(lay), rest);
    }
    WalkPage(m, lay.pages[i], 0, es, End(lay), rest);
  }

  /** Append and walk undo each other: from the first page to the end, the
      reader visits exactly the entries of the layout, in order.  The memory is
      arbitrary outside the places the layout names, so stale bytes play no
      part, and there is no other sequence the reader could see. */
  lemma WalkSeesLayout(m: Nvm, lay: Layout)
    requires Holds(m, lay)
    ensures Walks(m, Addr(lay.pages[0], 0), End(lay), LogOf(lay))
    ensures forall log :: Walks(m, Addr(lay.pages[0], 0), End(lay), log) ==> log == LogOf(lay)
  {
    WalkFrom(m, lay, 0);
    assert lay.pages[0..] == lay.pages && lay.recs[0..] == lay.recs;
    forall log | Walks(m, Addr(lay.pages[0], 0), End(lay), log) ensures log == LogOf(lay) {
      WalkIsUnique(m, Addr(lay.pages[0], 0), End(lay), log, LogOf(lay));
    }
  }

  // ----- the writer ---------------------------------------------------------

  /** The layout after `e` has been put in the last page. */
  function PutHere(lay: Layout, e: Entry): Layout
    requires 0 < |lay.recs|
  {
    var k := |lay.recs| - 1;
    lay.(recs := lay.recs[k := lay.recs[k] + [e]])
  }

  /** The layout after `e` has been put at the start of the next page. */
  function PutNext(lay: Layout, e: Entry): Layout {
    lay.(recs := lay.recs + [[e]])
  }

  lemma PutHereLog(lay: Layout, e: Entry)
    requires 0 < |lay.recs| <= |lay.pages|
    ensures LogOf(PutHere(lay, e)) == LogOf(lay) + [LogRec(End(lay), e)]
  {
    var k := |lay.recs| - 1;
    var put := PutHere(lay, e);
    FlatSplit(lay, k);
    FlatSplit(put, k);
    assert put.recs[..k] == lay.recs[..k] && put.recs[k + 1..] == lay.recs[k + 1..] == [];
    RecsAppend(lay.pages[k], 0, lay.recs[k], [e]);
  }

  lemma PutNextLog(lay: Layout, e: Entry)
    requires 0 < |lay.recs| < |lay.pages|
    ensures LogOf(PutNext(lay, e)) == LogOf(lay) + [LogRec(Addr(lay.pages[|lay.recs|], 0), e)]
  {
    var k := |lay.recs|;
    FlatAppend(lay.pages[..k], lay.recs, lay.pages[k..], [[e]]);
    assert lay.pages == lay.pages[..k] + lay.pages[k..];
    FlatIgnoresSpare(lay.pages, lay.pages[..k], lay.recs);
    var one := [[e]];
    assert one[1..] == [];
    assert [e][1..] == [];
    assert Flat(lay.pages[k..], one) == Recs(lay.pages[k], 0, [e]) + Flat(lay.pages[k..][1..], one[1..]);
  }

  lemma PutHereHolds(m: Nvm, lay: Layout, e: Entry)
    requires Holds(m, lay)
    requires Fits(e)
    requires !IsLastEntry(End(lay), Len(e))
    ensures Holds(Nvm(m.cells[End(lay) := Rec(e)], m.next), PutHere(lay, e))
  {
    var k := |lay.recs| - 1;
    StorePastEnd(m, lay, End(lay), Rec(e));
    var n := Nvm(m.cells[End(lay) := Rec(e)], m.next);
    assert PageOk(n, lay, k);
    PageHoldsAppend(n.cells, lay.pages[k], 0, lay.recs[k], e);
    SizeAppend(lay.recs[k], [e]);
    assert Size([e]) == Len(e) + Size([e][1..]);
    forall i | 0 <= i < |lay.recs| ensures PageOk(n, PutHere(lay, e), i) {
      assert PageOk(n, lay, i);
    }
  }

  lemma PutNextHolds(m: Nvm, lay: Layout, e: Entry)
    requires Holds(m, lay)
    requires |lay.recs| < |lay.pages|
    requires Fits(e)
    requires lay.recs[|lay.recs| - 1] != []
    requires Closed(m.cells, End(lay).page, End(lay).off)
    ensures Holds(Nvm(m.cells[Addr(lay.pages[|lay.recs|], 0) := Rec(e)], m.next), PutNext(lay, e))
  {
    var a := Addr(lay.pages[|lay.recs|], 0);
    StorePastEnd(m, lay, a, Rec(e));
    var n := Nvm(m.cells[a := Rec(e)], m.next);
    assert Size([e]) == Len(e) + Size([e][1..]);
    forall i | 0 <= i < |lay.recs| + 1 ensures PageOk(n, PutNext(lay, e), i) {
      if i < |lay.recs| {
        assert PageOk(n, lay, i);
        assert PutNext(lay, e).recs[i] == lay.recs[i];
      }
    }
  }
}
