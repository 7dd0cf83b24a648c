/** Saving range lists at unmount and loading them at mount: 254 ranges to a page, with
the processor in the top byte of an inode range. */
module RangeLog {
  const ENTRY_SIZE: nat := 16
  const LAST_ENTRY: nat := 4064
  const NODES_PER_PAGE: nat := 254
  const CPU_SHIFT: nat := 0x100_0000_0000_0000

  /** A range on media. */
  datatype LowHigh = LowHigh(low: nat, high: nat)

  /** A place in the chain of pages that holds the log. */
  datatype Pos = Pos(page: nat, off: nat)

  type Media = map<Pos, LowHigh>

  function Get(media: Media, p: Pos): LowHigh {
    if p in media then media[p] else LowHigh(0, 0)
  }

  predicate IsLastEntry(p: Pos) {
    p.off + ENTRY_SIZE > LAST_ENTRY
  }

  /** Where entry n lies, and where the walk stands before it. */
  function PlaceOf(n: nat): Pos {
    Pos(n / NODES_PER_PAGE, n % NODES_PER_PAGE * ENTRY_SIZE)
  }

  function Before(n: nat): Pos {
    if n == 0 then Pos(0, 0) else Pos(PlaceOf(n - 1).page, PlaceOf(n - 1).off + ENTRY_SIZE)
  }

  /** Writer and reader step to the place of entry n. */
  function Step(p: Pos): Pos {
    if IsLastEntry(p) then Pos(p.page + 1, 0) else p
  }

  lemma StepsToEntry(n: nat)
    ensures Step(Before(n)) == PlaceOf(n) && Before(n + 1) == Pos(PlaceOf(n).page, PlaceOf(n).off + ENTRY_SIZE)
  {
    if n > 0 {
      var q, r := (n - 1) / NODES_PER_PAGE, (n - 1) % NODES_PER_PAGE;
      assert n == NODES_PER_PAGE * q + r + 1;
      if r + 1 == NODES_PER_PAGE {
        assert n == NODES_PER_PAGE * (q + 1);
        assert n / NODES_PER_PAGE == q + 1 && n % NODES_PER_PAGE == 0;
      } else {
        assert n / NODES_PER_PAGE == q && n % NODES_PER_PAGE == r + 1;
      }
    }
  }

  lemma PlacesDiffer(a: nat, b: nat)
    requires a != b
    ensures PlaceOf(a) != PlaceOf(b) && Before(a) != Before(b)
  {
    assert a == NODES_PER_PAGE * (a / NODES_PER_PAGE) + a % NODES_PER_PAGE;
    assert b == NODES_PER_PAGE * (b / NODES_PER_PAGE) + b % NODES_PER_PAGE;
    if a > 0 && b > 0 {
      var c, d := a - 1, b - 1;
      assert c == NODES_PER_PAGE * (c / NODES_PER_PAGE) + c % NODES_PER_PAGE;
      assert d == NODES_PER_PAGE * (d / NODES_PER_PAGE) + d % NODES_PER_PAGE;
    }
  }

  ghost predicate Contains(media: Media, es: seq<LowHigh>) {
    forall n :: 0 <= n < |es| ==> Get(media, PlaceOf(n)) == es[n]
  }

  /** Pages enough for n entries. */
  function PagesFor(n: nat): nat {
    n / NODES_PER_PAGE + if n % NODES_PER_PAGE != 0 then 1 else 0
  }

  /** It is the least number of pages that holds the entries. */
  lemma PagesForIsLeast(n: nat, pages: nat)
    ensures pages * NODES_PER_PAGE >= n <==> pages >= PagesFor(n)
  {
    assert n == NODES_PER_PAGE * (n / NODES_PER_PAGE) + n % NODES_PER_PAGE;
  }

  lemma EnoughPages(n: nat, total: nat)
    requires n < total
    ensures PlaceOf(n).page < PagesFor(total)
  {
    assert n == NODES_PER_PAGE * (n / NODES_PER_PAGE) + n % NODES_PER_PAGE;
    assert total == NODES_PER_PAGE * (total / NODES_PER_PAGE) + total % NODES_PER_PAGE;
  }

  // ----- saving ------------------------------------------------------------------------------------------

  /** What is written for a range of list `cpu`. */
  function Tag(r: LowHigh, cpu: nat): LowHigh {
    LowHigh(r.low + cpu * CPU_SHIFT, r.high)
  }

  function TagAll(s: seq<LowHigh>, cpu: nat): seq<LowHigh> {
    seq(|s|, i requires 0 <= i < |s| => Tag(s[i], cpu))
  }

  /** The entries of the first n lists; `tagged` tells whether the processor is packed in. */
  function Entries(lists: seq<seq<LowHigh>>, n: nat, tagged: bool): seq<LowHigh>
    requires n <= |lists|
  {
    if n == 0 then []
    else Entries(lists, n - 1, tagged) + if tagged then TagAll(lists[n - 1], n - 1) else lists[n - 1]
  }

  /** Writes one entry; fails only when the chain has no page for it. */
  method AppendRangeNodeEntry(media: Media, pages: nat, tail: Pos, e: LowHigh, ghost es: seq<LowHigh>)
    returns (ok: bool, media': Media, tail': Pos)
    requires Contains(media, es) && tail == Before(|es|) && tail.page < pages
    ensures ok <==> PlaceOf(|es|).page < pages
    ensures ok ==> Contains(media', es + [e]) && tail' == Before(|es| + 1)
  {
    StepsToEntry(|es|);
    ok, media', tail' := true, media, tail;
    if IsLastEntry(tail) && tail.page + 1 >= pages {
      ok := false;
      return;
    }
    var p := Step(tail);
    media' := media[p := e];
    tail' := Pos(p.page, p.off + ENTRY_SIZE);
    forall n | 0 <= n < |es| + 1 ensures Get(media', PlaceOf(n)) == (es + [e])[n] {
      if n < |es| {
        PlacesDiffer(n, |es|);
      }
    }
  }

  function Total(lists: seq<seq<LowHigh>>, n: nat): nat
    requires n <= |lists|
  {
    if n == 0 then 0 else Total(lists, n - 1) + |lists[n - 1]|
  }

  lemma {:induction false} EntriesCount(lists: seq<seq<LowHigh>>, n: nat, tagged: bool)
    requires n <= |lists|
    ensures |Entries(lists, n, tagged)| == Total(lists, n)
    decreases n
  {
    if n > 0 {
      EntriesCount(lists, n - 1, tagged);
    }
  }

  lemma {:induction false} TotalGrows(lists: seq<seq<LowHigh>>, n: nat, m: nat)
    requires n <= m <= |lists|
    ensures Total(lists, n) <= Total(lists, m)
    decreases m
  {
    if n < m {
      TotalGrows(lists, n, m - 1);
    }
  }

  /** Writes one list behind the entries `es`. */
  method SaveRangeNodes(media: Media, pages: nat, tail: Pos, list: seq<LowHigh>, cpu: nat, tagged: bool,
                        ghost es: seq<LowHigh>)
    returns (ok: bool, media': Media, tail': Pos)
    requires Contains(media, es) && tail == Before(|es|) && tail.page < pages
    ensures pages >= PagesFor(|es| + |list|) ==> ok
    ensures ok ==>
              && Contains(media', es + if tagged then TagAll(list, cpu) else list)
              && tail' == Before(|es| + |list|) && tail'.page < pages
  {
    hide Contains, PlaceOf, Before, PagesFor;
    ok, media', tail' := true, media, tail;
    ghost var all := if tagged then TagAll(list, cpu) else list;
    assert es + all[..0] == es;
    var i := 0;
    while i < |list|
      invariant 0 <= i <= |list| && ok && Contains(media', es + all[..i]) && tail' == Before(|es| + i)
                && tail'.page < pages
    {
      var e := if tagged then Tag(list[i], cpu) else list[i];
      ghost var n := |es| + i;
      if pages >= PagesFor(|es| + |list|) {
        EnoughPages(n, |es| + |list|);
      }
      ok, media', tail' := AppendRangeNodeEntry(media', pages, tail', e, es + all[..i]);
      if !ok {
        return;
      }
      StepsToEntry(n);
      assert es + all[..i + 1] == es + all[..i] + [e];
      i := i + 1;
    }
    assert all[..|list|] == all;
  }

  /** Writes all lists, one after the other.  With the pages asked for up front, or more,
      it cannot fail. */
  method SaveAll(media: Media, pages: nat, lists: seq<seq<LowHigh>>, tagged: bool)
    returns (ok: bool, media': Media, tail: Pos)
    requires 0 < pages
    ensures pages >= PagesFor(Total(lists, |lists|)) ==> ok
    ensures ok ==>
              var es := Entries(lists, |lists|, tagged); Contains(media', es) && tail == Before(|es|)
  {
    assert Before(0) == Pos(0, 0) && Contains(media, []);
    hide Contains, PlaceOf, Before, PagesFor, TagAll;
    ok, media', tail := true, media, Pos(0, 0);
    var c := 0;
    while c < |lists|
      invariant 0 <= c <= |lists| && ok && tail.page < pages
      invariant var es := Entries(lists, c, tagged); Contains(media', es) && tail == Before(|es|)
    {
      ghost var es := Entries(lists, c, tagged);
      EntriesCount(lists, c, tagged);
      TotalGrows(lists, c + 1, |lists|);
      MorePages(Total(lists, c + 1), Total(lists, |lists|));
      ok, media', tail := SaveRangeNodes(media', pages, tail, lists[c], c, tagged, es);
      if !ok {
        return;
      }
      c := c + 1;
    }
  }

  lemma MorePages(n: nat, m: nat)
    requires n <= m
    ensures PagesFor(n) <= PagesFor(m)
  {
    assert n == NODES_PER_PAGE * (n / NODES_PER_PAGE) + n % NODES_PER_PAGE;
    assert m == NODES_PER_PAGE * (m / NODES_PER_PAGE) + m % NODES_PER_PAGE;
  }

  // ----- loading -----------------------------------------------------------------------------------------

  /** The processor that an entry of the inode list names, and the range without it. */
  function CpuOf(e: LowHigh): nat {
    e.low / CPU_SHIFT
  }

  function Untag(e: LowHigh): LowHigh {
    LowHigh(e.low % CPU_SHIFT, e.high)
  }

  /** Puts a range into a list in order. */
  function InsertInOrder(s: seq<LowHigh>, e: LowHigh): seq<LowHigh> {
    if s == [] || s[|s| - 1].low < e.low then s + [e] else InsertInOrder(s[..|s| - 1], e) + [s[|s| - 1]]
  }

  /** What list c gets from the entries. */
  function Placed(es: seq<LowHigh>, c: nat): seq<LowHigh> {
    if es == [] then []
    else
      var e, before := es[|es| - 1], Placed(es[..|es| - 1], c);
      if CpuOf(e) == c then InsertInOrder(before, Untag(e)) else before
  }

  ghost predicate KnownCpus(es: seq<LowHigh>, cpus: nat) {
    forall n :: 0 <= n < |es| ==> CpuOf(es[n]) < cpus
  }

  /** Reads the entries back and puts each into the list of its processor.  Fails at the first entry that names no
      processor. */
  method LoadInodeLists(media: Media, tail: Pos, cpus: nat, ghost es: seq<LowHigh>)
    returns (ok: bool, out: seq<seq<LowHigh>>)
    requires Contains(media, es) && tail == Before(|es|)
    ensures ok <==> KnownCpus(es, cpus)
    ensures ok ==> |out| == cpus && forall c :: 0 <= c < cpus ==> out[c] == Placed(es, c)
  {
    assert Before(0) == Pos(0, 0);
    hide Contains, PlaceOf, Before, CpuOf;
    ok, out := true, seq(cpus, i => []);
    var curr := Pos(0, 0);
    ghost var n := 0;
    assert es[..0] == [];
    while curr != tail
      invariant 0 <= n <= |es| && curr == Before(n) && ok && |out| == cpus
      invariant KnownCpus(es[..n], cpus)
      invariant forall c :: 0 <= c < cpus ==> out[c] == Placed(es[..n], c)
      decreases |es| - n
    {
      StepsToEntry(n);
      var p := Step(curr);
      var e := Get(media, p);
      EntryAt(media, es, n);
      var cpu := CpuOf(e);
      if cpu >= cpus {
        ok := false;
        return;
      }
      ghost var seen := es[..n + 1];
      assert seen[..n] == es[..n] && seen[n] == e;
      assert forall x :: 0 <= x < n ==> seen[x] == es[..n][x];
      out := out[cpu := InsertInOrder(out[cpu], Untag(e))];
      curr := Pos(p.page, p.off + ENTRY_SIZE);
      n := n + 1;
    }
    if n != |es| {
      PlacesDiffer(n, |es|);
    }
    assert es[..|es|] == es;
  }

  lemma EntryAt(media: Media, es: seq<LowHigh>, n: nat)
    requires Contains(media, es) && n < |es|
    ensures Get(media, PlaceOf(n)) == es[n]
  {
  }

  // ----- the round trip ----------------------------------------------------------------------------------

  /** Ranges in ascending order, small enough for the processor to be packed in. */
  ghost predicate Packable(s: seq<LowHigh>) {
    && (forall x :: 0 <= x < |s| ==> s[x].low < CPU_SHIFT)
    && (forall x, y :: 0 <= x < y < |s| ==> s[x].low < s[y].low)
  }

  lemma TagParts(r: LowHigh, cpu: nat)
    requires r.low < CPU_SHIFT
    ensures CpuOf(Tag(r, cpu)) == cpu && Untag(Tag(r, cpu)) == r
  {
  }

  /** The entries of one list, read behind others. */
  lemma {:induction false} ListBack(before: seq<LowHigh>, s: seq<LowHigh>, i: nat, c: nat)
    requires Packable(s) && (c == i ==> Placed(before, c) == [])
    ensures Placed(before + TagAll(s, i), c) == if c == i then s else Placed(before, c)
    decreases |s|
  {
    var tagged := TagAll(s, i);
    if s == [] {
      assert before + tagged == before;
    } else {
      var n := |s| - 1;
      var all := before + tagged;
      assert tagged[..n] == TagAll(s[..n], i) && tagged[n] == Tag(s[n], i);
      assert all[..|all| - 1] == before + tagged[..n] && all[|all| - 1] == tagged[n];
      ListBack(before, s[..n], i, c);
      TagParts(s[n], i);
      assert s[..n] + [s[n]] == s;
      assert c == i && n > 0 ==> s[..n][n - 1].low < s[n].low;
    }
  }

  lemma {:induction false} AllBack(lists: seq<seq<LowHigh>>, n: nat, c: nat)
    requires n <= |lists| && forall i :: 0 <= i < |lists| ==> Packable(lists[i])
    ensures Placed(Entries(lists, n, true), c) == if c < n then lists[c] else []
    decreases n
  {
    hide Placed, Packable, TagAll;
    if n == 0 {
      NonePlaced(c);
    } else {
      AllBack(lists, n - 1, c);
      ListBack(Entries(lists, n - 1, true), lists[n - 1], n - 1, c);
    }
  }

  lemma NonePlaced(c: nat)
    ensures Placed([], c) == []
  {
  }

  lemma {:induction false} AllKnown(lists: seq<seq<LowHigh>>, n: nat)
    requires n <= |lists| && forall i :: 0 <= i < |lists| ==> Packable(lists[i])
    ensures KnownCpus(Entries(lists, n, true), |lists|)
    decreases n
  {
    if n > 0 {
      AllKnown(lists, n - 1);
      var before, last := Entries(lists, n - 1, true), TagAll(lists[n - 1], n - 1);
      forall x | 0 <= x < |before + last| ensures CpuOf((before + last)[x]) < |lists| {
        if x >= |before| {
          TagParts(lists[n - 1][x - |before|], n - 1);
        }
      }
    }
  }

  /** The inode lists saved at unmount are those loaded at mount. */
  method SaveAndLoad(media: Media, pages: nat, lists: seq<seq<LowHigh>>) returns (out: seq<seq<LowHigh>>)
    requires lists != [] && 0 < pages && pages >= PagesFor(Total(lists, |lists|))
    requires forall i :: 0 <= i < |lists| ==> Packable(lists[i])
    ensures out == lists
  {
    hide Entries, Placed, Packable, KnownCpus, Contains;
    var ok, media', tail := SaveAll(media, pages, lists, true);
    ghost var es := Entries(lists, |lists|, true);
    AllKnown(lists, |lists|);
    ok, out := LoadInodeLists(media', tail, |lists|, es);
    forall c | 0 <= c < |lists| ensures out[c] == lists[c] {
      AllBack(lists, |lists|, c);
    }
  }
}
