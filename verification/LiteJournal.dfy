/** The lite undo journal: a transaction on a few words is all or nothing, at
whatever store a crash comes and whichever unfenced stores have persisted. */
module LiteJournal {
  import opened Options

  const PAGE_SIZE: nat := 4096
  const ENTRY_SIZE: nat := 64
  /** The type of a word is kept in the top byte of its address. */
  const TYPE_SHIFT: nat := 0x100_0000_0000_0000

  /** Persistent words; words never stored read as 0. */
  type Words = map<nat, nat>

  function Get(words: Words, a: nat): nat {
    if a in words then words[a] else 0
  }

  ghost predicate SameWords(v: Words, w: Words) {
    forall a: nat :: Get(v, a) == Get(w, a)
  }

  datatype Store = Store(addr: nat, value: nat)

  /** A journal entry: up to four tagged addresses and old values. */
  datatype Undo = Undo(addrs: seq<nat>, values: seq<nat>)

  predicate UndoOk(e: Undo) {
    |e.addrs| == 4 && |e.values| == 4
  }

  function Tagged(kind: nat, addr: nat): nat {
    kind * TYPE_SHIFT + addr
  }

  predicate KnownKind(kind: nat) {
    kind == 1 || kind == 2 || kind == 4 || kind == 8
  }

  /** One more than the largest value of a word of that many bytes. */
  function Range(kind: nat): nat
    requires KnownKind(kind)
  {
    if kind == 1 then 0x100
    else if kind == 2 then 0x1_0000
    else if kind == 4 then 0x1_0000_0000
    else 0x1_0000_0000_0000_0000
  }

  lemma TagParts(kind: nat, addr: nat)
    requires addr < TYPE_SHIFT
    ensures Tagged(kind, addr) / TYPE_SHIFT == kind && Tagged(kind, addr) % TYPE_SHIFT == addr
  {
  }

  // ----- the ring of entries -----------------------------------------------------------------------------

  function NextLiteJournal(curr: nat): nat {
    if curr % PAGE_SIZE + ENTRY_SIZE >= PAGE_SIZE then curr - curr % PAGE_SIZE else curr + ENTRY_SIZE
  }

  /** The place of an entry: its page and its slot there. */
  lemma SlotOf(page: nat, slot: nat)
    requires slot < 64
    ensures var curr := page * PAGE_SIZE + slot * ENTRY_SIZE;
            curr % PAGE_SIZE == slot * ENTRY_SIZE && curr / PAGE_SIZE == page && curr % ENTRY_SIZE == 0
            && NextLiteJournal(curr) == page * PAGE_SIZE + (if slot == 63 then 0 else (slot + 1) * ENTRY_SIZE)
  {
    var curr := page * PAGE_SIZE + slot * ENTRY_SIZE;
    assert curr == ENTRY_SIZE * (page * 64 + slot);
  }

  lemma SlotAt(curr: nat) returns (page: nat, slot: nat)
    requires curr % ENTRY_SIZE == 0
    ensures slot < 64 && curr == page * PAGE_SIZE + slot * ENTRY_SIZE
  {
    var n := curr / ENTRY_SIZE;
    page, slot := n / 64, n % 64;
    assert curr == ENTRY_SIZE * n && n == 64 * page + slot;
  }

  /** Entries stay on their page, and one or two of them can be told from none. */
  lemma RingStep(curr: nat)
    requires curr % ENTRY_SIZE == 0
    ensures var next := NextLiteJournal(curr);
            && next / PAGE_SIZE == curr / PAGE_SIZE && next % ENTRY_SIZE == 0 && next != curr
            && NextLiteJournal(next) != curr && NextLiteJournal(next) != next
  {
    var page, slot := SlotAt(curr);
    var after := if slot == 63 then 0 else slot + 1;
    SlotOf(page, slot);
    SlotOf(page, after);
    hide NextLiteJournal;
  }

  // ----- undoing -----------------------------------------------------------------------------------------

  /** What entry e says of its first n words. */
  function Items(e: Undo, n: nat): seq<Store>
    requires UndoOk(e) && n <= 4
  {
    if n == 0 then []
    else
      var a, kind := e.addrs[n - 1], e.addrs[n - 1] / TYPE_SHIFT;
      Items(e, n - 1) +
      if a != 0 && KnownKind(kind) then [Store(a % TYPE_SHIFT, e.values[n - 1] % Range(kind))] else []
  }

  function UndoAll(words: Words, items: seq<Store>): Words {
    if items == [] then words
    else UndoAll(words, items[..|items| - 1])[items[|items| - 1].addr := items[|items| - 1].value]
  }

  lemma {:induction false} UndoConcat(words: Words, a: seq<Store>, b: seq<Store>)
    ensures UndoAll(words, a + b) == UndoAll(UndoAll(words, a), b)
    decreases |b|
  {
    if b == [] {
      assert a + b == a;
    } else {
      assert (a + b)[..|a + b| - 1] == a + b[..|b| - 1];
      UndoConcat(words, a, b[..|b| - 1]);
    }
  }

  /** The items of several entries. */
  function AllItems(es: seq<Undo>): seq<Store>
    requires forall i :: 0 <= i < |es| ==> UndoOk(es[i])
  {
    if es == [] then [] else AllItems(es[..|es| - 1]) + Items(es[|es| - 1], 4)
  }

  /** Every item records the value that `old` has. */
  ghost predicate Faithful(items: seq<Store>, before: Words) {
    forall i :: 0 <= i < |items| ==> items[i].value == Get(before, items[i].addr)
  }

  predicate Records(items: seq<Store>, a: nat) {
    exists i :: 0 <= i < |items| && items[i].addr == a
  }

  /** What the words may be after a crash: each is durable or one of its later
      stores has persisted. */
  ghost predicate MayBe(durable: Words, stores: seq<Store>, words: Words) {
    forall a: nat :: Get(words, a) == Get(durable, a) || Store(a, Get(words, a)) in stores
  }

  ghost predicate AllRecorded(items: seq<Store>, stores: seq<Store>) {
    forall i :: 0 <= i < |stores| ==> Records(items, stores[i].addr)
  }

  lemma {:induction false} UndoneWord(words: Words, items: seq<Store>, before: Words, a: nat)
    requires Faithful(items, before)
    ensures Get(UndoAll(words, items), a) == if Records(items, a) then Get(before, a) else Get(words, a)
    decreases |items|
  {
    if items != [] {
      var n := |items| - 1;
      assert forall i :: 0 <= i < n ==> items[..n][i] == items[i];
      UndoneWord(words, items[..n], before, a);
      if items[n].addr == a {
        assert Records(items, a);
      } else if Records(items, a) {
        var i :| 0 <= i < |items| && items[i].addr == a;
        assert items[..n][i].addr == a;
      }
    }
  }

  /** Undoing gives back the old words, whatever subset of the stores persisted. */
  lemma UndoRestores(words: Words, items: seq<Store>, before: Words, stores: seq<Store>)
    requires Faithful(items, before) && MayBe(before, stores, words) && AllRecorded(items, stores)
    ensures SameWords(UndoAll(words, items), before)
  {
    forall a: nat ensures Get(UndoAll(words, items), a) == Get(before, a) {
      UndoneWord(words, items, before, a);
      if Get(words, a) != Get(before, a) {
        var i :| 0 <= i < |stores| && stores[i] == Store(a, Get(words, a));
        assert Records(items, stores[i].addr);
      }
    }
  }

  // ----- recovery ----------------------------------------------------------------------------------------

  datatype Pair = Pair(head: nat, tail: nat)

  const NO_UNDO: Undo := Undo([0, 0, 0, 0], [0, 0, 0, 0])

  function EntryAt(journal: map<nat, Undo>, p: nat): (e: Undo)
    ensures UndoOk(e)
  {
    if p in journal && UndoOk(journal[p]) then journal[p] else NO_UNDO
  }

  /** The entries of a journal that are not committed; None if the pointers are wrong. */
  function Pending(journal: map<nat, Undo>, pair: Pair): (es: Option<seq<Undo>>)
    ensures es.Some? ==> forall i :: 0 <= i < |es.value| ==> UndoOk(es.value[i])
  {
    var next := NextLiteJournal(pair.head);
    if pair.head == pair.tail then Some([])
    else if pair.tail == next then Some([EntryAt(journal, pair.head)])
    else if pair.tail == NextLiteJournal(next) then Some([EntryAt(journal, pair.head), EntryAt(journal, next)])
    else None
  }

  /** Undoes one entry, word by word. */
  method UndoLiteJournalEntry(words: Words, e: Undo) returns (words': Words)
    requires UndoOk(e)
    ensures words' == UndoAll(words, Items(e, 4))
  {
    words' := words;
    for i := 0 to 4
      invariant words' == UndoAll(words, Items(e, i))
    {
      var a := e.addrs[i];
      var kind := a / TYPE_SHIFT;
      ghost var items := Items(e, i);
      if a != 0 && kind != 0 && KnownKind(kind) {
        ghost var item := Store(a % TYPE_SHIFT, e.values[i] % Range(kind));
        assert (items + [item])[..|items|] == items;
        words' := words'[a % TYPE_SHIFT := e.values[i] % Range(kind)];
      } else {
        assert items + [] == items;
      }
    }
  }

  /** Undoes what one journal holds. */
  method RecoverLiteJournal(words: Words, journal: map<nat, Undo>, pair: Pair, recover: nat)
    returns (words': Words, pair': Pair)
    requires recover == 1 || recover == 2
    requires var next := NextLiteJournal(pair.head);
             pair.tail == if recover == 1 then next else NextLiteJournal(next)
    requires pair.head != pair.tail && (recover == 2 ==> pair.tail != NextLiteJournal(pair.head))
    ensures pair' == Pair(pair.head, pair.head)
    ensures words' == UndoAll(words, AllItems(Pending(journal, pair).value))
  {
    var e := EntryAt(journal, pair.head);
    words' := UndoLiteJournalEntry(words, e);
    assert AllItems([e]) == Items(e, 4) by {
      assert [e][..0] == [];
    }
    if recover == 2 {
      var e2 := EntryAt(journal, NextLiteJournal(pair.head));
      words' := UndoLiteJournalEntry(words', e2);
      assert [e, e2][..1] == [e];
      UndoConcat(words, Items(e, 4), Items(e2, 4));
    }
    pair' := Pair(pair.head, pair.head);
  }

  /** The uncommitted entries of the first n journals. */
  function PendingOf(journal: map<nat, Undo>, pairs: seq<Pair>, n: nat): (es: Option<seq<Undo>>)
    requires n <= |pairs|
    ensures es.Some? ==> forall i :: 0 <= i < |es.value| ==> UndoOk(es.value[i])
  {
    if n == 0 then Some([])
    else
      var before, last := PendingOf(journal, pairs, n - 1), Pending(journal, pairs[n - 1]);
      if before.None? || last.None? then None else Some(before.value + last.value)
  }

  lemma {:induction false} AllItemsConcat(a: seq<Undo>, b: seq<Undo>)
    requires forall i :: 0 <= i < |a| ==> UndoOk(a[i])
    requires forall i :: 0 <= i < |b| ==> UndoOk(b[i])
    ensures AllItems(a + b) == AllItems(a) + AllItems(b)
    decreases |b|
  {
    if b == [] {
      assert a + b == a;
    } else {
      var front, last := b[..|b| - 1], b[|b| - 1];
      assert b == front + [last] && a + b == (a + front) + [last];
      OneMoreEntry(a + front, last);
      OneMoreEntry(front, last);
      AllItemsConcat(a, front);
      hide *;
      assert AllItems(a) + AllItems(front) + Items(last, 4) == AllItems(a) + (AllItems(front) + Items(last, 4));
    }
  }

  lemma OneMoreEntry(es: seq<Undo>, e: Undo)
    requires UndoOk(e) && forall i :: 0 <= i < |es| ==> UndoOk(es[i])
    ensures AllItems(es + [e]) == AllItems(es) + Items(e, 4)
  {
    assert (es + [e])[..|es|] == es;
  }

  lemma {:induction false} PendingFails(journal: map<nat, Undo>, pairs: seq<Pair>, n: nat, m: nat)
    requires n <= m <= |pairs| && PendingOf(journal, pairs, n).None?
    ensures PendingOf(journal, pairs, m).None?
    decreases m
  {
    if n < m {
      PendingFails(journal, pairs, n, m - 1);
    }
  }

  /** Recovery at mount: undoes every uncommitted entry of every journal.  It fails
      if and only if some journal's pointers are more than two entries apart. */
  method SoftInit(words: Words, journal: map<nat, Undo>, pairs: seq<Pair>)
    returns (ok: bool, words': Words, pairs': seq<Pair>)
    ensures ok <==> PendingOf(journal, pairs, |pairs|).Some?
    ensures ok ==>
              && words' == UndoAll(words, AllItems(PendingOf(journal, pairs, |pairs|).value))
              && |pairs'| == |pairs| && forall i :: 0 <= i < |pairs| ==> pairs'[i] == Pair(pairs[i].head, pairs[i].head)
  {
    hide Pending, AllItems, UndoAll;
    ok, words', pairs' := true, words, pairs;
    NothingUndone(words);
    for i := 0 to |pairs|
      invariant ok && PendingOf(journal, pairs, i).Some? && |pairs'| == |pairs|
      invariant words' == UndoAll(words, AllItems(PendingOf(journal, pairs, i).value))
      invariant forall x :: 0 <= x < i ==> pairs'[x] == Pair(pairs[x].head, pairs[x].head)
      invariant forall x :: i <= x < |pairs| ==> pairs'[x] == pairs[x]
    {
      var pair;
      ok, words', pair := RecoverOne(words', journal, pairs'[i]);
      if !ok {
        PendingFails(journal, pairs, i + 1, |pairs|);
        return;
      }
      OneMoreJournal(words, journal, pairs, i);
      pairs' := pairs'[i := pair];
    }
  }

  lemma NothingUndone(words: Words)
    ensures UndoAll(words, AllItems([])) == words
  {
    assert AllItems([]) == [];
  }

  /** Undoes what one journal holds, if its pointers are right. */
  method RecoverOne(words: Words, journal: map<nat, Undo>, pair: Pair) returns (ok: bool, words': Words, pair': Pair)
    ensures ok <==> Pending(journal, pair).Some?
    ensures ok ==>
              words' == UndoAll(words, AllItems(Pending(journal, pair).value)) && pair' == Pair(pair.head, pair.head)
  {
    ok, words', pair' := true, words, pair;
    if pair.head == pair.tail {
      assert AllItems([]) == [];
      return;
    }
    var next := NextLiteJournal(pair.head);
    if pair.tail == next {
      words', pair' := RecoverLiteJournal(words, journal, pair, 1);
    } else if pair.tail == NextLiteJournal(next) {
      words', pair' := RecoverLiteJournal(words, journal, pair, 2);
    } else {
      ok := false;
    }
  }

  lemma OneMoreJournal(words: Words, journal: map<nat, Undo>, pairs: seq<Pair>, n: nat)
    requires n < |pairs| && PendingOf(journal, pairs, n).Some? && Pending(journal, pairs[n]).Some?
    ensures PendingOf(journal, pairs, n + 1).Some?
    ensures UndoAll(words, AllItems(PendingOf(journal, pairs, n + 1).value)) ==
            UndoAll(UndoAll(words, AllItems(PendingOf(journal, pairs, n).value)),
                AllItems(Pending(journal, pairs[n]).value))
  {
    var a, b := PendingOf(journal, pairs, n).value, Pending(journal, pairs[n]).value;
    hide Pending;
    AllItemsConcat(a, b);
    UndoConcat(words, AllItems(a), AllItems(b));
  }

  // ----- transactions ------------------------------------------------------------------------------------

  /** What is known of persistent memory at some store: the durable words, the
      stores since, the entries and the pointers. */
  datatype Point = Point(durable: Words, stores: seq<Store>, journal: map<nat, Undo>, pair: Pair)

  /** Whatever a crash here leaves, recovery gives `words`. */
  ghost predicate RecoversTo(p: Point, words: Words) {
    && Pending(p.journal, p.pair).Some?
    && forall w: Words :: MayBe(p.durable, p.stores, w) ==>
         SameWords(UndoAll(w, AllItems(Pending(p.journal, p.pair).value)), words)
  }

  ghost predicate AllRecoverTo(trace: seq<Point>, words: Words) {
    forall i :: 0 <= i < |trace| ==> RecoversTo(trace[i], words)
  }

  lemma QuietPoint(p: Point, words: Words)
    requires p.pair.head == p.pair.tail && p.stores == [] && p.durable == words
    ensures RecoversTo(p, words)
  {
    assert AllItems([]) == [];
  }

  lemma BusyPoint(p: Point, es: seq<Undo>, words: Words)
    requires Pending(p.journal, p.pair) == Some(es) && p.durable == words
    requires Faithful(AllItems(es), words) && AllRecorded(AllItems(es), p.stores)
    ensures RecoversTo(p, words)
  {
    forall w: Words | MayBe(p.durable, p.stores, w) ensures SameWords(UndoAll(w, AllItems(es)), words) {
      UndoRestores(w, AllItems(es), words, p.stores);
    }
  }

  /** All stores have persisted, but the transaction has not ended. */
  lemma FencedPoint(p: Point, es: seq<Undo>, before: Words, stores: seq<Store>)
    requires Pending(p.journal, p.pair) == Some(es) && p.stores == [] && MayBe(before, stores, p.durable)
    requires Faithful(AllItems(es), before) && AllRecorded(AllItems(es), stores)
    ensures RecoversTo(p, before)
  {
    forall w: Words | MayBe(p.durable, p.stores, w) ensures SameWords(UndoAll(w, AllItems(es)), before) {
      assert MayBe(before, stores, w);
      UndoRestores(w, AllItems(es), before, stores);
    }
  }

  lemma MorePoints(trace: seq<Point>, p: Point, words: Words)
    requires AllRecoverTo(trace, words) && RecoversTo(p, words)
    ensures AllRecoverTo(trace + [p], words)
  {
    var all := trace + [p];
    forall i | 0 <= i < |all| ensures RecoversTo(all[i], words) {
      if i < |trace| {
        assert all[i] == trace[i];
      }
    }
  }

  class Journal {
    var words: Words
    var journal: map<nat, Undo>
    var pair: Pair
    /** The words as of the last fence, the stores since, and what a crash could have left. */
    ghost var durable: Words
    ghost var stores: seq<Store>
    ghost var trace: seq<Point>

    ghost predicate Ready()
      reads this
    {
      pair.head == pair.tail && pair.head % ENTRY_SIZE == 0 && stores == [] && durable == words
    }

    ghost function Now(): Point
      reads this
    {
      Point(durable, stores, journal, pair)
    }

    /** A transaction has begun: `es` record the words of `before`, and every store
        since is recorded. */
    ghost predicate InFlight(before: Words, es: seq<Undo>)
      reads this
    {
      && pair.head % ENTRY_SIZE == 0 && pair.tail % ENTRY_SIZE == 0 && Pending(journal, pair) == Some(es)
      && durable == before && Faithful(AllItems(es), before) && AllRecorded(AllItems(es), stores)
      && MayBe(before, stores, words) && AllRecoverTo(trace, before)
    }

    ghost method Record(before: Words)
      requires AllRecoverTo(trace, before) && RecoversTo(Now(), before)
      modifies this`trace
      ensures AllRecoverTo(trace, before) && trace == old(trace) + [Now()]
    {
      MorePoints(trace, Now(), before);
      trace := trace + [Now()];
    }

    /** Writes the undo entries, then publishes them by one store to the tail. */
    method CreateLiteTransaction(e1: Undo, e2: Undo, entries: nat, ghost es: seq<Undo>) returns (newTail: nat)
      requires Ready() && (entries == 1 || entries == 2) && UndoOk(e1) && UndoOk(e2)
      requires es == if entries == 1 then [e1] else [e1, e2]
      requires Faithful(AllItems(es), words)
      modifies this
      ensures InFlight(old(words), es) && words == old(words) && stores == [] && newTail == pair.tail
    {
      trace := [];
      RingStep(pair.head);
      var temp := pair.head;
      journal := journal[temp := e1];
      QuietPoint(Now(), words);
      Record(words);
      if entries == 2 {
        temp := NextLiteJournal(temp);
        journal := journal[temp := e2];
        QuietPoint(Now(), words);
        Record(words);
        RingStep(temp);
      }
      newTail := NextLiteJournal(temp);
      pair := Pair(pair.head, newTail);
      assert Pending(journal, pair) == Some(es);
      BusyPoint(Now(), es, words);
      Record(words);
    }

    /** Stores to a journalled word, in place. */
    method StoreWord(a: nat, v: nat, ghost before: Words, ghost es: seq<Undo>)
      requires InFlight(before, es) && Records(AllItems(es), a)
      modifies this`words, this`stores, this`trace
      ensures InFlight(before, es) && words == old(words)[a := v] && stores == old(stores) + [Store(a, v)]
    {
      words := words[a := v];
      ghost var stores0 := stores;
      stores := stores + [Store(a, v)];
      assert AllRecorded(AllItems(es), stores) by {
        forall i | 0 <= i < |stores| ensures Records(AllItems(es), stores[i].addr) {
          if i < |stores0| {
            assert stores[i] == stores0[i];
          }
        }
      }
      BusyPoint(Now(), es, before);
      Record(before);
    }

    /** The undo entries cover exactly the words stored. */
    ghost predicate Exact(es: seq<Undo>)
      requires forall i :: 0 <= i < |es| ==> UndoOk(es[i])
      reads this`stores
    {
      forall i :: 0 <= i < |AllItems(es)| ==> Records(stores, AllItems(es)[i].addr)
    }

    /** The barrier makes the words durable; one store to the head ends the
        transaction.  Before it recovery gives the old words, after it the new. */
    method CommitLiteTransaction(newTail: nat, ghost before: Words, ghost es: seq<Undo>) returns (ghost n: nat)
      requires InFlight(before, es) && newTail == pair.tail && es != [] && Exact(es)
      modifies this
      ensures Ready() && words == old(words)
      ensures n <= |trace| && AllRecoverTo(trace[..n], before) && AllRecoverTo(trace[n..], words) && n < |trace|
    {
      FencedPoint(Point(words, [], journal, pair), es, before, stores);
      durable, stores := words, [];
      Record(before);
      n := |trace|;
      ghost var trace0 := trace;
      pair := Pair(newTail, pair.tail);
      QuietPoint(Now(), words);
      trace := trace + [Now()];
      assert trace[..n] == trace0 && trace[n..] == [Now()];
    }
  }

  // ----- restarting recovery -----------------------------------------------------------------------------

  /** The pointers when recovery has emptied the first n journals. */
  function Emptied(pairs: seq<Pair>, n: nat): seq<Pair>
    requires n <= |pairs|
  {
    seq(|pairs|, i requires 0 <= i < |pairs| => if i < n then Pair(pairs[i].head, pairs[i].head) else pairs[i])
  }

  /** The entries of the journals are those of the first n and those still pending
      when the first n are empty. */
  lemma {:induction false} EmptiedPends(journal: map<nat, Undo>, pairs: seq<Pair>, n: nat, m: nat)
    requires n <= m <= |pairs| && PendingOf(journal, pairs, m).Some?
    ensures PendingOf(journal, pairs, n).Some? && PendingOf(journal, Emptied(pairs, n), m).Some?
    ensures PendingOf(journal, pairs, m).value ==
            PendingOf(journal, pairs, n).value + PendingOf(journal, Emptied(pairs, n), m).value
    decreases m
  {
    if n < m {
      EmptiedPends(journal, pairs, n, m - 1);
      hide Pending;
    } else {
      NonePends(journal, pairs, n, n);
    }
  }

  lemma {:induction false} NonePends(journal: map<nat, Undo>, pairs: seq<Pair>, n: nat, m: nat)
    requires m <= n <= |pairs|
    ensures PendingOf(journal, Emptied(pairs, n), m) == Some([])
    decreases m
  {
    if m > 0 {
      NonePends(journal, pairs, n, m - 1);
      var before, last := PendingOf(journal, Emptied(pairs, n), m - 1), Pending(journal, Emptied(pairs, n)[m - 1]);
      assert before.value + last.value == [];
    }
  }

  /** Recovery may itself be cut short, with the first n journals undone and empty and
      any of the words of the next one undone: started again, it ends with the words
      as they were before the transactions. */
  lemma RecoveryRestarts(words: Words, journal: map<nat, Undo>, pairs: seq<Pair>, n: nat, before: Words,
                         stores: seq<Store>, half: Words)
    requires n < |pairs| && PendingOf(journal, pairs, |pairs|).Some?
    requires PendingOf(journal, pairs, n).Some? && PendingOf(journal, pairs, n + 1).Some?
    requires var items := AllItems(PendingOf(journal, pairs, |pairs|).value);
             Faithful(items, before) && AllRecorded(items, stores)
    requires MayBe(before, stores, words)
    requires forall a: nat ::
               || Get(half, a) == Get(UndoAll(words, AllItems(PendingOf(journal, pairs, n).value)), a)
               || Get(half, a) == Get(UndoAll(words, AllItems(PendingOf(journal, pairs, n + 1).value)), a)
    ensures PendingOf(journal, Emptied(pairs, n), |pairs|).Some?
    ensures SameWords(UndoAll(half, AllItems(PendingOf(journal, Emptied(pairs, n), |pairs|).value)), before)
  {
    var done, now, rest := RecoveryParts(journal, pairs, n);
    hide *;
    Restarted(words, done, now, rest, before, stores, half);
  }

  lemma NextPends(journal: map<nat, Undo>, pairs: seq<Pair>, n: nat) returns (one: seq<Undo>)
    requires n < |pairs| && PendingOf(journal, pairs, n + 1).Some?
    ensures PendingOf(journal, pairs, n).Some? && forall i :: 0 <= i < |one| ==> UndoOk(one[i])
    ensures PendingOf(journal, pairs, n + 1).value == PendingOf(journal, pairs, n).value + one
  {
    one := Pending(journal, pairs[n]).value;
  }

  lemma SplitBehind(a: seq<Undo>, b: seq<Undo>, one: seq<Undo>, c: seq<Undo>)
    requires a + b == a + one + c
    ensures b == one + c
  {
    assert b == (a + b)[|a|..] && one + c == (a + one + c)[|a|..];
  }

  /** What the journals hold: of the first n, of the next one and of the others. */
  lemma RecoveryParts(journal: map<nat, Undo>, pairs: seq<Pair>, n: nat)
    returns (done: seq<Store>, now: seq<Store>, rest: seq<Store>)
    requires n < |pairs| && PendingOf(journal, pairs, |pairs|).Some?
    ensures PendingOf(journal, pairs, n).Some? && done == AllItems(PendingOf(journal, pairs, n).value)
    ensures PendingOf(journal, pairs, n + 1).Some? && done + now == AllItems(PendingOf(journal, pairs, n + 1).value)
    ensures PendingOf(journal, Emptied(pairs, n), |pairs|).Some?
    ensures now + rest == AllItems(PendingOf(journal, Emptied(pairs, n), |pairs|).value)
    ensures done + (now + rest) == AllItems(PendingOf(journal, pairs, |pairs|).value)
  {
    EmptiedPends(journal, pairs, n, |pairs|);
    EmptiedPends(journal, pairs, n + 1, |pairs|);
    var a := PendingOf(journal, pairs, n).value;
    var b := PendingOf(journal, Emptied(pairs, n), |pairs|).value;
    var c := PendingOf(journal, Emptied(pairs, n + 1), |pairs|).value;
    var one := NextPends(journal, pairs, n);
    hide *;
    SplitBehind(a, b, one, c);
    AllItemsConcat(a, b);
    AllItemsConcat(a, one);
    AllItemsConcat(one, c);
    done, now, rest := AllItems(a), AllItems(one), AllItems(c);
  }

  lemma Restarted(words: Words, done: seq<Store>, now: seq<Store>, rest: seq<Store>, before: Words,
                  stores: seq<Store>, half: Words)
    requires Faithful(done + (now + rest), before) && AllRecorded(done + (now + rest), stores)
    requires MayBe(before, stores, words)
    requires forall a: nat ::
               Get(half, a) == Get(UndoAll(words, done), a) || Get(half, a) == Get(UndoAll(words, done + now), a)
    ensures SameWords(UndoAll(half, now + rest), before)
  {
    FaithfulParts(done, now + rest, before);
    FaithfulParts(now, rest, before);
    forall a: nat ensures Get(UndoAll(half, now + rest), a) == Get(before, a) {
      UndoneWord(half, now + rest, before, a);
      UndoneWord(words, done, before, a);
      UndoneWord(words, done + now, before, a);
      RecordsParts(done, now + rest, a);
      RecordsParts(now, rest, a);
      RecordsParts(done, now, a);
      if Get(words, a) != Get(before, a) {
        var i :| 0 <= i < |stores| && stores[i] == Store(a, Get(words, a));
        assert Records(done + (now + rest), stores[i].addr);
      }
    }
  }

  lemma FaithfulParts(a: seq<Store>, b: seq<Store>, before: Words)
    requires Faithful(a + b, before)
    ensures Faithful(a, before) && Faithful(b, before)
  {
    forall i | 0 <= i < |a| ensures a[i].value == Get(before, a[i].addr) {
      assert (a + b)[i] == a[i];
    }
    forall i | 0 <= i < |b| ensures b[i].value == Get(before, b[i].addr) {
      assert (a + b)[|a| + i] == b[i];
    }
  }

  lemma RecordsParts(a: seq<Store>, b: seq<Store>, x: nat)
    ensures Records(a + b, x) <==> Records(a, x) || Records(b, x)
  {
    if Records(a + b, x) {
      var i :| 0 <= i < |a + b| && (a + b)[i].addr == x;
      assert if i < |a| then a[i].addr == x else b[i - |a|].addr == x;
    }
    if Records(a, x) {
      var i :| 0 <= i < |a| && a[i].addr == x;
      assert (a + b)[i].addr == x;
    }
    if Records(b, x) {
      var i :| 0 <= i < |b| && b[i].addr == x;
      assert (a + b)[|a| + i].addr == x;
    }
  }

  // ----- the tag in the address --------------------------------------------------------------------------

  /** What undoing stores as it is written: the address goes to memory with its tag. */
  function Passed(e: Undo, n: nat): seq<Store>
    requires UndoOk(e) && n <= 4
  {
    if n == 0 then []
    else
      var a, kind := e.addrs[n - 1], e.addrs[n - 1] / TYPE_SHIFT;
      Passed(e, n - 1) + if a != 0 && KnownKind(kind) then [Store(a, e.values[n - 1] % Range(kind))] else []
  }

  function AllPassed(es: seq<Undo>): seq<Store>
    requires forall i :: 0 <= i < |es| ==> UndoOk(es[i])
  {
    if es == [] then [] else AllPassed(es[..|es| - 1]) + Passed(es[|es| - 1], 4)
  }

  ghost predicate Outside(items: seq<Store>) {
    forall i :: 0 <= i < |items| ==> items[i].addr >= TYPE_SHIFT
  }

  lemma {:induction false} PassedOutside(e: Undo, n: nat)
    requires UndoOk(e) && n <= 4
    ensures Outside(Passed(e, n))
    decreases n
  {
    if n > 0 {
      PassedOutside(e, n - 1);
    }
  }

  lemma {:induction false} AllPassedOutside(es: seq<Undo>)
    requires forall i :: 0 <= i < |es| ==> UndoOk(es[i])
    ensures Outside(AllPassed(es))
    decreases |es|
  {
    if es != [] {
      AllPassedOutside(es[..|es| - 1]);
      PassedOutside(es[|es| - 1], 4);
    }
  }

  lemma {:induction false} OutsideMisses(words: Words, items: seq<Store>, a: nat)
    requires Outside(items) && a < TYPE_SHIFT
    ensures Get(UndoAll(words, items), a) == Get(words, a)
    decreases |items|
  {
    if items != [] {
      OutsideMisses(words, items[..|items| - 1], a);
    }
  }

  /** The words that an address without a tag can name. */
  ghost predicate SameUntagged(v: Words, w: Words) {
    forall a: nat :: a < TYPE_SHIFT ==> Get(v, a) == Get(w, a)
  }

  /** As it is written, undoing restores the words if and only if none of the stores to
      be undone has persisted. */
  lemma TaggedUndoRestoresIff(words: Words, es: seq<Undo>, before: Words)
    requires forall i :: 0 <= i < |es| ==> UndoOk(es[i])
    ensures SameUntagged(UndoAll(words, AllPassed(es)), before) <==> SameUntagged(words, before)
  {
    AllPassedOutside(es);
    forall a: nat | a < TYPE_SHIFT ensures Get(UndoAll(words, AllPassed(es)), a) == Get(words, a) {
      OutsideMisses(words, AllPassed(es), a);
    }
  }

  /** A word of eight bytes, 7 before and 9 after its store: with the tag it stays 9. */
  lemma TaggedUndoMisses()
    ensures var e := Undo([Tagged(8, 64), 0, 0, 0], [7, 0, 0, 0]);
            && Get(UndoAll(map[64 := 9], AllItems([e])), 64) == 7
            && Get(UndoAll(map[64 := 9], AllPassed([e])), 64) == 9
  {
    var e := Undo([Tagged(8, 64), 0, 0, 0], [7, 0, 0, 0]);
    TagParts(8, 64);
    hide Tagged;
    OneWordItems(e, 64);
    UndoneWord(map[64 := 9], [Store(64, 7)], map[64 := 7], 64);
    assert [Store(64, 7)][0].addr == 64;
    AllPassedOutside([e]);
    OutsideMisses(map[64 := 9], AllPassed([e]), 64);
  }

  lemma OneWordItems(e: Undo, addr: nat)
    requires UndoOk(e) && e.addrs[0] / TYPE_SHIFT == 8 && e.addrs[0] % TYPE_SHIFT == addr && e.values[0] < Range(8)
    requires e.addrs[1] == e.addrs[2] == e.addrs[3] == 0
    ensures AllItems([e]) == [Store(addr, e.values[0])]
  {
    var item := Store(addr, e.values[0]);
    OneItems(e);
    assert Items(e, 1) == [item] by {
      assert Items(e, 0) == [];
    }
    assert Items(e, 2) == [item];
    assert Items(e, 3) == [item];
    assert Items(e, 4) == [item];
  }

  // ----- the transactions of the name operations ---------------------------------------------------------

  /** A word that is journalled: its size in bytes and its address. */
  datatype Word = Word(kind: nat, addr: nat)

  ghost predicate WordOk(w: Word, words: Words) {
    KnownKind(w.kind) && w.addr < TYPE_SHIFT && Get(words, w.addr) < Range(w.kind)
  }

  ghost predicate WordsOk(ws: seq<Word>, words: Words) {
    |ws| <= 4 && forall i :: 0 <= i < |ws| ==> WordOk(ws[i], words)
  }

  /** The undo entry for up to four words. */
  function UndoOf(ws: seq<Word>, words: Words): (e: Undo)
    requires |ws| <= 4
    ensures UndoOk(e)
  {
    Undo(seq(4, i requires 0 <= i => if i < |ws| then Tagged(ws[i].kind, ws[i].addr) else 0),
         seq(4, i requires 0 <= i => if i < |ws| then Get(words, ws[i].addr) else 0))
  }

  function Recorded(ws: seq<Word>, words: Words): seq<Store> {
    seq(|ws|, i requires 0 <= i < |ws| => Store(ws[i].addr, Get(words, ws[i].addr)))
  }

  lemma RecordedMore(ws: seq<Word>, w: Word, words: Words)
    ensures Recorded(ws + [w], words) == Recorded(ws, words) + [Store(w.addr, Get(words, w.addr))]
  {
  }

  lemma ItemOf(ws: seq<Word>, words: Words, n: nat)
    requires WordsOk(ws, words) && 0 < n <= 4
    ensures var e := UndoOf(ws, words);
            Items(e, n) == Items(e, n - 1) + if n <= |ws| then [Store(ws[n - 1].addr,
                Get(words, ws[n - 1].addr))] else []
  {
    if n <= |ws| {
      var w := ws[n - 1];
      assert WordOk(w, words);
      TagParts(w.kind, w.addr);
      assert Get(words, w.addr) % Range(w.kind) == Get(words, w.addr);
      assert Tagged(w.kind, w.addr) != 0;
    }
  }

  lemma {:induction false} ItemsOf(ws: seq<Word>, words: Words, n: nat)
    requires WordsOk(ws, words) && n <= 4
    ensures Items(UndoOf(ws, words), n) == Recorded(if n <= |ws| then ws[..n] else ws, words)
    decreases n
  {
    if n > 0 {
      ItemsOf(ws, words, n - 1);
      ItemOf(ws, words, n);
      var e := UndoOf(ws, words);
      if n <= |ws| {
        RecordedMore(ws[..n - 1], ws[n - 1], words);
        assert ws[..n] == ws[..n - 1] + [ws[n - 1]];
      } else {
        assert n - 1 <= |ws| ==> ws[..n - 1] == ws;
        assert Items(e, n) == Items(e, n - 1) + [];
      }
    }
  }

  lemma OneItems(e: Undo)
    requires UndoOk(e)
    ensures AllItems([e]) == Items(e, 4)
  {
    assert [e][..0] == [];
    assert AllItems([e]) == AllItems([e][..0]) + Items(e, 4);
  }

  lemma TwoItems(e: Undo, e2: Undo)
    requires UndoOk(e) && UndoOk(e2)
    ensures AllItems([e, e2]) == Items(e, 4) + Items(e2, 4)
  {
    hide Items;
    OneItems(e);
    assert [e, e2][..1] == [e];
    assert AllItems([e, e2]) == AllItems([e, e2][..1]) + Items(e2, 4);
  }

  /** An entry says what was recorded, all of it faithfully. */
  lemma EntryIs(ws: seq<Word>, words: Words)
    requires WordsOk(ws, words)
    ensures Items(UndoOf(ws, words), 4) == Recorded(ws, words) && Faithful(Recorded(ws, words), words)
  {
    ItemsOf(ws, words, 4);
    assert ws[..|ws|] == ws;
  }

  lemma FaithfulBoth(a: seq<Store>, b: seq<Store>, words: Words)
    requires Faithful(a, words) && Faithful(b, words)
    ensures Faithful(a + b, words)
  {
  }

  /** One entry, or two. */
  lemma EntryItems(ws: seq<Word>, ws2: seq<Word>, two: bool, words: Words)
    requires WordsOk(ws, words) && WordsOk(ws2, words)
    ensures var es := if two then [UndoOf(ws, words), UndoOf(ws2, words)] else [UndoOf(ws, words)];
            && AllItems(es) == (if two then Recorded(ws, words) + Recorded(ws2, words) else Recorded(ws, words))
            && Faithful(AllItems(es), words)
  {
    EntryIs(ws, words);
    EntryIs(ws2, words);
    OneItems(UndoOf(ws, words));
    TwoItems(UndoOf(ws, words), UndoOf(ws2, words));
    hide Items, AllItems, Recorded, WordsOk, Faithful;
    FaithfulBoth(Recorded(ws, words), Recorded(ws2, words), words);
  }

  /** Before point n a crash leads back to `before`, from there on to `now`. */
  ghost predicate AllOrNothing(trace: seq<Point>, n: nat, before: Words, now: Words) {
    n < |trace| && AllRecoverTo(trace[..n], before) && AllRecoverTo(trace[n..], now)
  }

  /** An undo entry records exactly the words it was made for. */
  lemma WordsRecorded(ws: seq<Word>, words: Words)
    requires WordsOk(ws, words)
    ensures var items := AllItems([UndoOf(ws, words)]);
            && UndoOk(UndoOf(ws, words)) && Faithful(items, words) && |items| == |ws| <= 4
            && forall i :: 0 <= i < |ws| ==> items[i].addr == ws[i].addr && Records(items, ws[i].addr)
  {
    SomeWordsOk(ws, [], words);
    EntryItems(ws, [], false, words);
    var items := AllItems([UndoOf(ws, words)]);
    assert forall i :: 0 <= i < |ws| ==> items[i].addr == ws[i].addr;
  }

  /** The words stored, in this order, are those recorded. */
  lemma ExactlyThese(j: Journal, ws: seq<Word>, es: seq<Undo>)
    requires forall i :: 0 <= i < |es| ==> UndoOk(es[i])
    requires |AllItems(es)| == |ws| == |j.stores|
    requires forall i :: 0 <= i < |ws| ==> AllItems(es)[i].addr == ws[i].addr == j.stores[i].addr
    ensures j.Exact(es)
  {
    hide AllItems;
    forall i | 0 <= i < |ws| ensures Records(j.stores, AllItems(es)[i].addr) {
      assert j.stores[i].addr == AllItems(es)[i].addr;
    }
  }

  /** Creating a name for a new inode: the directory's tail and the inode's valid flag. */
  method TransactionForNewInode(j: Journal, dirTail: nat, valid: nat, newDirTail: nat) returns (ghost n: nat)
    requires j.Ready() && WordsOk([Word(8, dirTail), Word(1, valid)], j.words)
    modifies j
    ensures j.Ready() && j.words == old(j.words)[dirTail := newDirTail][valid := 1]
    ensures AllOrNothing(j.trace, n, old(j.words), j.words)
  {
    ghost var before := j.words;
    var ws := [Word(8, dirTail), Word(1, valid)];
    var entry := UndoOf(ws, j.words);
    ghost var es := [entry];
    EntryItems(ws, [], false, before);
    var tail := j.CreateLiteTransaction(entry, NO_UNDO, 1, es);
    assert AllItems(es)[0].addr == dirTail && AllItems(es)[1].addr == valid;
    j.StoreWord(dirTail, newDirTail, before, es);
    j.StoreWord(valid, 1, before, es);
    assert j.stores[0].addr == dirTail && j.stores[1].addr == valid;
    n := j.CommitLiteTransaction(tail, before, es);
  }

  /** Linking and unlinking: the tails of the inode and of its directory and, if the
      inode goes, its valid flag. */
  method TransactionForTimeAndLink(j: Journal, piTail: nat, dirTail: nat, valid: nat, newPiTail: nat, newDirTail: nat,
                                   invalidate: bool)
    returns (ghost n: nat)
    requires j.Ready() && WordsOk([Word(8, piTail), Word(8, dirTail), Word(1, valid)], j.words)
    modifies j
    ensures j.Ready()
    ensures var both := old(j.words)[piTail := newPiTail][dirTail := newDirTail];
            j.words == if invalidate then both[valid := 0] else both
    ensures AllOrNothing(j.trace, n, old(j.words), j.words)
  {
    hide AllItems, Items, UndoOf, Recorded, WordsOk, AllRecoverTo, UndoOk, Faithful, NextLiteJournal, Journal.InFlight,
         Journal.Exact, Records;
    ghost var before := j.words;
    var all := [Word(8, piTail), Word(8, dirTail), Word(1, valid)];
    var ws := if invalidate then all else all[..2];
    SomeWordsOk(all, ws, before);
    WordsRecorded(ws, before);
    var entry := UndoOf(ws, j.words);
    ghost var es := [entry];
    assert ws[0].addr == piTail && ws[1].addr == dirTail && (invalidate ==> ws[2].addr == valid);
    var tail := j.CreateLiteTransaction(entry, NO_UNDO, 1, es);
    j.StoreWord(piTail, newPiTail, before, es);
    j.StoreWord(dirTail, newDirTail, before, es);
    if invalidate {
      j.StoreWord(valid, 0, before, es);
    }
    ExactlyThese(j, ws, es);
    n := j.CommitLiteTransaction(tail, before, es);
  }

  lemma SomeWordsOk(all: seq<Word>, ws: seq<Word>, words: Words)
    requires WordsOk(all, words) && ws <= all
    ensures WordsOk(ws, words)
  {
    assert forall i :: 0 <= i < |ws| ==> ws[i] == all[i];
  }

  /** The words that a rename may touch, in the order of its undo entries. */
  datatype RenameWords = RenameWords(oldPi: nat, oldDir: nat, newDir: nat, father: nat, newPi: nat, newValid: nat)

  datatype RenameValues = RenameValues(oldPiTail: nat, oldTail: nat, newTail: nat, dirIno: nat, newPiTail: nat)

  /** What a rename does to the words. */
  function Renamed(words: Words, a: RenameWords, v: RenameValues, otherDir: bool, isDir: bool, over: bool,
                   dead: bool): Words
  {
    var w1 := words[a.oldPi := v.oldPiTail][a.oldDir := v.oldTail];
    var w2 := if otherDir then w1[a.newDir := v.newTail] else w1;
    var w3 := if otherDir && isDir then w2[a.father := v.dirIno] else w2;
    var w4 := if over then w3[a.newPi := v.newPiTail] else w3;
    if over && dead then w4[a.newValid := 0] else w4
  }

  ghost predicate AllApart(a: RenameWords) {
    && a.oldPi != a.oldDir && a.oldPi != a.newDir && a.oldPi != a.father && a.oldPi != a.newPi
    && a.oldPi != a.newValid && a.oldDir != a.newDir && a.oldDir != a.father && a.oldDir != a.newPi
    && a.oldDir != a.newValid && a.newDir != a.father && a.newDir != a.newPi && a.newDir != a.newValid
    && a.father != a.newPi && a.father != a.newValid && a.newPi != a.newValid
  }

  /** The inode that is renamed and its old directory have their new tails; so has the
      new directory if it is another one, and a directory that moves has its new parent;
      an inode that is replaced has its new tail, and is invalid if no link is left.
      Every other word is as it was. */
  ghost predicate RenameDone(before: Words, after: Words, a: RenameWords, v: RenameValues, otherDir: bool, isDir: bool,
                             over: bool, dead: bool) {
    && Get(after, a.oldPi) == v.oldPiTail && Get(after, a.oldDir) == v.oldTail
    && Get(after, a.newDir) == (if otherDir then v.newTail else Get(before, a.newDir))
    && Get(after, a.father) == (if otherDir && isDir then v.dirIno else Get(before, a.father))
    && Get(after, a.newPi) == (if over then v.newPiTail else Get(before, a.newPi))
    && Get(after, a.newValid) == (if over && dead then 0 else Get(before, a.newValid))
    && forall x: nat :: x !in {a.oldPi, a.oldDir, a.newDir, a.father, a.newPi, a.newValid} ==>
         Get(after, x) == Get(before, x)
  }

  lemma RenamedIsDone(words: Words, a: RenameWords, v: RenameValues, otherDir: bool, isDir: bool, over: bool,
                      dead: bool)
    requires AllApart(a)
    ensures RenameDone(words, Renamed(words, a, v, otherDir, isDir, over, dead), a, v, otherDir, isDir, over, dead)
  {
  }

  /** The first stores of a rename: inode, directories, parent entry. */
  method StoreDirs(j: Journal, a: RenameWords, v: RenameValues, otherDir: bool, isDir: bool,
                   ghost before: Words, ghost es: seq<Undo>)
    requires j.InFlight(before, es) && j.stores == []
    requires Records(AllItems(es), a.oldPi) && Records(AllItems(es), a.oldDir)
    requires otherDir ==> Records(AllItems(es), a.newDir) && (isDir ==> Records(AllItems(es), a.father))
    modifies j`words, j`stores, j`trace
    ensures j.InFlight(before, es) && j.words == Renamed(old(j.words), a, v, otherDir, isDir, false, false)
    ensures Records(j.stores, a.oldPi) && Records(j.stores, a.oldDir)
    ensures otherDir ==> Records(j.stores, a.newDir) && (isDir ==> Records(j.stores, a.father))
  {
    j.StoreWord(a.oldPi, v.oldPiTail, before, es);
    j.StoreWord(a.oldDir, v.oldTail, before, es);
    assert j.stores[0].addr == a.oldPi && j.stores[1].addr == a.oldDir;
    if otherDir {
      j.StoreWord(a.newDir, v.newTail, before, es);
      assert j.stores[0].addr == a.oldPi && j.stores[1].addr == a.oldDir && j.stores[2].addr == a.newDir;
      if isDir {
        j.StoreWord(a.father, v.dirIno, before, es);
        assert j.stores[0].addr == a.oldPi && j.stores[1].addr == a.oldDir && j.stores[2].addr == a.newDir;
        assert j.stores[3].addr == a.father;
      }
    }
  }

  /** The last stores of a rename: the inode that is replaced. */
  method StoreReplaced(j: Journal, a: RenameWords, v: RenameValues, dead: bool, ghost before: Words,
                       ghost es: seq<Undo>)
    requires j.InFlight(before, es) && Records(AllItems(es), a.newPi) && (dead ==> Records(AllItems(es), a.newValid))
    modifies j`words, j`stores, j`trace
    ensures j.InFlight(before, es)
    ensures var words := old(j.words)[a.newPi := v.newPiTail];
            j.words == if dead then words[a.newValid := 0] else words
    ensures old(j.stores) <= j.stores && Records(j.stores, a.newPi) && (dead ==> Records(j.stores, a.newValid))
  {
    ghost var k := |j.stores|;
    j.StoreWord(a.newPi, v.newPiTail, before, es);
    assert j.stores[k].addr == a.newPi;
    if dead {
      j.StoreWord(a.newValid, 0, before, es);
      assert j.stores[k].addr == a.newPi && j.stores[k + 1].addr == a.newValid;
    }
  }

  lemma StillRecorded(a: seq<Store>, b: seq<Store>, x: nat)
    requires a <= b && Records(a, x)
    ensures Records(b, x)
  {
    var i :| 0 <= i < |a| && a[i].addr == x;
    assert b[i].addr == x;
  }

  ghost predicate Among(ws: seq<Word>, a: nat) {
    exists x :: 0 <= x < |ws| && ws[x].addr == a
  }

  /** What the undo entries of a rename record. */
  lemma RenameItems(ws: seq<Word>, ws2: seq<Word>, two: bool, words: Words)
    requires WordsOk(ws, words) && WordsOk(ws2, words)
    ensures var es := if two then [UndoOf(ws, words), UndoOf(ws2, words)] else [UndoOf(ws, words)];
            && Faithful(AllItems(es), words)
            && (forall i :: 0 <= i < |ws| ==> Records(AllItems(es), ws[i].addr))
            && (two ==> forall i :: 0 <= i < |ws2| ==> Records(AllItems(es), ws2[i].addr))
            && (forall i :: 0 <= i < |AllItems(es)| ==>
                  Among(ws, AllItems(es)[i].addr) || (two && Among(ws2, AllItems(es)[i].addr)))
  {
    EntryItems(ws, ws2, two, words);
    var es := if two then [UndoOf(ws, words), UndoOf(ws2, words)] else [UndoOf(ws, words)];
    forall i | 0 <= i < |ws| ensures Records(AllItems(es), ws[i].addr) {
      assert AllItems(es)[i].addr == ws[i].addr;
    }
    if two {
      forall i | 0 <= i < |ws2| ensures Records(AllItems(es), ws2[i].addr) {
        assert AllItems(es)[|ws| + i].addr == ws2[i].addr;
      }
    }
    forall i | 0 <= i < |AllItems(es)|
      ensures Among(ws, AllItems(es)[i].addr) || (two && Among(ws2, AllItems(es)[i].addr))
    {
      if i < |ws| {
        assert ws[i].addr == AllItems(es)[i].addr;
      } else {
        assert ws2[i - |ws|].addr == AllItems(es)[i].addr;
      }
    }
  }

  /** Renaming: up to six words, in two undo entries if an inode is replaced. */
  method TransactionForRename(j: Journal, a: RenameWords, v: RenameValues, otherDir: bool, isDir: bool, over: bool,
                              dead: bool)
    returns (ghost n: nat)
    requires j.Ready() && WordsOk([Word(8, a.oldPi), Word(8, a.oldDir), Word(8, a.newDir), Word(8, a.father)], j.words)
    requires WordsOk([Word(8, a.newPi), Word(1, a.newValid)], j.words)
    modifies j
    ensures j.Ready() && j.words == Renamed(old(j.words), a, v, otherDir, isDir, over, dead)
    ensures AllApart(a) ==> RenameDone(old(j.words), j.words, a, v, otherDir, isDir, over, dead)
    ensures AllOrNothing(j.trace, n, old(j.words), j.words)
  {
    hide AllItems, Records, Faithful, MayBe, AllRecoverTo, UndoOf, WordsOk, RenameDone, AllApart;
    if AllApart(a) {
      RenamedIsDone(j.words, a, v, otherDir, isDir, over, dead);
    }
    ghost var before := j.words;
    var first := [Word(8, a.oldPi), Word(8, a.oldDir), Word(8, a.newDir), Word(8, a.father)];
    var second := [Word(8, a.newPi), Word(1, a.newValid)];
    var size := if !otherDir then 2 else if !isDir then 3 else 4;
    var size2 := if dead then 2 else 1;
    var ws, ws2 := first[..size], second[..size2];
    SomeWordsOk(first, ws, before);
    SomeWordsOk(second, ws2, before);
    WordsFew(ws, ws2, before);
    var entry, entry1 := UndoOf(ws, j.words), UndoOf(ws2, j.words);
    ghost var es := if over then [entry, entry1] else [entry];
    RenameItems(ws, ws2, over, before);
    var entries := if over then 2 else 1;
    var tail := j.CreateLiteTransaction(entry, entry1, entries, es);
    assert ws[0].addr == a.oldPi && ws[1].addr == a.oldDir;
    assert otherDir ==> ws[2].addr == a.newDir && (isDir ==> ws[3].addr == a.father);
    StoreDirs(j, a, v, otherDir, isDir, before, es);
    ghost var stores0 := j.stores;
    if over {
      assert ws2[0].addr == a.newPi && (dead ==> ws2[1].addr == a.newValid);
      StoreReplaced(j, a, v, dead, before, es);
    }
    ExactRename(j, ws, ws2, over, es, stores0);
    n := j.CommitLiteTransaction(tail, before, es);
  }

  lemma WordsFew(ws: seq<Word>, ws2: seq<Word>, words: Words)
    requires WordsOk(ws, words) && WordsOk(ws2, words)
    ensures |ws| <= 4 && |ws2| <= 4
  {
  }

  /** Every word recorded has been stored. */
  lemma ExactRename(j: Journal, ws: seq<Word>, ws2: seq<Word>, two: bool, es: seq<Undo>, stores0: seq<Store>)
    requires forall i :: 0 <= i < |es| ==> UndoOk(es[i])
    requires stores0 <= j.stores && forall i :: 0 <= i < |ws| ==> Records(stores0, ws[i].addr)
    requires two ==> forall i :: 0 <= i < |ws2| ==> Records(j.stores, ws2[i].addr)
    requires forall i :: 0 <= i < |AllItems(es)| ==>
               Among(ws, AllItems(es)[i].addr) || (two && Among(ws2, AllItems(es)[i].addr))
    ensures j.Exact(es)
  {
    forall i | 0 <= i < |AllItems(es)| ensures Records(j.stores, AllItems(es)[i].addr) {
      if Among(ws, AllItems(es)[i].addr) {
        var x :| 0 <= x < |ws| && ws[x].addr == AllItems(es)[i].addr;
        StillRecorded(stores0, j.stores, ws[x].addr);
      }
    }
  }
}
