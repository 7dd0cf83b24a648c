/** The free blocks of the device, as the operations on files see them: one list
per processor, and one for the blocks that belong to none. */
module BlockLists {
  type Positive = n: nat | 0 < n witness 1

  /** n blocks from `block` on. */
  function Run(block: nat, n: nat): set<nat> {
    if n == 0 then {} else Run(block, n - 1) + {block + n - 1}
  }

  lemma {:induction false} RunHas(block: nat, n: nat, b: nat)
    ensures b in Run(block, n) <==> block <= b < block + n
    decreases n
  {
    if n > 0 {
      RunHas(block, n - 1, b);
    }
  }

  lemma {:induction false} RunSize(block: nat, n: nat)
    ensures |Run(block, n)| == n
    decreases n
  {
    if n > 0 {
      RunSize(block, n - 1);
      RunHas(block, n - 1, block + n - 1);
    }
  }

  lemma RunGrows(block: nat, n: nat)
    ensures Run(block, n + 1) == Run(block, n) + {block + n}
    ensures Run(block, 1) == {block} && Run(block, 0) == {}
  {
  }

  lemma {:induction false} RunPart(block: nat, n: nat, all: nat)
    requires n <= all
    ensures Run(block, n) <= Run(block, all)
    decreases all
  {
    if n < all {
      RunPart(block, n, all - 1);
    }
  }

  /** The list that receives a freed run: that of its first block.  List `cpus` is
      the shared one. */
  function PartOf(block: nat, cpus: Positive, perList: Positive): (i: nat)
    ensures i <= cpus
  {
    if block / perList < cpus then block / perList else cpus
  }

  /** The lists after the blocks of `freed` went to list i. */
  function Rehomed(home: map<nat, nat>, freed: set<nat>, i: nat): map<nat, nat> {
    home + map b | b in freed :: i
  }

  /** Every free block is in a list. */
  ghost predicate Homed(pool: set<nat>, home: map<nat, nat>, cpus: nat) {
    forall b :: b in pool ==> b in home && home[b] <= cpus
  }

  /** One run of blocks: all of them go where its first block goes. */
  function OneRun(block: nat, freed: set<nat>): map<nat, nat> {
    map b | b in freed :: block
  }

  /** Blocks that go back one by one. */
  function Singles(freed: set<nat>): map<nat, nat> {
    map b | b in freed :: b
  }

  /** Blocks given back, `more` after `back`. */
  function Then(back: map<nat, nat>, more: map<nat, nat>): map<nat, nat> {
    back + more
  }

  lemma ThenThen(a: map<nat, nat>, b: map<nat, nat>, c: map<nat, nat>)
    ensures Then(Then(a, b), c) == Then(a, Then(b, c)) && Then(a, map[]) == a
  {
  }

  /** The lists after blocks have been given back; `back` gives for each of them the
      first block of its run. */
  function Settled(home: map<nat, nat>, back: map<nat, nat>, cpus: Positive, perList: Positive): map<nat, nat> {
    home + map b | b in back :: PartOf(back[b], cpus, perList)
  }

  lemma SettledMore(home: map<nat, nat>, back: map<nat, nat>, block: nat, freed: set<nat>, cpus: Positive,
                    perList: Positive)
    ensures Rehomed(Settled(home, back, cpus, perList), freed, PartOf(block, cpus, perList)) ==
            Settled(home, Then(back, OneRun(block, freed)), cpus, perList)
  {
    var a := Rehomed(Settled(home, back, cpus, perList), freed, PartOf(block, cpus, perList));
    var b := Settled(home, Then(back, OneRun(block, freed)), cpus, perList);
    hide PartOf;
    forall x ensures x in a <==> x in b {
    }
    forall x | x in a ensures a[x] == b[x] {
    }
  }

  lemma HomedMore(pool: set<nat>, home: map<nat, nat>, freed: set<nat>, i: nat, cpus: nat)
    requires Homed(pool, home, cpus) && i <= cpus
    ensures Homed(pool + freed, Rehomed(home, freed, i), cpus)
  {
  }

  // ----- runs in a sequence of blocks --------------------------------------------------------------------

  /** The first block of the run that block n of the sequence belongs to: blocks are one
      run as long as each is next to the one before it. */
  function RunStart(blocks: seq<nat>, n: nat): nat
    requires n < |blocks|
  {
    if n > 0 && blocks[n] == blocks[n - 1] + 1 then RunStart(blocks, n - 1) else blocks[n]
  }

  /** The first n blocks, each with the first block of its run. */
  function RunStarts(blocks: seq<nat>, n: nat): map<nat, nat>
    requires n <= |blocks|
  {
    if n == 0 then map[] else RunStarts(blocks, n - 1)[blocks[n - 1] := RunStart(blocks, n - 1)]
  }

  /** The last `num` of the first n blocks are the run from `start` on. */
  ghost predicate IsRun(blocks: seq<nat>, n: nat, start: nat, num: nat) {
    && num <= n <= |blocks|
    && forall i :: n - num <= i < n ==> blocks[i] == start + (i - (n - num)) && RunStart(blocks, i) == start
  }

  lemma OneMoreInRun(before: map<nat, nat>, start: nat, run: set<nat>, last: nat)
    ensures Then(before, OneRun(start, run))[last := start] == Then(before, OneRun(start, run + {last}))
  {
  }

  lemma {:induction false} RunStartsRun(blocks: seq<nat>, n: nat, start: nat, num: nat)
    requires IsRun(blocks, n, start, num)
    ensures RunStarts(blocks, n) == Then(RunStarts(blocks, n - num), OneRun(start, Run(start, num)))
    decreases num
  {
    if num > 0 {
      RunStartsRun(blocks, n - 1, start, num - 1);
      assert blocks[n - 1] == start + num - 1 && RunStart(blocks, n - 1) == start;
      OneMoreInRun(RunStarts(blocks, n - num), start, Run(start, num - 1), start + num - 1);
    } else {
      ThenThen(RunStarts(blocks, n), map[], map[]);
    }
  }

  /** The next block joins the run or starts another one. */
  lemma NextOfRun(blocks: seq<nat>, n: nat, start: nat, num: nat)
    requires IsRun(blocks, n, start, num) && n < |blocks| && (n > 0 ==> num > 0)
    ensures num > 0 && blocks[n] == start + num ==> IsRun(blocks, n + 1, start, num + 1)
    ensures num == 0 || blocks[n] != start + num ==> IsRun(blocks, n + 1, blocks[n], 1)
  {
    if n > 0 {
      assert blocks[n - 1] == start + num - 1;
    }
  }

  /** Only the blocks up to n matter. */
  lemma {:induction false} RunStartsPrefix(a: seq<nat>, b: seq<nat>, n: nat)
    requires n <= |a| && n <= |b| && a[..n] == b[..n]
    ensures RunStarts(a, n) == RunStarts(b, n)
    ensures forall i :: 0 <= i < n ==> RunStart(a, i) == RunStart(b, i)
    decreases n
  {
    if n > 0 {
      assert a[..n][..n - 1] == a[..n - 1] && b[..n][..n - 1] == b[..n - 1];
      assert a[..n][n - 1] == a[n - 1] && b[..n][n - 1] == b[n - 1];
      RunStartsPrefix(a, b, n - 1);
      if n > 1 {
        assert a[..n][n - 2] == a[n - 2] && b[..n][n - 2] == b[n - 2];
      }
    }
  }

  /** The blocks `blocks` go back in this order, run by run: those before the last run
      have gone, and the last run, n blocks from `block` on, waits. */
  ghost predicate LastRunWaits(blocks: seq<nat>, block: nat, n: nat, back0: map<nat, nat>, back: map<nat, nat>) {
    && n <= |blocks| && (blocks != [] ==> n > 0) && IsRun(blocks, |blocks|, block, n)
    && back == Then(back0, RunStarts(blocks, |blocks| - n))
  }

  lemma NothingWaits(back: map<nat, nat>)
    ensures LastRunWaits([], 0, 0, back, back)
  {
  }

  /** One more block: it joins the run that waits, or that run goes and the block waits. */
  lemma OneMoreWaits(blocks: seq<nat>, b: nat, block: nat, n: nat, back0: map<nat, nat>, back: map<nat, nat>)
    requires LastRunWaits(blocks, block, n, back0, back)
    ensures n == 0 ==> LastRunWaits(blocks + [b], b, 1, back0, back)
    ensures n > 0 && b == block + n ==> LastRunWaits(blocks + [b], block, n + 1, back0, back)
    ensures n > 0 && b != block + n ==> LastRunWaits(blocks + [b], b, 1, back0,
            Then(back, OneRun(block, Run(block, n))))
  {
    var all, k := blocks + [b], |blocks|;
    assert all[..k] == blocks[..k] && all[..k - n] == blocks[..k - n];
    RunStartsPrefix(all, blocks, k);
    RunStartsPrefix(all, blocks, k - n);
    assert IsRun(all, k, block, n);
    NextOfRun(all, k, block, n);
    RunStartsRun(all, k, block, n);
    ThenThen(back0, RunStarts(all, k - n), OneRun(block, Run(block, n)));
  }

  /** The last run goes too. */
  lemma LastRunGoes(blocks: seq<nat>, block: nat, n: nat, back0: map<nat, nat>, back: map<nat, nat>)
    requires LastRunWaits(blocks, block, n, back0, back)
    ensures Then(back, OneRun(block, Run(block, n))) == Then(back0, RunStarts(blocks, |blocks|))
    ensures n == 0 ==> back == Then(back0, RunStarts(blocks, |blocks|))
  {
    RunStartsRun(blocks, |blocks|, block, n);
    ThenThen(back0, RunStarts(blocks, |blocks| - n), OneRun(block, Run(block, n)));
  }

  /** The blocks owned have grown from `owned0` to `owned`, one by one. */
  ghost predicate Grew(back0: map<nat, nat>, owned0: set<nat>, back: map<nat, nat>, owned: set<nat>) {
    owned0 <= owned && back == Then(back0, Singles(owned - owned0))
  }

  lemma GrewNone(back: map<nat, nat>, owned: set<nat>)
    ensures Grew(back, owned, back, owned)
  {
    assert owned - owned == {};
  }

  lemma GrewOne(back: map<nat, nat>, owned: set<nat>, b: nat)
    requires b !in owned
    ensures Grew(back, owned, Then(back, OneRun(b, {b})), owned + {b})
  {
    assert owned + {b} - owned == {b};
  }

  lemma GrewMore(back0: map<nat, nat>, owned0: set<nat>, back1: map<nat, nat>, owned1: set<nat>, back: map<nat, nat>,
                 owned: set<nat>)
    requires Grew(back0, owned0, back1, owned1) && Grew(back1, owned1, back, owned)
    ensures Grew(back0, owned0, back, owned)
  {
    assert owned - owned0 == (owned1 - owned0) + (owned - owned1);
  }

  /** The pages left of `pages0` are `pages`; those that went were given back one by one. */
  ghost predicate Gave(back0: map<nat, nat>, pages0: set<nat>, back: map<nat, nat>, pages: set<nat>) {
    pages <= pages0 && back == Then(back0, Singles(pages0 - pages))
  }

  lemma GaveNone(back: map<nat, nat>, pages: set<nat>)
    ensures Gave(back, pages, back, pages)
  {
    assert pages - pages == {};
  }

  lemma GaveOne(back: map<nat, nat>, pages: set<nat>, page: nat)
    requires page in pages
    ensures Gave(back, pages, Then(back, OneRun(page, {page})), pages - {page})
  {
    assert pages - (pages - {page}) == {page};
  }

  lemma GaveMore(back0: map<nat, nat>, pages0: set<nat>, back1: map<nat, nat>, pages1: set<nat>, back: map<nat, nat>,
                 pages: set<nat>)
    requires Gave(back0, pages0, back1, pages1) && Gave(back1, pages1, back, pages)
    ensures Gave(back0, pages0, back, pages)
  {
    assert pages0 - pages == (pages0 - pages1) + (pages1 - pages);
  }

  /** New pages that were not given back do not count. */
  lemma GaveBeside(back0: map<nat, nat>, pages0: set<nat>, back: map<nat, nat>, pages: set<nat>, more: set<nat>)
    requires Gave(back0, pages0, back, pages) && more !! pages0
    ensures Gave(back0, pages0 + more, back, pages + more)
  {
    assert pages0 + more - (pages + more) == pages0 - pages;
  }

  /** What copying a log gives back: some of the pages taken for it, and the old pages. */
  ghost predicate CopyGave(back0: map<nat, nat>, pool0: set<nat>, back: map<nat, nat>, chain: seq<nat>) {
    exists spare: seq<nat> :: GaveRuns(back0, pool0, back, spare, chain)
  }

  ghost predicate GaveRuns(back0: map<nat, nat>, pool0: set<nat>, back: map<nat, nat>, spare: seq<nat>,
                           chain: seq<nat>) {
    && (forall p :: p in spare ==> p in pool0)
    && back == Then(Then(back0, RunStarts(spare, |spare|)), RunStarts(chain, |chain|))
  }

  lemma GaveCopy(back0: map<nat, nat>, pool0: set<nat>, back: map<nat, nat>, spare: seq<nat>, chain: seq<nat>)
    requires forall p :: p in spare ==> p in pool0
    requires back == Then(Then(back0, RunStarts(spare, |spare|)), RunStarts(chain, |chain|))
    ensures CopyGave(back0, pool0, back, chain)
  {
    assert GaveRuns(back0, pool0, back, spare, chain);
  }

  /** What a collection gives back: dead pages one by one; if it copied the log, also
      the spare new pages and the old pages, run by run. */
  ghost predicate CollectionGave(back0: map<nat, nat>, pages0: set<nat>, pool0: set<nat>, back: map<nat, nat>,
                                 copied: bool) {
    exists dead: set<nat>, chain: seq<nat> :: DeadAndChain(back0, pages0, pool0, back, copied, dead, chain)
  }

  ghost predicate DeadAndChain(back0: map<nat, nat>, pages0: set<nat>, pool0: set<nat>, back: map<nat, nat>,
                               copied: bool, dead: set<nat>, chain: seq<nat>) {
    && dead <= pages0 && (forall p :: p in chain ==> p in pages0 && p !in dead)
    && if copied then CopyGave(Then(back0, Singles(dead)), pool0 + dead, back, chain)
       else chain == [] && back == Then(back0, Singles(dead))
  }

  /** The free blocks in list i. */
  function ListOf(pool: set<nat>, home: map<nat, nat>, i: nat): set<nat> {
    set b | b in pool && b in home && home[b] == i
  }

  /** No processor's list has `num` free blocks.  The shared list does not count. */
  ghost predicate NoneHas(pool: set<nat>, home: map<nat, nat>, cpus: nat, num: nat) {
    forall i :: 0 <= i < cpus ==> |ListOf(pool, home, i)| < num
  }

  lemma TakeFromList(pool: set<nat>, home: map<nat, nat>, i: nat, taken: set<nat>)
    requires taken <= ListOf(pool, home, i)
    ensures ListOf(pool - taken, home, i) == ListOf(pool, home, i) - taken
    ensures |ListOf(pool - taken, home, i)| == |ListOf(pool, home, i)| - |taken|
  {
    var list := ListOf(pool, home, i);
    assert list == (list - taken) + taken;
  }
}
