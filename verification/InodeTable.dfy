/** Inode pages and their migration: a mapping table leads from an inode number to the
page that holds the inode, and pages move while the logical table stays the same. */
module InodeTables {
  /** A page holds 32 inodes of 128 bytes; a mapping table holds 512 pages. */
  const PER_PAGE: nat := 32
  const TABLE_NUM: nat := 512

  datatype Inode = Inode(valid: nat, logHead: nat, logTail: nat)

  const ZERO: Inode := Inode(0, 0, 0)

  /** Where a page is entered: the processor and the index in its table. */
  datatype Place = Place(cpu: nat, index: nat)

  function PlaceOf(ino: nat, cpus: nat): Place
    requires 0 < cpus
  {
    Place(ino % cpus, ino / cpus / PER_PAGE)
  }

  function SlotOf(ino: nat, cpus: nat): (slot: nat)
    requires 0 < cpus
    ensures slot < PER_PAGE
  {
    ino / cpus % PER_PAGE
  }

  /** Place and slot tell the number of the inode. */
  lemma NumberOf(ino: nat, cpus: nat)
    requires 0 < cpus
    ensures var p := PlaceOf(ino, cpus);
            p.cpu < cpus && ino == (p.index * PER_PAGE + SlotOf(ino, cpus)) * cpus + p.cpu
  {
    var n := ino / cpus;
    assert ino == cpus * n + ino % cpus;
    assert n == PER_PAGE * (n / PER_PAGE) + n % PER_PAGE;
    assert (n / PER_PAGE * PER_PAGE + n % PER_PAGE) * cpus == n * cpus;
  }

  /** Two inode numbers never share a slot. */
  lemma SlotsDiffer(a: nat, b: nat, cpus: nat)
    requires 0 < cpus && PlaceOf(a, cpus) == PlaceOf(b, cpus) && SlotOf(a, cpus) == SlotOf(b, cpus)
    ensures a == b
  {
    var x, y := a / cpus, b / cpus;
    assert x == PER_PAGE * (x / PER_PAGE) + x % PER_PAGE && y == PER_PAGE * (y / PER_PAGE) + y % PER_PAGE;
    assert a == cpus * x + a % cpus && b == cpus * y + b % cpus;
  }

  class InodeTable {
    const cpus: nat
    /** The page at each place, or 0. */
    var table: map<Place, nat>
    /** The inodes on each page. */
    var pages: map<nat, seq<Inode>>
    /** The free blocks in the lists of the processors. */
    var free: set<nat>
    /** The one place where a page is entered. */
    ghost var place: map<nat, Place>

    function PageAt(p: Place): nat
      reads this`table
    {
      if p in table then table[p] else 0
    }

    ghost predicate PlaceOk(p: Place)
      reads this`table, this`pages, this`free, this`place
    {
      var page := PageAt(p);
      page != 0 ==> page in pages && |pages[page]| == PER_PAGE && page !in free && page in place && place[page] == p
    }

    /** The pages entered are distinct and not free, and fill the start of each table. */
    ghost predicate Valid()
      reads this
    {
      && 0 < cpus && 0 !in free
      && (forall p: Place :: PlaceOk(p))
      && (forall c: nat :: c < cpus ==> PageAt(Place(c, 0)) != 0)
      && (forall c: nat, i: nat :: i > 0 && PageAt(Place(c, i)) != 0 ==> PageAt(Place(c, i - 1)) != 0)
    }

    /** The inode behind a number, wherever its page lies. */
    ghost function At(ino: nat): Inode
      requires 0 < cpus
      reads this
    {
      var page := PageAt(PlaceOf(ino, cpus));
      if page != 0 && page in pages && |pages[page]| == PER_PAGE then pages[page][SlotOf(ino, cpus)] else ZERO
    }

    /** One page per processor. */
    constructor (cpus: nat, free: set<nat>)
      requires 0 < cpus < |free| && 0 !in free
      ensures Valid() && this.cpus == cpus && forall ino: nat :: At(ino) == ZERO
    {
      this.cpus := cpus;
      var t: map<Place, nat>, ps: map<nat, seq<Inode>>, f := map[], map[], free;
      ghost var at: map<nat, Place> := map[];
      for c := 0 to cpus
        invariant |f| == |free| - c && 0 !in f
        invariant forall p: Place :: p in t <==> p.index == 0 && p.cpu < c
        invariant forall p: Place :: p in t ==>
                    && t[p] != 0 && t[p] !in f && t[p] in ps && ps[t[p]] == Blank()
                    && t[p] in at && at[t[p]] == p
      {
        var page :| page in f;
        f := f - {page};
        t, ps := t[Place(c, 0) := page], ps[page := Blank()];
        at := at[page := Place(c, 0)];
      }
      this.table, this.pages, this.free, this.place := t, ps, f, at;
    }

    static function Blank(): (inodes: seq<Inode>)
      ensures |inodes| == PER_PAGE && forall i :: 0 <= i < PER_PAGE ==> inodes[i] == ZERO
    {
      seq(PER_PAGE, i => ZERO)
    }

    /** Behind an empty place there is nothing. */
    lemma {:induction false} NoGap(c: nat, i: nat, j: nat)
      requires Valid() && i <= j && PageAt(Place(c, i)) == 0
      ensures PageAt(Place(c, j)) == 0
      decreases j
    {
      if i < j {
        NoGap(c, i, j - 1);
      }
    }

    /** Enters a fresh page of zeros at a place that has none. */
    method AddPage(p: Place) returns (ok: bool)
      requires Valid() && PageAt(p) == 0 && p.cpu < cpus && (p.index > 0 ==> PageAt(Place(p.cpu, p.index - 1)) != 0)
      modifies this
      ensures Valid() && (ok <==> old(free) != {}) && (if ok then PageAt(p) != 0 else free == {} && PageAt(p) == 0)
      ensures forall q: Place :: q != p ==> PageAt(q) == old(PageAt(q))
      ensures forall ino: nat :: At(ino) == old(At(ino))
    {
      ok := free != {};
      if ok {
        var page :| page in free;
        ghost var before := place;
        free := free - {page};
        table, pages := table[p := page], pages[page := Blank()];
        place := place[page := p];
        forall q: Place ensures PlaceOk(q) {
          assert old(PlaceOk(q));
        }
        forall ino: nat ensures At(ino) == old(At(ino)) {
          assert old(PlaceOk(PlaceOf(ino, cpus)));
        }
      }
    }

    /** The page and the slot of an inode; missing pages are added on the way if the table
        may grow.  No inode changes. */
    method GetInodeAddress(ino: nat, extendable: bool) returns (ok: bool, page: nat, slot: nat)
      requires Valid() && ino / cpus / PER_PAGE < TABLE_NUM
      modifies this
      ensures Valid() && forall x: nat :: At(x) == old(At(x))
      ensures ok ==> page == PageAt(PlaceOf(ino, cpus)) != 0 && slot == SlotOf(ino, cpus)
      ensures !ok && extendable ==> free == {}
      ensures !ok ==> PageAt(PlaceOf(ino, cpus)) == 0 == old(PageAt(PlaceOf(ino, cpus)))
      ensures !extendable ==> (ok <==> old(PageAt(PlaceOf(ino, cpus))) != 0)
    {
      var cpu, count := ino % cpus, ino / cpus / PER_PAGE;
      ok, slot := true, SlotOf(ino, cpus);
      var i := 0;
      page := PageAt(Place(cpu, 0));
      while i < count
        invariant i <= count && Valid() && forall x: nat :: At(x) == old(At(x))
        invariant page == PageAt(Place(cpu, i)) != 0
        invariant !extendable ==> table == old(table)
        invariant forall q: Place :: q.cpu != cpu || q.index > i ==> PageAt(q) == old(PageAt(q))
      {
        page := PageAt(Place(cpu, i + 1));
        if page == 0 {
          if !extendable {
            ok := false;
            NoGap(cpu, i + 1, count);
            return;
          }
          ok := AddPage(Place(cpu, i + 1));
          if !ok {
            NoGap(cpu, i + 1, count);
            return;
          }
        }
        page := PageAt(Place(cpu, i + 1));
        i := i + 1;
      }
    }

    /** Updates an inode where it lies now. */
    method UpdateInode(ino: nat, v: Inode) returns (ok: bool)
      requires Valid() && ino / cpus / PER_PAGE < TABLE_NUM
      modifies this
      ensures Valid()
      ensures ok ==> forall x: nat :: At(x) == if x == ino then v else old(At(x))
      ensures !ok ==> free == {} && old(PageAt(PlaceOf(ino, cpus))) == 0 && forall x: nat :: At(x) == old(At(x))
    {
      var page, slot;
      ok, page, slot := GetInodeAddress(ino, true);
      if ok {
        label Found:
        assert PlaceOk(PlaceOf(ino, cpus));
        pages := pages[page := pages[page][slot := v]];
        forall q: Place ensures PlaceOk(q) {
          assert old@Found(PlaceOk(q));
        }
        forall x: nat ensures At(x) == if x == ino then v else old@Found(At(x)) {
          assert old@Found(PlaceOk(PlaceOf(x, cpus)));
          if x != ino && PlaceOf(x, cpus) == PlaceOf(ino, cpus) && SlotOf(x, cpus) == SlotOf(ino, cpus) {
            SlotsDiffer(x, ino, cpus);
          }
        }
      }
    }

    /** Moves the page of an inode to a fresh page; no inode changes.  The old page is
        not given back. */
    method MigrateInodePage(ino: nat) returns (ok: bool)
      requires Valid() && ino / cpus / PER_PAGE < TABLE_NUM
      modifies this
      ensures Valid() && (ok <==> old(PageAt(PlaceOf(ino, cpus))) != 0 && old(free) != {})
      ensures forall x: nat :: At(x) == old(At(x))
      ensures ok ==> PageAt(PlaceOf(ino, cpus)) != old(PageAt(PlaceOf(ino, cpus)))
      ensures ok ==> PageAt(PlaceOf(ino, cpus)) in old(free) && free == old(free) - {PageAt(PlaceOf(ino, cpus))}
      ensures !ok ==> table == old(table) && free == old(free)
      ensures forall q: Place :: q != PlaceOf(ino, cpus) ==> PageAt(q) == old(PageAt(q))
    {
      var p := PlaceOf(ino, cpus);
      var curr := PageAt(p);
      ok := curr != 0 && free != {};
      if ok {
        assert PlaceOk(p);
        var page :| page in free;
        free := free - {page};
        pages := pages[page := pages[curr]];
        table := table[p := page];
        place := place[page := p];
        forall q: Place ensures PlaceOk(q) {
          assert old(PlaceOk(q));
        }
        forall x: nat ensures At(x) == old(At(x)) {
          assert old(PlaceOk(PlaceOf(x, cpus)));
        }
      }
    }
  }

  // ----- runs --------------------------------------------------------------------------------------------

  datatype Op = Update(ino: nat, v: Inode) | Migrate(ino: nat)

  /** The logical table after a run: migrations do not matter. */
  function Logical(table: map<nat, Inode>, ops: seq<Op>): map<nat, Inode> {
    if ops == [] then table
    else
      var before, op := Logical(table, ops[..|ops| - 1]), ops[|ops| - 1];
      if op.Update? then before[op.ino := op.v] else before
  }

  function Look(table: map<nat, Inode>, ino: nat): Inode {
    if ino in table then table[ino] else ZERO
  }

  /** Updates alone. */
  function Updates(ops: seq<Op>): seq<Op> {
    if ops == [] then []
    else Updates(ops[..|ops| - 1]) + if ops[|ops| - 1].Update? then [ops[|ops| - 1]] else []
  }

  lemma {:induction false} MigrationsDoNotMatter(table: map<nat, Inode>, ops: seq<Op>)
    ensures Logical(table, ops) == Logical(table, Updates(ops))
    decreases |ops|
  {
    if ops != [] {
      var init, op := ops[..|ops| - 1], ops[|ops| - 1];
      MigrationsDoNotMatter(table, init);
      if op.Update? {
        var all := Updates(init) + [op];
        assert all[..|all| - 1] == Updates(init) && all[|all| - 1] == op;
      } else {
        assert Updates(init) + [] == Updates(init);
      }
    }
  }

  /** Any interleaving of updates and migrations leaves the table that the updates alone
      would leave. */
  method RunAll(t: InodeTable, ops: seq<Op>, ghost start: map<nat, Inode>) returns (done: nat)
    requires t.Valid() && forall x: nat :: t.At(x) == Look(start, x)
    requires forall i :: 0 <= i < |ops| ==> ops[i].ino / t.cpus / PER_PAGE < TABLE_NUM
    modifies t
    ensures t.Valid() && done <= |ops| && (done < |ops| ==> t.free == {})
    ensures forall x: nat :: t.At(x) == Look(Logical(start, Updates(ops[..done])), x)
  {
    done := 0;
    MigrationsDoNotMatter(start, ops[..0]);
    while done < |ops|
      invariant done <= |ops| && t.Valid()
      invariant forall x: nat :: t.At(x) == Look(Logical(start, ops[..done]), x)
    {
      var op := ops[done];
      assert ops[..done + 1][..done] == ops[..done];
      if op.Update? {
        var ok := t.UpdateInode(op.ino, op.v);
        if !ok {
          break;
        }
      } else {
        var ok := t.MigrateInodePage(op.ino);
      }
      done := done + 1;
    }
    MigrationsDoNotMatter(start, ops[..done]);
  }
}
