/** The free lists as the operations on files see them: a set of free blocks and the
list that each is in.  What the lists do is what those operations rely on. */
module PoolView {
  import opened RangeTree
  import opened FreeLists
  import opened BlockLists
  import opened Remount

  ghost function HomeOf(all: seq<seq<Range>>, x: nat): nat
    requires FreeIn(all, x)
  {
    var i: nat :| i < |all| && FreeLists.Holds(all[i], x);
    i
  }

  /** The list of each free block. */
  ghost function Homes(all: seq<seq<Range>>): map<nat, nat> {
    map x | x in FreeSet(all) :: if FreeIn(all, x) then HomeOf(all, x) else 0
  }

  lemma OneHome(all: seq<seq<Range>>, i: nat, x: nat)
    requires AllSeparate(all) && i < |all| && FreeLists.Holds(all[i], x)
    ensures FreeIn(all, x) && HomeOf(all, x) == i
  {
    var j := HomeOf(all, x);
    if i < j {
      NotBoth(all, i, j, x);
    } else if j < i {
      NotBoth(all, j, i, x);
    }
  }

  lemma NotBoth(all: seq<seq<Range>>, i: nat, j: nat, x: nat)
    requires AllSeparate(all) && i < j < |all|
    ensures !(FreeLists.Holds(all[i], x) && FreeLists.Holds(all[j], x))
  {
    assert Separate(all[i], all[j]);
  }

  lemma ListIs(all: seq<seq<Range>>, i: nat)
    requires AllSeparate(all) && i < |all|
    ensures ListOf(FreeSet(all), Homes(all), i) == SetOf(all[i])
  {
    forall x: nat ensures x in ListOf(FreeSet(all), Homes(all), i) <==> x in SetOf(all[i]) {
      FreeSetHas(all, x);
      SetOfHolds(all[i], x);
      if FreeLists.Holds(all[i], x) {
        OneHome(all, i, x);
      }
    }
  }

  /** No processor's list has `num` blocks, in both views. */
  lemma NoneIs(all: seq<seq<Range>>, cpus: nat, num: nat)
    requires AllSeparate(all) && cpus <= |all| && forall i :: 0 <= i < |all| ==> Spaced(all[i], 0)
    ensures NoneHas(FreeSet(all), Homes(all), cpus, num) <==> NoneEnough(all, cpus, num)
  {
    forall i | 0 <= i < cpus ensures |ListOf(FreeSet(all), Homes(all), i)| == FreeLists.Total(all[i]) {
      ListIs(all, i);
      SpacedApart(all[i]);
      TotalIsSize(all[i]);
    }
  }

  /** Taking a run out of one list takes it out of the set; every other block stays
      where it is. */
  lemma TakeIs(all: seq<seq<Range>>, c: nat, t: seq<Range>, block: nat, n: nat)
    requires AllSeparate(all) && c < |all| && 0 < n && Taken(all[c], t, block, block + n - 1)
    ensures Run(block, n) <= ListOf(FreeSet(all), Homes(all), c)
    ensures FreeSet(all[c := t]) == FreeSet(all) - Run(block, n)
    ensures forall x :: x in FreeSet(all[c := t]) ==> Homes(all[c := t])[x] == Homes(all)[x]
  {
    var after := all[c := t];
    TakenFree(all, c, t, block, block + n - 1);
    TakenSeparate(all, c, t, block, block + n - 1);
    ListIs(all, c);
    forall x: nat
      ensures x in FreeSet(after) <==> x in FreeSet(all) && x !in Run(block, n)
      ensures x in Run(block, n) ==> x in SetOf(all[c])
    {
      FreeSetHas(after, x);
      FreeSetHas(all, x);
      RunHas(block, n, x);
      SetOfHolds(all[c], x);
    }
    forall x | x in FreeSet(after) ensures Homes(after)[x] == Homes(all)[x] {
      FreeSetHas(after, x);
      var i := HomeOf(after, x);
      assert FreeLists.Holds(all[i], x);
      OneHome(all, i, x);
    }
  }

  /** Freeing a run puts it into the set and into the list of its first block. */
  lemma FreeIs(all: seq<seq<Range>>, c: nat, t: seq<Range>, block: nat, n: nat)
    requires AllSeparate(all) && c < |all| && 0 < n && AllSeparate(all[c := t])
    requires Added(all[c], t, block, block + n - 1)
    ensures FreeSet(all[c := t]) == FreeSet(all) + Run(block, n)
    ensures Homes(all[c := t]) == Rehomed(Homes(all), Run(block, n), c)
  {
    var after := all[c := t];
    AddedHolds(all[c], t, block, block + n - 1);
    AddedFree(all, c, t, block, block + n - 1);
    forall x: nat ensures x in FreeSet(after) <==> x in FreeSet(all) || x in Run(block, n) {
      FreeSetHas(after, x);
      FreeSetHas(all, x);
      RunHas(block, n, x);
    }
    forall x | x in FreeSet(after) ensures Homes(after)[x] == Rehomed(Homes(all), Run(block, n), c)[x] {
      FreeSetHas(after, x);
      FreeSetHas(all, x);
      RunHas(block, n, x);
      if x in Run(block, n) {
        OneHome(after, c, x);
      } else {
        var i := HomeOf(all, x);
        OneHome(all, i, x);
        assert FreeLists.Holds(after[i], x);
        OneHome(after, i, x);
      }
    }
  }
}
