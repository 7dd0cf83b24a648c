/** Inode numbers: the ranges in use on one processor, and the least unused number. */
module InodeNumbers {
  import opened Options
  import opened RangeTree
  import opened FreeLists

  const MAX_INODE: nat := 0x8000_0000

  /** Number x of processor `cpu` among `cpus`, as the rest of the file system sees it. */
  function Ino(x: nat, cpu: nat, cpus: nat): nat {
    x * cpus + cpu
  }

  /** The processor and its own number can be told from the inode number. */
  lemma InoParts(x: nat, cpu: nat, cpus: nat)
    requires cpu < cpus
    ensures Ino(x, cpu, cpus) % cpus == cpu && Ino(x, cpu, cpus) / cpus == x
  {
    DividedBy(cpus, x, x * cpus + cpu);
    assert cpus * x == x * cpus;
    var n := x * cpus + cpu;
    assert n == cpus * (n / cpus) + n % cpus;
  }

  // ----- ranges ------------------------------------------------------------------------------------------

  /** The list `t` is `s` without the number x. */
  ghost predicate Dropped(s: seq<Range>, t: seq<Range>, x: nat) {
    Maximal(t) && DistinctIds(t) && forall y: nat :: Holds(t, y) <==> Holds(s, y) && y != x
  }

  lemma DropAll(s: seq<Range>, i: nat, x: nat)
    requires Maximal(s) && DistinctIds(s) && i < |s| && s[i].low == x == s[i].high
    ensures Dropped(s, s[..i] + s[i + 1..], x)
  {
    EraseRange(s, i, 1);
    assert forall y: nat :: Has(s[i], y) <==> y == x;
  }

  /** A range loses its first or its last number. */
  lemma DropEnd(s: seq<Range>, i: nat, r: Range, x: nat)
    requires Maximal(s) && DistinctIds(s) && i < |s| && s[i].low < s[i].high
    requires (x == s[i].low && r == s[i].(low := x + 1)) || (x == s[i].high && r == s[i].(high := x - 1))
    ensures Dropped(s, s[i := r], x)
  {
    assert (i > 0 ==> Gap(s, i - 1, i, 1)) && (i + 1 < |s| ==> Gap(s, i, i + 1, 1));
    ChangeRange(s, i, r, 1);
    forall y: nat ensures Holds(s[i := r], y) <==> Holds(s, y) && y != x {
      HoldsChanged(s, i, r, y, 1);
      assert Has(s[i], y) ==> Holds(s, y);
    }
  }

  /** A range falls in two. */
  lemma DropMiddle(s: seq<Range>, i: nat, id: nat, x: nat)
    requires Maximal(s) && DistinctIds(s) && i < |s| && s[i].low < x < s[i].high && !Live(s, id)
    ensures var left, right := s[i].(high := x - 1), Range(id, x + 1, s[i].high);
            && SlotAt(s[i := left], right.low, right.high, i + 1)
            && Dropped(s, s[i := left][..i + 1] + [right] + s[i := left][i + 1..], x)
  {
    var left, right := s[i].(high := x - 1), Range(id, x + 1, s[i].high);
    var m := s[i := left];
    assert (i > 0 ==> Gap(s, i - 1, i, 1)) && (i + 1 < |s| ==> Gap(s, i, i + 1, 1));
    ChangeRange(s, i, left, 1);
    forall a | 0 <= a < |m| ensures (a <= i ==> m[a].high < right.low) && (a > i ==> right.high < m[a].low) {
      assert a < i ==> Gap(s, a, i, 1);
      assert a > i ==> Gap(s, i, a, 1);
    }
    StillNotLive(s, i, left, id);
    assert i + 1 < |m| ==> m[i + 1] == s[i + 1];
    InsertRange(m, i + 1, right, 1);
    forall y: nat ensures Holds(m, y) || Has(right, y) <==> Holds(s, y) && y != x {
      HoldsChanged(s, i, left, y, 1);
      assert Has(s[i], y) <==> Has(left, y) || y == x || Has(right, y);
      assert Has(s[i], y) ==> Holds(s, y);
    }
  }

  lemma StillNotLive(s: seq<Range>, i: nat, r: Range, id: nat)
    requires i < |s| && r.id == s[i].id && !Live(s, id)
    ensures !Live(s[i := r], id)
  {
    var t := s[i := r];
    forall j | 0 <= j < |t| ensures t[j].id != id {
      assert s[j].id != id;
    }
  }

  // ----- the map of one processor --------------------------------------------------------------------------

  class InodeMap {
    var tree: Tree
    /** The identity of the first range. */
    var first: nat
    var numNodes: nat

    ghost function Ranges(): seq<Range>
      reads this`tree
    {
      Inorder(tree)
    }

    ghost predicate Used(x: nat)
      reads this`tree
    {
      Holds(Ranges(), x)
    }

    /** Maximal runs in order; the first one starts at 0 and is the one remembered. */
    ghost predicate Valid()
      reads this
    {
      var s := Ranges();
      && Maximal(s) && DistinctIds(s) && numNodes == |s|
      && s != [] && first == s[0].id && s[0].low == 0
      && forall i :: 0 <= i < |s| ==> s[i].high + 1 < MAX_INODE
    }

    /** At first the reserved numbers are in use. */
    constructor (rangeHigh: nat)
      requires rangeHigh + 1 < MAX_INODE
      ensures Valid() && forall x: nat :: Used(x) <==> x <= rangeHigh
    {
      var r := Range(0, 0, rangeHigh);
      tree, first, numNodes := Node(Leaf, r, Leaf), 0, 1;
      new;
      ghost var s := Ranges();
      assert Inorder(Leaf) == [] && s == [] + [r] + [];
      forall x: nat ensures Used(x) <==> x <= rangeHigh {
        assert Has(s[0], x) <==> x <= rangeHigh;
      }
    }

    lemma FirstRange()
      requires Valid()
      ensures Find(Ranges(), first) == Some(Ranges()[0])
      ensures After(Ranges(), Ranges()[0]) == if |Ranges()| > 1 then Some(Ranges()[1]) else None
      ensures forall x: nat :: x <= Ranges()[0].high ==> Used(x)
      ensures !Used(Ranges()[0].high + 1) || |Ranges()| > 1
      ensures |Ranges()| > 1 ==> Ranges()[0].high + 1 < Ranges()[1].low && !Used(Ranges()[0].high + 1)
    {
      var s := Ranges();
      MaximalApart(s);
      FindAt(s, 0);
      AfterAt(s, 0);
      forall x: nat | x <= s[0].high ensures Used(x) {
        assert Has(s[0], x);
      }
      assert |s| > 1 ==> Gap(s, 0, 1, 1);
      forall i | 0 <= i < |s| ensures !Has(s[i], s[0].high + 1) {
        assert i > 1 ==> Gap(s, 1, i, 1);
      }
    }

    /** Hands out the least number that is not in use; fails if and only if every number
        below the limit is in use. */
    method AllocUnusedInode() returns (ok: bool, x: nat)
      requires Valid()
      modifies this
      ensures Valid()
      ensures ok <==> exists y: nat :: y + 1 < MAX_INODE && !old(Used(y))
      ensures ok ==> !old(Used(x)) && x + 1 < MAX_INODE && forall y: nat :: y < x ==> old(Used(y))
      ensures forall y: nat :: Used(y) <==> Holds(old(Ranges()), y) || (ok && y == x)
    {
      hide Inorder, Find, After, Maximal, Total, Changed, Erased;
      ghost var s := Ranges();
      FirstRange();
      MaximalApart(s);
      var node := Find(Inorder(tree), first).value;
      var next := After(Inorder(tree), node);
      var nextLow := if next.None? then MAX_INODE else next.value.low;
      ok, x := true, node.high + 1;
      if next.Some? && x == nextLow - 1 {
        FillGap(node, next.value, x);
      } else if x < nextLow - 1 {
        GrowFirst(node, x);
      } else {
        ok := false;
        AllUsed(s);
      }
    }

    /** The gap behind the first range is filled: the second range goes. */
    method FillGap(node: Range, next: Range, ghost x: nat)
      requires Valid() && |Ranges()| > 1 && node == Ranges()[0] && next == Ranges()[1]
      requires x == node.high + 1 && x + 1 == next.low
      modifies this`tree, this`numNodes
      ensures Valid() && Added(old(Ranges()), Ranges(), x, x)
    {
      hide Inorder, Total, Changed, Erased, Holds;
      ghost var s := Ranges();
      MaximalApart(s);
      ErasedAt(s, 1);
      ghost var e := s[..1] + s[2..];
      EraseRange(s, 1, 1);
      MaximalApart(e);
      var merged := node.(high := next.high);
      assert e[0] == node;
      ChangedAt(e, 0, merged);
      FillHole(s, 1, x, x);
      tree := Rebalance(Changed(Erased(Inorder(tree), next), node, merged));
      numNodes := numNodes - 1;
      assert Ranges() == e[0 := merged];
      assert forall i :: 0 < i < |e| ==> e[i] == s[i + 1];
    }

    /** The first range grows by one. */
    method GrowFirst(node: Range, x: nat)
      requires Valid() && node == Ranges()[0] && x == node.high + 1 && x + 1 < MAX_INODE
      requires |Ranges()| > 1 ==> x + 1 < Ranges()[1].low
      modifies this`tree
      ensures Valid() && Added(old(Ranges()), Ranges(), x, x)
    {
      hide Inorder, Total, Changed, Holds;
      ghost var s := Ranges();
      MaximalApart(s);
      ChangedAt(s, 0, node.(high := x));
      GrowRange(s, 0, node.(high := x), x, x);
      tree := Rebalance(Changed(Inorder(tree), node, node.(high := x)));
    }

    /** Gives a number back; fails if and only if it is not in use.  Were the number 0,
        which is reserved, given back, no range would start at 0 any more. */
    method FreeInuseInode(x: nat, id: nat) returns (ok: bool)
      requires Valid() && !Live(Ranges(), id)
      modifies this
      ensures (Valid() <==> 0 < x) && (ok <==> old(Used(x)))
      ensures forall y: nat :: Used(y) <==> Holds(old(Ranges()), y) && !(ok && y == x)
    {
      hide Inorder, Total, Holds;
      ghost var s := Ranges();
      MaximalApart(s);
      var ret;
      ghost var i;
      ok, ret, i := FindRangeNode(tree, x);
      UsedIff(x);
      ZeroIsUsed();
      if ok {
        DropNumber(ret.value, x, id, i);
        if x == 0 && Valid() {
          ZeroIsUsed();
        }
      }
    }

    lemma ZeroIsUsed()
      requires Valid()
      ensures Used(0)
    {
      assert Has(Ranges()[0], 0);
    }

    /** Recovery finds the numbers low .. high in use.  If none of them is known to be
        used they are added and merged with their neighbours; if they are refused, one
        of them was in use already and nothing changes. */
    method FailureInsert(low: nat, high: nat, id: nat) returns (ok: bool)
      requires Valid() && low <= high && high + 1 < MAX_INODE && !Live(Ranges(), id)
      modifies this
      ensures !ok ==> Valid() && Ranges() == old(Ranges()) && !Misses(old(Ranges()), low, high)
      ensures Misses(old(Ranges()), low, high) ==>
                && ok && Valid()
                && forall y: nat :: Used(y) <==> Holds(old(Ranges()), y) || low <= y <= high
    {
      hide Inorder, Total, Live, Holds, SlotAt, Maximal, Spaced, DistinctIds, Added;
      ghost var s := Ranges();
      MaximalApart(s);
      var prev, next;
      ghost var k;
      ok, prev, next, k := FindFreeSlot(tree, low, high);
      if !ok {
        return;
      }
      if Misses(s, low, high) {
        BehindFirst(s, low, high, k);
      }
      if prev.Some? && next.Some? && low == prev.value.high + 1 && high + 1 == next.value.low {
        JoinRanges(prev.value, next.value, k, low, high);
      } else if prev.Some? && low == prev.value.high + 1 {
        Grow(prev.value, prev.value.(high := prev.value.high + (high - low + 1)), k - 1, low, high);
      } else if next.Some? && high + 1 == next.value.low {
        Grow(next.value, next.value.(low := next.value.low - (high - low + 1)), k, low, high);
      } else {
        AddRangeNode(Range(id, low, high), k);
      }
      if Misses(s, low, high) {
        AddedNumbers(s, low, high);
      }
    }

    /** Numbers that miss every range lie behind the first one. */
    lemma BehindFirst(s: seq<Range>, low: nat, high: nat, k: nat)
      requires Maximal(s) && s != [] && s[0].low == 0 && low <= high && SlotAt(s, low, high, k)
      ensures 0 < k <= |s| && Spaced(s, 0)
      ensures low == s[k - 1].high + 1 && (k == |s| || high + 1 != s[k].low) ==>
                FitsAt(s, k - 1, s[k - 1].(high := high), 0) && FitsAt(s, k - 1, s[k - 1].(high := high), 1)
      ensures k < |s| && high + 1 == s[k].low && low != s[k - 1].high + 1 ==>
                FitsAt(s, k, s[k].(low := low), 0) && FitsAt(s, k, s[k].(low := low), 1)
    {
      MaximalSpaced(s);
      SlotGaps(s, low, high, k, 0);
      SlotGaps(s, low, high, k, 1);
    }

    /** What Added says, for the proof that keeps it closed. */
    lemma AddedNumbers(s: seq<Range>, low: nat, high: nat)
      requires Added(s, Ranges(), low, high)
      ensures forall y: nat :: Used(y) <==> Holds(s, y) || low <= y <= high
    {
    }

    method JoinRanges(prev: Range, next: Range, ghost k: nat, ghost low: nat, ghost high: nat)
      requires Valid() && low <= high && 0 < k < |Ranges()| && prev == Ranges()[k - 1] && next == Ranges()[k]
      requires low == prev.high + 1 && high + 1 == next.low
      modifies this`tree, this`numNodes
      ensures Valid() && Added(old(Ranges()), Ranges(), low, high)
    {
      hide Inorder, Total, Changed, Erased, Holds;
      ghost var s := Ranges();
      MaximalApart(s);
      MaximalSpaced(s);
      ErasedAt(s, k);
      ghost var e := s[..k] + s[k + 1..];
      EraseRange(s, k, 1);
      MaximalApart(e);
      var merged := prev.(high := next.high);
      assert e[k - 1] == prev;
      ChangedAt(e, k - 1, merged);
      FillHole(s, k, low, high);
      tree := Rebalance(Changed(Erased(Inorder(tree), next), prev, merged));
      numNodes := numNodes - 1;
      ghost var t := e[k - 1 := merged];
      assert Ranges() == t;
      assert forall i :: 0 <= i < |t| ==> t[i] == if i < k - 1 then s[i] else if i == k - 1 then merged else s[i + 1];
    }

    method Grow(r: Range, grown: Range, ghost i: nat, ghost low: nat, ghost high: nat)
      requires Valid() && low <= high && high + 1 < MAX_INODE && i < |Ranges()| && r == Ranges()[i] && grown.id == r.id
      requires || (grown == r.(high := high) && low == r.high + 1)
               || (grown == r.(low := low) && high + 1 == r.low)
      modifies this`tree
      ensures FitsAt(old(Ranges()), i, grown, 0) && FitsAt(old(Ranges()), i, grown, 1) && (i > 0 || grown.low == 0) ==>
                Valid() && Added(old(Ranges()), Ranges(), low, high)
    {
      hide Inorder, Total, Holds, Changed;
      ghost var s := Ranges();
      MaximalApart(s);
      MaximalSpaced(s);
      ChangedAt(s, i, grown);
      if FitsAt(s, i, grown, 0) && FitsAt(s, i, grown, 1) {
        GrowRange(s, i, grown, low, high);
      }
      tree := Rebalance(Changed(Inorder(tree), r, grown));
      assert Ranges() == s[i := grown];
    }

    method AddRangeNode(r: Range, ghost k: nat)
      requires Valid() && k <= |Ranges()| && r.low <= r.high && r.high + 1 < MAX_INODE && !Live(Ranges(), r.id)
      requires (k > 0 ==> r.low != Ranges()[k - 1].high + 1) && (k < |Ranges()| ==> r.high + 1 != Ranges()[k].low)
      modifies this`tree, this`numNodes
      ensures old(SlotAt(Ranges(), r.low, r.high, k)) && k > 0 ==>
                Valid() && Added(old(Ranges()), Ranges(), r.low, r.high)
    {
      hide Inorder, Total, Holds, Live, Inserted, SlotAt, Spaced, DistinctIds;
      ghost var s := Ranges();
      MaximalApart(s);
      MaximalSpaced(s);
      tree := Rebalance(Inserted(Inorder(tree), r));
      if SlotAt(s, r.low, r.high, k) && k > 0 {
        InsertedAt(s, r, k);
        AddRange(s, k, r);
        ghost var t := s[..k] + [r] + s[k..];
        assert Ranges() == t && |t| == |s| + 1;
        assert forall i :: 0 <= i < |t| ==> t[i] == if i < k then s[i] else if i == k then r else s[i - 1];
      }
      numNodes := numNodes + 1;
    }

    lemma MaximalSpaced(s: seq<Range>)
      requires Maximal(s)
      ensures Spaced(s, 0)
    {
      forall a, b | 0 <= a < b < |s| ensures Gap(s, a, b, 0) {
        assert Gap(s, a, b, 1);
      }
    }

    lemma UsedIff(x: nat)
      ensures Used(x) <==> exists i :: 0 <= i < |Ranges()| && Has(Ranges()[i], x)
    {
    }

    /** Takes the number out of its range. */
    method DropNumber(r: Range, x: nat, id: nat, ghost i: nat)
      requires Valid() && !Live(Ranges(), id) && i < |Ranges()| && r == Ranges()[i] && Has(r, x)
      modifies this`tree, this`numNodes
      ensures (0 < x ==> Valid()) && Dropped(old(Ranges()), Ranges(), x)
    {
      hide Inorder, Total, Holds, Changed, Erased, Inserted;
      ghost var s := Ranges();
      MaximalApart(s);
      if x == r.low && x == r.high {
        DropAll(s, i, x);
        ErasedAt(s, i);
        tree := Rebalance(Erased(Inorder(tree), r));
        numNodes := numNodes - 1;
        assert 0 < x ==> Ranges()[0] == s[0];
      } else if x == r.low {
        DropEnd(s, i, r.(low := x + 1), x);
        ChangedAt(s, i, r.(low := x + 1));
        tree := Rebalance(Changed(Inorder(tree), r, r.(low := x + 1)));
      } else if x == r.high {
        DropEnd(s, i, r.(high := x - 1), x);
        ChangedAt(s, i, r.(high := x - 1));
        tree := Rebalance(Changed(Inorder(tree), r, r.(high := x - 1)));
      } else {
        SplitRange(r, x, id, i);
      }
    }

    method SplitRange(r: Range, x: nat, id: nat, ghost i: nat)
      requires Valid() && !Live(Ranges(), id) && i < |Ranges()| && r == Ranges()[i] && r.low < x < r.high
      modifies this`tree, this`numNodes
      ensures Valid() && Dropped(old(Ranges()), Ranges(), x)
    {
      hide Inorder, Total, Holds, Changed, Inserted, Live;
      ghost var s := Ranges();
      MaximalApart(s);
      var left, right := r.(high := x - 1), Range(id, x + 1, r.high);
      ghost var m := s[i := left];
      DropMiddle(s, i, id, x);
      ChangedAt(s, i, left);
      ShrunkApart(s, i, left);
      InsertedAt(m, right, i + 1);
      tree := Rebalance(Inserted(Changed(Inorder(tree), r, left), right));
      numNodes := numNodes + 1;
      ghost var t := m[..i + 1] + [right] + m[i + 1..];
      assert Ranges() == t;
      assert forall a :: 0 <= a < |t| ==> t[a] == if a <= i then m[a] else if a == i + 1 then right else m[a - 1];
    }

    lemma ShrunkApart(s: seq<Range>, i: nat, r: Range)
      requires Apart(s) && i < |s| && s[i].low <= r.low <= r.high <= s[i].high
      ensures Apart(s[i := r])
    {
      var t := s[i := r];
      forall a, b | 0 <= a < b < |t| ensures InOrder(t, a, b) {
        assert InOrder(s, a, b);
      }
    }

    lemma AllUsed(s: seq<Range>)
      requires s == Ranges() && Valid() && |s| == 1 && s[0].high + 2 >= MAX_INODE
      ensures forall y: nat :: y + 1 < MAX_INODE ==> Used(y)
    {
      forall y: nat | y + 1 < MAX_INODE ensures Used(y) {
        assert Has(s[0], y);
      }
    }
  }
}
