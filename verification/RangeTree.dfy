/** Trees of block ranges: the search that ends at a neighbour, and the slot that
freeing a run looks for.  The trees are search trees of any shape, so whatever a
balancing scheme does is covered. */
module RangeTree {
  import opened Options

  /** A node: its identity and the blocks low .. high, both included. */
  datatype Range = Range(id: nat, low: nat, high: nat)

  datatype Tree = Leaf | Node(left: Tree, range: Range, right: Tree)

  function Inorder(t: Tree): seq<Range> {
    match t
    case Leaf => []
    case Node(l, r, g) => Inorder(l) + [r] + Inorder(g)
  }

  /** Rebalancing may yield any tree with the same ranges in order. */
  function Spine(s: seq<Range>): (t: Tree)
    ensures Inorder(t) == s
  {
    if s == [] then Leaf else Node(Leaf, s[0], Spine(s[1..]))
  }

  predicate Has(r: Range, x: nat) {
    r.low <= x <= r.high
  }

  /** Ranges in ascending order, apart from each other. */
  ghost predicate Apart(s: seq<Range>) {
    && (forall i :: 0 <= i < |s| ==> s[i].low <= s[i].high)
    && (forall i, j :: 0 <= i < j < |s| ==> InOrder(s, i, j))
  }

  ghost predicate InOrder(s: seq<Range>, i: nat, j: nat)
    requires i < j < |s|
  {
    s[i].high < s[j].low
  }

  /** What lies before range i and what lies behind it. */
  lemma Around(s: seq<Range>, i: nat)
    requires Apart(s) && i < |s|
    ensures forall j :: 0 <= j < i ==> s[j].high < s[i].low
    ensures forall j :: i < j < |s| ==> s[i].high < s[j].low
  {
    forall j | 0 <= j < i ensures s[j].high < s[i].low {
      assert InOrder(s, j, i);
    }
    forall j | i < j < |s| ensures s[i].high < s[j].low {
      assert InOrder(s, i, j);
    }
  }

  lemma TailApart(s: seq<Range>)
    requires Apart(s) && s != []
    ensures Apart(s[1..])
  {
    forall i, j | 0 <= i < j < |s| - 1 ensures InOrder(s[1..], i, j) {
      assert InOrder(s, i + 1, j + 1);
    }
  }

  /** No range of `s` meets low .. high. */
  ghost predicate Misses(s: seq<Range>, low: nat, high: nat) {
    forall i :: 0 <= i < |s| ==> s[i].high < low || high < s[i].low
  }

  // ----- searching ---------------------------------------------------------------------------------------

  /** Range i is the last below `key` or the first above it. */
  ghost predicate Neighbour(s: seq<Range>, key: nat, i: nat) {
    && i < |s|
    && ((s[i].high < key && (i + 1 == |s| || key < s[i + 1].low))
       || (key < s[i].low && (i == 0 || s[i - 1].high < key)))
  }

  /** Where the descent from `t` ends, `last` being the node above it. */
  function Search(t: Tree, key: nat, last: Option<Range>): Option<Range> {
    match t
    case Leaf => last
    case Node(l, r, g) =>
      if key < r.low then Search(l, key, Some(r)) else if key > r.high then Search(g, key, Some(r)) else Some(r)
  }

  /** Descends from the root; what a search that misses returns is a neighbour. */
  method FindRangeNode(t: Tree, key: nat) returns (found: bool, ret: Option<Range>, ghost at: nat)
    requires Apart(Inorder(t))
    ensures found <==> exists i :: 0 <= i < |Inorder(t)| && Has(Inorder(t)[i], key)
    ensures ret == Search(t, key, None) && (ret.None? <==> t.Leaf?)
    ensures ret.Some? ==> at < |Inorder(t)| && Inorder(t)[at] == ret.value
    ensures found ==> ret.Some? && Has(ret.value, key)
    ensures !found && ret.Some? ==> Neighbour(Inorder(t), key, at)
  {
    hide Inorder;
    ghost var s := Inorder(t);
    ghost var lo, hi := 0, |s|;
    NoRanges(t);
    var temp := t;
    found, ret, at := false, None, 0;
    while temp.Node?
      invariant 0 <= lo <= hi <= |s| && Inorder(temp) == s[lo..hi]
      invariant forall i :: 0 <= i < lo ==> s[i].high < key
      invariant forall i :: hi <= i < |s| ==> key < s[i].low
      invariant Search(temp, key, ret) == Search(t, key, None)
      invariant ret.None? ==> temp == t && lo == 0 && hi == |s|
      invariant ret.Some? ==> at < |s| && s[at] == ret.value && t.Node? && (at + 1 == lo || at == hi)
      decreases temp
    {
      var curr := temp.range;
      at := lo + |Inorder(temp.left)|;
      Parts(temp, s, lo, hi);
      Around(s, at);
      ret := Some(curr);
      if key < curr.low {
        temp := temp.left;
        hi := at;
      } else if key > curr.high {
        temp := temp.right;
        lo := at + 1;
      } else {
        found := true;
        assert Has(s[at], key);
        return;
      }
    }
    NoRanges(temp);
  }

  lemma NoRanges(t: Tree)
    ensures Inorder(t) == [] <==> t.Leaf?
  {
  }

  lemma Parts(t: Tree, s: seq<Range>, lo: nat, hi: nat)
    requires t.Node? && lo <= hi <= |s| && Inorder(t) == s[lo..hi]
    ensures var at := lo + |Inorder(t.left)|;
            at < hi && s[at] == t.range && Inorder(t.left) == s[lo..at] && Inorder(t.right) == s[at + 1..hi]
  {
    CutInThree(Inorder(t.left), t.range, Inorder(t.right), s, lo, hi);
  }

  lemma CutInThree<T>(l: seq<T>, x: T, r: seq<T>, s: seq<T>, lo: nat, hi: nat)
    requires lo <= hi <= |s| && l + [x] + r == s[lo..hi]
    ensures var at := lo + |l|; at < hi && s[at] == x && l == s[lo..at] && r == s[at + 1..hi]
  {
    var at, all := lo + |l|, l + [x] + r;
    assert |all| == |l| + 1 + |r| && all[|l|] == x;
    assert forall i :: 0 <= i < |all| ==> all[i] == s[lo + i];
    assert forall i :: 0 <= i < |l| ==> l[i] == all[i];
    assert forall i :: 0 <= i < |r| ==> r[i] == all[|l| + 1 + i];
  }

  /** The range after r, as the tree library finds it. */
  function After(s: seq<Range>, r: Range): Option<Range> {
    if |s| <= 1 then None else if s[0] == r then Some(s[1]) else After(s[1..], r)
  }

  function Before(s: seq<Range>, r: Range): Option<Range> {
    if |s| <= 1 then None else if s[1] == r then Some(s[0]) else Before(s[1..], r)
  }

  lemma {:induction false} AfterAt(s: seq<Range>, i: nat)
    requires Apart(s) && i < |s|
    ensures After(s, s[i]) == if i + 1 < |s| then Some(s[i + 1]) else None
    decreases |s|
  {
    if i > 0 && |s| > 1 {
      assert InOrder(s, 0, i);
      TailApart(s);
      AfterAt(s[1..], i - 1);
    }
  }

  lemma {:induction false} BeforeAt(s: seq<Range>, i: nat)
    requires Apart(s) && i < |s|
    ensures Before(s, s[i]) == if i > 0 then Some(s[i - 1]) else None
    decreases |s|
  {
    if |s| > 1 {
      if i == 0 {
        Around(s, 0);
        NotBefore(s, s[0]);
      } else if i > 1 {
        assert InOrder(s, 1, i);
        TailApart(s);
        BeforeAt(s[1..], i - 1);
      }
    }
  }

  lemma {:induction false} NotBefore(s: seq<Range>, r: Range)
    requires Apart(s) && forall i :: 1 <= i < |s| ==> s[i] != r
    ensures Before(s, r).None?
    decreases |s|
  {
    if |s| > 1 {
      TailApart(s);
      assert forall x :: 0 <= x < |s| - 1 ==> s[1..][x] == s[x + 1];
      NotBefore(s[1..], r);
    }
  }

  /** low .. high fits between range k - 1 and range k. */
  ghost predicate SlotAt(s: seq<Range>, low: nat, high: nat, k: nat) {
    && k <= |s|
    && (forall i :: 0 <= i < k ==> s[i].high < low)
    && (forall i :: k <= i < |s| ==> high < s[i].low)
  }

  ghost predicate NeighboursAt(s: seq<Range>, k: nat, prev: Option<Range>, next: Option<Range>) {
    && k <= |s|
    && prev == (if k > 0 then Some(s[k - 1]) else None)
    && next == (if k < |s| then Some(s[k]) else None)
  }

  lemma SlotBehind(s: seq<Range>, low: nat, high: nat, at: nat)
    requires Apart(s) && low <= high && Neighbour(s, low, at) && s[at].high < low
    ensures Misses(s, low, high) ==> SlotAt(s, low, high, at + 1)
  {
    Around(s, at);
    if at + 1 < |s| {
      Around(s, at + 1);
    }
  }

  lemma SlotBefore(s: seq<Range>, low: nat, high: nat, at: nat)
    requires Apart(s) && low <= high && Neighbour(s, low, at) && high < s[at].low
    ensures SlotAt(s, low, high, at)
  {
    Around(s, at);
    if at > 0 {
      Around(s, at - 1);
    }
  }

  /** The neighbours of the run low .. high.  For a run that meets no range they
      are exact; a run that begins inside a range is refused; only runs that meet
      a range are refused. */
  method FindFreeSlot(t: Tree, low: nat, high: nat) returns (ok: bool, prev: Option<Range>, next: Option<Range>,
                      ghost k: nat)
    requires Apart(Inorder(t)) && low <= high
    ensures Misses(Inorder(t), low, high) ==> ok && SlotAt(Inorder(t), low, high, k)
    ensures ok ==> NeighboursAt(Inorder(t), k, prev, next)
    ensures ok ==> forall i :: 0 <= i < |Inorder(t)| ==> !Has(Inorder(t)[i], low)
    ensures !ok ==> !Misses(Inorder(t), low, high)
  {
    hide Inorder, After, Before;
    ghost var s := Inorder(t);
    NoRanges(t);
    ghost var at;
    var found, ret;
    found, ret, at := FindRangeNode(t, low);
    ok, prev, next, k := true, None, None, 0;
    if found {
      ok := false;
      ghost var i :| 0 <= i < |s| && Has(s[i], low);
      assert !(s[i].high < low || high < s[i].low);
    } else if ret.None? {
    } else if ret.value.high < low {
      AfterAt(s, at);
      Around(s, at);
      SlotBehind(s, low, high, at);
      prev, next, k := ret, After(Inorder(t), ret.value), at + 1;
    } else if ret.value.low > high {
      BeforeAt(s, at);
      Around(s, at);
      SlotBefore(s, low, high, at);
      prev, next, k := Before(Inorder(t), ret.value), ret, at;
    } else {
      ok := false;
      assert !(s[at].high < low || high < s[at].low);
    }
  }

  /** Whether a run that meets a later range is refused depends on the shape of the
      tree.  These two hold the same ranges; the search for block 3 ends below the
      run 3 .. 5 in the first, which then looks no further, and at the range that
      the run meets in the second. */
  lemma RefusalDependsOnShape()
    ensures var a, b := Range(0, 0, 1), Range(1, 5, 6);
            var t, u := Node(Node(Leaf, a, Leaf), b, Leaf), Node(Leaf, a, Node(Leaf, b, Leaf));
            && Inorder(t) == Inorder(u) == [a, b] && !Misses([a, b], 3, 5)
            && Search(t, 3, None) == Some(a) && Search(u, 3, None) == Some(b)
  {
    var a, b := Range(0, 0, 1), Range(1, 5, 6);
    var s := [a, b];
    assert !(s[1].high < 3 || 5 < s[1].low);
    assert Inorder(Leaf) == [] && Inorder(Node(Leaf, a, Leaf)) == [a] && Inorder(Node(Leaf, b, Leaf)) == [b];
  }
}
