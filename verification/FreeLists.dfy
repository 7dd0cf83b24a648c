/** The block allocator: one list of free ranges per processor, with a cached
first node and an allocation pointer that moves round the list. */
module FreeLists {
  import opened Options
  import opened RangeTree
  import opened BlockLists

  // ----- sequences of ranges -----------------------------------------------------------------------------

  /** Ascending runs with at least g blocks between one and the next. */
  ghost predicate Spaced(s: seq<Range>, g: nat) {
    && (forall i :: 0 <= i < |s| ==> s[i].low <= s[i].high)
    && (forall i, j :: 0 <= i < j < |s| ==> Gap(s, i, j, g))
  }

  ghost predicate Gap(s: seq<Range>, i: nat, j: nat, g: nat)
    requires i < j < |s|
  {
    s[i].high + g < s[j].low
  }

  /** Maximal runs: no two are adjacent. */
  ghost predicate Maximal(s: seq<Range>) {
    Spaced(s, 1)
  }

  ghost predicate DistinctIds(s: seq<Range>) {
    forall i, j :: 0 <= i < j < |s| ==> Differ(s, i, j)
  }

  ghost predicate Differ(s: seq<Range>, i: nat, j: nat)
    requires i < j < |s|
  {
    s[i].id != s[j].id
  }

  ghost predicate Holds(s: seq<Range>, x: nat) {
    exists i :: 0 <= i < |s| && Has(s[i], x)
  }

  function Count(r: Range): nat {
    if r.low <= r.high then r.high - r.low + 1 else 0
  }

  function Total(s: seq<Range>): nat {
    if s == [] then 0 else Total(s[..|s| - 1]) + Count(s[|s| - 1])
  }

  lemma {:induction false} TotalConcat(a: seq<Range>, b: seq<Range>)
    ensures Total(a + b) == Total(a) + Total(b)
    decreases |b|
  {
    if b == [] {
      assert a + b == a;
    } else {
      assert (a + b)[..|a + b| - 1] == a + b[..|b| - 1];
      TotalConcat(a, b[..|b| - 1]);
    }
  }

  lemma TotalOne(r: Range)
    ensures Total([r]) == Count(r)
  {
    assert [r][..0] == [];
  }

  /** The blocks of the ranges, as a set. */
  ghost function SetOf(s: seq<Range>): set<nat> {
    if s == [] then {} else SetOf(s[..|s| - 1]) + Run(s[|s| - 1].low, Count(s[|s| - 1]))
  }

  lemma {:induction false} SetOfHolds(s: seq<Range>, x: nat)
    ensures x in SetOf(s) <==> Holds(s, x)
    decreases |s|
  {
    if s != [] {
      var n := |s| - 1;
      SetOfHolds(s[..n], x);
      RunHas(s[n].low, Count(s[n]), x);
      assert forall i :: 0 <= i < n ==> s[..n][i] == s[i];
      if Has(s[n], x) {
        assert Holds(s, x);
      }
    }
  }

  lemma DisjointSize(a: set<nat>, b: set<nat>)
    requires a !! b
    ensures |a + b| == |a| + |b|
  {
  }

  /** The counter of a list counts its blocks. */
  lemma {:induction false} TotalIsSize(s: seq<Range>)
    requires Apart(s)
    ensures |SetOf(s)| == Total(s)
    decreases |s|
  {
    if s != [] {
      var n := |s| - 1;
      var last := Run(s[n].low, Count(s[n]));
      forall i, j | 0 <= i < j < n ensures InOrder(s[..n], i, j) {
        assert InOrder(s, i, j);
      }
      TotalIsSize(s[..n]);
      RunSize(s[n].low, Count(s[n]));
      forall x | x in SetOf(s[..n]) ensures x !in last {
        SetOfHolds(s[..n], x);
        RunHas(s[n].low, Count(s[n]), x);
        var i :| 0 <= i < n && Has(s[..n][i], x);
        assert InOrder(s, i, n);
      }
      DisjointSize(SetOf(s[..n]), last);
    }
  }

  // ----- what the tree library does to the ranges in order -----------------------------------------------

  function Changed(s: seq<Range>, r: Range, r': Range): seq<Range> {
    if s == [] then [] else if s[0] == r then [r'] + s[1..] else [s[0]] + Changed(s[1..], r, r')
  }

  function Erased(s: seq<Range>, r: Range): seq<Range> {
    if s == [] then [] else if s[0] == r then s[1..] else [s[0]] + Erased(s[1..], r)
  }

  function Inserted(s: seq<Range>, r: Range): seq<Range> {
    if s == [] || r.low < s[0].low then [r] + s else [s[0]] + Inserted(s[1..], r)
  }

  lemma {:induction false} ChangedAt(s: seq<Range>, i: nat, r': Range)
    requires Apart(s) && i < |s|
    ensures Changed(s, s[i], r') == s[i := r']
    decreases |s|
  {
    if i > 0 {
      assert InOrder(s, 0, i);
      TailApart(s);
      ChangedAt(s[1..], i - 1, r');
      assert [s[0]] + s[1..][i - 1 := r'] == s[i := r'];
    } else {
      assert [r'] + s[1..] == s[0 := r'];
    }
  }

  lemma {:induction false} ErasedAt(s: seq<Range>, i: nat)
    requires Apart(s) && i < |s|
    ensures Erased(s, s[i]) == s[..i] + s[i + 1..]
    decreases |s|
  {
    if i > 0 {
      assert InOrder(s, 0, i);
      TailApart(s);
      ErasedAt(s[1..], i - 1);
      assert [s[0]] + s[1..][..i - 1] == s[..i];
    }
  }

  lemma {:induction false} InsertedAt(s: seq<Range>, r: Range, k: nat)
    requires Apart(s) && SlotAt(s, r.low, r.high, k) && r.low <= r.high
    ensures Inserted(s, r) == s[..k] + [r] + s[k..]
    decreases |s|
  {
    if k == 0 {
      assert s[..0] == [] && s[0..] == s;
    } else {
      var rest := s[1..];
      assert s[0].low <= s[0].high < r.low;
      TailApart(s);
      assert SlotAt(rest, r.low, r.high, k - 1) by {
        assert forall x :: 0 <= x < |rest| ==> rest[x] == s[x + 1];
      }
      InsertedAt(rest, r, k - 1);
      hide Apart, SlotAt;
      assert [s[0]] + rest[..k - 1] == s[..k] && rest[k - 1..] == s[k..];
      assert Inserted(s, r) == [s[0]] + Inserted(rest, r);
    }
  }

  lemma SpacedApart(s: seq<Range>)
    requires Spaced(s, 0)
    ensures Apart(s)
  {
    forall i, j | 0 <= i < j < |s| ensures InOrder(s, i, j) {
      assert Gap(s, i, j, 0);
    }
  }

  lemma MaximalApart(s: seq<Range>)
    requires Maximal(s)
    ensures Apart(s) && Spaced(s, 0)
  {
    forall i, j | 0 <= i < j < |s| ensures InOrder(s, i, j) && Gap(s, i, j, 0) {
      assert Gap(s, i, j, 1);
    }
  }

  /** Some tree with these ranges; the caller may not rely on its shape. */
  method Rebalance(s: seq<Range>) returns (t: Tree)
    ensures Inorder(t) == s
  {
    t := Spine(s);
  }

  // ----- one range comes, goes or changes -------------------------------------------------------------------

  lemma TotalSplit(s: seq<Range>, i: nat)
    requires i < |s|
    ensures Total(s) == Total(s[..i]) + Count(s[i]) + Total(s[i + 1..])
  {
    assert s == s[..i] + [s[i]] + s[i + 1..];
    TotalConcat(s[..i] + [s[i]], s[i + 1..]);
    TotalConcat(s[..i], [s[i]]);
    TotalOne(s[i]);
  }

  lemma EraseRange(s: seq<Range>, i: nat, g: nat)
    requires Spaced(s, g) && DistinctIds(s) && i < |s|
    ensures var t := s[..i] + s[i + 1..];
            && Spaced(t, g) && DistinctIds(t) && Total(t) + Count(s[i]) == Total(s)
            && forall x: nat :: Holds(t, x) <==> Holds(s, x) && !Has(s[i], x)
  {
    var t := s[..i] + s[i + 1..];
    TotalSplit(s, i);
    TotalConcat(s[..i], s[i + 1..]);
    forall a, b | 0 <= a < b < |t| ensures Gap(t, a, b, g) && Differ(t, a, b) {
      var a', b' := if a < i then a else a + 1, if b < i then b else b + 1;
      assert t[a] == s[a'] && t[b] == s[b'];
      assert Gap(s, a', b', g) && Differ(s, a', b');
    }
    forall x: nat ensures Holds(t, x) <==> Holds(s, x) && !Has(s[i], x) {
      HoldsErased(s, i, x, g);
    }
  }

  lemma HoldsErased(s: seq<Range>, i: nat, x: nat, g: nat)
    requires Spaced(s, g) && i < |s|
    ensures Holds(s[..i] + s[i + 1..], x) <==> Holds(s, x) && !Has(s[i], x)
  {
    var t := s[..i] + s[i + 1..];
    if Holds(t, x) {
      var j :| 0 <= j < |t| && Has(t[j], x);
      var y := if j < i then j else j + 1;
      assert Has(s[y], x);
      assert y < i ==> Gap(s, y, i, g);
      assert i < y ==> Gap(s, i, y, g);
    }
    if Holds(s, x) && !Has(s[i], x) {
      var j :| 0 <= j < |s| && Has(s[j], x);
      assert Has(t[if j < i then j else j - 1], x);
    }
  }

  /** The range keeps its place when it changes. */
  ghost predicate FitsAt(s: seq<Range>, i: nat, r: Range, g: nat) {
    && i < |s| && r.id == s[i].id && r.low <= r.high
    && (i > 0 ==> s[i - 1].high + g < r.low) && (i + 1 < |s| ==> r.high + g < s[i + 1].low)
  }

  lemma ChangeRange(s: seq<Range>, i: nat, r: Range, g: nat)
    requires Spaced(s, g) && DistinctIds(s) && FitsAt(s, i, r, g)
    ensures var t := s[i := r];
            Spaced(t, g) && DistinctIds(t) && Total(t) + Count(s[i]) == Total(s) + Count(r)
  {
    var t := s[i := r];
    TotalSplit(s, i);
    TotalSplit(t, i);
    assert t[..i] == s[..i] && t[i + 1..] == s[i + 1..];
    forall a, b | 0 <= a < b < |t| ensures Gap(t, a, b, g) && Differ(t, a, b) {
      assert Gap(s, a, b, g) && Differ(s, a, b);
      if b == i && a < i - 1 {
        assert Gap(s, a, i - 1, g);
      } else if a == i && b > i + 1 {
        assert Gap(s, i + 1, b, g);
      }
    }
  }

  lemma HoldsChanged(s: seq<Range>, i: nat, r: Range, x: nat, g: nat)
    requires Spaced(s, g) && i < |s|
    ensures Holds(s[i := r], x) <==> (Holds(s, x) && !Has(s[i], x)) || Has(r, x)
  {
    var t := s[i := r];
    if Holds(t, x) {
      var j :| 0 <= j < |t| && Has(t[j], x);
      if j != i {
        assert Has(s[j], x);
        assert j < i ==> Gap(s, j, i, g);
        assert i < j ==> Gap(s, i, j, g);
      }
    }
    if Has(r, x) {
      assert Has(t[i], x);
    } else if Holds(s, x) && !Has(s[i], x) {
      var j :| 0 <= j < |s| && Has(s[j], x);
      assert Has(t[j], x);
    }
  }

  lemma InsertRange(s: seq<Range>, k: nat, r: Range, g: nat)
    requires g <= 1 && Spaced(s, g) && DistinctIds(s) && k <= |s| && SlotAt(s, r.low, r.high, k) && r.low <= r.high
    requires g == 1 ==> (k > 0 ==> r.low != s[k - 1].high + 1) && (k < |s| ==> r.high + 1 != s[k].low)
    requires !Live(s, r.id)
    ensures var t := s[..k] + [r] + s[k..];
            && Spaced(t, g) && DistinctIds(t) && Total(t) == Total(s) + Count(r)
            && forall x: nat :: Holds(t, x) <==> Holds(s, x) || Has(r, x)
  {
    TotalInserted(s, k, r);
    InsertedSpaced(s, k, r, g);
    hide *;
    forall x: nat ensures Holds(s[..k] + [r] + s[k..], x) <==> Holds(s, x) || Has(r, x) {
      HoldsInserted(s, k, r, x);
    }
  }

  lemma InsertedSpaced(s: seq<Range>, k: nat, r: Range, g: nat)
    requires g <= 1 && Spaced(s, g) && DistinctIds(s) && k <= |s| && SlotAt(s, r.low, r.high, k) && r.low <= r.high
    requires g == 1 ==> (k > 0 ==> r.low != s[k - 1].high + 1) && (k < |s| ==> r.high + 1 != s[k].low)
    requires !Live(s, r.id)
    ensures var t := s[..k] + [r] + s[k..]; Spaced(t, g) && DistinctIds(t)
  {
    hide SlotAt, Live;
    var t := s[..k] + [r] + s[k..];
    forall a, b | 0 <= a < b < |t| ensures Gap(t, a, b, g) && Differ(t, a, b) {
      GapInserted(s, k, r, a, b, g);
    }
    forall a | 0 <= a < |t| ensures t[a].low <= t[a].high {
      assert t[a] == if a < k then s[a] else if a == k then r else s[a - 1];
    }
  }

  lemma TotalInserted(s: seq<Range>, k: nat, r: Range)
    requires k <= |s|
    ensures Total(s[..k] + [r] + s[k..]) == Total(s) + Count(r)
  {
    hide Total;
    var t := s[..k] + [r] + s[k..];
    assert s == s[..k] + s[k..];
    TotalConcat(s[..k], s[k..]);
    TotalSplit(t, k);
    assert t[..k] == s[..k] && t[k + 1..] == s[k..];
  }

  lemma GapInserted(s: seq<Range>, k: nat, r: Range, a: nat, b: nat, g: nat)
    requires g <= 1 && Spaced(s, g) && DistinctIds(s) && SlotAt(s, r.low, r.high, k) && r.low <= r.high
             && !Live(s, r.id)
    requires g == 1 ==> (k > 0 ==> r.low != s[k - 1].high + 1) && (k < |s| ==> r.high + 1 != s[k].low)
    requires a < b <= |s|
    ensures var t := s[..k] + [r] + s[k..]; Gap(t, a, b, g) && Differ(t, a, b)
  {
    var t := s[..k] + [r] + s[k..];
    if b == k {
      assert t[a] == s[a] && t[b] == r;
      assert a < k - 1 ==> Gap(s, a, k - 1, g);
    } else if a == k {
      assert t[a] == r && t[b] == s[b - 1];
      assert b > k + 1 ==> Gap(s, k, b - 1, g);
    } else {
      var a', b' := if a < k then a else a - 1, if b < k then b else b - 1;
      assert t[a] == s[a'] && t[b] == s[b'];
      assert Gap(s, a', b', g) && Differ(s, a', b');
    }
  }

  lemma HoldsInserted(s: seq<Range>, k: nat, r: Range, x: nat)
    requires k <= |s|
    ensures Holds(s[..k] + [r] + s[k..], x) <==> Holds(s, x) || Has(r, x)
  {
    var t := s[..k] + [r] + s[k..];
    if Holds(t, x) {
      var i :| 0 <= i < |t| && Has(t[i], x);
      assert i < k ==> Has(s[i], x);
      assert i > k ==> Has(s[i - 1], x);
    }
    if Has(r, x) {
      assert Has(t[k], x);
    } else if Holds(s, x) {
      var i :| 0 <= i < |s| && Has(s[i], x);
      assert Has(t[if i < k then i else i + 1], x);
    }
  }

  // ----- freeing and allocating: the values ------------------------------------------------------------------

  /** The list `t` is `s` with the blocks low .. high added; maximal runs stay maximal. */
  ghost predicate Added(s: seq<Range>, t: seq<Range>, low: nat, high: nat) {
    && Spaced(t, 0) && (Maximal(s) ==> Maximal(t)) && DistinctIds(t)
    && low <= high && Total(t) == Total(s) + (high - low + 1)
    && forall x: nat :: Holds(t, x) <==> Holds(s, x) || low <= x <= high
  }

  /** The list `t` is `s` with the blocks low .. high taken out; maximal runs stay maximal. */
  ghost predicate Taken(s: seq<Range>, t: seq<Range>, low: nat, high: nat) {
    && Spaced(t, 0) && (Maximal(s) ==> Maximal(t)) && DistinctIds(t)
    && low <= high && Total(t) + (high - low + 1) == Total(s)
    && (forall x: nat :: Holds(t, x) <==> Holds(s, x) && !(low <= x <= high))
    && (forall x: nat :: low <= x <= high ==> Holds(s, x))
  }

  /** Two ranges and the hole between them become one, whatever the spacing. */
  lemma JoinRanges(s: seq<Range>, k: nat, low: nat, high: nat, g: nat)
    requires Spaced(s, g) && DistinctIds(s) && low <= high
    requires 0 < k < |s| && low == s[k - 1].high + 1 && high + 1 == s[k].low
    ensures var e := s[..k] + s[k + 1..];
            var t := e[k - 1 := s[k - 1].(high := s[k].high)];
            Spaced(e, g) && Spaced(t, g) && DistinctIds(t) && Total(t) == Total(s) + (high - low + 1)
  {
    hide Total;
    var merged, e := s[k - 1].(high := s[k].high), s[..k] + s[k + 1..];
    var t := e[k - 1 := merged];
    EraseRange(s, k, g);
    assert e[k - 1] == s[k - 1] && (k < |e| ==> e[k] == s[k + 1]) && (k > 1 ==> e[k - 2] == s[k - 2]);
    assert k + 1 < |s| ==> Gap(s, k, k + 1, g);
    assert k > 1 ==> Gap(s, k - 2, k - 1, g);
    assert FitsAt(e, k - 1, merged, g);
    ChangeRange(e, k - 1, merged, g);
    assert Count(merged) == Count(s[k - 1]) + (high - low + 1) + Count(s[k]);
  }

  lemma FillHole(s: seq<Range>, k: nat, low: nat, high: nat)
    requires Spaced(s, 0) && DistinctIds(s) && low <= high
    requires 0 < k < |s| && low == s[k - 1].high + 1 && high + 1 == s[k].low
    ensures Added(s, (s[..k] + s[k + 1..])[k - 1 := s[k - 1].(high := s[k].high)], low, high)
  {
    hide Total;
    var merged, e := s[k - 1].(high := s[k].high), s[..k] + s[k + 1..];
    var t := e[k - 1 := merged];
    JoinRanges(s, k, low, high, 0);
    if Maximal(s) {
      JoinRanges(s, k, low, high, 1);
    }
    assert e[k - 1] == s[k - 1];
    forall x: nat ensures Holds(t, x) <==> Holds(s, x) || low <= x <= high {
      HoldsErased(s, k, x, 0);
      HoldsChanged(e, k - 1, merged, x, 0);
      assert Has(merged, x) <==> Has(s[k - 1], x) || low <= x <= high || Has(s[k], x);
      assert Has(s[k], x) ==> Holds(s, x);
      assert Has(s[k - 1], x) ==> Holds(s, x);
    }
  }

  /** A range grows by the run before it or behind it. */
  lemma GrowRange(s: seq<Range>, i: nat, r: Range, low: nat, high: nat)
    requires Spaced(s, 0) && DistinctIds(s) && FitsAt(s, i, r, 0) && (Maximal(s) ==> FitsAt(s, i, r, 1)) && low <= high
    requires || (r == s[i].(high := high) && low == s[i].high + 1)
             || (r == s[i].(low := low) && high + 1 == s[i].low)
    ensures Added(s, s[i := r], low, high)
  {
    ChangeRange(s, i, r, 0);
    if Maximal(s) {
      ChangeRange(s, i, r, 1);
    }
    forall x: nat ensures Holds(s[i := r], x) <==> Holds(s, x) || low <= x <= high {
      HoldsChanged(s, i, r, x, 0);
      assert Has(r, x) <==> Has(s[i], x) || low <= x <= high;
      assert Has(s[i], x) ==> Holds(s, x);
    }
  }

  lemma TakeRange(s: seq<Range>, i: nat)
    requires Spaced(s, 0) && DistinctIds(s) && i < |s|
    ensures Taken(s, s[..i] + s[i + 1..], s[i].low, s[i].high)
  {
    EraseRange(s, i, 0);
    if Maximal(s) {
      EraseRange(s, i, 1);
    }
    forall x: nat | s[i].low <= x <= s[i].high ensures Holds(s, x) {
      assert Has(s[i], x);
    }
  }

  lemma TakePart(s: seq<Range>, i: nat, num: nat)
    requires Spaced(s, 0) && DistinctIds(s) && i < |s| && 0 < num < Count(s[i])
    ensures Taken(s, s[i := s[i].(low := s[i].low + num)], s[i].low, s[i].low + num - 1)
  {
    var r := s[i].(low := s[i].low + num);
    assert (i > 0 ==> Gap(s, i - 1, i, 0)) && (i + 1 < |s| ==> Gap(s, i, i + 1, 0));
    ChangeRange(s, i, r, 0);
    if Maximal(s) {
      assert (i > 0 ==> Gap(s, i - 1, i, 1)) && (i + 1 < |s| ==> Gap(s, i, i + 1, 1));
      ChangeRange(s, i, r, 1);
    }
    forall x: nat
      ensures Holds(s[i := r], x) <==> Holds(s, x) && !(s[i].low <= x <= s[i].low + num - 1)
      ensures s[i].low <= x <= s[i].low + num - 1 ==> Holds(s, x)
    {
      HoldsChanged(s, i, r, x, 0);
      if Has(s[i], x) {
        assert Holds(s, x);
      }
    }
  }

  // ----- one list ----------------------------------------------------------------------------------------

  function Find(s: seq<Range>, id: nat): Option<Range> {
    if s == [] then None else if s[0].id == id then Some(s[0]) else Find(s[1..], id)
  }

  ghost predicate Live(s: seq<Range>, id: nat) {
    exists i :: 0 <= i < |s| && s[i].id == id
  }

  lemma {:induction false} FindAt(s: seq<Range>, i: nat)
    requires DistinctIds(s) && i < |s|
    ensures Find(s, s[i].id) == Some(s[i])
    decreases |s|
  {
    if i > 0 {
      assert Differ(s, 0, i);
      forall a, b | 0 <= a < b < |s| - 1 ensures Differ(s[1..], a, b) {
        assert Differ(s, a + 1, b + 1);
      }
      FindAt(s[1..], i - 1);
    }
  }

  lemma LiveAt(s: seq<Range>, id: nat) returns (i: nat)
    requires Live(s, id)
    ensures i < |s| && s[i].id == id
  {
    i :| 0 <= i < |s| && s[i].id == id;
  }

  /** Nodes stay alive when another one changes, goes or comes. */
  lemma LiveAfterMerge(s: seq<Range>, k: nat, merged: Range, p: Option<nat>)
    requires 0 < k < |s| && merged.id == s[k - 1].id && (p.Some? ==> Live(s, p.value) && p.value != s[k].id)
    ensures p.Some? ==> Live((s[..k] + s[k + 1..])[k - 1 := merged], p.value)
  {
    var t := (s[..k] + s[k + 1..])[k - 1 := merged];
    if p.Some? {
      var i := LiveAt(s, p.value);
      assert t[if i < k then i else i - 1].id == p.value;
    }
  }

  lemma LiveAfterChange(s: seq<Range>, i: nat, r: Range, p: Option<nat>)
    requires i < |s| && r.id == s[i].id && (p.Some? ==> Live(s, p.value))
    ensures p.Some? ==> Live(s[i := r], p.value)
  {
    if p.Some? {
      var j := LiveAt(s, p.value);
      assert s[i := r][j].id == p.value;
    }
  }

  lemma LiveAfterInsert(s: seq<Range>, k: nat, r: Range, p: Option<nat>)
    requires k <= |s| && (p.Some? ==> Live(s, p.value))
    ensures p.Some? ==> Live(s[..k] + [r] + s[k..], p.value)
  {
    if p.Some? {
      var i := LiveAt(s, p.value);
      assert (s[..k] + [r] + s[k..])[if i < k then i else i + 1].id == p.value;
    }
  }

  class FreeList {
    var tree: Tree
    /** The identity of the first node, and of the node to allocate from. */
    var first: Option<nat>
    var pNode: Option<nat>
    var numFree: nat
    var numNodes: nat

    ghost function Ranges(): seq<Range>
      reads this`tree
    {
      Inorder(tree)
    }

    ghost predicate IsFree(x: nat)
      reads this`tree
    {
      Holds(Ranges(), x)
    }

    /** The first node is the one remembered. */
    ghost predicate FirstOk()
      reads this`tree, this`first
    {
      first == if Ranges() == [] then None else Some(Ranges()[0].id)
    }

    /** The ranges are apart and in order, both counters are right, the allocation
        pointer is null or a node, and unless it is null, the first node is right.
        (After a mount the pointer is null, and the first node may be another one.) */
    ghost predicate Valid()
      reads this
    {
      var s := Ranges();
      && Spaced(s, 0) && DistinctIds(s)
      && numFree == Total(s) && numNodes == |s|
      && (pNode.Some? ==> Live(s, pNode.value) && FirstOk())
    }

    /** A list with one range. */
    constructor (low: nat, high: nat)
      requires low <= high
      ensures Valid() && FirstOk() && Maximal(Ranges()) && numFree == high - low + 1
      ensures forall x: nat :: IsFree(x) <==> low <= x <= high
    {
      var r := Range(0, low, high);
      tree, first, pNode, numFree, numNodes := Node(Leaf, r, Leaf), Some(0), Some(0), high - low + 1, 1;
      new;
      ghost var s := Ranges();
      assert Inorder(Leaf) == [] && s == [] + [r] + [];
      TotalOne(r);
      assert s[0].id == 0;
      forall x: nat ensures IsFree(x) <==> low <= x <= high {
        assert Has(s[0], x) <==> low <= x <= high;
      }
    }

    /** A list without ranges. */
    constructor Empty()
      ensures Valid() && FirstOk() && Ranges() == [] && pNode.None? && numNodes == 0 && numFree == 0
      ensures forall x: nat :: !IsFree(x)
    {
      tree, first, pNode, numFree, numNodes := Leaf, None, None, 0, 0;
    }

    /** Moves the pointer off a node that is about to go. */
    method MovePointer(r: Range, ghost i: nat)
      requires Valid() && 0 < i < |Ranges()| && Ranges()[i] == r
      modifies this`pNode
      ensures pNode.Some? ==> old(pNode).Some? && Live(Ranges(), pNode.value) && pNode.value != r.id
      ensures pNode == if old(pNode) == Some(r.id) then NextPointer(Ranges(), i) else old(pNode)
    {
      ghost var s := Ranges();
      SpacedApart(s);
      if pNode == Some(r.id) {
        AfterAt(s, i);
        var next := After(Inorder(tree), r);
        if next.Some? {
          pNode := Some(next.value.id);
          assert s[i + 1].id == pNode.value && Differ(s, i, i + 1);
        } else {
          pNode := first;
          assert s[0].id == pNode.value && Differ(s, 0, i);
        }
      }
    }

    /** The run fills the hole between two nodes: the second one goes. */
    method JoinNodes(prev: Range, next: Range, ghost k: nat, ghost low: nat, ghost high: nat)
      requires Valid() && low <= high && 0 < k < |Ranges()| && prev == Ranges()[k - 1] && next == Ranges()[k]
      requires low == prev.high + 1 && high + 1 == next.low
      modifies this`tree, this`pNode, this`numNodes
      ensures pNode == if old(pNode) == Some(next.id) then NextPointer(old(Ranges()), k) else old(pNode)
      ensures Added(old(Ranges()), Ranges(), low, high) && numNodes == |Ranges()| && Ranges() != []
      ensures (old(FirstOk()) ==> FirstOk()) && (pNode.Some? ==> Live(Ranges(), pNode.value) && FirstOk())
    {
      hide Inorder, Maximal, Spaced, DistinctIds, Total, Holds, Live, Erased, Changed;
      ghost var s := Ranges();
      MovePointer(next, k);
      SpacedApart(s);
      ErasedAt(s, k);
      ghost var e := s[..k] + s[k + 1..];
      EraseRange(s, k, 0);
      SpacedApart(e);
      var merged := prev.(high := next.high);
      assert e[k - 1] == prev;
      ChangedAt(e, k - 1, merged);
      FillHole(s, k, low, high);
      LiveAfterMerge(s, k, merged, pNode);
      tree := Rebalance(Changed(Erased(Inorder(tree), next), prev, merged));
      numNodes := numNodes - 1;
      assert Ranges() == e[k - 1 := merged];
    }

    /** A node grows by the run. */
    method GrowNode(r: Range, grown: Range, ghost i: nat, ghost low: nat, ghost high: nat)
      requires Valid() && low <= high && i < |Ranges()| && r == Ranges()[i] && grown.id == r.id
      requires || (grown == r.(high := high) && low == r.high + 1)
               || (grown == r.(low := low) && high + 1 == r.low)
      modifies this`tree
      ensures FitsAt(old(Ranges()), i, grown, 0) && (Maximal(old(Ranges())) ==> FitsAt(old(Ranges()), i, grown, 1)) ==>
                Added(old(Ranges()), Ranges(), low, high)
      ensures numNodes == |Ranges()| && Ranges() != []
      ensures (old(FirstOk()) ==> FirstOk()) && (pNode.Some? ==> Live(Ranges(), pNode.value) && FirstOk())
    {
      hide Inorder, Maximal, Spaced, DistinctIds, Total, Holds, Live, Changed;
      ghost var s := Ranges();
      SpacedApart(s);
      ChangedAt(s, i, grown);
      if FitsAt(s, i, grown, 0) && (Maximal(s) ==> FitsAt(s, i, grown, 1)) {
        GrowRange(s, i, grown, low, high);
      }
      LiveAfterChange(s, i, grown, pNode);
      tree := Rebalance(Changed(Inorder(tree), r, grown));
      assert Ranges() == s[i := grown];
    }

    /** A new node for the run. */
    method AddNode(r: Range, noPrev: bool, ghost k: nat)
      requires Valid() && k <= |Ranges()| && r.low <= r.high && !Live(Ranges(), r.id)
      requires (k > 0 ==> r.low != Ranges()[k - 1].high + 1) && (k < |Ranges()| ==> r.high + 1 != Ranges()[k].low)
      requires noPrev <==> k == 0
      modifies this`tree, this`first, this`numNodes
      ensures old(SlotAt(Ranges(), r.low, r.high, k)) ==>
                && Added(old(Ranges()), Ranges(), r.low, r.high) && numNodes == |Ranges()| && Ranges() != []
                && (old(FirstOk()) ==> FirstOk()) && (pNode.Some? ==> Live(Ranges(), pNode.value) && FirstOk())
    {
      hide Inorder, Maximal, Spaced, DistinctIds, Total, Holds, Live, Inserted;
      ghost var s := Ranges();
      SpacedApart(s);
      tree := Rebalance(Inserted(Inorder(tree), r));
      if SlotAt(s, r.low, r.high, k) {
        InsertedAt(s, r, k);
        AddRange(s, k, r);
        LiveAfterInsert(s, k, r, pNode);
        ghost var t := s[..k] + [r] + s[k..];
        assert Ranges() == t && |t| == |s| + 1 && t[0] == if k == 0 then r else s[0];
      }
      if noPrev {
        first := Some(r.id);
      }
      numNodes := numNodes + 1;
    }

    /** Gives a run back.  A run that meets no free range is added and merged with its
        neighbours; a run that is refused meets one, and nothing changes. */
    method FreeBlocks(blocknr: nat, num: nat, id: nat) returns (ok: bool)
      requires Valid() && 0 < num && !Live(Ranges(), id)
      modifies this
      ensures !ok ==> Valid() && Ranges() == old(Ranges()) && !Misses(old(Ranges()), blocknr, blocknr + num - 1)
      ensures !ok && old(FirstOk()) ==> FirstOk()
      ensures Misses(old(Ranges()), blocknr, blocknr + num - 1) ==>
                && ok && Valid() && numFree == old(numFree) + num && (old(FirstOk()) ==> FirstOk())
                && Added(old(Ranges()), Ranges(), blocknr, blocknr + num - 1)
                && PointerKept(old(Ranges()), blocknr, blocknr + num - 1, old(pNode), pNode)
    {
      hide Inorder, Total, Live, Gap, Differ, Holds, SlotAt;
      var low, high := blocknr, blocknr + num - 1;
      ghost var s := Ranges();
      SpacedApart(s);
      var prev, next;
      ghost var k;
      ok, prev, next, k := FindFreeSlot(tree, low, high);
      if !ok {
        return;
      }
      if Misses(s, low, high) {
        SlotGaps(s, low, high, k, 0);
        if Maximal(s) {
          SlotGaps(s, low, high, k, 1);
        }
        PointerAt(s, low, high, old(pNode), k);
      }
      if prev.Some? && next.Some? && low == prev.value.high + 1 && high + 1 == next.value.low {
        JoinNodes(prev.value, next.value, k, low, high);
      } else if prev.Some? && low == prev.value.high + 1 {
        GrowNode(prev.value, prev.value.(high := prev.value.high + num), k - 1, low, high);
      } else if next.Some? && high + 1 == next.value.low {
        GrowNode(next.value, next.value.(low := next.value.low - num), k, low, high);
      } else {
        AddNode(Range(id, low, high), prev.None?, k);
      }
      numFree := numFree + num;
      if Misses(s, low, high) {
        AddedBlocks(s, low, high);
      }
    }

    /** Puts a range read from media into the list; the first one read is remembered as
        the first. */
    method LoadNode(r: Range)
      requires Valid() && pNode.None? && !Live(Ranges(), r.id) && r.low <= r.high && Misses(Ranges(), r.low, r.high)
      modifies this
      ensures Valid() && pNode.None? && numFree == old(numFree) + Count(r)
      ensures first == if old(Ranges()) == [] then Some(r.id) else old(first)
      ensures exists k :: 0 <= k <= |old(Ranges())| && Ranges() == old(Ranges())[..k] + [r] + old(Ranges())[k..]
      ensures forall x: nat :: Holds(Ranges(), x) <==> Holds(old(Ranges()), x) || Has(r, x)
    {
      hide Inorder, Total, Live, Gap, Differ, Holds, Inserted, Spaced, DistinctIds;
      ghost var s := Ranges();
      SpacedApart(s);
      ghost var k := SlotOf(s, r.low, r.high);
      InsertedAt(s, r, k);
      InsertRange(s, k, r, 0);
      tree := Rebalance(Inserted(Inorder(tree), r));
      numNodes := numNodes + 1;
      if numNodes == 1 {
        first := Some(r.id);
      }
      numFree := numFree + Count(r);
    }

    /** Points at the first node again. */
    method ResetPointers()
      requires Valid() && numFree > 0
      modifies this`first, this`pNode
      ensures Valid() && pNode.Some? && FirstOk() && Ranges() != [] && pNode.value == Ranges()[0].id
    {
      ghost var s := Ranges();
      assert s != [];
      var nodes := Inorder(tree);
      first := Some(nodes[0].id);
      pNode := first;
      assert s[0].id == pNode.value;
    }

    // ----- allocating ------------------------------------------------------------------------------------

    /** Takes the whole node. */
    method TakeNode(curr: Range, ghost i: nat)
      requires Valid() && FirstOk() && i < |Ranges()| && curr == Ranges()[i]
      modifies this`tree, this`first, this`pNode, this`numNodes
      ensures Taken(old(Ranges()), Ranges(), curr.low, curr.high) && numNodes == |Ranges()| < old(numNodes)
      ensures FirstOk() && (pNode.Some? ==> Live(Ranges(), pNode.value)) && pNode == NextPointer(old(Ranges()), i)
    {
      hide Inorder, Maximal, Spaced, Total, Holds, Live, Erased, After;
      ghost var s := Ranges();
      SpacedApart(s);
      AfterAt(s, i);
      var next := After(Inorder(tree), curr);
      if first == Some(curr.id) {
        OnlyFirst(s, i);
        first := if next.Some? then Some(next.value.id) else None;
        pNode := first;
      } else if next.Some? {
        pNode := Some(next.value.id);
      } else {
        pNode := first;
      }
      ErasedAt(s, i);
      TakeRange(s, i);
      tree := Rebalance(Erased(Inorder(tree), curr));
      numNodes := numNodes - 1;
      PointerAfterTake(s, i, pNode);
    }

    /** The node to allocate from: the one at the pointer, or for a superpage the first
        from there on that is large enough. */
    method PickNode(num: nat, superpage: bool) returns (temp: Option<Range>, ghost i: nat)
      requires Valid() && 0 < num && pNode.Some?
      ensures temp.None? ==> superpage && forall x: nat :: PointedFrom(Ranges(), pNode.value, x) ==>
              Count(Ranges()[x]) < num
      ensures temp.Some? ==>
                && i < |Ranges()| && temp.value == Ranges()[i] && PointedFrom(Ranges(), pNode.value, i)
                && (superpage ==> Count(temp.value) >= num) && Picks(Ranges(), pNode.value, num, superpage, i)
    {
      hide Inorder, Total, Holds, Find, After, Maximal, Spaced;
      ghost var s := Ranges();
      SpacedApart(s);
      i := LiveAt(s, pNode.value);
      FindAt(s, i);
      temp := Find(Inorder(tree), pNode.value);
      ghost var i0 := i;
      while temp.Some? && superpage && num > Count(temp.value)
        invariant i0 <= i <= |s| && (if i < |s| then temp == Some(s[i]) else temp.None?)
        invariant forall x :: i0 <= x < i ==> Count(s[x]) < num
        invariant i > i0 ==> superpage
        decreases |s| - i
      {
        AfterAt(s, i);
        temp := After(Inorder(tree), temp.value);
        i := i + 1;
      }
      assert temp.Some? ==> PicksFrom(s, pNode.value, num, superpage, i, i0);
      forall x: nat | PointedFrom(s, pNode.value, x) ensures i0 <= x {
        var j :| 0 <= j <= x && s[j].id == s[i0].id;
        assert j < i0 ==> Differ(s, j, i0);
      }
    }

    /** Takes the first `num` blocks of a node; the pointer stays at it. */
    method TakeFromNode(curr: Range, num: nat, ghost i: nat)
      requires Valid() && FirstOk() && i < |Ranges()| && curr == Ranges()[i] && 0 < num < Count(curr)
      modifies this`tree, this`pNode
      ensures Taken(old(Ranges()), Ranges(), curr.low, curr.low + num - 1) && numNodes == |Ranges()| && Ranges() != []
      ensures (old(FirstOk()) ==> FirstOk()) && (pNode.Some? ==> Live(Ranges(), pNode.value) && FirstOk())
      ensures pNode == Some(curr.id)
    {
      hide Inorder, Maximal, Spaced, DistinctIds, Total, Holds, Changed;
      ghost var s := Ranges();
      SpacedApart(s);
      var rest := curr.(low := curr.low + num);
      TakePart(s, i, num);
      ChangedAt(s, i, rest);
      assert s[i := rest][i].id == curr.id;
      tree := Rebalance(Changed(Inorder(tree), curr, rest));
      pNode := Some(curr.id);
    }

    /** Allocates from the node picked: all of it if it has no more than `num` blocks,
        else its first `num`.  A request for a superpage gets all it asks for or
        nothing; it fails if and only if no node from the pointer to the end of the
        list is large enough. */
    method AllocBlocks(num: nat, superpage: bool) returns (n: nat, blocknr: nat)
      requires Valid() && 0 < num && pNode.Some?
      modifies this
      ensures Valid() && FirstOk()
      ensures n <= num && (n == 0 ==> superpage && Ranges() == old(Ranges()) && numFree == old(numFree))
      ensures superpage && n > 0 ==> n == num
      ensures superpage ==>
                (n == 0 <==> forall x: nat :: PointedFrom(old(Ranges()), old(pNode).value, x) ==>
                    Count(old(Ranges())[x]) < num)
      ensures n > 0 ==> numFree + n == old(numFree) && Taken(old(Ranges()), Ranges(), blocknr, blocknr + n - 1)
      ensures n > 0 ==> TookAt(old(Ranges()), old(pNode).value, num, superpage, blocknr, n, pNode)
      ensures n == 0 ==> pNode == old(pNode)
      ensures numNodes <= old(numNodes)
    {
      hide Inorder, Total, Live, Gap, Differ, Holds, DistinctIds, Picks;
      ghost var s := Ranges();
      ghost var i;
      var temp;
      n, blocknr := 0, 0;
      temp, i := PickNode(num, superpage);
      if temp.None? {
        return;
      }
      var curr := temp.value;
      blocknr := curr.low;
      if num >= Count(curr) {
        TakeNode(curr, i);
        n := Count(curr);
      } else {
        TakeFromNode(curr, num, i);
        n := num;
      }
      TakenBlocks(s, curr.low, curr.low + n - 1);
      numFree := numFree - n;
      assert TookFrom(s, old(pNode).value, num, superpage, blocknr, n, pNode, i);
    }

    /** Allocates 4K pages; the pointers are set again if they were lost. */
    method AllocPages(num: nat) returns (n: nat, blocknr: nat)
      requires Valid() && 0 < num <= numFree
      modifies this
      ensures Valid() && FirstOk() && 0 < n <= num && numFree + n == old(numFree) && numNodes <= old(numNodes)
      ensures Taken(old(Ranges()), Ranges(), blocknr, blocknr + n - 1)
      ensures old(Ranges()) != [] && TookAt(old(Ranges()), PointsAt(old(Ranges()), old(first), old(pNode)), num, false,
                                            blocknr, n, pNode)
    {
      hide Taken, PointedFrom, Count, Inorder, TookAt;
      NotEmpty();
      if first.None? || pNode.None? {
        ResetPointers();
      }
      n, blocknr := AllocBlocks(num, false);
    }

    lemma NotEmpty()
      requires Valid() && numFree > 0
      ensures Ranges() != []
    {
    }

    lemma TakenBlocks(s: seq<Range>, low: nat, high: nat)
      requires Taken(s, Ranges(), low, high)
      ensures Spaced(Ranges(), 0) && DistinctIds(Ranges()) && low <= high
              && Total(Ranges()) + (high - low + 1) == Total(s)
    {
    }

    lemma AddedBlocks(s: seq<Range>, low: nat, high: nat)
      requires Added(s, Ranges(), low, high)
      ensures Spaced(Ranges(), 0) && DistinctIds(Ranges()) && Total(Ranges()) == Total(s) + (high - low + 1)
    {
    }
  }

  /** The pointer stays where it is, unless its node is the upper neighbour that a run
      joins to the lower one: then it moves on. */
  ghost predicate PointerKept(s: seq<Range>, low: nat, high: nat, before: Option<nat>, now: Option<nat>) {
    forall k: nat :: SlotAt(s, low, high, k) ==> now == PointerIn(s, low, high, before, k)
  }

  ghost function PointerIn(s: seq<Range>, low: nat, high: nat, before: Option<nat>, k: nat): Option<nat> {
    if 0 < k < |s| && low == s[k - 1].high + 1 && high + 1 == s[k].low && before == Some(s[k].id) then NextPointer(s, k)
    else before
  }

  /** There is only one slot. */
  lemma PointerAt(s: seq<Range>, low: nat, high: nat, before: Option<nat>, k: nat)
    requires SlotAt(s, low, high, k) && low <= high && Spaced(s, 0)
    ensures PointerKept(s, low, high, before, PointerIn(s, low, high, before, k))
  {
    forall j: nat | SlotAt(s, low, high, j) ensures j == k {
      var m := if j < k then j else k;
      assert m < |s| ==> s[m].low <= s[m].high;
    }
  }

  /** Node i is the one to take from: the node at the pointer, or for a superpage the first
      from there on that is large enough. */
  ghost predicate Picks(s: seq<Range>, id: nat, num: nat, superpage: bool, i: nat) {
    exists j: nat :: PicksFrom(s, id, num, superpage, i, j)
  }

  ghost predicate PicksFrom(s: seq<Range>, id: nat, num: nat, superpage: bool, i: nat, j: nat) {
    && j <= i < |s| && s[j].id == id && (!superpage ==> i == j)
    && (superpage ==> Count(s[i]) >= num && forall x :: j <= x < i ==> Count(s[x]) < num)
  }

  /** Where the pointer stands when node i has been taken: at the next node, after the last
      one at the first again. */
  function NextPointer(s: seq<Range>, i: nat): Option<nat>
    requires i < |s|
  {
    if i + 1 < |s| then Some(s[i + 1].id) else if i > 0 then Some(s[0].id) else None
  }

  /** The run is the first min(num, size) blocks of node i; the pointer stays at the node,
      or moves on if nothing is left of it. */
  ghost predicate TookFrom(s: seq<Range>, id: nat, num: nat, superpage: bool, blocknr: nat, n: nat, pNode: Option<nat>,
                           i: nat) {
    && Picks(s, id, num, superpage, i) && i < |s| && blocknr == s[i].low
    && n == (if num < Count(s[i]) then num else Count(s[i]))
    && pNode == if num < Count(s[i]) then Some(s[i].id) else NextPointer(s, i)
  }

  ghost predicate TookAt(s: seq<Range>, id: nat, num: nat, superpage: bool, blocknr: nat, n: nat, pNode: Option<nat>) {
    exists i: nat :: TookFrom(s, id, num, superpage, blocknr, n, pNode, i)
  }

  ghost predicate TookNext(s: seq<Range>, first: Option<nat>, pointer: Option<nat>, num: nat, blocknr: nat, n: nat,
                           now: Option<nat>) {
    s != [] && TookAt(s, PointsAt(s, first, pointer), num, false, blocknr, n, now)
  }

  /** The node at the pointer; the first one if the pointers are lost. */
  function PointsAt(s: seq<Range>, first: Option<nat>, pNode: Option<nat>): nat
    requires s != []
  {
    if first.None? || pNode.None? then s[0].id else pNode.value
  }

  /** Node i is the one with the given identity, or comes after it. */
  ghost predicate PointedFrom(s: seq<Range>, id: nat, i: nat) {
    i < |s| && exists j :: 0 <= j <= i && s[j].id == id
  }

  /** Only the first node has the first identity. */
  lemma OnlyFirst(s: seq<Range>, i: nat)
    requires DistinctIds(s) && i < |s| && s[0].id == s[i].id
    ensures i == 0
  {
    assert i > 0 ==> Differ(s, 0, i);
  }

  lemma PointerAfterTake(s: seq<Range>, i: nat, p: Option<nat>)
    requires DistinctIds(s) && i < |s|
    requires p == if i + 1 < |s| then Some(s[i + 1].id) else if i > 0 then Some(s[0].id) else None
    ensures p.Some? ==> Live(s[..i] + s[i + 1..], p.value)
  {
    var t := s[..i] + s[i + 1..];
    if i + 1 < |s| {
      assert t[i].id == p.value;
    } else if i > 0 {
      assert t[0].id == p.value;
    }
  }

  /** What a run that fits into slot k leaves between its neighbours. */
  lemma SlotGaps(s: seq<Range>, low: nat, high: nat, k: nat, g: nat)
    requires Spaced(s, g) && g <= 1 && SlotAt(s, low, high, k) && low <= high
    ensures k <= |s|
    ensures k > 0 && low == s[k - 1].high + 1 && (k == |s| || high + 1 != s[k].low) ==>
              FitsAt(s, k - 1, s[k - 1].(high := high), g)
    ensures k < |s| && high + 1 == s[k].low && (k == 0 || low != s[k - 1].high + 1) ==>
              FitsAt(s, k, s[k].(low := low), g)
  {
    if k > 0 && low == s[k - 1].high + 1 {
      assert k > 1 ==> Gap(s, k - 2, k - 1, g);
    }
    if k < |s| && high + 1 == s[k].low {
      assert k + 1 < |s| ==> Gap(s, k, k + 1, g);
    }
  }

  /** Where a run that meets no range belongs. */
  lemma {:induction false} SlotOf(s: seq<Range>, low: nat, high: nat) returns (k: nat)
    requires Apart(s) && Misses(s, low, high) && low <= high
    ensures SlotAt(s, low, high, k)
    decreases |s|
  {
    if s == [] || high < s[|s| - 1].low {
      k := 0;
      if s != [] {
        var n := |s| - 1;
        forall i, j | 0 <= i < j < n ensures InOrder(s[..n], i, j) {
          assert InOrder(s, i, j);
        }
        k := SlotOf(s[..n], low, high);
      }
    } else {
      k := |s|;
      forall i | 0 <= i < |s| ensures s[i].high < low {
        assert i < |s| - 1 ==> InOrder(s, i, |s| - 1);
      }
    }
  }

  /** A new range that touches no other. */
  lemma AddRange(s: seq<Range>, k: nat, r: Range)
    requires Spaced(s, 0) && DistinctIds(s) && k <= |s| && SlotAt(s, r.low, r.high, k) && r.low <= r.high
    requires (k > 0 ==> r.low != s[k - 1].high + 1) && (k < |s| ==> r.high + 1 != s[k].low)
    requires !Live(s, r.id)
    ensures Added(s, s[..k] + [r] + s[k..], r.low, r.high)
  {
    InsertRange(s, k, r, 0);
    if Maximal(s) {
      InsertRange(s, k, r, 1);
    }
    hide Spaced, Maximal, DistinctIds;
  }

  // ----- all lists ---------------------------------------------------------------------------------------

  ghost predicate Separate(a: seq<Range>, b: seq<Range>) {
    forall x: nat :: Holds(a, x) ==> !Holds(b, x)
  }

  /** No block is in two lists, and block 0 is in none. */
  ghost predicate AllSeparate(all: seq<seq<Range>>) {
    && (forall i, j :: 0 <= i < j < |all| ==> Separate(all[i], all[j]))
    && (forall i :: 0 <= i < |all| ==> !Holds(all[i], 0))
  }

  /** The other lists stay apart from one that loses blocks. */
  lemma TakenSeparate(all: seq<seq<Range>>, c: nat, t: seq<Range>, low: nat, high: nat)
    requires AllSeparate(all) && c < |all| && Taken(all[c], t, low, high)
    ensures AllSeparate(all[c := t]) && low != 0
  {
    var after := all[c := t];
    forall i, j | 0 <= i < j < |after| ensures Separate(after[i], after[j]) {
      assert Separate(all[i], all[j]);
    }
    assert Holds(all[c], low);
  }

  lemma AddedHolds(s: seq<Range>, t: seq<Range>, low: nat, high: nat)
    requires Added(s, t, low, high)
    ensures forall x: nat :: Holds(t, x) <==> Holds(s, x) || low <= x <= high
  {
  }

  lemma NoneSeparate(all: seq<seq<Range>>)
    requires forall i :: 0 <= i < |all| ==> all[i] == []
    ensures AllSeparate(all)
  {
  }

  /** Nor does one that gains blocks which were in no list get in their way. */
  lemma AddedSeparate(all: seq<seq<Range>>, c: nat, t: seq<Range>, low: nat, high: nat)
    requires AllSeparate(all) && c < |all| && 0 < low
    requires forall x: nat :: Holds(t, x) <==> Holds(all[c], x) || low <= x <= high
    requires forall i, x: nat :: 0 <= i < |all| && low <= x <= high ==> !Holds(all[i], x)
    ensures AllSeparate(all[c := t])
  {
    var after := all[c := t];
    forall i, j | 0 <= i < j < |after| ensures Separate(after[i], after[j]) {
      assert Separate(all[i], all[j]);
    }
  }

  /** One list per processor. */
  method MakeLists(per: nat, cpus: nat, reserved: nat) returns (made: seq<FreeList>)
    requires 0 < reserved < per
    ensures |made| == cpus && forall a :: 0 <= a < cpus ==> fresh(made[a]) && made[a].Valid()
    ensures forall a, b :: 0 <= a < b < cpus ==> made[a] != made[b]
    ensures forall a, x: nat :: 0 <= a < cpus ==> (made[a].IsFree(x) <==> x / per == a && x >= reserved)
  {
    hide FreeList.Valid, FreeList.IsFree;
    made := [];
    for i := 0 to cpus
      invariant |made| == i && (forall a :: 0 <= a < i ==> fresh(made[a]) && made[a].Valid())
      invariant forall a, b :: 0 <= a < b < i ==> made[a] != made[b]
      invariant forall a, x: nat :: 0 <= a < i ==> (made[a].IsFree(x) <==> x / per == a && x >= reserved)
    {
      var list := MakeList(per, i, reserved);
      made := made + [list];
    }
  }

  method MakeBlank(cpus: nat) returns (made: seq<FreeList>)
    ensures |made| == cpus && forall a :: 0 <= a < cpus ==> fresh(made[a]) && made[a].Valid()
    ensures forall a, b :: 0 <= a < b < cpus ==> made[a] != made[b]
    ensures forall a :: 0 <= a < cpus ==> made[a].Ranges() == [] && made[a].pNode.None?
  {
    hide FreeList.Valid, FreeList.IsFree, FreeList.Ranges, FreeList.FirstOk;
    made := [];
    for i := 0 to cpus
      invariant |made| == i && (forall a :: 0 <= a < i ==> fresh(made[a]) && made[a].Valid())
      invariant forall a, b :: 0 <= a < b < i ==> made[a] != made[b]
      invariant forall a :: 0 <= a < i ==> made[a].Ranges() == [] && made[a].pNode.None?
    {
      var list := new FreeList.Empty();
      made := made + [list];
    }
  }

  method MakeList(per: nat, i: nat, reserved: nat) returns (list: FreeList)
    requires 0 < reserved < per
    ensures fresh(list) && list.Valid()
    ensures forall x: nat :: list.IsFree(x) <==> x / per == i && x >= reserved
  {
    var start := per * i;
    PartStart(per, i);
    var low := if i == 0 then reserved else start;
    list := new FreeList(low, start + per - 1);
    hide FreeList.Valid, FreeList.IsFree;
    forall x: nat ensures list.IsFree(x) <==> x / per == i && x >= reserved {
      DividedBy(per, i, x);
    }
  }

  class BlockAllocator {
    /** One list per processor, and one for the blocks left over. */
    const lists: seq<FreeList>
    const shared: FreeList
    const perList: nat

    ghost function All(): seq<FreeList> {
      lists + [shared]
    }

    ghost function AllRanges(): seq<seq<Range>>
      reads All()
    {
      seq(|All()|, i requires 0 <= i < |All()| reads All() => All()[i].Ranges())
    }

    /** All lists are in order, no block is in two lists, and block 0 is in none. */
    ghost predicate Valid()
      reads All()
    {
      && 0 < |lists| && 0 < perList
      && (forall i, j :: 0 <= i < j < |All()| ==> All()[i] != All()[j])
      && (forall i :: 0 <= i < |All()| ==> All()[i].Valid())
      && AllSeparate(AllRanges())
    }

    /** The blocks are divided among the processors; the first `reserved` are not free,
        and what is left over goes to the shared list later. */
    constructor (numBlocks: nat, cpus: nat, reserved: nat)
      requires 0 < cpus && 0 < reserved < numBlocks / cpus
      ensures Valid() && |lists| == cpus && perList == numBlocks / cpus && fresh(All())
      ensures forall i, x: nat :: 0 <= i < cpus ==> (lists[i].IsFree(x) <==> x / perList == i && x >= reserved)
      ensures forall x: nat :: !shared.IsFree(x)
    {
      hide FreeList.Valid, FreeList.IsFree, AllSeparate, AllRanges;
      var made := MakeLists(numBlocks / cpus, cpus, reserved);
      var rest := new FreeList.Empty();
      lists, shared, perList := made, rest, numBlocks / cpus;
      new;
      assert forall i :: 0 <= i < |lists| ==> All()[i] == lists[i];
      DividedLists(reserved);
    }

    lemma DividedLists(reserved: nat)
      requires 0 < perList && 0 < reserved && forall x: nat :: !shared.IsFree(x)
      requires forall i, x: nat :: 0 <= i < |lists| ==> (lists[i].IsFree(x) <==> x / perList == i && x >= reserved)
      ensures AllSeparate(AllRanges())
    {
      var all := AllRanges();
      forall i, x: nat | 0 <= i < |all| && Holds(all[i], x) ensures i < |lists| && x / perList == i && x >= reserved {
        assert All()[i].IsFree(x);
      }
    }

    /** Lists without blocks, before a mount. */
    constructor Blank(cpus: nat, perList: nat)
      requires 0 < cpus && 0 < perList
      ensures Valid() && |lists| == cpus && this.perList == perList && fresh(All())
      ensures forall i :: 0 <= i <= cpus ==> All()[i].Ranges() == [] && All()[i].pNode.None?
    {
      hide FreeList.Valid, FreeList.IsFree, FreeList.Ranges, FreeList.FirstOk, AllSeparate;
      var made := MakeBlank(cpus);
      var rest := new FreeList.Empty();
      lists, shared, this.perList := made, rest, perList;
      new;
      assert forall i :: 0 <= i < |lists| ==> All()[i] == lists[i];
      assert forall i :: 0 <= i < |All()| ==> AllRanges()[i] == [];
      NoneSeparate(AllRanges());
    }

    /** The first of the lists that have most free blocks. */
    ghost predicate HasMost(c: nat)
      reads this, lists
    {
      && c < |lists| && (forall i :: 0 <= i < |lists| ==> lists[i].numFree <= lists[c].numFree)
      && forall i :: 0 <= i < c ==> lists[i].numFree < lists[c].numFree
    }

    /** The processor whose list has most free blocks. */
    method GetCandidateFreeList() returns (cpuid: nat)
      requires 0 < |lists|
      ensures HasMost(cpuid)
    {
      cpuid := 0;
      var most := 0;
      for i := 0 to |lists|
        invariant cpuid < |lists| && (if cpuid < i then most == lists[cpuid].numFree else cpuid == most == 0)
        invariant forall x :: 0 <= x < i ==> lists[x].numFree <= most
        invariant forall x :: 0 <= x < cpuid ==> lists[x].numFree < most
      {
        if lists[i].numFree > most {
          cpuid, most := i, lists[i].numFree;
        }
      }
    }

    /** A list with `num` free blocks: the processor's own, or the one with most. */
    method ChooseList(start: nat, num: nat) returns (ok: bool, cpuid: nat)
      requires start < |lists|
      ensures ok ==> cpuid < |lists| && lists[cpuid].numFree >= num
      ensures !ok ==> forall i :: 0 <= i < |lists| ==> lists[i].numFree < num
      ensures ok ==> if lists[start].numFree >= num then cpuid == start else HasMost(cpuid)
    {
      ok, cpuid := true, start;
      var retried := 0;
      while lists[cpuid].numFree < num
        invariant cpuid < |lists| && retried <= 3
        invariant if retried == 0 then cpuid == start else lists[start].numFree < num && HasMost(cpuid)
        decreases 3 - retried
      {
        if retried >= 3 {
          ok := false;
          return;
        }
        cpuid := GetCandidateFreeList();
        retried := retried + 1;
      }
    }

    /** Allocates up to `num` consecutive blocks.  It fails if and only if no
        processor's list has that many free blocks; the run comes out of one list, and
        nothing else changes. */
    method NewBlocks(start: nat, num: nat) returns (n: nat, blocknr: nat, ghost from: nat)
      requires Valid() && start < |lists| && 0 < num
      modifies All()
      ensures Valid() && n <= num
      ensures n == 0 <==> forall i :: 0 <= i < |lists| ==> old(lists[i].numFree) < num
      ensures n == 0 ==> AllRanges() == old(AllRanges())
      ensures n > 0 ==>
                && from < |lists| && blocknr != 0 && num <= old(lists[from].numFree)
                && AllRanges() == old(AllRanges())[from := lists[from].Ranges()]
                && Taken(old(AllRanges())[from], lists[from].Ranges(), blocknr, blocknr + n - 1)
                && lists[from].numNodes <= old(lists[from].numNodes)
                && (if old(lists[start].numFree) >= num then from == start else old(HasMost(from)))
                && TookNext(old(AllRanges())[from], old(lists[from].first), old(lists[from].pNode), num, blocknr, n,
                            lists[from].pNode)
    {
      hide Taken, FreeList.Valid, FreeList.Ranges, Valid, AllRanges, TookNext, HasMost;
      n, blocknr, from := 0, 0, 0;
      var ok, cpuid := ChooseList(start, num);
      if ok {
        from := cpuid;
        n, blocknr := AllocIn(cpuid, num);
      } else {
        SameRanges();
      }
    }

    twostate lemma SameRanges()
      requires forall i :: 0 <= i < |All()| ==> allocated(All()[i]) && unchanged(All()[i])
      ensures AllRanges() == old(AllRanges()) && (old(Valid()) ==> Valid())
    {
    }

    /** The ranges after one list has changed. */
    lemma OneChanged(before: seq<seq<Range>>, c: nat)
      requires |before| == |All()| && c < |before|
      requires forall i :: 0 <= i < |All()| && i != c ==> All()[i].Ranges() == before[i]
      ensures AllRanges() == before[c := All()[c].Ranges()]
    {
    }

    method AllocIn(cpuid: nat, num: nat) returns (n: nat, blocknr: nat)
      requires Valid() && cpuid < |lists| && 0 < num <= lists[cpuid].numFree
      modifies All()
      ensures Valid() && 0 < n <= num && blocknr != 0 && lists[cpuid].numNodes <= old(lists[cpuid].numNodes)
      ensures AllRanges() == old(AllRanges())[cpuid := lists[cpuid].Ranges()]
      ensures Taken(old(AllRanges())[cpuid], lists[cpuid].Ranges(), blocknr, blocknr + n - 1)
      ensures TookNext(old(AllRanges())[cpuid], old(lists[cpuid].first), old(lists[cpuid].pNode), num, blocknr, n,
                       lists[cpuid].pNode)
    {
      hide AllSeparate, Taken, FreeList.Valid, FreeList.Ranges, TookAt;
      ghost var before := AllRanges();
      var list := lists[cpuid];
      assert All()[cpuid] == list && before[cpuid] == list.Ranges();
      n, blocknr := list.AllocPages(num);
      TakenSeparate(before, cpuid, list.Ranges(), blocknr, blocknr + n - 1);
      OneChanged(before, cpuid);
    }

    /** Gives an allocated run back to the list that its first block belongs to. */
    method FreeRun(blocknr: nat, num: nat, id: nat) returns (ok: bool, ghost at: nat)
      requires Valid() && 0 < num && 0 < blocknr
      requires forall i :: 0 <= i < |All()| ==> !Live(AllRanges()[i], id)
      requires forall i, x: nat :: 0 <= i < |All()| && blocknr <= x < blocknr + num ==> !Holds(AllRanges()[i], x)
      modifies All()
      ensures ok && Valid() && at == (if blocknr / perList < |lists| then blocknr / perList else |lists|)
      ensures AllRanges() == old(AllRanges())[at := All()[at].Ranges()]
      ensures Added(old(AllRanges())[at], All()[at].Ranges(), blocknr, blocknr + num - 1)
    {
      var cpuid := blocknr / perList;
      var list := if cpuid >= |lists| then shared else lists[cpuid];
      at := if cpuid >= |lists| then |lists| else cpuid;
      assert All()[at] == list;
      hide Added, FreeList.Valid, FreeList.Ranges, AllRanges, Valid;
      ok := FreeIn(list, at, blocknr, num, id);
    }

    method FreeIn(list: FreeList, ghost at: nat, blocknr: nat, num: nat, id: nat) returns (ok: bool)
      requires Valid() && 0 < num && 0 < blocknr && at < |All()| && All()[at] == list
      requires !Live(AllRanges()[at], id)
      requires forall i, x: nat :: 0 <= i < |All()| && blocknr <= x < blocknr + num ==> !Holds(AllRanges()[i], x)
      modifies All()
      ensures ok && Valid() && AllRanges() == old(AllRanges())[at := list.Ranges()]
      ensures Added(old(AllRanges())[at], list.Ranges(), blocknr, blocknr + num - 1)
    {
      hide AllSeparate, Added, FreeList.Valid, FreeList.Ranges, Misses, Live, Holds;
      ghost var before := AllRanges();
      assert before[at] == list.Ranges();
      MissesFree(list, blocknr, num);
      ok := list.FreeBlocks(blocknr, num, id);
      AddedHolds(before[at], list.Ranges(), blocknr, blocknr + num - 1);
      AddedSeparate(before, at, list.Ranges(), blocknr, blocknr + num - 1);
      OneChanged(before, at);
    }
  }

  lemma PartStart(per: nat, i: nat)
    requires 0 < per
    ensures per * i >= 0 && (i > 0 ==> per * i >= per)
  {
  }

  lemma DividedBy(per: nat, i: nat, x: nat)
    requires 0 < per
    ensures x / per == i <==> per * i <= x <= per * i + per - 1
  {
    var q, m := x / per, x % per;
    assert x == per * q + m && m < per;
    if q < i {
      assert per * i >= per * (q + 1) == per * q + per;
    } else if q > i {
      assert per * q >= per * (i + 1) == per * i + per;
    }
  }

  /** A run without free blocks meets no range. */
  lemma MissesFree(list: FreeList, blocknr: nat, num: nat)
    requires list.Valid() && 0 < num && forall x: nat :: blocknr <= x < blocknr + num ==> !Holds(list.Ranges(), x)
    ensures Misses(list.Ranges(), blocknr, blocknr + num - 1)
  {
    var s, high := list.Ranges(), blocknr + num - 1;
    forall i | 0 <= i < |s| ensures s[i].high < blocknr || high < s[i].low {
      if !(s[i].high < blocknr || high < s[i].low) {
        var x := if s[i].low < blocknr then blocknr else s[i].low;
        assert Has(s[i], x);
        assert Holds(s, x);
      }
    }
  }
}
