/** The choice of processes to move to DRAM: a 0/1 knapsack, filled row by row and
traced back from the last suspect. */
module Knapsack {
  datatype Suspect = Suspect(pid: nat, weight: nat, value: nat)

  function Max(a: nat, b: nat): nat {
    if a < b then b else a
  }

  // ----- choices -----------------------------------------------------------------------------------------

  /** The weight of the chosen ones among the first n suspects. */
  function WeightOf(items: seq<Suspect>, n: nat, chosen: set<nat>): nat
    requires n <= |items|
  {
    if n == 0 then 0 else WeightOf(items, n - 1, chosen) + if n - 1 in chosen then items[n - 1].weight else 0
  }

  function ValueOf(items: seq<Suspect>, n: nat, chosen: set<nat>): nat
    requires n <= |items|
  {
    if n == 0 then 0 else ValueOf(items, n - 1, chosen) + if n - 1 in chosen then items[n - 1].value else 0
  }

  /** No choice within the capacity is worth more than `best`, and one is worth it. */
  ghost predicate IsMaximum(items: seq<Suspect>, n: nat, capacity: nat, best: nat)
    requires n <= |items|
  {
    && (forall chosen: set<nat> :: WeightOf(items, n, chosen) <= capacity ==> ValueOf(items, n, chosen) <= best)
    && (exists chosen: set<nat> :: WeightOf(items, n, chosen) <= capacity && ValueOf(items, n, chosen) == best)
  }

  /** What cell (n, capacity) of the table should hold. */
  function Best(items: seq<Suspect>, n: nat, capacity: nat): nat
    requires n <= |items|
  {
    if n == 0 then 0
    else
      var skip := Best(items, n - 1, capacity);
      if capacity < items[n - 1].weight then skip
      else Max(skip, Best(items, n - 1, capacity - items[n - 1].weight) + items[n - 1].value)
  }

  lemma {:induction false} BestIsBound(items: seq<Suspect>, n: nat, capacity: nat, chosen: set<nat>)
    requires n <= |items| && WeightOf(items, n, chosen) <= capacity
    ensures ValueOf(items, n, chosen) <= Best(items, n, capacity)
    decreases n
  {
    if n > 0 {
      if n - 1 in chosen {
        BestIsBound(items, n - 1, capacity - items[n - 1].weight, chosen);
      } else {
        BestIsBound(items, n - 1, capacity, chosen);
      }
    }
  }

  /** Only the indices below n count. */
  lemma {:induction false} ChoiceBelow(items: seq<Suspect>, n: nat, a: set<nat>, b: set<nat>)
    requires n <= |items| && forall i :: 0 <= i < n ==> (i in a <==> i in b)
    ensures WeightOf(items, n, a) == WeightOf(items, n, b) && ValueOf(items, n, a) == ValueOf(items, n, b)
    decreases n
  {
    if n > 0 {
      ChoiceBelow(items, n - 1, a, b);
    }
  }

  lemma {:induction false} BestIsReached(items: seq<Suspect>, n: nat, capacity: nat) returns (chosen: set<nat>)
    requires n <= |items|
    ensures WeightOf(items, n, chosen) <= capacity && ValueOf(items, n, chosen) == Best(items, n, capacity)
    ensures forall i :: i in chosen ==> i < n
    decreases n
  {
    chosen := {};
    if n > 0 {
      var r := items[n - 1];
      if capacity >= r.weight
         && Best(items, n - 1, capacity) < Best(items, n - 1, capacity - r.weight) + r.value {
        var rest := BestIsReached(items, n - 1, capacity - r.weight);
        chosen := rest + {n - 1};
        ChoiceBelow(items, n - 1, rest, chosen);
      } else {
        chosen := BestIsReached(items, n - 1, capacity);
      }
    }
  }

  lemma BestIsMaximum(items: seq<Suspect>, n: nat, capacity: nat)
    requires n <= |items|
    ensures IsMaximum(items, n, capacity, Best(items, n, capacity))
  {
    forall chosen: set<nat> | WeightOf(items, n, chosen) <= capacity
      ensures ValueOf(items, n, chosen) <= Best(items, n, capacity)
    {
      BestIsBound(items, n, capacity, chosen);
    }
    var chosen := BestIsReached(items, n, capacity);
    assert WeightOf(items, n, chosen) <= capacity && ValueOf(items, n, chosen) == Best(items, n, capacity);
  }

  // ----- the table ---------------------------------------------------------------------------------------

  /** What cell (n, capacity) of the table does hold: column 0 is never filled. */
  function Table(items: seq<Suspect>, n: nat, capacity: nat): nat
    requires n <= |items|
  {
    if n == 0 || capacity == 0 then 0
    else
      var skip := Table(items, n - 1, capacity);
      if capacity < items[n - 1].weight then skip
      else Max(skip, Table(items, n - 1, capacity - items[n - 1].weight) + items[n - 1].value)
  }

  lemma {:induction false} TableBelowBest(items: seq<Suspect>, n: nat, capacity: nat)
    requires n <= |items|
    ensures Table(items, n, capacity) <= Best(items, n, capacity)
    decreases n
  {
    if n > 0 {
      TableBelowBest(items, n - 1, capacity);
      if capacity >= items[n - 1].weight {
        TableBelowBest(items, n - 1, capacity - items[n - 1].weight);
      }
    }
  }

  lemma {:induction false} TableGrows(items: seq<Suspect>, n: nat, c: nat, d: nat)
    requires n <= |items| && c <= d
    ensures Table(items, n, c) <= Table(items, n, d)
    decreases n
  {
    if n > 0 {
      TableGrows(items, n - 1, c, d);
      if c >= items[n - 1].weight {
        TableGrows(items, n - 1, c - items[n - 1].weight, d - items[n - 1].weight);
      }
    }
  }

  /** Some of the suspects k .. n weigh exactly c together. */
  predicate Hits(items: seq<Suspect>, k: nat, n: nat, c: nat)
    requires n <= |items|
    decreases n
  {
    if n <= k then c == 0
    else Hits(items, k, n - 1, c) || (c >= items[n - 1].weight && Hits(items, k, n - 1, c - items[n - 1].weight))
  }

  /** A suspect of weight 0 comes before suspects that can use up the capacity. */
  ghost predicate Spoiled(items: seq<Suspect>, n: nat, c: nat)
    requires n <= |items|
  {
    exists k :: 0 <= k < n && items[k].weight == 0 && Hits(items, k + 1, n, c)
  }

  lemma {:induction false} HitsNothing(items: seq<Suspect>, k: nat, n: nat)
    requires n <= |items|
    ensures Hits(items, k, n, 0)
    decreases n
  {
    if n > k {
      HitsNothing(items, k, n - 1);
    }
  }

  lemma {:induction false} NothingFits(items: seq<Suspect>, n: nat)
    requires n <= |items| && forall i :: 0 <= i < n ==> items[i].weight >= 1
    ensures Best(items, n, 0) == 0
    decreases n
  {
    if n > 0 {
      NothingFits(items, n - 1);
    }
  }

  lemma {:induction false} UnspoiledIsBest(items: seq<Suspect>, n: nat, c: nat)
    requires n <= |items| && !Spoiled(items, n, c)
    ensures Table(items, n, c) == Best(items, n, c)
    decreases n
  {
    if c == 0 {
      forall i | 0 <= i < n ensures items[i].weight >= 1 {
        HitsNothing(items, i + 1, n);
      }
      NothingFits(items, n);
    } else if n > 0 {
      var w := items[n - 1].weight;
      forall k | 0 <= k < n - 1 && items[k].weight == 0
        ensures !Hits(items, k + 1, n - 1, c) && (c >= w ==> !Hits(items, k + 1, n - 1, c - w))
      {
        assert !Hits(items, k + 1, n, c);
      }
      UnspoiledIsBest(items, n - 1, c);
      if c >= w {
        UnspoiledIsBest(items, n - 1, c - w);
      }
    }
  }

  ghost predicate SameWeights(items: seq<Suspect>, other: seq<Suspect>) {
    |items| == |other| && forall i :: 0 <= i < |items| ==> items[i].weight == other[i].weight
  }

  /** The first n rows know the first n suspects only. */
  lemma {:induction false} RowsAreLocal(items: seq<Suspect>, other: seq<Suspect>, n: nat, c: nat)
    requires n <= |items| == |other| && forall i :: 0 <= i < n ==> items[i] == other[i]
    ensures Table(items, n, c) == Table(other, n, c) && Best(items, n, c) == Best(other, n, c)
    decreases n
  {
    if n > 0 {
      RowsAreLocal(items, other, n - 1, c);
      if c >= items[n - 1].weight {
        RowsAreLocal(items, other, n - 1, c - items[n - 1].weight);
      }
    }
  }

  /** With other values, the value of a suspect of weight 0 is lost. */
  lemma {:induction false} SpoiledLoses(items: seq<Suspect>, k: nat, n: nat, c: nat) returns (other: seq<Suspect>)
    requires k < n <= |items| && items[k].weight == 0 && Hits(items, k + 1, n, c)
    ensures SameWeights(items, other) && Table(other, n, c) < Best(other, n, c)
    decreases n
  {
    if c == 0 {
      other := items[k := items[k].(value := 1)];
      OneIsWorth(other, k, n);
    } else {
      var w := items[n - 1].weight;
      if Hits(items, k + 1, n - 1, c) {
        var before := SpoiledLoses(items, k, n - 1, c);
        other := before[n - 1 := before[n - 1].(value := 0)];
        RowsAreLocal(before, other, n - 1, c);
        if c >= w {
          TableGrows(other, n - 1, c - w, c);
        }
      } else {
        var before := SpoiledLoses(items, k, n - 1, c - w);
        other := before[n - 1 := before[n - 1].(value := Best(before, n - 1, c) + 1)];
        RowsAreLocal(before, other, n - 1, c);
        RowsAreLocal(before, other, n - 1, c - w);
        TableBelowBest(other, n - 1, c);
      }
    }
  }

  lemma {:induction false} OneIsWorth(items: seq<Suspect>, k: nat, n: nat)
    requires k < n <= |items| && items[k].weight == 0 && items[k].value == 1
    ensures Best(items, n, 0) >= 1
    decreases n
  {
    if n > k + 1 {
      OneIsWorth(items, k, n - 1);
    }
  }

  /** The table gives the greatest value, whatever the suspects are worth, if and only
      if no suspect of weight 0 comes before suspects that can use up the capacity. */
  lemma TableIsBestIff(items: seq<Suspect>, n: nat, c: nat)
    requires n <= |items|
    ensures (forall other: seq<Suspect> :: SameWeights(items, other) ==> Table(other, n, c) == Best(other, n, c))
            <==> !Spoiled(items, n, c)
  {
    if Spoiled(items, n, c) {
      var k :| 0 <= k < n && items[k].weight == 0 && Hits(items, k + 1, n, c);
      var other := SpoiledLoses(items, k, n, c);
    } else {
      forall other: seq<Suspect> | SameWeights(items, other) ensures Table(other, n, c) == Best(other, n, c) {
        forall k | 0 <= k < n && other[k].weight == 0 ensures !Hits(other, k + 1, n, c) {
          HitsAlike(items, other, k + 1, n, c);
        }
        UnspoiledIsBest(other, n, c);
      }
    }
  }

  lemma {:induction false} HitsAlike(items: seq<Suspect>, other: seq<Suspect>, k: nat, n: nat, c: nat)
    requires SameWeights(items, other) && n <= |items|
    ensures Hits(items, k, n, c) == Hits(other, k, n, c)
    decreases n
  {
    if n > k {
      HitsAlike(items, other, k, n - 1, c);
      if c >= items[n - 1].weight {
        HitsAlike(items, other, k, n - 1, c - items[n - 1].weight);
      }
    }
  }

  /** A suspect that weighs nothing and one that fills the capacity: both fit, and the
      table finds only one of them. */
  lemma ZeroWeightIsLost()
    ensures var items := [Suspect(1, 0, 5), Suspect(2, 1, 1)];
            Best(items, 2, 1) == 6 && Table(items, 2, 1) == 5
  {
    var items := [Suspect(1, 0, 5), Suspect(2, 1, 1)];
    assert Best(items, 1, 1) == 5 && Best(items, 1, 0) == 5;
    assert Table(items, 1, 1) == 5 && Table(items, 1, 0) == 0;
  }

  ghost predicate Zeroed(v: array2<nat>, items: seq<Suspect>, capacity: nat)
    reads v
  {
    && v.Length0 > |items| && v.Length1 > capacity
    && (forall j :: 0 <= j <= capacity ==> v[0, j] == 0) && (forall i :: 0 <= i <= |items| ==> v[i, 0] == 0)
  }

  /** The first n rows are filled. */
  ghost predicate Filled(v: array2<nat>, items: seq<Suspect>, capacity: nat, n: nat)
    requires n <= |items| && v.Length0 > |items| && v.Length1 > capacity
    reads v
  {
    forall i, j :: 0 <= i <= n && 0 <= j <= capacity ==> v[i, j] == Table(items, i, j)
  }

  /** Fills row i from row i - 1. */
  method FillRow(v: array2<nat>, items: seq<Suspect>, capacity: nat, i: nat)
    requires 1 <= i <= |items| && v.Length0 > |items| && v.Length1 > capacity
    requires Filled(v, items, capacity, i - 1) && forall x :: i <= x <= |items| ==> v[x, 0] == 0
    modifies v
    ensures Filled(v, items, capacity, i) && forall x :: i <= x <= |items| ==> v[x, 0] == 0
  {
    var weight, value := items[i - 1].weight, items[i - 1].value;
    var j := 1;
    while j <= capacity
      invariant 1 <= j
      invariant Filled(v, items, capacity, i - 1)
      invariant forall x :: 0 <= x < j && x <= capacity ==> v[i, x] == Table(items, i, x)
      invariant forall x :: i <= x <= |items| ==> v[x, 0] == 0
      decreases capacity + 1 - j
    {
      if j < weight {
        v[i, j] := v[i - 1, j];
      } else {
        v[i, j] := Max(v[i - 1, j], v[i - 1, j - weight] + value);
      }
      j := j + 1;
    }
  }

  /** Fills the table. */
  method FillTable(v: array2<nat>, items: seq<Suspect>, capacity: nat)
    requires Zeroed(v, items, capacity)
    modifies v
    ensures Filled(v, items, capacity, |items|)
  {
    var i := 1;
    while i <= |items|
      invariant 1 <= i <= |items| + 1
      invariant Filled(v, items, capacity, i - 1) && forall x :: i <= x <= |items| ==> v[x, 0] == 0
      decreases |items| + 1 - i
    {
      FillRow(v, items, capacity, i);
      i := i + 1;
    }
  }

  // ----- the trace back ----------------------------------------------------------------------------------

  ghost predicate DistinctPids(items: seq<Suspect>) {
    forall i, j :: 0 <= i < j < |items| ==> items[i].pid != items[j].pid
  }

  /** The pids of the chosen suspects. */
  function Pids(items: seq<Suspect>, chosen: set<nat>): set<nat> {
    set i | i in chosen && i < |items| :: items[i].pid
  }

  ghost predicate NoneListed(items: seq<Suspect>, n: nat, listed: set<nat>)
    requires n <= |items|
  {
    forall i :: 0 <= i < n ==> items[i].pid !in listed
  }

  lemma TraceStep(items: seq<Suspect>, n: nat, j: nat)
    requires 0 < n <= |items|
    ensures Table(items, n, j) > Table(items, n - 1, j) ==>
              && j >= items[n - 1].weight
              && Table(items, n, j) == Table(items, n - 1, j - items[n - 1].weight) + items[n - 1].value
    ensures Table(items, n, j) >= Table(items, n - 1, j)
  {
  }

  /** What the trace back has added so far fits, and `j` is what is left. */
  ghost predicate Fitting(items: seq<Suspect>, n: nat, j: nat, capacity: nat, chosen: set<nat>) {
    && n <= |items| && j <= capacity && (forall i :: i in chosen ==> n <= i < |items|)
    && WeightOf(items, |items|, chosen) + j == capacity
  }

  /** Suspects from n on have been decided; `chosen` and what the table gives for the
      first n with capacity j are worth what it gives for all. */
  ghost predicate Tracing(items: seq<Suspect>, n: nat, j: nat, capacity: nat, chosen: set<nat>)
    requires n <= |items|
  {
    ValueOf(items, |items|, chosen) + Table(items, n, j) == Table(items, |items|, capacity)
  }

  lemma {:induction false} AddChoice(items: seq<Suspect>, n: nat, m: nat, chosen: set<nat>)
    requires n < m <= |items| && n !in chosen
    ensures WeightOf(items, m, chosen + {n}) == WeightOf(items, m, chosen) + items[n].weight
    ensures ValueOf(items, m, chosen + {n}) == ValueOf(items, m, chosen) + items[n].value
    decreases m
  {
    if m == n + 1 {
      ChoiceBelow(items, n, chosen, chosen + {n});
    } else {
      AddChoice(items, n, m - 1, chosen);
    }
  }

  lemma {:induction false} NoChoice(items: seq<Suspect>, n: nat)
    requires n <= |items|
    ensures WeightOf(items, n, {}) == 0 && ValueOf(items, n, {}) == 0
    decreases n
  {
    if n > 0 {
      NoChoice(items, n - 1);
    }
  }

  /** Lists the processes to move.  The result is what the table gives, which is the
      greatest value of any choice within the capacity unless a suspect of weight 0
      spoils it.  The processes added always fit, were not listed before, and are
      charged exactly.  If no suspect was listed before, and none comes twice, they are
      worth the result. */
  method KnapSack(items: seq<Suspect>, capacity: nat, v: array2<nat>, listed: set<nat>, memoryCap: int)
    returns (best: nat, listed': set<nat>, memoryCap': int, ghost chosen: set<nat>)
    requires items != [] && Zeroed(v, items, capacity)
    modifies v
    ensures best == Table(items, |items|, capacity)
    ensures !Spoiled(items, |items|, capacity) ==> IsMaximum(items, |items|, capacity, best)
    ensures WeightOf(items, |items|, chosen) <= capacity && forall i :: i in chosen ==> i < |items|
    ensures listed' == listed + Pids(items, chosen) && Pids(items, chosen) !! listed
    ensures memoryCap' == memoryCap - WeightOf(items, |items|, chosen)
    ensures NoneListed(items, |items|, listed) && DistinctPids(items) ==> ValueOf(items, |items|, chosen) == best
  {
    FillTable(v, items, capacity);
    if !Spoiled(items, |items|, capacity) {
      UnspoiledIsBest(items, |items|, capacity);
      BestIsMaximum(items, |items|, capacity);
    }
    hide IsMaximum, Spoiled, WeightOf, ValueOf, Table, Pids, NoneListed, DistinctPids;
    best := v[|items|, capacity];
    listed', memoryCap', chosen := listed, memoryCap, {};
    NoChoice(items, |items|);
    var j: nat, i: nat := capacity, |items|;
    while i > 0
      invariant Fitting(items, i, j, capacity, chosen) && Filled(v, items, capacity, |items|)
      invariant listed' == listed + Pids(items, chosen) && Pids(items, chosen) !! listed
      invariant memoryCap' == memoryCap - WeightOf(items, |items|, chosen)
      invariant NoneListed(items, |items|, listed) && DistinctPids(items) ==>
                  Tracing(items, i, j, capacity, chosen) && NoneListed(items, i, listed')
    {
      TraceStep(items, i, j);
      if v[i, j] > v[i - 1, j] && items[i - 1].pid !in listed' {
        var weight := items[i - 1].weight;
        if j < weight {
          break;
        }
        ChooseOne(items, i, j, capacity, chosen, listed, listed');
        j := j - weight;
        listed' := listed' + {items[i - 1].pid};
        memoryCap' := memoryCap' - weight;
        chosen := chosen + {i - 1};
      } else {
        PassOne(items, i, j, capacity, chosen, listed');
      }
      i := i - 1;
    }
    NothingLeft(items, j);
  }

  /** One more process is added. */
  lemma ChooseOne(items: seq<Suspect>, i: nat, j: nat, capacity: nat, chosen: set<nat>, listed: set<nat>,
                  listed': set<nat>)
    requires 0 < i <= |items| && Fitting(items, i, j, capacity, chosen) && items[i - 1].weight <= j
    requires listed' == listed + Pids(items, chosen) && Pids(items, chosen) !! listed && items[i - 1].pid !in listed'
    ensures Fitting(items, i - 1, j - items[i - 1].weight, capacity, chosen + {i - 1})
    ensures Pids(items, chosen + {i - 1}) == Pids(items, chosen) + {items[i - 1].pid}
    ensures WeightOf(items, |items|, chosen + {i - 1}) == WeightOf(items, |items|, chosen) + items[i - 1].weight
    ensures ValueOf(items, |items|, chosen + {i - 1}) == ValueOf(items, |items|, chosen) + items[i - 1].value
    ensures NoneListed(items, i, listed') && DistinctPids(items) ==>
              NoneListed(items, i - 1, listed' + {items[i - 1].pid})
  {
    AddChoice(items, i - 1, |items|, chosen);
    MorePids(items, chosen, i - 1);
  }

  /** A suspect is passed over. */
  lemma PassOne(items: seq<Suspect>, i: nat, j: nat, capacity: nat, chosen: set<nat>, listed: set<nat>)
    requires 0 < i <= |items| && Fitting(items, i, j, capacity, chosen)
    ensures Fitting(items, i - 1, j, capacity, chosen)
    ensures NoneListed(items, i, listed) ==> NoneListed(items, i - 1, listed) && items[i - 1].pid !in listed
  {
  }

  lemma NothingLeft(items: seq<Suspect>, j: nat)
    ensures Table(items, 0, j) == 0
  {
  }

  lemma MorePids(items: seq<Suspect>, chosen: set<nat>, i: nat)
    requires i < |items|
    ensures Pids(items, chosen + {i}) == Pids(items, chosen) + {items[i].pid}
  {
  }
}
