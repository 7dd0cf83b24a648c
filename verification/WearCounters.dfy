/** Write counters: the running mean kept in constant time, the maximum, and the discount
for processes whose pages are buffered in DRAM. */
module WearCounters {
  /** Writes of a listed process that are charged as one. */
  const WB_THRESHOLD: nat := 5

  function Sum(s: seq<nat>): nat {
    if s == [] then 0 else Sum(s[..|s| - 1]) + s[|s| - 1]
  }

  lemma {:induction false} SumUpdate(s: seq<nat>, i: nat, v: nat)
    requires i < |s|
    ensures Sum(s[i := v]) + s[i] == Sum(s) + v
    decreases |s|
  {
    var n := |s| - 1;
    var t := s[i := v];
    if i < n {
      SumUpdate(s[..n], i, v);
      assert t[..n] == s[..n][i := v];
    } else {
      assert t[..n] == s[..n];
    }
  }

  lemma {:induction false} SumOfZeros(s: seq<nat>)
    requires forall i :: 0 <= i < |s| ==> s[i] == 0
    ensures Sum(s) == 0
    decreases |s|
  {
    if s != [] {
      SumOfZeros(s[..|s| - 1]);
    }
  }

  /** One block: what was charged for it, and the writes since the last charge. */
  datatype Block = Block(charged: nat, threshold: nat)

  /** What happened to a block: writes by processes that are not listed, writes by
      listed ones, and charges for the latter. */
  datatype Account = Account(plain: nat, listed: nat, discounted: nat)

  /** Plain writes are charged one by one, listed ones five to one, each five when the
      next one comes. */
  ghost predicate BlockOk(b: Block, a: Account) {
    && (a.listed > 0 ==> b.threshold > 0)
    && b.charged == a.plain + a.discounted && b.threshold <= WB_THRESHOLD
    && a.listed == WB_THRESHOLD * a.discounted + b.threshold
  }

  class Counters {
    var writes: seq<nat>
    var blocks: seq<Block>
    var hand: nat
    var average: nat
    var maximum: nat
    ghost var accounts: seq<Account>

    /** The mean and the maximum are those of all writes, and every block's account is
        right. */
    ghost predicate Valid()
      reads this
    {
      && 0 < |writes| == |blocks| == |accounts| && hand < |writes|
      && MeanOf(average, |writes|, hand, Sum(writes))
      && (forall i :: 0 <= i < |writes| ==> writes[i] <= maximum)
      && (maximum == 0 || maximum in writes)
      && (forall i :: 0 <= i < |blocks| ==> BlockOk(blocks[i], accounts[i]))
    }

    constructor (n: nat)
      requires 0 < n
      ensures Valid() && |writes| == n && forall i :: 0 <= i < n ==> writes[i] == 0
    {
      writes, blocks, accounts := seq(n, i => 0), seq(n, i => Block(0, 0)), seq(n, i => Account(0, 0, 0));
      hand, average, maximum := 0, 0, 0;
      new;
      SumOfZeros(writes);
    }

    /** Charges one write to a block. */
    method Charge(block: nat, listed: bool)
      requires block < |blocks| == |accounts| && BlockOk(blocks[block], accounts[block])
      modifies this`blocks, this`accounts
      ensures |blocks| == |accounts| == |old(blocks)| && BlockOk(blocks[block], accounts[block])
      ensures accounts[block].plain == old(accounts)[block].plain + (if listed then 0 else 1)
      ensures accounts[block].listed == old(accounts)[block].listed + (if listed then 1 else 0)
      ensures forall i :: 0 <= i < |blocks| && i != block ==>
                blocks[i] == old(blocks)[i] && accounts[i] == old(accounts)[i]
    {
      var b := blocks[block];
      ghost var a := accounts[block];
      if listed {
        if b.threshold >= WB_THRESHOLD {
          b, a := Block(b.charged + 1, 0), a.(discounted := a.discounted + 1);
        }
        b, a := b.(threshold := b.threshold + 1), a.(listed := a.listed + 1);
      } else {
        b, a := b.(charged := b.charged + 1), a.(plain := a.plain + 1);
      }
      blocks, accounts := blocks[block := b], accounts[block := a];
    }

    /** Moves the mean on by one write. */
    method Advance(ghost sum: nat)
      requires hand < |writes| && MeanOf(average, |writes|, hand, sum)
      modifies this`hand, this`average
      ensures hand < |writes| && MeanOf(average, |writes|, hand, sum + 1)
    {
      hand := hand + 1;
      if hand >= |writes| {
        OneMore(average, |writes|);
        average, hand := average + 1, 0;
      }
    }

    /** Counts one write; a block outside the device is ignored. */
    method WriteCountIncrease(block: nat, listed: bool)
      requires Valid()
      modifies this
      ensures Valid() && |writes| == |old(writes)|
      ensures writes == if block < |old(writes)| then old(writes)[block := old(writes)[block] + 1] else old(writes)
      ensures block < |old(writes)| ==>
                && accounts[block].plain == old(accounts)[block].plain + (if listed then 0 else 1)
                && accounts[block].listed == old(accounts)[block].listed + (if listed then 1 else 0)
                && forall i :: 0 <= i < |blocks| && i != block ==> blocks[i] == old(blocks)[i]
    {
      hide MeanOf, Sum, BlockOk;
      if block >= |writes| {
        return;
      }
      Charge(block, listed);
      ghost var sum, before := Sum(writes), writes;
      SumUpdate(writes, block, writes[block] + 1);
      writes := writes[block := writes[block] + 1];
      if maximum < writes[block] {
        maximum := writes[block];
      }
      StillMaximum(before, block, old(maximum));
      Advance(sum);
    }
  }

  ghost predicate MeanOf(average: nat, n: nat, hand: nat, sum: nat) {
    average * n + hand == sum
  }

  lemma OneMore(a: nat, n: nat)
    ensures (a + 1) * n == a * n + n
  {
  }

  /** The greatest count after one more write. */
  lemma StillMaximum(s: seq<nat>, i: nat, m: nat)
    requires i < |s| && (forall x :: 0 <= x < |s| ==> s[x] <= m) && (m == 0 || m in s)
    ensures var t := s[i := s[i] + 1];
            var m' := if m < t[i] then t[i] else m;
            (forall x :: 0 <= x < |t| ==> t[x] <= m') && m' in t
  {
    var t := s[i := s[i] + 1];
    assert t[i] in t;
    if m >= t[i] {
      var x :| 0 <= x < |s| && s[x] == m;
      assert t[x] == m;
    }
  }

  /** The mean kept is the exact mean, rounded down. */
  lemma MeanIsExact(average: nat, n: nat, hand: nat, sum: nat)
    requires hand < n && MeanOf(average, n, hand, sum)
    ensures average == sum / n
  {
    var q := sum / n;
    assert sum == n * q + sum % n;
    Apart(average, q, n);
    Apart(q, average, n);
  }

  lemma {:induction false} Apart(a: nat, b: nat, n: nat)
    ensures a < b ==> a * n + n <= b * n
    decreases b
  {
    if a < b {
      OneMore(b - 1, n);
      Apart(a, b - 1, n);
    }
  }
}
