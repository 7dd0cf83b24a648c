/** The integer square root, digit by digit in base 4. */
module SquareRoot {
  const WORD: nat := 0x1_0000_0000_0000_0000

  function Pow4(k: nat): (p: nat)
    ensures p > 0
  {
    if k == 0 then 1 else 4 * Pow4(k - 1)
  }

  function Pow2(k: nat): (p: nat)
    ensures p > 0
  {
    if k == 0 then 1 else 2 * Pow2(k - 1)
  }

  /** With r the root of the leading digits of n and p the weight of the next one:
      `op` is what is left of n, and it lies below the next square. */
  ghost predicate Digits(n: nat, op: nat, res: nat, r: nat, p: nat) {
    res == r * p && n == op + r * r * p && op < (2 * r + 1) * p
  }

  /** One digit: with q a quarter of the weight, the test tells which of the two
      digits comes next. */
  lemma NextDigit(n: nat, op: nat, res: nat, r: nat, q: nat)
    requires Digits(n, op, res, r, 4 * q) && 0 < q
    ensures op >= res + q ==> Digits(n, op - (res + q), (res + 2 * q) / 2, 2 * r + 1, q)
    ensures op < res + q ==> Digits(n, op, res / 2, 2 * r, q)
  {
    var x := r * q;
    assert res == 4 * x by {
      Regroup(r, q);
    }
    Expand(r, q);
    if op >= res + q {
      assert (res + 2 * q) / 2 == 2 * x + q == (2 * r + 1) * q;
    } else {
      assert res / 2 == 2 * x == 2 * r * q;
    }
  }

  lemma Regroup(r: nat, q: nat)
    ensures r * (4 * q) == 4 * (r * q)
  {
  }

  lemma Expand(r: nat, q: nat)
    ensures (2 * r + 1) * (2 * r + 1) * q == r * r * (4 * q) + 4 * (r * q) + q
    ensures 2 * r * (2 * r) * q == r * r * (4 * q)
    ensures (2 * r + 1) * q == 2 * (r * q) + q && 2 * r * q == 2 * (r * q)
    ensures (2 * r + 1) * (4 * q) == 8 * (r * q) + 4 * q
    ensures (2 * (2 * r + 1) + 1) * q == 4 * (r * q) + 3 * q && (2 * (2 * r) + 1) * q == 4 * (r * q) + q
  {
    var a := r * r * q;
    assert (2 * r + 1) * (2 * r + 1) == 4 * (r * r) + 4 * r + 1;
    assert (4 * (r * r) + 4 * r + 1) * q == 4 * (r * r) * q + 4 * r * q + q;
    assert r * r * (4 * q) == 4 * a && 4 * (r * r) * q == 4 * a;
  }

  // ----- no sum leaves the 64-bit word ---------------------------------------------------------------------

  lemma {:induction false} Pow4IsSquare(k: nat)
    ensures Pow4(k) == Pow2(k) * Pow2(k)
    decreases k
  {
    if k > 0 {
      Pow4IsSquare(k - 1);
      var a := Pow2(k - 1);
      assert (2 * a) * (2 * a) == 4 * (a * a);
    }
  }

  lemma {:induction false} Pow2Grows(j: nat, k: nat)
    requires j <= k
    ensures Pow2(j) <= Pow2(k) && Pow4(j) <= Pow4(k)
    decreases k
  {
    if j < k {
      Pow2Grows(j, k - 1);
    }
  }

  lemma Powers()
    ensures Pow2(31) == 0x8000_0000 && Pow4(30) == 0x1000_0000_0000_0000 && Pow4(31) == 0x4000_0000_0000_0000
    ensures Pow4(32) == WORD
  {
    assert Pow2(8) == 0x100 && Pow4(8) == 0x1_0000;
    assert Pow2(16) == 0x1_0000 && Pow4(16) == 0x1_0000_0000;
    assert Pow2(24) == 0x100_0000 && Pow4(24) == 0x1_0000_0000_0000;
  }

  lemma SmallRoot(a: nat)
    requires a * a < WORD
    ensures a < 0x1_0000_0000
  {
    var b := 0x1_0000_0000;
    assert a >= b ==> a * a >= b * a && b * a >= b * b;
  }

  lemma NoOverflow(n: nat, r: nat, k: nat)
    requires n < WORD && k <= 31 && r * r * Pow4(k + 1) <= n && (k == 31 ==> r == 0)
    ensures r * Pow4(k + 1) + 2 * Pow4(k) < WORD
  {
    Powers();
    hide Pow4, Pow2;
    if k == 31 {
      assert r * Pow4(k + 1) == 0;
    } else {
      Pow2Grows(k, 30);
      Pow2Grows(k + 1, 31);
      Pow4IsSquare(k + 1);
      SmallProduct(n, r, Pow2(k + 1));
    }
  }

  lemma SmallProduct(n: nat, r: nat, s: nat)
    requires n < WORD && r * r * (s * s) <= n && s <= 0x8000_0000
    ensures r * (s * s) < 0x8000_0000_0000_0000
  {
    Square(r, s);
    SmallRoot(r * s);
    Product(r * s, s);
    Regrouped(r, s);
  }

  lemma Regrouped(r: nat, s: nat)
    ensures r * (s * s) == r * s * s
  {
  }

  lemma Square(r: nat, s: nat)
    ensures (r * s) * (r * s) == r * r * (s * s)
  {
  }

  lemma Product(a: nat, s: nat)
    requires a < 0x1_0000_0000 && s <= 0x8000_0000
    ensures a * s < 0x8000_0000_0000_0000
  {
    assert a * s <= a * 0x8000_0000;
  }

  /** The weight of the first digit. */
  method FirstDigit(number: nat) returns (one: nat, ghost k: int)
    requires number < WORD
    ensures -1 <= k <= 31 && number < Pow4(k + 1) && one == if k >= 0 then Pow4(k) else 0
  {
    one, k := 0x4000_0000_0000_0000, 31;
    Powers();
    while one > number
      invariant -1 <= k <= 31 && number < Pow4(k + 1) && one == if k >= 0 then Pow4(k) else 0
      decreases one
    {
      assert k >= 0;
      one := one / 4;
      k := k - 1;
    }
  }

  lemma Quarter(k: nat)
    ensures Pow4(k + 1) == 4 * Pow4(k) && Pow4(k) / 4 == if k > 0 then Pow4(k - 1) else 0
  {
  }

  lemma FirstDigits(n: nat, p: nat)
    requires n < p
    ensures Digits(n, n, 0, 0, p)
  {
  }

  lemma LastDigit(n: nat, op: nat, res: nat, r: nat)
    requires Digits(n, op, res, r, 1)
    ensures res * res <= n < (res + 1) * (res + 1)
  {
    assert (r + 1) * (r + 1) == r * r + 2 * r + 1;
  }

  lemma SumFits(n: nat, op: nat, res: nat, r: nat, k: nat)
    requires n < WORD && k <= 31 && Digits(n, op, res, r, Pow4(k + 1)) && (k == 31 ==> r == 0)
    ensures res + 2 * Pow4(k) < WORD
  {
    NoOverflow(n, r, k);
  }

  /** The root of any 64-bit number, rounded down. */
  method GetSqrt(number: nat) returns (root: nat)
    requires number < WORD
    ensures root * root <= number < (root + 1) * (root + 1)
  {
    var op: nat, res: nat, one: nat := number, 0, 0;
    ghost var k: int, r: nat := 0, 0;
    one, k := FirstDigit(number);
    FirstDigits(number, Pow4(k + 1));
    assert Pow4(0) == 1;
    hide Pow4, Digits;
    while one != 0
      invariant -1 <= k <= 31 && one == (if k >= 0 then Pow4(k) else 0) && (k == 31 ==> r == 0)
      invariant Digits(number, op, res, r, Pow4(k + 1))
      decreases k + 1
    {
      Quarter(k);
      NextDigit(number, op, res, r, one);
      SumFits(number, op, res, r, k);
      assert res + 2 * one < WORD;
      if op >= res + one {
        op := op - (res + one);
        res := res + 2 * one;
        r := 2 * r + 1;
      } else {
        r := 2 * r;
      }
      res := res / 2;
      one := one / 4;
      k := k - 1;
    }
    root := res;
    LastDigit(number, op, res, r);
  }
}
