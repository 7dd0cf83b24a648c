/** The hash under which a name is found: what it computes, and which names it tells
apart. */
module NameHash {
  import opened InodeLogs

  const WORD: nat := 0x1_0000_0000_0000_0000
  const BASE: nat := 131

  function Pow(b: nat, n: nat): nat {
    if n == 0 then 1 else b * Pow(b, n - 1)
  }

  /** A byte is added as a signed number of eight bits. */
  lemma SignedByte(c: char)
    requires c as int < 256
    ensures -128 <= CharValue(c) < 128 && (CharValue(c) - c as int) % 256 == 0
  {
  }

  /** The name read as a number, without overflow. */
  function Value(name: string): int {
    if name == [] then 0 else Value(name[..|name| - 1]) * BASE + CharValue(name[|name| - 1])
  }

  lemma CutAgain(rest: int, k: int)
    ensures (rest + k * WORD) % WORD == rest % WORD
  {
  }

  lemma CutStep(h: nat, v: int, c: int)
    requires h == v % WORD
    ensures (h * BASE + c) % WORD == (v * BASE + c) % WORD
  {
    var x := v / WORD;
    assert v * BASE + c == (h * BASE + c) + (x * BASE) * WORD;
    CutAgain(h * BASE + c, x * BASE);
  }

  /** The hash is the name read as a number to the base 131, cut to 64 bits. */
  lemma {:induction false} HashIsValue(name: string)
    ensures Hash(name) == Value(name) % WORD
    decreases |name|
  {
    if name != [] {
      var front, last := name[..|name| - 1], CharValue(name[|name| - 1]);
      HashIsValue(front);
      CutStep(Hash(front), Value(front), last);
    }
  }

  lemma {:induction false} ValueConcat(a: string, b: string)
    ensures Value(a + b) == Value(a) * Pow(BASE, |b|) + Value(b)
    decreases |b|
  {
    if b == [] {
      assert a + b == a;
    } else {
      var front := b[..|b| - 1];
      assert (a + b)[..|a + b| - 1] == a + front;
      ValueConcat(a, front);
      Spread(Value(a), Pow(BASE, |front|), Value(front));
    }
  }

  lemma Spread(a: int, p: nat, v: int)
    ensures (a * p + v) * BASE == a * (BASE * p) + v * BASE
  {
  }

  /** The hash of a name in terms of the hashes of its parts. */
  lemma HashConcat(a: string, b: string)
    ensures Hash(a + b) == (Hash(a) * Pow(BASE, |b|) + Hash(b)) % WORD
  {
    HashIsValue(a);
    HashIsValue(b);
    HashIsValue(a + b);
    ValueConcat(a, b);
    CutSum(Value(a), Value(b), Pow(BASE, |b|));
  }

  lemma CutSum(a: int, b: int, p: nat)
    ensures (a * p + b) % WORD == ((a % WORD) * p + b % WORD) % WORD
  {
    var x, y := a / WORD, b / WORD;
    Regroup(a % WORD, x, p, b % WORD, y);
    CutAgain((a % WORD) * p + b % WORD, x * p + y);
  }

  lemma Regroup(a: int, x: int, p: nat, b: int, y: int)
    ensures (a + x * WORD) * p + (b + y * WORD) == a * p + b + (x * p + y) * WORD
  {
    assert (x * WORD) * p == (x * p) * WORD;
    assert (a + x * WORD) * p == a * p + (x * WORD) * p;
  }

  // ----- names that the hash tells apart -----------------------------------------------------------------

  /** At most nine characters, none of them 0 or beyond 127. */
  ghost predicate ShortName(name: string) {
    |name| <= 9 && forall i :: 0 <= i < |name| ==> 1 <= name[i] as int <= 127
  }

  lemma {:induction false} ValueBound(name: string)
    requires forall i :: 0 <= i < |name| ==> 1 <= name[i] as int <= 127
    ensures 0 <= Value(name) < Pow(BASE, |name|) && (name != [] ==> Value(name) > 0)
    decreases |name|
  {
    if name != [] {
      ValueBound(name[..|name| - 1]);
    }
  }

  lemma {:induction false} PowGrows(m: nat, n: nat)
    requires m <= n
    ensures Pow(BASE, m) <= Pow(BASE, n)
    decreases n
  {
    if m < n {
      PowGrows(m, n - 1);
    }
  }

  lemma NineFit()
    ensures Pow(BASE, 9) < WORD
  {
    assert Pow(BASE, 3) == 2248091;
    assert Pow(BASE, 6) == 5053913144281;
    assert Pow(BASE, 9) == 11361656654439817571;
  }

  /** A short name is hashed without overflow. */
  lemma ShortHash(name: string)
    requires ShortName(name)
    ensures Hash(name) == Value(name)
  {
    HashIsValue(name);
    ValueBound(name);
    PowGrows(|name|, 9);
    NineFit();
  }

  lemma {:induction false} ValueTellsApart(a: string, b: string)
    requires forall i :: 0 <= i < |a| ==> 1 <= a[i] as int <= 127
    requires forall i :: 0 <= i < |b| ==> 1 <= b[i] as int <= 127
    requires Value(a) == Value(b)
    ensures a == b
    decreases |a|
  {
    ValueBound(a);
    ValueBound(b);
    if a != [] && b != [] {
      var x, y := a[..|a| - 1], b[..|b| - 1];
      LastDigit(Value(x), a[|a| - 1] as int, Value(y), b[|b| - 1] as int);
      ValueTellsApart(x, y);
      assert a == x + [a[|a| - 1]] && b == y + [b[|b| - 1]];
    }
  }

  lemma LastDigit(x: nat, c: nat, y: nat, d: nat)
    requires c < BASE && d < BASE && x * BASE + c == y * BASE + d
    ensures x == y && c == d
  {
  }

  /** Different short names have different hashes. */
  lemma HashTellsApart(a: string, b: string)
    requires ShortName(a) && ShortName(b) && a != b
    ensures Hash(a) != Hash(b)
  {
    ShortHash(a);
    ShortHash(b);
    if Value(a) == Value(b) {
      ValueTellsApart(a, b);
    }
  }
}
