/** Numbers by their digits: what a digit at a place says, and that the digits say all. */
module Digits {
  import opened Numbers

  /** The digit of `n` at place `i`. */
  function Digit(n: nat, base: nat, i: nat): nat
    requires base > 0
  {
    PowerPositive(base, i);
    n / Power(base, i) % base
  }

  /** `ds` are the digits of `n`, the least significant first. */
  predicate HasDigits(n: nat, base: nat, ds: seq<nat>)
    requires base > 0
  {
    n < Power(base, |ds|) && forall i: nat | i < |ds| :: ds[i] == Digit(n, base, i)
  }

  /** The number with the given digits. */
  function NumberOf(base: nat, ds: seq<nat>): nat {
    if |ds| == 0 then 0 else ds[0] + base * NumberOf(base, ds[1..])
  }

  lemma {:induction false} PowerPositive(base: nat, k: nat)
    requires base > 0
    ensures Power(base, k) > 0
  {
    if k > 0 { PowerPositive(base, k - 1); }
  }

  lemma DivUnique(x: nat, d: nat, q: nat, r: nat)
    requires x == d * q + r && r < d
    ensures x / d == q && x % d == r
  {
    var e := q - x / d;
    assert d * e == x % d - r by {
      assert x == d * (x / d) + x % d;
      assert d * e == d * q - d * (x / d);
    }
    Between(d, e);
  }

  lemma Between(d: nat, e: int)
    requires -(d as int) < d * e < d
    ensures e == 0
  {
    if e >= 1 {
      assert d * e == d + d * (e - 1);
      Nonnegative(d, e - 1);
    } else if e <= -1 {
      assert d * e == -(d as int) - d * (-e - 1);
      Nonnegative(d, -e - 1);
    }
  }

  lemma Nonnegative(a: nat, b: nat)
    ensures a * b >= 0
  {
  }

  lemma ModShift(m: nat, q: nat, y: nat)
    requires m > 0
    ensures (m * q + y) % m == y % m
  {
    var p := y / m;
    assert m * q + y == m * (q + p) + y % m by {
      assert y == m * p + y % m;
      assert m * (q + p) == m * q + m * p;
    }
    DivUnique(m * q + y, m, q + p, y % m);
  }

  /** Cutting a factor to `m` does not show in what is cut to `m`. */
  lemma ModStep(x: nat, m: nat, f: nat)
    requires m > 0
    ensures (x % m * f + 1) % m == (x * f + 1) % m
  {
    var q, r := x / m, x % m;
    assert x * f + 1 == m * (q * f) + (r * f + 1) by {
      assert x == m * q + r;
      assert (m * q + r) * f == m * q * f + r * f;
      assert m * q * f == m * (q * f);
    }
    ModShift(m, q * f, r * f + 1);
  }

  lemma DivDiv(x: nat, a: nat, b: nat)
    requires a > 0 && b > 0
    ensures a * b > 0 && x / a / b == x / (a * b)
  {
    var q, r := x / a, x % a;
    var p, s := q / b, q % b;
    assert x == a * b * p + (a * s + r) by {
      assert x == a * q + r && q == b * p + s;
      assert a * (b * p + s) == a * b * p + a * s;
    }
    assert a * s + r < a * b by {
      assert a * (b - s - 1) >= 0 by { Nonnegative(a, b - s - 1); }
      assert a * (b - s - 1) == a * b - a * s - a;
    }
    DivUnique(x, a * b, p, a * s + r);
  }

  /** The digits of a number are its last digit and the digits of the rest. */
  lemma DigitNext(n: nat, base: nat, i: nat)
    requires base > 0
    ensures Digit(n, base, 0) == n % base
    ensures Digit(n, base, i + 1) == Digit(n / base, base, i)
  {
    PowerPositive(base, i);
    DivDiv(n, base, Power(base, i));
  }

  lemma {:induction false} NumberDigits(base: nat, ds: seq<nat>)
    requires base > 0 && forall i: nat | i < |ds| :: ds[i] < base
    ensures HasDigits(NumberOf(base, ds), base, ds)
    decreases |ds|
  {
    var n := NumberOf(base, ds);
    if |ds| > 0 {
      var more := ds[1..];
      var m := NumberOf(base, more);
      NumberDigits(base, more);
      DivUnique(n, base, m, ds[0]);
      forall i: nat | i < |ds| ensures ds[i] == Digit(n, base, i) {
        if i == 0 {
          DigitNext(n, base, 0);
        } else {
          DigitNext(n, base, i - 1);
          assert more[i - 1] == ds[i];
        }
      }
      NextBelow(base, ds[0], m, Power(base, |more|));
    }
  }

  lemma NextBelow(base: nat, d: nat, m: nat, p: nat)
    requires d < base && m < p
    ensures d + base * m < base * p
  {
    assert base * p - base * m == base * (p - m);
    assert base * (p - m) == base + base * (p - m - 1);
    Nonnegative(base, p - m - 1);
  }

  lemma DivBelow(n: nat, base: nat, p: nat)
    requires base > 0 && n < base * p
    ensures n / base < p
  {
    var q := n / base;
    assert n == base * q + n % base;
  }

  /** A number is the number of its digits. */
  lemma {:induction false} DigitsNumber(n: nat, base: nat, ds: seq<nat>)
    requires base > 0 && HasDigits(n, base, ds)
    ensures NumberOf(base, ds) == n
    decreases |ds|
  {
    hide Digit;
    if |ds| > 0 {
      var more := ds[1..];
      forall i: nat | i < |more| ensures more[i] == Digit(n / base, base, i) {
        DigitNext(n, base, i);
        assert more[i] == ds[i + 1];
      }
      DivBelow(n, base, Power(base, |more|));
      DigitsNumber(n / base, base, more);
      DigitNext(n, base, 0);
      assert n == base * (n / base) + n % base;
    }
  }
}
