/**
 * Positional notation over an arbitrary radix.
 *
 * Both halves of the passcode pipeline are positional conversions: the
 * 128-bit codec splits an integer into sixteen base-256 digits, and the
 * passcode generator spells an integer as base-|alphabet| digits.  This
 * module defines the digits of a number (least significant first) and the
 * value of a digit sequence, once, and proves that they are inverse to each
 * other.
 */
module Radix {

  /** b raised to the e-th power. */
  function Pow(b: nat, e: nat): (r: nat)
    ensures b >= 1 ==> r >= 1
  {
    if e == 0 then 1 else b * Pow(b, e - 1)
  }

  lemma {:induction false} PowAdd(b: nat, m: nat, n: nat)
    ensures Pow(b, m + n) == Pow(b, m) * Pow(b, n)
  {
    if n > 0 {
      PowAdd(b, m, n - 1);
      var x, y := Pow(b, m), Pow(b, n - 1);
      assert Pow(b, m + n) == b * (x * y);
      MulAssoc(b, x, y);
      MulAssoc(x, b, y);
      assert Pow(b, n) == b * y;
    }
  }

  /** Raising to a product of exponents: (b^m)^n == b^(m*n). */
  lemma {:induction false} PowMul(b: nat, m: nat, n: nat)
    ensures Pow(Pow(b, m), n) == Pow(b, m * n)
  {
    if n > 0 {
      PowMul(b, m, n - 1);
      PowAdd(b, m, m * (n - 1));
      assert m * n == m + m * (n - 1);
    }
  }

  /** Euclidean division is unique. */
  lemma DivModUnique(n: int, d: int, q: int, r: int)
    requires d > 0 && 0 <= r < d && n == d * q + r
    ensures n / d == q && n % d == r
  {
    var q', r' := n / d, n % d;
    assert n == d * q' + r' && 0 <= r' < d;
    assert d * (q - q') == r' - r;
    if q' < q {
      MulAtLeast(d, q - q');
    } else if q' > q {
      MulAtLeast(d, q' - q);
    }
  }

  lemma MulAtLeast(d: int, k: int)
    requires d > 0 && k >= 1
    ensures d * k >= d
  {
  }

  /**
   * Dividing by a and then by b is dividing by a*b, and the remainder
   * modulo a*b is made of the remainder modulo a and the next digit.
   */
  lemma DivModNested(n: nat, a: nat, b: nat)
    requires a > 0 && b > 0
    ensures n / a / b == n / (a * b)
    ensures n % (a * b) == n % a + a * ((n / a) % b)
  {
    var q, r := n / a, n % a;
    var q2, r2 := q / b, q % b;
    assert n == a * q + r;
    assert q == b * q2 + r2;
    assert n == (a * b) * q2 + (a * r2 + r) by {
      MulDistrib(a, b * q2, r2);
      MulAssoc(a, b, q2);
    }
    assert a * r2 + r < a * b by {
      MulMono(a, r2, b - 1);
      MulDistrib(a, b - 1, 1);
    }
    DivModUnique(n, a * b, q2, a * r2 + r);
  }

  lemma MulDistrib(a: int, x: int, y: int)
    ensures a * (x + y) == a * x + a * y
  {
  }

  lemma MulAssoc(a: int, b: int, c: int)
    ensures a * (b * c) == (a * b) * c
  {
  }

  lemma MulMono(a: nat, x: int, y: int)
    requires x <= y
    ensures a * x <= a * y
  {
    MulDistrib(a, x, y - x);
  }

  /** The first `count` digits of n in the given radix, least significant first. */
  function Digits(n: nat, radix: nat, count: nat): (ds: seq<nat>)
    requires radix >= 1
    ensures |ds| == count
    ensures forall j {:trigger ds[j]} :: 0 <= j < count ==> ds[j] == (n / Pow(radix, j)) % radix
    ensures forall j :: 0 <= j < count ==> ds[j] < radix
  {
    if count == 0 then []
    else
      var rest := Digits(n / radix, radix, count - 1);
      DigitsCons(n, radix, count, rest);
      [n % radix] + rest
  }

  lemma DigitsCons(n: nat, radix: nat, count: nat, rest: seq<nat>)
    requires radix >= 1 && count >= 1 && |rest| == count - 1
    requires forall j {:trigger rest[j]} :: 0 <= j < count - 1 ==> rest[j] == (n / radix / Pow(radix, j)) % radix
    ensures forall j {:trigger ([n % radix] + rest)[j]} :: 0 <= j < count ==> ([n % radix] + rest)[j] == (n / Pow(radix, j)) % radix
  {
    forall j | 0 <= j < count
      ensures ([n % radix] + rest)[j] == (n / Pow(radix, j)) % radix
    {
      if j == 0 {
        assert Pow(radix, 0) == 1;
      } else {
        DivModNested(n, radix, Pow(radix, j - 1));
        assert ([n % radix] + rest)[j] == rest[j - 1];
      }
    }
  }

  /** The number written by the digit sequence ds, least significant digit first. */
  function FromDigits(ds: seq<nat>, radix: nat): nat
  {
    if |ds| == 0 then 0 else ds[0] + radix * FromDigits(ds[1..], radix)
  }

  ghost predicate AllDigits(ds: seq<nat>, radix: nat)
  {
    forall j :: 0 <= j < |ds| ==> ds[j] < radix
  }

  /** A sequence of valid digits writes a number below radix^|ds|. */
  lemma {:induction false} FromDigitsBound(ds: seq<nat>, radix: nat)
    requires AllDigits(ds, radix)
    ensures FromDigits(ds, radix) < Pow(radix, |ds|)
  {
    if |ds| > 0 {
      FromDigitsBound(ds[1..], radix);
      var rest := FromDigits(ds[1..], radix);
      var p := Pow(radix, |ds| - 1);
      assert FromDigits(ds, radix) == ds[0] + radix * rest;
      assert ds[0] + 1 <= radix;
      assert radix * (rest + 1) <= radix * p by {
        MulMono(radix, rest + 1, p);
      }
      MulDistrib(radix, rest, 1);
      assert Pow(radix, |ds|) == radix * p;
    }
  }

  /** Appending a most significant digit d adds d * radix^|ds|. */
  lemma {:induction false} FromDigitsAppend(ds: seq<nat>, d: nat, radix: nat)
    ensures FromDigits(ds + [d], radix) == FromDigits(ds, radix) + d * Pow(radix, |ds|)
  {
    if |ds| == 0 {
      assert ds + [d] == [d];
      assert [d][1..] == [];
    } else {
      assert (ds + [d])[1..] == ds[1..] + [d];
      FromDigitsAppend(ds[1..], d, radix);
      var rest, p := FromDigits(ds[1..], radix), Pow(radix, |ds| - 1);
      calc {
        FromDigits(ds + [d], radix);
        ds[0] + radix * FromDigits(ds[1..] + [d], radix);
        ds[0] + radix * (rest + d * p);
      == { MulDistrib(radix, rest, d * p); MulAssoc(radix, d, p); }
        ds[0] + radix * rest + (radix * d) * p;
      == { MulAssoc(d, radix, p); }
        FromDigits(ds, radix) + d * Pow(radix, |ds|);
      }
    }
  }

  /** Reading back the first `count` digits of n gives n modulo radix^count. */
  lemma {:induction false} FromDigitsOfDigits(n: nat, radix: nat, count: nat)
    requires radix >= 1
    ensures FromDigits(Digits(n, radix, count), radix) == n % Pow(radix, count)
    decreases count
  {
    if count > 0 {
      FromDigitsOfDigits(n / radix, radix, count - 1);
      FromDigitsOfDigitsStep(n, radix, count);
    }
  }

  /** The inductive step of FromDigitsOfDigits: one more digit on the low end. */
  lemma FromDigitsOfDigitsStep(n: nat, radix: nat, count: nat)
    requires radix >= 1 && count >= 1
    requires FromDigits(Digits(n / radix, radix, count - 1), radix) == (n / radix) % Pow(radix, count - 1)
    ensures FromDigits(Digits(n, radix, count), radix) == n % Pow(radix, count)
  {
    var m := n / radix;
    var p := Pow(radix, count - 1);
    var rest := Digits(m, radix, count - 1);
    assert Pow(radix, count) == radix * p;
    assert FromDigits(Digits(n, radix, count), radix) == n % radix + radix * FromDigits(rest, radix) by {
      assert Digits(n, radix, count) == [n % radix] + rest;
      FromDigitsCons(n % radix, rest, radix);
    }
    DivModNested(n, radix, p);
  }

  lemma FromDigitsCons(d: nat, ds: seq<nat>, radix: nat)
    ensures FromDigits([d] + ds, radix) == d + radix * FromDigits(ds, radix)
  {
    assert ([d] + ds)[1..] == ds;
  }

  /** Valid digits survive a round trip through their value. */
  lemma {:induction false} DigitsOfFromDigits(ds: seq<nat>, radix: nat)
    requires radix >= 1 && AllDigits(ds, radix)
    ensures Digits(FromDigits(ds, radix), radix, |ds|) == ds
  {
    if |ds| > 0 {
      var rest := FromDigits(ds[1..], radix);
      var n := ds[0] + radix * rest;
      assert n / radix == rest && n % radix == ds[0] by {
        DivModUnique(n, radix, rest, ds[0]);
      }
      DigitsOfFromDigits(ds[1..], radix);
      calc {
        Digits(FromDigits(ds, radix), radix, |ds|);
        Digits(n, radix, |ds|);
        [n % radix] + Digits(n / radix, radix, |ds| - 1);
        [ds[0]] + Digits(rest, radix, |ds[1..]|);
        [ds[0]] + ds[1..];
        ds;
      }
    }
  }

  /** Two numbers have the same first `count` digits exactly when they agree modulo radix^count. */
  lemma DigitsAgreeIffCongruent(a: nat, b: nat, radix: nat, count: nat)
    requires radix >= 1
    ensures Digits(a, radix, count) == Digits(b, radix, count)
        <==> a % Pow(radix, count) == b % Pow(radix, count)
  {
    FromDigitsOfDigits(a, radix, count);
    FromDigitsOfDigits(b, radix, count);
    if a % Pow(radix, count) == b % Pow(radix, count) {
      var ds, es := Digits(a, radix, count), Digits(b, radix, count);
      DigitsOfFromDigits(ds, radix);
      DigitsOfFromDigits(es, radix);
    }
  }
}
