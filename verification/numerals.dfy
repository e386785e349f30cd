/** Positional notation for natural numbers, shared by the hexadecimal
    rendering of `BigInteger.toString(16)` and the decimal rendering of
    `String.format("%d")`. Digits are most significant first. */
module Numerals {

  function Pow(base: nat, k: nat): (p: nat)
    ensures base >= 1 ==> p >= 1
  {
    if k == 0 then 1 else base * Pow(base, k - 1)
  }

  lemma {:induction false} PowAdd(base: nat, m: nat, n: nat)
    ensures Pow(base, m + n) == Pow(base, m) * Pow(base, n)
    decreases n
  {
    if n > 0 {
      PowAdd(base, m, n - 1);
      calc {
        Pow(base, m + n);
        base * Pow(base, m + n - 1);
        base * (Pow(base, m) * Pow(base, n - 1));
        { assert base * (Pow(base, m) * Pow(base, n - 1)) == Pow(base, m) * (base * Pow(base, n - 1)); }
        Pow(base, m) * Pow(base, n);
      }
    }
  }

  lemma MulMonotone(a: int, b: int, c: int)
    requires 0 <= c && a <= b
    ensures a * c <= b * c
  {}

  lemma MulCancel(q: int, p: int, b: int)
    requires b > 0 && q * b < p * b
    ensures q < p
  {}

  /** Euclidean division by a base of at least two, in the form the proofs
      below consume. */
  lemma DivideByBase(n: nat, base: nat)
    requires base >= 2
    ensures n == (n / base) * base + n % base
    ensures 0 <= n % base < base
    ensures n >= base ==> 1 <= n / base < n
  {
    var q, r := n / base, n % base;
    assert n == q * base + r;
    if n >= base {
      MulCancel(0, q, base);
      MulMonotone(2, base, q);
    }
  }

  /** A number below `base * p` has a quotient below `p`. */
  lemma QuotientBelow(n: nat, base: nat, p: nat)
    requires base >= 2 && n < base * p
    ensures n / base < p
  {
    DivideByBase(n, base);
    MulCancel(n / base, p, base);
  }

  /** The value of a digit sequence read in `base`, most significant first. */
  function DigitsToNat(ds: seq<nat>, base: nat): nat
  {
    if ds == [] then 0 else DigitsToNat(ds[..|ds| - 1], base) * base + ds[|ds| - 1]
  }

  /** The shortest digit sequence of `n` in `base`: never empty, every digit
      below the base, and no leading zero unless the number is zero. */
  function NatToDigits(n: nat, base: nat): (ds: seq<nat>)
    requires base >= 2
    ensures |ds| >= 1
    ensures forall i :: 0 <= i < |ds| ==> ds[i] < base
    ensures ds[0] == 0 ==> n == 0
    decreases n
  {
    DivideByBase(n, base);
    if n < base then [n] else NatToDigits(n / base, base) + [n % base]
  }

  /** Reading the digits back gives the number. */
  lemma {:induction false} DigitsRoundTrip(n: nat, base: nat)
    requires base >= 2
    ensures DigitsToNat(NatToDigits(n, base), base) == n
    decreases n
  {
    DivideByBase(n, base);
    if n >= base {
      var ds := NatToDigits(n, base);
      assert ds[..|ds| - 1] == NatToDigits(n / base, base);
      DigitsRoundTrip(n / base, base);
    }
  }

  /** A number below `base^k` needs at most `k` digits. */
  lemma {:induction false} DigitsLength(n: nat, base: nat, k: nat)
    requires base >= 2 && k >= 1
    requires n < Pow(base, k)
    ensures |NatToDigits(n, base)| <= k
    decreases n
  {
    DivideByBase(n, base);
    if n >= base {
      assert Pow(base, 1) == base;
      assert k >= 2;
      QuotientBelow(n, base, Pow(base, k - 1));
      DigitsLength(n / base, base, k - 1);
    }
  }
}
