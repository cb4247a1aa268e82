/** Numbers as digits in some base, most significant first, and changing the base. */
module Digits {
  import opened Arithmetic

  ghost predicate Below(digits: seq<nat>, base: nat) { forall i :: 0 <= i < |digits| ==> digits[i] < base }

  function Value(digits: seq<nat>, base: nat): nat {
    if digits == [] then 0 else Value(digits[..|digits| - 1], base) * base + digits[|digits| - 1]
  }

  lemma Halving(n: nat, base: nat)
    requires n > 0 && base > 1
    ensures 0 <= n / base < n && 0 <= n % base < base && n == n / base * base + n % base
  {
    DivModOf(n, base);
    var q := n / base;
    if q < 0 { MulMonotone(q, -1, base); }
    MulMonotone(2, base, if q > 0 then q else 0);
  }

  /** The digits of a number without leading zeros; none for zero. */
  function Minimal(n: nat, base: nat): (digits: seq<nat>)
    requires base > 1
    decreases n
  {
    if n == 0 then [] else
      Halving(n, base);
      Minimal(n / base, base) + [n % base]
  }

  lemma {:induction false} MinimalFacts(n: nat, base: nat)
    requires base > 1
    ensures Below(Minimal(n, base), base) && Value(Minimal(n, base), base) == n
    ensures n == 0 <==> Minimal(n, base) == []
    ensures n > 0 ==> Minimal(n, base)[0] != 0
  {
    if n > 0 {
      Halving(n, base);
      MinimalFacts(n / base, base);
      var front, last := Minimal(n / base, base), n % base;
      assert (front + [last])[..|front|] == front;
      if n / base == 0 { assert n == n % base; }
    }
  }

  /** Digits that do not start with zero are the minimal ones of their value. */
  lemma {:induction false} MinimalUnique(digits: seq<nat>, base: nat)
    requires base > 1 && Below(digits, base) && (digits != [] ==> digits[0] != 0)
    ensures Minimal(Value(digits, base), base) == digits
    ensures digits != [] ==> Value(digits, base) > 0
  {
    if digits != [] {
      var front, last := digits[..|digits| - 1], digits[|digits| - 1];
      MinimalUnique(front, base);
      var v := Value(front, base);
      DivModUnique(v * base + last, base, v, last);
      if front != [] { MulMonotone(1, v, base); }
      assert digits == front + [last];
    }
  }

  function Zeros(n: nat): seq<nat> {
    seq(n, i => 0)
  }

  function Leading(digits: seq<nat>): (n: nat)
    ensures n <= |digits| && (forall i :: 0 <= i < n ==> digits[i] == 0)
    ensures n < |digits| ==> digits[n] != 0
  {
    if digits != [] && digits[0] == 0 then 1 + Leading(digits[1..]) else 0
  }

  lemma {:induction false} LeadingUnique(digits: seq<nat>, n: nat)
    requires n <= |digits| && (forall i :: 0 <= i < n ==> digits[i] == 0) && (n < |digits| ==> digits[n] != 0)
    ensures Leading(digits) == n
  {
  }

  /** Leading zeros do not count. */
  lemma {:induction false} ValueOfPadded(n: nat, digits: seq<nat>, base: nat)
    ensures Value(Zeros(n) + digits, base) == Value(digits, base)
  {
    if digits == [] {
      assert Zeros(n) + digits == Zeros(n);
      ValueOfZeros(n, base);
    } else {
      var front := digits[..|digits| - 1];
      ValueOfPadded(n, front, base);
      assert (Zeros(n) + digits)[..n + |digits| - 1] == Zeros(n) + front;
    }
  }

  lemma {:induction false} ValueOfZeros(n: nat, base: nat)
    ensures Value(Zeros(n), base) == 0
  {
    if n > 0 {
      ValueOfZeros(n - 1, base);
      assert Zeros(n)[..n - 1] == Zeros(n - 1);
      assert 0 * base == 0;
    }
  }

  lemma Stripped(digits: seq<nat>, base: nat)
    requires base > 1 && Below(digits, base)
    ensures digits == Zeros(Leading(digits)) + Minimal(Value(digits, base), base)
  {
    var n := Leading(digits);
    var rest := digits[n..];
    assert digits == Zeros(n) + rest;
    ValueOfPadded(n, rest, base);
    MinimalUnique(rest, base);
  }

  // ------------------------------------------------------- changing the base

  /** The number in the other base, with one leading zero for every leading zero. */
  function Convert(digits: seq<nat>, from: nat, to: nat): (converted: seq<nat>)
    requires from > 1 && to > 1
  {
    Zeros(Leading(digits)) + Minimal(Value(digits, from), to)
  }

  /** Converting back gives the digits back, leading zeros included, whatever the bases: so
      converting is a bijection between the digit strings of the two bases. */
  lemma ConvertBack(digits: seq<nat>, from: nat, to: nat)
    requires from > 1 && to > 1 && Below(digits, from)
    ensures Below(Convert(digits, from, to), to)
    ensures Convert(Convert(digits, from, to), to, from) == digits
  {
    var n, v := Leading(digits), Value(digits, from);
    var m := Minimal(v, to);
    MinimalFacts(v, to);
    LeadingUnique(Zeros(n) + m, n);
    ValueOfPadded(n, m, to);
    Stripped(digits, from);
  }

  // ------------------------------------------------------------- fixed widths

  function Pow(base: nat, k: nat): nat {
    if k == 0 then 1 else Pow(base, k - 1) * base
  }

  lemma {:induction false} ValueBound(digits: seq<nat>, base: nat)
    requires base > 0 && Below(digits, base)
    ensures Value(digits, base) < Pow(base, |digits|)
  {
    if digits != [] {
      var front := digits[..|digits| - 1];
      ValueBound(front, base);
      MulMonotone(Value(front, base) + 1, Pow(base, |front|), base);
      assert (Value(front, base) + 1) * base == Value(front, base) * base + base;
    }
  }

  lemma {:induction false} MinimalLength(n: nat, base: nat, k: nat)
    requires base > 1 && n < Pow(base, k)
    ensures |Minimal(n, base)| <= k
  {
    if n > 0 {
      Halving(n, base);
      if k > 0 {
        if n / base >= Pow(base, k - 1) { MulMonotone(Pow(base, k - 1), n / base, base); }
        MinimalLength(n / base, base, k - 1);
      }
    }
  }

  /** `n` with zeros up to `width` digits. */
  function Fixed(n: nat, base: nat, width: nat): (digits: seq<nat>)
    requires base > 1
  {
    var m := Minimal(n, base);
    Zeros(if |m| < width then width - |m| else 0) + m
  }

  /** Fixed-width digits and numbers below base^width are in bijection. */
  lemma FixedBack(n: nat, base: nat, width: nat)
    requires base > 1 && n < Pow(base, width)
    ensures |Fixed(n, base, width)| == width && Below(Fixed(n, base, width), base)
    ensures Value(Fixed(n, base, width), base) == n
  {
    MinimalFacts(n, base);
    MinimalLength(n, base, width);
    var m := Minimal(n, base);
    ValueOfPadded(width - |m|, m, base);
  }

  lemma FixedOf(digits: seq<nat>, base: nat)
    requires base > 1 && Below(digits, base)
    ensures Fixed(Value(digits, base), base, |digits|) == digits
  {
    Stripped(digits, base);
  }

  lemma {:induction false} PowMonotone(base: nat, a: nat, b: nat)
    requires base > 0 && a <= b
    ensures 0 < Pow(base, a) <= Pow(base, b)
  {
    if b > 0 {
      if a < b {
        PowMonotone(base, a, b - 1);
        MulMonotone(1, base, Pow(base, b - 1));
      } else {
        PowMonotone(base, a - 1, a - 1);
        MulMonotone(1, Pow(base, a - 1), base);
      }
    }
  }

  /** A number has at most `k` digits exactly when it is below base^k. */
  lemma FitsExactly(n: nat, base: nat, k: nat)
    requires base > 1
    ensures |Minimal(n, base)| <= k <==> n < Pow(base, k)
  {
    if n < Pow(base, k) { MinimalLength(n, base, k); }
    MinimalFacts(n, base);
    ValueBound(Minimal(n, base), base);
    if |Minimal(n, base)| <= k { PowMonotone(base, |Minimal(n, base)|, k); }
  }

  /** Widening fixed-width digits. */
  lemma FixedWiden(n: nat, base: nat, k: nat, width: nat)
    requires base > 1
    ensures Zeros(if |Fixed(n, base, k)| < width then width - |Fixed(n, base, k)| else 0) + Fixed(n, base, k)
         == Fixed(n, base, if k > width then k else width)
  {
  }

  lemma {:induction false} PowAdd(base: nat, a: nat, b: nat)
    ensures Pow(base, a + b) == Pow(base, a) * Pow(base, b)
  {
    if b > 0 {
      PowAdd(base, a, b - 1);
    }
  }
}
