/** Positional numbers: digit strings in any base, their values, and the digits that a value has. */
module Radix {

  function Pow(b: nat, n: nat): (p: nat)
    ensures b > 0 ==> p > 0
  {
    if n == 0 then 1 else Mul(b, Pow(b, n - 1))
  }

  function Mul(a: nat, b: nat): (p: nat)
    ensures p == a * b
    ensures a > 0 && b > 0 ==> p > 0
  {
    a * b
  }

  lemma MulMonotone(a: nat, b: nat, c: nat)
    requires b <= c
    ensures a * b <= a * c && b * a <= c * a
  {
  }

  lemma MulAssociative(a: nat, b: nat, c: nat)
    ensures a * (b * c) == (a * b) * c
  {
  }

  lemma MulDistributes(a: nat, b: nat, c: nat)
    ensures a * (b + c) == a * b + a * c
  {
  }

  lemma MulStrict(a: nat, b: nat, c: nat)
    requires a > 0 && b < c
    ensures a * b < a * c && b * a < c * a
  {
    MulMonotone(a, b + 1, c);
  }

  /** The value of a digit string, least significant digit first. */
  function Val(s: seq<nat>, b: nat): nat {
    if s == [] then 0 else s[0] + b * Val(s[1..], b)
  }

  /** Every digit is below the base. */
  ghost predicate Digital(s: seq<nat>, b: nat) {
    forall i :: 0 <= i < |s| ==> s[i] < b
  }

  /** No superfluous leading zero; zero itself is written with one digit. */
  ghost predicate Canonical(s: seq<nat>, b: nat) {
    s != [] && Digital(s, b) && (|s| > 1 ==> s[|s| - 1] != 0)
  }

  function Quotient(v: nat, b: nat): nat
    requires b > 0
  {
    v / b
  }

  function Remainder(v: nat, b: nat): nat
    requires b > 0
  {
    v % b
  }

  /** The digits of a number, least significant first. */
  function Digits(v: nat, b: nat): seq<nat>
    requires b > 1
    decreases v
  {
    if v < b then [v]
    else
      assert Quotient(v, b) < v by { DivSmaller(v, b); }
      [Remainder(v, b)] + Digits(Quotient(v, b), b)
  }

  lemma DivSmaller(v: nat, b: nat)
    requires 1 < b <= v
    ensures 0 < Quotient(v, b) < v
    ensures Remainder(v, b) < b && v == Remainder(v, b) + b * Quotient(v, b)
  {
    var q := v / b;
    assert v == b * q + v % b;
    MulMonotone(q, 2, b);
  }

  lemma PrependDigit(d: nat, t: seq<nat>, b: nat)
    requires d < b && Canonical(t, b) && Val(t, b) > 0
    ensures Canonical([d] + t, b) && Val([d] + t, b) == d + b * Val(t, b)
  {
    assert ([d] + t)[1..] == t;
    if |t| == 1 { assert t[1..] == [] && t[0] == Val(t, b); }
  }

  lemma {:induction false} DigitsCanonical(v: nat, b: nat)
    requires b > 1
    ensures Canonical(Digits(v, b), b) && Val(Digits(v, b), b) == v
    decreases v
  {
    hide Val, Canonical, Quotient, Remainder;
    if v < b {
      OneDigit(v, b);
    } else {
      DivSmaller(v, b);
      DigitsCanonical(Quotient(v, b), b);
      PrependDigit(Remainder(v, b), Digits(Quotient(v, b), b), b);
    }
  }

  lemma OneDigit(d: nat, b: nat)
    requires d < b
    ensures Canonical([d], b) && Val([d], b) == d
  {
    assert [d][1..] == [];
  }

  lemma {:induction false} PositiveValue(s: seq<nat>, b: nat)
    requires s != [] && s[|s| - 1] != 0 && b > 0
    ensures Val(s, b) > 0
  {
    if |s| > 1 {
      PositiveValue(s[1..], b);
      assert b * Val(s[1..], b) > 0;
    }
  }

  lemma SplitDigit(d: nat, q: nat, b: nat)
    requires d < b
    ensures (d + b * q) % b == d && (d + b * q) / b == q
  {
    var v := d + b * q;
    assert v == b * (v / b) + v % b;
    DivideOnce(b, v / b, v % b, q, d);
  }

  lemma DivideOnce(b: nat, q: int, d: nat, r: int, e: nat)
    requires b * q + d == b * r + e && d < b && e < b
    ensures q == r && d == e
  {
    var base: int, gap: int := b, q - r;
    assert base * gap == e - d;
    assert gap >= 1 ==> base * gap >= base;
    assert gap <= -1 ==> base * gap + base <= 0;
  }

  /** A canonical string is the one that its value has. */
  lemma {:induction false} CanonicalUnique(s: seq<nat>, b: nat)
    requires b > 1 && Canonical(s, b)
    ensures Digits(Val(s, b), b) == s
  {
    if |s| == 1 {
      assert Val(s, b) == s[0] + b * Val(s[1..], b);
    } else {
      var t := s[1..];
      CanonicalUnique(t, b);
      PositiveValue(t, b);
      SplitDigit(s[0], Val(t, b), b);
      MulMonotone(b, 1, Val(t, b));
    }
  }

  // ----- Most significant digit first -----

  function Reverse<T>(s: seq<T>): (r: seq<T>)
    ensures |r| == |s| && forall i :: 0 <= i < |s| ==> r[i] == s[|s| - 1 - i]
  {
    if s == [] then [] else Reverse(s[1..]) + [s[0]]
  }

  lemma ReverseTwice<T>(s: seq<T>)
    ensures Reverse(Reverse(s)) == s
  {
  }

  /** The value of a digit string, most significant digit first. */
  function BigEndian(s: seq<nat>, b: nat): nat {
    if s == [] then 0 else b * BigEndian(s[..|s| - 1], b) + s[|s| - 1]
  }

  lemma {:induction false} BigEndianReverse(s: seq<nat>, b: nat)
    ensures BigEndian(s, b) == Val(Reverse(s), b)
  {
    if s != [] {
      var t := s[..|s| - 1];
      BigEndianReverse(t, b);
      assert Reverse(s) == [s[|s| - 1]] + Reverse(t);
      assert Reverse(s)[1..] == Reverse(t);
    }
  }

  lemma BigEndianStep(s: seq<nat>, i: nat, b: nat)
    requires i < |s|
    ensures BigEndian(s[..i + 1], b) == b * BigEndian(s[..i], b) + s[i]
  {
    assert s[..i + 1][..i] == s[..i];
  }

  lemma StepBound(b: nat, v: nat, p: nat, d: nat)
    requires v < p && d < b
    ensures b * v + d < b * p
  {
    MulMonotone(b, v + 1, p);
  }

  lemma {:induction false} BigEndianBound(s: seq<nat>, b: nat)
    requires Digital(s, b)
    ensures BigEndian(s, b) < Pow(b, |s|)
  {
    if s != [] {
      var t := s[..|s| - 1];
      BigEndianBound(t, b);
      StepBound(b, BigEndian(t, b), Pow(b, |s| - 1), s[|s| - 1]);
    }
  }

  // ----- Powers -----

  lemma {:induction false} PowAdd(b: nat, m: nat, n: nat)
    ensures Pow(b, m + n) == Pow(b, m) * Pow(b, n)
  {
    if m > 0 {
      PowAdd(b, m - 1, n);
      MulAssociative(b, Pow(b, m - 1), Pow(b, n));
    }
  }

  lemma {:induction false} PowMonotone(a: nat, b: nat, n: nat)
    requires a <= b
    ensures Pow(a, n) <= Pow(b, n)
  {
    if n > 0 {
      PowMonotone(a, b, n - 1);
      MulMonotone(a, Pow(a, n - 1), Pow(b, n - 1));
      MulMonotone(Pow(b, n - 1), a, b);
    }
  }

  lemma {:induction false} PowStrict(a: nat, b: nat, n: nat)
    requires a < b && n > 0
    ensures Pow(a, n) < Pow(b, n)
  {
    if n == 1 {
      assert Pow(a, 1) == a * Pow(a, 0) && Pow(b, 1) == b * Pow(b, 0);
    } else {
      PowStrict(a, b, n - 1);
      MulMonotone(a, Pow(a, n - 1), Pow(b, n - 1));
      MulStrict(Pow(b, n - 1), a, b);
    }
  }

  lemma {:induction false} PowGrows(b: nat, m: nat, n: nat)
    requires b > 0 && m <= n
    ensures Pow(b, m) <= Pow(b, n)
  {
    PowAdd(b, n - m, m);
    MulMonotone(Pow(b, m), 1, Pow(b, n - m));
  }

  lemma {:induction false} PowMul(b: nat, m: nat, n: nat)
    ensures Pow(b, m * n) == Pow(Pow(b, m), n)
  {
    if n == 0 {
      assert m * n == 0;
    } else {
      PowMul(b, m, n - 1);
      assert m * n == m + m * (n - 1);
      PowAdd(b, m, m * (n - 1));
    }
  }

  // ----- Lengths -----

  lemma {:induction false} ValBounds(s: seq<nat>, b: nat)
    requires b > 1 && Canonical(s, b)
    ensures |s| > 1 ==> Pow(b, |s| - 1) <= Val(s, b)
  {
    if |s| > 1 {
      ValBounds(s[1..], b);
      PositiveValue(s[1..], b);
      MulMonotone(b, if |s| == 2 then 1 else Pow(b, |s| - 2), Val(s[1..], b));
    }
  }

  /** A value below `b^n` has at most `n` digits. */
  lemma DigitsLength(v: nat, b: nat, n: nat)
    requires b > 1 && n > 0 && v < Pow(b, n)
    ensures |Digits(v, b)| <= n
  {
    var s := Digits(v, b);
    DigitsCanonical(v, b);
    ValBounds(s, b);
    if |s| > n { PowGrows(b, n, |s| - 1); }
  }
}
