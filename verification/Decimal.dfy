/** Decimal numerals of any length. */
module Decimal {
  import opened ExactWrite

  const ZERO: byte := 0x30

  /** The canonical numeral of `n`. */
  function Digits(n: nat): bytes {
    (if n < 10 then [] else Digits(n / 10)) + [ZERO + (n % 10) as byte]
  }

  predicate IsDigit(b: byte) {
    ZERO <= b <= 0x39
  }

  predicate AllDigits(s: bytes) {
    forall i | 0 <= i < |s| :: IsDigit(s[i])
  }

  /** No sign, no other character, and no leading zero. */
  predicate Canonical(s: bytes) {
    s != [] && AllDigits(s) && (|s| > 1 ==> s[0] != ZERO)
  }

  function Value(s: bytes): nat
    requires AllDigits(s)
  {
    if s == [] then 0 else Value(s[..|s| - 1]) * 10 + (s[|s| - 1] - ZERO) as int
  }

  /** Canonical numerals and naturals correspond one to one. */
  lemma {:induction false} DigitsAreCanonical(n: nat)
    ensures Canonical(Digits(n)) && Value(Digits(n)) == n
  {
    var d := Digits(n);
    if n >= 10 {
      DigitsAreCanonical(n / 10);
      assert d[..|d| - 1] == Digits(n / 10);
      PositiveStart(n / 10);
    }
  }

  lemma {:induction false} PositiveStart(n: nat)
    requires n > 0
    ensures Digits(n)[0] != ZERO
    decreases n
  {
    if n >= 10 {
      PositiveStart(n / 10);
    }
  }

  lemma {:induction false} CanonicalIsDigits(s: bytes)
    requires Canonical(s)
    ensures s == Digits(Value(s))
    ensures |s| > 1 ==> Value(s) > 0
    decreases |s|
  {
    var m := |s| - 1;
    if m > 0 {
      CanonicalIsDigits(s[..m]);
      assert Value(s) / 10 == Value(s[..m]) && Value(s) % 10 == (s[m] - ZERO) as int;
      if m == 1 { assert Value(s[..1]) == Value([]) * 10 + (s[0] - ZERO) as int; }
    }
    assert s == s[..m] + [s[m]];
  }

  /** A numeral holds nothing but digits. */
  lemma {:induction false} DigitsHold(n: nat, b: byte)
    requires !IsDigit(b)
    ensures b !in Digits(n)
  {
    DigitsAreCanonical(n);
  }

  // ----- order -----

  function Power(k: nat): (r: nat)
    ensures r >= 1
  {
    if k == 0 then 1 else 10 * Power(k - 1)
  }

  lemma {:induction false} ValueBounds(s: bytes)
    requires AllDigits(s)
    ensures Value(s) < Power(|s|)
    ensures s != [] && s[0] != ZERO ==> Value(s) >= Power(|s| - 1)
  {
    if s != [] {
      ValueBounds(s[..|s| - 1]);
    }
  }

  lemma {:induction false} PowerGrows(i: nat, j: nat)
    requires i <= j
    ensures Power(i) <= Power(j)
    decreases j
  {
    if i < j {
      PowerGrows(i, j - 1);
    }
  }

  /** strings.Compare. */
  function Compare(a: bytes, b: bytes): (r: int)
    ensures -1 <= r <= 1
  {
    if a == [] && b == [] then 0
    else if a == [] then -1
    else if b == [] then 1
    else if a[0] < b[0] then -1
    else if a[0] > b[0] then 1
    else Compare(a[1..], b[1..])
  }

  lemma {:induction false} ValueFromFront(s: bytes)
    requires s != [] && AllDigits(s)
    ensures Value(s) == (s[0] - ZERO) as int * Power(|s| - 1) + Value(s[1..])
    decreases |s|
  {
    var m := |s| - 1;
    if m > 0 {
      ValueFromFront(s[..m]);
      assert s[..m][1..] == s[1..][..m - 1];
      var d := (s[0] - ZERO) as int;
      assert 10 * (d * Power(m - 1)) == d * Power(m);
    } else {
      assert s[..m] == [] && s[1..] == [];
    }
  }

  ghost predicate SameSign(r: int, a: int, b: int) {
    (r < 0 <==> a < b) && (r > 0 <==> a > b)
  }

  lemma {:induction false} SameLengthOrder(a: bytes, b: bytes)
    requires |a| == |b| && AllDigits(a) && AllDigits(b)
    ensures SameSign(Compare(a, b), Value(a), Value(b))
    decreases |a|
  {
    if a != [] {
      ValueFromFront(a);
      ValueFromFront(b);
      ValueBounds(a[1..]);
      ValueBounds(b[1..]);
      SameLengthOrder(a[1..], b[1..]);
      LeadingDigit((a[0] - ZERO) as int, (b[0] - ZERO) as int, Value(a[1..]), Value(b[1..]), Power(|a| - 1));
    }
  }

  lemma {:induction false} LeadingDigit(x: nat, y: nat, u: nat, v: nat, p: nat)
    requires u < p && v < p
    ensures x < y ==> x * p + u < y * p + v
    ensures x > y ==> x * p + u > y * p + v
  {
    if x < y {
      assert (x + 1) * p <= y * p;
    } else if x > y {
      assert (y + 1) * p <= x * p;
    }
  }
}
