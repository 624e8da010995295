/** Positional notation: what the digits of a number mean, without their recursion.

    Runs of decimal digits of one length are counted off in the order of their bytes, from
    zero to the power of ten, and so are the four digits of an escape. That leaves one
    meaning for each. */
module Decimals {
  import opened Bytes
  import opened Reader
  import opened Printer
  import opened RoundTrip

  function Pow10(n: nat): (r: nat)
    ensures r > 0
  {
    if n == 0 then 1 else 10 * Pow10(n - 1)
  }

  predicate AreDigits(s: bytes) {
    forall i :: 0 <= i < |s| ==> 0x30 <= s[i] <= 0x39
  }

  // a and b differ first at i.
  predicate DifferAt(a: bytes, b: bytes, i: nat) {
    i < |a| && i < |b| && a[..i] == b[..i] && a[i] != b[i]
  }

  lemma {:induction false} FirstDifference(a: bytes, b: bytes) returns (i: nat)
    requires |a| == |b| && a != b
    ensures DifferAt(a, b, i)
    decreases |a|
  {
    if a[0] != b[0] {
      i := 0;
    } else {
      assert a == [a[0]] + a[1..] && b == [b[0]] + b[1..];
      i := FirstDifference(a[1..], b[1..]);
      assert a[..i + 1] == [a[0]] + a[1..][..i] && b[..i + 1] == [b[0]] + b[1..][..i];
      i := i + 1;
    }
  }

  // ---- reading decimal digits ----

  lemma {:induction false} DecimalGrows(a: bytes, b: bytes, i: nat)
    requires AreDigits(a) && AreDigits(b) && |a| == |b| && DifferAt(a, b, i) && a[i] < b[i]
    ensures Decimal(a) < Decimal(b)
    decreases |a|
  {
    var last := |a| - 1;
    if i < last {
      assert a[..last][..i] == a[..i] && b[..last][..i] == b[..i];
      DecimalGrows(a[..last], b[..last], i);
    }
  }

  // Of two runs of one length the one with the smaller byte at their first difference is
  // the smaller number.
  lemma DecimalOrder(a: bytes, b: bytes, i: nat)
    requires AreDigits(a) && AreDigits(b) && |a| == |b| && DifferAt(a, b, i)
    ensures Decimal(a) < Decimal(b) <==> a[i] < b[i]
    ensures Decimal(a) != Decimal(b)
  {
    hide Decimal;
    if a[i] < b[i] {
      DecimalGrows(a, b, i);
    } else {
      DecimalGrows(b, a, i);
    }
  }

  lemma {:induction false} DecimalRange(s: bytes)
    requires AreDigits(s)
    ensures Decimal(s) < Pow10(|s|)
  {
    if s != [] {
      DecimalRange(s[..|s| - 1]);
    }
  }

  // ---- printing decimal digits ----

  lemma OneQuotient(d: nat, q: nat, r: nat, q': nat, r': nat)
    requires q * d + r == q' * d + r' && r < d && r' < d
    ensures q == q'
  {
    if q < q' {
      assert q' * d == q * d + (q' - q) * d;
      AtLeastOnce(q' - q, d);
    } else if q' < q {
      assert q * d == q' * d + (q - q') * d;
      AtLeastOnce(q - q', d);
    }
  }

  lemma AtLeastOnce(n: nat, d: nat)
    requires n > 0
    ensures n * d >= d
  {
  }

  lemma Exchange(a: nat, b: nat, c: nat)
    ensures a * (b * c) == b * (a * c)
  {
  }

  lemma IsDivision(n: nat, d: nat)
    requires d > 0
    ensures n / d >= 0 && n == n / d * d + n % d && 0 <= n % d < d
  {
  }

  // Dividing by ten and then by d is one division by e.
  lemma DivideTwice(n: nat, d: nat, e: nat)
    requires d > 0 && e == 10 * d
    ensures n / 10 / d == n / e
  {
    var m := n / 10;
    IsDivision(m, d);
    IsDivision(n, e);
    var q, r := m / d, m % d;
    Exchange(10, q, d);
    OneQuotient(e, q, 10 * r + n % 10, n / e, n % e);
  }

  // The digit of n for the k-th power of ten
  function DigitOf(n: nat, k: nat): nat {
    n / Pow10(k) % 10
  }

  // s writes m with as many digits as it needs, each in its place.
  predicate IsNumeral(s: bytes, m: nat) {
    && s != [] && m < Pow10(|s|) && (|s| > 1 ==> Pow10(|s| - 1) <= m)
    && forall k :: 0 <= k < |s| ==> s[|s| - 1 - k] as int == 0x30 + DigitOf(m, k)
  }

  lemma NextDigit(n: nat, k: nat)
    ensures DigitOf(n, k) == if k == 0 then n % 10 else DigitOf(n / 10, k - 1)
  {
    if k > 0 {
      DivideTwice(n, Pow10(k - 1), Pow10(k));
    }
  }

  lemma OneMoreDigit(s: bytes, n: nat, d: byte)
    requires n >= 10 && IsNumeral(s, n / 10) && d as int == 0x30 + n % 10
    ensures IsNumeral(s + [d], n)
  {
    hide DigitOf;
    var r := s + [d];
    assert Pow10(|r|) == 10 * Pow10(|s|) && Pow10(|s|) == 10 * Pow10(|s| - 1) && Pow10(0) == 1;
    forall k | 0 <= k < |r| ensures r[|r| - 1 - k] as int == 0x30 + DigitOf(n, k) {
      NextDigit(n, k);
    }
  }

  lemma {:induction false} DigitsAreNumeral(n: nat)
    ensures IsNumeral(Digits(n), n)
    decreases n
  {
    if n < 10 {
      NextDigit(n, 0);
      hide DigitOf;
    } else {
      hide IsNumeral;
      DigitsAreNumeral(n / 10);
      OneMoreDigit(Digits(n / 10), n, (0x30 + n % 10) as byte);
    }
  }

  // The text of an int: a minus sign if it is negative, then the digits of its amount
  lemma PrintedDigits(i: int)
    ensures var s := PrintInt(i);
            if i < 0 then s != [] && s[0] == 0x2D && IsNumeral(s[1..], -i) else IsNumeral(s, i)
  {
    hide Digits, IsNumeral;
    DigitsAreNumeral(if i < 0 then -i else i);
  }

  // ---- hexadecimal digits ----

  lemma HexDigitGrows(x: byte, y: byte)
    requires IsHexChar(x) && IsHexChar(y) && x < y
    ensures HexDigit(x) < HexDigit(y)
  {
  }

  predicate AreHexDigits(h: bytes) {
    |h| == 4 && forall i :: 0 <= i < 4 ==> 0x30 <= h[i] <= 0x39 || 0x61 <= h[i] <= 0x66
  }

  lemma HexGrows(a: bytes, b: bytes, i: nat)
    requires AreHexDigits(a) && AreHexDigits(b) && DifferAt(a, b, i) && a[i] < b[i]
    ensures HexValue(a) < HexValue(b)
  {
    hide HexDigit;
    HexDigitGrows(a[i], b[i]);
    assert forall j :: 0 <= j < i ==> a[j] == a[..i][j] == b[..i][j] == b[j];
    assert 0 < i ==> a[0] == b[0];
    assert 1 < i ==> a[1] == b[1];
    assert 2 < i ==> a[2] == b[2];
  }

  // The four digits of an escape count in the order of their bytes; the range has as many
  // numbers as there are such digits.
  lemma HexOrder(a: bytes, b: bytes, i: nat)
    requires AreHexDigits(a) && AreHexDigits(b) && DifferAt(a, b, i)
    ensures HexValue(a) < HexValue(b) <==> a[i] < b[i]
    ensures HexValue(a) != HexValue(b) && 0 <= HexValue(a) < 0x1_0000
  {
    hide HexValue;
    if a[i] < b[i] {
      HexGrows(a, b, i);
    } else {
      HexGrows(b, a, i);
    }
  }
}
