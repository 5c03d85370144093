/** The optional value used for JavaScript's `null`/`undefined` and for absent record fields. */
module Optional {
  datatype Option<+T> = None | Some(value: T)
}

/**
  The string functions the service relies on: `lc` (ASCII lowercasing of a
  possibly missing string), `Number.prototype.toString` of a non-negative
  integer below 10^21, and the `^\d{6}$` format a submitted code must have.
*/
module Text {
  import opened Optional

  predicate IsAsciiUpper(c: char) { 'A' <= c <= 'Z' }
  predicate IsAsciiLower(c: char) { 'a' <= c <= 'z' }
  predicate IsAsciiLetter(c: char) { IsAsciiUpper(c) || IsAsciiLower(c) }

  /** Lowercases one ASCII letter and leaves every other character alone. */
  function LowerChar(c: char): (r: char)
    ensures !IsAsciiUpper(r)
    ensures IsAsciiUpper(c) ==> IsAsciiLower(r) && r as int == c as int + 32
    ensures !IsAsciiUpper(c) ==> r == c
  {
    if IsAsciiUpper(c) then (c as int + 32) as char else c
  }

  /** Two characters are the same letter up to case, or simply equal. */
  predicate SameIgnoringCase(x: char, y: char) {
    x == y ||
    (IsAsciiLetter(x) && IsAsciiLetter(y) &&
     (x as int - y as int == 32 || y as int - x as int == 32))
  }

  predicate EqualIgnoringCase(a: string, b: string) {
    |a| == |b| && forall i :: 0 <= i < |a| ==> SameIgnoringCase(a[i], b[i])
  }

  function LowerAscii(s: string): (r: string)
    ensures |r| == |s|
    ensures forall i :: 0 <= i < |s| ==> r[i] == LowerChar(s[i])
  {
    if s == [] then [] else [LowerChar(s[0])] + LowerAscii(s[1..])
  }

  /**
    `lc` of server.js: a missing value (`null`, `undefined`) becomes the empty
    string, any string is lowercased.
  */
  function Lc(s: Option<string>): (r: string)
    ensures s.None? ==> r == ""
    ensures s.Some? ==> |r| == |s.value|
    ensures s.Some? ==> forall i :: 0 <= i < |r| ==> r[i] == LowerChar(s.value[i])
    ensures forall i :: 0 <= i < |r| ==> !IsAsciiUpper(r[i])
  {
    match s
    case None => ""
    case Some(t) => LowerAscii(t)
  }

  /** A lowercased key is its own key: normalizing twice changes nothing. */
  lemma {:induction false} LowerAsciiIdempotent(s: string)
    ensures LowerAscii(LowerAscii(s)) == LowerAscii(s)
  {
    if s != [] {
      LowerAsciiIdempotent(s[1..]);
    }
  }

  lemma LcIdempotent(s: Option<string>)
    ensures Lc(Some(Lc(s))) == Lc(s)
  {
    if s.Some? {
      LowerAsciiIdempotent(s.value);
    }
  }

  lemma LowerCharSame(x: char, y: char)
    ensures LowerChar(x) == LowerChar(y) <==> SameIgnoringCase(x, y)
  {
  }

  /** Two addresses share a ledger slot exactly when they differ only in the case of letters. */
  lemma SameKeyIffEqualIgnoringCase(a: string, b: string)
    ensures Lc(Some(a)) == Lc(Some(b)) <==> EqualIgnoringCase(a, b)
  {
    if Lc(Some(a)) == Lc(Some(b)) {
      forall i | 0 <= i < |a| ensures SameIgnoringCase(a[i], b[i]) {
        assert LowerAscii(a)[i] == LowerAscii(b)[i];
        LowerCharSame(a[i], b[i]);
      }
    }
    if EqualIgnoringCase(a, b) {
      forall i | 0 <= i < |a| ensures LowerAscii(a)[i] == LowerAscii(b)[i] {
        LowerCharSame(a[i], b[i]);
      }
    }
  }

  // ---- decimal digits ----

  predicate IsDigit(c: char) { '0' <= c <= '9' }

  predicate AllDigits(s: string) { forall i :: 0 <= i < |s| ==> IsDigit(s[i]) }

  /** The regular expression `^\d{6}$` without flags: exactly six ASCII digits. */
  predicate MatchesCodePattern(s: string) { |s| == 6 && AllDigits(s) }

  function DigitChar(d: nat): (c: char)
    requires d < 10
    ensures IsDigit(c)
  {
    (d + '0' as int) as char
  }

  function DigitValue(c: char): (d: nat)
    requires IsDigit(c)
    ensures d < 10 && DigitChar(d) == c
  {
    c as int - '0' as int
  }

  /**
    `Number.prototype.toString()` of a non-negative integer below 10^21 (which covers
    the six-digit codes): base ten, no leading zero. Larger numbers print in
    exponent form in JavaScript and are not covered.
  */
  function Decimal(n: nat): (s: string)
    ensures |s| >= 1 && AllDigits(s)
    ensures s[0] == '0' <==> n == 0
  {
    if n < 10 then [DigitChar(n)] else Decimal(n / 10) + [DigitChar(n % 10)]
  }

  /** The number a string of digits denotes, most significant digit first. */
  function DigitsValue(s: string): nat
    requires AllDigits(s)
  {
    if s == [] then 0 else DigitsValue(s[..|s| - 1]) * 10 + DigitValue(s[|s| - 1])
  }

  function Pow10(k: nat): (p: nat)
    ensures p >= 1
  {
    if k == 0 then 1 else 10 * Pow10(k - 1)
  }

  /** Reading the digits back gives the number: `parseInt(String(n)) === n`. */
  lemma {:induction false} DecimalRoundTrip(n: nat)
    ensures DigitsValue(Decimal(n)) == n
  {
    var s := Decimal(n);
    if n >= 10 {
      assert s[..|s| - 1] == Decimal(n / 10);
      DecimalRoundTrip(n / 10);
    }
  }

  lemma DecimalInjective(m: nat, n: nat)
    ensures Decimal(m) == Decimal(n) <==> m == n
  {
    DecimalRoundTrip(m);
    DecimalRoundTrip(n);
  }

  /** A number with k + 1 digits prints as exactly k + 1 characters. */
  lemma {:induction false} DecimalLength(n: nat, k: nat)
    requires Pow10(k) <= n < Pow10(k + 1)
    ensures |Decimal(n)| == k + 1
  {
    if k > 0 {
      assert Pow10(k) == 10 * Pow10(k - 1);
      assert Pow10(k + 1) == 10 * Pow10(k);
      assert Pow10(k - 1) <= n / 10 < Pow10(k);
      DecimalLength(n / 10, k - 1);
    }
  }

  lemma SixDigitNumbers(n: nat)
    requires 100000 <= n <= 999999
    ensures MatchesCodePattern(Decimal(n)) && Decimal(n)[0] != '0'
  {
    assert Pow10(5) == 100000 && Pow10(6) == 1000000;
    DecimalLength(n, 5);
  }
}
