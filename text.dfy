/**
 * The `String` extension of the app (Contacts/String.swift) together with the
 * few Foundation facilities the core relies on.
 *
 * Foundation's character sets, `lowercased()` and `NSString.boolValue` are
 * Unicode- and platform-defined; they are taken as the fields of a `Platform`
 * value, and `Platform.Valid()` states the only facts about them that the
 * model uses.
 */
module Text {
  import opened Wrappers

  /** Foundation as seen by the app. */
  datatype Platform = Platform(
    letters: set<char>,                 // CharacterSet.letters
    decimalDigits: set<char>,           // CharacterSet.decimalDigits
    alphanumerics: set<char>,           // CharacterSet.alphanumerics
    whitespaces: set<char>,             // CharacterSet.whitespaces
    whitespacesAndNewlines: set<char>,  // CharacterSet.whitespacesAndNewlines
    lowercased: string -> string,       // String.lowercased()
    boolValue: string -> bool)          // NSString.boolValue
  {
    /** The facts about Foundation that the properties of the model depend on. */
    ghost predicate Valid() {
      && letters <= alphanumerics
      && decimalDigits <= alphanumerics
      && letters !! decimalDigits
      && (forall c :: '0' <= c <= '9' ==> c in decimalDigits)
      && (forall c :: 'a' <= c <= 'z' || 'A' <= c <= 'Z' ==> c in letters)
      && ' ' in whitespaces
      && ' ' !in alphanumerics
      && whitespacesAndNewlines !! alphanumerics
      && whitespaces <= whitespacesAndNewlines
      && (forall t :: Blank(t, whitespacesAndNewlines) ==> lowercased(t) == t)
      && boolValue("true")
      && !boolValue("false")
    }
  }

  /** Every character of `s` lies in `chars`; true of "". */
  predicate Blank(s: string, chars: set<char>) {
    forall k :: 0 <= k < |s| ==> s[k] in chars
  }

  // ---------------------------------------------------------------------------
  // removeWhiteSpaces (String.swift:13-15)

  /** `s` with every character of `chars` deleted and the others kept. */
  function Without(s: string, chars: set<char>): (r: string)
    ensures |r| <= |s|
    ensures forall i :: 0 <= i < |r| ==> r[i] !in chars
  {
    if s == [] then []
    else (if s[0] in chars then [] else [s[0]]) + Without(s[1..], chars)
  }

  /** Every character outside `chars` is kept as often as it occurs. */
  lemma {:induction false} WithoutKeepsOthers(s: string, chars: set<char>)
    ensures forall c :: c !in chars ==> multiset(Without(s, chars))[c] == multiset(s)[c]
  {
    if s != [] {
      assert s == [s[0]] + s[1..];
      WithoutKeepsOthers(s[1..], chars);
    }
  }

  /** Deleting works piecewise, so the kept characters stay in their order. */
  lemma {:induction false} WithoutAppend(a: string, b: string, chars: set<char>)
    ensures Without(a + b, chars) == Without(a, chars) + Without(b, chars)
  {
    if a == [] {
      assert a + b == b;
    } else {
      assert (a + b)[0] == a[0];
      assert (a + b)[1..] == a[1..] + b;
      WithoutAppend(a[1..], b, chars);
    }
  }

  /** A string with nothing to delete is left unchanged. */
  lemma {:induction false} WithoutNothingToDelete(s: string, chars: set<char>)
    requires forall i :: 0 <= i < |s| ==> s[i] !in chars
    ensures Without(s, chars) == s
  {
    if s != [] {
      WithoutNothingToDelete(s[1..], chars);
    }
  }

  /** `replacingOccurrences(of: " ", with: "")`: deletes every U+0020 and keeps
    * every other character, tabs and newlines included. */
  function RemoveWhiteSpaces(s: string): (r: string)
    ensures |r| <= |s|
    ensures forall i :: 0 <= i < |r| ==> r[i] != ' '
    ensures multiset(r) == multiset(s)[' ' := 0]
  {
    var r := Without(s, {' '});
    WithoutKeepsOthers(s, {' '});
    assert ' ' !in multiset(r);
    assert forall c :: multiset(r)[c] == multiset(s)[' ' := 0][c];
    r
  }

  lemma RemoveWhiteSpacesIdempotent(s: string)
    ensures RemoveWhiteSpaces(RemoveWhiteSpaces(s)) == RemoveWhiteSpaces(s)
  {
    WithoutNothingToDelete(RemoveWhiteSpaces(s), {' '});
  }

  /** The kept characters keep their order: removing spaces commutes with
    * concatenation, and a tab or a newline is kept where it stood. */
  lemma RemoveWhiteSpacesKeepsOrder(a: string, b: string)
    ensures RemoveWhiteSpaces(a + b) == RemoveWhiteSpaces(a) + RemoveWhiteSpaces(b)
    ensures RemoveWhiteSpaces(a + "\t" + b) == RemoveWhiteSpaces(a) + "\t" + RemoveWhiteSpaces(b)
    ensures RemoveWhiteSpaces(a + "\n" + b) == RemoveWhiteSpaces(a) + "\n" + RemoveWhiteSpaces(b)
  {
    WithoutAppend(a, b, {' '});
    WithoutAppend(a + "\t", b, {' '});
    WithoutAppend(a, "\t", {' '});
    WithoutNothingToDelete("\t", {' '});
    WithoutAppend(a + "\n", b, {' '});
    WithoutAppend(a, "\n", {' '});
    WithoutNothingToDelete("\n", {' '});
  }

  // ---------------------------------------------------------------------------
  // containsOnlyLetters / Digits / Alphanumerics (String.swift:17-27)

  /** `rangeOfCharacter(from: chars.inverted)`: where the first character outside
    * `chars` is, if there is one. */
  function FirstOutside(s: string, chars: set<char>): (r: Option<nat>)
    ensures r.Some? ==> r.value < |s| && s[r.value] !in chars
    ensures r.Some? ==> forall j :: 0 <= j < r.value ==> s[j] in chars
    ensures r.None? <==> forall i :: 0 <= i < |s| ==> s[i] in chars
  {
    if s == [] then None
    else if s[0] !in chars then Some(0)
    else match FirstOutside(s[1..], chars)
      case None => None
      case Some(k) => Some(k + 1)
  }

  function ContainsOnlyLetters(s: string, p: Platform): (r: bool)
    ensures r <==> forall i :: 0 <= i < |s| ==> s[i] in p.letters
  {
    FirstOutside(s, p.letters) == None
  }

  function ContainsOnlyDigits(s: string, p: Platform): (r: bool)
    ensures r <==> forall i :: 0 <= i < |s| ==> s[i] in p.decimalDigits
  {
    FirstOutside(s, p.decimalDigits) == None
  }

  function ContainsOnlyAlphanumerics(s: string, p: Platform): (r: bool)
    ensures r <==> forall i :: 0 <= i < |s| ==> s[i] in p.alphanumerics
  {
    FirstOutside(s, p.alphanumerics) == None
  }

  /** Letters and decimal digits are alphanumerics, so each "only" test implies
    * the alphanumeric one; all three hold of the empty string. */
  lemma CharacterClassInclusions(s: string, p: Platform)
    requires p.Valid()
    ensures ContainsOnlyLetters(s, p) ==> ContainsOnlyAlphanumerics(s, p)
    ensures ContainsOnlyDigits(s, p) ==> ContainsOnlyAlphanumerics(s, p)
    ensures ContainsOnlyLetters("", p) && ContainsOnlyDigits("", p) && ContainsOnlyAlphanumerics("", p)
  {
  }

  // ---------------------------------------------------------------------------
  // isInt (String.swift:5-7): `Int(self) != nil` on a 64-bit platform

  const IntMin: int := -0x8000_0000_0000_0000
  const IntMax: int := 0x7FFF_FFFF_FFFF_FFFF

  predicate IsAsciiDigit(c: char) {
    '0' <= c <= '9'
  }

  predicate AllAsciiDigits(s: string) {
    forall i :: 0 <= i < |s| ==> IsAsciiDigit(s[i])
  }

  /** The number a string of ASCII digits spells in base 10. */
  function DigitsValue(s: string): nat
    requires AllAsciiDigits(s)
  {
    if s == [] then 0
    else DigitsValue(s[..|s| - 1]) * 10 + ((s[|s| - 1] as int) - ('0' as int))
  }

  /** `Int(_ description: String)`: an optional '+' or '-', then one or more
    * ASCII digits, and the value must fit in a 64-bit `Int`. */
  function ParseInt(s: string): (r: Option<int>)
    ensures r.Some? ==> IntMin <= r.value <= IntMax
    ensures r.Some? ==>
      |s| >= 1 &&
      var digits := if s[0] == '+' || s[0] == '-' then s[1..] else s;
      digits != [] && AllAsciiDigits(digits)
  {
    if s == [] then None
    else
      var negative := s[0] == '-';
      var digits := if s[0] == '+' || s[0] == '-' then s[1..] else s;
      if digits == [] || !AllAsciiDigits(digits) then None
      else
        var magnitude: int := DigitsValue(digits);
        var v := if negative then -magnitude else magnitude;
        if IntMin <= v <= IntMax then Some(v) else None
  }

  predicate IsInt(s: string) {
    ParseInt(s).Some?
  }

  /** The decimal spelling of a natural number, without leading zeros. */
  function Decimal(n: nat): (r: string)
    ensures |r| >= 1 && AllAsciiDigits(r)
  {
    if n < 10 then [('0' as int + n) as char]
    else Decimal(n / 10) + [('0' as int + n % 10) as char]
  }

  /** Swift's `String(n)` / `n.description`. */
  function FormatInt(n: int): string {
    if n < 0 then "-" + Decimal(-n) else Decimal(n)
  }

  lemma {:induction false} DigitsValueDecimal(n: nat)
    ensures DigitsValue(Decimal(n)) == n
  {
    if n >= 10 {
      var d := Decimal(n);
      assert d[..|d| - 1] == Decimal(n / 10);
      DigitsValueDecimal(n / 10);
    }
  }

  /** Round trip: every 64-bit integer's spelling parses back to it, and no
    * spelling of a value outside that range parses. */
  lemma ParseFormatInt(n: int)
    ensures IntMin <= n <= IntMax ==> ParseInt(FormatInt(n)) == Some(n)
    ensures !(IntMin <= n <= IntMax) ==> ParseInt(FormatInt(n)) == None
  {
    var s := FormatInt(n);
    if n < 0 {
      assert s[1..] == Decimal(-n);
      DigitsValueDecimal(-n);
    } else {
      DigitsValueDecimal(n);
    }
  }

  // The accepted language and the value, exactly: an optional sign and one or
  // more ASCII digits parse to the signed value of the digits when it fits in
  // 64 bits, and fail otherwise. By the contract of `ParseInt`, no other string
  // parses.

  lemma ParseIntDigits(digits: string)
    requires |digits| >= 1 && AllAsciiDigits(digits)
    ensures ParseInt(digits) == if DigitsValue(digits) <= IntMax then Some(DigitsValue(digits) as int) else None
  {
    assert IsAsciiDigit(digits[0]);
  }

  lemma ParseIntPlus(digits: string)
    requires |digits| >= 1 && AllAsciiDigits(digits)
    ensures ParseInt(['+'] + digits) == if DigitsValue(digits) <= IntMax then Some(DigitsValue(digits) as int) else None
  {
    var s := ['+'] + digits;
    assert s[0] == '+' && s[1..] == digits;
  }

  lemma ParseIntMinus(digits: string)
    requires |digits| >= 1 && AllAsciiDigits(digits)
    ensures ParseInt(['-'] + digits) == if IntMin <= -(DigitsValue(digits) as int) then Some(-(DigitsValue(digits) as int)) else None
  {
    var s := ['-'] + digits;
    assert s[0] == '-' && s[1..] == digits;
  }

  /** A leading zero does not change the value of a digit string. */
  lemma {:induction false} DigitsValueLeadingZero(d: string)
    requires AllAsciiDigits(d)
    ensures AllAsciiDigits("0" + d) && DigitsValue("0" + d) == DigitsValue(d)
  {
    var z := "0" + d;
    assert forall i :: 0 < i < |z| ==> z[i] == d[i - 1];
    if d != [] {
      assert z[..|z| - 1] == "0" + d[..|d| - 1];
      DigitsValueLeadingZero(d[..|d| - 1]);
    }
  }

  function Pow10(k: nat): (r: nat)
    ensures r >= 1
  {
    if k == 0 then 1 else 10 * Pow10(k - 1)
  }

  lemma {:induction false} DigitsValueBound(s: string)
    requires AllAsciiDigits(s)
    ensures DigitsValue(s) < Pow10(|s|)
  {
    if s != [] {
      DigitsValueBound(s[..|s| - 1]);
    }
  }

  lemma {:induction false} Pow10Monotone(j: nat, k: nat)
    requires j <= k
    ensures Pow10(j) <= Pow10(k)
  {
    if j < k {
      Pow10Monotone(j, k - 1);
    }
  }

  /** Every signed or unsigned string of one to eighteen ASCII digits is an
    * `Int`: such a value is below 10^18, which fits in 64 bits. */
  lemma ShortDigitStringIsInt(s: string)
    requires |s| >= 1
    requires var digits := if s[0] == '+' || s[0] == '-' then s[1..] else s;
             1 <= |digits| <= 18 && AllAsciiDigits(digits)
    ensures IsInt(s)
  {
    var digits := if s[0] == '+' || s[0] == '-' then s[1..] else s;
    DigitsValueBound(digits);
    Pow10Monotone(|digits|, 18);
    Pow10Eighteen();
  }

  lemma Pow10Eighteen()
    ensures Pow10(18) == 1_000_000_000_000_000_000
  {
    assert Pow10(6) == 1_000_000;
    assert Pow10(12) == 1_000_000_000_000;
  }

  /** The examples the phone rule depends on: a sign is accepted, an empty
    * string, a lone sign, an inner space and a letter are not. */
  lemma IsIntExamples()
    ensures IsInt("-123456") && IsInt("+7") && IsInt("0042")
    ensures !IsInt("") && !IsInt("-") && !IsInt("+")
    ensures !IsInt("123 4567") && !IsInt("12345a7")
  {
    ShortDigitStringIsInt("-123456");
    ShortDigitStringIsInt("+7");
    ShortDigitStringIsInt("0042");
    assert !IsAsciiDigit("123 4567"[3]);
    assert !IsAsciiDigit("12345a7"[5]);
  }

  /** Values, not only acceptance: a sign is applied, and leading zeros are
    * ignored. */
  lemma ParseIntValueExamples()
    ensures ParseInt("-0") == Some(0) && ParseInt("+7") == Some(7) && ParseInt("-7") == Some(-7)
    ensures ParseInt("0042") == Some(42)
  {
    ParseIntMinus("0");
    assert ['-'] + "0" == "-0";
    ParseIntPlus("7");
    assert ['+'] + "7" == "+7";
    ParseIntMinus("7");
    assert ['-'] + "7" == "-7";
    FortyTwoWithZeros();
    ParseIntDigits("0042");
  }

  lemma FortyTwoWithZeros()
    ensures AllAsciiDigits("0042") && DigitsValue("0042") == 42
  {
    DigitsValueDecimal(42);
    assert Decimal(42) == "42" by {
      assert Decimal(4) == "4";
    }
    DigitsValueLeadingZero("42");
    assert "0" + "42" == "042";
    DigitsValueLeadingZero("042");
    assert "0" + "042" == "0042";
  }

  // ---------------------------------------------------------------------------
  // boolValue (String.swift:9-11)

  /** `(self as NSString).boolValue`; only its answers on "true" and "false"
    * are relied upon. */
  function BoolValue(s: string, p: Platform): bool {
    p.boolValue(s)
  }

  /** Swift's `Bool.description`, the string the emergency switch stores. */
  function BoolDescription(b: bool): string {
    if b then "true" else "false"
  }

  lemma BoolValueDescription(b: bool, p: Platform)
    requires p.Valid()
    ensures BoolValue(BoolDescription(b), p) == b
  {
  }
}
