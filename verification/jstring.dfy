/** Java's text primitives as the core uses them: `char` as a UTF-16 code unit,
    the regex class `\s`, `String.trim()` and `String.valueOf(int)`. */
module JavaString {

  /** A Java `char`: one UTF-16 code unit. `String.length()` counts these. */
  newtype JChar = x: int | 0 <= x < 0x1_0000

  /** A non-null Java `String`. */
  type JString = seq<JChar>

  /** A Java reference that may be null. */
  datatype Option<T> = None | Some(value: T)

  const SPACE: JChar := 0x20
  const TAB: JChar := 0x09
  const LINE_FEED: JChar := 0x0A
  const VERTICAL_TAB: JChar := 0x0B
  const FORM_FEED: JChar := 0x0C
  const CARRIAGE_RETURN: JChar := 0x0D
  const DIGIT_ZERO: JChar := 0x30

  /** An ASCII literal written as a Dafny string, as Java code units. */
  function FromAscii(s: string): (r: JString)
    requires forall i :: 0 <= i < |s| ==> s[i] as int < 0x80
  {
    seq(|s|, i requires 0 <= i < |s| => s[i] as int as JChar)
  }

  /** The predefined character class `\s` of java.util.regex: [ \t\n\x0B\f\r]. */
  predicate IsSpace(c: JChar) {
    c == SPACE || c == TAB || c == LINE_FEED || c == VERTICAL_TAB || c == FORM_FEED || c == CARRIAGE_RETURN
  }

  predicate NoSpace(s: JString) {
    forall i :: 0 <= i < |s| ==> !IsSpace(s[i])
  }

  predicate AllSpace(s: JString) {
    forall i :: 0 <= i < |s| ==> IsSpace(s[i])
  }

  /** `String.trim()` removes every code unit up to U+0020 from both ends. */
  predicate IsTrimmable(c: JChar) {
    c <= SPACE
  }

  /** `s` with its leading trimmable code units removed. */
  function TrimStart(s: JString): (r: JString)
    ensures |r| <= |s| && r == s[|s| - |r|..]
    ensures forall k :: 0 <= k < |s| - |r| ==> IsTrimmable(s[k])
    ensures r != [] ==> !IsTrimmable(r[0])
  {
    if s != [] && IsTrimmable(s[0]) then TrimStart(s[1..]) else s
  }

  /** `s` with its trailing trimmable code units removed. */
  function TrimEnd(s: JString): (r: JString)
    ensures |r| <= |s| && r == s[..|r|]
    ensures forall k :: |r| <= k < |s| ==> IsTrimmable(s[k])
    ensures r != [] ==> !IsTrimmable(r[|r| - 1])
  {
    if s != [] && IsTrimmable(s[|s| - 1]) then TrimEnd(s[..|s| - 1]) else s
  }

  /** Java `String.trim()`. */
  function Trim(s: JString): (r: JString)
    ensures r == [] <==> forall k :: 0 <= k < |s| ==> IsTrimmable(s[k])
    ensures r != [] ==> !IsTrimmable(r[0]) && !IsTrimmable(r[|r| - 1])
  {
    var t := TrimStart(s);
    var r := TrimEnd(t);
    assert r != [] ==> r[0] == t[0];
    r
  }

  /** `s.trim().isEmpty()`. */
  predicate IsBlank(s: JString) {
    Trim(s) == []
  }

  // ----- String.valueOf(int) for the non-negative values the core renders -----

  predicate IsDigit(c: JChar) {
    DIGIT_ZERO <= c <= DIGIT_ZERO + 9
  }

  function Digit(d: nat): JChar
    requires d < 10
  {
    DIGIT_ZERO + d as JChar
  }

  /** The decimal rendering of `n`, as `String.valueOf(n)` produces it. */
  function Decimal(n: nat): (r: JString)
    ensures 1 <= |r|
    ensures forall i :: 0 <= i < |r| ==> IsDigit(r[i])
    ensures |r| > 1 ==> r[0] != DIGIT_ZERO
  {
    if n < 10 then [Digit(n)] else Decimal(n / 10) + [Digit(n % 10)]
  }

  /** The value of a string of decimal digits (the parse that undoes `Decimal`). */
  function DigitsValue(s: JString): nat
    requires forall i :: 0 <= i < |s| ==> IsDigit(s[i])
  {
    if s == [] then 0
    else
      assert IsDigit(s[|s| - 1]);
      DigitsValue(s[..|s| - 1]) * 10 + (s[|s| - 1] as int - DIGIT_ZERO as int)
  }

  /** Rendering then parsing gives back the number. */
  lemma {:induction false} DecimalRoundTrip(n: nat)
    ensures DigitsValue(Decimal(n)) == n
  {
    if n >= 10 {
      DecimalRoundTrip(n / 10);
      var r := Decimal(n);
      assert r[..|r| - 1] == Decimal(n / 10);
    }
  }

  /** Different numbers get different renderings. */
  lemma DecimalInjective(m: nat, n: nat)
    ensures Decimal(m) == Decimal(n) <==> m == n
  {
    DecimalRoundTrip(m);
    DecimalRoundTrip(n);
  }
}
