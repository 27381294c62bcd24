/**
 * The JavaScript string built-ins the site relies on: `String.prototype.trim`,
 * ASCII case mapping, number-to-decimal-string conversion and `parseInt`.
 */
module JsText {
  import opened Wrappers

  /** The WhiteSpace and LineTerminator code points of ECMAScript: what `trim` removes. */
  predicate IsJsSpace(c: char) {
    var n := c as int;
    n == 0x09 || n == 0x0A || n == 0x0B || n == 0x0C || n == 0x0D || n == 0x20
    || n == 0xA0 || n == 0x1680 || (0x2000 <= n <= 0x200A) || n == 0x2028 || n == 0x2029
    || n == 0x202F || n == 0x205F || n == 0x3000 || n == 0xFEFF
  }

  /** The first index at or after `i` that does not hold white space, or `|s|`. */
  function SkipSpaces(s: string, i: nat): (n: nat)
    requires i <= |s|
    ensures i <= n <= |s|
    ensures forall k :: i <= k < n ==> IsJsSpace(s[k])
    ensures n < |s| ==> !IsJsSpace(s[n])
    decreases |s| - i
  {
    if i < |s| && IsJsSpace(s[i]) then SkipSpaces(s, i + 1) else i
  }

  /** The least index in `[lo, j]` from which only white space follows up to `j`. */
  function SkipSpacesBack(s: string, lo: nat, j: nat): (n: nat)
    requires lo <= j <= |s|
    ensures lo <= n <= j
    ensures forall k :: n <= k < j ==> IsJsSpace(s[k])
    ensures n > lo ==> !IsJsSpace(s[n - 1])
    decreases j
  {
    if j > lo && IsJsSpace(s[j - 1]) then SkipSpacesBack(s, lo, j - 1) else j
  }

  /** How many white-space characters `trim` and `trimStart` drop from the front. */
  function LeadingSpaces(s: string): (n: nat)
    ensures n <= |s|
    ensures forall i :: 0 <= i < n ==> IsJsSpace(s[i])
    ensures n < |s| ==> !IsJsSpace(s[n])
  {
    SkipSpaces(s, 0)
  }

  /** `trimStart`: the suffix left after dropping leading white space. */
  function TrimStart(s: string): (r: string)
    ensures |r| <= |s| && r == s[|s| - |r|..]
    ensures r == [] || !IsJsSpace(r[0])
    ensures forall i :: 0 <= i < |s| - |r| ==> IsJsSpace(s[i])
  {
    s[LeadingSpaces(s)..]
  }

  /**
   * `trim`: the slice of `s` from its first non-white-space character to its last;
   * everything outside the slice is white space.
   */
  function Trim(s: string): (r: string)
    ensures LeadingSpaces(s) + |r| <= |s| && r == s[LeadingSpaces(s)..LeadingSpaces(s) + |r|]
    ensures forall i :: 0 <= i < LeadingSpaces(s) ==> IsJsSpace(s[i])
    ensures forall i :: LeadingSpaces(s) + |r| <= i < |s| ==> IsJsSpace(s[i])
    ensures r == [] || (!IsJsSpace(r[0]) && !IsJsSpace(r[|r| - 1]))
  {
    var a := LeadingSpaces(s);
    var b := SkipSpacesBack(s, a, |s|);
    s[a..b]
  }

  /** A string that starts and ends with non-white-space is left alone by `trim`. */
  lemma TrimOfTrimmed(s: string)
    requires s == [] || (!IsJsSpace(s[0]) && !IsJsSpace(s[|s| - 1]))
    ensures Trim(s) == s
  {
  }

  /** `trim` is idempotent. */
  lemma TrimIdempotent(s: string)
    ensures Trim(Trim(s)) == Trim(s)
  {
    TrimOfTrimmed(Trim(s));
  }

  /** `trim` leaves nothing exactly when the string is all white space. */
  lemma TrimEmptyIff(s: string)
    ensures Trim(s) == [] <==> forall i :: 0 <= i < |s| ==> IsJsSpace(s[i])
  {
    var r := Trim(s);
    var a := LeadingSpaces(s);
    if r != [] {
      assert r[0] == s[a];
    }
  }

  function UpperChar(c: char): char {
    if 'a' <= c <= 'z' then (c as int - 32) as char else c
  }

  /** `toUpperCase` restricted to ASCII letters. */
  function ToUpperAscii(s: string): (r: string)
    ensures |r| == |s|
    ensures forall i :: 0 <= i < |s| ==> !('a' <= r[i] <= 'z')
    ensures forall i :: 0 <= i < |s| ==> ('A' <= s[i] <= 'Z' || !('a' <= s[i] <= 'z')) ==> r[i] == s[i]
    ensures forall i :: 0 <= i < |s| ==> 'a' <= s[i] <= 'z' ==> r[i] as int == s[i] as int - 32
  {
    seq(|s|, i requires 0 <= i < |s| => UpperChar(s[i]))
  }

  /** Upper-casing an upper-cased string changes nothing. */
  lemma UpperIdempotent(s: string)
    ensures ToUpperAscii(ToUpperAscii(s)) == ToUpperAscii(s)
  {
    var u := ToUpperAscii(s);
    assert forall i :: 0 <= i < |u| ==> ToUpperAscii(u)[i] == u[i];
  }

  /** Upper-casing keeps every character class that `trim` looks at. */
  lemma UpperKeepsSpaces(s: string)
    ensures forall i :: 0 <= i < |s| ==> IsJsSpace(ToUpperAscii(s)[i]) == IsJsSpace(s[i])
  {
  }

  predicate IsDigit(c: char) { '0' <= c <= '9' }

  function DigitChar(d: nat): (c: char)
    requires d < 10
    ensures IsDigit(c) && c as int - '0' as int == d
  {
    ('0' as int + d) as char
  }

  /** How JavaScript writes a non-negative integer in a template string: its decimal digits. */
  function Decimal(n: nat): (r: string)
    ensures 1 <= |r|
    ensures forall i :: 0 <= i < |r| ==> IsDigit(r[i])
    ensures |r| > 1 ==> r[0] != '0'
    decreases n
  {
    if n < 10 then [DigitChar(n)] else Decimal(n / 10) + [DigitChar(n % 10)]
  }

  /** The value of a digit in base 10 or 16, or none when `c` is not a digit of that base. */
  function DigitValue(c: char, radix: nat): (r: Option<nat>)
    requires radix == 10 || radix == 16
    ensures r.Some? ==> r.value < radix
    ensures radix == 10 ==> (r.Some? <==> IsDigit(c))
    ensures IsDigit(c) ==> r == Some(c as int - '0' as int)
  {
    if IsDigit(c) then Some(c as int - '0' as int)
    else if radix == 16 && 'a' <= c <= 'f' then Some(c as int - 'a' as int + 10)
    else if radix == 16 && 'A' <= c <= 'F' then Some(c as int - 'A' as int + 10)
    else None
  }

  /** The longest prefix of `s` made of digits of `radix`. */
  function LeadingDigits(s: string, radix: nat): (r: string)
    requires radix == 10 || radix == 16
    ensures |r| <= |s| && r == s[..|r|]
    ensures forall i :: 0 <= i < |r| ==> DigitValue(r[i], radix).Some?
    ensures |r| < |s| ==> DigitValue(s[|r|], radix).None?
  {
    if s != [] && DigitValue(s[0], radix).Some? then [s[0]] + LeadingDigits(s[1..], radix) else []
  }

  /** The value of a string of digits of `radix`, most significant first. */
  function DigitsValue(s: string, radix: nat): nat
    requires radix == 10 || radix == 16
    requires forall i :: 0 <= i < |s| ==> DigitValue(s[i], radix).Some?
  {
    if s == [] then 0
    else DigitsValue(s[..|s| - 1], radix) * radix + DigitValue(s[|s| - 1], radix).value
  }

  /**
   * `parseInt(s)` with no radix, over integers: skip leading white space, read one
   * optional sign, read "0x"/"0X" as a switch to base 16, then take the longest run of
   * digits. None stands for NaN (no digit at all).
   */
  function ParseInt(s: string): (r: Option<int>)
  {
    Signed(TrimStart(s))
  }

  /** The number at the front of `t`, after one optional sign. */
  function Signed(t: string): Option<int> {
    var negative := t != [] && t[0] == '-';
    var u := if t != [] && (t[0] == '-' || t[0] == '+') then t[1..] else t;
    var v := Unsigned(u);
    if v.None? then None
    else
      var n: int := v.value;
      Some(if negative then -n else n)
  }

  /** The number after the sign: "0x" or "0X" switches to base 16. */
  function Unsigned(u: string): Option<nat> {
    var hex := |u| >= 2 && u[0] == '0' && (u[1] == 'x' || u[1] == 'X');
    if hex then DigitRun(u[2..], 16) else DigitRun(u, 10)
  }

  /** The value of the longest run of `radix` digits at the front of `s`; None when there is none. */
  function DigitRun(s: string, radix: nat): (r: Option<nat>)
    requires radix == 10 || radix == 16
    ensures r.None? <==> s == [] || DigitValue(s[0], radix).None?
  {
    var digits := LeadingDigits(s, radix);
    if digits == [] then None else Some(DigitsValue(digits, radix))
  }

  lemma {:induction false} DecimalValue(n: nat)
    ensures DigitsValue(Decimal(n), 10) == n
    decreases n
  {
    if n >= 10 {
      DecimalValue(n / 10);
      var d := Decimal(n);
      assert d[..|d| - 1] == Decimal(n / 10);
    }
  }

  /** Two numbers with the same decimal text are the same number. */
  lemma DecimalInjective(m: nat, n: nat)
    requires Decimal(m) == Decimal(n)
    ensures m == n
  {
    DecimalValue(m);
    DecimalValue(n);
  }

  lemma {:induction false} LeadingDigitsOfDigits(s: string)
    requires forall i :: 0 <= i < |s| ==> IsDigit(s[i])
    ensures LeadingDigits(s, 10) == s
  {
    if s != [] {
      LeadingDigitsOfDigits(s[1..]);
    }
  }

  /** A string that starts with a digit has nothing for `TrimStart` to remove. */
  lemma TrimStartOfDigit(d: string)
    requires d != [] && IsDigit(d[0])
    ensures TrimStart(d) == d
  {
    assert !IsJsSpace(d[0]);
  }

  /** A digit string that does not start with "0x" reads back as its decimal value. */
  lemma ParseIntOfDigits(d: string)
    requires d != [] && forall i :: 0 <= i < |d| ==> IsDigit(d[i])
    ensures ParseInt(d) == Some(DigitsValue(d, 10) as int)
  {
    TrimStartOfDigit(d);
    assert |d| >= 2 ==> IsDigit(d[1]);
    SignedDecimal(d);
    LeadingDigitsOfDigits(d);
  }

  /** With no sign or "0x" in front, the number is the leading decimal digits. */
  lemma SignedDecimal(s: string)
    requires s != [] && IsDigit(s[0]) && (|s| >= 2 ==> IsDigit(s[1]))
    ensures Signed(s) == Some(DigitRun(s, 10).value as int)
  {
    UnsignedDecimal(s);
  }

  /** A leading decimal digit not followed by 'x' or 'X' makes the number decimal. */
  lemma UnsignedDecimal(u: string)
    requires u != [] && IsDigit(u[0]) && (|u| >= 2 ==> IsDigit(u[1]))
    ensures DigitRun(u, 10).Some? && Unsigned(u) == DigitRun(u, 10)
  {
    assert !(|u| >= 2 && (u[1] == 'x' || u[1] == 'X'));
  }

  /** Reading back what `Decimal` wrote gives the number: `parseInt(String(n)) === n`. */
  lemma ParseIntDecimal(n: nat)
    ensures ParseInt(Decimal(n)) == Some(n)
  {
    ParseIntOfDigits(Decimal(n));
    DecimalValue(n);
  }
}
