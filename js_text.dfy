/**
 * The two pieces of the JavaScript runtime the validator leans on: the
 * whitespace class `\s` of regular expressions, and the global `parseInt`
 * called without a radix (ECMAScript, section 19.2.5 "parseInt ( string,
 * radix )"). Strings are sequences of Unicode scalar values; no modelled
 * rule depends on UTF-16 surrogate pairs.
 */
module JsText {
  import opened Wrappers

  /**
   * JavaScript's `\s`: the WhiteSpace and LineTerminator code points. The
   * same set is what `parseInt` trims from the front of its input.
   */
  predicate IsWhitespace(c: char) {
    || c == ' ' || c == '\t' || c == '\n' || c == '\U{000B}' || c == '\U{000C}' || c == '\r'
    || c == '\U{00A0}' || c == '\U{1680}' || ('\U{2000}' <= c <= '\U{200A}')
    || c == '\U{2028}' || c == '\U{2029}' || c == '\U{202F}' || c == '\U{205F}'
    || c == '\U{3000}' || c == '\U{FEFF}'
  }

  /** JavaScript's `\d`: an ASCII decimal digit, nothing wider. */
  predicate IsAsciiDigit(c: char) {
    '0' <= c <= '9'
  }

  /** The value of `c` as a digit in radices up to 36 (letters in either case); 36 when it is none. */
  function DigitValue(c: char): (d: nat)
    ensures d <= 36
    ensures IsAsciiDigit(c) <==> d < 10
  {
    if '0' <= c <= '9' then c as int - '0' as int
    else if 'a' <= c <= 'z' then c as int - 'a' as int + 10
    else if 'A' <= c <= 'Z' then c as int - 'A' as int + 10
    else 36
  }

  predicate IsRadixDigit(c: char, radix: nat) {
    DigitValue(c) < radix
  }

  /** `s` with its leading whitespace removed. */
  function TrimStart(s: string): (t: string)
    ensures |t| <= |s| && t == s[|s| - |t|..]
    ensures t == [] || !IsWhitespace(t[0])
    ensures forall i :: 0 <= i < |s| - |t| ==> IsWhitespace(s[i])
  {
    if |s| > 0 && IsWhitespace(s[0]) then TrimStart(s[1..]) else s
  }

  /** The length of the longest prefix of `s` made of radix-`radix` digits. */
  function DigitRun(s: string, radix: nat): (n: nat)
    ensures n <= |s|
    ensures forall i :: 0 <= i < n ==> IsRadixDigit(s[i], radix)
    ensures n == |s| || !IsRadixDigit(s[n], radix)
  {
    if |s| > 0 && IsRadixDigit(s[0], radix) then 1 + DigitRun(s[1..], radix) else 0
  }

  /** The number a string of digits denotes in the given radix, most significant digit first. */
  function NumeralValue(digits: string, radix: nat): nat {
    if digits == [] then 0
    else NumeralValue(digits[..|digits| - 1], radix) * radix + DigitValue(digits[|digits| - 1])
  }

  /**
   * `parseInt(s)`: skip leading whitespace, take an optional sign, then read
   * an unsigned numeral; no digit at all gives NaN (`None`). Numerals larger
   * than a double holds exactly are not rounded here.
   */
  function ParseInt(s: string): (r: Option<int>)
    ensures (forall i :: 0 <= i < |s| ==> IsWhitespace(s[i])) ==> r.None?
    ensures r.Some? ==> exists i :: 0 <= i < |s| && IsRadixDigit(s[i], 16)
    ensures r.Some? && r.value < 0 ==> exists i :: 0 <= i < |s| && s[i] == '-'
  {
    var t := TrimStart(s);
    var negative := |t| > 0 && t[0] == '-';
    match ParseUnsigned(UnsignedPart(s))
    case None => None
    case Some(magnitude) => var m: int := magnitude; Some(if negative then -m else m)
  }

  /**
   * The unsigned part of `parseInt`: radix 16 after a `0x`/`0X` prefix, radix
   * 10 otherwise, and the value of the longest run of digits in that radix.
   */
  function ParseUnsigned(u: string): Option<nat> {
    var hex := |u| >= 2 && u[0] == '0' && (u[1] == 'x' || u[1] == 'X');
    var radix := if hex then 16 else 10;
    var body := if hex then u[2..] else u;
    var n := DigitRun(body, radix);
    if n == 0 then None else Some(NumeralValue(body[..n], radix))
  }

  /** The text `parseInt` reads its numeral from: `s` after the leading whitespace and one optional sign. */
  function UnsignedPart(s: string): string {
    var t := TrimStart(s);
    if |t| > 0 && (t[0] == '-' || t[0] == '+') then t[1..] else t
  }

  /**
   * When `parseInt` gives NaN: the first character after the whitespace and
   * the sign is missing or is not a decimal digit, or there is a `0x`/`0X`
   * prefix with no hexadecimal digit right after it.
   */
  lemma ParseIntNaN(s: string)
    ensures var u := UnsignedPart(s);
      ParseInt(s).None? <==>
        || u == [] || !IsAsciiDigit(u[0])
        || (|u| >= 2 && u[0] == '0' && (u[1] == 'x' || u[1] == 'X') && (|u| == 2 || !IsRadixDigit(u[2], 16)))
  {
    var u := UnsignedPart(s);
    if u != [] && IsAsciiDigit(u[0]) && !(|u| >= 2 && u[0] == '0' && (u[1] == 'x' || u[1] == 'X')) {
      assert DigitRun(u, 10) >= 1;
    }
  }

  /** The decimal numeral of `n`, without leading zeros: JavaScript's `String(n)` for a natural number. */
  function Decimal(n: nat): (s: string)
    ensures |s| > 0
    ensures forall i :: 0 <= i < |s| ==> IsAsciiDigit(s[i])
    ensures n >= 1 ==> s[0] != '0'
  {
    if n < 10 then [('0' as int + n) as char]
    else Decimal(n / 10) + [('0' as int + n % 10) as char]
  }

  /** Reading back the decimal numeral of `n` gives `n`. */
  lemma {:induction false} NumeralValueOfDecimal(n: nat)
    ensures NumeralValue(Decimal(n), 10) == n
  {
    if n >= 10 {
      var s := Decimal(n);
      assert s[..|s| - 1] == Decimal(n / 10);
      NumeralValueOfDecimal(n / 10);
    }
  }

  /** The digit run stops exactly where the digits `p` end. */
  lemma {:induction false} DigitRunOfPrefix(p: string, t: string, radix: nat)
    requires forall i :: 0 <= i < |p| ==> IsRadixDigit(p[i], radix)
    requires t == [] || !IsRadixDigit(t[0], radix)
    ensures DigitRun(p + t, radix) == |p|
  {
    if p != [] {
      assert (p + t)[1..] == p[1..] + t;
      DigitRunOfPrefix(p[1..], t, radix);
    }
  }

  /** Trimming removes exactly a whitespace prefix `w`. */
  lemma {:induction false} TrimStartOfPrefix(w: string, r: string)
    requires forall i :: 0 <= i < |w| ==> IsWhitespace(w[i])
    requires r == [] || !IsWhitespace(r[0])
    ensures TrimStart(w + r) == r
  {
    if w != [] {
      assert (w + r)[1..] == w[1..] + r;
      TrimStartOfPrefix(w[1..], r);
    }
  }

  /** A positive decimal numeral followed by a non-digit reads back as its value. */
  lemma ParseUnsignedOfDecimal(n: nat, t: string)
    requires n >= 1
    requires t == [] || !IsAsciiDigit(t[0])
    ensures ParseUnsigned(Decimal(n) + t) == Some(n)
  {
    var d := Decimal(n);
    assert (d + t)[0] == d[0];
    assert forall i :: 0 <= i < |d| ==> IsRadixDigit(d[i], 10);
    DigitRunOfPrefix(d, t, 10);
    assert (d + t)[..|d|] == d;
    NumeralValueOfDecimal(n);
  }

  /** Input that starts, after whitespace, with a digit is read as an unsigned numeral. */
  lemma ParseIntOfUnsigned(w: string, u: string)
    requires forall i :: 0 <= i < |w| ==> IsWhitespace(w[i])
    requires u != [] && IsAsciiDigit(u[0])
    ensures ParseInt(w + u) == ParseUnsigned(u)
  {
    TrimStartOfPrefix(w, u);
    var t := TrimStart(w + u);
    assert t == u;
    assert t[0] != '-' && t[0] != '+';
  }

  /**
   * A positive decimal numeral, after any whitespace and before anything that
   * is not a digit, parses to its value: `parseInt(" 42abc") == 42`.
   */
  lemma ParseIntOfDecimal(w: string, n: nat, t: string)
    requires n >= 1
    requires forall i :: 0 <= i < |w| ==> IsWhitespace(w[i])
    requires t == [] || !IsAsciiDigit(t[0])
    ensures ParseInt(w + Decimal(n) + t) == Some(n)
  {
    var u := Decimal(n) + t;
    assert w + Decimal(n) + t == w + u;
    assert u[0] == Decimal(n)[0];
    ParseIntOfUnsigned(w, u);
    ParseUnsignedOfDecimal(n, t);
  }
}
