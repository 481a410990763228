/**
 * Decimal text of numbers, as JavaScript writes and reads it for the values the core
 * handles: `Number.prototype.toString` on integers, `toFixed(1)` on a value held in
 * tenths, `parseFloat` on the text `toFixed(1)` produces, and `parseInt`.
 */
module Decimal {
  import opened Wrappers

  predicate IsDigit(c: char) {
    '0' <= c <= '9'
  }

  predicate AllDigits(s: string) {
    forall i :: 0 <= i < |s| ==> IsDigit(s[i])
  }

  function DigitValue(c: char): (d: nat)
    requires IsDigit(c)
    ensures d < 10
  {
    c as int - '0' as int
  }

  function DigitChar(d: nat): (c: char)
    requires d < 10
    ensures IsDigit(c) && DigitValue(c) == d
  {
    ('0' as int + d) as char
  }

  /** The value of a string of decimal digits, most significant first. */
  function DigitsValue(s: string): (v: nat)
    requires AllDigits(s)
  {
    if s == [] then 0 else DigitsValue(s[..|s| - 1]) * 10 + DigitValue(s[|s| - 1])
  }

  /** `n.toString()` for a non-negative integer: its shortest decimal digits. */
  function NatToString(n: nat): (s: string)
    ensures |s| > 0 && AllDigits(s)
    ensures s[0] == '0' ==> n == 0
  {
    if n < 10 then [DigitChar(n)] else NatToString(n / 10) + [DigitChar(n % 10)]
  }

  /** Reading back the digits `toString` writes gives the number again. */
  lemma {:induction false} NatToStringRoundTrip(n: nat)
    ensures DigitsValue(NatToString(n)) == n
  {
    if n >= 10 {
      var s := NatToString(n);
      assert s[..|s| - 1] == NatToString(n / 10);
      NatToStringRoundTrip(n / 10);
    }
  }

  /** `toString` writes more than k digits iff the number is at least 10^k (for k = 0, "0" is excluded). */
  lemma {:induction false} NatToStringLength(n: nat, k: nat)
    requires k > 0 || n > 0
    ensures |NatToString(n)| > k <==> n >= Pow10(k)
  {
    if k > 0 {
      if n >= 10 {
        NatToStringLength(n / 10, k - 1);
        var p := Pow10(k - 1);
        assert n / 10 >= p <==> n >= 10 * p;
      } else {
        Pow10Positive(k - 1);
      }
    }
  }

  function Pow10(k: nat): (p: nat)
    ensures p > 0
  {
    if k == 0 then 1 else 10 * Pow10(k - 1)
  }

  lemma Pow10Positive(k: nat)
    ensures Pow10(k + 1) >= 10
  {
  }

  /** `i.toString()` for any integer: a minus sign before the digits of a negative number. */
  function IntToString(i: int): (s: string)
    ensures i >= 0 ==> s == NatToString(i)
    ensures i < 0 ==> s == "-" + NatToString(-i)
  {
    if i < 0 then "-" + NatToString(-i) else NatToString(i)
  }

  /** `(tenths / 10).toFixed(1)`: the whole part, a point and exactly one decimal. */
  function FixedOne(tenths: nat): (s: string)
    ensures |s| >= 3 && s[|s| - 2] == '.'
  {
    NatToString(tenths / 10) + "." + [DigitChar(tenths % 10)]
  }

  /**
   * `parseFloat` on text of the form digits '.' digit, as `toFixed(1)` writes it,
   * read in tenths; any other text is left unmodelled (None).
   */
  function ParseTenths(s: string): (r: Option<nat>)
  {
    if |s| >= 3 && s[|s| - 2] == '.' && AllDigits(s[..|s| - 2]) && IsDigit(s[|s| - 1])
    then Some(DigitsValue(s[..|s| - 2]) * 10 + DigitValue(s[|s| - 1]))
    else None
  }

  /** `parseFloat(x.toFixed(1))` loses nothing for a value held in tenths. */
  lemma FixedOneRoundTrip(tenths: nat)
    ensures ParseTenths(FixedOne(tenths)) == Some(tenths)
  {
    var s := FixedOne(tenths);
    assert s[..|s| - 2] == NatToString(tenths / 10);
    NatToStringRoundTrip(tenths / 10);
  }

  /**
   * The characters `parseInt` skips before the number: the white space characters
   * (tab, vertical tab, form feed, the byte order mark and every space separator) and
   * the line terminators.
   */
  predicate IsJsWhiteSpace(c: char) {
    || c == '\t' || c == '\U{000B}' || c == '\U{000C}' || c == '\U{FEFF}'
    || c == ' ' || c == '\U{00A0}' || c == '\U{1680}' || '\U{2000}' <= c <= '\U{200A}'
    || c == '\U{202F}' || c == '\U{205F}' || c == '\U{3000}'
    || c == '\n' || c == '\r' || c == '\U{2028}' || c == '\U{2029}'
  }

  predicate IsHexDigit(c: char) {
    ('0' <= c <= '9') || ('a' <= c <= 'f') || ('A' <= c <= 'F')
  }

  predicate AllHex(s: string) {
    forall i :: 0 <= i < |s| ==> IsHexDigit(s[i])
  }

  function HexValue(c: char): (v: nat)
    requires IsHexDigit(c)
    ensures v < 16
    ensures IsDigit(c) ==> v == DigitValue(c)
  {
    if '0' <= c <= '9' then (c - '0') as nat
    else if 'a' <= c <= 'f' then (c - 'a') as nat + 10
    else (c - 'A') as nat + 10
  }

  /** The value of a string of hex digits, most significant first. */
  function HexDigitsValue(s: string): (v: nat)
    requires AllHex(s)
  {
    if s == [] then 0 else HexDigitsValue(s[..|s| - 1]) * 16 + HexValue(s[|s| - 1])
  }

  /** The longest prefix of s made of decimal digits. */
  function LeadingDigits(s: string): (d: string)
    ensures AllDigits(d) && d <= s
    ensures |d| < |s| ==> !IsDigit(s[|d|])
  {
    if s != [] && IsDigit(s[0]) then [s[0]] + LeadingDigits(s[1..]) else []
  }

  /** The longest prefix of s made of hex digits. */
  function LeadingHexDigits(s: string): (d: string)
    ensures AllHex(d) && d <= s
    ensures |d| < |s| ==> !IsHexDigit(s[|d|])
  {
    if s != [] && IsHexDigit(s[0]) then [s[0]] + LeadingHexDigits(s[1..]) else []
  }

  /** The text with its leading white space and line terminators removed. */
  function TrimStart(s: string): (t: string)
    ensures |t| <= |s|
    ensures t != [] ==> !IsJsWhiteSpace(t[0])
  {
    if s != [] && IsJsWhiteSpace(s[0]) then TrimStart(s[1..]) else s
  }

  /** Whether the text after the sign starts with the "0x" or "0X" prefix of a hex number. */
  predicate HasHexPrefix(s: string) {
    |s| >= 2 && s[0] == '0' && (s[1] == 'x' || s[1] == 'X')
  }

  /**
   * The number after the sign: hex digits after a "0x" or "0X" prefix, decimal digits
   * otherwise, up to the first character that is not such a digit; None when there is none.
   */
  function Magnitude(body: string): (m: Option<nat>)
    ensures !HasHexPrefix(body) && body != [] && AllDigits(body) ==> m == Some(DigitsValue(body))
    ensures HasHexPrefix(body) && body[2..] != [] && AllHex(body[2..]) ==> m == Some(HexDigitsValue(body[2..]))
    ensures HasHexPrefix(body) && (body[2..] == [] || !IsHexDigit(body[2])) ==> m.None?
  {
    if HasHexPrefix(body) then
      var d := LeadingHexDigits(body[2..]);
      LeadingHexDigitsOfHex(body[2..]);
      if d == [] then None else Some(HexDigitsValue(d))
    else
      var d := LeadingDigits(body);
      LeadingDigitsOfDigits(body);
      if d == [] then None else Some(DigitsValue(d))
  }

  /**
   * `parseInt(s)` with no radix: leading white space skipped, an optional sign, then a
   * hex number after a "0x"/"0X" prefix or else a decimal one; None stands for NaN.
   */
  function ParseInt(s: string): (r: Option<int>)
    ensures s != [] && AllDigits(s) ==> r == Some(DigitsValue(s))
    ensures HasHexPrefix(s) && s[2..] != [] && AllHex(s[2..]) ==> r == Some(HexDigitsValue(s[2..]))
    ensures HasHexPrefix(s) && (s[2..] == [] || !IsHexDigit(s[2])) ==> r.None?
  {
    var t := TrimStart(s);
    assert s != [] && !IsJsWhiteSpace(s[0]) ==> t == s;
    var negative := t != [] && t[0] == '-';
    var body := if t != [] && (t[0] == '-' || t[0] == '+') then t[1..] else t;
    match Magnitude(body)
    case None => None
    case Some(m) => Some(if negative then -(m as int) else m)
  }

  /** Leading white space does not change what `parseInt` reads. */
  lemma ParseIntSkipsWhiteSpace(s: string)
    requires s != [] && IsJsWhiteSpace(s[0])
    ensures ParseInt(s) == ParseInt(s[1..])
  {
    assert TrimStart(s) == TrimStart(s[1..]);
  }

  lemma {:induction false} LeadingDigitsOfDigits(s: string)
    ensures AllDigits(s) ==> LeadingDigits(s) == s
  {
    if s != [] && AllDigits(s) {
      LeadingDigitsOfDigits(s[1..]);
    }
  }

  lemma {:induction false} LeadingHexDigitsOfHex(s: string)
    ensures AllHex(s) ==> LeadingHexDigits(s) == s
  {
    if s != [] && AllHex(s) {
      LeadingHexDigitsOfHex(s[1..]);
    }
  }

  /**
   * Examples where `parseInt` without a radix differs from reading decimal digits:
   * "0x7" is hex 7, a bare "0x" is NaN, and an ideographic space before the digits is skipped.
   */
  lemma ParseIntPrefixExamples()
    ensures ParseInt("0x7") == Some(7)
    ensures ParseInt("0X1f") == Some(31)
    ensures ParseInt("0x").None?
    ensures ParseInt("\U{3000}7") == Some(7)
  {
    assert HasHexPrefix("0x7") && "0x7"[2..] == "7" && AllHex("7");
    assert "7"[..0] == [];
    assert HexDigitsValue("7") == 7;
    assert HasHexPrefix("0X1f") && "0X1f"[2..] == "1f" && AllHex("1f");
    assert "1f"[..1] == "1" && "1"[..0] == [];
    assert HexDigitsValue("1f") == 31;
    assert HasHexPrefix("0x") && "0x"[2..] == [];
    ParseIntSkipsWhiteSpace("\U{3000}7");
    assert "\U{3000}7"[1..] == "7" && AllDigits("7");
    assert "7"[..0] == [] && DigitsValue("7") == 7;
  }
}
