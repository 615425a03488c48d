/**
 * The two ECMAScript string operations asciiart.js relies on, on strings of
 * code points: String.prototype.trim (section 22.1.3.32 of ECMA-262, via
 * TrimString) and the global parseInt with radix 10 (section 19.2.5).
 * Both strip the same set of white-space characters: WhiteSpace and
 * LineTerminator, section 12.2 and 12.3 of ECMA-262.
 */
module JsText {
  import opened Wrappers

  /** WhiteSpace (TAB, VT, FF, ZWNBSP, and category Zs) or LineTerminator (LF, CR, LS, PS). */
  predicate IsSpace(c: char): (b: bool)
    ensures b ==> !IsDigit(c) && c != '-' && c != '+'
  {
    var n := c as int;
    n == 0x09 || n == 0x0A || n == 0x0B || n == 0x0C || n == 0x0D || n == 0x20
    || n == 0xA0 || n == 0x1680 || (0x2000 <= n <= 0x200A) || n == 0x2028
    || n == 0x2029 || n == 0x202F || n == 0x205F || n == 0x3000 || n == 0xFEFF
  }

  /** A decimal digit of radix 10: only the ASCII digits count. */
  predicate IsDigit(c: char) {
    '0' <= c <= '9'
  }

  /** The number of white-space characters before the first other character. */
  function LeadingSpaces(s: string): (k: nat)
    ensures k <= |s|
    ensures forall i :: 0 <= i < k ==> IsSpace(s[i])
    ensures k == |s| || !IsSpace(s[k])
  {
    if s == [] || !IsSpace(s[0]) then 0 else 1 + LeadingSpaces(s[1..])
  }

  /** The number of white-space characters after the last other character. */
  function TrailingSpaces(s: string): (k: nat)
    ensures k <= |s|
    ensures forall i :: |s| - k <= i < |s| ==> IsSpace(s[i])
    ensures k == |s| || !IsSpace(s[|s| - 1 - k])
  {
    if s == [] || !IsSpace(s[|s| - 1]) then 0 else 1 + TrailingSpaces(s[..|s| - 1])
  }

  /**
   * String.prototype.trim: the slice of s between its leading and its
   * trailing white space. The result neither starts nor ends with white
   * space, and everything cut away on either side is white space.
   */
  function Trim(s: string): (t: string)
    ensures LeadingSpaces(s) + |t| <= |s|
    ensures t == s[LeadingSpaces(s)..LeadingSpaces(s) + |t|]
    ensures forall i :: LeadingSpaces(s) + |t| <= i < |s| ==> IsSpace(s[i])
    ensures t == [] || (!IsSpace(t[0]) && !IsSpace(t[|t| - 1]))
  {
    var u := s[LeadingSpaces(s)..];
    u[..|u| - TrailingSpaces(u)]
  }

  /** A string that neither starts nor ends with white space is its own trim. */
  lemma TrimKeepsUnpadded(s: string)
    requires s == [] || (!IsSpace(s[0]) && !IsSpace(s[|s| - 1]))
    ensures Trim(s) == s
  {
    if s != [] {
      assert LeadingSpaces(s) == 0;
    }
  }

  /** The number of decimal digits at the front of s. */
  function DigitPrefixLength(s: string): (k: nat)
    ensures k <= |s|
    ensures forall i :: 0 <= i < k ==> IsDigit(s[i])
    ensures k == |s| || !IsDigit(s[k])
  {
    if s == [] || !IsDigit(s[0]) then 0 else 1 + DigitPrefixLength(s[1..])
  }

  /** The value 0..9 of one decimal digit. */
  function DigitValue(c: char): (v: nat)
    requires IsDigit(c)
    ensures v < 10
  {
    c as int - '0' as int
  }

  /** The mathematical value of a string of decimal digits, most significant first. */
  function DigitsValue(ds: string): nat
    requires forall i :: 0 <= i < |ds| ==> IsDigit(ds[i])
  {
    if ds == [] then 0
    else DigitsValue(ds[..|ds| - 1]) * 10 + DigitValue(ds[|ds| - 1])
  }

  /** The value of the longest run of decimal digits at the front of s; None when there is none. */
  function ParseDigits(s: string): Option<nat>
  {
    var n := DigitPrefixLength(s);
    if n == 0 then None else Some(DigitsValue(s[..n]))
  }

  /** What follows a leading '-' or '+', or the whole string when it has no sign. */
  function Unsigned(t: string): (u: string)
    ensures |u| <= |t|
  {
    if |t| > 0 && (t[0] == '-' || t[0] == '+') then t[1..] else t
  }

  /**
   * parseInt(s, 10): skip white space, take an optional sign, then the
   * longest run of decimal digits. The result is NaN, here None, exactly
   * when no digit follows the white space and the sign; a negative value
   * needs a '-'. The value is exact: a double differs only above 2^53.
   */
  function ParseInt(s: string): (r: Option<int>)
    ensures r.None? <==> (var u := Unsigned(s[LeadingSpaces(s)..]); u == [] || !IsDigit(u[0]))
    ensures r.Some? && r.value < 0 ==> LeadingSpaces(s) < |s| && s[LeadingSpaces(s)] == '-'
  {
    ParseSigned(s[LeadingSpaces(s)..])
  }

  /** An optional sign, then the longest run of decimal digits. */
  function ParseSigned(t: string): (r: Option<int>)
    ensures r.None? <==> (var u := Unsigned(t); u == [] || !IsDigit(u[0]))
    ensures r.Some? && r.value < 0 ==> |t| > 0 && t[0] == '-'
  {
    if |t| > 0 && t[0] == '-' then
      match ParseDigits(t[1..])
      case None => None
      case Some(v) => Some(-(v as int))
    else if |t| > 0 && t[0] == '+' then
      match ParseDigits(t[1..])
      case None => None
      case Some(v) => Some(v)
    else
      match ParseDigits(t)
      case None => None
      case Some(v) => Some(v)
  }

  /** The decimal numeral of n without leading zeros (Number.prototype.toString). */
  function Decimal(n: nat): (d: string)
    ensures |d| >= 1
    ensures forall i :: 0 <= i < |d| ==> IsDigit(d[i])
    ensures d[0] == '0' ==> n == 0
  {
    if n < 10 then [('0' as int + n) as char]
    else Decimal(n / 10) + [('0' as int + n % 10) as char]
  }

  /** The digit value inverts the decimal numeral. */
  lemma {:induction false} DigitsValueOfDecimal(n: nat)
    ensures DigitsValue(Decimal(n)) == n
  {
    var d := Decimal(n);
    if n >= 10 {
      DigitsValueOfDecimal(n / 10);
      assert d[..|d| - 1] == Decimal(n / 10);
    }
  }

  /** Digits followed by a non-digit (or nothing): the digit run is exactly those digits. */
  lemma {:induction false} DigitPrefixOfDigits(ds: string, rest: string)
    requires forall i :: 0 <= i < |ds| ==> IsDigit(ds[i])
    requires rest == [] || !IsDigit(rest[0])
    ensures DigitPrefixLength(ds + rest) == |ds|
  {
    if ds != [] {
      assert (ds + rest)[1..] == ds[1..] + rest;
      DigitPrefixOfDigits(ds[1..], rest);
    }
  }

  /** The digit run of a numeral followed by a non-digit is that numeral's value. */
  lemma ParseDigitsOfDecimal(n: nat, rest: string)
    requires rest == [] || !IsDigit(rest[0])
    ensures ParseDigits(Decimal(n) + rest) == Some(n)
  {
    var d := Decimal(n);
    DigitPrefixOfDigits(d, rest);
    assert (d + rest)[..|d|] == d;
    DigitsValueOfDecimal(n);
  }

  /** parseInt reads back the numeral of n, whatever non-digit text follows it ("200px" is 200). */
  lemma ParseDecimal(n: nat, rest: string)
    requires rest == [] || !IsDigit(rest[0])
    ensures ParseInt(Decimal(n) + rest) == Some(n)
  {
    var s := Decimal(n) + rest;
    assert s[0] == Decimal(n)[0];
    assert LeadingSpaces(s) == 0;
    assert s[0..] == s;
    ParseDigitsOfDecimal(n, rest);
  }

  /** A minus sign in front of the numeral of n gives -n. */
  lemma ParseNegativeDecimal(n: nat, rest: string)
    requires rest == [] || !IsDigit(rest[0])
    ensures ParseInt("-" + Decimal(n) + rest) == Some(-(n as int))
  {
    var s := "-" + Decimal(n) + rest;
    assert LeadingSpaces(s) == 0;
    assert s[0..] == s;
    assert s[1..] == Decimal(n) + rest;
    ParseDigitsOfDecimal(n, rest);
  }

  /** Leading zeros do not change the value of a digit string. */
  lemma {:induction false} LeadingZerosValue(zeros: string, ds: string)
    requires forall i :: 0 <= i < |zeros| ==> zeros[i] == '0'
    requires forall i :: 0 <= i < |ds| ==> IsDigit(ds[i])
    ensures DigitsValue(zeros + ds) == DigitsValue(ds)
    decreases |zeros| + |ds|
  {
    var z := zeros + ds;
    if ds == [] {
      assert z == zeros;
      if zeros != [] {
        LeadingZerosValue(zeros[..|zeros| - 1], []);
        assert zeros[..|zeros| - 1] + [] == zeros[..|zeros| - 1];
      }
    } else {
      assert z[..|z| - 1] == zeros + ds[..|ds| - 1];
      assert z[|z| - 1] == ds[|ds| - 1];
      LeadingZerosValue(zeros, ds[..|ds| - 1]);
    }
  }

  /** The digit run of a zero-padded numeral followed by a non-digit is that numeral's value. */
  lemma ParseDigitsOfPadded(zeros: string, n: nat, rest: string)
    requires forall i :: 0 <= i < |zeros| ==> zeros[i] == '0'
    requires rest == [] || !IsDigit(rest[0])
    ensures ParseDigits(zeros + Decimal(n) + rest) == Some(n)
  {
    var ds := zeros + Decimal(n);
    assert forall i :: 0 <= i < |ds| ==> IsDigit(ds[i]);
    DigitPrefixOfDigits(ds, rest);
    assert (ds + rest)[..|ds|] == ds;
    LeadingZerosValue(zeros, Decimal(n));
    DigitsValueOfDecimal(n);
  }

  /** A sign (or none) before digits: parseInt reads the digit run, negated after '-'. */
  lemma ParseSignedDigits(sign: string, body: string, v: nat)
    requires sign == "" || sign == "+" || sign == "-"
    requires body != [] && IsDigit(body[0])
    requires ParseDigits(body) == Some(v)
    ensures ParseInt(sign + body) == if sign == "-" then Some(-(v as int)) else Some(v)
  {
    var x := sign + body;
    assert x[0] == if sign == "" then body[0] else sign[0];
    assert LeadingSpaces(x) == 0;
    assert x[0..] == x;
    if sign == "" {
      assert x == body;
    } else {
      assert x[1..] == body;
    }
  }

  /**
   * Every string parseInt reads as a number: white space, an optional '+'
   * or '-', any number of leading zeros, a numeral, then text that does
   * not start with a digit ("+0200px" is 200, "-07" is -7).
   */
  lemma ParseSignedNumeral(ws: string, sign: string, zeros: string, n: nat, rest: string)
    requires forall i :: 0 <= i < |ws| ==> IsSpace(ws[i])
    requires sign == "" || sign == "+" || sign == "-"
    requires forall i :: 0 <= i < |zeros| ==> zeros[i] == '0'
    requires rest == [] || !IsDigit(rest[0])
    ensures ParseInt(ws + sign + zeros + Decimal(n) + rest) ==
              if sign == "-" then Some(-(n as int)) else Some(n)
  {
    var body := zeros + Decimal(n) + rest;
    assert ws + sign + zeros + Decimal(n) + rest == ws + (sign + body);
    SkipsLeadingSpace(ws, sign + body);
    ParseDigitsOfPadded(zeros, n, rest);
    assert IsDigit(body[0]) by {
      if zeros != [] {
        assert body[0] == zeros[0];
      } else {
        assert body[0] == Decimal(n)[0];
      }
    }
    ParseSignedDigits(sign, body, n);
  }

  /** White space in front of the argument does not change what parseInt reads. */
  lemma SkipsLeadingSpace(ws: string, s: string)
    requires forall i :: 0 <= i < |ws| ==> IsSpace(ws[i])
    ensures ParseInt(ws + s) == ParseInt(s)
  {
    LeadingSpacesAfterSpace(ws, s);
    var k := LeadingSpaces(s);
    assert (ws + s)[LeadingSpaces(ws + s)..] == s[k..];
  }

  lemma {:induction false} LeadingSpacesAfterSpace(ws: string, s: string)
    requires forall i :: 0 <= i < |ws| ==> IsSpace(ws[i])
    ensures LeadingSpaces(ws + s) == |ws| + LeadingSpaces(s)
  {
    if ws == [] {
      assert ws + s == s;
    } else {
      assert (ws + s)[0] == ws[0];
      assert (ws + s)[1..] == ws[1..] + s;
      assert forall i :: 0 <= i < |ws| - 1 ==> ws[1..][i] == ws[i + 1];
      LeadingSpacesAfterSpace(ws[1..], s);
    }
  }

  /** Trimming white-space padding off both sides of an unpadded core gives back the core. */
  lemma TrimPadded(ws: string, core: string, ws': string)
    requires forall i :: 0 <= i < |ws| ==> IsSpace(ws[i])
    requires forall i :: 0 <= i < |ws'| ==> IsSpace(ws'[i])
    requires core != [] && !IsSpace(core[0]) && !IsSpace(core[|core| - 1])
    ensures Trim(ws + core + ws') == core
  {
    var s := ws + core + ws';
    assert s == ws + (core + ws');
    LeadingSpacesAfterSpace(ws, core + ws');
    assert LeadingSpaces(s) == |ws|;
    var t := Trim(s);
    assert s[|ws| + |core| - 1] == core[|core| - 1];
    assert |t| == |core|;
    assert t == s[|ws|..|ws| + |core|];
  }

  /** Digits that do not come first, after the white space and the sign, are never read. */
  lemma NaNExamples()
    ensures ParseInt("a1") == None
    ensures ParseInt("- 5") == None
    ensures ParseInt(" +-3") == None
  {
    assert LeadingSpaces("a1") == 0;
    assert LeadingSpaces("- 5") == 0;
    assert LeadingSpaces(" +-3") == 1;
    assert " +-3"[1..] == "+-3";
  }

  /** A string with no decimal digit at all parses to NaN. */
  lemma NoDigitsIsNaN(s: string)
    requires forall i :: 0 <= i < |s| ==> !IsDigit(s[i])
    ensures ParseInt(s) == None
  {
  }
}
