/**
 * The string operations of Rust's standard library that src/parse.rs
 * relies on: whitespace trimming, `split_once` and `from_str_radix` for
 * unsigned integers; and `Format`, this model's own printer of numbers,
 * against which the parser's round trips are stated.
 */
module Text {
  import opened Wrappers

  /** `char::is_whitespace`: the characters with the Unicode White_Space property. */
  predicate IsWhitespace(c: char)
  {
    ('\t' <= c <= '\r') || c == ' ' || c == '\U{85}' || c == '\U{A0}' || c == '\U{1680}' ||
    ('\U{2000}' <= c <= '\U{200A}') || c == '\U{2028}' || c == '\U{2029}' ||
    c == '\U{202F}' || c == '\U{205F}' || c == '\U{3000}'
  }

  predicate AllWhitespace(s: string)
  {
    forall i | 0 <= i < |s| :: IsWhitespace(s[i])
  }

  /** `str::trim_start`: drops the leading whitespace, and only that. */
  function TrimStart(s: string): (r: string)
    ensures |r| <= |s| && r == s[|s| - |r|..]
    ensures AllWhitespace(s[..|s| - |r|])
    ensures r == [] || !IsWhitespace(r[0])
  {
    if |s| > 0 && IsWhitespace(s[0]) then TrimStart(s[1..]) else s
  }

  /** `str::trim_end`: drops the trailing whitespace, and only that. */
  function TrimEnd(s: string): (r: string)
    ensures |r| <= |s| && r == s[..|r|]
    ensures AllWhitespace(s[|r|..])
    ensures r == [] || !IsWhitespace(r[|r| - 1])
  {
    if |s| > 0 && IsWhitespace(s[|s| - 1]) then TrimEnd(s[..|s| - 1]) else s
  }

  /** `str::trim`. */
  function Trim(s: string): string
  {
    TrimEnd(TrimStart(s))
  }

  /** Trimming removes whitespace only: any other character of `s` survives it. */
  lemma TrimKeepsNonWhitespace(s: string, c: char)
    requires !IsWhitespace(c) && c in s
    ensures c in Trim(s)
  {
    var t := TrimStart(s);
    var k := |s| - |t|;
    var r := TrimEnd(t);
    var i :| 0 <= i < |s| && s[i] == c;
    if i < k {
      assert false;
    } else {
      assert t[i - k] == c;
      if i - k >= |r| {
        assert false;
      } else {
        assert r[i - k] == c;
      }
    }
  }

  /** Trimming leaves alone a string whose ends are not whitespace. */
  lemma TrimPlain(s: string)
    requires s == [] || (!IsWhitespace(s[0]) && !IsWhitespace(s[|s| - 1]))
    ensures Trim(s) == s
  {
    assert TrimStart(s) == s;
  }

  /** `split_once`: the index of the first occurrence of `c`. */
  function FindFirst(s: string, c: char): (r: Option<nat>)
    ensures r.None? ==> c !in s
    ensures r.Some? ==> r.value < |s| && s[r.value] == c && c !in s[..r.value]
  {
    if s == [] then None
    else if s[0] == c then Some(0)
    else match FindFirst(s[1..], c)
      case None => None
      case Some(k) => Some(k + 1)
  }

  /** `char::to_digit(radix)`: 0-9, then letters of either case from 10 up. */
  function DigitValue(c: char, radix: nat): (r: Option<nat>)
    ensures r.Some? ==> r.value < radix
  {
    var v := if '0' <= c <= '9' then c as int - '0' as int
             else if 'a' <= c <= 'z' then c as int - 'a' as int + 10
             else if 'A' <= c <= 'Z' then c as int - 'A' as int + 10
             else radix;
    if v < radix then Some(v) else None
  }

  predicate AllDigits(s: string, radix: nat)
  {
    forall i | 0 <= i < |s| :: DigitValue(s[i], radix).Some?
  }

  /** The value of a string of digits, most significant first. */
  function DigitsValue(s: string, radix: nat): nat
    requires AllDigits(s, radix)
  {
    if s == [] then 0
    else DigitsValue(s[..|s| - 1], radix) * radix + DigitValue(s[|s| - 1], radix).value
  }

  /**
   * `from_str_radix` for an unsigned type whose values lie below `bound`:
   * an optional `+`, then at least one digit, and the value must fit. Which
   * of Rust's error kinds is reported is not modelled.
   */
  function ParseUnsigned(s: string, radix: nat, bound: nat): (r: Option<nat>)
    ensures r.Some? ==> r.value < bound
  {
    if s == [] then None
    else
      var digits := if s[0] == '+' then s[1..] else s;
      if digits == [] || !AllDigits(digits, radix) then None
      else
        var v := DigitsValue(digits, radix);
        if v < bound then Some(v) else None
  }

  /**
   * What `from_str_radix` accepts: a non-empty run of digits of the radix,
   * in either case and with any leading zeros, after an optional `+`; it
   * yields their value when that fits below the bound and fails otherwise.
   */
  lemma ParseDigits(sign: string, digits: string, radix: nat, bound: nat)
    requires sign == "" || sign == "+"
    requires digits != [] && AllDigits(digits, radix)
    ensures ParseUnsigned(sign + digits, radix, bound) ==
      if DigitsValue(digits, radix) < bound then Some(DigitsValue(digits, radix)) else None
  {
    var s := sign + digits;
    if sign == "" {
      assert s == digits;
      assert DigitValue('+', radix).None?;
      assert s[0] != '+';
    } else {
      assert s[0] == '+' && s[1..] == digits;
    }
  }

  /**
   * The converse of `ParseDigits`: whatever parses is an optional `+`
   * followed by a non-empty run of digits, whose value is the result. So
   * the empty string, a lone `+`, and a `+` anywhere but in front are
   * rejected.
   */
  lemma ParsedShape(s: string, radix: nat, bound: nat)
    requires ParseUnsigned(s, radix, bound).Some?
    ensures s != [] && forall i | 1 <= i < |s| :: s[i] != '+'
    ensures var digits := if s[0] == '+' then s[1..] else s;
      digits != [] && AllDigits(digits, radix) &&
      ParseUnsigned(s, radix, bound).value == DigitsValue(digits, radix)
  {
    var digits := if s[0] == '+' then s[1..] else s;
    assert DigitValue('+', radix).None?;
    forall i | 1 <= i < |s|
      ensures s[i] != '+'
    {
      if s[0] == '+' {
        assert s[i] == digits[i - 1];
      } else {
        assert s[i] == digits[i];
      }
    }
  }

  /** Only `+` and digits can appear in a string that parses as a number. */
  lemma ParsedCharacters(s: string, radix: nat, bound: nat, i: nat)
    requires ParseUnsigned(s, radix, bound).Some? && i < |s|
    ensures s[i] == '+' || DigitValue(s[i], radix).Some?
  {
    if i > 0 && s[0] == '+' {
      assert s[i] == s[1..][i - 1];
    }
  }

  /** The lower-case digit for d, as `{:x}` and `{}` print it. */
  function DigitChar(d: nat): (c: char)
    requires d < 16
    ensures '0' <= c <= '9' || 'a' <= c <= 'f'
  {
    if d < 10 then ('0' as int + d) as char else ('a' as int + d - 10) as char
  }

  /** Formatting of an unsigned number in the given radix, without leading zeros. */
  function Format(n: nat, radix: nat): (s: string)
    requires 2 <= radix <= 16
    ensures |s| >= 1
  {
    if n < radix then [DigitChar(n)] else Format(n / radix, radix) + [DigitChar(n % radix)]
  }

  lemma QuotientSmaller(n: nat, radix: nat)
    requires 2 <= radix <= n
    ensures n / radix < n && n % radix < radix
  {
  }

  /** A formatted number is made of lower-case digits only. */
  lemma {:induction false} FormatCharacters(n: nat, radix: nat, i: nat)
    requires 2 <= radix <= 16 && i < |Format(n, radix)|
    ensures '0' <= Format(n, radix)[i] <= '9' || 'a' <= Format(n, radix)[i] <= 'f'
    decreases n
  {
    if n >= radix {
      var q := n / radix;
      QuotientSmaller(n, radix);
      assert Format(n, radix) == Format(q, radix) + [DigitChar(n % radix)];
      if i < |Format(q, radix)| {
        FormatCharacters(q, radix, i);
      }
    }
  }

  lemma DigitCharValue(d: nat, radix: nat)
    requires d < radix <= 16
    ensures DigitValue(DigitChar(d), radix) == Some(d)
  {
  }

  /** Appending one digit multiplies the value by the radix and adds the digit. */
  lemma DigitsAppend(p: string, d: char, radix: nat)
    requires AllDigits(p, radix) && DigitValue(d, radix).Some?
    ensures AllDigits(p + [d], radix)
    ensures DigitsValue(p + [d], radix) == DigitsValue(p, radix) * radix + DigitValue(d, radix).value
  {
    var s := p + [d];
    forall i | 0 <= i < |s|
      ensures DigitValue(s[i], radix).Some?
    {
      if i < |p| {
        assert s[i] == p[i];
      }
    }
    assert s[..|s| - 1] == p;
  }

  lemma DivMod(n: nat, radix: nat)
    requires radix > 0
    ensures (n / radix) * radix + n % radix == n
  {
  }

  lemma {:induction false} FormatDigits(n: nat, radix: nat)
    requires 2 <= radix <= 16
    ensures AllDigits(Format(n, radix), radix)
    ensures DigitsValue(Format(n, radix), radix) == n
    decreases n
  {
    if n < radix {
      DigitCharValue(n, radix);
    } else {
      var q, d := n / radix, n % radix;
      QuotientSmaller(n, radix);
      assert Format(n, radix) == Format(q, radix) + [DigitChar(d)];
      FormatDigits(q, radix);
      DigitCharValue(d, radix);
      DigitsAppend(Format(q, radix), DigitChar(d), radix);
      DivMod(n, radix);
    }
  }

  /** Parsing what was formatted gives back the number. */
  lemma FormatRoundTrip(n: nat, radix: nat, bound: nat)
    requires 2 <= radix <= 16 && n < bound
    ensures ParseUnsigned(Format(n, radix), radix, bound) == Some(n)
  {
    FormatDigits(n, radix);
  }

  /** A number at or above the bound is rejected, as `from_str_radix` rejects what overflows its type. */
  lemma FormatTooLarge(n: nat, radix: nat, bound: nat)
    requires 2 <= radix <= 16 && n >= bound
    ensures ParseUnsigned(Format(n, radix), radix, bound).None?
  {
    FormatDigits(n, radix);
    FormatCharacters(n, radix, 0);
  }

  /** Formatting is injective: two numbers print alike only if they are equal. */
  lemma FormatInjective(m: nat, n: nat, radix: nat)
    requires 2 <= radix <= 16 && Format(m, radix) == Format(n, radix)
    ensures m == n
  {
    FormatDigits(m, radix);
    FormatDigits(n, radix);
  }
}
