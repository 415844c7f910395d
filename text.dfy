/**
 * The pieces of Rust's standard library the record format and the console
 * input rely on: `str::split` on a separator character, the decimal
 * `to_string` of an unsigned integer, `from_str` for unsigned integer types
 * and `str::trim`.
 */
module Text {
  import opened Options

  /** The fields joined with one separator between neighbours. */
  function Join(fields: seq<string>, sep: char): string
    requires |fields| >= 1
  {
    if |fields| == 1 then fields[0]
    else Join(fields[..|fields| - 1], sep) + [sep] + fields[|fields| - 1]
  }

  /** `s.split(sep)`: there is always at least one field (the empty string splits into one empty field). */
  function Split(s: string, sep: char): (fields: seq<string>)
    ensures |fields| >= 1
    decreases |s|
  {
    if |s| == 0 then [""]
    else
      var init := Split(s[..|s| - 1], sep);
      var c := s[|s| - 1];
      if c == sep then init + [""]
      else init[..|init| - 1] + [init[|init| - 1] + [c]]
  }

  /** No field of `s.split(sep)` holds the separator. */
  lemma {:induction false} SplitFieldsHaveNoSeparator(s: string, sep: char)
    ensures forall i :: 0 <= i < |Split(s, sep)| ==> sep !in Split(s, sep)[i]
    decreases |s|
  {
    if |s| > 0 {
      SplitFieldsHaveNoSeparator(s[..|s| - 1], sep);
    }
  }

  /** Appending a character to the last field appends it to the joined text. */
  lemma JoinExtendLast(fields: seq<string>, sep: char, c: char)
    requires |fields| >= 1
    ensures Join(fields[..|fields| - 1] + [fields[|fields| - 1] + [c]], sep) == Join(fields, sep) + [c]
  {
    var n := |fields|;
    var extended := fields[..n - 1] + [fields[n - 1] + [c]];
    if n > 1 {
      assert extended[..n - 1] == fields[..n - 1];
      var front := Join(fields[..n - 1], sep) + [sep];
      assert front + (fields[n - 1] + [c]) == (front + fields[n - 1]) + [c];
    }
  }

  /** Joining the fields of `s.split(sep)` with the separator gives `s` back. */
  lemma {:induction false} SplitJoinsBack(s: string, sep: char)
    ensures Join(Split(s, sep), sep) == s
    decreases |s|
  {
    if |s| > 0 {
      var init := Split(s[..|s| - 1], sep);
      SplitJoinsBack(s[..|s| - 1], sep);
      var c := s[|s| - 1];
      assert s == s[..|s| - 1] + [c];
      if c != sep {
        JoinExtendLast(init, sep, c);
      }
    }
  }

  lemma {:induction false} SplitWithoutSeparator(t: string, sep: char)
    requires sep !in t
    ensures Split(t, sep) == [t]
    decreases |t|
  {
    if |t| > 0 {
      assert t[..|t| - 1] + [t[|t| - 1]] == t;
      SplitWithoutSeparator(t[..|t| - 1], sep);
    }
  }

  /** Appending a separator and a separator-free field appends one field. */
  lemma {:induction false} SplitAppendField(s: string, sep: char, t: string)
    requires sep !in t
    ensures Split(s + [sep] + t, sep) == Split(s, sep) + [t]
    decreases |t|
  {
    var u := s + [sep] + t;
    if |t| == 0 {
      assert u[..|u| - 1] == s;
    } else {
      var t' := t[..|t| - 1];
      assert u[..|u| - 1] == s + [sep] + t';
      assert t' + [t[|t| - 1]] == t;
      SplitAppendField(s, sep, t');
    }
  }

  /** Splitting undoes joining separator-free fields. */
  lemma {:induction false} SplitJoin(fields: seq<string>, sep: char)
    requires |fields| >= 1
    requires forall i :: 0 <= i < |fields| ==> sep !in fields[i]
    ensures Split(Join(fields, sep), sep) == fields
    decreases |fields|
  {
    if |fields| == 1 {
      SplitWithoutSeparator(fields[0], sep);
    } else {
      var init := fields[..|fields| - 1];
      SplitJoin(init, sep);
      SplitAppendField(Join(init, sep), sep, fields[|fields| - 1]);
      assert init + [fields[|fields| - 1]] == fields;
    }
  }

  /** How many times `c` occurs in `s`. */
  function Count(s: string, c: char): nat {
    if |s| == 0 then 0
    else Count(s[..|s| - 1], c) + (if s[|s| - 1] == c then 1 else 0)
  }

  lemma {:induction false} CountAppend(s: string, t: string, c: char)
    ensures Count(s + t, c) == Count(s, c) + Count(t, c)
    decreases |t|
  {
    if |t| == 0 {
      assert s + t == s;
    } else {
      assert (s + t)[..|s + t| - 1] == s + t[..|t| - 1];
      CountAppend(s, t[..|t| - 1], c);
    }
  }

  lemma {:induction false} CountAbsent(s: string, c: char)
    requires c !in s
    ensures Count(s, c) == 0
    decreases |s|
  {
    if |s| > 0 {
      CountAbsent(s[..|s| - 1], c);
    }
  }

  /** Joining separator-free fields puts exactly one separator between neighbours. */
  lemma {:induction false} JoinCount(fields: seq<string>, sep: char)
    requires |fields| >= 1
    requires forall i :: 0 <= i < |fields| ==> sep !in fields[i]
    ensures Count(Join(fields, sep), sep) == |fields| - 1
    decreases |fields|
  {
    var last := fields[|fields| - 1];
    CountAbsent(last, sep);
    if |fields| > 1 {
      var init := fields[..|fields| - 1];
      JoinCount(init, sep);
      CountAppend(Join(init, sep), [sep], sep);
      CountAppend(Join(init, sep) + [sep], last, sep);
    }
  }

  // ---------------------------------------------------------------------------
  // Decimal digits

  predicate IsDigit(c: char) {
    '0' <= c <= '9'
  }

  predicate AllDigits(s: string) {
    forall i :: 0 <= i < |s| ==> IsDigit(s[i])
  }

  function DigitValue(c: char): nat
    requires IsDigit(c)
  {
    c as int - '0' as int
  }

  function DigitChar(d: nat): (c: char)
    requires d < 10
    ensures IsDigit(c) && DigitValue(c) == d
  {
    (d + '0' as int) as char
  }

  /** The value of a string of decimal digits, most significant first. */
  function DigitsValue(s: string): nat
    requires AllDigits(s)
  {
    if |s| == 0 then 0 else DigitsValue(s[..|s| - 1]) * 10 + DigitValue(s[|s| - 1])
  }

  /**
   * `n.to_string()`: the decimal digits of `n` without leading zeros; their
   * value is `n` again.
   */
  function ToDecimal(n: nat): (s: string)
    ensures |s| >= 1 && AllDigits(s)
    ensures |s| > 1 ==> s[0] != '0'
    ensures DigitsValue(s) == n
  {
    if n < 10 then [DigitChar(n)]
    else
      var s := ToDecimal(n / 10) + [DigitChar(n % 10)];
      assert s[..|s| - 1] == ToDecimal(n / 10);
      s
  }

  // ---------------------------------------------------------------------------
  // Parsing unsigned integers

  /** The text after an optional leading '+'. */
  function Magnitude(s: string): string {
    if |s| >= 1 && s[0] == '+' then s[1..] else s
  }

  /**
   * `from_str` for an unsigned type whose values are below `bound`: an optional
   * '+' then one or more ASCII digits (leading zeros allowed) whose value fits.
   * Anything else fails: the empty string, a lone '+', a '-', whitespace, any
   * other character, and a value that overflows. Rust checks overflow digit by
   * digit; as every prefix of a digit string has a value no larger than the
   * whole, that is the same as checking the final value.
   */
  function ParseUnsigned(s: string, bound: nat): (r: Option<nat>)
    ensures r.Some? ==> r.value < bound
  {
    var m := Magnitude(s);
    if |m| >= 1 && AllDigits(m) && DigitsValue(m) < bound then Some(DigitsValue(m)) else None
  }

  /**
   * Only an optional '+' followed by one or more digits parses, and the
   * result is the value of those digits.
   */
  lemma ParseUnsignedShape(s: string, bound: nat)
    ensures ParseUnsigned(s, bound).Some? ==>
              |s| >= 1 && (IsDigit(s[0]) || (s[0] == '+' && |s| >= 2)) && (forall i :: 0 < i < |s| ==> IsDigit(s[i]))
              && ParseUnsigned(s, bound).value == DigitsValue(Magnitude(s))
  {
    if ParseUnsigned(s, bound).Some? && s[0] == '+' {
      assert forall i :: 0 < i < |s| ==> s[i] == Magnitude(s)[i - 1];
    }
  }

  /**
   * Every optional '+' followed by one or more digits parses to the value of
   * the digits (leading zeros included) when it fits, and fails when it
   * overflows.
   */
  lemma ParseSignedDigits(sign: string, digits: string, bound: nat)
    requires sign == "" || sign == "+"
    requires |digits| >= 1 && AllDigits(digits)
    ensures ParseUnsigned(sign + digits, bound)
            == if DigitsValue(digits) < bound then Some(DigitsValue(digits)) else None
  {
    assert IsDigit(digits[0]);
    assert Magnitude(sign + digits) == digits;
  }

  /** Parsing the decimal form of a value that fits gives the value back. */
  lemma ParseToDecimal(n: nat, bound: nat)
    requires n < bound
    ensures ParseUnsigned(ToDecimal(n), bound) == Some(n)
  {
    var s := ToDecimal(n);
    assert IsDigit(s[0]);
    assert Magnitude(s) == s;
  }

  // ---------------------------------------------------------------------------
  // Trimming

  /** Rust's `char::is_whitespace`: the Unicode White_Space property. */
  predicate IsWhitespace(c: char) {
    ('\t' <= c <= '\r') || c == ' ' || c == '\U{85}' || c == '\U{A0}' || c == '\U{1680}'
    || ('\U{2000}' <= c <= '\U{200A}') || c == '\U{2028}' || c == '\U{2029}' || c == '\U{202F}'
    || c == '\U{205F}' || c == '\U{3000}'
  }

  /** The length of the whitespace run that starts `s`. */
  function LeadingWhitespace(s: string): (n: nat)
    ensures n <= |s|
  {
    if |s| == 0 || !IsWhitespace(s[0]) then 0 else 1 + LeadingWhitespace(s[1..])
  }

  /** The leading run is all whitespace and stops at the first character that is not. */
  lemma {:induction false} LeadingWhitespaceSpec(s: string)
    ensures forall k :: 0 <= k < LeadingWhitespace(s) ==> IsWhitespace(s[k])
    ensures LeadingWhitespace(s) < |s| ==> !IsWhitespace(s[LeadingWhitespace(s)])
  {
    if |s| > 0 && IsWhitespace(s[0]) {
      LeadingWhitespaceSpec(s[1..]);
      assert forall k :: 1 <= k < |s| ==> s[k] == s[1..][k - 1];
    }
  }

  /** The length of the whitespace run that ends `s`. */
  function TrailingWhitespace(s: string): (n: nat)
    ensures n <= |s|
  {
    if |s| == 0 || !IsWhitespace(s[|s| - 1]) then 0 else 1 + TrailingWhitespace(s[..|s| - 1])
  }

  /** The trailing run is all whitespace and starts after the last character that is not. */
  lemma {:induction false} TrailingWhitespaceSpec(s: string)
    ensures forall k :: |s| - TrailingWhitespace(s) <= k < |s| ==> IsWhitespace(s[k])
    ensures TrailingWhitespace(s) < |s| ==> !IsWhitespace(s[|s| - TrailingWhitespace(s) - 1])
  {
    if |s| > 0 && IsWhitespace(s[|s| - 1]) {
      TrailingWhitespaceSpec(s[..|s| - 1]);
    }
  }

  predicate AllWhitespace(s: string) {
    forall k :: 0 <= k < |s| ==> IsWhitespace(s[k])
  }

  /** `s.trim()`: `s` without its leading and trailing whitespace. */
  function Trim(s: string): string {
    var rest := s[LeadingWhitespace(s)..];
    rest[..|rest| - TrailingWhitespace(rest)]
  }

  /** `t` occurs in `s` at `i` with only whitespace before and after it. */
  ghost predicate PaddedAt(s: string, t: string, i: nat) {
    i + |t| <= |s| && s[i..i + |t|] == t && AllWhitespace(s[..i]) && AllWhitespace(s[i + |t|..])
  }

  /**
   * What `Trim` leaves sits between two whitespace runs of `s`, neither
   * starts nor ends with whitespace, and is empty only when `s` is all
   * whitespace.
   */
  lemma TrimSpec(s: string)
    ensures exists i :: PaddedAt(s, Trim(s), i)
    ensures |Trim(s)| > 0 ==> !IsWhitespace(Trim(s)[0]) && !IsWhitespace(Trim(s)[|Trim(s)| - 1])
    ensures |Trim(s)| == 0 <==> AllWhitespace(s)
  {
    var i := LeadingWhitespace(s);
    var rest := s[i..];
    var j := TrailingWhitespace(rest);
    LeadingWhitespaceSpec(s);
    TrailingWhitespaceSpec(rest);
    var t := rest[..|rest| - j];
    assert t == Trim(s);
    assert AllWhitespace(s[i + |t|..]) by {
      forall k | i + |t| <= k < |s|
        ensures IsWhitespace(s[k])
      {
        assert s[k] == rest[k - i];
      }
    }
    assert PaddedAt(s, t, i);
    if |t| > 0 {
      assert t[0] == s[i] && t[|t| - 1] == rest[|rest| - j - 1];
      assert !AllWhitespace(s) by {
        assert !IsWhitespace(s[i]);
      }
    } else {
      assert AllWhitespace(s);
    }
  }
}
