/** The JavaScript string operations both adapters rely on:
    String.prototype.trim, and the toString of numbers and booleans. */
module JsText {

  /** A WhiteSpace or LineTerminator code point of ECMAScript: exactly the
      characters String.prototype.trim removes. */
  predicate IsJsWhitespace(c: char)
  {
    || c == '\t' || c == '\n' || c == '\U{000B}' || c == '\U{000C}' || c == '\r' || c == ' '
    || c == '\U{00A0}' || c == '\U{1680}' || ('\U{2000}' <= c <= '\U{200A}')
    || c == '\U{2028}' || c == '\U{2029}' || c == '\U{202F}' || c == '\U{205F}'
    || c == '\U{3000}' || c == '\U{FEFF}'
  }

  predicate AllWhitespace(s: string)
  {
    forall i | 0 <= i < |s| :: IsJsWhitespace(s[i])
  }

  /** Neither end of the string is whitespace. */
  predicate Trimmed(s: string)
  {
    s == [] || (!IsJsWhitespace(s[0]) && !IsJsWhitespace(s[|s| - 1]))
  }

  /** How many whitespace characters `s` starts with. */
  function LeadingCount(s: string): (n: nat)
    ensures n <= |s|
    ensures forall i | 0 <= i < n :: IsJsWhitespace(s[i])
    ensures n < |s| ==> !IsJsWhitespace(s[n])
  {
    if s != [] && IsJsWhitespace(s[0]) then 1 + LeadingCount(s[1..]) else 0
  }

  /** How many whitespace characters `s` ends with. */
  function TrailingCount(s: string): (n: nat)
    ensures n <= |s|
    ensures forall i | |s| - n <= i < |s| :: IsJsWhitespace(s[i])
    ensures n < |s| ==> !IsJsWhitespace(s[|s| - n - 1])
  {
    if s != [] && IsJsWhitespace(s[|s| - 1]) then 1 + TrailingCount(s[..|s| - 1]) else 0
  }

  /** String.prototype.trim: drops the leading whitespace, then the trailing
      whitespace. What is left has no whitespace at either end. */
  function Trim(s: string): (r: string)
    ensures Trimmed(r)
    ensures |r| <= |s|
  {
    var t := s[LeadingCount(s)..];
    t[..|t| - TrailingCount(t)]
  }

  /** The whitespace Trim cuts from the front of `s`. */
  function LeadingSpace(s: string): string
  {
    s[..LeadingCount(s)]
  }

  /** The whitespace Trim cuts from the back of `s`. */
  function TrailingSpace(s: string): string
  {
    var t := s[LeadingCount(s)..];
    t[|t| - TrailingCount(t)..]
  }

  /** Trim removes whitespace and nothing else: the input is the whitespace cut
      from its front, then the trimmed string, then the whitespace cut from its
      back. */
  lemma TrimCutsOnlyWhitespace(s: string)
    ensures s == LeadingSpace(s) + Trim(s) + TrailingSpace(s)
    ensures AllWhitespace(LeadingSpace(s)) && AllWhitespace(TrailingSpace(s))
  {
    var t := s[LeadingCount(s)..];
    SplitThree(s, LeadingCount(s), |t| - TrailingCount(t));
    LeadingSpaceIsWhitespace(s);
    TrailingSpaceIsWhitespace(s);
  }

  lemma LeadingSpaceIsWhitespace(s: string)
    ensures AllWhitespace(LeadingSpace(s))
  {
    var n := LeadingCount(s);
    assert forall i | 0 <= i < n :: s[..n][i] == s[i];
  }

  lemma TrailingSpaceIsWhitespace(s: string)
    ensures AllWhitespace(TrailingSpace(s))
  {
    var t := s[LeadingCount(s)..];
    var k := |t| - TrailingCount(t);
    assert forall i | 0 <= i < |t| - k :: t[k..][i] == t[k + i];
  }

  /** Cutting `s` at `a` and the rest at `k` loses nothing. */
  lemma SplitThree(s: string, a: nat, k: nat)
    requires a <= |s| && k <= |s| - a
    ensures s == s[..a] + s[a..][..k] + s[a..][k..]
  {
    assert s[a..] == s[a..][..k] + s[a..][k..];
    assert s == s[..a] + s[a..];
  }

  lemma {:induction false} LeadingCountOfPadded(a: string, t: string)
    requires AllWhitespace(a)
    requires t == [] || !IsJsWhitespace(t[0])
    ensures LeadingCount(a + t) == |a|
    decreases |a|
  {
    if a != [] {
      assert (a + t)[1..] == a[1..] + t;
      LeadingCountOfPadded(a[1..], t);
    } else {
      assert a + t == t;
    }
  }

  lemma {:induction false} TrailingCountOfPadded(t: string, b: string)
    requires AllWhitespace(b)
    requires t == [] || !IsJsWhitespace(t[|t| - 1])
    ensures TrailingCount(t + b) == |b|
    decreases |b|
  {
    if b != [] {
      assert (t + b)[..|t + b| - 1] == t + b[..|b| - 1];
      TrailingCountOfPadded(t, b[..|b| - 1]);
    } else {
      assert t + b == t;
    }
  }

  /** Trim is determined by its contract: a trimmed string padded with
      whitespace on both sides trims back to itself. */
  lemma {:induction false} TrimOfPadded(a: string, m: string, b: string)
    requires AllWhitespace(a) && AllWhitespace(b) && Trimmed(m)
    ensures Trim(a + m + b) == m
  {
    if m == [] {
      assert a + m + b == (a + b) + [];
      LeadingCountOfPadded(a + b, []);
    } else {
      var s := a + m + b;
      assert s == a + (m + b);
      LeadingCountOfPadded(a, m + b);
      assert s[|a|..] == m + b;
      TrailingCountOfPadded(m, b);
      assert (m + b)[..|m|] == m;
    }
  }

  /** A string with no whitespace at either end is its own trim. */
  lemma {:induction false} TrimOfTrimmed(s: string)
    requires Trimmed(s)
    ensures Trim(s) == s
  {
    assert [] + s + [] == s;
    TrimOfPadded([], s, []);
  }

  /** Trimming twice is trimming once. */
  lemma {:induction false} TrimIdempotent(s: string)
    ensures Trim(Trim(s)) == Trim(s)
  {
    TrimOfTrimmed(Trim(s));
  }

  function DigitChar(d: nat): (c: char)
    requires d < 10
    ensures '0' <= c <= '9' && c as int - '0' as int == d
  {
    (d + '0' as int) as char
  }

  /** The decimal digits of a natural number, without leading zeros. */
  function NatToDecimal(n: nat): (r: string)
    ensures |r| >= 1
    ensures forall i | 0 <= i < |r| :: '0' <= r[i] <= '9'
    ensures r[0] == '0' ==> r == "0"
    decreases n
  {
    if n < 10 then [DigitChar(n)] else NatToDecimal(n / 10) + [DigitChar(n % 10)]
  }

  /** Number.prototype.toString for an integer: an optional '-' and its digits. */
  function NumberToString(n: int): (r: string)
    ensures Trimmed(r)
  {
    var digits := NatToDecimal(if n < 0 then -n else n);
    assert !IsJsWhitespace(digits[0]) && !IsJsWhitespace(digits[|digits| - 1]);
    if n < 0 then "-" + digits else digits
  }

  /** Boolean.prototype.toString. */
  function BooleanToString(b: bool): (r: string)
    ensures Trimmed(r)
  {
    if b then "true" else "false"
  }

  /** The value of a string of decimal digits, read left to right. */
  function DecimalValue(s: string): nat
  {
    if s == [] then 0
    else
      var d := s[|s| - 1] as int - '0' as int;
      10 * DecimalValue(s[..|s| - 1]) + (if 0 <= d then d else 0)
  }

  /** Reading an integer's text back: an optional '-' then its digits. */
  function ParseInteger(s: string): int
  {
    if s != [] && s[0] == '-' then 0 - DecimalValue(s[1..]) as int else DecimalValue(s)
  }

  lemma {:induction false} NatToDecimalRoundTrip(n: nat)
    ensures DecimalValue(NatToDecimal(n)) == n
    decreases n
  {
    if n >= 10 {
      var prefix := NatToDecimal(n / 10);
      var r := prefix + [DigitChar(n % 10)];
      assert r[..|r| - 1] == prefix;
      NatToDecimalRoundTrip(n / 10);
    } else {
      assert NatToDecimal(n)[..0] == [];
    }
  }

  /** The text Number.prototype.toString gives an integer reads back as that integer. */
  lemma {:induction false} NumberToStringRoundTrip(n: int)
    ensures ParseInteger(NumberToString(n)) == n
  {
    var digits := NatToDecimal(if n < 0 then -n else n);
    NatToDecimalRoundTrip(if n < 0 then -n else n);
    if n < 0 {
      assert ("-" + digits)[1..] == digits;
    }
  }
}
