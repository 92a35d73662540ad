/** Python's `int(s)` for a `str` argument in base 10: whitespace at the ends
    is skipped (all of it but U+001C to U+001F), then an optional sign, then
    decimal digits in groups that a single underscore may separate
    (`"1_000"`). Anything else raises `ValueError`,
    modelled here as `None`. */
module PyInt {
  import opened Wrappers
  import opened Text

  predicate IsDigit(c: char) {
    '0' <= c <= '9'
  }

  function DigitValue(c: char): (d: nat)
    requires IsDigit(c)
    ensures d < 10
  {
    c as int - '0' as int
  }

  function DigitChar(d: nat): (c: char)
    requires d < 10
    ensures IsDigit(c) && DigitValue(c) == d
  {
    ('0' as int + d) as char
  }

  /** The body of a decimal literal: `digit (["_"] digit)*`, read from the right. */
  predicate IsLiteralBody(s: string)
    decreases |s|
  {
    && |s| > 0
    && IsDigit(s[|s| - 1])
    && (|s| == 1
        || (if s[|s| - 2] == '_' then |s| > 2 && IsLiteralBody(s[..|s| - 2])
            else IsLiteralBody(s[..|s| - 1])))
  }

  /** The number a literal body denotes; the underscores carry no value. */
  function BodyValue(s: string): nat
    requires IsLiteralBody(s)
    decreases |s|
  {
    var d := DigitValue(s[|s| - 1]);
    if |s| == 1 then d
    else if s[|s| - 2] == '_' then 10 * BodyValue(s[..|s| - 2]) + d
    else 10 * BodyValue(s[..|s| - 1]) + d
  }

  /** A whitespace-free integer literal with an optional `+` or `-` sign. */
  function ParseLiteral(t: string): Option<int> {
    if |t| > 0 && (t[0] == '+' || t[0] == '-') then
      if IsLiteralBody(t[1..]) then
        var v: int := BodyValue(t[1..]);
        Some(if t[0] == '-' then -v else v)
      else None
    else if IsLiteralBody(t) then Some(BodyValue(t))
    else None
  }

  predicate IsSeparator(c: char) {
    '\U{1c}' <= c <= '\U{1f}'
  }

  /** A character `int()` skips at the margins. Characters below U+007F reach
      the C parser unchanged, and it skips only the space and `\t` to `\r`;
      whitespace from U+0080 up is first turned into a space. So every
      `isspace()` character is skipped except the separators U+001C to U+001F. */
  predicate IsMargin(c: char) {
    IsSpace(c) && !IsSeparator(c)
  }

  function TrimLeft(s: string): (r: string)
    ensures |r| <= |s| && r == s[|s| - |r|..]
    ensures r == [] || !IsMargin(r[0])
  {
    if s != [] && IsMargin(s[0]) then TrimLeft(s[1..]) else s
  }

  function TrimRight(s: string): (r: string)
    ensures r <= s
    ensures r == [] || !IsMargin(r[|r| - 1])
  {
    if s != [] && IsMargin(s[|s| - 1]) then TrimRight(s[..|s| - 1]) else s
  }

  /** The margin characters `int()` ignores, removed from both ends. */
  function Trim(s: string): (r: string)
    ensures r == [] || (!IsMargin(r[0]) && !IsMargin(r[|r| - 1]))
  {
    var left := TrimLeft(s);
    var r := TrimRight(left);
    assert r == [] || r[0] == left[0];
    r
  }

  /** `int(s)`: `Some(n)` where Python returns `n`, `None` where it raises
      `ValueError`. A string without whitespace at its ends is read as a
      literal as it stands. */
  function ParseInt(s: string): (r: Option<int>)
    ensures s == [] || (!IsSpace(s[0]) && !IsSpace(s[|s| - 1])) ==> r == ParseLiteral(s)
  {
    ParseLiteral(Trim(s))
  }

  /** A literal, with or without its sign, begins with a digit or a sign. */
  lemma LiteralStart(t: string)
    ensures ParseLiteral(t).Some? ==> t != [] && (IsDigit(t[0]) || t[0] == '+' || t[0] == '-')
  {
    if t != [] && !(t[0] == '+' || t[0] == '-') && IsLiteralBody(t) {
      LiteralBodyStart(t);
    }
  }

  /** `int()` does not skip a leading separator U+001C to U+001F, although
      `str.strip()` does: `int("\x1c4")` raises, and so does `int("\x1c4\xa0")`. */
  lemma SeparatorMarginRejected(s: string)
    requires s != [] && IsSeparator(s[0])
    ensures Strip([s[0]]) == []
    ensures ParseInt(s).None?
  {
    SeparatorStripped(s[0]);
    TrimKeepsStart(s);
    LiteralStart(Trim(s));
  }

  /** `str.strip()` removes each of U+001C to U+001F. */
  lemma SeparatorStripped(c: char)
    requires IsSeparator(c)
    ensures Strip([c]) == []
  {
    assert StripLeft([c]) == StripLeft([]);
  }

  /** Trimming keeps a first character that is no margin. */
  lemma TrimKeepsStart(s: string)
    requires s != [] && !IsMargin(s[0])
    ensures Trim(s) == [] || Trim(s)[0] == s[0]
  {
    assert TrimLeft(s) == s;
  }

  lemma {:induction false} TrimLeftNoSeparator(s: string)
    requires forall i :: 0 <= i < |s| ==> !IsSeparator(s[i])
    ensures TrimLeft(s) == StripLeft(s)
    decreases |s|
  {
    if s != [] && IsSpace(s[0]) {
      TrimLeftNoSeparator(s[1..]);
    }
  }

  lemma {:induction false} TrimRightNoSeparator(s: string)
    requires forall i :: 0 <= i < |s| ==> !IsSeparator(s[i])
    ensures TrimRight(s) == StripRight(s)
    decreases |s|
  {
    if s != [] && IsSpace(s[|s| - 1]) {
      TrimRightNoSeparator(s[..|s| - 1]);
    }
  }

  lemma NoSeparatorInSuffix(s: string, k: nat)
    requires forall i :: 0 <= i < |s| ==> !IsSeparator(s[i])
    requires k <= |s|
    ensures forall i :: 0 <= i < |s[k..]| ==> !IsSeparator(s[k..][i])
  {
    forall i | 0 <= i < |s[k..]|
      ensures !IsSeparator(s[k..][i])
    {
      assert s[k..][i] == s[k + i];
    }
  }

  /** Without the separators U+001C to U+001F, `int()` skips exactly the
      whitespace `str.strip()` removes. */
  lemma MarginsAgreeWithStrip(s: string)
    requires forall i :: 0 <= i < |s| ==> !IsSeparator(s[i])
    ensures ParseInt(s) == ParseLiteral(Strip(s))
  {
    TrimLeftNoSeparator(s);
    StripLeftIsSuffix(s);
    NoSeparatorInSuffix(s, |s| - |StripLeft(s)|);
    TrimRightNoSeparator(StripLeft(s));
  }

  /** The canonical decimal spelling of a natural number, as `str(n)` gives it. */
  function NatToString(n: nat): (s: string)
    ensures |s| > 0
    ensures forall i :: 0 <= i < |s| ==> IsDigit(s[i])
  {
    if n < 10 then [DigitChar(n)] else NatToString(n / 10) + [DigitChar(n % 10)]
  }

  /** `str(n)` for an integer. */
  function IntToString(n: int): (s: string)
    ensures |s| > 0 && !IsSpace(s[0]) && !IsSpace(s[|s| - 1])
    ensures forall i :: 0 <= i < |s| ==> IsDigit(s[i]) || (i == 0 && s[i] == '-')
  {
    if n < 0 then "-" + NatToString(-n) else NatToString(n)
  }

  /** `str(n)` is read back by the literal grammar as `n`. */
  lemma {:induction false} NatToStringIsLiteral(n: nat)
    ensures IsLiteralBody(NatToString(n)) && BodyValue(NatToString(n)) == n
  {
    if n >= 10 {
      NatToStringIsLiteral(n / 10);
      var s := NatToString(n);
      var p := NatToString(n / 10);
      assert s == p + [DigitChar(n % 10)];
      assert s[..|s| - 1] == p;
      assert s[|s| - 2] == p[|p| - 1];
    }
  }

  /** `int(str(n)) == n` for every integer `n`. */
  lemma IntRoundTrip(n: int)
    ensures ParseInt(IntToString(n)) == Some(n)
  {
    LiteralRoundTrip(n);
  }

  /** `str(n)` is a literal that denotes `n`. */
  lemma LiteralRoundTrip(n: int)
    ensures ParseLiteral(IntToString(n)) == Some(n)
  {
    var s := IntToString(n);
    if n < 0 {
      NatToStringIsLiteral(-n);
      assert s[1..] == NatToString(-n);
    } else {
      NatToStringIsLiteral(n);
    }
  }

  /** A literal body begins with a digit. */
  lemma {:induction false} LiteralBodyStart(s: string)
    requires IsLiteralBody(s)
    ensures IsDigit(s[0])
    decreases |s|
  {
    if |s| > 1 {
      var init := if s[|s| - 2] == '_' then s[..|s| - 2] else s[..|s| - 1];
      LiteralBodyStart(init);
      assert init[0] == s[0];
    }
  }
}
