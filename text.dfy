/** The pieces of Go's strings and strconv packages the formula code relies
    on: decimal formatting and parsing of integers, splitting on a separator
    and trimming white space. Strings are sequences of characters. */
module Text {
  import opened Wrappers

  predicate IsDigit(c: char)
  {
    '0' <= c <= '9'
  }

  predicate AllDigits(s: string)
  {
    forall i :: 0 <= i < |s| ==> IsDigit(s[i])
  }

  /** Go's unicode.IsSpace, which strings.TrimSpace uses. */
  predicate IsSpace(c: char)
  {
    c == ' ' || c == '\t' || c == '\n' || c == '\r' || c == '\U{0B}' || c == '\U{0C}'
    || c == '\U{85}' || c == '\U{A0}' || c == '\U{1680}'
    || ('\U{2000}' <= c <= '\U{200A}')
    || c == '\U{2028}' || c == '\U{2029}' || c == '\U{202F}' || c == '\U{205F}' || c == '\U{3000}'
  }

  function DigitChar(d: nat): (c: char)
    requires d < 10
    ensures IsDigit(c)
  {
    ('0' as int + d) as char
  }

  function DigitValue(c: char): nat
    requires IsDigit(c)
  {
    (c as int - '0' as int) as nat
  }

  /** The value of a non-empty run of decimal digits. */
  function DigitsValue(s: string): nat
    requires AllDigits(s)
  {
    if |s| == 0 then 0
    else DigitsValue(s[..|s| - 1]) * 10 + DigitValue(s[|s| - 1])
  }

  /** Decimal digits of n, most significant first, without leading zeros. */
  function NatToString(n: nat): (s: string)
    ensures |s| >= 1 && AllDigits(s)
  {
    if n < 10 then [DigitChar(n)]
    else NatToString(n / 10) + [DigitChar(n % 10)]
  }

  /** strconv.FormatInt(n, 10). */
  function IntToString(n: int): (s: string)
    ensures |s| >= 1
  {
    if n < 0 then "-" + NatToString(-n) else NatToString(n)
  }

  /** strconv.Atoi: an optional sign followed by at least one digit. The
      int64 range check is not modelled. */
  function Atoi(s: string): (r: Option<int>)
  {
    if |s| == 0 then None
    else
      var neg := s[0] == '-';
      var digits := if s[0] == '-' || s[0] == '+' then s[1..] else s;
      if |digits| == 0 || !AllDigits(digits) then None
      else
        var v: int := DigitsValue(digits);
        Some(if neg then -v else v)
  }

  lemma {:induction false} NatToStringRoundTrip(n: nat)
    ensures DigitsValue(NatToString(n)) == n
  {
    var s := NatToString(n);
    if n >= 10 {
      NatToStringRoundTrip(n / 10);
      assert s[..|s| - 1] == NatToString(n / 10);
    }
  }

  /** Parsing what FormatInt prints gives the number back. */
  lemma AtoiOfIntToString(n: int)
    ensures Atoi(IntToString(n)) == Some(n)
  {
    var s := IntToString(n);
    if n < 0 {
      NatToStringRoundTrip(-n);
      assert s[1..] == NatToString(-n);
    } else {
      NatToStringRoundTrip(n);
    }
  }

  /** Formatted integers never contain a slash. */
  lemma NoSlashInIntToString(n: int)
    ensures '/' !in IntToString(n)
  {
    var s := IntToString(n);
    if n < 0 {
      assert s[1..] == NatToString(-n);
      assert forall i :: 1 <= i < |s| ==> IsDigit(s[i]);
    } else {
      assert forall i :: 0 <= i < |s| ==> IsDigit(s[i]);
    }
  }

  /** strings.Split(s, sep) for a one-character separator: the pieces between
      the separators, so there is always at least one piece. */
  function Split(s: string, sep: char): (parts: seq<string>)
    ensures |parts| >= 1
  {
    if |s| == 0 then [""]
    else
      var rest := Split(s[1..], sep);
      if s[0] == sep then [""] + rest
      else [[s[0]] + rest[0]] + rest[1..]
  }

  lemma {:induction false} SplitNoSeparator(s: string, sep: char)
    requires sep !in s
    ensures Split(s, sep) == [s]
  {
    if |s| > 0 {
      SplitNoSeparator(s[1..], sep);
      assert [s[0]] + s[1..] == s;
    }
  }

  lemma {:induction false} SplitAtSeparator(x: string, y: string, sep: char)
    requires sep !in x
    ensures Split(x + [sep] + y, sep) == [x] + Split(y, sep)
  {
    if |x| == 0 {
      assert x + [sep] + y == [sep] + y;
      assert ([sep] + y)[1..] == y;
    } else {
      SplitAtSeparator(x[1..], y, sep);
      assert (x + [sep] + y)[1..] == x[1..] + [sep] + y;
      assert [x[0]] + x[1..] == x;
    }
  }

  /** strings.TrimSpace: drop leading and trailing white space. */
  function TrimSpace(s: string): (t: string)
    ensures |t| <= |s|
  {
    TrimRight(TrimLeft(s))
  }

  /** What TrimSpace keeps: the part of s after its k leading white-space
      characters, with only white space after it, neither starting nor
      ending with white space. */
  lemma TrimSpaceMeans(s: string)
    ensures TrimmedFrom(s, TrimSpace(s), |s| - |TrimLeft(s)|)
  {
    TrimmedPart(s, TrimLeft(s), TrimSpace(s));
  }

  /** t is the part of s from k on, only white space lies outside it, and
      it neither starts nor ends with white space. */
  predicate TrimmedFrom(s: string, t: string, k: int)
  {
    0 <= k && k + |t| <= |s| && t == s[k..k + |t|]
    && (forall i :: 0 <= i < k ==> IsSpace(s[i]))
    && (forall i :: k + |t| <= i < |s| ==> IsSpace(s[i]))
    && (|t| > 0 ==> !IsSpace(t[0]) && !IsSpace(t[|t| - 1]))
  }

  /** The prefix t of the suffix l of s, each cut at white space, is the
      trimmed part of s. */
  lemma {:induction false} TrimmedPart(s: string, l: string, t: string)
    requires |l| <= |s| && l == s[|s| - |l|..] && |t| <= |l| && t == l[..|t|]
    requires forall i :: 0 <= i < |s| - |l| ==> IsSpace(s[i])
    requires forall i :: |t| <= i < |l| ==> IsSpace(l[i])
    requires |l| > 0 ==> !IsSpace(l[0])
    requires |t| > 0 ==> !IsSpace(t[|t| - 1])
    ensures TrimmedFrom(s, t, |s| - |l|)
  {
    var k := |s| - |l|;
    forall i | k + |t| <= i < |s|
      ensures IsSpace(s[i])
    {
      assert s[i] == l[i - k];
    }
  }

  /** There is only one way to trim a string: any two trimmed parts of s
      are equal, and a non-empty one starts at the same place. */
  lemma TrimmedUnique(s: string, t: string, k: int, u: string, j: int)
    requires TrimmedFrom(s, t, k) && TrimmedFrom(s, u, j)
    ensures t == u && (|t| > 0 ==> k == j)
  {
    if |t| > 0 {
      assert s[k] == t[0] && s[k + |t| - 1] == t[|t| - 1];
    }
    if |u| > 0 {
      assert s[j] == u[0] && s[j + |u| - 1] == u[|u| - 1];
    }
  }

  /** The leading white space removed: a suffix of s, preceded by white
      space only, that does not start with white space. */
  function TrimLeft(s: string): (t: string)
    ensures |t| <= |s|
    ensures t == s[|s| - |t|..]
    ensures forall i :: 0 <= i < |s| - |t| ==> IsSpace(s[i])
    ensures |t| > 0 ==> !IsSpace(t[0])
  {
    if |s| > 0 && IsSpace(s[0]) then TrimLeft(s[1..]) else s
  }

  /** The trailing white space removed: a prefix of s, followed by white
      space only, that does not end with white space. */
  function TrimRight(s: string): (t: string)
    ensures |t| <= |s|
    ensures t == s[..|t|]
    ensures forall i :: |t| <= i < |s| ==> IsSpace(s[i])
    ensures |t| > 0 ==> !IsSpace(t[|t| - 1])
  {
    if |s| > 0 && IsSpace(s[|s| - 1]) then TrimRight(s[..|s| - 1]) else s
  }

  /** A string that neither starts nor ends with white space is trimmed
      already. */
  lemma TrimSpaceOfTrimmed(s: string)
    requires |s| > 0 ==> !IsSpace(s[0]) && !IsSpace(s[|s| - 1])
    ensures TrimSpace(s) == s
  {
  }

  /** A leading white-space character does not change the trimmed result. */
  lemma TrimSpaceOfPadded(s: string)
    requires |s| > 0 && IsSpace(s[0])
    ensures TrimSpace(s) == TrimSpace(s[1..])
  {
  }

  /** Nor does a trailing one. */
  lemma TrimSpaceOfPaddedBack(s: string)
    requires |s| > 0 && IsSpace(s[|s| - 1])
    ensures TrimSpace(s) == TrimSpace(s[..|s| - 1])
  {
    var p := s[..|s| - 1];
    var t, k := TrimSpace(p), |p| - |TrimLeft(p)|;
    TrimSpaceMeans(p);
    TrimSpaceMeans(s);
    PaddedBack(s, p, t, k);
    TrimmedUnique(s, TrimSpace(s), |s| - |TrimLeft(s)|, t, k);
  }

  lemma PaddedBack(s: string, p: string, t: string, k: int)
    requires |s| > 0 && IsSpace(s[|s| - 1]) && p == s[..|s| - 1] && TrimmedFrom(p, t, k)
    ensures TrimmedFrom(s, t, k)
  {
    assert forall i :: 0 <= i < |p| ==> s[i] == p[i];
  }
}
