/**
 * Character classes and the PHP string primitives the panel relies on:
 * trim(), explode(), preg_replace('/\D+/', ''), the `(int)` cast restricted
 * to digit strings, and the `%d` / `%02d` conversions of sprintf.
 */
module Text {

  /** An ASCII decimal digit; everything else is PCRE's `\D`. */
  predicate IsDigit(c: char)
  {
    '0' <= c <= '9'
  }

  predicate AllDigits(s: string)
  {
    forall i :: 0 <= i < |s| ==> IsDigit(s[i])
  }

  /** A non-empty run of digits: the only strings the model treats as numeric. */
  predicate IsDigits(s: string)
  {
    |s| > 0 && AllDigits(s)
  }

  /** PCRE's `\s` without the u flag: space, TAB, LF, VT, FF and CR. */
  predicate IsRegexSpace(c: char)
  {
    c == ' ' || '\t' <= c <= '\r'
  }

  /** The characters PHP's trim() removes by default: space, TAB, LF, CR, NUL and VT. */
  predicate IsTrimChar(c: char)
  {
    c == ' ' || c == '\t' || c == '\n' || c == '\r' || c == '\0' || c == '\U{000B}'
  }

  /** No trim() character at either end. */
  predicate IsTrimmed(s: string)
  {
    s == [] || (!IsTrimChar(s[0]) && !IsTrimChar(s[|s| - 1]))
  }

  // ---------------------------------------------------------------------
  // trim()
  // ---------------------------------------------------------------------

  /** The first index at or after `i` that does not hold a trim() character. */
  function SkipTrimChars(s: string, i: nat): (j: nat)
    requires i <= |s|
    ensures i <= j <= |s|
    ensures forall k :: i <= k < j ==> IsTrimChar(s[k])
    ensures j == |s| || !IsTrimChar(s[j])
    decreases |s| - i
  {
    if i < |s| && IsTrimChar(s[i]) then SkipTrimChars(s, i + 1) else i
  }

  /** The end of `s[lo..j]` once trailing trim() characters are dropped. */
  function BackTrimChars(s: string, lo: nat, j: nat): (k: nat)
    requires lo <= j <= |s|
    ensures lo <= k <= j
    ensures forall m :: k <= m < j ==> IsTrimChar(s[m])
    ensures k == lo || !IsTrimChar(s[k - 1])
    decreases j
  {
    if lo < j && IsTrimChar(s[j - 1]) then BackTrimChars(s, lo, j - 1) else j
  }

  /** `r` sits at offset `i` of `s` and only trim() characters surround it. */
  predicate TrimsTo(s: string, i: nat, r: string)
  {
    && i + |r| <= |s|
    && r == s[i..i + |r|]
    && (forall j :: 0 <= j < i ==> IsTrimChar(s[j]))
    && (forall j :: i + |r| <= j < |s| ==> IsTrimChar(s[j]))
  }

  /**
   * trim($s): the infix of `s` left after removing trim() characters from
   * both ends; everything removed is a trim() character and what is left
   * starts and ends with something else.
   */
  function Trim(s: string): (r: string)
    ensures IsTrimmed(r)
    ensures exists i :: TrimsTo(s, i, r)
    ensures multiset(r) <= multiset(s)
  {
    var lo := SkipTrimChars(s, 0);
    var hi := BackTrimChars(s, lo, |s|);
    InfixMultiset(s, lo, hi);
    assert TrimsTo(s, lo, s[lo..hi]);
    s[lo..hi]
  }

  /** trim() leaves a trimmed string as it is. */
  lemma TrimmedIsFixed(s: string)
    requires IsTrimmed(s)
    ensures Trim(s) == s
  {
    if |s| > 0 {
      assert SkipTrimChars(s, 0) == 0;
      assert BackTrimChars(s, 0, |s|) == |s|;
    }
  }

  lemma InfixMultiset(s: string, i: nat, k: nat)
    requires i <= k <= |s|
    ensures multiset(s[i..k]) <= multiset(s)
  {
    assert s == s[..i] + s[i..k] + s[k..];
  }

  // ---------------------------------------------------------------------
  // preg_replace('/\D+/', '', $s)
  // ---------------------------------------------------------------------

  /** Deletes every non-digit, keeping the digits in their order. */
  function StripNonDigits(s: string): (r: string)
    ensures AllDigits(r)
    ensures |r| <= |s|
    ensures AllDigits(s) ==> r == s
  {
    if |s| == 0 then []
    else if IsDigit(s[0]) then [s[0]] + StripNonDigits(s[1..])
    else StripNonDigits(s[1..])
  }

  /** Every digit of `s` survives, as often as it occurs, and nothing else does. */
  lemma {:induction false} StripNonDigitsKeepsDigits(s: string)
    ensures forall c :: c in multiset(StripNonDigits(s)) ==> IsDigit(c)
    ensures forall c :: IsDigit(c) ==> multiset(StripNonDigits(s))[c] == multiset(s)[c]
    decreases |s|
  {
    if |s| > 0 {
      StripNonDigitsKeepsDigits(s[1..]);
      assert s == [s[0]] + s[1..];
    }
  }

  /** Deleting non-digits distributes over concatenation, so the digits keep their order. */
  lemma {:induction false} StripNonDigitsConcat(a: string, b: string)
    ensures StripNonDigits(a + b) == StripNonDigits(a) + StripNonDigits(b)
    decreases |a|
  {
    if |a| > 0 {
      assert (a + b)[1..] == a[1..] + b;
      StripNonDigitsConcat(a[1..], b);
    } else {
      assert a + b == b;
    }
  }

  // ---------------------------------------------------------------------
  // explode() and its inverse implode()
  // ---------------------------------------------------------------------

  /** implode($d, $parts). */
  function Join(parts: seq<string>, d: char): string
    requires |parts| > 0
  {
    if |parts| == 1 then parts[0] else parts[0] + [d] + Join(parts[1..], d)
  }

  /**
   * explode($d, $s): the pieces between occurrences of `d`, empty pieces
   * included, so an empty string gives one empty piece.
   */
  function Split(s: string, d: char): (r: seq<string>)
    ensures |r| > 0
    ensures forall i :: 0 <= i < |r| ==> d !in r[i]
    ensures Join(r, d) == s
  {
    if |s| == 0 then [[]]
    else
      var rest := Split(s[1..], d);
      if s[0] == d then
        assert Join([[]] + rest, d) == [d] + Join(rest, d) by {
          assert ([[]] + rest)[1..] == rest;
        }
        assert s == [d] + s[1..];
        [[]] + rest
      else
        var r := [[s[0]] + rest[0]] + rest[1..];
        assert r[1..] == rest[1..];
        assert s == [s[0]] + s[1..];
        r
  }

  lemma {:induction false} SplitWithoutDelimiter(s: string, d: char)
    requires d !in s
    ensures Split(s, d) == [s]
    decreases |s|
  {
    if |s| > 0 {
      SplitWithoutDelimiter(s[1..], d);
      assert s == [s[0]] + s[1..];
    }
  }

  lemma {:induction false} SplitAtFirstDelimiter(a: string, b: string, d: char)
    requires d !in a
    ensures Split(a + [d] + b, d) == [a] + Split(b, d)
    decreases |a|
  {
    var s := a + [d] + b;
    if |a| == 0 {
      assert s[0] == d && s[1..] == b;
    } else {
      assert s[0] == a[0] && s[1..] == a[1..] + [d] + b;
      SplitAtFirstDelimiter(a[1..], b, d);
      assert [a[0]] + a[1..] == a;
    }
  }

  /** explode() undoes implode() whenever no piece contains the delimiter. */
  lemma {:induction false} SplitJoin(parts: seq<string>, d: char)
    requires |parts| > 0
    requires forall i :: 0 <= i < |parts| ==> d !in parts[i]
    ensures Split(Join(parts, d), d) == parts
    decreases |parts|
  {
    if |parts| == 1 {
      SplitWithoutDelimiter(parts[0], d);
    } else {
      SplitJoin(parts[1..], d);
      SplitAtFirstDelimiter(parts[0], Join(parts[1..], d), d);
      assert [parts[0]] + parts[1..] == parts;
    }
  }

  // ---------------------------------------------------------------------
  // Decimal numbers: `(int)` on digit strings, sprintf("%d") and "%02d"
  // ---------------------------------------------------------------------

  function DigitValue(c: char): (n: nat)
    requires IsDigit(c)
    ensures n < 10
  {
    (c as int) - ('0' as int)
  }

  function DigitChar(n: nat): (c: char)
    requires n < 10
    ensures IsDigit(c) && DigitValue(c) == n
  {
    ('0' as int + n) as char
  }

  /** The decimal value of a digit string; leading zeros do not count. */
  function DigitsValue(s: string): nat
    requires AllDigits(s)
  {
    if |s| == 0 then 0 else DigitsValue(s[..|s| - 1]) * 10 + DigitValue(s[|s| - 1])
  }

  /** The longest prefix of `s` made of digits. */
  function LeadingDigits(s: string): (r: string)
    ensures AllDigits(r)
    ensures |r| <= |s| && r == s[..|r|]
    ensures |r| == |s| || !IsDigit(s[|r|])
  {
    if |s| > 0 && IsDigit(s[0]) then [s[0]] + LeadingDigits(s[1..]) else []
  }

  /**
   * PHP's `(int)$s` restricted to what the model supports: the value of the
   * leading digit run, 0 when there is none.
   */
  function IntOf(s: string): (n: nat)
    ensures AllDigits(s) ==> n == DigitsValue(s)
  {
    var d := LeadingDigits(s);
    assert AllDigits(s) ==> d == s;
    DigitsValue(d)
  }

  /** A digit string without superfluous leading zeros, as `%d` prints it. */
  predicate IsCanonical(s: string)
  {
    IsDigits(s) && (|s| == 1 || s[0] != '0')
  }

  /** sprintf("%d", $n) for a non-negative `n`. */
  function Decimal(n: nat): (s: string)
    ensures IsCanonical(s)
    ensures DigitsValue(s) == n
    ensures |s| == 1 <==> n < 10
    ensures n < 100 ==> |s| <= 2
  {
    if n < 10 then
      [DigitChar(n)]
    else
      var p := Decimal(n / 10);
      var s := p + [DigitChar(n % 10)];
      assert s[..|s| - 1] == p;
      s
  }

  /** sprintf("%02d", $n): at least two digits, zero-padded. */
  function Pad2(n: nat): (s: string)
    ensures IsDigits(s) && |s| >= 2
    ensures DigitsValue(s) == n
    ensures |s| == 2 || IsCanonical(s)
    ensures n < 100 ==> |s| == 2
  {
    if n < 10 then
      var s := ['0', DigitChar(n)];
      assert s[..1] == ['0'];
      assert DigitsValue(s[..1]) == DigitsValue([]) * 10 + 0;
      s
    else
      Decimal(n)
  }

  lemma {:induction false} LeadingDigitBound(s: string)
    requires IsDigits(s)
    ensures DigitsValue(s) >= DigitValue(s[0])
    decreases |s|
  {
    if |s| > 1 {
      var p := s[..|s| - 1];
      assert p[0] == s[0];
      LeadingDigitBound(p);
    } else {
      assert s[..0] == [];
    }
  }

  /** `%d` prints back exactly a canonical digit string from its value. */
  lemma {:induction false} DecimalOfValue(s: string)
    requires IsCanonical(s)
    ensures Decimal(DigitsValue(s)) == s
    decreases |s|
  {
    var n := DigitsValue(s);
    if |s| == 1 {
      assert s[..0] == [];
      assert n == DigitsValue(s[..0]) * 10 + DigitValue(s[0]);
      assert DigitChar(n) == s[0];
    } else {
      var p := s[..|s| - 1];
      assert p[0] == s[0];
      LeadingDigitBound(p);
      DecimalOfValue(p);
      assert n == DigitsValue(p) * 10 + DigitValue(s[|s| - 1]);
      assert n / 10 == DigitsValue(p) && n % 10 == DigitValue(s[|s| - 1]);
      assert DigitChar(n % 10) == s[|s| - 1];
      assert s == p + [s[|s| - 1]];
    }
  }

  /** Distinct canonical digit strings have distinct values. */
  lemma CanonicalValuesDistinct(a: string, b: string)
    requires IsCanonical(a) && IsCanonical(b) && a != b
    ensures DigitsValue(a) != DigitsValue(b)
  {
    DecimalOfValue(a);
    DecimalOfValue(b);
  }
}
