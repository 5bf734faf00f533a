/**
 * The parser of `database show <prefix>` output (db_show_prefix in
 * painel/index.php). A listing has one entry per line, typically
 * `/taxi/present_ts/41 : 1707061234`; each line is matched against
 * `^/\s*<prefix>/([^ ]+)\s*:\s*(.*)$` and the trimmed groups become a
 * key and a value. Lines that do not match are skipped.
 */
module Listing {
  import opened Text
  import opened Options

  datatype Entry = Entry(key: string, value: string)

  /**
   * preg_split("/\r?\n/", $text): the text cut at every LF, with the CR of
   * a CRLF pair going with the delimiter.
   */
  function SplitLines(text: string): (lines: seq<string>)
    ensures |lines| == |Split(text, '\n')|
    ensures forall i :: 0 <= i < |lines| ==> '\n' !in lines[i]
    ensures forall i :: 0 <= i < |lines| ==>
              var piece := Split(text, '\n')[i];
              if i + 1 < |lines| && EndsWithCr(piece) then piece == lines[i] + "\r" else piece == lines[i]
  {
    var pieces := Split(text, '\n');
    seq(|pieces|, i requires 0 <= i < |pieces| =>
      if i + 1 < |pieces| && EndsWithCr(pieces[i])
      then pieces[i][..|pieces[i]| - 1]
      else pieces[i])
  }

  predicate EndsWithCr(s: string)
  {
    |s| > 0 && s[|s| - 1] == '\r'
  }

  /** Every line but the last followed by a CR, as a CRLF text has them. */
  function CrEnded(lines: seq<string>): (r: seq<string>)
    ensures |r| == |lines|
    ensures forall i :: 0 <= i < |lines| - 1 ==> r[i] == lines[i] + "\r"
    ensures |lines| > 0 ==> r[|lines| - 1] == lines[|lines| - 1]
  {
    seq(|lines|, i requires 0 <= i < |lines| => if i + 1 < |lines| then lines[i] + "\r" else lines[i])
  }

  /** Lines joined by LF come back as they were, as long as none but the last ends in CR. */
  lemma SplitLinesOfLf(lines: seq<string>)
    requires |lines| > 0
    requires forall i :: 0 <= i < |lines| ==> '\n' !in lines[i]
    requires forall i :: 0 <= i < |lines| - 1 ==> !EndsWithCr(lines[i])
    ensures SplitLines(Join(lines, '\n')) == lines
  {
    SplitJoin(lines, '\n');
  }

  /** Lines joined by CRLF come back without their CRs. */
  lemma SplitLinesOfCrlf(lines: seq<string>)
    requires |lines| > 0
    requires forall i :: 0 <= i < |lines| ==> '\n' !in lines[i]
    ensures SplitLines(Join(CrEnded(lines), '\n')) == lines
  {
    var pieces := CrEnded(lines);
    forall i | 0 <= i < |pieces|
      ensures '\n' !in pieces[i]
    {
      if i + 1 < |lines| {
        assert pieces[i] == lines[i] + "\r";
      }
    }
    SplitJoin(pieces, '\n');
    var r := SplitLines(Join(pieces, '\n'));
    forall i | 0 <= i < |lines|
      ensures r[i] == lines[i]
    {
      if i + 1 < |lines| {
        assert EndsWithCr(pieces[i]);
      }
    }
  }

  /** The first index at or after `i` that does not hold a `\s` character. */
  function SkipSpaces(s: string, i: nat): (j: nat)
    requires i <= |s|
    ensures i <= j <= |s|
    ensures forall k :: i <= k < j ==> IsRegexSpace(s[k])
    ensures j == |s| || !IsRegexSpace(s[j])
    decreases |s| - i
  {
    if i < |s| && IsRegexSpace(s[i]) then SkipSpaces(s, i + 1) else i
  }

  // ---------------------------------------------------------------------
  // The pattern, stated declaratively
  // ---------------------------------------------------------------------

  /**
   * `([^ ]+)\s*:` matches the start of `s` with a key of `len` characters:
   * the key holds no space, and after optional `\s` characters a colon follows.
   */
  predicate KeyFits(s: string, len: nat)
  {
    && 1 <= len <= |s|
    && ' ' !in s[..len]
    && SkipSpaces(s, len) < |s|
    && s[SkipSpaces(s, len)] == ':'
  }

  /** `^/\s*<prefix>/` matches the start of `line` with `w` spaces after the slash. */
  predicate HeadFits(prefix: string, line: string, w: nat)
  {
    && 2 + w + |prefix| <= |line|
    && line[0] == '/'
    && (forall k :: 1 <= k < 1 + w ==> IsRegexSpace(line[k]))
    && line[1 + w..1 + w + |prefix|] == prefix
    && line[1 + w + |prefix|] == '/'
  }

  /** What follows `/<prefix>/` when `w` spaces follow the leading slash. */
  function Tail(prefix: string, line: string, w: nat): string
    requires 2 + w + |prefix| <= |line|
  {
    line[2 + w + |prefix|..]
  }

  /**
   * The whole pattern matches `line` with `w` spaces after the slash and a
   * key of `len` characters. The final `\s*(.*)$` matches whatever remains
   * of a line that holds no LF, so it adds no condition.
   */
  predicate Shape(prefix: string, line: string, w: nat, len: nat)
  {
    HeadFits(prefix, line, w) && KeyFits(Tail(prefix, line, w), len)
  }

  // ---------------------------------------------------------------------
  // The backtracking search PCRE performs
  // ---------------------------------------------------------------------

  /** Greedy `[^ ]+`: the longest key of at most `len` characters that fits. */
  function LongestKey(s: string, len: nat): (r: nat)
    ensures r <= len
    ensures r > 0 ==> KeyFits(s, r)
    ensures forall n :: r < n <= len ==> !KeyFits(s, n)
    decreases len
  {
    if len == 0 then 0 else if KeyFits(s, len) then len else LongestKey(s, len - 1)
  }

  /** The longest key the pattern admits with `w` spaces after the slash, 0 when there is none. */
  function KeyLenAt(prefix: string, line: string, w: nat): (len: nat)
    ensures len > 0 ==> Shape(prefix, line, w, len)
    ensures forall n: nat :: len < n || len == 0 ==> !Shape(prefix, line, w, n)
  {
    if HeadFits(prefix, line, w) then
      var s := Tail(prefix, line, w);
      LongestKey(s, |s|)
    else 0
  }

  /** Greedy `\s*` after the slash: the widest `w` (at most `w`) that lets the rest match. */
  function TryWidths(prefix: string, line: string, w: nat): (r: Option<(nat, nat)>)
    ensures r.Some? ==> r.value.0 <= w && Shape(prefix, line, r.value.0, r.value.1)
    ensures r.Some? ==> forall w': nat, n: nat :: r.value.0 < w' <= w ==> !Shape(prefix, line, w', n)
    ensures r.Some? ==> forall n: nat :: r.value.1 < n ==> !Shape(prefix, line, r.value.0, n)
    ensures r.None? ==> forall w': nat, n: nat :: w' <= w ==> !Shape(prefix, line, w', n)
    decreases w
  {
    var len := KeyLenAt(prefix, line, w);
    if len > 0 then Some((w, len))
    else if w == 0 then None
    else TryWidths(prefix, line, w - 1)
  }

  /**
   * The match PCRE reports for `line`, as (spaces after the slash, key
   * length): it exists exactly when the pattern can match at all, and it is
   * the one with the most spaces and, for those, the longest key.
   */
  function MatchLine(prefix: string, line: string): (r: Option<(nat, nat)>)
    ensures r.Some? ==> Shape(prefix, line, r.value.0, r.value.1)
    ensures r.Some? ==> forall w: nat, n: nat :: Shape(prefix, line, w, n) ==>
                          w < r.value.0 || (w == r.value.0 && n <= r.value.1)
    ensures r.None? ==> forall w: nat, n: nat :: !Shape(prefix, line, w, n)
  {
    if |line| == 0 then None
    else
      var top := SkipSpaces(line, 1) - 1;
      assert forall w: nat, n: nat :: top < w ==> !Shape(prefix, line, w, n);
      TryWidths(prefix, line, top)
  }

  /**
   * One line of the listing: the trimmed key and value when the pattern
   * matches, nothing otherwise. Lines come from SplitLines and hold no LF.
   */
  function ParseLine(prefix: string, line: string): (r: Option<Entry>)
    ensures r.Some? <==> MatchLine(prefix, line).Some?
    ensures r.Some? ==> ' ' !in r.value.key && IsTrimmed(r.value.key) && IsTrimmed(r.value.value)
  {
    match MatchLine(prefix, line)
    case None => None
    case Some((w, len)) =>
      var s := Tail(prefix, line, w);
      var colon := SkipSpaces(s, len);
      Some(Entry(Trim(s[..len]), Trim(s[SkipSpaces(s, colon + 1)..])))
  }

  /**
   * The line the store prints for key `k` and value `v` under `prefix`, as
   * in `/taxi/present_ts/41 : 1707061234`.
   */
  function Printed(prefix: string, k: string, v: string): string
  {
    "/" + prefix + "/" + k + " : " + v
  }

  /**
   * The conditions under which a printed line parses back to its key and
   * value: a key of at least one character, no space and nothing trim()
   * removes at its ends; a trimmed value; and neither the prefix nor the
   * value starting with a `\s` character the pattern would swallow.
   */
  predicate Printable(prefix: string, k: string, v: string)
  {
    && (|prefix| == 0 || !IsRegexSpace(prefix[0]))
    && |k| > 0 && ' ' !in k && IsTrimmed(k)
    && IsTrimmed(v) && (|v| == 0 || !IsRegexSpace(v[0]))
  }

  /** `/<prefix>/` heads a printed line with no spaces after the slash. */
  lemma PrintedHead(prefix: string, rest: string)
    requires |prefix| == 0 || !IsRegexSpace(prefix[0])
    ensures var line := "/" + prefix + "/" + rest;
      && SkipSpaces(line, 1) == 1
      && HeadFits(prefix, line, 0)
      && Tail(prefix, line, 0) == rest
  {
    var line := "/" + prefix + "/" + rest;
    assert line[1..1 + |prefix|] == prefix;
    assert line[1] == if |prefix| == 0 then '/' else prefix[0];
  }

  /** In `k : v` the longest key that fits is `k` itself. */
  lemma PrintedKey(k: string, v: string)
    requires |k| > 0 && ' ' !in k
    ensures LongestKey(k + " : " + v, |k + " : " + v|) == |k|
  {
    var s := k + " : " + v;
    assert s[..|k|] == k;
    assert s[|k|] == ' ' && s[|k| + 1] == ':';
    assert SkipSpaces(s, |k| + 1) == |k| + 1;
    assert KeyFits(s, |k|);
    forall n | |k| < n <= |s|
      ensures !KeyFits(s, n)
    {
      assert s[..n][|k|] == ' ';
    }
  }

  /** A printed line matches with no spaces after the slash and the whole key. */
  lemma PrintedMatch(prefix: string, k: string, v: string)
    requires |prefix| == 0 || !IsRegexSpace(prefix[0])
    requires |k| > 0 && ' ' !in k
    ensures var m := MatchLine(prefix, Printed(prefix, k, v)); m.Some? && m.value.0 == 0 && m.value.1 == |k|
    ensures Tail(prefix, Printed(prefix, k, v), 0) == k + " : " + v
  {
    var line := Printed(prefix, k, v);
    assert line == "/" + prefix + "/" + (k + " : " + v);
    PrintedHead(prefix, k + " : " + v);
    PrintedKey(k, v);
    assert KeyLenAt(prefix, line, 0) == |k|;
  }

  /** ParseLine reads a printed line back as the key and value it was printed from. */
  lemma ParseLineRoundTrip(prefix: string, k: string, v: string)
    requires Printable(prefix, k, v)
    ensures ParseLine(prefix, Printed(prefix, k, v)) == Some(Entry(k, v))
  {
    PrintedMatch(prefix, k, v);
    PrintedFields(k, v);
  }

  /** In `k : v` the key ends before the space and the value starts after the colon's space. */
  lemma PrintedFields(k: string, v: string)
    requires |k| > 0 && IsTrimmed(k)
    requires IsTrimmed(v) && (|v| == 0 || !IsRegexSpace(v[0]))
    ensures var s := k + " : " + v;
      && SkipSpaces(s, |k|) == |k| + 1
      && Trim(s[..|k|]) == k
      && Trim(s[SkipSpaces(s, |k| + 2)..]) == v
  {
    var s := k + " : " + v;
    assert s[..|k|] == k && s[|k| + 3..] == v;
    assert SkipSpaces(s, |k|) == |k| + 1;
    if |v| > 0 {
      assert s[|k| + 3] == v[0];
    }
    assert SkipSpaces(s, |k| + 2) == |k| + 3;
    TrimmedIsFixed(k);
    TrimmedIsFixed(v);
  }

  /**
   * `\s*` before the value also takes a form feed, which trim() would have
   * kept: a value printed with a leading form feed reads back without it.
   */
  lemma LeadingFormFeedIsLost(prefix: string, k: string, v: string)
    requires Printable(prefix, k, v)
    ensures ParseLine(prefix, Printed(prefix, k, "\U{000C}" + v)) == Some(Entry(k, v))
  {
    PrintedMatch(prefix, k, "\U{000C}" + v);
    FormFeedFields(k, v);
  }

  /** In `k : <FF>v` the value starts after the form feed. */
  lemma FormFeedFields(k: string, v: string)
    requires |k| > 0 && IsTrimmed(k)
    requires IsTrimmed(v) && (|v| == 0 || !IsRegexSpace(v[0]))
    ensures var s := k + " : " + ("\U{000C}" + v);
      && SkipSpaces(s, |k|) == |k| + 1
      && Trim(s[..|k|]) == k
      && Trim(s[SkipSpaces(s, |k| + 2)..]) == v
  {
    var s := k + " : " + ("\U{000C}" + v);
    FormFeedSkip(k, v);
    TrimmedIsFixed(k);
    TrimmedIsFixed(v);
  }

  lemma FormFeedSkip(k: string, v: string)
    requires |v| == 0 || !IsRegexSpace(v[0])
    ensures var s := k + " : " + ("\U{000C}" + v);
      && s[..|k|] == k && s[|k| + 4..] == v
      && SkipSpaces(s, |k|) == |k| + 1
      && SkipSpaces(s, |k| + 2) == |k| + 4
  {
    var s := k + " : " + ("\U{000C}" + v);
    FormFeedLayout(k, v);
    SkipNone(s, |k| + 4);
    assert SkipSpaces(s, |k| + 3) == |k| + 4;
  }

  lemma FormFeedLayout(k: string, v: string)
    ensures var s := k + " : " + ("\U{000C}" + v);
      && |s| == |k| + 4 + |v|
      && s[..|k|] == k && s[|k| + 4..] == v
      && s[|k|] == ' ' && s[|k| + 1] == ':' && s[|k| + 2] == ' ' && s[|k| + 3] == '\U{000C}'
  {
  }

  /** Nothing to skip where the text continues with a value that starts with no `\s`. */
  lemma SkipNone(s: string, j: nat)
    requires j <= |s| && (j == |s| || !IsRegexSpace(s[j]))
    ensures SkipSpaces(s, j) == j
  {
  }

  // ---------------------------------------------------------------------
  // Lines with padding around the colon
  // ---------------------------------------------------------------------

  /** `n` spaces. */
  function Spaces(n: nat): (r: string)
    ensures |r| == n
    ensures forall i :: 0 <= i < n ==> r[i] == ' '
  {
    seq(n, i => ' ')
  }

  /**
   * A line as the store may lay it out: the key followed by `n` spaces, the
   * colon, `m` spaces, the value and `t` trailing spaces.
   */
  function Padded(prefix: string, k: string, n: nat, m: nat, v: string, t: nat): string
  {
    "/" + prefix + "/" + k + Spaces(n) + ":" + Spaces(m) + v + Spaces(t)
  }

  /** A run of spaces is skipped whole. */
  lemma {:induction false} SkipOverSpaces(s: string, j: nat, m: nat)
    requires j + m <= |s|
    requires forall i :: j <= i < j + m ==> s[i] == ' '
    ensures SkipSpaces(s, j) == SkipSpaces(s, j + m)
    decreases m
  {
    if m > 0 {
      assert IsRegexSpace(s[j]);
      SkipOverSpaces(s, j + 1, m - 1);
    }
  }

  /** SkipOverSpaces, for a run given as a slice. */
  lemma SkipSpacesRun(s: string, j: nat, m: nat)
    requires j + m <= |s| && s[j..j + m] == Spaces(m)
    ensures SkipSpaces(s, j) == SkipSpaces(s, j + m)
  {
    forall i | j <= i < j + m
      ensures s[i] == ' '
    {
      assert s[i] == s[j..j + m][i - j];
    }
    SkipOverSpaces(s, j, m);
  }

  /** trim() removes the trailing spaces after a trimmed value. */
  lemma TrimPaddedValue(v: string, t: nat)
    requires IsTrimmed(v)
    ensures Trim(v + Spaces(t)) == v
  {
    var x := v + Spaces(t);
    var r := Trim(x);
    var i: nat :| TrimsTo(x, i, r);
    if |v| > 0 {
      assert x[0] == v[0] && x[|v| - 1] == v[|v| - 1];
      assert r == x[..|v|] == v;
    }
  }

  /** From where a trimmed value starts, the rest of the line trims to it. */
  lemma ValueAt(s: string, p: nat, v: string, t: nat)
    requires p <= |s| && s[p..] == v + Spaces(t)
    requires IsTrimmed(v) && (|v| == 0 || !IsRegexSpace(v[0]))
    ensures Trim(s[SkipSpaces(s, p)..]) == v
  {
    if |v| > 0 {
      assert s[p] == s[p..][0] == v[0];
      SkipNone(s, p);
      TrimPaddedValue(v, t);
    } else {
      forall i | p <= i < p + t
        ensures s[i] == ' '
      {
        assert s[i] == s[p..][i - p];
      }
      SkipOverSpaces(s, p, t);
      SkipNone(s, |s|);
      TrimmedIsFixed([]);
    }
  }

  /** With spaces before the colon, the longest key that fits is still `k`. */
  lemma PaddedKey(k: string, n: nat, after: string)
    requires |k| > 0 && ' ' !in k && n >= 1
    ensures var s := k + Spaces(n) + ":" + after;
      && s[..|k|] == k
      && SkipSpaces(s, |k|) == |k| + n
      && LongestKey(s, |s|) == |k|
  {
    var s := k + Spaces(n) + ":" + after;
    assert s[..|k|] == k;
    assert forall i :: |k| <= i < |k| + n ==> s[i] == ' ';
    assert s[|k| + n] == ':';
    SkipOverSpaces(s, |k|, n);
    SkipNone(s, |k| + n);
    assert KeyFits(s, |k|);
    forall len | |k| < len <= |s|
      ensures !KeyFits(s, len)
    {
      assert s[..len][|k|] == ' ';
    }
  }

  /** After the colon and its spaces, the padded value trims to `v`. */
  lemma PaddedValue(s: string, q: nat, m: nat, v: string, t: nat)
    requires q + m <= |s| && s[q..q + m] == Spaces(m) && s[q + m..] == v + Spaces(t)
    requires IsTrimmed(v) && (|v| == 0 || !IsRegexSpace(v[0]))
    ensures Trim(s[SkipSpaces(s, q)..]) == v
  {
    SkipSpacesRun(s, q, m);
    ValueAt(s, q + m, v, t);
  }

  /** A padded line matches with no spaces after the slash and the whole key. */
  lemma PaddedMatch(prefix: string, k: string, n: nat, m: nat, v: string, t: nat)
    requires |prefix| == 0 || !IsRegexSpace(prefix[0])
    requires |k| > 0 && ' ' !in k && n >= 1
    ensures var line := Padded(prefix, k, n, m, v, t);
      && Tail(prefix, line, 0) == k + Spaces(n) + ":" + (Spaces(m) + v + Spaces(t))
      && var r := MatchLine(prefix, line); r.Some? && r.value.0 == 0 && r.value.1 == |k|
  {
    var after := Spaces(m) + v + Spaces(t);
    var rest := k + Spaces(n) + ":" + after;
    var line := Padded(prefix, k, n, m, v, t);
    assert line == "/" + prefix + "/" + rest;
    PrintedHead(prefix, rest);
    PaddedKey(k, n, after);
    assert KeyLenAt(prefix, line, 0) == |k|;
  }

  /**
   * ParseLine reads a padded line back as its key and value, however many
   * spaces surround the colon and follow the value.
   */
  lemma ParsePaddedLine(prefix: string, k: string, n: nat, m: nat, v: string, t: nat)
    requires Printable(prefix, k, v) && n >= 1
    ensures ParseLine(prefix, Padded(prefix, k, n, m, v, t)) == Some(Entry(k, v))
  {
    PaddedMatch(prefix, k, n, m, v, t);
    var s := Tail(prefix, Padded(prefix, k, n, m, v, t), 0);
    PaddedFields(s, k, n, m, v, t);
  }

  /**
   * In `k<spaces>:<spaces>v<spaces>` the key ends before the spaces and the
   * value, read from past the colon, trims to `v`. The last clause names the
   * position past the colon through `j`, so that it applies however a caller
   * computes that position.
   */
  lemma PaddedFields(s: string, k: string, n: nat, m: nat, v: string, t: nat)
    requires s == k + Spaces(n) + ":" + (Spaces(m) + v + Spaces(t))
    requires |k| > 0 && ' ' !in k && IsTrimmed(k) && n >= 1
    requires IsTrimmed(v) && (|v| == 0 || !IsRegexSpace(v[0]))
    ensures SkipSpaces(s, |k|) == |k| + n
    ensures Trim(s[..|k|]) == k
    ensures forall j :: j == |k| + n + 1 ==> Trim(s[SkipSpaces(s, j)..]) == v
  {
    var after := Spaces(m) + v + Spaces(t);
    var head := k + Spaces(n) + ":";
    PaddedKeyField(k, n, after);
    PaddedValueField(s, head, m, v, t);
    assert |head| == |k| + n + 1;
  }

  /** In `k<spaces>:<spaces>v<spaces>` the key ends before the spaces. */
  lemma PaddedKeyField(k: string, n: nat, after: string)
    requires |k| > 0 && ' ' !in k && IsTrimmed(k) && n >= 1
    ensures var s := k + Spaces(n) + ":" + after;
      && SkipSpaces(s, |k|) == |k| + n
      && Trim(s[..|k|]) == k
  {
    PaddedKey(k, n, after);
    TrimmedIsFixed(k);
  }

  /** Whatever comes before them, spaces, `v` and spaces trim to `v`. */
  lemma PaddedValueField(s: string, head: string, m: nat, v: string, t: nat)
    requires s == head + (Spaces(m) + v + Spaces(t))
    requires IsTrimmed(v) && (|v| == 0 || !IsRegexSpace(v[0]))
    ensures forall j :: j == |head| ==> Trim(s[SkipSpaces(s, j)..]) == v
  {
    assert s[|head|..|head| + m] == Spaces(m);
    assert s[|head| + m..] == v + Spaces(t);
    PaddedValue(s, |head|, m, v, t);
  }

  /** ParseLine applied to every line, in order. */
  function ParseLines(prefix: string, lines: seq<string>): (entries: seq<Option<Entry>>)
    ensures |entries| == |lines|
    ensures forall i :: 0 <= i < |lines| ==> entries[i] == ParseLine(prefix, lines[i])
  {
    seq(|lines|, i requires 0 <= i < |lines| => ParseLine(prefix, lines[i]))
  }

  /** Entry `i` exists and has key `k`. */
  predicate KeyAt(entries: seq<Option<Entry>>, i: int, k: string)
  {
    0 <= i < |entries| && entries[i].Some? && entries[i].value.key == k
  }

  /** Entry `i` is the last entry with key `k`. */
  predicate LastKeyAt(entries: seq<Option<Entry>>, i: int, k: string)
  {
    KeyAt(entries, i, k) && forall j :: i < j < |entries| ==> !KeyAt(entries, j, k)
  }

  /** The foreach loop of db_show_prefix: each matching line stores its entry. */
  function Collect(entries: seq<Option<Entry>>): map<string, string>
    decreases |entries|
  {
    if |entries| == 0 then map[]
    else
      var out := Collect(entries[..|entries| - 1]);
      match entries[|entries| - 1]
      case None => out
      case Some(e) => out[e.key := e.value]
  }

  /**
   * A key is stored exactly when some line yields it, and a later line with
   * the same key overwrites an earlier one: the value is the last line's.
   */
  lemma {:induction false} CollectLastWins(entries: seq<Option<Entry>>)
    ensures forall k :: k in Collect(entries) <==> exists i :: KeyAt(entries, i, k)
    ensures forall i, k :: LastKeyAt(entries, i, k) ==>
              k in Collect(entries) && Collect(entries)[k] == entries[i].value.value
    ensures forall k :: k in Collect(entries) ==> exists i :: LastKeyAt(entries, i, k)
    decreases |entries|
  {
    if |entries| > 0 {
      var init := entries[..|entries| - 1];
      var last := |entries| - 1;
      CollectLastWins(init);
      var out := Collect(init);
      var final := Collect(entries);
      if entries[last].None? {
        assert final == out;
      } else {
        assert final == out[entries[last].value.key := entries[last].value.value];
      }
      assert forall i, k :: 0 <= i < last ==> (KeyAt(init, i, k) <==> KeyAt(entries, i, k));
      forall k
        ensures k in final <==> exists i :: KeyAt(entries, i, k)
      {
        if KeyAt(entries, last, k) {
        } else if k in final {
          var i :| KeyAt(init, i, k);
          assert KeyAt(entries, i, k);
        }
      }
      forall i, k | LastKeyAt(entries, i, k)
        ensures k in final && final[k] == entries[i].value.value
      {
        if i < last {
          assert !KeyAt(entries, last, k);
          assert LastKeyAt(init, i, k);
        }
      }
      forall k | k in final
        ensures exists i :: LastKeyAt(entries, i, k)
      {
        if KeyAt(entries, last, k) {
          assert LastKeyAt(entries, last, k);
        } else {
          var i :| LastKeyAt(init, i, k);
          assert LastKeyAt(entries, i, k);
        }
      }
    }
  }

  /**
   * `out` is what the lines of trim($raw) store under `prefix`: a key is
   * present exactly when some line yields it, and it holds the value of the
   * last such line.
   */
  ghost predicate Stores(prefix: string, raw: string, out: map<string, string>)
  {
    var entries := ParseLines(prefix, SplitLines(Trim(raw)));
    && (forall k :: k in out <==> exists i :: KeyAt(entries, i, k))
    && (forall i, k :: LastKeyAt(entries, i, k) ==> k in out && out[k] == entries[i].value.value)
  }

  /** The keys and values a listing read by db_show_prefix can hold. */
  predicate CleanListing(m: map<string, string>)
  {
    forall k :: k in m ==> ' ' !in k && IsTrimmed(k) && IsTrimmed(m[k])
  }

  /**
   * db_show_prefix($prefix) applied to the text the store printed: a key is
   * stored exactly when some line of trim($raw) yields it, with the value of
   * the last such line. Keys hold no space and, like values, are trimmed; a
   * text of nothing but whitespace gives the empty map.
   */
  function ParseListing(prefix: string, raw: string): (out: map<string, string>)
    ensures Stores(prefix, raw, out)
    ensures CleanListing(out)
    ensures (forall i :: 0 <= i < |raw| ==> IsTrimChar(raw[i])) ==> out == map[]
  {
    var lines := SplitLines(Trim(raw));
    var entries := ParseLines(prefix, lines);
    var out := Collect(entries);
    CollectLastWins(entries);
    forall k | k in out
      ensures ' ' !in k && IsTrimmed(k) && IsTrimmed(out[k])
    {
      var i :| LastKeyAt(entries, i, k);
    }
    assert (forall i :: 0 <= i < |raw| ==> IsTrimChar(raw[i])) ==> out == map[] by {
      if forall i :: 0 <= i < |raw| ==> IsTrimChar(raw[i]) {
        var i: nat :| TrimsTo(raw, i, Trim(raw));
        assert Trim(raw) == [];
        assert Split([], '\n') == [[]];
        assert MatchLine(prefix, []).None?;
        assert entries == [None];
        forall k
          ensures k !in out
        {
          assert !KeyAt(entries, 0, k);
        }
      }
    }
    out
  }

  /** A listing of one printed line is the map of that one entry. */
  lemma ParseListingOfOneLine(prefix: string, k: string, v: string)
    requires Printable(prefix, k, v) && |v| > 0
    requires '\n' !in prefix && '\n' !in k && '\n' !in v
    ensures ParseListing(prefix, Printed(prefix, k, v)) == map[k := v]
  {
    var line := Printed(prefix, k, v);
    PrintedLineIsClean(prefix, k, v);
    ParseLineRoundTrip(prefix, k, v);
    ListingOfOneLine(prefix, line, Entry(k, v));
  }

  /** A printed line holds no LF and nothing trim() would cut. */
  lemma PrintedLineIsClean(prefix: string, k: string, v: string)
    requires |v| > 0 && IsTrimmed(v)
    requires '\n' !in prefix && '\n' !in k && '\n' !in v
    ensures IsTrimmed(Printed(prefix, k, v)) && '\n' !in Printed(prefix, k, v)
  {
    var line := Printed(prefix, k, v);
    var head := "/" + prefix + "/" + k + " : ";
    assert line == head + v;
    assert line[0] == '/' && line[|line| - 1] == v[|v| - 1];
  }

  /** A one-line listing stores the entry of that line. */
  lemma ListingOfOneLine(prefix: string, line: string, e: Entry)
    requires IsTrimmed(line) && '\n' !in line
    requires ParseLine(prefix, line) == Some(e)
    ensures ParseListing(prefix, line) == map[e.key := e.value]
  {
    OneLineSplit(line);
    var entries := ParseLines(prefix, [line]);
    assert entries[0] == Some(e);
    CollectOne(entries);
    assert ParseListing(prefix, line) == Collect(entries);
  }

  /** One line's entry is the whole map. */
  lemma CollectOne(entries: seq<Option<Entry>>)
    requires |entries| == 1 && entries[0].Some?
    ensures Collect(entries) == map[entries[0].value.key := entries[0].value.value]
  {
    assert entries[..0] == [];
  }

  /** trim() and the line split leave a trimmed line without LF whole. */
  lemma OneLineSplit(line: string)
    requires IsTrimmed(line) && '\n' !in line
    ensures SplitLines(Trim(line)) == [line]
  {
    TrimmedIsFixed(line);
    SplitWithoutDelimiter(line, '\n');
  }

  /**
   * `[^ ]+` also takes a TAB, which trim() then removes: a matching line
   * can store its value under the empty key.
   */
  lemma TabKeyIsEmpty()
    ensures ParseLine("taxi/nome", "/taxi/nome/\t:x") == Some(Entry("", "x"))
  {
    var prefix, line := "taxi/nome", "/taxi/nome/\t:x";
    TabLineMatch();
    var s := Tail(prefix, line, 0);
    assert s == "\t:x";
    assert SkipSpaces(s, 1) == 1 && SkipSpaces(s, 2) == 2;
    assert s[..1] == "\t" && s[2..] == "x";
    TabAndLetterTrimmed();
  }

  lemma TabLineMatch()
    ensures MatchLine("taxi/nome", "/taxi/nome/\t:x") == Some((0, 1))
  {
    var prefix, line := "taxi/nome", "/taxi/nome/\t:x";
    assert SkipSpaces(line, 1) == 1;
    assert HeadFits(prefix, line, 0);
    var s := Tail(prefix, line, 0);
    assert s == "\t:x";
    assert SkipSpaces(s, 3) == 3 && SkipSpaces(s, 2) == 2 && SkipSpaces(s, 1) == 1;
    assert !KeyFits(s, 3) && !KeyFits(s, 2) && KeyFits(s, 1);
    assert LongestKey(s, 3) == 1;
    assert KeyLenAt(prefix, line, 0) == 1;
  }

  lemma TabAndLetterTrimmed()
    ensures Trim("\t") == "" && Trim("x") == "x"
  {
    assert SkipTrimChars("\t", 0) == 1;
    assert SkipTrimChars("x", 0) == 0 && BackTrimChars("x", 0, 1) == 1;
  }
}
