/**
 * fmt_age of painel/index.php: how long an agent has been logged in or in a
 * ride, as "<h>h <mm>m" from one hour on and "<m>m <ss>s" below it.
 */
module Age {
  import opened Text
  import opened Options

  /** The hours, minutes and seconds fmt_age prints from. */
  datatype Clock = Clock(hours: nat, minutes: nat, seconds: nat)

  /** `max(0, $seconds)`. */
  function Clamp(seconds: int): nat
  {
    if seconds < 0 then 0 else seconds
  }

  lemma ModOfMod(t: nat)
    ensures (t % 3600) % 60 == t % 60
  {
    var q, r := t / 3600, t % 3600;
    assert t == 60 * (60 * q + r / 60) + r % 60;
  }

  /**
   * `intdiv($seconds, 3600)`, `intdiv($seconds % 3600, 60)` and
   * `$seconds % 60` after clamping: a decomposition of the clamped value
   * with minutes and seconds below 60.
   */
  function ClockOf(seconds: int): (c: Clock)
    ensures c.minutes < 60 && c.seconds < 60
    ensures c.hours * 3600 + c.minutes * 60 + c.seconds == Clamp(seconds)
    ensures c.seconds == Clamp(seconds) % 60
  {
    var t := Clamp(seconds);
    ModOfMod(t);
    Clock(t / 3600, (t % 3600) / 60, t % 60)
  }

  /** The two pieces of the text: a number with its unit, each. */
  function ClockParts(c: Clock): (parts: seq<string>)
  {
    if c.hours > 0 then [Decimal(c.hours) + "h", Pad2(c.minutes) + "m"]
    else [Decimal(c.minutes) + "m", Pad2(c.seconds) + "s"]
  }

  /**
   * `text` is two pieces joined by one space: a number without leading
   * zeros followed by the unit `u`, then exactly two digits of a value
   * below 60 followed by the unit `v`.
   */
  predicate AgeShape(text: string, u: char, v: char)
  {
    var parts := Split(text, ' ');
    && |parts| == 2 && |parts[0]| >= 2 && |parts[1]| == 3
    && IsCanonical(parts[0][..|parts[0]| - 1]) && parts[0][|parts[0]| - 1] == u
    && IsDigits(parts[1][..2]) && DigitsValue(parts[1][..2]) < 60 && parts[1][2] == v
  }

  /**
   * fmt_age($seconds): "%dh %02dm" from one hour on, "%dm %02ds" below it,
   * the numbers being the hours, minutes and seconds of ClockOf.
   */
  function FmtAge(seconds: int): (text: string)
    ensures Clamp(seconds) >= 3600 ==> AgeShape(text, 'h', 'm')
    ensures Clamp(seconds) < 3600 ==> AgeShape(text, 'm', 's')
    ensures var c := ClockOf(seconds);
      c.hours > 0 ==> Split(text, ' ') == [Decimal(c.hours) + "h", Pad2(c.minutes) + "m"]
    ensures var c := ClockOf(seconds);
      c.hours == 0 ==> Split(text, ' ') == [Decimal(c.minutes) + "m", Pad2(c.seconds) + "s"]
  {
    var c := ClockOf(seconds);
    ClockArithmetic(c, Clamp(seconds));
    ClockShape(c);
    Join(ClockParts(c), ' ')
  }

  /** The printed fields have the shape of `%d` and `%02d` with their units. */
  lemma ClockShape(c: Clock)
    requires c.minutes < 60 && c.seconds < 60
    ensures c.hours > 0 ==> AgeShape(Join(ClockParts(c), ' '), 'h', 'm')
    ensures c.hours == 0 ==> AgeShape(Join(ClockParts(c), ' '), 'm', 's')
    ensures Split(Join(ClockParts(c), ' '), ' ') == ClockParts(c)
  {
    if c.hours > 0 {
      PiecesShape(Decimal(c.hours), 'h', Pad2(c.minutes), 'm');
    } else {
      PiecesShape(Decimal(c.minutes), 'm', Pad2(c.seconds), 's');
    }
  }

  lemma PiecesShape(a: string, u: char, b: string, v: char)
    requires IsCanonical(a) && IsDigits(b) && |b| == 2 && DigitsValue(b) < 60 && u != ' ' && v != ' '
    ensures AgeShape(Join([a + [u], b + [v]], ' '), u, v)
    ensures Split(Join([a + [u], b + [v]], ' '), ' ') == [a + [u], b + [v]]
  {
    PiecesRoundTrip(a, u, b, v);
    assert (a + [u])[..|a|] == a;
    assert (b + [v])[..2] == b;
  }

  /** The number and unit letter of one piece, when it has that shape. */
  function ReadPiece(p: string): Option<(nat, char)>
  {
    if |p| < 2 || !AllDigits(p[..|p| - 1]) then None
    else Some((DigitsValue(p[..|p| - 1]), p[|p| - 1]))
  }

  /**
   * Reads a fmt_age text back into seconds: "<h>h <m>m" as whole minutes,
   * "<m>m <s>s" exactly, the second number below 60; anything else is not
   * such a text.
   */
  function ReadAge(text: string): (r: Option<nat>)
    ensures r.Some? ==> ' ' in text
  {
    var parts := Split(text, ' ');
    if |parts| != 2 then None
    else
      match (ReadPiece(parts[0]), ReadPiece(parts[1]))
      case (Some((a, 'h')), Some((b, 'm'))) => if b < 60 then Some(a * 3600 + b * 60) else None
      case (Some((a, 'm')), Some((b, 's'))) => if b < 60 then Some(a * 60 + b) else None
      case _ => None
  }

  lemma ReadNumberUnit(digits: string, unit: char)
    requires AllDigits(digits) && unit != ' '
    ensures ' ' !in digits + [unit]
    ensures ReadPiece(digits + [unit]) == (if |digits| == 0 then None else Some((DigitsValue(digits), unit)))
  {
    var p := digits + [unit];
    assert p[..|p| - 1] == digits;
    forall i | 0 <= i < |p|
      ensures p[i] != ' '
    {
      if i < |digits| {
        assert IsDigit(digits[i]);
      }
    }
  }

  /** Two pieces read back as the numbers they were printed from. */
  lemma PiecesRoundTrip(a: string, u: char, b: string, v: char)
    requires IsDigits(a) && IsDigits(b) && u != ' ' && v != ' '
    ensures var parts := [a + [u], b + [v]];
      Split(Join(parts, ' '), ' ') == parts
      && ReadPiece(parts[0]) == Some((DigitsValue(a), u))
      && ReadPiece(parts[1]) == Some((DigitsValue(b), v))
  {
    ReadNumberUnit(a, u);
    ReadNumberUnit(b, v);
    SplitJoin([a + [u], b + [v]], ' ');
  }

  /** "<a>h <b>m" reads back as `a` hours and `b` minutes. */
  lemma ReadHours(a: string, b: string)
    requires IsDigits(a) && IsDigits(b) && DigitsValue(b) < 60
    ensures ReadAge(Join([a + "h", b + "m"], ' ')) == Some(DigitsValue(a) * 3600 + DigitsValue(b) * 60)
  {
    PiecesRoundTrip(a, 'h', b, 'm');
    var parts := [a + "h", b + "m"];
    assert Split(Join(parts, ' '), ' ') == parts;
    assert ReadPiece(parts[1]).value.0 < 60;
  }

  /** "<a>m <b>s" reads back as `a` minutes and `b` seconds. */
  lemma ReadMinutes(a: string, b: string)
    requires IsDigits(a) && IsDigits(b) && DigitsValue(b) < 60
    ensures ReadAge(Join([a + "m", b + "s"], ' ')) == Some(DigitsValue(a) * 60 + DigitsValue(b))
  {
    PiecesRoundTrip(a, 'm', b, 's');
    var parts := [a + "m", b + "s"];
    assert Split(Join(parts, ' '), ' ') == parts;
    assert ReadPiece(parts[1]).value.0 < 60;
  }

  /** The printed fields read back: hours and minutes, or minutes and seconds. */
  lemma ClockRoundTrip(c: Clock)
    requires c.minutes < 60 && c.seconds < 60
    ensures ReadAge(Join(ClockParts(c), ' '))
      == Some(if c.hours > 0 then c.hours * 3600 + c.minutes * 60 else c.minutes * 60 + c.seconds)
  {
    if c.hours > 0 {
      var a, b := Decimal(c.hours), Pad2(c.minutes);
      ReadHours(a, b);
      assert ClockParts(c) == [a + "h", b + "m"];
    } else {
      var a, b := Decimal(c.minutes), Pad2(c.seconds);
      ReadMinutes(a, b);
      assert ClockParts(c) == [a + "m", b + "s"];
    }
  }

  /** What the printed fields leave of the age. */
  lemma ClockArithmetic(c: Clock, t: nat)
    requires c.minutes < 60 && c.seconds < 60
    requires c.hours * 3600 + c.minutes * 60 + c.seconds == t
    requires c.seconds == t % 60
    ensures c.hours > 0 <==> t >= 3600
    ensures c.hours * 3600 + c.minutes * 60 == t - t % 60
  {
  }

  /**
   * The text names the age exactly below an hour and to the minute above
   * it: the seconds are dropped once hours are shown.
   */
  lemma AgeRoundTrip(seconds: int)
    ensures var c := Clamp(seconds);
      ReadAge(FmtAge(seconds)) == Some(if c >= 3600 then c - c % 60 else c)
  {
    var c, t := ClockOf(seconds), Clamp(seconds);
    ClockArithmetic(c, t);
    ClockRoundTrip(c);
    assert FmtAge(seconds) == Join(ClockParts(c), ' ');
  }

  /** Below an hour, different ages print differently. */
  lemma FmtAgeDistinctBelowHour(x: int, y: int)
    requires 0 <= x < 3600 && 0 <= y < 3600
    requires x != y
    ensures FmtAge(x) != FmtAge(y)
  {
    AgeRoundTrip(x);
    AgeRoundTrip(y);
  }

  /** Negative ages (a login stamped in the future) print as zero. */
  lemma NegativeAgeIsZero(seconds: int)
    requires seconds < 0
    ensures FmtAge(seconds) == "0m 00s"
  {
    assert Decimal(0) + "m" == "0m" by { assert Decimal(0) == "0"; }
    assert Pad2(0) + "s" == "00s" by { assert Pad2(0) == "00"; }
    assert ClockOf(seconds) == Clock(0, 0, 0);
    assert ClockParts(Clock(0, 0, 0)) == ["0m", "00s"];
    assert Join(["0m", "00s"], ' ') == "0m" + [' '] + Join(["00s"], ' ');
  }
}
