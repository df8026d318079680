/** The "how long ago" label of a detection (`format_seconds_ago`,
    display/birdnet_display_enhanced.py lines 211-217 and
    display/birdnet_display.py lines 126-132), over whole seconds. */
module TimeAgo {
  import opened Wrappers
  import opened Text

  datatype Unit = Seconds | Minutes | Hours | Days

  function UnitSeconds(u: Unit): (n: nat)
    ensures n >= 1
  {
    match u
    case Seconds => 1
    case Minutes => 60
    case Hours => 3600
    case Days => 86400
  }

  function UnitLetter(u: Unit): char {
    match u
    case Seconds => 's'
    case Minutes => 'm'
    case Hours => 'h'
    case Days => 'd'
  }

  function LetterUnit(c: char): (r: Option<Unit>)
    ensures r.Some? ==> UnitLetter(r.value) == c
  {
    if c == 's' then Some(Seconds)
    else if c == 'm' then Some(Minutes)
    else if c == 'h' then Some(Hours)
    else if c == 'd' then Some(Days)
    else None
  }

  const Suffix: string := " ago"

  /** `format_seconds_ago`: the minute and hour thresholds are tested on
      the quotients, as the source divides before it compares. */
  function FormatSecondsAgo(s: nat): string {
    if s < 60 then NatToString(s) + "s" + Suffix
    else if s / 60 < 60 then NatToString(s / 60) + "m" + Suffix
    else if s / 60 / 60 < 24 then NatToString(s / 60 / 60) + "h" + Suffix
    else NatToString(s / 60 / 60 / 24) + "d" + Suffix
  }

  /** Reads a label back: a count, a unit letter, then " ago". */
  function ParseAgo(t: string): (r: Option<(nat, Unit)>)
    ensures r.Some? ==> t == NatDigits(t) + [UnitLetter(r.value.1)] + Suffix
  {
    if |t| >= 6 && t[|t| - 4..] == Suffix && LetterUnit(t[|t| - 5]).Some?
       && AllDigits(t[..|t| - 5])
    then
      assert t == t[..|t| - 5] + [t[|t| - 5]] + t[|t| - 4..];
      Some((DigitsValue(t[..|t| - 5]), LetterUnit(t[|t| - 5]).value))
    else None
  }

  /** The digits in front of the unit letter of a label. */
  function NatDigits(t: string): string {
    if |t| >= 5 then t[..|t| - 5] else []
  }

  /** Any count written with any unit reads back as that count and unit. */
  lemma ParseLabel(q: nat, u: Unit)
    ensures ParseAgo(NatToString(q) + [UnitLetter(u)] + Suffix) == Some((q, u))
  {
    var d := NatToString(q);
    var t := d + [UnitLetter(u)] + Suffix;
    assert t[..|t| - 5] == d;
    assert t[|t| - 5] == UnitLetter(u);
    assert t[|t| - 4..] == Suffix;
    DigitsValueOfNatToString(q);
  }

  /** The label shows the number of whole units elapsed, in seconds below a
      minute, in minutes below an hour, in hours below a day and in days
      from then on. */
  lemma FormatSecondsAgoSpec(s: nat)
    ensures ParseAgo(FormatSecondsAgo(s)).Some?
    ensures var (q, u) := ParseAgo(FormatSecondsAgo(s)).value;
            && q == s / UnitSeconds(u)
            && q * UnitSeconds(u) <= s < (q + 1) * UnitSeconds(u)
            && (u == Seconds <==> s < 60)
            && (u == Minutes <==> 60 <= s < 3600)
            && (u == Hours <==> 3600 <= s < 86400)
            && (u == Days <==> 86400 <= s)
  {
    if s < 60 {
      ParseLabel(s, Seconds);
      assert FormatSecondsAgo(s) == NatToString(s) + [UnitLetter(Seconds)] + Suffix;
    } else if s < 3600 {
      ParseLabel(s / 60, Minutes);
      assert FormatSecondsAgo(s) == NatToString(s / 60) + [UnitLetter(Minutes)] + Suffix;
    } else if s < 86400 {
      assert s / 60 / 60 == s / 3600;
      ParseLabel(s / 3600, Hours);
      assert FormatSecondsAgo(s) == NatToString(s / 3600) + [UnitLetter(Hours)] + Suffix;
    } else {
      assert s / 60 / 60 / 24 == s / 86400;
      ParseLabel(s / 86400, Days);
      assert FormatSecondsAgo(s) == NatToString(s / 86400) + [UnitLetter(Days)] + Suffix;
    }
  }

  /** Two ages share a label only when they fall in the same band and
      count the same number of whole units of it. */
  lemma FormatSecondsAgoDistinguishes(s: nat, t: nat)
    requires FormatSecondsAgo(s) == FormatSecondsAgo(t)
    ensures var u := ParseAgo(FormatSecondsAgo(s)).value.1;
            && (s < 60 <==> t < 60)
            && (s < 3600 <==> t < 3600)
            && (s < 86400 <==> t < 86400)
            && s / UnitSeconds(u) == t / UnitSeconds(u)
  {
    FormatSecondsAgoSpec(s);
    FormatSecondsAgoSpec(t);
  }
}
