/**
 * Translation of source fields into the destination platform's schema:
 * the activity-type table, the minute/second formatters and the text of
 * the upload name and description.
 */
module Mapping {
  import opened Text
  import opened Records

  /**
   * The fixed table from source type codes to destination labels; every code
   * not in the table is a run.
   */
  function ActivityType(code: int): (kind: string)
    ensures kind == "Walk" <==> code in {2, 7, 19}
    ensures kind == "Ride" <==> code in {3, 4, 15, 22}
    ensures kind == "Swim" <==> code == 18
    ensures kind == "Run" <==> code !in {2, 3, 4, 7, 15, 18, 19, 22}
  {
    var table := map[2 := "Walk", 7 := "Walk", 19 := "Walk",
                     3 := "Ride", 4 := "Ride", 15 := "Ride", 22 := "Ride",
                     18 := "Swim"];
    if code in table then table[code] else "Run"
  }

  /** Python `int(a / b)` for a positive divisor: the quotient truncated toward zero. */
  function TruncDiv(a: int, b: int): (q: int)
    requires b > 0
    ensures a >= 0 ==> 0 <= a - q * b < b
    ensures a < 0 ==> -b < a - q * b <= 0
  {
    if a >= 0 then a / b else -((-a) / b)
  }

  /**
   * Python `round(ms / 1000.0)`: the nearest whole second, a tie going to
   * the even neighbour.
   */
  function RoundMillis(ms: int): (sec: int)
    ensures -500 <= ms - 1000 * sec <= 500
    ensures ms - 1000 * sec == 500 || ms - 1000 * sec == -500 ==> sec % 2 == 0
  {
    var q := ms / 1000;
    var r := ms % 1000;
    if r < 500 then q
    else if r > 500 then q + 1
    else if q % 2 == 0 then q
    else q + 1
  }

  /**
   * `convertSecondsToFormattedString`: the truncated minutes and the signed
   * remainder, each rendered with `02d`, joined by a colon.
   */
  function FormatSeconds(s: int): string
  {
    var minutes := TruncDiv(s, 60);
    var seconds := s - minutes * 60;
    Pad2(minutes) + ":" + Pad2(seconds)
  }

  /**
   * `r` is "MM:SS" reading back as `minutes` and `seconds`: decimal digits
   * (at least two, with no leading zero beyond the padding to two) before a
   * colon, exactly two decimal digits after it.
   */
  predicate ReadsAs(r: string, minutes: int, seconds: int)
  {
    |r| >= 5 && r[|r| - 3] == ':' && (|r| > 5 ==> r[0] != '0') &&
    AllDigits(r[..|r| - 3]) && AllDigits(r[|r| - 2..]) &&
    DigitsValue(r[..|r| - 3]) == minutes && DigitsValue(r[|r| - 2..]) == seconds
  }

  /**
   * For a non-negative count of seconds, the text is "MM:SS" with the whole
   * minutes before the colon and the remaining seconds, 0 to 59, after it.
   */
  lemma FormatSecondsShape(s: int)
    requires s >= 0
    ensures ReadsAs(FormatSeconds(s), s / 60, s % 60)
  {
    var minutes := TruncDiv(s, 60);
    var seconds := s - minutes * 60;
    assert minutes == s / 60 && seconds == s % 60;
    ColonShape(Pad2(minutes), Pad2(seconds), minutes, seconds);
  }

  lemma ColonShape(mm: string, ss: string, minutes: nat, seconds: nat)
    requires |mm| >= 2 && AllDigits(mm) && DigitsValue(mm) == minutes && (|mm| > 2 ==> mm[0] != '0')
    requires |ss| == 2 && AllDigits(ss) && DigitsValue(ss) == seconds
    ensures ReadsAs(mm + ":" + ss, minutes, seconds)
  {
    var r := mm + ":" + ss;
    assert r[..|r| - 3] == mm;
    assert r[|r| - 2..] == ss;
  }

  /** `convertToSecondsString`: milliseconds rounded to whole seconds, then "MM:SS". */
  function FormatDuration(ms: int): string
  {
    FormatSeconds(RoundMillis(ms))
  }

  /**
   * The rendered duration of a non-negative time reads back as the minutes
   * and seconds of its rounded whole seconds.
   */
  lemma FormatDurationShape(ms: int)
    requires ms >= 0
    ensures ReadsAs(FormatDuration(ms), RoundMillis(ms) / 60, RoundMillis(ms) % 60)
  {
    FormatSecondsShape(RoundMillis(ms));
  }

  /** 125000 ms is 125 s, rendered "02:05". */
  lemma FormatDurationExample()
    ensures FormatDuration(125000) == "02:05"
  {
    assert RoundMillis(125000) == 125;
    assert TruncDiv(125, 60) == 2;
    assert Pad2(2) == "02" && Pad2(5) == "05";
  }

  /** A pace of 0.2 s/m is 200 s/km, rendered "03:20". */
  lemma FormatSecondsExample()
    ensures FormatSeconds(200) == "03:20"
  {
    assert TruncDiv(200, 60) == 3;
    assert Pad2(3) == "03" && Pad2(20) == "20";
  }

  /**
   * The pause clause of a description: present exactly when the pause is at
   * least one whole second, and then the pause as "MM:SS" followed by "min".
   */
  function PauseClause(pause: int): (clause: string)
    ensures clause != "" <==> pause >= 1000
    ensures pause >= 1000 ==> clause == ", pause: " + FormatDuration(pause) + " min"
  {
    if TruncDiv(pause, 1000) > 0 then ", pause: " + FormatDuration(pause) + " min" else ""
  }

  /** The subjective feeling, "unknown" when the record has none. */
  function Feeling(rec: Record): string
  {
    rec.feeling.GetOr("unknown")
  }

  /** The description sent with a track upload: feeling, optional pause, calories. */
  function GpxDescription(rec: Record): string
  {
    "Feeling: " + Feeling(rec) + PauseClause(rec.pause) + ", calories: " + IntToString(rec.calories)
  }

  /**
   * Reading the description back: it opens with the feeling and closes with
   * the calories in decimal; what lies between is the pause clause, which is
   * there exactly when the pause reached a whole second.
   */
  lemma GpxDescriptionParts(rec: Record)
    ensures var d := GpxDescription(rec);
      var head := "Feeling: " + Feeling(rec);
      var tail := ", calories: " + IntToString(rec.calories);
      |d| >= |head| + |tail| &&
      d[..|head|] == head &&
      d[|d| - |tail|..] == tail &&
      (rec.pause >= 1000 ==> d[|head|..|d| - |tail|] == ", pause: " + FormatDuration(rec.pause) + " min") &&
      (rec.pause < 1000 ==> |d| == |head| + |tail|)
  {
    var head := "Feeling: " + Feeling(rec);
    var tail := ", calories: " + IntToString(rec.calories);
    var middle := PauseClause(rec.pause);
    var d := GpxDescription(rec);
    assert d == head + middle + tail by {
      ConcatAssoc(head + middle, ", calories: ", IntToString(rec.calories));
    }
    Split3(head, middle, tail);
  }

  lemma ConcatAssoc(a: string, b: string, c: string)
    ensures a + b + c == a + (b + c)
  {
  }

  lemma Split3(a: string, b: string, c: string)
    ensures var s := a + b + c;
      s[..|a|] == a && s[|a|..|a| + |b|] == b && s[|a| + |b|..] == c
  {
  }

  /** The activity name: the destination label and the start time in parentheses. */
  function ActivityName(rec: Record, date: string): string
  {
    ActivityType(rec.sportTypeId) + " (" + date + ")"
  }
}
