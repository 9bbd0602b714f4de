/** Wall-clock strings of the schedule table: `timeToMinutes`, the `HH:MM`
    formatter and the weekday tags the `days` column holds. The clock itself
    is not read here: callers pass the hours, minutes and weekday in. */
module Clock {
  import opened Nullable
  import opened JsText

  /** The placeholder the schedule uses for an arrival time not known yet. */
  const Unknown := "TBD"

  /** `timeToMinutes(timeStr)`: minutes since midnight, or None (`null`).
      There is no range check: "99:99" is 6039. */
  function TimeToMinutes(t: Option<string>): (r: Option<nat>)
    ensures t.None? || t == Some("") || t == Some(Unknown) ==> r.None?
  {
    if t.None? || t.value == "" || t.value == Unknown then None
    else PartsToMinutes(Split(t.value, ':'))
  }

  /** `const [h, m] = parts.map(Number)`: a missing minute part is `undefined`,
      which is NaN like any other part that is not a number. */
  function PartsToMinutes(parts: seq<string>): Option<nat>
  {
    if |parts| < 2 then None
    else
      match (JsNumber(parts[0]), JsNumber(parts[1]))
      case (Some(h), Some(m)) => Some(h * 60 + m)
      case _ => None
  }

  lemma DigitsHaveNoColon(s: string)
    requires AllDigits(s)
    ensures ':' !in s
  {
  }

  /** A string without a colon never parses: "10" gives null. */
  lemma TimeNeedsColon(s: string)
    requires ':' !in s
    ensures TimeToMinutes(Some(s)) == None
  {
    SplitWithoutSep(s, ':');
  }

  /** What a string with a colon parses to: the part before the first colon
      gives the hours and the part up to the next colon (if any) gives the
      minutes; everything after a second colon is ignored. */
  lemma TimeOfParts(a: string, b: string, rest: string)
    requires ':' !in a && ':' !in b
    requires rest == [] || rest[0] == ':'
    ensures TimeToMinutes(Some(a + ":" + b + rest))
         == if AllDigits(a) && AllDigits(b) then Some(DigitsValue(a) * 60 + DigitsValue(b)) else None
  {
    var s := a + ":" + b + rest;
    assert s != [] && s != Unknown by { assert s[|a|] == ':'; }
    SplitOfTime(a, b, rest);
    assert TimeToMinutes(Some(s)) == PartsToMinutes(Split(s, ':'));
    PartsOf(Split(s, ':'), a, b);
  }

  /** Splitting at ':' yields the hours part, then the minutes part. */
  lemma SplitOfTime(a: string, b: string, rest: string)
    requires ':' !in a && ':' !in b
    requires rest == [] || rest[0] == ':'
    ensures var parts := Split(a + ":" + b + rest, ':');
            |parts| >= 2 && parts[0] == a && parts[1] == b
  {
    assert a + ":" + b + rest == a + [':'] + (b + rest);
    SplitAtFirst(a, ':', b + rest);
    if rest == [] {
      assert b + rest == b;
      SplitWithoutSep(b, ':');
    } else {
      assert b + rest == b + [':'] + rest[1..];
      SplitAtFirst(b, ':', rest[1..]);
    }
  }

  lemma PartsOf(parts: seq<string>, a: string, b: string)
    requires |parts| >= 2 && parts[0] == a && parts[1] == b
    ensures PartsToMinutes(parts)
         == if AllDigits(a) && AllDigits(b) then Some(DigitsValue(a) * 60 + DigitsValue(b)) else None
  {
  }

  /** Anything after a second colon is ignored: "10:30:45" parses as "10:30". */
  lemma TimeIgnoresSeconds(a: string, b: string, c: string)
    requires ':' !in a && ':' !in b
    ensures TimeToMinutes(Some(a + ":" + b + ":" + c)) == TimeToMinutes(Some(a + ":" + b))
  {
    TimeOfParts(a, b, ":" + c);
    TimeOfParts(a, b, "");
    assert a + ":" + b + ":" + c == a + ":" + b + (":" + c);
    assert a + ":" + b + "" == a + ":" + b;
  }

  /** Out-of-range clock readings are accepted as they are. */
  lemma NoRangeCheck()
    ensures TimeToMinutes(Some("99:99")) == Some(6039)
  {
    TimeOfParts("99", "99", "");
    assert "99" + ":" + "99" + "" == "99:99";
  }

  /** Midnight written as "24:00" is 1440, past the last minute of the day. */
  lemma NoWrapAtMidnight()
    ensures TimeToMinutes(Some("24:00")) == Some(1440)
  {
    TimeOfParts("24", "00", "");
    assert "24" + ":" + "00" + "" == "24:00";
  }

  /** The zero-padded `HH:MM` reading of the clock (`currentRealTime`):
      five characters, two digits on either side of the colon. */
  function FormatClock(hours: nat, minutes: nat): (s: string)
    ensures |s| >= 5
    ensures hours < 100 && minutes < 100 ==>
              |s| == 5 && s[2] == ':' && AllDigits(s[..2]) && AllDigits(s[3..])
  {
    PadTwo(hours) + ":" + PadTwo(minutes)
  }

  /** Formatting a clock reading and parsing it back gives its minutes since
      midnight; the formatter and the parser agree. */
  lemma ClockRoundTrip(hours: nat, minutes: nat)
    ensures TimeToMinutes(Some(FormatClock(hours, minutes))) == Some(hours * 60 + minutes)
    ensures hours < 24 && minutes < 60 ==> |FormatClock(hours, minutes)| == 5
  {
    var h, m := PadTwo(hours), PadTwo(minutes);
    DigitsHaveNoColon(h);
    DigitsHaveNoColon(m);
    TimeOfParts(h, m, "");
    assert h + ":" + m + "" == FormatClock(hours, minutes);
  }

  /** `['Sun', 'Mon', ...][new Date().getDay()]`. */
  const DayTags: seq<string> := ["Sun", "Mon", "Tue", "Wed", "Thu", "Fri", "Sat"]

  /** `getPresentDay()` for a weekday index as `Date.getDay` gives it. */
  function DayTag(weekday: nat): (tag: string)
    requires weekday < 7
    ensures |tag| == 3
  {
    DayTags[weekday]
  }

  /** Different weekdays have different tags, so a tag names its day. */
  lemma DayTagInjective(d1: nat, d2: nat)
    requires d1 < 7 && d2 < 7
    ensures DayTag(d1) == DayTag(d2) <==> d1 == d2
  {
    if d1 != d2 {
      assert DayTags[d1][0] != DayTags[d2][0] || DayTags[d1][1] != DayTags[d2][1];
    }
  }
}
