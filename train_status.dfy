/** The status a train is shown with: `calculateStatus` of `/api/trains`,
    and the one-line rule of `/api/allocations/real-time` and `/api/train/:id`. */
module TrainStatus {
  import opened Nullable
  import opened JsText
  import opened Clock

  /** The delay text the live feed reports for a punctual train. */
  const RightTime := "Right Time"

  /** The substring that marks a delay text as late. */
  const DelayMarker := "Delayed"

  /** JavaScript truthiness of a nullable text column: present and not empty. */
  predicate Truthy(o: Option<string>) { o.Some? && o.value != "" }

  /** Truthiness of a parsed time: `null` and 0 (midnight) are both falsy. */
  predicate NonZero(o: Option<nat>) { o.Some? && o.value != 0 }

  /** The statuses `calculateStatus` can return, with their text below. */
  datatype Status = Scheduled | OnTime | Delayed | DelayedBy(minutes: nat) | EarlyBy(minutes: nat)
  {
    function Text(): string
    {
      match this
      case Scheduled => "Scheduled"
      case OnTime => "On Time"
      case Delayed => "Delayed"
      case DelayedBy(n) => "Delayed by " + NatToString(n) + " min"
      case EarlyBy(n) => "Early by " + NatToString(n) + " min"
    }
  }

  /** A delay text other than "Right Time" settles the status on its own. */
  predicate DelayDecides(delay: Option<string>)
  {
    Truthy(delay) && delay.value != RightTime
  }

  /** Real minus scheduled minutes, when both times are given and both parse
      to a truthy (non-null, non-zero) number of minutes. */
  function Gap(scheduled: Option<string>, arrival: Option<string>): Option<int>
  {
    var s, r := TimeToMinutes(scheduled), TimeToMinutes(arrival);
    if Truthy(arrival) && Truthy(scheduled) && NonZero(s) && NonZero(r) then Some(r.value - s.value) else None
  }

  /** `calculateStatus(scheduled, real_arrival, delay)` before rendering. */
  function DeriveStatus(scheduled: Option<string>, arrival: Option<string>, delay: Option<string>): (st: Status)
    // "Scheduled" exactly when the feed has said nothing yet
    ensures st.Scheduled? <==> !Truthy(arrival) && !Truthy(delay)
    // a delay text other than "Right Time" wins over any time comparison
    ensures DelayDecides(delay) ==> (st.Delayed? || st.OnTime?)
    ensures st.Delayed? <==> DelayDecides(delay) && Contains(delay.value, DelayMarker)
    // otherwise the times decide, with five minutes' tolerance either way
    ensures st.DelayedBy? <==> !DelayDecides(delay) && Gap(scheduled, arrival).Some? && Gap(scheduled, arrival).value > 5
    ensures st.DelayedBy? ==> Gap(scheduled, arrival) == Some(st.minutes as int)
    ensures st.EarlyBy? <==> !DelayDecides(delay) && Gap(scheduled, arrival).Some? && Gap(scheduled, arrival).value < -5
    ensures st.EarlyBy? ==> Gap(scheduled, arrival) == Some(-(st.minutes as int))
  {
    if !Truthy(arrival) && !Truthy(delay) then Scheduled
    else if DelayDecides(delay) then (if Contains(delay.value, DelayMarker) then Delayed else OnTime)
    else
      match Gap(scheduled, arrival)
      case Some(d) => if d > 5 then DelayedBy(d) else if d < -5 then EarlyBy(-d) else OnTime
      case None => OnTime
  }

  /** `calculateStatus(scheduled, real_arrival, delay)`: the status text.
      The three fixed texts each name one case of the decision. */
  function CalculateStatus(scheduled: Option<string>, arrival: Option<string>, delay: Option<string>): (r: string)
    ensures r == "Scheduled" <==> !Truthy(arrival) && !Truthy(delay)
    ensures r == "Delayed" <==> DelayDecides(delay) && Contains(delay.value, DelayMarker)
    ensures DelayDecides(delay) ==> r == "Delayed" || r == "On Time"
    ensures r == "On Time" <==> DeriveStatus(scheduled, arrival, delay).OnTime?
  {
    var st := DeriveStatus(scheduled, arrival, delay);
    FixedTexts(st);
    st.Text()
  }

  /** Only `Scheduled`, `Delayed` and `OnTime` render as their fixed texts. */
  lemma FixedTexts(st: Status)
    ensures st.Text() == "Scheduled" <==> st.Scheduled?
    ensures st.Text() == "Delayed" <==> st.Delayed?
    ensures st.Text() == "On Time" <==> st.OnTime?
  {
    if st.Text() == "Scheduled" {
      TextInjective(st, Scheduled);
    }
    if st.Text() == "Delayed" {
      TextInjective(st, Delayed);
    }
    if st.Text() == "On Time" {
      TextInjective(st, OnTime);
    }
  }

  /** No two statuses share a text, so the text determines the status. */
  lemma TextInjective(a: Status, b: Status)
    requires a.Text() == b.Text()
    ensures a == b
  {
    var ta := a.Text();
    match a
    case DelayedBy(n) =>
      assert ta[0] == 'D' && |ta| > 7;
      assert b.DelayedBy?;
      StripAffixes("Delayed by ", NatToString(n), NatToString(b.minutes), " min");
      NatToStringInjective(n, b.minutes);
    case EarlyBy(n) =>
      assert ta[0] == 'E';
      assert b.EarlyBy?;
      StripAffixes("Early by ", NatToString(n), NatToString(b.minutes), " min");
      NatToStringInjective(n, b.minutes);
    case _ =>
  }

  lemma StripAffixes(p: string, x: string, y: string, q: string)
    requires p + x + q == p + y + q
    ensures x == y
  {
    assert |x| == |y|;
    forall i | 0 <= i < |x| ensures x[i] == y[i] {
      assert (p + x + q)[|p| + i] == x[i];
      assert (p + y + q)[|p| + i] == y[i];
    }
  }

  /** The status the simpler routes send: only the delay text is looked at,
      and a missing delay or "Right Time" reads as on time. */
  function SimpleStatus(delay: Option<string>): (r: string)
    ensures r == "Delayed" || r == "On Time"
    ensures !Truthy(delay) || delay == Some(RightTime) ==> r == "On Time"
  {
    RightTimeIsNotDelayed();
    if Truthy(delay) && Contains(delay.value, DelayMarker) then "Delayed" else "On Time"
  }

  /** When the delay text decides, both routes agree on the status. */
  lemma SimpleStatusAgrees(scheduled: Option<string>, arrival: Option<string>, delay: Option<string>)
    requires DelayDecides(delay)
    ensures CalculateStatus(scheduled, arrival, delay) == SimpleStatus(delay)
  {
  }

  /** "Right Time" does not contain "Delayed". */
  lemma RightTimeIsNotDelayed()
    ensures !Contains(RightTime, DelayMarker)
  {
    assert forall k :: 0 <= k < |RightTime| ==> RightTime[k] != DelayMarker[0];
    forall i | 0 <= i ensures !OccursAt(RightTime, DelayMarker, i) {
      if i + |DelayMarker| <= |RightTime| {
        assert RightTime[i..i + |DelayMarker|][0] == RightTime[i];
      }
    }
  }

  /** With no real-time data yet the train is "Scheduled". */
  lemma NoDataExample()
    ensures CalculateStatus(Some("10:00"), None, None) == "Scheduled"
  {
  }

  lemma At1000() ensures TimeToMinutes(Some("10:00")) == Some(600)
  {
    TimeOfParts("10", "00", "");
    assert "10" + ":" + "00" + "" == "10:00";
  }

  lemma At1008() ensures TimeToMinutes(Some("10:08")) == Some(608)
  {
    TimeOfParts("10", "08", "");
    assert "10" + ":" + "08" + "" == "10:08";
  }

  lemma At0952() ensures TimeToMinutes(Some("09:52")) == Some(592)
  {
    TimeOfParts("09", "52", "");
    assert "09" + ":" + "52" + "" == "09:52";
  }

  lemma At1003() ensures TimeToMinutes(Some("10:03")) == Some(603)
  {
    TimeOfParts("10", "03", "");
    assert "10" + ":" + "03" + "" == "10:03";
  }

  lemma At0000() ensures TimeToMinutes(Some("00:00")) == Some(0)
  {
    TimeOfParts("00", "00", "");
    assert "00" + ":" + "00" + "" == "00:00";
  }

  /** Eight minutes late is reported with the gap. */
  lemma LateExample()
    ensures CalculateStatus(Some("10:00"), Some("10:08"), None) == "Delayed by 8 min"
  {
    assert Gap(Some("10:00"), Some("10:08")) == Some(8) by {
      At1000();
      At1008();
    }
    assert DeriveStatus(Some("10:00"), Some("10:08"), None) == DelayedBy(8);
    assert DelayedBy(8).Text() == "Delayed by 8 min" by {
      assert NatToString(8) == "8";
    }
  }

  /** Eight minutes early is reported with the gap. */
  lemma EarlyExample()
    ensures CalculateStatus(Some("10:00"), Some("09:52"), None) == "Early by 8 min"
  {
    assert Gap(Some("10:00"), Some("09:52")) == Some(-8) by {
      At1000();
      At0952();
    }
    assert DeriveStatus(Some("10:00"), Some("09:52"), None) == EarlyBy(8);
    assert EarlyBy(8).Text() == "Early by 8 min" by {
      assert NatToString(8) == "8";
    }
  }

  /** Three minutes late is within the tolerance. */
  lemma ToleranceExample()
    ensures CalculateStatus(Some("10:00"), Some("10:03"), None) == "On Time"
  {
    At1000();
    At1003();
  }

  /** Midnight parses to 0, which is falsy, so the times are not compared
      even though the train came eight minutes late. */
  lemma MidnightExample()
    ensures TimeToMinutes(Some("00:00")) == Some(0)
    ensures CalculateStatus(Some("00:00"), Some("10:08"), None) == "On Time"
  {
    At0000();
  }

  /** "Right Time" leaves the decision to the times; any other delay text
      decides by itself. */
  lemma DelayTextExamples()
    ensures CalculateStatus(Some("10:00"), Some("10:08"), Some(RightTime)) == "Delayed by 8 min"
    ensures CalculateStatus(Some("10:00"), Some("10:08"), Some("Delayed by 3 min")) == "Delayed"
  {
    LateExample();
    assert OccursAt("Delayed by 3 min", DelayMarker, 0);
  }
}
