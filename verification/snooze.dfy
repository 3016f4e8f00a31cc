/**
 The snooze-time value type of the reminder add-in: an offset in seconds,
 measured from now or from a meeting's start time, with its text parser, its
 canonical rendering (checked by re-parsing), its display ordering and the
 computation of the next reminder instant.
 */
module Snooze {
  import opened Text
  import opened Results
  import opened Pattern
  import opened Numbers

  /**
   An offset of `secs` seconds. When `fromNow` it is measured from the moment the
   reminder fires; otherwise from the meeting start, negative meaning before it.
   */
  datatype SnoozeTime = SnoozeTime(secs: Int32, fromNow: bool)

  /** The exceptions the operations raise, by kind. */
  datatype Error =
    | MalformedOffset        // the text has no `<number> s|m|h`
    | MalformedNumber        // the number is not a valid float, such as "." or "1.2.3"
    | NonPositiveMagnitude   // the magnitude is below one second
    | Overflow               // the rounded seconds do not fit in an `int`
    | InternalInconsistency  // the rendered text does not parse back to the same value

  /** The text names the meeting start: it mentions "start", "after" or "before", in any case. */
  predicate StartTimeRelative(text: string)
  {
    || ContainsIgnoreCase(text, "start")
    || ContainsIgnoreCase(text, "after")
    || ContainsIgnoreCase(text, "before")
  }

  /**
   Seconds per unit as the `switch` on the unit group chooses them. The switch is
   case-sensitive, so only lower-case `m` and `h` scale; `M`, `H`, `s` and `S`
   leave the number in seconds.
   */
  function UnitSeconds(unit: char): (r: nat)
    ensures r == 60 <==> unit == 'm'
    ensures r == 3600 <==> unit == 'h'
    ensures r == 1 || r == 60 || r == 3600
  {
    if unit == 'm' then 60 else if unit == 'h' then 3600 else 1
  }

  /**
   `SnoozeTime.Parse`: the leftmost `<number> s|m|h` gives the magnitude, the
   keywords give the reference point and the sign.
   */
  function Parse(text: string): (r: Result<SnoozeTime, Error>)
    ensures r == Failure(MalformedOffset) <==> !HasMatch(text)
    ensures r.Success? ==> (r.value.fromNow <==> !StartTimeRelative(text))
    ensures r.Success? ==> (r.value.secs < 0 <==> StartTimeRelative(text) && !ContainsIgnoreCase(text, "after"))
    ensures r.Success? ==> r.value.secs != 0
    ensures r.Success? && r.value.fromNow ==> r.value.secs > 0
  {
    match FindMatch(text)
    case None => Failure(MalformedOffset)
    case Some(m) =>
      assert IsNumberRun(text[m.start..m.numberEnd]);
      FromMatch(text[m.start..m.numberEnd], text[m.unit],
                StartTimeRelative(text), ContainsIgnoreCase(text, "after"))
  }

  /**
   The part of Parse after the match: `float.Parse` of the number group, the
   unit scaling, the check against one second, the sign, and `Convert.ToInt32`.
   */
  function FromMatch(number: string, unit: char, startTimeRelative: bool, saysAfter: bool): (r: Result<SnoozeTime, Error>)
    requires IsNumberRun(number)
    ensures r != Failure(MalformedOffset)
    ensures r == Failure(MalformedNumber) <==> !WellFormedNumber(number)
    ensures r.Success? ==> (r.value.fromNow <==> !startTimeRelative)
    ensures r.Success? ==> (r.value.secs < 0 <==> startTimeRelative && !saysAfter)
    ensures r.Success? ==> r.value.secs != 0
    ensures WellFormedNumber(number) ==>
              var d := ParseDecimal(number).value;
              var scaled := d.digits * UnitSeconds(unit);
              var den := Pow10(d.scale);
              var magnitude := RoundHalfEven(scaled, den);
              var secs := if startTimeRelative && !saysAfter then -magnitude else magnitude;
              && (scaled < den ==> r == Failure(NonPositiveMagnitude))
              && (scaled >= den && IsInt32(secs) ==> r == Success(SnoozeTime(secs, !startTimeRelative)))
              && (scaled >= den && !IsInt32(secs) ==> r == Failure(Overflow))
  {
    match ParseDecimal(number)
    case None => Failure(MalformedNumber)
    case Some(d) =>
      var scaled := d.digits * UnitSeconds(unit);
      var den := Pow10(d.scale);
      if scaled < den then Failure(NonPositiveMagnitude)
      else
        var negative := !saysAfter && startTimeRelative;
        var secs := RoundHalfEven(if negative then -scaled else scaled, den);
        RoundAtLeastOne(scaled, den);
        RoundNegate(scaled, den);
        if IsInt32(secs) then Success(SnoozeTime(secs, !startTimeRelative))
        else Failure(Overflow)
  }

  /**
   Parse reads the number and the unit from the leftmost match of the pattern,
   whichever way that match is found.
   */
  lemma ParseUsesLeftmostMatch(text: string, m: Match)
    requires IsLeftmostMatch(text, m)
    ensures IsNumberRun(text[m.start..m.numberEnd])
    ensures Parse(text) == FromMatch(text[m.start..m.numberEnd], text[m.unit],
                                     StartTimeRelative(text), ContainsIgnoreCase(text, "after"))
  {
    LeftmostUnique(text, m, FindMatch(text).value);
  }

  /**
   For a whole number the magnitude is exactly the number times 60 for `m`,
   3600 for `h`, and 1 for any other unit letter (including upper-case `M` and `H`).
   */
  lemma ParseWholeNumber(text: string, m: Match, n: nat, relative: bool, saysAfter: bool)
    requires IsLeftmostMatch(text, m)
    requires AllDigits(text[m.start..m.numberEnd])
    requires n == DigitsValue(text[m.start..m.numberEnd]) * UnitSeconds(text[m.unit])
    requires relative == StartTimeRelative(text) && saysAfter == ContainsIgnoreCase(text, "after")
    ensures var secs: int := if relative && !saysAfter then -(n as int) else n;
            && (n == 0 ==> Parse(text) == Failure(NonPositiveMagnitude))
            && (n >= 1 && IsInt32(secs) ==> Parse(text) == Success(SnoozeTime(secs, !relative)))
            && (n >= 1 && !IsInt32(secs) ==> Parse(text) == Failure(Overflow))
  {
    var run := text[m.start..m.numberEnd];
    ParseIntegerLiteral(run);
    RoundExact(n, 1);
    assert n * 1 == n;
    ParseUsesLeftmostMatch(text, m);
  }

  /** Text with no digit or point has no match. */
  lemma NoNumberNoMatch(text: string)
    requires forall p :: 0 <= p < |text| ==> !IsNumberChar(text[p])
    ensures Parse(text) == Failure(MalformedOffset)
  {
  }

  /** Texts without a `<number> s|m|h` are rejected. */
  lemma MalformedExamples()
    ensures Parse("") == Failure(MalformedOffset)
    ensures Parse("hello") == Failure(MalformedOffset)
    ensures Parse("five minutes") == Failure(MalformedOffset)
  {
    NoNumberNoMatch("");
    NoNumberNoMatch("hello");
    NoNumberNoMatch("five minutes");
  }

  /** "10" is ten. */
  lemma Ten()
    ensures DigitsValue("10") == 10
  {
    assert "10"[..1] == "1";
  }

  /** "10m after start" is ten minutes after the start. */
  lemma AfterStartExample(text: string)
    requires text == "10m after start"
    ensures Parse(text) == Success(SnoozeTime(600, false))
  {
    assert text[0..2] == "10";
    Ten();
    assert IsMatch(text, 0, 2, 2);
    assert OccursAt(text, "after", 4);
    ParseWholeNumber(text, Match(0, 2, 2), 600, true, true);
  }

  /** "10m before start" is ten minutes before the start. */
  lemma BeforeStartExample(text: string)
    requires text == "10m before start"
    ensures Parse(text) == Success(SnoozeTime(-600, false))
  {
    assert ContainsIgnoreCase(text, "before") && !ContainsIgnoreCase(text, "after") by {
      assert OccursAt(text, "before", 4);
      PairFreeNotContained(text, "after", 0);
    }
    assert Parse(text) == Success(SnoozeTime(-600, false)) by {
      assert text[0..2] == "10";
      Ten();
      assert IsMatch(text, 0, 2, 2);
      ParseWholeNumber(text, Match(0, 2, 2), 600, true, false);
    }
  }

  /** "10m" is ten minutes from now. */
  lemma FromNowExample(text: string)
    requires text == "10m"
    ensures Parse(text) == Success(SnoozeTime(600, true))
  {
    assert text[0..2] == "10";
    Ten();
    assert IsMatch(text, 0, 2, 2);
    CharFreeNotContained(text, "start", 0);
    CharFreeNotContained(text, "after", 0);
    CharFreeNotContained(text, "before", 0);
    ParseWholeNumber(text, Match(0, 2, 2), 600, false, false);
  }
}
