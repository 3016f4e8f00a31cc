/** Worked examples of Parse on texts a user might type into the preferences. */
module ParseExamples {
  import opened Text
  import opened Results
  import opened Pattern
  import opened Numbers
  import opened Snooze

  /** Text without any of the keywords is measured from now. */
  lemma NoKeywords(text: string)
    requires CharFree(text, 't') && CharFree(text, 'b')
    ensures !StartTimeRelative(text) && !ContainsIgnoreCase(text, "after")
  {
    CharFreeNotContained(text, "start", 1);
    CharFreeNotContained(text, "after", 2);
    CharFreeNotContained(text, "before", 0);
  }

  /** "1h" is an hour from now. */
  lemma HourExample(text: string)
    requires text == "1h"
    ensures Parse(text) == Success(SnoozeTime(3600, true))
  {
    assert text[0..1] == "1";
    assert IsMatch(text, 0, 1, 1);
    NoKeywords(text);
    ParseWholeNumber(text, Match(0, 1, 1), 3600, false, false);
  }

  /** "5M" is five seconds, not five minutes: only a lower-case unit letter scales. */
  lemma UpperCaseUnitExample(text: string)
    requires text == "5M"
    ensures Parse(text) == Success(SnoozeTime(5, true))
  {
    assert text[0..1] == "5";
    assert IsMatch(text, 0, 1, 1);
    NoKeywords(text);
    ParseWholeNumber(text, Match(0, 1, 1), 5, false, false);
  }

  /**
   A four-character text `d.dU` whose number has one digit on each side of the
   point, measured from now: the digits over ten, scaled by the unit and rounded.
   */
  lemma OneDecimalFromNow(text: string, a: string, b: string, scaled: nat, secs: int)
    requires |a| == 1 && |b| == 1 && AllDigits(a) && AllDigits(b)
    requires |text| == 4 && text[0..3] == a + "." + b && IsMatch(text, 0, 3, 3)
    requires scaled == DigitsValue(a + b) * UnitSeconds(text[3]) && 10 <= scaled
    requires secs == RoundHalfEven(scaled, 10) && IsInt32(secs)
    requires !StartTimeRelative(text)
    ensures Parse(text) == Success(SnoozeTime(secs, true))
  {
    ParseUsesLeftmostMatch(text, Match(0, 3, 3));
    ParseFractionLiteral(a, b);
    assert Pow10(1) == 10;
  }

  /** "1.5h" is ninety minutes from now. */
  lemma FractionExample(text: string)
    requires text == "1.5h"
    ensures Parse(text) == Success(SnoozeTime(5400, true))
  {
    assert text[0..3] == "1" + "." + "5";
    assert IsMatch(text, 0, 3, 3);
    assert "1" + "5" == "15" && DigitsValue("15") == 15 by {
      assert "15"[..1] == "1";
    }
    RoundExact(5400, 10);
    NoKeywords(text);
    OneDecimalFromNow(text, "1", "5", 54000, 5400);
  }

  /** "2.5s" rounds half to even, to two seconds. */
  lemma HalfToEvenExample(text: string)
    requires text == "2.5s"
    ensures Parse(text) == Success(SnoozeTime(2, true))
  {
    assert text[0..3] == "2" + "." + "5";
    assert IsMatch(text, 0, 3, 3);
    assert "2" + "5" == "25" && DigitsValue("25") == 25 by {
      assert "25"[..1] == "2";
    }
    NoKeywords(text);
    assert RoundHalfEven(25, 10) == 2;
    OneDecimalFromNow(text, "2", "5", 25, 2);
  }

  /** "0.5s" is under a second and is rejected. */
  lemma UnderOneSecondExample(text: string)
    requires text == "0.5s"
    ensures Parse(text) == Failure(NonPositiveMagnitude)
  {
    var m := Match(0, 3, 3);
    assert text[0..3] == "0" + "." + "5";
    assert IsMatch(text, 0, 3, 3);
    ParseUsesLeftmostMatch(text, m);
    ParseFractionLiteral("0", "5");
    assert "0" + "5" == "05" && DigitsValue("05") == 5 by {
      assert "05"[..1] == "0";
    }
  }

  /** "1.2.3m" matches the pattern, but its number has two points and is rejected. */
  lemma TwoPointsExample(text: string)
    requires text == "1.2.3m"
    ensures Parse(text) == Failure(MalformedNumber)
  {
    var m := Match(0, 5, 5);
    assert IsMatch(text, 0, 5, 5);
    ParseUsesLeftmostMatch(text, m);
    var run := text[0..5];
    assert run[1] == '.' && run[3] == '.';
    assert !WellFormedNumber(run);
  }
}
