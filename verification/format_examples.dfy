/** Concrete texts that `SnoozeTime.ToString` produces. */
module FormatExamples {
  import opened Text
  import opened Results
  import opened Snooze
  import opened Format

  /** An hour from now is said in minutes. */
  lemma HourRendering(text: string)
    requires text == "Remind in 60 minutes"
    ensures ToString(SnoozeTime(3600, true)) == Success(text)
  {
    var x := SnoozeTime(3600, true);
    assert AbsSecs(x) == 3600;
    AmountText(3600, 60, "60", "minutes");
    RenderText(x, "60 minutes", text);
  }

  /** One second is singular. */
  lemma OneSecondRendering(text: string)
    requires text == "Remind in 1 second"
    ensures ToString(SnoozeTime(1, true)) == Success(text)
  {
    var x := SnoozeTime(1, true);
    assert AbsSecs(x) == 1;
    AmountText(1, 1, "1", "second");
    RenderText(x, "1 second", text);
  }

  /** One minute is singular. */
  lemma OneMinuteRendering(text: string)
    requires text == "Remind in 1 minute"
    ensures ToString(SnoozeTime(60, true)) == Success(text)
  {
    var x := SnoozeTime(60, true);
    assert AbsSecs(x) == 60;
    AmountText(60, 1, "1", "minute");
    RenderText(x, "1 minute", text);
  }

  /** Ninety seconds before the start are not a whole number of minutes. */
  lemma BeforeStartRendering(text: string)
    requires text == "Remind 90 seconds before start time"
    ensures ToString(SnoozeTime(-90, false)) == Success(text)
  {
    var x := SnoozeTime(-90, false);
    NinetySeconds(x);
    AmountText(90, 90, "90", "seconds");
    BeforeStartText(text);
    SentenceText("90 seconds", "before start time", text);
    RenderText(x, "90 seconds", text);
  }

  lemma NinetySeconds(x: SnoozeTime)
    requires x == SnoozeTime(-90, false)
    ensures AbsSecs(x) == 90 && Count(90) == 90 && UnitName(90) == "seconds"
    ensures NatToString(90) == "90"
    ensures Phrase(x) == "before start time"
  {
    assert NatToString(9) == "9";
  }

  lemma BeforeStartText(text: string)
    requires text == "Remind 90 seconds before start time"
    ensures text == "Remind " + "90 seconds" + " " + "before start time"
  {
  }

  /** The amount for `n` seconds is the count's digits, a space and the unit name. */
  lemma AmountText(n: int, count: nat, digits: string, unit: string)
    requires Count(n) == count && NatToString(count) == digits && UnitName(n) == unit
    ensures Amount(n) == digits + " " + unit
  {
  }

  lemma SentenceText(amount: string, phrase: string, text: string)
    requires text == "Remind " + amount + " " + phrase
    ensures Sentence(false, amount, phrase) == text
  {
  }

  /** The text ToString returns, given the amount. */
  lemma RenderText(x: SnoozeTime, amount: string, text: string)
    requires HasCanonicalText(x) && Amount(AbsSecs(x)) == amount
    requires text == Sentence(x.fromNow, amount, Phrase(x))
    ensures ToString(x) == Success(text)
  {
    ToStringIsRender(x);
  }

  /** A negative offset from now has no canonical text: it reads back as a positive one. */
  lemma NegativeFromNowRendering()
    ensures ToString(SnoozeTime(-60, true)) == Failure(InternalInconsistency)
  {
  }
}
