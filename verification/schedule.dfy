/**
 `SnoozeTime.GetNextReminderTime`: the instant at which a reminder fires next.
 Instants are whole seconds on one time line; the current time is passed in
 instead of being read from the clock.
 */
module Schedule {
  import opened Text
  import opened Results
  import opened Snooze

  /** The offset applied to the current time when it is from now, and to the meeting start otherwise. */
  function NextReminderTime(x: SnoozeTime, startTime: int, now: int): (t: int)
    ensures x.fromNow ==> t - now == x.secs
    ensures !x.fromNow ==> t - startTime == x.secs
    ensures !x.fromNow ==> (t < startTime <==> x.secs < 0)
  {
    (if x.fromNow then now else startTime) + x.secs
  }

  /**
   For a parsed offset: text that names the start but not "after" fires before
   the meeting starts, text with "after" fires after it, and any other text
   fires strictly later than now.
   */
  lemma ParsedReminderTime(text: string, startTime: int, now: int)
    requires Parse(text).Success?
    ensures var t := NextReminderTime(Parse(text).value, startTime, now);
            && (StartTimeRelative(text) && !ContainsIgnoreCase(text, "after") ==> t < startTime)
            && (ContainsIgnoreCase(text, "after") ==> t > startTime)
            && (!StartTimeRelative(text) ==> t > now)
  {
  }
}
