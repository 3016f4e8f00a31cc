/**
 `SnoozeTime.CompareTo`, the order in which offsets are listed: offsets from the
 meeting start come before offsets from now, and within each group larger
 offsets come first.

 As written, the comparison subtracts the two `int` second counts in 32-bit
 arithmetic, which wraps around when they are far apart (CompareToAsWritten).
 The model uses the comparison the code evidently intends, with the difference
 taken exactly (CompareTo).
 */
module Ordering {
  import opened Numbers
  import opened Snooze

  /** The display order: start-relative before from-now, and larger offsets first within a group. */
  predicate Precedes(a: SnoozeTime, b: SnoozeTime) {
    || (!a.fromNow && b.fromNow)
    || (a.fromNow == b.fromNow && a.secs > b.secs)
  }

  /** `a.CompareTo(b)` with `other.Secs - Secs` taken without overflow. */
  function CompareTo(a: SnoozeTime, b: SnoozeTime): (r: int)
    ensures r == 0 <==> a == b
    ensures r < 0 <==> Precedes(a, b)
    ensures r > 0 <==> Precedes(b, a)
  {
    if a.fromNow == b.fromNow then b.secs - a.secs
    else if a.fromNow then 1
    else -1
  }

  /** `a.CompareTo(b)` as written: the subtraction wraps around in 32 bits. */
  function CompareToAsWritten(a: SnoozeTime, b: SnoozeTime): (r: Int32)
    ensures IsInt32(b.secs - a.secs) ==> r == CompareTo(a, b)
  {
    if a.fromNow == b.fromNow then Wrap32(b.secs - a.secs)
    else if a.fromNow then 1
    else -1
  }

  /** The order is antisymmetric: swapping the operands negates the comparison. */
  lemma CompareAntisymmetric(a: SnoozeTime, b: SnoozeTime)
    ensures CompareTo(a, b) == -CompareTo(b, a)
  {
  }

  /** Precedes is a strict total order, so sorting by CompareTo is well defined. */
  lemma PrecedesStrictTotalOrder(a: SnoozeTime, b: SnoozeTime, c: SnoozeTime)
    ensures !Precedes(a, a)
    ensures Precedes(a, b) ==> !Precedes(b, a)
    ensures Precedes(a, b) && Precedes(b, c) ==> Precedes(a, c)
    ensures a == b || Precedes(a, b) || Precedes(b, a)
  {
  }

  /**
   Two start-relative offsets about 2^31 seconds apart each compare below the
   other under the as-written comparison, so it is not an order; the intended
   comparison puts the later one first.
   */
  lemma CompareWrapCounterexample()
    ensures var a := SnoozeTime(-0x7FFF_FFFF, false);
            var b := SnoozeTime(1, false);
            && CompareToAsWritten(a, b) < 0
            && CompareToAsWritten(b, a) < 0
            && CompareTo(a, b) > 0
            && CompareTo(b, a) < 0
  {
    var a := SnoozeTime(-0x7FFF_FFFF, false);
    var b := SnoozeTime(1, false);
    assert CompareToAsWritten(a, b) == Int32Min;
    assert CompareToAsWritten(b, a) == Int32Min;
  }

  /**
   Sorting 10 minutes from now, 5 minutes before the start and 5 minutes after
   the start lists 5 minutes after the start first and 10 minutes from now last.
   */
  lemma DisplayOrderExample()
    ensures var later := SnoozeTime(600, true);
            var before := SnoozeTime(-300, false);
            var after := SnoozeTime(300, false);
            && CompareTo(after, before) < 0
            && CompareTo(before, later) < 0
            && CompareTo(after, later) < 0
  {
  }
}
