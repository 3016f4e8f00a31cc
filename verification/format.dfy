/**
 `SnoozeTime.ToString`: the canonical text of an offset, in whole minutes when
 possible and seconds otherwise (never hours), checked by parsing it back.
 */
module Format {
  import opened Text
  import opened Results
  import opened Pattern
  import opened Numbers
  import opened Snooze

  /**
   `(Secs > 0) ? Secs : -Secs` on `int`: the magnitude, except that negating
   int.MinValue wraps back to int.MinValue, which is then rendered with its sign.
   */
  function AbsSecs(x: SnoozeTime): (a: Int32)
    ensures x.secs != Int32Min ==> a == Abs(x.secs)
    ensures x.secs == Int32Min ==> a == Int32Min
  {
    if x.secs > 0 then x.secs else Negate32(x.secs)
  }

  /** The amount is said in minutes when it is at least one minute and a whole number of them. */
  predicate InMinutes(n: int) {
    n >= 60 && n % 60 == 0
  }

  /** The number shown: minutes or seconds. */
  function Count(n: int): int {
    if InMinutes(n) then n / 60 else n
  }

  /** The unit name, singular only for exactly one unit. */
  function UnitName(n: int): string {
    if InMinutes(n) then (if n == 60 then "minute" else "minutes")
    else (if n == 1 then "second" else "seconds")
  }

  /** `$"{n / 60} minute{s}"` or `$"{n} second{s}"`. */
  function Amount(n: int): string {
    IntToString(Count(n)) + " " + UnitName(n)
  }

  function Phrase(x: SnoozeTime): string {
    if x.secs < 0 then "before start time" else "after start time"
  }

  /** `$"Remind in {t}"` from now, `$"Remind {t} {phrase}"` from the meeting start. */
  function Sentence(fromNow: bool, amount: string, phrase: string): string {
    if fromNow then "Remind in " + amount
    else "Remind " + amount + " " + phrase
  }

  /** The text ToString builds before its self-check. */
  function Render(x: SnoozeTime): (r: string)
    ensures |"Remind in "| < |r|
  {
    Sentence(x.fromNow, Amount(AbsSecs(x)), Phrase(x))
  }

  /** The offsets whose rendered text parses back to them. */
  predicate HasCanonicalText(x: SnoozeTime) {
    x.secs != 0 && (x.fromNow ==> x.secs > 0)
  }

  /**
   `SnoozeTime.ToString`: the rendered text when parsing it gives back the same
   offset. Otherwise the exception Parse raises on it escapes, or, when it
   parses to a different offset, the self-check raises InternalInconsistency.
   */
  function ToString(x: SnoozeTime): (r: Result<string, Error>)
    ensures r.Success? <==> HasCanonicalText(x)
    ensures r.Success? ==> Parse(r.value) == Success(x)
    ensures x.secs == 0 ==> r == Failure(NonPositiveMagnitude)
    ensures x.fromNow && x.secs < 0 ==> r == Failure(if x.secs == Int32Min then Overflow else InternalInconsistency)
  {
    var t := Render(x);
    ParseRender(x);
    match Parse(t)
    case Failure(e) => Failure(e)
    case Success(y) => if y == x then Success(t) else Failure(InternalInconsistency)
  }

  /** Every offset Parse produces has canonical text, and that text parses back to it. */
  lemma ParsedRoundTrip(text: string)
    requires Parse(text).Success?
    ensures HasCanonicalText(Parse(text).value)
    ensures Parse(ToString(Parse(text).value).value) == Parse(text)
  {
  }

  /** The successful text is the rendering, so its wording is described by the Render lemmas below. */
  lemma ToStringIsRender(x: SnoozeTime)
    requires HasCanonicalText(x)
    ensures ToString(x) == Success(Render(x))
  {
    ParseRender(x);
  }

  // ---------------------------------------------------------------------------
  // The rendered text, piece by piece: Head(x) + Digits(x) + Rest(x)

  ghost function Prefix(x: SnoozeTime): string {
    if x.fromNow then "Remind in " else "Remind "
  }

  ghost function Sign(x: SnoozeTime): string {
    if x.secs == Int32Min then "-" else ""
  }

  ghost function Head(x: SnoozeTime): string {
    Prefix(x) + Sign(x)
  }

  ghost function Digits(x: SnoozeTime): string {
    NatToString(Count(Abs(x.secs)))
  }

  ghost function Suffix(x: SnoozeTime): string {
    if x.fromNow then "" else " " + Phrase(x)
  }

  ghost function Rest(x: SnoozeTime): string {
    " " + (UnitName(Abs(x.secs)) + Suffix(x))
  }

  ghost function Pieces(x: SnoozeTime): string {
    Head(x) + Digits(x) + Rest(x)
  }

  lemma Regroup(p: string, s: string, d: string, u: string, t: string)
    ensures p + (s + d + " " + u) + t == (p + s) + d + (" " + (u + t))
  {
  }

  /** The amount of the wrapped magnitude is the sign, the digits of the true magnitude and its unit name. */
  lemma AmountShape(x: SnoozeTime)
    ensures Amount(AbsSecs(x)) == Sign(x) + Digits(x) + " " + UnitName(Abs(x.secs))
  {
    if x.secs == Int32Min {
      assert !InMinutes(Abs(x.secs)) && !InMinutes(AbsSecs(x));
    } else {
      assert Count(AbsSecs(x)) >= 0;
      assert Sign(x) + Digits(x) == Digits(x);
    }
  }

  /** The rendered text is its three pieces. */
  lemma RenderShape(x: SnoozeTime)
    ensures Render(x) == Pieces(x)
  {
    var a := Amount(AbsSecs(x));
    RenderSplit(x);
    AmountShape(x);
    Regroup(Prefix(x), Sign(x), Digits(x), UnitName(Abs(x.secs)), Suffix(x));
  }

  lemma RenderSplit(x: SnoozeTime)
    ensures Render(x) == Prefix(x) + Amount(AbsSecs(x)) + Suffix(x)
  {
    SentenceSplit(x.fromNow, Amount(AbsSecs(x)), Phrase(x));
  }

  lemma SentenceSplit(fromNow: bool, amount: string, phrase: string)
    ensures Sentence(fromNow, amount, phrase)
            == (if fromNow then "Remind in " else "Remind ") + amount + (if fromNow then "" else " " + phrase)
  {
    if fromNow {
      assert amount + "" == amount;
    } else {
      Associate("Remind " + amount, " ", phrase);
    }
  }

  lemma Associate(a: string, b: string, c: string)
    ensures a + b + c == a + (b + c)
  {
  }

  lemma PrefixFacts(p: string)
    requires p == "Remind in " || p == "Remind "
    ensures forall i :: 0 <= i < |p| ==> !IsNumberChar(p[i])
    ensures CharFree(p, 's') && CharFree(p, 't') && CharFree(p, 'b') && CharFree(p, 'h') && CharFree(p, ',')
  {
  }

  /** The head has no number character and none of the letters s, t, b, h, so no keyword or unit word. */
  lemma HeadFacts(x: SnoozeTime)
    ensures forall i :: 0 <= i < |Head(x)| ==> !IsNumberChar(Head(x)[i])
    ensures CharFree(Head(x), 'h') && CharFree(Head(x), ',')
    ensures !ContainsIgnoreCase(Head(x), "start") && !ContainsIgnoreCase(Head(x), "after") && !ContainsIgnoreCase(Head(x), "before")
    ensures !ContainsIgnoreCase(Head(x), "minute") && !ContainsIgnoreCase(Head(x), "minutes")
    ensures !ContainsIgnoreCase(Head(x), "second") && !ContainsIgnoreCase(Head(x), "seconds")
  {
    var p, h := Prefix(x), Head(x);
    PrefixFacts(p);
    forall i | 0 <= i < |h|
      ensures !IsNumberChar(h[i]) && Lower(h[i]) != 's' && Lower(h[i]) != 't' && Lower(h[i]) != 'b' && Lower(h[i]) != 'h'
      ensures Lower(h[i]) != ','
    {
      if i < |p| {
        assert h[i] == p[i];
      } else {
        assert h[i] == '-';
      }
    }
    CharFreeNotContained(h, "start", 0);
    CharFreeNotContained(h, "after", 2);
    CharFreeNotContained(h, "before", 0);
    CharFreeNotContained(h, "minute", 4);
    CharFreeNotContained(h, "minutes", 4);
    CharFreeNotContained(h, "second", 0);
    CharFreeNotContained(h, "seconds", 0);
  }

  lemma RestStart(x: SnoozeTime)
    ensures 2 <= |Rest(x)| && Rest(x)[0] == ' '
    ensures Rest(x)[1] == if InMinutes(Abs(x.secs)) then 'm' else 's'
  {
    var u := UnitName(Abs(x.secs));
    assert u[0] == if InMinutes(Abs(x.secs)) then 'm' else 's';
    assert Rest(x)[1] == (u + Suffix(x))[0];
  }

  lemma UnitNameFacts(n: int)
    ensures CharFree(UnitName(n), 'h') && CharFree(UnitName(n), ',')
    ensures !ContainsIgnoreCase(UnitName(n), "start") && !ContainsIgnoreCase(UnitName(n), "after")
    ensures !ContainsIgnoreCase(UnitName(n), "before")
    ensures ContainsIgnoreCase(UnitName(n), "minute") <==> InMinutes(n)
    ensures ContainsIgnoreCase(UnitName(n), "minutes") <==> InMinutes(n) && n != 60
    ensures ContainsIgnoreCase(UnitName(n), "second") <==> !InMinutes(n)
    ensures ContainsIgnoreCase(UnitName(n), "seconds") <==> !InMinutes(n) && n != 1
  {
    var u := UnitName(n);
    CharFreeNotContained(u, "start", 2);
    CharFreeNotContained(u, "after", 0);
    CharFreeNotContained(u, "before", 0);
    if InMinutes(n) {
      assert OccursAt(u, "minute", 0);
      CharFreeNotContained(u, "second", 2);
      CharFreeNotContained(u, "seconds", 2);
      if n != 60 {
        assert OccursAt(u, "minutes", 0);
      }
    } else {
      assert OccursAt(u, "second", 0);
      CharFreeNotContained(u, "minute", 3);
      CharFreeNotContained(u, "minutes", 3);
      if n != 1 {
        assert OccursAt(u, "seconds", 0);
      }
    }
  }

  lemma PhraseFacts(x: SnoozeTime)
    ensures CharFree(Phrase(x), 'h') && CharFree(Phrase(x), ',')
    ensures ContainsIgnoreCase(Phrase(x), "start")
    ensures ContainsIgnoreCase(Phrase(x), "after") <==> x.secs >= 0
    ensures ContainsIgnoreCase(Phrase(x), "before") <==> x.secs < 0
    ensures !ContainsIgnoreCase(Phrase(x), "minute") && !ContainsIgnoreCase(Phrase(x), "minutes")
    ensures !ContainsIgnoreCase(Phrase(x), "second") && !ContainsIgnoreCase(Phrase(x), "seconds")
  {
    if x.secs < 0 {
      BeforePhraseFacts(Phrase(x));
    } else {
      AfterPhraseFacts(Phrase(x));
    }
    NoUnitName(Phrase(x));
  }

  lemma NoUnitName(t: string)
    requires CharFree(t, 'u') && CharFree(t, 'c')
    ensures !ContainsIgnoreCase(t, "minute") && !ContainsIgnoreCase(t, "minutes")
    ensures !ContainsIgnoreCase(t, "second") && !ContainsIgnoreCase(t, "seconds")
  {
    CharFreeNotContained(t, "minute", 3);
    CharFreeNotContained(t, "minutes", 3);
    CharFreeNotContained(t, "second", 2);
    CharFreeNotContained(t, "seconds", 2);
  }

  lemma BeforePhraseFacts(t: string)
    requires t == "before start time"
    ensures CharFree(t, 'h') && CharFree(t, 'u') && CharFree(t, 'c') && CharFree(t, ',')
    ensures OccursAt(t, "before", 0) && OccursAt(t, "start", 7)
    ensures !ContainsIgnoreCase(t, "after")
  {
    PairFreeNotContained(t, "after", 0);
  }

  lemma AfterPhraseFacts(t: string)
    requires t == "after start time"
    ensures CharFree(t, 'h') && CharFree(t, 'u') && CharFree(t, 'c') && CharFree(t, ',')
    ensures OccursAt(t, "after", 0) && OccursAt(t, "start", 6)
    ensures !ContainsIgnoreCase(t, "before")
  {
    CharFreeNotContained(t, "before", 0);
  }

  /** A character that is no digit or space, and is absent from the head, the unit name and the phrase, is absent from the pieces. */
  lemma PiecesCharFree(x: SnoozeTime, c: char)
    requires c != ' ' && !IsDigit(c)
    requires CharFree(Head(x), c) && CharFree(UnitName(Abs(x.secs)), c) && CharFree(Phrase(x), c)
    ensures CharFree(Pieces(x), c)
  {
    var h, d, u, t := Head(x), Digits(x), UnitName(Abs(x.secs)), Suffix(x);
    assert CharFree(d, c) by {
      forall p | 0 <= p < |d| ensures Lower(d[p]) != c {
        assert IsDigit(d[p]);
      }
    }
    assert CharFree(" ", c);
    if !x.fromNow {
      CharFreeConcat(" ", Phrase(x), c);
    }
    CharFreeConcat(u, t, c);
    CharFreeConcat(" ", u + t, c);
    CharFreeConcat(h, d, c);
    CharFreeConcat(h + d, Rest(x), c);
  }

  /** A word of letters occurs in the pieces exactly when it occurs in the head, the unit name or the phrase. */
  lemma PiecesContain(x: SnoozeTime, w: string)
    requires IsWord(w)
    ensures ContainsIgnoreCase(Pieces(x), w) <==>
              || ContainsIgnoreCase(Head(x), w)
              || ContainsIgnoreCase(UnitName(Abs(x.secs)), w)
              || (!x.fromNow && ContainsIgnoreCase(Phrase(x), w))
  {
    ContainsSplit(Head(x), Digits(x), UnitName(Abs(x.secs)), Suffix(x), Phrase(x), !x.fromNow, w);
  }

  /** The same split over any head, digits, unit name and optional phrase. */
  lemma ContainsSplit(head: string, digits: string, unit: string, suffix: string, phrase: string, hasPhrase: bool, w: string)
    requires IsWord(w) && 0 < |digits| && AllDigits(digits)
    requires suffix == if hasPhrase then " " + phrase else ""
    ensures ContainsIgnoreCase(head + digits + (" " + (unit + suffix)), w) <==>
              || ContainsIgnoreCase(head, w)
              || ContainsIgnoreCase(unit, w)
              || (hasPhrase && ContainsIgnoreCase(phrase, w))
  {
    var rest := " " + (unit + suffix);
    assert forall k :: 0 <= k < |w| ==> !IsDigit(Lower(w[k]));
    DigitsDisjoint(digits, w);
    ContainsAround(head, digits, rest, w);
    assert Disjoint(" ", w);
    assert rest == "" + " " + (unit + suffix);
    ContainsAround("", " ", unit + suffix, w);
    if hasPhrase {
      assert unit + suffix == unit + " " + phrase;
      ContainsAround(unit, " ", phrase, w);
    } else {
      assert unit + suffix == unit;
    }
  }

  /** In `head + digits + rest`, with no number character in `head` and a unit letter after one space, the leftmost match is the digits. */
  lemma MatchAfterHead(text: string, head: string, digits: string, rest: string)
    requires text == head + digits + rest
    requires forall p :: 0 <= p < |head| ==> !IsNumberChar(head[p])
    requires 0 < |digits| && AllDigits(digits)
    requires 2 <= |rest| && rest[0] == ' ' && IsUnitChar(rest[1])
    ensures var m := Match(|head|, |head| + |digits|, |head| + |digits| + 1);
            && IsLeftmostMatch(text, m)
            && text[m.start..m.numberEnd] == digits
            && text[m.unit] == rest[1]
  {
    var m := Match(|head|, |head| + |digits|, |head| + |digits| + 1);
    assert text[m.start..m.numberEnd] == digits;
    assert text[m.numberEnd] == rest[0];
    assert text[m.unit] == rest[1];
    assert IsMatch(text, m.start, m.numberEnd, m.unit);
    forall i: nat, j: nat, k: nat | i < m.start ensures !IsMatch(text, i, j, k) {
      assert text[i] == head[i];
    }
  }

  /** The leftmost match in the pieces is the count, one space and the first letter of the unit name. */
  lemma PiecesMatch(x: SnoozeTime)
    ensures var h := Head(x);
            var digits := Digits(x);
            var m := Match(|h|, |h| + |digits|, |h| + |digits| + 1);
            && IsLeftmostMatch(Pieces(x), m)
            && Pieces(x)[m.start..m.numberEnd] == digits
            && Pieces(x)[m.unit] == if InMinutes(Abs(x.secs)) then 'm' else 's'
  {
    var h, digits, rest := Head(x), Digits(x), Rest(x);
    assert forall p :: 0 <= p < |h| ==> !IsNumberChar(h[p]) by {
      HeadFacts(x);
    }
    RestStart(x);
    MatchAfterHead(Pieces(x), h, digits, rest);
  }

  lemma PiecesStart(x: SnoozeTime)
    ensures ContainsIgnoreCase(Pieces(x), "start") <==> !x.fromNow
  {
    HeadFacts(x);
    UnitNameFacts(Abs(x.secs));
    PhraseFacts(x);
    KnownWords("start");
    PiecesContain(x, "start");
  }

  lemma PiecesAfter(x: SnoozeTime)
    ensures ContainsIgnoreCase(Pieces(x), "after") <==> !x.fromNow && x.secs >= 0
  {
    HeadFacts(x);
    UnitNameFacts(Abs(x.secs));
    PhraseFacts(x);
    KnownWords("after");
    PiecesContain(x, "after");
  }

  lemma PiecesBefore(x: SnoozeTime)
    ensures ContainsIgnoreCase(Pieces(x), "before") <==> !x.fromNow && x.secs < 0
  {
    HeadFacts(x);
    UnitNameFacts(Abs(x.secs));
    PhraseFacts(x);
    KnownWords("before");
    PiecesContain(x, "before");
  }

  /**
   The wording of the rendered text: whole minutes are said in minutes and
   everything else in seconds, singular only for exactly one unit, and hours are
   never used.
   */
  lemma RenderWording(x: SnoozeTime)
    ensures !ContainsIgnoreCase(Render(x), "h")
    ensures ContainsIgnoreCase(Render(x), "minute") <==> InMinutes(Abs(x.secs))
    ensures ContainsIgnoreCase(Render(x), "minutes") <==> InMinutes(Abs(x.secs)) && Abs(x.secs) != 60
    ensures ContainsIgnoreCase(Render(x), "second") <==> !InMinutes(Abs(x.secs))
    ensures ContainsIgnoreCase(Render(x), "seconds") <==> !InMinutes(Abs(x.secs)) && Abs(x.secs) != 1
  {
    RenderShape(x);
    PiecesWording(x);
  }

  /**
   The frame around the amount: "Remind in " exactly for offsets from now, and
   for offsets from the meeting start " before start time" when negative and
   " after start time" otherwise.
   */
  lemma RenderFrame(x: SnoozeTime)
    ensures StartsWith(Render(x), "Remind ")
    ensures StartsWith(Render(x), "Remind in ") <==> x.fromNow
    ensures !x.fromNow && x.secs < 0 ==> EndsWith(Render(x), " before start time")
    ensures !x.fromNow && x.secs >= 0 ==> EndsWith(Render(x), " after start time")
  {
    SpacedPhrase(x, " " + Phrase(x));
    var a := Amount(AbsSecs(x));
    var r := Sentence(x.fromNow, a, Phrase(x));
    AmountFirst(AbsSecs(x));
    SentenceFrame(x.fromNow, a, Phrase(x));
    assert Render(x) == r;
  }

  lemma SpacedPhrase(x: SnoozeTime, t: string)
    requires t == " " + Phrase(x)
    ensures x.secs < 0 ==> t == " before start time"
    ensures x.secs >= 0 ==> t == " after start time"
  {
  }

  /** An amount starts with a digit or a minus sign, never with a letter. */
  lemma AmountFirst(n: int)
    ensures 0 < |Amount(n)| && Amount(n)[0] != 'i'
  {
    var d := IntToString(Count(n));
    assert Amount(n) == d + (" " + UnitName(n));
    if Count(n) >= 0 {
      assert IsDigit(d[0]);
    }
  }

  lemma SentenceFrame(fromNow: bool, amount: string, phrase: string)
    requires 0 < |amount| && amount[0] != 'i'
    ensures var r := Sentence(fromNow, amount, phrase);
            && StartsWith(r, "Remind ")
            && (StartsWith(r, "Remind in ") <==> fromNow)
            && (!fromNow ==> EndsWith(r, " " + phrase))
  {
    var r := Sentence(fromNow, amount, phrase);
    if fromNow {
      assert r[..10] == "Remind in ";
      assert r[..7] == "Remind ";
    } else {
      var h := "Remind " + amount;
      assert r == h + (" " + phrase);
      assert r[..7] == h[..7] == "Remind ";
      assert r[7] == amount[0];
      assert r[|r| - |" " + phrase|..] == " " + phrase;
    }
  }

  lemma PiecesWording(x: SnoozeTime)
    ensures !ContainsIgnoreCase(Pieces(x), "h")
    ensures ContainsIgnoreCase(Pieces(x), "minute") <==> InMinutes(Abs(x.secs))
    ensures ContainsIgnoreCase(Pieces(x), "minutes") <==> InMinutes(Abs(x.secs)) && Abs(x.secs) != 60
    ensures ContainsIgnoreCase(Pieces(x), "second") <==> !InMinutes(Abs(x.secs))
    ensures ContainsIgnoreCase(Pieces(x), "seconds") <==> !InMinutes(Abs(x.secs)) && Abs(x.secs) != 1
  {
    assert !ContainsIgnoreCase(Pieces(x), "h") by {
      HeadFacts(x);
      UnitNameFacts(Abs(x.secs));
      PhraseFacts(x);
      KnownWords("h");
      PiecesContain(x, "h");
      CharFreeNotContained(Head(x), "h", 0);
      CharFreeNotContained(UnitName(Abs(x.secs)), "h", 0);
      CharFreeNotContained(Phrase(x), "h", 0);
    }
    assert ContainsIgnoreCase(Pieces(x), "minute") <==> InMinutes(Abs(x.secs)) by {
      UnitNameFacts(Abs(x.secs));
      PiecesUnitWord(x, "minute");
    }
    assert ContainsIgnoreCase(Pieces(x), "minutes") <==> InMinutes(Abs(x.secs)) && Abs(x.secs) != 60 by {
      UnitNameFacts(Abs(x.secs));
      PiecesUnitWord(x, "minutes");
    }
    assert ContainsIgnoreCase(Pieces(x), "second") <==> !InMinutes(Abs(x.secs)) by {
      UnitNameFacts(Abs(x.secs));
      PiecesUnitWord(x, "second");
    }
    assert ContainsIgnoreCase(Pieces(x), "seconds") <==> !InMinutes(Abs(x.secs)) && Abs(x.secs) != 1 by {
      UnitNameFacts(Abs(x.secs));
      PiecesUnitWord(x, "seconds");
    }
  }

  /** A unit word occurs in the pieces exactly when it occurs in the unit name. */
  lemma PiecesUnitWord(x: SnoozeTime, w: string)
    requires w in ["minute", "minutes", "second", "seconds"]
    ensures ContainsIgnoreCase(Pieces(x), w) <==> ContainsIgnoreCase(UnitName(Abs(x.secs)), w)
  {
    HeadFacts(x);
    PhraseFacts(x);
    KnownWords(w);
    PiecesContain(x, w);
  }

  /** Parsing the rendered text reads back the amount, the reference point and the sign. */
  lemma ParseRender(x: SnoozeTime)
    ensures x.secs == 0 ==> Parse(Render(x)) == Failure(NonPositiveMagnitude)
    ensures x.secs != 0 && (x.fromNow ==> x.secs != Int32Min) ==>
              Parse(Render(x)) == Success(SnoozeTime(if x.fromNow then Abs(x.secs) else x.secs, x.fromNow))
    ensures x.fromNow && x.secs == Int32Min ==> Parse(Render(x)) == Failure(Overflow)
  {
    RenderShape(x);
    ParsePieces(x);
  }

  /** The count times its unit's seconds is the magnitude again. */
  lemma CountScaled(n: nat)
    ensures Count(n) * UnitSeconds(if InMinutes(n) then 'm' else 's') == n
  {
  }

  /** Where the number and unit of the pieces are, what they are worth, and which keywords occur. */
  lemma ReadPieces(x: SnoozeTime)
    ensures var text := Pieces(x);
            var m := Match(|Head(x)|, |Head(x)| + |Digits(x)|, |Head(x)| + |Digits(x)| + 1);
            && IsLeftmostMatch(text, m)
            && AllDigits(text[m.start..m.numberEnd])
            && DigitsValue(text[m.start..m.numberEnd]) * UnitSeconds(text[m.unit]) == Abs(x.secs)
            && (StartTimeRelative(text) <==> !x.fromNow)
            && (ContainsIgnoreCase(text, "after") <==> !x.fromNow && x.secs >= 0)
  {
    var text := Pieces(x);
    var h, digits := Head(x), Digits(x);
    var m := Match(|h|, |h| + |digits|, |h| + |digits| + 1);
    assert IsLeftmostMatch(text, m) && text[m.start..m.numberEnd] == digits
        && text[m.unit] == (if InMinutes(Abs(x.secs)) then 'm' else 's') by {
      PiecesMatch(x);
    }
    assert DigitsValue(digits) * UnitSeconds(text[m.unit]) == Abs(x.secs) by {
      CountScaled(Abs(x.secs));
    }
    assert StartTimeRelative(text) <==> !x.fromNow by {
      PiecesStart(x);
      PiecesAfter(x);
      PiecesBefore(x);
    }
    PiecesAfter(x);
  }

  lemma ParsePieces(x: SnoozeTime)
    ensures x.secs == 0 ==> Parse(Pieces(x)) == Failure(NonPositiveMagnitude)
    ensures x.secs != 0 && (x.fromNow ==> x.secs != Int32Min) ==>
              Parse(Pieces(x)) == Success(SnoozeTime(if x.fromNow then Abs(x.secs) else x.secs, x.fromNow))
    ensures x.fromNow && x.secs == Int32Min ==> Parse(Pieces(x)) == Failure(Overflow)
  {
    var text := Pieces(x);
    var m := Match(|Head(x)|, |Head(x)| + |Digits(x)|, |Head(x)| + |Digits(x)| + 1);
    ReadPieces(x);
    ParseWholeNumber(text, m, Abs(x.secs), !x.fromNow, !x.fromNow && x.secs >= 0);
  }
}
