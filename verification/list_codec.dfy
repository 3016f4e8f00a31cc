/**
 The comma-separated list codec: `SnoozeTime.ParseList`, which splits on ',',
 drops empty entries and parses the rest, and `SnoozeTime.ListToString`, which
 joins the canonical texts with ','.
 */
module ListCodec {
  import opened Text
  import opened Results
  import opened Numbers
  import opened Snooze
  import opened Format

  predicate NoComma(s: string) {
    forall i :: 0 <= i < |s| ==> s[i] != ','
  }

  /** `string.Join(",", segments)`. */
  function Join(segments: seq<string>): (r: string)
    ensures |segments| > 0 ==> segments[0] <= r && |segments| - 1 <= |r|
  {
    if |segments| == 0 then ""
    else if |segments| == 1 then segments[0]
    else segments[0] + "," + Join(segments[1..])
  }

  /** `s.Split(',')`: the comma-free segments between the commas, at least one. */
  function Split(s: string): (segments: seq<string>)
    ensures |segments| >= 1
    ensures Join(segments) == s
    ensures forall i :: 0 <= i < |segments| ==> NoComma(segments[i])
  {
    if |s| == 0 then [""]
    else
      var rest := Split(s[1..]);
      if s[0] == ',' then
        assert s == "" + "," + Join(rest);
        [""] + rest
      else
        var first := [s[0]] + rest[0];
        assert NoComma(first) by {
          assert forall i :: 1 <= i < |first| ==> first[i] == rest[0][i - 1];
        }
        var segments := [first] + rest[1..];
        assert Join(segments) == s by {
          if |rest| == 1 {
            assert s == [s[0]] + s[1..];
          } else {
            assert Join(rest) == rest[0] + "," + Join(rest[1..]);
            assert segments[1..] == rest[1..];
            assert s == [s[0]] + (rest[0] + "," + Join(rest[1..]));
          }
        }
        segments
  }

  /** Index of the first comma, or `|s|` when there is none. */
  function FirstComma(s: string): (k: nat)
    ensures k <= |s|
  {
    if |s| == 0 || s[0] == ',' then 0 else 1 + FirstComma(s[1..])
  }

  lemma {:induction false} FirstCommaAt(s: string, k: nat)
    requires k <= |s| && NoComma(s[..k]) && (k < |s| ==> s[k] == ',')
    ensures FirstComma(s) == k
    decreases k
  {
    if k > 0 {
      assert s[0] == s[..k][0];
      assert s[1..][..k - 1] == s[..k][1..];
      FirstCommaAt(s[1..], k - 1);
    }
  }

  /** The join of two or more comma-free segments is the first segment, a comma and the join of the rest. */
  lemma JoinFirst(r: seq<string>)
    requires |r| >= 1 && forall i :: 0 <= i < |r| ==> NoComma(r[i])
    ensures FirstComma(Join(r)) == |Join(r)| <==> |r| == 1
    ensures |r| >= 2 ==> && FirstComma(Join(r)) == |r[0]|
                         && Join(r)[..|r[0]|] == r[0]
                         && Join(r)[|r[0]| + 1..] == Join(r[1..])
  {
    var j := Join(r);
    if |r| == 1 {
      assert j[..|j|] == r[0];
      FirstCommaAt(j, |j|);
    } else {
      assert j[..|r[0]|] == r[0];
      assert j[|r[0]|] == ',';
      FirstCommaAt(j, |r[0]|);
      assert j[|r[0]| + 1..] == Join(r[1..]);
    }
  }

  /** Joining comma-free segments loses nothing: the joined text determines the segments. */
  lemma {:induction false} JoinInjective(r1: seq<string>, r2: seq<string>)
    requires |r1| >= 1 && |r2| >= 1
    requires forall i :: 0 <= i < |r1| ==> NoComma(r1[i])
    requires forall i :: 0 <= i < |r2| ==> NoComma(r2[i])
    requires Join(r1) == Join(r2)
    ensures r1 == r2
  {
    JoinFirst(r1);
    JoinFirst(r2);
    assert |r1| == 1 <==> |r2| == 1;
    if |r1| >= 2 {
      assert r1[0] == r2[0];
      JoinInjective(r1[1..], r2[1..]);
      assert r1 == [r1[0]] + r1[1..];
      assert r2 == [r2[0]] + r2[1..];
    }
  }

  /** Splitting the join of comma-free segments gives the segments back. */
  lemma SplitJoin(segments: seq<string>)
    requires |segments| >= 1
    requires forall i :: 0 <= i < |segments| ==> NoComma(segments[i])
    ensures Split(Join(segments)) == segments
  {
    JoinInjective(Split(Join(segments)), segments);
  }

  /** `StringSplitOptions.RemoveEmptyEntries`: the non-empty segments, in order. */
  function RemoveEmpty(segments: seq<string>): (r: seq<string>)
    ensures forall i :: 0 <= i < |r| ==> |r[i]| > 0
    ensures (forall i :: 0 <= i < |segments| ==> |segments[i]| > 0) ==> r == segments
  {
    if |segments| == 0 then []
    else if |segments[0]| == 0 then RemoveEmpty(segments[1..])
    else [segments[0]] + RemoveEmpty(segments[1..])
  }

  /** A single segment is kept exactly when it is not empty. */
  lemma RemoveEmptySingle(s: string)
    ensures RemoveEmpty([s]) == if |s| == 0 then [] else [s]
  {
    assert [s][1..] == [];
  }

  /** The entries kept are exactly the non-empty segments. */
  lemma {:induction false} RemoveEmptyKeeps(segments: seq<string>)
    ensures forall s :: s in RemoveEmpty(segments) <==> s in segments && |s| > 0
  {
    if |segments| > 0 {
      RemoveEmptyKeeps(segments[1..]);
      assert segments == [segments[0]] + segments[1..];
    }
  }

  /**
   Removing the empty segments works piecewise, so with RemoveEmptySingle it
   keeps exactly the non-empty segments in their order.
   */
  lemma {:induction false} RemoveEmptyConcat(a: seq<string>, b: seq<string>)
    ensures RemoveEmpty(a + b) == RemoveEmpty(a) + RemoveEmpty(b)
    decreases |a|
  {
    var ab := a + b;
    if |a| == 0 {
      assert ab == b;
    } else {
      assert ab[0] == a[0] && ab[1..] == a[1..] + b;
      RemoveEmptyConcat(a[1..], b);
      var tail := RemoveEmpty(a[1..]);
      if |a[0]| == 0 {
        assert RemoveEmpty(ab) == RemoveEmpty(ab[1..]);
        assert RemoveEmpty(a) == tail;
      } else {
        assert RemoveEmpty(ab) == [a[0]] + RemoveEmpty(ab[1..]);
        assert RemoveEmpty(a) == [a[0]] + tail;
        assert [a[0]] + (tail + RemoveEmpty(b)) == ([a[0]] + tail) + RemoveEmpty(b);
      }
    }
  }

  /**
   `new List<B>(xs.Select(f))`: `f` applied to each element in order; the first
   failure is the exception that escapes and no list is built.
   */
  function MapAll<A, B, E>(f: A -> Result<B, E>, xs: seq<A>): (r: Result<seq<B>, E>)
    ensures r.Success? <==> forall i :: 0 <= i < |xs| ==> f(xs[i]).Success?
    ensures r.Success? ==> |r.value| == |xs| && forall i :: 0 <= i < |xs| ==> f(xs[i]) == Success(r.value[i])
    ensures r.Failure? ==> exists i :: && 0 <= i < |xs|
                                      && f(xs[i]) == Failure(r.error)
                                      && forall j :: 0 <= j < i ==> f(xs[j]).Success?
  {
    if |xs| == 0 then Success([])
    else
      match f(xs[0])
      case Failure(e) => Failure(e)
      case Success(y) =>
        match MapAll(f, xs[1..])
        case Failure(e) =>
          ghost var i :| && 0 <= i < |xs[1..]| && f(xs[1..][i]) == Failure(e)
                         && forall j :: 0 <= j < i ==> f(xs[1..][j]).Success?;
          assert f(xs[i + 1]) == Failure(e);
          Failure(e)
        case Success(ys) => Success([y] + ys)
  }

  /**
   `SnoozeTime.ParseList`: split on commas, drop the empty entries, parse the
   rest in order; the first entry that does not parse fails the whole list.
   */
  function ParseList(list: string): (r: Result<seq<SnoozeTime>, Error>)
    ensures var texts := RemoveEmpty(Split(list));
            && (r.Success? <==> forall i :: 0 <= i < |texts| ==> Parse(texts[i]).Success?)
            && (r.Success? ==> && |r.value| == |texts|
                               && forall i :: 0 <= i < |texts| ==> Parse(texts[i]) == Success(r.value[i]))
            && (r.Failure? ==> exists i :: && 0 <= i < |texts|
                                           && Parse(texts[i]) == Failure(r.error)
                                           && forall j :: 0 <= j < i ==> Parse(texts[j]).Success?)
    ensures r.Success? ==> forall i :: 0 <= i < |r.value| ==> HasCanonicalText(r.value[i])
  {
    var r := ParseEntries(Parse, list);
    if r.Success? then
      var texts := RemoveEmpty(Split(list));
      forall i | 0 <= i < |r.value| ensures HasCanonicalText(r.value[i]) {
        ParsedRoundTrip(texts[i]);
      }
      r
    else r
  }

  /** The non-empty comma-separated entries of `list`, each read by `f`, in order; the first failure escapes. */
  function ParseEntries<B, E>(f: string -> Result<B, E>, list: string): (r: Result<seq<B>, E>)
    ensures var texts := RemoveEmpty(Split(list));
            && (r.Success? <==> forall i :: 0 <= i < |texts| ==> f(texts[i]).Success?)
            && (r.Success? ==> && |r.value| == |texts|
                               && forall i :: 0 <= i < |texts| ==> f(texts[i]) == Success(r.value[i]))
            && (r.Failure? ==> exists i :: && 0 <= i < |texts|
                                           && f(texts[i]) == Failure(r.error)
                                           && forall j :: 0 <= j < i ==> f(texts[j]).Success?)
  {
    var texts := RemoveEmpty(Split(list));
    var r := MapAll(f, texts);
    assert r.Success? ==> forall i :: 0 <= i < |texts| ==> f(texts[i]).Success?;
    r
  }

  /**
   `SnoozeTime.ListToString`: `string.Join(",", list)`, which calls ToString on
   each offset in order; the first ToString that throws fails the whole call.
   */
  function ListToString(list: seq<SnoozeTime>): (r: Result<string, Error>)
    ensures r.Success? <==> forall i :: 0 <= i < |list| ==> HasCanonicalText(list[i])
    ensures r.Success? ==> exists texts :: && |texts| == |list|
                                           && (forall i :: 0 <= i < |list| ==> ToString(list[i]) == Success(texts[i]))
                                           && r.value == Join(texts)
    ensures r.Failure? ==> exists i :: && 0 <= i < |list|
                                       && ToString(list[i]) == Failure(r.error)
                                       && forall j :: 0 <= j < i ==> ToString(list[j]).Success?
  {
    JoinAll(ToString, list)
  }

  /** Each element rendered by `f`, in order, joined with commas; the first failure escapes. */
  function JoinAll<A, E>(f: A -> Result<string, E>, xs: seq<A>): (r: Result<string, E>)
    ensures r.Success? <==> forall i :: 0 <= i < |xs| ==> f(xs[i]).Success?
    ensures r.Success? ==> exists texts :: && |texts| == |xs|
                                           && (forall i :: 0 <= i < |xs| ==> f(xs[i]) == Success(texts[i]))
                                           && r.value == Join(texts)
    ensures r.Failure? ==> exists i :: && 0 <= i < |xs|
                                       && f(xs[i]) == Failure(r.error)
                                       && forall j :: 0 <= j < i ==> f(xs[j]).Success?
  {
    match MapAll(f, xs)
    case Failure(e) => Failure(e)
    case Success(texts) => Success(Join(texts))
  }

  /** The rendered text of an offset is never empty and has no comma. */
  lemma RenderSegment(x: SnoozeTime)
    ensures |Render(x)| > 0 && NoComma(Render(x))
  {
    RenderShape(x);
    HeadFacts(x);
    UnitNameFacts(Abs(x.secs));
    PhraseFacts(x);
    PiecesCharFree(x, ',');
    var s := Pieces(x);
    forall i | 0 <= i < |s| ensures s[i] != ',' {
      assert Lower(s[i]) != ',';
    }
  }

  /**
   A list of offsets that all have canonical text is written without failure
   and parses back to the same list; the empty list is the empty string.
   */
  lemma ListRoundTrip(list: seq<SnoozeTime>)
    requires forall i :: 0 <= i < |list| ==> HasCanonicalText(list[i])
    ensures ListToString(list).Success?
    ensures ParseList(ListToString(list).value) == Success(list)
  {
    var texts := MapAll(ToString, list).value;
    assert ListToString(list).value == Join(texts);
    forall i | 0 <= i < |texts| ensures |texts[i]| > 0 && NoComma(texts[i]) && Parse(texts[i]) == Success(list[i]) {
      ToStringIsRender(list[i]);
      RenderSegment(list[i]);
    }
    if |list| == 0 {
      assert Split("") == [""];
      assert RemoveEmpty([""]) == [];
    } else {
      SplitJoin(texts);
      assert RemoveEmpty(texts) == texts;
      MapAllSucceeds(Parse, texts, list);
    }
  }

  /** When every application succeeds, MapAll returns the list of results. */
  lemma MapAllSucceeds<A, B, E>(f: A -> Result<B, E>, xs: seq<A>, ys: seq<B>)
    requires |xs| == |ys|
    requires forall i :: 0 <= i < |xs| ==> f(xs[i]) == Success(ys[i])
    ensures MapAll(f, xs) == Success(ys)
  {
    var r := MapAll(f, xs);
    assert forall i :: 0 <= i < |xs| ==> f(xs[i]).Success?;
    assert r.Success?;
    assert |r.value| == |ys| && forall i :: 0 <= i < |ys| ==> r.value[i] == ys[i];
    assert r.value == ys;
  }
}
