/** Worked examples of the list codec on hand-edited list texts. */
module ListExamples {
  import opened Results
  import opened Snooze
  import opened ListCodec

  /** The entries of "10m,,hello" are "10m", "" and "hello"; the empty one is dropped. */
  lemma SplitExample(list: string)
    requires list == "10m,,hello"
    ensures RemoveEmpty(Split(list)) == ["10m", "hello"]
  {
    var a, c := "10m", "hello";
    assert list == a + "," + "" + "," + c;
    assert NoComma(a) && NoComma(c);
    JoinThree(a, "", c);
    SplitJoin([a, "", c]);
    RemoveEmptyMiddle(a, "", c);
  }

  lemma JoinThree(a: string, b: string, c: string)
    ensures Join([a, b, c]) == a + "," + b + "," + c
  {
    assert [a, b, c][1..] == [b, c];
    assert [b, c][1..] == [c];
    assert Join([c]) == c;
    assert Join([b, c]) == b + "," + c;
    assert Join([a, b, c]) == a + "," + (b + "," + c);
  }

  lemma RemoveEmptyMiddle(a: string, b: string, c: string)
    requires |a| > 0 && |b| == 0 && |c| > 0
    ensures RemoveEmpty([a, b, c]) == [a, c]
  {
    assert [a, b, c][1..] == [b, c];
    assert [b, c][1..] == [c];
    assert [c][1..] == [];
  }

  /** An entry that does not parse fails the whole list, even after a good one. */
  lemma BadEntryExample(list: string)
    requires list == "10m,,hello"
    ensures ParseList(list) == Failure(MalformedOffset)
  {
    SplitExample(list);
    var texts := RemoveEmpty(Split(list));
    FirstFailure(texts, "10m", "hello");
  }

  /** The second of two entries fails with MalformedOffset after the first parses. */
  lemma FirstFailure(texts: seq<string>, good: string, bad: string)
    requires good == "10m" && bad == "hello" && texts == [good, bad]
    ensures MapAll(Parse, texts) == Failure(MalformedOffset)
  {
    FromNowExample(good);
    MalformedExamples();
    assert texts[1..] == [bad] && texts[1..][1..] == [];
  }
}
