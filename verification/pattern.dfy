/**
 The regular expression `([\d.]+) *(s|h|m)` searched with `RegexOptions.IgnoreCase`,
 written as a scan over the text.

 A match starting at a given index is unique (MatchUnique): the number group must
 be the whole run of `[\d.]` characters from that index, because the character
 after a shorter run is a digit or a point, never a space or a unit letter; and
 the spaces must all be consumed for the same reason. So the greedy, backtracking
 engine reports exactly the leftmost match, which is what FindMatch computes.
 */
module Pattern {
  import opened Text
  import opened Results

  /** `[\d.]`, with `\d` restricted to the ASCII digits. */
  predicate IsNumberChar(c: char) {
    IsDigit(c) || c == '.'
  }

  /** `(s|h|m)` under case-insensitive matching. */
  predicate IsUnitChar(c: char) {
    Lower(c) == 's' || Lower(c) == 'h' || Lower(c) == 'm'
  }

  /**
   `s` has a match of the pattern starting at `i`, whose first group is
   `s[i..j]` and whose second group is the single character `s[k]`.
   */
  predicate IsMatch(s: string, i: nat, j: nat, k: nat) {
    && i < j <= k < |s|
    && (forall p :: i <= p < j ==> IsNumberChar(s[p]))
    && (forall p :: j <= p < k ==> s[p] == ' ')
    && IsUnitChar(s[k])
  }

  ghost predicate HasMatch(s: string) {
    exists i: nat, j: nat, k: nat :: IsMatch(s, i, j, k)
  }

  /** A match: its start, the end of the number group, and the index of the unit letter. */
  datatype Match = Match(start: nat, numberEnd: nat, unit: nat)

  /** The match `Regex.Match` reports: no match starts further left. */
  ghost predicate IsLeftmostMatch(s: string, m: Match) {
    && IsMatch(s, m.start, m.numberEnd, m.unit)
    && forall i: nat, j: nat, k: nat :: i < m.start ==> !IsMatch(s, i, j, k)
  }

  /** Two matches with the same start are the same match. */
  lemma MatchUnique(s: string, i: nat, j: nat, k: nat, j': nat, k': nat)
    requires IsMatch(s, i, j, k) && IsMatch(s, i, j', k')
    ensures j == j' && k == k'
  {
    // the character after a number group is a space or the unit letter
    assert !IsNumberChar(s[j]) && !IsNumberChar(s[j']);
    assert s[k] != ' ' && s[k'] != ' ';
  }

  /** The leftmost match is unique, so `Regex.Match` has one answer. */
  lemma LeftmostUnique(s: string, m1: Match, m2: Match)
    requires IsLeftmostMatch(s, m1) && IsLeftmostMatch(s, m2)
    ensures m1 == m2
  {
    MatchUnique(s, m1.start, m1.numberEnd, m1.unit, m2.numberEnd, m2.unit);
  }

  /** The end of the run of number characters starting at `j`. */
  function RunEnd(s: string, j: nat): (r: nat)
    requires j <= |s|
    ensures j <= r <= |s|
    ensures forall p :: j <= p < r ==> IsNumberChar(s[p])
    ensures r < |s| ==> !IsNumberChar(s[r])
    decreases |s| - j
  {
    if j < |s| && IsNumberChar(s[j]) then RunEnd(s, j + 1) else j
  }

  /** End of the run of spaces starting at `j`. */
  function SpacesEnd(s: string, j: nat): (r: nat)
    requires j <= |s|
    ensures j <= r <= |s|
    ensures forall p :: j <= p < r ==> s[p] == ' '
    ensures r < |s| ==> s[r] != ' '
    decreases |s| - j
  {
    if j < |s| && s[j] == ' ' then SpacesEnd(s, j + 1) else j
  }

  /** Any match at `i` ends its number group at RunEnd and its spaces at SpacesEnd. */
  lemma MatchIsMaximal(s: string, i: nat, j: nat, k: nat)
    requires IsMatch(s, i, j, k)
    ensures j == RunEnd(s, i) && k == SpacesEnd(s, j)
  {
    assert !IsNumberChar(s[j]);
    assert s[k] != ' ';
  }

  /** The attempt of the regex engine at start index `i`. */
  function MatchAt(s: string, i: nat): (r: Option<Match>)
    requires i <= |s|
    ensures r.Some? ==> r.value.start == i && IsMatch(s, i, r.value.numberEnd, r.value.unit)
    ensures r.None? ==> forall j: nat, k: nat :: !IsMatch(s, i, j, k)
  {
    if i < |s| && IsNumberChar(s[i]) then
      var j := RunEnd(s, i);
      var k := SpacesEnd(s, j);
      if k < |s| && IsUnitChar(s[k]) then Some(Match(i, j, k))
      else
        assert forall j': nat, k': nat :: IsMatch(s, i, j', k') ==> j' == j && k' == k by {
          forall j': nat, k': nat | IsMatch(s, i, j', k') ensures j' == j && k' == k {
            MatchIsMaximal(s, i, j', k');
          }
        }
        None
    else None
  }

  /** The leftmost match starting at or after `i`. */
  function FindFrom(s: string, i: nat): (r: Option<Match>)
    requires i <= |s|
    ensures r.Some? ==> && i <= r.value.start
                        && IsMatch(s, r.value.start, r.value.numberEnd, r.value.unit)
                        && forall i': nat, j: nat, k: nat :: i <= i' < r.value.start ==> !IsMatch(s, i', j, k)
    ensures r.None? ==> forall i': nat, j: nat, k: nat :: i <= i' ==> !IsMatch(s, i', j, k)
    decreases |s| - i
  {
    if i == |s| then None
    else
      match MatchAt(s, i)
      case Some(m) => Some(m)
      case None => FindFrom(s, i + 1)
  }

  /** `Regex.Match(s, @"([\d.]+) *(s|h|m)", RegexOptions.IgnoreCase)`. */
  function FindMatch(s: string): (r: Option<Match>)
    ensures r.Some? ==> IsLeftmostMatch(s, r.value)
    ensures r.None? <==> !HasMatch(s)
  {
    FindFrom(s, 0)
  }
}
