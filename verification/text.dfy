/**
 Character and string helpers shared by the snooze-time parser and formatter:
 ASCII case folding, case-insensitive substring search (the model of
 `IndexOf(word, InvariantCultureIgnoreCase) >= 0`) and decimal digit strings
 (the model of C#'s default rendering of a non-negative `int`).
 */
module Text {

  /** ASCII lower-casing; every other character folds to itself. */
  function Lower(c: char): char {
    if 'A' <= c <= 'Z' then (c as int - 'A' as int + 'a' as int) as char else c
  }

  predicate IsDigit(c: char) {
    '0' <= c <= '9'
  }

  predicate AllDigits(s: string) {
    forall p :: 0 <= p < |s| ==> IsDigit(s[p])
  }

  /** `word` occurs in `text` at index `i`, ignoring case. */
  predicate OccursAt(text: string, word: string, i: nat) {
    && i + |word| <= |text|
    && forall k :: 0 <= k < |word| ==> Lower(text[i + k]) == Lower(word[k])
  }

  /** `text.IndexOf(word, StringComparison.InvariantCultureIgnoreCase) >= 0`. */
  predicate ContainsIgnoreCase(text: string, word: string)
    ensures ContainsIgnoreCase(text, word) ==> |word| <= |text|
  {
    exists i: nat | i <= |text| :: OccursAt(text, word, i)
  }

  /** A non-empty word of lower-case ASCII letters. */
  predicate IsWord(w: string) {
    0 < |w| && forall k :: 0 <= k < |w| ==> 'a' <= w[k] <= 'z'
  }

  /** The words the snooze-time texts are searched for. */
  lemma KnownWords(w: string)
    requires w in ["start", "after", "before", "minute", "minutes", "second", "seconds", "hour", "h"]
    ensures IsWord(w)
  {
  }

  predicate StartsWith(s: string, prefix: string) {
    |prefix| <= |s| && s[..|prefix|] == prefix
  }

  predicate EndsWith(s: string, suffix: string) {
    |suffix| <= |s| && s[|s| - |suffix|..] == suffix
  }

  /** No character of `text` folds to `c`. */
  predicate CharFree(text: string, c: char) {
    forall p :: 0 <= p < |text| ==> Lower(text[p]) != c
  }

  /** No two adjacent characters of `text` fold to `c` followed by `d`. */
  predicate PairFree(text: string, c: char, d: char) {
    forall p :: 0 <= p < |text| - 1 ==> !(Lower(text[p]) == c && Lower(text[p + 1]) == d)
  }

  lemma CharFreeConcat(a: string, b: string, c: char)
    requires CharFree(a, c) && CharFree(b, c)
    ensures CharFree(a + b, c)
  {
    forall p | 0 <= p < |a + b| ensures Lower((a + b)[p]) != c {
      if p < |a| {
        assert (a + b)[p] == a[p];
      } else {
        assert (a + b)[p] == b[p - |a|];
      }
    }
  }

  /** A word with a letter the text never contains does not occur in it. */
  lemma CharFreeNotContained(text: string, word: string, k: nat)
    requires k < |word| && CharFree(text, Lower(word[k]))
    ensures !ContainsIgnoreCase(text, word)
  {
  }

  /** A word with two adjacent letters the text never has side by side does not occur in it. */
  lemma PairFreeNotContained(text: string, word: string, k: nat)
    requires k + 1 < |word| && PairFree(text, Lower(word[k]), Lower(word[k + 1]))
    ensures !ContainsIgnoreCase(text, word)
  {
  }

  /** Each character of an occurrence folds to the matching character of the word. */
  lemma OccursAtChar(text: string, word: string, i: nat, q: nat)
    requires OccursAt(text, word, i) && i <= q < i + |word|
    ensures Lower(text[q]) == Lower(word[q - i])
  {
    var k := q - i;
    assert i + k == q;
  }

  /** No character of `b` folds to a character of `word`. */
  predicate Disjoint(b: string, word: string) {
    forall p, k :: 0 <= p < |b| && 0 <= k < |word| ==> Lower(b[p]) != Lower(word[k])
  }

  /** Digits share no character with a word that has no digits. */
  lemma DigitsDisjoint(b: string, word: string)
    requires AllDigits(b) && forall k :: 0 <= k < |word| ==> !IsDigit(Lower(word[k]))
    ensures Disjoint(b, word)
  {
    forall p, k | 0 <= p < |b| && 0 <= k < |word| ensures Lower(b[p]) != Lower(word[k]) {
      assert Lower(b[p]) == b[p];
    }
  }

  /**
   A non-empty separator sharing no character with a word splits the text around it:
   the word occurs in `a + b + c` exactly when it occurs in `a` or in `c`.
   */
  lemma {:induction false} ContainsAround(a: string, b: string, c: string, word: string)
    requires |b| > 0 && |word| > 0 && Disjoint(b, word)
    ensures ContainsIgnoreCase(a + b + c, word) <==> ContainsIgnoreCase(a, word) || ContainsIgnoreCase(c, word)
  {
    var t := a + b + c;
    if ContainsIgnoreCase(t, word) {
      var i: nat :| i <= |t| && OccursAt(t, word, i);
      if i + |word| <= |a| {
        assert OccursAt(a, word, i) by {
          forall k | 0 <= k < |word| ensures Lower(a[i + k]) == Lower(word[k]) {
            assert t[i + k] == a[i + k];
          }
        }
      } else if i >= |a| + |b| {
        var i' := i - |a| - |b|;
        assert OccursAt(c, word, i') by {
          forall k | 0 <= k < |word| ensures Lower(c[i' + k]) == Lower(word[k]) {
            assert t[i + k] == c[i' + k];
          }
        }
      } else {
        var p := if i >= |a| then i else |a|;
        assert t[p] == b[p - |a|];
        OccursAtChar(t, word, i, p);
        assert false;
      }
    }
    if ContainsIgnoreCase(a, word) {
      var i: nat :| i <= |a| && OccursAt(a, word, i);
      assert OccursAt(t, word, i) by {
        forall k | 0 <= k < |word| ensures Lower(t[i + k]) == Lower(word[k]) {
          assert t[i + k] == a[i + k];
        }
      }
    }
    if ContainsIgnoreCase(c, word) {
      var i: nat :| i <= |c| && OccursAt(c, word, i);
      var i' := i + |a| + |b|;
      assert OccursAt(t, word, i') by {
        forall k | 0 <= k < |word| ensures Lower(t[i' + k]) == Lower(word[k]) {
          assert t[i' + k] == c[i + k];
        }
      }
    }
  }

  function DigitChar(d: nat): (c: char)
    requires d < 10
  {
    ('0' as int + d) as char
  }

  /** Value of a string of decimal digits, most significant first; the empty string is 0. */
  function DigitsValue(s: string): nat
    requires AllDigits(s)
  {
    if |s| == 0 then 0 else DigitsValue(s[..|s| - 1]) * 10 + (s[|s| - 1] as int - '0' as int)
  }

  /** `n.ToString()` for a non-negative `int`: decimal digits without leading zeros. */
  function NatToString(n: nat): (s: string)
    ensures 0 < |s| && AllDigits(s)
    ensures DigitsValue(s) == n
    ensures s[0] == '0' ==> n == 0
  {
    if n < 10 then [DigitChar(n)]
    else
      var front := NatToString(n / 10);
      var s := front + [DigitChar(n % 10)];
      assert s[..|s| - 1] == front;
      s
  }

  /** `n.ToString()` for an `int`: a minus sign before the digits of a negative number. */
  function IntToString(n: int): (s: string)
    ensures 0 < |s| && (s[0] == '-' <==> n < 0)
    ensures n >= 0 ==> AllDigits(s) && DigitsValue(s) == n
    ensures n < 0 ==> AllDigits(s[1..]) && DigitsValue(s[1..]) == -n
  {
    if n < 0 then "-" + NatToString(-n) else NatToString(n)
  }
}
