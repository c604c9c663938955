/**
 Scoring of a finished typing-test session: correct characters, errors,
 accuracy and the two speed rates (`finishTest` in the typing-test component).

 Every typed index is scored exactly once: it is correct when the passage
 has a character at that index and the typed character equals it, and an
 error otherwise, so characters typed beyond the end of the passage are
 errors. Rates are exact reals; the source's display rounding is not part
 of the score.
 */
module Metrics {

  /** The four numbers a finished session reports. */
  datatype Scores = Scores(wpm: real, cpm: real, accuracy: real, errors: nat)

  /** The scores of a session that has not finished. */
  const Zero: Scores := Scores(0.0, 0.0, 0.0, 0)

  /** Characters per "word" in the words-per-minute rate. */
  const CharsPerWord: real := 5.0

  /** Typed index `i` scores as correct. */
  predicate MatchAt(input: string, passage: string, i: nat)
  {
    i < |input| && i < |passage| && input[i] == passage[i]
  }

  /** Number of indices below `n` that score as correct. */
  function MatchesBelow(input: string, passage: string, n: nat): (c: nat)
    ensures c <= n
  {
    if n == 0 then 0
    else MatchesBelow(input, passage, n - 1) + (if MatchAt(input, passage, n - 1) then 1 else 0)
  }

  /** Number of typed characters that score as correct. */
  function CorrectCount(input: string, passage: string): nat
  {
    MatchesBelow(input, passage, |input|)
  }

  /** No index at or beyond `k` matches, so counting stops mattering there. */
  lemma {:induction false} MatchesBelowSaturates(input: string, passage: string, k: nat, n: nat)
    requires k <= n
    requires k >= |input| || k >= |passage|
    ensures MatchesBelow(input, passage, n) == MatchesBelow(input, passage, k)
    decreases n
  {
    if n > k {
      MatchesBelowSaturates(input, passage, k, n - 1);
    }
  }

  /** The correct count is bounded by both the input and the passage. */
  lemma CorrectBound(input: string, passage: string)
    ensures CorrectCount(input, passage) <= |input|
    ensures CorrectCount(input, passage) <= |passage|
  {
    if |passage| < |input| {
      MatchesBelowSaturates(input, passage, |passage|, |input|);
    }
  }

  /** A perfect input of length `n` scores `n` correct characters up to `n`. */
  lemma {:induction false} AllMatchBelow(input: string, passage: string, n: nat)
    requires n <= |input| && n <= |passage|
    requires input[..n] == passage[..n]
    ensures MatchesBelow(input, passage, n) == n
  {
    if n > 0 {
      assert input[..n - 1] == passage[..n - 1] by {
        assert input[..n - 1] == input[..n][..n - 1];
        assert passage[..n - 1] == passage[..n][..n - 1];
      }
      assert input[n - 1] == input[..n][n - 1];
      assert passage[n - 1] == passage[..n][n - 1];
      AllMatchBelow(input, passage, n - 1);
    }
  }

  /** Exactly the inputs that are a prefix of the passage score no errors. */
  lemma {:induction false} NoErrorsIffPrefix(input: string, passage: string)
    ensures CorrectCount(input, passage) == |input| <==> (|input| <= |passage| && input == passage[..|input|])
  {
    if |input| <= |passage| && input == passage[..|input|] {
      assert input[..|input|] == input;
      AllMatchBelow(input, passage, |input|);
    }
    if CorrectCount(input, passage) == |input| {
      FullCountMeansAllMatch(input, passage, |input|);
      CorrectBound(input, passage);
      forall i | 0 <= i < |input|
        ensures input[i] == passage[..|input|][i]
      {
        assert MatchAt(input, passage, i);
      }
      assert input == passage[..|input|];
    }
  }

  /** When all indices below `n` are counted, each of them matches. */
  lemma {:induction false} FullCountMeansAllMatch(input: string, passage: string, n: nat)
    requires MatchesBelow(input, passage, n) == n
    ensures forall i :: 0 <= i < n ==> MatchAt(input, passage, i)
  {
    if n > 0 {
      assert MatchesBelow(input, passage, n - 1) <= n - 1;
      FullCountMeansAllMatch(input, passage, n - 1);
    }
  }

  /**
   The scoring loop of `finishTest`: walks the typed characters once and
   counts each as correct or as an error.
   */
  method Tally(input: string, passage: string) returns (correct: nat, errors: nat)
    ensures correct == CorrectCount(input, passage)
    ensures correct + errors == |input|
    ensures correct <= |passage|
  {
    correct, errors := 0, 0;
    var i := 0;
    while i < |input|
      invariant i <= |input|
      invariant correct == MatchesBelow(input, passage, i)
      invariant correct + errors == i
    {
      if i < |passage| && input[i] == passage[i] {
        correct := correct + 1;
      } else {
        errors := errors + 1;
      }
      i := i + 1;
    }
    CorrectBound(input, passage);
  }

  /** Percentage of typed characters that are correct; 0 when nothing was typed. */
  function Accuracy(correct: nat, typed: nat): real
  {
    if typed > 0 then (correct as real / typed as real) * 100.0 else 0.0
  }

  /** Accuracy is a percentage, 100 exactly for a perfect input, and proportional to the correct count. */
  lemma AccuracyFacts(correct: nat, typed: nat)
    requires correct <= typed
    ensures typed == 0 ==> Accuracy(correct, typed) == 0.0
    ensures typed > 0 ==> 0.0 <= Accuracy(correct, typed) <= 100.0
    ensures typed > 0 ==> (Accuracy(correct, typed) == 100.0 <==> correct == typed)
    ensures typed > 0 ==> Accuracy(correct, typed) * (typed as real) == 100.0 * (correct as real)
  {
    if typed > 0 {
      var q := correct as real / typed as real;
      var t := typed as real;
      assert q * t == correct as real;
      assert 0.0 <= q;
      assert q <= 1.0 by {
        assert (1.0 - q) * t == t - correct as real;
      }
      assert Accuracy(correct, typed) == q * 100.0;
      assert q * 100.0 == 100.0 <==> q == 1.0;
      assert q == 1.0 <==> correct == typed by {
        if q == 1.0 { assert correct as real == t; }
      }
    }
  }

  /** A rate per minute over `elapsed` seconds, 0 when no time has elapsed. */
  function PerMinute(amount: real, elapsed: real): real
  {
    var minutes := elapsed / 60.0;
    var rate := if minutes > 0.0 then amount / minutes else 0.0;
    if rate > 0.0 then rate else 0.0
  }

  /** The scores of `input` typed against `passage` in `elapsed` seconds. */
  function Score(input: string, passage: string, elapsed: real): (r: Scores)
    ensures r.errors + CorrectCount(input, passage) == |input|
    ensures |input| == 0 ==> r == Zero
    ensures |input| > 0 ==> 0.0 <= r.accuracy <= 100.0
    ensures |input| > 0 ==> (r.accuracy == 100.0 <==> r.errors == 0)
    ensures |input| > 0 ==> r.accuracy * (|input| as real) == 100.0 * ((|input| - r.errors) as real)
    ensures r.wpm >= 0.0 && r.cpm >= 0.0
    ensures elapsed <= 0.0 ==> r.wpm == 0.0 && r.cpm == 0.0
    ensures elapsed > 0.0 ==> r.cpm * elapsed == 60.0 * ((|input| - r.errors) as real)
    ensures elapsed > 0.0 ==> r.wpm == r.cpm / CharsPerWord
  {
    CorrectBound(input, passage);
    var correct := CorrectCount(input, passage);
    var typed := |input|;
    AccuracyFacts(correct, typed);
    Scores(PerMinute(correct as real / CharsPerWord, elapsed),
           PerMinute(correct as real, elapsed),
           Accuracy(correct, typed),
           typed - correct)
  }

  /** "abd" typed against "abc" in one minute. */
  lemma ExampleOneTypo()
    ensures Score("abd", "abc", 60.0) == Scores(0.4, 2.0, 200.0 / 3.0, 1)
  {
    assert MatchesBelow("abd", "abc", 1) == 1;
    assert MatchesBelow("abd", "abc", 2) == 2;
    assert !MatchAt("abd", "abc", 2);
    assert CorrectCount("abd", "abc") == 2;
  }

  /** Nothing typed against "ab": every score is zero, whatever the time. */
  lemma ExampleNothingTyped(elapsed: real)
    ensures Score("", "ab", elapsed) == Zero
  {
  }
}
