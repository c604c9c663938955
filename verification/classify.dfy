/**
 Per-character feedback while typing (the rendering loop of the
 typing-test component): every passage index is shown as correct,
 incorrect or not yet typed.
 */
module Classify {
  import opened Metrics

  datatype CharState = Correct | Incorrect | Untyped

  /** The state shown for passage index `i`. */
  function StateAt(input: string, passage: string, i: nat): CharState
    requires i < |passage|
  {
    if i < |input| then (if input[i] == passage[i] then Correct else Incorrect)
    else Untyped
  }

  /** One state per passage character, in passage order. */
  function Classify(input: string, passage: string): (r: seq<CharState>)
    ensures |r| == |passage|
    ensures forall i :: 0 <= i < |r| ==> (r[i] == Correct <==> MatchAt(input, passage, i))
    ensures forall i :: 0 <= i < |r| ==> (r[i] == Untyped <==> i >= |input|)
  {
    seq(|passage|, i requires 0 <= i < |passage| => StateAt(input, passage, i))
  }

  /** Number of cells among the first `n` that are in state `st`. */
  function CountBelow(cells: seq<CharState>, st: CharState, n: nat): (c: nat)
    requires n <= |cells|
    ensures c <= n
  {
    if n == 0 then 0
    else CountBelow(cells, st, n - 1) + (if cells[n - 1] == st then 1 else 0)
  }

  /** Number of cells in state `st`. */
  function Count(cells: seq<CharState>, st: CharState): nat
  {
    CountBelow(cells, st, |cells|)
  }

  /** Among the first `n` cells, correct ones are exactly the scoring matches. */
  lemma {:induction false} CorrectCellsBelow(input: string, passage: string, n: nat)
    requires n <= |passage|
    ensures CountBelow(Classify(input, passage), Correct, n) == MatchesBelow(input, passage, n)
  {
    if n > 0 {
      CorrectCellsBelow(input, passage, n - 1);
    }
  }

  /** Among the first `n` cells, every cell is correct, incorrect or untyped. */
  lemma {:induction false} CellsPartition(cells: seq<CharState>, n: nat)
    requires n <= |cells|
    ensures CountBelow(cells, Correct, n) + CountBelow(cells, Incorrect, n) + CountBelow(cells, Untyped, n) == n
  {
    if n > 0 {
      CellsPartition(cells, n - 1);
    }
  }

  /** Among the first `n` cells, the untyped ones are those at or beyond the input. */
  lemma {:induction false} UntypedCellsBelow(input: string, passage: string, n: nat)
    requires n <= |passage|
    ensures CountBelow(Classify(input, passage), Untyped, n) == if n > |input| then n - |input| else 0
  {
    if n > 0 {
      UntypedCellsBelow(input, passage, n - 1);
    }
  }

  /**
   The highlighted feedback agrees with the final score: the correct cells
   are the correct characters, and the incorrect cells plus the characters
   typed beyond the passage are the errors.
   */
  lemma FeedbackMatchesScore(input: string, passage: string, elapsed: real)
    ensures Count(Classify(input, passage), Correct) == CorrectCount(input, passage)
    ensures Count(Classify(input, passage), Incorrect)
              + (if |input| > |passage| then |input| - |passage| else 0)
            == Score(input, passage, elapsed).errors
    ensures Count(Classify(input, passage), Untyped)
            == if |passage| > |input| then |passage| - |input| else 0
  {
    var cells := Classify(input, passage);
    CorrectCellsBelow(input, passage, |passage|);
    UntypedCellsBelow(input, passage, |passage|);
    CellsPartition(cells, |passage|);
    if |passage| < |input| {
      MatchesBelowSaturates(input, passage, |passage|, |input|);
    } else {
      MatchesBelowSaturates(input, passage, |input|, |passage|);
    }
  }

  /** With no overflow, the incorrect cells are exactly the errors. */
  lemma IncorrectCellsAreErrors(input: string, passage: string, elapsed: real)
    requires |input| <= |passage|
    ensures Count(Classify(input, passage), Incorrect) == Score(input, passage, elapsed).errors
  {
    FeedbackMatchesScore(input, passage, elapsed);
  }
}
