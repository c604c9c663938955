/**
 The word-list maintenance script (`add_words`): merge new words into a
 stored list, drop duplicates, and store the result sorted
 case-insensitively.

 Reading and writing the JSON file is left out: the stored list is an
 input (possibly missing) and the merged list is the output. Lower-casing
 is the parameter `lower`, about which nothing is assumed.
 */
module WordsAdd {

  /** The stored word list, or no file at all. */
  datatype Stored = Missing | Present(words: seq<string>)

  /** Code-point lexicographic order on strings, as `<=` on Python strings. */
  predicate LexLe(a: string, b: string)
    decreases |a|
  {
    |a| == 0 || (|b| > 0 && (a[0] < b[0] || (a[0] == b[0] && LexLe(a[1..], b[1..]))))
  }

  lemma {:induction false} LexTotal(a: string, b: string)
    ensures LexLe(a, b) || LexLe(b, a)
    decreases |a|
  {
    if |a| > 0 && |b| > 0 && a[0] == b[0] {
      LexTotal(a[1..], b[1..]);
    }
  }

  lemma {:induction false} LexTrans(a: string, b: string, c: string)
    requires LexLe(a, b) && LexLe(b, c)
    ensures LexLe(a, c)
    decreases |a|
  {
    if |a| > 0 && a[0] == b[0] && b[0] == c[0] {
      LexTrans(a[1..], b[1..], c[1..]);
    }
  }

  /** `a` sorts no later than `b` under the key `lower`. */
  predicate KeyLe(lower: string -> string, a: string, b: string)
  {
    LexLe(lower(a), lower(b))
  }

  /** Every word sorts no later than its successor. */
  predicate AdjacentSorted(lower: string -> string, s: seq<string>)
  {
    forall i :: 0 < i < |s| ==> KeyLe(lower, s[i - 1], s[i])
  }

  /** Every word sorts no later than every word after it. */
  predicate Sorted(lower: string -> string, s: seq<string>)
  {
    forall i, j :: 0 <= i < j < |s| ==> KeyLe(lower, s[i], s[j])
  }

  /** No word occurs twice. */
  predicate Distinct(s: seq<string>)
  {
    forall i, j :: 0 <= i < j < |s| ==> s[i] != s[j]
  }

  /** The stored words; a missing file reads as an empty list. */
  function Load(stored: Stored): (words: seq<string>)
    ensures stored.Missing? ==> words == []
    ensures stored.Present? ==> words == stored.words
  {
    match stored
    case Missing => []
    case Present(ws) => ws
  }

  /** Adds one word to a duplicate-free collection. */
  function AddOne(acc: seq<string>, w: string): (r: seq<string>)
    requires Distinct(acc)
    ensures Distinct(r)
    ensures forall x :: x in r <==> x in acc || x == w
  {
    if w in acc then acc else acc + [w]
  }

  /** Adds every word of `ws`, in order, to a duplicate-free collection. */
  function AddAll(acc: seq<string>, ws: seq<string>): (r: seq<string>)
    requires Distinct(acc)
    ensures Distinct(r)
    ensures forall x :: x in r <==> x in acc || x in ws
    decreases |ws|
  {
    if |ws| == 0 then acc else AddAll(AddOne(acc, ws[0]), ws[1..])
  }

  /** The duplicate-free collection of the words in `ws`, like Python's `set(ws)`. */
  function ToSet(ws: seq<string>): (r: seq<string>)
    ensures Distinct(r)
    ensures forall x :: x in r <==> x in ws
  {
    AddAll([], ws)
  }

  /** Inserts `x` before the first word it sorts no later than. */
  function Insert(lower: string -> string, x: string, s: seq<string>): (r: seq<string>)
    requires AdjacentSorted(lower, s)
    ensures AdjacentSorted(lower, r)
    ensures multiset(r) == multiset(s) + multiset{x}
    ensures |r| > 0 && (r[0] == x || (|s| > 0 && r[0] == s[0]))
  {
    if |s| == 0 then [x]
    else if KeyLe(lower, x, s[0]) then [x] + s
    else
      LexTotal(lower(x), lower(s[0]));
      var rest := Insert(lower, x, s[1..]);
      assert s == [s[0]] + s[1..];
      [s[0]] + rest
  }

  /** Insertion sort under the key `lower`. */
  function SortByKey(lower: string -> string, s: seq<string>): (r: seq<string>)
    ensures AdjacentSorted(lower, r)
    ensures multiset(r) == multiset(s)
  {
    if |s| == 0 then []
    else
      assert s == [s[0]] + s[1..];
      Insert(lower, s[0], SortByKey(lower, s[1..]))
  }

  /** Sortedness of neighbours extends to all pairs, since the key order is transitive. */
  lemma {:induction false} AdjacentSortedIsSorted(lower: string -> string, s: seq<string>)
    requires AdjacentSorted(lower, s)
    ensures Sorted(lower, s)
    decreases |s|
  {
    if |s| > 1 {
      var t := s[1..];
      assert AdjacentSorted(lower, t) by {
        forall i | 0 < i < |t|
          ensures KeyLe(lower, t[i - 1], t[i])
        {
          assert t[i - 1] == s[i] && t[i] == s[i + 1];
        }
      }
      AdjacentSortedIsSorted(lower, t);
      forall i, j | 0 <= i < j < |s|
        ensures KeyLe(lower, s[i], s[j])
      {
        if i == 0 && j > 1 {
          assert s[1] == t[0] && s[j] == t[j - 1];
          LexTrans(lower(s[0]), lower(s[1]), lower(s[j]));
        } else if i > 0 {
          assert s[i] == t[i - 1] && s[j] == t[j - 1];
        }
      }
    }
  }

  /** A permutation of a duplicate-free sequence is duplicate-free. */
  lemma DistinctPermutation(s: seq<string>, r: seq<string>)
    requires Distinct(s) && multiset(r) == multiset(s)
    ensures Distinct(r)
  {
    forall i, j | 0 <= i < j < |r|
      ensures r[i] != r[j]
    {
      if r[i] == r[j] {
        var x := r[i];
        MultiplicityAtLeastTwo(r, i, j);
        MultiplicityAtMostOne(s, x);
        assert false;
      }
    }
  }

  /** A word at two positions occurs at least twice. */
  lemma {:induction false} MultiplicityAtLeastTwo(r: seq<string>, i: nat, j: nat)
    requires i < j < |r| && r[i] == r[j]
    ensures multiset(r)[r[i]] >= 2
  {
    var x := r[i];
    assert r == r[..j] + r[j..];
    assert r[..j] == r[..i] + r[i..j];
    assert r[i..j] == [x] + r[i + 1..j];
    assert r[j..] == [x] + r[j + 1..];
    assert multiset(r) == multiset(r[..i]) + multiset{x} + multiset(r[i + 1..j]) + multiset{x} + multiset(r[j + 1..]);
  }

  /** In a duplicate-free sequence every word occurs at most once. */
  lemma {:induction false} MultiplicityAtMostOne(s: seq<string>, x: string)
    requires Distinct(s)
    ensures multiset(s)[x] <= 1
    decreases |s|
  {
    if |s| > 0 {
      var t := s[1..];
      assert s == [s[0]] + t;
      assert Distinct(t) by {
        forall i, j | 0 <= i < j < |t|
          ensures t[i] != t[j]
        {
          assert t[i] == s[i + 1] && t[j] == s[j + 1];
        }
      }
      MultiplicityAtMostOne(t, x);
      if x == s[0] {
        assert x !in t by {
          forall k | 0 <= k < |t|
            ensures t[k] != x
          {
            assert t[k] == s[k + 1];
          }
        }
        assert multiset(t)[x] == 0;
      }
    }
  }

  /**
   The merged list that `add_words` stores: the stored words and the new
   words, each exactly once, sorted by the lower-cased key.
   */
  function AddWords(stored: Stored, newWords: seq<string>, lower: string -> string): (r: seq<string>)
    ensures forall w :: w in Load(stored) ==> w in r
    ensures forall w :: w in newWords ==> w in r
    ensures forall w :: w in r ==> w in Load(stored) || w in newWords
    ensures Distinct(r)
    ensures Sorted(lower, r)
  {
    var wordsSet := AddAll(ToSet(Load(stored)), newWords);
    var r := SortByKey(lower, wordsSet);
    assert forall w :: w in r <==> w in wordsSet by {
      forall w
        ensures w in r <==> w in wordsSet
      {
        assert w in r <==> w in multiset(r);
        assert w in wordsSet <==> w in multiset(wordsSet);
      }
    }
    DistinctPermutation(wordsSet, r);
    AdjacentSortedIsSorted(lower, r);
    r
  }

  /** The set of words a list holds. */
  function Words(s: seq<string>): set<string>
  {
    set w | w in s
  }

  /** Adding only words that are already stored leaves the set of stored words unchanged. */
  lemma AddPresentKeepsWords(stored: Stored, newWords: seq<string>, lower: string -> string)
    requires forall w :: w in newWords ==> w in Load(stored)
    ensures Words(AddWords(stored, newWords, lower)) == Words(Load(stored))
  {
  }

  /** Running the script again with the same words changes the list's set of words no further. */
  lemma AddTwiceKeepsWords(stored: Stored, newWords: seq<string>, lower: string -> string)
    ensures Words(AddWords(Present(AddWords(stored, newWords, lower)), newWords, lower))
         == Words(AddWords(stored, newWords, lower))
  {
    AddPresentKeepsWords(Present(AddWords(stored, newWords, lower)), newWords, lower);
  }

  /** A missing file merged with new words holds exactly the new words, once each. */
  lemma AddToMissing(newWords: seq<string>, lower: string -> string)
    ensures Words(AddWords(Missing, newWords, lower)) == Words(newWords)
  {
  }
}
