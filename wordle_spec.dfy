/** What the word-list analyses compute, as functions of the word list, and
    the properties proved about them. */
module WordleSpec {
  import opened Collections
  import opened Sorting

  // ---------------------------------------------------------------------
  // Character frequency

  /** Number of occurrences of `c` across all the words, repeats inside a
      word included. */
  function Occurrences(ws: seq<string>, c: char): nat {
    multiset(Flatten(ws))[c]
  }

  /** The frequency of each character over `ws`, as a key for ranking. */
  function LetterFreq(ws: seq<string>): char -> nat {
    c => Occurrences(ws, c)
  }

  /** The frequencies of the distinct characters add up to the total length of the words. */
  lemma FrequencyTotal(ws: seq<string>)
    ensures SumCounts(FirstSeen(Flatten(ws)), Flatten(ws)) == TotalLength(ws)
  {
    FirstSeenSpec(Flatten(ws));
    SumCountsCover(FirstSeen(Flatten(ws)), Flatten(ws));
    FlattenLength(ws);
  }

  // ---------------------------------------------------------------------
  // Letter ranking

  /** The distinct characters in first-seen order, stably sorted by
      descending frequency. */
  function RankedLetters(ws: seq<string>): seq<char> {
    RankBy(FirstSeen(Flatten(ws)), LetterFreq(ws))
  }

  /** Each character occurring in the words appears exactly once in the ranking. */
  lemma RankedLettersMembers(ws: seq<string>)
    ensures NoDup(RankedLetters(ws))
    ensures forall c :: c in RankedLetters(ws) <==> exists i :: 0 <= i < |ws| && c in ws[i]
  {
    var order := FirstSeen(Flatten(ws));
    var r := RankedLetters(ws);
    FirstSeenSpec(Flatten(ws));
    RankByPermutation(order, LetterFreq(ws));
    PermutationNoDup(order, r);
    forall c ensures c in r <==> exists i :: 0 <= i < |ws| && c in ws[i] {
      FlattenMembers(ws, c);
      assert c in r <==> c in multiset(r);
      assert c in order <==> c in multiset(order);
    }
  }

  /** The ranking lists characters by non-increasing frequency. */
  lemma RankedLettersOrder(ws: seq<string>)
    ensures forall i, j :: 0 <= i < j < |RankedLetters(ws)| ==>
              Occurrences(ws, RankedLetters(ws)[i]) >= Occurrences(ws, RankedLetters(ws)[j])
  {
    var order := FirstSeen(Flatten(ws));
    var r := RankedLetters(ws);
    RankByOrder(order, LetterFreq(ws));
    forall i, j | 0 <= i < j < |r| ensures Occurrences(ws, r[i]) >= Occurrences(ws, r[j]) {
      assert LetterFreq(ws)(r[i]) >= LetterFreq(ws)(r[j]);
    }
  }

  /** Characters of equal frequency keep the order in which they first occur. */
  lemma RankedLettersStable(ws: seq<string>, n: nat)
    ensures FilterBy(RankedLetters(ws), LetterFreq(ws), n)
            == FilterBy(FirstSeen(Flatten(ws)), LetterFreq(ws), n)
  {
    RankByStable(FirstSeen(Flatten(ws)), LetterFreq(ws), n);
  }

  // ---------------------------------------------------------------------
  // Ideal start words

  /** The comprehension filter's test `len(set(word)) == len(word)`. */
  predicate HasNoRepeatedLetter(w: string) {
    |ToSet(w)| == |w|
  }

  /** The words whose letters are all distinct, in list order. */
  function NoRepetition(ws: seq<string>): seq<string> {
    if ws == [] then []
    else
      NoRepetition(ws[..|ws| - 1])
      + (if HasNoRepeatedLetter(ws[|ws| - 1]) then [ws[|ws| - 1]] else [])
  }

  /** The filter keeps exactly the words with all-distinct letters, without adding copies. */
  lemma {:induction false} NoRepetitionSpec(ws: seq<string>)
    ensures forall w :: w in NoRepetition(ws) <==> w in ws && NoDup(w)
    ensures multiset(NoRepetition(ws)) <= multiset(ws)
  {
    if ws != [] {
      var p, w := ws[..|ws| - 1], ws[|ws| - 1];
      assert ws == p + [w];
      NoRepetitionSpec(p);
      ToSetSize(w);
    }
  }

  /** The filter keeps every copy of each word it keeps. */
  lemma {:induction false} NoRepetitionCounts(ws: seq<string>)
    ensures forall w :: multiset(NoRepetition(ws))[w] == if HasNoRepeatedLetter(w) then multiset(ws)[w] else 0
  {
    if ws != [] {
      var p, w := ws[..|ws| - 1], ws[|ws| - 1];
      assert ws == p + [w];
      NoRepetitionCounts(p);
      var kept := if HasNoRepeatedLetter(w) then [w] else [];
      assert multiset(NoRepetition(ws)) == multiset(NoRepetition(p)) + multiset(kept);
      assert multiset(ws) == multiset(p) + multiset{w};
    }
  }

  /** The filter keeps list order. */
  lemma {:induction false} NoRepetitionOrder(ws: seq<string>)
    ensures IsSubsequence(NoRepetition(ws), ws)
  {
    if ws == [] {
      SubsequenceEmpty(ws);
    } else {
      var p, w := ws[..|ws| - 1], ws[|ws| - 1];
      assert ws == p + [w];
      NoRepetitionOrder(p);
      SubsequenceSnoc(NoRepetition(p), p, w);
      if HasNoRepeatedLetter(w) {
        assert NoRepetition(ws) == NoRepetition(p) + [w];
      } else {
        assert NoRepetition(ws) == NoRepetition(p);
      }
    }
  }

  /** Sum of the frequencies, over `pool`, of the letters of `w`. */
  function Score(w: string, pool: seq<string>): nat {
    if w == [] then 0 else Score(w[..|w| - 1], pool) + Occurrences(pool, w[|w| - 1])
  }

  lemma ScoreSnoc(w: string, j: nat, pool: seq<string>)
    requires j < |w|
    ensures Score(w[..j + 1], pool) == Score(w[..j], pool) + Occurrences(pool, w[j])
  {
    assert w[..j + 1][..j] == w[..j];
  }

  function ScoreOf(pool: seq<string>): string -> nat {
    w => Score(w, pool)
  }

  /** The distinct distinct-letter words, in first-seen order, stably
      sorted by descending score, the frequencies being taken over the
      distinct-letter words only. */
  function RankedCandidates(ws: seq<string>): seq<string> {
    var pool := NoRepetition(ws);
    RankBy(FirstSeen(pool), ScoreOf(pool))
  }

  /** The greedy selection: the first candidate is always taken; once the
      result holds more than 10 words the scan stops at the next candidate;
      otherwise a candidate is taken when it shares fewer than 3 distinct
      letters with the last word taken. */
  function Select(cands: seq<string>, acc: seq<string>): seq<string>
    decreases |cands|
  {
    if cands == [] then acc
    else if acc == [] then Select(cands[1..], [cands[0]])
    else if |acc| > 10 then acc
    else if CommonLetters(acc[|acc| - 1], cands[0]) < 3 then Select(cands[1..], acc + [cands[0]])
    else Select(cands[1..], acc)
  }

  /** Number of distinct letters two words share. */
  function CommonLetters(a: string, b: string): nat {
    |ToSet(a) * ToSet(b)|
  }

  function StartWords(ws: seq<string>): seq<string> {
    Select(RankedCandidates(ws), [])
  }

  /** Each word after the first shares fewer than 3 letters with the one before it. */
  ghost predicate Neighbours(s: seq<string>) {
    forall k :: 0 < k < |s| ==> CommonLetters(s[k - 1], s[k]) < 3
  }

  /** The ranked candidates are the distinct-letter words, reordered, by non-increasing score; equal scores keep list order. */
  lemma RankedCandidatesSpec(ws: seq<string>)
    ensures NoDup(RankedCandidates(ws))
    ensures forall w :: w in RankedCandidates(ws) <==> w in ws && NoDup(w)
    ensures forall i, j :: 0 <= i < j < |RankedCandidates(ws)| ==>
              Score(RankedCandidates(ws)[i], NoRepetition(ws)) >= Score(RankedCandidates(ws)[j], NoRepetition(ws))
    ensures forall n :: FilterBy(RankedCandidates(ws), ScoreOf(NoRepetition(ws)), n)
                        == FilterBy(FirstSeen(NoRepetition(ws)), ScoreOf(NoRepetition(ws)), n)
  {
    var pool := NoRepetition(ws);
    var order := FirstSeen(pool);
    var r := RankedCandidates(ws);
    FirstSeenSpec(pool);
    NoRepetitionSpec(ws);
    RankByPermutation(order, ScoreOf(pool));
    PermutationNoDup(order, r);
    forall w ensures w in r <==> w in ws && NoDup(w) {
      assert w in r <==> w in multiset(r);
      assert w in order <==> w in multiset(order);
    }
    RankByOrder(order, ScoreOf(pool));
    forall n ensures FilterBy(r, ScoreOf(pool), n) == FilterBy(order, ScoreOf(pool), n) {
      RankByStable(order, ScoreOf(pool), n);
    }
    forall i, j | 0 <= i < j < |r| ensures Score(r[i], pool) >= Score(r[j], pool) {
      assert ScoreOf(pool)(r[i]) >= ScoreOf(pool)(r[j]);
    }
  }

  /** Candidates of equal score appear in the order of the word list. */
  lemma RankedCandidatesTies(ws: seq<string>, n: nat)
    ensures IsSubsequence(FilterBy(RankedCandidates(ws), ScoreOf(NoRepetition(ws)), n), ws)
  {
    var pool := NoRepetition(ws);
    var order := FirstSeen(pool);
    RankedCandidatesSpec(ws);
    FilterBySubsequence(order, ScoreOf(pool), n);
    FirstSeenSubsequence(pool);
    NoRepetitionOrder(ws);
    SubsequenceTransitive(order, pool, ws);
    SubsequenceTransitive(FilterBy(order, ScoreOf(pool), n), order, ws);
  }

  /** On a duplicate-free word list, the candidates in dict order are the
      filtered list itself. */
  lemma CandidateOrderOfDistinct(ws: seq<string>)
    requires NoDup(ws)
    ensures FirstSeen(NoRepetition(ws)) == NoRepetition(ws)
  {
    var pool := NoRepetition(ws);
    NoRepetitionSpec(ws);
    forall w | w in pool ensures multiset(pool)[w] == 1 {
      assert w in multiset(pool);
    }
    FirstSeenOfNoDup(pool);
  }

  /** The selection only appends to what it was given. */
  lemma {:induction false} SelectExtends(cands: seq<string>, acc: seq<string>)
    ensures |acc| <= |Select(cands, acc)|
    ensures Select(cands, acc)[..|acc|] == acc
    ensures acc != [] && |acc| <= 11 ==> |Select(cands, acc)| <= 11
    ensures acc == [] && cands != [] ==> 1 <= |Select(cands, acc)| <= 11
  {
    if cands != [] {
      if acc == [] {
        SelectExtends(cands[1..], [cands[0]]);
      } else if |acc| > 10 {
      } else if CommonLetters(acc[|acc| - 1], cands[0]) < 3 {
        SelectExtends(cands[1..], acc + [cands[0]]);
        assert (acc + [cands[0]])[..|acc|] == acc;
        assert Select(cands, acc)[..|acc|] == Select(cands, acc)[..|acc| + 1][..|acc|];
      } else {
        SelectExtends(cands[1..], acc);
      }
    }
  }

  /** What the selection appends is a sub-sequence of the candidates. */
  lemma {:induction false} SelectSubsequence(cands: seq<string>, acc: seq<string>)
    ensures |acc| <= |Select(cands, acc)|
    ensures IsSubsequence(Select(cands, acc)[|acc|..], cands)
  {
    SelectExtends(cands, acc);
    var r := Select(cands, acc);
    if cands == [] || (acc != [] && |acc| > 10) {
      assert r[|acc|..] == [];
      SubsequenceEmpty(cands);
    } else if acc == [] || CommonLetters(acc[|acc| - 1], cands[0]) < 3 {
      var acc' := if acc == [] then [cands[0]] else acc + [cands[0]];
      assert r == Select(cands[1..], acc');
      SelectSubsequence(cands[1..], acc');
      SelectExtends(cands[1..], acc');
      SubsequenceCons(r[|acc'|..], cands);
      assert r[|acc|..] == [cands[0]] + r[|acc'|..] by {
        assert r[..|acc'|] == acc';
        assert r[|acc|] == acc'[|acc|];
      }
    } else {
      assert r == Select(cands[1..], acc);
      SelectSubsequence(cands[1..], acc);
      SubsequenceCons(r[|acc|..], cands);
    }
  }

  /** The selection keeps the neighbour condition. */
  lemma {:induction false} SelectNeighbours(cands: seq<string>, acc: seq<string>)
    requires Neighbours(acc)
    ensures Neighbours(Select(cands, acc))
  {
    if cands != [] {
      if acc == [] {
        SelectNeighbours(cands[1..], [cands[0]]);
      } else if |acc| > 10 {
      } else if CommonLetters(acc[|acc| - 1], cands[0]) < 3 {
        var acc' := acc + [cands[0]];
        assert Neighbours(acc') by {
          forall k | 0 < k < |acc'| ensures CommonLetters(acc'[k - 1], acc'[k]) < 3 {
            if k < |acc| {
              assert acc'[k - 1] == acc[k - 1] && acc'[k] == acc[k];
            }
          }
        }
        SelectNeighbours(cands[1..], acc');
      } else {
        SelectNeighbours(cands[1..], acc);
      }
    }
  }

  /** Every start word is a word of the list whose letters are all distinct. */
  lemma StartWordsMembers(ws: seq<string>)
    ensures forall w :: w in StartWords(ws) ==> w in ws && NoDup(w)
  {
    var cands := RankedCandidates(ws);
    SelectSubsequence(cands, []);
    SubsequenceMembers(StartWords(ws), cands);
    RankedCandidatesSpec(ws);
  }

  /** The start words are a sub-sequence of the score ranking; the first is
      the first-ranked word, whose score no distinct-letter word exceeds. */
  lemma StartWordsOrder(ws: seq<string>)
    ensures IsSubsequence(StartWords(ws), RankedCandidates(ws))
    ensures StartWords(ws) != [] ==>
              && StartWords(ws)[0] == RankedCandidates(ws)[0]
              && forall w :: w in ws && NoDup(w) ==>
                   Score(w, NoRepetition(ws)) <= Score(StartWords(ws)[0], NoRepetition(ws))
  {
    var cands := RankedCandidates(ws);
    var pool := NoRepetition(ws);
    SelectSubsequence(cands, []);
    assert StartWords(ws)[0..] == StartWords(ws);
    if StartWords(ws) != [] {
      assert cands != [];
      SelectExtends(cands[1..], [cands[0]]);
      RankedCandidatesSpec(ws);
      forall w | w in ws && NoDup(w) ensures Score(w, pool) <= Score(cands[0], pool) {
        var j :| 0 <= j < |cands| && cands[j] == w;
      }
    }
  }

  /** Each start word after the first shares fewer than 3 letters with its predecessor. */
  lemma StartWordsNeighbours(ws: seq<string>)
    ensures Neighbours(StartWords(ws))
  {
    SelectNeighbours(RankedCandidates(ws), []);
  }

  /** At most 11 start words; none exactly when no word has all-distinct letters. */
  lemma StartWordsSize(ws: seq<string>)
    ensures |StartWords(ws)| <= 11
    ensures StartWords(ws) == [] <==> forall w :: w in ws ==> !NoDup(w)
  {
    var cands := RankedCandidates(ws);
    SelectExtends(cands, []);
    RankedCandidatesSpec(ws);
    if cands != [] {
      assert cands[0] in cands;
    }
  }

  // ---------------------------------------------------------------------
  // Substring match

  /** Every character of `sub` occurs in `w` exactly as often as in `sub`. */
  predicate ExactCounts(w: string, sub: string) {
    forall c | c in sub :: multiset(w)[c] == multiset(sub)[c]
  }

  /** The words that match `sub` exactly, in list order. */
  function MatchingWords(ws: seq<string>, sub: string): seq<string> {
    if ws == [] then []
    else
      MatchingWords(ws[..|ws| - 1], sub)
      + (if ExactCounts(ws[|ws| - 1], sub) then [ws[|ws| - 1]] else [])
  }

  /** The matched words are exactly the list's words with exact counts, without added copies. */
  lemma {:induction false} MatchingWordsSpec(ws: seq<string>, sub: string)
    ensures forall w :: w in MatchingWords(ws, sub) <==> w in ws && ExactCounts(w, sub)
    ensures multiset(MatchingWords(ws, sub)) <= multiset(ws)
  {
    if ws != [] {
      var p := ws[..|ws| - 1];
      assert ws == p + [ws[|ws| - 1]];
      MatchingWordsSpec(p, sub);
    }
  }

  /** The matching loop keeps every copy of each matching word. */
  lemma {:induction false} MatchingWordsCounts(ws: seq<string>, sub: string)
    ensures forall w :: multiset(MatchingWords(ws, sub))[w] == if ExactCounts(w, sub) then multiset(ws)[w] else 0
  {
    if ws != [] {
      var p, w := ws[..|ws| - 1], ws[|ws| - 1];
      assert ws == p + [w];
      MatchingWordsCounts(p, sub);
      var kept := if ExactCounts(w, sub) then [w] else [];
      assert multiset(MatchingWords(ws, sub)) == multiset(MatchingWords(p, sub)) + multiset(kept);
      assert multiset(ws) == multiset(p) + multiset{w};
    }
  }

  /** The matching loop keeps list order. */
  lemma {:induction false} MatchingWordsOrder(ws: seq<string>, sub: string)
    ensures IsSubsequence(MatchingWords(ws, sub), ws)
  {
    if ws == [] {
      SubsequenceEmpty(ws);
    } else {
      var p, w := ws[..|ws| - 1], ws[|ws| - 1];
      assert ws == p + [w];
      MatchingWordsOrder(p, sub);
      SubsequenceSnoc(MatchingWords(p, sub), p, w);
      if ExactCounts(w, sub) {
        assert MatchingWords(ws, sub) == MatchingWords(p, sub) + [w];
      } else {
        assert MatchingWords(ws, sub) == MatchingWords(p, sub);
      }
    }
  }

  /** On a duplicate-free word list, the reported matches are duplicate-free. */
  lemma SortedMatchesNoDup(ws: seq<string>, sub: string)
    requires NoDup(ws)
    ensures NoDup(SortLex(MatchingWords(ws, sub)))
  {
    var m := MatchingWords(ws, sub);
    MatchingWordsSpec(ws, sub);
    forall w | w in m ensures multiset(m)[w] == 1 {
      assert w in multiset(m);
    }
    SortLexSpec(m);
    PermutationNoDup(m, SortLex(m));
  }

  /** The reported matches: sorted, exactly the matching words, each as often as in the list. */
  lemma SortedMatchesSpec(ws: seq<string>, sub: string)
    ensures LexSorted(SortLex(MatchingWords(ws, sub)))
    ensures multiset(SortLex(MatchingWords(ws, sub))) == multiset(MatchingWords(ws, sub))
    ensures forall w :: w in SortLex(MatchingWords(ws, sub)) <==> w in ws && ExactCounts(w, sub)
  {
    SortLexSpec(MatchingWords(ws, sub));
    MatchingWordsSpec(ws, sub);
    forall w ensures w in SortLex(MatchingWords(ws, sub)) <==> w in MatchingWords(ws, sub) {
      assert w in SortLex(MatchingWords(ws, sub)) <==> w in multiset(SortLex(MatchingWords(ws, sub)));
    }
  }
}
