/** The word-list helper: a list of words (deduplicated once, when it is
    created) and the three analyses over it. */
module Wordle {
  import opened Collections
  import opened Sorting
  import opened WordleSpec

  /** What the substring search reports: one of its two warnings, or the
      sorted matches. */
  datatype MatchOutcome = SubstringTooLong | SubstringEmpty | Matches(found: seq<string>)

  /** The dict built by `freq[c] += 1` for each character `c` of `s` in turn. */
  function CountMap(s: string): map<char, nat> {
    if s == [] then map[]
    else
      var m := CountMap(s[..|s| - 1]);
      var c := s[|s| - 1];
      m[c := (if c in m then m[c] else 0) + 1]
  }

  lemma {:induction false} CountMapHas(s: string, c: char)
    ensures c in CountMap(s) <==> c in s
  {
    if s != [] {
      var p := s[..|s| - 1];
      assert s == p + [s[|s| - 1]];
      CountMapHas(p, c);
    }
  }

  /** Counting one more character `c` updates the dict as `freq[c] += 1` does. */
  lemma CountStep(s: string, c: char)
    ensures CountMap(s + [c]) == CountMap(s)[c := (if c in CountMap(s) then CountMap(s)[c] else 0) + 1]
    ensures FirstSeen(s + [c]) == if c in CountMap(s) then FirstSeen(s) else FirstSeen(s) + [c]
  {
    assert (s + [c])[..|s|] == s;
    CountMapHas(s, c);
  }

  /** The counting dict holds exactly the characters of `s`, each with its number of occurrences. */
  lemma {:induction false} CountMapSpec(s: string)
    ensures forall c :: c in CountMap(s) <==> c in s
    ensures forall c :: c in CountMap(s) ==> CountMap(s)[c] == multiset(s)[c]
  {
    if s != [] {
      var p := s[..|s| - 1];
      assert s == p + [s[|s| - 1]];
      CountMapSpec(p);
    }
  }

  lemma FlattenSnoc(ws: seq<string>, i: nat)
    requires i < |ws|
    ensures Flatten(ws[..i + 1]) == Flatten(ws[..i]) + ws[i]
  {
    assert ws[..i + 1][..i] == ws[..i];
  }

  class WordleHelper {
    var words: seq<string>

    /** The word list holds each word once (it is only ever set from WordsCleaner). */
    ghost predicate Valid()
      reads this
    {
      NoDup(words)
    }

    constructor ()
      ensures Valid() && words == []
    {
      words := [];
    }

    /** Collects the scraped items into a set and lists it: each distinct
        item once, in no promised order. */
    static method WordsCleaner(items: seq<string>) returns (clean: seq<string>)
      ensures NoDup(clean)
      ensures forall w :: w in clean <==> w in items
    {
      var seen: set<string> := {};
      for i := 0 to |items|
        invariant forall w :: w in seen <==> w in items[..i]
      {
        seen := seen + {items[i]};
      }
      assert items[..|items|] == items;
      clean := [];
      var rest := seen;
      while rest != {}
        invariant rest <= seen
        invariant NoDup(clean)
        invariant forall w :: w in clean <==> w in seen && w !in rest
        decreases rest
      {
        var w :| w in rest;
        AppendNew(clean, w);
        clean := clean + [w];
        rest := rest - {w};
      }
    }

    /** Counts every character occurrence across `ws`. `order` is the key
        order of the resulting dict (first occurrence). */
    static method CharFrequency(ws: seq<string>) returns (freq: map<char, nat>, order: seq<char>)
      ensures forall c :: c in freq <==> c in Flatten(ws)
      ensures forall c :: c in freq ==> freq[c] == Occurrences(ws, c)
      ensures order == FirstSeen(Flatten(ws))
      ensures forall c :: c in order ==> c in freq
      ensures SumValues(order, freq) == TotalLength(ws)
    {
      freq, order := map[], [];
      ghost var scanned: string := [];
      for i := 0 to |ws|
        invariant scanned == Flatten(ws[..i])
        invariant freq == CountMap(scanned) && order == FirstSeen(scanned)
      {
        var w := ws[i];
        ghost var before := scanned;
        for j := 0 to |w|
          invariant scanned == before + w[..j]
          invariant freq == CountMap(scanned) && order == FirstSeen(scanned)
        {
          var c := w[j];
          CountStep(scanned, c);
          if c in freq {
            freq := freq[c := freq[c] + 1];
          } else {
            freq := freq[c := 1];
            order := order + [c];
          }
          scanned := scanned + [c];
          assert w[..j + 1] == w[..j] + [c];
        }
        assert w[..|w|] == w;
        FlattenSnoc(ws, i);
      }
      assert ws[..|ws|] == ws;
      CountMapSpec(scanned);
      FirstSeenSpec(scanned);
      SumValuesCounts(order, freq, scanned);
      FrequencyTotal(ws);
    }

    /** Replaces the word list by the deduplicated scraped items. */
    method CreateListOfWords(scraped: seq<string>)
      modifies this
      ensures Valid()
      ensures forall w :: w in words <==> w in scraped
    {
      var clean := WordsCleaner(scraped);
      words := clean;
    }

    /** Sum, over the letters of `w`, of their counts in `freq` (a missing
        letter counts 0, as the defaultdict reads it). */
    static method WordScore(w: string, pool: seq<string>, freq: map<char, nat>) returns (sum: nat)
      requires forall c :: (if c in freq then freq[c] else 0) == Occurrences(pool, c)
      ensures sum == Score(w, pool)
    {
      sum := 0;
      for j := 0 to |w|
        invariant sum == Score(w[..j], pool)
      {
        ScoreSnoc(w, j, pool);
        sum := sum + (if w[j] in freq then freq[w[j]] else 0);
      }
      assert w[..|w|] == w;
    }

    /** The `word_score` dict over `pool`, filled by `word_score[word] = word_sum`
        for each word in turn (`order` is its key order). */
    static method WordScores(pool: seq<string>, freq: map<char, nat>)
      returns (wordScore: map<string, nat>, order: seq<string>)
      requires forall c :: (if c in freq then freq[c] else 0) == Occurrences(pool, c)
      ensures order == FirstSeen(pool)
      ensures forall w :: w in wordScore <==> w in pool
      ensures forall w :: w in wordScore ==> wordScore[w] == Score(w, pool)
    {
      wordScore, order := map[], [];
      for i := 0 to |pool|
        invariant order == FirstSeen(pool[..i])
        invariant forall w :: w in wordScore <==> w in pool[..i]
        invariant forall w :: w in wordScore ==> wordScore[w] == Score(w, pool)
      {
        var w := pool[i];
        var sum := WordScore(w, pool, freq);
        FirstSeenSnoc(pool, i);
        assert pool[..i + 1] == pool[..i] + [w];
        if w !in wordScore {
          order := order + [w];
        }
        wordScore := wordScore[w := sum];
      }
      assert pool[..|pool|] == pool;
    }

    /** The items of the `word_score` dict over `pool`: every distinct word
        with its score, in the order each was first assigned. */
    static method ScoreTable(pool: seq<string>) returns (scores: seq<(string, nat)>)
      ensures scores == Tabulate(FirstSeen(pool), ScoreOf(pool))
    {
      var freq, _ := CharFrequency(pool);
      assert forall c :: (if c in freq then freq[c] else 0) == Occurrences(pool, c);
      var wordScore, order := WordScores(pool, freq);
      FirstSeenSpec(pool);
      ItemsTabulate(order, wordScore, ScoreOf(pool));
      scores := Items(order, wordScore);
    }

    /** The greedily selected start words (see StartWords). */
    method IdealStartWord() returns (result: seq<string>)
      ensures result == StartWords(words)
    {
      var pool := NoRepetition(words);
      var scores := ScoreTable(pool);
      var ordered := Keys(RankByValue(scores));
      assert ordered == RankBy(FirstSeen(pool), ScoreOf(pool));
      result := [];
      var i := 0;
      while i < |ordered|
        invariant 0 <= i <= |ordered|
        invariant Select(ordered[i..], result) == StartWords(words)
      {
        var word := ordered[i];
        assert ordered[i..][1..] == ordered[i + 1..];
        if result == [] {
          result := [word];
          i := i + 1;
          continue;
        }
        if |result| > 10 {
          break;
        }
        var last := result[|result| - 1];
        if CommonLetters(last, word) < 3 {
          result := result + [word];
        }
        i := i + 1;
      }
    }

    /** The distinct characters ranked by frequency (see RankedLetters). */
    method HighlyProbableLetters() returns (letters: seq<char>)
      ensures letters == RankedLetters(words)
    {
      var freq, order := CharFrequency(words);
      FirstSeenSpec(Flatten(words));
      ItemsTabulate(order, freq, LetterFreq(words));
      letters := Keys(RankByValue(Items(order, freq)));
    }

    /** Whether every character of `sub` occurs in `word` exactly as often
        as in `sub`, checked over the keys of `Counter(sub)` until the first
        mismatch. */
    static method SameCounts(word: string, sub: string, counterSub: multiset<char>, keys: seq<char>)
      returns (addKey: bool)
      requires counterSub == multiset(sub) && keys == FirstSeen(sub)
      ensures addKey <==> ExactCounts(word, sub)
    {
      FirstSeenSpec(sub);
      addKey := true;
      var counterWord := multiset(word);
      var j := 0;
      while j < |keys|
        invariant 0 <= j <= |keys|
        invariant forall k :: 0 <= k < j ==> counterWord[keys[k]] == counterSub[keys[k]]
      {
        var c := keys[j];
        if c in counterWord && counterWord[c] == counterSub[c] {
          j := j + 1;
          continue;
        }
        addKey := false;
        assert !ExactCounts(word, sub);
        break;
      }
      if addKey {
        forall c | c in sub ensures counterWord[c] == counterSub[c] {
          var k :| 0 <= k < |keys| && keys[k] == c;
        }
      }
    }

    /** The words matching `sub` exactly, sorted, after the two checks on
        its length. */
    method FindWordWithASubstring(sub: string) returns (outcome: MatchOutcome)
      ensures |sub| > 5 ==> outcome == SubstringTooLong
      ensures |sub| == 0 ==> outcome == SubstringEmpty
      ensures 0 < |sub| <= 5 ==> outcome == Matches(SortLex(MatchingWords(words, sub)))
      ensures Valid() && 0 < |sub| <= 5 ==> outcome.Matches? && NoDup(outcome.found)
    {
      if |sub| > 5 {
        return SubstringTooLong;
      }
      if |sub| == 0 {
        return SubstringEmpty;
      }
      var result: seq<string> := [];
      var counterSub := multiset(sub);
      var keys := FirstSeen(sub);
      for i := 0 to |words|
        invariant result == MatchingWords(words[..i], sub)
      {
        var word := words[i];
        var addKey := SameCounts(word, sub, counterSub, keys);
        if addKey {
          result := result + [word];
        }
        assert words[..i + 1][..i] == words[..i];
      }
      assert words[..|words|] == words;
      if Valid() {
        SortedMatchesNoDup(words, sub);
      }
      outcome := Matches(SortLex(result));
    }
  }
}
