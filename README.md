# Wordle helper, modelled in Dafny

`wordle_helper.py` keeps a list of five-letter words, scraped once from a web
page and deduplicated. It offers three analyses over that list:

* **highly probable letters**: the distinct characters, ranked by how often
  they occur across all words;
* **ideal start words**: a greedy pick of high-scoring words whose letters are
  all distinct, each sharing fewer than three letters with the previous pick;
* **substring match**: the words containing every character of a short
  substring exactly as often as the substring does, sorted.

The model has four modules:

* `Collections` (`collections.dfy`): sequence facts the analyses rely on.
  - duplicate freedom (`NoDup`) and `set(...)` (`ToSet`);
  - the key order of a dict filled by scanning a sequence (`FirstSeen`);
  - concatenating the words (`Flatten`) and per-element counts;
  - sub-sequences.
* `Sorting` (`sorting.dfy`): the two sorts the program uses.
  - `sorted(d.items(), key=lambda item: -item[1])` is a stable insertion sort, `RankByValue`. `RankBy` ranks the keys of a dict with it.
  - `sorted` on strings is `SortLex`. It compares by character code, and a proper prefix comes first.
* `WordleSpec` (`wordle_spec.dfy`): what each analysis computes, as functions of the word list, and the lemmas proved about them.
* `Wordle` (`wordle_helper.dfy`): the class `WordleHelper`.
  - It has one field, `words: seq<string>`.
  - Its methods follow the Python loops: the nested counting loop, the score loop, the greedy selection with its `continue` and `break`, and the matching loop with its `add_key` flag.
  - Each method's contract says what it computes:
    - `CharFrequency` gives exact counts, the key order and the total, stated pointwise.
    - `IdealStartWord` equals `StartWords`, `HighlyProbableLetters` equals `RankedLetters`, and `FindWordWithASubstring` equals the sorted `MatchingWords`.
    - `WordsCleaner` and `CreateListOfWords` promise no duplicates and exactly the scraped items, because the order of `list(set(...))` is not known.
    - `SameCounts` is an if-and-only-if with `ExactCounts`.

How the Python data is represented:

* A Python dict is a `map` plus its key order. The key order is the order in which keys were first assigned, which is what `dict.items()` yields.
* A `collections.Counter` is a `multiset`.
* `list(set(...))` is a loop that takes an arbitrary element with `:|`. Only "a duplicate-free list of exactly the distinct inputs" is promised, not an order.
* The two printed warnings and the printed result of the substring search are returned as the datatype `MatchOutcome`.

The docstring of `ideal_start_word` speaks of the "top 10" words. The code checks `len(result) > 10` only before looking at the next candidate, so it can return 11 words. The model follows the code.

## Model

| member | source | states |
|---|---|---|
| Wordle.WordleHelper.constructor | wordle_helper.py:15-16 | A new helper holds the empty word list. |
| Wordle.WordleHelper.WordsCleaner | wordle_helper.py:26-31 | The cleaned list has no duplicates. A string is in it exactly when it is one of the scraped items. |
| Wordle.WordleHelper.CharFrequency | wordle_helper.py:34-40 | A character is a key exactly when it occurs in some word. Its count is its number of occurrences across all words, repeats inside a word included. The keys come in first-occurrence order. The counts sum to the total length of the words. |
| Wordle.CountMapSpec | wordle_helper.py:36-39 | The dict built by `freq[c] += 1` over a string holds exactly that string's characters, each with its number of occurrences. |
| Wordle.CountMap | wordle_helper.py:36-39 | The dict built by `freq[c] += 1` over the characters of a string in turn. A missing key starts at 0. |
| Collections.FirstSeen | wordle_helper.py:36-40 | The key order of a dict filled by scanning a sequence: each element once, at its first occurrence. |
| WordleSpec.FrequencyTotal | wordle_helper.py:34-40 | Over the distinct characters, the occurrence counts sum to the total length of the words. |
| Collections.FirstSeenSpec | wordle_helper.py:36-40 | The key order of a dict filled by scanning a sequence has no duplicates. It holds exactly the sequence's elements. Keys are ordered by their first occurrence. |
| Wordle.WordleHelper.CreateListOfWords | wordle_helper.py:42-46 | After the update, the word list is duplicate-free and holds exactly the scraped items. |
| WordleSpec.RankedLettersMembers | wordle_helper.py:78-81 | The letter ranking lists each character that occurs in some word, exactly once, and nothing else. |
| WordleSpec.RankedLettersOrder | wordle_helper.py:78-81 | Frequencies never increase along the letter ranking. |
| WordleSpec.RankedLettersStable | wordle_helper.py:78-81 | Characters of equal frequency keep their first-occurrence order, because the sort is stable. |
| Wordle.WordleHelper.HighlyProbableLetters | wordle_helper.py:78-81 | The method returns the letter ranking: the ranked keys of the character-frequency dict of `words`. |
| WordleSpec.RankedLetters | wordle_helper.py:78-81 | The distinct characters in first-occurrence order, stably ranked by descending frequency. |
| Sorting.Insert | wordle_helper.py:63 | One step of the stable descending sort: an item goes in front of the first item whose value is not larger. |
| Sorting.RankByValue | wordle_helper.py:63 | `sorted(items, key=lambda item: -item[1])`, as an insertion sort. |
| Sorting.RankBy | wordle_helper.py:63 | `[k for k, v in sorted(d.items(), key=lambda item: -item[1])]` for a dict `d` with `d[k] = f(k)`. |
| Sorting.RankByPermutation | wordle_helper.py:63 | Ranking dict items by descending value and keeping the keys gives a permutation of the keys. |
| Sorting.RankByOrder | wordle_helper.py:63 | In the ranked keys, values never increase. |
| Sorting.RankByStable | wordle_helper.py:63 | For every value, the keys having that value keep their dict order. |
| Sorting.RankByValuePermutation | wordle_helper.py:63 | The descending insertion sort returns a permutation of its items. |
| Sorting.RankByValueSorted | wordle_helper.py:63 | The descending insertion sort returns items of non-increasing value. |
| Sorting.RankByValueStable | wordle_helper.py:63 | For every value, the descending insertion sort keeps the input order of the items with that value. |
| Sorting.RankByValueKeys | wordle_helper.py:63 | The keys of the sorted items are a permutation of the keys of the input items. |
| Sorting.ItemsTabulate | wordle_helper.py:62-63 | Suppose a dict maps each of its keys `k` to `f(k)`. Then its items are the pairs `(k, f(k))` in key order. |
| Collections.ToSetSize | wordle_helper.py:51 | `len(set(w)) <= len(w)`, with equality exactly when `w` has no repeated element. |
| WordleSpec.HasNoRepeatedLetter | wordle_helper.py:51 | The comprehension's test `len(set(word)) == len(word)`. |
| WordleSpec.NoRepetition | wordle_helper.py:51 | The comprehension: the words passing that test, in list order. |
| WordleSpec.NoRepetitionSpec | wordle_helper.py:51 | The filter keeps exactly the words whose letters are all distinct, and adds no copies. |
| WordleSpec.NoRepetitionCounts | wordle_helper.py:51 | Each kept word occurs as often as in the list, and every other word occurs 0 times. |
| WordleSpec.NoRepetitionOrder | wordle_helper.py:51 | The filtered list is a sub-sequence of the list, so it keeps list order. |
| WordleSpec.Score | wordle_helper.py:59-61 | A word's score: the sum, over its letters, of each letter's frequency across the distinct-letter words. |
| Wordle.WordleHelper.WordScore | wordle_helper.py:59-61 | The summing loop computes the word's score: the sum of the frequencies of its letters, where an absent letter reads as 0 from the defaultdict. |
| Wordle.WordleHelper.WordScores | wordle_helper.py:58-62 | `word_score` holds exactly the distinct-letter words, each mapped to its score. Its key order is their first-occurrence order. |
| Wordle.WordleHelper.ScoreTable | wordle_helper.py:53-62 | `word_score.items()` pairs each distinct distinct-letter word with its score, in first-assignment order. Frequencies are taken over the distinct-letter words only. |
| WordleSpec.RankedCandidates | wordle_helper.py:53-63 | `all_words_in_order`: the keys of `word_score` (the distinct distinct-letter words, in first-seen order), stably ranked by descending score. |
| WordleSpec.RankedCandidatesSpec | wordle_helper.py:53-63 | The scored candidates have no duplicates. They are exactly the words with all-distinct letters. Scores never increase along them. Equal scores keep first-seen order. |
| WordleSpec.RankedCandidatesTies | wordle_helper.py:51-63 | For every score, the candidates with that score come in the order of the word list. |
| WordleSpec.CandidateOrderOfDistinct | wordle_helper.py:51-58 | On a duplicate-free word list, such as the one the class keeps, the keys of `word_score` are the filtered list itself, in list order. |
| WordleSpec.CommonLetters | wordle_helper.py:74 | `len(''.join(set(a).intersection(b)))`: the number of distinct letters two words share. |
| WordleSpec.Select | wordle_helper.py:64-76 | The greedy loop. The first candidate is always taken. Once more than 10 words are taken, the scan stops at the next candidate. Otherwise a candidate is taken when it shares fewer than 3 distinct letters with the last word taken. |
| WordleSpec.StartWords | wordle_helper.py:48-76 | The result of `ideal_start_word`: the greedy selection over the ranked candidates. |
| WordleSpec.SelectExtends | wordle_helper.py:64-76 | The greedy loop only appends. Starting from an empty result, it keeps between 1 and 11 words when there is a candidate, and 11 at most because the length check comes before the append. |
| WordleSpec.SelectSubsequence | wordle_helper.py:67-75 | What the greedy loop appends is a sub-sequence of the candidate order. |
| WordleSpec.SelectNeighbours | wordle_helper.py:73-75 | The greedy loop keeps "each word shares fewer than 3 distinct letters with the word before it". |
| Wordle.WordleHelper.IdealStartWord | wordle_helper.py:48-76 | The method returns `StartWords(words)`: the greedy selection over the ranked candidates. |
| WordleSpec.StartWordsMembers | wordle_helper.py:51-75 | Every start word is a word of the list, and its letters are all distinct. |
| WordleSpec.StartWordsOrder | wordle_helper.py:53-69 | The start words are a sub-sequence of the descending-score order. When there is one, the first is the top-ranked candidate, and no distinct-letter word scores higher. |
| WordleSpec.StartWordsNeighbours | wordle_helper.py:73-75 | Each start word after the first shares fewer than 3 distinct letters with the one before it. |
| WordleSpec.StartWordsSize | wordle_helper.py:64-72 | There are at most 11 start words. There are none exactly when no word has all-distinct letters. |
| Wordle.WordleHelper.SameCounts | wordle_helper.py:94-100 | The loop over `Counter(substring).items()` ends with `add_key` true exactly when every substring character occurs in the word as often as in the substring. |
| WordleSpec.ExactCounts | wordle_helper.py:95-100 | Every character of the substring occurs in the word exactly as often as in the substring. |
| WordleSpec.MatchingWords | wordle_helper.py:93-102 | The words passing that test, in list order. |
| WordleSpec.MatchingWordsSpec | wordle_helper.py:93-102 | The kept words are exactly the list's words with those exact counts, and no copies are added. |
| WordleSpec.MatchingWordsCounts | wordle_helper.py:93-102 | Each matching word is kept as often as it occurs in the list, and every other word 0 times. |
| WordleSpec.MatchingWordsOrder | wordle_helper.py:93-102 | The kept words are a sub-sequence of the list, so they keep list order. |
| WordleSpec.SortedMatchesNoDup | wordle_helper.py:91-103 | On a duplicate-free word list, the reported matches have no duplicates. |
| WordleSpec.SortedMatchesSpec | wordle_helper.py:101-103 | The reported matches are sorted. They are a permutation of the kept words, so exactly the matching words. |
| Sorting.LexLeq | wordle_helper.py:103 | Python's `<=` on strings: compare by character code, and a proper prefix comes first. |
| Sorting.InsertLex | wordle_helper.py:103 | One step of the string sort: a string goes in front of the first string it is `<=` to. |
| Sorting.SortLex | wordle_helper.py:103 | `sorted` on a list of strings, as an insertion sort. |
| Sorting.SortLexSpec | wordle_helper.py:103 | `sorted` on strings returns a lexicographically sorted permutation of its input. |
| Sorting.LexTotal | wordle_helper.py:103 | Any two strings are comparable under Python's string order. |
| Sorting.LexTransitive | wordle_helper.py:103 | Python's string order is transitive. |
| Wordle.WordleHelper.FindWordWithASubstring | wordle_helper.py:83-103 | A substring longer than 5 gives "too long". Otherwise an empty one gives "empty". Otherwise the result is the sorted list of the words whose count of every substring character equals its count in the substring. On the duplicate-free word list the class keeps, these matches have no duplicates. |

## Left out

- `_fetch_from_site` (HTTP request and HTML parsing) is not part of this model. Its result, the scraped `li` elements, is the parameter of `CreateListOfWords`, taken as the strings their `.string` yields. A `None` from bs4 is not represented.
- `main` is not modelled: the command-line dispatch, usage messages and `sys.exit`.
- The `print` calls of `find_word_with_a_substring` are not modelled. The method returns the outcome instead.
- `find_word_with_a_substring` called without an argument is not modelled. Its default `None` makes Python raise on `len(None)`, and the model's parameter is always a string.
- Wordle.WordleHelper.WordsCleaner: the order of `list(set(...))` is not pinned down. It depends on string hashing, so the contract promises only membership and no duplicates. The later stable sorts break ties relative to whichever order this produces.
- Line 61 never reads an absent key from the `defaultdict`. `char_freq` is built from `words_with_no_repetition` (line 53), and every scored word comes from that same list (line 58), so each of its letters is a key. `WordScore` still reads an absent letter as 0, as a `defaultdict(int)` would; called from `IdealStartWord`, that branch is never taken.
- Characters are Dafny `char`s and strings are sequences of them. The model has no Unicode normalisation, and `sorted` compares by character code, as Python does.
