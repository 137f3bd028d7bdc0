# TF-IDF question answering, modelled in Dafny

`questions.py` answers a question from a corpus of text files in two
rounds of TF-IDF ranking. In the first round, the files are tokenised
(lower-cased, with stop words and punctuation removed). An inverse
document frequency (IDF) is then computed for every word, and the files
are ranked against the query by the sum of term frequency times IDF. In
the second round, the sentences of the best file are ranked by the pair
(sum of the IDFs of the query words they contain, query-term density).

This project models the four functions that do the computing:

- the filtering loop of `tokenize`, in `tokenize.dfy`;
- `compute_idfs`, in `idf.dfy`;
- `top_files`, in `top_files.dfy`;
- `top_sentences`, in `top_sentences.dfy`.

Three support files are shared by those four:

- `corpus.dfy` models a Python dict from names to token lists as a sequence of `Entry` values with distinct names, in insertion order.
- `sums.dfy` sums a term over a Python `set`, visited in whatever order the set yields.
- `ranking.dfy` models `sorted(keys, key=..., reverse=True)[:n]` as a stable insertion sort followed by a prefix.

Each function that the source writes as a loop is a Dafny `method` with that loop. Its `ensures` ties the result to a specification function, and lemmas state the properties of that function:

- `FilterTokens` is tied to `Normalize`.
- `ComputeIdfs` is tied to `Vocabulary`, `DocFreq` and `IdfOf`.
- `TopFiles` is tied to `Top` over `FileScore`.
- `TopSentences` is tied to `Top` over `SentenceScore`.

Parameters of the model stand for what the source gets from libraries:

- `math.log` is a function `ln`. The lemmas that depend on it assume only `IsLog`: `ln(1) = 0`, and `ln` is monotone on the positive reals.
- `str.lower` is a function `lower`.
- The NLTK stop-word list and `string.punctuation` are sets.
- Floats are exact reals.

## Model

| member | source | states |
|---|---|---|
| Tokenize.FilterTokens | questions.py:72-77 | the backward loop, which lower-cases each token in place and deletes it if it is a stop word or punctuation, returns exactly `Normalize(tokens)`: the kept tokens, lower-cased, in their original order; no returned word is a stop word or punctuation |
| Tokenize.NormalizeMembers | questions.py:72-75 | a word is in the result if and only if it is the lower-case form of some token and is neither a stop word nor punctuation |
| Tokenize.NormalizeKeepsNoDropped | questions.py:74-75 | no word of the result is a stop word or punctuation |
| Tokenize.NormalizeLength | questions.py:72-75 | the result is never longer than the input; it has the same length if and only if no lower-cased token is dropped |
| Tokenize.NormalizeIdempotent | questions.py:72-75 | tokenizing the filtered list a second time changes nothing, provided lower-casing is idempotent |
| Idf.ComputeIdfs | questions.py:80-102 | the keys of the returned table are exactly the words that occur in some unit; each word's value is `ln(N / df)`, where `df` is the number of units that contain the word and `1 <= df <= N`; no units give an empty table |
| Idf.TokenSetStep | questions.py:91-97 | one more token adds itself to the unit's set of words already seen (`file_words`) |
| Idf.CountStep | questions.py:92-97 | counting a word seen for the first time in a unit adds one to its count and keeps the table equal to the document frequencies so far |
| Idf.PrefixStep | questions.py:90-97 | one more unit adds its token set to the vocabulary and adds one to the frequency of each of its words |
| Idf.VocabularyComplete | questions.py:85-97 | a word is in the vocabulary if and only if some unit contains it |
| Idf.DocFreqBounds | questions.py:90-97 | a word is in the vocabulary if and only if its document frequency is at least 1; no frequency exceeds the number of units |
| Idf.DocFreqCountsUnits | questions.py:91-97 | the document frequency is the number of units that contain the word, however often each unit repeats it |
| Idf.DocFreqAll | questions.py:90-97 | `df == N` if and only if every unit contains the word |
| Idf.IdfNonNegative | questions.py:99-100 | `log(N / df) >= 0` whenever `1 <= df <= N` |
| Idf.IdfZeroEverywhere | questions.py:99-100 | a word found in all `N` units has IDF `log 1 = 0` |
| Idf.IdfAntitone | questions.py:99-100 | the IDF never grows with the document frequency |
| Idf.IdfTableProperties | questions.py:99-102 | every IDF in a `compute_idfs` table is non-negative; a word present in every unit weighs 0; a word in fewer units weighs at least as much |
| Sums.SetSumPick | questions.py:117-118 | any query word can be summed first, so a sum over the query does not depend on set iteration order |
| Sums.SetSumNonNegative | questions.py:117-118 | a sum of non-negative terms is non-negative |
| Sums.SetSumDropZero | questions.py:117-118 | a word whose term is 0 can be dropped from the query without changing the sum |
| Ranking.GreaterIsStrictTotalOrder | questions.py:120 | `>` on scores is a strict total order |
| Ranking.LexGreaterIsStrictTotalOrder | questions.py:141 | `>` on (IDF sum, density) pairs, which compares the first components and breaks ties with the second, is a strict total order |
| Ranking.Insert | questions.py:120 | insertion adds exactly one key: the length grows by one and the multiset of keys gains `x` |
| Ranking.SortDesc | questions.py:120 | the sort is a permutation: it keeps the length and the multiset of keys |
| Ranking.Top | questions.py:120-121 | the result has `min(n, len(keys))` keys; it is empty when `n = 0` |
| Ranking.InsertDescending | questions.py:120 | inserting into a list sorted in descending order keeps it sorted |
| Ranking.SortDescending | questions.py:120 | the sort orders keys by non-increasing score |
| Ranking.WithScoreAppend | questions.py:120 | the keys of a given score in a concatenation are those of each part, in order |
| Ranking.WithScoreCons | questions.py:120 | the keys of a given score in `[k] + rest`: `k`, if it has that score, then those of `rest` |
| Ranking.InsertWithScore | questions.py:120 | the inserted key goes before every key of its own score, and keys of every other score keep their order |
| Ranking.SortStable | questions.py:120 | stability, as with `reverse=True`: for each score, the keys with that score come out in input order |
| Ranking.WithScoreOfPrefix | questions.py:121 | for each score, the keys of a prefix that have it form a prefix of the whole list's keys with that score |
| Ranking.TopSubPermutation | questions.py:120-121 | every kept key comes from the input, and none occurs more often than in the input |
| Ranking.TopDescending | questions.py:120-121 | the kept keys are in descending order of score |
| Ranking.TopStable | questions.py:120-121 | for each score, the kept keys with that score are the earliest input keys with it, in input order |
| Ranking.TopKeepsBest | questions.py:120-121 | no key that is left out scores strictly above a kept key |
| Ranking.InsertDistinct | questions.py:120 | inserting a new key into a list without repeats leaves it without repeats |
| Ranking.SortDistinct | questions.py:120 | sorting distinct keys keeps them distinct |
| Ranking.TopDistinct | questions.py:120-121 | the result of ranking distinct keys has no repeats |
| Ranking.InsertCongruent | questions.py:120 | insertion depends only on the scores of the keys involved |
| Ranking.SortCongruent | questions.py:120 | two score functions that agree on the keys give the same sort, so sorting on the stored `ranked_files` values equals sorting on the specified scores |
| Corpus.TokensOfEntry | questions.py:114 | with distinct names, looking up an entry's name gives that entry's tokens |
| DocumentRanker.TopFiles | questions.py:105-121 | the result equals the stable descending sort of the file names by TF-IDF score, cut to `n`. It has `min(n, len(files))` distinct names of input files, in non-increasing score order. No file left out beats a file kept. Ties keep input order, and the earliest tied files are the ones kept |
| DocumentRanker.RankingDistinct | questions.py:120-121 | the ranking names only input files, each at most once |
| DocumentRanker.RankingOrdered | questions.py:120-121 | the ranked files have non-increasing scores |
| DocumentRanker.RankingKeepsBest | questions.py:120-121 | no file left out scores above a file kept |
| DocumentRanker.RankingStable | questions.py:120-121 | files with equal scores appear in input order, and the earliest of them are kept |
| DocumentRanker.UnknownWordScoresZero | questions.py:117-118 | a query word missing from the IDF table contributes 0 and raises no error |
| DocumentRanker.AbsentWordScoresZero | questions.py:115-118 | a query word that the file lacks contributes 0 |
| DocumentRanker.SingleWordScore | questions.py:115-118 | a one-word query scores the word's count in the file times its IDF |
| DocumentRanker.ScoreNonNegative | questions.py:113-119 | with non-negative IDFs, as `compute_idfs` produces, every file score is non-negative |
| DocumentRanker.ExampleFrequencies | questions.py:88-97 | for d1 = "ai ai python" and d2 = "python", the vocabulary is {ai, python}, with document frequencies 1 and 2 |
| DocumentRanker.ExampleComputedIdfs | questions.py:88-102 | on those two documents, any table meeting `ComputeIdfs`'s contract maps ai to `log(2/1)` and python to `log(2/2)`, the table the ranking example uses |
| DocumentRanker.ExampleScores | questions.py:113-119 | with those IDFs, the query {ai} scores d1 at `2 * log 2` and d2 at 0 |
| DocumentRanker.ExampleKeepFirst | questions.py:120-121 | when the second name is not strictly above the first, the top 1 is the first name |
| DocumentRanker.ExampleTopFile | questions.py:105-121 | on that corpus, the one top file for {ai} is d1 |
| SentenceRanker.RankSentence | questions.py:134-140 | the loop over the query computes exactly the key (sum of the IDFs of the query words present, number present / sentence length), in any set order; the density lies in [0, 1] |
| SentenceRanker.HitsRemove | questions.py:137-139 | removing a visited word from the pending set lowers the count of present query words by one exactly when the sentence contains it |
| SentenceRanker.TokenSetBound | questions.py:140 | a sentence has no more distinct words than tokens |
| SentenceRanker.DensityBounds | questions.py:140 | the query-term density `word_count / len(sentence_list)` lies between 0 and 1 |
| SentenceRanker.TopSentences | questions.py:124-142 | the result equals the stable descending sort of the sentences by (IDF sum, density), cut to `n`. It has `min(n, len(sentences))` distinct input sentences, in lexicographically non-increasing key order. No sentence left out ranks above a kept one. Equal keys keep input order |
| SentenceRanker.RankingDistinct | questions.py:141-142 | the ranking names only input sentences, each at most once |
| SentenceRanker.RankingOrdered | questions.py:141-142 | the IDF sums never increase along the ranking; between equal sums, the densities never increase |
| SentenceRanker.RankingKeepsBest | questions.py:141-142 | no sentence left out ranks above a sentence kept |
| SentenceRanker.RankingStable | questions.py:141-142 | sentences with equal keys keep input order, and the earliest of them are kept |
| SentenceRanker.UnknownWordAddsNoIdf | questions.py:137-138 | a query word missing from the IDF table adds 0 to the IDF sum |
| SentenceRanker.SentenceIdfOverHits | questions.py:136-138 | the IDF sum is the sum of the IDFs of exactly the query words present in the sentence |
| SentenceRanker.SentenceIdfOverHitsAux | questions.py:136-138 | the same equality, proved by induction on the query |
| SentenceRanker.ExampleScores | questions.py:132-140 | "rain sky wind sun" and "cloud grey", against {rain, cloud} with IDF 1 each, get the keys (1, 0.25) and (1, 0.5) |
| SentenceRanker.ExampleSwap | questions.py:141-142 | when the second name is strictly above the first, the top 2 are the two names swapped |
| SentenceRanker.ExampleTieBreak | questions.py:124-142 | the IDF sums tie, so the denser sentence ranks first |

## Left out

- `main` is not modelled (lines 12-45). This covers command-line handling, reading the query, splitting files into passages and sentences, and printing. It is I/O.
- `load_files` is not modelled (lines 47-58). It is file-system I/O.
- `nltk.word_tokenize`, `nltk.corpus.stopwords`, `string.punctuation` and `str.lower` are not modelled; they become parameters of `FilterTokens`.
- `math.log` is the parameter `ln`. Lemmas about IDF values assume only `ln(1) = 0` and monotonicity.
- Floats are exact reals, so rounding is not modelled.
- Python dicts are sequences of entries with distinct names, in insertion order. `main`'s overwrite of a repeated sentence (line 38) happens before the ranking and is not modelled.
- Idf.ComputeIdfs: the source overwrites each count with its IDF in the same dict (line 100). The model writes the IDFs into a second map built from the counts, and the values are the same.
- Python's iteration order over the query set is not modelled: each loop picks any remaining word. `SetSumPick` shows that the order does not matter.
- SentenceRanker.RankSentence is the body of `top_sentences`'s outer loop, written as its own method. `TopFiles` keeps its inner loop in place.
- SentenceRanker.TopSentences requires every sentence to have at least one token. The source raises `ZeroDivisionError` on an empty one (line 140). Its only caller, `main`, never passes one (line 37), so that error path is not modelled.
- SentenceRanker.ScoreOfName gives `(0, 0)` to a name that is not a stored sentence. The ranking only looks up stored names, so this value is never used.
