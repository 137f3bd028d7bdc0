/** `top_sentences`: ranking of sentences against a query.

    A sentence is keyed by the pair (sum of the IDFs of the distinct query
    words it contains, the number of those words divided by its length).
    Pairs compare lexicographically, so the density only breaks ties of the
    IDF sum; sentences with equal pairs stay in input order. */
module SentenceRanker {
  import opened Corpus
  import opened Sums
  import opened Ranking

  /** The query words that occur in the sentence. */
  function Hits(query: set<string>, tokens: seq<string>): set<string>
  {
    set w | w in query && w in tokens
  }

  /** The term `idfs.get(word, 0)` of a query word, counted only when the
      word is in the sentence. */
  function IdfIfPresent(tokens: seq<string>, idfs: map<string, real>, word: string): real
  {
    if word in tokens then Get(idfs, word) else 0.0
  }

  function IdfsIfPresent(tokens: seq<string>, idfs: map<string, real>): string -> real
  {
    w => IdfIfPresent(tokens, idfs, w)
  }

  /** The first component, `sum_idf`. */
  ghost function SentenceIdf(query: set<string>, tokens: seq<string>, idfs: map<string, real>): real
  {
    SetSum(query, IdfsIfPresent(tokens, idfs))
  }

  /** `word_count / len(sentence_list)`, Python 3's true division. */
  function Density(wordCount: nat, length: nat): real
    requires length > 0
  {
    wordCount as real / length as real
  }

  /** The key `(sum_idf, word_count / len(sentence_list))` of a sentence. */
  ghost function SentenceScore(query: set<string>, tokens: seq<string>, idfs: map<string, real>): (real, real)
    requires |tokens| > 0
  {
    (SentenceIdf(query, tokens, idfs), Density(|Hits(query, tokens)|, |tokens|))
  }

  /** Every sentence registered has at least one token: the caller keeps
      only sentences whose token list is non-empty. */
  predicate NonEmptySentences(sentences: seq<Entry>)
  {
    forall k :: 0 <= k < |sentences| ==> |sentences[k].tokens| > 0
  }

  /** The key of the sentence stored under `name`; names that are not
      stored (which the ranking never looks at) get `(0, 0)`. */
  ghost function ScoreOfName(query: set<string>, sentences: seq<Entry>, idfs: map<string, real>, name: string): (real, real)
  {
    var tokens := TokensOf(sentences, name);
    if |tokens| == 0 then (0.0, 0.0) else SentenceScore(query, tokens, idfs)
  }

  /** The sort key, `lambda x: sentences_rank[x]`, as the specification sees it. */
  ghost function ScoreByName(query: set<string>, sentences: seq<Entry>, idfs: map<string, real>): string -> (real, real)
  {
    name => ScoreOfName(query, sentences, idfs, name)
  }

  /** `a` ranks no lower than `b`: the negation of Python's `b > a` on pairs. */
  predicate LexAtLeast(a: (real, real), b: (real, real))
  {
    a.0 > b.0 || (a.0 == b.0 && a.1 >= b.1)
  }

  /** The body of the loop over the query in `top_sentences`: one
      sentence's key, visiting the query in whatever order the set yields. */
  method RankSentence(query: set<string>, tokens: seq<string>, idfs: map<string, real>)
    returns (rank: (real, real))
    requires |tokens| > 0
    ensures rank == SentenceScore(query, tokens, idfs)
    ensures 0.0 <= rank.1 <= 1.0
  {
    var sumIdf := 0.0;
    var wordCount: nat := 0;
    var remaining := query;
    while remaining != {}
      invariant remaining <= query
      invariant sumIdf + SetSum(remaining, IdfsIfPresent(tokens, idfs)) == SentenceIdf(query, tokens, idfs)
      invariant wordCount + |Hits(remaining, tokens)| == |Hits(query, tokens)|
    {
      var word :| word in remaining;
      SetSumPick(remaining, IdfsIfPresent(tokens, idfs), word);
      HitsRemove(remaining, tokens, word);
      if word in tokens {
        sumIdf := sumIdf + Get(idfs, word);
        wordCount := wordCount + 1;
      }
      remaining := remaining - {word};
    }
    rank := (sumIdf, Density(wordCount, |tokens|));
    DensityBounds(query, tokens);
  }

  lemma HitsRemove(remaining: set<string>, tokens: seq<string>, word: string)
    requires word in remaining
    ensures |Hits(remaining, tokens)| == |Hits(remaining - {word}, tokens)| + (if word in tokens then 1 else 0)
  {
    if word in tokens {
      assert Hits(remaining, tokens) == Hits(remaining - {word}, tokens) + {word};
    } else {
      assert Hits(remaining, tokens) == Hits(remaining - {word}, tokens);
    }
  }

  /** A sentence holds no more distinct words than tokens. */
  lemma {:induction false} TokenSetBound(tokens: seq<string>)
    ensures |TokenSet(tokens)| <= |tokens|
  {
    if tokens != [] {
      var init := tokens[..|tokens| - 1];
      TokenSetBound(init);
      assert TokenSet(tokens) == TokenSet(init) + {tokens[|tokens| - 1]};
    }
  }

  lemma SubsetCardinality(a: set<string>, b: set<string>)
    requires a <= b
    ensures |a| <= |b|
  {
    assert b == a + (b - a);
  }

  /** The density lies between 0 and 1: at most `len(tokens)` distinct
      query words can be present. */
  lemma DensityBounds(query: set<string>, tokens: seq<string>)
    requires |tokens| > 0
    ensures 0.0 <= Density(|Hits(query, tokens)|, |tokens|) <= 1.0
  {
    TokenSetBound(tokens);
    SubsetCardinality(Hits(query, tokens), TokenSet(tokens));
    if |Hits(query, tokens)| > 0 {
      DivAntitone(|Hits(query, tokens)| as real, |Hits(query, tokens)| as real, |tokens| as real);
    }
  }

  /** `top_sentences(query, sentences, idfs, n)`. */
  method TopSentences(query: set<string>, sentences: seq<Entry>, idfs: map<string, real>, n: nat)
    returns (ranks: seq<string>)
    requires Distinct(Names(sentences))
    requires NonEmptySentences(sentences)
    ensures ranks == Top(Names(sentences), ScoreByName(query, sentences, idfs), LexGreater, n)
    ensures |ranks| == Min(n, |sentences|)
    ensures Distinct(ranks)
    ensures forall s :: s in ranks ==> s in Names(sentences)
    ensures forall i, j :: 0 <= i < j < |ranks| ==>
              LexAtLeast(ScoreOfName(query, sentences, idfs, ranks[i]), ScoreOfName(query, sentences, idfs, ranks[j]))
    ensures forall s, t :: s in Names(sentences) && s !in ranks && t in ranks ==>
              LexAtLeast(ScoreOfName(query, sentences, idfs, t), ScoreOfName(query, sentences, idfs, s))
    ensures forall key :: WithScore(ranks, ScoreByName(query, sentences, idfs), key)
                       <= WithScore(Names(sentences), ScoreByName(query, sentences, idfs), key)
  {
    var sentencesRank: map<string, (real, real)> := map[];
    var i := 0;
    while i < |sentences|
      invariant 0 <= i <= |sentences|
      invariant forall k :: 0 <= k < i ==>
                  sentences[k].name in sentencesRank &&
                  sentencesRank[sentences[k].name] == SentenceScore(query, sentences[k].tokens, idfs)
    {
      var rank := RankSentence(query, sentences[i].tokens, idfs);
      forall k | 0 <= k < i ensures sentences[k].name != sentences[i].name {
        assert Names(sentences)[k] != Names(sentences)[i];
      }
      sentencesRank := sentencesRank[sentences[i].name := rank];
      i := i + 1;
    }

    var names := Names(sentences);
    ranks := Top(names, name => if name in sentencesRank then sentencesRank[name] else (0.0, 0.0), LexGreater, n);

    ghost var score := ScoreByName(query, sentences, idfs);
    forall name | name in names
      ensures (if name in sentencesRank then sentencesRank[name] else (0.0, 0.0)) == score(name)
    {
      var k :| 0 <= k < |names| && names[k] == name;
      TokensOfEntry(sentences, k);
    }
    SortCongruent(names, name => if name in sentencesRank then sentencesRank[name] else (0.0, 0.0), score, LexGreater);
    RankingDistinct(query, sentences, idfs, n);
    RankingOrdered(query, sentences, idfs, n);
    RankingKeepsBest(query, sentences, idfs, n);
    forall key ensures WithScore(ranks, score, key) <= WithScore(names, score, key) {
      RankingStable(query, sentences, idfs, n, key);
    }
  }

  // --------------------------------------------------------- the ranking

  /** The ranking names sentences of the input, none twice. */
  lemma RankingDistinct(query: set<string>, sentences: seq<Entry>, idfs: map<string, real>, n: nat)
    requires Distinct(Names(sentences))
    ensures Distinct(Top(Names(sentences), ScoreByName(query, sentences, idfs), LexGreater, n))
    ensures forall s :: s in Top(Names(sentences), ScoreByName(query, sentences, idfs), LexGreater, n) ==>
              s in Names(sentences)
  {
    TopDistinct(Names(sentences), ScoreByName(query, sentences, idfs), LexGreater, n);
    TopSubPermutation(Names(sentences), ScoreByName(query, sentences, idfs), LexGreater, n);
  }

  /** The ranking lists sentences by non-increasing IDF sum, and by
      non-increasing density among equal sums. */
  lemma RankingOrdered(query: set<string>, sentences: seq<Entry>, idfs: map<string, real>, n: nat)
    ensures var ranks := Top(Names(sentences), ScoreByName(query, sentences, idfs), LexGreater, n);
      forall i, j :: 0 <= i < j < |ranks| ==>
        LexAtLeast(ScoreOfName(query, sentences, idfs, ranks[i]), ScoreOfName(query, sentences, idfs, ranks[j]))
  {
    LexGreaterIsStrictTotalOrder();
    TopDescending(Names(sentences), ScoreByName(query, sentences, idfs), LexGreater, n);
  }

  /** No sentence left out ranks above a sentence kept. */
  lemma RankingKeepsBest(query: set<string>, sentences: seq<Entry>, idfs: map<string, real>, n: nat)
    ensures var ranks := Top(Names(sentences), ScoreByName(query, sentences, idfs), LexGreater, n);
      forall s, t :: s in Names(sentences) && s !in ranks && t in ranks ==>
        LexAtLeast(ScoreOfName(query, sentences, idfs, t), ScoreOfName(query, sentences, idfs, s))
  {
    var score := ScoreByName(query, sentences, idfs);
    var ranks := Top(Names(sentences), score, LexGreater, n);
    LexGreaterIsStrictTotalOrder();
    TopKeepsBest(Names(sentences), score, LexGreater, n);
    forall s, t | s in Names(sentences) && s !in ranks && t in ranks
      ensures LexAtLeast(ScoreOfName(query, sentences, idfs, t), ScoreOfName(query, sentences, idfs, s))
    {
      assert !LexGreater(score(s), score(t));
    }
  }

  /** Sentences with equal keys keep their input order, and the earliest of
      them are the ones kept. */
  lemma RankingStable(query: set<string>, sentences: seq<Entry>, idfs: map<string, real>, n: nat, key: (real, real))
    ensures WithScore(Top(Names(sentences), ScoreByName(query, sentences, idfs), LexGreater, n), ScoreByName(query, sentences, idfs), key)
         <= WithScore(Names(sentences), ScoreByName(query, sentences, idfs), key)
  {
    LexGreaterIsStrictTotalOrder();
    TopStable(Names(sentences), ScoreByName(query, sentences, idfs), LexGreater, n, key);
  }

  // ------------------------------------------------------------ the key

  /** A query word missing from the IDF table adds 0 to the IDF sum (and
      raises no error), though it still counts towards the density. */
  lemma UnknownWordAddsNoIdf(query: set<string>, tokens: seq<string>, idfs: map<string, real>, w: string)
    requires w in query && w !in idfs
    ensures SentenceIdf(query, tokens, idfs) == SentenceIdf(query - {w}, tokens, idfs)
  {
    SetSumDropZero(query, IdfsIfPresent(tokens, idfs), w);
  }

  /** `idfs.get(word, 0)` for every word. */
  function IdfLookup(idfs: map<string, real>): string -> real
  {
    w => Get(idfs, w)
  }

  /** The IDF sum is the sum over the query words present in the sentence. */
  lemma SentenceIdfOverHits(query: set<string>, tokens: seq<string>, idfs: map<string, real>)
    ensures SentenceIdf(query, tokens, idfs) == SetSum(Hits(query, tokens), IdfLookup(idfs))
  {
    SentenceIdfOverHitsAux(query, tokens, idfs);
  }

  lemma {:induction false} SentenceIdfOverHitsAux(query: set<string>, tokens: seq<string>, idfs: map<string, real>)
    ensures SetSum(query, IdfsIfPresent(tokens, idfs)) == SetSum(Hits(query, tokens), IdfLookup(idfs))
    decreases query
  {
    if query != {} {
      var w :| w in query;
      SetSumPick(query, IdfsIfPresent(tokens, idfs), w);
      SentenceIdfOverHitsAux(query - {w}, tokens, idfs);
      if w in tokens {
        assert Hits(query, tokens) - {w} == Hits(query - {w}, tokens);
        SetSumPick(Hits(query, tokens), IdfLookup(idfs), w);
      } else {
        assert Hits(query, tokens) == Hits(query - {w}, tokens);
      }
    }
  }

  // ------------------------------------------------------- worked example

  /** Two sentences: "s1" = rain sky wind sun and "s2" = cloud grey. */
  function ExampleSentences(): seq<Entry>
  {
    [Entry("s1", ["rain", "sky", "wind", "sun"]), Entry("s2", ["cloud", "grey"])]
  }

  function ExampleQuery(): set<string>
  {
    {"rain", "cloud"}
  }

  function ExampleIdfs(): map<string, real>
  {
    map["rain" := 1.0, "cloud" := 1.0]
  }

  /** Each sentence holds one query word of IDF 1, so both sum to 1.0;
      their densities are 1/4 and 1/2. */
  lemma ExampleScores()
    ensures ScoreOfName(ExampleQuery(), ExampleSentences(), ExampleIdfs(), "s1") == (1.0, 0.25)
    ensures ScoreOfName(ExampleQuery(), ExampleSentences(), ExampleIdfs(), "s2") == (1.0, 0.5)
  {
    var sentences := ExampleSentences();
    assert TokensOf(sentences, "s1") == sentences[0].tokens;
    assert TokensOf(sentences, "s2") == sentences[1].tokens;
    assert Hits(ExampleQuery(), sentences[0].tokens) == {"rain"};
    assert Hits(ExampleQuery(), sentences[1].tokens) == {"cloud"};
    SentenceIdfOverHits(ExampleQuery(), sentences[0].tokens, ExampleIdfs());
    SentenceIdfOverHits(ExampleQuery(), sentences[1].tokens, ExampleIdfs());
    SetSumPick({"rain"}, IdfLookup(ExampleIdfs()), "rain");
    SetSumPick({"cloud"}, IdfLookup(ExampleIdfs()), "cloud");
    assert {"rain"} - {"rain"} == {} && {"cloud"} - {"cloud"} == {};
  }

  /** Ranking two names of which the second is strictly above the first
      swaps them. */
  lemma ExampleSwap(score: string -> (real, real))
    requires LexGreater(score("s2"), score("s1"))
    ensures Top(["s1", "s2"], score, LexGreater, 2) == ["s2", "s1"]
  {
    assert ["s1", "s2"][1..] == ["s2"];
    assert ["s2"][1..] == [];
    assert SortDesc(["s2"], score, LexGreater) == ["s2"];
    assert Insert("s1", [], score, LexGreater) == ["s1"];
  }

  /** The IDF sums tie, so the denser "s2" ranks first. */
  lemma ExampleTieBreak()
    ensures Top(Names(ExampleSentences()), ScoreByName(ExampleQuery(), ExampleSentences(), ExampleIdfs()), LexGreater, 2)
         == ["s2", "s1"]
  {
    var score := ScoreByName(ExampleQuery(), ExampleSentences(), ExampleIdfs());
    ExampleScores();
    assert score("s1") == (1.0, 0.25) && score("s2") == (1.0, 0.5);
    assert Names(ExampleSentences()) == ["s1", "s2"];
    ExampleSwap(score);
  }
}
