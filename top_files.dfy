/** `top_files`: TF-IDF ranking of the documents against a query.

    A document scores the sum, over the query's words, of the number of
    times the word occurs in it times the word's IDF (0 for a word missing
    from the table). The names are then sorted by descending score, ties in
    input order, and the first `n` returned. */
module DocumentRanker {
  import opened Corpus
  import opened Sums
  import opened Ranking
  import opened Idf

  /** `word_counter.get(word, 0) * idfs.get(word, 0)`, where `word_counter`
      is `Counter(content)`: a multiset, which counts 0 for a word not in it. */
  function TermWeight(wordCounter: multiset<string>, idfs: map<string, real>, word: string): real
  {
    (wordCounter[word] as real) * Get(idfs, word)
  }

  /** The term of each query word for a document's tokens. */
  function TermWeights(content: seq<string>, idfs: map<string, real>): string -> real
  {
    w => TermWeight(multiset(content), idfs, w)
  }

  /** The TF-IDF score of a document's tokens against the query. */
  ghost function FileScore(query: set<string>, content: seq<string>, idfs: map<string, real>): real
  {
    SetSum(query, TermWeights(content, idfs))
  }

  /** The score of the document stored under `name`. */
  ghost function ScoreOfName(query: set<string>, files: seq<Entry>, idfs: map<string, real>, name: string): real
  {
    FileScore(query, TokensOf(files, name), idfs)
  }

  /** The sort key, `lambda x: ranked_files[x]`, as the specification sees it. */
  ghost function ScoreByName(query: set<string>, files: seq<Entry>, idfs: map<string, real>): string -> real
  {
    name => ScoreOfName(query, files, idfs, name)
  }

  /** `top_files(query, files, idfs, n)`. */
  method TopFiles(query: set<string>, files: seq<Entry>, idfs: map<string, real>, n: nat)
    returns (ranks: seq<string>)
    requires Distinct(Names(files))
    ensures ranks == Top(Names(files), ScoreByName(query, files, idfs), Greater, n)
    ensures |ranks| == Min(n, |files|)
    ensures Distinct(ranks)
    ensures forall f :: f in ranks ==> f in Names(files)
    ensures forall i, j :: 0 <= i < j < |ranks| ==>
              ScoreOfName(query, files, idfs, ranks[i]) >= ScoreOfName(query, files, idfs, ranks[j])
    ensures forall f, g :: f in Names(files) && f !in ranks && g in ranks ==>
              ScoreOfName(query, files, idfs, f) <= ScoreOfName(query, files, idfs, g)
    ensures forall s :: WithScore(ranks, ScoreByName(query, files, idfs), s)
                     <= WithScore(Names(files), ScoreByName(query, files, idfs), s)
  {
    var rankedFiles: map<string, real> := map[];
    var i := 0;
    while i < |files|
      invariant 0 <= i <= |files|
      invariant forall k :: 0 <= k < i ==>
                  files[k].name in rankedFiles &&
                  rankedFiles[files[k].name] == FileScore(query, files[k].tokens, idfs)
    {
      var content := files[i].tokens;
      var wordCounter := multiset(content);
      var total := 0.0;
      var remaining := query;
      while remaining != {}
        invariant total + SetSum(remaining, TermWeights(content, idfs)) == FileScore(query, content, idfs)
      {
        var word :| word in remaining;
        SetSumPick(remaining, TermWeights(content, idfs), word);
        total := total + TermWeight(wordCounter, idfs, word);
        remaining := remaining - {word};
      }
      forall k | 0 <= k < i ensures files[k].name != files[i].name {
        assert Names(files)[k] != Names(files)[i];
      }
      rankedFiles := rankedFiles[files[i].name := total];
      i := i + 1;
    }

    var names := Names(files);
    ranks := Top(names, name => Get(rankedFiles, name), Greater, n);

    ghost var score := ScoreByName(query, files, idfs);
    forall name | name in names ensures Get(rankedFiles, name) == score(name) {
      var k :| 0 <= k < |names| && names[k] == name;
      TokensOfEntry(files, k);
    }
    SortCongruent(names, name => Get(rankedFiles, name), score, Greater);
    RankingDistinct(query, files, idfs, n);
    RankingOrdered(query, files, idfs, n);
    RankingKeepsBest(query, files, idfs, n);
    forall s ensures WithScore(ranks, score, s) <= WithScore(names, score, s) {
      RankingStable(query, files, idfs, n, s);
    }
  }

  // --------------------------------------------------------- the ranking

  /** The ranking names files of the input, none twice. */
  lemma RankingDistinct(query: set<string>, files: seq<Entry>, idfs: map<string, real>, n: nat)
    requires Distinct(Names(files))
    ensures Distinct(Top(Names(files), ScoreByName(query, files, idfs), Greater, n))
    ensures forall f :: f in Top(Names(files), ScoreByName(query, files, idfs), Greater, n) ==> f in Names(files)
  {
    TopDistinct(Names(files), ScoreByName(query, files, idfs), Greater, n);
    TopSubPermutation(Names(files), ScoreByName(query, files, idfs), Greater, n);
  }

  /** The ranking lists files by non-increasing score. */
  lemma RankingOrdered(query: set<string>, files: seq<Entry>, idfs: map<string, real>, n: nat)
    ensures var ranks := Top(Names(files), ScoreByName(query, files, idfs), Greater, n);
      forall i, j :: 0 <= i < j < |ranks| ==>
        ScoreOfName(query, files, idfs, ranks[i]) >= ScoreOfName(query, files, idfs, ranks[j])
  {
    GreaterIsStrictTotalOrder();
    TopDescending(Names(files), ScoreByName(query, files, idfs), Greater, n);
  }

  /** No file left out scores above a file kept. */
  lemma RankingKeepsBest(query: set<string>, files: seq<Entry>, idfs: map<string, real>, n: nat)
    ensures var ranks := Top(Names(files), ScoreByName(query, files, idfs), Greater, n);
      forall f, g :: f in Names(files) && f !in ranks && g in ranks ==>
        ScoreOfName(query, files, idfs, f) <= ScoreOfName(query, files, idfs, g)
  {
    GreaterIsStrictTotalOrder();
    TopKeepsBest(Names(files), ScoreByName(query, files, idfs), Greater, n);
  }

  /** Files of equal score keep their input order, and the earliest of
      them are the ones kept. */
  lemma RankingStable(query: set<string>, files: seq<Entry>, idfs: map<string, real>, n: nat, s: real)
    ensures WithScore(Top(Names(files), ScoreByName(query, files, idfs), Greater, n), ScoreByName(query, files, idfs), s)
         <= WithScore(Names(files), ScoreByName(query, files, idfs), s)
  {
    GreaterIsStrictTotalOrder();
    TopStable(Names(files), ScoreByName(query, files, idfs), Greater, n, s);
  }

  // ----------------------------------------------------------- the score

  /** A query word that the IDF table does not know contributes nothing and
      raises no error. */
  lemma UnknownWordScoresZero(query: set<string>, content: seq<string>, idfs: map<string, real>, w: string)
    requires w in query && w !in idfs
    ensures FileScore(query, content, idfs) == FileScore(query - {w}, content, idfs)
  {
    SetSumDropZero(query, TermWeights(content, idfs), w);
  }

  /** Neither does a query word that the document does not contain. */
  lemma AbsentWordScoresZero(query: set<string>, content: seq<string>, idfs: map<string, real>, w: string)
    requires w in query && w !in content
    ensures FileScore(query, content, idfs) == FileScore(query - {w}, content, idfs)
  {
    assert multiset(content)[w] == 0;
    SetSumDropZero(query, TermWeights(content, idfs), w);
  }

  /** A one-word query scores the word's frequency in the document times its IDF. */
  lemma SingleWordScore(content: seq<string>, idfs: map<string, real>, w: string)
    ensures FileScore({w}, content, idfs) == (multiset(content)[w] as real) * Get(idfs, w)
  {
    SetSumPick({w}, TermWeights(content, idfs), w);
    assert {w} - {w} == {};
  }

  /** With non-negative IDFs (as `compute_idfs` produces), scores are non-negative. */
  lemma ScoreNonNegative(query: set<string>, content: seq<string>, idfs: map<string, real>)
    requires forall w :: w in idfs ==> idfs[w] >= 0.0
    ensures FileScore(query, content, idfs) >= 0.0
  {
    SetSumNonNegative(query, TermWeights(content, idfs));
  }

  // ------------------------------------------------------- worked example

  /** Two documents, "d1" = ai ai python and "d2" = python. */
  function ExampleFiles(): seq<Entry>
  {
    [Entry("d1", ["ai", "ai", "python"]), Entry("d2", ["python"])]
  }

  /** Over these two documents "ai" has document frequency 1 and "python" 2,
      so `compute_idfs` gives them log(2/1) and log(2/2). */
  lemma ExampleFrequencies()
    ensures Vocabulary(ExampleFiles()) == {"ai", "python"}
    ensures DocFreq(ExampleFiles(), "ai") == 1 && DocFreq(ExampleFiles(), "python") == 2
  {
    var files := ExampleFiles();
    assert files[..1] == [files[0]];
    assert files[..1][..0] == [];
    assert "ai" !in files[1].tokens;
    assert "ai" in files[0].tokens && "python" in files[0].tokens && "python" in files[1].tokens;
    assert TokenSet(files[0].tokens) == {"ai", "python"};
  }

  function ExampleIdfs(ln: real -> real): map<string, real>
  {
    map["ai" := IdfOf(2, 1, ln), "python" := IdfOf(2, 2, ln)]
  }

  /** Any table meeting the contract of `ComputeIdfs` on the two documents
      is `ExampleIdfs(ln)`: the example's IDFs are the ones `compute_idfs`
      produces. */
  lemma ExampleComputedIdfs(ln: real -> real, idfs: map<string, real>)
    requires idfs.Keys == Vocabulary(ExampleFiles())
    requires forall w :: w in idfs ==>
               1 <= DocFreq(ExampleFiles(), w) <= |ExampleFiles()| &&
               idfs[w] == IdfOf(|ExampleFiles()|, DocFreq(ExampleFiles(), w), ln)
    ensures idfs == ExampleIdfs(ln)
  {
    ExampleFrequencies();
    assert idfs.Keys == ExampleIdfs(ln).Keys;
  }

  /** With those IDFs the query {"ai"} scores d1 at 2·log 2 and d2 at 0. */
  lemma ExampleScores(ln: real -> real)
    ensures ScoreOfName({"ai"}, ExampleFiles(), ExampleIdfs(ln), "d1") == 2.0 * IdfOf(2, 1, ln)
    ensures ScoreOfName({"ai"}, ExampleFiles(), ExampleIdfs(ln), "d2") == 0.0
  {
    var files := ExampleFiles();
    var idfs := ExampleIdfs(ln);
    assert TokensOf(files, "d1") == files[0].tokens;
    assert TokensOf(files, "d2") == files[1].tokens;
    assert multiset(files[0].tokens)["ai"] == 2 by {
      assert files[0].tokens == ["ai"] + ["ai"] + ["python"];
    }
    assert multiset(files[1].tokens)["ai"] == 0;
    SingleWordScore(files[0].tokens, idfs, "ai");
    SingleWordScore(files[1].tokens, idfs, "ai");
  }

  /** Of two names of which the second is not strictly above the first,
      the first is the top one. */
  lemma ExampleKeepFirst(score: string -> real)
    requires !Greater(score("d2"), score("d1"))
    ensures Top(["d1", "d2"], score, Greater, 1) == ["d1"]
  {
    assert ["d1", "d2"][1..] == ["d2"];
    assert ["d2"][1..] == [];
    assert SortDesc(["d2"], score, Greater) == ["d2"];
  }

  /** The one top file is d1 (were log 2 equal to 0, the tie would still
      keep d1 first, by input order). */
  lemma ExampleTopFile(ln: real -> real)
    requires IsLog(ln)
    ensures Top(Names(ExampleFiles()), ScoreByName({"ai"}, ExampleFiles(), ExampleIdfs(ln)), Greater, 1) == ["d1"]
  {
    var score := ScoreByName({"ai"}, ExampleFiles(), ExampleIdfs(ln));
    ExampleScores(ln);
    IdfNonNegative(2, 1, ln);
    assert score("d1") == 2.0 * IdfOf(2, 1, ln) && score("d2") == 0.0;
    assert Names(ExampleFiles()) == ["d1", "d2"];
    ExampleKeepFirst(score);
  }
}
