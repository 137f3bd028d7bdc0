/** `compute_idfs`: the inverse document frequency of every word of a
    collection of units (documents in the first pass, sentences in the
    second). A word's document frequency is the number of units holding it
    at least once; its IDF is `log(N / df)` for `N` units.

    `math.log` is the parameter `ln`. What the lemmas need of it, that it
    is monotone on the positive reals and that `ln(1) = 0`, is the
    predicate `IsLog`. */
module Idf {
  import opened Corpus

  /** Number of units whose token list holds `w` (counted from the last
      unit back, so that a prefix of the units is a smaller instance). */
  function DocFreq(units: seq<Entry>, w: string): nat
  {
    if units == [] then 0
    else DocFreq(units[..|units| - 1], w) + (if w in units[|units| - 1].tokens then 1 else 0)
  }

  /** Every word that occurs in some unit. */
  function Vocabulary(units: seq<Entry>): set<string>
  {
    if units == [] then {}
    else Vocabulary(units[..|units| - 1]) + TokenSet(units[|units| - 1].tokens)
  }

  /** Indices of the units that contain `w`. */
  function UnitsContaining(units: seq<Entry>, w: string): set<nat>
  {
    set k: nat | k < |units| && w in units[k].tokens
  }

  ghost predicate IsLog(ln: real -> real)
  {
    ln(1.0) == 0.0 &&
    forall x, y :: 0.0 < x <= y ==> ln(x) <= ln(y)
  }

  /** `math.log(n / df)` with Python 3's true division. */
  function IdfOf(n: nat, df: nat, ln: real -> real): real
    requires df > 0
  {
    ln(n as real / df as real)
  }

  // ------------------------------------------------------------ counting

  /** The vocabulary holds exactly the words found in some unit. */
  lemma {:induction false} VocabularyComplete(units: seq<Entry>, w: string)
    ensures w in Vocabulary(units) <==> exists k :: 0 <= k < |units| && w in units[k].tokens
  {
    if units != [] {
      var last := |units| - 1;
      var init := units[..last];
      VocabularyComplete(init, w);
      if w in Vocabulary(units) && w !in Vocabulary(init) {
        assert w in units[last].tokens;
      }
      if exists k :: 0 <= k < |units| && w in units[k].tokens {
        var k :| 0 <= k < |units| && w in units[k].tokens;
        if k < last {
          assert init[k] == units[k];
        }
      }
      forall k | 0 <= k < last && w in init[k].tokens ensures w in units[k].tokens {
        assert init[k] == units[k];
      }
    }
  }

  /** A word is in the vocabulary exactly when its document frequency is
      positive, and no word is in more than all `N` units. */
  lemma {:induction false} DocFreqBounds(units: seq<Entry>, w: string)
    ensures w in Vocabulary(units) <==> DocFreq(units, w) >= 1
    ensures DocFreq(units, w) <= |units|
  {
    if units != [] {
      DocFreqBounds(units[..|units| - 1], w);
    }
  }

  /** The document frequency counts units, not occurrences: a word repeated
      inside one unit is counted once for it. */
  lemma {:induction false} DocFreqCountsUnits(units: seq<Entry>, w: string)
    ensures DocFreq(units, w) == |UnitsContaining(units, w)|
  {
    if units != [] {
      var last := |units| - 1;
      var init := units[..last];
      DocFreqCountsUnits(init, w);
      var before := UnitsContaining(init, w);
      assert last !in before;
      if w in units[last].tokens {
        assert UnitsContaining(units, w) == before + {last};
      } else {
        assert UnitsContaining(units, w) == before;
      }
    }
  }

  /** `df == N` exactly for the words that every unit contains. */
  lemma {:induction false} DocFreqAll(units: seq<Entry>, w: string)
    ensures DocFreq(units, w) == |units| <==> forall k :: 0 <= k < |units| ==> w in units[k].tokens
  {
    if units != [] {
      var last := |units| - 1;
      var init := units[..last];
      DocFreqAll(init, w);
      DocFreqBounds(init, w);
      forall k | 0 <= k < last ensures init[k] == units[k] { }
    }
  }

  // ------------------------------------------------------------ idf values

  /** `log(N / df) >= 0` since `df <= N`. */
  lemma IdfNonNegative(n: nat, df: nat, ln: real -> real)
    requires IsLog(ln)
    requires 1 <= df <= n
    ensures IdfOf(n, df, ln) >= 0.0
  {
    assert 1.0 <= n as real / df as real;
  }

  /** A word found in every unit weighs `log(1) = 0`. */
  lemma IdfZeroEverywhere(n: nat, ln: real -> real)
    requires IsLog(ln)
    requires n >= 1
    ensures IdfOf(n, n, ln) == 0.0
  {
    assert n as real / n as real == 1.0;
  }

  /** The rarer word weighs more: `log(N / df)` never grows with `df`. */
  lemma IdfAntitone(n: nat, df1: nat, df2: nat, ln: real -> real)
    requires IsLog(ln)
    requires 1 <= df1 <= df2
    ensures IdfOf(n, df1, ln) >= IdfOf(n, df2, ln)
  {
    DivAntitone(n as real, df1 as real, df2 as real);
    if n > 0 {
      assert 0.0 < n as real / df2 as real;
    }
  }

  // --------------------------------------------------------------- method

  /** One more unit adds its token set to the vocabulary and one to the
      frequency of each of its words. */
  lemma PrefixStep(units: seq<Entry>, i: nat)
    requires i < |units|
    ensures Vocabulary(units[..i + 1]) == Vocabulary(units[..i]) + TokenSet(units[i].tokens)
    ensures forall w :: DocFreq(units[..i + 1], w)
                     == DocFreq(units[..i], w) + (if w in units[i].tokens then 1 else 0)
  {
    assert units[..i + 1][..i] == units[..i];
  }

  /** One more token adds itself to the set of tokens seen. */
  lemma TokenSetStep(tokens: seq<string>, j: nat)
    requires j < |tokens|
    ensures TokenSet(tokens[..j + 1]) == TokenSet(tokens[..j]) + {tokens[j]}
  {
    assert tokens[..j + 1] == tokens[..j] + [tokens[j]];
  }

  /** Counting a word met for the first time in the current unit keeps the
      count table equal to the document frequencies over the units before
      it plus one for each word met so far in it. */
  lemma CountStep(prefix: seq<Entry>, words: map<string, nat>, fileWords: set<string>, word: string)
    requires word !in fileWords
    requires words.Keys == Vocabulary(prefix) + fileWords
    requires forall w :: w in words ==> words[w] == DocFreq(prefix, w) + (if w in fileWords then 1 else 0)
    ensures var counted := words[word := (if word in words then words[word] else 0) + 1];
      counted.Keys == Vocabulary(prefix) + (fileWords + {word}) &&
      forall w :: w in counted ==> counted[w] == DocFreq(prefix, w) + (if w in fileWords + {word} then 1 else 0)
  {
    DocFreqBounds(prefix, word);
  }

  /** `compute_idfs(documents)`. The first pass counts every word once per
      unit, using the unit's `file_words` set; the second overwrites each
      count with its IDF. */
  method ComputeIdfs(units: seq<Entry>, ln: real -> real) returns (idfs: map<string, real>)
    ensures idfs.Keys == Vocabulary(units)
    ensures forall w :: w in idfs ==>
              1 <= DocFreq(units, w) <= |units| &&
              idfs[w] == IdfOf(|units|, DocFreq(units, w), ln)
    ensures units == [] ==> idfs == map[]
  {
    var words: map<string, nat> := map[];
    var n := |units|;
    var i := 0;
    while i < |units|
      invariant 0 <= i <= |units|
      invariant words.Keys == Vocabulary(units[..i])
      invariant forall w :: w in words ==> words[w] == DocFreq(units[..i], w)
    {
      var wordsList := units[i].tokens;
      var fileWords: set<string> := {};
      var j := 0;
      while j < |wordsList|
        invariant 0 <= j <= |wordsList|
        invariant fileWords == TokenSet(wordsList[..j])
        invariant words.Keys == Vocabulary(units[..i]) + fileWords
        invariant forall w :: w in words ==>
                    words[w] == DocFreq(units[..i], w) + (if w in fileWords then 1 else 0)
      {
        var word := wordsList[j];
        if word in fileWords {
          // already counted for this unit
        } else {
          CountStep(units[..i], words, fileWords, word);
          words := words[word := (if word in words then words[word] else 0) + 1];
          fileWords := fileWords + {word};
        }
        TokenSetStep(wordsList, j);
        j := j + 1;
      }
      assert wordsList[..j] == wordsList;
      PrefixStep(units, i);
      i := i + 1;
    }
    assert units[..i] == units;

    idfs := map[];
    var pending := words.Keys;
    while pending != {}
      invariant pending <= words.Keys
      invariant idfs.Keys == words.Keys - pending
      invariant forall w :: w in idfs ==>
                  1 <= words[w] <= n && idfs[w] == IdfOf(n, words[w], ln)
    {
      var word :| word in pending;
      DocFreqBounds(units, word);
      idfs := idfs[word := IdfOf(n, words[word], ln)];
      pending := pending - {word};
    }
  }

  /** What the table promises its consumers, given that `ln` is a
      logarithm: every IDF is non-negative, a word present in every unit
      weighs 0, and of two words the one in fewer units weighs at least as
      much. */
  lemma IdfTableProperties(units: seq<Entry>, ln: real -> real, idfs: map<string, real>)
    requires IsLog(ln)
    requires idfs.Keys == Vocabulary(units)
    requires forall w :: w in idfs ==> 1 <= DocFreq(units, w) && idfs[w] == IdfOf(|units|, DocFreq(units, w), ln)
    ensures forall w :: w in idfs ==> idfs[w] >= 0.0
    ensures forall w :: w in idfs && DocFreq(units, w) == |units| ==> idfs[w] == 0.0
    ensures forall w1, w2 :: w1 in idfs && w2 in idfs && DocFreq(units, w1) <= DocFreq(units, w2)
              ==> idfs[w1] >= idfs[w2]
  {
    forall w | w in idfs ensures idfs[w] >= 0.0 {
      DocFreqBounds(units, w);
      IdfNonNegative(|units|, DocFreq(units, w), ln);
    }
    forall w | w in idfs && DocFreq(units, w) == |units| ensures idfs[w] == 0.0 {
      IdfZeroEverywhere(|units|, ln);
    }
    forall w1, w2 | w1 in idfs && w2 in idfs && DocFreq(units, w1) <= DocFreq(units, w2)
      ensures idfs[w1] >= idfs[w2]
    {
      IdfAntitone(|units|, DocFreq(units, w1), DocFreq(units, w2), ln);
    }
  }
}
