/** The filtering loop of `tokenize`: it walks the word tokens from the
    last to the first, lower-cases each in place and deletes it when its
    lower-case form is a stop word or a punctuation mark.

    The word tokenizer, the stop-word list and `str.lower` belong to other
    libraries; the raw tokens, the two sets and the lower-casing function
    are parameters here. */
module Tokenize {

  /** Whether a lower-cased token is dropped. */
  predicate Dropped(word: string, stopWords: set<string>, punctuation: set<string>)
  {
    word in stopWords || word in punctuation
  }

  /** The tokens kept, lower-cased, in their original order. */
  function Normalize(tokens: seq<string>, lower: string -> string,
                     stopWords: set<string>, punctuation: set<string>): seq<string>
  {
    if tokens == [] then []
    else
      var w := lower(tokens[0]);
      (if Dropped(w, stopWords, punctuation) then [] else [w])
        + Normalize(tokens[1..], lower, stopWords, punctuation)
  }

  /** The backward loop with in-place deletion of `tokenize`. */
  method FilterTokens(tokens: seq<string>, lower: string -> string,
                      stopWords: set<string>, punctuation: set<string>)
    returns (tokenized: seq<string>)
    ensures tokenized == Normalize(tokens, lower, stopWords, punctuation)
    ensures forall w :: w in tokenized ==> !Dropped(w, stopWords, punctuation)
  {
    tokenized := tokens;
    var i := |tokens| - 1;
    while i >= 0
      invariant -1 <= i < |tokens|
      invariant tokenized == tokens[..i + 1] + Normalize(tokens[i + 1..], lower, stopWords, punctuation)
    {
      tokenized := tokenized[i := lower(tokenized[i])];
      if tokenized[i] in stopWords || tokenized[i] in punctuation {
        tokenized := tokenized[..i] + tokenized[i + 1..];
      }
      assert tokens[i..][1..] == tokens[i + 1..];
      i := i - 1;
    }
    assert tokens[0..] == tokens;
    NormalizeKeepsNoDropped(tokens, lower, stopWords, punctuation);
  }

  /** Membership: a word is kept exactly when it is the lower-case form of
      some token and neither a stop word nor punctuation. */
  lemma {:induction false} NormalizeMembers(tokens: seq<string>, lower: string -> string,
                                            stopWords: set<string>, punctuation: set<string>, w: string)
    ensures w in Normalize(tokens, lower, stopWords, punctuation) <==>
              !Dropped(w, stopWords, punctuation) &&
              exists i :: 0 <= i < |tokens| && lower(tokens[i]) == w
  {
    if tokens != [] {
      NormalizeMembers(tokens[1..], lower, stopWords, punctuation, w);
      if exists i :: 0 <= i < |tokens| && lower(tokens[i]) == w {
        var i :| 0 <= i < |tokens| && lower(tokens[i]) == w;
        if i > 0 {
          assert lower(tokens[1..][i - 1]) == w;
        }
      }
      forall i | 0 <= i < |tokens| - 1 && lower(tokens[1..][i]) == w
        ensures lower(tokens[i + 1]) == w
      {
      }
    }
  }

  lemma NormalizeKeepsNoDropped(tokens: seq<string>, lower: string -> string,
                                stopWords: set<string>, punctuation: set<string>)
    ensures forall w :: w in Normalize(tokens, lower, stopWords, punctuation) ==>
              !Dropped(w, stopWords, punctuation)
  {
    forall w | w in Normalize(tokens, lower, stopWords, punctuation)
      ensures !Dropped(w, stopWords, punctuation)
    {
      NormalizeMembers(tokens, lower, stopWords, punctuation, w);
    }
  }

  /** The filter never lengthens the list; it keeps every token exactly
      when none is a stop word or punctuation after lower-casing. */
  lemma {:induction false} NormalizeLength(tokens: seq<string>, lower: string -> string,
                                           stopWords: set<string>, punctuation: set<string>)
    ensures |Normalize(tokens, lower, stopWords, punctuation)| <= |tokens|
    ensures |Normalize(tokens, lower, stopWords, punctuation)| == |tokens| <==>
              forall i :: 0 <= i < |tokens| ==> !Dropped(lower(tokens[i]), stopWords, punctuation)
  {
    if tokens != [] {
      NormalizeLength(tokens[1..], lower, stopWords, punctuation);
      assert forall i :: 0 <= i < |tokens| - 1 ==> tokens[1..][i] == tokens[i + 1];
    }
  }

  /** Filtering again changes nothing, as long as lower-casing a
      lower-cased word gives it back. */
  lemma {:induction false} NormalizeIdempotent(tokens: seq<string>, lower: string -> string,
                                               stopWords: set<string>, punctuation: set<string>)
    requires forall w :: lower(lower(w)) == lower(w)
    ensures Normalize(Normalize(tokens, lower, stopWords, punctuation), lower, stopWords, punctuation)
         == Normalize(tokens, lower, stopWords, punctuation)
  {
    if tokens != [] {
      var w := lower(tokens[0]);
      var rest := Normalize(tokens[1..], lower, stopWords, punctuation);
      NormalizeIdempotent(tokens[1..], lower, stopWords, punctuation);
      if !Dropped(w, stopWords, punctuation) {
        assert lower(w) == w;
        assert ([w] + rest)[0] == w && ([w] + rest)[1..] == rest;
      } else {
        assert Normalize(tokens, lower, stopWords, punctuation) == rest;
      }
    }
  }
}
