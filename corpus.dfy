/** Shared vocabulary of the ranking engine: a tokenised unit (a document
    or a sentence), the dictionary of units in insertion order, and the
    get-or-zero lookup into an IDF table. */
module Corpus {

  /** One entry of a Python dict that maps a unit's name (a file name or the
      sentence text) to its token list. */
  datatype Entry = Entry(name: string, tokens: seq<string>)

  /** The dict's keys, in insertion order. */
  function Names(units: seq<Entry>): (r: seq<string>)
    ensures |r| == |units|
    ensures forall i :: 0 <= i < |units| ==> r[i] == units[i].name
  {
    seq(|units|, i requires 0 <= i < |units| => units[i].name)
  }

  /** No element occurs twice: the keys of a dict, or a ranking without repeats. */
  predicate Distinct<T(==)>(s: seq<T>)
  {
    forall i, j :: 0 <= i < j < |s| ==> s[i] != s[j]
  }

  /** The token list stored under `name` (the first entry with that name). */
  function TokensOf(units: seq<Entry>, name: string): seq<string>
  {
    if units == [] then []
    else if units[0].name == name then units[0].tokens
    else TokensOf(units[1..], name)
  }

  /** With distinct names, looking an entry's name up gives that entry's tokens. */
  lemma {:induction false} TokensOfEntry(units: seq<Entry>, k: nat)
    requires Distinct(Names(units))
    requires k < |units|
    ensures TokensOf(units, units[k].name) == units[k].tokens
  {
    if k > 0 {
      assert Names(units)[0] != Names(units)[k];
      var rest := units[1..];
      forall i, j | 0 <= i < j < |rest| ensures Names(rest)[i] != Names(rest)[j] {
        assert Names(units)[i + 1] != Names(units)[j + 1];
      }
      TokensOfEntry(rest, k - 1);
    }
  }

  /** `idfs.get(word, 0)`: a word missing from the table weighs 0. */
  function Get(idfs: map<string, real>, word: string): (r: real)
    ensures word !in idfs ==> r == 0.0
    ensures word in idfs ==> r == idfs[word]
  {
    if word in idfs then idfs[word] else 0.0
  }

  /** Dividing by a larger positive number gives no more. */
  lemma DivAntitone(a: real, b: real, c: real)
    requires 0.0 <= a && 0.0 < b <= c
    ensures a / c <= a / b
  {
    assert a / c * c == a && a / b * b == a;
  }

  function Min(a: nat, b: nat): nat
  {
    if a <= b then a else b
  }

  /** The set of distinct tokens of a token list. */
  function TokenSet(tokens: seq<string>): (r: set<string>)
    ensures forall w :: w in r <==> w in tokens
  {
    set w | w in tokens
  }
}
