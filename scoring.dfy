/**
 * Sentence scores and the score table: one entry per distinct sentence text,
 * in the order the texts are first seen, as a JavaScript object keyed by the
 * sentence text keeps them.
 */
module Scoring {
  import opened Text
  import opened Frequency

  /** The sum of the table lookups of `words`, a missing word counting 0. */
  function SumLookups(words: seq<string>, freq: map<string, nat>): nat {
    if words == [] then 0
    else SumLookups(words[..|words| - 1], freq) + Lookup(freq, words[|words| - 1])
  }

  /** The score of a sentence: the sum of the lookups of its lower-cased words. */
  function SentenceScore(sentence: string, freq: map<string, nat>): nat {
    SumLookups(Words(sentence), freq)
  }

  /**
   * Every word adds its lookup to the sum, so the sum is at least each
   * lookup, and it is 0 exactly when every word looks up 0.
   */
  lemma {:induction false} SumLookupsBounds(words: seq<string>, freq: map<string, nat>)
    ensures forall w :: w in words ==> Lookup(freq, w) <= SumLookups(words, freq)
    ensures SumLookups(words, freq) == 0 <==> forall w :: w in words ==> Lookup(freq, w) == 0
    decreases |words|
  {
    if words != [] {
      var init := words[..|words| - 1];
      assert words == init + [words[|words| - 1]];
      SumLookupsBounds(init, freq);
    }
  }

  /**
   * With the table built from the whole text, every word of one of its
   * sentences that is not a stop word contributes at least 1, so the
   * sentence scores 0 exactly when all its words are stop words.
   */
  lemma SentenceScoreZero(text: string, k: nat)
    requires k < |Sentences(text)|
    ensures var s := Sentences(text)[k];
      var freq := FrequencyTable(Words(text));
      && (forall w :: w in Words(s) && w !in StopWords ==> 1 <= Lookup(freq, w) <= SentenceScore(s, freq))
      && (SentenceScore(s, freq) == 0 <==> forall w :: w in Words(s) ==> w in StopWords)
  {
    var s := Sentences(text)[k];
    var freq := FrequencyTable(Words(text));
    FrequencyTableInvariant(Words(text));
    SumLookupsBounds(Words(s), freq);
    forall w | w in Words(s) && w !in StopWords
      ensures 1 <= Lookup(freq, w)
    {
      SentenceWordsInText(text, k, w);
    }
  }

  // ---------------------------------------------------------------------------
  // The score table
  // ---------------------------------------------------------------------------

  /** One `[sentence, score]` pair of `Object.entries(sentenceScores)`. */
  datatype Entry = Entry(sentence: string, score: nat)

  function KeysOf(t: seq<Entry>): seq<string> {
    seq(|t|, i requires 0 <= i < |t| => t[i].sentence)
  }

  predicate Distinct(s: seq<string>) {
    forall i, j :: 0 <= i < j < |s| ==> s[i] != s[j]
  }

  lemma DistinctCons(x: string, s: seq<string>)
    ensures Distinct([x] + s) <==> x !in s && Distinct(s)
  {
    var c := [x] + s;
    if Distinct(c) {
      forall i, j | 0 <= i < j < |s| ensures s[i] != s[j] {
        assert c[i + 1] == s[i] && c[j + 1] == s[j];
      }
      forall j | 0 <= j < |s| ensures s[j] != x {
        assert c[0] != c[j + 1];
      }
    }
    if x !in s && Distinct(s) {
      forall i, j | 0 <= i < j < |c| ensures c[i] != c[j] {
        if i > 0 {
          assert c[i] == s[i - 1] && c[j] == s[j - 1];
        } else {
          assert c[j] == s[j - 1];
        }
      }
    }
  }

  /**
   * `sentenceScores[key] = score`: an existing key keeps its position and
   * takes the new score; a new key goes at the end.
   */
  function Put(t: seq<Entry>, key: string, score: nat): seq<Entry> {
    if key in KeysOf(t) then
      seq(|t|, i requires 0 <= i < |t| => if t[i].sentence == key then Entry(key, score) else t[i])
    else
      t + [Entry(key, score)]
  }

  /** The distinct elements of `s`, each where it first occurs. */
  function FirstOccurrences(s: seq<string>): (r: seq<string>)
    ensures forall x :: x in r <==> x in s
    ensures Distinct(r)
  {
    if s == [] then []
    else
      var init, x := s[..|s| - 1], s[|s| - 1];
      assert s == init + [x];
      var r := FirstOccurrences(init);
      if x in r then r else r + [x]
  }

  /** The position of the first occurrence of `x` in `s`. */
  function FirstIndex(s: seq<string>, x: string): (i: nat)
    requires x in s
    ensures i < |s| && s[i] == x
    ensures forall k :: 0 <= k < i ==> s[k] != x
  {
    if s[0] == x then 0 else 1 + FirstIndex(s[1..], x)
  }

  lemma {:induction false} FirstIndexSnoc(s: seq<string>, x: string, y: string)
    requires y in s
    ensures FirstIndex(s + [x], y) == FirstIndex(s, y)
    decreases |s|
  {
    if s[0] != y {
      assert (s + [x])[1..] == s[1..] + [x];
      FirstIndexSnoc(s[1..], x, y);
    }
  }

  /** The distinct elements come in the order of their first occurrences. */
  lemma {:induction false} FirstOccurrencesOrdered(s: seq<string>)
    ensures forall i, j :: 0 <= i < j < |FirstOccurrences(s)| ==>
      FirstIndex(s, FirstOccurrences(s)[i]) < FirstIndex(s, FirstOccurrences(s)[j])
    decreases |s|
  {
    if s != [] {
      var init, x := s[..|s| - 1], s[|s| - 1];
      assert s == init + [x];
      FirstOccurrencesOrdered(init);
      var r := FirstOccurrences(init);
      forall y | y in init
        ensures FirstIndex(s, y) == FirstIndex(init, y) < |init|
      {
        FirstIndexSnoc(init, x, y);
      }
      if x !in r {
        assert x !in init;
        assert FirstIndex(s, x) == |init|;
      }
    }
  }

  /**
   * The table the scoring loop produces, stated directly: the distinct
   * sentence texts in first-seen order, each with its score.
   */
  function ScoreTable(sentences: seq<string>, freq: map<string, nat>): seq<Entry> {
    var d := FirstOccurrences(sentences);
    seq(|d|, i requires 0 <= i < |d| => Entry(d[i], SentenceScore(d[i], freq)))
  }

  /** One more sentence updates the table as one step of the scoring loop does. */
  lemma ScoreTableSnoc(sentences: seq<string>, x: string, freq: map<string, nat>)
    ensures Put(ScoreTable(sentences, freq), x, SentenceScore(x, freq)) == ScoreTable(sentences + [x], freq)
  {
    var ss := sentences + [x];
    assert ss[..|ss| - 1] == sentences;
    var t := ScoreTable(sentences, freq);
    assert KeysOf(t) == FirstOccurrences(sentences);
    if x in sentences {
      assert x in KeysOf(t);
      assert FirstOccurrences(ss) == FirstOccurrences(sentences);
    } else {
      assert x !in KeysOf(t);
      assert FirstOccurrences(ss) == FirstOccurrences(sentences) + [x];
    }
  }

  /**
   * The scoring loop: score each sentence and store the score under the
   * sentence's exact text.
   */
  method BuildScoreTable(sentences: seq<string>, freq: map<string, nat>) returns (table: seq<Entry>)
    ensures table == ScoreTable(sentences, freq)
  {
    table := [];
    var i := 0;
    while i < |sentences|
      invariant 0 <= i <= |sentences|
      invariant table == ScoreTable(sentences[..i], freq)
    {
      var sentence := sentences[i];
      var score := SentenceScore(sentence, freq);
      ScoreTableSnoc(sentences[..i], sentence, freq);
      table := Put(table, sentence, score);
      assert sentences[..i + 1] == sentences[..i] + [sentence];
      i := i + 1;
    }
    assert sentences[..i] == sentences;
  }

  /**
   * The score table holds exactly one entry per distinct sentence text, in
   * first-seen order, each with that text's score.
   */
  lemma ScoreTableShape(sentences: seq<string>, freq: map<string, nat>)
    ensures KeysOf(ScoreTable(sentences, freq)) == FirstOccurrences(sentences)
    ensures Distinct(KeysOf(ScoreTable(sentences, freq)))
    ensures forall x :: x in KeysOf(ScoreTable(sentences, freq)) <==> x in sentences
    ensures forall i, j :: 0 <= i < j < |ScoreTable(sentences, freq)| ==>
      FirstIndex(sentences, ScoreTable(sentences, freq)[i].sentence) <
      FirstIndex(sentences, ScoreTable(sentences, freq)[j].sentence)
    ensures forall e :: e in ScoreTable(sentences, freq) ==> e.score == SentenceScore(e.sentence, freq)
  {
    FirstOccurrencesOrdered(sentences);
    assert KeysOf(ScoreTable(sentences, freq)) == FirstOccurrences(sentences);
  }

  /** A repeated sentence text neither adds an entry nor changes a score. */
  lemma ScoreTableRepeat(sentences: seq<string>, x: string, freq: map<string, nat>)
    requires x in sentences
    ensures ScoreTable(sentences + [x], freq) == ScoreTable(sentences, freq)
  {
    var ss := sentences + [x];
    assert ss[..|ss| - 1] == sentences;
  }
}
