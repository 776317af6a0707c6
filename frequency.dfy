/**
 * The word-frequency table: how often each word of the document occurs,
 * leaving out a fixed set of stop words.
 */
module Frequency {

  /** The 21 stop words that are never counted. */
  const StopWords: set<string> := {
    "the", "is", "in", "and", "to", "a", "of", "for", "on", "with", "as",
    "at", "an", "this", "it", "by", "that", "from", "or", "but", "be"
  }

  /**
   * "are" and "too" are not stop words, so they count (and score) like any
   * other word.
   */
  lemma StopWordsLeaveOut()
    ensures "are" !in StopWords && "too" !in StopWords
  {
  }

  /**
   * Every stop word is a non-empty run of lower-case letters, so each can
   * equal a token (tokens are always lower-cased).
   */
  lemma StopWordsAreLowerCase()
    ensures forall w :: w in StopWords ==>
      |w| > 0 && forall i :: 0 <= i < |w| ==> 'a' <= w[i] <= 'z'
  {
  }

  /** `wordFreq[word] || 0`: a missing word counts 0. */
  function Lookup(freq: map<string, nat>, w: string): nat {
    if w in freq then freq[w] else 0
  }

  /** The number of times `w` occurs in `words`. */
  function Occurrences(words: seq<string>, w: string): (n: nat)
    ensures n <= |words|
    ensures n > 0 <==> w in words
  {
    if words == [] then 0
    else
      var init := words[..|words| - 1];
      assert words == init + [words[|words| - 1]];
      Occurrences(init, w) + (if words[|words| - 1] == w then 1 else 0)
  }

  /** The number of words that are not stop words. */
  function ContentWordCount(words: seq<string>): (n: nat)
    ensures n <= |words|
  {
    if words == [] then 0
    else ContentWordCount(words[..|words| - 1]) + (if words[|words| - 1] in StopWords then 0 else 1)
  }

  /**
   * The table the counting loop produces, stated directly: one key per
   * distinct non-stop word, mapped to its number of occurrences.
   */
  function FrequencyTable(words: seq<string>): map<string, nat> {
    map w | w in words && w !in StopWords :: Occurrences(words, w)
  }

  /** One more word updates the table as one step of the counting loop does. */
  lemma FrequencyTableSnoc(words: seq<string>, x: string)
    ensures FrequencyTable(words + [x]) ==
      if x in StopWords then FrequencyTable(words)
      else FrequencyTable(words)[x := Lookup(FrequencyTable(words), x) + 1]
  {
    var ws := words + [x];
    assert ws[..|ws| - 1] == words;
    forall w
      ensures Occurrences(ws, w) == Occurrences(words, w) + (if x == w then 1 else 0)
    {
    }
  }

  /**
   * The frequency loop: for each word that is not a stop word, increment its
   * count, starting from 0 when it is first seen.
   */
  method BuildFrequencyTable(words: seq<string>) returns (freq: map<string, nat>)
    ensures freq == FrequencyTable(words)
  {
    freq := map[];
    var i := 0;
    while i < |words|
      invariant 0 <= i <= |words|
      invariant freq == FrequencyTable(words[..i])
    {
      var word := words[i];
      FrequencyTableSnoc(words[..i], word);
      if word !in StopWords {
        freq := freq[word := Lookup(freq, word) + 1];
      }
      assert words[..i + 1] == words[..i] + [word];
      i := i + 1;
    }
    assert words[..i] == words;
  }

  /** The sum of the counts of the keys `ks` of a table. */
  ghost function SumOver(m: map<string, nat>, ks: set<string>): nat
    requires ks <= m.Keys
  {
    if ks == {} then 0
    else
      var k :| k in ks;
      m[k] + SumOver(m, ks - {k})
  }

  /** The sum of all counts in a table. */
  ghost function Total(m: map<string, nat>): nat {
    SumOver(m, m.Keys)
  }

  /** The sum does not depend on which key is taken out first. */
  lemma {:induction false} SumOverRemove(m: map<string, nat>, ks: set<string>, k: string)
    requires ks <= m.Keys && k in ks
    ensures SumOver(m, ks) == m[k] + SumOver(m, ks - {k})
    decreases ks
  {
    var k' :| k' in ks && SumOver(m, ks) == m[k'] + SumOver(m, ks - {k'});
    if k' != k {
      SumOverRemove(m, ks - {k'}, k);
      SumOverRemove(m, ks - {k}, k');
      assert ks - {k'} - {k} == ks - {k} - {k'};
    }
  }

  lemma {:induction false} SumOverAgree(m: map<string, nat>, m': map<string, nat>, ks: set<string>)
    requires ks <= m.Keys && ks <= m'.Keys
    requires forall k :: k in ks ==> m[k] == m'[k]
    ensures SumOver(m, ks) == SumOver(m', ks)
    decreases ks
  {
    if ks != {} {
      var k :| k in ks;
      SumOverRemove(m, ks, k);
      SumOverRemove(m', ks, k);
      SumOverAgree(m, m', ks - {k});
    }
  }

  /** Counting one more occurrence of a word adds one to the total. */
  lemma TotalIncrement(m: map<string, nat>, x: string)
    ensures Total(m[x := Lookup(m, x) + 1]) == Total(m) + 1
  {
    var m' := m[x := Lookup(m, x) + 1];
    SumOverRemove(m', m'.Keys, x);
    if x in m {
      assert m'.Keys == m.Keys;
      SumOverRemove(m, m.Keys, x);
      SumOverAgree(m, m', m.Keys - {x});
    } else {
      assert m'.Keys - {x} == m.Keys;
      SumOverAgree(m, m', m.Keys);
    }
  }

  /**
   * The invariant of the frequency table: it never holds a stop word, every
   * word of the text that is not a stop word is a key, every count is at
   * least 1, and the counts add up to the number of non-stop words.
   */
  lemma {:induction false} FrequencyTableInvariant(words: seq<string>)
    ensures forall w :: w in FrequencyTable(words) <==> w in words && w !in StopWords
    ensures forall w :: w in FrequencyTable(words) ==> FrequencyTable(words)[w] >= 1
    ensures Total(FrequencyTable(words)) == ContentWordCount(words)
    decreases |words|
  {
    if words != [] {
      var init, x := words[..|words| - 1], words[|words| - 1];
      assert words == init + [x];
      FrequencyTableInvariant(init);
      FrequencyTableSnoc(init, x);
      if x !in StopWords {
        TotalIncrement(FrequencyTable(init), x);
      }
    } else {
      assert FrequencyTable(words) == map[];
    }
  }
}
