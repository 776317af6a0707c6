/**
 * `summarizeText(text, numSentences = 2)`: the extractive summariser as a
 * whole. The text is absent (`null`/`undefined`) or a string; the count is
 * omitted or an integer.
 */
module Summarizer {
  import opened Text
  import opened Frequency
  import opened Scoring
  import opened Selection

  datatype Option<T> = None | Some(value: T)

  const NoTextMessage: string := "No text provided for summarization."

  /** The count used when the caller passes none. */
  const DefaultCount: int := 2

  function EffectiveCount(count: Option<int>): int {
    if count.Some? then count.value else DefaultCount
  }

  /** The score table of a text: its distinct sentences, first-seen order, scored. */
  function TableOf(text: string): seq<Entry> {
    ScoreTable(Sentences(text), FrequencyTable(Words(text)))
  }

  /** The sentence texts the summary is made of, best first. */
  function Chosen(text: string, n: int): seq<string> {
    Select(TableOf(text), n)
  }

  /** What `summarizeText` returns. */
  function Summary(text: Option<string>, count: Option<int>): string {
    if text.None? || |text.value| == 0 then NoTextMessage
    else Join(Chosen(text.value, EffectiveCount(count)))
  }

  /**
   * The summariser as the source runs it: segment, tokenise, count words in
   * one loop, score sentences in another, then sort, cut and join.
   */
  method SummarizeText(text: Option<string>, count: Option<int>) returns (summary: string)
    ensures summary == Summary(text, count)
  {
    if text.None? || |text.value| == 0 {
      return NoTextMessage;
    }
    var t := text.value;
    var n := EffectiveCount(count);
    var sentences := Sentences(t);
    var words := Words(t);
    var freq := BuildFrequencyTable(words);
    var table := BuildScoreTable(sentences, freq);
    var sorted := SortByScore(table);
    summary := Join(KeysOf(Take(sorted, n)));
  }

  /** Empty or absent text gives the fixed message, whatever the count. */
  lemma NoTextGivesMessage(count: Option<int>)
    ensures Summary(None, count) == NoTextMessage
    ensures Summary(Some(""), count) == NoTextMessage
  {
  }

  /** An omitted count behaves as a count of 2. */
  lemma OmittedCountIsTwo(text: Option<string>)
    ensures Summary(text, None) == Summary(text, Some(2))
  {
  }

  /**
   * Choosing from a table whose entries carry their sentences' scores gives
   * texts whose scores never increase.
   */
  lemma SelectScored(t: seq<Entry>, freq: map<string, nat>, n: int)
    requires Distinct(KeysOf(t))
    requires forall e :: e in t ==> e.score == SentenceScore(e.sentence, freq)
    ensures var c := Select(t, n);
      forall i, j :: 0 <= i < j < |c| ==> SentenceScore(c[i], freq) >= SentenceScore(c[j], freq)
  {
    TakeSorted(t, n);
    var p := Take(SortByScore(t), n);
    forall i | 0 <= i < |p|
      ensures p[i].score == SentenceScore(p[i].sentence, freq)
    {
      assert p[i] in t;
    }
  }

  /**
   * What `sort`, `slice` and `map` keep of the score table of any list of
   * sentences: `slice(0, n)` of the distinct texts, each a sentence of the
   * list, none twice, scores never increasing, and all of them when `n`
   * reaches the number of distinct texts.
   */
  lemma SelectFromScoreTable(sentences: seq<string>, freq: map<string, nat>, n: int)
    ensures var c := Select(ScoreTable(sentences, freq), n);
      var d := FirstOccurrences(sentences);
      && |c| == SliceEnd(|d|, n)
      && (forall x :: x in c ==> x in sentences)
      && Distinct(c)
      && (forall i, j :: 0 <= i < j < |c| ==> SentenceScore(c[i], freq) >= SentenceScore(c[j], freq))
      && (n >= |d| ==> forall x :: x in c <==> x in sentences)
  {
    var t := ScoreTable(sentences, freq);
    ScoreTableShape(sentences, freq);
    TakeSorted(t, n);
    SelectKeys(t, n);
    SelectScored(t, freq, n);
  }

  /**
   * The texts chosen from the score table of any list of sentences are the
   * best ones: each scores at least every sentence that is not chosen, and
   * against a sentence of equal score that is not chosen it is the one seen
   * first.
   */
  lemma SelectBestFromScoreTable(sentences: seq<string>, freq: map<string, nat>, n: int)
    ensures var c := Select(ScoreTable(sentences, freq), n);
      && (forall x, y :: x in c && y in sentences && y !in c ==>
            SentenceScore(x, freq) >= SentenceScore(y, freq))
      && (forall x, y ::
            (x in c && x in sentences && y in sentences && y !in c && SentenceScore(x, freq) == SentenceScore(y, freq)) ==>
            FirstIndex(sentences, x) < FirstIndex(sentences, y))
  {
    var t := ScoreTable(sentences, freq);
    ScoreTableShape(sentences, freq);
    var c := Select(t, n);
    forall x, y | x in c && y in sentences && y !in c
      ensures SentenceScore(x, freq) >= SentenceScore(y, freq)
      ensures x in sentences && SentenceScore(x, freq) == SentenceScore(y, freq) ==>
        FirstIndex(sentences, x) < FirstIndex(sentences, y)
    {
      var i, j := KeptBeatsCut(t, n, x, y);
      assert t[i] in t && t[j] in t;
    }
  }

  /**
   * The chosen sentences are the best ones: each scores at least every
   * sentence of the text left out, and of two sentences with the same score
   * the one seen first is chosen first.
   */
  lemma ChosenBeatRest(text: string, n: int)
    ensures var c := Chosen(text, n);
      var freq := FrequencyTable(Words(text));
      && (forall x, y :: x in c && y in Sentences(text) && y !in c ==>
            SentenceScore(x, freq) >= SentenceScore(y, freq))
      && (forall x, y ::
            (x in c && x in Sentences(text) && y in Sentences(text) && y !in c && SentenceScore(x, freq) == SentenceScore(y, freq)) ==>
            FirstIndex(Sentences(text), x) < FirstIndex(Sentences(text), y))
  {
    SelectBestFromScoreTable(Sentences(text), FrequencyTable(Words(text)), n);
  }

  /**
   * How many are chosen: `slice(0, n)` of the distinct sentence texts, so
   * min(n, distinct) of them for n >= 0 and all but the last -n for n < 0.
   */
  lemma ChosenCount(text: string, n: int)
    ensures var d := FirstOccurrences(Sentences(text));
      && |Chosen(text, n)| == SliceEnd(|d|, n)
      && (n >= 0 ==> |Chosen(text, n)| == if n < |d| then n else |d|)
      && (n < 0 ==> |Chosen(text, n)| == if |d| + n > 0 then |d| + n else 0)
  {
    SelectFromScoreTable(Sentences(text), FrequencyTable(Words(text)), n);
  }

  /**
   * Which are chosen: sentences of the text, none twice, with scores that
   * never increase along the choice; when n covers them all, every distinct
   * sentence is chosen exactly once.
   */
  lemma ChosenSentences(text: string, n: int)
    ensures var c := Chosen(text, n);
      var freq := FrequencyTable(Words(text));
      && (forall x :: x in c ==> x in Sentences(text))
      && Distinct(c)
      && (forall i, j :: 0 <= i < j < |c| ==> SentenceScore(c[i], freq) >= SentenceScore(c[j], freq))
      && (n >= |FirstOccurrences(Sentences(text))| ==>
            |c| == |FirstOccurrences(Sentences(text))| && forall x :: x in c <==> x in Sentences(text))
  {
    SelectFromScoreTable(Sentences(text), FrequencyTable(Words(text)), n);
  }

  /**
   * The summary of a non-empty text is the chosen sentences, verbatim, one
   * after another with single spaces between them; with no sentence chosen
   * (a count of 0, say) it is the empty string.
   */
  lemma SummaryLayout(text: string, count: Option<int>)
    requires text != ""
    ensures IsLayout(Summary(Some(text), count), Chosen(text, EffectiveCount(count)))
  {
    var c := Chosen(text, EffectiveCount(count));
    assert Summary(Some(text), count) == Join(c);
    JoinLayout(c);
  }

  /**
   * A text with at least one sentence and a count of at least 1 gives a
   * summary that starts with a whole sentence of the text, so it is never
   * empty.
   */
  lemma SummaryNotEmpty(text: string, n: int)
    requires Sentences(text) != [] && n >= 1
    ensures var s := Summary(Some(text), Some(n));
      exists x :: x in Sentences(text) && |x| <= |s| && s[..|x|] == x && |s| >= 2
  {
    var c := Chosen(text, n);
    assert Sentences(text)[0] in FirstOccurrences(Sentences(text));
    SelectFromScoreTable(Sentences(text), FrequencyTable(Words(text)), n);
    var x := c[0];
    SentenceLength(text, x);
    assert Summary(Some(text), Some(n)) == Join(c);
    JoinFirst(c);
  }

  /** Sentences made of stop words only score 0. */
  lemma StopWordScoresZero(text: string)
    requires forall k, w :: 0 <= k < |Sentences(text)| && w in Words(Sentences(text)[k]) ==> w in StopWords
    ensures forall e :: e in TableOf(text) ==> e.score == 0
  {
    var t := TableOf(text);
    ScoreTableShape(Sentences(text), FrequencyTable(Words(text)));
    forall e | e in t
      ensures e.score == 0
    {
      var i :| 0 <= i < |t| && t[i] == e;
      assert KeysOf(t)[i] == e.sentence;
      assert e.sentence in Sentences(text);
      var k :| 0 <= k < |Sentences(text)| && Sentences(text)[k] == e.sentence;
      SentenceScoreZero(text, k);
    }
  }

  /**
   * When every sentence consists of stop words only, every score is 0 and
   * the summary takes the first sentences in first-seen order.
   */
  lemma StopWordSentencesKeepOrder(text: string, n: int)
    requires forall k, w :: 0 <= k < |Sentences(text)| && w in Words(Sentences(text)[k]) ==> w in StopWords
    ensures var d := FirstOccurrences(Sentences(text));
      Chosen(text, n) == d[..SliceEnd(|d|, n)]
  {
    StopWordScoresZero(text);
    ScoreTableShape(Sentences(text), FrequencyTable(Words(text)));
    SelectEqualScores(TableOf(text), 0, n);
  }
}
