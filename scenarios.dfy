/**
 * Worked inputs that show how sentence texts are compared: byte for byte,
 * leading whitespace included.
 */
module Scenarios {
  import opened Text
  import opened Scoring
  import opened Selection
  import opened Summarizer

  /** Two identical sentences next to each other. */
  lemma IdenticalSentencesSegment()
    ensures Sentences("Hi.Hi.") == ["Hi.", "Hi."]
  {
    var t := "Hi.Hi.";
    assert t[0] == 'H' && t[1] == 'i' && t[2] == '.' && t[3] == 'H' && t[4] == 'i' && t[5] == '.';
    assert SpansFrom(t, 6, 6) == [];
    assert SpansFrom(t, 3, 5) == [Span(3, 6)];
    assert SpansFrom(t, 3, 4) == [Span(3, 6)];
    assert SpansFrom(t, 3, 3) == [Span(3, 6)];
    assert SpansFrom(t, 0, 2) == [Span(0, 3), Span(3, 6)];
    assert SpansFrom(t, 0, 1) == [Span(0, 3), Span(3, 6)];
    assert SpansFrom(t, 0, 0) == [Span(0, 3), Span(3, 6)];
    assert t[0..3] == "Hi." && t[3..6] == "Hi.";
  }

  /**
   * Two identical sentence texts collapse into one entry of the score table,
   * so a count of 3 still returns the sentence once.
   */
  lemma IdenticalSentencesCollapse()
    ensures Summary(Some("Hi.Hi."), Some(3)) == "Hi."
  {
    var t := "Hi.Hi.";
    IdenticalSentencesSegment();
    var ss := Sentences(t);
    assert ss[..1] == ["Hi."];
    assert ss[..1][..0] == [];
    assert FirstOccurrences(ss[..1]) == ["Hi."];
    assert ss[..|ss| - 1] == ss[..1];
    assert FirstOccurrences(ss) == ["Hi."];
    var table := TableOf(t);
    assert |table| == 1 && table[0].sentence == "Hi.";
    assert table[1..] == [];
    assert SortByScore(table) == table;
    assert Take(table, 3) == table;
    assert KeysOf(table) == ["Hi."];
    assert Chosen(t, 3) == ["Hi."];
  }

  /**
   * The same words after a space are a different sentence text, so both
   * survive as separate entries.
   */
  lemma LeadingSpaceKeepsSentencesApart()
    ensures Sentences("Hi. Hi.") == ["Hi.", " Hi."]
    ensures |FirstOccurrences(Sentences("Hi. Hi."))| == 2
  {
    var t := "Hi. Hi.";
    assert t[0] == 'H' && t[1] == 'i' && t[2] == '.' && t[3] == ' ' && t[4] == 'H' && t[5] == 'i' && t[6] == '.';
    assert SpansFrom(t, 7, 7) == [];
    assert SpansFrom(t, 3, 6) == [Span(3, 7)];
    assert SpansFrom(t, 3, 5) == [Span(3, 7)];
    assert SpansFrom(t, 3, 4) == [Span(3, 7)];
    assert SpansFrom(t, 3, 3) == [Span(3, 7)];
    assert SpansFrom(t, 0, 2) == [Span(0, 3), Span(3, 7)];
    assert SpansFrom(t, 0, 1) == [Span(0, 3), Span(3, 7)];
    assert SpansFrom(t, 0, 0) == [Span(0, 3), Span(3, 7)];
    assert t[0..3] == "Hi." && t[3..7] == " Hi.";
    var ss := Sentences(t);
    assert ss[0] != ss[1];
    assert Distinct(FirstOccurrences(ss));
  }
}
