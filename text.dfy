/**
 * Sentence segmentation and word tokenisation of the summariser.
 *
 * Sentences are the matches of the pattern `[^.!?]+[.!?]` taken globally over
 * the document; words are the matches of `\b\w+\b` over the lower-cased text.
 * Characters are treated as ASCII: `\w` is `[A-Za-z0-9_]` and lower-casing only
 * touches `A`..`Z`.
 */
module Text {

  /** The three sentence terminators. */
  predicate IsTerminator(c: char) {
    c == '.' || c == '!' || c == '?'
  }

  /** The character class `\w`. */
  predicate IsWordChar(c: char) {
    ('a' <= c <= 'z') || ('A' <= c <= 'Z') || ('0' <= c <= '9') || c == '_'
  }

  function LowerChar(c: char): char {
    if 'A' <= c <= 'Z' then (c as int - 'A' as int + 'a' as int) as char else c
  }

  /** `toLowerCase`, restricted to ASCII letters. */
  function Lower(s: string): string {
    seq(|s|, i requires 0 <= i < |s| => LowerChar(s[i]))
  }

  /**
   * Lower-casing keeps the length, maps `A`..`Z` to `a`..`z`, leaves every
   * other character alone, and so changes no answer of `IsWordChar` or
   * `IsTerminator`.
   */
  lemma LowerChars(s: string)
    ensures |Lower(s)| == |s|
    ensures forall i :: 0 <= i < |s| && 'A' <= s[i] <= 'Z' ==>
      'a' <= Lower(s)[i] <= 'z' && Lower(s)[i] as int - 'a' as int == s[i] as int - 'A' as int
    ensures forall i :: 0 <= i < |s| && !('A' <= s[i] <= 'Z') ==> Lower(s)[i] == s[i]
    ensures forall i :: 0 <= i < |s| ==>
      IsWordChar(Lower(s)[i]) == IsWordChar(s[i]) && IsTerminator(Lower(s)[i]) == IsTerminator(s[i])
  {
  }

  lemma LowerAppend(a: string, b: string)
    ensures Lower(a + b) == Lower(a) + Lower(b)
  {
    assert forall i :: 0 <= i < |a + b| ==> Lower(a + b)[i] == (Lower(a) + Lower(b))[i];
  }

  // ---------------------------------------------------------------------------
  // Words
  // ---------------------------------------------------------------------------

  /** Length of the longest prefix of `s` made of word characters. */
  function RunLength(s: string): (n: nat)
    ensures n <= |s|
    ensures forall i :: 0 <= i < n ==> IsWordChar(s[i])
    ensures n < |s| ==> !IsWordChar(s[n])
  {
    if s == [] || !IsWordChar(s[0]) then 0 else 1 + RunLength(s[1..])
  }

  /**
   * The matches of `\b\w+\b` in `s`, in order: the maximal runs of word
   * characters (a run cannot start just after a word character, and the
   * greedy `\w+` always extends it to the next non-word character).
   */
  function Runs(s: string): seq<string>
    decreases |s|
  {
    if s == [] then []
    else if !IsWordChar(s[0]) then Runs(s[1..])
    else
      var n := RunLength(s);
      [s[..n]] + Runs(s[n..])
  }

  /** The words of a text: its runs of word characters after lower-casing. */
  function Words(s: string): seq<string> {
    Runs(Lower(s))
  }

  /** The word characters of `s`, in order; the reference the runs are checked against. */
  function WordChars(s: string): string {
    if s == [] then []
    else (if IsWordChar(s[0]) then [s[0]] else []) + WordChars(s[1..])
  }

  function Concat(parts: seq<string>): string {
    if parts == [] then [] else parts[0] + Concat(parts[1..])
  }

  lemma {:induction false} WordCharsAppend(a: string, b: string)
    ensures WordChars(a + b) == WordChars(a) + WordChars(b)
    decreases |a|
  {
    if a == [] {
      assert a + b == b;
    } else {
      var head := if IsWordChar(a[0]) then [a[0]] else [];
      assert (a + b)[0] == a[0];
      assert (a + b)[1..] == a[1..] + b;
      WordCharsAppend(a[1..], b);
      calc {
        WordChars(a + b);
        head + WordChars(a[1..] + b);
        head + (WordChars(a[1..]) + WordChars(b));
        (head + WordChars(a[1..])) + WordChars(b);
      }
    }
  }

  lemma {:induction false} WordCharsOfRun(s: string)
    requires forall i :: 0 <= i < |s| ==> IsWordChar(s[i])
    ensures WordChars(s) == s
    decreases |s|
  {
    if s != [] {
      WordCharsOfRun(s[1..]);
    }
  }

  /**
   * Every run is a non-empty string of word characters, and together the runs
   * hold exactly the word characters of `s`, in order: tokenising drops
   * separators and nothing else.
   */
  lemma {:induction false} RunsAreWordChars(s: string)
    ensures forall k :: 0 <= k < |Runs(s)| ==>
      Runs(s)[k] != [] && forall i :: 0 <= i < |Runs(s)[k]| ==> IsWordChar(Runs(s)[k][i])
    ensures Concat(Runs(s)) == WordChars(s)
    decreases |s|
  {
    if s == [] {
    } else if !IsWordChar(s[0]) {
      RunsAreWordChars(s[1..]);
    } else {
      var n := RunLength(s);
      RunsAreWordChars(s[n..]);
      assert s == s[..n] + s[n..];
      WordCharsAppend(s[..n], s[n..]);
      WordCharsOfRun(s[..n]);
      var r := Runs(s);
      assert r == [s[..n]] + Runs(s[n..]);
      assert r[1..] == Runs(s[n..]);
      forall k | 0 <= k < |r|
        ensures r[k] != [] && forall i :: 0 <= i < |r[k]| ==> IsWordChar(r[k][i])
      {
        if k > 0 {
          assert r[k] == Runs(s[n..])[k - 1];
        }
      }
    }
  }

  lemma {:induction false} RunLengthAppend(a: string, b: string)
    requires a != [] && !IsWordChar(a[|a| - 1])
    ensures RunLength(a + b) == RunLength(a) < |a|
    decreases |a|
  {
    if IsWordChar(a[0]) {
      assert |a| > 1;
      assert (a + b)[1..] == a[1..] + b;
      RunLengthAppend(a[1..], b);
    }
  }

  /**
   * Tokenising a text that splits after a non-word character is the same as
   * tokenising the two parts separately.
   */
  lemma {:induction false} RunsAppend(a: string, b: string)
    requires a == [] || !IsWordChar(a[|a| - 1])
    ensures Runs(a + b) == Runs(a) + Runs(b)
    decreases |a|
  {
    if a == [] {
      assert a + b == b;
    } else if !IsWordChar(a[0]) {
      assert (a + b)[0] == a[0];
      assert (a + b)[1..] == a[1..] + b;
      RunsAppend(a[1..], b);
      assert Runs(a + b) == Runs(a[1..] + b);
    } else {
      assert (a + b)[0] == a[0];
      RunLengthAppend(a, b);
      var n := RunLength(a);
      assert (a + b)[..n] == a[..n];
      assert (a + b)[n..] == a[n..] + b;
      RunsAppend(a[n..], b);
      calc {
        Runs(a + b);
        [a[..n]] + Runs(a[n..] + b);
        [a[..n]] + (Runs(a[n..]) + Runs(b));
        ([a[..n]] + Runs(a[n..])) + Runs(b);
      }
    }
  }

  /**
   * `sp` is one match of `\b\w+\b`: a non-empty run of word characters with
   * no word character directly before or after it.
   */
  ghost predicate IsWordSpan(s: string, sp: Span) {
    && sp.start < sp.end <= |s|
    && (forall i :: sp.start <= i < sp.end ==> IsWordChar(s[i]))
    && (sp.start == 0 || !IsWordChar(s[sp.start - 1]))
    && (sp.end == |s| || !IsWordChar(s[sp.end]))
  }

  /** Position `p` starts a maximal run of word characters. */
  ghost predicate StartsWord(s: string, p: int) {
    0 <= p < |s| && IsWordChar(s[p]) && (p == 0 || !IsWordChar(s[p - 1]))
  }

  /**
   * The positions of the runs found by scanning `s` from `i`, in the same
   * steps `Runs` takes on `s[i..]`.
   */
  function WordSpansFrom(s: string, i: nat): (r: seq<Span>)
    requires i <= |s|
    ensures forall k :: 0 <= k < |r| ==> i <= r[k].start < r[k].end <= |s|
    decreases |s| - i
  {
    if i == |s| then []
    else if !IsWordChar(s[i]) then WordSpansFrom(s, i + 1)
    else
      var n := RunLength(s[i..]);
      assert s[i..][0] == s[i];
      [Span(i, i + n)] + WordSpansFrom(s, i + n)
  }

  /** `r` lists the slices of `s` at `spans`, one for one. */
  ghost predicate SlicesAt(s: string, spans: seq<Span>, r: seq<string>) {
    && |r| == |spans|
    && forall k :: 0 <= k < |spans| ==> spans[k].start <= spans[k].end <= |s| && r[k] == s[spans[k].start..spans[k].end]
  }

  /** Every span is a match of `\b\w+\b`, and the spans are strictly apart, in order. */
  ghost predicate WordMatches(s: string, spans: seq<Span>) {
    && (forall k :: 0 <= k < |spans| ==> IsWordSpan(s, spans[k]))
    && (forall k :: 0 < k < |spans| ==> spans[k - 1].end < spans[k].start)
  }

  lemma SlicesAtCons(s: string, sp: Span, spans: seq<Span>, r: seq<string>)
    requires sp.start <= sp.end <= |s| && SlicesAt(s, spans, r)
    ensures SlicesAt(s, [sp] + spans, [s[sp.start..sp.end]] + r)
  {
    var spans', r' := [sp] + spans, [s[sp.start..sp.end]] + r;
    forall k | 0 < k < |spans'|
      ensures spans'[k].start <= spans'[k].end <= |s| && r'[k] == s[spans'[k].start..spans'[k].end]
    {
      assert spans'[k] == spans[k - 1] && r'[k] == r[k - 1];
    }
  }

  /** The runs of `s[i..]` are the slices of `s` at the spans the scan finds. */
  lemma {:induction false} RunsAtWordSpans(s: string, i: nat)
    requires i <= |s|
    ensures SlicesAt(s, WordSpansFrom(s, i), Runs(s[i..]))
    decreases |s| - i
  {
    if i == |s| {
      assert s[i..] == [];
    } else if !IsWordChar(s[i]) {
      RunsSkip(s, i);
      RunsAtWordSpans(s, i + 1);
      WordSpansFromSkip(s, i);
    } else {
      var n := RunLength(s[i..]);
      RunsRun(s, i);
      RunsAtWordSpans(s, i + n);
      WordSpansFromRun(s, i);
      SlicesAtCons(s, Span(i, i + n), WordSpansFrom(s, i + n), Runs(s[i + n..]));
    }
  }

  /** Tokenising from a non-word character skips it. */
  lemma RunsSkip(s: string, i: nat)
    requires i < |s| && !IsWordChar(s[i])
    ensures Runs(s[i..]) == Runs(s[i + 1..])
  {
    assert s[i..][0] == s[i] && s[i..][1..] == s[i + 1..];
  }

  /** Tokenising from a word character takes the run there first. */
  lemma RunsRun(s: string, i: nat)
    requires i < |s| && IsWordChar(s[i])
    ensures Runs(s[i..]) == [s[i..i + RunLength(s[i..])]] + Runs(s[i + RunLength(s[i..])..])
  {
    var t := s[i..];
    assert t[0] == s[i];
    var n := RunLength(t);
    assert t[..n] == s[i..i + n] && t[n..] == s[i + n..];
  }

  lemma WordMatchesCons(s: string, sp: Span, spans: seq<Span>)
    requires IsWordSpan(s, sp) && WordMatches(s, spans)
    requires |spans| > 0 ==> sp.end < spans[0].start
    ensures WordMatches(s, [sp] + spans)
  {
    var r := [sp] + spans;
    forall k | 0 < k < |r|
      ensures IsWordSpan(s, r[k]) && r[k - 1].end < r[k].start
    {
      assert r[k] == spans[k - 1];
      if k > 1 {
        assert r[k - 1] == spans[k - 2];
      }
    }
  }

  /** The run the scan takes at the start of a word is a match. */
  lemma RunIsWordSpan(s: string, i: nat)
    requires i < |s| && IsWordChar(s[i]) && (i == 0 || !IsWordChar(s[i - 1]))
    ensures var n := RunLength(s[i..]);
      IsWordSpan(s, Span(i, i + n)) && (i + n == |s| || !IsWordChar(s[i + n]))
  {
    var t := s[i..];
    assert t[0] == s[i];
    var n := RunLength(t);
    assert forall j :: i <= j < i + n ==> s[j] == t[j - i];
    assert i + n < |s| ==> s[i + n] == t[n];
  }

  /** At a word character the scan takes the run there and goes on after it. */
  lemma WordSpansFromRun(s: string, i: nat)
    requires i < |s| && IsWordChar(s[i])
    ensures WordSpansFrom(s, i) == [Span(i, i + RunLength(s[i..]))] + WordSpansFrom(s, i + RunLength(s[i..]))
  {
  }

  /** At any other character the scan skips it. */
  lemma WordSpansFromSkip(s: string, i: nat)
    requires i < |s| && !IsWordChar(s[i])
    ensures WordSpansFrom(s, i) == WordSpansFrom(s, i + 1)
  {
  }

  /** A match followed by the matches found after it are matches in order. */
  lemma WordSpanThenRest(s: string, i: nat)
    requires i < |s| && IsWordChar(s[i]) && (i == 0 || !IsWordChar(s[i - 1]))
    requires WordMatches(s, WordSpansFrom(s, i + RunLength(s[i..])))
    ensures WordMatches(s, WordSpansFrom(s, i))
  {
    var n := RunLength(s[i..]);
    RunIsWordSpan(s, i);
    var rest := WordSpansFrom(s, i + n);
    if i + n < |s| {
      WordSpansFromSkip(s, i + n);
      assert |rest| > 0 ==> rest[0].start >= i + n + 1;
    }
    WordSpansFromRun(s, i);
    WordMatchesCons(s, Span(i, i + n), rest);
  }

  /**
   * Every span the scan finds from a position that does not sit inside a
   * word is a match of `\b\w+\b`, and the spans are strictly apart.
   */
  lemma {:induction false} WordSpansSound(s: string, i: nat)
    requires i <= |s|
    requires i == 0 || i == |s| || !IsWordChar(s[i - 1]) || !IsWordChar(s[i])
    ensures WordMatches(s, WordSpansFrom(s, i))
    decreases |s| - i
  {
    if i < |s| {
      if !IsWordChar(s[i]) {
        WordSpansSound(s, i + 1);
        WordSpansFromSkip(s, i);
      } else {
        RunIsWordSpan(s, i);
        WordSpansSound(s, i + RunLength(s[i..]));
        WordSpanThenRest(s, i);
      }
    }
  }

  /** The scan misses no match: every maximal run from `i` on is found. */
  lemma {:induction false} WordSpansComplete(s: string, i: nat, p: nat)
    requires i <= p && StartsWord(s, p)
    ensures exists k :: 0 <= k < |WordSpansFrom(s, i)| && WordSpansFrom(s, i)[k].start == p
    decreases |s| - i
  {
    if !IsWordChar(s[i]) {
      WordSpansComplete(s, i + 1, p);
      WordSpansFromSkip(s, i);
    } else {
      var t := s[i..];
      assert t[0] == s[i];
      var n := RunLength(t);
      var rest := WordSpansFrom(s, i + n);
      var r := [Span(i, i + n)] + rest;
      WordSpansFromRun(s, i);
      if p == i {
        assert r[0].start == p;
      } else {
        assert p >= i + n;
        WordSpansComplete(s, i + n, p);
        var k :| 0 <= k < |rest| && rest[k].start == p;
        assert r[k + 1].start == p;
      }
    }
  }

  /** The positions of the runs of word characters in `s`. */
  function WordSpans(s: string): seq<Span> {
    WordSpansFrom(s, 0)
  }

  /**
   * Tokenising with `\b\w+\b` finds exactly the maximal runs of word
   * characters: each run is the slice of `s` at a span that is all word
   * characters with no word character just before or after it, the spans
   * come in order and strictly apart, and every maximal run is one of them.
   */
  lemma RunsAreMaximal(s: string)
    ensures SlicesAt(s, WordSpans(s), Runs(s))
    ensures WordMatches(s, WordSpans(s))
    ensures forall p :: StartsWord(s, p) ==>
      exists k :: 0 <= k < |WordSpans(s)| && WordSpans(s)[k].start == p
  {
    assert s[0..] == s;
    assert WordSpans(s) == WordSpansFrom(s, 0);
    RunsAtWordSpans(s, 0);
    WordSpansSound(s, 0);
    forall p | StartsWord(s, p)
      ensures exists k :: 0 <= k < |WordSpans(s)| && WordSpans(s)[k].start == p
    {
      WordSpansComplete(s, 0, p);
    }
  }

  // ---------------------------------------------------------------------------
  // Sentences
  // ---------------------------------------------------------------------------

  /** A sentence's position in the document: `text[start..end]`. */
  datatype Span = Span(start: nat, end: nat)

  /**
   * `sp` is one match of `[^.!?]+[.!?]`: at least one non-terminator, then one
   * terminator, and it starts at the beginning of the text or right after a
   * terminator (so the run of non-terminators is maximal).
   */
  ghost predicate IsSentenceSpan(text: string, sp: Span) {
    && sp.start + 2 <= sp.end <= |text|
    && IsTerminator(text[sp.end - 1])
    && (forall k :: sp.start <= k < sp.end - 1 ==> !IsTerminator(text[k]))
    && (sp.start == 0 || IsTerminator(text[sp.start - 1]))
  }

  /** Position `j` holds a terminator that directly follows a non-terminator. */
  ghost predicate ClosesSentence(text: string, j: int) {
    0 < j < |text| && IsTerminator(text[j]) && !IsTerminator(text[j - 1])
  }

  /**
   * The global scan of `[^.!?]+[.!?]` from position `i`, inside a run of
   * non-terminators that began at `start`: a terminator after at least one
   * non-terminator closes a match, and the next run begins after it.
   */
  function SpansFrom(text: string, start: nat, i: nat): (r: seq<Span>)
    requires start <= i <= |text|
    ensures forall k :: 0 <= k < |r| ==> start <= r[k].start <= r[k].end <= |text|
    decreases |text| - i
  {
    if i == |text| then []
    else if IsTerminator(text[i]) then
      var rest := SpansFrom(text, i + 1, i + 1);
      if start < i then [Span(start, i + 1)] + rest else rest
    else
      SpansFrom(text, start, i + 1)
  }

  /** Every span is a match, and the spans are in order without overlap. */
  ghost predicate MatchSpans(text: string, r: seq<Span>) {
    && (forall k :: 0 <= k < |r| ==> IsSentenceSpan(text, r[k]))
    && (forall k :: 0 < k < |r| ==> r[k - 1].end <= r[k].start)
  }

  /** A match in front of later, ordered matches keeps them ordered. */
  lemma MatchSpansCons(text: string, sp: Span, rest: seq<Span>)
    requires IsSentenceSpan(text, sp) && MatchSpans(text, rest)
    requires |rest| > 0 ==> sp.end <= rest[0].start
    ensures MatchSpans(text, [sp] + rest)
  {
    var r := [sp] + rest;
    forall k | 0 < k < |r|
      ensures IsSentenceSpan(text, r[k]) && r[k - 1].end <= r[k].start
    {
      assert r[k] == rest[k - 1];
      if k > 1 {
        assert r[k - 1] == rest[k - 2];
      }
    }
  }

  /**
   * Every span the scan lists is a match of `[^.!?]+[.!?]`, and the spans
   * come in document order without overlap.
   */
  lemma {:induction false} SpansFromSound(text: string, start: nat, i: nat)
    requires start <= i <= |text|
    requires start == 0 || IsTerminator(text[start - 1])
    requires forall k :: start <= k < i ==> !IsTerminator(text[k])
    ensures MatchSpans(text, SpansFrom(text, start, i))
    decreases |text| - i
  {
    if i < |text| {
      if IsTerminator(text[i]) {
        var rest := SpansFrom(text, i + 1, i + 1);
        SpansFromSound(text, i + 1, i + 1);
        if start < i {
          assert SpansFrom(text, start, i) == [Span(start, i + 1)] + rest;
          MatchSpansCons(text, Span(start, i + 1), rest);
        } else {
          assert SpansFrom(text, start, i) == rest;
        }
      } else {
        SpansFromSound(text, start, i + 1);
        assert SpansFrom(text, start, i) == SpansFrom(text, start, i + 1);
      }
    }
  }

  /** Where each span ends. */
  function Ends(spans: seq<Span>): seq<nat> {
    seq(|spans|, k requires 0 <= k < |spans| => spans[k].end)
  }

  /**
   * The scan misses no match: each terminator at or after `i` that follows a
   * non-terminator ends one of the spans.
   */
  lemma {:induction false} SpansFromComplete(text: string, start: nat, i: nat, j: nat)
    requires ClosesSentence(text, j) && start <= i <= j
    requires start == 0 || IsTerminator(text[start - 1])
    requires forall k :: start <= k < i ==> !IsTerminator(text[k])
    ensures j + 1 in Ends(SpansFrom(text, start, i))
    decreases |text| - i
  {
    if IsTerminator(text[i]) {
      var rest := SpansFrom(text, i + 1, i + 1);
      if j == i {
        assert SpansFrom(text, start, i) == [Span(start, i + 1)] + rest;
        assert Ends(SpansFrom(text, start, i))[0] == j + 1;
      } else {
        SpansFromComplete(text, i + 1, i + 1, j);
        if start < i {
          assert SpansFrom(text, start, i) == [Span(start, i + 1)] + rest;
          assert Ends(SpansFrom(text, start, i)) == [i + 1] + Ends(rest);
        } else {
          assert SpansFrom(text, start, i) == rest;
        }
      }
    } else {
      SpansFromComplete(text, start, i + 1, j);
      assert SpansFrom(text, start, i) == SpansFrom(text, start, i + 1);
    }
  }

  /** The positions of the sentences of `text`, in document order. */
  function Spans(text: string): seq<Span> {
    SpansFrom(text, 0, 0)
  }

  /** `text.match(/[^.!?]+[.!?]/g) || []`. */
  function Sentences(text: string): seq<string> {
    var sp := Spans(text);
    seq(|sp|, k requires 0 <= k < |sp| => text[sp[k].start..sp[k].end])
  }

  /**
   * Each sentence is a verbatim slice of the text, at least two characters
   * long, ending in a terminator and holding no terminator before its last
   * character; the slices come in document order and do not overlap.
   */
  lemma SentencesAreSlices(text: string)
    ensures |Sentences(text)| == |Spans(text)|
    ensures forall k :: 0 <= k < |Spans(text)| ==>
      IsSentenceSpan(text, Spans(text)[k]) &&
      Sentences(text)[k] == text[Spans(text)[k].start..Spans(text)[k].end]
    ensures forall k :: 0 < k < |Spans(text)| ==> Spans(text)[k - 1].end <= Spans(text)[k].start
    ensures forall k :: 0 <= k < |Sentences(text)| ==>
      var s := Sentences(text)[k];
      |s| >= 2 && IsTerminator(s[|s| - 1]) && forall i :: 0 <= i < |s| - 1 ==> !IsTerminator(s[i])
  {
    SpansFromSound(text, 0, 0);
  }

  /** A sentence is at least one non-terminator and its terminator. */
  lemma SentenceLength(text: string, x: string)
    requires x in Sentences(text)
    ensures 2 <= |x| && IsTerminator(x[|x| - 1])
  {
    SentencesAreSlices(text);
  }

  /** Every terminator that follows a non-terminator closes one of the sentences. */
  lemma SentencesComplete(text: string, j: nat)
    requires ClosesSentence(text, j)
    ensures j + 1 in Ends(Spans(text))
  {
    assert Spans(text) == SpansFrom(text, 0, 0);
    SpansFromComplete(text, 0, 0, j);
  }

  /**
   * A sentence never cuts through a word, so the words of the text are the
   * words before it, its own words, and the words after it.
   */
  lemma WordsAroundSentence(text: string, sp: Span)
    requires IsSentenceSpan(text, sp)
    ensures Words(text) ==
      Words(text[..sp.start]) + Words(text[sp.start..sp.end]) + Words(text[sp.end..])
  {
    var a, b, c := text[..sp.start], text[sp.start..sp.end], text[sp.end..];
    var ab := a + b;
    assert text == ab + c;
    assert ab[|ab| - 1] == text[sp.end - 1];
    WordsSplit(ab, c);
    assert a != [] ==> a[|a| - 1] == text[sp.start - 1];
    WordsSplit(a, b);
    assert Words(text) == Words(ab) + Words(c);
  }

  /** Splitting a text just after a non-word character splits its words. */
  lemma WordsSplit(x: string, y: string)
    requires x == [] || !IsWordChar(x[|x| - 1])
    ensures Words(x + y) == Words(x) + Words(y)
  {
    LowerAppend(x, y);
    assert x != [] ==> Lower(x)[|x| - 1] == x[|x| - 1];
    RunsAppend(Lower(x), Lower(y));
  }

  /** Every word of a sentence of `text` is also a word of `text`. */
  lemma SentenceWordsInText(text: string, k: nat, w: string)
    requires k < |Sentences(text)|
    requires w in Words(Sentences(text)[k])
    ensures w in Words(text)
  {
    SentencesAreSlices(text);
    var sp := Spans(text)[k];
    WordsAroundSentence(text, sp);
  }
}
