/**
 * Top-N selection: the score table sorted by score, highest first and stably,
 * cut with `slice(0, n)`, reduced to the sentence texts and joined with single
 * spaces.
 */
module Selection {
  import opened Scoring

  /** Scores never increase along `t`. */
  predicate NonIncreasing(t: seq<Entry>) {
    forall i, j :: 0 <= i < j < |t| ==> t[i].score >= t[j].score
  }

  /** The entries of `t` with score `v`, in their order in `t`. */
  function WithScore(t: seq<Entry>, v: nat): seq<Entry> {
    if t == [] then []
    else (if t[0].score == v then [t[0]] else []) + WithScore(t[1..], v)
  }

  /**
   * Puts `e` in front of the first entry that does not score higher, so that
   * `e` ends up before every entry of `t` with its own score.
   */
  function Insert(e: Entry, t: seq<Entry>): (r: seq<Entry>)
    ensures multiset(r) == multiset(t) + multiset{e}
    ensures r[0] == e || r[0] == t[0]
  {
    if t == [] || t[0].score <= e.score then [e] + t
    else
      assert t == [t[0]] + t[1..];
      [t[0]] + Insert(e, t[1..])
  }

  /** A head scoring at least the first of an ordered tail keeps it ordered. */
  lemma NonIncreasingCons(h: Entry, s: seq<Entry>)
    requires NonIncreasing(s)
    requires s == [] || s[0].score <= h.score
    ensures NonIncreasing([h] + s)
  {
    var r := [h] + s;
    forall i, j | 0 <= i < j < |r|
      ensures r[i].score >= r[j].score
    {
      assert r[j] == s[j - 1];
      if i > 0 {
        assert r[i] == s[i - 1];
      }
    }
  }

  /** Inserting into a score-ordered sequence keeps it score-ordered. */
  lemma {:induction false} InsertOrdered(e: Entry, t: seq<Entry>)
    requires NonIncreasing(t)
    ensures NonIncreasing(Insert(e, t))
    decreases |t|
  {
    if t == [] || t[0].score <= e.score {
      NonIncreasingCons(e, t);
    } else {
      var tail := t[1..];
      assert NonIncreasing(tail) by {
        forall i, j | 0 <= i < j < |tail|
          ensures tail[i].score >= tail[j].score
        {
          assert tail[i] == t[i + 1] && tail[j] == t[j + 1];
        }
      }
      InsertOrdered(e, tail);
      assert tail != [] ==> tail[0] == t[1];
      NonIncreasingCons(t[0], Insert(e, tail));
    }
  }

  /**
   * `sort((a, b) => b[1] - a[1])`: a stable sort by score, highest first,
   * written as an insertion sort. The result is ordered and a permutation of
   * the table.
   */
  function SortByScore(t: seq<Entry>): (r: seq<Entry>)
    ensures NonIncreasing(r)
    ensures multiset(r) == multiset(t)
  {
    if t == [] then []
    else
      assert t == [t[0]] + t[1..];
      InsertOrdered(t[0], SortByScore(t[1..]));
      Insert(t[0], SortByScore(t[1..]))
  }

  lemma {:induction false} WithScoreInsert(e: Entry, t: seq<Entry>, v: nat)
    ensures WithScore(Insert(e, t), v) == if e.score == v then [e] + WithScore(t, v) else WithScore(t, v)
    decreases |t|
  {
    if t == [] || t[0].score <= e.score {
      assert ([e] + t)[1..] == t;
      if t != [] && t[0].score != e.score {
        assert t[0].score < e.score;
      }
    } else {
      WithScoreInsert(e, t[1..], v);
      assert ([t[0]] + Insert(e, t[1..]))[1..] == Insert(e, t[1..]);
    }
  }

  /**
   * The sort is stable: for every score, the entries with that score keep
   * the order they had in the table.
   */
  lemma {:induction false} SortByScoreStable(t: seq<Entry>, v: nat)
    ensures WithScore(SortByScore(t), v) == WithScore(t, v)
    decreases |t|
  {
    if t != [] {
      SortByScoreStable(t[1..], v);
      WithScoreInsert(t[0], SortByScore(t[1..]), v);
    }
  }

  lemma {:induction false} WithScoreMember(t: seq<Entry>, v: nat)
    ensures forall e :: e in WithScore(t, v) <==> e in t && e.score == v
    decreases |t|
  {
    if t != [] {
      WithScoreMember(t[1..], v);
      assert t == [t[0]] + t[1..];
    }
  }

  /**
   * Being ordered by score and stable fixes the result: two ordered
   * sequences that agree, score by score, on their entries and their order
   * are equal. Any stable descending sort therefore returns what
   * `SortByScore` returns.
   */
  lemma {:induction false} StableSortUnique(a: seq<Entry>, b: seq<Entry>)
    requires NonIncreasing(a) && NonIncreasing(b)
    requires forall v: nat :: WithScore(a, v) == WithScore(b, v)
    ensures a == b
    decreases |a|
  {
    if a == [] {
      if b != [] {
        WithScoreMember(b, b[0].score);
      }
    } else if b == [] {
      WithScoreMember(a, a[0].score);
    } else {
      var m, n := a[0].score, b[0].score;
      WithScoreMember(a, n);
      WithScoreMember(b, m);
      assert b[0] in WithScore(a, n);
      assert a[0] in WithScore(b, m);
      assert m == n;
      assert WithScore(a, m)[0] == a[0];
      assert WithScore(b, m)[0] == b[0];
      assert a[0] == b[0];
      forall v: nat
        ensures WithScore(a[1..], v) == WithScore(b[1..], v)
      {
        if v == m {
          assert WithScore(a, v) == [a[0]] + WithScore(a[1..], v);
          assert WithScore(b, v) == [b[0]] + WithScore(b[1..], v);
          assert WithScore(a[1..], v) == WithScore(a, v)[1..];
          assert WithScore(b[1..], v) == WithScore(b, v)[1..];
        } else {
          assert WithScore(a, v) == WithScore(a[1..], v);
          assert WithScore(b, v) == WithScore(b[1..], v);
        }
      }
      StableSortUnique(a[1..], b[1..]);
      assert a == [a[0]] + a[1..];
      assert b == [b[0]] + b[1..];
    }
  }

  /** Inserting adds exactly the inserted entry's text to the keys. */
  lemma {:induction false} InsertKeys(e: Entry, t: seq<Entry>)
    ensures forall x :: x in KeysOf(Insert(e, t)) <==> x == e.sentence || x in KeysOf(t)
    ensures Distinct(KeysOf(t)) && e.sentence !in KeysOf(t) ==> Distinct(KeysOf(Insert(e, t)))
    decreases |t|
  {
    if t == [] || t[0].score <= e.score {
      assert KeysOf([e] + t) == [e.sentence] + KeysOf(t);
      DistinctCons(e.sentence, KeysOf(t));
    } else {
      InsertKeys(e, t[1..]);
      assert KeysOf(t) == [t[0].sentence] + KeysOf(t[1..]);
      assert KeysOf(Insert(e, t)) == [t[0].sentence] + KeysOf(Insert(e, t[1..]));
      DistinctCons(t[0].sentence, KeysOf(t[1..]));
      DistinctCons(t[0].sentence, KeysOf(Insert(e, t[1..])));
    }
  }

  /**
   * Sorting keeps the set of sentence texts, and a table without repeated
   * texts stays without repeated texts.
   */
  lemma {:induction false} SortByScoreKeys(t: seq<Entry>)
    ensures forall x :: x in KeysOf(SortByScore(t)) <==> x in KeysOf(t)
    ensures Distinct(KeysOf(t)) ==> Distinct(KeysOf(SortByScore(t)))
    decreases |t|
  {
    if t != [] {
      SortByScoreKeys(t[1..]);
      InsertKeys(t[0], SortByScore(t[1..]));
      assert KeysOf(t) == [t[0].sentence] + KeysOf(t[1..]);
      DistinctCons(t[0].sentence, KeysOf(t[1..]));
    }
  }

  /**
   * When every entry has the same score, sorting leaves the table as it is:
   * ties keep their first-seen order.
   */
  lemma SortEqualScores(t: seq<Entry>, v: nat)
    requires forall e :: e in t ==> e.score == v
    ensures SortByScore(t) == t
  {
    forall v': nat
      ensures WithScore(SortByScore(t), v') == WithScore(t, v')
    {
      SortByScoreStable(t, v');
    }
    StableSortUnique(SortByScore(t), t);
  }

  /** With all scores equal, the chosen texts are the table's first texts. */
  lemma SelectEqualScores(t: seq<Entry>, v: nat, n: int)
    requires forall e :: e in t ==> e.score == v
    ensures Select(t, n) == KeysOf(t)[..SliceEnd(|t|, n)]
  {
    SortEqualScores(t, v);
    assert KeysOf(t[..SliceEnd(|t|, n)]) == KeysOf(t)[..SliceEnd(|t|, n)];
  }

  /** The end index that `slice(0, n)` uses on a list of `len` entries. */
  function SliceEnd(len: nat, n: int): (e: nat)
    ensures e <= len
  {
    if n >= 0 then (if n < len then n else len)
    else if len + n > 0 then len + n else 0
  }

  /** `slice(0, n)`; a negative `n` drops the last `-n` entries. */
  function Take(t: seq<Entry>, n: int): seq<Entry> {
    t[..SliceEnd(|t|, n)]
  }

  /** `sort(...).slice(0, n).map(entry => entry[0])`. */
  function Select(table: seq<Entry>, n: int): seq<string> {
    KeysOf(Take(SortByScore(table), n))
  }

  lemma {:induction false} WithScoreAppend(a: seq<Entry>, b: seq<Entry>, v: nat)
    ensures WithScore(a + b, v) == WithScore(a, v) + WithScore(b, v)
    decreases |a|
  {
    if a != [] {
      assert (a + b)[0] == a[0] && (a + b)[1..] == a[1..] + b;
      WithScoreAppend(a[1..], b, v);
    } else {
      assert a + b == b;
    }
  }

  /** Two entries of `WithScore(t, v)` come from positions of `t` in the same order. */
  lemma {:induction false} WithScoreSubsequence(t: seq<Entry>, v: nat, a: nat, b: nat) returns (i: nat, j: nat)
    requires a < b < |WithScore(t, v)|
    ensures i < j < |t| && t[i] == WithScore(t, v)[a] && t[j] == WithScore(t, v)[b]
    decreases |t|
  {
    var w, w' := WithScore(t, v), WithScore(t[1..], v);
    if t[0].score == v {
      assert w == [t[0]] + w';
      assert w[b] == w'[b - 1];
      if a == 0 {
        var k := WithScoreSource(t[1..], v, b - 1);
        i, j := 0, k + 1;
      } else {
        assert w[a] == w'[a - 1];
        var i', j' := WithScoreSubsequence(t[1..], v, a - 1, b - 1);
        i, j := i' + 1, j' + 1;
      }
    } else {
      assert w == w';
      var i', j' := WithScoreSubsequence(t[1..], v, a, b);
      i, j := i' + 1, j' + 1;
    }
  }

  /** Every entry of `WithScore(t, v)` sits somewhere in `t`. */
  lemma {:induction false} WithScoreSource(t: seq<Entry>, v: nat, a: nat) returns (i: nat)
    requires a < |WithScore(t, v)|
    ensures i < |t| && t[i] == WithScore(t, v)[a]
    decreases |t|
  {
    var w, w' := WithScore(t, v), WithScore(t[1..], v);
    if t[0].score == v {
      assert w == [t[0]] + w';
      if a == 0 {
        i := 0;
      } else {
        assert w[a] == w'[a - 1];
        var i' := WithScoreSource(t[1..], v, a - 1);
        i := i' + 1;
      }
    } else {
      assert w == w';
      var i' := WithScoreSource(t[1..], v, a);
      i := i' + 1;
    }
  }

  /**
   * `slice(0, n)` keeps the best: every entry kept scores at least every
   * entry of the table that is cut off.
   */
  lemma TakeBeatsRest(t: seq<Entry>, n: int)
    ensures var p := Take(SortByScore(t), n);
      forall e, f :: e in p && f in t && f !in p ==> e.score >= f.score
  {
    var r := SortByScore(t);
    assert |r| == |multiset(r)| == |multiset(t)| == |t|;
    var m := SliceEnd(|r|, n);
    var p := r[..m];
    forall e, f | e in p && f in t && f !in p
      ensures e.score >= f.score
    {
      var i :| 0 <= i < m && p[i] == e;
      assert f in multiset(r);
      var j :| 0 <= j < |r| && r[j] == f;
      assert m <= j;
      assert r[i] == e;
    }
  }

  /**
   * Ties go to the entries that come first in the table: for every score,
   * the kept entries with that score are the first entries of the table
   * with that score.
   */
  lemma TakeTiesFirst(t: seq<Entry>, n: int, v: nat)
    ensures var p := Take(SortByScore(t), n);
      |WithScore(p, v)| <= |WithScore(t, v)| && WithScore(p, v) == WithScore(t, v)[..|WithScore(p, v)|]
  {
    var r := SortByScore(t);
    var p := Take(r, n);
    assert r == p + r[|p|..];
    WithScoreAppend(p, r[|p|..], v);
    SortByScoreStable(t, v);
  }

  /**
   * Of two entries with the same score, one kept by `slice(0, n)` and one
   * cut off, the kept one comes first in the table.
   */
  lemma TieKeptFirst(t: seq<Entry>, n: int, e: Entry, f: Entry) returns (i: nat, j: nat)
    requires e in Take(SortByScore(t), n) && f in t && f !in Take(SortByScore(t), n)
    requires e.score == f.score
    ensures i < j < |t| && t[i] == e && t[j] == f
  {
    var v := e.score;
    var p := Take(SortByScore(t), n);
    TakeTiesFirst(t, n, v);
    WithScoreMember(p, v);
    WithScoreMember(t, v);
    var wp, wt := WithScore(p, v), WithScore(t, v);
    var a :| 0 <= a < |wp| && wp[a] == e;
    var b :| 0 <= b < |wt| && wt[b] == f;
    assert wt[a] == e;
    assert |wp| <= b;
    i, j := WithScoreSubsequence(t, v, a, b);
  }

  /**
   * A text chosen from a table beats a text of the table that is cut off:
   * its entry scores at least as much, and at equal score it comes first in
   * the table.
   */
  lemma KeptBeatsCut(t: seq<Entry>, n: int, x: string, y: string) returns (i: nat, j: nat)
    requires x in Select(t, n) && y in KeysOf(t) && y !in Select(t, n)
    ensures i < |t| && j < |t| && t[i].sentence == x && t[j].sentence == y
    ensures t[i].score >= t[j].score
    ensures t[i].score == t[j].score ==> i < j
  {
    TakeSorted(t, n);
    TakeBeatsRest(t, n);
    var p := Take(SortByScore(t), n);
    var c := KeysOf(p);
    var a :| 0 <= a < |c| && c[a] == x;
    var e := p[a];
    assert e in p && e in t;
    var k :| 0 <= k < |t| && KeysOf(t)[k] == y;
    var f := t[k];
    assert f.sentence == y;
    forall b | 0 <= b < |p|
      ensures p[b] != f
    {
      assert c[b] == p[b].sentence && c[b] != y;
    }
    if e.score == f.score {
      i, j := TieKeptFirst(t, n, e, f);
    } else {
      i :| 0 <= i < |t| && t[i] == e;
      j := k;
    }
  }

  /**
   * What `sort` and `slice(0, n)` keep of a table: `SliceEnd(|t|, n)`
   * entries, ordered by score, each taken from the table; `map` then takes
   * their texts.
   */
  lemma TakeSorted(t: seq<Entry>, n: int)
    ensures var p := Take(SortByScore(t), n);
      && Select(t, n) == KeysOf(p)
      && |p| == SliceEnd(|t|, n)
      && NonIncreasing(p)
      && (forall e :: e in p ==> e in t)
  {
    var r := SortByScore(t);
    assert |r| == |multiset(r)| == |multiset(t)| == |t|;
    var p := r[..SliceEnd(|r|, n)];
    forall e | e in p
      ensures e in t
    {
      assert e in multiset(r);
    }
  }

  /**
   * The texts chosen from a table whose texts are distinct: each is a text
   * of the table, none comes twice, and all of them are chosen when nothing
   * is cut off.
   */
  lemma SelectKeys(t: seq<Entry>, n: int)
    requires Distinct(KeysOf(t))
    ensures var c := Select(t, n);
      && Distinct(c)
      && (forall x :: x in c ==> x in KeysOf(t))
      && (|c| == |t| ==> forall x :: x in KeysOf(t) ==> x in c)
  {
    var r := SortByScore(t);
    SortByScoreKeys(t);
    assert |r| == |multiset(r)| == |multiset(t)| == |t|;
    var m := SliceEnd(|r|, n);
    var ks := KeysOf(r);
    assert Select(t, n) == ks[..m];
    if m == |t| {
      assert ks[..m] == ks;
    }
  }

  /** The summed length of the pieces. */
  function TotalLength(parts: seq<string>): nat {
    if parts == [] then 0 else TotalLength(parts[..|parts| - 1]) + |parts[|parts| - 1]|
  }

  /** `join(' ')`: the pieces separated by single spaces. */
  function Join(parts: seq<string>): string {
    if parts == [] then ""
    else if |parts| == 1 then parts[0]
    else Join(parts[..|parts| - 1]) + " " + parts[|parts| - 1]
  }

  /** Where piece `k` starts in the joined string. */
  function Offset(parts: seq<string>, k: nat): nat
    requires k <= |parts|
  {
    TotalLength(parts[..k]) + k
  }

  lemma {:induction false} JoinLength(parts: seq<string>)
    ensures parts == [] ==> Join(parts) == ""
    ensures parts != [] ==> |Join(parts)| == TotalLength(parts) + |parts| - 1
    decreases |parts|
  {
    if |parts| == 1 {
      assert parts[..0] == [];
    } else if |parts| > 1 {
      JoinLength(parts[..|parts| - 1]);
    }
  }

  lemma {:induction false} JoinPiece(parts: seq<string>, k: nat)
    requires k < |parts|
    ensures Offset(parts, k) + |parts[k]| <= |Join(parts)|
    ensures Join(parts)[Offset(parts, k)..Offset(parts, k) + |parts[k]|] == parts[k]
    ensures k > 0 ==> Join(parts)[Offset(parts, k) - 1] == ' '
    decreases |parts|
  {
    var n := |parts|;
    if n == 1 {
      assert parts[..0] == [];
    } else {
      var init := parts[..n - 1];
      var j := Join(parts);
      assert j == Join(init) + " " + parts[n - 1];
      if k == n - 1 {
        JoinLength(init);
        assert parts[..k] == init;
        assert Offset(parts, k) == |Join(init)| + 1;
      } else {
        JoinPiece(init, k);
        assert parts[..k] == init[..k];
        assert Offset(parts, k) == Offset(init, k);
        assert parts[k] == init[k];
      }
    }
  }

  /** The joined string starts with the first piece. */
  lemma JoinFirst(parts: seq<string>)
    requires parts != []
    ensures |parts[0]| <= |Join(parts)| && Join(parts)[..|parts[0]|] == parts[0]
  {
    JoinPiece(parts, 0);
    assert parts[..0] == [];
  }

  /**
   * `s` is the pieces laid end to end with exactly one space between
   * neighbours and none at either end: each piece sits verbatim at its
   * offset, a space precedes every piece but the first, and nothing else is
   * there.
   */
  ghost predicate IsLayout(s: string, parts: seq<string>) {
    && (parts == [] ==> s == "")
    && (parts != [] ==> |s| == TotalLength(parts) + |parts| - 1)
    && (forall k :: 0 <= k < |parts| ==>
          Offset(parts, k) + |parts[k]| <= |s| && s[Offset(parts, k)..Offset(parts, k) + |parts[k]|] == parts[k])
    && (forall k :: 0 < k < |parts| ==> Offset(parts, k) <= |s| && s[Offset(parts, k) - 1] == ' ')
  }

  /** `join(' ')` lays the pieces out with single spaces between them. */
  lemma JoinLayout(parts: seq<string>)
    ensures IsLayout(Join(parts), parts)
  {
    JoinLength(parts);
    forall k | 0 <= k < |parts|
      ensures Offset(parts, k) + |parts[k]| <= |Join(parts)|
      ensures Join(parts)[Offset(parts, k)..Offset(parts, k) + |parts[k]|] == parts[k]
      ensures k > 0 ==> Join(parts)[Offset(parts, k) - 1] == ' '
    {
      JoinPiece(parts, k);
    }
  }
}
