/** The order in which high scores are written and shown: by score, highest first,
    entries with equal scores kept in list order (Python's sorted with reverse=True
    is stable). */
module ScoreOrder {

  /** One high-score row: a username and that user's stored score. */
  datatype Entry = Entry(username: string, score: int)

  /** Scores never increase along `s`. */
  predicate Descending(s: seq<Entry>)
  {
    forall i, j :: 0 <= i < j < |s| ==> s[i].score >= s[j].score
  }

  /** The entries of `s` with score `k`, in the order they appear in `s`. */
  function WithScore(s: seq<Entry>, k: int): seq<Entry>
  {
    if s == [] then []
    else (if s[0].score == k then [s[0]] else []) + WithScore(s[1..], k)
  }

  /** Places `e` in the descending list `s` in front of the first entry whose score is
      not above its own, so that `e` precedes the entries of equal score. */
  function Insert(e: Entry, s: seq<Entry>): seq<Entry>
  {
    if s == [] || e.score >= s[0].score then [e] + s
    else [s[0]] + Insert(e, s[1..])
  }

  /** The sorted copy of the high-score list, highest score first. */
  function SortByScore(s: seq<Entry>): seq<Entry>
  {
    if s == [] then [] else Insert(s[0], SortByScore(s[1..]))
  }

  lemma {:induction false} WithScoreAppend(a: seq<Entry>, b: seq<Entry>, k: int)
    ensures WithScore(a + b, k) == WithScore(a, k) + WithScore(b, k)
  {
    if a != [] {
      assert (a + b)[0] == a[0] && (a + b)[1..] == a[1..] + b;
      WithScoreAppend(a[1..], b, k);
    } else {
      assert a + b == b;
    }
  }

  lemma {:induction false} InsertPermutes(e: Entry, s: seq<Entry>)
    ensures multiset(Insert(e, s)) == multiset(s) + multiset{e}
  {
    if s != [] && e.score < s[0].score {
      InsertPermutes(e, s[1..]);
      assert s == [s[0]] + s[1..];
    }
  }

  lemma DescendingTail(s: seq<Entry>)
    requires s != [] && Descending(s)
    ensures Descending(s[1..])
  {
    forall i, j | 0 <= i < j < |s[1..]| ensures s[1..][i].score >= s[1..][j].score {
      assert s[1..][i] == s[i + 1] && s[1..][j] == s[j + 1];
    }
  }

  /** WithScore of a one-row list. */
  lemma WithScoreSingle(e: Entry, k: int)
    ensures WithScore([e], k) == if e.score == k then [e] else []
  {
    assert WithScore([e], k) == (if e.score == k then [e] else []) + WithScore([], k);
  }

  /** Inserting into a descending list keeps it descending; the new head is `e` or
      the old head. */
  lemma {:induction false} InsertDescending(e: Entry, s: seq<Entry>)
    requires Descending(s)
    ensures Descending(Insert(e, s))
    ensures Insert(e, s) != [] && (Insert(e, s)[0] == e || (s != [] && Insert(e, s)[0] == s[0]))
  {
    if s != [] && e.score < s[0].score {
      var t := Insert(e, s[1..]);
      DescendingTail(s);
      InsertDescending(e, s[1..]);
      assert s[0].score >= t[0].score;
      var r := [s[0]] + t;
      forall i, j | 0 <= i < j < |r| ensures r[i].score >= r[j].score {
        assert r[j] == t[j - 1];
        if i > 0 {
          assert r[i] == t[i - 1];
        } else if j > 1 {
          assert t[0].score >= t[j - 1].score;
        }
      }
    }
  }

  /** Inserting `e` adds it in front of the entries of its own score and leaves the
      entries of every other score as they were: it only passes entries whose score is
      above its own. */
  lemma {:induction false} InsertStable(e: Entry, s: seq<Entry>, k: int)
    ensures WithScore(Insert(e, s), k) == (if e.score == k then [e] else []) + WithScore(s, k)
  {
    WithScoreSingle(e, k);
    if s == [] || e.score >= s[0].score {
      WithScoreAppend([e], s, k);
    } else {
      InsertStable(e, s[1..], k);
      WithScoreAppend([s[0]], Insert(e, s[1..]), k);
      WithScoreAppend([s[0]], s[1..], k);
      assert [s[0]] + s[1..] == s;
      WithScoreSingle(s[0], k);
    }
  }

  /** The sorted copy is a permutation of the list, with scores in non-increasing order. */
  lemma {:induction false} SortByScoreSortsAndPermutes(s: seq<Entry>)
    ensures Descending(SortByScore(s))
    ensures multiset(SortByScore(s)) == multiset(s)
  {
    if s != [] {
      SortByScoreSortsAndPermutes(s[1..]);
      InsertDescending(s[0], SortByScore(s[1..]));
      InsertPermutes(s[0], SortByScore(s[1..]));
      assert s == [s[0]] + s[1..];
    }
  }

  /** The sort is stable: for every score, the entries holding it appear in the sorted
      copy in the same order as in the list. */
  lemma {:induction false} SortByScoreStable(s: seq<Entry>, k: int)
    ensures WithScore(SortByScore(s), k) == WithScore(s, k)
  {
    if s != [] {
      SortByScoreStable(s[1..], k);
      InsertStable(s[0], SortByScore(s[1..]), k);
      WithScoreAppend([s[0]], s[1..], k);
      assert [s[0]] + s[1..] == s;
      WithScoreSingle(s[0], k);
    }
  }

  /** What the written and displayed copy promises: sorted by score, highest first, a
      permutation of the list, and stable. */
  lemma SortByScoreCorrect(s: seq<Entry>)
    ensures Descending(SortByScore(s)) && multiset(SortByScore(s)) == multiset(s)
    ensures forall k :: WithScore(SortByScore(s), k) == WithScore(s, k)
  {
    SortByScoreSortsAndPermutes(s);
    forall k ensures WithScore(SortByScore(s), k) == WithScore(s, k) {
      SortByScoreStable(s, k);
    }
  }
}
