/** The high-score list (update_high_scores and view_stats): one row per user in
    practice, a new user's row appended, an existing user's row replaced only by a
    strictly higher score, and a sorted copy for writing and for display. */
module Leaderboard {
  import opened Wrappers
  import opened ScoreOrder

  /** No username has two rows. */
  predicate UniqueUsers(hs: seq<Entry>)
  {
    forall i, j :: 0 <= i < j < |hs| ==> hs[i].username != hs[j].username
  }

  /** The position of the first row of `username`, if it has one. */
  function FirstEntryOf(hs: seq<Entry>, username: string): (r: Option<nat>)
    ensures r.Some? ==> r.value < |hs| && hs[r.value].username == username
    ensures r.Some? ==> forall i :: 0 <= i < r.value ==> hs[i].username != username
    ensures r.None? ==> forall i :: 0 <= i < |hs| ==> hs[i].username != username
  {
    if hs == [] then None
    else if hs[0].username == username then Some(0)
    else match FirstEntryOf(hs[1..], username)
      case None => None
      case Some(j) => Some(j + 1)
  }

  /** The score the list holds for `username`: that of its first row. */
  function ScoreOf(hs: seq<Entry>, username: string): Option<int>
  {
    match FirstEntryOf(hs, username)
    case None => None
    case Some(k) => Some(hs[k].score)
  }

  /** The list after update_high_scores: a user without a row gets one appended; a
      user whose first row holds a lower score loses that row and gets the new one
      appended; otherwise the list is as it was. */
  function Merge(hs: seq<Entry>, username: string, score: int): seq<Entry>
  {
    match FirstEntryOf(hs, username)
    case None => hs + [Entry(username, score)]
    case Some(k) =>
      if hs[k].score < score then hs[..k] + hs[k + 1..] + [Entry(username, score)] else hs
  }

  /** The rows of every user other than `username`, in list order. */
  function Others(hs: seq<Entry>, username: string): seq<Entry>
  {
    if hs == [] then []
    else (if hs[0].username == username then [] else [hs[0]]) + Others(hs[1..], username)
  }

  lemma {:induction false} OthersAppend(a: seq<Entry>, b: seq<Entry>, username: string)
    ensures Others(a + b, username) == Others(a, username) + Others(b, username)
  {
    if a == [] {
      assert a + b == b;
    } else {
      assert (a + b)[1..] == a[1..] + b;
      OthersAppend(a[1..], b, username);
    }
  }

  /** A user with no row gets exactly one row, `[username, score]`, at the end, and
      every other row stays where it was. */
  lemma MergeNewUser(hs: seq<Entry>, username: string, score: int)
    requires forall e :: e in hs ==> e.username != username
    ensures |Merge(hs, username, score)| == |hs| + 1
    ensures Merge(hs, username, score)[..|hs|] == hs
    ensures Merge(hs, username, score)[|hs|] == Entry(username, score)
  {
    assert FirstEntryOf(hs, username).None?;
  }

  /** Any position that holds the user's row and has none of its rows before it is the
      one FirstEntryOf finds. */
  lemma FirstEntryIsUnique(hs: seq<Entry>, username: string, k: nat)
    requires k < |hs| && hs[k].username == username
    requires forall i :: 0 <= i < k ==> hs[i].username != username
    ensures FirstEntryOf(hs, username) == Some(k)
  {
    var f := FirstEntryOf(hs, username);
    assert f.Some?;
    assert !(f.value < k);
    assert !(k < f.value);
  }

  /** For a user with a row at `k` (the first one): a strictly higher score removes
      that row and appends the new one; an equal or lower score changes nothing. */
  lemma MergeExistingUser(hs: seq<Entry>, username: string, score: int, k: nat)
    requires k < |hs| && hs[k].username == username
    requires forall i :: 0 <= i < k ==> hs[i].username != username
    ensures hs[k].score >= score ==> Merge(hs, username, score) == hs
    ensures hs[k].score < score ==>
      var r := Merge(hs, username, score);
      |r| == |hs| && r[|r| - 1] == Entry(username, score)
      && multiset(r) == multiset(hs) - multiset{hs[k]} + multiset{Entry(username, score)}
    ensures hs[k].score < score ==>
      forall i :: 0 <= i < |hs| - 1 ==> Merge(hs, username, score)[i] == hs[if i < k then i else i + 1]
  {
    FirstEntryIsUnique(hs, username, k);
    if hs[k].score < score {
      var e := Entry(username, score);
      var rest := hs[..k] + hs[k + 1..];
      assert Merge(hs, username, score) == rest + [e];
      calc {
        multiset(hs);
        { assert hs == hs[..k] + [hs[k]] + hs[k + 1..]; }
        multiset(hs[..k]) + multiset{hs[k]} + multiset(hs[k + 1..]);
      }
      assert multiset(rest + [e]) == multiset(hs[..k]) + multiset(hs[k + 1..]) + multiset{e};
      forall i | 0 <= i < |hs| - 1 ensures (rest + [e])[i] == hs[if i < k then i else i + 1] {
        assert (rest + [e])[i] == rest[i];
      }
    }
  }

  /** The rows of all other users are untouched, in content and in order. */
  lemma MergeKeepsOthers(hs: seq<Entry>, username: string, score: int)
    ensures Others(Merge(hs, username, score), username) == Others(hs, username)
  {
    var e := Entry(username, score);
    assert Others([e], username) == [] by {
      assert Others([e], username) == [] + Others([], username);
    }
    match FirstEntryOf(hs, username)
    case None =>
      OthersAppend(hs, [e], username);
    case Some(k) =>
      if hs[k].score < score {
        assert hs == hs[..k] + ([hs[k]] + hs[k + 1..]);
        OthersAppend(hs[..k], [hs[k]] + hs[k + 1..], username);
        OthersAppend([hs[k]], hs[k + 1..], username);
        assert Others([hs[k]], username) == [] + Others([], username);
        OthersAppend(hs[..k] + hs[k + 1..], [e], username);
        OthersAppend(hs[..k], hs[k + 1..], username);
      }
  }

  /** The best score kept for `username` after a new score: the new one when the user
      had none, otherwise the higher of the two. */
  function Best(previous: Option<int>, score: int): int
  {
    match previous
    case None => score
    case Some(p) => if p < score then score else p
  }

  /** Appending a row for a user with no row keeps one row per user, and the new
      row is that user's first. */
  lemma AppendNewUser(hs: seq<Entry>, e: Entry)
    requires UniqueUsers(hs)
    requires forall i :: 0 <= i < |hs| ==> hs[i].username != e.username
    ensures UniqueUsers(hs + [e])
    ensures FirstEntryOf(hs + [e], e.username) == Some(|hs|)
  {
    FirstEntryIsUnique(hs + [e], e.username, |hs|);
  }

  /** Removing the row at `k` from a list with one row per user leaves one row per
      user and no row of that user. */
  lemma RemoveOnlyRow(hs: seq<Entry>, k: nat, rest: seq<Entry>)
    requires UniqueUsers(hs) && k < |hs| && rest == hs[..k] + hs[k + 1..]
    ensures UniqueUsers(rest)
    ensures forall i :: 0 <= i < |rest| ==> rest[i].username != hs[k].username
  {
    assert forall i :: 0 <= i < |rest| ==> rest[i] == hs[if i < k then i else i + 1];
  }

  /** With one row per user before the update there is one row per user after it,
      and the user's stored score is the maximum of the old and new scores. */
  lemma MergeKeepsUniqueAndBest(hs: seq<Entry>, username: string, score: int)
    requires UniqueUsers(hs)
    ensures UniqueUsers(Merge(hs, username, score))
    ensures ScoreOf(Merge(hs, username, score), username) == Some(Best(ScoreOf(hs, username), score))
  {
    var e := Entry(username, score);
    match FirstEntryOf(hs, username)
    case None =>
      AppendNewUser(hs, e);
    case Some(k) =>
      if hs[k].score < score {
        RemoveOnlyRow(hs, k, hs[..k] + hs[k + 1..]);
        AppendNewUser(hs[..k] + hs[k + 1..], e);
      }
  }

  /** Two submissions for one user leave the same stored score in either order. */
  lemma {:induction false} MergeOrderIrrelevant(hs: seq<Entry>, username: string, a: int, b: int)
    requires UniqueUsers(hs)
    ensures ScoreOf(Merge(Merge(hs, username, a), username, b), username)
         == ScoreOf(Merge(Merge(hs, username, b), username, a), username)
  {
    MergeKeepsUniqueAndBest(hs, username, a);
    MergeKeepsUniqueAndBest(Merge(hs, username, a), username, b);
    MergeKeepsUniqueAndBest(hs, username, b);
    MergeKeepsUniqueAndBest(Merge(hs, username, b), username, a);
  }

  /** A session on an empty list: alice scores 9, bob 12, then alice 5. Alice's lower
      second score is ignored and the written list is bob above alice. */
  lemma ExampleSession()
    ensures SortByScore(Merge(Merge(Merge([], "alice", 9), "bob", 12), "alice", 5))
         == [Entry("bob", 12), Entry("alice", 9)]
  {
    var h1 := Merge([], "alice", 9);
    assert h1 == [Entry("alice", 9)];
    var h2 := Merge(h1, "bob", 12);
    assert h2 == [Entry("alice", 9), Entry("bob", 12)];
    MergeExistingUser(h2, "alice", 5, 0);
  }

  /** One printed line of view_stats: its 1-based position and the row shown there. */
  datatype RankLine = RankLine(position: nat, entry: Entry)

  /** The rows of the ranking, in ranking order. */
  function RankedEntries(lines: seq<RankLine>): seq<Entry>
  {
    seq(|lines|, i requires 0 <= i < |lines| => lines[i].entry)
  }

  /** The in-memory high-score list, shared by the menu loop and updated in place. */
  class HighScoreList {
    var entries: seq<Entry>

    /** The list as read from the high-score file. */
    constructor (loaded: seq<Entry>)
      ensures entries == loaded
    {
      entries := loaded;
    }

    /** update_high_scores: updates the list in place and returns the sorted copy
        that is written to the high-score file. */
    method Update(username: string, score: int) returns (written: seq<Entry>)
      modifies this
      ensures entries == Merge(old(entries), username, score)
      ensures written == SortByScore(entries)
      ensures Descending(written) && multiset(written) == multiset(entries)
      ensures forall k :: WithScore(written, k) == WithScore(entries, k)
    {
      var i := 0;
      while i < |entries| && entries[i].username != username
        invariant 0 <= i <= |entries|
        invariant forall j :: 0 <= j < i ==> entries[j].username != username
      {
        i := i + 1;
      }
      if i < |entries| {
        FirstEntryIsUnique(entries, username, i);
        if entries[i].score < score {
          entries := entries[..i] + entries[i + 1..];
          entries := entries + [Entry(username, score)];
        }
      } else {
        entries := entries + [Entry(username, score)];
      }
      written := SortByScore(entries);
      SortByScoreCorrect(entries);
    }

    /** view_stats: the ranking of the list, numbered from 1, highest score first,
        ties in list order; the list itself is left as it is. */
    method ViewStats() returns (lines: seq<RankLine>)
      ensures forall i :: 0 <= i < |lines| ==> lines[i].position == i + 1
      ensures multiset(RankedEntries(lines)) == multiset(entries)
      ensures Descending(RankedEntries(lines))
      ensures forall k :: WithScore(RankedEntries(lines), k) == WithScore(entries, k)
      ensures RankedEntries(lines) == SortByScore(entries)
    {
      if entries == [] {
        return [];
      }
      var sorted := SortByScore(entries);
      lines := [];
      for i := 0 to |sorted|
        invariant |lines| == i
        invariant forall j :: 0 <= j < i ==> lines[j] == RankLine(j + 1, sorted[j])
      {
        lines := lines + [RankLine(i + 1, sorted[i])];
      }
      assert RankedEntries(lines) == sorted;
      SortByScoreCorrect(entries);
    }
  }
}
