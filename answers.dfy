/** Reading a numbered choice from the player and grading an answer (ask_question,
    and the category-number check of the main menu). */
module Answers {
  import opened Wrappers
  import opened Questions

  /** What `int()` makes of one line typed at a numeric prompt: an integer, or a
      ValueError. */
  datatype Input = Numeral(value: int) | NotANumber

  /** The 0-based position picked by `reply` at a prompt listing `count` choices
      numbered from 1, or None when the reply is rejected and the prompt repeats. */
  function AcceptedIndex(reply: Input, count: nat): (r: Option<nat>)
    ensures r.Some? <==> reply.Numeral? && 1 <= reply.value <= count
    ensures r.Some? ==> r.value < count && r.value + 1 == reply.value
  {
    match reply
    case NotANumber => None
    case Numeral(n) => if n < 1 || n > count then None else Some(n - 1)
  }

  /** The main menu's category pick: the number is shifted to 0-based first and then
      checked against the category list. It accepts and selects exactly as
      AcceptedIndex does. */
  function CategoryChoice(categories: seq<string>, reply: Input): (r: Option<string>)
    ensures r.Some? <==> AcceptedIndex(reply, |categories|).Some?
    ensures r.Some? ==> r.value == categories[AcceptedIndex(reply, |categories|).value]
  {
    match reply
    case NotANumber => None
    case Numeral(n) =>
      var choice := n - 1;
      if choice < 0 || choice >= |categories| then None else Some(categories[choice])
  }

  /** Whether answer number `n` of the presented list `shown` is the correct answer. */
  function Grade(q: Question, shown: seq<string>, n: int): bool
    requires 1 <= n <= |shown|
  {
    shown[n - 1] == q.correct
  }

  /** The position in `replies` of the first reply the prompt accepts, if any. */
  function FirstAccepted(replies: seq<Input>, count: nat): (r: Option<nat>)
    ensures r.Some? ==> r.value < |replies| && AcceptedIndex(replies[r.value], count).Some?
    ensures r.Some? ==> forall i :: 0 <= i < r.value ==> AcceptedIndex(replies[i], count).None?
    ensures r.None? ==> forall i :: 0 <= i < |replies| ==> AcceptedIndex(replies[i], count).None?
  {
    if replies == [] then None
    else if AcceptedIndex(replies[0], count).Some? then Some(0)
    else match FirstAccepted(replies[1..], count)
      case None => None
      case Some(j) => Some(j + 1)
  }

  /** The grade of one presentation of `q` with its answers in the order `shown` and
      `replies` typed at the prompt: that of the first accepted reply, or None when
      no reply is accepted. */
  function Ask(q: Question, shown: seq<string>, replies: seq<Input>): Option<bool>
  {
    match FirstAccepted(replies, |shown|)
    case None => None
    case Some(j) => Some(Grade(q, shown, replies[j].value))
  }

  /** ask_question: `shown` is the answer list after the shuffle; the prompt repeats
      until a reply names an answer by its number, and that answer is graded. */
  method AskQuestion(q: Question, shown: seq<string>, replies: seq<Input>) returns (correct: Option<bool>)
    requires multiset(shown) == multiset(q.answers)
    ensures correct.None? <==> forall i :: 0 <= i < |replies| ==> AcceptedIndex(replies[i], |shown|).None?
    ensures correct.Some? ==>
      exists j :: 0 <= j < |replies| && replies[j].Numeral? && 1 <= replies[j].value <= |shown|
        && (forall i :: 0 <= i < j ==> AcceptedIndex(replies[i], |shown|).None?)
        && correct.value == (shown[replies[j].value - 1] == q.correct)
    ensures correct == Ask(q, shown, replies)
  {
    var i := 0;
    while i < |replies|
      invariant 0 <= i <= |replies|
      invariant forall k :: 0 <= k < i ==> AcceptedIndex(replies[k], |shown|).None?
    {
      var reply := replies[i];
      if reply.Numeral? && !(reply.value < 1 || reply.value > |shown|) {
        correct := Some(shown[reply.value - 1] == q.correct);
        return;
      }
      i := i + 1;
    }
    correct := None;
  }

  /** How many of the answer numbers 1..m of the presented list Grade marks correct. */
  function Winning(q: Question, shown: seq<string>, m: nat): nat
    requires m <= |shown|
  {
    if m == 0 then 0
    else Winning(q, shown, m - 1) + if Grade(q, shown, m) then 1 else 0
  }

  /** The number of answer numbers among 1..m graded correct is the number of copies of
      the correct answer among the first m presented answers. */
  lemma {:induction false} WinningIsOccurrences(q: Question, shown: seq<string>, m: nat)
    requires m <= |shown|
    ensures Winning(q, shown, m) == multiset(shown[..m])[q.correct]
  {
    if m > 0 {
      assert shown[..m] == shown[..m - 1] + [shown[m - 1]];
      WinningIsOccurrences(q, shown, m - 1);
    }
  }

  /** Shuffling does not change how many answer numbers Grade marks correct: grading
      is fair under every order the shuffle can produce. */
  lemma ShuffleKeepsWinning(q: Question, shown: seq<string>)
    requires multiset(shown) == multiset(q.answers)
    ensures |shown| == |q.answers|
    ensures Winning(q, shown, |shown|) == Winning(q, q.answers, |q.answers|)
  {
    assert |shown| == |multiset(shown)| == |multiset(q.answers)| == |q.answers|;
    WinningIsOccurrences(q, shown, |shown|);
    WinningIsOccurrences(q, q.answers, |q.answers|);
    assert shown[..|shown|] == shown;
    assert q.answers[..|q.answers|] == q.answers;
  }

  /** When the correct answer is among the question's answers, some answer number is
      graded correct in every shuffled order. */
  lemma {:induction false} CorrectIsReachable(q: Question, shown: seq<string>)
    requires multiset(shown) == multiset(q.answers)
    requires q.correct in q.answers
    ensures exists n :: 1 <= n <= |shown| && Grade(q, shown, n)
  {
    assert q.correct in multiset(q.answers);
    assert q.correct in shown;
    var k :| 0 <= k < |shown| && shown[k] == q.correct;
    assert Grade(q, shown, k + 1);
  }
}
