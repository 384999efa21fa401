/** One round of play (play_round): five questions sampled from a category, each
    asked in turn, three points per correct answer. */
module Round {
  import opened Wrappers
  import opened Questions
  import opened Answers

  /** Questions drawn per round: the sample size passed to the sampler. */
  const RoundSize: nat := 5
  /** Points added to the score per correct answer. */
  const PointsPerCorrect: nat := 3

  /** How a round ends. NoQuestions is the early return (None) for an empty category;
      SampleError is the ValueError of drawing five questions from fewer; InputEnded
      stands for the input stream ending before a question got an accepted reply. */
  datatype Outcome = NoQuestions | SampleError | InputEnded | Scored(score: nat, correct: nat)

  /** One asked question: the question, its answers as presented after the shuffle,
      and the lines the player typed at its prompt. */
  datatype Turn = Turn(question: Question, shown: seq<string>, replies: seq<Input>)

  /** `picks` is a draw without replacement of RoundSize positions of a pool of `n`. */
  predicate IsSample(picks: seq<nat>, n: nat)
  {
    |picks| == RoundSize
    && (forall i :: 0 <= i < |picks| ==> picks[i] < n)
    && (forall i, j :: 0 <= i < j < |picks| ==> picks[i] != picks[j])
  }

  /** The number of correct answers over `turns`, or None when some turn is never
      answered. */
  function Tally(turns: seq<Turn>): (r: Option<nat>)
    ensures r.Some? ==> r.value <= |turns|
  {
    if turns == [] then Some(0)
    else
      match Ask(turns[0].question, turns[0].shown, turns[0].replies)
      case None => None
      case Some(ok) =>
        match Tally(turns[1..])
        case None => None
        case Some(c) => Some(c + if ok then 1 else 0)
  }

  /** A round has a tally exactly when every one of its questions got an accepted
      reply. */
  lemma {:induction false} TallyIffAllAnswered(turns: seq<Turn>)
    ensures Tally(turns).Some? <==>
      forall i :: 0 <= i < |turns| ==> Ask(turns[i].question, turns[i].shown, turns[i].replies).Some?
  {
    if turns != [] {
      TallyIffAllAnswered(turns[1..]);
      assert forall i :: 1 <= i < |turns| ==> turns[1..][i - 1] == turns[i];
    }
  }

  /** `c` more correct answers on top of a tally. */
  function Plus(c: nat, t: Option<nat>): Option<nat>
  {
    match t
    case None => None
    case Some(k) => Some(c + k)
  }

  /** One step of the scoring loop: if the tally of the whole round is `c` plus the
      tally from turn `i` on, then asking turn `i` either leaves the round without a
      tally or moves its result into the count. */
  lemma {:induction false} TallyStep(turns: seq<Turn>, i: nat, c: nat, ok: Option<bool>)
    requires i < |turns|
    requires ok == Ask(turns[i].question, turns[i].shown, turns[i].replies)
    requires Tally(turns) == Plus(c, Tally(turns[i..]))
    ensures ok.None? ==> Tally(turns).None?
    ensures ok.Some? ==> Tally(turns) == Plus(c + (if ok.value then 1 else 0), Tally(turns[i + 1..]))
  {
    assert turns[i..][1..] == turns[i + 1..];
  }

  /** The turns of a round: question `picks[i]` of the category's questions, shown in
      the order `shuffles[i]`, answered by `replies[i]`. */
  function Turns(pool: seq<Question>, picks: seq<nat>, shuffles: seq<seq<string>>,
                 replies: seq<seq<Input>>): seq<Turn>
    requires IsSample(picks, |pool|) && |shuffles| == RoundSize && |replies| == RoundSize
  {
    seq(RoundSize, i requires 0 <= i < RoundSize => Turn(pool[picks[i]], shuffles[i], replies[i]))
  }

  /** What the sampler and the shuffles supply when a round can be drawn. */
  predicate WellDrawn(pool: seq<Question>, picks: seq<nat>, shuffles: seq<seq<string>>,
                      replies: seq<seq<Input>>)
  {
    IsSample(picks, |pool|) && |shuffles| == RoundSize && |replies| == RoundSize
    && forall i :: 0 <= i < RoundSize ==> multiset(shuffles[i]) == multiset(pool[picks[i]].answers)
  }

  /** The scoring loop of play_round over the drawn `turns`: each question is asked in
      turn, and every correct answer adds one to the count and PointsPerCorrect to the
      score. */
  method ScoreTurns(turns: seq<Turn>) returns (r: Outcome)
    requires forall i :: 0 <= i < |turns| ==> multiset(turns[i].shown) == multiset(turns[i].question.answers)
    ensures r.InputEnded? || r.Scored?
    ensures r == InputEnded <==> Tally(turns).None?
    ensures r.Scored? ==> Tally(turns) == Some(r.correct)
    ensures r.Scored? ==> r.score == PointsPerCorrect * r.correct && r.correct <= |turns|
  {
    var score, correctAnswers := 0, 0;
    var i := 0;
    while i < |turns|
      invariant 0 <= i <= |turns|
      invariant Tally(turns) == Plus(correctAnswers, Tally(turns[i..]))
      invariant score == PointsPerCorrect * correctAnswers
    {
      var t := turns[i];
      var ok := AskQuestion(t.question, t.shown, t.replies);
      TallyStep(turns, i, correctAnswers, ok);
      if ok.None? {
        return InputEnded;
      }
      if ok.value {
        correctAnswers := correctAnswers + 1;
        score := score + PointsPerCorrect;
      }
      i := i + 1;
    }
    assert turns[i..] == [];
    return Scored(score, correctAnswers);
  }

  /** play_round: `picks` is the sampler's draw from the category's questions,
      `shuffles[i]` the shuffled answers of the i-th drawn question and `replies[i]`
      the lines typed at its prompt. */
  method PlayRound(bank: seq<Question>, category: string, picks: seq<nat>,
                   shuffles: seq<seq<string>>, replies: seq<seq<Input>>) returns (r: Outcome)
    requires var pool := CategoryQuestions(bank, category);
      |pool| >= RoundSize ==> WellDrawn(pool, picks, shuffles, replies)
    ensures var pool := CategoryQuestions(bank, category);
      (r == NoQuestions <==> |pool| == 0)
      && (r == SampleError <==> 0 < |pool| < RoundSize)
      && (|pool| >= RoundSize ==>
            (r == InputEnded <==> Tally(Turns(pool, picks, shuffles, replies)).None?)
            && (r.Scored? ==> Tally(Turns(pool, picks, shuffles, replies)) == Some(r.correct)))
    ensures r.Scored? ==> r.score == PointsPerCorrect * r.correct && r.correct <= RoundSize
  {
    var pool := CategoryQuestions(bank, category);
    if |pool| == 0 {
      return NoQuestions;
    }
    if |pool| < RoundSize {
      return SampleError;
    }
    var turns := Turns(pool, picks, shuffles, replies);
    r := ScoreTurns(turns);
  }
}
