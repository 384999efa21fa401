# Trivia game scoring and high-score list, modelled in Dafny

This project models the scoring core of `trivia.py`, a terminal quiz game.
The game filters the question bank by category, draws five questions, and asks
each one with its answers shuffled. It re-prompts until the player types the
number of a listed answer and adds three points per correct answer. After the
round it updates the high-score list: a new user is appended, and an existing
user's row is replaced only by a strictly higher score. The list is then written
out as a stable copy sorted by descending score. Viewing the stats ranks a sorted
copy from position 1 and leaves the list unchanged.

Modules, one per component:

- `Questions` (questions.dfy): the question record and the category filter.
- `Answers` (answers.dfy): the parse result of a typed line, the 1-based choice
  check shared by the answer prompt and the category prompt, the re-prompt loop,
  grading, and fairness of grading under any shuffle.
- `Round` (round.dfy): one round, with its early exits and its scoring loop.
- `ScoreOrder` (score_order.dfy): the high-score row and the stable descending
  sort, as a function with lemmas.
- `Leaderboard` (leaderboard.dfy): the in-place list update (`HighScoreList`, a
  class whose `entries` field the update reassigns), its specification `Merge`
  with lemmas, and the stats ranking.
- `Wrappers` (wrappers.dfy): `Option`.

Randomness and input are parameters:
- `random.shuffle` is a `shown` list with the same multiset as the question's answers.
- `random.sample` is `picks`, five distinct positions in the category's questions.
- `int()` on a typed line is `Input`: `Numeral(n)` or `NotANumber`.
- The lines typed at one prompt are a finite sequence. When none of them is
  accepted, the result is `None` (or `InputEnded` for a round). This models
  input running out: `input()` at trivia.py:41 then raises `EOFError`, which
  nothing catches: the `input()` call sits outside the `try` at trivia.py:42-49,
  and its `except` catches only `ValueError`. So the program stops. The
  prompt loops forever only while lines keep arriving and none is valid.

Notes on the code:
- It never truncates the high-score list.
- It does not validate rows.
- It samples exactly five questions.
- A score may be any integer.

## Model

| member | source | states |
|---|---|---|
| `Questions.CategoryQuestions` | trivia.py:31-32 | the result is never longer than the bank, holds only questions of the chosen category, and keeps each such question as many times as the bank has it (multiset equality restricted to the category) |
| `Questions.CategoryQuestionsInOrder` | trivia.py:32 | the filtered questions keep the bank's relative order (the result is a subsequence of the bank) |
| `Questions.CategoryQuestionsMembership` | trivia.py:32 | a question is offered for a category iff it is in the bank with that category |
| `Answers.AcceptedIndex` | trivia.py:42-47 | a reply is accepted iff it parses to an integer n with 1 <= n <= number of answers; the selected 0-based position is then n - 1; non-numbers and out-of-range numbers are rejected |
| `Answers.CategoryChoice` | trivia.py:115-122 | the category prompt, written as in the code (shift to 0-based, then check 0 <= idx < len), accepts exactly the replies AcceptedIndex accepts and selects the category at that position |
| `Answers.FirstAccepted` | trivia.py:40-49 | the re-prompt loop stops at the first accepted reply: every earlier reply was rejected; no position means every reply was rejected |
| `Answers.AskQuestion` | trivia.py:34-55 | with `shown` a permutation of the answers, the result is absent iff no reply is accepted; otherwise it is the grade of the first accepted reply n: `shown[n-1] == correct` |
| `Answers.WinningIsOccurrences` | trivia.py:50 | the number of answer numbers among 1..m that Grade marks correct equals the number of copies of the correct answer among the first m presented answers |
| `Answers.ShuffleKeepsWinning` | trivia.py:36-50 | every shuffle leaves the same number of answer numbers that Grade marks correct as the unshuffled list |
| `Answers.CorrectIsReachable` | trivia.py:36-50 | when the correct answer is among the answers, some valid answer number is graded correct after any shuffle |
| `Round.Tally` | trivia.py:65-68 | the count of correct answers over the asked questions is at most the number of questions |
| `Round.TallyIffAllAnswered` | trivia.py:65-66 | a round has a count exactly when every one of its questions got an accepted reply |
| `Round.ScoreTurns` | trivia.py:63-71 | the scoring loop returns score == 3 * correct answers with correct answers <= questions asked, equal to the Tally; it ends with InputEnded exactly when some question is never answered |
| `Round.PlayRound` | trivia.py:57-71 | an empty category gives NoQuestions (the early `None`); 1 to 4 questions give SampleError (the sampler's ValueError); otherwise the round is scored over the five drawn questions with score == 3 * correct and correct <= 5 |
| `ScoreOrder.SortByScoreSortsAndPermutes` | trivia.py:79 | the sorted copy is a permutation of the list (same multiset, same length) with scores in non-increasing order |
| `ScoreOrder.SortByScoreStable` | trivia.py:92 | the sort is stable: for every score, the rows holding it appear in the same relative order as in the list |
| `Leaderboard.FirstEntryOf` | trivia.py:85-86 | finds the first row of the user: it holds the username and no earlier row does; absent only when no row does |
| `Leaderboard.MergeNewUser` | trivia.py:90-91 | a user with no row gets exactly one row `[username, score]` appended, and all earlier rows stay where they were |
| `Leaderboard.MergeExistingUser` | trivia.py:86-89 | when the user's first row holds a score >= the new score the list is unchanged (ties keep the existing row); when it is strictly lower that row is removed and the new row is the last one, every other row keeping its relative position (the rows before k stay in place, the rows after k move up by one) and the multiset being the old one minus that row plus the new row |
| `Leaderboard.MergeKeepsOthers` | trivia.py:84-91 | the rows of every other user are unchanged, in content and in order |
| `Leaderboard.MergeKeepsUniqueAndBest` | trivia.py:84-91 | if each username has at most one row before the update, the same holds after it, and the user's stored score is the maximum of the old and the new score (the new score when there was none) |
| `Leaderboard.MergeOrderIrrelevant` | trivia.py:84-91 | with one row per user, two submissions for one user leave the same stored score in either order |
| `Leaderboard.ExampleSession` | trivia.py:84-92 | alice 9, bob 12, then alice 5 on an empty list are written as bob 12 above alice 9: the lower resubmission is ignored |
| `Leaderboard.HighScoreList.constructor` | trivia.py:101 | the list starts as the rows read from the high-score file |
| `Leaderboard.HighScoreList.Update` | trivia.py:84-92 | the list becomes Merge of the old list, and the copy returned for writing is a sorted (non-increasing), stable permutation of the new list |
| `Leaderboard.HighScoreList.ViewStats` | trivia.py:73-82 | the ranking numbers positions 1..n and lists the rows as a permutation of the list, scores non-increasing, ties in list order, in the same order as the written copy; the method cannot modify the list (it has no modifies clause) |

## Left out

- Loading the questions (`load_questions`, JSON parsing) and the high-score file (`load_high_scores`, CSV reading, creating a missing file) is file I/O. The model starts from a question sequence and from the loaded rows (`HighScoreList.constructor`).
- Writing the sorted rows to the CSV file (trivia.py:93-95) is file I/O. `Update` returns the sequence that would be written.
- All printing, the menu loop of `main` and the username prompt are console I/O. Only the category-number check is modelled (`CategoryChoice`).
- The order of `list(set(...))` for the category list is whatever Python's set gives. The category list is a parameter.
- `random.shuffle` and `random.sample` are parameters: a permutation of the answers and five distinct positions.
- `int()` parsing of a typed line is abstracted to `Input`. Scores are integers, not the strings `str(score)` that the code stores and re-parses with `int()`.
- A round that ends with no score (`NoQuestions`, `SampleError`, `InputEnded`) is not fed to the update. In the code, an empty category returns `None` and `main` passes it to `update_high_scores`, which fails there. That composition is not modelled.
- The shuffle mutates the question's own answer list, so the shuffled order persists into later rounds. The model passes each presentation's order explicitly and does not keep that side effect.
- Rows with other than two fields, or with non-integer scores, are not modelled. Every row is a username and an integer score.
- `AskQuestion`: the model reads a finite list of lines and returns `None` when none of them is accepted; this stands for the uncaught `EOFError` that `input()` raises when input ends. An endless stream of invalid lines, on which the prompt loops forever, is not modelled.
