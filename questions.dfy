/** The question bank and its category filter (get_category_questions). */
module Questions {

  /** One record of the question bank. `answers` is the list the player picks from;
      `correct` is compared with the picked answer by string equality. */
  datatype Question = Question(text: string, category: string, answers: seq<string>, correct: string)

  /** `a` can be obtained from `b` by deleting elements, keeping the order of the rest. */
  predicate IsSubsequence<T(==)>(a: seq<T>, b: seq<T>)
  {
    if a == [] then true
    else if b == [] then false
    else if a[0] == b[0] then IsSubsequence(a[1..], b[1..])
    else IsSubsequence(a, b[1..])
  }

  /** The questions of `bank` whose category equals `category`. Each question of that
      category is kept as often as it occurs in the bank, and no other question is kept. */
  function CategoryQuestions(bank: seq<Question>, category: string): (r: seq<Question>)
    ensures |r| <= |bank|
    ensures forall q :: q in r ==> q.category == category
    ensures forall q :: multiset(r)[q] == if q.category == category then multiset(bank)[q] else 0
  {
    if bank == [] then []
    else
      assert bank == [bank[0]] + bank[1..];
      var rest := CategoryQuestions(bank[1..], category);
      if bank[0].category == category then [bank[0]] + rest else rest
  }

  /** The filter keeps the bank's relative order. */
  lemma {:induction false} CategoryQuestionsInOrder(bank: seq<Question>, category: string)
    ensures IsSubsequence(CategoryQuestions(bank, category), bank)
  {
    if bank != [] {
      var rest := CategoryQuestions(bank[1..], category);
      CategoryQuestionsInOrder(bank[1..], category);
      if bank[0].category == category {
        assert ([bank[0]] + rest)[1..] == rest;
      } else if rest != [] {
        assert rest[0] in rest;
        assert rest[0] != bank[0];
      }
    }
  }

  /** A question is offered for a category exactly when it is in the bank with that category. */
  lemma CategoryQuestionsMembership(bank: seq<Question>, category: string, q: Question)
    ensures q in CategoryQuestions(bank, category) <==> q in bank && q.category == category
  {
    var r := CategoryQuestions(bank, category);
    assert q in r <==> multiset(r)[q] > 0;
    assert q in bank <==> multiset(bank)[q] > 0;
  }
}
