/** A multiple-choice question: construction checks and the answer test. */
module Questions {

  import opened Wrappers

  /** `correctIndex` is 0-based. */
  datatype Question = Question(category: string, text: string, options: seq<string>, correctIndex: int)

  datatype QuestionError = TooFewOptions | IndexOutOfBounds

  /** What the constructor guarantees. */
  predicate IsWellFormed(q: Question) {
    |q.options| >= 2 && 0 <= q.correctIndex < |q.options|
  }

  /** The constructor: at least two options, then a correct index naming
      one of them. */
  function NewQuestion(category: string, text: string, options: seq<string>, correctIndex: int)
    : (r: Result<Question, QuestionError>)
    ensures |options| < 2 ==> r == Failure(TooFewOptions)
    ensures |options| >= 2 && !(0 <= correctIndex < |options|) ==> r == Failure(IndexOutOfBounds)
    ensures r.Success? <==> |options| >= 2 && 0 <= correctIndex < |options|
    ensures r.Success? ==> r.value == Question(category, text, options, correctIndex) && IsWellFormed(r.value)
  {
    if |options| < 2 then Failure(TooFewOptions)
    else if correctIndex < 0 || correctIndex >= |options| then Failure(IndexOutOfBounds)
    else Success(Question(category, text, options, correctIndex))
  }

  /** `isCorrect`. */
  predicate IsCorrect(q: Question, choice: int): (b: bool)
    ensures IsWellFormed(q) && b ==> 0 <= choice < |q.options|
  {
    choice == q.correctIndex
  }

  /** On a well-formed question exactly one option index is correct, and a
      choice outside the options is always wrong. */
  lemma ExactlyOneCorrect(q: Question, c: int, d: int)
    requires IsWellFormed(q)
    ensures exists k :: 0 <= k < |q.options| && IsCorrect(q, k)
    ensures IsCorrect(q, c) && IsCorrect(q, d) ==> c == d
    ensures !(0 <= c < |q.options|) ==> !IsCorrect(q, c)
  {
    assert IsCorrect(q, q.correctIndex);
  }
}
