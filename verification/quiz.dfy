/** The scoring helpers of the quiz CLI and the answer loop of one
    play-through. */
module QuizScoring {

  import opened Wrappers
  import opened Percent
  import opened Questions

  /** The number of correct answers, counted from the front as the answer
      loop does. */
  function CountCorrect(answers: seq<bool>): (n: nat)
    ensures n <= |answers|
    ensures n == 0 <==> forall i :: 0 <= i < |answers| ==> !answers[i]
    ensures n == |answers| <==> forall i :: 0 <= i < |answers| ==> answers[i]
  {
    if |answers| == 0 then 0
    else
      var init := answers[..|answers| - 1];
      assert forall i :: 0 <= i < |init| ==> init[i] == answers[i];
      CountCorrect(init) + (if answers[|answers| - 1] then 1 else 0)
  }

  lemma CountCorrectSnoc(answers: seq<bool>, b: bool)
    ensures CountCorrect(answers + [b]) == CountCorrect(answers) + (if b then 1 else 0)
  {
    assert (answers + [b])[..|answers|] == answers;
  }

  /** `calculateScore`: ten points per correct answer. */
  method CalculateScore(answers: seq<bool>) returns (score: int)
    ensures score == 10 * CountCorrect(answers)
    ensures 0 <= score <= 10 * |answers|
  {
    score := 0;
    var i := 0;
    while i < |answers|
      invariant 0 <= i <= |answers|
      invariant score == 10 * CountCorrect(answers[..i])
    {
      CountCorrectSnoc(answers[..i], answers[i]);
      assert answers[..i + 1] == answers[..i] + [answers[i]];
      if answers[i] {
        score := score + 10;
      }
      i := i + 1;
    }
    assert answers[..i] == answers;
  }

  /** `getAccuracyPercentage`. With no questions the source's double
      division yields NaN or infinity; that case is None here. */
  function AccuracyPercentage(correct: int, total: int): (r: Option<real>)
    ensures r.None? <==> total == 0
    ensures r.Some? ==> r.value * (total as real) == correct as real * 100.0
    ensures 0 <= correct <= total && total > 0 ==> r == Some(Percentage(correct, total))
  {
    if total == 0 then None
    else
      var r := (correct as real * 100.0) / (total as real);
      assert r * (total as real) == correct as real * 100.0;
      if 0 <= correct <= total then
        assert Percentage(correct, total) * (total as real) == correct as real * 100.0;
        SameQuotient(r, Percentage(correct, total), total as real);
        Some(r)
      else Some(r)
  }

  lemma SameQuotient(a: real, b: real, w: real)
    requires w != 0.0 && a * w == b * w
    ensures a == b
  {
    assert (a - b) * w == 0.0;
  }

  /** `getDifficultyLevel`. */
  function DifficultyLevel(accuracy: real): (r: string)
    ensures accuracy >= 90.0 <==> r == "Easy"
    ensures 70.0 <= accuracy < 90.0 <==> r == "Medium"
    ensures accuracy < 70.0 <==> r == "Hard"
  {
    if accuracy >= 90.0 then "Easy"
    else if accuracy >= 70.0 then "Medium"
    else "Hard"
  }

  /** The verdict on each answer: the choice compared is the number typed
      minus one. */
  function Verdicts(questions: seq<Question>, entered: seq<int>): (r: seq<bool>)
    requires |entered| == |questions|
    ensures |r| == |questions|
    ensures forall i :: 0 <= i < |questions| ==> r[i] == IsCorrect(questions[i], entered[i] - 1)
  {
    seq(|questions|, i requires 0 <= i < |questions| => IsCorrect(questions[i], entered[i] - 1))
  }

  /** The answer loop of `playQuiz`: `entered` are the numbers typed, one per
      question. One verdict is recorded per question, in order, and
      `correct` counts the true ones. */
  method RunQuestions(questions: seq<Question>, entered: seq<int>) returns (tracker: seq<bool>, correct: int)
    requires |entered| == |questions|
    ensures tracker == Verdicts(questions, entered)
    ensures correct == CountCorrect(tracker)
  {
    tracker := [];
    correct := 0;
    var i := 0;
    while i < |questions|
      invariant 0 <= i <= |questions|
      invariant tracker == Verdicts(questions, entered)[..i]
      invariant correct == CountCorrect(tracker)
    {
      var isCorrect := IsCorrect(questions[i], entered[i] - 1);
      RecordAnswer(tracker, isCorrect, correct);
      NextVerdict(questions, entered, i);
      tracker := tracker + [isCorrect];
      if isCorrect {
        correct := correct + 1;
      }
      i := i + 1;
    }
    assert Verdicts(questions, entered)[..i] == Verdicts(questions, entered);
  }

  /** The verdicts on the first i + 1 questions extend those on the first i
      by the verdict on question i. */
  lemma NextVerdict(questions: seq<Question>, entered: seq<int>, i: nat)
    requires |entered| == |questions| && i < |questions|
    ensures Verdicts(questions, entered)[..i + 1]
      == Verdicts(questions, entered)[..i] + [IsCorrect(questions[i], entered[i] - 1)]
  {
    var all := Verdicts(questions, entered);
    assert all[..i + 1] == all[..i] + [all[i]];
  }

  /** One step of the answer loop keeps the counter equal to the number of
      true entries. */
  lemma RecordAnswer(tracker: seq<bool>, b: bool, correct: nat)
    requires correct == CountCorrect(tracker)
    ensures CountCorrect(tracker + [b]) == if b then correct + 1 else correct
  {
    CountCorrectSnoc(tracker, b);
  }
}

/** The quiz CLI: the seeded question bank and one play-through of a
    category. */
module Quiz {

  import opened Text
  import opened Percent
  import opened Questions
  import opened QuizScoring

  /** The two seeded categories. */
  const QuestionBank: map<string, seq<Question>> := map[
    "General" := [
      Question("General", "Capital of France?", ["Berlin", "Paris", "Rome", "Madrid"], 1),
      Question("General", "2 + 2 = ?", ["3", "4", "5"], 1),
      Question("General", "Primary color mixed with blue to get green?", ["Red", "Yellow", "Orange"], 1)
    ],
    "Science" := [
      Question("Science", "H2O is chemical formula for?", ["Oxygen", "Hydrogen", "Water"], 2),
      Question("Science", "Planet known as Red Planet?", ["Mars", "Venus", "Jupiter"], 0)
    ]
  ]

  /** Every seeded question passes the constructor's checks, so the static
      initialiser cannot throw, and every question is filed under its own
      category. */
  lemma BankIsWellFormed()
    ensures forall cat | cat in QuestionBank ::
              forall i | 0 <= i < |QuestionBank[cat]| ::
                IsWellFormed(QuestionBank[cat][i]) && QuestionBank[cat][i].category == cat
  {
  }

  datatype Outcome =
    | NoQuestions
    | Finished(answers: seq<bool>, correct: nat, score: int, accuracy: real, level: string)

  /** `playQuiz` on the entered category line, playing the category's
      questions in stored order. An unknown (case-sensitive, trimmed) or
      empty category runs no quiz. */
  method PlayQuiz(categoryLine: string, entered: seq<int>) returns (outcome: Outcome)
    requires Trim(categoryLine) in QuestionBank ==> |entered| == |QuestionBank[Trim(categoryLine)]|
    ensures outcome.NoQuestions? <==>
              Trim(categoryLine) !in QuestionBank || |QuestionBank[Trim(categoryLine)]| == 0
    ensures outcome.Finished? ==>
              var qs := QuestionBank[Trim(categoryLine)];
              && outcome.answers == Verdicts(qs, entered)
              && outcome.correct == CountCorrect(outcome.answers) <= |qs|
              && outcome.score == 10 * outcome.correct
              && outcome.accuracy == Percentage(outcome.correct, |qs|)
              && 0.0 <= outcome.accuracy <= 100.0
              && outcome.level == DifficultyLevel(outcome.accuracy)
              && (outcome.correct == |qs| ==> outcome.level == "Easy")
  {
    var cat := Trim(categoryLine);
    if cat !in QuestionBank || |QuestionBank[cat]| == 0 {
      return NoQuestions;
    }
    var questions := QuestionBank[cat];
    var tracker, correct := RunQuestions(questions, entered);
    var score := CalculateScore(tracker);
    var accuracy := AccuracyPercentage(correct, |questions|).value;
    outcome := Finished(tracker, correct, score, accuracy, DifficultyLevel(accuracy));
  }
}
