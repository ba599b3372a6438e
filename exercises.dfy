/** The exercise bank: exercises made of scored questions, and the scoring of a
    learner's submitted answers against the stored correct answers. */
module Exercises {
  import opened Options

  datatype QuestionType = MultipleChoice | ShortAnswer | CodeChallenge | Reflection

  /** A question; `correctAnswer` is absent for questions that are not marked
      (reflections). */
  datatype Question = Question(
    questionId: string,
    questionType: QuestionType,
    prompt: string,
    correctAnswer: Option<string>,
    points: int,
    hints: seq<string>)

  datatype Exercise = Exercise(
    exerciseId: string,
    title: string,
    topicId: string,
    questions: seq<Question>)
  {
    /** `total_points`: the maximum possible score; zero without questions and
        never negative when no question has negative points. */
    function TotalPoints(): (r: int)
      ensures questions == [] ==> r == 0
      ensures NonNegativePoints(questions) ==> r >= 0
    {
      SumPointsNonNegative(questions);
      SumPoints(questions)
    }
  }

  /** The marking of one question. */
  datatype QuestionResult = QuestionResult(
    questionId: string,
    correct: bool,
    pointsEarned: int,
    pointsPossible: int)

  /** The summary `score_answers` returns. */
  datatype ScoreSummary = ScoreSummary(
    exerciseId: string,
    totalPoints: int,
    earnedPoints: int,
    percentage: real,
    details: seq<QuestionResult>)

  function SumPoints(qs: seq<Question>): int {
    if qs == [] then 0 else SumPoints(qs[..|qs| - 1]) + qs[|qs| - 1].points
  }

  ghost predicate NonNegativePoints(qs: seq<Question>) {
    forall i :: 0 <= i < |qs| ==> qs[i].points >= 0
  }

  /** Point values that are not negative add up to a sum that is not negative. */
  lemma {:induction false} SumPointsNonNegative(qs: seq<Question>)
    ensures NonNegativePoints(qs) ==> SumPoints(qs) >= 0
  {
    if qs != [] && NonNegativePoints(qs) {
      var front := qs[..|qs| - 1];
      assert forall i :: 0 <= i < |front| ==> front[i] == qs[i];
      SumPointsNonNegative(front);
      assert qs[|qs| - 1].points >= 0;
    }
  }

  // ---------------------------------------------------------------------------
  // Normalisation of answers: surrounding whitespace removed, letters lower-cased

  /** The ASCII characters Python's `str.isspace` accepts: tab, line feed,
      vertical tab, form feed, carriage return, the four separators 0x1C-0x1F
      and the space. */
  predicate IsSpace(c: char) {
    9 <= c as int <= 13 || 28 <= c as int <= 32
  }

  /** The number of whitespace characters `s` starts with. */
  function LeadingSpace(s: string): (n: nat)
    ensures n <= |s|
    ensures forall i :: 0 <= i < n ==> IsSpace(s[i])
    ensures n < |s| ==> !IsSpace(s[n])
  {
    if s != [] && IsSpace(s[0]) then 1 + LeadingSpace(s[1..]) else 0
  }

  /** The number of whitespace characters `s` ends with. */
  function TrailingSpace(s: string): (n: nat)
    ensures n <= |s|
    ensures forall i :: |s| - n <= i < |s| ==> IsSpace(s[i])
    ensures n < |s| ==> !IsSpace(s[|s| - 1 - n])
  {
    if s != [] && IsSpace(s[|s| - 1]) then 1 + TrailingSpace(s[..|s| - 1]) else 0
  }

  /** `str.strip()`: the part of `s` between its leading and its trailing
      whitespace; empty when `s` is all whitespace. */
  function Strip(s: string): (r: string)
    ensures r == [] || (!IsSpace(r[0]) && !IsSpace(r[|r| - 1]))
    ensures LeadingSpace(s) + |r| <= |s| && r == s[LeadingSpace(s)..LeadingSpace(s) + |r|]
    ensures forall k :: LeadingSpace(s) + |r| <= k < |s| ==> IsSpace(s[k])
  {
    var a := LeadingSpace(s);
    if a == |s| then
      []
    else
      var b := |s| - TrailingSpace(s);
      assert a < b;
      s[a..b]
  }

  function LowerChar(c: char): char {
    if 'A' <= c <= 'Z' then (c as int + 32) as char else c
  }

  /** `str.lower()` on ASCII letters. */
  function Lower(s: string): string {
    seq(|s|, i requires 0 <= i < |s| => LowerChar(s[i]))
  }

  /** The form in which a submission and a stored answer are compared: no
      whitespace at either end, no upper-case ASCII letter, and no longer than
      the original. */
  function Normalize(s: string): (r: string)
    ensures |r| <= |s|
    ensures r == [] || (!IsSpace(r[0]) && !IsSpace(r[|r| - 1]))
    ensures forall i :: 0 <= i < |r| ==> !('A' <= r[i] <= 'Z')
  {
    var t := Strip(s);
    assert t != [] ==> Lower(t)[0] == LowerChar(t[0]) && Lower(t)[|t| - 1] == LowerChar(t[|t| - 1]);
    Lower(t)
  }

  /** A string that neither starts nor ends with whitespace is its own strip. */
  lemma StripUnpadded(t: string)
    requires t == [] || (!IsSpace(t[0]) && !IsSpace(t[|t| - 1]))
    ensures Strip(t) == t
  {
    if t != [] {
      assert LeadingSpace(t) == 0;
      assert TrailingSpace(t) == 0;
    }
  }

  /** Normalising twice gives the same as normalising once. */
  lemma NormalizeIdempotent(s: string)
    ensures Normalize(Normalize(s)) == Normalize(s)
  {
    var n := Normalize(s);
    StripUnpadded(n);
    assert Lower(n) == n;
  }

  // ---------------------------------------------------------------------------
  // Scoring

  /** The answer submitted for question `qid`; a missing one counts as empty. */
  function Submitted(answers: map<string, string>, qid: string): string {
    if qid in answers then answers[qid] else ""
  }

  /** A question is answered correctly when it has a stored answer and the
      submission equals it once both are normalised. */
  predicate IsCorrect(q: Question, answers: map<string, string>): (r: bool)
    ensures r ==> q.correctAnswer.Some?
    ensures q.correctAnswer.Some? && q.questionId in answers && answers[q.questionId] == q.correctAnswer.value ==> r
  {
    q.correctAnswer.Some? && Normalize(Submitted(answers, q.questionId)) == Normalize(q.correctAnswer.value)
  }

  /** The result entry `score_answers` records for one question. */
  function Detail(q: Question, answers: map<string, string>): QuestionResult {
    var correct := IsCorrect(q, answers);
    QuestionResult(q.questionId, correct, if correct then q.points else 0, q.points)
  }

  /** A question without a stored answer is never marked correct and earns
      nothing; a question with no submission is marked as an empty answer, so
      it is correct only when its stored answer is blank. */
  lemma DetailCases(q: Question, answers: map<string, string>)
    ensures q.correctAnswer.None? ==> !Detail(q, answers).correct && Detail(q, answers).pointsEarned == 0
    ensures q.questionId !in answers ==>
      (Detail(q, answers).correct <==> q.correctAnswer.Some? && Normalize(q.correctAnswer.value) == [])
  {
    assert Normalize("") == [] by {
      assert LeadingSpace("") == 0;
    }
  }

  /** Sum of the points of the questions answered correctly. */
  function EarnedPoints(qs: seq<Question>, answers: map<string, string>): int {
    if qs == [] then 0
    else EarnedPoints(qs[..|qs| - 1], answers) + (if IsCorrect(qs[|qs| - 1], answers) then qs[|qs| - 1].points else 0)
  }

  /** The percentage before rounding; zero when there is nothing to earn. */
  function Percentage(earned: int, total: int): (r: real)
    ensures total <= 0 ==> r == 0.0
    ensures total > 0 ==> r * total as real == earned as real * 100.0
  {
    if total > 0 then earned as real / total as real * 100.0 else 0.0
  }

  /** With no negative point values, the points earned lie between zero and the total. */
  lemma {:induction false} EarnedWithinTotal(qs: seq<Question>, answers: map<string, string>)
    requires NonNegativePoints(qs)
    ensures 0 <= EarnedPoints(qs, answers) <= SumPoints(qs)
  {
    if qs != [] {
      var front := qs[..|qs| - 1];
      assert NonNegativePoints(front) by {
        forall i | 0 <= i < |front| ensures front[i].points >= 0 {
          assert front[i] == qs[i];
        }
      }
      EarnedWithinTotal(front, answers);
      assert qs[|qs| - 1].points >= 0;
    }
  }

  /** When everything is answered correctly, all the points are earned. */
  lemma {:induction false} AllCorrectEarnsTotal(qs: seq<Question>, answers: map<string, string>)
    requires forall i :: 0 <= i < |qs| ==> IsCorrect(qs[i], answers)
    ensures EarnedPoints(qs, answers) == SumPoints(qs)
  {
    if qs != [] {
      var front := qs[..|qs| - 1];
      forall i | 0 <= i < |front| ensures IsCorrect(front[i], answers) {
        assert front[i] == qs[i];
      }
      AllCorrectEarnsTotal(front, answers);
    }
  }

  lemma PercentageWithinBounds(earned: int, total: int)
    requires 0 <= earned <= total
    ensures 0.0 <= Percentage(earned, total) <= 100.0
    ensures Percentage(earned, total) == 100.0 <==> total > 0 && earned == total
  {
    if total > 0 {
      var ratio := earned as real / total as real;
      assert ratio * total as real == earned as real;
      assert ratio <= 1.0;
      assert ratio == 1.0 <==> earned == total;
    }
  }

  /** Stripping the spellings used below. */
  lemma StripExamples()
    ensures Strip(" paris ") == "paris"
    ensures Strip("Paris") == "Paris"
    ensures Strip("paris.") == "paris."
  {
    assert LeadingSpace("paris ") == 0;
    assert LeadingSpace(" paris ") == 1;
    assert TrailingSpace(" paris") == 0;
    assert TrailingSpace(" paris ") == 1;
    StripUnpadded("Paris");
    StripUnpadded("paris.");
  }

  /** Case and surrounding whitespace do not matter when answers are compared;
      punctuation does. */
  lemma NormalizeExamples()
    ensures Normalize(" paris ") == Normalize("Paris") == "paris"
    ensures Normalize("paris.") != Normalize("Paris")
  {
    StripExamples();
    assert Lower("paris") == "paris";
    assert Lower("Paris") == "paris";
    assert |Lower("paris.")| == 6;
  }

  /** The loop of `score_answers` over the questions of an exercise: the
      total and earned points and one result per question, in order. */
  method ScoreQuestions(qs: seq<Question>, answers: map<string, string>)
    returns (total: int, earned: int, details: seq<QuestionResult>)
    ensures total == SumPoints(qs)
    ensures earned == EarnedPoints(qs, answers)
    ensures |details| == |qs|
    ensures forall i :: 0 <= i < |qs| ==> details[i] == Detail(qs[i], answers)
  {
    total, earned, details := 0, 0, [];
    for i := 0 to |qs|
      invariant total == SumPoints(qs[..i])
      invariant earned == EarnedPoints(qs[..i], answers)
      invariant |details| == i
      invariant forall k :: 0 <= k < i ==> details[k] == Detail(qs[k], answers)
    {
      var result := Detail(qs[i], answers);
      total := total + result.pointsPossible;
      earned := earned + result.pointsEarned;
      details := details + [result];
      assert qs[..i + 1][..i] == qs[..i];
    }
    assert qs[..|qs|] == qs;
  }

  // ---------------------------------------------------------------------------
  // The bank

  class ExerciseBank {
    var exercises: map<string, Exercise>

    /** Each exercise is stored under its own id, as `create_exercise` keys
        the mapping by `exercise.exercise_id`. */
    ghost predicate Valid()
      reads this
    {
      forall k :: k in exercises ==> exercises[k].exerciseId == k
    }

    constructor ()
      ensures Valid() && exercises == map[]
    {
      exercises := map[];
    }

    /** `exercise_count`: the number of stored exercises, zero only for an empty bank. */
    function ExerciseCount(): (n: nat)
      reads this
      ensures n == 0 <==> exercises == map[]
    {
      |exercises|
    }

    /** `create_exercise`: stores an exercise with no questions under the given
        id; an id already in use is overwritten, dropping the old exercise. */
    method CreateExercise(exerciseId: string, title: string, topicId: string) returns (e: Exercise)
      requires Valid()
      modifies this
      ensures Valid()
      ensures e == Exercise(exerciseId, title, topicId, [])
      ensures exercises == old(exercises)[exerciseId := e]
      ensures ExerciseCount() == old(ExerciseCount()) + (if exerciseId in old(exercises) then 0 else 1)
      ensures e.TotalPoints() == 0
    {
      e := Exercise(exerciseId, title, topicId, []);
      exercises := exercises[exerciseId := e];
    }

    /** `add_question`: an unknown exercise id changes nothing and yields `None`;
        otherwise the question goes at the end of that exercise's questions. */
    method AddQuestion(exerciseId: string, questionId: string, questionType: QuestionType, prompt: string,
                       correctAnswer: Option<string> := None, points: int := 10,
                       hints: Option<seq<string>> := None)
      returns (q: Option<Question>)
      requires Valid()
      modifies this
      ensures Valid()
      ensures exerciseId !in old(exercises) ==> q == None && exercises == old(exercises)
      ensures exerciseId in old(exercises) ==>
        q == Some(Question(questionId, questionType, prompt, correctAnswer, points, hints.GetOr([]))) &&
        exercises == old(exercises)[exerciseId := old(exercises)[exerciseId].(questions := old(exercises)[exerciseId].questions + [q.value])]
      ensures exerciseId in old(exercises) ==>
        exercises[exerciseId].TotalPoints() == old(exercises[exerciseId].TotalPoints()) + points
    {
      if exerciseId !in exercises {
        return None;
      }
      var e := exercises[exerciseId];
      var question := Question(questionId, questionType, prompt, correctAnswer, points, hints.GetOr([]));
      exercises := exercises[exerciseId := e.(questions := e.questions + [question])];
      q := Some(question);
      assert (e.questions + [question])[..|e.questions|] == e.questions;
    }

    /** `score_answers`: `None` for an unknown exercise; otherwise one result per
        question in question order, the total and earned points, and the percentage. */
    method ScoreAnswers(exerciseId: string, answers: map<string, string>) returns (r: Option<ScoreSummary>)
      ensures r.None? <==> exerciseId !in exercises
      ensures r.Some? ==>
        var qs := exercises[exerciseId].questions;
        var s := r.value;
        s.exerciseId == exerciseId &&
        s.totalPoints == exercises[exerciseId].TotalPoints() &&
        s.earnedPoints == EarnedPoints(qs, answers) &&
        s.percentage == Percentage(s.earnedPoints, s.totalPoints) &&
        |s.details| == |qs| &&
        (forall i :: 0 <= i < |qs| ==> s.details[i] == Detail(qs[i], answers))
      ensures Valid() && r.Some? ==> r.value.exerciseId == exercises[exerciseId].exerciseId
      ensures r.Some? && exercises[exerciseId].questions == [] ==>
        r.value.totalPoints == 0 && r.value.earnedPoints == 0 && r.value.percentage == 0.0
    {
      if exerciseId !in exercises {
        return None;
      }
      var total, earned, details := ScoreQuestions(exercises[exerciseId].questions, answers);
      var percentage := Percentage(earned, total);
      r := Some(ScoreSummary(exerciseId, total, earned, percentage, details));
    }
  }
}
