/** The learning path: an ordered list of steps, each referring to a curriculum
    module, with per-step completion, completion time and score. */
module Paths {
  import opened Options

  /** A step; `completedAt` is the opaque completion time stamp the caller supplies. */
  datatype PathStep = PathStep(
    stepId: nat,
    moduleId: string,
    title: string,
    completed: bool,
    completedAt: Option<string>,
    score: Option<real>)

  /** `max(0.0, min(1.0, score))`. */
  function Clamp(score: real): (r: real)
    ensures 0.0 <= r <= 1.0
    ensures 0.0 <= score <= 1.0 ==> r == score
    ensures score < 0.0 ==> r == 0.0
    ensures score > 1.0 ==> r == 1.0
  {
    var upper := if score < 1.0 then score else 1.0;
    if upper > 0.0 then upper else 0.0
  }

  /** A step that is not completed has no time stamp and no score; a completed
      one has both, with the score in [0, 1]. */
  ghost predicate StepConsistent(s: PathStep) {
    if s.completed then s.completedAt.Some? && s.score.Some? && 0.0 <= s.score.value <= 1.0
    else s.completedAt.None? && s.score.None?
  }

  /** `completed_count`: the number of completed steps. */
  function CountCompleted(steps: seq<PathStep>): (n: nat)
    ensures n <= |steps|
  {
    if steps == [] then 0
    else CountCompleted(steps[..|steps| - 1]) + (if steps[|steps| - 1].completed then 1 else 0)
  }

  /** No step is counted exactly when none is completed, and every step exactly
      when all are. */
  lemma {:induction false} CountCompletedExtremes(steps: seq<PathStep>)
    ensures CountCompleted(steps) == 0 <==> forall i :: 0 <= i < |steps| ==> !steps[i].completed
    ensures CountCompleted(steps) == |steps| <==> forall i :: 0 <= i < |steps| ==> steps[i].completed
  {
    if steps != [] {
      var front := steps[..|steps| - 1];
      CountCompletedExtremes(front);
      assert forall i :: 0 <= i < |front| ==> front[i] == steps[i];
    }
  }

  /** Replacing one step changes the count only by that step's own completion flag. */
  lemma {:induction false} CountCompletedUpdate(steps: seq<PathStep>, k: nat, s: PathStep)
    requires k < |steps|
    ensures CountCompleted(steps[k := s])
         == CountCompleted(steps) - (if steps[k].completed then 1 else 0) + (if s.completed then 1 else 0)
  {
    var n := |steps| - 1;
    if k == n {
      assert steps[k := s][..n] == steps[..n];
    } else {
      assert steps[k := s][..n] == steps[..n][k := s];
      CountCompletedUpdate(steps[..n], k, s);
    }
  }

  /** The scores of the steps that are completed and scored, in step order. */
  function Scores(steps: seq<PathStep>): seq<real> {
    if steps == [] then []
    else
      var last := steps[|steps| - 1];
      Scores(steps[..|steps| - 1]) + (if last.completed && last.score.Some? then [last.score.value] else [])
  }

  function Sum(xs: seq<real>): real {
    if xs == [] then 0.0 else Sum(xs[..|xs| - 1]) + xs[|xs| - 1]
  }

  /** There is a score to average exactly when some step is completed and scored. */
  lemma {:induction false} ScoresEmpty(steps: seq<PathStep>)
    ensures Scores(steps) == [] <==> forall i :: 0 <= i < |steps| ==> !(steps[i].completed && steps[i].score.Some?)
  {
    if steps != [] {
      var front := steps[..|steps| - 1];
      ScoresEmpty(front);
      assert forall i :: 0 <= i < |front| ==> front[i] == steps[i];
    }
  }

  /** Scores of consistent steps lie in [0, 1]. */
  lemma {:induction false} ScoresInUnitInterval(steps: seq<PathStep>)
    requires forall i :: 0 <= i < |steps| ==> StepConsistent(steps[i])
    ensures forall j :: 0 <= j < |Scores(steps)| ==> 0.0 <= Scores(steps)[j] <= 1.0
  {
    if steps != [] {
      var front := steps[..|steps| - 1];
      assert forall i :: 0 <= i < |front| ==> front[i] == steps[i];
      ScoresInUnitInterval(front);
    }
  }

  /** A sum of values in [0, 1] lies between zero and their number. */
  lemma {:induction false} SumInUnitBounds(xs: seq<real>)
    requires forall j :: 0 <= j < |xs| ==> 0.0 <= xs[j] <= 1.0
    ensures 0.0 <= Sum(xs) <= |xs| as real
  {
    if xs != [] {
      var front := xs[..|xs| - 1];
      assert forall j :: 0 <= j < |front| ==> front[j] == xs[j];
      SumInUnitBounds(front);
    }
  }

  /** A positive quantity divided by itself is one. */
  lemma WholeOverWhole(whole: real)
    requires whole > 0.0
    ensures whole / whole == 1.0
  {
    assert (whole / whole) * whole == whole * 1.0;
  }

  /** A share of a positive whole is at most one, and exactly one only for the whole. */
  lemma FractionAtMostOne(part: real, whole: real)
    requires 0.0 <= part <= whole && whole > 0.0
    ensures 0.0 <= part / whole <= 1.0
    ensures part / whole == 1.0 <==> part == whole
  {
    var q := part / whole;
    assert q * whole == part;
    assert (q - 1.0) * whole == part - whole;
    WholeOverWhole(whole);
  }

  /** The percentage of completed steps, before rounding; zero for an empty path. */
  function Progress(steps: seq<PathStep>): (r: real)
    ensures steps == [] ==> r == 0.0
    ensures 0.0 <= r <= 100.0
    ensures steps != [] ==> (r == 100.0 <==> forall i :: 0 <= i < |steps| ==> steps[i].completed)
    ensures r == 100.0 <==> steps != [] && CountCompleted(steps) == |steps|
    ensures steps != [] ==> r * |steps| as real == CountCompleted(steps) as real * 100.0
  {
    if steps == [] then 0.0
    else
      var done, total := CountCompleted(steps) as real, |steps| as real;
      CountCompletedExtremes(steps);
      FractionAtMostOne(done, total);
      assert (done / total) * total == done;
      assert (done / total * 100.0) * total == (done / total) * total * 100.0;
      done / total * 100.0
  }

  /** The mean of the scores of the completed and scored steps, before
      rounding; `None` when there is none. */
  function AverageScore(steps: seq<PathStep>): (r: Option<real>)
    ensures r.None? <==> forall i :: 0 <= i < |steps| ==> !(steps[i].completed && steps[i].score.Some?)
  {
    var scores := Scores(steps);
    ScoresEmpty(steps);
    if scores == [] then None else Some(Sum(scores) / |scores| as real)
  }

  /** On consistent steps the average score lies in [0, 1]. */
  lemma AverageScoreInUnitInterval(steps: seq<PathStep>)
    requires forall i :: 0 <= i < |steps| ==> StepConsistent(steps[i])
    requires AverageScore(steps).Some?
    ensures 0.0 <= AverageScore(steps).value <= 1.0
  {
    var scores := Scores(steps);
    ScoresInUnitInterval(steps);
    SumInUnitBounds(scores);
    var n := |scores| as real;
    assert Sum(scores) / n <= 1.0;
  }

  /** The dictionary `export` returns. */
  datatype PathExport = PathExport(
    pathName: string,
    learnerId: string,
    steps: nat,
    completed: nat,
    progressPct: real,
    averageScore: Option<real>)

  class LearningPath {
    const pathName: string
    const learnerId: string
    var steps: seq<PathStep>

    /** Step ids are the positions 0..N-1 and every step is consistent. */
    ghost predicate Valid()
      reads this
    {
      forall i :: 0 <= i < |steps| ==> steps[i].stepId == i && StepConsistent(steps[i])
    }

    constructor (pathName: string, learnerId: string := "anonymous")
      ensures Valid()
      ensures this.pathName == pathName && this.learnerId == learnerId && steps == []
    {
      this.pathName := pathName;
      this.learnerId := learnerId;
      steps := [];
    }

    /** Some step of the path carries the id `id`. */
    ghost predicate IdInUse(id: int)
      reads this
    {
      exists i :: 0 <= i < |steps| && steps[i].stepId == id
    }

    /** `step_count`: the number of steps. On a valid path the ids in use are
        exactly 0..n-1, so the range check of `complete_step` accepts exactly
        the existing steps and the id `n` that the next `add_step` hands out
        is not yet taken. */
    function StepCount(): (n: nat)
      reads this
      ensures Valid() ==> forall id :: IdInUse(id) <==> 0 <= id < n
    {
      assert Valid() ==> forall id :: IdInUse(id) <==> 0 <= id < |steps| by {
        if Valid() {
          forall id | 0 <= id < |steps|
            ensures IdInUse(id)
          {
            assert steps[id].stepId == id;
          }
        }
      }
      |steps|
    }

    function CompletedCount(): (n: nat)
      reads this
      ensures n <= StepCount()
    {
      CountCompleted(steps)
    }

    /** `progress_pct`: zero for an empty path, otherwise the share of
        completed steps in percent; 100 exactly when every step is completed. */
    function ProgressPct(): (r: real)
      reads this
      ensures StepCount() == 0 ==> r == 0.0
      ensures 0.0 <= r <= 100.0
      ensures r == 100.0 <==> StepCount() > 0 && CompletedCount() == StepCount()
      ensures StepCount() > 0 ==> r * StepCount() as real == CompletedCount() as real * 100.0
    {
      Progress(steps)
    }

    /** `get_average_score`: absent exactly when no step is both completed and scored. */
    function GetAverageScore(): (r: Option<real>)
      reads this
      ensures r.None? <==> forall i :: 0 <= i < |steps| ==> !(steps[i].completed && steps[i].score.Some?)
    {
      AverageScore(steps)
    }

    /** `export`: a snapshot of the path's counters. */
    function Export(): (e: PathExport)
      reads this
      ensures e.pathName == pathName && e.learnerId == learnerId
      ensures e.steps == StepCount() && e.completed == CompletedCount() && e.completed <= e.steps
      ensures e.progressPct == ProgressPct() && e.averageScore == GetAverageScore()
      ensures 0.0 <= e.progressPct <= 100.0
      ensures e.progressPct == 100.0 <==> e.steps > 0 && e.completed == e.steps
      ensures e.averageScore.None? <==> forall i :: 0 <= i < |steps| ==> !(steps[i].completed && steps[i].score.Some?)
    {
      PathExport(pathName, learnerId, |steps|, CompletedCount(), ProgressPct(), GetAverageScore())
    }

    /** `add_step`: appends an incomplete step whose id is the previous number of steps. */
    method AddStep(moduleId: string, title: string) returns (s: PathStep)
      requires Valid()
      modifies this
      ensures Valid()
      ensures s == PathStep(old(StepCount()), moduleId, title, false, None, None)
      ensures steps == old(steps) + [s]
      ensures StepCount() == old(StepCount()) + 1
      ensures CompletedCount() == old(CompletedCount())
    {
      s := PathStep(|steps|, moduleId, title, false, None, None);
      steps := steps + [s];
      assert (old(steps) + [s])[..|old(steps)|] == old(steps);
    }

    /** `complete_step`: an id outside [0, step count) changes nothing and
        yields false; otherwise exactly that step becomes completed, stamped
        with `now` and given the clamped score. */
    method CompleteStep(stepId: int, now: string, score: real := 1.0) returns (ok: bool)
      requires Valid()
      modifies this
      ensures Valid()
      ensures ok <==> 0 <= stepId < old(StepCount())
      ensures !ok ==> steps == old(steps)
      ensures ok ==> steps == old(steps)[stepId := old(steps)[stepId].(
        completed := true, completedAt := Some(now), score := Some(Clamp(score)))]
      ensures ok ==> CompletedCount() == old(CompletedCount()) + (if old(steps)[stepId].completed then 0 else 1)
      ensures StepCount() == old(StepCount())
    {
      if stepId < 0 || stepId >= |steps| {
        return false;
      }
      var step := steps[stepId];
      steps := steps[stepId := step.(completed := true, completedAt := Some(now), score := Some(Clamp(score)))];
      CountCompletedUpdate(old(steps), stepId, steps[stepId]);
      return true;
    }

    /** `get_next_step`: the first incomplete step, or `None` when every step is completed. */
    method GetNextStep() returns (r: Option<PathStep>)
      requires Valid()
      ensures r.None? <==> forall i :: 0 <= i < |steps| ==> steps[i].completed
      ensures r.Some? ==>
        r.value.stepId < |steps| && steps[r.value.stepId] == r.value && !r.value.completed &&
        forall i :: 0 <= i < r.value.stepId ==> steps[i].completed
    {
      for i := 0 to |steps|
        invariant forall j :: 0 <= j < i ==> steps[j].completed
      {
        if !steps[i].completed {
          return Some(steps[i]);
        }
      }
      return None;
    }
  }

  /** Two steps of which only the first is completed: half the path is done. */
  lemma HalfOfTwo(st: seq<PathStep>)
    requires |st| == 2 && st[0].completed && !st[1].completed
    ensures Progress(st) == 50.0
  {
    var front := st[..1];
    assert front[..0] == [] && front[0] == st[0];
    assert CountCompleted(front) == 1;
    assert st[..|st| - 1] == front;
    assert CountCompleted(st) == 1;
  }

  /** The path of the source's progress tests: two steps, the first one
      completed, so half the path is done and the second step is next. */
  method ProgressExample() returns (progress: real, next: Option<PathStep>)
    ensures progress == 50.0
    ensures next.Some? && next.value.stepId == 1
  {
    var path := new LearningPath("Test");
    var s0 := path.AddStep("mod_1", "Step 1");
    var s1 := path.AddStep("mod_2", "Step 2");
    var ok := path.CompleteStep(0, "2026-01-01T00:00:00+00:00", 0.9);
    HalfOfTwo(path.steps);
    progress := path.ProgressPct();
    next := path.GetNextStep();
  }

  /** Two steps completed with scores 0.8 and 1.0 average to 0.9. */
  lemma AverageOfTwo(st: seq<PathStep>)
    requires |st| == 2
    requires st[0].completed && st[0].score == Some(0.8) && st[1].completed && st[1].score == Some(1.0)
    ensures AverageScore(st) == Some(0.9)
  {
    var front := st[..1];
    assert front[..0] == [] && front[0] == st[0];
    assert Scores(front) == [0.8];
    assert st[..|st| - 1] == front;
    var scores := [0.8, 1.0];
    assert Scores(st) == scores;
    assert scores[..1] == [0.8] && [0.8][..0] == [];
    assert Sum(scores) == 1.8;
  }

  /** The path of the source's average-score test: completing two steps with
      0.8 and 1.0 gives an average of 0.9. */
  method AverageScoreExample() returns (average: Option<real>)
    ensures average == Some(0.9)
  {
    var path := new LearningPath("Test");
    var s0 := path.AddStep("m1", "S1");
    var s1 := path.AddStep("m2", "S2");
    var ok0 := path.CompleteStep(0, "2026-01-01T00:00:00+00:00", 0.8);
    var ok1 := path.CompleteStep(1, "2026-01-01T00:05:00+00:00", 1.0);
    AverageOfTwo(path.steps);
    average := path.GetAverageScore();
  }
}
