# Curriculum, exercises and learning paths in Dafny

This project models the in-memory object model of a small library for
educational content. It has three components.

- **Curriculum builder** (`curriculum.dfy`, module `Curriculum`): a titled
  curriculum holding a mapping of modules in insertion order. Each module has
  topics with durations and a list of prerequisite module ids. The builder
  adds modules and topics, sums durations, exports a snapshot, and resolves
  the transitive prerequisite chain of a module by depth-first search.
- **Exercise bank** (`exercises.dfy`, module `Exercises`): exercises made of
  questions with point values and optional stored answers. The bank scores a
  mapping of submitted answers after stripping surrounding whitespace and
  lower-casing both sides.
- **Learning path** (`paths.dfy`, module `Paths`): an ordered list of steps.
  A step is marked completed with a time stamp and a clamped score; completing
  it again overwrites both. The path reports progress, the next incomplete
  step and the average score.

`options.dfy` holds the `Option` type used for absent values.

The builder, the bank and the path are classes whose methods update their
fields. Modules, topics, questions, exercises and steps are datatypes. A
Python dictionary kept in insertion order is a `map` plus a `seq` of its keys
(`CurriculumBuilder.order`). The builder's `Valid()` keeps that sequence
duplicate-free and equal to the key set.

Prerequisite resolution is the methods `Resolve` and `ResolvePrerequisites`.
They are mutually recursive and pass the visited set and the chain in and out.
In the source these are variables of the enclosing function that its nested
function updates. A ghost stack of the modules still in progress carries the
invariant `ResolveInv`. The result is characterised by `PrerequisiteChain`:

- the chain holds each known module reachable from the target exactly once;
- the target itself is never in the chain;
- every module comes after its known prerequisites, except a prerequisite
  that lies on a cycle with that module; a cycle elsewhere in the graph does
  not affect the order, and in a graph with no cycle at all every module
  comes after all of its known prerequisites.

Termination is shown on the number of known modules not yet visited, so
cycles and dangling prerequisite ids are covered. This is termination of the
model; the source's recursion can still stop early on a long chain (see
"Left out").

## Model

| member | source | states |
|---|---|---|
| Curriculum.CurriculumBuilder.constructor | src/curriculum.py:54-57 | a new builder keeps its title and domain (default `"general"`) and has no modules |
| Curriculum.CurriculumBuilder.ModuleCount | src/curriculum.py:64-67 | the number of modules equals the length of the insertion-order key list |
| Curriculum.CurriculumBuilder.AddModule | src/curriculum.py:85-93 | stores a topic-less module with the given prerequisites (or none); a new id is appended to the order and raises the count by one; a reused id replaces its module in place, drops that module's topics from the total duration and leaves the count unchanged |
| Curriculum.PutModuleDuration | src/curriculum.py:85-93 | storing a topic-less module under a new id leaves the total duration unchanged; under a reused id it removes the replaced module's topic durations |
| Curriculum.CurriculumBuilder.AddTopic | src/curriculum.py:115-127 | an unknown module yields `None` and changes nothing; otherwise the topic is appended to that module only, and the total duration grows by exactly its duration |
| Curriculum.CurriculumBuilder.TotalDuration | src/curriculum.py:129-135 | the total duration is the sum of the durations of all topics of all modules, and 0 for a curriculum without modules |
| Curriculum.CurriculumBuilder.GetTotalDuration | src/curriculum.py:129-135 | the nested loop returns the sum over modules of their topic sums, which equals the duration sum of all topics flattened in order |
| Curriculum.TopicsDurationAppend | src/curriculum.py:133-134 | the duration of concatenated topic lists is the sum of their durations |
| Curriculum.ModulesDurationIsSumOverAllTopics | src/curriculum.py:129-135 | the per-module nested sum equals the sum over the flattened topic list |
| Curriculum.ModulesDurationUpdate | src/curriculum.py:126 | replacing one module changes the total by the difference of its topic durations |
| Curriculum.CurriculumBuilder.GetPrerequisiteChain | src/curriculum.py:149-165 | the chain is duplicate-free and excludes the target; a module is in it iff it is known, is not the target, and is reachable from the target along prerequisites; each module follows its known prerequisites unless a prerequisite leads back to it (they lie on a cycle), and on an acyclic graph without exception |
| Curriculum.Resolve | src/curriculum.py:152-162 | one recursive step keeps `ResolveInv`, visits `mid`, only grows the visited set and the chain, and appends only modules not visited before |
| Curriculum.ResolvePrerequisites | src/curriculum.py:159-160 | the loop resolves every prerequisite of `mid` (all end up visited) while keeping `ResolveInv` |
| Curriculum.Visit | src/curriculum.py:153-158 | marking an unvisited id keeps the invariant; an unknown id is finished at once, a known module goes on the stack |
| Curriculum.Finish | src/curriculum.py:161-162 | once all prerequisites of `mid` are visited, popping it and appending it unless it is the target keeps the invariant |
| Curriculum.AppendKeepsOrderOrCycle | src/curriculum.py:159-162 | in any graph, appending a module after resolving its prerequisites keeps every module after its prerequisites, except a prerequisite still being resolved, from which a path leads back to the module |
| Curriculum.CycleThroughPath | src/curriculum.py:153-154 | a prerequisite of the last module of a path that lies on that path closes a cycle, so on an acyclic graph no prerequisite leads back to its dependent |
| Curriculum.ClosedContainsPathEnd | src/curriculum.py:159-160 | a set closed under prerequisites contains every module reachable from it; this is why the chain is complete |
| Curriculum.RankedAcyclic | src/curriculum.py:152-162 | a numbering that puts every prerequisite below its dependent rules out cycles |
| Curriculum.OrderWithoutCycles | src/curriculum.py:159-162 | in a graph without cycles the order of the chain has no exception: every known prerequisite of an entry comes before it |
| Curriculum.ThreeInARowChain | tests/test_curriculum.py:38-45 | for modules m3 -> m2 -> m1, any result meeting the chain contract is exactly `[m1, m2]` |
| Curriculum.ThreeInARowBesideCycleChain | src/curriculum.py:149-165 | for modules m3 -> m2 -> m1 beside two modules that depend on each other, any result meeting the chain contract is still exactly `[m1, m2]` |
| Curriculum.PrerequisiteChainExample | tests/test_curriculum.py:38-45 | building the three chained modules and resolving m3 returns `[m1, m2]` |
| Curriculum.CurriculumBuilder.Export | src/curriculum.py:167-184 | the snapshot has the title, domain, module count and total duration, plus one record per module in insertion order with its id, fields and topic count |
| Exercises.ExerciseBank.constructor | src/exercises.py:58-59 | a new bank holds no exercises |
| Exercises.ExerciseBank.ExerciseCount | src/exercises.py:61-64 | the count is 0 exactly for an empty bank |
| Exercises.Exercise.TotalPoints | src/exercises.py:45-48 | the maximum score is 0 for an exercise without questions and never negative when no question has negative points |
| Exercises.SumPointsNonNegative | src/exercises.py:48 | non-negative point values sum to a non-negative total |
| Exercises.ExerciseBank.CreateExercise | src/exercises.py:76-82 | stores a question-less exercise (total points 0) under the id; a new id raises the count by one, a reused id overwrites |
| Exercises.ExerciseBank.AddQuestion | src/exercises.py:106-119 | an unknown exercise yields `None` and changes nothing; otherwise the question (hints default to none) is appended and that exercise's total points grow by its points |
| Exercises.ExerciseBank.ScoreAnswers | src/exercises.py:133-163 | `None` iff the exercise is unknown; otherwise one result per question in order, the total and earned points, and the percentage of earned over total (0 when total is 0); the summary's id is the stored exercise's own id |
| Exercises.IsCorrect | src/exercises.py:144-147 | a question is only ever correct when it has a stored answer, and a submission identical to the stored answer is always correct |
| Exercises.Percentage | src/exercises.py:161 | 0 when there are no points to earn; otherwise the percentage times the total equals the earned points times 100 |
| Exercises.ScoreQuestions | src/exercises.py:137-155 | the loop over the questions yields the total of their points, the points of those answered correctly, and exactly one result per question in question order |
| Exercises.DetailCases | src/exercises.py:143-148 | a question without a stored answer is never correct and earns 0; a question with no submission is correct iff its stored answer normalises to empty |
| Exercises.EarnedWithinTotal | src/exercises.py:137-149 | with non-negative points, 0 <= earned <= total |
| Exercises.AllCorrectEarnsTotal | src/exercises.py:148-149 | if every question is correct, the earned points equal the total |
| Exercises.PercentageWithinBounds | src/exercises.py:161 | for 0 <= earned <= total the percentage lies in [0, 100] and is 100 iff total > 0 and everything was earned |
| Exercises.Strip | src/exercises.py:146 | the stripped answer is the slice after the leading whitespace, neither end is whitespace, and only whitespace follows it |
| Exercises.LeadingSpace | src/exercises.py:146 | counts the whitespace prefix: all counted characters are whitespace and the next is not |
| Exercises.TrailingSpace | src/exercises.py:146 | counts the whitespace suffix: all counted characters are whitespace and the one before is not |
| Exercises.StripUnpadded | src/exercises.py:146 | a string with no whitespace at either end is unchanged by stripping |
| Exercises.Normalize | src/exercises.py:146 | the normalised answer is no longer than the original, has no whitespace at either end and contains no upper-case ASCII letter |
| Exercises.NormalizeIdempotent | src/exercises.py:146 | normalising an answer twice is the same as once |
| Exercises.StripExamples | src/exercises.py:146 | stripping " paris " gives "paris"; "Paris" and "paris." are unchanged |
| Exercises.NormalizeExamples | src/exercises.py:146 | " paris " and "Paris" compare equal, "paris." does not |
| Paths.LearningPath.constructor | src/paths.py:33-36 | a new path keeps its name and learner id (default `"anonymous"`) and has no steps |
| Paths.CountCompleted | src/paths.py:48-51 | the completed count is at most the number of steps |
| Paths.CountCompletedExtremes | src/paths.py:48-51 | the count is 0 iff no step is completed, and equals the step count iff all are |
| Paths.CountCompletedUpdate | src/paths.py:90-91 | replacing one step changes the count only by that step's completion flag |
| Paths.LearningPath.StepCount | src/paths.py:43-46 | on a valid path the step ids in use are exactly 0 to the step count minus one, so `complete_step` accepts exactly the existing ids and the next `add_step` id is new |
| Paths.LearningPath.CompletedCount | src/paths.py:48-51 | the completed count never exceeds the step count |
| Paths.Progress | src/paths.py:53-58 | 0 for an empty path; otherwise in [0, 100], 100 iff every step is completed, and the progress times the step count equals the completed count times 100 |
| Paths.LearningPath.ProgressPct | src/paths.py:53-58 | 0 without steps; otherwise in [0, 100], equal to completed count / step count x 100, and 100 iff there is a step and all are completed |
| Paths.LearningPath.AddStep | src/paths.py:60-76 | appends an incomplete step whose id is the previous step count; step ids stay equal to positions and the completed count is unchanged |
| Paths.LearningPath.CompleteStep | src/paths.py:78-94 | returns true iff 0 <= id < step count; on false nothing changes; on true exactly that step becomes completed with the given time stamp and the score clamped to [0, 1], and the completed count rises by one unless it was already completed |
| Paths.Clamp | src/paths.py:93 | the result lies in [0, 1], is the score itself inside that range, 0 below it and 1 above it |
| Paths.LearningPath.GetNextStep | src/paths.py:96-101 | `None` iff every step is completed; otherwise the first incomplete step, all before it completed |
| Paths.AverageScore | src/paths.py:103-112 | `None` iff no step is both completed and scored |
| Paths.LearningPath.GetAverageScore | src/paths.py:103-112 | absent iff no step of the path is both completed and scored |
| Paths.ScoresEmpty | src/paths.py:109-111 | the list of scores is empty iff no step is both completed and scored |
| Paths.ScoresInUnitInterval | src/paths.py:109 | on consistent steps every collected score lies in [0, 1] |
| Paths.AverageScoreInUnitInterval | src/paths.py:103-112 | on a valid path the average score lies in [0, 1] |
| Paths.LearningPath.Export | src/paths.py:114-123 | the snapshot has the name, learner id, step count, completed count, progress and average of the path's own accessors, with a progress in [0, 100] that is 100 iff there is at least one step and all are completed, and an average that is absent iff nothing is scored |
| Paths.HalfOfTwo | tests/test_paths.py:18-24 | two steps with only the first completed give 50% progress |
| Paths.ProgressExample | tests/test_paths.py:18-37 | after completing step 0 of two, progress is 50% and the next step is step 1 |
| Paths.AverageOfTwo | tests/test_paths.py:45-51 | scores 0.8 and 1.0 average to 0.9 |
| Paths.AverageScoreExample | tests/test_paths.py:45-51 | completing two steps with 0.8 and 1.0 yields an average of 0.9 |

## Left out

- Identifier generation: module, topic, exercise and question ids come from `uuid4().hex[:8]` in the source. Here they are parameters. A reused module or exercise id is modelled as the dictionary overwrite the code performs, although the ids are meant to be unique (random 8-hex-digit tokens).
- Time stamps: `complete_step` reads the UTC clock. Here the ISO-8601 string is a parameter `now`.
- Rounding: `progress_pct`, the scoring percentage and `get_average_score` round floats to 1 or 3 decimals. The model computes exact reals without rounding or floating-point error. Paths.Progress, Paths.AverageScore and Exercises.Percentage therefore state the unrounded values.
- Paths.Progress, Paths.LearningPath.ProgressPct, Paths.LearningPath.Export, Exercises.PercentageWithinBounds: "100 iff everything is done" holds for the unrounded value only. With rounding to one decimal, 9999 completed steps out of 10000 give `round(99.99, 1) == 100.0` in the source, and 9999 earned points out of 10000 give a percentage of 100.0 too.
- Exercises.Strip, Exercises.Normalize: `str.strip` and `str.lower` are modelled for ASCII only. Non-ASCII whitespace and non-ASCII case mappings are not covered.
- Aliasing: the source returns the stored `Module`, `Topic`, `Question`, `Exercise` and `PathStep` objects, and a caller may change them afterwards. The model returns values, so changes made through such a reference are not captured.
- Argument aliasing: `prerequisites or []` and `resources or []` (src/curriculum.py:90 and :124) store the caller's own non-empty list, as does `hints or []` (src/exercises.py:116). A later change to that list by the caller changes the stored module, topic or question, and so for prerequisites the chain. The model copies the sequence at the call. Likewise `export` puts each module's own `prerequisites` list into its record (src/curriculum.py:179), so in the source a change to the exported list changes the stored module; `Curriculum.ModuleRecord` holds a value copy instead.
- Curriculum.CurriculumBuilder.GetPrerequisiteChain: the source resolves by native recursion, one call level per prerequisite link. Under Python's default recursion limit of 1000, a straight chain of about a thousand modules raises `RecursionError` instead of returning. The model has no depth limit and always returns the chain.
- `LearningObjective` and a topic's objectives list are never read or written by the builder's operations, so they are left out. Topic resources and question hints are stored but never inspected.
- Read-only properties that only return a constructor argument (`CurriculumBuilder.title`, `LearningPath.name`) are the class constants `title` and `pathName`.
- Exercises.ExerciseBank.ScoreAnswers: negative point values are accepted, as in the source. The bounds on earned points and percentage hold only for non-negative points (`NonNegativePoints`).
- `src/__init__.py` holds only the package docstring and a version string; it is not modelled.
