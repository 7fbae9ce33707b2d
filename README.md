# Elective-course allocation engine, modelled in Dafny

This project models the allocation core of an elective-course scheduler. Students choose courses, and the
scheduler places each of them into at most one course per period. It respects course availability per period
and course capacity, and it weighs priorities, reserves, stability against a previous result and
"together"/"apart" pairs of students.

The model covers two source files:

- `solver.py`:
  - Per student, it enumerates the candidate placements: the course numbers are padded with empty periods,
    the permutations are filtered by `_is_valid_assignment`, scored and deduplicated.
  - It scores the candidates in the priority-preferring and change-minimising modes, including the
    unsolvable penalty.
  - It builds the constraint model handed to the CP-SAT backend: one variable per candidate, exactly one
    candidate per student, a capacity row per course and period, and the weighted objective with pair terms
    in passes 0 and 1.
  - It extracts the result records from the backend's answer.
  - It runs the relaxation loop over passes 0 to 4, which ends in "No solution found".
- `model.py`:
  - The entities and the `Data` object.
  - The presentation view `EnrichedResultRecord.from_result_record`.
  - The churn metric `get_difference_count`, input validation, the cached lookup into the previous result
    and the smaller lookups.

Files:

- `wrappers.dfy`: `Option` and `Result`.
- `seqs.dfy`: generic sequence facts (distinctness, removal, deduplication in first-occurrence order).
- `itertools.dfy`: `itertools.permutations(s, k)` in its enumeration order, proved sound and complete.
- `cpsat.dfy`: the part of CP-SAT the solver uses, as data:
  - boolean variables, exactly-one groups, at-most rows, conjunction constraints and a weighted objective;
  - what it means for values to satisfy such a model;
  - what a sound backend answer is.
- `model.dfy`: module `Model`, covering `model.py`.
- `solver.dfy`: module `Solver`, covering `solver.py`.

The state the source mutates lives in classes:

- `Model.Data` holds the roster, courses, result, enriched result, previous result, its dict cache and the
  class map.
- `Solver.Solver` holds the copies it takes at construction.

The loops of the source are methods. Each is proved equal to a specification function, and the properties
are lemmas about those functions.

The CP-SAT search is not modelled. The backend is a function parameter (`CpModel -> Answer`) assumed sound
(`Solver.BackendSound`): an optimal or feasible answer satisfies every constraint of the model it was given.
Everything proved about a pass's result follows from that.

Two details of the scores:

- The priority charge for a missing primary choice of rank `i` is `3 - i` (solver.py:258). It goes
  negative after the fourth primary choice.
- The unsolvable term counts non-empty choice and reserve entries, repeats included (solver.py:267-270).

## Model

| member | source | states |
|---|---|---|
| Model.NewCourse | model.py:16-21 | the course keeps code and size; its availability has one flag per character, true exactly for '1'; the name is the given one when non-empty and the code otherwise |
| Model.AvailabilityRoundTrip | model.py:20 | parsing the "1"/"0" rendering of availability flags gives back the flags |
| Model.AvailabilityStringRoundTrip | model.py:20 | a string of zeros and ones is rebuilt exactly from its parsed flags |
| Model.IndexOfCode | solver.py:336-340 | -1 exactly when no course has the code; otherwise the position of the first course with that code |
| Model.CourseOf | model.py:52-53 | `get_course` returns the first course of the list with the requested code |
| Model.RemainingCount | model.py:56 | each code occurs in `remaining_codes` as often as among the choices when it is non-empty and not in the result row, and otherwise not at all |
| Model.FirstAvailable | model.py:65-71 | the backfill search finds the first remaining code offered in the period; it finds none exactly when no remaining code is offered there |
| Model.FindAvailable | model.py:65-71 | the loop over the remaining codes with its `break` returns what `FirstAvailable` specifies |
| Model.SlotStepBackfill | model.py:63-78 | an empty slot takes the first remaining code offered in its period, marked not fitting; that code leaves the remaining list at that position; as written, an extra blank cell follows |
| Model.SlotStepFallback | model.py:73-78 | an empty slot with no remaining code offered in its period takes the first remaining code, or a blank when none remains |
| Model.FillSlot | model.py:60-78 | one iteration of the slot loop produces the cells and remaining list of the as-written step |
| Model.WalkSlots | model.py:58-78 | the slot loop produces the cells and remaining list of the as-written walk |
| Model.AppendTrailing | model.py:80-82 | the trailing loop appends, in order, one fitting cell per leftover code |
| Model.FromResultRecord | model.py:47-84 | `from_result_record`, with the source's loops, returns the as-written enrichment of the record (extra blank cell included) |
| Model.WalkAccounts | model.py:59-78 | after the slot loop, the fitting cells are the filled slots in order; backfilled codes plus what remains are the starting codes as a multiset |
| Model.EnrichAccounts | model.py:47-84 | the enriched row lists the filled result cells first, in order, among the fitting cells; the other fitting cells and the backfills are the choices not in the result, as a multiset |
| Model.LeftoverOnce | model.py:56-82 | with distinct choices, every choice missing from the result appears in exactly one cell, as a backfill or as a trailing cell |
| Model.EnrichReserveFlags | model.py:49-50 | every non-blank cell is flagged reserve exactly when its code is among the choices after the first `periods` |
| Model.EnrichMisaligned | model.py:73-78 | as written: two periods, courses A and B in both, choices [A, B] and result ["", B] give cells [A, blank, B], so B is not in its period's cell |
| Model.EnrichAlignedKeepsPeriods | model.py:59-78 | corrected: cell i belongs to period i for every slot; a filled slot keeps its code as a fitting cell, and an empty one is a backfill or blank |
| Model.Diffs | model.py:152-162 | the `diffs` loop computes `DiffCount` |
| Model.DiffCountZero | model.py:152-162 | `diffs` is zero exactly when the two lists are equal once `None` reads as "" |
| Model.DiffCountSymmetric | model.py:152-162 | `diffs` does not depend on the order of its arguments |
| Model.DiffCountChangeOne | model.py:157-161 | changing one agreeing cell into a different one adds exactly one difference when the cell lies in the common part, and none otherwise |
| Model.ResultToDictLast | model.py:195-196 | the dict has a key exactly for the students in the result, and maps each to its last record's courses |
| Model.PreviousLookupLast | model.py:184-196 | a previous-result lookup succeeds exactly when some previous record names the student, and yields the last such record's courses |
| Model.RosterDiffZero | model.py:170-175 | the roster loop adds nothing exactly when every roster student is in both results with equal lists |
| Model.ChangeCountZero | model.py:146-182 | the difference count is zero exactly when every roster student has equal old and new lists and no name is only in the previous result |
| Model.MissingStudentCountsOne | model.py:174-175 | a roster student missing from either result contributes exactly 1 |
| Model.PreviousOnlyCountsOne | model.py:177-180 | each name only in the previous result contributes exactly 1 |
| Model.ChangeOneCountsOne | model.py:170-175 | changing one agreeing cell of one (uniquely named) student's new row raises the count by exactly 1 |
| Model.CountRosterDiff | model.py:170-175 | the roster loop computes `RosterDiff` |
| Model.CountPreviousOnly | model.py:177-180 | the second loop counts the previous keys that are not new keys |
| Model.ChoiceErrorsEmpty | model.py:106-109 | no unknown-course error exactly when every non-empty choice of every student names a course |
| Model.PairErrorsEmpty | model.py:112-118 | no pair error in a group exactly when every pair has two entries, both roster names |
| Model.DuplicateErrorsEmpty | model.py:121-123 | no duplicate error exactly when no student's choice list repeats an entry |
| Model.ValidationErrorsEmpty | model.py:103-128 | `validate` finds no error exactly when the input is valid: known choices, well-formed pairs of roster names, no repeated choices |
| Model.CollectChoiceErrors | model.py:106-109 | the choice loops collect the unknown-course errors in order |
| Model.CollectPairErrors | model.py:112-118 | the pair loops of one group collect its errors in order |
| Model.CollectGroupErrors | model.py:111-118 | the loop over "Samen" then "Apart" collects both groups' errors in order |
| Model.CollectDuplicateErrors | model.py:121-123 | the duplicate loop collects one error per student with a repeated choice |
| Model.StudentIndex | model.py:206-207 | the position of the first roster student with the name |
| Model.AssignClassMaps | model.py:98-101 | after `add_students`, every added name maps to the class; every other name keeps its old entry |
| Model.EnrichAll | model.py:138-140 | one enriched record per result record, in order, each keeping its record's student and penalty and built from the record and its roster student with the corrected cell alignment |
| Model.Data.constructor | model.py:88-96 | an empty data set: no students, courses or results, no previous result, no cache, an empty class map; the configuration, which the source assigns right after construction, is a parameter |
| Model.Data.AddStudents | model.py:98-101 | the students are appended in order and the class map updated; nothing else changes |
| Model.Data.Validate | model.py:103-128 | fails with the error messages joined by newlines when there is any error; succeeds exactly on valid input |
| Model.Data.SetResult | model.py:135-140 | the result becomes the value and the enriched result is its record-by-record enrichment (corrected alignment, see Findings); nothing else changes |
| Model.Data.GetDifferenceCount | model.py:146-182 | returns the difference count of the previous and current results over the roster |
| Model.Data.GetPreviousResultDict | model.py:190-193 | returns the dict of the previous result and leaves it cached |
| Model.Data.GetPreviousResult | model.py:184-188 | returns the previous-result lookup whether or not the cache was filled, and keeps the cache consistent |
| Model.Data.GetCourseName | model.py:198-201 | "" for an empty code; otherwise the name of the first course with that code |
| Model.Data.GetStudent | model.py:203-204 | the first roster student with the name |
| Model.Data.IndexOfStudent | model.py:206-207 | the position of the first roster student with the name |
| Itertools.PermutationsSound | solver.py:195 | every enumerated permutation has `periods` entries drawn from the padded numbers as a sub-multiset |
| Itertools.PermutationsComplete | solver.py:195 | every arrangement of `periods` entries drawn from the padded numbers is enumerated |
| Solver.CourseNumber | solver.py:336-340 | the loop returns the first matching course's position, or -1 |
| Solver.NumberCodeRoundTrip | solver.py:336-343 | a known code comes back from its number; with distinct codes, a course number comes back from its code |
| Solver.PaddedShape | solver.py:189-193 | the padded list keeps the numbers as a prefix, adds only -1, and has at least `periods` entries, of which at least `pass` are -1 |
| Solver.PadChoices | solver.py:185-193 | the numbering and both paddings produce the padded list |
| Solver.IsValidAssignment | solver.py:211-220 | valid exactly when every placed course is offered in its period and no placed course recurs |
| Solver.NonNegativeDistinct | solver.py:217-219 | the set-size test on the placed courses succeeds exactly when no placed course recurs |
| Solver.CheckAssignment | solver.py:211-220 | the two loops decide `IsValidAssignment` |
| Solver.NonEmpty | solver.py:254 | the filtered list keeps every entry other than -1 with its multiplicity and drops every -1 |
| Solver.MissingPrimary | solver.py:256-258 | a candidate that holds every primary choice pays no priority penalty |
| Solver.MissingPrimaryDrop | solver.py:256-258 | losing the i-th non-empty primary while keeping the others costs exactly `3 - i` more |
| Solver.ReservesUsed | solver.py:260-262 | the reserve count is at most the number of reserves, and zero exactly when the candidate holds no non-empty reserve |
| Solver.Changed | solver.py:238-240 | the change count is at most the previous row's length, and zero exactly when every known previous course stays in its period |
| Solver.FilterNonEmpty | solver.py:254 | the comprehension computes `NonEmpty` |
| Solver.CountReservesUsed | solver.py:260-262 | the reserve loop computes `ReservesUsed` |
| Solver.UnsolvablePenaltyOf | solver.py:266-273 | `unsolvable_penalty` computes the squared shortfall times 10000 |
| Solver.PreferringPriority | solver.py:248-264 | the priority-preferring score is the sum of missing-primary, squared-reserve and unsolvable penalties |
| Solver.MinimizingChanges | solver.py:236-246 | the change-minimising score is the sum of changed-period, squared-reserve and unsolvable penalties |
| Solver.PreviousNumbers | solver.py:235 | the previous row's codes become course numbers, and a blank cell becomes -1 |
| Solver.ShortNonNegative | solver.py:266-273 | for a candidate drawn from the padded list, the shortfall is never negative |
| Solver.UnsolvableIncreasing | solver.py:266-273 | a candidate that fills fewer periods pays a strictly larger unsolvable penalty |
| Solver.CandidatesShortNonNegative | solver.py:195-199 | every candidate of a student has a non-negative shortfall |
| Solver.PermutationsExact | solver.py:195 | the permutations are exactly the `periods`-long sub-multisets of the padded list, in every order |
| Solver.CandidatesExact | solver.py:178-209 | a student's candidates, each listed once, are exactly the valid placements of its padded numbers, each with its penalty |
| Solver.ValidAssignments | solver.py:178-209 | one candidate list per student; every candidate has one known course number or -1 per period |
| Solver.CreateVariables | solver.py:70-74 | one variable per candidate |
| Solver.VarOfDistinct | solver.py:70-74 | every candidate has its own variable, below the variable count |
| Solver.AddExactlyOne | solver.py:81-84 | one exactly-one group per student, holding the variables of all its candidates |
| Solver.CapacityRowAt | solver.py:86-96 | the row of course c and period p bounds, by the course size, the variables of the candidates holding c in p |
| Solver.AddCapacity | solver.py:86-96 | the capacity loops emit the rows of every course and period in loop order |
| Solver.PenaltiesAt | solver.py:100-105 | the objective weighs every candidate's variable by that candidate's penalty |
| Solver.AddObjective | solver.py:100-105 | the objective loop lists every candidate variable with its penalty |
| Solver.WeightedPairs | solver.py:280-288 | together pairs weigh -5, then apart pairs +5, each resolved to the roster positions of its two names |
| Solver.TogetherPenalty | solver.py:296-299 | the weight times the number of periods where both candidates hold the same course |
| Solver.PairTermsOf | solver.py:291-308 | the two candidate loops of one pair emit its terms |
| Solver.CombinationPenalties | solver.py:275-310 | every emitted term gets a fresh variable constrained to the conjunction of its two candidate variables |
| Solver.AllPairTermsExact | solver.py:291-308 | the emitted terms are exactly one per pair and per pair of candidates sharing a course in some period; each weighs the pair weight times the shared periods and is never zero |
| Solver.BuildModel | solver.py:66-115 | `_solve` builds the model of the pass, with pair terms only in passes 0 and 1 |
| Solver.ModelWellFormed | solver.py:66-115 | the model mentions only the variables it declares |
| Solver.CapacityRespected | solver.py:81-96 | values satisfying the model select exactly one candidate per student, and no course holds more selected students than its size in any period |
| Solver.PairTermsHold | solver.py:304-306 | in satisfying values, every pair term's variable is set exactly when both of its candidates are selected |
| Solver.GetResult | solver.py:312-326 | the extraction loops list a record for every set candidate variable, student by student |
| Solver.ExtractOnePerStudent | solver.py:312-326 | under exactly-one, the result has one record per student in roster order: the student's name, its chosen candidate's codes ("" for an empty period) and that candidate's penalty |
| Solver.ExtractOneRecordEach | solver.py:312-326 | under exactly-one, each student's record comes from one of its candidates whose variable is set |
| Solver.OneRecordEachReady | solver.py:50-53 | the records of a solved pass name roster students and have a cell per period, as the `result` setter needs |
| Solver.Solver.constructor | solver.py:35-41 | the solver keeps the data, the mode and copies of periods, courses and students |
| Solver.Penalty | solver.py:222-264 | change mode with a non-empty previous row: the reserve-and-shortfall charge plus between 0 and one point per previous cell, with 0 exactly when every known previous course keeps its period; otherwise nothing beyond that charge when every non-empty primary choice is held |
| Solver.Solver.CalculatePenalty | solver.py:222-233 | change-minimising score when asked for and the student's previous row is non-empty; priority score otherwise |
| Solver.Solver.StudentCandidates | solver.py:183-208 | one student's turn produces exactly that student's candidate list |
| Solver.Solver.CreateValidAssignments | solver.py:178-209 | produces the candidate table of the pass and leaves the previous result untouched |
| Solver.Solver.SolvePass | solver.py:59-157 | the status flags follow the backend; schedulable only for a solved pass 0; an unsolved pass before 4 asks for the next; a solved pass yields one record per student from a set variable, within every capacity |
| Solver.Solver.RunPasses | solver.py:43-57 | runs passes from 0 and stops at the first solved one or after pass 4; every earlier pass was unsolved |
| Solver.Solver.Solve | solver.py:43-57 | either fails with "No solution found" when no pass 0..4 is solved, leaving the result and enriched result as they were, or stores the first solved pass's records as the data's result and their enrichment as its enriched result; only those two fields and the previous-result cache change |

## Left out

- The CP-SAT search itself is not modelled: optimality of the objective, the objective value and the 60-second time limit. The backend is a parameter assumed sound, so nothing is proved about which candidate is chosen.
- Console output, the search-progress log file and the `debug` flag are I/O.
- `_print_valid_assignments` is debug output.
- `_add_hints` is not modelled, because its only call is commented out.
- The spreadsheet import and export, the user interface, the application entry point, the helpers and the test-set generator are outside the allocation core.
- `Config.classes` is not modelled; only the periods and the pairs take part in the core.
- Python exceptions become `Result` values (`Validate`, `Solve`).
- A `StopIteration` from `next(...)` on a name that is not on the roster, or a code that is not a course, becomes a precondition. This affects `Model.StudentIndex`, `Model.CourseOf`, `Model.Data.GetStudent`, `Model.Data.IndexOfStudent`, `Model.Data.GetCourseName` and the `result` setter (`Model.ResultReady`).
- Several lookups that the source makes by list index, and that would raise `IndexError` on bad input, are preconditions here, and they are required of more input than the source consults:
  - `Model.Covers` (every course's availability list covers every period) is required by `Model.FindAvailable`, `Model.FillSlot`, `Model.WalkSlots`, `Model.FromResultRecord`, `Model.EnrichReady` and `Solver.Solver.Ready`. The source indexes only the courses it actually consults (model.py:66, solver.py:214-216).
  - `Solver.PreviousFits` requires every previous record to have no more cells than there are periods. The source fails only when a known course lies beyond the last period, because the `prev != -1` test at solver.py:239 short-circuits.
  - `Solver.Placeable` requires every course number of a candidate to be below the number of courses and every placed one to name a course whose availability list reaches that period. Where it fails, `_is_valid_assignment` (solver.py:214-216) would raise `IndexError`.
  - `Solver.Changed` requires the previous numbers to be no longer than the candidate.
  - `Solver.Solver.Ready` includes `ChoicesKnown`. `SolvePass` and `RunPasses` would not need it, since `_course_number` maps an unknown code to -1; loading the data runs `validate`, which establishes it before any solve.
- Solver.Solver.SolvePass: requires the together and apart names to be on the roster in every pass, although the source looks them up only in passes 0 and 1. `validate` rejects such input before any solve.
- Seqs.Dedup: its contract states that every candidate is listed once and none is lost. It does not state the first-occurrence order its body keeps. The variable numbering depends on that order, but no property proved here does.
- The objects that `Solver` and `Data` share are modelled as copies. The aliasing of the students and courses lists between them is not modelled.
- The source builds a new `cp_model.CpModel` object and calls its methods. Here the model is a value assembled from the same loops.

## Findings

The methods `Model.FillSlot`, `Model.WalkSlots` and `Model.FromResultRecord` reproduce the loop as written.
The enriched result that `Model.Data.SetResult` stores uses the corrected enrichment `Model.EnrichAligned`.


| source | as written | input that shows it | evidently intended | confidence | as-written member | corrected member |
|---|---|---|---|---|---|---|
| model.py:73-78 | after an availability backfill, `replaced` is true, so the `else` branch also appends a `None` cell; every later cell shifts one period to the right | periods 2; courses A and B, both offered in both periods; choices [A, B]; result row ["", B] gives cells [A, None, B] | one cell per period: a backfill replaces the empty cell, giving [A, B] | not executed | Model.EnrichMisaligned | Model.EnrichAlignedKeepsPeriods |
