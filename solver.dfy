/**
 * The allocation engine (solver.py): per student, every valid placement of its choices over the
 * periods with a penalty; the constraint model handed to the optimisation backend; the extraction
 * of the chosen placements; and the relaxation loop over passes 0 to 4.
 */
module Solver {
  import opened Wrappers
  import opened Seqs
  import opened Itertools
  import opened Model
  import opened CpSat

  const UnsolvablePenalty: int := 10000
  const ReserveWeight: int := 10
  const TogetherWeight: int := -5
  const ApartWeight: int := 5
  /** The last pass after which no further relaxation is attempted. */
  const LastPass: nat := 4

  /** A candidate: a course number per period (-1 for an empty period) and its penalty. */
  datatype Assignment = Assignment(assignment: seq<int>, penalty: int)

  datatype SolverResult = SolverResult(
    schedulable: bool,
    optimal: bool,
    feasable: bool,
    result: seq<ResultRecord>,
    nextPass: Option<nat>)

  // ---------------------------------------------------------------------------------
  // Course numbers and codes
  // ---------------------------------------------------------------------------------

  /** `_course_number`: the loop over the courses, returning at the first match. */
  method CourseNumber(courses: seq<Course>, name: string) returns (n: int)
    ensures n == IndexOfCode(courses, name)
  {
    for i := 0 to |courses|
      invariant forall j :: 0 <= j < i ==> courses[j].code != name
    {
      if courses[i].code == name {
        return i;
      }
    }
    return -1;
  }

  /** `_course_number` applied to a cell of a previous result, where a blank cell is `None`. */
  function EntryNumber(courses: seq<Course>, e: Entry): (n: int)
    ensures -1 <= n < |courses|
  {
    if e.None? then -1 else IndexOfCode(courses, e.value)
  }

  /** `[self._course_number(c) for c in names]`. */
  function CourseNumbers(courses: seq<Course>, names: seq<string>): (r: seq<int>)
    ensures |r| == |names|
    ensures forall k :: 0 <= k < |names| ==> r[k] == IndexOfCode(courses, names[k])
  {
    seq(|names|, k requires 0 <= k < |names| => IndexOfCode(courses, names[k]))
  }

  function EntryNumbers(courses: seq<Course>, entries: seq<Entry>): (r: seq<int>)
    ensures |r| == |entries|
    ensures forall k :: 0 <= k < |entries| ==> r[k] == EntryNumber(courses, entries[k])
  {
    seq(|entries|, k requires 0 <= k < |entries| => EntryNumber(courses, entries[k]))
  }

  /** `_course_code`, used for the debug listing: three spaces for an empty period. */
  function CourseCode(courses: seq<Course>, n: int): string
    requires n < |courses|
  {
    if n < 0 then "   " else courses[n].code
  }

  /** `get_course_code` inside `_get_result`: the empty string for an empty period. */
  function ResultCode(courses: seq<Course>, n: int): string
    requires n < |courses|
  {
    if n < 0 then "" else courses[n].code
  }

  predicate DistinctCodes(courses: seq<Course>) {
    forall i, j :: 0 <= i < j < |courses| ==> courses[i].code != courses[j].code
  }

  /**
   * Numbers and codes translate into each other: a known code comes back from its number, and with
   * distinct codes a course number comes back from its code (for the result and the debug listing alike).
   */
  lemma NumberCodeRoundTrip(courses: seq<Course>, name: string, n: int)
    ensures IsCourseCode(courses, name) ==> ResultCode(courses, IndexOfCode(courses, name)) == name
    ensures IsCourseCode(courses, name) ==> CourseCode(courses, IndexOfCode(courses, name)) == name
    ensures DistinctCodes(courses) && 0 <= n < |courses| ==>
      IndexOfCode(courses, ResultCode(courses, n)) == n && IndexOfCode(courses, CourseCode(courses, n)) == n
  {
    if DistinctCodes(courses) && 0 <= n < |courses| {
      assert IsCourseCode(courses, courses[n].code);
    }
  }

  // ---------------------------------------------------------------------------------
  // Padding of the course numbers
  // ---------------------------------------------------------------------------------

  /** `[-1] * n`: empty when `n` is not positive. */
  function Blanks(n: int): (r: seq<int>)
    ensures |r| == if n > 0 then n else 0
    ensures forall k :: 0 <= k < |r| ==> r[k] == -1
  {
    if n > 0 then seq(n, _ => -1) else []
  }

  /** The course numbers extended with -1 up to `periods` entries, then until `pass` of them are -1. */
  function Padded(numbers: seq<int>, periods: nat, pass: nat): (r: seq<int>)
    ensures forall x :: x in r ==> x == -1 || x in numbers
  {
    var upToPeriods := numbers + Blanks(periods - |numbers|);
    upToPeriods + Blanks(pass - multiset(upToPeriods)[-1])
  }

  /** The padded list keeps the numbers as a prefix, only adds -1, has at least `periods` entries and at least `pass` of them -1. */
  lemma PaddedShape(numbers: seq<int>, periods: nat, pass: nat)
    ensures var r := Padded(numbers, periods, pass);
      |r| >= |numbers| && r[..|numbers|] == numbers &&
      (forall k :: |numbers| <= k < |r| ==> r[k] == -1) &&
      |r| >= periods && multiset(r)[-1] >= pass
  {
    var up := numbers + Blanks(periods - |numbers|);
    var count := multiset(up)[-1];
    var more := Blanks(pass - count);
    assert Padded(numbers, periods, pass) == up + more;
    PaddedTail(numbers, Blanks(periods - |numbers|), more);
    BlanksCount(more);
    assert multiset(up + more) == multiset(up) + multiset(more);
    assert multiset(up + more)[-1] == count + |more|;
  }

  lemma PaddedTail(numbers: seq<int>, blanks: seq<int>, more: seq<int>)
    requires forall k :: 0 <= k < |blanks| ==> blanks[k] == -1
    requires forall k :: 0 <= k < |more| ==> more[k] == -1
    ensures var r := numbers + blanks + more;
      r[..|numbers|] == numbers && forall k :: |numbers| <= k < |r| ==> r[k] == -1
  {
    var r := numbers + blanks + more;
    assert r[..|numbers|] == numbers by {
      assert r == numbers + (blanks + more);
    }
    forall k | |numbers| <= k < |r|
      ensures r[k] == -1
    {
      if k < |numbers| + |blanks| {
        assert r[k] == blanks[k - |numbers|];
      } else {
        assert r[k] == more[k - |numbers| - |blanks|];
      }
    }
  }

  lemma {:induction false} BlanksCount(s: seq<int>)
    requires forall k :: 0 <= k < |s| ==> s[k] == -1
    ensures multiset(s)[-1] == |s|
  {
    if s != [] {
      assert s == s[..|s| - 1] + [-1];
      BlanksCount(s[..|s| - 1]);
    }
  }

  // ---------------------------------------------------------------------------------
  // _is_valid_assignment
  // ---------------------------------------------------------------------------------

  /** The non-negative entries, in order. */
  function NonNegative(a: seq<int>): (r: seq<int>)
    ensures forall x :: x in r <==> x in a && x >= 0
  {
    if a == [] then []
    else NonNegative(a[..|a| - 1]) + (if a[|a| - 1] >= 0 then [a[|a| - 1]] else [])
  }

  /** Course numbers are -1 or name a course whose availability covers every period. */
  predicate Placeable(courses: seq<Course>, a: seq<int>) {
    forall p :: 0 <= p < |a| ==> a[p] < |courses| && (a[p] >= 0 ==> |courses[a[p]].availability| > p)
  }

  /**
   * `_is_valid_assignment`: no course in a period where it is not offered, and no course twice
   * (decided, as the source does, by comparing the size of the set with the length of the list).
   */
  function IsValidAssignment(courses: seq<Course>, a: seq<int>): (valid: bool)
    requires Placeable(courses, a)
    ensures valid <==>
      (forall p :: 0 <= p < |a| && a[p] >= 0 ==> courses[a[p]].availability[p]) && NoPlacedRepeat(a)
  {
    var placed := NonNegative(a);
    ToSetCardinality(placed);
    NonNegativeDistinct(a);
    (forall p :: 0 <= p < |a| && a[p] >= 0 ==> courses[a[p]].availability[p]) &&
    !(|ToSet(placed)| < |placed|)
  }

  /** No placed course number recurs later in the list. */
  predicate NoPlacedRepeat(a: seq<int>) {
    forall p, q :: 0 <= p < q < |a| && a[p] >= 0 ==> a[p] != a[q]
  }

  lemma NoPlacedRepeatInit(a: seq<int>)
    requires a != []
    ensures NoPlacedRepeat(a) <==>
      NoPlacedRepeat(a[..|a| - 1]) && forall p :: 0 <= p < |a| - 1 && a[p] >= 0 ==> a[p] != a[|a| - 1]
  {
    assert forall p :: 0 <= p < |a| - 1 ==> a[p] == a[..|a| - 1][p];
  }

  lemma {:induction false} NonNegativeDistinct(a: seq<int>)
    ensures Distinct(NonNegative(a)) <==> NoPlacedRepeat(a)
  {
    if a != [] {
      var init := a[..|a| - 1];
      var x := a[|a| - 1];
      NonNegativeDistinct(init);
      NoPlacedRepeatInit(a);
      var r0 := NonNegative(init);
      if x >= 0 {
        assert NonNegative(a) == r0 + [x];
        DistinctSnoc(r0, x);
        assert x in r0 <==> x in init;
        assert x in init <==> exists p :: 0 <= p < |a| - 1 && a[p] == x by {
          assert forall p :: 0 <= p < |a| - 1 ==> a[p] == init[p];
        }
      } else {
        assert NonNegative(a) == r0;
      }
    }
  }



  // ---------------------------------------------------------------------------------
  // Penalties
  // ---------------------------------------------------------------------------------

  /** The entries other than -1, in order (`[c for c in s if c != -1]`). */
  function NonEmpty(s: seq<int>): (r: seq<int>)
    ensures |r| == |s| - multiset(s)[-1]
    ensures multiset(r) == multiset(s)[-1 := 0]
    ensures forall x :: x in r <==> x in s && x != -1
  {
    if s == [] then []
    else
      InitLast(s);
      NonEmpty(s[..|s| - 1]) + (if s[|s| - 1] != -1 then [s[|s| - 1]] else [])
  }

  /** The loop over the primary choices: `3 - i` for the `i`-th primary that the candidate does not hold. */
  function MissingPrimary(a: seq<int>, ordered: seq<int>): (r: int)
    ensures (forall k :: 0 <= k < |ordered| ==> ordered[k] in a) ==> r == 0
  {
    if ordered == [] then 0
    else
      var i := |ordered| - 1;
      MissingPrimary(a, ordered[..i]) + (if ordered[i] !in a then 3 - i else 0)
  }

  /** The loop over the reserves: how many non-empty reserve entries the candidate holds. */
  function ReservesUsed(a: seq<int>, reserve: seq<int>): (r: nat)
    ensures r <= |reserve|
    ensures r == 0 <==> forall k :: 0 <= k < |reserve| && reserve[k] != -1 ==> reserve[k] !in a
  {
    if reserve == [] then 0
    else
      var i := |reserve| - 1;
      assert forall k :: 0 <= k < i ==> reserve[k] == reserve[..i][k];
      ReservesUsed(a, reserve[..i]) + (if reserve[i] != -1 && reserve[i] in a then 1 else 0)
  }

  function Min(x: int, y: int): int {
    if x <= y then x else y
  }

  /** `short` in `unsolvable_penalty`: the placeable choices (at most one per period) the candidate leaves out. */
  function Short(periods: nat, a: seq<int>, choices: seq<int>, reserve: seq<int>): int {
    Min(periods, |NonEmpty(choices)| + |NonEmpty(reserve)|) - |NonEmpty(a)|
  }

  /** `unsolvable_penalty`. */
  function Unsolvable(periods: nat, a: seq<int>, choices: seq<int>, reserve: seq<int>): int {
    var short := Short(periods, a, choices, reserve);
    short * short * UnsolvablePenalty
  }

  /** `reserves_used ** 2 * 10`. */
  function ReservePenalty(a: seq<int>, reserve: seq<int>): int {
    var used := ReservesUsed(a, reserve);
    used * used * ReserveWeight
  }

  /** `_calculate_penalty_preferring_priority`. */
  function PriorityPenalty(periods: nat, a: seq<int>, choices: seq<int>, reserve: seq<int>): int {
    MissingPrimary(a, NonEmpty(choices)) + ReservePenalty(a, reserve) + Unsolvable(periods, a, choices, reserve)
  }

  /** The loop over the previous course numbers: a known previous course that the candidate does not keep in its period. */
  function Changed(a: seq<int>, prev: seq<int>): (r: nat)
    requires |prev| <= |a|
    ensures r <= |prev|
    ensures r == 0 <==> forall k :: 0 <= k < |prev| ==> prev[k] == -1 || prev[k] == a[k]
  {
    if prev == [] then 0
    else
      var i := |prev| - 1;
      assert forall k :: 0 <= k < i ==> prev[k] == prev[..i][k];
      Changed(a, prev[..i]) + (if prev[i] != -1 && prev[i] != a[i] then 1 else 0)
  }

  /** `_calculate_penalty_minimizing_changes` once a previous record was found. */
  function ChangePenalty(periods: nat, a: seq<int>, choices: seq<int>, reserve: seq<int>, prev: seq<int>): int
    requires |prev| <= |a|
  {
    Changed(a, prev) + ReservePenalty(a, reserve) + Unsolvable(periods, a, choices, reserve)
  }

  /**
   * `_calculate_penalty`: the change-minimising score when asked for and the student has a non-empty
   * previous record, the priority score otherwise.
   */
  function Penalty(minimize: bool, periods: nat, courses: seq<Course>, a: seq<int>, choices: seq<int>,
                   reserve: seq<int>, prev: Option<seq<Entry>>): (r: int)
    requires prev.Some? ==> |prev.value| <= |a|
    // change mode: one point per known previous course that moves, so the score sits between the
    // reserve-and-shortfall charge and that charge plus the record's length, at the bottom exactly
    // when every known previous course keeps its period
    ensures minimize && prev.Some? && prev.value != [] ==>
      ReservePenalty(a, reserve) + Unsolvable(periods, a, choices, reserve) <= r <=
      ReservePenalty(a, reserve) + Unsolvable(periods, a, choices, reserve) + |prev.value|
    ensures minimize && prev.Some? && prev.value != [] ==>
      (r == ReservePenalty(a, reserve) + Unsolvable(periods, a, choices, reserve) <==>
       forall k :: 0 <= k < |prev.value| ==> EntryNumber(courses, prev.value[k]) == -1 || EntryNumber(courses, prev.value[k]) == a[k])
    // priority mode (or no previous record): holding every non-empty primary choice costs nothing beyond
    // the reserve-and-shortfall charge
    ensures (!minimize || prev.None? || prev.value == []) && (forall x :: x in NonEmpty(choices) ==> x in a) ==>
      r == ReservePenalty(a, reserve) + Unsolvable(periods, a, choices, reserve)
  {
    if minimize && prev.Some? && prev.value != [] then
      ChangePenalty(periods, a, choices, reserve, EntryNumbers(courses, prev.value))
    else
      var ordered := NonEmpty(choices);
      assert (forall x :: x in ordered ==> x in a) ==> forall k :: 0 <= k < |ordered| ==> ordered[k] in a;
      PriorityPenalty(periods, a, choices, reserve)
  }

  /**
   * The priority score charges exactly `3 - i` for losing the `i`-th non-empty primary choice: a
   * candidate that misses that choice and otherwise holds the same primaries scores `3 - i` more.
   */
  lemma {:induction false} MissingPrimaryDrop(a: seq<int>, b: seq<int>, ordered: seq<int>, i: nat)
    requires i < |ordered| && ordered[i] in a && ordered[i] !in b
    requires forall j :: 0 <= j < |ordered| && j != i ==> (ordered[j] in a <==> ordered[j] in b)
    ensures MissingPrimary(b, ordered) == MissingPrimary(a, ordered) + 3 - i
  {
    var n := |ordered| - 1;
    if n == i {
      MissingPrimarySame(a, b, ordered[..n]);
    } else {
      MissingPrimaryDrop(a, b, ordered[..n], i);
    }
  }

  lemma {:induction false} MissingPrimarySame(a: seq<int>, b: seq<int>, ordered: seq<int>)
    requires forall j :: 0 <= j < |ordered| ==> (ordered[j] in a <==> ordered[j] in b)
    ensures MissingPrimary(b, ordered) == MissingPrimary(a, ordered)
  {
    if ordered != [] {
      MissingPrimarySame(a, b, ordered[..|ordered| - 1]);
    }
  }

  /** Counting non-empty entries respects sub-multisets: a candidate drawn from a list holds at most its non-empty entries. */
  lemma NonEmptySubMultiset(a: seq<int>, s: seq<int>)
    requires multiset(a) <= multiset(s)
    ensures |NonEmpty(a)| <= |NonEmpty(s)|
  {
    var small, large := multiset(NonEmpty(a)), multiset(NonEmpty(s));
    assert small <= large;
    assert large == small + (large - small);
  }

  /** For a candidate drawn from the padded list, `short` is never negative. */
  lemma ShortNonNegative(periods: nat, a: seq<int>, padded: seq<int>)
    requires |a| == periods && periods <= |padded|
    requires multiset(a) <= multiset(padded)
    ensures Short(periods, a, padded[..periods], padded[periods..]) >= 0
  {
    var choices, reserve := padded[..periods], padded[periods..];
    assert padded == choices + reserve;
    assert multiset(padded)[-1] == multiset(choices)[-1] + multiset(reserve)[-1];
    NonEmptySubMultiset(a, padded);
  }

  /** A candidate that fills fewer periods pays a strictly larger unsolvable penalty. */
  lemma UnsolvableIncreasing(periods: nat, a: seq<int>, b: seq<int>, choices: seq<int>, reserve: seq<int>)
    requires Short(periods, a, choices, reserve) >= 0
    requires |NonEmpty(b)| < |NonEmpty(a)|
    ensures Unsolvable(periods, b, choices, reserve) > Unsolvable(periods, a, choices, reserve)
  {
    var s, t := Short(periods, a, choices, reserve), Short(periods, b, choices, reserve);
    SquareLess(s, t);
  }

  lemma SquareLess(s: int, t: int)
    requires 0 <= s < t
    ensures s * s * UnsolvablePenalty < t * t * UnsolvablePenalty
  {
    assert s * s <= s * t;
    assert s * t < t * t;
  }

  // ---------------------------------------------------------------------------------
  // Penalty computations as the source runs them
  // ---------------------------------------------------------------------------------

  /** `[c for c in s if c != -1]`. */
  method FilterNonEmpty(s: seq<int>) returns (r: seq<int>)
    ensures r == NonEmpty(s)
  {
    r := [];
    for k := 0 to |s|
      invariant r == NonEmpty(s[..k])
    {
      PrefixStep(s, k);
      if s[k] != -1 {
        r := r + [s[k]];
      }
    }
    WholePrefix(s);
  }

  /** The reserve loop shared by both penalty modes. */
  method CountReservesUsed(a: seq<int>, reserve: seq<int>) returns (used: nat)
    ensures used == ReservesUsed(a, reserve)
  {
    used := 0;
    for k := 0 to |reserve|
      invariant used == ReservesUsed(a, reserve[..k])
    {
      PrefixStep(reserve, k);
      if reserve[k] != -1 && reserve[k] in a {
        used := used + 1;
      }
    }
    WholePrefix(reserve);
  }

  /** `unsolvable_penalty`. */
  method UnsolvablePenaltyOf(periods: nat, a: seq<int>, choices: seq<int>, reserve: seq<int>) returns (penalty: int)
    ensures penalty == Unsolvable(periods, a, choices, reserve)
  {
    var placed := FilterNonEmpty(a);
    var chosen := FilterNonEmpty(choices);
    var reserved := FilterNonEmpty(reserve);
    var choiceCount := |chosen| + |reserved|;
    var assignable := if periods <= choiceCount then periods else choiceCount;
    var short := assignable - |placed|;
    assert short == Short(periods, a, choices, reserve);
    penalty := short * short * UnsolvablePenalty;
  }

  /** `_calculate_penalty_preferring_priority`. */
  method PreferringPriority(periods: nat, a: seq<int>, choices: seq<int>, reserve: seq<int>) returns (penalty: int)
    ensures penalty == PriorityPenalty(periods, a, choices, reserve)
  {
    var ordered := FilterNonEmpty(choices);
    penalty := 0;
    for i := 0 to |ordered|
      invariant penalty == MissingPrimary(a, ordered[..i])
    {
      PrefixStep(ordered, i);
      if ordered[i] !in a {
        penalty := penalty + (3 - i);
      }
    }
    WholePrefix(ordered);
    var used := CountReservesUsed(a, reserve);
    var unsolvable := UnsolvablePenaltyOf(periods, a, choices, reserve);
    penalty := penalty + used * used * ReserveWeight + unsolvable;
  }

  /** `_calculate_penalty_minimizing_changes` once the previous course numbers are known. */
  method MinimizingChanges(periods: nat, a: seq<int>, choices: seq<int>, reserve: seq<int>, prev: seq<int>)
    returns (penalty: int)
    requires |prev| <= |a|
    ensures penalty == ChangePenalty(periods, a, choices, reserve, prev)
  {
    penalty := 0;
    for idx := 0 to |prev|
      invariant penalty == Changed(a, prev[..idx])
    {
      PrefixStep(prev, idx);
      if prev[idx] != -1 && prev[idx] != a[idx] {
        penalty := penalty + 1;
      }
    }
    WholePrefix(prev);
    var used := CountReservesUsed(a, reserve);
    var unsolvable := UnsolvablePenaltyOf(periods, a, choices, reserve);
    penalty := penalty + used * used * ReserveWeight + unsolvable;
  }

  /** `[self._course_number(c) for c in names]` over a previous record, where a blank cell matches no course. */
  method PreviousNumbers(courses: seq<Course>, names: seq<Entry>) returns (numbers: seq<int>)
    ensures numbers == EntryNumbers(courses, names)
  {
    numbers := [];
    for k := 0 to |names|
      invariant |numbers| == k
      invariant forall j :: 0 <= j < k ==> numbers[j] == EntryNumber(courses, names[j])
    {
      var n := -1;
      if names[k].Some? {
        n := CourseNumber(courses, names[k].value);
      }
      numbers := numbers + [n];
    }
  }

  /** `_is_valid_assignment`: the availability loop, then the duplicate test on the placed courses. */
  method CheckAssignment(courses: seq<Course>, a: seq<int>) returns (valid: bool)
    requires Placeable(courses, a)
    ensures valid == IsValidAssignment(courses, a)
  {
    for p := 0 to |a|
      invariant forall q :: 0 <= q < p && a[q] >= 0 ==> courses[a[q]].availability[q]
    {
      if a[p] >= 0 && !courses[a[p]].availability[p] {
        return false;
      }
    }
    var placed := [];
    for p := 0 to |a|
      invariant placed == NonNegative(a[..p])
    {
      PrefixStep(a, p);
      if a[p] >= 0 {
        placed := placed + [a[p]];
      }
    }
    WholePrefix(a);
    ToSetCardinality(placed);
    NonNegativeDistinct(a);
    valid := !(|ToSet(placed)| < |placed|);
  }

  // ---------------------------------------------------------------------------------
  // Candidates
  // ---------------------------------------------------------------------------------

  /** A previous result fits the periods: no record has more cells than there are periods. */
  predicate PreviousFits(previous: Option<seq<ResultRecord>>, periods: nat) {
    previous.Some? ==> forall j :: 0 <= j < |previous.value| ==> |previous.value[j].courses| <= periods
  }

  lemma PreviousLookupFits(previous: Option<seq<ResultRecord>>, periods: nat, name: string)
    requires PreviousFits(previous, periods)
    ensures PreviousLookup(previous, name).Some? ==> |PreviousLookup(previous, name).value| <= periods
  {
    PreviousLookupLast(previous, name);
  }

  /** The previous record of a student, known to be no longer than the periods. */
  function FittedLookup(previous: Option<seq<ResultRecord>>, periods: nat, name: string): (prev: Option<seq<Entry>>)
    requires PreviousFits(previous, periods)
    ensures prev == PreviousLookup(previous, name)
    ensures prev.Some? ==> |prev.value| <= periods
  {
    PreviousLookupFits(previous, periods, name);
    PreviousLookup(previous, name)
  }

  /** The student's course numbers after both paddings. */
  function Padding(courses: seq<Course>, choices: seq<string>, periods: nat, pass: nat): seq<int> {
    Padded(CourseNumbers(courses, choices), periods, pass)
  }

  /**
   * The permutations that pass `_is_valid_assignment`, each with its penalty, in enumeration order.
   * The primaries are the first `periods` padded numbers, the reserves the rest.
   */
  function ScoreValid(courses: seq<Course>, perms: seq<seq<int>>, minimize: bool, periods: nat, padded: seq<int>,
                      prev: Option<seq<Entry>>): (r: seq<Assignment>)
    requires periods <= |padded|
    requires forall k :: 0 <= k < |perms| ==> |perms[k]| == periods && Placeable(courses, perms[k])
    requires prev.Some? ==> |prev.value| <= periods
    ensures forall x :: x in r <==>
      x.assignment in perms && IsValidAssignment(courses, x.assignment) &&
      x.penalty == Penalty(minimize, periods, courses, x.assignment, padded[..periods], padded[periods..], prev)
  {
    if perms == [] then []
    else
      var n := |perms| - 1;
      var a := perms[n];
      assert perms == perms[..n] + [a];
      var init := ScoreValid(courses, perms[..n], minimize, periods, padded, prev);
      init + (if IsValidAssignment(courses, a)
              then [Assignment(a, Penalty(minimize, periods, courses, a, padded[..periods], padded[periods..], prev))]
              else [])
  }

  /** Scoring one more permutation appends it, with its penalty, exactly when it is valid. */
  lemma ScoreValidStep(courses: seq<Course>, perms: seq<seq<int>>, k: nat, minimize: bool, periods: nat, padded: seq<int>,
                       prev: Option<seq<Entry>>)
    requires periods <= |padded| && k < |perms|
    requires forall j :: 0 <= j < |perms| ==> |perms[j]| == periods && Placeable(courses, perms[j])
    requires prev.Some? ==> |prev.value| <= periods
    ensures ScoreValid(courses, perms[..k + 1], minimize, periods, padded, prev) ==
      ScoreValid(courses, perms[..k], minimize, periods, padded, prev) +
      (if IsValidAssignment(courses, perms[k])
       then [Assignment(perms[k], Penalty(minimize, periods, courses, perms[k], padded[..periods], padded[periods..], prev))]
       else [])
  {
    PrefixStep(perms, k);
  }

  /** Every permutation of the padded numbers is a list of placeable course numbers. */
  lemma PermutationsPlaceable(courses: seq<Course>, choices: seq<string>, periods: nat, pass: nat)
    requires Covers(courses, periods)
    ensures forall k :: 0 <= k < |Permutations(Padding(courses, choices, periods, pass), periods)| ==>
      |Permutations(Padding(courses, choices, periods, pass), periods)[k]| == periods &&
      Placeable(courses, Permutations(Padding(courses, choices, periods, pass), periods)[k])
  {
    var padded := Padding(courses, choices, periods, pass);
    var perms := Permutations(padded, periods);
    forall k | 0 <= k < |perms| ensures |perms[k]| == periods && Placeable(courses, perms[k]) {
      PermutationsSound(padded, periods, perms[k]);
      forall p | 0 <= p < |perms[k]| ensures -1 <= perms[k][p] < |courses| {
        assert perms[k][p] in multiset(perms[k]);
        assert perms[k][p] in padded;
      }
    }
  }

  /** `_create_valid_assignments` for one student, given its record in the previous result. */
  function Candidates(minimize: bool, periods: nat, courses: seq<Course>, choices: seq<string>,
                      prev: Option<seq<Entry>>, pass: nat): seq<Assignment>
    requires Covers(courses, periods)
    requires prev.Some? ==> |prev.value| <= periods
  {
    PaddedShape(CourseNumbers(courses, choices), periods, pass);
    PermutationsPlaceable(courses, choices, periods, pass);
    Dedup(ScoreValid(courses, Permutations(Padding(courses, choices, periods, pass), periods), minimize, periods,
                     Padding(courses, choices, periods, pass), prev))
  }

  /**
   * The candidates of a student are exactly the placements of `periods` of its padded numbers that
   * put no course where it is not offered and no course twice, each with its penalty, listed once.
   */
  lemma CandidatesExact(minimize: bool, periods: nat, courses: seq<Course>, choices: seq<string>,
                        prev: Option<seq<Entry>>, pass: nat)
    requires Covers(courses, periods)
    requires prev.Some? ==> |prev.value| <= periods
    ensures Distinct(Candidates(minimize, periods, courses, choices, prev, pass))
    ensures var padded := Padding(courses, choices, periods, pass);
      forall x :: x in Candidates(minimize, periods, courses, choices, prev, pass) <==>
        |x.assignment| == periods && multiset(x.assignment) <= multiset(padded) &&
        Placeable(courses, x.assignment) && IsValidAssignment(courses, x.assignment) &&
        x.penalty == Penalty(minimize, periods, courses, x.assignment, padded[..periods], padded[periods..], prev)
  {
    var padded := Padding(courses, choices, periods, pass);
    PaddedShape(CourseNumbers(courses, choices), periods, pass);
    PermutationsPlaceable(courses, choices, periods, pass);
    PermutationsExact(padded, periods);
  }

  lemma PermutationsExact(padded: seq<int>, periods: nat)
    ensures forall x :: x in Permutations(padded, periods) <==> |x| == periods && multiset(x) <= multiset(padded)
  {
    forall x: seq<int> ensures x in Permutations(padded, periods) <==> |x| == periods && multiset(x) <= multiset(padded) {
      if x in Permutations(padded, periods) {
        PermutationsSound(padded, periods, x);
      }
      if |x| == periods && multiset(x) <= multiset(padded) {
        PermutationsComplete(padded, periods, x);
      }
    }
  }

  /** Every candidate fills at most the periods its student can fill: its unsolvable penalty is `short² · 10000` with `short >= 0`. */
  lemma CandidatesShortNonNegative(minimize: bool, periods: nat, courses: seq<Course>, choices: seq<string>,
                                   prev: Option<seq<Entry>>, pass: nat, x: Assignment)
    requires Covers(courses, periods)
    requires prev.Some? ==> |prev.value| <= periods
    requires x in Candidates(minimize, periods, courses, choices, prev, pass)
    ensures var padded := Padding(courses, choices, periods, pass);
      Short(periods, x.assignment, padded[..periods], padded[periods..]) >= 0
  {
    CandidatesExact(minimize, periods, courses, choices, prev, pass);
    var padded := Padding(courses, choices, periods, pass);
    PaddedShape(CourseNumbers(courses, choices), periods, pass);
    ShortNonNegative(periods, x.assignment, padded);
  }

  // ---------------------------------------------------------------------------------
  // Variables: the `assignment` dict of `_solve`
  // ---------------------------------------------------------------------------------

  /** Each candidate is a list of `periods` placeable course numbers. */
  predicate WellShaped(valid: seq<seq<Assignment>>, courses: seq<Course>, periods: nat) {
    forall s, i :: 0 <= s < |valid| && 0 <= i < |valid[s]| ==>
      |valid[s][i].assignment| == periods && Placeable(courses, valid[s][i].assignment)
  }

  /** Each candidate has one entry per period. */
  predicate Sized(valid: seq<seq<Assignment>>, periods: nat) {
    forall s, i :: 0 <= s < |valid| && 0 <= i < |valid[s]| ==> |valid[s][i].assignment| == periods
  }

  /** How many variables the students before `s` received. */
  function Offset(valid: seq<seq<Assignment>>, s: nat): nat
    requires s <= |valid|
  {
    if s == 0 then 0 else Offset(valid, s - 1) + |valid[s - 1]|
  }

  /** `assignment[(s, i)]`: the variables are created student by student, candidate by candidate. */
  function VarOf(valid: seq<seq<Assignment>>, s: nat, i: nat): (v: nat)
    requires s < |valid| && i < |valid[s]|
    ensures v < VarCount(valid)
  {
    OffsetMonotone(valid, s + 1, |valid|);
    Offset(valid, s) + i
  }

  function VarCount(valid: seq<seq<Assignment>>): nat {
    Offset(valid, |valid|)
  }

  lemma {:induction false} OffsetMonotone(valid: seq<seq<Assignment>>, s: nat, t: nat)
    requires s <= t <= |valid|
    ensures Offset(valid, s) <= Offset(valid, t)
    decreases t - s
  {
    if s < t {
      OffsetMonotone(valid, s, t - 1);
    }
  }

  /** Every candidate has a variable of its own, and all of them are below the variable count. */
  lemma VarOfDistinct(valid: seq<seq<Assignment>>, s: nat, i: nat, t: nat, j: nat)
    requires s < |valid| && i < |valid[s]| && t < |valid| && j < |valid[t]|
    ensures VarOf(valid, s, i) < VarCount(valid)
    ensures VarOf(valid, s, i) == VarOf(valid, t, j) ==> s == t && i == j
  {
    OffsetMonotone(valid, s + 1, |valid|);
    if s < t {
      OffsetMonotone(valid, s + 1, t);
    } else if t < s {
      OffsetMonotone(valid, t + 1, s);
    }
  }

  /** The variable-creation loop: one new variable per candidate. */
  method CreateVariables(valid: seq<seq<Assignment>>) returns (numVars: nat)
    ensures numVars == VarCount(valid)
  {
    numVars := 0;
    for s := 0 to |valid|
      invariant numVars == Offset(valid, s)
    {
      for i := 0 to |valid[s]|
        invariant numVars == Offset(valid, s) + i
      {
        numVars := numVars + 1;
      }
    }
  }

  // ---------------------------------------------------------------------------------
  // Exactly one candidate per student
  // ---------------------------------------------------------------------------------

  /** The variables of the first `n` candidates of student `s`. */
  function Group(valid: seq<seq<Assignment>>, s: nat, n: nat): (r: seq<nat>)
    requires s < |valid| && n <= |valid[s]|
    ensures |r| == n && forall i :: 0 <= i < n ==> r[i] == VarOf(valid, s, i)
  {
    if n == 0 then [] else Group(valid, s, n - 1) + [VarOf(valid, s, n - 1)]
  }

  function ExactlyOneGroups(valid: seq<seq<Assignment>>): (r: seq<seq<nat>>)
    ensures |r| == |valid| && forall s {:trigger r[s]} :: 0 <= s < |valid| ==> r[s] == Group(valid, s, |valid[s]|)
  {
    seq(|valid|, s requires 0 <= s < |valid| => Group(valid, s, |valid[s]|))
  }

  /** The `AddExactlyOne` loop: one group per student, holding the variables of all its candidates. */
  method AddExactlyOne(valid: seq<seq<Assignment>>) returns (groups: seq<seq<nat>>)
    ensures groups == ExactlyOneGroups(valid)
  {
    groups := [];
    for s := 0 to |valid|
      invariant |groups| == s && forall t :: 0 <= t < s ==> groups[t] == Group(valid, t, |valid[t]|)
    {
      var group := [];
      for i := 0 to |valid[s]|
        invariant group == Group(valid, s, i)
      {
        group := group + [VarOf(valid, s, i)];
      }
      groups := groups + [group];
    }
  }

  // ---------------------------------------------------------------------------------
  // Capacity
  // ---------------------------------------------------------------------------------

  /** The variables of the first `n` candidates of student `s` that put course `c` in period `p`. */
  function HoldIn(valid: seq<seq<Assignment>>, periods: nat, s: nat, c: nat, p: nat, n: nat): seq<nat>
    requires s < |valid| && n <= |valid[s]| && p < periods
    requires forall i :: 0 <= i < |valid[s]| ==> |valid[s][i].assignment| == periods
  {
    if n == 0 then []
    else HoldIn(valid, periods, s, c, p, n - 1) + (if valid[s][n - 1].assignment[p] == c then [VarOf(valid, s, n - 1)] else [])
  }

  /** `in_assignemnts` over the first `n` students: every variable that puts course `c` in period `p`. */
  function Holding(valid: seq<seq<Assignment>>, periods: nat, c: nat, p: nat, n: nat): seq<nat>
    requires n <= |valid| && p < periods
    requires Sized(valid, periods)
  {
    if n == 0 then []
    else Holding(valid, periods, c, p, n - 1) + HoldIn(valid, periods, n - 1, c, p, |valid[n - 1]|)
  }

  /** The capacity rows of the first `n` courses: one per course and period, in loop order. */
  function CapacityRows(valid: seq<seq<Assignment>>, courses: seq<Course>, periods: nat, n: nat): (r: seq<AtMost>)
    requires n <= |courses|
    requires Sized(valid, periods)
    ensures |r| == n * periods
  {
    if n == 0 then []
    else
      CapacityRows(valid, courses, periods, n - 1) +
      seq(periods, p requires 0 <= p < periods => AtMost(Holding(valid, periods, n - 1, p, |valid|), courses[n - 1].size))
  }

  /** The row of course `c` and period `p` bounds the variables holding `c` in `p` by the course size. */
  lemma {:induction false} CapacityRowAt(valid: seq<seq<Assignment>>, courses: seq<Course>, periods: nat, n: nat, c: nat, p: nat)
    requires n <= |courses| && c < n && p < periods
    requires Sized(valid, periods)
    ensures c * periods + p < n * periods
    ensures CapacityRows(valid, courses, periods, n)[c * periods + p] ==
      AtMost(Holding(valid, periods, c, p, |valid|), courses[c].size)
  {
    assert (n - 1) * periods + periods == n * periods;
    if c < n - 1 {
      CapacityRowAt(valid, courses, periods, n - 1, c, p);
    } else {
      assert c * periods + p - (n - 1) * periods == p;
    }
  }

  /** The row of course `c` and period `p`, without the arithmetic of its position. */
  lemma CapacityRowIndex(valid: seq<seq<Assignment>>, courses: seq<Course>, periods: nat, c: nat, p: nat) returns (k: nat)
    requires c < |courses| && p < periods
    requires forall s, i :: 0 <= s < |valid| && 0 <= i < |valid[s]| ==> |valid[s][i].assignment| == periods
    ensures k < |CapacityRows(valid, courses, periods, |courses|)|
    ensures CapacityRows(valid, courses, periods, |courses|)[k] == AtMost(Holding(valid, periods, c, p, |valid|), courses[c].size)
  {
    CapacityRowAt(valid, courses, periods, |courses|, c, p);
    k := c * periods + p;
  }

  /** Every capacity row is the row of some course and period. */
  lemma CapacityRowCourse(valid: seq<seq<Assignment>>, courses: seq<Course>, periods: nat, r: nat) returns (c: nat, p: nat)
    requires forall s, i :: 0 <= s < |valid| && 0 <= i < |valid[s]| ==> |valid[s][i].assignment| == periods
    requires r < |CapacityRows(valid, courses, periods, |courses|)|
    ensures c < |courses| && p < periods
    ensures CapacityRows(valid, courses, periods, |courses|)[r] == AtMost(Holding(valid, periods, c, p, |valid|), courses[c].size)
  {
    c, p := RowPosition(r, periods, |courses|);
    CapacityRowAt(valid, courses, periods, |courses|, c, p);
  }

  /** Row `r` of `n` blocks of `periods` rows lies in block `r / periods` at offset `r % periods`. */
  lemma RowPosition(r: nat, periods: nat, n: nat) returns (c: nat, p: nat)
    requires r < n * periods
    ensures c < n && p < periods && r == c * periods + p
  {
    assert periods > 0;
    c, p := r / periods, r % periods;
    assert r == c * periods + p;
  }

  /** The capacity loops: for every course and period, the holding variables add up to at most the course size. */
  method AddCapacity(valid: seq<seq<Assignment>>, courses: seq<Course>, periods: nat) returns (atMost: seq<AtMost>)
    requires Sized(valid, periods)
    ensures atMost == CapacityRows(valid, courses, periods, |courses|)
  {
    atMost := [];
    for c := 0 to |courses|
      invariant atMost == CapacityRows(valid, courses, periods, c)
    {
      ghost var before := atMost;
      for p := 0 to periods
        invariant atMost == before + seq(p, q requires 0 <= q < p => AtMost(Holding(valid, periods, c, q, |valid|), courses[c].size))
      {
        var inAssignments := [];
        for s := 0 to |valid|
          invariant inAssignments == Holding(valid, periods, c, p, s)
        {
          for i := 0 to |valid[s]|
            invariant inAssignments == Holding(valid, periods, c, p, s) + HoldIn(valid, periods, s, c, p, i)
          {
            if valid[s][i].assignment[p] == c {
              inAssignments := inAssignments + [VarOf(valid, s, i)];
            }
          }
        }
        atMost := atMost + [AtMost(inAssignments, courses[c].size)];
      }
    }
  }

  // ---------------------------------------------------------------------------------
  // Objective
  // ---------------------------------------------------------------------------------

  /** The candidate variables of the first `n` students, in creation order. */
  function CandidateVars(valid: seq<seq<Assignment>>, n: nat): (r: seq<nat>)
    requires n <= |valid|
    ensures |r| == Offset(valid, n) && forall k :: 0 <= k < |r| ==> r[k] == k
  {
    if n == 0 then [] else CandidateVars(valid, n - 1) + Group(valid, n - 1, |valid[n - 1]|)
  }

  /** The candidate penalties of the first `n` students, in the same order. */
  function Penalties(valid: seq<seq<Assignment>>, n: nat): (r: seq<int>)
    requires n <= |valid|
    ensures |r| == Offset(valid, n)
  {
    if n == 0 then []
    else Penalties(valid, n - 1) + seq(|valid[n - 1]|, i requires 0 <= i < |valid[n - 1]| => valid[n - 1][i].penalty)
  }

  /** The objective weighs every candidate's variable with that candidate's penalty. */
  lemma {:induction false} PenaltiesAt(valid: seq<seq<Assignment>>, n: nat, s: nat, i: nat)
    requires n <= |valid| && s < n && i < |valid[s]|
    ensures VarOf(valid, s, i) < |Penalties(valid, n)|
    ensures Penalties(valid, n)[VarOf(valid, s, i)] == valid[s][i].penalty
  {
    OffsetMonotone(valid, s + 1, n);
    if s < n - 1 {
      PenaltiesAt(valid, n - 1, s, i);
    }
  }

  /** The objective loop: every candidate variable, weighted by its penalty. */
  method AddObjective(valid: seq<seq<Assignment>>) returns (vars: seq<nat>, weights: seq<int>)
    ensures vars == CandidateVars(valid, |valid|) && weights == Penalties(valid, |valid|)
  {
    vars, weights := [], [];
    for s := 0 to |valid|
      invariant vars == CandidateVars(valid, s) && weights == Penalties(valid, s)
    {
      ghost var before := weights;
      for i := 0 to |valid[s]|
        invariant vars == CandidateVars(valid, s) + Group(valid, s, i)
        invariant weights == before + seq(i, j requires 0 <= j < i => valid[s][j].penalty)
      {
        vars := vars + [VarOf(valid, s, i)];
        weights := weights + [valid[s][i].penalty];
      }
    }
  }

  // ---------------------------------------------------------------------------------
  // Pair terms: `_calculate_combination_penalties`
  // ---------------------------------------------------------------------------------

  /** A together or apart pair, resolved to roster positions, with its weight per shared period. */
  datatype WeightedPair = WeightedPair(first: nat, second: nat, weight: int)

  /** An objective term on the conjunction of two candidate variables. */
  datatype PairTerm = PairTerm(left: nat, right: nat, weight: int)

  /** `pairs_with_penalty`: the together pairs with weight -5, then the apart pairs with weight +5. */
  function WeightedPairs(config: Config, students: seq<Student>): (r: seq<WeightedPair>)
    requires PairsValid(config.together, students) && PairsValid(config.apart, students)
    ensures |r| == |config.together| + |config.apart|
    ensures forall k :: 0 <= k < |r| ==> r[k].first < |students| && r[k].second < |students|
    ensures forall k :: 0 <= k < |config.together| ==>
      r[k].weight == TogetherWeight &&
      students[r[k].first].name == config.together[k][0] && students[r[k].second].name == config.together[k][1]
    ensures forall k :: 0 <= k < |config.apart| ==>
      r[|config.together| + k].weight == ApartWeight &&
      students[r[|config.together| + k].first].name == config.apart[k][0] &&
      students[r[|config.together| + k].second].name == config.apart[k][1]
  {
    ResolvePairs(config.together, students, TogetherWeight) + ResolvePairs(config.apart, students, ApartWeight)
  }

  function ResolvePairs(pairs: seq<seq<string>>, students: seq<Student>, weight: int): (r: seq<WeightedPair>)
    requires PairsValid(pairs, students)
    ensures |r| == |pairs|
    ensures forall k :: 0 <= k < |pairs| ==>
      r[k].first < |students| && r[k].second < |students| && r[k].weight == weight &&
      students[r[k].first].name == pairs[k][0] && students[r[k].second].name == pairs[k][1]
  {
    seq(|pairs|, k requires 0 <= k < |pairs| =>
      assert PairValid(pairs[k], students);
      WeightedPair(StudentIndex(students, pairs[k][0]), StudentIndex(students, pairs[k][1]), weight))
  }

  /** The number of periods among the first `n` where both lists hold the same course. */
  function Shared(a1: seq<int>, a2: seq<int>, n: nat): nat
    requires n <= |a1| && n <= |a2|
  {
    if n == 0 then 0 else Shared(a1, a2, n - 1) + (if a1[n - 1] >= 0 && a1[n - 1] == a2[n - 1] then 1 else 0)
  }

  /** The period loop: the pair's weight for every period where both candidates hold the same course. */
  method TogetherPenalty(a1: seq<int>, a2: seq<int>, periods: nat, weight: int) returns (penalty: int)
    requires periods <= |a1| && periods <= |a2|
    ensures penalty == weight * Shared(a1, a2, periods)
  {
    penalty := 0;
    for p := 0 to periods
      invariant penalty == weight * Shared(a1, a2, p)
    {
      if a1[p] >= 0 && a1[p] == a2[p] {
        penalty := penalty + weight;
      }
    }
  }

  predicate PairsInRange(valid: seq<seq<Assignment>>, pairs: seq<WeightedPair>) {
    forall k :: 0 <= k < |pairs| ==> pairs[k].first < |valid| && pairs[k].second < |valid|
  }

  /** The weight of the term for candidate `i1` of the first student and `i2` of the second. */
  function PairWeight(valid: seq<seq<Assignment>>, periods: nat, q: WeightedPair, i1: nat, i2: nat): int
    requires Sized(valid, periods)
    requires q.first < |valid| && q.second < |valid| && i1 < |valid[q.first]| && i2 < |valid[q.second]|
  {
    q.weight * Shared(valid[q.first][i1].assignment, valid[q.second][i2].assignment, periods)
  }

  /** `t` is the term of pair `q` for candidates `i1` and `i2`, which share a course in some period. */
  predicate TermOf(valid: seq<seq<Assignment>>, periods: nat, q: WeightedPair, i1: nat, i2: nat, t: PairTerm)
    requires Sized(valid, periods)
  {
    q.first < |valid| && q.second < |valid| && i1 < |valid[q.first]| && i2 < |valid[q.second]| &&
    PairWeight(valid, periods, q, i1, i2) != 0 &&
    t == PairTerm(VarOf(valid, q.first, i1), VarOf(valid, q.second, i2), PairWeight(valid, periods, q, i1, i2))
  }

  /** The terms for candidate `i1` of the first student against the first `n2` candidates of the second. */
  function RowTerms(valid: seq<seq<Assignment>>, periods: nat, q: WeightedPair, i1: nat, n2: nat): seq<PairTerm>
    requires Sized(valid, periods)
    requires q.first < |valid| && q.second < |valid| && i1 < |valid[q.first]| && n2 <= |valid[q.second]|
  {
    if n2 == 0 then []
    else
      var w := PairWeight(valid, periods, q, i1, n2 - 1);
      RowTerms(valid, periods, q, i1, n2 - 1) +
      (if w != 0 then [PairTerm(VarOf(valid, q.first, i1), VarOf(valid, q.second, n2 - 1), w)] else [])
  }

  /** The terms of pair `q` for the first `n1` candidates of its first student. */
  function PairTerms(valid: seq<seq<Assignment>>, periods: nat, q: WeightedPair, n1: nat): seq<PairTerm>
    requires Sized(valid, periods)
    requires q.first < |valid| && q.second < |valid| && n1 <= |valid[q.first]|
  {
    if n1 == 0 then []
    else PairTerms(valid, periods, q, n1 - 1) + RowTerms(valid, periods, q, n1 - 1, |valid[q.second]|)
  }

  /** The terms of the first `n` pairs, in emission order. */
  function AllPairTerms(valid: seq<seq<Assignment>>, periods: nat, pairs: seq<WeightedPair>, n: nat): seq<PairTerm>
    requires Sized(valid, periods) && PairsInRange(valid, pairs) && n <= |pairs|
  {
    if n == 0 then []
    else AllPairTerms(valid, periods, pairs, n - 1) + PairTerms(valid, periods, pairs[n - 1], |valid[pairs[n - 1].first]|)
  }

  lemma {:induction false} RowTermsExact(valid: seq<seq<Assignment>>, periods: nat, q: WeightedPair, i1: nat, n2: nat)
    requires Sized(valid, periods)
    requires q.first < |valid| && q.second < |valid| && i1 < |valid[q.first]| && n2 <= |valid[q.second]|
    ensures forall t :: t in RowTerms(valid, periods, q, i1, n2) <==> exists i2: nat :: i2 < n2 && TermOf(valid, periods, q, i1, i2, t)
  {
    if n2 > 0 {
      RowTermsExact(valid, periods, q, i1, n2 - 1);
      var w := PairWeight(valid, periods, q, i1, n2 - 1);
      var last := PairTerm(VarOf(valid, q.first, i1), VarOf(valid, q.second, n2 - 1), w);
      assert RowTerms(valid, periods, q, i1, n2) == RowTerms(valid, periods, q, i1, n2 - 1) + (if w != 0 then [last] else []);
      if w != 0 {
        assert TermOf(valid, periods, q, i1, n2 - 1, last);
      }
      forall t | TermOf(valid, periods, q, i1, n2 - 1, t) ensures t in RowTerms(valid, periods, q, i1, n2) { }
    }
  }

  lemma {:induction false} PairTermsExact(valid: seq<seq<Assignment>>, periods: nat, q: WeightedPair, n1: nat)
    requires Sized(valid, periods)
    requires q.first < |valid| && q.second < |valid| && n1 <= |valid[q.first]|
    ensures forall t :: t in PairTerms(valid, periods, q, n1) <==> exists i1: nat, i2: nat :: i1 < n1 && TermOf(valid, periods, q, i1, i2, t)
  {
    if n1 > 0 {
      PairTermsExact(valid, periods, q, n1 - 1);
      RowTermsExact(valid, periods, q, n1 - 1, |valid[q.second]|);
      var i1 := n1 - 1;
      forall i2: nat, t | TermOf(valid, periods, q, i1, i2, t) ensures t in PairTerms(valid, periods, q, n1) {
        assert i2 < |valid[q.second]|;
      }
    }
  }

  /**
   * The emitted terms are exactly one per pair and pair of candidates that share a course in some period,
   * weighted by the pair's weight times the number of shared periods (and never zero).
   */
  lemma {:induction false} AllPairTermsExact(valid: seq<seq<Assignment>>, periods: nat, pairs: seq<WeightedPair>, n: nat)
    requires Sized(valid, periods) && PairsInRange(valid, pairs) && n <= |pairs|
    ensures forall t :: t in AllPairTerms(valid, periods, pairs, n) <==>
      exists k: nat, i1: nat, i2: nat :: k < n && TermOf(valid, periods, pairs[k], i1, i2, t)
  {
    if n > 0 {
      AllPairTermsExact(valid, periods, pairs, n - 1);
      PairTermsExact(valid, periods, pairs[n - 1], |valid[pairs[n - 1].first]|);
      var q := pairs[n - 1];
      forall i1: nat, i2: nat, t | TermOf(valid, periods, q, i1, i2, t) ensures t in AllPairTerms(valid, periods, pairs, n) {
        assert i1 < |valid[q.first]|;
      }
    }
  }

  /** The conjunction constraints of the terms: the `k`-th term's variable is numbered `base + k`. */
  function TermConjunctions(terms: seq<PairTerm>, base: nat): (r: seq<Conjunction>)
    ensures |r| == |terms|
  {
    seq(|terms|, k requires 0 <= k < |terms| => Conjunction(base + k, terms[k].left, terms[k].right))
  }

  function TermVars(terms: seq<PairTerm>, base: nat): (r: seq<nat>)
    ensures |r| == |terms|
  {
    seq(|terms|, k requires 0 <= k < |terms| => base + k)
  }

  function TermWeights(terms: seq<PairTerm>): (r: seq<int>)
    ensures |r| == |terms|
  {
    seq(|terms|, k requires 0 <= k < |terms| => terms[k].weight)
  }

  /**
   * `_calculate_combination_penalties`: for every pair and every two candidates of its students, a term
   * when they share a course, with a new variable (numbered from `base`) constrained to their conjunction.
   */
  method CombinationPenalties(valid: seq<seq<Assignment>>, periods: nat, pairs: seq<WeightedPair>, base: nat)
    returns (conjunctions: seq<Conjunction>, vars: seq<nat>, weights: seq<int>)
    requires Sized(valid, periods) && PairsInRange(valid, pairs)
    ensures var terms := AllPairTerms(valid, periods, pairs, |pairs|);
      conjunctions == TermConjunctions(terms, base) && vars == TermVars(terms, base) && weights == TermWeights(terms)
  {
    var terms := [];
    for k := 0 to |pairs|
      invariant terms == AllPairTerms(valid, periods, pairs, k)
    {
      var pairTerms := PairTermsOf(valid, periods, pairs[k]);
      terms := terms + pairTerms;
    }
    conjunctions, vars, weights := TermConjunctions(terms, base), TermVars(terms, base), TermWeights(terms);
  }

  /** The two inner loops of `_calculate_combination_penalties` for one pair. */
  method PairTermsOf(valid: seq<seq<Assignment>>, periods: nat, q: WeightedPair) returns (terms: seq<PairTerm>)
    requires Sized(valid, periods) && q.first < |valid| && q.second < |valid|
    ensures terms == PairTerms(valid, periods, q, |valid[q.first]|)
  {
    terms := [];
    for i1 := 0 to |valid[q.first]|
      invariant terms == PairTerms(valid, periods, q, i1)
    {
      var row := [];
      for i2 := 0 to |valid[q.second]|
        invariant row == RowTerms(valid, periods, q, i1, i2)
      {
        var together := TogetherPenalty(valid[q.first][i1].assignment, valid[q.second][i2].assignment, periods, q.weight);
        if together != 0 {
          row := row + [PairTerm(VarOf(valid, q.first, i1), VarOf(valid, q.second, i2), together)];
        }
      }
      terms := terms + row;
    }
  }


  // ---------------------------------------------------------------------------------
  // The model of one pass
  // ---------------------------------------------------------------------------------

  /** The pair terms take part only in passes 0 and 1. */
  function PassTerms(valid: seq<seq<Assignment>>, periods: nat, pairs: seq<WeightedPair>, pass: nat): seq<PairTerm>
    requires Sized(valid, periods) && PairsInRange(valid, pairs)
  {
    if pass < 2 then AllPairTerms(valid, periods, pairs, |pairs|) else []
  }

  /** The constraint model `_solve` hands to the backend. */
  function ModelOf(valid: seq<seq<Assignment>>, courses: seq<Course>, periods: nat, pairs: seq<WeightedPair>, pass: nat): CpModel
    requires Sized(valid, periods) && PairsInRange(valid, pairs)
  {
    var n := VarCount(valid);
    var terms := PassTerms(valid, periods, pairs, pass);
    CpModel(n + |terms|, ExactlyOneGroups(valid), CapacityRows(valid, courses, periods, |courses|),
            TermConjunctions(terms, n), CandidateVars(valid, |valid|) + TermVars(terms, n),
            Penalties(valid, |valid|) + TermWeights(terms))
  }

  lemma {:induction false} HoldInRange(valid: seq<seq<Assignment>>, periods: nat, s: nat, c: nat, p: nat, n: nat, bound: nat)
    requires Sized(valid, periods) && s < |valid| && n <= |valid[s]| && p < periods && VarCount(valid) <= bound
    ensures InRange(HoldIn(valid, periods, s, c, p, n), bound)
  {
    if n > 0 {
      HoldInRange(valid, periods, s, c, p, n - 1, bound);
    }
  }

  lemma {:induction false} HoldingRange(valid: seq<seq<Assignment>>, periods: nat, c: nat, p: nat, n: nat, bound: nat)
    requires Sized(valid, periods) && n <= |valid| && p < periods && VarCount(valid) <= bound
    ensures InRange(Holding(valid, periods, c, p, n), bound)
  {
    if n > 0 {
      HoldingRange(valid, periods, c, p, n - 1, bound);
      HoldInRange(valid, periods, n - 1, c, p, |valid[n - 1]|, bound);
    }
  }

  lemma CapacityRowsRange(valid: seq<seq<Assignment>>, courses: seq<Course>, periods: nat, bound: nat)
    requires Sized(valid, periods) && VarCount(valid) <= bound
    ensures var rows := CapacityRows(valid, courses, periods, |courses|);
      forall r :: 0 <= r < |rows| ==> InRange(rows[r].vars, bound)
  {
    var rows := CapacityRows(valid, courses, periods, |courses|);
    forall r | 0 <= r < |rows| ensures InRange(rows[r].vars, bound) {
      var c, p := CapacityRowCourse(valid, courses, periods, r);
      HoldingRange(valid, periods, c, p, |valid|, bound);
    }
  }

  lemma TermsRange(valid: seq<seq<Assignment>>, periods: nat, pairs: seq<WeightedPair>, pass: nat)
    requires Sized(valid, periods) && PairsInRange(valid, pairs)
    ensures var terms := PassTerms(valid, periods, pairs, pass);
      forall k :: 0 <= k < |terms| ==> terms[k].left < VarCount(valid) && terms[k].right < VarCount(valid)
  {
    var terms := PassTerms(valid, periods, pairs, pass);
    AllPairTermsExact(valid, periods, pairs, |pairs|);
    forall k | 0 <= k < |terms| ensures terms[k].left < VarCount(valid) && terms[k].right < VarCount(valid) {
      assert terms[k] in AllPairTerms(valid, periods, pairs, |pairs|);
      var j: nat, i1: nat, i2: nat :| j < |pairs| && TermOf(valid, periods, pairs[j], i1, i2, terms[k]);
      VarOfDistinct(valid, pairs[j].first, i1, pairs[j].second, i2);
      VarOfDistinct(valid, pairs[j].second, i2, pairs[j].first, i1);
    }
  }

  /** The model only mentions the variables it creates. */
  lemma ModelWellFormed(valid: seq<seq<Assignment>>, courses: seq<Course>, periods: nat, pairs: seq<WeightedPair>, pass: nat)
    requires Sized(valid, periods) && PairsInRange(valid, pairs)
    ensures WellFormed(ModelOf(valid, courses, periods, pairs, pass))
  {
    var m := ModelOf(valid, courses, periods, pairs, pass);
    var n := VarCount(valid);
    var terms := PassTerms(valid, periods, pairs, pass);
    GroupsRange(valid, m.numVars);
    assert m.exactlyOne == ExactlyOneGroups(valid);
    CapacityRowsRange(valid, courses, periods, m.numVars);
    assert m.atMost == CapacityRows(valid, courses, periods, |courses|);
    TermsRange(valid, periods, pairs, pass);
    assert m.conjunctions == TermConjunctions(terms, n);
    assert InRange(m.objVars, m.numVars) by {
      assert m.objVars == CandidateVars(valid, |valid|) + TermVars(terms, n);
    }
  }

  lemma GroupsRange(valid: seq<seq<Assignment>>, bound: nat)
    requires VarCount(valid) <= bound
    ensures var groups := ExactlyOneGroups(valid);
      forall s :: 0 <= s < |groups| ==> InRange(groups[s], bound)
  {
    var groups := ExactlyOneGroups(valid);
    forall s | 0 <= s < |groups| ensures InRange(groups[s], bound) {
      forall i | 0 <= i < |valid[s]| ensures VarOf(valid, s, i) < VarCount(valid) {
      }
    }
  }


  // ---------------------------------------------------------------------------------
  // Result extraction: `_get_result`
  // ---------------------------------------------------------------------------------

  /** The last of the first `n` candidates of student `s` whose variable the backend set. */
  function Chosen(valid: seq<seq<Assignment>>, values: seq<bool>, s: nat, n: nat): (r: Option<nat>)
    requires s < |valid| && n <= |valid[s]| && VarCount(valid) <= |values|
    ensures r.Some? ==> r.value < n && values[VarOf(valid, s, r.value)]
  {
    if n == 0 then None
    else
      if values[VarOf(valid, s, n - 1)] then Some(n - 1) else Chosen(valid, values, s, n - 1)
  }

  /** `[get_course_code(c) for c in assignment]`. */
  function Codes(courses: seq<Course>, a: seq<int>): (r: seq<Entry>)
    requires forall p :: 0 <= p < |a| ==> a[p] < |courses|
    ensures |r| == |a| && forall p :: 0 <= p < |a| ==> r[p] == Some(ResultCode(courses, a[p]))
  {
    seq(|a|, p requires 0 <= p < |a| => Some(ResultCode(courses, a[p])))
  }

  /** The record of a chosen candidate: the student's name, the codes per period and the candidate's penalty. */
  function RecordOf(courses: seq<Course>, student: Student, x: Assignment): ResultRecord
    requires Placeable(courses, x.assignment)
  {
    ResultRecord(student.name, Codes(courses, x.assignment), x.penalty)
  }

  /** Every candidate consists of placeable course numbers. */
  predicate Coded(valid: seq<seq<Assignment>>, courses: seq<Course>) {
    forall s, i :: 0 <= s < |valid| && 0 <= i < |valid[s]| ==> Placeable(courses, valid[s][i].assignment)
  }

  /** The records for the first `n` candidates of student `s`: one per candidate whose variable is set. */
  function RecordsFor(valid: seq<seq<Assignment>>, values: seq<bool>, courses: seq<Course>, students: seq<Student>,
                      s: nat, n: nat): seq<ResultRecord>
    requires Coded(valid, courses) && |valid| == |students| && s < |valid| && n <= |valid[s]| && VarCount(valid) <= |values|
  {
    if n == 0 then []
    else
      RecordsFor(valid, values, courses, students, s, n - 1) +
      (if values[VarOf(valid, s, n - 1)] then [RecordOf(courses, students[s], valid[s][n - 1])] else [])
  }

  /** The records of the first `n` students, in student order. */
  function Extract(valid: seq<seq<Assignment>>, values: seq<bool>, courses: seq<Course>, students: seq<Student>, n: nat)
    : seq<ResultRecord>
    requires Coded(valid, courses) && |valid| == |students| && n <= |students| && VarCount(valid) <= |values|
  {
    if n == 0 then []
    else Extract(valid, values, courses, students, n - 1) + RecordsFor(valid, values, courses, students, n - 1, |valid[n - 1]|)
  }

  /** `_get_result`: a record for every candidate variable the backend set, student by student. */
  method GetResult(valid: seq<seq<Assignment>>, values: seq<bool>, courses: seq<Course>, students: seq<Student>)
    returns (result: seq<ResultRecord>)
    requires Coded(valid, courses) && |valid| == |students| && VarCount(valid) <= |values|
    ensures result == Extract(valid, values, courses, students, |students|)
  {
    result := [];
    for s := 0 to |students|
      invariant result == Extract(valid, values, courses, students, s)
    {
      for i := 0 to |valid[s]|
        invariant result == Extract(valid, values, courses, students, s) + RecordsFor(valid, values, courses, students, s, i)
      {
        if values[VarOf(valid, s, i)] {
          var codes := [];
          for p := 0 to |valid[s][i].assignment|
            invariant codes == Codes(courses, valid[s][i].assignment[..p])
          {
            codes := codes + [Some(ResultCode(courses, valid[s][i].assignment[p]))];
          }
          assert valid[s][i].assignment[..|valid[s][i].assignment|] == valid[s][i].assignment;
          result := result + [ResultRecord(students[s].name, codes, valid[s][i].penalty)];
        }
      }
    }
  }

  /** How many of student `s`'s candidate variables are set. */
  function Picked(valid: seq<seq<Assignment>>, values: seq<bool>, s: nat): nat
    requires s < |valid| && VarCount(valid) <= |values|
  {
    CountTrue(values, Group(valid, s, |valid[s]|))
  }

  /** Exactly one candidate variable of every student is set. */
  predicate OneEach(valid: seq<seq<Assignment>>, values: seq<bool>)
    requires VarCount(valid) <= |values|
  {
    forall s :: 0 <= s < |valid| ==> Picked(valid, values, s) == 1
  }

  /** One more candidate: its variable adds to the count and, when set, becomes the chosen one. */
  lemma GroupStep(valid: seq<seq<Assignment>>, values: seq<bool>, s: nat, n: nat)
    requires s < |valid| && 0 < n <= |valid[s]| && VarCount(valid) <= |values|
    ensures InRange(Group(valid, s, n - 1), |values|) && InRange(Group(valid, s, n), |values|)
    ensures CountTrue(values, Group(valid, s, n)) ==
      CountTrue(values, Group(valid, s, n - 1)) + (if values[VarOf(valid, s, n - 1)] then 1 else 0)
    ensures Chosen(valid, values, s, n) ==
      if values[VarOf(valid, s, n - 1)] then Some(n - 1) else Chosen(valid, values, s, n - 1)
  {
    CountFirstPrefix(values, Group(valid, s, n), Group(valid, s, n - 1), n - 1);
  }

  /** Counting the set variables of a student: the count is zero exactly when nothing is chosen. */
  lemma {:induction false} GroupCount(valid: seq<seq<Assignment>>, values: seq<bool>, s: nat, n: nat)
    requires s < |valid| && n <= |valid[s]| && VarCount(valid) <= |values|
    ensures InRange(Group(valid, s, n), |values|)
    ensures CountTrue(values, Group(valid, s, n)) == 0 <==> Chosen(valid, values, s, n).None?
  {
    if n == 0 {
      assert Group(valid, s, n) == [];
    } else {
      GroupCount(valid, values, s, n - 1);
      GroupStep(valid, values, s, n);
    }
  }

  /** A set variable among the first `n` candidates means some candidate is chosen. */
  lemma {:induction false} ChosenSome(valid: seq<seq<Assignment>>, values: seq<bool>, s: nat, n: nat, i: nat)
    requires s < |valid| && i < n <= |valid[s]| && VarCount(valid) <= |values|
    requires values[VarOf(valid, s, i)]
    ensures Chosen(valid, values, s, n).Some?
  {
    if i < n - 1 && !values[VarOf(valid, s, n - 1)] {
      ChosenSome(valid, values, s, n - 1, i);
    }
  }

  /** When exactly one variable of the student is set, the chosen candidate is that one. */
  lemma {:induction false} ChosenUnique(valid: seq<seq<Assignment>>, values: seq<bool>, s: nat, n: nat, i: nat)
    requires s < |valid| && i < n <= |valid[s]| && VarCount(valid) <= |values|
    requires InRange(Group(valid, s, n), |values|) && CountTrue(values, Group(valid, s, n)) == 1
    requires values[VarOf(valid, s, i)]
    ensures Chosen(valid, values, s, n) == Some(i)
  {
    GroupStep(valid, values, s, n);
    GroupCount(valid, values, s, n - 1);
    if i < n - 1 {
      if values[VarOf(valid, s, n - 1)] {
        ChosenSome(valid, values, s, n - 1, i);
        assert false;
      }
      ChosenUnique(valid, values, s, n - 1, i);
    }
  }

  /** With at most one set variable, a student gets the record of its chosen candidate, or none. */
  lemma {:induction false} RecordsForChosen(valid: seq<seq<Assignment>>, values: seq<bool>, courses: seq<Course>,
                                            students: seq<Student>, s: nat, n: nat)
    requires Coded(valid, courses) && |valid| == |students| && s < |valid| && n <= |valid[s]| && VarCount(valid) <= |values|
    requires InRange(Group(valid, s, n), |values|) && CountTrue(values, Group(valid, s, n)) <= 1
    ensures var ch := Chosen(valid, values, s, n);
      RecordsFor(valid, values, courses, students, s, n) ==
        if ch.Some? then [RecordOf(courses, students[s], valid[s][ch.value])] else []
  {
    if n == 0 {
      assert RecordsFor(valid, values, courses, students, s, n) == [];
    } else {
      GroupStep(valid, values, s, n);
      GroupCount(valid, values, s, n - 1);
      RecordsForChosen(valid, values, courses, students, s, n - 1);
      var rest := RecordsFor(valid, values, courses, students, s, n - 1);
      if values[VarOf(valid, s, n - 1)] {
        assert rest == [];
        assert RecordsFor(valid, values, courses, students, s, n) ==
          rest + [RecordOf(courses, students[s], valid[s][n - 1])];
      } else {
        assert RecordsFor(valid, values, courses, students, s, n) == rest + [];
      }
    }
  }

  /** The record `Extract` lists for a student whose candidate variables are exactly one set. */
  lemma RecordsForOne(valid: seq<seq<Assignment>>, values: seq<bool>, courses: seq<Course>, students: seq<Student>, s: nat)
    requires Coded(valid, courses) && |valid| == |students| && s < |valid| && VarCount(valid) <= |values|
    requires OneEach(valid, values)
    ensures Chosen(valid, values, s, |valid[s]|).Some?
    ensures RecordsFor(valid, values, courses, students, s, |valid[s]|) ==
      [RecordOf(courses, students[s], valid[s][Chosen(valid, values, s, |valid[s]|).value])]
  {
    assert Picked(valid, values, s) == 1;
    GroupCount(valid, values, s, |valid[s]|);
    RecordsForChosen(valid, values, courses, students, s, |valid[s]|);
  }

  lemma {:induction false} ExtractLength(valid: seq<seq<Assignment>>, values: seq<bool>, courses: seq<Course>,
                                        students: seq<Student>, n: nat)
    requires Coded(valid, courses) && |valid| == |students| && n <= |students| && VarCount(valid) <= |values|
    requires OneEach(valid, values)
    ensures |Extract(valid, values, courses, students, n)| == n
  {
    if n > 0 {
      ExtractLength(valid, values, courses, students, n - 1);
      RecordsForOne(valid, values, courses, students, n - 1);
    }
  }

  /**
   * Under the exactly-one constraints the result has one record per student, in roster order, and the
   * record of student `s` is that of its chosen candidate: codes per period ("" for an empty period)
   * and the candidate's penalty.
   */
  lemma {:induction false} ExtractOnePerStudent(valid: seq<seq<Assignment>>, values: seq<bool>, courses: seq<Course>,
                                                students: seq<Student>, n: nat)
    requires Coded(valid, courses) && |valid| == |students| && n <= |students| && VarCount(valid) <= |values|
    requires OneEach(valid, values)
    ensures |Extract(valid, values, courses, students, n)| == n
    ensures forall s {:trigger Extract(valid, values, courses, students, n)[s]} :: 0 <= s < n ==>
      Chosen(valid, values, s, |valid[s]|).Some? &&
      Extract(valid, values, courses, students, n)[s] ==
        RecordOf(courses, students[s], valid[s][Chosen(valid, values, s, |valid[s]|).value])
  {
    ExtractLength(valid, values, courses, students, n);
    if n == 0 {
      assert Extract(valid, values, courses, students, n) == [];
    } else {
      ExtractOnePerStudent(valid, values, courses, students, n - 1);
      RecordsForOne(valid, values, courses, students, n - 1);
      var prev := Extract(valid, values, courses, students, n - 1);
      var rec := RecordsFor(valid, values, courses, students, n - 1, |valid[n - 1]|);
      var r := Extract(valid, values, courses, students, n);
      assert r == prev + rec;
      forall s | 0 <= s < n
        ensures Chosen(valid, values, s, |valid[s]|).Some? &&
          r[s] == RecordOf(courses, students[s], valid[s][Chosen(valid, values, s, |valid[s]|).value])
      {
        if s < n - 1 {
          assert r[s] == prev[s];
        } else {
          assert r[s] == rec[0];
        }
      }
    }
  }

  // ---------------------------------------------------------------------------------
  // Capacity, in terms of the chosen candidates
  // ---------------------------------------------------------------------------------

  /** Whether student `s`'s chosen candidate puts course `c` in period `p`. */
  predicate Holds(valid: seq<seq<Assignment>>, values: seq<bool>, periods: nat, s: nat, c: nat, p: nat)
    requires Sized(valid, periods) && s < |valid| && p < periods && VarCount(valid) <= |values|
  {
    var ch := Chosen(valid, values, s, |valid[s]|);
    ch.Some? && valid[s][ch.value].assignment[p] == c
  }

  /** How many of the first `n` students have a chosen candidate with course `c` in period `p`. */
  function Holders(valid: seq<seq<Assignment>>, values: seq<bool>, periods: nat, c: nat, p: nat, n: nat): nat
    requires Sized(valid, periods) && n <= |valid| && p < periods && VarCount(valid) <= |values|
  {
    if n == 0 then 0
    else Holders(valid, values, periods, c, p, n - 1) + (if Holds(valid, values, periods, n - 1, c, p) then 1 else 0)
  }

  /** With at most one set variable, the student's holding variables count one exactly when its chosen candidate holds. */
  lemma {:induction false} HoldInCount(valid: seq<seq<Assignment>>, values: seq<bool>, periods: nat, s: nat, c: nat, p: nat, n: nat)
    requires Sized(valid, periods) && s < |valid| && n <= |valid[s]| && p < periods && VarCount(valid) <= |values|
    requires InRange(Group(valid, s, n), |values|) && CountTrue(values, Group(valid, s, n)) <= 1
    ensures InRange(HoldIn(valid, periods, s, c, p, n), |values|)
    ensures var ch := Chosen(valid, values, s, n);
      CountTrue(values, HoldIn(valid, periods, s, c, p, n)) ==
        if ch.Some? && valid[s][ch.value].assignment[p] == c then 1 else 0
  {
    HoldInRange(valid, periods, s, c, p, n, |values|);
    if n == 0 {
      assert HoldIn(valid, periods, s, c, p, n) == [];
    } else {
      GroupStep(valid, values, s, n);
      GroupCount(valid, values, s, n - 1);
      HoldInCount(valid, values, periods, s, c, p, n - 1);
      var v := VarOf(valid, s, n - 1);
      var prefix := HoldIn(valid, periods, s, c, p, n - 1);
      var last: seq<nat> := if valid[s][n - 1].assignment[p] == c then [v] else [];
      HoldInRange(valid, periods, s, c, p, n - 1, |values|);
      assert HoldIn(valid, periods, s, c, p, n) == prefix + last;
      CountTrueAppend(values, prefix, last);
      if last != [] {
        assert last[..0] == [];
      }
    }
  }

  /** The variables of a capacity row that are set are the students whose chosen candidate holds the course there. */
  lemma {:induction false} HoldingCount(valid: seq<seq<Assignment>>, values: seq<bool>, periods: nat, c: nat, p: nat, n: nat)
    requires Sized(valid, periods) && n <= |valid| && p < periods && VarCount(valid) <= |values|
    requires OneEach(valid, values)
    ensures InRange(Holding(valid, periods, c, p, n), |values|)
    ensures CountTrue(values, Holding(valid, periods, c, p, n)) == Holders(valid, values, periods, c, p, n)
  {
    HoldingRange(valid, periods, c, p, n, |values|);
    if n == 0 {
      assert Holding(valid, periods, c, p, n) == [];
    } else {
      HoldingCount(valid, values, periods, c, p, n - 1);
      assert Picked(valid, values, n - 1) == 1;
      HoldInCount(valid, values, periods, n - 1, c, p, |valid[n - 1]|);
      HoldingRange(valid, periods, c, p, n - 1, |values|);
      CountTrueAppend(values, Holding(valid, periods, c, p, n - 1), HoldIn(valid, periods, n - 1, c, p, |valid[n - 1]|));
    }
  }

  /** Values satisfying a model whose groups are the students' candidates select exactly one candidate each. */
  lemma GroupsSatisfied(m: CpModel, valid: seq<seq<Assignment>>, values: seq<bool>)
    requires WellFormed(m) && Satisfies(m, values) && m.exactlyOne == ExactlyOneGroups(valid)
    requires VarCount(valid) <= |values|
    ensures OneEach(valid, values)
  {
    forall s | 0 <= s < |valid|
      ensures Picked(valid, values, s) == 1
    {
      assert m.exactlyOne[s] == Group(valid, s, |valid[s]|);
    }
  }

  /** Values satisfying a model with the capacity rows respect every course's size in every period. */
  lemma CapacitySatisfied(m: CpModel, valid: seq<seq<Assignment>>, courses: seq<Course>, periods: nat, values: seq<bool>,
                          c: nat, p: nat)
    requires Sized(valid, periods) && VarCount(valid) <= |values| && OneEach(valid, values)
    requires WellFormed(m) && Satisfies(m, values) && m.atMost == CapacityRows(valid, courses, periods, |courses|)
    requires c < |courses| && p < periods
    ensures Holders(valid, values, periods, c, p, |valid|) <= courses[c].size
  {
    var k := CapacityRowIndex(valid, courses, periods, c, p);
    HoldingCount(valid, values, periods, c, p, |valid|);
    SatisfiesAtMost(m, values, k);
  }

  /** The candidate variables come first: every model of a pass declares at least the candidate variables. */
  lemma ModelDeclaresCandidates(valid: seq<seq<Assignment>>, courses: seq<Course>, periods: nat, pairs: seq<WeightedPair>,
                                pass: nat)
    requires Sized(valid, periods) && PairsInRange(valid, pairs)
    ensures var m := ModelOf(valid, courses, periods, pairs, pass);
      VarCount(valid) <= m.numVars && m.exactlyOne == ExactlyOneGroups(valid) &&
      m.atMost == CapacityRows(valid, courses, periods, |courses|) &&
      m.conjunctions == TermConjunctions(PassTerms(valid, periods, pairs, pass), VarCount(valid))
  {
  }

  /**
   * Any values satisfying the model select exactly one candidate per student, and for every course and
   * period at most the course's size of the selected candidates put that course in that period.
   */
  lemma CapacityRespected(valid: seq<seq<Assignment>>, courses: seq<Course>, periods: nat, pairs: seq<WeightedPair>,
                          pass: nat, values: seq<bool>)
    requires Sized(valid, periods) && PairsInRange(valid, pairs)
    requires WellFormed(ModelOf(valid, courses, periods, pairs, pass))
    requires Satisfies(ModelOf(valid, courses, periods, pairs, pass), values)
    ensures VarCount(valid) <= |values|
    ensures OneEach(valid, values)
    ensures forall c, p :: 0 <= c < |courses| && 0 <= p < periods ==>
      Holders(valid, values, periods, c, p, |valid|) <= courses[c].size
  {
    var m := ModelOf(valid, courses, periods, pairs, pass);
    ModelDeclaresCandidates(valid, courses, periods, pairs, pass);
    GroupsSatisfied(m, valid, values);
    forall c, p | 0 <= c < |courses| && 0 <= p < periods
      ensures Holders(valid, values, periods, c, p, |valid|) <= courses[c].size
    {
      CapacitySatisfied(m, valid, courses, periods, values, c, p);
    }
  }

  /** The auxiliary variable of every emitted pair term is set exactly when both of its candidates are selected. */
  lemma PairTermsHold(valid: seq<seq<Assignment>>, courses: seq<Course>, periods: nat, pairs: seq<WeightedPair>,
                      pass: nat, values: seq<bool>)
    requires Sized(valid, periods) && PairsInRange(valid, pairs)
    requires WellFormed(ModelOf(valid, courses, periods, pairs, pass))
    requires Satisfies(ModelOf(valid, courses, periods, pairs, pass), values)
    ensures var terms := PassTerms(valid, periods, pairs, pass);
      forall k :: 0 <= k < |terms| ==>
        VarCount(valid) + k < |values| && terms[k].left < |values| && terms[k].right < |values| &&
        values[VarCount(valid) + k] == (values[terms[k].left] && values[terms[k].right])
  {
    var terms := PassTerms(valid, periods, pairs, pass);
    var m := ModelOf(valid, courses, periods, pairs, pass);
    ModelDeclaresCandidates(valid, courses, periods, pairs, pass);
    forall k | 0 <= k < |terms|
      ensures VarCount(valid) + k < |values| && terms[k].left < |values| && terms[k].right < |values| &&
        values[VarCount(valid) + k] == (values[terms[k].left] && values[terms[k].right])
    {
      assert m.conjunctions[k] == Conjunction(VarCount(valid) + k, terms[k].left, terms[k].right);
    }
  }
  // ---------------------------------------------------------------------------------
  // One pass and the relaxation loop
  // ---------------------------------------------------------------------------------

  /** The candidates of every student, in roster order, for one pass. */
  function CandidateTable(minimize: bool, periods: nat, courses: seq<Course>, students: seq<Student>,
                            previous: Option<seq<ResultRecord>>, pass: nat): (r: seq<seq<Assignment>>)
    requires Covers(courses, periods) && PreviousFits(previous, periods)
    ensures |r| == |students|
  {
    seq(|students|, s requires 0 <= s < |students| =>
      Candidates(minimize, periods, courses, students[s].choices, FittedLookup(previous, periods, students[s].name), pass))
  }

  /** Every candidate of every student fills exactly the periods with placeable course numbers. */
  lemma CandidateTableShaped(minimize: bool, periods: nat, courses: seq<Course>, students: seq<Student>,
                               previous: Option<seq<ResultRecord>>, pass: nat)
    requires Covers(courses, periods) && PreviousFits(previous, periods)
    ensures var valid := CandidateTable(minimize, periods, courses, students, previous, pass);
      Sized(valid, periods) && Coded(valid, courses)
  {
    var valid: seq<seq<Assignment>> := CandidateTable(minimize, periods, courses, students, previous, pass);
    forall s: int, i: int | 0 <= s < |valid| && 0 <= i < |valid[s]|
      ensures |valid[s][i].assignment| == periods && Placeable(courses, valid[s][i].assignment)
    {
      var prev := FittedLookup(previous, periods, students[s].name);
      CandidatesExact(minimize, periods, courses, students[s].choices, prev, pass);
      assert valid[s][i] in Candidates(minimize, periods, courses, students[s].choices, prev, pass);
    }
  }

  /** `_create_valid_assignments`: the candidate table of a pass, whose candidates all fill the periods with known courses. */
  function ValidAssignments(minimize: bool, periods: nat, courses: seq<Course>, students: seq<Student>,
                            previous: Option<seq<ResultRecord>>, pass: nat): (valid: seq<seq<Assignment>>)
    requires Covers(courses, periods) && PreviousFits(previous, periods)
    ensures |valid| == |students| && Sized(valid, periods) && Coded(valid, courses)
  {
    CandidateTableShaped(minimize, periods, courses, students, previous, pass);
    CandidateTable(minimize, periods, courses, students, previous, pass)
  }

  /** The constraint model `_solve` builds for a pass, from the data it reads. */
  function PassModel(minimize: bool, periods: nat, courses: seq<Course>, students: seq<Student>,
                     previous: Option<seq<ResultRecord>>, config: Config, pass: nat): CpModel
    requires Covers(courses, periods) && PreviousFits(previous, periods)
    requires PairsValid(config.together, students) && PairsValid(config.apart, students)
  {
    ModelOf(ValidAssignments(minimize, periods, courses, students, previous, pass), courses, periods,
            WeightedPairs(config, students), pass)
  }

  /** Whether the backend reports a solution for the model of a pass. */
  ghost predicate PassSolved(backend: CpModel -> Answer, minimize: bool, periods: nat, courses: seq<Course>,
                             students: seq<Student>, previous: Option<seq<ResultRecord>>, config: Config, pass: nat)
    requires Covers(courses, periods) && PreviousFits(previous, periods)
    requires PairsValid(config.together, students) && PairsValid(config.apart, students)
  {
    Solved(backend(PassModel(minimize, periods, courses, students, previous, config, pass)).status)
  }

  /** One more unsolved pass extends the unsolved prefix. */
  lemma UnsolvedPrefix(backend: CpModel -> Answer, minimize: bool, periods: nat, courses: seq<Course>,
                       students: seq<Student>, previous: Option<seq<ResultRecord>>, config: Config, n: nat)
    requires Covers(courses, periods) && PreviousFits(previous, periods)
    requires PairsValid(config.together, students) && PairsValid(config.apart, students)
    requires forall q :: 0 <= q < n ==> !PassSolved(backend, minimize, periods, courses, students, previous, config, q)
    requires !PassSolved(backend, minimize, periods, courses, students, previous, config, n)
    ensures forall q :: 0 <= q < n + 1 ==> !PassSolved(backend, minimize, periods, courses, students, previous, config, q)
  {
  }

  /** The model part of `_solve`: variables, exactly-one groups, capacity rows and the objective, with pair terms in passes 0 and 1. */
  method BuildModel(valid: seq<seq<Assignment>>, courses: seq<Course>, periods: nat, pairs: seq<WeightedPair>, pass: nat)
    returns (m: CpModel)
    requires Sized(valid, periods) && PairsInRange(valid, pairs)
    ensures m == ModelOf(valid, courses, periods, pairs, pass)
  {
    var numVars := CreateVariables(valid);
    var groups := AddExactlyOne(valid);
    var atMost := AddCapacity(valid, courses, periods);
    var objVars, objWeights := AddObjective(valid);
    var conjunctions := [];
    if pass < 2 {
      var pairConjunctions, pairVars, pairWeights := CombinationPenalties(valid, periods, pairs, numVars);
      conjunctions := pairConjunctions;
      objVars := objVars + pairVars;
      objWeights := objWeights + pairWeights;
      numVars := numVars + |pairConjunctions|;
    } else {
      assert objVars + TermVars([], numVars) == objVars;
      assert objWeights + TermWeights([]) == objWeights;
    }
    m := CpModel(numVars, groups, atMost, conjunctions, objVars, objWeights);
  }

  /** The numbering and both paddings of one student's choices in `_create_valid_assignments`. */
  method PadChoices(courses: seq<Course>, choices: seq<string>, periods: nat, pass: nat) returns (numbers: seq<int>)
    ensures numbers == Padding(courses, choices, periods, pass)
  {
    numbers := [];
    for k := 0 to |choices|
      invariant numbers == CourseNumbers(courses, choices[..k])
    {
      var n := CourseNumber(courses, choices[k]);
      numbers := numbers + [n];
    }
    WholePrefix(choices);
    numbers := numbers + Blanks(periods - |numbers|);
    numbers := numbers + Blanks(pass - multiset(numbers)[-1]);
  }

  /** The backend only reports a solution that meets every constraint of the model it was given. */
  ghost predicate BackendSound(backend: CpModel -> Answer) {
    forall m :: WellFormed(m) ==> Sound(m, backend(m))
  }

  /** `record` is the record of one of student `s`'s candidates whose variable is set. */
  ghost predicate FromSetVariable(valid: seq<seq<Assignment>>, values: seq<bool>, courses: seq<Course>, student: Student,
                                  s: nat, record: ResultRecord)
    requires Coded(valid, courses) && s < |valid| && VarCount(valid) <= |values|
  {
    exists i: nat :: (i < |valid[s]| && values[VarOf(valid, s, i)] && record == RecordOf(courses, student, valid[s][i]))
  }

  /** With a solved answer, the result of a pass lists for every student the record of one of its candidates. */
  ghost predicate OneRecordEach(valid: seq<seq<Assignment>>, values: seq<bool>, courses: seq<Course>, students: seq<Student>,
                                records: seq<ResultRecord>)
    requires Coded(valid, courses) && |valid| == |students|
  {
    |records| == |students| && VarCount(valid) <= |values| &&
    forall s :: 0 <= s < |students| ==> FromSetVariable(valid, values, courses, students[s], s, records[s])
  }

  /** The records of a solved pass name roster students and have a cell per period, as the `result` setter needs. */
  lemma OneRecordEachReady(valid: seq<seq<Assignment>>, values: seq<bool>, courses: seq<Course>, students: seq<Student>,
                           periods: nat, records: seq<ResultRecord>)
    requires Sized(valid, periods) && Coded(valid, courses) && |valid| == |students|
    requires OneRecordEach(valid, values, courses, students, records)
    requires Covers(courses, periods) && forall s :: 0 <= s < |students| ==> ChoicesKnown(courses, students[s].choices)
    ensures ResultReady(courses, students, records)
  {
    forall k | 0 <= k < |records|
      ensures HasStudent(students, records[k].student) &&
        EnrichReady(courses, records[k], students[StudentIndex(students, records[k].student)])
    {
      assert FromSetVariable(valid, values, courses, students[k], k, records[k]);
      var i: nat :| i < |valid[k]| && values[VarOf(valid, k, i)] && records[k] == RecordOf(courses, students[k], valid[k][i]);
      assert records[k].student == students[k].name;
      assert |records[k].courses| == periods;
    }
  }

  /** Under the exactly-one constraints, the extracted records are one per student, each from a set variable. */
  lemma ExtractOneRecordEach(valid: seq<seq<Assignment>>, values: seq<bool>, courses: seq<Course>, students: seq<Student>)
    requires Coded(valid, courses) && |valid| == |students| && VarCount(valid) <= |values|
    requires OneEach(valid, values)
    ensures OneRecordEach(valid, values, courses, students, Extract(valid, values, courses, students, |students|))
  {
    var records := Extract(valid, values, courses, students, |students|);
    ExtractOnePerStudent(valid, values, courses, students, |students|);
    forall s | 0 <= s < |students|
      ensures FromSetVariable(valid, values, courses, students[s], s, records[s])
    {
      assert records[s] == Extract(valid, values, courses, students, |students|)[s];
      var i := Chosen(valid, values, s, |valid[s]|).value;
      assert values[VarOf(valid, s, i)] && records[s] == RecordOf(courses, students[s], valid[s][i]);
    }
  }

  /** No course holds more students than its size in any period. */
  ghost predicate WithinCapacity(valid: seq<seq<Assignment>>, values: seq<bool>, courses: seq<Course>, periods: nat)
    requires Sized(valid, periods) && VarCount(valid) <= |values|
  {
    forall c, p :: 0 <= c < |courses| && 0 <= p < periods ==> Holders(valid, values, periods, c, p, |valid|) <= courses[c].size
  }

  /** `Solver`: the allocation of one data set, pass after pass. */
  class Solver {
    const data: Data
    const minimizeChanges: bool
    const periods: nat
    const courses: seq<Course>
    const students: seq<Student>

    constructor(data: Data, minimizeChanges: bool)
      ensures this.data == data && this.minimizeChanges == minimizeChanges
      ensures periods == data.config.periods && courses == data.courses && students == data.students
    {
      this.data := data;
      this.minimizeChanges := minimizeChanges;
      periods := data.config.periods;
      courses := data.courses;
      students := data.students;
    }

    /**
     * What a run relies on: the copies taken at construction still match the data, every course has an
     * availability flag per period, no previous record is longer than the periods, every choice is a
     * known code, and every together or apart name is on the roster (the source raises otherwise).
     */
    ghost predicate Ready()
      reads data
    {
      data.Valid() && courses == data.courses && students == data.students && periods == data.config.periods &&
      Covers(courses, periods) && PreviousFits(data.previousResult, periods) &&
      (forall s :: 0 <= s < |students| ==> ChoicesKnown(courses, students[s].choices)) &&
      PairsValid(data.config.together, students) && PairsValid(data.config.apart, students)
    }

    /** `_calculate_penalty`: in the minimizing mode, the previous record comes from the data's cached lookup. */
    method CalculatePenalty(a: seq<int>, choices: seq<int>, reserve: seq<int>, name: string) returns (penalty: int)
      requires Ready() && |a| == periods
      modifies data`previousResultDict
      ensures Ready()
      ensures penalty == Penalty(minimizeChanges, periods, courses, a, choices, reserve, FittedLookup(data.previousResult, periods, name))
    {
      PreviousLookupFits(data.previousResult, periods, name);
      if !minimizeChanges {
        penalty := PreferringPriority(periods, a, choices, reserve);
        return;
      }
      var prev := data.GetPreviousResult(name);
      if prev.None? || prev.value == [] {
        penalty := PreferringPriority(periods, a, choices, reserve);
      } else {
        var numbers := PreviousNumbers(courses, prev.value);
        penalty := MinimizingChanges(periods, a, choices, reserve, numbers);
      }
    }

    /** One student's turn in `_create_valid_assignments`: number, pad, enumerate, keep the valid, deduplicate. */
    method StudentCandidates(s: nat, pass: nat) returns (candidates: seq<Assignment>)
      requires Ready() && s < |students|
      modifies data`previousResultDict
      ensures Ready()
      ensures candidates ==
        Candidates(minimizeChanges, periods, courses, students[s].choices, FittedLookup(data.previousResult, periods, students[s].name), pass)
    {
      var student := students[s];
      var numbers := PadChoices(courses, student.choices, periods, pass);
      PaddedShape(CourseNumbers(courses, student.choices), periods, pass);
      PermutationsPlaceable(courses, student.choices, periods, pass);
      ghost var prev := FittedLookup(data.previousResult, periods, student.name);
      var perms := Permutations(numbers, periods);
      var valid := [];
      for k := 0 to |perms|
        invariant Ready() && prev == FittedLookup(data.previousResult, periods, student.name)
        invariant valid == ScoreValid(courses, perms[..k], minimizeChanges, periods, numbers, prev)
      {
        ScoreValidStep(courses, perms, k, minimizeChanges, periods, numbers, prev);
        var ok := CheckAssignment(courses, perms[k]);
        if ok {
          var penalty := CalculatePenalty(perms[k], numbers[..periods], numbers[periods..], student.name);
          valid := valid + [Assignment(perms[k], penalty)];
        }
      }
      WholePrefix(perms);
      candidates := Dedup(valid);
    }

    /** `_create_valid_assignments`: the candidates of every student, in roster order. */
    method CreateValidAssignments(pass: nat) returns (valid: seq<seq<Assignment>>)
      requires Ready()
      modifies data`previousResultDict
      ensures Ready()
      ensures valid == ValidAssignments(minimizeChanges, periods, courses, students, data.previousResult, pass)
    {
      ghost var target := ValidAssignments(minimizeChanges, periods, courses, students, data.previousResult, pass);
      valid := [];
      for s := 0 to |students|
        invariant Ready() && data.previousResult == old(data.previousResult)
        invariant valid == target[..s]
      {
        var candidates := StudentCandidates(s, pass);
        assert target[s] == candidates;
        PrefixStep(target, s);
        valid := valid + [candidates];
      }
      assert target[..|students|] == target;
    }

    /**
     * `_solve`: build the model of the pass, hand it to the backend and read the answer. A solved answer
     * yields one record per student, each the record of one of its candidates, and no course over its
     * size in any period; the pass is schedulable only when pass 0 is solved, and an unsolved pass
     * before the last asks for the next one.
     */
    method SolvePass(pass: nat, backend: CpModel -> Answer) returns (r: SolverResult)
      requires Ready() && BackendSound(backend)
      modifies data`previousResultDict
      ensures Ready()
      ensures var valid := ValidAssignments(minimizeChanges, periods, courses, students, data.previousResult, pass);
        var a := backend(PassModel(minimizeChanges, periods, courses, students, data.previousResult, data.config, pass));
        r.schedulable == (Solved(a.status) && pass == 0) &&
        r.optimal == (a.status == Optimal) && r.feasable == (a.status == Feasible) &&
        r.nextPass == (if !Solved(a.status) && pass < LastPass then Some(pass + 1) else None) &&
        (!Solved(a.status) ==> r.result == []) &&
        (Solved(a.status) ==>
          VarCount(valid) <= |a.values| &&
          r.result == Extract(valid, a.values, courses, students, |students|) &&
          OneRecordEach(valid, a.values, courses, students, r.result) &&
          WithinCapacity(valid, a.values, courses, periods))
    {
      var valid := CreateValidAssignments(pass);
      var pairs := WeightedPairs(data.config, students);
      var m := BuildModel(valid, courses, periods, pairs, pass);
      ModelWellFormed(valid, courses, periods, pairs, pass);
      var answer := backend(m);
      var solved := answer.status == Optimal || answer.status == Feasible;
      var result := [];
      if solved {
        CapacityRespected(valid, courses, periods, pairs, pass, answer.values);
        result := GetResult(valid, answer.values, courses, students);
        ExtractOneRecordEach(valid, answer.values, courses, students);
      }
      r := SolverResult(solved && pass == 0, answer.status == Optimal, answer.status == Feasible, result,
                        if !solved && pass < LastPass then Some(pass + 1) else None);
    }

    /** The pass loop of `solve`: passes 0, 1, ... until one is solved or the last one has run. */
    method RunPasses(backend: CpModel -> Answer) returns (pass: nat, r: SolverResult)
      requires Ready() && BackendSound(backend)
      modifies data`previousResultDict
      ensures Ready() && pass <= LastPass && r.nextPass.None?
      ensures forall q :: 0 <= q < pass ==> !PassSolved(backend, minimizeChanges, periods, courses, students, data.previousResult, data.config, q)
      ensures (r.optimal || r.feasable) == PassSolved(backend, minimizeChanges, periods, courses, students, data.previousResult, data.config, pass)
      ensures !(r.optimal || r.feasable) ==> pass == LastPass
      ensures r.schedulable == ((r.optimal || r.feasable) && pass == 0)
      ensures (r.optimal || r.feasable) ==>
        OneRecordEach(ValidAssignments(minimizeChanges, periods, courses, students, data.previousResult, pass),
                      backend(PassModel(minimizeChanges, periods, courses, students, data.previousResult, data.config, pass)).values, courses, students, r.result)
    {
      pass := 0;
      while true
        invariant Ready() && pass <= LastPass
        invariant forall q :: 0 <= q < pass ==> !PassSolved(backend, minimizeChanges, periods, courses, students, data.previousResult, data.config, q)
        decreases LastPass - pass
      {
        r := SolvePass(pass, backend);
        if r.nextPass.None? {
          return;
        }
        UnsolvedPrefix(backend, minimizeChanges, periods, courses, students, data.previousResult, data.config, pass);
        pass := r.nextPass.value;
      }
    }

    /**
     * `solve`: the first solved pass becomes the data's result; if even the last pass is unsolved the
     * run fails with "No solution found". The previous result and the configuration, which fix every
     * pass's model, are left as they were.
     */
    method Solve(backend: CpModel -> Answer) returns (outcome: Result<SolverResult, string>)
      requires Ready() && BackendSound(backend)
      modifies data`result, data`enrichedResult, data`previousResultDict
      ensures Ready() && data.previousResult == old(data.previousResult) && data.config == old(data.config)
      ensures outcome.Failure? ==> data.result == old(data.result) && data.enrichedResult == old(data.enrichedResult)
      ensures outcome.Success? ==>
        ResultReady(data.courses, data.students, data.result) &&
        data.enrichedResult == EnrichAll(data.config, data.courses, data.students, data.result)
      ensures outcome.Failure? ==>
        outcome.error == "No solution found" && forall q :: 0 <= q <= LastPass ==> !PassSolved(backend, minimizeChanges, periods, courses, students, data.previousResult, data.config, q)
      ensures outcome.Success? ==>
        var r := outcome.value;
        (r.optimal || r.feasable) && r.nextPass.None? && data.result == r.result &&
        exists q: nat :: q <= LastPass && r.schedulable == (q == 0) &&
          PassSolved(backend, minimizeChanges, periods, courses, students, data.previousResult, data.config, q) && (forall q' :: 0 <= q' < q ==> !PassSolved(backend, minimizeChanges, periods, courses, students, data.previousResult, data.config, q')) &&
          OneRecordEach(ValidAssignments(minimizeChanges, periods, courses, students, data.previousResult, q),
                        backend(PassModel(minimizeChanges, periods, courses, students, data.previousResult, data.config, q)).values, courses, students, r.result)
    {
      var pass, r := RunPasses(backend);
      if r.optimal || r.feasable {
        ghost var valid := ValidAssignments(minimizeChanges, periods, courses, students, data.previousResult, pass);
        ghost var values := backend(PassModel(minimizeChanges, periods, courses, students, data.previousResult, data.config, pass)).values;
        OneRecordEachReady(valid, values, courses, students, periods, r.result);
        data.SetResult(r.result);
        outcome := Success(r);
      } else {
        UnsolvedPrefix(backend, minimizeChanges, periods, courses, students, data.previousResult, data.config, pass);
        outcome := Failure("No solution found");
      }
    }
  }
}
