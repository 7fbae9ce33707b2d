/**
 * The data context of the elective-course scheduler (model.py): courses, students, the
 * configuration, result records, the presentation view derived from a result record,
 * the churn metric between two results, input validation and the `Data` object that
 * holds all of it.
 */
module Model {
  import opened Wrappers
  import opened Seqs

  /**
   * One cell of a result row. The solver writes `""` for an empty period; a previous result
   * read from a spreadsheet holds `None` for an empty cell.
   */
  type Entry = Option<string>

  /** Python truthiness of a cell: neither `None` nor `""`. */
  predicate Filled(e: Entry) {
    e.Some? && e.value != ""
  }

  /** `"" if x is None else x`. */
  function Normalize(e: Entry): string {
    if e.None? then "" else e.value
  }

  // ---------------------------------------------------------------------------------
  // Entities
  // ---------------------------------------------------------------------------------

  /** Number of periods and the "together" and "apart" student-name pairs. */
  datatype Config = Config(periods: nat, together: seq<seq<string>>, apart: seq<seq<string>>)

  datatype Course = Course(code: string, size: int, availability: seq<bool>, name: string)

  datatype Student = Student(name: string, choices: seq<string>)

  datatype ResultRecord = ResultRecord(student: string, courses: seq<Entry>, penalty: int)

  datatype CourseChoice = CourseChoice(code: string, originalReserve: bool, fits: bool)

  /** The assigned courses per period, followed by the leftover choices; `None` marks a blank cell. */
  datatype EnrichedResultRecord = EnrichedResultRecord(student: string, assignedCourses: seq<Option<CourseChoice>>, penalty: int)

  /** `[c == "1" for c in availability]`. */
  function ParseAvailability(s: string): (bits: seq<bool>)
    ensures |bits| == |s|
    ensures forall i :: 0 <= i < |s| ==> (bits[i] <==> s[i] == '1')
  {
    if s == [] then [] else [s[0] == '1'] + ParseAvailability(s[1..])
  }

  /** The availability string the spreadsheet loader builds: "1" for an offered period, "0" otherwise. */
  function AvailabilityString(bits: seq<bool>): (s: string)
    ensures |s| == |bits|
    ensures forall i :: 0 <= i < |bits| ==> s[i] == if bits[i] then '1' else '0'
  {
    seq(|bits|, i requires 0 <= i < |bits| => if bits[i] then '1' else '0')
  }

  /** `Course.__init__`: the availability string is parsed, and a missing or empty name falls back to the code. */
  function NewCourse(code: string, size: int, availability: string, name: Option<string>): (c: Course)
    ensures c.code == code && c.size == size
    ensures |c.availability| == |availability|
    ensures forall i :: 0 <= i < |availability| ==> (c.availability[i] <==> availability[i] == '1')
    ensures name.Some? && name.value != "" ==> c.name == name.value
    ensures name.None? || name.value == "" ==> c.name == code
  {
    Course(code, size, ParseAvailability(availability), if name.Some? && name.value != "" then name.value else code)
  }

  /** Parsing what the loader writes gives back the availability it read. */
  lemma AvailabilityRoundTrip(bits: seq<bool>)
    ensures ParseAvailability(AvailabilityString(bits)) == bits
  {
  }

  /** Conversely, an availability string of zeros and ones is rebuilt exactly from its parse. */
  lemma AvailabilityStringRoundTrip(s: string)
    requires forall i :: 0 <= i < |s| ==> s[i] == '0' || s[i] == '1'
    ensures AvailabilityString(ParseAvailability(s)) == s
  {
  }

  // ---------------------------------------------------------------------------------
  // Course lookup
  // ---------------------------------------------------------------------------------

  predicate IsCourseCode(courses: seq<Course>, code: string) {
    exists i :: 0 <= i < |courses| && courses[i].code == code
  }

  /** Position of the first course with this code, or -1. */
  function IndexOfCode(courses: seq<Course>, code: string): (i: int)
    ensures -1 <= i < |courses|
    ensures i >= 0 <==> IsCourseCode(courses, code)
    ensures i >= 0 ==> courses[i].code == code && forall j :: 0 <= j < i ==> courses[j].code != code
  {
    if courses == [] then -1
    else if courses[0].code == code then 0
    else
      var r := IndexOfCode(courses[1..], code);
      assert forall j :: 1 <= j < |courses| ==> courses[j] == courses[1..][j - 1];
      if r < 0 then -1 else r + 1
  }

  /** Every course's availability covers the first `n` periods. */
  predicate Covers(courses: seq<Course>, n: nat) {
    forall i :: 0 <= i < |courses| ==> |courses[i].availability| >= n
  }

  /** `get_course` inside `from_result_record`: the first course with this code. */
  function CourseOf(courses: seq<Course>, code: string): (c: Course)
    requires IsCourseCode(courses, code)
    ensures c in courses && c.code == code
    ensures c == courses[IndexOfCode(courses, code)]
  {
    courses[IndexOfCode(courses, code)]
  }

  /** The course with this code is offered in `period` (false for an unknown code or a short availability). */
  predicate AvailableIn(courses: seq<Course>, code: string, period: nat) {
    IsCourseCode(courses, code) && period < |CourseOf(courses, code).availability| &&
    CourseOf(courses, code).availability[period]
  }

  predicate KnownCodes(courses: seq<Course>, codes: seq<string>) {
    forall k :: 0 <= k < |codes| ==> IsCourseCode(courses, codes[k])
  }

  /** Every non-empty choice names a course: what `Data.validate` establishes. */
  predicate ChoicesKnown(courses: seq<Course>, choices: seq<string>) {
    forall k :: 0 <= k < |choices| && choices[k] != "" ==> IsCourseCode(courses, choices[k])
  }

  // ---------------------------------------------------------------------------------
  // EnrichedResultRecord.from_result_record
  // ---------------------------------------------------------------------------------

  /** Python's `s[n:]`, which is empty when `n` is past the end. */
  function Suffix<T>(s: seq<T>, n: nat): seq<T> {
    if n <= |s| then s[n..] else []
  }

  /** `is_reserve`: the code is among the choices after the first `periods`. */
  predicate IsReserve(choices: seq<string>, periods: nat, code: string) {
    code in Suffix(choices, periods)
  }

  /** `[c for c in choices if c and c not in courses]`: the choices the result did not place. */
  function RemainingCodes(choices: seq<string>, slots: seq<Entry>): (r: seq<string>)
    ensures forall k :: 0 <= k < |r| ==> r[k] in choices && r[k] != "" && Some(r[k]) !in slots
  {
    if choices == [] then []
    else
      var c := choices[0];
      (if c != "" && Some(c) !in slots then [c] else []) + RemainingCodes(choices[1..], slots)
  }

  /** A code remains as often as it is chosen when it is non-empty and not placed by the result, and never otherwise. */
  lemma {:induction false} RemainingCount(choices: seq<string>, slots: seq<Entry>, x: string)
    ensures multiset(RemainingCodes(choices, slots))[x] == if x != "" && Some(x) !in slots then multiset(choices)[x] else 0
  {
    if choices != [] {
      var c := choices[0];
      RemainingCount(choices[1..], slots, x);
      assert choices == [c] + choices[1..];
      assert multiset(choices) == multiset{c} + multiset(choices[1..]);
      var head := if c != "" && Some(c) !in slots then [c] else [];
      assert multiset(head + RemainingCodes(choices[1..], slots)) == multiset(head) + multiset(RemainingCodes(choices[1..], slots));
    }
  }

  /** The inner loop of `from_result_record`: the first remaining code whose course is offered in `period`. */
  function FirstAvailable(courses: seq<Course>, rem: seq<string>, period: nat): (r: Option<nat>)
    ensures r.Some? ==> r.value < |rem| && AvailableIn(courses, rem[r.value], period)
    ensures r.Some? ==> forall k :: 0 <= k < r.value ==> !AvailableIn(courses, rem[k], period)
    ensures r.None? ==> forall k :: 0 <= k < |rem| ==> !AvailableIn(courses, rem[k], period)
  {
    FirstAvailableFrom(courses, rem, period, 0)
  }

  /** The search of `FirstAvailable`, resumed at position `i`. */
  function FirstAvailableFrom(courses: seq<Course>, rem: seq<string>, period: nat, i: nat): (r: Option<nat>)
    ensures r.Some? ==> i <= r.value < |rem| && AvailableIn(courses, rem[r.value], period)
    ensures r.Some? ==> forall k :: i <= k < r.value ==> !AvailableIn(courses, rem[k], period)
    ensures r.None? ==> forall k :: i <= k < |rem| ==> !AvailableIn(courses, rem[k], period)
    decreases |rem| - i
  {
    if i >= |rem| then None
    else if AvailableIn(courses, rem[i], period) then Some(i)
    else FirstAvailableFrom(courses, rem, period, i + 1)
  }

  function Choice(choices: seq<string>, periods: nat, code: string, fits: bool): CourseChoice {
    CourseChoice(code, IsReserve(choices, periods, code), fits)
  }

  /**
   * One iteration of the slot loop: the produced cells and the remaining codes afterwards.
   * As the source is written (`asWritten`), after a backfill with an available course the
   * `else` branch of the following `if` also appends `None`; with `asWritten` false that
   * extra cell is not produced (the corrected behaviour, see README "Findings").
   */
  function SlotStep(courses: seq<Course>, choices: seq<string>, periods: nat, slot: Entry, period: nat, rem: seq<string>,
                    asWritten: bool)
    : (r: (seq<Option<CourseChoice>>, seq<string>))
    requires KnownCodes(courses, rem) && Covers(courses, period + 1)
    ensures forall k :: 0 <= k < |r.1| ==> r.1[k] in rem
  {
    if Filled(slot) then ([Some(Choice(choices, periods, slot.value, true))], rem)
    else
      match FirstAvailable(courses, rem, period)
      case Some(j) =>
        var backfill := [Some(Choice(choices, periods, rem[j], false))];
        (if asWritten then backfill + [None] else backfill, RemoveFirst(rem, rem[j]))
      case None =>
        if rem != [] then ([Some(Choice(choices, periods, rem[0], false))], rem[1..])
        else ([None], rem)
  }

  /** The slot loop over the first `|slots|` periods: the cells produced and the codes still remaining. */
  function Walk(courses: seq<Course>, choices: seq<string>, periods: nat, slots: seq<Entry>, rem0: seq<string>,
                asWritten: bool)
    : (r: (seq<Option<CourseChoice>>, seq<string>))
    requires KnownCodes(courses, rem0) && Covers(courses, |slots|)
    ensures forall k :: 0 <= k < |r.1| ==> r.1[k] in rem0
    decreases |slots|
  {
    if slots == [] then ([], rem0)
    else
      var prev := Walk(courses, choices, periods, slots[..|slots| - 1], rem0, asWritten);
      var step := SlotStep(courses, choices, periods, slots[|slots| - 1], |slots| - 1, prev.1, asWritten);
      (prev.0 + step.0, step.1)
  }

  /** The leftover codes appended after the slots, each marked as fitting. */
  function Trailing(choices: seq<string>, periods: nat, rest: seq<string>): (r: seq<Option<CourseChoice>>)
    ensures |r| == |rest|
    ensures forall k :: 0 <= k < |rest| ==> r[k] == Some(Choice(choices, periods, rest[k], true))
  {
    if rest == [] then []
    else Trailing(choices, periods, rest[..|rest| - 1]) + [Some(Choice(choices, periods, rest[|rest| - 1], true))]
  }

  /** What `from_result_record` must be called with: known choices, availability for every slot. */
  predicate EnrichReady(courses: seq<Course>, record: ResultRecord, student: Student) {
    ChoicesKnown(courses, student.choices) && Covers(courses, |record.courses|)
  }

  lemma RemainingKnown(courses: seq<Course>, record: ResultRecord, student: Student)
    requires ChoicesKnown(courses, student.choices)
    ensures KnownCodes(courses, RemainingCodes(student.choices, record.courses))
  {
    var rem := RemainingCodes(student.choices, record.courses);
    forall k | 0 <= k < |rem| ensures IsCourseCode(courses, rem[k]) {
      var j :| 0 <= j < |student.choices| && student.choices[j] == rem[k];
    }
  }

  lemma KnownSubset(courses: seq<Course>, a: seq<string>, b: seq<string>)
    requires KnownCodes(courses, a)
    requires forall k :: 0 <= k < |b| ==> b[k] in a
    ensures KnownCodes(courses, b)
  {
    forall k | 0 <= k < |b| ensures IsCourseCode(courses, b[k]) {
      var j :| 0 <= j < |a| && a[j] == b[k];
    }
  }

  function EnrichWith(config: Config, courses: seq<Course>, record: ResultRecord, student: Student, asWritten: bool)
    : EnrichedResultRecord
    requires EnrichReady(courses, record, student)
  {
    var rem0 := RemainingCodes(student.choices, record.courses);
    RemainingKnown(courses, record, student);
    var w := Walk(courses, student.choices, config.periods, record.courses, rem0, asWritten);
    EnrichedResultRecord(student.name, w.0 + Trailing(student.choices, config.periods, w.1), record.penalty)
  }

  /** `EnrichedResultRecord.from_result_record` as written, as a function of its inputs. */
  function Enrich(config: Config, courses: seq<Course>, record: ResultRecord, student: Student): EnrichedResultRecord
    requires EnrichReady(courses, record, student)
  {
    EnrichWith(config, courses, record, student, true)
  }

  /** The evidently intended `from_result_record`: one cell per period, then the leftovers. */
  function EnrichAligned(config: Config, courses: seq<Course>, record: ResultRecord, student: Student): EnrichedResultRecord
    requires EnrichReady(courses, record, student)
  {
    EnrichWith(config, courses, record, student, false)
  }

  /** The `for remaining in remaining_codes` search of `from_result_record`, up to its `break`. */
  method FindAvailable(courses: seq<Course>, remaining: seq<string>, period: nat) returns (found: Option<nat>)
    requires KnownCodes(courses, remaining) && Covers(courses, period + 1)
    ensures found == FirstAvailable(courses, remaining, period)
  {
    var k := 0;
    while k < |remaining|
      invariant 0 <= k <= |remaining|
      invariant forall j :: 0 <= j < k ==> !AvailableIn(courses, remaining[j], period)
    {
      var course := CourseOf(courses, remaining[k]);
      if course.availability[period] {
        return Some(k);
      }
      k := k + 1;
    }
    return None;
  }

  /** One pass of the slot loop of `from_result_record`. */
  method FillSlot(courses: seq<Course>, choices: seq<string>, periods: nat, code: Entry, period: nat, remaining: seq<string>)
    returns (cells: seq<Option<CourseChoice>>, rest: seq<string>)
    requires KnownCodes(courses, remaining) && Covers(courses, period + 1)
    ensures (cells, rest) == SlotStep(courses, choices, periods, code, period, remaining, true)
  {
    cells, rest := [], remaining;
    if Filled(code) {
      cells := cells + [Some(Choice(choices, periods, code.value, true))];
      assert cells == [Some(Choice(choices, periods, code.value, true))];
      return;
    }
    var replaced := false;
    var found := FindAvailable(courses, rest, period);
    if found.Some? {
      cells := cells + [Some(Choice(choices, periods, rest[found.value], false))];
      rest := RemoveFirst(rest, rest[found.value]);
      replaced := true;
    }
    if !replaced && |rest| > 0 {
      var first := rest[0];
      rest := rest[1..];
      cells := cells + [Some(Choice(choices, periods, first, false))];
    } else {
      cells := cells + [None];
    }
    assert !Filled(code) && found == FirstAvailable(courses, remaining, period);
    if found.Some? {
      assert cells == [Some(Choice(choices, periods, remaining[found.value], false))] + [None];
      assert rest == RemoveFirst(remaining, remaining[found.value]);
    } else if remaining != [] {
      assert cells == [Some(Choice(choices, periods, remaining[0], false))];
      assert rest == remaining[1..];
    } else {
      assert cells == [None];
      assert rest == remaining;
    }
  }

  /** The slot loop of `from_result_record`. */
  method WalkSlots(courses: seq<Course>, choices: seq<string>, periods: nat, slots: seq<Entry>, rem0: seq<string>)
    returns (courseChoices: seq<Option<CourseChoice>>, remaining: seq<string>)
    requires KnownCodes(courses, rem0) && Covers(courses, |slots|)
    ensures (courseChoices, remaining) == Walk(courses, choices, periods, slots, rem0, true)
  {
    courseChoices, remaining := [], rem0;
    var period := 0;
    while period < |slots|
      invariant 0 <= period <= |slots|
      invariant (courseChoices, remaining) == Walk(courses, choices, periods, slots[..period], rem0, true)
      invariant KnownCodes(courses, remaining)
    {
      var cells, rest := FillSlot(courses, choices, periods, slots[period], period, remaining);
      assert Walk(courses, choices, periods, slots[..period + 1], rem0, true) == (courseChoices + cells, rest) by {
        PrefixStep(slots, period);
        assert slots[..period + 1][period] == slots[period];
      }
      KnownSubset(courses, remaining, rest);
      courseChoices := courseChoices + cells;
      remaining := rest;
      period := period + 1;
    }
    assert slots[..period] == slots;
  }

  /** `EnrichedResultRecord.from_result_record`, with the source's loops over the slots and the remaining codes. */
  method FromResultRecord(config: Config, courses: seq<Course>, record: ResultRecord, student: Student)
    returns (r: EnrichedResultRecord)
    requires EnrichReady(courses, record, student)
    ensures r == Enrich(config, courses, record, student)
  {
    var choices, periods := student.choices, config.periods;
    var remaining := RemainingCodes(choices, record.courses);
    RemainingKnown(courses, record, student);
    var courseChoices;
    courseChoices, remaining := WalkSlots(courses, choices, periods, record.courses, remaining);
    courseChoices := AppendTrailing(choices, periods, courseChoices, remaining);
    r := EnrichedResultRecord(student.name, courseChoices, record.penalty);
  }

  /** The `for remaining in remaining_codes` loop after the slots: each leftover code appended as fitting. */
  method AppendTrailing(choices: seq<string>, periods: nat, cells: seq<Option<CourseChoice>>, rest: seq<string>)
    returns (out: seq<Option<CourseChoice>>)
    ensures out == cells + Trailing(choices, periods, rest)
  {
    out := cells;
    var k := 0;
    while k < |rest|
      invariant 0 <= k <= |rest|
      invariant out == cells + Trailing(choices, periods, rest[..k])
    {
      TrailingStep(choices, periods, rest, k);
      out := out + [Some(Choice(choices, periods, rest[k], true))];
      k := k + 1;
    }
    assert rest[..k] == rest;
  }

  lemma TrailingStep(choices: seq<string>, periods: nat, rest: seq<string>, k: nat)
    requires k < |rest|
    ensures Trailing(choices, periods, rest[..k + 1]) ==
      Trailing(choices, periods, rest[..k]) + [Some(Choice(choices, periods, rest[k], true))]
  {
    PrefixStep(rest, k);
  }

  // ---------------------------------------------------------------------------------
  // What from_result_record promises
  // ---------------------------------------------------------------------------------

  /** The codes of the cells whose `fits` flag equals `fits`, in order; blank cells contribute nothing. */
  function FitCodes(cells: seq<Option<CourseChoice>>, fits: bool): seq<string> {
    if cells == [] then []
    else
      var c := cells[|cells| - 1];
      FitCodes(cells[..|cells| - 1], fits) + (if c.Some? && c.value.fits == fits then [c.value.code] else [])
  }

  /** The codes of the filled result slots, in slot order. */
  function FilledCodes(slots: seq<Entry>): seq<string> {
    if slots == [] then []
    else
      var e := slots[|slots| - 1];
      FilledCodes(slots[..|slots| - 1]) + (if Filled(e) then [e.value] else [])
  }

  lemma {:induction false} FitCodesAppend(a: seq<Option<CourseChoice>>, b: seq<Option<CourseChoice>>, fits: bool)
    ensures FitCodes(a + b, fits) == FitCodes(a, fits) + FitCodes(b, fits)
  {
    if b != [] {
      assert (a + b)[..|a + b| - 1] == a + b[..|b| - 1];
      FitCodesAppend(a, b[..|b| - 1], fits);
    } else {
      assert a + b == a;
    }
  }

  lemma {:induction false} TrailingFitCodes(choices: seq<string>, periods: nat, rest: seq<string>)
    ensures FitCodes(Trailing(choices, periods, rest), true) == rest
    ensures FitCodes(Trailing(choices, periods, rest), false) == []
  {
    if rest != [] {
      var t := Trailing(choices, periods, rest);
      assert t[..|t| - 1] == Trailing(choices, periods, rest[..|rest| - 1]);
      TrailingFitCodes(choices, periods, rest[..|rest| - 1]);
      InitLast(rest);
    }
  }

  lemma FitCodesSingle(cell: Option<CourseChoice>, fits: bool)
    ensures FitCodes([cell], fits) == if cell.Some? && cell.value.fits == fits then [cell.value.code] else []
    ensures FitCodes([cell, None], fits) == FitCodes([cell], fits)
  {
    assert [cell][..0] == [];
    assert [cell, None][..1] == [cell];
  }

  /** One slot: a filled slot yields one fitting cell; an empty one moves at most one remaining code into a backfill. */
  lemma SlotStepAccounts(courses: seq<Course>, choices: seq<string>, periods: nat, slot: Entry, period: nat,
                         rem: seq<string>, asWritten: bool)
    requires KnownCodes(courses, rem) && Covers(courses, period + 1)
    ensures var r := SlotStep(courses, choices, periods, slot, period, rem, asWritten);
      FitCodes(r.0, true) == (if Filled(slot) then [slot.value] else []) &&
      multiset(FitCodes(r.0, false)) + multiset(r.1) == multiset(rem)
  {
    if Filled(slot) {
      FitCodesSingle(Some(Choice(choices, periods, slot.value, true)), true);
      FitCodesSingle(Some(Choice(choices, periods, slot.value, true)), false);
    } else if FirstAvailable(courses, rem, period).Some? {
      BackfillAccounts(courses, choices, periods, slot, period, rem, asWritten);
    } else {
      FallbackAccounts(courses, choices, periods, slot, period, rem, asWritten);
    }
  }

  lemma BackfillAccounts(courses: seq<Course>, choices: seq<string>, periods: nat, slot: Entry, period: nat,
                         rem: seq<string>, asWritten: bool)
    requires KnownCodes(courses, rem) && Covers(courses, period + 1)
    requires !Filled(slot) && FirstAvailable(courses, rem, period).Some?
    ensures var r := SlotStep(courses, choices, periods, slot, period, rem, asWritten);
      FitCodes(r.0, true) == [] && multiset(FitCodes(r.0, false)) + multiset(r.1) == multiset(rem)
  {
    var j := FirstAvailable(courses, rem, period).value;
    var cell := Choice(choices, periods, rem[j], false);
    assert SlotStep(courses, choices, periods, slot, period, rem, asWritten) ==
      (if asWritten then [Some(cell)] + [None] else [Some(cell)], RemoveFirst(rem, rem[j]));
    BackfillCells(cell, asWritten, rem);
  }

  /** A backfill cell, with or without the extra blank, moves its code out of the remaining codes. */
  lemma BackfillCells(cell: CourseChoice, extra: bool, rem: seq<string>)
    requires !cell.fits && cell.code in rem
    ensures var cells := if extra then [Some(cell)] + [None] else [Some(cell)];
      FitCodes(cells, true) == [] && multiset(FitCodes(cells, false)) + multiset(RemoveFirst(rem, cell.code)) == multiset(rem)
  {
    FitCodesSingle(Some(cell), true);
    FitCodesSingle(Some(cell), false);
    assert [Some(cell)] + [None] == [Some(cell), None];
    assert multiset([cell.code]) == multiset{cell.code};
    RemoveFirstMultiset(rem, cell.code);
  }

  lemma FallbackAccounts(courses: seq<Course>, choices: seq<string>, periods: nat, slot: Entry, period: nat,
                         rem: seq<string>, asWritten: bool)
    requires KnownCodes(courses, rem) && Covers(courses, period + 1)
    requires !Filled(slot) && FirstAvailable(courses, rem, period).None?
    ensures var r := SlotStep(courses, choices, periods, slot, period, rem, asWritten);
      FitCodes(r.0, true) == [] && multiset(FitCodes(r.0, false)) + multiset(r.1) == multiset(rem)
  {
    if rem != [] {
      FirstRemainingAccounts(choices, periods, rem);
    } else {
      FitCodesSingle(None, true);
      FitCodesSingle(None, false);
    }
  }

  lemma FirstRemainingAccounts(choices: seq<string>, periods: nat, rem: seq<string>)
    requires rem != []
    ensures var cells := [Some(Choice(choices, periods, rem[0], false))];
      FitCodes(cells, true) == [] && multiset(FitCodes(cells, false)) + multiset(rem[1..]) == multiset(rem)
  {
    FitCodesSingle(Some(Choice(choices, periods, rem[0], false)), false);
    FitCodesSingle(Some(Choice(choices, periods, rem[0], false)), true);
    assert rem == [rem[0]] + rem[1..];
  }


  /** The walk over one more slot is the walk over the others followed by that slot's step. */
  lemma WalkStep(courses: seq<Course>, choices: seq<string>, periods: nat, slots: seq<Entry>, rem0: seq<string>,
                 asWritten: bool)
    requires KnownCodes(courses, rem0) && Covers(courses, |slots|) && slots != []
    ensures var prev := Walk(courses, choices, periods, slots[..|slots| - 1], rem0, asWritten);
      KnownCodes(courses, prev.1) && Covers(courses, |slots| - 1 + 1) &&
      var step := SlotStep(courses, choices, periods, slots[|slots| - 1], |slots| - 1, prev.1, asWritten);
      Walk(courses, choices, periods, slots, rem0, asWritten) == (prev.0 + step.0, step.1)
  {
    var prev := Walk(courses, choices, periods, slots[..|slots| - 1], rem0, asWritten);
    KnownSubset(courses, rem0, prev.1);
  }

  /** The slot loop: the fitting cells are the filled slots in order; backfills plus what remains are the starting codes. */
  lemma {:induction false} WalkAccounts(courses: seq<Course>, choices: seq<string>, periods: nat, slots: seq<Entry>,
                                        rem0: seq<string>, asWritten: bool)
    requires KnownCodes(courses, rem0) && Covers(courses, |slots|)
    ensures var w := Walk(courses, choices, periods, slots, rem0, asWritten);
      FitCodes(w.0, true) == FilledCodes(slots) &&
      multiset(FitCodes(w.0, false)) + multiset(w.1) == multiset(rem0)
  {
    if slots != [] {
      var init := slots[..|slots| - 1];
      var prev := Walk(courses, choices, periods, init, rem0, asWritten);
      WalkAccounts(courses, choices, periods, init, rem0, asWritten);
      WalkStep(courses, choices, periods, slots, rem0, asWritten);
      var last := slots[|slots| - 1];
      var step := SlotStep(courses, choices, periods, last, |slots| - 1, prev.1, asWritten);
      SlotStepAccounts(courses, choices, periods, last, |slots| - 1, prev.1, asWritten);
      FitCodesAppend(prev.0, step.0, true);
      FitCodesAppend(prev.0, step.0, false);
      assert FilledCodes(slots) == FilledCodes(init) + (if Filled(last) then [last.value] else []);
      assert multiset(FitCodes(prev.0 + step.0, false)) + multiset(step.1) ==
        multiset(FitCodes(prev.0, false)) + (multiset(FitCodes(step.0, false)) + multiset(step.1));
    } else {
      assert Walk(courses, choices, periods, slots, rem0, asWritten) == ([], rem0);
    }
  }

  /**
   * The enriched row accounts for every slot and every leftover choice: its fitting cells start with the
   * filled slots in slot order, and the other fitting cells together with the backfills are exactly the
   * remaining choices (none lost, none duplicated).
   */
  lemma EnrichAccounts(config: Config, courses: seq<Course>, record: ResultRecord, student: Student, asWritten: bool)
    requires EnrichReady(courses, record, student)
    ensures var cells := EnrichWith(config, courses, record, student, asWritten).assignedCourses;
      var filled := FilledCodes(record.courses);
      var fitting := FitCodes(cells, true);
      |filled| <= |fitting| && fitting[..|filled|] == filled &&
      multiset(fitting[|filled|..]) + multiset(FitCodes(cells, false))
        == multiset(RemainingCodes(student.choices, record.courses))
  {
    var rem0 := RemainingCodes(student.choices, record.courses);
    RemainingKnown(courses, record, student);
    var w := Walk(courses, student.choices, config.periods, record.courses, rem0, asWritten);
    WalkAccounts(courses, student.choices, config.periods, record.courses, rem0, asWritten);
    var tail := Trailing(student.choices, config.periods, w.1);
    FitCodesAppend(w.0, tail, true);
    FitCodesAppend(w.0, tail, false);
    TrailingFitCodes(student.choices, config.periods, w.1);
    var filled := FilledCodes(record.courses);
    assert FitCodes(w.0 + tail, true) == filled + w.1;
    assert (filled + w.1)[|filled|..] == w.1;
    assert FitCodes(w.0 + tail, false) == FitCodes(w.0, false);
  }

  /** When the choices hold no duplicates, each leftover choice appears in exactly one cell. */
  lemma LeftoverOnce(config: Config, courses: seq<Course>, record: ResultRecord, student: Student, asWritten: bool,
                     code: string)
    requires EnrichReady(courses, record, student)
    requires Distinct(student.choices)
    requires code in RemainingCodes(student.choices, record.courses)
    ensures var cells := EnrichWith(config, courses, record, student, asWritten).assignedCourses;
      var filled := FilledCodes(record.courses);
      |filled| <= |FitCodes(cells, true)| &&
      multiset(FitCodes(cells, true)[|filled|..])[code] + multiset(FitCodes(cells, false))[code] == 1
  {
    EnrichAccounts(config, courses, record, student, asWritten);
    DistinctMultiplicity(student.choices, code);
    RemainingCount(student.choices, record.courses, code);
  }

  /** Every produced choice carries `original_reserve` exactly when its code is among the choices after the first `periods`. */
  predicate ReserveFlagsAgree(cells: seq<Option<CourseChoice>>, choices: seq<string>, periods: nat) {
    forall k :: 0 <= k < |cells| && cells[k].Some? ==> cells[k].value.originalReserve == IsReserve(choices, periods, cells[k].value.code)
  }

  lemma {:induction false} WalkReserveFlags(courses: seq<Course>, choices: seq<string>, periods: nat, slots: seq<Entry>,
                                            rem0: seq<string>, asWritten: bool)
    requires KnownCodes(courses, rem0) && Covers(courses, |slots|)
    ensures ReserveFlagsAgree(Walk(courses, choices, periods, slots, rem0, asWritten).0, choices, periods)
  {
    if slots != [] {
      var init := slots[..|slots| - 1];
      var prev := Walk(courses, choices, periods, init, rem0, asWritten);
      WalkReserveFlags(courses, choices, periods, init, rem0, asWritten);
      KnownSubset(courses, rem0, prev.1);
      var step := SlotStep(courses, choices, periods, slots[|slots| - 1], |slots| - 1, prev.1, asWritten);
      assert ReserveFlagsAgree(step.0, choices, periods);
      var cells := prev.0 + step.0;
      forall k | 0 <= k < |cells| && cells[k].Some?
        ensures cells[k].value.originalReserve == IsReserve(choices, periods, cells[k].value.code)
      {
        if k >= |prev.0| {
          assert cells[k] == step.0[k - |prev.0|];
        }
      }
    }
  }

  /** Each cell of the enriched row flags a reserve exactly when the code is one of the reserve choices. */
  lemma EnrichReserveFlags(config: Config, courses: seq<Course>, record: ResultRecord, student: Student, asWritten: bool)
    requires EnrichReady(courses, record, student)
    ensures ReserveFlagsAgree(EnrichWith(config, courses, record, student, asWritten).assignedCourses,
                              student.choices, config.periods)
  {
    var rem0 := RemainingCodes(student.choices, record.courses);
    RemainingKnown(courses, record, student);
    var w := Walk(courses, student.choices, config.periods, record.courses, rem0, asWritten);
    WalkReserveFlags(courses, student.choices, config.periods, record.courses, rem0, asWritten);
    var tail := Trailing(student.choices, config.periods, w.1);
    var cells := w.0 + tail;
    forall k | 0 <= k < |cells| && cells[k].Some?
      ensures cells[k].value.originalReserve == IsReserve(student.choices, config.periods, cells[k].value.code)
    {
      if k >= |w.0| {
        assert cells[k] == tail[k - |w.0|];
      }
    }
  }

  /**
   * An empty slot takes the first remaining code whose course is offered in that period (removing that
   * occurrence) and, as written, an extra blank cell.
   */
  lemma SlotStepBackfill(courses: seq<Course>, choices: seq<string>, periods: nat, slot: Entry, period: nat,
                         rem: seq<string>, asWritten: bool, j: nat)
    requires KnownCodes(courses, rem) && Covers(courses, period + 1)
    requires !Filled(slot)
    requires j < |rem| && AvailableIn(courses, rem[j], period)
    requires forall k :: 0 <= k < j ==> !AvailableIn(courses, rem[k], period)
    ensures var r := SlotStep(courses, choices, periods, slot, period, rem, asWritten);
      r.0 == [Some(Choice(choices, periods, rem[j], false))] + (if asWritten then [None] else []) &&
      r.1 == RemoveAt(rem, j)
  {
    var found := FirstAvailable(courses, rem, period);
    assert found.Some?;
    assert !(found.value < j);
    assert found == Some(j);
    forall k | 0 <= k < j ensures rem[k] != rem[j] {
      assert !AvailableIn(courses, rem[k], period);
    }
    RemoveFirstAt(rem, j);
    assert [Some(Choice(choices, periods, rem[j], false))] + [] == [Some(Choice(choices, periods, rem[j], false))];
  }

  /** An empty slot with no remaining code offered in that period takes the first remaining code, or else a blank. */
  lemma SlotStepFallback(courses: seq<Course>, choices: seq<string>, periods: nat, slot: Entry, period: nat,
                         rem: seq<string>, asWritten: bool)
    requires KnownCodes(courses, rem) && Covers(courses, period + 1)
    requires !Filled(slot)
    requires forall k :: 0 <= k < |rem| ==> !AvailableIn(courses, rem[k], period)
    ensures SlotStep(courses, choices, periods, slot, period, rem, asWritten) ==
      (if rem != [] then ([Some(Choice(choices, periods, rem[0], false))], rem[1..]) else ([None], []))
  {
    assert FirstAvailable(courses, rem, period).None?;
  }

  // ---------------------------------------------------------------------------------
  // The extra blank cell after an availability backfill
  // ---------------------------------------------------------------------------------

  /** Cell `i` speaks for period `i`: a filled slot keeps its code, an empty one holds a backfill or a blank. */
  predicate PeriodAligned(cells: seq<Option<CourseChoice>>, slots: seq<Entry>, choices: seq<string>, periods: nat) {
    |slots| <= |cells| &&
    forall i :: 0 <= i < |slots| ==>
      (Filled(slots[i]) ==> cells[i] == Some(Choice(choices, periods, slots[i].value, true))) &&
      (!Filled(slots[i]) ==> cells[i].None? || !cells[i].value.fits)
  }

  /** Without the extra blank, a slot yields one cell: its own code when filled, a backfill or a blank otherwise. */
  lemma SlotStepAligned(courses: seq<Course>, choices: seq<string>, periods: nat, slot: Entry, period: nat, rem: seq<string>)
    requires KnownCodes(courses, rem) && Covers(courses, period + 1)
    ensures var r := SlotStep(courses, choices, periods, slot, period, rem, false);
      |r.0| == 1 &&
      (Filled(slot) ==> r.0[0] == Some(Choice(choices, periods, slot.value, true))) &&
      (!Filled(slot) ==> r.0[0].None? || !r.0[0].value.fits)
  {
  }

  /** Appending one aligned cell for one more slot keeps the cells aligned. */
  lemma AlignedExtend(cells: seq<Option<CourseChoice>>, slots: seq<Entry>, step: seq<Option<CourseChoice>>, slot: Entry,
                      choices: seq<string>, periods: nat)
    requires |cells| == |slots| && PeriodAligned(cells, slots, choices, periods) && |step| == 1
    requires Filled(slot) ==> step[0] == Some(Choice(choices, periods, slot.value, true))
    requires !Filled(slot) ==> step[0].None? || !step[0].value.fits
    ensures PeriodAligned(cells + step, slots + [slot], choices, periods)
  {
    var all := cells + step;
    var allSlots := slots + [slot];
    forall i | 0 <= i < |allSlots|
      ensures Filled(allSlots[i]) ==> all[i] == Some(Choice(choices, periods, allSlots[i].value, true))
      ensures !Filled(allSlots[i]) ==> all[i].None? || !all[i].value.fits
    {
      if i < |slots| {
        assert allSlots[i] == slots[i] && all[i] == cells[i];
      } else {
        assert allSlots[i] == slot && all[i] == step[0];
      }
    }
  }

  lemma {:induction false} WalkAligned(courses: seq<Course>, choices: seq<string>, periods: nat, slots: seq<Entry>,
                                       rem0: seq<string>)
    requires KnownCodes(courses, rem0) && Covers(courses, |slots|)
    ensures var w := Walk(courses, choices, periods, slots, rem0, false);
      |w.0| == |slots| && PeriodAligned(w.0, slots, choices, periods)
  {
    if slots != [] {
      var init := slots[..|slots| - 1];
      var prev := Walk(courses, choices, periods, init, rem0, false);
      WalkAligned(courses, choices, periods, init, rem0);
      WalkStep(courses, choices, periods, slots, rem0, false);
      var step := SlotStep(courses, choices, periods, slots[|slots| - 1], |slots| - 1, prev.1, false);
      SlotStepAligned(courses, choices, periods, slots[|slots| - 1], |slots| - 1, prev.1);
      InitLast(slots);
      AlignedExtend(prev.0, init, step.0, slots[|slots| - 1], choices, periods);
    } else {
      assert Walk(courses, choices, periods, slots, rem0, false).0 == [];
    }
  }

  /** The corrected enrichment keeps one cell per period, so the first `periods` cells line up with the slots. */
  lemma EnrichAlignedKeepsPeriods(config: Config, courses: seq<Course>, record: ResultRecord, student: Student)
    requires EnrichReady(courses, record, student)
    ensures PeriodAligned(EnrichAligned(config, courses, record, student).assignedCourses, record.courses,
                          student.choices, config.periods)
  {
    var rem0 := RemainingCodes(student.choices, record.courses);
    RemainingKnown(courses, record, student);
    var w := Walk(courses, student.choices, config.periods, record.courses, rem0, false);
    WalkAligned(courses, student.choices, config.periods, record.courses, rem0);
    var cells := w.0 + Trailing(student.choices, config.periods, w.1);
    forall i | 0 <= i < |record.courses| ensures cells[i] == w.0[i] { }
  }

  /** Two courses, A and B, both offered in both periods. */
  function TwoCourses(): seq<Course> {
    [Course("A", 1, [true, true], "A"), Course("B", 1, [true, true], "B")]
  }

  lemma TwoCoursesKnown()
    ensures KnownCodes(TwoCourses(), ["A"]) && ChoicesKnown(TwoCourses(), ["A", "B"]) && Covers(TwoCourses(), 2)
  {
    assert TwoCourses()[0].code == "A" && TwoCourses()[1].code == "B";
  }

  lemma MisalignedFirstSlot()
    ensures KnownCodes(TwoCourses(), ["A"])
    ensures SlotStep(TwoCourses(), ["A", "B"], 2, Some(""), 0, ["A"], true)
      == ([Some(CourseChoice("A", false, false)), None], [])
  {
    TwoCoursesKnown();
    assert CourseOf(TwoCourses(), "A") == TwoCourses()[0];
    assert FirstAvailable(TwoCourses(), ["A"], 0) == Some(0);
    assert RemoveFirst(["A"], "A") == [];
    assert Suffix(["A", "B"], 2) == [];
    var x := Some(Choice(["A", "B"], 2, "A", false));
    assert x == Some(CourseChoice("A", false, false));
    assert [x] + [None] == [x, None];
  }

  lemma MisalignedWalk()
    ensures KnownCodes(TwoCourses(), ["A"]) && Covers(TwoCourses(), 2)
    ensures Walk(TwoCourses(), ["A", "B"], 2, [Some(""), Some("B")], ["A"], true)
      == ([Some(CourseChoice("A", false, false)), None, Some(CourseChoice("B", false, true))], [])
  {
    TwoCoursesKnown();
    MisalignedFirstSlot();
    var slots: seq<Entry> := [Some(""), Some("B")];
    assert slots[..1] == [Some("")] && slots[..1][..0] == [];
    assert Suffix(["A", "B"], 2) == [];
    var a := Some(CourseChoice("A", false, false));
    assert Walk(TwoCourses(), ["A", "B"], 2, slots[..1][..0], ["A"], true) == ([], ["A"]);
    var w0 := Walk(TwoCourses(), ["A", "B"], 2, slots[..1], ["A"], true);
    assert w0 == ([] + [a, None], []);
    assert [] + [a, None] == [a, None];
    var b := Some(Choice(["A", "B"], 2, "B", true));
    assert b == Some(CourseChoice("B", false, true));
    assert SlotStep(TwoCourses(), ["A", "B"], 2, Some("B"), 1, [], true) == ([b], []);
    assert [a, None] + [b] == [a, None, b];
  }

  lemma MisalignedRemaining()
    ensures RemainingCodes(["A", "B"], [Some(""), Some("B")]) == ["A"]
  {
    var slots: seq<Entry> := [Some(""), Some("B")];
    assert Some("A") !in slots && Some("B") == slots[1];
    assert ["B"][1..] == [] && RemainingCodes([], slots) == [];
    assert RemainingCodes(["B"], slots) == [];
    assert ["A", "B"][1..] == ["B"];
  }

  lemma MisalignedCells()
    ensures EnrichReady(TwoCourses(), ResultRecord("s", [Some(""), Some("B")], 0), Student("s", ["A", "B"]))
    ensures Enrich(Config(2, [], []), TwoCourses(), ResultRecord("s", [Some(""), Some("B")], 0), Student("s", ["A", "B"]))
              .assignedCourses == [Some(CourseChoice("A", false, false)), None, Some(CourseChoice("B", false, true))]
  {
    TwoCoursesKnown();
    MisalignedWalk();
    MisalignedRemaining();
    var w := Walk(TwoCourses(), ["A", "B"], 2, [Some(""), Some("B")], ["A"], true);
    assert Trailing(["A", "B"], 2, []) == [];
    assert w.0 + [] == w.0;
  }

  /**
   * As written, a backfill with an offered course pushes every later period one cell to the right: with two
   * periods, courses A and B offered in both, choices A and B and a result that leaves period 0 empty and
   * puts B in period 1, the cell for period 1 is blank and B lands in a third cell.
   */
  lemma EnrichMisaligned()
    ensures var record := ResultRecord("s", [Some(""), Some("B")], 0);
      var student := Student("s", ["A", "B"]);
      EnrichReady(TwoCourses(), record, student) &&
      !PeriodAligned(Enrich(Config(2, [], []), TwoCourses(), record, student).assignedCourses, record.courses,
                     student.choices, 2)
  {
    MisalignedCells();
    var cells := [Some(CourseChoice("A", false, false)), None, Some(CourseChoice("B", false, true))];
    assert cells[1] == None;
    assert Filled([Some(""), Some("B")][1]);
  }




  // ---------------------------------------------------------------------------------
  // Data.get_difference_count
  // ---------------------------------------------------------------------------------

  /** `["" if x is None else x for x in l]`. */
  function NormalizeAll(l: seq<Entry>): (r: seq<string>)
    ensures |r| == |l| && forall i :: 0 <= i < |l| ==> r[i] == Normalize(l[i])
  {
    seq(|l|, i requires 0 <= i < |l| => Normalize(l[i]))
  }

  /** The number of positions below `n` where `a` and `b` differ. */
  function Mismatches(a: seq<string>, b: seq<string>, n: nat): nat
    requires n <= |a| && n <= |b|
  {
    if n == 0 then 0 else Mismatches(a, b, n - 1) + (if a[n - 1] != b[n - 1] then 1 else 0)
  }

  function Min(x: nat, y: nat): nat {
    if x <= y then x else y
  }

  function Gap(x: nat, y: nat): nat {
    if x <= y then y - x else x - y
  }

  /** `diffs(l1, l2)`: differing positions of the common prefix plus the difference in length. */
  function DiffCount(l1: seq<Entry>, l2: seq<Entry>): nat {
    var a, b := NormalizeAll(l1), NormalizeAll(l2);
    Mismatches(a, b, Min(|a|, |b|)) + Gap(|a|, |b|)
  }

  /** The `diffs` helper of `get_difference_count`, with its counting loop. */
  method Diffs(l1: seq<Entry>, l2: seq<Entry>) returns (count: nat)
    ensures count == DiffCount(l1, l2)
  {
    var ll1 := NormalizeAll(l1);
    var ll2 := NormalizeAll(l2);
    count := 0;
    var n := if |ll1| <= |ll2| then |ll1| else |ll2|;
    for i := 0 to n
      invariant count == Mismatches(ll1, ll2, i)
    {
      if ll1[i] != ll2[i] {
        count := count + 1;
      }
    }
    count := count + if |ll1| >= |ll2| then |ll1| - |ll2| else |ll2| - |ll1|;
  }

  lemma {:induction false} MismatchesZero(a: seq<string>, b: seq<string>, n: nat)
    requires n <= |a| && n <= |b|
    ensures Mismatches(a, b, n) == 0 <==> a[..n] == b[..n]
  {
    if n > 0 {
      MismatchesZero(a, b, n - 1);
      assert a[..n] == a[..n - 1] + [a[n - 1]] && b[..n] == b[..n - 1] + [b[n - 1]];
      if a[..n] == b[..n] {
        assert a[..n - 1] == a[..n][..n - 1] && b[..n - 1] == b[..n][..n - 1];
        assert a[n - 1] == a[..n][n - 1];
      }
    }
  }

  lemma {:induction false} MismatchesSymmetric(a: seq<string>, b: seq<string>, n: nat)
    requires n <= |a| && n <= |b|
    ensures Mismatches(a, b, n) == Mismatches(b, a, n)
  {
    if n > 0 {
      MismatchesSymmetric(a, b, n - 1);
    }
  }

  lemma {:induction false} MismatchesUpdate(a: seq<string>, b: seq<string>, n: nat, i: nat, x: string)
    requires n <= |a| && n <= |b| && i < |b|
    requires i < n ==> a[i] == b[i] && x != b[i]
    ensures Mismatches(a, b[i := x], n) == Mismatches(a, b, n) + (if i < n then 1 else 0)
  {
    if n > 0 {
      MismatchesUpdate(a, b, n - 1, i, x);
    }
  }

  /** `diffs` is 0 exactly on lists that are equal once `None` is read as `""`. */
  lemma DiffCountZero(l1: seq<Entry>, l2: seq<Entry>)
    ensures DiffCount(l1, l2) == 0 <==> NormalizeAll(l1) == NormalizeAll(l2)
  {
    var a, b := NormalizeAll(l1), NormalizeAll(l2);
    var n := Min(|a|, |b|);
    MismatchesZero(a, b, n);
    if a == b {
      assert a[..n] == b[..n];
    }
    if DiffCount(l1, l2) == 0 {
      assert |a| == |b| && a[..n] == a && b[..n] == b;
    }
  }

  /** `diffs` does not depend on the order of its arguments. */
  lemma DiffCountSymmetric(l1: seq<Entry>, l2: seq<Entry>)
    ensures DiffCount(l1, l2) == DiffCount(l2, l1)
  {
    var a, b := NormalizeAll(l1), NormalizeAll(l2);
    MismatchesSymmetric(a, b, Min(|a|, |b|));
  }

  /** Changing one shared position that agreed adds exactly one difference; changing an extra position adds none. */
  lemma DiffCountChangeOne(l1: seq<Entry>, l2: seq<Entry>, i: nat, e: Entry)
    requires i < |l2|
    requires i < |l1| ==> Normalize(l1[i]) == Normalize(l2[i]) && Normalize(e) != Normalize(l2[i])
    ensures DiffCount(l1, l2[i := e]) == DiffCount(l1, l2) + (if i < |l1| then 1 else 0)
  {
    var a, b := NormalizeAll(l1), NormalizeAll(l2);
    assert NormalizeAll(l2[i := e]) == b[i := Normalize(e)];
    MismatchesUpdate(a, b, Min(|a|, |b|), i, Normalize(e));
  }

  /** Index of the last record for `name`, or -1. */
  function LastIndexOf(result: seq<ResultRecord>, name: string): (i: int)
    ensures -1 <= i < |result|
    ensures i >= 0 ==> result[i].student == name && forall j :: i < j < |result| ==> result[j].student != name
    ensures i < 0 ==> forall j :: 0 <= j < |result| ==> result[j].student != name
  {
    if result == [] then -1
    else if result[|result| - 1].student == name then |result| - 1
    else LastIndexOf(result[..|result| - 1], name)
  }

  /** `_result_to_dict`: a dict comprehension, so a later record for the same student replaces an earlier one. */
  function ResultToDict(result: seq<ResultRecord>): map<string, seq<Entry>> {
    if result == [] then map[]
    else
      var last := result[|result| - 1];
      ResultToDict(result[..|result| - 1])[last.student := last.courses]
  }

  /** The dict maps exactly the names that have a record, each to the courses of its last record. */
  lemma {:induction false} ResultToDictLast(result: seq<ResultRecord>)
    ensures forall name :: name in ResultToDict(result) <==> LastIndexOf(result, name) >= 0
    ensures forall name :: name in ResultToDict(result) ==> ResultToDict(result)[name] == result[LastIndexOf(result, name)].courses
  {
    if result != [] {
      var init := result[..|result| - 1];
      ResultToDictLast(init);
      forall name ensures LastIndexOf(result, name) == if result[|result| - 1].student == name then |result| - 1 else LastIndexOf(init, name) {
      }
      forall name | LastIndexOf(init, name) >= 0 ensures result[LastIndexOf(init, name)] == init[LastIndexOf(init, name)] {
      }
    }
  }

  /**
   * `get_previous_result`: nothing when there is no previous result (or an empty one), otherwise the
   * looked-up courses of that student, if any.
   */
  function PreviousLookup(previous: Option<seq<ResultRecord>>, name: string): Option<seq<Entry>> {
    if previous.None? || previous.value == [] then None
    else
      var d := ResultToDict(previous.value);
      if name in d then Some(d[name]) else None
  }

  /** The previous-result lookup finds the courses of the last previous record with that name. */
  lemma PreviousLookupLast(previous: Option<seq<ResultRecord>>, name: string)
    ensures PreviousLookup(previous, name).Some? <==>
      previous.Some? && exists j :: 0 <= j < |previous.value| && previous.value[j].student == name
    ensures PreviousLookup(previous, name).Some? ==>
      PreviousLookup(previous, name).value == previous.value[LastIndexOf(previous.value, name)].courses
  {
    if previous.Some? {
      ResultToDictLast(previous.value);
      if exists j :: 0 <= j < |previous.value| && previous.value[j].student == name {
        assert LastIndexOf(previous.value, name) >= 0;
      }
    }
  }

  /** The first loop of `get_difference_count`: `diffs` for a student in both results, 1 otherwise. */
  function RosterDiff(students: seq<Student>, pr: map<string, seq<Entry>>, nw: map<string, seq<Entry>>): nat {
    if students == [] then 0
    else
      var name := students[|students| - 1].name;
      RosterDiff(students[..|students| - 1], pr, nw) +
        (if name in pr && name in nw then DiffCount(pr[name], nw[name]) else 1)
  }

  /** Both loops of `get_difference_count`: the roster differences plus 1 per previous-only name. */
  function ChangeCount(students: seq<Student>, pr: map<string, seq<Entry>>, nw: map<string, seq<Entry>>): nat {
    RosterDiff(students, pr, nw) + |pr.Keys - nw.Keys|
  }

  /** `get_difference_count`: a missing or empty previous result counts as no records. */
  function DifferenceCount(students: seq<Student>, previous: Option<seq<ResultRecord>>, result: seq<ResultRecord>): nat {
    ChangeCount(students, ResultToDict(if previous.Some? then previous.value else []), ResultToDict(result))
  }

  lemma {:induction false} RosterDiffAppend(a: seq<Student>, b: seq<Student>, pr: map<string, seq<Entry>>,
                                            nw: map<string, seq<Entry>>)
    ensures RosterDiff(a + b, pr, nw) == RosterDiff(a, pr, nw) + RosterDiff(b, pr, nw)
  {
    if b == [] {
      assert a + b == a;
    } else {
      assert (a + b)[..|a + b| - 1] == a + b[..|b| - 1];
      RosterDiffAppend(a, b[..|b| - 1], pr, nw);
    }
  }

  /** Every roster student contributes nothing exactly when present in both results with equal lists. */
  lemma {:induction false} RosterDiffZero(students: seq<Student>, pr: map<string, seq<Entry>>, nw: map<string, seq<Entry>>)
    ensures RosterDiff(students, pr, nw) == 0 <==>
      forall k :: 0 <= k < |students| ==> var name := students[k].name;
        name in pr && name in nw && NormalizeAll(pr[name]) == NormalizeAll(nw[name])
  {
    if students != [] {
      var init := students[..|students| - 1];
      RosterDiffZero(init, pr, nw);
      var name := students[|students| - 1].name;
      if name in pr && name in nw {
        DiffCountZero(pr[name], nw[name]);
      }
      assert forall k :: 0 <= k < |init| ==> students[k] == init[k];
    }
  }

  /** The difference count is 0 exactly when every roster student has equal lists in both results and no name is only in the previous one. */
  lemma ChangeCountZero(students: seq<Student>, pr: map<string, seq<Entry>>, nw: map<string, seq<Entry>>)
    ensures ChangeCount(students, pr, nw) == 0 <==>
      (forall k :: 0 <= k < |students| ==> var name := students[k].name;
         name in pr && name in nw && NormalizeAll(pr[name]) == NormalizeAll(nw[name])) &&
      pr.Keys <= nw.Keys
  {
    RosterDiffZero(students, pr, nw);
    if pr.Keys - nw.Keys == {} {
      assert pr.Keys <= nw.Keys;
    }
    if pr.Keys <= nw.Keys {
      assert pr.Keys - nw.Keys == {};
    }
  }

  /** A roster student missing from either result counts exactly 1, wherever it stands in the roster. */
  lemma MissingStudentCountsOne(students: seq<Student>, pr: map<string, seq<Entry>>, nw: map<string, seq<Entry>>, k: nat)
    requires k < |students|
    requires students[k].name !in pr || students[k].name !in nw
    ensures RosterDiff(students, pr, nw) == RosterDiff(RemoveAt(students, k), pr, nw) + 1
  {
    assert students == students[..k] + [students[k]] + students[k + 1..];
    RosterDiffAppend(students[..k] + [students[k]], students[k + 1..], pr, nw);
    RosterDiffAppend(students[..k], [students[k]], pr, nw);
    RosterDiffAppend(students[..k], students[k + 1..], pr, nw);
    assert [students[k]][..0] == [];
  }

  lemma {:induction false} RosterDiffAbsent(students: seq<Student>, pr: map<string, seq<Entry>>, nw: map<string, seq<Entry>>,
                                            name: string, l: seq<Entry>)
    requires name !in nw
    ensures RosterDiff(students, pr[name := l], nw) == RosterDiff(students, pr, nw)
  {
    if students != [] {
      RosterDiffAbsent(students[..|students| - 1], pr, nw, name, l);
    }
  }

  /** A name only in the previous result adds exactly 1. */
  lemma PreviousOnlyCountsOne(students: seq<Student>, pr: map<string, seq<Entry>>, nw: map<string, seq<Entry>>,
                              name: string, l: seq<Entry>)
    requires name !in pr && name !in nw
    ensures ChangeCount(students, pr[name := l], nw) == ChangeCount(students, pr, nw) + 1
  {
    RosterDiffAbsent(students, pr, nw, name, l);
    PreviousOnlyKeys(pr, nw, name, l);
  }

  lemma PreviousOnlyKeys(pr: map<string, seq<Entry>>, nw: map<string, seq<Entry>>, name: string, l: seq<Entry>)
    requires name !in pr && name !in nw
    ensures |pr[name := l].Keys - nw.Keys| == |pr.Keys - nw.Keys| + 1
  {
    assert pr[name := l].Keys - nw.Keys == (pr.Keys - nw.Keys) + {name};
  }



  lemma {:induction false} RosterDiffOther(students: seq<Student>, pr: map<string, seq<Entry>>, nw: map<string, seq<Entry>>,
                                           name: string, l: seq<Entry>)
    requires name in nw
    requires forall k :: 0 <= k < |students| ==> students[k].name != name
    ensures RosterDiff(students, pr, nw[name := l]) == RosterDiff(students, pr, nw)
  {
    if students != [] {
      RosterDiffOther(students[..|students| - 1], pr, nw, name, l);
    }
  }

  /** Changing one agreeing position of one roster student's new list adds exactly 1 to the difference count. */
  lemma ChangeOneCountsOne(students: seq<Student>, pr: map<string, seq<Entry>>, nw: map<string, seq<Entry>>,
                           k: nat, i: nat, e: Entry)
    requires k < |students| && forall j :: 0 <= j < |students| && j != k ==> students[j].name != students[k].name
    requires students[k].name in pr && students[k].name in nw
    requires i < |pr[students[k].name]| && i < |nw[students[k].name]|
    requires Normalize(pr[students[k].name][i]) == Normalize(nw[students[k].name][i])
    requires Normalize(e) != Normalize(nw[students[k].name][i])
    ensures var name := students[k].name;
      ChangeCount(students, pr, nw[name := nw[name][i := e]]) == ChangeCount(students, pr, nw) + 1
  {
    var name := students[k].name;
    var nw' := nw[name := nw[name][i := e]];
    var before, after := students[..k], students[k + 1..];
    assert students == before + [students[k]] + after;
    forall j | 0 <= j < |before| ensures before[j].name != name { assert before[j] == students[j]; }
    forall j | 0 <= j < |after| ensures after[j].name != name { assert after[j] == students[k + 1 + j]; }
    RosterDiffAppend(before + [students[k]], after, pr, nw);
    RosterDiffAppend(before, [students[k]], pr, nw);
    RosterDiffAppend(before + [students[k]], after, pr, nw');
    RosterDiffAppend(before, [students[k]], pr, nw');
    RosterDiffOther(before, pr, nw, name, nw[name][i := e]);
    RosterDiffOther(after, pr, nw, name, nw[name][i := e]);
    assert [students[k]][..0] == [];
    DiffCountChangeOne(pr[name], nw[name], i, e);
    assert nw'.Keys == nw.Keys;
  }

  // ---------------------------------------------------------------------------------
  // Data.validate
  // ---------------------------------------------------------------------------------

  datatype ValidationError =
    | UnknownCourse(choice: string, student: string)
    | PairNotTwo(group: string)
    | UnknownPairMember(name: string, group: string)
    | DuplicateChoices(student: string)

  /** The line `validate` reports for an error. */
  function Message(e: ValidationError): string {
    match e
    case UnknownCourse(choice, student) => "Onbekend vak " + choice + " voor leerling " + student
    case PairNotTwo(group) => group + " lijst moet paren van 2 elementen bevatten"
    case UnknownPairMember(name, group) => name + " staat onder '" + group + "', maar is niet gevonden in een klas"
    case DuplicateChoices(student) => "Duplicaten in keuzes van leerling " + student
  }

  function Messages(errors: seq<ValidationError>): (r: seq<string>)
    ensures |r| == |errors|
  {
    if errors == [] then [] else Messages(errors[..|errors| - 1]) + [Message(errors[|errors| - 1])]
  }

  /** `sep.join(parts)`. */
  function Join(parts: seq<string>, sep: string): string {
    if parts == [] then ""
    else if |parts| == 1 then parts[0]
    else Join(parts[..|parts| - 1], sep) + sep + parts[|parts| - 1]
  }

  predicate HasStudent(students: seq<Student>, name: string) {
    exists k :: 0 <= k < |students| && students[k].name == name
  }

  /** The unknown choices of one student, in choice order. */
  function ChoiceErrorsOf(name: string, choices: seq<string>, courses: seq<Course>): seq<ValidationError> {
    if choices == [] then []
    else
      var c := choices[|choices| - 1];
      ChoiceErrorsOf(name, choices[..|choices| - 1], courses) +
        (if c != "" && !IsCourseCode(courses, c) then [UnknownCourse(c, name)] else [])
  }

  function ChoiceErrors(students: seq<Student>, courses: seq<Course>): seq<ValidationError> {
    if students == [] then []
    else
      var s := students[|students| - 1];
      ChoiceErrors(students[..|students| - 1], courses) + ChoiceErrorsOf(s.name, s.choices, courses)
  }

  /** The pair names that are no roster student. */
  function MemberErrors(group: string, names: seq<string>, students: seq<Student>): seq<ValidationError> {
    if names == [] then []
    else
      var n := names[|names| - 1];
      MemberErrors(group, names[..|names| - 1], students) +
        (if !HasStudent(students, n) then [UnknownPairMember(n, group)] else [])
  }

  function PairErrors(group: string, pairs: seq<seq<string>>, students: seq<Student>): seq<ValidationError> {
    if pairs == [] then []
    else
      var pair := pairs[|pairs| - 1];
      PairErrors(group, pairs[..|pairs| - 1], students) +
        (if |pair| != 2 then [PairNotTwo(group)] else []) + MemberErrors(group, pair, students)
  }

  /** The two pair groups in the order `validate` visits them. */
  function Groups(config: Config): seq<(string, seq<seq<string>>)> {
    [("Samen", config.together), ("Apart", config.apart)]
  }

  function GroupErrors(groups: seq<(string, seq<seq<string>>)>, students: seq<Student>): seq<ValidationError> {
    if groups == [] then []
    else
      var g := groups[|groups| - 1];
      GroupErrors(groups[..|groups| - 1], students) + PairErrors(g.0, g.1, students)
  }

  /** Students whose choice list has a repeated entry (`len(choices) != len(set(choices))`, so two blanks count too). */
  function DuplicateErrors(students: seq<Student>): seq<ValidationError> {
    if students == [] then []
    else
      var s := students[|students| - 1];
      DuplicateErrors(students[..|students| - 1]) +
        (if |s.choices| != |ToSet(s.choices)| then [DuplicateChoices(s.name)] else [])
  }

  /** Every error `validate` collects, in the order it reports them. */
  function ValidationErrors(config: Config, students: seq<Student>, courses: seq<Course>): seq<ValidationError> {
    ChoiceErrors(students, courses) + GroupErrors(Groups(config), students) + DuplicateErrors(students)
  }

  /** A pair of exactly two roster names. */
  predicate PairValid(pair: seq<string>, students: seq<Student>) {
    |pair| == 2 && forall m :: 0 <= m < |pair| ==> HasStudent(students, pair[m])
  }

  predicate PairsValid(pairs: seq<seq<string>>, students: seq<Student>) {
    forall p :: 0 <= p < |pairs| ==> PairValid(pairs[p], students)
  }

  /** The input `validate` accepts, stated directly. */
  predicate InputValid(config: Config, students: seq<Student>, courses: seq<Course>) {
    (forall k :: 0 <= k < |students| ==> ChoicesKnown(courses, students[k].choices)) &&
    PairsValid(config.together, students) && PairsValid(config.apart, students) &&
    (forall k :: 0 <= k < |students| ==> Distinct(students[k].choices))
  }

  lemma {:induction false} ChoiceErrorsOfEmpty(name: string, choices: seq<string>, courses: seq<Course>)
    ensures ChoiceErrorsOf(name, choices, courses) == [] <==> ChoicesKnown(courses, choices)
  {
    if choices != [] {
      ChoiceErrorsOfEmpty(name, choices[..|choices| - 1], courses);
      assert forall k :: 0 <= k < |choices| - 1 ==> choices[k] == choices[..|choices| - 1][k];
    }
  }

  lemma {:induction false} ChoiceErrorsEmpty(students: seq<Student>, courses: seq<Course>)
    ensures ChoiceErrors(students, courses) == [] <==>
      forall k :: 0 <= k < |students| ==> ChoicesKnown(courses, students[k].choices)
  {
    if students != [] {
      var s := students[|students| - 1];
      ChoiceErrorsEmpty(students[..|students| - 1], courses);
      ChoiceErrorsOfEmpty(s.name, s.choices, courses);
      assert forall k :: 0 <= k < |students| - 1 ==> students[k] == students[..|students| - 1][k];
    }
  }

  lemma {:induction false} MemberErrorsEmpty(group: string, names: seq<string>, students: seq<Student>)
    ensures MemberErrors(group, names, students) == [] <==> forall m :: 0 <= m < |names| ==> HasStudent(students, names[m])
  {
    if names != [] {
      MemberErrorsEmpty(group, names[..|names| - 1], students);
      assert forall m :: 0 <= m < |names| - 1 ==> names[m] == names[..|names| - 1][m];
    }
  }

  lemma {:induction false} PairErrorsEmpty(group: string, pairs: seq<seq<string>>, students: seq<Student>)
    ensures PairErrors(group, pairs, students) == [] <==> PairsValid(pairs, students)
  {
    if pairs != [] {
      var init := pairs[..|pairs| - 1];
      var last := pairs[|pairs| - 1];
      PairErrorsEmpty(group, init, students);
      MemberErrorsEmpty(group, last, students);
      var before, shape, members :=
        PairErrors(group, init, students), (if |last| != 2 then [PairNotTwo(group)] else []), MemberErrors(group, last, students);
      assert PairErrors(group, pairs, students) == before + shape + members;
      assert |before + shape + members| == |before| + |shape| + |members|;
      assert members == [] && shape == [] <==> PairValid(last, students);
      PairsValidInit(pairs, students);
    }
  }

  /** The pairs are valid exactly when all but the last are and the last is. */
  lemma PairsValidInit(pairs: seq<seq<string>>, students: seq<Student>)
    requires pairs != []
    ensures PairsValid(pairs, students) <==>
      PairsValid(pairs[..|pairs| - 1], students) && PairValid(pairs[|pairs| - 1], students)
  {
    assert forall p :: 0 <= p < |pairs| - 1 ==> pairs[p] == pairs[..|pairs| - 1][p];
  }

  lemma {:induction false} DuplicateErrorsEmpty(students: seq<Student>)
    ensures DuplicateErrors(students) == [] <==> forall k :: 0 <= k < |students| ==> Distinct(students[k].choices)
  {
    if students != [] {
      var s := students[|students| - 1];
      DuplicateErrorsEmpty(students[..|students| - 1]);
      ToSetCardinality(s.choices);
      assert forall k :: 0 <= k < |students| - 1 ==> students[k] == students[..|students| - 1][k];
    }
  }

  /** `validate` collects no error exactly when every choice is a known course, every pair names two roster students and no choice list repeats an entry. */
  lemma ValidationErrorsEmpty(config: Config, students: seq<Student>, courses: seq<Course>)
    ensures ValidationErrors(config, students, courses) == [] <==> InputValid(config, students, courses)
  {
    ChoiceErrorsEmpty(students, courses);
    PairErrorsEmpty("Samen", config.together, students);
    PairErrorsEmpty("Apart", config.apart, students);
    DuplicateErrorsEmpty(students);
    var groups := Groups(config);
    assert groups[..1][..0] == [] && groups[..1] == [groups[0]];
    assert GroupErrors(groups[..1], students) == [] + PairErrors("Samen", config.together, students);
    assert GroupErrors(groups, students) == GroupErrors(groups[..1], students) + PairErrors("Apart", config.apart, students);
  }

  /** The first loop of `validate`: unknown choices, student by student. */
  method CollectChoiceErrors(students: seq<Student>, courses: seq<Course>) returns (errors: seq<ValidationError>)
    ensures errors == ChoiceErrors(students, courses)
  {
    errors := [];
    for k := 0 to |students|
      invariant errors == ChoiceErrors(students[..k], courses)
    {
      PrefixStep(students, k);
      var student := students[k];
      ghost var before := errors;
      for j := 0 to |student.choices|
        invariant errors == before + ChoiceErrorsOf(student.name, student.choices[..j], courses)
      {
        PrefixStep(student.choices, j);
        var choice := student.choices[j];
        if choice != "" && !IsCourseCode(courses, choice) {
          errors := errors + [UnknownCourse(choice, student.name)];
        }
      }
      WholePrefix(student.choices);
    }
    WholePrefix(students);
  }

  /** The pair loops of `validate` for one group: wrong-sized pairs and unknown names. */
  method CollectPairErrors(group: string, pairs: seq<seq<string>>, students: seq<Student>) returns (errors: seq<ValidationError>)
    ensures errors == PairErrors(group, pairs, students)
  {
    errors := [];
    for p := 0 to |pairs|
      invariant errors == PairErrors(group, pairs[..p], students)
    {
      PrefixStep(pairs, p);
      var pair := pairs[p];
      if |pair| != 2 {
        errors := errors + [PairNotTwo(group)];
      }
      ghost var sized := errors;
      for m := 0 to |pair|
        invariant errors == sized + MemberErrors(group, pair[..m], students)
      {
        PrefixStep(pair, m);
        if !HasStudent(students, pair[m]) {
          errors := errors + [UnknownPairMember(pair[m], group)];
        }
      }
      WholePrefix(pair);
    }
    WholePrefix(pairs);
  }

  /** The loop of `validate` over the "Samen" and "Apart" groups. */
  method CollectGroupErrors(groups: seq<(string, seq<seq<string>>)>, students: seq<Student>) returns (errors: seq<ValidationError>)
    ensures errors == GroupErrors(groups, students)
  {
    errors := [];
    for g := 0 to |groups|
      invariant errors == GroupErrors(groups[..g], students)
    {
      PrefixStep(groups, g);
      var pairErrors := CollectPairErrors(groups[g].0, groups[g].1, students);
      errors := errors + pairErrors;
    }
    WholePrefix(groups);
  }

  /** The last loop of `validate`: students whose choice list repeats an entry. */
  method CollectDuplicateErrors(students: seq<Student>) returns (errors: seq<ValidationError>)
    ensures errors == DuplicateErrors(students)
  {
    errors := [];
    for k := 0 to |students|
      invariant errors == DuplicateErrors(students[..k])
    {
      PrefixStep(students, k);
      var student := students[k];
      if |student.choices| != |ToSet(student.choices)| {
        errors := errors + [DuplicateChoices(student.name)];
      }
    }
    WholePrefix(students);
  }

  // ---------------------------------------------------------------------------------
  // Lookups by name
  // ---------------------------------------------------------------------------------

  /** Position of the first roster student with this name (`next(i for i, s in enumerate(students) if ...)`). */
  function StudentIndex(students: seq<Student>, name: string): (i: nat)
    requires HasStudent(students, name)
    ensures i < |students| && students[i].name == name
    ensures forall j :: 0 <= j < i ==> students[j].name != name
  {
    if students[0].name == name then 0
    else
      assert HasStudent(students[1..], name) by {
        var k :| 0 <= k < |students| && students[k].name == name;
        assert students[1..][k - 1] == students[k];
      }
      StudentIndex(students[1..], name) + 1
  }

  /** `student_to_class` after registering `students` under `classCode`, one after the other. */
  function AssignClass(m: map<string, string>, students: seq<Student>, classCode: string): map<string, string> {
    if students == [] then m
    else AssignClass(m, students[..|students| - 1], classCode)[students[|students| - 1].name := classCode]
  }

  /** Every added name maps to the class; every other name keeps its class. */
  lemma {:induction false} AssignClassMaps(m: map<string, string>, students: seq<Student>, classCode: string)
    ensures forall name :: HasStudent(students, name) ==>
      name in AssignClass(m, students, classCode) && AssignClass(m, students, classCode)[name] == classCode
    ensures forall name :: !HasStudent(students, name) ==>
      (name in AssignClass(m, students, classCode) <==> name in m) &&
      (name in m ==> AssignClass(m, students, classCode)[name] == m[name])
  {
    if students != [] {
      var init := students[..|students| - 1];
      AssignClassMaps(m, init, classCode);
      forall name | HasStudent(students, name) && name != students[|students| - 1].name
        ensures HasStudent(init, name)
      {
        var k :| 0 <= k < |students| && students[k].name == name;
        assert init[k] == students[k];
      }
      forall name | HasStudent(init, name) ensures HasStudent(students, name) {
        var k :| 0 <= k < |init| && init[k].name == name;
        assert students[k] == init[k];
      }
    }
  }

  /** What the `result` setter needs: each record names a roster student whose enrichment is defined. */
  predicate ResultReady(courses: seq<Course>, students: seq<Student>, records: seq<ResultRecord>) {
    forall i :: 0 <= i < |records| ==>
      HasStudent(students, records[i].student) &&
      EnrichReady(courses, records[i], students[StudentIndex(students, records[i].student)])
  }

  /**
   * The list comprehension of the `result` setter: each record enriched with its student, in order, using
   * the corrected cell alignment (one cell per period); each keeps its record's student and penalty.
   */
  function EnrichAll(config: Config, courses: seq<Course>, students: seq<Student>, records: seq<ResultRecord>)
    : (r: seq<EnrichedResultRecord>)
    requires ResultReady(courses, students, records)
    ensures |r| == |records|
    ensures forall i :: 0 <= i < |records| ==> r[i].student == records[i].student && r[i].penalty == records[i].penalty
    ensures forall i :: 0 <= i < |records| ==>
      r[i] == EnrichAligned(config, courses, records[i], students[StudentIndex(students, records[i].student)])
  {
    seq(|records|, j requires 0 <= j < |records| =>
      EnrichAligned(config, courses, records[j], students[StudentIndex(students, records[j].student)]))
  }

  /** The roster loop of `get_difference_count`. */
  method CountRosterDiff(students: seq<Student>, pr: map<string, seq<Entry>>, nw: map<string, seq<Entry>>) returns (diff: nat)
    ensures diff == RosterDiff(students, pr, nw)
  {
    diff := 0;
    for k := 0 to |students|
      invariant diff == RosterDiff(students[..k], pr, nw)
    {
      PrefixStep(students, k);
      var student := students[k];
      if student.name in pr && student.name in nw {
        var d := Diffs(pr[student.name], nw[student.name]);
        diff := diff + d;
      } else {
        diff := diff + 1;
      }
    }
    WholePrefix(students);
  }

  /** The loop over the previous result's names in `get_difference_count`: those absent from the new one. */
  method CountPreviousOnly(keys: set<string>, newKeys: set<string>) returns (count: nat)
    ensures count == |keys - newKeys|
  {
    count := 0;
    var unseen := keys;
    ghost var counted: set<string> := {};
    while unseen != {}
      invariant unseen <= keys
      invariant counted == (keys - unseen) - newKeys
      invariant count == |counted|
      decreases unseen
    {
      var name :| name in unseen;
      VisitKey(keys, newKeys, unseen, name, counted);
      unseen := unseen - {name};
      if name !in newKeys {
        counted := counted + {name};
        count := count + 1;
      }
    }
  }

  lemma VisitKey(keys: set<string>, newKeys: set<string>, unseen: set<string>, name: string, counted: set<string>)
    requires name in unseen && unseen <= keys && counted == (keys - unseen) - newKeys
    ensures name !in newKeys ==> |counted + {name}| == |counted| + 1
    ensures (keys - (unseen - {name})) - newKeys == if name in newKeys then counted else counted + {name}
  {
  }

  // ---------------------------------------------------------------------------------
  // Data
  // ---------------------------------------------------------------------------------

  /** The application's data context: input, current result and its view, previous result and its lookup cache. */
  class Data {
    var config: Config
    var students: seq<Student>
    var courses: seq<Course>
    var result: seq<ResultRecord>
    var enrichedResult: seq<EnrichedResultRecord>
    var previousResult: Option<seq<ResultRecord>>
    var previousResultDict: Option<map<string, seq<Entry>>>
    var studentToClass: map<string, string>

    /** A filled cache is the dict of the previous result (an empty one is rebuilt on the next lookup). */
    ghost predicate Valid()
      reads this
    {
      previousResultDict.Some? && previousResultDict.value != map[] ==>
        previousResult.Some? && previousResultDict.value == ResultToDict(previousResult.value)
    }

    constructor(config: Config)
      ensures Valid()
      ensures this.config == config && students == [] && courses == [] && result == [] && enrichedResult == []
      ensures previousResult.None? && previousResultDict.None? && studentToClass == map[]
    {
      this.config := config;
      students := [];
      courses := [];
      result := [];
      enrichedResult := [];
      previousResult := None;
      previousResultDict := None;
      studentToClass := map[];
    }

    /** `add_students`: append the class's students to the roster and record their class. */
    method AddStudents(classCode: string, newStudents: seq<Student>)
      modifies this
      ensures students == old(students) + newStudents
      ensures studentToClass == AssignClass(old(studentToClass), newStudents, classCode)
      ensures config == old(config) && courses == old(courses) && result == old(result)
      ensures enrichedResult == old(enrichedResult) && previousResult == old(previousResult)
      ensures previousResultDict == old(previousResultDict)
    {
      for k := 0 to |newStudents|
        invariant students == old(students) + newStudents[..k]
        invariant studentToClass == AssignClass(old(studentToClass), newStudents[..k], classCode)
        invariant config == old(config) && courses == old(courses) && result == old(result)
        invariant enrichedResult == old(enrichedResult) && previousResult == old(previousResult)
        invariant previousResultDict == old(previousResultDict)
      {
        PrefixStep(newStudents, k);
        students := students + [newStudents[k]];
        studentToClass := studentToClass[newStudents[k].name := classCode];
      }
      WholePrefix(newStudents);
    }

    /** `index_of_student`. */
    function IndexOfStudent(name: string): (i: nat)
      reads this
      requires HasStudent(students, name)
      ensures i < |students| && students[i].name == name
      ensures forall j :: 0 <= j < i ==> students[j].name != name
    {
      StudentIndex(students, name)
    }

    /** `get_student`: the first roster student with this name. */
    function GetStudent(name: string): (s: Student)
      reads this
      requires HasStudent(students, name)
      ensures s in students && s.name == name
      ensures s == students[StudentIndex(students, name)]
    {
      students[StudentIndex(students, name)]
    }

    /** `get_course_name`: empty for an empty code, otherwise the name of the first course with that code. */
    function GetCourseName(code: string): (n: string)
      reads this
      requires code == "" || IsCourseCode(courses, code)
      ensures code == "" ==> n == ""
      ensures code != "" ==> exists i :: 0 <= i < |courses| && courses[i].code == code && n == courses[i].name
      ensures code != "" ==> n == courses[IndexOfCode(courses, code)].name
    {
      if code == "" then "" else CourseOf(courses, code).name
    }

    /**
     * The `result` setter: store the records and their enriched view (with the corrected cell alignment),
     * record by record in the same order.
     * A record whose student is not on the roster makes the source raise; that is excluded here.
     */
    method SetResult(value: seq<ResultRecord>)
      requires ResultReady(courses, students, value)
      modifies this`result, this`enrichedResult
      ensures config == old(config) && students == old(students) && courses == old(courses)
      ensures previousResult == old(previousResult) && previousResultDict == old(previousResultDict)
      ensures studentToClass == old(studentToClass)
      ensures result == value
      ensures enrichedResult == EnrichAll(config, courses, students, value)
      ensures |enrichedResult| == |value|
      ensures forall i :: 0 <= i < |value| ==>
        enrichedResult[i] == EnrichAligned(config, courses, value[i], students[StudentIndex(students, value[i].student)])
    {
      result := value;
      enrichedResult := EnrichAll(config, courses, students, value);
    }

    /**
     * `get_difference_count`: per roster student the `diffs` of its previous and new lists (1 when it is
     * missing from either), plus 1 per name only in the previous result.
     */
    method GetDifferenceCount() returns (diff: nat)
      ensures diff == DifferenceCount(students, previousResult, result)
    {
      var previous := if previousResult.Some? && previousResult.value != [] then previousResult.value else [];
      var pr := ResultToDict(previous);
      var nw := ResultToDict(result);
      assert pr == ResultToDict(if previousResult.Some? then previousResult.value else []);
      var rosterDiff := CountRosterDiff(students, pr, nw);
      var previousOnly := CountPreviousOnly(pr.Keys, nw.Keys);
      diff := rosterDiff + previousOnly;
    }

    /** `_get_previous_result_dict`: build the dict on first use (or while it is empty) and keep it. */
    method GetPreviousResultDict() returns (d: map<string, seq<Entry>>)
      requires Valid() && previousResult.Some?
      modifies this`previousResultDict
      ensures Valid()
      ensures d == ResultToDict(previousResult.value)
      ensures previousResultDict == Some(d)
    {
      if previousResultDict.None? || previousResultDict.value == map[] {
        previousResultDict := Some(ResultToDict(previousResult.value));
      }
      d := previousResultDict.value;
    }

    /** `get_previous_result`: the lookup never depends on whether the cache was filled. */
    method GetPreviousResult(name: string) returns (r: Option<seq<Entry>>)
      requires Valid()
      modifies this`previousResultDict
      ensures Valid()
      ensures r == PreviousLookup(previousResult, name)
    {
      if previousResult.None? || previousResult.value == [] {
        return None;
      }
      var d := GetPreviousResultDict();
      r := if name in d then Some(d[name]) else None;
    }

    /** `validate`: collect every error; fail with their messages joined by newlines if there is any. */
    method Validate() returns (outcome: Result<(), string>)
      ensures var errors := ValidationErrors(config, students, courses);
        outcome == if errors == [] then Success(()) else Failure(Join(Messages(errors), "\n"))
      ensures outcome.Success? <==> InputValid(config, students, courses)
    {
      var errors := CollectChoiceErrors(students, courses);
      var groupErrors := CollectGroupErrors(Groups(config), students);
      var duplicates := CollectDuplicateErrors(students);
      errors := errors + groupErrors + duplicates;
      ValidationErrorsEmpty(config, students, courses);
      if errors != [] {
        return Failure(Join(Messages(errors), "\n"));
      }
      return Success(());
    }
  }
}
