/** One generation run, `generer_emploi_du_temps` (times_table.py, lines 31-150): look up the
    courses, filter them, derive the roster, build the model, ask the solver, and read the
    timetable back. The solver itself is a parameter: an oracle that, whenever it answers
    OPTIMAL or FEASIBLE, answers with an assignment satisfying C1-C4. */
module Generator {
  import opened Common
  import opened Catalog
  import opened Model
  import opened Projection

  /** The statuses the CP-SAT solver reports. */
  datatype Status = Optimal | Feasible | Infeasible | ModelInvalid | Unknown

  /** The solver's answer: its status and the variables it set to 1. */
  datatype SolveResult = SolveResult(status: Status, chosen: set<Var>)

  /** The statuses under which the run reads a timetable back. */
  predicate Found(st: Status) {
    st == Optimal || st == Feasible
  }

  /** The solver's contract on one model: a reported solution meets C1-C4. */
  predicate SoundAt(solve: Problem -> SolveResult, pr: Problem) {
    Found(solve(pr).status) ==> Satisfies(pr, solve(pr).chosen)
  }

  /** The index ranges a run builds for a filtered course list. */
  function ProblemFor(courses: seq<Course>, rooms: seq<Room>, level: int): Problem {
    Problem(|courses|, |rooms|, level, |Roster(courses)|)
  }

  /** The filtered courses a run schedules. */
  function RunCourses(data: SubjectsData, level: int, semester: string): seq<Course> {
    FilterCourses(CoursesFor(data, level, semester))
  }

  /** A timetable for `courses`: entry i schedules course i, with a room, a teacher of the
      roster, the run's level and a known day and period, and no two entries share a
      (day, period) slot. */
  predicate ValidTimetable(es: seq<Entry>, courses: seq<Course>, rooms: seq<Room>,
                           roster: seq<string>, level: int)
  {
    && |es| == |courses|
    && (forall i :: 0 <= i < |es| ==>
          && es[i].course == courses[i] && es[i].room in rooms && es[i].teacher in roster
          && es[i].level == level && es[i].day in DayNames && es[i].period in PeriodNames)
    && (forall i, k :: 0 <= i < k < |es| ==>
          (es[i].day, es[i].period) != (es[k].day, es[k].period))
  }

  /** The timetable read from a sound answer meets `ValidTimetable`. */
  lemma ReadBackValid(courses: seq<Course>, rooms: seq<Room>, level: int, x: set<Var>)
    requires Satisfies(ProblemFor(courses, rooms, level), x)
    ensures var pr := ProblemFor(courses, rooms, level);
      var t := ChosenTuples(pr, x);
      && (forall i :: 0 <= i < |t| ==>
            t[i].c < |courses| && t[i].s < |rooms| && t[i].j < Days && t[i].p < Periods
            && t[i].e < |Roster(courses)|)
      && ValidTimetable(ToEntries(courses, rooms, Roster(courses), t), courses, rooms,
                        Roster(courses), level)
  {
    var pr := ProblemFor(courses, rooms, level);
    var roster := Roster(courses);
    var t := ChosenTuples(pr, x);
    CoverageListing(pr, x);
    ListingExclusive(pr, x);
    NamesDistinct();
    forall i | 0 <= i < |t| ensures InRange(pr, t[i]) {
      assert t[i] in t;
    }
    var es := ToEntries(courses, rooms, roster, t);
    forall i, k | 0 <= i < k < |es| ensures (es[i].day, es[i].period) != (es[k].day, es[k].period) {
      assert (t[i].j, t[i].p) != (t[k].j, t[k].p);
    }
  }

  /** A run: no course data for the level and semester, or no solution, gives None;
      otherwise the solver's assignment read back in loop order, a valid timetable of the
      filtered courses, which then number at most 30. */
  function Generate(data: SubjectsData, rooms: seq<Room>, level: int, semester: string,
                    solve: Problem -> SolveResult): (r: Option<seq<Entry>>)
    requires SoundAt(solve, ProblemFor(RunCourses(data, level, semester), rooms, level))
    ensures r.None? <==>
      || CoursesFor(data, level, semester) == []
      || !Found(solve(ProblemFor(RunCourses(data, level, semester), rooms, level)).status)
    ensures !(level in data && semester in data[level]) ==> r.None?
    ensures r.Some? ==>
      var courses := RunCourses(data, level, semester);
      && ValidTimetable(r.value, courses, rooms, Roster(courses), level)
      && |courses| <= Days * Periods
    ensures r.Some? ==>
      var courses := RunCourses(data, level, semester);
      var pr := ProblemFor(courses, rooms, level);
      r.value == ToEntries(courses, rooms, Roster(courses), ChosenTuples(pr, solve(pr).chosen))
  {
    var found := CoursesFor(data, level, semester);
    if found == [] then None
    else
      var courses := FilterCourses(found);
      var roster := Roster(courses);
      var pr := ProblemFor(courses, rooms, level);
      var answer := solve(pr);
      if Found(answer.status) then
        ReadBackValid(courses, rooms, level, answer.chosen);
        FeasibleNeedsSlots(pr, answer.chosen);
        Some(ToEntries(courses, rooms, roster, ChosenTuples(pr, answer.chosen)))
      else None
  }
}
