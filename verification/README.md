# Timetable generator: a verified model of its pure core

The generator (`times_table.py`, class `GenerateurEmploiDuTemps`) builds a weekly timetable
for one university level and semester. It reads the course list, drops courses without a
name, and derives a teacher roster from the lecturers the courses declare. It then states a
0/1 model over the variables X[(course, room, day, period, level, teacher)] and hands it to
the CP-SAT solver. The model has four constraints:

- C1: every course meets exactly once.
- C2, C3, C4: no room, no level and no teacher is booked twice in the same (day, period).

The objective rewards earlier periods with weights 5, 4, 3, 2, 1. The chosen variables are
read back as timetable entries, sorted by (day, period) for display, and the names are
shortened to fit their columns. A console menu maps choices 1 to 10 to a (level, semester).

This project models that logic as pure Dafny functions and proves what it promises. The
solver is a parameter (`solve: Problem -> SolveResult`). The only thing assumed of it is
that a reported OPTIMAL or FEASIBLE assignment satisfies C1-C4.

Modules:

- `Common` (common.dfy): `Option`, duplicate-freedom, first index, subsequence, pigeonhole.
- `Catalog` (catalog.dfy): course records, lookup by level and semester, the course
  filter, and the roster.
- `Model` (model.dfy): the index space, C1-C4, period weights, the loop order of the
  variables, and the objective.
- `Projection` (projection.dfy): the listing of the chosen variables, what C1-C4 make of
  it, the objective as a sum over it, and the entries.
- `Generator` (generator.dfy): one run of `generer_emploi_du_temps`.
- `Display` (display.dfy): the stable sort by (day, period), fragment joining, truncation,
  and printed rows.
- `Menu` (menu.dfy): decoding of a menu answer.

Behaviour of the code worth noting:

- A name is tested for emptiness, not blankness, so `" "` is kept.
- No search procedure is modelled. The code delegates to CP-SAT.
- A course list whose names are all filtered out still gives a run. If the lookup found
  courses but none has a usable name, the model handed to the solver has no course. When
  the solver reports OPTIMAL or FEASIBLE on it, the run returns an empty timetable, not
  "no data"; otherwise it returns `None`.
- A missing level or semester and an infeasible model both give `None`. The caller cannot
  tell them apart.
- Any roster teacher may be assigned to any course. C1-C4 do not tie a course to its own
  declared lecturers, so neither does `Generator.ValidTimetable`.
- The display raises TypeError, which the menu does not catch, when a line has to format a
  null value: a course whose code is null, or an entry whose teacher is empty or "N/A" and
  whose course's lecturer is null. A roster teacher is never empty, so the second case needs
  a lecturer literally named "N/A".

## Model

| member | source | states |
|---|---|---|
| Catalog.FilterCourses | times_table.py:40-41 | The kept courses form a subsequence of the input in the same order. Each kept course has a non-empty string name or a fragment list with a non-empty fragment. Every such course is kept with its full multiplicity. |
| Catalog.Dedup | times_table.py:56-64 | After the roster loop has visited a sequence of lecturer entries, the roster has no duplicates. It holds exactly the non-empty entries, ordered by first occurrence. |
| Catalog.FirstSeenStep | times_table.py:59-64 | One loop step preserves that invariant. A new non-empty name is appended, and an empty or already-seen name leaves the roster unchanged. |
| Catalog.RosterSpec | times_table.py:56-67 | The roster is never empty, has no duplicates and contains no empty name. When some course names a lecturer, the roster is the first-seen de-duplication of all lecturer entries (string or list form). Otherwise it is exactly ["Enseignant par défaut"]. |
| Model.WeightsDecreasing | times_table.py:8-10 | There are 6 days and 5 periods. The weight table is defined for every period index, runs from 5 down to 1, and is strictly decreasing. |
| Model.Next | times_table.py:79-85 | Advancing the nested loops from an existing variable moves strictly forward in loop order. No existing variable is skipped, and the result is an existing variable or the end. |
| Projection.ChosenFrom | times_table.py:130-137 | From a loop position on, the read-back collects exactly the chosen, existing variables not before that position. They come in strictly increasing loop order. |
| Projection.ChosenTuples | times_table.py:130-137 | The whole read-back lists each chosen, existing variable exactly once, in loop order (c, s, j, p, n, e). |
| Projection.CoverageListing | times_table.py:88-89 | Under C1 the listing has exactly one entry per course, |C| entries in all, and entry i belongs to course i. |
| Projection.ListingExclusive | times_table.py:92-108 | Under C1-C4 no two listed variables share a (room, day, period) or a (teacher, day, period). Because the level list is a singleton, no two share a (day, period) at all. |
| Projection.FeasibleNeedsSlots | times_table.py:49-53 | An assignment satisfying C1-C4 exists only if the number of courses is at most 6 * 5 = 30. |
| Projection.SatisfiesIffListingOk | times_table.py:87-108 | For an assignment of existing variables, C1-C4 hold if and only if the read-back listing passes a check of its own: one entry per course in course order, and no shared room, level or teacher slot. |
| Projection.ObjectiveIsSumOfChosen | times_table.py:110-120 | The objective, a sum of W_p[p] * X over every variable, equals the sum of W_p[p] over the chosen variables. |
| Projection.ObjectiveBounds | times_table.py:110-120 | Under C1 the objective lies between |C| and 5 * |C|. |
| Projection.ObjectiveDominance | times_table.py:110-120 | Take two assignments satisfying C1. If one puts every course in a period no later than the other, and one course strictly earlier, its objective is strictly larger. |
| Generator.ReadBackValid | times_table.py:130-147 | The timetable read from an assignment satisfying C1-C4 has entry i for filtered course i. Each entry uses a known room, a roster teacher, the run's level, and a known day and period. No two entries share a (day, period). |
| Generator.Generate | times_table.py:24-150 | A run returns None exactly when the lookup finds no course for the level and semester, a missing level or semester included, or the solver reports neither OPTIMAL nor FEASIBLE. Otherwise it returns the solver's assignment read back in loop order: a valid timetable of the filtered courses, whose number is then at most 30. |
| Display.SortBy | times_table.py:161-164 | Sorting returns a permutation of its input, ordered non-decreasingly by key. |
| Display.SortByStable | times_table.py:161-164 | The sort is stable: the elements sharing a key appear in their input order. |
| Display.SortEntries | times_table.py:157-164 | Entries are put in order of day index, then period index within a day. The result is a permutation of the input, and entries with equal keys keep their relative order. |
| Display.NonEmpty | times_table.py:184 | Fragment filtering keeps a subsequence that holds exactly the non-empty fragments, each as often as in the input. |
| Display.JoinSplit | times_table.py:184 | Joining with single spaces inverts splitting on single spaces. |
| Display.SplitJoin | times_table.py:184 | Splitting inverts joining for a non-empty list of pieces that contain no space. |
| Display.JoinFragmentsReadsBack | times_table.py:183-184 | A fragment-list name with a non-empty fragment and no spaces inside fragments reads back, split on spaces, as exactly its non-empty fragments. |
| Display.Truncate | times_table.py:200-204 | A string longer than the limit becomes exactly limit characters long: its first limit-3 characters, then "...". A string within the limit is unchanged, so the result never exceeds the limit. |
| Display.TruncateIdempotent | times_table.py:200-204 | Truncating twice equals truncating once. A string is left unchanged exactly when it already fits. |
| Display.TeacherShown | times_table.py:188-194 | A teacher other than "" and "N/A" is printed as is. Otherwise the course's lecturer field decides: a string is printed, a list is printed as its non-empty names joined by spaces, a missing field leaves the teacher, and a null lecturer has no printed form. |
| Display.RosterTeacherShown | times_table.py:188-194 | For a generated entry, whose teacher comes from the roster built at lines 56-67, the entry's own teacher is printed unless it is literally "N/A". |
| Display.ToRow | times_table.py:180-206 | The line of an entry exists exactly when its code is not null and its teacher has a printed form. It carries the entry's day, period and room number; the code, or "N/A" when missing; the course name, cut to its first 34 characters and "..." when longer than 37; and the printed teacher, cut to 14 characters and "..." when longer than 17. |
| Display.RowShowsEntry | times_table.py:180-206 | When a fragment-list name and a named teacher fit their columns, the printed name splits back into exactly the non-empty fragments and the printed teacher is the entry's teacher. |
| Display.Rows | times_table.py:157-206 | The display fails exactly when some entry's line cannot be formatted. Otherwise row i is the line of the i-th entry in (day, period) order, so there is one row per entry and the rows are in that order. |
| Menu.DecodeChoice | times_table.py:236-239 | Exactly the choices 1..10 decode, to a level in 1..5 and a semester in {s1, s2}. The semester is "s1" exactly for odd choices. |
| Menu.DecodeChoiceFor | times_table.py:236-239 | Every (level, semester) in {1..5} x {s1, s2} has a choice in 1..10 that decodes to it. |
| Menu.ChoiceForDecode | times_table.py:236-239 | Decoding is injective on 1..10, so together with the row above it is a bijection onto {1..5} x {s1, s2}. |
| Menu.MenuStep | times_table.py:229-245 | The raw answer "0" quits. A non-number is rejected. A number runs a generation exactly when it is in 1..10, for the level and semester it encodes. Any other number, "00" included, is out of range. |

## Left out

- Loading `subjects.json` and `rooms.json`, the `exit(1)` on failure, and the file-existence
  check in `main` are file I/O. The model takes the decoded data as values.
- Building the CP-SAT model and `solver.Solve` are calls into OR-tools. The solver is the
  parameter `solve`. Only its C1-C4 guarantee is assumed, and no optimality claim is made.
- Printing is console output: banners, day headers, column padding and status messages. The
  `Row` values stand for what each printed line holds.
- The repeating `while True` menu loop and `input` are console interaction. `Menu.MenuStep`
  models one answer, and the conversion `int(choix)` is its parameter `parsed`.
- Levels are keyed by their integer value. The source keys the subjects file by
  `str(niveau)`, and the "niveau" and "subjects" layers of the JSON are folded into one
  map whose missing keys behave as the KeyError path.
- Lecturer values and name fragments are modelled as strings only. A non-string JSON value
  inside these fields has no counterpart.
- Display.Rows: requires that no course name is a non-string, non-list JSON value. The
  source pads such a value with `format`, which prints a number and raises TypeError for
  null or an object. The model does not tell these apart, and the course filter removes
  such courses before any entry is built.
- Display.Rows: a display that fails gives `None`. The lines printed before the failing
  one are not modelled.
- Rooms are modelled by their number as a string. A room record without "num" (a KeyError
  when its line is printed) or with a numeric "num" has no counterpart.
- Course codes are modelled as a string, null or missing. A number as code has no
  counterpart.
- Display.SortEntries: requires every entry's day and period to be one of the known names.
  The source raises KeyError otherwise, and every generated entry meets this.
