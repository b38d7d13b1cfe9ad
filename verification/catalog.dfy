/** The course catalog of one generation run: course records as loaded from the subjects file,
    the lookup by level and semester, the filter that drops unnamed courses, and the teacher
    roster derived from the lecturers the courses declare (times_table.py, lines 24-67). */
module Catalog {
  import opened Common

  /** The `name` field of a course record: a string, a list of string fragments, missing,
      or some other JSON value. */
  datatype NameField =
    | NameText(text: string)
    | NameFragments(fragments: seq<string>)
    | NameAbsent
    | NameOther

  /** The `Course Lecturer` field: missing, null, a single name, or a list of names. */
  datatype LecturerField =
    | NoLecturer
    | LecturerNull
    | LecturerText(name: string)
    | LecturerList(names: seq<string>)

  /** The `code` field: missing, null, or a string. */
  datatype CodeField =
    | NoCode
    | CodeNull
    | CodeText(code: string)

  datatype Course = Course(name: NameField, code: CodeField, lecturer: LecturerField)

  /** A room of the subject area; only its number is shown. */
  datatype Room = Room(num: string)

  /** The subjects file, indexed by level and then by semester key ("s1", "s2"). */
  type SubjectsData = map<int, map<string, seq<Course>>>

  /** The synthetic teacher used when no course declares a lecturer. */
  const DefaultTeacher: string := "Enseignant par défaut"

  /** The course list stored for a level and semester; a missing key at either layer
      yields the empty list, as the KeyError handler does. */
  function CoursesFor(data: SubjectsData, level: int, semester: string): (r: seq<Course>)
    ensures !(level in data && semester in data[level]) ==> r == []
    ensures level in data && semester in data[level] ==> r == data[level][semester]
  {
    if level in data && semester in data[level] then data[level][semester] else []
  }

  /** A course is kept when its name is a non-empty string or a list with a non-empty
      fragment. Emptiness, not blankness, is the test. */
  predicate HasUsableName(c: Course) {
    match c.name
    case NameText(s) => s != ""
    case NameFragments(fs) => exists i :: 0 <= i < |fs| && fs[i] != ""
    case _ => false
  }

  /** The course filter of `generer_emploi_du_temps`: keeps the usable courses, in order,
      each with its full multiplicity, and nothing else. */
  function FilterCourses(cs: seq<Course>): (r: seq<Course>)
    ensures IsSubsequence(r, cs)
    ensures forall i :: 0 <= i < |r| ==> HasUsableName(r[i])
    ensures forall c :: multiset(r)[c] == if HasUsableName(c) then multiset(cs)[c] else 0
  {
    if |cs| == 0 then []
    else
      var rest := FilterCourses(cs[1..]);
      assert cs == [cs[0]] + cs[1..];
      if HasUsableName(cs[0]) then [cs[0]] + rest else rest
  }

  /** The raw lecturer entries a course declares, in declaration order. */
  function RawLecturers(c: Course): seq<string> {
    match c.lecturer
    case NoLecturer => []
    case LecturerNull => []
    case LecturerText(s) => [s]
    case LecturerList(names) => names
  }

  /** All lecturer entries of a course list, course after course: the order in which the
      roster loop visits them. */
  function Mentioned(cs: seq<Course>): seq<string>
    decreases |cs|
  {
    if |cs| == 0 then [] else Mentioned(cs[..|cs| - 1]) + RawLecturers(cs[|cs| - 1])
  }

  /** `r` lists each non-empty entry of `xs` exactly once, in order of first occurrence. */
  ghost predicate FirstSeen(r: seq<string>, xs: seq<string>) {
    && NoDups(r)
    && (forall x :: x in r <==> x != "" && x in xs)
    && (forall i, j :: 0 <= i < j < |r| ==> FirstIndex(xs, r[i]) < FirstIndex(xs, r[j]))
  }

  /** One step of the roster loop keeps the first-seen invariant. */
  lemma FirstSeenStep(r: seq<string>, xs: seq<string>, e: string)
    requires FirstSeen(r, xs)
    ensures e != "" && e !in r ==> FirstSeen(r + [e], xs + [e])
    ensures !(e != "" && e !in r) ==> FirstSeen(r, xs + [e])
  {
    forall y | y in xs {
      FirstIndexAppend(xs, e, y);
    }
    if e != "" && e !in r {
      assert e !in xs;
      FirstIndexAppend(xs, e, e);
      var r' := r + [e];
      forall i, j | 0 <= i < j < |r'|
        ensures FirstIndex(xs + [e], r'[i]) < FirstIndex(xs + [e], r'[j])
      {
        assert r'[i] in r;
        if j < |r| {
          assert r'[j] in r && r'[j] == r[j];
        }
      }
    }
  }

  /** The roster loop run over the entries `xs`: the state `enseignants` reaches. */
  function Dedup(xs: seq<string>): (r: seq<string>)
    ensures FirstSeen(r, xs)
    decreases |xs|
  {
    if |xs| == 0 then []
    else
      var init := xs[..|xs| - 1];
      var e := xs[|xs| - 1];
      var r := Dedup(init);
      assert xs == init + [e];
      FirstSeenStep(r, init, e);
      if e != "" && e !in r then r + [e] else r
  }

  /** The teacher roster: the lecturers of the courses without duplicates, in first-seen
      order, or the single default teacher when no course names one. */
  function Roster(cs: seq<Course>): seq<string> {
    var found := Dedup(Mentioned(cs));
    if |found| == 0 then [DefaultTeacher] else found
  }

  /** The roster is never empty and has no duplicates or empty names; when some course
      names a lecturer it lists exactly the non-empty lecturer entries in first-seen order,
      and otherwise it is the default teacher alone. */
  lemma RosterSpec(cs: seq<Course>)
    ensures |Roster(cs)| > 0 && NoDups(Roster(cs))
    ensures forall i :: 0 <= i < |Roster(cs)| ==> Roster(cs)[i] != ""
    ensures (exists x :: x in Mentioned(cs) && x != "") ==> FirstSeen(Roster(cs), Mentioned(cs))
    ensures (forall x :: x in Mentioned(cs) ==> x == "") ==> Roster(cs) == [DefaultTeacher]
  {
    var xs := Mentioned(cs);
    var found := Dedup(xs);
    if |found| > 0 {
      assert found[0] in xs && found[0] != "";
      assert forall i :: 0 <= i < |found| ==> found[i] in found;
    }
  }
}
