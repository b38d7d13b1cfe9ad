/** The pure part of `afficher_emploi_du_temps` (times_table.py, lines 152-208): the entries are
    sorted by (day, period), names made of fragments are joined, missing teachers fall back to
    the course's lecturers, and long names are cut to fit their columns. Printing is left out;
    what would be printed on each line is a `Row`. */
module Display {
  import opened Common
  import opened Catalog
  import opened Model
  import opened Projection

  // ---------------------------------------------------------------------------------------
  // Sorting by (day, period)

  /** The entry's day and period are known names (the index dictionaries hold them). */
  predicate Displayable(e: Entry) {
    e.day in DayNames && e.period in PeriodNames
  }

  predicate AllDisplayable(es: seq<Entry>) {
    forall i :: 0 <= i < |es| ==> Displayable(es[i])
  }

  /** The key (jour_indices[jour], periode_indices[periode]) of a known day and period;
      other names, which the index dictionaries reject, sort last. */
  function DayPeriodKey(day: string, period: string): (int, int) {
    if day in DayNames && period in PeriodNames then
      (FirstIndex(DayNames, day), FirstIndex(PeriodNames, period))
    else (|DayNames|, |PeriodNames|)
  }

  /** The sort key of an entry. */
  function SortKey(e: Entry): (int, int) {
    DayPeriodKey(e.day, e.period)
  }

  /** Python's ordering of key pairs. */
  predicate KeyLe(a: (int, int), b: (int, int)) {
    a.0 < b.0 || (a.0 == b.0 && a.1 <= b.1)
  }

  predicate SortedBy<T>(s: seq<T>, key: T -> (int, int)) {
    forall i, k :: 0 <= i < k < |s| ==> KeyLe(key(s[i]), key(s[k]))
  }

  /** The elements whose key is `k`, in their order. */
  function WithKey<T>(s: seq<T>, key: T -> (int, int), k: (int, int)): seq<T> {
    if |s| == 0 then []
    else (if key(s[0]) == k then [s[0]] else []) + WithKey(s[1..], key, k)
  }

  /** Inserts `x` before the first element whose key is not below its own. */
  function Insert<T>(x: T, s: seq<T>, key: T -> (int, int)): (r: seq<T>)
    ensures |r| == |s| + 1
    ensures multiset(r) == multiset(s) + multiset{x}
  {
    if |s| == 0 || KeyLe(key(x), key(s[0])) then [x] + s
    else
      assert s == [s[0]] + s[1..];
      [s[0]] + Insert(x, s[1..], key)
  }

  lemma {:induction false} InsertSorted<T>(x: T, s: seq<T>, key: T -> (int, int))
    requires SortedBy(s, key)
    ensures SortedBy(Insert(x, s, key), key)
  {
    if |s| > 0 && !KeyLe(key(x), key(s[0])) {
      var rest := Insert(x, s[1..], key);
      InsertSorted(x, s[1..], key);
      assert s == [s[0]] + s[1..];
      forall k | 0 <= k < |rest| ensures KeyLe(key(s[0]), key(rest[k])) {
        assert rest[k] in multiset(rest);
        if rest[k] != x {
          assert rest[k] in s[1..];
        }
      }
    }
  }

  lemma {:induction false} InsertWithKey<T>(x: T, s: seq<T>, key: T -> (int, int), k: (int, int))
    ensures WithKey(Insert(x, s, key), key, k)
      == (if key(x) == k then [x] else []) + WithKey(s, key, k)
  {
    if |s| == 0 || KeyLe(key(x), key(s[0])) {
      assert ([x] + s)[1..] == s;
    } else {
      var rest := Insert(x, s[1..], key);
      InsertWithKey(x, s[1..], key, k);
      assert ([s[0]] + rest)[1..] == rest;
    }
  }

  /** Python's stable sort by key, as an insertion sort: a permutation of the input ordered
      by key. */
  function SortBy<T>(s: seq<T>, key: T -> (int, int)): (r: seq<T>)
    ensures |r| == |s|
    ensures multiset(r) == multiset(s)
    ensures SortedBy(r, key)
  {
    if |s| == 0 then []
    else
      var rest := SortBy(s[1..], key);
      assert s == [s[0]] + s[1..];
      InsertSorted(s[0], rest, key);
      Insert(s[0], rest, key)
  }

  /** The sort is stable: the elements sharing a key keep their input order. */
  lemma {:induction false} SortByStable<T>(s: seq<T>, key: T -> (int, int), k: (int, int))
    ensures WithKey(SortBy(s, key), key, k) == WithKey(s, key, k)
  {
    if |s| > 0 {
      SortByStable(s[1..], key, k);
      InsertWithKey(s[0], SortBy(s[1..], key), key, k);
    }
  }

  /** The display order of the entries: by day index, then period index, stably. */
  function SortEntries(es: seq<Entry>): (r: seq<Entry>)
    requires AllDisplayable(es)
    ensures |r| == |es| && multiset(r) == multiset(es) && AllDisplayable(r)
    ensures forall i :: 0 <= i < |r| ==> r[i] in es
    ensures forall i, k :: 0 <= i < k < |r| ==>
      var a, b := r[i], r[k];
      || FirstIndex(DayNames, a.day) < FirstIndex(DayNames, b.day)
      || (a.day == b.day && FirstIndex(PeriodNames, a.period) <= FirstIndex(PeriodNames, b.period))
    ensures SortedBy(r, SortKey)
    ensures forall k :: WithKey(r, SortKey, k) == WithKey(es, SortKey, k)
  {
    var r := SortBy(es, SortKey);
    forall k ensures WithKey(r, SortKey, k) == WithKey(es, SortKey, k) {
      SortByStable(es, SortKey, k);
    }
    forall i | 0 <= i < |r| ensures r[i] in es && Displayable(r[i]) {
      assert r[i] in multiset(es);
    }
    forall i, k | 0 <= i < k < |r| ensures KeyLe(SortKey(r[i]), SortKey(r[k])) {
    }
    r
  }

  // ---------------------------------------------------------------------------------------
  // Names made of fragments

  /** The non-empty strings of a list, in order. */
  function NonEmpty(fs: seq<string>): (r: seq<string>)
    ensures IsSubsequence(r, fs)
    ensures forall x :: x in r <==> x in fs && x != ""
    ensures forall x :: multiset(r)[x] == if x != "" then multiset(fs)[x] else 0
  {
    if |fs| == 0 then []
    else
      var rest := NonEmpty(fs[1..]);
      assert fs == [fs[0]] + fs[1..];
      assert |rest| > 0 ==> rest[0] in rest;
      if fs[0] != "" then [fs[0]] + rest else rest
  }

  /** The parts separated by single spaces. */
  function Join(parts: seq<string>): string {
    if |parts| == 0 then ""
    else if |parts| == 1 then parts[0]
    else parts[0] + " " + Join(parts[1..])
  }

  /** The non-empty fragments separated by single spaces. */
  function JoinFragments(fs: seq<string>): string {
    Join(NonEmpty(fs))
  }

  /** Splitting on each single space: the pieces between spaces, empty pieces included. */
  function Split(s: string): (r: seq<string>)
    ensures |r| > 0
    ensures forall i :: 0 <= i < |r| ==> ' ' !in r[i]
    decreases |s|
  {
    if ' ' !in s then [s]
    else
      var i := FirstIndex(s, ' ');
      [s[..i]] + Split(s[i + 1..])
  }

  /** Joining the pieces of a split gives the string back. */
  lemma {:induction false} JoinSplit(s: string)
    ensures Join(Split(s)) == s
    decreases |s|
  {
    if ' ' in s {
      var i := FirstIndex(s, ' ');
      JoinSplit(s[i + 1..]);
      assert Split(s) == [s[..i]] + Split(s[i + 1..]);
      assert s == s[..i] + " " + s[i + 1..];
    }
  }

  /** Splitting a join of space-free pieces gives the pieces back: the join is lossless. */
  lemma {:induction false} SplitJoin(parts: seq<string>)
    requires |parts| > 0
    requires forall i :: 0 <= i < |parts| ==> ' ' !in parts[i]
    ensures Split(Join(parts)) == parts
  {
    if |parts| > 1 {
      var a := parts[0];
      var tail := Join(parts[1..]);
      var s := a + " " + tail;
      assert ' ' in s by { assert s[|a|] == ' '; }
      var i := FirstIndex(s, ' ');
      assert i == |a| by {
        assert s[|a|] == ' ';
      }
      assert s[..i] == a;
      assert s[i + 1..] == tail;
      SplitJoin(parts[1..]);
    }
  }

  /** A fragment-list name reads back, word by word, as its non-empty fragments. */
  lemma JoinFragmentsReadsBack(fs: seq<string>)
    requires exists i :: 0 <= i < |fs| && fs[i] != ""
    requires forall i :: 0 <= i < |fs| ==> ' ' !in fs[i]
    ensures Split(JoinFragments(fs)) == NonEmpty(fs)
  {
    var parts := NonEmpty(fs);
    var i :| 0 <= i < |fs| && fs[i] != "";
    assert fs[i] in parts;
    forall k | 0 <= k < |parts| ensures ' ' !in parts[k] {
      assert parts[k] in fs;
    }
    SplitJoin(parts);
  }

  // ---------------------------------------------------------------------------------------
  // Column widths

  /** Column limits: course names up to 37 characters, teachers up to 17. */
  const NameLimit: nat := 37
  const TeacherLimit: nat := 17

  /** Cuts a string longer than `limit` to its first `limit - 3` characters and "...". */
  function Truncate(s: string, limit: nat): (r: string)
    requires limit >= 3
    ensures |r| <= limit
    ensures |s| <= limit ==> r == s
    ensures |s| > limit ==> |r| == limit && r[..limit - 3] == s[..limit - 3] && r[limit - 3..] == "..."
  {
    if |s| > limit then s[..limit - 3] + "..." else s
  }

  /** Cutting twice is cutting once, and a string is kept exactly when it already fits. */
  lemma TruncateIdempotent(s: string, limit: nat)
    requires limit >= 3
    ensures Truncate(Truncate(s, limit), limit) == Truncate(s, limit)
    ensures Truncate(s, limit) == s <==> |s| <= limit
  {
  }

  // ---------------------------------------------------------------------------------------
  // Rows

  /** What is printed for one entry. */
  datatype Row = Row(day: string, period: string, name: string, code: string, teacher: string,
                     room: string)

  /** The course name as printed: a fragment list is joined, a missing name shows "N/A". */
  function CourseName(c: Course): string
    requires !c.name.NameOther?
  {
    match c.name
    case NameText(s) => s
    case NameFragments(fs) => JoinFragments(fs)
    case NameAbsent => "N/A"
  }

  /** The code as printed: a missing code shows "N/A". A null code cannot be padded into
      its column (formatting None raises TypeError), so it has no printed form. */
  function CodeShown(c: Course): (r: Option<string>)
    ensures r.None? <==> c.code.CodeNull?
    ensures r.Some? ==> r.value == (if c.code.NoCode? then "N/A" else c.code.code)
  {
    match c.code
    case NoCode => Some("N/A")
    case CodeNull => None
    case CodeText(s) => Some(s)
  }

  /** The teacher as printed: an empty or "N/A" teacher falls back to the course's lecturer
      field when it has one. A null lecturer taken as the fallback cannot be padded into its
      column (formatting None raises TypeError), so it has no printed form. */
  function TeacherShown(e: Entry): (r: Option<string>)
    ensures r.None? <==> (e.teacher == "" || e.teacher == "N/A") && e.course.lecturer.LecturerNull?
    ensures e.teacher != "" && e.teacher != "N/A" ==> r == Some(e.teacher)
    ensures e.teacher == "" || e.teacher == "N/A" ==>
      && (e.course.lecturer.NoLecturer? ==> r == Some(e.teacher))
      && (e.course.lecturer.LecturerText? ==> r == Some(e.course.lecturer.name))
      && (e.course.lecturer.LecturerList? ==> r == Some(JoinFragments(e.course.lecturer.names)))
  {
    if e.teacher != "" && e.teacher != "N/A" then Some(e.teacher)
    else
      match e.course.lecturer
      case NoLecturer => Some(e.teacher)
      case LecturerNull => None
      case LecturerText(s) => Some(s)
      case LecturerList(names) => Some(JoinFragments(names))
  }

  /** A generated entry carries a roster teacher, which is never empty; so unless that
      teacher is literally named "N/A", the entry's own teacher is printed. */
  lemma {:induction false} RosterTeacherShown(cs: seq<Course>, e: Entry)
    requires e.teacher in Roster(cs) && e.teacher != "N/A"
    ensures TeacherShown(e) == Some(e.teacher)
  {
    RosterSpec(cs);
    var i :| 0 <= i < |Roster(cs)| && Roster(cs)[i] == e.teacher;
  }

  /** The line printed for one entry, or `None` when formatting it raises TypeError. */
  function ToRow(e: Entry): (r: Option<Row>)
    requires !e.course.name.NameOther?
    ensures r.Some? <==> !e.course.code.CodeNull? && TeacherShown(e).Some?
    ensures r.Some? ==> && r.value.day == e.day && r.value.period == e.period
                        && r.value.room == e.room.num
                        && |r.value.name| <= NameLimit && |r.value.teacher| <= TeacherLimit
    ensures r.Some? ==>
      || e.course.code == CodeText(r.value.code)
      || (e.course.code.NoCode? && r.value.code == "N/A")
    ensures r.Some? ==> var name := CourseName(e.course);
      r.value.name == if |name| > 37 then name[..34] + "..." else name
    ensures r.Some? ==> var teacher := TeacherShown(e).value;
      r.value.teacher == if |teacher| > 17 then teacher[..14] + "..." else teacher
  {
    match (CodeShown(e.course), TeacherShown(e))
    case (Some(code), Some(teacher)) =>
      Some(Row(e.day, e.period, Truncate(CourseName(e.course), NameLimit),
               code, Truncate(teacher, TeacherLimit), e.room.num))
    case _ => None
  }

  /** A line shows the entry's own values when they fit their columns: a fragment-list name
      reads back, word by word, as its non-empty fragments, and a named teacher as itself. */
  lemma RowShowsEntry(e: Entry)
    requires e.course.name.NameFragments? && !e.course.code.CodeNull?
    requires exists i :: 0 <= i < |e.course.name.fragments| && e.course.name.fragments[i] != ""
    requires forall i :: 0 <= i < |e.course.name.fragments| ==> ' ' !in e.course.name.fragments[i]
    requires |JoinFragments(e.course.name.fragments)| <= NameLimit
    requires e.teacher != "" && e.teacher != "N/A" && |e.teacher| <= TeacherLimit
    ensures ToRow(e).Some?
    ensures Split(ToRow(e).value.name) == NonEmpty(e.course.name.fragments)
    ensures ToRow(e).value.teacher == e.teacher
  {
    JoinFragmentsReadsBack(e.course.name.fragments);
  }

  /** The (day index, period index) of a row. */
  function RowKey(row: Row): (int, int) {
    DayPeriodKey(row.day, row.period)
  }

  /** The entry has a known name form but its line cannot be formatted. */
  predicate Unprintable(e: Entry) {
    !e.course.name.NameOther? && ToRow(e).None?
  }

  /** A permutation holds an unprintable entry exactly when the original does. */
  lemma {:induction false} UnprintablePermuted(es: seq<Entry>, ps: seq<Entry>)
    requires multiset(ps) == multiset(es)
    ensures (exists i :: 0 <= i < |es| && Unprintable(es[i]))
        <==> (exists k :: 0 <= k < |ps| && Unprintable(ps[k]))
  {
    if i :| 0 <= i < |es| && Unprintable(es[i]) {
      assert es[i] in multiset(ps);
      var k :| 0 <= k < |ps| && ps[k] == es[i];
    }
    if k :| 0 <= k < |ps| && Unprintable(ps[k]) {
      assert ps[k] in multiset(es);
      var i :| 0 <= i < |es| && es[i] == ps[k];
    }
  }

  /** The lines of entries that can all be printed, in their order. */
  function LinesOf(ps: seq<Entry>): (rows: seq<Row>)
    requires forall i :: 0 <= i < |ps| ==> !ps[i].course.name.NameOther? && ToRow(ps[i]).Some?
    ensures |rows| == |ps|
    ensures forall i :: 0 <= i < |ps| ==> ToRow(ps[i]) == Some(rows[i])
    ensures SortedBy(ps, SortKey) ==> SortedBy(rows, RowKey)
  {
    assert forall i :: 0 <= i < |ps| ==> RowKey(ToRow(ps[i]).value) == SortKey(ps[i]);
    seq(|ps|, i requires 0 <= i < |ps| => ToRow(ps[i]).value)
  }

  /** The lines of the timetable: row i is the line of the i-th entry in (day, period)
      order, so the rows come in that order, with names and teachers cut to their columns.
      When the line of any entry cannot be formatted the display fails: `None`. */
  function Rows(es: seq<Entry>): (r: Option<seq<Row>>)
    requires AllDisplayable(es)
    requires forall i :: 0 <= i < |es| ==> !es[i].course.name.NameOther?
    ensures r.None? <==> exists i :: 0 <= i < |es| && Unprintable(es[i])
    ensures r.Some? ==> |r.value| == |es|
    ensures r.Some? ==>
      forall i :: 0 <= i < |es| ==> ToRow(SortEntries(es)[i]) == Some(r.value[i])
    ensures r.Some? ==> forall i :: 0 <= i < |r.value| ==>
      |r.value[i].name| <= NameLimit && |r.value[i].teacher| <= TeacherLimit
    ensures r.Some? ==> SortedBy(r.value, RowKey)
  {
    var sorted := SortEntries(es);
    forall i | 0 <= i < |sorted| ensures !sorted[i].course.name.NameOther? {
      assert sorted[i] in multiset(es);
    }
    UnprintablePermuted(es, sorted);
    if exists k :: 0 <= k < |sorted| && Unprintable(sorted[k]) then None
    else
      Some(LinesOf(sorted))
  }
}
