/** Reading the solution back: the loops of times_table.py, lines 130-145, collect the chosen
    variables in loop order and turn each into a schedule entry. This module states what that
    listing is, what the constraints C1-C4 make of it, and what the objective adds up to. */
module Projection {
  import opened Common
  import opened Catalog
  import opened Model

  /** Strictly increasing in loop order. */
  predicate StrictlySorted(t: seq<Var>) {
    forall i, k :: 0 <= i < k < |t| ==> LexLess(t[i], t[k])
  }

  /** The chosen variables met by the loops from position `v` on, in the order met. */
  function ChosenFrom(pr: Problem, x: set<Var>, v: Var): (t: seq<Var>)
    requires Cursor(pr, v)
    ensures StrictlySorted(t)
    ensures forall w :: w in t <==> w in x && InRange(pr, w) && !LexLess(w, v)
    decreases pr.courses - v.c, pr.rooms - v.s, Days - v.j, Periods - v.p, pr.teachers - v.e
  {
    if v.c == pr.courses then []
    else
      var rest := ChosenFrom(pr, x, Next(pr, v));
      assert forall w | w in rest :: LexLess(v, w) by {
        forall w | w in rest ensures LexLess(v, w) {
          LexLessThrough(v, Next(pr, v), w);
        }
      }
      if v in x then [v] + rest else rest
  }

  /** The listing of the chosen variables in loop order: exactly the chosen variables that
      exist in the model, each once, strictly increasing. */
  function ChosenTuples(pr: Problem, x: set<Var>): (t: seq<Var>)
    ensures StrictlySorted(t)
    ensures forall w :: w in t <==> w in x && InRange(pr, w)
    ensures forall i :: 0 <= i < |t| ==> InRange(pr, t[i])
  {
    if pr.rooms == 0 || pr.teachers == 0 then [] else ChosenFrom(pr, x, First(pr))
  }

  /** Course `c` is the course of some listed variable. */
  predicate CourseListed(t: seq<Var>, c: nat) {
    exists i :: 0 <= i < |t| && t[i].c == c
  }

  /** Strictly increasing course indices that cover 0 .. n-1 and stay below n are exactly
      0, 1, ..., n-1. */
  lemma {:induction false} CoursesAreIdentity(t: seq<Var>, n: nat)
    requires forall i, k :: 0 <= i < k < |t| ==> t[i].c < t[k].c
    requires forall i :: 0 <= i < |t| ==> t[i].c < n
    requires forall c: nat :: c < n ==> CourseListed(t, c)
    ensures |t| == n
    ensures forall i :: 0 <= i < |t| ==> t[i].c == i
  {
    forall i | 0 <= i < |t| ensures t[i].c == i {
      CourseAtIndex(t, n, i);
    }
    if n > 0 {
      // course n-1 is listed, and only index n-1 can hold it
      assert CourseListed(t, n - 1);
    }
    if |t| > 0 {
      // the last index is a course number, hence below n
      assert t[|t| - 1].c == |t| - 1;
    }
  }

  lemma {:induction false} CourseAtIndex(t: seq<Var>, n: nat, i: nat)
    requires forall i, k :: 0 <= i < k < |t| ==> t[i].c < t[k].c
    requires forall i :: 0 <= i < |t| ==> t[i].c < n
    requires forall c: nat :: c < n ==> CourseListed(t, c)
    requires i < |t|
    ensures t[i].c == i
    decreases i
  {
    if i > 0 {
      CourseAtIndex(t, n, i - 1);
    }
    // t[i].c >= i, since the indices before it are 0 .. i-1
    assert t[i].c >= i;
    assert CourseListed(t, i);
    var k :| 0 <= k < |t| && t[k].c == i;
    if k < i {
      CourseAtIndex(t, n, k);
    }
  }

  /** Under C1 the listing holds exactly one entry per course, in increasing course order:
      entry i belongs to course i. */
  lemma CoverageListing(pr: Problem, x: set<Var>)
    requires WithinModel(pr, x) && Coverage(pr, x)
    ensures |ChosenTuples(pr, x)| == pr.courses
    ensures forall i :: 0 <= i < |ChosenTuples(pr, x)| ==> ChosenTuples(pr, x)[i].c == i
  {
    var t := ChosenTuples(pr, x);
    forall i, k | 0 <= i < k < |t| ensures t[i].c < t[k].c {
      assert LexLess(t[i], t[k]) && t[i] in t && t[k] in t;
      assert ScheduledOnce(x, t[i].c);
    }
    forall c: nat | c < pr.courses ensures CourseListed(t, c) {
      assert ScheduledOnce(x, c);
      var v :| v in x && v.c == c;
      assert v in t;
      var i :| 0 <= i < |t| && t[i] == v;
    }
    forall i | 0 <= i < |t| ensures t[i].c < pr.courses {
      assert t[i] in t;
    }
    CoursesAreIdentity(t, pr.courses);
  }

  /** Under C2-C4 no two listed variables share a room slot or a teacher slot, and, the
      level being a singleton, no two share a (day, period) slot at all. */
  lemma ListingExclusive(pr: Problem, x: set<Var>)
    requires Satisfies(pr, x)
    ensures forall i, k :: 0 <= i < k < |ChosenTuples(pr, x)| ==>
      var v, w := ChosenTuples(pr, x)[i], ChosenTuples(pr, x)[k];
      !SameRoomSlot(v, w) && !SameTeacherSlot(v, w) && (v.j, v.p) != (w.j, w.p)
  {
    var t := ChosenTuples(pr, x);
    forall i, k | 0 <= i < k < |t|
      ensures !SameRoomSlot(t[i], t[k]) && !SameTeacherSlot(t[i], t[k])
      ensures (t[i].j, t[i].p) != (t[k].j, t[k].p)
    {
      assert t[i] in t && t[k] in t;
      assert LexLess(t[i], t[k]);
    }
  }

  /** The (day, period) slot of a variable as one number in 0 .. Days*Periods-1. */
  function Slot(v: Var): (k: int)
    requires v.j < Days && v.p < Periods
    ensures 0 <= k < Days * Periods
    ensures forall w: Var :: w.j < Days && w.p < Periods && (w.j, w.p) != (v.j, v.p) ==>
      w.j * Periods + w.p != k
  {
    v.j * Periods + v.p
  }

  /** A feasible model has at most as many courses as there are (day, period) slots: 30. */
  lemma FeasibleNeedsSlots(pr: Problem, x: set<Var>)
    requires Satisfies(pr, x)
    ensures pr.courses <= Days * Periods
  {
    var t := ChosenTuples(pr, x);
    CoverageListing(pr, x);
    ListingExclusive(pr, x);
    forall i | 0 <= i < |t| ensures t[i].j < Days && t[i].p < Periods { assert t[i] in t; }
    var slots := seq(|t|, i requires 0 <= i < |t| => Slot(t[i]));
    forall i | 0 <= i < |t| ensures 0 <= slots[i] < Days * Periods {
      assert t[i] in t;
    }
    forall i, k | 0 <= i < k < |slots| ensures slots[i] != slots[k] {
      assert t[i] in t && t[k] in t;
      assert (t[i].j, t[i].p) != (t[k].j, t[k].p);
    }
    Pigeonhole(slots, Days * Periods);
  }

  /** A check of a listing on its own: one entry per course in course order, every entry an
      existing variable, and no two entries sharing a room, level or teacher slot. */
  predicate ListingOk(pr: Problem, t: seq<Var>) {
    && |t| == pr.courses
    && (forall i :: 0 <= i < |t| ==> t[i].c == i && InRange(pr, t[i]))
    && (forall i, k :: 0 <= i < k < |t| ==>
          !SameRoomSlot(t[i], t[k]) && !SameLevelSlot(t[i], t[k]) && !SameTeacherSlot(t[i], t[k]))
  }

  /** For an assignment of existing variables, C1-C4 hold exactly when the listing the
      loops produce passes the listing check. */
  lemma SatisfiesIffListingOk(pr: Problem, x: set<Var>)
    requires WithinModel(pr, x)
    ensures Satisfies(pr, x) <==> ListingOk(pr, ChosenTuples(pr, x))
  {
    var t := ChosenTuples(pr, x);
    if Satisfies(pr, x) {
      CoverageListing(pr, x);
      ListingExclusive(pr, x);
      forall i | 0 <= i < |t| ensures InRange(pr, t[i]) { assert t[i] in t; }
      forall i, k | 0 <= i < k < |t| ensures !SameLevelSlot(t[i], t[k]) {
        assert t[i] in t && t[k] in t;
        assert LexLess(t[i], t[k]);
      }
    }
    if ListingOk(pr, t) {
      forall c: nat | c < pr.courses ensures ScheduledOnce(x, c) {
        assert t[c] in x;
        forall v, w | v in x && w in x && v.c == c && w.c == c ensures v == w {
          IndexOfCourse(pr, t, v);
          IndexOfCourse(pr, t, w);
        }
      }
      forall v, w | v in x && w in x ensures (SameRoomSlot(v, w) ==> v == w)
        && (SameLevelSlot(v, w) ==> v == w) && (SameTeacherSlot(v, w) ==> v == w)
      {
        IndexOfCourse(pr, t, v);
        IndexOfCourse(pr, t, w);
      }
    }
  }

  /** In a passing listing, a listed variable sits at the index of its course. */
  lemma IndexOfCourse(pr: Problem, t: seq<Var>, v: Var)
    requires ListingOk(pr, t) && v in t
    ensures t[v.c] == v
  {
  }

  /** Sum of the period weights of listed variables. */
  function SumWeights(t: seq<Var>): int
    requires forall i :: 0 <= i < |t| ==> t[i].p < Periods
  {
    if |t| == 0 then 0 else PeriodWeights[t[0].p] + SumWeights(t[1..])
  }

  lemma {:induction false} ObjectiveFromIsSum(pr: Problem, x: set<Var>, v: Var)
    requires Cursor(pr, v)
    ensures forall i :: 0 <= i < |ChosenFrom(pr, x, v)| ==> ChosenFrom(pr, x, v)[i].p < Periods
    ensures ObjectiveFrom(pr, x, v) == SumWeights(ChosenFrom(pr, x, v))
    decreases pr.courses - v.c, pr.rooms - v.s, Days - v.j, Periods - v.p, pr.teachers - v.e
  {
    var t := ChosenFrom(pr, x, v);
    forall i | 0 <= i < |t| ensures t[i].p < Periods { assert t[i] in t; }
    if v.c < pr.courses {
      ObjectiveFromIsSum(pr, x, Next(pr, v));
      if v in x {
        assert t[1..] == ChosenFrom(pr, x, Next(pr, v));
      }
    }
  }

  /** The objective equals the sum of W_p[p] over the chosen variables, read in loop order. */
  lemma ObjectiveIsSumOfChosen(pr: Problem, x: set<Var>)
    ensures forall i :: 0 <= i < |ChosenTuples(pr, x)| ==> ChosenTuples(pr, x)[i].p < Periods
    ensures Objective(pr, x) == SumWeights(ChosenTuples(pr, x))
  {
    if pr.rooms > 0 && pr.teachers > 0 {
      ObjectiveFromIsSum(pr, x, First(pr));
    } else {
      assert ChosenTuples(pr, x) == [];
    }
  }

  lemma {:induction false} SumWeightsBounds(t: seq<Var>)
    requires forall i :: 0 <= i < |t| ==> t[i].p < Periods
    ensures |t| <= SumWeights(t) <= 5 * |t|
  {
    if |t| > 0 {
      SumWeightsBounds(t[1..]);
    }
  }

  /** Under C1 the objective lies between |C| (every course in the last period) and 5|C|
      (every course in the first period). */
  lemma ObjectiveBounds(pr: Problem, x: set<Var>)
    requires WithinModel(pr, x) && Coverage(pr, x)
    ensures pr.courses <= Objective(pr, x) <= 5 * pr.courses
  {
    ObjectiveIsSumOfChosen(pr, x);
    CoverageListing(pr, x);
    SumWeightsBounds(ChosenTuples(pr, x));
  }

  lemma {:induction false} SumWeightsDominance(a: seq<Var>, b: seq<Var>)
    requires |a| == |b|
    requires forall i :: 0 <= i < |a| ==> a[i].p < Periods && b[i].p < Periods
    requires forall i :: 0 <= i < |a| ==> a[i].p <= b[i].p
    ensures SumWeights(a) >= SumWeights(b)
    ensures (exists i :: 0 <= i < |a| && a[i].p < b[i].p) ==> SumWeights(a) > SumWeights(b)
  {
    WeightsDecreasing();
    if |a| > 0 {
      SumWeightsDominance(a[1..], b[1..]);
      if exists i :: 0 <= i < |a| && a[i].p < b[i].p {
        var i :| 0 <= i < |a| && a[i].p < b[i].p;
        if i > 0 {
          assert a[1..][i - 1].p < b[1..][i - 1].p;
        }
      }
    }
  }

  /** Earlier periods score strictly better: if every course of `a` sits in a period no later
      than in `b` and one course sits strictly earlier, the objective of `a` is larger. */
  lemma ObjectiveDominance(pr: Problem, a: set<Var>, b: set<Var>)
    requires WithinModel(pr, a) && Coverage(pr, a) && WithinModel(pr, b) && Coverage(pr, b)
    requires forall v, w :: v in a && w in b && v.c == w.c ==> v.p <= w.p
    requires exists v, w :: v in a && w in b && v.c == w.c && v.p < w.p
    ensures Objective(pr, a) > Objective(pr, b)
  {
    var ta, tb := ChosenTuples(pr, a), ChosenTuples(pr, b);
    ObjectiveIsSumOfChosen(pr, a);
    ObjectiveIsSumOfChosen(pr, b);
    CoverageListing(pr, a);
    CoverageListing(pr, b);
    forall i | 0 <= i < |ta| ensures ta[i].p <= tb[i].p {
      assert ta[i] in ta && tb[i] in tb;
    }
    var v, w :| v in a && w in b && v.c == w.c && v.p < w.p;
    assert v in ta && w in tb;
    var i :| 0 <= i < |ta| && ta[i] == v;
    var k :| 0 <= k < |tb| && tb[k] == w;
    assert ta[i].p < tb[i].p;
    SumWeightsDominance(ta, tb);
  }

  /** One line of the generated timetable (`emploi_du_temps`). */
  datatype Entry = Entry(course: Course, day: string, period: string, room: Room, level: int,
                         teacher: string)

  /** The entry the loops build for a listed variable. */
  function ToEntry(courses: seq<Course>, rooms: seq<Room>, roster: seq<string>, v: Var): Entry
    requires v.c < |courses| && v.s < |rooms| && v.j < Days && v.p < Periods && v.e < |roster|
  {
    Entry(courses[v.c], DayNames[v.j], PeriodNames[v.p], rooms[v.s], v.n, roster[v.e])
  }

  /** The timetable read from a solution: one entry per chosen variable in loop order. */
  function ToEntries(courses: seq<Course>, rooms: seq<Room>, roster: seq<string>, t: seq<Var>)
    : (r: seq<Entry>)
    requires forall i :: 0 <= i < |t| ==>
      t[i].c < |courses| && t[i].s < |rooms| && t[i].j < Days && t[i].p < Periods && t[i].e < |roster|
    ensures |r| == |t|
    ensures forall i :: 0 <= i < |t| ==> r[i] == ToEntry(courses, rooms, roster, t[i])
  {
    seq(|t|, i requires 0 <= i < |t| => ToEntry(courses, rooms, roster, t[i]))
  }
}
