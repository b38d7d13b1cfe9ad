/** The constraint model handed to the solver: the index space of the decision variables
    X[(c, s, j, p, n, e)], the hard constraints C1-C4, the period weights and the objective
    (times_table.py, lines 8-10 and 48-120). A solution is the set of variables set to 1. */
module Model {
  import opened Common

  const DayNames: seq<string> := ["Lundi", "Mardi", "Mercredi", "Jeudi", "Vendredi", "Samedi"]
  const PeriodNames: seq<string> :=
    ["P1 (7h-10h)", "P2 (10h-13h)", "P3 (13h-16h)", "P4 (16h-19h)", "P5 (19h-22h)"]

  /** |J| and |P|. */
  const Days: nat := 6
  const Periods: nat := 5

  /** `poids_periodes`: the weight of each period index, earlier periods preferred. */
  const PeriodWeights: seq<nat> := [5, 4, 3, 2, 1]

  /** The sizes of the index ranges of one run: C = range(courses), S = range(rooms),
      E = range(teachers), and the singleton level list N = [level]. */
  datatype Problem = Problem(courses: nat, rooms: nat, level: int, teachers: nat)

  /** The key of one decision variable: course, room, day, period, level value, teacher. */
  datatype Var = Var(c: nat, s: nat, j: nat, p: nat, n: int, e: nat)

  /** The variable exists in the model of `pr`. */
  predicate InRange(pr: Problem, v: Var) {
    v.c < pr.courses && v.s < pr.rooms && v.j < Days && v.p < Periods
    && v.n == pr.level && v.e < pr.teachers
  }

  /** Every chosen variable exists in the model. */
  predicate WithinModel(pr: Problem, x: set<Var>) {
    forall v | v in x :: InRange(pr, v)
  }

  /** Course `c` has exactly one chosen variable. */
  predicate ScheduledOnce(x: set<Var>, c: nat) {
    && (exists v | v in x :: v.c == c)
    && (forall v, w | v in x && w in x :: v.c == c && w.c == c ==> v == w)
  }

  /** C1: each course is scheduled once per week. */
  predicate Coverage(pr: Problem, x: set<Var>) {
    forall c: nat | c < pr.courses :: ScheduledOnce(x, c)
  }

  predicate SameRoomSlot(v: Var, w: Var) { v.s == w.s && v.j == w.j && v.p == w.p }
  predicate SameLevelSlot(v: Var, w: Var) { v.n == w.n && v.j == w.j && v.p == w.p }
  predicate SameTeacherSlot(v: Var, w: Var) { v.e == w.e && v.j == w.j && v.p == w.p }

  /** C2: at most one chosen variable per (room, day, period). */
  predicate NoRoomConflict(x: set<Var>) {
    forall v, w | v in x && w in x :: SameRoomSlot(v, w) ==> v == w
  }

  /** C3: at most one chosen variable per (level, day, period). The curriculum matrix
      S_lc is 1 everywhere, so the weighted sum is a plain count. */
  predicate NoLevelConflict(x: set<Var>) {
    forall v, w | v in x && w in x :: SameLevelSlot(v, w) ==> v == w
  }

  /** C4: at most one chosen variable per (teacher, day, period). */
  predicate NoTeacherConflict(x: set<Var>) {
    forall v, w | v in x && w in x :: SameTeacherSlot(v, w) ==> v == w
  }

  /** What the solver guarantees of the assignment it reports as OPTIMAL or FEASIBLE. */
  predicate Satisfies(pr: Problem, x: set<Var>) {
    WithinModel(pr, x) && Coverage(pr, x) && NoRoomConflict(x) && NoLevelConflict(x)
    && NoTeacherConflict(x)
  }

  /** `W_p`: the weights of the periods P = range(5), in period order. */
  lemma WeightsDecreasing()
    ensures |PeriodWeights| == Periods == |PeriodNames| && |DayNames| == Days
    ensures PeriodWeights[0] == 5 && PeriodWeights[Periods - 1] == 1
    ensures forall p, q :: 0 <= p < q < Periods ==> PeriodWeights[p] > PeriodWeights[q]
  {
  }

  /** Day names and period names are pairwise distinct, so a name identifies its index. */
  lemma NamesDistinct()
    ensures NoDups(DayNames) && NoDups(PeriodNames)
  {
  }

  /** The loops `for c in C: for s in S: ... for e in E` visit the variables in this
      lexicographic order; the level is constant, so it plays no part. */
  predicate LexLess(a: Var, b: Var) {
    || a.c < b.c
    || (a.c == b.c && a.s < b.s)
    || (a.c == b.c && a.s == b.s && a.j < b.j)
    || (a.c == b.c && a.s == b.s && a.j == b.j && a.p < b.p)
    || (a.c == b.c && a.s == b.s && a.j == b.j && a.p == b.p && a.e < b.e)
  }

  /** What follows something that follows `a` also follows `a`. */
  lemma LexLessThrough(a: Var, b: Var, c: Var)
    requires LexLess(a, b) && !LexLess(c, b)
    ensures LexLess(a, c)
  {
  }

  /** A position of the nested loops: an existing variable, or past the last course. */
  predicate Cursor(pr: Problem, v: Var) {
    && pr.rooms > 0 && pr.teachers > 0
    && v.c <= pr.courses
    && (v.c < pr.courses ==> InRange(pr, v))
  }

  /** The first position of the nested loops. */
  function First(pr: Problem): (v: Var)
    requires pr.rooms > 0 && pr.teachers > 0
    ensures Cursor(pr, v)
    ensures forall w :: InRange(pr, w) ==> !LexLess(w, v)
  {
    Var(0, 0, 0, 0, pr.level, 0)
  }

  /** The position after `v`: the innermost index advances and carries outwards. The
      result is the next existing variable in loop order, or the end. */
  function Next(pr: Problem, v: Var): (r: Var)
    requires pr.rooms > 0 && pr.teachers > 0 && InRange(pr, v)
    ensures Cursor(pr, r) && LexLess(v, r)
    ensures forall w :: InRange(pr, w) && LexLess(v, w) ==> !LexLess(w, r)
  {
    if v.e + 1 < pr.teachers then v.(e := v.e + 1)
    else if v.p + 1 < Periods then v.(p := v.p + 1, e := 0)
    else if v.j + 1 < Days then v.(j := v.j + 1, p := 0, e := 0)
    else if v.s + 1 < pr.rooms then v.(s := v.s + 1, j := 0, p := 0, e := 0)
    else Var(v.c + 1, 0, 0, 0, v.n, 0)
  }

  /** The objective terms W_p[p] * X[v] for the variables from position `v` on. */
  function ObjectiveFrom(pr: Problem, x: set<Var>, v: Var): int
    requires Cursor(pr, v)
    decreases pr.courses - v.c, pr.rooms - v.s, Days - v.j, Periods - v.p, pr.teachers - v.e
  {
    if v.c == pr.courses then 0
    else PeriodWeights[v.p] * (if v in x then 1 else 0) + ObjectiveFrom(pr, x, Next(pr, v))
  }

  /** The objective: the sum of W_p[p] * X[(c, s, j, p, n, e)] over every variable. */
  function Objective(pr: Problem, x: set<Var>): int {
    if pr.rooms == 0 || pr.teachers == 0 then 0 else ObjectiveFrom(pr, x, First(pr))
  }
}
