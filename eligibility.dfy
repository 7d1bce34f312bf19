/**
 * Who may take a shift and who is preferred: the availability check
 * (`canAssign`), the per-person allocation counters, the fairness score, the
 * role priorities, the candidate ranking (`pickBestCandidate`) and the choice
 * of whom to displace for an instructor (`findReplaceableController`).
 */
module Eligibility {
  import opened Common
  import opened Text
  import opened Calendar
  import opened Types

  /** `AllocationCounter`: shifts taken so far this month, in total, per shift and on weekends. */
  datatype Counter = Counter(total: int, a: int, b: int, c: int, weekend: int) {
    function ByShift(s: ShiftCode): int {
      match s
      case A => a
      case B => b
      case C => c
    }

    predicate NonNegative() {
      total >= 0 && a >= 0 && b >= 0 && c >= 0 && weekend >= 0
    }
  }

  const EmptyCounter := Counter(0, 0, 0, 0, 0)

  /** The counter after one more shift `s`, on a weekend date or not. */
  function Bumped(k: Counter, s: ShiftCode, weekend: bool): (r: Counter)
    ensures r.total == k.total + 1 && r.ByShift(s) == k.ByShift(s) + 1
    ensures forall t :: t != s ==> r.ByShift(t) == k.ByShift(t)
    ensures r.weekend == if weekend then k.weekend + 1 else k.weekend
  {
    var w := if weekend then k.weekend + 1 else k.weekend;
    match s
    case A => Counter(k.total + 1, k.a + 1, k.b, k.c, w)
    case B => Counter(k.total + 1, k.a, k.b + 1, k.c, w)
    case C => Counter(k.total + 1, k.a, k.b, k.c + 1, w)
  }

  /** The counter after one shift `s` is taken back; each decremented figure stops at 0. */
  function Dropped(k: Counter, s: ShiftCode, weekend: bool): (r: Counter)
    ensures r.total == Max(0, k.total - 1) && r.ByShift(s) == Max(0, k.ByShift(s) - 1)
    ensures forall t :: t != s ==> r.ByShift(t) == k.ByShift(t)
    ensures r.weekend == if weekend then Max(0, k.weekend - 1) else k.weekend
  {
    var w := if weekend then Max(0, k.weekend - 1) else k.weekend;
    match s
    case A => Counter(Max(0, k.total - 1), Max(0, k.a - 1), k.b, k.c, w)
    case B => Counter(Max(0, k.total - 1), k.a, Max(0, k.b - 1), k.c, w)
    case C => Counter(Max(0, k.total - 1), k.a, k.b, Max(0, k.c - 1), w)
  }

  /** Taking a shift back undoes taking it, and neither step makes a counter negative. */
  lemma DroppedUndoesBumped(k: Counter, s: ShiftCode, weekend: bool)
    requires k.NonNegative()
    ensures Bumped(k, s, weekend).NonNegative() && Dropped(k, s, weekend).NonNegative()
    ensures Dropped(Bumped(k, s, weekend), s, weekend) == k
  {
  }

  /** `rolePriority`: lower ranks first; with `preferInstructor` an instructor ranks 0. */
  function RolePriority(role: Role, preferInstructor: bool): (p: int)
    ensures 0 <= p <= 6
    ensures p == 0 <==> preferInstructor && role == Instructor
  {
    if preferInstructor && role == Instructor then 0
    else match role
      case Operador => 1
      case Instructor => 2
      case Adscripto => 3
      case JefeDependencia => 4
      case Supervisor => 5
      case Practicante => 6
  }

  /** Without the instructor preference, the priority tells the roles apart. */
  lemma RolePriorityDistinct(r1: Role, r2: Role)
    ensures RolePriority(r1, false) == RolePriority(r2, false) <==> r1 == r2
  {
  }

  /** The fixed penalty of `fairnessScore` for supervisors (7) and chiefs (6). */
  function RolePenalty(role: Role): int {
    match role
    case Supervisor => 7
    case JefeDependencia => 6
    case _ => 0
  }

  /** `fairnessScore`: 24 per shift taken, 16 per shift of this kind, 8 per weekend shift on weekends, plus the role penalty. */
  function FairnessScore(role: Role, k: Counter, s: ShiftCode, weekend: bool): int {
    24 * k.total + 16 * k.ByShift(s) + (if weekend then 8 * k.weekend else 0) + RolePenalty(role)
  }

  /** Every shift taken raises a person's score: by 24, by 16 more when it is the shift being filled, by 8 more on a weekend. */
  lemma FairnessAfterShift(role: Role, k: Counter, taken: ShiftCode, onWeekend: bool, s: ShiftCode, weekend: bool)
    ensures FairnessScore(role, Bumped(k, taken, onWeekend), s, weekend) - FairnessScore(role, k, s, weekend)
         == 24 + (if taken == s then 16 else 0) + (if weekend && onWeekend then 8 else 0)
  {
  }

  // ---------------------------------------------------------------------------
  // Availability

  datatype Availability = Available | Unavailable(reason: Reason)

  predicate HasWeekdayBlock(blocks: seq<WeekdayBlock>, id: string, weekday: int, s: ShiftCode) {
    exists b :: b in blocks && b.controllerId == id && b.weekday == weekday && b.shift == s
  }

  predicate HasDateBlock(blocks: seq<DateBlock>, id: string, d: Date, s: ShiftCode) {
    exists b :: b in blocks && b.controllerId == id && b.date == d && b.shift == s
  }

  predicate IsOnVacation(vacations: seq<VacationConstraint>, id: string, d: Date) {
    exists v :: v in vacations && v.controllerId == id && IsDateInRange(d, v.startDate, v.endDate)
  }

  /** The checks that do not depend on the shift map: chief on C, weekday block, date block, vacation. */
  predicate Cleared(data: TurneroData, c: Controller, s: ShiftCode, d: Date) {
    !(c.role == JefeDependencia && s == C)
    && !HasWeekdayBlock(data.weekdayBlocks, c.id, DayOfWeek(d), s)
    && !HasDateBlock(data.dateBlocks, c.id, d, s)
    && !IsOnVacation(data.vacations, c.id, d)
  }

  /** The condition under which each check of `canAssign` refuses. */
  predicate Fails(why: Reason, data: TurneroData, m: ShiftMap, c: Controller, s: ShiftCode, d: Date)
    requires ValidDate(d)
  {
    match why
    case AlreadyAssigned => ShiftAt(m, c.id, d).Some?
    case ChiefOnNight => c.role == JefeDependencia && s == C
    case WeekdayBlocked => HasWeekdayBlock(data.weekdayBlocks, c.id, DayOfWeek(d), s)
    case DateBlocked => HasDateBlock(data.dateBlocks, c.id, d, s)
    case OnVacation => IsOnVacation(data.vacations, c.id, d)
    case RestAfterNight => s == A && ShiftAt(m, c.id, PrevDay(d)) == Some(C)
  }

  /** The position of each check in `canAssign`. */
  function Rank(why: Reason): nat {
    match why
    case AlreadyAssigned => 0
    case ChiefOnNight => 1
    case WeekdayBlocked => 2
    case DateBlocked => 3
    case OnVacation => 4
    case RestAfterNight => 5
  }

  /**
   * `canAssign`: the first check that fails gives the reason; a person no check
   * refuses is available.
   */
  function CanAssign(data: TurneroData, m: ShiftMap, c: Controller, s: ShiftCode, d: Date): (r: Availability)
    requires ValidDate(d)
    ensures r == Available <==> forall why: Reason :: !Fails(why, data, m, c, s, d)
    ensures r.Unavailable? ==> Fails(r.reason, data, m, c, s, d)
    ensures r.Unavailable? ==> forall why: Reason :: Rank(why) < Rank(r.reason) ==> !Fails(why, data, m, c, s, d)
    ensures r == Available <==>
      ShiftAt(m, c.id, d) == None && Cleared(data, c, s, d) && !(s == A && ShiftAt(m, c.id, PrevDay(d)) == Some(C))
  {
    if ShiftAt(m, c.id, d).Some? then
      assert Fails(AlreadyAssigned, data, m, c, s, d);
      Unavailable(AlreadyAssigned)
    else if c.role == JefeDependencia && s == C then
      assert Fails(ChiefOnNight, data, m, c, s, d);
      Unavailable(ChiefOnNight)
    else if HasWeekdayBlock(data.weekdayBlocks, c.id, DayOfWeek(d), s) then
      assert Fails(WeekdayBlocked, data, m, c, s, d);
      Unavailable(WeekdayBlocked)
    else if HasDateBlock(data.dateBlocks, c.id, d, s) then
      assert Fails(DateBlocked, data, m, c, s, d);
      Unavailable(DateBlocked)
    else if IsOnVacation(data.vacations, c.id, d) then
      assert Fails(OnVacation, data, m, c, s, d);
      Unavailable(OnVacation)
    else if s == A && ShiftAt(m, c.id, PrevDay(d)) == Some(C) then
      assert Fails(RestAfterNight, data, m, c, s, d);
      Unavailable(RestAfterNight)
    else Available
  }

  /**
   * A map that only fills empty cells never makes an unavailable person
   * available: every check that refused still refuses.
   */
  ghost predicate Grows(m: ShiftMap, m': ShiftMap) {
    forall id, e :: ShiftAt(m, id, e).Some? ==> ShiftAt(m', id, e) == ShiftAt(m, id, e)
  }

  lemma GrowsTransitive(m1: ShiftMap, m2: ShiftMap, m3: ShiftMap)
    requires Grows(m1, m2) && Grows(m2, m3)
    ensures Grows(m1, m3)
  {
  }

  lemma UnavailableStays(data: TurneroData, m: ShiftMap, m': ShiftMap, c: Controller, s: ShiftCode, d: Date)
    requires ValidDate(d) && Grows(m, m')
    requires CanAssign(data, m, c, s, d) != Available
    ensures CanAssign(data, m', c, s, d) != Available
  {
    if ShiftAt(m, c.id, d).Some? {
      assert ShiftAt(m', c.id, d) == ShiftAt(m, c.id, d);
    } else if s == A && ShiftAt(m, c.id, PrevDay(d)) == Some(C) {
      assert ShiftAt(m', c.id, PrevDay(d)) == Some(C);
    }
  }

  // ---------------------------------------------------------------------------
  // Ranking

  datatype PickContext = PickContext(shift: ShiftCode, weekend: bool, preferInstructor: bool)

  /** The sort key of `pickBestCandidate`'s comparator, field by field in comparison order. */
  datatype RankKey = RankKey(instructor: int, fairness: int, role: int, name: string)

  function KeyOf(c: Controller, k: Counter, ctx: PickContext): RankKey {
    RankKey(
      if ctx.preferInstructor then RolePriority(c.role, true) else 0,
      FairnessScore(c.role, k, ctx.shift, ctx.weekend),
      RolePriority(c.role, false),
      c.name)
  }

  /** The comparator's strict order: lexicographic, names last (by code unit). */
  predicate KeyLess(x: RankKey, y: RankKey) {
    x.instructor < y.instructor
    || (x.instructor == y.instructor && (x.fairness < y.fairness
    || (x.fairness == y.fairness && (x.role < y.role
    || (x.role == y.role && StrLess(x.name, y.name))))))
  }

  lemma KeyLessAsymmetric(x: RankKey, y: RankKey)
    requires KeyLess(x, y)
    ensures !KeyLess(y, x)
  {
    if x.instructor == y.instructor && x.fairness == y.fairness && x.role == y.role {
      if StrLess(y.name, x.name) {
        StrLessTransitive(x.name, y.name, x.name);
        StrLessIrreflexive(x.name);
      }
    }
  }

  lemma KeyLessIrreflexive(x: RankKey)
    ensures !KeyLess(x, x)
  {
    StrLessIrreflexive(x.name);
  }

  /** Anything below `x` is below every key that `x` is not above. */
  lemma KeyLessBelow(x: RankKey, y: RankKey)
    requires !KeyLess(y, x)
    ensures forall z :: KeyLess(z, x) ==> KeyLess(z, y)
  {
    StrLessTrichotomy(x.name, y.name);
    forall z | KeyLess(z, x) ensures KeyLess(z, y) {
      if z.instructor == x.instructor && z.fairness == x.fairness && z.role == x.role
        && x.instructor == y.instructor && x.fairness == y.fairness && x.role == y.role
        && x.name != y.name
      {
        StrLessTransitive(z.name, x.name, y.name);
      }
    }
  }

  predicate IsAvailable(data: TurneroData, m: ShiftMap, c: Controller, s: ShiftCode, d: Date)
    requires ValidDate(d)
  {
    CanAssign(data, m, c, s, d) == Available
  }

  /** Element `i` passes `ok` and its key is strictly below that of every passing element listed ahead of it. */
  predicate FirstOfBest<T>(xs: seq<T>, i: int, ok: T -> bool, key: T -> RankKey)
    requires 0 <= i < |xs|
  {
    ok(xs[i]) && forall j :: 0 <= j < i && ok(xs[j]) ==> KeyLess(key(xs[i]), key(xs[j]))
  }

  /**
   * The head of `xs` filtered by `ok` and stably sorted by `key`: the first
   * passing element whose key no passing element's key is below.
   */
  function FirstMinimal<T>(xs: seq<T>, ok: T -> bool, key: T -> RankKey): (r: Option<T>)
    ensures r.None? <==> forall i :: 0 <= i < |xs| ==> !ok(xs[i])
    ensures r.Some? ==> forall i :: 0 <= i < |xs| && ok(xs[i]) ==> !KeyLess(key(xs[i]), key(r.value))
    ensures r.Some? ==> exists i :: 0 <= i < |xs| && xs[i] == r.value && FirstOfBest(xs, i, ok, key)
  {
    if xs == [] then None
    else
      var rest := FirstMinimal(xs[1..], ok, key);
      assert forall i :: 1 <= i < |xs| ==> xs[i] == xs[1..][i - 1];
      if !ok(xs[0]) then
        assert rest.Some? ==> (var i :| 0 <= i < |xs[1..]| && xs[1..][i] == rest.value && FirstOfBest(xs[1..], i, ok, key);
          FirstOfBest(xs, i + 1, ok, key));
        rest
      else if rest.Some? && KeyLess(key(rest.value), key(xs[0])) then
        KeyLessAsymmetric(key(rest.value), key(xs[0]));
        assert (var i :| 0 <= i < |xs[1..]| && xs[1..][i] == rest.value && FirstOfBest(xs[1..], i, ok, key);
          FirstOfBest(xs, i + 1, ok, key));
        rest
      else
        KeyLessIrreflexive(key(xs[0]));
        if rest.Some? then
          KeyLessBelow(key(xs[0]), key(rest.value));
          assert FirstOfBest(xs, 0, ok, key);
          Some(xs[0])
        else
          assert FirstOfBest(xs, 0, ok, key);
          Some(xs[0])
  }

  function CandidateKey(c: Controller, counters: map<string, Counter>, ctx: PickContext): RankKey {
    KeyOf(c, if c.id in counters then counters[c.id] else EmptyCounter, ctx)
  }

  /**
   * `pickBestCandidate`: nobody exactly when no candidate is available;
   * otherwise an available candidate that no available candidate outranks,
   * and the first such in the candidate list (the sort is stable).
   */
  function PickBestCandidate(cands: seq<Controller>, data: TurneroData, m: ShiftMap, counters: map<string, Counter>, d: Date, ctx: PickContext): (r: Option<Controller>)
    requires ValidDate(d)
    requires forall c :: c in cands ==> c.id in counters
    ensures r.None? <==> forall c :: c in cands ==> !IsAvailable(data, m, c, ctx.shift, d)
    ensures r.Some? ==> r.value in cands && IsAvailable(data, m, r.value, ctx.shift, d)
    ensures r.Some? ==> forall c :: c in cands && IsAvailable(data, m, c, ctx.shift, d) ==> !KeyLess(CandidateKey(c, counters, ctx), CandidateKey(r.value, counters, ctx))
    ensures r.Some? ==> exists i :: 0 <= i < |cands| && cands[i] == r.value && FirstOfBest(cands, i, c => IsAvailable(data, m, c, ctx.shift, d), c => CandidateKey(c, counters, ctx))
  {
    FirstMinimal(cands, c => IsAvailable(data, m, c, ctx.shift, d), c => CandidateKey(c, counters, ctx))
  }

  /** The test of `findReplaceableController`: on the roster, not an instructor, and not a supervisor on a shift that needs one. */
  predicate Replaceable(roster: seq<Controller>, id: string, s: ShiftCode) {
    match RoleOf(roster, id)
    case None => false
    case Some(role) => role != Instructor && !(RequiresSupervisor(s) && role == Supervisor)
  }

  /** `findReplaceableController`: the first listed id that may be displaced, if any. */
  function FindReplaceableController(ids: seq<string>, roster: seq<Controller>, s: ShiftCode): (r: Option<string>)
    ensures r.None? <==> forall i :: 0 <= i < |ids| ==> !Replaceable(roster, ids[i], s)
    ensures r.Some? ==> exists i :: 0 <= i < |ids| && ids[i] == r.value && Replaceable(roster, ids[i], s) && (forall j :: 0 <= j < i ==> !Replaceable(roster, ids[j], s))
  {
    if ids == [] then None
    else if Replaceable(roster, ids[0], s) then Some(ids[0])
    else
      var rest := FindReplaceableController(ids[1..], roster, s);
      assert rest.Some? ==> (var i :| 0 <= i < |ids[1..]| && ids[1..][i] == rest.value && Replaceable(roster, ids[1..][i], s) && (forall j :: 0 <= j < i ==> !Replaceable(roster, ids[1..][j], s));
        ids[i + 1] == rest.value && forall j :: 0 <= j < i + 1 ==> !Replaceable(roster, ids[j], s));
      assert rest.None? ==> forall i :: 0 <= i < |ids| ==> !Replaceable(roster, ids[i], s) by {
        if rest.None? {
          forall i | 0 <= i < |ids| ensures !Replaceable(roster, ids[i], s) {
            if i > 0 { assert ids[i] == ids[1..][i - 1]; }
          }
        }
      }
      rest
  }
}
