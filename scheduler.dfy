/**
 * `generateMonthlySchedule`: the month's dates in order, each date's shifts
 * A, B, C in order, and for each shift the forced assignments, the supervisor,
 * the fill up to the required headcount, the trainee/instructor repair and the
 * shortfall report. The counters and the shift map it threads through the pass
 * travel as one `Tables` value from step to step.
 */
module Scheduler {
  import opened Common
  import opened Text
  import opened Calendar
  import opened Types
  import opened Eligibility

  // ---------------------------------------------------------------------------
  // What each cell needs

  predicate Overrides(o: CoverageOverride, d: Date, s: ShiftCode) {
    o.date == d && o.shift == s
  }

  /**
   * The headcount of a cell: the override listed last for that date and shift
   * (later `set`s replace earlier ones), or the shift's default.
   */
  function RequiredFor(overrides: seq<CoverageOverride>, d: Date, s: ShiftCode): int
  {
    if overrides == [] then DefaultRequired(s)
    else
      var n := |overrides| - 1;
      if Overrides(overrides[n], d, s) then overrides[n].required
      else RequiredFor(overrides[..n], d, s)
  }

  /** Without an override for the cell the default applies; with one, the one listed last decides. */
  lemma {:induction false} RequiredForOverride(overrides: seq<CoverageOverride>, d: Date, s: ShiftCode)
    ensures (forall i :: 0 <= i < |overrides| ==> !Overrides(overrides[i], d, s)) ==> RequiredFor(overrides, d, s) == DefaultRequired(s)
    ensures forall i :: 0 <= i < |overrides| && Overrides(overrides[i], d, s) && LastOverride(overrides, i, d, s) ==>
      RequiredFor(overrides, d, s) == overrides[i].required
  {
    if overrides != [] {
      var n := |overrides| - 1;
      if !Overrides(overrides[n], d, s) {
        RequiredForOverride(overrides[..n], d, s);
        assert forall i :: 0 <= i < n ==> overrides[..n][i] == overrides[i];
      }
    }
  }

  predicate LastOverride(overrides: seq<CoverageOverride>, i: int, d: Date, s: ShiftCode) {
    forall j :: 0 <= j < |overrides| && i < j ==> !Overrides(overrides[j], d, s)
  }

  /** `forcedByDateShift.get(key) ?? []`: the ids forced onto a cell, in listing order. */
  function ForcedIds(forced: seq<ForcedAssignment>, d: Date, s: ShiftCode): (ids: seq<string>)
    ensures |ids| <= |forced|
  {
    if forced == [] then []
    else
      var n := |forced| - 1;
      var f := forced[n];
      ForcedIds(forced[..n], d, s) + (if f.date == d && f.shift == s then [f.controllerId] else [])
  }

  /** The ids forced onto a cell are exactly those of the forced assignments for that date and shift. */
  lemma {:induction false} ForcedIdsMembers(forced: seq<ForcedAssignment>, d: Date, s: ShiftCode)
    ensures forall id :: id in ForcedIds(forced, d, s) <==> exists f :: f in forced && f.date == d && f.shift == s && f.controllerId == id
  {
    if forced != [] {
      var n := |forced| - 1;
      var f := forced[n];
      ForcedIdsMembers(forced[..n], d, s);
      assert forall g :: g in forced <==> g in forced[..n] || g == f by {
        assert forced == forced[..n] + [f];
      }
    }
  }

  /** How many of the ids are not on the roster. */
  function CountUnknownIds(ids: seq<string>, roster: seq<Controller>): (n: nat)
    ensures n <= |ids|
  {
    if ids == [] then 0
    else CountUnknownIds(ids[..|ids| - 1], roster) + (if ids[|ids| - 1] in Ids(roster) then 0 else 1)
  }

  /** How many conflicts report an unknown forced id. */
  function CountUnknownConflicts(cs: seq<Conflict>): (n: nat)
    ensures n <= |cs|
  {
    if cs == [] then 0
    else CountUnknownConflicts(cs[..|cs| - 1]) + (if cs[|cs| - 1].UnknownForcedController? then 1 else 0)
  }

  lemma {:induction false} CountUnknownConflictsConcat(xs: seq<Conflict>, ys: seq<Conflict>)
    ensures CountUnknownConflicts(xs + ys) == CountUnknownConflicts(xs) + CountUnknownConflicts(ys)
    decreases |ys|
  {
    if ys == [] {
      assert xs + ys == xs;
    } else {
      var n := |ys| - 1;
      assert (xs + ys)[..|xs + ys| - 1] == xs + ys[..n];
      CountUnknownConflictsConcat(xs, ys[..n]);
    }
  }

  /** One more forced id adds one unknown-id report exactly when the id is not on the roster. */
  lemma ForcedStep(forced: seq<string>, k: int, roster: seq<Controller>, conflicts: seq<Conflict>, extra: seq<Conflict>)
    requires 0 <= k < |forced|
    requires CountUnknownConflicts(conflicts) == CountUnknownIds(forced[..k], roster)
    requires forall x :: x in conflicts ==> x.UnknownForcedController? || x.ForcedUnavailable?
    requires forced[k] !in Ids(roster) ==> extra == [UnknownForcedController]
    requires forced[k] in Ids(roster) ==> extra == [] || (|extra| == 1 && extra[0].ForcedUnavailable?)
    ensures CountUnknownConflicts(conflicts + extra) == CountUnknownIds(forced[..k + 1], roster)
    ensures forall x :: x in conflicts + extra ==> x.UnknownForcedController? || x.ForcedUnavailable?
  {
    assert forced[..k + 1][..k] == forced[..k];
    CountUnknownConflictsConcat(conflicts, extra);
    assert CountUnknownConflicts([UnknownForcedController]) == 1;
  }

  // ---------------------------------------------------------------------------
  // The shift map as cells are filled

  /** `controllerShiftByDate[id][date] = value`. */
  function SetCell(m: ShiftMap, id: string, d: Date, v: Option<ShiftCode>): ShiftMap
    requires id in m
  {
    m[id := m[id][d := v]]
  }

  /** The counter table after `id` takes shift `s` (no entry, no change). */
  function BumpCounter(k: map<string, Counter>, id: string, s: ShiftCode, weekend: bool): map<string, Counter> {
    if id in k then k[id := Bumped(k[id], s, weekend)] else k
  }

  /** The counter table after `id` gives back shift `s` (no entry, no change). */
  function DropCounter(k: map<string, Counter>, id: string, s: ShiftCode, weekend: bool): map<string, Counter> {
    if id in k then k[id := Dropped(k[id], s, weekend)] else k
  }

  /**
   * Assigning someone whose cell is empty and who is not yet listed, then
   * unassigning them, restores the list, the map and the counters.
   */
  lemma AssignThenUnassign(m: ShiftMap, k: map<string, Counter>, ids: seq<string>, id: string, s: ShiftCode, d: Date, weekend: bool)
    requires id in m && d in m[id] && m[id][d] == None && id !in ids
    requires id in k ==> k[id].NonNegative()
    ensures RemoveFirst(ids + [id], id) == ids
    ensures SetCell(SetCell(m, id, d, Some(s)), id, d, None) == m
    ensures DropCounter(BumpCounter(k, id, s, weekend), id, s, weekend) == k
  {
    RemoveFirstAfterAppend(ids, id);
    assert m[id][d := Some(s)][d := None] == m[id];
    if id in k { DroppedUndoesBumped(k[id], s, weekend); }
  }

  /** The map once everyone in `ids` is placed on shift `s` on date `d`. */
  function PlaceAll(base: ShiftMap, ids: seq<string>, d: Date, s: ShiftCode): ShiftMap {
    map id | id in base :: if id in ids then base[id][d := Some(s)] else base[id]
  }

  lemma ShiftAtPlaceAll(base: ShiftMap, ids: seq<string>, d: Date, s: ShiftCode)
    ensures forall id, e :: ShiftAt(PlaceAll(base, ids, d, s), id, e) == if id in base && id in ids && e == d then Some(s) else ShiftAt(base, id, e)
  {
  }

  lemma PlaceAllEmpty(base: ShiftMap, d: Date, s: ShiftCode)
    ensures PlaceAll(base, [], d, s) == base
  {
  }

  lemma PlaceAllAdd(base: ShiftMap, ids: seq<string>, id: string, d: Date, s: ShiftCode)
    requires id in base && id !in ids
    ensures PlaceAll(base, ids + [id], d, s) == SetCell(PlaceAll(base, ids, d, s), id, d, Some(s))
  {
  }

  lemma PlaceAllRemove(base: ShiftMap, ids: seq<string>, id: string, d: Date, s: ShiftCode)
    requires id in base && d in base[id] && base[id][d] == None
    requires NoDuplicates(ids) && id in ids
    ensures PlaceAll(base, RemoveFirst(ids, id), d, s) == SetCell(PlaceAll(base, ids, d, s), id, d, None)
  {
    RemoveFirstMembers(ids, id);
    assert base[id][d := Some(s)][d := None] == base[id];
  }

  /** Placing people in empty cells only fills cells. */
  lemma PlaceAllGrows(base: ShiftMap, ids: seq<string>, d: Date, s: ShiftCode)
    requires forall id :: id in ids ==> ShiftAt(base, id, d) == None
    ensures Grows(base, PlaceAll(base, ids, d, s))
  {
    ShiftAtPlaceAll(base, ids, d, s);
  }

  /** While a cell is being filled, a person is available for it exactly when not yet placed and available against the map before the cell. */
  lemma AvailableInCell(data: TurneroData, base: ShiftMap, ids: seq<string>, c: Controller, s: ShiftCode, d: Date)
    requires ValidDate(d) && c.id in base
    ensures IsAvailable(data, PlaceAll(base, ids, d, s), c, s, d) <==> c.id !in ids && IsAvailable(data, base, c, s, d)
  {
    ShiftAtPlaceAll(base, ids, d, s);
    var p := PrevDay(d);
    assert p != d;
  }

  /** A roster entry with this id passes the checks that do not depend on the map. */
  ghost predicate Vetted(data: TurneroData, id: string, s: ShiftCode, d: Date) {
    exists c :: c in data.controllers && c.id == id && Cleared(data, c, s, d)
  }

  /** What every person placed on a cell satisfied against the map before the cell. */
  ghost predicate Placeable(data: TurneroData, base: ShiftMap, id: string, s: ShiftCode, d: Date)
    requires ValidDate(d)
  {
    id in base && ShiftAt(base, id, d) == None && Vetted(data, id, s, d)
    && !(s == A && ShiftAt(base, id, PrevDay(d)) == Some(C))
  }

  ghost predicate SupervisorRule(plan: ShiftPlan, roster: seq<Controller>) {
    RequiresSupervisor(plan.shift) && plan.required > 0 ==>
      HasRole(plan.assignedControllerIds, roster, Supervisor) || NoSupervisor(plan.shift) in plan.conflicts
  }

  ghost predicate TraineeRule(plan: ShiftPlan, roster: seq<Controller>) {
    HasRole(plan.assignedControllerIds, roster, Practicante) ==>
      HasRole(plan.assignedControllerIds, roster, Instructor) || MissingInstructor in plan.conflicts
  }

  /** A shortfall is reported once, last, with the missing count; a full cell reports none. */
  ghost predicate CoverageReported(plan: ShiftPlan) {
    var n, count := |plan.conflicts|, |plan.assignedControllerIds|;
    (count < plan.required ==> n > 0 && plan.conflicts[n - 1] == IncompleteCoverage(plan.required - count, plan.shift))
    && (forall i :: 0 <= i < n && plan.conflicts[i].IncompleteCoverage? ==> i == n - 1 && count < plan.required)
  }

  /** The promises about one shift's plan that do not mention the map. */
  ghost predicate PlanFacts(data: TurneroData, plan: ShiftPlan, d: Date, s: ShiftCode) {
    var ids := plan.assignedControllerIds;
    var forced := ForcedIds(data.forcedAssignments, d, s);
    plan.shift == s && plan.required == RequiredFor(data.coverageOverrides, d, s)
    && NoDuplicates(ids) && (forall id :: id in ids ==> id in Ids(data.controllers))
    && |ids| <= Max(plan.required, |forced| + 1)
    && CoverageReported(plan)
    && CountUnknownConflicts(plan.conflicts) == CountUnknownIds(forced, data.controllers)
    && (UniqueIds(data.controllers) ==> SupervisorRule(plan, data.controllers) && TraineeRule(plan, data.controllers))
  }

  /** A cell left short had nobody else on the roster who could take it. */
  ghost predicate Maximal(data: TurneroData, plan: ShiftPlan, m: ShiftMap, d: Date)
    requires ValidDate(d)
  {
    |plan.assignedControllerIds| < plan.required ==>
      forall c :: c in data.controllers ==> !IsAvailable(data, m, c, plan.shift, d)
  }

  lemma HasRoleMember(ids: seq<string>, roster: seq<Controller>, role: Role, x: string)
    requires x in ids && RoleOf(roster, x) == Some(role)
    ensures HasRole(ids, roster, role)
  {
    var k :| 0 <= k < |ids| && ids[k] == x;
  }

  lemma HasRolePrefix(ids: seq<string>, more: seq<string>, roster: seq<Controller>, role: Role)
    requires ids <= more && HasRole(ids, roster, role)
    ensures HasRole(more, roster, role)
  {
    var k :| 0 <= k < |ids| && RoleOf(roster, ids[k]) == Some(role);
    assert more[k] == ids[k];
  }

  /** Both tables hold every roster id; every row holds exactly the month's dates; no count is negative. */
  ghost predicate TablesReady(roster: seq<Controller>, dates: set<Date>, k: map<string, Counter>, m: ShiftMap) {
    k.Keys == Ids(roster) && m.Keys == Ids(roster)
    && (forall id :: id in m ==> m[id].Keys == dates)
    && (forall id :: id in k ==> k[id].NonNegative())
  }

  /**
   * The tables while the cell (`d`, `s`) is filled: the map is the map before
   * the cell (`base`) with the listed people placed, none listed twice, each
   * placeable when the cell began.
   */
  ghost predicate InCell(data: TurneroData, base: ShiftMap, dates: set<Date>, d: Date, s: ShiftCode, placed: seq<string>, k: map<string, Counter>, m: ShiftMap)
    requires ValidDate(d)
  {
    TablesReady(data.controllers, dates, k, m) && d in dates
    && base.Keys == Ids(data.controllers) && (forall id :: id in base ==> base[id].Keys == dates)
    && m == PlaceAll(base, placed, d, s)
    && NoDuplicates(placed)
    && (forall id {:trigger Placeable(data, base, id, s, d)} :: id in placed ==> Placeable(data, base, id, s, d))
  }

  /** Filling or emptying one cell and counting the change keeps both tables ready. */
  lemma TablesAfterChange(roster: seq<Controller>, dates: set<Date>, k: map<string, Counter>, m: ShiftMap, id: string, d: Date, v: Option<ShiftCode>, s: ShiftCode, weekend: bool)
    requires TablesReady(roster, dates, k, m) && id in m && d in dates
    ensures TablesReady(roster, dates, BumpCounter(k, id, s, weekend), SetCell(m, id, d, v))
    ensures TablesReady(roster, dates, DropCounter(k, id, s, weekend), SetCell(m, id, d, v))
  {
    CountersAfterChange(k, id, s, weekend);
    RowsAfterChange(dates, m, id, d, v);
  }

  lemma CountersAfterChange(k: map<string, Counter>, id: string, s: ShiftCode, weekend: bool)
    requires forall x :: x in k ==> k[x].NonNegative()
    ensures BumpCounter(k, id, s, weekend).Keys == k.Keys && DropCounter(k, id, s, weekend).Keys == k.Keys
    ensures forall x :: x in BumpCounter(k, id, s, weekend) ==> BumpCounter(k, id, s, weekend)[x].NonNegative()
    ensures forall x :: x in DropCounter(k, id, s, weekend) ==> DropCounter(k, id, s, weekend)[x].NonNegative()
  {
    if id in k {
      DroppedUndoesBumped(k[id], s, weekend);
    }
  }

  lemma RowsAfterChange(dates: set<Date>, m: ShiftMap, id: string, d: Date, v: Option<ShiftCode>)
    requires id in m && d in dates && forall x :: x in m ==> m[x].Keys == dates
    ensures SetCell(m, id, d, v).Keys == m.Keys
    ensures forall x :: x in SetCell(m, id, d, v) ==> SetCell(m, id, d, v)[x].Keys == dates
  {
  }

  /** Someone available while the cell is filled is not yet placed, and was placeable when it began. */
  lemma PlaceableWhenAvailable(data: TurneroData, base: ShiftMap, placed: seq<string>, c: Controller, s: ShiftCode, d: Date)
    requires ValidDate(d) && c in data.controllers && c.id in base
    requires IsAvailable(data, PlaceAll(base, placed, d, s), c, s, d)
    ensures c.id !in placed && Placeable(data, base, c.id, s, d)
  {
    AvailableInCell(data, base, placed, c, s, d);
    assert Vetted(data, c.id, s, d);
  }

  /** Placing an available roster member keeps the cell's state. */
  lemma InCellAdd(data: TurneroData, base: ShiftMap, dates: set<Date>, d: Date, s: ShiftCode, placed: seq<string>, k: map<string, Counter>, m: ShiftMap, c: Controller)
    requires ValidDate(d) && InCell(data, base, dates, d, s, placed, k, m)
    requires c in data.controllers && IsAvailable(data, m, c, s, d)
    ensures c.id in m && c.id !in placed
    ensures InCell(data, base, dates, d, s, placed + [c.id], BumpCounter(k, c.id, s, IsWeekend(d)), SetCell(m, c.id, d, Some(s)))
  {
    assert c.id in Ids(data.controllers);
    PlaceableWhenAvailable(data, base, placed, c, s, d);
    PlaceAllAdd(base, placed, c.id, d, s);
    TablesAfterChange(data.controllers, dates, k, m, c.id, d, Some(s), s, IsWeekend(d));
    AppendFresh(placed, c.id);
    PlaceableAppend(data, base, placed, c.id, s, d);
  }

  lemma PlaceableAppend(data: TurneroData, base: ShiftMap, placed: seq<string>, x: string, s: ShiftCode, d: Date)
    requires ValidDate(d) && Placeable(data, base, x, s, d)
    requires forall id :: id in placed ==> Placeable(data, base, id, s, d)
    ensures forall id :: id in placed + [x] ==> Placeable(data, base, id, s, d)
  {
  }

  /** Taking a listed person off keeps the cell's state, and removes exactly that person. */
  lemma InCellRemove(data: TurneroData, base: ShiftMap, dates: set<Date>, d: Date, s: ShiftCode, placed: seq<string>, k: map<string, Counter>, m: ShiftMap, id: string)
    requires ValidDate(d) && InCell(data, base, dates, d, s, placed, k, m)
    requires id in placed
    ensures id in m
    ensures forall x :: x in RemoveFirst(placed, id) <==> x in placed && x != id
    ensures InCell(data, base, dates, d, s, RemoveFirst(placed, id), DropCounter(k, id, s, IsWeekend(d)), SetCell(m, id, d, None))
  {
    assert Placeable(data, base, id, s, d);
    PlaceAllRemove(base, placed, id, d, s);
    RemoveFirstMembers(placed, id);
    TablesAfterChange(data.controllers, dates, k, m, id, d, None, s, IsWeekend(d));
  }

  /** Displacing a listed person by an available one keeps the cell's state. */
  lemma InCellSwap(data: TurneroData, base: ShiftMap, dates: set<Date>, d: Date, s: ShiftCode, placed: seq<string>, k: map<string, Counter>, m: ShiftMap, ins: Controller, out: string)
    requires ValidDate(d) && InCell(data, base, dates, d, s, placed, k, m)
    requires ins in data.controllers && IsAvailable(data, m, ins, s, d) && out in placed
    ensures out in m && ins.id in m && out != ins.id
    ensures ins.id !in RemoveFirst(placed, out)
    ensures forall x :: x in RemoveFirst(placed, out) + [ins.id] <==> (x in placed && x != out) || x == ins.id
    ensures var k1, m1 := DropCounter(k, out, s, IsWeekend(d)), SetCell(m, out, d, None);
      InCell(data, base, dates, d, s, RemoveFirst(placed, out) + [ins.id], BumpCounter(k1, ins.id, s, IsWeekend(d)), SetCell(m1, ins.id, d, Some(s)))
  {
    assert ins.id in Ids(data.controllers);
    AvailableInCell(data, base, placed, ins, s, d);
    SwapMembers(placed, out, ins.id);
    InCellRemove(data, base, dates, d, s, placed, k, m, out);
    var placed1, k1, m1 := RemoveFirst(placed, out), DropCounter(k, out, s, IsWeekend(d)), SetCell(m, out, d, None);
    assert InCell(data, base, dates, d, s, placed1, k1, m1);
    assert IsAvailable(data, m1, ins, s, d) by {
      AvailableInCell(data, base, placed1, ins, s, d);
    }
    InCellAdd(data, base, dates, d, s, placed1, k1, m1, ins);
  }

  /** Swapping an unlisted id in for a listed one: the others stay, the newcomer joins. */
  lemma SwapMembers(placed: seq<string>, out: string, x: string)
    requires NoDuplicates(placed) && out in placed && x !in placed
    ensures x != out && x !in RemoveFirst(placed, out)
    ensures forall y :: y in RemoveFirst(placed, out) + [x] <==> (y in placed && y != out) || y == x
  {
    RemoveFirstMembers(placed, out);
  }

  /** An empty cell starts from ready tables, with the map before the cell as its base. */
  lemma CellStart(data: TurneroData, dates: set<Date>, d: Date, s: ShiftCode, k: map<string, Counter>, m: ShiftMap)
    requires ValidDate(d) && TablesReady(data.controllers, dates, k, m) && d in dates
    ensures InCell(data, m, dates, d, s, [], k, m)
  {
    PlaceAllEmpty(m, d, s);
  }

  /** A finished cell leaves ready tables and a map that is the base with the listed people, each placeable and on the roster. */
  lemma CellEnd(data: TurneroData, base: ShiftMap, dates: set<Date>, d: Date, s: ShiftCode, placed: seq<string>, k: map<string, Counter>, m: ShiftMap)
    requires ValidDate(d) && InCell(data, base, dates, d, s, placed, k, m)
    ensures TablesReady(data.controllers, dates, k, m) && m == PlaceAll(base, placed, d, s)
    ensures forall id :: id in placed ==> Placeable(data, base, id, s, d)
    ensures NoDuplicates(placed) && forall id :: id in placed ==> id in Ids(data.controllers)
  {
    forall id | id in placed ensures id in Ids(data.controllers) && Placeable(data, base, id, s, d) {
      assert Placeable(data, base, id, s, d);
    }
  }

  /** A role filter for `controllers.filter((c) => c.role === ...)`. */
  function IsSupervisorEntry(c: Controller): bool { c.role == Supervisor }

  function IsInstructorEntry(c: Controller): bool { c.role == Instructor }

  // ---------------------------------------------------------------------------
  // The pass

  /**
   * The counter table and the shift map of one run of the engine. The pass
   * keeps them in two local variables and hands them to its helpers, which
   * update them; here each helper takes the tables and returns them updated.
   */
  datatype Tables = Tables(counters: map<string, Counter>, shiftByDate: ShiftMap)

  ghost predicate Ready(t: Tables, roster: seq<Controller>, dates: set<Date>) {
    TablesReady(roster, dates, t.counters, t.shiftByDate)
  }

  ghost predicate CellState(t: Tables, data: TurneroData, base: ShiftMap, dates: set<Date>, d: Date, s: ShiftCode, placed: seq<string>)
    requires ValidDate(d)
  {
    InCell(data, base, dates, d, s, placed, t.counters, t.shiftByDate)
  }

  /** Zeroed counters and an empty row of the month's dates for every roster id. */
  function InitialTables(roster: seq<Controller>, dates: seq<Date>): (t: Tables)
    ensures Ready(t, roster, set d | d in dates)
    ensures forall id :: id in t.counters ==> t.counters[id] == EmptyCounter
    ensures forall id, e :: ShiftAt(t.shiftByDate, id, e) == None
  {
    Tables(map id | id in Ids(roster) :: EmptyCounter, map id | id in Ids(roster) :: map d | d in dates :: None)
  }

  /** `assignController`: list the id once, fill its cell, count the shift. */
  method Assign(t: Tables, c: Controller, s: ShiftCode, d: Date, placed: seq<string>) returns (t': Tables, placed': seq<string>)
    requires c.id in t.shiftByDate
    ensures c.id in placed ==> placed' == placed && t' == t
    ensures c.id !in placed ==> (placed' == placed + [c.id]
      && t' == Tables(BumpCounter(t.counters, c.id, s, IsWeekend(d)), SetCell(t.shiftByDate, c.id, d, Some(s))))
  {
    if c.id in placed {
      return t, placed;
    }
    placed' := placed + [c.id];
    var shiftByDate := SetCell(t.shiftByDate, c.id, d, Some(s));
    var counters := t.counters;
    if c.id in counters {
      counters := counters[c.id := Bumped(counters[c.id], s, IsWeekend(d))];
    }
    t' := Tables(counters, shiftByDate);
  }

  /** `unassignController`: drop the id, empty its cell, take the shift off its counter. */
  method Unassign(t: Tables, c: Controller, s: ShiftCode, d: Date, placed: seq<string>) returns (t': Tables, placed': seq<string>)
    requires c.id in t.shiftByDate
    ensures c.id !in placed ==> placed' == placed && t' == t
    ensures c.id in placed ==> (placed' == RemoveFirst(placed, c.id)
      && t' == Tables(DropCounter(t.counters, c.id, s, IsWeekend(d)), SetCell(t.shiftByDate, c.id, d, None)))
  {
    if c.id !in placed {
      return t, placed;
    }
    placed' := RemoveFirst(placed, c.id);
    var shiftByDate := SetCell(t.shiftByDate, c.id, d, None);
    var counters := t.counters;
    if c.id in counters {
      counters := counters[c.id := Dropped(counters[c.id], s, IsWeekend(d))];
    }
    t' := Tables(counters, shiftByDate);
  }

  /** Places an available roster member on the cell. */
  method AssignAvailable(t: Tables, data: TurneroData, c: Controller, s: ShiftCode, d: Date, placed: seq<string>, ghost base: ShiftMap, ghost dates: set<Date>)
    returns (t': Tables, placed': seq<string>)
    requires ValidDate(d) && CellState(t, data, base, dates, d, s, placed)
    requires c in data.controllers && IsAvailable(data, t.shiftByDate, c, s, d)
    ensures placed' == placed + [c.id] && CellState(t', data, base, dates, d, s, placed')
  {
    InCellAdd(data, base, dates, d, s, placed, t.counters, t.shiftByDate, c);
    t', placed' := Assign(t, c, s, d, placed);
  }

  /**
   * The displacement: `out` leaves the cell and the available `ins` takes
   * the place, so the headcount is unchanged.
   */
  method SwapIn(t: Tables, data: TurneroData, ins: Controller, out: Controller, s: ShiftCode, d: Date, placed: seq<string>, ghost base: ShiftMap, ghost dates: set<Date>)
    returns (t': Tables, placed': seq<string>)
    requires ValidDate(d) && CellState(t, data, base, dates, d, s, placed)
    requires ins in data.controllers && IsAvailable(data, t.shiftByDate, ins, s, d)
    requires out.id in placed
    ensures placed' == RemoveFirst(placed, out.id) + [ins.id] && CellState(t', data, base, dates, d, s, placed')
    ensures forall x :: x in placed' <==> (x in placed && x != out.id) || x == ins.id
  {
    InCellSwap(data, base, dates, d, s, placed, t.counters, t.shiftByDate, ins, out.id);
    t', placed' := Unassign(t, out, s, d, placed);
    t', placed' := Assign(t', ins, s, d, placed');
  }

  /** One forced id: unknown or unavailable, it becomes a conflict; otherwise it is placed. */
  method HonourOne(t: Tables, data: TurneroData, d: Date, s: ShiftCode, forced: seq<string>, k: int, placed: seq<string>, conflicts: seq<Conflict>, ghost base: ShiftMap, ghost dates: set<Date>)
    returns (t': Tables, placed': seq<string>, conflicts': seq<Conflict>)
    requires 0 <= k < |forced|
    requires ValidDate(d) && CellState(t, data, base, dates, d, s, placed)
    requires CountUnknownConflicts(conflicts) == CountUnknownIds(forced[..k], data.controllers)
    requires forall x :: x in conflicts ==> x.UnknownForcedController? || x.ForcedUnavailable?
    ensures CellState(t', data, base, dates, d, s, placed')
    ensures |placed'| <= |placed| + 1
    ensures CountUnknownConflicts(conflicts') == CountUnknownIds(forced[..k + 1], data.controllers)
    ensures forall x :: x in conflicts' ==> x.UnknownForcedController? || x.ForcedUnavailable?
    ensures forced[k] !in Ids(data.controllers) ==> conflicts' == conflicts + [UnknownForcedController] && placed' == placed
    ensures forced[k] in Ids(data.controllers) ==>
      (conflicts' == conflicts && placed' == placed + [forced[k]])
      || (|conflicts'| == |conflicts| + 1 && conflicts'[|conflicts|].ForcedUnavailable? && placed' == placed)
  {
    var id := forced[k];
    match Find(data.controllers, id) {
      case None =>
        ForcedStep(forced, k, data.controllers, conflicts, [UnknownForcedController]);
        return t, placed, conflicts + [UnknownForcedController];
      case Some(c) =>
        var availability := CanAssign(data, t.shiftByDate, c, s, d);
        if availability.Unavailable? {
          ForcedStep(forced, k, data.controllers, conflicts, [ForcedUnavailable(c.name, availability.reason)]);
          return t, placed, conflicts + [ForcedUnavailable(c.name, availability.reason)];
        }
        ForcedStep(forced, k, data.controllers, conflicts, []);
        assert conflicts + [] == conflicts;
        t', placed' := AssignAvailable(t, data, c, s, d, placed, base, dates);
        conflicts' := conflicts;
    }
  }

  /** The forced-assignment step: unknown ids and unavailable people become conflicts, the rest are placed. */
  method HonourForced(t: Tables, data: TurneroData, d: Date, s: ShiftCode, forced: seq<string>, ghost base: ShiftMap, ghost dates: set<Date>)
    returns (t': Tables, placed: seq<string>, conflicts: seq<Conflict>)
    requires ValidDate(d) && CellState(t, data, base, dates, d, s, [])
    ensures CellState(t', data, base, dates, d, s, placed)
    ensures |placed| <= |forced|
    ensures CountUnknownConflicts(conflicts) == CountUnknownIds(forced, data.controllers)
    ensures forall x :: x in conflicts ==> x.UnknownForcedController? || x.ForcedUnavailable?
  {
    t', placed, conflicts := t, [], [];
    var k := 0;
    while k < |forced|
      invariant 0 <= k <= |forced|
      invariant CellState(t', data, base, dates, d, s, placed)
      invariant |placed| <= k
      invariant CountUnknownConflicts(conflicts) == CountUnknownIds(forced[..k], data.controllers)
      invariant forall x :: x in conflicts ==> x.UnknownForcedController? || x.ForcedUnavailable?
    {
      t', placed, conflicts := HonourOne(t', data, d, s, forced, k, placed, conflicts, base, dates);
      k := k + 1;
    }
    assert forced[..k] == forced;
  }

  /** The supervisor step on shifts that need one and have none. */
  method EnsureSupervisor(t: Tables, data: TurneroData, d: Date, s: ShiftCode, weekend: bool, required: int, placed: seq<string>, ghost base: ShiftMap, ghost dates: set<Date>)
    returns (t': Tables, placed': seq<string>, conflicts: seq<Conflict>)
    requires ValidDate(d) && CellState(t, data, base, dates, d, s, placed)
    ensures CellState(t', data, base, dates, d, s, placed')
    ensures placed <= placed' && |placed'| <= |placed| + 1
    ensures conflicts == [] || (conflicts == [NoSupervisor(s)] && required > 0)
    ensures UniqueIds(data.controllers) && RequiresSupervisor(s) && required > 0 ==>
      (HasRole(placed', data.controllers, Supervisor) || conflicts == [NoSupervisor(s)])
  {
    t', placed', conflicts := t, placed, [];
    if RequiresSupervisor(s) && !HasRole(placed, data.controllers, Supervisor) {
      var supervisors := Filter(data.controllers, IsSupervisorEntry);
      var pick := PickBestCandidate(supervisors, data, t.shiftByDate, t.counters, d, PickContext(s, weekend, false));
      if pick.Some? {
        var c := pick.value;
        t', placed' := AssignAvailable(t, data, c, s, d, placed, base, dates);
        if UniqueIds(data.controllers) {
          FindUnique(data.controllers, c);
          HasRoleMember(placed', data.controllers, Supervisor, c.id);
        }
      } else if required > 0 {
        conflicts := [NoSupervisor(s)];
      }
    }
  }

  /** The fill loop: while short, place the best-ranked available person; stop when nobody is. */
  method FillToRequired(t: Tables, data: TurneroData, d: Date, s: ShiftCode, weekend: bool, required: int, placed: seq<string>, ghost base: ShiftMap, ghost dates: set<Date>)
    returns (t': Tables, placed': seq<string>)
    requires ValidDate(d) && CellState(t, data, base, dates, d, s, placed)
    ensures CellState(t', data, base, dates, d, s, placed')
    ensures placed <= placed' && |placed'| <= Max(required, |placed|)
    ensures |placed'| < required ==> forall c :: c in data.controllers ==> !IsAvailable(data, t'.shiftByDate, c, s, d)
  {
    t', placed' := t, placed;
    while |placed'| < required
      invariant CellState(t', data, base, dates, d, s, placed')
      invariant placed <= placed' && |placed'| <= Max(required, |placed|)
      decreases required - |placed'|
    {
      var hasTrainee := HasRole(placed', data.controllers, Practicante);
      var hasInstructor := HasRole(placed', data.controllers, Instructor);
      var pick := PickBestCandidate(data.controllers, data, t'.shiftByDate, t'.counters, d, PickContext(s, weekend, hasTrainee && !hasInstructor));
      if pick.None? {
        break;
      }
      t', placed' := AssignAvailable(t', data, pick.value, s, d, placed', base, dates);
    }
  }

  /**
   * The instructor repair: a trainee without an instructor brings in the
   * best available instructor, below headcount by adding, at headcount by
   * displacing the first replaceable person; failing that, a conflict.
   */
  method RepairInstructor(t: Tables, data: TurneroData, d: Date, s: ShiftCode, weekend: bool, required: int, placed: seq<string>, ghost base: ShiftMap, ghost dates: set<Date>)
    returns (t': Tables, placed': seq<string>, conflicts: seq<Conflict>)
    requires ValidDate(d) && CellState(t, data, base, dates, d, s, placed)
    ensures CellState(t', data, base, dates, d, s, placed')
    ensures |placed| <= |placed'| <= Max(|placed|, required)
    ensures conflicts == [] || conflicts == [MissingInstructor]
    ensures (forall c :: c in data.controllers ==> !IsAvailable(data, t.shiftByDate, c, s, d)) ==> placed' == placed
    ensures RequiresSupervisor(s) && HasRole(placed, data.controllers, Supervisor) ==> HasRole(placed', data.controllers, Supervisor)
    ensures UniqueIds(data.controllers) && HasRole(placed', data.controllers, Practicante) ==>
      (HasRole(placed', data.controllers, Instructor) || conflicts == [MissingInstructor])
  {
    t', placed', conflicts := t, placed, [];
    var roster := data.controllers;
    if HasRole(placed, roster, Practicante) && !HasRole(placed, roster, Instructor) {
      var instructors := Filter(roster, IsInstructorEntry);
      var pick := PickBestCandidate(instructors, data, t.shiftByDate, t.counters, d, PickContext(s, weekend, true));
      if pick.Some? {
        var ins := pick.value;
        if |placed| < required {
          t', placed' := AssignAvailable(t, data, ins, s, d, placed, base, dates);
          if RequiresSupervisor(s) && HasRole(placed, roster, Supervisor) {
            HasRolePrefix(placed, placed', roster, Supervisor);
          }
          InstructorNowPlaced(roster, ins, placed');
        } else {
          var toDisplace := FindReplaceableController(placed, roster, s);
          if toDisplace.Some? {
            var replaced := Find(roster, toDisplace.value);
            if replaced.Some? {
              t', placed' := SwapIn(t, data, ins, replaced.value, s, d, placed, base, dates);
              if RequiresSupervisor(s) && HasRole(placed, roster, Supervisor) {
                SupervisorSurvives(roster, s, placed, placed', toDisplace.value);
              }
              InstructorNowPlaced(roster, ins, placed');
            }
          } else {
            conflicts := [MissingInstructor];
          }
        }
      } else {
        conflicts := [MissingInstructor];
      }
    }
  }

  /** The cell's opening: the forced assignments, then the supervisor. */
  method OpenCell(t: Tables, data: TurneroData, d: Date, s: ShiftCode, weekend: bool, required: int, forced: seq<string>, ghost base: ShiftMap, ghost dates: set<Date>)
    returns (t': Tables, placed: seq<string>, forcedConflicts: seq<Conflict>, supervisorConflicts: seq<Conflict>)
    requires ValidDate(d) && CellState(t, data, base, dates, d, s, [])
    ensures CellState(t', data, base, dates, d, s, placed)
    ensures |placed| <= |forced| + 1
    ensures CountUnknownConflicts(forcedConflicts) == CountUnknownIds(forced, data.controllers)
    ensures forall x :: x in forcedConflicts ==> x.UnknownForcedController? || x.ForcedUnavailable?
    ensures supervisorConflicts == [] || (supervisorConflicts == [NoSupervisor(s)] && required > 0)
    ensures UniqueIds(data.controllers) && RequiresSupervisor(s) && required > 0 ==>
      (HasRole(placed, data.controllers, Supervisor) || supervisorConflicts == [NoSupervisor(s)])
  {
    var honoured;
    t', honoured, forcedConflicts := HonourForced(t, data, d, s, forced, base, dates);
    t', placed, supervisorConflicts := EnsureSupervisor(t', data, d, s, weekend, required, honoured, base, dates);
  }

  /**
   * The cell's completion: the fill, then the instructor repair. A cell
   * left short has nobody available in the map it leaves behind.
   */
  method CompleteCell(t: Tables, data: TurneroData, d: Date, s: ShiftCode, weekend: bool, required: int, placed: seq<string>, ghost base: ShiftMap, ghost dates: set<Date>)
    returns (t': Tables, placed': seq<string>, repairConflicts: seq<Conflict>)
    requires ValidDate(d) && CellState(t, data, base, dates, d, s, placed)
    ensures CellState(t', data, base, dates, d, s, placed')
    ensures |placed'| <= Max(required, |placed|)
    ensures repairConflicts == [] || repairConflicts == [MissingInstructor]
    ensures UniqueIds(data.controllers) && RequiresSupervisor(s) && HasRole(placed, data.controllers, Supervisor) ==>
      HasRole(placed', data.controllers, Supervisor)
    ensures UniqueIds(data.controllers) && HasRole(placed', data.controllers, Practicante) ==>
      (HasRole(placed', data.controllers, Instructor) || repairConflicts == [MissingInstructor])
    ensures |placed'| < required ==> forall c :: c in data.controllers ==> !IsAvailable(data, t'.shiftByDate, c, s, d)
  {
    var filled;
    t', filled := FillToRequired(t, data, d, s, weekend, required, placed, base, dates);
    if UniqueIds(data.controllers) && RequiresSupervisor(s) && HasRole(placed, data.controllers, Supervisor) {
      HasRolePrefix(placed, filled, data.controllers, Supervisor);
    }
    ghost var afterFill := t';
    t', placed', repairConflicts := RepairInstructor(t', data, d, s, weekend, required, filled, base, dates);
    if |placed'| < required {
      assert afterFill.shiftByDate == PlaceAll(base, filled, d, s);
    }
  }

  /**
   * The four steps of one cell, from ready tables: the map it leaves is the
   * map before with the listed people placed, each placeable beforehand.
   */
  method FillCell(t: Tables, data: TurneroData, d: Date, s: ShiftCode, required: int, forced: seq<string>, ghost dates: set<Date>)
    returns (t': Tables, placed: seq<string>, forcedConflicts: seq<Conflict>, supervisorConflicts: seq<Conflict>, repairConflicts: seq<Conflict>)
    requires ValidDate(d) && Ready(t, data.controllers, dates) && d in dates
    ensures Ready(t', data.controllers, dates)
    ensures t'.shiftByDate == PlaceAll(t.shiftByDate, placed, d, s)
    ensures forall id :: id in placed ==> Placeable(data, t.shiftByDate, id, s, d)
    ensures NoDuplicates(placed) && forall id :: id in placed ==> id in Ids(data.controllers)
    ensures |placed| <= Max(required, |forced| + 1)
    ensures CountUnknownConflicts(forcedConflicts) == CountUnknownIds(forced, data.controllers)
    ensures forall x :: x in forcedConflicts ==> x.UnknownForcedController? || x.ForcedUnavailable?
    ensures supervisorConflicts == [] || (supervisorConflicts == [NoSupervisor(s)] && required > 0)
    ensures repairConflicts == [] || repairConflicts == [MissingInstructor]
    ensures UniqueIds(data.controllers) && RequiresSupervisor(s) && required > 0 ==>
      (HasRole(placed, data.controllers, Supervisor) || supervisorConflicts == [NoSupervisor(s)])
    ensures UniqueIds(data.controllers) && HasRole(placed, data.controllers, Practicante) ==>
      (HasRole(placed, data.controllers, Instructor) || repairConflicts == [MissingInstructor])
    ensures |placed| < required ==> forall c :: c in data.controllers ==> !IsAvailable(data, t'.shiftByDate, c, s, d)
  {
    ghost var base := t.shiftByDate;
    CellStart(data, dates, d, s, t.counters, base);
    var weekend := IsWeekend(d);
    var opening;
    t', opening, forcedConflicts, supervisorConflicts := OpenCell(t, data, d, s, weekend, required, forced, base, dates);
    t', placed, repairConflicts := CompleteCell(t', data, d, s, weekend, required, opening, base, dates);
    CellEnd(data, base, dates, d, s, placed, t'.counters, t'.shiftByDate);
  }

  /**
   * One cell, start to finish: forced assignments, supervisor, fill, instructor
   * repair, then the shortfall conflict when the list is still short.
   */
  method PlanShift(t: Tables, data: TurneroData, d: Date, s: ShiftCode, ghost dates: set<Date>) returns (t': Tables, plan: ShiftPlan)
    requires ValidDate(d) && Ready(t, data.controllers, dates) && d in dates
    ensures Ready(t', data.controllers, dates)
    ensures ShiftStep(data, d, s, plan, t.shiftByDate, t'.shiftByDate)
    ensures PlanFacts(data, plan, d, s)
    ensures Maximal(data, plan, t'.shiftByDate, d)
  {
    var required := RequiredFor(data.coverageOverrides, d, s);
    var forced := ForcedIds(data.forcedAssignments, d, s);
    var placed, forcedConflicts, supervisorConflicts, repairConflicts;
    t', placed, forcedConflicts, supervisorConflicts, repairConflicts := FillCell(t, data, d, s, required, forced, dates);
    var shortfall := if |placed| < required then [IncompleteCoverage(required - |placed|, s)] else [];
    plan := ShiftPlan(s, required, placed, forcedConflicts + (supervisorConflicts + repairConflicts) + shortfall);
    AssemblePlanFacts(data, d, s, plan, forced, forcedConflicts, supervisorConflicts, repairConflicts);
  }

  /** One date: the three shifts in the order A, B, C, each against the map the previous one left. */
  method PlanDay(t: Tables, data: TurneroData, d: Date, ghost dates: set<Date>) returns (t': Tables, day: DayPlan)
    requires ValidDate(d) && Ready(t, data.controllers, dates) && d in dates
    requires forall id :: ShiftAt(t.shiftByDate, id, d) == None
    ensures Ready(t', data.controllers, dates)
    ensures DayDone(data, d, day, t.shiftByDate, t'.shiftByDate)
  {
    var a, b, c;
    var t1, t2;
    t1, a := PlanShift(t, data, d, A, dates);
    t2, b := PlanShift(t1, data, d, B, dates);
    t', c := PlanShift(t2, data, d, C, dates);
    day := DayPlan(d, DayLabel(DayOfWeek(d)), ShiftPlans(a, b, c));
    DayFromShifts(data, d, day, t.shiftByDate, t1.shiftByDate, t2.shiftByDate, t'.shiftByDate);
  }

  lemma InstructorNowPlaced(roster: seq<Controller>, ins: Controller, placed: seq<string>)
    requires ins in roster && ins.role == Instructor && ins.id in placed
    ensures UniqueIds(roster) ==> HasRole(placed, roster, Instructor)
  {
    if UniqueIds(roster) {
      FindUnique(roster, ins);
      HasRoleMember(placed, roster, Instructor, ins.id);
    }
  }

  /** Displacing a replaceable person never removes the supervisor of a shift that needs one. */
  lemma SupervisorSurvives(roster: seq<Controller>, s: ShiftCode, placed: seq<string>, placed': seq<string>, out: string)
    requires RequiresSupervisor(s) && HasRole(placed, roster, Supervisor) && Replaceable(roster, out, s)
    requires forall x :: x in placed && x != out ==> x in placed'
    ensures HasRole(placed', roster, Supervisor)
  {
    var k :| 0 <= k < |placed| && RoleOf(roster, placed[k]) == Some(Supervisor);
    HasRoleMember(placed', roster, Supervisor, placed[k]);
  }

  /** No conflict in the list reports an unknown forced id. */
  lemma {:induction false} CountUnknownNone(cs: seq<Conflict>)
    requires forall x :: x in cs ==> !x.UnknownForcedController?
    ensures CountUnknownConflicts(cs) == 0
  {
    if cs != [] {
      CountUnknownNone(cs[..|cs| - 1]);
    }
  }

  /** A plan left short stays short of available people as the map fills further. */
  lemma MaximalStays(data: TurneroData, plan: ShiftPlan, m: ShiftMap, m': ShiftMap, d: Date)
    requires ValidDate(d) && Grows(m, m') && Maximal(data, plan, m, d)
    ensures Maximal(data, plan, m', d)
  {
    forall c | c in data.controllers && |plan.assignedControllerIds| < plan.required
      ensures !IsAvailable(data, m', c, plan.shift, d)
    {
      UnavailableStays(data, m, m', c, plan.shift, d);
    }
  }

  /** What one date's plan guarantees, with `m` the map before the date and `m'` the map after it. */
  ghost predicate DayDone(data: TurneroData, d: Date, day: DayPlan, m: ShiftMap, m': ShiftMap)
    requires ValidDate(d)
  {
    day.date == d && day.dayLabel == DayLabel(DayOfWeek(d))
    && DayCells(data, d, day, m, m') && DayPlansHold(data, d, day, m')
  }

  /**
   * The map changes only on date `d`; there each person holds the shift whose
   * list names them, passed the map-independent checks for it, and, on A,
   * did not work C the day before.
   */
  ghost predicate DayCells(data: TurneroData, d: Date, day: DayPlan, m: ShiftMap, m': ShiftMap)
    requires ValidDate(d)
  {
    (forall id, e :: e != d ==> ShiftAt(m', id, e) == ShiftAt(m, id, e))
    && (forall id, sh :: id in day.shifts.Get(sh).assignedControllerIds <==> ShiftAt(m', id, d) == Some(sh))
    && (forall id, sh :: ShiftAt(m', id, d) == Some(sh) ==> Vetted(data, id, sh, d))
    && (forall id :: ShiftAt(m', id, d) == Some(A) ==> ShiftAt(m, id, PrevDay(d)) != Some(C))
  }

  /** Each of the date's three plans keeps its own promises, and a short one is short of available people in `m`. */
  ghost predicate DayPlansHold(data: TurneroData, d: Date, day: DayPlan, m: ShiftMap)
    requires ValidDate(d)
  {
    forall sh :: PlanFacts(data, day.shifts.Get(sh), d, sh) && Maximal(data, day.shifts.Get(sh), m, d)
  }

  /** The map after a cell is the map before it with the plan's people placed, each placeable beforehand. */
  ghost predicate ShiftStep(data: TurneroData, d: Date, s: ShiftCode, plan: ShiftPlan, m: ShiftMap, m': ShiftMap)
    requires ValidDate(d)
  {
    m' == PlaceAll(m, plan.assignedControllerIds, d, s)
    && forall id :: id in plan.assignedControllerIds ==> Placeable(data, m, id, s, d)
  }

  /** One cell's step, read cell by cell. */
  lemma StepCells(data: TurneroData, d: Date, s: ShiftCode, plan: ShiftPlan, m: ShiftMap, m': ShiftMap)
    requires ValidDate(d) && ShiftStep(data, d, s, plan, m, m')
    ensures forall id :: ShiftAt(m', id, d) == if id in plan.assignedControllerIds then Some(s) else ShiftAt(m, id, d)
    ensures forall id, e :: e != d ==> ShiftAt(m', id, e) == ShiftAt(m, id, e)
    ensures forall id :: id in plan.assignedControllerIds ==> ShiftAt(m, id, d) == None && Vetted(data, id, s, d)
    ensures s == A ==> forall id :: id in plan.assignedControllerIds ==> ShiftAt(m, id, PrevDay(d)) != Some(C)
    ensures Grows(m, m')
  {
    var ids := plan.assignedControllerIds;
    ShiftAtPlaceAll(m, ids, d, s);
    forall id | id in ids
      ensures ShiftAt(m, id, d) == None && id in m && Vetted(data, id, s, d)
      ensures s == A ==> ShiftAt(m, id, PrevDay(d)) != Some(C)
    {
      assert Placeable(data, m, id, s, d);
    }
    PlaceAllGrows(m, ids, d, s);
  }

  /** Three cells planned in turn on an empty date make a finished date. */
  lemma DayFromShifts(data: TurneroData, d: Date, day: DayPlan, m0: ShiftMap, m1: ShiftMap, m2: ShiftMap, m3: ShiftMap)
    requires ValidDate(d) && day.date == d && day.dayLabel == DayLabel(DayOfWeek(d))
    requires forall id :: ShiftAt(m0, id, d) == None
    requires ShiftStep(data, d, A, day.shifts.a, m0, m1)
    requires ShiftStep(data, d, B, day.shifts.b, m1, m2)
    requires ShiftStep(data, d, C, day.shifts.c, m2, m3)
    requires PlanFacts(data, day.shifts.a, d, A) && Maximal(data, day.shifts.a, m1, d)
    requires PlanFacts(data, day.shifts.b, d, B) && Maximal(data, day.shifts.b, m2, d)
    requires PlanFacts(data, day.shifts.c, d, C) && Maximal(data, day.shifts.c, m3, d)
    ensures DayDone(data, d, day, m0, m3)
  {
    DayCellsFromShifts(data, d, day, m0, m1, m2, m3);
    StepCells(data, d, B, day.shifts.b, m1, m2);
    StepCells(data, d, C, day.shifts.c, m2, m3);
    GrowsTransitive(m1, m2, m3);
    MaximalStays(data, day.shifts.a, m1, m3, d);
    MaximalStays(data, day.shifts.b, m2, m3, d);
    forall sh ensures PlanFacts(data, day.shifts.Get(sh), d, sh) && Maximal(data, day.shifts.Get(sh), m3, d) {
    }
  }

  lemma DayCellsFromShifts(data: TurneroData, d: Date, day: DayPlan, m0: ShiftMap, m1: ShiftMap, m2: ShiftMap, m3: ShiftMap)
    requires ValidDate(d)
    requires forall id :: ShiftAt(m0, id, d) == None
    requires ShiftStep(data, d, A, day.shifts.a, m0, m1)
    requires ShiftStep(data, d, B, day.shifts.b, m1, m2)
    requires ShiftStep(data, d, C, day.shifts.c, m2, m3)
    ensures DayCells(data, d, day, m0, m3)
  {
    StepCells(data, d, A, day.shifts.a, m0, m1);
    StepCells(data, d, B, day.shifts.b, m1, m2);
    StepCells(data, d, C, day.shifts.c, m2, m3);
    assert PrevDay(d) != d;
    forall id, sh ensures id in day.shifts.Get(sh).assignedControllerIds <==> ShiftAt(m3, id, d) == Some(sh) {
    }
  }

  /** The plan of one cell, put together from what each step promised. */
  lemma AssemblePlanFacts(data: TurneroData, d: Date, s: ShiftCode, plan: ShiftPlan, forced: seq<string>,
                          forcedConflicts: seq<Conflict>, supervisorConflicts: seq<Conflict>, repairConflicts: seq<Conflict>)
    requires forced == ForcedIds(data.forcedAssignments, d, s)
    requires plan.shift == s && plan.required == RequiredFor(data.coverageOverrides, d, s)
    requires forall x :: x in forcedConflicts ==> x.UnknownForcedController? || x.ForcedUnavailable?
    requires CountUnknownConflicts(forcedConflicts) == CountUnknownIds(forced, data.controllers)
    requires supervisorConflicts == [] || (supervisorConflicts == [NoSupervisor(s)] && plan.required > 0)
    requires repairConflicts == [] || repairConflicts == [MissingInstructor]
    requires var count := |plan.assignedControllerIds|;
      plan.conflicts == forcedConflicts + (supervisorConflicts + repairConflicts)
        + if count < plan.required then [IncompleteCoverage(plan.required - count, s)] else []
    requires NoDuplicates(plan.assignedControllerIds)
    requires forall id :: id in plan.assignedControllerIds ==> id in Ids(data.controllers)
    requires |plan.assignedControllerIds| <= Max(plan.required, |forced| + 1)
    requires UniqueIds(data.controllers) && RequiresSupervisor(s) && plan.required > 0 ==>
      HasRole(plan.assignedControllerIds, data.controllers, Supervisor) || supervisorConflicts == [NoSupervisor(s)]
    requires UniqueIds(data.controllers) && HasRole(plan.assignedControllerIds, data.controllers, Practicante) ==>
      HasRole(plan.assignedControllerIds, data.controllers, Instructor) || repairConflicts == [MissingInstructor]
    ensures PlanFacts(data, plan, d, s)
  {
    PlanReports(data, plan, forcedConflicts, supervisorConflicts, repairConflicts);
  }

  /** What the cell's conflict list reports, from what each step contributed to it. */
  lemma PlanReports(data: TurneroData, plan: ShiftPlan, forcedConflicts: seq<Conflict>, supervisorConflicts: seq<Conflict>, repairConflicts: seq<Conflict>)
    requires forall x :: x in forcedConflicts ==> x.UnknownForcedController? || x.ForcedUnavailable?
    requires supervisorConflicts == [] || (supervisorConflicts == [NoSupervisor(plan.shift)] && plan.required > 0)
    requires repairConflicts == [] || repairConflicts == [MissingInstructor]
    requires var count := |plan.assignedControllerIds|;
      plan.conflicts == forcedConflicts + (supervisorConflicts + repairConflicts)
        + if count < plan.required then [IncompleteCoverage(plan.required - count, plan.shift)] else []
    requires UniqueIds(data.controllers) && RequiresSupervisor(plan.shift) && plan.required > 0 ==>
      HasRole(plan.assignedControllerIds, data.controllers, Supervisor) || supervisorConflicts == [NoSupervisor(plan.shift)]
    requires UniqueIds(data.controllers) && HasRole(plan.assignedControllerIds, data.controllers, Practicante) ==>
      HasRole(plan.assignedControllerIds, data.controllers, Instructor) || repairConflicts == [MissingInstructor]
    ensures CoverageReported(plan)
    ensures CountUnknownConflicts(plan.conflicts) == CountUnknownConflicts(forcedConflicts)
    ensures UniqueIds(data.controllers) ==> SupervisorRule(plan, data.controllers) && TraineeRule(plan, data.controllers)
  {
    var count := |plan.assignedControllerIds|;
    var shortfall := if count < plan.required then [IncompleteCoverage(plan.required - count, plan.shift)] else [];
    ConflictList(plan, forcedConflicts, supervisorConflicts, repairConflicts);
    RoleRules(data, plan, forcedConflicts, supervisorConflicts, repairConflicts, shortfall);
  }

  /** The cell's conflicts in order: forced-step reports, the supervisor and instructor reports, the shortfall. */
  lemma ConflictList(plan: ShiftPlan, forcedConflicts: seq<Conflict>, supervisorConflicts: seq<Conflict>, repairConflicts: seq<Conflict>)
    requires forall x :: x in forcedConflicts ==> x.UnknownForcedController? || x.ForcedUnavailable?
    requires supervisorConflicts == [] || supervisorConflicts == [NoSupervisor(plan.shift)]
    requires repairConflicts == [] || repairConflicts == [MissingInstructor]
    requires var count := |plan.assignedControllerIds|;
      plan.conflicts == forcedConflicts + (supervisorConflicts + repairConflicts)
        + if count < plan.required then [IncompleteCoverage(plan.required - count, plan.shift)] else []
    ensures CoverageReported(plan)
    ensures CountUnknownConflicts(plan.conflicts) == CountUnknownConflicts(forcedConflicts)
  {
    var later := supervisorConflicts + repairConflicts;
    var count := |plan.assignedControllerIds|;
    var shortfall := if count < plan.required then [IncompleteCoverage(plan.required - count, plan.shift)] else [];
    LaterConflicts(plan.shift, supervisorConflicts, repairConflicts);
    UnknownCount(forcedConflicts, later, shortfall);
    EarlyConflicts(forcedConflicts, later);
    CoverageConflicts(plan, forcedConflicts + later);
  }

  /** Neither the forced step nor the later steps report a shortfall. */
  lemma EarlyConflicts(forcedConflicts: seq<Conflict>, later: seq<Conflict>)
    requires forall x :: x in forcedConflicts ==> x.UnknownForcedController? || x.ForcedUnavailable?
    requires forall x :: x in later ==> x.NoSupervisor? || x == MissingInstructor
    ensures forall x :: x in forcedConflicts + later ==> !x.IncompleteCoverage?
  {
  }

  /** The supervisor and trainee reports, when made, are among the plan's conflicts. */
  lemma RoleRules(data: TurneroData, plan: ShiftPlan, forcedConflicts: seq<Conflict>, supervisorConflicts: seq<Conflict>,
                  repairConflicts: seq<Conflict>, shortfall: seq<Conflict>)
    requires plan.conflicts == forcedConflicts + (supervisorConflicts + repairConflicts) + shortfall
    requires supervisorConflicts == [] || (supervisorConflicts == [NoSupervisor(plan.shift)] && plan.required > 0)
    requires repairConflicts == [] || repairConflicts == [MissingInstructor]
    requires UniqueIds(data.controllers) && RequiresSupervisor(plan.shift) && plan.required > 0 ==>
      HasRole(plan.assignedControllerIds, data.controllers, Supervisor) || supervisorConflicts == [NoSupervisor(plan.shift)]
    requires UniqueIds(data.controllers) && HasRole(plan.assignedControllerIds, data.controllers, Practicante) ==>
      HasRole(plan.assignedControllerIds, data.controllers, Instructor) || repairConflicts == [MissingInstructor]
    ensures UniqueIds(data.controllers) ==> SupervisorRule(plan, data.controllers) && TraineeRule(plan, data.controllers)
  {
    if supervisorConflicts == [NoSupervisor(plan.shift)] {
      assert plan.conflicts[|forcedConflicts|] == NoSupervisor(plan.shift);
    }
    if repairConflicts == [MissingInstructor] {
      assert plan.conflicts[|forcedConflicts| + |supervisorConflicts|] == MissingInstructor;
    }
  }

  lemma LaterConflicts(s: ShiftCode, supervisorConflicts: seq<Conflict>, repairConflicts: seq<Conflict>)
    requires supervisorConflicts == [] || supervisorConflicts == [NoSupervisor(s)]
    requires repairConflicts == [] || repairConflicts == [MissingInstructor]
    ensures forall x :: x in supervisorConflicts + repairConflicts ==> x == NoSupervisor(s) || x == MissingInstructor
  {
  }

  /** The conflicts ahead of the shortfall report carry none, so the report is single and last. */
  lemma CoverageConflicts(plan: ShiftPlan, early: seq<Conflict>)
    requires forall x :: x in early ==> !x.IncompleteCoverage?
    requires var count := |plan.assignedControllerIds|;
      plan.conflicts == early + if count < plan.required then [IncompleteCoverage(plan.required - count, plan.shift)] else []
    ensures CoverageReported(plan)
  {
  }

  /** Only the forced-assignment step reports unknown ids. */
  lemma UnknownCount(forced: seq<Conflict>, later: seq<Conflict>, tail: seq<Conflict>)
    requires forall x :: x in later ==> !x.UnknownForcedController?
    requires forall x :: x in tail ==> !x.UnknownForcedController?
    ensures CountUnknownConflicts(forced + later + tail) == CountUnknownConflicts(forced)
  {
    CountUnknownConflictsConcat(forced, later);
    CountUnknownConflictsConcat(forced + later, tail);
    CountUnknownNone(later);
    CountUnknownNone(tail);
  }

  // ---------------------------------------------------------------------------
  // The month

  /**
   * The first `|days|` dates of the month are planned in `m` and every other
   * cell is empty: each plan is the list of people whose cell holds that
   * shift, each of them passed the map-independent checks, nobody works A
   * right after C, and each plan keeps its own promises.
   */
  ghost predicate MonthSoFar(data: TurneroData, days: seq<DayPlan>, m: ShiftMap)
    requires 1 <= data.month <= 12 && |days| <= DaysInMonth(data.year, data.month)
  {
    PlannedSoFar(data, BuildMonthDates(data.year, data.month), days, m)
  }

  predicate ValidDates(dates: seq<Date>) {
    forall j :: 0 <= j < |dates| ==> ValidDate(dates[j])
  }

  /** `MonthSoFar` over any list of dates. */
  ghost predicate PlannedSoFar(data: TurneroData, dates: seq<Date>, days: seq<DayPlan>, m: ShiftMap)
    requires |days| <= |dates| && ValidDates(dates)
  {
    var i := |days|;
    (forall id, e :: e !in dates[..i] ==> ShiftAt(m, id, e) == None)
    && (forall j :: 0 <= j < i ==> days[j].date == dates[j] && days[j].dayLabel == DayLabel(DayOfWeek(dates[j])))
    && (forall j, id, sh :: 0 <= j < i ==> (id in days[j].shifts.Get(sh).assignedControllerIds <==> ShiftAt(m, id, dates[j]) == Some(sh)))
    && (forall j :: 0 <= j < i ==> DayPlansHold(data, dates[j], days[j], m))
    && (forall j, id, sh :: 0 <= j < i && ShiftAt(m, id, dates[j]) == Some(sh) ==> Vetted(data, id, sh, dates[j]))
    && (forall j, id :: 0 <= j < i && ShiftAt(m, id, dates[j]) == Some(A) ==> ShiftAt(m, id, PrevDay(dates[j])) != Some(C))
  }

  /** Nothing is planned before the first date. */
  lemma MonthStart(data: TurneroData, m: ShiftMap)
    requires 1 <= data.month <= 12
    requires forall id, e :: ShiftAt(m, id, e) == None
    ensures MonthSoFar(data, [], m)
  {
  }

  /** A date planned on top of the dates before it extends the month. */
  lemma MonthStep(data: TurneroData, days: seq<DayPlan>, m: ShiftMap, day: DayPlan, m': ShiftMap)
    requires 1 <= data.month <= 12 && |days| < DaysInMonth(data.year, data.month)
    requires MonthSoFar(data, days, m)
    requires DayDone(data, BuildMonthDates(data.year, data.month)[|days|], day, m, m')
    ensures MonthSoFar(data, days + [day], m')
  {
    var dates := BuildMonthDates(data.year, data.month);
    MonthDatesIncreasing(data.year, data.month);
    PlannedStep(data, dates, days, m, day, m');
  }

  lemma PlannedStep(data: TurneroData, dates: seq<Date>, days: seq<DayPlan>, m: ShiftMap, day: DayPlan, m': ShiftMap)
    requires ValidDates(dates) && |days| < |dates|
    requires forall j :: 0 <= j < |days| ==> DateLess(dates[j], dates[|days|])
    requires PlannedSoFar(data, dates, days, m)
    requires DayDone(data, dates[|days|], day, m, m')
    ensures PlannedSoFar(data, dates, days + [day], m')
  {
    var i := |days|;
    var d := dates[i];
    var days' := days + [day];
    assert dates[..i + 1] == dates[..i] + [d];
    assert Grows(m, m');
    QuietStep(dates[..i], d, m, m');
    ListedStep(days, dates, day, m, m');
    VettedStep(data, days, dates, m, m');
    RestStep(days, dates, m, m');
    forall j | 0 <= j < i + 1 ensures DayPlansHold(data, dates[j], days'[j], m') {
      if j < i {
        DayPlansStay(data, dates[j], days[j], m, m');
      }
    }
  }

  /** A date's cells, added to a map quiet outside the earlier dates, leave it quiet outside them and the date. */
  lemma QuietStep(earlier: seq<Date>, d: Date, m: ShiftMap, m': ShiftMap)
    requires forall id, e :: e !in earlier ==> ShiftAt(m, id, e) == None
    requires forall id, e :: e != d ==> ShiftAt(m', id, e) == ShiftAt(m, id, e)
    ensures forall id, e :: e !in earlier + [d] ==> ShiftAt(m', id, e) == None
  {
  }

  /** Earlier dates read the same in the new map; the new date reads as its plan. */
  lemma ListedStep(days: seq<DayPlan>, dates: seq<Date>, day: DayPlan, m: ShiftMap, m': ShiftMap)
    requires |days| < |dates|
    requires forall j :: 0 <= j < |days| ==> DateLess(dates[j], dates[|days|])
    requires forall j, id, sh :: 0 <= j < |days| ==> (id in days[j].shifts.Get(sh).assignedControllerIds <==> ShiftAt(m, id, dates[j]) == Some(sh))
    requires forall id, e :: e != dates[|days|] ==> ShiftAt(m', id, e) == ShiftAt(m, id, e)
    requires forall id, sh :: id in day.shifts.Get(sh).assignedControllerIds <==> ShiftAt(m', id, dates[|days|]) == Some(sh)
    ensures forall j, id, sh :: 0 <= j < |days| + 1 ==> (id in (days + [day])[j].shifts.Get(sh).assignedControllerIds <==> ShiftAt(m', id, dates[j]) == Some(sh))
  {
    forall j, id, sh | 0 <= j < |days| + 1
      ensures id in (days + [day])[j].shifts.Get(sh).assignedControllerIds <==> ShiftAt(m', id, dates[j]) == Some(sh)
    {
      if j < |days| {
        assert (days + [day])[j] == days[j] && dates[j] != dates[|days|];
      }
    }
  }

  /** Whoever holds a shift on an earlier or the new date was vetted for it. */
  lemma VettedStep(data: TurneroData, days: seq<DayPlan>, dates: seq<Date>, m: ShiftMap, m': ShiftMap)
    requires |days| < |dates|
    requires forall j :: 0 <= j < |days| ==> DateLess(dates[j], dates[|days|])
    requires forall j, id, sh :: 0 <= j < |days| && ShiftAt(m, id, dates[j]) == Some(sh) ==> Vetted(data, id, sh, dates[j])
    requires forall id, e :: e != dates[|days|] ==> ShiftAt(m', id, e) == ShiftAt(m, id, e)
    requires forall id, sh :: ShiftAt(m', id, dates[|days|]) == Some(sh) ==> Vetted(data, id, sh, dates[|days|])
    ensures forall j, id, sh :: 0 <= j < |days| + 1 && ShiftAt(m', id, dates[j]) == Some(sh) ==> Vetted(data, id, sh, dates[j])
  {
    forall j, id, sh | 0 <= j < |days| + 1 && ShiftAt(m', id, dates[j]) == Some(sh)
      ensures Vetted(data, id, sh, dates[j])
    {
      if j < |days| {
        assert dates[j] != dates[|days|];
      }
    }
  }

  /** Nobody holding A on an earlier or the new date held C the day before, in the new map. */
  lemma RestStep(days: seq<DayPlan>, dates: seq<Date>, m: ShiftMap, m': ShiftMap)
    requires |days| < |dates| && forall j :: 0 <= j <= |days| ==> ValidDate(dates[j])
    requires forall j :: 0 <= j < |days| ==> DateLess(dates[j], dates[|days|])
    requires forall j, id :: 0 <= j < |days| && ShiftAt(m, id, dates[j]) == Some(A) ==> ShiftAt(m, id, PrevDay(dates[j])) != Some(C)
    requires forall id, e :: e != dates[|days|] ==> ShiftAt(m', id, e) == ShiftAt(m, id, e)
    requires forall id :: ShiftAt(m', id, dates[|days|]) == Some(A) ==> ShiftAt(m, id, PrevDay(dates[|days|])) != Some(C)
    ensures forall j, id :: 0 <= j < |days| + 1 && ShiftAt(m', id, dates[j]) == Some(A) ==> ShiftAt(m', id, PrevDay(dates[j])) != Some(C)
  {
    var d := dates[|days|];
    forall j, id | 0 <= j < |days| + 1 && ShiftAt(m', id, dates[j]) == Some(A)
      ensures ShiftAt(m', id, PrevDay(dates[j])) != Some(C)
    {
      var p := PrevDay(dates[j]);
      assert DateLess(p, dates[j]);
      if j < |days| {
        assert dates[j] != d && DateLess(p, d);
      }
      assert p != d;
    }
  }

  /** A date's plans keep their promises as the map fills further. */
  lemma DayPlansStay(data: TurneroData, d: Date, day: DayPlan, m: ShiftMap, m': ShiftMap)
    requires ValidDate(d) && Grows(m, m') && DayPlansHold(data, d, day, m)
    ensures DayPlansHold(data, d, day, m')
  {
    forall sh ensures Maximal(data, day.shifts.Get(sh), m', d) {
      MaximalStays(data, day.shifts.Get(sh), m, m', d);
    }
  }

  /**
   * `generateMonthlySchedule`: one plan per date of the month, in order, and
   * the shift map they were built on; the map has a row per roster id with a
   * cell per date of the month.
   */
  method GenerateMonthlySchedule(data: TurneroData) returns (schedule: MonthlySchedule)
    requires 1 <= data.month <= 12
    ensures |schedule.days| == DaysInMonth(data.year, data.month)
    ensures TablesShape(data, schedule.controllerShiftByDate)
    ensures MonthSoFar(data, schedule.days, schedule.controllerShiftByDate)
  {
    var dates := BuildMonthDates(data.year, data.month);
    ghost var dateSet := set e | e in dates;
    var tables := InitialTables(data.controllers, dates);
    MonthStart(data, tables.shiftByDate);
    var days: seq<DayPlan> := [];
    var i := 0;
    while i < |dates|
      invariant 0 <= i <= |dates| && |days| == i
      invariant Ready(tables, data.controllers, dateSet)
      invariant MonthSoFar(data, days, tables.shiftByDate)
    {
      var d := dates[i];
      assert d !in dates[..i];
      ghost var before := tables.shiftByDate;
      var day;
      tables, day := PlanDay(tables, data, d, dateSet);
      MonthStep(data, days, before, day, tables.shiftByDate);
      days := days + [day];
      i := i + 1;
    }
    assert dates[..i] == dates;
    schedule := MonthlySchedule(days, tables.shiftByDate);
  }

  /** The map has a row for each roster id, and each row a cell for each date of the month. */
  ghost predicate TablesShape(data: TurneroData, m: ShiftMap)
    requires 1 <= data.month <= 12
  {
    m.Keys == Ids(data.controllers)
    && forall id :: id in m ==> (forall e :: e in m[id] <==> e in BuildMonthDates(data.year, data.month))
  }

  /** Nobody is listed on two shifts of the same date. */
  lemma OneShiftPerDate(data: TurneroData, schedule: MonthlySchedule, i: int, id: string, s1: ShiftCode, s2: ShiftCode)
    requires 1 <= data.month <= 12 && |schedule.days| == DaysInMonth(data.year, data.month)
    requires MonthSoFar(data, schedule.days, schedule.controllerShiftByDate)
    requires 0 <= i < |schedule.days|
    requires id in schedule.days[i].shifts.Get(s1).assignedControllerIds && id in schedule.days[i].shifts.Get(s2).assignedControllerIds
    ensures s1 == s2
  {
    var d := BuildMonthDates(data.year, data.month)[i];
    assert ShiftAt(schedule.controllerShiftByDate, id, d) == Some(s1);
  }

  /** Nobody listed on a night shift is listed on the next morning's shift. */
  lemma RestAfterNight(data: TurneroData, schedule: MonthlySchedule, i: int, id: string)
    requires 1 <= data.month <= 12 && |schedule.days| == DaysInMonth(data.year, data.month)
    requires MonthSoFar(data, schedule.days, schedule.controllerShiftByDate)
    requires 0 < i < |schedule.days|
    requires id in schedule.days[i - 1].shifts.c.assignedControllerIds
    ensures id !in schedule.days[i].shifts.a.assignedControllerIds
  {
    var dates := BuildMonthDates(data.year, data.month);
    MonthDatesConsecutive(data.year, data.month, i);
    assert schedule.days[i - 1].shifts.Get(C) == schedule.days[i - 1].shifts.c;
    assert schedule.days[i].shifts.Get(A) == schedule.days[i].shifts.a;
    assert ShiftAt(schedule.controllerShiftByDate, id, dates[i - 1]) == Some(C);
  }

  /** With distinct ids, no chief of the unit is listed on a night shift. */
  lemma NoChiefOnNight(data: TurneroData, schedule: MonthlySchedule, i: int, id: string)
    requires 1 <= data.month <= 12 && |schedule.days| == DaysInMonth(data.year, data.month)
    requires MonthSoFar(data, schedule.days, schedule.controllerShiftByDate)
    requires UniqueIds(data.controllers)
    requires 0 <= i < |schedule.days|
    requires id in schedule.days[i].shifts.c.assignedControllerIds
    ensures RoleOf(data.controllers, id) != Some(JefeDependencia)
  {
    var dates := BuildMonthDates(data.year, data.month);
    assert schedule.days[i].shifts.Get(C) == schedule.days[i].shifts.c;
    assert ShiftAt(schedule.controllerShiftByDate, id, dates[i]) == Some(C);
    VettedNotChief(data, id, dates[i]);
  }

  /** With distinct ids, someone vetted for a night shift is not the chief of the unit. */
  lemma VettedNotChief(data: TurneroData, id: string, d: Date)
    requires UniqueIds(data.controllers) && Vetted(data, id, C, d)
    ensures RoleOf(data.controllers, id) != Some(JefeDependencia)
  {
    var c :| c in data.controllers && c.id == id && Cleared(data, c, C, d);
    FindUnique(data.controllers, c);
  }

  /** Everyone listed on a shift was, on that date, free of blocks for the shift and not on vacation. */
  lemma ListedWereFree(data: TurneroData, schedule: MonthlySchedule, i: int, s: ShiftCode, id: string)
    requires 1 <= data.month <= 12 && |schedule.days| == DaysInMonth(data.year, data.month)
    requires MonthSoFar(data, schedule.days, schedule.controllerShiftByDate)
    requires 0 <= i < |schedule.days|
    requires id in schedule.days[i].shifts.Get(s).assignedControllerIds
    ensures var d := schedule.days[i].date;
      !HasWeekdayBlock(data.weekdayBlocks, id, DayOfWeek(d), s) && !HasDateBlock(data.dateBlocks, id, d, s)
      && !IsOnVacation(data.vacations, id, d)
  {
    var dates := BuildMonthDates(data.year, data.month);
    assert ShiftAt(schedule.controllerShiftByDate, id, dates[i]) == Some(s);
    assert Vetted(data, id, s, dates[i]);
  }
}
