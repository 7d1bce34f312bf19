/**
 * The application's data model: the roster, the month's constraints, and the
 * schedule the engine produces. Dates are calendar triples; a person's cell in
 * the shift map is `None` where the application stores the empty string.
 */
module Types {
  import opened Common
  import opened Calendar

  datatype ShiftCode = A | B | C

  datatype Role = JefeDependencia | Supervisor | Instructor | Operador | Practicante | Adscripto

  datatype Controller = Controller(id: string, name: string, role: Role, condition: string, pending: int)

  datatype CoverageOverride = CoverageOverride(id: string, date: Date, shift: ShiftCode, required: int, note: string)

  datatype VacationConstraint = VacationConstraint(id: string, controllerId: string, startDate: Date, endDate: Date, note: string)

  /** `weekday` uses `getDay()` numbering; `month` and `year` are optional. */
  datatype WeekdayBlock =
    WeekdayBlock(id: string, controllerId: string, weekday: int, shift: ShiftCode, note: string, month: Option<int>, year: Option<int>)

  datatype DateBlock = DateBlock(id: string, controllerId: string, date: Date, shift: ShiftCode, note: string)

  datatype ForcedAssignment = ForcedAssignment(id: string, controllerId: string, date: Date, shift: ShiftCode, note: string)

  datatype Holiday = Holiday(id: string, date: Date, name: string)

  datatype TurneroData = TurneroData(
    year: int,
    month: int,
    controllers: seq<Controller>,
    coverageOverrides: seq<CoverageOverride>,
    vacations: seq<VacationConstraint>,
    weekdayBlocks: seq<WeekdayBlock>,
    dateBlocks: seq<DateBlock>,
    forcedAssignments: seq<ForcedAssignment>,
    holidays: seq<Holiday>,
    monthlyNotes: string)

  /** Why `canAssign` refused someone, one variant per check, in the order the checks run. */
  datatype Reason = AlreadyAssigned | ChiefOnNight | WeekdayBlocked | DateBlocked | OnVacation | RestAfterNight

  /** A conflict recorded on a shift; the application renders each as a Spanish sentence. */
  datatype Conflict =
    | UnknownForcedController
    | ForcedUnavailable(name: string, reason: Reason)
    | NoSupervisor(shift: ShiftCode)
    | MissingInstructor
    | IncompleteCoverage(missing: int, shift: ShiftCode)

  datatype ShiftPlan = ShiftPlan(shift: ShiftCode, required: int, assignedControllerIds: seq<string>, conflicts: seq<Conflict>)

  datatype ShiftPlans = ShiftPlans(a: ShiftPlan, b: ShiftPlan, c: ShiftPlan) {
    function Get(s: ShiftCode): ShiftPlan {
      match s
      case A => a
      case B => b
      case C => c
    }
  }

  datatype DayPlan = DayPlan(date: Date, dayLabel: string, shifts: ShiftPlans)

  /** Person id to date to shift; `None` is the application's empty string. */
  type ShiftMap = map<string, map<Date, Option<ShiftCode>>>

  datatype MonthlySchedule = MonthlySchedule(days: seq<DayPlan>, controllerShiftByDate: ShiftMap)

  datatype ControllerStats = ControllerStats(
    controllerId: string,
    shiftsA: int,
    shiftsB: int,
    shiftsC: int,
    totalShifts: int,
    weekendShifts: int,
    vacationDays: int,
    holidayShifts: int,
    pending: int)

  /** `SHIFT_CONFIG[shift].defaultRequired`. */
  function DefaultRequired(s: ShiftCode): int {
    match s
    case A => 3
    case B => 3
    case C => 2
  }

  /** `SHIFT_CONFIG[shift].requiresSupervisor`. */
  predicate RequiresSupervisor(s: ShiftCode) {
    s != C
  }

  /** `DAY_LABELS`, indexed by `getDay()`. */
  function DayLabel(w: int): string
    requires 0 <= w < 7
  {
    ["Dom", "Lun", "Mar", "Mie", "Jue", "Vie", "Sab"][w]
  }

  /** `controllerShiftByDate[id]?.[date]`, with a missing entry read as empty. */
  function ShiftAt(m: ShiftMap, id: string, d: Date): Option<ShiftCode> {
    if id in m && d in m[id] then m[id][d] else None
  }

  /** The set of ids on the roster. */
  function Ids(roster: seq<Controller>): set<string> {
    set c | c in roster :: c.id
  }

  predicate UniqueIds(roster: seq<Controller>) {
    forall i, j :: 0 <= i < j < |roster| ==> roster[i].id != roster[j].id
  }

  /** `controllers.find((item) => item.id === id)`: the first roster entry with that id. */
  function Find(roster: seq<Controller>, id: string): (r: Option<Controller>)
    ensures r.None? <==> id !in Ids(roster)
    ensures r.Some? ==> r.value in roster && r.value.id == id
    ensures r.Some? ==> exists k :: 0 <= k < |roster| && roster[k] == r.value && forall j :: 0 <= j < k ==> roster[j].id != id
  {
    if roster == [] then None
    else if roster[0].id == id then Some(roster[0])
    else
      var rest := Find(roster[1..], id);
      assert Ids(roster) == {roster[0].id} + Ids(roster[1..]) by {
        assert forall c :: c in roster <==> c == roster[0] || c in roster[1..];
      }
      assert forall k :: 0 <= k < |roster| - 1 ==> roster[1..][k] == roster[k + 1];
      rest
  }

  /** With distinct ids, `find` returns the one entry carrying the id. */
  lemma {:induction false} FindUnique(roster: seq<Controller>, c: Controller)
    requires UniqueIds(roster) && c in roster
    ensures Find(roster, c.id) == Some(c)
  {
    if roster[0] != c {
      assert c in roster[1..];
      FindUnique(roster[1..], c);
    }
  }

  /** The role `find` reports for an id, if the id is on the roster. */
  function RoleOf(roster: seq<Controller>, id: string): Option<Role> {
    match Find(roster, id)
    case None => None
    case Some(c) => Some(c.role)
  }

  /** `hasSupervisor`, `hasInstructor`, `hasTrainee`: some listed id resolves to the role. */
  predicate HasRole(ids: seq<string>, roster: seq<Controller>, role: Role) {
    exists i :: 0 <= i < |ids| && RoleOf(roster, ids[i]) == Some(role)
  }
}
