/**
 * `computeStats` and `countVacationDays`: per-person counts over the month's
 * dates, read off the shift map. Each count is specified by `Count`, the number
 * of dates a `Tally` holds on; the methods walk the dates as the application
 * does and are proved to compute those numbers.
 */
module Stats {
  import opened Common
  import opened Calendar
  import opened Types
  import opened Eligibility

  /** What is counted on a date for one person. */
  datatype Tally = ShiftOn(s: ShiftCode) | Filled | WeekendFilled | HolidayFilled | VacationDay

  /** Some holiday falls on the date. */
  predicate IsHoliday(holidays: seq<Holiday>, e: Date) {
    exists h :: h in holidays && h.date == e
  }

  predicate Holds(t: Tally, data: TurneroData, m: ShiftMap, id: string, e: Date) {
    match t
    case ShiftOn(s) => ShiftAt(m, id, e) == Some(s)
    case Filled => ShiftAt(m, id, e).Some?
    case WeekendFilled => ShiftAt(m, id, e).Some? && IsWeekend(e)
    case HolidayFilled => ShiftAt(m, id, e).Some? && IsHoliday(data.holidays, e)
    case VacationDay => IsOnVacation(data.vacations, id, e)
  }

  /** How many of the dates (counted with repetition) the tally holds on. */
  function Count(dates: seq<Date>, t: Tally, data: TurneroData, m: ShiftMap, id: string): (n: nat)
    ensures n <= |dates|
  {
    if dates == [] then 0
    else
      var k := |dates| - 1;
      Count(dates[..k], t, data, m, id) + if Holds(t, data, m, id, dates[k]) then 1 else 0
  }

  /** A tally counts zero exactly when it holds on none of the dates. */
  lemma {:induction false} CountZero(dates: seq<Date>, t: Tally, data: TurneroData, m: ShiftMap, id: string)
    ensures Count(dates, t, data, m, id) == 0 <==> forall j :: 0 <= j < |dates| ==> !Holds(t, data, m, id, dates[j])
  {
    if dates != [] {
      var k := |dates| - 1;
      CountZero(dates[..k], t, data, m, id);
      assert forall j :: 0 <= j < k ==> dates[..k][j] == dates[j];
    }
  }

  lemma CountLast(dates: seq<Date>, t: Tally, data: TurneroData, m: ShiftMap, id: string)
    requires dates != []
    ensures Count(dates, t, data, m, id)
      == Count(dates[..|dates| - 1], t, data, m, id) + if Holds(t, data, m, id, dates[|dates| - 1]) then 1 else 0
  {
  }

  /** One more date adds one exactly when the tally holds on it. */
  lemma CountStep(dates: seq<Date>, k: int, t: Tally, data: TurneroData, m: ShiftMap, id: string)
    requires 0 <= k < |dates|
    ensures Count(dates[..k + 1], t, data, m, id) == Count(dates[..k], t, data, m, id) + if Holds(t, data, m, id, dates[k]) then 1 else 0
  {
    assert dates[..k + 1][..k] == dates[..k];
    CountLast(dates[..k + 1], t, data, m, id);
  }

  /** A filled cell holds exactly one of the three shifts, so the filled dates split by shift. */
  lemma {:induction false} CountByShift(dates: seq<Date>, data: TurneroData, m: ShiftMap, id: string)
    ensures Count(dates, Filled, data, m, id)
      == Count(dates, ShiftOn(A), data, m, id) + Count(dates, ShiftOn(B), data, m, id) + Count(dates, ShiftOn(C), data, m, id)
  {
    if dates != [] {
      var k := |dates| - 1;
      CountByShift(dates[..k], data, m, id);
      var e := dates[k];
      CountLast(dates, Filled, data, m, id);
      CountLast(dates, ShiftOn(A), data, m, id);
      CountLast(dates, ShiftOn(B), data, m, id);
      CountLast(dates, ShiftOn(C), data, m, id);
      match ShiftAt(m, id, e) {
        case None =>
        case Some(s) =>
          assert Holds(Filled, data, m, id, e);
          assert Holds(ShiftOn(A), data, m, id, e) <==> s == A;
          assert Holds(ShiftOn(B), data, m, id, e) <==> s == B;
          assert Holds(ShiftOn(C), data, m, id, e) <==> s == C;
      }
    }
  }

  /** A tally that implies another on every date counts no more. */
  lemma {:induction false} CountMonotone(dates: seq<Date>, t: Tally, u: Tally, data: TurneroData, m: ShiftMap, id: string)
    requires forall e :: Holds(t, data, m, id, e) ==> Holds(u, data, m, id, e)
    ensures Count(dates, t, data, m, id) <= Count(dates, u, data, m, id)
  {
    if dates != [] {
      CountMonotone(dates[..|dates| - 1], t, u, data, m, id);
    }
  }

  /** The record `computeStats` builds for one person. */
  function StatsOf(data: TurneroData, m: ShiftMap, c: Controller, dates: seq<Date>): (st: ControllerStats)
    ensures st.controllerId == c.id && st.pending == c.pending
    ensures st.totalShifts == st.shiftsA + st.shiftsB + st.shiftsC == Count(dates, Filled, data, m, c.id)
    ensures 0 <= st.weekendShifts <= st.totalShifts && 0 <= st.holidayShifts <= st.totalShifts
    ensures 0 <= st.vacationDays <= |dates|
  {
    var a := Count(dates, ShiftOn(A), data, m, c.id);
    var b := Count(dates, ShiftOn(B), data, m, c.id);
    var cc := Count(dates, ShiftOn(C), data, m, c.id);
    CountByShift(dates, data, m, c.id);
    CountMonotone(dates, WeekendFilled, Filled, data, m, c.id);
    CountMonotone(dates, HolidayFilled, Filled, data, m, c.id);
    ControllerStats(c.id, a, b, cc, a + b + cc,
      Count(dates, WeekendFilled, data, m, c.id),
      Count(dates, VacationDay, data, m, c.id),
      Count(dates, HolidayFilled, data, m, c.id),
      c.pending)
  }

  /** `countVacationDays`: the dates on which some vacation of the person covers the date. */
  method CountVacationDays(id: string, data: TurneroData, dates: seq<Date>) returns (total: nat)
    ensures total == Count(dates, VacationDay, data, map[], id)
  {
    total := 0;
    for k := 0 to |dates|
      invariant total == Count(dates[..k], VacationDay, data, map[], id)
    {
      CountStep(dates, k, VacationDay, data, map[], id);
      if IsOnVacation(data.vacations, id, dates[k]) {
        total := total + 1;
      }
    }
    assert dates[..|dates|] == dates;
  }

  /** The vacation tally does not look at the map. */
  lemma {:induction false} VacationCountIgnoresMap(dates: seq<Date>, data: TurneroData, m: ShiftMap, m': ShiftMap, id: string)
    ensures Count(dates, VacationDay, data, m, id) == Count(dates, VacationDay, data, m', id)
  {
    if dates != [] {
      VacationCountIgnoresMap(dates[..|dates| - 1], data, m, m', id);
    }
  }

  /** The body of the `reduce` callback: one pass over the dates for one person. */
  method StatsFor(data: TurneroData, m: ShiftMap, c: Controller, dates: seq<Date>) returns (st: ControllerStats)
    ensures st == StatsOf(data, m, c, dates)
  {
    var shiftsA, shiftsB, shiftsC, weekendShifts, holidayShifts := 0, 0, 0, 0, 0;
    for k := 0 to |dates|
      invariant shiftsA == Count(dates[..k], ShiftOn(A), data, m, c.id)
      invariant shiftsB == Count(dates[..k], ShiftOn(B), data, m, c.id)
      invariant shiftsC == Count(dates[..k], ShiftOn(C), data, m, c.id)
      invariant weekendShifts == Count(dates[..k], WeekendFilled, data, m, c.id)
      invariant holidayShifts == Count(dates[..k], HolidayFilled, data, m, c.id)
    {
      var e := dates[k];
      assert dates[..k + 1][..k] == dates[..k];
      var shift := ShiftAt(m, c.id, e);
      if shift.None? {
        continue;
      }
      match shift.value {
        case A => shiftsA := shiftsA + 1;
        case B => shiftsB := shiftsB + 1;
        case C => shiftsC := shiftsC + 1;
      }
      if IsWeekend(e) {
        weekendShifts := weekendShifts + 1;
      }
      if IsHoliday(data.holidays, e) {
        holidayShifts := holidayShifts + 1;
      }
    }
    assert dates[..|dates|] == dates;
    var vacationDays := CountVacationDays(c.id, data, dates);
    VacationCountIgnoresMap(dates, data, map[], m, c.id);
    st := ControllerStats(c.id, shiftsA, shiftsB, shiftsC, shiftsA + shiftsB + shiftsC, weekendShifts, vacationDays, holidayShifts, c.pending);
  }

  /** No later roster entry among the first `n` shares the id of entry `j`. */
  predicate LastWithId(roster: seq<Controller>, n: int, j: int)
    requires 0 <= j < n <= |roster|
  {
    forall k :: j < k < n ==> roster[k].id != roster[j].id
  }

  /**
   * `computeStats`: one record per roster id; where ids repeat, the entry
   * listed last writes the record.
   */
  method ComputeStats(data: TurneroData, schedule: MonthlySchedule) returns (stats: map<string, ControllerStats>)
    requires 1 <= data.month <= 12
    ensures stats.Keys == Ids(data.controllers)
    ensures forall j :: 0 <= j < |data.controllers| && LastWithId(data.controllers, |data.controllers|, j) ==>
      stats[data.controllers[j].id] == StatsOf(data, schedule.controllerShiftByDate, data.controllers[j], BuildMonthDates(data.year, data.month))
  {
    var dates := BuildMonthDates(data.year, data.month);
    var roster := data.controllers;
    var m := schedule.controllerShiftByDate;
    stats := map[];
    for i := 0 to |roster|
      invariant stats.Keys == Ids(roster[..i])
      invariant forall j :: 0 <= j < i && LastWithId(roster, i, j) ==> stats[roster[j].id] == StatsOf(data, m, roster[j], dates)
    {
      var c := roster[i];
      var st := StatsFor(data, m, c, dates);
      assert roster[..i + 1] == roster[..i] + [c];
      var prev := stats;
      stats := stats[c.id := st];
      forall j | 0 <= j < i + 1 && LastWithId(roster, i + 1, j)
        ensures stats[roster[j].id] == StatsOf(data, m, roster[j], dates)
      {
        if j < i {
          assert roster[i].id != roster[j].id;
          assert LastWithId(roster, i, j);
          assert stats[roster[j].id] == prev[roster[j].id];
        }
      }
    }
    assert roster[..|roster|] == roster;
  }

  /** With distinct ids every person gets their own record. */
  lemma EveryoneHasStats(data: TurneroData, schedule: MonthlySchedule, stats: map<string, ControllerStats>, c: Controller)
    requires 1 <= data.month <= 12 && UniqueIds(data.controllers) && c in data.controllers
    requires forall j :: 0 <= j < |data.controllers| && LastWithId(data.controllers, |data.controllers|, j) ==>
      data.controllers[j].id in stats
      && stats[data.controllers[j].id] == StatsOf(data, schedule.controllerShiftByDate, data.controllers[j], BuildMonthDates(data.year, data.month))
    ensures c.id in stats && stats[c.id] == StatsOf(data, schedule.controllerShiftByDate, c, BuildMonthDates(data.year, data.month))
  {
    var j :| 0 <= j < |data.controllers| && data.controllers[j] == c;
    assert LastWithId(data.controllers, |data.controllers|, j);
  }
}
