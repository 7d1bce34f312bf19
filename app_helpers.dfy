/**
 * The pure helpers of the application shell: month clamping, pagination of
 * the tables, the month calendar grid, the month filters applied to the
 * constraint lists before a schedule is generated, and the cascade delete of
 * a controller.
 */
module AppHelpers {
  import opened Common
  import opened Text
  import opened Calendar
  import opened Types

  // ---------------------------------------------------------------------------
  // clampMonth

  /** What `Number(value)` gives for a stored month: an integer, or anything else (a fraction, NaN, an infinity). */
  datatype Numeric = IntegerValue(n: int) | NotInteger

  /** `clampMonth`: non-integers become January, integers are clamped into 1..12. */
  function ClampMonth(v: Numeric): (m: int)
    ensures 1 <= m <= 12
    ensures v.NotInteger? ==> m == 1
    ensures v.IntegerValue? && 1 <= v.n <= 12 ==> m == v.n
    ensures v.IntegerValue? && v.n < 1 ==> m == 1
    ensures v.IntegerValue? && v.n > 12 ==> m == 12
  {
    match v
    case NotInteger => 1
    case IntegerValue(n) => Max(1, Min(12, n))
  }

  // ---------------------------------------------------------------------------
  // paginate

  /** `Math.ceil(n / p)` for a positive page size. */
  function CeilDiv(n: nat, p: int): (q: nat)
    requires p >= 1
    ensures n <= q * p
    ensures q == 0 || (q - 1) * p < n
  {
    var q := (n + p - 1) / p;
    assert q * p <= n + p - 1 < (q + 1) * p;
    q
  }

  datatype Page<T> = Page(items: seq<T>, currentPage: int, totalPages: int, totalItems: int, startItem: int, endItem: int)

  /**
   * `paginate`: the page is clamped into range, the slice is that page's
   * items, and the 1-based item numbers shown around it are 0 for an empty list.
   */
  function Paginate<T>(xs: seq<T>, page: int, pageSize: int): (r: Page<T>)
    requires pageSize >= 1
    ensures r.totalItems == |xs|
    ensures r.totalPages == Max(1, CeilDiv(|xs|, pageSize))
    ensures 1 <= r.currentPage <= r.totalPages
    ensures 1 <= page <= r.totalPages ==> r.currentPage == page
    ensures page < 1 ==> r.currentPage == 1
    ensures page > r.totalPages ==> r.currentPage == r.totalPages
    ensures xs == [] ==> r.items == []
    ensures |r.items| <= pageSize
    ensures r.startItem == 0 && r.endItem == 0 <==> xs == []
    ensures xs != [] ==> 1 <= r.startItem <= r.endItem <= |xs| && r.items == xs[r.startItem - 1 .. r.endItem]
    ensures xs != [] ==> r.startItem == (r.currentPage - 1) * pageSize + 1 && r.endItem == Min(r.currentPage * pageSize, |xs|)
  {
    var total := |xs|;
    var totalPages := Max(1, CeilDiv(total, pageSize));
    var safePage := Max(1, Min(page, totalPages));
    var start := (safePage - 1) * pageSize;
    var end := start + pageSize;
    PageStart(total, pageSize, totalPages, safePage);
    var items := xs[Min(start, total) .. Min(end, total)];
    Page(items, safePage, totalPages, total,
      if total == 0 then 0 else start + 1,
      if total == 0 then 0 else Min(end, total))
  }

  /** A page in range starts inside a non-empty list, and at 0 in an empty one. */
  lemma PageStart(total: nat, pageSize: int, totalPages: int, page: int)
    requires pageSize >= 1 && totalPages == Max(1, CeilDiv(total, pageSize)) && 1 <= page <= totalPages
    ensures 0 <= (page - 1) * pageSize
    ensures total > 0 ==> (page - 1) * pageSize < total
    ensures total == 0 ==> (page - 1) * pageSize == 0
    ensures (page - 1) * pageSize + pageSize == page * pageSize
  {
    MulMonotone(page - 1, totalPages - 1, pageSize);
    MulMonotone(0, page - 1, pageSize);
  }

  lemma MulMonotone(a: int, b: int, p: int)
    requires 0 <= a <= b && p >= 0
    ensures a * p <= b * p
  {
  }

  /** Every item of the list is on page `i / pageSize + 1`, at position `i % pageSize`. */
  lemma ItemOnItsPage<T>(xs: seq<T>, pageSize: int, i: int)
    requires pageSize >= 1 && 0 <= i < |xs|
    ensures var r := Paginate(xs, i / pageSize + 1, pageSize);
      r.currentPage == i / pageSize + 1 && i % pageSize < |r.items| && r.items[i % pageSize] == xs[i]
  {
    PageOfItem(|xs|, pageSize, i);
    var r := Paginate(xs, i / pageSize + 1, pageSize);
    assert r.items == xs[r.startItem - 1 .. r.endItem];
  }

  /** Item `i` lies on a page in range, between that page's first item and its last. */
  lemma PageOfItem(total: nat, pageSize: int, i: int)
    requires pageSize >= 1 && 0 <= i < total
    ensures 1 <= i / pageSize + 1 <= Max(1, CeilDiv(total, pageSize))
    ensures (i / pageSize) * pageSize <= i < Min((i / pageSize + 1) * pageSize, total)
    ensures i - (i / pageSize) * pageSize == i % pageSize
  {
    var q := i / pageSize;
    var n := CeilDiv(total, pageSize);
    assert q * pageSize <= i;
    assert q < n by {
      if q >= n {
        MulMonotone(n, q, pageSize);
      }
    }
    assert i == q * pageSize + i % pageSize;
    assert (q + 1) * pageSize == q * pageSize + pageSize;
  }

  // ---------------------------------------------------------------------------
  // buildCalendarCells

  /** The weekday (`getDay()` numbering) of the first of the month. */
  function FirstWeekday(year: int, month: int): (w: int)
    ensures 0 <= w < 7
  {
    DayOfWeek(Date(year, month, 1))
  }

  /**
   * `buildCalendarCells`: blanks up to the weekday of the first, the dates,
   * then blanks up to the next multiple of seven; the empty string is a blank.
   */
  method BuildCalendarCells(year: int, month: int, dates: seq<string>) returns (cells: seq<string>)
    requires 1 <= month <= 12
    ensures |cells| % 7 == 0
    ensures FirstWeekday(year, month) + |dates| <= |cells| < FirstWeekday(year, month) + |dates| + 7
    ensures forall i :: 0 <= i < FirstWeekday(year, month) ==> cells[i] == ""
    ensures cells[FirstWeekday(year, month) .. FirstWeekday(year, month) + |dates|] == dates
    ensures forall i :: FirstWeekday(year, month) + |dates| <= i < |cells| ==> cells[i] == ""
  {
    var lead := FirstWeekday(year, month);
    cells := seq(lead, _ => "");
    cells := cells + dates;
    var filled := lead + |dates|;
    while |cells| % 7 != 0
      invariant filled <= |cells| < filled + 7
      invariant forall k :: filled <= k < |cells| ==> k % 7 != 0
      invariant forall i :: 0 <= i < lead ==> cells[i] == ""
      invariant cells[lead .. filled] == dates
      invariant forall i :: filled <= i < |cells| ==> cells[i] == ""
      decreases filled + 7 - |cells|
    {
      NextMultipleOfSeven(filled);
      cells := cells + [""];
    }
  }

  /** The next multiple of seven from `lo` on is less than seven away. */
  lemma NextMultipleOfSeven(lo: int)
    ensures exists k :: lo <= k < lo + 7 && k % 7 == 0
  {
    var k := lo + (7 - lo % 7) % 7;
    assert lo <= k < lo + 7 && k % 7 == 0;
  }

  /** With the month's own dates, each date sits in the grid column of its weekday. */
  lemma GridColumnIsWeekday(year: int, month: int, i: int)
    requires 1 <= month <= 12 && 0 <= i < DaysInMonth(year, month)
    ensures (FirstWeekday(year, month) + i) % 7 == DayOfWeek(BuildMonthDates(year, month)[i])
  {
    var first := DaysFromCivil(Date(year, month, 1));
    assert DaysFromCivil(Date(year, month, i + 1)) == first + i;
    var q := (first + 4) / 7;
    var r := (first + 4) % 7;
    assert first + 4 + i == 7 * q + (r + i);
    DivModUnique(first + 4 + i, 7, q + (r + i) / 7, (r + i) % 7);
  }

  // ---------------------------------------------------------------------------
  // Month filters

  /** `Number(s) === v` for a piece of a split date: only digit strings have a value. */
  predicate NumberIs(s: string, v: int) {
    DecimalValue(s).Some? && DecimalValue(s).value == v
  }

  /** `isDateInActiveMonth`: the first two '-'-separated fields read as the year and the month. */
  predicate IsDateInActiveMonth(iso: string, month: int, year: int) {
    var parts := Split(iso, '-');
    |parts| >= 2 && NumberIs(parts[0], year) && NumberIs(parts[1], month)
  }

  /** For the printed form of a date, the test holds exactly when its year and month are the active ones. */
  lemma ActiveMonthOfIsoDate(d: Date, month: int, year: int)
    requires ValidDate(d) && d.year >= 0
    ensures IsDateInActiveMonth(ToIsoDate(d), month, year) <==> d.year == year && d.month == month
  {
    IsoDateFields(d);
    DecimalOfNatToString(d.year);
    DecimalOfNatToString(d.month);
    ZeroPaddedValue(NatToString(d.month), 2);
  }

  /**
   * `doesRangeOverlapActiveMonth`: the string range `[start, end]` is not
   * wholly before the first of the month nor wholly after its last day.
   */
  predicate DoesRangeOverlapActiveMonth(startIso: string, endIso: string, month: int, year: int)
    requires 1 <= month <= 12
  {
    var monthStart := ToIsoDate(Date(year, month, 1));
    var monthEnd := ToIsoDate(Date(year, month, DaysInMonth(year, month)));
    !(StrLess(endIso, monthStart) || StrLess(monthEnd, startIso))
  }

  /** On printed four-digit-year dates the string test is the date test. */
  lemma RangeOverlapOfIsoDates(s: Date, e: Date, month: int, year: int)
    requires 1 <= month <= 12 && 1000 <= year <= 9999
    requires FourDigitYear(s) && FourDigitYear(e)
    ensures DoesRangeOverlapActiveMonth(ToIsoDate(s), ToIsoDate(e), month, year)
      <==> DateLe(Date(year, month, 1), e) && DateLe(s, Date(year, month, DaysInMonth(year, month)))
  {
    IsoOrderAgrees(e, Date(year, month, 1));
    IsoOrderAgrees(Date(year, month, DaysInMonth(year, month)), s);
  }

  /** For a non-empty range of valid dates, overlapping means some date of the month lies in the range. */
  lemma RangeOverlapMeansSharedDate(s: Date, e: Date, month: int, year: int)
    requires 1 <= month <= 12 && ValidDate(s) && ValidDate(e) && DateLe(s, e)
    ensures (DateLe(Date(year, month, 1), e) && DateLe(s, Date(year, month, DaysInMonth(year, month))))
      <==> exists x :: x in BuildMonthDates(year, month) && IsDateInRange(x, s, e)
  {
    var first, last := Date(year, month, 1), Date(year, month, DaysInMonth(year, month));
    if DateLe(first, e) && DateLe(s, last) {
      var x := if DateLe(first, s) then s else first;
      MonthDatesExactly(year, month, x);
      assert x in BuildMonthDates(year, month) && IsDateInRange(x, s, e);
    }
    if exists x :: x in BuildMonthDates(year, month) && IsDateInRange(x, s, e) {
      var x :| x in BuildMonthDates(year, month) && IsDateInRange(x, s, e);
      MonthDatesExactly(year, month, x);
    }
  }

  /** `matchesMonthRule`: an absent month or year matches any, a present one must be equal. */
  function MatchesMonthRule(ruleMonth: Option<int>, ruleYear: Option<int>, activeMonth: int, activeYear: int): (r: bool)
    ensures r <==> (ruleMonth.None? || ruleMonth.value == activeMonth) && (ruleYear.None? || ruleYear.value == activeYear)
  {
    if ruleMonth.Some? && ruleMonth.value != activeMonth then false
    else if ruleYear.Some? && ruleYear.value != activeYear then false
    else true
  }

  // ---------------------------------------------------------------------------
  // removeController

  function KeepController(id: string): Controller -> bool { (c: Controller) => c.id != id }
  function KeepVacation(id: string): VacationConstraint -> bool { (v: VacationConstraint) => v.controllerId != id }
  function KeepWeekdayBlock(id: string): WeekdayBlock -> bool { (b: WeekdayBlock) => b.controllerId != id }
  function KeepDateBlock(id: string): DateBlock -> bool { (b: DateBlock) => b.controllerId != id }
  function KeepForced(id: string): ForcedAssignment -> bool { (f: ForcedAssignment) => f.controllerId != id }

  /**
   * The updater of `removeController`: the person and every vacation, block
   * and forced assignment naming them go; everything else stays, in order.
   */
  function RemoveController(data: TurneroData, id: string): (r: TurneroData)
    ensures r.year == data.year && r.month == data.month && r.monthlyNotes == data.monthlyNotes
    ensures r.coverageOverrides == data.coverageOverrides && r.holidays == data.holidays
    ensures forall c :: c in r.controllers <==> c in data.controllers && c.id != id
    ensures forall v :: v in r.vacations <==> v in data.vacations && v.controllerId != id
    ensures forall b :: b in r.weekdayBlocks <==> b in data.weekdayBlocks && b.controllerId != id
    ensures forall b :: b in r.dateBlocks <==> b in data.dateBlocks && b.controllerId != id
    ensures forall f :: f in r.forcedAssignments <==> f in data.forcedAssignments && f.controllerId != id
    ensures id !in Ids(r.controllers)
  {
    var r := data.(
      controllers := Filter(data.controllers, KeepController(id)),
      vacations := Filter(data.vacations, KeepVacation(id)),
      weekdayBlocks := Filter(data.weekdayBlocks, KeepWeekdayBlock(id)),
      dateBlocks := Filter(data.dateBlocks, KeepDateBlock(id)),
      forcedAssignments := Filter(data.forcedAssignments, KeepForced(id)));
    FilterMembers(data.controllers, KeepController(id));
    FilterMembers(data.vacations, KeepVacation(id));
    FilterMembers(data.weekdayBlocks, KeepWeekdayBlock(id));
    FilterMembers(data.dateBlocks, KeepDateBlock(id));
    FilterMembers(data.forcedAssignments, KeepForced(id));
    r
  }

  lemma FilterMembers<T>(xs: seq<T>, keep: T -> bool)
    ensures forall x :: x in Filter(xs, keep) <==> x in xs && keep(x)
  {
    var r := Filter(xs, keep);
    forall x | x in r ensures x in xs && keep(x) {
      var i :| 0 <= i < |r| && r[i] == x;
    }
    forall x | x in xs && keep(x) ensures x in r {
      var i :| 0 <= i < |xs| && xs[i] == x;
    }
  }

  /** Removing the same person twice is removing them once. */
  lemma RemoveControllerTwice(data: TurneroData, id: string)
    ensures RemoveController(RemoveController(data, id), id) == RemoveController(data, id)
  {
    FilterIdempotent(data.controllers, KeepController(id));
    FilterIdempotent(data.vacations, KeepVacation(id));
    FilterIdempotent(data.weekdayBlocks, KeepWeekdayBlock(id));
    FilterIdempotent(data.dateBlocks, KeepDateBlock(id));
    FilterIdempotent(data.forcedAssignments, KeepForced(id));
  }
}
