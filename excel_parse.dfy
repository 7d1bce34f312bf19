/**
 * The cell and sheet-name readers of the spreadsheet import in `src/excel.ts`.
 * Their inputs are taken as already normalized: upper case, trimmed, without
 * diacritics. Each reader is paired with what the export writes, so that a
 * written value reads back as itself.
 */
module ExcelParse {
  import opened Common
  import opened Text
  import opened Types
  import opened Defaults

  // ----- parseShift -----

  /** The text of a shift code in a day cell. */
  function ShiftLetter(s: ShiftCode): string {
    match s
    case A => "A"
    case B => "B"
    case C => "C"
  }

  /** The prefix of an on-the-job-training token for the shift. */
  function TrainingPrefix(s: ShiftCode): (p: string)
    ensures p == "OJT" + ShiftLetter(s)
  {
    match s
    case A => "OJTA"
    case B => "OJTB"
    case C => "OJTC"
  }

  /** The cell text names the shift: the bare letter, or a training token for it. */
  predicate Names(value: string, s: ShiftCode) {
    value == ShiftLetter(s) || StartsWith(value, TrainingPrefix(s))
  }

  /** No cell text names two shifts. */
  lemma NamesOneShift(value: string, s: ShiftCode, t: ShiftCode)
    requires Names(value, s) && Names(value, t)
    ensures s == t
  {
    if value == ShiftLetter(s) || value == ShiftLetter(t) {
      assert |value| == 1;
      assert value == ShiftLetter(s) && value == ShiftLetter(t);
    } else {
      assert value[3] == TrainingPrefix(s)[3] == TrainingPrefix(t)[3];
    }
  }

  /** `parseShift`: a bare letter or an on-the-job-training token `OJT<letter>...`; anything else is no shift. */
  function ParseShift(value: string): (r: Option<ShiftCode>)
    ensures value == "" ==> r.None?
    ensures r.None? <==> forall s: ShiftCode :: !Names(value, s)
    ensures r.Some? ==> Names(value, r.value)
  {
    if value == "" then None
    else if value == "A" || StartsWith(value, "OJTA") then
      assert Names(value, A);
      Some(A)
    else if value == "B" || StartsWith(value, "OJTB") then
      assert Names(value, B);
      Some(B)
    else if value == "C" || StartsWith(value, "OJTC") then
      assert Names(value, C);
      Some(C)
    else None
  }

  /** A cell text names a shift exactly when `parseShift` returns it. */
  lemma ParseShiftNames(value: string, s: ShiftCode)
    ensures ParseShift(value) == Some(s) <==> Names(value, s)
  {
    if Names(value, s) {
      NamesOneShift(value, s, ParseShift(value).value);
    }
  }

  /** The day cell the export writes: the shift code, or the empty string for a free day. */
  function ShiftCell(o: Option<ShiftCode>): string {
    match o
    case None => ""
    case Some(s) => ShiftLetter(s)
  }

  /** A day cell written by the export reads back as the same shift or free day. */
  lemma ShiftCellRoundTrip(o: Option<ShiftCode>)
    ensures ParseShift(ShiftCell(o)) == o
  {
    if o.Some? {
      var s := o.value;
      ParseShiftNames(ShiftLetter(s), s);
    }
  }

  /** Any token made of `OJT`, a shift letter and a tail reads as that shift. */
  lemma TrainingToken(s: ShiftCode, tail: string)
    ensures ParseShift("OJT" + ShiftLetter(s) + tail) == Some(s)
  {
    var v := "OJT" + ShiftLetter(s) + tail;
    assert v[..4] == TrainingPrefix(s);
    ParseShiftNames(v, s);
  }

  // ----- mapRole -----

  /** The keywords `mapRole` looks for, in the order it looks for them. */
  const RoleKeywords: seq<(string, Role)> := [
    ("JEFE", JefeDependencia),
    ("SUPERVISOR", Supervisor),
    ("INSTRUCTOR", Instructor),
    ("PRACTICANTE", Practicante),
    ("ADSCRIPTO", Adscripto)
  ]

  /** Keyword `k` is the first keyword the text contains. */
  predicate FirstKeyword(value: string, k: int) {
    0 <= k < |RoleKeywords| && Includes(value, RoleKeywords[k].0)
    && forall j :: 0 <= j < k ==> !Includes(value, RoleKeywords[j].0)
  }

  /** `mapRole`: the role of the first keyword the text contains, operator when it contains none. */
  function MapRole(value: string): (r: Role)
    ensures r == Operador <==> forall k :: 0 <= k < |RoleKeywords| ==> !Includes(value, RoleKeywords[k].0)
    ensures r != Operador ==> exists k :: FirstKeyword(value, k) && RoleKeywords[k].1 == r
  {
    if Includes(value, "JEFE") then
      assert RoleKeywords[0].0 == "JEFE";
      JefeDependencia
    else if Includes(value, "SUPERVISOR") then
      assert RoleKeywords[1].0 == "SUPERVISOR";
      Supervisor
    else if Includes(value, "INSTRUCTOR") then
      assert RoleKeywords[2].0 == "INSTRUCTOR";
      Instructor
    else if Includes(value, "PRACTICANTE") then
      assert RoleKeywords[3].0 == "PRACTICANTE";
      Practicante
    else if Includes(value, "ADSCRIPTO") then
      assert RoleKeywords[4].0 == "ADSCRIPTO";
      Adscripto
    else
      Operador
  }

  /** `roleToLabel`: the label `ROLE_OPTIONS` gives the role. */
  function RoleToLabel(role: Role): (text: string)
    ensures (role, text) in RoleOptions
  {
    var k := match role
      case JefeDependencia => 0
      case Supervisor => 1
      case Instructor => 2
      case Operador => 3
      case Practicante => 4
      case Adscripto => 5;
    assert RoleOptions[k].0 == role;
    LabelIn(RoleOptions, role)
  }

  /** `find` over the options, falling back to the role's own name. */
  function LabelIn(options: seq<(Role, string)>, role: Role): (text: string)
    ensures (exists k :: 0 <= k < |options| && options[k].0 == role) ==> (role, text) in options
  {
    if options == [] then RoleCode(role)
    else if options[0].0 == role then options[0].1
    else
      assert forall k :: 1 <= k < |options| ==> options[1..][k - 1] == options[k];
      LabelIn(options[1..], role)
  }

  /** The role's identifier as the application stores it. */
  function RoleCode(role: Role): string {
    match role
    case JefeDependencia => "JEFE_DEPENDENCIA"
    case Supervisor => "SUPERVISOR"
    case Instructor => "INSTRUCTOR"
    case Operador => "OPERADOR"
    case Practicante => "PRACTICANTE"
    case Adscripto => "ADSCRIPTO"
  }

  /** The label upper-cased, as `normalize` leaves it. */
  function UpperLabel(role: Role): string {
    match role
    case JefeDependencia => "JEFE DEPENDENCIA"
    case Supervisor => "SUPERVISOR"
    case Instructor => "INSTRUCTOR"
    case Operador => "OPERADOR"
    case Practicante => "PRACTICANTE"
    case Adscripto => "ADSCRIPTO"
  }

  lemma UpperOfLabel(role: Role)
    ensures ToUpper(RoleToLabel(role)) == UpperLabel(role)
  {
    var text := RoleToLabel(role);
    assert (role, text) in RoleOptions;
    assert text == RoleOptions[IndexOfRole(role)].1;
    UpperOfOption(IndexOfRole(role));
  }

  /** Upper-casing each option's label, one option at a time. */
  lemma UpperOfOption(k: int)
    requires 0 <= k < |RoleOptions|
    ensures ToUpper(RoleOptions[k].1) == UpperLabel(RoleOptions[k].0)
  {
    if k == 0 {
      UpperText("Jefe dependencia", "JEFE DEPENDENCIA");
    } else if k == 1 {
      UpperText("Supervisor", "SUPERVISOR");
    } else if k == 2 {
      UpperText("Instructor", "INSTRUCTOR");
    } else if k == 3 {
      UpperText("Operador", "OPERADOR");
    } else if k == 4 {
      UpperText("Practicante", "PRACTICANTE");
    } else {
      UpperText("Adscripto", "ADSCRIPTO");
    }
  }

  lemma UpperText(s: string, t: string)
    requires |s| == |t|
    requires forall i :: 0 <= i < |s| ==> t[i] == if 'a' <= s[i] <= 'z' then (s[i] as int - 32) as char else s[i]
    ensures ToUpper(s) == t
  {
  }

  function IndexOfRole(role: Role): (k: nat)
    ensures k < |RoleOptions| && RoleOptions[k].0 == role
  {
    match role
    case JefeDependencia => 0
    case Supervisor => 1
    case Instructor => 2
    case Operador => 3
    case Practicante => 4
    case Adscripto => 5
  }

  /** A text lacking some character of `part` does not contain `part`. */
  lemma MissingChar(s: string, part: string, c: char)
    requires c in part && c !in s
    ensures !Includes(s, part)
  {
    forall i | 0 <= i <= |s| - |part| ensures !OccursAt(s, part, i) {
      assert forall x :: x in s[i..i + |part|] ==> x in s;
    }
  }

  lemma MapRoleOfUpperLabel(role: Role)
    ensures MapRole(UpperLabel(role)) == role
  {
    match role {
      case JefeDependencia => assert OccursAt(UpperLabel(role), "JEFE", 0);
      case Supervisor => MapRoleOfSupervisor();
      case Instructor => MapRoleOfInstructor();
      case Operador => MapRoleOfOperador();
      case Practicante => MapRoleOfPracticante();
      case Adscripto => MapRoleOfAdscripto();
    }
  }

  lemma MapRoleOfSupervisor()
    ensures MapRole(UpperLabel(Supervisor)) == Supervisor
  {
    var up := UpperLabel(Supervisor);
    MissingChar(up, "JEFE", 'J');
    assert OccursAt(up, "SUPERVISOR", 0);
  }

  lemma MapRoleOfInstructor()
    ensures MapRole(UpperLabel(Instructor)) == Instructor
  {
    var up := UpperLabel(Instructor);
    MissingChar(up, "JEFE", 'J');
    MissingChar(up, "SUPERVISOR", 'P');
    assert OccursAt(up, "INSTRUCTOR", 0);
  }

  lemma MapRoleOfOperador()
    ensures MapRole(UpperLabel(Operador)) == Operador
  {
    var up := UpperLabel(Operador);
    MissingChar(up, "JEFE", 'J');
    MissingChar(up, "SUPERVISOR", 'S');
    MissingChar(up, "INSTRUCTOR", 'I');
    MissingChar(up, "PRACTICANTE", 'C');
    MissingChar(up, "ADSCRIPTO", 'S');
  }

  lemma MapRoleOfPracticante()
    ensures MapRole(UpperLabel(Practicante)) == Practicante
  {
    var up := UpperLabel(Practicante);
    MissingChar(up, "JEFE", 'J');
    MissingChar(up, "SUPERVISOR", 'S');
    MissingChar(up, "INSTRUCTOR", 'S');
    assert OccursAt(up, "PRACTICANTE", 0);
  }

  lemma MapRoleOfAdscripto()
    ensures MapRole(UpperLabel(Adscripto)) == Adscripto
  {
    var up := UpperLabel(Adscripto);
    MissingChar(up, "JEFE", 'J');
    MissingChar(up, "SUPERVISOR", 'U');
    MissingChar(up, "INSTRUCTOR", 'N');
    MissingChar(up, "PRACTICANTE", 'N');
    assert OccursAt(up, "ADSCRIPTO", 0);
  }

  /** The role column the export writes reads back, once normalized to upper case, as the same role. */
  lemma RoleLabelRoundTrip(role: Role)
    ensures MapRole(ToUpper(RoleToLabel(role))) == role
  {
    UpperOfLabel(role);
    MapRoleOfUpperLabel(role);
  }

  // ----- parseMonthYearFromSheetName -----

  /** `(19|20)\d{2}` matches at position `i`. */
  predicate YearAt(s: string, i: int) {
    0 <= i <= |s| - 4 && (s[i..i + 2] == "19" || s[i..i + 2] == "20") && IsDigit(s[i + 2]) && IsDigit(s[i + 3])
  }

  /** The leftmost year match at or after position `from`, as its position. */
  function YearFrom(s: string, from: nat): (r: Option<nat>)
    ensures r.None? ==> forall i :: from <= i ==> !YearAt(s, i)
    ensures r.Some? ==> from <= r.value && YearAt(s, r.value) && forall i :: from <= i < r.value ==> !YearAt(s, i)
    decreases |s| - from
  {
    if |s| < from + 4 then None
    else if YearAt(s, from) then Some(from)
    else YearFrom(s, from + 1)
  }

  /** `Number` of the four matched characters. */
  function YearValue(s: string, i: int): (y: nat)
    requires YearAt(s, i)
    ensures 1900 <= y <= 2099
    ensures DecimalValue(s[i..i + 4]) == Some(y)
  {
    var w := s[i..i + 4];
    var w1, w2, w3 := w[..1], w[..2], w[..3];
    assert w1[..0] == [] && w2[..1] == w1 && w3[..2] == w2 && w[..3] == w3;
    assert w[..2] == s[i..i + 2];
    var d0, d1, d2, d3 := DigitValue(w[0]), DigitValue(w[1]), DigitValue(w[2]), DigitValue(w[3]);
    assert DecimalValue(w1) == Some(d0);
    assert DecimalValue(w2) == Some(10 * d0 + d1);
    assert DecimalValue(w3) == Some(100 * d0 + 10 * d1 + d2);
    assert DecimalValue(w) == Some(1000 * d0 + 100 * d1 + 10 * d2 + d3);
    (if s[i + 1] == '9' then 1900 else 2000) + 10 * d2 + d3
  }

  /** `i` is the leftmost match. */
  predicate FirstYearAt(s: string, i: int) {
    YearAt(s, i) && forall j :: 0 <= j < i ==> !YearAt(s, j)
  }

  /** The year `match(/(19|20)\d{2}/)` finds, if any. */
  function FindYear(s: string): (r: Option<nat>)
    ensures r.None? <==> forall i :: 0 <= i ==> !YearAt(s, i)
    ensures r.Some? ==> 1900 <= r.value <= 2099
    ensures r.Some? ==> exists i :: FirstYearAt(s, i) && DecimalValue(s[i..i + 4]) == Some(r.value)
  {
    match YearFrom(s, 0)
    case None => None
    case Some(i) =>
      assert FirstYearAt(s, i);
      Some(YearValue(s, i))
  }

  /** The first month whose upper-cased label the name contains, from position `k` on. */
  function MonthFrom(name: string, k: nat): (r: Option<nat>)
    requires k <= |MonthLabels|
    ensures r.None? ==> forall j :: k <= j < |MonthLabels| ==> !Includes(name, ToUpper(MonthLabels[j]))
    ensures r.Some? ==> k <= r.value < |MonthLabels| && Includes(name, ToUpper(MonthLabels[r.value]))
    ensures r.Some? ==> forall j :: k <= j < r.value ==> !Includes(name, ToUpper(MonthLabels[j]))
    decreases |MonthLabels| - k
  {
    if k == |MonthLabels| then None
    else if Includes(name, ToUpper(MonthLabels[k])) then Some(k)
    else MonthFrom(name, k + 1)
  }

  datatype MonthYear = MonthYear(year: int, month: int)

  /**
   * `parseMonthYearFromSheetName`: no result when no month label occurs;
   * otherwise the first listed month that occurs, and the year found in the
   * name or else `currentYear` (the clock's year, a parameter here).
   */
  function ParseMonthYearFromSheetName(name: string, currentYear: int): (r: Option<MonthYear>)
    ensures r.None? <==> forall k :: 0 <= k < 12 ==> !Includes(name, ToUpper(MonthLabels[k]))
    ensures r.Some? ==> 1 <= r.value.month <= 12 && Includes(name, ToUpper(MonthLabels[r.value.month - 1]))
    ensures r.Some? ==> forall k :: 0 <= k < r.value.month - 1 ==> !Includes(name, ToUpper(MonthLabels[k]))
    ensures r.Some? && FindYear(name).Some? ==> r.value.year == FindYear(name).value
    ensures r.Some? && FindYear(name).None? ==> r.value.year == currentYear
  {
    match MonthFrom(name, 0)
    case None => None
    case Some(k) =>
      var year := match FindYear(name) case Some(y) => y case None => currentYear;
      Some(MonthYear(year, k + 1))
  }

  /** The monthly sheet the export writes is named `MES`, which names no month. */
  lemma ExportedSheetNameHasNoMonth(currentYear: int)
    ensures ParseMonthYearFromSheetName("MES", currentYear).None?
  {
    forall k | 0 <= k < 12 ensures !Includes("MES", ToUpper(MonthLabels[k])) {
      assert |ToUpper(MonthLabels[k])| > 3;
    }
  }

  /** A sheet named after a month and a year reads as that month and year, whatever the clock says. */
  lemma MonthAndYearSheetName(currentYear: int)
    ensures ParseMonthYearFromSheetName("MARZO 2025", currentYear) == Some(MonthYear(2025, 3))
  {
    var name := "MARZO 2025";
    assert ToUpper(MonthLabels[0]) == "ENERO";
    assert ToUpper(MonthLabels[1]) == "FEBRERO";
    assert ToUpper(MonthLabels[2]) == "MARZO";
    MissingChar(name, "ENERO", 'E');
    MissingChar(name, "FEBRERO", 'F');
    assert OccursAt(name, "MARZO", 0);
    assert MonthFrom(name, 0) == Some(2);
    assert YearAt(name, 6) && name[6..10] == "2025";
    forall j | 0 <= j < 6 ensures !YearAt(name, j) {
      assert name[j] != '1' && name[j] != '2';
      assert name[j..j + 2][0] == name[j];
    }
    assert FirstYearAt(name, 6);
    assert YearFrom(name, 0) == Some(6);
    assert YearValue(name, 6) == 2025;
  }
}
