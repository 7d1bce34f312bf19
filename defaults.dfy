/**
 * `src/defaults.ts`: the empty and the seeded data set, the order-preserving
 * de-duplication of shift lists, and the personal-condition rules that patch
 * the seeded roster. The seeded records carry four fields that the roster
 * record of the engine does not have (`allowedShifts`, `disallowedShifts`,
 * `preferredShifts`, `isAdscripto`); they are kept in `SeededController`.
 */
module Defaults {
  import opened Common
  import opened Text
  import opened Types

  /** `MONTH_LABELS`, January first. */
  const MonthLabels: seq<string> := [
    "Enero", "Febrero", "Marzo", "Abril", "Mayo", "Junio",
    "Julio", "Agosto", "Septiembre", "Octubre", "Noviembre", "Diciembre"
  ]

  /** `ROLE_OPTIONS`: each role with its display label. */
  const RoleOptions: seq<(Role, string)> := [
    (JefeDependencia, "Jefe dependencia"),
    (Supervisor, "Supervisor"),
    (Instructor, "Instructor"),
    (Operador, "Operador"),
    (Practicante, "Practicante"),
    (Adscripto, "Adscripto")
  ]

  /** `createEmptyData`: the given month with nothing in it. */
  function CreateEmptyData(year: int, month: int): (d: TurneroData)
    ensures d.year == year && d.month == month
    ensures Ids(d.controllers) == {} && d.coverageOverrides == [] && d.vacations == []
    ensures d.weekdayBlocks == [] && d.dateBlocks == [] && d.forcedAssignments == []
    ensures d.holidays == [] && d.monthlyNotes == ""
  {
    TurneroData(year, month, [], [], [], [], [], [], [], "")
  }

  // ----- uniqueShiftList -----

  /** The first occurrence of every value, in the order of first occurrence. */
  function Dedup<T(==, !new)>(xs: seq<T>): (r: seq<T>)
    ensures NoDuplicates(r)
    ensures forall x :: x in r <==> x in xs
    ensures |r| <= |xs|
  {
    if xs == [] then []
    else
      var last := xs[|xs| - 1];
      var rest := Dedup(xs[..|xs| - 1]);
      assert xs == xs[..|xs| - 1] + [last];
      if last in rest then rest else rest + [last]
  }

  /** `uniqueShiftList`: a `Set` of seen shifts and a result array filled in one pass. */
  method UniqueShiftList(values: seq<ShiftCode>) returns (result: seq<ShiftCode>)
    ensures result == Dedup(values)
  {
    var seen: set<ShiftCode> := {};
    result := [];
    for k := 0 to |values|
      invariant result == Dedup(values[..k])
      invariant forall s :: s in seen <==> s in result
    {
      var shift := values[k];
      assert values[..k + 1][..k] == values[..k];
      if shift !in seen {
        seen := seen + {shift};
        result := result + [shift];
      }
    }
    assert values[..|values|] == values;
  }

  /** Looking an element up in a longer list finds it where the shorter list has it. */
  lemma {:induction false} IndexOfExtend<T>(p: seq<T>, x: T, y: T)
    requires y in p
    ensures IndexOf(p + [x], y) == IndexOf(p, y)
  {
    if p[0] != y {
      assert (p + [x])[1..] == p[1..] + [x];
      IndexOfExtend(p[1..], x, y);
    }
  }

  /** The values appear in the order of their first occurrence in the input. */
  lemma {:induction false} DedupFirstOccurrenceOrder<T(!new)>(xs: seq<T>)
    ensures forall i, j :: 0 <= i < j < |Dedup(xs)| ==> IndexOf(xs, Dedup(xs)[i]) < IndexOf(xs, Dedup(xs)[j])
  {
    if xs != [] {
      var p := xs[..|xs| - 1];
      var last := xs[|xs| - 1];
      assert xs == p + [last];
      var rest := Dedup(p);
      DedupFirstOccurrenceOrder(p);
      forall y | y in rest ensures IndexOf(xs, y) == IndexOf(p, y) {
        IndexOfExtend(p, last, y);
      }
      if last !in rest {
        assert IndexOf(xs, last) == |p|;
      }
    }
  }

  /** A list without duplicates is its own de-duplication. */
  lemma {:induction false} DedupOfDistinct<T(!new)>(xs: seq<T>)
    requires NoDuplicates(xs)
    ensures Dedup(xs) == xs
  {
    if xs != [] {
      var p := xs[..|xs| - 1];
      DedupOfDistinct(p);
      assert xs == p + [xs[|xs| - 1]];
    }
  }

  /** De-duplicating twice is de-duplicating once. */
  lemma DedupIdempotent<T(!new)>(xs: seq<T>)
    ensures Dedup(Dedup(xs)) == Dedup(xs)
  {
    DedupOfDistinct(Dedup(xs));
  }

  // ----- applyPersonalConditionSeeds -----

  /** A roster entry as `applyPersonalConditionSeeds` receives it: the seed fields may be absent. */
  datatype SeedInput = SeedInput(
    controller: Controller,
    allowedShifts: Option<seq<ShiftCode>>,
    disallowedShifts: Option<seq<ShiftCode>>,
    preferredShifts: Option<seq<ShiftCode>>,
    isAdscripto: Option<bool>)

  /** A roster entry with every seed field present. */
  datatype SeededController = SeededController(
    controller: Controller,
    allowedShifts: seq<ShiftCode>,
    disallowedShifts: seq<ShiftCode>,
    preferredShifts: seq<ShiftCode>,
    isAdscripto: bool)

  /** The fields a rule overrides; an absent field keeps the entry's value. */
  datatype Patch = Patch(
    allowedShifts: Option<seq<ShiftCode>>,
    disallowedShifts: Option<seq<ShiftCode>>,
    preferredShifts: Option<seq<ShiftCode>>,
    isAdscripto: Option<bool>)

  /** A rule applies to the first entry whose lower-cased name contains `pattern`. */
  datatype SeedRule = SeedRule(pattern: string, patch: Patch)

  /** `PERSONAL_SEED_RULES`, applied in this order. */
  const PersonalSeedRules: seq<SeedRule> := [
    SeedRule("tomo", Patch(Some([B]), None, None, None)),
    SeedRule("ferrari", Patch(None, Some([C]), None, None)),
    SeedRule("albarracin", Patch(Some([C]), None, None, Some(true))),
    SeedRule("siarez", Patch(Some([A]), None, None, Some(true))),
    SeedRule("persia", Patch(Some([A]), None, None, None))
  ]

  /** JavaScript's `??` on an optional value. */
  function OrElse<T>(o: Option<T>, d: T): T {
    if o.Some? then o.value else d
  }

  /** All three shift lists are free of duplicates. */
  predicate Tidy(c: SeededController) {
    NoDuplicates(c.allowedShifts) && NoDuplicates(c.disallowedShifts) && NoDuplicates(c.preferredShifts)
  }

  /** The `map` step: absent lists become empty, lists are de-duplicated, and `isAdscripto` defaults to the role. */
  function Prepare(c: SeedInput): (r: SeededController)
    ensures Tidy(r) && r.controller == c.controller
    ensures c.isAdscripto.None? ==> (r.isAdscripto <==> c.controller.role == Adscripto)
    ensures c.isAdscripto.Some? ==> r.isAdscripto == c.isAdscripto.value
    ensures forall s :: s in r.allowedShifts <==> c.allowedShifts.Some? && s in c.allowedShifts.value
    ensures forall s :: s in r.disallowedShifts <==> c.disallowedShifts.Some? && s in c.disallowedShifts.value
    ensures forall s :: s in r.preferredShifts <==> c.preferredShifts.Some? && s in c.preferredShifts.value
  {
    SeededController(
      c.controller,
      Dedup(OrElse(c.allowedShifts, [])),
      Dedup(OrElse(c.disallowedShifts, [])),
      Dedup(OrElse(c.preferredShifts, [])),
      OrElse(c.isAdscripto, c.controller.role == Adscripto))
  }

  function Prepared(cs: seq<SeedInput>): (r: seq<SeededController>)
    ensures |r| == |cs|
    ensures forall i :: 0 <= i < |r| ==> Tidy(r[i]) && r[i].controller == cs[i].controller
  {
    seq(|cs|, i requires 0 <= i < |cs| => Prepare(cs[i]))
  }

  /** `normalizeName(name).includes(pattern)`, for names without diacritics. */
  predicate NameMatches(c: SeededController, pattern: string) {
    Includes(ToLower(c.controller.name), pattern)
  }

  /** `findIndex`: the first entry whose name matches. */
  function FindMatch(list: seq<SeededController>, pattern: string): (r: Option<nat>)
    ensures r.None? <==> forall j :: 0 <= j < |list| ==> !NameMatches(list[j], pattern)
    ensures r.Some? ==> r.value < |list| && NameMatches(list[r.value], pattern)
    ensures r.Some? ==> forall j :: 0 <= j < r.value ==> !NameMatches(list[j], pattern)
  {
    if list == [] then None
    else if NameMatches(list[0], pattern) then Some(0)
    else
      assert forall j :: 1 <= j < |list| ==> list[1..][j - 1] == list[j];
      match FindMatch(list[1..], pattern)
      case None => None
      case Some(i) => Some(i + 1)
  }

  /** De-duplicating the lists of a tidy entry changes nothing. */
  lemma TidyDedup(c: SeededController)
    ensures Tidy(c) ==> Dedup(c.allowedShifts) == c.allowedShifts
    ensures Tidy(c) ==> Dedup(c.disallowedShifts) == c.disallowedShifts
    ensures Tidy(c) ==> Dedup(c.preferredShifts) == c.preferredShifts
  {
    if Tidy(c) {
      DedupOfDistinct(c.allowedShifts);
      DedupOfDistinct(c.disallowedShifts);
      DedupOfDistinct(c.preferredShifts);
    }
  }

  /** The record a rule writes: patched fields are replaced, lists de-duplicated, the rest kept. */
  function Patched(c: SeededController, p: Patch): (r: SeededController)
    ensures r.controller == c.controller && Tidy(r)
    ensures p.allowedShifts.Some? ==> forall s :: s in r.allowedShifts <==> s in p.allowedShifts.value
    ensures p.disallowedShifts.Some? ==> forall s :: s in r.disallowedShifts <==> s in p.disallowedShifts.value
    ensures p.preferredShifts.Some? ==> forall s :: s in r.preferredShifts <==> s in p.preferredShifts.value
    ensures Tidy(c) && p.allowedShifts.None? ==> r.allowedShifts == c.allowedShifts
    ensures Tidy(c) && p.disallowedShifts.None? ==> r.disallowedShifts == c.disallowedShifts
    ensures Tidy(c) && p.preferredShifts.None? ==> r.preferredShifts == c.preferredShifts
    ensures p.isAdscripto.None? ==> r.isAdscripto == c.isAdscripto
    ensures p.isAdscripto.Some? ==> r.isAdscripto == p.isAdscripto.value
  {
    TidyDedup(c);
    SeededController(
      c.controller,
      Dedup(OrElse(p.allowedShifts, c.allowedShifts)),
      Dedup(OrElse(p.disallowedShifts, c.disallowedShifts)),
      Dedup(OrElse(p.preferredShifts, c.preferredShifts)),
      OrElse(p.isAdscripto, c.isAdscripto))
  }

  /** One rule: the first matching entry is patched, or nothing changes when none matches. */
  function ApplyRule(list: seq<SeededController>, rule: SeedRule): (r: seq<SeededController>)
    ensures |r| == |list|
    ensures forall j :: 0 <= j < |r| ==> r[j].controller == list[j].controller
    ensures forall j :: 0 <= j < |r| && r[j] != list[j] ==> FindMatch(list, rule.pattern) == Some(j)
    ensures FindMatch(list, rule.pattern).None? ==> r == list
    ensures FindMatch(list, rule.pattern).Some? ==>
      var i := FindMatch(list, rule.pattern).value; r[i] == Patched(list[i], rule.patch)
  {
    match FindMatch(list, rule.pattern)
    case None => list
    case Some(i) => list[i := Patched(list[i], rule.patch)]
  }

  /** The rules applied one after the other. */
  function ApplyRules(list: seq<SeededController>, rules: seq<SeedRule>): (r: seq<SeededController>)
    ensures |r| == |list|
    ensures forall j :: 0 <= j < |r| ==> r[j].controller == list[j].controller
    ensures (forall j :: 0 <= j < |list| ==> Tidy(list[j])) ==> forall j :: 0 <= j < |r| ==> Tidy(r[j])
  {
    if rules == [] then list
    else ApplyRule(ApplyRules(list, rules[..|rules| - 1]), rules[|rules| - 1])
  }

  /** An entry whose name no rule matches comes out exactly as it went in. */
  lemma {:induction false} UnmatchedUntouched(list: seq<SeededController>, rules: seq<SeedRule>, j: int)
    requires 0 <= j < |list|
    requires forall k :: 0 <= k < |rules| ==> !NameMatches(list[j], rules[k].pattern)
    ensures ApplyRules(list, rules)[j] == list[j]
  {
    if rules != [] {
      var front := rules[..|rules| - 1];
      var before := ApplyRules(list, front);
      UnmatchedUntouched(list, front, j);
      var rule := rules[|rules| - 1];
      assert !NameMatches(before[j], rule.pattern);
    }
  }

  /** `applyPersonalConditionSeeds`: prepare every entry, then let each rule overwrite its first match in place. */
  method ApplyPersonalConditionSeeds(controllers: seq<SeedInput>) returns (seeded: seq<SeededController>)
    ensures seeded == ApplyRules(Prepared(controllers), PersonalSeedRules)
  {
    seeded := Prepared(controllers);
    ghost var start := seeded;
    var rules := PersonalSeedRules;
    for k := 0 to |rules|
      invariant seeded == ApplyRules(start, rules[..k])
    {
      var rule := rules[k];
      assert rules[..k + 1][..k] == rules[..k];
      var index := FindMatch(seeded, rule.pattern);
      if index.None? {
        continue;
      }
      var i := index.value;
      var c := seeded[i];
      var allowed := UniqueShiftList(OrElse(rule.patch.allowedShifts, c.allowedShifts));
      var disallowed := UniqueShiftList(OrElse(rule.patch.disallowedShifts, c.disallowedShifts));
      var preferred := UniqueShiftList(OrElse(rule.patch.preferredShifts, c.preferredShifts));
      seeded := seeded[i := SeededController(c.controller, allowed, disallowed, preferred, OrElse(rule.patch.isAdscripto, c.isAdscripto))];
    }
    assert rules[..|rules|] == rules;
  }

  // ----- createSeedData -----

  /** `DEFAULT_EANA_CONTROLLERS`: name and role of each default person, in roster order. */
  const DefaultControllers: seq<(string, Role)> := [
    ("PERSIA, MARIA EMILIA", JefeDependencia),
    ("BLANCAT, MARTIN GUSTAVO", Instructor),
    ("LOPEZ, DANIEL JOSIAS", Instructor),
    ("MENDEZ, SILVIA LORENA", Instructor),
    ("MIRANDA, ANDRES DE REYES", Supervisor),
    ("MOLINA, GUILLERMO", Supervisor),
    ("PEDROSO, ROMINA", Supervisor),
    ("BARRERA, LUCIANO JULIAN", Operador),
    ("BAZAN NYBROE, LEANDRO MARTIN", Operador),
    ("BRANDI, LUCIANO ANDRES", Operador),
    ("CATTANEO, CARLA GISELLA", Operador),
    ("CHAPOR, SOFIA NAHIR", Operador),
    ("FERRARI, CLAUDIO GABRIEL", Operador),
    ("OSSOLA, MAURICIO JOSE", Operador),
    ("PINTOS, JUANA MARIA JOAQUINA", Operador),
    ("TEJADA, GASPAR", Operador),
    ("TOMO, JORGE ALBERTO", Operador),
    ("BELASCUAIN, MARIA BERNARDITA", Practicante),
    ("ALBARRACIN, ALEJANDRO", Adscripto),
    ("SIAREZ, MARIA CECILIA", Adscripto)
  ]

  /** The note `createSeedData` stores for the month. */
  const SeedNotes: string := "UTC fijo -3. Regla activa: Jefe de dependencia puede asignarse en A/B, pero no en turno C."

  /** The id of the default person at position `index`: `ctrl-` and `index + 1` padded to two digits. */
  function SeedId(index: nat): string {
    "ctrl-" + PadStart(NatToString(index + 1), 2, '0')
  }

  /** The digits after `ctrl-` read back as the one-based position. */
  lemma SeedIdNumber(index: nat)
    ensures StartsWith(SeedId(index), "ctrl-")
    ensures DecimalValue(SeedId(index)[5..]) == Some(index + 1)
  {
    var digits := PadStart(NatToString(index + 1), 2, '0');
    assert SeedId(index)[5..] == digits;
    DecimalOfNatToString(index + 1);
    ZeroPaddedValue(NatToString(index + 1), 2);
  }

  /** Below 99 the id has exactly two digits after the prefix. */
  lemma SeedIdTwoDigits(index: nat)
    requires index < 99
    ensures SeedId(index) == "ctrl-" + FixedDigits(index + 1, 2)
  {
    PaddedIsFixed(index + 1, 2);
  }

  /** Different positions get different ids. */
  lemma SeedIdsDistinct(i: nat, j: nat)
    requires i != j
    ensures SeedId(i) != SeedId(j)
  {
    SeedIdNumber(i);
    SeedIdNumber(j);
  }

  /** The roster `createSeedData` hands to the seeding rules: empty lists, `isAdscripto` from the role. */
  function BaseControllers(): (r: seq<SeedInput>)
    ensures |r| == |DefaultControllers|
    ensures forall i :: 0 <= i < |r| ==>
      r[i].controller == Controller(SeedId(i), DefaultControllers[i].0, DefaultControllers[i].1, "", 0)
  {
    seq(|DefaultControllers|, i requires 0 <= i < |DefaultControllers| =>
      SeedInput(
        Controller(SeedId(i), DefaultControllers[i].0, DefaultControllers[i].1, "", 0),
        Some([]), Some([]), Some([]),
        Some(DefaultControllers[i].1 == Adscripto)))
  }

  /** The engine's view of a seeded roster: the seed fields dropped. */
  function Roster(seeded: seq<SeededController>): (r: seq<Controller>)
    ensures |r| == |seeded|
    ensures forall i :: 0 <= i < |r| ==> r[i] == seeded[i].controller
  {
    seq(|seeded|, i requires 0 <= i < |seeded| => seeded[i].controller)
  }

  /**
   * `createSeedData`: the empty month with the seeded default roster and the
   * seed note. `seeded` is the same roster with its seed fields.
   */
  method CreateSeedData(year: int, month: int) returns (data: TurneroData, seeded: seq<SeededController>)
    ensures seeded == ApplyRules(Prepared(BaseControllers()), PersonalSeedRules)
    ensures data == CreateEmptyData(year, month).(controllers := Roster(seeded), monthlyNotes := SeedNotes)
    ensures |data.controllers| == |DefaultControllers|
    ensures forall i :: 0 <= i < |data.controllers| ==>
      data.controllers[i] == Controller(SeedId(i), DefaultControllers[i].0, DefaultControllers[i].1, "", 0)
    ensures UniqueIds(data.controllers)
    ensures forall i :: 0 <= i < |seeded| ==> Tidy(seeded[i])
  {
    seeded := ApplyPersonalConditionSeeds(BaseControllers());
    data := CreateEmptyData(year, month).(controllers := Roster(seeded), monthlyNotes := SeedNotes);
    forall i, j | 0 <= i < j < |data.controllers| ensures data.controllers[i].id != data.controllers[j].id {
      SeedIdsDistinct(i, j);
    }
  }
}
