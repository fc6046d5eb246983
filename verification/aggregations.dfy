/** The three rollups of the merged table and the headline figures computed from
    them (app.py, `gap_por_skill`, `gap_por_persona`, `gap_por_rol_area` and
    `kpis_agregados`, lines 45-96). Each rollup groups the rows, summarises every
    group, and sorts the summaries descending on two columns. */
module Aggregations {
  import opened Nullable
  import opened Seqs
  import opened Ordering
  import opened Grouping
  import opened Records

  // ---------------------------------------------------------------------------
  // Column reductions over the rows of one group, with pandas' skip-missing rules
  // ---------------------------------------------------------------------------

  /** `gap_pos` with a missing value read as 0, which is what `sum` does with NaN. */
  function GapPosOrZero(r: GapRecord): real
  {
    OrZero(r.gapPos)
  }

  /** A constant-one column, for counting rows as a sum. */
  function One(r: GapRecord): real
  {
    1.0
  }

  function EmployeeIdOf(r: GapRecord): string
  {
    r.employeeId
  }

  /** The distinct employee ids of some rows. */
  function EmployeeIds(m: seq<GapRecord>): set<string>
  {
    set x | x in m :: x.employeeId
  }

  /** `("employee_id", "nunique")` counts the distinct employee ids. */
  lemma NUniqueEmployees(m: seq<GapRecord>)
    ensures NUnique(m, EmployeeIdOf) == |EmployeeIds(m)|
  {
    var ids := Image(m, EmployeeIdOf);
    forall y | y in ids ensures y in EmployeeIds(m) {
      var x :| x in m && EmployeeIdOf(x) == y;
    }
    forall y | y in EmployeeIds(m) ensures y in ids {
      var x :| x in m && x.employeeId == y;
      assert EmployeeIdOf(x) in ids;
    }
    assert ids == EmployeeIds(m);
  }

  function HasGap(r: GapRecord): bool
  {
    r.tieneGap
  }

  function HasGapPos(r: GapRecord): bool
  {
    r.gapPos.Some?
  }

  /** `("tiene_gap", "sum")`: the rows with a positive gap. */
  function CountWithGap(m: seq<GapRecord>): nat
  {
    CountIf(m, HasGap)
  }

  /** `("gap_pos", "mean")`: the mean over the rows whose `gap_pos` is defined;
      missing when there is none. */
  function MeanGapPos(m: seq<GapRecord>): (r: Option<real>)
    ensures r.None? <==> forall x :: x in m ==> x.gapPos.None?
    ensures r.Some? ==> Times(CountIf(m, HasGapPos), r.value) == Sum(m, GapPosOrZero)
    ensures r.None? ==> Sum(m, GapPosOrZero) == 0.0
  {
    var defined := Filter(m, HasGapPos);
    if |defined| == 0 then
      SumOfZeros(m, GapPosOrZero);
      None
    else
      assert defined[0] in defined;
      var mean := Sum(m, GapPosOrZero) / |defined| as real;
      TimesQuotient(|defined|, Sum(m, GapPosOrZero));
      Some(mean)
  }

  /** `GapRecord.tiene_gap` as a 0/1 column, which is what `sum` adds up. */
  function GapIndicator(r: GapRecord): real
  {
    if r.tieneGap then 1.0 else 0.0
  }

  /** The mean lies between any lower and upper bound of the defined `gap_pos`
      values, so between the least and the greatest of them. */
  lemma MeanGapPosBetween(m: seq<GapRecord>, lo: real, hi: real)
    requires forall x :: x in m && x.gapPos.Some? ==> lo <= x.gapPos.value <= hi
    ensures MeanGapPos(m).Some? ==> lo <= MeanGapPos(m).value <= hi
  {
    var defined := Filter(m, HasGapPos);
    if |defined| > 0 {
      var total := Sum(m, GapPosOrZero);
      assert MeanGapPos(m) == Some(total / |defined| as real);
      SumFilterZero(m, HasGapPos, GapPosOrZero);
      SumAtLeast(defined, GapPosOrZero, lo);
      SumAtMost(defined, GapPosOrZero, hi);
      TimesCancel(|defined|, lo, MeanGapPos(m).value);
      TimesCancel(|defined|, MeanGapPos(m).value, hi);
    }
  }

  /** `("peso", "max")`: the largest defined weight; missing when every weight is. */
  function MaxPeso(m: seq<GapRecord>): (r: Option<real>)
    ensures r.None? <==> forall x :: x in m ==> x.peso.None?
    ensures r.Some? ==> exists x :: x in m && x.peso == r
    ensures r.Some? ==> forall x :: x in m && x.peso.Some? ==> x.peso.value <= r.value
  {
    if m == [] then None
    else
      var rest := MaxPeso(m[1..]);
      assert forall x :: x in m ==> x == m[0] || x in m[1..];
      match m[0].peso
      case None => rest
      case Some(p) =>
        if rest.None? || rest.value < p then Some(p) else rest
  }

  /** Row-level facts behind the bounds on a group's gap figures. */
  lemma GroupGapFigures(m: seq<GapRecord>)
    requires forall r :: r in m ==> WellDerived(r)
    ensures Sum(m, GapPosOrZero) >= 0.0
    ensures MeanGapPos(m).Some? ==> MeanGapPos(m).value >= 0.0
  {
    GapPosSumNonNegative(m);
    MeanOfNonNegative(m);
  }

  /** Positive gaps are never negative, so neither is their sum. */
  lemma GapPosSumNonNegative(m: seq<GapRecord>)
    requires forall r :: r in m ==> WellDerived(r)
    ensures Sum(m, GapPosOrZero) >= 0.0
  {
    forall r | r in m ensures GapPosOrZero(r) >= 0.0 {
      assert WellDerived(r);
    }
    SumNonNegative(m, GapPosOrZero);
  }

  /** The mean of a non-negative total is non-negative. */
  lemma MeanOfNonNegative(m: seq<GapRecord>)
    requires Sum(m, GapPosOrZero) >= 0.0
    ensures MeanGapPos(m).Some? ==> MeanGapPos(m).value >= 0.0
  {
    var defined := Filter(m, HasGapPos);
    if |defined| > 0 {
      var total := Sum(m, GapPosOrZero);
      var count := |defined| as real;
      assert MeanGapPos(m) == Some(total / count);
    }
  }

  // ---------------------------------------------------------------------------
  // gap_por_skill
  // ---------------------------------------------------------------------------

  /** One row of `gap_por_skill`. */
  datatype SkillGap = SkillGap(
    skill: string,
    categoria: string,
    empleadosTotal: nat,
    empleadosConGap: nat,
    gapPromedio: Option<real>,
    gapTotal: real,
    peso: Option<real>,
    pctEmpleadosConGap: Option<real>)

  /** Grouping key `(skill, categoria_skill)`; rows without a category fall out. */
  function SkillKey(r: GapRecord): Option<(string, string)>
  {
    if r.categoria.Some? then Some((r.skill, r.categoria.value)) else None
  }

  /** The aggregate row of one skill group. */
  function SummarizeSkill(k: (string, string), m: seq<GapRecord>): (g: SkillGap)
    ensures g.skill == k.0 && g.categoria == k.1
    ensures g.empleadosConGap <= |m| && g.empleadosTotal <= |m|
    ensures g.empleadosTotal == |EmployeeIds(m)|
    ensures |m| > 0 ==> g.empleadosTotal >= 1 && g.pctEmpleadosConGap.Some?
    ensures g.empleadosConGap == 0 <==> forall x :: x in m ==> !x.tieneGap
    ensures g.gapPromedio == MeanGapPos(m) && g.peso == MaxPeso(m)
    ensures g.gapPromedio.Some? ==> Times(CountIf(m, HasGapPos), g.gapPromedio.value) == g.gapTotal
    ensures g.gapPromedio.None? ==> g.gapTotal == 0.0
    ensures g.pctEmpleadosConGap.Some? ==>
      Times(g.empleadosTotal, g.pctEmpleadosConGap.value) == 100.0 * g.empleadosConGap as real
  {
    var total := NUnique(m, EmployeeIdOf);
    NUniqueEmployees(m);
    var withGap := CountWithGap(m);
    SkillGap(k.0, k.1, total, withGap, MeanGapPos(m), Sum(m, GapPosOrZero), MaxPeso(m), Percent(withGap, total))
  }

  /** Sort columns `["gap_total", "pct_empleados_con_gap"]`. */
  function SkillRank(g: SkillGap): Rank
  {
    Rank(Some(g.gapTotal), g.pctEmpleadosConGap)
  }

  function SkillGapTotal(g: SkillGap): real
  {
    g.gapTotal
  }

  /** `gap_por_skill`: the skill groups, sorted by total then percentage, descending. */
  function BySkill(df: seq<GapRecord>): (out: seq<SkillGap>)
    ensures multiset(out) == multiset(Rollup(df, SkillKey, SummarizeSkill))
    ensures SortedDesc(out, SkillRank)
  {
    SortDesc(Rollup(df, SkillKey, SummarizeSkill), SkillRank)
  }

  /** Every row of `gap_por_skill` summarises a non-empty group of `df`, and every
      row of `df` with a category is summarised by one of them. */
  lemma BySkillGroups(df: seq<GapRecord>)
    ensures forall g :: g in BySkill(df) ==>
      var m := Members(df, SkillKey, (g.skill, g.categoria));
      |m| > 0 && g == SummarizeSkill((g.skill, g.categoria), m)
    ensures forall r :: r in df && r.categoria.Some? ==>
      SummarizeSkill((r.skill, r.categoria.value), Members(df, SkillKey, (r.skill, r.categoria.value))) in BySkill(df)
  {
    RollupGroups(df, SkillKey, SummarizeSkill);
    var out := BySkill(df);
    forall g | g in out
      ensures var m := Members(df, SkillKey, (g.skill, g.categoria));
              |m| > 0 && g == SummarizeSkill((g.skill, g.categoria), m)
    {
      var k := GroupOf(df, SkillKey, SummarizeSkill, out, g);
    }
    forall r | r in df && r.categoria.Some?
      ensures SummarizeSkill((r.skill, r.categoria.value), Members(df, SkillKey, (r.skill, r.categoria.value))) in out
    {
      assert SkillKey(r) == Some((r.skill, r.categoria.value));
      var g := SummarizeSkill((r.skill, r.categoria.value), Members(df, SkillKey, (r.skill, r.categoria.value)));
      assert g in multiset(Rollup(df, SkillKey, SummarizeSkill));
    }
  }

  /** Bounds on every row of `gap_por_skill`: at most as many employees with a gap
      as rows in the group, at least one employee evaluated, a non-negative total
      and mean gap. */
  lemma BySkillBounds(df: seq<GapRecord>)
    requires forall r :: r in df ==> WellDerived(r)
    ensures forall g :: g in BySkill(df) ==>
      && g.empleadosConGap <= |Members(df, SkillKey, (g.skill, g.categoria))|
      && g.empleadosTotal >= 1
      && g.gapTotal >= 0.0
      && (g.gapPromedio.Some? ==> g.gapPromedio.value >= 0.0)
      && g.pctEmpleadosConGap.Some? && g.pctEmpleadosConGap.value >= 0.0
  {
    BySkillGroups(df);
    forall g | g in BySkill(df)
      ensures g.gapTotal >= 0.0 && (g.gapPromedio.Some? ==> g.gapPromedio.value >= 0.0)
    {
      GroupGapFigures(Members(df, SkillKey, (g.skill, g.categoria)));
    }
  }

  /** Each `(employee_id, skill)` pair occurs at most once in the table. */
  predicate UniqueEmployeeSkill(df: seq<GapRecord>)
  {
    DistinctBy(df, EmployeeSkillKey)
  }

  function EmployeeSkillKey(r: GapRecord): (string, string)
  {
    (r.employeeId, r.skill)
  }

  /** Within one skill group of such a table, no employee appears twice. */
  lemma SkillGroupDistinctIds(df: seq<GapRecord>, k: (string, string))
    requires UniqueEmployeeSkill(df)
    ensures DistinctBy(Members(df, SkillKey, k), EmployeeIdOf)
  {
    var m := Members(df, SkillKey, k);
    MembersOfKey(df, SkillKey, k, EmployeeSkillKey);
    forall i, j | 0 <= i < j < |m| ensures EmployeeIdOf(m[i]) != EmployeeIdOf(m[j]) {
      assert m[i] in m && m[j] in m;
      assert EmployeeSkillKey(m[i]) != EmployeeSkillKey(m[j]);
    }
  }

  /** When no employee holds the same skill twice, the share of employees with a
      gap is a percentage: between 0 and 100. */
  lemma BySkillPercent(df: seq<GapRecord>)
    requires UniqueEmployeeSkill(df)
    ensures forall g :: g in BySkill(df) ==>
      g.pctEmpleadosConGap.Some? && 0.0 <= g.pctEmpleadosConGap.value <= 100.0
  {
    forall g | g in BySkill(df)
      ensures g.pctEmpleadosConGap.Some? && 0.0 <= g.pctEmpleadosConGap.value <= 100.0
    {
      var k := GroupOf(df, SkillKey, SummarizeSkill, BySkill(df), g);
      var m := Members(df, SkillKey, k);
      SkillGroupDistinctIds(df, k);
      NUniqueOfDistinct(m, EmployeeIdOf);
    }
  }

  function SkillRowKey(a: CurrentSkill): (string, string)
  {
    (a.employeeId, a.skill)
  }

  /** On the table built from unique employees, unique requirements and a skill
      table holding each (employee, skill) pair once, every percentage of
      `gap_por_skill` lies between 0 and 100. */
  lemma BuiltSkillPercent(emps: seq<Employee>, reqs: seq<Requirement>, acts: seq<CurrentSkill>)
    requires UniqueEmployees(emps) && UniqueRequirements(reqs)
    requires DistinctBy(acts, SkillRowKey)
    ensures forall g :: g in BySkill(BuildRecords(emps, reqs, acts)) ==>
      g.pctEmpleadosConGap.Some? && 0.0 <= g.pctEmpleadosConGap.value <= 100.0
  {
    var df := BuildRecords(emps, reqs, acts);
    BuildOneRowPerSkillRow(emps, reqs, acts);
    forall i, j | 0 <= i < j < |df| ensures EmployeeSkillKey(df[i]) != EmployeeSkillKey(df[j]) {
      assert EmployeeSkillKey(df[i]) == SkillRowKey(acts[i]);
      assert EmployeeSkillKey(df[j]) == SkillRowKey(acts[j]);
    }
    BySkillPercent(df);
  }

  /** Grouping by skill neither loses nor double counts gap: the totals of all
      rows of `gap_por_skill` add up to the `gap_pos` of every row with a category. */
  lemma BySkillConserves(df: seq<GapRecord>)
    ensures Sum(BySkill(df), SkillGapTotal) == Sum(Keyed(df, SkillKey), GapPosOrZero)
  {
    RollupConserves(df, SkillKey, SummarizeSkill, SkillGapTotal, GapPosOrZero);
    SumPermutation(BySkill(df), Rollup(df, SkillKey, SummarizeSkill), SkillGapTotal);
  }

  function SkillGapCount(g: SkillGap): real
  {
    g.empleadosConGap as real
  }

  /** The `empleados_con_gap` of `gap_por_skill` add up to the records with a
      category and `tiene_gap`. */
  lemma BySkillGapCountConserves(df: seq<GapRecord>)
    ensures Sum(BySkill(df), SkillGapCount) == CountIf(Keyed(df, SkillKey), HasGap) as real
  {
    forall k, m ensures SkillGapCount(SummarizeSkill(k, m)) == Sum(m, GapIndicator) {
      SumIndicator(m, HasGap, GapIndicator);
    }
    RollupConserves(df, SkillKey, SummarizeSkill, SkillGapCount, GapIndicator);
    SumPermutation(BySkill(df), Rollup(df, SkillKey, SummarizeSkill), SkillGapCount);
    SumIndicator(Keyed(df, SkillKey), HasGap, GapIndicator);
  }

  // ---------------------------------------------------------------------------
  // gap_por_persona
  // ---------------------------------------------------------------------------

  /** One row of `gap_por_persona`. */
  datatype PersonGap = PersonGap(
    employeeId: string,
    nombre: string,
    area: string,
    rol: string,
    skillsEvaluadas: nat,
    skillsConGap: nat,
    gapTotal: real,
    gapPromedio: Option<real>,
    pctSkillsConGap: Option<real>)

  /** Grouping key `(employee_id, nombre, area, rol)`; rows of unknown employees fall out. */
  function PersonKey(r: GapRecord): Option<(string, string, string, string)>
  {
    if r.nombre.Some? && r.area.Some? && r.rol.Some? then
      Some((r.employeeId, r.nombre.value, r.area.value, r.rol.value))
    else None
  }

  /** The aggregate row of one employee. */
  function SummarizePerson(k: (string, string, string, string), m: seq<GapRecord>): (g: PersonGap)
    ensures (g.employeeId, g.nombre, g.area, g.rol) == k
    ensures g.skillsEvaluadas == |m|
    ensures g.skillsConGap <= g.skillsEvaluadas
    ensures g.pctSkillsConGap.Some? <==> |m| > 0
    ensures g.pctSkillsConGap.Some? ==> 0.0 <= g.pctSkillsConGap.value <= 100.0
    ensures g.skillsConGap == 0 <==> forall x :: x in m ==> !x.tieneGap
    ensures g.gapPromedio == MeanGapPos(m)
    ensures g.gapPromedio.Some? ==> Times(CountIf(m, HasGapPos), g.gapPromedio.value) == g.gapTotal
    ensures g.gapPromedio.None? ==> g.gapTotal == 0.0
    ensures g.pctSkillsConGap.Some? ==>
      Times(g.skillsEvaluadas, g.pctSkillsConGap.value) == 100.0 * g.skillsConGap as real
  {
    var withGap := CountWithGap(m);
    PersonGap(k.0, k.1, k.2, k.3, |m|, withGap, Sum(m, GapPosOrZero), MeanGapPos(m), Percent(withGap, |m|))
  }

  /** Sort columns `["gap_total", "pct_skills_con_gap"]`. */
  function PersonRank(g: PersonGap): Rank
  {
    Rank(Some(g.gapTotal), g.pctSkillsConGap)
  }

  function PersonIdOf(g: PersonGap): string
  {
    g.employeeId
  }

  function PersonSkillCount(g: PersonGap): real
  {
    g.skillsEvaluadas as real
  }

  /** `gap_por_persona`: the employee groups, sorted by total then percentage, descending. */
  function ByPerson(df: seq<GapRecord>): (out: seq<PersonGap>)
    ensures multiset(out) == multiset(Rollup(df, PersonKey, SummarizePerson))
    ensures SortedDesc(out, PersonRank)
  {
    SortDesc(Rollup(df, PersonKey, SummarizePerson), PersonRank)
  }

  /** Every row of `gap_por_persona` summarises a non-empty group: at most as many
      skills with a gap as skills evaluated, a percentage between 0 and 100 and,
      on a derived table, a non-negative total gap. */
  lemma ByPersonBounds(df: seq<GapRecord>)
    requires forall r :: r in df ==> WellDerived(r)
    ensures forall g :: g in ByPerson(df) ==>
      && 1 <= g.skillsEvaluadas
      && g.skillsConGap <= g.skillsEvaluadas
      && g.pctSkillsConGap.Some? && 0.0 <= g.pctSkillsConGap.value <= 100.0
      && g.gapTotal >= 0.0
  {
    forall g | g in ByPerson(df)
      ensures && 1 <= g.skillsEvaluadas
              && g.skillsConGap <= g.skillsEvaluadas
              && g.pctSkillsConGap.Some? && 0.0 <= g.pctSkillsConGap.value <= 100.0
              && g.gapTotal >= 0.0
    {
      var k := GroupOf(df, PersonKey, SummarizePerson, ByPerson(df), g);
      GroupGapFigures(Members(df, PersonKey, k));
    }
  }

  /** Grouping by employee neither loses nor double counts rows: the skills
      evaluated add up to the rows of known employees. */
  lemma ByPersonConserves(df: seq<GapRecord>)
    ensures Sum(ByPerson(df), PersonSkillCount) == |Keyed(df, PersonKey)| as real
  {
    forall k, m ensures PersonSkillCount(SummarizePerson(k, m)) == Sum(m, One) {
      SumOfOnes(m, One);
    }
    RollupConserves(df, PersonKey, SummarizePerson, PersonSkillCount, One);
    SumPermutation(ByPerson(df), Rollup(df, PersonKey, SummarizePerson), PersonSkillCount);
    SumOfOnes(Keyed(df, PersonKey), One);
  }

  function PersonGapCount(g: PersonGap): real
  {
    g.skillsConGap as real
  }

  /** The `skills_con_gap` of `gap_por_persona` add up to the records of known
      employees with `tiene_gap`. */
  lemma ByPersonGapCountConserves(df: seq<GapRecord>)
    ensures Sum(ByPerson(df), PersonGapCount) == CountIf(Keyed(df, PersonKey), HasGap) as real
  {
    forall k, m ensures PersonGapCount(SummarizePerson(k, m)) == Sum(m, GapIndicator) {
      SumIndicator(m, HasGap, GapIndicator);
    }
    RollupConserves(df, PersonKey, SummarizePerson, PersonGapCount, GapIndicator);
    SumPermutation(ByPerson(df), Rollup(df, PersonKey, SummarizePerson), PersonGapCount);
    SumIndicator(Keyed(df, PersonKey), HasGap, GapIndicator);
  }

  function PersonGapTotal(g: PersonGap): real
  {
    g.gapTotal
  }

  /** Grouping by employee neither loses nor double counts gap: the totals of
      `gap_por_persona` add up to the `gap_pos` of every record of a known employee. */
  lemma ByPersonGapTotalConserves(df: seq<GapRecord>)
    ensures Sum(ByPerson(df), PersonGapTotal) == Sum(Keyed(df, PersonKey), GapPosOrZero)
  {
    RollupConserves(df, PersonKey, SummarizePerson, PersonGapTotal, GapPosOrZero);
    SumPermutation(ByPerson(df), Rollup(df, PersonKey, SummarizePerson), PersonGapTotal);
  }

  /** The employee id determines the name, area and role of a record. */
  predicate IdentityDetermined(df: seq<GapRecord>)
  {
    forall r1, r2 :: r1 in df && r2 in df ==>
      (r1.employeeId == r2.employeeId ==> r1.nombre == r2.nombre && r1.area == r2.area && r1.rol == r2.rol)
  }

  /** Under `IdentityDetermined`, two different employee groups have different ids. */
  lemma DifferentGroupDifferentId(df: seq<GapRecord>, k1: (string, string, string, string), k2: (string, string, string, string))
    requires IdentityDetermined(df)
    requires k1 in GroupKeys(df, PersonKey) && k2 in GroupKeys(df, PersonKey)
    requires k1 != k2
    ensures k1.0 != k2.0
  {
    var r1 :| r1 in df && PersonKey(r1) == Some(k1);
    var r2 :| r2 in df && PersonKey(r2) == Some(k2);
    assert r1.employeeId == k1.0 && r2.employeeId == k2.0;
    assert PersonKey(r1) != PersonKey(r2);
  }

  /** When the id determines the identity columns, `gap_por_persona` has one row per employee id. */
  lemma ByPersonDistinctIds(df: seq<GapRecord>)
    requires IdentityDetermined(df)
    ensures DistinctBy(ByPerson(df), PersonIdOf)
  {
    var ks := GroupKeys(df, PersonKey);
    var out := Rollup(df, PersonKey, SummarizePerson);
    forall i, j | 0 <= i < j < |out| ensures PersonIdOf(out[i]) != PersonIdOf(out[j]) {
      assert ks[i] in ks && ks[j] in ks;
      assert ks[i] != ks[j];
      DifferentGroupDifferentId(df, ks[i], ks[j]);
    }
    DistinctByPermutation(out, ByPerson(df), PersonIdOf);
  }

  // ---------------------------------------------------------------------------
  // gap_por_rol_area
  // ---------------------------------------------------------------------------

  /** One row of `gap_por_rol_area`. */
  datatype RoleAreaGap = RoleAreaGap(
    area: string,
    rol: string,
    empleados: nat,
    gapPromedio: Option<real>,
    gapTotal: real,
    pctEmpleadosConGap: Option<real>)

  /** Grouping key `(area, rol)`. */
  function RoleAreaKey(r: GapRecord): Option<(string, string)>
  {
    if r.area.Some? && r.rol.Some? then Some((r.area.value, r.rol.value)) else None
  }

  /** The aggregate row of one `(area, rol)` group. Its percentage is the row-level
      mean of `tiene_gap` times 100: the share of the group's (employee, skill)
      rows with a gap. */
  function SummarizeRoleArea(k: (string, string), m: seq<GapRecord>): (g: RoleAreaGap)
    ensures (g.area, g.rol) == k
    ensures g.empleados <= |m|
    ensures g.empleados == |EmployeeIds(m)|
    ensures |m| > 0 ==> g.empleados >= 1
    ensures g.pctEmpleadosConGap.Some? <==> |m| > 0
    ensures g.pctEmpleadosConGap.Some? ==> 0.0 <= g.pctEmpleadosConGap.value <= 100.0
    ensures g.gapPromedio == MeanGapPos(m)
    ensures g.gapPromedio.Some? ==> Times(CountIf(m, HasGapPos), g.gapPromedio.value) == g.gapTotal
    ensures g.gapPromedio.None? ==> g.gapTotal == 0.0
    ensures g.pctEmpleadosConGap.Some? ==>
      Times(|m|, g.pctEmpleadosConGap.value) == 100.0 * CountWithGap(m) as real
    ensures g.pctEmpleadosConGap == Some(0.0) <==> |m| > 0 && forall x :: x in m ==> !x.tieneGap
  {
    NUniqueEmployees(m);
    RoleAreaGap(k.0, k.1, NUnique(m, EmployeeIdOf), MeanGapPos(m), Sum(m, GapPosOrZero),
                Percent(CountWithGap(m), |m|))
  }

  function RoleAreaOf(g: RoleAreaGap): (string, string)
  {
    (g.area, g.rol)
  }

  /** A row of `gap_por_rol_area` has a record of its own area and role. */
  lemma RoleAreaWitness(df: seq<GapRecord>, g: RoleAreaGap) returns (r: GapRecord)
    requires g in ByRoleArea(df)
    ensures r in df && r.area == Some(g.area) && r.rol == Some(g.rol)
  {
    r := SummaryWitness(df, RoleAreaKey, SummarizeRoleArea, ByRoleArea(df), g, RoleAreaOf);
  }

  /** Sort columns `["gap_promedio", "gap_total"]`; a missing mean sorts last. */
  function RoleAreaRank(g: RoleAreaGap): Rank
  {
    Rank(g.gapPromedio, Some(g.gapTotal))
  }

  function RoleAreaGapTotal(g: RoleAreaGap): real
  {
    g.gapTotal
  }

  /** `gap_por_rol_area`: the `(area, rol)` groups, sorted by mean then total, descending. */
  function ByRoleArea(df: seq<GapRecord>): (out: seq<RoleAreaGap>)
    ensures multiset(out) == multiset(Rollup(df, RoleAreaKey, SummarizeRoleArea))
    ensures SortedDesc(out, RoleAreaRank)
  {
    SortDesc(Rollup(df, RoleAreaKey, SummarizeRoleArea), RoleAreaRank)
  }

  /** Every row of `gap_por_rol_area` summarises a non-empty group: at least one
      employee, a percentage between 0 and 100 and, on a derived table, a
      non-negative total and mean gap. */
  lemma ByRoleAreaBounds(df: seq<GapRecord>)
    requires forall r :: r in df ==> WellDerived(r)
    ensures forall g :: g in ByRoleArea(df) ==>
      && g.empleados >= 1
      && g.pctEmpleadosConGap.Some? && 0.0 <= g.pctEmpleadosConGap.value <= 100.0
      && g.gapTotal >= 0.0
      && (g.gapPromedio.Some? ==> g.gapPromedio.value >= 0.0)
  {
    forall g | g in ByRoleArea(df)
      ensures && g.empleados >= 1
              && g.pctEmpleadosConGap.Some? && 0.0 <= g.pctEmpleadosConGap.value <= 100.0
              && g.gapTotal >= 0.0
              && (g.gapPromedio.Some? ==> g.gapPromedio.value >= 0.0)
    {
      var k := GroupOf(df, RoleAreaKey, SummarizeRoleArea, ByRoleArea(df), g);
      GroupGapFigures(Members(df, RoleAreaKey, k));
    }
  }

  /** Grouping by area and role neither loses nor double counts gap. */
  lemma ByRoleAreaConserves(df: seq<GapRecord>)
    ensures Sum(ByRoleArea(df), RoleAreaGapTotal) == Sum(Keyed(df, RoleAreaKey), GapPosOrZero)
  {
    RollupConserves(df, RoleAreaKey, SummarizeRoleArea, RoleAreaGapTotal, GapPosOrZero);
    SumPermutation(ByRoleArea(df), Rollup(df, RoleAreaKey, SummarizeRoleArea), RoleAreaGapTotal);
  }

  // ---------------------------------------------------------------------------
  // kpis_agregados
  // ---------------------------------------------------------------------------

  /** The five values `kpis_agregados` returns. */
  datatype Kpis = Kpis(
    empleadosTotal: nat,
    empleadosConBrecha: nat,
    pctEmpleadosConBrechas: Option<real>,
    topRoles: seq<RoleAreaGap>,
    top3Skills: seq<SkillGap>)

  /** Sort column `gap_promedio` alone. */
  function MeanRank(g: RoleAreaGap): Rank
  {
    Rank(g.gapPromedio, None)
  }

  /** Sort column `gap_total` alone. */
  function TotalRank(g: SkillGap): Rank
  {
    Rank(Some(g.gapTotal), None)
  }

  function HasBrecha(g: PersonGap): bool
  {
    g.skillsConGap > 0
  }

  /** `top_roles`: the five area/role rows with the highest mean gap (all rows
      when fewer), by non-increasing mean, and no row left out has a higher mean. */
  function TopRoles(roles: seq<RoleAreaGap>): (top: seq<RoleAreaGap>)
    ensures |top| == Min(5, |roles|)
    ensures SortedDesc(top, MeanRank)
    ensures multiset(top) <= multiset(roles)
    ensures forall x, y :: x in top && y in multiset(roles) - multiset(top) ==> RankGeq(MeanRank(x), MeanRank(y))
  {
    TopN(roles, 5, MeanRank)
  }

  lemma TotalRankOrder(x: SkillGap, y: SkillGap)
    requires RankGeq(TotalRank(x), TotalRank(y))
    ensures x.gapTotal >= y.gapTotal
  {
  }

  /** `top3_skills`: the three skill rows with the highest total gap (all rows
      when fewer), by non-increasing total, and no row left out has a higher total. */
  function Top3Skills(skills: seq<SkillGap>): (top: seq<SkillGap>)
    ensures |top| == Min(3, |skills|)
    ensures forall i, j :: 0 <= i < j < |top| ==> top[i].gapTotal >= top[j].gapTotal
    ensures multiset(top) <= multiset(skills)
    ensures forall x, y :: x in top && y in multiset(skills) - multiset(top) ==> x.gapTotal >= y.gapTotal
  {
    var top := TopN(skills, 3, TotalRank);
    forall i, j | 0 <= i < j < |top| ensures top[i].gapTotal >= top[j].gapTotal {
      TotalRankOrder(top[i], top[j]);
    }
    forall x, y | x in top && y in multiset(skills) - multiset(top) ensures x.gapTotal >= y.gapTotal {
      TotalRankOrder(x, y);
    }
    top
  }

  /** `kpis_agregados`: employees counted by distinct id, employees with at least
      one skill gap, their share, the top roles and the top three skills. */
  function KpisAgregados(persona: seq<PersonGap>, skills: seq<SkillGap>, roles: seq<RoleAreaGap>): (k: Kpis)
    ensures k.empleadosTotal <= |persona|
    ensures k.empleadosConBrecha <= |persona|
    ensures k.pctEmpleadosConBrechas.Some? <==> |persona| > 0
    ensures |persona| > 0 ==> k.empleadosTotal >= 1
    ensures DistinctBy(persona, PersonIdOf) ==> k.empleadosTotal == |persona|
    ensures k.empleadosConBrecha == 0 <==> forall g :: g in persona ==> g.skillsConGap == 0
    ensures k.pctEmpleadosConBrechas.Some? ==>
      Times(k.empleadosTotal, k.pctEmpleadosConBrechas.value) == 100.0 * k.empleadosConBrecha as real
    ensures k.topRoles == TopRoles(roles) && k.top3Skills == Top3Skills(skills)
  {
    var total := NUnique(persona, PersonIdOf);
    var conBrecha := CountIf(persona, HasBrecha);
    assert DistinctBy(persona, PersonIdOf) ==> total == |persona| by {
      if DistinctBy(persona, PersonIdOf) {
        NUniqueOfDistinct(persona, PersonIdOf);
      }
    }
    Kpis(total, conBrecha, Percent(conBrecha, total), TopRoles(roles), Top3Skills(skills))
  }

  /** With one row per employee id, employees with a gap never outnumber the
      employees evaluated, and their share is a percentage. */
  lemma KpisBrechaBound(persona: seq<PersonGap>, skills: seq<SkillGap>, roles: seq<RoleAreaGap>)
    requires DistinctBy(persona, PersonIdOf)
    ensures var k := KpisAgregados(persona, skills, roles);
      && k.empleadosConBrecha <= k.empleadosTotal
      && (k.pctEmpleadosConBrechas.Some? ==> 0.0 <= k.pctEmpleadosConBrechas.value <= 100.0)
  {
    NUniqueOfDistinct(persona, PersonIdOf);
  }

  /** Without one row per employee id the bound fails: one id under two names
      is one employee but two employees with a gap, a share of 200 percent. */
  lemma KpisDuplicateIdExceeds(skills: seq<SkillGap>, roles: seq<RoleAreaGap>)
    ensures var ana := PersonGap("E", "Ana", "Ventas", "Analista", 1, 1, 1.0, Some(1.0), Some(100.0));
      var eva := PersonGap("E", "Eva", "Ventas", "Analista", 1, 1, 1.0, Some(1.0), Some(100.0));
      var k := KpisAgregados([ana, eva], skills, roles);
      && k.empleadosTotal == 1 && k.empleadosConBrecha == 2
      && k.pctEmpleadosConBrechas == Some(200.0)
  {
    var ana := PersonGap("E", "Ana", "Ventas", "Analista", 1, 1, 1.0, Some(1.0), Some(100.0));
    var eva := PersonGap("E", "Eva", "Ventas", "Analista", 1, 1, 1.0, Some(1.0), Some(100.0));
    var persona := [ana, eva];
    NUniqueConstant(persona, PersonIdOf, "E");
    FilterAll(persona, HasBrecha);
    var pct := Percent(2, 1);
    assert Times(1, pct.value) == pct.value;
  }

  /** On the table built from an employee table with unique ids, the headline
      count of employees with a gap never exceeds the count of employees. */
  lemma KpisOnBuiltTable(emps: seq<Employee>, reqs: seq<Requirement>, acts: seq<CurrentSkill>)
    requires UniqueEmployees(emps)
    ensures var df := BuildRecords(emps, reqs, acts);
      var k := KpisAgregados(ByPerson(df), BySkill(df), ByRoleArea(df));
      k.empleadosConBrecha <= k.empleadosTotal
  {
    var df := BuildRecords(emps, reqs, acts);
    BuildIdentityDetermined(emps, reqs, acts);
    ByPersonDistinctIds(df);
    KpisBrechaBound(ByPerson(df), BySkill(df), ByRoleArea(df));
  }

  /** On `gap_por_persona`, no employee has a gap exactly when no record of a
      known employee has `tiene_gap`. */
  lemma KpisBrechaMeansGap(df: seq<GapRecord>)
    ensures KpisAgregados(ByPerson(df), BySkill(df), ByRoleArea(df)).empleadosConBrecha == 0
        <==> forall r :: r in Keyed(df, PersonKey) ==> !r.tieneGap
  {
    var keyed := Keyed(df, PersonKey);
    BrechaCountsGapSum(ByPerson(df), BySkill(df), ByRoleArea(df));
    ByPersonGapCountConserves(df);
    assert CountIf(keyed, HasGap) == 0 <==> forall r :: r in keyed ==> !r.tieneGap;
  }

  /** No employee row has a gap exactly when the `skills_con_gap` column sums to 0. */
  lemma BrechaCountsGapSum(persona: seq<PersonGap>, skills: seq<SkillGap>, roles: seq<RoleAreaGap>)
    ensures KpisAgregados(persona, skills, roles).empleadosConBrecha == 0 <==> Sum(persona, PersonGapCount) == 0.0
  {
    SumZero(persona, PersonGapCount);
    assert (forall g :: g in persona ==> g.skillsConGap == 0)
      <==> (forall g :: g in persona ==> PersonGapCount(g) == 0.0);
  }

  /** When the id determines the identity columns, `empleados_total` is the
      number of employee groups of the table. */
  lemma KpisTotalCountsGroups(df: seq<GapRecord>)
    requires IdentityDetermined(df)
    ensures KpisAgregados(ByPerson(df), BySkill(df), ByRoleArea(df)).empleadosTotal == |GroupKeys(df, PersonKey)|
  {
    var persona := ByPerson(df);
    ByPersonDistinctIds(df);
    assert |persona| == |multiset(persona)| == |multiset(Rollup(df, PersonKey, SummarizePerson))|;
  }

  /** A row of `gap_por_persona` for the employee of a record of a known
      employee; when the record has a gap, so does the row. */
  lemma PersonRowOfRecord(df: seq<GapRecord>, x: GapRecord) returns (g: PersonGap)
    requires x in Keyed(df, PersonKey)
    ensures g in ByPerson(df) && g.employeeId == x.employeeId
    ensures x.tieneGap ==> HasBrecha(g)
  {
    var k := PersonKey(x).value;
    var m := Members(df, PersonKey, k);
    assert x in m;
    RollupGroups(df, PersonKey, SummarizePerson);
    g := SummarizePerson(k, m);
    assert g in multiset(Rollup(df, PersonKey, SummarizePerson));
  }

  /** A record of a known employee behind a row of `gap_por_persona`; when the
      row counts a skill with a gap, the record has a gap. */
  lemma RecordOfPersonRow(df: seq<GapRecord>, g: PersonGap) returns (x: GapRecord)
    requires g in ByPerson(df)
    ensures x in Keyed(df, PersonKey) && x.employeeId == g.employeeId
    ensures HasBrecha(g) ==> x.tieneGap
  {
    var k := GroupOf(df, PersonKey, SummarizePerson, ByPerson(df), g);
    x := PersonGroupRecord(df, k, g);
  }

  /** A record of the group an employee summary was made from; a gapped one
      when the summary counts a skill with a gap. */
  lemma PersonGroupRecord(df: seq<GapRecord>, k: (string, string, string, string), g: PersonGap)
    returns (x: GapRecord)
    requires |Members(df, PersonKey, k)| > 0
    requires g == SummarizePerson(k, Members(df, PersonKey, k))
    ensures x in Keyed(df, PersonKey) && x.employeeId == g.employeeId
    ensures HasBrecha(g) ==> x.tieneGap
  {
    var m := Members(df, PersonKey, k);
    MembersOfKey(df, PersonKey, k, EmployeeIdOf);
    if HasBrecha(g) {
      x :| x in m && x.tieneGap;
    } else {
      x := m[0];
    }
    assert x in df && PersonKey(x) == Some(k);
  }

  /** `empleados_total` is the number of distinct ids among the records of
      known employees. */
  lemma KpisTotalCountsIds(df: seq<GapRecord>)
    ensures KpisAgregados(ByPerson(df), BySkill(df), ByRoleArea(df)).empleadosTotal
         == |EmployeeIds(Keyed(df, PersonKey))|
  {
    var persona := ByPerson(df);
    var keyed := Keyed(df, PersonKey);
    var ids := Image(persona, PersonIdOf);
    forall y | y in ids ensures y in EmployeeIds(keyed) {
      var g :| g in persona && PersonIdOf(g) == y;
      var x := RecordOfPersonRow(df, g);
    }
    forall y | y in EmployeeIds(keyed) ensures y in ids {
      var x :| x in keyed && x.employeeId == y;
      var g := PersonRowOfRecord(df, x);
      assert PersonIdOf(g) in ids;
    }
    assert ids == EmployeeIds(keyed);
  }

  /** When the id determines the identity columns, `empleados_con_brecha` is the
      number of distinct ids among the records of known employees with a gap:
      an employee with several gapped skills counts once. */
  lemma KpisBrechaCountsIds(df: seq<GapRecord>)
    requires IdentityDetermined(df)
    ensures KpisAgregados(ByPerson(df), BySkill(df), ByRoleArea(df)).empleadosConBrecha
         == |EmployeeIds(Filter(Keyed(df, PersonKey), HasGap))|
  {
    var persona := ByPerson(df);
    var gapped := Filter(Keyed(df, PersonKey), HasGap);
    var brecha := Filter(persona, HasBrecha);
    ByPersonDistinctIds(df);
    FilterKeepsDistinct(persona, HasBrecha, PersonIdOf);
    NUniqueOfDistinct(brecha, PersonIdOf);
    var ids := Image(brecha, PersonIdOf);
    forall y | y in ids ensures y in EmployeeIds(gapped) {
      var g :| g in brecha && PersonIdOf(g) == y;
      var x := RecordOfPersonRow(df, g);
      assert x in gapped;
    }
    forall y | y in EmployeeIds(gapped) ensures y in ids {
      var x :| x in gapped && x.employeeId == y;
      var g := PersonRowOfRecord(df, x);
      assert g in brecha;
      assert PersonIdOf(g) in ids;
    }
    assert ids == EmployeeIds(gapped);
  }
}
