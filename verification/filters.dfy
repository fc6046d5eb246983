/** The sidebar's area and role filter (app.py, lines 143-147): "Todas" and
    "Todos" select everything; any other choice keeps the rows whose area (role)
    equals it. The filter builds a new table and leaves its input unchanged. */
module Filters {
  import opened Nullable
  import opened Seqs
  import opened Grouping
  import opened Records
  import opened Aggregations

  /** The choice meaning "every area". */
  const AllAreas: string := "Todas"
  /** The choice meaning "every role". */
  const AllRoles: string := "Todos"

  /** A row passes the selection. A record with a missing area or role equals no
      choice, so it survives only when that column is not filtered. */
  predicate Selected(r: GapRecord, areaSel: string, rolSel: string)
  {
    && (areaSel == AllAreas || r.area == Some(areaSel))
    && (rolSel == AllRoles || r.rol == Some(rolSel))
  }

  /** `df_f`: the area filter, then the role filter, each applied only when a
      specific value is chosen. */
  function FilterAreaRole(df: seq<GapRecord>, areaSel: string, rolSel: string): (out: seq<GapRecord>)
    ensures |out| <= |df|
    ensures forall r :: r in out <==> r in df && Selected(r, areaSel, rolSel)
    ensures areaSel == AllAreas && rolSel == AllRoles ==> out == df
  {
    var byArea := if areaSel != AllAreas then Filter(df, (r: GapRecord) => r.area == Some(areaSel)) else df;
    if rolSel != AllRoles then Filter(byArea, (r: GapRecord) => r.rol == Some(rolSel)) else byArea
  }

  /** The two-step filter is one pass of `Selected`: the rows kept are the rows
      selected, in their original order and with their multiplicity. */
  lemma FilterAreaRoleIsSelection(df: seq<GapRecord>, areaSel: string, rolSel: string)
    ensures FilterAreaRole(df, areaSel, rolSel) == Filter(df, r => Selected(r, areaSel, rolSel))
  {
    var sel := r => Selected(r, areaSel, rolSel);
    var byArea := (r: GapRecord) => r.area == Some(areaSel);
    var byRole := (r: GapRecord) => r.rol == Some(rolSel);
    if areaSel != AllAreas && rolSel != AllRoles {
      FilterConj(df, byArea, byRole, sel);
    } else if areaSel != AllAreas {
      assert forall r :: sel(r) == byArea(r);
      FilterConj(df, byArea, r => true, sel);
      FilterAll(Filter(df, byArea), r => true);
    } else if rolSel != AllRoles {
      assert forall r :: sel(r) == byRole(r);
      FilterConj(df, r => true, byRole, sel);
      FilterAll(df, r => true);
    } else {
      FilterAll(df, sel);
    }
  }

  /** Filtering an already filtered table with the same choices changes nothing. */
  lemma FilterAreaRoleIdempotent(df: seq<GapRecord>, areaSel: string, rolSel: string)
    ensures FilterAreaRole(FilterAreaRole(df, areaSel, rolSel), areaSel, rolSel) == FilterAreaRole(df, areaSel, rolSel)
  {
    var once := FilterAreaRole(df, areaSel, rolSel);
    FilterAreaRoleIsSelection(df, areaSel, rolSel);
    FilterAreaRoleIsSelection(once, areaSel, rolSel);
    FilterIdempotent(df, r => Selected(r, areaSel, rolSel));
  }

  /** Filtering before grouping restricts each group to its selected rows: a group
      of the filtered table holds exactly the selected rows of the same group of
      the whole table. */
  lemma FilteredGroupMembers<K>(df: seq<GapRecord>, areaSel: string, rolSel: string,
                                key: GapRecord -> Option<K>, k: K)
    ensures Members(FilterAreaRole(df, areaSel, rolSel), key, k)
         == Filter(Members(df, key, k), r => Selected(r, areaSel, rolSel))
  {
    FilterAreaRoleIsSelection(df, areaSel, rolSel);
    MembersOfFilter(df, r => Selected(r, areaSel, rolSel), key, k);
  }

  /** After a specific area (role) is chosen, every row of `gap_por_rol_area`
      belongs to that area (role). */
  lemma FilteredRoleAreaRows(df: seq<GapRecord>, areaSel: string, rolSel: string)
    ensures forall g :: g in ByRoleArea(FilterAreaRole(df, areaSel, rolSel)) ==>
      && (areaSel != AllAreas ==> g.area == areaSel)
      && (rolSel != AllRoles ==> g.rol == rolSel)
  {
    var f := FilterAreaRole(df, areaSel, rolSel);
    forall g | g in ByRoleArea(f)
      ensures && (areaSel != AllAreas ==> g.area == areaSel)
              && (rolSel != AllRoles ==> g.rol == rolSel)
    {
      var r := RoleAreaWitness(f, g);
      assert Selected(r, areaSel, rolSel);
    }
  }

  /** The filter keeps the uniqueness facts the rollups' bounds rely on. */
  lemma FilterKeepsUniqueness(df: seq<GapRecord>, areaSel: string, rolSel: string)
    ensures UniqueEmployeeSkill(df) ==> UniqueEmployeeSkill(FilterAreaRole(df, areaSel, rolSel))
    ensures IdentityDetermined(df) ==> IdentityDetermined(FilterAreaRole(df, areaSel, rolSel))
  {
    FilterAreaRoleIsSelection(df, areaSel, rolSel);
    if UniqueEmployeeSkill(df) {
      FilterKeepsDistinct(df, r => Selected(r, areaSel, rolSel), EmployeeSkillKey);
    }
  }

  /** On the filtered view of the table built from an employee table with unique
      ids, the headline count of employees with a gap never exceeds the count of
      employees, and their share is a percentage. */
  lemma FilteredKpis(emps: seq<Employee>, reqs: seq<Requirement>, acts: seq<CurrentSkill>,
                     areaSel: string, rolSel: string)
    requires UniqueEmployees(emps)
    ensures var f := FilterAreaRole(BuildRecords(emps, reqs, acts), areaSel, rolSel);
      var k := KpisAgregados(ByPerson(f), BySkill(f), ByRoleArea(f));
      && k.empleadosConBrecha <= k.empleadosTotal
      && (k.pctEmpleadosConBrechas.Some? ==> 0.0 <= k.pctEmpleadosConBrechas.value <= 100.0)
  {
    var df := BuildRecords(emps, reqs, acts);
    var f := FilterAreaRole(df, areaSel, rolSel);
    BuildIdentityDetermined(emps, reqs, acts);
    FilterKeepsUniqueness(df, areaSel, rolSel);
    ByPersonDistinctIds(f);
    KpisBrechaBound(ByPerson(f), BySkill(f), ByRoleArea(f));
  }
}
