/** The unified gap record (app.py, `load_data`, lines 16-36).

    The current-skill table is left-merged with the employee table on
    `employee_id`, then left-merged with the requirement table on `(rol, skill)`.
    The two level columns and `peso` are coerced to numbers, and four columns are
    derived: `gap`, `gap_pos`, `tiene_gap` and `skill_critica`. */
module Records {
  import opened Nullable
  import opened Seqs

  /** A row of the employee table, reduced to the columns the merge selects. */
  datatype Employee = Employee(employeeId: string, nombre: string, area: string, rol: string, seniority: string)

  /** A row of the requirement table: role `rol` needs `skill` at `nivelRequerido`, with weight `peso`. */
  datatype Requirement = Requirement(rol: string, skill: string, categoria: string, nivelRequerido: Cell, peso: Cell)

  /** A row of the current-skill table: the employee holds `skill` at `nivelActual`. */
  datatype CurrentSkill = CurrentSkill(employeeId: string, skill: string, nivelActual: Cell)

  /** One row of the merged table `df`. Columns filled from a merge that found no
      partner row are missing. */
  datatype GapRecord = GapRecord(
    employeeId: string,
    skill: string,
    nivelActual: Option<real>,
    nombre: Option<string>,
    area: Option<string>,
    rol: Option<string>,
    seniority: Option<string>,
    categoria: Option<string>,
    nivelRequerido: Option<real>,
    peso: Option<real>,
    gap: Option<real>,
    gapPos: Option<real>,
    tieneGap: bool,
    skillCritica: bool)

  /** The relations between the derived columns of a record. */
  predicate WellDerived(r: GapRecord)
  {
    && (r.gap.Some? <==> r.nivelRequerido.Some? && r.nivelActual.Some?)
    && (r.gap.Some? ==> r.gap.value == r.nivelRequerido.value - r.nivelActual.value)
    && (r.gapPos.Some? <==> r.gap.Some?)
    && (r.gapPos.Some? ==> r.gapPos.value >= 0.0 && r.gapPos.value >= r.gap.value)
    && (r.gapPos.Some? ==> r.gapPos.value == 0.0 || r.gapPos.value == r.gap.value)
    && (r.tieneGap <==> r.gapPos.Some? && r.gapPos.value > 0.0)
    && (r.skillCritica <==> r.peso.Some? && r.peso.value == 3.0)
  }

  /** `l` paired with each row of `ms`, in order. */
  function Pairs<L, R>(l: L, ms: seq<R>): (out: seq<(L, Option<R>)>)
    ensures |out| == |ms|
    ensures forall k :: 0 <= k < |out| ==> out[k] == (l, Some(ms[k]))
  {
    if ms == [] then [] else [(l, Some(ms[0]))] + Pairs(l, ms[1..])
  }

  /** Each partner row is paired with `l` exactly as often as it occurs. */
  lemma {:induction false} PairsCount<L, R>(l: L, ms: seq<R>, m: R)
    ensures multiset(Pairs(l, ms))[(l, Some(m))] == multiset(ms)[m]
  {
    if ms != [] {
      var rest := Pairs(l, ms[1..]);
      PairsCount(l, ms[1..], m);
      assert multiset(ms)[m] == multiset{ms[0]}[m] + multiset(ms[1..])[m] by {
        assert ms == [ms[0]] + ms[1..];
      }
      assert multiset(Pairs(l, ms))[(l, Some(m))]
          == multiset{(l, Some(ms[0]))}[(l, Some(m))] + multiset(rest)[(l, Some(m))];
    }
  }

  /** The left-merge partner rows of `l`: every matching row of `rs`, or a single
      missing partner when nothing matches. */
  function Expand<L, R>(l: L, ms: seq<R>): (out: seq<(L, Option<R>)>)
    ensures |out| == if ms == [] then 1 else |ms|
    ensures forall k :: 0 <= k < |out| ==> out[k].0 == l
    ensures forall k :: 0 <= k < |out| ==> (out[k].1.None? <==> ms == [])
    ensures forall k :: 0 <= k < |out| && out[k].1.Some? ==> out[k].1.value in ms
    ensures forall m :: m in ms ==> (l, Some(m)) in out
  {
    if ms == [] then [(l, None)] else Pairs(l, ms)
  }

  /** Each matching row is a partner of `l` exactly as often as it occurs among
      the matches, and no row outside them is. */
  lemma ExpandCount<L, R>(l: L, ms: seq<R>, m: R)
    ensures multiset(Expand(l, ms))[(l, Some(m))] == multiset(ms)[m]
  {
    if ms != [] {
      PairsCount(l, ms, m);
    }
  }

  /** The rows of `rs` that the left row `l` matches, in their order. */
  function Matches<L, R>(l: L, rs: seq<R>, on: (L, R) -> bool): seq<R>
  {
    Filter(rs, r => on(l, r))
  }

  /** The size of a left merge: each left row yields one row per right row it
      matches, or a single row when it matches none. */
  function JoinCount<L, R>(ls: seq<L>, rs: seq<R>, on: (L, R) -> bool): nat
  {
    if ls == [] then 0
    else
      var n := |Matches(ls[0], rs, on)|;
      (if n == 0 then 1 else n) + JoinCount(ls[1..], rs, on)
  }

  /** `l` is the left row of some merged row. */
  ghost predicate InLeft<L, R>(l: L, out: seq<(L, Option<R>)>)
  {
    exists k :: 0 <= k < |out| && out[k].0 == l
  }

  /** The rows of a left merge: the partner rows of each left row, in left order. */
  function Merge<L, R>(ls: seq<L>, rs: seq<R>, on: (L, R) -> bool): seq<(L, Option<R>)>
  {
    if ls == [] then [] else Expand(ls[0], Matches(ls[0], rs, on)) + Merge(ls[1..], rs, on)
  }

  /** `merge(how="left")`: every left row, paired with each right row it matches,
      in left order. */
  function LeftJoin<L, R>(ls: seq<L>, rs: seq<R>, on: (L, R) -> bool): (out: seq<(L, Option<R>)>)
    ensures |out| == JoinCount(ls, rs, on) && |out| >= |ls|
    ensures forall l :: l in ls ==> InLeft(l, out)
    ensures forall k :: 0 <= k < |out| ==> out[k].0 in ls
    ensures forall k :: 0 <= k < |out| && out[k].1.Some? ==>
      out[k].1.value in rs && on(out[k].0, out[k].1.value)
    ensures forall k :: 0 <= k < |out| && out[k].1.None? ==>
      forall r :: r in rs ==> !on(out[k].0, r)
    ensures forall l, r :: l in ls && r in rs && on(l, r) ==> (l, Some(r)) in out
  {
    MergeFacts(ls, rs, on);
    var out := Merge(ls, rs, on);
    assert MergePartners(ls, rs, on, out);
    out
  }

  /** A left merge has one row per matching pair, or one for a left row that matches nothing. */
  lemma {:induction false} MergeFacts<L, R>(ls: seq<L>, rs: seq<R>, on: (L, R) -> bool)
    ensures |Merge(ls, rs, on)| == JoinCount(ls, rs, on) >= |ls|
    ensures MergePartners(ls, rs, on, Merge(ls, rs, on))
    ensures forall l :: l in ls ==> InLeft(l, Merge(ls, rs, on))
    ensures forall k :: 0 <= k < |Merge(ls, rs, on)| ==> Merge(ls, rs, on)[k].0 in ls
    ensures forall l, r :: l in ls && r in rs && on(l, r) ==> (l, Some(r)) in Merge(ls, rs, on)
  {
    if ls != [] {
      MergeFacts(ls[1..], rs, on);
      var head := Expand(ls[0], Matches(ls[0], rs, on));
      var tail := Merge(ls[1..], rs, on);
      PartnersCons(ls, rs, on, head, tail);
      JoinCons(ls, rs, on, head, tail);
    }
  }

  /** Each merged row pairs its left row with a right row it matches, or with no
      partner when no right row matches it. */
  ghost predicate MergePartners<L, R>(ls: seq<L>, rs: seq<R>, on: (L, R) -> bool, out: seq<(L, Option<R>)>)
  {
    && (forall k :: 0 <= k < |out| && out[k].1.Some? ==>
          out[k].1.value in rs && on(out[k].0, out[k].1.value))
    && (forall k :: 0 <= k < |out| && out[k].1.None? ==>
          forall r :: r in rs ==> !on(out[k].0, r))
  }

  /** The partner rows of the first left row followed by well-partnered rows are well partnered. */
  lemma PartnersCons<L, R>(ls: seq<L>, rs: seq<R>, on: (L, R) -> bool,
                           head: seq<(L, Option<R>)>, tail: seq<(L, Option<R>)>)
    requires ls != [] && head == Expand(ls[0], Matches(ls[0], rs, on))
    requires MergePartners(ls[1..], rs, on, tail)
    ensures MergePartners(ls, rs, on, head + tail)
  {
    var out := head + tail;
    forall k | 0 <= k < |out| ensures out[k] == if k < |head| then head[k] else tail[k - |head|] {
    }
    forall k | 0 <= k < |head| && head[k].1.None? ensures forall r :: r in rs ==> !on(ls[0], r) {
      forall r | r in rs ensures !on(ls[0], r) {
        assert r !in Matches(ls[0], rs, on);
      }
    }
  }

  /** The pairs of the first left row followed by the pairs of the others hold
      only left rows, every left row, and every matching pair of either part. */
  lemma JoinCons<L, R>(ls: seq<L>, rs: seq<R>, on: (L, R) -> bool,
                       head: seq<(L, Option<R>)>, tail: seq<(L, Option<R>)>)
    requires ls != [] && head != []
    requires forall k :: 0 <= k < |head| ==> head[k].0 == ls[0]
    requires forall r :: r in rs && on(ls[0], r) ==> (ls[0], Some(r)) in head
    requires forall k :: 0 <= k < |tail| ==> tail[k].0 in ls[1..]
    requires forall l :: l in ls[1..] ==> InLeft(l, tail)
    requires forall l, r :: l in ls[1..] && r in rs && on(l, r) ==> (l, Some(r)) in tail
    ensures forall k :: 0 <= k < |head + tail| ==> (head + tail)[k].0 in ls
    ensures forall l :: l in ls ==> InLeft(l, head + tail)
    ensures forall l, r :: l in ls && r in rs && on(l, r) ==> (l, Some(r)) in head + tail
  {
    assert ls == [ls[0]] + ls[1..];
    var out := head + tail;
    forall k | 0 <= k < |out| ensures out[k].0 in ls {
      if k >= |head| {
        assert out[k] == tail[k - |head|];
      }
    }
    forall l | l in ls ensures InLeft(l, out) {
      if l == ls[0] {
        assert out[0] == head[0];
      } else {
        var k :| 0 <= k < |tail| && tail[k].0 == l;
        assert out[|head| + k] == tail[k];
      }
    }
  }

  /** Merging a single left row gives its partner rows. */
  lemma LeftJoinSingle<L, R>(l: L, rs: seq<R>, on: (L, R) -> bool)
    ensures LeftJoin([l], rs, on) == Expand(l, Matches(l, rs, on))
  {
    var head := Expand(l, Matches(l, rs, on));
    assert [l][1..] == [];
    assert Merge([l], rs, on) == head + Merge([], rs, on) == head;
  }

  /** Merging a concatenation of left tables concatenates the merges, so each
      left row contributes its partner rows independently of the others. */
  lemma LeftJoinAppend<L, R>(a: seq<L>, b: seq<L>, rs: seq<R>, on: (L, R) -> bool)
    ensures LeftJoin(a + b, rs, on) == LeftJoin(a, rs, on) + LeftJoin(b, rs, on)
  {
    MergeAppend(a, b, rs, on);
  }

  /** The rows of a merge of `a + b` are those of `a` followed by those of `b`. */
  lemma {:induction false} MergeAppend<L, R>(a: seq<L>, b: seq<L>, rs: seq<R>, on: (L, R) -> bool)
    ensures Merge(a + b, rs, on) == Merge(a, rs, on) + Merge(b, rs, on)
  {
    if a == [] {
      assert a + b == b;
    } else {
      assert (a + b)[0] == a[0];
      assert (a + b)[1..] == a[1..] + b;
      MergeAppend(a[1..], b, rs, on);
    }
  }

  /** The position of a merged row whose left row is `l`. */
  lemma RowOfLeft<L, R>(ls: seq<L>, rs: seq<R>, on: (L, R) -> bool, l: L) returns (k: nat)
    requires l in ls
    ensures k < |LeftJoin(ls, rs, on)| && LeftJoin(ls, rs, on)[k].0 == l
  {
    var out := LeftJoin(ls, rs, on);
    assert InLeft(l, out);
    k :| 0 <= k < |out| && out[k].0 == l;
  }

  /** When no left row matches two right rows, the merge is one-to-one with the left table. */
  lemma {:induction false} LeftJoinOneToOne<L, R, U>(ls: seq<L>, rs: seq<R>, on: (L, R) -> bool,
                                                     lk: L -> U, rk: R -> U)
    requires DistinctBy(rs, rk)
    requires forall l, r :: on(l, r) ==> lk(l) == rk(r)
    ensures |LeftJoin(ls, rs, on)| == |ls|
    ensures forall i :: 0 <= i < |ls| ==> LeftJoin(ls, rs, on)[i].0 == ls[i]
  {
    if ls != [] {
      UniqueKeyMatchesOnce(rs, rk, r => on(ls[0], r), lk(ls[0]));
      LeftJoinOneToOne(ls[1..], rs, on, lk, rk);
      var matches := Matches(ls[0], rs, on);
      var head := Expand(ls[0], matches);
      var tail := LeftJoin(ls[1..], rs, on);
      assert LeftJoin(ls, rs, on) == head + tail;
      assert |matches| <= 1;
      assert |head| == 1 && head[0].0 == ls[0];
      PairsCons(head, tail, ls);
    }
  }

  /** A single pair for the first left row, followed by pairs aligned with the
      remaining left rows, is aligned with the whole left table. */
  lemma PairsCons<L, R>(head: seq<(L, Option<R>)>, tail: seq<(L, Option<R>)>, ls: seq<L>)
    requires ls != [] && |head| == 1 && head[0].0 == ls[0]
    requires |tail| == |ls| - 1
    requires forall i :: 0 <= i < |tail| ==> tail[i].0 == ls[1..][i]
    ensures |head + tail| == |ls|
    ensures forall i :: 0 <= i < |ls| ==> (head + tail)[i].0 == ls[i]
  {
    forall i | 0 <= i < |ls| ensures (head + tail)[i].0 == ls[i] {
      if i > 0 {
        assert (head + tail)[i] == tail[i - 1];
        assert ls[1..][i - 1] == ls[i];
      }
    }
  }

  /** A key column with no duplicates matches any value at most once. */
  lemma UniqueKeyMatchesOnce<T, U>(s: seq<T>, f: T -> U, p: T -> bool, v: U)
    requires DistinctBy(s, f)
    requires forall x :: p(x) ==> f(x) == v
    ensures CountIf(s, p) <= 1
    decreases |s|
  {
    if s != [] {
      var t := s[1..];
      DistinctByTail(s, f);
      if p(s[0]) {
        forall x | x in t ensures !p(x) {
          var k :| 0 <= k < |t| && t[k] == x;
          assert f(s[0]) != f(s[k + 1]);
        }
        FilterNone(t, p);
      } else {
        UniqueKeyMatchesOnce(t, f, p, v);
      }
    }
  }

  /** The first merge condition: the same `employee_id`. */
  predicate SameEmployee(a: CurrentSkill, e: Employee)
  {
    a.employeeId == e.employeeId
  }

  /** The employee's `rol`, missing when the first merge found no employee. */
  function RoleOf(e: Option<Employee>): Option<string>
  {
    match e
    case None => None
    case Some(emp) => Some(emp.rol)
  }

  /** The second merge condition: the same `rol` and the same `skill`. A missing
      role matches no requirement, since every requirement row names its role. */
  predicate SameRoleSkill(row: (CurrentSkill, Option<Employee>), q: Requirement)
  {
    RoleOf(row.1) == Some(q.rol) && row.0.skill == q.skill
  }

  /** The `(rol, skill)` merge key of a row of the first merge. */
  function RowKey(row: (CurrentSkill, Option<Employee>)): (string, string)
  {
    (if row.1.Some? then row.1.value.rol else "", row.0.skill)
  }

  /** Coerces the numeric columns of one merged row and derives the gap columns. */
  function Derive(a: CurrentSkill, e: Option<Employee>, q: Option<Requirement>): (r: GapRecord)
    ensures WellDerived(r)
    ensures r.employeeId == a.employeeId && r.skill == a.skill
    ensures r.nivelActual == ToNumeric(a.nivelActual)
    ensures q.None? ==> r.nivelRequerido.None? && r.peso.None? && r.categoria.None?
    ensures q.Some? ==> && r.nivelRequerido == ToNumeric(q.value.nivelRequerido)
                        && r.peso == ToNumeric(q.value.peso)
                        && r.categoria == Some(q.value.categoria)
    ensures e.None? ==> r.nombre.None? && r.area.None? && r.rol.None? && r.seniority.None?
    ensures e.Some? ==> && r.nombre == Some(e.value.nombre) && r.area == Some(e.value.area)
                        && r.rol == Some(e.value.rol) && r.seniority == Some(e.value.seniority)
  {
    var actual := ToNumeric(a.nivelActual);
    var required := if q.Some? then ToNumeric(q.value.nivelRequerido) else None;
    var peso := if q.Some? then ToNumeric(q.value.peso) else None;
    var gap := Minus(required, actual);
    var gapPos := ClipLower0(gap);
    GapRecord(
      a.employeeId, a.skill, actual,
      if e.Some? then Some(e.value.nombre) else None,
      if e.Some? then Some(e.value.area) else None,
      RoleOf(e),
      if e.Some? then Some(e.value.seniority) else None,
      if q.Some? then Some(q.value.categoria) else None,
      required, peso, gap, gapPos,
      Positive(gapPos),
      peso == Some(3.0))
  }

  /** The merged rows before coercion. */
  function Joined(emps: seq<Employee>, reqs: seq<Requirement>, acts: seq<CurrentSkill>)
    : seq<((CurrentSkill, Option<Employee>), Option<Requirement>)>
  {
    LeftJoin(LeftJoin(acts, emps, SameEmployee), reqs, SameRoleSkill)
  }

  /** `load_data` without the file reads: the table `df`. */
  function BuildRecords(emps: seq<Employee>, reqs: seq<Requirement>, acts: seq<CurrentSkill>): (df: seq<GapRecord>)
    ensures |df| >= |acts|
    ensures forall r :: r in df ==> WellDerived(r)
  {
    var j := Joined(emps, reqs, acts);
    seq(|j|, k requires 0 <= k < |j| => Derive(j[k].0.0, j[k].0.1, j[k].1))
  }

  /** `r` carries the employee, skill and coerced level of the current-skill row `a`. */
  predicate CarriesSkillRow(r: GapRecord, a: CurrentSkill)
  {
    r.employeeId == a.employeeId && r.skill == a.skill && r.nivelActual == ToNumeric(a.nivelActual)
  }

  /** Every current-skill row survives the merges with its employee, skill and level. */
  lemma BuildKeepsEverySkillRow(emps: seq<Employee>, reqs: seq<Requirement>, acts: seq<CurrentSkill>)
    ensures forall a :: a in acts ==> exists r :: r in BuildRecords(emps, reqs, acts) && CarriesSkillRow(r, a)
  {
    forall a | a in acts ensures exists r :: r in BuildRecords(emps, reqs, acts) && CarriesSkillRow(r, a) {
      var k := SkillRowSurvives(emps, reqs, acts, a);
    }
  }

  /** The index of a record carrying the current-skill row `a`. */
  lemma SkillRowSurvives(emps: seq<Employee>, reqs: seq<Requirement>, acts: seq<CurrentSkill>, a: CurrentSkill)
    returns (k: nat)
    requires a in acts
    ensures k < |BuildRecords(emps, reqs, acts)| && CarriesSkillRow(BuildRecords(emps, reqs, acts)[k], a)
  {
    var j1 := LeftJoin(acts, emps, SameEmployee);
    var j := Joined(emps, reqs, acts);
    var k1 := RowOfLeft(acts, emps, SameEmployee, a);
    k := RowOfLeft(j1, reqs, SameRoleSkill, j1[k1]);
  }

  /** Row `k` of the table is derived from row `k` of the merges: a current-skill
      row, the employee the first merge paired it with, and the requirement the
      second merge paired that with. */
  lemma BuiltRow(emps: seq<Employee>, reqs: seq<Requirement>, acts: seq<CurrentSkill>, k: nat)
    returns (a: CurrentSkill, e: Option<Employee>, q: Option<Requirement>)
    requires k < |BuildRecords(emps, reqs, acts)|
    ensures BuildRecords(emps, reqs, acts)[k] == Derive(a, e, q)
    ensures a in acts
    ensures e.Some? ==> e.value in emps && SameEmployee(a, e.value)
    ensures e.None? ==> forall x :: x in emps ==> !SameEmployee(a, x)
    ensures q.Some? ==> q.value in reqs && SameRoleSkill((a, e), q.value)
    ensures q.None? ==> forall x :: x in reqs ==> !SameRoleSkill((a, e), x)
  {
    var j1 := LeftJoin(acts, emps, SameEmployee);
    var j := Joined(emps, reqs, acts);
    var row := j[k].0;
    assert row in j1;
    var i :| 0 <= i < |j1| && j1[i] == row;
    a, e, q := row.0, row.1, j[k].1;
  }

  /** Every record comes from a current-skill row, whose employee, skill and
      coerced level it carries. */
  lemma BuildRowsComeFromSkillRows(emps: seq<Employee>, reqs: seq<Requirement>, acts: seq<CurrentSkill>)
    ensures forall r :: r in BuildRecords(emps, reqs, acts) ==> exists a :: a in acts && CarriesSkillRow(r, a)
  {
    var df := BuildRecords(emps, reqs, acts);
    forall r | r in df ensures exists a :: a in acts && CarriesSkillRow(r, a) {
      var k :| 0 <= k < |df| && df[k] == r;
      var a, e, q := BuiltRow(emps, reqs, acts, k);
    }
  }

  /** Employee ids are unique in the employee table. */
  predicate UniqueEmployees(emps: seq<Employee>)
  {
    DistinctBy(emps, EmployeeKey)
  }

  function EmployeeKey(e: Employee): string
  {
    e.employeeId
  }

  function RequirementKey(q: Requirement): (string, string)
  {
    (q.rol, q.skill)
  }

  /** `(rol, skill)` pairs are unique in the requirement table. */
  predicate UniqueRequirements(reqs: seq<Requirement>)
  {
    DistinctBy(reqs, RequirementKey)
  }

  /** With unique merge keys the table has exactly one row per current-skill row,
      in the same order, carrying that row's employee, skill and level. */
  lemma BuildOneRowPerSkillRow(emps: seq<Employee>, reqs: seq<Requirement>, acts: seq<CurrentSkill>)
    requires UniqueEmployees(emps)
    requires UniqueRequirements(reqs)
    ensures |BuildRecords(emps, reqs, acts)| == |acts|
    ensures forall i :: 0 <= i < |acts| ==> CarriesSkillRow(BuildRecords(emps, reqs, acts)[i], acts[i])
  {
    var j1 := LeftJoin(acts, emps, SameEmployee);
    LeftJoinOneToOne(acts, emps, SameEmployee, (a: CurrentSkill) => a.employeeId, EmployeeKey);
    LeftJoinOneToOne(j1, reqs, SameRoleSkill, RowKey, RequirementKey);
  }

  /** A record with no requirement for its `(rol, skill)` has no required level, so
      no gap, no positive gap and no `tiene_gap`. */
  lemma BuildNoRequirement(emps: seq<Employee>, reqs: seq<Requirement>, acts: seq<CurrentSkill>)
    ensures forall r :: r in BuildRecords(emps, reqs, acts) && (forall q :: q in reqs ==> !(r.rol == Some(q.rol) && r.skill == q.skill)) ==>
      r.nivelRequerido.None? && r.gap.None? && r.gapPos.None? && !r.tieneGap && !r.skillCritica
  {
    var df := BuildRecords(emps, reqs, acts);
    forall r | r in df && (forall q :: q in reqs ==> !(r.rol == Some(q.rol) && r.skill == q.skill))
      ensures r.nivelRequerido.None? && r.gap.None? && r.gapPos.None? && !r.tieneGap && !r.skillCritica
    {
      var k :| 0 <= k < |df| && df[k] == r;
      var a, e, q := BuiltRow(emps, reqs, acts, k);
    }
  }

  /** With unique `(rol, skill)` requirements, a record whose role and skill are
      those of a requirement carries that requirement's coerced level and weight
      and its category. */
  lemma BuildMatchedRequirement(emps: seq<Employee>, reqs: seq<Requirement>, acts: seq<CurrentSkill>)
    requires UniqueRequirements(reqs)
    ensures forall r, q :: r in BuildRecords(emps, reqs, acts) && q in reqs && r.rol == Some(q.rol) && r.skill == q.skill ==>
      && r.nivelRequerido == ToNumeric(q.nivelRequerido)
      && r.peso == ToNumeric(q.peso)
      && r.categoria == Some(q.categoria)
  {
    var df := BuildRecords(emps, reqs, acts);
    forall r, q | r in df && q in reqs && r.rol == Some(q.rol) && r.skill == q.skill
      ensures && r.nivelRequerido == ToNumeric(q.nivelRequerido)
              && r.peso == ToNumeric(q.peso)
              && r.categoria == Some(q.categoria)
    {
      var k :| 0 <= k < |df| && df[k] == r;
      MatchedRequirementRow(emps, reqs, acts, k, q);
    }
  }

  /** The record at `k`, when its role and skill are those of `q`, carries `q`'s columns. */
  lemma MatchedRequirementRow(emps: seq<Employee>, reqs: seq<Requirement>, acts: seq<CurrentSkill>,
                              k: int, q: Requirement)
    requires UniqueRequirements(reqs)
    requires 0 <= k < |BuildRecords(emps, reqs, acts)| && q in reqs
    requires BuildRecords(emps, reqs, acts)[k].rol == Some(q.rol)
    requires BuildRecords(emps, reqs, acts)[k].skill == q.skill
    ensures var r := BuildRecords(emps, reqs, acts)[k];
      && r.nivelRequerido == ToNumeric(q.nivelRequerido)
      && r.peso == ToNumeric(q.peso)
      && r.categoria == Some(q.categoria)
  {
    var a, e, o := BuiltRow(emps, reqs, acts, k);
    assert SameRoleSkill((a, e), q);
    SameRequirement(reqs, o.value, q);
  }

  /** Two requirements with the same `(rol, skill)` are the same row when the
      pairs are unique. */
  lemma SameRequirement(reqs: seq<Requirement>, q1: Requirement, q2: Requirement)
    requires UniqueRequirements(reqs)
    requires q1 in reqs && q2 in reqs && RequirementKey(q1) == RequirementKey(q2)
    ensures q1 == q2
  {
    var p :| 0 <= p < |reqs| && reqs[p] == q1;
    var t :| 0 <= t < |reqs| && reqs[t] == q2;
    DistinctByIndex(reqs, RequirementKey, p, t);
  }

  /** With unique employee ids, the employee id determines the identity columns of a record. */
  lemma BuildIdentityDetermined(emps: seq<Employee>, reqs: seq<Requirement>, acts: seq<CurrentSkill>)
    requires UniqueEmployees(emps)
    ensures forall r1, r2 :: r1 in BuildRecords(emps, reqs, acts) && r2 in BuildRecords(emps, reqs, acts) ==>
      (r1.employeeId == r2.employeeId ==> r1.nombre == r2.nombre && r1.area == r2.area && r1.rol == r2.rol)
  {
    var df := BuildRecords(emps, reqs, acts);
    forall r1, r2 | r1 in df && r2 in df && r1.employeeId == r2.employeeId
      ensures r1.nombre == r2.nombre && r1.area == r2.area && r1.rol == r2.rol
    {
      var k1 :| 0 <= k1 < |df| && df[k1] == r1;
      var k2 :| 0 <= k2 < |df| && df[k2] == r2;
      var o1 := RecordEmployee(emps, reqs, acts, k1);
      var o2 := RecordEmployee(emps, reqs, acts, k2);
      SameMatch(emps, o1, o2, r1.employeeId);
    }
  }

  /** The identity columns of a record come from the employee the first merge
      paired with its current-skill row, or are missing when there was none. */
  lemma RecordEmployee(emps: seq<Employee>, reqs: seq<Requirement>, acts: seq<CurrentSkill>, k: int)
    returns (o: Option<Employee>)
    requires 0 <= k < |BuildRecords(emps, reqs, acts)|
    ensures var r := BuildRecords(emps, reqs, acts)[k];
      && (o.Some? ==> o.value in emps && o.value.employeeId == r.employeeId)
      && (o.None? ==> forall e :: e in emps ==> e.employeeId != r.employeeId)
      && r.nombre == (if o.Some? then Some(o.value.nombre) else None)
      && r.area == (if o.Some? then Some(o.value.area) else None)
      && r.rol == RoleOf(o)
  {
    var a, e, q := BuiltRow(emps, reqs, acts, k);
    o := e;
  }

  /** Two merge results for the same id agree when ids are unique. */
  lemma SameMatch(emps: seq<Employee>, o1: Option<Employee>, o2: Option<Employee>, id: string)
    requires UniqueEmployees(emps)
    requires o1.Some? ==> o1.value in emps && o1.value.employeeId == id
    requires o2.Some? ==> o2.value in emps && o2.value.employeeId == id
    requires o1.None? ==> forall e :: e in emps ==> e.employeeId != id
    requires o2.None? ==> forall e :: e in emps ==> e.employeeId != id
    ensures o1 == o2
  {
    if o1.Some? && o2.Some? {
      var p :| 0 <= p < |emps| && emps[p] == o1.value;
      var q :| 0 <= q < |emps| && emps[q] == o2.value;
      DistinctByIndex(emps, EmployeeKey, p, q);
    }
  }
}
