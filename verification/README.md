# Skills-first tech gaps: a Dafny model of the gap pipeline

The application compares the skills employees have with the skills their roles
require. It reads three tables (employees, role requirements, current skills),
merges them into one record per employee skill, and derives the gap between the
required and the current level. It then rolls the records up by skill, by
employee and by area and role, computes headline figures, flags critical skills
at risk, and recommends training for one employee. A sidebar filter restricts
everything to one area and/or role.

This project models that pipeline as pure functions over sequences and proves
what it promises:

- the merge keeps every current-skill row and pairs each row with every right row
  it matches, as often as that row occurs;
- the derived columns are consistent;
- the rollups are sorted permutations of their groups, with bounded counts and
  percentages, and they neither lose nor double count gap;
- the headline counts are the distinct employee ids, with and without a gap, when
  each id has one name, area and role;
- the top-N selections keep the highest-ranked rows;
- the risk filter shrinks as its threshold rises;
- the recommendation rule chain agrees with a first-match decision table;
- the area/role filter is a one-pass, idempotent selection that commutes with grouping.

Modules, one per file:

| module | file | models |
|---|---|---|
| `Nullable` | nullable.dfy | missing values (`NaN`) as `Option<real>`, with the column arithmetic and comparisons pandas applies to them |
| `Seqs` | seqs.dfy | filtering, sums, counts and distinct values over sequences |
| `Ordering` | ordering.dfy | `sort_values(..., ascending=False)` with missing values last, and `head(n)` |
| `Grouping` | grouping.dfy | `groupby(...).agg(...)` with `dropna=True` |
| `Records` | records.dfy | the two left merges and the derived columns of `load_data` |
| `Aggregations` | aggregations.dfy | `gap_por_skill`, `gap_por_persona`, `gap_por_rol_area`, `kpis_agregados` |
| `Risk` | risk.dfy | `skills_criticas_en_riesgo` |
| `Recommendations` | recommendations.dfy | `recomendar_formacion` |
| `Filters` | filters.dfy | the sidebar's area/role filter of `df` |

A missing value is `None`. Any comparison with a missing value is false, so a
missing `gap_pos` gives `tiene_gap = false` and a missing `peso` is never 3.
`sum` skips missing values and gives 0 on an empty group. `mean` and `max` skip
them and are missing when nothing is left. `0 / 0` is missing.
A quotient is pinned by multiplying it back: `Nullable.Times(n, x)` is `x` added
`n` times, which equals `n * x` (`Nullable.TimesIsProduct`).

The by-area/role percentage follows the code: it is the row-level mean of
`tiene_gap` times 100, the share of the group's (employee, skill) rows with a
gap. It is not a per-employee "has any gap" rollup. The application has no
summary or narrative formatter, so none is modelled.

## Model

| member | source | states |
|---|---|---|
| Nullable.Minus | app.py:32 | the difference of two columns is defined exactly when both operands are, and then adds back to the minuend |
| Nullable.ClipLower0 | app.py:33 | `clip(lower=0)` keeps a value missing exactly when it was missing; otherwise the result is non-negative, at least the input, and either 0 or the input |
| Nullable.Percent | app.py:56 | a count over a count times 100 is defined exactly when the denominator is positive; then the denominator times the result is 100 times the numerator, the result is non-negative, it is at most 100 when the numerator does not exceed the denominator, and it is 0 exactly when the numerator is 0 |
| Nullable.Trunc | app.py:126 | `int()` of a float truncates toward zero: the integer lies within one unit of the value, on the side of zero |
| Ordering.SortDesc | app.py:57 | a descending sort returns the same rows (as a multiset) in non-increasing lexicographic order of the two sort columns, with missing values last |
| Ordering.TopN | app.py:93-94 | `sort_values(...).head(n)` returns min(n, rows) rows, sorted, drawn from the input, and no row left out outranks a kept row |
| Grouping.GroupKeys | app.py:47 | the group keys are distinct, each is carried by some row, and every row with a fully defined key has its key among them (rows with a missing key part are dropped) |
| Grouping.RollupGroups | app.py:46-55 | every output row of a group-by is the summary of one group key carried by the input, and every defined key's group summary is in the output |
| Grouping.RollupConserves | app.py:46-55 | when a summary column is the group's sum of a row column, the column summed over all groups equals the row column summed over all rows with a defined key |
| Records.Expand | app.py:16-24 | the partner rows of one left row all carry that left row; they are the right rows it matches, one row each, or a single row with no partner exactly when it matches none; every matching right row appears |
| Records.ExpandCount | app.py:16-24 | each matching right row is paired with the left row exactly as many times as it occurs among the matches |
| Records.LeftJoin | app.py:16-24 | a left merge has one row per (left row, matching right row) pair plus one row per left row that matches nothing, so at least one per left row; every left row appears; every output row pairs a left row with a matching right row, or with no partner when no right row matches; and every matching (left, right) pair appears in the output |
| Records.LeftJoinSingle | app.py:16-24 | merging a one-row left table gives exactly that row's partner rows |
| Records.LeftJoinAppend | app.py:16-24 | the merge of two stacked left tables is the merge of the first followed by the merge of the second, so with `LeftJoinSingle` and `ExpandCount` the output is each left row's partner rows in left order, each matching right row repeated as often as it occurs |
| Records.LeftJoinOneToOne | app.py:16-24 | when the right keys are unique and matching implies equal keys, the merge has exactly one output row per left row, in left order |
| Records.Derive | app.py:16-36 | each merged row keeps the skill row's employee id and skill and its coerced current level; a matched requirement contributes its coerced required level and weight and its category, a missing one leaves them missing; a matched employee contributes name, area, role and seniority, a missing one leaves them missing; and `gap` = required − current when both are defined, `gap_pos` = `clip(gap, 0)`, `tiene_gap` iff `gap_pos` is defined and > 0, `skill_critica` iff `peso` is 3 |
| Records.BuildRecords | app.py:16-36 | the merged table has at least as many rows as the current-skill table, and every row satisfies the derived-column relations (`BuildKeepsEverySkillRow` states that each skill row survives, and `BuiltRow` which skill row, employee and requirement each row carries) |
| Records.BuiltRow | app.py:16-36 | every row of the merged table is the derivation of one current-skill row, the employee with its id (or none when no employee has it) and the requirement for its role and skill (or none when no requirement matches) |
| Records.BuildRowsComeFromSkillRows | app.py:16-24 | every row of the merged table carries the employee id, skill and coerced level of some current-skill row |
| Records.BuildKeepsEverySkillRow | app.py:16-24 | every current-skill row survives both merges with its employee, skill and coerced level |
| Records.BuildOneRowPerSkillRow | app.py:16-24 | with unique employee ids and unique `(rol, skill)` requirements, the table has exactly one row per current-skill row, in order |
| Records.BuildNoRequirement | app.py:20-36 | a record whose `(rol, skill)` has no requirement has no required level, no gap, no positive gap, `tiene_gap` false and `skill_critica` false |
| Records.BuildMatchedRequirement | app.py:20-30 | with unique `(rol, skill)` requirements, a record whose role and skill match a requirement carries that requirement's coerced `nivel_requerido` and `peso` and its `categoria` |
| Records.BuildIdentityDetermined | app.py:16-19 | with unique employee ids, records with the same `employee_id` carry the same name, area and role |
| Records.RecordEmployee | app.py:18-19 | a record's name, area and role are those of the employee the first merge paired with it, who has the record's id, or are missing when no employee has that id |
| Aggregations.MeanGapPos | app.py:51 | the group mean of `gap_pos` is missing exactly when every `gap_pos` in the group is missing, and then the group's `gap_pos` sum is 0; otherwise the number of defined values times the mean is their sum |
| Aggregations.MeanGapPosBetween | app.py:51 | the group mean of `gap_pos` lies between any lower and upper bound of the defined values |
| Aggregations.MaxPeso | app.py:53 | the group maximum of `peso` is missing exactly when every weight is missing; otherwise it is one of the weights and no weight exceeds it |
| Aggregations.GroupGapFigures | app.py:50-52 | on derived records, a group's gap total and gap mean are non-negative |
| Aggregations.SummarizeSkill | app.py:47-56 | a skill summary carries its group key; `empleados_total` is the number of distinct employee ids in the group; `gap_promedio` is the group mean of `gap_pos` and `peso` the group maximum; a defined `gap_promedio` times the number of defined `gap_pos` is `gap_total`, and `gap_total` is 0 when no `gap_pos` is defined; `empleados_con_gap` is 0 exactly when no row of the group has a gap; both counts are at most the group's rows, a non-empty group has at least one employee and a defined percentage, and the employee count times the percentage is 100 times `empleados_con_gap` |
| Aggregations.BySkill | app.py:45-58 | `gap_por_skill` is a permutation of the skill-group summaries, sorted descending by (`gap_total`, `pct_empleados_con_gap`) |
| Aggregations.BySkillGroups | app.py:47-55 | each row of `gap_por_skill` summarises the non-empty group of its own (skill, category), and each record with a category is summarised by a row |
| Aggregations.BySkillBounds | app.py:47-56 | in `gap_por_skill`, `empleados_con_gap` never exceeds the group's rows, at least one employee is evaluated, `gap_total` and `gap_promedio` are non-negative, and the percentage is defined and non-negative |
| Aggregations.BySkillPercent | app.py:49-56 | when each (employee, skill) pair occurs at most once, every `pct_empleados_con_gap` lies in [0, 100] |
| Aggregations.BuiltSkillPercent | app.py:16-56 | on the merged table built from unique employees, unique requirements and unique (employee, skill) rows, every skill percentage lies in [0, 100] |
| Aggregations.BySkillConserves | app.py:47-52 | the `gap_total`s of `gap_por_skill` add up to the `gap_pos` of all records with a category |
| Aggregations.BySkillGapCountConserves | app.py:47-50 | the `empleados_con_gap` of `gap_por_skill` add up to the number of records with a category and a gap |
| Aggregations.SummarizePerson | app.py:62-70 | a person summary carries its key; `skills_evaluadas` is the group's row count; `skills_con_gap` is at most that and is 0 exactly when no row has a gap; `gap_promedio` is the group mean of `gap_pos`, and times the number of defined `gap_pos` is `gap_total`, which is 0 when no `gap_pos` is defined; the percentage is defined exactly for a non-empty group, lies in [0, 100], and times `skills_evaluadas` is 100 times `skills_con_gap` |
| Aggregations.ByPerson | app.py:60-72 | `gap_por_persona` is a permutation of the employee-group summaries, sorted descending by (`gap_total`, `pct_skills_con_gap`) |
| Aggregations.ByPersonBounds | app.py:62-70 | each row of `gap_por_persona` has at least one skill evaluated, no more skills with a gap than evaluated, a percentage in [0, 100], and on derived records a non-negative `gap_total` |
| Aggregations.ByPersonConserves | app.py:62-64 | the `skills_evaluadas` of `gap_por_persona` add up to the number of records of known employees |
| Aggregations.ByPersonGapTotalConserves | app.py:62-66 | the `gap_total`s of `gap_por_persona` add up to the `gap_pos` of all records of known employees |
| Aggregations.ByPersonGapCountConserves | app.py:62-65 | the `skills_con_gap` of `gap_por_persona` add up to the number of records of known employees with a gap |
| Aggregations.DifferentGroupDifferentId | app.py:62 | when the id determines name, area and role, two different employee groups have different ids |
| Aggregations.ByPersonDistinctIds | app.py:62 | when the id determines name, area and role, `gap_por_persona` has one row per `employee_id` |
| Aggregations.SummarizeRoleArea | app.py:76-84 | an area/role summary carries its key; `empleados` is the number of distinct employee ids in the group, between 1 and the group's rows for a non-empty group; `gap_promedio` is the group mean of `gap_pos`, and times the number of defined `gap_pos` is `gap_total`, which is 0 when no `gap_pos` is defined; the row-mean percentage is defined exactly for a non-empty group, lies in [0, 100], times the row count is 100 times the rows with a gap, and is 0 exactly when no row has a gap |
| Aggregations.ByRoleArea | app.py:74-86 | `gap_por_rol_area` is a permutation of the area/role summaries, sorted descending by (`gap_promedio`, `gap_total`) with missing means last |
| Aggregations.ByRoleAreaBounds | app.py:76-84 | each row of `gap_por_rol_area` has at least one employee, a percentage in [0, 100], and on derived records non-negative `gap_total` and `gap_promedio` |
| Aggregations.ByRoleAreaConserves | app.py:76-80 | the `gap_total`s of `gap_por_rol_area` add up to the `gap_pos` of all records with an area and a role |
| Aggregations.TopRoles | app.py:93 | `top_roles` holds min(5, rows) rows of `gap_por_rol_area`, sorted by `gap_promedio` alone with missing means last, drawn from the table, and no omitted row outranks a kept one |
| Aggregations.Top3Skills | app.py:94 | `top3_skills` holds min(3, rows) rows of `gap_por_skill` with non-increasing `gap_total`, drawn from the table, and no omitted skill has a larger `gap_total` than a kept one |
| Aggregations.KpisAgregados | app.py:88-96 | both employee counts are at most the rows of `gap_por_persona`; a non-empty table counts at least one employee, and one row per id counts every row; `empleados_con_brecha` is 0 exactly when no row has `skills_con_gap` > 0; the percentage is defined exactly when the table is non-empty and times `empleados_total` is 100 times `empleados_con_brecha`; the two top lists are the selections above |
| Aggregations.KpisBrechaBound | app.py:89-91 | with one row per employee id, `empleados_con_brecha <= empleados_total` and the percentage lies in [0, 100] |
| Aggregations.KpisBrechaMeansGap | app.py:60-90 | on the rollups of a record table, `empleados_con_brecha` is 0 exactly when no record of a known employee has a gap |
| Aggregations.KpisTotalCountsGroups | app.py:60-89 | when the id determines name, area and role, `empleados_total` is the number of employee groups of the record table |
| Aggregations.KpisTotalCountsIds | app.py:60-89 | on the rollups of a record table, `empleados_total` is the number of distinct employee ids among the records of known employees |
| Aggregations.KpisBrechaCountsIds | app.py:60-90 | when the id determines name, area and role, `empleados_con_brecha` is the number of distinct employee ids among the records of known employees with a gap, so an employee with several gapped skills counts once |
| Aggregations.KpisDuplicateIdExceeds | app.py:88-91 | two `gap_por_persona` rows with one id but different names, both with a gap, give `empleados_total` 1, `empleados_con_brecha` 2 and a percentage of 200 |
| Aggregations.KpisOnBuiltTable | app.py:16-91 | on the table built from an employee table with unique ids, `empleados_con_brecha <= empleados_total` |
| Risk.CriticalAtRisk | app.py:98-102 | the result is sorted descending by (`gap_total`, percentage), draws only from its input, and holds exactly the rows with weight 3, percentage at least the threshold and a positive `gap_total` |
| Risk.CriticalAtRiskCount | app.py:101 | every row at risk keeps its multiplicity and every other row is dropped |
| Risk.CriticalAtRiskMonotone | app.py:101 | raising the threshold can only shrink the result, as a multiset and in length |
| Recommendations.ChooseAction | app.py:112-121 | the action is prioritario iff weight 3 and gap ≥ 2; focalizado iff weight 3 and gap < 2 (or missing); refuerzo rápido iff not critical and category "Tools & Collaboration"; microlearning iff not critical and category "Security & Systems"; curso corto otherwise |
| Recommendations.ChooseActionIsFirstMatch | app.py:112-121 | the chosen action is the action of the first applicable rule of the five-rule table, and some rule always applies |
| Recommendations.TopGaps | app.py:108 | the selection holds min(3, rows with `gap_pos` > 0) rows, a sub-multiset of the positive-gap rows (so no row is repeated beyond its multiplicity), sorted by gap, and no omitted positive-gap row outranks a kept one |
| Recommendations.Entry | app.py:123-128 | an entry carries the skill, `gap` equal to the positive `gap_pos`, `peso` missing exactly when the weight is missing and otherwise the weight truncated toward zero (for either sign), and the chosen action's text |
| Recommendations.Recommend | app.py:104-130 | `recomendar_formacion` emits one entry per selected top-gap row, in order, each the entry built from that row: min(3, rows with a positive gap) entries with positive, non-increasing gaps; it is empty exactly when no row has a positive gap |
| Recommendations.RecommendKeepsLargest | app.py:108 | no positive-gap row left out of the recommendations has a larger gap than any entry |
| Filters.FilterAreaRole | app.py:143-147 | a row survives the filter exactly when it matches the chosen area (unless "Todas") and the chosen role (unless "Todos"); choosing both "Todas" and "Todos" keeps the table unchanged |
| Filters.FilterAreaRoleIsSelection | app.py:143-147 | the two-step filter equals a single pass selecting the matching rows, in order and with multiplicity |
| Filters.FilterAreaRoleIdempotent | app.py:143-147 | filtering twice with the same choices is filtering once |
| Filters.FilteredGroupMembers | app.py:143-152 | each group of the filtered table holds exactly the selected rows of the same group of the whole table |
| Filters.FilteredRoleAreaRows | app.py:143-152 | after choosing an area (role), every row of `gap_por_rol_area` belongs to that area (role) |
| Filters.FilterKeepsUniqueness | app.py:143-152 | the filter keeps unique (employee, skill) pairs unique and keeps the id determining the identity columns |
| Filters.FilteredKpis | app.py:143-155 | on the filtered table built from unique employee ids, `empleados_con_brecha <= empleados_total` and the percentage lies in [0, 100] |

## Left out

- CSV reading and the `@st.cache_data` memoisation (app.py:10-14, 40): the three tables are the inputs `emps`, `reqs` and `acts`.
- Streamlit page setup and UI (app.py:6, 135-221): widgets, tabs, tables, metric formatting, and the employee picker's label building and its own filter of the employee table. The filter's `area_sel` and `rol_sel` and the risk threshold are parameters.
- The slider's range for the threshold (10 to 70 in steps of 5, default 30): `Risk.CriticalAtRisk` accepts any real threshold, the default of 30 included.
- IEEE floating point: levels, weights and gaps are exact reals, and `NaN` is `None`. No infinity arises, because a zero denominator only meets a zero numerator (an empty `gap_por_persona`).
- The order of rows whose sort columns tie: pandas leaves it unspecified. The model sorts with one fixed insertion sort, and every contract states only sortedness and permutation.
- Blank text cells in the input tables: ids, names, areas, roles, skills and categories are always present strings. A missing area, role, name or category arises only from a merge that found no partner. A missing role matches no requirement, because every requirement row names its role.
- Parsing of numeric text by `pd.to_numeric`: a raw cell is a number (including text that spells one, taken as already parsed), a non-numeric text or blank, and only a number coerces to a value.
- The unused `df_` parameters of `kpis_agregados` and `skills_criticas_en_riesgo` (app.py:88, 98).
- Aggregations.KpisBrechaBound: holds only with one `gap_por_persona` row per employee id, and so do `Aggregations.KpisOnBuiltTable` and `Filters.FilteredKpis`, which assume unique ids in the employee table. An id listed with two different names, areas or roles splits into two person rows (app.py:62), so `empleados_con_brecha` can exceed `empleados_total` and the percentage can exceed 100 (`Aggregations.KpisDuplicateIdExceeds`).
- Aggregations.BySkillPercent: bounds the percentage only when each (employee, skill) pair occurs once, because `empleados_con_gap` counts rows while `empleados_total` counts distinct employees, so a duplicated pair can push the quotient above 100.
- Recommendations.Recommend: the `gap` of an entry is the exact `gap_pos`; `float()` on it is the identity here.
