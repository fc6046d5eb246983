/** `recomendar_formacion` (app.py, lines 104-130): for one employee's rows, the
    three skills with the largest positive gap, each with a training action chosen
    by a first-match rule chain over the weight, the gap and the skill category. */
module Recommendations {
  import opened Nullable
  import opened Seqs
  import opened Ordering
  import opened Records

  /** The five training actions, in the order of the rule chain. */
  datatype Action = Prioritario | Focalizado | RefuerzoRapido | Microlearning | CursoCorto

  /** The text `recomendar_formacion` emits for each action. */
  function ActionText(a: Action): string
  {
    match a
    case Prioritario => "Upskilling prioritario: curso + práctica guiada (4–6 semanas)"
    case Focalizado => "Upskilling focalizado: workshop interno + ejercicios (2–3 semanas)"
    case RefuerzoRapido => "Refuerzo rápido: workshop interno + checklist"
    case Microlearning => "Microlearning + casos prácticos + repaso de política interna"
    case CursoCorto => "Curso corto + práctica aplicada en tareas del rol"
  }

  const ToolsAndCollaboration: string := "Tools & Collaboration"
  const SecurityAndSystems: string := "Security & Systems"

  /** `peso == 3`; false when the weight is missing. */
  predicate IsCritical(r: GapRecord)
  {
    r.peso == Some(3.0)
  }

  /** `gap_pos >= 2`; false when the gap is missing. */
  predicate LargeGap(r: GapRecord)
  {
    AtLeast(r.gapPos, 2.0)
  }

  /** The rule chain: critical skills first, split by the size of the gap, then
      two categories with their own action, then a default. A missing category
      matches neither named category. */
  function ChooseAction(r: GapRecord): (a: Action)
    ensures a == Prioritario <==> IsCritical(r) && LargeGap(r)
    ensures a == Focalizado <==> IsCritical(r) && !LargeGap(r)
    ensures a == RefuerzoRapido <==> !IsCritical(r) && r.categoria == Some(ToolsAndCollaboration)
    ensures a == Microlearning <==> !IsCritical(r) && r.categoria == Some(SecurityAndSystems)
    ensures a == CursoCorto <==>
      !IsCritical(r) && r.categoria != Some(ToolsAndCollaboration) && r.categoria != Some(SecurityAndSystems)
  {
    if IsCritical(r) && LargeGap(r) then Prioritario
    else if IsCritical(r) then Focalizado
    else if r.categoria == Some(ToolsAndCollaboration) then RefuerzoRapido
    else if r.categoria == Some(SecurityAndSystems) then Microlearning
    else CursoCorto
  }

  /** The same chain as data: a rule applies when each condition it names holds. */
  datatype Rule = Rule(critical: bool, minGap: Option<real>, category: Option<string>, action: Action)

  predicate Applies(rule: Rule, r: GapRecord)
  {
    && (rule.critical ==> IsCritical(r))
    && (rule.minGap.Some? ==> AtLeast(r.gapPos, rule.minGap.value))
    && (rule.category.Some? ==> r.categoria == rule.category)
  }

  function RuleTable(): seq<Rule>
  {
    [ Rule(true, Some(2.0), None, Prioritario),
      Rule(true, None, None, Focalizado),
      Rule(false, None, Some(ToolsAndCollaboration), RefuerzoRapido),
      Rule(false, None, Some(SecurityAndSystems), Microlearning),
      Rule(false, None, None, CursoCorto) ]
  }

  /** The action of the first rule that applies, if any. */
  function FirstMatch(rules: seq<Rule>, r: GapRecord): (a: Option<Action>)
    ensures a.Some? <==> exists i :: 0 <= i < |rules| && Applies(rules[i], r)
    ensures a.Some? ==> exists i :: 0 <= i < |rules| && Applies(rules[i], r) && rules[i].action == a.value
                                   && (forall j :: 0 <= j < i ==> !Applies(rules[j], r))
  {
    if rules == [] then None
    else if Applies(rules[0], r) then Some(rules[0].action)
    else
      var rest := FirstMatch(rules[1..], r);
      if rest.Some? then
        var i :| 0 <= i < |rules[1..]| && Applies(rules[1..][i], r) && rules[1..][i].action == rest.value
                 && (forall j :: 0 <= j < i ==> !Applies(rules[1..][j], r));
        assert Applies(rules[i + 1], r) && forall j :: 0 <= j < i + 1 ==> !Applies(rules[j], r) by {
          forall j | 0 <= j < i + 1 ensures !Applies(rules[j], r) {
            if j > 0 {
              assert rules[j] == rules[1..][j - 1];
            }
          }
        }
        rest
      else
        assert forall i :: 0 <= i < |rules| ==> !Applies(rules[i], r) by {
          forall i | 0 <= i < |rules| ensures !Applies(rules[i], r) {
            if i > 0 {
              assert rules[i] == rules[1..][i - 1];
            }
          }
        }
        rest
  }

  /** The chain always chooses, and chooses what the first applicable rule of the
      table says. */
  lemma ChooseActionIsFirstMatch(r: GapRecord)
    ensures FirstMatch(RuleTable(), r) == Some(ChooseAction(r))
  {
    var t := RuleTable();
    assert t[1..] == [t[1], t[2], t[3], t[4]];
    assert t[1..][1..] == [t[2], t[3], t[4]];
    assert t[1..][1..][1..] == [t[3], t[4]];
    assert t[1..][1..][1..][1..] == [t[4]];
  }

  /** One recommendation: the skill, its gap, its weight truncated to an integer
      (missing when the weight is missing), and the action text. */
  datatype Recommendation = Recommendation(skill: string, gap: real, peso: Option<int>, recomendacion: string)

  predicate HasPositiveGap(r: GapRecord)
  {
    Positive(r.gapPos)
  }

  /** The rows with a positive gap. */
  function PositiveRows(rs: seq<GapRecord>): (pos: seq<GapRecord>)
    ensures forall r :: r in pos <==> r in rs && HasPositiveGap(r)
  {
    Filter(rs, HasPositiveGap)
  }

  /** Sort column `gap_pos` alone. */
  function GapRank(r: GapRecord): Rank
  {
    Rank(r.gapPos, None)
  }

  /** On rows with a defined gap, the rank order is the order of the gaps. */
  lemma GapRankOrder(x: GapRecord, y: GapRecord)
    requires x.gapPos.Some? && y.gapPos.Some?
    requires RankGeq(GapRank(x), GapRank(y))
    ensures y.gapPos.value <= x.gapPos.value
  {
  }

  /** The three rows with the largest positive gap (all of them when fewer),
      sorted by gap, and no positive-gap row left out outranks one kept. */
  function TopGaps(rs: seq<GapRecord>): (top: seq<GapRecord>)
    ensures |top| == Min(3, |PositiveRows(rs)|)
    ensures forall r :: r in top ==> r in rs && HasPositiveGap(r)
    ensures multiset(top) <= multiset(PositiveRows(rs))
    ensures SortedDesc(top, GapRank)
    ensures forall x, y :: x in top && y in multiset(PositiveRows(rs)) - multiset(top) ==>
      RankGeq(GapRank(x), GapRank(y))
  {
    var pos := PositiveRows(rs);
    var top := TopN(pos, 3, GapRank);
    assert forall r :: r in top ==> r in pos by {
      forall r | r in top ensures r in pos {
        assert r in multiset(top);
      }
    }
    top
  }

  /** The recommendation for one row with a positive gap. */
  function Entry(r: GapRecord): (e: Recommendation)
    requires HasPositiveGap(r)
    ensures e.skill == r.skill && e.gap == r.gapPos.value && e.gap > 0.0
    ensures e.peso.Some? <==> r.peso.Some?
    ensures r.peso.Some? && r.peso.value >= 0.0 ==>
      0 <= e.peso.value && e.peso.value as real <= r.peso.value < e.peso.value as real + 1.0
    ensures r.peso.Some? && r.peso.value < 0.0 ==>
      e.peso.value <= 0 && e.peso.value as real - 1.0 < r.peso.value <= e.peso.value as real
    ensures e.recomendacion == ActionText(ChooseAction(r))
  {
    var peso := if r.peso.Some? then Some(Trunc(r.peso.value)) else None;
    Recommendation(r.skill, r.gapPos.value, peso, ActionText(ChooseAction(r)))
  }

  function Entries(top: seq<GapRecord>): (recs: seq<Recommendation>)
    requires forall r :: r in top ==> HasPositiveGap(r)
    ensures |recs| == |top|
    ensures forall i :: 0 <= i < |top| ==> recs[i] == Entry(top[i])
  {
    seq(|top|, i requires 0 <= i < |top| => Entry(top[i]))
  }

  /** Entries made from positive-gap rows of `rs` sorted by gap have positive,
      non-increasing gaps, and each is the entry of a row of `rs`. */
  lemma EntriesFacts(rs: seq<GapRecord>, top: seq<GapRecord>)
    requires forall r :: r in top ==> r in rs && HasPositiveGap(r)
    requires SortedDesc(top, GapRank)
    ensures forall i :: 0 <= i < |top| ==> Entries(top)[i].gap > 0.0
    ensures forall i, j :: 0 <= i < j < |top| ==> Entries(top)[i].gap >= Entries(top)[j].gap
    ensures forall e :: e in Entries(top) ==> exists r :: r in rs && HasPositiveGap(r) && e == Entry(r)
  {
    var recs := Entries(top);
    forall i | 0 <= i < |top| ensures recs[i].gap > 0.0 {
      assert top[i] in top;
    }
    forall i, j | 0 <= i < j < |top| ensures recs[i].gap >= recs[j].gap {
      assert top[i] in top && top[j] in top;
      GapRankOrder(top[i], top[j]);
    }
    forall e | e in recs ensures exists r :: r in rs && HasPositiveGap(r) && e == Entry(r) {
      var i :| 0 <= i < |recs| && recs[i] == e;
      assert top[i] in top;
    }
  }

  /** There is a positive-gap row exactly when some row has a positive gap. */
  lemma PositiveRowsEmpty(rs: seq<GapRecord>)
    ensures |PositiveRows(rs)| == 0 <==> forall r :: r in rs ==> !HasPositiveGap(r)
  {
    var pos := PositiveRows(rs);
    if |pos| > 0 {
      assert pos[0] in pos;
    }
  }

  /** `recomendar_formacion`: one entry per row of the top three positive gaps, in
      order of non-increasing gap; none when no row has a positive gap. */
  function Recommend(rs: seq<GapRecord>): (recs: seq<Recommendation>)
    ensures |recs| == Min(3, CountIf(rs, HasPositiveGap))
    ensures recs == [] <==> forall r :: r in rs ==> !HasPositiveGap(r)
    ensures forall i :: 0 <= i < |recs| ==> recs[i].gap > 0.0
    ensures forall i, j :: 0 <= i < j < |recs| ==> recs[i].gap >= recs[j].gap
    ensures forall e :: e in recs ==> exists r :: r in rs && HasPositiveGap(r) && e == Entry(r)
    ensures |recs| == |TopGaps(rs)|
    ensures forall i :: 0 <= i < |TopGaps(rs)| ==> recs[i] == Entry(TopGaps(rs)[i])
  {
    var top := TopGaps(rs);
    EntriesFacts(rs, top);
    PositiveRowsEmpty(rs);
    Entries(top)
  }

  /** No positive-gap row left out of the recommendations has a larger gap than
      one that was kept. */
  lemma RecommendKeepsLargest(rs: seq<GapRecord>)
    ensures forall i, y :: 0 <= i < |Recommend(rs)| && y in multiset(PositiveRows(rs)) - multiset(TopGaps(rs)) ==>
      y.gapPos.Some? && y.gapPos.value <= Recommend(rs)[i].gap
  {
    var top := TopGaps(rs);
    var recs := Recommend(rs);
    assert recs == Entries(top);
    forall i, y | 0 <= i < |recs| && y in multiset(PositiveRows(rs)) - multiset(top)
      ensures y.gapPos.Some? && y.gapPos.value <= recs[i].gap
    {
      assert y in multiset(PositiveRows(rs));
      assert y in PositiveRows(rs);
      assert top[i] in top;
      GapRankOrder(top[i], y);
    }
  }
}
