/** `skills_criticas_en_riesgo` (app.py, lines 98-102): the rows of `gap_por_skill`
    that are critical (weight 3), affect at least a threshold percentage of the
    employees evaluated for the skill, and carry some gap. */
module Risk {
  import opened Nullable
  import opened Seqs
  import opened Ordering
  import opened Aggregations

  /** A skill row at risk for the given threshold. A missing percentage never
      reaches the threshold, and a missing weight is not 3. */
  predicate AtRisk(g: SkillGap, threshold: real)
  {
    AtLeast(g.pctEmpleadosConGap, threshold) && g.peso == Some(3.0) && g.gapTotal > 0.0
  }

  /** The skill rows at risk, sorted by total gap then percentage, descending. */
  function CriticalAtRisk(skills: seq<SkillGap>, threshold: real): (out: seq<SkillGap>)
    ensures SortedDesc(out, SkillRank)
    ensures |out| <= |skills|
    ensures forall g :: g in out ==> g in skills && AtRisk(g, threshold)
    ensures forall g :: g in skills && AtRisk(g, threshold) ==> g in out
  {
    var kept := Filter(skills, g => AtRisk(g, threshold));
    var out := SortDesc(kept, SkillRank);
    assert forall g :: g in out <==> g in kept by {
      forall g ensures g in out <==> g in kept {
        assert g in out <==> g in multiset(out);
        assert g in kept <==> g in multiset(kept);
      }
    }
    out
  }

  /** Each row at risk keeps its multiplicity, and every other row is dropped. */
  lemma CriticalAtRiskCount(skills: seq<SkillGap>, threshold: real, g: SkillGap)
    ensures multiset(CriticalAtRisk(skills, threshold))[g]
         == if AtRisk(g, threshold) then multiset(skills)[g] else 0
  {
    FilterCount(skills, g => AtRisk(g, threshold), g);
  }

  /** Raising the threshold can only shrink the result. */
  lemma CriticalAtRiskMonotone(skills: seq<SkillGap>, lo: real, hi: real)
    requires lo <= hi
    ensures multiset(CriticalAtRisk(skills, hi)) <= multiset(CriticalAtRisk(skills, lo))
    ensures |CriticalAtRisk(skills, hi)| <= |CriticalAtRisk(skills, lo)|
  {
    var a := multiset(CriticalAtRisk(skills, hi));
    var b := multiset(CriticalAtRisk(skills, lo));
    forall g ensures a[g] <= b[g] {
      CriticalAtRiskCount(skills, hi, g);
      CriticalAtRiskCount(skills, lo, g);
    }
    assert a <= b;
    assert b == a + (b - a);
  }
}
