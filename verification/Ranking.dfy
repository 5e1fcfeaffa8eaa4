/** The ranking of hypotheses (causal.py `_rank_hypotheses`). */
module Ranking {
  import opened Order
  import opened Seqs
  import opened Causal

  datatype Hypothesis = Hypothesis(id: string, ruleId: string, score: nat, rank: nat)

  function SeverityScore(severity: string): int {
    if severity == "critical" then 35 else if severity == "warning" then 20 else if severity == "info" then 5 else 0
  }

  function RoleScore(role: string): int {
    if role == "possible_cause" then 20 else if role == "configuration_risk" then 5 else 0
  }

  function StatusScore(status: string): int {
    if status == "active" then 15 else if status == "unknown" || status == "" then 5 else 0
  }

  function ConfidenceScore(confidence: string): int {
    if confidence == "high" then 15 else if confidence == "medium" then 10 else if confidence == "low" then 5 else 0
  }

  function AtMost(x: int, limit: int): int {
    if x < limit then x else limit
  }

  /** How many consequences a finding may explain. */
  function ExplainedBy(downstream: Downstream, f: Finding): nat {
    if f.id in downstream then |downstream[f.id]| else 0
  }

  function Score(downstream: Downstream, f: Finding): nat {
    var raw := SeverityScore(f.severity) + RoleScore(f.role) + StatusScore(f.status) + ConfidenceScore(f.confidence)
               + AtMost(15, 5 * ExplainedBy(downstream, f))
               - AtMost(15, 5 * f.counterEvidence) - AtMost(10, 2 * f.missingChecks);
    if raw < 0 then 0 else AtMost(100, raw)
  }

  /** A step in severity is worth 15 points at the top and 5 at the bottom, as long as the score is not
      cut off at zero. */
  lemma SeveritySteps(d: Downstream, f: Finding, other: string)
    requires other !in {"critical", "warning", "info"}
    ensures var lowest := Score(d, f.(severity := other));
            lowest > 0 ==>
              && Score(d, f.(severity := "info")) == lowest + 5
              && Score(d, f.(severity := "warning")) == lowest + 20
              && Score(d, f.(severity := "critical")) == lowest + 35
  {
  }

  lemma RoleSteps(d: Downstream, f: Finding, other: string)
    requires other !in {"possible_cause", "configuration_risk"}
    ensures var lowest := Score(d, f.(role := other));
            lowest > 0 ==> Score(d, f.(role := "configuration_risk")) == lowest + 5
                           && Score(d, f.(role := "possible_cause")) == lowest + 20
  {
  }

  lemma StatusSteps(d: Downstream, f: Finding)
    ensures var lowest := Score(d, f.(status := "resolved"));
            lowest > 0 ==> Score(d, f.(status := "unknown")) == Score(d, f.(status := "")) == lowest + 5
                           && Score(d, f.(status := "active")) == lowest + 15
  {
  }

  lemma ConfidenceSteps(d: Downstream, f: Finding)
    ensures var lowest := Score(d, f.(confidence := "none"));
            lowest > 0 ==> Score(d, f.(confidence := "low")) == lowest + 5
                           && Score(d, f.(confidence := "medium")) == lowest + 10
                           && Score(d, f.(confidence := "high")) == lowest + 15
  {
  }

  /** An objection costs 5 points, the first three of them, and an open check 2 points, the first five,
      as long as the score is not cut off at zero. */
  lemma ObjectionSteps(d: Downstream, f: Finding)
    ensures var g := f.(counterEvidence := f.counterEvidence + 1);
            Score(d, g) > 0 ==> Score(d, f) == Score(d, g) + if f.counterEvidence < 3 then 5 else 0
    ensures var g := f.(missingChecks := f.missingChecks + 1);
            Score(d, g) > 0 ==> Score(d, f) == Score(d, g) + if f.missingChecks < 5 then 2 else 0
  {
  }

  /** A further explained consequence is worth 5 points, the first three of them. */
  lemma ExplanationSteps(d: Downstream, f: Finding, k: string)
    requires !Linked(d, f.id, k) && Score(d, f) > 0
    ensures Score(Link(d, f.id, k), f)
         == Score(d, f) + if (if f.id in d then |d[f.id]| else 0) < 3 then 5 else 0
  {
    var before := if f.id in d then d[f.id] else {};
    assert |before + {k}| == |before| + 1;
  }

  /** The full score is for a critical, active possible cause of high confidence that explains at least
      three consequences, with nothing against it and nothing left to check; and for no other. */
  lemma FullScoreExactly(d: Downstream, f: Finding)
    ensures Score(d, f) == 100
        <==> (f.severity == "critical" && f.role == "possible_cause" && f.status == "active" && f.confidence == "high"
              && f.id in d && |d[f.id]| >= 3 && f.counterEvidence == 0 && f.missingChecks == 0)
  {
  }

  /** Support counts for a finding, objections and open checks against it. */
  lemma MoreSupportScoresHigher(d: Downstream, e: Downstream, f: Finding, g: Finding)
    requires f.severity == g.severity && f.role == g.role && f.status == g.status && f.confidence == g.confidence
    requires ExplainedBy(d, f) <= ExplainedBy(e, g)
    requires g.counterEvidence <= f.counterEvidence && g.missingChecks <= f.missingChecks
    ensures Score(d, f) <= Score(e, g) <= 100
  {
  }

  /** Another recorded explanation lowers no score, and raises at most the score of its cause. */
  lemma LinkLowersNoScore(downstream: Downstream, c: string, k: string, f: Finding)
    ensures Score(downstream, f) <= Score(Link(downstream, c, k), f) <= Score(downstream, f) + 5
    ensures f.id != c || Linked(downstream, c, k) ==> Score(Link(downstream, c, k), f) == Score(downstream, f)
  {
    if f.id == c {
      var before := if c in downstream then downstream[c] else {};
      assert before + {k} == if k in before then before else before + {k};
      assert |before| <= |before + {k}| <= |before| + 1;
    }
    MoreSupportScoresHigher(downstream, Link(downstream, c, k), f, f);
  }

  /** The sort key (-score, rule id, finding id). */
  predicate Before(a: Hypothesis, b: Hypothesis) {
    a.score > b.score
    || (a.score == b.score && (if a.ruleId == b.ruleId then StrLeq(a.id, b.id) else StrLeq(a.ruleId, b.ruleId)))
  }

  lemma BeforeIsPreorder()
    ensures Preorder(Before)
  {
    StrLeqIsTotalOrder();
  }

  function Unranked(downstream: Downstream): Finding -> Hypothesis {
    (f: Finding) => Hypothesis(f.id, f.ruleId, Score(downstream, f), 0)
  }

  predicate IsCandidate(f: Finding) {
    f.role != "consequence"
  }

  function Scored(downstream: Downstream, findings: seq<Finding>): seq<Hypothesis> {
    Map(Unranked(downstream), Filter(IsCandidate, findings))
  }

  function InOrder(downstream: Downstream, findings: seq<Finding>): seq<Hypothesis> {
    SortBy(Before, Scored(downstream, findings))
  }

  lemma ScoredNext(downstream: Downstream, findings: seq<Finding>, i: nat)
    requires i < |findings|
    ensures Scored(downstream, findings[..i + 1])
         == Scored(downstream, findings[..i])
            + if IsCandidate(findings[i]) then [Unranked(downstream)(findings[i])] else []
  {
    FilterAppend(IsCandidate, findings[..i], [findings[i]]);
    assert findings[..i + 1] == findings[..i] + [findings[i]];
    var added := Filter(IsCandidate, [findings[i]]);
    assert added == if IsCandidate(findings[i]) then [findings[i]] else [];
    assert Scored(downstream, findings[..i + 1])
        == Scored(downstream, findings[..i]) + Map(Unranked(downstream), added);
  }

  /** The first loop of `_rank_hypotheses`. */
  method ScoreFindings(downstream: Downstream, findings: seq<Finding>) returns (scored: seq<Hypothesis>)
    ensures scored == Scored(downstream, findings)
  {
    scored := [];
    for i := 0 to |findings|
      invariant scored == Scored(downstream, findings[..i])
    {
      ScoredNext(downstream, findings, i);
      var f := findings[i];
      if f.role != "consequence" {
        scored := scored + [Hypothesis(f.id, f.ruleId, Score(downstream, f), 0)];
      }
    }
    assert findings[..|findings|] == findings;
  }

  /** By descending score; within one score by rule, and within one rule by finding. */
  ghost predicate Ranked(r: seq<Hypothesis>) {
    forall i, j :: 0 <= i < j < |r| ==>
      && r[i].score >= r[j].score
      && (r[i].score == r[j].score ==> StrLeq(r[i].ruleId, r[j].ruleId))
      && (r[i].score == r[j].score && r[i].ruleId == r[j].ruleId ==> StrLeq(r[i].id, r[j].id))
  }

  lemma BeforeIsRanked(a: Hypothesis, b: Hypothesis)
    requires Before(a, b)
    ensures Ranked([a, b])
  {
    StrLeqIsTotalOrder();
  }

  lemma SortedIsRanked(r: seq<Hypothesis>)
    requires Sorted(Before, r)
    ensures Ranked(r)
  {
    forall i, j | 0 <= i < j < |r| ensures Ranked([r[i], r[j]]) { BeforeIsRanked(r[i], r[j]); }
    forall i, j | 0 <= i < j < |r|
      ensures r[i].score >= r[j].score
      ensures r[i].score == r[j].score ==> StrLeq(r[i].ruleId, r[j].ruleId)
      ensures r[i].score == r[j].score && r[i].ruleId == r[j].ruleId ==> StrLeq(r[i].id, r[j].id)
    {
      var pair := [r[i], r[j]];
      assert Ranked(pair) && pair[0] == r[i] && pair[1] == r[j];
    }
  }

  lemma InOrderFacts(downstream: Downstream, findings: seq<Finding>)
    ensures var result := InOrder(downstream, findings);
            && |result| == |Filter(IsCandidate, findings)|
            && Ranked(result)
            && (forall i :: 0 <= i < |result| ==> result[i].rank == 0)
  {
    var result, scored := InOrder(downstream, findings), Scored(downstream, findings);
    BeforeIsPreorder();
    SortBySorted(Before, scored);
    assert |multiset(result)| == |multiset(scored)|;
    forall i | 0 <= i < |result| ensures result[i].rank == 0 {
      assert result[i] in multiset(result);
      assert result[i] in scored;
    }
    SortedIsRanked(result);
  }

  /** Numbers the hypotheses from 1. */
  method Number(result: seq<Hypothesis>) returns (r: seq<Hypothesis>)
    ensures |r| == |result|
    ensures forall i :: 0 <= i < |r| ==> r[i] == result[i].(rank := i + 1)
  {
    r := [];
    for i := 0 to |result|
      invariant |r| == i
      invariant forall j :: 0 <= j < i ==> r[j] == result[j].(rank := j + 1)
    {
      r := r + [result[i].(rank := i + 1)];
    }
  }

  /** `_rank_hypotheses`: the candidates by descending score, numbered from 1. */
  method RankHypotheses(downstream: Downstream, findings: seq<Finding>) returns (r: seq<Hypothesis>)
    ensures |r| == |Filter(IsCandidate, findings)|
    ensures forall i :: 0 <= i < |r| ==> r[i].(rank := 0) == InOrder(downstream, findings)[i] && r[i].rank == i + 1
    ensures Ranked(r)
  {
    var scored := ScoreFindings(downstream, findings);
    InOrderFacts(downstream, findings);
    r := Number(SortBy(Before, scored));
  }

  ghost predicate DistinctFindings(findings: seq<Finding>) {
    forall i, j :: 0 <= i < j < |findings| ==>
        findings[i].ruleId != findings[j].ruleId || findings[i].id != findings[j].id
  }

  lemma ScoredElements(downstream: Downstream, findings: seq<Finding>)
    ensures forall h :: h in Scored(downstream, findings) <==>
        exists f :: f in findings && IsCandidate(f) && Unranked(downstream)(f) == h
  {
    var kept, scored := Filter(IsCandidate, findings), Scored(downstream, findings);
    forall h | h in scored ensures exists f :: f in findings && IsCandidate(f) && Unranked(downstream)(f) == h {
      var i :| 0 <= i < |scored| && scored[i] == h;
      assert kept[i] in kept;
    }
    forall f | f in findings && IsCandidate(f) ensures Unranked(downstream)(f) in scored {
      var i :| 0 <= i < |kept| && kept[i] == f;
      assert scored[i] == Unranked(downstream)(f);
    }
  }

  lemma ScoredDistinct(downstream: Downstream, findings: seq<Finding>)
    requires DistinctFindings(findings)
    ensures Distinct(Scored(downstream, findings))
  {
    var kept, scored := Filter(IsCandidate, findings), Scored(downstream, findings);
    DistinctFindingsAreDistinct(findings);
    FilterDistinct(IsCandidate, findings);
    Identified(findings);
    forall i, j | 0 <= i < j < |scored| ensures scored[i] != scored[j] {
      assert kept[i] in kept && kept[j] in kept;
    }
  }

  lemma TiesAreEqual(downstream: Downstream, findings: seq<Finding>, g: Hypothesis, h: Hypothesis)
    requires DistinctFindings(findings)
    requires g in Scored(downstream, findings) && h in Scored(downstream, findings) && Before(g, h) && Before(h, g)
    ensures g == h
  {
    ScoredElements(downstream, findings);
    Identified(findings);
    StrLeqIsTotalOrder();
  }

  lemma DistinctFindingsAreDistinct(findings: seq<Finding>)
    requires DistinctFindings(findings)
    ensures Distinct(findings)
  {
  }

  lemma Identified(findings: seq<Finding>)
    requires DistinctFindings(findings)
    ensures forall f, g :: f in findings && g in findings && f.ruleId == g.ruleId && f.id == g.id ==> f == g
  {
    forall f, g | f in findings && g in findings && f.ruleId == g.ruleId && f.id == g.id ensures f == g {
      var i :| 0 <= i < |findings| && findings[i] == f;
      var j :| 0 <= j < |findings| && findings[j] == g;
    }
  }

  lemma InOrderElements(downstream: Downstream, findings: seq<Finding>)
    ensures Sorted(Before, InOrder(downstream, findings))
    ensures forall h :: h in InOrder(downstream, findings) <==> h in Scored(downstream, findings)
    ensures Distinct(Scored(downstream, findings)) ==> Distinct(InOrder(downstream, findings))
  {
    BeforeIsPreorder();
    SortBySorted(Before, Scored(downstream, findings));
    PermutationDistinct(Scored(downstream, findings), InOrder(downstream, findings));
  }

  /** The ranking is deterministic: it does not depend on the order in which the findings arrive. */
  lemma RankingIgnoresOrder(downstream: Downstream, a: seq<Finding>, b: seq<Finding>)
    requires DistinctFindings(a) && DistinctFindings(b) && forall f :: f in a <==> f in b
    ensures InOrder(downstream, a) == InOrder(downstream, b)
  {
    ScoredElements(downstream, a);
    ScoredElements(downstream, b);
    ScoredDistinct(downstream, a);
    ScoredDistinct(downstream, b);
    InOrderElements(downstream, a);
    InOrderElements(downstream, b);
    forall g, h | g in InOrder(downstream, a) && h in InOrder(downstream, a) && Before(g, h) && Before(h, g)
      ensures g == h
    {
      TiesAreEqual(downstream, a, g, h);
    }
    BeforeIsPreorder();
    SortedUnique(Before, InOrder(downstream, a), InOrder(downstream, b));
  }
}
