/** The bounded causal graph of causal.py and the edges between findings. */
module Causal {
  import opened Wrappers
  import opened Events
  import opened Order
  import opened Seqs
  import opened Reachability

  const MAXIMUM_DEPTH := 6
  const TOLERANCE_SECONDS := 900.0

  datatype NodeInfo = NodeInfo(kind: string, title: string)

  datatype Edge = Edge(source: string, target: string, relation: string)

  /** A finding; of the evidence against it and of its open checks only the numbers matter here. */
  datatype Finding = Finding(
    id: string,
    ruleId: string,
    title: string,
    severity: string,
    role: string,
    status: string,
    confidence: string,
    startedAt: Option<real>,
    endedAt: Option<real>,
    counterEvidence: nat,
    missingChecks: nat)

  // --- growing within a limit ---------------------------------------------------------------

  /** `after` is `before` with as many of the wanted elements as fit. */
  ghost predicate Grown<T>(before: set<T>, wanted: set<T>, after: set<T>, limit: nat) {
    && before <= after <= before + wanted && |after| <= limit
    && (after == before + wanted || |after| == limit)
  }

  /** Everything wanted is there if and only if everything fits. */
  lemma GrownExactly<T>(before: set<T>, wanted: set<T>, after: set<T>, limit: nat)
    requires Grown(before, wanted, after, limit)
    ensures wanted <= after <==> |before + wanted| <= limit
    ensures wanted <= after <==> after == before + wanted
  {
    SubsetSmaller(after, before + wanted);
  }

  /** Growing twice is growing by both. */
  lemma GrownTwice<T>(a: set<T>, v: set<T>, b: set<T>, w: set<T>, c: set<T>, limit: nat)
    requires Grown(a, v, b, limit) && Grown(b, w, c, limit)
    ensures Grown(a, v + w, c, limit)
    ensures c == a + (v + w) <==> b == a + v && c == b + w
  {
    assert a + (v + w) == (a + v) + w;
    SubsetSmaller(b, c);
    if b == a + v {
      assert b + w == a + (v + w);
    } else {
      assert c == b;
    }
  }

  /** What a later growth finds room for, if the earlier one was for other elements. */
  lemma GrownBehind<T>(a: set<T>, v: set<T>, b: set<T>, w: set<T>, c: set<T>, limit: nat)
    requires Grown(a, v, b, limit) && Grown(b, w, c, limit) && v * w == {}
    ensures w <= c <==> w <= a || |a + v + w| <= limit
  {
    GrownTwice(a, v, b, w, c, limit);
    GrownExactly(a, v + w, c, limit);
    GrownExactly(b, w, c, limit);
    assert a + v + w == a + (v + w);
    if b == a + v {
      assert b + w == a + v + w;
    } else {
      SubsetSmaller(b, c);
      assert c == b <= a + v;
      forall x | x in w && x in c ensures x in a { assert x in v ==> x in v * w; }
    }
  }

  /** Edges are drawn as far as they fit, and the mark is set exactly if one does not. */
  ghost predicate Drawn(before: set<Edge>, marked: bool, wanted: set<Edge>, after: set<Edge>, truncated: bool,
                        limit: nat) {
    Grown(before, wanted, after, limit) && (truncated <==> marked || after != before + wanted)
  }

  /** Drawing twice is drawing both. */
  lemma DrawnTwice(a: set<Edge>, m: bool, v: set<Edge>, b: set<Edge>, n: bool, w: set<Edge>, c: set<Edge>, t: bool,
                   limit: nat, both: set<Edge>)
    requires Drawn(a, m, v, b, n, limit) && Drawn(b, n, w, c, t, limit) && both == v + w
    ensures Drawn(a, m, both, c, t, limit)
  {
    GrownTwice(a, v, b, w, c, limit);
    assert a + both == a + (v + w);
  }

  // --- the graph ----------------------------------------------------------------------------------

  /** The edge between two nodes, if it may enter a graph with these nodes. */
  function Joining(nodes: set<string>, source: Option<string>, target: Option<string>, relation: string): set<Edge> {
    if source.Some? && target.Some? && source.value in nodes && target.value in nodes && source != target
    then {Edge(source.value, target.value, relation)} else {}
  }

  /** The nodes of a graph after one more was asked for. */
  function WithNode(nodes: set<string>, n: string, limit: nat): set<string> {
    if n in nodes || |nodes| >= limit then nodes else nodes + {n}
  }

  /** `_GraphBuilder`: a graph that never exceeds its two limits. */
  class GraphBuilder {
    const maxNodes: nat
    const maxEdges: nat
    var nodes: map<string, NodeInfo>
    var edges: set<Edge>
    var truncated: bool

    /** Bounded, and every edge joins two different nodes of the graph. */
    ghost predicate Valid()
      reads this
    {
      && |nodes| <= maxNodes && |edges| <= maxEdges && "" !in nodes
      && forall e :: e in edges ==> e.source in nodes && e.target in nodes && e.source != e.target
    }

    constructor (maxNodes: nat, maxEdges: nat)
      ensures Valid() && nodes == map[] && edges == {} && !truncated
      ensures this.maxNodes == maxNodes && this.maxEdges == maxEdges
    {
      this.maxNodes, this.maxEdges := maxNodes, maxEdges;
      nodes, edges, truncated := map[], {}, false;
    }

    /** `node`: the first description of a node wins, and a full graph takes no new one. */
    method AddNode(id: Option<string>, info: NodeInfo) returns (r: Option<string>)
      requires Valid()
      modifies this`nodes, this`truncated
      ensures Valid()
      ensures r == if Present(id) && id.value in nodes then id else None
      ensures nodes == if Present(id) && id.value !in old(nodes) && |old(nodes)| < maxNodes
                       then old(nodes)[id.value := info] else old(nodes)
      ensures Present(id) ==> nodes.Keys == WithNode(old(nodes).Keys, id.value, maxNodes)
      ensures truncated <==> old(truncated) || (Present(id) && id.value !in nodes)
    {
      if !Present(id) { return None; }
      if id.value !in nodes {
        if |nodes| >= maxNodes {
          truncated := true;
          return None;
        }
        ghost var before := nodes;
        nodes := nodes[id.value := info];
        assert nodes.Keys == before.Keys + {id.value};
        assert |nodes.Keys| == |before.Keys| + 1;
      }
      return id;
    }

    /** `edge`. */
    method AddEdge(source: Option<string>, target: Option<string>, relation: string)
      requires Valid()
      modifies this`edges, this`truncated
      ensures Valid()
      ensures Drawn(old(edges), old(truncated), Joining(nodes.Keys, source, target, relation),
                    edges, truncated, maxEdges)
    {
      if !Present(source) || !Present(target) || source == target { return; }
      if source.value !in nodes || target.value !in nodes { return; }
      var key := Edge(source.value, target.value, relation);
      if key in edges { return; }
      if |edges| >= maxEdges {
        truncated := true;
        return;
      }
      edges := edges + {key};
    }
  }

  // --- which cause may explain which consequence -----------------------------------------

  predicate Compatible(cause: Finding, consequence: Finding) {
    cause.startedAt.None? || consequence.endedAt.None?
    || cause.startedAt.value <= consequence.endedAt.value + TOLERANCE_SECONDS
  }

  type FindingTargets = map<string, set<string>>

  function TargetsOf(targets: FindingTargets, f: Finding): set<string> {
    if f.id in targets then targets[f.id] else {}
  }

  /** The topology connects a target of the cause to a target of the consequence, and the times fit. */
  ghost predicate Explains(adjacency: Adjacency, targets: FindingTargets, cause: Finding, consequence: Finding) {
    && Compatible(cause, consequence)
    && exists v :: v in TargetsOf(targets, consequence)
        && Within(adjacency, TargetsOf(targets, cause), MAXIMUM_DEPTH, v)
  }

  function FindingNode(id: string): string {
    "finding:" + id
  }

  function MayExplain(cause: string, consequence: string): Edge {
    Edge(FindingNode(cause), FindingNode(consequence), "may_explain")
  }

  type Downstream = map<string, set<string>>

  predicate Linked(downstream: Downstream, cause: string, consequence: string) {
    cause in downstream && consequence in downstream[cause]
  }

  function Link(downstream: Downstream, cause: string, consequence: string): (r: Downstream)
    ensures forall c, k :: Linked(r, c, k) <==> Linked(downstream, c, k) || (c == cause && k == consequence)
  {
    downstream[cause := (if cause in downstream then downstream[cause] else {}) + {consequence}]
  }

  /** The edges of all recorded links between two different findings of the graph. */
  function LinkEdges(nodes: set<string>, downstream: Downstream): set<Edge> {
    set c, k | c in downstream && k in downstream[c] && c != k && FindingNode(c) in nodes && FindingNode(k) in nodes
      :: MayExplain(c, k)
  }

  lemma LinkEdgesNext(nodes: set<string>, downstream: Downstream, cause: string, consequence: string)
    ensures LinkEdges(nodes, Link(downstream, cause, consequence))
         == LinkEdges(nodes, downstream)
            + Joining(nodes, Some(FindingNode(cause)), Some(FindingNode(consequence)), "may_explain")
  {
    FindingNodeInjective(cause, consequence);
    var next := Link(downstream, cause, consequence);
    forall e ensures e in LinkEdges(nodes, next)
        <==> e in LinkEdges(nodes, downstream)
             || e in Joining(nodes, Some(FindingNode(cause)), Some(FindingNode(consequence)), "may_explain")
    {
      if c, k :| Linked(downstream, c, k) && c != k && FindingNode(c) in nodes && FindingNode(k) in nodes
                 && e == MayExplain(c, k)
      {
        assert Linked(next, c, k);
      }
      if e == MayExplain(cause, consequence) { assert Linked(next, cause, consequence); }
    }
  }

  /** What is in the graph of the recorded links: as many of their edges as fit. */
  ghost predicate LinksDrawn(before: set<Edge>, marked: bool, graph: GraphBuilder, downstream: Downstream)
    reads graph
  {
    Drawn(before, marked, LinkEdges(graph.nodes.Keys, downstream), graph.edges, graph.truncated, graph.maxEdges)
  }

  lemma FindingNodeInjective(a: string, b: string)
    ensures FindingNode(a) == FindingNode(b) <==> a == b
  {
    assert FindingNode(a)[|"finding:"|..] == a;
    assert FindingNode(b)[|"finding:"|..] == b;
  }

  /** Records one link and draws its edge, unless the graph is full. */
  method LinkPair(graph: GraphBuilder, cause: string, consequence: string, downstream: Downstream,
                  ghost before: set<Edge>, ghost marked: bool)
    returns (r: Downstream)
    requires graph.Valid() && LinksDrawn(before, marked, graph, downstream)
    modifies graph`edges, graph`truncated
    ensures graph.Valid() && LinksDrawn(before, marked, graph, r)
    ensures r == Link(downstream, cause, consequence)
  {
    ghost var earlier, mark := graph.edges, graph.truncated;
    ghost var nodes := graph.nodes.Keys;
    graph.AddEdge(Some(FindingNode(cause)), Some(FindingNode(consequence)), "may_explain");
    r := Link(downstream, cause, consequence);
    LinkEdgesNext(nodes, downstream, cause, consequence);
    DrawnTwice(before, marked, LinkEdges(nodes, downstream), earlier, mark,
               Joining(nodes, Some(FindingNode(cause)), Some(FindingNode(consequence)), "may_explain"),
               graph.edges, graph.truncated, graph.maxEdges, LinkEdges(nodes, r));
  }

  /** The consequences at positions below `n` that a cause explains. */
  ghost predicate ExplainsOneOf(adjacency: Adjacency, targets: FindingTargets, cause: Finding,
                                consequences: seq<Finding>, n: nat, k: string) {
    exists j :: 0 <= j < n && j < |consequences| && consequences[j].id == k
        && Explains(adjacency, targets, cause, consequences[j])
  }

  lemma ExplainsNext(adjacency: Adjacency, targets: FindingTargets, cause: Finding, consequences: seq<Finding>, n: nat)
    requires n < |consequences|
    ensures forall k :: ExplainsOneOf(adjacency, targets, cause, consequences, n + 1, k) <==>
              (ExplainsOneOf(adjacency, targets, cause, consequences, n, k)
                    || (consequences[n].id == k && Explains(adjacency, targets, cause, consequences[n])))
  {
    if Explains(adjacency, targets, cause, consequences[n]) {
      assert ExplainsOneOf(adjacency, targets, cause, consequences, n + 1, consequences[n].id);
    }
  }

  /** The test of the loop, on the result of the search. */
  lemma ExplainsTest(adjacency: Adjacency, targets: FindingTargets, cause: Finding, consequence: Finding,
                     reachable: set<string>)
    requires forall v :: v in reachable <==> Within(adjacency, TargetsOf(targets, cause), MAXIMUM_DEPTH, v)
    ensures Explains(adjacency, targets, cause, consequence)
            <==> (TargetsOf(targets, consequence) != {} && reachable * TargetsOf(targets, consequence) != {}
                  && Compatible(cause, consequence))
  {
    var hit := TargetsOf(targets, consequence);
    if v :| v in hit && v in reachable { assert v in reachable * hit; }
  }

  /** One cause against all consequences. */
  method LinkCause(graph: GraphBuilder, adjacency: Adjacency, targets: FindingTargets, cause: Finding,
                   consequences: seq<Finding>, downstream: Downstream, ghost before: set<Edge>, ghost marked: bool)
    returns (r: Downstream)
    requires graph.Valid() && LinksDrawn(before, marked, graph, downstream)
    modifies graph`edges, graph`truncated
    ensures graph.Valid() && LinksDrawn(before, marked, graph, r)
    ensures forall c, k :: Linked(r, c, k) <==>
              (Linked(downstream, c, k)
               || (c == cause.id && ExplainsOneOf(adjacency, targets, cause, consequences, |consequences|, k)))
  {
    var reachable := Reachable(adjacency, TargetsOf(targets, cause), MAXIMUM_DEPTH);
    r := downstream;
    for i := 0 to |consequences|
      invariant graph.Valid() && LinksDrawn(before, marked, graph, r)
      invariant forall c, k :: Linked(r, c, k) <==>
                (Linked(downstream, c, k)
                 || (c == cause.id && ExplainsOneOf(adjacency, targets, cause, consequences, i, k)))
    {
      var consequence := consequences[i];
      var hit := TargetsOf(targets, consequence);
      ExplainsTest(adjacency, targets, cause, consequence, reachable);
      ExplainsNext(adjacency, targets, cause, consequences, i);
      if hit != {} && reachable * hit != {} && Compatible(cause, consequence) {
        r := LinkPair(graph, cause.id, consequence.id, r, before, marked);
      }
    }
  }

  /** Some cause at a position below `n` and some consequence, with these ids, explain each other. */
  ghost predicate Explained(adjacency: Adjacency, targets: FindingTargets, causes: seq<Finding>,
                            consequences: seq<Finding>, n: nat, c: string, k: string) {
    exists i :: 0 <= i < n && i < |causes| && causes[i].id == c
                && ExplainsOneOf(adjacency, targets, causes[i], consequences, |consequences|, k)
  }

  /** The recorded links are exactly the explained pairs of the first `n` causes. */
  ghost predicate LinksAre(adjacency: Adjacency, targets: FindingTargets, causes: seq<Finding>,
                           consequences: seq<Finding>, n: nat, downstream: Downstream) {
    forall c, k :: Linked(downstream, c, k) <==> Explained(adjacency, targets, causes, consequences, n, c, k)
  }

  lemma LinksNext(adjacency: Adjacency, targets: FindingTargets, causes: seq<Finding>, consequences: seq<Finding>,
                  n: nat, d: Downstream, r: Downstream)
    requires n < |causes| && LinksAre(adjacency, targets, causes, consequences, n, d)
    requires forall c, k :: Linked(r, c, k) <==>
               (Linked(d, c, k)
                || (c == causes[n].id
                    && ExplainsOneOf(adjacency, targets, causes[n], consequences, |consequences|, k)))
    ensures LinksAre(adjacency, targets, causes, consequences, n + 1, r)
  {
  }

  /** The `may_explain` loop of `build_causal_analysis`: the recorded links are exactly the pairs
      joined by a short topology path with compatible times; the graph shows as many of them as fit,
      and all of them if and only if all fit. */
  method LinkFindings(graph: GraphBuilder, adjacency: Adjacency, targets: FindingTargets,
                      causes: seq<Finding>, consequences: seq<Finding>)
    returns (downstream: Downstream)
    requires graph.Valid()
    modifies graph`edges, graph`truncated
    ensures graph.Valid()
    ensures LinksDrawn(old(graph.edges), old(graph.truncated), graph, downstream)
    ensures LinkEdges(graph.nodes.Keys, downstream) <= graph.edges
        <==> |old(graph.edges) + LinkEdges(graph.nodes.Keys, downstream)| <= graph.maxEdges
    ensures LinksAre(adjacency, targets, causes, consequences, |causes|, downstream)
  {
    downstream := map[];
    NothingLinked(graph.nodes.Keys);
    for n := 0 to |causes|
      invariant graph.Valid() && LinksDrawn(old(graph.edges), old(graph.truncated), graph, downstream)
      invariant LinksAre(adjacency, targets, causes, consequences, n, downstream)
    {
      ghost var earlier := downstream;
      downstream := LinkCause(graph, adjacency, targets, causes[n], consequences, downstream,
                              old(graph.edges), old(graph.truncated));
      LinksNext(adjacency, targets, causes, consequences, n, earlier, downstream);
    }
    GrownExactly(old(graph.edges), LinkEdges(graph.nodes.Keys, downstream), graph.edges, graph.maxEdges);
  }

  lemma NothingLinked(nodes: set<string>)
    ensures LinkEdges(nodes, map[]) == {}
  {
  }

  // --- findings in the graph ------------------------------------------------------------------

  /** The edges that describe the cluster; the others only attach findings to it. */
  function Topology(edges: set<Edge>): set<Edge> {
    set e | e in edges && e.relation != "indicates"
  }

  function Successors(edges: set<Edge>, v: string): set<string> {
    set e | e in edges && e.source == v :: e.target
  }

  function Sources(edges: set<Edge>): set<string> {
    set e | e in edges :: e.source
  }

  function AdjacencyOf(edges: set<Edge>): Adjacency {
    map v | v in Sources(edges) :: Successors(edges, v)
  }

  /** The edges that attach a finding to those of its targets that are nodes. */
  function AttachEdges(nodes: set<string>, f: Finding, targets: set<string>): set<Edge> {
    set t | t in targets && t in nodes && FindingNode(f.id) in nodes && t != FindingNode(f.id)
      :: Edge(FindingNode(f.id), t, "indicates")
  }

  lemma AttachEdgesNext(nodes: set<string>, f: Finding, targets: set<string>, node: Option<string>, t: string)
    requires node == if FindingNode(f.id) in nodes then Some(FindingNode(f.id)) else None
    ensures AttachEdges(nodes, f, targets + {t})
         == AttachEdges(nodes, f, targets) + Joining(nodes, node, Some(t), "indicates")
  {
    assert t in targets + {t};
    forall u | u in targets ensures u in targets + {t} {}
  }

  lemma TopologyStays(before: set<Edge>, wanted: set<Edge>, after: set<Edge>, limit: nat)
    requires Grown(before, wanted, after, limit) && forall e :: e in wanted ==> e.relation == "indicates"
    ensures Topology(after) == Topology(before)
  {
  }

  lemma TargetDrawn(nodes: set<string>, f: Finding, node: Option<string>, t: string, done: set<string>,
                    before: set<Edge>, marked: bool, earlier: set<Edge>, mark: bool,
                    edges: set<Edge>, truncated: bool, limit: nat)
    requires node == if FindingNode(f.id) in nodes then Some(FindingNode(f.id)) else None
    requires Drawn(before, marked, AttachEdges(nodes, f, done), earlier, mark, limit)
    requires Drawn(earlier, mark, Joining(nodes, node, Some(t), "indicates"), edges, truncated, limit)
    ensures Drawn(before, marked, AttachEdges(nodes, f, done + {t}), edges, truncated, limit)
  {
    AttachEdgesNext(nodes, f, done, node, t);
    DrawnTwice(before, marked, AttachEdges(nodes, f, done), earlier, mark, Joining(nodes, node, Some(t), "indicates"),
               edges, truncated, limit, AttachEdges(nodes, f, done + {t}));
  }

  /** One edge of a finding, behind those to the targets in `done`. */
  method AttachTarget(graph: GraphBuilder, f: Finding, node: Option<string>, t: string,
                      ghost done: set<string>, ghost before: set<Edge>, ghost marked: bool)
    requires graph.Valid() && node == if FindingNode(f.id) in graph.nodes then Some(FindingNode(f.id)) else None
    requires Drawn(before, marked, AttachEdges(graph.nodes.Keys, f, done), graph.edges, graph.truncated, graph.maxEdges)
    modifies graph`edges, graph`truncated
    ensures graph.Valid()
    ensures Drawn(before, marked, AttachEdges(graph.nodes.Keys, f, done + {t}),
                  graph.edges, graph.truncated, graph.maxEdges)
  {
    ghost var earlier, mark, nodes := graph.edges, graph.truncated, graph.nodes.Keys;
    graph.AddEdge(node, Some(t), "indicates");
    TargetDrawn(nodes, f, node, t, done, before, marked, earlier, mark, graph.edges, graph.truncated, graph.maxEdges);
  }

  /** The edges of one finding to its targets, one after the other in ascending order. */
  method AttachTargets(graph: GraphBuilder, f: Finding, node: Option<string>, targets: set<string>)
    requires graph.Valid() && node == if FindingNode(f.id) in graph.nodes then Some(FindingNode(f.id)) else None
    modifies graph`edges, graph`truncated
    ensures graph.Valid()
    ensures Drawn(old(graph.edges), old(graph.truncated), AttachEdges(graph.nodes.Keys, f, targets),
                  graph.edges, graph.truncated, graph.maxEdges)
  {
    ghost var before, marked := graph.edges, graph.truncated;
    ghost var done: set<string> := {};
    var rest := targets;
    NothingAttached(graph.nodes.Keys, f);
    while rest != {}
      invariant graph.Valid() && done + rest == targets
      invariant Drawn(before, marked, AttachEdges(graph.nodes.Keys, f, done),
                      graph.edges, graph.truncated, graph.maxEdges)
      decreases rest
    {
      var t := LeastKey(rest);
      AttachTarget(graph, f, node, t, done, before, marked);
      done, rest := done + {t}, rest - {t};
    }
    assert done == targets;
  }

  lemma NothingAttached(nodes: set<string>, f: Finding)
    ensures AttachEdges(nodes, f, {}) == {}
  {
  }

  /** Adds one finding, if there is room, with an edge to each of its targets. */
  method AttachFinding(graph: GraphBuilder, f: Finding, targets: set<string>)
    requires graph.Valid()
    modifies graph
    ensures graph.Valid()
    ensures graph.nodes.Keys == WithNode(old(graph.nodes).Keys, FindingNode(f.id), graph.maxNodes)
    ensures forall n :: n in old(graph.nodes) ==> graph.nodes[n] == old(graph.nodes)[n]
    ensures Drawn(old(graph.edges), old(graph.truncated) || FindingNode(f.id) !in graph.nodes,
                  AttachEdges(graph.nodes.Keys, f, targets), graph.edges, graph.truncated, graph.maxEdges)
  {
    assert |graph.nodes.Keys| == |graph.nodes|;
    var node := graph.AddNode(Some(FindingNode(f.id)), NodeInfo("finding", f.title));
    AttachTargets(graph, f, node, targets);
  }

  /** `finding_targets`: a later finding of the same id takes the place of an earlier one. */
  function TargetsById(findings: seq<Finding>, targetsOf: Finding -> set<string>): FindingTargets {
    if findings == [] then map[]
    else
      var last := findings[|findings| - 1];
      TargetsById(findings[..|findings| - 1], targetsOf)[last.id := targetsOf(last)]
  }

  lemma TargetsByIdNext(findings: seq<Finding>, targetsOf: Finding -> set<string>, i: nat)
    requires i < |findings|
    ensures TargetsById(findings[..i + 1], targetsOf)
         == TargetsById(findings[..i], targetsOf)[findings[i].id := targetsOf(findings[i])]
  {
    assert findings[..i + 1][..i] == findings[..i];
  }

  function NodesOf(findings: seq<Finding>): set<string> {
    set f | f in findings :: FindingNode(f.id)
  }

  /** The nodes of the graph after the findings were added one by one. */
  function KnownAfter(known: set<string>, findings: seq<Finding>, limit: nat): set<string> {
    if findings == [] then known
    else WithNode(KnownAfter(known, findings[..|findings| - 1], limit), FindingNode(findings[|findings| - 1].id), limit)
  }

  /** All edges the findings ask for when they are added. */
  function Attachments(known: set<string>, findings: seq<Finding>, targetsOf: Finding -> set<string>,
                       limit: nat): set<Edge> {
    if findings == [] then {}
    else
      var last := findings[|findings| - 1];
      Attachments(known, findings[..|findings| - 1], targetsOf, limit)
      + AttachEdges(KnownAfter(known, findings, limit), last, targetsOf(last))
  }

  lemma PrefixNext(known: set<string>, findings: seq<Finding>, targetsOf: Finding -> set<string>, limit: nat, i: nat)
    requires i < |findings|
    ensures KnownAfter(known, findings[..i + 1], limit)
         == WithNode(KnownAfter(known, findings[..i], limit), FindingNode(findings[i].id), limit)
    ensures Attachments(known, findings[..i + 1], targetsOf, limit)
         == Attachments(known, findings[..i], targetsOf, limit)
            + AttachEdges(KnownAfter(known, findings[..i + 1], limit), findings[i], targetsOf(findings[i]))
    ensures NodesOf(findings[..i + 1]) == NodesOf(findings[..i]) + {FindingNode(findings[i].id)}
  {
    assert findings[..i + 1][..i] == findings[..i];
    assert findings[..i + 1] == findings[..i] + [findings[i]];
    assert findings[i] in findings[..i + 1];
  }

  lemma WithNodeGrown(nodes: set<string>, n: string, limit: nat)
    requires |nodes| <= limit
    ensures Grown(nodes, {n}, WithNode(nodes, n, limit), limit)
  {
    if n in nodes { assert nodes + {n} == nodes; }
  }

  lemma {:induction false} KnownGrown(known: set<string>, findings: seq<Finding>, limit: nat)
    requires |known| <= limit
    ensures Grown(known, NodesOf(findings), KnownAfter(known, findings, limit), limit)
  {
    if findings != [] {
      var i := |findings| - 1;
      var front, n := KnownAfter(known, findings[..i], limit), FindingNode(findings[i].id);
      assert findings[..i + 1] == findings;
      KnownGrown(known, findings[..i], limit);
      PrefixNext(known, findings, (f: Finding) => {}, limit, i);
      WithNodeGrown(front, n, limit);
      GrownTwice(known, NodesOf(findings[..i]), front, {n}, WithNode(front, n, limit), limit);
    } else {
      assert NodesOf(findings) == {} && known + {} == known;
    }
  }

  /** Every finding has a node if and only if all of them fit. */
  lemma AllShownExactly(known: set<string>, findings: seq<Finding>, limit: nat)
    requires |known| <= limit
    ensures NodesOf(findings) <= KnownAfter(known, findings, limit) <==> |known + NodesOf(findings)| <= limit
  {
    KnownGrown(known, findings, limit);
    GrownExactly(known, NodesOf(findings), KnownAfter(known, findings, limit), limit);
  }

  /** The state of the first loop of `build_causal_analysis` after the findings of a list. */
  ghost predicate Attached(known: set<string>, before: set<Edge>, marked: bool, findings: seq<Finding>,
                           targetsOf: Finding -> set<string>, maxNodes: nat, maxEdges: nat,
                           nodes: set<string>, edges: set<Edge>, truncated: bool) {
    && nodes == KnownAfter(known, findings, maxNodes)
    && Drawn(before, marked || !(NodesOf(findings) <= nodes), Attachments(known, findings, targetsOf, maxNodes),
             edges, truncated, maxEdges)
  }

  lemma MarkRefusal(a: set<Edge>, m: bool, v: set<Edge>, b: set<Edge>, n: bool, limit: nat, refused: bool)
    requires Drawn(a, m, v, b, n, limit)
    ensures Drawn(a, m || refused, v, b, n || refused, limit)
  {
  }

  /** Once a finding got no node, the next one gets none either, or has one already. */
  lemma RefusalStays(known: set<string>, findings: seq<Finding>, limit: nat, i: nat)
    requires |known| <= limit && i < |findings|
    ensures var now, next := KnownAfter(known, findings[..i], limit), KnownAfter(known, findings[..i + 1], limit);
            NodesOf(findings[..i + 1]) <= next
            <==> NodesOf(findings[..i]) <= now && FindingNode(findings[i].id) in next
  {
    var now, n := KnownAfter(known, findings[..i], limit), FindingNode(findings[i].id);
    PrefixNext(known, findings, (f: Finding) => {}, limit, i);
    KnownGrown(known, findings[..i], limit);
    GrownExactly(known, NodesOf(findings[..i]), now, limit);
    if !(NodesOf(findings[..i]) <= now) { assert |now| == limit; }
  }

  lemma AttachedNext(known: set<string>, before: set<Edge>, marked: bool, findings: seq<Finding>,
                     targetsOf: Finding -> set<string>, i: nat, maxNodes: nat, maxEdges: nat,
                     nodes: set<string>, edges: set<Edge>, truncated: bool,
                     nodes': set<string>, edges': set<Edge>, truncated': bool)
    requires |known| <= maxNodes && i < |findings|
    requires Attached(known, before, marked, findings[..i], targetsOf, maxNodes, maxEdges, nodes, edges, truncated)
    requires nodes' == WithNode(nodes, FindingNode(findings[i].id), maxNodes)
    requires Drawn(edges, truncated || FindingNode(findings[i].id) !in nodes',
                   AttachEdges(nodes', findings[i], targetsOf(findings[i])), edges', truncated', maxEdges)
    ensures Attached(known, before, marked, findings[..i + 1], targetsOf, maxNodes, maxEdges,
                     nodes', edges', truncated')
  {
    PrefixNext(known, findings, targetsOf, maxNodes, i);
    RefusalStays(known, findings, maxNodes, i);
    var missing, refused := !(NodesOf(findings[..i]) <= nodes), FindingNode(findings[i].id) !in nodes';
    var wanted := Attachments(known, findings[..i], targetsOf, maxNodes);
    MarkRefusal(before, marked || missing, wanted, edges, truncated, maxEdges, refused);
    DrawnTwice(before, marked || missing || refused, wanted, edges, truncated || refused,
               AttachEdges(nodes', findings[i], targetsOf(findings[i])), edges', truncated', maxEdges,
               Attachments(known, findings[..i + 1], targetsOf, maxNodes));
  }

  /** The first loop of `build_causal_analysis`. */
  method AttachAll(graph: GraphBuilder, findings: seq<Finding>, targetsOf: Finding -> set<string>)
    returns (targets: FindingTargets)
    requires graph.Valid()
    modifies graph
    ensures graph.Valid()
    ensures targets == TargetsById(findings, targetsOf)
    ensures Attached(old(graph.nodes).Keys, old(graph.edges), old(graph.truncated), findings, targetsOf,
                     graph.maxNodes, graph.maxEdges, graph.nodes.Keys, graph.edges, graph.truncated)
  {
    ghost var known, before, marked := graph.nodes.Keys, graph.edges, graph.truncated;
    assert |known| == |graph.nodes|;
    targets := map[];
    for i := 0 to |findings|
      invariant graph.Valid()
      invariant targets == TargetsById(findings[..i], targetsOf)
      invariant Attached(known, before, marked, findings[..i], targetsOf,
                         graph.maxNodes, graph.maxEdges, graph.nodes.Keys, graph.edges, graph.truncated)
    {
      TargetsByIdNext(findings, targetsOf, i);
      ghost var nodes, earlier, mark := graph.nodes.Keys, graph.edges, graph.truncated;
      AttachFinding(graph, findings[i], targetsOf(findings[i]));
      AttachedNext(known, before, marked, findings, targetsOf, i, graph.maxNodes, graph.maxEdges, nodes, earlier, mark,
                   graph.nodes.Keys, graph.edges, graph.truncated);
      targets := targets[findings[i].id := targetsOf(findings[i])];
    }
    assert findings[..|findings|] == findings;
  }

  /** The same, with the condition for all findings to get a node. */
  method AttachFindings(graph: GraphBuilder, findings: seq<Finding>, targetsOf: Finding -> set<string>)
    returns (targets: FindingTargets)
    requires graph.Valid()
    modifies graph
    ensures graph.Valid()
    ensures targets == TargetsById(findings, targetsOf)
    ensures Attached(old(graph.nodes).Keys, old(graph.edges), old(graph.truncated), findings, targetsOf,
                     graph.maxNodes, graph.maxEdges, graph.nodes.Keys, graph.edges, graph.truncated)
    ensures NodesOf(findings) <= graph.nodes.Keys <==> |old(graph.nodes).Keys + NodesOf(findings)| <= graph.maxNodes
  {
    ghost var known := graph.nodes.Keys;
    assert |known| == |graph.nodes|;
    targets := AttachAll(graph, findings, targetsOf);
    AllShownExactly(known, findings, graph.maxNodes);
  }

  lemma {:induction false} AttachmentsIndicate(known: set<string>, findings: seq<Finding>,
                                               targetsOf: Finding -> set<string>, limit: nat)
    ensures forall e :: e in Attachments(known, findings, targetsOf, limit) ==> e.relation == "indicates"
  {
    if findings != [] { AttachmentsIndicate(known, findings[..|findings| - 1], targetsOf, limit); }
  }

  lemma {:induction false} TargetsOfUnique(findings: seq<Finding>, targetsOf: Finding -> set<string>, f: Finding)
    requires f in findings && forall g :: g in findings && g.id == f.id ==> g == f
    ensures TargetsOf(TargetsById(findings, targetsOf), f) == targetsOf(f)
  {
    var front, last := findings[..|findings| - 1], findings[|findings| - 1];
    assert findings == front + [last];
    if last.id != f.id {
      TargetsOfUnique(front, targetsOf, f);
    } else {
      assert last in findings;
    }
  }

  /** `topology_adjacency`. */
  method TopologyAdjacency(edges: set<Edge>) returns (r: Adjacency)
    ensures r == AdjacencyOf(Topology(edges))
  {
    r := map[];
    ghost var done: set<Edge> := {};
    var rest := edges;
    while rest != {}
      invariant done * rest == {} && done + rest == edges
      invariant r == AdjacencyOf(Topology(done))
      decreases rest
    {
      var e :| e in rest;
      if e.relation != "indicates" {
        AdjacencyNext(Topology(done), e);
        assert Topology(done + {e}) == Topology(done) + {e};
        r := r[e.source := Targets(r, e.source) + {e.target}];
      } else {
        assert Topology(done + {e}) == Topology(done);
      }
      done, rest := done + {e}, rest - {e};
    }
    assert done == edges;
  }

  lemma SuccessorsNext(edges: set<Edge>, e: Edge, v: string)
    ensures Successors(edges + {e}, v) == Successors(edges, v) + if v == e.source then {e.target} else {}
  {
    forall t ensures t in Successors(edges + {e}, v)
        <==> t in Successors(edges, v) || (v == e.source && t == e.target) {
      if t in Successors(edges + {e}, v) {
        var d :| d in edges + {e} && d.source == v && d.target == t;
      }
      if t in Successors(edges, v) {
        var d :| d in edges && d.source == v && d.target == t;
        assert d in edges + {e};
      }
      if v == e.source && t == e.target { assert e in edges + {e}; }
    }
  }

  lemma SourcesNext(edges: set<Edge>, e: Edge)
    ensures Sources(edges + {e}) == Sources(edges) + {e.source}
  {
    forall v ensures v in Sources(edges + {e}) <==> v in Sources(edges) || v == e.source {
      if v in Sources(edges) {
        var d :| d in edges && d.source == v;
        assert d in edges + {e};
      }
      assert e in edges + {e};
    }
  }

  lemma AdjacencyNext(edges: set<Edge>, e: Edge)
    ensures AdjacencyOf(edges + {e})
         == AdjacencyOf(edges)[e.source := Targets(AdjacencyOf(edges), e.source) + {e.target}]
  {
    SourcesNext(edges, e);
    forall v ensures Successors(edges + {e}, v) == Successors(edges, v) + if v == e.source then {e.target} else {} {
      SuccessorsNext(edges, e, v);
    }
    var before, after := AdjacencyOf(edges), AdjacencyOf(edges + {e});
    assert Targets(before, e.source) == Successors(edges, e.source);
    var next := before[e.source := Targets(before, e.source) + {e.target}];
    assert after.Keys == next.Keys;
    forall v | v in after ensures after[v] == next[v] {
      assert after[v] == Successors(edges + {e}, v);
    }
    assert after == next;
  }

  predicate IsCause(f: Finding) {
    f.role != "consequence" && !("collector." <= f.ruleId)
  }

  predicate IsConsequence(f: Finding) {
    f.role == "consequence"
  }

  /** `f` may explain `g`: the cluster topology joins their targets within six edges, and the times fit. */
  ghost predicate MayExplainFinding(topology: set<Edge>, targetsOf: Finding -> set<string>, f: Finding, g: Finding) {
    && IsCause(f) && IsConsequence(g) && Compatible(f, g)
    && exists v :: v in targetsOf(g) && Within(AdjacencyOf(topology), targetsOf(f), MAXIMUM_DEPTH, v)
  }

  /** The recorded pairs, stated on the findings themselves. */
  ghost predicate MayExplainIds(topology: set<Edge>, targetsOf: Finding -> set<string>, findings: seq<Finding>,
                                c: string, k: string) {
    exists f, g :: f in findings && g in findings && f.id == c && g.id == k
        && MayExplainFinding(topology, targetsOf, f, g)
  }

  ghost predicate IdsIdentify(findings: seq<Finding>) {
    forall f, g :: f in findings && g in findings && f.id == g.id ==> f == g
  }

  lemma PairMeaning(topology: set<Edge>, targetsOf: Finding -> set<string>, findings: seq<Finding>,
                    f: Finding, g: Finding)
    requires IdsIdentify(findings) && f in findings && g in findings && IsCause(f) && IsConsequence(g)
    ensures Explains(AdjacencyOf(topology), TargetsById(findings, targetsOf), f, g)
        <==> MayExplainFinding(topology, targetsOf, f, g)
  {
    TargetsOfUnique(findings, targetsOf, f);
    TargetsOfUnique(findings, targetsOf, g);
  }

  lemma ExplainedIsMayExplain(topology: set<Edge>, targetsOf: Finding -> set<string>, findings: seq<Finding>,
                              causes: seq<Finding>, consequences: seq<Finding>, c: string, k: string)
    requires IdsIdentify(findings)
    requires forall f :: f in causes <==> f in findings && IsCause(f)
    requires forall f :: f in consequences <==> f in findings && IsConsequence(f)
    ensures Explained(AdjacencyOf(topology), TargetsById(findings, targetsOf), causes, consequences, |causes|, c, k)
        <==> MayExplainIds(topology, targetsOf, findings, c, k)
  {
    var adjacency, targets := AdjacencyOf(topology), TargetsById(findings, targetsOf);
    if Explained(adjacency, targets, causes, consequences, |causes|, c, k) {
      var i :| 0 <= i < |causes| && causes[i].id == c
          && ExplainsOneOf(adjacency, targets, causes[i], consequences, |consequences|, k);
      var j :| 0 <= j < |consequences| && consequences[j].id == k
          && Explains(adjacency, targets, causes[i], consequences[j]);
      assert causes[i] in causes && consequences[j] in consequences;
      PairMeaning(topology, targetsOf, findings, causes[i], consequences[j]);
    }
    if MayExplainIds(topology, targetsOf, findings, c, k) {
      var f, g :| f in findings && g in findings && f.id == c && g.id == k
          && MayExplainFinding(topology, targetsOf, f, g);
      PairMeaning(topology, targetsOf, findings, f, g);
      assert f in causes && g in consequences;
      var i :| 0 <= i < |causes| && causes[i] == f;
      var j :| 0 <= j < |consequences| && consequences[j] == g;
      assert ExplainsOneOf(adjacency, targets, causes[i], consequences, |consequences|, k);
    }
  }

  /** The recorded pairs are exactly the pairs of findings of which one may explain the other. */
  ghost predicate LinksMayExplain(topology: set<Edge>, targetsOf: Finding -> set<string>, findings: seq<Finding>,
                                  downstream: Downstream) {
    forall c, k :: Linked(downstream, c, k) <==> MayExplainIds(topology, targetsOf, findings, c, k)
  }

  lemma LinksMeaning(topology: set<Edge>, targetsOf: Finding -> set<string>, findings: seq<Finding>,
                     causes: seq<Finding>, consequences: seq<Finding>, downstream: Downstream)
    requires IdsIdentify(findings)
    requires forall f :: f in causes <==> f in findings && IsCause(f)
    requires forall f :: f in consequences <==> f in findings && IsConsequence(f)
    requires LinksAre(AdjacencyOf(topology), TargetsById(findings, targetsOf), causes, consequences, |causes|,
                      downstream)
    ensures LinksMayExplain(topology, targetsOf, findings, downstream)
    ensures forall c, k :: Linked(downstream, c, k) ==> c != k
  {
    forall c, k ensures Linked(downstream, c, k) <==> MayExplainIds(topology, targetsOf, findings, c, k) {
      ExplainedIsMayExplain(topology, targetsOf, findings, causes, consequences, c, k);
    }
  }

  ghost predicate Joined(edges: set<Edge>, u: string, v: string) {
    exists e :: e in edges && e.source == u && e.target == v
  }

  /** `p` follows the edges. */
  ghost predicate EdgePath(edges: set<Edge>, p: seq<string>) {
    p != [] && forall i :: 0 <= i < |p| - 1 ==> Joined(edges, p[i], p[i + 1])
  }

  lemma EdgePathNext(edges: set<Edge>, p: seq<string>)
    requires |p| > 1
    ensures EdgePath(edges, p) <==> EdgePath(edges, p[..|p| - 1]) && Joined(edges, p[|p| - 2], p[|p| - 1])
  {
    var front := p[..|p| - 1];
    if EdgePath(edges, p) {
      forall i | 0 <= i < |front| - 1 ensures Joined(edges, front[i], front[i + 1]) {
        assert Joined(edges, p[i], p[i + 1]);
      }
      assert Joined(edges, p[|p| - 2], p[|p| - 2 + 1]);
    }
    if EdgePath(edges, front) && Joined(edges, p[|p| - 2], p[|p| - 1]) {
      forall i | 0 <= i < |p| - 1 ensures Joined(edges, p[i], p[i + 1]) {
        if i < |p| - 2 { assert Joined(edges, front[i], front[i + 1]); }
      }
    }
  }

  lemma {:induction false} EdgePathIsPath(edges: set<Edge>, p: seq<string>)
    ensures EdgePath(edges, p) <==> IsPath(AdjacencyOf(edges), p)
  {
    if |p| > 1 {
      EdgePathIsPath(edges, p[..|p| - 1]);
      EdgePathNext(edges, p);
      StepIsEdge(edges, p[|p| - 2], p[|p| - 1]);
    }
  }

  lemma StepIsEdge(edges: set<Edge>, u: string, v: string)
    ensures v in Targets(AdjacencyOf(edges), u) <==> Joined(edges, u, v)
  {
    if e :| e in edges && e.source == u && e.target == v {
      assert u in Sources(edges) && v in Successors(edges, u);
    }
  }

  /** A pair of findings is recorded if and only if the first is no consequence and no finding about the
      collection, the second is a consequence, the first did not start more than 15 minutes after the
      second had ended, and at most six edges lead from a target of the first to one of the second. */
  lemma RecordedExactly(topology: set<Edge>, targetsOf: Finding -> set<string>, findings: seq<Finding>,
                        downstream: Downstream, f: Finding, g: Finding)
    requires IdsIdentify(findings) && LinksMayExplain(topology, targetsOf, findings, downstream)
    requires f in findings && g in findings
    ensures Linked(downstream, f.id, g.id)
        <==> (f.role != "consequence" && !("collector." <= f.ruleId) && g.role == "consequence"
              && !(f.startedAt.Some? && g.endedAt.Some? && f.startedAt.value - g.endedAt.value > 900.0)
              && exists p :: EdgePath(topology, p) && |p| <= 7 && p[0] in targetsOf(f) && p[|p| - 1] in targetsOf(g))
  {
    assert Linked(downstream, f.id, g.id) <==> MayExplainIds(topology, targetsOf, findings, f.id, g.id);
    assert MayExplainIds(topology, targetsOf, findings, f.id, g.id) <==> MayExplainFinding(topology, targetsOf, f, g);
    PathExactly(topology, targetsOf(f), targetsOf(g));
  }

  lemma PathExactly(topology: set<Edge>, starts: set<string>, ends: set<string>)
    ensures (exists v :: v in ends && Within(AdjacencyOf(topology), starts, MAXIMUM_DEPTH, v))
        <==> exists p :: EdgePath(topology, p) && |p| <= 7 && p[0] in starts && p[|p| - 1] in ends
  {
    var adjacency := AdjacencyOf(topology);
    if v :| v in ends && Within(adjacency, starts, MAXIMUM_DEPTH, v) {
      WithinIsPath(adjacency, starts, MAXIMUM_DEPTH, v);
      var p :| Leads(adjacency, starts, MAXIMUM_DEPTH, v, p);
      EdgePathIsPath(topology, p);
    }
    if p :| EdgePath(topology, p) && |p| <= 7 && p[0] in starts && p[|p| - 1] in ends {
      EdgePathIsPath(topology, p);
      assert Leads(adjacency, starts, MAXIMUM_DEPTH, p[|p| - 1], p);
      WithinIsPath(adjacency, starts, MAXIMUM_DEPTH, p[|p| - 1]);
    }
  }

  /** Every recorded pair has its edge. */
  ghost predicate AllDrawn(edges: set<Edge>, downstream: Downstream) {
    forall c, k :: Linked(downstream, c, k) ==> MayExplain(c, k) in edges
  }

  /** Both findings of every recorded pair got a node. */
  ghost predicate AllShown(nodes: set<string>, downstream: Downstream) {
    forall c, k :: Linked(downstream, c, k) ==> FindingNode(c) in nodes && FindingNode(k) in nodes
  }

  /** Is there room for the edges of all recorded pairs behind everything that is drawn first? It can
      be seen from the graph before the findings, the findings, and the limits. */
  ghost predicate RoomForLinks(known: set<string>, edges: set<Edge>, findings: seq<Finding>,
                               targetsOf: Finding -> set<string>, maxNodes: nat, maxEdges: nat,
                               downstream: Downstream) {
    var nodes := KnownAfter(known, findings, maxNodes);
    var wanted := LinkEdges(nodes, downstream);
    && AllShown(nodes, downstream)
    && (wanted <= edges || |edges + Attachments(known, findings, targetsOf, maxNodes) + wanted| <= maxEdges)
  }

  ghost predicate SameLinks(d: Downstream, e: Downstream) {
    forall c, k :: Linked(d, c, k) <==> Linked(e, c, k)
  }

  lemma LinksAreDetermined(topology: set<Edge>, targetsOf: Finding -> set<string>, findings: seq<Finding>,
                           d: Downstream, e: Downstream)
    requires LinksMayExplain(topology, targetsOf, findings, d) && LinksMayExplain(topology, targetsOf, findings, e)
    ensures SameLinks(d, e)
  {
    forall c, k ensures Linked(d, c, k) <==> Linked(e, c, k) {
      assert Linked(d, c, k) <==> MayExplainIds(topology, targetsOf, findings, c, k);
    }
  }

  /** The findings and the topology determine which pairs are recorded, so the room can be computed
      before the call. */
  lemma RoomIsDetermined(topology: set<Edge>, known: set<string>, edges: set<Edge>, findings: seq<Finding>,
                         targetsOf: Finding -> set<string>, maxNodes: nat, maxEdges: nat, d: Downstream, e: Downstream)
    requires LinksMayExplain(topology, targetsOf, findings, d) && LinksMayExplain(topology, targetsOf, findings, e)
    ensures RoomForLinks(known, edges, findings, targetsOf, maxNodes, maxEdges, d)
        <==> RoomForLinks(known, edges, findings, targetsOf, maxNodes, maxEdges, e)
  {
    var nodes := KnownAfter(known, findings, maxNodes);
    LinksAreDetermined(topology, targetsOf, findings, d, e);
    SameWanted(nodes, d, e);
  }

  lemma SameWanted(nodes: set<string>, d: Downstream, e: Downstream)
    requires SameLinks(d, e)
    ensures LinkEdges(nodes, d) == LinkEdges(nodes, e) && (AllShown(nodes, d) <==> AllShown(nodes, e))
  {
    SameLinkEdges(nodes, d, e);
    SameLinkEdges(nodes, e, d);
  }

  lemma SameLinkEdges(nodes: set<string>, d: Downstream, e: Downstream)
    requires forall c, k :: Linked(d, c, k) ==> Linked(e, c, k)
    ensures LinkEdges(nodes, d) <= LinkEdges(nodes, e)
  {
    forall x | x in LinkEdges(nodes, d) ensures x in LinkEdges(nodes, e) {
      var c, k :| c in d && k in d[c] && c != k && FindingNode(c) in nodes && FindingNode(k) in nodes
                  && x == MayExplain(c, k);
      assert Linked(d, c, k);
    }
  }

  lemma AllDrawnExactly(nodes: set<string>, edges: set<Edge>, downstream: Downstream)
    requires forall e :: e in edges ==> e.source in nodes && e.target in nodes && e.source != e.target
    requires forall c, k :: Linked(downstream, c, k) ==> c != k
    ensures AllDrawn(edges, downstream) <==> AllShown(nodes, downstream) && LinkEdges(nodes, downstream) <= edges
  {
    if AllDrawn(edges, downstream) {
      forall c, k | Linked(downstream, c, k) ensures FindingNode(c) in nodes && FindingNode(k) in nodes {
        assert MayExplain(c, k) in edges;
      }
    }
    if AllShown(nodes, downstream) && LinkEdges(nodes, downstream) <= edges {
      forall c, k | Linked(downstream, c, k) ensures MayExplain(c, k) in edges {
        assert MayExplain(c, k) in LinkEdges(nodes, downstream);
      }
    }
  }

  lemma RoomExactly(known: set<string>, before: set<Edge>, attached: set<Edge>, after: set<Edge>,
                    findings: seq<Finding>,
                    targetsOf: Finding -> set<string>, maxNodes: nat, maxEdges: nat, downstream: Downstream)
    requires var nodes := KnownAfter(known, findings, maxNodes);
             && Grown(before, Attachments(known, findings, targetsOf, maxNodes), attached, maxEdges)
             && Grown(attached, LinkEdges(nodes, downstream), after, maxEdges)
             && (forall e :: e in after ==> e.source in nodes && e.target in nodes && e.source != e.target)
    requires forall c, k :: Linked(downstream, c, k) ==> c != k
    ensures AllDrawn(after, downstream)
        <==> RoomForLinks(known, before, findings, targetsOf, maxNodes, maxEdges, downstream)
  {
    var nodes, indicates := KnownAfter(known, findings, maxNodes), Attachments(known, findings, targetsOf, maxNodes);
    AttachmentsIndicate(known, findings, targetsOf, maxNodes);
    assert indicates * LinkEdges(nodes, downstream) == {} by {
      assert forall e :: e in LinkEdges(nodes, downstream) ==> e.relation == "may_explain";
    }
    GrownBehind(before, indicates, attached, LinkEdges(nodes, downstream), after, maxEdges);
    AllDrawnExactly(nodes, after, downstream);
  }

  /** `build_causal_analysis` up to the `may_explain` edges: the recorded pairs are exactly the pairs
      of a cause and a consequence that the cluster topology joins, whatever else the graph holds. All of
      them have an edge if and only if there is room for them; otherwise the graph is full. */
  method ExplainFindings(graph: GraphBuilder, findings: seq<Finding>, targetsOf: Finding -> set<string>)
    returns (downstream: Downstream)
    requires graph.Valid() && IdsIdentify(findings)
    modifies graph
    ensures graph.Valid()
    ensures graph.nodes.Keys == KnownAfter(old(graph.nodes).Keys, findings, graph.maxNodes)
    ensures LinksMayExplain(Topology(old(graph.edges)), targetsOf, findings, downstream)
    ensures Drawn(old(graph.edges), old(graph.truncated) || !(NodesOf(findings) <= graph.nodes.Keys),
                  Attachments(old(graph.nodes).Keys, findings, targetsOf, graph.maxNodes)
                  + LinkEdges(graph.nodes.Keys, downstream),
                  graph.edges, graph.truncated, graph.maxEdges)
    ensures AllDrawn(graph.edges, downstream) <==>
        RoomForLinks(old(graph.nodes).Keys, old(graph.edges), findings, targetsOf, graph.maxNodes, graph.maxEdges,
                     downstream)
  {
    ghost var known, before, marked := graph.nodes.Keys, graph.edges, graph.truncated;
    ghost var topology := Topology(before);
    var targets := AttachFindings(graph, findings, targetsOf);
    ghost var attached, mark := graph.edges, graph.truncated;
    ghost var indicates := Attachments(known, findings, targetsOf, graph.maxNodes);
    AttachmentsIndicate(known, findings, targetsOf, graph.maxNodes);
    TopologyStays(before, indicates, attached, graph.maxEdges);
    var adjacency := TopologyAdjacency(graph.edges);
    var causes, consequences := Filter(IsCause, findings), Filter(IsConsequence, findings);
    downstream := LinkFindings(graph, adjacency, targets, causes, consequences);
    LinksMeaning(topology, targetsOf, findings, causes, consequences, downstream);
    DrawnTwice(before, marked || !(NodesOf(findings) <= graph.nodes.Keys), indicates, attached, mark,
               LinkEdges(graph.nodes.Keys, downstream), graph.edges, graph.truncated, graph.maxEdges,
               indicates + LinkEdges(graph.nodes.Keys, downstream));
    RoomExactly(known, before, attached, graph.edges, findings, targetsOf, graph.maxNodes, graph.maxEdges, downstream);
  }

  // --- an example -----------------------------------------------------------------------------

  function SampleFinding(id: string, role: string): Finding {
    Finding(id, "rule", "title", "critical", role, "active", "high", None, None, 0, 0)
  }

  const SAMPLE_FINDINGS := [SampleFinding("c", "possible_cause"), SampleFinding("k", "consequence")]

  function SampleTargets(): Finding -> set<string> {
    (f: Finding) => if f.id == "c" then {"a"} else {"b"}
  }

  const SAMPLE_EDGES := {Edge("a", "b", "hosts")}

  const SAMPLE_LINKS: Downstream := map["c" := {"k"}]

  lemma SampleExplains()
    ensures LinksMayExplain(Topology(SAMPLE_EDGES), SampleTargets(), SAMPLE_FINDINGS, SAMPLE_LINKS)
  {
    var edge, topology := Edge("a", "b", "hosts"), Topology(SAMPLE_EDGES);
    var cause, consequence := SAMPLE_FINDINGS[0], SAMPLE_FINDINGS[1];
    assert edge in topology;
    assert "a" in Sources(topology) && "b" in Successors(topology, "a");
    var adjacency := AdjacencyOf(topology);
    assert Within(adjacency, {"a"}, 5, "a") && "b" in Targets(adjacency, "a");
    assert Within(adjacency, SampleTargets()(cause), MAXIMUM_DEPTH, "b");
    assert "rule"[0] != "collector."[0];
    assert MayExplainFinding(topology, SampleTargets(), cause, consequence);
    assert MayExplainIds(topology, SampleTargets(), SAMPLE_FINDINGS, "c", "k");
  }

  lemma SampleNodesDiffer()
    ensures FindingNode("c") != FindingNode("k")
    ensures FindingNode("c") !in {"a", "b"} && FindingNode("k") !in {"a", "b"}
  {
    FindingNodeInjective("c", "k");
    assert |FindingNode("c")| > 1 && |FindingNode("k")| > 1;
  }

  lemma TwoFindings(known: set<string>, f: Finding, g: Finding, targetsOf: Finding -> set<string>, limit: nat)
    requires |known| + 2 <= limit
    ensures var first := known + {FindingNode(f.id)}; var second := first + {FindingNode(g.id)};
            && KnownAfter(known, [f, g], limit) == second
            && Attachments(known, [f, g], targetsOf, limit)
               == AttachEdges(first, f, targetsOf(f)) + AttachEdges(second, g, targetsOf(g))
  {
    var fs := [f, g];
    PrefixNext(known, fs, targetsOf, limit, 0);
    PrefixNext(known, fs, targetsOf, limit, 1);
    assert fs[..0] == [] && fs[..2] == fs;
    assert known + {FindingNode(f.id)} == WithNode(known, FindingNode(f.id), limit);
    assert |known + {FindingNode(f.id)}| <= |known| + 1;
  }

  function SampleIndicates(): set<Edge> {
    {Edge(FindingNode("c"), "a", "indicates"), Edge(FindingNode("k"), "b", "indicates")}
  }

  lemma SampleAttaches(n: string, t: string, nodes: set<string>, f: Finding)
    requires n == FindingNode(f.id) && n in nodes && t in nodes && t != n
    ensures AttachEdges(nodes, f, {t}) == {Edge(n, t, "indicates")}
  {
  }

  lemma SampleGrows()
    ensures KnownAfter({"a", "b"}, SAMPLE_FINDINGS, 4) == {"a", "b", FindingNode("c"), FindingNode("k")}
    ensures Attachments({"a", "b"}, SAMPLE_FINDINGS, SampleTargets(), 4) == SampleIndicates()
  {
    var f, g := SampleFinding("c", "possible_cause"), SampleFinding("k", "consequence");
    SampleNodesDiffer();
    TwoFindings({"a", "b"}, f, g, SampleTargets(), 4);
    SampleAttaches(FindingNode("c"), "a", {"a", "b"} + {FindingNode("c")}, f);
    SampleAttaches(FindingNode("k"), "b", {"a", "b"} + {FindingNode("c")} + {FindingNode("k")}, g);
  }

  lemma SampleLinks(nodes: set<string>)
    requires FindingNode("c") in nodes && FindingNode("k") in nodes
    ensures LinkEdges(nodes, SAMPLE_LINKS) == {MayExplain("c", "k")} && AllShown(nodes, SAMPLE_LINKS)
  {
    assert Linked(SAMPLE_LINKS, "c", "k");
  }

  lemma FourElements<T>(a: T, b: T, c: T, d: T)
    requires a != b && a != c && a != d && b != c && b != d && c != d
    ensures |{a} + {b, c} + {d}| == 4
  {
    assert {a} + {b, c} + {d} == {a, b, c, d};
  }

  lemma SampleEdgesCount()
    ensures |SAMPLE_EDGES + SampleIndicates() + {MayExplain("c", "k")}| == 4
    ensures MayExplain("c", "k") !in SAMPLE_EDGES
  {
    SampleNodesDiffer();
    assert "hosts"[0] != "indicates"[0] && "hosts"[0] != "may_explain"[0] && "indicates"[0] != "may_explain"[0];
    FourElements(Edge("a", "b", "hosts"), Edge(FindingNode("c"), "a", "indicates"),
                 Edge(FindingNode("k"), "b", "indicates"), MayExplain("c", "k"));
  }

  /** A graph of two joined nodes and room for three edges: the pair is recorded, the edges to the
      targets use up the room, and the edge between the findings is missing. With room for four it is not. */
  lemma FullGraphDropsPair()
    ensures LinksMayExplain(Topology(SAMPLE_EDGES), SampleTargets(), SAMPLE_FINDINGS, SAMPLE_LINKS)
    ensures !RoomForLinks({"a", "b"}, SAMPLE_EDGES, SAMPLE_FINDINGS, SampleTargets(), 4, 3, SAMPLE_LINKS)
    ensures RoomForLinks({"a", "b"}, SAMPLE_EDGES, SAMPLE_FINDINGS, SampleTargets(), 4, 4, SAMPLE_LINKS)
  {
    SampleExplains();
    SampleGrows();
    SampleLinks({"a", "b", FindingNode("c"), FindingNode("k")});
    SampleEdgesCount();
  }

  /** Whatever the limits are: where the known nodes leave room for one finding only, the second one gets
      no node, and the recorded pair has no edge. */
  lemma FullNodesDropPair(known: set<string>, edges: set<Edge>, maxNodes: nat, maxEdges: nat)
    requires FindingNode("c") !in known && FindingNode("k") !in known && |known| + 1 == maxNodes
    ensures !RoomForLinks(known, edges, SAMPLE_FINDINGS, SampleTargets(), maxNodes, maxEdges, SAMPLE_LINKS)
  {
    var fs := SAMPLE_FINDINGS;
    SampleNodesDiffer();
    AllShownExactly(known, fs, maxNodes);
    assert NodesOf(fs) == {FindingNode("c"), FindingNode("k")} by {
      assert fs[0] in fs && fs[1] in fs;
      assert FindingNode(fs[0].id) in NodesOf(fs) && FindingNode(fs[1].id) in NodesOf(fs);
    }
    assert |known + {FindingNode("c"), FindingNode("k")}| == |known| + 2;
    assert Linked(SAMPLE_LINKS, "c", "k");
  }
}
