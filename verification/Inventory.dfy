/** Host selection from an Ansible inventory (inventory.py): group graphs may be cyclic and may name
    groups that do not exist. */
module Inventory {
  import opened Wrappers
  import opened Reachability

  datatype Group = Group(hosts: seq<string>, children: seq<string>)

  type Document = map<string, Group>

  /** The set `seen` that all recursive calls share and extend. */
  class SeenSet {
    var groups: set<string>

    constructor ()
      ensures groups == {}
    {
      groups := {};
    }
  }

  function HostsIn(doc: Document, g: string): seq<string> {
    if g in doc then doc[g].hosts else []
  }

  function ChildrenOf(doc: Document, g: string): seq<string> {
    if g in doc then doc[g].children else []
  }

  /** The hosts of a set of groups. */
  function HostsOf(doc: Document, gs: set<string>): set<string> {
    set g, h | g in gs && h in HostsIn(doc, g) :: h
  }

  function ChildGraph(doc: Document): Adjacency {
    map g | g in doc :: set c | c in doc[g].children
  }

  /** `b` is `a` or a descendant of it. */
  ghost predicate Reaches(doc: Document, a: string, b: string) {
    exists n: nat :: Within(ChildGraph(doc), {a}, n, b)
  }

  lemma ReachesItself(doc: Document, a: string)
    ensures Reaches(doc, a, a)
  {
    assert Within(ChildGraph(doc), {a}, 0, a);
  }

  lemma {:induction false} WithinFromChild(doc: Document, a: string, c: string, n: nat, b: string)
    requires c in ChildrenOf(doc, a) && Within(ChildGraph(doc), {c}, n, b)
    ensures Within(ChildGraph(doc), {a}, n + 1, b)
  {
    var graph := ChildGraph(doc);
    if b in {c} {
      assert Within(graph, {a}, 0, a) && b in Targets(graph, a);
      assert Within(graph, {a}, 1, b);
      WithinLonger(graph, {a}, 1, n + 1, b);
    } else {
      var u :| Within(graph, {c}, n - 1, u) && b in Targets(graph, u);
      WithinFromChild(doc, a, c, n - 1, u);
    }
  }

  lemma ReachesThroughChild(doc: Document, a: string, c: string, b: string)
    requires c in ChildrenOf(doc, a) && Reaches(doc, c, b)
    ensures Reaches(doc, a, b)
  {
    var n: nat :| Within(ChildGraph(doc), {c}, n, b);
    WithinFromChild(doc, a, c, n, b);
  }

  ghost predicate ClosedUnderChildren(doc: Document, gs: set<string>) {
    forall g, c :: g in gs && c in ChildrenOf(doc, g) ==> c in gs
  }

  lemma {:induction false} ClosedContainsReachable(doc: Document, gs: set<string>, a: string, n: nat, b: string)
    requires ClosedUnderChildren(doc, gs) && a in gs && Within(ChildGraph(doc), {a}, n, b)
    ensures b in gs
  {
    if b !in {a} {
      var u :| Within(ChildGraph(doc), {a}, n - 1, u) && b in Targets(ChildGraph(doc), u);
      ClosedContainsReachable(doc, gs, a, n - 1, u);
      assert b in ChildrenOf(doc, u);
    }
  }

  lemma HostsOfUnion(doc: Document, a: set<string>, b: set<string>)
    ensures HostsOf(doc, a + b) == HostsOf(doc, a) + HostsOf(doc, b)
  {
  }

  /** All names the search can meet: it ends because every call consumes one of them. */
  function Names(doc: Document, group: string): set<string> {
    {group} + doc.Keys + (set g, c | g in doc && c in doc[g].children :: c)
  }

  /** What a call has done to the shared set: `fresh` groups were added, all descendants of `group`,
      and their children were seen as well. */
  ghost predicate Explored(doc: Document, group: string, before: set<string>, after: set<string>) {
    && before <= after
    && (forall g :: g in after - before ==> Reaches(doc, group, g))
    && (forall g, c :: g in after - before && c in ChildrenOf(doc, g) ==> c in after)
  }

  /** The same while the children of `group` are being visited, `n` of them already. */
  ghost predicate Exploring(doc: Document, group: string, n: nat, before: set<string>, now: set<string>) {
    && before + {group} <= now && group !in before
    && (forall g :: g in now - before ==> Reaches(doc, group, g))
    && (forall g, c :: g in now - before && g != group && c in ChildrenOf(doc, g) ==> c in now)
    && n <= |ChildrenOf(doc, group)|
    && (forall i :: 0 <= i < n ==> ChildrenOf(doc, group)[i] in now)
  }

  lemma ExploreChild(doc: Document, group: string, n: nat, before: set<string>, now: set<string>, after: set<string>)
    requires Exploring(doc, group, n, before, now) && n < |ChildrenOf(doc, group)|
    requires Explored(doc, ChildrenOf(doc, group)[n], now, after) && ChildrenOf(doc, group)[n] in after
    ensures Exploring(doc, group, n + 1, before, after)
  {
    var child := ChildrenOf(doc, group)[n];
    forall g | g in after - before ensures Reaches(doc, group, g) {
      if g in after - now { ReachesThroughChild(doc, group, child, g); }
      else { assert g in now - before; }
    }
    forall g, c | g in after - before && g != group && c in ChildrenOf(doc, g) ensures c in after {
      if g in after - now { } else { assert g in now - before; }
    }
  }

  /** `_group_hosts`: a call returns the hosts of the groups it saw first, no others. */
  method GroupHosts(doc: Document, group: string, seen: SeenSet, ghost names: set<string>) returns (hosts: set<string>)
    requires group in names && ClosedUnderChildren(doc, names)
    modifies seen
    ensures group in seen.groups
    ensures Explored(doc, group, old(seen.groups), seen.groups)
    ensures hosts == HostsOf(doc, seen.groups - old(seen.groups))
    decreases names - seen.groups
  {
    ghost var before := seen.groups;
    if group in seen.groups {
      assert seen.groups - before == {};
      return {};
    }
    seen.groups := seen.groups + {group};
    var data := if group in doc then doc[group] else Group([], []);
    assert data.hosts == HostsIn(doc, group) && data.children == ChildrenOf(doc, group);
    hosts := set h | h in data.hosts;
    ReachesItself(doc, group);
    assert seen.groups - before == {group};
    assert hosts == HostsOf(doc, {group});
    var children := data.children;
    for i := 0 to |children|
      invariant Exploring(doc, group, i, before, seen.groups)
      invariant hosts == HostsOf(doc, seen.groups - before)
    {
      ghost var now := seen.groups;
      var found := GroupHosts(doc, children[i], seen, names);
      ExploreChild(doc, group, i, before, now, seen.groups);
      HostsOfUnion(doc, now - before, seen.groups - now);
      assert seen.groups - before == (now - before) + (seen.groups - now);
      hosts := hosts + found;
    }
    assert forall c :: c in children ==> c in seen.groups;
  }

  /** The call from outside: exactly the hosts of all groups below `group`, cycles and missing
      groups included. */
  method AllHosts(doc: Document, group: string) returns (hosts: set<string>)
    ensures forall h :: h in hosts <==> exists g :: Reaches(doc, group, g) && h in HostsIn(doc, g)
  {
    var seen := new SeenSet();
    hosts := GroupHosts(doc, group, seen, Names(doc, group));
    assert seen.groups - {} == seen.groups;
    assert ClosedUnderChildren(doc, seen.groups);
    forall g | Reaches(doc, group, g) ensures g in seen.groups {
      var n: nat :| Within(ChildGraph(doc), {group}, n, g);
      ClosedContainsReachable(doc, seen.groups, group, n, g);
    }
  }

  datatype Error = GroupNotFound | NoHosts

  predicate IsReserved(name: string) {
    name == "_meta" || name == "all" || name == "ungrouped"
  }

  /** The hosts `parse_ansible_inventory` is asked for. */
  ghost predicate Selected(doc: Document, hostvars: set<string>, group: string, h: string) {
    if group != "" then exists g :: Reaches(doc, group, g) && h in HostsIn(doc, g)
    else if hostvars != {} then h in hostvars
    else exists top, g :: top in doc && !IsReserved(top) && Reaches(doc, top, g) && h in HostsIn(doc, g)
  }

  /** The selection part of `parse_ansible_inventory`; an empty `group` means none was given. */
  method SelectHosts(doc: Document, hostvars: set<string>, group: string) returns (r: Result<set<string>, Error>)
    ensures r == Failure(GroupNotFound) <==> group != "" && group !in doc
    ensures r == Failure(NoHosts) <==> (group == "" || group in doc) && forall h :: !Selected(doc, hostvars, group, h)
    ensures r.Success? ==> r.value != {} && forall h :: h in r.value <==> Selected(doc, hostvars, group, h)
  {
    var names: set<string> := {};
    if group != "" {
      if group !in doc { return Failure(GroupNotFound); }
      names := AllHosts(doc, group);
    } else if hostvars != {} {
      names := hostvars;
    } else {
      var rest := doc.Keys;
      while rest != {}
        invariant rest <= doc.Keys
        invariant forall h :: h in names <==>
          exists top, g :: top in doc && top !in rest && !IsReserved(top) && Reaches(doc, top, g)
              && h in HostsIn(doc, g)
        decreases rest
      {
        var name :| name in rest;
        rest := rest - {name};
        if name != "_meta" && name != "all" && name != "ungrouped" {
          var found := AllHosts(doc, name);
          names := names + found;
        }
      }
    }
    if names == {} {
      forall h ensures !Selected(doc, hostvars, group, h) { assert h !in names; }
      return Failure(NoHosts);
    }
    var some :| some in names;
    assert Selected(doc, hostvars, group, some);
    return Success(names);
  }
}
