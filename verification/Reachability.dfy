/** Bounded breadth-first search (causal.py `_reachable`). */
module Reachability {

  type Adjacency = map<string, set<string>>

  function Targets(adjacency: Adjacency, v: string): set<string> {
    if v in adjacency then adjacency[v] else {}
  }

  /** Some start reaches `v` in at most `depth` edges. */
  ghost predicate Within(adjacency: Adjacency, starts: set<string>, depth: nat, v: string) {
    v in starts
    || (depth > 0 && exists u :: Within(adjacency, starts, depth - 1, u) && v in Targets(adjacency, u))
  }

  // --- the same, by paths -------------------------------------------------------------------

  ghost predicate IsPath(adjacency: Adjacency, p: seq<string>) {
    if |p| <= 1 then |p| == 1
    else p[|p| - 1] in Targets(adjacency, p[|p| - 2]) && IsPath(adjacency, p[..|p| - 1])
  }

  /** `p` is a path of at most `depth` edges from a start to `v`. */
  ghost predicate Leads(adjacency: Adjacency, starts: set<string>, depth: nat, v: string, p: seq<string>) {
    IsPath(adjacency, p) && |p| <= depth + 1 && p[0] in starts && p[|p| - 1] == v
  }

  lemma PathExtends(adjacency: Adjacency, q: seq<string>, v: string)
    requires IsPath(adjacency, q) && v in Targets(adjacency, q[|q| - 1])
    ensures IsPath(adjacency, q + [v])
  {
    assert (q + [v])[..|q|] == q;
  }

  lemma {:induction false} PathOf(adjacency: Adjacency, starts: set<string>, depth: nat, v: string)
    returns (p: seq<string>)
    requires Within(adjacency, starts, depth, v)
    ensures Leads(adjacency, starts, depth, v, p)
  {
    if v in starts {
      p := [v];
    } else {
      var u :| Within(adjacency, starts, depth - 1, u) && v in Targets(adjacency, u);
      var q := PathOf(adjacency, starts, depth - 1, u);
      PathExtends(adjacency, q, v);
      p := q + [v];
    }
  }

  lemma {:induction false} PathReaches(adjacency: Adjacency, starts: set<string>, depth: nat, p: seq<string>)
    requires IsPath(adjacency, p) && |p| <= depth + 1 && p[0] in starts
    ensures Within(adjacency, starts, depth, p[|p| - 1])
  {
    if |p| > 1 {
      PathReaches(adjacency, starts, depth - 1, p[..|p| - 1]);
      assert Within(adjacency, starts, depth - 1, p[|p| - 2]);
    }
  }

  /** `Within` is what it says: a path of at most `depth` edges exists. */
  lemma WithinIsPath(adjacency: Adjacency, starts: set<string>, depth: nat, v: string)
    ensures Within(adjacency, starts, depth, v) <==> exists p :: Leads(adjacency, starts, depth, v, p)
  {
    if Within(adjacency, starts, depth, v) { var p := PathOf(adjacency, starts, depth, v); }
    if p :| Leads(adjacency, starts, depth, v, p) { PathReaches(adjacency, starts, depth, p); }
  }

  lemma {:induction false} WithinLonger(adjacency: Adjacency, starts: set<string>, depth: nat, longer: nat, v: string)
    requires Within(adjacency, starts, depth, v) && depth <= longer
    ensures Within(adjacency, starts, longer, v)
  {
    var p := PathOf(adjacency, starts, depth, v);
    PathReaches(adjacency, starts, longer, p);
  }

  // --- the invariant of the search ---------------------------------------------------------------

  /** The queue item of the search: a node and its depth. */
  datatype Item = Item(node: string, depth: nat)

  type Depths = map<string, nat>

  function Universe(adjacency: Adjacency, starts: set<string>): set<string> {
    starts + (set v, t | v in adjacency && t in adjacency[v] :: t)
  }

  /** `depths` assigns to every found node a depth at which it was reached. */
  ghost predicate Found(adjacency: Adjacency, starts: set<string>, maximum: nat, depths: Depths) {
    && (forall v :: v in starts ==> v in depths && depths[v] == 0)
    && (forall v :: v in depths ==> depths[v] <= maximum && Within(adjacency, starts, depths[v], v))
    && depths.Keys <= Universe(adjacency, starts)
  }

  ghost predicate Expanded(adjacency: Adjacency, depths: Depths, v: string)
    requires v in depths
  {
    forall t :: t in Targets(adjacency, v) ==> t in depths && depths[t] <= depths[v] + 1
  }

  ghost predicate Queued(queue: seq<Item>, v: string) {
    exists i :: 0 <= i < |queue| && queue[i].node == v
  }

  /** The queue is in depth order, and no found node is more than one level behind its front. */
  ghost predicate InOrder(queue: seq<Item>, depths: Depths) {
    && (forall i :: 0 <= i < |queue| ==> queue[i].node in depths && depths[queue[i].node] == queue[i].depth)
    && (forall i, j :: 0 <= i < j < |queue| ==> queue[i].depth <= queue[j].depth)
    && (queue != [] ==> forall v :: v in depths ==> depths[v] <= queue[0].depth + 1)
  }

  /** Whoever left the queue above the depth limit has all targets found. */
  ghost predicate AllExpanded(adjacency: Adjacency, maximum: nat, queue: seq<Item>, depths: Depths) {
    forall v :: v in depths && depths[v] < maximum && !Queued(queue, v) ==> Expanded(adjacency, depths, v)
  }

  /** Once the queue is empty, everything within the limit is found: marking nodes as soon as they
      are seen loses none. */
  lemma {:induction false} EverythingFound(adjacency: Adjacency, starts: set<string>, maximum: nat, depths: Depths,
                                           depth: nat, v: string)
    requires Found(adjacency, starts, maximum, depths) && AllExpanded(adjacency, maximum, [], depths)
    requires Within(adjacency, starts, depth, v) && depth <= maximum
    ensures v in depths && depths[v] <= depth
  {
    if v !in starts {
      var u :| Within(adjacency, starts, depth - 1, u) && v in Targets(adjacency, u);
      EverythingFound(adjacency, starts, maximum, depths, depth - 1, u);
      assert !Queued([], u);
      assert Expanded(adjacency, depths, u);
    }
  }

  lemma QueuedPush(queue: seq<Item>, item: Item)
    ensures forall v :: Queued(queue + [item], v) <==> Queued(queue, v) || v == item.node
  {
    forall v ensures Queued(queue + [item], v) <==> Queued(queue, v) || v == item.node {
      if Queued(queue, v) {
        var i :| 0 <= i < |queue| && queue[i].node == v;
        assert (queue + [item])[i].node == v;
      }
      assert (queue + [item])[|queue|].node == item.node;
    }
  }

  lemma QueuedPop(queue: seq<Item>)
    requires queue != []
    ensures forall v :: Queued(queue, v) ==> v == queue[0].node || Queued(queue[1..], v)
  {
    forall v | Queued(queue, v) && v != queue[0].node ensures Queued(queue[1..], v) {
      var i :| 0 <= i < |queue| && queue[i].node == v;
      assert queue[1..][i - 1].node == v;
    }
  }

  /** While one node is being expanded: `rest` are the targets still to be looked at. */
  ghost predicate Expanding(adjacency: Adjacency, maximum: nat, current: Item, rest: set<string>, queue: seq<Item>,
                            depths: Depths) {
    && current.depth < maximum
    && InOrder([current] + queue, depths)
    && (forall v :: v in depths && depths[v] < maximum && v != current.node && !Queued(queue, v) ==>
        Expanded(adjacency, depths, v))
    && (forall t :: t in Targets(adjacency, current.node) && t !in rest ==>
        t in depths && depths[t] <= current.depth + 1)
  }

  lemma BeginExpanding(adjacency: Adjacency, maximum: nat, queue: seq<Item>, depths: Depths)
    requires queue != [] && queue[0].depth < maximum
    requires InOrder(queue, depths) && AllExpanded(adjacency, maximum, queue, depths)
    ensures Expanding(adjacency, maximum, queue[0], Targets(adjacency, queue[0].node), queue[1..], depths)
  {
    assert [queue[0]] + queue[1..] == queue;
    QueuedPop(queue);
  }

  lemma OldTarget(adjacency: Adjacency, maximum: nat, current: Item, rest: set<string>, queue: seq<Item>,
                  depths: Depths, t: string)
    requires Expanding(adjacency, maximum, current, rest, queue, depths) && t in depths
    ensures Expanding(adjacency, maximum, current, rest - {t}, queue, depths)
  {
    assert ([current] + queue)[0] == current;
  }

  lemma NewTarget(adjacency: Adjacency, maximum: nat, current: Item, rest: set<string>, queue: seq<Item>,
                  depths: Depths, t: string)
    requires Expanding(adjacency, maximum, current, rest, queue, depths) && t !in depths
    ensures Expanding(adjacency, maximum, current, rest - {t}, queue + [Item(t, current.depth + 1)],
                      depths[t := current.depth + 1])
  {
    var item := Item(t, current.depth + 1);
    var depths' := depths[t := current.depth + 1];
    InOrderPush(current, queue, depths, t);
    QueuedPush(queue, item);
    forall v | v in depths' && depths'[v] < maximum && v != current.node && !Queued(queue + [item], v)
      ensures Expanded(adjacency, depths', v)
    {
      assert v in depths && !Queued(queue, v);
      assert Expanded(adjacency, depths, v);
    }
  }

  lemma DoneExpanding(adjacency: Adjacency, maximum: nat, current: Item, queue: seq<Item>, depths: Depths)
    requires Expanding(adjacency, maximum, current, {}, queue, depths)
    ensures InOrder(queue, depths) && AllExpanded(adjacency, maximum, queue, depths)
  {
    InOrderPop([current] + queue, depths);
    assert ([current] + queue)[0] == current && ([current] + queue)[1..] == queue;
  }

  lemma InOrderPush(current: Item, queue: seq<Item>, depths: Depths, t: string)
    requires InOrder([current] + queue, depths) && t !in depths
    ensures InOrder([current] + (queue + [Item(t, current.depth + 1)]), depths[t := current.depth + 1])
  {
    var q, item := [current] + queue, Item(t, current.depth + 1);
    assert [current] + (queue + [item]) == q + [item];
    assert q[0] == current;
    assert forall i :: 0 <= i < |q| ==> q[i].node in depths && q[i].depth <= current.depth + 1;
  }

  lemma InOrderPop(queue: seq<Item>, depths: Depths)
    requires queue != [] && InOrder(queue, depths)
    ensures InOrder(queue[1..], depths)
  {
    var tail := queue[1..];
    assert forall i :: 0 <= i < |tail| ==> tail[i] == queue[i + 1];
    assert tail != [] ==> queue[0].depth <= queue[1].depth;
  }

  lemma FoundMore(adjacency: Adjacency, starts: set<string>, maximum: nat, depths: Depths, v: string, t: string)
    requires Found(adjacency, starts, maximum, depths) && v in depths && depths[v] < maximum
    requires t in Targets(adjacency, v) && t !in depths
    ensures Found(adjacency, starts, maximum, depths[t := depths[v] + 1])
  {
    assert Within(adjacency, starts, depths[v], v);
    assert Within(adjacency, starts, depths[v] + 1, t);
    assert v in adjacency;
  }

  // --- the search -----------------------------------------------------------------------------------

  /** Every start at depth zero, in any order. */
  method InitialQueue(starts: set<string>) returns (queue: seq<Item>)
    ensures forall i :: 0 <= i < |queue| ==> queue[i].node in starts && queue[i].depth == 0
    ensures forall v :: v in starts ==> Queued(queue, v)
  {
    queue := [];
    var rest := starts;
    while rest != {}
      invariant rest <= starts
      invariant forall i :: 0 <= i < |queue| ==> queue[i].node in starts && queue[i].depth == 0
      invariant forall v :: v in starts && v !in rest ==> Queued(queue, v)
      decreases rest
    {
      var v :| v in rest;
      QueuedPush(queue, Item(v, 0));
      queue := queue + [Item(v, 0)];
      rest := rest - {v};
    }
  }

  /** Both halves of the invariant of the inner loop. */
  ghost predicate Searching(adjacency: Adjacency, starts: set<string>, maximum: nat, current: Item, rest: set<string>,
                            queue: seq<Item>, depths: Depths) {
    Found(adjacency, starts, maximum, depths) && Expanding(adjacency, maximum, current, rest, queue, depths)
  }

  lemma LookAtNew(adjacency: Adjacency, starts: set<string>, maximum: nat, current: Item, rest: set<string>,
                  queue: seq<Item>, depths: Depths, t: string)
    requires Searching(adjacency, starts, maximum, current, rest, queue, depths)
    requires t in Targets(adjacency, current.node) && t !in depths
    ensures Searching(adjacency, starts, maximum, current, rest - {t},
                      queue + [Item(t, current.depth + 1)], depths[t := current.depth + 1])
  {
    assert ([current] + queue)[0] == current;
    NewTarget(adjacency, maximum, current, rest, queue, depths, t);
    FoundMore(adjacency, starts, maximum, depths, current.node, t);
  }

  /** The inner loop of `_reachable`: looks at all targets of one node. */
  method ExpandNode(adjacency: Adjacency, ghost starts: set<string>, maximum: nat, current: Item,
                    queue: seq<Item>, found: set<string>, ghost depths: Depths)
    returns (queue': seq<Item>, found': set<string>, ghost depths': Depths)
    requires found == depths.Keys
    requires Searching(adjacency, starts, maximum, current, Targets(adjacency, current.node), queue, depths)
    ensures found' == depths'.Keys
    ensures Searching(adjacency, starts, maximum, current, {}, queue', depths')
    ensures found <= found' && (found == found' ==> queue == queue')
  {
    queue', found', depths' := queue, found, depths;
    var rest := Targets(adjacency, current.node);
    while rest != {}
      invariant rest <= Targets(adjacency, current.node)
      invariant found' == depths'.Keys
      invariant Searching(adjacency, starts, maximum, current, rest, queue', depths')
      invariant found <= found' && (found == found' ==> queue == queue')
      decreases rest
    {
      var target :| target in rest;
      if target in found' {
        OldTarget(adjacency, maximum, current, rest, queue', depths', target);
      } else {
        LookAtNew(adjacency, starts, maximum, current, rest, queue', depths', target);
        found' := found' + {target};
        queue' := queue' + [Item(target, current.depth + 1)];
        depths' := depths'[target := current.depth + 1];
      }
      rest := rest - {target};
    }
  }

  lemma FoundIsWithin(adjacency: Adjacency, starts: set<string>, maximum: nat, depths: Depths)
    requires Found(adjacency, starts, maximum, depths) && AllExpanded(adjacency, maximum, [], depths)
    ensures forall v :: v in depths <==> Within(adjacency, starts, maximum, v)
  {
    forall v ensures v in depths <==> Within(adjacency, starts, maximum, v) {
      if v in depths {
        WithinLonger(adjacency, starts, depths[v], maximum, v);
      }
      if Within(adjacency, starts, maximum, v) {
        EverythingFound(adjacency, starts, maximum, depths, maximum, v);
      }
    }
  }

  /** The invariant of the outer loop. */
  ghost predicate Searched(adjacency: Adjacency, starts: set<string>, maximum: nat, queue: seq<Item>, depths: Depths) {
    && Found(adjacency, starts, maximum, depths)
    && InOrder(queue, depths)
    && AllExpanded(adjacency, maximum, queue, depths)
  }

  lemma SkipDeepest(adjacency: Adjacency, starts: set<string>, maximum: nat, queue: seq<Item>, depths: Depths)
    requires queue != [] && queue[0].depth >= maximum
    requires Searched(adjacency, starts, maximum, queue, depths)
    ensures Searched(adjacency, starts, maximum, queue[1..], depths)
  {
    QueuedPop(queue);
    InOrderPop(queue, depths);
  }

  lemma StartSearched(adjacency: Adjacency, starts: set<string>, maximum: nat, queue: seq<Item>)
    requires forall i :: 0 <= i < |queue| ==> queue[i].node in starts && queue[i].depth == 0
    requires forall v :: v in starts ==> Queued(queue, v)
    ensures Searched(adjacency, starts, maximum, queue, map v | v in starts :: 0)
  {
  }

  /** One round of the outer loop on a node above the depth limit. */
  method VisitNode(adjacency: Adjacency, ghost starts: set<string>, maximum: nat,
                   queue: seq<Item>, found: set<string>, ghost depths: Depths)
    returns (queue': seq<Item>, found': set<string>, ghost depths': Depths)
    requires queue != [] && queue[0].depth < maximum && found == depths.Keys
    requires Searched(adjacency, starts, maximum, queue, depths)
    ensures found' == depths'.Keys && Searched(adjacency, starts, maximum, queue', depths')
    ensures found <= found' <= Universe(adjacency, starts) && (found == found' ==> queue' == queue[1..])
  {
    BeginExpanding(adjacency, maximum, queue, depths);
    queue', found', depths' := ExpandNode(adjacency, starts, maximum, queue[0], queue[1..], found, depths);
    DoneExpanding(adjacency, maximum, queue[0], queue', depths');
  }

  /** `_reachable`: exactly the nodes that some start reaches in at most `maximum` edges. */
  method Reachable(adjacency: Adjacency, starts: set<string>, maximum: nat) returns (found: set<string>)
    ensures forall v :: v in found <==> Within(adjacency, starts, maximum, v)
  {
    found := starts;
    var queue := InitialQueue(starts);
    ghost var depths: Depths := map v | v in starts :: 0;
    StartSearched(adjacency, starts, maximum, queue);
    while queue != []
      invariant found == depths.Keys
      invariant Searched(adjacency, starts, maximum, queue, depths)
      decreases Universe(adjacency, starts) - found, |queue|
    {
      if queue[0].depth >= maximum {
        SkipDeepest(adjacency, starts, maximum, queue, depths);
        queue := queue[1..];
      } else {
        queue, found, depths := VisitNode(adjacency, starts, maximum, queue, found, depths);
      }
    }
    FoundIsWithin(adjacency, starts, maximum, depths);
  }
}
