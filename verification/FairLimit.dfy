/** The output limit of normalize.py: round-robin over buckets of events. */
module FairLimit {
  import opened Order
  import opened Events
  import opened Places

  /** `_event_bucket`: source, scope, categories. */
  datatype Bucket = Bucket(source: string, scope: string, categories: seq<string>)

  function BucketOf(e: Event): Bucket {
    var scope :=
      if Present(e.namespace) && Present(e.pod) then "pod:" + e.namespace.value + "/" + e.pod.value
      else if Present(e.node) then "node:" + e.node.value
      else "cluster";
    Bucket(e.source, scope, e.categories)
  }

  /** Two events share a bucket if and only if they agree in source, categories and place: the pod if
      they name one, otherwise the node if they name one. */
  lemma BucketsExactly(a: Event, b: Event)
    ensures BucketOf(a) == BucketOf(b)
        <==> (a.source == b.source && a.categories == b.categories
              && (SamePodText(a, b)
                  || (!HasPod(a) && !HasPod(b) && (SameNode(a, b) || (!HasNode(a) && !HasNode(b))))))
  {
    var s, t := BucketOf(a).scope, BucketOf(b).scope;
    if HasPod(a) {
      var x := a.namespace.value + "/" + a.pod.value;
      assert s == "pod:" + x && s[4..] == x && s[0] == 'p';
    } else if HasNode(a) {
      assert s[5..] == a.node.value && s[0] == 'n';
    } else {
      assert s[0] == 'c';
    }
    if HasPod(b) {
      var y := b.namespace.value + "/" + b.pod.value;
      assert t == "pod:" + y && t[4..] == y && t[0] == 'p';
    } else if HasNode(b) {
      assert t[5..] == b.node.value && t[0] == 'n';
    } else {
      assert t[0] == 'c';
    }
  }

  /** Python's order on lists of strings, and on the bucket tuples. */
  predicate ListLeq(a: seq<string>, b: seq<string>) {
    a == [] || (b != [] && (if a[0] == b[0] then ListLeq(a[1..], b[1..]) else StrLeq(a[0], b[0])))
  }

  predicate BucketLeq(a: Bucket, b: Bucket) {
    if a.source != b.source then StrLeq(a.source, b.source)
    else if a.scope != b.scope then StrLeq(a.scope, b.scope)
    else ListLeq(a.categories, b.categories)
  }

  lemma {:induction false} ListReflexive(a: seq<string>)
    ensures ListLeq(a, a)
  {
    if a != [] { ListReflexive(a[1..]); }
  }

  lemma {:induction false} ListAntisymmetric(a: seq<string>, b: seq<string>)
    requires ListLeq(a, b) && ListLeq(b, a)
    ensures a == b
  {
    StrLeqIsTotalOrder();
    if a != [] && b != [] {
      assert a[0] == b[0];
      ListAntisymmetric(a[1..], b[1..]);
      assert a == [a[0]] + a[1..] && b == [b[0]] + b[1..];
    }
  }

  lemma {:induction false} ListTransitive(a: seq<string>, b: seq<string>, c: seq<string>)
    requires ListLeq(a, b) && ListLeq(b, c)
    ensures ListLeq(a, c)
  {
    StrLeqIsTotalOrder();
    if a != [] && a[0] == b[0] && b[0] == c[0] { ListTransitive(a[1..], b[1..], c[1..]); }
  }

  lemma {:induction false} ListTotal(a: seq<string>, b: seq<string>)
    ensures ListLeq(a, b) || ListLeq(b, a)
  {
    StrLeqIsTotalOrder();
    if a != [] && b != [] && a[0] == b[0] { ListTotal(a[1..], b[1..]); }
  }

  /** The lists agree in front of position `i`, and differ there in ascending order. */
  ghost predicate Decides(a: seq<string>, b: seq<string>, i: nat) {
    i < |a| && i < |b| && a[..i] == b[..i] && a[i] != b[i] && StrLeq(a[i], b[i])
  }

  lemma DecidesNext(a: seq<string>, b: seq<string>, i: nat)
    requires a != [] && b != [] && a[0] == b[0]
    ensures Decides(a, b, i + 1) <==> Decides(a[1..], b[1..], i)
  {
    if i < |a| - 1 && i < |b| - 1 {
      assert a[..i + 1] == [a[0]] + a[1..][..i] && b[..i + 1] == [b[0]] + b[1..][..i];
      assert a[1..][..i] == a[..i + 1][1..] && b[1..][..i] == b[..i + 1][1..];
    }
  }

  lemma DecidesAtOnce(a: seq<string>, b: seq<string>, i: nat)
    requires a != [] && b != [] && a[0] != b[0]
    ensures Decides(a, b, i) <==> i == 0 && StrLeq(a[0], b[0])
  {
    if i == 0 {
      assert a[..0] == b[..0];
    } else if i < |a| && i < |b| {
      assert a[..i][0] == a[0] && b[..i][0] == b[0];
    }
  }

  /** The order on lists is lexicographic: a prefix comes first, and otherwise the first difference decides. */
  lemma {:induction false} ListLeqExactly(a: seq<string>, b: seq<string>)
    ensures ListLeq(a, b) <==> a <= b || exists i: nat :: Decides(a, b, i)
  {
    if a != [] && b != [] && a[0] == b[0] {
      ListLeqExactly(a[1..], b[1..]);
      assert a == [a[0]] + a[1..] && b == [b[0]] + b[1..];
      if i: nat :| Decides(a, b, i) { DecidesNext(a, b, i - 1); }
      if i: nat :| Decides(a[1..], b[1..], i) { DecidesNext(a, b, i); }
    } else if a != [] && b != [] {
      forall i: nat ensures Decides(a, b, i) <==> i == 0 && StrLeq(a[0], b[0]) { DecidesAtOnce(a, b, i); }
      assert Decides(a, b, 0) <==> StrLeq(a[0], b[0]);
    }
  }

  /** Buckets take their turns by source, then by scope, then by categories, each in ascending order. */
  lemma BucketOrder(a: Bucket, b: Bucket)
    ensures a.source != b.source ==> (BucketLeq(a, b) <==> StrLeq(a.source, b.source))
    ensures a.source == b.source && a.scope != b.scope ==> (BucketLeq(a, b) <==> StrLeq(a.scope, b.scope))
    ensures a.source == b.source && a.scope == b.scope ==>
              (BucketLeq(a, b)
               <==> a.categories <= b.categories || exists i: nat :: Decides(a.categories, b.categories, i))
  {
    ListLeqExactly(a.categories, b.categories);
  }

  lemma BucketLeqIsTotalOrder()
    ensures TotalOrder(BucketLeq)
  {
    StrLeqIsTotalOrder();
    forall a ensures BucketLeq(a, a) { ListReflexive(a.categories); }
    forall a, b | BucketLeq(a, b) && BucketLeq(b, a) ensures a == b {
      if a.source == b.source && a.scope == b.scope { ListAntisymmetric(a.categories, b.categories); }
    }
    forall a, b, c | BucketLeq(a, b) && BucketLeq(b, c) ensures BucketLeq(a, c) {
      if a.source == b.source == c.source && a.scope == b.scope == c.scope {
        ListTransitive(a.categories, b.categories, c.categories);
      }
    }
    forall a, b ensures BucketLeq(a, b) || BucketLeq(b, a) { ListTotal(a.categories, b.categories); }
  }

  // --- buckets --------------------------------------------------------------------
  // The scheduler works for every way of assigning events to buckets.

  type Grouping = Event -> Bucket

  /** The events of one bucket, in their original order. */
  function Part(g: Grouping, events: seq<Event>, k: Bucket): seq<Event> {
    if events == [] then []
    else (if g(events[0]) == k then [events[0]] else []) + Part(g, events[1..], k)
  }

  lemma {:induction false} PartSnoc(g: Grouping, events: seq<Event>, e: Event, k: Bucket)
    ensures Part(g, events + [e], k) == Part(g, events, k) + if g(e) == k then [e] else []
  {
    if events == [] {
      assert events + [e] == [e];
    } else {
      assert (events + [e])[1..] == events[1..] + [e];
      PartSnoc(g, events[1..], e, k);
    }
  }

  lemma {:induction false} PartMembers(g: Grouping, events: seq<Event>, k: Bucket)
    ensures forall e :: e in Part(g, events, k) <==> e in events && g(e) == k
  {
    if events != [] { PartMembers(g, events[1..], k); }
  }

  lemma {:induction false} PartCounts(g: Grouping, s: seq<Event>, x: Event)
    ensures multiset(s)[x] == multiset(Part(g, s, g(x)))[x]
  {
    if s != [] {
      PartCounts(g, s[1..], x);
      var rest := Part(g, s[1..], g(x));
      assert s == [s[0]] + s[1..];
      if g(s[0]) == g(x) {
        assert multiset([s[0]] + rest) == multiset{s[0]} + multiset(rest);
      }
    }
  }

  type Buckets = map<Bucket, seq<Event>>

  ghost predicate Filled(g: Grouping, events: seq<Event>, buckets: Buckets, order: seq<Bucket>) {
    && (forall k :: k in buckets ==> buckets[k] != [] && buckets[k] == Part(g, events, k))
    && (forall k :: k !in buckets ==> Part(g, events, k) == [])
    && Distinct(order) && (forall k :: k in order <==> k in buckets)
  }

  /** Sorts all events into a dictionary of buckets. */
  method FillBuckets(g: Grouping, events: seq<Event>) returns (buckets: Buckets, order: seq<Bucket>)
    ensures Filled(g, events, buckets, order)
  {
    buckets, order := map[], [];
    for i := 0 to |events|
      invariant Filled(g, events[..i], buckets, order)
    {
      var e := events[i];
      var key := g(e);
      assert events[..i + 1] == events[..i] + [e];
      forall k { PartSnoc(g, events[..i], e, k); }
      if key !in buckets {
        order := order + [key];
      }
      buckets := buckets[key := (if key in buckets then buckets[key] else []) + [e]];
    }
    assert events[..|events|] == events;
  }

  // --- max-min fairness -------------------------------------------------------------

  function Kept(g: Grouping, retained: seq<Event>, k: Bucket): nat {
    |Part(g, retained, k)|
  }

  /** `b` is at most one event ahead of `a`, and only if its turn comes earlier. */
  ghost predicate NotFarAhead(g: Grouping, retained: seq<Event>, a: Bucket, b: Bucket) {
    && Kept(g, retained, b) <= Kept(g, retained, a) + 1
    && (Kept(g, retained, b) == Kept(g, retained, a) + 1 ==> BucketLeq(b, a) && a != b)
  }

  /** What the limit promises about the events it keeps: exactly as many as allowed, a prefix of
      every bucket, and no bucket loses an event while another one gets two turns more. */
  ghost predicate FairlyLimited(g: Grouping, events: seq<Event>, limit: nat, retained: seq<Event>) {
    && |retained| == (if |events| <= limit then |events| else limit)
    && (forall k :: Part(g, retained, k) <= Part(g, events, k))
    && (forall a, b :: Kept(g, retained, a) < Kept(g, events, a) ==> NotFarAhead(g, retained, a, b))
  }

  // --- the scheduler ------------------------------------------------------------------

  /** What is kept and what a bucket still holds make up the bucket. */
  ghost predicate Supplied(g: Grouping, events: seq<Event>, retained: seq<Event>, left: Buckets) {
    && (forall k :: k in left ==> Part(g, retained, k) + left[k] == Part(g, events, k))
    && (forall k :: k !in left ==> Part(g, retained, k) == [] && Part(g, events, k) == [])
  }

  /** The waiting buckets are exactly those that still hold something. */
  ghost predicate Waiting(left: Buckets, active: seq<Bucket>) {
    Distinct(active) && forall k :: k in active <==> k in left && left[k] != []
  }

  ghost predicate Scheduled(g: Grouping, events: seq<Event>, retained: seq<Event>, left: Buckets, active: seq<Bucket>) {
    Supplied(g, events, retained, left) && Waiting(left, active)
  }

  ghost predicate Waits(g: Grouping, retained: seq<Event>, a: Bucket, b: Bucket) {
    || Kept(g, retained, a) < Kept(g, retained, b)
    || (Kept(g, retained, a) == Kept(g, retained, b) && BucketLeq(a, b))
  }

  ghost predicate Rotation(g: Grouping, retained: seq<Event>, active: seq<Bucket>) {
    && (forall i, j :: 0 <= i < j < |active| ==> Waits(g, retained, active[i], active[j]))
    && (forall a, b :: a in active ==> NotFarAhead(g, retained, a, b))
  }

  /** The queue after the front bucket had its turn. */
  function Requeue(active: seq<Bucket>, more: bool): seq<Bucket>
    requires active != []
  {
    active[1..] + if more then [active[0]] else []
  }

  /** One turn of the front bucket keeps the rotation. */
  lemma TurnKeepsRotation(g: Grouping, retained: seq<Event>, e: Event, active: seq<Bucket>, more: bool)
    requires active != [] && Distinct(active) && g(e) == active[0]
    requires Rotation(g, retained, active)
    ensures Rotation(g, retained + [e], Requeue(active, more))
  {
    var key := active[0];
    var r := retained + [e];
    var q := Requeue(active, more);
    forall k ensures Kept(g, r, k) == Kept(g, retained, k) + if k == key then 1 else 0 {
      PartSnoc(g, retained, e, k);
    }
    assert forall k :: k in active[1..] ==> k in active && k != key;
    forall i, j | 0 <= i < j < |q| ensures Waits(g, r, q[i], q[j]) {
      assert q[i] == active[i + 1];
      if j < |active| - 1 {
        assert Waits(g, retained, active[i + 1], active[j + 1]);
      } else {
        assert NotFarAhead(g, retained, key, q[i]);
      }
    }
    forall a, b | a in q ensures NotFarAhead(g, r, a, b) {
      assert NotFarAhead(g, retained, a, b);
      if a != key {
        var i :| 0 < i < |active| && active[i] == a;
        assert Waits(g, retained, active[0], active[i]);
      }
    }
  }

  lemma RequeueMembers(active: seq<Bucket>, more: bool)
    requires active != [] && Distinct(active)
    ensures Distinct(Requeue(active, more))
    ensures forall k :: k in Requeue(active, more) <==> k in active && (k == active[0] ==> more)
  {
    var q := Requeue(active, more);
    assert active == [active[0]] + active[1..];
    assert active[0] !in active[1..];
  }

  lemma HeadOfQueue(g: Grouping, events: seq<Event>, retained: seq<Event>, key: Bucket, rest: seq<Event>)
    requires Part(g, retained, key) + rest == Part(g, events, key) && rest != []
    ensures g(rest[0]) == key
  {
    PartMembers(g, events, key);
    assert Part(g, events, key)[|Part(g, retained, key)|] == rest[0];
  }

  lemma TurnKeepsWaiting(left: Buckets, active: seq<Bucket>, rest: seq<Event>)
    requires Waiting(left, active) && active != []
    ensures Waiting(left[active[0] := rest], Requeue(active, rest != []))
  {
    assert active[0] in active;
    RequeueMembers(active, rest != []);
  }

  lemma TurnKeepsSupply(g: Grouping, events: seq<Event>, retained: seq<Event>, left: Buckets, key: Bucket)
    requires Supplied(g, events, retained, left) && key in left && left[key] != []
    ensures g(left[key][0]) == key
    ensures Supplied(g, events, retained + [left[key][0]], left[key := left[key][1..]])
  {
    var rest := left[key];
    var e := rest[0];
    HeadOfQueue(g, events, retained, key, rest);
    var left' := left[key := rest[1..]];
    forall k { PartSnoc(g, retained, e, k); }
    assert Part(g, retained + [e], key) + left'[key] == Part(g, events, key) by {
      assert rest == [e] + rest[1..];
      assert Part(g, retained, key) + rest == (Part(g, retained, key) + [e]) + rest[1..];
    }
    assert forall k :: k in left' && k != key ==> k in left && left'[k] == left[k];
  }

  lemma AllHandedOut(g: Grouping, events: seq<Event>, retained: seq<Event>, left: Buckets)
    requires Scheduled(g, events, retained, left, [])
    ensures |retained| == |events|
  {
    forall x ensures multiset(retained)[x] == multiset(events)[x] {
      PartCounts(g, retained, x);
      PartCounts(g, events, x);
      var k := g(x);
      if k in left { assert left[k] == []; }
      assert Part(g, retained, k) == Part(g, events, k);
    }
    assert multiset(retained) == multiset(events);
    assert |multiset(retained)| == |multiset(events)|;
  }

  /** What was kept came from the input, each event at most as often as it was there. */
  lemma KeptFromInput(g: Grouping, events: seq<Event>, retained: seq<Event>)
    requires forall k :: Part(g, retained, k) <= Part(g, events, k)
    ensures multiset(retained) <= multiset(events)
  {
    forall x ensures multiset(retained)[x] <= multiset(events)[x] {
      PartCounts(g, retained, x);
      PartCounts(g, events, x);
      PrefixCounts(Part(g, retained, g(x)), Part(g, events, g(x)), x);
    }
  }

  lemma PrefixCounts(a: seq<Event>, b: seq<Event>, x: Event)
    requires a <= b
    ensures multiset(a)[x] <= multiset(b)[x]
  {
    assert b == a + b[|a|..];
  }

  lemma ScheduleIsFair(g: Grouping, events: seq<Event>, limit: nat, retained: seq<Event>, left: Buckets,
                       active: seq<Bucket>)
    requires Scheduled(g, events, retained, left, active) && Rotation(g, retained, active)
    requires limit < |events| && |retained| == limit
    ensures FairlyLimited(g, events, limit, retained)
  {
    forall k ensures Part(g, retained, k) <= Part(g, events, k) {
      if k in left { assert Part(g, retained, k) + left[k] == Part(g, events, k); }
    }
    forall a, b | Kept(g, retained, a) < Kept(g, events, a) ensures NotFarAhead(g, retained, a, b) {
      assert a in left && left[a] != [];
      assert a in active;
    }
  }

  /** What holds before every turn. */
  ghost predicate Running(g: Grouping, events: seq<Event>, retained: seq<Event>, left: Buckets, active: seq<Bucket>) {
    Scheduled(g, events, retained, left, active) && Rotation(g, retained, active)
  }

  lemma Turn(g: Grouping, events: seq<Event>, retained: seq<Event>, left: Buckets, active: seq<Bucket>)
    requires Running(g, events, retained, left, active) && active != []
    ensures active[0] in left && left[active[0]] != []
    ensures var key := active[0];
            Running(g, events, retained + [left[key][0]], left[key := left[key][1..]],
                    Requeue(active, left[key][1..] != []))
  {
    var key := active[0];
    assert key in active;
    TurnKeepsSupply(g, events, retained, left, key);
    TurnKeepsWaiting(left, active, left[key][1..]);
    TurnKeepsRotation(g, retained, left[key][0], active, left[key][1..] != []);
  }

  lemma FirstTurn(g: Grouping, events: seq<Event>, left: Buckets, order: seq<Bucket>)
    requires Filled(g, events, left, order)
    ensures Running(g, events, [], left, SortBy(BucketLeq, order))
  {
    BucketLeqIsTotalOrder();
    SortBySorted(BucketLeq, order);
    PermutationDistinct(order, SortBy(BucketLeq, order));
    assert forall k :: Kept(g, [], k) == 0;
  }

  lemma RunEnds(g: Grouping, events: seq<Event>, limit: nat, retained: seq<Event>, left: Buckets, active: seq<Bucket>)
    requires Running(g, events, retained, left, active) && |retained| <= limit < |events|
    requires active == [] || |retained| == limit
    ensures FairlyLimited(g, events, limit, retained)
  {
    if active == [] { AllHandedOut(g, events, retained, left); }
    ScheduleIsFair(g, events, limit, retained, left, active);
  }

  /** The round-robin loop of `_fair_limit_events`. */
  method RoundRobin(g: Grouping, events: seq<Event>, limit: nat) returns (retained: seq<Event>)
    requires limit < |events|
    ensures FairlyLimited(g, events, limit, retained)
  {
    var left, order := FillBuckets(g, events);
    var active := SortBy(BucketLeq, order);
    FirstTurn(g, events, left, order);
    retained := [];
    while active != [] && |retained| < limit
      invariant |retained| <= limit
      invariant Running(g, events, retained, left, active)
      decreases limit - |retained|
    {
      Turn(g, events, retained, left, active);
      var key := active[0];
      retained := retained + [left[key][0]];
      left := left[key := left[key][1..]];
      active := active[1..] + if left[key] != [] then [key] else [];
    }
    RunEnds(g, events, limit, retained, left, active);
  }
}
