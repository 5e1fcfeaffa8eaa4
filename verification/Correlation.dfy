/** Scoped correlation episodes of normalize.py: a greedy two-pointer scan over sorted events. */
module Correlation {
  import opened Order
  import opened Seqs
  import opened Wrappers
  import opened Events
  import opened Places

  /** One correlation rule: an episode must hit every group of categories. */
  datatype Spec = Spec(id: string, groups: seq<set<string>>)

  /** A match: the candidates at positions lo..hi, both included. */
  datatype Window = Window(lo: nat, hi: nat)

  const MAX_EPISODE_EVENTS := 20

  function Relevant(groups: seq<set<string>>): set<string> {
    set g, c | g in groups && c in g :: c
  }

  predicate HasCategory(e: Event, c: string) {
    c in e.categories
  }

  // --- candidates -------------------------------------------------------------

  /** `_correlation_scope`: the probe rule is scoped to a pod, every other one to a node. */
  function Scope(e: Event, specId: string): Option<string> {
    if specId == "probe_network_failure" then
      if Present(e.namespace) && Present(e.pod) then Some("pod:" + e.namespace.value + "/" + e.pod.value) else None
    else if Present(e.node) then Some("node:" + e.node.value)
    else None
  }

  predicate IsCandidate(e: Event, spec: Spec, scope: string) {
    && e.epoch.Some? && !e.inferred
    && (exists c :: c in e.categories && c in Relevant(spec.groups))
    && Scope(e, spec.id) == Some(scope)
  }

  function CandidateOf(spec: Spec, scope: string): Event -> bool {
    (e: Event) => IsCandidate(e, spec, scope)
  }

  /** The eligible events of one scope. */
  function Scoped(events: seq<Event>, spec: Spec, scope: string): seq<Event> {
    Filter(CandidateOf(spec, scope), events)
  }

  /** The events one scan looks at, in (epoch, id) order. */
  function Candidates(events: seq<Event>, spec: Spec, scope: string): seq<Event> {
    SortBy(EventLeq, Scoped(events, spec, scope))
  }

  /** The candidates are exactly the eligible events of the scope, in ascending order. */
  lemma CandidatesSorted(events: seq<Event>, spec: Spec, scope: string)
    ensures var c := Candidates(events, spec, scope);
            && Sorted(EventLeq, c)
            && (forall e :: e in c <==> e in events && IsCandidate(e, spec, scope))
            && (DistinctIds(events) ==> DistinctIds(c))
  {
    var p := CandidateOf(spec, scope);
    var kept := Filter(p, events);
    EventLeqIsPreorder();
    SortBySorted(EventLeq, kept);
    PermutationDistinct(kept, SortBy(EventLeq, kept));
    if DistinctIds(events) {
      FilterDistinctIds(p, events);
      DistinctIdsPermutation(kept, SortBy(EventLeq, kept));
    }
  }

  // --- valid windows ------------------------------------------------------------

  ghost predicate SortedByTime(c: seq<Event>) {
    forall i, j :: 0 <= i < j < |c| ==> Epoch(c[i]) <= Epoch(c[j])
  }

  ghost predicate Hits(c: seq<Event>, g: set<string>, lo: nat, hi: nat) {
    exists i, cat :: lo <= i <= hi && i < |c| && cat in g && HasCategory(c[i], cat)
  }

  ghost predicate HitsAll(c: seq<Event>, groups: seq<set<string>>, lo: nat, hi: nat) {
    forall g :: g in groups ==> Hits(c, g, lo, hi)
  }

  /** At least two candidates, close enough in time, that together hit every group. */
  ghost predicate Valid(c: seq<Event>, groups: seq<set<string>>, span: real, w: Window) {
    && w.lo < w.hi < |c|
    && Epoch(c[w.hi]) - Epoch(c[w.lo]) <= span
    && HitsAll(c, groups, w.lo, w.hi)
  }

  ghost predicate NoneEndingBefore(c: seq<Event>, groups: seq<set<string>>, span: real, from: nat, end: nat) {
    forall w: Window :: from <= w.lo && w.hi < end ==> !Valid(c, groups, span, w)
  }

  /** The candidates in front of `left` are too old for a window that ends at `right`. */
  ghost predicate TooEarly(c: seq<Event>, span: real, from: nat, left: nat, right: nat) {
    right < |c| && forall l :: from <= l < left && l < |c| ==> Epoch(c[right]) - Epoch(c[l]) > span
  }

  /** `w` is the match that ends first among all valid windows from position `from` on, and it
      reaches back as far as the time span allows. */
  ghost predicate First(c: seq<Event>, groups: seq<set<string>>, span: real, from: nat, w: Window) {
    && from <= w.lo
    && Valid(c, groups, span, w)
    && NoneEndingBefore(c, groups, span, from, w.hi)
    && TooEarly(c, span, from, w.lo, w.hi)
  }

  function Resume(matches: seq<Window>, i: nat): nat
    requires i <= |matches|
  {
    if i == 0 then 0 else matches[i - 1].hi + 1
  }

  ghost predicate FirstAt(c: seq<Event>, groups: seq<set<string>>, span: real, matches: seq<Window>, i: nat) {
    i < |matches| && First(c, groups, span, Resume(matches, i), matches[i])
  }

  /** The scan restarts right behind each match and stops when nothing is left to find. */
  ghost predicate Greedy(c: seq<Event>, groups: seq<set<string>>, span: real, matches: seq<Window>) {
    && (forall i :: 0 <= i < |matches| ==> FirstAt(c, groups, span, matches, i))
    && NoneEndingBefore(c, groups, span, Resume(matches, |matches|), |c|)
  }

  // --- the incremental counter ------------------------------------------------------

  /** How many of the candidates lo..hi-1 carry a category: what the Counter must hold. */
  function Recount(c: seq<Event>, lo: nat, hi: nat, cat: string): nat
    requires lo <= hi <= |c|
  {
    if lo == hi then 0 else Recount(c, lo, hi - 1, cat) + if HasCategory(c[hi - 1], cat) then 1 else 0
  }

  lemma {:induction false} RecountDropFirst(c: seq<Event>, lo: nat, hi: nat, cat: string)
    requires lo < hi <= |c|
    ensures Recount(c, lo, hi, cat) == Recount(c, lo + 1, hi, cat) + if HasCategory(c[lo], cat) then 1 else 0
  {
    if lo + 1 < hi { RecountDropFirst(c, lo, hi - 1, cat); }
  }

  lemma {:induction false} RecountPositive(c: seq<Event>, lo: nat, hi: nat, cat: string)
    requires lo <= hi <= |c|
    ensures Recount(c, lo, hi, cat) > 0 <==> exists i :: lo <= i < hi && HasCategory(c[i], cat)
  {
    if lo < hi { RecountPositive(c, lo, hi - 1, cat); }
  }

  type Counter = map<string, int>

  ghost predicate CounterIs(counts: Counter, relevant: set<string>, c: seq<Event>, lo: nat, hi: nat)
    requires lo <= hi <= |c|
  {
    counts.Keys == relevant && forall cat :: cat in relevant ==> counts[cat] == Recount(c, lo, hi, cat)
  }

  function CountUp(counts: Counter, e: Event, delta: int): Counter {
    map cat | cat in counts :: counts[cat] + if HasCategory(e, cat) then delta else 0
  }

  /** The test of the code on the counter. */
  predicate Covered(counts: Counter, groups: seq<set<string>>) {
    forall g :: g in groups ==> exists cat :: cat in g && cat in counts && counts[cat] > 0
  }

  lemma CoveredIsHitsAll(counts: Counter, groups: seq<set<string>>, c: seq<Event>, lo: nat, hi: nat)
    requires lo <= hi < |c| && CounterIs(counts, Relevant(groups), c, lo, hi + 1)
    ensures Covered(counts, groups) <==> HitsAll(c, groups, lo, hi)
  {
    forall g | g in groups
      ensures (exists cat :: cat in g && cat in counts && counts[cat] > 0) <==> Hits(c, g, lo, hi)
    {
      forall cat | cat in g
        ensures cat in counts && (counts[cat] > 0 <==> exists i :: lo <= i < hi + 1 && HasCategory(c[i], cat))
      {
        assert cat in Relevant(groups);
        RecountPositive(c, lo, hi + 1, cat);
      }
    }
  }

  // --- the scan -----------------------------------------------------------------------

  lemma NoneEndingAt(c: seq<Event>, groups: seq<set<string>>, span: real, from: nat, left: nat, right: nat)
    requires from <= left <= right < |c| && TooEarly(c, span, from, left, right)
    requires NoneEndingBefore(c, groups, span, from, right)
    requires !(left < right && HitsAll(c, groups, left, right))
    ensures NoneEndingBefore(c, groups, span, from, right + 1)
  {
    forall w: Window | from <= w.lo && w.hi < right + 1 ensures !Valid(c, groups, span, w) {
      if w.hi == right && left <= w.lo < right {
        var g :| g in groups && !Hits(c, g, left, right);
        assert !Hits(c, g, w.lo, right);
      }
    }
  }

  /** One restart of the scan: the inner loop of `correlate_events` from position `start`. */
  method FindMatch(c: seq<Event>, groups: seq<set<string>>, span: real, start: nat)
    returns (found: bool, w: Window)
    requires SortedByTime(c) && 0.0 <= span && start < |c|
    ensures found ==> First(c, groups, span, start, w)
    ensures !found ==> NoneEndingBefore(c, groups, span, start, |c|)
  {
    var relevant := Relevant(groups);
    var counts: Counter := map cat | cat in relevant :: 0;
    var left := start;
    var right := start;
    while right < |c|
      invariant start <= left <= right <= |c|
      invariant CounterIs(counts, relevant, c, left, right)
      invariant right < |c| ==> TooEarly(c, span, start, left, right)
      invariant NoneEndingBefore(c, groups, span, start, right)
    {
      counts := CountUp(counts, c[right], 1);
      while Epoch(c[right]) - Epoch(c[left]) > span
        invariant start <= left <= right
        invariant CounterIs(counts, relevant, c, left, right + 1)
        invariant TooEarly(c, span, start, left, right)
        decreases right - left
      {
        forall cat | cat in relevant { RecountDropFirst(c, left, right + 1, cat); }
        counts := CountUp(counts, c[left], -1);
        left := left + 1;
      }
      CoveredIsHitsAll(counts, groups, c, left, right);
      if left < right && Covered(counts, groups) {
        return true, Window(left, right);
      }
      NoneEndingAt(c, groups, span, start, left, right);
      right := right + 1;
    }
    return false, Window(0, 0);
  }

  /** The scan of one rule and scope: all matches, left to right. */
  method Scan(c: seq<Event>, groups: seq<set<string>>, span: real) returns (matches: seq<Window>)
    requires SortedByTime(c) && 0.0 <= span
    ensures Greedy(c, groups, span, matches)
  {
    matches := [];
    var start := 0;
    while start < |c|
      invariant start == Resume(matches, |matches|) <= |c|
      invariant forall i :: 0 <= i < |matches| ==> FirstAt(c, groups, span, matches, i)
    {
      var found, w := FindMatch(c, groups, span, start);
      if !found { return; }
      ghost var before := matches;
      matches := matches + [w];
      forall i | 0 <= i < |matches| ensures FirstAt(c, groups, span, matches, i) {
        assert Resume(matches, i) == Resume(before, i);
        assert i < |before| ==> FirstAt(c, groups, span, before, i);
      }
      start := w.hi + 1;
    }
  }

  // --- what the greedy scan achieves ----------------------------------------------------

  lemma FirstUnique(c: seq<Event>, groups: seq<set<string>>, span: real, from: nat, v: Window, w: Window)
    requires First(c, groups, span, from, v) && First(c, groups, span, from, w)
    ensures v == w
  {
    assert v.hi == w.hi;
  }

  /** There is another match exactly as long as there is another valid window. */
  lemma GoesOnExactly(c: seq<Event>, groups: seq<set<string>>, span: real, matches: seq<Window>, i: nat)
    requires Greedy(c, groups, span, matches) && i <= |matches|
    ensures i < |matches| <==> !NoneEndingBefore(c, groups, span, Resume(matches, i), |c|)
  {
    if i < |matches| {
      assert FirstAt(c, groups, span, matches, i);
      assert matches[i].hi < |c|;
    }
  }

  /** The matches are determined by the candidates. */
  lemma {:induction false} GreedyUnique(c: seq<Event>, groups: seq<set<string>>, span: real,
                                        a: seq<Window>, b: seq<Window>)
    requires Greedy(c, groups, span, a) && Greedy(c, groups, span, b)
    ensures a == b
  {
    var i := 0;
    while i < |a| && i < |b|
      invariant i <= |a| && i <= |b| && a[..i] == b[..i]
    {
      assert Resume(a, i) == Resume(b, i) by { assert i > 0 ==> a[..i][i - 1] == b[..i][i - 1]; }
      assert FirstAt(c, groups, span, a, i) && FirstAt(c, groups, span, b, i);
      FirstUnique(c, groups, span, Resume(a, i), a[i], b[i]);
      i := i + 1;
    }
    assert Resume(a, i) == Resume(b, i) by { assert i > 0 ==> a[..i][i - 1] == b[..i][i - 1]; }
    GoesOnExactly(c, groups, span, a, i);
    GoesOnExactly(c, groups, span, b, i);
  }

  ghost predicate Disjoint(v: Window, w: Window) {
    v.hi < w.lo || w.hi < v.lo
  }

  /** The matches are valid windows and follow each other without overlap. */
  lemma {:induction false} MatchesDisjoint(c: seq<Event>, groups: seq<set<string>>, span: real, matches: seq<Window>,
                                           i: nat, j: nat)
    requires Greedy(c, groups, span, matches) && i < j < |matches|
    ensures Valid(c, groups, span, matches[i]) && Valid(c, groups, span, matches[j])
    ensures matches[i].hi < matches[j].lo && Disjoint(matches[i], matches[j])
  {
    assert FirstAt(c, groups, span, matches, i) && FirstAt(c, groups, span, matches, j);
    if i + 1 < j {
      MatchesDisjoint(c, groups, span, matches, i, j - 1);
    }
  }

  /** The ends of the matches pierce every valid window. */
  lemma {:induction false} EveryWindowIsPierced(c: seq<Event>, groups: seq<set<string>>, span: real,
                                                matches: seq<Window>, w: Window, i: nat)
    returns (k: nat)
    requires Greedy(c, groups, span, matches) && Valid(c, groups, span, w)
    requires i <= |matches| && Resume(matches, i) <= w.lo
    ensures i <= k < |matches| && w.lo <= matches[k].hi <= w.hi
    decreases |matches| - i
  {
    if i == |matches| {
      assert false;
    } else {
      assert FirstAt(c, groups, span, matches, i);
      assert matches[i].hi <= w.hi;
      if w.lo <= matches[i].hi {
        k := i;
      } else {
        k := EveryWindowIsPierced(c, groups, span, matches, w, i + 1);
      }
    }
  }

  lemma Pigeonhole(f: seq<nat>, n: nat)
    requires Distinct(f) && forall i :: 0 <= i < |f| ==> f[i] < n
    ensures |f| <= n
    decreases n
  {
    assert f != [] ==> f[0] < n;
    if n > 0 && n - 1 in f {
      var i :| 0 <= i < |f| && f[i] == n - 1;
      var rest := f[..i] + f[i + 1..];
      Pigeonhole(rest, n - 1);
    } else if n > 0 {
      assert forall i :: 0 <= i < |f| ==> f[i] in f && f[i] != n - 1;
      Pigeonhole(f, n - 1);
    }
  }

  /** The scan finds as many episodes as possible: no family of disjoint valid windows is larger. */
  lemma GreedyIsOptimal(c: seq<Event>, groups: seq<set<string>>, span: real, matches: seq<Window>, family: seq<Window>)
    requires Greedy(c, groups, span, matches)
    requires forall i :: 0 <= i < |family| ==> Valid(c, groups, span, family[i])
    requires forall i, j :: 0 <= i < j < |family| ==> Disjoint(family[i], family[j])
    ensures |family| <= |matches|
  {
    var f: seq<nat> := [];
    while |f| < |family|
      invariant |f| <= |family|
      invariant forall i :: 0 <= i < |f| ==> f[i] < |matches| && family[i].lo <= matches[f[i]].hi <= family[i].hi
    {
      var k := EveryWindowIsPierced(c, groups, span, matches, family[|f|], 0);
      f := f + [k];
    }
    forall i, j | 0 <= i < j < |f| ensures f[i] != f[j] {
      assert Disjoint(family[i], family[j]);
    }
    Pigeonhole(f, |matches|);
  }

  // --- the published episode ----------------------------------------------------------------

  /** `_episode`: the events that hit a group, once per id, sorted, and cut to the first twenty. */
  function Selected(m: seq<Event>, groups: seq<set<string>>): seq<Event> {
    if groups == [] then []
    else Filter((e: Event) => exists c :: c in e.categories && c in groups[0], m) + Selected(m, groups[1..])
  }

  function ById(selected: seq<Event>): map<string, Event> {
    if selected == [] then map[]
    else
      var last := selected[|selected| - 1];
      ById(selected[..|selected| - 1])[last.id := last]
  }

  ghost function Ordered(m: seq<Event>, groups: seq<set<string>>): seq<Event> {
    EventLeqIsPreorder();
    SortedSet(EventLeq, ById(Selected(m, groups)).Values)
  }

  ghost function EpisodeEvents(m: seq<Event>, groups: seq<set<string>>): Option<seq<Event>> {
    if |ById(Selected(m, groups))| < 2 then None
    else
      var ordered := Ordered(m, groups);
      Some(FirstTwenty(ordered))
  }

  lemma {:induction false} SelectedElements(m: seq<Event>, groups: seq<set<string>>)
    ensures forall e :: e in Selected(m, groups) <==> e in m && exists c :: c in e.categories && c in Relevant(groups)
  {
    if groups != [] {
      SelectedElements(m, groups[1..]);
      forall e: Event ensures (exists c :: c in e.categories && c in Relevant(groups))
                  <==> (exists c :: c in e.categories && c in groups[0])
                       || (exists c :: c in e.categories && c in Relevant(groups[1..]))
      {
        forall c ensures c in Relevant(groups) <==> c in groups[0] || c in Relevant(groups[1..]) {
          if c in Relevant(groups) {
            var g :| g in groups && c in g;
            assert g == groups[0] || g in groups[1..];
          }
          if c in groups[0] { assert groups[0] in groups; }
        }
      }
    }
  }

  lemma {:induction false} ByIdElements(selected: seq<Event>)
    requires IdsIdentify(selected)
    ensures ById(selected).Values == set e | e in selected
    ensures forall k :: k in ById(selected) ==> ById(selected)[k] in selected && ById(selected)[k].id == k
  {
    if selected != [] {
      var front, last := selected[..|selected| - 1], selected[|selected| - 1];
      ByIdElements(front);
      var m, m' := ById(front), ById(selected);
      forall e ensures e in m'.Values <==> e in selected {
        if e in m'.Values {
          var k :| k in m' && m'[k] == e;
          assert k == last.id || e in front;
        }
        if e in selected {
          assert e == last || e in front;
          if e == last { assert m'[last.id] == e; }
          else {
            assert e in m.Values;
            var k :| k in m && m[k] == e;
            assert k == e.id && m'[k] == e;
          }
        }
      }
    }
  }

  lemma TwoIds(m: seq<Event>, byId: map<string, Event>)
    requires DistinctIds(m) && |m| >= 2 && byId.Values == set e | e in m
    requires forall k :: k in byId ==> byId[k].id == k
    ensures |byId| >= 2
  {
    assert m[0] in byId.Values && m[1] in byId.Values;
    var a :| a in byId && byId[a] == m[0];
    var b :| b in byId && byId[b] == m[1];
    assert {a, b} <= byId.Keys && a != b;
    var rest := byId.Keys - {a, b};
    assert byId.Keys == {a, b} + rest;
  }

  lemma SelectsAll(m: seq<Event>, groups: seq<set<string>>)
    requires DistinctIds(m) && |m| >= 2
    requires forall e :: e in m ==> exists c :: c in e.categories && c in Relevant(groups)
    ensures ById(Selected(m, groups)).Values == set e | e in m
    ensures |ById(Selected(m, groups))| >= 2
  {
    SelectedElements(m, groups);
    DistinctIdsIdentify(m);
    ByIdElements(Selected(m, groups));
    TwoIds(m, ById(Selected(m, groups)));
  }

  lemma SortsBack(m: seq<Event>)
    requires DistinctIds(m) && Sorted(EventLeq, m) && Preorder(EventLeq)
    ensures SortedSet(EventLeq, set e | e in m) == m
  {
    var ordered := SortedSet(EventLeq, set e | e in m);
    DistinctIdsIdentify(m);
    forall x, y | x in ordered && y in ordered && EventLeq(x, y) && EventLeq(y, x) ensures x == y {
      EventLeqTies(x, y);
    }
    SortedUnique(EventLeq, ordered, m);
  }

  lemma EpisodeOfSortedMatch(m: seq<Event>, groups: seq<set<string>>)
    requires DistinctIds(m) && |m| >= 2 && Sorted(EventLeq, m)
    requires forall e :: e in m ==> exists c :: c in e.categories && c in Relevant(groups)
    ensures EpisodeEvents(m, groups) == Some(FirstTwenty(m))
  {
    EventLeqIsPreorder();
    SelectsAll(m, groups);
    SortsBack(m);
    assert Ordered(m, groups) == m;
  }

  /** For a match of the scan, the published episode is never suppressed and lists exactly the
      first twenty events of the match. */
  lemma EpisodeIsPrefix(events: seq<Event>, spec: Spec, scope: string, w: Window)
    requires DistinctIds(events)
    requires w.lo < w.hi < |Candidates(events, spec, scope)|
    ensures var m := Candidates(events, spec, scope)[w.lo..w.hi + 1];
            EpisodeEvents(m, spec.groups) == Some(FirstTwenty(m))
  {
    var c := Candidates(events, spec, scope);
    var m := c[w.lo..w.hi + 1];
    CandidatesSorted(events, spec, scope);
    assert forall i :: 0 <= i < |m| ==> m[i] == c[w.lo + i];
    forall e | e in m ensures exists cat :: cat in e.categories && cat in Relevant(spec.groups) {
      assert e in c && IsCandidate(e, spec, scope);
    }
    EpisodeOfSortedMatch(m, spec.groups);
  }

  lemma {:induction false} ByIdKeys(selected: seq<Event>)
    ensures forall k :: k in ById(selected) ==> ById(selected)[k].id == k
  {
    if selected != [] { ByIdKeys(selected[..|selected| - 1]); }
  }

  /** `order` and `values` are the insertion-ordered keys and values of the dictionary `byId`. */
  ghost predicate Lists(byId: map<string, Event>, order: seq<string>, values: seq<Event>) {
    && Distinct(order) && |values| == |order|
    && (forall k :: k in order <==> k in byId)
    && (forall i :: 0 <= i < |order| ==> order[i] in byId && values[i] == byId[order[i]])
  }

  lemma ListedValues(byId: map<string, Event>, order: seq<string>, values: seq<Event>)
    requires Lists(byId, order, values) && forall k :: k in byId ==> byId[k].id == k
    ensures forall e :: e in values <==> e in byId.Values
    ensures DistinctIds(values) && |values| == |byId|
  {
    forall e | e in byId.Values ensures e in values {
      var k :| k in byId && byId[k] == e;
      var i :| 0 <= i < |order| && order[i] == k;
      assert values[i] == e;
    }
    forall e | e in values ensures e in byId.Values {
      var i :| 0 <= i < |values| && values[i] == e;
      assert order[i] in byId;
    }
    SetOfDistinct(order);
    assert (set k | k in order) == byId.Keys;
  }

  lemma SortedValues(byId: map<string, Event>, values: seq<Event>)
    requires Preorder(EventLeq) && DistinctIds(values) && forall e :: e in values <==> e in byId.Values
    ensures SortBy(EventLeq, values) == SortedSet(EventLeq, byId.Values)
  {
    var a := SortBy(EventLeq, values);
    SortBySorted(EventLeq, values);
    PermutationDistinct(values, a);
    DistinctIdsPermutation(values, a);
    SortsBack(a);
    assert (set e | e in a) == byId.Values;
  }

  lemma {:induction false} SetOfDistinct(order: seq<string>)
    requires Distinct(order)
    ensures |set k | k in order| == |order|
  {
    if order != [] {
      var front, last := order[..|order| - 1], order[|order| - 1];
      SetOfDistinct(front);
      assert order == front + [last];
      assert (set k | k in order) == (set k | k in front) + {last};
      assert last !in front;
    }
  }

  /** The selected events once per id: an id keeps its first place and its last event. */
  method UniqueById(selected: seq<Event>) returns (values: seq<Event>)
    ensures DistinctIds(values) && |values| == |ById(selected)|
    ensures forall e :: e in values <==> e in ById(selected).Values
  {
    var unique: map<string, Event> := map[];
    var order: seq<string> := [];
    for i := 0 to |selected|
      invariant unique == ById(selected[..i])
      invariant Distinct(order) && forall k :: k in order <==> k in unique
    {
      assert selected[..i + 1][..i] == selected[..i];
      var e := selected[i];
      if e.id !in unique {
        order := order + [e.id];
      }
      unique := unique[e.id := e];
    }
    assert selected[..|selected|] == selected;
    values := seq(|order|, i requires 0 <= i < |order| && order[i] in unique => unique[order[i]]);
    ByIdKeys(selected);
    ListedValues(unique, order, values);
  }

  function FirstTwenty(m: seq<Event>): seq<Event> {
    if |m| <= MAX_EPISODE_EVENTS then m else m[..MAX_EPISODE_EVENTS]
  }

  /** `_episode`, as far as its event list goes. */
  method Episode(m: seq<Event>, groups: seq<set<string>>) returns (r: Option<seq<Event>>)
    ensures r == EpisodeEvents(m, groups)
  {
    var values := UniqueById(Selected(m, groups));
    if |values| < 2 { return None; }
    EventLeqIsPreorder();
    SortedValues(ById(Selected(m, groups)), values);
    return Some(FirstTwenty(SortBy(EventLeq, values)));
  }

  /** What an episode lists for a match. */
  ghost predicate Documents(c: seq<Event>, w: Window, episode: seq<Event>) {
    w.lo < w.hi < |c| && episode == FirstTwenty(c[w.lo..w.hi + 1])
  }

  /** One episode for each match, in order. */
  ghost predicate DocumentsAll(c: seq<Event>, matches: seq<Window>, episodes: seq<seq<Event>>) {
    |episodes| == |matches| && forall i :: 0 <= i < |matches| ==> Documents(c, matches[i], episodes[i])
  }

  /** The record of one match. */
  method Record(events: seq<Event>, spec: Spec, scope: string, c: seq<Event>, w: Window) returns (episode: seq<Event>)
    requires DistinctIds(events) && c == Candidates(events, spec, scope)
    requires w.lo < w.hi < |c|
    ensures Documents(c, w, episode)
  {
    EpisodeIsPrefix(events, spec, scope, w);
    var found := Episode(c[w.lo..w.hi + 1], spec.groups);
    episode := found.value;
  }

  /** The records of all matches. */
  method RecordAll(events: seq<Event>, spec: Spec, scope: string, c: seq<Event>, found: seq<Window>)
    returns (episodes: seq<seq<Event>>)
    requires DistinctIds(events) && c == Candidates(events, spec, scope)
    requires forall i :: 0 <= i < |found| ==> found[i].lo < found[i].hi < |c|
    ensures DocumentsAll(c, found, episodes)
  {
    episodes := [];
    for i := 0 to |found|
      invariant |episodes| == i
      invariant forall j :: 0 <= j < i ==> Documents(c, found[j], episodes[j])
    {
      var episode := Record(events, spec, scope, c, found[i]);
      episodes := episodes + [episode];
    }
  }

  /** The scan of one rule and one scope: the greedy matches, and one episode for each. */
  method CorrelateScope(events: seq<Event>, spec: Spec, scope: string, c: seq<Event>, span: real)
    returns (episodes: seq<seq<Event>>)
    requires DistinctIds(events) && 0.0 <= span && c == Candidates(events, spec, scope)
    ensures exists matches :: Greedy(c, spec.groups, span, matches) && DocumentsAll(c, matches, episodes)
  {
    CandidatesTimed(events, spec, scope);
    var found := Scan(c, spec.groups, span);
    MatchPlaces(c, spec.groups, span, found);
    episodes := RecordAll(events, spec, scope, c, found);
  }

  lemma CandidatesTimed(events: seq<Event>, spec: Spec, scope: string)
    ensures SortedByTime(Candidates(events, spec, scope))
    ensures forall e :: e in Candidates(events, spec, scope) ==> e in events && IsCandidate(e, spec, scope)
  {
    var c := Candidates(events, spec, scope);
    CandidatesSorted(events, spec, scope);
    forall i, j | 0 <= i < j < |c| ensures Epoch(c[i]) <= Epoch(c[j]) {
      assert EventLeq(c[i], c[j]);
    }
  }

  lemma MatchPlaces(c: seq<Event>, groups: seq<set<string>>, span: real, matches: seq<Window>)
    requires Greedy(c, groups, span, matches)
    ensures forall i :: 0 <= i < |matches| ==> matches[i].lo < matches[i].hi < |c|
  {
    forall i | 0 <= i < |matches| ensures matches[i].lo < matches[i].hi < |c| {
      assert FirstAt(c, groups, span, matches, i);
    }
  }

  // --- all rules and all scopes -------------------------------------------------------------------

  /** A published correlation: the rule, the scope, and the events of the episode. */
  datatype Correlation = Correlation(specId: string, scope: string, events: seq<Event>)

  ghost predicate IsMatch(c: seq<Event>, groups: seq<set<string>>, span: real, w: Window) {
    exists matches :: Greedy(c, groups, span, matches) && w in matches
  }

  /** The correlation documents a greedy match of this rule in its own scope. */
  ghost predicate IsEpisode(events: seq<Event>, spec: Spec, span: real, r: Correlation) {
    var c := Candidates(events, spec, r.scope);
    r.specId == spec.id && exists w :: IsMatch(c, spec.groups, span, w) && Documents(c, w, r.events)
  }

  lemma ScopedNext(events: seq<Event>, spec: Spec, scope: string, i: nat)
    requires i < |events|
    ensures Scoped(events[..i + 1], spec, scope)
         == Scoped(events[..i], spec, scope) + if IsCandidate(events[i], spec, scope) then [events[i]] else []
  {
    FilterAppend(CandidateOf(spec, scope), events[..i], [events[i]]);
    assert events[..i + 1] == events[..i] + [events[i]];
  }

  type Scopes = map<string, seq<Event>>

  function At(scopes: Scopes, scope: string): seq<Event> {
    if scope in scopes then scopes[scope] else []
  }

  ghost predicate Grouped(events: seq<Event>, spec: Spec, scopes: Scopes) {
    forall s :: At(scopes, s) == Scoped(events, spec, s)
  }

  lemma GroupedNext(events: seq<Event>, spec: Spec, scopes: Scopes, i: nat, next: Scopes)
    requires i < |events| && Grouped(events[..i], spec, scopes)
    requires forall s :: At(next, s) == At(scopes, s) + if IsCandidate(events[i], spec, s) then [events[i]] else []
    ensures Grouped(events[..i + 1], spec, next)
  {
    forall s ensures At(next, s) == Scoped(events[..i + 1], spec, s) {
      ScopedNext(events, spec, s, i);
    }
  }

  /** Sorts the eligible events into a dictionary of scopes. */
  method GroupByScope(events: seq<Event>, spec: Spec) returns (scopes: Scopes)
    ensures Grouped(events, spec, scopes)
  {
    scopes := map[];
    for i := 0 to |events|
      invariant Grouped(events[..i], spec, scopes)
    {
      var e := events[i];
      var scope: Option<string> := None;
      if spec.id == "probe_network_failure" {
        if Present(e.namespace) && Present(e.pod) {
          scope := Some("pod:" + e.namespace.value + "/" + e.pod.value);
        }
      } else if Present(e.node) {
        scope := Some("node:" + e.node.value);
      }
      var next := scopes;
      if e.epoch.Some? && !e.inferred && (exists c :: c in e.categories && c in Relevant(spec.groups)) && scope.Some? {
        next := scopes[scope.value := At(scopes, scope.value) + [e]];
      }
      GroupedNext(events, spec, scopes, i, next);
      scopes := next;
    }
    assert events[..|events|] == events;
  }

  /** An episode of this rule and scope is one of these. */
  lemma EpisodesOfScope(events: seq<Event>, spec: Spec, scope: string, span: real,
                        matches: seq<Window>, episodes: seq<seq<Event>>)
    requires Greedy(Candidates(events, spec, scope), spec.groups, span, matches)
    requires DocumentsAll(Candidates(events, spec, scope), matches, episodes)
    ensures forall ev :: ev in episodes <==> IsEpisode(events, spec, span, Correlation(spec.id, scope, ev))
  {
    var c := Candidates(events, spec, scope);
    forall ev ensures ev in episodes <==> IsEpisode(events, spec, span, Correlation(spec.id, scope, ev)) {
      if ev in episodes {
        var i :| 0 <= i < |episodes| && episodes[i] == ev;
        assert IsMatch(c, spec.groups, span, matches[i]) && Documents(c, matches[i], ev);
      }
      if IsEpisode(events, spec, span, Correlation(spec.id, scope, ev)) {
        var w :| IsMatch(c, spec.groups, span, w) && Documents(c, w, ev);
        var others :| Greedy(c, spec.groups, span, others) && w in others;
        GreedyUnique(c, spec.groups, span, matches, others);
        var i :| 0 <= i < |matches| && matches[i] == w;
        assert episodes[i] == ev;
      }
    }
  }

  lemma NoCandidatesNoEpisode(events: seq<Event>, spec: Spec, span: real, r: Correlation)
    requires Scoped(events, spec, r.scope) == []
    ensures !IsEpisode(events, spec, span, r)
  {
  }

  /** The episodes of one scope start with different candidates. */
  lemma EpisodesDistinct(c: seq<Event>, groups: seq<set<string>>, span: real, matches: seq<Window>,
                         episodes: seq<seq<Event>>)
    requires DistinctIds(c) && Greedy(c, groups, span, matches) && DocumentsAll(c, matches, episodes)
    ensures Distinct(episodes)
  {
    forall i, j | 0 <= i < j < |episodes| ensures episodes[i] != episodes[j] {
      MatchesDisjoint(c, groups, span, matches, i, j);
      assert Documents(c, matches[i], episodes[i]) && Documents(c, matches[j], episodes[j]);
      assert episodes[i][0] == c[matches[i].lo] && episodes[j][0] == c[matches[j].lo];
    }
  }

  function Labelled(spec: Spec, scope: string): seq<Event> -> Correlation {
    (ev: seq<Event>) => Correlation(spec.id, scope, ev)
  }

  /** The correlations of one scope. */
  ghost predicate InScope(events: seq<Event>, spec: Spec, span: real, scope: string, r: Correlation) {
    r.scope == scope && IsEpisode(events, spec, span, r)
  }

  method LabelEpisodes(events: seq<Event>, spec: Spec, scope: string, c: seq<Event>, span: real)
    returns (list: seq<Correlation>)
    requires DistinctIds(events) && 0.0 <= span && c == Candidates(events, spec, scope)
    ensures forall r :: r in list <==> InScope(events, spec, span, scope, r)
    ensures Distinct(list)
  {
    var episodes := CorrelateScope(events, spec, scope, c, span);
    ghost var matches :| Greedy(c, spec.groups, span, matches) && DocumentsAll(c, matches, episodes);
    EpisodesOfScope(events, spec, scope, span, matches, episodes);
    CandidatesSorted(events, spec, scope);
    EpisodesDistinct(c, spec.groups, span, matches, episodes);
    list := Map(Labelled(spec, scope), episodes);
    LabelsMeaning(events, spec, scope, span, episodes);
  }

  lemma LabelsMeaning(events: seq<Event>, spec: Spec, scope: string, span: real, episodes: seq<seq<Event>>)
    requires forall ev :: ev in episodes <==> IsEpisode(events, spec, span, Correlation(spec.id, scope, ev))
    ensures forall r :: r in Map(Labelled(spec, scope), episodes) <==> InScope(events, spec, span, scope, r)
  {
    var list := Map(Labelled(spec, scope), episodes);
    forall r ensures r in list <==> InScope(events, spec, span, scope, r) {
      if r in list {
        var i :| 0 <= i < |list| && list[i] == r;
        assert episodes[i] in episodes;
      }
      if InScope(events, spec, span, scope, r) {
        assert r == Correlation(spec.id, scope, r.events) && r.events in episodes;
        var i :| 0 <= i < |episodes| && episodes[i] == r.events;
        assert list[i] == r;
      }
    }
  }

  /** The correlations of the scopes of a list. */
  ghost predicate InScopes(events: seq<Event>, spec: Spec, span: real, order: seq<string>, r: Correlation) {
    r.scope in order && IsEpisode(events, spec, span, r)
  }

  /** The next scope adds its correlations, and they are new. */
  lemma ScopeRound(events: seq<Event>, spec: Spec, span: real, order: seq<string>, i: nat,
                   list: seq<Correlation>, found: seq<Correlation>)
    requires i < |order| && Distinct(order) && Distinct(list) && Distinct(found)
    requires forall r :: r in list <==> InScopes(events, spec, span, order[..i], r)
    requires forall r :: r in found <==> InScope(events, spec, span, order[i], r)
    ensures Distinct(list + found)
    ensures forall r :: r in list + found <==> InScopes(events, spec, span, order[..i + 1], r)
  {
    assert forall j :: 0 <= j < i ==> order[j] != order[i];
    assert order[i] !in order[..i];
    DistinctAppend(list, found);
    assert order[..i + 1] == order[..i] + [order[i]];
  }

  lemma AllScopes(events: seq<Event>, spec: Spec, span: real, scopes: Scopes, order: seq<string>)
    requires Grouped(events, spec, scopes) && forall s :: s in scopes ==> s in order
    ensures forall r :: InScopes(events, spec, span, order, r) <==> IsEpisode(events, spec, span, r)
  {
    forall r ensures IsEpisode(events, spec, span, r) ==> r.scope in order {
      if r.scope !in scopes {
        assert At(scopes, r.scope) == Scoped(events, spec, r.scope);
        NoCandidatesNoEpisode(events, spec, span, r);
      }
    }
  }

  lemma DistinctAppend<T>(a: seq<T>, b: seq<T>)
    requires Distinct(a) && Distinct(b) && forall x :: x in a ==> x !in b
    ensures Distinct(a + b)
  {
    forall i, j | 0 <= i < j < |a + b| ensures (a + b)[i] != (a + b)[j] {
      if i < |a| <= j { assert a[i] in a && b[j - |a|] in b; }
    }
  }

  /** One round of the loop over the rules. */
  method CorrelateSpec(events: seq<Event>, spec: Spec, span: real) returns (list: seq<Correlation>)
    requires DistinctIds(events) && 0.0 <= span
    ensures forall r :: r in list <==> IsEpisode(events, spec, span, r)
    ensures Distinct(list)
  {
    var scopes := GroupByScope(events, spec);
    var order := SortedKeys(scopes.Keys);
    list := [];
    for i := 0 to |order|
      invariant forall r :: r in list <==> InScopes(events, spec, span, order[..i], r)
      invariant Distinct(list)
    {
      assert At(scopes, order[i]) == Scoped(events, spec, order[i]);
      var found := LabelEpisodes(events, spec, order[i], SortBy(EventLeq, At(scopes, order[i])), span);
      ScopeRound(events, spec, span, order, i, list, found);
      list := list + found;
    }
    assert order[..|order|] == order;
    AllScopes(events, spec, span, scopes, order);
  }

  /** Correlations are sorted by their start, as a text, and then by rule and scope. */
  function StartedAt(r: Correlation): string {
    if r.events != [] && r.events[0].timestamp.Some? then r.events[0].timestamp.value else ""
  }

  predicate CorrelationLeq(a: Correlation, b: Correlation) {
    if StartedAt(a) != StartedAt(b) then StrLeq(StartedAt(a), StartedAt(b))
    else if a.specId != b.specId then StrLeq(a.specId, b.specId)
    else StrLeq(a.scope, b.scope)
  }

  /** In order of the first event's time text, a missing one being empty, then of rule and scope. */
  ghost predicate InStartOrder(list: seq<Correlation>) {
    forall i, j :: 0 <= i < j < |list| ==>
      var s := if list[i].events != [] then list[i].events[0].timestamp else None;
      var t := if list[j].events != [] then list[j].events[0].timestamp else None;
      var x, y := if s.Some? then s.value else "", if t.Some? then t.value else "";
      && StrLeq(x, y)
      && (x == y ==> StrLeq(list[i].specId, list[j].specId))
      && (x == y && list[i].specId == list[j].specId ==> StrLeq(list[i].scope, list[j].scope))
  }

  lemma SortedIsInStartOrder(list: seq<Correlation>)
    requires Sorted(CorrelationLeq, list)
    ensures InStartOrder(list)
  {
    StrLeqIsTotalOrder();
    forall i, j | 0 <= i < j < |list| ensures CorrelationLeq(list[i], list[j]) {}
  }

  lemma CorrelationLeqIsPreorder()
    ensures Preorder(CorrelationLeq)
  {
    StrLeqIsTotalOrder();
    forall a, b, c | CorrelationLeq(a, b) && CorrelationLeq(b, c) ensures CorrelationLeq(a, c) {
      var x, y, z := StartedAt(a), StartedAt(b), StartedAt(c);
      assert StrLeq(x, y) && StrLeq(y, z);
      if x == z { assert x == y; }
    }
  }

  lemma CorrelationsSorted(list: seq<Correlation>)
    ensures Sorted(CorrelationLeq, SortBy(CorrelationLeq, list))
    ensures forall r :: r in SortBy(CorrelationLeq, list) <==> r in list
    ensures Distinct(list) ==> Distinct(SortBy(CorrelationLeq, list))
  {
    CorrelationLeqIsPreorder();
    SortBySorted(CorrelationLeq, list);
    PermutationDistinct(list, SortBy(CorrelationLeq, list));
  }

  /** Some rule has this episode. */
  ghost predicate IsEpisodeOfSome(events: seq<Event>, specs: seq<Spec>, span: real, r: Correlation) {
    exists spec :: spec in specs && IsEpisode(events, spec, span, r)
  }

  predicate DistinctSpecs(specs: seq<Spec>) {
    forall i, j :: 0 <= i < j < |specs| ==> specs[i].id != specs[j].id
  }

  lemma OtherSpecs(events: seq<Event>, specs: seq<Spec>, span: real, i: nat, list: seq<Correlation>,
                   found: seq<Correlation>)
    requires i < |specs| && DistinctSpecs(specs) && Distinct(list) && Distinct(found)
    requires forall r :: r in list <==> IsEpisodeOfSome(events, specs[..i], span, r)
    requires forall r :: r in found <==> IsEpisode(events, specs[i], span, r)
    ensures Distinct(list + found)
  {
    forall r | r in list ensures r !in found {
      var spec :| spec in specs[..i] && IsEpisode(events, spec, span, r);
      var j :| 0 <= j < i && specs[..i][j] == spec;
    }
    DistinctAppend(list, found);
  }

  /** The loop over the rules. */
  method CorrelateSpecs(events: seq<Event>, specs: seq<Spec>, span: real) returns (list: seq<Correlation>)
    requires DistinctIds(events) && 0.0 <= span
    ensures forall r :: r in list <==> IsEpisodeOfSome(events, specs, span, r)
    ensures DistinctSpecs(specs) ==> Distinct(list)
  {
    list := [];
    for i := 0 to |specs|
      invariant forall r :: r in list <==> IsEpisodeOfSome(events, specs[..i], span, r)
      invariant DistinctSpecs(specs) ==> Distinct(list)
    {
      var found := CorrelateSpec(events, specs[i], span);
      if DistinctSpecs(specs) { OtherSpecs(events, specs, span, i, list, found); }
      assert specs[..i + 1] == specs[..i] + [specs[i]];
      list := list + found;
    }
    assert specs[..|specs|] == specs;
  }

  // --- what a scan compares -----------------------------------------------------------------------

  /** An event with a measured time and a category of some group of the rule. */
  ghost predicate TakesPart(e: Event, spec: Spec) {
    e.epoch.Some? && !e.inferred && exists c, g :: c in e.categories && g in spec.groups && c in g
  }

  /** The probe rule compares events of one pod, every other rule events of one node. */
  predicate SamePlace(e: Event, f: Event, specId: string) {
    if specId == "probe_network_failure" then SamePodText(e, f) else SameNode(e, f)
  }

  lemma RelevantMeaning(e: Event, spec: Spec)
    ensures (exists c :: c in e.categories && c in Relevant(spec.groups))
        <==> exists c, g :: c in e.categories && g in spec.groups && c in g
  {
    if c, g :| c in e.categories && g in spec.groups && c in g { assert c in Relevant(spec.groups); }
    if c :| c in e.categories && c in Relevant(spec.groups) { var g :| g in spec.groups && c in g; }
  }

  lemma ScopeMeaning(e: Event, f: Event, specId: string)
    ensures (Scope(e, specId).Some? && Scope(e, specId) == Scope(f, specId)) <==> SamePlace(e, f, specId)
  {
    if specId == "probe_network_failure" {
      if HasPod(e) && HasPod(f) {
        var x, y := e.namespace.value + "/" + e.pod.value, f.namespace.value + "/" + f.pod.value;
        assert "pod:" + e.namespace.value + "/" + e.pod.value == "pod:" + x;
        assert "pod:" + f.namespace.value + "/" + f.pod.value == "pod:" + y;
        assert ("pod:" + x)[4..] == x && ("pod:" + y)[4..] == y;
      }
    } else if HasNode(e) && HasNode(f) {
      assert ("node:" + e.node.value)[5..] == e.node.value && ("node:" + f.node.value)[5..] == f.node.value;
    }
  }

  /** Two events are compared in one scan if and only if both take part and happened at one place. */
  lemma ScanMeaning(events: seq<Event>, spec: Spec, e: Event, f: Event)
    ensures (exists scope :: e in Candidates(events, spec, scope) && f in Candidates(events, spec, scope))
        <==> e in events && f in events && TakesPart(e, spec) && TakesPart(f, spec) && SamePlace(e, f, spec.id)
  {
    ScopeMeaning(e, f, spec.id);
    RelevantMeaning(e, spec);
    RelevantMeaning(f, spec);
    if scope :| e in Candidates(events, spec, scope) && f in Candidates(events, spec, scope) {
      CandidatesSorted(events, spec, scope);
    }
    if e in events && f in events && TakesPart(e, spec) && TakesPart(f, spec) && SamePlace(e, f, spec.id) {
      var scope := Scope(e, spec.id).value;
      CandidatesSorted(events, spec, scope);
      assert IsCandidate(e, spec, scope) && IsCandidate(f, spec, scope);
    }
  }

  /** What a published correlation promises: two to twenty events of the input that take part in the
      rule, pairwise at one place and no further apart than the window. */
  ghost predicate WellGrounded(events: seq<Event>, spec: Spec, span: real, r: Correlation) {
    && r.specId == spec.id && 2 <= |r.events| <= 20
    && (forall e :: e in r.events ==> e in events && TakesPart(e, spec))
    && (forall e, f :: e in r.events && f in r.events ==> SamePlace(e, f, spec.id) && Epoch(f) - Epoch(e) <= span)
  }

  lemma MatchIsValid(c: seq<Event>, groups: seq<set<string>>, span: real, w: Window)
    requires IsMatch(c, groups, span, w)
    ensures Valid(c, groups, span, w)
  {
    var matches :| Greedy(c, groups, span, matches) && w in matches;
    var i :| 0 <= i < |matches| && matches[i] == w;
    assert FirstAt(c, groups, span, matches, i);
  }

  /** The published events are candidates of the match, close enough in time. */
  lemma PublishedInWindow(c: seq<Event>, span: real, w: Window, published: seq<Event>)
    requires SortedByTime(c) && Documents(c, w, published) && Epoch(c[w.hi]) - Epoch(c[w.lo]) <= span
    ensures 2 <= |published| <= 20 && forall e :: e in published ==> e in c
    ensures forall e, f :: e in published && f in published ==> Epoch(f) - Epoch(e) <= span
  {
    assert forall k :: 0 <= k < |published| ==> published[k] == c[w.lo + k];
    forall e | e in published ensures e in c && Epoch(c[w.lo]) <= Epoch(e) <= Epoch(c[w.hi]) {
      var k :| 0 <= k < |published| && published[k] == e;
      assert e == c[w.lo + k];
    }
  }

  lemma EpisodeIsWellGrounded(events: seq<Event>, spec: Spec, span: real, r: Correlation)
    requires IsEpisode(events, spec, span, r)
    ensures WellGrounded(events, spec, span, r)
  {
    var c := Candidates(events, spec, r.scope);
    var w :| IsMatch(c, spec.groups, span, w) && Documents(c, w, r.events);
    MatchIsValid(c, spec.groups, span, w);
    CandidatesTimed(events, spec, r.scope);
    PublishedInWindow(c, span, w, r.events);
    forall e, f | e in r.events && f in r.events ensures SamePlace(e, f, spec.id) {
      ScanMeaning(events, spec, e, f);
    }
    forall e | e in r.events ensures e in events && TakesPart(e, spec) {
      ScanMeaning(events, spec, e, e);
    }
  }

  /** Together these two events hit every group of the rule. */
  ghost predicate HitTogether(e: Event, f: Event, spec: Spec) {
    forall g :: g in spec.groups ==> exists c :: c in g && (c in e.categories || c in f.categories)
  }

  /** Two events that make a match on their own. */
  ghost predicate Pair(events: seq<Event>, spec: Spec, span: real, e: Event, f: Event) {
    && e in events && f in events && e != f
    && TakesPart(e, spec) && TakesPart(f, spec) && SamePlace(e, f, spec.id)
    && Epoch(e) - Epoch(f) <= span && Epoch(f) - Epoch(e) <= span
    && HitTogether(e, f, spec)
  }

  /** From a valid window to the first one: it ends first, and reaches back as far as it can. */
  lemma {:induction false} FirstExists(c: seq<Event>, groups: seq<set<string>>, span: real, from: nat, end: nat)
    requires SortedByTime(c) && end <= |c| && !NoneEndingBefore(c, groups, span, from, end)
    ensures exists w :: First(c, groups, span, from, w)
  {
    if end > 0 && !NoneEndingBefore(c, groups, span, from, end - 1) {
      FirstExists(c, groups, span, from, end - 1);
    } else {
      var w: Window :| from <= w.lo && w.hi < end && Valid(c, groups, span, w);
      assert w.hi == end - 1;
      var lo := w.lo;
      while lo > from && Epoch(c[w.hi]) - Epoch(c[lo - 1]) <= span
        invariant from <= lo <= w.lo && Epoch(c[w.hi]) - Epoch(c[lo]) <= span
      {
        lo := lo - 1;
      }
      assert HitsAll(c, groups, lo, w.hi) by {
        forall g | g in groups ensures Hits(c, g, lo, w.hi) { assert Hits(c, g, w.lo, w.hi); }
      }
      assert First(c, groups, span, from, Window(lo, w.hi));
    }
  }

  /** The greedy matches always exist. */
  lemma GreedyExists(c: seq<Event>, groups: seq<set<string>>, span: real) returns (matches: seq<Window>)
    requires SortedByTime(c)
    ensures Greedy(c, groups, span, matches)
  {
    matches := [];
    while !NoneEndingBefore(c, groups, span, Resume(matches, |matches|), |c|)
      invariant Resume(matches, |matches|) <= |c|
      invariant forall i :: 0 <= i < |matches| ==> FirstAt(c, groups, span, matches, i)
      decreases |c| - Resume(matches, |matches|)
    {
      FirstExists(c, groups, span, Resume(matches, |matches|), |c|);
      var w :| First(c, groups, span, Resume(matches, |matches|), w);
      var before := matches;
      matches := matches + [w];
      forall i | 0 <= i < |matches| ensures FirstAt(c, groups, span, matches, i) {
        assert Resume(matches, i) == Resume(before, i);
        assert i < |before| ==> FirstAt(c, groups, span, before, i);
      }
    }
  }

  lemma PairIsWindow(events: seq<Event>, spec: Spec, span: real, scope: string, e: Event, f: Event) returns (w: Window)
    requires Pair(events, spec, span, e, f)
    requires e in Candidates(events, spec, scope) && f in Candidates(events, spec, scope)
    ensures Valid(Candidates(events, spec, scope), spec.groups, span, w)
  {
    var c := Candidates(events, spec, scope);
    var i :| 0 <= i < |c| && c[i] == e;
    var j :| 0 <= j < |c| && c[j] == f;
    w := if i < j then Window(i, j) else Window(j, i);
    forall g | g in spec.groups ensures Hits(c, g, w.lo, w.hi) {
      var cat :| cat in g && (cat in e.categories || cat in f.categories);
      assert HasCategory(c[i], cat) || HasCategory(c[j], cat);
    }
  }

  lemma SomeMatch(events: seq<Event>, spec: Spec, span: real, scope: string, e: Event, f: Event) returns (m: Window)
    requires Pair(events, spec, span, e, f)
    requires e in Candidates(events, spec, scope) && f in Candidates(events, spec, scope)
    ensures m.lo < m.hi < |Candidates(events, spec, scope)|
    ensures IsMatch(Candidates(events, spec, scope), spec.groups, span, m)
  {
    var c := Candidates(events, spec, scope);
    CandidatesTimed(events, spec, scope);
    var matches := GreedyExists(c, spec.groups, span);
    var w := PairIsWindow(events, spec, span, scope, e, f);
    var k := EveryWindowIsPierced(c, spec.groups, span, matches, w, 0);
    m := matches[k];
    MatchPlaces(c, spec.groups, span, matches);
  }

  lemma OnePlace(events: seq<Event>, spec: Spec, scope: string, part: seq<Event>, e: Event)
    requires e in Candidates(events, spec, scope) && forall x :: x in part ==> x in Candidates(events, spec, scope)
    ensures forall x :: x in part ==> SamePlace(x, e, spec.id)
  {
    forall x | x in part ensures SamePlace(x, e, spec.id) { ScanMeaning(events, spec, x, e); }
  }

  /** Nothing is overlooked: where two events make a match on their own, the rule has a correlation at
      their place. */
  lemma PairIsReported(events: seq<Event>, spec: Spec, span: real, e: Event, f: Event) returns (r: Correlation)
    requires Pair(events, spec, span, e, f)
    ensures IsEpisode(events, spec, span, r)
    ensures forall x :: x in r.events ==> SamePlace(x, e, spec.id)
  {
    ScanMeaning(events, spec, e, f);
    var scope :| e in Candidates(events, spec, scope) && f in Candidates(events, spec, scope);
    var c := Candidates(events, spec, scope);
    var m := SomeMatch(events, spec, span, scope, e, f);
    r := Correlation(spec.id, scope, FirstTwenty(c[m.lo..m.hi + 1]));
    assert Documents(c, m, r.events);
    assert forall x :: x in r.events ==> x in c;
    OnePlace(events, spec, scope, r.events, e);
  }

  /** What the list of correlations promises without naming a scope. */
  ghost predicate Faithful(events: seq<Event>, specs: seq<Spec>, span: real, correlations: seq<Correlation>) {
    && (forall r :: r in correlations ==> exists spec :: spec in specs && WellGrounded(events, spec, span, r))
    && (forall spec, e, f :: spec in specs && Pair(events, spec, span, e, f) ==>
          exists r ::
            && r in correlations && r.specId == spec.id
            && forall x :: x in r.events ==> SamePlace(x, e, spec.id))
  }

  /** The namespaces of the events that name a pod. */
  function Namespaces(events: seq<Event>): set<string> {
    set e | e in events && HasPod(e) :: e.namespace.value
  }

  /** If no namespace continues another one behind a slash, the events of a correlation of the probe rule
      come from one pod. */
  lemma ProbeEpisodesShareAPod(
    events: seq<Event>, specs: seq<Spec>, span: real, correlations: seq<Correlation>, r: Correlation)
    requires Faithful(events, specs, span, correlations) && r in correlations && r.specId == "probe_network_failure"
    requires forall m, n :: m in Namespaces(events) && n in Namespaces(events) ==> !Nested(m, n)
    ensures forall e, f :: e in r.events && f in r.events ==> SamePod(e, f)
  {
    var spec :| spec in specs && WellGrounded(events, spec, span, r);
    PodTextsExactly(Namespaces(events));
    forall e, f | e in r.events && f in r.events ensures SamePod(e, f) {
      assert SamePlace(e, f, spec.id);
      assert e.namespace.value in Namespaces(events) && f.namespace.value in Namespaces(events);
      SamePodTextMeansSamePod(Namespaces(events), e, f);
    }
  }

  lemma EpisodesAreFaithful(events: seq<Event>, specs: seq<Spec>, span: real, correlations: seq<Correlation>)
    requires forall r :: r in correlations <==> IsEpisodeOfSome(events, specs, span, r)
    ensures Faithful(events, specs, span, correlations)
  {
    forall r | r in correlations ensures exists spec :: spec in specs && WellGrounded(events, spec, span, r) {
      var spec :| spec in specs && IsEpisode(events, spec, span, r);
      EpisodeIsWellGrounded(events, spec, span, r);
    }
    forall spec, e, f | spec in specs && Pair(events, spec, span, e, f)
      ensures exists r ::
        && r in correlations && r.specId == spec.id
        && forall x :: x in r.events ==> SamePlace(x, e, spec.id)
    {
      var r := PairIsReported(events, spec, span, e, f);
      assert IsEpisodeOfSome(events, specs, span, r);
    }
  }

  /** `correlate_events`: the greedy matches of every rule in every scope, one correlation each and
      nothing else, in order of their start. */
  method CorrelateEvents(events: seq<Event>, specs: seq<Spec>, span: real) returns (correlations: seq<Correlation>)
    requires DistinctIds(events) && 0.0 <= span
    ensures forall r :: r in correlations <==> IsEpisodeOfSome(events, specs, span, r)
    ensures Faithful(events, specs, span, correlations)
    ensures DistinctSpecs(specs) ==> Distinct(correlations)
    ensures InStartOrder(correlations)
  {
    var list := CorrelateSpecs(events, specs, span);
    CorrelationsSorted(list);
    correlations := SortBy(CorrelationLeq, list);
    SortedIsInStartOrder(correlations);
    EpisodesAreFaithful(events, specs, span, correlations);
  }

  /** What an episode id is computed from besides rule and scope: the first and the last instant. */
  function Instants(c: seq<Event>, w: Window): (real, real)
    requires w.lo <= w.hi < |c|
  {
    (Epoch(c[w.lo]), Epoch(FirstTwenty(c[w.lo..w.hi + 1])[|FirstTwenty(c[w.lo..w.hi + 1])| - 1]))
  }

  lemma LastInstant(c: seq<Event>, w: Window)
    requires SortedByTime(c) && w.lo <= w.hi < |c|
    ensures Instants(c, w).0 == Epoch(c[w.lo]) && Epoch(c[w.lo]) <= Instants(c, w).1 <= Epoch(c[w.hi])
  {
    var last := if w.hi - w.lo < MAX_EPISODE_EVENTS then w.hi else w.lo + MAX_EPISODE_EVENTS - 1;
    assert Instants(c, w).1 == Epoch(c[last]);
  }

  lemma InstantsClash(c: seq<Event>, v: Window, w: Window)
    requires SortedByTime(c) && v.lo <= v.hi < w.lo <= w.hi < |c|
    ensures Instants(c, v) == Instants(c, w) <==> Epoch(c[v.lo]) == Instants(c, w).1
  {
    LastInstant(c, v);
    LastInstant(c, w);
    assert Epoch(c[v.hi]) <= Epoch(c[w.lo]);
  }

  /** Two episodes of a rule and scope get the same id if and only if everything from the start of the
      one to the (published) end of the other happened at one instant. */
  lemma EpisodeIdsDiffer(c: seq<Event>, groups: seq<set<string>>, span: real, matches: seq<Window>, i: nat, j: nat)
    requires SortedByTime(c) && Greedy(c, groups, span, matches) && i < j < |matches|
    ensures matches[i].lo <= matches[i].hi < matches[j].lo <= matches[j].hi < |c|
    ensures Instants(c, matches[i]) == Instants(c, matches[j])
        <==> Epoch(c[matches[i].lo]) == Instants(c, matches[j]).1
  {
    MatchesDisjoint(c, groups, span, matches, i, j);
    InstantsClash(c, matches[i], matches[j]);
  }

  /** No more than `n` candidates share an instant. */
  ghost predicate AtMostTogether(c: seq<Event>, n: nat) {
    forall a :: 0 <= a && a + n < |c| ==> Epoch(c[a]) < Epoch(c[a + n])
  }

  predicate Inside(c: seq<Event>, w: Window) {
    w.lo <= w.hi < |c|
  }

  ghost predicate IdsDiffer(c: seq<Event>, matches: seq<Window>) {
    forall i, j :: 0 <= i < j < |matches| && Inside(c, matches[i]) && Inside(c, matches[j])
                   ==> Instants(c, matches[i]) != Instants(c, matches[j])
  }

  /** If no four candidates of a scope share an instant, all episodes of the scope have different ids. */
  lemma FewTogetherDiffer(c: seq<Event>, groups: seq<set<string>>, span: real, matches: seq<Window>)
    requires SortedByTime(c) && Greedy(c, groups, span, matches) && AtMostTogether(c, 3)
    ensures IdsDiffer(c, matches)
  {
    forall i, j | 0 <= i < j < |matches| && Inside(c, matches[i]) && Inside(c, matches[j])
      ensures Instants(c, matches[i]) != Instants(c, matches[j])
    {
      MatchesDisjoint(c, groups, span, matches, i, j);
      EpisodeIdsDiffer(c, groups, span, matches, i, j);
      SecondInstant(c, matches[j]);
      var first := matches[i].lo;
      assert Epoch(c[first]) < Epoch(c[first + 3]) <= Epoch(c[matches[j].lo + 1]);
    }
  }

  /** What is published of a match goes beyond its first event. */
  lemma SecondInstant(c: seq<Event>, w: Window)
    requires SortedByTime(c) && w.lo < w.hi < |c|
    ensures Epoch(c[w.lo + 1]) <= Instants(c, w).1
  {
    var last := if w.hi - w.lo < MAX_EPISODE_EVENTS then w.hi else w.lo + MAX_EPISODE_EVENTS - 1;
    assert Instants(c, w).1 == Epoch(c[last]);
  }

  /** Every scan of candidates of which at most `n` are simultaneous gives different ids. */
  ghost predicate AlwaysDiffer(n: nat) {
    forall c, groups, span, matches ::
      SortedByTime(c) && DistinctIds(c) && AtMostTogether(c, n) && Greedy(c, groups, span, matches)
      ==> IdsDiffer(c, matches)
  }

  /** The bound is tight: it is exactly up to three simultaneous candidates that all scans, whatever the
      rule and its window, give different ids. */
  lemma ThreeTogetherExactly(n: nat)
    ensures AlwaysDiffer(n) <==> n <= 3
  {
    if n <= 3 { UpToThreeDiffer(n); } else { FourTogetherClash(n); }
  }

  lemma UpToThreeDiffer(n: nat)
    requires n <= 3
    ensures AlwaysDiffer(n)
  {
    forall c, groups, span, matches
      | SortedByTime(c) && DistinctIds(c) && AtMostTogether(c, n) && Greedy(c, groups, span, matches)
      ensures IdsDiffer(c, matches)
    {
      FewerTogether(c, n);
      FewTogetherDiffer(c, groups, span, matches);
    }
  }

  lemma FourTogetherClash(n: nat)
    requires n > 3
    ensures !AlwaysDiffer(n)
  {
    SimultaneousEpisodesClash();
    ClashRefutes(FourSimultaneous(), [{"memory_pressure"}, {"oom_kill"}], 900.0, [Window(0, 1), Window(2, 3)], n);
  }

  lemma ClashRefutes(c: seq<Event>, groups: seq<set<string>>, span: real, matches: seq<Window>, n: nat)
    requires SortedByTime(c) && DistinctIds(c) && |c| <= n
    requires Greedy(c, groups, span, matches) && !IdsDiffer(c, matches)
    ensures !AlwaysDiffer(n)
  {
    assert AtMostTogether(c, n);
  }

  lemma FewerTogether(c: seq<Event>, n: nat)
    requires SortedByTime(c) && AtMostTogether(c, n) && n <= 3
    ensures AtMostTogether(c, 3)
  {
    forall a | 0 <= a && a + 3 < |c| ensures Epoch(c[a]) < Epoch(c[a + 3]) {
      assert Epoch(c[a]) < Epoch(c[a + n]);
    }
  }

  /** An event of a node's journal, as a sample. */
  function JournalEvent(i: nat, epoch: real, category: string): Event {
    Event("event-" + seq(i, _ => 'x'), "journal", Some("node-1"), None, None, None, None,
          Some("2024-01-01T00:00:00Z"), Some(epoch), false, 1, [category], "f", "e", [])
  }

  function Simultaneous(i: nat): Event {
    JournalEvent(i, 0.0, if i % 2 == 0 then "memory_pressure" else "oom_kill")
  }

  function FourSimultaneous(): (c: seq<Event>)
    ensures |c| == 4 && forall i :: 0 <= i < 4 ==> c[i] == Simultaneous(i)
  {
    [Simultaneous(0), Simultaneous(1), Simultaneous(2), Simultaneous(3)]
  }

  /** Two memory failures within one instant: the scan finds both, and they share their id. */
  lemma SimultaneousEpisodesClash()
    ensures var c := FourSimultaneous();
            var matches := [Window(0, 1), Window(2, 3)];
            && SortedByTime(c) && DistinctIds(c)
            && Greedy(c, [{"memory_pressure"}, {"oom_kill"}], 900.0, matches)
            && !IdsDiffer(c, matches)
  {
    var c := FourSimultaneous();
    var groups := [{"memory_pressure"}, {"oom_kill"}];
    var matches := [Window(0, 1), Window(2, 3)];
    assert forall i :: 0 <= i < 4 ==> |c[i].id| == i + 6;
    SimultaneousFirst(c, groups, 0);
    SimultaneousFirst(c, groups, 2);
    assert FirstAt(c, groups, 900.0, matches, 0) && FirstAt(c, groups, 900.0, matches, 1);
    LastInstant(c, matches[0]);
    LastInstant(c, matches[1]);
    assert Instants(c, matches[0]) == Instants(c, matches[1]);
  }

  lemma SimultaneousFirst(c: seq<Event>, groups: seq<set<string>>, lo: nat)
    requires |c| == 4 && (forall i :: 0 <= i < 4 ==> c[i] == Simultaneous(i)) && (lo == 0 || lo == 2)
    requires groups == [{"memory_pressure"}, {"oom_kill"}]
    ensures First(c, groups, 900.0, lo, Window(lo, lo + 1))
  {
    assert c[lo].categories[0] == "memory_pressure" && c[lo + 1].categories[0] == "oom_kill";
    assert HasCategory(c[lo], "memory_pressure") && HasCategory(c[lo + 1], "oom_kill");
    assert Hits(c, groups[0], lo, lo + 1) && Hits(c, groups[1], lo, lo + 1);
  }

  /** Do the events the record keeps still hit every group of the rule? */
  ghost predicate RecordCovers(c: seq<Event>, groups: seq<set<string>>, w: Window)
    requires w.lo <= w.hi < |c|
  {
    forall g :: g in groups ==> Shows(FirstTwenty(c[w.lo..w.hi + 1]), g)
  }

  /** Some published event has a category of the group. */
  ghost predicate Shows(published: seq<Event>, g: set<string>) {
    exists e, cat :: e in published && cat in g && cat in e.categories
  }

  lemma ShowsExactly(c: seq<Event>, w: Window, g: set<string>)
    requires w.lo <= w.hi < |c|
    ensures Shows(FirstTwenty(c[w.lo..w.hi + 1]), g)
        <==> Hits(c, g, w.lo, if w.hi < w.lo + 20 then w.hi else w.lo + 19)
  {
    var published, last := FirstTwenty(c[w.lo..w.hi + 1]), if w.hi < w.lo + 20 then w.hi else w.lo + 19;
    assert |published| == last - w.lo + 1 && forall i :: 0 <= i < |published| ==> published[i] == c[w.lo + i];
    if i, cat :| w.lo <= i <= last && i < |c| && cat in g && HasCategory(c[i], cat) {
      assert published[i - w.lo] == c[i];
    }
    if e, cat :| e in published && cat in g && cat in e.categories {
      var i :| 0 <= i < |published| && published[i] == e;
      assert HasCategory(c[w.lo + i], cat);
    }
  }

  lemma CoversIsHits(c: seq<Event>, groups: seq<set<string>>, w: Window)
    requires w.lo <= w.hi < |c|
    ensures RecordCovers(c, groups, w) <==> HitsAll(c, groups, w.lo, if w.hi < w.lo + 20 then w.hi else w.lo + 19)
  {
    forall g | g in groups
      ensures Shows(FirstTwenty(c[w.lo..w.hi + 1]), g)
          <==> Hits(c, g, w.lo, if w.hi < w.lo + 20 then w.hi else w.lo + 19)
    {
      ShowsExactly(c, w, g);
    }
  }

  /** Without its last event a match misses a group. */
  lemma LastEventCompletes(c: seq<Event>, groups: seq<set<string>>, span: real, from: nat, w: Window, end: nat)
    requires SortedByTime(c) && First(c, groups, span, from, w) && w.lo < end < w.hi
    ensures !HitsAll(c, groups, w.lo, end)
  {
    var shorter := Window(w.lo, w.hi - 1);
    assert !Valid(c, groups, span, shorter);
    assert Epoch(c[shorter.hi]) <= Epoch(c[w.hi]);
    var g :| g in groups && !Hits(c, g, w.lo, w.hi - 1);
    assert !Hits(c, g, w.lo, end);
  }

  /** The twenty-event cut: the record of a match supports its own correlation if and only if the
      match is no longer than the cut. A longer match always loses the group its last event completed. */
  lemma RecordCoversExactly(c: seq<Event>, groups: seq<set<string>>, span: real, from: nat, w: Window)
    requires SortedByTime(c) && First(c, groups, span, from, w)
    ensures RecordCovers(c, groups, w) <==> w.hi - w.lo + 1 <= 20
  {
    CoversIsHits(c, groups, w);
    if w.hi - w.lo + 1 > 20 { LastEventCompletes(c, groups, span, from, w, w.lo + 19); }
  }

  function Sample(i: nat): Event {
    JournalEvent(i, i as real, if i < 20 then "certificate_error" else "clock_error")
  }

  lemma SampleHitsLate(c: seq<Event>, g: set<string>, hi: nat)
    requires |c| == 21 && (forall i :: 0 <= i < 21 ==> c[i] == Sample(i)) && hi < 20
    requires g == {"api_unreachable", "clock_error"}
    ensures forall lo: nat :: !Hits(c, g, lo, hi)
  {
    assert "certificate_error"[1] == 'e' && "clock_error"[1] == 'l' && "api_unreachable"[1] == 'p';
    assert "certificate_error" !in g;
    assert forall i :: 0 <= i <= hi ==> c[i].categories == ["certificate_error"];
  }

  /** Such a match exists: twenty certificate errors one second apart, then a clock error. */
  lemma LongMatchLosesGroup()
    ensures var c := seq(21, i requires 0 <= i < 21 => Sample(i));
            var groups := [{"certificate_error"}, {"api_unreachable", "clock_error"}];
            First(c, groups, 900.0, 0, Window(0, 20)) && !RecordCovers(c, groups, Window(0, 20))
  {
    var c := seq(21, i requires 0 <= i < 21 => Sample(i));
    var groups := [{"certificate_error"}, {"api_unreachable", "clock_error"}];
    assert c[0].categories[0] == "certificate_error" && c[20].categories[0] == "clock_error";
    assert HasCategory(c[0], "certificate_error") && HasCategory(c[20], "clock_error");
    assert Hits(c, groups[0], 0, 20) && Hits(c, groups[1], 0, 20);
    assert forall i :: 0 <= i < 21 ==> Epoch(c[i]) == i as real;
    forall w: Window | w.hi < 20 ensures !Valid(c, groups, 900.0, w) {
      SampleHitsLate(c, groups[1], w.hi);
      assert groups[1] in groups;
    }
    RecordCoversExactly(c, groups, 900.0, 0, Window(0, 20));
  }
}
