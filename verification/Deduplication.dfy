/** `_deduplicate_events` of normalize.py: one event per key, with the occurrences added up. */
module Deduplication {
  import opened Seqs
  import opened Wrappers
  import opened Events

  datatype DedupKey = DedupKey(
    source: string,
    node: Option<string>,
    namespace: Option<string>,
    pod: Option<string>,
    container: Option<string>,
    timestamp: Option<string>,
    categories: seq<string>,
    fingerprint: string)

  function KeyOf(e: Event): DedupKey {
    DedupKey(e.source, e.node, e.namespace, e.pod, e.container, e.timestamp, e.categories, e.fingerprint)
  }

  // --- what the result is: a definition that looks at the whole list --------------------
  // `key` stands for `KeyOf`; nothing below depends on which fields it reads.

  type Keying = Event -> DedupKey

  /** The first event of every key, in order of appearance. */
  function Firsts(key: Keying, events: seq<Event>): seq<Event> {
    if events == [] then []
    else
      var front, last := events[..|events| - 1], events[|events| - 1];
      if HasKey(key, front, key(last)) then Firsts(key, front) else Firsts(key, front) + [last]
  }

  predicate HasKey(key: Keying, events: seq<Event>, k: DedupKey) {
    exists i :: 0 <= i < |events| && key(events[i]) == k
  }

  /** The occurrences recorded under a key. */
  function OccurrencesOf(key: Keying, events: seq<Event>, k: DedupKey): nat {
    if events == [] then 0
    else
      var last := events[|events| - 1];
      OccurrencesOf(key, events[..|events| - 1], k) + if key(last) == k then last.occurrences else 0
  }

  /** The evidence of the other events of the key, each once, in order of appearance. */
  function OtherEvidence(key: Keying, events: seq<Event>, x: Event): seq<string> {
    if events == [] then x.duplicateEvidence
    else
      var last := events[|events| - 1];
      var known := OtherEvidence(key, events[..|events| - 1], x);
      if key(last) == key(x) && last.evidence != x.evidence && last.evidence !in known
      then known + [last.evidence] else known
  }

  function Combined(key: Keying, events: seq<Event>, x: Event): Event {
    x.(occurrences := OccurrencesOf(key, events, key(x)), duplicateEvidence := OtherEvidence(key, events, x))
  }

  function Deduplicated(key: Keying, events: seq<Event>): (r: seq<Event>)
    ensures |r| == |Firsts(key, events)|
  {
    Map((x: Event) => Combined(key, events, x), Firsts(key, events))
  }

  // --- properties of the definition -----------------------------------------------------

  lemma HasKeySnoc(key: Keying, events: seq<Event>, e: Event)
    ensures forall k :: HasKey(key, events + [e], k) <==> HasKey(key, events, k) || k == key(e)
  {
    var all := events + [e];
    forall k ensures HasKey(key, all, k) <==> HasKey(key, events, k) || k == key(e) {
      if HasKey(key, events, k) {
        var i :| 0 <= i < |events| && key(events[i]) == k;
        assert key(all[i]) == k;
      }
      assert key(all[|events|]) == key(e);
    }
  }

  lemma {:induction false} FirstsCoverKeys(key: Keying, events: seq<Event>)
    ensures forall k :: HasKey(key, Firsts(key, events), k) <==> HasKey(key, events, k)
    ensures forall x :: x in Firsts(key, events) ==> x in events
  {
    if events != [] {
      var front, last := events[..|events| - 1], events[|events| - 1];
      FirstsCoverKeys(key, front);
      assert events == front + [last];
      HasKeySnoc(key, front, last);
      HasKeySnoc(key, Firsts(key, front), last);
    }
  }

  ghost predicate DistinctKeys(key: Keying, events: seq<Event>) {
    forall i, j :: 0 <= i < j < |events| ==> key(events[i]) != key(events[j])
  }

  lemma {:induction false} FirstsDistinct(key: Keying, events: seq<Event>)
    ensures DistinctKeys(key, Firsts(key, events))
  {
    if events != [] {
      var front, last := events[..|events| - 1], events[|events| - 1];
      FirstsDistinct(key, front);
      FirstsCoverKeys(key, front);
      var f := Firsts(key, front);
      if !HasKey(key, front, key(last)) {
        assert forall i :: 0 <= i < |f| ==> HasKey(key, f, key(f[i]));
      }
    }
  }

  lemma {:induction false} NoKeyNoOccurrences(key: Keying, events: seq<Event>, k: DedupKey)
    requires !HasKey(key, events, k)
    ensures OccurrencesOf(key, events, k) == 0
  {
    if events != [] {
      var front := events[..|events| - 1];
      assert key(events[|events| - 1]) != k;
      assert forall i :: 0 <= i < |front| ==> front[i] == events[i];
      NoKeyNoOccurrences(key, front, k);
    }
  }

  lemma {:induction false} NoKeyNoEvidence(key: Keying, events: seq<Event>, x: Event)
    requires !HasKey(key, events, key(x))
    ensures OtherEvidence(key, events, x) == x.duplicateEvidence
  {
    if events != [] {
      var front := events[..|events| - 1];
      assert key(events[|events| - 1]) != key(x);
      assert forall i :: 0 <= i < |front| ==> front[i] == events[i];
      NoKeyNoEvidence(key, front, x);
    }
  }

  function Occurrences(e: Event): nat { e.occurrences }

  /** The sum of the occurrences under the keys of `xs`. */
  function SumUnder(key: Keying, events: seq<Event>, xs: seq<Event>): nat {
    if xs == [] then 0 else SumUnder(key, events, xs[..|xs| - 1]) + OccurrencesOf(key, events, key(xs[|xs| - 1]))
  }

  lemma {:induction false} SumUnderSnoc(key: Keying, events: seq<Event>, e: Event, xs: seq<Event>)
    requires DistinctKeys(key, xs)
    ensures SumUnder(key, events + [e], xs)
            == SumUnder(key, events, xs) + if HasKey(key, xs, key(e)) then e.occurrences else 0
  {
    if xs != [] {
      var front, last := xs[..|xs| - 1], xs[|xs| - 1];
      assert forall i :: 0 <= i < |front| ==> front[i] == xs[i];
      SumUnderSnoc(key, events, e, front);
      assert (events + [e])[..|events|] == events;
      if key(last) == key(e) {
        assert HasKey(key, xs, key(e)) by { assert key(xs[|xs| - 1]) == key(e); }
        assert !HasKey(key, front, key(e));
      } else if HasKey(key, xs, key(e)) {
        var i :| 0 <= i < |xs| && key(xs[i]) == key(e);
        assert key(front[i]) == key(e);
      } else {
        assert !HasKey(key, front, key(e));
      }
    }
  }

  lemma SumUnderNext(key: Keying, events: seq<Event>, e: Event)
    ensures SumUnder(key, events + [e], Firsts(key, events + [e]))
            == SumUnder(key, events, Firsts(key, events)) + e.occurrences
  {
    var all, f := events + [e], Firsts(key, events);
    assert all[..|events|] == events;
    FirstsDistinct(key, events);
    FirstsCoverKeys(key, events);
    SumUnderSnoc(key, events, e, f);
    assert HasKey(key, f, key(e)) <==> HasKey(key, events, key(e));
    if !HasKey(key, events, key(e)) {
      NoKeyNoOccurrences(key, events, key(e));
      assert (f + [e])[..|f|] == f;
    }
  }

  lemma {:induction false} SumUnderFirsts(key: Keying, events: seq<Event>)
    ensures SumUnder(key, events, Firsts(key, events)) == SumOf(Occurrences, events)
  {
    if events != [] {
      var front, last := events[..|events| - 1], events[|events| - 1];
      assert events == front + [last];
      SumUnderFirsts(key, front);
      SumUnderNext(key, front, last);
      SumAppend(Occurrences, front, [last]);
      assert SumOf(Occurrences, [last]) == last.occurrences;
    }
  }

  lemma {:induction false} SumUnderCombined(key: Keying, events: seq<Event>, xs: seq<Event>, ys: seq<Event>)
    requires |xs| == |ys| && forall i :: 0 <= i < |xs| ==> ys[i] == Combined(key, events, xs[i])
    ensures SumOf(Occurrences, ys) == SumUnder(key, events, xs)
  {
    if xs != [] {
      var n := |xs| - 1;
      SumUnderCombined(key, events, xs[..n], ys[..n]);
      assert ys == ys[..n] + [ys[n]];
      SumAppend(Occurrences, ys[..n], [ys[n]]);
    }
  }

  /** Merging duplicates loses no occurrence. */
  lemma OccurrencesConserved(key: Keying, events: seq<Event>)
    ensures SumOf(Occurrences, Deduplicated(key, events)) == SumOf(Occurrences, events)
  {
    SumUnderFirsts(key, events);
    SumUnderCombined(key, events, Firsts(key, events), Deduplicated(key, events));
  }

  lemma {:induction false} FirstsOfDistinct(key: Keying, events: seq<Event>)
    requires DistinctKeys(key, events)
    ensures Firsts(key, events) == events
  {
    if events != [] {
      var front := events[..|events| - 1];
      FirstsOfDistinct(key, front);
      assert !HasKey(key, front, key(events[|events| - 1]));
    }
  }

  lemma {:induction false} AloneUnderKey(key: Keying, events: seq<Event>, i: nat)
    requires DistinctKeys(key, events) && i < |events|
    ensures Combined(key, events, events[i]) == events[i]
  {
    var n := |events| - 1;
    var front := events[..n];
    if i == n {
      assert !HasKey(key, front, key(events[i]));
      NoKeyNoOccurrences(key, front, key(events[i]));
      NoKeyNoEvidence(key, front, events[i]);
    } else {
      AloneUnderKey(key, front, i);
    }
  }

  /** The merged list has no duplicates left, so merging it again changes nothing. (`key` must not
      read what merging changes; `KeyOf` does not.) */
  lemma DeduplicatedTwice(events: seq<Event>)
    ensures DistinctKeys(KeyOf, Deduplicated(KeyOf, events))
    ensures Deduplicated(KeyOf, Deduplicated(KeyOf, events)) == Deduplicated(KeyOf, events)
  {
    var out := Deduplicated(KeyOf, events);
    FirstsDistinct(KeyOf, events);
    assert forall i :: 0 <= i < |out| ==> KeyOf(out[i]) == KeyOf(Firsts(KeyOf, events)[i]);
    FirstsOfDistinct(KeyOf, out);
    forall i | 0 <= i < |out| ensures Deduplicated(KeyOf, out)[i] == out[i] {
      AloneUnderKey(KeyOf, out, i);
    }
  }

  /** Every event is represented, by an event of its key whose evidence list names its evidence. */
  lemma {:induction false} EvidenceKept(key: Keying, events: seq<Event>, x: Event, e: Event)
    requires e in events && key(e) == key(x)
    ensures e.evidence == x.evidence || e.evidence in OtherEvidence(key, events, x)
  {
    var front, last := events[..|events| - 1], events[|events| - 1];
    if e in front {
      EvidenceKept(key, front, x, e);
    } else {
      assert e == last;
    }
  }

  lemma {:induction false} FirstsDistinctIds(key: Keying, events: seq<Event>)
    requires DistinctIds(events)
    ensures DistinctIds(Deduplicated(key, events))
  {
    FirstsDistinct(key, events);
    FirstsCoverKeys(key, events);
    DistinctIdsIdentify(events);
    var f, out := Firsts(key, events), Deduplicated(key, events);
    forall i, j | 0 <= i < j < |out| ensures out[i].id != out[j].id {
      assert f[i] in events && f[j] in events && key(f[i]) != key(f[j]);
    }
  }

  // --- the loop ---------------------------------------------------------------------------

  function Merge(existing: Event, e: Event): Event {
    existing.(
      occurrences := existing.occurrences + e.occurrences,
      duplicateEvidence :=
        if e.evidence != existing.evidence && e.evidence !in existing.duplicateEvidence
        then existing.duplicateEvidence + [e.evidence] else existing.duplicateEvidence)
  }

  lemma CombinedSnoc(key: Keying, events: seq<Event>, e: Event, x: Event)
    ensures Combined(key, events + [e], x)
            == if key(e) == key(x) then Merge(Combined(key, events, x), e) else Combined(key, events, x)
  {
    assert (events + [e])[..|events|] == events;
  }

  /** The insertion-ordered dictionary of the loop holds the merged events of the prefix. */
  ghost predicate Holds(key: Keying, events: seq<Event>, order: seq<DedupKey>, merged: map<DedupKey, Event>) {
    var f := Firsts(key, events);
    && |order| == |f|
    && (forall i :: 0 <= i < |f| ==>
        order[i] == key(f[i]) && order[i] in merged && merged[order[i]] == Combined(key, events, f[i]))
    && (forall k :: k in merged <==> HasKey(key, events, k))
  }

  lemma HoldsNew(key: Keying, events: seq<Event>, order: seq<DedupKey>, merged: map<DedupKey, Event>, e: Event)
    requires Holds(key, events, order, merged) && key(e) !in merged
    ensures Holds(key, events + [e], order + [key(e)], merged[key(e) := e])
  {
    var all := events + [e];
    assert all[..|events|] == events;
    HasKeySnoc(key, events, e);
    var f := Firsts(key, events);
    assert Firsts(key, all) == f + [e];
    FirstsCoverKeys(key, events);
    forall i | 0 <= i < |f| ensures key(f[i]) != key(e) && Combined(key, all, f[i]) == Combined(key, events, f[i]) {
      assert HasKey(key, f, key(f[i]));
      CombinedSnoc(key, events, e, f[i]);
    }
    NoKeyNoOccurrences(key, events, key(e));
    NoKeyNoEvidence(key, events, e);
    CombinedSnoc(key, events, e, e);
  }

  lemma HoldsMerge(key: Keying, events: seq<Event>, order: seq<DedupKey>, merged: map<DedupKey, Event>, e: Event)
    requires Holds(key, events, order, merged) && key(e) in merged
    ensures Holds(key, events + [e], order, merged[key(e) := Merge(merged[key(e)], e)])
  {
    var all := events + [e];
    assert all[..|events|] == events;
    HasKeySnoc(key, events, e);
    var f := Firsts(key, events);
    assert Firsts(key, all) == f;
    forall i | 0 <= i < |f| { CombinedSnoc(key, events, e, f[i]); }
  }

  lemma FirstsSnoc(key: Keying, events: seq<Event>, e: Event, merged: seq<Event>)
    requires multiset(events) == multiset(Firsts(key, events)) + multiset(merged)
    ensures multiset(events + [e]) == multiset(Firsts(key, events + [e]))
              + multiset(if HasKey(key, events, key(e)) then merged + [e] else merged)
  {
    assert (events + [e])[..|events|] == events;
  }

  /** The loop of `_deduplicate_events`; `merged` lists the events it counts as deduplicated. */
  method Deduplicate(key: Keying, events: seq<Event>) returns (result: seq<Event>, merged: seq<Event>)
    ensures result == Deduplicated(key, events)
    ensures multiset(events) == multiset(Firsts(key, events)) + multiset(merged)
  {
    var kept: map<DedupKey, Event> := map[];
    var order: seq<DedupKey> := [];
    merged := [];
    for i := 0 to |events|
      invariant Holds(key, events[..i], order, kept)
      invariant multiset(events[..i]) == multiset(Firsts(key, events[..i])) + multiset(merged)
    {
      var e := events[i];
      var k := key(e);
      assert events[..i + 1] == events[..i] + [e];
      FirstsSnoc(key, events[..i], e, merged);
      if k !in kept {
        HoldsNew(key, events[..i], order, kept, e);
        kept := kept[k := e];
        order := order + [k];
      } else {
        HoldsMerge(key, events[..i], order, kept, e);
        kept := kept[k := Merge(kept[k], e)];
        merged := merged + [e];
      }
    }
    assert events[..|events|] == events;
    result := seq(|order|, i requires 0 <= i < |order| && order[i] in kept => kept[order[i]]);
  }
}
