/** The normalized event that every stage of the pipeline handles. */
module Events {
  import opened Wrappers
  import opened Order
  import opened Seqs

  /** A normalized record (normalize.py `_event`). Optional texts follow the source: an absent
      field and an empty text are different values that are both "not there". */
  datatype Event = Event(
    id: string,
    source: string,
    node: Option<string>,
    namespace: Option<string>,
    pod: Option<string>,
    container: Option<string>,
    component: Option<string>,
    timestamp: Option<string>,
    epoch: Option<real>,
    inferred: bool,
    occurrences: nat,
    categories: seq<string>,
    fingerprint: string,
    evidence: string,
    duplicateEvidence: seq<string>)

  /** Python truthiness of an optional text. */
  predicate Present(text: Option<string>) {
    text.Some? && text.value != ""
  }

  ghost predicate DistinctIds(events: seq<Event>) {
    forall i, j :: 0 <= i < j < |events| ==> events[i].id != events[j].id
  }

  function Epoch(e: Event): real {
    if e.epoch.Some? then e.epoch.value else 0.0
  }

  /** Events are sorted by their time and then by their id; an event without a time counts as the earliest. */
  predicate EventLeq(a: Event, b: Event) {
    Epoch(a) < Epoch(b) || (Epoch(a) == Epoch(b) && StrLeq(a.id, b.id))
  }

  lemma EventLeqIsPreorder()
    ensures Preorder(EventLeq)
  {
    StrLeqIsTotalOrder();
  }

  /** In order of time, a missing time counting as zero, and in order of ids within one time. */
  ghost predicate InTimeOrder(events: seq<Event>) {
    forall i, j :: 0 <= i < j < |events| ==>
      var s := if events[i].epoch.Some? then events[i].epoch.value else 0.0;
      var t := if events[j].epoch.Some? then events[j].epoch.value else 0.0;
      s <= t && (s == t ==> StrLeq(events[i].id, events[j].id))
  }

  lemma SortedIsInTimeOrder(events: seq<Event>)
    requires Sorted(EventLeq, events)
    ensures InTimeOrder(events)
  {
    forall i, j | 0 <= i < j < |events| ensures EventLeq(events[i], events[j]) {}
  }

  lemma EventLeqTies(a: Event, b: Event)
    requires EventLeq(a, b) && EventLeq(b, a)
    ensures a.id == b.id
  {
    StrLeqIsTotalOrder();
  }

  lemma {:induction false} FilterDistinctIds(p: Event -> bool, events: seq<Event>)
    requires DistinctIds(events)
    ensures DistinctIds(Filter(p, events))
  {
    if events != [] {
      assert forall i :: 0 <= i < |events[1..]| ==> events[1..][i] == events[i + 1];
      FilterDistinctIds(p, events[1..]);
      forall e | e in Filter(p, events[1..]) ensures e.id != events[0].id {
        assert e in events[1..];
      }
    }
  }

  lemma DistinctIdsPermutation(a: seq<Event>, b: seq<Event>)
    requires DistinctIds(a) && multiset(a) == multiset(b)
    ensures DistinctIds(b)
  {
    PermutationDistinct(a, b);
    forall i, j | 0 <= i < j < |b| ensures b[i].id != b[j].id {
      assert b[i] in a && b[j] in a && b[i] != b[j];
      var k :| 0 <= k < |a| && a[k] == b[i];
      var l :| 0 <= l < |a| && a[l] == b[j];
    }
  }

  ghost predicate IdsIdentify(events: seq<Event>) {
    forall a, b :: a in events && b in events && a.id == b.id ==> a == b
  }

  lemma DistinctIdsIdentify(events: seq<Event>)
    requires DistinctIds(events)
    ensures IdsIdentify(events) && Distinct(events)
  {
    forall a, b | a in events && b in events && a.id == b.id ensures a == b {
      var i :| 0 <= i < |events| && events[i] == a;
      var j :| 0 <= j < |events| && events[j] == b;
      assert i == j;
    }
  }
}
