/** The bounded fingerprint table of normalize.py: weighted Space-Saving with guaranteed bounds. */
module HeavyHitters {
  import opened Order

  /** A table key: (component or source, fingerprint of the message template). */
  datatype Key = Key(component: string, fingerprint: string)

  /** `count` is the published upper bound, `error` the count inherited from the evicted entry. */
  datatype Entry = Entry(count: nat, error: nat)

  type Table = map<Key, Entry>

  datatype Hit = Hit(key: Key, weight: nat)

  // --- the eviction rule ----------------------------------------------------

  /** Python's tuple order on keys. */
  predicate KeyLeq(a: Key, b: Key) {
    if a.component == b.component then StrLeq(a.fingerprint, b.fingerprint)
    else StrLeq(a.component, b.component)
  }

  /** The order of the eviction: smallest count first, the key breaks ties. */
  predicate EvictBefore(t: Table, a: Key, b: Key)
    requires a in t && b in t
  {
    t[a].count < t[b].count || (t[a].count == t[b].count && KeyLeq(a, b))
  }

  ghost predicate IsVictim(t: Table, v: Key) {
    v in t && forall k :: k in t ==> EvictBefore(t, v, k)
  }

  lemma KeyLeqIsTotalOrder()
    ensures TotalOrder(KeyLeq)
  {
    StrLeqIsTotalOrder();
  }

  lemma VictimUnique(t: Table, v: Key, w: Key)
    requires IsVictim(t, v) && IsVictim(t, w)
    ensures v == w
  {
    KeyLeqIsTotalOrder();
    assert EvictBefore(t, v, w) && EvictBefore(t, w, v);
  }

  lemma {:induction false} HasVictim(t: Table, ks: set<Key>)
    requires ks <= t.Keys && ks != {}
    ensures exists v :: v in ks && forall k :: k in ks ==> EvictBefore(t, v, k)
    decreases |ks|
  {
    KeyLeqIsTotalOrder();
    var x :| x in ks;
    var rest := ks - {x};
    if rest == {} {
      assert ks == {x};
    } else {
      HasVictim(t, rest);
      var m :| m in rest && forall k :: k in rest ==> EvictBefore(t, m, k);
      var v := if EvictBefore(t, m, x) then m else x;
      forall k | k in ks ensures EvictBefore(t, v, k) { assert k == x || k in rest; }
    }
  }

  ghost function Victim(t: Table): (v: Key)
    requires t != map[]
    ensures IsVictim(t, v)
  {
    HasVictim(t, t.Keys);
    var v :| v in t.Keys && forall k :: k in t.Keys ==> EvictBefore(t, v, k);
    v
  }

  // --- one insertion, and a run of them -----------------------------------------

  ghost predicate Evicts(t: Table, capacity: nat, k: Key) {
    k !in t && |t| >= capacity
  }

  /** What one weighted record does to the table. */
  ghost function Record(t: Table, capacity: nat, k: Key, weight: nat): Table
    requires 0 < capacity
  {
    if k in t then t[k := t[k].(count := t[k].count + weight)]
    else if |t| >= capacity then
      var v := Victim(t);
      (t - {v})[k := Entry(t[v].count + weight, t[v].count)]
    else t[k := Entry(weight, 0)]
  }

  ghost function Run(h: seq<Hit>, capacity: nat): Table
    requires 0 < capacity
  {
    if h == [] then map[]
    else
      var last := h[|h| - 1];
      Record(Run(h[..|h| - 1], capacity), capacity, last.key, last.weight)
  }

  /** The evictions of a run: the statistic `unknown_fingerprint_replacements`. */
  ghost function Replacements(h: seq<Hit>, capacity: nat): nat
    requires 0 < capacity
  {
    if h == [] then 0
    else
      var front := h[..|h| - 1];
      Replacements(front, capacity) + if Evicts(Run(front, capacity), capacity, h[|h| - 1].key) then 1 else 0
  }

  // --- the truth the table approximates -----------------------------------------

  function Weight(h: seq<Hit>, k: Key): nat {
    if h == [] then 0
    else Weight(h[..|h| - 1], k) + if h[|h| - 1].key == k then h[|h| - 1].weight else 0
  }

  function Total(h: seq<Hit>): nat {
    if h == [] then 0 else Total(h[..|h| - 1]) + h[|h| - 1].weight
  }

  ghost function Sum(t: Table): nat
    decreases |t|
  {
    if t == map[] then 0
    else var k :| k in t; t[k].count + Sum(t - {k})
  }

  lemma {:induction false} SumRemove(t: Table, k: Key)
    requires k in t
    ensures Sum(t) == t[k].count + Sum(t - {k})
    decreases |t|
  {
    var x :| x in t && Sum(t) == t[x].count + Sum(t - {x});
    if x != k {
      SumRemove(t - {x}, k);
      SumRemove(t - {k}, x);
      assert t - {x} - {k} == t - {k} - {x};
    }
  }

  lemma SumAdd(t: Table, k: Key, e: Entry)
    requires k !in t
    ensures Sum(t[k := e]) == Sum(t) + e.count
  {
    SumRemove(t[k := e], k);
    assert t[k := e] - {k} == t;
  }

  lemma SumSet(t: Table, k: Key, e: Entry)
    requires k in t
    ensures Sum(t[k := e]) == Sum(t) - t[k].count + e.count
  {
    SumRemove(t, k);
    SumRemove(t[k := e], k);
    assert t[k := e] - {k} == t - {k};
  }

  lemma OneMore(n: nat, least: nat)
    requires 0 < n
    ensures n * least == (n - 1) * least + least
  {
  }

  lemma RemoveOne(t: Table, k: Key)
    requires k in t
    ensures |t - {k}| == |t| - 1
  {
    assert (t - {k}).Keys == t.Keys - {k};
    assert |(t - {k}).Keys| == |t.Keys| - 1;
  }

  lemma AddOne(t: Table, k: Key, e: Entry)
    requires k !in t
    ensures |t[k := e]| == |t| + 1
  {
    RemoveOne(t[k := e], k);
    assert t[k := e] - {k} == t;
  }

  lemma {:induction false} SumAtLeast(t: Table, least: nat)
    requires forall k :: k in t ==> least <= t[k].count
    ensures |t| * least <= Sum(t)
    decreases |t|
  {
    if t == map[] {
      assert |t| == 0;
    } else {
      var k :| k in t;
      SumRemove(t, k);
      RemoveOne(t, k);
      SumAtLeast(t - {k}, least);
      OneMore(|t|, least);
    }
  }

  // --- the invariant of every run -------------------------------------------------

  /** What holds between the table and the whole stream inserted so far. */
  ghost predicate Sound(h: seq<Hit>, capacity: nat, t: Table) {
    && |t| <= capacity
    && Sum(t) == Total(h)
    && (forall k :: k in t ==> t[k].error <= t[k].count && t[k].count - t[k].error <= Weight(h, k) <= t[k].count)
    && (forall k, j :: k !in t && j in t ==> Weight(h, k) <= t[j].count)
    && (|t| < capacity ==> forall k :: k !in t ==> Weight(h, k) == 0)
  }

  lemma RecordSoundHit(h: seq<Hit>, capacity: nat, t: Table, k: Key, w: nat)
    requires 0 < capacity && Sound(h, capacity, t) && k in t
    ensures Sound(h + [Hit(k, w)], capacity, Record(t, capacity, k, w))
  {
    var h' := h + [Hit(k, w)];
    assert h'[..|h|] == h;
    var t' := Record(t, capacity, k, w);
    SumSet(t, k, t'[k]);
    assert t'.Keys == t.Keys;
  }

  lemma RecordSoundNew(h: seq<Hit>, capacity: nat, t: Table, k: Key, w: nat)
    requires 0 < capacity && Sound(h, capacity, t) && k !in t && |t| < capacity
    ensures Sound(h + [Hit(k, w)], capacity, Record(t, capacity, k, w))
  {
    var h' := h + [Hit(k, w)];
    assert h'[..|h|] == h;
    SumAdd(t, k, Entry(w, 0));
    AddOne(t, k, Entry(w, 0));
  }

  /** An eviction hands the count of the victim on to the new entry, so only the weight is added. */
  lemma EvictCounts(t: Table, capacity: nat, k: Key, w: nat)
    requires t != map[] && k !in t && |t| >= capacity > 0
    ensures Sum(Record(t, capacity, k, w)) == Sum(t) + w
    ensures |Record(t, capacity, k, w)| == |t|
  {
    var v := Victim(t);
    var base := t - {v};
    var e := Entry(t[v].count + w, t[v].count);
    SumRemove(t, v);
    SumAdd(base, k, e);
    RemoveOne(t, v);
    AddOne(base, k, e);
  }

  lemma WeightNext(h: seq<Hit>, k: Key, w: nat, j: Key)
    ensures Weight(h + [Hit(k, w)], j) == Weight(h, j) + if j == k then w else 0
    ensures Total(h + [Hit(k, w)]) == Total(h) + w
  {
    assert (h + [Hit(k, w)])[..|h|] == h;
  }

  /** The bounds of every entry after an eviction; the new entry inherits what the victim may hide. */
  lemma EvictBounds(h: seq<Hit>, capacity: nat, t: Table, k: Key, w: nat, j: Key)
    requires 0 < capacity && Sound(h, capacity, t) && k !in t && |t| >= capacity && j in Record(t, capacity, k, w)
    ensures var e := Record(t, capacity, k, w)[j];
            e.error <= e.count && e.count - e.error <= Weight(h + [Hit(k, w)], j) <= e.count
    ensures t[Victim(t)].count <= Record(t, capacity, k, w)[j].count
  {
    WeightNext(h, k, w, j);
    assert j in t ==> EvictBefore(t, Victim(t), j);
  }

  lemma EvictAbsent(h: seq<Hit>, capacity: nat, t: Table, k: Key, w: nat, a: Key)
    requires 0 < capacity && Sound(h, capacity, t) && k !in t && |t| >= capacity && a !in Record(t, capacity, k, w)
    ensures Weight(h + [Hit(k, w)], a) <= t[Victim(t)].count
  {
    WeightNext(h, k, w, a);
    assert a == Victim(t) || a !in t;
  }

  lemma RecordSoundEvict(h: seq<Hit>, capacity: nat, t: Table, k: Key, w: nat)
    requires 0 < capacity && Sound(h, capacity, t) && k !in t && |t| >= capacity
    ensures Sound(h + [Hit(k, w)], capacity, Record(t, capacity, k, w))
  {
    var h', t' := h + [Hit(k, w)], Record(t, capacity, k, w);
    EvictCounts(t, capacity, k, w);
    WeightNext(h, k, w, k);
    forall j | j in t'
      ensures t'[j].error <= t'[j].count && t'[j].count - t'[j].error <= Weight(h', j) <= t'[j].count
      ensures t[Victim(t)].count <= t'[j].count
    {
      EvictBounds(h, capacity, t, k, w, j);
    }
    forall a | a !in t' ensures Weight(h', a) <= t[Victim(t)].count {
      EvictAbsent(h, capacity, t, k, w, a);
    }
  }

  /** The invariant holds after every sequence of weighted insertions. */
  lemma {:induction false} RunSound(h: seq<Hit>, capacity: nat)
    requires 0 < capacity
    ensures Sound(h, capacity, Run(h, capacity))
  {
    if h != [] {
      var front, last := h[..|h| - 1], h[|h| - 1];
      RunSound(front, capacity);
      var t := Run(front, capacity);
      assert h == front + [Hit(last.key, last.weight)];
      if last.key in t { RecordSoundHit(front, capacity, t, last.key, last.weight); }
      else if |t| < capacity { RecordSoundNew(front, capacity, t, last.key, last.weight); }
      else { RecordSoundEvict(front, capacity, t, last.key, last.weight); }
    }
  }

  lemma VictimShare(h: seq<Hit>, capacity: nat, t: Table)
    requires 0 < capacity && Sound(h, capacity, t) && |t| >= capacity
    ensures t != map[] && t[Victim(t)].count * capacity <= Total(h)
  {
    var least := t[Victim(t)].count;
    assert forall j :: j in t ==> EvictBefore(t, Victim(t), j);
    SumAtLeast(t, least);
    assert |t| == capacity;
  }

  /** No inherited error exceeds an equal share of the stream. */
  lemma {:induction false} ErrorWithinShare(h: seq<Hit>, capacity: nat, k: Key)
    requires 0 < capacity && k in Run(h, capacity)
    ensures Run(h, capacity)[k].error * capacity <= Total(h)
  {
    var front, last := h[..|h| - 1], h[|h| - 1];
    var t := Run(front, capacity);
    RunSound(front, capacity);
    if k in t && !(k == last.key && Evicts(t, capacity, k)) {
      ErrorWithinShare(front, capacity, k);
    } else if Evicts(t, capacity, last.key) {
      VictimShare(front, capacity, t);
    }
  }

  // --- what is published ------------------------------------------------------------

  /** `occurrence_range` and `count_is_exact` of a published fingerprint. */
  datatype Published = Published(minimum: nat, maximum: nat, exact: bool)

  function Finalize(e: Entry): Published {
    var lower := if e.count < e.error then 0 else e.count - e.error;
    Published(lower, e.count, lower == e.count)
  }

  /** The published range contains the truth, and a count called exact is exact. */
  lemma PublishedRangeIsTrue(h: seq<Hit>, capacity: nat, k: Key)
    requires 0 < capacity && k in Run(h, capacity)
    ensures var p := Finalize(Run(h, capacity)[k]);
            && p.minimum <= Weight(h, k) <= p.maximum
            && (p.exact ==> Weight(h, k) == p.maximum)
            && (p.exact <==> Run(h, capacity)[k].error == 0)
            && (p.maximum - p.minimum) * capacity <= Total(h)
  {
    RunSound(h, capacity);
    ErrorWithinShare(h, capacity, k);
    assert Finalize(Run(h, capacity)[k]).maximum - Finalize(Run(h, capacity)[k]).minimum == Run(h, capacity)[k].error;
  }

  /** Counts are never lost, whatever was evicted and inserted again. */
  lemma CountsConserved(h: seq<Hit>, capacity: nat)
    requires 0 < capacity
    ensures Sum(Run(h, capacity)) == Total(h) && |Run(h, capacity)| <= capacity
  {
    RunSound(h, capacity);
  }

  lemma AbsentIsLight(h: seq<Hit>, capacity: nat, t: Table, k: Key)
    requires Sound(h, capacity, t) && k !in t
    ensures Weight(h, k) * capacity <= Total(h)
  {
    var w := Weight(h, k);
    if |t| < capacity {
      assert w == 0;
    } else {
      assert forall j :: j in t ==> w <= t[j].count;
      SumAtLeast(t, w);
      assert |t| == capacity;
      assert w * capacity == |t| * w;
    }
  }

  /** No heavy hitter is missed: a key with more than its share of the stream is in the table. */
  lemma HeavyKeyIsRetained(h: seq<Hit>, capacity: nat, k: Key)
    requires 0 < capacity && Weight(h, k) * capacity > Total(h)
    ensures k in Run(h, capacity)
  {
    RunSound(h, capacity);
    if k !in Run(h, capacity) {
      AbsentIsLight(h, capacity, Run(h, capacity), k);
    }
  }

  // --- streams with few fingerprints --------------------------------------------------

  ghost function KeysOf(h: seq<Hit>): set<Key> {
    set i | 0 <= i < |h| :: h[i].key
  }

  /** The table is the histogram of the stream, without errors. */
  ghost predicate IsHistogram(h: seq<Hit>, t: Table) {
    t.Keys == KeysOf(h) && forall k :: k in t ==> t[k] == Entry(Weight(h, k), 0)
  }

  lemma KeysNext(front: seq<Hit>, last: Hit)
    ensures KeysOf(front + [last]) == KeysOf(front) + {last.key}
    ensures forall k :: Weight(front + [last], k) == Weight(front, k) + if k == last.key then last.weight else 0
  {
    var h := front + [last];
    assert h[..|front|] == front;
    forall k ensures k in KeysOf(h) <==> k in KeysOf(front) || k == last.key {
      if k in KeysOf(front) {
        var i :| 0 <= i < |front| && front[i].key == k;
        assert h[i].key == k;
      }
      if k == last.key { assert h[|front|].key == k; }
    }
  }

  /** While all fingerprints fit, a new one finds a free place and starts without an error. */
  lemma HistogramNext(front: seq<Hit>, last: Hit, capacity: nat, t: Table)
    requires 0 < capacity && IsHistogram(front, t) && |KeysOf(front) + {last.key}| <= capacity
    ensures !Evicts(t, capacity, last.key)
    ensures IsHistogram(front + [last], Record(t, capacity, last.key, last.weight))
  {
    KeysNext(front, last);
    assert |t| == |t.Keys|;
    if last.key !in t {
      AbsentWeight(front, last.key);
      assert |KeysOf(front) + {last.key}| == |KeysOf(front)| + 1;
    } else {
      assert KeysOf(front) + {last.key} == KeysOf(front);
    }
  }

  /** With no more distinct fingerprints than places the table is the exact histogram,
      and nothing was ever evicted. */
  lemma {:induction false} FewFingerprintsExact(h: seq<Hit>, capacity: nat)
    requires 0 < capacity && |KeysOf(h)| <= capacity
    ensures Run(h, capacity).Keys == KeysOf(h)
    ensures forall k :: k in Run(h, capacity) ==> Run(h, capacity)[k] == Entry(Weight(h, k), 0)
    ensures Replacements(h, capacity) == 0
  {
    if h != [] {
      var front, last := h[..|h| - 1], h[|h| - 1];
      assert h == front + [last];
      KeysNext(front, last);
      SubsetSmaller(KeysOf(front), KeysOf(h));
      FewFingerprintsExact(front, capacity);
      HistogramNext(front, last, capacity, Run(front, capacity));
    }
  }

  lemma {:induction false} AbsentWeight(h: seq<Hit>, k: Key)
    requires k !in KeysOf(h)
    ensures Weight(h, k) == 0
  {
    if h != [] {
      assert h[|h| - 1].key in KeysOf(h);
      assert forall i :: 0 <= i < |h| - 1 ==> h[i].key in KeysOf(h);
      AbsentWeight(h[..|h| - 1], k);
    }
  }
}
