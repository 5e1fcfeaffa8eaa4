/** The pipeline of normalize.py: `_append` over all records, then the stages of `normalize_evidence`. */
module Normalize {
  import opened Order
  import opened Seqs
  import opened Wrappers
  import opened Events
  import HH = HeavyHitters
  import Dedup = Deduplication
  import FL = FairLimit

  /** The limits, the incident window, and the pattern matchers, which are left uninterpreted. */
  datatype Config = Config(
    insight: Event -> bool,
    smoke: Event -> bool,
    windowStart: Option<real>,
    windowEnd: Option<real>,
    candidateLimit: nat,
    tableLimit: nat,
    outputLimit: nat,
    collectCgroup: bool)

  /** One call of `_append`; `tracked` is false where the caller passes a throw-away table. */
  datatype Rec = Rec(event: Event, tracked: bool)

  datatype Stats = Stats(
    input: nat,
    categorized: nat,
    uncategorized: nat,
    dropped: nat,
    replacements: nat,
    cgroup: nat,
    smoke: nat,
    candidateDrops: nat,
    outputDrops: nat,
    merged: nat,
    windowFiltered: nat,
    sources: multiset<string>,
    categories: multiset<string>,
    droppedBySource: multiset<string>,
    truncated: bool)

  const NO_STATS := Stats(0, 0, 0, 0, 0, 0, 0, 0, 0, 0, 0, multiset{}, multiset{}, multiset{}, false)

  // --- what becomes of a record -----------------------------------------------------------

  datatype Fate = OutsideWindow | Smoke | Uncategorized | Categorized

  function FateOf(cfg: Config, e: Event): Fate {
    if !e.inferred && e.epoch.Some?
       && ((cfg.windowStart.Some? && e.epoch.value < cfg.windowStart.value)
           || (cfg.windowEnd.Some? && e.epoch.value > cfg.windowEnd.value)) then OutsideWindow
    else if cfg.smoke(e) then Smoke
    else if e.categories == [] then Uncategorized
    else Categorized
  }

  predicate Tracks(cfg: Config, r: Rec) {
    var fate := FateOf(cfg, r.event);
    r.tracked && (fate == Uncategorized || (fate == Categorized && cfg.insight(r.event)))
  }

  /** How often a record counts: as often as it occurred, and at least once. */
  function Amount(e: Event): nat {
    if e.occurrences == 0 then 1 else e.occurrences
  }

  function HitOf(e: Event): HH.Hit {
    HH.Hit(HH.Key(if Present(e.component) then e.component.value else e.source, e.fingerprint),
           Amount(e))
  }

  // --- what a whole stream of records adds up to --------------------------------------------

  function Tally(f: Rec -> nat, s: seq<Rec>): nat {
    if s == [] then 0 else Tally(f, s[..|s| - 1]) + f(s[|s| - 1])
  }

  function Ones(p: Rec -> bool): Rec -> nat {
    (r: Rec) => if p(r) then 1 else 0
  }

  function HasFate(cfg: Config, fate: Fate): Rec -> bool {
    (r: Rec) => FateOf(cfg, r.event) == fate
  }

  function From(src: string): Rec -> bool {
    (r: Rec) => r.event.source == src
  }

  function FateFrom(cfg: Config, fate: Fate, src: string): Rec -> bool {
    (r: Rec) => FateOf(cfg, r.event) == fate && r.event.source == src
  }

  function OccurrencesIf(cfg: Config, fate: Fate): Rec -> nat {
    (r: Rec) => if FateOf(cfg, r.event) == fate then Amount(r.event) else 0
  }

  function SourceIs(src: string): Event -> bool {
    (e: Event) => e.source == src
  }

  function CategorizedEvents(cfg: Config, s: seq<Rec>): seq<Event> {
    if s == [] then []
    else
      var front, last := s[..|s| - 1], s[|s| - 1];
      if FateOf(cfg, last.event) == Categorized then CategorizedEvents(cfg, front) + [last.event]
      else CategorizedEvents(cfg, front)
  }

  function CategoryRecords(events: seq<Event>): multiset<string> {
    if events == [] then multiset{}
    else CategoryRecords(events[..|events| - 1]) + multiset(events[|events| - 1].categories)
  }

  function Hits(cfg: Config, s: seq<Rec>): seq<HH.Hit> {
    if s == [] then []
    else
      var front, last := s[..|s| - 1], s[|s| - 1];
      if Tracks(cfg, last) then Hits(cfg, front) + [HitOf(last.event)] else Hits(cfg, front)
  }

  /** The first `n` elements, or all of them. */
  function Take<T>(s: seq<T>, n: nat): seq<T> {
    if |s| <= n then s else s[..n]
  }

  /** The records of a source that no counter of dropped records mentions. */
  function Unlisted(cfg: Config, s: seq<Rec>, src: string): nat {
    Tally(Ones(FateFrom(cfg, Smoke, src)), s) + Tally(Ones(FateFrom(cfg, Uncategorized, src)), s)
  }

  datatype State = State(events: seq<Event>, unknown: HH.Table, stats: Stats)

  ghost predicate FateCounters(cfg: Config, s: seq<Rec>, st: Stats) {
    && st.input == |s|
    && st.windowFiltered == Tally(OccurrencesIf(cfg, OutsideWindow), s)
    && st.smoke == Tally(OccurrencesIf(cfg, Smoke), s)
    && st.uncategorized == Tally(Ones(HasFate(cfg, Uncategorized)), s)
  }

  ghost predicate CategoryCounters(cfg: Config, s: seq<Rec>, st: Stats) {
    && st.categorized == |CategorizedEvents(cfg, s)|
    && st.categories == CategoryRecords(CategorizedEvents(cfg, s))
  }

  ghost predicate SourceCounters(s: seq<Rec>, st: Stats) {
    forall src :: st.sources[src] == Tally(Ones(From(src)), s)
  }

  /** The counters that do not depend on the limits. */
  ghost predicate PlainCounters(cfg: Config, s: seq<Rec>, st: Stats) {
    && FateCounters(cfg, s, st) && CategoryCounters(cfg, s, st) && SourceCounters(s, st)
    && st.cgroup == 0 && st.merged == 0 && st.outputDrops == 0
  }

  /** The candidate list and the counters of its limit. */
  ghost predicate Candidates(cfg: Config, s: seq<Rec>, events: seq<Event>, st: Stats) {
    var all := CategorizedEvents(cfg, s);
    && events == Take(all, cfg.candidateLimit)
    && st.candidateDrops == st.dropped == |all| - |events|
    && (st.truncated <==> st.dropped > 0)
    && (forall src :: st.droppedBySource[src] + Count(SourceIs(src), events)
                      == Tally(Ones(FateFrom(cfg, OutsideWindow, src)), s) + Count(SourceIs(src), all))
  }

  /** The fingerprint table is the Space-Saving table of the tracked records. */
  ghost predicate Fingerprints(cfg: Config, s: seq<Rec>, unknown: HH.Table, st: Stats)
    requires 0 < cfg.tableLimit
  {
    && unknown == HH.Run(Hits(cfg, s), cfg.tableLimit)
    && st.replacements == HH.Replacements(Hits(cfg, s), cfg.tableLimit)
  }

  /** The state after `_append` was called on every record of `s`. */
  ghost predicate Appended(cfg: Config, s: seq<Rec>, st: State)
    requires 0 < cfg.tableLimit
  {
    && PlainCounters(cfg, s, st.stats)
    && Candidates(cfg, s, st.events, st.stats)
    && Fingerprints(cfg, s, st.unknown, st.stats)
  }

  /** What one call of `_append` does to the counters, the candidates and the table. */
  ghost predicate CounterStep(cfg: Config, r: Rec, st: Stats, st': Stats) {
    var e := r.event; var fate := FateOf(cfg, e);
    && st'.input == st.input + 1
    && st'.windowFiltered == st.windowFiltered + (if fate == OutsideWindow then Amount(e) else 0)
    && st'.smoke == st.smoke + (if fate == Smoke then Amount(e) else 0)
    && st'.uncategorized == st.uncategorized + (if fate == Uncategorized then 1 else 0)
    && st'.categorized == st.categorized + (if fate == Categorized then 1 else 0)
    && st'.categories == (if fate == Categorized then st.categories + multiset(e.categories) else st.categories)
    && st'.sources == st.sources + multiset{e.source}
    && st'.cgroup == st.cgroup && st'.merged == st.merged && st'.outputDrops == st.outputDrops
  }

  ghost predicate CandidateStep(cfg: Config, r: Rec, events: seq<Event>, st: Stats, events': seq<Event>, st': Stats) {
    var fate := FateOf(cfg, r.event);
    var fits := fate == Categorized && |events| < cfg.candidateLimit;
    var drops := fate == Categorized && |events| >= cfg.candidateLimit;
    && events' == (if fits then events + [r.event] else events)
    && st'.candidateDrops == st.candidateDrops + (if drops then 1 else 0)
    && st'.dropped == st.dropped + (if drops then 1 else 0)
    && st'.truncated == (st.truncated || drops)
    && st'.droppedBySource == (if drops || fate == OutsideWindow then st.droppedBySource + multiset{r.event.source}
                               else st.droppedBySource)
  }

  ghost predicate TableStep(cfg: Config, r: Rec, unknown: HH.Table, st: Stats, unknown': HH.Table, st': Stats)
    requires 0 < cfg.tableLimit
  {
    var hit := HitOf(r.event);
    if Tracks(cfg, r) then
      && unknown' == HH.Record(unknown, cfg.tableLimit, hit.key, hit.weight)
      && st'.replacements == st.replacements + (if HH.Evicts(unknown, cfg.tableLimit, hit.key) then 1 else 0)
    else unknown' == unknown && st'.replacements == st.replacements
  }

  lemma CategorizedNext(cfg: Config, s: seq<Rec>, r: Rec)
    ensures CategorizedEvents(cfg, s + [r])
            == CategorizedEvents(cfg, s) + if FateOf(cfg, r.event) == Categorized then [r.event] else []
  {
    var s' := s + [r];
    assert s'[..|s|] == s && s'[|s|] == r;
  }

  // --- the same in terms of the fields ---------------------------------------------------------

  /** Is the time of the event inside the incident window, or not measured at all? */
  predicate InWindow(cfg: Config, e: Event) {
    e.inferred || e.epoch.None?
    || ((cfg.windowStart.None? || cfg.windowStart.value <= e.epoch.value)
        && (cfg.windowEnd.None? || e.epoch.value <= cfg.windowEnd.value))
  }

  predicate Passes(cfg: Config, e: Event) {
    InWindow(cfg, e) && !cfg.smoke(e)
  }

  /** A record that counts as an event: it passes, and has a category. */
  predicate IsEvent(cfg: Config, e: Event) {
    Passes(cfg, e) && e.categories != []
  }

  function EventRecord(cfg: Config): Rec -> nat {
    (r: Rec) => if Passes(cfg, r.event) && r.event.categories != [] then 1 else 0
  }

  function PlainRecord(cfg: Config): Rec -> nat {
    (r: Rec) => if Passes(cfg, r.event) && r.event.categories == [] then 1 else 0
  }

  function OutsideAmount(cfg: Config): Rec -> nat {
    (r: Rec) => if InWindow(cfg, r.event) then 0 else if r.event.occurrences == 0 then 1 else r.event.occurrences
  }

  function SmokeAmount(cfg: Config): Rec -> nat {
    (r: Rec) => if !InWindow(cfg, r.event) || Passes(cfg, r.event) then 0
                else if r.event.occurrences == 0 then 1 else r.event.occurrences
  }

  /** A record whose message is tracked: it passes, and is without a category or an insight. */
  predicate IsTracked(cfg: Config, r: Rec) {
    r.tracked && Passes(cfg, r.event) && (r.event.categories == [] || cfg.insight(r.event))
  }

  function AmountTracked(cfg: Config, r: Rec): nat {
    if !IsTracked(cfg, r) then 0 else if r.event.occurrences == 0 then 1 else r.event.occurrences
  }

  function TrackedAmount(cfg: Config): Rec -> nat {
    (r: Rec) => AmountTracked(cfg, r)
  }

  /** Does the record go under this key: its component, or its source, and its fingerprint? */
  predicate Under(r: Rec, k: HH.Key) {
    && k.fingerprint == r.event.fingerprint
    && k.component == if r.event.component.Some? && r.event.component.value != "" then r.event.component.value
                      else r.event.source
  }

  function AmountUnder(cfg: Config, k: HH.Key): Rec -> nat {
    (r: Rec) => if Under(r, k) then AmountTracked(cfg, r) else 0
  }

  lemma {:induction false} TallySame(f: Rec -> nat, g: Rec -> nat, s: seq<Rec>)
    requires forall r :: f(r) == g(r)
    ensures Tally(f, s) == Tally(g, s)
  {
    if s != [] { TallySame(f, g, s[..|s| - 1]); }
  }

  lemma FateMeaning(cfg: Config, e: Event)
    ensures FateOf(cfg, e) == OutsideWindow <==> !InWindow(cfg, e)
    ensures FateOf(cfg, e) == Smoke <==> InWindow(cfg, e) && cfg.smoke(e)
    ensures FateOf(cfg, e) == Uncategorized <==> Passes(cfg, e) && e.categories == []
    ensures FateOf(cfg, e) == Categorized <==> IsEvent(cfg, e)
  {
  }

  lemma {:induction false} CategorizedMeaning(cfg: Config, s: seq<Rec>, e: Event)
    ensures e in CategorizedEvents(cfg, s) <==> exists r :: r in s && r.event == e && IsEvent(cfg, e)
    ensures |CategorizedEvents(cfg, s)| == Tally(EventRecord(cfg), s)
  {
    if s != [] {
      var front, last := s[..|s| - 1], s[|s| - 1];
      assert s == front + [last];
      CategorizedMeaning(cfg, front, e);
      FateMeaning(cfg, last.event);
    }
  }

  /** What the last record adds to the stream of tracked messages. */
  lemma LastHit(cfg: Config, s: seq<Rec>, k: HH.Key)
    requires s != []
    ensures var front, last := s[..|s| - 1], s[|s| - 1];
            && HH.Weight(Hits(cfg, s), k)
               == HH.Weight(Hits(cfg, front), k) + (if Under(last, k) then AmountTracked(cfg, last) else 0)
            && HH.Total(Hits(cfg, s)) == HH.Total(Hits(cfg, front)) + AmountTracked(cfg, last)
  {
    var h, last := Hits(cfg, s[..|s| - 1]), s[|s| - 1];
    FateMeaning(cfg, last.event);
    assert Tracks(cfg, last) <==> IsTracked(cfg, last);
    if IsTracked(cfg, last) {
      HH.WeightNext(h, HitOf(last.event).key, HitOf(last.event).weight, k);
      assert Hits(cfg, s) == h + [HitOf(last.event)];
      assert HitOf(last.event).key == k <==> Under(last, k);
    }
  }

  lemma {:induction false} TrackedMeaning(cfg: Config, s: seq<Rec>, k: HH.Key)
    ensures HH.Weight(Hits(cfg, s), k) == Tally(AmountUnder(cfg, k), s)
    ensures HH.Total(Hits(cfg, s)) == Tally(TrackedAmount(cfg), s)
  {
    if s != [] {
      var front, last := s[..|s| - 1], s[|s| - 1];
      TrackedMeaning(cfg, front, k);
      LastHit(cfg, s, k);
      assert AmountUnder(cfg, k)(last) == if Under(last, k) then AmountTracked(cfg, last) else 0;
      assert TrackedAmount(cfg)(last) == AmountTracked(cfg, last);
    }
  }

  /** The counters, in terms of the fields of the records. */
  ghost predicate CountsRecords(cfg: Config, s: seq<Rec>, st: Stats) {
    && st.input == |s|
    && st.categorized == Tally(EventRecord(cfg), s)
    && st.uncategorized == Tally(PlainRecord(cfg), s)
    && st.windowFiltered == Tally(OutsideAmount(cfg), s)
    && st.smoke == Tally(SmokeAmount(cfg), s)
  }

  /** The candidates are records that count as events, and all of them unless the run is marked. */
  ghost predicate HoldsEvents(cfg: Config, s: seq<Rec>, events: seq<Event>, st: Stats) {
    && (forall e :: e in events ==> IsEvent(cfg, e) && exists r :: r in s && r.event == e)
    && (!st.truncated ==> forall r :: r in s && IsEvent(cfg, r.event) ==> r.event in events)
  }

  /** The table encloses the tracked amount of every message it holds, and holds every heavy one. */
  ghost predicate BoundsAmounts(cfg: Config, s: seq<Rec>, unknown: HH.Table) {
    && (forall k :: k in unknown ==>
          unknown[k].count - unknown[k].error <= Tally(AmountUnder(cfg, k), s) <= unknown[k].count)
    && (forall k :: Tally(AmountUnder(cfg, k), s) * cfg.tableLimit > Tally(TrackedAmount(cfg), s) ==> k in unknown)
  }

  lemma CountsMeaning(cfg: Config, s: seq<Rec>, st: Stats)
    requires PlainCounters(cfg, s, st)
    ensures CountsRecords(cfg, s, st)
  {
    forall r: Rec
      ensures Ones(HasFate(cfg, Uncategorized))(r) == PlainRecord(cfg)(r)
      ensures OccurrencesIf(cfg, OutsideWindow)(r) == OutsideAmount(cfg)(r)
      ensures OccurrencesIf(cfg, Smoke)(r) == SmokeAmount(cfg)(r)
    {
      FateMeaning(cfg, r.event);
    }
    TallySame(Ones(HasFate(cfg, Uncategorized)), PlainRecord(cfg), s);
    TallySame(OccurrencesIf(cfg, OutsideWindow), OutsideAmount(cfg), s);
    TallySame(OccurrencesIf(cfg, Smoke), SmokeAmount(cfg), s);
    CategorizedMeaning(cfg, s, Example());
  }

  function Example(): Event {
    Event("", "", None, None, None, None, None, None, None, false, 0, [], "", "", [])
  }

  lemma EventsMeaning(cfg: Config, s: seq<Rec>, events: seq<Event>, st: Stats)
    requires Candidates(cfg, s, events, st)
    ensures HoldsEvents(cfg, s, events, st)
  {
    forall e | e in events ensures IsEvent(cfg, e) && exists r :: r in s && r.event == e {
      CategorizedMeaning(cfg, s, e);
    }
    if !st.truncated {
      forall r | r in s && IsEvent(cfg, r.event) ensures r.event in events { CategorizedMeaning(cfg, s, r.event); }
    }
  }

  lemma TableMeaning(cfg: Config, s: seq<Rec>, unknown: HH.Table, st: Stats)
    requires 0 < cfg.tableLimit && Fingerprints(cfg, s, unknown, st)
    ensures BoundsAmounts(cfg, s, unknown)
  {
    var h := Hits(cfg, s);
    HH.RunSound(h, cfg.tableLimit);
    forall k ensures HH.Weight(h, k) == Tally(AmountUnder(cfg, k), s) && HH.Total(h) == Tally(TrackedAmount(cfg), s) {
      TrackedMeaning(cfg, s, k);
    }
    forall k | Tally(AmountUnder(cfg, k), s) * cfg.tableLimit > Tally(TrackedAmount(cfg), s) ensures k in unknown {
      HH.HeavyKeyIsRetained(h, cfg.tableLimit, k);
    }
  }

  // --- what is published, in terms of the fields ---------------------------------------------------

  /** Two events of one source, place, time, categories and message: duplicates of each other. */
  predicate SameObservation(a: Event, b: Event) {
    && a.source == b.source && a.node == b.node && a.namespace == b.namespace && a.pod == b.pod
    && a.container == b.container && a.timestamp == b.timestamp && a.categories == b.categories
    && a.fingerprint == b.fingerprint
  }

  /** `e` is the record up to what merging adds to it. */
  predicate Represents(e: Event, r: Event) {
    e == r.(occurrences := e.occurrences, duplicateEvidence := e.duplicateEvidence)
  }

  /** Every published event is a record that counts, no two are duplicates, and in an unmarked run every
      record that counts is published or has a published duplicate. */
  ghost predicate Published(cfg: Config, s: seq<Rec>, events: seq<Event>, st: Stats) {
    && (forall e :: e in events ==>
          e.categories != [] && InWindow(cfg, e) && (cfg.collectCgroup || "cgroup_access_denied" !in e.categories)
          && exists r :: r in s && IsEvent(cfg, r.event) && Represents(e, r.event))
    && (forall i, j :: 0 <= i < j < |events| ==> !SameObservation(events[i], events[j]))
    && (!st.truncated ==>
          forall r ::
            && r in s && IsEvent(cfg, r.event)
            && (cfg.collectCgroup || "cgroup_access_denied" !in r.event.categories) ==>
            exists e :: e in events && SameObservation(e, r.event))
  }

  lemma MergedElement(events: seq<Event>, y: Event)
    requires y in Dedup.Deduplicated(Dedup.KeyOf, events)
    ensures exists x :: x in events && Represents(y, x)
  {
    var firsts, result := Dedup.Firsts(Dedup.KeyOf, events), Dedup.Deduplicated(Dedup.KeyOf, events);
    var i :| 0 <= i < |result| && result[i] == y;
    Dedup.FirstsCoverKeys(Dedup.KeyOf, events);
    assert firsts[i] in events && y == Dedup.Combined(Dedup.KeyOf, events, firsts[i]);
    assert Represents(y, firsts[i]);
  }

  lemma MergedCovers(events: seq<Event>, x: Event)
    requires x in events
    ensures exists y :: y in Dedup.Deduplicated(Dedup.KeyOf, events) && SameObservation(y, x)
  {
    var firsts, result := Dedup.Firsts(Dedup.KeyOf, events), Dedup.Deduplicated(Dedup.KeyOf, events);
    Dedup.FirstsCoverKeys(Dedup.KeyOf, events);
    var i :| 0 <= i < |events| && events[i] == x;
    assert Dedup.HasKey(Dedup.KeyOf, events, Dedup.KeyOf(x));
    var j :| 0 <= j < |firsts| && Dedup.KeyOf(firsts[j]) == Dedup.KeyOf(x);
    assert result[j] == Dedup.Combined(Dedup.KeyOf, events, firsts[j]);
    assert SameObservation(result[j], x);
  }

  /** A part of a list without duplicates has none. */
  lemma PartWithoutDuplicates(events: seq<Event>, part: seq<Event>)
    requires Dedup.DistinctKeys(Dedup.KeyOf, events) && multiset(part) <= multiset(events)
    ensures forall i, j :: 0 <= i < j < |part| ==> !SameObservation(part[i], part[j])
  {
    assert Distinct(events);
    SubDistinct(events, part);
    forall i, j | 0 <= i < j < |part| ensures !SameObservation(part[i], part[j]) {
      assert part[i] in multiset(part) && part[j] in multiset(part);
      assert part[i] in multiset(events) && part[j] in multiset(events);
      var k :| 0 <= k < |events| && events[k] == part[i];
      var l :| 0 <= l < |events| && events[l] == part[j];
      assert Dedup.KeyOf(events[k]) != Dedup.KeyOf(events[l]);
    }
  }

  /** The candidates that go into the merging. */
  ghost function Kept(cfg: Config, records: seq<Rec>): seq<Event> {
    var candidates := Take(CategorizedEvents(cfg, records), cfg.candidateLimit);
    if cfg.collectCgroup then candidates else Filter(LacksCgroup, candidates)
  }

  lemma KeptMeaning(cfg: Config, records: seq<Rec>, x: Event)
    requires x in Kept(cfg, records)
    ensures IsEvent(cfg, x) && (cfg.collectCgroup || "cgroup_access_denied" !in x.categories)
    ensures exists r :: r in records && r.event == x
  {
    CategorizedMeaning(cfg, records, x);
  }

  lemma KeptCovers(cfg: Config, records: seq<Rec>, r: Rec)
    requires r in records && IsEvent(cfg, r.event)
    requires cfg.collectCgroup || "cgroup_access_denied" !in r.event.categories
    requires |CategorizedEvents(cfg, records)| <= cfg.candidateLimit
    ensures r.event in Kept(cfg, records)
  {
    CategorizedMeaning(cfg, records, r.event);
  }

  lemma PublishedMeaning(cfg: Config, records: seq<Rec>, events: seq<Event>, st: Stats)
    requires multiset(events) <= multiset(Dedup.Deduplicated(Dedup.KeyOf, Kept(cfg, records)))
    requires !st.truncated ==> |CategorizedEvents(cfg, records)| <= cfg.candidateLimit
                               && multiset(events) == multiset(Dedup.Deduplicated(Dedup.KeyOf, Kept(cfg, records)))
    ensures Published(cfg, records, events, st)
  {
    var merged := Dedup.Deduplicated(Dedup.KeyOf, Kept(cfg, records));
    Dedup.DeduplicatedTwice(Kept(cfg, records));
    PartWithoutDuplicates(merged, events);
    forall e | e in events
      ensures e.categories != [] && InWindow(cfg, e) && (cfg.collectCgroup || "cgroup_access_denied" !in e.categories)
              && exists r :: r in records && IsEvent(cfg, r.event) && Represents(e, r.event)
    {
      assert e in multiset(events) && e in multiset(merged);
      MergedElement(Kept(cfg, records), e);
      var x :| x in Kept(cfg, records) && Represents(e, x);
      KeptMeaning(cfg, records, x);
    }
    if !st.truncated {
      forall r |
        && r in records && IsEvent(cfg, r.event)
        && (cfg.collectCgroup || "cgroup_access_denied" !in r.event.categories)
        ensures exists e :: e in events && SameObservation(e, r.event)
      {
        KeptCovers(cfg, records, r);
        MergedCovers(Kept(cfg, records), r.event);
        var y :| y in merged && SameObservation(y, r.event);
        assert y in multiset(merged) && y in multiset(events);
      }
    }
  }

  lemma TallyNext(f: Rec -> nat, s: seq<Rec>, r: Rec)
    ensures Tally(f, s + [r]) == Tally(f, s) + f(r)
  {
    assert (s + [r])[..|s|] == s;
  }

  lemma CategoriesNext(cfg: Config, s: seq<Rec>, r: Rec)
    ensures CategoryRecords(CategorizedEvents(cfg, s + [r]))
            == CategoryRecords(CategorizedEvents(cfg, s))
               + if FateOf(cfg, r.event) == Categorized then multiset(r.event.categories) else multiset{}
  {
    CategorizedNext(cfg, s, r);
    var all := CategorizedEvents(cfg, s);
    assert (all + [r.event])[..|all|] == all;
  }

  lemma FateCountersNext(cfg: Config, s: seq<Rec>, r: Rec, st: Stats, st': Stats)
    requires FateCounters(cfg, s, st) && CounterStep(cfg, r, st, st')
    ensures FateCounters(cfg, s + [r], st')
  {
    TallyNext(OccurrencesIf(cfg, OutsideWindow), s, r);
    TallyNext(OccurrencesIf(cfg, Smoke), s, r);
    TallyNext(Ones(HasFate(cfg, Uncategorized)), s, r);
  }

  lemma SourceCountersNext(cfg: Config, s: seq<Rec>, r: Rec, st: Stats, st': Stats)
    requires SourceCounters(s, st) && CounterStep(cfg, r, st, st')
    ensures SourceCounters(s + [r], st')
  {
    forall src ensures st'.sources[src] == Tally(Ones(From(src)), s + [r]) {
      TallyNext(Ones(From(src)), s, r);
    }
  }

  lemma CounterStepKeeps(cfg: Config, s: seq<Rec>, r: Rec, st: Stats, st': Stats)
    requires PlainCounters(cfg, s, st) && CounterStep(cfg, r, st, st')
    ensures PlainCounters(cfg, s + [r], st')
  {
    FateCountersNext(cfg, s, r, st, st');
    CategorizedNext(cfg, s, r);
    CategoriesNext(cfg, s, r);
    SourceCountersNext(cfg, s, r, st, st');
  }

  lemma DropsBySource(cfg: Config, s: seq<Rec>, r: Rec, events: seq<Event>, st: Stats, events': seq<Event>,
                      st': Stats, src: string)
    requires Candidates(cfg, s, events, st) && CandidateStep(cfg, r, events, st, events', st')
    ensures st'.droppedBySource[src] + Count(SourceIs(src), events')
            == Tally(Ones(FateFrom(cfg, OutsideWindow, src)), s + [r])
               + Count(SourceIs(src), CategorizedEvents(cfg, s + [r]))
  {
    TallyNext(Ones(FateFrom(cfg, OutsideWindow, src)), s, r);
    CategorizedNext(cfg, s, r);
    CountAppend(SourceIs(src), CategorizedEvents(cfg, s), [r.event]);
    CountAppend(SourceIs(src), events, [r.event]);
    assert Count(SourceIs(src), [r.event]) == if r.event.source == src then 1 else 0;
  }

  lemma CandidateStepKeeps(cfg: Config, s: seq<Rec>, r: Rec, events: seq<Event>, st: Stats, events': seq<Event>,
                           st': Stats)
    requires Candidates(cfg, s, events, st) && CandidateStep(cfg, r, events, st, events', st')
    ensures Candidates(cfg, s + [r], events', st')
  {
    CategorizedNext(cfg, s, r);
    forall src
      ensures st'.droppedBySource[src] + Count(SourceIs(src), events')
              == Tally(Ones(FateFrom(cfg, OutsideWindow, src)), s + [r])
                 + Count(SourceIs(src), CategorizedEvents(cfg, s + [r]))
    {
      DropsBySource(cfg, s, r, events, st, events', st', src);
    }
  }

  lemma TableStepKeeps(cfg: Config, s: seq<Rec>, r: Rec, unknown: HH.Table, st: Stats, unknown': HH.Table, st': Stats)
    requires 0 < cfg.tableLimit && Fingerprints(cfg, s, unknown, st) && TableStep(cfg, r, unknown, st, unknown', st')
    ensures Fingerprints(cfg, s + [r], unknown', st')
  {
    assert (s + [r])[..|s|] == s;
    var h := Hits(cfg, s);
    assert (h + [HitOf(r.event)])[..|h|] == h;
  }

  lemma AppendedNext(cfg: Config, records: seq<Rec>, i: nat, before: State, after: State)
    requires 0 < cfg.tableLimit && i < |records| && Appended(cfg, records[..i], before)
    requires CounterStep(cfg, records[i], before.stats, after.stats)
    requires CandidateStep(cfg, records[i], before.events, before.stats, after.events, after.stats)
    requires TableStep(cfg, records[i], before.unknown, before.stats, after.unknown, after.stats)
    ensures Appended(cfg, records[..i + 1], after)
  {
    assert records[..i + 1] == records[..i] + [records[i]];
    CounterStepKeeps(cfg, records[..i], records[i], before.stats, after.stats);
    CandidateStepKeeps(cfg, records[..i], records[i], before.events, before.stats, after.events, after.stats);
    TableStepKeeps(cfg, records[..i], records[i], before.unknown, before.stats, after.unknown, after.stats);
  }

  // --- the books ------------------------------------------------------------------------------

  /** Every categorized record is published or accounted for, in total and per source. */
  ghost predicate Balanced(cfg: Config, s: seq<Rec>, events: seq<Event>, st: Stats) {
    && st.categorized == |events| + st.merged + st.cgroup + st.candidateDrops + st.outputDrops
    && st.dropped == st.candidateDrops + st.outputDrops
    && (st.truncated <==> st.dropped > 0)
    && (forall src :: st.sources[src]
                      == Count(SourceIs(src), events) + st.droppedBySource[src] + Unlisted(cfg, s, src))
  }

  lemma {:induction false} FatesBySource(cfg: Config, s: seq<Rec>, src: string)
    ensures Tally(Ones(From(src)), s)
            == Tally(Ones(FateFrom(cfg, OutsideWindow, src)), s) + Unlisted(cfg, s, src)
               + Count(SourceIs(src), CategorizedEvents(cfg, s))
  {
    if s != [] {
      var front, r := s[..|s| - 1], s[|s| - 1];
      FatesBySource(cfg, front, src);
      var all := CategorizedEvents(cfg, front);
      CountAppend(SourceIs(src), all, [r.event]);
      assert Count(SourceIs(src), [r.event]) == if r.event.source == src then 1 else 0;
    }
  }

  lemma {:induction false} FatesPartition(cfg: Config, s: seq<Rec>)
    ensures |s| == Tally(Ones(HasFate(cfg, OutsideWindow)), s) + Tally(Ones(HasFate(cfg, Smoke)), s)
                   + Tally(Ones(HasFate(cfg, Uncategorized)), s) + |CategorizedEvents(cfg, s)|
  {
    if s != [] { FatesPartition(cfg, s[..|s| - 1]); }
  }

  /** The books balance as soon as all records were appended. */
  lemma AppendedBalances(cfg: Config, s: seq<Rec>, st: State)
    requires 0 < cfg.tableLimit && Appended(cfg, s, st)
    ensures Balanced(cfg, s, st.events, st.stats)
  {
    forall src { FatesBySource(cfg, s, src); }
  }

  function SourcesOf(events: seq<Event>): multiset<string> {
    if events == [] then multiset{} else SourcesOf(events[..|events| - 1]) + multiset{events[|events| - 1].source}
  }

  lemma {:induction false} SourcesOfCounts(events: seq<Event>, src: string)
    ensures SourcesOf(events)[src] == Count(SourceIs(src), events)
  {
    if events != [] {
      var front, last := events[..|events| - 1], events[|events| - 1];
      SourcesOfCounts(front, src);
      assert events == front + [last];
      CountAppend(SourceIs(src), front, [last]);
      assert Count(SourceIs(src), [last]) == if last.source == src then 1 else 0;
    }
  }

  /** `events` consists of `kept` and `out`, as far as the number of events per source goes. */
  ghost predicate Splits(events: seq<Event>, kept: seq<Event>, out: seq<Event>) {
    && |events| == |kept| + |out|
    && forall src :: Count(SourceIs(src), events) == Count(SourceIs(src), kept) + Count(SourceIs(src), out)
  }

  lemma UnionSplits(events: seq<Event>, kept: seq<Event>, out: seq<Event>)
    requires multiset(events) == multiset(kept) + multiset(out)
    ensures Splits(events, kept, out)
  {
    assert multiset(kept + out) == multiset(events);
    assert |multiset(kept + out)| == |multiset(events)|;
    forall src ensures Count(SourceIs(src), events) == Count(SourceIs(src), kept) + Count(SourceIs(src), out) {
      CountUnion(SourceIs(src), events, kept, out);
    }
  }

  /** A stage that splits the events into kept ones and counted ones keeps the books balanced. */
  lemma StageBalances(cfg: Config, s: seq<Rec>, events: seq<Event>, st: Stats, kept: seq<Event>, out: seq<Event>,
                      st': Stats)
    requires Balanced(cfg, s, events, st) && Splits(events, kept, out)
    requires st'.categorized == st.categorized && st'.sources == st.sources && st'.candidateDrops == st.candidateDrops
    requires st'.merged + st'.cgroup + st'.outputDrops == st.merged + st.cgroup + st.outputDrops + |out|
    requires st'.dropped - st.dropped == st'.outputDrops - st.outputDrops >= 0
    requires st'.truncated == (st.truncated || st'.outputDrops > st.outputDrops)
    requires st'.droppedBySource == st.droppedBySource + SourcesOf(out)
    ensures Balanced(cfg, s, kept, st')
  {
    forall src
      ensures st'.sources[src] == Count(SourceIs(src), kept) + st'.droppedBySource[src] + Unlisted(cfg, s, src)
    {
      SourcesOfCounts(out, src);
      assert st.sources[src] == Count(SourceIs(src), events) + st.droppedBySource[src] + Unlisted(cfg, s, src);
    }
  }

  // --- the statistics of the output limit ---------------------------------------------------------

  function IdIn(ids: set<string>): Event -> bool {
    (e: Event) => e.id in ids
  }

  function IdNotIn(ids: set<string>): Event -> bool {
    (e: Event) => e.id !in ids
  }

  function IdsOf(events: seq<Event>): set<string> {
    set e | e in events :: e.id
  }

  /** With distinct ids, the events whose id was not retained are exactly the events not retained. */
  lemma DroppedById(events: seq<Event>, retained: seq<Event>)
    requires DistinctIds(events) && multiset(retained) <= multiset(events)
    ensures multiset(events) == multiset(retained) + multiset(Filter(IdNotIn(IdsOf(retained)), events))
  {
    var ids := IdsOf(retained);
    var same := Filter(IdIn(ids), events);
    FilterSplits(IdIn(ids), IdNotIn(ids), events);
    DistinctIdsIdentify(events);
    FilterDistinct(IdIn(ids), events);
    SubDistinct(events, retained);
    forall e ensures e in same <==> e in retained {
      if e in retained { assert e in multiset(events); }
      if e in same {
        var f :| f in retained && f.id == e.id;
        assert f in multiset(events);
      }
    }
    DistinctSameElements(same, retained);
  }

  /** A part of a list with distinct ids has distinct ids. */
  lemma IdsStayDistinct(events: seq<Event>, part: seq<Event>)
    requires DistinctIds(events) && multiset(part) <= multiset(events)
    ensures DistinctIds(part)
  {
    DistinctIdsIdentify(events);
    SubDistinct(events, part);
    forall i, j | 0 <= i < j < |part| ensures part[i].id != part[j].id {
      assert part[i] in multiset(part) && part[j] in multiset(part);
      assert part[i] in multiset(events) && part[j] in multiset(events);
    }
  }

  lemma SubDistinct(events: seq<Event>, retained: seq<Event>)
    requires Distinct(events) && multiset(retained) <= multiset(events)
    ensures Distinct(retained)
  {
    if !Distinct(retained) {
      var i, j :| 0 <= i < j < |retained| && retained[i] == retained[j];
      TwiceInMultiset(retained, i, j);
      OnceInMultiset(events, retained[i]);
    }
  }

  predicate HasCgroup(e: Event) {
    "cgroup_access_denied" in e.categories
  }

  predicate LacksCgroup(e: Event) {
    "cgroup_access_denied" !in e.categories
  }

  // --- the pipeline ----------------------------------------------------------------------------------

  /** The event list in front of the output limit. */
  ghost function Merged(cfg: Config, records: seq<Rec>): seq<Event> {
    Dedup.Deduplicated(Dedup.KeyOf, Kept(cfg, records))
  }

  lemma {:induction false} CountSameSource(a: seq<Event>, b: seq<Event>, src: string)
    requires |a| == |b| && forall i :: 0 <= i < |a| ==> a[i].source == b[i].source
    ensures Count(SourceIs(src), a) == Count(SourceIs(src), b)
  {
    if a != [] {
      assert forall i :: 0 <= i < |a[1..]| ==> a[1..][i] == a[i + 1] && b[1..][i] == b[i + 1];
      CountSameSource(a[1..], b[1..], src);
    }
  }

  lemma MergingSplits(events: seq<Event>, merged: seq<Event>)
    requires multiset(events) == multiset(Dedup.Firsts(Dedup.KeyOf, events)) + multiset(merged)
    ensures Splits(events, Dedup.Deduplicated(Dedup.KeyOf, events), merged)
  {
    var firsts, result := Dedup.Firsts(Dedup.KeyOf, events), Dedup.Deduplicated(Dedup.KeyOf, events);
    UnionSplits(events, firsts, merged);
    forall src ensures Count(SourceIs(src), firsts) == Count(SourceIs(src), result) {
      CountSameSource(firsts, result, src);
    }
  }

  lemma TakeDistinctIds(events: seq<Event>, n: nat)
    requires DistinctIds(events)
    ensures DistinctIds(Take(events, n))
  {
  }

  class Normalizer {
    const cfg: Config
    var events: seq<Event>
    var unknown: HH.Table
    var stats: Stats

    constructor (cfg: Config)
      requires 0 < cfg.tableLimit
      ensures this.cfg == cfg && Appended(cfg, [], Now())
    {
      this.cfg := cfg;
      events, unknown, stats := [], map[], NO_STATS;
    }

    function Now(): State
      reads this
    {
      State(events, unknown, stats)
    }

    /** The least entry by count and key, whatever the order of the iteration. */
    method FindVictim() returns (victim: HH.Key)
      requires unknown != map[]
      ensures victim == HH.Victim(unknown)
      ensures forall k :: k in unknown ==>
                unknown[victim].count < unknown[k].count
                || (unknown[victim].count == unknown[k].count
                    && (if victim.component == k.component then StrLeq(victim.fingerprint, k.fingerprint)
                        else StrLeq(victim.component, k.component)))
    {
      HH.KeyLeqIsTotalOrder();
      victim :| victim in unknown.Keys;
      var rest := unknown.Keys - {victim};
      while rest != {}
        invariant rest <= unknown.Keys && victim in unknown
        invariant forall k :: k in unknown && k !in rest ==> HH.EvictBefore(unknown, victim, k)
        decreases |rest|
      {
        var k :| k in rest;
        if !HH.EvictBefore(unknown, victim, k) {
          victim := k;
        }
        rest := rest - {k};
      }
      HH.VictimUnique(unknown, victim, HH.Victim(unknown));
    }

    /** The table part of `_append`. */
    method Track(hit: HH.Hit)
      requires 0 < cfg.tableLimit
      modifies this`unknown, this`stats
      ensures unknown == HH.Record(old(unknown), cfg.tableLimit, hit.key, hit.weight)
      ensures stats == old(stats).(replacements := old(stats).replacements
                         + if HH.Evicts(old(unknown), cfg.tableLimit, hit.key) then 1 else 0)
    {
      if hit.key in unknown {
        unknown := unknown[hit.key := unknown[hit.key].(count := unknown[hit.key].count + hit.weight)];
      } else {
        var error := 0;
        if |unknown| >= cfg.tableLimit {
          var victim := FindVictim();
          error := unknown[victim].count;
          unknown := unknown - {victim};
          stats := stats.(replacements := stats.replacements + 1);
        }
        unknown := unknown[hit.key := HH.Entry(error + hit.weight, error)];
      }
    }

    /** The end of `_append`: a record with a category becomes a candidate, unless there are enough. */
    method Admit(e: Event)
      modifies this`events, this`stats
      ensures var full := |old(events)| >= cfg.candidateLimit;
              && events == (if full then old(events) else old(events) + [e])
              && stats == old(stats).(categorized := old(stats).categorized + 1,
                                      categories := old(stats).categories + multiset(e.categories),
                                      truncated := old(stats).truncated || full,
                                      dropped := old(stats).dropped + (if full then 1 else 0),
                                      candidateDrops := old(stats).candidateDrops + (if full then 1 else 0),
                                      droppedBySource := old(stats).droppedBySource
                                                         + (if full then multiset{e.source} else multiset{}))
    {
      stats := stats.(categorized := stats.categorized + 1,
                      categories := stats.categories + multiset(e.categories));
      if |events| >= cfg.candidateLimit {
        stats := stats.(truncated := true, dropped := stats.dropped + 1, candidateDrops := stats.candidateDrops + 1,
                        droppedBySource := stats.droppedBySource + multiset{e.source});
        return;
      }
      events := events + [e];
    }

    /** `_append`. */
    method Append(r: Rec)
      requires 0 < cfg.tableLimit
      modifies this
      ensures CounterStep(cfg, r, old(stats), stats)
      ensures CandidateStep(cfg, r, old(events), old(stats), events, stats)
      ensures TableStep(cfg, r, old(unknown), old(stats), unknown, stats)
    {
      var e := r.event;
      stats := stats.(input := stats.input + 1, sources := stats.sources + multiset{e.source});
      var amount := if e.occurrences == 0 then 1 else e.occurrences;
      if !e.inferred && e.epoch.Some?
         && ((cfg.windowStart.Some? && e.epoch.value < cfg.windowStart.value)
             || (cfg.windowEnd.Some? && e.epoch.value > cfg.windowEnd.value))
      {
        stats := stats.(windowFiltered := stats.windowFiltered + amount,
                        droppedBySource := stats.droppedBySource + multiset{e.source});
        return;
      }
      if cfg.smoke(e) {
        stats := stats.(smoke := stats.smoke + amount);
        return;
      }
      var key := HH.Key(if Present(e.component) then e.component.value else e.source, e.fingerprint);
      var insight := cfg.insight(e);
      if r.tracked && (insight || e.categories == []) { Track(HH.Hit(key, amount)); }
      if e.categories == [] {
        stats := stats.(uncategorized := stats.uncategorized + 1);
        return;
      }
      Admit(e);
    }

    /** All calls of `_append`, in the order of the records. */
    method AppendAll(records: seq<Rec>)
      requires 0 < cfg.tableLimit && Appended(cfg, [], Now())
      modifies this
      ensures Appended(cfg, records, Now())
      ensures CountsRecords(cfg, records, stats) && HoldsEvents(cfg, records, events, stats)
      ensures BoundsAmounts(cfg, records, unknown)
    {
      for i := 0 to |records|
        invariant Appended(cfg, records[..i], Now())
      {
        ghost var before := Now();
        Append(records[i]);
        AppendedNext(cfg, records, i, before, Now());
      }
      assert records[..|records|] == records;
      CountsMeaning(cfg, records, stats);
      EventsMeaning(cfg, records, events, stats);
      TableMeaning(cfg, records, unknown, stats);
    }

    /** The cgroup filter of `normalize_evidence`. */
    method SuppressCgroup(ghost records: seq<Rec>)
      requires Balanced(cfg, records, events, stats)
      modifies this`events, this`stats
      ensures Balanced(cfg, records, events, stats)
      ensures events == if cfg.collectCgroup then old(events) else Filter(LacksCgroup, old(events))
      ensures stats.truncated == old(stats).truncated
    {
      if cfg.collectCgroup { return; }
      var kept, gone := Filter(LacksCgroup, events), Filter(HasCgroup, events);
      FilterSplits(LacksCgroup, HasCgroup, events);
      UnionSplits(events, kept, gone);
      stats := stats.(cgroup := stats.cgroup + |gone|, droppedBySource := stats.droppedBySource + SourcesOf(gone));
      StageBalances(cfg, records, events, old(stats), kept, gone, stats);
      events := kept;
    }

    /** The call of `_deduplicate_events`. */
    method MergeDuplicates(ghost records: seq<Rec>)
      requires Balanced(cfg, records, events, stats)
      modifies this`events, this`stats
      ensures Balanced(cfg, records, events, stats)
      ensures events == Dedup.Deduplicated(Dedup.KeyOf, old(events))
      ensures stats.truncated == old(stats).truncated
    {
      var result, merged := Dedup.Deduplicate(Dedup.KeyOf, events);
      MergingSplits(events, merged);
      stats := stats.(merged := stats.merged + |merged|, droppedBySource := stats.droppedBySource + SourcesOf(merged));
      StageBalances(cfg, records, events, old(stats), result, merged, stats);
      events := result;
    }

    /** The call of `_fair_limit_events`. */
    method LimitOutput(ghost records: seq<Rec>)
      requires DistinctIds(events) && Balanced(cfg, records, events, stats)
      modifies this`events, this`stats
      ensures Balanced(cfg, records, events, stats)
      ensures FL.FairlyLimited(FL.BucketOf, old(events), cfg.outputLimit, events)
      ensures multiset(events) <= multiset(old(events))
      ensures stats.outputDrops - old(stats).outputDrops == |old(events)| - |events|
      ensures !stats.truncated ==> events == old(events)
      ensures old(stats).truncated ==> stats.truncated
    {
      if |events| <= cfg.outputLimit { return; }
      var retained := FL.RoundRobin(FL.BucketOf, events, cfg.outputLimit);
      FL.KeptFromInput(FL.BucketOf, events, retained);
      var gone := Filter(IdNotIn(IdsOf(retained)), events);
      DroppedById(events, retained);
      UnionSplits(events, retained, gone);
      stats := stats.(dropped := stats.dropped + |gone|, outputDrops := stats.outputDrops + |gone|,
                      droppedBySource := stats.droppedBySource + SourcesOf(gone), truncated := true);
      StageBalances(cfg, records, events, old(stats), retained, gone, stats);
      events := retained;
    }

    method SortOutput(ghost records: seq<Rec>)
      requires Balanced(cfg, records, events, stats)
      modifies this`events
      ensures Balanced(cfg, records, events, stats)
      ensures Sorted(EventLeq, events) && multiset(events) == multiset(old(events))
    {
      EventLeqIsPreorder();
      SortBySorted(EventLeq, events);
      var sorted := SortBy(EventLeq, events);
      forall src ensures Count(SourceIs(src), events) == Count(SourceIs(src), sorted) {
        CountPermutation(SourceIs(src), events, sorted);
      }
      events := sorted;
    }

    /** The stages of `normalize_evidence` behind the appending. `limited` is the list before the
        final sort, in which the round-robin order is still visible. */
    method Finish(records: seq<Rec>) returns (ghost limited: seq<Event>)
      requires 0 < cfg.tableLimit && Appended(cfg, records, Now())
      requires DistinctIds(CategorizedEvents(cfg, records))
      modifies this`events, this`stats
      ensures Balanced(cfg, records, events, stats)
      ensures Sorted(EventLeq, events) && multiset(events) == multiset(limited) && DistinctIds(events)
      ensures FL.FairlyLimited(FL.BucketOf, Merged(cfg, records), cfg.outputLimit, limited)
      ensures !stats.truncated ==> limited == Merged(cfg, records)
      ensures Published(cfg, records, events, stats) && InTimeOrder(events)
      ensures !stats.truncated && cfg.collectCgroup ==>
                SumOf(Dedup.Occurrences, events) == SumOf(Dedup.Occurrences, CategorizedEvents(cfg, records))
    {
      ghost var candidates := CategorizedEvents(cfg, records);
      assert !stats.truncated ==> |candidates| <= cfg.candidateLimit;
      AppendedBalances(cfg, records, Now());
      TakeDistinctIds(candidates, cfg.candidateLimit);
      FilterDistinctIds(LacksCgroup, events);
      SuppressCgroup(records);
      Dedup.FirstsDistinctIds(Dedup.KeyOf, events);
      MergeDuplicates(records);
      LimitOutput(records);
      limited := events;
      IdsStayDistinct(Merged(cfg, records), limited);
      SortOutput(records);
      DistinctIdsPermutation(limited, events);
      PublishedMeaning(cfg, records, events, stats);
      SortedIsInTimeOrder(events);
      if !stats.truncated && cfg.collectCgroup {
        NothingLostUnlessMarked(cfg, records, limited, events, candidates);
      }
    }
  }

  /** A run that is not marked truncated publishes every occurrence of every categorized record. */
  lemma NothingLostUnlessMarked(cfg: Config, records: seq<Rec>, limited: seq<Event>, events: seq<Event>,
                                candidates: seq<Event>)
    requires cfg.collectCgroup && candidates == CategorizedEvents(cfg, records) && |candidates| <= cfg.candidateLimit
    requires limited == Merged(cfg, records) && multiset(events) == multiset(limited)
    ensures SumOf(Dedup.Occurrences, events) == SumOf(Dedup.Occurrences, candidates)
  {
    Dedup.OccurrencesConserved(Dedup.KeyOf, candidates);
    SumPermutation(Dedup.Occurrences, events, limited);
  }
}
