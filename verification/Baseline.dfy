/** Source-aware comparison of two stable profiles (baseline.py `compare_profiles`). */
module Baseline {
  import opened Wrappers
  import opened Order
  import opened Seqs
  import opened Json

  const MAX_CHANGED_FIELDS := 100

  /** A profile object; `sha` is the recorded hash of `value`. */
  datatype Item = Item(key: string, kind: string, name: string, sha: string, value: Json)

  datatype Source = Source(status: string, required: bool, objects: seq<Item>)

  type Profile = map<string, Source>

  /** The hash of a document. */
  type Hash = Json -> string

  /** The hashes of these two documents do not collide. */
  predicate TellsApart(hash: Hash, a: Json, b: Json) {
    hash(a) == hash(b) ==> a == b
  }

  /** `_profile_object`: the value is made stable and hashed (through `_stable_value` once more). */
  function MakeItem(rules: Rules, hash: Hash, key: string, kind: string, name: string, value: Json): Item {
    var stable := Stable(rules, value);
    Item(key, kind, name, hash(Stable(rules, stable)), stable)
  }

  /** The test of `_validate_profile` on one object. */
  predicate HashFits(rules: Rules, hash: Hash, item: Item) {
    item.sha == hash(Stable(rules, item.value))
  }

  // --- the records of a comparison ----------------------------------------------------------

  datatype Category = NewProblem | Removed | Added | Changed | Resolved | Unverifiable

  datatype Change = Change(
    category: Category,
    source: string,
    kind: Option<string>,
    key: Option<string>,
    name: Option<string>,
    beforeSha: Option<string>,
    afterSha: Option<string>,
    changedFields: seq<string>,
    baselineStatus: Option<string>,
    currentStatus: Option<string>)

  function StatusOf(p: Profile, id: string): string {
    if id in p && p[id].status != "" then p[id].status else "missing"
  }

  predicate Collected(p: Profile, id: string) {
    StatusOf(p, id) == "collected"
  }

  predicate Required(p: Profile, id: string) {
    id in p && p[id].required
  }

  /** The objects by key; the last object of a key counts. */
  function ByKey(items: seq<Item>): map<string, Item> {
    if items == [] then map[]
    else ByKey(items[..|items| - 1])[items[|items| - 1].key := items[|items| - 1]]
  }

  function ObjectsOf(p: Profile, id: string): map<string, Item> {
    if id in p then ByKey(p[id].objects) else map[]
  }

  function CutFields(fields: seq<string>): seq<string> {
    if |fields| <= MAX_CHANGED_FIELDS then fields else fields[..MAX_CHANGED_FIELDS]
  }

  function UnverifiableChange(a: Profile, b: Profile, id: string): Change {
    Change(Unverifiable, id, None, None, None, None, None, [], Some(StatusOf(a, id)), Some(StatusOf(b, id)))
  }

  /** The record of one object, if there is one. */
  function ObjectChange(id: string, before: Option<Item>, after: Option<Item>): Option<Change> {
    match (before, after)
    case (None, None) => None
    case (None, Some(y)) =>
      Some(Change(if y.kind == "finding" then NewProblem else Added, id, Some(y.kind), Some(y.key), Some(y.name),
                  None, Some(y.sha), [], None, None))
    case (Some(x), None) =>
      Some(Change(if x.kind == "finding" then Resolved else Removed, id, Some(x.kind), Some(x.key), Some(x.name),
                  Some(x.sha), None, [], None, None))
    case (Some(x), Some(y)) =>
      if x.sha == y.sha then None
      else Some(Change(Changed, id, Some(y.kind), Some(y.key), Some(y.name), Some(x.sha), Some(y.sha),
                       CutFields(ChangedTexts(x.value, y.value, "")), None, None))
  }

  function Find(items: map<string, Item>, k: string): Option<Item> {
    if k in items then Some(items[k]) else None
  }

  function Listed(c: Option<Change>): seq<Change> {
    if c.Some? then [c.value] else []
  }

  /** The record of the object `k` of a source, as a list of at most one. */
  function ObjectRecords(id: string, before: map<string, Item>, after: map<string, Item>): string -> seq<Change> {
    (k: string) => Listed(ObjectChange(id, Find(before, k), Find(after, k)))
  }

  function ObjectChanges(id: string, before: map<string, Item>, after: map<string, Item>): seq<Change> {
    FlatMap(ObjectRecords(id, before, after), SortedKeys(before.Keys + after.Keys))
  }

  function SourceChanges(a: Profile, b: Profile, id: string): seq<Change> {
    if !Collected(a, id) || !Collected(b, id) then
      if !Collected(a, id) && !Collected(b, id) && !Required(a, id) && !Required(b, id) then []
      else [UnverifiableChange(a, b, id)]
    else ObjectChanges(id, ObjectsOf(a, id), ObjectsOf(b, id))
  }

  function SourceRecords(a: Profile, b: Profile): string -> seq<Change> {
    (id: string) => SourceChanges(a, b, id)
  }

  /** All records of a comparison, in the order they are reported. */
  function Compare(a: Profile, b: Profile): seq<Change> {
    FlatMap(SourceRecords(a, b), SortedKeys(a.Keys + b.Keys))
  }

  function CountOf(changes: seq<Change>, c: Category): nat {
    if changes == [] then 0
    else CountOf(changes[..|changes| - 1], c) + if changes[|changes| - 1].category == c then 1 else 0
  }

  datatype Status = NoChanges | ChangesDetected | Incomplete

  datatype Comparison = Comparison(
    status: Status,
    summary: map<Category, nat>,
    missingSources: set<string>,
    changes: seq<Change>)

  const ALL_CATEGORIES := {NewProblem, Removed, Added, Changed, Resolved, Unverifiable}

  lemma AnyCategory(c: Category)
    ensures c in ALL_CATEGORIES
  {
    match c
    case NewProblem => case Removed => case Added => case Changed => case Resolved => case Unverifiable =>
  }

  /** The inner loop of `compare_profiles`: the records of one source collected on both sides. */
  method CompareObjects(id: string, before: map<string, Item>, after: map<string, Item>) returns (changes: seq<Change>)
    ensures changes == ObjectChanges(id, before, after)
  {
    var keys := SortedKeys(before.Keys + after.Keys);
    ghost var f := ObjectRecords(id, before, after);
    changes := [];
    for j := 0 to |keys|
      invariant changes == FlatMap(f, keys[..j])
    {
      FlatMapNext(f, keys, j);
      var record := ObjectChange(id, Find(before, keys[j]), Find(after, keys[j]));
      changes := changes + Listed(record);
    }
    assert keys[..|keys|] == keys;
  }

  /** The body of the outer loop of `compare_profiles`. */
  method CompareSource(baseline: Profile, current: Profile, id: string) returns (changes: seq<Change>)
    ensures changes == SourceChanges(baseline, current, id)
  {
    if !Collected(baseline, id) || !Collected(current, id) {
      if !Collected(baseline, id) && !Collected(current, id) && !Required(baseline, id) && !Required(current, id) {
        return [];
      }
      return [UnverifiableChange(baseline, current, id)];
    }
    changes := CompareObjects(id, ObjectsOf(baseline, id), ObjectsOf(current, id));
  }

  /** The outer loop of `compare_profiles`. */
  method CompareSources(baseline: Profile, current: Profile) returns (changes: seq<Change>)
    ensures changes == Compare(baseline, current)
  {
    changes := [];
    var ids := SortedKeys(baseline.Keys + current.Keys);
    ghost var f := SourceRecords(baseline, current);
    for i := 0 to |ids|
      invariant changes == FlatMap(f, ids[..i])
    {
      FlatMapNext(f, ids, i);
      var found := CompareSource(baseline, current, ids[i]);
      changes := changes + found;
    }
    assert ids[..|ids|] == ids;
  }

  /** The counts of the summary. */
  method CountCategories(changes: seq<Change>) returns (counts: map<Category, nat>)
    ensures counts.Keys == ALL_CATEGORIES && forall c :: c in counts ==> counts[c] == CountOf(changes, c)
  {
    counts := map c | c in ALL_CATEGORIES :: 0;
    for i := 0 to |changes|
      invariant counts.Keys == ALL_CATEGORIES && forall c :: c in counts ==> counts[c] == CountOf(changes[..i], c)
    {
      var c := changes[i].category;
      assert changes[..i + 1][..i] == changes[..i];
      AnyCategory(c);
      counts := counts[c := counts[c] + 1];
    }
    assert changes[..|changes|] == changes;
  }

  /** The sources that could not be checked. */
  method MissingSources(changes: seq<Change>) returns (missing: set<string>)
    ensures forall id :: id in missing <==> exists c :: c in changes && c.category == Unverifiable && c.source == id
  {
    missing := set c | c in changes && c.category == Unverifiable :: c.source;
  }

  /** `compare_profiles`. */
  method CompareProfiles(baseline: Profile, current: Profile) returns (r: Comparison)
    ensures Publishes(baseline, current, r)
  {
    var changes := CompareSources(baseline, current);
    var counts := CountCategories(changes);
    var missing := MissingSources(changes);
    var status := if counts[Unverifiable] > 0 then Incomplete else if changes != [] then ChangesDetected else NoChanges;
    r := Comparison(status, counts, missing, changes);
    VerdictExactly(baseline, current);
    MissingAreUnchecked(baseline, current);
    assert CountOf([], Unverifiable) == 0;
  }

  // --- what a record means --------------------------------------------------------------------

  /** A source that one side lacks, and that was collected or required on some side. */
  predicate Unchecked(a: Profile, b: Profile, id: string) {
    && (id in a || id in b)
    && !(Collected(a, id) && Collected(b, id))
    && (Collected(a, id) || Collected(b, id) || Required(a, id) || Required(b, id))
  }

  function RecordOf(a: Profile, b: Profile, id: string, k: string): Option<Change> {
    ObjectChange(id, Find(ObjectsOf(a, id), k), Find(ObjectsOf(b, id), k))
  }

  /** `c` is a record about source `id`: the gap, if it could not be checked, or the difference of an
      object, if it was collected on both sides. */
  ghost predicate Reports(a: Profile, b: Profile, id: string, c: Change) {
    || (Unchecked(a, b, id) && c == UnverifiableChange(a, b, id))
    || (Collected(a, id) && Collected(b, id) && exists k :: RecordOf(a, b, id, k) == Some(c))
  }

  lemma ObjectChangesMembers(a: Profile, b: Profile, id: string, c: Change)
    ensures c in ObjectChanges(id, ObjectsOf(a, id), ObjectsOf(b, id)) <==> exists k :: RecordOf(a, b, id, k) == Some(c)
  {
    var x, y := ObjectsOf(a, id), ObjectsOf(b, id);
    var keys := SortedKeys(x.Keys + y.Keys);
    FlatMapMembers(ObjectRecords(id, x, y), keys, c);
    if k :| RecordOf(a, b, id, k) == Some(c) {
      assert k in keys && c in ObjectRecords(id, x, y)(k);
    }
    if k :| k in keys && c in ObjectRecords(id, x, y)(k) {
      assert RecordOf(a, b, id, k) == Some(c);
    }
  }

  /** The records of one source. */
  lemma SourceChangesMembers(a: Profile, b: Profile, id: string, c: Change)
    requires id in a || id in b
    ensures c in SourceChanges(a, b, id) <==> Reports(a, b, id, c)
  {
    if Collected(a, id) && Collected(b, id) { ObjectChangesMembers(a, b, id, c); }
  }

  /** The comparison reports exactly: one gap for every source that could not be checked, and the
      difference of every object of a source that was collected on both sides. */
  lemma ReportedExactly(a: Profile, b: Profile, c: Change)
    ensures c in Compare(a, b) <==> exists id :: (id in a || id in b) && Reports(a, b, id, c)
  {
    var ids := SortedKeys(a.Keys + b.Keys);
    FlatMapMembers(SourceRecords(a, b), ids, c);
    if id :| (id in a || id in b) && Reports(a, b, id, c) {
      SourceChangesMembers(a, b, id, c);
      assert id in ids && c in SourceRecords(a, b)(id);
    }
    if id :| id in ids && c in SourceRecords(a, b)(id) {
      SourceChangesMembers(a, b, id, c);
    }
  }

  function ShaAt(items: map<string, Item>, k: string): Option<string> {
    if k in items then Some(items[k].sha) else None
  }

  /** What the record of an object says about the two sides. */
  lemma RecordMeaning(a: Profile, b: Profile, id: string, k: string)
    ensures var r := RecordOf(a, b, id, k);
            r.Some? ==>
              && r.value.source == id && r.value.category != Unverifiable && r.value.key.Some?
              && (r.value.category in {Removed, Resolved} ==> k in ObjectsOf(a, id) && k !in ObjectsOf(b, id))
              && (r.value.category in {Added, NewProblem} ==> k !in ObjectsOf(a, id) && k in ObjectsOf(b, id))
              && (r.value.category == Changed ==> k in ObjectsOf(a, id) && k in ObjectsOf(b, id))
              && r.value.key.value == k
              && r.value.beforeSha == ShaAt(ObjectsOf(a, id), k) && r.value.afterSha == ShaAt(ObjectsOf(b, id), k)
              && r.value.beforeSha != r.value.afterSha
              && (r.value.category in {NewProblem, Resolved} ==> r.value.kind == Some("finding"))
              && (r.value.category in {Added, Removed} ==> r.value.kind != Some("finding"))
  {
    if id in a { ByKeyKeys(a[id].objects); }
    if id in b { ByKeyKeys(b[id].objects); }
  }

  /** Missing data is never read as removal: a record about an object comes from a source that was
      collected on both sides, the named object really is on one side only (or on both, with two
      hashes), and only findings become problems or resolutions. */
  lemma NoFalseRemoval(a: Profile, b: Profile, c: Change)
    requires c in Compare(a, b) && c.category != Unverifiable
    ensures Collected(a, c.source) && Collected(b, c.source) && c.key.Some?
    ensures c.category in {Removed, Resolved} ==>
        c.key.value in ObjectsOf(a, c.source) && c.key.value !in ObjectsOf(b, c.source)
    ensures c.category in {Added, NewProblem} ==>
        c.key.value !in ObjectsOf(a, c.source) && c.key.value in ObjectsOf(b, c.source)
    ensures c.beforeSha == ShaAt(ObjectsOf(a, c.source), c.key.value)
    ensures c.afterSha == ShaAt(ObjectsOf(b, c.source), c.key.value) && c.beforeSha != c.afterSha
    ensures c.category in {NewProblem, Resolved} ==> c.kind == Some("finding")
    ensures c.category in {Added, Removed} ==> c.kind != Some("finding")
  {
    ReportedExactly(a, b, c);
    var id :| (id in a || id in b) && Reports(a, b, id, c);
    var k :| RecordOf(a, b, id, k) == Some(c);
    RecordMeaning(a, b, id, k);
  }

  // --- when nothing changed -----------------------------------------------------------------------

  predicate SameEntry(x: map<string, Item>, y: map<string, Item>, k: string) {
    if k in x && k in y then x[k].sha == y[k].sha else k !in x && k !in y
  }

  /** The same keys, and under every key the same hash. */
  ghost predicate SameHashes(x: map<string, Item>, y: map<string, Item>) {
    forall k :: k in x || k in y ==> SameEntry(x, y, k)
  }

  /** A source agrees: collected on both sides with equal hashes key by key, or optional and
      collected on neither side. */
  ghost predicate Agrees(a: Profile, b: Profile, id: string) {
    if Collected(a, id) && Collected(b, id) then SameHashes(ObjectsOf(a, id), ObjectsOf(b, id))
    else !Collected(a, id) && !Collected(b, id) && !Required(a, id) && !Required(b, id)
  }

  lemma NoRecordIffSame(id: string, x: map<string, Item>, y: map<string, Item>, k: string)
    ensures ObjectRecords(id, x, y)(k) == [] <==> SameEntry(x, y, k)
  {
  }

  lemma NoChangesIffSame(id: string, x: map<string, Item>, y: map<string, Item>)
    ensures ObjectChanges(id, x, y) == [] <==> SameHashes(x, y)
  {
    var keys := SortedKeys(x.Keys + y.Keys);
    FlatMapEmpty(ObjectRecords(id, x, y), keys);
    forall k | k in keys ensures ObjectRecords(id, x, y)(k) == [] <==> SameEntry(x, y, k) {
      NoRecordIffSame(id, x, y, k);
    }
    assert forall k :: k in keys <==> k in x || k in y;
  }

  lemma AgreesIffSilent(a: Profile, b: Profile, id: string)
    ensures Agrees(a, b, id) <==> SourceChanges(a, b, id) == []
  {
    if Collected(a, id) && Collected(b, id) { NoChangesIffSame(id, ObjectsOf(a, id), ObjectsOf(b, id)); }
  }

  lemma {:induction false} CountPositive(changes: seq<Change>, c: Category)
    ensures CountOf(changes, c) > 0 <==> exists i :: 0 <= i < |changes| && changes[i].category == c
  {
    if changes != [] { CountPositive(changes[..|changes| - 1], c); }
  }

  /** Both verdicts, decided source by source: nothing changed if and only if every source agrees,
      and the comparison is complete if and only if no source stayed unchecked. */
  lemma VerdictExactly(a: Profile, b: Profile)
    ensures Compare(a, b) == [] <==> forall id :: id in a || id in b ==> Agrees(a, b, id)
    ensures CountOf(Compare(a, b), Unverifiable) > 0 <==> exists id :: Unchecked(a, b, id)
  {
    var ids := SortedKeys(a.Keys + b.Keys);
    FlatMapEmpty(SourceRecords(a, b), ids);
    forall id ensures Agrees(a, b, id) <==> SourceRecords(a, b)(id) == [] { AgreesIffSilent(a, b, id); }
    assert forall id :: id in ids <==> id in a || id in b;
    UncheckedCounted(a, b);
  }

  lemma UncheckedCounted(a: Profile, b: Profile)
    ensures CountOf(Compare(a, b), Unverifiable) > 0 <==> exists id :: Unchecked(a, b, id)
  {
    var changes := Compare(a, b);
    CountPositive(changes, Unverifiable);
    MissingAreUnchecked(a, b);
    if id :| Unchecked(a, b, id) {
      var c :| c in changes && c.category == Unverifiable && c.source == id;
      var i :| 0 <= i < |changes| && changes[i] == c;
    }
    if j :| 0 <= j < |changes| && changes[j].category == Unverifiable {
      assert changes[j] in changes;
      assert Unchecked(a, b, changes[j].source);
    }
  }

  lemma MissingAreUnchecked(a: Profile, b: Profile)
    ensures forall id :: Unchecked(a, b, id) <==>
              exists c :: c in Compare(a, b) && c.category == Unverifiable && c.source == id
  {
    var changes := Compare(a, b);
    forall id
      ensures Unchecked(a, b, id) <==> exists c :: c in changes && c.category == Unverifiable && c.source == id
    {
      if Unchecked(a, b, id) {
        assert Reports(a, b, id, UnverifiableChange(a, b, id));
        ReportedExactly(a, b, UnverifiableChange(a, b, id));
      }
      if c :| c in changes && c.category == Unverifiable && c.source == id {
        GapMeaning(a, b, c);
      }
    }
  }

  lemma GapMeaning(a: Profile, b: Profile, c: Change)
    requires c in Compare(a, b) && c.category == Unverifiable
    ensures Unchecked(a, b, c.source) && c == UnverifiableChange(a, b, c.source)
    ensures c.baselineStatus == Some(StatusOf(a, c.source)) && c.currentStatus == Some(StatusOf(b, c.source))
  {
    ReportedExactly(a, b, c);
    var id :| (id in a || id in b) && Reports(a, b, id, c);
    if k :| RecordOf(a, b, id, k) == Some(c) { RecordMeaning(a, b, id, k); }
  }

  // --- swapping the two profiles ---------------------------------------------------------------------

  function MirrorCategory(c: Category): Category {
    match c
    case NewProblem => Resolved
    case Resolved => NewProblem
    case Added => Removed
    case Removed => Added
    case Changed => Changed
    case Unverifiable => Unverifiable
  }

  /** `d` is `c` seen from the other side. (A changed object is described by its later version, so
      kind and name of a `Changed` record may differ.) */
  predicate Mirrors(c: Change, d: Change) {
    && d.category == MirrorCategory(c.category)
    && d.source == c.source && d.changedFields == c.changedFields
    && d.beforeSha == c.afterSha && d.afterSha == c.beforeSha
    && d.baselineStatus == c.currentStatus && d.currentStatus == c.baselineStatus
    && d.key == c.key
    && (c.category != Changed ==> d.kind == c.kind && d.name == c.name)
  }

  function Mirroring(): (Change, Change) -> bool {
    (c: Change, d: Change) => Mirrors(c, d)
  }

  lemma {:induction false} ByKeyKeys(items: seq<Item>)
    ensures forall k :: k in ByKey(items) ==> ByKey(items)[k].key == k
  {
    if items != [] { ByKeyKeys(items[..|items| - 1]); }
  }

  lemma BothMirror(id: string, x: Item, y: Item)
    requires x.key == y.key && x.sha != y.sha
    ensures Mirrors(ObjectChange(id, Some(x), Some(y)).value, ObjectChange(id, Some(y), Some(x)).value)
  {
    ChangedTextsSymmetric(x.value, y.value, "");
  }

  lemma ObjectRecordsMirror(id: string, before: map<string, Item>, after: map<string, Item>, k: string)
    requires k in before ==> before[k].key == k
    requires k in after ==> after[k].key == k
    ensures Pairwise(Mirroring(), ObjectRecords(id, before, after)(k), ObjectRecords(id, after, before)(k))
  {
    var c, d := ObjectChange(id, Find(before, k), Find(after, k)), ObjectChange(id, Find(after, k), Find(before, k));
    assert c.None? <==> d.None?;
    if c.Some? {
      if k in before && k in after { BothMirror(id, before[k], after[k]); }
      assert Mirrors(c.value, d.value);
    }
  }

  ghost predicate KeyedByKey(x: map<string, Item>) {
    forall k :: k in x ==> x[k].key == k
  }

  lemma ObjectChangesMirror(id: string, x: map<string, Item>, y: map<string, Item>)
    requires KeyedByKey(x) && KeyedByKey(y)
    ensures Pairwise(Mirroring(), ObjectChanges(id, x, y), ObjectChanges(id, y, x))
  {
    assert x.Keys + y.Keys == y.Keys + x.Keys;
    var keys := SortedKeys(x.Keys + y.Keys);
    forall k | k in keys ensures Pairwise(Mirroring(), ObjectRecords(id, x, y)(k), ObjectRecords(id, y, x)(k)) {
      ObjectRecordsMirror(id, x, y, k);
    }
    FlatMapPairwise(Mirroring(), ObjectRecords(id, x, y), ObjectRecords(id, y, x), keys);
  }

  lemma SourceChangesMirror(a: Profile, b: Profile, id: string)
    ensures Pairwise(Mirroring(), SourceChanges(a, b, id), SourceChanges(b, a, id))
  {
    if id in a { ByKeyKeys(a[id].objects); }
    if id in b { ByKeyKeys(b[id].objects); }
    if Collected(a, id) && Collected(b, id) {
      ObjectChangesMirror(id, ObjectsOf(a, id), ObjectsOf(b, id));
    }
  }

  /** Swapping the profiles mirrors the report, record by record and in the same order. */
  lemma CompareMirrors(a: Profile, b: Profile)
    ensures Pairwise(Mirroring(), Compare(a, b), Compare(b, a))
  {
    assert a.Keys + b.Keys == b.Keys + a.Keys;
    var ids := SortedKeys(a.Keys + b.Keys);
    forall id | id in ids
      ensures Pairwise(Mirroring(), SourceRecords(a, b)(id), SourceRecords(b, a)(id))
    {
      SourceChangesMirror(a, b, id);
    }
    FlatMapPairwise(Mirroring(), SourceRecords(a, b), SourceRecords(b, a), ids);
  }

  lemma {:induction false} CountsMirror(s: seq<Change>, t: seq<Change>, c: Category)
    requires Pairwise(Mirroring(), s, t)
    ensures CountOf(t, MirrorCategory(c)) == CountOf(s, c)
  {
    if s != [] {
      assert Mirrors(s[|s| - 1], t[|t| - 1]);
      CountsMirror(s[..|s| - 1], t[..|t| - 1], c);
    }
  }

  // --- the report in terms of the profiles' fields -------------------------------------------------

  predicate IsCollected(p: Profile, id: string) {
    id in p && p[id].status == "collected"
  }

  /** The last object of a key. */
  ghost predicate IsLast(items: seq<Item>, k: string, x: Item) {
    exists i :: 0 <= i < |items| && items[i] == x && x.key == k && forall j :: i < j < |items| ==> items[j].key != k
  }

  lemma {:induction false} ByKeyIsLast(items: seq<Item>, k: string)
    ensures k in ByKey(items) <==> exists i :: 0 <= i < |items| && items[i].key == k
    ensures k in ByKey(items) ==> IsLast(items, k, ByKey(items)[k])
  {
    if items != [] {
      var front, last := items[..|items| - 1], items[|items| - 1];
      ByKeyIsLast(front, k);
      assert forall i :: 0 <= i < |front| ==> front[i] == items[i];
      if last.key == k {
        assert items[|items| - 1] == last;
        assert IsLast(items, k, last);
      } else if k in ByKey(front) {
        var x := ByKey(front)[k];
        var i :| 0 <= i < |front| && front[i] == x && x.key == k && forall j :: i < j < |front| ==> front[j].key != k;
        assert items[i] == x && forall j :: i < j < |items| ==> items[j].key != k;
      }
    }
  }

  lemma LastIsUnique(items: seq<Item>, k: string, x: Item, y: Item)
    requires IsLast(items, k, x) && IsLast(items, k, y)
    ensures x == y
  {
    var i :| 0 <= i < |items| && items[i] == x && x.key == k && forall j :: i < j < |items| ==> items[j].key != k;
    var l :| 0 <= l < |items| && items[l] == y && y.key == k && forall j :: l < j < |items| ==> items[j].key != k;
    assert i == l;
  }

  /** `before` and `after` are the last objects of the key on both sides, where there are any. */
  ghost predicate Sides(a: Profile, b: Profile, id: string, k: string, before: Option<Item>, after: Option<Item>) {
    && IsCollected(a, id) && IsCollected(b, id)
    && (if before.Some? then IsLast(a[id].objects, k, before.value) else forall x :: x in a[id].objects ==> x.key != k)
    && (if after.Some? then IsLast(b[id].objects, k, after.value) else forall x :: x in b[id].objects ==> x.key != k)
  }

  /** On one side only, or with two hashes. */
  predicate Differ(before: Option<Item>, after: Option<Item>) {
    (before.Some? || after.Some?) && (before.Some? && after.Some? ==> before.value.sha != after.value.sha)
  }

  /** The record about a key with these objects, from left to right: what happened, to what, and the
      hashes; of a changed object the first hundred changed fields. */
  ghost predicate Describes(c: Change, id: string, k: string, before: Option<Item>, after: Option<Item>) {
    && Differ(before, after)
    && c.source == id && c.key == Some(k)
    && c.beforeSha == (if before.Some? then Some(before.value.sha) else None)
    && c.afterSha == (if after.Some? then Some(after.value.sha) else None)
    && (var shown := if after.Some? then after.value else before.value;
        c.kind == Some(shown.kind) && c.name == Some(shown.name))
    && (c.category == NewProblem <==> before.None? && c.kind == Some("finding"))
    && (c.category == Added <==> before.None? && c.kind != Some("finding"))
    && (c.category == Resolved <==> after.None? && c.kind == Some("finding"))
    && (c.category == Removed <==> after.None? && c.kind != Some("finding"))
    && (c.category == Changed <==> before.Some? && after.Some?)
    && (c.category == Changed ==>
          var texts := ChangedTexts(before.value.value, after.value.value, "");
          c.changedFields <= texts && |c.changedFields| == if |texts| < 100 then |texts| else 100)
  }

  lemma SidesAre(a: Profile, b: Profile, id: string, k: string, before: Option<Item>, after: Option<Item>)
    requires IsCollected(a, id) && IsCollected(b, id)
    ensures Sides(a, b, id, k, before, after)
        <==> before == Find(ObjectsOf(a, id), k) && after == Find(ObjectsOf(b, id), k)
  {
    SideIs(a[id].objects, k, before);
    SideIs(b[id].objects, k, after);
  }

  lemma SideIs(items: seq<Item>, k: string, x: Option<Item>)
    ensures (if x.Some? then IsLast(items, k, x.value) else forall y :: y in items ==> y.key != k)
        <==> x == Find(ByKey(items), k)
  {
    ByKeyIsLast(items, k);
    if x.Some? && IsLast(items, k, x.value) {
      var i :| 0 <= i < |items| && items[i] == x.value && x.value.key == k;
      LastIsUnique(items, k, x.value, ByKey(items)[k]);
    }
    if k in ByKey(items) {
      var i :| 0 <= i < |items| && items[i].key == k;
      assert items[i] in items;
    }
  }

  lemma ChangeDescribes(id: string, k: string, before: Option<Item>, after: Option<Item>)
    requires (before.Some? ==> before.value.key == k) && (after.Some? ==> after.value.key == k)
    ensures var r := ObjectChange(id, before, after);
            && (r.Some? <==> Differ(before, after))
            && (r.Some? ==> Describes(r.value, id, k, before, after) && r.value.category != Unverifiable)
  {
  }

  /** The difference of an object is reported if and only if its source was collected on both sides, and
      the object is on one side only or has two hashes. */
  lemma DifferencesExactly(a: Profile, b: Profile, id: string, k: string)
    ensures (exists c :: c in Compare(a, b) && c.category != Unverifiable && c.source == id && c.key == Some(k))
        <==> exists before: Option<Item>, after: Option<Item> :: Sides(a, b, id, k, before, after)
               && Differ(before, after)
    ensures forall c :: c in Compare(a, b) && c.category != Unverifiable && c.source == id && c.key == Some(k) ==>
              exists before, after :: Sides(a, b, id, k, before, after) && Describes(c, id, k, before, after)
  {
    forall c | c in Compare(a, b) && c.category != Unverifiable && c.source == id && c.key == Some(k)
      ensures exists before, after :: Sides(a, b, id, k, before, after) && Describes(c, id, k, before, after)
    {
      RecordDescribes(a, b, id, k, c);
    }
    if before: Option<Item>, after: Option<Item> :| Sides(a, b, id, k, before, after) && Differ(before, after) {
      DifferenceIsReported(a, b, id, k, before, after);
    }
  }

  lemma RecordDescribes(a: Profile, b: Profile, id: string, k: string, c: Change)
    requires c in Compare(a, b) && c.category != Unverifiable && c.source == id && c.key == Some(k)
    ensures exists before, after :: Sides(a, b, id, k, before, after) && Describes(c, id, k, before, after)
  {
    ReportedExactly(a, b, c);
    var id' :| (id' in a || id' in b) && Reports(a, b, id', c);
    var k' :| RecordOf(a, b, id', k') == Some(c);
    RecordMeaning(a, b, id', k');
    var before, after := Find(ObjectsOf(a, id), k), Find(ObjectsOf(b, id), k);
    SidesAre(a, b, id, k, before, after);
    ByKeyKeys(a[id].objects);
    ByKeyKeys(b[id].objects);
    ChangeDescribes(id, k, before, after);
  }

  lemma DifferenceIsReported(a: Profile, b: Profile, id: string, k: string, before: Option<Item>, after: Option<Item>)
    requires Sides(a, b, id, k, before, after)
    requires Differ(before, after)
    ensures exists c :: c in Compare(a, b) && c.category != Unverifiable && c.source == id && c.key == Some(k)
  {
    SidesAre(a, b, id, k, before, after);
    ByKeyKeys(a[id].objects);
    ByKeyKeys(b[id].objects);
    ChangeDescribes(id, k, before, after);
    var c := ObjectChange(id, before, after).value;
    assert RecordOf(a, b, id, k) == Some(c);
    assert Reports(a, b, id, c);
    ReportedExactly(a, b, c);
  }

  /** A gap is reported for a source exactly if it is missing on some side, and was collected or required
      on some side; the record states both statuses. */
  lemma GapsExactly(a: Profile, b: Profile, id: string)
    ensures (exists c :: c in Compare(a, b) && c.category == Unverifiable && c.source == id)
        <==> ((id in a || id in b) && !(IsCollected(a, id) && IsCollected(b, id))
              && (IsCollected(a, id) || IsCollected(b, id)
                  || (id in a && a[id].required) || (id in b && b[id].required)))
    ensures forall c :: c in Compare(a, b) && c.category == Unverifiable && c.source == id ==>
              && c.baselineStatus == Some(if id in a && a[id].status != "" then a[id].status else "missing")
              && c.currentStatus == Some(if id in b && b[id].status != "" then b[id].status else "missing")
  {
    MissingAreUnchecked(a, b);
    assert "missing"[0] != "collected"[0];
    assert (Collected(a, id) <==> IsCollected(a, id)) && (Collected(b, id) <==> IsCollected(b, id));
    assert Unchecked(a, b, id) <==> exists c :: c in Compare(a, b) && c.category == Unverifiable && c.source == id;
    forall c | c in Compare(a, b) && c.category == Unverifiable && c.source == id
      ensures c.baselineStatus == Some(StatusOf(a, id)) && c.currentStatus == Some(StatusOf(b, id))
    {
      GapMeaning(a, b, c);
    }
  }

  ghost predicate SomeUnchecked(a: Profile, b: Profile) {
    exists id :: Unchecked(a, b, id)
  }

  ghost predicate AllAgree(a: Profile, b: Profile) {
    forall id :: id in a || id in b ==> Agrees(a, b, id)
  }

  /** What a comparison publishes about a pair of profiles. */
  ghost predicate Publishes(a: Profile, b: Profile, r: Comparison) {
    && r.changes == Compare(a, b)
    && r.summary.Keys == ALL_CATEGORIES && (forall c :: c in r.summary ==> r.summary[c] == CountOf(r.changes, c))
    && (r.status == Incomplete <==> SomeUnchecked(a, b))
    && (r.status == NoChanges <==> AllAgree(a, b))
    && (forall id :: id in r.missingSources <==> Unchecked(a, b, id))
  }

  lemma AgreesBothWays(a: Profile, b: Profile, id: string)
    ensures Agrees(a, b, id) <==> Agrees(b, a, id)
  {
    var x, y := ObjectsOf(a, id), ObjectsOf(b, id);
    forall k ensures SameEntry(x, y, k) <==> SameEntry(y, x, k) {}
  }

  lemma UncheckedBothWays(a: Profile, b: Profile, id: string)
    ensures Unchecked(a, b, id) <==> Unchecked(b, a, id)
  {
  }

  lemma VerdictMirrors(a: Profile, b: Profile)
    ensures SomeUnchecked(a, b) <==> SomeUnchecked(b, a)
    ensures AllAgree(a, b) <==> AllAgree(b, a)
  {
    forall id ensures Unchecked(a, b, id) <==> Unchecked(b, a, id) { UncheckedBothWays(a, b, id); }
    forall id ensures Agrees(a, b, id) <==> Agrees(b, a, id) { AgreesBothWays(a, b, id); }
  }

  lemma MissingMirrors(a: Profile, b: Profile, m: set<string>, n: set<string>)
    requires forall id :: id in m <==> Unchecked(a, b, id)
    requires forall id :: id in n <==> Unchecked(b, a, id)
    ensures m == n
  {
    forall id ensures id in m <==> id in n { UncheckedBothWays(a, b, id); }
  }

  lemma SameStatus(incomplete: bool, agree: bool, r: Status, t: Status)
    requires (r == Incomplete <==> incomplete) && (r == NoChanges <==> agree)
    requires (t == Incomplete <==> incomplete) && (t == NoChanges <==> agree)
    ensures t == r
  {
  }

  lemma PublishedVerdictMirrors(a: Profile, b: Profile, r: Comparison, t: Comparison)
    requires Publishes(a, b, r) && Publishes(b, a, t)
    ensures t.status == r.status && t.missingSources == r.missingSources
  {
    VerdictMirrors(a, b);
    SameStatus(SomeUnchecked(a, b), AllAgree(a, b), r.status, t.status);
    MissingMirrors(a, b, r.missingSources, t.missingSources);
  }

  lemma PublishedCountsMirror(a: Profile, b: Profile, r: Comparison, t: Comparison, c: Category)
    requires Publishes(a, b, r) && Publishes(b, a, t)
    ensures MirrorCategory(c) in t.summary && c in r.summary && t.summary[MirrorCategory(c)] == r.summary[c]
  {
    AnyCategory(c);
    AnyCategory(MirrorCategory(c));
    CompareMirrors(a, b);
    CountsMirror(r.changes, t.changes, c);
  }

  /** Swapping the profiles keeps the verdict and the missing sources, and exchanges the counts. */
  lemma PublishedMirrors(a: Profile, b: Profile, r: Comparison, t: Comparison)
    requires Publishes(a, b, r) && Publishes(b, a, t)
    ensures t.status == r.status && t.missingSources == r.missingSources
    ensures forall c :: MirrorCategory(c) in t.summary && c in r.summary
                        && t.summary[MirrorCategory(c)] == r.summary[c]
  {
    PublishedVerdictMirrors(a, b, r, t);
    forall c ensures MirrorCategory(c) in t.summary && c in r.summary && t.summary[MirrorCategory(c)] == r.summary[c] {
      PublishedCountsMirror(a, b, r, t, c);
    }
  }

  // --- no record twice ------------------------------------------------------------------------------------

  lemma ChangeNames(id: string, before: Option<Item>, after: Option<Item>, k: string)
    requires (before.Some? ==> before.value.key == k) && (after.Some? ==> after.value.key == k)
    ensures var r := ObjectChange(id, before, after); r.Some? ==> r.value.key == Some(k) && r.value.source == id
  {
  }

  lemma RecordsOfKey(id: string, x: map<string, Item>, y: map<string, Item>, k: string)
    requires KeyedByKey(x) && KeyedByKey(y)
    ensures |ObjectRecords(id, x, y)(k)| <= 1
    ensures forall c :: c in ObjectRecords(id, x, y)(k) ==> c.key == Some(k) && c.source == id
  {
    var before, after := Find(x, k), Find(y, k);
    ChangeNames(id, before, after, k);
    assert ObjectRecords(id, x, y)(k) == Listed(ObjectChange(id, before, after));
  }

  lemma ObjectChangesDistinct(id: string, x: map<string, Item>, y: map<string, Item>)
    requires KeyedByKey(x) && KeyedByKey(y)
    ensures Distinct(ObjectChanges(id, x, y))
    ensures forall c :: c in ObjectChanges(id, x, y) ==> c.source == id
  {
    var keys := SortedKeys(x.Keys + y.Keys);
    var f := ObjectRecords(id, x, y);
    forall k | k in keys ensures Distinct(f(k)) && forall c :: c in f(k) ==> c.key == Some(k) && c.source == id {
      RecordsOfKey(id, x, y, k);
    }
    FlatMapDistinct(f, keys);
    forall c: Change | c in FlatMap(f, keys) ensures c.source == id {
      FlatMapMembers(f, keys, c);
    }
  }

  lemma SourceChangesDistinct(a: Profile, b: Profile, id: string)
    ensures Distinct(SourceChanges(a, b, id))
    ensures forall c :: c in SourceChanges(a, b, id) ==> c.source == id
  {
    if id in a { ByKeyKeys(a[id].objects); }
    if id in b { ByKeyKeys(b[id].objects); }
    ObjectChangesDistinct(id, ObjectsOf(a, id), ObjectsOf(b, id));
  }

  /** No record is reported twice; in particular an unchecked source is reported once. */
  lemma ReportedOnce(a: Profile, b: Profile)
    ensures Distinct(Compare(a, b))
    ensures forall i, j :: 0 <= i < j < |Compare(a, b)| && Compare(a, b)[i].category == Unverifiable
                           && Compare(a, b)[j].category == Unverifiable ==>
                             Compare(a, b)[i].source != Compare(a, b)[j].source
  {
    var ids := SortedKeys(a.Keys + b.Keys);
    forall id | id in ids
      ensures Distinct(SourceRecords(a, b)(id)) && forall c :: c in SourceRecords(a, b)(id) ==> c.source == id
    {
      SourceChangesDistinct(a, b, id);
    }
    FlatMapDistinct(SourceRecords(a, b), ids);
    var all := Compare(a, b);
    forall i, j | 0 <= i < j < |all| && all[i].category == Unverifiable && all[j].category == Unverifiable
      ensures all[i].source != all[j].source
    {
      assert all[i] in all && all[j] in all;
      GapMeaning(a, b, all[i]);
      GapMeaning(a, b, all[j]);
    }
  }

  // --- hashes and values --------------------------------------------------------------------------------

  /** Objects made by the profile builder pass validation, and equal hashes mean equal values. */
  lemma EqualHashesEqualValues(rules: Rules, hash: Hash, x: Item, y: Item, k: string, vx: Json, vy: Json)
    requires rules.Idempotent() && TellsApart(hash, Stable(rules, vx), Stable(rules, vy))
    requires x == MakeItem(rules, hash, k, x.kind, x.name, vx) && y == MakeItem(rules, hash, k, y.kind, y.name, vy)
    ensures HashFits(rules, hash, x) && HashFits(rules, hash, y)
    ensures x.sha == y.sha <==> x.value == y.value
  {
    StableTwice(rules, vx);
    StableTwice(rules, vy);
  }

  /** A `Changed` record names a field exactly when Python's == tells the two values apart. */
  lemma ChangedNamesFields(id: string, x: Item, y: Item)
    requires x.sha != y.sha
    ensures ObjectChange(id, Some(x), Some(y)).value.changedFields != [] <==> !PyEq(x.value, y.value)
  {
    OneTextPerPlace(x.value, y.value, "");
    NoPathsIffEqual(x.value, y.value);
  }

  /** Without booleans and floats every `Changed` record of built objects names a field. */
  lemma ChangedNamesFieldsForIntegers(rules: Rules, hash: Hash, id: string, x: Item, y: Item)
    requires HashFits(rules, hash, x) && HashFits(rules, hash, y) && x.sha != y.sha
    requires IntegersOnly(x.value) && IntegersOnly(y.value)
    ensures ObjectChange(id, Some(x), Some(y)).value.changedFields != []
  {
    ChangedNamesFields(id, x, y);
    if PyEq(x.value, y.value) { PyEqIsIdentity(x.value, y.value); }
  }

  function OneField(f: string, v: Json): Json {
    JObj(map[f := v])
  }

  lemma StableOneField(rules: Rules, f: string, v: Json)
    requires !rules.volatile(f) && (v.JBool? || v.JInt?)
    ensures Stable(rules, OneField(f, v)) == OneField(f, v)
  {
    assert Stable(rules, OneField(f, v)).fields == map[f := v];
  }

  /** A field that turns from `true` into `1` is reported as changed with no field named, by every
      hash that tells the two documents apart. */
  lemma ChangedWithoutFields(rules: Rules, hash: Hash, id: string, f: string)
    requires !rules.volatile(f) && TellsApart(hash, OneField(f, JBool(true)), OneField(f, JInt(1)))
    ensures var x := MakeItem(rules, hash, "k", "storage_class", "n", OneField(f, JBool(true)));
            var y := MakeItem(rules, hash, "k", "storage_class", "n", OneField(f, JInt(1)));
            && x.sha != y.sha
            && ObjectChange(id, Some(x), Some(y)).value.changedFields == []
  {
    var vx, vy := OneField(f, JBool(true)), OneField(f, JInt(1));
    StableOneField(rules, f, JBool(true));
    StableOneField(rules, f, JInt(1));
    assert vx.fields[f] != vy.fields[f];
    assert PyEq(vx.fields[f], vy.fields[f]);
    assert PyEq(vx, vy);
    ChangedNamesFields(id, MakeItem(rules, hash, "k", "storage_class", "n", vx),
                       MakeItem(rules, hash, "k", "storage_class", "n", vy));
  }

  /** A hash for any two documents that tells them apart, and rules that hide no field. */
  function SampleHash(a: Json): Hash {
    (j: Json) => if j == a then "a" else "b"
  }

  function SampleRules(): Rules {
    Rules((s: string) => s, (s: string) => false)
  }

  lemma SampleHashTellsApart(a: Json, b: Json)
    ensures TellsApart(SampleHash(a), a, b) && SampleRules().Idempotent()
  {
  }

  /** The case exists, under any key. */
  lemma SampleChangedWithoutFields(id: string, f: string)
    ensures exists hash, x, y :: HashFits(SampleRules(), hash, x) && HashFits(SampleRules(), hash, y) && x.sha != y.sha
                                 && ObjectChange(id, Some(x), Some(y)).value.changedFields == []
  {
    var rules, hash := SampleRules(), SampleHash(OneField(f, JBool(true)));
    SampleHashTellsApart(OneField(f, JBool(true)), OneField(f, JInt(1)));
    ChangedWithoutFields(rules, hash, id, f);
    StableOneField(rules, f, JBool(true));
    StableOneField(rules, f, JInt(1));
    var x := MakeItem(rules, hash, "k", "storage_class", "n", OneField(f, JBool(true)));
    var y := MakeItem(rules, hash, "k", "storage_class", "n", OneField(f, JInt(1)));
    assert HashFits(rules, hash, x) && HashFits(rules, hash, y);
  }
}
