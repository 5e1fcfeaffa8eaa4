/** The approval of a baseline candidate and the verification of an approved baseline (baseline.py). */
module Approval {
  import opened Wrappers
  import opened Order
  import opened Seqs
  import opened Text
  import opened Json
  import opened Baseline

  const SCHEMA_VERSION := 1
  const CANDIDATE_KIND := "kdiag_baseline_candidate"
  const APPROVED_KIND := "kdiag_approved_baseline"

  datatype Quality = Quality(critical: seq<string>, gaps: seq<string>)

  datatype ProfileDoc = ProfileDoc(schema: int, sources: Profile, quality: Quality)

  datatype ApprovalInfo = ApprovalInfo(
    approvedBy: string,
    approvedAt: string,
    unsafeOverride: bool,
    reasons: seq<string>)

  /** A candidate or an approved baseline; absent fields are `None`. */
  datatype Document = Document(
    schema: int,
    kind: string,
    name: string,
    createdAt: string,
    collectionId: string,
    algorithm: string,
    profileSha: Option<string>,
    documentSha: Option<string>,
    profile: ProfileDoc,
    approval: Option<ApprovalInfo>)

  /** Hashing and the JSON text of a document, left uninterpreted. */
  datatype Codec = Codec(
    rules: Rules,
    hashValue: Json -> string,
    hashProfile: ProfileDoc -> string,
    hashDocument: Document -> string,
    isDigest: string -> bool,
    print_: Document -> string,
    parse: string -> Option<Document>)
  {
    /** The document carries a digest, and reading its text back gives the document. */
    predicate WritesBack(d: Document) {
      d.documentSha.Some? && isDigest(d.documentSha.value) && parse(print_(d)) == Some(d)
    }

    /** The hashes of these two documents do not collide. */
    predicate TellsApart(a: Document, b: Document) {
      hashDocument(a) == hashDocument(b) ==> a == b
    }
  }

  datatype Error =
    | BadAuthor
    | Unreadable
    | NotCanonical
    | WrongKind
    | WrongAlgorithm
    | BadDigest
    | ProfileMismatch
    | InvalidProfile
    | DocumentMismatch
    | NoApproval
    | Blocked
    | NoReasons

  // --- the profile inside a document ----------------------------------------------------------

  predicate IsCritical(item: Item) {
    item.kind == "finding" && item.value.JObj? && "severity" in item.value.fields
    && item.value.fields["severity"] == JStr("critical")
  }

  /** The names of the critical findings of one source. */
  function CriticalIn(items: seq<Item>): seq<string> {
    FlatMap(CriticalName(), items)
  }

  function CriticalName(): Item -> seq<string> {
    (item: Item) => if IsCritical(item) then [item.name] else []
  }

  function CriticalOf(sources: Profile): string -> seq<string> {
    (id: string) => if id in sources then CriticalIn(sources[id].objects) else []
  }

  /** The names of all critical findings, source by source. */
  function CriticalNames(sources: Profile): seq<string> {
    FlatMap(CriticalOf(sources), SortedKeys(sources.Keys))
  }

  function GapOf(id: string, source: Source): string {
    id + ":" + (if source.status != "" then source.status else "missing")
  }

  predicate IsGap(source: Source) {
    source.required && source.status != "collected"
  }

  predicate HashedItem(codec: Codec, item: Item) {
    item.key != "" && codec.isDigest(item.sha) && HashFits(codec.rules, codec.hashValue, item)
  }

  /** An object under its hash; the validation also stops at a finding whose value has no fields. */
  predicate ValidItem(codec: Codec, item: Item) {
    HashedItem(codec, item) && (item.kind == "finding" ==> item.value.JObj?)
  }

  ghost predicate ValidItems(codec: Codec, items: seq<Item>) {
    && (forall i :: 0 <= i < |items| ==> ValidItem(codec, items[i]))
    && (forall i, j :: 0 <= i < j < |items| ==> items[i].key != items[j].key)
  }

  /** What `_validate_profile` accepts: every object under its own hash and an own key, and a quality
      summary that names exactly the critical findings and at least the required gaps. */
  ghost predicate ValidProfile(codec: Codec, p: ProfileDoc) {
    && p.schema == SCHEMA_VERSION
    && AllValid(codec, p.sources)
    && multiset(p.quality.critical) == multiset(CriticalNames(p.sources))
    && (forall id :: id in p.sources && IsGap(p.sources[id]) ==> GapOf(id, p.sources[id]) in p.quality.gaps)
  }

  function KeysOf(items: seq<Item>): set<string> {
    set item | item in items :: item.key
  }

  lemma ValidItemsNext(codec: Codec, items: seq<Item>, i: nat)
    requires i < |items|
    ensures ValidItems(codec, items[..i + 1]) <==>
              ValidItems(codec, items[..i]) && ValidItem(codec, items[i]) && items[i].key !in KeysOf(items[..i])
    ensures KeysOf(items[..i + 1]) == KeysOf(items[..i]) + {items[i].key}
  {
    var now, next := items[..i], items[..i + 1];
    assert next == now + [items[i]];
    assert items[i].key in KeysOf(now) <==> exists j :: 0 <= j < i && now[j].key == items[i].key;
  }

  lemma {:induction false} ValidPrefix(codec: Codec, items: seq<Item>, i: nat)
    requires i <= |items| && ValidItems(codec, items)
    ensures ValidItems(codec, items[..i])
  {
  }

  /** The tests on one object. */
  method ValidateItem(codec: Codec, item: Item) returns (ok: bool)
    ensures ok <==> ValidItem(codec, item)
  {
    if item.key == "" { return false; }
    if !codec.isDigest(item.sha) || item.sha != codec.hashValue(Stable(codec.rules, item.value)) { return false; }
    if item.kind == "finding" && !item.value.JObj? { return false; }
    return true;
  }

  /** The loop over the objects of one source, with the set of keys seen. */
  method ValidateItems(codec: Codec, items: seq<Item>) returns (ok: bool, critical: seq<string>)
    ensures ok <==> ValidItems(codec, items)
    ensures ok ==> critical == CriticalIn(items)
  {
    critical := [];
    var seen: set<string> := {};
    var i := 0;
    while i < |items|
      invariant i <= |items| && ValidItems(codec, items[..i])
      invariant seen == KeysOf(items[..i])
      invariant critical == FlatMap(CriticalName(), items[..i])
    {
      var item := items[i];
      if ValidItems(codec, items) { ValidPrefix(codec, items, i + 1); }
      ValidItemsNext(codec, items, i);
      FlatMapNext(CriticalName(), items, i);
      if item.key in seen { return false, critical; }
      var fine := ValidateItem(codec, item);
      if !fine { return false, critical; }
      seen := seen + {item.key};
      if item.kind == "finding" && "severity" in item.value.fields
         && item.value.fields["severity"] == JStr("critical")
      {
        critical := critical + [item.name];
      }
      i := i + 1;
    }
    assert items[..|items|] == items;
    ok := true;
  }

  /** The entry a source adds to the required gaps. */
  function GapEntry(sources: Profile): string -> seq<string> {
    (id: string) => if id in sources && IsGap(sources[id]) then [GapOf(id, sources[id])] else []
  }

  /** The required sources that were not collected. */
  function RequiredGaps(sources: Profile): seq<string> {
    FlatMap(GapEntry(sources), SortedKeys(sources.Keys))
  }

  lemma RequiredGapsMembers(sources: Profile, g: string)
    ensures g in RequiredGaps(sources)
        <==> exists id :: id in sources && IsGap(sources[id]) && GapOf(id, sources[id]) == g
  {
    var ids := SortedKeys(sources.Keys);
    FlatMapMembers(GapEntry(sources), ids, g);
    if id :| id in sources && IsGap(sources[id]) && GapOf(id, sources[id]) == g {
      assert id in ids && g in GapEntry(sources)(id);
    }
  }

  /** The first `n` of the listed sources are valid. */
  ghost predicate ValidUpTo(codec: Codec, sources: Profile, ids: seq<string>, n: nat) {
    forall j :: 0 <= j < n && j < |ids| ==> ids[j] in sources && ValidItems(codec, sources[ids[j]].objects)
  }

  ghost predicate AllValid(codec: Codec, sources: Profile) {
    forall id :: id in sources ==> ValidItems(codec, sources[id].objects)
  }

  lemma AllListed(codec: Codec, sources: Profile, ids: seq<string>)
    requires forall id :: id in ids <==> id in sources
    ensures ValidUpTo(codec, sources, ids, |ids|) <==> AllValid(codec, sources)
  {
    if ValidUpTo(codec, sources, ids, |ids|) {
      forall id | id in sources ensures ValidItems(codec, sources[id].objects) { assert id in ids; }
    }
    assert forall j :: 0 <= j < |ids| ==> ids[j] in ids;
  }

  /** The loop over the sources. */
  method ValidateSources(codec: Codec, sources: Profile) returns (ok: bool, critical: seq<string>, gaps: seq<string>)
    ensures ok <==> AllValid(codec, sources)
    ensures ok ==> critical == CriticalNames(sources) && gaps == RequiredGaps(sources)
  {
    var ids := SortedKeys(sources.Keys);
    critical, gaps := [], [];
    for i := 0 to |ids|
      invariant ValidUpTo(codec, sources, ids, i)
      invariant critical == FlatMap(CriticalOf(sources), ids[..i])
      invariant gaps == FlatMap(GapEntry(sources), ids[..i])
    {
      assert ids[i] in ids;
      var source := sources[ids[i]];
      FlatMapNext(CriticalOf(sources), ids, i);
      FlatMapNext(GapEntry(sources), ids, i);
      if source.required && source.status != "collected" {
        var status := if source.status != "" then source.status else "missing";
        gaps := gaps + [ids[i] + ":" + status];
      }
      assert gaps == FlatMap(GapEntry(sources), ids[..i + 1]);
      var fine, found := ValidateItems(codec, source.objects);
      if !fine { return false, critical, gaps; }
      critical := critical + found;
    }
    assert ids[..|ids|] == ids;
    AllListed(codec, sources, ids);
    ok := true;
  }

  lemma GapsRecorded(sources: Profile, recorded: seq<string>)
    ensures (forall g :: g in RequiredGaps(sources) ==> g in recorded)
        <==> forall id :: id in sources && IsGap(sources[id]) ==> GapOf(id, sources[id]) in recorded
  {
    forall g
      ensures g in RequiredGaps(sources) <==>
                exists id :: id in sources && IsGap(sources[id]) && GapOf(id, sources[id]) == g
    {
      RequiredGapsMembers(sources, g);
    }
  }

  /** `_validate_profile`. */
  method ValidateProfile(codec: Codec, p: ProfileDoc) returns (ok: bool)
    ensures ok <==> ValidProfile(codec, p)
  {
    if p.schema != SCHEMA_VERSION { return false; }
    var fine, critical, gaps := ValidateSources(codec, p.sources);
    if !fine { return false; }
    GapsRecorded(p.sources, p.quality.gaps);
    return multiset(p.quality.critical) == multiset(critical) && forall g :: g in gaps ==> g in p.quality.gaps;
  }

  // --- approving -----------------------------------------------------------------------------------

  /** The text that is hashed: the document without its own hash. */
  function DocumentSha(codec: Codec, d: Document): string {
    codec.hashDocument(d.(documentSha := None))
  }

  predicate GoodAuthor(author: string) {
    0 < |author| <= 256 && forall i :: 0 <= i < |author| ==> author[i] >= ' '
  }

  /** The reasons that block an approval. */
  function Reasons(q: Quality): seq<string> {
    (if q.critical != [] then ["active critical findings: " + JoinTexts(", ", q.critical)] else [])
    + (if q.gaps != [] then ["material collection gaps: " + JoinTexts(", ", q.gaps)] else [])
  }

  ghost predicate ValidCandidate(codec: Codec, d: Document) {
    && d.schema == SCHEMA_VERSION && d.kind == CANDIDATE_KIND && d.algorithm == "sha256"
    && d.profileSha == Some(codec.hashProfile(d.profile)) && codec.isDigest(codec.hashProfile(d.profile))
    && ValidProfile(codec, d.profile)
  }

  /** The document an approval writes. */
  function Approved(codec: Codec, d: Document, author: string, now: string, overrideUnsafe: bool): Document {
    var reasons := if overrideUnsafe then Reasons(d.profile.quality) else [];
    var unsealed := d.(kind := APPROVED_KIND, approval := Some(ApprovalInfo(author, now, overrideUnsafe, reasons)));
    unsealed.(documentSha := Some(DocumentSha(codec, unsealed)))
  }

  /** `_validate_candidate`. */
  method ValidateCandidate(codec: Codec, d: Document) returns (problem: Option<Error>)
    ensures problem.None? <==> ValidCandidate(codec, d)
    ensures problem != Some(Blocked)
  {
    if d.schema != SCHEMA_VERSION || d.kind != CANDIDATE_KIND { return Some(WrongKind); }
    if d.algorithm != "sha256" || d.profileSha.None? || !codec.isDigest(d.profileSha.value) { return Some(BadDigest); }
    if codec.hashProfile(d.profile) != d.profileSha.value { return Some(ProfileMismatch); }
    var valid := ValidateProfile(codec, d.profile);
    return if valid then None else Some(InvalidProfile);
  }

  /** When an approval goes through. */
  ghost predicate Approvable(codec: Codec, file: string, approvedBy: string, overrideUnsafe: bool) {
    && GoodAuthor(Strip(approvedBy))
    && codec.parse(file).Some? && ValidCandidate(codec, codec.parse(file).value)
    && (Reasons(codec.parse(file).value.profile.quality) == [] || overrideUnsafe)
  }

  /** The reasons against an approval, one for each kind. */
  method ListReasons(critical: seq<string>, gaps: seq<string>) returns (reasons: seq<string>)
    ensures reasons == Reasons(Quality(critical, gaps))
  {
    reasons := [];
    if critical != [] { reasons := reasons + ["active critical findings: " + JoinTexts(", ", critical)]; }
    if gaps != [] { reasons := reasons + ["material collection gaps: " + JoinTexts(", ", gaps)]; }
  }

  /** `approve_candidate`: the text of the approved baseline. */
  method Approve(codec: Codec, file: string, approvedBy: string, now: string, overrideUnsafe: bool)
    returns (r: Result<string, Error>)
    ensures r.Success? <==> Approvable(codec, file, approvedBy, overrideUnsafe)
    ensures r.Success? ==>
              r.value == codec.print_(Approved(codec, codec.parse(file).value, Strip(approvedBy), now, overrideUnsafe))
    ensures r == Failure(Blocked) <==>
              GoodAuthor(Strip(approvedBy)) && codec.parse(file).Some? && ValidCandidate(codec, codec.parse(file).value)
              && Reasons(codec.parse(file).value.profile.quality) != [] && !overrideUnsafe
  {
    var author := Strip(approvedBy);
    if author == "" || |author| > 256 || exists i :: 0 <= i < |author| && (author[i] as int) < 32 {
      return Failure(BadAuthor);
    }
    var read := codec.parse(file);
    if read.None? { return Failure(Unreadable); }
    var candidate := read.value;
    var problem := ValidateCandidate(codec, candidate);
    if problem.Some? { return Failure(problem.value); }
    var reasons := ListReasons(candidate.profile.quality.critical, candidate.profile.quality.gaps);
    if reasons != [] && !overrideUnsafe { return Failure(Blocked); }
    var approved := candidate;
    approved := approved.(kind := APPROVED_KIND);
    var recorded := if overrideUnsafe then reasons else [];
    approved := approved.(approval := Some(ApprovalInfo(author, now, overrideUnsafe, recorded)));
    approved := approved.(documentSha := Some(codec.hashDocument(approved.(documentSha := None))));
    return Success(codec.print_(approved));
  }

  // --- verifying -------------------------------------------------------------------------------------

  predicate HasBlockers(q: Quality) {
    q.critical != [] || q.gaps != []
  }

  /** What `verify_approved_baseline` accepts. */
  ghost predicate Accepted(codec: Codec, file: string, d: Document) {
    && codec.parse(file) == Some(d) && codec.print_(d) == file
    && d.schema == SCHEMA_VERSION && d.kind == APPROVED_KIND && d.algorithm == "sha256"
    && d.profileSha.Some? && codec.isDigest(d.profileSha.value)
    && d.documentSha.Some? && codec.isDigest(d.documentSha.value)
    && codec.hashProfile(d.profile) == d.profileSha.value
    && ValidProfile(codec, d.profile)
    && DocumentSha(codec, d) == d.documentSha.value
    && d.approval.Some? && d.approval.value.approvedBy != "" && d.approval.value.approvedAt != ""
    && (HasBlockers(d.profile.quality) ==> d.approval.value.unsafeOverride)
    && (d.approval.value.unsafeOverride ==> d.approval.value.reasons != [])
  }

  /** `verify_approved_baseline`. */
  method Verify(codec: Codec, file: string) returns (r: Result<Document, Error>)
    ensures r.Success? ==> Accepted(codec, file, r.value)
    ensures r.Failure? ==> forall d :: !Accepted(codec, file, d)
  {
    var read := codec.parse(file);
    if read.None? { return Failure(Unreadable); }
    var d := read.value;
    if codec.print_(d) != file { return Failure(NotCanonical); }
    if d.schema != SCHEMA_VERSION || d.kind != APPROVED_KIND { return Failure(WrongKind); }
    if d.algorithm != "sha256" { return Failure(WrongAlgorithm); }
    if d.profileSha.None? || !codec.isDigest(d.profileSha.value) { return Failure(BadDigest); }
    if d.documentSha.None? || !codec.isDigest(d.documentSha.value) { return Failure(BadDigest); }
    if codec.hashProfile(d.profile) != d.profileSha.value { return Failure(ProfileMismatch); }
    var valid := ValidateProfile(codec, d.profile);
    if !valid { return Failure(InvalidProfile); }
    if codec.hashDocument(d.(documentSha := None)) != d.documentSha.value { return Failure(DocumentMismatch); }
    if d.approval.None? || d.approval.value.approvedBy == "" || d.approval.value.approvedAt == "" {
      return Failure(NoApproval);
    }
    var blocked := d.profile.quality.critical != [] || d.profile.quality.gaps != [];
    if blocked && !d.approval.value.unsafeOverride { return Failure(Blocked); }
    if d.approval.value.unsafeOverride && d.approval.value.reasons == [] { return Failure(NoReasons); }
    return Success(d);
  }

  // --- the life cycle -----------------------------------------------------------------------------------

  /** An approval without reasons, although the override was asked for. */
  predicate PointlessOverride(q: Quality, overrideUnsafe: bool) {
    overrideUnsafe && q.critical == [] && q.gaps == []
  }

  lemma ReasonsIffBlockers(q: Quality)
    ensures Reasons(q) != [] <==> HasBlockers(q)
  {
  }

  lemma ApprovedSeal(codec: Codec, d: Document, author: string, now: string, overrideUnsafe: bool)
    ensures var a := Approved(codec, d, author, now, overrideUnsafe);
            a.documentSha == Some(DocumentSha(codec, a))
  {
    var a := Approved(codec, d, author, now, overrideUnsafe);
    assert a.(documentSha := None) == d.(kind := APPROVED_KIND, approval := a.approval, documentSha := None);
  }

  /** What was approved verifies, unless the override was given without any reason to override:
      that flag writes a baseline no comparison will ever accept. */
  lemma ApprovedVerifiesExactly(codec: Codec, file: string, approvedBy: string, now: string, overrideUnsafe: bool)
    requires now != "" && Approvable(codec, file, approvedBy, overrideUnsafe)
    requires codec.WritesBack(Approved(codec, codec.parse(file).value, Strip(approvedBy), now, overrideUnsafe))
    ensures var candidate := codec.parse(file).value;
            var d := Approved(codec, candidate, Strip(approvedBy), now, overrideUnsafe);
            (exists e :: Accepted(codec, codec.print_(d), e))
                <==> !PointlessOverride(candidate.profile.quality, overrideUnsafe)
  {
    var candidate := codec.parse(file).value;
    var d := Approved(codec, candidate, Strip(approvedBy), now, overrideUnsafe);
    ApprovedSeal(codec, candidate, Strip(approvedBy), now, overrideUnsafe);
    ReasonsIffBlockers(candidate.profile.quality);
    assert codec.parse(codec.print_(d)) == Some(d);
    if !PointlessOverride(candidate.profile.quality, overrideUnsafe) {
      assert Accepted(codec, codec.print_(d), d);
    }
  }

  /** An accepted baseline with blockers was approved by an override, and says why. */
  lemma BlockersCarryReasons(codec: Codec, file: string, d: Document)
    requires Accepted(codec, file, d)
    requires d.profile.quality.gaps != [] || CriticalNames(d.profile.sources) != []
    ensures d.approval.Some? && d.approval.value.unsafeOverride && d.approval.value.reasons != []
  {
    var names := CriticalNames(d.profile.sources);
    assert |multiset(d.profile.quality.critical)| == |multiset(names)|;
  }

  /** So does a single critical finding anywhere in the profile. */
  lemma CriticalCarriesReasons(codec: Codec, file: string, d: Document, id: string, item: Item)
    requires Accepted(codec, file, d) && id in d.profile.sources && item in d.profile.sources[id].objects
    requires item.kind == "finding" && item.value.JObj? && "severity" in item.value.fields
    requires item.value.fields["severity"] == JStr("critical")
    ensures d.approval.value.unsafeOverride && d.approval.value.reasons != []
    ensures item.name in d.profile.quality.critical
  {
    var sources := d.profile.sources;
    FlatMapMembers(CriticalName(), sources[id].objects, item.name);
    assert item.name in CriticalName()(item);
    assert item.name in CriticalOf(sources)(id);
    FlatMapMembers(CriticalOf(sources), SortedKeys(sources.Keys), item.name);
    assert item.name in multiset(CriticalNames(sources));
    assert item.name in multiset(d.profile.quality.critical);
  }

  /** A source that was required and not collected makes an accepted baseline carry an override. */
  lemma GapsCarryReasons(codec: Codec, file: string, d: Document, id: string)
    requires Accepted(codec, file, d) && id in d.profile.sources
    requires d.profile.sources[id].required && d.profile.sources[id].status != "collected"
    ensures d.approval.value.unsafeOverride && d.approval.value.reasons != []
    ensures id + ":" + (if d.profile.sources[id].status == "" then "missing" else d.profile.sources[id].status)
         in d.profile.quality.gaps
  {
    assert GapOf(id, d.profile.sources[id]) in d.profile.quality.gaps;
  }

  /** The document hash identifies the whole file: without a collision of the two hashed documents
      nothing can be edited behind it. */
  lemma HashIdentifiesFile(codec: Codec, f: string, g: string, d: Document, e: Document)
    requires Accepted(codec, f, d) && Accepted(codec, g, e)
    requires codec.TellsApart(d.(documentSha := None), e.(documentSha := None))
    ensures d.documentSha == e.documentSha <==> f == g
  {
    if d.documentSha == e.documentSha {
      assert codec.hashDocument(d.(documentSha := None)) == codec.hashDocument(e.(documentSha := None));
      assert d.(documentSha := None) == e.(documentSha := None);
      assert d == e.(documentSha := d.documentSha);
    }
  }

  /** Approving neither edits nor invents: whatever is accepted from the written file carries the
      candidate's profile, name and origin, and the author; and the file cannot be approved again. */
  lemma AcceptedIsCandidate(codec: Codec, file: string, approvedBy: string, now: string, overrideUnsafe: bool,
                            e: Document)
    requires Approvable(codec, file, approvedBy, overrideUnsafe)
    requires codec.WritesBack(Approved(codec, codec.parse(file).value, Strip(approvedBy), now, overrideUnsafe))
    requires var written := Approved(codec, codec.parse(file).value, Strip(approvedBy), now, overrideUnsafe);
             Accepted(codec, codec.print_(written), e)
    ensures var candidate := codec.parse(file).value;
            && e.profile == candidate.profile && e.profileSha == candidate.profileSha && e.name == candidate.name
            && e.createdAt == candidate.createdAt && e.collectionId == candidate.collectionId
            && e.approval.value.approvedBy == Strip(approvedBy) && e.approval.value.unsafeOverride == overrideUnsafe
            && candidate.kind == "kdiag_baseline_candidate" && e.kind == "kdiag_approved_baseline"
            && candidate.schema == e.schema == 1
    ensures forall author, unsafe :: !Approvable(codec, codec.print_(e), author, unsafe)
    ensures forall f :: codec.parse(f) == codec.parse(file) ==> !Accepted(codec, f, codec.parse(file).value)
  {
    assert APPROVED_KIND[6] != CANDIDATE_KIND[6];
    assert codec.parse(codec.print_(e)) == Some(e);
  }

  // --- an example ---------------------------------------------------------------------------------------

  /** A candidate with an empty profile: nothing blocks its approval. */
  function Sample(name: string): Document {
    Document(SCHEMA_VERSION, CANDIDATE_KIND, name, "created", "collection", "sha256", Some("profile"), None,
             ProfileDoc(SCHEMA_VERSION, map[], Quality([], [])), None)
  }

  function Flag(overrideUnsafe: bool): string {
    if overrideUnsafe then "o" else "a"
  }

  function SampleApproved(name: string, overrideUnsafe: bool): Document {
    Sample(name).(kind := APPROVED_KIND, documentSha := Some(Flag(overrideUnsafe) + name),
                  approval := Some(ApprovalInfo("ops", "now", overrideUnsafe, [])))
  }

  /** The text and the hash of a sample document: its name and how it was approved. */
  function SampleText(d: Document): string {
    (if d.approval.Some? then Flag(d.approval.value.unsafeOverride) else "c") + d.name
  }

  function SampleParse(text: string): Option<Document> {
    if text == "" then None
    else if text[0] == 'c' then Some(Sample(text[1..]))
    else Some(SampleApproved(text[1..], text[0] == 'o'))
  }

  /** A codec that writes, reads back and tells apart the sample documents. */
  function SampleCodec(): Codec {
    Codec(Rules((s: string) => s, (s: string) => false), (j: Json) => "value", (p: ProfileDoc) => "profile",
          (d: Document) => SampleText(d), (s: string) => true,
          (d: Document) => SampleText(d), (s: string) => SampleParse(s))
  }

  lemma StripOps()
    ensures Strip("ops") == "ops" && GoodAuthor(Strip("ops"))
  {
    assert StripLeft("ops") == "ops";
    assert StripRight("ops") == "ops";
  }

  lemma SampleProfileValid(codec: Codec, name: string)
    ensures ValidProfile(codec, Sample(name).profile)
  {
    var sources: Profile := map[];
    assert SortedKeys(sources.Keys) == [];
    assert CriticalNames(sources) == [];
  }

  lemma SampleRead(name: string, overrideUnsafe: bool)
    ensures SampleCodec().parse("c" + name) == Some(Sample(name))
    ensures SampleCodec().WritesBack(SampleApproved(name, overrideUnsafe))
    ensures SampleCodec().print_(SampleApproved(name, overrideUnsafe)) == Flag(overrideUnsafe) + name
  {
    assert ("c" + name)[1..] == name && (Flag(overrideUnsafe) + name)[1..] == name;
  }

  lemma SampleIsCandidate(name: string)
    ensures ValidCandidate(SampleCodec(), Sample(name))
  {
    SampleProfileValid(SampleCodec(), name);
  }

  lemma UnblockedIsApprovable(codec: Codec, file: string, approvedBy: string, overrideUnsafe: bool, d: Document)
    requires codec.parse(file) == Some(d) && ValidCandidate(codec, d) && GoodAuthor(Strip(approvedBy))
    requires !HasBlockers(d.profile.quality)
    ensures Approvable(codec, file, approvedBy, overrideUnsafe)
  {
  }

  lemma SampleApprovable(name: string, overrideUnsafe: bool)
    ensures Approvable(SampleCodec(), "c" + name, "ops", overrideUnsafe)
  {
    StripOps();
    SampleRead(name, overrideUnsafe);
    SampleIsCandidate(name);
    UnblockedIsApprovable(SampleCodec(), "c" + name, "ops", overrideUnsafe, Sample(name));
  }

  lemma SampleSealed(name: string, overrideUnsafe: bool)
    ensures Approved(SampleCodec(), Sample(name), "ops", "now", overrideUnsafe) == SampleApproved(name, overrideUnsafe)
  {
    assert Reasons(Quality([], [])) == [];
  }

  lemma SampleVerifies(name: string, overrideUnsafe: bool)
    ensures Approvable(SampleCodec(), "c" + name, "ops", overrideUnsafe)
    ensures SampleCodec().print_(Approved(SampleCodec(), Sample(name), Strip("ops"), "now", overrideUnsafe))
         == Flag(overrideUnsafe) + name
    ensures (exists e :: Accepted(SampleCodec(), Flag(overrideUnsafe) + name, e)) <==> !overrideUnsafe
  {
    StripOps();
    SampleRead(name, overrideUnsafe);
    SampleApprovable(name, overrideUnsafe);
    SampleSealed(name, overrideUnsafe);
    ApprovedVerifiesExactly(SampleCodec(), "c" + name, "ops", "now", overrideUnsafe);
  }

  /** The override makes the difference: the file that a plain approval of the sample writes is accepted,
      and the one that an approval with the override writes is rejected for good. */
  lemma OverrideSpoilsSample(name: string)
    ensures Approvable(SampleCodec(), "c" + name, "ops", false) && Approvable(SampleCodec(), "c" + name, "ops", true)
    ensures SampleCodec().print_(Approved(SampleCodec(), Sample(name), Strip("ops"), "now", false)) == "a" + name
    ensures SampleCodec().print_(Approved(SampleCodec(), Sample(name), Strip("ops"), "now", true)) == "o" + name
    ensures Accepted(SampleCodec(), "a" + name, SampleApproved(name, false))
    ensures forall e :: !Accepted(SampleCodec(), "o" + name, e)
  {
    SampleVerifies(name, false);
    SampleVerifies(name, true);
    SampleRead(name, false);
    var e :| Accepted(SampleCodec(), "a" + name, e);
  }

  /** Accepted files that the hash tells apart exist: one for every name. */
  lemma SamplesToldApart(m: string, n: string)
    ensures var codec := SampleCodec(); var d, e := SampleApproved(m, false), SampleApproved(n, false);
            && Accepted(codec, "a" + m, d) && Accepted(codec, "a" + n, e)
            && codec.TellsApart(d.(documentSha := None), e.(documentSha := None))
            && (d.documentSha == e.documentSha <==> m == n)
  {
    OverrideSpoilsSample(m);
    OverrideSpoilsSample(n);
    assert ("a" + m)[1..] == m && ("a" + n)[1..] == n;
  }
}
