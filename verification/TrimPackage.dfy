/** Fitting an LLM package into a byte budget (llm_export.py `_trim_package`). */
module TrimPackage {
  import opened Wrappers
  import opened Json

  const MIN_LIMIT := 16 * 1024
  const MAX_PACKAGE_BYTES := 1024 * 1024

  /** The lists that may be cut, in the order in which they are cut. */
  const REMOVABLE: seq<string> :=
    ["unknown_fingerprints", "events", "correlations", "evidence_fragments", "metric_signals", "ranked_hypotheses"]

  /** The removable lists of a package and the counters `removed`, both in the order above. */
  type Lists = seq<seq<Json>>
  type Counts = seq<nat>

  /** What is written to the file, and measured: the lists, everything else, and, once it is there,
      the truncation note with its counters. */
  datatype Document = Document(lists: Lists, rest: Json, note: Option<Note>)

  datatype Note = Note(maxBytes: nat, removed: Counts)

  /** The length of the JSON text of a document; nothing is assumed about it. */
  type Size = Document -> nat

  // --- the trimming as a run of single removals ----------------------------------------------

  datatype State = State(lists: Lists, removed: Counts)

  predicate Paired(t: State) {
    |t.lists| == |t.removed|
  }

  predicate AllEmpty(lists: Lists) {
    forall i :: 0 <= i < |lists| ==> lists[i] == []
  }

  predicate EmptyBefore(lists: Lists, i: nat) {
    i <= |lists| && forall j :: 0 <= j < i ==> lists[j] == []
  }

  function PopAt(t: State, i: nat): (r: State)
    requires Paired(t) && i < |t.lists| && t.lists[i] != []
    ensures Paired(r)
  {
    State(t.lists[i := t.lists[i][..|t.lists[i]| - 1]], t.removed[i := t.removed[i] + 1])
  }

  /** The position of the first list that is not empty. */
  function FirstNonEmpty(lists: Lists, i: nat): (r: nat)
    requires i <= |lists|
    ensures i <= r <= |lists|
    ensures forall j :: i <= j < r ==> lists[j] == []
    ensures r < |lists| ==> lists[r] != []
    decreases |lists| - i
  {
    if i == |lists| || lists[i] != [] then i else FirstNonEmpty(lists, i + 1)
  }

  /** Removes one element: the last one of the first list that still has one. */
  function Pop(t: State): (r: State)
    requires Paired(t)
    ensures Paired(r)
  {
    var i := FirstNonEmpty(t.lists, 0);
    if i == |t.lists| then t else PopAt(t, i)
  }

  function Pops(t: State, n: nat): (r: State)
    requires Paired(t)
    ensures Paired(r)
  {
    if n == 0 then t else Pop(Pops(t, n - 1))
  }

  lemma PopFrom(t: State, i: nat)
    requires Paired(t) && i < |t.lists| && EmptyBefore(t.lists, i) && t.lists[i] != []
    ensures Pop(t) == PopAt(t, i)
    ensures EmptyBefore(PopAt(t, i).lists, i)
  {
    var r := FirstNonEmpty(t.lists, 0);
    assert r == i;
  }

  /** `n` removals are the fewest after which the measure fits (or nothing is left to remove). */
  ghost predicate FirstFit(measure: State -> nat, limit: nat, t: State, n: nat)
    requires Paired(t)
  {
    && TooLargeBefore(measure, limit, t, n)
    && (measure(Pops(t, n)) <= limit || AllEmpty(Pops(t, n).lists))
  }

  ghost predicate TooLargeBefore(measure: State -> nat, limit: nat, t: State, n: nat)
    requires Paired(t)
  {
    forall k :: 0 <= k < n ==> measure(Pops(t, k)) > limit
  }

  // --- what any number of removals does --------------------------------------------------------

  /** Every list is a prefix of the original, the counters tell exactly what is gone, and a list
      loses elements only when all lists before it in the order are used up. */
  ghost predicate CutInOrder(t: State, r: State) {
    && Paired(t) && Paired(r) && |r.lists| == |t.lists|
    && (forall i :: 0 <= i < |t.lists| ==> r.lists[i] <= t.lists[i])
    && (forall i :: 0 <= i < |t.lists| ==> r.removed[i] + |r.lists[i]| == t.removed[i] + |t.lists[i]|)
    && (forall i, j :: 0 <= i < j < |t.lists| && r.lists[j] != t.lists[j] ==> r.lists[i] == [])
  }

  lemma PopCutsInOrder(t: State, r: State)
    requires CutInOrder(t, r)
    ensures CutInOrder(t, Pop(r))
  {
    var k := FirstNonEmpty(r.lists, 0);
    if k < |r.lists| {
      var p := PopAt(r, k);
      forall i, j | 0 <= i < j < |t.lists| && p.lists[j] != t.lists[j] ensures p.lists[i] == [] {
        assert j != k ==> p.lists[j] == r.lists[j];
      }
    }
  }

  lemma {:induction false} PopsCutInOrder(t: State, n: nat)
    requires Paired(t)
    ensures CutInOrder(t, Pops(t, n))
  {
    if n > 0 {
      PopsCutInOrder(t, n - 1);
      PopCutsInOrder(t, Pops(t, n - 1));
    }
  }

  lemma {:induction false} PopsAdd(t: State, p: nat, q: nat)
    requires Paired(t)
    ensures Pops(Pops(t, p), q) == Pops(t, p + q)
  {
    if q > 0 { PopsAdd(t, p, q - 1); }
  }

  lemma PopNothing(t: State)
    requires Paired(t) && AllEmpty(t.lists)
    ensures Pop(t) == t
  {
    var i := FirstNonEmpty(t.lists, 0);
    assert i == |t.lists|;
  }

  lemma {:induction false} EmptyStays(t: State, n: nat, m: nat)
    requires Paired(t) && AllEmpty(Pops(t, n).lists) && n <= m
    ensures Pops(t, m) == Pops(t, n)
    decreases m - n
  {
    if n < m {
      EmptyStays(t, n, m - 1);
      PopNothing(Pops(t, m - 1));
    }
  }

  /** The outcome is determined: two first fits are the same package. */
  lemma FirstFitUnique(measure: State -> nat, limit: nat, t: State, n: nat, m: nat)
    requires Paired(t) && FirstFit(measure, limit, t, n) && FirstFit(measure, limit, t, m)
    ensures Pops(t, n) == Pops(t, m)
  {
    if n < m {
      assert measure(Pops(t, n)) > limit;
      EmptyStays(t, n, m);
    }
    if m < n {
      assert measure(Pops(t, m)) > limit;
      EmptyStays(t, m, n);
    }
  }

  // --- the code ----------------------------------------------------------------------------------

  function Zeros(n: nat): (r: Counts)
    ensures |r| == n && forall i :: 0 <= i < n ==> r[i] == 0
  {
    seq(n, _ => 0)
  }

  /** The dictionary `trimmed`. Once the truncation note is in place the package holds this very
      object, so counting a removal changes what is measured. */
  class TrimCounter {
    var removed: Counts

    constructor (n: nat)
      ensures removed == Zeros(n)
    {
      removed := Zeros(n);
    }
  }

  class Package {
    var lists: Lists
    const rest: Json
    var noteLimit: nat
    var counter: TrimCounter?

    constructor (lists: Lists, rest: Json)
      ensures this.lists == lists && this.rest == rest && counter == null
    {
      this.lists, this.rest, noteLimit, counter := lists, rest, 0, null;
    }

    /** Removes the last element of a list and counts it. */
    method PopOne(counter: TrimCounter, i: nat)
      requires |lists| == |counter.removed| && i < |lists| && lists[i] != []
      modifies this`lists, counter
      ensures State(lists, counter.removed) == PopAt(State(old(lists), old(counter.removed)), i)
    {
      lists := lists[i := lists[i][..|lists[i]| - 1]];
      counter.removed := counter.removed[i := counter.removed[i] + 1];
    }

    /** What would be written now. */
    function Now(): Document
      reads this, counter
    {
      Document(lists, rest, if counter == null then None else Some(Note(noteLimit, counter.removed)))
    }
  }

  function WithoutNote(size: Size, rest: Json): State -> nat {
    (t: State) => size(Document(t.lists, rest, None))
  }

  function WithNote(size: Size, rest: Json, maxBytes: nat): State -> nat {
    (t: State) => size(Document(t.lists, rest, Some(Note(maxBytes, t.removed))))
  }

  /** What the loops measure, with the note or without it. */
  function Measure(size: Size, rest: Json, noted: bool, maxBytes: nat): State -> nat {
    if noted then WithNote(size, rest, maxBytes) else WithoutNote(size, rest)
  }

  lemma PopStep(measure: State -> nat, limit: nat, t: State, n: nat, i: nat)
    requires Paired(t) && TooLargeBefore(measure, limit, t, n) && measure(Pops(t, n)) > limit
    requires i < |Pops(t, n).lists| && EmptyBefore(Pops(t, n).lists, i) && Pops(t, n).lists[i] != []
    ensures Pops(t, n + 1) == PopAt(Pops(t, n), i) && EmptyBefore(Pops(t, n + 1).lists, i)
    ensures TooLargeBefore(measure, limit, t, n + 1)
  {
    PopFrom(Pops(t, n), i);
  }

  /** The inner loop: pops from one list while the package is too large. */
  method CutList(size: Size, package: Package, counter: TrimCounter, maxBytes: nat, i: nat, ghost t: State,
                 ghost n: nat)
    returns (ghost n': nat)
    requires package.counter == null || (package.counter == counter && package.noteLimit == maxBytes)
    requires Paired(t) && State(package.lists, counter.removed) == Pops(t, n) && i < |package.lists|
    requires TooLargeBefore(Measure(size, package.rest, package.counter != null, maxBytes), maxBytes, t, n)
    requires EmptyBefore(package.lists, i) || size(package.Now()) <= maxBytes
    modifies package`lists, counter
    ensures State(package.lists, counter.removed) == Pops(t, n') && |package.lists| == |old(package.lists)|
    ensures TooLargeBefore(Measure(size, package.rest, package.counter != null, maxBytes), maxBytes, t, n')
    ensures EmptyBefore(package.lists, i + 1) || size(package.Now()) <= maxBytes
  {
    n' := n;
    ghost var measure := Measure(size, package.rest, package.counter != null, maxBytes);
    while size(package.Now()) > maxBytes && package.lists[i] != []
      invariant |package.lists| == |old(package.lists)|
      invariant State(package.lists, counter.removed) == Pops(t, n')
      invariant TooLargeBefore(measure, maxBytes, t, n')
      invariant EmptyBefore(package.lists, i) || size(package.Now()) <= maxBytes
      decreases |package.lists[i]|
    {
      PopStep(measure, maxBytes, t, n', i);
      package.PopOne(counter, i);
      n' := n' + 1;
    }
  }

  /** One pass over the lists: each is cut while the package is too large and the list not empty. */
  method CutLists(size: Size, package: Package, counter: TrimCounter, maxBytes: nat) returns (ghost n: nat)
    requires package.counter == null || (package.counter == counter && package.noteLimit == maxBytes)
    requires |package.lists| == |counter.removed|
    modifies package`lists, counter
    ensures State(package.lists, counter.removed) == Pops(State(old(package.lists), old(counter.removed)), n)
    ensures FirstFit(Measure(size, package.rest, package.counter != null, maxBytes), maxBytes,
                     State(old(package.lists), old(counter.removed)), n)
    ensures size(package.Now())
         == Measure(size, package.rest, package.counter != null, maxBytes)(State(package.lists, counter.removed))
  {
    ghost var t := State(package.lists, counter.removed);
    ghost var measure := Measure(size, package.rest, package.counter != null, maxBytes);
    n := 0;
    for i := 0 to |package.lists|
      invariant |package.lists| == |old(package.lists)|
      invariant State(package.lists, counter.removed) == Pops(t, n)
      invariant TooLargeBefore(measure, maxBytes, t, n)
      invariant EmptyBefore(package.lists, i) || size(package.Now()) <= maxBytes
    {
      n := CutList(size, package, counter, maxBytes, i, t, n);
    }
  }

  datatype Error = BadLimit | EssentialTooLarge | NoteTooLarge

  /** Nothing removed yet. */
  function Start(lists: Lists): (t: State)
    ensures Paired(t)
  {
    State(lists, Zeros(|lists|))
  }

  /** How a trimming ends, as a property of the lists it started with: `p` removals without the note,
      then `q` removals with it. */
  ghost predicate Outcome(size: Size, lists: Lists, rest: Json, maxBytes: nat, p: nat, q: nat,
                          r: Result<Document, Error>) {
    var first := Pops(Start(lists), p);
    var done := Pops(first, q);
    var plain, noted := WithoutNote(size, rest), WithNote(size, rest, maxBytes);
    && FirstFit(plain, maxBytes, Start(lists), p)
    && (if plain(first) > maxBytes then r == Failure(EssentialTooLarge)
        else
          && FirstFit(noted, maxBytes, first, q)
          && r == (if noted(done) > maxBytes then Failure(NoteTooLarge)
                   else Success(Document(done.lists, rest, Some(Note(maxBytes, done.removed))))))
  }

  /** `_trim_package`. */
  method Trim(size: Size, package: Package, maxBytes: int)
    returns (r: Result<Document, Error>, ghost p: nat, ghost q: nat)
    requires package.counter == null && |package.lists| == |REMOVABLE|
    modifies package
    ensures r == Failure(BadLimit) <==> !(16384 <= maxBytes <= 1048576)
    ensures r == Failure(BadLimit) ==> package.Now() == old(package.Now())
    ensures r != Failure(BadLimit) ==> Outcome(size, old(package.lists), package.rest, maxBytes, p, q, r)
    ensures r.Success? ==> r.value == package.Now()
  {
    p, q := 0, 0;
    if !(MIN_LIMIT <= maxBytes <= MAX_PACKAGE_BYTES) { return Failure(BadLimit), 0, 0; }
    var counter := new TrimCounter(|package.lists|);
    p := CutLists(size, package, counter, maxBytes);
    if size(package.Now()) > maxBytes { return Failure(EssentialTooLarge), p, 0; }
    package.noteLimit, package.counter := maxBytes, counter;
    q := CutLists(size, package, counter, maxBytes);
    if size(package.Now()) > maxBytes { return Failure(NoteTooLarge), p, q; }
    return Success(package.Now()), p, q;
  }

  /** What a successful trimming returns: it fits with its own note, every list is a prefix, the
      counters in the note tell exactly what is missing, and the cuts keep the order. */
  lemma TrimmedPackage(size: Size, lists: Lists, rest: Json, maxBytes: nat, p: nat, q: nat, d: Document)
    requires Outcome(size, lists, rest, maxBytes, p, q, Success(d))
    ensures size(d) <= maxBytes && d.rest == rest && d.note.Some? && d.note.value.maxBytes == maxBytes
    ensures |d.lists| == |d.note.value.removed| == |lists|
    ensures forall i :: 0 <= i < |lists| ==>
        d.lists[i] <= lists[i] && d.note.value.removed[i] == |lists[i]| - |d.lists[i]|
    ensures forall i, j :: 0 <= i < j < |lists| && d.lists[j] != lists[j] ==> d.lists[i] == []
  {
    PopsAdd(Start(lists), p, q);
    PopsCutInOrder(Start(lists), p + q);
  }

  /** No number of removals makes the measure fit. */
  ghost predicate NeverFits(measure: State -> nat, limit: nat, t: State)
    requires Paired(t)
  {
    forall n :: measure(Pops(t, n)) > limit
  }

  lemma NeverFitsExactly(measure: State -> nat, limit: nat, t: State, n: nat)
    requires Paired(t) && FirstFit(measure, limit, t, n)
    ensures measure(Pops(t, n)) > limit <==> NeverFits(measure, limit, t)
    ensures measure(Pops(t, n)) > limit ==> AllEmpty(Pops(t, n).lists)
  {
    if measure(Pops(t, n)) > limit {
      forall m: nat ensures measure(Pops(t, m)) > limit {
        if m >= n { EmptyStays(t, n, m); }
      }
    }
  }

  /** Each refusal has its own cause, and only that one. The essential package is refused if and only if
      it is too large however much is removed, and then nothing is left of the lists. The package with
      its note is refused if and only if it does fit without the note, but with the note it is too large
      however much more is removed, and then nothing is left either. */
  lemma RefusedExactly(size: Size, lists: Lists, rest: Json, maxBytes: nat, p: nat, q: nat, r: Result<Document, Error>)
    requires Outcome(size, lists, rest, maxBytes, p, q, r)
    ensures r == Failure(EssentialTooLarge) <==> NeverFits(WithoutNote(size, rest), maxBytes, Start(lists))
    ensures r == Failure(EssentialTooLarge) ==> AllEmpty(Pops(Start(lists), p).lists)
    ensures r == Failure(NoteTooLarge) <==>
              !NeverFits(WithoutNote(size, rest), maxBytes, Start(lists))
              && NeverFits(WithNote(size, rest, maxBytes), maxBytes, Pops(Start(lists), p))
    ensures r == Failure(NoteTooLarge) ==> AllEmpty(Pops(Pops(Start(lists), p), q).lists)
  {
    var first := Pops(Start(lists), p);
    NeverFitsExactly(WithoutNote(size, rest), maxBytes, Start(lists), p);
    if WithoutNote(size, rest)(first) <= maxBytes {
      NeverFitsExactly(WithNote(size, rest, maxBytes), maxBytes, first, q);
    }
  }

  /** A package that fits with an empty note is not cut at all. */
  lemma FittingIsUntouched(size: Size, lists: Lists, rest: Json, maxBytes: nat, p: nat, q: nat, d: Document)
    requires Outcome(size, lists, rest, maxBytes, p, q, Success(d))
    requires size(Document(lists, rest, None)) <= maxBytes
    requires size(Document(lists, rest, Some(Note(maxBytes, Zeros(|lists|))))) <= maxBytes
    ensures d == Document(lists, rest, Some(Note(maxBytes, Zeros(|lists|))))
  {
    assert Pops(Start(lists), 0) == Start(lists);
  }
}
