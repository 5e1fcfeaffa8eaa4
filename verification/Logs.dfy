/** Log collection under a byte budget (kubernetes.py `_collect_logs`). */
module Logs {
  import opened Wrappers
  import opened Order
  import opened Seqs
  import opened Streams

  const MAX_COMMAND_BYTES := 512 * 1024

  datatype Container = Container(name: string, restarts: int, init: bool)

  /** A pod; the restart counts are looked up by container name. */
  datatype Pod = Pod(
    namespace: string,
    name: string,
    containers: seq<string>,
    initContainers: seq<string>,
    statuses: map<string, int>,
    initStatuses: map<string, int>)

  datatype Request = Request(namespace: string, pod: string, container: string, init: bool, previous: bool)

  datatype RunResult = RunResult(returncode: Option<int>, truncated: bool, stdout: seq<Byte>)

  datatype Entry = Entry(request: Request, ok: bool, truncated: bool, text: seq<Byte>)

  datatype Status = SourceUnavailable | Truncated | Partial | Collected

  datatype Collection = Collection(status: Status, entries: seq<Entry>, bytes: nat, selectedPods: nat)

  /** Runs the `i`-th command with an output limit; nothing is assumed but that it keeps the limit. */
  type Runner = (nat, Request, nat) -> RunResult

  ghost predicate KeepsLimit(run: Runner) {
    forall i, q, limit :: |run(i, q, limit).stdout| <= limit
  }

  /** What a command does: the reads of its output, and how it ends. */
  datatype Run = Run(steps: seq<Step>, returncode: Option<int>)

  const MAX_ERROR_BYTES := 128 * 1024

  /** The runner that reads every command through the bounded streams. */
  function Bounded(commands: (nat, Request) -> Run): Runner {
    (i: nat, q: Request, limit: nat) =>
      var c := commands(i, q);
      var out, err := Produced(c.steps, Stdout), Produced(c.steps, Stderr);
      RunResult(c.returncode, |out| > limit || |err| > MAX_ERROR_BYTES, Cut(out, limit))
  }

  /** The read loop is that runner. */
  method RunProcess(commands: (nat, Request) -> Run, i: nat, q: Request, limit: nat) returns (r: RunResult)
    ensures r == Bounded(commands)(i, q, limit)
    ensures r.truncated <==>
              |Produced(commands(i, q).steps, Stdout)| > limit || |Produced(commands(i, q).steps, Stderr)| > 131072
  {
    var c := commands(i, q);
    var stdout, stderr, truncated := ReadLoop(c.steps, limit, MAX_ERROR_BYTES);
    r := RunResult(c.returncode, truncated, stdout);
  }

  /** Whatever the commands write, and in whatever pieces, the limit is kept. */
  lemma BoundedKeepsLimit(commands: (nat, Request) -> Run)
    ensures KeepsLimit(Bounded(commands))
  {
    forall i: nat, q: Request, limit: nat ensures |Bounded(commands)(i, q, limit).stdout| <= limit {
      assert |Cut(Produced(commands(i, q).steps, Stdout), limit)| <= limit;
    }
  }

  function WithStatus(names: seq<string>, statuses: map<string, int>, init: bool): seq<Container> {
    Map((n: string) => Container(n, if n in statuses then statuses[n] else 0, init), names)
  }

  function ContainersOf(pod: Pod): seq<Container> {
    WithStatus(pod.containers, pod.statuses, false) + WithStatus(pod.initContainers, pod.initStatuses, true)
  }

  predicate Named(pod: Pod, c: Container) {
    pod.namespace != "" && pod.name != "" && c.name != ""
  }

  /** The logs a container should contribute: the current one, and the previous one exactly if it restarted. */
  function WantedOf(pod: Pod, c: Container): seq<Request> {
    [Request(pod.namespace, pod.name, c.name, c.init, false)]
    + if c.restarts != 0 then [Request(pod.namespace, pod.name, c.name, c.init, true)] else []
  }

  function WantedOfPod(pod: Pod): Container -> seq<Request> {
    (c: Container) => WantedOf(pod, c)
  }

  function WantedFrom(pod: Pod, cs: seq<Container>): seq<Request> {
    FlatMap(WantedOfPod(pod), cs)
  }

  function WantedOfAll(): Pod -> seq<Request> {
    (pod: Pod) => WantedFrom(pod, ContainersOf(pod))
  }

  /** All logs the selected pods should contribute, in order. */
  function Wanted(pods: seq<Pod>): seq<Request> {
    FlatMap(WantedOfAll(), pods)
  }

  function Requests(entries: seq<Entry>): seq<Request> {
    Map((e: Entry) => e.request, entries)
  }

  function TextBytes(entries: seq<Entry>): nat {
    if entries == [] then 0 else TextBytes(entries[..|entries| - 1]) + |entries[|entries| - 1].text|
  }

  ghost predicate AllNamed(pod: Pod, cs: seq<Container>) {
    forall i :: 0 <= i < |cs| ==> Named(pod, cs[i])
  }

  /** Some container among these pods cannot be asked for. */
  ghost predicate SomeNameless(pods: seq<Pod>) {
    exists i :: 0 <= i < |pods| && !AllNamed(pods[i], ContainersOf(pods[i]))
  }

  // --- one walk along a list of requests -------------------------------------------------------

  /** The output limit of a command: what is left of the budget, and never more than 512 KiB. */
  function Limit(remaining: nat): nat {
    if remaining < MAX_COMMAND_BYTES then remaining else MAX_COMMAND_BYTES
  }

  function EntryOf(request: Request, result: RunResult): Entry {
    Entry(request, result.returncode == Some(0) && !result.truncated, result.truncated, result.stdout)
  }

  /** One more request, if any budget is left. */
  function Reply(run: Runner, maxBytes: nat, entries: seq<Entry>, request: Request): seq<Entry> {
    var consumed := TextBytes(entries);
    if consumed >= maxBytes then entries
    else entries + [EntryOf(request, run(|entries|, request, Limit(maxBytes - consumed)))]
  }

  /** What a collection should be: the requests are answered one after the other while any budget is left. */
  function Replies(run: Runner, maxBytes: nat, entries: seq<Entry>, requests: seq<Request>): seq<Entry>
    decreases |requests|
  {
    if requests == [] then entries
    else Replies(run, maxBytes, Reply(run, maxBytes, entries, requests[0]), requests[1..])
  }

  lemma {:induction false} RepliesAppend(run: Runner, maxBytes: nat, entries: seq<Entry>, a: seq<Request>,
                                         b: seq<Request>)
    ensures Replies(run, maxBytes, entries, a + b) == Replies(run, maxBytes, Replies(run, maxBytes, entries, a), b)
    decreases |a|
  {
    if a == [] {
      assert a + b == b;
    } else {
      var next := Reply(run, maxBytes, entries, a[0]);
      assert (a + b)[0] == a[0] && (a + b)[1..] == a[1..] + b;
      assert Replies(run, maxBytes, entries, a) == Replies(run, maxBytes, next, a[1..]);
      assert Replies(run, maxBytes, entries, a + b) == Replies(run, maxBytes, next, a[1..] + b);
      RepliesAppend(run, maxBytes, next, a[1..], b);
    }
  }

  /** Once the budget is used up, further requests change nothing. */
  lemma {:induction false} RepliesFull(run: Runner, maxBytes: nat, entries: seq<Entry>, requests: seq<Request>)
    requires TextBytes(entries) >= maxBytes
    ensures Replies(run, maxBytes, entries, requests) == entries
    decreases |requests|
  {
    if requests != [] { RepliesFull(run, maxBytes, entries, requests[1..]); }
  }

  ghost predicate NoCutSuccess(entries: seq<Entry>) {
    forall e :: e in entries && e.ok ==> !e.truncated
  }

  lemma ReplyKeepsBudget(run: Runner, maxBytes: nat, entries: seq<Entry>, request: Request)
    requires KeepsLimit(run) && TextBytes(entries) <= maxBytes && NoCutSuccess(entries)
    ensures var r := Reply(run, maxBytes, entries, request);
            && TextBytes(entries) <= TextBytes(r) <= maxBytes && NoCutSuccess(r)
            && Requests(r) == if TextBytes(entries) < maxBytes then Requests(entries) + [request] else Requests(entries)
  {
    if TextBytes(entries) < maxBytes {
      RequestsSnoc(entries, EntryOf(request, run(|entries|, request, Limit(maxBytes - TextBytes(entries)))));
    }
  }

  /** The budget is never exceeded, and an entry that counts as collected was not cut. */
  lemma {:induction false} RepliesKeepBudget(run: Runner, maxBytes: nat, entries: seq<Entry>, requests: seq<Request>)
    requires KeepsLimit(run) && TextBytes(entries) <= maxBytes && NoCutSuccess(entries)
    ensures TextBytes(entries) <= TextBytes(Replies(run, maxBytes, entries, requests)) <= maxBytes
    ensures NoCutSuccess(Replies(run, maxBytes, entries, requests))
    decreases |requests|
  {
    if requests != [] {
      ReplyKeepsBudget(run, maxBytes, entries, requests[0]);
      RepliesKeepBudget(run, maxBytes, Reply(run, maxBytes, entries, requests[0]), requests[1..]);
    }
  }

  /** The answered requests are a prefix of the requests; all are answered unless the budget is used up. */
  lemma {:induction false} RepliesInOrder(run: Runner, maxBytes: nat, entries: seq<Entry>, requests: seq<Request>)
    requires KeepsLimit(run) && TextBytes(entries) <= maxBytes && NoCutSuccess(entries)
    ensures var r := Replies(run, maxBytes, entries, requests);
            && Requests(r) <= Requests(entries) + requests
            && (TextBytes(r) < maxBytes ==> Requests(r) == Requests(entries) + requests)
    decreases |requests|
  {
    if TextBytes(entries) == maxBytes {
      RepliesFull(run, maxBytes, entries, requests);
    } else if requests == [] {
      assert Requests(entries) + requests == Requests(entries);
    } else {
      var next := Reply(run, maxBytes, entries, requests[0]);
      ReplyKeepsBudget(run, maxBytes, entries, requests[0]);
      RepliesInOrder(run, maxBytes, next, requests[1..]);
      FirstToBack(Requests(entries), requests);
    }
  }

  lemma FirstToBack(a: seq<Request>, b: seq<Request>)
    requires b != []
    ensures a + [b[0]] + b[1..] == a + b
  {
  }

  lemma RequestsSnoc(entries: seq<Entry>, e: Entry)
    ensures Requests(entries + [e]) == Requests(entries) + [e.request]
    ensures TextBytes(entries + [e]) == TextBytes(entries) + |e.text|
  {
    assert (entries + [e])[..|entries|] == entries;
    assert Requests(entries + [e]) == Requests(entries) + [e.request];
  }

  // --- which requests are made -------------------------------------------------------------------

  /** The containers of a pod up to the first that cannot be asked for. */
  function Askable(pod: Pod, cs: seq<Container>): seq<Container> {
    if cs == [] || !Named(pod, cs[0]) then [] else [cs[0]] + Askable(pod, cs[1..])
  }

  function AttemptedOfAll(): Pod -> seq<Request> {
    (pod: Pod) => WantedFrom(pod, Askable(pod, ContainersOf(pod)))
  }

  /** The requests a collection makes, as long as the budget lasts. */
  function Attempted(pods: seq<Pod>): seq<Request> {
    FlatMap(AttemptedOfAll(), pods)
  }

  lemma {:induction false} AskableAll(pod: Pod, cs: seq<Container>)
    requires AllNamed(pod, cs)
    ensures Askable(pod, cs) == cs
  {
    if cs != [] { AskableAll(pod, cs[1..]); }
  }

  /** If every container can be asked for, the attempted requests are the wanted ones. */
  lemma {:induction false} AttemptedIsWanted(pods: seq<Pod>)
    requires !SomeNameless(pods)
    ensures Attempted(pods) == Wanted(pods)
  {
    if pods != [] {
      var i := |pods| - 1;
      assert pods[..i + 1] == pods;
      SomeNamelessSnoc(pods, i);
      AttemptedIsWanted(pods[..i]);
      AskableAll(pods[i], ContainersOf(pods[i]));
    }
  }

  // --- the loops ------------------------------------------------------------------------------------

  /** One command of the inner loop. */
  method Fetch(run: Runner, request: Request, maxBytes: nat, entries: seq<Entry>, consumed: nat)
    returns (entries': seq<Entry>, consumed': nat)
    requires KeepsLimit(run) && consumed == TextBytes(entries) < maxBytes
    ensures entries' == Reply(run, maxBytes, entries, request)
    ensures consumed' == TextBytes(entries') <= maxBytes
  {
    var remaining := maxBytes - consumed;
    var limit := if remaining < MAX_COMMAND_BYTES then remaining else MAX_COMMAND_BYTES;
    var result := run(|entries|, request, limit);
    var entry := Entry(request, result.returncode == Some(0) && !result.truncated, result.truncated, result.stdout);
    RequestsSnoc(entries, entry);
    consumed' := consumed + |result.stdout|;
    entries' := entries + [entry];
  }

  /** Asks for the current and the previous log of one container, as far as the budget goes. */
  method CollectContainer(run: Runner, pod: Pod, c: Container, maxBytes: nat, entries: seq<Entry>, consumed: nat)
    returns (entries': seq<Entry>, consumed': nat, cut: bool)
    requires KeepsLimit(run) && consumed == TextBytes(entries) < maxBytes
    ensures entries' == Replies(run, maxBytes, entries, WantedOf(pod, c))
    ensures consumed' == TextBytes(entries') <= maxBytes
    ensures cut ==> consumed' == maxBytes
  {
    entries', consumed', cut := entries, consumed, false;
    ghost var rest := WantedOf(pod, c);
    var k := 0;
    while k < 2
      invariant 0 <= k <= 2
      invariant rest == if k < |WantedOf(pod, c)| then WantedOf(pod, c)[k..] else []
      invariant Replies(run, maxBytes, entries', rest) == Replies(run, maxBytes, entries, WantedOf(pod, c))
      invariant consumed' == TextBytes(entries') <= maxBytes
      invariant k == 0 ==> consumed' < maxBytes
    {
      var previous := k == 1;
      if !(previous && c.restarts == 0) {
        if consumed' >= maxBytes {
          RepliesFull(run, maxBytes, entries', rest);
          return entries', consumed', true;
        }
        var request := Request(pod.namespace, pod.name, c.name, c.init, previous);
        assert rest[0] == request;
        entries', consumed' := Fetch(run, request, maxBytes, entries', consumed');
        rest := rest[1..];
      }
      k := k + 1;
    }
  }

  lemma SomeNamelessSnoc(pods: seq<Pod>, i: nat)
    requires i < |pods|
    ensures SomeNameless(pods[..i + 1]) <==> SomeNameless(pods[..i]) || !AllNamed(pods[i], ContainersOf(pods[i]))
  {
    if SomeNameless(pods[..i]) {
      var j :| 0 <= j < i && !AllNamed(pods[..i][j], ContainersOf(pods[..i][j]));
      assert pods[..i + 1][j] == pods[j];
    }
    if !AllNamed(pods[i], ContainersOf(pods[i])) { assert pods[..i + 1][i] == pods[i]; }
    if SomeNameless(pods[..i + 1]) {
      var j :| 0 <= j < i + 1 && !AllNamed(pods[..i + 1][j], ContainersOf(pods[..i + 1][j]));
      assert j < i ==> pods[..i][j] == pods[j];
    }
  }

  lemma AllNamedNext(pod: Pod, cs: seq<Container>, i: nat)
    requires i < |cs|
    ensures AllNamed(pod, cs[..i + 1]) <==> AllNamed(pod, cs[..i]) && Named(pod, cs[i])
    ensures AllNamed(pod, cs) ==> Named(pod, cs[i])
  {
    assert cs[..i + 1] == cs[..i] + [cs[i]];
  }

  /** The containers from position `i` on: the first one, and then the others. */
  lemma AskableNext(run: Runner, pod: Pod, cs: seq<Container>, i: nat, maxBytes: nat, entries: seq<Entry>)
    requires i < |cs| && Named(pod, cs[i])
    ensures Replies(run, maxBytes, entries, WantedFrom(pod, Askable(pod, cs[i..])))
         == Replies(run, maxBytes, Replies(run, maxBytes, entries, WantedOf(pod, cs[i])),
                    WantedFrom(pod, Askable(pod, cs[i + 1..])))
  {
    var others := Askable(pod, cs[i + 1..]);
    assert cs[i..][1..] == cs[i + 1..];
    FlatMapFirst(WantedOfPod(pod), cs[i], others);
    RepliesAppend(run, maxBytes, entries, WantedOf(pod, cs[i]), WantedFrom(pod, others));
  }

  /** The loop over the containers of one pod. */
  method CollectContainers(run: Runner, pod: Pod, cs: seq<Container>, maxBytes: nat, entries: seq<Entry>, consumed: nat)
    returns (entries': seq<Entry>, consumed': nat, cut: bool)
    requires KeepsLimit(run) && consumed == TextBytes(entries) <= maxBytes
    ensures entries' == Replies(run, maxBytes, entries, WantedFrom(pod, Askable(pod, cs)))
    ensures consumed' == TextBytes(entries') <= maxBytes
    ensures !cut ==> AllNamed(pod, cs)
    ensures cut ==> consumed' == maxBytes || !AllNamed(pod, cs)
  {
    entries', consumed', cut := entries, consumed, false;
    assert cs[0..] == cs;
    var i := 0;
    while i < |cs|
      invariant i <= |cs| && AllNamed(pod, cs[..i])
      invariant Replies(run, maxBytes, entries', WantedFrom(pod, Askable(pod, cs[i..])))
             == Replies(run, maxBytes, entries, WantedFrom(pod, Askable(pod, cs)))
      invariant consumed' == TextBytes(entries') <= maxBytes
      invariant cut ==> consumed' == maxBytes
    {
      AllNamedNext(pod, cs, i);
      if !Named(pod, cs[i]) { return entries', consumed', true; }
      if consumed' >= maxBytes {
        RepliesFull(run, maxBytes, entries', WantedFrom(pod, Askable(pod, cs[i..])));
        return entries', consumed', true;
      }
      AskableNext(run, pod, cs, i, maxBytes, entries');
      var stopped;
      entries', consumed', stopped := CollectContainer(run, pod, cs[i], maxBytes, entries', consumed');
      cut := cut || stopped;
      i := i + 1;
    }
    assert cs[..|cs|] == cs;
  }

  lemma AttemptedNext(run: Runner, pods: seq<Pod>, i: nat, maxBytes: nat, entries: seq<Entry>)
    requires i < |pods|
    ensures Replies(run, maxBytes, entries, Attempted(pods[i..]))
         == Replies(run, maxBytes, Replies(run, maxBytes, entries, AttemptedOfAll()(pods[i])), Attempted(pods[i + 1..]))
  {
    assert pods[i..] == [pods[i]] + pods[i + 1..];
    FlatMapFirst(AttemptedOfAll(), pods[i], pods[i + 1..]);
    RepliesAppend(run, maxBytes, entries, AttemptedOfAll()(pods[i]), Attempted(pods[i + 1..]));
  }

  /** The loop over the pods. */
  method CollectPods(run: Runner, pods: seq<Pod>, maxBytes: nat)
    returns (entries: seq<Entry>, consumed: nat, cut: bool)
    requires KeepsLimit(run)
    ensures entries == Replies(run, maxBytes, [], Attempted(pods))
    ensures consumed == TextBytes(entries) <= maxBytes
    ensures !cut ==> !SomeNameless(pods)
    ensures cut ==> consumed == maxBytes || SomeNameless(pods)
  {
    entries, consumed, cut := [], 0, false;
    assert pods[0..] == pods;
    var i := 0;
    while i < |pods|
      invariant i <= |pods|
      invariant Replies(run, maxBytes, entries, Attempted(pods[i..])) == Replies(run, maxBytes, [], Attempted(pods))
      invariant consumed == TextBytes(entries) <= maxBytes
      invariant !cut ==> !SomeNameless(pods[..i])
      invariant cut ==> consumed == maxBytes || SomeNameless(pods[..i])
    {
      SomeNamelessSnoc(pods, i);
      AttemptedNext(run, pods, i, maxBytes, entries);
      ghost var full := consumed == maxBytes;
      if full { RepliesFull(run, maxBytes, entries, AttemptedOfAll()(pods[i])); }
      var stopped;
      entries, consumed, stopped := CollectContainers(run, pods[i], ContainersOf(pods[i]), maxBytes, entries, consumed);
      cut := cut || stopped;
      i := i + 1;
    }
    assert pods[..|pods|] == pods;
  }

  /** The pods that are asked: at most `maxPods` of the selected ones. */
  function Asked(selected: seq<Pod>, maxPods: nat): seq<Pod> {
    if |selected| <= maxPods then selected else selected[..maxPods]
  }

  function Select(pods: seq<Pod>, namespaces: set<string>, priority: (Pod, Pod) -> bool): seq<Pod> {
    SortBy(priority, Filter((p: Pod) => p.namespace in namespaces, pods))
  }

  /** When the collection counts as truncated. */
  ghost predicate Overfull(selected: seq<Pod>, maxPods: nat, bytes: nat, maxBytes: nat) {
    |selected| > maxPods || bytes == maxBytes || SomeNameless(Asked(selected, maxPods))
  }

  /** What is known about the entries behind the loops. */
  lemma EntriesMeaning(run: Runner, selected: seq<Pod>, maxPods: nat, maxBytes: nat, entries: seq<Entry>)
    requires KeepsLimit(run) && entries == Replies(run, maxBytes, [], Attempted(Asked(selected, maxPods)))
    ensures TextBytes(entries) <= maxBytes && NoCutSuccess(entries)
    ensures !Overfull(selected, maxPods, TextBytes(entries), maxBytes) ==> Requests(entries) == Wanted(selected)
  {
    RepliesKeepBudget(run, maxBytes, [], Attempted(Asked(selected, maxPods)));
    RepliesInOrder(run, maxBytes, [], Attempted(Asked(selected, maxPods)));
    if !Overfull(selected, maxPods, TextBytes(entries), maxBytes) {
      AttemptedIsWanted(selected);
      assert Requests([]) + Attempted(selected) == Attempted(selected);
    }
  }

  // --- the result in terms of pods and commands ----------------------------------------------------

  /** The entry is what some command answered to its request: its output as far as the limit went, and
      collected exactly if the command succeeded with nothing cut. */
  ghost predicate IsAnswer(run: Runner, maxBytes: nat, e: Entry) {
    exists i: nat, limit: nat :: limit <= maxBytes && limit <= 524288
      && e.text == run(i, e.request, limit).stdout && e.truncated == run(i, e.request, limit).truncated
      && (e.ok <==> run(i, e.request, limit).returncode == Some(0) && !run(i, e.request, limit).truncated)
  }

  lemma {:induction false} RepliesAreAnswers(run: Runner, maxBytes: nat, entries: seq<Entry>, requests: seq<Request>)
    requires forall e :: e in entries ==> IsAnswer(run, maxBytes, e)
    ensures forall e :: e in Replies(run, maxBytes, entries, requests) ==> IsAnswer(run, maxBytes, e)
    decreases |requests|
  {
    if requests != [] {
      var request, consumed := requests[0], TextBytes(entries);
      if consumed < maxBytes {
        var limit := Limit(maxBytes - consumed);
        var result := run(|entries|, request, limit);
        var e := EntryOf(request, result);
        assert e.request == request;
        assert e.text == run(|entries|, e.request, limit).stdout && limit <= maxBytes && limit <= 524288;
        assert IsAnswer(run, maxBytes, e);
      }
      RepliesAreAnswers(run, maxBytes, Reply(run, maxBytes, entries, request), requests[1..]);
    }
  }

  /** How often a container restarted, as far as its status tells. */
  function Restarts(names: map<string, int>, name: string): int {
    if name in names then names[name] else 0
  }

  /** A log that a pod should contribute: the current one of a container or init container, or the
      previous one if that container restarted. */
  ghost predicate IsWanted(pod: Pod, q: Request) {
    && q.namespace == pod.namespace && q.pod == pod.name
    && (if q.init then q.container in pod.initContainers else q.container in pod.containers)
    && (q.previous ==> Restarts(if q.init then pod.initStatuses else pod.statuses, q.container) != 0)
  }

  lemma ContainersExactly(pod: Pod, c: Container)
    ensures c in ContainersOf(pod)
        <==> (if c.init then c.name in pod.initContainers && c.restarts == Restarts(pod.initStatuses, c.name)
              else c.name in pod.containers && c.restarts == Restarts(pod.statuses, c.name))
  {
    WithStatusExactly(pod.containers, pod.statuses, false, c);
    WithStatusExactly(pod.initContainers, pod.initStatuses, true, c);
  }

  lemma WithStatusExactly(names: seq<string>, statuses: map<string, int>, init: bool, c: Container)
    ensures c in WithStatus(names, statuses, init)
        <==> c.init == init && c.name in names && c.restarts == Restarts(statuses, c.name)
  {
    var cs := WithStatus(names, statuses, init);
    if c.init == init && c.name in names && c.restarts == Restarts(statuses, c.name) {
      var i :| 0 <= i < |names| && names[i] == c.name;
      assert cs[i] == c;
    }
  }

  lemma WantedExactly(pods: seq<Pod>, q: Request)
    ensures q in Wanted(pods) <==> exists pod :: pod in pods && IsWanted(pod, q)
  {
    FlatMapMembers(WantedOfAll(), pods, q);
    forall pod | pod in pods ensures q in WantedOfAll()(pod) <==> IsWanted(pod, q) { WantedOfPodExactly(pod, q); }
  }

  lemma WantedOfPodExactly(pod: Pod, q: Request)
    ensures q in WantedFrom(pod, ContainersOf(pod)) <==> IsWanted(pod, q)
  {
    FlatMapMembers(WantedOfPod(pod), ContainersOf(pod), q);
    if IsWanted(pod, q) {
      var c := Container(q.container, Restarts(if q.init then pod.initStatuses else pod.statuses, q.container), q.init);
      ContainersExactly(pod, c);
      assert q in WantedOfPod(pod)(c);
    }
    if c :| c in ContainersOf(pod) && q in WantedOfPod(pod)(c) {
      ContainersExactly(pod, c);
    }
  }

  /** A pod with a container that cannot be asked for, as one of the names is missing. */
  predicate HasNameless(pod: Pod) {
    || "" in pod.containers + pod.initContainers
    || ((pod.namespace == "" || pod.name == "") && pod.containers + pod.initContainers != [])
  }

  lemma NamelessExactly(pods: seq<Pod>)
    ensures SomeNameless(pods) <==> exists pod :: pod in pods && HasNameless(pod)
  {
    forall pod ensures AllNamed(pod, ContainersOf(pod)) <==> !HasNameless(pod) { NamelessPod(pod); }
    if pod :| pod in pods && HasNameless(pod) {
      var i :| 0 <= i < |pods| && pods[i] == pod;
    }
  }

  lemma NamelessPod(pod: Pod)
    ensures AllNamed(pod, ContainersOf(pod)) <==> !HasNameless(pod)
  {
    var cs, names := ContainersOf(pod), pod.containers + pod.initContainers;
    assert |cs| == |names| && forall i :: 0 <= i < |cs| ==> cs[i].name == names[i];
    if "" in names {
      var i :| 0 <= i < |names| && names[i] == "";
      assert !Named(pod, cs[i]);
    } else if HasNameless(pod) {
      assert !Named(pod, cs[0]);
    }
  }

  lemma {:induction false} AskableAreNamed(pod: Pod, cs: seq<Container>)
    ensures forall c :: c in Askable(pod, cs) ==> c in cs && c.name != ""
    ensures Askable(pod, cs) != [] ==> pod.namespace != "" && pod.name != ""
  {
    if cs != [] { AskableAreNamed(pod, cs[1..]); }
  }

  /** Only wanted logs are asked for, and only with all their names. */
  lemma AttemptedAreNamed(pods: seq<Pod>, q: Request)
    requires q in Attempted(pods)
    ensures q.namespace != "" && q.pod != "" && q.container != ""
    ensures exists pod :: pod in pods && IsWanted(pod, q)
  {
    FlatMapMembers(AttemptedOfAll(), pods, q);
    var pod :| pod in pods && q in AttemptedOfAll()(pod);
    var cs := ContainersOf(pod);
    FlatMapMembers(WantedOfPod(pod), Askable(pod, cs), q);
    FlatMapMembers(WantedOfPod(pod), cs, q);
    AskableAreNamed(pod, cs);
    WantedOfPodExactly(pod, q);
  }

  lemma SelectExactly(pods: seq<Pod>, namespaces: set<string>, priority: (Pod, Pod) -> bool, pod: Pod)
    ensures pod in Select(pods, namespaces, priority) <==> pod in pods && pod.namespace in namespaces
  {
    var chosen := Filter((p: Pod) => p.namespace in namespaces, pods);
    PermutationDistinct(chosen, Select(pods, namespaces, priority));
  }

  /** The request is for a log that a pod in the namespaces should contribute. */
  ghost predicate Wants(pods: seq<Pod>, namespaces: set<string>, q: Request) {
    exists pod :: pod in pods && pod.namespace in namespaces && IsWanted(pod, q)
  }

  /** Every entry answers its request, which names a wanted log; a collection that is not truncated asked
      for all of them. */
  ghost predicate Answered(run: Runner, pods: seq<Pod>, namespaces: set<string>, maxBytes: nat, r: Collection) {
    && (forall e :: e in r.entries ==>
          && IsAnswer(run, maxBytes, e) && Wants(pods, namespaces, e.request)
          && e.request.namespace != "" && e.request.pod != "" && e.request.container != "")
    && (r.status in {Partial, Collected} ==> forall q :: q in Requests(r.entries) <==> Wants(pods, namespaces, q))
  }

  lemma WantedOfSelected(pods: seq<Pod>, namespaces: set<string>, priority: (Pod, Pod) -> bool, q: Request)
    ensures q in Wanted(Select(pods, namespaces, priority)) <==> Wants(pods, namespaces, q)
  {
    WantedExactly(Select(pods, namespaces, priority), q);
    forall pod ensures pod in Select(pods, namespaces, priority) <==> pod in pods && pod.namespace in namespaces {
      SelectExactly(pods, namespaces, priority, pod);
    }
  }

  lemma EntryIsNamed(run: Runner, selected: seq<Pod>, maxPods: nat, maxBytes: nat, entries: seq<Entry>, e: Entry)
    requires KeepsLimit(run) && e in entries
    requires entries == Replies(run, maxBytes, [], Attempted(Asked(selected, maxPods)))
    ensures e.request.namespace != "" && e.request.pod != "" && e.request.container != ""
    ensures e.request in Wanted(selected)
  {
    var requests := Attempted(Asked(selected, maxPods));
    RepliesInOrder(run, maxBytes, [], requests);
    assert Requests([]) + requests == requests;
    var i :| 0 <= i < |entries| && entries[i] == e;
    assert Requests(entries)[i] == e.request == requests[i];
    AttemptedAreNamed(Asked(selected, maxPods), e.request);
    WantedExactly(selected, e.request);
  }

  lemma CollectionIsAnswered(run: Runner, pods: seq<Pod>, namespaces: set<string>, priority: (Pod, Pod) -> bool,
                             maxPods: nat, maxBytes: nat, r: Collection)
    requires KeepsLimit(run)
    requires r.entries == Replies(run, maxBytes, [], Attempted(Asked(Select(pods, namespaces, priority), maxPods)))
    requires r.status in {Partial, Collected} ==> Requests(r.entries) == Wanted(Select(pods, namespaces, priority))
    ensures Answered(run, pods, namespaces, maxBytes, r)
  {
    var selected := Select(pods, namespaces, priority);
    RepliesAreAnswers(run, maxBytes, [], Attempted(Asked(selected, maxPods)));
    forall q ensures q in Wanted(selected) <==> Wants(pods, namespaces, q) {
      WantedOfSelected(pods, namespaces, priority, q);
    }
    forall e | e in r.entries
      ensures Wants(pods, namespaces, e.request)
      ensures e.request.namespace != "" && e.request.pod != "" && e.request.container != ""
    {
      EntryIsNamed(run, selected, maxPods, maxBytes, r.entries, e);
    }
  }

  /** `_collect_logs`, for any order of priority. */
  method CollectLogs(run: Runner, available: bool, pods: seq<Pod>, namespaces: set<string>,
                     priority: (Pod, Pod) -> bool,
                     maxPods: nat, maxBytes: nat)
    returns (r: Collection)
    requires KeepsLimit(run)
    ensures r.status == SourceUnavailable <==> !available
    ensures available ==>
              r.entries == Replies(run, maxBytes, [], Attempted(Asked(Select(pods, namespaces, priority), maxPods)))
              && r.selectedPods == |Select(pods, namespaces, priority)|
    ensures r.bytes == TextBytes(r.entries) <= maxBytes
    ensures available ==>
              (r.status == Truncated <==>
               || r.selectedPods > maxPods || r.bytes == maxBytes
               || exists pod :: pod in Asked(Select(pods, namespaces, priority), maxPods) && HasNameless(pod))
    ensures r.status in {Partial, Collected} ==> Requests(r.entries) == Wanted(Select(pods, namespaces, priority))
    ensures r.status == Collected ==> forall e :: e in r.entries ==> e.ok && !e.truncated
    ensures r.status == Partial ==> exists e :: e in r.entries && !e.ok
    ensures available ==> Answered(run, pods, namespaces, maxBytes, r)
  {
    if !available { return Collection(SourceUnavailable, [], 0, 0); }
    var selected := Select(pods, namespaces, priority);
    var limited := |selected| > maxPods;
    var entries, consumed, cut := CollectPods(run, Asked(selected, maxPods), maxBytes);
    limited := limited || cut;
    EntriesMeaning(run, selected, maxPods, maxBytes, entries);
    NamelessExactly(Asked(selected, maxPods));
    var status :=
      if limited || consumed >= maxBytes then Truncated
      else if exists i :: 0 <= i < |entries| && !entries[i].ok then Partial
      else Collected;
    r := Collection(status, entries, consumed, |selected|);
    CollectionIsAnswered(run, pods, namespaces, priority, maxPods, maxBytes, r);
  }
}
