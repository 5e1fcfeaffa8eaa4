# A verified model of the kdiag analysis engine

kdiag collects diagnostic evidence from Kubernetes clusters and analyses it offline. This project
models the offline part and proves what it promises: the bounded event pipeline, the correlation of
events into episodes, the causal graph and the ranking of hypotheses, the comparison and approval of
baselines, the byte budget and the pseudonyms of an LLM export, the Markdown printers, and the bounded
loops of inventory, log and process reading.

Check the whole project with `dafny verify dfyconfig.toml`.

## Layout

| file | part of kdiag |
|---|---|
| `Events`, `Places`, `HeavyHitters`, `Correlation`, `Deduplication`, `FairLimit`, `Normalize` | `normalize.py`, from the single record to the published event list |
| `Reachability`, `Causal`, `Ranking` | `causal.py` |
| `Json`, `Baseline`, `Approval` | `baseline.py` |
| `TrimPackage`, `TokenText`, `Registries`, `Restoring`, `Replacements` | `llm_export.py` |
| `Markdown`, `Text` | `util.py`, against a reader of CommonMark 0.31.2 (sections 2.4 and 6.1) |
| `Inventory`, `NodeIdentity`, `Streams`, `Logs` | `inventory.py`, `node_identity.py`, `runner.py`, `kubernetes.py` |
| `Wrappers`, `Order`, `Seqs` | options and results, orders and sorting, list functions |

Objects that the program updates in place are classes (`Normalizer`, `GraphBuilder`, `Package` with its
shared `TrimCounter`, `Pseudonymizer`, `EvidenceRegistry`, `SeenSet`, `Stream`), and its loops are
methods proved against specification functions; the properties of those functions are lemmas.

The limits (100 fingerprints, 200000 candidates, 50000 events, 900 seconds, graph and byte limits) are
parameters, so the results hold for every value of them. Pattern matchers, text cleaning, case
conversion, hashes and the JSON text of a document are uninterpreted functions. Where a result needs
that a hash does not collide or that a written document reads back, it says so for the documents at
hand, and an example shows that this can be met (`Approval.SamplesToldApart`,
`Baseline.SampleHashTellsApart`).

## What the code does not do

Each of these is proved, with an input at which the expected property fails and the exact condition
under which it holds.

* An episode is published with its first twenty events only. The published events support the
  correlation if and only if the match has at most twenty events; a longer match always loses the group
  that its last event completed (`Correlation.RecordCoversExactly`; input: `Correlation.LongMatchLosesGroup`).
* Two episodes of a rule and scope can get the same id. If no four candidates of the scope share an
  instant, all ids differ, and three is the largest number for which this holds for every rule and
  window (`Correlation.FewTogetherDiffer`, `Correlation.ThreeTogetherExactly`; input:
  `Correlation.SimultaneousEpisodesClash`). For two given episodes the ids agree exactly if everything
  from the start of the first to the published end of the second happened at one instant
  (`Correlation.EpisodeIdsDiffer`).
* The probe rule scopes events by namespace and pod name with a slash in between. This text identifies
  the pod if and only if no namespace continues another one behind a slash, as namespaces without
  slashes never do (`Places.PodTextsExactly`; input: `Places.SlashedNamespacesClash`).
* Approving with the unsafe override although nothing blocks the approval writes a baseline that
  verification always rejects (`Approval.ApprovedVerifiesExactly`; input: `Approval.OverrideSpoilsSample`).
* A recorded explanation need not have an edge: all recorded pairs have one if and only if both findings
  of each got a node and the edges fit behind what is drawn before them, which can be computed from the
  graph and the limits before the call (`Causal.ExplainFindings`, `Causal.RoomIsDetermined`; inputs:
  `Causal.FullGraphDropsPair`, and for every limit `Causal.FullNodesDropPair`).
* The diff uses Python's `==`, for which `true` is `1`. Taking over the reported places gives exactly the
  later value if and only if no value is masked in this way (`Json.PatchGivesAfterExactly`; input:
  `Json.TrueMasksOne`), and a changed object names a field if and only if `==` tells its two values apart
  (`Baseline.ChangedNamesFields`; input: `Baseline.ChangedWithoutFields`).
* The dotted texts of changed fields can repeat although the fields differ. With non-empty, dot-free keys
  they never do (`Json.PrintedPlacesDiffer`), and every other key takes part in two documents for which
  they do (`Json.NotPlainClashes`): for a family of keys that contains the parts of its keys, all diffs
  are unambiguous if and only if every key is non-empty and dot-free (`Json.PlainKeysExactly`).
* Restoring tokens one after the other equals restoring all at once if and only if no later replacement
  changes an earlier value (`Restoring.SequentialIsSimultaneousExactly`), and the reported number of
  replacements is the number of tokens in the text if and only if no value mentions a token whose turn
  comes later (`Replacements.CountIsTokensExactly`; input for both: `Replacements.NestedValueRestoresTwice`).
* A value printed by `markdown_code` reads back if and only if it is not blank; a blank one prints two
  backticks (`Markdown.CodeReadsBackExactly`; input: `Markdown.EmptySpanUnread`).

## Model

| member | source | states |
|---|---|---|
| HeavyHitters.RunSound | src/kdiag/normalize.py:429-467 | After every sequence of weighted insertions: at most `capacity` entries, counts sum to the inserted weight, every true weight lies in [count - error, count], and an absent key weighs at most the smallest count |
| HeavyHitters.VictimUnique | src/kdiag/normalize.py:438-438 | The evicted entry, least by (count, key), is unique, so eviction does not depend on dictionary order |
| HeavyHitters.CountsConserved | src/kdiag/normalize.py:437-446 | Evictions and re-insertions lose no count, and the table never outgrows its limit |
| HeavyHitters.ErrorWithinShare | src/kdiag/normalize.py:440-441 | No inherited error exceeds N / capacity |
| HeavyHitters.HeavyKeyIsRetained | src/kdiag/normalize.py:429-467 | Every fingerprint with more than N / capacity of the weight is in the table |
| HeavyHitters.PublishedRangeIsTrue | src/kdiag/normalize.py:370-375 | The published occurrence range contains the truth and is no wider than N / capacity; a count called exact is exact |
| HeavyHitters.FewFingerprintsExact | src/kdiag/normalize.py:434-446 | With at most `capacity` distinct fingerprints the table is the exact histogram and nothing was replaced |
| Correlation.CandidatesSorted | src/kdiag/normalize.py:848-857 | The candidates of a scope are exactly its eligible events, ascending by time and id |
| Correlation.RecountDropFirst | src/kdiag/normalize.py:865-868 | Subtracting the event that leaves the window keeps a count equal to a recount of the rest |
| Correlation.CoveredIsHitsAll | src/kdiag/normalize.py:869-869 | The test on the incremental counter says exactly that every group is hit inside the window |
| Correlation.FindMatch | src/kdiag/normalize.py:860-872 | One restart finds the valid window that ends first and reaches back as far as the span allows, or proves that there is none; the counter always equals a recount of left..right |
| Correlation.Scan | src/kdiag/normalize.py:858-874 | The matches of a scope are the greedy ones: each the first behind its predecessor, and nothing is left at the end |
| Correlation.GreedyUnique | src/kdiag/normalize.py:858-874 | The candidates determine the matches |
| Correlation.MatchesDisjoint | src/kdiag/normalize.py:866-871 | Matches are valid windows (two events or more, within the span, every group hit) and pairwise disjoint |
| Correlation.EveryWindowIsPierced | src/kdiag/normalize.py:858-874 | Every valid window contains the last event of some match |
| Correlation.GreedyIsOptimal | src/kdiag/normalize.py:858-874 | No family of disjoint valid windows is larger than the set of matches |
| Correlation.UniqueById | src/kdiag/normalize.py:820-820 | The dictionary by event id yields each id once, with its last event |
| Correlation.Episode | src/kdiag/normalize.py:816-823 | The event list of an episode: the events that hit a group, once per id, in order, cut to twenty; nothing if fewer than two |
| Correlation.EpisodeIsPrefix | src/kdiag/normalize.py:816-823 | For a match of the scan the episode is never suppressed and lists exactly the first twenty events of the match |
| Correlation.GroupByScope | src/kdiag/normalize.py:847-855 | The dictionary of scopes holds, for every scope, its eligible events in input order |
| Correlation.ScanMeaning | src/kdiag/normalize.py:806-855 | Two events are compared in one scan if and only if both have a measured time and a category of the rule, and both name one pod (probe rule) or one node (other rules) |
| Places.PodTextsExactly | src/kdiag/normalize.py:806-810 | The scope text identifies the pod if and only if no namespace continues another one behind a slash |
| Places.SlashedNamespacesClash | src/kdiag/normalize.py:806-810 | Two different pods with one scope text |
| Correlation.CorrelateScope | src/kdiag/normalize.py:856-877 | One scope: the greedy matches, with one episode for each |
| Correlation.CorrelateEvents | src/kdiag/normalize.py:843-878 | The result holds an episode if and only if it documents a greedy match of some rule in some scope, holds it once (rule ids being distinct), and is in order of start, rule and scope; and it is faithful: every correlation has two to twenty events of its rule from one place within the window, and where two events make a match on their own the rule has a correlation at their place |
| Correlation.EpisodeIsWellGrounded | src/kdiag/normalize.py:845-877 | Every published event has a measured time and a category of the rule, all events of a correlation are from one place, and no two lie further apart than the window |
| Correlation.PairIsReported | src/kdiag/normalize.py:845-877 | Two events of one place within the window that hit every group lead to a correlation at that place |
| Correlation.ProbeEpisodesShareAPod | src/kdiag/normalize.py:806-810 | The events of a correlation of the probe rule come from one pod, unless a namespace continues another one behind a slash |
| Correlation.EpisodeIdsDiffer | src/kdiag/normalize.py:827-827 | Two episodes of a rule and scope share their id inputs if and only if all of it happened at one instant |
| Correlation.FewTogetherDiffer | src/kdiag/normalize.py:827-830 | If no four candidates of a scope share an instant, all episodes of the scope have different id inputs |
| Correlation.ThreeTogetherExactly | src/kdiag/normalize.py:827-830 | With at most n simultaneous candidates all scans, whatever the rule and its window, give different id inputs if and only if n is at most three |
| Correlation.SimultaneousEpisodesClash | src/kdiag/normalize.py:827-827 | Four events at one instant whose two episodes share their id inputs |
| Correlation.RecordCoversExactly | src/kdiag/normalize.py:823-823 | The published events hit every group if and only if the match has at most twenty events |
| Correlation.LongMatchLosesGroup | src/kdiag/normalize.py:823-823 | A concrete match of 21 events whose published events miss a group |
| FairLimit.BucketLeqIsTotalOrder | src/kdiag/normalize.py:914-924 | The bucket order is total, so the rotation is deterministic |
| FairLimit.BucketsExactly | src/kdiag/normalize.py:907-914 | Two events share a bucket if and only if they agree in source, categories and place: the pod if they name one, otherwise the node if they name one |
| FairLimit.BucketOrder | src/kdiag/normalize.py:905-923 | Buckets take their turns by source, then scope, then categories; of two category lists a prefix comes first, and otherwise the first difference decides |
| FairLimit.FillBuckets | src/kdiag/normalize.py:920-922 | Each bucket holds exactly its events, in input order |
| FairLimit.TurnKeepsRotation | src/kdiag/normalize.py:925-929 | One turn keeps the rotation: no bucket is more than one event ahead of a waiting one |
| FairLimit.TurnKeepsSupply | src/kdiag/normalize.py:926-929 | One turn hands out the next event of the front bucket; kept and waiting events still make up every bucket |
| FairLimit.ScheduleIsFair | src/kdiag/normalize.py:925-937 | When the limit is reached the kept events are fairly limited |
| FairLimit.RoundRobin | src/kdiag/normalize.py:917-937 | Exactly min(limit, n) events stay, a prefix of every bucket, and if a bucket lost an event no other kept more than one event more |
| FairLimit.KeptFromInput | src/kdiag/normalize.py:923-937 | The kept events are a sub-multiset of the input |
| Deduplication.Deduplicate | src/kdiag/normalize.py:881-904 | The loop yields the first event of every key with the occurrences and evidence of all its events, and counts exactly the others |
| Deduplication.OccurrencesConserved | src/kdiag/normalize.py:898-898 | Merging conserves the sum of occurrences |
| Deduplication.DeduplicatedTwice | src/kdiag/normalize.py:881-904 | The result has distinct keys, and deduplicating it again changes nothing |
| Deduplication.EvidenceKept | src/kdiag/normalize.py:899-901 | The evidence of every merged event is the survivor's or in its duplicate evidence |
| Deduplication.FirstsDistinctIds | src/kdiag/normalize.py:894-904 | Distinct event ids stay distinct |
| Normalize.Normalizer.FindVictim | src/kdiag/normalize.py:438-438 | Finds the least entry by count, then component, then fingerprint |
| Normalize.Normalizer.Track | src/kdiag/normalize.py:430-446 | One weighted insertion into the table, counting a replacement exactly when it evicts |
| Normalize.Normalizer.Append | src/kdiag/normalize.py:405-477 | One record changes counters, candidates and table as the code's tests on its fields say |
| Normalize.CounterStepKeeps | src/kdiag/normalize.py:406-470 | The counters stay equal to the tallies of the records seen |
| Normalize.CandidateStepKeeps | src/kdiag/normalize.py:471-477 | The candidates stay the first `candidateLimit` categorized records; drops, their sources and the truncation flag agree with what is missing |
| Normalize.TableStepKeeps | src/kdiag/normalize.py:429-467 | The table stays the Space-Saving table of the tracked records |
| Normalize.Normalizer.AppendAll | src/kdiag/normalize.py:967-976 | After all records the state is that of the whole record list; in terms of the fields: the counters count exactly the records outside the window, suppressed, without and with a category; the candidates are records that pass and have a category, and all of them unless marked truncated; the table encloses every tracked amount and holds every heavy one |
| Normalize.CountsMeaning | src/kdiag/normalize.py:406-470 | The counters, in terms of time, smoke test and categories of the records |
| Normalize.EventsMeaning | src/kdiag/normalize.py:468-477 | The candidates are records that pass and have a category, and all of them unless the run is marked |
| Normalize.TableMeaning | src/kdiag/normalize.py:429-467 | The table bounds the amount of every message tracked under component or source and fingerprint |
| Normalize.FatesPartition | src/kdiag/normalize.py:406-477 | Every record is outside the window, a suppressed smoke query, uncategorized or categorized, and counted once |
| Normalize.FatesBySource | src/kdiag/normalize.py:407-475 | The same for every source |
| Normalize.AppendedBalances | src/kdiag/normalize.py:405-477 | Behind the appending the books balance, in total and per source |
| Normalize.StageBalances | src/kdiag/normalize.py:977-987 | A stage that splits its events into kept and counted ones keeps the books balanced |
| Normalize.DroppedById | src/kdiag/normalize.py:930-935 | Counting drops by missing id counts exactly the events that were not kept |
| Normalize.Normalizer.SuppressCgroup | src/kdiag/normalize.py:977-985 | The cgroup filter removes exactly the cgroup events, balanced |
| Normalize.Normalizer.MergeDuplicates | src/kdiag/normalize.py:986-986 | Deduplication inside the pipeline, balanced |
| Normalize.Normalizer.LimitOutput | src/kdiag/normalize.py:917-937 | The output limit is fair, balanced, and marks the run truncated exactly when it drops |
| Normalize.Normalizer.SortOutput | src/kdiag/normalize.py:988-988 | The published order is by time and id and loses nothing |
| Normalize.Normalizer.Finish | src/kdiag/normalize.py:977-988 | categorized = published + deduplicated + cgroup + both limit drops; dropped = both limit drops; truncated if and only if dropped > 0; per source alike; the published list is the fairly limited, merged, filtered candidate list, in order of time and with distinct ids; every published event is a record that passes window and smoke test and has a category (no cgroup event if these are not collected), no two are duplicates, and in an unmarked run every such record is published or has a published duplicate |
| Normalize.PublishedMeaning | src/kdiag/normalize.py:977-988 | The last three claims, for every part of the merged list |
| Normalize.NothingLostUnlessMarked | src/kdiag/normalize.py:977-988 | A run not marked truncated publishes every occurrence of every categorized record (cgroup collection on) |
| NodeIdentity.BestCandidates | src/kdiag/node_identity.py:34-42 | The best-scoring nodes of an alias, full name before short name |
| NodeIdentity.OnlyBestExactly | src/kdiag/node_identity.py:34-42 | The only best candidate is the only node that shares a full name, if any node does, and otherwise the only one that shares a first label |
| NodeIdentity.InventoryNamesExactly | src/kdiag/node_identity.py:16-20 | The names of an alias are its own, host name and full name, cleaned, without empty ones |
| NodeIdentity.KubernetesNamesExactly | src/kdiag/node_identity.py:22-30 | A node is known by the last entry of its name, under the name and the host name label |
| NodeIdentity.AllCandidates | src/kdiag/node_identity.py:32-42 | Exactly the best candidates of every alias that has one |
| NodeIdentity.ReverseIndex | src/kdiag/node_identity.py:44-47 | The reverse index holds exactly the single choices |
| NodeIdentity.Keep | src/kdiag/node_identity.py:49-53 | An alias is kept exactly if nobody else chose its node |
| NodeIdentity.MatchNodeIdentities | src/kdiag/node_identity.py:14-53 | alias maps to node if and only if the node fits the alias and no other alias: it is the only one that shares a full name with it, or, if none does, the only one that shares a first label |
| NodeIdentity.MatchingIsInjective | src/kdiag/node_identity.py:15-53 | The matching is injective and functional |
| NodeIdentity.AmbiguityStaysUnmatched | src/kdiag/node_identity.py:41-53 | An alias that shares full names with two nodes stays unmatched, and so does one that shares short names with two and a full name with none |
| Reachability.WithinIsPath | src/kdiag/causal.py:395-407 | The depth-indexed reachability is the existence of a path of at most that many edges from a start |
| Reachability.EverythingFound | src/kdiag/causal.py:402-406 | Marking nodes when first seen loses no node within the depth limit |
| Reachability.ExpandNode | src/kdiag/causal.py:402-406 | Expanding one node keeps queue order and depths right |
| Reachability.Reachable | src/kdiag/causal.py:395-407 | The search returns exactly the nodes within `maximum` edges of a start |
| Causal.GraphBuilder.AddNode | src/kdiag/causal.py:144-154 | First description wins, the node limit holds, the new node set is determined, and truncation is marked exactly when a new node is refused |
| Causal.GraphBuilder.AddEdge | src/kdiag/causal.py:156-169 | Adds the edge between two different known nodes if it fits, and marks truncation exactly when a new edge does not |
| Causal.GrownExactly | src/kdiag/causal.py:144-168 | What grows within a limit as far as it fits holds everything wanted if and only if everything fits |
| Causal.GrownTwice | src/kdiag/causal.py:144-168 | Growing step by step is growing by all together |
| Causal.AttachFinding | src/kdiag/causal.py:537-548 | A finding gets a node and edges to its known targets, as far as they fit, with the truncation mark set exactly if something does not |
| Causal.AttachFindings | src/kdiag/causal.py:534-548 | The nodes, edges and mark after all findings; every finding has a node if and only if all of them fit; the target sets are those of the last finding of each id |
| Causal.AllShownExactly | src/kdiag/causal.py:534-544 | Adding findings one by one shows all of them if and only if known nodes and findings together stay within the limit |
| Causal.TopologyStays | src/kdiag/causal.py:547-553 | Attaching findings never changes the cluster topology |
| Causal.TopologyAdjacency | src/kdiag/causal.py:550-553 | The adjacency is that of the edges that do not attach findings |
| Causal.TargetsOfUnique | src/kdiag/causal.py:545-546 | With distinct ids every finding keeps its own targets |
| Causal.LinkPair | src/kdiag/causal.py:573-580 | Records one pair and draws its edge if it fits; the graph holds the edges of all recorded pairs as far as they fit |
| Causal.LinkCause | src/kdiag/causal.py:562-580 | One cause is recorded with exactly the consequences it explains |
| Causal.LinkFindings | src/kdiag/causal.py:561-580 | The recorded pairs are exactly the explained ones; the graph gains their edges as far as they fit, and all of them if and only if all fit |
| Causal.ExplainFindings | src/kdiag/causal.py:528-580 | From findings to `may_explain`: a pair is recorded if and only if the cluster topology joins a target of the cause to a target of the consequence within six edges and the times fit; what is drawn and marked is determined, and every recorded pair has its edge if and only if there is room, decided from the state before the call |
| Causal.RecordedExactly | src/kdiag/causal.py:410-580 | A pair is recorded if and only if the first finding is neither a consequence nor about the collection, the second is a consequence, the first did not start more than 15 minutes after the second ended, and at most six edges lead from a target of the one to a target of the other |
| Causal.RoomIsDetermined | src/kdiag/causal.py:561-580 | The findings and the topology determine the recorded pairs, hence whether there is room for their edges |
| Causal.FullGraphDropsPair | src/kdiag/causal.py:164-166 | A concrete graph with room for three edges in which a recorded pair gets none, and one more place is enough |
| Causal.FullNodesDropPair | src/kdiag/causal.py:148-150 | For every pair of limits: where the known nodes leave room for one finding only, a recorded pair gets no edge |
| Ranking.ScoreFindings | src/kdiag/causal.py:476-521 | The loop scores every finding that is not a consequence, in order |
| Ranking.RankHypotheses | src/kdiag/causal.py:468-525 | The ranking is the scored list in order of (-score, rule, finding), numbered from 1, scores descending |
| Ranking.RankingIgnoresOrder | src/kdiag/causal.py:522-522 | The ranking does not depend on the order in which findings arrive |
| Ranking.LinkLowersNoScore | src/kdiag/causal.py:495-497 | Another recorded explanation lowers no score and raises only that of its cause, by at most five |
| Ranking.FullScoreExactly | src/kdiag/causal.py:470-512 | The full score is reached exactly by a critical, active possible cause of high confidence that explains three consequences or more, with nothing against it and nothing left to check |
| Ranking.SeveritySteps | src/kdiag/causal.py:470-481 | What the severities are worth against each other |
| Ranking.RoleSteps | src/kdiag/causal.py:483-488 | What the roles are worth |
| Ranking.StatusSteps | src/kdiag/causal.py:472-490 | What the states are worth |
| Ranking.ConfidenceSteps | src/kdiag/causal.py:471-493 | What the confidences are worth |
| Ranking.ObjectionSteps | src/kdiag/causal.py:498-506 | While the score stays above zero each of the first three objections costs five points and each of the first five open checks two, and no more |
| Ranking.ExplanationSteps | src/kdiag/causal.py:494-497 | Each of the first three explained consequences is worth five points, and no more |
| Json.ChangedPathsMembers | src/kdiag/baseline.py:690-702 | The diff lists exactly the maximal changed places |
| Json.ChangedPathsAntichain | src/kdiag/baseline.py:690-702 | No reported place lies inside another |
| Json.ChangedPathsDistinct | src/kdiag/baseline.py:690-702 | No place is reported twice |
| Json.NoPathsIffEqual | src/kdiag/baseline.py:700-702 | The diff is empty if and only if Python calls the values equal |
| Json.PatchGivesAfter | src/kdiag/baseline.py:690-702 | Taking over the reported places from `after` turns `before` into `after`, up to Python's equality |
| Json.PatchGivesAfterExactly | src/kdiag/baseline.py:690-702 | It gives `after` itself if and only if, wherever the diff stops, values equal for Python are identical |
| Json.IntegersUnmasked | src/kdiag/baseline.py:700-700 | Which holds for all documents without booleans and floats |
| Json.TrueMasksOne | src/kdiag/baseline.py:700-700 | `true` against `1`: nothing is reported and the patch leaves `true` in place |
| Json.PyEqIsIdentity | src/kdiag/baseline.py:700-700 | Without booleans and floats that equality is identity |
| Json.PyEqExactly | src/kdiag/baseline.py:700-700 | Python calls two values equal if and only if they are one document once all numbers are real |
| Json.ChangedPathsSymmetric | src/kdiag/baseline.py:693-698 | The diff does not depend on its direction |
| Json.OneTextPerPlace | src/kdiag/baseline.py:690-702 | The dotted texts are as many as the changed places |
| Json.TextsOfPlaces | src/kdiag/baseline.py:690-702 | The printed list is the list of places, each by its text |
| Json.PrintedPlacesDiffer | src/kdiag/baseline.py:694-694 | With non-empty, dot-free keys no text is printed twice |
| Json.DottedKeyClashes | src/kdiag/baseline.py:694-694 | For every key with a dot behind its first character, two documents whose diff prints it twice for different places |
| Json.EmptyKeyClashes | src/kdiag/baseline.py:694-694 | The empty key leaves no trace: what lies below it prints like what lies beside it |
| Json.NotPlainClashes | src/kdiag/baseline.py:694-694 | Every key that is empty or has a dot, leading dots included, occurs in two documents whose diff repeats a text |
| Json.PlainKeysExactly | src/kdiag/baseline.py:694-694 | Over a family of keys that contains the parts of its keys, all diffs print different texts if and only if every key is non-empty and dot-free |
| Json.StableTwice | src/kdiag/baseline.py:134-149 | The stable projection is idempotent if text cleaning is |
| Json.StableExactly | src/kdiag/baseline.py:134-149 | Two documents have one stable value if and only if they are alike up to volatile fields and text cleaning, by descending both |
| Json.StableIsAlike | src/kdiag/baseline.py:134-149 | The stable value is alike to its document |
| Json.VolatileInvisible | src/kdiag/baseline.py:136-140 | Nothing that happens to a volatile field at any depth shows in the stable value |
| Baseline.CompareObjects | src/kdiag/baseline.py:752-771 | The inner loop yields the records of one source, in key order |
| Baseline.CompareSource | src/kdiag/baseline.py:728-771 | One source: a gap, nothing, or its object records |
| Baseline.CompareSources | src/kdiag/baseline.py:727-771 | All records, in source order |
| Baseline.CompareProfiles | src/kdiag/baseline.py:722-800 | Status, counts and missing sources: incomplete if and only if some source is unchecked; no changes if and only if every source agrees hash by hash, or is optional and uncollected on both sides |
| Baseline.ReportedExactly | src/kdiag/baseline.py:727-771 | A record is reported if and only if it is the gap of an unchecked source or the difference of an object of a source collected on both sides |
| Baseline.DifferencesExactly | src/kdiag/baseline.py:749-771 | An object difference is reported if and only if the source was collected on both sides and the last objects of the key differ in hash or one is missing; what the record says about them, field by field |
| Baseline.GapsExactly | src/kdiag/baseline.py:730-748 | A gap is reported exactly for a source missing on some side and collected or required on some side, with both statuses |
| Baseline.ReportedOnce | src/kdiag/baseline.py:727-771 | No record is reported twice, and an unchecked source is reported once |
| Baseline.NoFalseRemoval | src/kdiag/baseline.py:732-771 | Missing data is never read as removal; object records state the true hashes of both sides, and only findings become problems or resolutions |
| Baseline.GapMeaning | src/kdiag/baseline.py:740-748 | An unverifiable record names an unchecked source with both statuses |
| Baseline.VerdictExactly | src/kdiag/baseline.py:772-780 | Both verdicts decided source by source |
| Baseline.CompareMirrors | src/kdiag/baseline.py:722-771 | Swapping the profiles exchanges added/removed and new/resolved, and fixes changed/unverifiable, record by record |
| Baseline.PublishedMirrors | src/kdiag/baseline.py:772-800 | Swapping the profiles keeps status and missing sources of the published result and exchanges the counts of the summary |
| Baseline.EqualHashesEqualValues | src/kdiag/baseline.py:152-164 | Built objects pass the hash test, and equal hashes mean equal values unless the two stable values collide |
| Baseline.ChangedNamesFields | src/kdiag/baseline.py:761-769 | A changed record names a field if and only if Python's equality tells the values apart |
| Baseline.ChangedNamesFieldsForIntegers | src/kdiag/baseline.py:761-769 | Without booleans and floats every changed record names a field |
| Baseline.ChangedWithoutFields | src/kdiag/baseline.py:761-769 | `true` against `1` is a changed record without a field, for every hash that tells the two documents apart |
| Baseline.SampleChangedWithoutFields | src/kdiag/baseline.py:761-769 | Such a hash and such objects exist, under any key |
| Approval.ValidateItems | src/kdiag/baseline.py:561-571 | Accepts exactly the object lists with own keys, fitting hashes and findings whose values have fields, and collects the critical findings |
| Approval.ValidateSources | src/kdiag/baseline.py:554-571 | The same for all sources, with the required gaps |
| Approval.ValidateProfile | src/kdiag/baseline.py:547-576 | Accepts exactly the valid profiles: hashes fit, the quality summary names exactly the critical findings and at least the required gaps |
| Approval.ValidateCandidate | src/kdiag/baseline.py:605-616 | Accepts exactly the valid candidates |
| Approval.Approve | src/kdiag/baseline.py:627-654 | Succeeds exactly when the author is good, the candidate valid, and nothing blocks or the override is given; what is written |
| Approval.Verify | src/kdiag/baseline.py:657-687 | Accepts exactly the canonical, sealed, approved documents whose override and blockers fit |
| Approval.ApprovedVerifiesExactly | src/kdiag/baseline.py:636-687 | What was approved, if its text reads back, verifies if and only if the override was not given without a reason |
| Approval.OverrideSpoilsSample | src/kdiag/baseline.py:649-686 | A candidate without blockers, under one codec: the file of a plain approval is accepted, the file of an approval with the override is rejected for good |
| Approval.BlockersCarryReasons | src/kdiag/baseline.py:681-686 | An accepted baseline with critical findings or gaps carries an override with reasons |
| Approval.CriticalCarriesReasons | src/kdiag/baseline.py:570-573 | A single finding of critical severity makes an accepted baseline name it and carry an override with reasons |
| Approval.GapsCarryReasons | src/kdiag/baseline.py:559-575 | So does one with a required source that was not collected, and the gap is listed with the state of the source |
| Approval.HashIdentifiesFile | src/kdiag/baseline.py:619-624 | Accepted files have equal document hashes if and only if they are the same file, unless the two hashed documents collide |
| Approval.SamplesToldApart | src/kdiag/baseline.py:619-687 | Accepted files that the hash tells apart exist |
| Approval.AcceptedIsCandidate | src/kdiag/baseline.py:605-687 | Whatever is accepted from an approval carries the profile, name and origin of the candidate and the author, and can not be approved again; a candidate itself is never accepted |
| TrimPackage.Package.PopOne | src/kdiag/llm_export.py:740-741 | One removal changes the list and the shared counter, hence the measured package |
| TrimPackage.CutList | src/kdiag/llm_export.py:739-741 | One list is cut only while the package is too large and no earlier list has elements |
| TrimPackage.CutLists | src/kdiag/llm_export.py:738-741 | The passes stop at the first fit, or with nothing left |
| TrimPackage.Trim | src/kdiag/llm_export.py:733-751 | The whole trimming with both passes and all three refusals |
| TrimPackage.PopsCutInOrder | src/kdiag/llm_export.py:736-741 | Lists stay prefixes, counters tell what is gone, later lists are cut only when earlier ones are empty |
| TrimPackage.TrimmedPackage | src/kdiag/llm_export.py:733-751 | A returned package fits with its own counters inside, and these are exactly the lengths lost |
| TrimPackage.RefusedExactly | src/kdiag/llm_export.py:742-750 | Each refusal exactly for its own reason: too large however much is removed, or fitting without the note but never with it; nothing is left to remove then |
| TrimPackage.FittingIsUntouched | src/kdiag/llm_export.py:738-748 | A package that fits is not cut |
| TrimPackage.FirstFitUnique | src/kdiag/llm_export.py:745-748 | The outcome is determined |
| TokenText.TokenInjective | src/kdiag/llm_export.py:594-594 | Tokens of different kinds or numbers differ, with any number of digits |
| TokenText.TokenLooks | src/kdiag/llm_export.py:594-594 | A token is its kind, an underscore and its number in at least three digits, with leading zeros only where needed |
| Registries.NextIsFresh | src/kdiag/llm_export.py:594-594 | The next number of a kind never repeats a token |
| Registries.Pseudonymizer.Add | src/kdiag/llm_export.py:590-597 | A text gets one token for ever, reserved texts none; `tokens` and `_reverse` stay mutually inverse |
| Registries.EvidenceRegistry.Get | src/kdiag/llm_export.py:139-145 | A reference gets one identifier, the next number if new |
| Registries.EvidenceRegistry.PrivateMap | src/kdiag/llm_export.py:147-148 | The private map is the inverse and loses no reference |
| Registries.NumberNext | src/kdiag/llm_export.py:143-144 | Identifiers stay pairwise different |
| Restoring.SubIsOnRuns | src/kdiag/llm_export.py:922-923 | The look-around pattern replaces exactly the maximal runs of token characters that are the token |
| Restoring.MatchExactly | src/kdiag/llm_export.py:922-922 | A token matches where it stands unless a capital letter, a digit or an underscore adjoins it |
| Restoring.SequentialIsSimultaneousExactly | src/kdiag/llm_export.py:918-924 | Equal to simultaneous restoration on every text if and only if no later replacement changes an earlier value |
| Restoring.PlainValuesRestoreAtOnce | src/kdiag/llm_export.py:918-924 | In particular if no stored value mentions a token |
| Replacements.RestoreTokens | src/kdiag/llm_export.py:914-925 | The loop applies the replacements one after the other, longest token first, and reports their number |
| Replacements.MatchesAreRuns | src/kdiag/llm_export.py:922-924 | The matches of a token are the maximal runs of token characters that are the token |
| Replacements.CountIsTokensExactly | src/kdiag/llm_export.py:916-924 | The reported number is the number of tokens in the text, for every text, if and only if no value mentions a token whose turn comes later |
| Replacements.RegisteredTokensRestore | src/kdiag/llm_export.py:590-597 | The tokens of a registry are words, so all results on restoring apply to them, and a token by itself is restored to the text it was given for |
| Replacements.NestedValueRestoresTwice | src/kdiag/llm_export.py:918-924 | A value that is a token is restored once more and counted twice |
| Markdown.FivePassesAreOne | src/kdiag/util.py:119-119 | Five sequential replacements equal one per-character escape |
| Markdown.EscapeRoundTrip | src/kdiag/util.py:117-119 | Unescaping by section 2.4 of CommonMark recovers the characters of the value in order, with one space where there was white space between them |
| Markdown.EscapedEverywhere | src/kdiag/util.py:117-119 | Every special character of the output follows an odd run of backslashes |
| Markdown.NormalizedTidy | src/kdiag/util.py:118-118 | The normalised text has single plain spaces only, none at the ends |
| Markdown.NormalizedSpacing | src/kdiag/util.py:118-118 | Normalising keeps every character that is no white space, in order, and between two of them whether there is white space |
| Markdown.NormalizedIsRebuilt | src/kdiag/util.py:118-118 | The normalised text has one space exactly where there was white space between two characters |
| Markdown.NormalizedTwice | src/kdiag/util.py:118-118 | Normalising again changes nothing |
| Markdown.CodeRoundTrip | src/kdiag/util.py:122-127 | A reader by section 6.1 of CommonMark gets that text back from every non-blank code span, whatever follows that is no backtick |
| Markdown.CodeReadsBackExactly | src/kdiag/util.py:122-127 | It does so if and only if the value has a character that is not white space |
| Inventory.GroupHosts | src/kdiag/inventory.py:29-39 | A call adds to the shared set only descendants, leaves no child of a new group unseen, and returns exactly the hosts of the new groups; it ends on every graph |
| Inventory.AllHosts | src/kdiag/inventory.py:29-39 | The outer call returns exactly the hosts of all groups reachable through children, cycles and missing groups included |
| Inventory.SelectHosts | src/kdiag/inventory.py:48-60 | Which hosts are selected, and exactly when the selection fails |
| Streams.Stream.Take | src/kdiag/runner.py:141-145 | The buffer is the first `limit` bytes produced, and overflow is reported exactly |
| Streams.ReadLoop | src/kdiag/runner.py:123-148 | For every chunking and interleaving each stream keeps exactly its first bytes up to its limit, and truncated means that some stream had more |
| Logs.RunProcess | src/kdiag/runner.py:88-148 | A command read through the bounded streams gives the first bytes of its output and the exact truncation mark |
| Logs.BoundedKeepsLimit | src/kdiag/runner.py:123-148 | Such a runner keeps every limit, which is all that log collection needs of it |
| Logs.Fetch | src/kdiag/kubernetes.py:1070-1104 | One command with what is left of the budget as its limit, and its entry |
| Logs.CollectContainer | src/kdiag/kubernetes.py:1067-1104 | Current log, and previous log exactly after a restart, as far as the budget goes |
| Logs.CollectContainers | src/kdiag/kubernetes.py:1062-1104 | The nested loops with their breaks equal one walk along the list of requests |
| Logs.CollectPods | src/kdiag/kubernetes.py:1050-1104 | The same for all pods |
| Logs.CollectLogs | src/kdiag/kubernetes.py:1041-1111 | The entries are the replies to the attempted requests under one budget, each collected exactly if its command returned 0 with nothing cut; truncated if and only if pods were left out, the budget is used up or something has no name; otherwise the requests are exactly the current log of every container of every pod in the namespaces and the previous one of those that restarted; collected means every entry is successful and uncut |
| Logs.RepliesKeepBudget | src/kdiag/kubernetes.py:1070-1099 | The total never exceeds the budget, and no cut entry counts as collected |
| Logs.RepliesInOrder | src/kdiag/kubernetes.py:1062-1104 | The answered requests are a prefix of the requests, and all of them while budget is left |
| Logs.AttemptedIsWanted | src/kdiag/kubernetes.py:1062-1069 | If everything has a name, all wanted logs are attempted |
| Logs.WantedExactly | src/kdiag/kubernetes.py:1050-1069 | A log is wanted if and only if it is the current one of a container or init container of a pod, or the previous one of a container whose own status tells of a restart |
| Logs.AttemptedAreNamed | src/kdiag/kubernetes.py:1050-1069 | Only wanted logs are asked for, and only with namespace, pod and container all named |
| Logs.NamelessExactly | src/kdiag/kubernetes.py:1050-1069 | The name test cuts the collection short exactly for a pod with a nameless container, or with any container if the pod or its namespace has no name |
| Logs.RepliesAreAnswers | src/kdiag/kubernetes.py:1089-1104 | Every entry holds what some command answered, and is collected exactly if that returned 0 and was not cut |

## Left out

- Json.PatchGivesAfter: states equality by Python's `==`, because the diff uses it; Json.PatchGivesAfterExactly says when it is identity.
- Json.PrintedPlacesDiffer: requires dot-free, non-empty keys; Json.NotPlainClashes shows for every other key that the texts can repeat.
- Correlation.Episode: models the event list of an episode; its categories, sources and evidence are sets read off that list.
- Correlation.EpisodeIdsDiffer: compares the two instants that enter the id; the hash over them is taken to be injective.
- Normalize.Normalizer.Finish: requires distinct event ids; the program hashes each event's unique evidence for them.
- Deduplication.Deduplicate: works on values; the program updates the first event of a key in place, and nothing else refers to it at that point.
- Ranking.RankHypotheses: models scores and order; the explanatory texts and the excerpts of evidence are not part of this model.
- Causal.ExplainFindings: requires findings with distinct ids, as the rules produce them, and takes the targets of a finding as a function.
- Replacements.RestoreTokens: requires a map from words to texts, as a registry produces it (Replacements.RegisteredTokensRestore); the rejection of other entries of a map that was read from a file is not modelled.
- Registries.Pseudonymizer.Add: kinds are upper-case words, and the type of an entry is kept in upper case.
- Streams.ReadLoop: timeouts and the termination of the process are not modelled; a run is a finite sequence of reads.
- Logs.CollectLogs: the order of priority is a parameter, and texts are bytes before decoding.
- Inventory.SelectHosts: the checks of host variables after the selection are single tests and are not part of this model.
- Approval.ValidateItems: every object has a value here; an object without one, which the program hashes as null, is not modelled.
- Approval.Verify: which of several faults is reported is not specified.
- The context of a fingerprint (first and last seen, nodes, pods, examples, rates), message texts and templates.
- The regular expressions of classification, insights and smoke queries, and the log sources that build the records.
- The topology built from Kubernetes objects, metric signals, and the affected objects of findings.
- Reading and writing files, SHA-256 itself, the JSON text itself, time stamps as texts, NaN, and Python's recursion limit.
- Collection over SSH and kubectl, rules, reports, configuration, bundles and the LLM client.
