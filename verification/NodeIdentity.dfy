/** Unambiguous matching of inventory aliases to Kubernetes nodes (node_identity.py). */
module NodeIdentity {
  import opened Text

  /** A node snapshot's own names. */
  datatype Snapshot = Snapshot(hostname: string, fqdn: string)

  /** A Kubernetes node: its name and its `kubernetes.io/hostname` label. */
  datatype Node = Node(name: string, hostname: string)

  /** Lower-casing, left uninterpreted. */
  type Lower = string -> string

  function StripDots(s: string): string {
    if s != [] && s[|s| - 1] == '.' then StripDots(s[..|s| - 1]) else s
  }

  /** `_normalized_names`. */
  function NormalizedNames(lower: Lower, values: set<string>): set<string> {
    set v | v in values && lower(StripDots(Strip(v))) != "" :: lower(StripDots(Strip(v)))
  }

  function FirstLabel(s: string): string {
    if s == [] || s[0] == '.' then [] else [s[0]] + FirstLabel(s[1..])
  }

  /** `_short_names`. */
  function ShortNames(names: set<string>): set<string> {
    set n | n in names :: FirstLabel(n)
  }

  /** Aliases and nodes with their normalised full names. */
  type Names = map<string, set<string>>

  /** How well two names fit: a shared full name beats a shared short name. */
  function Score(a: set<string>, n: set<string>): nat {
    if a * n != {} then 2
    else if ShortNames(a) * ShortNames(n) != {} then 1
    else 0
  }

  /** `n` is a best candidate of alias `a`. */
  ghost predicate IsBest(inventory: Names, kubernetes: Names, a: string, n: string) {
    && a in inventory && n in kubernetes
    && Score(inventory[a], kubernetes[n]) > 0
    && forall m :: m in kubernetes ==> Score(inventory[a], kubernetes[m]) <= Score(inventory[a], kubernetes[n])
  }

  /** `n` is the only best candidate of `a`. */
  ghost predicate OnlyBest(inventory: Names, kubernetes: Names, a: string, n: string) {
    IsBest(inventory, kubernetes, a, n) && forall m :: IsBest(inventory, kubernetes, a, m) ==> m == n
  }

  /** `a` belongs to `n`: each is the other's only choice. */
  ghost predicate Matched(inventory: Names, kubernetes: Names, a: string, n: string) {
    OnlyBest(inventory, kubernetes, a, n) && forall b :: OnlyBest(inventory, kubernetes, b, n) ==> b == a
  }

  /** The scoring loop of one alias: its set of best candidates. */
  method BestCandidates(names: set<string>, kubernetes: Names) returns (best: set<string>)
    ensures forall n :: n in best <==>
              n in kubernetes && Score(names, kubernetes[n]) > 0
              && forall m :: m in kubernetes ==> Score(names, kubernetes[m]) <= Score(names, kubernetes[n])
  {
    var bestScore: nat := 0;
    best := {};
    var rest := kubernetes.Keys;
    while rest != {}
      invariant rest <= kubernetes.Keys && 0 <= bestScore <= 2
      invariant forall n :: n in best <==>
          n in kubernetes && n !in rest && bestScore > 0 && Score(names, kubernetes[n]) == bestScore
      invariant forall m :: m in kubernetes && m !in rest ==> Score(names, kubernetes[m]) <= bestScore
      invariant bestScore > 0 ==> best != {}
      decreases rest
    {
      var n :| n in rest;
      rest := rest - {n};
      var score: nat := 0;
      if names * kubernetes[n] != {} {
        score := 2;
      } else if ShortNames(names) * ShortNames(kubernetes[n]) != {} {
        score := 1;
      }
      if score > bestScore {
        bestScore, best := score, {n};
      } else if score == bestScore && score > 0 {
        best := best + {n};
      }
    }
    if bestScore > 0 {
      var chosen :| chosen in best;
    }
  }

  /** The candidates of every alias that has one. */
  method AllCandidates(inventory: Names, kubernetes: Names) returns (candidates: map<string, set<string>>)
    ensures forall a :: a in candidates ==>
              candidates[a] != {} && forall n :: n in candidates[a] <==> IsBest(inventory, kubernetes, a, n)
    ensures forall a, n :: IsBest(inventory, kubernetes, a, n) ==> a in candidates
  {
    candidates := map[];
    var rest := inventory.Keys;
    while rest != {}
      invariant rest <= inventory.Keys
      invariant forall a :: a in candidates ==>
                candidates[a] != {} && forall n :: n in candidates[a] <==> IsBest(inventory, kubernetes, a, n)
      invariant forall a, n :: a !in rest && IsBest(inventory, kubernetes, a, n) ==> a in candidates
      decreases rest
    {
      var a :| a in rest;
      rest := rest - {a};
      var best := BestCandidates(inventory[a], kubernetes);
      if best != {} {
        candidates := candidates[a := best];
      }
    }
  }

  /** The element of a one-element set. */
  function Single(s: set<string>): (x: string)
    requires |s| == 1
    ensures s == {x}
  {
    SingleUnique(s);
    var x :| x in s;
    x
  }

  lemma SingleUnique(s: set<string>)
    requires |s| == 1
    ensures forall x, y :: x in s && y in s ==> x == y
    ensures forall x :: x in s ==> s == {x}
  {
    var e :| e in s;
    assert |s - {e}| == 0;
    assert s == {e} + (s - {e});
  }

  /** The alias has one candidate, and it is `n`. */
  predicate Chooses(candidates: map<string, set<string>>, a: string, n: string) {
    a in candidates && candidates[a] == {n}
  }

  /** The reverse index: which aliases chose a node. */
  method ReverseIndex(candidates: map<string, set<string>>) returns (reverse: map<string, set<string>>)
    ensures forall a, n :: Chooses(candidates, a, n) <==> n in reverse && a in reverse[n]
  {
    reverse := map[];
    var rest := candidates.Keys;
    while rest != {}
      invariant rest <= candidates.Keys
      invariant forall a, n :: (Chooses(candidates, a, n) && a !in rest) <==> n in reverse && a in reverse[n]
      decreases rest
    {
      var a :| a in rest;
      rest := rest - {a};
      if |candidates[a]| == 1 {
        var n := Single(candidates[a]);
        reverse := reverse[n := (if n in reverse then reverse[n] else {}) + {a}];
      } else {
        forall n ensures !Chooses(candidates, a, n) {
          assert |{n}| == 1;
        }
      }
    }
  }

  lemma ChoosesIsOnlyBest(inventory: Names, kubernetes: Names, candidates: map<string, set<string>>)
    requires forall a :: a in candidates ==>
              candidates[a] != {} && forall n :: n in candidates[a] <==> IsBest(inventory, kubernetes, a, n)
    requires forall a, n :: IsBest(inventory, kubernetes, a, n) ==> a in candidates
    ensures forall a, n :: Chooses(candidates, a, n) <==> OnlyBest(inventory, kubernetes, a, n)
  {
    forall a, n ensures Chooses(candidates, a, n) <==> OnlyBest(inventory, kubernetes, a, n) {
      if OnlyBest(inventory, kubernetes, a, n) {
        assert candidates[a] == {n};
      }
      if Chooses(candidates, a, n) {
        assert n in candidates[a];
      }
    }
  }

  /** The last step: an alias is kept if its choice was chosen by it alone. */
  method Keep(candidates: map<string, set<string>>, reverse: map<string, set<string>>) returns (r: map<string, string>)
    requires forall a, n :: Chooses(candidates, a, n) <==> n in reverse && a in reverse[n]
    ensures forall a, n :: a in r && r[a] == n <==>
        Chooses(candidates, a, n) && forall b :: Chooses(candidates, b, n) ==> b == a
  {
    forall a | a in candidates && |candidates[a]| == 1 ensures Chooses(candidates, a, Single(candidates[a])) { }
    r := map a | a in candidates && |candidates[a]| == 1
                 && Single(candidates[a]) in reverse && |reverse[Single(candidates[a])]| == 1
         :: Single(candidates[a]);
    forall a, n
      ensures a in r && r[a] == n <==> Chooses(candidates, a, n) && forall b :: Chooses(candidates, b, n) ==> b == a
    {
      if Chooses(candidates, a, n) {
        assert |{n}| == 1;
        assert Single(candidates[a]) == n && a in reverse[n];
        assert reverse[n] == {a} <==> forall b :: b in reverse[n] ==> b == a;
        if |reverse[n]| == 1 {
          SingleUnique(reverse[n]);
        }
      }
    }
  }

  function InventoryNames(lower: Lower, snapshots: map<string, Snapshot>): Names {
    map a | a in snapshots :: NormalizedNames(lower, {a, snapshots[a].hostname, snapshots[a].fqdn})
  }

  /** Nodes by name; a node without a name is skipped, and the last of equal names counts. */
  function KubernetesNames(lower: Lower, nodes: seq<Node>): Names {
    if nodes == [] then map[]
    else
      var last := nodes[|nodes| - 1];
      var earlier := KubernetesNames(lower, nodes[..|nodes| - 1]);
      if last.name == "" then earlier
      else earlier[last.name := NormalizedNames(lower, {last.name, last.hostname})]
  }

  // --- the same on the names ------------------------------------------------------------------------

  /** Some full name is common to both. */
  ghost predicate ShareFull(a: set<string>, n: set<string>) {
    exists x :: x in a && x in n
  }

  /** The first label of a name is the text in front of its first dot. */
  ghost predicate IsLabel(head: string, name: string) {
    head <= name && '.' !in head && (|head| < |name| ==> name[|head|] == '.')
  }

  /** Some names of both have a common first label. */
  ghost predicate ShareShort(a: set<string>, n: set<string>) {
    exists x, y, head :: x in a && y in n && IsLabel(head, x) && IsLabel(head, y)
  }

  /** The node that fits the alias: if any node shares a full name with it, the only one that does, and
      otherwise the only one that shares a short name. */
  ghost predicate Fits(inventory: Names, kubernetes: Names, a: string, n: string) {
    && a in inventory && n in kubernetes
    && if exists m :: m in kubernetes && ShareFull(inventory[a], kubernetes[m])
       then forall m :: m in kubernetes ==> (ShareFull(inventory[a], kubernetes[m]) <==> m == n)
       else forall m :: m in kubernetes ==> (ShareShort(inventory[a], kubernetes[m]) <==> m == n)
  }

  /** The node fits the alias, and no other alias. */
  ghost predicate BelongTogether(inventory: Names, kubernetes: Names, a: string, n: string) {
    Fits(inventory, kubernetes, a, n) && forall b :: Fits(inventory, kubernetes, b, n) ==> b == a
  }

  lemma {:induction false} FirstLabelIs(s: string)
    ensures IsLabel(FirstLabel(s), s)
  {
    if s != [] && s[0] != '.' {
      FirstLabelIs(s[1..]);
      assert s == [s[0]] + s[1..];
    }
  }

  lemma {:induction false} LabelUnique(k: string, name: string)
    requires IsLabel(k, name)
    ensures k == FirstLabel(name)
  {
    if name != [] && name[0] != '.' {
      assert k != [] && k[0] == name[0];
      assert name[1..][..|k| - 1] == name[..|k|][1..] == k[1..];
      LabelUnique(k[1..], name[1..]);
      assert k == [k[0]] + k[1..];
    }
  }

  lemma ScoreMeaning(a: set<string>, n: set<string>)
    ensures Score(a, n) == 2 <==> ShareFull(a, n)
    ensures Score(a, n) == 1 <==> !ShareFull(a, n) && ShareShort(a, n)
    ensures Score(a, n) <= 2
  {
    assert a * n != {} <==> ShareFull(a, n) by {
      if x :| x in a && x in n { assert x in a * n; }
    }
    assert ShortNames(a) * ShortNames(n) != {} <==> ShareShort(a, n) by {
      if head :| head in ShortNames(a) * ShortNames(n) {
        var x :| x in a && FirstLabel(x) == head;
        var y :| y in n && FirstLabel(y) == head;
        FirstLabelIs(x);
        FirstLabelIs(y);
      }
      if x, y, head :| x in a && y in n && IsLabel(head, x) && IsLabel(head, y) {
        LabelUnique(head, x);
        LabelUnique(head, y);
        assert head in ShortNames(a) * ShortNames(n);
      }
    }
  }

  lemma OnlyBestExactly(inventory: Names, kubernetes: Names, a: string, n: string)
    ensures OnlyBest(inventory, kubernetes, a, n) <==> Fits(inventory, kubernetes, a, n)
  {
    if a in inventory && n in kubernetes {
      forall m | m in kubernetes
        ensures Score(inventory[a], kubernetes[m]) <= 2
        ensures Score(inventory[a], kubernetes[m]) == 2 <==> ShareFull(inventory[a], kubernetes[m])
        ensures Score(inventory[a], kubernetes[m]) == 1
            <==> !ShareFull(inventory[a], kubernetes[m]) && ShareShort(inventory[a], kubernetes[m])
      {
        ScoreMeaning(inventory[a], kubernetes[m]);
      }
      if m :| m in kubernetes && ShareFull(inventory[a], kubernetes[m]) {
        FullNamesDecide(inventory, kubernetes, a, n, m);
      } else {
        ShortNamesDecide(inventory, kubernetes, a, n);
      }
    }
  }

  lemma FullNamesDecide(inventory: Names, kubernetes: Names, a: string, n: string, some: string)
    requires a in inventory && n in kubernetes && some in kubernetes && Score(inventory[a], kubernetes[some]) == 2
    requires forall m :: m in kubernetes ==> Score(inventory[a], kubernetes[m]) <= 2
    ensures OnlyBest(inventory, kubernetes, a, n)
        <==> forall m :: m in kubernetes ==> (Score(inventory[a], kubernetes[m]) == 2 <==> m == n)
  {
    forall m | m in kubernetes
      ensures IsBest(inventory, kubernetes, a, m) <==> Score(inventory[a], kubernetes[m]) == 2
    {
      if IsBest(inventory, kubernetes, a, m) {
        assert Score(inventory[a], kubernetes[some]) <= Score(inventory[a], kubernetes[m]);
      }
    }
    assert forall m :: IsBest(inventory, kubernetes, a, m) ==> m in kubernetes;
  }

  lemma ShortNamesDecide(inventory: Names, kubernetes: Names, a: string, n: string)
    requires a in inventory && n in kubernetes
    requires forall m :: m in kubernetes ==> Score(inventory[a], kubernetes[m]) <= 1
    ensures OnlyBest(inventory, kubernetes, a, n)
        <==> forall m :: m in kubernetes ==> (Score(inventory[a], kubernetes[m]) == 1 <==> m == n)
  {
    forall m | m in kubernetes
      ensures Score(inventory[a], kubernetes[m]) == 1 ==> IsBest(inventory, kubernetes, a, m)
      ensures IsBest(inventory, kubernetes, a, m) ==> Score(inventory[a], kubernetes[m]) == 1
    {
    }
    assert forall m :: IsBest(inventory, kubernetes, a, m) ==> m in kubernetes;
  }

  lemma MatchedExactly(inventory: Names, kubernetes: Names, a: string, n: string)
    ensures Matched(inventory, kubernetes, a, n) <==> BelongTogether(inventory, kubernetes, a, n)
  {
    OnlyBestExactly(inventory, kubernetes, a, n);
    forall b ensures OnlyBest(inventory, kubernetes, b, n) <==> Fits(inventory, kubernetes, b, n) {
      OnlyBestExactly(inventory, kubernetes, b, n);
    }
  }

  /** What is dropped from the end of a name is dots, all of them, and nothing else. */
  lemma {:induction false} StripDotsExactly(s: string)
    ensures var r := StripDots(s);
            r <= s && (r == "" || r[|r| - 1] != '.') && forall i :: |r| <= i < |s| ==> s[i] == '.'
  {
    if s != [] && s[|s| - 1] == '.' { StripDotsExactly(s[..|s| - 1]); }
  }

  /** A cleaned name: without white space around it, without dots at its end, and in lower case. */
  function Clean(lower: Lower, v: string): string {
    lower(StripDots(Strip(v)))
  }

  /** The names of an alias are its own, its host name and its full name, cleaned, without empty ones. */
  lemma InventoryNamesExactly(lower: Lower, snapshots: map<string, Snapshot>, a: string, x: string)
    requires a in snapshots
    ensures x in InventoryNames(lower, snapshots)[a]
        <==> x != "" && (x == Clean(lower, a) || x == Clean(lower, snapshots[a].hostname)
                         || x == Clean(lower, snapshots[a].fqdn))
  {
    var values := {a, snapshots[a].hostname, snapshots[a].fqdn};
    assert a in values && snapshots[a].hostname in values && snapshots[a].fqdn in values;
  }

  /** The last node of a name. */
  ghost predicate IsLast(nodes: seq<Node>, i: nat, n: string) {
    i < |nodes| && nodes[i].name == n && forall j :: i < j < |nodes| ==> nodes[j].name != n
  }

  lemma {:induction false} KnownNodes(lower: Lower, nodes: seq<Node>, n: string)
    ensures n in KubernetesNames(lower, nodes) <==> n != "" && exists i :: 0 <= i < |nodes| && nodes[i].name == n
  {
    if nodes != [] {
      var front := nodes[..|nodes| - 1];
      KnownNodes(lower, front, n);
      assert forall i :: 0 <= i < |front| ==> front[i] == nodes[i];
    }
  }

  lemma {:induction false} LastEntry(lower: Lower, nodes: seq<Node>, n: string) returns (i: nat)
    requires n in KubernetesNames(lower, nodes)
    ensures IsLast(nodes, i, n) && KubernetesNames(lower, nodes)[n] == NormalizedNames(lower, {n, nodes[i].hostname})
  {
    var front, last := nodes[..|nodes| - 1], nodes[|nodes| - 1];
    KnownNodes(lower, nodes, n);
    if last.name == n {
      i := |nodes| - 1;
    } else {
      i := LastEntry(lower, front, n);
      forall j | i < j < |nodes| ensures nodes[j].name != n {
        assert j < |front| ==> front[j] == nodes[j];
      }
    }
  }

  /** A node is known by its last entry: under its name and the host name label, cleaned, without empty ones. */
  lemma KubernetesNamesExactly(lower: Lower, nodes: seq<Node>, n: string, x: string) returns (i: nat)
    requires n in KubernetesNames(lower, nodes)
    ensures IsLast(nodes, i, n)
    ensures x in KubernetesNames(lower, nodes)[n]
        <==> x != "" && (x == Clean(lower, n) || x == Clean(lower, nodes[i].hostname))
  {
    i := LastEntry(lower, nodes, n);
    var values := {n, nodes[i].hostname};
    assert n in values && nodes[i].hostname in values;
  }

  /** `match_node_identities`: an alias is matched to a node exactly if each is the other's only choice. */
  method MatchNodeIdentities(lower: Lower, snapshots: map<string, Snapshot>, nodes: seq<Node>)
    returns (r: map<string, string>)
    ensures forall a, n :: a in r && r[a] == n <==>
              Matched(InventoryNames(lower, snapshots), KubernetesNames(lower, nodes), a, n)
    ensures forall a, n :: a in r && r[a] == n <==>
              BelongTogether(InventoryNames(lower, snapshots), KubernetesNames(lower, nodes), a, n)
  {
    var inventory, kubernetes := InventoryNames(lower, snapshots), KubernetesNames(lower, nodes);
    var candidates := AllCandidates(inventory, kubernetes);
    ChoosesIsOnlyBest(inventory, kubernetes, candidates);
    var reverse := ReverseIndex(candidates);
    r := Keep(candidates, reverse);
    forall a, n ensures Matched(inventory, kubernetes, a, n) <==> BelongTogether(inventory, kubernetes, a, n) {
      MatchedExactly(inventory, kubernetes, a, n);
    }
  }

  /** No node is given to two aliases, and no alias gets two nodes. */
  lemma MatchingIsInjective(inventory: Names, kubernetes: Names, a: string, b: string, m: string, n: string)
    requires Matched(inventory, kubernetes, a, m) && Matched(inventory, kubernetes, b, n)
    ensures a == b <==> m == n
  {
    assert OnlyBest(inventory, kubernetes, b, n);
  }

  /** An alias that shares full names with two nodes stays unmatched, and so does one that shares short
      names with two nodes and a full name with none. */
  lemma AmbiguityStaysUnmatched(inventory: Names, kubernetes: Names, a: string, m: string, n: string)
    requires a in inventory && m in kubernetes && n in kubernetes && m != n
    requires (ShareFull(inventory[a], kubernetes[m]) && ShareFull(inventory[a], kubernetes[n]))
             || (ShareShort(inventory[a], kubernetes[m]) && ShareShort(inventory[a], kubernetes[n])
                 && forall k :: k in kubernetes ==> !ShareFull(inventory[a], kubernetes[k]))
    ensures forall k :: !Matched(inventory, kubernetes, a, k)
  {
    forall k ensures !Matched(inventory, kubernetes, a, k) {
      MatchedExactly(inventory, kubernetes, a, k);
    }
  }
}
