/** Where an event happened: its pod or its node, as the scopes of normalize.py tell them apart. */
module Places {
  import opened Wrappers
  import opened Events

  predicate HasPod(e: Event) {
    e.namespace.Some? && e.namespace.value != "" && e.pod.Some? && e.pod.value != ""
  }

  predicate HasNode(e: Event) {
    e.node.Some? && e.node.value != ""
  }

  predicate SameNode(e: Event, f: Event) {
    HasNode(e) && HasNode(f) && e.node == f.node
  }

  /** Both events name a pod, and the names with a slash in between are one text. */
  predicate SamePodText(e: Event, f: Event) {
    HasPod(e) && HasPod(f) && e.namespace.value + "/" + e.pod.value == f.namespace.value + "/" + f.pod.value
  }

  predicate SamePod(e: Event, f: Event) {
    HasPod(e) && HasPod(f) && e.namespace == f.namespace && e.pod == f.pod
  }

  /** One name continues the other one behind a slash. */
  predicate Nested(m: string, n: string) {
    |m| < |n| && n[..|m|] == m && n[|m|] == '/'
  }

  lemma LongerNamespace(m: string, x: string, n: string, y: string)
    requires m + "/" + x == n + "/" + y && |m| < |n|
    ensures Nested(m, n)
  {
    var s := m + "/" + x;
    assert s[..|m|] == m && s[|m|] == '/';
    assert s[..|n|] == n;
    assert n[..|m|] == s[..|m|] && n[|m|] == s[|m|];
  }

  lemma SameNamespace(m: string, x: string, y: string)
    requires m + "/" + x == m + "/" + y
    ensures x == y
  {
    var s := m + "/" + x;
    assert s[|m| + 1..] == x && (m + "/" + y)[|m| + 1..] == y;
  }

  /** The texts tell pods apart for all pod names. */
  ghost predicate TellsPodsApart(namespaces: set<string>) {
    forall m, n, x: string, y: string ::
      m in namespaces && n in namespaces && x != "" && y != "" && m + "/" + x == n + "/" + y ==> m == n && x == y
  }

  /** The text of a pod identifies it if and only if no namespace continues another one behind a slash.
      (Names without a slash never do.) */
  lemma PodTextsExactly(namespaces: set<string>)
    ensures TellsPodsApart(namespaces) <==> forall m, n :: m in namespaces && n in namespaces ==> !Nested(m, n)
  {
    if m, n :| m in namespaces && n in namespaces && Nested(m, n) {
      var x, y := n[|m| + 1..] + "/p", "p";
      assert n == m + "/" + n[|m| + 1..];
      assert m + "/" + x == n + "/" + y;
      assert m != n;
    } else {
      forall m, n, x: string, y: string
        | m in namespaces && n in namespaces && x != "" && y != "" && m + "/" + x == n + "/" + y
        ensures m == n && x == y
      {
        if |m| < |n| { LongerNamespace(m, x, n, y); }
        if |n| < |m| { LongerNamespace(n, y, m, x); }
        assert m == (m + "/" + x)[..|m|] && n == (n + "/" + y)[..|n|];
        SameNamespace(m, x, y);
      }
    }
  }

  lemma SamePodTextMeansSamePod(namespaces: set<string>, e: Event, f: Event)
    requires TellsPodsApart(namespaces) && SamePodText(e, f)
    requires e.namespace.value in namespaces && f.namespace.value in namespaces
    ensures SamePod(e, f)
  {
  }

  /** Two different pods with one text. */
  lemma SlashedNamespacesClash(e: Event)
    ensures var f, g := e.(namespace := Some("a"), pod := Some("b/c")), e.(namespace := Some("a/b"), pod := Some("c"));
            SamePodText(f, g) && !SamePod(f, g)
  {
    assert "a" + "/" + "b/c" == "a/b" + "/" + "c";
    assert |"a"| != |"a/b"|;
  }
}
