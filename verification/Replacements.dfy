/** The restoring loop of llm_export.py (`_restore_tokens`): its order, its result and its count. */
module Replacements {
  import opened Order
  import opened TokenText
  import opened Restoring
  import Registries

  // --- the tokens of a registry ---------------------------------------------------------------------

  function ValuesOf(tokens: map<string, Registries.Entry>): TokenMap {
    map t | t in tokens :: tokens[t].value
  }

  /** The tokens that a registry hands out are words, so every listing of them can be restored, and a token
      by itself becomes the text it stands for. */
  lemma RegisteredTokensRestore(tokens: map<string, Registries.Entry>, keys: seq<string>)
    requires Registries.Numbered(tokens) && Distinct(keys) && forall t :: t in keys <==> t in tokens
    ensures Ordering(keys, ValuesOf(tokens))
    ensures forall t :: t in tokens ==> AtOnce(ValuesOf(tokens), t) == tokens[t].value
  {
    forall t | t in tokens ensures AtOnce(ValuesOf(tokens), t) == tokens[t].value {
      var n :| Registries.HasNumber(tokens, t, n);
      TokenIsWord(tokens[t].kind, n);
      OnRunsWord(FromMap(ValuesOf(tokens)), t);
    }
    forall i | 0 <= i < |keys| ensures IsWord(keys[i]) {
      assert keys[i] in keys;
      var n :| Registries.HasNumber(tokens, keys[i], n);
      TokenIsWord(tokens[keys[i]].kind, n);
    }
  }

  // --- the order of the loop ----------------------------------------------------------------------------

  function Longer(): (string, string) -> bool {
    (a: string, b: string) => |a| >= |b|
  }

  /** The tokens, longest first; tokens of one length keep their order. */
  function LongestFirst(keys: seq<string>): seq<string> {
    SortBy(Longer(), keys)
  }

  lemma LongestFirstOrders(keys: seq<string>, tokens: TokenMap)
    requires Ordering(keys, tokens)
    ensures Ordering(LongestFirst(keys), tokens) && Sorted(Longer(), LongestFirst(keys))
  {
    var order := LongestFirst(keys);
    SortBySorted(Longer(), keys);
    PermutationDistinct(keys, order);
    forall i | 0 <= i < |order| ensures IsWord(order[i]) {
      assert order[i] in keys;
    }
  }

  // --- counting -------------------------------------------------------------------------------------------

  /** How often the pattern of a token matches from position `i` on. */
  function Matches(s: string, i: nat, token: string): nat
    requires token != "" && i <= |s|
    decreases |s| - i
  {
    if i == |s| then 0
    else if MatchesAt(s, i, token) then 1 + Matches(s, i + |token|, token)
    else Matches(s, i + 1, token)
  }

  /** How many maximal runs of token characters pass a test. */
  function RunsFrom(p: string -> bool, s: string, i: nat): nat
    requires i <= |s|
    decreases |s| - i
  {
    if i == |s| then 0
    else if RunEnd(s, i) == i then RunsFrom(p, s, i + 1)
    else (if p(s[i..RunEnd(s, i)]) then 1 else 0) + RunsFrom(p, s, RunEnd(s, i))
  }

  function Runs(p: string -> bool, s: string): nat {
    RunsFrom(p, s, 0)
  }

  function Is(token: string): string -> bool {
    (run: string) => run == token
  }

  function IsTokenOf(tokens: TokenMap): string -> bool {
    (run: string) => run in tokens
  }

  lemma {:induction false} MatchesSkip(s: string, i: nat, end: nat, token: string)
    requires token != "" && i <= end <= |s| && forall j :: i <= j < end ==> !MatchesAt(s, j, token)
    ensures Matches(s, i, token) == Matches(s, end, token)
    decreases end - i
  {
    if i < end {
      assert !MatchesAt(s, i, token);
      MatchesSkip(s, i + 1, end, token);
    }
  }

  lemma MatchesOneRun(s: string, i: nat, token: string)
    requires IsWord(token) && i < |s| && RunEnd(s, i) > i && BoundaryBefore(s, i)
    ensures var e := RunEnd(s, i);
            Matches(s, i, token) == (if s[i..e] == token then 1 else 0) + Matches(s, e, token)
  {
    var e := RunEnd(s, i);
    MatchIsRun(s, i, token);
    if s[i..e] != token {
      RunEndFacts(s, i);
      forall j | i <= j < e ensures !MatchesAt(s, j, token) {
        if j > i { NoMatchInside(s, j, token); }
      }
      MatchesSkip(s, i, e, token);
    } else {
      assert MatchesAt(s, i, token) && i + |token| == e;
    }
  }

  /** On a word token the matches are the runs that are the token. */
  lemma {:induction false} MatchesAreRuns(s: string, i: nat, token: string)
    requires IsWord(token) && i <= |s| && (BoundaryBefore(s, i) || BoundaryAfter(s, i))
    ensures Matches(s, i, token) == RunsFrom(Is(token), s, i)
    decreases |s| - i
  {
    if i < |s| {
      var e := RunEnd(s, i);
      RunEndFacts(s, i);
      if e == i {
        NoMatchAtSeparator(s, i, token);
        MatchesAreRuns(s, i + 1, token);
      } else {
        MatchesOneRun(s, i, token);
        MatchesAreRuns(s, e, token);
      }
    }
  }

  /** The number of replacements that `_restore_tokens` reports, as a fold. */
  function Replaced(order: seq<string>, tokens: TokenMap, s: string): nat {
    if order == [] then 0
    else Runs(Is(order[0]), s) + Replaced(order[1..], tokens, OnRuns(Replace(tokens, order[0]), s))
  }

  /** `_restore_tokens`: the tokens are replaced one after the other, longest first; `keys` lists the
      tokens in the order of the dictionary. */
  method RestoreTokens(text: string, keys: seq<string>, tokens: TokenMap) returns (result: string, replacements: nat)
    requires Ordering(keys, tokens)
    ensures result == Sequentially(LongestFirst(keys), tokens, text)
    ensures replacements == Replaced(LongestFirst(keys), tokens, text)
  {
    var order := LongestFirst(keys);
    LongestFirstOrders(keys, tokens);
    result, replacements := text, 0;
    for i := 0 to |order|
      invariant Sequentially(order[i..], tokens, result) == Sequentially(order, tokens, text)
      invariant replacements + Replaced(order[i..], tokens, result) == Replaced(order, tokens, text)
    {
      var token := order[i];
      assert token in order;
      SubIsOnRuns(result, 0, token, tokens[token]);
      MatchesAreRuns(result, 0, token);
      SameRewriting(Single(token, tokens[token]), Replace(tokens, token), result, 0);
      assert order[i..][1..] == order[i + 1..] && order[i..][0] == token;
      replacements := replacements + Matches(result, 0, token);
      result := Sub(result, 0, token, tokens[token]);
    }
  }

  // --- counting piece by piece --------------------------------------------------------------------------------

  lemma {:induction false} RunsShift(p: string -> bool, a: string, b: string, j: nat)
    requires j <= |b|
    ensures RunsFrom(p, a + b, |a| + j) == RunsFrom(p, b, j)
    decreases |b| - j
  {
    if j < |b| {
      RunEndShift(a, b, j);
      var e := RunEnd(b, j);
      if e == j {
        RunsShift(p, a, b, j + 1);
      } else {
        SliceShift(a, b, j, e);
        RunsShift(p, a, b, e);
      }
    }
  }

  lemma {:induction false} RunsAppendFrom(p: string -> bool, a: string, b: string, i: nat)
    requires i <= |a| && Apart(b)
    ensures RunsFrom(p, a + b, i) == RunsFrom(p, a, i) + Runs(p, b)
    decreases |a| - i
  {
    if i == |a| {
      RunsShift(p, a, b, 0);
    } else {
      RunEndAppend(a, b, i);
      var e := RunEnd(a, i);
      assert (a + b)[i..e] == a[i..e];
      RunsAppendFrom(p, a, b, if e == i then i + 1 else e);
    }
  }

  lemma RunsWord(p: string -> bool, w: string)
    requires IsWord(w)
    ensures Runs(p, w) == if p(w) then 1 else 0
  {
    RunEndIs(w, 0, |w|);
    assert w[0..|w|] == w && RunsFrom(p, w, |w|) == 0;
  }

  lemma RunsSeparator(p: string -> bool, c: char, u: string)
    requires !IsTokenChar(c)
    ensures Runs(p, [c] + u) == Runs(p, u)
  {
    assert ([c] + u)[0] == c;
    RunsShift(p, [c], u, 0);
  }

  lemma {:induction false} ReplacedAppend(order: seq<string>, tokens: TokenMap, a: string, b: string)
    requires Apart(b)
    ensures Replaced(order, tokens, a + b) == Replaced(order, tokens, a) + Replaced(order, tokens, b)
    decreases |order|
  {
    if order != [] {
      var f := Replace(tokens, order[0]);
      OnRunsAppend(f, a, b);
      OnRunsStaysApart(f, b);
      RunsAppendFrom(Is(order[0]), a, b, 0);
      ReplacedAppend(order[1..], tokens, OnRuns(f, a), OnRuns(f, b));
    }
  }

  lemma {:induction false} ReplacedSeparator(order: seq<string>, tokens: TokenMap, c: char, u: string)
    requires !IsTokenChar(c)
    ensures Replaced(order, tokens, [c] + u) == Replaced(order, tokens, u)
    decreases |order|
  {
    if order != [] {
      var f := Replace(tokens, order[0]);
      OnRunsShift(f, [c], u, 0);
      assert ([c] + u)[0] == c;
      assert OnRuns(f, [c] + u) == [c] + OnRuns(f, u);
      RunsSeparator(Is(order[0]), c, u);
      ReplacedSeparator(order[1..], tokens, c, OnRuns(f, u));
    }
  }

  lemma {:induction false} ReplacedEmpty(order: seq<string>, tokens: TokenMap)
    ensures Replaced(order, tokens, "") == 0
    decreases |order|
  {
    if order != [] { ReplacedEmpty(order[1..], tokens); }
  }

  lemma {:induction false} ReplacedOther(order: seq<string>, tokens: TokenMap, w: string)
    requires IsWord(w) && w !in order
    ensures Replaced(order, tokens, w) == 0
    decreases |order|
  {
    if order != [] {
      OnRunsWord(Replace(tokens, order[0]), w);
      RunsWord(Is(order[0]), w);
      ReplacedOther(order[1..], tokens, w);
    }
  }

  /** A token counts once, and whatever is replaced inside its value counts on top. */
  lemma {:induction false} ReplacedToken(order: seq<string>, tokens: TokenMap, i: nat)
    requires Distinct(order) && i < |order| && order[i] in tokens && IsWord(order[i])
    ensures Replaced(order, tokens, order[i]) == 1 + Replaced(order[i + 1..], tokens, tokens[order[i]])
    decreases |order|
  {
    OnRunsWord(Replace(tokens, order[0]), order[i]);
    RunsWord(Is(order[0]), order[i]);
    if i > 0 {
      var tail := order[1..];
      assert tail[i - 1] == order[i] && tail[i..] == order[i + 1..];
      assert forall j :: 0 <= j < |tail| ==> tail[j] == order[j + 1];
      ReplacedToken(tail, tokens, i - 1);
    }
  }

  // --- when the count is the number of tokens in the text -------------------------------------------------------

  /** No value mentions a token whose turn comes later. */
  ghost predicate Quiet(order: seq<string>, tokens: TokenMap) {
    forall i, j :: 0 <= i < j < |order| && order[i] in tokens ==> !Mentions(tokens[order[i]], order[j])
  }

  lemma {:induction false} MentionedCounts(s: string, i: nat, token: string)
    requires i <= |s| && (BoundaryBefore(s, i) || BoundaryAfter(s, i)) && IsWord(token)
    ensures RunsFrom(Is(token), s, i) > 0
        <==> exists k :: i <= k < |s| && BoundaryBefore(s, k) && s[k..RunEnd(s, k)] == token
    decreases |s| - i
  {
    if i < |s| {
      var e := RunEnd(s, i);
      RunEndFacts(s, i);
      if e == i {
        assert s[i..e] == "";
        MentionedCounts(s, i + 1, token);
      } else {
        MentionedCounts(s, e, token);
        assert forall k :: i < k < e ==> !BoundaryBefore(s, k);
      }
    }
  }

  lemma {:induction false} NothingReplaced(order: seq<string>, tokens: TokenMap, s: string)
    requires forall i :: 0 <= i < |order| ==> IsWord(order[i])
    ensures Replaced(order, tokens, s) == 0 <==> forall i :: 0 <= i < |order| ==> !Mentions(s, order[i])
    decreases |order|
  {
    if order != [] {
      MentionedCounts(s, 0, order[0]);
      assert Runs(Is(order[0]), s) > 0 <==> Mentions(s, order[0]);
      if !Mentions(s, order[0]) {
        ReplaceLeaves(tokens, order[0], s);
        UntouchedRuns(Replace(tokens, order[0]), s, 0);
        assert s[0..] == s;
        NothingReplaced(order[1..], tokens, s);
        assert forall i :: 0 < i < |order| ==> order[i] == order[1..][i - 1];
      }
    }
  }

  lemma LaterReplaced(order: seq<string>, tokens: TokenMap, i: nat)
    requires Ordering(order, tokens) && i < |order| && order[i] in tokens
    ensures Replaced(order, tokens, order[i]) == 1
        <==> forall j :: i < j < |order| ==> !Mentions(tokens[order[i]], order[j])
  {
    var later := order[i + 1..];
    ReplacedToken(order, tokens, i);
    NothingReplaced(later, tokens, tokens[order[i]]);
    assert forall j :: i < j < |order| ==> order[j] == later[j - i - 1];
    assert forall k :: 0 <= k < |later| ==> later[k] == order[i + 1 + k];
  }

  lemma QuietWord(order: seq<string>, tokens: TokenMap, w: string)
    requires Ordering(order, tokens) && Quiet(order, tokens) && IsWord(w)
    ensures Replaced(order, tokens, w) == if w in tokens then 1 else 0
  {
    if w in order {
      var i :| 0 <= i < |order| && order[i] == w;
      LaterReplaced(order, tokens, i);
    } else {
      ReplacedOther(order, tokens, w);
    }
  }

  lemma {:induction false} QuietCounts(order: seq<string>, tokens: TokenMap, s: string, i: nat)
    requires Ordering(order, tokens) && Quiet(order, tokens) && i <= |s|
    ensures Replaced(order, tokens, s[i..]) == RunsFrom(IsTokenOf(tokens), s, i)
    decreases |s| - i
  {
    if i == |s| {
      ReplacedEmpty(order, tokens);
    } else {
      var e := RunEnd(s, i);
      if e == i {
        assert s[i..] == [s[i]] + s[i + 1..];
        ReplacedSeparator(order, tokens, s[i], s[i + 1..]);
        QuietCounts(order, tokens, s, i + 1);
      } else {
        FirstRunCounts(order, tokens, s, i);
        QuietCounts(order, tokens, s, e);
      }
    }
  }

  lemma FirstRunCounts(order: seq<string>, tokens: TokenMap, s: string, i: nat)
    requires Ordering(order, tokens) && Quiet(order, tokens) && i < |s| && i < RunEnd(s, i)
    ensures var e := RunEnd(s, i);
            Replaced(order, tokens, s[i..]) == (if s[i..e] in tokens then 1 else 0) + Replaced(order, tokens, s[e..])
  {
    var e := RunEnd(s, i);
    RunEndFacts(s, i);
    assert s[i..] == s[i..e] + s[e..];
    assert IsWord(s[i..e]) by { assert forall j :: 0 <= j < e - i ==> s[i..e][j] == s[i + j]; }
    assert Apart(s[e..]) by { assert e < |s| ==> s[e..][0] == s[e]; }
    ReplacedAppend(order, tokens, s[i..e], s[e..]);
    QuietWord(order, tokens, s[i..e]);
  }

  /** The reported number is the number of tokens in the text, for every text, if and only if no value
      mentions a token whose turn comes later. */
  lemma CountIsTokensExactly(order: seq<string>, tokens: TokenMap)
    requires Ordering(order, tokens)
    ensures Quiet(order, tokens) <==> forall s :: Replaced(order, tokens, s) == Runs(IsTokenOf(tokens), s)
  {
    if Quiet(order, tokens) {
      forall s ensures Replaced(order, tokens, s) == Runs(IsTokenOf(tokens), s) {
        QuietCounts(order, tokens, s, 0);
        assert s[0..] == s;
      }
    } else {
      var i, j :| 0 <= i < j < |order| && order[i] in tokens && Mentions(tokens[order[i]], order[j]);
      LaterReplaced(order, tokens, i);
      RunsWord(IsTokenOf(tokens), order[i]);
      assert Replaced(order, tokens, order[i]) != Runs(IsTokenOf(tokens), order[i]);
    }
  }

  /** A value that is itself a later token is restored once more, and counts twice. */
  lemma NestedToken(a: string, b: string, v: string, tokens: TokenMap)
    requires IsWord(a) && IsWord(b) && a != b && tokens == map[a := b, b := v]
    ensures Ordering([a, b], tokens)
    ensures Sequentially([a, b], tokens, a) == v && AtOnce(tokens, a) == b
    ensures Replaced([a, b], tokens, a) == 2 && Runs(IsTokenOf(tokens), a) == 1
  {
    var order := [a, b];
    assert order[1..] == [b] && [b][1..] == [];
    SequentiallyToken(order, tokens, 0);
    SequentiallyToken([b], tokens, 0);
    OnRunsWord(FromMap(tokens), a);
    ReplacedToken(order, tokens, 0);
    ReplacedToken([b], tokens, 0);
    RunsWord(IsTokenOf(tokens), a);
  }

  lemma LongerFirst(a: string, b: string)
    requires |a| > |b|
    ensures LongestFirst([b, a]) == [a, b]
  {
    assert [b, a][1..] == [a] && [a][1..] == [];
    assert SortBy(Longer(), [a]) == [a];
    assert Insert(Longer(), b, [a]) == [a] + Insert(Longer(), b, []);
  }

  /** A node that is called like the token of a pod: its token is restored to that text, and then on to
      the pod's own name; two replacements are reported for one token. */
  lemma NestedValueRestoresTwice()
    ensures var tokens: TokenMap := map["NODE_001" := "POD_001", "POD_001" := "web"];
            var order := LongestFirst(["POD_001", "NODE_001"]);
            && Ordering(order, tokens)
            && Sequentially(order, tokens, "NODE_001") == "web" && AtOnce(tokens, "NODE_001") == "POD_001"
            && Replaced(order, tokens, "NODE_001") == 2 && Runs(IsTokenOf(tokens), "NODE_001") == 1
  {
    var a, b := "NODE_001", "POD_001";
    assert |a| == 8 && |b| == 7;
    assert IsWord(a) && IsWord(b);
    LongerFirst(a, b);
    NestedToken(a, b, "web", map[a := b, b := "web"]);
  }
}
