/** Putting the original texts back (llm_export.py `_restore_tokens`). */
module Restoring {
  import opened Order
  import opened TokenText

  // --- one replacement, as the regular expression does it ------------------------------------------

  predicate IsWord(s: string) {
    s != "" && forall i :: 0 <= i < |s| ==> IsTokenChar(s[i])
  }

  predicate BoundaryBefore(s: string, i: nat)
    requires i <= |s|
  {
    i == 0 || !IsTokenChar(s[i - 1])
  }

  predicate BoundaryAfter(s: string, i: nat)
    requires i <= |s|
  {
    i == |s| || !IsTokenChar(s[i])
  }

  /** Does the token stand at position `i`, with no token character on either side? */
  predicate MatchesAt(s: string, i: nat, token: string) {
    i + |token| <= |s| && s[i..i + |token|] == token && BoundaryBefore(s, i) && BoundaryAfter(s, i + |token|)
  }

  /** A capital letter, a digit or an underscore. */
  predicate IsJoined(c: char) {
    'A' <= c <= 'Z' || '0' <= c <= '9' || c == '_'
  }

  /** A token matches where it stands, unless a capital letter, a digit or an underscore adjoins it. */
  lemma MatchExactly(a: string, token: string, b: string)
    ensures MatchesAt(a + token + b, |a|, token)
        <==> (a == "" || !IsJoined(a[|a| - 1])) && (b == "" || !IsJoined(b[0]))
  {
    var s := a + token + b;
    assert s[|a|..|a| + |token|] == token;
    assert a != "" ==> s[|a| - 1] == a[|a| - 1];
    assert b != "" ==> s[|a| + |token|] == b[0];
  }

  /** Replaces all matches of a token, scanning from position `i`. */
  function Sub(s: string, i: nat, token: string, value: string): string
    requires token != "" && i <= |s|
    decreases |s| - i
  {
    if i == |s| then ""
    else if MatchesAt(s, i, token) then value + Sub(s, i + |token|, token, value)
    else [s[i]] + Sub(s, i + 1, token, value)
  }

  // --- the same on runs of token characters ------------------------------------------------------------

  /** Where the run of token characters at position `i` ends. */
  function RunEnd(s: string, i: nat): (e: nat)
    requires i <= |s|
    ensures i <= e <= |s|
    decreases |s| - i
  {
    if i == |s| || !IsTokenChar(s[i]) then i else RunEnd(s, i + 1)
  }

  /** Rewrites every maximal run of token characters by `f` and keeps everything else. */
  function OnRunsFrom(f: string -> string, s: string, i: nat): string
    requires i <= |s|
    decreases |s| - i
  {
    if i == |s| then ""
    else if RunEnd(s, i) == i then [s[i]] + OnRunsFrom(f, s, i + 1)
    else f(s[i..RunEnd(s, i)]) + OnRunsFrom(f, s, RunEnd(s, i))
  }

  function OnRuns(f: string -> string, s: string): string {
    OnRunsFrom(f, s, 0)
  }

  function Single(token: string, value: string): string -> string {
    (run: string) => if run == token then value else run
  }

  lemma {:induction false} RunEndFacts(s: string, i: nat)
    requires i <= |s|
    ensures forall j :: i <= j < RunEnd(s, i) ==> IsTokenChar(s[j])
    ensures BoundaryAfter(s, RunEnd(s, i))
    decreases |s| - i
  {
    if i < |s| && IsTokenChar(s[i]) { RunEndFacts(s, i + 1); }
  }

  lemma {:induction false} RunEndIs(s: string, i: nat, e: nat)
    requires i <= e <= |s| && (forall j :: i <= j < e ==> IsTokenChar(s[j])) && BoundaryAfter(s, e)
    ensures RunEnd(s, i) == e
    decreases e - i
  {
    if i < e { RunEndIs(s, i + 1, e); }
  }

  lemma Prepend(c: char, a: string, b: string)
    ensures [c] + (a + b) == ([c] + a) + b
  {
  }

  lemma {:induction false} SubSkips(s: string, i: nat, end: nat, token: string, value: string)
    requires token != "" && i <= end <= |s| && forall j :: i <= j < end ==> !MatchesAt(s, j, token)
    ensures Sub(s, i, token, value) == s[i..end] + Sub(s, end, token, value)
    decreases end - i
  {
    if i < end {
      SubSkips(s, i + 1, end, token, value);
      assert !MatchesAt(s, i, token);
      Prepend(s[i], s[i + 1..end], Sub(s, end, token, value));
      assert s[i..end] == [s[i]] + s[i + 1..end];
    } else {
      assert s[i..end] == "";
    }
  }

  /** Inside a run nothing matches. */
  lemma NoMatchInside(s: string, i: nat, token: string)
    requires 0 < i <= |s| && IsTokenChar(s[i - 1])
    ensures !MatchesAt(s, i, token)
  {
  }

  lemma MatchEndsRun(s: string, i: nat, token: string)
    requires IsWord(token) && MatchesAt(s, i, token)
    ensures RunEnd(s, i) == i + |token|
  {
    assert forall j :: i <= j < i + |token| ==> s[j] == s[i..i + |token|][j - i] == token[j - i];
    RunEndIs(s, i, i + |token|);
  }

  lemma MatchIsRun(s: string, i: nat, token: string)
    requires IsWord(token) && i <= |s| && BoundaryBefore(s, i)
    ensures MatchesAt(s, i, token) <==> s[i..RunEnd(s, i)] == token
  {
    if MatchesAt(s, i, token) { MatchEndsRun(s, i, token); }
    RunEndFacts(s, i);
  }

  lemma SubOneRun(s: string, i: nat, token: string, value: string)
    requires IsWord(token) && i < |s| && RunEnd(s, i) > i && BoundaryBefore(s, i)
    ensures var e := RunEnd(s, i);
            Sub(s, i, token, value) == (if s[i..e] == token then value else s[i..e]) + Sub(s, e, token, value)
  {
    var e := RunEnd(s, i);
    MatchIsRun(s, i, token);
    if s[i..e] != token {
      RunEndFacts(s, i);
      forall j | i <= j < e ensures !MatchesAt(s, j, token) {
        if j > i { NoMatchInside(s, j, token); }
      }
      SubSkips(s, i, e, token, value);
    } else {
      assert MatchesAt(s, i, token) && i + |token| == e;
    }
  }

  /** One run of the scan, if the rest is already rewritten run by run. */
  lemma SubStep(s: string, i: nat, token: string, value: string)
    requires IsWord(token) && i < |s| && i < RunEnd(s, i) && BoundaryBefore(s, i)
    requires Sub(s, RunEnd(s, i), token, value) == OnRunsFrom(Single(token, value), s, RunEnd(s, i))
    ensures Sub(s, i, token, value) == OnRunsFrom(Single(token, value), s, i)
  {
    SubOneRun(s, i, token, value);
    OnRunsOneRun(Single(token, value), s, i);
    var run := s[i..RunEnd(s, i)];
    assert Single(token, value)(run) == if run == token then value else run;
  }

  lemma SeparatorStep(s: string, i: nat, token: string, value: string)
    requires IsWord(token) && i < |s| && RunEnd(s, i) == i && !IsTokenChar(s[i])
    requires Sub(s, i + 1, token, value) == OnRunsFrom(Single(token, value), s, i + 1)
    ensures Sub(s, i, token, value) == OnRunsFrom(Single(token, value), s, i)
  {
    SubAtSeparator(s, i, token, value);
    OnRunsAtSeparator(Single(token, value), s, i);
  }

  /** Where the scan goes on: behind the run, or behind the separator. */
  function Next(s: string, i: nat): (n: nat)
    requires i < |s|
    ensures i < n <= |s|
  {
    if RunEnd(s, i) == i then i + 1 else RunEnd(s, i)
  }

  lemma NextIsBoundary(s: string, i: nat)
    requires i < |s|
    ensures BoundaryBefore(s, Next(s, i)) || BoundaryAfter(s, Next(s, i))
  {
    RunEndFacts(s, i);
  }

  lemma AnyStep(s: string, i: nat, token: string, value: string)
    requires IsWord(token) && i < |s| && (BoundaryBefore(s, i) || BoundaryAfter(s, i))
    requires Sub(s, Next(s, i), token, value) == OnRunsFrom(Single(token, value), s, Next(s, i))
    ensures Sub(s, i, token, value) == OnRunsFrom(Single(token, value), s, i)
  {
    if IsTokenChar(s[i]) {
      SubStep(s, i, token, value);
    } else {
      SeparatorStep(s, i, token, value);
    }
  }

  /** On a word token the pattern replaces exactly the runs that are the token. (The scan is at the
      start of a run, or at a separator.) */
  lemma {:induction false} SubIsOnRuns(s: string, i: nat, token: string, value: string)
    requires IsWord(token) && i <= |s| && (BoundaryBefore(s, i) || BoundaryAfter(s, i))
    ensures Sub(s, i, token, value) == OnRunsFrom(Single(token, value), s, i)
    decreases |s| - i
  {
    if i < |s| {
      NextIsBoundary(s, i);
      SubIsOnRuns(s, Next(s, i), token, value);
      AnyStep(s, i, token, value);
    }
  }

  lemma OnRunsOneRun(f: string -> string, s: string, i: nat)
    requires i < |s| && i < RunEnd(s, i)
    ensures OnRunsFrom(f, s, i) == f(s[i..RunEnd(s, i)]) + OnRunsFrom(f, s, RunEnd(s, i))
  {
  }

  lemma OnRunsAtSeparator(f: string -> string, s: string, i: nat)
    requires i < |s| && RunEnd(s, i) == i
    ensures OnRunsFrom(f, s, i) == [s[i]] + OnRunsFrom(f, s, i + 1)
  {
  }

  lemma SubAtSeparator(s: string, i: nat, token: string, value: string)
    requires IsWord(token) && i < |s| && !IsTokenChar(s[i])
    ensures Sub(s, i, token, value) == [s[i]] + Sub(s, i + 1, token, value)
  {
    NoMatchAtSeparator(s, i, token);
  }

  lemma NoMatchAtSeparator(s: string, i: nat, token: string)
    requires IsWord(token) && i < |s| && !IsTokenChar(s[i])
    ensures !MatchesAt(s, i, token)
  {
    assert IsTokenChar(token[0]);
    assert i + |token| <= |s| ==> s[i..i + |token|][0] == s[i];
  }

  // --- all replacements, one after the other, or at once ------------------------------------------------

  type TokenMap = map<string, string>

  function FromMap(tokens: TokenMap): string -> string {
    (run: string) => if run in tokens then tokens[run] else run
  }

  /** The replacement of one token of the map. */
  function Replace(tokens: TokenMap, token: string): string -> string {
    (run: string) => if run == token && token in tokens then tokens[token] else run
  }

  /** The text that `_restore_tokens` makes, as a fold over the tokens in the order of its loop. */
  function Sequentially(order: seq<string>, tokens: TokenMap, s: string): string {
    if order == [] then s else Sequentially(order[1..], tokens, OnRuns(Replace(tokens, order[0]), s))
  }

  /** All tokens of the text replaced at the same time. */
  function AtOnce(tokens: TokenMap, s: string): string {
    OnRuns(FromMap(tokens), s)
  }

  lemma {:induction false} SameRewriting(f: string -> string, g: string -> string, s: string, i: nat)
    requires i <= |s| && forall r :: f(r) == g(r)
    ensures OnRunsFrom(f, s, i) == OnRunsFrom(g, s, i)
    decreases |s| - i
  {
    if i < |s| { SameRewriting(f, g, s, if RunEnd(s, i) == i then i + 1 else RunEnd(s, i)); }
  }

  // --- rewriting piece by piece ------------------------------------------------------------------------------

  /** `b` starts with a separator, or is empty. */
  predicate Apart(b: string) {
    b == "" || !IsTokenChar(b[0])
  }

  lemma {:induction false} RunEndShift(a: string, b: string, j: nat)
    requires j <= |b|
    ensures RunEnd(a + b, |a| + j) == |a| + RunEnd(b, j)
    decreases |b| - j
  {
    if j < |b| && IsTokenChar(b[j]) { RunEndShift(a, b, j + 1); }
  }

  lemma SliceShift(a: string, b: string, i: nat, j: nat)
    requires i <= j <= |b|
    ensures (a + b)[|a| + i..|a| + j] == b[i..j]
  {
    assert forall k :: i <= k < j ==> (a + b)[|a| + k] == b[k];
  }

  lemma ShiftRun(f: string -> string, a: string, b: string, j: nat, e: nat)
    requires j < e <= |b| && RunEnd(a + b, |a| + j) == |a| + e && RunEnd(b, j) == e
    requires OnRunsFrom(f, a + b, |a| + e) == OnRunsFrom(f, b, e)
    ensures OnRunsFrom(f, a + b, |a| + j) == OnRunsFrom(f, b, j)
  {
    SliceShift(a, b, j, e);
    OnRunsOneRun(f, a + b, |a| + j);
    OnRunsOneRun(f, b, j);
  }

  lemma ShiftSeparator(f: string -> string, a: string, b: string, j: nat)
    requires j < |b| && RunEnd(a + b, |a| + j) == |a| + j && RunEnd(b, j) == j
    requires OnRunsFrom(f, a + b, |a| + j + 1) == OnRunsFrom(f, b, j + 1)
    ensures OnRunsFrom(f, a + b, |a| + j) == OnRunsFrom(f, b, j)
  {
    OnRunsAtSeparator(f, a + b, |a| + j);
    OnRunsAtSeparator(f, b, j);
  }

  lemma {:induction false} OnRunsShift(f: string -> string, a: string, b: string, j: nat)
    requires j <= |b|
    ensures OnRunsFrom(f, a + b, |a| + j) == OnRunsFrom(f, b, j)
    decreases |b| - j
  {
    if j < |b| {
      RunEndShift(a, b, j);
      var e := RunEnd(b, j);
      if e == j {
        OnRunsShift(f, a, b, j + 1);
        ShiftSeparator(f, a, b, j);
      } else {
        OnRunsShift(f, a, b, e);
        ShiftRun(f, a, b, j, e);
      }
    }
  }

  lemma {:induction false} RunEndAppend(a: string, b: string, i: nat)
    requires i <= |a| && Apart(b)
    ensures RunEnd(a + b, i) == RunEnd(a, i)
    decreases |a| - i
  {
    if i < |a| {
      assert (a + b)[i] == a[i];
      if IsTokenChar(a[i]) { RunEndAppend(a, b, i + 1); }
    } else {
      assert b != "" ==> (a + b)[i] == b[0];
    }
  }

  lemma {:induction false} OnRunsAppendFrom(f: string -> string, a: string, b: string, i: nat)
    requires i <= |a| && Apart(b)
    ensures OnRunsFrom(f, a + b, i) == OnRunsFrom(f, a, i) + OnRuns(f, b)
    decreases |a| - i
  {
    if i == |a| {
      OnRunsShift(f, a, b, 0);
    } else {
      RunEndAppend(a, b, i);
      var e := RunEnd(a, i);
      assert (a + b)[i..e] == a[i..e] && (a + b)[i] == a[i];
      OnRunsAppendFrom(f, a, b, if e == i then i + 1 else e);
    }
  }

  lemma OnRunsAppend(f: string -> string, a: string, b: string)
    requires Apart(b)
    ensures OnRuns(f, a + b) == OnRuns(f, a) + OnRuns(f, b)
  {
    OnRunsAppendFrom(f, a, b, 0);
  }

  lemma OnRunsStaysApart(f: string -> string, b: string)
    requires Apart(b)
    ensures Apart(OnRuns(f, b))
  {
  }

  lemma OnRunsWord(f: string -> string, w: string)
    requires IsWord(w)
    ensures OnRuns(f, w) == f(w)
  {
    RunEndIs(w, 0, |w|);
    assert w[0..|w|] == w && OnRunsFrom(f, w, |w|) == "";
  }

  lemma {:induction false} SequentiallyAppend(order: seq<string>, tokens: TokenMap, a: string, b: string)
    requires Apart(b)
    ensures Sequentially(order, tokens, a + b) == Sequentially(order, tokens, a) + Sequentially(order, tokens, b)
    decreases |order|
  {
    if order != [] {
      var f := Replace(tokens, order[0]);
      OnRunsAppend(f, a, b);
      OnRunsStaysApart(f, b);
      SequentiallyAppend(order[1..], tokens, OnRuns(f, a), OnRuns(f, b));
    }
  }

  lemma {:induction false} SequentiallyEmpty(order: seq<string>, tokens: TokenMap)
    ensures Sequentially(order, tokens, "") == ""
    decreases |order|
  {
    if order != [] { SequentiallyEmpty(order[1..], tokens); }
  }

  /** A word that is no token of the order passes all replacements unchanged. */
  lemma {:induction false} SequentiallyOther(order: seq<string>, tokens: TokenMap, w: string)
    requires IsWord(w) && w !in order
    ensures Sequentially(order, tokens, w) == w
    decreases |order|
  {
    if order != [] {
      OnRunsWord(Replace(tokens, order[0]), w);
      SequentiallyOther(order[1..], tokens, w);
    }
  }

  /** A token is replaced by its value, and the later replacements then work on that value. */
  lemma {:induction false} SequentiallyToken(order: seq<string>, tokens: TokenMap, i: nat)
    requires Distinct(order) && i < |order| && order[i] in tokens && IsWord(order[i])
    ensures Sequentially(order, tokens, order[i]) == Sequentially(order[i + 1..], tokens, tokens[order[i]])
    decreases |order|
  {
    OnRunsWord(Replace(tokens, order[0]), order[i]);
    if i > 0 {
      var tail := order[1..];
      assert tail[i - 1] == order[i] && tail[i..] == order[i + 1..];
      assert forall j :: 0 <= j < |tail| ==> tail[j] == order[j + 1];
      SequentiallyToken(tail, tokens, i - 1);
    }
  }

  // --- when the two agree -------------------------------------------------------------------------------------

  /** The order covers the token map. */
  ghost predicate Ordering(order: seq<string>, tokens: TokenMap) {
    Distinct(order) && (forall t :: t in order <==> t in tokens) && forall i :: 0 <= i < |order| ==> IsWord(order[i])
  }

  /** No later replacement touches the value of the token at position `i`. */
  ghost predicate SettledAt(order: seq<string>, tokens: TokenMap, i: nat)
    requires i < |order| && order[i] in tokens
  {
    Sequentially(order[i + 1..], tokens, tokens[order[i]]) == tokens[order[i]]
  }

  /** A check on the token map alone. */
  ghost predicate Settled(order: seq<string>, tokens: TokenMap) {
    forall i :: 0 <= i < |order| && order[i] in tokens ==> SettledAt(order, tokens, i)
  }

  lemma SettledWord(order: seq<string>, tokens: TokenMap, w: string)
    requires Ordering(order, tokens) && Settled(order, tokens) && IsWord(w)
    ensures Sequentially(order, tokens, w) == FromMap(tokens)(w)
  {
    if w in tokens {
      assert w in order;
      var i :| 0 <= i < |order| && order[i] == w;
      SequentiallyToken(order, tokens, i);
      assert SettledAt(order, tokens, i);
    } else {
      SequentiallyOther(order, tokens, w);
    }
  }

  /** The first run is restored on its own. */
  lemma RunFirst(order: seq<string>, tokens: TokenMap, s: string, i: nat)
    requires Ordering(order, tokens) && Settled(order, tokens) && i <= |s| && i < RunEnd(s, i)
    ensures var e := RunEnd(s, i);
            Sequentially(order, tokens, s[i..]) == FromMap(tokens)(s[i..e]) + Sequentially(order, tokens, s[e..])
  {
    var e := RunEnd(s, i);
    RunEndFacts(s, i);
    assert s[i..] == s[i..e] + s[e..];
    assert IsWord(s[i..e]) by { assert forall j :: 0 <= j < e - i ==> s[i..e][j] == s[i + j]; }
    assert Apart(s[e..]) by { assert e < |s| ==> s[e..][0] == s[e]; }
    SequentiallyAppend(order, tokens, s[i..e], s[e..]);
    SettledWord(order, tokens, s[i..e]);
  }

  lemma {:induction false} SettledIsSimultaneous(order: seq<string>, tokens: TokenMap, s: string, i: nat)
    requires Ordering(order, tokens) && Settled(order, tokens) && i <= |s|
    requires BoundaryBefore(s, i) || BoundaryAfter(s, i)
    ensures Sequentially(order, tokens, s[i..]) == OnRunsFrom(FromMap(tokens), s, i)
    decreases |s| - i
  {
    if i == |s| {
      SequentiallyEmpty(order, tokens);
    } else {
      var e := RunEnd(s, i);
      RunEndFacts(s, i);
      if e == i {
        SeparatorFirst(order, tokens, s, i);
        SettledIsSimultaneous(order, tokens, s, i + 1);
      } else {
        RunFirst(order, tokens, s, i);
        SettledIsSimultaneous(order, tokens, s, e);
      }
    }
  }

  /** A separator stays, and what follows is restored on its own. */
  lemma SeparatorFirst(order: seq<string>, tokens: TokenMap, s: string, i: nat)
    requires i < |s| && !IsTokenChar(s[i])
    ensures Sequentially(order, tokens, s[i..]) == [s[i]] + Sequentially(order, tokens, s[i + 1..])
  {
    assert s[i..] == [s[i]] + s[i + 1..];
    SeparatorSplit(order, tokens, s[i], s[i + 1..]);
  }

  lemma {:induction false} SeparatorSplit(order: seq<string>, tokens: TokenMap, c: char, u: string)
    requires !IsTokenChar(c)
    ensures Sequentially(order, tokens, [c] + u) == [c] + Sequentially(order, tokens, u)
    decreases |order|
  {
    if order != [] {
      var f := Replace(tokens, order[0]);
      OnRunsShift(f, [c], u, 0);
      assert ([c] + u)[0] == c;
      assert OnRuns(f, [c] + u) == [c] + OnRuns(f, u);
      SeparatorSplit(order[1..], tokens, c, OnRuns(f, u));
    }
  }

  lemma SettledRestoresAtOnce(order: seq<string>, tokens: TokenMap, s: string)
    requires Ordering(order, tokens) && Settled(order, tokens)
    ensures Sequentially(order, tokens, s) == AtOnce(tokens, s)
  {
    SettledIsSimultaneous(order, tokens, s, 0);
    assert s[0..] == s;
  }

  lemma UnsettledDiffers(order: seq<string>, tokens: TokenMap, i: nat)
    requires Ordering(order, tokens) && i < |order| && order[i] in tokens
    ensures SettledAt(order, tokens, i) <==> Sequentially(order, tokens, order[i]) == AtOnce(tokens, order[i])
  {
    SequentiallyToken(order, tokens, i);
    OnRunsWord(FromMap(tokens), order[i]);
  }

  /** Replacing one token after the other equals replacing all at once, for every text, if and only
      if no later replacement changes the value of an earlier token. */
  lemma SequentialIsSimultaneousExactly(order: seq<string>, tokens: TokenMap)
    requires Ordering(order, tokens)
    ensures Settled(order, tokens) <==> forall s :: Sequentially(order, tokens, s) == AtOnce(tokens, s)
  {
    if Settled(order, tokens) {
      forall s ensures Sequentially(order, tokens, s) == AtOnce(tokens, s) { SettledRestoresAtOnce(order, tokens, s); }
    } else {
      var i :| 0 <= i < |order| && order[i] in tokens && !SettledAt(order, tokens, i);
      UnsettledDiffers(order, tokens, i);
      assert Sequentially(order, tokens, order[i]) != AtOnce(tokens, order[i]);
    }
  }

  /** A run of token characters in `s` that is the token `t`. */
  ghost predicate Mentions(s: string, t: string) {
    exists i :: 0 <= i < |s| && BoundaryBefore(s, i) && s[i..RunEnd(s, i)] == t
  }

  /** `f` leaves every run of `s` alone. */
  ghost predicate Leaves(f: string -> string, s: string) {
    forall i :: 0 <= i < |s| && BoundaryBefore(s, i) ==> f(s[i..RunEnd(s, i)]) == s[i..RunEnd(s, i)]
  }

  lemma {:induction false} UntouchedRuns(f: string -> string, s: string, i: nat)
    requires i <= |s| && (BoundaryBefore(s, i) || BoundaryAfter(s, i)) && Leaves(f, s)
    ensures OnRunsFrom(f, s, i) == s[i..]
    decreases |s| - i
  {
    if i < |s| {
      var e := RunEnd(s, i);
      RunEndFacts(s, i);
      if e == i {
        UntouchedRuns(f, s, i + 1);
        assert s[i..] == [s[i]] + s[i + 1..];
      } else {
        UntouchedRuns(f, s, e);
        assert s[i..] == s[i..e] + s[e..];
      }
    }
  }

  lemma ReplaceLeaves(tokens: TokenMap, token: string, s: string)
    requires !Mentions(s, token)
    ensures Leaves(Replace(tokens, token), s)
  {
    forall i | 0 <= i < |s| && BoundaryBefore(s, i) ensures s[i..RunEnd(s, i)] != token { }
  }

  lemma {:induction false} NoTokenInside(order: seq<string>, tokens: TokenMap, s: string)
    requires forall t :: t in order ==> !Mentions(s, t)
    ensures Sequentially(order, tokens, s) == s
    decreases |order|
  {
    if order != [] {
      assert order[0] in order;
      ReplaceLeaves(tokens, order[0], s);
      UntouchedRuns(Replace(tokens, order[0]), s, 0);
      assert s[0..] == s;
      NoTokenInside(order[1..], tokens, s);
    }
  }

  /** In particular: if no stored value mentions a token, the order of the replacements does not matter. */
  lemma PlainValuesRestoreAtOnce(order: seq<string>, tokens: TokenMap, s: string)
    requires Ordering(order, tokens)
    requires forall t, u :: t in tokens && u in tokens ==> !Mentions(tokens[t], u)
    ensures Sequentially(order, tokens, s) == AtOnce(tokens, s)
  {
    forall i | 0 <= i < |order| && order[i] in tokens ensures SettledAt(order, tokens, i) {
      var later := order[i + 1..];
      assert forall t :: t in later ==> t in order;
      NoTokenInside(later, tokens, tokens[order[i]]);
    }
    SettledRestoresAtOnce(order, tokens, s);
  }
}
