/** The Markdown printers of util.py, undone by readers of CommonMark 0.31.2 (sections 2.4 and 6.1). */
module Markdown {
  import opened Wrappers
  import opened Text

  // --- whitespace ---------------------------------------------------------------------------

  function WordLength(s: string): (n: nat)
    ensures n <= |s|
    ensures forall i :: 0 <= i < n ==> !IsSpace(s[i])
    ensures n < |s| ==> IsSpace(s[n])
  {
    if s == [] || IsSpace(s[0]) then 0 else 1 + WordLength(s[1..])
  }

  lemma {:induction false} StripLeftShorter(s: string)
    ensures |StripLeft(s)| <= |s|
  {
    if s != [] && IsSpace(s[0]) { StripLeftShorter(s[1..]); }
  }

  /** The parts of a text between runs of white space. */
  function Words(s: string): seq<string>
    decreases |s|
  {
    StripLeftShorter(s);
    var t := StripLeft(s);
    if t == [] then [] else [t[..WordLength(t)]] + Words(t[WordLength(t)..])
  }

  /** The words of a value, joined by single spaces; line ends count as spaces. */
  function Normalized(value: string): string {
    JoinTexts(" ", Words(ReplaceChar(ReplaceChar(value, '\r', " "), '\n', " ")))
  }

  predicate IsWord(w: string) {
    w != "" && forall i :: 0 <= i < |w| ==> !IsSpace(w[i])
  }

  lemma {:induction false} WordsAreWords(s: string)
    ensures forall i :: 0 <= i < |Words(s)| ==> IsWord(Words(s)[i])
    decreases |s|
  {
    StripLeftShorter(s);
    var t := StripLeft(s);
    if t != [] { WordsAreWords(t[WordLength(t)..]); }
  }

  /** Only single plain spaces, and none at the ends. */
  predicate Tidy(t: string) {
    && (forall i :: 0 <= i < |t| && IsSpace(t[i]) ==> t[i] == ' ')
    && (t != "" ==> !IsSpace(t[0]) && !IsSpace(t[|t| - 1]))
    && (forall i :: 0 <= i < |t| - 1 && t[i] == ' ' ==> t[i + 1] != ' ')
  }

  lemma {:induction false} JoinedWordsTidy(ws: seq<string>)
    requires forall i :: 0 <= i < |ws| ==> IsWord(ws[i])
    ensures Tidy(JoinTexts(" ", ws))
    ensures ws != [] ==> JoinTexts(" ", ws) != ""
  {
    if |ws| > 1 {
      JoinedWordsTidy(ws[1..]);
      var w, rest := ws[0], JoinTexts(" ", ws[1..]);
      var t := w + " " + rest;
      assert forall i :: 0 <= i < |t| ==>
          t[i] == (if i < |w| then w[i] else if i == |w| then ' ' else rest[i - |w| - 1]);
    }
  }

  lemma NormalizedTidy(value: string)
    ensures Tidy(Normalized(value))
  {
    var s := ReplaceChar(ReplaceChar(value, '\r', " "), '\n', " ");
    WordsAreWords(s);
    JoinedWordsTidy(Words(s));
  }

  lemma WordsStep(w: string, tail: string)
    requires IsWord(w) && (tail == "" || IsSpace(tail[0]))
    ensures Words(w + tail) == [w] + Words(tail)
  {
    var t := w + tail;
    assert t[0] == w[0];
    WordLengthIs(w, tail);
    assert t[..|w|] == w && t[|w|..] == tail;
  }

  lemma WordsAfterSpace(rest: string)
    ensures Words(" " + rest) == Words(rest)
  {
    assert (" " + rest)[1..] == rest && StripLeft(" " + rest) == StripLeft(rest);
  }

  lemma {:induction false} WordsOfJoin(ws: seq<string>)
    requires forall i :: 0 <= i < |ws| ==> IsWord(ws[i])
    ensures Words(JoinTexts(" ", ws)) == ws
  {
    if |ws| == 1 {
      WordsStep(ws[0], "");
      assert ws[0] + "" == ws[0] && ws == [ws[0]];
    } else if |ws| > 1 {
      var rest := JoinTexts(" ", ws[1..]);
      WordsOfJoin(ws[1..]);
      WordsStep(ws[0], " " + rest);
      WordsAfterSpace(rest);
      assert ws[0] + " " + rest == ws[0] + (" " + rest);
    }
  }

  lemma {:induction false} WordLengthIs(w: string, tail: string)
    requires forall i :: 0 <= i < |w| ==> !IsSpace(w[i])
    requires tail == "" || IsSpace(tail[0])
    ensures WordLength(w + tail) == |w|
  {
    if w == [] { assert w + tail == tail; }
    else {
      assert (w + tail)[1..] == w[1..] + tail;
      WordLengthIs(w[1..], tail);
    }
  }

  lemma {:induction false} TidyHasNoLineEnds(t: string)
    requires forall i :: 0 <= i < |t| && IsSpace(t[i]) ==> t[i] == ' '
    ensures ReplaceChar(ReplaceChar(t, '\r', " "), '\n', " ") == t
  {
    if t != [] {
      assert forall i :: 0 <= i < |t[1..]| ==> t[1..][i] == t[i + 1];
      TidyHasNoLineEnds(t[1..]);
      assert t[0] != '\r' && t[0] != '\n' by { if t[0] == '\r' || t[0] == '\n' { assert IsSpace(t[0]); } }
      var u := ReplaceChar(t[1..], '\r', " ");
      assert ReplaceChar(t, '\r', " ") == [t[0]] + u;
      assert ([t[0]] + u)[1..] == u;
      assert t == [t[0]] + t[1..];
    }
  }

  /** Normalising twice is normalising once. */
  lemma NormalizedTwice(value: string)
    ensures Normalized(Normalized(value)) == Normalized(value)
  {
    var s := ReplaceChar(ReplaceChar(value, '\r', " "), '\n', " ");
    NormalizedTidy(value);
    TidyHasNoLineEnds(Normalized(value));
    WordsAreWords(s);
    WordsOfJoin(Words(s));
  }

  // --- what normalising keeps ----------------------------------------------------------------

  /** The characters of a text that are no white space, each with the mark whether white space stands
      between it and the one before. */
  function Spacing(s: string, started: bool, gap: bool): seq<(char, bool)> {
    if s == [] then []
    else if IsSpace(s[0]) then Spacing(s[1..], started, started)
    else [(s[0], gap)] + Spacing(s[1..], true, false)
  }

  function Spaced(s: string): seq<(char, bool)> {
    Spacing(s, false, false)
  }

  /** The text with one space for every mark. */
  function Rebuilt(marks: seq<(char, bool)>): string {
    if marks == [] then []
    else (if marks[0].1 then [' ', marks[0].0] else [marks[0].0]) + Rebuilt(marks[1..])
  }

  function Letters(w: string, gap: bool): seq<(char, bool)> {
    if w == [] then [] else [(w[0], gap)] + Letters(w[1..], false)
  }

  function WordMarks(ws: seq<string>, gap: bool): seq<(char, bool)> {
    if ws == [] then [] else Letters(ws[0], gap) + WordMarks(ws[1..], true)
  }

  lemma {:induction false} SpacingReplace(s: string, c: char, started: bool, gap: bool)
    requires IsSpace(c)
    ensures Spacing(ReplaceChar(s, c, " "), started, gap) == Spacing(s, started, gap)
  {
    if s != [] {
      var rest := ReplaceChar(s[1..], c, " ");
      var first := if s[0] == c then " " else [s[0]];
      assert ReplaceChar(s, c, " ") == first + rest && (first + rest)[1..] == rest;
      if IsSpace(s[0]) {
        SpacingReplace(s[1..], c, started, started);
      } else {
        SpacingReplace(s[1..], c, true, false);
      }
    }
  }

  lemma {:induction false} SpacingStrip(s: string, started: bool)
    ensures Spacing(StripLeft(s), started, started) == Spacing(s, started, started)
  {
    if s != [] && IsSpace(s[0]) { SpacingStrip(s[1..], started); }
  }

  lemma {:induction false} SpacingWord(w: string, tail: string, started: bool, gap: bool)
    requires forall i :: 0 <= i < |w| ==> !IsSpace(w[i])
    ensures Spacing(w + tail, started, gap)
         == Letters(w, gap) + if w == "" then Spacing(tail, started, gap) else Spacing(tail, true, false)
  {
    if w == [] {
      assert w + tail == tail;
    } else {
      assert (w + tail)[1..] == w[1..] + tail;
      SpacingWord(w[1..], tail, true, false);
    }
  }

  lemma {:induction false} WordsSpacing(s: string, started: bool)
    ensures Spacing(s, started, started) == WordMarks(Words(s), started)
    decreases |s|
  {
    StripLeftShorter(s);
    SpacingStrip(s, started);
    var t := StripLeft(s);
    if t != [] {
      var n := WordLength(t);
      var w, tail := t[..n], t[n..];
      assert t == w + tail;
      SpacingWord(w, tail, started, started);
      assert Spacing(tail, true, false) == Spacing(tail, true, true);
      WordsSpacing(tail, true);
      assert Words(s) == [w] + Words(tail) && ([w] + Words(tail))[1..] == Words(tail);
    }
  }

  lemma {:induction false} JoinSpacing(ws: seq<string>, started: bool, gap: bool)
    requires forall i :: 0 <= i < |ws| ==> IsWord(ws[i])
    ensures Spacing(JoinTexts(" ", ws), started, gap) == WordMarks(ws, gap)
  {
    if |ws| == 1 {
      SpacingWord(ws[0], "", started, gap);
      assert ws[0] + "" == ws[0] && ws[1..] == [];
    } else if |ws| > 1 {
      var rest := JoinTexts(" ", ws[1..]);
      assert ws[0] + " " + rest == ws[0] + (" " + rest);
      SpacingWord(ws[0], " " + rest, started, gap);
      assert (" " + rest)[1..] == rest;
      JoinSpacing(ws[1..], true, true);
    }
  }

  /** Normalising keeps every character that is no white space, in order, and between two of them it
      keeps whether there is white space. */
  lemma NormalizedSpacing(value: string)
    ensures Spaced(Normalized(value)) == Spaced(value)
  {
    var u := ReplaceChar(value, '\r', " ");
    var s := ReplaceChar(u, '\n', " ");
    SpacingReplace(value, '\r', false, false);
    SpacingReplace(u, '\n', false, false);
    WordsAreWords(s);
    WordsSpacing(s, false);
    JoinSpacing(Words(s), false, false);
  }

  lemma {:induction false} TidyRebuilds(s: string, started: bool)
    requires forall i :: 0 <= i < |s| && IsSpace(s[i]) ==> s[i] == ' ' && i + 1 < |s| && s[i + 1] != ' '
    requires s == "" || started || !IsSpace(s[0])
    ensures Rebuilt(Spacing(s, started, false)) == s
  {
    if s != "" {
      assert forall i :: 0 <= i < |s[1..]| ==> s[1..][i] == s[i + 1];
      if IsSpace(s[0]) {
        var t := s[1..];
        assert s[0] == ' ' && t != "" && t[0] == s[1] && s[1] != ' ';
        assert !IsSpace(t[0]);
        assert forall i :: 0 <= i < |t[1..]| ==> t[1..][i] == s[i + 2];
        TidyRebuilds(t[1..], true);
        assert Spacing(s, started, false) == [(t[0], true)] + Spacing(t[1..], true, false);
        assert s == [' ', t[0]] + t[1..];
      } else {
        TidyRebuilds(s[1..], true);
        assert s == [s[0]] + s[1..];
      }
    }
  }

  /** The normalised text is determined by that: it has one space where there was white space between
      two characters, and none elsewhere. */
  lemma NormalizedIsRebuilt(value: string)
    ensures Normalized(value) == Rebuilt(Spaced(value))
  {
    NormalizedTidy(value);
    NormalizedSpacing(value);
    TidyRebuilds(Normalized(value), false);
  }

  // --- str.replace and escaping ----------------------------------------------------------------

  /** Replaces every occurrence of a single character. */
  function ReplaceChar(s: string, c: char, by_: string): string {
    if s == [] then [] else (if s[0] == c then by_ else [s[0]]) + ReplaceChar(s[1..], c, by_)
  }

  lemma {:induction false} ReplaceAppend(a: string, b: string, c: char, by_: string)
    ensures ReplaceChar(a + b, c, by_) == ReplaceChar(a, c, by_) + ReplaceChar(b, c, by_)
  {
    if a == [] { assert a + b == b; }
    else {
      assert (a + b)[1..] == a[1..] + b;
      ReplaceAppend(a[1..], b, c, by_);
    }
  }

  predicate IsSpecial(c: char) {
    c == '\\' || c == '|' || c == '`' || c == '<' || c == '>'
  }

  /** The five replacements of `markdown_escape`, one after the other. */
  function FivePasses(t: string): string {
    ReplaceChar(ReplaceChar(ReplaceChar(ReplaceChar(ReplaceChar(
      t, '\\', "\\\\"), '|', "\\|"), '`', "\\`"), '<', "\\<"), '>', "\\>")
  }

  function MarkdownEscape(value: string): string {
    FivePasses(Normalized(value))
  }

  /** One pass that puts a backslash in front of every special character. */
  function Escape(t: string): string {
    if t == [] then [] else EscapeOne(t[0]) + Escape(t[1..])
  }

  function EscapeOne(c: char): string {
    if IsSpecial(c) then ['\\', c] else [c]
  }

  lemma ReplaceOne(x: char, c: char, by_: string)
    ensures ReplaceChar([x], c, by_) == if x == c then by_ else [x]
  {
    assert [x][1..] == [];
  }

  lemma ReplaceTwo(x: char, y: char, c: char, by_: string)
    requires x != c
    ensures ReplaceChar([x, y], c, by_) == [x] + if y == c then by_ else [y]
  {
    assert [x, y] == [x] + [y];
    ReplaceAppend([x], [y], c, by_);
    ReplaceOne(x, c, by_);
    ReplaceOne(y, c, by_);
  }

  lemma FivePassesOne(c: char)
    ensures FivePasses([c]) == EscapeOne(c)
  {
    ReplaceOne(c, '\\', "\\\\");
    ReplaceOne(c, '|', "\\|");
    ReplaceOne(c, '`', "\\`");
    ReplaceOne(c, '<', "\\<");
    ReplaceOne(c, '>', "\\>");
    ReplaceTwo('\\', c, '|', "\\|");
    ReplaceTwo('\\', c, '`', "\\`");
    ReplaceTwo('\\', c, '<', "\\<");
    ReplaceTwo('\\', c, '>', "\\>");
  }

  lemma FivePassesAppend(a: string, b: string)
    ensures FivePasses(a + b) == FivePasses(a) + FivePasses(b)
  {
    var p1, q1 := ReplaceChar(a, '\\', "\\\\"), ReplaceChar(b, '\\', "\\\\");
    ReplaceAppend(a, b, '\\', "\\\\");
    var p2, q2 := ReplaceChar(p1, '|', "\\|"), ReplaceChar(q1, '|', "\\|");
    ReplaceAppend(p1, q1, '|', "\\|");
    var p3, q3 := ReplaceChar(p2, '`', "\\`"), ReplaceChar(q2, '`', "\\`");
    ReplaceAppend(p2, q2, '`', "\\`");
    var p4, q4 := ReplaceChar(p3, '<', "\\<"), ReplaceChar(q3, '<', "\\<");
    ReplaceAppend(p3, q3, '<', "\\<");
    ReplaceAppend(p4, q4, '>', "\\>");
  }

  /** The order of the five replacements is right: together they are one pass of escaping. */
  lemma {:induction false} FivePassesAreOne(t: string)
    ensures FivePasses(t) == Escape(t)
  {
    if t != [] {
      assert t == [t[0]] + t[1..];
      FivePassesAppend([t[0]], t[1..]);
      FivePassesOne(t[0]);
      FivePassesAreOne(t[1..]);
    }
  }

  /** ASCII punctuation, the characters a backslash can escape (section 2.4). */
  predicate IsPunctuation(c: char) {
    '!' <= c <= '/' || ':' <= c <= '@' || '[' <= c <= '`' || '{' <= c <= '~'
  }

  /** Section 2.4: a backslash in front of ASCII punctuation stands for that character. */
  function Unescape(s: string): string {
    if s == [] then []
    else if s[0] == '\\' && |s| > 1 && IsPunctuation(s[1]) then [s[1]] + Unescape(s[2..])
    else [s[0]] + Unescape(s[1..])
  }

  lemma {:induction false} UnescapeEscape(t: string)
    ensures Unescape(Escape(t)) == t
  {
    if t != [] {
      UnescapeEscape(t[1..]);
      var rest := Escape(t[1..]);
      assert Escape(t) == EscapeOne(t[0]) + rest;
      if IsSpecial(t[0]) {
        assert Escape(t)[2..] == rest;
      } else {
        assert Escape(t)[1..] == rest;
      }
      assert t == [t[0]] + t[1..];
    }
  }

  /** A reader of backslash escapes gets the normalised text back. */
  lemma EscapeRoundTrip(value: string)
    ensures Unescape(MarkdownEscape(value)) == Normalized(value) == Rebuilt(Spaced(value))
  {
    NormalizedIsRebuilt(value);
    FivePassesAreOne(Normalized(value));
    UnescapeEscape(Normalized(value));
  }

  /** How many backslashes stand directly in front of position `i`. */
  function Backslashes(s: string, i: nat): nat
    requires i <= |s|
  {
    if i == 0 || s[i - 1] != '\\' then 0 else 1 + Backslashes(s, i - 1)
  }

  lemma {:induction false} BackslashesPrefix(s: string, u: string, i: nat)
    requires i <= |s|
    ensures Backslashes(s + u, i) == Backslashes(s, i)
  {
    if i > 0 && s[i - 1] == '\\' { BackslashesPrefix(s, u, i - 1); }
  }

  lemma {:induction false} EscapeSnoc(t: string, c: char)
    ensures Escape(t + [c]) == Escape(t) + EscapeOne(c)
  {
    if t == [] {
      assert t + [c] == [c] && [c][1..] == [];
    } else {
      assert (t + [c])[1..] == t[1..] + [c];
      EscapeSnoc(t[1..], c);
    }
  }

  lemma {:induction false} OddBackslashes(t: string)
    ensures Backslashes(Escape(t), |Escape(t)|) % 2 == 0
    ensures forall i :: 0 <= i < |Escape(t)| && IsSpecial(Escape(t)[i]) && Escape(t)[i] != '\\' ==>
        Backslashes(Escape(t), i) % 2 == 1
  {
    if t != [] {
      var front, c := t[..|t| - 1], t[|t| - 1];
      assert t == front + [c];
      OddBackslashes(front);
      EscapeSnoc(front, c);
      var e, f := Escape(front), Escape(t);
      assert f == e + EscapeOne(c);
      forall i | 0 <= i <= |e| ensures Backslashes(f, i) == Backslashes(e, i) { BackslashesPrefix(e, EscapeOne(c), i); }
      if IsSpecial(c) {
        assert f[|e|] == '\\' && f[|e| + 1] == c && |f| == |e| + 2;
        assert Backslashes(f, |e| + 1) == 1 + Backslashes(f, |e|);
        if c == '\\' { assert Backslashes(f, |e| + 2) == 1 + Backslashes(f, |e| + 1); }
      }
      forall i | 0 <= i < |f| && IsSpecial(f[i]) && f[i] != '\\' ensures Backslashes(f, i) % 2 == 1 {
        if i < |e| { assert f[i] == e[i]; }
      }
    }
  }

  /** No special character of the output is active: each follows an odd run of backslashes. */
  lemma EscapedEverywhere(value: string, i: nat)
    requires i < |MarkdownEscape(value)|
    requires MarkdownEscape(value)[i] in {'|', '`', '<', '>'}
    ensures Backslashes(MarkdownEscape(value), i) % 2 == 1
  {
    FivePassesAreOne(Normalized(value));
    OddBackslashes(Normalized(value));
  }

  // --- code spans -------------------------------------------------------------------------------------

  /** The length of the run of backticks at position `i`. */
  function RunAt(s: string, i: nat): nat
    requires i <= |s|
    decreases |s| - i
  {
    if i == |s| || s[i] != '`' then 0 else 1 + RunAt(s, i + 1)
  }

  /** The longest run of backticks from position `i` on. */
  function LongestFrom(s: string, i: nat): nat
    requires i <= |s|
    decreases |s| - i
  {
    if i == |s| then 0
    else
      var later := LongestFrom(s, i + 1);
      if RunAt(s, i) > later then RunAt(s, i) else later
  }

  /** The length of the longest run of backticks, or 0. */
  function LongestRun(s: string): nat {
    LongestFrom(s, 0)
  }

  function Ticks(n: nat): (r: string)
    ensures |r| == n && forall i :: 0 <= i < n ==> r[i] == '`'
  {
    seq(n, _ => '`')
  }

  /** `markdown_code` on a normalised text. */
  function CodeSpan(t: string): string {
    var fence := Ticks(LongestRun(t) + 1);
    var padding := if t != "" && (t[0] == '`' || t[|t| - 1] == '`') then " " else "";
    fence + padding + t + padding + fence
  }

  function MarkdownCode(value: string): string {
    CodeSpan(Normalized(value))
  }

  lemma {:induction false} RunWithin(s: string, i: nat)
    requires i <= |s|
    ensures i + RunAt(s, i) <= |s|
    decreases |s| - i
  {
    if i < |s| && s[i] == '`' { RunWithin(s, i + 1); }
  }

  /** The position, from `i` on, of the first backtick string of exactly `n` backticks. */
  function Closing(s: string, i: nat, n: nat): Option<nat>
    requires i <= |s| && 0 < n
    decreases |s| - i
  {
    RunWithin(s, i);
    if i == |s| then None
    else if RunAt(s, i) == n then Some(i)
    else Closing(s, i + (if RunAt(s, i) == 0 then 1 else RunAt(s, i)), n)
  }

  /** Line endings become spaces. */
  function JoinLines(s: string): string {
    if s == [] then []
    else if s[0] == '\r' && |s| > 1 && s[1] == '\n' then [' '] + JoinLines(s[2..])
    else [if s[0] == '\r' || s[0] == '\n' then ' ' else s[0]] + JoinLines(s[1..])
  }

  predicate AllSpaces(s: string) {
    forall i :: 0 <= i < |s| ==> s[i] == ' '
  }

  /** One space is taken off both ends, unless there is nothing but spaces. */
  function TrimOne(s: string): string {
    if |s| >= 2 && s[0] == ' ' && s[|s| - 1] == ' ' && !AllSpaces(s) then s[1..|s| - 1] else s
  }

  /** The content of a code span and what follows it. */
  datatype Span = Span(content: string, rest: string)

  lemma {:induction false} ClosingWithin(s: string, i: nat, n: nat)
    requires i <= |s| && 0 < n && Closing(s, i, n).Some?
    ensures i <= Closing(s, i, n).value && Closing(s, i, n).value + n <= |s|
    decreases |s| - i
  {
    RunWithin(s, i);
    if RunAt(s, i) != n { ClosingWithin(s, i + (if RunAt(s, i) == 0 then 1 else RunAt(s, i)), n); }
  }

  /** Section 6.1: a code span begins with a backtick string and ends with a backtick string of
      equal length. */
  function RawSpan(s: string): Option<Span> {
    var n := RunAt(s, 0);
    RunWithin(s, 0);
    if n == 0 then None
    else
      match Closing(s, n, n)
      case None => None
      case Some(i) =>
        ClosingWithin(s, n, n);
        Some(Span(s[n..i], s[i + n..]))
  }

  function ReadCode(s: string): Option<Span> {
    match RawSpan(s)
    case None => None
    case Some(raw) => Some(Span(TrimOne(JoinLines(raw.content)), raw.rest))
  }

  lemma {:induction false} RunIs(s: string, i: nat, k: nat)
    requires i + k <= |s| && (forall j :: i <= j < i + k ==> s[j] == '`')
    requires i + k < |s| ==> s[i + k] != '`'
    ensures RunAt(s, i) == k
    decreases k
  {
    if k > 0 { RunIs(s, i + 1, k - 1); }
  }

  lemma {:induction false} RunBelowLongest(s: string, from: nat, i: nat)
    requires from <= i < |s|
    ensures RunAt(s, i) <= LongestFrom(s, from)
    decreases i - from
  {
    if from < i { RunBelowLongest(s, from + 1, i); }
  }

  /** Position `i` of `t` seen inside a longer text, in which `t` is not followed by a backtick run
      that would continue one of its own. */
  lemma {:induction false} RunInside(t: string, s: string, offset: nat, i: nat)
    requires i <= |t| && offset + |t| <= |s| && s[offset..offset + |t|] == t
    requires t == "" || t[|t| - 1] != '`'
    requires i < |t|
    ensures RunAt(s, offset + i) == RunAt(t, i) && i + RunAt(t, i) < |t|
    decreases |t| - i
  {
    assert s[offset + i] == s[offset..offset + |t|][i] == t[i];
    if t[i] == '`' {
      RunInside(t, s, offset, i + 1);
    }
  }

  /** The fence outlasts every run inside, so the closing fence is found where it stands. */
  lemma {:induction false} ClosingFound(s: string, i: nat, n: nat, end: nat)
    requires i <= end < |s| && 0 < n && RunAt(s, end) == n
    requires forall j :: i <= j < end ==> RunAt(s, j) < n && j + RunAt(s, j) < end
    ensures Closing(s, i, n) == Some(end)
    decreases end - i
  {
    if i < end {
      ClosingFound(s, i + (if RunAt(s, i) == 0 then 1 else RunAt(s, i)), n, end);
    }
  }

  /** How a fenced body is laid out. */
  ghost predicate Fenced(s: string, n: nat, body: string, suffix: string) {
    var end := n + |body|;
    && |s| == end + n + |suffix|
    && (forall j :: 0 <= j < n ==> s[j] == '`')
    && (forall j :: end <= j < end + n ==> s[j] == '`')
    && s[n..end] == body && s[end + n..] == suffix
  }

  lemma FencedLayout(n: nat, body: string, suffix: string, s: string)
    requires s == Ticks(n) + body + Ticks(n) + suffix
    ensures Fenced(s, n, body, suffix)
  {
    var end := n + |body|;
    assert s[n..end] == body && s[end + n..] == suffix;
  }

  lemma FenceRuns(n: nat, body: string, suffix: string, s: string)
    requires body != "" && body[0] != '`' && (suffix == "" || suffix[0] != '`') && Fenced(s, n, body, suffix)
    ensures RunAt(s, 0) == n && RunAt(s, n + |body|) == n
  {
    var end := n + |body|;
    assert s[n] == s[n..end][0];
    RunIs(s, 0, n);
    assert end + n < |s| ==> s[end + n] == s[end + n..][0];
    RunIs(s, end, n);
  }

  lemma InnerRuns(n: nat, body: string, s: string)
    requires body != "" && body[|body| - 1] != '`' && LongestRun(body) < n
    requires n + |body| <= |s| && s[n..n + |body|] == body
    ensures forall j :: n <= j < n + |body| ==> RunAt(s, j) < n && j + RunAt(s, j) < n + |body|
  {
    forall j | n <= j < n + |body| ensures RunAt(s, j) < n && j + RunAt(s, j) < n + |body| {
      RunInside(body, s, n, j - n);
      RunBelowLongest(body, 0, j - n);
    }
  }

  lemma FenceCloses(n: nat, body: string, suffix: string, s: string)
    requires body != "" && body[0] != '`' && body[|body| - 1] != '`' && LongestRun(body) < n
    requires (suffix == "" || suffix[0] != '`') && Fenced(s, n, body, suffix)
    ensures RunAt(s, 0) == n && Closing(s, n, n) == Some(n + |body|)
  {
    FenceRuns(n, body, suffix, s);
    InnerRuns(n, body, s);
    ClosingFound(s, n, n, n + |body|);
  }

  /** A fence longer than every run inside reads back as the body between the fences. */
  lemma ReadFenced(n: nat, body: string, suffix: string, s: string)
    requires body != "" && body[0] != '`' && body[|body| - 1] != '`' && LongestRun(body) < n
    requires (suffix == "" || suffix[0] != '`') && Fenced(s, n, body, suffix)
    ensures RawSpan(s) == Some(Span(body, suffix))
  {
    FenceCloses(n, body, suffix, s);
  }

  lemma {:induction false} LongestSame(t: string, s: string, i: nat)
    requires i <= |t| && s == " " + t + " "
    ensures LongestFrom(s, i + 1) == LongestFrom(t, i)
    decreases |t| - i
  {
    if i < |t| {
      LongestSame(t, s, i + 1);
      RunSame(t, s, i);
    } else {
      assert s[i + 1] == ' ';
      assert RunAt(s, i + 1) == 0 && LongestFrom(s, i + 2) == 0;
    }
  }

  lemma {:induction false} RunSame(t: string, s: string, i: nat)
    requires i <= |t| && s == " " + t + " "
    ensures RunAt(s, i + 1) == RunAt(t, i)
    decreases |t| - i
  {
    if i < |t| {
      assert s[i + 1] == t[i];
      if t[i] == '`' { RunSame(t, s, i + 1); }
    } else {
      assert s[i + 1] == ' ';
    }
  }

  lemma {:induction false} NoLinesToJoin(s: string)
    requires forall i :: 0 <= i < |s| ==> s[i] != '\r' && s[i] != '\n'
    ensures JoinLines(s) == s
  {
    if s != [] {
      assert forall i :: 0 <= i < |s[1..]| ==> s[1..][i] == s[i + 1];
      NoLinesToJoin(s[1..]);
      assert s == [s[0]] + s[1..];
    }
  }

  /** What stands between the fences. */
  function Padded(t: string): string {
    if t != "" && (t[0] == '`' || t[|t| - 1] == '`') then " " + t + " " else t
  }

  lemma PaddedBody(t: string)
    requires Tidy(t) && t != ""
    ensures var body := Padded(t);
            && body != "" && body[0] != '`' && body[|body| - 1] != '`'
            && LongestRun(body) == LongestRun(t)
            && TrimOne(JoinLines(body)) == t
  {
    var body := Padded(t);
    if body != t {
      LongestSame(t, body, 0);
      assert body[0] == ' ' && RunAt(body, 0) == 0;
    }
    forall i | 0 <= i < |body| ensures body[i] != '\r' && body[i] != '\n' {
      assert body == t || body[i] == (if i == 0 || i == |body| - 1 then ' ' else t[i - 1]);
      assert IsSpace('\r') && IsSpace('\n');
    }
    NoLinesToJoin(body);
    if body != t {
      assert body[1] == t[0] && body[1..|body| - 1] == t;
      assert !AllSpaces(body);
    }
  }

  lemma CodeSpanShape(t: string)
    ensures CodeSpan(t) == Ticks(LongestRun(t) + 1) + Padded(t) + Ticks(LongestRun(t) + 1)
  {
    var fence := Ticks(LongestRun(t) + 1);
    assert fence + " " + t + " " + fence == fence + (" " + t + " ") + fence;
    assert fence + "" + t + "" + fence == fence + t + fence;
  }

  lemma ReadFencedBody(n: nat, body: string, t: string, suffix: string)
    requires body != "" && body[0] != '`' && body[|body| - 1] != '`' && LongestRun(body) < n
    requires TrimOne(JoinLines(body)) == t && (suffix == "" || suffix[0] != '`')
    ensures ReadCode(Ticks(n) + body + Ticks(n) + suffix) == Some(Span(t, suffix))
  {
    var s := Ticks(n) + body + Ticks(n) + suffix;
    FencedLayout(n, body, suffix, s);
    ReadFenced(n, body, suffix, s);
  }

  lemma ReadShaped(code: string, n: nat, body: string, t: string, suffix: string)
    requires code == Ticks(n) + body + Ticks(n)
    requires body != "" && body[0] != '`' && body[|body| - 1] != '`' && LongestRun(body) < n
    requires TrimOne(JoinLines(body)) == t && (suffix == "" || suffix[0] != '`')
    ensures ReadCode(code + suffix) == Some(Span(t, suffix))
  {
    ReadFencedBody(n, body, t, suffix);
  }

  lemma ReadBack(t: string, suffix: string)
    requires Tidy(t) && t != "" && (suffix == "" || suffix[0] != '`')
    ensures ReadCode(CodeSpan(t) + suffix) == Some(Span(t, suffix))
  {
    PaddedBody(t);
    CodeSpanShape(t);
    ReadShaped(CodeSpan(t), LongestRun(t) + 1, Padded(t), t, suffix);
  }

  lemma EmptySpanUnread()
    ensures CodeSpan("") == "``" && ReadCode("``") == None
  {
    RunIs("``", 0, 2);
  }

  /** A CommonMark reader gets the normalised text back from every code span, whatever follows it. */
  lemma CodeRoundTrip(value: string, suffix: string)
    requires Normalized(value) != "" && (suffix == "" || suffix[0] != '`')
    ensures ReadCode(MarkdownCode(value) + suffix) == Some(Span(Normalized(value), suffix))
    ensures Normalized(value) == Rebuilt(Spaced(value))
  {
    NormalizedIsRebuilt(value);
    NormalizedTidy(value);
    ReadBack(Normalized(value), suffix);
  }

  /** It does so if and only if something is left after normalising: a blank value prints two
      backticks, which open a span that nothing closes. */
  lemma CodeReadsBackExactly(value: string)
    ensures ReadCode(MarkdownCode(value)) == Some(Span(Rebuilt(Spaced(value)), ""))
        <==> exists i :: 0 <= i < |value| && !IsSpace(value[i])
  {
    NormalizedIsRebuilt(value);
    NormalizedBlank(value);
    if Normalized(value) == "" {
      EmptySpanUnread();
    } else {
      CodeRoundTrip(value, "");
      assert MarkdownCode(value) + "" == MarkdownCode(value);
    }
  }

  lemma {:induction false} StripLeftBlank(s: string)
    ensures StripLeft(s) == "" <==> forall i :: 0 <= i < |s| ==> IsSpace(s[i])
  {
    if s != [] && IsSpace(s[0]) {
      StripLeftBlank(s[1..]);
      assert forall i :: 0 < i < |s| ==> s[i] == s[1..][i - 1];
    }
  }

  lemma {:induction false} ReplaceKeepsBlank(s: string, c: char)
    requires IsSpace(c)
    ensures |ReplaceChar(s, c, " ")| == |s|
    ensures forall i :: 0 <= i < |s| ==> (IsSpace(ReplaceChar(s, c, " ")[i]) <==> IsSpace(s[i]))
  {
    if s != [] {
      ReplaceKeepsBlank(s[1..], c);
      var r := ReplaceChar(s, c, " ");
      assert r[1..] == ReplaceChar(s[1..], c, " ");
      assert forall i :: 0 < i < |s| ==> s[i] == s[1..][i - 1] && r[i] == r[1..][i - 1];
    }
  }

  lemma NormalizedBlank(value: string)
    ensures Normalized(value) == "" <==> forall i :: 0 <= i < |value| ==> IsSpace(value[i])
  {
    var u := ReplaceChar(value, '\r', " ");
    var s := ReplaceChar(u, '\n', " ");
    ReplaceKeepsBlank(value, '\r');
    ReplaceKeepsBlank(u, '\n');
    StripLeftBlank(s);
    WordsAreWords(s);
    JoinedWordsTidy(Words(s));
  }
}
