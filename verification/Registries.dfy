/** The pseudonym and evidence registries of llm_export.py. */
module Registries {
  import opened Wrappers
  import opened TokenText

  /** `value` is the original text behind a token; the type is kept in upper case here. */
  datatype Entry = Entry(kind: string, value: string)

  /** The texts `add` never replaces. */
  predicate IsReserved(upperText: string) {
    "FINDING_" <= upperText || "EVENT_" <= upperText || "EVIDENCE_" <= upperText
    || "CORRELATION_" <= upperText || "UNKNOWN_" <= upperText
  }

  /** Text cleaning and upper-casing, left uninterpreted. */
  datatype Texts = Texts(clean: string -> string, upper: string -> string)

  predicate Refused(texts: Texts, text: string) {
    text == "" || IsReserved(texts.upper(text))
  }

  /** The tokens of one kind among the entries. */
  function OfKind(tokens: map<string, Entry>, kind: string): set<string> {
    set t | t in tokens && tokens[t].kind == kind
  }

  /** The two dictionaries of `_Pseudonymizer` are each other's inverse. */
  ghost predicate Inverse(tokens: map<string, Entry>, reverse: map<string, string>) {
    && (forall v :: v in reverse ==> reverse[v] in tokens && tokens[reverse[v]].value == v)
    && (forall t :: t in tokens ==> tokens[t].value in reverse && reverse[tokens[t].value] == t)
  }

  ghost predicate HasNumber(tokens: map<string, Entry>, t: string, n: nat) {
    t in tokens && 1 <= n <= |OfKind(tokens, tokens[t].kind)| && t == Token(tokens[t].kind, n)
  }

  /** Tokens are numbered per kind, without exceeding their number. */
  ghost predicate Numbered(tokens: map<string, Entry>) {
    forall t :: t in tokens ==> IsKind(tokens[t].kind) && exists n :: HasNumber(tokens, t, n)
  }

  lemma NextIsFresh(tokens: map<string, Entry>, kind: string)
    requires Numbered(tokens) && IsKind(kind)
    ensures Token(kind, 1 + |OfKind(tokens, kind)|) !in tokens
  {
    var t := Token(kind, 1 + |OfKind(tokens, kind)|);
    if t in tokens {
      var n :| HasNumber(tokens, t, n);
      TokenInjective(kind, 1 + |OfKind(tokens, kind)|, tokens[t].kind, n);
    }
  }

  lemma KindCounts(tokens: map<string, Entry>, t: string, e: Entry, kind: string)
    requires t !in tokens
    ensures |OfKind(tokens[t := e], kind)| == |OfKind(tokens, kind)| + if kind == e.kind then 1 else 0
  {
    if kind == e.kind {
      assert OfKind(tokens[t := e], kind) == OfKind(tokens, kind) + {t};
    } else {
      assert OfKind(tokens[t := e], kind) == OfKind(tokens, kind);
    }
  }

  lemma NumberStays(tokens: map<string, Entry>, t: string, e: Entry, u: string, n: nat)
    requires t !in tokens && HasNumber(tokens, u, n)
    ensures HasNumber(tokens[t := e], u, n)
  {
    KindCounts(tokens, t, e, tokens[u].kind);
  }

  lemma OldTokenNumbered(tokens: map<string, Entry>, t: string, e: Entry, tokens': map<string, Entry>, u: string)
    requires Numbered(tokens) && t !in tokens && u in tokens && tokens' == tokens[t := e]
    ensures exists n :: HasNumber(tokens', u, n)
  {
    var n :| HasNumber(tokens, u, n);
    NumberStays(tokens, t, e, u, n);
  }

  lemma AddKeepsNumbers(tokens: map<string, Entry>, kind: string, value: string)
    requires Numbered(tokens) && IsKind(kind)
    ensures Numbered(tokens[Token(kind, 1 + |OfKind(tokens, kind)|) := Entry(kind, value)])
  {
    var next := 1 + |OfKind(tokens, kind)|;
    var t, e := Token(kind, next), Entry(kind, value);
    var tokens' := tokens[t := e];
    NextIsFresh(tokens, kind);
    KindCounts(tokens, t, e, kind);
    assert HasNumber(tokens', t, next);
    forall u | u in tokens && u != t ensures exists n :: HasNumber(tokens', u, n) {
      OldTokenNumbered(tokens, t, e, tokens', u);
    }
  }

  lemma AddKeepsInverse(tokens: map<string, Entry>, reverse: map<string, string>, t: string, e: Entry)
    requires Inverse(tokens, reverse) && t !in tokens && e.value !in reverse
    ensures Inverse(tokens[t := e], reverse[e.value := t])
  {
  }

  /** `_Pseudonymizer`. */
  class Pseudonymizer {
    var tokens: map<string, Entry>
    var reverse: map<string, string>

    ghost predicate Valid()
      reads this
    {
      Inverse(tokens, reverse) && Numbered(tokens)
    }

    constructor ()
      ensures Valid() && tokens == map[] && reverse == map[]
    {
      tokens, reverse := map[], map[];
    }

    /** `add`: the token of a text; a text gets one token for ever, and no token is used twice. */
    method Add(texts: Texts, kind: string, value: string) returns (r: Option<string>)
      requires Valid() && IsKind(kind)
      modifies this
      ensures Valid()
      ensures r == (if texts.clean(value) in reverse then Some(reverse[texts.clean(value)]) else None)
      ensures Refused(texts, texts.clean(value)) ==> tokens == old(tokens) && reverse == old(reverse)
      ensures texts.clean(value) in old(reverse) ==> tokens == old(tokens) && reverse == old(reverse)
      ensures texts.clean(value) !in old(reverse) && !Refused(texts, texts.clean(value)) ==>
                && r.Some? && r.value !in old(tokens)
                && tokens == old(tokens)[r.value := Entry(kind, texts.clean(value))]
                && reverse == old(reverse)[texts.clean(value) := r.value]
    {
      var text := texts.clean(value);
      var upper := texts.upper(text);
      if text == "" || text in reverse || "FINDING_" <= upper || "EVENT_" <= upper || "EVIDENCE_" <= upper
         || "CORRELATION_" <= upper || "UNKNOWN_" <= upper
      {
        return if text in reverse then Some(reverse[text]) else None;
      }
      var token := Token(kind, 1 + |OfKind(tokens, kind)|);
      NextIsFresh(tokens, kind);
      AddKeepsNumbers(tokens, kind, text);
      AddKeepsInverse(tokens, reverse, token, Entry(kind, text));
      tokens := tokens[token := Entry(kind, text)];
      reverse := reverse[text := token];
      return Some(token);
    }
  }

  /** `t` is one of the first `bound` identifiers. */
  ghost predicate IsAmong(ids: nat -> string, t: string, bound: nat) {
    exists n :: 1 <= n <= bound && t == ids(n)
  }

  /** Every reference has an own identifier, numbered from 1 up to their number. */
  ghost predicate AllNumbered(ids: nat -> string, byReference: map<string, string>) {
    && (forall r :: r in byReference ==> IsAmong(ids, byReference[r], |byReference|))
    && (forall r, s :: r in byReference && s in byReference && byReference[r] == byReference[s] ==> r == s)
  }

  lemma NumberNext(ids: nat -> string, byReference: map<string, string>, text: string)
    requires forall m, n :: ids(m) == ids(n) ==> m == n
    requires AllNumbered(ids, byReference) && text !in byReference
    ensures AllNumbered(ids, byReference[text := ids(|byReference| + 1)])
  {
    var next := |byReference| + 1;
    var more := byReference[text := ids(next)];
    assert more.Keys == byReference.Keys + {text};
    assert |more| == next by { assert |more.Keys| == |byReference.Keys| + 1; }
    forall r | r in byReference ensures byReference[r] != ids(next) && IsAmong(ids, byReference[r], next) {
      var n :| 1 <= n < next && byReference[r] == ids(n);
    }
  }

  function EvidenceId(): nat -> string {
    (n: nat) => Token("EVIDENCE", n)
  }

  lemma EvidenceIdInjective()
    ensures forall m, n :: EvidenceId()(m) == EvidenceId()(n) ==> m == n
  {
    forall m, n | EvidenceId()(m) == EvidenceId()(n) ensures m == n { TokenInjective("EVIDENCE", m, "EVIDENCE", n); }
  }

  /** `_EvidenceRegistry`: EVIDENCE_001 up to the number of references, one identifier each. */
  class EvidenceRegistry {
    const ids: nat -> string
    var byReference: map<string, string>

    ghost predicate Valid()
      reads this
    {
      (forall m, n :: ids(m) == ids(n) ==> m == n) && AllNumbered(ids, byReference) && "" !in byReference
    }

    constructor ()
      ensures Valid() && byReference == map[] && ids == EvidenceId()
    {
      EvidenceIdInjective();
      ids, byReference := EvidenceId(), map[];
    }

    /** `get`: the identifier of a reference, the next free one if it is new. */
    method Get(clean: string -> string, reference: string) returns (r: Option<string>)
      requires Valid()
      modifies this
      ensures Valid()
      ensures clean(reference) == "" ==> r == None
      ensures clean(reference) != "" ==> clean(reference) in byReference && r == Some(byReference[clean(reference)])
      ensures clean(reference) == "" || clean(reference) in old(byReference) ==> byReference == old(byReference)
      ensures clean(reference) != "" && clean(reference) !in old(byReference) ==>
                byReference == old(byReference)[clean(reference) := ids(|old(byReference)| + 1)]
    {
      var text := clean(reference);
      if text != "" && text !in byReference {
        NumberNext(ids, byReference, text);
        byReference := byReference[text := ids(|byReference| + 1)];
      }
      return if text in byReference then Some(byReference[text]) else None;
    }

    /** `private_map`: the inverse dictionary, and no reference is lost in it. */
    method PrivateMap() returns (m: map<string, string>)
      requires Valid()
      ensures forall r :: r in byReference ==> byReference[r] in m && m[byReference[r]] == r
      ensures forall t :: t in m ==> m[t] in byReference && byReference[m[t]] == t
    {
      m := map[];
      var rest := byReference.Keys;
      while rest != {}
        invariant rest <= byReference.Keys
        invariant forall r :: r in byReference && r !in rest ==> byReference[r] in m && m[byReference[r]] == r
        invariant forall t :: t in m ==> m[t] in byReference && m[t] !in rest && byReference[m[t]] == t
        decreases rest
      {
        var r :| r in rest;
        rest := rest - {r};
        m := m[byReference[r] := r];
      }
    }
  }
}
