/** The numbered token texts of llm_export.py. */
module TokenText {

  predicate IsUpper(c: char) {
    'A' <= c <= 'Z'
  }

  predicate IsDigit(c: char) {
    '0' <= c <= '9'
  }

  /** The characters the restoring pattern treats as part of a token. */
  predicate IsTokenChar(c: char) {
    IsUpper(c) || IsDigit(c) || c == '_'
  }

  /** The kind of a token, such as NODE or POD. */
  predicate IsKind(kind: string) {
    kind != "" && forall i :: 0 <= i < |kind| ==> IsUpper(kind[i])
  }

  function Digit(d: nat): char
    requires d < 10
  {
    ('0' as int + d) as char
  }

  function Digits(n: nat): (r: string)
    ensures r != "" && forall i :: 0 <= i < |r| ==> IsDigit(r[i])
  {
    if n < 10 then [Digit(n)] else Digits(n / 10) + [Digit(n % 10)]
  }

  function Pad(s: string): string {
    if |s| == 1 then "00" + s else if |s| == 2 then "0" + s else s
  }

  /** The kind and the number, padded with zeros to three digits. */
  function Token(kind: string, n: nat): string {
    kind + "_" + Pad(Digits(n))
  }

  function DigitValue(c: char): nat {
    if IsDigit(c) then c as int - '0' as int else 0
  }

  /** The number written in a text of digits. */
  function Parse(s: string): nat {
    if s == "" then 0 else 10 * Parse(s[..|s| - 1]) + DigitValue(s[|s| - 1])
  }

  lemma {:induction false} ParseDigits(n: nat)
    ensures Parse(Digits(n)) == n
  {
    if n < 10 {
      assert Digits(n)[..0] == "";
    } else {
      ParseDigits(n / 10);
      assert Digits(n)[..|Digits(n)| - 1] == Digits(n / 10);
    }
  }

  lemma {:induction false} ParseZero(s: string)
    ensures Parse("0" + s) == Parse(s)
  {
    if s == "" {
      assert "0" + s == "0" && "0"[..0] == "";
    } else {
      var front := s[..|s| - 1];
      ParseZero(front);
      assert ("0" + s)[..|s|] == "0" + front;
    }
  }

  lemma ParsePad(n: nat)
    ensures forall i :: 0 <= i < |Pad(Digits(n))| ==> IsDigit(Pad(Digits(n))[i])
    ensures Parse(Pad(Digits(n))) == n
  {
    var s := Digits(n);
    ParseDigits(n);
    ParseZero(s);
    ParseZero("0" + s);
    assert "0" + ("0" + s) == "00" + s;
  }

  /** Different numbers and different kinds have different tokens. */
  lemma TokenInjective(k: string, m: nat, l: string, n: nat)
    requires IsKind(k) && IsKind(l) && Token(k, m) == Token(l, n)
    ensures k == l && m == n
  {
    var s := Token(k, m);
    KindEnds(k, m, l, n);
    KindEnds(l, n, k, m);
    assert k == s[..|k|] == l;
    assert Pad(Digits(m)) == s[|k| + 1..] == Pad(Digits(n));
    ParsePad(m);
    ParsePad(n);
  }

  lemma {:induction false} NoLeadingZero(n: nat)
    ensures n > 0 ==> Digits(n)[0] != '0'
  {
    if n >= 10 { NoLeadingZero(n / 10); }
  }

  lemma DigitsNext(n: nat)
    requires n >= 10
    ensures |Digits(n)| == |Digits(n / 10)| + 1
  {
  }

  lemma FewDigits(n: nat)
    requires n < 1000
    ensures |Digits(n)| <= 3
  {
    if n >= 10 { DigitsNext(n); }
    if n >= 100 { DigitsNext(n / 10); }
  }

  /** A token is its kind, an underscore, and its number in at least three digits, with leading zeros
      only where they are needed. */
  lemma TokenLooks(kind: string, n: nat) returns (d: string)
    ensures Token(kind, n) == kind + "_" + d && Parse(d) == n
    ensures |d| >= 3 && (forall i :: 0 <= i < |d| ==> '0' <= d[i] <= '9') && (|d| > 3 ==> d[0] != '0')
  {
    d := Pad(Digits(n));
    ParsePad(n);
    NoLeadingZero(n);
    if n < 1000 { FewDigits(n); }
  }

  lemma KindEnds(k: string, m: nat, l: string, n: nat)
    requires IsKind(l) && Token(k, m) == Token(l, n)
    ensures |l| <= |k|
  {
    assert Token(k, m)[|k|] == '_';
    assert forall i :: 0 <= i < |l| ==> Token(l, n)[i] == l[i] && l[i] != '_';
  }

  lemma TokenIsWord(k: string, n: nat)
    requires IsKind(k)
    ensures Token(k, n) != "" && forall i :: 0 <= i < |Token(k, n)| ==> IsTokenChar(Token(k, n)[i])
  {
    ParsePad(n);
  }
}
