/** Python's `str.split`/`strip` on whitespace. */
module Text {

  /** The characters Python treats as whitespace. */
  predicate IsSpace(c: char) {
    var n := c as int;
    9 <= n <= 13 || 28 <= n <= 32 || n == 0x85 || n == 0xA0 || n == 0x1680 || 0x2000 <= n <= 0x200A
    || n == 0x2028 || n == 0x2029 || n == 0x202F || n == 0x205F || n == 0x3000
  }

  function StripLeft(s: string): (r: string)
    ensures r == [] || !IsSpace(r[0])
  {
    if s != [] && IsSpace(s[0]) then StripLeft(s[1..]) else s
  }

  function StripRight(s: string): (r: string)
    ensures r <= s
    ensures r == [] || !IsSpace(r[|r| - 1])
  {
    if s != [] && IsSpace(s[|s| - 1]) then StripRight(s[..|s| - 1]) else s
  }

  function Strip(s: string): string {
    StripRight(StripLeft(s))
  }

  lemma {:induction false} StripLeftDrops(s: string) returns (a: string)
    ensures s == a + StripLeft(s) && forall i :: 0 <= i < |a| ==> IsSpace(a[i])
  {
    if s != [] && IsSpace(s[0]) {
      var rest := StripLeftDrops(s[1..]);
      a := [s[0]] + rest;
      assert s == [s[0]] + (rest + StripLeft(s)) == a + StripLeft(s);
    } else {
      a := "";
    }
  }

  lemma {:induction false} StripRightDrops(s: string) returns (b: string)
    ensures s == StripRight(s) + b && forall i :: 0 <= i < |b| ==> IsSpace(b[i])
  {
    if s != [] && IsSpace(s[|s| - 1]) {
      b := StripRightDrops(s[..|s| - 1]);
      assert s == s[..|s| - 1] + [s[|s| - 1]];
      b := b + [s[|s| - 1]];
    } else {
      b := "";
    }
  }

  lemma StripEnds(s: string)
    ensures Strip(s) == "" || (!IsSpace(Strip(s)[0]) && !IsSpace(Strip(s)[|Strip(s)| - 1]))
  {
    var t := StripLeft(s);
    assert StripRight(t) <= t;
  }

  /** Stripping drops white space at both ends, all of it, and nothing else. */
  lemma StripExactly(s: string) returns (a: string, b: string)
    ensures s == a + Strip(s) + b
    ensures (forall i :: 0 <= i < |a| ==> IsSpace(a[i])) && (forall i :: 0 <= i < |b| ==> IsSpace(b[i]))
    ensures Strip(s) == "" || (!IsSpace(Strip(s)[0]) && !IsSpace(Strip(s)[|Strip(s)| - 1]))
  {
    a := StripLeftDrops(s);
    b := StripRightDrops(StripLeft(s));
    assert s == a + StripLeft(s) == a + (Strip(s) + b);
    StripEnds(s);
  }

  /** The parts with the separator in between. */
  function JoinTexts(separator: string, parts: seq<string>): string {
    if parts == [] then ""
    else if |parts| == 1 then parts[0]
    else parts[0] + separator + JoinTexts(separator, parts[1..])
  }
}
