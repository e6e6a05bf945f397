/** Character and string primitives of Python's `str`, as the model uses them. */
module Text {

  /**
   * Python's `str.isspace()`: the characters that `str.split()` and
   * `str.strip()` treat as whitespace when given no argument.
   */
  predicate IsSpace(c: char) {
    ('\t' <= c <= '\r') || ('\U{1C}' <= c <= ' ')
    || c == '\U{85}' || c == '\U{A0}' || c == '\U{1680}'
    || ('\U{2000}' <= c <= '\U{200A}')
    || c == '\U{2028}' || c == '\U{2029}' || c == '\U{202F}' || c == '\U{205F}'
    || c == '\U{3000}'
  }

  predicate IsLower(c: char) { 'a' <= c <= 'z' }

  predicate IsUpper(c: char) { 'A' <= c <= 'Z' }

  predicate NoLower(s: string) { forall i :: 0 <= i < |s| ==> !IsLower(s[i]) }

  predicate NoUpper(s: string) { forall i :: 0 <= i < |s| ==> !IsUpper(s[i]) }

  /** A slice of a string without lower-case letters has none either. */
  lemma NoLowerSlice(s: string, i: nat, j: nat)
    requires NoLower(s) && i <= j <= |s|
    ensures NoLower(s[i..j])
  {
    assert forall k :: 0 <= k < j - i ==> s[i..j][k] == s[i + k];
  }

  function ToUpper(c: char): (d: char)
    ensures !IsLower(d)
    ensures IsSpace(d) <==> IsSpace(c)
  {
    if IsLower(c) then (c as int - 32) as char else c
  }

  function ToLower(c: char): (d: char)
    ensures !IsUpper(d)
  {
    if IsUpper(c) then (c as int + 32) as char else c
  }

  /** `str.upper()` on the ASCII letters. */
  function Upper(s: string): (r: string)
    ensures |r| == |s| && NoLower(r)
    ensures forall i :: 0 <= i < |s| ==> r[i] == ToUpper(s[i])
    ensures NoLower(s) ==> r == s
  {
    seq(|s|, i requires 0 <= i < |s| => ToUpper(s[i]))
  }

  /** `str.lower()` on the ASCII letters. */
  function Lower(s: string): (r: string)
    ensures |r| == |s| && NoUpper(r)
    ensures forall i :: 0 <= i < |s| ==> r[i] == ToLower(s[i])
    ensures NoUpper(s) ==> r == s
  {
    seq(|s|, i requires 0 <= i < |s| => ToLower(s[i]))
  }

  /** a occurs in b starting at position i. */
  predicate OccursAt(a: string, b: string, i: int) {
    0 <= i && i + |a| <= |b| && b[i..i + |a|] == a
  }

  lemma OccursAfterFirst(a: string, b: string, i: int)
    requires b != [] && 0 <= i
    ensures OccursAt(a, b[1..], i) <==> OccursAt(a, b, i + 1)
  {
    if i + |a| <= |b| - 1 {
      assert b[1..][i..i + |a|] == b[i + 1..i + 1 + |a|];
    }
  }

  /** Python's `a in b` on strings: a is a prefix of b or of one of its suffixes. */
  predicate IsSubstring(a: string, b: string)
    decreases |b|
  {
    a <= b || (b != [] && IsSubstring(a, b[1..]))
  }

  /** `a in b` holds exactly when a occurs in b at some position. */
  lemma {:induction false} SubstringIff(a: string, b: string)
    ensures IsSubstring(a, b) <==> exists i :: OccursAt(a, b, i)
    decreases |b|
  {
    if a <= b {
      assert OccursAt(a, b, 0);
    } else if b == [] {
      assert forall i :: !OccursAt(a, b, i);
    } else {
      SubstringIff(a, b[1..]);
      assert !OccursAt(a, b, 0);
      forall i | OccursAt(a, b, i)
        ensures OccursAt(a, b[1..], i - 1)
      {
        OccursAfterFirst(a, b, i - 1);
      }
      forall i | OccursAt(a, b[1..], i)
        ensures OccursAt(a, b, i + 1)
      {
        OccursAfterFirst(a, b, i);
      }
    }
  }

  /** `s.replace(a, b)` for one-character a and b. */
  function ReplaceChar(s: string, a: char, b: char): (r: string)
    ensures |r| == |s|
    ensures forall i :: 0 <= i < |s| ==> r[i] == (if s[i] == a then b else s[i])
  {
    seq(|s|, i requires 0 <= i < |s| => if s[i] == a then b else s[i])
  }

  predicate IsDigit(c: char) { '0' <= c <= '9' }

  function Digit(d: nat): (c: char)
    requires d < 10
    ensures IsDigit(c) && c as int - '0' as int == d
  {
    ('0' as int + d) as char
  }

  /** The number a string of decimal digits spells, most significant digit first. */
  function DigitsValue(s: string): int {
    if s == [] then 0 else 10 * DigitsValue(s[..|s| - 1]) + (s[|s| - 1] as int - '0' as int)
  }

  /** `str(n)` for a natural number: its decimal digits, without leading zeros. */
  function NatToString(n: nat): (r: string)
    ensures r != [] && forall i :: 0 <= i < |r| ==> IsDigit(r[i])
    ensures |r| > 1 ==> r[0] != '0'
    ensures DigitsValue(r) == n
  {
    if n < 10 then
      assert [Digit(n)][..0] == [];
      [Digit(n)]
    else
      var p := NatToString(n / 10);
      assert (p + [Digit(n % 10)])[..|p|] == p;
      p + [Digit(n % 10)]
  }
}
