/** Character classes used by the reply classifier's regular expressions and
    string methods.

    `\s` in a Python `str` pattern, `str.strip()` and `str.split()` all use the
    same whitespace test (`str.isspace`), so one predicate serves all three.
    `\w` is modelled on ASCII: letters, digits and the underscore. */
module Chars {

  /** Python's `str.isspace()`: the ASCII controls TAB..CR, the separators
      FS..US, SPACE, and the Unicode space characters. */
  predicate IsSpace(c: char) {
    var n := c as int;
    || 0x09 <= n <= 0x0D
    || 0x1C <= n <= 0x20
    || n == 0x85
    || n == 0xA0
    || n == 0x1680
    || 0x2000 <= n <= 0x200A
    || n == 0x2028
    || n == 0x2029
    || n == 0x202F
    || n == 0x205F
    || n == 0x3000
  }

  /** `\w`: a character that may appear inside a word. `\W` is its negation. */
  predicate IsWordChar(c: char) {
    || 'a' <= c <= 'z'
    || 'A' <= c <= 'Z'
    || '0' <= c <= '9'
    || c == '_'
  }

  /** Every `\s` character is also a `\W` character. */
  lemma SpaceIsNotWord(c: char)
    ensures IsSpace(c) ==> !IsWordChar(c)
  {
  }

  /** `str.lower()` on one character (ASCII case mapping). */
  function Lower(c: char): (l: char)
    ensures IsWordChar(l) <==> IsWordChar(c)
    ensures IsSpace(l) <==> IsSpace(c)
    ensures 'A' <= c <= 'Z' ==> 'a' <= l <= 'z' && l as int - c as int == 32
    ensures !('A' <= c <= 'Z') ==> l == c
    ensures !('A' <= l <= 'Z')
  {
    if 'A' <= c <= 'Z' then (c as int + 32) as char else c
  }

  /** `str.lower()`: same length, no upper-case letter left, and each
      character keeps its word and whitespace class. */
  function LowerStr(s: string): (r: string)
    ensures |r| == |s|
    ensures forall i :: 0 <= i < |s| ==> r[i] == Lower(s[i])
    ensures forall i :: 0 <= i < |r| ==> !('A' <= r[i] <= 'Z')
    ensures forall i :: 0 <= i < |r| ==> (IsWordChar(r[i]) <==> IsWordChar(s[i]))
    ensures forall i :: 0 <= i < |r| ==> (IsSpace(r[i]) <==> IsSpace(s[i]))
  {
    seq(|s|, i requires 0 <= i < |s| => Lower(s[i]))
  }

  /** Lower-casing a lower-cased string changes nothing. */
  lemma LowerStrIdempotent(s: string)
    ensures LowerStr(LowerStr(s)) == LowerStr(s)
  {
    var r := LowerStr(s);
    forall i | 0 <= i < |r|
      ensures LowerStr(r)[i] == r[i]
    {
    }
  }

  /** Lower-casing distributes over concatenation. */
  lemma LowerStrAppend(a: string, b: string)
    ensures LowerStr(a + b) == LowerStr(a) + LowerStr(b)
  {
    assert forall i :: 0 <= i < |a + b| ==> LowerStr(a + b)[i] == (LowerStr(a) + LowerStr(b))[i];
  }
}
