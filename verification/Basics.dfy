/** Powers of two, sizes of sets and white space. */
module Basics {

  function Pow2(n: nat): (p: nat)
    ensures p > 0
  {
    if n == 0 then 1 else 2 * Pow2(n - 1)
  }

  lemma {:induction false} SubsetSize<T>(a: set<T>, b: set<T>)
    requires a <= b
    ensures |a| <= |b|
    decreases a
  {
    if a != {} {
      var x :| x in a;
      SubsetSize(a - {x}, b - {x});
    }
  }

  /** The white space of regular expressions and of `trimStart` (ECMAScript, WhiteSpace and LineTerminator). */
  predicate IsSpace(c: char) {
    || c == ' ' || '\t' <= c <= '\r' || c == '\U{A0}' || c == '\U{1680}' || '\U{2000}' <= c <= '\U{200A}'
    || c == '\U{2028}' || c == '\U{2029}' || c == '\U{202F}' || c == '\U{205F}' || c == '\U{3000}' || c == '\U{FEFF}'
  }

  /** Tab, line feed, vertical tab, form feed and carriage return; the space separators of Unicode; the line and
      paragraph separators; and the byte order mark. */
  lemma SpaceCodes(c: char, x: int)
    requires x == c as int
    ensures IsSpace(c) <==> (9 <= x <= 13 || x in {0x20, 0xa0, 0x1680, 0x202f, 0x205f, 0x3000} ||
                             0x2000 <= x <= 0x200a || x in {0x2028, 0x2029} || x == 0xfeff)
  {
  }
}
