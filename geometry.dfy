/** Rectangles, character widths and the word-character classifier. */
module Geometry {
  import opened Base

  /** A bounding client rectangle; coordinates are exact reals. */
  datatype Rect = Rect(left: real, top: real, right: real, bottom: real) {
    function Width(): real { right - left }
    predicate WellFormed() { left <= right && top <= bottom }
    predicate Contains(x: real, y: real) { left <= x <= right && top <= y <= bottom }
  }

  /** The rendered width of one character under a CSS text: what the library
      reads as `getCharRect(char, css).width`. */
  type Measure = (string, char) -> real

  ghost predicate NonNegative(m: Measure) {
    forall css, c :: m(css, c) >= 0.0
  }

  /** Sum of the widths of the characters of `s`, as a virtual caret walking
      over `s` from left to right accumulates them. */
  function PrefixWidth(m: Measure, css: string, s: string): real
    decreases |s|
  {
    if s == [] then 0.0 else PrefixWidth(m, css, s[..|s| - 1]) + m(css, s[|s| - 1])
  }

  lemma {:induction false} PrefixWidthMonotone(m: Measure, css: string, s: string, i: nat, j: nat)
    requires NonNegative(m)
    requires i <= j <= |s|
    ensures 0.0 <= PrefixWidth(m, css, s[..i]) <= PrefixWidth(m, css, s[..j])
    decreases j
  {
    if j == 0 {
      assert s[..i] == [];
    } else {
      PrefixWidthMonotone(m, css, s, if i == j then j - 1 else i, j - 1);
      assert s[..j][..j - 1] == s[..j - 1];
      assert m(css, s[j - 1]) >= 0.0;
    }
  }

  /** The four-comparison overlap test (boundaries inclusive). */
  predicate IsRectsOverlap(a: Rect, b: Rect) {
    a.left <= b.right && a.right >= b.left && a.top <= b.bottom && a.bottom >= b.top
  }

  /** For well-formed rectangles the four comparisons hold exactly when the
      two rectangles share a point. */
  lemma OverlapIffCommonPoint(a: Rect, b: Rect)
    requires a.WellFormed() && b.WellFormed()
    ensures IsRectsOverlap(a, b) <==> exists x, y :: a.Contains(x, y) && b.Contains(x, y)
  {
    if IsRectsOverlap(a, b) {
      var x := if a.left < b.left then b.left else a.left;
      var y := if a.top < b.top then b.top else a.top;
      assert a.Contains(x, y) && b.Contains(x, y);
    }
  }

  lemma OverlapSymmetric(a: Rect, b: Rect)
    ensures IsRectsOverlap(a, b) == IsRectsOverlap(b, a)
  {
  }

  /** What the regular expression `[\w]` matches. */
  predicate IsAsciiWordChar(c: char) {
    'a' <= c <= 'z' || 'A' <= c <= 'Z' || '0' <= c <= '9' || c == '_'
  }

  /** `hasCase(c)` stands for `c.toLowerCase() !== c.toUpperCase()`; the
      Unicode case tables are not modelled, so the test is a parameter. */
  predicate IsWordChar(hasCase: char -> bool, c: char) {
    IsAsciiWordChar(c) || hasCase(c)
  }

  /** `text[i]`: undefined outside the string. */
  function CharAt(text: string, i: int): Option<char> {
    if 0 <= i < |text| then Some(text[i]) else None
  }

  /** A missing character (undefined) counts as out of word. */
  predicate IsOutOfWord(hasCase: char -> bool, ch: Option<char>) {
    ch.None? || !IsWordChar(hasCase, ch.value)
  }

  /** The word-character test agrees with `\w` on ASCII, whatever the case
      test says, and treats a missing character as a separator. */
  lemma OutOfWordClassification(hasCase: char -> bool, text: string, i: int)
    ensures (i < 0 || i >= |text|) ==> IsOutOfWord(hasCase, CharAt(text, i))
    ensures 0 <= i < |text| && IsAsciiWordChar(text[i]) ==> !IsOutOfWord(hasCase, CharAt(text, i))
  {
  }
}
