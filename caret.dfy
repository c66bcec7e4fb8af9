/** `getCaret`, `calculatePositionIndex` and `getCaretWord`: the word node
    under the caret, the caret's offset inside it and the word there. */
module CaretLocator {
  import opened Base
  import opened Geometry
  import TextContent
  import WordBoundary
  import opened SelectionExtractor

  /** How many characters of `s` have a non-zero width. */
  function CountVisible(m: Measure, css: string, s: string): (n: nat)
    ensures n <= |s|
    decreases |s|
  {
    if s == [] then 0
    else CountVisible(m, css, s[..|s| - 1]) + (if m(css, s[|s| - 1]) != 0.0 then 1 else 0)
  }

  /** Character `k` is visible and, once its width is added, the virtual
      caret (which starts one caret width left of the word) has reached the
      caret's left edge. */
  predicate Reaches(m: Measure, css: string, text: string, wordRect: Rect, caretRect: Rect, k: nat)
    requires k < |text|
  {
    && m(css, text[k]) != 0.0
    && wordRect.left - caretRect.Width() + PrefixWidth(m, css, text[..k + 1]) >= caretRect.left
  }

  /** `k` is the first reaching character, or `|text|` when none reaches. */
  predicate FirstReach(m: Measure, css: string, text: string, wordRect: Rect, caretRect: Rect, k: nat) {
    && k <= |text|
    && (forall j | 0 <= j < k :: !Reaches(m, css, text, wordRect, caretRect, j))
    && (k < |text| ==> Reaches(m, css, text, wordRect, caretRect, k))
  }

  /** The caret offset is the number of visible characters passed before
      the first reaching one. */
  predicate IsPositionIndex(m: Measure, css: string, text: string, wordRect: Rect, caretRect: Rect, r: nat) {
    exists k: nat | k <= |text| :: FirstReach(m, css, text, wordRect, caretRect, k) && r == CountVisible(m, css, text[..k])
  }

  lemma CountVisibleStep(m: Measure, css: string, s: string, i: nat)
    requires i < |s|
    ensures CountVisible(m, css, s[..i + 1]) == CountVisible(m, css, s[..i]) + (if m(css, s[i]) != 0.0 then 1 else 0)
    ensures PrefixWidth(m, css, s[..i + 1]) == PrefixWidth(m, css, s[..i]) + m(css, s[i])
  {
    assert s[..i + 1][..i] == s[..i];
  }

  /** The library's scan over the raw text content; characters of zero
      width are skipped. */
  method CalculatePositionIndex(m: Measure, wordRect: Rect, caretRect: Rect, text: string, css: string)
    returns (localIndex: nat)
    ensures IsPositionIndex(m, css, text, wordRect, caretRect, localIndex)
    ensures localIndex <= CountVisible(m, css, text) <= |text|
  {
    var virtualCaretLeft := wordRect.left - caretRect.Width();
    localIndex := 0;
    var i := 0;
    assert text[..0] == [];
    while i < |text|
      invariant 0 <= i <= |text|
      invariant virtualCaretLeft == wordRect.left - caretRect.Width() + PrefixWidth(m, css, text[..i])
      invariant localIndex == CountVisible(m, css, text[..i])
      invariant forall j | 0 <= j < i :: !Reaches(m, css, text, wordRect, caretRect, j)
    {
      var width := m(css, text[i]);
      CountVisibleStep(m, css, text, i);
      if width == 0.0 {
        i := i + 1;
        continue;
      }
      virtualCaretLeft := virtualCaretLeft + width;
      if virtualCaretLeft >= caretRect.left {
        break;
      }
      localIndex := localIndex + 1;
      i := i + 1;
    }
    assert FirstReach(m, css, text, wordRect, caretRect, i);
    CountVisibleMonotone(m, css, text, i);
  }

  lemma {:induction false} CountVisibleMonotone(m: Measure, css: string, s: string, i: nat)
    requires i <= |s|
    ensures CountVisible(m, css, s[..i]) <= CountVisible(m, css, s)
    decreases |s| - i
  {
    if i == |s| {
      assert s[..i] == s;
    } else {
      CountVisibleStep(m, css, s, i);
      CountVisibleMonotone(m, css, s, i + 1);
    }
  }

  /** The offset is determined by the rectangles and the widths. */
  lemma PositionIndexUnique(m: Measure, css: string, text: string, wordRect: Rect, caretRect: Rect, r1: nat, r2: nat)
    requires IsPositionIndex(m, css, text, wordRect, caretRect, r1)
    requires IsPositionIndex(m, css, text, wordRect, caretRect, r2)
    ensures r1 == r2
  {
    var k1: nat :| k1 <= |text| && FirstReach(m, css, text, wordRect, caretRect, k1) && r1 == CountVisible(m, css, text[..k1]);
    var k2: nat :| k2 <= |text| && FirstReach(m, css, text, wordRect, caretRect, k2) && r2 == CountVisible(m, css, text[..k2]);
    if k1 < |text| {
      assert Reaches(m, css, text, wordRect, caretRect, k1);
    }
    if k2 < |text| {
      assert Reaches(m, css, text, wordRect, caretRect, k2);
    }
  }

  /** Text made only of zero-width characters puts the caret at offset 0. */
  lemma InvisibleTextGivesZero(m: Measure, css: string, text: string, wordRect: Rect, caretRect: Rect, r: nat)
    requires forall k | 0 <= k < |text| :: m(css, text[k]) == 0.0
    requires IsPositionIndex(m, css, text, wordRect, caretRect, r)
    ensures r == 0
  {
    var k: nat :| k <= |text| && FirstReach(m, css, text, wordRect, caretRect, k) && r == CountVisible(m, css, text[..k]);
    InvisibleCountsZero(m, css, text[..k]);
  }

  lemma {:induction false} InvisibleCountsZero(m: Measure, css: string, s: string)
    requires forall k | 0 <= k < |s| :: m(css, s[k]) == 0.0
    ensures CountVisible(m, css, s) == 0
    decreases |s|
  {
    if s != [] {
      InvisibleCountsZero(m, css, s[..|s| - 1]);
    }
  }

  /** What `getCaret` finds: `Unmatched` is the record whose fields are all
      `null`, which the library returns when no word node overlaps the
      caret. */
  datatype CaretInfo =
    | Unmatched
    | Matched(caretRect: Rect, wordNode: WordNode, lineIndex: nat, position: nat)

  /** Word `wi` of line `li` overlaps the caret and no word before it, in
      line-major order, does. */
  predicate FirstOverlapAt(caret: Rect, lines: seq<seq<WordNode>>, li: nat, wi: nat) {
    && li < |lines|
    && wi < |lines[li]|
    && IsRectsOverlap(caret, lines[li][wi].rect)
    && (forall i, j | 0 <= i < li && 0 <= j < |lines[i]| :: !IsRectsOverlap(caret, lines[i][j].rect))
    && (forall j | 0 <= j < wi :: !IsRectsOverlap(caret, lines[li][j].rect))
  }

  predicate NoOverlap(caret: Rect, lines: seq<seq<WordNode>>) {
    forall i, j | 0 <= i < |lines| && 0 <= j < |lines[i]| :: !IsRectsOverlap(caret, lines[i][j].rect)
  }

  predicate IsCaretInfo(m: Measure, caret: Rect, lines: seq<seq<WordNode>>, info: CaretInfo) {
    match info
    case Unmatched => NoOverlap(caret, lines)
    case Matched(caretRect, node, lineIndex, position) =>
      && caretRect == caret
      && (exists wi: nat | lineIndex < |lines| && wi < |lines[lineIndex]| :: FirstOverlapAt(caret, lines, lineIndex, wi) && node == lines[lineIndex][wi])
      && IsPositionIndex(m, node.css, node.textContent, node.rect, caret, position)
  }

  /** The caret rectangle (`None` without a caret element) against the word
      nodes of every line. */
  method GetCaret(m: Measure, caret: Option<Rect>, lines: seq<seq<WordNode>>) returns (r: Option<CaretInfo>)
    ensures r.None? <==> caret.None? || |lines| == 0
    ensures r.Some? ==> IsCaretInfo(m, caret.value, lines, r.value)
  {
    if caret.None? {
      return None;
    }
    if |lines| == 0 {
      return None;
    }
    var caretRect := caret.value;
    var result := Unmatched;
    var resultFound := false;
    var lineIndex := 0;
    while lineIndex != |lines|
      invariant 0 <= lineIndex <= |lines|
      invariant !resultFound ==> result == Unmatched
      invariant !resultFound ==> forall i, j | 0 <= i < lineIndex && 0 <= j < |lines[i]| :: !IsRectsOverlap(caretRect, lines[i][j].rect)
      invariant resultFound ==> IsCaretInfo(m, caretRect, lines, result) && result.Matched?
      invariant resultFound ==> lineIndex < |lines|
    {
      var line := lines[lineIndex];
      var wordIndex := 0;
      while wordIndex != |line|
        invariant 0 <= wordIndex <= |line|
        invariant !resultFound && result == Unmatched
        invariant forall j | 0 <= j < wordIndex :: !IsRectsOverlap(caretRect, line[j].rect)
      {
        var wordElement := line[wordIndex];
        if !IsRectsOverlap(caretRect, wordElement.rect) {
          wordIndex := wordIndex + 1;
          continue;
        }
        var position := CalculatePositionIndex(m, wordElement.rect, caretRect, wordElement.textContent, wordElement.css);
        result := Matched(caretRect, wordElement, lineIndex, position);
        assert FirstOverlapAt(caretRect, lines, lineIndex, wordIndex);
        resultFound := true;
        break;
      }
      if resultFound {
        break;
      }
      lineIndex := lineIndex + 1;
    }
    return Some(result);
  }

  /** The word node a matched record points at. */
  lemma MatchedAt(m: Measure, caret: Rect, lines: seq<seq<WordNode>>, info: CaretInfo) returns (wi: nat)
    requires info.Matched? && IsCaretInfo(m, caret, lines, info)
    ensures FirstOverlapAt(caret, lines, info.lineIndex, wi) && info.wordNode == lines[info.lineIndex][wi]
  {
    wi :| info.lineIndex < |lines| && wi < |lines[info.lineIndex]| && FirstOverlapAt(caret, lines, info.lineIndex, wi) && info.wordNode == lines[info.lineIndex][wi];
  }

  /** At most one word node is the first to overlap the caret. */
  lemma FirstOverlapUnique(caret: Rect, lines: seq<seq<WordNode>>, l1: nat, w1: nat, l2: nat, w2: nat)
    requires FirstOverlapAt(caret, lines, l1, w1) && FirstOverlapAt(caret, lines, l2, w2)
    ensures l1 == l2 && w1 == w2
  {
  }

  /** The caret sits in exactly one place. */
  lemma CaretInfoUnique(m: Measure, caret: Rect, lines: seq<seq<WordNode>>, a: CaretInfo, b: CaretInfo)
    requires IsCaretInfo(m, caret, lines, a)
    requires IsCaretInfo(m, caret, lines, b)
    ensures a == b
  {
    if a.Matched? && b.Matched? {
      var wa := MatchedAt(m, caret, lines, a);
      var wb := MatchedAt(m, caret, lines, b);
      FirstOverlapUnique(caret, lines, a.lineIndex, wa, b.lineIndex, wb);
      PositionIndexUnique(m, a.wordNode.css, a.wordNode.textContent, a.wordNode.rect, caret, a.position, b.position);
    } else if a.Matched? {
      var wa := MatchedAt(m, caret, lines, a);
    } else if b.Matched? {
      var wb := MatchedAt(m, caret, lines, b);
    }
  }

  /** What `getCaretWord` returns. */
  datatype CaretWord = CaretWord(word: string, text: string, indexStart: nat, indexEnd: nat)

  /** The word around offset `pos` of the cleaned text `text`: an offset past
      the end gives the empty word at that offset, otherwise the word lies
      between the left and the right boundary of the offset. */
  function CaretWordAt(hasCase: char -> bool, text: string, pos: nat): (r: CaretWord)
    ensures r.text == text
    ensures pos > |text| ==> r == CaretWord([], text, pos, pos)
    ensures pos <= |text| ==>
      && r.indexStart <= pos <= r.indexEnd <= |text|
      && r.word == text[r.indexStart..r.indexEnd]
  {
    if pos > |text| then CaretWord([], text, pos, pos)
    else
      var start := WordBoundary.LeftBoundary(hasCase, text, pos);
      var end := WordBoundary.RightBoundary(hasCase, text, pos);
      WordBoundary.LeftBoundarySpec(hasCase, text, pos);
      WordBoundary.RightBoundarySpec(hasCase, text, pos);
      CaretWord(TextContent.Substring(text, start, end), text, start, end)
  }

  /** Apart from a separator at offset 0 that the left scan keeps, the word
      found consists of word characters only, and it cannot be extended on
      either side. */
  lemma CaretWordIsWholeWord(hasCase: char -> bool, text: string, pos: nat)
    requires pos <= |text|
    ensures var r := CaretWordAt(hasCase, text, pos);
      && (forall k | r.indexStart < k < r.indexEnd :: IsWordChar(hasCase, text[k]))
      && (r.indexStart < r.indexEnd && (r.indexStart > 0 || IsWordChar(hasCase, text[0])) ==> IsWordChar(hasCase, text[r.indexStart]))
      && (r.indexStart > 0 && r.indexStart < r.indexEnd ==> !IsWordChar(hasCase, text[r.indexStart - 1]))
      && (r.indexEnd < |text| ==> !IsWordChar(hasCase, text[r.indexEnd]))
  {
    WordBoundary.LeftBoundarySpec(hasCase, text, pos);
    WordBoundary.RightBoundarySpec(hasCase, text, pos);
  }

  /** `getCaretWord`: `null` without a caret element or without lines; an
      unmatched caret record makes the library dereference `null`. */
  method GetCaretWord(hasCase: char -> bool, m: Measure, caret: Option<Rect>, lines: seq<seq<WordNode>>)
    returns (r: Result<Option<CaretWord>>)
    ensures r == Ok(None) <==> caret.None? || |lines| == 0
    ensures r.Err? <==> caret.Some? && |lines| > 0 && NoOverlap(caret.value, lines)
    ensures r.Err? ==> r.error == NullDereference
    ensures r.Ok? && r.value.Some? ==>
      (exists info :: IsCaretInfo(m, caret.value, lines, info) && info.Matched? &&
         r.value.value == CaretWordAt(hasCase, TextContent.ClearTextContent(info.wordNode.textContent), info.position))
  {
    var info := GetCaret(m, caret, lines);
    if info.None? {
      return Ok(None);
    }
    if info.value.Unmatched? {
      return Err(NullDereference);
    }
    var found := info.value;
    assert found.Matched?;
    ghost var wi := MatchedAt(m, caret.value, lines, found);
    assert IsRectsOverlap(caret.value, lines[found.lineIndex][wi].rect);
    var caretText := TextContent.ClearTextContent(found.wordNode.textContent);
    var position := found.position;
    if position > |caretText| {
      return Ok(Some(CaretWord([], caretText, position, position)));
    }
    var indexStart := WordBoundary.GetBoundaryIndex(hasCase, position, caretText, true);
    var indexEnd := WordBoundary.GetBoundaryIndex(hasCase, position, caretText, false);
    var word := TextContent.Substring(caretText, indexStart, indexEnd);
    return Ok(Some(CaretWord(word, caretText, indexStart, indexEnd)));
  }
}
