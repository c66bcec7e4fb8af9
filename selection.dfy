/** `getSelection` and `calculateSelectionIndexes`: which characters of
    each rendered word node lie under the selection overlay of its line. */
module SelectionExtractor {
  import opened Base
  import opened Geometry
  import TextContent

  /** A word node as the library reads it: raw `textContent`, the inline
      CSS it is rendered with and its bounding rectangle. */
  datatype WordNode = WordNode(textContent: string, css: string, rect: Rect)

  /** Selection indexes, usable with `substring`. */
  datatype Range = Range(start: nat, end: nat)

  /** What `getSelection` reports for one selected word node (the DOM
      elements themselves are not modelled). */
  datatype WordSelection = WordSelection(
    text: string,
    selectedText: string,
    selectionStart: nat,
    selectionEnd: nat,
    textRect: Rect,
    selectionRect: Rect)

  /** The virtual caret before character `i`: the left edge of the text
      plus the widths of the characters before it. */
  function CaretLeft(m: Measure, css: string, text: string, textRect: Rect, i: nat): real
    requires i <= |text|
  {
    textRect.left + PrefixWidth(m, css, text[..i])
  }

  /** Character `i` counts as selected when the caret before it lies in
      `[sel.left, sel.right)`. */
  predicate Covered(m: Measure, css: string, text: string, textRect: Rect, sel: Rect, i: nat)
    requires i <= |text|
  {
    sel.left <= CaretLeft(m, css, text, textRect, i) < sel.right
  }

  /** `r` is the selection of `text`: `None` when no character is covered;
      otherwise the first covered character starts it, and it ends at the
      first uncovered character after that, or at the end of the text. */
  predicate IsSelectionOf(m: Measure, css: string, text: string, textRect: Rect, sel: Rect, r: Option<Range>) {
    match r
    case None =>
      forall i | 0 <= i < |text| :: !Covered(m, css, text, textRect, sel, i)
    case Some(range) =>
      && range.start < range.end <= |text|
      && (forall i | 0 <= i < range.start :: !Covered(m, css, text, textRect, sel, i))
      && (forall i | range.start <= i < range.end :: Covered(m, css, text, textRect, sel, i))
      && (range.end < |text| ==> !Covered(m, css, text, textRect, sel, range.end))
  }

  lemma CaretStep(m: Measure, css: string, text: string, textRect: Rect, i: nat)
    requires i < |text|
    ensures CaretLeft(m, css, text, textRect, i + 1) == CaretLeft(m, css, text, textRect, i) + m(css, text[i])
  {
    assert text[..i + 1][..i] == text[..i];
  }

  /** The library's scan: a virtual caret walks over the characters,
      adding each one's width. */
  method CalculateSelectionIndexes(m: Measure, text: string, css: string, textRect: Rect, sel: Rect)
    returns (r: Option<Range>)
    ensures IsSelectionOf(m, css, text, textRect, sel, r)
  {
    var virtualCaretLeft := textRect.left;
    var selected := false;
    var selectionStart := 0;
    var selectionEnd := |text|;
    var i := 0;
    assert text[..0] == [];
    while i != |text|
      invariant 0 <= i <= |text|
      invariant virtualCaretLeft == CaretLeft(m, css, text, textRect, i)
      invariant selectionEnd == |text|
      invariant !selected ==> forall j | 0 <= j < i :: !Covered(m, css, text, textRect, sel, j)
      invariant selected ==> selectionStart < i
      invariant selected ==> forall j | 0 <= j < selectionStart :: !Covered(m, css, text, textRect, sel, j)
      invariant selected ==> forall j | selectionStart <= j < i :: Covered(m, css, text, textRect, sel, j)
    {
      var isOverlap := sel.left <= virtualCaretLeft && virtualCaretLeft < sel.right;
      if isOverlap {
        if !selected {
          selectionStart := i;
          selected := true;
        }
      } else {
        if selected {
          selectionEnd := i;
          break;
        }
      }
      CaretStep(m, css, text, textRect, i);
      virtualCaretLeft := virtualCaretLeft + m(css, text[i]);
      i := i + 1;
    }
    r := if selected then Some(Range(selectionStart, selectionEnd)) else None;
  }

  /** The selection of a text is determined by the rectangles and widths. */
  lemma SelectionUnique(m: Measure, css: string, text: string, textRect: Rect, sel: Rect, r1: Option<Range>, r2: Option<Range>)
    requires IsSelectionOf(m, css, text, textRect, sel, r1)
    requires IsSelectionOf(m, css, text, textRect, sel, r2)
    ensures r1 == r2
  {
    if r1.Some? {
      assert Covered(m, css, text, textRect, sel, r1.value.start);
      if r1.value.end < |text| {
        assert !Covered(m, css, text, textRect, sel, r1.value.end);
      }
    }
    if r2.Some? {
      assert Covered(m, css, text, textRect, sel, r2.value.start);
      if r2.value.end < |text| {
        assert !Covered(m, css, text, textRect, sel, r2.value.end);
      }
    }
  }

  /** With non-negative widths every caret lies between the left edge of
      the text and the left edge plus the width of the whole text. */
  lemma CaretWithinText(m: Measure, css: string, text: string, textRect: Rect, i: nat)
    requires NonNegative(m)
    requires i <= |text|
    ensures textRect.left <= CaretLeft(m, css, text, textRect, i) <= textRect.left + PrefixWidth(m, css, text)
  {
    PrefixWidthMonotone(m, css, text, i, |text|);
    assert text[..|text|] == text;
  }

  /** An overlay entirely to the left of the text, or starting after its
      last character, selects nothing. */
  lemma OverlayBesideText(m: Measure, css: string, text: string, textRect: Rect, sel: Rect, r: Option<Range>)
    requires NonNegative(m)
    requires sel.right <= textRect.left || sel.left > textRect.left + PrefixWidth(m, css, text)
    requires IsSelectionOf(m, css, text, textRect, sel, r)
    ensures r == None
  {
    forall i | 0 <= i < |text|
      ensures !Covered(m, css, text, textRect, sel, i)
    {
      CaretWithinText(m, css, text, textRect, i);
    }
    SelectionUnique(m, css, text, textRect, sel, r, None);
  }

  /** An overlay spanning the whole text selects all of it. */
  lemma OverlayOverText(m: Measure, css: string, text: string, textRect: Rect, sel: Rect, r: Option<Range>)
    requires NonNegative(m)
    requires text != []
    requires sel.left <= textRect.left && textRect.left + PrefixWidth(m, css, text) < sel.right
    requires IsSelectionOf(m, css, text, textRect, sel, r)
    ensures r == Some(Range(0, |text|))
  {
    CaretWithinText(m, css, text, textRect, 0);
    assert Covered(m, css, text, textRect, sel, 0);
    var range := r.value;
    if range.end < |text| {
      CaretWithinText(m, css, text, textRect, range.end);
    }
  }

  /** The entry for one word node under the overlay `sel`. */
  predicate IsWordSelection(m: Measure, sel: Rect, node: WordNode, v: Option<WordSelection>) {
    var text := TextContent.ClearTextContent(node.textContent);
    match v
    case None => IsSelectionOf(m, node.css, text, node.rect, sel, None)
    case Some(w) =>
      && IsSelectionOf(m, node.css, text, node.rect, sel, Some(Range(w.selectionStart, w.selectionEnd)))
      && w == WordSelection(text, text[w.selectionStart..w.selectionEnd], w.selectionStart, w.selectionEnd, node.rect, sel)
  }

  /** The entry for one line: `null` without an overlay, otherwise one
      entry per word node. */
  predicate IsLineSelection(m: Measure, overlay: Option<Rect>, words: seq<WordNode>, v: Option<seq<Option<WordSelection>>>) {
    match overlay
    case None => v.None?
    case Some(sel) =>
      && v.Some?
      && |v.value| == |words|
      && forall j | 0 <= j < |words| :: IsWordSelection(m, sel, words[j], v.value[j])
  }

  /** Selection data for every rendered line, from the overlay of each line
      (`None` when it has none) and its word nodes; the two lists come
      from separate queries and must have the same length. */
  method GetSelection(m: Measure, overlays: seq<Option<Rect>>, lines: seq<seq<WordNode>>)
    returns (r: Result<seq<Option<seq<Option<WordSelection>>>>>)
    ensures r.Err? <==> |overlays| != |lines|
    ensures r.Err? ==> r.error == InconsistentSnapshot
    ensures r.Ok? ==> |r.value| == |lines|
    ensures r.Ok? ==> forall i | 0 <= i < |lines| :: IsLineSelection(m, overlays[i], lines[i], r.value[i])
  {
    if |overlays| != |lines| {
      return Err(InconsistentSnapshot);
    }
    var result: seq<Option<seq<Option<WordSelection>>>> := [];
    for i := 0 to |lines|
      invariant |result| == i
      invariant forall k | 0 <= k < i :: IsLineSelection(m, overlays[k], lines[k], result[k])
    {
      if overlays[i].None? {
        result := result + [None];
        continue;
      }
      var selectionRect := overlays[i].value;
      var line := lines[i];
      var lineSelection: seq<Option<WordSelection>> := [];
      for j := 0 to |line|
        invariant |lineSelection| == j
        invariant forall k | 0 <= k < j :: IsWordSelection(m, selectionRect, line[k], lineSelection[k])
      {
        var wordElement := line[j];
        var originalText := TextContent.ClearTextContent(wordElement.textContent);
        var selectionIndexes := CalculateSelectionIndexes(m, originalText, wordElement.css, wordElement.rect, selectionRect);
        if selectionIndexes.None? {
          lineSelection := lineSelection + [None];
          continue;
        }
        var start, end := selectionIndexes.value.start, selectionIndexes.value.end;
        var selectedText := TextContent.Substring(originalText, start, end);
        lineSelection := lineSelection + [Some(WordSelection(originalText, selectedText, start, end, wordElement.rect, selectionRect))];
      }
      result := result + [Some(lineSelection)];
    }
    return Ok(result);
  }

  /** A reported selection is a non-empty piece of the cleaned text, and
      carries neither joiners nor non-breaking spaces. */
  lemma SelectedTextIsClean(m: Measure, sel: Rect, node: WordNode, w: WordSelection)
    requires IsWordSelection(m, sel, node, Some(w))
    ensures w.text == TextContent.ClearTextContent(node.textContent)
    ensures w.selectedText != [] && w.selectedText == w.text[w.selectionStart..w.selectionEnd]
    ensures TextContent.ZWNJ !in w.selectedText && TextContent.NBSP !in w.selectedText
  {
    assert forall c | c in w.selectedText :: c in w.text;
  }

  /** `isTextSelected`: some line has a selection overlay. */
  function IsTextSelected(overlays: seq<Option<Rect>>): (b: bool)
    ensures b <==> exists i | 0 <= i < |overlays| :: overlays[i].Some?
    decreases |overlays|
  {
    if overlays == [] then false
    else overlays[0].Some? || IsTextSelected(overlays[1..])
  }

  /** Text is selected exactly when `getSelection` reports at least one
      line with selection data. */
  lemma SelectedIffSomeLineReported(m: Measure, overlays: seq<Option<Rect>>, lines: seq<seq<WordNode>>, r: seq<Option<seq<Option<WordSelection>>>>)
    requires |overlays| == |lines| == |r|
    requires forall i | 0 <= i < |lines| :: IsLineSelection(m, overlays[i], lines[i], r[i])
    ensures IsTextSelected(overlays) <==> exists i | 0 <= i < |r| :: r[i].Some?
  {
    if IsTextSelected(overlays) {
      var i :| 0 <= i < |overlays| && overlays[i].Some?;
      assert IsLineSelection(m, overlays[i], lines[i], r[i]);
    }
    if exists i | 0 <= i < |r| :: r[i].Some? {
      var i :| 0 <= i < |r| && r[i].Some?;
      assert IsLineSelection(m, overlays[i], lines[i], r[i]);
    }
  }
}
