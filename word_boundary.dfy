/** `getBoundaryIndex`: from a caret offset inside a word's text to the
    offsets where the surrounding word starts and ends. */
module WordBoundary {
  import opened Base
  import opened Geometry
  import TextContent

  /** `charIsOutOfWord(text[i])`. */
  predicate OutAt(hasCase: char -> bool, text: string, i: int) {
    IsOutOfWord(hasCase, CharAt(text, i))
  }

  /** Where the rightward scan stops: the first offset from `start` on that
      holds no word character (the end of the text included). */
  function RightBoundary(hasCase: char -> bool, text: string, start: nat): nat
    decreases |text| - start
  {
    if OutAt(hasCase, text, start) || start >= |text| then start
    else RightBoundary(hasCase, text, start + 1)
  }

  /** The leftward scan from `b`, ending with the undo step: it walks left
      over word characters; stopping on a separator it steps back onto the
      word, stopping at offset 0 it stays there. */
  function ScanLeft(hasCase: char -> bool, text: string, b: nat): nat
    decreases b
  {
    if b == 0 then 0
    else if OutAt(hasCase, text, b) then b + 1
    else ScanLeft(hasCase, text, b - 1)
  }

  /** Where the leftward search ends: a caret just after a word (on a
      separator, with a word character before it) belongs to that word; a
      caret between two separators stays where it is. */
  function LeftBoundary(hasCase: char -> bool, text: string, start: nat): nat {
    if start > 0 && OutAt(hasCase, text, start) then
      if OutAt(hasCase, text, start - 1) then start else ScanLeft(hasCase, text, start - 1)
    else ScanLeft(hasCase, text, start)
  }

  /** The library's loop, with its `isEnd`/`move`/`undoMove` closures
      written out for each direction. */
  method GetBoundaryIndex(hasCase: char -> bool, startIndex: nat, text: string, toLeft: bool) returns (b: nat)
    ensures b == (if toLeft then LeftBoundary(hasCase, text, startIndex)
                  else RightBoundary(hasCase, text, startIndex))
  {
    b := startIndex;
    var character := CharAt(text, b);
    if toLeft && IsOutOfWord(hasCase, character) && !(b <= 0) {
      b := b - 1;
      character := CharAt(text, b);
      if IsOutOfWord(hasCase, character) {
        return startIndex;
      }
    }
    ghost var target := if toLeft then LeftBoundary(hasCase, text, startIndex)
                        else RightBoundary(hasCase, text, startIndex);
    while !IsOutOfWord(hasCase, character) && !(if toLeft then b <= 0 else b >= |text|)
      invariant character == CharAt(text, b)
      invariant toLeft ==> target == ScanLeft(hasCase, text, b)
      invariant !toLeft ==> target == RightBoundary(hasCase, text, b)
      decreases if toLeft then b else |text| - b
    {
      if toLeft {
        b := b - 1;
      } else {
        b := b + 1;
      }
      character := CharAt(text, b);
    }
    if toLeft && !(b <= 0) {
      b := b + 1;
    }
  }

  /** The rightward boundary ends the run of word characters starting at
      `start`. */
  lemma {:induction false} RightBoundarySpec(hasCase: char -> bool, text: string, start: nat)
    ensures var r := RightBoundary(hasCase, text, start);
      && start <= r
      && (start <= |text| ==> r <= |text|)
      && (forall k | start <= k < r :: IsWordChar(hasCase, text[k]))
      && (r < |text| ==> !IsWordChar(hasCase, text[r]))
    decreases |text| - start
  {
    if !(OutAt(hasCase, text, start) || start >= |text|) {
      RightBoundarySpec(hasCase, text, start + 1);
    }
  }

  /** The leftward scan from a word character stops at the start of its
      run, or at offset 0 whatever character is there. */
  lemma {:induction false} ScanLeftSpec(hasCase: char -> bool, text: string, b: nat)
    requires b < |text| && IsWordChar(hasCase, text[b])
    ensures var l := ScanLeft(hasCase, text, b);
      && l <= b
      && (forall k | l < k <= b :: IsWordChar(hasCase, text[k]))
      && (l > 0 ==> l >= 2 && IsWordChar(hasCase, text[l]) && !IsWordChar(hasCase, text[l - 1]))
    decreases b
  {
    if b > 0 {
      if !OutAt(hasCase, text, b - 1) {
        ScanLeftSpec(hasCase, text, b - 1);
      }
    }
  }

  /** The leftward boundary never passes the caret; it is offset 0 or the
      first character of a run of word characters that reaches up to the
      caret (or to the character just before it), and between two
      separators it is the caret itself. */
  lemma LeftBoundarySpec(hasCase: char -> bool, text: string, start: nat)
    ensures var l := LeftBoundary(hasCase, text, start);
      && l <= start
      && (start > 0 && OutAt(hasCase, text, start) && OutAt(hasCase, text, start - 1) ==> l == start)
      && (start <= |text| && !(start > 0 && OutAt(hasCase, text, start) && OutAt(hasCase, text, start - 1)) ==>
            && (forall k | l < k < start :: IsWordChar(hasCase, text[k]))
            && (l > 0 ==> 2 <= l < |text| && IsWordChar(hasCase, text[l]) && !IsWordChar(hasCase, text[l - 1])))
  {
    if start > 0 && OutAt(hasCase, text, start) {
      if !OutAt(hasCase, text, start - 1) {
        ScanLeftSpec(hasCase, text, start - 1);
      }
    } else if start > 0 {
      ScanLeftSpec(hasCase, text, start);
    }
  }

  /** Searching again from a boundary finds the same boundary. */
  lemma BoundariesIdempotent(hasCase: char -> bool, text: string, start: nat)
    requires start <= |text|
    ensures RightBoundary(hasCase, text, RightBoundary(hasCase, text, start)) == RightBoundary(hasCase, text, start)
    ensures LeftBoundary(hasCase, text, LeftBoundary(hasCase, text, start)) == LeftBoundary(hasCase, text, start)
  {
    RightBoundarySpec(hasCase, text, start);
    LeftBoundarySpec(hasCase, text, start);
    var l := LeftBoundary(hasCase, text, start);
    if l > 0 && !(start > 0 && OutAt(hasCase, text, start) && OutAt(hasCase, text, start - 1)) {
      assert ScanLeft(hasCase, text, l - 1) == l;
    }
  }

  /* The documentation examples. Letters are word characters whatever the
     case test says; the space must not be one. */

  lemma ExampleInsideWord(hasCase: char -> bool)
    requires !hasCase(' ')
    ensures LeftBoundary(hasCase, "one two three", 5) == 4
    ensures RightBoundary(hasCase, "one two three", 5) == 7
    ensures TextContent.Substring("one two three", LeftBoundary(hasCase, "one two three", 5), RightBoundary(hasCase, "one two three", 5)) == "two"
  {
  }

  lemma ExampleAfterWord(hasCase: char -> bool)
    requires !hasCase(' ')
    ensures LeftBoundary(hasCase, "one two three", 3) == 0
    ensures RightBoundary(hasCase, "one two three", 3) == 3
    ensures TextContent.Substring("one two three", LeftBoundary(hasCase, "one two three", 3), RightBoundary(hasCase, "one two three", 3)) == "one"
  {
  }

  lemma ExampleBetweenSpaces(hasCase: char -> bool)
    requires !hasCase(' ')
    ensures LeftBoundary(hasCase, "one  two three", 4) == 4
    ensures RightBoundary(hasCase, "one  two three", 4) == 4
    ensures TextContent.Substring("one  two three", LeftBoundary(hasCase, "one  two three", 4), RightBoundary(hasCase, "one  two three", 4)) == ""
  {
  }

  /** The fourth documentation example promises the word `one` from offset 1
      of `"  one two three"`, but both boundaries are 1 there and the word
      between them is empty. */
  lemma ExampleLeadingSpaces(hasCase: char -> bool)
    requires !hasCase(' ')
    ensures LeftBoundary(hasCase, "  one two three", 1) == 1
    ensures RightBoundary(hasCase, "  one two three", 1) == 1
    ensures TextContent.Substring("  one two three", LeftBoundary(hasCase, "  one two three", 1), RightBoundary(hasCase, "  one two three", 1)) == ""
  {
  }

  /** A word that starts at offset 1 gets offset 0 as its left boundary,
      so the separator before it is taken into the word: the scan stops at
      offset 0 without stepping back. */
  lemma {:induction false} WordAtOffsetOne(hasCase: char -> bool, text: string, start: nat)
    requires 1 <= start < |text|
    requires !IsWordChar(hasCase, text[0])
    requires forall k | 1 <= k <= start :: IsWordChar(hasCase, text[k])
    ensures LeftBoundary(hasCase, text, start) == 0
    decreases start
  {
    if start > 1 {
      WordAtOffsetOne(hasCase, text, start - 1);
    }
  }
}
