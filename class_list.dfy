/** `selectorsToClassList`: from a selector fallback list to the bare class
    names it mentions, with the JavaScript string operations it relies on. */
module ClassList {
  import Selectors

  /** `s.indexOf(c)`: the first position of `c`, or -1. */
  function IndexOf(s: string, c: char): (r: int)
    ensures -1 <= r < |s|
    ensures r >= 0 ==> s[r] == c
    decreases |s|
  {
    if s == [] then -1
    else if s[0] == c then 0
    else
      var k := IndexOf(s[1..], c);
      if k < 0 then -1 else k + 1
  }

  /** `IndexOf` finds the first occurrence, and answers -1 exactly when
      there is none. */
  lemma {:induction false} IndexOfFirst(s: string, c: char)
    ensures IndexOf(s, c) == -1 <==> c !in s
    ensures forall j | 0 <= j < IndexOf(s, c) :: s[j] != c
    decreases |s|
  {
    if s != [] && s[0] != c {
      IndexOfFirst(s[1..], c);
      assert s == [s[0]] + s[1..];
    }
  }

  /** `s.slice(start)`: a negative start counts from the end. */
  function Slice(s: string, start: int): (r: string)
    ensures 0 <= start <= |s| ==> r == s[start..]
    ensures -|s| <= start < 0 ==> r == s[|s| + start..]
  {
    var from := if start < 0 then (if |s| + start < 0 then 0 else |s| + start)
                else if start > |s| then |s| else start;
    s[from..]
  }

  /** `s.split(sep)` for a one-character separator. */
  function Split(s: string, sep: char): (parts: seq<string>)
    ensures |parts| >= 1
    decreases |s|
  {
    var k := IndexOf(s, sep);
    if k < 0 then [s] else [s[..k]] + Split(s[k + 1..], sep)
  }

  /** `parts.join(sep)`, the inverse of `Split`. */
  function Join(parts: seq<string>, sep: char): string
    requires |parts| >= 1
    decreases |parts|
  {
    if |parts| == 1 then parts[0] else parts[0] + [sep] + Join(parts[1..], sep)
  }

  lemma {:induction false} SplitPiecesHaveNoSeparator(s: string, sep: char)
    ensures forall k | 0 <= k < |Split(s, sep)| :: sep !in Split(s, sep)[k]
    decreases |s|
  {
    var k := IndexOf(s, sep);
    IndexOfFirst(s, sep);
    if k >= 0 {
      SplitPiecesHaveNoSeparator(s[k + 1..], sep);
      assert sep !in s[..k];
    }
  }

  lemma JoinCons(a: string, tail: seq<string>, sep: char)
    requires |tail| >= 1
    ensures Join([a] + tail, sep) == a + [sep] + Join(tail, sep)
  {
    assert ([a] + tail)[1..] == tail;
  }

  lemma SplitCons(s: string, sep: char)
    requires IndexOf(s, sep) >= 0
    ensures var k := IndexOf(s, sep); Split(s, sep) == [s[..k]] + Split(s[k + 1..], sep) && s == s[..k] + [sep] + s[k + 1..]
  {
  }

  lemma {:induction false} SplitJoin(s: string, sep: char)
    ensures Join(Split(s, sep), sep) == s
    decreases |s|
  {
    var k := IndexOf(s, sep);
    if k >= 0 {
      SplitCons(s, sep);
      SplitJoin(s[k + 1..], sep);
      JoinCons(s[..k], Split(s[k + 1..], sep), sep);
    }
  }

  /** The part of a selector from its first class on: the selector itself
      when it starts with `.`, otherwise `selector.slice(selector.indexOf('.'))`. */
  function ClassPart(selector: string): string {
    if |selector| > 0 && selector[0] == '.' then selector
    else Slice(selector, IndexOf(selector, '.'))
  }

  /** The raw pieces `selector.slice(1).split('.')`, empty ones included. */
  function SelectorPieces(selector: string): (parts: seq<string>)
    ensures |parts| >= 1
  {
    Split(Slice(ClassPart(selector), 1), '.')
  }

  /** The non-empty strings of `names`, in order. */
  function NonEmpty(names: seq<string>): seq<string>
    decreases |names|
  {
    if names == [] then []
    else
      var last := names[|names| - 1];
      NonEmpty(names[..|names| - 1]) + (if last == [] then [] else [last])
  }

  /** `NonEmpty` keeps exactly the non-empty names. */
  lemma {:induction false} NonEmptyMembers(names: seq<string>)
    ensures forall n :: n in NonEmpty(names) <==> n in names && n != []
    decreases |names|
  {
    if names != [] {
      var init := names[..|names| - 1];
      NonEmptyMembers(init);
      assert names == init + [names[|names| - 1]];
    }
  }

  /** `NonEmpty` keeps the order and the repetitions of the names: filtering
      a list split in two filters each part and concatenates the results. */
  lemma {:induction false} NonEmptyAppend(a: seq<string>, b: seq<string>)
    ensures NonEmpty(a + b) == NonEmpty(a) + NonEmpty(b)
    decreases |b|
  {
    if b == [] {
      assert a + b == a;
    } else {
      var init := b[..|b| - 1];
      assert (a + b)[..|a + b| - 1] == a + init;
      assert (a + b)[|a + b| - 1] == b[|b| - 1];
      NonEmptyAppend(a, init);
    }
  }

  /** `NonEmpty` leaves a list without empty strings unchanged. */
  lemma {:induction false} NonEmptyKeepsBare(names: seq<string>)
    requires forall k | 0 <= k < |names| :: names[k] != []
    ensures NonEmpty(names) == names
    decreases |names|
  {
    if names != [] {
      NonEmptyKeepsBare(names[..|names| - 1]);
      assert names == names[..|names| - 1] + [names[|names| - 1]];
    }
  }

  /** The class names one selector contributes. */
  function ClassNamesOf(selector: string): seq<string> {
    NonEmpty(SelectorPieces(selector))
  }

  /** The class names of a whole selector list, selector after selector. */
  function ClassList(selectors: seq<string>): seq<string>
    decreases |selectors|
  {
    if selectors == [] then []
    else ClassList(selectors[..|selectors| - 1]) + ClassNamesOf(selectors[|selectors| - 1])
  }

  lemma ClassListStep(selectors: seq<string>, i: nat)
    requires i < |selectors|
    ensures ClassList(selectors[..i + 1]) == ClassList(selectors[..i]) + ClassNamesOf(selectors[i])
  {
    assert selectors[..i + 1][..i] == selectors[..i];
  }

  /** One step of the inner loop: appending the next name when it is non-empty. */
  lemma NonEmptyStep(before: seq<string>, names: seq<string>, j: nat)
    requires j < |names|
    ensures before + NonEmpty(names[..j + 1])
         == before + NonEmpty(names[..j]) + (if names[j] == [] then [] else [names[j]])
  {
    assert names[..j + 1][..j] == names[..j];
  }

  method SelectorsToClassList(selectors: seq<string>) returns (result: seq<string>)
    ensures result == ClassList(selectors)
  {
    result := [];
    for i := 0 to |selectors|
      invariant result == ClassList(selectors[..i])
    {
      var selector := selectors[i];
      if !(|selector| > 0 && selector[0] == '.') {
        selector := Slice(selector, IndexOf(selector, '.'));
      }
      selector := Slice(selector, 1);
      var classNames := Split(selector, '.');
      assert classNames == SelectorPieces(selectors[i]);
      ghost var before := result;
      for j := 0 to |classNames|
        invariant result == before + NonEmpty(classNames[..j])
      {
        NonEmptyStep(before, classNames, j);
        if classNames[j] != [] {
          result := result + [classNames[j]];
        }
      }
      assert classNames[..|classNames|] == classNames;
      ClassListStep(selectors, i);
    }
    assert selectors[..|selectors|] == selectors;
  }

  /** Every name in the list is a bare class name: non-empty and free of dots. */
  lemma {:induction false} ClassListNamesAreBare(selectors: seq<string>)
    ensures forall k | 0 <= k < |ClassList(selectors)| :: ClassList(selectors)[k] != [] && '.' !in ClassList(selectors)[k]
    decreases |selectors|
  {
    if selectors != [] {
      var init := selectors[..|selectors| - 1];
      ClassListNamesAreBare(init);
      var names := ClassNamesOf(selectors[|selectors| - 1]);
      var pieces := SelectorPieces(selectors[|selectors| - 1]);
      SplitPiecesHaveNoSeparator(Slice(ClassPart(selectors[|selectors| - 1]), 1), '.');
      NonEmptyMembers(pieces);
      forall k | 0 <= k < |names|
        ensures names[k] != [] && '.' !in names[k]
      {
        assert names[k] in names;
        var p :| p in pieces && p == names[k];
      }
    }
  }

  lemma {:induction false} IndexOfAbsent(s: string, c: char)
    requires c !in s
    ensures IndexOf(s, c) == -1
    decreases |s|
  {
    if s != [] {
      IndexOfAbsent(s[1..], c);
    }
  }

  lemma SplitWithoutSeparator(s: string, sep: char)
    requires sep !in s
    ensures Split(s, sep) == [s]
  {
    IndexOfAbsent(s, sep);
  }

  lemma SplitAtFirstSeparator(s: string, sep: char, k: nat)
    requires k < |s| && s[k] == sep
    requires forall j | 0 <= j < k :: s[j] != sep
    ensures Split(s, sep) == [s[..k]] + Split(s[k + 1..], sep)
  {
    IndexOfFirst(s, sep);
  }

  /** A selector with no `.` names no class (`slice(-1)` keeps at most its
      last character, which `slice(1)` then drops). */
  lemma SelectorWithoutClass(selector: string)
    requires '.' !in selector
    ensures ClassNamesOf(selector) == []
  {
    IndexOfAbsent(selector, '.');
    var rest := Slice(ClassPart(selector), 1);
    assert rest == [];
    assert Split(rest, '.') == [[]];
  }

  lemma IframeSplit()
    ensures Split("test2.iframe", '.') == ["test2", "iframe"]
  {
    assert '.' !in "iframe";
    SplitWithoutSeparator("iframe", '.');
    SplitAtFirstSeparator("test2.iframe", '.', 5);
    assert "test2.iframe"[..5] == "test2" && "test2.iframe"[6..] == "iframe";
  }

  lemma IframePieces()
    ensures SelectorPieces(".test2.iframe") == ["test2", "iframe"]
  {
    assert Slice(".test2.iframe", 1) == "test2.iframe";
    IframeSplit();
  }

  lemma DivSplit()
    ensures Split("div1.div2", '.') == ["div1", "div2"]
  {
    assert '.' !in "div2";
    SplitWithoutSeparator("div2", '.');
    SplitAtFirstSeparator("div1.div2", '.', 4);
    assert "div1.div2"[..4] == "div1" && "div1.div2"[5..] == "div2";
  }

  lemma DivPieces()
    ensures SelectorPieces("div.div1.div2") == ["div1", "div2"]
  {
    assert IndexOf("div.div1.div2", '.') == 3;
    assert Slice(Slice("div.div1.div2", 3), 1) == "div1.div2";
    DivSplit();
  }

  lemma PairKept(a: string, b: string)
    requires a != [] && b != []
    ensures NonEmpty([a, b]) == [a, b]
  {
    NonEmptyKeepsBare([a, b]);
  }

  /* The worked example of the documentation comment, selector by selector
     (its last selector, `#tag`, is covered by `SelectorWithoutClass`). */

  lemma ExampleSingleClass()
    ensures ClassNamesOf(".test") == ["test"]
  {
  }

  lemma ExampleTwoClasses()
    ensures ClassNamesOf(".test2.iframe") == ["test2", "iframe"]
  {
    IframePieces();
    PairKept("test2", "iframe");
  }

  lemma HidePieces()
    ensures SelectorPieces("#nide.hide") == ["hide"]
  {
  }

  lemma ExampleIdThenClass()
    ensures ClassNamesOf("#nide.hide") == ["hide"]
  {
    HidePieces();
    assert NonEmpty(["hide"]) == ["hide"];
  }

  lemma ExampleTagThenClasses()
    ensures ClassNamesOf("div.div1.div2") == ["div1", "div2"]
  {
    DivPieces();
    PairKept("div1", "div2");
  }

  /** The class list the mutation observer matches selection overlays against. */
  lemma SelectionOverlayClassList()
    ensures ClassList(Selectors.KixSelectionOverlay) == ["kix-selection-overlay"]
  {
    assert '.' !in "kix-selection-overlay";
    IndexOfAbsent("kix-selection-overlay", '.');
  }
}
