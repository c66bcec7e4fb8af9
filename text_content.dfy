/** Cleaning of `textContent` strings, line trimming and JavaScript's
    `substring`, and the line-text queries built on them. */
module TextContent {
  import opened Base

  const ZWNJ: char := '\U{200C}'
  const NBSP: char := '\U{00A0}'

  /** `value.replace(/c/g, '')`: every occurrence of `c` removed. */
  function RemoveAll(s: string, c: char): (r: string)
    ensures c !in r
    ensures forall x :: x in r <==> x in s && x != c
    ensures |r| <= |s|
    decreases |s|
  {
    if s == [] then []
    else (if s[0] == c then [] else [s[0]]) + RemoveAll(s[1..], c)
  }

  lemma {:induction false} RemoveAllAppend(a: string, b: string, c: char)
    ensures RemoveAll(a + b, c) == RemoveAll(a, c) + RemoveAll(b, c)
    decreases |a|
  {
    if a == [] {
      assert a + b == b;
    } else {
      assert (a + b)[1..] == a[1..] + b;
      RemoveAllAppend(a[1..], b, c);
    }
  }

  lemma {:induction false} RemoveAllAbsent(s: string, c: char)
    requires c !in s
    ensures RemoveAll(s, c) == s
    decreases |s|
  {
    if s != [] {
      RemoveAllAbsent(s[1..], c);
      assert [s[0]] + s[1..] == s;
    }
  }

  function RemoveZWNJ(value: string): (r: string)
    ensures forall x :: x in r <==> x in value && x != ZWNJ
  {
    RemoveAll(value, ZWNJ)
  }

  function RemoveNBSP(value: string): (r: string)
    ensures forall x :: x in r <==> x in value && x != NBSP
  {
    RemoveAll(value, NBSP)
  }

  /** `clearTextContent`: the invisible joiners and no-break spaces the
      editor inserts are stripped; every other character is kept. */
  function ClearTextContent(textContent: string): (r: string)
    ensures ZWNJ !in r && NBSP !in r
    ensures forall x :: x in r <==> x in textContent && x != ZWNJ && x != NBSP
    ensures |r| <= |textContent|
  {
    RemoveNBSP(RemoveZWNJ(textContent))
  }

  /** Cleaning is idempotent, works piece by piece, and leaves clean text alone. */
  lemma ClearTextContentProperties(a: string, b: string)
    ensures ClearTextContent(ClearTextContent(a)) == ClearTextContent(a)
    ensures ClearTextContent(a + b) == ClearTextContent(a) + ClearTextContent(b)
    ensures ZWNJ !in a && NBSP !in a ==> ClearTextContent(a) == a
  {
    RemoveAllAbsent(ClearTextContent(a), ZWNJ);
    RemoveAllAbsent(ClearTextContent(a), NBSP);
    RemoveAllAppend(a, b, ZWNJ);
    RemoveAllAppend(RemoveAll(a, ZWNJ), RemoveAll(b, ZWNJ), NBSP);
    if ZWNJ !in a && NBSP !in a {
      RemoveAllAbsent(a, ZWNJ);
      RemoveAllAbsent(a, NBSP);
    }
  }

  /** The characters `String.prototype.trim` removes: ECMAScript WhiteSpace
      (tab, VT, FF, space, NBSP, ZWNBSP and the other Zs characters) and
      LineTerminator (LF, CR, LS, PS). */
  predicate IsTrimmable(c: char) {
    c == '\t' || c == '\U{000B}' || c == '\U{000C}' || c == ' ' || c == '\U{00A0}'
    || c == '\U{FEFF}' || c == '\U{1680}' || ('\U{2000}' <= c <= '\U{200A}')
    || c == '\U{202F}' || c == '\U{205F}' || c == '\U{3000}'
    || c == '\n' || c == '\r' || c == '\U{2028}' || c == '\U{2029}'
  }

  /** Index of the first character that is not trimmed. */
  function TrimStartIndex(s: string): (i: nat)
    ensures i <= |s|
    ensures forall k | 0 <= k < i :: IsTrimmable(s[k])
    ensures i < |s| ==> !IsTrimmable(s[i])
    decreases |s|
  {
    if s == [] || !IsTrimmable(s[0]) then 0 else 1 + TrimStartIndex(s[1..])
  }

  /** Index just past the last character that is not trimmed. */
  function TrimEndIndex(s: string): (j: nat)
    ensures j <= |s|
    ensures forall k | j <= k < |s| :: IsTrimmable(s[k])
    ensures j > 0 ==> !IsTrimmable(s[j - 1])
    decreases |s|
  {
    if s == [] || !IsTrimmable(s[|s| - 1]) then |s| else TrimEndIndex(s[..|s| - 1])
  }

  /** `clearLineText`, i.e. `value.trim()`: the longest slice of `value`
      that neither starts nor ends with a trimmed character, everything cut
      off on either side being trimmable. */
  function ClearLineText(value: string): (r: string)
    ensures r == [] || (!IsTrimmable(r[0]) && !IsTrimmable(r[|r| - 1]))
    ensures exists i, j :: (0 <= i <= j <= |value| && r == value[i..j]
      && (forall k | 0 <= k < i :: IsTrimmable(value[k]))
      && (forall k | j <= k < |value| :: IsTrimmable(value[k])))
  {
    var i := TrimStartIndex(value);
    var j := TrimEndIndex(value);
    if i < j then
      value[i..j]
    else
      assert forall k | 0 <= k < |value| :: IsTrimmable(value[k]);
      assert [] == value[0..0];
      []
  }

  lemma ClearLineTextIdempotent(value: string)
    ensures ClearLineText(ClearLineText(value)) == ClearLineText(value)
  {
    var r := ClearLineText(value);
    if r != [] {
      assert TrimStartIndex(r) == 0;
      assert TrimEndIndex(r) == |r|;
      assert r[0..|r|] == r;
    }
  }

  /** JavaScript's argument clamping for `substring`. */
  function Clamp(x: int, len: nat): nat {
    if x < 0 then 0 else if x > len then len else x
  }

  /** `s.substring(a, b)`: both ends clamped to the string, swapped when
      given in the wrong order. */
  function Substring(s: string, a: int, b: int): (r: string)
    ensures 0 <= a <= b <= |s| ==> r == s[a..b]
    ensures |r| <= |s|
  {
    var x := Clamp(a, |s|);
    var y := Clamp(b, |s|);
    if x <= y then s[x..y] else s[y..x]
  }

  lemma SubstringProperties(s: string, a: int, b: int)
    ensures Substring(s, a, b) == Substring(s, b, a)
    ensures Substring(s, 0, |s|) == s
    ensures a < 0 ==> Substring(s, a, b) == Substring(s, 0, b)
    ensures b > |s| ==> Substring(s, a, b) == Substring(s, a, |s|)
  {
  }

  /** The text of one line: the content of its text block cleaned and
      trimmed. */
  function LineText(textContent: string): string {
    ClearLineText(ClearTextContent(textContent))
  }

  /** `getLinesText`: each line's text block content (`None` when the line
      has no text block, whose `textContent` read throws), cleaned and trimmed. */
  method GetLinesText(blocks: seq<Option<string>>) returns (r: Result<seq<string>>)
    ensures r.Err? <==> exists i | 0 <= i < |blocks| :: blocks[i].None?
    ensures r.Err? ==> r.error == NullDereference
    ensures r.Ok? ==> (|r.value| == |blocks|
      && forall i | 0 <= i < |blocks| :: r.value[i] == LineText(blocks[i].value))
  {
    var result: seq<string> := [];
    for i := 0 to |blocks|
      invariant |result| == i
      invariant forall k | 0 <= k < i :: blocks[k].Some? && result[k] == LineText(blocks[k].value)
    {
      if blocks[i].None? {
        return Err(NullDereference);
      }
      var value := blocks[i].value;
      value := ClearTextContent(value);
      value := ClearLineText(value);
      result := result + [value];
    }
    return Ok(result);
  }

  /** A line's text never carries invisible characters nor surrounding white space. */
  lemma LineTextIsClean(textContent: string)
    ensures ZWNJ !in LineText(textContent)
    ensures var t := LineText(textContent); t == [] || (!IsTrimmable(t[0]) && !IsTrimmable(t[|t| - 1]))
  {
    var c := ClearTextContent(textContent);
    var t := ClearLineText(c);
    var i, j :| 0 <= i <= j <= |c| && t == c[i..j];
    assert forall x | x in t :: x in c;
  }

  /** `getLineText(lineIndex, startIndex, endIndex)`: `None` for a line past
      the end; a negative index reads `undefined` and its `substring` throws. */
  method GetLineText(blocks: seq<Option<string>>, lineIndex: int, startIndex: Option<int>, endIndex: Option<int>)
    returns (r: Result<Option<string>>)
    ensures (exists i | 0 <= i < |blocks| :: blocks[i].None?) ==> r == Err(NullDereference)
    ensures (forall i | 0 <= i < |blocks| :: blocks[i].Some?) ==>
      if lineIndex >= |blocks| then r == Ok(None)
      else if lineIndex < 0 then r == Err(NullDereference)
      else
        var text := LineText(blocks[lineIndex].value);
        r == Ok(Some(Substring(text,
                               if startIndex.None? then 0 else startIndex.value,
                               if endIndex.None? then |text| else endIndex.value)))
  {
    var linesText := GetLinesText(blocks);
    if linesText.Err? {
      return Err(linesText.error);
    }
    var lines := linesText.value;
    if lineIndex >= |lines| {
      return Ok(None);
    }
    if lineIndex < 0 {
      return Err(NullDereference);
    }
    var text := lines[lineIndex];
    var start := if startIndex.None? then 0 else startIndex.value;
    var end := if endIndex.None? then |text| else endIndex.value;
    return Ok(Some(Substring(text, start, end)));
  }
}
