/** The editor's selector fallback lists and the lookups that try them in
    order of priority. */
module Selectors {
  import opened Base

  const DocsEditorContainer: seq<string> := ["#docs-editor-container"]
  const DocsEditor: seq<string> := ["#docs-editor"] + DocsEditorContainer
  const TextEventTarget: seq<string> := ["iframe.docs-texteventtarget-iframe", ".docs-texteventtarget-iframe"]
  const KixPage: seq<string> := [".kix-page", ".docs-page"]
  const KixLine: seq<string> := [".kix-lineview", ".kix-paragraphrenderer"]
  const KixLineText: seq<string> := [".kix-lineview-text-block"]
  const KixWordNode: seq<string> := [".kix-wordhtmlgenerator-word-node"]
  const KixSelectionOverlay: seq<string> := [".kix-selection-overlay"]
  const KixCursor: seq<string> := [".kix-cursor"]
  const KixActiveCursor: seq<string> := [".docs-text-ui-cursor-blink"]
  const KixCursorCaret: seq<string> := [".kix-cursor-caret"]

  /** Elements are known by identity only. */
  type ElementId = nat

  /** A snapshot of the page: `query(root, selector)` is what
      `root.querySelectorAll(selector)` returns, in document order;
      `root.querySelector(selector)` is its first element. */
  type Query = (ElementId, string) -> seq<ElementId>

  /** Selector `i` is the first of `selectors` that matches anything under `root`. */
  ghost predicate FirstMatching(query: Query, root: ElementId, selectors: seq<string>, i: nat) {
    i < |selectors| && query(root, selectors[i]) != []
    && forall j | 0 <= j < i :: query(root, selectors[j]) == []
  }

  /** `querySelector(selectors, root)`: the first element of the first
      selector that matches; `null` when none does; throws on a null root. */
  method QuerySelector(query: Query, selectors: seq<string>, root: Option<ElementId>)
    returns (r: Result<Option<ElementId>>)
    ensures r.Err? <==> root.None?
    ensures r.Err? ==> r.error == MissingRoot
    ensures r.Ok? ==> (r.value.None? <==> forall i | 0 <= i < |selectors| :: query(root.value, selectors[i]) == [])
    ensures r.Ok? && r.value.Some? ==>
      exists i: nat :: FirstMatching(query, root.value, selectors, i) && r.value.value == query(root.value, selectors[i])[0]
  {
    if root.None? {
      return Err(MissingRoot);
    }
    var value: Option<ElementId> := None;
    var i := 0;
    while i < |selectors|
      invariant 0 <= i <= |selectors|
      invariant value.None?
      invariant forall j | 0 <= j < i :: query(root.value, selectors[j]) == []
    {
      var found := query(root.value, selectors[i]);
      value := if found == [] then None else Some(found[0]);
      if value.Some? {
        assert FirstMatching(query, root.value, selectors, i);
        break;
      }
      i := i + 1;
    }
    return Ok(value);
  }

  /** `querySelectorAll(selectors, root)`: every element of the first
      selector that matches; empty when none does; throws on a null root. */
  method QuerySelectorAll(query: Query, selectors: seq<string>, root: Option<ElementId>)
    returns (r: Result<seq<ElementId>>)
    ensures r.Err? <==> root.None?
    ensures r.Err? ==> r.error == MissingRoot
    ensures r.Ok? ==> (r.value == [] <==> forall i | 0 <= i < |selectors| :: query(root.value, selectors[i]) == [])
    ensures r.Ok? && r.value != [] ==>
      exists i: nat :: FirstMatching(query, root.value, selectors, i) && r.value == query(root.value, selectors[i])
  {
    if root.None? {
      return Err(MissingRoot);
    }
    var value: Option<seq<ElementId>> := None;
    var i := 0;
    while i < |selectors|
      invariant 0 <= i <= |selectors|
      invariant value.None? || value.value == []
      invariant i > 0 ==> value.Some?
      invariant forall j | 0 <= j < i :: query(root.value, selectors[j]) == []
    {
      value := Some(query(root.value, selectors[i]));
      if |value.value| > 0 {
        assert FirstMatching(query, root.value, selectors, i);
        break;
      }
      i := i + 1;
    }
    if value.Some? {
      return Ok(value.value);
    }
    return Ok([]);
  }

}
