/** The command layer over `pressOn`: typing, focusing the document and the
    `moveCursorTo`, `remove` and `select` wrappers, on a keyboard whose
    dispatched events are kept in a log. */
module Input {
  import opened Base
  import opened Geometry
  import opened KeyEvents
  import SelectionExtractor

  /** The twelve cursor motions shared by `moveCursorTo` and `select` (the
      latter names the last four `TextBetweenCursorAnd…`). */
  datatype Motion =
    | PrevCharacter | NextCharacter
    | PrevLine | NextLine
    | PrevWord | NextWord
    | PrevParagraph | NextParagraph
    | LineStart | LineEnd
    | DocumentStart | DocumentEnd

  /** The key each `moveCursorTo` function presses. */
  function MoveKey(mo: Motion): Key {
    match mo
    case PrevCharacter => ArrowLeft(NoModifiers)
    case NextCharacter => ArrowRight(NoModifiers)
    case PrevLine => ArrowUp(NoModifiers)
    case NextLine => ArrowDown(NoModifiers)
    case PrevWord => ArrowLeft(Ctrl)
    case NextWord => ArrowRight(Ctrl)
    case PrevParagraph => ArrowUp(Ctrl)
    case NextParagraph => ArrowDown(Ctrl)
    case LineStart => Home(NoModifiers)
    case LineEnd => End(NoModifiers)
    case DocumentStart => Home(Ctrl)
    case DocumentEnd => End(Ctrl)
  }

  /** The key each `select` function (other than `All`) presses. */
  function SelectKey(mo: Motion): Key {
    match mo
    case PrevCharacter => ArrowLeft(Shift)
    case NextCharacter => ArrowRight(Shift)
    case PrevWord => ArrowLeft(CtrlShift)
    case NextWord => ArrowRight(CtrlShift)
    case PrevLine => ArrowUp(Shift)
    case NextLine => ArrowDown(Shift)
    case PrevParagraph => ArrowUp(CtrlShift)
    case NextParagraph => ArrowDown(CtrlShift)
    case LineStart => Home(Shift)
    case LineEnd => End(Shift)
    case DocumentStart => Home(CtrlShift)
    case DocumentEnd => End(CtrlShift)
  }

  /** `moveCursorTo.LineStart` and `LineEnd` focus the document first. */
  predicate MoveNeedsFocus(mo: Motion) {
    mo == LineStart || mo == LineEnd
  }

  /** `select` focuses first for lines and line ends. */
  predicate SelectNeedsFocus(mo: Motion) {
    mo == PrevLine || mo == NextLine || mo == LineStart || mo == LineEnd
  }

  /** The same key with Shift held. */
  function WithShift(k: Key): Key {
    match k
    case Character(c, mods) => Character(c, mods.(shiftKey := true))
    case End(mods) => End(mods.(shiftKey := true))
    case Home(mods) => Home(mods.(shiftKey := true))
    case ArrowLeft(mods) => ArrowLeft(mods.(shiftKey := true))
    case ArrowUp(mods) => ArrowUp(mods.(shiftKey := true))
    case ArrowRight(mods) => ArrowRight(mods.(shiftKey := true))
    case ArrowDown(mods) => ArrowDown(mods.(shiftKey := true))
    case _ => k
  }

  /** Every `select` command presses the key of the matching cursor move
      with Shift held, and the cursor moves never hold Shift; selecting
      focuses whenever moving does. */
  lemma SelectExtendsMove(mo: Motion, toUpper: string -> string)
    ensures SelectKey(mo) == WithShift(MoveKey(mo))
    ensures PressEvent(SelectKey(mo), toUpper).shiftKey
    ensures !PressEvent(MoveKey(mo), toUpper).shiftKey
    ensures PressEvent(SelectKey(mo), toUpper).ctrlKey == PressEvent(MoveKey(mo), toUpper).ctrlKey
    ensures MoveNeedsFocus(mo) ==> SelectNeedsFocus(mo)
  {
  }

  /** The events `focusDocument` dispatches when the document is inactive:
      a `?` to gain focus, then Undo to restore a selection that typing
      replaced, or Backspace to erase the `?`. */
  function FocusEvents(textSelected: bool, toUpper: string -> string): (events: seq<KeyEvent>)
    ensures |events| == 2
    ensures events[0].kind == Keypress && events[0].key == "?"
    ensures events[1].kind == Keydown && events[1].ctrlKey
      <==> textSelected
    ensures KeyOfEvent(events[0]) == Some(Character('?', NoModifiers))
    ensures KeyOfEvent(events[1]) == Some(if textSelected then Undo else Backspace(false))
  {
    PressEventDecodes(Character('?', NoModifiers), toUpper);
    PressEventDecodes(if textSelected then Undo else Backspace(false), toUpper);
    [PressEvent(Character('?', NoModifiers), toUpper),
     PressEvent(if textSelected then Undo else Backspace(false), toUpper)]
  }

  /** Keypress events never carry modifiers. */
  predicate PlainKeypresses(log: seq<KeyEvent>) {
    forall i | 0 <= i < |log| :: log[i].kind == Keypress ==> !log[i].ctrlKey && !log[i].shiftKey
  }

  lemma PlainKeypressesAppend(a: seq<KeyEvent>, b: seq<KeyEvent>)
    requires PlainKeypresses(a) && PlainKeypresses(b)
    ensures PlainKeypresses(a + b)
  {
  }

  lemma PressEventPlain(k: Key, toUpper: string -> string)
    ensures PlainKeypresses([PressEvent(k, toUpper)])
  {
  }

  class Keyboard {
    /** `String.prototype.toUpperCase`, used for default event codes. */
    const toUpper: string -> string
    /** Every event dispatched to the text event target, in order. */
    var log: seq<KeyEvent>

    ghost predicate Valid()
      reads this
    {
      PlainKeypresses(log)
    }

    constructor(toUpper: string -> string)
      ensures this.toUpper == toUpper && log == [] && Valid()
    {
      this.toUpper := toUpper;
      log := [];
    }

    /** `keypress` / `keydown` for one `pressOn` key: the event is dispatched
        to the text event target. */
    method PressOn(k: Key)
      requires Valid()
      modifies this
      ensures Valid()
      ensures log == old(log) + [PressEvent(k, toUpper)]
    {
      PressEventPlain(k, toUpper);
      PlainKeypressesAppend(log, [PressEvent(k, toUpper)]);
      log := log + [PressEvent(k, toUpper)];
    }

    /** `type`: one plain character press per character. */
    method Type(text: string)
      requires Valid()
      modifies this
      ensures Valid()
      ensures log == old(log) + TypedEvents(text, toUpper)
    {
      for i := 0 to |text|
        invariant Valid()
        invariant log == old(log) + TypedEvents(text[..i], toUpper)
      {
        PressOn(Character(text[i], NoModifiers));
        assert TypedEvents(text[..i + 1], toUpper) == TypedEvents(text[..i], toUpper) + [PressEvent(Character(text[i], NoModifiers), toUpper)];
      }
      assert text[..|text|] == text;
    }

    /** `typeText`, which only calls `type`. */
    method TypeText(text: string)
      requires Valid()
      modifies this
      ensures Valid()
      ensures log == old(log) + TypedEvents(text, toUpper)
    {
      Type(text);
    }

    /** `focusDocument`: nothing when the document is already active (the
        active cursor is shown), otherwise the focus sequence; the result
        says whether anything was dispatched. */
    method FocusDocument(documentActive: bool, overlays: seq<Option<Rect>>) returns (performed: bool)
      requires Valid()
      modifies this
      ensures Valid()
      ensures performed == !documentActive
      ensures log == old(log) + (if documentActive then [] else FocusEvents(SelectionExtractor.IsTextSelected(overlays), toUpper))
    {
      if documentActive {
        return false;
      }
      var textSelected := SelectionExtractor.IsTextSelected(overlays);
      PressOn(Character('?', NoModifiers));
      if textSelected {
        PressOn(Undo);
      } else {
        PressOn(Backspace(false));
      }
      return true;
    }

    /** A `moveCursorTo` function. */
    method MoveCursorTo(mo: Motion, documentActive: bool, overlays: seq<Option<Rect>>)
      requires Valid()
      modifies this
      ensures Valid()
      ensures log == old(log)
        + (if MoveNeedsFocus(mo) && !documentActive then FocusEvents(SelectionExtractor.IsTextSelected(overlays), toUpper) else [])
        + [PressEvent(MoveKey(mo), toUpper)]
    {
      if MoveNeedsFocus(mo) {
        var _ := FocusDocument(documentActive, overlays);
      }
      PressOn(MoveKey(mo));
    }

    /** A `select` function other than `All`. */
    method Select(mo: Motion, documentActive: bool, overlays: seq<Option<Rect>>)
      requires Valid()
      modifies this
      ensures Valid()
      ensures log == old(log)
        + (if SelectNeedsFocus(mo) && !documentActive then FocusEvents(SelectionExtractor.IsTextSelected(overlays), toUpper) else [])
        + [PressEvent(SelectKey(mo), toUpper)]
    {
      if SelectNeedsFocus(mo) {
        var _ := FocusDocument(documentActive, overlays);
      }
      PressOn(SelectKey(mo));
    }

    /** `select.All`: Ctrl+A. */
    method SelectAll()
      requires Valid()
      modifies this
      ensures Valid()
      ensures log == old(log) + [PressEvent(Shortcut('a'), toUpper)]
    {
      PressOn(Shortcut('a'));
    }

    /** `remove.PrevWord`: Ctrl+Backspace. */
    method RemovePrevWord()
      requires Valid()
      modifies this
      ensures Valid()
      ensures log == old(log) + [PressEvent(Backspace(true), toUpper)]
    {
      PressOn(Backspace(true));
    }

    /** `remove.NextWord`: Ctrl+Delete. */
    method RemoveNextWord()
      requires Valid()
      modifies this
      ensures Valid()
      ensures log == old(log) + [PressEvent(Delete(true), toUpper)]
    {
      PressOn(Delete(true));
    }

    /** `remove.Selection`: Delete, only when some text is selected. */
    method RemoveSelection(overlays: seq<Option<Rect>>) returns (removed: bool)
      requires Valid()
      modifies this
      ensures Valid()
      ensures removed == SelectionExtractor.IsTextSelected(overlays)
      ensures log == old(log) + (if removed then [PressEvent(Delete(false), toUpper)] else [])
    {
      if !SelectionExtractor.IsTextSelected(overlays) {
        return false;
      }
      PressOn(Delete(false));
      return true;
    }
  }
}
