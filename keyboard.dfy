/** Synthetic keyboard input: `createKeyboardEvent`, `keypress`, `keydown`
    and the `pressOn` keys. Dispatching an event is modelled as appending
    it to a log. */
module KeyEvents {
  import opened Base

  datatype EventKind = Keypress | Keydown

  /** The modifier options a key press may pass (`ctrlKey`, `shiftKey`). */
  datatype Modifiers = Modifiers(ctrlKey: bool, shiftKey: bool)

  const NoModifiers := Modifiers(false, false)
  const Ctrl := Modifiers(true, false)
  const Shift := Modifiers(false, true)
  const CtrlShift := Modifiers(true, true)

  /** The fields of a dispatched `KeyboardEvent` that the library sets and
      that vary; `charCode` and `which` always equal `keyCode`. */
  datatype KeyEvent = KeyEvent(
    kind: EventKind,
    key: string,
    code: string,
    keyCode: Option<int>,
    ctrlKey: bool,
    shiftKey: bool)

  /** `key.codePointAt(0)`: undefined for the empty string. */
  function CodePointAt0(key: string): Option<int> {
    if key == [] then None else Some(key[0] as int)
  }

  /** `createKeyboardEvent`: a missing `code` becomes `"Key"` followed by the
      upper-cased key, a missing `keyCode` the key's first code point;
      `toUpper` stands for `String.prototype.toUpperCase`. */
  function CreateKeyboardEvent(kind: EventKind, key: string, code: Option<string>, keyCode: Option<int>,
                               options: Modifiers, toUpper: string -> string): KeyEvent
  {
    var code := if code.None? then "Key" + toUpper(key) else code.value;
    var keyCode := if keyCode.None? then CodePointAt0(key) else keyCode;
    KeyEvent(kind, key, code, keyCode, options.ctrlKey, options.shiftKey)
  }

  /** The keys of `pressOn`. */
  datatype Key =
    | Character(c: char, mods: Modifiers)
    | Backspace(ctrl: bool)
    | Tab
    | Enter
    | Space
    | End(mods: Modifiers)
    | Home(mods: Modifiers)
    | ArrowLeft(mods: Modifiers)
    | ArrowUp(mods: Modifiers)
    | ArrowRight(mods: Modifiers)
    | ArrowDown(mods: Modifiers)
    | Delete(ctrl: bool)

  /** The event each key dispatches: a plain character is a `keypress`
      (Google Docs reads those as typing), a modified character and every
      named key except Space a `keydown`. */
  function PressEvent(k: Key, toUpper: string -> string): (e: KeyEvent)
    ensures e.kind == Keypress <==> k.Space? || (k.Character? && k.mods == NoModifiers)
    ensures e.kind == Keypress ==> !e.ctrlKey && !e.shiftKey
    ensures k.Character? ==> e.key == [k.c] && e.keyCode == Some(k.c as int) && e.code == "Key" + toUpper([k.c])
    ensures k.Character? ==> e.ctrlKey == k.mods.ctrlKey && e.shiftKey == k.mods.shiftKey
    ensures !k.Character? ==> e.keyCode.Some?
  {
    match k
    case Character(c, mods) =>
      if mods.ctrlKey || mods.shiftKey then CreateKeyboardEvent(Keydown, [c], None, None, mods, toUpper)
      else CreateKeyboardEvent(Keypress, [c], None, None, NoModifiers, toUpper)
    case Backspace(ctrl) => CreateKeyboardEvent(Keydown, "Backspace", Some("Backspace"), Some(8), Modifiers(ctrl, false), toUpper)
    case Tab => CreateKeyboardEvent(Keydown, "Tab", Some("Tab"), Some(9), NoModifiers, toUpper)
    case Enter => CreateKeyboardEvent(Keydown, "Enter", Some("Enter"), Some(13), NoModifiers, toUpper)
    case Space => CreateKeyboardEvent(Keypress, " ", Some("Space"), Some(32), NoModifiers, toUpper)
    case End(mods) => CreateKeyboardEvent(Keydown, "End", Some("End"), Some(35), mods, toUpper)
    case Home(mods) => CreateKeyboardEvent(Keydown, "Home", Some("Home"), Some(36), mods, toUpper)
    case ArrowLeft(mods) => CreateKeyboardEvent(Keydown, "ArrowLeft", Some("ArrowLeft"), Some(37), mods, toUpper)
    case ArrowUp(mods) => CreateKeyboardEvent(Keydown, "ArrowUp", Some("ArrowUp"), Some(38), mods, toUpper)
    case ArrowRight(mods) => CreateKeyboardEvent(Keydown, "ArrowRight", Some("ArrowRight"), Some(39), mods, toUpper)
    case ArrowDown(mods) => CreateKeyboardEvent(Keydown, "ArrowDown", Some("ArrowDown"), Some(40), mods, toUpper)
    case Delete(ctrl) => CreateKeyboardEvent(Keydown, "Delete", Some("Delete"), Some(46), Modifiers(ctrl, false), toUpper)
  }

  /** Reads back which key an event stands for. */
  function KeyOfEvent(e: KeyEvent): Option<Key> {
    var mods := Modifiers(e.ctrlKey, e.shiftKey);
    if e.kind == Keypress then
      if e.code == "Space" then Some(Space)
      else if |e.key| == 1 then Some(Character(e.key[0], NoModifiers))
      else None
    else if |e.key| == 1 then Some(Character(e.key[0], mods))
    else if e.key == "Backspace" then Some(Backspace(e.ctrlKey))
    else if e.key == "Tab" then Some(Tab)
    else if e.key == "Enter" then Some(Enter)
    else if e.key == "End" then Some(End(mods))
    else if e.key == "Home" then Some(Home(mods))
    else if e.key == "ArrowLeft" then Some(ArrowLeft(mods))
    else if e.key == "ArrowUp" then Some(ArrowUp(mods))
    else if e.key == "ArrowRight" then Some(ArrowRight(mods))
    else if e.key == "ArrowDown" then Some(ArrowDown(mods))
    else if e.key == "Delete" then Some(Delete(e.ctrlKey))
    else None
  }

  /** The dispatched event identifies the key pressed, whatever the case
      mapping does: no two keys dispatch the same event. */
  lemma PressEventDecodes(k: Key, toUpper: string -> string)
    ensures KeyOfEvent(PressEvent(k, toUpper)) == Some(k)
  {
    var e := PressEvent(k, toUpper);
    match k
    case Character(c, mods) =>
      if e.kind == Keypress {
        assert e.code[0] == 'K';
      }
    case Backspace(ctrl) =>
      assert |e.key| == 9;
    case Tab =>
      assert |e.key| == 3;
    case Enter =>
      assert |e.key| == 5;
    case Space =>
    case End(mods) =>
      assert |e.key| == 3 && e.key != "Tab";
    case Home(mods) =>
      assert |e.key| == 4;
    case ArrowLeft(mods) =>
      assert |e.key| == 9 && e.key != "Backspace";
    case ArrowUp(mods) =>
      assert |e.key| == 7;
    case ArrowRight(mods) =>
      assert |e.key| == 10;
    case ArrowDown(mods) =>
      assert |e.key| == 9 && e.key != "Backspace" && e.key != "ArrowLeft";
    case Delete(ctrl) =>
      assert |e.key| == 6;
  }

  /** A Ctrl shortcut on a letter, as `Undo`, `Redo`, `PrintDialog`, `Bold`,
      `Italic`, `Underline` and `select.All` press it. */
  function Shortcut(c: char): Key {
    Character(c, Ctrl)
  }

  const Undo := Shortcut('z')
  const Redo := Shortcut('y')
  const PrintDialog := Shortcut('p')
  const Bold := Shortcut('b')
  const Italic := Shortcut('i')
  const Underline := Shortcut('u')

  /** A shortcut is a Ctrl `keydown` whose key code is the code point of
      the lower-case letter (not the upper-case virtual key code). */
  lemma ShortcutEvent(c: char, toUpper: string -> string)
    ensures var e := PressEvent(Shortcut(c), toUpper);
      && e.kind == Keydown && e.ctrlKey && !e.shiftKey
      && e.key == [c] && e.keyCode == Some(c as int)
    ensures PressEvent(Undo, toUpper).keyCode == Some(122)
  {
  }

  /** The events `type` dispatches for `text`: one plain character press
      per character. */
  function TypedEvents(text: string, toUpper: string -> string): (events: seq<KeyEvent>)
    ensures |events| == |text|
  {
    seq(|text|, i requires 0 <= i < |text| => PressEvent(Character(text[i], NoModifiers), toUpper))
  }

  /** The text a sequence of plain character presses types. */
  function TypedText(events: seq<KeyEvent>): string
    decreases |events|
  {
    if events == [] then []
    else
      var rest := TypedText(events[1..]);
      match KeyOfEvent(events[0])
      case Some(Character(c, _)) => [c] + rest
      case Some(Space) => " " + rest
      case _ => rest
  }

  /** Typing a text and reading the typed characters back gives the text. */
  lemma {:induction false} TypeRoundTrip(text: string, toUpper: string -> string)
    ensures TypedText(TypedEvents(text, toUpper)) == text
    decreases |text|
  {
    if text != [] {
      var events := TypedEvents(text, toUpper);
      assert events[1..] == TypedEvents(text[1..], toUpper);
      TypeRoundTrip(text[1..], toUpper);
      PressEventDecodes(Character(text[0], NoModifiers), toUpper);
      assert text == [text[0]] + text[1..];
    }
  }
}
