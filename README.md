# google-docs-utils: selection, caret and word boundaries, in Dafny

This project models the core of the bundled `google-docs-utils` library used by the Croc thesaurus extension. That library reads what Google Docs has rendered and derives four things from it:

- the text of each line;
- the selected characters of each word node;
- the word node under the caret, the caret's offset in it and the word around that offset;
- the synthetic keyboard events that drive the editor.

It also runs a small event registry that reports selection changes.

The rendered page is modelled as a snapshot of plain values:

- the selection overlay of every line, a rectangle or none;
- the word nodes of every line, each with its raw `textContent`, its inline CSS and its bounding rectangle;
- the caret rectangle;
- a query function that stands for `root.querySelectorAll(selector)`.

The widths the library measures by rendering a probe `<span>` become a function `Measure` from (CSS, character) to a width. Whether a non-ASCII character has an upper and a lower case is a parameter `hasCase`. `String.prototype.toUpperCase` is a parameter `toUpper`.

The modules follow the library's layout:

| module | file | contents |
|---|---|---|
| `Base` | `base.dfy` | `Option`, `Result` and the error kinds |
| `Geometry` | `geometry.dfy` | rectangles and overlap (`isRectsOverlap`), character widths, word characters (`charIsWordChar`, `charIsOutOfWord`) |
| `Selectors` | `selectors.dfy` | selector fallback lists and `querySelector` / `querySelectorAll` |
| `ClassList` | `class_list.dfy` | `selectorsToClassList` with the JavaScript `indexOf`, `slice`, `split` and `join` it relies on |
| `TextContent` | `text_content.dfy` | `clearTextContent`, `clearLineText` (`trim`), `substring`, `getLinesText`, `getLineText` |
| `WordBoundary` | `word_boundary.dfy` | `getBoundaryIndex` |
| `SelectionExtractor` | `selection.dfy` | `calculateSelectionIndexes`, `getSelection`, `isTextSelected` |
| `CaretLocator` | `caret.dfy` | `getCaret`, `calculatePositionIndex`, `getCaretWord` |
| `KeyEvents` | `keyboard.dfy` | `createKeyboardEvent`, `keypress` / `keydown`, the `pressOn` keys and shortcuts |
| `Input` | `commands.dfy` | `type`, `focusDocument`, `moveCursorTo`, `remove`, `select` on a keyboard whose dispatched events form a log |
| `Events` | `events.dfy` | `EVENT_LISTENERS`, `addEventListener`, `callEventListener`, the mutation callback |

Behaviour modelled as the code does it, where the code and its own documentation differ:

- **The leftward word scan never stops at offset 1.**
  - `getBoundaryIndex` walks left over word characters until it lands on a character outside a word, then steps back one place to exclude it. When the walk reaches offset 0 it stops there and skips the step back, whatever character sits at offset 0.
  - As a result, when a word starts at offset 1, the left boundary is 0 and the separator at offset 0 is included in the word (`WordBoundary.WordAtOffsetOne`).
  - The fourth documented example (source lines 924-931) says that index 1 of `'  one two three'` gives `'one'`. The code gives the indices 1 and 1, and `substring(1, 1)` is the empty string. The indices agree with the example's own comments (`ExampleLeadingSpaces`); the word it claims does not.
- **The caret offset is computed on the raw text but used on the cleaned text.**
  - `getCaret` computes the caret offset over the raw `textContent`, skipping zero-width characters.
  - `getCaretWord` then uses that offset as an index into the cleaned text. The model keeps both steps as written.
- **An unmatched caret crashes `getCaretWord`.**
  - When the caret overlaps no word node, `getCaret` returns a record whose word element is `null`.
  - `getCaretWord` then dereferences it. The model reports this as `Err(NullDereference)`.

## Model

| member | source | states |
|---|---|---|
| Selectors.QuerySelector | croc-thesaurus/google-docs-utils.js:87-106 | Fails exactly when the root is missing. Otherwise returns none exactly when no selector matches; else the first element of the first selector that matches. |
| Selectors.QuerySelectorAll | croc-thesaurus/google-docs-utils.js:127-150 | Fails exactly when the root is missing. Otherwise empty exactly when no selector matches; else all elements of the first selector that matches. |
| Geometry.OverlapIffCommonPoint | croc-thesaurus/google-docs-utils.js:227-234 | For well-formed rectangles, `isRectsOverlap` holds exactly when the two rectangles share a point. |
| Geometry.OverlapSymmetric | croc-thesaurus/google-docs-utils.js:227-234 | The overlap test is symmetric. |
| Geometry.OutOfWordClassification | croc-thesaurus/google-docs-utils.js:1000-1006 | An index outside the text counts as out of word; an ASCII `\w` character never does. |
| Geometry.PrefixWidthMonotone | croc-thesaurus/google-docs-utils.js:664-704 | With non-negative character widths, a longer prefix is at least as wide. |
| ClassList.IndexOf | croc-thesaurus/google-docs-utils.js:301-322 | `indexOf` returns -1 or a position holding the character. |
| ClassList.IndexOfFirst | croc-thesaurus/google-docs-utils.js:301-322 | `indexOf` is -1 exactly when the character is absent; otherwise it is the first occurrence. |
| ClassList.SplitPiecesHaveNoSeparator | croc-thesaurus/google-docs-utils.js:301-322 | No piece produced by `split` contains the separator. |
| ClassList.SplitJoin | croc-thesaurus/google-docs-utils.js:301-322 | Joining the pieces of a split with the separator gives back the string. |
| ClassList.NonEmptyMembers | croc-thesaurus/google-docs-utils.js:301-322 | Dropping empty names keeps exactly the non-empty names as members. |
| ClassList.NonEmptyAppend | croc-thesaurus/google-docs-utils.js:301-322 | The filter keeps order and repetitions: filtering a list split in two is filtering each part and concatenating the results. |
| ClassList.NonEmptyKeepsBare | croc-thesaurus/google-docs-utils.js:301-322 | A list without empty names is unchanged by the filter. |
| ClassList.SelectorsToClassList | croc-thesaurus/google-docs-utils.js:301-322 | The nested loop builds exactly the concatenation, in order, of each selector's non-empty class names. |
| ClassList.ClassListNamesAreBare | croc-thesaurus/google-docs-utils.js:301-322 | Every class name produced is non-empty and contains no dot. |
| ClassList.SelectorWithoutClass | croc-thesaurus/google-docs-utils.js:292-299 | A selector without a dot, such as `#tag`, contributes no class. |
| ClassList.ExampleSingleClass | croc-thesaurus/google-docs-utils.js:292-299 | `.test` gives `test`. |
| ClassList.ExampleTwoClasses | croc-thesaurus/google-docs-utils.js:292-299 | `.test2.iframe` gives `test2`, `iframe`. |
| ClassList.ExampleIdThenClass | croc-thesaurus/google-docs-utils.js:292-299 | `#nide.hide` gives `hide`. |
| ClassList.ExampleTagThenClasses | croc-thesaurus/google-docs-utils.js:292-299 | `div.div1.div2` gives `div1`, `div2`. |
| ClassList.SelectionOverlayClassList | croc-thesaurus/google-docs-utils.js:1946-1948 | The selection-overlay selectors give the single class `kix-selection-overlay`. |
| TextContent.RemoveAll | croc-thesaurus/google-docs-utils.js:421-423 | `replace(/c/g, '')` keeps exactly the other characters, and never lengthens. |
| TextContent.RemoveAllAppend | croc-thesaurus/google-docs-utils.js:421-423 | Removing a character distributes over concatenation. |
| TextContent.RemoveAllAbsent | croc-thesaurus/google-docs-utils.js:421-423 | Removing an absent character changes nothing. |
| TextContent.RemoveZWNJ | croc-thesaurus/google-docs-utils.js:421-423 | The result holds exactly the characters that are not U+200C. |
| TextContent.RemoveNBSP | croc-thesaurus/google-docs-utils.js:433-435 | The result holds exactly the characters that are not U+00A0. |
| TextContent.ClearTextContent | croc-thesaurus/google-docs-utils.js:406-411 | The cleaned text holds neither ZWNJ nor NBSP and keeps every other character. |
| TextContent.ClearTextContentProperties | croc-thesaurus/google-docs-utils.js:406-411 | Cleaning is idempotent, distributes over concatenation, and leaves clean text unchanged. |
| TextContent.TrimStartIndex | croc-thesaurus/google-docs-utils.js:464-466 | The leading run of white space and line terminators. |
| TextContent.TrimEndIndex | croc-thesaurus/google-docs-utils.js:464-466 | The trailing run of white space and line terminators. |
| TextContent.ClearLineText | croc-thesaurus/google-docs-utils.js:464-466 | `trim` returns a slice that neither starts nor ends with white space; everything cut off is white space. |
| TextContent.ClearLineTextIdempotent | croc-thesaurus/google-docs-utils.js:464-466 | Trimming twice is trimming once. |
| TextContent.Substring | croc-thesaurus/google-docs-utils.js:476-498 | For ordered in-range indexes, `substring` is the slice. |
| TextContent.SubstringProperties | croc-thesaurus/google-docs-utils.js:476-498 | `substring` swaps reversed indexes, treats a negative start as 0 and an end above the length as the length; the full range gives the whole string. |
| TextContent.GetLinesText | croc-thesaurus/google-docs-utils.js:443-458 | Fails exactly when some line has no text block. Otherwise gives each line's cleaned, trimmed text, in order. |
| TextContent.LineTextIsClean | croc-thesaurus/google-docs-utils.js:443-458 | A line's text carries no ZWNJ and no surrounding white space. |
| TextContent.GetLineText | croc-thesaurus/google-docs-utils.js:476-498 | Gives `null` past the last line and fails on a negative index. Otherwise gives `substring(start, end)` of the line's text, where start defaults to 0 and end to the text's length. |
| WordBoundary.GetBoundaryIndex | croc-thesaurus/google-docs-utils.js:933-991 | The loop computes the left or right boundary function, whichever direction is asked. |
| WordBoundary.RightBoundarySpec | croc-thesaurus/google-docs-utils.js:933-991 | The right boundary ends the run of word characters starting at the index. |
| WordBoundary.ScanLeftSpec | croc-thesaurus/google-docs-utils.js:933-991 | The left scan from a word character stops at the start of its run, or at 0, and never at 1. |
| WordBoundary.LeftBoundarySpec | croc-thesaurus/google-docs-utils.js:933-991 | The left boundary never passes the index. Between two separators it is the index itself; otherwise it starts the word run reaching the index, or is 0. |
| WordBoundary.BoundariesIdempotent | croc-thesaurus/google-docs-utils.js:933-991 | Searching again from a boundary finds the same boundary. |
| WordBoundary.ExampleInsideWord | croc-thesaurus/google-docs-utils.js:897-904 | `'one two three'` at 5 gives 4 and 7, hence the word `two`. |
| WordBoundary.ExampleAfterWord | croc-thesaurus/google-docs-utils.js:906-913 | `'one two three'` at 3 gives 0 and 3, hence the word `one`. |
| WordBoundary.ExampleBetweenSpaces | croc-thesaurus/google-docs-utils.js:915-922 | `'one  two three'` at 4 gives 4 and 4, hence the empty word. |
| WordBoundary.ExampleLeadingSpaces | croc-thesaurus/google-docs-utils.js:924-931 | `'  one two three'` at 1 gives 1 and 1, hence the empty word, not the documented `one`. |
| WordBoundary.WordAtOffsetOne | croc-thesaurus/google-docs-utils.js:933-991 | A word starting at offset 1 gets left boundary 0. |
| SelectionExtractor.CaretStep | croc-thesaurus/google-docs-utils.js:664-704 | Each step moves the virtual caret by the width of one character. |
| SelectionExtractor.CalculateSelectionIndexes | croc-thesaurus/google-docs-utils.js:664-704 | Returns none when no character's caret lies in `[left, right)` of the overlay. Otherwise starts at the first covered character and ends at the first uncovered one after it, or at the end of the text. |
| SelectionExtractor.SelectionUnique | croc-thesaurus/google-docs-utils.js:664-704 | The selection of a text is determined by the widths and the rectangles. |
| SelectionExtractor.CaretWithinText | croc-thesaurus/google-docs-utils.js:664-704 | With non-negative widths, every caret lies within the width of the text. |
| SelectionExtractor.OverlayBesideText | croc-thesaurus/google-docs-utils.js:664-704 | An overlay left of the text, or beyond its end, selects nothing. |
| SelectionExtractor.OverlayOverText | croc-thesaurus/google-docs-utils.js:664-704 | An overlay spanning a non-empty text selects all of it. |
| SelectionExtractor.GetSelection | croc-thesaurus/google-docs-utils.js:568-643 | Fails exactly when the overlay and line lists differ in length. Otherwise gives `null` for each line without an overlay. Each other line gets one entry per word node: none when nothing is covered, else the selected slice of the cleaned text with its indexes and rectangles. |
| SelectionExtractor.SelectedTextIsClean | croc-thesaurus/google-docs-utils.js:568-643 | Each reported selection is a non-empty slice of the cleaned text, holding neither ZWNJ nor NBSP. |
| SelectionExtractor.IsTextSelected | croc-thesaurus/google-docs-utils.js:1471-1476 | Text is selected exactly when some line has an overlay. |
| SelectionExtractor.SelectedIffSomeLineReported | croc-thesaurus/google-docs-utils.js:1471-1476 | `isTextSelected` holds exactly when `getSelection` reports some line. |
| CaretLocator.CountVisible | croc-thesaurus/google-docs-utils.js:816-839 | The number of visible characters never exceeds the length. |
| CaretLocator.CountVisibleStep | croc-thesaurus/google-docs-utils.js:816-839 | One step adds one visible character, or none for a zero-width character. |
| CaretLocator.CalculatePositionIndex | croc-thesaurus/google-docs-utils.js:816-839 | The virtual caret starts one caret width left of the word. The offset is the number of visible characters before the first visible character whose right edge reaches the caret; it is bounded by the visible count. |
| CaretLocator.CountVisibleMonotone | croc-thesaurus/google-docs-utils.js:816-839 | A prefix has no more visible characters than the whole. |
| CaretLocator.PositionIndexUnique | croc-thesaurus/google-docs-utils.js:816-839 | The caret offset is determined by the inputs. |
| CaretLocator.InvisibleTextGivesZero | croc-thesaurus/google-docs-utils.js:816-839 | A text of zero-width characters puts the caret at offset 0. |
| CaretLocator.InvisibleCountsZero | croc-thesaurus/google-docs-utils.js:816-839 | A text of zero-width characters has no visible character. |
| CaretLocator.GetCaret | croc-thesaurus/google-docs-utils.js:745-799 | Gives `null` exactly without a caret or without lines. Otherwise, when some word node overlaps the caret, gives the first such node in line-major order, with its line index and caret offset; else the unmatched record. |
| CaretLocator.MatchedAt | croc-thesaurus/google-docs-utils.js:745-799 | A matched record points at the first overlapping word node. |
| CaretLocator.FirstOverlapUnique | croc-thesaurus/google-docs-utils.js:745-799 | At most one word node is the first to overlap the caret. |
| CaretLocator.CaretInfoUnique | croc-thesaurus/google-docs-utils.js:745-799 | The caret record is determined by the snapshot. |
| CaretLocator.CaretWordAt | croc-thesaurus/google-docs-utils.js:845-882 | An offset past the end gives the empty word at that offset. Otherwise the word is the slice between the boundaries, which enclose the offset. |
| CaretLocator.CaretWordIsWholeWord | croc-thesaurus/google-docs-utils.js:845-882 | The word found is made of word characters, apart from a separator kept at offset 0, and cannot be extended on either side. |
| CaretLocator.GetCaretWord | croc-thesaurus/google-docs-utils.js:845-882 | Gives `null` exactly without a caret or lines, and fails exactly when no word node overlaps the caret. Otherwise gives the word around the caret offset in the cleaned text of the caret's word node. |
| KeyEvents.PressEvent | croc-thesaurus/google-docs-utils.js:1093-1354 | Space and unmodified characters are `keypress` events without modifiers; all else is `keydown`. Characters carry their own key and code point; every named key carries a key code. |
| KeyEvents.PressEventDecodes | croc-thesaurus/google-docs-utils.js:1144-1354 | Each key's event identifies the key, so no two keys dispatch the same event. |
| KeyEvents.ShortcutEvent | croc-thesaurus/google-docs-utils.js:1364-1414 | A shortcut is a Ctrl `keydown` on the lower-case letter; Undo carries key code 122. |
| KeyEvents.TypedEvents | croc-thesaurus/google-docs-utils.js:1461-1465 | `type` dispatches one event per character. |
| KeyEvents.TypeRoundTrip | croc-thesaurus/google-docs-utils.js:1461-1465 | Reading back the characters of the events `type` dispatches gives the text. |
| Input.SelectExtendsMove | croc-thesaurus/google-docs-utils.js:1531-1906 | Every `select` key is the matching cursor-move key with Shift. Moves never hold Shift; selecting focuses whenever moving does. |
| Input.FocusEvents | croc-thesaurus/google-docs-utils.js:1500-1524 | Focusing types `?` and then presses Undo (Ctrl+z, a Ctrl `keydown`) exactly when text was selected, and Backspace otherwise; each event decodes to that key. |
| Input.PlainKeypressesAppend | croc-thesaurus/google-docs-utils.js:1093-1110 | Logs of keypresses without modifiers stay so when concatenated. |
| Input.PressEventPlain | croc-thesaurus/google-docs-utils.js:1093-1110 | A single key's keypress carries no modifiers. |
| Input.Keyboard.PressOn | croc-thesaurus/google-docs-utils.js:1144-1354 | Appends exactly the key's event to the log and keeps keypresses modifier-free. |
| Input.Keyboard.Type | croc-thesaurus/google-docs-utils.js:1461-1465 | Appends exactly one character press per character, in order. |
| Input.Keyboard.TypeText | croc-thesaurus/google-docs-utils.js:1448-1450 | Same as `type`. |
| Input.Keyboard.FocusDocument | croc-thesaurus/google-docs-utils.js:1500-1524 | Nothing happens when the document is active. Otherwise the focus events are dispatched; the result says whether they were. |
| Input.Keyboard.MoveCursorTo | croc-thesaurus/google-docs-utils.js:1531-1661 | Focuses first for line start and end, then presses the motion's key. |
| Input.Keyboard.Select | croc-thesaurus/google-docs-utils.js:1749-1906 | Focuses first for lines and line ends, then presses the motion's key with Shift. |
| Input.Keyboard.SelectAll | croc-thesaurus/google-docs-utils.js:1731-1735 | Presses Ctrl+A. |
| Input.Keyboard.RemovePrevWord | croc-thesaurus/google-docs-utils.js:1684-1688 | Presses Ctrl+Backspace. |
| Input.Keyboard.RemoveNextWord | croc-thesaurus/google-docs-utils.js:1696-1700 | Presses Ctrl+Delete. |
| Input.Keyboard.RemoveSelection | croc-thesaurus/google-docs-utils.js:1710-1719 | Presses Delete exactly when text is selected, and reports whether it did. |
| Events.DetectSelectionChange | croc-thesaurus/google-docs-utils.js:1989-2024 | The flag is set exactly when some added or removed node of the batch carries one of the classes. |
| Events.Throwing | croc-thesaurus/google-docs-utils.js:2054-2070 | The reported listeners are exactly those whose call throws. |
| Events.ThrowingAppend | croc-thesaurus/google-docs-utils.js:2054-2070 | Reports follow the listeners' order, one per throwing call: the reports for a list split in two are those of the first part followed by those of the second. |
| Events.EventListeners.constructor | croc-thesaurus/google-docs-utils.js:1941-1948 | The registry starts empty; the overlay class list is the one derived from the selection-overlay selectors. |
| Events.EventListeners.AddEventListener | croc-thesaurus/google-docs-utils.js:2039-2045 | Appends the listener to its type's list, creating the list first; every registered list stays non-empty. |
| Events.EventListeners.CallEventListener | croc-thesaurus/google-docs-utils.js:2054-2070 | Does nothing for an unregistered type. Otherwise calls every listener in order, reporting each one that throws without stopping. |
| Events.EventListeners.MutationCallback | croc-thesaurus/google-docs-utils.js:1989-2024 | Dispatches `selectionchange` once for the whole batch exactly when some added or removed node carries a selection-overlay class; otherwise calls nothing. |
| Events.OverlayNodeTouches | croc-thesaurus/google-docs-utils.js:1989-2024 | Adding or removing an element of class `kix-selection-overlay` counts as a selection change. |

## Left out

- `getCharRect` (lines 194-215) renders a probe element to measure a character. It is replaced by the `Measure` parameter; floating-point widths become reals.
- DOM traversal and element identity: `getEditorElement`, `getPagesElements`, `getLinesElements`, `getLinesTextElements`, `getWordElements`, `getSelectionOverlayElements` and the cursor element lookups. They are replaced by the snapshot inputs. The records returned do not carry DOM elements.
- `isIframe`, `getTextEventTarget` and the dispatch itself are not modelled. A dispatched event is appended to a log; how Google Docs reacts to it is not modelled.
- `isDocumentActive` checks whether a blinking cursor element exists under the editor. Its answer is an input to `focusDocument` and the commands.
- `runOnPageLoaded`, `main`, `bindObserver` and the `MutationObserver` wiring are not modelled; the mutation callback is called with a batch directly.
- Events.EventListeners.CallEventListener: listeners are assumed not to register listeners while a dispatch runs. The source loops over the live array, so a listener appended to the same type during the dispatch would also be called in it; the model calls exactly the listeners registered when the dispatch starts.
- Which listeners throw is a parameter. The listener argument `{ type }` and the text `console.error` prints are not modelled. Prototype keys of the `EVENT_LISTENERS` object are not modelled.
- `IsWordChar` stands for `\w` or "has distinct upper and lower case". Unicode case tables are a parameter. Characters outside the Basic Multilingual Plane are single characters here.
- `CreateKeyboardEvent` models `key`, `code`, `keyCode`, `ctrlKey` and `shiftKey`. The properties set to fixed values, and `charCode` and `which` (always equal to `keyCode`), are not modelled.
- ClassList.SelectorsToClassList: the five-selector documented example is proved selector by selector (`Example*` lemmas and `SelectorWithoutClass`), not as one list.
- `getSelection` has a branch for a word node without an element; it cannot be taken in a snapshot and is not modelled.
- The source map and the other files of the extension (popup, backend, content scripts) are not part of this model.
