# Flipotron keyboard-layout corrector: a Dafny model

Flipotron watches every key press on macOS. When Right Option is pressed and
released, it rewrites the word just typed, or the selected text, as if it had
been typed in the other layout: English QWERTY or Russian ЙЦУКЕН. This project
models the two parts of `main.swift` that do not depend on the OS, and proves
properties of them.

- **Transliteration** (`transliteration.dfy`, pure, plus two loops as methods):
  - the EN→RU table and the RU→EN table built from it;
  - the hand-written Cyrillic case helpers;
  - the per-character loops that convert a copied selection
    (`convertSelectedText`) and swap its case (`toggleSelectedCase`).

  A character is its Unicode code point. Swift's generic case API
  (`lowercased()`, `uppercased()`, `isUppercase`, `isLowercase`) is modelled
  by the ASCII rule. The Cyrillic block U+0410–U+044F is handled by the
  program's own helpers.
- **Classifier** (`classifier.dfy`): the event-tap callback as a pure function
  `Classify(state, event)`. It returns the new state, the verdict (pass the
  event on or swallow it) and the action it schedules: `ToggleCase`,
  `Retype(buffer, extraDelete)` or `ConvertSelection`. `Run` feeds it a
  sequence of events.
- **Sequencer** (`sequencer.dfy`): the state changes of the three scheduled
  sequences. Each sequence has two steps: one where it takes the busy gate
  (`switching`) and one where it releases it. OS effects are recorded as
  values: deletes, a layout toggle, a key replay, clearing the pasteboard,
  copy and paste.
- **Flipotron** (`flipotron.dfy`): the program's globals as the fields of a
  class `Corrector`. `EventTapCallback` and the sequence methods update those
  fields in place. Each method is proved to produce exactly the state and
  effects given by `Classifier`/`Sequencer`.

Facts about the code that shape the model:
- The direction of a selection conversion depends only on whether the first
  character is ASCII. A selection that starts with an ASCII character the
  table does not map, such as a digit, is converted EN→RU every time.
- A key typed between the Right Option press and its release does not cancel
  the trigger. The key is recorded as part of the word, and the release
  converts that word.
- The selection path toggles the layout whether or not anything was selected.
- Backspace only edits the current word. Right after Space it leaves the
  saved previous word and its boundary in place. A trigger then deletes the
  word and also the character before it, since it still counts the erased
  space.
- Right Option is an Option key, so holding it and pressing A is the Option+A
  chord. The A is swallowed and the case toggle is scheduled, but the trigger
  stays armed, and the release schedules a retype as well. (Whether that
  retype runs depends on timing: while the toggle holds the gate, the release
  passes through unseen.)
- The tables and the layout identifiers are fixed in the code.

Converting a selection twice gives it back in two cases:
- **English text:** its first character has a table entry (a Latin letter or
  one of `[ ] ; ' , .`), and it contains no Cyrillic letter.
- **Russian text:** its first character is a Cyrillic letter of the block, and
  it contains nothing that EN→RU maps (no Latin letter, none of
  `[ ] ; ' , .`). Nor may it contain any of the capitals Х Ъ Ж Э Б Ю.

Outside those cases the trip can fail:
- The six capitals Х Ъ Ж Э Б Ю sit on punctuation keys, and `uppercased()`
  leaves punctuation alone, so they come back lower case: Б → `,` → б.
- A punctuation key inside Russian text comes back as its letter: "а," →
  "f," → "аб".
- A selection starting with a digit is never converted RU→EN: "1a" → "1ф" →
  "1ф".

## Model

| member | source | states |
|---|---|---|
| `Transliteration.Invert` | main.swift:15-19 | the inverse of an injective table has exactly the table's values as keys and sends each value back to its key |
| `Transliteration.BuildInverse` | main.swift:15-19 | the loop filling `ruToEn` makes every target a key mapped to one of its preimages, in any iteration order; for an injective table the result is its exact inverse |
| `Transliteration.EnToRuInjective` | main.swift:6-13 | no two keys of the EN→RU table share a target |
| `Transliteration.TableSizes` | main.swift:6-19 | both tables have 32 entries |
| `Transliteration.InvertSize` | main.swift:15-19 | inverting an injective table loses no entry |
| `Transliteration.RuToEnInvertsEnToRu` | main.swift:6-19 | `ruToEn[enToRu[c]] == c` for every key, and `enToRu[ruToEn[r]] == r` for every key of the inverse |
| `Transliteration.KeyFacts` | main.swift:6-13 | every key is ASCII and not an upper-case letter; every target is a lower-case Cyrillic letter |
| `Transliteration.ForwardThenBack` | main.swift:15-19 | a key's target is a key of `ruToEn` that leads back to it |
| `Transliteration.BackThenForward` | main.swift:15-19 | a key of `ruToEn` is a lower-case Cyrillic letter whose image is a key of `enToRu` that leads back to it |
| `Transliteration.BlockInTargets` | main.swift:6-13 | every letter а..я (U+0430–U+044F) is a target of the table |
| `Transliteration.RuToEnCoversBlock` | main.swift:6-19 | the RU→EN table maps every letter а..я back to its key |
| `Transliteration.LetterIsKey` | main.swift:6-13 | all 26 Latin letters are keys |
| `Transliteration.IsCyrillicUpper` | main.swift:23-26 | holds exactly for А..Я, which are neither lower-case Cyrillic nor ASCII |
| `Transliteration.CyrillicLower` | main.swift:28-34 | А..Я become the letter 0x20 higher in а..я; every other character is unchanged |
| `Transliteration.CyrillicUpper` | main.swift:36-42 | а..я become the letter 0x20 lower in А..Я; every other character is unchanged |
| `Transliteration.CyrillicCaseRoundTrip` | main.swift:23-42 | `cyrillicUpper(cyrillicLower(c)) == c` when `isCyrillicUpper(c)`, and the converse on а..я |
| `Transliteration.IsUppercase` | main.swift:310 | `isUppercase` on ASCII: A–Z, which are ASCII and not Cyrillic |
| `Transliteration.IsLowercase` | main.swift:312 | `isLowercase` on ASCII: a–z, which are ASCII, not upper case and not Cyrillic |
| `Transliteration.Lowercased` | main.swift:249 | `lowercased()` on ASCII: A–Z to a–z, everything else unchanged |
| `Transliteration.Uppercased` | main.swift:259 | `uppercased()` on ASCII: a–z to A–Z, everything else unchanged |
| `Transliteration.IsEnglish` | main.swift:242-243 | the direction test: it holds for a selection starting with a Latin letter, and never for one that is empty or starts with a Cyrillic letter |
| `Transliteration.ConvertChar` | main.swift:247-262 | one step of the conversion loop: a mapped character becomes the character on the same key of the other layout, up to case (`cyrillicLower` of the EN→RU result is the table entry; `lowercased()` of the RU→EN result is the inverse entry); a mapped EN→RU character that is not an upper-case letter, such as `[`, gives the table entry itself |
| `Transliteration.ConvertKeepsUnmapped` | main.swift:262 | in either direction, a character with no table entry is copied unchanged (`result ?? ch`) |
| `Transliteration.Converted` | main.swift:241-263 | the converted text is as long as the selection, and every character the chosen direction does not map stays in place |
| `Transliteration.ConvertSelectedChars` | main.swift:241-263 | the conversion loop keeps the length and converts each character on its own, EN→RU exactly when the first character is ASCII |
| `Transliteration.ToRussianKeepsCase` | main.swift:248-253 | EN→RU turns an upper-case Latin letter into an upper-case Cyrillic letter and a lower-case one into a lower-case one |
| `Transliteration.ToEnglishKeepsCase` | main.swift:254-260 | RU→EN sends а..я to their keys, and capitals whose key is a letter to an upper-case Latin letter |
| `Transliteration.CharRoundTripFromEnglish` | main.swift:241-263 | EN→RU then RU→EN restores every character outside the Cyrillic block |
| `Transliteration.CharRoundTripFromRussian` | main.swift:241-263 | RU→EN then EN→RU restores every character that EN→RU leaves alone, except the six punctuation-key capitals |
| `Transliteration.RoundTripLosesCaseOfBe` | main.swift:254-260 | Б converts to `,` and comes back as б |
| `Transliteration.RoundTripFromEnglish` | main.swift:241-263 | converting twice restores a selection whose first character has an EN→RU entry and which contains no Cyrillic letter; the first conversion goes EN→RU and the second RU→EN |
| `Transliteration.RoundTripFromRussian` | main.swift:241-263 | converting twice restores a selection that starts with a Cyrillic letter, contains no character EN→RU maps (no Latin letter, none of `[ ] ; ' , .`) and none of the capitals Х Ъ Ж Э Б Ю; the directions are RU→EN, then EN→RU |
| `Transliteration.ConvertHello` | main.swift:241-263 | "Hello" converts to "Руддщ", so the capital survives |
| `Transliteration.RoundTripTurnsCommaIntoBe` | main.swift:241-263 | "а," converts to "f,", which converts to "аб": a punctuation key inside Russian text does not survive the round trip |
| `Transliteration.DigitFirstStaysEnglish` | main.swift:241-263 | "1a" converts to "1ф", which converts to "1ф" again: a selection starting with an unmapped ASCII character always goes EN→RU |
| `Transliteration.ToggleChar` | main.swift:310-323 | one step of the toggle loop changes a character exactly when it is an ASCII or Cyrillic-block letter, and keeps letters letters |
| `Transliteration.Toggled` | main.swift:308-324 | the toggled text is as long as the selection and differs from it exactly at the letters that have a case |
| `Transliteration.ToggleSelectedChars` | main.swift:308-324 | the toggle loop keeps the length and toggles each character on its own |
| `Transliteration.ToggleCharSwapsCase` | main.swift:308-324 | ASCII and Cyrillic-block letters get the other case of the same letter; digits, punctuation and other characters are unchanged |
| `Transliteration.ToggleTwice` | main.swift:308-324 | toggling a selection twice gives it back |
| `Transliteration.ToggleExample` | main.swift:308-324 | "AbC3" toggles to "aBc3" |
| `Classifier.Dispatch` | main.swift:447-472 | the Right-Option release always passes the event on and schedules an action; it never touches the gate, `rightAltDown` or the just-converted mark, and never schedules a retype of an empty buffer or with more than one extra delete |
| `Classifier.HandleKeyDown` | main.swift:381-440 | a key-down never touches the gate or `rightAltDown`; it is swallowed exactly for Option+A, and exactly then it schedules the case toggle |
| `Classifier.Classify` | main.swift:354-478 | the callback never changes `switching`; it schedules only while the gate is open; it swallows an event exactly when it is Option+A with the gate open; only a flags-changed event changes `rightAltDown`; an action is scheduled only by Option+A or by a Right-Option release after a recorded press |
| `Classifier.PressArms` | main.swift:444-446 | with the gate open, a Right-Option flags change whose flags contain Alternate, whatever else is held, only sets `rightAltDown`, passes through and schedules nothing |
| `Classifier.UnarmedReleaseIgnored` | main.swift:447-474 | a Right-Option flags change without Alternate, whatever else is held, changes nothing, passes through and schedules nothing when no press was recorded |
| `Classifier.TapDisabledPassesThrough` | main.swift:357-362 | a tap-disabled event, by timeout or by user input, passes through with the state unchanged and nothing scheduled, even with the gate closed |
| `Classifier.OtherFlagsIgnored` | main.swift:443-477 | a modifier change on any key other than Right Option changes nothing, passes through and schedules nothing |
| `Classifier.GateHolds` | main.swift:364-366 | while `switching`, every event passes through and the state is unchanged |
| `Classifier.GateHoldsForRun` | main.swift:364-366 | the same for any sequence of events: nothing scheduled, nothing changed, everything passed through |
| `Classifier.ClearingEventClears` | main.swift:371-426 | mouse-down, a key with Command or Control, and Return/Tab/arrows/Home/End empty both buffers, forget the boundary and the just-converted mark, keep the gate and `rightAltDown`, and pass through |
| `Classifier.BackspaceRemovesLast` | main.swift:399-406 | Backspace removes exactly the last keystroke of a non-empty word and leaves an empty word empty; the previous word, boundary, gate and `rightAltDown` are untouched and the just-converted mark is cleared |
| `Classifier.SpaceSavesWord` | main.swift:408-417 | Space saves a non-empty word and its boundary keystroke; for an empty word it keeps the old previous word; the word buffer always ends empty; the gate and `rightAltDown` are untouched |
| `Classifier.RegularKeyAppends` | main.swift:428-439 | a regular key appends `KeyStroke(keyCode, shift)`; right after a conversion the buffer becomes exactly that keystroke and the previous word is forgotten; the gate and `rightAltDown` are untouched |
| `Classifier.OptionAConsumed` | main.swift:382-388 | Option+A is swallowed, schedules the case toggle, and changes no state |
| `Classifier.TriggerPriority` | main.swift:442-475 | a Right-Option flags change without Alternate after a recorded press, whatever Shift, Command or Control hold, retypes the current word with 0 extra deletes; else the previous word, with 1 extra delete exactly when a boundary was recorded; else it converts the selection; the chosen buffer is cleared and the trigger disarmed |
| `Classifier.BackspaceAfterSpaceKeepsBoundary` | main.swift:400-417 | after Space ends a word and Backspace erases the space, the word and the Space boundary are still saved, so the next trigger schedules `Retype(word, 1)`: one delete beyond the word although the space is gone |
| `Classifier.RightOptionAFiresBoth` | main.swift:383-388 | Right Option press, A with Option, release: the A is consumed and schedules the case toggle, the trigger stays armed, and the release schedules `Retype(word, 0)` as well |
| `Classifier.KeyWhileOptionHeldKeepsTrigger` | main.swift:428-472 | a regular key typed between the Right-Option press and release leaves the trigger armed; the release retypes the word ending in that key |
| `Classifier.TypingRecordsKeys` | main.swift:428-439 | typing word keys extends the current word by exactly those keystrokes and schedules nothing |
| `Sequencer.BeginRetype` | main.swift:184-190 | only `switching` changes, and it is set exactly when the buffer is not empty |
| `Sequencer.CompleteRetype` | main.swift:192-207 | the continuations toggle the layout and replay the keystrokes, then release the gate, keep `rightAltDown`, set the just-converted mark, make the replayed keystrokes the current word and forget the previous word and its boundary |
| `Sequencer.ConvertBufferAndRetype` | main.swift:184-208 | a whole retype keeps `rightAltDown`; for a non-empty buffer it ends with the gate open after three effects |
| `Sequencer.RetypeEffects` | main.swift:184-208 | an empty buffer is a no-op; otherwise the sequence deletes `buffer.count + extraDeleteCount`, toggles the layout and replays the same keystrokes; it ends with the buffer holding them, the previous word and boundary cleared, `justConverted` set and the gate open |
| `Sequencer.RetypeIgnoresInterleavedEvents` | main.swift:184-208 | events arriving while a retype is in flight change nothing; the sequence ends as an uninterrupted one would |
| `Sequencer.CurrentWordRoundTrip` | main.swift:443-457 | a trigger retypes the current word; an immediate second trigger retypes the same keystrokes |
| `Sequencer.PreviousWordRoundTrip` | main.swift:458-466 | a trigger on the previous word deletes word length + 1 when a boundary was recorded (else the word length); an immediate second trigger retypes the same word with no extra delete |
| `Sequencer.BeginSelection` | main.swift:212-222 | only `switching` changes, and it is set; the effects are clearing the pasteboard, then the copy |
| `Sequencer.CompleteSelection` | main.swift:224-276 | the gate is released, nothing but `switching` and `justConverted` changes, and the last effect is always the layout toggle |
| `Sequencer.SelectionEffects` | main.swift:224-276 | the selection path ends in the old state with the gate released, and with the just-converted mark cleared when text was pasted; it always toggles the layout; it pastes only when text was copied, pastes the converted text of the same length, and then clears `justConverted` |
| `Sequencer.BeginToggleCase` | main.swift:293-299 | only `switching` changes, and it is set; the only effect is the copy: unlike the selection path, the pasteboard is not cleared first |
| `Sequencer.CompleteToggleCaseAsWritten` | main.swift:301-334 | as written: only the gate is released, and the only possible effect is one paste |
| `Sequencer.CompleteToggleCase` | main.swift:301-334 | with the guard: only the gate is released, the only possible effect is one paste, and nothing is pasted when nothing was copied |
| `Sequencer.ToggleWithoutSelectionPastesClipboard` | main.swift:296-306 | as written: with nothing selected and "abc" on the clipboard, the case toggle pastes "ABC"; with the guard it pastes nothing |
| `Sequencer.ToggleCaseEffects` | main.swift:301-334 | the guarded case toggle pastes exactly the copied selection toggled (toggling again gives the selection back); it never toggles the layout or touches the buffers, and always releases the gate |
| `Flipotron.Corrector.constructor` | main.swift:78-82 | the program starts with empty buffers, no boundary, and every flag false |
| `Flipotron.Corrector.ClearBuffers` | main.swift:373-376 | clears both buffers, the boundary and `justConverted`, and nothing else |
| `Flipotron.Corrector.EventTapCallback` | main.swift:354-478 | the in-place callback leaves the fields, verdict and scheduled action equal to `Classify` of the old state |
| `Flipotron.Corrector.StartRetype` | main.swift:184-190 | does nothing for an empty buffer; otherwise sets `switching` and requests `buffer.count + extraDeleteCount` deletes |
| `Flipotron.Corrector.FinishRetype` | main.swift:192-207 | toggles the layout, replays the buffer, then sets `keystrokeBuffer = buffer`, clears the previous word and boundary, sets `justConverted` and clears `switching` |
| `Flipotron.Corrector.BeginConvertSelectedText` | main.swift:212-222 | sets `switching`, clears the pasteboard and requests the copy |
| `Flipotron.Corrector.FinishConvertSelectedText` | main.swift:224-276 | with no copied text, only toggles the layout; otherwise pastes the converted text and toggles; either way it releases the gate |
| `Flipotron.Corrector.BeginToggleSelectedCase` | main.swift:293-299 | sets `switching` and requests the copy |
| `Flipotron.Corrector.FinishToggleSelectedCase` | main.swift:301-334 | pastes the toggled selection when one was copied, and always releases the gate |
| `Flipotron.Corrector.Perform` | main.swift:455-471 | runs a scheduled action to completion and ends in the state and effects of the matching sequence |
| `Flipotron.ConvertTwice` | main.swift:184-208 | typing a word and triggering twice requests two identical delete/toggle/replay rounds and leaves the word in the buffer |

## Findings

| source | as written | input that shows it | evidently intended | confidence | as-written member | corrected member |
|---|---|---|---|---|---|---|
| main.swift:296-306 | the case toggle reads the pasteboard after Command+C without first clearing it or checking its change count | nothing selected, "abc" on the clipboard, Option+A: the text "ABC" is pasted into the document | compare the pasteboard's change count before and after the copy, as the selection conversion does at main.swift:225-226, and paste nothing when it did not move | medium; not executed | `Sequencer.ToggleWithoutSelectionPastesClipboard` | `Sequencer.ToggleCaseEffects` |

## Left out

- Posting synthetic events (`postDeleteKeys`, `postKeyStrokes`, `postCmdC`, `postCmdV`) is OS I/O. Each is recorded as an `Effect` value with its count or payload.
- Querying and switching the input source, and the menu-bar icon, call the Carbon and AppKit APIs. Each layout switch is the opaque effect `ToggleLayout`.
- Saving and restoring the pasteboard, and reading its change count, are I/O. Clearing it before the selection copy is recorded as the effect `ClearPasteboard`. The copy's result is the parameter `copied`: `None` or `[]` means nothing was copied.
- The fixed delays between continuations are timing. Each sequence is two ordered calls, one that takes the gate and one that releases it. The retype's middle continuations (toggle, replay) are folded into the releasing call, because they change no state.
- The tap's re-enable call on `tapDisabledBy*` is OS plumbing. The events themselves are modelled: they pass through with no state change.
- `AppDelegate`, the menu, the accessibility check, icon drawing and `main` are UI and OS plumbing.
- General Unicode case mapping, grapheme clusters, and characters outside ASCII and U+0410–U+044F (including Ё/ё) are not modelled. Swift's case API is taken as the ASCII rule; for the Cyrillic block it agrees with the program's helpers.
- Reading the key code from the event (`UInt16(...)`) is not modelled: the event carries a 16-bit key code directly.
- Flipotron.Corrector.FinishToggleSelectedCase: models the corrected guard from the finding above, not the code as written. `Sequencer.CompleteToggleCaseAsWritten` models the code as written.
- Flipotron.Corrector.Perform: its ToggleCase branch uses the same corrected guard, through `FinishToggleSelectedCase` and `Sequencer.CompleteToggleCase`.
