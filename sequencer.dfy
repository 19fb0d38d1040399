/**
 * The three multi-step sequences the classifier schedules on the main queue:
 * retype a word under the other layout, convert the selection, and toggle the
 * case of the selection.  Each is split where the busy gate (`switching`) is
 * taken and where it is released; the timed continuations in between only
 * request external effects, recorded here as values.
 */
module Sequencer {
  import opened Wrappers
  import opened Classifier
  import opened Transliteration

  /** An external action requested of the OS. */
  datatype Effect =
    | DeleteKeys(count: nat)                  // synthetic Backspace presses
    | ToggleLayout                            // switch to the other input source
    | PostKeyStrokes(strokes: seq<KeyStroke>) // replay keystrokes
    | ClearPasteboard                         // empty the pasteboard, leaving ""
    | CopySelection                           // Command+C
    | PasteText(text: seq<char>)              // put text on the pasteboard, Command+V

  datatype Step = Step(next: State, effects: seq<Effect>)

  // ---------------------------------------------------------------------------
  // Retype (convertBufferAndRetype)
  // ---------------------------------------------------------------------------

  /** The synchronous part: nothing for an empty buffer; otherwise take the gate
      and delete the word (and the boundary character when asked to). */
  function BeginRetype(s: State, buffer: seq<KeyStroke>, extraDeleteCount: nat): (r: Step)
    ensures r.next.(switching := s.switching) == s
    ensures r.next.switching == (s.switching || buffer != [])
  {
    if buffer == [] then Step(s, [])
    else Step(s.(switching := true), [DeleteKeys(|buffer| + extraDeleteCount)])
  }

  /** The continuations: toggle the layout, replay the keystrokes, then make the
      replayed word the current word and release the gate. */
  function CompleteRetype(s: State, buffer: seq<KeyStroke>): (r: Step)
    ensures !r.next.switching && r.next.rightAltDown == s.rightAltDown
    ensures r.next.justConverted && r.next.keystrokeBuffer == buffer
    ensures r.next.previousWordBuffer == [] && r.next.lastBoundaryKeyStroke == None
    ensures r.effects == [ToggleLayout, PostKeyStrokes(buffer)]
  {
    Step(s.(keystrokeBuffer := buffer, previousWordBuffer := [], lastBoundaryKeyStroke := None,
            justConverted := true, switching := false),
         [ToggleLayout, PostKeyStrokes(buffer)])
  }

  /** The whole sequence when no event arrives in between. */
  function ConvertBufferAndRetype(s: State, buffer: seq<KeyStroke>, extraDeleteCount: nat): (r: Step)
    ensures r.next.rightAltDown == s.rightAltDown
    ensures buffer != [] ==> !r.next.switching && |r.effects| == 3
  {
    var begun := BeginRetype(s, buffer, extraDeleteCount);
    if buffer == [] then begun
    else
      var done := CompleteRetype(begun.next, buffer);
      Step(done.next, begun.effects + done.effects)
  }

  /** An empty buffer is a no-op; otherwise exactly `|buffer| + extraDeleteCount`
      deletes, then the toggle, then the same keystrokes, and the buffer ends up
      holding them with the gate open and the just-converted mark set. */
  lemma RetypeEffects(s: State, buffer: seq<KeyStroke>, extraDeleteCount: nat)
    ensures buffer == [] ==> ConvertBufferAndRetype(s, buffer, extraDeleteCount) == Step(s, [])
    ensures buffer != [] ==>
      var r := ConvertBufferAndRetype(s, buffer, extraDeleteCount);
      r.effects == [DeleteKeys(|buffer| + extraDeleteCount), ToggleLayout, PostKeyStrokes(buffer)]
      && r.next.keystrokeBuffer == buffer && r.next.previousWordBuffer == []
      && r.next.lastBoundaryKeyStroke == None && r.next.justConverted && !r.next.switching
      && r.next.rightAltDown == s.rightAltDown
  {
  }

  /** Events delivered while a retype is in flight change nothing, so the
      sequence ends in the same state as an uninterrupted one. */
  lemma RetypeIgnoresInterleavedEvents(s: State, buffer: seq<KeyStroke>, extraDeleteCount: nat, es: seq<Event>)
    requires buffer != []
    ensures var begun := BeginRetype(s, buffer, extraDeleteCount);
      var during := Run(begun.next, es);
      during.final == begun.next && during.scheduled == []
      && CompleteRetype(during.final, buffer).next == ConvertBufferAndRetype(s, buffer, extraDeleteCount).next
  {
    GateHoldsForRun(BeginRetype(s, buffer, extraDeleteCount).next, es);
  }

  /** Converting the current word and then converting again at once retypes
      the same keystrokes: the round trip restores the original text. */
  lemma {:induction false} CurrentWordRoundTrip(s: State)
    requires !s.switching && s.keystrokeBuffer != []
    ensures var w := s.keystrokeBuffer;
      var first := Run(s, Trigger);
      first.scheduled == [Retype(w, 0)]
      && var done := ConvertBufferAndRetype(first.final, w, 0);
      done.effects == [DeleteKeys(|w|), ToggleLayout, PostKeyStrokes(w)]
      && Run(done.next, Trigger).scheduled == [Retype(w, 0)]
  {
    var w := s.keystrokeBuffer;
    var pressed := s.(rightAltDown := true);
    assert Classify(s, RightOptionPress).next == pressed;
    var released := pressed.(keystrokeBuffer := [], rightAltDown := false);
    assert Classify(pressed, RightOptionRelease) == Outcome(released, PassThrough, Some(Retype(w, 0)));
    assert Run(s, Trigger).scheduled == [Retype(w, 0)] by {
      assert Trigger[1..] == [RightOptionRelease];
      assert Run(pressed, [RightOptionRelease]).scheduled == [Retype(w, 0)];
    }
    assert Run(s, Trigger).final == released by {
      assert Trigger[1..] == [RightOptionRelease];
    }
    RetypeEffects(released, w, 0);
    var after := ConvertBufferAndRetype(released, w, 0).next;
    var pressed2 := after.(rightAltDown := true);
    assert Classify(after, RightOptionPress).next == pressed2;
    assert Classify(pressed2, RightOptionRelease).scheduled == Some(Retype(w, 0));
    assert Trigger[1..] == [RightOptionRelease];
    assert Run(pressed2, [RightOptionRelease]).scheduled == [Retype(w, 0)];
  }

  /** Converting the previous word deletes it together with the boundary
      character when one was recorded (`|word| + 1` deletes, else `|word|`);
      converting again at once retypes the same word, now the current one,
      deleting only `|word|`. */
  lemma {:induction false} PreviousWordRoundTrip(s: State)
    requires !s.switching && s.keystrokeBuffer == [] && s.previousWordBuffer != []
    ensures var p := s.previousWordBuffer;
      var extra := if s.lastBoundaryKeyStroke.Some? then 1 else 0;
      var first := Run(s, Trigger);
      first.scheduled == [Retype(p, extra)]
      && var done := ConvertBufferAndRetype(first.final, p, extra);
      done.effects == [DeleteKeys(|p| + extra), ToggleLayout, PostKeyStrokes(p)]
      && Run(done.next, Trigger).scheduled == [Retype(p, 0)]
  {
    var p := s.previousWordBuffer;
    var extra := if s.lastBoundaryKeyStroke.Some? then 1 else 0;
    var pressed := s.(rightAltDown := true);
    assert Classify(s, RightOptionPress).next == pressed;
    var released := pressed.(previousWordBuffer := [], lastBoundaryKeyStroke := None, rightAltDown := false);
    assert Classify(pressed, RightOptionRelease) == Outcome(released, PassThrough, Some(Retype(p, extra)));
    assert Trigger[1..] == [RightOptionRelease];
    assert Run(pressed, [RightOptionRelease]).scheduled == [Retype(p, extra)];
    assert Run(s, Trigger).final == released;
    RetypeEffects(released, p, extra);
    var after := ConvertBufferAndRetype(released, p, extra).next;
    var pressed2 := after.(rightAltDown := true);
    assert Classify(after, RightOptionPress).next == pressed2;
    assert Classify(pressed2, RightOptionRelease).scheduled == Some(Retype(p, 0));
    assert Run(pressed2, [RightOptionRelease]).scheduled == [Retype(p, 0)];
  }

  // ---------------------------------------------------------------------------
  // Selection conversion (convertSelectedText)
  // ---------------------------------------------------------------------------

  /** Take the gate, empty the pasteboard (so that an empty copy reads as
      ""), and copy the selection.  (Saving the pasteboard is not modelled.) */
  function BeginSelection(s: State): (r: Step)
    ensures r.next.(switching := s.switching) == s && r.next.switching
    ensures r.effects == [ClearPasteboard, CopySelection]
  {
    Step(s.(switching := true), [ClearPasteboard, CopySelection])
  }

  /** `copied` is the text the pasteboard holds after the copy: None when it
      holds no string, `[]` when the copy left the empty string written just
      before it in place, that is, when nothing was selected.  With no text,
      only toggle the layout; otherwise paste the converted text, toggle the
      layout and clear the just-converted mark.  The gate is released on both
      paths. */
  function CompleteSelection(s: State, copied: Option<seq<char>>): (r: Step)
    ensures !r.next.switching
    ensures r.next.(switching := s.switching, justConverted := s.justConverted) == s
    ensures |r.effects| > 0 && r.effects[|r.effects| - 1] == ToggleLayout
  {
    if copied.None? || copied.value == [] then
      Step(s.(switching := false), [ToggleLayout])
    else
      Step(s.(justConverted := false, switching := false), [PasteText(Converted(copied.value)), ToggleLayout])
  }

  /** The selection path always toggles the layout and releases the gate; it
      pastes exactly when text was copied, and then the converted text, of
      the same length. */
  lemma SelectionEffects(s: State, copied: Option<seq<char>>)
    ensures var r := CompleteSelection(BeginSelection(s).next, copied);
      !r.next.switching
      && r.next == (if copied.None? || copied.value == [] then s.(switching := false)
                    else s.(justConverted := false, switching := false))
      && (copied.None? || copied.value == [] ==> r.effects == [ToggleLayout])
      && (copied.Some? && copied.value != [] ==>
            r.effects == [PasteText(Converted(copied.value)), ToggleLayout]
            && |Converted(copied.value)| == |copied.value| && !r.next.justConverted)
  {
  }

  // ---------------------------------------------------------------------------
  // Case toggle (toggleSelectedCase)
  // ---------------------------------------------------------------------------

  /** Take the gate and copy the selection; the pasteboard is not cleared first. */
  function BeginToggleCase(s: State): (r: Step)
    ensures r.next.(switching := s.switching) == s && r.next.switching
    ensures ClearPasteboard !in r.effects
    ensures r.effects == [CopySelection]
  {
    Step(s.(switching := true), [CopySelection])
  }

  /** The continuation as the program has it: it reads whatever the pasteboard
      holds after the copy, which is the user's earlier clipboard text `saved`
      when nothing was copied, and pastes that text toggled. */
  function CompleteToggleCaseAsWritten(s: State, copied: Option<seq<char>>, saved: seq<char>): (r: Step)
    ensures r.next == s.(switching := false)
    ensures |r.effects| <= 1 && forall k :: 0 <= k < |r.effects| ==> r.effects[k].PasteText?
  {
    var pasteboard := if copied.Some? then copied.value else saved;
    if pasteboard == [] then Step(s.(switching := false), [])
    else Step(s.(switching := false), [PasteText(Toggled(pasteboard))])
  }

  /** With nothing selected and "abc" on the clipboard, the program pastes "ABC". */
  lemma ToggleWithoutSelectionPastesClipboard(s: State)
    ensures CompleteToggleCaseAsWritten(s, None, "abc").effects == [PasteText("ABC")]
    ensures CompleteToggleCase(s, None).effects == []
  {
    var t := Toggled("abc");
    assert t[0] == 'A' && t[1] == 'B' && t[2] == 'C';
    assert t == "ABC";
  }

  /** The continuation with a "was anything copied" test: it pastes only a
      copied, non-empty selection.  The pasteboard is still not cleared before
      the copy (`BeginToggleCase` is unchanged), so `copied` is None here when
      the pasteboard's change count did not move across the copy, the test
      the selection conversion makes at main.swift:225-226. */
  function CompleteToggleCase(s: State, copied: Option<seq<char>>): (r: Step)
    ensures r.next == s.(switching := false)
    ensures |r.effects| <= 1 && forall k :: 0 <= k < |r.effects| ==> r.effects[k].PasteText?
    ensures copied.None? ==> r.effects == []
  {
    if copied.None? || copied.value == [] then Step(s.(switching := false), [])
    else Step(s.(switching := false), [PasteText(Toggled(copied.value))])
  }

  /** The case toggle pastes exactly when text was copied, and then that text
      with every letter's case swapped and nothing else changed; it never
      toggles the layout, never touches the buffers or the just-converted
      mark, and always releases the gate. */
  lemma ToggleCaseEffects(s: State, copied: Option<seq<char>>, saved: seq<char>)
    ensures var r := CompleteToggleCase(BeginToggleCase(s).next, copied);
      r.next == s.(switching := false)
      && (copied.None? || copied.value == [] ==> r.effects == [])
      && (copied.Some? && copied.value != [] ==>
            r.effects == [PasteText(Toggled(copied.value))]
            && Toggled(Toggled(copied.value)) == copied.value)
    ensures copied.Some? ==>
      CompleteToggleCase(s, copied) == CompleteToggleCaseAsWritten(s, copied, saved)
  {
    if copied.Some? {
      ToggleTwice(copied.value);
    }
  }
}
