/**
 * The corrector's mutable state as the program keeps it: the global buffers,
 * the boundary keystroke, the busy gate and the two marks, updated in place by
 * the event-tap callback and by the continuations of the conversion sequences.
 * Each method is proved against the pure description in Classifier and
 * Sequencer; the external actions it requests are appended to `effects`.
 */
module Flipotron {
  import opened Wrappers
  import opened Classifier
  import opened Sequencer
  import Transliteration

  class Corrector {
    var keystrokeBuffer: seq<KeyStroke>
    var previousWordBuffer: seq<KeyStroke>
    var lastBoundaryKeyStroke: Option<KeyStroke>
    var switching: bool
    var justConverted: bool
    var rightAltDown: bool
    /** Every external action requested so far, oldest first. */
    var effects: seq<Effect>

    /** The fields as a value. */
    function Current(): State
      reads this
    {
      State(keystrokeBuffer, previousWordBuffer, lastBoundaryKeyStroke, switching, justConverted, rightAltDown)
    }

    /** Process start: every buffer empty, gate open, nothing requested. */
    constructor ()
      ensures Current() == Initial && effects == []
    {
      keystrokeBuffer, previousWordBuffer, lastBoundaryKeyStroke := [], [], None;
      switching, justConverted, rightAltDown := false, false, false;
      effects := [];
    }

    /** Forget both words, the boundary and the just-converted mark. */
    method ClearBuffers()
      modifies this
      ensures Current() == Cleared(old(Current())) && effects == old(effects)
    {
      keystrokeBuffer := [];
      previousWordBuffer := [];
      lastBoundaryKeyStroke := None;
      justConverted := false;
    }

    /** `eventTapCallback`: classify one event, update the state, and say
        whether to pass the event on and what to schedule. */
    method EventTapCallback(e: Event) returns (verdict: Verdict, scheduled: Option<Scheduled>)
      modifies this
      ensures Outcome(Current(), verdict, scheduled) == Classify(old(Current()), e)
      ensures effects == old(effects)
    {
      verdict, scheduled := PassThrough, None;
      if e.kind == TapDisabledByTimeout || e.kind == TapDisabledByUserInput {
        return;
      }
      if switching {
        return;
      }
      if e.kind == LeftMouseDown || e.kind == RightMouseDown {
        ClearBuffers();
        return;
      }
      if e.kind == KeyDown {
        if e.keyCode == KeyA && e.flags.alternate {
          verdict, scheduled := Consume, Some(ToggleCase);
          return;
        }
        if e.flags.command || e.flags.control {
          ClearBuffers();
          return;
        }
        if e.keyCode == BackspaceKey {
          if keystrokeBuffer != [] {
            keystrokeBuffer := keystrokeBuffer[..|keystrokeBuffer| - 1];
          }
          justConverted := false;
          return;
        }
        if e.keyCode in SaveWordBoundaryKeyCodes {
          if keystrokeBuffer != [] {
            previousWordBuffer := keystrokeBuffer;
            lastBoundaryKeyStroke := Some(KeyStroke(e.keyCode, e.flags.shift));
          }
          keystrokeBuffer := [];
          justConverted := false;
          return;
        }
        if e.keyCode in ClearBufferKeyCodes {
          ClearBuffers();
          return;
        }
        if justConverted {
          ClearBuffers();
        }
        keystrokeBuffer := keystrokeBuffer + [KeyStroke(e.keyCode, e.flags.shift)];
        return;
      }
      if e.kind == FlagsChanged && e.keyCode == RightOptionKey {
        if e.flags.alternate {
          rightAltDown := true;
        } else if rightAltDown {
          rightAltDown := false;
          if keystrokeBuffer != [] {
            var snapshot := keystrokeBuffer;
            keystrokeBuffer := [];
            scheduled := Some(Retype(snapshot, 0));
          } else if previousWordBuffer != [] {
            var snapshot := previousWordBuffer;
            var extraDelete := if lastBoundaryKeyStroke != None then 1 else 0;
            previousWordBuffer := [];
            lastBoundaryKeyStroke := None;
            scheduled := Some(Retype(snapshot, extraDelete));
          } else {
            scheduled := Some(ConvertSelection);
          }
        }
      }
    }

    /** `convertBufferAndRetype` up to its first timed continuation: nothing
        for an empty buffer, else take the gate and request the deletes.
        `started` says whether the continuations are scheduled. */
    method StartRetype(buffer: seq<KeyStroke>, extraDeleteCount: nat) returns (started: bool)
      modifies this
      ensures started == (buffer != [])
      ensures var b := BeginRetype(old(Current()), buffer, extraDeleteCount);
        Current() == b.next && effects == old(effects) + b.effects
    {
      if buffer == [] {
        return false;
      }
      var deleteCount := |buffer| + extraDeleteCount;
      switching := true;
      effects := effects + [DeleteKeys(deleteCount)];
      return true;
    }

    /** The three continuations of `convertBufferAndRetype`: toggle the
        layout, replay the keystrokes, reset the state and open the gate. */
    method FinishRetype(buffer: seq<KeyStroke>)
      modifies this
      ensures var c := CompleteRetype(old(Current()), buffer);
        Current() == c.next && effects == old(effects) + c.effects
    {
      effects := effects + [ToggleLayout];
      effects := effects + [PostKeyStrokes(buffer)];
      keystrokeBuffer := buffer;
      previousWordBuffer := [];
      lastBoundaryKeyStroke := None;
      justConverted := true;
      switching := false;
    }

    /** `convertSelectedText` up to the read of the pasteboard. */
    method BeginConvertSelectedText()
      modifies this
      ensures var b := BeginSelection(old(Current()));
        Current() == b.next && effects == old(effects) + b.effects
    {
      switching := true;
      effects := effects + [ClearPasteboard, CopySelection];
    }

    /** The rest of `convertSelectedText`, given what the copy produced. */
    method FinishConvertSelectedText(copied: Option<seq<char>>)
      modifies this
      ensures var c := CompleteSelection(old(Current()), copied);
        Current() == c.next && effects == old(effects) + c.effects
    {
      if copied.None? || copied.value == [] {
        effects := effects + [ToggleLayout];
        switching := false;
        return;
      }
      var converted := Transliteration.ConvertSelectedChars(copied.value);
      effects := effects + [PasteText(converted), ToggleLayout];
      justConverted := false;
      switching := false;
    }

    /** `toggleSelectedCase` up to the read of the pasteboard. */
    method BeginToggleSelectedCase()
      modifies this
      ensures var b := BeginToggleCase(old(Current()));
        Current() == b.next && effects == old(effects) + b.effects
    {
      switching := true;
      effects := effects + [CopySelection];
    }

    /** The rest of `toggleSelectedCase`, pasting only a copied selection. */
    method FinishToggleSelectedCase(copied: Option<seq<char>>)
      modifies this
      ensures var c := CompleteToggleCase(old(Current()), copied);
        Current() == c.next && effects == old(effects) + c.effects
    {
      if copied.None? || copied.value == [] {
        switching := false;
        return;
      }
      var toggled := Transliteration.ToggleSelectedChars(copied.value);
      effects := effects + [PasteText(toggled)];
      switching := false;
    }

    /** Carry out a scheduled action to the end, with no event in between;
        `copied` is what a copy of the selection would produce. */
    method Perform(a: Scheduled, copied: Option<seq<char>>)
      modifies this
      ensures a.Retype? ==>
        var r := Sequencer.ConvertBufferAndRetype(old(Current()), a.buffer, a.extraDelete);
        Current() == r.next && effects == old(effects) + r.effects
      ensures a.ConvertSelection? ==>
        var b := BeginSelection(old(Current()));
        var c := CompleteSelection(b.next, copied);
        Current() == c.next && effects == old(effects) + b.effects + c.effects
      ensures a.ToggleCase? ==>
        var b := BeginToggleCase(old(Current()));
        var c := CompleteToggleCase(b.next, copied);
        Current() == c.next && effects == old(effects) + b.effects + c.effects
    {
      match a
      case Retype(buffer, extraDelete) =>
        var started := StartRetype(buffer, extraDelete);
        if started {
          FinishRetype(buffer);
        }
      case ConvertSelection =>
        BeginConvertSelectedText();
        FinishConvertSelectedText(copied);
      case ToggleCase =>
        BeginToggleSelectedCase();
        FinishToggleSelectedCase(copied);
    }
  }

  /** A typed word, converted and converted again at once: both conversions
      retype the same keystrokes, so the text on screen is back to what was
      typed, and the first one deleted exactly the typed characters. */
  method ConvertTwice(c: Corrector, word: seq<KeyStroke>)
    requires c.Current() == Initial && word != []
    requires forall i :: 0 <= i < |word| ==> IsWordKey(word[i])
    modifies c
    ensures c.keystrokeBuffer == word && c.justConverted && !c.switching
    ensures var once := [DeleteKeys(|word|), ToggleLayout, PostKeyStrokes(word)];
      c.effects == old(c.effects) + once + once
  {
    var once := [DeleteKeys(|word|), ToggleLayout, PostKeyStrokes(word)];
    for k := 0 to |word|
      invariant c.Current() == Initial.(keystrokeBuffer := word[..k])
      invariant c.effects == old(c.effects)
    {
      var e := Event(KeyDown, word[k].keyCode, NoFlags.(shift := word[k].shift));
      assert IsRegularKeyDown(e);
      var _, _ := c.EventTapCallback(e);
      assert word[..k + 1] == word[..k] + [word[k]];
    }
    assert word[..|word|] == word;
    for round := 0 to 2
      invariant c.keystrokeBuffer == word && !c.switching
      invariant round > 0 ==> c.justConverted
      invariant c.effects == old(c.effects) + (if round == 0 then [] else once) + (if round == 2 then once else [])
    {
      var _, _ := c.EventTapCallback(RightOptionPress);
      var _, scheduled := c.EventTapCallback(RightOptionRelease);
      assert scheduled == Some(Retype(word, 0));
      c.Perform(scheduled.value, None);
    }
  }
}
