/**
 * The keystroke classifier: what the event-tap callback does to the corrector's
 * state for one incoming event, written as a function from the old state and
 * the event to the new state, the pass/consume verdict and the action it
 * schedules on the main queue.
 */
module Classifier {
  import opened Wrappers

  /** A virtual key code (`UInt16`). */
  type KeyCode = k: int | 0 <= k < 0x1_0000

  /** What was pressed, not what it typed: replaying it under the other layout
      yields the transliterated character. */
  datatype KeyStroke = KeyStroke(keyCode: KeyCode, shift: bool)

  const KeyA: KeyCode := 0
  const BackspaceKey: KeyCode := 51
  const SpaceKey: KeyCode := 49
  const RightOptionKey: KeyCode := 61

  /** Keys that end a word and save it as the previous word. */
  const SaveWordBoundaryKeyCodes: set<KeyCode> := {SpaceKey}

  /** Return, Tab, the four arrows, Home and End: these clear all buffers. */
  const ClearBufferKeyCodes: set<KeyCode> := {36, 48, 123, 124, 125, 126, 115, 119}

  /** The event types the tap receives. */
  datatype EventKind =
    | KeyDown
    | FlagsChanged
    | LeftMouseDown
    | RightMouseDown
    | TapDisabledByTimeout
    | TapDisabledByUserInput

  /** The modifier bits of an event that the callback looks at. */
  datatype Flags = Flags(shift: bool, control: bool, alternate: bool, command: bool)

  const NoFlags := Flags(false, false, false, false)

  datatype Event = Event(kind: EventKind, keyCode: KeyCode, flags: Flags)

  /** The callback returns the event (pass it on) or nil (swallow it). */
  datatype Verdict = PassThrough | Consume

  /** Work handed to the main queue. */
  datatype Scheduled =
    | ToggleCase
    | Retype(buffer: seq<KeyStroke>, extraDelete: nat)
    | ConvertSelection

  /** The program's global state. */
  datatype State = State(
    keystrokeBuffer: seq<KeyStroke>,
    previousWordBuffer: seq<KeyStroke>,
    lastBoundaryKeyStroke: Option<KeyStroke>,
    switching: bool,
    justConverted: bool,
    rightAltDown: bool)

  const Initial := State([], [], None, false, false, false)

  datatype Outcome = Outcome(next: State, verdict: Verdict, scheduled: Option<Scheduled>)

  /** Forget the current word, the previous word and the boundary. */
  function Cleared(s: State): State {
    s.(keystrokeBuffer := [], previousWordBuffer := [], lastBoundaryKeyStroke := None, justConverted := false)
  }

  /** The Right-Option release: convert the current word, else the previous
      word, else the selection. */
  function Dispatch(s: State): (r: Outcome)
    ensures r.verdict == PassThrough && r.scheduled.Some?
    ensures r.next.switching == s.switching && r.next.rightAltDown == s.rightAltDown
    ensures r.next.justConverted == s.justConverted
    ensures r.scheduled.value.Retype? ==> r.scheduled.value.buffer != [] && r.scheduled.value.extraDelete <= 1
  {
    if s.keystrokeBuffer != [] then
      Outcome(s.(keystrokeBuffer := []), PassThrough, Some(Retype(s.keystrokeBuffer, 0)))
    else if s.previousWordBuffer != [] then
      var extraDelete := if s.lastBoundaryKeyStroke.Some? then 1 else 0;
      Outcome(s.(previousWordBuffer := [], lastBoundaryKeyStroke := None), PassThrough,
              Some(Retype(s.previousWordBuffer, extraDelete)))
    else
      Outcome(s, PassThrough, Some(ConvertSelection))
  }

  /** The key-down branch of the callback, rule by rule in the order written. */
  function HandleKeyDown(s: State, e: Event): (r: Outcome)
    requires e.kind == KeyDown
    ensures r.next.switching == s.switching && r.next.rightAltDown == s.rightAltDown
    ensures r.verdict == Consume <==> (e.keyCode == KeyA && e.flags.alternate)
    ensures r.scheduled.Some? <==> r.verdict == Consume
    ensures r.scheduled.Some? ==> r.scheduled.value == ToggleCase
  {
    if e.keyCode == KeyA && e.flags.alternate then
      Outcome(s, Consume, Some(ToggleCase))
    else if e.flags.command || e.flags.control then
      Outcome(Cleared(s), PassThrough, None)
    else if e.keyCode == BackspaceKey then
      var buffer := if s.keystrokeBuffer != [] then s.keystrokeBuffer[..|s.keystrokeBuffer| - 1] else [];
      Outcome(s.(keystrokeBuffer := buffer, justConverted := false), PassThrough, None)
    else if e.keyCode in SaveWordBoundaryKeyCodes then
      var saved :=
        if s.keystrokeBuffer != [] then
          s.(previousWordBuffer := s.keystrokeBuffer,
             lastBoundaryKeyStroke := Some(KeyStroke(e.keyCode, e.flags.shift)))
        else s;
      Outcome(saved.(keystrokeBuffer := [], justConverted := false), PassThrough, None)
    else if e.keyCode in ClearBufferKeyCodes then
      Outcome(Cleared(s), PassThrough, None)
    else
      var start := if s.justConverted then Cleared(s) else s;
      Outcome(start.(keystrokeBuffer := start.keystrokeBuffer + [KeyStroke(e.keyCode, e.flags.shift)]),
              PassThrough, None)
  }

  /** One call of the event-tap callback. */
  function Classify(s: State, e: Event): (r: Outcome)
    ensures r.next.switching == s.switching
    ensures r.scheduled.Some? ==> !s.switching
    ensures r.verdict == Consume <==>
      (!s.switching && e.kind == KeyDown && e.keyCode == KeyA && e.flags.alternate)
    ensures e.kind != FlagsChanged ==> r.next.rightAltDown == s.rightAltDown
    ensures r.scheduled.Some? ==>
      (e.kind == KeyDown && e.keyCode == KeyA && e.flags.alternate)
      || (e.kind == FlagsChanged && e.keyCode == RightOptionKey && !e.flags.alternate && s.rightAltDown)
  {
    if e.kind == TapDisabledByTimeout || e.kind == TapDisabledByUserInput then
      Outcome(s, PassThrough, None)
    else if s.switching then
      Outcome(s, PassThrough, None)
    else if e.kind == LeftMouseDown || e.kind == RightMouseDown then
      Outcome(Cleared(s), PassThrough, None)
    else if e.kind == KeyDown then
      HandleKeyDown(s, e)
    else if e.kind == FlagsChanged && e.keyCode == RightOptionKey then
      if e.flags.alternate then
        Outcome(s.(rightAltDown := true), PassThrough, None)
      else if s.rightAltDown then
        Dispatch(s.(rightAltDown := false))
      else
        Outcome(s, PassThrough, None)
    else
      Outcome(s, PassThrough, None)
  }

  // ---------------------------------------------------------------------------
  // Runs of events
  // ---------------------------------------------------------------------------

  datatype RunResult = RunResult(final: State, verdicts: seq<Verdict>, scheduled: seq<Scheduled>)

  /** Deliver the events one after another, collecting verdicts and actions. */
  function Run(s: State, es: seq<Event>): RunResult
    decreases |es|
  {
    if es == [] then RunResult(s, [], [])
    else
      var o := Classify(s, es[0]);
      var rest := Run(o.next, es[1..]);
      var now := if o.scheduled.Some? then [o.scheduled.value] else [];
      RunResult(rest.final, [o.verdict] + rest.verdicts, now + rest.scheduled)
  }

  const RightOptionPress := Event(FlagsChanged, RightOptionKey, NoFlags.(alternate := true))
  const RightOptionRelease := Event(FlagsChanged, RightOptionKey, NoFlags)

  /** The conversion gesture: press and release Right Option. */
  const Trigger := [RightOptionPress, RightOptionRelease]

  /** A key-down that the callback records as part of the current word. */
  predicate IsRegularKeyDown(e: Event) {
    e.kind == KeyDown
    && !(e.keyCode == KeyA && e.flags.alternate)
    && !e.flags.command && !e.flags.control
    && e.keyCode != BackspaceKey
    && e.keyCode !in SaveWordBoundaryKeyCodes
    && e.keyCode !in ClearBufferKeyCodes
  }

  /** An event that forgets both words: a mouse click, a key with Command or
      Control (other than the Option+A chord), or a navigation/editing key. */
  predicate IsClearingEvent(e: Event) {
    e.kind == LeftMouseDown || e.kind == RightMouseDown
    || (e.kind == KeyDown && !(e.keyCode == KeyA && e.flags.alternate)
        && (e.flags.command || e.flags.control || e.keyCode in ClearBufferKeyCodes))
  }

  // ---------------------------------------------------------------------------
  // Properties of the classifier
  // ---------------------------------------------------------------------------

  /** While a conversion is in flight, every event passes through and nothing
      changes. */
  lemma GateHolds(s: State, e: Event)
    requires s.switching
    ensures Classify(s, e) == Outcome(s, PassThrough, None)
  {
  }

  /** The same for any run of events delivered while the gate is closed. */
  lemma {:induction false} GateHoldsForRun(s: State, es: seq<Event>)
    requires s.switching
    ensures Run(s, es).final == s
    ensures Run(s, es).scheduled == []
    ensures forall i :: 0 <= i < |Run(s, es).verdicts| ==> Run(s, es).verdicts[i] == PassThrough
    ensures |Run(s, es).verdicts| == |es|
    decreases |es|
  {
    if es != [] {
      GateHolds(s, es[0]);
      GateHoldsForRun(s, es[1..]);
    }
  }

  /** Clicks, Command/Control chords and navigation keys empty both buffers,
      forget the boundary and the just-converted mark, and pass through. */
  lemma ClearingEventClears(s: State, e: Event)
    requires !s.switching && IsClearingEvent(e)
    ensures var o := Classify(s, e);
      o.next.keystrokeBuffer == [] && o.next.previousWordBuffer == []
      && o.next.lastBoundaryKeyStroke == None && !o.next.justConverted
      && o.next.switching == s.switching && o.next.rightAltDown == s.rightAltDown
      && o.verdict == PassThrough && o.scheduled == None
  {
  }

  /** Backspace removes exactly the last keystroke of a non-empty word and
      leaves an empty one empty; the previous word and the boundary stay. */
  lemma BackspaceRemovesLast(s: State, f: Flags)
    requires !s.switching && !f.command && !f.control
    ensures var o := Classify(s, Event(KeyDown, BackspaceKey, f));
      (s.keystrokeBuffer != [] ==> o.next.keystrokeBuffer + [s.keystrokeBuffer[|s.keystrokeBuffer| - 1]] == s.keystrokeBuffer)
      && (s.keystrokeBuffer == [] ==> o.next.keystrokeBuffer == [])
      && o.next.previousWordBuffer == s.previousWordBuffer
      && o.next.lastBoundaryKeyStroke == s.lastBoundaryKeyStroke
      && !o.next.justConverted
      && o.next.switching == s.switching && o.next.rightAltDown == s.rightAltDown
      && o.verdict == PassThrough && o.scheduled == None
  {
  }

  /** Space saves a non-empty word as the previous word with its boundary
      keystroke, keeps the old previous word when the word is empty, and
      always leaves the word buffer empty. */
  lemma SpaceSavesWord(s: State, f: Flags)
    requires !s.switching && !f.command && !f.control
    ensures var o := Classify(s, Event(KeyDown, SpaceKey, f));
      o.next.keystrokeBuffer == []
      && (s.keystrokeBuffer != [] ==>
            o.next.previousWordBuffer == s.keystrokeBuffer
            && o.next.lastBoundaryKeyStroke == Some(KeyStroke(SpaceKey, f.shift)))
      && (s.keystrokeBuffer == [] ==>
            o.next.previousWordBuffer == s.previousWordBuffer
            && o.next.lastBoundaryKeyStroke == s.lastBoundaryKeyStroke)
      && !o.next.justConverted
      && o.next.switching == s.switching && o.next.rightAltDown == s.rightAltDown
      && o.verdict == PassThrough && o.scheduled == None
  {
  }

  /** A regular key appends its keystroke; right after a conversion it starts a
      new word instead, with both buffers and the boundary forgotten. */
  lemma RegularKeyAppends(s: State, e: Event)
    requires !s.switching && IsRegularKeyDown(e)
    ensures var o := Classify(s, e);
      var k := KeyStroke(e.keyCode, e.flags.shift);
      (s.justConverted ==>
         (o.next.keystrokeBuffer == [k] && o.next.previousWordBuffer == []
          && o.next.lastBoundaryKeyStroke == None))
      && (!s.justConverted ==>
            (o.next.keystrokeBuffer == s.keystrokeBuffer + [k]
             && o.next.previousWordBuffer == s.previousWordBuffer
             && o.next.lastBoundaryKeyStroke == s.lastBoundaryKeyStroke))
      && !o.next.justConverted
      && o.next.switching == s.switching && o.next.rightAltDown == s.rightAltDown
      && o.verdict == PassThrough && o.scheduled == None
  {
  }

  /** A key typed between the Right-Option press and its release does not
      cancel the trigger: the release then converts the word that now ends
      with that key. */
  lemma KeyWhileOptionHeldKeepsTrigger(s: State, e: Event)
    requires !s.switching && IsRegularKeyDown(e)
    ensures var pressed := Classify(s, RightOptionPress).next;
      var typed := Classify(pressed, e).next;
      var released := Classify(typed, RightOptionRelease);
      typed.rightAltDown
      && typed.keystrokeBuffer != []
      && typed.keystrokeBuffer[|typed.keystrokeBuffer| - 1] == KeyStroke(e.keyCode, e.flags.shift)
      && released.scheduled == Some(Retype(typed.keystrokeBuffer, 0))
  {
    var pressed := Classify(s, RightOptionPress).next;
    assert pressed == s.(rightAltDown := true);
    RegularKeyAppends(pressed, e);
  }

  /** Backspace straight after a word boundary erases the boundary character
      on screen, but the callback keeps the saved word and its boundary: the
      next trigger still asks for one delete beyond the word. */
  lemma BackspaceAfterSpaceKeepsBoundary(s: State)
    requires !s.switching && s.keystrokeBuffer != []
    ensures var spaced := Classify(s, Event(KeyDown, SpaceKey, NoFlags)).next;
      var erased := Classify(spaced, Event(KeyDown, BackspaceKey, NoFlags)).next;
      erased.keystrokeBuffer == [] && erased.previousWordBuffer == s.keystrokeBuffer
      && erased.lastBoundaryKeyStroke == Some(KeyStroke(SpaceKey, false))
      && Run(erased, Trigger).scheduled == [Retype(s.keystrokeBuffer, 1)]
  {
    var spaced := Classify(s, Event(KeyDown, SpaceKey, NoFlags)).next;
    SpaceSavesWord(s, NoFlags);
    BackspaceRemovesLast(spaced, NoFlags);
    var erased := Classify(spaced, Event(KeyDown, BackspaceKey, NoFlags)).next;
    var pressed := erased.(rightAltDown := true);
    assert Classify(erased, RightOptionPress).next == pressed;
    TriggerPriority(pressed, NoFlags);
    assert Trigger[1..] == [RightOptionRelease];
    assert Run(pressed, [RightOptionRelease]).scheduled == [Retype(s.keystrokeBuffer, 1)];
  }

  /** Right Option is an Option key, so Right Option held with A is also the
      Option+A chord: it is swallowed and schedules the case toggle, yet the
      trigger stays armed and the release schedules a retype as well. */
  lemma RightOptionAFiresBoth(s: State)
    requires !s.switching && s.keystrokeBuffer != []
    ensures var optionA := Event(KeyDown, KeyA, NoFlags.(alternate := true));
      var r := Run(s, [RightOptionPress, optionA, RightOptionRelease]);
      r.verdicts == [PassThrough, Consume, PassThrough]
      && r.scheduled == [ToggleCase, Retype(s.keystrokeBuffer, 0)]
  {
    var optionA := Event(KeyDown, KeyA, NoFlags.(alternate := true));
    var es := [RightOptionPress, optionA, RightOptionRelease];
    var pressed := s.(rightAltDown := true);
    assert Classify(s, RightOptionPress) == Outcome(pressed, PassThrough, None);
    OptionAConsumed(pressed, optionA.flags);
    TriggerPriority(pressed, NoFlags);
    assert es[1..] == [optionA, RightOptionRelease];
    assert es[1..][1..] == [RightOptionRelease];
    var o := Classify(pressed, RightOptionRelease);
    assert o.verdict == PassThrough && o.scheduled == Some(Retype(s.keystrokeBuffer, 0));
    assert [RightOptionRelease][1..] == [];
    assert Run(o.next, []) == RunResult(o.next, [], []);
    var released := Run(pressed, [RightOptionRelease]);
    assert released.verdicts == [PassThrough] && released.scheduled == [Retype(s.keystrokeBuffer, 0)];
  }

  /** Option+A is swallowed and schedules the case toggle; no buffer changes. */
  lemma OptionAConsumed(s: State, f: Flags)
    requires !s.switching && f.alternate
    ensures Classify(s, Event(KeyDown, KeyA, f)) == Outcome(s, Consume, Some(ToggleCase))
  {
  }

  /** The Right-Option release after its press resolves, in strict priority,
      to the current word, else the previous word (deleting the boundary too
      when one was recorded), else the selection. */
  lemma TriggerPriority(s: State, f: Flags)
    requires !s.switching && s.rightAltDown && !f.alternate
    ensures var o := Classify(s, Event(FlagsChanged, RightOptionKey, f));
      o.verdict == PassThrough && !o.next.rightAltDown
      && (s.keystrokeBuffer != [] ==>
            o.scheduled == Some(Retype(s.keystrokeBuffer, 0))
            && o.next == s.(keystrokeBuffer := [], rightAltDown := false))
      && (s.keystrokeBuffer == [] && s.previousWordBuffer != [] ==>
            o.scheduled == Some(Retype(s.previousWordBuffer, if s.lastBoundaryKeyStroke.Some? then 1 else 0))
            && o.next == s.(previousWordBuffer := [], lastBoundaryKeyStroke := None, rightAltDown := false))
      && (s.keystrokeBuffer == [] && s.previousWordBuffer == [] ==>
            o.scheduled == Some(ConvertSelection) && o.next == s.(rightAltDown := false))
  {
  }

  /** Pressing Right Option only arms the trigger, whatever other modifiers
      are held. */
  lemma PressArms(s: State, f: Flags)
    requires !s.switching && f.alternate
    ensures Classify(s, Event(FlagsChanged, RightOptionKey, f))
            == Outcome(s.(rightAltDown := true), PassThrough, None)
  {
  }

  /** A Right-Option release with no press before it does nothing, whatever
      other modifiers are held. */
  lemma UnarmedReleaseIgnored(s: State, f: Flags)
    requires !s.rightAltDown && !f.alternate
    ensures Classify(s, Event(FlagsChanged, RightOptionKey, f)) == Outcome(s, PassThrough, None)
  {
  }

  /** A disabled tap is re-enabled by the system glue; the event itself
      passes through and changes nothing. */
  lemma TapDisabledPassesThrough(s: State, e: Event)
    requires e.kind == TapDisabledByTimeout || e.kind == TapDisabledByUserInput
    ensures Classify(s, e) == Outcome(s, PassThrough, None)
  {
  }

  /** A modifier change on any other key does nothing. */
  lemma OtherFlagsIgnored(s: State, e: Event)
    requires e.kind == FlagsChanged && e.keyCode != RightOptionKey
    ensures Classify(s, e) == Outcome(s, PassThrough, None)
  {
  }

  /** Key-down events for the given keystrokes, with no modifier but Shift. */
  function Typing(ks: seq<KeyStroke>): seq<Event> {
    seq(|ks|, i requires 0 <= i < |ks| => Event(KeyDown, ks[i].keyCode, NoFlags.(shift := ks[i].shift)))
  }

  /** A keystroke the callback records as part of a word when typed. */
  predicate IsWordKey(k: KeyStroke) {
    k.keyCode != BackspaceKey && k.keyCode !in SaveWordBoundaryKeyCodes && k.keyCode !in ClearBufferKeyCodes
  }

  /** Typing word keys extends the current word by exactly those keystrokes,
      and nothing else changes. */
  lemma {:induction false} TypingRecordsKeys(s: State, ks: seq<KeyStroke>)
    requires !s.switching && !s.justConverted
    requires forall i :: 0 <= i < |ks| ==> IsWordKey(ks[i])
    ensures Run(s, Typing(ks)).final == s.(keystrokeBuffer := s.keystrokeBuffer + ks)
    ensures Run(s, Typing(ks)).scheduled == []
    decreases |ks|
  {
    if ks != [] {
      var es := Typing(ks);
      var e := es[0];
      assert IsRegularKeyDown(e);
      var next := s.(keystrokeBuffer := s.keystrokeBuffer + [ks[0]]);
      assert Classify(s, e) == Outcome(next, PassThrough, None);
      assert es[1..] == Typing(ks[1..]);
      TypingRecordsKeys(next, ks[1..]);
      assert next.keystrokeBuffer + ks[1..] == s.keystrokeBuffer + ks;
    }
  }
}
