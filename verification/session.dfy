/**
 The typing-test session engine: one immutable session record and one
 step per user or timer event.

 Each event is one atomic transition. After every event the completion
 rule runs in the same step: a running session whose input has reached
 the passage length finishes and is scored, before any later tick can
 add time.
 */
module Session {
  import opened Metrics

  datatype Status = Idle | Running | Paused | Finished

  /**
   Everything the engine keeps between events. `timerLive` says whether the
   clock's interval is ticking; `loading` holds until the first passage
   arrives; `backspaceOff` is the user's backspace-lock setting.
   */
  datatype Session = Session(
    passage: string,
    input: string,
    status: Status,
    elapsed: real,
    scores: Scores,
    capsOn: bool,
    focused: bool,
    loading: bool,
    timerLive: bool,
    backspaceOff: bool)

  /**
   The events the engine reacts to. `Input` carries the whole current text
   of the input field; `Tick` carries the seconds since the previous tick;
   `Reset` carries the freshly generated passage.
   */
  datatype Event =
    | Input(value: string)
    | Focus
    | Blur
    | CapsProbe(on: bool)
    | Tick(delta: real)
    | Reset(next: string)
    | SetBackspaceOff(off: bool)

  /** The component as first mounted: no passage yet, still loading. */
  function Initial(): Session
  {
    Session("", "", Idle, 0.0, Zero, false, true, true, false, false)
  }

  /** The clock's ticks never go backwards. */
  predicate WellFormed(e: Event)
  {
    e.Tick? ==> e.delta >= 0.0
  }

  /** Resuming needs both independent conditions: focus and Caps Lock off. */
  predicate CanResume(s: Session)
  {
    s.focused && !s.capsOn
  }

  // ---------------------------------------------------------------------
  // Clock

  /** Starts (or restarts) the clock and marks the session running. */
  function StartTimer(s: Session): (r: Session)
    ensures r.status == Running && r.timerLive
    ensures r.(status := s.status, timerLive := s.timerLive) == s
  {
    s.(status := Running, timerLive := true)
  }

  /** Stops the clock if it is ticking; an unfinished session becomes paused. */
  function PauseTimer(s: Session): (r: Session)
    ensures !r.timerLive
    ensures r.(status := s.status, timerLive := s.timerLive) == s
    ensures s.timerLive ==> r.status == (if s.status == Finished then Finished else Paused)
    ensures !s.timerLive ==> r == s
  {
    if s.timerLive then
      s.(timerLive := false, status := if s.status != Finished then Paused else s.status)
    else s
  }

  /** A timer tick: the clock only accrues while it is ticking. */
  function OnTick(s: Session, delta: real): (r: Session)
    ensures r.elapsed == if s.timerLive then s.elapsed + delta else s.elapsed
    ensures r.(elapsed := s.elapsed) == s
  {
    if s.timerLive then s.(elapsed := s.elapsed + delta) else s
  }

  // ---------------------------------------------------------------------
  // Completion and reset

  /** Stops the clock, marks the session finished and scores it with the elapsed time as of the last tick. */
  function FinishTest(s: Session): (r: Session)
    ensures r.status == Finished && !r.timerLive
    ensures r.scores == Score(s.input, s.passage, s.elapsed)
    ensures r.(status := s.status, timerLive := s.timerLive, scores := s.scores) == s
  {
    s.(timerLive := false, status := Finished, scores := Score(s.input, s.passage, s.elapsed))
  }

  /** The input has reached (or passed) the end of the passage. */
  predicate Complete(s: Session)
  {
    |s.input| >= |s.passage|
  }

  /** The completion rule, run after every event. */
  function Settle(s: Session): (r: Session)
    ensures !(r.status == Running && Complete(r))
    ensures r.(status := s.status, timerLive := s.timerLive, scores := s.scores) == s
    ensures s.status == Running && Complete(s) ==>
              r.status == Finished && !r.timerLive && r.scores == Score(s.input, s.passage, s.elapsed)
    ensures !(s.status == Running && Complete(s)) ==> r == s
  {
    if s.status == Running && Complete(s) then FinishTest(s) else s
  }

  /** A new passage: the session starts over, idle, with nothing typed and nothing timed. */
  function ResetTest(s: Session, next: string): (r: Session)
    ensures r.passage == next && r.input == [] && r.status == Idle
    ensures r.elapsed == 0.0 && r.scores == Zero
    ensures !r.timerLive && r.focused && !r.loading
    ensures r.capsOn == s.capsOn && r.backspaceOff == s.backspaceOff
  {
    s.(passage := next, input := "", status := Idle, elapsed := 0.0, scores := Zero,
       timerLive := false, focused := true, loading := false)
  }

  // ---------------------------------------------------------------------
  // Input, focus and Caps Lock

  /** The input field refuses every change while finished, loading or Caps Lock is on. */
  predicate InputBlocked(s: Session)
  {
    s.status == Finished || s.loading || s.capsOn
  }

  /**
   With backspace locked, a change that shortens the input is refused.
   (The source blocks the Backspace key itself; a shorter value is how the
   change shows up here.)
   */
  predicate BackspaceRefused(s: Session, value: string)
  {
    s.backspaceOff && |value| < |s.input|
  }

  /** The input field's text changed to `value`. */
  function HandleInput(s: Session, value: string): (r: Session)
    ensures InputBlocked(s) || BackspaceRefused(s, value) ==> r == s
    ensures !InputBlocked(s) && !BackspaceRefused(s, value) ==>
              r.input == value
              && r.status == (if s.status == Idle && |value| > 0 then Running else s.status)
              && r.timerLive == (if s.status == Idle && |value| > 0 then true else s.timerLive)
    ensures r.(status := s.status, timerLive := s.timerLive, input := s.input) == s
  {
    if InputBlocked(s) then s
    else if BackspaceRefused(s, value) then s
    else
      var started := if s.status == Idle && |value| > 0 then StartTimer(s) else s;
      started.(input := value)
  }

  /** The input field gained focus; a paused session resumes unless Caps Lock is on. */
  function HandleFocus(s: Session): (r: Session)
    ensures r.focused
    ensures s.status == Paused && !s.capsOn ==> r.status == Running && r.timerLive
    ensures !(s.status == Paused && !s.capsOn) ==> r.status == s.status && r.timerLive == s.timerLive
    ensures r.(status := s.status, timerLive := s.timerLive, focused := s.focused) == s
  {
    var s1 := s.(focused := true);
    if s.status == Paused && !s.capsOn then StartTimer(s1) else s1
  }

  /** The input field lost focus; a running session pauses. */
  function HandleBlur(s: Session): (r: Session)
    ensures !r.focused
    ensures s.status == Running && s.timerLive ==> r.status == Paused && !r.timerLive
    ensures !(s.status == Running && s.timerLive) ==> r.status == s.status && r.timerLive == s.timerLive
    ensures r.(status := s.status, timerLive := s.timerLive, focused := s.focused) == s
  {
    var s1 := s.(focused := false);
    if s.status == Running then PauseTimer(s1) else s1
  }

  /** A key or mouse event reported the Caps Lock state `on`. */
  function CheckCapsLock(s: Session, on: bool): (r: Session)
    ensures r.capsOn == on
    ensures on && s.status == Running && s.timerLive ==> r.status == Paused && !r.timerLive
    ensures !on && s.status == Paused && s.focused ==> r.status == Running && r.timerLive
    ensures !(s.status == Running && on && s.timerLive) && !(s.status == Paused && !on && s.focused) ==>
              r.status == s.status && r.timerLive == s.timerLive
    ensures r.(status := s.status, timerLive := s.timerLive, capsOn := s.capsOn) == s
  {
    var s1 := s.(capsOn := on);
    if on then
      (if s.status == Running then PauseTimer(s1) else s1)
    else
      (if s.status == Paused && s.focused then StartTimer(s1) else s1)
  }

  // ---------------------------------------------------------------------
  // The step function

  /**
   One event, followed by the completion rule. The passage changes only on
   a reset; the input only on an input change or a reset; the Caps Lock,
   focus and backspace-lock flags only on their own events (focus also on
   a reset).
   */
  function Step(s: Session, e: Event): (r: Session)
    ensures !e.Reset? ==> r.passage == s.passage
    ensures !e.Reset? && !e.Input? ==> r.input == s.input
    ensures !e.CapsProbe? ==> r.capsOn == s.capsOn
    ensures !e.Focus? && !e.Blur? && !e.Reset? ==> r.focused == s.focused
    ensures r.backspaceOff == if e.SetBackspaceOff? then e.off else s.backspaceOff
    ensures !(r.status == Running && Complete(r))
  {
    var s1 := match e
      case Input(value) => HandleInput(s, value)
      case Focus => HandleFocus(s)
      case Blur => HandleBlur(s)
      case CapsProbe(on) => CheckCapsLock(s, on)
      case Tick(delta) => OnTick(s, delta)
      case Reset(next) => ResetTest(s, next)
      case SetBackspaceOff(off) => s.(backspaceOff := off);
    Settle(s1)
  }

  /** A sequence of events, applied in order. */
  function Run(s: Session, es: seq<Event>): Session
    decreases |es|
  {
    if |es| == 0 then s else Run(Step(s, es[0]), es[1..])
  }

  // ---------------------------------------------------------------------
  // Invariant of every reachable session

  /**
   The clock ticks exactly while running; a running session is never
   complete; an idle one has nothing typed or timed; loading only happens
   before the first passage; the scores are zero until the session
   finishes and then are the scores of the final input.
   */
  predicate Inv(s: Session)
  {
    && s.elapsed >= 0.0
    && (s.timerLive <==> s.status == Running)
    && (s.status == Running ==> !Complete(s))
    && (s.status == Idle ==> s.input == [] && s.elapsed == 0.0)
    && (s.loading ==> s.status == Idle)
    && (s.status == Finished ==> s.scores == Score(s.input, s.passage, s.elapsed))
    && (s.status != Finished ==> s.scores == Zero)
  }

  lemma InitialInv()
    ensures Inv(Initial())
  {
  }

  /** Every well-formed event preserves the invariant. */
  lemma StepInv(s: Session, e: Event)
    requires Inv(s) && WellFormed(e)
    ensures Inv(Step(s, e))
  {
  }

  /** Every session reached from the initial one by well-formed events satisfies the invariant. */
  lemma {:induction false} RunInv(s: Session, es: seq<Event>)
    requires Inv(s)
    requires forall i :: 0 <= i < |es| ==> WellFormed(es[i])
    ensures Inv(Run(s, es))
    decreases |es|
  {
    if |es| > 0 {
      StepInv(s, es[0]);
      RunInv(Step(s, es[0]), es[1..]);
    }
  }

  // ---------------------------------------------------------------------
  // Input gating

  /** While finished, loading or under Caps Lock, an input event changes nothing at all. */
  lemma InputIgnoredWhenBlocked(s: Session, value: string)
    requires InputBlocked(s) && !(s.status == Running && Complete(s))
    ensures Step(s, Input(value)) == s
  {
  }

  /** An accepted input is stored, and otherwise the whole session is unchanged. */
  lemma InputAcceptedIff(s: Session, value: string)
    requires Inv(s)
    ensures !InputBlocked(s) && !BackspaceRefused(s, value) ==> Step(s, Input(value)).input == value
    ensures InputBlocked(s) || BackspaceRefused(s, value) ==> Step(s, Input(value)) == s
  {
  }

  /** The first non-empty input starts the clock; an input that already completes the passage finishes at once. */
  lemma FirstInputStarts(s: Session, value: string)
    requires Inv(s) && s.status == Idle && !InputBlocked(s) && |value| > 0
    ensures Step(s, Input(value)).status == if |value| >= |s.passage| then Finished else Running
    ensures Step(s, Input(value)).timerLive <==> |value| < |s.passage|
  {
  }

  /** An empty input leaves an idle session idle. */
  lemma EmptyInputStaysIdle(s: Session)
    requires Inv(s) && s.status == Idle
    ensures Step(s, Input("")) == s
  {
  }

  /** While running, reaching the passage length finishes and scores the session in the same step. */
  lemma InputCompletes(s: Session, value: string)
    requires Inv(s) && s.status == Running && !InputBlocked(s) && !BackspaceRefused(s, value)
    requires |value| >= |s.passage|
    ensures Step(s, Input(value)).status == Finished
    ensures Step(s, Input(value)).scores == Score(value, s.passage, s.elapsed)
    ensures !Step(s, Input(value)).timerLive
  {
  }

  /** While running, an input short of the passage keeps the session running. */
  lemma InputKeepsRunning(s: Session, value: string)
    requires Inv(s) && s.status == Running && !InputBlocked(s) && !BackspaceRefused(s, value)
    requires |value| < |s.passage|
    ensures Step(s, Input(value)) == s.(input := value)
  {
  }

  /** A paused session accepts input without changing status. */
  lemma PausedAcceptsInput(s: Session, value: string)
    requires Inv(s) && s.status == Paused && !InputBlocked(s) && !BackspaceRefused(s, value)
    ensures Step(s, Input(value)) == s.(input := value)
  {
  }

  // ---------------------------------------------------------------------
  // Pause and resume

  /** Losing focus or Caps Lock coming on pauses a running session and stops its clock. */
  lemma RunningPauses(s: Session)
    requires Inv(s) && s.status == Running
    ensures Step(s, Blur).status == Paused && !Step(s, Blur).timerLive
    ensures Step(s, CapsProbe(true)).status == Paused && !Step(s, CapsProbe(true)).timerLive
  {
  }

  /** The status a resumed session lands in: running, or finished if its input is already complete. */
  function ResumedStatus(s: Session): Status
  {
    if Complete(s) then Finished else Running
  }

  /** Regaining focus resumes a paused session exactly when Caps Lock is off. */
  lemma FocusResumesIff(s: Session)
    requires Inv(s) && s.status == Paused
    ensures Step(s, Focus).status == if !s.capsOn then ResumedStatus(s) else Paused
  {
  }

  /** Caps Lock going off resumes a paused session exactly when it is focused. */
  lemma CapsOffResumesIff(s: Session)
    requires Inv(s) && s.status == Paused
    ensures Step(s, CapsProbe(false)).status == if s.focused then ResumedStatus(s) else Paused
  {
  }

  /** After either resume event, the session runs only when both conditions hold. */
  lemma ResumeNeedsBoth(s: Session, e: Event)
    requires Inv(s) && s.status == Paused && !Complete(s)
    requires e == Focus || e == CapsProbe(false)
    ensures Step(s, e).status == Running <==> CanResume(Step(s, e))
  {
  }

  /** Focus, blur and Caps Lock events change the status only in the cases above. */
  lemma FocusEventsOtherwiseKeepStatus(s: Session, e: Event)
    requires Inv(s)
    requires e == Focus || e == Blur || e.CapsProbe?
    requires !(s.status == Running && (e == Blur || e == CapsProbe(true)))
    requires !(s.status == Paused && (e == Focus || e == CapsProbe(false)))
    ensures Step(s, e).status == s.status
    ensures Step(s, e).input == s.input && Step(s, e).elapsed == s.elapsed && Step(s, e).scores == s.scores
  {
  }

  /** Toggling the backspace lock changes nothing but the lock. */
  lemma BackspaceSettingOnlyFlag(s: Session, off: bool)
    requires Inv(s)
    ensures Step(s, SetBackspaceOff(off)) == s.(backspaceOff := off)
  {
  }

  /** Pausing twice is the same as pausing once. */
  lemma PauseIdempotent(s: Session)
    ensures PauseTimer(PauseTimer(s)) == PauseTimer(s)
  {
  }

  /** A second blur in a row changes nothing, in particular not the elapsed time. */
  lemma BlurTwiceIsBlurOnce(s: Session)
    requires Inv(s)
    ensures Step(Step(s, Blur), Blur) == Step(s, Blur)
  {
  }

  // ---------------------------------------------------------------------
  // Clock

  /** A tick adds its delta exactly when the session is running. */
  lemma TickAccruesOnlyWhileRunning(s: Session, delta: real)
    requires Inv(s)
    ensures Step(s, Tick(delta)).elapsed == if s.status == Running then s.elapsed + delta else s.elapsed
  {
  }

  /** Only ticks and resets touch the elapsed time. */
  lemma ElapsedOnlyOnTick(s: Session, e: Event)
    requires !e.Tick? && !e.Reset?
    ensures Step(s, e).elapsed == s.elapsed
  {
  }

  /** Without a reset, the elapsed time never decreases along a run of well-formed events. */
  lemma {:induction false} ElapsedMonotone(s: Session, es: seq<Event>)
    requires forall i :: 0 <= i < |es| ==> WellFormed(es[i]) && !es[i].Reset?
    ensures Run(s, es).elapsed >= s.elapsed
    decreases |es|
  {
    if |es| > 0 {
      assert WellFormed(es[0]) && !es[0].Reset?;
      ElapsedMonotone(Step(s, es[0]), es[1..]);
    }
  }

  // ---------------------------------------------------------------------
  // Finish and reset

  /** A finished session stays finished, with input, time and scores frozen, until a reset. */
  lemma FinishedIsTerminal(s: Session, e: Event)
    requires Inv(s) && s.status == Finished && !e.Reset?
    ensures Step(s, e).status == Finished
    ensures Step(s, e).input == s.input && Step(s, e).elapsed == s.elapsed && Step(s, e).scores == s.scores
  {
  }

  /** The same along any run without a reset. */
  lemma {:induction false} FinishedIsTerminalRun(s: Session, es: seq<Event>)
    requires Inv(s) && s.status == Finished
    requires forall i :: 0 <= i < |es| ==> WellFormed(es[i]) && !es[i].Reset?
    ensures Run(s, es).status == Finished
    ensures Run(s, es).input == s.input && Run(s, es).elapsed == s.elapsed && Run(s, es).scores == s.scores
    decreases |es|
  {
    if |es| > 0 {
      assert WellFormed(es[0]) && !es[0].Reset?;
      FinishedIsTerminal(s, es[0]);
      StepInv(s, es[0]);
      FinishedIsTerminalRun(Step(s, es[0]), es[1..]);
    }
  }

  /** Scores change only when the session finishes or is reset, so completion scores once. */
  lemma ScoresChangeOnlyAtFinish(s: Session, e: Event)
    requires Inv(s)
    ensures Step(s, e).scores != s.scores ==>
              e.Reset? || (s.status != Finished && Step(s, e).status == Finished)
  {
  }

  /** A reset from any state starts a fresh session on the new passage. */
  lemma ResetClears(s: Session, next: string)
    ensures Step(s, Reset(next)) == ResetTest(s, next)
    ensures Step(s, Reset(next)).status == Idle && Step(s, Reset(next)).input == []
    ensures Step(s, Reset(next)).elapsed == 0.0 && Step(s, Reset(next)).scores == Zero
    ensures !Step(s, Reset(next)).timerLive && Step(s, Reset(next)).focused
  {
  }

  /** Typing "cat dog" in full finishes the session, and a further input is ignored. */
  lemma ExampleCatDog(s: Session)
    requires Inv(s) && s.status == Running && s.passage == "cat dog" && !s.capsOn
    ensures Step(s, Input("cat dog")).status == Finished
    ensures Step(s, Input("cat dog")).scores.errors == 0
    ensures Step(Step(s, Input("cat dog")), Input("cat dogx")) == Step(s, Input("cat dog"))
  {
    NoErrorsIffPrefix("cat dog", "cat dog");
    assert "cat dog"[..|"cat dog"|] == "cat dog";
  }
}
