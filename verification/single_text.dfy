/** The older single-passage app: one target text, the keyboard reducer, per-character
    states, completion, its inline words-per-minute effects, restart, custom text and the
    line-width buttons. */
module SingleText {
  import opened Wrappers
  import opened TextNorm
  import opened Feedback
  import Wpm
  import LineLimit
  import LegacyCanvas
  import KeyDispatch

  /** The passage the app starts with (two literals, so that its characters are visible to proofs). */
  const DefaultText: string := "Focus on accuracy first, " + "speed follows when your fingers trust the keys."

  /** The app's state hooks. */
  datatype Practice = Practice(
    targetText: string,
    typedText: string,
    lineLimit: int,
    startTimestamp: Option<int>,
    liveWpm: real,
    finalWpm: Option<real>)

  function InitialPractice(): (p: Practice)
    ensures p.targetText == NormalizePrompt(DefaultText) && p.targetText != "" && IsCanonical(p.targetText)
    ensures p.typedText == "" && p.lineLimit == LineLimit.InitialLineLimit
    ensures p.startTimestamp.None? && p.liveWpm == 0.0 && p.finalWpm.None?
  {
    assert DefaultText[0] == 'F';
    NonBlankNormalizes(DefaultText);
    Practice(NormalizePrompt(DefaultText), "", LineLimit.InitialLineLimit, None, 0.0, None)
  }

  /** A text that starts with a non-space character normalizes to a usable target. */
  lemma NonBlankNormalizes(s: string)
    requires |s| > 0 && !IsSpace(s[0])
    ensures NormalizePrompt(s) != "" && IsCanonical(NormalizePrompt(s))
  {
    NormalizeIsCanonical(s);
    NormalizeEmptyIff(s);
  }

  /** `slice(0, -1)`: the last character dropped, and nothing from an empty string. */
  function DropLast(s: string): (r: string)
    ensures s == "" ==> r == ""
    ensures s != "" ==> r + [s[|s| - 1]] == s
  {
    if |s| == 0 then s else s[..|s| - 1]
  }

  /** Escape and the Restart button: the attempt and the clock are cleared. */
  function ClearAttempt(p: Practice): (r: Practice)
    ensures r.typedText == "" && r.startTimestamp.None? && r.liveWpm == 0.0 && r.finalWpm.None?
    ensures r.targetText == p.targetText && r.lineLimit == p.lineLimit
  {
    p.(typedText := "", startTimestamp := None, liveWpm := 0.0, finalWpm := None)
  }

  /** `handleKeyDown`. */
  function KeyDown(p: Practice, e: KeyDispatch.KeyEvent, now: int): (r: Practice)
    ensures r.targetText == p.targetText && r.lineLimit == p.lineLimit
    ensures KeyDispatch.HasModifier(e) ==> r == p
    ensures !KeyDispatch.HasModifier(e) && e.key == "Escape" ==> r == ClearAttempt(p)
    ensures !KeyDispatch.HasModifier(e) && e.key == "Backspace" ==>
      r.typedText == DropLast(p.typedText) &&
      r.startTimestamp == p.startTimestamp && r.liveWpm == p.liveWpm && r.finalWpm == p.finalWpm
    // a character is taken only while the attempt is shorter than the target
    ensures !KeyDispatch.HasModifier(e) && KeyDispatch.IsCharacterKey(e.key) ==>
      if |p.typedText| >= |p.targetText| then r == p
      else r.typedText == p.typedText + e.key && r.liveWpm == p.liveWpm && r.finalWpm == p.finalWpm
    // the clock only starts on a character typed into an empty attempt with no clock
    ensures r.startTimestamp != p.startTimestamp ==>
      r.startTimestamp.None? ||
      (p.typedText == "" && p.startTimestamp.None? && r.startTimestamp == Some(now) && r.typedText == e.key)
    ensures !KeyDispatch.HasModifier(e) && e.key != "Escape" && e.key != "Backspace" ==>
      (KeyDispatch.IsCharacterKey(e.key) || r == p)
  {
    if KeyDispatch.HasModifier(e) then p
    else if e.key == "Escape" then ClearAttempt(p)
    else if e.key == "Backspace" then p.(typedText := DropLast(p.typedText))
    else if KeyDispatch.IsCharacterKey(e.key) then
      if |p.typedText| >= |p.targetText| then p
      else
        var started := if |p.typedText| == 0 && p.startTimestamp.None? then Some(now) else p.startTimestamp;
        p.(typedText := p.typedText + e.key, startTimestamp := started)
    else p
  }

  /** `characterStates`: one state per target character. */
  function CharacterStates(p: Practice): (ms: seq<Mark>)
    ensures |ms| == |p.targetText|
    ensures forall i :: 0 <= i < |ms| ==>
      (ms[i] == Pending <==> i >= |p.typedText|) &&
      (ms[i] == Correct <==> i < |p.typedText| && p.typedText[i] == p.targetText[i]) &&
      (ms[i] == Incorrect <==> i < |p.typedText| && p.typedText[i] != p.targetText[i])
  {
    Marks(p.targetText, p.typedText)
  }

  /** `typedText === targetText`: the whole target typed, so the attempt has its length. */
  predicate IsComplete(p: Practice)
    ensures IsComplete(p) ==> |p.typedText| == |p.targetText|
  {
    p.typedText == p.targetText
  }

  /** Complete exactly when the attempt has the target's length and every state is
      correct; a full-length attempt with any error is not complete. */
  lemma CompleteIffAllCorrect(p: Practice)
    ensures IsComplete(p) <==> |p.typedText| == |p.targetText| && AllCorrect(CharacterStates(p))
  {
    AllCorrectIffTypedPrefix(p.targetText, p.typedText);
    if |p.typedText| == |p.targetText| {
      assert p.typedText[..|p.targetText|] == p.typedText;
    }
  }

  /** `renderedCharacters`: the letters with the caret spliced in at the attempt's length
      until the attempt is complete. */
  function RenderedCharacters(p: Practice): (gs: seq<Glyph>)
    ensures |gs| == if IsComplete(p) then |p.targetText| else |p.targetText| + 1
    ensures CaretCount(gs) == if IsComplete(p) then 0 else 1
    ensures LettersOnly(gs) == LegacyCanvas.Letters(p.targetText, p.typedText)
    ensures !IsComplete(p) && |p.typedText| <= |p.targetText| ==> gs[|p.typedText|] == Caret
  {
    LegacyCanvas.Characters(p.targetText, p.typedText, IsComplete(p))
  }

  /** A full-length attempt with a mistake still shows the caret, after the last letter. */
  lemma MistakeKeepsCaretAtEnd(p: Practice, i: nat)
    requires |p.typedText| == |p.targetText| && i < |p.targetText| && p.typedText[i] != p.targetText[i]
    ensures var gs := RenderedCharacters(p); !IsComplete(p) && gs[|gs| - 1] == Caret
  {
  }

  // ---------------------------------------------------------------------------------------
  // Words per minute, as the effects compute it inline

  /** The inline rate: (characters / 5) / (milliseconds / 60000), 0 for a non-positive
      duration, and 0 unless the rate is positive. */
  function InlineRate(charactersTyped: int, elapsedMs: int): real {
    if elapsedMs <= 0 then 0.0
    else
      var minutes := elapsedMs as real / 60000.0;
      var words := charactersTyped as real / 5.0;
      var wpm := words / minutes;
      if wpm > 0.0 then wpm else 0.0
  }

  /** The inline formula is `computeWpm`. */
  lemma InlineRateIsComputeWpm(charactersTyped: int, elapsedMs: int)
    ensures InlineRate(charactersTyped, elapsedMs) == Wpm.ComputeWpm(charactersTyped, elapsedMs)
  {
  }

  /** `if (startTimestamp)`: null and 0 are both falsy. */
  predicate ClockRunning(p: Practice) {
    p.startTimestamp.Some? && p.startTimestamp.value != 0
  }

  /** The live effect's body, also what each interval tick runs. */
  function LiveEffect(p: Practice, now: int): (r: Practice)
    ensures r.(liveWpm := p.liveWpm) == p
    ensures !ClockRunning(p) || |p.typedText| == 0 ==> r.liveWpm == 0.0
    ensures ClockRunning(p) && |p.typedText| > 0 ==>
      r.liveWpm == Wpm.ComputeWpm(|p.typedText|, now - p.startTimestamp.value)
  {
    InlineRateIsComputeWpm(|p.typedText|, if ClockRunning(p) then now - p.startTimestamp.value else 0);
    if !ClockRunning(p) || |p.typedText| == 0 then p.(liveWpm := 0.0)
    else p.(liveWpm := InlineRate(|p.typedText|, now - p.startTimestamp.value))
  }

  /** The final-reading effect. */
  function FinalizeEffect(p: Practice, now: int): (r: Practice)
    ensures r.targetText == p.targetText && r.typedText == p.typedText
    ensures r.lineLimit == p.lineLimit && r.startTimestamp == p.startTimestamp
    ensures !IsComplete(p) ==> r.finalWpm.None? && r.liveWpm == p.liveWpm
    ensures IsComplete(p) && ClockRunning(p) && now - p.startTimestamp.value > 0 ==>
      r.finalWpm == Some(r.liveWpm) && r.liveWpm == Wpm.ComputeWpm(|p.typedText|, now - p.startTimestamp.value)
    ensures IsComplete(p) && !(ClockRunning(p) && now - p.startTimestamp.value > 0) ==> r == p
  {
    if IsComplete(p) && ClockRunning(p) then
      var elapsedMs := now - p.startTimestamp.value;
      if elapsedMs > 0 then
        InlineRateIsComputeWpm(|p.typedText|, elapsedMs);
        var finalValue := InlineRate(|p.typedText|, elapsedMs);
        p.(finalWpm := Some(finalValue), liveWpm := finalValue)
      else p
    else if !IsComplete(p) then p.(finalWpm := None)
    else p
  }

  function HandleRestart(p: Practice): (r: Practice)
    ensures r.typedText == "" && r.startTimestamp.None? && r.finalWpm.None?
  {
    ClearAttempt(p)
  }

  /** The Restart button does what Escape does. */
  lemma RestartButtonIsEscape(p: Practice, now: int)
    ensures HandleRestart(p) == KeyDown(p, KeyDispatch.KeyEvent("Escape", false, false, false), now)
  {
  }

  /** `handleCustomText`, given the prompt's answer (`None` when it was cancelled). */
  function HandleCustomText(p: Practice, response: Option<string>): (r: Practice)
    ensures response.None? || NormalizePrompt(response.value) == "" ==> r == p
    ensures response.Some? && NormalizePrompt(response.value) != "" ==>
      r.targetText == NormalizePrompt(response.value) && r.typedText == "" &&
      r.startTimestamp.None? && r.liveWpm == 0.0 && r.finalWpm.None? && r.lineLimit == p.lineLimit
  {
    match response
    case None => p
    case Some(text) =>
      var normalized := NormalizePrompt(text);
      if |normalized| == 0 then p else ClearAttempt(p).(targetText := normalized)
  }

  /** A cancelled prompt or a blank answer changes nothing; a real answer installs a
      canonical, non-empty target. */
  lemma CustomTextOutcome(p: Practice, response: Option<string>)
    ensures response.None? || AllSpace(response.value) ==> HandleCustomText(p, response) == p
    ensures response.Some? && !AllSpace(response.value) ==>
      var t := HandleCustomText(p, response).targetText; t != "" && IsCanonical(t)
  {
    if response.Some? {
      NormalizeEmptyIff(response.value);
      NormalizeIsCanonical(response.value);
    }
  }

  function AdjustLineLimit(p: Practice, delta: int): (r: Practice)
    ensures LineLimit.InRange(r.lineLimit)
    ensures r.(lineLimit := p.lineLimit) == p
  {
    p.(lineLimit := LineLimit.AdjustLineLimit(p.lineLimit, delta))
  }

  // ---------------------------------------------------------------------------------------
  // The app over time

  datatype Event =
    | KeyPress(e: KeyDispatch.KeyEvent)
    | Tick
    | RestartButton
    | CustomTextButton(response: Option<string>)
    | WidthButton(delta: int)

  /** What the two effects depend on: they re-run only when one of these changes. */
  datatype EffectDeps = EffectDeps(startTimestamp: Option<int>, charactersTyped: nat, isComplete: bool)

  function Deps(p: Practice): EffectDeps {
    EffectDeps(p.startTimestamp, |p.typedText|, IsComplete(p))
  }

  /** The 200 ms interval exists only while the clock runs, something is typed, and the
      attempt is incomplete. */
  predicate IntervalActive(p: Practice) {
    ClockRunning(p) && |p.typedText| > 0 && !IsComplete(p)
  }

  /** One event's handler at time `now`. A tick moves only the live reading, and only while
      the interval exists; only the width buttons move the width. */
  function Handle(p: Practice, ev: Event, now: int): (r: Practice)
    ensures ev.Tick? ==> r.(liveWpm := p.liveWpm) == p
    ensures ev.Tick? && !IntervalActive(p) ==> r == p
    ensures !ev.WidthButton? ==> r.lineLimit == p.lineLimit
    ensures ev.WidthButton? ==> r.(lineLimit := p.lineLimit) == p && LineLimit.InRange(r.lineLimit)
    ensures ev.RestartButton? ==> r.typedText == "" && r.startTimestamp.None? && r.finalWpm.None?
  {
    match ev
    case KeyPress(e) => KeyDown(p, e, now)
    case Tick => if IntervalActive(p) then LiveEffect(p, now) else p
    case RestartButton => HandleRestart(p)
    case CustomTextButton(response) => HandleCustomText(p, response)
    case WidthButton(delta) => AdjustLineLimit(p, delta)
  }

  /** One event at time `now`, followed by the effects if their dependencies changed. */
  function Step(p: Practice, ev: Event, now: int): (r: Practice)
    ensures var q := Handle(p, ev, now); r.(liveWpm := q.liveWpm, finalWpm := q.finalWpm) == q
    ensures var q := Handle(p, ev, now); Deps(q) == Deps(p) ==> r == q
    ensures Deps(Handle(p, ev, now)) != Deps(p) && !IsComplete(r) ==> r.finalWpm.None?
    ensures (Deps(Handle(p, ev, now)) != Deps(p) && IsComplete(r) && ClockRunning(r)
             && now - r.startTimestamp.value > 0) ==>
        r.finalWpm == Some(r.liveWpm) && r.liveWpm == Wpm.ComputeWpm(|r.typedText|, now - r.startTimestamp.value)
  {
    var q := Handle(p, ev, now);
    if Deps(q) != Deps(p) then FinalizeEffect(LiveEffect(q, now), now) else q
  }

  function Run(p: Practice, events: seq<Event>, times: seq<int>): Practice
    requires |events| == |times|
    decreases |events|
  {
    if |events| == 0 then p else Run(Step(p, events[0], times[0]), events[1..], times[1..])
  }

  /** What every reachable state satisfies: the attempt fits the target, the width is in
      range, and a final reading exists only for a complete attempt. */
  predicate Consistent(p: Practice) {
    |p.typedText| <= |p.targetText| && LineLimit.InRange(p.lineLimit) &&
    (p.finalWpm.Some? ==> IsComplete(p))
  }

  lemma InitialPracticeConsistent()
    ensures Consistent(InitialPractice())
  {
    LineLimit.InitialLineLimitOnGrid();
  }

  lemma StepKeepsConsistent(p: Practice, ev: Event, now: int)
    requires Consistent(p)
    ensures Consistent(Step(p, ev, now))
  {
    var q := Handle(p, ev, now);
    assert |q.typedText| <= |q.targetText| && LineLimit.InRange(q.lineLimit);
    assert q.finalWpm.Some? ==> IsComplete(q) || Deps(q) != Deps(p);
  }

  lemma {:induction false} RunKeepsConsistent(p: Practice, events: seq<Event>, times: seq<int>)
    requires |events| == |times| && Consistent(p)
    ensures Consistent(Run(p, events, times))
    decreases |events|
  {
    if |events| > 0 {
      StepKeepsConsistent(p, events[0], times[0]);
      RunKeepsConsistent(Step(p, events[0], times[0]), events[1..], times[1..]);
    }
  }
}
