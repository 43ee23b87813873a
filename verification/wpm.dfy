/**
 * Words per minute: the `computeWpm` formula (frontend/src/hooks/useWpm.ts,
 * repeated verbatim in frontend/src/stores/useTypingStore.ts) and the
 * start / live / final / reset rules of the `useWpm` hook as transitions of
 * an explicit record. Times are milliseconds, passed in as `now`.
 */
module Wpm {
  import opened Wrappers

  const CharactersPerWord: real := 5.0
  const MsPerMinute: real := 60000.0

  /** `computeWpm(charactersTyped, elapsedMs)`: (characters / 5) / (milliseconds / 60000), with
      0 for a non-positive duration and 0 in place of a negative rate. */
  function ComputeWpm(charactersTyped: int, elapsedMs: int): (r: real)
    ensures r >= 0.0
    ensures elapsedMs <= 0 || charactersTyped <= 0 ==> r == 0.0
    ensures elapsedMs > 0 && charactersTyped >= 0 ==>
      r * (elapsedMs as real) == (charactersTyped as real) * 12000.0
  {
    if elapsedMs <= 0 then 0.0
    else
      var minutes := elapsedMs as real / MsPerMinute;
      var words := charactersTyped as real / CharactersPerWord;
      var wpm := words / minutes;
      assert wpm == (charactersTyped as real) * 12000.0 / (elapsedMs as real);
      if wpm < 0.0 then 0.0 else wpm
  }

  /** Ten characters in one minute are two words per minute. */
  lemma TenCharactersInAMinute()
    ensures ComputeWpm(10, 60000) == 2.0
  {
  }

  /** More characters in the same time never give a lower rate. */
  lemma ComputeWpmMonotoneInCharacters(c1: int, c2: int, elapsedMs: int)
    requires c1 <= c2
    ensures ComputeWpm(c1, elapsedMs) <= ComputeWpm(c2, elapsedMs)
  {
  }

  /** The same characters over a longer time never give a higher rate. */
  lemma ComputeWpmAntitoneInTime(c: int, ms1: int, ms2: int)
    requires 0 < ms1 <= ms2
    ensures ComputeWpm(c, ms2) <= ComputeWpm(c, ms1)
  {
    if c > 0 {
      var w1 := ComputeWpm(c, ms1);
      var w2 := ComputeWpm(c, ms2);
      assert w2 * (ms2 as real) == w1 * (ms1 as real);
      ScaleNonNegative(w2, ms1 as real, ms2 as real);
      CancelPositiveFactor(w2, w1, ms1 as real);
    }
  }

  lemma ScaleNonNegative(a: real, x: real, y: real)
    requires a >= 0.0 && x <= y
    ensures a * x <= a * y
  {
    assert a * y - a * x == a * (y - x);
  }

  lemma CancelPositiveFactor(a: real, b: real, k: real)
    requires k > 0.0 && a * k <= b * k
    ensures a <= b
  {
    assert (b - a) * k >= 0.0;
  }

  /** The dependency list of the second and third effects, as the last commit that ran them saw it.
      The first effect lists only the count and the start. */
  datatype EffectDeps = EffectDeps(charactersTyped: int, isComplete: bool, startTimestamp: Option<int>)

  /** The state `useWpm` keeps, together with what React remembers between renders: the
      dependencies the effects last ran with (`None` before the first commit). */
  datatype WpmState = WpmState(
    startTimestamp: Option<int>, liveWpm: real, finalWpm: Option<real>, committed: Option<EffectDeps>)

  const InitialWpmState: WpmState := WpmState(None, 0.0, None, None)

  /** `reset`: forget the start time and both readings. React's memory of the effects'
      dependencies is not touched. */
  function ResetWpm(w: WpmState): (r: WpmState)
    ensures r.startTimestamp == None && r.liveWpm == 0.0 && r.finalWpm == None
    ensures r.committed == w.committed
  {
    w.(startTimestamp := None, liveWpm := 0.0, finalWpm := None)
  }

  /** The first effect: the clock starts when something has been typed and it is not yet running. */
  function StartEffect(w: WpmState, charactersTyped: int, now: int): (r: WpmState)
    ensures r.(startTimestamp := w.startTimestamp) == w
    ensures r.startTimestamp.Some? <==> w.startTimestamp.Some? || charactersTyped > 0
    ensures w.startTimestamp.Some? ==> r.startTimestamp == w.startTimestamp
    ensures w.startTimestamp.None? && charactersTyped > 0 ==> r.startTimestamp == Some(now)
  {
    if charactersTyped <= 0 || w.startTimestamp.Some? then w
    else w.(startTimestamp := Some(now))
  }

  /** The second effect's immediate `update`: refresh the live rate. */
  function LiveUpdate(w: WpmState, charactersTyped: int, now: int): (r: WpmState)
    ensures r.(liveWpm := w.liveWpm) == w
    ensures w.startTimestamp.None? || charactersTyped <= 0 ==> r.liveWpm == w.liveWpm
    ensures w.startTimestamp.Some? && charactersTyped > 0 ==>
      r.liveWpm == ComputeWpm(charactersTyped, now - w.startTimestamp.value)
  {
    if w.startTimestamp.None? || charactersTyped <= 0 then w
    else w.(liveWpm := ComputeWpm(charactersTyped, now - w.startTimestamp.value))
  }

  /** The third effect: on completion with a running clock, freeze the rate into both readings. */
  function FinalizeEffect(w: WpmState, charactersTyped: int, isComplete: bool, now: int): (r: WpmState)
    ensures r.(liveWpm := w.liveWpm, finalWpm := w.finalWpm) == w
    ensures isComplete && w.startTimestamp.Some? ==>
      r.finalWpm == Some(r.liveWpm) && r.liveWpm == ComputeWpm(charactersTyped, now - w.startTimestamp.value)
    ensures !(isComplete && w.startTimestamp.Some?) ==> r == w
  {
    if !isComplete || w.startTimestamp.None? then w
    else
      var finalValue := ComputeWpm(charactersTyped, now - w.startTimestamp.value);
      w.(finalWpm := Some(finalValue), liveWpm := finalValue)
  }

  /** The dependencies a render with these inputs hands to the second and third effects. */
  function DepsAt(w: WpmState, charactersTyped: int, isComplete: bool): EffectDeps {
    EffectDeps(charactersTyped, isComplete, w.startTimestamp)
  }

  /** The second and third effects re-run: some dependency differs from the last commit's. */
  predicate DepsChanged(w: WpmState, charactersTyped: int, isComplete: bool) {
    w.committed != Some(DepsAt(w, charactersTyped, isComplete))
  }

  /** The first effect re-runs: the count or the start differs from the last commit's. */
  predicate StartDepsChanged(w: WpmState, charactersTyped: int) {
    w.committed.None?
    || w.committed.value.charactersTyped != charactersTyped
    || w.committed.value.startTimestamp != w.startTimestamp
  }

  /** One commit: the effects whose dependencies changed run in order, each reading the start
      this render holds, and React records the dependencies. */
  function Commit(w: WpmState, charactersTyped: int, isComplete: bool, now: int): (r: WpmState)
    ensures r.committed == Some(DepsAt(w, charactersTyped, isComplete))
    ensures !DepsChanged(w, charactersTyped, isComplete) ==> r == w
    ensures w.startTimestamp.Some? ==> r.startTimestamp == w.startTimestamp
    ensures w.startTimestamp.None? ==> r.liveWpm == w.liveWpm && r.finalWpm == w.finalWpm
    ensures w.startTimestamp.None? ==>
      (r.startTimestamp.Some? <==> charactersTyped > 0 && StartDepsChanged(w, charactersTyped))
    ensures w.startTimestamp.None? && r.startTimestamp.Some? ==> r.startTimestamp == Some(now)
    ensures w.startTimestamp.Some? && DepsChanged(w, charactersTyped, isComplete) ==>
      r == FinalizeEffect(LiveUpdate(w, charactersTyped, now), charactersTyped, isComplete, now)
             .(committed := Some(DepsAt(w, charactersTyped, isComplete)))
  {
    var d := DepsAt(w, charactersTyped, isComplete);
    if w.committed == Some(d) then w
    else
      var v := FinalizeEffect(LiveUpdate(w, charactersTyped, now), charactersTyped, isComplete, now);
      var v' := if StartDepsChanged(w, charactersTyped) then StartEffect(v, charactersTyped, now) else v;
      v'.(committed := Some(d))
  }

  /** A render with inputs `charactersTyped` and `isComplete` at time `now`, followed by the
      re-render its effects' state updates cause. When the first effect starts the clock, the
      other two still see no start in that commit and catch up in the next one. */
  function RenderEffects(w: WpmState, charactersTyped: int, isComplete: bool, now: int): (r: WpmState)
    ensures r.committed == Some(DepsAt(r, charactersTyped, isComplete))
    ensures !DepsChanged(w, charactersTyped, isComplete) ==> r == w
    ensures w.startTimestamp.Some? ==> r.startTimestamp == w.startTimestamp
    ensures w.startTimestamp.None? ==>
      (r.startTimestamp.Some? <==> charactersTyped > 0 && StartDepsChanged(w, charactersTyped))
    ensures w.startTimestamp.None? && r.startTimestamp.Some? ==> r.startTimestamp == Some(now)
    ensures DepsChanged(w, charactersTyped, isComplete) && r.startTimestamp.Some? && charactersTyped > 0 ==>
      r.liveWpm == ComputeWpm(charactersTyped, now - r.startTimestamp.value)
    ensures DepsChanged(w, charactersTyped, isComplete) && isComplete && r.startTimestamp.Some? ==>
      r.finalWpm == Some(r.liveWpm)
    ensures r.liveWpm == w.liveWpm
      || (r.startTimestamp.Some? && r.liveWpm == ComputeWpm(charactersTyped, now - r.startTimestamp.value))
    ensures r.finalWpm == w.finalWpm
      || (isComplete && r.startTimestamp.Some? && r.finalWpm == Some(r.liveWpm)
          && r.liveWpm == ComputeWpm(charactersTyped, now - r.startTimestamp.value))
  {
    var w1 := Commit(w, charactersTyped, isComplete, now);
    Commit(w1, charactersTyped, isComplete, now)
  }

  /** The interval the second effect left behind runs when that effect last ran with the
      clock running, something typed and the text incomplete. */
  predicate IntervalRunning(w: WpmState) {
    w.committed.Some? && w.committed.value.startTimestamp.Some?
    && w.committed.value.charactersTyped > 0 && !w.committed.value.isComplete
  }

  /** One 200 ms tick: the interval's `update`, with the count and start it captured when it
      was set up. A reset does not stop it; only the next run of its effect does. */
  function IntervalTick(w: WpmState, now: int): (r: WpmState)
    ensures r.(liveWpm := w.liveWpm) == w
    ensures !IntervalRunning(w) ==> r == w
    ensures IntervalRunning(w) ==>
      r.liveWpm == ComputeWpm(w.committed.value.charactersTyped, now - w.committed.value.startTimestamp.value)
  {
    if IntervalRunning(w) then
      w.(liveWpm := ComputeWpm(w.committed.value.charactersTyped, now - w.committed.value.startTimestamp.value))
    else w
  }

  /** What can happen to the hook: an explicit reset, a render with the hook's inputs, or a
      tick of the interval. */
  datatype WpmEvent =
    | Reset
    | Render(charactersTyped: int, isComplete: bool, now: int)
    | Tick(now: int)

  function Step(w: WpmState, e: WpmEvent): (r: WpmState)
    ensures e.Reset? ==> r.startTimestamp.None? && r.liveWpm == 0.0 && r.finalWpm.None?
    ensures e.Render? && !DepsChanged(w, e.charactersTyped, e.isComplete) ==> r == w
    ensures e.Tick? ==> r.(liveWpm := w.liveWpm) == w
    ensures !e.Reset? && w.startTimestamp.Some? ==> r.startTimestamp == w.startTimestamp
  {
    match e
    case Reset => ResetWpm(w)
    case Render(c, done, now) => RenderEffects(w, c, done, now)
    case Tick(now) => IntervalTick(w, now)
  }

  function Run(w: WpmState, es: seq<WpmEvent>): WpmState
    decreases |es|
  {
    if |es| == 0 then w else Run(Step(w, es[0]), es[1..])
  }

  /** A render repeated with the same inputs, at any later time, changes nothing: its effects
      have already caught up with those inputs. */
  lemma RepeatedRenderChangesNothing(w: WpmState, c: int, done: bool, t: int, t': int)
    ensures var r := Step(w, Render(c, done, t)); Step(r, Render(c, done, t')) == r
  {
  }

  /** Once a render has completed the text, renders with the same inputs and interval ticks
      leave both readings where they are, however much time passes. */
  lemma {:induction false} ReadingsFrozenAfterCompletion(w: WpmState, c: int, es: seq<WpmEvent>)
    requires w.committed == Some(DepsAt(w, c, true))
    requires forall i :: 0 <= i < |es| ==>
      es[i].Tick? || (es[i].Render? && es[i].charactersTyped == c && es[i].isComplete)
    ensures Run(w, es) == w
    decreases |es|
  {
    if |es| > 0 {
      assert Step(w, es[0]) == w;
      ReadingsFrozenAfterCompletion(w, c, es[1..]);
    }
  }

  /** Ten characters typed from time 0, completed a minute later: the final reading is 2 and a
      further render with the same inputs a minute after that keeps it at 2. */
  lemma FinalReadingExample()
    ensures Run(InitialWpmState, [Render(10, false, 0), Render(10, true, 60000), Render(10, true, 120000)])
      .finalWpm == Some(2.0)
  {
    var w1 := Step(InitialWpmState, Render(10, false, 0));
    assert w1.startTimestamp == Some(0);
    assert w1.committed == Some(EffectDeps(10, false, Some(0)));
    var w2 := Step(w1, Render(10, true, 60000));
    TenCharactersInAMinute();
    assert w2.finalWpm == Some(2.0);
    assert w2.committed == Some(EffectDeps(10, true, Some(0)));
    var w3 := Step(w2, Render(10, true, 120000));
    assert w3 == w2;
    var es := [Render(10, false, 0), Render(10, true, 60000), Render(10, true, 120000)];
    assert Run(InitialWpmState, es) == Run(w1, es[1..]);
    assert Run(w1, es[1..]) == Run(w2, es[2..]);
    assert Run(w2, es[2..]) == Run(w3, []);
  }

  /** After a render of an incomplete text with the clock running, each tick reads the rate of
      that render's count since the start. */
  lemma TickAfterRender(w: WpmState, c: int, t: int, now: int)
    ensures var r := Step(w, Render(c, false, t));
      r.startTimestamp.Some? && c > 0 ==>
        Step(r, Tick(now)).liveWpm == ComputeWpm(c, now - r.startTimestamp.value)
  {
  }

  /** Some render in `es` had something typed and happened at time `t`. */
  ghost predicate StartedBy(es: seq<WpmEvent>, t: int) {
    exists i :: 0 <= i < |es| && es[i].Render? && es[i].charactersTyped > 0 && es[i].now == t
  }

  /** Once the clock runs, only a reset stops it, and nothing moves its start. */
  lemma {:induction false} StartSurvivesUntilReset(w: WpmState, es: seq<WpmEvent>)
    requires w.startTimestamp.Some?
    requires forall i :: 0 <= i < |es| ==> !es[i].Reset?
    ensures Run(w, es).startTimestamp == w.startTimestamp
    decreases |es|
  {
    if |es| > 0 {
      StartSurvivesUntilReset(Step(w, es[0]), es[1..]);
    }
  }

  /** A clock that was stopped is only started by a render with something typed, at that render's time. */
  lemma {:induction false} StartComesFromARender(w: WpmState, es: seq<WpmEvent>)
    requires w.startTimestamp.None?
    requires Run(w, es).startTimestamp.Some?
    ensures StartedBy(es, Run(w, es).startTimestamp.value)
    decreases |es|
  {
    var w' := Step(w, es[0]);
    if w'.startTimestamp.None? {
      StartComesFromARender(w', es[1..]);
      var i :| 0 <= i < |es| - 1 && es[1..][i].Render? && es[1..][i].charactersTyped > 0
        && es[1..][i].now == Run(w', es[1..]).startTimestamp.value;
      assert es[i + 1] == es[1..][i];
    } else {
      StartSurvivesUntilResetOrLater(w', es[1..]);
    }
  }

  /** Helper for the lemma above: the start set by the first event is either kept or cleared. */
  lemma {:induction false} StartSurvivesUntilResetOrLater(w: WpmState, es: seq<WpmEvent>)
    requires w.startTimestamp.Some?
    ensures Run(w, es).startTimestamp.Some? ==>
      Run(w, es).startTimestamp == w.startTimestamp || StartedBy(es, Run(w, es).startTimestamp.value)
    decreases |es|
  {
    if |es| > 0 {
      var w' := Step(w, es[0]);
      if w'.startTimestamp.None? {
        if Run(w', es[1..]).startTimestamp.Some? {
          StartComesFromARender(w', es[1..]);
          var i :| 0 <= i < |es| - 1 && es[1..][i].Render? && es[1..][i].charactersTyped > 0
            && es[1..][i].now == Run(w', es[1..]).startTimestamp.value;
          assert es[i + 1] == es[1..][i];
        }
      } else {
        StartSurvivesUntilResetOrLater(w', es[1..]);
        if Run(w', es[1..]).startTimestamp.Some? && Run(w', es[1..]).startTimestamp != w'.startTimestamp {
          var i :| 0 <= i < |es| - 1 && es[1..][i].Render? && es[1..][i].charactersTyped > 0
            && es[1..][i].now == Run(w', es[1..]).startTimestamp.value;
          assert es[i + 1] == es[1..][i];
        }
      }
    }
  }

  /** Readings are never negative. */
  lemma {:induction false} ReadingsNonNegative(w: WpmState, es: seq<WpmEvent>)
    requires w.liveWpm >= 0.0 && (w.finalWpm.Some? ==> w.finalWpm.value >= 0.0)
    ensures var r := Run(w, es); r.liveWpm >= 0.0 && (r.finalWpm.Some? ==> r.finalWpm.value >= 0.0)
    decreases |es|
  {
    if |es| > 0 {
      ReadingsNonNegative(Step(w, es[0]), es[1..]);
    }
  }
}
