/** The store-driven app's live reading: an interval that calls the store's `updateWpm`
    every 200 ms while the session is being typed. As written, the app gates the interval on
    a `typingState` field that the store does not have; this module models that gate and the
    one evidently intended, which keys on the store's own clock. */
module LiveTicker {
  import opened Wrappers
  import TypingStore

  /** What the app's `typingState` selector reads: the store has no such field, so it is
      always undefined. */
  function SelectedTypingState(s: TypingStore.Session): Option<string> {
    None
  }

  /** The interval effect's guard as written: it bails out unless `typingState` is
      `'typing'` and no final reading has been recorded. */
  predicate IntervalOnAsWritten(s: TypingStore.Session) {
    SelectedTypingState(s) == Some("typing") && s.finalWpm.None?
  }

  /** The intended guard: the clock has been started by a keystroke and no final reading
      has been recorded. */
  predicate IntervalOn(s: TypingStore.Session) {
    s.startTimestamp.Some? && s.finalWpm.None?
  }

  function TickAsWritten(s: TypingStore.Session, now: int): TypingStore.Session {
    if IntervalOnAsWritten(s) then TypingStore.UpdateWpm(s, now) else s
  }

  /** One interval tick at time `now` under the intended guard. */
  function Tick(s: TypingStore.Session, now: int): (r: TypingStore.Session)
    ensures r.(liveWpm := s.liveWpm) == s
    ensures !IntervalOn(s) ==> r == s
  {
    if IntervalOn(s) then TypingStore.UpdateWpm(s, now) else s
  }

  function TicksAsWritten(s: TypingStore.Session, times: seq<int>): TypingStore.Session
    decreases |times|
  {
    if |times| == 0 then s else TicksAsWritten(TickAsWritten(s, times[0]), times[1..])
  }

  function Ticks(s: TypingStore.Session, times: seq<int>): TypingStore.Session
    decreases |times|
  {
    if |times| == 0 then s else Ticks(Tick(s, times[0]), times[1..])
  }

  /** As written, no run of ticks ever changes the session: the live reading stays where
      the last reset left it. */
  lemma {:induction false} TicksAsWrittenChangeNothing(s: TypingStore.Session, times: seq<int>)
    ensures TicksAsWritten(s, times) == s
    decreases |times|
  {
    if |times| > 0 {
      assert TickAsWritten(s, times[0]) == s;
      TicksAsWrittenChangeNothing(s, times[1..]);
    }
  }

  /** Ten keystrokes, the first at time 0, and a tick a minute later: the app as written
      still shows 0, where the intended interval shows 2 words per minute. */
  lemma FrozenReadingExample(root: TypingStore.Node)
    ensures var s := TypingStore.InitialSession(root).(startTimestamp := Some(0), totalTyped := 10);
      TicksAsWritten(s, [60000]).liveWpm == 0.0 && Ticks(s, [60000]).liveWpm == 2.0
  {
    var s := TypingStore.InitialSession(root).(startTimestamp := Some(0), totalTyped := 10);
    TicksAsWrittenChangeNothing(s, [60000]);
    var t := Tick(s, 60000);
    assert t.liveWpm * 60000.0 == 120000.0;
    assert Ticks(s, [60000]) == Ticks(t, []);
  }

  /** Under the intended guard, ticks touch only the live reading. */
  lemma {:induction false} TicksOnlyTouchReading(s: TypingStore.Session, times: seq<int>)
    ensures Ticks(s, times).(liveWpm := s.liveWpm) == s
    decreases |times|
  {
    if |times| > 0 {
      TicksOnlyTouchReading(Tick(s, times[0]), times[1..]);
    }
  }

  /** The reading `r`, taken at time `at`, is the rate since the session's first keystroke. */
  predicate RateAt(s: TypingStore.Session, r: real, at: int)
    requires s.startTimestamp.Some?
  {
    r * ((at - s.startTimestamp.value) as real) == (s.totalTyped as real) * 12000.0
  }

  /** Once the clock runs with keystrokes counted, the reading after the last tick is the
      rate at that tick: reading times elapsed milliseconds equals keystrokes times 12000. */
  lemma {:induction false} TicksTrackTheRate(s: TypingStore.Session, times: seq<int>)
    requires IntervalOn(s) && s.totalTyped > 0 && |times| > 0
    requires times[|times| - 1] > s.startTimestamp.value
    ensures RateAt(s, Ticks(s, times).liveWpm, times[|times| - 1])
    decreases |times|
  {
    var t := Tick(s, times[0]);
    if |times| == 1 {
      OneTickRate(s, times[0]);
      assert Ticks(s, times) == Ticks(t, []);
    } else {
      var rest := times[1..];
      assert rest[|rest| - 1] == times[|times| - 1];
      assert t.(liveWpm := s.liveWpm) == s;
      TicksTrackTheRate(t, rest);
      SameClockSameRate(t, s, Ticks(t, rest).liveWpm, times[|times| - 1]);
    }
  }

  lemma OneTickRate(s: TypingStore.Session, at: int)
    requires IntervalOn(s) && s.totalTyped > 0 && at > s.startTimestamp.value
    ensures RateAt(s, Tick(s, at).liveWpm, at)
  {
  }

  lemma SameClockSameRate(t: TypingStore.Session, s: TypingStore.Session, r: real, at: int)
    requires s.startTimestamp.Some? && t.(liveWpm := s.liveWpm) == s
    ensures t.startTimestamp.Some?
    ensures RateAt(t, r, at) ==> RateAt(s, r, at)
  {
    assert t.startTimestamp == s.startTimestamp && t.totalTyped == s.totalTyped;
  }
}
