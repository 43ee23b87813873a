# Typista typing session, modelled in Dafny

Typista is a browser typing-practice exercise. The user types against a passage and sees each
character grey (pending), white (correct) or red (incorrect). A words-per-minute (WPM) reading
is shown. In the store-driven app the passage is a node of a branching story graph. Once the
passage is typed in full, the user types the start of a successor's preview to move on, or
`free ` to enter a prompt that is sent off to generate a new passage.

This project models that app's session logic as pure functions over immutable values:

- the typing store (`TypingStore`): typing, backspace, choosing a successor, freestyle
  prompts, generation, restart, custom text and the WPM clock;
- prompt normalisation (`TextNorm`) and the WPM formula and the `useWpm` hook with its three effects (`Wpm`);
- the keyboard dispatcher (`KeyDispatch`) and the live-reading interval (`LiveTicker`);
- the two canvases' character feedback and caret placement (`Feedback`, `LegacyCanvas`,
  `Canvas`);
- the line-width control (`LineLimit`);
- the older single-passage app (`SingleText`).

Each operation is paired with a reference definition, an invariant or an inverse, and proved
against it. Examples:

- normalising a prompt is the same as joining its words with single spaces;
- the word-segmented canvas draws exactly the legacy canvas's glyphs;
- keystrokes keep the session well formed;
- backspace undoes typing;
- the line-width buttons stay on the 24..80 grid in steps of 4.

Three things the source takes from its environment are parameters of the model:

- the successor-preview function (`pv`), with the hypothesis `PrefixPreviews(pv)` that a
  preview is a prefix of its text;
- the root of the story graph (`root`);
- the clock (`now`).

Where the written description of the system and the code disagree, the model follows the
code:

- There is no pause-time accounting. The code keeps no paused-time total, so the WPM rate
  divides by the whole time since the first keystroke.
- The store does not ignore input while a generation is in flight. That guard is in the
  app's key handler (`KeyDispatch.HandleKeyDown`).
- "The choice buffer is non-empty only when the passage is fully typed" is not an invariant
  of the store as a whole: `EnterFreestyleMode` and `SetCustomText` break it. It holds for
  every session reached by key presses and generation results alone
  (`TypingStore.KeyDriven`).
- The store never records a final WPM reading.

## Model

| member | source | states |
|---|---|---|
| TextNorm.CollapseRuns | src/utils/typing.ts:10 | collapsing whitespace runs never lengthens the text and leaves only `' '` as whitespace |
| TextNorm.TrimEnd | src/utils/typing.ts:12 | trimming the end leaves a prefix that ends in a non-space, and what was cut is all whitespace |
| TextNorm.Utf16Length | src/App.tsx:50 | `.length` counts at least one unit per character, exactly one iff every character lies in the Basic Multilingual Plane |
| TextNorm.NbspStepIsNoOp | src/utils/typing.ts:10-11 | the U+00A0 rewrite changes nothing, because the first rewrite already replaced that character |
| TextNorm.NormalizeIsJoinedWords | src/utils/typing.ts:8-12 | normalizePrompt equals the reference definition: the input's whitespace-separated words joined by single spaces |
| TextNorm.NormalizeIsCanonical | src/utils/typing.ts:8-12 | a normalised prompt has no whitespace at either end, only `' '` inside, and never two spaces in a row |
| TextNorm.NormalizeEmptyIff | src/utils/typing.ts:8-12 | a prompt normalises to the empty string iff it is empty or all whitespace |
| TextNorm.NormalizeIdempotent | src/utils/typing.ts:8-12 | normalising twice gives the same result as normalising once |
| TextNorm.NormalizeFixedIffCanonical | src/utils/typing.ts:8-12 | the strings normalizePrompt leaves unchanged are exactly the canonical ones |
| TextNorm.NormalizeKeepsNonSpace | src/utils/typing.ts:8-12 | the non-whitespace characters survive normalisation in order, and no other appears |
| TextNorm.NormalizePrompt | src/utils/typing.ts:8-12 | the normalised prompt is no longer than the input and has no whitespace at either end |
| TextNorm.WordsOfJoin | src/utils/typing.ts:10 | splitting words joined by single spaces gives back the same words |
| TextNorm.JoinIsCanonical | src/utils/typing.ts:8-12 | words joined by single spaces form a canonical string |
| TextNorm.CollapseShape | src/utils/typing.ts:10 | collapsing runs gives the joined words, plus one space where leading whitespace was and one where trailing whitespace was |
| TextNorm.LineLimitConstants | src/utils/typing.ts:4-6 | the width bounds are ordered and a whole number of steps apart |
| LineLimit.IncreaseLineLimit | frontend/src/stores/useUIStore.ts:13-18 | widening adds one step, capped at the maximum, and does nothing at or above it |
| LineLimit.DecreaseLineLimit | frontend/src/stores/useUIStore.ts:20-25 | narrowing removes one step, floored at the minimum, and does nothing at or below it |
| LineLimit.InitialLineLimitOnGrid | frontend/src/stores/useUIStore.ts:11 | the initial width 48 is within range and on the step grid |
| LineLimit.PressAllInRange | frontend/src/stores/useUIStore.ts:13-25 | any sequence of width presses from an in-range width stays in range |
| LineLimit.PressAllOnGrid | frontend/src/stores/useUIStore.ts:13-25 | any sequence of width presses from a width on the grid stays on the grid |
| LineLimit.IncreaseThenDecrease | frontend/src/stores/useUIStore.ts:13-25 | away from the maximum, narrowing undoes widening |
| LineLimit.DecreaseThenIncrease | frontend/src/stores/useUIStore.ts:13-25 | away from the minimum, widening undoes narrowing |
| LineLimit.AdjustLineLimit | src/App.tsx:181-186 | the width after a delta is clamped into range, and is the plain sum whenever that is in range |
| LineLimit.AdjustAgreesWithStore | src/App.tsx:181-186 | in range, a delta of plus or minus one step agrees with the store's widen and narrow actions |
| Wpm.ComputeWpm | frontend/src/hooks/useWpm.ts:5-14 | the reading is non-negative, 0 for no time or no characters, and otherwise reading times milliseconds equals characters times 12000 (five characters per word) |
| Wpm.TenCharactersInAMinute | frontend/src/hooks/useWpm.ts:5-14 | ten characters in 60000 ms read as 2 WPM |
| Wpm.ComputeWpmMonotoneInCharacters | frontend/src/hooks/useWpm.ts:5-14 | more characters in the same time never lowers the reading |
| Wpm.ComputeWpmAntitoneInTime | frontend/src/hooks/useWpm.ts:5-14 | the same characters over a longer time never raise the reading |
| Wpm.ResetWpm | frontend/src/hooks/useWpm.ts:21-25 | a reset clears the start, the live reading and the final reading, and leaves the dependencies the effects last ran with alone |
| Wpm.StartEffect | frontend/src/hooks/useWpm.ts:27-32 | the clock starts at the current time on the first render with characters typed, and once started it is never moved |
| Wpm.LiveUpdate | frontend/src/hooks/useWpm.ts:34-51 | with the clock running and characters typed, the live reading is the rate since the start; otherwise it is unchanged |
| Wpm.FinalizeEffect | frontend/src/hooks/useWpm.ts:53-61 | on completion with the clock running, the final and live readings are both the rate since the start; otherwise nothing changes |
| Wpm.Commit | frontend/src/hooks/useWpm.ts:27-61 | one commit runs nothing when the dependencies `[charactersTyped, isComplete, startTimestamp]` equal the last commit's; otherwise the second and third effects read the start the render holds, the first effect starts a stopped clock only when the count or the start changed, and the new dependencies are recorded |
| Wpm.RenderEffects | frontend/src/hooks/useWpm.ts:27-61 | a render with unchanged dependencies changes nothing; otherwise a clock started by this render is started at `now` only with characters typed, the live reading becomes the rate since the start, a complete text freezes it into the final reading, and afterwards the recorded dependencies match the state |
| Wpm.IntervalTick | frontend/src/hooks/useWpm.ts:39-50 | a tick moves only the live reading, and only while the interval the second effect set up exists; it reads the count and start captured when the interval was set up |
| Wpm.Step | frontend/src/hooks/useWpm.ts:21-61 | a reset clears the start and both readings; a render with unchanged dependencies changes nothing; a tick moves only the live reading; no render or tick moves a running clock's start |
| Wpm.RepeatedRenderChangesNothing | frontend/src/hooks/useWpm.ts:27-61 | rendering again with the same inputs, at any later time, changes nothing |
| Wpm.ReadingsFrozenAfterCompletion | frontend/src/hooks/useWpm.ts:45-61 | after a render of the complete text, further renders with the same inputs and ticks leave the whole state, both readings included, unchanged |
| Wpm.FinalReadingExample | frontend/src/hooks/useWpm.ts:27-61 | ten characters from time 0 completed at 60000 ms give a final reading of 2, which a later render with the same inputs keeps |
| Wpm.TickAfterRender | frontend/src/hooks/useWpm.ts:39-50 | after a render of an incomplete text with the clock running, a tick reads that render's count over the time since the start |
| Wpm.StartSurvivesUntilReset | frontend/src/hooks/useWpm.ts:21-61 | once the clock runs, no event short of a reset moves its start |
| Wpm.StartComesFromARender | frontend/src/hooks/useWpm.ts:27-32 | a start time that appears was the time of a render with characters typed |
| Wpm.StartSurvivesUntilResetOrLater | frontend/src/hooks/useWpm.ts:21-32 | a start time after any run of events is the original one or the time of some render with characters typed |
| Wpm.ReadingsNonNegative | frontend/src/hooks/useWpm.ts:5-61 | the live and final readings stay non-negative over any run of events |
| TypingStore.InitialSession | frontend/src/stores/useTypingStore.ts:52-62 | the store starts at the root with nothing typed, no buffer, a zero count, no clock, no freestyle and no busy flag |
| TypingStore.IsNodeComplete | frontend/src/components/TypingCanvas.tsx:65 | the passage counts as typed out when the typed text is at least as long as it; within the passage's length that means exactly its length |
| TypingStore.StartClock | frontend/src/stores/useTypingStore.ts:69-71 | the clock is started at `now` only when nothing has been counted and it is not already running; a running clock is kept, and nothing else changes |
| TypingStore.FindSuccessor | frontend/src/stores/useTypingStore.ts:106-110 | `successors.find`: the result is the first successor whose preview is the target, and there is none iff no preview matches |
| TypingStore.TypeCharacter | frontend/src/stores/useTypingStore.ts:65-118 | a keystroke always counts and starts the clock on the first one. In freestyle mode it extends the prompt; before the end it extends the typed text; at the end it enters freestyle when the buffer becomes `free `, otherwise it moves to the first successor whose preview equals the buffer (crediting the preview as typed) or keeps the buffer |
| TypingStore.CountDown | frontend/src/stores/useTypingStore.ts:127 | `Math.max(0, n - 1)`: one less, never below zero |
| TypingStore.Backspace | frontend/src/stores/useTypingStore.ts:120-153 | backspace shortens the freestyle prompt, or leaves an empty prompt for the buffer `free`, or shortens the buffer, or shortens the typed text, in that priority; each removal decrements the count down to 0, and with nothing to remove nothing changes |
| TypingStore.SelectChoice | frontend/src/stores/useTypingStore.ts:155-167 | selecting a preview moves to the first successor with that preview, crediting the preview as typed; with no such successor nothing changes |
| TypingStore.EnterFreestyleMode | frontend/src/stores/useTypingStore.ts:169-174 | entering freestyle turns the mode on and clears the buffer, and nothing else changes |
| TypingStore.UpdateFreestyleInput | frontend/src/stores/useTypingStore.ts:176-178 | the prompt is replaced and nothing else changes |
| TypingStore.NatToDecimal | frontend/src/stores/useTypingStore.ts:187 | the node id's number is written as at least one decimal digit, the digits denote the number, and there is no leading zero |
| TypingStore.IntToDecimal | frontend/src/stores/useTypingStore.ts:187 | a clock reading is printed with a leading minus sign exactly when it is negative, followed by the digits of its magnitude |
| TypingStore.IntToDecimalInjective | frontend/src/stores/useTypingStore.ts:187 | different clock readings print differently, so generated node ids are distinct |
| TypingStore.BeginGeneration | frontend/src/stores/useTypingStore.ts:181 | starting a generation raises the busy flag and changes nothing else |
| TypingStore.FinishGeneration | frontend/src/stores/useTypingStore.ts:182-204 | a non-blank result becomes a fresh leaf node `freestyle-<now>` holding the normalised text, with the typing, buffer and freestyle state cleared; a failure or blank result only lowers the busy flag, which is lowered in every case |
| TypingStore.Restart | frontend/src/stores/useTypingStore.ts:206-218 | restart returns to the initial session at the root, except that the busy flag is kept |
| TypingStore.SetCustomText | frontend/src/stores/useTypingStore.ts:220-241 | a blank text is ignored; otherwise a leaf node `custom` holds the normalised text and typing, count and clock start over, while the freestyle state and busy flag are kept |
| TypingStore.ResetWpm | frontend/src/stores/useTypingStore.ts:243-249 | the clock and both readings are cleared and nothing else changes |
| TypingStore.UpdateWpm | frontend/src/stores/useTypingStore.ts:251-258 | with the clock running and a positive count, the live reading becomes the rate since the start; otherwise nothing changes; nothing but the reading ever changes |
| TypingStore.InitialSessionWellFormed | frontend/src/stores/useTypingStore.ts:52-62 | the initial session is well formed |
| TypingStore.ApplyKeepsBounds | frontend/src/stores/useTypingStore.ts:65-258 | every store action keeps the typed text within the passage and the count non-negative |
| TypingStore.ApplyAllKeepsBounds | frontend/src/stores/useTypingStore.ts:65-258 | any sequence of store actions keeps those bounds |
| TypingStore.KeyActionKeepsWellFormed | frontend/src/stores/useTypingStore.ts:65-218 | typing, backspace, restart and generation keep the buffer and freestyle mode in use only once the passage is fully typed |
| TypingStore.KeyActionsKeepWellFormed | frontend/src/stores/useTypingStore.ts:65-218 | any sequence of those actions keeps the session well formed |
| TypingStore.EnterFreestyleBreaksKeyDriven | frontend/src/stores/useTypingStore.ts:169-174 | entering freestyle directly, on an unfinished passage, breaks the buffer invariant |
| TypingStore.SetCustomTextBreaksKeyDriven | frontend/src/stores/useTypingStore.ts:220-241 | custom text set while freestyle mode is on leaves freestyle on for an untyped passage |
| TypingStore.TypeAllExtends | frontend/src/stores/useTypingStore.ts:82-88 | typing characters that fit in the passage appends them all and counts each one |
| TypingStore.CompletesExactlyAtTheEnd | frontend/src/stores/useTypingStore.ts:82-88 | typing the rest of a passage completes it at the last keystroke and not before |
| TypingStore.EraseNShortens | frontend/src/stores/useTypingStore.ts:147-152 | n backspaces remove the last n typed characters and n from the count |
| TypingStore.UndoTyping | frontend/src/stores/useTypingStore.ts:82-88 | typing characters within the passage and then as many backspaces restores the session's typing state |
| TypingStore.UndoBufferKeystroke | frontend/src/stores/useTypingStore.ts:91-145 | a buffer keystroke that matches nothing is undone by backspace |
| TypingStore.UndoFreestyleKeystroke | frontend/src/stores/useTypingStore.ts:73-79 | a freestyle keystroke is undone by backspace |
| TypingStore.FreestyleEntryUndone | frontend/src/stores/useTypingStore.ts:91-95 | the space that completes `free ` is undone by backspace back to the buffer `free`, with the keystroke still counted |
| TypingStore.KeystrokeMatchIsSelectChoice | frontend/src/stores/useTypingStore.ts:98-117 | a keystroke that completes a successor's preview moves exactly as selecting that preview does, plus one count |
| TypingStore.MoveKeepsTypedPrefix | frontend/src/stores/useTypingStore.ts:106-117 | after moving to a successor, the typed text is a non-empty prefix of its passage |
| TypingStore.RestartIdempotent | frontend/src/stores/useTypingStore.ts:206-218 | restarting twice is restarting once |
| TypingStore.BlankCustomTextIgnored | frontend/src/stores/useTypingStore.ts:220-224 | an all-whitespace custom text changes nothing |
| TypingStore.CustomTextIsCanonical | frontend/src/stores/useTypingStore.ts:220-241 | a non-blank custom text becomes a non-empty canonical passage with the same non-whitespace characters |
| TypingStore.SetCustomTextIdempotent | frontend/src/stores/useTypingStore.ts:220-241 | setting the same custom text twice is setting it once |
| TypingStore.GeneratedTextIsCanonical | frontend/src/stores/useTypingStore.ts:184-198 | a non-blank generated text becomes a non-empty canonical leaf passage |
| Feedback.CharAt | frontend/src/components/TypingCanvas.tsx:83 | indexing past the end gives undefined, and within the string the character there |
| Feedback.Classify | frontend/src/components/TypingCanvas.tsx:21-26 | a character is pending iff not yet typed, correct iff the typed character equals it, incorrect iff it differs |
| Feedback.Marks | src/App.tsx:67-73 | one mark per character of the text, each the classification at its index |
| Feedback.NoIncorrectIffAgree | src/App.tsx:67-73 | no red character iff the typed text agrees with the passage as far as both go |
| Feedback.PrefixIffNoIncorrect | src/App.tsx:67-73 | an attempt no longer than the passage is a prefix of it iff no character is red |
| Feedback.AllCorrectIffTypedPrefix | src/App.tsx:67-73 | every character is white iff the typed text starts with the whole passage |
| Feedback.HasMatch | frontend/src/components/TypingCanvas.tsx:144 | the buffer matches iff it is non-empty and some preview starts with it |
| Feedback.BufferMark | frontend/src/components/TypingCanvas.tsx:145-146 | the buffer is grey iff empty, white iff some preview starts with it, red otherwise |
| Feedback.PreviewMarks | frontend/src/components/TypingCanvas.tsx:195-201 | a preview character is grey past the buffer and white where the buffer agrees with it |
| Feedback.WhiteBufferIffCleanPreview | frontend/src/components/TypingCanvas.tsx:144-146 | the buffer is white iff it is non-empty and some preview at least as long shows no red character |
| LegacyCanvas.Letters | src/components/TypingCanvas.tsx:28-43 | one letter per character of the passage, in order, each with its index and mark |
| LegacyCanvas.InsertCaret | src/components/TypingCanvas.tsx:45-47 | `splice(at, 0, caret)` puts the caret at `at`, or at the end when `at` is past it, and keeps the rest in order |
| LegacyCanvas.InsertCaretIntoLetters | src/components/TypingCanvas.tsx:45-47 | splicing into letters adds exactly one caret, and removing it gives the letters back |
| LegacyCanvas.Characters | src/components/TypingCanvas.tsx:27-50 | the rendered passage has no caret when complete and exactly one at the typing position otherwise; without the caret it is the passage's letters in order |
| LegacyCanvas.ShowChoices | src/components/TypingCanvas.tsx:52 | while the passage is unfinished and nothing is buffered, the choice panel stays hidden |
| LegacyCanvas.ShowChoicesOrCaret | src/components/TypingCanvas.tsx:45-52 | with choices available, either the passage carries the caret or the panel shows, and a finished passage always shows the panel |
| Canvas.Choices | frontend/src/components/TypingCanvas.tsx:66-75 | the choice list is each successor's preview in order, then the freestyle entry `free ` |
| Canvas.ShowChoicesIff | frontend/src/components/TypingCanvas.tsx:143 | the panel shows iff the passage is complete or the buffer is non-empty, and freestyle is off |
| Canvas.ShowChoicesWhenKeyDriven | frontend/src/components/TypingCanvas.tsx:143 | in a well-formed session the panel shows iff the passage is complete and freestyle is off |
| Canvas.AcceptedBufferIsWhite | frontend/src/components/TypingCanvas.tsx:144-146 | a buffer the store acts on (`free ` or a successor's preview) is shown white |
| Canvas.RedBufferNeverMoves | frontend/src/components/TypingCanvas.tsx:144-146 | a keystroke that turns the buffer red neither moves the session nor enters freestyle |
| Canvas.WordsSplitOnSeparators | frontend/src/components/TypingCanvas.tsx:77-141 | every word piece is a non-empty run without spaces or newlines, and every separator piece is a space or newline |
| Canvas.RenderSnoc | frontend/src/components/TypingCanvas.tsx:77-141 | rendering pieces concatenates their renderings |
| Canvas.RefRangeAppend | frontend/src/components/TypingCanvas.tsx:77-141 | reference renderings of adjacent ranges concatenate |
| Canvas.WordPieceIsRef | frontend/src/components/TypingCanvas.tsx:17-44 | a word handed over by the segmentation draws its characters with the caret, if any, before the character at the typed position; the caret never lands after the last character, so that branch of `Word` is not reached from the segmentation |
| Canvas.ScanKeepsInvariant | frontend/src/components/TypingCanvas.tsx:77-126 | after each character the pieces built so far render the reference for that prefix |
| Canvas.WordsRenderAsReference | frontend/src/components/TypingCanvas.tsx:77-141 | the word-segmented pieces render, character by character, as the reference rendering of the whole passage |
| Canvas.RefRangeIsSpliced | src/components/TypingCanvas.tsx:45-47 | the reference rendering is the legacy letters with the caret spliced in at the typing position |
| Canvas.WordsMatchLegacyCanvas | frontend/src/components/TypingCanvas.tsx:77-141 | the new canvas draws exactly the legacy canvas's glyphs for the same passage and typing |
| Canvas.SessionCaret | frontend/src/components/TypingCanvas.tsx:65-141 | for any store session there is exactly one caret, at the typing position, while the passage is unfinished and none once complete; without it the glyphs are the passage's letters |
| KeyDispatch.CharacterKeyIsOneCharacter | frontend/src/App.tsx:76 | a key of length 1 is one character of the Basic Multilingual Plane |
| KeyDispatch.HandleKeyDown | frontend/src/App.tsx:36-80 | modifier keys and a busy session are ignored; Escape restarts; Enter in freestyle with a non-blank prompt generates from the trimmed prompt; Backspace erases; a one-character key types that character; anything else does nothing |
| KeyDispatch.EnterNeverTypes | frontend/src/App.tsx:49-55 | Enter never types, and outside freestyle it does nothing |
| KeyDispatch.OnKeyDown | frontend/src/App.tsx:37-39 | a modified key or a busy session leaves the store unchanged |
| KeyDispatch.FeedKeepsWellFormed | frontend/src/App.tsx:36-80 | a key press or a finished generation keeps the session well formed |
| KeyDispatch.FeedAllKeepsWellFormed | frontend/src/App.tsx:36-80 | any run of key presses and finished generations keeps the session well formed |
| KeyDispatch.EscapeRestarts | frontend/src/App.tsx:41-45 | Escape restarts from the root, in freestyle mode too |
| KeyDispatch.BusySessionIgnoresKeys | frontend/src/App.tsx:37-39 | while a generation is in flight, any run of key presses leaves the session unchanged |
| LiveTicker.TicksAsWrittenChangeNothing | frontend/src/App.tsx:11 | as written, the interval never runs, so no run of ticks changes the session |
| LiveTicker.FrozenReadingExample | frontend/src/App.tsx:25-32 | ten keystrokes and a tick a minute later leave the reading at 0 as written, against 2 WPM with the intended guard |
| LiveTicker.Tick | frontend/src/App.tsx:25-32 | a tick under the intended guard changes only the live reading, and nothing while the clock is stopped or a final reading exists |
| LiveTicker.TicksOnlyTouchReading | frontend/src/App.tsx:25-32 | under the intended guard, no run of ticks changes anything but the live reading |
| LiveTicker.TicksTrackTheRate | frontend/src/App.tsx:25-32 | under the intended guard, with the clock running and keystrokes counted, the reading after the last tick is the rate at that tick |
| SingleText.InitialPractice | src/App.tsx:17-22 | the app starts with the normalised default passage as its target, which is non-empty and canonical, nothing typed, width 48, no clock and no readings |
| SingleText.NonBlankNormalizes | src/App.tsx:17 | a text whose first character is not whitespace normalises to a non-empty canonical target |
| SingleText.DropLast | src/App.tsx:44-48 | dropping the last character leaves the empty string empty, and otherwise a string that gives back the original when that character is appended |
| SingleText.ClearAttempt | src/App.tsx:35-42 | clearing empties the attempt and the clock and both readings, and keeps the passage and width |
| SingleText.KeyDown | src/App.tsx:30-61 | modifier keys are ignored; Escape clears the attempt; Backspace drops the last character; a one-character key is appended unless the attempt is full; the clock starts only on the first character of an empty attempt; other keys do nothing |
| SingleText.CharacterStates | src/App.tsx:67-73 | one state per passage character: pending iff not yet typed, correct iff it matches, incorrect iff it differs |
| SingleText.CompleteIffAllCorrect | src/App.tsx:76 | the attempt is complete iff it has the passage's length and every state is correct |
| SingleText.IsComplete | src/App.tsx:76 | the attempt is complete when it equals the target, so it then has the target's length |
| SingleText.RenderedCharacters | src/App.tsx:123-152 | the rendered passage has no caret when complete and exactly one at the typing position otherwise, and without it is the passage's letters |
| SingleText.MistakeKeepsCaretAtEnd | src/App.tsx:123-152 | a full-length attempt with a mistake is not complete and keeps the caret after the last character |
| SingleText.InlineRateIsComputeWpm | src/App.tsx:85-95 | the inline rate in the live effect is the same formula as `computeWpm` |
| SingleText.LiveEffect | src/App.tsx:79-105 | with the clock running and something typed, the live reading is the rate since the start; otherwise it is 0; nothing else changes |
| SingleText.FinalizeEffect | src/App.tsx:107-121 | on completion with the clock running, the final and live readings are both the rate since the start; an incomplete attempt records no final reading |
| SingleText.Handle | src/App.tsx:30-186 | a tick moves only the live reading and does nothing once the interval is gone; only the width buttons move the width, and they keep it in range; the restart button clears the attempt and the readings |
| SingleText.Step | src/App.tsx:79-121 | the effects after an event touch only the readings and run only when `[startTimestamp, charactersTyped, isComplete]` changed; they then clear the final reading of an incomplete attempt and freeze the rate into both readings of a complete one |
| SingleText.HandleRestart | src/App.tsx:154-160 | the restart button empties the attempt and clears the clock and final reading |
| SingleText.RestartButtonIsEscape | src/App.tsx:154-160 | the restart button does exactly what Escape does |
| SingleText.HandleCustomText | src/App.tsx:162-179 | a cancelled or blank response changes nothing; otherwise the normalised text becomes the passage and the attempt and clock start over |
| SingleText.CustomTextOutcome | src/App.tsx:162-179 | a non-blank response always gives a non-empty canonical passage |
| SingleText.AdjustLineLimit | src/App.tsx:181-186 | the width stays in range and nothing else changes |
| SingleText.InitialPracticeConsistent | src/App.tsx:17-22 | the initial state is consistent |
| SingleText.StepKeepsConsistent | src/App.tsx:30-186 | any event, with its effects, keeps the attempt within the passage, the width in range, and a final reading only on a complete attempt |
| SingleText.RunKeepsConsistent | src/App.tsx:30-186 | any run of events keeps the state consistent |

## Findings

| source | as written | input that shows it | evidently intended | confidence | as-written member | corrected member |
|---|---|---|---|---|---|---|
| frontend/src/App.tsx:11 | the live-reading interval is gated on `typingState === 'typing'`, but the store has no `typingState` field, so the selector reads undefined and the interval never starts | ten keystrokes starting at time 0, then a tick at 60000 ms: the reading stays 0 instead of 2 WPM | tick while the store's clock runs and no final reading is recorded | not executed; medium | LiveTicker.TicksAsWrittenChangeNothing | LiveTicker.TicksTrackTheRate |

`LiveTicker.FrozenReadingExample` puts both guards side by side on the input above.

## Left out

- The network request behind `generateFromPrompt` and `api/generate.ts` are not modelled. The request is the outcome parameter of `TypingStore.FinishGeneration`: `None` for a failure, or the returned text. The backend (`backend/main.py`) is not part of this model.
- `createSuccessorPreview` and `BRANCHING_ROOT` come from `frontend/src/utils/typing`, which is not part of this model. They are the parameters `pv` and `root`. The store also imports `normalizePrompt` from that file; it is assumed to be the one in `src/utils/typing.ts:8-12` (`TextNorm.NormalizePrompt`). The width constants 24, 80 and 4 and the defaults are taken from `src/utils/typing.ts`.
- React scheduling is reduced to its effect on state. An effect is applied after an event only when one of its dependencies changed (`SingleText.Step`, `Wpm.Commit`); a state update made by an effect is followed by the re-render it causes (`Wpm.RenderEffects`). Unmounting, and so the last interval cleanup, is not modelled. Intervals are explicit tick events. Focus handling, `preventDefault`, class names and JSX layout are left out.
- The caret that `Word` draws after a word's last character (`frontend/src/components/TypingCanvas.tsx:39-41`) is never requested by the segmentation: a caret at the end of a word is drawn before the following separator or as the end-of-text caret (`Canvas.WordPieceIsRef`). No member describes that branch on its own.
- `Date.now()` is the `now` parameter. The generated node id assumes the clock prints as a plain decimal integer (`TypingStore.IntToDecimal`).
- WPM is computed over exact reals. `Math.round`, `formatWpmValue`, and the `Number.isFinite` guard in `computeWpm` are left out. With exact reals and a positive time, the rate is always finite.
- Strings are sequences of code points. Only `event.key.length === 1` is modelled in UTF-16 units (`TextNorm.Utf16Length`). Everywhere else a typed index is a code-point index, which agrees with JavaScript only for text in the Basic Multilingual Plane.
- TypingStore.TypeCharacter: takes one character rather than a string. The app only ever passes a one-character key (`KeyDispatch.HandleKeyDown`).
- TypingStore.UpdateWpm: the app as written never calls it, as the finding above shows. The ticking model that does call it is `LiveTicker`.
- The two Toolbar components are left out as layout. The store-driven app renders its toolbar without handlers, so only its width buttons act (`LineLimit`). The older app's toolbar buttons are `SingleText.HandleRestart`, `SingleText.HandleCustomText` and `SingleText.AdjustLineLimit`.
- Pause-time accounting is left out because the code has none (see above).
