/** The store-driven app's keyboard handler: which store action a key press triggers, and
    what a run of key presses and finished generations does to a session. */
module KeyDispatch {
  import opened Wrappers
  import opened TextNorm
  import TypingStore

  datatype KeyEvent = KeyEvent(key: string, metaKey: bool, ctrlKey: bool, altKey: bool)

  /** The store action a key press asks for. */
  datatype Command = Restart | Generate(prompt: string) | Erase | Type(c: char)

  /** `event.key.length === 1`: a single UTF-16 unit, so one character of the Basic
      Multilingual Plane; named keys such as "Enter" are longer. */
  predicate IsCharacterKey(key: string) {
    Utf16Length(key) == 1
  }

  lemma CharacterKeyIsOneCharacter(key: string)
    requires IsCharacterKey(key)
    ensures |key| == 1 && key[0] <= '\U{FFFF}'
  {
  }

  predicate HasModifier(e: KeyEvent) {
    e.metaKey || e.ctrlKey || e.altKey
  }

  predicate Ignored(e: KeyEvent, isGenerating: bool) {
    HasModifier(e) || isGenerating
  }

  /** `handleKeyDown`, reading the mode, the prompt and the busy flag from the store. */
  function HandleKeyDown(e: KeyEvent, freestyleMode: bool, freestyleInput: string, isGenerating: bool): (r: Option<Command>)
    ensures Ignored(e, isGenerating) ==> r.None?
    ensures r == Some(Restart) <==> !Ignored(e, isGenerating) && e.key == "Escape"
    ensures r.Some? && r.value.Generate? <==>
      !Ignored(e, isGenerating) && freestyleMode && e.key == "Enter" && Trim(freestyleInput) != ""
    ensures r.Some? && r.value.Generate? ==> r.value.prompt == Trim(freestyleInput)
    ensures r == Some(Erase) <==> !Ignored(e, isGenerating) && e.key == "Backspace"
    ensures r.Some? && r.value.Type? <==> !Ignored(e, isGenerating) && IsCharacterKey(e.key)
    ensures r.Some? && r.value.Type? ==> e.key == [r.value.c]
  {
    if Ignored(e, isGenerating) then None
    else if e.key == "Escape" then Some(Restart)
    else if freestyleMode && e.key == "Enter" then
      var prompt := Trim(freestyleInput);
      if |prompt| > 0 then Some(Generate(prompt)) else None
    else if e.key == "Backspace" then Some(Erase)
    else if IsCharacterKey(e.key) then Some(Type(e.key[0]))
    else None
  }

  /** Enter types nothing, and outside freestyle mode it does nothing at all. */
  lemma EnterNeverTypes(e: KeyEvent, freestyleMode: bool, freestyleInput: string, isGenerating: bool)
    requires e.key == "Enter"
    ensures var r := HandleKeyDown(e, freestyleMode, freestyleInput, isGenerating);
      !(r.Some? && r.value.Type?) && (!freestyleMode ==> r.None?)
  {
    assert Utf16Length("Enter") == 5;
  }

  function ToAction(cmd: Command, now: int): TypingStore.Action {
    match cmd
    case Restart => TypingStore.RestartSession
    case Generate(_) => TypingStore.BeginGenerate
    case Erase => TypingStore.Erase
    case Type(c) => TypingStore.TypeChar(c, now)
  }

  /** A key press, at time `now`, applied to the store. Starting a generation raises the busy
      flag; the request itself is the `GenerationDone` input below. */
  function OnKeyDown(s: TypingStore.Session, e: KeyEvent, now: int, root: TypingStore.Node, pv: string -> string): (r: TypingStore.Session)
    ensures s.isGenerating || HasModifier(e) ==> r == s
  {
    match HandleKeyDown(e, s.freestyleMode, s.freestyleInput, s.isGenerating)
    case None => s
    case Some(cmd) => TypingStore.Apply(s, ToAction(cmd, now), root, pv)
  }

  /** What reaches the store from the keyboard and from a generation request. */
  datatype Input =
    | Key(e: KeyEvent, now: int)
    | GenerationDone(outcome: Option<string>, now: int)

  function Feed(s: TypingStore.Session, i: Input, root: TypingStore.Node, pv: string -> string): TypingStore.Session {
    match i
    case Key(e, now) => OnKeyDown(s, e, now, root, pv)
    case GenerationDone(outcome, now) => TypingStore.FinishGeneration(s, outcome, now)
  }

  function FeedAll(s: TypingStore.Session, inputs: seq<Input>, root: TypingStore.Node, pv: string -> string): TypingStore.Session
    decreases |inputs|
  {
    if |inputs| == 0 then s else FeedAll(Feed(s, inputs[0], root, pv), inputs[1..], root, pv)
  }

  lemma FeedKeepsWellFormed(s: TypingStore.Session, i: Input, root: TypingStore.Node, pv: string -> string)
    requires TypingStore.PrefixPreviews(pv) && TypingStore.WellFormed(s)
    ensures TypingStore.WellFormed(Feed(s, i, root, pv))
  {
    match i
    case Key(e, now) =>
      var m := HandleKeyDown(e, s.freestyleMode, s.freestyleInput, s.isGenerating);
      if m.Some? {
        TypingStore.KeyActionKeepsWellFormed(s, ToAction(m.value, now), root, pv);
      }
    case GenerationDone(outcome, now) =>
      TypingStore.KeyActionKeepsWellFormed(s, TypingStore.FinishGenerate(outcome, now), root, pv);
  }

  /** From a well-formed session, keyboard input and finished generations keep the typed
      text within the passage, the count non-negative, and the choice buffer and freestyle
      mode in use only once the passage is typed in full. */
  lemma {:induction false} FeedAllKeepsWellFormed(s: TypingStore.Session, inputs: seq<Input>, root: TypingStore.Node, pv: string -> string)
    requires TypingStore.PrefixPreviews(pv) && TypingStore.WellFormed(s)
    ensures TypingStore.WellFormed(FeedAll(s, inputs, root, pv))
    decreases |inputs|
  {
    if |inputs| > 0 {
      FeedKeepsWellFormed(s, inputs[0], root, pv);
      FeedAllKeepsWellFormed(Feed(s, inputs[0], root, pv), inputs[1..], root, pv);
    }
  }

  /** Escape restarts from the root whether or not freestyle mode is on. */
  lemma EscapeRestarts(s: TypingStore.Session, now: int, root: TypingStore.Node, pv: string -> string)
    requires !s.isGenerating
    ensures OnKeyDown(s, KeyEvent("Escape", false, false, false), now, root, pv) == TypingStore.Restart(s, root)
  {
  }

  /** While a generation is in flight every key press is ignored, so only its completion
      moves the session. */
  lemma {:induction false} BusySessionIgnoresKeys(s: TypingStore.Session, keys: seq<Input>, root: TypingStore.Node, pv: string -> string)
    requires s.isGenerating
    requires forall k :: 0 <= k < |keys| ==> keys[k].Key?
    ensures FeedAll(s, keys, root, pv) == s
    decreases |keys|
  {
    if |keys| > 0 {
      BusySessionIgnoresKeys(s, keys[1..], root, pv);
    }
  }
}
