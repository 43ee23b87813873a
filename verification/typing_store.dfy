/** The typing session store: the branching text graph, the keystroke state machine that
    walks it, freestyle mode, custom and generated texts, and the words-per-minute clock
    fields that live in the same store. */
module TypingStore {
  import opened Wrappers
  import opened TextNorm
  import Wpm

  /** Typing this into the choice buffer switches to freestyle mode. */
  const FreestylePreview: string := "free "

  /** A passage of the text graph; `successors` are the passages that may follow it. */
  datatype Node = Node(id: string, text: string, successors: seq<Node>)

  /** The store's fields, without its action closures. */
  datatype Session = Session(
    currentNode: Node,
    typedText: string,
    choiceBuffer: string,
    totalTyped: int,
    freestyleMode: bool,
    freestyleInput: string,
    isGenerating: bool,
    startTimestamp: Option<int>,
    liveWpm: real,
    finalWpm: Option<real>)

  /** The store as created, at the root of the text graph. */
  function InitialSession(root: Node): (s: Session)
    ensures s.currentNode == root && s.typedText == "" && s.choiceBuffer == ""
    ensures s.totalTyped == 0 && !s.freestyleMode && s.freestyleInput == "" && !s.isGenerating
    ensures s.startTimestamp.None? && s.liveWpm == 0.0 && s.finalWpm.None?
  {
    Session(root, "", "", 0, false, "", false, None, 0.0, None)
  }

  /** The successor preview function shows a leading part of a passage's text. */
  ghost predicate PrefixPreviews(pv: string -> string) {
    forall t :: pv(t) <= t
  }

  /** The node is typed in full: keystrokes now go to the choice buffer. */
  predicate IsNodeComplete(s: Session)
    ensures |s.typedText| <= |s.currentNode.text| ==>
      (IsNodeComplete(s) <==> |s.typedText| == |s.currentNode.text|)
  {
    |s.typedText| >= |s.currentNode.text|
  }

  /** `successors.find(n => preview(n.text) === target)`, as the index of the first match. */
  function FindSuccessor(succs: seq<Node>, target: string, pv: string -> string): (r: Option<nat>)
    ensures r.Some? ==> r.value < |succs| && pv(succs[r.value].text) == target
    ensures r.Some? ==> forall j :: 0 <= j < r.value ==> pv(succs[j].text) != target
    ensures r.None? <==> forall j :: 0 <= j < |succs| ==> pv(succs[j].text) != target
    decreases |succs|
  {
    if |succs| == 0 then None
    else if pv(succs[0].text) == target then Some(0)
    else match FindSuccessor(succs[1..], target, pv)
      case Some(i) => Some(i + 1)
      case None => None
  }

  /** The first keystroke of a session starts the clock. */
  function StartClock(s: Session, now: int): (r: Session)
    ensures r.(startTimestamp := s.startTimestamp) == s
    ensures s.startTimestamp.Some? ==> r.startTimestamp == s.startTimestamp
    ensures s.startTimestamp.None? ==> (r.startTimestamp.Some? <==> s.totalTyped == 0)
    ensures r.startTimestamp.Some? && s.startTimestamp.None? ==> r.startTimestamp == Some(now)
  {
    if s.totalTyped == 0 && s.startTimestamp.None? then s.(startTimestamp := Some(now)) else s
  }

  /** One printable keystroke. */
  function TypeCharacter(s: Session, c: char, now: int, pv: string -> string): (r: Session)
    ensures r.totalTyped == s.totalTyped + 1
    ensures r.startTimestamp == if s.totalTyped == 0 && s.startTimestamp.None? then Some(now) else s.startTimestamp
    ensures r.isGenerating == s.isGenerating && r.liveWpm == s.liveWpm && r.finalWpm == s.finalWpm
    // freestyle: the keystroke goes to the prompt and nothing else moves
    ensures s.freestyleMode ==>
      r.freestyleMode && r.freestyleInput == s.freestyleInput + [c] &&
      r.currentNode == s.currentNode && r.typedText == s.typedText && r.choiceBuffer == s.choiceBuffer
    // otherwise the prompt is untouched
    ensures !s.freestyleMode ==> r.freestyleInput == s.freestyleInput
    // the passage is being typed: the keystroke extends it, whatever the character
    ensures !s.freestyleMode && !IsNodeComplete(s) ==>
      !r.freestyleMode && r.currentNode == s.currentNode &&
      r.typedText == s.typedText + [c] && r.choiceBuffer == s.choiceBuffer
    // the passage is complete and the buffer spells the freestyle preview
    ensures !s.freestyleMode && IsNodeComplete(s) && s.choiceBuffer + [c] == FreestylePreview ==>
      r.freestyleMode && r.choiceBuffer == "" &&
      r.currentNode == s.currentNode && r.typedText == s.typedText
    // the passage is complete and the buffer spells a successor's preview: move to it
    ensures !s.freestyleMode && IsNodeComplete(s) && s.choiceBuffer + [c] != FreestylePreview ==>
      !r.freestyleMode &&
      match FindSuccessor(s.currentNode.successors, s.choiceBuffer + [c], pv)
      case Some(i) =>
        r.currentNode == s.currentNode.successors[i] &&
        r.typedText == s.choiceBuffer + [c] && r.choiceBuffer == ""
      case None =>
        r.currentNode == s.currentNode && r.typedText == s.typedText &&
        r.choiceBuffer == s.choiceBuffer + [c]
  {
    var s := StartClock(s, now);
    if s.freestyleMode then
      s.(freestyleInput := s.freestyleInput + [c], totalTyped := s.totalTyped + 1)
    else if |s.typedText| < |s.currentNode.text| then
      s.(typedText := s.typedText + [c], totalTyped := s.totalTyped + 1)
    else
      var nextBuffer := s.choiceBuffer + [c];
      var s := s.(choiceBuffer := nextBuffer, totalTyped := s.totalTyped + 1);
      if nextBuffer == FreestylePreview then
        s.(freestyleMode := true, choiceBuffer := "")
      else
        match FindSuccessor(s.currentNode.successors, nextBuffer, pv)
        case Some(i) =>
          s.(currentNode := s.currentNode.successors[i], typedText := nextBuffer, choiceBuffer := "")
        case None => s
  }

  /** `Math.max(0, n - 1)`. */
  function CountDown(n: int): (r: int)
    ensures r >= 0
    ensures n >= 1 ==> r == n - 1
    ensures n <= 1 ==> r == 0
  {
    if n - 1 < 0 then 0 else n - 1
  }

  /** Backspace: erase from the prompt, the choice buffer or the typed text, in that order
      of priority; an empty prompt leaves freestyle mode instead. */
  function Backspace(s: Session): (r: Session)
    ensures r.currentNode == s.currentNode && r.isGenerating == s.isGenerating
    ensures r.startTimestamp == s.startTimestamp && r.liveWpm == s.liveWpm && r.finalWpm == s.finalWpm
    ensures s.freestyleMode && s.freestyleInput != "" ==>
      r.freestyleMode && r.freestyleInput == s.freestyleInput[..|s.freestyleInput| - 1] &&
      r.totalTyped == CountDown(s.totalTyped) &&
      r.typedText == s.typedText && r.choiceBuffer == s.choiceBuffer
    // leaving freestyle mode puts back the buffer one keystroke short of the preview
    ensures s.freestyleMode && s.freestyleInput == "" ==>
      !r.freestyleMode && r.choiceBuffer == FreestylePreview[..|FreestylePreview| - 1] &&
      r.totalTyped == s.totalTyped && r.typedText == s.typedText && r.freestyleInput == ""
    ensures !s.freestyleMode ==> !r.freestyleMode && r.freestyleInput == s.freestyleInput
    ensures !s.freestyleMode && s.choiceBuffer != "" ==>
      r.choiceBuffer == s.choiceBuffer[..|s.choiceBuffer| - 1] &&
      r.totalTyped == CountDown(s.totalTyped) && r.typedText == s.typedText
    ensures !s.freestyleMode && s.choiceBuffer == "" && s.typedText != "" ==>
      r.typedText == s.typedText[..|s.typedText| - 1] &&
      r.totalTyped == CountDown(s.totalTyped) && r.choiceBuffer == ""
    // nothing to erase
    ensures !s.freestyleMode && s.choiceBuffer == "" && s.typedText == "" ==> r == s
  {
    if s.freestyleMode then
      if |s.freestyleInput| > 0 then
        s.(freestyleInput := s.freestyleInput[..|s.freestyleInput| - 1], totalTyped := CountDown(s.totalTyped))
      else
        s.(freestyleMode := false, choiceBuffer := FreestylePreview[..|FreestylePreview| - 1])
    else if |s.choiceBuffer| > 0 then
      s.(choiceBuffer := s.choiceBuffer[..|s.choiceBuffer| - 1], totalTyped := CountDown(s.totalTyped))
    else if |s.typedText| > 0 then
      s.(typedText := s.typedText[..|s.typedText| - 1], totalTyped := CountDown(s.totalTyped))
    else
      s
  }

  /** Picking a successor by its preview directly. The app never calls it; a keystroke that
      completes a preview has the same effect. */
  function SelectChoice(s: Session, preview: string, pv: string -> string): (r: Session)
    ensures r.totalTyped == s.totalTyped && r.freestyleMode == s.freestyleMode && r.freestyleInput == s.freestyleInput
    ensures r.isGenerating == s.isGenerating && r.startTimestamp == s.startTimestamp
    ensures r.liveWpm == s.liveWpm && r.finalWpm == s.finalWpm
    ensures match FindSuccessor(s.currentNode.successors, preview, pv)
      case Some(i) =>
        r.currentNode == s.currentNode.successors[i] && r.typedText == preview && r.choiceBuffer == ""
      case None => r == s
  {
    match FindSuccessor(s.currentNode.successors, preview, pv)
    case Some(i) => s.(currentNode := s.currentNode.successors[i], typedText := preview, choiceBuffer := "")
    case None => s
  }

  function EnterFreestyleMode(s: Session): (r: Session)
    ensures r.freestyleMode && r.choiceBuffer == ""
    ensures r.(freestyleMode := s.freestyleMode, choiceBuffer := s.choiceBuffer) == s
  {
    s.(freestyleMode := true, choiceBuffer := "")
  }

  function UpdateFreestyleInput(s: Session, input: string): (r: Session)
    ensures r.freestyleInput == input
    ensures r.(freestyleInput := s.freestyleInput) == s
  {
    s.(freestyleInput := input)
  }

  predicate AllDigits(s: string) {
    forall i :: 0 <= i < |s| ==> '0' <= s[i] <= '9'
  }

  /** The number a string of decimal digits denotes, most significant digit first. */
  function DecimalValue(s: string): nat
    requires AllDigits(s)
  {
    if |s| == 0 then 0 else 10 * DecimalValue(s[..|s| - 1]) + (s[|s| - 1] as int - '0' as int)
  }

  /** The character of the digit `k`. */
  function Digit(k: nat): (d: char)
    requires k < 10
    ensures '0' <= d <= '9' && d as int - '0' as int == k
  {
    ('0' as int + k) as char
  }

  /** Appending a digit to a numeral multiplies its value by ten and adds the digit. */
  lemma DecimalValueSnoc(prefix: string, d: char)
    requires AllDigits(prefix) && '0' <= d <= '9'
    ensures AllDigits(prefix + [d])
    ensures DecimalValue(prefix + [d]) == 10 * DecimalValue(prefix) + (d as int - '0' as int)
  {
    assert (prefix + [d])[..|prefix|] == prefix;
  }

  /** The decimal digits of a natural number, as `${n}` prints them: they denote `n`, and
      there is no leading zero. */
  function NatToDecimal(n: nat): (r: string)
    ensures |r| > 0 && AllDigits(r) && DecimalValue(r) == n
    ensures |r| > 1 ==> r[0] != '0'
  {
    if n < 10 then
      assert DecimalValue([Digit(n)]) == DecimalValue([]) * 10 + n;
      [Digit(n)]
    else
      var prefix := NatToDecimal(n / 10);
      DecimalValueSnoc(prefix, Digit(n % 10));
      assert |prefix| == 1 ==> prefix[..0] == [];
      prefix + [Digit(n % 10)]
  }

  /** `${i}` for an integer: a minus sign before the digits of a negative number. */
  function IntToDecimal(i: int): (r: string)
    ensures i < 0 <==> |r| > 0 && r[0] == '-'
    ensures i >= 0 ==> AllDigits(r) && DecimalValue(r) == i
    ensures i < 0 ==> AllDigits(r[1..]) && DecimalValue(r[1..]) == -i
  {
    if i < 0 then "-" + NatToDecimal(-i) else NatToDecimal(i)
  }

  /** Different clock readings print differently, so generated node ids never collide. */
  lemma IntToDecimalInjective(a: int, b: int)
    ensures IntToDecimal(a) == IntToDecimal(b) ==> a == b
  {
  }

  /** `generateFromPrompt` before its request: the busy flag goes up. */
  function BeginGeneration(s: Session): (r: Session)
    ensures r.isGenerating
    ensures r.(isGenerating := s.isGenerating) == s
  {
    s.(isGenerating := true)
  }

  /** `generateFromPrompt` after its request: `outcome` is the generated text, or `None` when
      the request failed. A usable text becomes a fresh passage with no successors. */
  function FinishGeneration(s: Session, outcome: Option<string>, now: int): (r: Session)
    ensures !r.isGenerating
    ensures r.totalTyped == s.totalTyped && r.startTimestamp == s.startTimestamp
    ensures r.liveWpm == s.liveWpm && r.finalWpm == s.finalWpm
    ensures outcome.None? || NormalizePrompt(outcome.value) == "" ==> r == s.(isGenerating := false)
    ensures outcome.Some? && NormalizePrompt(outcome.value) != "" ==>
      r.currentNode == Node("freestyle-" + IntToDecimal(now), NormalizePrompt(outcome.value), []) &&
      r.typedText == "" && r.choiceBuffer == "" && !r.freestyleMode && r.freestyleInput == ""
  {
    var s := match outcome
      case Some(text) =>
        var normalized := NormalizePrompt(text);
        if |normalized| > 0 then
          s.(currentNode := Node("freestyle-" + IntToDecimal(now), normalized, []),
             typedText := "", choiceBuffer := "", freestyleMode := false, freestyleInput := "")
        else s
      case None => s;
    s.(isGenerating := false)
  }

  /** Back to the root with a fresh clock; a generation in flight is not cancelled. */
  function Restart(s: Session, root: Node): (r: Session)
    ensures r.(isGenerating := false) == InitialSession(root)
    ensures r.isGenerating == s.isGenerating
  {
    s.(currentNode := root, typedText := "", choiceBuffer := "", totalTyped := 0,
       freestyleMode := false, freestyleInput := "", startTimestamp := None, liveWpm := 0.0, finalWpm := None)
  }

  /** A pasted text, normalised, becomes the passage to type; blank text is ignored. */
  function SetCustomText(s: Session, text: string): (r: Session)
    ensures NormalizePrompt(text) == "" ==> r == s
    ensures NormalizePrompt(text) != "" ==>
      r.currentNode == Node("custom", NormalizePrompt(text), []) &&
      r.typedText == "" && r.choiceBuffer == "" && r.totalTyped == 0 &&
      r.startTimestamp.None? && r.liveWpm == 0.0 && r.finalWpm.None?
    // freestyle fields and the busy flag are left as they were
    ensures r.freestyleMode == s.freestyleMode && r.freestyleInput == s.freestyleInput
    ensures r.isGenerating == s.isGenerating
  {
    var normalized := NormalizePrompt(text);
    if |normalized| == 0 then s
    else
      s.(currentNode := Node("custom", normalized, []), typedText := "", choiceBuffer := "",
         totalTyped := 0, startTimestamp := None, liveWpm := 0.0, finalWpm := None)
  }

  function ResetWpm(s: Session): (r: Session)
    ensures r.startTimestamp.None? && r.liveWpm == 0.0 && r.finalWpm.None?
    ensures r.(startTimestamp := s.startTimestamp, liveWpm := s.liveWpm, finalWpm := s.finalWpm) == s
  {
    s.(startTimestamp := None, liveWpm := 0.0, finalWpm := None)
  }

  /** Refresh the live reading from the count of keystrokes and the time since the first. */
  function UpdateWpm(s: Session, now: int): (r: Session)
    ensures r.(liveWpm := s.liveWpm) == s
    ensures r.liveWpm >= 0.0 || r.liveWpm == s.liveWpm
    ensures s.startTimestamp.None? || s.totalTyped <= 0 ==> r == s
    ensures s.startTimestamp.Some? && s.totalTyped > 0 && now > s.startTimestamp.value ==>
      r.liveWpm * ((now - s.startTimestamp.value) as real) == (s.totalTyped as real) * 12000.0
    ensures s.startTimestamp.Some? && s.totalTyped > 0 && now <= s.startTimestamp.value ==> r.liveWpm == 0.0
  {
    if s.startTimestamp.None? || s.totalTyped <= 0 then s
    else s.(liveWpm := Wpm.ComputeWpm(s.totalTyped, now - s.startTimestamp.value))
  }

  // ---------------------------------------------------------------------------------------
  // Every store action, for statements about arbitrary interleavings

  datatype Action =
    | TypeChar(c: char, now: int)
    | Erase
    | Select(preview: string)
    | EnterFreestyle
    | EditFreestyle(input: string)
    | BeginGenerate
    | FinishGenerate(outcome: Option<string>, now: int)
    | RestartSession
    | SetCustom(text: string)
    | ClearClock
    | TickClock(now: int)

  function Apply(s: Session, a: Action, root: Node, pv: string -> string): Session {
    match a
    case TypeChar(c, now) => TypeCharacter(s, c, now, pv)
    case Erase => Backspace(s)
    case Select(p) => SelectChoice(s, p, pv)
    case EnterFreestyle => EnterFreestyleMode(s)
    case EditFreestyle(input) => UpdateFreestyleInput(s, input)
    case BeginGenerate => BeginGeneration(s)
    case FinishGenerate(outcome, now) => FinishGeneration(s, outcome, now)
    case RestartSession => Restart(s, root)
    case SetCustom(text) => SetCustomText(s, text)
    case ClearClock => ResetWpm(s)
    case TickClock(now) => UpdateWpm(s, now)
  }

  function ApplyAll(s: Session, actions: seq<Action>, root: Node, pv: string -> string): Session
    decreases |actions|
  {
    if |actions| == 0 then s else ApplyAll(Apply(s, actions[0], root, pv), actions[1..], root, pv)
  }

  /** The typed text never runs past the passage. */
  predicate Bounded(s: Session) {
    |s.typedText| <= |s.currentNode.text|
  }

  /** The session shape that keystrokes alone produce: the choice buffer and freestyle mode
      are only in use once the passage is typed in full. */
  predicate KeyDriven(s: Session) {
    (s.freestyleMode || s.choiceBuffer != "") ==> |s.typedText| == |s.currentNode.text|
  }

  predicate WellFormed(s: Session) {
    Bounded(s) && KeyDriven(s) && s.totalTyped >= 0
  }

  lemma InitialSessionWellFormed(root: Node)
    ensures WellFormed(InitialSession(root))
  {
  }

  /** Every action keeps the typed text within the passage and the keystroke count
      non-negative. */
  lemma ApplyKeepsBounds(s: Session, a: Action, root: Node, pv: string -> string)
    requires PrefixPreviews(pv)
    requires Bounded(s) && s.totalTyped >= 0
    ensures var r := Apply(s, a, root, pv); Bounded(r) && r.totalTyped >= 0
  {
    match a
    case TypeChar(c, now) =>
      var nextBuffer := s.choiceBuffer + [c];
      if !s.freestyleMode && IsNodeComplete(s) && nextBuffer != FreestylePreview {
        var m := FindSuccessor(s.currentNode.successors, nextBuffer, pv);
        if m.Some? {
          assert pv(s.currentNode.successors[m.value].text) <= s.currentNode.successors[m.value].text;
        }
      }
    case Select(p) =>
      var m := FindSuccessor(s.currentNode.successors, p, pv);
      if m.Some? {
        assert pv(s.currentNode.successors[m.value].text) <= s.currentNode.successors[m.value].text;
      }
    case _ =>
  }

  lemma {:induction false} ApplyAllKeepsBounds(s: Session, actions: seq<Action>, root: Node, pv: string -> string)
    requires PrefixPreviews(pv)
    requires Bounded(s) && s.totalTyped >= 0
    ensures var r := ApplyAll(s, actions, root, pv); Bounded(r) && r.totalTyped >= 0
    decreases |actions|
  {
    if |actions| > 0 {
      ApplyKeepsBounds(s, actions[0], root, pv);
      ApplyAllKeepsBounds(Apply(s, actions[0], root, pv), actions[1..], root, pv);
    }
  }

  /** The actions a keyboard reaches: keystrokes, backspace, restart, and the generation
      round trip. */
  predicate IsKeyAction(a: Action) {
    a.TypeChar? || a.Erase? || a.RestartSession? || a.BeginGenerate? || a.FinishGenerate?
  }

  lemma KeyActionKeepsWellFormed(s: Session, a: Action, root: Node, pv: string -> string)
    requires PrefixPreviews(pv) && WellFormed(s) && IsKeyAction(a)
    ensures WellFormed(Apply(s, a, root, pv))
  {
    ApplyKeepsBounds(s, a, root, pv);
  }

  lemma {:induction false} KeyActionsKeepWellFormed(s: Session, actions: seq<Action>, root: Node, pv: string -> string)
    requires PrefixPreviews(pv) && WellFormed(s)
    requires forall i :: 0 <= i < |actions| ==> IsKeyAction(actions[i])
    ensures WellFormed(ApplyAll(s, actions, root, pv))
    decreases |actions|
  {
    if |actions| > 0 {
      KeyActionKeepsWellFormed(s, actions[0], root, pv);
      KeyActionsKeepWellFormed(Apply(s, actions[0], root, pv), actions[1..], root, pv);
    }
  }

  /** Outside keystrokes, the shape breaks: entering freestyle mode with the passage
      unfinished, or pasting a text while in freestyle mode. */
  lemma EnterFreestyleBreaksKeyDriven()
    ensures var s := InitialSession(Node("root", "ab", []));
      WellFormed(s) && !KeyDriven(EnterFreestyleMode(s))
  {
  }

  lemma SetCustomTextBreaksKeyDriven()
    ensures var s := InitialSession(Node("root", "", [])).(freestyleMode := true);
      WellFormed(s) && !KeyDriven(SetCustomText(s, "go"))
  {
    var s := InitialSession(Node("root", "", [])).(freestyleMode := true);
    NormalizeOfWord("go");
  }

  /** A word needs no normalising. */
  lemma NormalizeOfWord(w: string)
    requires IsWord(w)
    ensures NormalizePrompt(w) == w
  {
    JoinIsCanonical([w]);
    NormalizeFixedIffCanonical(w);
  }

  // ---------------------------------------------------------------------------------------
  // Keystrokes against the passage

  function TypeAll(s: Session, cs: string, now: int, pv: string -> string): Session
    decreases |cs|
  {
    if |cs| == 0 then s else TypeAll(TypeCharacter(s, cs[0], now, pv), cs[1..], now, pv)
  }

  /** While the passage is unfinished, keystrokes append to the typed text verbatim, even
      the wrong ones. */
  lemma {:induction false} TypeAllExtends(s: Session, cs: string, now: int, pv: string -> string)
    requires !s.freestyleMode && |s.typedText| + |cs| <= |s.currentNode.text|
    ensures var r := TypeAll(s, cs, now, pv);
      r.typedText == s.typedText + cs && r.totalTyped == s.totalTyped + |cs| &&
      r.currentNode == s.currentNode && r.choiceBuffer == s.choiceBuffer &&
      !r.freestyleMode && r.freestyleInput == s.freestyleInput
    decreases |cs|
  {
    if |cs| > 0 {
      var t := TypeCharacter(s, cs[0], now, pv);
      TypeAllExtends(t, cs[1..], now, pv);
      assert s.typedText + [cs[0]] + cs[1..] == s.typedText + cs;
    }
  }

  /** Typing exactly the rest of the passage completes it, and no shorter run does. */
  lemma CompletesExactlyAtTheEnd(s: Session, cs: string, now: int, pv: string -> string)
    requires !s.freestyleMode && |s.typedText| + |cs| == |s.currentNode.text|
    ensures IsNodeComplete(TypeAll(s, cs, now, pv))
    ensures forall k :: 0 <= k < |cs| ==> !IsNodeComplete(TypeAll(s, cs[..k], now, pv))
  {
    TypeAllExtends(s, cs, now, pv);
    forall k | 0 <= k < |cs|
      ensures !IsNodeComplete(TypeAll(s, cs[..k], now, pv))
    {
      TypeAllExtends(s, cs[..k], now, pv);
    }
  }

  function EraseN(s: Session, n: nat): Session
    decreases n
  {
    if n == 0 then s else EraseN(Backspace(s), n - 1)
  }

  /** With an empty buffer, backspaces erase the typed text from its end. */
  lemma {:induction false} EraseNShortens(s: Session, n: nat)
    requires !s.freestyleMode && s.choiceBuffer == "" && n <= |s.typedText| && s.totalTyped >= n
    ensures var r := EraseN(s, n);
      r.typedText == s.typedText[..|s.typedText| - n] && r.totalTyped == s.totalTyped - n &&
      r.currentNode == s.currentNode && r.choiceBuffer == "" &&
      !r.freestyleMode && r.freestyleInput == s.freestyleInput
    decreases n
  {
    if n > 0 {
      var t := Backspace(s);
      EraseNShortens(t, n - 1);
      assert t.typedText[..|t.typedText| - (n - 1)] == s.typedText[..|s.typedText| - n];
    }
  }

  /** Backspacing over what was just typed restores the passage progress and the count. */
  lemma UndoTyping(s: Session, cs: string, now: int, pv: string -> string)
    requires !s.freestyleMode && s.choiceBuffer == "" && s.totalTyped >= 0
    requires |s.typedText| + |cs| <= |s.currentNode.text|
    ensures var r := EraseN(TypeAll(s, cs, now, pv), |cs|);
      r.typedText == s.typedText && r.totalTyped == s.totalTyped &&
      r.currentNode == s.currentNode && r.choiceBuffer == s.choiceBuffer &&
      r.freestyleMode == s.freestyleMode && r.freestyleInput == s.freestyleInput
  {
    TypeAllExtends(s, cs, now, pv);
    var t := TypeAll(s, cs, now, pv);
    EraseNShortens(t, |cs|);
    assert (s.typedText + cs)[..|s.typedText|] == s.typedText;
  }

  /** In the choice buffer, a keystroke that matches nothing is taken back by backspace. */
  lemma UndoBufferKeystroke(s: Session, c: char, now: int, pv: string -> string)
    requires !s.freestyleMode && IsNodeComplete(s) && s.totalTyped >= 0
    requires s.choiceBuffer + [c] != FreestylePreview
    requires FindSuccessor(s.currentNode.successors, s.choiceBuffer + [c], pv).None?
    ensures var r := Backspace(TypeCharacter(s, c, now, pv));
      r.choiceBuffer == s.choiceBuffer && r.typedText == s.typedText &&
      r.currentNode == s.currentNode && r.totalTyped == s.totalTyped && !r.freestyleMode
  {
    assert (s.choiceBuffer + [c])[..|s.choiceBuffer|] == s.choiceBuffer;
  }

  /** In freestyle mode, backspace takes back the last prompt keystroke. */
  lemma UndoFreestyleKeystroke(s: Session, c: char, now: int, pv: string -> string)
    requires s.freestyleMode && s.totalTyped >= 0
    ensures var r := Backspace(TypeCharacter(s, c, now, pv));
      r.freestyleInput == s.freestyleInput && r.totalTyped == s.totalTyped &&
      r.freestyleMode && r.choiceBuffer == s.choiceBuffer && r.typedText == s.typedText
  {
    assert (s.freestyleInput + [c])[..|s.freestyleInput|] == s.freestyleInput;
  }

  /** Typing the freestyle preview's last letter and then backspacing lands where the
      letter was typed: freestyle mode entered and left again. */
  lemma FreestyleEntryUndone(s: Session, now: int, pv: string -> string)
    requires !s.freestyleMode && IsNodeComplete(s) && s.choiceBuffer == "free" && s.freestyleInput == ""
    ensures var r := Backspace(TypeCharacter(s, ' ', now, pv));
      r.choiceBuffer == s.choiceBuffer && !r.freestyleMode &&
      r.typedText == s.typedText && r.currentNode == s.currentNode &&
      r.totalTyped == s.totalTyped + 1
  {
  }

  /** Completing a successor's preview by keyboard lands where picking it would, except
      that the keystroke is counted and may start the clock. */
  lemma KeystrokeMatchIsSelectChoice(s: Session, c: char, now: int, pv: string -> string)
    requires !s.freestyleMode && IsNodeComplete(s) && s.choiceBuffer + [c] != FreestylePreview
    requires FindSuccessor(s.currentNode.successors, s.choiceBuffer + [c], pv).Some?
    ensures var r := TypeCharacter(s, c, now, pv); var q := SelectChoice(s, s.choiceBuffer + [c], pv);
      r.currentNode == q.currentNode && r.typedText == q.typedText && r.choiceBuffer == q.choiceBuffer &&
      r.freestyleMode == q.freestyleMode && r.totalTyped == q.totalTyped + 1
  {
  }

  /** After a keyboard move to a successor, its passage already shows the preview typed. */
  lemma MoveKeepsTypedPrefix(s: Session, c: char, now: int, pv: string -> string)
    requires PrefixPreviews(pv)
    requires !s.freestyleMode && IsNodeComplete(s) && s.choiceBuffer + [c] != FreestylePreview
    requires FindSuccessor(s.currentNode.successors, s.choiceBuffer + [c], pv).Some?
    ensures var r := TypeCharacter(s, c, now, pv); r.typedText <= r.currentNode.text && r.typedText != ""
  {
    var i := FindSuccessor(s.currentNode.successors, s.choiceBuffer + [c], pv).value;
    assert pv(s.currentNode.successors[i].text) <= s.currentNode.successors[i].text;
  }

  // ---------------------------------------------------------------------------------------
  // Resets

  lemma RestartIdempotent(s: Session, root: Node)
    ensures Restart(Restart(s, root), root) == Restart(s, root)
  {
  }

  /** A blank paste changes nothing. */
  lemma BlankCustomTextIgnored(s: Session, text: string)
    requires AllSpace(text)
    ensures SetCustomText(s, text) == s
  {
    NormalizeEmptyIff(text);
  }

  /** A non-blank paste yields a passage in canonical form carrying the same non-space
      characters. */
  lemma CustomTextIsCanonical(s: Session, text: string)
    requires !AllSpace(text)
    ensures var r := SetCustomText(s, text);
      r.currentNode.text != "" && IsCanonical(r.currentNode.text) &&
      NonSpace(r.currentNode.text) == NonSpace(text)
  {
    NormalizeEmptyIff(text);
    NormalizeIsCanonical(text);
    NormalizeKeepsNonSpace(text);
  }

  /** Pasting the same text twice is pasting it once. */
  lemma SetCustomTextIdempotent(s: Session, text: string)
    ensures SetCustomText(SetCustomText(s, text), text) == SetCustomText(s, text)
  {
  }

  /** A generated passage is never blank and is in canonical form. */
  lemma GeneratedTextIsCanonical(s: Session, text: string, now: int)
    requires !AllSpace(text)
    ensures var r := FinishGeneration(s, Some(text), now);
      r.currentNode.text != "" && IsCanonical(r.currentNode.text) && r.currentNode.successors == []
  {
    NormalizeEmptyIff(text);
    NormalizeIsCanonical(text);
  }
}
