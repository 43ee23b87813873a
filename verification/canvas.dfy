/** The store-driven canvas: the passage cut into words and separators so that words do
    not break across lines, the caret placed inside that structure, and the choice panel
    derived from the current node. */
module Canvas {
  import opened Wrappers
  import opened Feedback
  import LegacyCanvas
  import TypingStore

  // ---------------------------------------------------------------------------------------
  // Choice panel

  /** The successors' previews in successor order, then the freestyle entry. */
  function Choices(node: TypingStore.Node, pv: string -> string): (cs: seq<Choice>)
    ensures |cs| == |node.successors| + 1
    ensures forall i :: 0 <= i < |node.successors| ==>
      cs[i] == Choice(node.successors[i].id, pv(node.successors[i].text))
    ensures cs[|node.successors|] == Choice("freestyle", TypingStore.FreestylePreview)
  {
    seq(|node.successors|, i requires 0 <= i < |node.successors| =>
      Choice(node.successors[i].id, pv(node.successors[i].text)))
    + [Choice("freestyle", TypingStore.FreestylePreview)]
  }

  /** The older canvas's gating, with freestyle mode hiding the panel. */
  predicate ShowChoices(s: TypingStore.Session, pv: string -> string) {
    LegacyCanvas.ShowChoices(Choices(s.currentNode, pv), TypingStore.IsNodeComplete(s), s.choiceBuffer) &&
    !s.freestyleMode
  }

  /** The list is never empty, so only completion, the buffer and the mode matter. */
  lemma ShowChoicesIff(s: TypingStore.Session, pv: string -> string)
    ensures ShowChoices(s, pv) <==>
      (TypingStore.IsNodeComplete(s) || s.choiceBuffer != "") && !s.freestyleMode
  {
  }

  /** In a keyboard-driven session the panel shows exactly when the passage is typed out
      and freestyle mode is off. */
  lemma ShowChoicesWhenKeyDriven(s: TypingStore.Session, pv: string -> string)
    requires TypingStore.KeyDriven(s)
    ensures ShowChoices(s, pv) <==> TypingStore.IsNodeComplete(s) && !s.freestyleMode
  {
  }

  function BufferColour(s: TypingStore.Session, pv: string -> string): Mark {
    BufferMark(Choices(s.currentNode, pv), s.choiceBuffer)
  }

  /** A buffer the store acts on, the freestyle preview or a successor's preview, is shown
      white. */
  lemma AcceptedBufferIsWhite(node: TypingStore.Node, buffer: string, pv: string -> string)
    requires buffer != ""
    requires buffer == TypingStore.FreestylePreview ||
             TypingStore.FindSuccessor(node.successors, buffer, pv).Some?
    ensures BufferMark(Choices(node, pv), buffer) == Correct
  {
    var cs := Choices(node, pv);
    if buffer == TypingStore.FreestylePreview {
      assert buffer <= cs[|node.successors|].preview;
    } else {
      var i := TypingStore.FindSuccessor(node.successors, buffer, pv).value;
      assert buffer <= cs[i].preview;
    }
  }

  /** A keystroke that turns the buffer red never moves to another passage: it only
      lengthens the buffer. */
  lemma RedBufferNeverMoves(s: TypingStore.Session, c: char, now: int, pv: string -> string)
    requires !s.freestyleMode && TypingStore.IsNodeComplete(s)
    requires BufferMark(Choices(s.currentNode, pv), s.choiceBuffer + [c]) == Incorrect
    ensures var r := TypingStore.TypeCharacter(s, c, now, pv);
      r.currentNode == s.currentNode && r.choiceBuffer == s.choiceBuffer + [c] && !r.freestyleMode
  {
    var b := s.choiceBuffer + [c];
    if b == TypingStore.FreestylePreview || TypingStore.FindSuccessor(s.currentNode.successors, b, pv).Some? {
      AcceptedBufferIsWhite(s.currentNode, b, pv);
    }
  }

  // ---------------------------------------------------------------------------------------
  // Word segmentation

  /** The data of one rendered character: its text character, what was typed there, and its
      index in the passage. */
  datatype CharProps = CharProps(ch: char, typedChar: Option<char>, index: nat)

  /** A word, drawn unbroken, with an optional caret before one of its characters or after
      the last; or a single separator character, with an optional caret before it. */
  datatype Piece =
    | WordPiece(chars: seq<CharProps>, showCaret: bool, caretPosition: Option<int>)
    | SeparatorPiece(ch: char, typedChar: Option<char>, index: nat, showCaret: bool)

  /** The state of the scan over the passage: pieces so far, the word being gathered, and
      where that word starts. */
  datatype Scan = Scan(result: seq<Piece>, currentWord: seq<CharProps>, wordStart: int)

  predicate IsSeparator(c: char) {
    c == ' ' || c == '\n'
  }

  function Props(text: string, typed: string, i: nat): CharProps
    requires i < |text|
  {
    CharProps(text[i], CharAt(typed, i), i)
  }

  /** A gathered word; the caret position is given only when the caret is inside it. */
  function GatheredWord(chars: seq<CharProps>, wordStart: int, typed: string, caretInWord: bool): Piece {
    WordPiece(chars, caretInWord, if caretInWord then Some(|typed| - wordStart) else None)
  }

  /** The pieces so far, with the gathered word (if any) closed off by a separator at
      `index`. */
  function FlushWord(st: Scan, typed: string, isNodeComplete: bool, index: nat): seq<Piece> {
    if |st.currentWord| > 0 then
      var caretInWord := !isNodeComplete && |typed| >= st.wordStart && |typed| < index;
      st.result + [GatheredWord(st.currentWord, st.wordStart, typed, caretInWord)]
    else st.result
  }

  /** The scan's treatment of the character at `index`. */
  function ScanStep(st: Scan, text: string, typed: string, isNodeComplete: bool, index: nat): Scan
    requires index < |text|
  {
    var ch := text[index];
    if IsSeparator(ch) then
      var showCaretHere := !isNodeComplete && |typed| == index;
      Scan(FlushWord(st, typed, isNodeComplete, index) + [SeparatorPiece(ch, CharAt(typed, index), index, showCaretHere)],
           [], index + 1)
    else
      var wordStart := if |st.currentWord| == 0 then index else st.wordStart;
      Scan(st.result, st.currentWord + [Props(text, typed, index)], wordStart)
  }

  /** The scan after the first `n` characters. */
  function ScanUpTo(text: string, typed: string, isNodeComplete: bool, n: nat): Scan
    requires n <= |text|
    decreases n
  {
    if n == 0 then Scan([], [], 0)
    else ScanStep(ScanUpTo(text, typed, isNodeComplete, n - 1), text, typed, isNodeComplete, n - 1)
  }

  /** The canvas's `words`: the scan, then the last word if one is being gathered. */
  function Words(text: string, typed: string, isNodeComplete: bool): seq<Piece> {
    var st := ScanUpTo(text, typed, isNodeComplete, |text|);
    if |st.currentWord| > 0 then
      var caretInWord := !isNodeComplete && |typed| >= st.wordStart;
      st.result + [GatheredWord(st.currentWord, st.wordStart, typed, caretInWord)]
    else st.result
  }

  /** The pieces for the store's current passage. */
  function SessionWords(s: TypingStore.Session): seq<Piece> {
    Words(s.currentNode.text, s.typedText, TypingStore.IsNodeComplete(s))
  }

  /** A word is a non-empty run of non-separators; a separator piece holds a separator. */
  predicate WellSplit(p: Piece) {
    match p
    case WordPiece(chars, _, _) => |chars| > 0 && forall j :: 0 <= j < |chars| ==> !IsSeparator(chars[j].ch)
    case SeparatorPiece(ch, _, _, _) => IsSeparator(ch)
  }

  predicate AllWellSplit(ps: seq<Piece>) {
    forall k :: 0 <= k < |ps| ==> WellSplit(ps[k])
  }

  predicate NoSeparators(chars: seq<CharProps>) {
    forall j :: 0 <= j < |chars| ==> !IsSeparator(chars[j].ch)
  }

  lemma AllWellSplitSnoc(ps: seq<Piece>, p: Piece)
    requires AllWellSplit(ps) && WellSplit(p)
    ensures AllWellSplit(ps + [p])
  {
    assert forall k :: 0 <= k < |ps| ==> (ps + [p])[k] == ps[k];
  }

  lemma FlushSplits(st: Scan, typed: string, isNodeComplete: bool, index: nat)
    requires AllWellSplit(st.result) && NoSeparators(st.currentWord)
    ensures AllWellSplit(FlushWord(st, typed, isNodeComplete, index))
  {
    if |st.currentWord| > 0 {
      var caretInWord := !isNodeComplete && |typed| >= st.wordStart && |typed| < index;
      AllWellSplitSnoc(st.result, GatheredWord(st.currentWord, st.wordStart, typed, caretInWord));
    }
  }

  lemma {:induction false} ScanSplits(text: string, typed: string, isNodeComplete: bool, n: nat)
    requires n <= |text|
    ensures var st := ScanUpTo(text, typed, isNodeComplete, n);
      AllWellSplit(st.result) && NoSeparators(st.currentWord)
    decreases n
  {
    if n > 0 {
      ScanSplits(text, typed, isNodeComplete, n - 1);
      var st := ScanUpTo(text, typed, isNodeComplete, n - 1);
      if IsSeparator(text[n - 1]) {
        FlushSplits(st, typed, isNodeComplete, n - 1);
        var sep := SeparatorPiece(text[n - 1], CharAt(typed, n - 1), n - 1, !isNodeComplete && |typed| == n - 1);
        AllWellSplitSnoc(FlushWord(st, typed, isNodeComplete, n - 1), sep);
      } else {
        var w := st.currentWord + [Props(text, typed, n - 1)];
        assert forall j :: 0 <= j < |st.currentWord| ==> w[j] == st.currentWord[j];
        assert NoSeparators(w);
      }
    }
  }

  /** The passage is cut only at spaces and newlines, and every piece is well formed. */
  lemma WordsSplitOnSeparators(text: string, typed: string, isNodeComplete: bool)
    ensures AllWellSplit(Words(text, typed, isNodeComplete))
  {
    ScanSplits(text, typed, isNodeComplete, |text|);
    var st := ScanUpTo(text, typed, isNodeComplete, |text|);
    if |st.currentWord| > 0 {
      var caretInWord := !isNodeComplete && |typed| >= st.wordStart;
      AllWellSplitSnoc(st.result, GatheredWord(st.currentWord, st.wordStart, typed, caretInWord));
    }
  }

  // ---------------------------------------------------------------------------------------
  // Rendering pieces to glyphs

  function LetterOf(p: CharProps): Glyph {
    Letter(p.index, p.ch, MarkOf(p.ch, p.typedChar))
  }

  function CaretIf(b: bool): seq<Glyph> {
    if b then [Caret] else []
  }

  /** The first `k` characters of a word, each preceded by the caret when it sits there. */
  function RenderWordUpTo(chars: seq<CharProps>, k: nat, showCaret: bool, caretPosition: Option<int>): seq<Glyph>
    requires k <= |chars|
    decreases k
  {
    if k == 0 then []
    else
      RenderWordUpTo(chars, k - 1, showCaret, caretPosition) +
      CaretIf(showCaret && caretPosition == Some(k - 1)) + [LetterOf(chars[k - 1])]
  }

  function RenderPiece(p: Piece): seq<Glyph> {
    match p
    case WordPiece(chars, showCaret, caretPosition) =>
      RenderWordUpTo(chars, |chars|, showCaret, caretPosition) +
      CaretIf(showCaret && caretPosition == Some(|chars|))
    case SeparatorPiece(ch, typedChar, index, showCaret) =>
      CaretIf(showCaret) + [Letter(index, ch, MarkOf(ch, typedChar))]
  }

  function Render(ps: seq<Piece>): seq<Glyph>
    decreases |ps|
  {
    if |ps| == 0 then [] else Render(ps[..|ps| - 1]) + RenderPiece(ps[|ps| - 1])
  }

  lemma RenderSnoc(ps: seq<Piece>, p: Piece)
    ensures Render(ps + [p]) == Render(ps) + RenderPiece(p)
  {
    assert (ps + [p])[..|ps|] == ps;
  }

  // ---------------------------------------------------------------------------------------
  // The reference rendering: index by index, a caret before the typing position

  function RefAt(text: string, typed: string, isNodeComplete: bool, i: nat): seq<Glyph>
    requires i < |text|
  {
    CaretIf(!isNodeComplete && |typed| == i) + [Letter(i, text[i], Classify(text[i], typed, i))]
  }

  function RefRange(text: string, typed: string, isNodeComplete: bool, lo: nat, hi: nat): seq<Glyph>
    requires lo <= hi <= |text|
    decreases hi - lo
  {
    if hi == lo then []
    else RefRange(text, typed, isNodeComplete, lo, hi - 1) + RefAt(text, typed, isNodeComplete, hi - 1)
  }

  lemma AppendAssoc<T>(a: seq<T>, b: seq<T>, c: seq<T>)
    ensures a + b + c == a + (b + c)
  {
  }

  lemma {:induction false} RefRangeAppend(text: string, typed: string, isNodeComplete: bool, a: nat, b: nat, c: nat)
    requires a <= b <= c <= |text|
    ensures RefRange(text, typed, isNodeComplete, a, b) + RefRange(text, typed, isNodeComplete, b, c) ==
            RefRange(text, typed, isNodeComplete, a, c)
    decreases c - b
  {
    if c == b {
      assert RefRange(text, typed, isNodeComplete, a, b) + [] == RefRange(text, typed, isNodeComplete, a, b);
    } else {
      RefRangeAppend(text, typed, isNodeComplete, a, b, c - 1);
      AppendAssoc(RefRange(text, typed, isNodeComplete, a, b), RefRange(text, typed, isNodeComplete, b, c - 1),
                  RefAt(text, typed, isNodeComplete, c - 1));
    }
  }

  /** The characters of a word gathered from `wordStart` on. */
  predicate GatheredFrom(chars: seq<CharProps>, text: string, typed: string, wordStart: nat) {
    wordStart + |chars| <= |text| &&
    forall j :: 0 <= j < |chars| ==> chars[j] == Props(text, typed, wordStart + j)
  }

  /** The caret fields of a word that holds the caret exactly when the typing position lies
      within it. */
  predicate CaretWithin(chars: seq<CharProps>, typed: string, isNodeComplete: bool, wordStart: nat,
                        showCaret: bool, caretPosition: Option<int>) {
    (showCaret <==> !isNodeComplete && wordStart <= |typed| < wordStart + |chars|) &&
    (showCaret ==> caretPosition == Some(|typed| - wordStart))
  }

  lemma {:induction false} RenderWordIsRef(chars: seq<CharProps>, text: string, typed: string, isNodeComplete: bool,
                                           wordStart: nat, showCaret: bool, caretPosition: Option<int>, k: nat)
    requires GatheredFrom(chars, text, typed, wordStart) && k <= |chars|
    requires CaretWithin(chars, typed, isNodeComplete, wordStart, showCaret, caretPosition)
    ensures RenderWordUpTo(chars, k, showCaret, caretPosition) ==
            RefRange(text, typed, isNodeComplete, wordStart, wordStart + k)
    decreases k
  {
    if k > 0 {
      RenderWordIsRef(chars, text, typed, isNodeComplete, wordStart, showCaret, caretPosition, k - 1);
      assert chars[k - 1] == Props(text, typed, wordStart + (k - 1));
      assert (showCaret && caretPosition == Some(k - 1)) <==> (!isNodeComplete && |typed| == wordStart + (k - 1));
    }
  }

  lemma WordPieceIsRef(chars: seq<CharProps>, text: string, typed: string, isNodeComplete: bool,
                       wordStart: nat, showCaret: bool, caretPosition: Option<int>)
    requires GatheredFrom(chars, text, typed, wordStart)
    requires CaretWithin(chars, typed, isNodeComplete, wordStart, showCaret, caretPosition)
    ensures RenderPiece(WordPiece(chars, showCaret, caretPosition)) ==
            RefRange(text, typed, isNodeComplete, wordStart, wordStart + |chars|)
  {
    RenderWordIsRef(chars, text, typed, isNodeComplete, wordStart, showCaret, caretPosition, |chars|);
    assert !(showCaret && caretPosition == Some(|chars|));
    assert CaretIf(false) == [];
  }

  /** What holds of the scan after `n` characters. */
  predicate ScanInvariant(st: Scan, text: string, typed: string, isNodeComplete: bool, n: nat)
    requires n <= |text|
  {
    0 <= st.wordStart && st.wordStart + |st.currentWord| == n &&
    GatheredFrom(st.currentWord, text, typed, st.wordStart) &&
    Render(st.result) == RefRange(text, typed, isNodeComplete, 0, st.wordStart)
  }

  /** Appending a gathered word whose caret fields follow the typing position extends the
      rendering from the word's start to its end. */
  lemma CloseWordIsRef(result: seq<Piece>, chars: seq<CharProps>, text: string, typed: string, isNodeComplete: bool,
                       wordStart: nat, showCaret: bool, caretPosition: Option<int>)
    requires GatheredFrom(chars, text, typed, wordStart)
    requires CaretWithin(chars, typed, isNodeComplete, wordStart, showCaret, caretPosition)
    requires Render(result) == RefRange(text, typed, isNodeComplete, 0, wordStart)
    ensures Render(result + [WordPiece(chars, showCaret, caretPosition)]) ==
            RefRange(text, typed, isNodeComplete, 0, wordStart + |chars|)
  {
    var w := WordPiece(chars, showCaret, caretPosition);
    var front := RefRange(text, typed, isNodeComplete, 0, wordStart);
    var back := RefRange(text, typed, isNodeComplete, wordStart, wordStart + |chars|);
    RenderSnoc(result, w);
    WordPieceIsRef(chars, text, typed, isNodeComplete, wordStart, showCaret, caretPosition);
    RefRangeAppend(text, typed, isNodeComplete, 0, wordStart, wordStart + |chars|);
    Chain(Render(result + [w]), Render(result), RenderPiece(w), front, back,
          RefRange(text, typed, isNodeComplete, 0, wordStart + |chars|));
  }

  /** Rewriting both halves of a concatenation. */
  lemma Chain(x: seq<Glyph>, a: seq<Glyph>, b: seq<Glyph>, a': seq<Glyph>, b': seq<Glyph>, y: seq<Glyph>)
    requires x == a + b && a == a' && b == b' && a' + b' == y
    ensures x == y
  {
  }

  /** Closing off the gathered word before a separator renders the passage up to it. */
  lemma FlushIsRef(st: Scan, text: string, typed: string, isNodeComplete: bool, n: nat)
    requires n < |text| && ScanInvariant(st, text, typed, isNodeComplete, n)
    ensures Render(FlushWord(st, typed, isNodeComplete, n)) == RefRange(text, typed, isNodeComplete, 0, n)
  {
    if |st.currentWord| > 0 {
      var caretInWord := !isNodeComplete && |typed| >= st.wordStart && |typed| < n;
      FlushGatheredIsRef(st.result, st.currentWord, text, typed, isNodeComplete, st.wordStart, n, caretInWord);
    }
  }

  lemma FlushGatheredIsRef(result: seq<Piece>, chars: seq<CharProps>, text: string, typed: string,
                           isNodeComplete: bool, wordStart: nat, n: nat, caretInWord: bool)
    requires wordStart + |chars| == n && GatheredFrom(chars, text, typed, wordStart)
    requires Render(result) == RefRange(text, typed, isNodeComplete, 0, wordStart)
    requires caretInWord == (!isNodeComplete && |typed| >= wordStart && |typed| < n)
    ensures Render(result + [GatheredWord(chars, wordStart, typed, caretInWord)]) ==
            RefRange(text, typed, isNodeComplete, 0, n)
  {
    var position := if caretInWord then Some(|typed| - wordStart) else None;
    assert CaretWithin(chars, typed, isNodeComplete, wordStart, caretInWord, position);
    CloseWordIsRef(result, chars, text, typed, isNodeComplete, wordStart, caretInWord, position);
  }

  lemma SeparatorStepIsRef(st: Scan, text: string, typed: string, isNodeComplete: bool, n: nat)
    requires n < |text| && ScanInvariant(st, text, typed, isNodeComplete, n) && IsSeparator(text[n])
    ensures ScanInvariant(ScanStep(st, text, typed, isNodeComplete, n), text, typed, isNodeComplete, n + 1)
  {
    var result := FlushWord(st, typed, isNodeComplete, n);
    FlushIsRef(st, text, typed, isNodeComplete, n);
    var sep := SeparatorPiece(text[n], CharAt(typed, n), n, !isNodeComplete && |typed| == n);
    AppendSeparatorIsRef(result, text, typed, isNodeComplete, n);
    var next := ScanStep(st, text, typed, isNodeComplete, n);
    assert next == Scan(result + [sep], [], n + 1);
    assert GatheredFrom(next.currentWord, text, typed, next.wordStart);
  }

  /** A separator piece renders as the reference at its own index. */
  lemma AppendSeparatorIsRef(result: seq<Piece>, text: string, typed: string, isNodeComplete: bool, n: nat)
    requires n < |text| && Render(result) == RefRange(text, typed, isNodeComplete, 0, n)
    ensures Render(result + [SeparatorPiece(text[n], CharAt(typed, n), n, !isNodeComplete && |typed| == n)]) ==
            RefRange(text, typed, isNodeComplete, 0, n + 1)
  {
    var sep := SeparatorPiece(text[n], CharAt(typed, n), n, !isNodeComplete && |typed| == n);
    RenderSnoc(result, sep);
    assert RenderPiece(sep) == RefAt(text, typed, isNodeComplete, n);
  }

  lemma LetterStepIsRef(st: Scan, text: string, typed: string, isNodeComplete: bool, n: nat)
    requires n < |text| && ScanInvariant(st, text, typed, isNodeComplete, n) && !IsSeparator(text[n])
    ensures ScanInvariant(ScanStep(st, text, typed, isNodeComplete, n), text, typed, isNodeComplete, n + 1)
  {
    var next := ScanStep(st, text, typed, isNodeComplete, n);
    assert next.currentWord == st.currentWord + [Props(text, typed, n)];
    assert next.wordStart == st.wordStart;
  }

  lemma {:induction false} ScanKeepsInvariant(text: string, typed: string, isNodeComplete: bool, n: nat)
    requires n <= |text|
    ensures ScanInvariant(ScanUpTo(text, typed, isNodeComplete, n), text, typed, isNodeComplete, n)
    decreases n
  {
    if n > 0 {
      ScanKeepsInvariant(text, typed, isNodeComplete, n - 1);
      var st := ScanUpTo(text, typed, isNodeComplete, n - 1);
      assert ScanUpTo(text, typed, isNodeComplete, n) == ScanStep(st, text, typed, isNodeComplete, n - 1);
      if IsSeparator(text[n - 1]) {
        SeparatorStepIsRef(st, text, typed, isNodeComplete, n - 1);
      } else {
        LetterStepIsRef(st, text, typed, isNodeComplete, n - 1);
      }
    }
  }

  /** The pieces render the passage index by index, with the caret before the typing
      position, whenever the completion flag is the one the canvas computes or any flag
      that is only false while the passage is unfinished. */
  lemma {:induction false} WordsRenderAsReference(text: string, typed: string, isNodeComplete: bool)
    requires !isNodeComplete ==> |typed| < |text|
    ensures Render(Words(text, typed, isNodeComplete)) == RefRange(text, typed, isNodeComplete, 0, |text|)
  {
    ScanKeepsInvariant(text, typed, isNodeComplete, |text|);
    var st := ScanUpTo(text, typed, isNodeComplete, |text|);
    if |st.currentWord| > 0 {
      var caretInWord := !isNodeComplete && |typed| >= st.wordStart;
      FlushGatheredIsRef(st.result, st.currentWord, text, typed, isNodeComplete, st.wordStart, |text|, caretInWord);
    }
  }

  /** The reference rendering is the older canvas's spliced list. */
  lemma {:induction false} RefRangeIsSpliced(text: string, typed: string, isNodeComplete: bool, n: nat)
    requires n <= |text|
    ensures var letters := LegacyCanvas.Letters(text, typed);
      RefRange(text, typed, isNodeComplete, 0, n) ==
        if !isNodeComplete && |typed| < n then letters[..|typed|] + [Caret] + letters[|typed|..n]
        else letters[..n]
    decreases n
  {
    var letters := LegacyCanvas.Letters(text, typed);
    if n > 0 {
      RefRangeIsSpliced(text, typed, isNodeComplete, n - 1);
      assert letters[..n] == letters[..n - 1] + [letters[n - 1]];
      if !isNodeComplete && |typed| < n - 1 {
        assert letters[|typed|..n] == letters[|typed|..n - 1] + [letters[n - 1]];
      }
    }
  }

  /** The store-driven canvas draws exactly what the older canvas draws. */
  lemma WordsMatchLegacyCanvas(text: string, typed: string, isNodeComplete: bool)
    requires !isNodeComplete ==> |typed| < |text|
    ensures Render(Words(text, typed, isNodeComplete)) == LegacyCanvas.Characters(text, typed, isNodeComplete)
  {
    WordsRenderAsReference(text, typed, isNodeComplete);
    RefRangeIsSpliced(text, typed, isNodeComplete, |text|);
    var letters := LegacyCanvas.Letters(text, typed);
    assert letters[..|text|] == letters;
  }

  /** For the store's passage: while it is unfinished there is exactly one caret, right
      before the next character to type; once finished there is none; and every index of
      the passage is drawn once, in order, with its mark. */
  lemma SessionCaret(s: TypingStore.Session)
    ensures var gs := Render(SessionWords(s));
      CaretCount(gs) == (if TypingStore.IsNodeComplete(s) then 0 else 1) &&
      (!TypingStore.IsNodeComplete(s) ==> |s.typedText| < |gs| && gs[|s.typedText|] == Caret) &&
      LettersOnly(gs) == LegacyCanvas.Letters(s.currentNode.text, s.typedText)
  {
    WordsMatchLegacyCanvas(s.currentNode.text, s.typedText, TypingStore.IsNodeComplete(s));
  }
}
