/** The three-way character feedback shared by both canvases and the single-text app: a
    character is pending until typed, then correct or incorrect; and the choice list's
    buffer colouring built on the same classification. */
module Feedback {
  import opened Wrappers

  /** Pending shows gray, Correct white, Incorrect red. */
  datatype Mark = Pending | Correct | Incorrect

  /** What the canvas draws: a caret, or one character of the passage at its index. */
  datatype Glyph = Caret | Letter(index: nat, ch: char, mark: Mark)

  /** `s[i]` in JavaScript: undefined past the end. */
  function CharAt(s: string, i: nat): (r: Option<char>)
    ensures r.None? <==> i >= |s|
    ensures r.Some? ==> r.value == s[i]
  {
    if i < |s| then Some(s[i]) else None
  }

  /** `typedChar == null ? pending : typedChar === expected ? correct : incorrect`. */
  function MarkOf(expected: char, typedChar: Option<char>): Mark {
    match typedChar
    case None => Pending
    case Some(t) => if t == expected then Correct else Incorrect
  }

  /** The feedback for the character `expected` at `index`, given what has been typed. */
  function Classify(expected: char, typed: string, index: nat): (m: Mark)
    ensures m == Pending <==> index >= |typed|
    ensures m == Correct <==> index < |typed| && typed[index] == expected
    ensures m == Incorrect <==> index < |typed| && typed[index] != expected
  {
    MarkOf(expected, CharAt(typed, index))
  }

  /** One mark per character of `text`. */
  function Marks(text: string, typed: string): (ms: seq<Mark>)
    ensures |ms| == |text|
    ensures forall i :: 0 <= i < |text| ==> ms[i] == Classify(text[i], typed, i)
  {
    seq(|text|, i requires 0 <= i < |text| => Classify(text[i], typed, i))
  }

  predicate NoIncorrect(ms: seq<Mark>) {
    forall i :: 0 <= i < |ms| ==> ms[i] != Incorrect
  }

  predicate AllCorrect(ms: seq<Mark>) {
    forall i :: 0 <= i < |ms| ==> ms[i] == Correct
  }

  /** No red character means that what was typed agrees with the text as far as both go. */
  lemma NoIncorrectIffAgree(text: string, typed: string)
    ensures NoIncorrect(Marks(text, typed)) <==>
      forall i :: 0 <= i < |text| && i < |typed| ==> typed[i] == text[i]
  {
    var ms := Marks(text, typed);
    if NoIncorrect(ms) {
      forall i | 0 <= i < |text| && i < |typed| ensures typed[i] == text[i] {
        assert ms[i] != Incorrect;
      }
    }
  }

  /** A string no longer than a text is a prefix of it iff it leaves no red character. */
  lemma PrefixIffNoIncorrect(text: string, typed: string)
    requires |typed| <= |text|
    ensures typed <= text <==> NoIncorrect(Marks(text, typed))
  {
    NoIncorrectIffAgree(text, typed);
    if NoIncorrect(Marks(text, typed)) {
      assert typed == text[..|typed|];
    }
  }

  /** Every character white iff the typed string starts with the whole text. */
  lemma AllCorrectIffTypedPrefix(text: string, typed: string)
    ensures AllCorrect(Marks(text, typed)) <==> |text| <= |typed| && text == typed[..|text|]
  {
    var ms := Marks(text, typed);
    if AllCorrect(ms) {
      forall i | 0 <= i < |text| ensures i < |typed| && text[i] == typed[i] {
        assert ms[i] == Correct;
      }
      if |text| > 0 {
        assert ms[|text| - 1] == Correct;
      }
    }
  }

  /** An entry of the choice list: a successor's preview, or the freestyle entry. */
  datatype Choice = Choice(id: string, preview: string)

  /** `choices.some(c => c.preview.startsWith(buffer) && buffer.length > 0)`. */
  function HasMatch(choices: seq<Choice>, buffer: string): (r: bool)
    ensures r <==> |buffer| > 0 && exists i :: 0 <= i < |choices| && buffer <= choices[i].preview
  {
    if |choices| == 0 then false
    else if buffer <= choices[0].preview && |buffer| > 0 then true
    else
      var r := HasMatch(choices[1..], buffer);
      assert forall i :: 1 <= i < |choices| ==> choices[i] == choices[1..][i - 1];
      r
  }

  /** The buffer's colour: gray while empty, white while it starts some preview, red
      otherwise. */
  function BufferMark(choices: seq<Choice>, buffer: string): (m: Mark)
    ensures m == Pending <==> buffer == ""
    ensures m == Correct <==> HasMatch(choices, buffer)
  {
    if |buffer| == 0 then Pending else if HasMatch(choices, buffer) then Correct else Incorrect
  }

  /** The colours of one preview's characters: gray past the buffer, white where the buffer
      agrees, red where it does not. */
  function PreviewMarks(choice: Choice, buffer: string): (ms: seq<Mark>)
    ensures |ms| == |choice.preview|
    ensures forall i :: 0 <= i < |ms| ==>
      (ms[i] == Pending <==> i >= |buffer|) &&
      (ms[i] == Correct <==> i < |buffer| && buffer[i] == choice.preview[i])
  {
    Marks(choice.preview, buffer)
  }

  /** The preview is at least as long as the buffer and shows no red character. */
  predicate CleanPreview(choice: Choice, buffer: string) {
    |buffer| <= |choice.preview| && NoIncorrect(PreviewMarks(choice, buffer))
  }

  /** The buffer is shown white exactly when it is non-empty and some preview, at least as
      long as it, has no red character. */
  lemma WhiteBufferIffCleanPreview(choices: seq<Choice>, buffer: string)
    ensures BufferMark(choices, buffer) == Correct <==>
      buffer != "" && exists i :: 0 <= i < |choices| && CleanPreview(choices[i], buffer)
  {
    if BufferMark(choices, buffer) == Correct {
      var i :| 0 <= i < |choices| && buffer <= choices[i].preview;
      PrefixIffNoIncorrect(choices[i].preview, buffer);
      assert CleanPreview(choices[i], buffer);
    }
    if buffer != "" && exists i :: 0 <= i < |choices| && CleanPreview(choices[i], buffer) {
      var i :| 0 <= i < |choices| && CleanPreview(choices[i], buffer);
      PrefixIffNoIncorrect(choices[i].preview, buffer);
    }
  }

  // ---------------------------------------------------------------------------------------
  // Carets and letters in a rendered list

  function CaretCount(gs: seq<Glyph>): nat {
    if |gs| == 0 then 0 else (if gs[0].Caret? then 1 else 0) + CaretCount(gs[1..])
  }

  /** The list with its carets removed. */
  function LettersOnly(gs: seq<Glyph>): seq<Glyph> {
    if |gs| == 0 then [] else (if gs[0].Caret? then [] else [gs[0]]) + LettersOnly(gs[1..])
  }

  lemma {:induction false} CaretCountAppend(a: seq<Glyph>, b: seq<Glyph>)
    ensures CaretCount(a + b) == CaretCount(a) + CaretCount(b)
    decreases |a|
  {
    if |a| > 0 {
      assert (a + b)[0] == a[0];
      assert (a + b)[1..] == a[1..] + b;
      CaretCountAppend(a[1..], b);
    } else {
      assert a + b == b;
    }
  }

  lemma {:induction false} LettersOnlyAppend(a: seq<Glyph>, b: seq<Glyph>)
    ensures LettersOnly(a + b) == LettersOnly(a) + LettersOnly(b)
    decreases |a|
  {
    if |a| > 0 {
      assert (a + b)[0] == a[0];
      assert (a + b)[1..] == a[1..] + b;
      LettersOnlyAppend(a[1..], b);
    } else {
      assert a + b == b;
    }
  }

  lemma {:induction false} NoCaretsAmongLetters(gs: seq<Glyph>)
    requires forall i :: 0 <= i < |gs| ==> gs[i].Letter?
    ensures CaretCount(gs) == 0 && LettersOnly(gs) == gs
    decreases |gs|
  {
    if |gs| > 0 {
      NoCaretsAmongLetters(gs[1..]);
      assert [gs[0]] + gs[1..] == gs;
    }
  }

  lemma LoneCaret()
    ensures CaretCount([Caret]) == 1 && LettersOnly([Caret]) == []
  {
    assert [Caret][1..] == [];
  }

  /** One caret between two runs of letters. */
  lemma CaretBetweenLetters(a: seq<Glyph>, b: seq<Glyph>)
    requires forall i :: 0 <= i < |a| ==> a[i].Letter?
    requires forall i :: 0 <= i < |b| ==> b[i].Letter?
    ensures CaretCount(a + [Caret] + b) == 1
    ensures LettersOnly(a + [Caret] + b) == a + b
  {
    NoCaretsAmongLetters(a);
    NoCaretsAmongLetters(b);
    LoneCaret();
    CaretCountAppend(a + [Caret], b);
    CaretCountAppend(a, [Caret]);
    LettersOnlyAppend(a, [Caret]);
    var front := LettersOnly(a + [Caret]);
    assert front == a + [];
    assert a + [] == a;
    LettersOnlyAppend(a + [Caret], b);
  }
}
