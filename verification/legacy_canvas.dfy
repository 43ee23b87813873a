/** The older canvas: one glyph per character of the passage, with a caret spliced in at
    the typing position while the passage is unfinished, and the choice panel's gating. */
module LegacyCanvas {
  import opened Feedback

  /** One coloured letter per character of the passage, in order. */
  function Letters(text: string, typed: string): (r: seq<Glyph>)
    ensures |r| == |text|
    ensures forall i :: 0 <= i < |text| ==> r[i] == Letter(i, text[i], Classify(text[i], typed, i))
  {
    seq(|text|, i requires 0 <= i < |text| => Letter(i, text[i], Classify(text[i], typed, i)))
  }

  /** `list.splice(at, 0, caret)`; a start past the end inserts at the end. */
  function InsertCaret(list: seq<Glyph>, at: nat): (r: seq<Glyph>)
    ensures |r| == |list| + 1
    ensures at <= |list| ==> r[at] == Caret && r[..at] == list[..at] && r[at + 1..] == list[at..]
    ensures at > |list| ==> r[|list|] == Caret && r[..|list|] == list
  {
    if at <= |list| then list[..at] + [Caret] + list[at..] else list + [Caret]
  }

  /** Splicing the caret into a list of letters adds exactly one caret and keeps the letters
      as they were. */
  lemma InsertCaretIntoLetters(list: seq<Glyph>, at: nat)
    requires forall i :: 0 <= i < |list| ==> list[i].Letter?
    ensures CaretCount(InsertCaret(list, at)) == 1
    ensures LettersOnly(InsertCaret(list, at)) == list
  {
    if at <= |list| {
      CaretBetweenLetters(list[..at], list[at..]);
      assert list[..at] + list[at..] == list;
    } else {
      CaretBetweenLetters(list, []);
      assert list + [Caret] + [] == list + [Caret];
    }
  }

  /** The rendered passage. */
  function Characters(text: string, typed: string, isNodeComplete: bool): (r: seq<Glyph>)
    ensures |r| == if isNodeComplete then |text| else |text| + 1
    ensures CaretCount(r) == if isNodeComplete then 0 else 1
    // removing the caret leaves every index of the passage once, in order, with its mark
    ensures LettersOnly(r) == Letters(text, typed)
    ensures !isNodeComplete && |typed| <= |text| ==> r[|typed|] == Caret
  {
    var list := Letters(text, typed);
    if isNodeComplete then
      NoCaretsAmongLetters(list);
      list
    else
      InsertCaretIntoLetters(list, |typed|);
      InsertCaret(list, |typed|)
  }

  /** `choices.length > 0 && (isNodeComplete || choiceBuffer.length > 0)`. */
  predicate ShowChoices(choices: seq<Choice>, isNodeComplete: bool, buffer: string)
    ensures !isNodeComplete && buffer == "" ==> !ShowChoices(choices, isNodeComplete, buffer)
  {
    |choices| > 0 && (isNodeComplete || |buffer| > 0)
  }

  /** There is always somewhere to look: an unfinished passage carries the caret, and a
      finished one with anything to choose shows the panel. */
  lemma ShowChoicesOrCaret(text: string, typed: string, choices: seq<Choice>, isNodeComplete: bool, buffer: string)
    requires |choices| > 0
    ensures CaretCount(Characters(text, typed, isNodeComplete)) == 1 || ShowChoices(choices, isNodeComplete, buffer)
    ensures isNodeComplete ==> ShowChoices(choices, isNodeComplete, buffer)
  {
  }
}
