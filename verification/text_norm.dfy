/**
 * Whitespace normalisation of prompt and custom text, and the line-width
 * constants shared by the toolbar and the canvas (src/utils/typing.ts).
 *
 * `normalizePrompt` is three string rewrites in a row:
 *   1. every maximal run of `\s` characters becomes one `' '`;
 *   2. every U+00A0 becomes `' '`;
 *   3. leading and trailing `\s` characters are removed (`trim`).
 * The module also gives an independent reference definition, "the words of
 * the input joined by single spaces", and proves that the two agree.
 */
module TextNorm {

  const LineLimitMin: int := 24
  const LineLimitMax: int := 80
  const LineLimitStep: int := 4

  const Nbsp: char := '\U{00A0}'

  /** The characters matched by the `\s` class of a JavaScript regular expression,
      which is also the set `String.prototype.trim` removes. */
  predicate IsSpace(c: char) {
    || c == '\t' || c == '\n' || c == '\U{000B}' || c == '\U{000C}' || c == '\r'
    || c == ' ' || c == Nbsp || c == '\U{1680}'
    || ('\U{2000}' <= c <= '\U{200A}')
    || c == '\U{2028}' || c == '\U{2029}' || c == '\U{202F}' || c == '\U{205F}'
    || c == '\U{3000}' || c == '\U{FEFF}'
  }

  /** `String.prototype.length`: the number of UTF-16 code units, so a character outside the
      Basic Multilingual Plane counts twice. */
  function Utf16Length(s: string): (n: nat)
    ensures n >= |s|
    ensures n == |s| <==> forall i :: 0 <= i < |s| ==> s[i] <= '\U{FFFF}'
  {
    if |s| == 0 then 0
    else (if s[0] <= '\U{FFFF}' then 1 else 2) + Utf16Length(s[1..])
  }

  predicate AllSpace(s: string) {
    forall i :: 0 <= i < |s| ==> IsSpace(s[i])
  }

  /** A word: a non-empty run of non-whitespace characters. */
  predicate IsWord(w: string) {
    |w| > 0 && forall i :: 0 <= i < |w| ==> !IsSpace(w[i])
  }

  predicate AllWords(ws: seq<string>) {
    forall k :: 0 <= k < |ws| ==> IsWord(ws[k])
  }

  /** The shape every normalised string has: no whitespace at either end, no
      whitespace other than `' '`, and no two spaces in a row. */
  predicate IsCanonical(s: string) {
    && (|s| > 0 ==> !IsSpace(s[0]) && !IsSpace(s[|s| - 1]))
    && (forall i :: 0 <= i < |s| && IsSpace(s[i]) ==> s[i] == ' ')
    && (forall i :: 0 <= i < |s| - 1 ==> !DoubleSpaceAt(s, i))
  }

  predicate DoubleSpaceAt(s: string, i: nat)
    requires i < |s| - 1
  {
    s[i] == ' ' && s[i + 1] == ' '
  }

  /** Length of the leading whitespace run of `s`. */
  function SpaceLen(s: string): (n: nat)
    ensures n <= |s|
    ensures forall i :: 0 <= i < n ==> IsSpace(s[i])
    ensures n == |s| || !IsSpace(s[n])
  {
    if |s| == 0 || !IsSpace(s[0]) then 0 else 1 + SpaceLen(s[1..])
  }

  /** Length of the leading non-whitespace run of `s`. */
  function WordLen(s: string): (n: nat)
    ensures n <= |s|
    ensures forall i :: 0 <= i < n ==> !IsSpace(s[i])
    ensures n == |s| || IsSpace(s[n])
  {
    if |s| == 0 || IsSpace(s[0]) then 0 else 1 + WordLen(s[1..])
  }

  /** Step 1: `replace(/\s+/g, ' ')`. Text between matches is copied unchanged. */
  function CollapseRuns(s: string): (r: string)
    ensures |r| <= |s|
    ensures forall i :: 0 <= i < |r| && IsSpace(r[i]) ==> r[i] == ' '
    decreases |s|
  {
    if |s| == 0 then ""
    else if IsSpace(s[0]) then " " + CollapseRuns(s[SpaceLen(s)..])
    else
      var n := WordLen(s);
      s[..n] + CollapseRuns(s[n..])
  }

  /** Step 2: `replace(/ /g, ' ')`. */
  function ReplaceNbsp(s: string): (r: string)
    ensures |r| == |s|
    ensures forall i :: 0 <= i < |s| ==> r[i] == (if s[i] == Nbsp then ' ' else s[i])
  {
    seq(|s|, i requires 0 <= i < |s| => if s[i] == Nbsp then ' ' else s[i])
  }

  /** `trimStart`: drops the leading whitespace run. */
  function TrimStart(s: string): (r: string)
    ensures r == s[SpaceLen(s)..]
  {
    s[SpaceLen(s)..]
  }

  /** `trimEnd`: drops the trailing whitespace run. */
  function TrimEnd(s: string): (r: string)
    ensures r <= s
    ensures |r| == 0 || !IsSpace(r[|r| - 1])
    ensures AllSpace(s[|r|..])
  {
    if |s| > 0 && IsSpace(s[|s| - 1]) then
      var r := TrimEnd(s[..|s| - 1]);
      assert s[..|s| - 1][..|r|] == s[..|r|];
      assert forall i :: |r| <= i < |s| - 1 ==> s[..|s| - 1][i] == s[i];
      r
    else s
  }

  /** `String.prototype.trim`. */
  function Trim(s: string): string {
    TrimEnd(TrimStart(s))
  }

  /** `normalizePrompt` as written: the three rewrites in source order. */
  function NormalizePrompt(s: string): (r: string)
    ensures |r| <= |s|
    ensures |r| > 0 ==> !IsSpace(r[0]) && !IsSpace(r[|r| - 1])
  {
    Trim(ReplaceNbsp(CollapseRuns(s)))
  }

  // ---------------------------------------------------------------------------
  // Reference definition: the words of a string, joined by single spaces.

  /** The maximal non-whitespace runs of `s`, in order. */
  function Words(s: string): (ws: seq<string>)
    ensures AllWords(ws)
    decreases |s|
  {
    var t := s[SpaceLen(s)..];
    if |t| == 0 then []
    else
      var n := WordLen(t);
      [t[..n]] + Words(t[n..])
  }

  function Join(ws: seq<string>): string {
    if |ws| == 0 then ""
    else if |ws| == 1 then ws[0]
    else ws[0] + " " + Join(ws[1..])
  }

  /** The non-whitespace characters of `s`, in order. */
  function NonSpace(s: string): string {
    if |s| == 0 then ""
    else if IsSpace(s[0]) then NonSpace(s[1..])
    else [s[0]] + NonSpace(s[1..])
  }

  function Concat(ws: seq<string>): string {
    if |ws| == 0 then "" else ws[0] + Concat(ws[1..])
  }

  // ---------------------------------------------------------------------------
  // Lemmas about the scanning helpers.

  lemma WordsEmptyIffAllSpace(s: string)
    ensures Words(s) == [] <==> AllSpace(s)
  {
    var k := SpaceLen(s);
    assert k < |s| ==> !IsSpace(s[k]);
  }

  /** Leading whitespace does not change the words. */
  lemma WordsSkipSpaces(s: string)
    ensures Words(s[SpaceLen(s)..]) == Words(s)
  {
    var t := s[SpaceLen(s)..];
    assert |t| > 0 ==> !IsSpace(t[0]);
    assert SpaceLen(t) == 0;
    assert t[0..] == t;
  }

  /** The index of the first non-whitespace character of `p + j` when `p` is all whitespace. */
  lemma SpaceLenAfterSpaces(p: string, j: string)
    requires AllSpace(p)
    requires |j| > 0 && !IsSpace(j[0])
    ensures SpaceLen(p + j) == |p|
  {
    var s := p + j;
    assert forall i :: 0 <= i < |p| ==> s[i] == p[i];
    assert s[|p|] == j[0];
  }

  /** The end of the first word of `w + x` when `x` starts with whitespace. */
  lemma WordLenBeforeSpace(w: string, x: string)
    requires forall i :: 0 <= i < |w| ==> !IsSpace(w[i])
    requires |x| > 0 && IsSpace(x[0])
    ensures WordLen(w + x) == |w|
  {
    var s := w + x;
    assert forall i :: 0 <= i < |w| ==> s[i] == w[i];
    assert s[|w|] == x[0];
  }

  lemma {:induction false} TrimEndOfPadded(j: string, q: string)
    requires |j| == 0 || !IsSpace(j[|j| - 1])
    requires AllSpace(q)
    ensures TrimEnd(j + q) == j
    decreases |q|
  {
    if |q| == 0 {
      assert j + q == j;
    } else {
      var s := j + q;
      assert s[|s| - 1] == q[|q| - 1];
      assert s[..|s| - 1] == j + q[..|q| - 1];
      TrimEndOfPadded(j, q[..|q| - 1]);
    }
  }

  /** `trim` undoes whitespace padding around a string with non-whitespace ends. */
  lemma TrimPadded(p: string, j: string, q: string)
    requires AllSpace(p) && AllSpace(q)
    requires |j| > 0 ==> !IsSpace(j[0]) && !IsSpace(j[|j| - 1])
    ensures Trim(p + j + q) == j
  {
    var s := p + j + q;
    if |j| == 0 {
      assert s == p + q;
      assert forall i :: 0 <= i < |p| ==> s[i] == p[i];
      assert forall i :: |p| <= i < |s| ==> s[i] == q[i - |p|];
      assert AllSpace(s);
      assert SpaceLen(s) == |s|;
      assert TrimStart(s) == "";
    } else {
      assert s == p + (j + q);
      SpaceLenAfterSpaces(p, j + q);
      assert TrimStart(s) == j + q;
      TrimEndOfPadded(j, q);
    }
  }

  // ---------------------------------------------------------------------------
  // Lemmas about joining words.

  lemma JoinOfLonger(w: string, ws: seq<string>)
    requires |ws| > 0
    ensures Join([w] + ws) == w + " " + Join(ws)
  {
    assert ([w] + ws)[1..] == ws;
  }

  lemma AllWordsTail(ws: seq<string>)
    requires AllWords(ws) && |ws| > 0
    ensures IsWord(ws[0]) && AllWords(ws[1..])
  {
    assert forall k :: 0 <= k < |ws| - 1 ==> ws[1..][k] == ws[k + 1];
  }

  lemma JoinEmptyIff(ws: seq<string>)
    requires AllWords(ws)
    ensures Join(ws) == "" <==> ws == []
  {
    if |ws| > 1 {
      assert IsWord(ws[0]);
      assert Join(ws) == ws[0] + " " + Join(ws[1..]);
    } else if |ws| == 1 {
      assert IsWord(ws[0]);
    }
  }

  /** Canonical form of `w + " " + j` from the canonical form of `j`. */
  lemma CanonicalCons(w: string, j: string)
    requires IsWord(w) && IsCanonical(j) && |j| > 0
    ensures IsCanonical(w + " " + j)
  {
    var s := w + " " + j;
    assert forall i :: 0 <= i < |w| ==> s[i] == w[i];
    assert s[|w|] == ' ';
    assert forall i :: |w| < i < |s| ==> s[i] == j[i - |w| - 1];
    assert !IsSpace(j[0]);
    assert s[|s| - 1] == j[|j| - 1];
    forall i | 0 <= i < |s| - 1 ensures !DoubleSpaceAt(s, i) {
      if i > |w| {
        assert !DoubleSpaceAt(j, i - |w| - 1);
      }
    }
  }

  /** Words joined by single spaces are canonical, and the first word stays in front. */
  lemma {:induction false} JoinIsCanonical(ws: seq<string>)
    requires AllWords(ws)
    ensures IsCanonical(Join(ws))
    ensures |ws| > 0 ==> |Join(ws)| >= |ws[0]| && Join(ws)[..|ws[0]|] == ws[0]
    decreases |ws|
  {
    if |ws| == 1 {
      assert IsWord(ws[0]);
    } else if |ws| > 1 {
      var w := ws[0];
      var rest := ws[1..];
      AllWordsTail(ws);
      JoinIsCanonical(rest);
      JoinEmptyIff(rest);
      var j := Join(rest);
      assert Join(ws) == w + " " + j;
      CanonicalCons(w, j);
      assert (w + " " + j)[..|w|] == w;
    }
  }

  /** Reading the words back out of their join gives the same words. */
  lemma {:induction false} WordsOfJoin(ws: seq<string>)
    requires AllWords(ws)
    ensures Words(Join(ws)) == ws
    decreases |ws|
  {
    if |ws| > 0 {
      var w := ws[0];
      AllWordsTail(ws);
      assert SpaceLen(w) == 0;
      assert w[0..] == w;
      if |ws| == 1 {
        assert WordLen(w) == |w|;
        assert w[..|w|] == w && w[|w|..] == "";
      } else {
        var rest := ws[1..];
        var j := Join(rest);
        JoinIsCanonical(rest);
        JoinEmptyIff(rest);
        WordsOfJoin(rest);
        WordsOfJoinStep(w, j);
        assert Join(ws) == w + " " + j;
      }
    }
  }

  lemma WordsOfJoinStep(w: string, j: string)
    requires IsWord(w) && |j| > 0 && !IsSpace(j[0])
    ensures Words(w + " " + j) == [w] + Words(j)
  {
    var s := w + " " + j;
    assert s[0] == w[0];
    assert SpaceLen(s) == 0;
    assert s[0..] == s;
    assert s == w + (" " + j);
    WordLenBeforeSpace(w, " " + j);
    assert s[..|w|] == w;
    var u := s[|w|..];
    assert u == " " + j;
    assert AllSpace(" ");
    SpaceLenAfterSpaces(" ", j);
    assert u[SpaceLen(u)..] == j;
    WordsSkipSpaces(u);
  }

  function LeadPad(s: string): string {
    if |s| > 0 && IsSpace(s[0]) then " " else ""
  }

  function TrailPad(s: string): string {
    if |s| > 0 && IsSpace(s[|s| - 1]) && Words(s) != [] then " " else ""
  }

  lemma LeadPadAfterSpaces(s: string)
    ensures LeadPad(s[SpaceLen(s)..]) == ""
  {
    var t := s[SpaceLen(s)..];
    assert |t| > 0 ==> !IsSpace(t[0]);
  }

  lemma TrailPadAfterSpaces(s: string)
    ensures TrailPad(s[SpaceLen(s)..]) == TrailPad(s)
  {
    var t := s[SpaceLen(s)..];
    WordsSkipSpaces(s);
    assert |t| > 0 ==> t[|t| - 1] == s[|s| - 1];
  }

  /** The words of a string that starts with a word. */
  lemma WordsWordFirst(s: string)
    requires |s| > 0 && !IsSpace(s[0])
    ensures Words(s) == [s[..WordLen(s)]] + Words(s[WordLen(s)..])
  {
    assert SpaceLen(s) == 0;
    assert s[0..] == s;
  }

  lemma AppendAssoc(a: string, b: string, c: string)
    ensures a + (b + c) == a + b + c
  {
  }

  lemma CollapseSpaceFirst(s: string)
    requires |s| > 0 && IsSpace(s[0])
    requires var t := s[SpaceLen(s)..]; CollapseRuns(t) == LeadPad(t) + Join(Words(t)) + TrailPad(t)
    ensures CollapseRuns(s) == LeadPad(s) + Join(Words(s)) + TrailPad(s)
  {
    var t := s[SpaceLen(s)..];
    var j := Join(Words(s));
    WordsSkipSpaces(s);
    LeadPadAfterSpaces(s);
    TrailPadAfterSpaces(s);
    assert CollapseRuns(t) == j + TrailPad(s) by {
      assert "" + j == j;
    }
    assert CollapseRuns(s) == " " + CollapseRuns(t);
    AppendAssoc(" ", j, TrailPad(s));
  }

  lemma CollapseWordOnly(s: string)
    requires |s| > 0 && !IsSpace(s[0]) && WordLen(s) == |s|
    ensures CollapseRuns(s) == LeadPad(s) + Join(Words(s)) + TrailPad(s)
  {
    WordsWordFirst(s);
    assert s[..|s|] == s;
    assert s[|s|..] == "";
    assert Words(s) == [s];
    assert LeadPad(s) == "" && TrailPad(s) == "";
    assert CollapseRuns(s) == s + CollapseRuns("");
    WordAlone(CollapseRuns(s), s, Join(Words(s)), LeadPad(s), TrailPad(s));
  }

  lemma WordAlone(c: string, w: string, js: string, lp: string, tp: string)
    requires c == w + "" && js == w && lp == "" && tp == ""
    ensures c == lp + js + tp
  {
  }

  lemma LastOfBlankTail(s: string, n: nat)
    requires n < |s| && AllSpace(s[n..])
    ensures IsSpace(s[n]) && IsSpace(s[|s| - 1])
  {
    assert s[n..][0] == s[n];
    assert s[n..][|s| - n - 1] == s[|s| - 1];
  }

  lemma PadsAroundWordThenSpaces(s: string)
    requires |s| > 0 && !IsSpace(s[0]) && WordLen(s) < |s|
    requires Words(s[WordLen(s)..]) == []
    ensures var u := s[WordLen(s)..];
      LeadPad(u) == " " && TrailPad(u) == "" && LeadPad(s) == "" && TrailPad(s) == " "
      && Words(s) == [s[..WordLen(s)]]
  {
    var n := WordLen(s);
    WordsWordFirst(s);
    WordsEmptyIffAllSpace(s[n..]);
    LastOfBlankTail(s, n);
  }

  lemma CollapseWordThenSpaces(s: string)
    requires |s| > 0 && !IsSpace(s[0]) && WordLen(s) < |s|
    requires Words(s[WordLen(s)..]) == []
    requires var u := s[WordLen(s)..]; CollapseRuns(u) == LeadPad(u) + Join(Words(u)) + TrailPad(u)
    ensures CollapseRuns(s) == LeadPad(s) + Join(Words(s)) + TrailPad(s)
  {
    var n := WordLen(s);
    var u := s[n..];
    PadsAroundWordThenSpaces(s);
    CollapseWordStep(s);
    WordThenSpaces(CollapseRuns(s), s[..n], CollapseRuns(u), LeadPad(u), Join(Words(u)), TrailPad(u),
                   Join(Words(s)), LeadPad(s), TrailPad(s));
  }

  lemma WordThenSpaces(c: string, w: string, cu: string, lpu: string, ju: string, tpu: string,
                       js: string, lp: string, tp: string)
    requires c == w + cu && cu == lpu + ju + tpu
    requires lpu == " " && ju == "" && tpu == "" && js == w && lp == "" && tp == " "
    ensures c == lp + js + tp
  {
    assert cu == " ";
  }

  lemma CollapseWordStep(s: string)
    requires |s| > 0 && !IsSpace(s[0])
    ensures CollapseRuns(s) == s[..WordLen(s)] + CollapseRuns(s[WordLen(s)..])
  {
  }

  lemma PadsAroundWord(s: string)
    requires |s| > 0 && !IsSpace(s[0]) && WordLen(s) < |s|
    requires Words(s[WordLen(s)..]) != []
    ensures var u := s[WordLen(s)..]; LeadPad(u) == " " && TrailPad(u) == TrailPad(s)
    ensures LeadPad(s) == ""
  {
    var u := s[WordLen(s)..];
    WordsWordFirst(s);
    assert u[0] == s[WordLen(s)];
    assert u[|u| - 1] == s[|s| - 1];
  }

  lemma PadWordJoin(w: string, c: string, j: string, jw: string, tp: string)
    requires c == " " + j + tp && jw == w + " " + j
    ensures w + c == "" + jw + tp
  {
    AppendAssoc(w, " " + j, tp);
    AppendAssoc(w, " ", j);
  }

  lemma CollapseWordThenWords(s: string)
    requires |s| > 0 && !IsSpace(s[0]) && WordLen(s) < |s|
    requires Words(s[WordLen(s)..]) != []
    requires var u := s[WordLen(s)..]; CollapseRuns(u) == LeadPad(u) + Join(Words(u)) + TrailPad(u)
    ensures CollapseRuns(s) == LeadPad(s) + Join(Words(s)) + TrailPad(s)
  {
    var n := WordLen(s);
    var u := s[n..];
    WordsWordFirst(s);
    JoinOfLonger(s[..n], Words(u));
    PadsAroundWord(s);
    CollapseWordStep(s);
    PadWordJoin(s[..n], CollapseRuns(u), Join(Words(u)), Join(Words(s)), TrailPad(s));
  }

  /** Collapsing runs gives the joined words, plus one space for leading and one for trailing whitespace. */
  lemma {:induction false} CollapseShape(s: string)
    ensures CollapseRuns(s) == LeadPad(s) + Join(Words(s)) + TrailPad(s)
    decreases |s|
  {
    if |s| == 0 {
    } else if IsSpace(s[0]) {
      CollapseShape(s[SpaceLen(s)..]);
      CollapseSpaceFirst(s);
    } else if WordLen(s) == |s| {
      CollapseWordOnly(s);
    } else {
      var u := s[WordLen(s)..];
      CollapseShape(u);
      if Words(u) == [] {
        CollapseWordThenSpaces(s);
      } else {
        CollapseWordThenWords(s);
      }
    }
  }

  // ---------------------------------------------------------------------------
  // The properties of normalizePrompt.

  /** The U+00A0 rewrite never finds anything: the first rewrite already turned it into `' '`. */
  lemma NbspStepIsNoOp(s: string)
    ensures ReplaceNbsp(CollapseRuns(s)) == CollapseRuns(s)
  {
    var c := CollapseRuns(s);
    assert IsSpace(Nbsp);
    assert forall i :: 0 <= i < |c| ==> c[i] != Nbsp;
  }

  /** normalizePrompt agrees with the reference definition: the input's words joined by single spaces. */
  lemma NormalizeIsJoinedWords(s: string)
    ensures NormalizePrompt(s) == Join(Words(s))
  {
    NbspStepIsNoOp(s);
    CollapseShape(s);
    JoinIsCanonical(Words(s));
    assert AllSpace(" ") && AllSpace("");
    TrimPadded(LeadPad(s), Join(Words(s)), TrailPad(s));
  }

  /** No whitespace at either end, only `' '` inside, never two spaces in a row. */
  lemma NormalizeIsCanonical(s: string)
    ensures IsCanonical(NormalizePrompt(s))
  {
    NormalizeIsJoinedWords(s);
    JoinIsCanonical(Words(s));
  }

  /** Empty or all-whitespace input, and only such input, normalises to the empty string. */
  lemma NormalizeEmptyIff(s: string)
    ensures NormalizePrompt(s) == "" <==> AllSpace(s)
  {
    NormalizeIsJoinedWords(s);
    JoinEmptyIff(Words(s));
    WordsEmptyIffAllSpace(s);
  }

  lemma NormalizeIdempotent(s: string)
    ensures NormalizePrompt(NormalizePrompt(s)) == NormalizePrompt(s)
  {
    NormalizeIsJoinedWords(s);
    NormalizeIsJoinedWords(NormalizePrompt(s));
    WordsOfJoin(Words(s));
  }

  /** After the first word of a canonical string come one space and a shorter canonical string. */
  lemma CanonicalGap(s: string)
    requires IsCanonical(s) && |s| > 0 && WordLen(s) < |s|
    ensures var n := WordLen(s); n > 0 && n + 1 < |s| && s[n] == ' ' && !IsSpace(s[n + 1])
  {
    var n := WordLen(s);
    assert n > 0 && n + 1 < |s| && s[n] == ' ' by {
      assert !IsSpace(s[0]) && !IsSpace(s[|s| - 1]);
    }
    assert !DoubleSpaceAt(s, n);
  }

  lemma SplitAround(s: string, n: nat)
    requires n < |s|
    ensures s == s[..n] + [s[n]] + s[n + 1..]
  {
  }

  lemma CanonicalTail(s: string)
    requires IsCanonical(s) && |s| > 0 && WordLen(s) < |s|
    ensures var n := WordLen(s);
      && n > 0 && n + 1 < |s| && s[n] == ' '
      && !IsSpace(s[n + 1]) && IsCanonical(s[n + 1..])
      && s == s[..n] + " " + s[n + 1..]
  {
    var n := WordLen(s);
    CanonicalGap(s);
    CanonicalSuffix(s, n + 1);
    SplitAround(s, n);
  }

  lemma CanonicalSuffix(s: string, k: nat)
    requires IsCanonical(s) && k < |s| && !IsSpace(s[k])
    ensures IsCanonical(s[k..])
  {
    var rest := s[k..];
    assert forall i :: 0 <= i < |rest| ==> rest[i] == s[k + i];
    forall i | 0 <= i < |rest| - 1 ensures !DoubleSpaceAt(rest, i) {
      assert !DoubleSpaceAt(s, k + i);
    }
  }

  lemma WordsOfCanonicalStep(s: string)
    requires IsCanonical(s) && |s| > 0 && WordLen(s) < |s|
    ensures var n := WordLen(s);
      n + 1 < |s| && IsCanonical(s[n + 1..]) && s[n + 1..] != ""
      && Words(s) == [s[..n]] + Words(s[n + 1..])
      && s == s[..n] + " " + s[n + 1..]
  {
    var n := WordLen(s);
    CanonicalTail(s);
    var rest := s[n + 1..];
    WordsWordFirst(s);
    assert s[n..] == " " + rest;
    assert AllSpace(" ");
    SpaceLenAfterSpaces(" ", rest);
    assert (" " + rest)[1..] == rest;
    WordsSkipSpaces(" " + rest);
  }

  /** A canonical string is its own words joined by single spaces. */
  lemma {:induction false} CanonicalIsJoinedWords(s: string)
    requires IsCanonical(s)
    ensures Join(Words(s)) == s
    decreases |s|
  {
    if |s| > 0 {
      var n := WordLen(s);
      WordsWordFirst(s);
      if n == |s| {
        assert s[..n] == s && s[n..] == "";
      } else {
        WordsOfCanonicalStep(s);
        var rest := s[n + 1..];
        CanonicalIsJoinedWords(rest);
        WordsEmptyIffAllSpace(rest);
        JoinOfLonger(s[..n], Words(rest));
      }
    }
  }

  /** The fixed points of normalizePrompt are exactly the canonical strings. */
  lemma NormalizeFixedIffCanonical(s: string)
    ensures NormalizePrompt(s) == s <==> IsCanonical(s)
  {
    NormalizeIsCanonical(s);
    if IsCanonical(s) {
      NormalizeIsJoinedWords(s);
      CanonicalIsJoinedWords(s);
    }
  }

  lemma {:induction false} NonSpaceAppend(a: string, b: string)
    ensures NonSpace(a + b) == NonSpace(a) + NonSpace(b)
    decreases |a|
  {
    if |a| == 0 {
      assert a + b == b;
    } else {
      assert (a + b)[0] == a[0];
      assert (a + b)[1..] == a[1..] + b;
      NonSpaceAppend(a[1..], b);
    }
  }

  lemma {:induction false} NonSpaceOfAllSpace(s: string)
    requires AllSpace(s)
    ensures NonSpace(s) == ""
    decreases |s|
  {
    if |s| > 0 { NonSpaceOfAllSpace(s[1..]); }
  }

  lemma {:induction false} NonSpaceOfWord(w: string)
    requires forall i :: 0 <= i < |w| ==> !IsSpace(w[i])
    ensures NonSpace(w) == w
    decreases |w|
  {
    if |w| > 0 { NonSpaceOfWord(w[1..]); }
  }

  lemma {:induction false} NonSpaceOfJoin(ws: seq<string>)
    requires AllWords(ws)
    ensures NonSpace(Join(ws)) == Concat(ws)
    decreases |ws|
  {
    if |ws| > 0 {
      AllWordsTail(ws);
      NonSpaceOfWord(ws[0]);
      if |ws| > 1 {
        NonSpaceOfJoin(ws[1..]);
        NonSpaceAppend(ws[0] + " ", Join(ws[1..]));
        NonSpaceAppend(ws[0], " ");
      } else {
        assert Concat(ws) == ws[0] + Concat(ws[1..]);
      }
    }
  }

  lemma ConcatStep(w: string, u: string)
    requires IsWord(w) && Concat(Words(u)) == NonSpace(u)
    requires |u| == 0 || IsSpace(u[0])
    ensures Concat(Words(w + u)) == NonSpace(w + u)
  {
    var s := w + u;
    assert s[0] == w[0];
    if |u| == 0 {
      assert s == w;
      assert WordLen(s) == |w|;
    } else {
      WordLenBeforeSpace(w, u);
    }
    assert s[..|w|] == w && s[|w|..] == u;
    WordsWordFirst(s);
    assert ([w] + Words(u))[1..] == Words(u);
    NonSpaceAppend(w, u);
    NonSpaceOfWord(w);
  }

  lemma NonSpaceSkipSpaces(s: string)
    ensures NonSpace(s[SpaceLen(s)..]) == NonSpace(s)
  {
    var k := SpaceLen(s);
    assert s == s[..k] + s[k..];
    NonSpaceAppend(s[..k], s[k..]);
    NonSpaceOfAllSpace(s[..k]);
  }

  /** Splitting a string that starts with a word into that word and the rest. */
  lemma SplitFirstWord(t: string)
    requires |t| > 0 && !IsSpace(t[0])
    ensures var n := WordLen(t);
      && 0 < n && IsWord(t[..n]) && t == t[..n] + t[n..]
      && (n == |t| || IsSpace(t[n..][0]))
  {
    var n := WordLen(t);
    assert n > 0;
    SplitAfterRun(t, n);
  }

  lemma SplitAfterRun(t: string, n: nat)
    requires 0 < n <= |t|
    requires forall i :: 0 <= i < n ==> !IsSpace(t[i])
    requires n == |t| || IsSpace(t[n])
    ensures IsWord(t[..n]) && t == t[..n] + t[n..]
    ensures n == |t| || IsSpace(t[n..][0])
  {
    var w := t[..n];
    forall i | 0 <= i < |w| ensures !IsSpace(w[i]) {
      assert w[i] == t[i];
    }
    assert t == w + t[n..];
    if n < |t| {
      assert t[n..][0] == t[n];
    }
  }

  lemma {:induction false} ConcatOfWords(s: string)
    ensures Concat(Words(s)) == NonSpace(s)
    decreases |s|
  {
    var t := s[SpaceLen(s)..];
    NonSpaceSkipSpaces(s);
    WordsSkipSpaces(s);
    if |t| > 0 {
      var n := WordLen(t);
      SplitFirstWord(t);
      ConcatOfWords(t[n..]);
      ConcatStep(t[..n], t[n..]);
    }
  }

  /** The non-whitespace characters survive in order, and no other non-whitespace character appears. */
  lemma NormalizeKeepsNonSpace(s: string)
    ensures NonSpace(NormalizePrompt(s)) == NonSpace(s)
  {
    NormalizeIsJoinedWords(s);
    NonSpaceOfJoin(Words(s));
    ConcatOfWords(s);
  }

  /** The line-width bounds are ordered and a whole number of steps apart. */
  lemma LineLimitConstants()
    ensures LineLimitMin < LineLimitMax
    ensures LineLimitStep > 0 && (LineLimitMax - LineLimitMin) % LineLimitStep == 0
  {
  }
}
