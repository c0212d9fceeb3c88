/**
 * Spoken editing commands in a final transcript. Saying "new line" or "line break" inserts
 * a line break; only when neither is said do "new paragraph" and "paragraph" insert a
 * paragraph break. Phrases match regardless of case.
 */
module VoiceCommands {
  import opened Wrappers
  import opened Strings

  const NewLine: string := "new line"
  const LineBreak: string := "line break"
  const NewParagraph: string := "new paragraph"
  const Paragraph: string := "paragraph"

  /** The alternatives of the line-break pattern, in the order the pattern tries them. */
  const LineBreakPhrases: seq<string> := [NewLine, LineBreak]
  /** The alternatives of the paragraph pattern, in the order the pattern tries them. */
  const ParagraphPhrases: seq<string> := [NewParagraph, Paragraph]

  const LineBreakMarkup: string := "<br>"
  const ParagraphMarkup: string := "<br><br>"

  predicate NonEmptyPhrases(phrases: seq<string>) {
    forall k :: 0 <= k < |phrases| ==> phrases[k] != []
  }

  /**
   * The index of the first phrase, in pattern order, that `s` starts with (case-insensitively):
   * how an alternation pattern chooses at a position.
   */
  function FirstMatch(s: string, phrases: seq<string>): (r: Option<nat>)
    ensures r.Some? ==> r.value < |phrases| && StartsWithFolded(s, phrases[r.value])
    ensures r.Some? ==> forall k :: 0 <= k < r.value ==> !StartsWithFolded(s, phrases[k])
    ensures r.None? <==> forall k :: 0 <= k < |phrases| ==> !StartsWithFolded(s, phrases[k])
  {
    if phrases == [] then None
    else if StartsWithFolded(s, phrases[0]) then Some(0)
    else match FirstMatch(s, phrases[1..])
      case Some(j) => Some(j + 1)
      case None => None
  }

  /**
   * `s.replace(/(p0|p1|...)/gi, markup)`: scanning left to right, a match of the first
   * phrase that fits is replaced by `markup` and the scan resumes after it; any other
   * character is copied.
   */
  function ReplacePhrases(s: string, phrases: seq<string>, markup: string): string
    requires NonEmptyPhrases(phrases)
    decreases |s|
  {
    if s == [] then []
    else match FirstMatch(s, phrases)
      case Some(k) => markup + ReplacePhrases(s[|phrases[k]|..], phrases, markup)
      case None => [s[0]] + ReplacePhrases(s[1..], phrases, markup)
  }

  /** The transcript rewrite applied to every final recognition result. */
  function ProcessVoiceCommands(text: string): string {
    var lower := Lower(text);
    if Includes(lower, NewLine) || Includes(lower, LineBreak) then
      ReplacePhrases(text, LineBreakPhrases, LineBreakMarkup)
    else if Includes(lower, NewParagraph) || Includes(lower, Paragraph) then
      ReplacePhrases(text, ParagraphPhrases, ParagraphMarkup)
    else
      text
  }

  /** No phrase of `phrases` occurs anywhere in `t`, case-insensitively. */
  ghost predicate NoPhraseIn(t: string, phrases: seq<string>) {
    forall i, k :: 0 <= k < |phrases| ==> !FoldedAt(t, phrases[k], i)
  }

  /** The markup is tag-delimited and no shorter than the phrases, which contain no angle bracket. */
  predicate MarkupSafe(phrases: seq<string>, markup: string) {
    && markup != [] && markup[0] == '<' && markup[|markup| - 1] == '>'
    && forall k :: 0 <= k < |phrases| ==>
         '<' !in phrases[k] && '>' !in phrases[k] && |markup| <= |phrases[k]|
  }

  /** Occurrences in a suffix are occurrences in the whole, shifted by the prefix. */
  lemma ShiftFolded(pre: string, t: string, w: string, i: int)
    requires |pre| <= i
    ensures FoldedAt(pre + t, w, i) <==> FoldedAt(t, w, i - |pre|)
  {
    if i <= |pre + t| {
      assert (pre + t)[i..] == t[i - |pre|..];
    }
  }

  lemma FoldedAtStart(s: string, w: string)
    ensures FoldedAt(s, w, 0) <==> StartsWithFolded(s, w)
  {
    assert s[0..] == s;
  }

  /** A folded match of `w` at `i` fixes the lower-cased characters `i .. i + |w|`. */
  lemma FoldedAtChar(s: string, w: string, i: int, j: int)
    requires FoldedAt(s, w, i) && 0 <= j < |w|
    ensures i + j < |s| && LowerChar(s[i + j]) == w[j]
  {
    assert Lower(s[i..][..|w|])[j] == LowerChar(s[i..][..|w|][j]);
  }

  /** Nothing in `s` matches: the rewrite leaves it as it is. */
  lemma {:induction false} ReplaceWithoutMatch(s: string, phrases: seq<string>, markup: string)
    requires NonEmptyPhrases(phrases) && NoPhraseIn(s, phrases)
    ensures ReplacePhrases(s, phrases, markup) == s
    decreases |s|
  {
    if s != [] {
      forall k | 0 <= k < |phrases| ensures !StartsWithFolded(s, phrases[k]) {
        FoldedAtStart(s, phrases[k]);
      }
      forall i, k | 0 <= k < |phrases| ensures !FoldedAt(s[1..], phrases[k], i) {
        if 0 <= i {
          ShiftFolded([s[0]], s[1..], phrases[k], i + 1);
          assert [s[0]] + s[1..] == s;
        }
      }
      ReplaceWithoutMatch(s[1..], phrases, markup);
    }
  }

  /** The rewrite's first character is the markup's when a phrase starts `s`, else `s[0]`. */
  lemma ReplaceFirstChar(s: string, phrases: seq<string>, markup: string)
    requires NonEmptyPhrases(phrases) && markup != [] && s != []
    ensures ReplacePhrases(s, phrases, markup) != []
    ensures ReplacePhrases(s, phrases, markup)[0] ==
      if FirstMatch(s, phrases).Some? then markup[0] else s[0]
  {
  }

  /**
   * Up to the first '<' it emits, the rewrite's output is a copy of its input (markup
   * starts with '<').
   */
  lemma {:induction false} CopiedUpToMarkup(s: string, phrases: seq<string>, markup: string, n: nat)
    requires NonEmptyPhrases(phrases) && markup != [] && markup[0] == '<'
    requires n <= |ReplacePhrases(s, phrases, markup)|
    requires forall j :: 0 <= j < n ==> ReplacePhrases(s, phrases, markup)[j] != '<'
    ensures n <= |s| && ReplacePhrases(s, phrases, markup)[..n] == s[..n]
    decreases |s|
  {
    if n > 0 {
      ReplaceFirstChar(s, phrases, markup);
      assert FirstMatch(s, phrases).None?;
      ReplaceUnmatchedStep(s, phrases, markup);
      var r := ReplacePhrases(s[1..], phrases, markup);
      TailHasNoTag(s[0], r, n);
      CopiedUpToMarkup(s[1..], phrases, markup, n - 1);
      ConsPrefix(s[0], r, s[1..], n);
      assert [s[0]] + s[1..] == s;
    }
  }

  /** Where no phrase starts `s`, the rewrite copies its first character and goes on. */
  lemma ReplaceUnmatchedStep(s: string, phrases: seq<string>, markup: string)
    requires NonEmptyPhrases(phrases) && s != []
    requires FirstMatch(s, phrases).None?
    ensures ReplacePhrases(s, phrases, markup) == [s[0]] + ReplacePhrases(s[1..], phrases, markup)
  {
  }

  lemma TailHasNoTag(c: char, r: string, n: nat)
    requires 0 < n <= |[c] + r| && forall j :: 0 <= j < n ==> ([c] + r)[j] != '<'
    ensures n - 1 <= |r| && forall j :: 0 <= j < n - 1 ==> r[j] != '<'
  {
    forall j | 0 <= j < n - 1 ensures r[j] != '<' {
      assert r[j] == ([c] + r)[j + 1];
    }
  }

  lemma ConsPrefix(c: char, r: string, u: string, n: nat)
    requires 0 < n && n - 1 <= |r| && n - 1 <= |u| && r[..n - 1] == u[..n - 1]
    ensures ([c] + r)[..n] == ([c] + u)[..n]
  {
    assert ([c] + r)[..n] == [c] + r[..n - 1];
    assert ([c] + u)[..n] == [c] + u[..n - 1];
  }

  /** Where no phrase starts in the first `n` characters, the rewrite copies them. */
  lemma {:induction false} CopiesUnmatchedPrefix(s: string, phrases: seq<string>, markup: string, n: nat)
    requires NonEmptyPhrases(phrases) && n <= |s|
    requires forall j, k :: 0 <= j < n && 0 <= k < |phrases| ==> !FoldedAt(s, phrases[k], j)
    ensures n <= |ReplacePhrases(s, phrases, markup)|
    ensures ReplacePhrases(s, phrases, markup)[..n] == s[..n]
    decreases |s|
  {
    if n > 0 {
      forall k | 0 <= k < |phrases| ensures !StartsWithFolded(s, phrases[k]) {
        FoldedAtStart(s, phrases[k]);
      }
      forall j, k | 0 <= j < n - 1 && 0 <= k < |phrases| ensures !FoldedAt(s[1..], phrases[k], j) {
        ShiftFolded([s[0]], s[1..], phrases[k], j + 1);
        assert [s[0]] + s[1..] == s;
      }
      CopiesUnmatchedPrefix(s[1..], phrases, markup, n - 1);
      ReplaceUnmatchedStep(s, phrases, markup);
      ConsPrefix(s[0], ReplacePhrases(s[1..], phrases, markup), s[1..], n);
      assert [s[0]] + s[1..] == s;
    }
  }

  /** A phrase cannot match at a position inside the markup: it would cover the closing '>'. */
  lemma MarkupBlocksMatch(markup: string, rest: string, phrases: seq<string>, k: nat, i: int)
    requires MarkupSafe(phrases, markup) && k < |phrases| && 0 <= i < |markup|
    ensures !FoldedAt(markup + rest, phrases[k], i)
  {
    if FoldedAt(markup + rest, phrases[k], i) {
      var j := |markup| - 1 - i;
      FoldedAtChar(markup + rest, phrases[k], i, j);
    }
  }

  /**
   * After the rewrite no phrase remains: every occurrence was replaced, and the
   * markup can neither contain a phrase nor join with copied text to form one.
   */
  lemma {:induction false} NoPhraseRemains(s: string, phrases: seq<string>, markup: string)
    requires NonEmptyPhrases(phrases) && MarkupSafe(phrases, markup)
    ensures NoPhraseIn(ReplacePhrases(s, phrases, markup), phrases)
    decreases |s|
  {
    var t := ReplacePhrases(s, phrases, markup);
    if s == [] {
      forall i, k | 0 <= k < |phrases| ensures !FoldedAt(t, phrases[k], i) {
        if FoldedAt(t, phrases[k], i) {
          FoldedAtChar(t, phrases[k], i, 0);
        }
      }
    } else {
      match FirstMatch(s, phrases)
      case Some(m) =>
        var rest := s[|phrases[m]|..];
        var r := ReplacePhrases(rest, phrases, markup);
        assert t == markup + r;
        NoPhraseRemains(rest, phrases, markup);
        forall i, k | 0 <= k < |phrases| ensures !FoldedAt(t, phrases[k], i) {
          if i < 0 {
          } else if i < |markup| {
            MarkupBlocksMatch(markup, r, phrases, k, i);
          } else {
            ShiftFolded(markup, r, phrases[k], i);
          }
        }
      case None =>
        var r := ReplacePhrases(s[1..], phrases, markup);
        assert t == [s[0]] + r;
        NoPhraseRemains(s[1..], phrases, markup);
        forall i, k | 0 <= k < |phrases| ensures !FoldedAt(t, phrases[k], i) {
          var p := phrases[k];
          if i == 0 && FoldedAt(t, p, 0) {
            forall j | 0 <= j < |p| ensures t[j] != '<' {
              FoldedAtChar(t, p, 0, j);
              assert p[j] != '<';
            }
            CopiedUpToMarkup(s, phrases, markup, |p|);
          } else if i >= 1 {
            ShiftFolded([s[0]], r, p, i);
          }
        }
    }
  }

  /** Which alternative starts the text is decided by the first `n` characters when no match is longer. */
  lemma FirstMatchOfPrefix(s: string, phrases: seq<string>, n: nat)
    requires n <= |s|
    requires forall k :: 0 <= k < |phrases| && FoldedAt(s, phrases[k], 0) ==> |phrases[k]| <= n
    ensures FirstMatch(s[..n], phrases) == FirstMatch(s, phrases)
  {
    forall k | 0 <= k < |phrases|
      ensures StartsWithFolded(s[..n], phrases[k]) <==> StartsWithFolded(s, phrases[k])
    {
      FoldedAtStart(s, phrases[k]);
      if |phrases[k]| <= n {
        assert s[..n][..|phrases[k]|] == s[..|phrases[k]|];
      }
    }
    FirstMatchAgrees(s[..n], s, phrases);
  }

  /** Texts that the same alternatives start have the same first match. */
  lemma {:induction false} FirstMatchAgrees(s: string, t: string, phrases: seq<string>)
    requires forall k :: 0 <= k < |phrases| ==> (StartsWithFolded(s, phrases[k]) <==> StartsWithFolded(t, phrases[k]))
    ensures FirstMatch(s, phrases) == FirstMatch(t, phrases)
  {
    if phrases != [] {
      FirstMatchAgrees(s, t, phrases[1..]);
    }
  }

  /** No match of an alternative starting before `i` reaches past `i`. */
  ghost predicate NoMatchCovers(s: string, phrases: seq<string>, i: int) {
    forall p, k :: 0 <= p < i && 0 <= k < |phrases| && FoldedAt(s, phrases[k], p) ==>
      p + |phrases[k]| <= i
  }

  /** How far one step of the rewrite advances: the matched phrase, or one copied character. */
  function StepLength(s: string, phrases: seq<string>): nat {
    match FirstMatch(s, phrases)
    case Some(k) => |phrases[k]|
    case None => 1
  }

  /** What one step of the rewrite emits: the markup, or the copied character. */
  function StepOutput(s: string, phrases: seq<string>, markup: string): string
    requires s != []
  {
    if FirstMatch(s, phrases).Some? then markup else [s[0]]
  }

  lemma ReplaceUnfold(s: string, phrases: seq<string>, markup: string)
    requires NonEmptyPhrases(phrases) && s != []
    ensures StepLength(s, phrases) <= |s|
    ensures ReplacePhrases(s, phrases, markup) ==
      StepOutput(s, phrases, markup) + ReplacePhrases(s[StepLength(s, phrases)..], phrases, markup)
  {
  }

  /** Under `NoMatchCovers`, the first step stays before `i`, and so does every later one. */
  lemma StepBeforeCover(s: string, phrases: seq<string>, i: nat)
    requires 0 < i <= |s| && NoMatchCovers(s, phrases, i)
    ensures StepLength(s, phrases) <= i
    ensures FirstMatch(s[..i], phrases) == FirstMatch(s, phrases)
    ensures NoMatchCovers(s[StepLength(s, phrases)..], phrases, i - StepLength(s, phrases))
  {
    FirstMatchOfPrefix(s, phrases, i);
    if FirstMatch(s, phrases).Some? {
      FoldedAtStart(s, phrases[FirstMatch(s, phrases).value]);
    }
    var len := StepLength(s, phrases);
    var rest := s[len..];
    forall p, k | 0 <= p < i - len && 0 <= k < |phrases| && FoldedAt(rest, phrases[k], p)
      ensures p + |phrases[k]| <= i - len
    {
      ShiftFolded(s[..len], rest, phrases[k], p + len);
      assert s[..len] + rest == s;
    }
  }

  /**
   * Where no match covers position `i`, the rewrite of `s` is the rewrite of the part before
   * `i` followed by the rewrite of the part from `i`.
   */
  lemma {:induction false} ReplaceSplits(s: string, phrases: seq<string>, markup: string, i: nat)
    requires NonEmptyPhrases(phrases) && i <= |s| && NoMatchCovers(s, phrases, i)
    ensures ReplacePhrases(s, phrases, markup) ==
      ReplacePhrases(s[..i], phrases, markup) + ReplacePhrases(s[i..], phrases, markup)
    decreases |s|
  {
    if i == 0 {
      assert s[..0] == [] && s[0..] == s;
    } else {
      StepBeforeCover(s, phrases, i);
      var len := StepLength(s, phrases);
      var rest := s[len..];
      ReplaceUnfold(s, phrases, markup);
      ReplaceUnfold(s[..i], phrases, markup);
      assert StepLength(s[..i], phrases) == len;
      assert StepOutput(s[..i], phrases, markup) == StepOutput(s, phrases, markup);
      ReplaceSplits(rest, phrases, markup, i - len);
      assert s[..i][len..] == rest[..i - len];
      assert rest[i - len..] == s[i..];
      Reassociate(StepOutput(s, phrases, markup), ReplacePhrases(rest[..i - len], phrases, markup),
        ReplacePhrases(s[i..], phrases, markup));
    }
  }

  lemma Reassociate(a: string, b: string, c: string)
    ensures a + (b + c) == (a + b) + c
  {
  }

  /** A stretch of `s` where no phrase starts is copied, and the rewrite carries on after it. */
  lemma CopiesUnmatched(s: string, phrases: seq<string>, markup: string, n: nat)
    requires NonEmptyPhrases(phrases) && n <= |s|
    requires forall j, k :: 0 <= j < n && 0 <= k < |phrases| ==> !FoldedAt(s, phrases[k], j)
    ensures ReplacePhrases(s, phrases, markup) == s[..n] + ReplacePhrases(s[n..], phrases, markup)
  {
    ReplaceSplits(s, phrases, markup, n);
    forall i, k | 0 <= k < |phrases| ensures !FoldedAt(s[..n], phrases[k], i) {
      if FoldedAt(s[..n], phrases[k], i) {
        FoldedInPrefix(s, n, phrases[k], i);
      }
    }
    ReplaceWithoutMatch(s[..n], phrases, markup);
  }

  /** An occurrence in a prefix is an occurrence in the whole text that ends within the prefix. */
  lemma FoldedInPrefix(s: string, n: nat, w: string, i: int)
    requires n <= |s| && w != [] && FoldedAt(s[..n], w, i)
    ensures i < n && FoldedAt(s, w, i)
  {
    assert s[..n][i..][..|w|] == s[i..][..|w|];
  }

  /**
   * A word containing no character that starts a phrase, and whose first character occurs
   * in no phrase, cannot overlap a match: each of its occurrences is kept verbatim, in place,
   * between the rewrites of the text before it and the text after it.
   */
  lemma WordSurvives(s: string, phrases: seq<string>, markup: string, w: string, i: int)
    requires NonEmptyPhrases(phrases) && w != []
    requires forall k, j :: 0 <= k < |phrases| && 0 <= j < |w| ==> w[j] != phrases[k][0]
    requires forall k :: 0 <= k < |phrases| ==> w[0] !in phrases[k]
    requires FoldedAt(s, w, i)
    ensures i + |w| <= |s|
    ensures ReplacePhrases(s, phrases, markup) ==
      ReplacePhrases(s[..i], phrases, markup) + s[i..i + |w|] + ReplacePhrases(s[i + |w|..], phrases, markup)
    ensures FoldedAt(ReplacePhrases(s, phrases, markup), w, |ReplacePhrases(s[..i], phrases, markup)|)
  {
    WordNotCovered(s, phrases, w, i);
    ReplaceSplits(s, phrases, markup, i);
    var u := s[i..];
    WordStartsNoMatch(s, phrases, w, i);
    CopiesUnmatched(u, phrases, markup, |w|);
    var mid := s[i..i + |w|];
    assert u[..|w|] == mid;
    assert u[|w|..] == s[i + |w|..];
    var pre := ReplacePhrases(s[..i], phrases, markup);
    var post := ReplacePhrases(s[i + |w|..], phrases, markup);
    Reassociate(pre, mid, post);
    assert s[i..][..|w|] == mid;
    FoldedBetween(pre, mid, post, w);
  }

  /** A text folding to `w`, placed between two others, is an occurrence of `w` there. */
  lemma FoldedBetween(pre: string, mid: string, post: string, w: string)
    requires |mid| == |w| && Lower(mid) == w
    ensures FoldedAt(pre + mid + post, w, |pre|)
  {
    assert (pre + mid + post)[|pre|..][..|w|] == mid;
  }

  /** A match covering the word's first character would contain that character. */
  lemma WordNotCovered(s: string, phrases: seq<string>, w: string, i: int)
    requires w != [] && FoldedAt(s, w, i)
    requires forall k :: 0 <= k < |phrases| ==> w[0] !in phrases[k]
    ensures NoMatchCovers(s, phrases, i)
  {
    forall p, k | 0 <= p < i && 0 <= k < |phrases| && FoldedAt(s, phrases[k], p)
      ensures p + |phrases[k]| <= i
    {
      if p + |phrases[k]| > i {
        FoldedAtChar(s, phrases[k], p, i - p);
        FoldedAtChar(s, w, i, 0);
        assert false;
      }
    }
  }

  /** No phrase starts inside the word, since none starts with one of its characters. */
  lemma WordStartsNoMatch(s: string, phrases: seq<string>, w: string, i: int)
    requires NonEmptyPhrases(phrases) && FoldedAt(s, w, i)
    requires forall k, j :: 0 <= k < |phrases| && 0 <= j < |w| ==> w[j] != phrases[k][0]
    ensures forall j, k :: 0 <= j < |w| && 0 <= k < |phrases| ==> !FoldedAt(s[i..], phrases[k], j)
  {
    forall j, k | 0 <= j < |w| && 0 <= k < |phrases| ensures !FoldedAt(s[i..], phrases[k], j) {
      if FoldedAt(s[i..], phrases[k], j) {
        FoldedAtChar(s[i..], phrases[k], j, 0);
        FoldedAtChar(s, w, i, j);
      }
    }
  }

  /** "paragraph" contains "new paragraph"'s tail, so saying the latter says the former. */
  lemma NewParagraphSaysParagraph(text: string)
    requires OccursFolded(text, NewParagraph)
    ensures OccursFolded(text, Paragraph)
  {
    var i :| FoldedAt(text, NewParagraph, i);
    forall j | 0 <= j < |Paragraph| ensures LowerChar(text[i + 4 + j]) == Paragraph[j] {
      FoldedAtChar(text, NewParagraph, i, 4 + j);
    }
    assert Lower(text[i + 4..][..|Paragraph|]) == Paragraph;
    assert FoldedAt(text, Paragraph, i + 4);
  }

  ghost predicate SaysLineBreak(text: string) {
    OccursFolded(text, NewLine) || OccursFolded(text, LineBreak)
  }

  /** Without any command phrase the transcript is returned unchanged. */
  lemma NoCommandUnchanged(text: string)
    requires !SaysLineBreak(text) && !OccursFolded(text, Paragraph)
    ensures ProcessVoiceCommands(text) == text
  {
    IncludesLowerIsOccurs(text, NewLine);
    IncludesLowerIsOccurs(text, LineBreak);
    IncludesLowerIsOccurs(text, Paragraph);
    IncludesLowerIsOccurs(text, NewParagraph);
    if OccursFolded(text, NewParagraph) {
      NewParagraphSaysParagraph(text);
    }
  }

  /** "paragraph" shares no character with the start of a line-break phrase, nor 'p' with them. */
  lemma ParagraphSurvivesLineBreaks(text: string, i: int)
    requires FoldedAt(text, Paragraph, i)
    ensures i + |Paragraph| <= |text|
    ensures ReplacePhrases(text, LineBreakPhrases, LineBreakMarkup) ==
      ReplacePhrases(text[..i], LineBreakPhrases, LineBreakMarkup) + text[i..i + |Paragraph|]
      + ReplacePhrases(text[i + |Paragraph|..], LineBreakPhrases, LineBreakMarkup)
  {
    ParagraphAvoidsLineBreaks();
    WordSurvives(text, LineBreakPhrases, LineBreakMarkup, Paragraph, i);
  }

  lemma ParagraphAvoidsLineBreaks()
    ensures forall k, j :: 0 <= k < |LineBreakPhrases| && 0 <= j < |Paragraph| ==>
      Paragraph[j] != LineBreakPhrases[k][0]
    ensures forall k :: 0 <= k < |LineBreakPhrases| ==> Paragraph[0] !in LineBreakPhrases[k]
  {
    assert LineBreakPhrases[0][0] == 'n' && LineBreakPhrases[1][0] == 'l';
    assert forall j :: 0 <= j < |Paragraph| ==> Paragraph[j] in {'p', 'a', 'r', 'g', 'h'};
    assert 'p' !in LineBreakPhrases[0] && 'p' !in LineBreakPhrases[1];
  }

  lemma LineBreakBranch(text: string)
    requires SaysLineBreak(text)
    ensures ProcessVoiceCommands(text) == ReplacePhrases(text, LineBreakPhrases, LineBreakMarkup)
  {
    IncludesLowerIsOccurs(text, NewLine);
    IncludesLowerIsOccurs(text, LineBreak);
  }

  /** After the line-break rewrite neither line-break phrase is left. */
  lemma NoLineBreakLeft(text: string)
    ensures !OccursFolded(ReplacePhrases(text, LineBreakPhrases, LineBreakMarkup), NewLine)
    ensures !OccursFolded(ReplacePhrases(text, LineBreakPhrases, LineBreakMarkup), LineBreak)
  {
    NoPhraseRemains(text, LineBreakPhrases, LineBreakMarkup);
    assert LineBreakPhrases[0] == NewLine && LineBreakPhrases[1] == LineBreak;
  }

  /**
   * A line-break phrase takes precedence: every "new line" and "line break" is replaced by
   * "<br>", none is left, and every "paragraph" that was said is kept verbatim, in place,
   * between the rewrites of the text before it and after it.
   */
  lemma LineBreakTakesPrecedence(text: string)
    requires SaysLineBreak(text)
    ensures ProcessVoiceCommands(text) == ReplacePhrases(text, LineBreakPhrases, LineBreakMarkup)
    ensures !OccursFolded(ProcessVoiceCommands(text), NewLine)
    ensures !OccursFolded(ProcessVoiceCommands(text), LineBreak)
    ensures forall i :: FoldedAt(text, Paragraph, i) ==>
      ProcessVoiceCommands(text) ==
        ReplacePhrases(text[..i], LineBreakPhrases, LineBreakMarkup) + text[i..i + |Paragraph|]
        + ReplacePhrases(text[i + |Paragraph|..], LineBreakPhrases, LineBreakMarkup)
  {
    LineBreakBranch(text);
    NoLineBreakLeft(text);
    forall i | FoldedAt(text, Paragraph, i)
      ensures ProcessVoiceCommands(text) ==
        ReplacePhrases(text[..i], LineBreakPhrases, LineBreakMarkup) + text[i..i + |Paragraph|]
        + ReplacePhrases(text[i + |Paragraph|..], LineBreakPhrases, LineBreakMarkup)
    {
      ParagraphSurvivesLineBreaks(text, i);
    }
  }

  /**
   * With no line-break phrase but a paragraph phrase, every "new paragraph" and "paragraph"
   * becomes "<br><br>" and none is left.
   */
  lemma ParagraphWithoutLineBreak(text: string)
    requires !SaysLineBreak(text) && OccursFolded(text, Paragraph)
    ensures ProcessVoiceCommands(text) == ReplacePhrases(text, ParagraphPhrases, ParagraphMarkup)
    ensures !OccursFolded(ProcessVoiceCommands(text), NewParagraph)
    ensures !OccursFolded(ProcessVoiceCommands(text), Paragraph)
  {
    IncludesLowerIsOccurs(text, NewLine);
    IncludesLowerIsOccurs(text, LineBreak);
    IncludesLowerIsOccurs(text, Paragraph);
    NoPhraseRemains(text, ParagraphPhrases, ParagraphMarkup);
    assert ParagraphPhrases[0] == NewParagraph && ParagraphPhrases[1] == Paragraph;
  }
}
