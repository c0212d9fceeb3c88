/**
 * String primitives shared by the voice-command rewriter and the export helpers:
 * the whitespace class of JavaScript regular expressions, ASCII case folding,
 * substring search, trimming and global single-character replacement.
 */
module Strings {

  /**
   * The characters matched by `\s` in a JavaScript regular expression and removed by
   * `String.prototype.trim`: the WhiteSpace and LineTerminator characters of ECMAScript.
   */
  predicate IsWhitespace(c: char) {
    c == '\t' || c == '\n' || c == '\U{0B}' || c == '\U{0C}' || c == '\r' || c == ' '
    || c == '\U{A0}' || c == '\U{1680}' || ('\U{2000}' <= c <= '\U{200A}')
    || c == '\U{2028}' || c == '\U{2029}' || c == '\U{202F}' || c == '\U{205F}'
    || c == '\U{3000}' || c == '\U{FEFF}'
  }

  predicate IsUpperAscii(c: char) {
    'A' <= c <= 'Z'
  }

  /** Lower-cases an ASCII capital letter and leaves every other character alone. */
  function LowerChar(c: char): (r: char)
    ensures !IsUpperAscii(r)
    ensures !IsUpperAscii(c) ==> r == c
    ensures IsUpperAscii(c) ==> 'a' <= r <= 'z' && r as int - c as int == 32
  {
    if IsUpperAscii(c) then (c as int + 32) as char else c
  }

  /** `toLowerCase`, restricted to ASCII case folding. */
  function Lower(s: string): (r: string)
    ensures |r| == |s|
  {
    seq(|s|, i requires 0 <= i < |s| => LowerChar(s[i]))
  }

  lemma LowerSlice(s: string, i: int, j: int)
    requires 0 <= i <= j <= |s|
    ensures Lower(s)[i..j] == Lower(s[i..j])
  {
  }

  /** `needle` occurs in `hay` starting at index `i`. */
  predicate InfixAt(hay: string, needle: string, i: int) {
    0 <= i && i + |needle| <= |hay| && hay[i..i + |needle|] == needle
  }

  /** `hay.includes(needle)`: exact, case-sensitive substring search. */
  function Includes(hay: string, needle: string): (b: bool)
    ensures b <==> exists i :: InfixAt(hay, needle, i)
    decreases |hay|
  {
    if |hay| < |needle| then false
    else if hay[..|needle|] == needle then
      assert InfixAt(hay, needle, 0);
      true
    else
      var rest := Includes(hay[1..], needle);
      forall i | 0 < i && InfixAt(hay, needle, i) ensures InfixAt(hay[1..], needle, i - 1) {
        assert hay[1..][i - 1..i - 1 + |needle|] == hay[i..i + |needle|];
      }
      if rest then
        var k :| InfixAt(hay[1..], needle, k);
        assert hay[1..][k..k + |needle|] == hay[k + 1..k + 1 + |needle|];
        assert InfixAt(hay, needle, k + 1);
        true
      else
        false
  }

  /** True when `s` begins with `phrase`, compared case-insensitively (`phrase` is lower case). */
  predicate StartsWithFolded(s: string, phrase: string) {
    |phrase| <= |s| && Lower(s[..|phrase|]) == phrase
  }

  /** `phrase` occurs in `s` at index `i`, compared case-insensitively. */
  predicate FoldedAt(s: string, phrase: string, i: int) {
    0 <= i <= |s| && StartsWithFolded(s[i..], phrase)
  }

  /** `phrase` occurs somewhere in `s`, compared case-insensitively. */
  ghost predicate OccursFolded(s: string, phrase: string) {
    exists i :: FoldedAt(s, phrase, i)
  }

  /** Searching the lower-cased text, as the source does, finds exactly the folded occurrences. */
  lemma IncludesLowerIsOccurs(s: string, phrase: string)
    ensures Includes(Lower(s), phrase) <==> OccursFolded(s, phrase)
  {
    if Includes(Lower(s), phrase) {
      var i :| InfixAt(Lower(s), phrase, i);
      LowerSlice(s, i, i + |phrase|);
      assert s[i..][..|phrase|] == s[i..i + |phrase|];
      assert FoldedAt(s, phrase, i);
    }
    if OccursFolded(s, phrase) {
      var i :| FoldedAt(s, phrase, i);
      assert s[i..][..|phrase|] == s[i..i + |phrase|];
      LowerSlice(s, i, i + |phrase|);
      assert InfixAt(Lower(s), phrase, i);
    }
  }

  /** Removes leading whitespace. */
  function TrimStart(s: string): (r: string)
    ensures |r| <= |s| && r == s[|s| - |r|..]
    ensures forall j :: 0 <= j < |s| - |r| ==> IsWhitespace(s[j])
    ensures AllWhitespace(s[..|s| - |r|])
    ensures r == [] || !IsWhitespace(r[0])
    decreases |s|
  {
    if s != [] && IsWhitespace(s[0]) then TrimStart(s[1..]) else s
  }

  /** Removes trailing whitespace. */
  function TrimEnd(s: string): (r: string)
    ensures |r| <= |s| && r == s[..|r|]
    ensures forall j :: |r| <= j < |s| ==> IsWhitespace(s[j])
    ensures AllWhitespace(s[|r|..])
    ensures r == [] || !IsWhitespace(r[|r| - 1])
    decreases |s|
  {
    if s != [] && IsWhitespace(s[|s| - 1]) then TrimEnd(s[..|s| - 1]) else s
  }

  ghost predicate AllWhitespace(s: string) {
    forall j :: 0 <= j < |s| ==> IsWhitespace(s[j])
  }

  /** `r` is `s` with the whitespace-only prefix `s[..lead]` and a whitespace-only suffix removed. */
  ghost predicate TrimmedAt(s: string, r: string, lead: int) {
    0 <= lead <= |s| - |r| && s[lead..lead + |r|] == r
    && AllWhitespace(s[..lead]) && AllWhitespace(s[lead + |r|..])
  }

  /** Trimming the start and then the end leaves `s` less a whitespace prefix and suffix. */
  lemma TrimmedFromParts(s: string, t: string, r: string)
    requires |t| <= |s| && t == s[|s| - |t|..] && AllWhitespace(s[..|s| - |t|])
    requires |r| <= |t| && r == t[..|r|] && AllWhitespace(t[|r|..])
    ensures TrimmedAt(s, r, |s| - |t|)
  {
    var lead := |s| - |t|;
    assert s[lead..lead + |r|] == r;
    assert s[lead + |r|..] == t[|r|..];
  }

  lemma TrimBothEnds(s: string)
    ensures TrimmedAt(s, TrimEnd(TrimStart(s)), |s| - |TrimStart(s)|)
  {
    TrimmedFromParts(s, TrimStart(s), TrimEnd(TrimStart(s)));
  }

  /**
   * `String.prototype.trim`: the result is what is left of `s` after removing a
   * whitespace prefix and a whitespace suffix, and it neither begins nor ends with whitespace.
   */
  function Trim(s: string): (r: string)
    ensures r == [] || (!IsWhitespace(r[0]) && !IsWhitespace(r[|r| - 1]))
    ensures exists lead :: TrimmedAt(s, r, lead)
    ensures r == [] <==> AllWhitespace(s)
  {
    TrimBothEnds(s);
    TrimEnd(TrimStart(s))
  }

  /** `s.replace(/c/g, rep)`: every occurrence of `c` is replaced by `rep`, left to right. */
  function ReplaceChar(s: string, c: char, rep: string): (r: string)
    ensures forall d :: d in r ==> (d in s && d != c) || d in rep
    ensures c !in s ==> r == s
  {
    if s == [] then []
    else (if s[0] == c then rep else [s[0]]) + ReplaceChar(s[1..], c, rep)
  }

  lemma {:induction false} ReplaceCharAppend(a: string, b: string, c: char, rep: string)
    ensures ReplaceChar(a + b, c, rep) == ReplaceChar(a, c, rep) + ReplaceChar(b, c, rep)
  {
    if a == [] {
      assert a + b == b;
    } else {
      assert (a + b)[1..] == a[1..] + b;
      ReplaceCharAppend(a[1..], b, c, rep);
    }
  }

  /** Replacing a character by another single character keeps every position and length. */
  lemma {:induction false} ReplaceCharByChar(s: string, c: char, d: char)
    ensures |ReplaceChar(s, c, [d])| == |s|
    ensures forall i :: 0 <= i < |s| ==> ReplaceChar(s, c, [d])[i] == if s[i] == c then d else s[i]
  {
    if s != [] {
      ReplaceCharByChar(s[1..], c, d);
    }
  }
}
