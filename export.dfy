/**
 * The text side of exporting a transcript: the trimmed text and its empty-text guard,
 * the timestamped file name, the XML escape of the word-processing body, the escaped
 * string operands of the PDF content stream, and the word and character counts of the
 * JSON record. The fixed document skeletons around these pieces are not modelled.
 */
module Export {
  import opened Wrappers
  import opened Strings

  // ---------------------------------------------------------------------------
  // Word-processing (XML) body
  // ---------------------------------------------------------------------------

  /** The entity each character becomes in XML character data. */
  function XmlEntity(c: char): string {
    if c == '&' then "&amp;" else if c == '<' then "&lt;" else if c == '>' then "&gt;" else [c]
  }

  /** Escapes character by character: the reference the chained replacements are checked against. */
  function XmlEscapeEach(s: string): string {
    if s == [] then [] else XmlEntity(s[0]) + XmlEscapeEach(s[1..])
  }

  /**
   * The body text of the word-processing export: '&' is replaced first, then '<', then '>',
   * each globally.
   */
  function DocxEscape(text: string): (r: string)
    ensures '<' !in r && '>' !in r
  {
    ReplaceChar(ReplaceChar(ReplaceChar(text, '&', "&amp;"), '<', "&lt;"), '>', "&gt;")
  }

  /** What an XML reader makes of character data: the three entities decoded left to right. */
  function XmlUnescape(s: string): string
    decreases |s|
  {
    if |s| >= 4 && s[..4] == "&lt;" then "<" + XmlUnescape(s[4..])
    else if |s| >= 4 && s[..4] == "&gt;" then ">" + XmlUnescape(s[4..])
    else if |s| >= 5 && s[..5] == "&amp;" then "&" + XmlUnescape(s[5..])
    else if s == [] then []
    else [s[0]] + XmlUnescape(s[1..])
  }

  lemma ReplaceSingleton(c: char, d: char, rep: string)
    ensures ReplaceChar([c], d, rep) == if c == d then rep else [c]
  {
    assert [c][1..] == [];
  }

  /** On a single character the chained replacements produce its entity. */
  lemma DocxEscapeChar(x: char)
    ensures DocxEscape([x]) == XmlEntity(x)
  {
    ReplaceSingleton(x, '&', "&amp;");
    if x == '&' {
      assert '<' !in "&amp;" && '>' !in "&amp;";
    } else {
      ReplaceSingleton(x, '<', "&lt;");
      if x == '<' {
        assert '>' !in "&lt;";
      } else {
        ReplaceSingleton(x, '>', "&gt;");
      }
    }
  }

  lemma DocxEscapeAppend(a: string, b: string)
    ensures DocxEscape(a + b) == DocxEscape(a) + DocxEscape(b)
  {
    var a1, b1 := ReplaceChar(a, '&', "&amp;"), ReplaceChar(b, '&', "&amp;");
    var a2, b2 := ReplaceChar(a1, '<', "&lt;"), ReplaceChar(b1, '<', "&lt;");
    ReplaceCharAppend(a, b, '&', "&amp;");
    ReplaceCharAppend(a1, b1, '<', "&lt;");
    ReplaceCharAppend(a2, b2, '>', "&gt;");
  }

  /** The three chained replacements escape one character at a time. */
  lemma {:induction false} DocxEscapeIsPerChar(s: string)
    ensures DocxEscape(s) == XmlEscapeEach(s)
  {
    if s != [] {
      assert s == [s[0]] + s[1..];
      DocxEscapeAppend([s[0]], s[1..]);
      DocxEscapeChar(s[0]);
      DocxEscapeIsPerChar(s[1..]);
    }
  }

  lemma XmlUnescapeEntity(c: char, t: string)
    ensures XmlUnescape(XmlEntity(c) + t) == [c] + XmlUnescape(t)
  {
    var e := XmlEntity(c) + t;
    if c == '&' {
      assert e[..5] == "&amp;" && e[5..] == t;
      assert e[..4][1] == 'a';
    } else if c == '<' {
      assert e[..4] == "&lt;" && e[4..] == t;
    } else if c == '>' {
      assert e[..4] == "&gt;" && e[4..] == t;
      assert e[..4][1] == 'g';
    } else {
      assert e[0] == c && e[1..] == t;
      assert |e| >= 4 ==> e[..4][0] == c;
      assert |e| >= 5 ==> e[..5][0] == c;
    }
  }

  /** Because '&' is escaped first, decoding the entities gives the text back. */
  lemma {:induction false} DocxEscapeRoundTrip(text: string)
    ensures XmlUnescape(DocxEscape(text)) == text
  {
    DocxEscapeIsPerChar(text);
    EscapeEachRoundTrip(text);
  }

  lemma {:induction false} EscapeEachRoundTrip(s: string)
    ensures XmlUnescape(XmlEscapeEach(s)) == s
  {
    if s != [] {
      XmlUnescapeEntity(s[0], XmlEscapeEach(s[1..]));
      EscapeEachRoundTrip(s[1..]);
    }
  }

  // ---------------------------------------------------------------------------
  // PDF content stream
  // ---------------------------------------------------------------------------

  /** The characters with a meaning inside a PDF literal string. */
  predicate IsPdfDelimiter(c: char) {
    c == '(' || c == ')' || c == '\\'
  }

  /** `line.replace(/[()\\]/g, '\\$&')`: a backslash goes before every delimiter. */
  function PdfEscape(line: string): string {
    if line == [] then []
    else (if IsPdfDelimiter(line[0]) then ['\\', line[0]] else [line[0]]) + PdfEscape(line[1..])
  }

  /** How a PDF reader decodes the escapes of a literal string. */
  function PdfUnescape(t: string): string
    decreases |t|
  {
    if t == [] then []
    else if t[0] == '\\' && |t| >= 2 then [t[1]] + PdfUnescape(t[2..])
    else [t[0]] + PdfUnescape(t[1..])
  }

  /** Every delimiter is escaped and every backslash starts an escape of a delimiter. */
  predicate WellEscaped(t: string)
    decreases |t|
  {
    if t == [] then true
    else if t[0] == '\\' then |t| >= 2 && IsPdfDelimiter(t[1]) && WellEscaped(t[2..])
    else !IsPdfDelimiter(t[0]) && WellEscaped(t[1..])
  }

  /** The escape is well formed and decodes back to the line. */
  lemma {:induction false} PdfEscapeRoundTrip(line: string)
    ensures WellEscaped(PdfEscape(line))
    ensures PdfUnescape(PdfEscape(line)) == line
  {
    if line != [] {
      var c, e := line[0], PdfEscape(line[1..]);
      PdfEscapeRoundTrip(line[1..]);
      if IsPdfDelimiter(c) {
        assert PdfEscape(line) == ['\\', c] + e;
        assert (['\\', c] + e)[2..] == e;
      } else {
        assert PdfEscape(line) == [c] + e;
        assert ([c] + e)[1..] == e;
      }
    }
  }

  /**
   * The escape changes nothing but the delimiters: it is the only well-formed literal that
   * decodes to the line.
   */
  lemma {:induction false} PdfEscapeUnique(t: string, line: string)
    requires WellEscaped(t) && PdfUnescape(t) == line
    ensures t == PdfEscape(line)
    decreases |t|
  {
    if t != [] {
      if t[0] == '\\' {
        PdfEscapeUnique(t[2..], line[1..]);
        assert t == ['\\', t[1]] + t[2..];
      } else {
        PdfEscapeUnique(t[1..], line[1..]);
        assert t == [t[0]] + t[1..];
      }
    }
  }

  function CountChar(s: string, c: char): nat {
    if s == [] then 0 else (if s[0] == c then 1 else 0) + CountChar(s[1..], c)
  }

  /** `text.split('\n')`. */
  function SplitLines(s: string): (lines: seq<string>)
    ensures |lines| == CountChar(s, '\n') + 1
    ensures forall i :: 0 <= i < |lines| ==> '\n' !in lines[i]
    decreases |s|
  {
    if s == [] then [""]
    else
      var rest := SplitLines(s[1..]);
      if s[0] == '\n' then [""] + rest else [[s[0]] + rest[0]] + rest[1..]
  }

  /** `lines.join('\n')`. */
  function JoinLines(lines: seq<string>): string
    requires |lines| >= 1
  {
    if |lines| == 1 then lines[0] else lines[0] + "\n" + JoinLines(lines[1..])
  }

  /** Splitting at line feeds and joining with line feeds gives the text back. */
  lemma {:induction false} SplitLinesRoundTrip(s: string)
    ensures JoinLines(SplitLines(s)) == s
  {
    if s != [] {
      var rest := SplitLines(s[1..]);
      SplitLinesRoundTrip(s[1..]);
      if s[0] == '\n' {
        assert ([""] + rest)[1..] == rest;
      } else {
        var lines := [[s[0]] + rest[0]] + rest[1..];
        assert lines[1..] == rest[1..];
      }
    }
  }

  /** The operator that shows one line and moves to the next: `(<escaped line>) Tj T* `. */
  function ShowLine(line: string): string {
    "(" + PdfEscape(line) + ") Tj T* "
  }

  /** The show operators for all lines, in order. */
  function ShowText(lines: seq<string>): string {
    if lines == [] then [] else ShowLine(lines[0]) + ShowText(lines[1..])
  }

  lemma ShowTextAppend(lines: seq<string>, line: string)
    ensures ShowText(lines + [line]) == ShowText(lines) + ShowLine(line)
  {
    if lines != [] {
      assert (lines + [line])[1..] == lines[1..] + [line];
      ShowTextAppend(lines[1..], line);
    } else {
      assert [line][1..] == [];
    }
  }

  /** The text part of the PDF content stream: one show operator per line of the text. */
  method PdfTextOperators(text: string) returns (body: string)
    ensures body == ShowText(SplitLines(text))
  {
    var lines := SplitLines(text);
    body := "";
    for i := 0 to |lines|
      invariant body == ShowText(lines[..i])
    {
      assert lines[..i + 1] == lines[..i] + [lines[i]];
      ShowTextAppend(lines[..i], lines[i]);
      body := body + ShowLine(lines[i]);
    }
    assert lines[..|lines|] == lines;
  }

  /**
   * Reads a literal string's contents up to its unescaped closing parenthesis, returning the
   * decoded contents and what follows the parenthesis.
   */
  function ReadLiteral(t: string): (r: Option<(string, string)>)
    ensures r.Some? ==> |r.value.1| < |t|
    decreases |t|
  {
    if t == [] then None
    else if t[0] == ')' then Some(([], t[1..]))
    else if t[0] == '\\' && |t| >= 2 then
      match ReadLiteral(t[2..])
      case Some(p) => Some(([t[1]] + p.0, p.1))
      case None => None
    else
      match ReadLiteral(t[1..])
      case Some(p) => Some(([t[0]] + p.0, p.1))
      case None => None
  }

  const ShowSuffix: string := " Tj T* "

  /** How a reader recovers the lines from a sequence of show operators. */
  function ParseShowText(body: string): Option<seq<string>>
    decreases |body|
  {
    if body == [] then Some([])
    else if body[0] != '(' then None
    else match ReadLiteral(body[1..])
      case None => None
      case Some(p) =>
        if |p.1| >= |ShowSuffix| && p.1[..|ShowSuffix|] == ShowSuffix then
          match ParseShowText(p.1[|ShowSuffix|..])
          case Some(lines) => Some([p.0] + lines)
          case None => None
        else None
  }

  lemma {:induction false} ReadEscapedLiteral(line: string, rest: string)
    ensures ReadLiteral(PdfEscape(line) + ")" + rest) == Some((line, rest))
  {
    var t := PdfEscape(line) + ")" + rest;
    if line == [] {
      assert t == ")" + rest;
    } else {
      var c, e := line[0], PdfEscape(line[1..]);
      ReadEscapedLiteral(line[1..], rest);
      var tail := e + ")" + rest;
      if IsPdfDelimiter(c) {
        assert t == ['\\', c] + tail;
        assert t[2..] == tail;
      } else {
        assert t == [c] + tail;
        assert t[1..] == tail;
        assert t[0] != ')' && t[0] != '\\';
      }
      assert line == [c] + line[1..];
    }
  }

  lemma ParseShowLine(line: string, more: string)
    ensures ParseShowText(ShowLine(line) + more) ==
      match ParseShowText(more)
      case Some(lines) => Some([line] + lines)
      case None => None
  {
    ReadEscapedLiteral(line, ShowSuffix + more);
    ParseOneShow(PdfEscape(line), line, more);
  }

  /** One show operator whose literal reads back as `line`, followed by `more`. */
  lemma ParseOneShow(esc: string, line: string, more: string)
    requires ReadLiteral(esc + ")" + (ShowSuffix + more)) == Some((line, ShowSuffix + more))
    ensures ParseShowText("(" + esc + ") Tj T* " + more) ==
      match ParseShowText(more)
      case Some(lines) => Some([line] + lines)
      case None => None
  {
    var body := "(" + esc + ") Tj T* " + more;
    var after := ShowSuffix + more;
    assert body[1..] == esc + ")" + after;
    assert after[..|ShowSuffix|] == ShowSuffix;
    assert after[|ShowSuffix|..] == more;
  }

  /** The show operators can be read back: every line, delimiters included, is recovered. */
  lemma {:induction false} ShowTextRoundTrip(lines: seq<string>)
    ensures ParseShowText(ShowText(lines)) == Some(lines)
  {
    if lines != [] {
      ParseShowLine(lines[0], ShowText(lines[1..]));
      ShowTextRoundTrip(lines[1..]);
      assert [lines[0]] + lines[1..] == lines;
    }
  }

  /** The PDF content stream shows the whole text: reading its operators and joining gives it back. */
  lemma PdfTextRecoverable(text: string)
    ensures ParseShowText(ShowText(SplitLines(text))) == Some(SplitLines(text))
    ensures JoinLines(SplitLines(text)) == text
  {
    ShowTextRoundTrip(SplitLines(text));
    SplitLinesRoundTrip(text);
  }

  // ---------------------------------------------------------------------------
  // JSON record counts
  // ---------------------------------------------------------------------------

  /** The longest prefix of `s` without whitespace. */
  function LeadingWord(s: string): (w: string)
    ensures |w| <= |s| && w == s[..|w|]
    ensures forall j :: 0 <= j < |w| ==> !IsWhitespace(w[j])
    ensures |w| < |s| ==> IsWhitespace(s[|w|])
  {
    if s == [] || IsWhitespace(s[0]) then [] else [s[0]] + LeadingWord(s[1..])
  }

  /**
   * `text.split(/\s+/)`: the pieces between maximal whitespace runs, with an empty first
   * piece when the text starts with whitespace and an empty last one when it ends with it.
   */
  function SplitOnWhitespace(s: string): (pieces: seq<string>)
    ensures |pieces| >= 1
    decreases |s|
  {
    var w := LeadingWord(s);
    var rest := s[|w|..];
    if rest == [] then [w] else [w] + SplitOnWhitespace(TrimStart(rest))
  }

  /** `.filter(word => word.length > 0)`. */
  function NonEmptyWords(pieces: seq<string>): seq<string> {
    if pieces == [] then []
    else (if pieces[0] == [] then [] else [pieces[0]]) + NonEmptyWords(pieces[1..])
  }

  /** The `wordCount` of the JSON export. */
  function WordCount(text: string): nat {
    |NonEmptyWords(SplitOnWhitespace(text))|
  }

  /**
   * The number of words in `s` counted directly: positions holding a non-whitespace
   * character that is first or follows whitespace (`afterSpace` says whether the
   * character before `s` is whitespace or absent).
   */
  function WordStarts(s: string, afterSpace: bool): nat {
    if s == [] then 0
    else (if afterSpace && !IsWhitespace(s[0]) then 1 else 0) + WordStarts(s[1..], IsWhitespace(s[0]))
  }

  lemma {:induction false} WordStartsOverWord(w: string, t: string, afterSpace: bool)
    requires w != [] && forall j :: 0 <= j < |w| ==> !IsWhitespace(w[j])
    ensures WordStarts(w + t, afterSpace) == (if afterSpace then 1 else 0) + WordStarts(t, false)
    decreases |w|
  {
    assert (w + t)[1..] == w[1..] + t;
    if |w| > 1 {
      WordStartsOverWord(w[1..], t, false);
    }
  }

  lemma {:induction false} WordStartsOverSpace(u: string, t: string, afterSpace: bool)
    requires u != [] && forall j :: 0 <= j < |u| ==> IsWhitespace(u[j])
    ensures WordStarts(u + t, afterSpace) == WordStarts(t, true)
    decreases |u|
  {
    assert (u + t)[1..] == u[1..] + t;
    if |u| > 1 {
      WordStartsOverSpace(u[1..], t, true);
    }
  }

  lemma NonEmptyWordsCons(w: string, pieces: seq<string>)
    ensures |NonEmptyWords([w] + pieces)| == (if w == [] then 0 else 1) + |NonEmptyWords(pieces)|
  {
    assert ([w] + pieces)[1..] == pieces;
  }

  /** A word, then a whitespace run, then text that does not start with whitespace. */
  lemma SplitParts(s: string, w: string, t: string)
    requires |w| < |s| && w == s[..|w|] && IsWhitespace(s[|w|])
    requires |t| <= |s| - |w| && t == s[|w|..][|s| - |w| - |t|..]
    requires forall j :: 0 <= j < |s| - |w| - |t| ==> IsWhitespace(s[|w|..][j])
    requires t == [] || !IsWhitespace(t[0])
    ensures var u := s[|w|..][..|s| - |w| - |t|];
            && u != [] && (forall j :: 0 <= j < |u| ==> IsWhitespace(u[j]))
            && s == w + (u + t)
  {
    var rest := s[|w|..];
    assert IsWhitespace(rest[0]);
    assert rest == rest[..|rest| - |t|] + t;
    assert s == w + rest;
  }

  /** Past the leading word, the text is a non-empty whitespace run followed by its trimmed rest. */
  lemma SplitStep(s: string)
    requires |LeadingWord(s)| < |s|
    ensures var w := LeadingWord(s);
            var t := TrimStart(s[|w|..]);
            var u := s[|w|..][..|s| - |w| - |t|];
            && u != [] && (forall j :: 0 <= j < |u| ==> IsWhitespace(u[j]))
            && s == w + (u + t)
            && SplitOnWhitespace(s) == [w] + SplitOnWhitespace(t)
  {
    SplitParts(s, LeadingWord(s), TrimStart(s[|LeadingWord(s)|..]));
  }

  /** The word count is the number of maximal runs of non-whitespace characters. */
  lemma {:induction false} WordCountCountsRuns(s: string)
    ensures WordCount(s) == WordStarts(s, true)
    decreases |s|
  {
    var w := LeadingWord(s);
    if |w| == |s| {
      assert s == w + [];
      if w != [] {
        WordStartsOverWord(w, [], true);
      }
      assert s[|w|..] == [];
      assert SplitOnWhitespace(s) == [w];
      NonEmptyWordsCons(w, []);
      assert [w] + [] == [w];
      assert WordCount(s) == (if w == [] then 0 else 1);
    } else {
      SplitStep(s);
      var t := TrimStart(s[|w|..]);
      var u := s[|w|..][..|s| - |w| - |t|];
      WordCountCountsRuns(t);
      NonEmptyWordsCons(w, SplitOnWhitespace(t));
      WordStartsOverSpace(u, t, w == []);
      if w != [] {
        WordStartsOverWord(w, u + t, true);
      }
    }
  }

  /** Trimmed text that is not empty has at least one word. */
  lemma WordCountOfTrimmed(text: string)
    requires text != [] && !IsWhitespace(text[0])
    ensures WordCount(text) >= 1
  {
    WordCountCountsRuns(text);
  }

  /**
   * The `characterCount` of the JSON export: `text.length` counts UTF-16 code units, so a
   * character outside the Basic Multilingual Plane counts twice.
   */
  function CharacterCount(text: string): (n: nat)
    ensures |text| <= n <= 2 * |text|
    ensures n == |text| <==> forall i :: 0 <= i < |text| ==> text[i] as int <= 0xFFFF
  {
    if text == [] then 0
    else (if text[0] as int > 0xFFFF then 2 else 1) + CharacterCount(text[1..])
  }

  // ---------------------------------------------------------------------------
  // File name and the export dispatch
  // ---------------------------------------------------------------------------

  const TimestampLength: nat := 19

  /**
   * The timestamp in the file name: the first 19 characters of an ISO-8601 instant
   * (date and time to the second) with every ':' replaced by '-'.
   */
  function TimestampStem(iso: string): (stem: string)
    ensures |stem| == if |iso| < TimestampLength then |iso| else TimestampLength
    ensures ':' !in stem
    ensures forall i :: 0 <= i < |stem| ==> stem[i] == if iso[i] == ':' then '-' else iso[i]
  {
    var head := if |iso| < TimestampLength then iso else iso[..TimestampLength];
    ReplaceCharByChar(head, ':', '-');
    ReplaceChar(head, ':', "-")
  }

  /** `voxscript-<timestamp>.<extension>`. */
  function FileName(iso: string, extension: string): string {
    "voxscript-" + TimestampStem(iso) + "." + extension
  }

  /** An instant as `toISOString` writes it yields `YYYY-MM-DDTHH-MM-SS`. */
  lemma StemOfIsoInstant()
    ensures TimestampStem("2024-05-01T12:34:56.789Z") == "2024-05-01T12-34-56"
  {
    var stem := TimestampStem("2024-05-01T12:34:56.789Z");
    assert |stem| == 19;
    forall i | 0 <= i < 19 ensures stem[i] == "2024-05-01T12-34-56"[i] {
    }
  }

  /** What the export writes, per format. */
  datatype Payload =
    | PlainText(text: string)
    | PdfText(operators: string)
    | DocxText(body: string)
    | JsonRecord(content: string, wordCount: nat, characterCount: nat)

  datatype ExportResult =
    | NothingToExport              // warning shown, nothing saved
    | Download(filename: string, payload: Payload)
    | NoDownload                   // an unknown format: nothing saved

  /**
   * `exportAs(format)`, given the editor's rendered text and the current instant as an
   * ISO-8601 string.
   */
  function ExportAs(format: string, innerText: string, isoNow: string): ExportResult {
    var text := Trim(innerText);
    if text == [] then NothingToExport
    else Dispatch(format, text, "voxscript-" + TimestampStem(isoNow))
  }

  /** The `switch` on the format, for trimmed text `text` and the file stem `name`. */
  function Dispatch(format: string, text: string, name: string): ExportResult {
    if format == "txt" then Download(name + ".txt", PlainText(text))
    else if format == "pdf" then Download(name + ".pdf", PdfText(ShowText(SplitLines(text))))
    else if format == "docx" then Download(name + ".docx", DocxText(DocxEscape(text)))
    else if format == "json" then
      Download(name + ".json", JsonRecord(text, WordCount(text), CharacterCount(text)))
    else NoDownload
  }

  /** Exactly the four known formats are saved, each under `name.<format>`. */
  lemma DispatchNamesFile(format: string, text: string, name: string)
    ensures Dispatch(format, text, name).Download? <==> format in ["txt", "pdf", "docx", "json"]
    ensures Dispatch(format, text, name).Download? ==>
      Dispatch(format, text, name).filename == name + "." + format
  {
    if format == "txt" {
      assert name + "." + format == name + ".txt";
    } else if format == "pdf" {
      assert name + "." + format == name + ".pdf";
    } else if format == "docx" {
      assert name + "." + format == name + ".docx";
    } else if format == "json" {
      assert name + "." + format == name + ".json";
    }
  }

  /** Exporting saves nothing, with a warning, exactly when the text is blank. */
  lemma ExportAsBlank(format: string, innerText: string, isoNow: string)
    ensures ExportAs(format, innerText, isoNow).NothingToExport? <==> AllWhitespace(innerText)
  {
  }

  /**
   * Text that is not blank is saved exactly for the four known formats, in a file named
   * after the instant and the format.
   */
  lemma ExportAsDispatch(format: string, innerText: string, isoNow: string)
    requires !AllWhitespace(innerText)
    ensures ExportAs(format, innerText, isoNow).Download? <==> format in ["txt", "pdf", "docx", "json"]
    ensures ExportAs(format, innerText, isoNow).Download? ==>
      ExportAs(format, innerText, isoNow).filename == FileName(isoNow, format)
  {
    DispatchNamesFile(format, Trim(innerText), "voxscript-" + TimestampStem(isoNow));
  }

  /**
   * Every payload carries the trimmed, non-empty text recoverably: verbatim, as show
   * operators that read back to its lines, as escaped XML that decodes to it, or in a JSON
   * record that counts at least one word.
   */
  lemma ExportAsPayload(format: string, innerText: string, isoNow: string)
    requires ExportAs(format, innerText, isoNow).Download?
    ensures match ExportAs(format, innerText, isoNow).payload
      case PlainText(t) => t == Trim(innerText) && t != []
      case PdfText(ops) => ParseShowText(ops) == Some(SplitLines(Trim(innerText)))
      case DocxText(body) => '<' !in body && '>' !in body && XmlUnescape(body) == Trim(innerText)
      case JsonRecord(t, words, chars) => t == Trim(innerText) && words >= 1 && chars >= |t| >= 1
  {
    var text := Trim(innerText);
    if format == "pdf" {
      PdfTextRecoverable(text);
    } else if format == "docx" {
      DocxEscapeRoundTrip(text);
    } else if format == "json" {
      WordCountOfTrimmed(text);
    }
  }
}
