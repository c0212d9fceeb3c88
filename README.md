# Voxscript transcript core in Dafny

Voxscript is a browser extension. It turns speech into text in an editable result
area and can export that text. This project models the three parts of
`voxscript-extension/script.js` that are logic rather than browser wiring. For each
part it proves what the code promises.

- **Edit history** (module `EditHistory`). This is the undo/redo buffer: a list of
  snapshots of the result area, capped at 50 entries, plus a cursor
  (`editHistory`, `historyIndex`).
  - `Log` is the buffer as a value. Its `Save`, `Undo` and `Redo` functions act as the
    specification.
  - `History` is the buffer the page updates in place. It is a class whose methods
    `Save`, `Undo` and `Redo` are each proved to leave the state given by the matching
    `Log` function. `EditButtons` is proved to return, for each button, exactly whether
    `Log.Undo` (or `Log.Redo`) would leave the current state unchanged.
  - The lemmas cover several properties:
    - the invariant (the cursor indexes an entry or is -1, and there are at most 50
      entries);
    - that redo is disabled after a save;
    - eviction of the oldest entry;
    - that undo and redo are inverse;
    - that a disabled button is exactly a click that changes nothing;
    - that N saves from an empty history keep the newest min(N, 50) snapshots.
- **Voice commands** (module `VoiceCommands`). `processVoiceCommands` rewrites spoken
  commands into HTML line breaks:
  - if "new line" or "line break" is present, each one becomes `<br>`;
  - otherwise, if "new paragraph" or "paragraph" is present, each one becomes
    `<br><br>`;
  - otherwise the text is returned unchanged.

  The global, case-insensitive regular-expression replacement is modelled as a
  left-to-right scan. At each position it tries the alternatives in the order the
  regex lists them, and it resumes after each match. The lemmas prove three things:
  line breaks take precedence, no phrase of the chosen kind survives the rewrite, and
  every "paragraph" is kept verbatim, in place, by a line-break rewrite.
- **Export** (module `Export`). The parts of `exportAs`, `exportAsPDF` and
  `exportAsDocx` that compute something are modelled:
  - the trimmed text, and the refusal to export blank text;
  - the file name: the first 19 characters of the ISO instant, with ':' replaced by
    '-';
  - the `switch` on the format;
  - the split into lines and the per-line PDF literal escape with its `Tj T*`
    operators;
  - the chained DOCX escape of `&`, `<` and `>`;
  - the JSON `wordCount` (`split(/\s+/)` followed by removing empty pieces) and
    `characterCount` (`length`).

  Each of these is paired with a partner and an all-inputs lemma:
  - the escapes and the operator stream are paired with a decoder, and proved to be
    round trips;
  - the word count is paired with a direct count of maximal non-whitespace runs;
  - the PDF escape is proved to be the unique well-formed literal for a line.

Shared string primitives are in module `Strings`: the ECMAScript `\s` character
class, ASCII case folding, `includes`, `trim`, and global single-character
replacement. `Wrappers` holds the `Option` type.

Where the natural reading and the code differ, the model follows the code:

- `characterCount` is `text.length`, which counts UTF-16 code units. It equals the
  number of characters only when none lies outside the Basic Multilingual Plane, and
  `Export.CharacterCount` states both bounds.
- The JSON word count is proved equal to the number of maximal runs of
  non-whitespace. The `split(/\s+/)` pieces themselves include an empty first or last
  piece when the text starts or ends with whitespace. These empty pieces are removed
  by the filter.
- The buffer invariant is stated with one extra conjunct that the code maintains
  without checking: the cursor is -1 exactly when the history is empty.

## Model

| member | source | states |
|---|---|---|
| EditHistory.Log.Save | voxscript-extension/script.js:47-58 | Keeps the entries up to the old cursor and drops every later one. Appends the snapshot, evicting exactly the oldest entry when the count would reach 51. The new cursor is on the snapshot, redo is disabled and the invariant holds. |
| EditHistory.Log.Undo | voxscript-extension/script.js:449-456 | Entries are unchanged. The cursor steps back by one exactly when it is past the first entry; otherwise nothing changes. |
| EditHistory.Log.Redo | voxscript-extension/script.js:458-465 | Entries are unchanged. The cursor steps forward by one exactly when it is before the last entry; otherwise nothing changes. |
| EditHistory.ButtonsMatchHandlers | voxscript-extension/script.js:64-67 | The undo (redo) button is disabled if and only if clicking it would leave the buffer unchanged. |
| EditHistory.UndoRedoInverse | voxscript-extension/script.js:449-465 | A successful undo enables redo, and redo restores the buffer; the symmetric statement holds for redo. |
| EditHistory.SaveAllKeepsNewest | voxscript-extension/script.js:50-58 | Saves made with the cursor on the newest entry keep exactly the newest 50 of the old entries followed by the snapshots, with the cursor on the last one. |
| EditHistory.SavesFromEmpty | voxscript-extension/script.js:24-58 | From the initial empty history, N saves leave min(N, 50) entries, which are the newest snapshots in order, with the cursor on the last one. |
| EditHistory.History.constructor | voxscript-extension/script.js:24-25 | The buffer starts empty with cursor -1, and the invariant holds. |
| EditHistory.History.Save | voxscript-extension/script.js:47-61 | The in-place slice, push, increment, shift and decrement produce exactly `Log.Save` of the old state, and the invariant is preserved. |
| EditHistory.History.Undo | voxscript-extension/script.js:449-456 | The new state is `Log.Undo` of the old one. The content shown is the entry now under the cursor, or nothing when undo was disabled. |
| EditHistory.History.Redo | voxscript-extension/script.js:458-465 | The new state is `Log.Redo` of the old one. The content shown is the entry now under the cursor, or nothing when redo was disabled. |
| EditHistory.History.EditButtons | voxscript-extension/script.js:64-67 | Each button's disabled flag is true exactly when its handler would change nothing. |
| Strings.Includes | voxscript-extension/script.js:182 | `includes` holds exactly when the needle occurs at some index of the text. |
| Strings.IncludesLowerIsOccurs | voxscript-extension/script.js:179-182 | Under ASCII case folding, searching the lower-cased text finds a phrase exactly when the folded matcher used by the rewrite finds it there. (With non-ASCII input the source's two tests can disagree; see "## Left out".) |
| Strings.LowerChar | voxscript-extension/script.js:179 | The result is never an ASCII capital. Capitals map to the letter 32 code points above; everything else is unchanged. |
| Strings.Trim | voxscript-extension/script.js:206 | The result is the text with a whitespace-only prefix and suffix removed, and it neither starts nor ends with whitespace. It is empty exactly when the text is all whitespace. |
| Strings.ReplaceChar | voxscript-extension/script.js:366 | A global single-character replacement introduces no characters other than the replacement's, and it is the identity when the character is absent. |
| VoiceCommands.FirstMatch | voxscript-extension/script.js:183 | The alternative chosen at a position is the first, in regex order, that matches there case-insensitively. None is chosen exactly when no alternative matches. |
| VoiceCommands.NoCommandUnchanged | voxscript-extension/script.js:178-191 | Text containing none of "new line", "line break" or "paragraph", in any case, is returned unchanged. |
| VoiceCommands.LineBreakTakesPrecedence | voxscript-extension/script.js:182-184 | If a line-break phrase occurs, the result is the `<br>` rewrite, and no "new line" or "line break" remains. Every occurrence of "paragraph" is kept verbatim at its place: the result is the rewrite of the text before it, then the occurrence, then the rewrite of the text after it. |
| VoiceCommands.ParagraphWithoutLineBreak | voxscript-extension/script.js:187-189 | With no line-break phrase but a "paragraph", the result is the `<br><br>` rewrite, and no "new paragraph" or "paragraph" remains. |
| VoiceCommands.NoPhraseRemains | voxscript-extension/script.js:183 | After the global rewrite, no alternative occurs anywhere in the output, including across the inserted markup. |
| VoiceCommands.ReplaceSplits | voxscript-extension/script.js:183 | Where no match covers a position, the global rewrite of the text equals the rewrite of the part before that position followed by the rewrite of the part after it. |
| VoiceCommands.WordSurvives | voxscript-extension/script.js:183 | Consider a word none of whose characters starts an alternative and whose first character is in no alternative. Each occurrence of it is kept verbatim in place: the rewrite of the text before it, then the occurrence, then the rewrite of the text after it. |
| VoiceCommands.NewParagraphSaysParagraph | voxscript-extension/script.js:187 | An occurrence of "new paragraph" contains one of "paragraph", so the second test of the condition subsumes the first. |
| Export.DocxEscape | voxscript-extension/script.js:366 | The escaped text contains no raw `<` or `>`. |
| Export.DocxEscapeIsPerChar | voxscript-extension/script.js:366 | The three chained replacements equal escaping each character to its XML entity independently. |
| Export.DocxEscapeRoundTrip | voxscript-extension/script.js:366 | Because `&` is replaced first, decoding `&lt;`, `&gt;` and `&amp;` recovers the original text. |
| Export.PdfEscapeRoundTrip | voxscript-extension/script.js:314 | The escaped line is a well-formed PDF literal (every delimiter is escaped and every backslash escapes a delimiter), and it decodes to the line. |
| Export.PdfEscapeUnique | voxscript-extension/script.js:314 | The escape is the only well-formed literal that decodes to the line, so it adds a backslash before each delimiter and changes nothing else. |
| Export.SplitLines | voxscript-extension/script.js:264 | `split('\n')` yields one more piece than there are newlines, and no piece contains a newline. |
| Export.SplitLinesRoundTrip | voxscript-extension/script.js:264 | Joining the pieces with newlines gives the text back. |
| Export.PdfTextOperators | voxscript-extension/script.js:313-315 | The `forEach` loop that appends one `(<escaped line>) Tj T* ` per line builds exactly the show-operator text of the lines. |
| Export.ShowTextRoundTrip | voxscript-extension/script.js:313-315 | Reading the show operators back yields the lines, with delimiters included. |
| Export.PdfTextRecoverable | voxscript-extension/script.js:264-315 | Reading the operators and joining the lines recovers the whole exported text. |
| Export.WordCountCountsRuns | voxscript-extension/script.js:234 | `split(/\s+/)` followed by the empty-piece filter counts exactly the maximal runs of non-whitespace characters. |
| Export.WordCountOfTrimmed | voxscript-extension/script.js:234 | Trimmed, non-empty text has at least one word. |
| Export.CharacterCount | voxscript-extension/script.js:235 | `text.length` in UTF-16 units lies between the number of characters and twice that. It equals the number of characters exactly when all lie in the Basic Multilingual Plane. |
| Export.TimestampStem | voxscript-extension/script.js:212 | The stem is the first 19 characters of the instant (or all of it when shorter), with every ':' turned into '-' and nothing else changed. |
| Export.StemOfIsoInstant | voxscript-extension/script.js:212-213 | `2024-05-01T12:34:56.789Z` yields the stem `2024-05-01T12-34-56`. |
| Export.DispatchNamesFile | voxscript-extension/script.js:215-243 | Exactly the formats txt, pdf, docx and json produce a download, each named `<stem>.<format>`. |
| Export.ExportAsBlank | voxscript-extension/script.js:206-210 | Nothing is exported, with a warning, exactly when the result text is all whitespace. |
| Export.ExportAsDispatch | voxscript-extension/script.js:212-243 | Text that is not blank is downloaded exactly for the four known formats, under `voxscript-<timestamp>.<format>`. |
| Export.ExportAsPayload | voxscript-extension/script.js:215-242 | Every download carries the trimmed text recoverably: verbatim for txt; as operators that read back to its lines for pdf; as XML text without raw brackets that decodes to it for docx; or, for json, in a record with at least one word and at least as many UTF-16 units as characters. |

## Left out

- Speech recognition is not modelled: `getUserMedia`, the recognition events, the automatic restart after `onspeechend`, the `recording` flag and the error-message switch. These are asynchronous browser APIs. The model takes the recognised text as a parameter.
- The DOM is not modelled: reading `innerHTML` and `innerText`, and showing restored content. Both are parameters or results (`Save` takes the snapshot string; `Undo` and `Redo` return the content to show).
- `showToast`, `alert`, the clipboard copy with its fallback, the dropdown and keyboard listeners, and `downloadFile` with `Blob` and object URLs are not modelled. They are I/O. Keyboard undo and redo go through the same guards as the buttons.
- The clock is not modelled. The ISO instant is a parameter of `Export.ExportAs`.
- The fixed PDF and DOCX templates (headers, object tables, the `/Length` and `startxref` figures) are not modelled. They are constant text around the modelled escape expressions.
- `JSON.stringify`, the language name and code, the version and the export timestamps of the JSON record are not modelled. Only `content`, `wordCount` and `characterCount` are.
- `document.execCommand` for bold and italic is not modelled, and neither are the browser events that trigger saves. These are the unconditional saves on a final recognition result (script.js:95) and after bold (:469) and italic (:476), and the conditional saves in the clear handler (:389-391, only when the text is not blank) and the focus handler (:486-488, only while the history is empty). Each of those saves is a call of `History.Save`. The input handler (:480-482) does not save; it only toggles the export button.
- `populateLanguages` is not modelled. The languages table it reads is not part of this model.
- The success toast shown after an export with an unknown format is not modelled. `ExportAs` returns `NoDownload` for such a format.
- Strings.LowerChar: folds ASCII letters only. JavaScript's `toLowerCase` (script.js:179) folds every script, and some non-ASCII input characters fold to ASCII letters. Then the source's two tests disagree and the model differs from the source. Example: `"line brea\u212A paragraph"`, with U+212A KELVIN SIGN.
  - `toLowerCase` turns U+212A into `k`, so the line-break test at :182 holds.
  - The `/…/gi` regex at :183, which has no `u` flag, canonicalises by upper-casing, and U+212A stays U+212A. So nothing is replaced, and the source returns the text unchanged, "paragraph" included.
  - The model leaves U+212A alone, so its line-break test fails. It takes the paragraph branch and returns `"line brea\u212A <br><br>"`.
  - The model captures only inputs whose folding agrees between `toLowerCase` and the regex. ASCII-only transcripts are such inputs.
- EditHistory.History.Save: like `Undo`, `Redo` and `EditButtons`, it requires the buffer invariant. The page has no such check, but every reachable state satisfies the invariant, which the constructor establishes and each method preserves.
- Characters are Unicode scalar values. Lone UTF-16 surrogates, which a JavaScript string can hold, are not represented.
