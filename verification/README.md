# code-break splitter, modelled in Dafny

code-break is a single-page tool. The user pastes one combined HTML
document, and the tool splits it into three texts:

- the CSS, gathered from the `<style>` elements;
- the JavaScript, gathered from the `<script>` elements;
- the HTML structure, which is the document with those elements cut out.

It keeps the three results in module-level variables, shows line counts for
them, can clear them, and can package the non-empty ones in a ZIP archive.

This project models that core of `script.js`:

- `text.dfy` (module `Text`) models `String.prototype.trim` with JavaScript's
  white-space set, `Array.prototype.join`, `split('\n')`, and the ASCII case
  folding of the `i` flag.
- `scan.dfy` (module `Scanner`) models the global scan that `match` and
  `replace` perform for a `g` regular expression. It takes a match finder as a
  parameter. It shows the following:
  - the matches are ordered and do not overlap;
  - `replace(re, "")` keeps exactly the text outside them;
  - the scan skips over text where no match starts;
  - the scan passes through a position that no match crosses.
- `matcher.dfy` (module `Matcher`) models the two regular expressions built
  around a tag name t:
  - the element pattern `/<t[^>]*>[\s\S]*?<\/t>/gi`;
  - the tag pattern `/<t[^>]*>|<\/t>/gi`.

  `MatchEnd` computes where the match that starts at a position ends. The
  model proves that this agrees with a declarative description of an element
  or a tag. It also proves that the scan is the unique leftmost,
  non-overlapping series of matches.
- `extractor.dfy` (module `Extractor`) models the three outputs of
  `splitHTML`, and what they contain for documents made of whole elements.
- `workspace.dfy` (module `Workspace`) models the page state:
  - a `Splitter` class holding `htmlContent`, `cssContent` and `jsContent`;
  - `Split` (`splitHTML`), `Clear` (`clearAll`), `Stats` (`updateStats`) and
    `DownloadAll` (`downloadZIP`);
  - the rule that chooses the archive's files.

## Model

| member | source | states |
|---|---|---|
| Text.TrimIsTheCore | script.js:51-54 | `trim()` returns the empty string exactly when the text is all white space, and its result neither starts nor ends with white space |
| Text.TrimStartIsLongestSuffix | script.js:58 | the leading white space removed is the longest all-white-space prefix: what is left is a suffix that is empty or starts with a non-space |
| Text.TrimEndIsLongestPrefix | script.js:68 | the trailing white space removed is the longest all-white-space suffix: what is left is a prefix that is empty or ends with a non-space |
| Text.TrimIsTheUniqueSlice | script.js:58 | any slice with white space before and after it, and no white space at its own ends, is what `trim()` returns |
| Text.TrimIdempotent | script.js:68 | trimming twice is trimming once |
| Text.SplitLinesCount | script.js:101-103 | `split('\n')` gives one more piece than there are newlines |
| Text.SplitLinesPiecesHaveNoNewline | script.js:101-103 | no piece of `split('\n')` contains a newline |
| Text.JoinSplitLines | script.js:101-103 | joining the pieces of `split('\n')` with newlines gives back the text |
| Text.SplitLinesJoin | script.js:58 | splitting newline-free parts joined with newlines gives back the parts |
| Text.SplitLinesOfLine | script.js:101-103 | a newline-free prefix joins the first line of what follows it |
| Text.JoinIsEmpty | script.js:58 | a newline join is empty exactly when there is no part or one empty part |
| Scanner.ScanIsOrdered | script.js:57 | the spans a global `match` finds are non-empty, inside the text, in increasing order and disjoint |
| Scanner.DeleteIsOutside | script.js:65-67 | `replace(re, "")` keeps exactly the text outside the spans `match` finds, in order |
| Scanner.OutsideLength | script.js:65-67 | what is kept plus what the spans cover is the whole text |
| Scanner.SkipsTo | script.js:57 | where no match starts, the scan finds nothing and the deletion keeps the text unchanged |
| Scanner.PassesThrough | script.js:57 | if no match starting before i runs past i, then the spans found before i end by i, the rest are those found from i, and the text kept from i is a tail of the text kept overall |
| Matcher.OpenTagEndIsTheTag | script.js:57 | `<t[^>]*>` at a position ends just after the first '>' after "<t", and there is no match when no '>' follows |
| Matcher.FindCloseIsFirst | script.js:57 | the lazy `[\s\S]*?` stops at the first closing tag, matched without regard to letter case, and there is no match when none follows |
| Matcher.MatchEndIsTheMatch | script.js:57 | the match that starts at a position ends at e exactly when the text there is a whole element (element pattern), or an opening or closing tag (tag pattern) |
| Matcher.RegionEndIsTheElement | script.js:57 | for the element pattern: the computed end is e exactly when an opening tag, a body free of closing tags and a closing tag span the text up to e |
| Matcher.MarkEndIsTheTag | script.js:58 | for the tag pattern: the computed end is e exactly when an opening tag or a closing tag spans the text up to e |
| Matcher.OpenIsNotClose | script.js:58 | no position starts both an opening and a closing tag, so the alternation's order never matters |
| Matcher.ScanCharacterization | script.js:57 | the list `match` returns is the one and only leftmost, non-overlapping series of matches |
| Matcher.ElementIsLocal | script.js:58 | whether a stretch of text is a whole element depends on that stretch alone, so a match is also an element when taken by itself |
| Matcher.DeleteFromIsOutside | script.js:65-67 | `replace` with either pattern keeps exactly the text outside its matches |
| Matcher.ScanSkipsTo | script.js:57 | over positions where no match of the pattern starts, the scan and the deletion move on unchanged |
| Matcher.ScanPassesThrough | script.js:57 | the scan and the deletion pass through a position that no match crosses |
| Matcher.ScanTake | script.js:57 | at a position where a match starts, the scan takes it and resumes after it, and the deletion drops it |
| Matcher.ScanSkip | script.js:57 | at a position where no match starts, the scan moves on by one, and the deletion keeps the character |
| Extractor.ExtractFromLeftmostElements | script.js:57-58 | the CSS or JS text is built from exactly the leftmost, non-overlapping series of elements |
| Extractor.ExtractIsEmpty | script.js:58 | the CSS or JS text is empty exactly when there is no element, or one element whose piece is empty (the `cssMatch ? … : ""` branch) |
| Extractor.StripKeepsTheRest | script.js:66 | cutting out the elements keeps exactly the text outside them, and removes as many characters as they hold |
| Extractor.StructureKeepsTheRest | script.js:65-68 | the HTML text is the trimmed text outside the script elements of the text outside the style elements |
| Extractor.NoOpenTagNoElement | script.js:57-58 | with no opening tag, there is no element, the extracted text is empty, and stripping changes nothing |
| Extractor.PlainTextIsStructure | script.js:56-68 | input without style and script opening tags gives empty CSS and JS, and the trimmed input as HTML |
| Extractor.UnclosedTagStays | script.js:57-66 | an opening tag with no closing tag after it starts no match: every element found ends before it, and everything from it on survives stripping |
| Extractor.PlainElementPiece | script.js:58 | an element whose body holds neither tag gives its trimmed body as its piece |
| Extractor.PlainElementAt | script.js:58 | the same for an element inside a document |
| Extractor.ScanOverText | script.js:57 | text without opening tags yields no element |
| Extractor.ScanOverElement | script.js:57 | a whole element is taken as one match |
| Extractor.ScanToElement | script.js:57 | text without opening tags followed by a whole element: the scan's next match is that element |
| Extractor.PlainDocumentIsGlobalScan | script.js:57 | the elements of a document of plain elements are the leftmost, non-overlapping series of matches |
| Extractor.PlainDocumentOutputs | script.js:57-66 | in such a document, the CSS or JS text is the trimmed bodies joined with newlines in document order, and stripping keeps the text between the elements |
| Extractor.SiblingElements | script.js:57-58 | two sibling plain elements (no opening tag of that name in their bodies or in the text around them) give their two trimmed bodies on two lines, first to last, and are not merged into one match |
| Text.TrimStart | script.js:58 | `trim()`'s removal of leading white space; its meaning is stated by Text.TrimStartIsLongestSuffix |
| Text.TrimEnd | script.js:68 | `trim()`'s removal of trailing white space; its meaning is stated by Text.TrimEndIsLongestPrefix |
| Text.Trim | script.js:51 | `String.prototype.trim`; its meaning is stated by Text.TrimIsTheCore, Text.TrimIsTheUniqueSlice and Text.TrimIdempotent |
| Text.Join | script.js:58 | `Array.prototype.join`; Text.JoinIsEmpty and Text.SplitLinesJoin state its meaning |
| Text.SplitLines | script.js:101-103 | `split('\n')`, which always gives at least one piece; Text.SplitLinesCount, Text.SplitLinesPiecesHaveNoNewline and Text.JoinSplitLines state its meaning |
| Scanner.Scan | script.js:57 | the `lastIndex` loop of a global `match` for any finder; Scanner.ScanIsOrdered and Scanner.PassesThrough state its meaning |
| Scanner.Delete | script.js:66-67 | the same loop for a global `replace(re, "")`; Scanner.DeleteIsOutside states its meaning |
| Matcher.OpenTagEnd | script.js:57 | where `<t[^>]*>` starting at a position ends; Matcher.OpenTagEndIsTheTag states its meaning |
| Matcher.FindClose | script.js:57 | where the lazy `[\s\S]*?` of the element pattern stops; Matcher.FindCloseIsFirst states its meaning |
| Matcher.MatchEnd | script.js:57-58 | the end of the match of either regular expression that starts at a position; Matcher.MatchEndIsTheMatch states its meaning |
| Matcher.ScanFrom | script.js:57 | `s.match(re)` with the `g` flag, as ordered spans; Matcher.ScanCharacterization states its meaning |
| Matcher.DeleteFrom | script.js:66-67 | `s.replace(re, "")` with the `g` flag; Matcher.DeleteFromIsOutside states its meaning |
| Extractor.MatchList | script.js:57 | `fullHtml.match(...)` for the style or script element pattern, with `null` as the empty list; Extractor.ExtractFromLeftmostElements states which elements it holds |
| Extractor.Piece | script.js:58 | the `map` callback that strips the tags of a matched element and trims it; Extractor.PlainElementPiece states its result for an element with a plain body |
| Extractor.Extract | script.js:57-62 | the CSS text (tag "style") or the JS text (tag "script"); Extractor.ExtractFromLeftmostElements, Extractor.ExtractIsEmpty and Extractor.PlainDocumentOutputs state its meaning |
| Extractor.StripRegions | script.js:66-67 | one `replace` that removes every style or script element; Extractor.StripKeepsTheRest states its meaning |
| Extractor.Structure | script.js:65-68 | the HTML text; Extractor.StructureKeepsTheRest and Extractor.PlainTextIsStructure state its meaning |
| Workspace.LineCount | script.js:101-103 | the line count is 0 for the empty text and otherwise one more than the number of newlines |
| Workspace.LinesOfJoin | script.js:101-103 | k non-empty-joined, newline-free pieces joined with newlines count k lines |
| Workspace.Archive | script.js:234-249 | there is no archive when all three results are empty; otherwise it is "web-project.zip" holding index.html, style.css and script.js for exactly the non-empty results, with distinct names |
| Workspace.Splitter.constructor | script.js:2 | the three results start out empty |
| Workspace.Splitter.Split | script.js:48-68 | blank input (all white space) leaves the three results unchanged and reports it; otherwise the CSS, JS and HTML texts are the extracted and stripped texts of the input |
| Workspace.Splitter.Clear | script.js:288-293 | all three results become empty, so there is nothing to export |
| Workspace.Splitter.Stats | script.js:100-105 | the three line counts (zero exactly for empty text) and the total length in characters |
| Workspace.Splitter.DownloadAll | script.js:234-249 | the export is the archive of the stored results |

## Left out

- The DOM, toasts, animations, timers, the clipboard, `Blob`/`URL` and the
  JSZip library are left out. `Split` takes the textarea's text as a
  parameter. `DownloadAll` returns the archive's name and entries instead of
  compressing and saving them.
- The failure path of `zip.generateAsync` is not modelled.
- `loadSample` and its literal sample document are left out. The sample is
  only text put into the input box.
- `copyText` and `downloadText` are left out, because they only pass an
  existing result to browser APIs.
- Workspace.Splitter.Stats: the total size is returned as a character count.
  The source divides it by 1024 as a floating-point number, and that division
  is not modelled.
- Strings are sequences of `char`, and a Dafny `char` is a Unicode scalar
  value, not a UTF-16 code unit. A lone surrogate cannot be written, and a
  character outside the Basic Multilingual Plane (an emoji, say) is one
  `char` where JavaScript sees two code units.
- Workspace.Splitter.Stats: `totalLength` counts such a character once,
  where `.length` counts it twice. The matcher and `trim` are not affected,
  because a surrogate is neither white space nor part of a tag.
- The `i` flag is modelled as ASCII case folding. This is exact for the
  letters of "style" and "script". Without the `u` flag, no non-ASCII code
  unit folds onto them.
- The `cssMatch ? … : ""` test is not modelled as a separate branch. A
  `null` match result is the empty list, and joining an empty list gives "".
- Extractor.PlainDocumentOutputs and Extractor.SiblingElements describe
  documents whose element bodies contain no opening tag of the same name,
  and with no opening tag of that name in the text around the elements.
  So a document that ends in an unclosed tag, such as
  `<style>a</style><style>b</style><style`, is outside them, even though
  the code gives `a` and `b` on two lines for it.
  Other documents are covered only by the general lemmas:
  - Extractor.ExtractFromLeftmostElements;
  - Extractor.StripKeepsTheRest;
  - Extractor.UnclosedTagStays.
- Two properties one might expect of the splitter do not hold for the code,
  and the model does not claim them:
  - A character can end up in both the CSS and the JS. In
    `<script>s="<style>x</style>"</script>`, `x` is extracted from the style
    element that lies inside the script element, so it appears in both
    outputs.
  - Splitting the HTML text again can find new elements. In
    `<sty<style>x</style>le>a</style>`, removing the inner element leaves
    `<style>a</style>` as the HTML text.
