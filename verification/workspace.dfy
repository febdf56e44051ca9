/**
 The page state of script.js: the three result strings kept at module level,
 the `splitHTML` button that overwrites them, the `clearAll` button that
 resets them, the line counts `updateStats` shows, and the choice of files
 `downloadZIP` puts in the archive.
 */
module Workspace {
  import opened Text
  import opened Extractor

  // ---------------------------------------------------------------------
  // Statistics

  /** `s ? s.split('\n').length : 0`: no lines for the empty string,
      otherwise one more than there are newlines. */
  function LineCount(s: string): (r: nat)
    ensures r == if s == [] then 0 else multiset(s)['\n'] + 1
  {
    if s == [] then 0
    else
      SplitLinesCount(s);
      |SplitLines(s)|
  }

  /** Newline-free, non-empty-joined parts joined with newlines count one
      line per part: the CSS or JS text made of k single-line pieces has k
      lines. */
  lemma LinesOfJoin(parts: seq<string>)
    requires |parts| >= 1 && Join(parts, "\n") != []
    requires forall k :: 0 <= k < |parts| ==> NoNewline(parts[k])
    ensures LineCount(Join(parts, "\n")) == |parts|
  {
    SplitLinesJoin(parts);
  }

  // ---------------------------------------------------------------------
  // Export

  /** A file in the archive. */
  datatype Entry = Entry(name: string, content: string)

  /** What `downloadZIP` produces: nothing (the "No content to download"
      warning), or an archive of the given name holding the given files. */
  datatype Export = NoContent | Zip(fileName: string, entries: seq<Entry>)

  const ArchiveName: string := "web-project.zip"
  const HtmlFile: string := "index.html"
  const CssFile: string := "style.css"
  const JsFile: string := "script.js"

  /** The archive for the current results: no archive when all three are
      empty, otherwise a file for each non-empty result and for no other. */
  function Archive(html: string, css: string, js: string): (r: Export)
    ensures r.NoContent? <==> html == [] && css == [] && js == []
    ensures r.Zip? ==> r.fileName == ArchiveName
    ensures r.Zip? ==> forall n, c :: Entry(n, c) in r.entries <==>
      || (n == HtmlFile && c == html && html != [])
      || (n == CssFile && c == css && css != [])
      || (n == JsFile && c == js && js != [])
    ensures r.Zip? ==> forall i, j :: 0 <= i < j < |r.entries| ==> r.entries[i].name != r.entries[j].name
  {
    if html == [] && css == [] && js == [] then NoContent
    else
      Zip(ArchiveName,
        (if html != [] then [Entry(HtmlFile, html)] else [])
        + (if css != [] then [Entry(CssFile, css)] else [])
        + (if js != [] then [Entry(JsFile, js)] else []))
  }

  // ---------------------------------------------------------------------
  // The page state

  /** The module-level `htmlContent`, `cssContent` and `jsContent`. */
  class Splitter {
    var htmlContent: string
    var cssContent: string
    var jsContent: string

    /** All three start out empty. */
    constructor()
      ensures htmlContent == [] && cssContent == [] && jsContent == []
    {
      htmlContent, cssContent, jsContent := [], [], [];
    }

    /** `splitHTML` on the text of the input box: blank input changes
        nothing; otherwise the CSS, the JS and the HTML text are computed
        from the input and replace the stored results. */
    method Split(fullHtml: string) returns (split: bool)
      modifies this
      ensures split <==> !AllSpace(fullHtml)
      ensures !split ==> htmlContent == old(htmlContent) && cssContent == old(cssContent) && jsContent == old(jsContent)
      ensures split ==>
        && cssContent == Extract(fullHtml, StyleTag)
        && jsContent == Extract(fullHtml, ScriptTag)
        && htmlContent == Structure(fullHtml)
    {
      TrimIsTheCore(fullHtml);
      if Trim(fullHtml) == [] {
        return false;
      }
      cssContent := Extract(fullHtml, StyleTag);
      jsContent := Extract(fullHtml, ScriptTag);
      htmlContent := Structure(fullHtml);
      split := true;
    }

    /** `clearAll`: all three results become empty, so there is nothing to
        export. */
    method Clear()
      modifies this
      ensures htmlContent == [] && cssContent == [] && jsContent == []
      ensures Archive(htmlContent, cssContent, jsContent).NoContent?
    {
      htmlContent, cssContent, jsContent := [], [], [];
    }

    /** `updateStats`: the line count of each result and their total length
        in characters. */
    method Stats() returns (htmlLines: nat, cssLines: nat, jsLines: nat, totalLength: nat)
      ensures htmlLines == 0 <==> htmlContent == []
      ensures htmlLines == LineCount(htmlContent)
      ensures cssLines == LineCount(cssContent)
      ensures jsLines == LineCount(jsContent)
      ensures totalLength == |htmlContent| + |cssContent| + |jsContent|
    {
      htmlLines := LineCount(htmlContent);
      cssLines := LineCount(cssContent);
      jsLines := LineCount(jsContent);
      totalLength := |htmlContent| + |cssContent| + |jsContent|;
    }

    /** `downloadZIP`: the archive for the stored results. */
    method DownloadAll() returns (e: Export)
      ensures e == Archive(htmlContent, cssContent, jsContent)
    {
      e := Archive(htmlContent, cssContent, jsContent);
    }
  }
}
