/**
 The three outputs `splitHTML` computes from one combined document
 (script.js:56-68): the CSS and JS texts gathered from the style and script
 elements, and the HTML structure left once those elements are cut out.
 */
module Extractor {
  import opened Text
  import opened Scanner
  import opened Matcher

  const StyleTag: string := "style"
  const ScriptTag: string := "script"

  /** The substrings of s that the spans cover, in order. */
  function Matched(s: string, spans: seq<Span>): seq<string>
    requires Ordered(spans, 0, |s|)
  {
    seq(|spans|, k requires 0 <= k < |spans| => s[spans[k].start..spans[k].end])
  }

  /** `s.match(/<tag[^>]*>([\s\S]*?)<\/tag>/gi)`: the whole elements, in
      document order; a `null` result is the empty list. */
  function MatchList(s: string, tag: string): seq<string> {
    Matched(s, ScanFrom(Region(tag), s, 0))
  }

  /** The `map` callback: `m.replace(/<tag[^>]*>|<\/tag>/gi, "").trim()`. */
  function Piece(m: string, tag: string): string {
    Trim(DeleteFrom(Mark(tag), m, 0))
  }

  function Pieces(ms: seq<string>, tag: string): seq<string> {
    seq(|ms|, k requires 0 <= k < |ms| => Piece(ms[k], tag))
  }

  /** The CSS text (tag "style") or the JS text (tag "script"): the pieces
      joined with newlines. */
  function Extract(s: string, tag: string): string {
    Join(Pieces(MatchList(s, tag), tag), "\n")
  }

  /** `s.replace(/<tag[^>]*>[\s\S]*?<\/tag>/gi, "")`. */
  function StripRegions(s: string, tag: string): string {
    DeleteFrom(Region(tag), s, 0)
  }

  /** The HTML text: style elements removed, then script elements removed
      from what is left, then trimmed. */
  function Structure(s: string): string {
    Trim(StripRegions(StripRegions(s, StyleTag), ScriptTag))
  }

  // ---------------------------------------------------------------------
  // What the outputs are made of

  /** The pieces come from the leftmost, non-overlapping series of whole
      elements, and from no other. */
  lemma ExtractFromLeftmostElements(s: string, tag: string, spans: seq<Span>)
    requires ValidTag(tag)
    ensures IsGlobalScan(Region(tag), s, 0, spans) <==> spans == ScanFrom(Region(tag), s, 0)
    ensures IsGlobalScan(Region(tag), s, 0, spans) ==>
      Ordered(spans, 0, |s|) && Extract(s, tag) == Join(Pieces(Matched(s, spans), tag), "\n")
  {
    ScanCharacterization(Region(tag), s, 0, spans);
  }

  /** The extracted text is empty exactly when there is no element, or one
      element whose piece is empty. */
  lemma ExtractIsEmpty(s: string, tag: string)
    ensures var ms := MatchList(s, tag);
      Extract(s, tag) == [] <==> |ms| == 0 || (|ms| == 1 && Piece(ms[0], tag) == [])
  {
    JoinIsEmpty(Pieces(MatchList(s, tag), tag), "\n");
  }

  /** Cutting out the elements keeps exactly the text outside them, in its
      order, and removes as many characters as the elements hold. */
  lemma StripKeepsTheRest(s: string, tag: string)
    ensures var spans := ScanFrom(Region(tag), s, 0);
      && StripRegions(s, tag) == Outside(s, spans, 0)
      && |StripRegions(s, tag)| + Covered(spans) == |s|
  {
    DeleteFromIsOutside(Region(tag), s, 0);
    OutsideLength(s, ScanFrom(Region(tag), s, 0), 0);
  }

  /** The HTML text is the trimmed text outside the style elements of the
      input and outside the script elements of that intermediate text. */
  lemma StructureKeepsTheRest(s: string)
    ensures var s1 := StripRegions(s, StyleTag);
      && s1 == Outside(s, ScanFrom(Region(StyleTag), s, 0), 0)
      && Structure(s) == Trim(Outside(s1, ScanFrom(Region(ScriptTag), s1, 0), 0))
  {
    StripKeepsTheRest(s, StyleTag);
    StripKeepsTheRest(StripRegions(s, StyleTag), ScriptTag);
  }

  // ---------------------------------------------------------------------
  // Walking through a document

  /** A match of an element pattern starts with an opening tag. */
  lemma RegionStartsWithOpen(s: string, tag: string, q: nat)
    requires q <= |s| && MatchEnd(Region(tag), s, q).Some?
    ensures MatchesAt(s, q, Open(tag))
  {
  }

  /** Text in which no opening tag starts yields no element. */
  lemma ScanOverText(s: string, tag: string, a: nat, b: nat)
    requires a <= b <= |s|
    requires forall q :: a <= q < b ==> !MatchesAt(s, q, Open(tag))
    ensures ScanFrom(Region(tag), s, a) == ScanFrom(Region(tag), s, b)
  {
    forall q: nat | a <= q < b ensures Unmatched(Region(tag), s, q) {
      if MatchEnd(Region(tag), s, q).Some? {
        RegionStartsWithOpen(s, tag, q);
      }
    }
    ScanSkipsTo(Region(tag), s, a, b);
  }

  /** A whole element is one match. */
  lemma ScanOverElement(s: string, tag: string, b: nat, c: nat)
    requires ValidTag(tag) && b < c <= |s| && IsElement(s, tag, b, c)
    ensures ScanFrom(Region(tag), s, b) == [Span(b, c)] + ScanFrom(Region(tag), s, c)
  {
    RegionEndIsTheElement(s, tag, b, c);
    ScanTake(Region(tag), s, b, c);
  }

  /** Input in which no opening tag occurs has no element: the extracted
      text is empty and nothing is cut out. */
  lemma NoOpenTagNoElement(s: string, tag: string)
    requires Absent(s, Open(tag))
    ensures MatchList(s, tag) == [] && Extract(s, tag) == []
    ensures StripRegions(s, tag) == s
  {
    ScanOverText(s, tag, 0, |s|);
    StripKeepsTheRest(s, tag);
  }

  /** Input free of both opening tags comes back trimmed as the HTML text,
      with empty CSS and JS. */
  lemma PlainTextIsStructure(s: string)
    requires Absent(s, Open(StyleTag)) && Absent(s, Open(ScriptTag))
    ensures Structure(s) == Trim(s)
    ensures Extract(s, StyleTag) == [] && Extract(s, ScriptTag) == []
  {
    NoOpenTagNoElement(s, StyleTag);
    NoOpenTagNoElement(s, ScriptTag);
  }

  /** An opening tag with no closing tag anywhere after it starts no match:
      every element found ends before it, so it adds nothing to the
      extracted text, and everything from it on stays in the stripped text. */
  lemma UnclosedTagStays(s: string, tag: string, i: nat)
    requires ValidTag(tag) && i <= |s| && MatchesAt(s, i, Open(tag))
    requires NoCloseIn(s, tag, i, |s| + 1)
    ensures forall k :: 0 <= k < |ScanFrom(Region(tag), s, 0)| ==> ScanFrom(Region(tag), s, 0)[k].end <= i
    ensures IsSuffix(s[i..], StripRegions(s, tag))
  {
    var p := Region(tag);
    forall q: nat | i <= q < |s| ensures Unmatched(p, s, q) {
      NoMatchAfter(s, tag, i, q);
    }
    ScanSkipsTo(p, s, i, |s|);
    assert DeleteFrom(p, s, |s|) == [] && s[i..|s|] == s[i..];
    forall q: nat | q < i ensures EndsBy(p, s, q, i) {
      if MatchEnd(p, s, q).Some? {
        MatchBeforeEndsBefore(s, tag, i, q);
      }
    }
    ScanPassesThrough(p, s, 0, i);
  }

  lemma NoMatchAfter(s: string, tag: string, i: nat, q: nat)
    requires i <= q < |s| && NoCloseIn(s, tag, i, |s| + 1)
    ensures MatchEnd(Region(tag), s, q).None?
  {
    var o := OpenTagEnd(s, tag, q);
    if o.Some? {
      FindCloseIsFirst(s, tag, o.value);
      assert FindClose(s, tag, o.value).None?;
    }
  }

  lemma MatchBeforeEndsBefore(s: string, tag: string, i: nat, q: nat)
    requires ValidTag(tag) && q < i <= |s| && MatchesAt(s, i, Open(tag))
    requires NoCloseIn(s, tag, i, |s| + 1)
    requires MatchEnd(Region(tag), s, q).Some?
    ensures MatchEnd(Region(tag), s, q).value <= i
  {
    var b := OpenTagEnd(s, tag, q).value;
    var k := FindClose(s, tag, b).value;
    FindCloseIsFirst(s, tag, b);
    assert MatchesAt(s, k, Close(tag));
    assert k < i;
    assert AsciiLower(s[i]) == AsciiLower(Open(tag)[0]);
    TagsHaveOneLt(tag);
    if i < k + |Close(tag)| {
      NoMatchAcrossLt(s, k, i, Close(tag));
    }
  }

  // ---------------------------------------------------------------------
  // Pieces

  /** An element whose body holds neither tag gives its trimmed body as its
      piece. */
  lemma PlainElementPiece(m: string, tag: string, g: nat, k: nat)
    requires ValidTag(tag) && IsOpenTag(m, tag, 0, g) && g <= k
    requires k + |Close(tag)| == |m| && MatchesAt(m, k, Close(tag))
    requires NoCloseIn(m, tag, g, k)
    requires forall q :: g <= q < k ==> !MatchesAt(m, q, Open(tag))
    ensures Piece(m, tag) == Trim(m[g..k])
  {
    var p := Mark(tag);
    OpenTagEndIsTheTag(m, tag, 0);
    OpenTagUnique(m, tag, 0, OpenTagEnd(m, tag, 0).value, g);
    ScanTake(p, m, 0, g);
    forall q: nat | g <= q < k ensures Unmatched(p, m, q) {
      assert !MatchesAt(m, q, Close(tag));
    }
    ScanSkipsTo(p, m, g, k);
    OpenIsNotClose(m, tag, k);
    ScanTake(p, m, k, |m|);
    assert DeleteFrom(p, m, |m|) == [];
    assert m[g..k] + [] == m[g..k];
  }

  /** An opening tag, a body free of closing tags and a closing tag make a
      whole element. */
  lemma ElementAt(s: string, tag: string, b: nat, g: nat, k: nat)
    requires IsOpenTag(s, tag, b, g) && g <= k
    requires k + |Close(tag)| <= |s| && MatchesAt(s, k, Close(tag))
    requires NoCloseIn(s, tag, g, k)
    ensures IsElement(s, tag, b, k + |Close(tag)|)
  {
    assert IsElementRest(s, tag, g, k + |Close(tag)|);
  }

  /** The same as PlainElementPiece for an element inside a document: its
      piece is its trimmed body s[g..k]. */
  lemma PlainElementAt(s: string, tag: string, b: nat, g: nat, k: nat)
    requires ValidTag(tag) && IsOpenTag(s, tag, b, g) && g <= k
    requires k + |Close(tag)| <= |s| && MatchesAt(s, k, Close(tag))
    requires NoCloseIn(s, tag, g, k)
    requires forall q :: g <= q < k ==> !MatchesAt(s, q, Open(tag))
    ensures Piece(s[b..k + |Close(tag)|], tag) == Trim(s[g..k])
  {
    var c := k + |Close(tag)|;
    var m := s[b..c];
    SliceOfSlice(s, b, c, g, k);
    PlainBodyIsLocal(s, tag, b, g, k);
    PlainElementPiece(m, tag, g - b, k - b);
  }

  lemma PlainBodyIsLocal(s: string, tag: string, b: nat, g: nat, k: nat)
    requires IsOpenTag(s, tag, b, g) && g <= k
    requires k + |Close(tag)| <= |s| && MatchesAt(s, k, Close(tag))
    requires NoCloseIn(s, tag, g, k)
    requires forall q :: g <= q < k ==> !MatchesAt(s, q, Open(tag))
    ensures var m := s[b..k + |Close(tag)|];
      && IsOpenTag(m, tag, 0, g - b) && MatchesAt(m, k - b, Close(tag))
      && NoCloseIn(m, tag, g - b, k - b)
      && forall q :: g - b <= q < k - b ==> !MatchesAt(m, q, Open(tag))
  {
    var c := k + |Close(tag)|;
    var m := s[b..c];
    OpenTagIsLocal(s, tag, b, c, g);
    MatchesAtSlice(s, b, c, k - b, Close(tag));
    forall q | g - b <= q < k - b ensures !MatchesAt(m, q, Open(tag)) && !MatchesAt(m, q, Close(tag)) {
      MatchesAtSlice(s, b, c, q, Open(tag));
      MatchesAtSlice(s, b, c, q, Close(tag));
    }
  }

  // ---------------------------------------------------------------------
  // Documents of plain elements

  /** Where an element sits in a document: it starts at `start`, its body is
      s[body..close] and its closing tag starts at `close`. */
  datatype Layout = Layout(start: nat, body: nat, close: nat)

  /** From position `from` on, s is text without opening tags up to a whole
      element laid out as `e`, whose body holds neither tag. */
  predicate PlainElement(s: string, tag: string, from: nat, e: Layout) {
    && from <= e.start
    && (forall q :: from <= q < e.start ==> !MatchesAt(s, q, Open(tag)))
    && IsOpenTag(s, tag, e.start, e.body) && e.body <= e.close
    && e.close + |Close(tag)| <= |s| && MatchesAt(s, e.close, Close(tag))
    && NoCloseIn(s, tag, e.body, e.close)
    && (forall q :: e.body <= q < e.close ==> !MatchesAt(s, q, Open(tag)))
  }

  /** From position `from` on, s consists of the given plain elements in
      order, with text without opening tags around them. */
  predicate PlainDocument(s: string, tag: string, els: seq<Layout>, from: nat)
    decreases |els|
  {
    if els == [] then
      from <= |s| && forall q :: from <= q < |s| ==> !MatchesAt(s, q, Open(tag))
    else
      PlainElement(s, tag, from, els[0])
      && PlainDocument(s, tag, els[1..], els[0].close + |Close(tag)|)
  }

  /** The span each element takes up, in order. */
  function ElementSpans(els: seq<Layout>, tag: string): (r: seq<Span>)
    ensures |r| == |els|
  {
    if els == [] then []
    else [Span(els[0].start, els[0].close + |Close(tag)|)] + ElementSpans(els[1..], tag)
  }

  lemma {:induction false} ElementSpanAt(els: seq<Layout>, tag: string, k: nat)
    requires k < |els|
    ensures ElementSpans(els, tag)[k] == Span(els[k].start, els[k].close + |Close(tag)|)
  {
    if k > 0 {
      ElementSpanAt(els[1..], tag, k - 1);
    }
  }

  /** The trimmed bodies of the elements, in order. */
  function Bodies(s: string, els: seq<Layout>): seq<string>
    requires forall k :: 0 <= k < |els| ==> els[k].body <= els[k].close <= |s|
  {
    seq(|els|, k requires 0 <= k < |els| => Trim(s[els[k].body..els[k].close]))
  }

  /** Text in which no opening tag starts holds no element. */
  lemma NoOpenNoMatch(s: string, tag: string, a: nat, b: nat)
    requires forall q :: a <= q < b ==> !MatchesAt(s, q, Open(tag))
    ensures NoMatchIn(Region(tag), s, a, b)
  {
  }

  /** The elements of a plain document are the leftmost, non-overlapping
      series of matches. */
  lemma {:induction false} PlainDocumentIsGlobalScan(s: string, tag: string, els: seq<Layout>, from: nat)
    requires PlainDocument(s, tag, els, from)
    ensures IsGlobalScan(Region(tag), s, from, ElementSpans(els, tag))
    decreases |els|
  {
    if els == [] {
      NoOpenNoMatch(s, tag, from, |s|);
    } else {
      PlainDocumentIsGlobalScan(s, tag, els[1..], els[0].close + |Close(tag)|);
      PlainElementFirst(s, tag, els, from);
    }
  }

  /** A plain element in front of a leftmost series of matches extends it. */
  lemma PlainElementFirst(s: string, tag: string, els: seq<Layout>, from: nat)
    requires els != [] && PlainElement(s, tag, from, els[0])
    requires IsGlobalScan(Region(tag), s, els[0].close + |Close(tag)|, ElementSpans(els[1..], tag))
    ensures IsGlobalScan(Region(tag), s, from, ElementSpans(els, tag))
  {
    var e := els[0];
    NoOpenNoMatch(s, tag, from, e.start);
    ElementAt(s, tag, e.start, e.body, e.close);
  }

  /** Text without opening tags, then a whole element: the scan's next
      match is that element. */
  lemma ScanToElement(s: string, tag: string, from: nat, b: nat, c: nat)
    requires ValidTag(tag) && from <= b < c <= |s|
    requires forall q :: from <= q < b ==> !MatchesAt(s, q, Open(tag))
    requires IsElement(s, tag, b, c)
    ensures ScanFrom(Region(tag), s, from) == [Span(b, c)] + ScanFrom(Region(tag), s, c)
  {
    ScanOverText(s, tag, from, b);
    ScanOverElement(s, tag, b, c);
  }

  /** Where the text before element k of `els` begins: `from` for the
      first, the end of element k - 1 for the others. */
  function Gap(els: seq<Layout>, tag: string, from: nat, k: nat): nat
    requires k <= |els|
  {
    if k == 0 then from else els[k - 1].close + |Close(tag)|
  }

  /** Every element of a plain document is a plain element after its gap. */
  lemma {:induction false} PlainDocumentElements(s: string, tag: string, els: seq<Layout>, from: nat)
    requires PlainDocument(s, tag, els, from)
    ensures forall k :: 0 <= k < |els| ==> PlainElement(s, tag, Gap(els, tag, from, k), els[k])
    decreases |els|
  {
    if els != [] {
      var c := els[0].close + |Close(tag)|;
      PlainDocumentElements(s, tag, els[1..], c);
      forall k | 1 <= k < |els|
        ensures PlainElement(s, tag, Gap(els, tag, from, k), els[k])
      {
        assert Gap(els[1..], tag, c, k - 1) == Gap(els, tag, from, k);
        assert els[1..][k - 1] == els[k];
      }
    }
  }

  /** The element laid out as `e` lies in s, and its piece is its trimmed body. */
  predicate PieceIsBody(s: string, tag: string, e: Layout) {
    && e.start <= e.body <= e.close
    && e.close + |Close(tag)| <= |s|
    && Piece(s[e.start..e.close + |Close(tag)|], tag) == Trim(s[e.body..e.close])
  }

  lemma PlainPieces(s: string, tag: string, els: seq<Layout>, from: nat)
    requires ValidTag(tag)
    requires forall k :: 0 <= k < |els| ==> PlainElement(s, tag, Gap(els, tag, from, k), els[k])
    ensures forall k :: 0 <= k < |els| ==> PieceIsBody(s, tag, els[k])
  {
    forall k | 0 <= k < |els|
      ensures PieceIsBody(s, tag, els[k])
    {
      PlainElementBody(s, tag, Gap(els, tag, from, k), els[k]);
    }
  }

  lemma PlainElementBody(s: string, tag: string, from: nat, e: Layout)
    requires ValidTag(tag) && PlainElement(s, tag, from, e)
    ensures PieceIsBody(s, tag, e)
  {
    PlainElementAt(s, tag, e.start, e.body, e.close);
  }

  /** When the matches are exactly the elements, the pieces are the
      trimmed bodies. */
  lemma ElementPieces(s: string, tag: string, els: seq<Layout>, spans: seq<Span>)
    requires spans == ElementSpans(els, tag) && Ordered(spans, 0, |s|)
    requires forall k :: 0 <= k < |els| ==> PieceIsBody(s, tag, els[k])
    ensures Bodies.requires(s, els)
    ensures Pieces(Matched(s, spans), tag) == Bodies(s, els)
  {
    var ps := Pieces(Matched(s, spans), tag);
    forall k | 0 <= k < |els|
      ensures els[k].body <= els[k].close <= |s|
      ensures ps[k] == Trim(s[els[k].body..els[k].close])
    {
      PieceAt(s, tag, els, spans, k);
    }
    BodiesAre(s, els, ps);
  }

  lemma BodiesAre(s: string, els: seq<Layout>, ps: seq<string>)
    requires |ps| == |els|
    requires forall k :: 0 <= k < |els| ==>
      els[k].body <= els[k].close <= |s| && ps[k] == Trim(s[els[k].body..els[k].close])
    ensures Bodies.requires(s, els) && ps == Bodies(s, els)
  {
  }

  lemma PieceAt(s: string, tag: string, els: seq<Layout>, spans: seq<Span>, k: nat)
    requires spans == ElementSpans(els, tag) && Ordered(spans, 0, |s|)
    requires k < |els| && PieceIsBody(s, tag, els[k])
    ensures els[k].body <= els[k].close <= |s|
    ensures Pieces(Matched(s, spans), tag)[k] == Trim(s[els[k].body..els[k].close])
  {
    ElementSpanAt(els, tag, k);
    assert Matched(s, spans)[k] == s[els[k].start..els[k].close + |Close(tag)|];
  }

  /** In a document of plain elements, the extracted text is the trimmed
      bodies joined with newlines in document order, and stripping keeps the
      text between the elements. */
  lemma PlainDocumentOutputs(s: string, tag: string, els: seq<Layout>)
    requires ValidTag(tag) && PlainDocument(s, tag, els, 0)
    ensures forall k :: 0 <= k < |els| ==> els[k].body <= els[k].close <= |s|
    ensures Ordered(ElementSpans(els, tag), 0, |s|)
    ensures Extract(s, tag) == Join(Bodies(s, els), "\n")
    ensures StripRegions(s, tag) == Outside(s, ElementSpans(els, tag), 0)
  {
    PlainDocumentIsGlobalScan(s, tag, els, 0);
    ScanCharacterization(Region(tag), s, 0, ElementSpans(els, tag));
    StripKeepsTheRest(s, tag);
    PlainDocumentElements(s, tag, els, 0);
    PlainPieces(s, tag, els, 0);
    ElementPieces(s, tag, els, ScanFrom(Region(tag), s, 0));
  }

  /** Two sibling elements with plain bodies give their trimmed bodies,
      first to last, on two lines. */
  lemma SiblingElements(s: string, tag: string, a: Layout, b: Layout)
    requires ValidTag(tag) && PlainDocument(s, tag, [a, b], 0)
    ensures a.body <= a.close <= b.start && b.body <= b.close <= |s|
    ensures Extract(s, tag) == Trim(s[a.body..a.close]) + "\n" + Trim(s[b.body..b.close])
  {
    PlainDocumentOutputs(s, tag, [a, b]);
    var bodies := Bodies(s, [a, b]);
    assert bodies == [bodies[0], bodies[1]];
    assert bodies[1..] == [bodies[1]];
  }
}
