/**
 The two regular expressions script.js builds around a tag name: where a
 match starting at a given position ends, a declarative description of such
 a match, and the global scan of the Scanner module run with them.

 For a tag name t (here "style" or "script"):
 - Region(t) stands for /<t[^>]*>[\s\S]*?<\/t>/gi, a whole element;
 - Mark(t) stands for /<t[^>]*>|<\/t>/gi, a single opening or closing tag.

 The greedy `[^>]*` can only stop at the first '>' after "<t", and the lazy
 `[\s\S]*?` stops at the first closing tag after that '>', so a match at a
 given position is unique when it exists; MatchEnd computes its end and
 Matches describes it declaratively.
 */
module Matcher {
  import opened Text
  import opened Scanner

  datatype Pattern = Region(tag: string) | Mark(tag: string)

  /** A tag name of lower-case ASCII letters, as "style" and "script" are. */
  predicate ValidTag(t: string) {
    |t| > 0 && forall k :: 0 <= k < |t| ==> 'a' <= t[k] <= 'z'
  }

  function Open(tag: string): string { "<" + tag }

  function Close(tag: string): string { "</" + tag + ">" }

  predicate NoGtIn(s: string, a: nat, b: nat)
    requires b <= |s|
  {
    forall k :: a <= k < b ==> s[k] != '>'
  }

  predicate NoCloseIn(s: string, tag: string, a: nat, b: nat) {
    forall m: nat :: a <= m < b ==> !MatchesAt(s, m, Close(tag))
  }

  // ---------------------------------------------------------------------
  // Declarative description of a match

  /** s[i..b] is an opening tag: "<tag" in any letter case, then characters
      other than '>', then '>'. */
  predicate IsOpenTag(s: string, tag: string, i: nat, b: nat) {
    && i + |Open(tag)| < b <= |s|
    && MatchesAt(s, i, Open(tag))
    && s[b - 1] == '>'
    && NoGtIn(s, i + |Open(tag)|, b - 1)
  }

  /** s[i..e] is a whole element: an opening tag, a body in which no closing
      tag occurs, and the closing tag in any letter case. */
  ghost predicate IsElement(s: string, tag: string, i: nat, e: nat) {
    exists b :: IsOpenTag(s, tag, i, b) && IsElementRest(s, tag, b, e)
  }

  /** s[b..e] is a body free of closing tags followed by one closing tag. */
  predicate IsElementRest(s: string, tag: string, b: nat, e: nat) {
    && b + |Close(tag)| <= e <= |s|
    && MatchesAt(s, e - |Close(tag)|, Close(tag))
    && NoCloseIn(s, tag, b, e - |Close(tag)|)
  }

  /** s[i..e] is an opening tag or a closing tag. */
  predicate IsTag(s: string, tag: string, i: nat, e: nat) {
    || IsOpenTag(s, tag, i, e)
    || (e == i + |Close(tag)| && MatchesAt(s, i, Close(tag)))
  }

  /** The pattern matches exactly s[i..e]. */
  ghost predicate Matches(p: Pattern, s: string, i: nat, e: nat) {
    match p
    case Region(t) => IsElement(s, t, i, e)
    case Mark(t) => IsTag(s, t, i, e)
  }

  // ---------------------------------------------------------------------
  // Matching at one position

  /** The first '>' at or after position j. */
  function FindGt(s: string, j: nat): (r: Option<nat>)
    requires j <= |s|
    decreases |s| - j
    ensures r.Some? ==> j <= r.value < |s|
  {
    if j == |s| then None
    else if s[j] == '>' then Some(j)
    else FindGt(s, j + 1)
  }

  lemma {:induction false} FindGtIsFirst(s: string, j: nat)
    requires j <= |s|
    decreases |s| - j
    ensures var r := FindGt(s, j);
      && (r.Some? ==> s[r.value] == '>' && NoGtIn(s, j, r.value))
      && (r.None? ==> NoGtIn(s, j, |s|))
  {
    if j < |s| && s[j] != '>' {
      FindGtIsFirst(s, j + 1);
    }
  }

  /** The first closing tag at or after position j, in any letter case. */
  function FindClose(s: string, tag: string, j: nat): (r: Option<nat>)
    requires j <= |s|
    decreases |s| - j
    ensures r.Some? ==> j <= r.value && r.value + |Close(tag)| <= |s|
  {
    if j + |Close(tag)| > |s| then None
    else if MatchesAt(s, j, Close(tag)) then Some(j)
    else FindClose(s, tag, j + 1)
  }

  lemma {:induction false} FindCloseIsFirst(s: string, tag: string, j: nat)
    requires j <= |s|
    decreases |s| - j
    ensures var r := FindClose(s, tag, j);
      && (r.Some? ==> MatchesAt(s, r.value, Close(tag)) && NoCloseIn(s, tag, j, r.value))
      && (r.None? ==> NoCloseIn(s, tag, j, |s| + 1))
  {
    if j + |Close(tag)| <= |s| && !MatchesAt(s, j, Close(tag)) {
      FindCloseIsFirst(s, tag, j + 1);
    }
  }

  /** The end of the opening tag `<tag[^>]*>` at position i, if there is one. */
  function OpenTagEnd(s: string, tag: string, i: nat): (r: Option<nat>)
    requires i <= |s|
    ensures r.Some? ==> i + |Open(tag)| < r.value <= |s|
  {
    if MatchesAt(s, i, Open(tag)) then
      match FindGt(s, i + |Open(tag)|)
      case Some(g) => Some(g + 1)
      case None => None
    else None
  }

  lemma OpenTagEndIsTheTag(s: string, tag: string, i: nat)
    requires i <= |s|
    ensures var r := OpenTagEnd(s, tag, i);
      && (r.Some? ==> IsOpenTag(s, tag, i, r.value))
      && (r.None? ==> forall b :: !IsOpenTag(s, tag, i, b))
  {
    if MatchesAt(s, i, Open(tag)) {
      FindGtIsFirst(s, i + |Open(tag)|);
    }
  }

  /** The end of the match of p that starts at position i, if there is one:
      the leftmost-first alternative the regular expression engine settles on. */
  function MatchEnd(p: Pattern, s: string, i: nat): (r: Option<nat>)
    requires i <= |s|
    ensures r.Some? ==> i < r.value <= |s|
  {
    match p
    case Region(t) =>
      (match OpenTagEnd(s, t, i)
       case None => None
       case Some(b) =>
         match FindClose(s, t, b)
         case None => None
         case Some(k) => Some(k + |Close(t)|))
    case Mark(t) =>
      match OpenTagEnd(s, t, i)
      case Some(b) => Some(b)
      case None => if MatchesAt(s, i, Close(t)) then Some(i + |Close(t)|) else None
  }

  lemma OpenTagUnique(s: string, tag: string, i: nat, b1: nat, b2: nat)
    requires IsOpenTag(s, tag, i, b1) && IsOpenTag(s, tag, i, b2)
    ensures b1 == b2
  {
  }

  /** No position starts both an opening and a closing tag. */
  lemma OpenIsNotClose(s: string, tag: string, i: nat)
    requires ValidTag(tag)
    ensures !(MatchesAt(s, i, Open(tag)) && MatchesAt(s, i, Close(tag)))
  {
    if MatchesAt(s, i, Open(tag)) {
      assert Open(tag)[1] == tag[0] && Close(tag)[1] == '/';
      assert AsciiLower(s[i + 1]) == AsciiLower(Open(tag)[1]);
      assert AsciiLower(s[i + 1]) != AsciiLower(Close(tag)[1]);
    }
  }

  /** MatchEnd finds a match at i exactly when the pattern describes one. */
  lemma MatchEndIsTheMatch(p: Pattern, s: string, i: nat, e: nat)
    requires ValidTag(p.tag) && i <= |s|
    ensures MatchEnd(p, s, i) == Some(e) <==> Matches(p, s, i, e)
  {
    match p
    case Region(t) => RegionEndIsTheElement(s, t, i, e);
    case Mark(t) => MarkEndIsTheTag(s, t, i, e);
  }

  lemma RegionEndIsTheElement(s: string, t: string, i: nat, e: nat)
    requires i <= |s|
    ensures MatchEnd(Region(t), s, i) == Some(e) <==> IsElement(s, t, i, e)
  {
    if MatchEnd(Region(t), s, i) == Some(e) {
      RegionEndIsAnElement(s, t, i, e);
    }
    if IsElement(s, t, i, e) {
      var b: nat :| IsOpenTag(s, t, i, b) && IsElementRest(s, t, b, e);
      ElementIsRegionEnd(s, t, i, b, e);
    }
  }

  lemma RegionEndIsAnElement(s: string, t: string, i: nat, e: nat)
    requires i <= |s| && MatchEnd(Region(t), s, i) == Some(e)
    ensures IsElement(s, t, i, e)
  {
    OpenTagEndIsTheTag(s, t, i);
    var b := OpenTagEnd(s, t, i).value;
    FindCloseIsFirst(s, t, b);
    assert IsOpenTag(s, t, i, b) && IsElementRest(s, t, b, e);
  }

  lemma ElementIsRegionEnd(s: string, t: string, i: nat, b: nat, e: nat)
    requires i <= |s| && IsOpenTag(s, t, i, b) && IsElementRest(s, t, b, e)
    ensures MatchEnd(Region(t), s, i) == Some(e)
  {
    OpenTagEndIsTheTag(s, t, i);
    OpenTagUnique(s, t, i, OpenTagEnd(s, t, i).value, b);
    FindCloseIsFirst(s, t, b);
    var k := e - |Close(t)|;
    assert FindClose(s, t, b) == Some(k);
  }

  lemma MarkEndIsTheTag(s: string, t: string, i: nat, e: nat)
    requires ValidTag(t) && i <= |s|
    ensures MatchEnd(Mark(t), s, i) == Some(e) <==> IsTag(s, t, i, e)
  {
    OpenTagEndIsTheTag(s, t, i);
    if IsTag(s, t, i, e) && !IsOpenTag(s, t, i, e) {
      OpenIsNotClose(s, t, i);
    }
    if IsOpenTag(s, t, i, e) {
      OpenTagUnique(s, t, i, OpenTagEnd(s, t, i).value, e);
    }
  }

  // ---------------------------------------------------------------------
  // The global scan

  /** The finder of the pattern in s. */
  function Find(p: Pattern, s: string): Finder {
    (q: nat) => if q <= |s| then MatchEnd(p, s, q) else None
  }

  lemma FindAdvances(p: Pattern, s: string)
    ensures Advances(Find(p, s), s)
  {
  }

  /** The matches `s.match(re)` returns, from position i on. */
  function ScanFrom(p: Pattern, s: string, i: nat): (r: seq<Span>)
    requires i <= |s|
    ensures Ordered(r, i, |s|)
  {
    FindAdvances(p, s);
    ScanIsOrdered(Find(p, s), s, i);
    Scan(Find(p, s), s, i)
  }

  /** `s.replace(re, "")`, from position i on. */
  function DeleteFrom(p: Pattern, s: string, i: nat): string
    requires i <= |s|
  {
    FindAdvances(p, s);
    Delete(Find(p, s), s, i)
  }

  /** No match of p starts at position q. */
  predicate Unmatched(p: Pattern, s: string, q: nat)
    requires q <= |s|
  {
    MatchEnd(p, s, q).None?
  }

  /** The match of p that starts at position q, if any, ends by position i. */
  predicate EndsBy(p: Pattern, s: string, q: nat, i: nat)
    requires q <= |s|
  {
    MatchEnd(p, s, q).Some? ==> MatchEnd(p, s, q).value <= i
  }

  /** No match of p starts anywhere in [a, b). */
  ghost predicate NoMatchIn(p: Pattern, s: string, a: nat, b: nat) {
    forall q: nat, e: nat :: a <= q < b ==> !Matches(p, s, q, e)
  }

  /** spans is the leftmost, non-overlapping series of matches from
      position i on: no match starts before the first span, the first span
      is a match, and the rest is the same from the end of the first span. */
  ghost predicate IsGlobalScan(p: Pattern, s: string, i: nat, spans: seq<Span>)
    decreases |spans|
  {
    if spans == [] then NoMatchIn(p, s, i, |s|)
    else
      && i <= spans[0].start < spans[0].end <= |s|
      && NoMatchIn(p, s, i, spans[0].start)
      && Matches(p, s, spans[0].start, spans[0].end)
      && IsGlobalScan(p, s, spans[0].end, spans[1..])
  }

  /** A position where no match starts can be put in front of a scan. */
  lemma GlobalScanStep(p: Pattern, s: string, i: nat, spans: seq<Span>)
    requires ValidTag(p.tag) && i < |s| && MatchEnd(p, s, i).None?
    requires IsGlobalScan(p, s, i + 1, spans)
    ensures IsGlobalScan(p, s, i, spans)
  {
    var b := if spans == [] then |s| else spans[0].start;
    assert NoMatchIn(p, s, i + 1, b);
    forall q: nat, e: nat | i <= q < b ensures !Matches(p, s, q, e) {
      if q == i { MatchEndIsTheMatch(p, s, i, e); }
    }
  }

  /** The scan from i is the leftmost series of matches from i. */
  lemma {:induction false} ScanIsGlobalScan(p: Pattern, s: string, i: nat)
    requires ValidTag(p.tag) && i <= |s|
    ensures IsGlobalScan(p, s, i, ScanFrom(p, s, i))
    decreases |s| - i, 1
  {
    if i < |s| {
      var m := MatchEnd(p, s, i);
      if m.Some? {
        ScanMatchStep(p, s, i, m.value);
      } else {
        ScanSkipStep(p, s, i);
      }
    }
  }

  lemma {:induction false} ScanMatchStep(p: Pattern, s: string, i: nat, e: nat)
    requires ValidTag(p.tag) && i < e <= |s| && MatchEnd(p, s, i) == Some(e)
    ensures IsGlobalScan(p, s, i, ScanFrom(p, s, i))
    decreases |s| - i, 0
  {
    ScanIsGlobalScan(p, s, e);
    var r := ScanFrom(p, s, i);
    MatchEndIsTheMatch(p, s, i, e);
    ScanTake(p, s, i, e);
    assert r[1..] == ScanFrom(p, s, e);
  }

  lemma {:induction false} ScanSkipStep(p: Pattern, s: string, i: nat)
    requires ValidTag(p.tag) && i < |s| && MatchEnd(p, s, i).None?
    ensures IsGlobalScan(p, s, i, ScanFrom(p, s, i))
    decreases |s| - i, 0
  {
    ScanIsGlobalScan(p, s, i + 1);
    ScanSkip(p, s, i);
    GlobalScanStep(p, s, i, ScanFrom(p, s, i + 1));
  }

  /** A leftmost series of matches from i is the scan from i. */
  lemma {:induction false} GlobalScanIsScan(p: Pattern, s: string, i: nat, spans: seq<Span>)
    requires ValidTag(p.tag) && i <= |s|
    ensures IsGlobalScan(p, s, i, spans) ==> spans == ScanFrom(p, s, i)
    decreases |s| - i, 1
  {
    if i < |s| {
      if spans != [] && spans[0].start == i {
        GlobalScanTake(p, s, i, spans);
      } else {
        GlobalScanSkip(p, s, i, spans);
      }
    }
  }

  lemma {:induction false} GlobalScanTake(p: Pattern, s: string, i: nat, spans: seq<Span>)
    requires ValidTag(p.tag) && i < |s| && spans != [] && spans[0].start == i
    ensures IsGlobalScan(p, s, i, spans) ==> spans == ScanFrom(p, s, i)
    decreases |s| - i, 0
  {
    var e := spans[0].end;
    if IsGlobalScan(p, s, i, spans) {
      MatchEndIsTheMatch(p, s, i, e);
      GlobalScanIsScan(p, s, e, spans[1..]);
      ScanTake(p, s, i, e);
      assert spans == [spans[0]] + spans[1..];
    }
  }

  lemma {:induction false} GlobalScanSkip(p: Pattern, s: string, i: nat, spans: seq<Span>)
    requires ValidTag(p.tag) && i < |s| && (spans == [] || spans[0].start != i)
    ensures IsGlobalScan(p, s, i, spans) ==> spans == ScanFrom(p, s, i)
    decreases |s| - i, 0
  {
    if IsGlobalScan(p, s, i, spans) {
      var m := MatchEnd(p, s, i);
      if m.Some? {
        MatchEndIsTheMatch(p, s, i, m.value);
        assert false;
      }
      ScanSkip(p, s, i);
      GlobalScanIsScan(p, s, i + 1, spans);
    }
  }

  /** The scan is the one and only leftmost, non-overlapping series of
      matches. */
  lemma ScanCharacterization(p: Pattern, s: string, i: nat, spans: seq<Span>)
    requires ValidTag(p.tag) && i <= |s|
    ensures ScanFrom(p, s, i) == spans <==> IsGlobalScan(p, s, i, spans)
  {
    ScanIsGlobalScan(p, s, i);
    if IsGlobalScan(p, s, i, spans) {
      GlobalScanIsScan(p, s, i, spans);
    }
  }

  /** `replace` deletes exactly the spans `match` finds and keeps the rest
      of the text in its order. */
  lemma DeleteFromIsOutside(p: Pattern, s: string, i: nat)
    requires i <= |s|
    ensures DeleteFrom(p, s, i) == Outside(s, ScanFrom(p, s, i), i)
  {
    FindAdvances(p, s);
    DeleteIsOutside(Find(p, s), s, i);
  }

  /** One step of the scan at a position where a match starts. */
  lemma ScanTake(p: Pattern, s: string, i: nat, e: nat)
    requires i < |s| && MatchEnd(p, s, i) == Some(e)
    ensures ScanFrom(p, s, i) == [Span(i, e)] + ScanFrom(p, s, e)
    ensures DeleteFrom(p, s, i) == DeleteFrom(p, s, e)
  {
    FindAdvances(p, s);
    assert Find(p, s)(i) == Some(e);
  }

  /** One step of the scan at a position where no match starts. */
  lemma ScanSkip(p: Pattern, s: string, i: nat)
    requires i < |s| && Unmatched(p, s, i)
    ensures ScanFrom(p, s, i) == ScanFrom(p, s, i + 1)
    ensures DeleteFrom(p, s, i) == [s[i]] + DeleteFrom(p, s, i + 1)
  {
    FindAdvances(p, s);
    assert Find(p, s)(i).None?;
  }

  /** Positions where no match starts are passed over by the scan and kept
      by the deletion. */
  lemma ScanSkipsTo(p: Pattern, s: string, i: nat, j: nat)
    requires i <= j <= |s|
    requires forall q: nat :: i <= q < j ==> Unmatched(p, s, q)
    ensures ScanFrom(p, s, i) == ScanFrom(p, s, j)
    ensures DeleteFrom(p, s, i) == s[i..j] + DeleteFrom(p, s, j)
  {
    FindAdvances(p, s);
    forall q: nat | i <= q < j ensures Find(p, s)(q).None? {
      assert Unmatched(p, s, q);
    }
    SkipsTo(Find(p, s), s, i, j);
  }

  /** When no match that starts in [a, i) runs past i, the scan from a passes
      through i, and so does the deletion. */
  lemma ScanPassesThrough(p: Pattern, s: string, a: nat, i: nat)
    requires a <= i <= |s|
    requires forall q: nat :: a <= q < i ==> EndsBy(p, s, q, i)
    ensures EndsWith(ScanFrom(p, s, a), ScanFrom(p, s, i), i)
    ensures IsSuffix(DeleteFrom(p, s, i), DeleteFrom(p, s, a))
  {
    FindAdvances(p, s);
    forall q: nat | a <= q < i && Find(p, s)(q).Some? ensures Find(p, s)(q).value <= i {
      assert EndsBy(p, s, q, i);
    }
    PassesThrough(Find(p, s), s, a, i);
  }

  // ---------------------------------------------------------------------
  // A match depends only on the text it covers

  /** Apart from its first character, neither tag pattern contains a '<'. */
  lemma TagsHaveOneLt(t: string)
    requires ValidTag(t)
    ensures forall k :: 1 <= k < |Open(t)| ==> AsciiLower(Open(t)[k]) != '<'
    ensures forall k :: 1 <= k < |Close(t)| ==> AsciiLower(Close(t)[k]) != '<'
  {
    assert forall k :: 1 <= k < |Open(t)| ==> Open(t)[k] == t[k - 1];
    assert forall k :: 2 <= k < |Close(t)| - 1 ==> Close(t)[k] == t[k - 2];
  }

  lemma OpenTagIsLocal(s: string, t: string, i: nat, e: nat, b: nat)
    requires i <= b <= e <= |s|
    ensures IsOpenTag(s, t, i, b) <==> IsOpenTag(s[i..e], t, 0, b - i)
  {
    if i + |Open(t)| < b {
      MatchesAtSlice(s, i, e, 0, Open(t));
    }
  }

  lemma RestIsLocal(s: string, t: string, i: nat, e: nat, b: nat)
    requires i <= b <= e <= |s|
    ensures IsElementRest(s, t, b, e) <==> IsElementRest(s[i..e], t, b - i, e - i)
  {
    var c := |Close(t)|;
    if b + c <= e {
      MatchesAtSlice(s, i, e, e - i - c, Close(t));
      assert i + (e - i - c) == e - c;
      forall m: nat | b - i <= m < e - i - c
        ensures MatchesAt(s[i..e], m, Close(t)) <==> MatchesAt(s, i + m, Close(t))
      {
        MatchesAtSlice(s, i, e, m, Close(t));
      }
      assert NoCloseIn(s, t, b, e - c) <==> NoCloseIn(s[i..e], t, b - i, e - i - c) by {
        if NoCloseIn(s, t, b, e - c) {
          forall m: nat | b - i <= m < e - i - c ensures !MatchesAt(s[i..e], m, Close(t)) {
            assert b <= i + m < e - c;
          }
        }
        if NoCloseIn(s[i..e], t, b - i, e - i - c) {
          forall m: nat | b <= m < e - c ensures !MatchesAt(s, m, Close(t)) {
            var m' := m - i;
            assert b - i <= m' < e - i - c;
            MatchesAtSlice(s, i, e, m', Close(t));
          }
        }
      }
    }
  }

  /** Whether s[i..e] is a whole element depends on those characters alone. */
  lemma ElementIsLocal(s: string, t: string, i: nat, e: nat)
    requires i <= e <= |s|
    ensures IsElement(s, t, i, e) <==> IsElement(s[i..e], t, 0, e - i)
  {
    var w := s[i..e];
    if IsElement(s, t, i, e) {
      var b: nat :| IsOpenTag(s, t, i, b) && IsElementRest(s, t, b, e);
      OpenTagIsLocal(s, t, i, e, b);
      RestIsLocal(s, t, i, e, b);
      assert IsOpenTag(w, t, 0, b - i) && IsElementRest(w, t, b - i, e - i);
    }
    if IsElement(w, t, 0, e - i) {
      var b: nat :| IsOpenTag(w, t, 0, b) && IsElementRest(w, t, b, e - i);
      OpenTagIsLocal(s, t, i, e, i + b);
      RestIsLocal(s, t, i, e, i + b);
      assert IsOpenTag(s, t, i, i + b) && IsElementRest(s, t, i + b, e);
    }
  }
}
