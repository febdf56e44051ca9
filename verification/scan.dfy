/**
 The global scan that `String.prototype.match` and `String.prototype.replace`
 perform for a regular expression with the `g` flag, over any way of finding
 the match that starts at a position: try each position from left to right,
 take the match that starts there if there is one and go on after its end,
 otherwise go on at the next position.
 */
module Scanner {
  import opened Text

  datatype Option<T> = None | Some(value: T)

  /** A half-open range [start, end) of positions of a string. */
  datatype Span = Span(start: nat, end: nat)

  /** For each position, the end of the match that starts there, if any. */
  type Finder = nat -> Option<nat>

  /** Every match the finder reports inside s is non-empty and ends inside s. */
  predicate Advances(f: Finder, s: string) {
    forall q: nat :: q < |s| && f(q).Some? ==> q < f(q).value <= |s|
  }

  /** Spans lie inside [from, to], are non-empty, and come in increasing
      order without overlapping. */
  predicate Ordered(spans: seq<Span>, from: nat, to: nat) {
    && (forall k :: 0 <= k < |spans| ==> from <= spans[k].start < spans[k].end <= to)
    && (forall j, k :: 0 <= j < k < |spans| ==> spans[j].end <= spans[k].start)
  }

  /** The spans of the matches found from position i on. */
  function Scan(f: Finder, s: string, i: nat): seq<Span>
    requires i <= |s| && Advances(f, s)
    decreases |s| - i
  {
    if i == |s| then []
    else
      match f(i)
      case Some(e) => [Span(i, e)] + Scan(f, s, e)
      case None => Scan(f, s, i + 1)
  }

  /** The same scan, dropping each match and keeping every character no
      match covers. */
  function Delete(f: Finder, s: string, i: nat): string
    requires i <= |s| && Advances(f, s)
    decreases |s| - i
  {
    if i == |s| then []
    else
      match f(i)
      case Some(e) => Delete(f, s, e)
      case None => [s[i]] + Delete(f, s, i + 1)
  }

  /** The matches come in order, inside the scanned text, without overlap. */
  lemma {:induction false} ScanIsOrdered(f: Finder, s: string, i: nat)
    requires i <= |s| && Advances(f, s)
    ensures Ordered(Scan(f, s, i), i, |s|)
    decreases |s| - i
  {
    if i < |s| {
      match f(i)
      case Some(e) =>
        ScanIsOrdered(f, s, e);
        OrderedCons(i, e, Scan(f, s, e), |s|);
      case None =>
        ScanIsOrdered(f, s, i + 1);
    }
  }

  lemma OrderedCons(i: nat, e: nat, r: seq<Span>, to: nat)
    requires i < e && Ordered(r, e, to) && e <= to
    ensures Ordered([Span(i, e)] + r, i, to)
  {
    var x := [Span(i, e)] + r;
    assert forall k :: 1 <= k < |x| ==> x[k] == r[k - 1];
  }

  // ---------------------------------------------------------------------
  // What the deletion keeps

  /** The text of s[i..] that lies outside the given spans, in its order. */
  function Outside(s: string, spans: seq<Span>, i: nat): string
    requires i <= |s| && Ordered(spans, i, |s|)
    decreases |spans|
  {
    if spans == [] then s[i..]
    else s[i..spans[0].start] + Outside(s, spans[1..], spans[0].end)
  }

  /** Total length of the spans. */
  function Covered(spans: seq<Span>): nat
    requires forall k :: 0 <= k < |spans| ==> spans[k].start <= spans[k].end
  {
    if spans == [] then 0 else spans[0].end - spans[0].start + Covered(spans[1..])
  }

  /** `replace` deletes exactly the spans `match` finds and keeps the rest
      of the text in its order. */
  lemma {:induction false} DeleteIsOutside(f: Finder, s: string, i: nat)
    requires i <= |s| && Advances(f, s)
    ensures Ordered(Scan(f, s, i), i, |s|)
    ensures Delete(f, s, i) == Outside(s, Scan(f, s, i), i)
    decreases |s| - i
  {
    ScanIsOrdered(f, s, i);
    if i < |s| {
      match f(i)
      case Some(e) =>
        DeleteIsOutside(f, s, e);
        OutsideTake(s, Scan(f, s, e), i, e);
      case None =>
        DeleteIsOutside(f, s, i + 1);
        OutsideSkip(s, Scan(f, s, i + 1), i);
    }
  }

  /** A span at the start of the text is left out. */
  lemma OutsideTake(s: string, r: seq<Span>, i: nat, e: nat)
    requires i < e <= |s| && Ordered(r, e, |s|)
    ensures Ordered([Span(i, e)] + r, i, |s|)
    ensures Outside(s, [Span(i, e)] + r, i) == Outside(s, r, e)
  {
    OrderedCons(i, e, r, |s|);
    var x := [Span(i, e)] + r;
    assert x[1..] == r;
    assert s[i..i] == [];
  }

  /** A character before the first span is kept. */
  lemma OutsideSkip(s: string, r: seq<Span>, i: nat)
    requires i < |s| && Ordered(r, i + 1, |s|)
    ensures Outside(s, r, i) == [s[i]] + Outside(s, r, i + 1)
  {
    if r == [] {
      SliceCons(s, i, |s|);
      assert s[i..|s|] == s[i..] && s[i + 1..|s|] == s[i + 1..];
    } else {
      var b := r[0].start;
      var w := Outside(s, r[1..], r[0].end);
      assert Outside(s, r, i + 1) == s[i + 1..b] + w;
      SliceCons(s, i, b);
      AppendCons(s[i], s[i..b], s[i + 1..b], w);
    }
  }

  /** What is kept and what is deleted add up to the scanned text. */
  lemma {:induction false} OutsideLength(s: string, spans: seq<Span>, i: nat)
    requires i <= |s| && Ordered(spans, i, |s|)
    ensures |Outside(s, spans, i)| + Covered(spans) == |s| - i
    decreases |spans|
  {
    if spans != [] {
      OutsideLength(s, spans[1..], spans[0].end);
    }
  }

  // ---------------------------------------------------------------------
  // Walking over stretches of text

  /** Positions where no match starts are passed over by the scan and kept
      by the deletion. */
  lemma {:induction false} SkipsTo(f: Finder, s: string, i: nat, j: nat)
    requires i <= j <= |s| && Advances(f, s)
    requires forall q: nat :: i <= q < j ==> f(q).None?
    ensures Scan(f, s, i) == Scan(f, s, j)
    ensures Delete(f, s, i) == s[i..j] + Delete(f, s, j)
    decreases j - i
  {
    if i < j {
      SkipsTo(f, s, i + 1, j);
      SliceCons(s, i, j);
      ConsAppend(s[i], s[i..j], s[i + 1..j], Delete(f, s, j), Delete(f, s, i), Delete(f, s, i + 1));
    }
  }

  /** r ends with r', and what comes before r' ends at or before i. */
  predicate EndsWith(r: seq<Span>, r': seq<Span>, i: nat) {
    && |r'| <= |r| && r[|r| - |r'|..] == r'
    && forall k :: 0 <= k < |r| - |r'| ==> r[k].end <= i
  }

  lemma EndsWithCons(h: Span, r: seq<Span>, r': seq<Span>, i: nat)
    requires EndsWith(r, r', i) && h.end <= i
    ensures EndsWith([h] + r, r', i)
  {
    var x := [h] + r;
    assert x[|x| - |r'|..] == r[|r| - |r'|..];
  }

  /** When no match that starts in [a, i) runs past i, the scan from a passes
      through i: the spans it finds before i end by i, the rest are the spans
      found from i, and what the deletion keeps from i on is the tail of what
      it keeps from a. */
  lemma {:induction false} PassesThrough(f: Finder, s: string, a: nat, i: nat)
    requires a <= i <= |s| && Advances(f, s)
    requires forall q: nat :: a <= q < i && f(q).Some? ==> f(q).value <= i
    ensures EndsWith(Scan(f, s, a), Scan(f, s, i), i)
    ensures IsSuffix(Delete(f, s, i), Delete(f, s, a))
    decreases i - a
  {
    if a < i {
      match f(a)
      case Some(e) =>
        PassesThrough(f, s, e, i);
        EndsWithCons(Span(a, e), Scan(f, s, e), Scan(f, s, i), i);
      case None =>
        PassesThrough(f, s, a + 1, i);
        IsSuffixCons(Delete(f, s, i), s[a], Delete(f, s, a + 1), Delete(f, s, a));
    }
  }
}
