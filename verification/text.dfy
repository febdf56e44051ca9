/**
 String helpers with the meaning JavaScript gives them in script.js:
 `String.prototype.trim`, `Array.prototype.join`, `String.prototype.split('\n')`
 and the ASCII case folding that a `/i` regular expression without the `u`
 flag applies to the letters of "style" and "script".
 */
module Text {

  /** The code points `trim` removes: ECMAScript WhiteSpace (TAB, VT, FF, SP,
      NBSP, ZWNBSP and the other Zs characters) and LineTerminator (LF, CR,
      LS, PS). */
  predicate IsJsSpace(c: char) {
    || c == '\t' || c == '\n' || c == '\U{B}' || c == '\U{C}' || c == '\r'
    || c == ' ' || c == '\U{A0}' || c == '\U{1680}'
    || ('\U{2000}' <= c <= '\U{200A}')
    || c == '\U{2028}' || c == '\U{2029}' || c == '\U{202F}' || c == '\U{205F}'
    || c == '\U{3000}' || c == '\U{FEFF}'
  }

  predicate AllSpace(s: string) {
    forall i :: 0 <= i < |s| ==> IsJsSpace(s[i])
  }

  /** Drops the leading white space. */
  function TrimStart(s: string): string
  {
    if s != [] && IsJsSpace(s[0]) then TrimStart(s[1..]) else s
  }

  /** Drops the trailing white space. */
  function TrimEnd(s: string): string
  {
    if s != [] && IsJsSpace(s[|s| - 1]) then TrimEnd(s[..|s| - 1]) else s
  }

  /** `s.trim()`. */
  function Trim(s: string): string
  {
    TrimEnd(TrimStart(s))
  }

  /** TrimStart keeps the longest suffix that does not start with white
      space, and drops only white space. */
  lemma {:induction false} TrimStartIsLongestSuffix(s: string)
    ensures var r := TrimStart(s);
      && |r| <= |s| && r == s[|s| - |r|..]
      && AllSpace(s[..|s| - |r|])
      && (r == [] || !IsJsSpace(r[0]))
  {
    if s != [] && IsJsSpace(s[0]) {
      TrimStartIsLongestSuffix(s[1..]);
      var r := TrimStart(s[1..]);
      assert s[1..][|s| - 1 - |r|..] == s[|s| - |r|..];
      var pre := s[..|s| - |r|];
      forall m | 0 <= m < |pre| ensures IsJsSpace(pre[m]) {
        if m > 0 {
          assert pre[m] == s[1..][..|s| - 1 - |r|][m - 1];
        }
      }
    }
  }

  /** TrimEnd keeps the longest prefix that does not end with white space,
      and drops only white space. */
  lemma {:induction false} TrimEndIsLongestPrefix(s: string)
    ensures var r := TrimEnd(s);
      && |r| <= |s| && r == s[..|r|]
      && AllSpace(s[|r|..])
      && (r == [] || !IsJsSpace(r[|r| - 1]))
    decreases |s|
  {
    if s != [] && IsJsSpace(s[|s| - 1]) {
      var n := |s| - 1;
      TrimEndIsLongestPrefix(s[..n]);
      var r := TrimEnd(s[..n]);
      assert s[..n][..|r|] == s[..|r|];
      forall m | 0 <= m < |s| - |r| ensures IsJsSpace(s[|r|..][m]) {
        if m < n - |r| {
          assert s[|r|..][m] == s[..n][|r|..][m];
        }
      }
    }
  }

  /** Trim gives the empty string exactly for all-white-space input, never
      grows its input, and never starts or ends with white space. */
  lemma TrimIsTheCore(s: string)
    ensures var r := Trim(s);
      && |r| <= |s|
      && (r == [] <==> AllSpace(s))
      && (r == [] || (!IsJsSpace(r[0]) && !IsJsSpace(r[|r| - 1])))
  {
    var t := TrimStart(s);
    var r := TrimEnd(t);
    TrimStartIsLongestSuffix(s);
    TrimEndIsLongestPrefix(t);
    assert r != [] ==> r[0] == t[0];
    assert t != [] ==> !AllSpace(s) by {
      if t != [] {
        assert s[|s| - |t|] == t[0];
      }
    }
    assert r == [] ==> AllSpace(s) by {
      if r == [] {
        assert s == s[..|s| - |t|] + t;
        assert t == t[|r|..];
        AllSpaceConcat(s, |s| - |t|);
      }
    }
  }

  /** TrimStart stops at the first character that is not white space. */
  lemma {:induction false} TrimStartStopsAt(s: string, i: nat)
    requires i <= |s| && AllSpace(s[..i])
    requires i == |s| || !IsJsSpace(s[i])
    ensures TrimStart(s) == s[i..]
  {
    if i > 0 {
      assert s[..i][0] == s[0];
      assert s[1..][..i - 1] == s[1..i];
      assert forall m :: 0 <= m < i - 1 ==> s[1..i][m] == s[..i][m + 1];
      TrimStartStopsAt(s[1..], i - 1);
      assert s[1..][i - 1..] == s[i..];
    }
  }

  /** TrimEnd stops after the last character that is not white space. */
  lemma {:induction false} TrimEndStopsAt(s: string, j: nat)
    requires j <= |s| && AllSpace(s[j..])
    requires j == 0 || !IsJsSpace(s[j - 1])
    ensures TrimEnd(s) == s[..j]
    decreases |s|
  {
    if j < |s| {
      var n := |s| - 1;
      assert s[j..][n - j] == s[n];
      assert s[..n][j..] == s[j..n];
      assert forall m :: 0 <= m < n - j ==> s[j..n][m] == s[j..][m];
      TrimEndStopsAt(s[..n], j);
      assert s[..n][..j] == s[..j];
    }
  }

  lemma AllSpaceConcat(s: string, i: nat)
    requires i <= |s| && AllSpace(s[..i]) && AllSpace(s[i..])
    ensures AllSpace(s)
  {
    forall m | 0 <= m < |s| ensures IsJsSpace(s[m]) {
      if m < i { assert s[..i][m] == s[m]; } else { assert s[i..][m - i] == s[m]; }
    }
  }

  lemma TrimEndOfSuffix(s: string, i: nat, j: nat)
    requires i < j <= |s| && AllSpace(s[j..]) && !IsJsSpace(s[j - 1])
    ensures TrimEnd(s[i..]) == s[i..j]
  {
    var t := s[i..];
    assert t[j - i..] == s[j..];
    assert t[j - i - 1] == s[j - 1];
    TrimEndStopsAt(t, j - i);
    assert t[..j - i] == s[i..j];
  }

  /** Trim is the slice between a white-space prefix and a white-space suffix
      whose ends are not white space; any such slice is what Trim returns. */
  lemma {:induction false} TrimIsTheUniqueSlice(s: string, i: nat, j: nat)
    requires i <= j <= |s|
    requires AllSpace(s[..i]) && AllSpace(s[j..])
    requires i == j || (!IsJsSpace(s[i]) && !IsJsSpace(s[j - 1]))
    ensures Trim(s) == s[i..j]
  {
    if i == j {
      AllSpaceConcat(s, i);
      TrimIsTheCore(s);
    } else {
      TrimStartStopsAt(s, i);
      TrimEndOfSuffix(s, i, j);
    }
  }

  lemma {:induction false} TrimIdempotent(s: string)
    ensures Trim(Trim(s)) == Trim(s)
  {
    var r := Trim(s);
    TrimIsTheCore(s);
    assert r[..0] == [] && r[|r|..] == [];
    TrimIsTheUniqueSlice(r, 0, |r|);
    assert r[0..|r|] == r;
  }

  /** `parts.join(sep)`: the parts in order with `sep` between neighbours. */
  function Join(parts: seq<string>, sep: string): string
  {
    if |parts| == 0 then []
    else if |parts| == 1 then parts[0]
    else parts[0] + sep + Join(parts[1..], sep)
  }

  /** `s.split('\n')`: the maximal newline-free pieces, one more than there
      are newlines. */
  function SplitLines(s: string): (r: seq<string>)
    ensures |r| >= 1
  {
    if s == [] then [[]]
    else
      var rest := SplitLines(s[1..]);
      if s[0] == '\n' then [[]] + rest else [[s[0]] + rest[0]] + rest[1..]
  }

  predicate NoNewline(s: string) {
    forall i :: 0 <= i < |s| ==> s[i] != '\n'
  }

  lemma {:induction false} SplitLinesCount(s: string)
    ensures |SplitLines(s)| == multiset(s)['\n'] + 1
  {
    if s != [] {
      SplitLinesCount(s[1..]);
      assert s == [s[0]] + s[1..];
      assert multiset(s) == multiset([s[0]]) + multiset(s[1..]);
    }
  }

  lemma {:induction false} SplitLinesPiecesHaveNoNewline(s: string)
    ensures forall k :: 0 <= k < |SplitLines(s)| ==> NoNewline(SplitLines(s)[k])
  {
    if s != [] {
      SplitLinesPiecesHaveNoNewline(s[1..]);
    }
  }

  /** Joining the lines of `s` with newlines gives `s` back. */
  lemma {:induction false} JoinSplitLines(s: string)
    ensures Join(SplitLines(s), "\n") == s
  {
    if s != [] {
      var rest := SplitLines(s[1..]);
      JoinSplitLines(s[1..]);
      if s[0] == '\n' {
        assert SplitLines(s) == [[]] + rest;
        assert SplitLines(s)[1..] == rest;
        assert s == [] + "\n" + s[1..];
      } else {
        var r := SplitLines(s);
        assert r == [[s[0]] + rest[0]] + rest[1..];
        if |rest| == 1 {
          assert rest[0] == s[1..];
        } else {
          assert r[1..] == rest[1..];
          assert Join(rest, "\n") == rest[0] + "\n" + Join(rest[1..], "\n");
        }
      }
    }
  }

  /** Splitting a newline join of newline-free parts gives the parts back. */
  lemma {:induction false} SplitLinesJoin(parts: seq<string>)
    requires |parts| >= 1
    requires forall k :: 0 <= k < |parts| ==> NoNewline(parts[k])
    ensures SplitLines(Join(parts, "\n")) == parts
  {
    if |parts| == 1 {
      SplitLinesOfLine(parts[0], []);
      assert SplitLines([]) == [[]];
      assert parts[0] + [] == parts[0];
    } else {
      SplitLinesJoin(parts[1..]);
      var tail := Join(parts[1..], "\n");
      assert Join(parts, "\n") == parts[0] + ("\n" + tail);
      SplitLinesOfLine(parts[0], "\n" + tail);
      assert ("\n" + tail)[1..] == tail;
      var r := SplitLines("\n" + tail);
      assert r == [[]] + parts[1..];
      assert r[0] == [] && r[1..] == parts[1..];
      assert parts[0] + [] == parts[0];
      assert parts == [parts[0]] + parts[1..];
    }
  }

  /** A newline-free prefix glues onto the first line of what follows. */
  lemma {:induction false} SplitLinesOfLine(a: string, t: string)
    requires NoNewline(a)
    ensures var r := SplitLines(t); SplitLines(a + t) == [a + r[0]] + r[1..]
  {
    if a != [] {
      SplitLinesOfLine(a[1..], t);
      assert (a + t)[1..] == a[1..] + t;
      assert (a + t)[0] == a[0];
      assert [a[0]] + (a[1..] + SplitLines(t)[0]) == a + SplitLines(t)[0];
    } else {
      assert a + t == t;
      var r := SplitLines(t);
      assert [] + r[0] == r[0];
      assert r == [r[0]] + r[1..];
    }
  }

  /** ASCII-only lower casing: the folding JavaScript's case-insensitive
      matching (without the `u` flag) gives the ASCII letters it compares. */
  function AsciiLower(c: char): (r: char)
    ensures 'A' <= c <= 'Z' ==> 'a' <= r <= 'z' && r as int == c as int + 32
    ensures !('A' <= c <= 'Z') ==> r == c
  {
    if 'A' <= c <= 'Z' then (c as int + 32) as char else c
  }

  /** Case-insensitive occurrence of `pat` at position `i` of `s`. */
  predicate MatchesAt(s: string, i: nat, pat: string) {
    i + |pat| <= |s| && forall k :: 0 <= k < |pat| ==> AsciiLower(s[i + k]) == AsciiLower(pat[k])
  }

  /** `pat` occurs nowhere in `x`, in any letter case. */
  predicate Absent(x: string, pat: string) {
    forall q :: 0 <= q <= |x| ==> !MatchesAt(x, q, pat)
  }

  /** An occurrence inside a slice is an occurrence in the whole string. */
  lemma MatchesAtSlice(s: string, i: nat, e: nat, q: nat, pat: string)
    requires i <= e <= |s| && q + |pat| <= e - i
    ensures MatchesAt(s, i + q, pat) <==> MatchesAt(s[i..e], q, pat)
  {
  }

  /** A pattern whose only '<' is its first character cannot occur across a
      '<' of the text. */
  lemma NoMatchAcrossLt(s: string, q: nat, j: nat, pat: string)
    requires q < j < |s| && j < q + |pat| && s[j] == '<'
    requires forall k :: 1 <= k < |pat| ==> AsciiLower(pat[k]) != '<'
    ensures !MatchesAt(s, q, pat)
  {
    var k := j - q;
    assert AsciiLower(s[q + k]) != AsciiLower(pat[k]);
  }

  /** A join with a non-empty separator is empty exactly when there is no
      part, or a single empty one. */
  lemma JoinIsEmpty(parts: seq<string>, sep: string)
    requires sep != []
    ensures Join(parts, sep) == [] <==> |parts| == 0 || (|parts| == 1 && parts[0] == [])
  {
  }

  predicate IsSuffix(x: string, y: string) {
    |x| <= |y| && y[|y| - |x|..] == x
  }

  /** A suffix of y is a suffix of anything that ends with y. */
  lemma IsSuffixCons(x: string, c: char, y: string, z: string)
    requires IsSuffix(x, y) && z == [c] + y
    ensures IsSuffix(x, z)
  {
    assert z[|z| - |x|..] == y[|y| - |x|..];
  }

  lemma SliceOfSlice(s: string, b: nat, c: nat, i: nat, j: nat)
    requires b <= i <= j <= c <= |s|
    ensures s[b..c][i - b..j - b] == s[i..j]
  {
    var x, y := s[b..c][i - b..j - b], s[i..j];
    assert forall t :: 0 <= t < |x| ==> x[t] == y[t];
  }

  lemma SliceCons<T>(s: seq<T>, i: nat, j: nat)
    requires i < j <= |s|
    ensures s[i..j] == [s[i]] + s[i + 1..j]
  {
  }

  /** Putting c in front of x' and then appending y is putting c in front
      of x' + y. */
  lemma AppendCons<T>(c: T, x: seq<T>, x': seq<T>, y: seq<T>)
    requires x == [c] + x'
    ensures x + y == [c] + (x' + y)
  {
  }

  /** [c] + x' followed by y is [c] followed by x' + y. */
  lemma ConsAppend<T>(c: T, x: seq<T>, x': seq<T>, y: seq<T>, d: seq<T>, d': seq<T>)
    requires x == [c] + x' && d == [c] + d' && d' == x' + y
    ensures d == x + y
  {
  }
}
