/**
 * Locating the `[[ TOC ]]` placement markers among the top-level children
 * of a document (src/index.ts, findTocMarker and the predicates under it).
 *
 * The regular expression `/\[\[\s*TOC\s*]]/gi` is written out by hand: two
 * opening brackets, any run of white space, the letters t, o, c in either
 * case, any run of white space, two closing brackets, anywhere in the
 * trimmed text.
 */
module Marker {
  import opened Mdast

  /** The characters matched by `\s` and removed by `String.prototype.trim`:
      the ECMAScript WhiteSpace and LineTerminator code points. */
  predicate IsJsSpace(c: char) {
    c == '\t' || c == '\n' || c == '\U{000B}' || c == '\U{000C}' || c == '\r' || c == ' '
    || c == '\U{00A0}' || c == '\U{1680}' || ('\U{2000}' <= c <= '\U{200A}')
    || c == '\U{2028}' || c == '\U{2029}' || c == '\U{202F}' || c == '\U{205F}'
    || c == '\U{3000}' || c == '\U{FEFF}'
  }

  predicate AllSpace(s: string, from: int, to: int)
    requires 0 <= from <= to <= |s|
  {
    forall p :: from <= p < to ==> IsJsSpace(s[p])
  }

  /** The first position at or after `p` that does not hold white space. */
  function SkipSpaces(s: string, p: nat): (q: nat)
    requires p <= |s|
    ensures p <= q <= |s|
    ensures AllSpace(s, p, q)
    ensures q < |s| ==> !IsJsSpace(s[q])
    decreases |s| - p
  {
    if p == |s| || !IsJsSpace(s[p]) then p else SkipSpaces(s, p + 1)
  }

  /** One past the last position before `e` that does not hold white space. */
  function SkipSpacesBack(s: string, e: nat): (b: nat)
    requires e <= |s|
    ensures b <= e
    ensures AllSpace(s, b, e)
    ensures b > 0 ==> !IsJsSpace(s[b - 1])
  {
    if e == 0 || !IsJsSpace(s[e - 1]) then e else SkipSpacesBack(s, e - 1)
  }

  /** `String.prototype.trim`. */
  function Trim(s: string): (t: string)
    ensures |t| <= |s|
    ensures t == [] || (!IsJsSpace(t[0]) && !IsJsSpace(t[|t| - 1]))
  {
    var a := SkipSpaces(s, 0);
    var b := SkipSpacesBack(s, |s|);
    if b <= a then [] else s[a..b]
  }

  /** Trimming cuts only white space, and only at the two ends. */
  lemma TrimStrips(s: string)
    ensures exists a, b | 0 <= a <= b <= |s| :: Trim(s) == s[a..b] && AllSpace(s, 0, a) && AllSpace(s, b, |s|)
  {
    var a := SkipSpaces(s, 0);
    var b := SkipSpacesBack(s, |s|);
    if b <= a {
      assert Trim(s) == s[a..a] && AllSpace(s, a, |s|);
    } else {
      assert Trim(s) == s[a..b];
    }
  }

  predicate IsTocLetters(s: string, j: nat)
    requires j + 3 <= |s|
  {
    (s[j] == 't' || s[j] == 'T') && (s[j + 1] == 'o' || s[j + 1] == 'O') && (s[j + 2] == 'c' || s[j + 2] == 'C')
  }

  /** Does a match of the marker pattern start at position `i`? White space
      is skipped greedily, which loses nothing because neither a letter of
      `toc` nor a bracket is white space. */
  predicate MatchAt(s: string, i: nat) {
    i + 2 <= |s| && s[i] == '[' && s[i + 1] == '[' &&
    var j := SkipSpaces(s, i + 2);
    j + 3 <= |s| && IsTocLetters(s, j) &&
    var k := SkipSpaces(s, j + 3);
    k + 2 <= |s| && s[k] == ']' && s[k + 1] == ']'
  }

  /** `/\[\[\s*TOC\s*]]/gi.test(s)` */
  predicate HasMarker(s: string) {
    exists i | 0 <= i < |s| :: MatchAt(s, i)
  }

  /** Reference reading of the pattern: `s[i..k+2]` is `[[`, spaces
      `s[i+2..j]`, `toc` at `j`, spaces `s[j+3..k]`, then `]]`. */
  ghost predicate MarkerAt(s: string, i: int, j: int, k: int) {
    0 <= i && i + 2 <= j && j + 3 <= k && k + 2 <= |s|
    && s[i] == '[' && s[i + 1] == '['
    && AllSpace(s, i + 2, j) && IsTocLetters(s, j) && AllSpace(s, j + 3, k)
    && s[k] == ']' && s[k + 1] == ']'
  }

  lemma MatchAtIffMarkerAt(s: string, i: nat)
    ensures MatchAt(s, i) <==> exists j, k :: MarkerAt(s, i, j, k)
  {
    if MatchAt(s, i) {
      var j := SkipSpaces(s, i + 2);
      var k := SkipSpaces(s, j + 3);
      assert MarkerAt(s, i, j, k);
    }
    if j, k :| MarkerAt(s, i, j, k) {
      SkipSpacesStopsAt(s, i + 2, j);
      SkipSpacesStopsAt(s, j + 3, k);
    }
  }

  /** Skipping spaces from `p` lands on the first non-space `q` after a run of spaces. */
  lemma {:induction false} SkipSpacesStopsAt(s: string, p: nat, q: nat)
    requires p <= q < |s| && AllSpace(s, p, q) && !IsJsSpace(s[q])
    ensures SkipSpaces(s, p) == q
    decreases q - p
  {
    if p < q {
      SkipSpacesStopsAt(s, p + 1, q);
    }
  }

  /** The hand-written matcher finds a match exactly when the pattern occurs. */
  lemma HasMarkerIffPattern(s: string)
    ensures HasMarker(s) <==> exists i, j, k :: MarkerAt(s, i, j, k)
  {
    if HasMarker(s) {
      var i :| 0 <= i < |s| && MatchAt(s, i);
      MatchAtIffMarkerAt(s, i);
    }
    if i, j, k :| MarkerAt(s, i, j, k) {
      MatchAtIffMarkerAt(s, i);
    }
  }

  /** A match inside a slice is a match in the whole string, shifted. */
  lemma MarkerInSlice(s: string, a: nat, b: nat, i: int, j: int, k: int)
    requires a <= b <= |s|
    ensures MarkerAt(s[a..b], i, j, k) ==> MarkerAt(s, i + a, j + a, k + a)
  {
    var t := s[a..b];
    if MarkerAt(t, i, j, k) {
      forall p | i + a + 2 <= p < j + a ensures IsJsSpace(s[p]) {
        assert s[p] == t[p - a];
      }
      forall p | j + a + 3 <= p < k + a ensures IsJsSpace(s[p]) {
        assert s[p] == t[p - a];
      }
      assert s[j + a] == t[j] && s[j + a + 1] == t[j + 1] && s[j + a + 2] == t[j + 2];
      assert s[k + a] == t[k] && s[k + a + 1] == t[k + 1];
    }
  }

  /** A match lying inside `[a, b)` is a match of the slice, shifted. */
  lemma MarkerToSlice(s: string, a: nat, b: nat, i: int, j: int, k: int)
    requires a <= b <= |s| && MarkerAt(s, i, j, k) && a <= i && k + 2 <= b
    ensures MarkerAt(s[a..b], i - a, j - a, k - a)
  {
    var t := s[a..b];
    forall p | i - a + 2 <= p < j - a ensures IsJsSpace(t[p]) {
      assert t[p] == s[p + a];
    }
    forall p | j - a + 3 <= p < k - a ensures IsJsSpace(t[p]) {
      assert t[p] == s[p + a];
    }
    assert t[j - a] == s[j] && t[j - a + 1] == s[j + 1] && t[j - a + 2] == s[j + 2];
    assert t[k - a] == s[k] && t[k - a + 1] == s[k + 1];
  }

  /** Trimming before the test changes nothing: a match starts and ends
      with a bracket, which trimming never removes. */
  lemma TrimKeepsMarker(s: string)
    ensures HasMarker(Trim(s)) <==> HasMarker(s)
  {
    MarkerSurvivesTrim(s);
    MarkerOfTrim(s);
  }

  lemma MarkerOfTrim(s: string)
    ensures HasMarker(Trim(s)) ==> HasMarker(s)
  {
    if HasMarker(Trim(s)) {
      var a := SkipSpaces(s, 0);
      var b := SkipSpacesBack(s, |s|);
      assert a < b;
      assert Trim(s) == s[a..b];
      HasMarkerIffPattern(Trim(s));
      var i, j, k :| MarkerAt(s[a..b], i, j, k);
      MarkerInSlice(s, a, b, i, j, k);
      HasMarkerIffPattern(s);
    }
  }

  lemma MarkerSurvivesTrim(s: string)
    ensures HasMarker(s) ==> HasMarker(Trim(s))
  {
    if HasMarker(s) {
      var a := SkipSpaces(s, 0);
      var b := SkipSpacesBack(s, |s|);
      HasMarkerIffPattern(s);
      var i, j, k :| MarkerAt(s, i, j, k);
      assert a <= i && k + 2 <= b;
      assert Trim(s) == s[a..b];
      MarkerToSlice(s, a, b, i, j, k);
      HasMarkerIffPattern(Trim(s));
    }
  }

  /** `isTocMarker`: a text node whose trimmed value contains the marker;
      since trimming never matters, its value contains the pattern. */
  predicate IsTocMarker(p: Phrasing)
    ensures IsTocMarker(p) <==> p.Text? && exists i, j, k :: MarkerAt(p.value, i, j, k)
  {
    p.Text? && (TrimKeepsMarker(p.value); HasMarkerIffPattern(p.value); HasMarker(Trim(p.value)))
  }

  /** `isTextOnlyParagraph`: a paragraph holding exactly one text node. */
  predicate IsTextOnlyParagraph(n: Node) {
    n.Paragraph? && |n.children| == 1 && n.children[0].Text?
  }

  /** The test `findTocMarker` applies to each child: a paragraph whose one
      text node is a marker (`IsTocMarker`). */
  predicate IsMarkerNode(n: Node) {
    IsTextOnlyParagraph(n) && IsTocMarker(n.children[0])
  }

  /** The smallest index at or after `start` holding a marker, or -1. */
  function FirstMarker(children: seq<Node>, start: nat): (r: int)
    ensures r == -1 || (start <= r < |children| && IsMarkerNode(children[r]))
    ensures forall p :: start <= p < |children| && (r == -1 || p < r) ==> !IsMarkerNode(children[p])
    decreases |children| - start
  {
    if start >= |children| then -1
    else if IsMarkerNode(children[start]) then start
    else FirstMarker(children, start + 1)
  }

  /** When the scan from `start` finds nothing, no child from `start` on is a marker. */
  lemma NoMarkerAfter(children: seq<Node>, start: nat, j: nat)
    requires FirstMarker(children, start) == -1 && start <= j < |children|
    ensures !IsMarkerNode(children[j])
  {
  }

  /** `findTocMarker(tree, startIndex)`: a read-only scan of the top-level children. */
  method FindTocMarker(tree: Root, startIndex: nat) returns (index: int)
    ensures index == FirstMarker(tree.children, startIndex)
  {
    var i := startIndex;
    while i < |tree.children|
      invariant startIndex <= i
      invariant FirstMarker(tree.children, startIndex) == FirstMarker(tree.children, i)
    {
      var node := tree.children[i];
      if IsTextOnlyParagraph(node) {
        if IsTocMarker(node.children[0]) {
          return i;
        }
      }
      i := i + 1;
    }
    return -1;
  }
}
