/**
 * The hierarchy builder of src/index.ts: the flat, ordered list of
 * collected headings becomes a tree whose top level is the shallowest depth
 * present and whose every edge goes exactly one level deeper, with
 * placeholder entries filling skipped levels.
 *
 * The source pushes into `children` arrays of entries already placed in the
 * tree; here the entry on the rightmost spine is rebuilt instead. The two
 * agree because every entry has exactly one parent in the tree, and the
 * flat list of collected headings that also holds each record is not read
 * again once the tree is built.
 */
module Outline {
  import opened Mdast

  /** `HeadingInfo`: a collected heading (its position among the document's
      top-level children, depth, optional id, inline content) together with
      the sub-entries the builder attaches; or a placeholder. */
  datatype HeadingInfo = HeadingInfo(
    index: int,
    depth: HeadingDepth,
    id: Option<string>,
    content: seq<Phrasing>,
    children: seq<HeadingInfo>)

  /** Placeholders are the entries the builder synthesizes; they carry index -1. */
  predicate IsPlaceholder(n: HeadingInfo) {
    n.index == -1
  }

  /** The parent `ensureDepth` wraps around `child`: index -1, no id, empty content. */
  function Placeholder(depth: HeadingDepth, child: HeadingInfo): HeadingInfo {
    HeadingInfo(-1, depth, None, [], [child])
  }

  /** The shape every built tree has: every edge goes exactly one level
      deeper, and a placeholder has no id, no content and at least one
      sub-entry. */
  ghost predicate WellFormed(n: HeadingInfo)
    decreases n
  {
    (IsPlaceholder(n) ==> n.id == None && n.content == [] && n.children != []) &&
    forall c | c in n.children :: c.depth == n.depth + 1 && WellFormed(c)
  }

  /** A placeholder is only ever a first child: every sub-entry after the
      first, at every level, is a real heading. A placeholder stands for a
      skipped level, and a heading after the first one under a parent is
      attached beneath an entry that is already there. */
  ghost predicate FirstOnly(n: HeadingInfo)
    decreases n
  {
    (forall k | 0 < k < |n.children| :: !IsPlaceholder(n.children[k])) &&
    forall c | c in n.children :: FirstOnly(c)
  }

  /** The same for the top level of a tree: only its first entry may be a
      placeholder. */
  ghost predicate TopFirstOnly(ns: seq<HeadingInfo>) {
    (forall k | 0 < k < |ns| :: !IsPlaceholder(ns[k])) && forall t | t in ns :: FirstOnly(t)
  }

  /** `top` heads a chain of `n` placeholders, each with exactly one child one
      level deeper, ending in `inner`. */
  ghost predicate Chain(top: HeadingInfo, inner: HeadingInfo, n: nat)
    decreases n
  {
    if n == 0 then top == inner
    else
      IsPlaceholder(top) && top.id == None && top.content == [] &&
      |top.children| == 1 && top.children[0].depth == top.depth + 1 &&
      Chain(top.children[0], inner, n - 1)
  }

  /** The entries of a subtree in preorder, placeholders skipped, each without
      its sub-entries. */
  ghost function Visit(n: HeadingInfo): seq<HeadingInfo>
    decreases n
  {
    (if IsPlaceholder(n) then [] else [n.(children := [])]) + Preorder(n.children)
  }

  ghost function Preorder(ns: seq<HeadingInfo>): seq<HeadingInfo>
    decreases ns
  {
    if ns == [] then [] else Visit(ns[0]) + Preorder(ns[1..])
  }

  /** `deeper`: one level down, clamped at 6. */
  function Deeper(depth: HeadingDepth): HeadingDepth {
    if depth == 6 then depth else depth + 1
  }

  /** `ensureDepth(node, targetDepth)`: wrap `node` in placeholders until the
      outermost one sits at `targetDepth`. The source recurses forever when
      `node` is shallower than `targetDepth`; its callers never do that. */
  function EnsureDepth(node: HeadingInfo, targetDepth: HeadingDepth): (r: HeadingInfo)
    requires node.depth >= targetDepth
    ensures r.depth == targetDepth
    ensures WellFormed(node) ==> WellFormed(r)
    decreases node.depth - targetDepth
  {
    if node.depth == targetDepth then node
    else EnsureDepth(Placeholder(node.depth - 1, node), targetDepth)
  }

  /** `appendLeaf(head, target)`: attach `head` below `target`, going down the
      last-child spine and creating a placeholder where that spine ends too
      early. The source loops forever when `head` is not deeper than
      `target` or the spine skips a level; its callers never do that. */
  function AppendLeaf(head: HeadingInfo, target: HeadingInfo): (r: HeadingInfo)
    requires WellFormed(target) && WellFormed(head) && head.depth > target.depth
    ensures WellFormed(r)
    ensures r.(children := []) == target.(children := [])
    ensures |r.children| > 0 && |r.children| >= |target.children|
    ensures |target.children| > 0 ==> r.children[..|target.children| - 1] == target.children[..|target.children| - 1]
    ensures head.depth == target.depth + 1 ==> r.children == target.children + [head]
    ensures head.depth > target.depth + 1 ==> |r.children| == if |target.children| == 0 then 1 else |target.children|
    decreases target
  {
    if head.depth == target.depth + 1 then
      target.(children := target.children + [head])
    else if |target.children| == 0 then
      target.(children := [EnsureDepth(head, Deeper(target.depth))])
    else
      var n := |target.children|;
      target.(children := target.children[..n - 1] + [AppendLeaf(head, target.children[n - 1])])
  }

  /** One step of `buildTree`: where `head` goes, given the top-level
      entries placed so far. A heading at `minDepth` starts a new top-level
      entry; a deeper first heading gets a placeholder chain up to
      `minDepth`; any other heading goes under the last top-level entry. */
  function Place(head: HeadingInfo, minDepth: HeadingDepth, result: seq<HeadingInfo>): (next: seq<HeadingInfo>)
    requires head.depth >= minDepth && WellFormed(head)
    requires forall t | t in result :: t.depth == minDepth && WellFormed(t)
    ensures forall t | t in next :: t.depth == minDepth && WellFormed(t)
    ensures |next| > 0
    ensures head.depth == minDepth ==> next == result + [head]
    ensures head.depth > minDepth && |result| > 0 ==> |next| == |result| && next[..|result| - 1] == result[..|result| - 1]
  {
    if head.depth == minDepth then
      result + [head]
    else if |result| == 0 then
      [EnsureDepth(head, minDepth)]
    else
      var n := |result|;
      result[..n - 1] + [AppendLeaf(head, result[n - 1])]
  }

  /** `buildTree(headings, minDepth, result)`, the recursion over the list;
      `result` is the array the source's recursion pushes into. */
  function BuildTree(headings: seq<HeadingInfo>, minDepth: HeadingDepth, result: seq<HeadingInfo>): (tree: seq<HeadingInfo>)
    requires forall h | h in headings :: h.depth >= minDepth && WellFormed(h)
    requires forall t | t in result :: t.depth == minDepth && WellFormed(t)
    ensures forall t | t in tree :: t.depth == minDepth && WellFormed(t)
    ensures |tree| == 0 <==> |result| == 0 && |headings| == 0
    decreases |headings|
  {
    if |headings| == 0 then result
    else BuildTree(headings[1..], minDepth, Place(headings[0], minDepth, result))
  }

  /** `headings.reduce((m, h) => Math.min(m, h.depth), acc)`, a left fold. */
  function ReduceMin(acc: HeadingDepth, headings: seq<HeadingInfo>): (m: HeadingDepth)
    ensures m <= acc
    ensures forall h | h in headings :: m <= h.depth
    ensures m == acc || exists h | h in headings :: m == h.depth
    decreases |headings|
  {
    if |headings| == 0 then acc
    else ReduceMin(if headings[0].depth < acc then headings[0].depth else acc, headings[1..])
  }

  /** The root level of a table of contents: the reduce starts at 6, so on a
      non-empty list it is the shallowest depth present. */
  function MinDepth(headings: seq<HeadingInfo>): (m: HeadingDepth)
    ensures forall h | h in headings :: m <= h.depth
    ensures |headings| > 0 ==> exists h | h in headings :: m == h.depth
  {
    ReduceMin(6, headings)
  }

  lemma {:induction false} ChainExtend(top: HeadingInfo, p: HeadingInfo, inner: HeadingInfo, m: nat)
    requires inner.depth > 1 && p == Placeholder(inner.depth - 1, inner)
    requires Chain(top, p, m)
    ensures Chain(top, inner, m + 1)
    decreases m
  {
    if m > 0 {
      ChainExtend(top.children[0], p, inner, m - 1);
    }
  }

  /** `ensureDepth(node, t)` heads a chain of `node.depth - t` placeholders,
      one level apart, whose innermost entry is `node` itself. */
  lemma {:induction false} EnsureDepthChain(node: HeadingInfo, targetDepth: HeadingDepth)
    requires node.depth >= targetDepth
    ensures Chain(EnsureDepth(node, targetDepth), node, node.depth - targetDepth)
    decreases node.depth - targetDepth
  {
    if node.depth > targetDepth {
      var p := Placeholder(node.depth - 1, node);
      EnsureDepthChain(p, targetDepth);
      ChainExtend(EnsureDepth(p, targetDepth), p, node, p.depth - targetDepth);
    }
  }

  lemma {:induction false} PreorderAppend(a: seq<HeadingInfo>, b: seq<HeadingInfo>)
    ensures Preorder(a + b) == Preorder(a) + Preorder(b)
    decreases |a|
  {
    if a == [] {
      assert a + b == b;
    } else {
      assert (a + b)[0] == a[0];
      assert (a + b)[1..] == a[1..] + b;
      PreorderAppend(a[1..], b);
    }
  }

  /** Proof helper, not a property of the program: one unfolding of `Preorder`. */
  lemma PreorderCons(ns: seq<HeadingInfo>)
    requires ns != []
    ensures Preorder(ns) == Visit(ns[0]) + Preorder(ns[1..])
  {
  }

  /** Proof helper, not a property of the program: sequence concatenation is
      associative; the extensional argument is kept in this small lemma, away
      from the larger proofs that use it. */
  lemma AssocH(a: seq<HeadingInfo>, b: seq<HeadingInfo>, c: seq<HeadingInfo>)
    ensures (a + b) + c == a + (b + c)
  {
  }

  lemma {:induction false} PreorderSingle(x: HeadingInfo)
    ensures Preorder([x]) == Visit(x)
  {
    assert [x][1..] == [];
  }

  lemma {:induction false} PreorderSnoc(init: seq<HeadingInfo>, x: HeadingInfo)
    ensures Preorder(init + [x]) == Preorder(init) + Visit(x)
  {
    PreorderAppend(init, [x]);
    PreorderSingle(x);
  }

  lemma PreorderDropLast(ns: seq<HeadingInfo>)
    requires ns != []
    ensures Preorder(ns) == Preorder(ns[..|ns| - 1]) + Visit(ns[|ns| - 1])
  {
    assert ns == ns[..|ns| - 1] + [ns[|ns| - 1]];
    PreorderSnoc(ns[..|ns| - 1], ns[|ns| - 1]);
  }

  /** Placeholders added by `ensureDepth` contribute nothing to the preorder. */
  lemma {:induction false} EnsureDepthVisit(node: HeadingInfo, targetDepth: HeadingDepth)
    requires node.depth >= targetDepth
    ensures Visit(EnsureDepth(node, targetDepth)) == Visit(node)
    decreases node.depth - targetDepth
  {
    if node.depth > targetDepth {
      var p := Placeholder(node.depth - 1, node);
      EnsureDepthVisit(p, targetDepth);
      assert Preorder(p.children) == Visit(node) + Preorder([]);
    }
  }

  /** `appendLeaf` attaches `head` as the last entry of `target`'s subtree. */
  lemma {:induction false} AppendLeafVisit(head: HeadingInfo, target: HeadingInfo)
    requires WellFormed(target) && WellFormed(head) && head.depth > target.depth
    ensures Visit(AppendLeaf(head, target)) == Visit(target) + Visit(head)
    decreases target, 1
  {
    var kids := target.children;
    var r := AppendLeaf(head, target);
    var self := if IsPlaceholder(target) then [] else [target.(children := [])];
    assert Visit(target) == self + Preorder(kids);
    assert Visit(r) == self + Preorder(r.children) by {
      assert r.(children := []) == target.(children := []);
      assert IsPlaceholder(r) == IsPlaceholder(target);
    }
    assert Preorder(r.children) == Preorder(kids) + Visit(head) by {
      if head.depth == target.depth + 1 {
        assert r.children == kids + [head];
        PreorderSnoc(kids, head);
      } else if |kids| == 0 {
        AppendLeafVisitEmpty(head, target);
      } else {
        AppendLeafVisitDeeper(head, target);
      }
    }
    AssocH(self, Preorder(kids), Visit(head));
  }

  lemma {:induction false} AppendLeafVisitEmpty(head: HeadingInfo, target: HeadingInfo)
    requires WellFormed(target) && WellFormed(head) && head.depth > target.depth + 1
    requires target.children == []
    ensures Preorder(AppendLeaf(head, target).children) == Visit(head)
  {
    var e := EnsureDepth(head, Deeper(target.depth));
    assert AppendLeaf(head, target).children == [e];
    EnsureDepthVisit(head, Deeper(target.depth));
    PreorderSingle(e);
  }

  lemma {:induction false} AppendLeafVisitDeeper(head: HeadingInfo, target: HeadingInfo)
    requires WellFormed(target) && WellFormed(head) && head.depth > target.depth + 1
    requires target.children != []
    ensures Preorder(AppendLeaf(head, target).children) == Preorder(target.children) + Visit(head)
    decreases target, 0
  {
    var kids := target.children;
    var n := |kids|;
    var last := kids[n - 1];
    assert last in kids;
    var sub := AppendLeaf(head, last);
    assert AppendLeaf(head, target).children == kids[..n - 1] + [sub];
    AppendLeafVisit(head, last);
    PreorderSnoc(kids[..n - 1], sub);
    PreorderDropLast(kids);
    AssocH(Preorder(kids[..n - 1]), Visit(last), Visit(head));
  }

  /** Each step of `buildTree` adds `head` at the end of the preorder. */
  lemma {:induction false} PlacePreorder(head: HeadingInfo, minDepth: HeadingDepth, result: seq<HeadingInfo>)
    requires head.depth >= minDepth && WellFormed(head)
    requires forall t | t in result :: t.depth == minDepth && WellFormed(t)
    ensures Preorder(Place(head, minDepth, result)) == Preorder(result) + Visit(head)
  {
    if head.depth == minDepth {
      PreorderSnoc(result, head);
    } else if |result| == 0 {
      EnsureDepthVisit(head, minDepth);
      PreorderSingle(EnsureDepth(head, minDepth));
    } else {
      var n := |result|;
      var init, last := result[..n - 1], result[n - 1];
      assert last in result;
      AppendLeafVisit(head, last);
      PreorderSnoc(init, AppendLeaf(head, last));
      PreorderDropLast(result);
      AssocH(Preorder(init), Visit(last), Visit(head));
    }
  }

  lemma {:induction false} BuildTreePreorder(headings: seq<HeadingInfo>, minDepth: HeadingDepth, result: seq<HeadingInfo>)
    requires forall h | h in headings :: h.depth >= minDepth && WellFormed(h)
    requires forall t | t in result :: t.depth == minDepth && WellFormed(t)
    ensures Preorder(BuildTree(headings, minDepth, result)) == Preorder(result) + Preorder(headings)
    decreases |headings|
  {
    if |headings| > 0 {
      var head, rest := headings[0], headings[1..];
      assert head in headings;
      var next := Place(head, minDepth, result);
      assert forall h | h in rest :: h in headings;
      BuildTreePreorder(rest, minDepth, next);
      PlacePreorder(head, minDepth, result);
      PreorderCons(headings);
      AssocH(Preorder(result), Visit(head), Preorder(rest));
    }
  }

  /** Collected headings carry a real index and no sub-entries yet. */
  predicate Bare(h: HeadingInfo) {
    h.index >= 0 && h.children == []
  }

  /** A collected heading is a well-formed tree of one entry. */
  lemma BareWellFormed(h: HeadingInfo)
    requires Bare(h)
    ensures WellFormed(h)
  {
  }

  lemma {:induction false} PreorderOfBare(headings: seq<HeadingInfo>)
    requires forall h | h in headings :: Bare(h)
    ensures Preorder(headings) == headings
    decreases |headings|
  {
    if headings != [] {
      assert headings[0] in headings;
      PreorderOfBare(headings[1..]);
      assert headings[0].(children := []) == headings[0];
      assert Visit(headings[0]) == [headings[0]] + Preorder([]);
    }
  }

  /** Depths 1 then 3: the level-3 heading hangs below the level-1 one
      through a single placeholder at level 2. */
  lemma GapFilledByPlaceholder(a: HeadingInfo, b: HeadingInfo)
    requires Bare(a) && Bare(b) && a.depth == 1 && b.depth == 3
    ensures BuildTree([a, b], MinDepth([a, b]), []) == [a.(children := [Placeholder(2, b)])]
  {
    assert a in [a, b];
    assert MinDepth([a, b]) == 1;
    BareWellFormed(a);
    BareWellFormed(b);
    assert [a, b][1..] == [b] && [b][1..] == [];
    assert Place(a, 1, []) == [a];
    assert EnsureDepth(b, Deeper(1)) == Placeholder(2, b);
    assert AppendLeaf(b, a) == a.(children := [Placeholder(2, b)]);
    assert Place(b, 1, [a]) == [a.(children := [Placeholder(2, b)])];
    assert BuildTree([a, b], 1, []) == BuildTree([b], 1, [a]);
    assert BuildTree([b], 1, [a]) == BuildTree([], 1, Place(b, 1, [a]));
  }

  /** Proof helper, not a property of the program: `buildTree` over three
      headings is three placements in order. */
  lemma BuildTreeThree(hs: seq<HeadingInfo>, m: HeadingDepth)
    requires |hs| == 3 && forall h | h in hs :: h.depth >= m && WellFormed(h)
    ensures BuildTree(hs, m, []) == Place(hs[2], m, Place(hs[1], m, Place(hs[0], m, [])))
  {
    var r1 := Place(hs[0], m, []);
    var r2 := Place(hs[1], m, r1);
    assert BuildTree(hs, m, []) == BuildTree(hs[1..], m, r1);
    assert BuildTree(hs[1..], m, r1) == BuildTree(hs[2..], m, r2);
    assert BuildTree(hs[2..], m, r2) == BuildTree(hs[3..], m, Place(hs[2], m, r2));
  }

  /** Depths 3, 3, 4: the root level is 3, not 1, so there are two top-level
      entries and the second holds the level-4 heading. */
  lemma RootLevelInferred(a: HeadingInfo, b: HeadingInfo, c: HeadingInfo)
    requires Bare(a) && Bare(b) && Bare(c) && a.depth == 3 && b.depth == 3 && c.depth == 4
    ensures BuildTree([a, b, c], MinDepth([a, b, c]), []) == [a, b.(children := [c])]
  {
    assert a in [a, b, c];
    assert MinDepth([a, b, c]) == 3;
    BareWellFormed(a);
    BareWellFormed(b);
    BareWellFormed(c);
    BuildTreeThree([a, b, c], 3);
    RootLevelSteps(a, b, c);
  }

  /** The three placements for depths 3, 3, 4 at root level 3: two
      top-level entries, and the level-4 heading under the second. */
  lemma RootLevelSteps(a: HeadingInfo, b: HeadingInfo, c: HeadingInfo)
    requires Bare(a) && Bare(b) && Bare(c) && a.depth == 3 && b.depth == 3 && c.depth == 4
    ensures Place(c, 3, Place(b, 3, Place(a, 3, []))) == [a, b.(children := [c])]
  {
    BareWellFormed(a);
    BareWellFormed(b);
    BareWellFormed(c);
    assert Place(a, 3, []) == [a];
    assert Place(b, 3, [a]) == [a, b];
    assert AppendLeaf(c, b) == b.(children := [c]);
  }

  /** The placeholders `ensureDepth` adds are each the only child of their parent. */
  lemma {:induction false} EnsureDepthFirstOnly(node: HeadingInfo, targetDepth: HeadingDepth)
    requires node.depth >= targetDepth && FirstOnly(node)
    ensures FirstOnly(EnsureDepth(node, targetDepth))
    decreases node.depth - targetDepth
  {
    if node.depth > targetDepth {
      var p := Placeholder(node.depth - 1, node);
      assert FirstOnly(p);
      EnsureDepthFirstOnly(p, targetDepth);
    }
  }

  /** Proof helper, not a property of the program: `FirstOnly` of an entry is
      `TopFirstOnly` of its sub-entries. */
  lemma FirstOnlyChildren(n: HeadingInfo)
    ensures FirstOnly(n) <==> TopFirstOnly(n.children)
  {
  }

  /** Appending a real heading keeps placeholders first. */
  lemma SnocFirstOnly(xs: seq<HeadingInfo>, x: HeadingInfo)
    requires TopFirstOnly(xs) && FirstOnly(x) && !IsPlaceholder(x)
    ensures TopFirstOnly(xs + [x])
  {
    forall t | t in xs + [x] ensures FirstOnly(t) {
      if t != x {
        assert t in xs;
      }
    }
  }

  /** Replacing the last entry by one with the same index keeps placeholders first. */
  lemma ReplaceLastFirstOnly(xs: seq<HeadingInfo>, l: HeadingInfo)
    requires |xs| > 0 && TopFirstOnly(xs) && FirstOnly(l) && l.index == xs[|xs| - 1].index
    ensures TopFirstOnly(xs[..|xs| - 1] + [l])
  {
    var n := |xs|;
    var ys := xs[..n - 1] + [l];
    forall k | 0 < k < |ys| ensures !IsPlaceholder(ys[k]) {
      if k < n - 1 {
        assert ys[k] == xs[k];
      }
    }
    forall t | t in ys ensures FirstOnly(t) {
      if t != l {
        var k :| 0 <= k < n - 1 && ys[k] == t;
        assert xs[k] in xs;
      }
    }
  }

  /** `appendLeaf` makes a placeholder only below a childless entry, and
      otherwise adds a real heading after the existing children or goes into
      the last child, so no placeholder lands after a sibling. */
  lemma {:induction false} AppendLeafFirstOnly(head: HeadingInfo, target: HeadingInfo)
    requires WellFormed(target) && WellFormed(head) && head.depth > target.depth
    requires FirstOnly(target) && FirstOnly(head) && !IsPlaceholder(head)
    ensures FirstOnly(AppendLeaf(head, target))
    decreases target
  {
    var r := AppendLeaf(head, target);
    var n := |target.children|;
    FirstOnlyChildren(target);
    FirstOnlyChildren(r);
    if head.depth == target.depth + 1 {
      SnocFirstOnly(target.children, head);
    } else if n == 0 {
      EnsureDepthFirstOnly(head, Deeper(target.depth));
    } else {
      var last := target.children[n - 1];
      assert last in target.children;
      AppendLeafFirstOnly(head, last);
      ReplaceLastFirstOnly(target.children, AppendLeaf(head, last));
    }
  }

  /** One step of `buildTree` keeps placeholders first at every level. */
  lemma PlaceFirstOnly(head: HeadingInfo, minDepth: HeadingDepth, result: seq<HeadingInfo>)
    requires head.depth >= minDepth && WellFormed(head)
    requires forall t | t in result :: t.depth == minDepth && WellFormed(t)
    requires TopFirstOnly(result) && FirstOnly(head) && !IsPlaceholder(head)
    ensures TopFirstOnly(Place(head, minDepth, result))
  {
    var n := |result|;
    if head.depth == minDepth {
      SnocFirstOnly(result, head);
    } else if n == 0 {
      EnsureDepthFirstOnly(head, minDepth);
    } else {
      var last := result[n - 1];
      assert last in result;
      AppendLeafFirstOnly(head, last);
      ReplaceLastFirstOnly(result, AppendLeaf(head, last));
    }
  }

  /** `buildTree` keeps placeholders first at every level, from any
      accumulated tree that already has that shape. */
  lemma {:induction false} BuildTreeFirstOnly(headings: seq<HeadingInfo>, minDepth: HeadingDepth, result: seq<HeadingInfo>)
    requires forall h | h in headings :: h.depth >= minDepth && WellFormed(h)
    requires forall t | t in result :: t.depth == minDepth && WellFormed(t)
    requires TopFirstOnly(result) && forall h | h in headings :: FirstOnly(h) && !IsPlaceholder(h)
    ensures TopFirstOnly(BuildTree(headings, minDepth, result))
    decreases |headings|
  {
    if |headings| > 0 {
      assert headings[0] in headings;
      PlaceFirstOnly(headings[0], minDepth, result);
      forall h | h in headings[1..] ensures h in headings {}
      BuildTreeFirstOnly(headings[1..], minDepth, Place(headings[0], minDepth, result));
    }
  }

  /** Depths 1, 2, 1: the level-2 heading goes under the first entry, and
      the second level-1 heading starts a sibling entry after it. */
  lemma SiblingAfterNested(a: HeadingInfo, b: HeadingInfo, c: HeadingInfo)
    requires Bare(a) && Bare(b) && Bare(c) && a.depth == 1 && b.depth == 2 && c.depth == 1
    ensures BuildTree([a, b, c], MinDepth([a, b, c]), []) == [a.(children := [b]), c]
  {
    var m := MinDepth([a, b, c]);
    assert a in [a, b, c];
    assert m == 1;
    BareWellFormed(a);
    BareWellFormed(b);
    BareWellFormed(c);
    BuildTreeThree([a, b, c], 1);
    assert Place(a, 1, []) == [a];
    assert AppendLeaf(b, a) == a.(children := [b]);
    assert Place(b, 1, [a]) == [a.(children := [b])];
  }

  /** Depths 1, 3, 3: the second level-3 heading joins the first under the
      one placeholder made for the skipped level 2. */
  lemma PlaceholderShared(a: HeadingInfo, b: HeadingInfo, c: HeadingInfo)
    requires Bare(a) && Bare(b) && Bare(c) && a.depth == 1 && b.depth == 3 && c.depth == 3
    ensures BuildTree([a, b, c], MinDepth([a, b, c]), []) == [a.(children := [HeadingInfo(-1, 2, None, [], [b, c])])]
  {
    assert a in [a, b, c];
    assert MinDepth([a, b, c]) == 1;
    BareWellFormed(a);
    BareWellFormed(b);
    BareWellFormed(c);
    BuildTreeThree([a, b, c], 1);
    PlaceholderSharedSteps(a, b, c);
  }

  /** The three placements for depths 1, 3, 3: the first heading starts the
      tree, the second gets a level-2 placeholder below it, and the third
      goes into that placeholder. */
  lemma PlaceholderSharedSteps(a: HeadingInfo, b: HeadingInfo, c: HeadingInfo)
    requires Bare(a) && Bare(b) && Bare(c) && a.depth == 1 && b.depth == 3 && c.depth == 3
    ensures Place(c, 1, Place(b, 1, Place(a, 1, []))) == [a.(children := [HeadingInfo(-1, 2, None, [], [b, c])])]
  {
    BareWellFormed(a);
    BareWellFormed(b);
    BareWellFormed(c);
    var p := Placeholder(2, b);
    var a1 := a.(children := [p]);
    assert Place(a, 1, []) == [a];
    assert EnsureDepth(b, Deeper(1)) == p;
    assert AppendLeaf(b, a) == a1;
    assert Place(b, 1, [a]) == [a1];
    assert AppendLeaf(c, p) == HeadingInfo(-1, 2, None, [], [b, c]);
    assert AppendLeaf(c, a1) == a.(children := [HeadingInfo(-1, 2, None, [], [b, c])]);
  }

  /** In the tree built from collected headings a placeholder is only ever
      the first entry of its level: placeholders appear only where a level
      is skipped before anything else was placed there. */
  lemma BuildTreePlaceholdersFirst(headings: seq<HeadingInfo>)
    requires forall h | h in headings :: Bare(h) && WellFormed(h)
    ensures TopFirstOnly(BuildTree(headings, MinDepth(headings), []))
  {
    forall h | h in headings ensures FirstOnly(h) && !IsPlaceholder(h) {
      assert h.children == [];
    }
    BuildTreeFirstOnly(headings, MinDepth(headings), []);
  }

  /** Every input heading is placed exactly once, and a preorder walk that
      skips placeholders gives back the input order. */
  lemma BuildTreeKeepsOrder(headings: seq<HeadingInfo>)
    requires forall h | h in headings :: Bare(h) && WellFormed(h)
    ensures Preorder(BuildTree(headings, MinDepth(headings), [])) == headings
  {
    BuildTreePreorder(headings, MinDepth(headings), []);
    PreorderOfBare(headings);
  }
}
