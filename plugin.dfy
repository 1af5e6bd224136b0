/**
 * The plugin itself (src/index.ts, remarkGenTocPlugin, makeTableOfContents
 * and replaceToc): validate the depth window, then repeatedly find the
 * next `[[ TOC ]]` paragraph, collect and slug the headings after it, and
 * put the rendered list in the marker's place, or drop the marker when no
 * heading qualifies.
 */
module Plugin {
  import opened Mdast
  import opened Marker
  import opened Outline
  import opened Render
  import opened Slugs

  /** `Options`: every key may be left out. */
  datatype Options = Options(minDepth: Option<HeadingDepth>, maxDepth: Option<HeadingDepth>, className: Option<string>)

  const DefaultMinDepth: HeadingDepth := 1
  const DefaultMaxDepth: HeadingDepth := 3
  const DefaultClassName: string := "table-of-contents"

  /** The options after the defaults are spread under them. */
  datatype Config = Config(minDepth: HeadingDepth, maxDepth: HeadingDepth, className: string)

  /** A depth written as a decimal numeral. */
  function DepthText(d: HeadingDepth): (s: string)
    ensures |s| == 1 && '1' <= s[0] <= '6' && s[0] as int - '0' as int == d
  {
    [('0' as int + d) as char]
  }

  /** The error the plugin throws for an empty depth window. */
  function WindowError(minDepth: HeadingDepth, maxDepth: HeadingDepth): string {
    "minDepth " + DepthText(minDepth) + " should be greater or equal to maxDepth " + DepthText(maxDepth)
  }

  /** `{...DEFAULT_OPTIONS, ...options}` and the `minDepth > maxDepth` check. */
  function ResolveOptions(options: Options): (r: Result<Config, string>)
    ensures r.Success? <==> options.minDepth.GetOr(DefaultMinDepth) <= options.maxDepth.GetOr(DefaultMaxDepth)
    ensures r.Success? ==>
      r.value.minDepth == options.minDepth.GetOr(DefaultMinDepth) &&
      r.value.maxDepth == options.maxDepth.GetOr(DefaultMaxDepth) &&
      r.value.className == options.className.GetOr(DefaultClassName)
    ensures r.Failure? ==> r.error == WindowError(options.minDepth.GetOr(DefaultMinDepth), options.maxDepth.GetOr(DefaultMaxDepth))
  {
    var minDepth := if options.minDepth.Some? then options.minDepth.value else DefaultMinDepth;
    var maxDepth := if options.maxDepth.Some? then options.maxDepth.value else DefaultMaxDepth;
    var className := if options.className.Some? then options.className.value else DefaultClassName;
    if minDepth > maxDepth then Failure(WindowError(minDepth, maxDepth))
    else Success(Config(minDepth, maxDepth, className))
  }

  /** With no options the window is levels 1 to 3 and the class is
      `table-of-contents`. */
  lemma DefaultsResolve()
    ensures ResolveOptions(Options(None, None, None)) == Success(Config(1, 3, "table-of-contents"))
  {
  }

  /** `{minDepth: 4, maxDepth: 3}` is refused with the message the plugin's
      tests look for: the template filled with 4 and 3. */
  lemma MalformedOptionsRefused()
    ensures var r := ResolveOptions(Options(Some(4), Some(3), None));
      r.Failure? && r.error == "minDepth " + "4" + " should be greater or equal to maxDepth " + "3"
  {
    assert ResolveOptions(Options(Some(4), Some(3), None)) == Failure(WindowError(4, 3));
    assert DepthText(4) == "4" && DepthText(3) == "3";
  }

  /** The test `makeTableOfContents` applies to each child after the marker. */
  predicate InWindow(n: Node, cfg: Config) {
    n.Heading? && cfg.minDepth <= n.depth <= cfg.maxDepth
  }

  /** The record built for the heading at position `i`. */
  function Record(n: Node, i: nat): HeadingInfo
    requires n.Heading?
  {
    HeadingInfo(i, n.depth, n.hid, n.children, [])
  }

  /** The records collected from the children at positions `from` up to
      `stop`, in document order. */
  ghost function Collected(children: seq<Node>, from: nat, stop: nat, cfg: Config): seq<HeadingInfo>
    requires stop <= |children|
    decreases stop
  {
    if stop <= from then []
    else
      Collected(children, from, stop - 1, cfg)
      + (if InWindow(children[stop - 1], cfg) then [Record(children[stop - 1], stop - 1)] else [])
  }

  /** Every collected record is the record of a heading inside the window
      at a position in `[from, stop)`. */
  lemma {:induction false} CollectSound(children: seq<Node>, from: nat, stop: nat, cfg: Config)
    requires stop <= |children|
    ensures forall k | 0 <= k < |Collected(children, from, stop, cfg)| ::
      from <= Collected(children, from, stop, cfg)[k].index < stop
      && InWindow(children[Collected(children, from, stop, cfg)[k].index], cfg)
      && Collected(children, from, stop, cfg)[k] == Record(children[Collected(children, from, stop, cfg)[k].index], Collected(children, from, stop, cfg)[k].index)
    decreases stop
  {
    if stop > from {
      CollectSound(children, from, stop - 1, cfg);
      var prev := Collected(children, from, stop - 1, cfg);
      var last := if InWindow(children[stop - 1], cfg) then [Record(children[stop - 1], stop - 1)] else [];
      var hs := Collected(children, from, stop, cfg);
      assert hs == prev + last;
      forall k | 0 <= k < |hs|
        ensures from <= hs[k].index < stop && InWindow(children[hs[k].index], cfg)
        ensures hs[k] == Record(children[hs[k].index], hs[k].index)
      {
        if k < |prev| {
          assert hs[k] == prev[k];
        }
      }
    }
  }

  /** The positions of the collected records strictly increase: document order. */
  lemma {:induction false} CollectIncreasing(children: seq<Node>, from: nat, stop: nat, cfg: Config)
    requires stop <= |children|
    ensures forall a, b | 0 <= a < b < |Collected(children, from, stop, cfg)| ::
      Collected(children, from, stop, cfg)[a].index < Collected(children, from, stop, cfg)[b].index
    decreases stop
  {
    if stop > from {
      CollectIncreasing(children, from, stop - 1, cfg);
      CollectSound(children, from, stop - 1, cfg);
      var prev := Collected(children, from, stop - 1, cfg);
      var last := if InWindow(children[stop - 1], cfg) then [Record(children[stop - 1], stop - 1)] else [];
      var hs := Collected(children, from, stop, cfg);
      assert hs == prev + last;
      forall a, b | 0 <= a < b < |hs| ensures hs[a].index < hs[b].index {
        assert hs[a] == prev[a];
        if b < |prev| {
          assert hs[b] == prev[b];
        } else {
          assert hs[b] == last[0];
        }
      }
    }
  }

  /** Every heading inside the window at a position in `[from, stop)` is
      collected, as its record. */
  lemma {:induction false} CollectComplete(children: seq<Node>, from: nat, stop: nat, cfg: Config)
    requires stop <= |children|
    ensures forall i | from <= i < stop && InWindow(children[i], cfg) ::
      Record(children[i], i) in Collected(children, from, stop, cfg)
    decreases stop
  {
    if stop > from {
      CollectComplete(children, from, stop - 1, cfg);
      var prev := Collected(children, from, stop - 1, cfg);
      var last := if InWindow(children[stop - 1], cfg) then [Record(children[stop - 1], stop - 1)] else [];
      assert Collected(children, from, stop, cfg) == prev + last;
      forall i | from <= i < stop && InWindow(children[i], cfg)
        ensures Record(children[i], i) in prev + last
      {
        if i == stop - 1 {
          assert (prev + last)[|prev|] == Record(children[i], i);
        }
      }
    }
  }

  /** Collected records point at distinct children of the document. */
  lemma CollectedIndices(children: seq<Node>, from: nat, cfg: Config)
    ensures var hs := Collected(children, from, |children|, cfg);
      IndicesIn(hs, children) && DistinctIndices(hs) && (forall h | h in hs :: Bare(h) && h.index >= from)
  {
    CollectSound(children, from, |children|, cfg);
    CollectIncreasing(children, from, |children|, cfg);
  }

  /** After slugging, the records are still collected headings. */
  lemma SluggedBare(hs: seq<HeadingInfo>, children: seq<Node>, env: Env)
    requires IndicesIn(hs, children) && forall h | h in hs :: Bare(h)
    ensures forall h | h in SlugUpTo(hs, children, env, |hs|).headings :: Bare(h) && WellFormed(h)
  {
    var st := SlugUpTo(hs, children, env, |hs|);
    SlugKeepsRecords(hs, children, env, |hs|);
    forall h | h in st.headings ensures Bare(h) && WellFormed(h) {
      var m :| 0 <= m < |st.headings| && st.headings[m] == h;
      assert hs[m] in hs;
      BareWellFormed(h);
    }
  }

  /** The outcome of `makeTableOfContents(tree, tocIndex, opts)`: the
      document with the new slugs written into its headings, and the list,
      absent when no heading qualifies. */
  ghost function TocAt(children: seq<Node>, tocIndex: nat, cfg: Config, env: Env): (r: (seq<Node>, Option<MdList>))
    ensures |r.0| == |children|
    ensures r.1.None? <==> Collected(children, tocIndex + 1, |children|, cfg) == []
  {
    var hs := Collected(children, tocIndex + 1, |children|, cfg);
    CollectedIndices(children, tocIndex + 1, cfg);
    var st := SlugUpTo(hs, children, env, |hs|);
    SluggedBare(hs, children, env);
    (st.children, TocOf(st.headings))
  }

  /** `makeTableOfContents(tree, tocIndex, opts)`. */
  method MakeTableOfContents(tree: Root, tocIndex: nat, cfg: Config, env: Env) returns (toc: Option<MdList>)
    modifies tree
    ensures (tree.children, toc) == TocAt(old(tree.children), tocIndex, cfg, env)
  {
    var headings: seq<HeadingInfo> := [];
    var i := tocIndex + 1;
    while i < |tree.children|
      invariant tocIndex + 1 <= i && (i == tocIndex + 1 || i <= |tree.children|)
      invariant i <= |tree.children| ==> headings == Collected(tree.children, tocIndex + 1, i, cfg)
      invariant i > |tree.children| ==> headings == []
    {
      var node := tree.children[i];
      if node.Heading? && node.depth >= cfg.minDepth && node.depth <= cfg.maxDepth {
        var heading := HeadingInfo(i, node.depth, node.hid, node.children, []);
        headings := headings + [heading];
      }
      i := i + 1;
    }
    assert headings == Collected(tree.children, tocIndex + 1, |tree.children|, cfg);
    CollectedIndices(tree.children, tocIndex + 1, cfg);
    SluggedBare(headings, tree.children, env);
    ghost var st := SlugUpTo(headings, tree.children, env, |headings|);
    var slugged := SlugHeadings(headings, tree, env);
    toc := BuildTocTree(slugged);
    assert tree.children == st.children && toc == TocOf(st.headings);
  }

  /** The children after `replaceToc`: the marker at `i` becomes the list,
      carrying the class name, or is removed when there is no list. */
  function Spliced(children: seq<Node>, toc: Option<MdList>, i: nat, className: string): (out: seq<Node>)
    requires i < |children|
    ensures |out| == if toc.Some? then |children| else |children| - 1
    ensures out[..i] == children[..i]
    ensures toc.Some? ==>
      out[i] == List(toc.value.(className := Some(className))) && out[i + 1..] == children[i + 1..]
    ensures toc.None? ==> out[i..] == children[i + 1..]
  {
    if toc.Some? then
      children[..i] + [List(toc.value.(className := Some(className)))] + children[i + 1..]
    else
      children[..i] + children[i + 1..]
  }

  /** `replaceToc(toc, tocIndex)`. */
  method ReplaceToc(tree: Root, toc: Option<MdList>, tocIndex: nat, className: string)
    requires tocIndex < |tree.children|
    modifies tree
    ensures tree.children == Spliced(old(tree.children), toc, tocIndex, className)
  {
    if toc.Some? {
      var list := toc.value.(className := Some(className));
      tree.children := tree.children[..tocIndex] + [List(list)] + tree.children[tocIndex + 1..];
    } else {
      tree.children := tree.children[..tocIndex] + tree.children[tocIndex + 1..];
    }
  }

  /** One round of the plugin's loop at the marker found at `i`. */
  ghost function Round(children: seq<Node>, i: nat, cfg: Config, env: Env): (out: seq<Node>)
    requires i < |children|
    ensures |out| <= |children|
  {
    var (c, toc) := TocAt(children, i, cfg, env);
    Spliced(c, toc, i, cfg.className)
  }

  /** The plugin's loop as written: after the round at marker `i`, the
      search resumes at `i + 1`, whether the marker was replaced or removed. */
  ghost function RunFrom(children: seq<Node>, start: nat, cfg: Config, env: Env): seq<Node>
    decreases |children| - start
  {
    var i := FirstMarker(children, start);
    if i == -1 then children
    else RunFrom(Round(children, i, cfg, env), Advance(children, i, cfg, env), cfg, env)
  }

  /** Where the search resumes after the round at marker `i`: one past it. */
  ghost function Advance(children: seq<Node>, i: nat, cfg: Config, env: Env): (r: nat)
    requires i < |children|
    ensures r == i + 1 && |Round(children, i, cfg, env)| - r < |children| - i
  {
    i + 1
  }

  /** One trip round the plugin's loop: the round at the marker `i` found
      from `start` leaves the rest of the run unchanged. */
  lemma RunFromStep(before: seq<Node>, start: nat, cfg: Config, env: Env, i: int, c: seq<Node>, toc: Option<MdList>, after: seq<Node>)
    requires i == FirstMarker(before, start) && i != -1
    requires (c, toc) == TocAt(before, i, cfg, env)
    requires i < |c| && after == Spliced(c, toc, i, cfg.className)
    ensures RunFrom(after, Advance(before, i, cfg, env), cfg, env) == RunFrom(before, start, cfg, env)
    ensures |after| <= |before|
  {
    RoundIs(before, i, cfg, env, c, toc);
    RunFromUnfold(before, start, cfg, env, i);
  }

  /** Proof helper, not a property of the program: one unfolding of `RunFrom`,
      kept apart so that the callers' proofs stay within the solver's budget. */
  lemma RunFromUnfold(children: seq<Node>, start: nat, cfg: Config, env: Env, i: int)
    requires i == FirstMarker(children, start) && i != -1
    ensures RunFrom(children, start, cfg, env) == RunFrom(Round(children, i, cfg, env), Advance(children, i, cfg, env), cfg, env)
  {
  }

  /** Proof helper, not a property of the program: names the result of one
      `Round` for the callers. */
  lemma RoundIs(children: seq<Node>, i: nat, cfg: Config, env: Env, c: seq<Node>, toc: Option<MdList>)
    requires i < |children| && (c, toc) == TocAt(children, i, cfg, env)
    ensures Round(children, i, cfg, env) == Spliced(c, toc, i, cfg.className)
  {
  }

  /** The transformer `remarkGenTocPlugin(options)` returns, applied to
      `tree`. The error is returned instead of thrown. */
  method RemarkGenToc(tree: Root, options: Options, env: Env) returns (r: Result<(), string>)
    modifies tree
    ensures r.Failure? <==> ResolveOptions(options).Failure?
    ensures r.Failure? ==> r.error == ResolveOptions(options).error && tree.children == old(tree.children)
    ensures r.Success? ==> tree.children == RunFrom(old(tree.children), 0, ResolveOptions(options).value, env)
  {
    var resolved := ResolveOptions(options);
    if resolved.Failure? {
      return Failure(resolved.error);
    }
    var cfg := resolved.value;
    var tocIndex := -1;
    ghost var start: nat := 0;
    while true
      invariant -1 <= tocIndex && start == tocIndex + 1
      invariant RunFrom(tree.children, start, cfg, env) == RunFrom(old(tree.children), 0, cfg, env)
      decreases |tree.children| - tocIndex
    {
      ghost var before := tree.children;
      tocIndex := FindTocMarker(tree, tocIndex + 1);
      if tocIndex == -1 {
        break;
      }
      var toc := MakeTableOfContents(tree, tocIndex, cfg, env);
      ghost var c := tree.children;
      ReplaceToc(tree, toc, tocIndex, cfg.className);
      RunFromStep(before, start, cfg, env, tocIndex, c, toc, tree.children);
      start := Advance(before, tocIndex, cfg, env);
    }
    return Success(());
  }

  /** `b` is `a`, or the same heading with another `hProperties.id`. */
  predicate SameButId(a: Node, b: Node) {
    a == b || (a.Heading? && b.Heading? && b == a.(hid := b.hid))
  }

  /** What a round changes: the children before the marker stay; the marker
      becomes the list carrying the class name, or is removed when no
      heading qualifies, in which case nothing else changes; the children
      after it change at most in the ids of their headings. */
  lemma RoundFrame(children: seq<Node>, i: nat, cfg: Config, env: Env) returns (out: seq<Node>, toc: Option<MdList>)
    requires i < |children|
    ensures out == Round(children, i, cfg, env) && toc == TocAt(children, i, cfg, env).1
    ensures out[..i] == children[..i]
    ensures toc.Some? ==>
      |out| == |children| && out[i] == List(toc.value.(className := Some(cfg.className)))
      && forall j | i < j < |children| :: SameButId(children[j], out[j])
    ensures toc.None? ==> out == children[..i] + children[i + 1..]
  {
    var c: seq<Node>;
    c, toc := TocAt(children, i, cfg, env).0, TocAt(children, i, cfg, env).1;
    out := Round(children, i, cfg, env);
    RoundIs(children, i, cfg, env, c, toc);
    TocAtFrame(children, i, cfg, env);
    assert c[..i] == children[..i];
  }

  /** Building the table at marker `i` leaves the children up to the marker
      as they are and changes the others at most in their headings' ids;
      when no heading qualifies, nothing changes. */
  lemma TocAtFrame(children: seq<Node>, i: nat, cfg: Config, env: Env)
    requires i < |children|
    ensures forall j | 0 <= j <= i :: TocAt(children, i, cfg, env).0[j] == children[j]
    ensures forall j | 0 <= j < |children| :: SameButId(children[j], TocAt(children, i, cfg, env).0[j])
    ensures TocAt(children, i, cfg, env).1.None? ==> TocAt(children, i, cfg, env).0 == children
  {
    var hs := Collected(children, i + 1, |children|, cfg);
    CollectedIndices(children, i + 1, cfg);
    var st := SlugUpTo(hs, children, env, |hs|);
    assert TocAt(children, i, cfg, env).0 == st.children;
    SlugOnlyHeadingIds(hs, children, env, |hs|);
    SlugUntouched(hs, children, env, |hs|);
    forall j | 0 <= j <= i ensures st.children[j] == children[j] {
      assert j !in Touched(hs, |hs|) by {
        forall m | 0 <= m < |hs| ensures hs[m].index != j {
          assert hs[m] in hs;
        }
      }
    }
    if TocAt(children, i, cfg, env).1.None? {
      assert hs == [];
    }
  }

  /** `n` is a list the plugin put in, carrying the class name, or a child
      of `children` up to its heading's id. */
  predicate FromDoc(children: seq<Node>, n: Node, className: string) {
    (n.List? && n.list.className == Some(className)) || exists m | 0 <= m < |children| :: SameButId(children[m], n)
  }

  /** Every child after a round is a list put in or comes from the document. */
  lemma RoundOrigin(children: seq<Node>, i: nat, cfg: Config, env: Env)
    requires i < |children|
    ensures forall j | 0 <= j < |Round(children, i, cfg, env)| ::
      FromDoc(children, Round(children, i, cfg, env)[j], cfg.className)
  {
    var out, toc := RoundFrame(children, i, cfg, env);
    forall j | 0 <= j < |out| ensures FromDoc(children, out[j], cfg.className) {
      if j < i {
        assert out[j] == out[..i][j] == children[..i][j] == children[j];
        assert SameButId(children[j], out[j]);
      } else if toc.None? {
        assert out[j] == children[j + 1];
        assert SameButId(children[j + 1], out[j]);
      } else if j > i {
        assert SameButId(children[j], out[j]);
      }
    }
  }

  /** Coming from the document is transitive across rounds. */
  lemma FromDocTrans(children: seq<Node>, mid: seq<Node>, n: Node, className: string)
    requires forall m | 0 <= m < |mid| :: FromDoc(children, mid[m], className)
    requires FromDoc(mid, n, className)
    ensures FromDoc(children, n, className)
  {
    if !(n.List? && n.list.className == Some(className)) {
      var m :| 0 <= m < |mid| && SameButId(mid[m], n);
      assert FromDoc(children, mid[m], className);
      var m' :| 0 <= m' < |children| && SameButId(children[m'], mid[m]);
      assert SameButId(children[m'], n);
    }
  }

  /** Proof helper, not a property of the program: `RunFrom` past the last
      marker returns the children unchanged. */
  lemma RunFromDone(children: seq<Node>, start: nat, cfg: Config, env: Env)
    requires FirstMarker(children, start) == -1
    ensures RunFrom(children, start, cfg, env) == children
  {
  }

  /** What a whole run of the as-written loop does to a document: it never
      grows, the children before `start` stay as they are, and every child
      left is a list the plugin put in (with the class name) or a child of
      the original document, changed at most in its heading's id. */
  lemma {:induction false} RunFromShape(children: seq<Node>, start: nat, cfg: Config, env: Env)
    ensures |RunFrom(children, start, cfg, env)| <= |children|
    ensures forall j | 0 <= j < start && j < |children| ::
      j < |RunFrom(children, start, cfg, env)| && RunFrom(children, start, cfg, env)[j] == children[j]
    ensures forall j | 0 <= j < |RunFrom(children, start, cfg, env)| ::
      FromDoc(children, RunFrom(children, start, cfg, env)[j], cfg.className)
    decreases |children| - start
  {
    var i := FirstMarker(children, start);
    if i == -1 {
      RunFromDone(children, start, cfg, env);
      forall j | 0 <= j < |children| ensures FromDoc(children, children[j], cfg.className) {
        assert SameButId(children[j], children[j]);
      }
    } else {
      var out, toc := RoundFrame(children, i, cfg, env);
      var next := Advance(children, i, cfg, env);
      RunFromShape(out, next, cfg, env);
      RoundOrigin(children, i, cfg, env);
      var r := RunFrom(out, next, cfg, env);
      forall j | 0 <= j < start && j < |children| ensures j < |r| && r[j] == children[j] {
        assert out[j] == out[..i][j] == children[..i][j] == children[j];
      }
      forall j | 0 <= j < |r| ensures FromDoc(children, r[j], cfg.className) {
        FromDocTrans(children, out, r[j], cfg.className);
      }
      RunFromUnfold(children, start, cfg, env, i);
    }
  }

  /** The loop with the search resuming at the freed slot when a marker
      was removed (the round shortened the document), so that a marker
      moving into it is not skipped. */
  ghost function RunFromCorrected(children: seq<Node>, start: nat, cfg: Config, env: Env): seq<Node>
    decreases |children| - start
  {
    var i := FirstMarker(children, start);
    if i == -1 then children
    else RunFromCorrected(Round(children, i, cfg, env), Resume(children, i, cfg, env), cfg, env)
  }

  /** Where the corrected search resumes after the round at marker `i`:
      past the list when one was put in, at the freed slot otherwise. */
  ghost function Resume(children: seq<Node>, i: nat, cfg: Config, env: Env): (r: nat)
    requires i < |children|
    ensures i <= r && |Round(children, i, cfg, env)| - r < |children| - i
  {
    if |Round(children, i, cfg, env)| == |children| then i + 1 else i
  }

  /** With the search resumed at the freed slot, no marker paragraph is
      left in the document. */
  lemma {:induction false} CorrectedLeavesNoMarker(children: seq<Node>, start: nat, cfg: Config, env: Env)
    requires forall j | 0 <= j < start && j < |children| :: !IsMarkerNode(children[j])
    ensures forall j | 0 <= j < |RunFromCorrected(children, start, cfg, env)| ::
      !IsMarkerNode(RunFromCorrected(children, start, cfg, env)[j])
    decreases |children| - start
  {
    var i := FirstMarker(children, start);
    if i == -1 {
      CorrectedUnfoldDone(children, start, cfg, env);
      forall j | 0 <= j < |children| ensures !IsMarkerNode(children[j]) {
        if j >= start {
          NoMarkerAfter(children, start, j);
        }
      }
    } else {
      var out, toc := RoundFrame(children, i, cfg, env);
      var next := if toc.Some? then i + 1 else i;
      forall j | 0 <= j < next && j < |out| ensures !IsMarkerNode(out[j]) {
        if j < i {
          assert out[j] == out[..i][j] == children[..i][j] == children[j];
        }
      }
      assert next == Resume(children, i, cfg, env);
      CorrectedLeavesNoMarker(out, next, cfg, env);
      CorrectedUnfoldStep(children, start, cfg, env, i);
    }
  }

  /** Proof helper, not a property of the program: `RunFromCorrected` past the
      end returns the children unchanged. */
  lemma CorrectedUnfoldDone(children: seq<Node>, start: nat, cfg: Config, env: Env)
    requires FirstMarker(children, start) == -1
    ensures RunFromCorrected(children, start, cfg, env) == children
  {
  }

  /** Proof helper, not a property of the program: one unfolding of
      `RunFromCorrected`. */
  lemma CorrectedUnfoldStep(children: seq<Node>, start: nat, cfg: Config, env: Env, i: int)
    requires i == FirstMarker(children, start) && i != -1
    ensures RunFromCorrected(children, start, cfg, env) ==
      RunFromCorrected(Round(children, i, cfg, env), Resume(children, i, cfg, env), cfg, env)
  {
  }

  /** The plugin run with the corrected search leaves no marker behind. */
  lemma CorrectedRunLeavesNoMarker(children: seq<Node>, cfg: Config, env: Env)
    ensures forall j | 0 <= j < |RunFromCorrected(children, 0, cfg, env)| ::
      !IsMarkerNode(RunFromCorrected(children, 0, cfg, env)[j])
  {
    CorrectedLeavesNoMarker(children, 0, cfg, env);
  }

  /** A paragraph holding only the marker text `[[toc]]`. */
  function MarkerParagraph(): Node {
    Paragraph([Text("[[toc]]")])
  }

  lemma MarkerParagraphIsMarker()
    ensures IsMarkerNode(MarkerParagraph())
  {
    var s := "[[toc]]";
    assert SkipSpaces(s, 0) == 0;
    assert SkipSpacesBack(s, 7) == 7;
    assert Trim(s) == s;
    assert SkipSpaces(s, 2) == 2 && SkipSpaces(s, 5) == 5;
    assert MatchAt(s, 0);
  }

  /** As written, of two adjacent markers with no heading after them, the
      first is removed and the second, which moves into its slot, is
      skipped and stays in the document. */
  lemma AdjacentMarkerSkipped(cfg: Config, env: Env)
    ensures RunFrom([MarkerParagraph(), MarkerParagraph()], 0, cfg, env) == [MarkerParagraph()]
    ensures IsMarkerNode(MarkerParagraph())
  {
    var p := MarkerParagraph();
    MarkerParagraphIsMarker();
    var out, toc := RoundFrame([p, p], 0, cfg, env);
    assert Collected([p, p], 1, 2, cfg) == [];
    assert out == [p];
    assert FirstMarker([p], 1) == -1;
  }

  /** On the same document the corrected loop removes both markers. */
  lemma AdjacentMarkersRemovedWhenCorrected(cfg: Config, env: Env)
    ensures RunFromCorrected([MarkerParagraph(), MarkerParagraph()], 0, cfg, env) == []
  {
    var p := MarkerParagraph();
    MarkerParagraphIsMarker();
    var out, toc := RoundFrame([p, p], 0, cfg, env);
    assert Collected([p, p], 1, 2, cfg) == [];
    assert out == [p];
    var out2, toc2 := RoundFrame([p], 0, cfg, env);
    assert Collected([p], 1, 1, cfg) == [];
    assert out2 == [];
  }

  /** End to end, for a slugger that never returns an empty slug: the list
      built at the marker `i` links, in order, to the collected headings
      (by `CollectSound` and `CollectComplete`, every heading after the
      marker inside the window, in document order), each through a truthy
      id that the heading now also carries in the document. */
  lemma TocLinksToHeadings(children: seq<Node>, i: nat, cfg: Config, env: Env)
    returns (c: seq<Node>, toc: Option<MdList>, hs: seq<HeadingInfo>)
    requires forall h: seq<string>, t: string :: env.slug(h, t) != ""
    ensures (c, toc) == TocAt(children, i, cfg, env)
    ensures |hs| == |Collected(children, i + 1, |children|, cfg)|
    ensures forall k | 0 <= k < |hs| ::
      hs[k].(id := Collected(children, i + 1, |children|, cfg)[k].id) == Collected(children, i + 1, |children|, cfg)[k]
    ensures forall k | 0 <= k < |hs| ::
      0 <= hs[k].index < |children| && children[hs[k].index].Heading? && Truthy(hs[k].id)
      && c[hs[k].index] == children[hs[k].index].(hid := hs[k].id)
    ensures toc.None? <==> hs == []
    ensures toc.Some? ==> Anchors(toc.value.items) == Urls(hs)
  {
    var col := Collected(children, i + 1, |children|, cfg);
    CollectedIndices(children, i + 1, cfg);
    CollectedFromHeadings(children, i + 1, cfg);
    SluggedBare(col, children, env);
    var st := SlugIdsWritten(col, children, env);
    SlugKeepsRecords(col, children, env, |col|);
    c, toc, hs := st.children, TocOf(st.headings), st.headings;
    if |hs| > 0 {
      assert forall h | h in hs :: Bare(h) && WellFormed(h) && Truthy(h.id);
      TocLinksHeadingsInOrder(hs);
    }
  }

  /** Each collected record is taken from a heading in the window and
      carries that heading's id. */
  lemma CollectedFromHeadings(children: seq<Node>, from: nat, cfg: Config)
    ensures forall h | h in Collected(children, from, |children|, cfg) ::
      0 <= h.index < |children| && InWindow(children[h.index], cfg) && h.id == children[h.index].hid
  {
    CollectSound(children, from, |children|, cfg);
  }
}
