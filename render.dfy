/**
 * Rendering the heading tree as nested mdast lists (src/index.ts,
 * makeLink, transformToListTree and buildTocTree).
 */
module Render {
  import opened Mdast
  import opened Outline

  /** `makeLink(node)`: a link to `#` followed by the id, wrapping the
      heading's content. A missing id is interpolated as `undefined`. */
  function MakeLink(node: HeadingInfo): (link: Phrasing)
    ensures link.Link? && link.children == node.content
    ensures link.url == "#" + node.id.GetOr("undefined")
  {
    Link("#" + (if node.id.Some? then node.id.value else "undefined"), node.content)
  }

  /** The inline content of an entry's list item: the link when the id is
      truthy, the heading's own content otherwise. */
  function Label(node: HeadingInfo): seq<Phrasing> {
    if Truthy(node.id) then [MakeLink(node)] else node.content
  }

  /** Reference rendering of one entry: its label, then a nested list of
      its rendered sub-entries exactly when it has sub-entries. */
  ghost function RenderItem(node: HeadingInfo): ListItem
    decreases node
  {
    ListItem(Label(node), if |node.children| > 0 then Some(MdList(RenderItems(node.children), None)) else None)
  }

  ghost function RenderItems(nodes: seq<HeadingInfo>): (items: seq<ListItem>)
    ensures |items| == |nodes|
    decreases nodes
  {
    if nodes == [] then [] else [RenderItem(nodes[0])] + RenderItems(nodes[1..])
  }

  lemma {:induction false} RenderItemsSnoc(init: seq<HeadingInfo>, x: HeadingInfo)
    ensures RenderItems(init + [x]) == RenderItems(init) + [RenderItem(x)]
    decreases |init|
  {
    if init == [] {
      assert init + [x] == [x];
      assert [x][1..] == [];
    } else {
      assert (init + [x])[0] == init[0];
      assert (init + [x])[1..] == init[1..] + [x];
      RenderItemsSnoc(init[1..], x);
    }
  }

  lemma {:induction false} RenderItemsAt(nodes: seq<HeadingInfo>)
    ensures |RenderItems(nodes)| == |nodes|
    ensures forall k | 0 <= k < |nodes| :: RenderItems(nodes)[k] == RenderItem(nodes[k])
    decreases |nodes|
  {
    if nodes != [] {
      RenderItemsAt(nodes[1..]);
    }
  }

  /** One list item per entry, in the same order: a link to `#id` when the
      id is truthy and the bare content otherwise, followed by the rendered
      sub-entries exactly when there are any. */
  lemma RenderItemsPointwise(nodes: seq<HeadingInfo>)
    ensures |RenderItems(nodes)| == |nodes|
    ensures forall k | 0 <= k < |nodes| ::
      RenderItems(nodes)[k].content == if Truthy(nodes[k].id) then [Link("#" + nodes[k].id.value, nodes[k].content)] else nodes[k].content
    ensures forall k | 0 <= k < |nodes| ::
      RenderItems(nodes)[k].nested == if |nodes[k].children| > 0 then Some(MdList(RenderItems(nodes[k].children), None)) else None
  {
    RenderItemsAt(nodes);
    forall k | 0 <= k < |nodes|
      ensures RenderItems(nodes)[k].content == Label(nodes[k])
      ensures RenderItems(nodes)[k].nested == if |nodes[k].children| > 0 then Some(MdList(RenderItems(nodes[k].children), None)) else None
    {
      assert RenderItems(nodes)[k] == RenderItem(nodes[k]);
    }
  }

  /** `transformToListTree(nodes)`: a loop over the entries, recursing into
      the sub-entries of each. */
  method TransformToListTree(nodes: seq<HeadingInfo>) returns (result: seq<ListItem>)
    ensures result == RenderItems(nodes)
    decreases nodes
  {
    result := [];
    for k := 0 to |nodes|
      invariant result == RenderItems(nodes[..k])
    {
      var node := nodes[k];
      var children := if Truthy(node.id) then [MakeLink(node)] else node.content;
      var item := ListItem(children, None);
      if |node.children| > 0 {
        var sub := TransformToListTree(node.children);
        item := item.(nested := Some(MdList(sub, None)));
      }
      assert nodes[..k + 1] == nodes[..k] + [node];
      RenderItemsSnoc(nodes[..k], node);
      result := result + [item];
    }
    assert nodes[..|nodes|] == nodes;
  }

  /** Reference result of `buildTocTree`: absent for no headings, otherwise
      the rendering of the tree built at the shallowest depth present. */
  ghost function TocOf(headings: seq<HeadingInfo>): (toc: Option<MdList>)
    requires forall h | h in headings :: WellFormed(h)
    ensures toc.None? <==> |headings| == 0
    ensures toc.Some? ==> toc.value.className == None
  {
    if |headings| > 0 then
      Some(MdList(RenderItems(BuildTree(headings, MinDepth(headings), [])), None))
    else
      None
  }

  /** `buildTocTree(headings)`. */
  method BuildTocTree(headings: seq<HeadingInfo>) returns (toc: Option<MdList>)
    requires forall h | h in headings :: WellFormed(h)
    ensures toc == TocOf(headings)
    ensures toc.None? <==> |headings| == 0
  {
    if |headings| > 0 {
      var minDepth := ReduceMin(6, headings);
      var tree := BuildTree(headings, minDepth, []);
      var items := TransformToListTree(tree);
      return Some(MdList(items, None));
    }
    return None;
  }

  /** The link targets of a rendered list, in document order: the url of
      every item whose content is a single link. */
  ghost function Anchors(items: seq<ListItem>): seq<string>
    decreases items
  {
    if items == [] then [] else ItemAnchors(items[0]) + Anchors(items[1..])
  }

  ghost function ItemAnchors(item: ListItem): seq<string>
    decreases item
  {
    (if |item.content| == 1 && item.content[0].Link? then [item.content[0].url] else [])
    + (if item.nested.Some? then Anchors(item.nested.value.items) else [])
  }

  /** `#id` for each entry, in order. */
  ghost function Urls(entries: seq<HeadingInfo>): seq<string>
    decreases |entries|
  {
    if entries == [] then [] else ["#" + entries[0].id.GetOr("undefined")] + Urls(entries[1..])
  }

  lemma {:induction false} UrlsAppend(a: seq<HeadingInfo>, b: seq<HeadingInfo>)
    ensures Urls(a + b) == Urls(a) + Urls(b)
    decreases |a|
  {
    if a == [] {
      assert a + b == b;
    } else {
      assert (a + b)[0] == a[0];
      assert (a + b)[1..] == a[1..] + b;
      UrlsAppend(a[1..], b);
    }
  }

  /** When every real entry of a well-formed tree has a truthy id, the
      rendered list links to those ids in preorder: placeholders render as
      empty items and add no link. */
  lemma {:induction false} RenderAnchors(nodes: seq<HeadingInfo>)
    requires forall n | n in nodes :: WellFormed(n)
    requires forall e | e in Preorder(nodes) :: Truthy(e.id)
    ensures Anchors(RenderItems(nodes)) == Urls(Preorder(nodes))
    decreases nodes, 1
  {
    if nodes != [] {
      var x, rest := nodes[0], nodes[1..];
      assert x in nodes;
      PreorderCons(nodes);
      assert forall e | e in Visit(x) :: e in Preorder(nodes);
      assert forall e | e in Preorder(rest) :: e in Preorder(nodes);
      assert forall n | n in rest :: n in nodes;
      ItemRenderAnchors(x);
      RenderAnchors(rest);
      UrlsAppend(Visit(x), Preorder(rest));
      assert RenderItems(nodes) == [RenderItem(x)] + RenderItems(rest);
      assert Anchors(RenderItems(nodes)) == ItemAnchors(RenderItem(x)) + Anchors(RenderItems(rest)) by {
        assert ([RenderItem(x)] + RenderItems(rest))[1..] == RenderItems(rest);
      }
    }
  }

  lemma {:induction false} ItemRenderAnchors(x: HeadingInfo)
    requires WellFormed(x)
    requires forall e | e in Visit(x) :: Truthy(e.id)
    ensures ItemAnchors(RenderItem(x)) == Urls(Visit(x))
    decreases x, 0
  {
    var self := if IsPlaceholder(x) then [] else [x.(children := [])];
    assert Visit(x) == self + Preorder(x.children);
    assert forall e | e in Preorder(x.children) :: e in Visit(x);
    assert forall c | c in x.children :: WellFormed(c);
    RenderAnchors(x.children);
    UrlsAppend(self, Preorder(x.children));
    var own := if |Label(x)| == 1 && Label(x)[0].Link? then [Label(x)[0].url] else [];
    assert own == Urls(self) by {
      if IsPlaceholder(x) {
        assert Label(x) == [];
      } else {
        assert x.(children := []) in Visit(x);
        assert Label(x) == [MakeLink(x)];
        assert [x.(children := [])][1..] == [];
      }
    }
    if |x.children| == 0 {
      assert Preorder(x.children) == [];
    }
  }

  /** End to end: for collected headings that all carry a truthy id, the
      table of contents links to `#id` of each heading, in document order. */
  lemma TocLinksHeadingsInOrder(headings: seq<HeadingInfo>)
    requires forall h | h in headings :: Bare(h) && WellFormed(h) && Truthy(h.id)
    requires |headings| > 0
    ensures TocOf(headings).Some?
    ensures Anchors(TocOf(headings).value.items) == Urls(headings)
  {
    var tree := BuildTree(headings, MinDepth(headings), []);
    BuildTreeKeepsOrder(headings);
    RenderAnchors(tree);
  }
}
