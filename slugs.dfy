/**
 * Slug assignment (src/index.ts, slugHeadings).
 *
 * The two foreign calls are parameters. github-slugger's `slug` is a
 * function of the slugger's registry, the texts it has been given so far
 * in order, and of the new text; a fresh slugger has an empty registry.
 * mdast-util-to-string is an uninterpreted function of the heading node.
 */
module Slugs {
  import opened Mdast
  import opened Outline

  /** The foreign functions `slugHeadings` calls. */
  datatype Env = Env(slug: (seq<string>, string) -> string, toText: Node -> string)

  /** The text handed to the slugger: `getHPropertiesId(node) ?? toString(node)`.
      An empty id is present, so it is passed on as it is. */
  function SlugText(node: Node, env: Env): string
    requires node.Heading?
  {
    if node.hid.Some? then node.hid.value else env.toText(node)
  }

  /** What `slugHeadings` has produced after some of the records: the
      records so far (with their ids), the document's children, and the
      slugger's registry. */
  datatype SlugState = SlugState(headings: seq<HeadingInfo>, children: seq<Node>, history: seq<string>)

  /** Every record points at one of the document's top-level children. */
  predicate IndicesIn(headings: seq<HeadingInfo>, children: seq<Node>) {
    forall h | h in headings :: 0 <= h.index < |children|
  }

  /** No two records point at the same child, as is the case for the
      records `makeTableOfContents` collects. */
  predicate DistinctIndices(headings: seq<HeadingInfo>) {
    forall a, b | 0 <= a < b < |headings| :: headings[a].index != headings[b].index
  }

  /** Record `h` gets a slug: its id is falsy and it points at a heading. */
  predicate Slugged(h: HeadingInfo, children: seq<Node>)
    requires 0 <= h.index < |children|
  {
    !Truthy(h.id) && children[h.index].Heading?
  }

  /** One iteration of the loop in `slugHeadings`. */
  function SlugStep(st: SlugState, h: HeadingInfo, env: Env): SlugState
    requires 0 <= h.index < |st.children|
  {
    if Slugged(h, st.children) then
      var node := st.children[h.index];
      var text := SlugText(node, env);
      var id := env.slug(st.history, text);
      SlugState(st.headings + [h.(id := Some(id))], st.children[h.index := node.(hid := Some(id))], st.history + [text])
    else
      st.(headings := st.headings + [h])
  }

  /** The state after the first `n` records, starting from a fresh slugger. */
  function SlugUpTo(headings: seq<HeadingInfo>, children: seq<Node>, env: Env, n: nat): (st: SlugState)
    requires n <= |headings| && IndicesIn(headings, children)
    ensures |st.children| == |children| && |st.headings| == n && |st.history| <= n
    decreases n
  {
    if n == 0 then SlugState([], children, [])
    else SlugStep(SlugUpTo(headings, children, env, n - 1), headings[n - 1], env)
  }

  /** `slugHeadings(headings, root)`. The records are updated in the source;
      here the updated list is returned. */
  method SlugHeadings(headings: seq<HeadingInfo>, root: Root, env: Env) returns (slugged: seq<HeadingInfo>)
    requires IndicesIn(headings, root.children)
    modifies root
    ensures var st := SlugUpTo(headings, old(root.children), env, |headings|);
      slugged == st.headings && root.children == st.children
  {
    ghost var children := root.children;
    var history: seq<string> := [];
    slugged := [];
    for k := 0 to |headings|
      invariant SlugState(slugged, root.children, history) == SlugUpTo(headings, children, env, k)
    {
      var heading := headings[k];
      assert heading in headings;
      if !Truthy(heading.id) {
        var node := root.children[heading.index];
        if node.Heading? {
          var text := if node.hid.Some? then node.hid.value else env.toText(node);
          var id := env.slug(history, text);
          history := history + [text];
          heading := heading.(id := Some(id));
          root.children := root.children[heading.index := node.(hid := Some(id))];
        }
      }
      slugged := slugged + [heading];
    }
  }

  /** The positions of the children the first `n` records point at. */
  ghost function Touched(headings: seq<HeadingInfo>, n: nat): set<int>
    requires n <= |headings|
  {
    set m | 0 <= m < n :: headings[m].index
  }

  /** Each record keeps everything but its id, and a record with a truthy
      id is kept as it is. */
  lemma {:induction false} SlugKeepsRecords(headings: seq<HeadingInfo>, children: seq<Node>, env: Env, n: nat)
    requires n <= |headings| && IndicesIn(headings, children)
    ensures var st := SlugUpTo(headings, children, env, n);
      (forall m | 0 <= m < n :: st.headings[m].(id := headings[m].id) == headings[m]) &&
      (forall m | 0 <= m < n && Truthy(headings[m].id) :: st.headings[m] == headings[m])
    decreases n
  {
    if n > 0 {
      var prev := SlugUpTo(headings, children, env, n - 1);
      var st := SlugUpTo(headings, children, env, n);
      SlugKeepsRecords(headings, children, env, n - 1);
      assert headings[n - 1] in headings;
      SlugStepAppends(prev, headings[n - 1], env);
      forall m | 0 <= m < n
        ensures st.headings[m].(id := headings[m].id) == headings[m]
        ensures Truthy(headings[m].id) ==> st.headings[m] == headings[m]
      {
        if m < n - 1 {
          assert st.headings[m] == prev.headings[m];
        }
      }
    }
  }

  /** A step appends one record, which differs from the input at most in its id. */
  lemma SlugStepAppends(st: SlugState, h: HeadingInfo, env: Env)
    requires 0 <= h.index < |st.children|
    ensures |SlugStep(st, h, env).headings| == |st.headings| + 1
    ensures forall m | 0 <= m < |st.headings| :: SlugStep(st, h, env).headings[m] == st.headings[m]
    ensures SlugStep(st, h, env).headings[|st.headings|].(id := h.id) == h
    ensures Truthy(h.id) ==> SlugStep(st, h, env).headings[|st.headings|] == h
  {
  }

  /** Each child either stays as it is or is the same heading with a new
      `hProperties.id`. */
  lemma {:induction false} SlugOnlyHeadingIds(headings: seq<HeadingInfo>, children: seq<Node>, env: Env, n: nat)
    requires n <= |headings| && IndicesIn(headings, children)
    ensures var st := SlugUpTo(headings, children, env, n);
      forall j | 0 <= j < |children| ::
        st.children[j] == children[j] || (children[j].Heading? && st.children[j].Heading? && st.children[j] == children[j].(hid := st.children[j].hid))
    decreases n
  {
    if n > 0 {
      SlugOnlyHeadingIds(headings, children, env, n - 1);
      var prev := SlugUpTo(headings, children, env, n - 1);
      var h := headings[n - 1];
      assert h in headings;
      assert prev.children[h.index].Heading? ==> children[h.index].Heading?;
    }
  }

  /** No child is touched that no record points at. */
  lemma {:induction false} SlugUntouched(headings: seq<HeadingInfo>, children: seq<Node>, env: Env, n: nat)
    requires n <= |headings| && IndicesIn(headings, children)
    ensures var st := SlugUpTo(headings, children, env, n);
      forall j | 0 <= j < |children| && j !in Touched(headings, n) :: st.children[j] == children[j]
    decreases n
  {
    if n > 0 {
      SlugUntouched(headings, children, env, n - 1);
      assert headings[n - 1] in headings;
      forall j | 0 <= j < |children| && j !in Touched(headings, n)
        ensures j !in Touched(headings, n - 1) && j != headings[n - 1].index
      {
        assert headings[n - 1].index in Touched(headings, n);
      }
    }
  }

  /** Under distinct indices, record `k` sees its heading as the document
      had it, and the slug step at `k` is the one the source performs. */
  lemma SlugSeesOriginal(headings: seq<HeadingInfo>, children: seq<Node>, env: Env, k: nat)
    requires k < |headings| && IndicesIn(headings, children) && DistinctIndices(headings)
    ensures var before := SlugUpTo(headings, children, env, k);
      before.children[headings[k].index] == children[headings[k].index]
  {
    SlugUntouched(headings, children, env, k);
    assert headings[k].index !in Touched(headings, k);
  }

  /** Records and children written by the step at `k` survive the later steps. */
  lemma {:induction false} SlugKeepsWrite(headings: seq<HeadingInfo>, children: seq<Node>, env: Env, k: nat, n: nat)
    requires k < n <= |headings| && IndicesIn(headings, children) && DistinctIndices(headings)
    ensures var st := SlugUpTo(headings, children, env, n);
      var at := SlugUpTo(headings, children, env, k + 1);
      st.headings[k] == at.headings[k] && st.children[headings[k].index] == at.children[headings[k].index]
      && at.history <= st.history
    decreases n
  {
    if n > k + 1 {
      SlugKeepsWrite(headings, children, env, k, n - 1);
      assert headings[n - 1] in headings;
      assert headings[k].index != headings[n - 1].index;
    }
  }

  /** Slug assignment: a record with a falsy id that points at a heading
      gets `slug(hProperties.id ?? toString(node))` from the registry built
      by the records before it, and the same id is written to the heading
      node; a record with a truthy id leaves its heading node untouched. */
  lemma SlugAssigned(headings: seq<HeadingInfo>, children: seq<Node>, env: Env, k: nat)
    requires k < |headings| && IndicesIn(headings, children) && DistinctIndices(headings)
    ensures var st := SlugUpTo(headings, children, env, |headings|);
      var before := SlugUpTo(headings, children, env, k);
      var i := headings[k].index;
      (Slugged(headings[k], children) ==>
         st.headings[k].id == Some(env.slug(before.history, SlugText(children[i], env)))
         && st.children[i] == children[i].(hid := st.headings[k].id))
      && (!Slugged(headings[k], children) ==> st.headings[k] == headings[k] && st.children[i] == children[i])
  {
    assert headings[k] in headings;
    SlugSeesOriginal(headings, children, env, k);
    SlugKeepsWrite(headings, children, env, k, |headings|);
  }

  /** With a slugger that never returns an empty slug, every record taken
      from a heading ends up with a truthy id, and that heading carries the
      same id in the document. */
  lemma SlugIdsWritten(headings: seq<HeadingInfo>, children: seq<Node>, env: Env) returns (st: SlugState)
    requires IndicesIn(headings, children) && DistinctIndices(headings)
    requires forall h | h in headings :: children[h.index].Heading? && h.id == children[h.index].hid
    requires forall h: seq<string>, t: string :: env.slug(h, t) != ""
    ensures st == SlugUpTo(headings, children, env, |headings|)
    ensures forall k | 0 <= k < |headings| ::
      st.headings[k].index == headings[k].index
    ensures forall k | 0 <= k < |headings| ::
      0 <= st.headings[k].index < |children| && children[st.headings[k].index].Heading? && Truthy(st.headings[k].id)
      && st.children[st.headings[k].index] == children[st.headings[k].index].(hid := st.headings[k].id)
  {
    st := SlugUpTo(headings, children, env, |headings|);
    SlugKeepsRecords(headings, children, env, |headings|);
    forall k | 0 <= k < |headings|
      ensures st.headings[k].index == headings[k].index
      ensures 0 <= st.headings[k].index < |children| && children[st.headings[k].index].Heading? && Truthy(st.headings[k].id)
      ensures st.children[st.headings[k].index] == children[st.headings[k].index].(hid := st.headings[k].id)
    {
      assert headings[k] in headings;
      assert st.headings[k].(id := headings[k].id) == headings[k];
      SlugAssigned(headings, children, env, k);
    }
  }

  /** The slugger's promise, which its source (not part of this model) is
      trusted to keep: a slug never repeats one it handed out before. */
  ghost predicate NeverRepeats(slug: (seq<string>, string) -> string) {
    forall h1: seq<string>, t1: string, h2: seq<string>, t2: string | h1 + [t1] <= h2 :: slug(h2, t2) != slug(h1, t1)
  }

  /** The step at `k` registers exactly the text of a slugged heading. */
  lemma SlugRegisters(headings: seq<HeadingInfo>, children: seq<Node>, env: Env, k: nat)
    requires k < |headings| && IndicesIn(headings, children) && DistinctIndices(headings)
    requires Slugged(headings[k], children)
    ensures var before := SlugUpTo(headings, children, env, k);
      SlugUpTo(headings, children, env, k + 1).history == before.history + [SlugText(children[headings[k].index], env)]
  {
    assert headings[k] in headings;
    SlugSeesOriginal(headings, children, env, k);
  }

  /** The texts the first `n` records hand to the slugger: the slug text of
      each record that gets a slug, in order; a record that is skipped (its
      id is truthy, or no heading sits at its index) hands over nothing. */
  ghost function SlugTexts(headings: seq<HeadingInfo>, children: seq<Node>, env: Env, n: nat): seq<string>
    requires n <= |headings| && IndicesIn(headings, children)
    decreases n
  {
    if n == 0 then []
    else
      var h := headings[n - 1];
      assert h in headings;
      SlugTexts(headings, children, env, n - 1) + (if Slugged(h, children) then [SlugText(children[h.index], env)] else [])
  }

  /** The step at `k` of a skipped record registers nothing. */
  lemma SkippedNotRegistered(headings: seq<HeadingInfo>, children: seq<Node>, env: Env, k: nat)
    requires k < |headings| && IndicesIn(headings, children) && DistinctIndices(headings)
    requires !Slugged(headings[k], children)
    ensures SlugUpTo(headings, children, env, k + 1).history == SlugUpTo(headings, children, env, k).history
  {
    assert headings[k] in headings;
    SlugSeesOriginal(headings, children, env, k);
  }

  /** The slugger's registry after the first `n` records is exactly the
      slug texts of the slugged records among them, in document order. */
  lemma {:induction false} SlugHistory(headings: seq<HeadingInfo>, children: seq<Node>, env: Env, n: nat)
    requires n <= |headings| && IndicesIn(headings, children) && DistinctIndices(headings)
    ensures SlugUpTo(headings, children, env, n).history == SlugTexts(headings, children, env, n)
    decreases n
  {
    if n > 0 {
      SlugHistory(headings, children, env, n - 1);
      if Slugged(headings[n - 1], children) {
        SlugRegisters(headings, children, env, n - 1);
      } else {
        SkippedNotRegistered(headings, children, env, n - 1);
      }
    }
  }

  /** With a slugger that never repeats itself, the ids one table of
      contents assigns are pairwise distinct. */
  lemma SlugIdsDistinct(headings: seq<HeadingInfo>, children: seq<Node>, env: Env, a: nat, b: nat)
    requires IndicesIn(headings, children) && DistinctIndices(headings) && NeverRepeats(env.slug)
    requires a < b < |headings|
    requires Slugged(headings[a], children) && Slugged(headings[b], children)
    ensures var st := SlugUpTo(headings, children, env, |headings|);
      st.headings[a].id != st.headings[b].id
  {
    var ha := SlugUpTo(headings, children, env, a).history;
    var hb := SlugUpTo(headings, children, env, b).history;
    var ta := SlugText(children[headings[a].index], env);
    var tb := SlugText(children[headings[b].index], env);
    SlugAssigned(headings, children, env, a);
    SlugAssigned(headings, children, env, b);
    SlugRegisters(headings, children, env, a);
    if a + 1 < b {
      SlugKeepsWrite(headings, children, env, a, b);
    }
    assert ha + [ta] <= hb;
  }

  /** A slugger that numbers its slugs: "s", "sx", "sxx", ... */
  function Counting(hist: seq<string>, text: string): string {
    "s" + seq(|hist|, _ => 'x')
  }

  /** Explicit ids are not registered with the slugger, so even one that
      never repeats itself can hand out an id the document already uses:
      a heading with id "s" and a later heading without one both end up
      with id "s". */
  lemma ExplicitIdNotReserved()
    ensures NeverRepeats(Counting)
    ensures var env := Env(Counting, _ => "Intro");
      var children := [Heading(1, [], Some("s")), Heading(1, [], None)];
      var headings := [HeadingInfo(0, 1, Some("s"), [], []), HeadingInfo(1, 1, None, [], [])];
      var st := SlugUpTo(headings, children, env, 2);
      st.children[0].hid == st.children[1].hid == Some("s")
  {
    forall h1: seq<string>, t1: string, h2: seq<string>, t2: string | h1 + [t1] <= h2
      ensures Counting(h2, t2) != Counting(h1, t1)
    {
      assert |Counting(h2, t2)| == 1 + |h2| > 1 + |h1| == |Counting(h1, t1)|;
    }
    var env := Env(Counting, _ => "Intro");
    var children := [Heading(1, [], Some("s")), Heading(1, [], None)];
    var headings := [HeadingInfo(0, 1, Some("s"), [], []), HeadingInfo(1, 1, None, [], [])];
    var st1 := SlugUpTo(headings, children, env, 1);
    assert st1 == SlugState([headings[0]], children, []);
    assert Counting([], "Intro") == "s";
  }
}
