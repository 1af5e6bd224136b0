# remark-gen-toc in Dafny

This project models the remark plugin `remark-gen-toc` (`src/index.ts`). The plugin scans a markdown document's top-level children for marker paragraphs: paragraphs whose single child is a text node containing `[[ TOC ]]` (any white space inside the brackets, any case), possibly with other text around it. The scan resumes after each marker it handles; a marker directly after a removed one is skipped (see "## Findings"). For each marker it collects the headings after the marker whose depth lies in a configured window, `minDepth`..`maxDepth`, which defaults to 1..3.

Each collected heading that has no identifier gets a slug from a fresh slugger. The slug is written to the heading record and to the heading node's `hProperties.id`.

The collected headings are then arranged into an outline:
- the root level is the shallowest depth present;
- every edge goes exactly one level deeper;
- placeholder entries fill skipped levels, and a placeholder is only ever the first entry under its parent or at the top (`Outline.BuildTreePlaceholdersFirst`).

The outline is rendered as nested lists of links to `#id`. The list replaces the marker and carries the configured class name. When no heading qualifies, the marker is removed instead. A window with `minDepth > maxDepth` is refused with an error before the document is looked at.

The model has six modules, one per file:

- `mdast.dfy` (`Mdast`): the slice of the mdast document model the plugin touches, `Option`/`Result`, plus JavaScript truthiness of an optional string. The document root is a class whose `children` sequence the plugin changes in place.
- `marker.dfy` (`Marker`): `String.prototype.trim`, a hand-written matcher for `/\[\[\s*TOC\s*]]/gi` proved equal to the pattern's meaning, `isTextOnlyParagraph`, `isTocMarker` and the `findTocMarker` scan, a method proved against a specification function.
- `outline.dfy` (`Outline`): `deeper`, `ensureDepth`, `appendLeaf`, `buildTree` and the min-depth `reduce`. It proves the placeholder chain, the top-level depth, the absence of depth gaps, that a placeholder is only ever a first entry, and that a preorder walk gives back the input.
- `render.dfy` (`Render`): `makeLink`, the `transformToListTree` loop and `buildTocTree`. It proves that the list links to the headings in document order.
- `slugs.dfy` (`Slugs`): the `slugHeadings` loop, with the slugger as a function of its registry. It proves what is written where, that nothing else is touched, and that ids are distinct when the slugger never repeats itself.
- `plugin.dfy` (`Plugin`): option resolution and validation, the `makeTableOfContents` collection loop, `replaceToc`, and the plugin's marker loop, with the Finding below.

Modelling choices:
- The two foreign calls are parameters, in `Slugs.Env`:
  - `slug(history, text)` stands for `slugger.slug(text)`. The slugger's state is the sequence of texts it has been given so far; a fresh slugger has an empty history.
  - `toText(node)` stands for `toString` from mdast-util-to-string.
- Everything the model concludes about uniqueness is under the explicit assumption `Slugs.NeverRepeats`.
- The outline is a datatype. Where the source pushes into the `children` array of an entry already in the tree, the model rebuilds the rightmost spine. The two agree because every entry has exactly one parent in the tree, and `makeTableOfContents`'s flat `headings` array, which also holds each record (src/index.ts:55), is not read again after `buildTree`.

Two expectations a reader might have do not hold of the code, and the model follows the code:
- One might expect a heading with an explicit id to register that id with the slugger. The code skips such a heading entirely (src/index.ts:88). A later automatic slug can therefore equal an explicit id; `Slugs.ExplicitIdNotReserved` exhibits this.
- One might expect all ids in the document to be pairwise distinct. The model proves this only for the ids a table of contents assigns itself, under `NeverRepeats` (`Slugs.SlugIdsDistinct`).

## Model

| member | source | states |
|---|---|---|
| Marker.SkipSpaces | src/index.ts:208-209 | the first position at or after `p` that is not white space; everything skipped is white space |
| Marker.SkipSpacesBack | src/index.ts:208 | one past the last non-white-space position before `e`; everything after it up to `e` is white space |
| Marker.Trim | src/index.ts:208 | `trim()` never lengthens the text, and its result is empty or starts and ends with a non-space character |
| Marker.TrimStrips | src/index.ts:208 | the trimmed text is a slice of the text with only white space cut off before and after it |
| Marker.SkipSpacesStopsAt | src/index.ts:209 | after a run of white space, skipping stops exactly at the first non-space |
| Marker.MatchAtIffMarkerAt | src/index.ts:209 | the greedy matcher succeeds at `i` iff `[[`, white space, `toc` in any case, white space and `]]` occur starting at `i` |
| Marker.MatchAt | src/index.ts:209 | defines a greedy match at `i`: `[[`, skipped white space, `toc` in any case, skipped white space, `]]`; `Marker.MatchAtIffMarkerAt` states its meaning |
| Marker.HasMarker | src/index.ts:209 | defines the test as a match at some position; `Marker.HasMarkerIffPattern` states its meaning |
| Marker.HasMarkerIffPattern | src/index.ts:209 | the regular-expression test holds iff the pattern occurs somewhere in the text |
| Marker.MarkerInSlice | src/index.ts:208-209 | a match inside a slice is a match of the whole text, shifted |
| Marker.MarkerToSlice | src/index.ts:208-209 | a match lying inside a slice is a match of the slice, shifted |
| Marker.TrimKeepsMarker | src/index.ts:206-210 | trimming before the test never changes its outcome |
| Marker.MarkerOfTrim | src/index.ts:208-209 | a match in the trimmed text is a match in the text |
| Marker.MarkerSurvivesTrim | src/index.ts:208-209 | a match in the text survives trimming |
| Marker.IsTocMarker | src/index.ts:206-211 | holds iff the node is a text node whose value, trimmed or not, contains the pattern anywhere |
| Marker.IsTextOnlyParagraph | src/index.ts:188-192 | defines a paragraph with exactly one child, a text node |
| Marker.IsMarkerNode | src/index.ts:169-170 | defines the scan's test: a text-only paragraph whose text node is a marker |
| Marker.NoMarkerAfter | src/index.ts:166-176 | when the scan from `start` finds nothing, no child from `start` on is a marker |
| Marker.FirstMarker | src/index.ts:166-176 | the smallest index at or after `start` holding a text-only paragraph with the marker, and -1 iff there is none |
| Marker.FindTocMarker | src/index.ts:166-176 | the scan returns exactly `FirstMarker(children, startIndex)` |
| Outline.Deeper | src/index.ts:129-131 | defines one level deeper, staying at 6 |
| Outline.EnsureDepth | src/index.ts:147-160 | the wrapped entry sits at `targetDepth` and is well formed when the input is |
| Outline.ChainExtend | src/index.ts:152-158 | one more placeholder around the innermost entry lengthens the chain by one |
| Outline.EnsureDepthChain | src/index.ts:147-160 | `ensureDepth(node, t)` heads a chain of `node.depth - t` placeholders (index -1, no id, empty content, one child one level deeper) ending at `node` itself |
| Outline.EnsureDepthVisit | src/index.ts:147-160 | the placeholders `ensureDepth` adds contribute nothing to the preorder |
| Outline.AppendLeaf | src/index.ts:129-145 | attaching keeps the tree well formed (every edge one level deeper) and keeps the target's own fields; a heading one level deeper is appended after the existing children; a deeper one adds no sibling at this level: it goes into the last child, all earlier children unchanged, or, under a childless target, becomes its one child through a placeholder chain |
| Outline.AppendLeafVisit | src/index.ts:133-145 | after `appendLeaf`, the preorder of the target's subtree is the old preorder followed by the attached heading |
| Outline.AppendLeafVisitEmpty | src/index.ts:138-139 | attaching below a childless target through a placeholder chain adds exactly the heading to the preorder |
| Outline.AppendLeafVisitDeeper | src/index.ts:141-142 | descending into the last child appends the heading to the target's preorder |
| Outline.Place | src/index.ts:114-123 | one step of `buildTree` keeps every top-level entry at `minDepth` and well formed; a heading at `minDepth` is appended as a new top-level entry; a deeper one goes under the last top-level entry, adding none and leaving the earlier ones unchanged |
| Outline.PlacePreorder | src/index.ts:114-123 | each step adds the heading at the end of the preorder |
| Outline.BuildTree | src/index.ts:111-127 | every top-level entry sits at `minDepth`, every edge goes one level deeper, and the result is empty iff the input and accumulator are (where placeholders may sit: `Outline.BuildTreePlaceholdersFirst`) |
| Outline.BuildTreePreorder | src/index.ts:111-127 | the preorder of the result is the accumulator's followed by the headings, in order |
| Outline.BuildTreeKeepsOrder | src/index.ts:104-105 | each collected heading is placed exactly once, and the preorder walk skipping placeholders gives back the input order |
| Outline.ReduceMin | src/index.ts:103-104 | the fold's value is at most the start and every depth, and equals the start or one of the depths |
| Outline.MinDepth | src/index.ts:103-104 | starting at 6, on a non-empty list the fold gives the shallowest depth present |
| Outline.PreorderOfBare | src/index.ts:48-54 | freshly collected records, which have no sub-entries, are their own preorder |
| Outline.GapFilledByPlaceholder | src/index.ts:111-160 | depths 1, 3 give a level-1 entry whose only child is a level-2 placeholder holding the level-3 heading |
| Outline.RootLevelInferred | src/index.ts:101-145 | depths 3, 3, 4 give two top-level entries at level 3, the second holding the level-4 heading |
| Outline.EnsureDepthFirstOnly | src/index.ts:147-160 | every placeholder `ensureDepth` adds is the only child of its parent, so none follows a sibling |
| Outline.FirstOnlyChildren | src/index.ts:133-145 | an entry has placeholders only first at every level below it iff its list of sub-entries does |
| Outline.SnocFirstOnly | src/index.ts:115-116 | pushing a real heading after existing entries keeps every placeholder first |
| Outline.ReplaceLastFirstOnly | src/index.ts:121-123 | replacing the last entry by one that keeps placeholders first keeps the whole list so |
| Outline.AppendLeafFirstOnly | src/index.ts:133-145 | attaching a real heading never puts a placeholder after a sibling, at any level |
| Outline.PlaceFirstOnly | src/index.ts:114-123 | one step of `buildTree` keeps placeholders first at the top level and below |
| Outline.BuildTreeFirstOnly | src/index.ts:111-127 | `buildTree` from an accumulator with placeholders only first keeps that shape |
| Outline.BuildTreePlaceholdersFirst | src/index.ts:101-127 | in the tree built from collected headings a placeholder is only ever the first entry of its parent or of the top level: placeholders stand for skipped levels, and every later heading goes under an entry already there |
| Outline.BuildTreeThree | src/index.ts:111-127 | `buildTree` over three headings is the three placements in order |
| Outline.SiblingAfterNested | src/index.ts:101-145 | depths 1, 2, 1 give two top-level entries, the level-2 heading under the first |
| Outline.PlaceholderShared | src/index.ts:101-160 | depths 1, 3, 3 give one level-1 entry with one level-2 placeholder holding both level-3 headings |
| Outline.PlaceholderSharedSteps | src/index.ts:111-160 | the three placements for depths 1, 3, 3: the second heading gets a placeholder below the first, the third joins it there |
| Outline.RootLevelSteps | src/index.ts:111-145 | the three placements for depths 3, 3, 4 at root level 3 |
| Render.MakeLink | src/index.ts:62-64 | a link whose url is `#` followed by the id (`undefined` when absent) and whose children are the heading's content |
| Render.Label | src/index.ts:69 | defines an item's inline content: the link when the id is truthy, the heading's content otherwise |
| Render.RenderItem | src/index.ts:68-79 | defines the reference rendering of one entry; `Render.RenderItemsPointwise` states it |
| Render.RenderItems | src/index.ts:66-83 | the reference rendering has one item per entry |
| Render.RenderItemsAt | src/index.ts:66-83 | one rendered item per entry, the `k`th being the rendering of the `k`th entry |
| Render.RenderItemsPointwise | src/index.ts:66-83 | one item per entry, in order: a link to `#id` when the id is truthy, else the bare content; a nested list of the sub-entries' items exactly when there are sub-entries |
| Render.RenderItemsSnoc | src/index.ts:68-80 | appending an entry appends its item |
| Render.TransformToListTree | src/index.ts:66-83 | the loop's result equals the reference rendering `RenderItems(nodes)` |
| Render.TocOf | src/index.ts:101-109 | the table is absent exactly when there are no headings, and the inner list carries no class |
| Render.BuildTocTree | src/index.ts:101-109 | returns `TocOf(headings)`, absent exactly when there are no headings |
| Render.UrlsAppend | src/index.ts:63 | the `#id` targets of two runs of entries concatenate |
| Render.RenderAnchors | src/index.ts:66-83 | when every real entry has a truthy id, the rendered lists link to `#id` of the entries in preorder; placeholders add no link |
| Render.ItemRenderAnchors | src/index.ts:68-79 | the same for one entry and its nested list |
| Render.TocLinksHeadingsInOrder | src/index.ts:101-109 | for collected headings with truthy ids, the table links to `#id` of every heading, in document order |
| Slugs.SlugText | src/index.ts:91 | defines the text handed to the slugger: the explicit id when present (even empty), the node's text otherwise |
| Slugs.SlugStep | src/index.ts:88-96 | defines one iteration of the loop; `Slugs.SlugStepAppends` and `Slugs.SlugAssigned` state its effect |
| Slugs.SlugUpTo | src/index.ts:85-99 | the loop keeps the document's length, emits one record per heading, and registers at most one text per heading |
| Slugs.SlugHeadings | src/index.ts:85-99 | the loop's records and document children equal the fold `SlugUpTo` over all headings, starting from a fresh slugger |
| Slugs.SlugKeepsRecords | src/index.ts:87-96 | each record keeps everything but its id, and a record with a truthy id is kept unchanged |
| Slugs.SlugStepAppends | src/index.ts:88-96 | one iteration appends one record that differs from its input at most in the id |
| Slugs.SlugOnlyHeadingIds | src/index.ts:89-95 | each child either stays as it is or is the same heading with a new `hProperties.id` |
| Slugs.SlugUntouched | src/index.ts:87-97 | no child that no record points at is changed |
| Slugs.SlugSeesOriginal | src/index.ts:89-91 | with distinct indices, each record reads its heading as the document had it |
| Slugs.SlugKeepsWrite | src/index.ts:87-98 | what the iteration for record `k` writes survives the later iterations, and the registry only grows |
| Slugs.SlugAssigned | src/index.ts:88-96 | a record with a falsy id pointing at a heading gets `slug(hProperties.id ?? toString(node))` from the registry of the records before it, and the heading node gets the same id; any other record and its node are left unchanged |
| Slugs.SlugIdsWritten | src/index.ts:88-96 | with a slugger that never returns an empty slug, every record taken from a heading ends with a truthy id, which its heading node also carries |
| Slugs.SlugRegisters | src/index.ts:91 | slugging a heading registers exactly its slug text |
| Slugs.SlugTexts | src/index.ts:87-91 | defines the texts the first `n` records hand to the slugger: the slug text of each slugged record, in order, and nothing for a skipped one |
| Slugs.SkippedNotRegistered | src/index.ts:88-90 | a record with a truthy id, or whose index holds no heading, passes nothing to the slugger: the registry stays as it was |
| Slugs.SlugHistory | src/index.ts:86-97 | the slugger's registry after the first `n` records is exactly the slug texts of the slugged records among them, in document order |
| Slugs.SlugIdsDistinct | src/index.ts:86-92 | with a slugger that never repeats itself, two slugged records of one table get different ids |
| Slugs.ExplicitIdNotReserved | src/index.ts:88 | on a two-heading document, a never-repeating slugger hands out the id a heading already carries explicitly; that explicit ids are never registered is `Slugs.SkippedNotRegistered` and `Slugs.SlugHistory` for all inputs |
| Plugin.DepthText | src/index.ts:19 | a depth is printed as one character, the decimal digit of its value |
| Plugin.WindowError | src/index.ts:19 | defines the error message; `Plugin.MalformedOptionsRefused` shows it filled in |
| Plugin.ResolveOptions | src/index.ts:15-20 | succeeds iff `minDepth <= maxDepth` after defaults (1, 3, `table-of-contents`) fill absent keys; on success yields those values, otherwise the error naming both depths |
| Plugin.DefaultsResolve | src/index.ts:8-17 | no options gives the window 1..3 and the class `table-of-contents` |
| Plugin.MalformedOptionsRefused | src/index.ts:18-19 | `{minDepth: 4, maxDepth: 3}` is refused with the message filled in with 4 and 3 |
| Plugin.InWindow | src/index.ts:47 | defines the test for a heading whose depth lies in the window |
| Plugin.Record | src/index.ts:48-54 | defines the record built for a heading: its position, depth, id and content, and no sub-entries |
| Plugin.Collected | src/index.ts:43-56 | defines the records the collection loop gathers; `Plugin.CollectSound`, `Plugin.CollectIncreasing` and `Plugin.CollectComplete` state what they are |
| Plugin.CollectSound | src/index.ts:43-56 | every collected record is the record (position, depth, id, content) of a heading in the window at a position after the marker |
| Plugin.CollectIncreasing | src/index.ts:43-56 | the positions of the collected records strictly increase, so the records are in document order |
| Plugin.CollectComplete | src/index.ts:43-57 | the record of every heading in the window after the marker is among the collected ones |
| Plugin.CollectedIndices | src/index.ts:43-55 | the records point at distinct children after the marker and have no sub-entries |
| Plugin.CollectedFromHeadings | src/index.ts:47-50 | each record comes from a heading in the window and carries that heading's id |
| Plugin.SluggedBare | src/index.ts:58 | slugging keeps the records fit for the hierarchy builder |
| Plugin.TocAt | src/index.ts:41-60 | the document keeps its length, and the table is absent exactly when no heading after the marker is in the window |
| Plugin.MakeTableOfContents | src/index.ts:41-60 | the collection loop, slugging and tree building give exactly `TocAt` of the old children |
| Plugin.Spliced | src/index.ts:21-29 | the children before the marker stay; the marker becomes the list carrying the class name, or is removed; the children after it shift accordingly |
| Plugin.ReplaceToc | src/index.ts:21-29 | the document's children become `Spliced` of the old ones |
| Plugin.Round | src/index.ts:33-34 | one round never lengthens the document |
| Plugin.RunFrom | src/index.ts:31-35 | defines the outcome of the as-written loop from `start`; `Plugin.RunFromShape` states its effect and `Plugin.AdjacentMarkerSkipped` its flaw |
| Plugin.RunFromDone | src/index.ts:32 | with no marker from `start` on, the loop stops and the document stays as it is |
| Plugin.RunFromShape | src/index.ts:31-35 | a whole run never lengthens the document, keeps the children before `start`, and leaves only lists carrying the class name and children of the original document changed at most in a heading's id |
| Plugin.RoundOrigin | src/index.ts:21-34 | every child after one round is a list put in with the class name or a child of the document before it, changed at most in a heading's id |
| Plugin.FromDocTrans | src/index.ts:31-35 | coming from the document, in that sense, carries over from one round to the next |
| Plugin.RunFromStep | src/index.ts:31-35 | one trip round the loop (search from `start`, build the list, splice it in) leaves the outcome of the rest of the run, resumed at `Advance`, unchanged, and never lengthens the document |
| Plugin.Advance | src/index.ts:32 | the as-written search resumes one past the marker, and the run's measure decreases |
| Plugin.RunFromUnfold | src/index.ts:32 | after the round at the marker `i` found from `start`, the run goes on from `Advance`, that is one past the marker |
| Plugin.RoundIs | src/index.ts:33-34 | a round is the splice of `makeTableOfContents`'s result |
| Plugin.RemarkGenToc | src/index.ts:13-36 | fails iff the window is empty, with its message and the document untouched; otherwise the document becomes the loop's outcome `RunFrom(old children, 0)` |
| Plugin.TocAtFrame | src/index.ts:41-60 | building the table keeps the children up to the marker, changes the others at most in their headings' ids, and changes nothing when no heading qualifies |
| Plugin.RoundFrame | src/index.ts:21-34 | a round keeps the children before the marker. A built list replaces the marker with the class name set, and later children change at most in their headings' ids. When no list is built, only the marker is removed |
| Plugin.MarkerParagraphIsMarker | src/index.ts:188-211 | a paragraph holding only `[[toc]]` is a marker |
| Plugin.AdjacentMarkerSkipped | src/index.ts:31-35 | as written, of two adjacent markers with no heading after them, the second is left in the document |
| Plugin.RunFromCorrected | src/index.ts:31-35 | defines the loop with the search resumed at the freed slot after a removal; `Plugin.CorrectedRunLeavesNoMarker` states its effect |
| Plugin.Resume | src/index.ts:32 | the corrected search resumes at the marker's slot, or one past it when the list took the slot, and the run's measure decreases |
| Plugin.CorrectedUnfoldDone | src/index.ts:32 | with no marker left the corrected loop stops, leaving the document as it is |
| Plugin.CorrectedUnfoldStep | src/index.ts:32-34 | after a round the corrected loop goes on from `Resume` |
| Plugin.CorrectedLeavesNoMarker | src/index.ts:31-35 | when the search resumes at the freed slot after a removal, no marker is left from `start` on |
| Plugin.CorrectedRunLeavesNoMarker | src/index.ts:31-35 | the corrected loop leaves no marker paragraph in the document |
| Plugin.AdjacentMarkersRemovedWhenCorrected | src/index.ts:31-35 | on the two-marker document, the corrected loop removes both markers |
| Plugin.TocLinksToHeadings | src/index.ts:41-59 | for a slugger that never returns an empty slug: the list at a marker links, in order, to every heading after it in the window; each link goes through a truthy id that the heading now carries in the document |

## Left out

- github-slugger (src/index.ts:2, 86, 91): its algorithm (lower-casing, stripping, `-1` suffixes) is not part of this model. It is the parameter `Env.slug` of the registry history and the text, and its uniqueness is the explicit assumption `Slugs.NeverRepeats`, used only by `Slugs.SlugIdsDistinct`.
- mdast-util-to-string (src/index.ts:3, 91) is the uninterpreted parameter `Env.toText`.
- JavaScript regular-expression machinery in `isTocMarker` (the `g` flag, `lastIndex`): the pattern is matched by a hand-written matcher instead.
- The dynamic `typeof` and `in` checks of `getHeadingId` and `getHPropertiesId` (src/index.ts:162-186) collapse to the one optional string `Heading.hid`. A non-string `hProperties.id` is not modelled.
- An options object holding `className: undefined` explicitly overrides the default in the source, leaving the class undefined. The model treats an absent key and an undefined key alike. For `minDepth` and `maxDepth` the source's `??` makes the two agree anyway.
- In-place mutation and aliasing are modelled on values:
  - `appendLeaf` and `buildTree` rebuild the rightmost spine instead of pushing into shared arrays;
  - `slugHeadings` returns the updated records instead of updating the caller's objects.
- When an entry's id is falsy, the source's `transformToListTree` pushes the nested list into the heading's own `content` array, because that array is shared (src/index.ts:69, 78). The heading node in the document then also gains the list. The model keeps the nested list in a separate field of the list item and does not model this sharing.
- The `data.hProperties` object written to the list (src/index.ts:23) is reduced to its `className`.
- The thrown configuration error is returned as `Result.Failure`.
- `ensureDepth` and `appendLeaf` recurse forever in the source when called outside the conditions `buildTree` guarantees (a node shallower than the target, a tree with a depth gap). The model states those conditions as preconditions, which every caller meets.
- Slugs.SlugIdsWritten: stated only for a slugger that never returns an empty slug. github-slugger returns an empty slug for text that strips to nothing, and such a heading then renders unlinked.
- Plugin.TocLinksToHeadings: same restriction to non-empty slugs.
- The test harness (test/plugin.test.ts), with its unified/remark/rehype pipeline, fixture files and HTML normalisation, and the build configuration (vite.config.ts) are not part of this model.
- The mdast module augmentation and TypeScript casts (src/index.ts:213-224) have no behaviour.

## Findings

| source | as written | input that shows it | evidently intended | confidence | as-written member | corrected member |
|---|---|---|---|---|---|---|
| src/index.ts:32 | after a marker is removed (no heading qualifies), the search resumes at `tocIndex + 1`, skipping the node that moved into the freed slot | a document of two adjacent `[[toc]]` paragraphs with no heading after them: the first is removed and the second stays in the output | resume at `tocIndex` when the marker was removed, so that every marker is replaced or removed | not executed | Plugin.AdjacentMarkerSkipped | Plugin.CorrectedRunLeavesNoMarker |

The plugin as modelled (`Plugin.RemarkGenToc`, `Plugin.RunFrom`) keeps the as-written behaviour. The corrected loop, `Plugin.RunFromCorrected`, is proved to leave no marker behind, and `Plugin.AdjacentMarkersRemovedWhenCorrected` shows both markers removed on the same input.
