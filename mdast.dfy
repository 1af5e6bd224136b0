/**
 * The slice of the mdast document model that the table-of-contents plugin
 * reads and writes, plus the two wrapper datatypes the model uses for
 * optional values and for the plugin's one error.
 */
module Mdast {

  datatype Option<+T> = None | Some(value: T) {
    function GetOr(default: T): T {
      match this
      case Some(v) => v
      case None => default
    }
  }

  datatype Result<+R, +E> = Success(value: R) | Failure(error: E)

  /** Heading levels: `#` to `######`. */
  type HeadingDepth = d: int | 1 <= d <= 6 witness 1

  /** Inline (phrasing) content. Only text and links are told apart; the
      rest is carried through unchanged. */
  datatype Phrasing =
    | Text(value: string)
    | Link(url: string, children: seq<Phrasing>)
    | OtherInline(kind: string)

  /** A list item of the generated table of contents: its inline content,
      followed by a nested list when the entry has sub-entries. */
  datatype ListItem = ListItem(content: seq<Phrasing>, nested: Option<MdList>)

  /** A list node; `className` is the `data.hProperties.className` the
      plugin sets on the outermost list only. */
  datatype MdList = MdList(items: seq<ListItem>, className: Option<string>)

  /** A top-level node of the document. `hid` is `data.hProperties.id` of a
      heading, collapsed to an optional string. */
  datatype Node =
    | Heading(depth: HeadingDepth, children: seq<Phrasing>, hid: Option<string>)
    | Paragraph(children: seq<Phrasing>)
    | List(list: MdList)
    | OtherBlock(kind: string)

  /** The document root; the plugin splices its `children` in place. */
  class Root {
    var children: seq<Node>
  }

  /** JavaScript truthiness of an optional string: present and non-empty. */
  predicate Truthy(s: Option<string>) {
    s.Some? && s.value != ""
  }
}
