/**
 * The reasons a run of the Markdown transforms aborts (`file.fail` or a failed
 * `assert`). Each carries the offending node, which holds what the source's
 * message and position report.
 */
module Diagnostics {
  import opened Tree

  datatype Failure =
    /** ruleId `max-heading-depth`: a heading deeper than the section level plus one. */
    | MaxHeadingDepth(heading: Node)
    /** `assert(Array.isArray(className))` on a bracketed span. */
    | ClassNameNotArray(span: Node)
    /** A newthought, cite or footer span with other properties than its one class. */
    | UnsupportedSpanProperty(role: string, span: Node)
    /** A cite or footer span with no epigraph directive among its ancestors. */
    | OutsideEpigraph(role: string, span: Node)
    /** A margin span whose class list is not exactly `["margin"]`. */
    | UnsupportedMarginClass(span: Node)
    /** A margin span with a property other than className, id and label. */
    | UnsupportedMarginProperty(span: Node)
    /** A margin span without a string id and without an image child. */
    | MissingMarginId(span: Node)
    /** A bracketed span of no supported role. */
    | UnsupportedSpan(span: Node)
    /** An epigraph or fullwidth directive with attributes, or an iframe with an unsupported one. */
    | UnsupportedDirectiveProperty(directive: Node)
    /** A leaf or text directive, or a container directive of an unsupported name. */
    | UnsupportedDirective(directive: Node)
    /** A footnote reference whose identifier has no definition. */
    | UnknownFootnote(reference: Node)
    /** A node other than a paragraph or phrasing content inside a footnote definition. */
    | UnexpectedInFootnote(node: Node)
    /** An iframe directive without a `src` attribute. */
    | MissingIframeSrc(directive: Node)
}
