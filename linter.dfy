/**
 * The schema linter of `remarkTufte`: a read-only check that turns the open
 * extension syntax (any class on a bracketed span, any directive name) into the
 * closed set of roles the later passes handle. It makes three separate
 * pre-order passes (headings, then bracketed spans, then directives) and the
 * first failure aborts the run, so the pass order decides which error is
 * reported.
 */
module Linter {
  import opened Wrappers
  import opened Tree
  import opened Diagnostics
  import Options

  /** The linter is called without options, so the limit is the default section level plus one. */
  const MaxDepth: int := Options.SectionizeHeading(Options.NoOptions) + 1

  /** `heading.depth`; a missing depth compares false with `>`, like 0 does. */
  function Depth(n: Node): int {
    if "depth" in n.fields && n.fields["depth"].Num? then n.fields["depth"].n else 0
  }

  /** The heading pass: a heading deeper than `MaxDepth` fails with `max-heading-depth`. */
  function CheckHeading(n: Node): (r: Outcome<Failure>)
    ensures r.Fail? <==> n.kind == "heading" && Depth(n) > 3
    ensures r.Fail? ==> r.error == MaxHeadingDepth(n)
  {
    if n.kind == "heading" && Depth(n) > MaxDepth then Fail(MaxHeadingDepth(n)) else Pass
  }

  /** The roles a bracketed span can play, chosen by the first class found in this order. */
  datatype Role = Newthought | Cite | Footer | Margin | Unsupported

  function RoleOf(classes: seq<string>): (role: Role)
    ensures role == Newthought <==> "newthought" in classes
    ensures role == Cite <==> "cite" in classes && "newthought" !in classes
    ensures role == Footer <==> "footer" in classes && "newthought" !in classes && "cite" !in classes
    ensures role == Margin <==> "margin" in classes && "newthought" !in classes && "cite" !in classes && "footer" !in classes
  {
    if "newthought" in classes then Newthought
    else if "cite" in classes then Cite
    else if "footer" in classes then Footer
    else if "margin" in classes then Margin
    else Unsupported
  }

  /** `span.properties?.className || []`; None when the value is truthy but not an array. */
  function LintClassName(props: map<string, Prop>): Option<seq<string>> {
    if "className" !in props || !Truthy(props["className"]) then Some([])
    else if props["className"].Strs? then Some(props["className"].items)
    else None
  }

  /** `is(node, {type: "containerDirective", name: "epigraph"})`. */
  predicate IsEpigraph(n: Node) {
    n.kind == "containerDirective" && StrField(n, "name") == Some("epigraph")
  }

  /** The only properties a margin span may carry. */
  const MarginProperties: set<string> := {"className", "id", "label"}

  /** `typeof span.properties.id === "string"`. */
  predicate HasStringId(props: map<string, Prop>) {
    "id" in props && props["id"].Str?
  }

  /** `span.children.find((node) => node.type === "image")` finds something. */
  predicate HasImageChild(span: Node) {
    exists i :: 0 <= i < |span.children| && span.children[i].kind == "image"
  }

  /** The properties object `{className: [role]}` that newthought, cite and footer spans must equal. */
  function OnlyClass(role: string): map<string, Prop> {
    map["className" := Strs([role])]
  }

  /** The rules a span of each role must satisfy, stated as conditions rather than as checks. */
  predicate SpanAccepted(role: Role, span: Node, ancestors: seq<Node>) {
    match role
    case Newthought => span.props == OnlyClass("newthought")
    case Cite => span.props == OnlyClass("cite") && exists a :: a in ancestors && IsEpigraph(a)
    case Footer => span.props == OnlyClass("footer") && exists a :: a in ancestors && IsEpigraph(a)
    case Margin =>
      && LintClassName(span.props) == Some(["margin"])
      && span.props.Keys <= MarginProperties
      && (HasStringId(span.props) || HasImageChild(span))
    case Unsupported => false
  }

  /** Whether some ancestor is an epigraph directive (`ancestors.find(...)`). */
  function FindEpigraph(ancestors: seq<Node>): (found: bool)
    ensures found <==> exists a :: a in ancestors && IsEpigraph(a)
  {
    if ancestors == [] then false else IsEpigraph(ancestors[0]) || FindEpigraph(ancestors[1..])
  }

  /** The bracketed-span visitor: the checks of one role, in the order the source makes them. */
  function CheckSpan(span: Node, ancestors: seq<Node>): (r: Outcome<Failure>)
    ensures LintClassName(span.props).None? ==> r == Fail(ClassNameNotArray(span))
    ensures r.Pass? <==> LintClassName(span.props).Some? && SpanAccepted(RoleOf(LintClassName(span.props).value), span, ancestors)
    ensures LintClassName(span.props).Some? && RoleOf(LintClassName(span.props).value) == Unsupported ==> r == Fail(UnsupportedSpan(span))
    ensures LintClassName(span.props).Some? && RoleOf(LintClassName(span.props).value) == Margin ==>
      (r == Fail(UnsupportedMarginClass(span)) <==> LintClassName(span.props) != Some(["margin"]))
  {
    match LintClassName(span.props)
    case None => Fail(ClassNameNotArray(span))
    case Some(classes) =>
      match RoleOf(classes)
      case Newthought =>
        if span.props != OnlyClass("newthought") then Fail(UnsupportedSpanProperty("newthought", span)) else Pass
      case Cite =>
        if span.props != OnlyClass("cite") then Fail(UnsupportedSpanProperty("cite", span))
        else if !FindEpigraph(ancestors) then Fail(OutsideEpigraph("cite", span))
        else Pass
      case Footer =>
        if span.props != OnlyClass("footer") then Fail(UnsupportedSpanProperty("footer", span))
        else if !FindEpigraph(ancestors) then Fail(OutsideEpigraph("footer", span))
        else Pass
      case Margin =>
        if classes != ["margin"] then Fail(UnsupportedMarginClass(span))
        else if !(span.props.Keys <= MarginProperties) then Fail(UnsupportedMarginProperty(span))
        else if !HasStringId(span.props) && !HasImageChild(span) then Fail(MissingMarginId(span))
        else Pass
      case Unsupported => Fail(UnsupportedSpan(span))
  }

  /** `visitParents(tree, "bracketedSpan", ...)`: only bracketed spans are checked. */
  function CheckSpanVisit(v: Visit): Outcome<Failure> {
    if v.node.kind == "bracketedSpan" then CheckSpan(v.node, v.ancestors) else Pass
  }

  /** The attributes of a directive; a missing `attributes` object reads as `{}`. */
  const IframeAttributes: set<string> := {"width", "height", "src", "frameborder", "allowfullscreen"}

  /** The directive visitor: only three container directives are accepted. */
  function CheckDirective(n: Node): (r: Outcome<Failure>)
    ensures n.kind !in {"containerDirective", "leafDirective", "textDirective"} ==> r.Pass?
    ensures n.kind in {"leafDirective", "textDirective"} ==> r == Fail(UnsupportedDirective(n))
    ensures n.kind == "containerDirective" ==>
      (r.Pass? <==>
        || (StrField(n, "name") in {Some("epigraph"), Some("fullwidth")} && n.props == map[])
        || (StrField(n, "name") == Some("iframe") && n.props.Keys <= IframeAttributes))
  {
    if n.kind !in {"containerDirective", "leafDirective", "textDirective"} then Pass
    else if n.kind == "containerDirective" && StrField(n, "name") == Some("epigraph") then
      if n.props != map[] then Fail(UnsupportedDirectiveProperty(n)) else Pass
    else if n.kind == "containerDirective" && StrField(n, "name") == Some("fullwidth") then
      if n.props != map[] then Fail(UnsupportedDirectiveProperty(n)) else Pass
    else if n.kind == "containerDirective" && StrField(n, "name") == Some("iframe") then
      if !(n.props.Keys <= IframeAttributes) then Fail(UnsupportedDirectiveProperty(n)) else Pass
    else Fail(UnsupportedDirective(n))
  }

  /** One pass: the first failure met in the visiting order, if any. */
  function FirstFailure<T>(xs: seq<T>, check: T -> Outcome<Failure>): (r: Outcome<Failure>)
    ensures r.Pass? <==> forall i :: 0 <= i < |xs| ==> check(xs[i]).Pass?
    ensures r.Pass? <==> forall x :: x in xs ==> check(x).Pass?
    ensures r.Fail? ==> exists i :: 0 <= i < |xs| && check(xs[i]) == r && forall j :: 0 <= j < i ==> check(xs[j]).Pass?
  {
    if xs == [] then Pass
    else if check(xs[0]).Fail? then check(xs[0])
    else
      var r := FirstFailure(xs[1..], check);
      assert r.Fail? ==> exists i :: 1 <= i < |xs| && check(xs[i]) == r && forall j :: 0 <= j < i ==> check(xs[j]).Pass? by {
        if r.Fail? {
          var k :| 0 <= k < |xs[1..]| && check(xs[1..][k]) == r && forall j :: 0 <= j < k ==> check(xs[1..][j]).Pass?;
          assert check(xs[k + 1]) == r;
        }
      }
      r
  }

  /** The linter: headings, then spans, then directives, each in pre-order. */
  function Lint(tree: Node): Outcome<Failure> {
    match FirstFailure(PreOrder(tree), CheckHeading)
    case Fail(e) => Fail(e)
    case Pass =>
      match FirstFailure(PreOrderVisits(tree, []), CheckSpanVisit)
      case Fail(e) => Fail(e)
      case Pass => FirstFailure(PreOrder(tree), CheckDirective)
  }

  /** The linter accepts a tree exactly when every node obeys every rule. */
  lemma {:induction false} LintAcceptsIff(tree: Node)
    ensures Lint(tree).Pass? <==>
      && (forall n :: n in PreOrder(tree) ==> CheckHeading(n).Pass?)
      && (forall v :: v in PreOrderVisits(tree, []) ==> CheckSpanVisit(v).Pass?)
      && (forall n :: n in PreOrder(tree) ==> CheckDirective(n).Pass?)
  {
  }

  /**
   * Pass order: when some heading is too deep, the error is the first such heading
   * in document order, whatever spans or directives are wrong as well.
   */
  lemma {:induction false} TooDeepHeadingReportedFirst(tree: Node, k: nat)
    requires k < |PreOrder(tree)|
    requires PreOrder(tree)[k].kind == "heading" && Depth(PreOrder(tree)[k]) > 3
    requires forall j :: 0 <= j < k ==> !(PreOrder(tree)[j].kind == "heading" && Depth(PreOrder(tree)[j]) > 3)
    ensures Lint(tree) == Fail(MaxHeadingDepth(PreOrder(tree)[k]))
  {
    var nodes := PreOrder(tree);
    var r := FirstFailure(nodes, CheckHeading);
    assert CheckHeading(nodes[k]).Fail?;
    assert r.Fail?;
    var i :| 0 <= i < |nodes| && CheckHeading(nodes[i]) == r && forall j :: 0 <= j < i ==> CheckHeading(nodes[j]).Pass?;
    assert CheckHeading(nodes[i]).Fail?;
    assert i == k;
  }

  /**
   * A margin span with only permitted properties and no string `id` passes the
   * visitor exactly when it has an image child.
   */
  lemma MarginSpanNeedsIdOrImage(span: Node, ancestors: seq<Node>)
    requires span.kind == "bracketedSpan"
    requires "className" in span.props && span.props["className"] == Strs(["margin"])
    requires span.props.Keys <= MarginProperties
    requires !HasStringId(span.props)
    ensures CheckSpanVisit(Visit(span, ancestors)).Pass? <==> HasImageChild(span)
    ensures !HasImageChild(span) ==> CheckSpanVisit(Visit(span, ancestors)) == Fail(MissingMarginId(span))
  {
    assert LintClassName(span.props) == Some(["margin"]);
    assert RoleOf(["margin"]) == Margin;
  }

  /** A newthought class wins over every other class, so `[x]{.newthought .cite}` is rejected. */
  lemma NewthoughtWinsOverCite(span: Node, ancestors: seq<Node>)
    requires span.props == map["className" := Strs(["newthought", "cite"])]
    ensures CheckSpan(span, ancestors) == Fail(UnsupportedSpanProperty("newthought", span))
  {
    assert LintClassName(span.props) == Some(["newthought", "cite"]);
  }
}
