/**
 * `handleFigures` of `remarkTufte`: three walks sharing one label-collision map.
 * The first turns margin spans holding an image into margin notes, the second
 * turns images of paragraphs (and of the root) into figures with a title note,
 * and the third wraps iframe directives.
 */
module Figures {
  import opened Wrappers
  import opened Tree
  import opened Diagnostics
  import opened Labels
  import Directives

  /** `image.title`, when it is neither undefined nor null. */
  function Title(image: Node): Option<string> {
    if "title" in image.fields && image.fields["title"] != Null then Some(ToJsString(Some(image.fields["title"])))
    else None
  }

  /** `node.url`; a missing url reads as the empty string. */
  function Url(n: Node): string {
    StrFieldOr(n, "url")
  }

  /**
   * The size the margin walk decreases: text nodes weigh nothing, so inserting
   * title text does not make a subtree heavier.
   */
  function Weight(n: Node): nat
    decreases n, 1
  {
    if n.kind == "text" then 0 else 1 + WeightAll(n.children)
  }

  function WeightAll(cs: seq<Node>): nat
    decreases cs, 0
  {
    if cs == [] then 0 else WeightAll(cs[..|cs| - 1]) + Weight(cs[|cs| - 1])
  }

  lemma {:induction false} WeightAllAppend(xs: seq<Node>, ys: seq<Node>)
    ensures WeightAll(xs + ys) == WeightAll(xs) + WeightAll(ys)
    decreases |ys|
  {
    if ys != [] {
      var zs := xs + ys;
      assert zs[..|zs| - 1] == xs + ys[..|ys| - 1];
      assert zs[|zs| - 1] == ys[|ys| - 1];
      WeightAllAppend(xs, ys[..|ys| - 1]);
      assert WeightAll(zs) == WeightAll(xs + ys[..|ys| - 1]) + Weight(ys[|ys| - 1]);
    } else {
      assert xs + ys == xs;
    }
  }

  lemma {:induction false} WeightOfElement(cs: seq<Node>, i: nat)
    requires i < |cs|
    ensures Weight(cs[i]) <= WeightAll(cs)
    decreases |cs|
  {
    if i < |cs| - 1 {
      WeightOfElement(cs[..|cs| - 1], i);
    }
  }

  /** The title text the inner walk inserts after an image. */
  function TitleText(n: Node): seq<Node> {
    if n.kind == "image" && Title(n).Some? then [Text(Title(n).value)] else []
  }

  /**
   * `visit(span, "image", ...)` of the margin walk: every titled image, at any
   * depth, is followed by a text node holding its title.
   */
  function TitleSplice(n: Node): Node
    decreases n, 1
  {
    n.(children := TitleSpliceAll(n.children))
  }

  function TitleSpliceAll(cs: seq<Node>): seq<Node>
    decreases cs, 0
  {
    if cs == [] then [] else TitleSpliceAll(cs[..|cs| - 1]) + [TitleSplice(cs[|cs| - 1])] + TitleText(cs[|cs| - 1])
  }

  lemma {:induction false} TitleSpliceWeight(n: Node)
    ensures Weight(TitleSplice(n)) == Weight(n)
    decreases n, 1
  {
    if n.kind != "text" {
      TitleSpliceAllWeight(n.children);
    }
  }

  /** Inserting titles keeps the weight the margin walk decreases. */
  lemma {:induction false} TitleSpliceAllWeight(cs: seq<Node>)
    ensures WeightAll(TitleSpliceAll(cs)) == WeightAll(cs)
    decreases cs, 0
  {
    if cs != [] {
      var front, last := cs[..|cs| - 1], cs[|cs| - 1];
      TitleSpliceAllWeight(front);
      TitleSpliceWeight(last);
      WeightAllAppend(TitleSpliceAll(front) + [TitleSplice(last)], TitleText(last));
      WeightAllAppend(TitleSpliceAll(front), [TitleSplice(last)]);
      assert [TitleSplice(last)][..0] == [];
      if TitleText(last) != [] {
        assert TitleText(last)[..0] == [];
      }
    }
  }

  /** `span.properties?.className ?? []`, which must be an array. */
  function SpanClasses(span: Node): (r: Result<seq<string>, Failure>)
    ensures r.Err? <==> "className" in span.props && span.props["className"] != Null && !span.props["className"].Strs?
  {
    if "className" !in span.props || span.props["className"] == Null then Ok([])
    else if span.props["className"].Strs? then Ok(span.props["className"].items)
    else Err(ClassNameNotArray(span))
  }

  /** `span.children.find((node) => node.type === "image")` finds something. */
  predicate HasImageChild(span: Node) {
    exists i :: 0 <= i < |span.children| && span.children[i].kind == "image"
  }

  /** The urls of the images and links among `ns`, in order. */
  function Urls(ns: seq<Node>): seq<string> {
    if ns == [] then []
    else if ns[|ns| - 1].kind in {"image", "link"} then Urls(ns[..|ns| - 1]) + [Url(ns[|ns| - 1])]
    else Urls(ns[..|ns| - 1])
  }

  /**
   * The url `figureLabel(span)` reads: the visitor overwrites it at every image
   * or link, so the last one in pre-order wins. A margin figure has an image
   * child, so the empty case does not arise there.
   */
  function FigureUrl(span: Node): string {
    var urls := Urls(PreOrder(span));
    if urls == [] then "" else urls[|urls| - 1]
  }

  /** A node after a walk, and the label counts after it. */
  datatype Walked = Walked(node: Node, counts: map<string, nat>)

  datatype WalkedAll = WalkedAll(nodes: seq<Node>, counts: map<string, nat>)

  /**
   * The margin-figure walk at `n`. A margin span with an image child becomes a
   * margin note labelled from its last url; its children get their title text and
   * the walk goes on into them (they are the same array as the note's).
   */
  function MarginFigures(n: Node, counts: map<string, nat>): Result<Walked, Failure>
    decreases Weight(n), 1, 0
  {
    if n.kind == "text" then Ok(Walked(n, counts))
    else if n.kind == "bracketedSpan" then
      var classes :- SpanClasses(n);
      if "margin" in classes && HasImageChild(n) then
        var step := ResolveLabel(counts, BaseName(FigureUrl(n)));
        TitleSpliceAllWeight(n.children);
        var kids :- MarginFiguresAll(TitleSpliceAll(n.children), step.counts);
        Ok(Walked(Note("marginnote", step.given, None, kids.nodes), kids.counts))
      else
        var kids :- MarginFiguresAll(n.children, counts);
        Ok(Walked(n.(children := kids.nodes), kids.counts))
    else
      var kids :- MarginFiguresAll(n.children, counts);
      Ok(Walked(n.(children := kids.nodes), kids.counts))
  }

  /** The margin walk over siblings, left to right; the first failure aborts. */
  function MarginFiguresAll(cs: seq<Node>, counts: map<string, nat>): (r: Result<WalkedAll, Failure>)
    decreases WeightAll(cs), 2, |cs|
    ensures r.Ok? ==> |r.value.nodes| == |cs|
  {
    if cs == [] then Ok(WalkedAll([], counts))
    else
      var front :- MarginFiguresAll(cs[..|cs| - 1], counts);
      var last :- MarginFigures(cs[|cs| - 1], front.counts);
      Ok(WalkedAll(front.nodes + [last.node], last.counts))
  }

  /** Once a prefix of the siblings fails, the whole sibling walk fails the same way. */
  lemma {:induction false} MarginFiguresAllFailurePersists(cs: seq<Node>, counts: map<string, nat>, j: nat)
    requires j <= |cs| && MarginFiguresAll(cs[..j], counts).Err?
    ensures MarginFiguresAll(cs, counts) == MarginFiguresAll(cs[..j], counts)
    decreases |cs| - j
  {
    if j < |cs| {
      assert cs[..j + 1][..j] == cs[..j];
      MarginFiguresAllFailurePersists(cs, counts, j + 1);
    } else {
      assert cs[..j] == cs;
    }
  }

  /** The margin walk, updating the label map in place. */
  method MarginFiguresWalk(n: Node, labels: LabelCollisionMap) returns (r: Result<Node, Failure>)
    modifies labels
    decreases Weight(n), 1, 0
    ensures MarginFigures(n, old(labels.counts)).Err? ==> r == Err(MarginFigures(n, old(labels.counts)).error)
    ensures MarginFigures(n, old(labels.counts)).Ok? ==>
      r == Ok(MarginFigures(n, old(labels.counts)).value.node) && labels.counts == MarginFigures(n, old(labels.counts)).value.counts
  {
    if n.kind == "text" {
      return Ok(n);
    }
    var children := n.children;
    var isFigure := false;
    if n.kind == "bracketedSpan" {
      var classes := SpanClasses(n);
      if classes.Err? {
        return Err(classes.error);
      }
      isFigure := "margin" in classes.value && HasImageChild(n);
    }
    var identifier := "";
    if isFigure {
      identifier := labels.Resolve(BaseName(FigureUrl(n)));
      TitleSpliceAllWeight(n.children);
      children := TitleSpliceAll(n.children);
    }
    var kids := MarginFiguresWalkAll(children, labels);
    if kids.Err? {
      return Err(kids.error);
    }
    if isFigure {
      r := Ok(Note("marginnote", identifier, None, kids.value));
    } else {
      r := Ok(n.(children := kids.value));
    }
  }

  /** The margin walk over siblings: the loop of the traversal, resuming after each visited node. */
  method MarginFiguresWalkAll(cs: seq<Node>, labels: LabelCollisionMap) returns (r: Result<seq<Node>, Failure>)
    modifies labels
    decreases WeightAll(cs), 2, |cs|
    ensures MarginFiguresAll(cs, old(labels.counts)).Err? ==> r == Err(MarginFiguresAll(cs, old(labels.counts)).error)
    ensures MarginFiguresAll(cs, old(labels.counts)).Ok? ==>
      r == Ok(MarginFiguresAll(cs, old(labels.counts)).value.nodes) && labels.counts == MarginFiguresAll(cs, old(labels.counts)).value.counts
  {
    var out: seq<Node> := [];
    var i := 0;
    while i < |cs|
      invariant 0 <= i <= |cs|
      invariant MarginFiguresAll(cs[..i], old(labels.counts)) == Ok(WalkedAll(out, labels.counts))
    {
      assert cs[..i + 1][..i] == cs[..i];
      WeightOfElement(cs, i);
      var x := MarginFiguresWalk(cs[i], labels);
      if x.Err? {
        MarginFiguresAllFailurePersists(cs, old(labels.counts), i + 1);
        return Err(x.error);
      }
      out := out + [x.value];
      i := i + 1;
    }
    assert cs[..i] == cs;
    r := Ok(out);
  }

  /** The paragraph `{type: "paragraph", data: {hName: "figure"}, children}` that replaces an image. */
  function FigureParagraph(children: seq<Node>): Node {
    Node("paragraph", map[], map[], map["hName" := Str("figure")], map[], children)
  }

  /** The title note of an image, requesting a label only when the image has a title. */
  function TitleNote(image: Node, counts: map<string, nat>): (r: WalkedAll)
    ensures |r.nodes| <= 1
  {
    match Title(image)
    case None => WalkedAll([], counts)
    case Some(title) =>
      var step := ResolveLabel(counts, BaseName(Url(image)));
      WalkedAll([Note("marginnote", step.given, None, [Text(title)])], step.counts)
  }

  /** The parent kinds whose images become figures. */
  predicate FigureParent(n: Node) {
    n.kind in {"paragraph", "root"}
  }

  /** A paragraph whose only child is an image: it becomes the figure itself. */
  predicate SoleImageParagraph(n: Node) {
    n.kind == "paragraph" && |n.children| == 1 && n.children[0].kind == "image"
  }

  /**
   * The main-figure walk at a node it reaches. A margin note is skipped whole;
   * images are handled by their parent's sibling walk, since the visitor rewrites
   * the parent.
   */
  function MainFigures(n: Node, counts: map<string, nat>): Walked
    decreases n, 1
  {
    if n.kind == "marginnote" then Walked(n, counts)
    else if SoleImageParagraph(n) then
      var note := TitleNote(n.children[0], counts);
      Walked(WithHName(n, "figure").(children := [n.children[0]] + note.nodes), note.counts)
    else
      var kids := MainFiguresAll(n.children, FigureParent(n), counts);
      Walked(n.(children := kids.nodes), kids.counts)
  }

  /**
   * The main walk over siblings. Under a paragraph or the root an image is replaced
   * by a figure paragraph `[image, note?]` and the walk resumes after it; elsewhere
   * an image is skipped.
   */
  function MainFiguresAll(cs: seq<Node>, figureParent: bool, counts: map<string, nat>): (r: WalkedAll)
    decreases cs, 0
    ensures |r.nodes| == |cs|
  {
    if cs == [] then WalkedAll([], counts)
    else
      var front := MainFiguresAll(cs[..|cs| - 1], figureParent, counts);
      var last := cs[|cs| - 1];
      if last.kind == "image" then
        if figureParent then
          var note := TitleNote(last, front.counts);
          WalkedAll(front.nodes + [FigureParagraph([last] + note.nodes)], note.counts)
        else WalkedAll(front.nodes + [last], front.counts)
      else
        var w := MainFigures(last, front.counts);
        WalkedAll(front.nodes + [w.node], w.counts)
  }

  /** The title note of an image, asking the label map in place. */
  method FigureTitle(image: Node, labels: LabelCollisionMap) returns (note: seq<Node>)
    modifies labels
    ensures note == TitleNote(image, old(labels.counts)).nodes && labels.counts == TitleNote(image, old(labels.counts)).counts
  {
    note := [];
    var title := Title(image);
    if title.Some? {
      var identifier := labels.Resolve(BaseName(Url(image)));
      note := [Note("marginnote", identifier, None, [Text(title.value)])];
    }
  }

  method MainFiguresWalk(n: Node, labels: LabelCollisionMap) returns (r: Node)
    modifies labels
    decreases n, 1
    ensures Walked(r, labels.counts) == MainFigures(n, old(labels.counts))
  {
    if n.kind == "marginnote" {
      return n;
    }
    if SoleImageParagraph(n) {
      var note := FigureTitle(n.children[0], labels);
      return WithHName(n, "figure").(children := [n.children[0]] + note);
    }
    var kids := MainFiguresWalkAll(n.children, FigureParent(n), labels);
    r := n.(children := kids);
  }

  method MainFiguresWalkAll(cs: seq<Node>, figureParent: bool, labels: LabelCollisionMap) returns (r: seq<Node>)
    modifies labels
    decreases cs, 0
    ensures WalkedAll(r, labels.counts) == MainFiguresAll(cs, figureParent, old(labels.counts))
  {
    r := [];
    var i := 0;
    while i < |cs|
      invariant 0 <= i <= |cs|
      invariant MainFiguresAll(cs[..i], figureParent, old(labels.counts)) == WalkedAll(r, labels.counts)
    {
      assert cs[..i + 1][..i] == cs[..i];
      var node := cs[i];
      if node.kind == "image" {
        if figureParent {
          var note := FigureTitle(node, labels);
          r := r + [FigureParagraph([node] + note)];
        } else {
          r := r + [node];
        }
      } else {
        var w := MainFiguresWalk(node, labels);
        r := r + [w];
      }
      i := i + 1;
    }
    assert cs[..i] == cs;
  }

  /** Whether an attribute is neither undefined nor null. */
  predicate Present(attrs: map<string, Prop>, key: string) {
    key in attrs && attrs[key] != Null
  }

  /** Whether hastscript reads a string value of a numeric property as a number: a non-empty run of decimal digits. */
  predicate Numeric(p: Prop) {
    p.Str? && p.s != "" && AllDigits(p.s)
  }

  /** hastscript's value of a numeric property (`width`, `height`): a numeric string becomes its number. */
  function NumberAttribute(p: Prop): (r: Prop)
    ensures Numeric(p) ==> r.Num? && r.n >= 0
    ensures !Numeric(p) ==> r == p
  {
    if Numeric(p) then Num(DigitsValue(p.s)) else p
  }

  /** A number written in decimal is read back as that number; other strings are kept as they are. */
  lemma NumberAttributeReadsDecimal(n: nat, s: string)
    requires !(s != "" && AllDigits(s))
    ensures NumberAttribute(Str(NatToString(n))) == Num(n)
    ensures NumberAttribute(Str(s)) == Str(s)
  {
    DigitsValueOfNatToString(n);
  }

  /**
   * The properties of `h("iframe", {...})`: width, height and src when given (the
   * element constructor drops undefined and null values), with a numeric width or
   * height read as a number; `frameBorder` defaulting to "0"; and `allowFullScreen`
   * as the truthiness of the attribute. The keys are the property names hastscript
   * stores for the `frameborder` and `allowfullscreen` attributes.
   */
  function IframeProperties(attrs: map<string, Prop>): (r: map<string, Prop>)
    ensures r.Keys == {"frameBorder", "allowFullScreen"} + (set key | key in {"width", "height", "src"} && Present(attrs, key))
    ensures r["frameBorder"] == if Present(attrs, "frameborder") then attrs["frameborder"] else Str("0")
    ensures r["allowFullScreen"] == Bool("allowfullscreen" in attrs && Truthy(attrs["allowfullscreen"]))
    ensures forall key :: key in {"width", "height"} && Present(attrs, key) ==> r[key] == NumberAttribute(attrs[key])
    ensures Present(attrs, "src") ==> r["src"] == attrs["src"]
  {
    var props := map[
      "frameBorder" := if Present(attrs, "frameborder") then attrs["frameborder"] else Str("0"),
      "allowFullScreen" := Bool("allowfullscreen" in attrs && Truthy(attrs["allowfullscreen"]))];
    var props := if Present(attrs, "width") then props["width" := NumberAttribute(attrs["width"])] else props;
    var props := if Present(attrs, "height") then props["height" := NumberAttribute(attrs["height"])] else props;
    if Present(attrs, "src") then props["src" := attrs["src"]] else props
  }

  /** An iframe written `width="560"` gets the number 560 as its width. */
  lemma IframeWidthIsNumber(attrs: map<string, Prop>, n: nat)
    requires "width" in attrs && attrs["width"] == Str(NatToString(n))
    ensures IframeProperties(attrs)["width"] == Num(n)
  {
    NumberAttributeReadsDecimal(n, "");
  }

  /** The `leafDirective` pushed into an iframe directive, rendered as the `<iframe>` itself. */
  function IframeLeaf(attrs: map<string, Prop>): Node {
    Node("leafDirective", map["name" := Str("iframe")], map[], map["hName" := Str("iframe")], IframeProperties(attrs), [])
  }

  /**
   * The iframe walk: an iframe directive must have a `src`; it becomes
   * `<figure class="iframe-wrapper">` with the iframe appended to its children.
   */
  function Iframes(n: Node): Result<Node, Failure>
    decreases n, 1
  {
    if Directives.IsContainer(n, "iframe") then
      if !Present(n.props, "src") then Err(MissingIframeSrc(n))
      else
        var kids :- IframesAll(n.children);
        Ok(n.(data := n.data["hName" := Str("figure")], hProps := map["className" := Strs(["iframe-wrapper"])],
              children := kids + [IframeLeaf(n.props)]))
    else
      var kids :- IframesAll(n.children);
      Ok(n.(children := kids))
  }

  function IframesAll(cs: seq<Node>): (r: Result<seq<Node>, Failure>)
    decreases cs, 0
    ensures r.Ok? <==> forall i :: 0 <= i < |cs| ==> Iframes(cs[i]).Ok?
  {
    if cs == [] then Ok([])
    else
      var first :- Iframes(cs[0]);
      var rest :- IframesAll(cs[1..]);
      assert forall i :: 1 <= i < |cs| ==> cs[i] == cs[1..][i - 1];
      Ok([first] + rest)
  }

  /** The iframe walk fails exactly when some iframe directive of the tree has no `src`. */
  lemma {:induction false} IframesFailIffMissingSrc(n: Node)
    ensures Iframes(n).Ok? <==> forall m :: m in PreOrder(n) && Directives.IsContainer(m, "iframe") ==> Present(m.props, "src")
    decreases n
  {
    forall i | 0 <= i < |n.children| {
      IframesFailIffMissingSrc(n.children[i]);
    }
    if Iframes(n).Ok? {
      forall m | m in PreOrder(n) && Directives.IsContainer(m, "iframe")
        ensures Present(m.props, "src")
      {
        if m != n {
          InPreOrderAll(n.children, m);
        }
      }
    } else if !Directives.IsContainer(n, "iframe") || Present(n.props, "src") {
      var i :| 0 <= i < |n.children| && Iframes(n.children[i]).Err?;
      var m :| m in PreOrder(n.children[i]) && Directives.IsContainer(m, "iframe") && !Present(m.props, "src");
      PreOrderChild(n, i, m);
    }
  }

  /** The three walks of `handleFigures`, with the label counts they leave. */
  function FiguresRun(tree: Node): Result<Walked, Failure> {
    var margin :- MarginFigures(tree, map[]);
    var main := MainFigures(margin.node, margin.counts);
    var done :- Iframes(main.node);
    Ok(Walked(done, main.counts))
  }

  /** `handleFigures(tree)`: one label map for the margin walk and then the main walk. */
  method HandleFigures(tree: Node) returns (r: Result<Node, Failure>)
    ensures FiguresRun(tree).Err? ==> r == Err(FiguresRun(tree).error)
    ensures FiguresRun(tree).Ok? ==> r == Ok(FiguresRun(tree).value.node)
  {
    var labels := new LabelCollisionMap();
    var margin := MarginFiguresWalk(tree, labels);
    if margin.Err? {
      return Err(margin.error);
    }
    var main := MainFiguresWalk(margin.value, labels);
    r := Iframes(main);
  }

  /** The base labels the main walk requests, in the order it meets titled figure images. */
  function MainRequests(n: Node): seq<string>
    decreases n, 1
  {
    if n.kind == "marginnote" then []
    else if SoleImageParagraph(n) then ImageRequest(n.children[0])
    else MainRequestsAll(n.children, FigureParent(n))
  }

  function ImageRequest(image: Node): seq<string> {
    if Title(image).Some? then [BaseName(Url(image))] else []
  }

  function MainRequestsAll(cs: seq<Node>, figureParent: bool): seq<string>
    decreases cs, 0
  {
    if cs == [] then []
    else
      var last := cs[|cs| - 1];
      MainRequestsAll(cs[..|cs| - 1], figureParent)
        + (if last.kind == "image" then (if figureParent then ImageRequest(last) else []) else MainRequests(last))
  }

  /** The main walk asks the label map exactly for its titled figure images, in document order. */
  lemma {:induction false} MainFiguresRequests(n: Node, counts: map<string, nat>)
    ensures MainFigures(n, counts).counts == ResolveAll(counts, MainRequests(n)).counts
    decreases n, 1
  {
    if n.kind != "marginnote" && !SoleImageParagraph(n) {
      MainFiguresAllRequests(n.children, FigureParent(n), counts);
    } else if SoleImageParagraph(n) {
      TitleNoteRequest(n.children[0], counts);
    }
  }

  lemma TitleNoteRequest(image: Node, counts: map<string, nat>)
    ensures TitleNote(image, counts).counts == ResolveAll(counts, ImageRequest(image)).counts
  {
    if Title(image).Some? {
      assert [BaseName(Url(image))][..0] == [];
    }
  }

  lemma {:induction false} MainFiguresAllRequests(cs: seq<Node>, figureParent: bool, counts: map<string, nat>)
    ensures MainFiguresAll(cs, figureParent, counts).counts == ResolveAll(counts, MainRequestsAll(cs, figureParent)).counts
    decreases cs, 0
  {
    if cs != [] {
      var front, last := cs[..|cs| - 1], cs[|cs| - 1];
      MainFiguresAllRequests(front, figureParent, counts);
      var mid := MainFiguresAll(front, figureParent, counts).counts;
      var tail := if last.kind == "image" then (if figureParent then ImageRequest(last) else []) else MainRequests(last);
      ResolveAllAppend(counts, MainRequestsAll(front, figureParent), tail);
      if last.kind == "image" {
        if figureParent {
          TitleNoteRequest(last, mid);
        }
      } else {
        MainFiguresRequests(last, mid);
      }
    }
  }

  /** Whether the margin walk turns `n` into a margin figure. */
  predicate IsMarginFigure(n: Node) {
    n.kind == "bracketedSpan" && SpanClasses(n).Ok? && "margin" in SpanClasses(n).value && HasImageChild(n)
  }

  /** The base labels the margin walk requests, one per margin figure, in the order it meets them. */
  function MarginRequests(n: Node): seq<string>
    decreases Weight(n), 1, 0
  {
    if n.kind == "text" then []
    else if IsMarginFigure(n) then
      TitleSpliceAllWeight(n.children);
      [BaseName(FigureUrl(n))] + MarginRequestsAll(TitleSpliceAll(n.children))
    else MarginRequestsAll(n.children)
  }

  function MarginRequestsAll(cs: seq<Node>): seq<string>
    decreases WeightAll(cs), 2, |cs|
  {
    if cs == [] then [] else MarginRequestsAll(cs[..|cs| - 1]) + MarginRequests(cs[|cs| - 1])
  }

  /** A successful margin walk asks the label map exactly for its margin figures. */
  lemma {:induction false} MarginFiguresRequests(n: Node, counts: map<string, nat>)
    requires MarginFigures(n, counts).Ok?
    ensures MarginFigures(n, counts).value.counts == ResolveAll(counts, MarginRequests(n)).counts
    decreases Weight(n), 1, 0
  {
    if n.kind != "text" {
      if IsMarginFigure(n) {
        var base := BaseName(FigureUrl(n));
        var step := ResolveLabel(counts, base);
        TitleSpliceAllWeight(n.children);
        MarginFiguresAllRequests(TitleSpliceAll(n.children), step.counts);
        ResolveAllAppend(counts, [base], MarginRequestsAll(TitleSpliceAll(n.children)));
        assert [base][..0] == [];
      } else {
        MarginFiguresAllRequests(n.children, counts);
      }
    }
  }

  lemma {:induction false} MarginFiguresAllRequests(cs: seq<Node>, counts: map<string, nat>)
    requires MarginFiguresAll(cs, counts).Ok?
    ensures MarginFiguresAll(cs, counts).value.counts == ResolveAll(counts, MarginRequestsAll(cs)).counts
    decreases WeightAll(cs), 2, |cs|
  {
    if cs != [] {
      var front, last := cs[..|cs| - 1], cs[|cs| - 1];
      MarginFiguresAllRequests(front, counts);
      var mid := MarginFiguresAll(front, counts).value.counts;
      WeightOfElement(cs, |cs| - 1);
      MarginFiguresRequests(last, mid);
      ResolveAllAppend(counts, MarginRequestsAll(front), MarginRequests(last));
    }
  }

  /**
   * Every margin figure is labelled before any main-text figure: the label map
   * after `handleFigures` is the one left by the margin requests followed by the
   * main requests.
   */
  lemma MarginLabelsBeforeMainLabels(tree: Node)
    requires FiguresRun(tree).Ok?
    ensures var margin := MarginFigures(tree, map[]).value;
      FiguresRun(tree).value.counts == ResolveAll(map[], MarginRequests(tree) + MainRequests(margin.node)).counts
  {
    var margin := MarginFigures(tree, map[]).value;
    MarginFiguresRequests(tree, map[]);
    MainFiguresRequests(margin.node, margin.counts);
    ResolveAllAppend(map[], MarginRequests(tree), MainRequests(margin.node));
  }

  /** A margin span holding an image and a link is labelled after the link, the last url in it. */
  lemma MarginFigureTakesLastUrl()
    ensures
      var image := Node("image", map["url" := Str("/img/plot.png")], map[], map[], map[], []);
      var link := Node("link", map["url" := Str("/doc/notes.html")], map[], map[], map[], [Text("notes")]);
      var span := Node("bracketedSpan", map[], map["className" := Strs(["margin"])], map[], map[], [image, link]);
      FigureUrl(span) == "/doc/notes.html"
  {
    var image := Node("image", map["url" := Str("/img/plot.png")], map[], map[], map[], []);
    var link := Node("link", map["url" := Str("/doc/notes.html")], map[], map[], map[], [Text("notes")]);
    var span := Node("bracketedSpan", map[], map["className" := Strs(["margin"])], map[], map[], [image, link]);
    assert PreOrder(span) == [span, image, link, Text("notes")] by {
      assert PreOrder(image) == [image];
      assert PreOrder(Text("notes")) == [Text("notes")];
      assert PreOrder(link) == [link, Text("notes")];
      assert [link][1..] == [];
      assert [image, link][1..] == [link];
    }
    var ns := [span, image, link, Text("notes")];
    assert ns[..3] == [span, image, link] && ns[..3][..2] == [span, image] && ns[..3][..2][..1] == [span];
    assert [span][..0] == [];
    assert Urls([span]) == [];
    assert Urls([span, image]) == ["/img/plot.png"];
    assert Urls([span, image, link]) == ["/img/plot.png", "/doc/notes.html"];
    assert Urls(ns) == Urls(ns[..3]);
  }
}
