/**
 * The two directive passes of `remarkTufte` that only attach rendering hints:
 * `handleEpigraph` (an epigraph becomes `<div class="epigraph">` and its cite and
 * footer spans become `<cite>` and `<footer>`) and `handleFullwidth` (a fullwidth
 * container becomes `<div class="fullwidth">`). Neither changes the shape of the
 * tree; they write `data.hName` and `data.hProperties`.
 */
module Directives {
  import opened Wrappers
  import opened Tree

  /** `is(node, {type: "containerDirective", name})`. */
  predicate IsContainer(n: Node, name: string) {
    n.kind == "containerDirective" && StrField(n, "name") == Some(name)
  }

  /** The hint of `h("div", {class: className})`: tag `div`, properties `{className: [className]}`. */
  function MarkDiv(n: Node, className: string): (r: Node)
    ensures DataStr(r, "hName") == Some("div") && r.hProps == map["className" := Strs([className])]
    ensures r.kind == n.kind && r.fields == n.fields && r.props == n.props && r.children == n.children
  {
    n.(data := n.data["hName" := Str("div")], hProps := map["className" := Strs([className])])
  }

  /** The tag an epigraph gives a span: `cite` before `footer`, and only for an array className. */
  function SpanTag(span: Node): (r: Option<string>)
    ensures r.Some? <==>
      && "className" in span.props && span.props["className"].Strs?
      && ("cite" in span.props["className"].items || "footer" in span.props["className"].items)
    ensures r == Some("footer") ==> "cite" !in span.props["className"].items
  {
    if "className" in span.props && span.props["className"].Strs? then
      var classes := span.props["className"].items;
      if "cite" in classes then Some("cite")
      else if "footer" in classes then Some("footer")
      else None
    else None
  }

  function MarkSpan(span: Node): Node {
    match SpanTag(span)
    case Some(tag) => WithHName(span, tag)
    case None => span
  }

  /**
   * What the epigraph visitors write at `n`; `inner` tells whether the inner span
   * walk of some epigraph reaches `n`.
   */
  function EpigraphHint(n: Node, inner: bool): Node {
    if IsContainer(n, "epigraph") then MarkDiv(n, "epigraph")
    else if n.kind == "bracketedSpan" && inner then MarkSpan(n)
    else n
  }

  /**
   * Whether an inner span walk reaches the children of `n`: an epigraph starts one,
   * and a bracketed span stops it (the inner visitor returns `SKIP` on every span).
   */
  function InnerBelow(n: Node, inner: bool): bool {
    if IsContainer(n, "epigraph") then true
    else if n.kind == "bracketedSpan" then false
    else inner
  }

  /** The outer walk of `handleEpigraph`, which descends everywhere. */
  function Epigraphs(n: Node, inner: bool): Node
    decreases n, 1
  {
    EpigraphHint(n, inner).(children := EpigraphsAll(n.children, InnerBelow(n, inner)))
  }

  function EpigraphsAll(cs: seq<Node>, inner: bool): (r: seq<Node>)
    decreases cs, 0
    ensures |r| == |cs|
    ensures forall i :: 0 <= i < |cs| ==> r[i] == Epigraphs(cs[i], inner)
  {
    if cs == [] then [] else [Epigraphs(cs[0], inner)] + EpigraphsAll(cs[1..], inner)
  }

  /** `handleEpigraph(tree)`. */
  function HandleEpigraph(tree: Node): Node {
    Epigraphs(tree, false)
  }

  /** The marks the epigraph pass leaves on an epigraph directive. */
  predicate EpigraphMarked(m: Node) {
    DataStr(m, "hName") == Some("div") && m.hProps == map["className" := Strs(["epigraph"])]
  }

  /** The epigraph pass changes rendering hints only: kinds, fields, properties and children are kept. */
  lemma {:induction false} EpigraphsKeepContent(n: Node, inner: bool)
    ensures Strip(Epigraphs(n, inner)) == Strip(n)
    decreases n
  {
    var r := Epigraphs(n, inner);
    forall i | 0 <= i < |n.children|
      ensures Strip(r.children[i]) == Strip(n.children[i])
    {
      EpigraphsKeepContent(n.children[i], InnerBelow(n, inner));
    }
    StripAllPointwise(r.children, n.children);
  }

  /** Every epigraph directive of the result carries the `<div class="epigraph">` hint. */
  lemma {:induction false} EpigraphsMarkAll(n: Node, inner: bool)
    ensures forall m :: m in PreOrder(Epigraphs(n, inner)) && IsContainer(m, "epigraph") ==> EpigraphMarked(m)
    decreases n
  {
    var r := Epigraphs(n, inner);
    forall m | m in PreOrder(r) && IsContainer(m, "epigraph")
      ensures EpigraphMarked(m)
    {
      if m != r {
        InPreOrderAll(r.children, m);
        var i :| 0 <= i < |r.children| && m in PreOrder(r.children[i]);
        EpigraphsMarkAll(n.children[i], InnerBelow(n, inner));
      }
    }
  }

  /** A tree without an epigraph directive comes out of the pass unchanged. */
  lemma {:induction false} NoEpigraphNoChange(n: Node)
    requires forall m :: m in PreOrder(n) ==> !IsContainer(m, "epigraph")
    ensures Epigraphs(n, false) == n
    decreases n
  {
    var r := Epigraphs(n, false);
    forall i | 0 <= i < |n.children|
      ensures r.children[i] == n.children[i]
    {
      forall m | m in PreOrder(n.children[i])
        ensures !IsContainer(m, "epigraph")
      {
        PreOrderChild(n, i, m);
      }
      NoEpigraphNoChange(n.children[i]);
    }
    assert r.children == n.children;
  }

  /** Running the pass twice gives what running it once does. */
  lemma {:induction false} EpigraphsIdempotent(n: Node, inner: bool)
    ensures Epigraphs(Epigraphs(n, inner), inner) == Epigraphs(n, inner)
    decreases n
  {
    var b := InnerBelow(n, inner);
    var r := Epigraphs(n, inner);
    HintStable(n, inner, r.children);
    forall i | 0 <= i < |n.children|
      ensures Epigraphs(r.children[i], b) == r.children[i]
    {
      EpigraphsIdempotent(n.children[i], b);
    }
    assert EpigraphsAll(r.children, b) == r.children;
  }

  /** The hint written at a node, whatever its children, is written again unchanged. */
  lemma HintStable(n: Node, inner: bool, cs: seq<Node>)
    ensures var h := EpigraphHint(n, inner).(children := cs);
      EpigraphHint(h, inner) == h && InnerBelow(h, inner) == InnerBelow(n, inner)
  {
    var h := EpigraphHint(n, inner).(children := cs);
    assert h.props == n.props && h.kind == n.kind && h.fields == n.fields;
    assert SpanTag(h) == SpanTag(n);
  }

  /** A paragraph `[span.cite]` inside an epigraph; the span's own child is a `span.footer`. */
  function CiteSpan(inner: Node): Node {
    Node("bracketedSpan", map[], map["className" := Strs(["cite"])], map[], map[], [inner])
  }

  function FooterSpan(): Node {
    Node("bracketedSpan", map[], map["className" := Strs(["footer"])], map[], map[], [Text("f")])
  }

  /**
   * The inner walk stops at the first span: a cite span directly in an epigraph
   * becomes `<cite>`, a footer span nested inside it is left alone, and the same
   * cite span outside an epigraph is left alone too.
   */
  lemma InnerWalkSkipsNestedSpans()
    ensures
      var r := HandleEpigraph(CiteEpigraph());
      && DataStr(r.children[0].children[0], "hName") == Some("cite")
      && r.children[0].children[0].children[0] == FooterSpan()
      && HandleEpigraph(CiteSpan(FooterSpan())) == CiteSpan(FooterSpan())
  {
    var footer := FooterSpan();
    FooterUntouched();
    var span := CiteSpan(footer);
    CiteSpanTagged(footer);
    var paragraph := CiteParagraph();
    ParagraphInEpigraph();
    var epigraph := CiteEpigraph();
    assert IsContainer(epigraph, "epigraph");
    assert IsContainer(span, "epigraph") == false && span.kind == "bracketedSpan";
    assert EpigraphsAll(epigraph.children, true) == [paragraph.(children := [WithHName(span, "cite")])];
    assert EpigraphsAll(span.children, false) == [footer];
  }

  function CiteParagraph(): Node {
    Node("paragraph", map[], map[], map[], map[], [CiteSpan(FooterSpan())])
  }

  /** An epigraph holding one paragraph with a cite span that holds a footer span. */
  function CiteEpigraph(): Node {
    Node("containerDirective", map["name" := Str("epigraph")], map[], map[], map[], [CiteParagraph()])
  }

  /** Within an epigraph, a paragraph passes the inner walk on to its cite span. */
  lemma ParagraphInEpigraph()
    requires Epigraphs(CiteSpan(FooterSpan()), true) == WithHName(CiteSpan(FooterSpan()), "cite")
    ensures Epigraphs(CiteParagraph(), true) == CiteParagraph().(children := [WithHName(CiteSpan(FooterSpan()), "cite")])
  {
    var p := CiteParagraph();
    assert p.kind == "paragraph";
    assert EpigraphHint(p, true) == p && InnerBelow(p, true);
    assert EpigraphsAll(p.children, true) == [WithHName(CiteSpan(FooterSpan()), "cite")];
  }

  /** Inside an epigraph, the cite span gets its tag and its children are left to the outer walk. */
  lemma CiteSpanTagged(footer: Node)
    requires Epigraphs(footer, false) == footer
    ensures Epigraphs(CiteSpan(footer), true) == WithHName(CiteSpan(footer), "cite")
  {
    var span := CiteSpan(footer);
    assert SpanTag(span) == Some("cite");
    assert EpigraphsAll(span.children, false) == [footer];
  }

  /** Outside an inner walk, the footer span and its text are left alone. */
  lemma FooterUntouched()
    ensures Epigraphs(FooterSpan(), false) == FooterSpan()
  {
    var text := Text("f");
    assert EpigraphsAll(text.children, false) == [];
    assert Epigraphs(text, false) == text;
    assert EpigraphsAll(FooterSpan().children, false) == [text];
  }

  /** The visitor of `handleFullwidth` at one node. */
  function FullwidthHint(n: Node): Node {
    if IsContainer(n, "fullwidth") then MarkDiv(n, "fullwidth") else n
  }

  /** `handleFullwidth(tree)`: every fullwidth container, at any depth, gets the hint. */
  function Fullwidths(n: Node): Node
    decreases n, 1
  {
    FullwidthHint(n).(children := FullwidthsAll(n.children))
  }

  function FullwidthsAll(cs: seq<Node>): (r: seq<Node>)
    decreases cs, 0
    ensures |r| == |cs|
    ensures forall i :: 0 <= i < |cs| ==> r[i] == Fullwidths(cs[i])
  {
    if cs == [] then [] else [Fullwidths(cs[0])] + FullwidthsAll(cs[1..])
  }

  /** The fullwidth pass changes rendering hints only. */
  lemma {:induction false} FullwidthsKeepContent(n: Node)
    ensures Strip(Fullwidths(n)) == Strip(n)
    decreases n
  {
    var r := Fullwidths(n);
    forall i | 0 <= i < |n.children|
      ensures Strip(r.children[i]) == Strip(n.children[i])
    {
      FullwidthsKeepContent(n.children[i]);
    }
    StripAllPointwise(r.children, n.children);
  }

  /** Every fullwidth container of the result carries the `<div class="fullwidth">` hint. */
  lemma {:induction false} FullwidthsMarkAll(n: Node)
    ensures forall m :: m in PreOrder(Fullwidths(n)) && IsContainer(m, "fullwidth") ==>
      DataStr(m, "hName") == Some("div") && m.hProps == map["className" := Strs(["fullwidth"])]
    decreases n
  {
    var r := Fullwidths(n);
    forall m | m in PreOrder(r) && IsContainer(m, "fullwidth")
      ensures DataStr(m, "hName") == Some("div") && m.hProps == map["className" := Strs(["fullwidth"])]
    {
      if m != r {
        InPreOrderAll(r.children, m);
        var i :| 0 <= i < |r.children| && m in PreOrder(r.children[i]);
        FullwidthsMarkAll(n.children[i]);
      }
    }
  }
}
