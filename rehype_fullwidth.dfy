/**
 * `rehypeTufte`: every `div` whose class list holds `fullwidth` is unwrapped into
 * its parent, after each `figure` and `pre` inside it has gained the `fullwidth`
 * class. The walk is unist's pre-order visit: after the visitor has spliced the
 * div's children into the parent, the walk resumes at the next index.
 */
module RehypeFullwidth {
  import opened Wrappers
  import opened Tree

  /** `div.properties?.className ?? []`; None when the value is not an array. */
  function DivClasses(props: map<string, Prop>): Option<seq<string>> {
    if "className" !in props || props["className"].Null? then Some([])
    else if props["className"].Strs? then Some(props["className"].items)
    else None
  }

  /** The elements the visitor acts on. */
  predicate IsFullwidthDiv(n: Node) {
    IsElement(n, "div") && DivClasses(n.props).Some? && "fullwidth" in DivClasses(n.props).value
  }

  /** The elements widened inside a full-width div. */
  predicate Widened(n: Node) {
    IsElement(n, "figure") || IsElement(n, "pre")
  }

  /**
   * `(className || (className = [])).push("fullwidth")`: a falsy or missing class
   * list becomes `["fullwidth"]`, an array gains `"fullwidth"` at its end (even when
   * it holds it already), and any other truthy value is left alone.
   */
  function Widen(props: map<string, Prop>): (r: map<string, Prop>)
    ensures r.Keys == props.Keys + {"className"}
    ensures forall k :: k in props && k != "className" ==> r[k] == props[k]
    ensures "className" !in props || !Truthy(props["className"]) ==> r["className"] == Strs(["fullwidth"])
    ensures "className" in props && props["className"].Strs? ==> r["className"] == Strs(props["className"].items + ["fullwidth"])
    ensures "className" in props && Truthy(props["className"]) && !props["className"].Strs? ==> r == props
  {
    if "className" !in props || !Truthy(props["className"]) then props["className" := Strs(["fullwidth"])]
    else if props["className"].Strs? then props["className" := Strs(props["className"].items + ["fullwidth"])]
    else props
  }

  /** After `Widen`, the class list is truthy and, when it is an array, holds `fullwidth`. */
  predicate IsWide(props: map<string, Prop>) {
    "className" in props && Truthy(props["className"])
    && (props["className"].Strs? ==> "fullwidth" in props["className"].items)
  }

  /**
   * The two nested visits of a full-width div (one for `figure`, one for `pre`):
   * every widened element of the subtree, the root included, gets `Widen`.
   * As no node is both a figure and a pre, one walk does both.
   */
  function Mark(n: Node): (r: Node)
    decreases n, 1
    ensures r.kind == n.kind && r.fields == n.fields && |r.children| == |n.children|
    ensures IsFullwidthDiv(r) == IsFullwidthDiv(n) && Widened(r) == Widened(n)
  {
    (if Widened(n) then n.(props := Widen(n.props)) else n).(children := MarkAll(n.children))
  }

  function MarkAll(cs: seq<Node>): (r: seq<Node>)
    decreases cs, 0
    ensures |r| == |cs| && forall i :: 0 <= i < |cs| ==> r[i] == Mark(cs[i])
  {
    if cs == [] then [] else [Mark(cs[0])] + MarkAll(cs[1..])
  }

  /** Every figure and pre of a marked subtree is wide. */
  lemma {:induction false} MarkWidens(n: Node)
    ensures forall m :: m in PreOrder(Mark(n)) && Widened(m) ==> IsWide(m.props)
    decreases n, 1
  {
    forall m | m in PreOrder(Mark(n)) && Widened(m)
      ensures IsWide(m.props)
    {
      if m != Mark(n) {
        InPreOrderAll(MarkAll(n.children), m);
        var i :| 0 <= i < |n.children| && m in PreOrder(MarkAll(n.children)[i]);
        MarkWidens(n.children[i]);
      }
    }
  }

  /** The size of a tree, which the walk decreases. */
  function Size(n: Node): (s: nat)
    decreases n, 1
    ensures s >= 1
  {
    1 + SizeAll(n.children)
  }

  function SizeAll(cs: seq<Node>): nat
    decreases cs, 0
  {
    if cs == [] then 0 else Size(cs[0]) + SizeAll(cs[1..])
  }

  lemma SizeAllAppend(xs: seq<Node>, ys: seq<Node>)
    ensures SizeAll(xs + ys) == SizeAll(xs) + SizeAll(ys)
  {
    if xs != [] {
      assert (xs + ys)[0] == xs[0];
      assert (xs + ys)[1..] == xs[1..] + ys;
      SizeAllAppend(xs[1..], ys);
    } else {
      assert xs + ys == ys;
    }
  }

  lemma SizeCons(x: Node, rest: seq<Node>)
    ensures SizeAll([x] + rest) == Size(x) + SizeAll(rest)
  {
    assert ([x] + rest)[0] == x && ([x] + rest)[1..] == rest;
  }

  /** Marking keeps the shape, hence the size. */
  lemma {:induction false} MarkSize(n: Node)
    ensures Size(Mark(n)) == Size(n)
    decreases n, 1
  {
    MarkAllSize(n.children);
  }

  lemma {:induction false} MarkAllSize(cs: seq<Node>)
    ensures SizeAll(MarkAll(cs)) == SizeAll(cs)
    decreases cs, 0
  {
    if cs != [] {
      MarkSize(cs[0]);
      MarkAllSize(cs[1..]);
      assert MarkAll(cs)[1..] == MarkAll(cs[1..]);
    }
  }

  /** The siblings after an unwrapped div: its marked children, then the div's own next siblings. */
  function Unwrapped(div: Node, rest: seq<Node>): (l: seq<Node>)
    ensures SizeAll(l) < SizeAll([div] + rest)
  {
    MarkAllSize(div.children);
    SizeAllAppend(MarkAll(div.children), rest);
    SizeCons(div, rest);
    MarkAll(div.children) + rest
  }

  /**
   * The walk over one node's children. With `asWritten`, the walk resumes at the
   * index after the one the div occupied, so the first spliced node (or, for an
   * empty div, the div's next sibling) is passed over; otherwise it resumes at the
   * div's own index, so every spliced node is visited.
   */
  function Unwrap(n: Node, asWritten: bool): Node
    decreases Size(n), 1, 0
  {
    n.(children := UnwrapAll(n.children, asWritten))
  }

  function UnwrapAll(cs: seq<Node>, asWritten: bool): seq<Node>
    decreases SizeAll(cs), 2, 0
  {
    if cs == [] then []
    else
      SizeCons(cs[0], cs[1..]);
      assert [cs[0]] + cs[1..] == cs;
      if IsFullwidthDiv(cs[0]) then
        var l := Unwrapped(cs[0], cs[1..]);
        if !asWritten then UnwrapAll(l, asWritten)
        else if l == [] then []
        else
          SizeCons(l[0], l[1..]);
          assert [l[0]] + l[1..] == l;
          [l[0]] + UnwrapAll(l[1..], asWritten)
      else [Unwrap(cs[0], asWritten)] + UnwrapAll(cs[1..], asWritten)
  }

  /** One step of the walk, at a full-width div. */
  lemma UnwrapAllDiv(x: Node, rest: seq<Node>, asWritten: bool)
    requires IsFullwidthDiv(x)
    ensures !asWritten ==> UnwrapAll([x] + rest, asWritten) == UnwrapAll(Unwrapped(x, rest), asWritten)
    ensures asWritten && Unwrapped(x, rest) == [] ==> UnwrapAll([x] + rest, asWritten) == []
    ensures asWritten && Unwrapped(x, rest) != [] ==>
      UnwrapAll([x] + rest, asWritten) == [Unwrapped(x, rest)[0]] + UnwrapAll(Unwrapped(x, rest)[1..], asWritten)
  {
    assert ([x] + rest)[0] == x && ([x] + rest)[1..] == rest;
  }

  /** One step of the walk, at any other node. */
  lemma UnwrapAllKeep(x: Node, rest: seq<Node>, asWritten: bool)
    requires !IsFullwidthDiv(x)
    ensures UnwrapAll([x] + rest, asWritten) == [Unwrap(x, asWritten)] + UnwrapAll(rest, asWritten)
  {
    assert ([x] + rest)[0] == x && ([x] + rest)[1..] == rest;
  }

  /** The walk of one node, in place on its children. */
  method UnwrapWalk(n: Node, asWritten: bool) returns (r: Node)
    decreases Size(n), 1, 0
    ensures r == Unwrap(n, asWritten)
  {
    var kids := UnwrapWalkAll(n.children, asWritten);
    r := n.(children := kids);
  }

  /** The walk's invariant carried over one step. */
  lemma WalkStep(children: seq<Node>, i: nat, emitted: seq<Node>, next: seq<Node>, cs: seq<Node>, asWritten: bool)
    requires i <= |children|
    requires children[..i] + UnwrapAll(children[i..], asWritten) == UnwrapAll(cs, asWritten)
    requires UnwrapAll(children[i..], asWritten) == emitted + UnwrapAll(next, asWritten)
    ensures (children[..i] + emitted) + UnwrapAll(next, asWritten) == UnwrapAll(cs, asWritten)
  {
  }

  /** The walk's invariant carried over the splice of a full-width div, and the index it resumes at. */
  lemma DivStep(children: seq<Node>, i: nat, cs: seq<Node>, asWritten: bool)
    requires i < |children| && IsFullwidthDiv(children[i])
    requires children[..i] + UnwrapAll(children[i..], asWritten) == UnwrapAll(cs, asWritten)
    ensures
      var next := children[..i] + Unwrapped(children[i], children[i + 1..]);
      var j := if asWritten && Unwrapped(children[i], children[i + 1..]) != [] then i + 1 else i;
      && j <= |next|
      && SizeAll(next[j..]) < SizeAll(children[i..])
      && next[..j] + UnwrapAll(next[j..], asWritten) == UnwrapAll(cs, asWritten)
  {
    if asWritten && Unwrapped(children[i], children[i + 1..]) != [] {
      DivStepResume(children, i, cs);
    } else {
      DivStepStay(children, i, cs, asWritten);
    }
  }

  /** As written: the first spliced node is passed over and the walk goes on after it. */
  lemma DivStepResume(children: seq<Node>, i: nat, cs: seq<Node>)
    requires i < |children| && IsFullwidthDiv(children[i]) && Unwrapped(children[i], children[i + 1..]) != []
    requires children[..i] + UnwrapAll(children[i..], true) == UnwrapAll(cs, true)
    ensures
      var next := children[..i] + Unwrapped(children[i], children[i + 1..]);
      && i + 1 <= |next|
      && SizeAll(next[i + 1..]) < SizeAll(children[i..])
      && next[..i + 1] + UnwrapAll(next[i + 1..], true) == UnwrapAll(cs, true)
  {
    var x, rest := children[i], children[i + 1..];
    assert children[i..] == [x] + rest;
    var l := Unwrapped(x, rest);
    UnwrapAllDiv(x, rest, true);
    SpliceParts(children[..i], l, 1);
    ResumeSplit(children[..i], l, UnwrapAll(l[1..], true));
    SizeCons(l[0], l[1..]);
    assert [l[0]] + l[1..] == l;
  }

  /** Regrouping a splice whose first node is passed over. */
  lemma ResumeSplit(prefix: seq<Node>, l: seq<Node>, tail: seq<Node>)
    requires |l| >= 1
    ensures (prefix + l)[..|prefix| + 1] + tail == prefix + ([l[0]] + tail)
  {
    SpliceParts(prefix, l, 1);
    assert l[..1] == [l[0]];
  }

  /** Corrected, or after an empty div: the walk goes on at the div's own index. */
  lemma DivStepStay(children: seq<Node>, i: nat, cs: seq<Node>, asWritten: bool)
    requires i < |children| && IsFullwidthDiv(children[i])
    requires !(asWritten && Unwrapped(children[i], children[i + 1..]) != [])
    requires children[..i] + UnwrapAll(children[i..], asWritten) == UnwrapAll(cs, asWritten)
    ensures
      var next := children[..i] + Unwrapped(children[i], children[i + 1..]);
      && i <= |next|
      && SizeAll(next[i..]) < SizeAll(children[i..])
      && next[..i] + UnwrapAll(next[i..], asWritten) == UnwrapAll(cs, asWritten)
  {
    var x, rest := children[i], children[i + 1..];
    assert children[i..] == [x] + rest;
    UnwrapAllDiv(x, rest, asWritten);
    SpliceParts(children[..i], Unwrapped(x, rest), 0);
  }

  /** The parts of a spliced children array on either side of an index inside the spliced run. */
  lemma SpliceParts(prefix: seq<Node>, l: seq<Node>, k: nat)
    requires k <= |l|
    ensures (prefix + l)[..|prefix| + k] == prefix + l[..k]
    ensures (prefix + l)[|prefix| + k..] == l[k..]
  {
  }

  /** The walk of a list of siblings: the parent's children array spliced as the visit goes. */
  method UnwrapWalkAll(cs: seq<Node>, asWritten: bool) returns (children: seq<Node>)
    decreases SizeAll(cs), 2, 0
    ensures children == UnwrapAll(cs, asWritten)
  {
    children := cs;
    var i := 0;
    while i < |children|
      invariant 0 <= i <= |children|
      invariant SizeAll(children[i..]) <= SizeAll(cs)
      invariant children[..i] + UnwrapAll(children[i..], asWritten) == UnwrapAll(cs, asWritten)
      decreases SizeAll(children[i..])
    {
      var x, rest := children[i], children[i + 1..];
      assert children[i..] == [x] + rest;
      SizeCons(x, rest);
      var prefix := children[..i];
      if IsFullwidthDiv(x) {
        var next := prefix + Unwrapped(x, rest);
        var j := if asWritten && Unwrapped(x, rest) != [] then i + 1 else i;
        DivStep(children, i, cs, asWritten);
        children, i := next, j;
      } else {
        UnwrapAllKeep(x, rest, asWritten);
        WalkStep(children, i, [Unwrap(x, asWritten)], rest, cs, asWritten);
        var y := UnwrapWalk(x, asWritten);
        children := prefix + [y] + rest;
        assert children[..i + 1] == prefix + [y];
        assert children[i + 1..] == rest;
        i := i + 1;
      }
    }
    assert children[i..] == [];
  }

  /** `rehypeTufte`'s transformer, as written. */
  method RehypeTufte(tree: Node) returns (r: Node)
    ensures r == Unwrap(tree, true)
  {
    r := UnwrapWalk(tree, true);
  }

  /** A subtree holding no full-width div. */
  predicate Flat(n: Node) {
    forall m :: m in PreOrder(n) ==> !IsFullwidthDiv(m)
  }

  predicate FlatAll(cs: seq<Node>) {
    forall i :: 0 <= i < |cs| ==> Flat(cs[i])
  }

  /** A node is flat when it is no full-width div and its children are flat. */
  lemma FlatOf(n: Node)
    ensures Flat(n) <==> !IsFullwidthDiv(n) && FlatAll(n.children)
  {
    if !IsFullwidthDiv(n) && FlatAll(n.children) {
      forall m | m in PreOrder(n)
        ensures !IsFullwidthDiv(m)
      {
        if m != n {
          InPreOrderAll(n.children, m);
        }
      }
    }
    if Flat(n) {
      forall i | 0 <= i < |n.children|
        ensures Flat(n.children[i])
      {
        forall m | m in PreOrder(n.children[i])
          ensures !IsFullwidthDiv(m)
        {
          PreOrderChild(n, i, m);
        }
      }
    }
  }

  /** Marking never creates or removes a full-width div. */
  lemma {:induction false} MarkFlat(n: Node)
    requires Flat(n)
    ensures Flat(Mark(n))
    decreases n, 1
  {
    FlatOf(n);
    forall i | 0 <= i < |n.children|
      ensures Flat(Mark(n).children[i])
    {
      MarkFlat(n.children[i]);
    }
    FlatOf(Mark(n));
  }

  /** Without a full-width div the walk changes nothing, in either mode. */
  lemma {:induction false} UnwrapFlat(n: Node, asWritten: bool)
    requires Flat(n)
    ensures Unwrap(n, asWritten) == n
    decreases Size(n), 1, 0
  {
    FlatOf(n);
    UnwrapAllFlat(n.children, asWritten);
  }

  lemma {:induction false} UnwrapAllFlat(cs: seq<Node>, asWritten: bool)
    requires FlatAll(cs)
    ensures UnwrapAll(cs, asWritten) == cs
    decreases SizeAll(cs), 2, 0
  {
    if cs != [] {
      SizeCons(cs[0], cs[1..]);
      assert [cs[0]] + cs[1..] == cs;
      FlatOf(cs[0]);
      UnwrapAllKeep(cs[0], cs[1..], asWritten);
      UnwrapFlat(cs[0], asWritten);
      UnwrapAllFlat(cs[1..], asWritten);
    }
  }

  /**
   * A single full-width div among flat siblings, holding flat children, is replaced
   * in place by its marked children; the other siblings keep their order.
   */
  lemma UnwrapOneDiv(xs: seq<Node>, div: Node, ys: seq<Node>, asWritten: bool)
    requires FlatAll(xs) && FlatAll(ys) && FlatAll(div.children)
    requires IsFullwidthDiv(div)
    ensures UnwrapAll(xs + [div] + ys, asWritten) == xs + MarkAll(div.children) + ys
  {
    UnwrapAllFlatPrefix(xs, [div] + ys, asWritten);
    assert xs + [div] + ys == xs + ([div] + ys);
    MarkAllFlat(div.children);
    UnwrapFlatDiv(div, ys, asWritten);
  }

  /** A full-width div with flat children, before flat siblings, unwraps to its marked children. */
  lemma UnwrapFlatDiv(div: Node, ys: seq<Node>, asWritten: bool)
    requires FlatAll(ys) && FlatAll(MarkAll(div.children)) && IsFullwidthDiv(div)
    ensures UnwrapAll([div] + ys, asWritten) == MarkAll(div.children) + ys
  {
    var l := Unwrapped(div, ys);
    assert FlatAll(l);
    UnwrapAllDiv(div, ys, asWritten);
    if asWritten && l != [] {
      assert FlatAll(l[1..]);
      UnwrapAllFlat(l[1..], asWritten);
      assert [l[0]] + l[1..] == l;
    } else {
      UnwrapAllFlat(l, asWritten);
    }
  }

  /** Marking flat siblings keeps them flat. */
  lemma MarkAllFlat(cs: seq<Node>)
    requires FlatAll(cs)
    ensures FlatAll(MarkAll(cs))
  {
    forall i | 0 <= i < |cs|
      ensures Flat(MarkAll(cs)[i])
    {
      MarkFlat(cs[i]);
    }
  }

  lemma {:induction false} UnwrapAllFlatPrefix(xs: seq<Node>, zs: seq<Node>, asWritten: bool)
    requires FlatAll(xs)
    ensures UnwrapAll(xs + zs, asWritten) == xs + UnwrapAll(zs, asWritten)
    decreases |xs|
  {
    if xs == [] {
      assert xs + zs == zs;
    } else {
      assert xs + zs == [xs[0]] + (xs[1..] + zs);
      FlatOf(xs[0]);
      UnwrapAllKeep(xs[0], xs[1..] + zs, asWritten);
      UnwrapFlat(xs[0], asWritten);
      UnwrapAllFlatPrefix(xs[1..], zs, asWritten);
    }
  }

  /** Resuming at the div's own index leaves no full-width div anywhere below the root. */
  lemma {:induction false} ResumingAtIndexUnwrapsAll(n: Node)
    ensures FlatAll(Unwrap(n, false).children)
    decreases Size(n), 1, 0
  {
    UnwrapAllLeavesFlat(n.children);
  }

  lemma {:induction false} UnwrapAllLeavesFlat(cs: seq<Node>)
    ensures FlatAll(UnwrapAll(cs, false))
    decreases SizeAll(cs), 2, 0
  {
    if cs != [] {
      SizeCons(cs[0], cs[1..]);
      assert [cs[0]] + cs[1..] == cs;
      if IsFullwidthDiv(cs[0]) {
        UnwrapAllDiv(cs[0], cs[1..], false);
        UnwrapAllLeavesFlat(Unwrapped(cs[0], cs[1..]));
      } else {
        UnwrapAllKeep(cs[0], cs[1..], false);
        var y := Unwrap(cs[0], false);
        ResumingAtIndexUnwrapsAll(cs[0]);
        assert !IsFullwidthDiv(y);
        FlatOf(y);
        UnwrapAllLeavesFlat(cs[1..]);
      }
    }
  }

  /** `<div class="fullwidth"></div>`, written as `:::fullwidth` with nothing inside. */
  const EmptyDiv: Node := Element("div", map["className" := Strs(["fullwidth"])], [])

  /** A full-width div holding one figure. */
  const FigureDiv: Node := Element("div", map["className" := Strs(["fullwidth"])], [Element("figure", map[], [])])

  /**
   * As written, an empty full-width div makes the walk pass over its next sibling:
   * a full-width div right after it stays wrapped and its figure is not widened,
   * which resuming at the div's index avoids.
   */
  lemma EmptyDivSkipsNextSibling()
    ensures UnwrapAll([EmptyDiv, FigureDiv], true) == [FigureDiv]
    ensures IsFullwidthDiv(FigureDiv)
    ensures UnwrapAll([EmptyDiv, FigureDiv], false) == [Element("figure", map["className" := Strs(["fullwidth"])], [])]
  {
    var figure := Element("figure", map[], []);
    assert DivClasses(EmptyDiv.props) == Some(["fullwidth"]);
    assert IsFullwidthDiv(EmptyDiv) && IsFullwidthDiv(FigureDiv);
    UnwrapAllDiv(EmptyDiv, [FigureDiv], true);
    assert Unwrapped(EmptyDiv, [FigureDiv]) == [FigureDiv];
    assert UnwrapAll([FigureDiv][1..], true) == [];
    UnwrapAllDiv(EmptyDiv, [FigureDiv], false);
    UnwrapAllDiv(FigureDiv, [], false);
    assert Widened(figure);
    assert Mark(figure) == Element("figure", map["className" := Strs(["fullwidth"])], []);
    assert MarkAll(FigureDiv.children) == [Mark(figure)];
    assert Unwrapped(FigureDiv, []) == [Mark(figure)];
    UnwrapAllKeep(Mark(figure), [], false);
    assert Unwrap(Mark(figure), false) == Mark(figure);
  }
}
