/**
 * The sectionizer of `remarkTufte`: one linear pass over the root's children
 * that regroups them into `section` nodes. A node that starts a section closes
 * the open section (when it is not empty) and opens a new one; content before
 * the first start forms a leading section of its own.
 */
module Sections {
  import opened Wrappers
  import opened Tree

  /** `isNewthought`: a bracketed span whose className is an array holding "newthought". */
  predicate IsNewthought(n: Node) {
    && n.kind == "bracketedSpan"
    && "className" in n.props && n.props["className"].Strs?
    && "newthought" in n.props["className"].items
  }

  /** `hasNewthought`: the node, or the node reached by repeatedly taking the first child, is a newthought span. */
  predicate HasNewthought(n: Node)
    decreases n
  {
    IsNewthought(n) || (|n.children| > 0 && HasNewthought(n.children[0]))
  }

  /**
   * `isSectionStart`: a heading of exactly the section depth, or, when newthought
   * sectioning is on, a node that begins with a newthought span.
   */
  predicate IsSectionStart(n: Node, heading: int, newthought: bool) {
    || (newthought && HasNewthought(n))
    || (n.kind == "heading" && "depth" in n.fields && n.fields["depth"] == Num(heading))
  }

  /** A `section` node, rendered as `<section>`. */
  function SectionNode(contents: seq<Node>): (r: Node)
    ensures r.kind == "section" && r.children == contents && DataStr(r, "hName") == Some("section")
  {
    Node("section", map[], map[], map["hName" := Str("section")], map[], contents)
  }

  function SectionNodes(groups: seq<seq<Node>>): (r: seq<Node>)
    ensures |r| == |groups|
    ensures forall k :: 0 <= k < |groups| ==> r[k] == SectionNode(groups[k])
  {
    if groups == [] then [] else [SectionNode(groups[0])] + SectionNodes(groups[1..])
  }

  /** The section-start test with the pass's settings fixed. */
  function StartOf(heading: int, newthought: bool): Node -> bool {
    n => IsSectionStart(n, heading, newthought)
  }

  /** The sections already emitted, and the open section buffer. */
  datatype Progress = Progress(closed: seq<seq<Node>>, open: seq<Node>)

  /**
   * The state of the pass after the nodes `ns`: the sections already emitted and
   * the open section buffer.
   */
  function Split(ns: seq<Node>, start: Node -> bool): (r: Progress)
  {
    if ns == [] then Progress([], [])
    else
      var p := Split(ns[..|ns| - 1], start);
      var n := ns[|ns| - 1];
      if start(n) && p.open != [] then Progress(p.closed + [p.open], [n])
      else Progress(p.closed, p.open + [n])
  }

  /** The sections the pass emits: the closed ones, then the open one when it is not empty. */
  function Groups(ns: seq<Node>, start: Node -> bool): seq<seq<Node>> {
    var p := Split(ns, start);
    if p.open == [] then p.closed else p.closed + [p.open]
  }

  /** The concatenation of a sequence of groups. */
  function Flatten(groups: seq<seq<Node>>): seq<Node> {
    if groups == [] then [] else Flatten(groups[..|groups| - 1]) + groups[|groups| - 1]
  }

  /**
   * A grouping as the sectionizer promises it: no empty group, a section start
   * only ever first in its group, and every group after the first led by a start.
   */
  predicate WellGrouped(groups: seq<seq<Node>>, start: Node -> bool) {
    && (forall k :: 0 <= k < |groups| ==> groups[k] != [])
    && (forall k, j :: 0 <= k < |groups| && 0 < j < |groups[k]| ==> !start(groups[k][j]))
    && (forall k :: 0 < k < |groups| ==> start(groups[k][0]))
  }

  /** The pass: `sectionize(tree, options)` with the section depth and newthought switch already read from the options. */
  method Sectionize(tree: Node, heading: int, newthought: bool) returns (r: Node)
    ensures r == tree.(children := SectionNodes(Groups(tree.children, StartOf(heading, newthought))))
  {
    var start := StartOf(heading, newthought);
    var children: seq<Node> := [];
    // The initial `enter()` opens an empty section.
    var section: seq<Node> := [];
    var i := 0;
    while i < |tree.children|
      invariant 0 <= i <= |tree.children|
      invariant children == SectionNodes(Split(tree.children[..i], start).closed)
      invariant section == Split(tree.children[..i], start).open
    {
      var node := tree.children[i];
      SplitStep(tree.children, i, start);
      if start(node) {
        // `enter()`: leave the open section when it is not empty.
        if |section| > 0 {
          SectionNodesAppend(Split(tree.children[..i], start).closed, section);
          children := children + [SectionNode(section)];
          section := [];
        }
      }
      section := section + [node];
      i := i + 1;
    }
    assert tree.children[..i] == tree.children;
    // The final `leave()`.
    if |section| > 0 {
      SectionNodesAppend(Split(tree.children, start).closed, section);
      children := children + [SectionNode(section)];
      section := [];
    }
    r := tree.(children := children);
  }

  /** One step of the pass, as the loop takes it. */
  lemma SplitStep(ns: seq<Node>, i: nat, start: Node -> bool)
    requires i < |ns|
    ensures Split(ns[..i + 1], start) ==
      var p := Split(ns[..i], start);
      if start(ns[i]) && p.open != [] then Progress(p.closed + [p.open], [ns[i]])
      else Progress(p.closed, p.open + [ns[i]])
  {
    assert ns[..i + 1][..i] == ns[..i];
  }

  /** The state after the last node, from the state before it. */
  lemma SplitSnoc(ns: seq<Node>, start: Node -> bool)
    requires ns != []
    ensures Split(ns, start) ==
      var p := Split(ns[..|ns| - 1], start);
      var n := ns[|ns| - 1];
      if start(n) && p.open != [] then Progress(p.closed + [p.open], [n])
      else Progress(p.closed, p.open + [n])
  {
  }

  lemma SectionNodesAppend(groups: seq<seq<Node>>, g: seq<Node>)
    ensures SectionNodes(groups + [g]) == SectionNodes(groups) + [SectionNode(g)]
  {
  }

  lemma {:induction false} FlattenAppend(groups: seq<seq<Node>>, g: seq<Node>)
    ensures Flatten(groups + [g]) == Flatten(groups) + g
  {
    assert (groups + [g])[..|groups|] == groups;
  }

  /** Either way the pass moves one node on, the concatenation grows by that node. */
  lemma OrderStep(closed: seq<seq<Node>>, open: seq<Node>, prefix: seq<Node>, n: Node)
    requires Flatten(closed) + open == prefix
    ensures Flatten(closed + [open]) + [n] == prefix + [n]
    ensures Flatten(closed) + (open + [n]) == prefix + [n]
  {
    FlattenAppend(closed, open);
  }

  /** What the pass keeps true after every node: nothing is lost or reordered. */
  lemma {:induction false} SplitKeepsOrder(ns: seq<Node>, start: Node -> bool)
    ensures Flatten(Split(ns, start).closed) + Split(ns, start).open == ns
    ensures ns != [] ==> Split(ns, start).open != []
  {
    if ns != [] {
      var prefix := ns[..|ns| - 1];
      SplitKeepsOrder(prefix, start);
      var p := Split(prefix, start);
      var n := ns[|ns| - 1];
      assert prefix + [n] == ns;
      SplitSnoc(ns, start);
      OrderStep(p.closed, p.open, prefix, n);
    }
  }

  /** What the pass keeps true after every node: the emitted sections and the buffer have the promised shape. */
  lemma {:induction false} SplitInvariant(ns: seq<Node>, start: Node -> bool)
    ensures var Progress(closed, open) := Split(ns, start);
      && WellGrouped(closed, start)
      && (forall j :: 0 < j < |open| ==> !start(open[j]))
      && (closed != [] ==> open != [] && start(open[0]))
  {
    if ns != [] {
      var prefix := ns[..|ns| - 1];
      SplitInvariant(prefix, start);
      SplitKeepsOrder(prefix, start);
      var Progress(closed, open) := Split(prefix, start);
      var n := ns[|ns| - 1];
      SplitSnoc(ns, start);
      if start(n) && open != [] {
        WellGroupedAppend(closed, open, start);
      } else {
        var open' := open + [n];
        forall j | 0 < j < |open'|
          ensures !start(open'[j])
        {
          if j < |open| { assert open'[j] == open[j]; }
        }
        assert closed != [] ==> open'[0] == open[0];
      }
    }
  }

  /** Sectionizing is a partition: the sections' contents, concatenated, are the original children in order. */
  lemma GroupsPartition(ns: seq<Node>, start: Node -> bool)
    ensures Flatten(Groups(ns, start)) == ns
    ensures WellGrouped(Groups(ns, start), start)
  {
    SplitInvariant(ns, start);
    SplitKeepsOrder(ns, start);
    var Progress(closed, open) := Split(ns, start);
    if open != [] {
      FlattenAppend(closed, open);
      WellGroupedAppend(closed, open, start);
    }
  }

  /** Closing a well-shaped open section keeps the grouping well shaped. */
  lemma WellGroupedAppend(closed: seq<seq<Node>>, open: seq<Node>, start: Node -> bool)
    requires WellGrouped(closed, start) && open != []
    requires forall j :: 0 < j < |open| ==> !start(open[j])
    requires closed != [] ==> start(open[0])
    ensures WellGrouped(closed + [open], start)
  {
    var groups := closed + [open];
    forall k | 0 <= k < |groups|
      ensures groups[k] != []
    {
      if k < |closed| { assert groups[k] == closed[k]; }
    }
    forall k, j | 0 <= k < |groups| && 0 < j < |groups[k]|
      ensures !start(groups[k][j])
    {
      if k < |closed| { assert groups[k] == closed[k]; }
    }
    forall k | 0 < k < |groups|
      ensures start(groups[k][0])
    {
      if k < |closed| { assert groups[k] == closed[k]; }
    }
  }

  /** An empty document yields no section at all. */
  lemma GroupsOfNothing(start: Node -> bool)
    ensures Groups([], start) == []
  {
  }

  /** A document with no section start becomes exactly one section holding everything. */
  lemma {:induction false} NoStartOneSection(ns: seq<Node>, start: Node -> bool)
    requires ns != []
    requires forall j :: 0 <= j < |ns| ==> !start(ns[j])
    ensures Groups(ns, start) == [ns]
  {
    NoStartSplit(ns, start);
  }

  lemma {:induction false} NoStartSplit(ns: seq<Node>, start: Node -> bool)
    requires forall j :: 0 <= j < |ns| ==> !start(ns[j])
    ensures Split(ns, start) == Progress([], ns)
  {
    if ns != [] {
      NoStartSplit(ns[..|ns| - 1], start);
      assert ns[..|ns| - 1] + [ns[|ns| - 1]] == ns;
    }
  }

  /**
   * The grouping is the only one with the promised shape: any well-formed grouping
   * of the same children is the one the pass produces.
   */
  lemma {:induction false} GroupsUnique(ns: seq<Node>, groups: seq<seq<Node>>, start: Node -> bool)
    requires WellGrouped(groups, start)
    requires Flatten(groups) == ns
    ensures Groups(ns, start) == groups
    decreases |ns|
  {
    if groups != [] {
      var last := groups[|groups| - 1];
      var front := groups[..|groups| - 1];
      assert groups == front + [last];
      FlattenAppend(front, last);
      var n := last[|last| - 1];
      var prefix := ns[..|ns| - 1];
      assert ns == prefix + [n];
      if |last| == 1 {
        assert Flatten(front) == prefix;
        if front == [] {
          assert prefix == [];
          SplitSnoc(ns, start);
        } else {
          assert start(n);
          GroupsUnique(prefix, front, start);
          UniqueNewSection(ns, front, start);
        }
      } else {
        var shorter := front + [last[..|last| - 1]];
        FlattenAppend(front, last[..|last| - 1]);
        assert last == last[..|last| - 1] + [n];
        WellGroupedShorter(front, last, start);
        GroupsUnique(prefix, shorter, start);
        UniqueSameSection(ns, front, last, start);
      }
    }
  }

  /** Dropping the last node of a section of two or more keeps the grouping well formed; that node is no start. */
  lemma WellGroupedShorter(front: seq<seq<Node>>, last: seq<Node>, start: Node -> bool)
    requires WellGrouped(front + [last], start) && |last| > 1
    ensures WellGrouped(front + [last[..|last| - 1]], start)
    ensures !start(last[|last| - 1])
  {
    var groups := front + [last];
    var shorter := front + [last[..|last| - 1]];
    assert last[|last| - 1] == groups[|groups| - 1][|last| - 1];
    forall k | 0 <= k < |shorter|
      ensures shorter[k] != []
    {
      if k < |front| {
        assert shorter[k] == groups[k];
      }
    }
    forall k, j | 0 <= k < |shorter| && 0 < j < |shorter[k]|
      ensures !start(shorter[k][j])
    {
      assert shorter[k][j] == groups[k][j];
    }
    forall k | 0 < k < |shorter|
      ensures start(shorter[k][0])
    {
      assert shorter[k][0] == groups[k][0];
    }
  }

  /** A start node after a non-empty grouping opens a section of its own. */
  lemma UniqueNewSection(ns: seq<Node>, front: seq<seq<Node>>, start: Node -> bool)
    requires ns != [] && start(ns[|ns| - 1]) && front != []
    requires Groups(ns[..|ns| - 1], start) == front
    ensures Groups(ns, start) == front + [[ns[|ns| - 1]]]
  {
    var prefix := ns[..|ns| - 1];
    SplitKeepsOrder(prefix, start);
    SplitSnoc(ns, start);
    var p := Split(prefix, start);
    assert p.open != [];
    assert p.closed + [p.open] == front;
  }

  /** A node that is no start joins the open section. */
  lemma UniqueSameSection(ns: seq<Node>, front: seq<seq<Node>>, last: seq<Node>, start: Node -> bool)
    requires ns != [] && |last| > 1 && ns[|ns| - 1] == last[|last| - 1] && !start(ns[|ns| - 1])
    requires Groups(ns[..|ns| - 1], start) == front + [last[..|last| - 1]]
    ensures Groups(ns, start) == front + [last]
  {
    var prefix := ns[..|ns| - 1];
    SplitInvariant(prefix, start);
    SplitKeepsOrder(prefix, start);
    SplitSnoc(ns, start);
    var p := Split(prefix, start);
    assert p.open != [];
    var closedOpen := p.closed + [p.open];
    assert closedOpen == front + [last[..|last| - 1]];
    assert |p.closed| == |front|;
    assert p.closed == closedOpen[..|front|] == front;
    assert p.open == closedOpen[|front|];
    assert p.open + [ns[|ns| - 1]] == last;
  }

  /** A heading of the given depth whose only child is the text `title`. */
  function Heading(depth: int, title: string): Node {
    Node("heading", map["depth" := Num(depth)], map[], map[], map[], [Text(title)])
  }

  function Paragraph(text: string): Node {
    Node("paragraph", map[], map[], map[], map[], [Text(text)])
  }

  /** `[H2 "A", P, P, H2 "B", P]` at section depth 2 gives two sections, `{A, P, P}` and `{B, P}`. */
  lemma TwoHeadingsTwoSections(p1: string, p2: string, p3: string)
    ensures
      var ns := [Heading(2, "A"), Paragraph(p1), Paragraph(p2), Heading(2, "B"), Paragraph(p3)];
      Groups(ns, StartOf(2, false)) == [ns[..3], ns[3..]]
  {
    var ns := [Heading(2, "A"), Paragraph(p1), Paragraph(p2), Heading(2, "B"), Paragraph(p3)];
    var start := StartOf(2, false);
    assert !start(ns[1]) && !start(ns[2]) && !start(ns[4]);
    assert start(ns[3]);
    assert ns[..1][..0] == [];
    assert ns[..2][..1] == ns[..1];
    assert ns[..3][..2] == ns[..2];
    assert ns[..4][..3] == ns[..3];
    assert ns[..5][..4] == ns[..4];
    assert Split(ns[..1], start) == Progress([], [ns[0]]);
    assert Split(ns[..2], start) == Progress([], ns[..2]);
    assert Split(ns[..3], start) == Progress([], ns[..3]);
    assert Split(ns[..4], start) == Progress([ns[..3]], [ns[3]]);
    assert ns[..5] == ns;
    assert Split(ns, start) == Progress([ns[..3]], ns[3..]);
  }
}
