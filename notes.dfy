/**
 * `handleNotes` of `remarkTufte`: footnote references become side notes or margin
 * notes holding the flattened definition, and the remaining margin spans become
 * margin notes.
 */
module Notes {
  import opened Wrappers
  import opened Tree
  import opened Diagnostics
  import Figures
  import Linter

  /** The node kinds `mdast-util-phrasing` counts as phrasing content. */
  const PhrasingKinds: set<string> := {
    "break", "delete", "emphasis", "footnote", "footnoteReference", "image", "imageReference",
    "inlineCode", "inlineMath", "link", "linkReference", "mdxJsxTextElement", "mdxTextExpression",
    "strong", "text", "textDirective"}

  predicate IsPhrasing(n: Node) {
    n.kind in PhrasingKinds
  }

  /**
   * `flattenToPhrasing`: phrasing content is kept whole, definitions and paragraphs
   * are unwrapped, anything else aborts the run.
   */
  function FlattenToPhrasing(n: Node): (r: Result<seq<Node>, Failure>)
    decreases n, 1
    ensures r.Ok? ==> forall p :: p in r.value ==> IsPhrasing(p)
    ensures IsPhrasing(n) ==> r == Ok([n])
    ensures r.Err? ==> (r.error.UnexpectedInFootnote? && !IsPhrasing(r.error.node)
      && r.error.node.kind !in {"footnoteDefinition", "paragraph"})
  {
    if IsPhrasing(n) then Ok([n])
    else if n.kind in {"footnoteDefinition", "paragraph"} then FlattenAll(n.children)
    else Err(UnexpectedInFootnote(n))
  }

  /** `children.flatMap(flattenToPhrasing)`. */
  function FlattenAll(cs: seq<Node>): (r: Result<seq<Node>, Failure>)
    decreases cs, 0
    ensures r.Ok? ==> forall p :: p in r.value ==> IsPhrasing(p)
    ensures r.Err? ==> (r.error.UnexpectedInFootnote? && !IsPhrasing(r.error.node)
      && r.error.node.kind !in {"footnoteDefinition", "paragraph"})
  {
    if cs == [] then Ok([])
    else
      var first :- FlattenToPhrasing(cs[0]);
      var rest :- FlattenAll(cs[1..]);
      Ok(first + rest)
  }

  /** The phrasing leaves a definition flattens to, read off the tree instead of built. */
  function PhrasingFrontier(n: Node): seq<Node>
    decreases n, 1
  {
    if IsPhrasing(n) then [n] else PhrasingFrontierAll(n.children)
  }

  function PhrasingFrontierAll(cs: seq<Node>): seq<Node>
    decreases cs, 0
  {
    if cs == [] then [] else PhrasingFrontier(cs[0]) + PhrasingFrontierAll(cs[1..])
  }

  /** Whether flattening succeeds: below `n`, every node down to the phrasing content is a definition or a paragraph. */
  predicate Flattenable(n: Node)
    decreases n, 1
  {
    IsPhrasing(n) || (n.kind in {"footnoteDefinition", "paragraph"} && FlattenableAll(n.children))
  }

  predicate FlattenableAll(cs: seq<Node>)
    decreases cs, 0
  {
    cs == [] || (Flattenable(cs[0]) && FlattenableAll(cs[1..]))
  }

  /** Flattening succeeds exactly on flattenable definitions, and then yields the phrasing frontier in order. */
  lemma {:induction false} FlattenIsFrontier(n: Node)
    ensures FlattenToPhrasing(n).Ok? <==> Flattenable(n)
    ensures FlattenToPhrasing(n).Ok? ==> FlattenToPhrasing(n).value == PhrasingFrontier(n)
    decreases n, 1
  {
    if !IsPhrasing(n) && n.kind in {"footnoteDefinition", "paragraph"} {
      FlattenAllIsFrontier(n.children);
    }
  }

  lemma {:induction false} FlattenAllIsFrontier(cs: seq<Node>)
    ensures FlattenAll(cs).Ok? <==> FlattenableAll(cs)
    ensures FlattenAll(cs).Ok? ==> FlattenAll(cs).value == PhrasingFrontierAll(cs)
    decreases cs, 0
  {
    if cs != [] {
      FlattenIsFrontier(cs[0]);
      FlattenAllIsFrontier(cs[1..]);
    }
  }

  /** `reference.identifier` or `definition.identifier`, the key of the definitions record. */
  function Identifier(n: Node): string {
    StrFieldOr(n, "identifier")
  }

  predicate IsDefinition(n: Node) {
    n.kind == "footnoteDefinition"
  }

  /** The definitions record after visiting `ns` in order: a later definition of an identifier replaces an earlier one. */
  function DefinitionsOf(ns: seq<Node>): map<string, Node> {
    if ns == [] then map[]
    else
      var last := ns[|ns| - 1];
      if IsDefinition(last) then DefinitionsOf(ns[..|ns| - 1])[Identifier(last) := last]
      else DefinitionsOf(ns[..|ns| - 1])
  }

  /** The first walk of `handleNotes`: collect the footnote definitions of the tree. */
  method CollectDefinitions(tree: Node) returns (definitions: map<string, Node>)
    ensures definitions == DefinitionsOf(PreOrder(tree))
  {
    var nodes := PreOrder(tree);
    definitions := map[];
    var i := 0;
    while i < |nodes|
      invariant 0 <= i <= |nodes|
      invariant definitions == DefinitionsOf(nodes[..i])
    {
      assert nodes[..i + 1][..i] == nodes[..i];
      if IsDefinition(nodes[i]) {
        definitions := definitions[Identifier(nodes[i]) := nodes[i]];
      }
      i := i + 1;
    }
    assert nodes[..i] == nodes;
  }

  /** An identifier is defined exactly when some definition carries it. */
  lemma {:induction false} DefinitionsDefined(ns: seq<Node>, id: string)
    ensures id in DefinitionsOf(ns) <==> exists i :: 0 <= i < |ns| && IsDefinition(ns[i]) && Identifier(ns[i]) == id
  {
    if ns != [] {
      var front, last := ns[..|ns| - 1], ns[|ns| - 1];
      DefinitionsDefined(front, id);
      if !(IsDefinition(last) && Identifier(last) == id) {
        if exists i :: 0 <= i < |ns| && IsDefinition(ns[i]) && Identifier(ns[i]) == id {
          var i :| 0 <= i < |ns| && IsDefinition(ns[i]) && Identifier(ns[i]) == id;
          assert ns[i] == front[i];
        }
        if exists i :: 0 <= i < |front| && IsDefinition(front[i]) && Identifier(front[i]) == id {
          var i :| 0 <= i < |front| && IsDefinition(front[i]) && Identifier(front[i]) == id;
          assert ns[i] == front[i];
        }
      }
    }
  }

  /** The node recorded for a defined identifier is its last definition. */
  lemma {:induction false} DefinitionsLast(ns: seq<Node>, id: string)
    requires id in DefinitionsOf(ns)
    ensures exists i :: (0 <= i < |ns| && DefinitionsOf(ns)[id] == ns[i]
      && IsDefinition(ns[i]) && Identifier(ns[i]) == id
      && forall j :: i < j < |ns| ==> !(IsDefinition(ns[j]) && Identifier(ns[j]) == id))
  {
    var front, last := ns[..|ns| - 1], ns[|ns| - 1];
    if IsDefinition(last) && Identifier(last) == id {
      assert ns[|ns| - 1] == last;
    } else {
      DefinitionsLast(front, id);
      var i :| 0 <= i < |front| && DefinitionsOf(front)[id] == front[i] && IsDefinition(front[i]) && Identifier(front[i]) == id
        && forall j :: i < j < |front| ==> !(IsDefinition(front[j]) && Identifier(front[j]) == id);
      assert ns[i] == front[i];
    }
  }

  /** An identifier is defined exactly when some definition carries it, and the last such definition wins. */
  lemma DefinitionsLastWins(ns: seq<Node>, id: string)
    ensures id in DefinitionsOf(ns) <==> exists i :: 0 <= i < |ns| && IsDefinition(ns[i]) && Identifier(ns[i]) == id
    ensures id in DefinitionsOf(ns) ==> exists i :: (0 <= i < |ns| && DefinitionsOf(ns)[id] == ns[i]
      && IsDefinition(ns[i]) && Identifier(ns[i]) == id
      && forall j :: i < j < |ns| ==> !(IsDefinition(ns[j]) && Identifier(ns[j]) == id))
  {
    DefinitionsDefined(ns, id);
    if id in DefinitionsOf(ns) {
      DefinitionsLast(ns, id);
    }
  }

  /** A note is a margin note when its identifier starts with `mn-`, otherwise a side note. */
  function NoteKind(identifier: string): string {
    if StartsWith(identifier, "mn-") then "marginnote" else "sidenote"
  }

  /** The visitor of a footnote reference: the note that replaces it. */
  function ResolveReference(reference: Node, definitions: map<string, Node>): (r: Result<Node, Failure>)
    ensures Identifier(reference) !in definitions ==> r == Err(UnknownFootnote(reference))
    ensures r.Ok? ==> Identifier(reference) in definitions
    ensures r.Ok? ==> FlattenToPhrasing(definitions[Identifier(reference)]) == Ok(r.value.children)
    ensures r.Ok? ==> StrField(r.value, "identifier") == Some(Identifier(reference))
    ensures r.Ok? ==> (r.value.kind == "marginnote" <==> StartsWith(Identifier(reference), "mn-"))
    ensures r.Ok? ==> (r.value.kind == "sidenote" <==> !StartsWith(Identifier(reference), "mn-"))
  {
    var identifier := Identifier(reference);
    if identifier !in definitions then Err(UnknownFootnote(reference))
    else
      var children :- FlattenToPhrasing(definitions[identifier]);
      Ok(Note(NoteKind(identifier), identifier, None, children))
  }

  /**
   * The reference walk: each reference is replaced by its note and the walk goes
   * on after it, so the note's own content is not visited.
   */
  function References(n: Node, definitions: map<string, Node>): Result<Node, Failure>
    decreases n, 1
  {
    var kids :- ReferencesAll(n.children, definitions);
    Ok(n.(children := kids))
  }

  function ReferencesAll(cs: seq<Node>, definitions: map<string, Node>): (r: Result<seq<Node>, Failure>)
    decreases cs, 0
    ensures r.Ok? ==> |r.value| == |cs|
  {
    if cs == [] then Ok([])
    else
      var first :- if cs[0].kind == "footnoteReference" then ResolveReference(cs[0], definitions)
                   else References(cs[0], definitions);
      var rest :- ReferencesAll(cs[1..], definitions);
      Ok([first] + rest)
  }

  /** The references the walk meets, in document order (it does not look inside a reference). */
  function ReferencesMet(n: Node): seq<Node>
    decreases n, 1
  {
    ReferencesMetAll(n.children)
  }

  function ReferencesMetAll(cs: seq<Node>): seq<Node>
    decreases cs, 0
  {
    if cs == [] then []
    else (if cs[0].kind == "footnoteReference" then [cs[0]] else ReferencesMet(cs[0])) + ReferencesMetAll(cs[1..])
  }

  /** The reference walk succeeds exactly when every reference it meets resolves. */
  lemma {:induction false} ReferencesOkIff(n: Node, definitions: map<string, Node>)
    ensures References(n, definitions).Ok? <==> forall m :: m in ReferencesMet(n) ==> ResolveReference(m, definitions).Ok?
    decreases n, 1
  {
    ReferencesAllOkIff(n.children, definitions);
  }

  lemma {:induction false} ReferencesAllOkIff(cs: seq<Node>, definitions: map<string, Node>)
    ensures ReferencesAll(cs, definitions).Ok? <==> forall m :: m in ReferencesMetAll(cs) ==> ResolveReference(m, definitions).Ok?
    decreases cs, 0
  {
    if cs != [] {
      if cs[0].kind != "footnoteReference" {
        ReferencesOkIff(cs[0], definitions);
      }
      ReferencesAllOkIff(cs[1..], definitions);
    }
  }

  /** `String(span.properties.identifier)`, the identifier the source gives a margin-span note. */
  function MarginSpanIdentifierAsWritten(span: Node): string {
    ToJsString(Get(span.props, "identifier"))
  }

  /** `String(span.properties.id)`, the identifier the author gives a margin span (the corrected reading). */
  function MarginSpanIdentifier(span: Node): string {
    ToJsString(Get(span.props, "id"))
  }

  /** `typeof span.properties.label === "string" ? span.properties.label : undefined`. */
  function MarginSpanLabel(span: Node): Option<string> {
    if "label" in span.props && span.props["label"].Str? then Some(span.props["label"].s) else None
  }

  /**
   * The margin-span walk. A span whose classes hold `margin` becomes a margin note;
   * the walk goes on into its children (the note shares them). `asWritten` selects
   * the identifier the source reads.
   */
  function MarginSpans(n: Node, asWritten: bool): Result<Node, Failure>
    decreases n, 1
  {
    var kids :- MarginSpansAll(n.children, asWritten);
    if n.kind == "bracketedSpan" then
      var classes :- Figures.SpanClasses(n);
      if "margin" in classes then
        var identifier := if asWritten then MarginSpanIdentifierAsWritten(n) else MarginSpanIdentifier(n);
        Ok(Note("marginnote", identifier, MarginSpanLabel(n), kids))
      else Ok(n.(children := kids))
    else Ok(n.(children := kids))
  }

  function MarginSpansAll(cs: seq<Node>, asWritten: bool): (r: Result<seq<Node>, Failure>)
    decreases cs, 0
    ensures r.Ok? ==> |r.value| == |cs|
  {
    if cs == [] then Ok([])
    else
      var first :- MarginSpans(cs[0], asWritten);
      var rest :- MarginSpansAll(cs[1..], asWritten);
      Ok([first] + rest)
  }

  /** A bracketed span whose classes hold `margin`. */
  predicate IsMarginSpan(n: Node) {
    n.kind == "bracketedSpan" && Figures.SpanClasses(n).Ok? && "margin" in Figures.SpanClasses(n).value
  }

  /** The margin-span walk fails exactly when some bracketed span has a className that is not an array. */
  lemma {:induction false} MarginSpansOkIff(n: Node, asWritten: bool)
    ensures MarginSpans(n, asWritten).Ok? <==>
      forall m :: m in PreOrder(n) && m.kind == "bracketedSpan" ==> Figures.SpanClasses(m).Ok?
    decreases n, 1
  {
    MarginSpansAllOkIff(n.children, asWritten);
  }

  lemma {:induction false} MarginSpansAllOkIff(cs: seq<Node>, asWritten: bool)
    ensures MarginSpansAll(cs, asWritten).Ok? <==>
      forall m :: m in PreOrderAll(cs) && m.kind == "bracketedSpan" ==> Figures.SpanClasses(m).Ok?
    decreases cs, 0
  {
    if cs != [] {
      MarginSpansOkIff(cs[0], asWritten);
      MarginSpansAllOkIff(cs[1..], asWritten);
    }
  }

  /** After the walk no margin span is left anywhere in the tree. */
  lemma {:induction false} MarginSpansLeaveNone(n: Node, asWritten: bool)
    requires MarginSpans(n, asWritten).Ok?
    ensures forall m :: m in PreOrder(MarginSpans(n, asWritten).value) ==> !IsMarginSpan(m)
    decreases n, 1
  {
    MarginSpansAllLeaveNone(n.children, asWritten);
  }

  lemma {:induction false} MarginSpansAllLeaveNone(cs: seq<Node>, asWritten: bool)
    requires MarginSpansAll(cs, asWritten).Ok?
    ensures forall m :: m in PreOrderAll(MarginSpansAll(cs, asWritten).value) ==> !IsMarginSpan(m)
    decreases cs, 0
  {
    if cs != [] {
      var r := MarginSpansAll(cs, asWritten).value;
      MarginSpansLeaveNone(cs[0], asWritten);
      MarginSpansAllLeaveNone(cs[1..], asWritten);
      assert r == [MarginSpans(cs[0], asWritten).value] + MarginSpansAll(cs[1..], asWritten).value;
      assert r[1..] == MarginSpansAll(cs[1..], asWritten).value;
    }
  }

  /**
   * Every margin span the linter accepts has only the properties className, id and
   * label, so the identifier read by the source is always the string "undefined".
   */
  lemma AsWrittenIdentifierIsUndefined(span: Node, ancestors: seq<Node>)
    requires Linter.SpanAccepted(Linter.Margin, span, ancestors)
    ensures MarginSpanIdentifierAsWritten(span) == "undefined"
  {
    assert "identifier" !in Linter.MarginProperties;
  }

  /** Two margin spans with different ids get the same note identifier as written. */
  lemma AsWrittenMarginNotesCollide()
    ensures
      var a := Node("bracketedSpan", map[], map["className" := Strs(["margin"]), "id" := Str("a")], map[], map[], []);
      var b := Node("bracketedSpan", map[], map["className" := Strs(["margin"]), "id" := Str("b")], map[], map[], []);
      MarginSpanIdentifierAsWritten(a) == MarginSpanIdentifierAsWritten(b) == "undefined"
  {
  }

  /** With `id`, a margin note keeps the id the author gave its span, so distinct ids stay distinct. */
  lemma MarginNoteKeepsId(span: Node, other: Node)
    requires Linter.HasStringId(span.props) && Linter.HasStringId(other.props)
    requires span.props["id"] != other.props["id"]
    ensures MarginSpanIdentifier(span) == span.props["id"].s
    ensures MarginSpanIdentifier(span) != MarginSpanIdentifier(other)
  {
  }

  /** The two rewriting walks of `handleNotes`, after the definitions are collected. */
  function NotesRun(tree: Node, definitions: map<string, Node>, asWritten: bool): Result<Node, Failure> {
    var resolved :- References(tree, definitions);
    MarginSpans(resolved, asWritten)
  }

  /** `handleNotes(tree)` as written, with the margin-span identifier read from `identifier`. */
  method HandleNotes(tree: Node) returns (r: Result<Node, Failure>)
    ensures r == NotesRun(tree, DefinitionsOf(PreOrder(tree)), true)
  {
    var definitions := CollectDefinitions(tree);
    r := NotesRun(tree, definitions, true);
  }
}
