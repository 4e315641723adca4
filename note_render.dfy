/**
 * `noteToHast` of `remarkRehypeTufte`: a side note or margin note becomes a
 * toggle label, a checkbox and the note's span. The hast of the note's children
 * (`state.all(node)`) is a parameter.
 */
module NoteRender {
  import opened Wrappers
  import opened Tree
  import Notes

  function ClassName(classes: seq<string>): map<string, Prop> {
    map["className" := Strs(classes)]
  }

  /** The class list of an element, or [] when it has none. */
  function Classes(n: Node): seq<string> {
    if "className" in n.props && n.props["className"].Strs? then n.props["className"].items else []
  }

  /**
   * The label that opens the note: numbered for a side note, `⊕` or the author's label
   * for a margin note. Its `for` is stored as hastscript stores a space-separated
   * property, the white-space tokens of the identifier.
   */
  function NoteLabel(note: Node): seq<Node> {
    var identifier := StrFieldOr(note, "identifier");
    if note.kind == "sidenote" then
      [Element("label", ClassName(["margin-toggle", "sidenote-number"])["htmlFor" := Strs(Tokens(identifier))], [])]
    else if note.kind == "marginnote" then
      match StrField(note, "label")
      case None =>
        [Element("label", ClassName(["margin-toggle"])["htmlFor" := Strs(Tokens(identifier))], [Text(" \U{2295}")])]
      case Some(caption) =>
        [Element("label", ClassName(["margin-toggle", "margin-toggle--always-display"])["htmlFor" := Strs(Tokens(identifier))],
          [Element("span", ClassName(["margin-toggle--label"]), [Text(caption)])])]
    else []
  }

  /** `noteToHast(state, node)`, with `rendered` the hast of the note's children. */
  function NoteToHast(note: Node, rendered: seq<Node>): (r: seq<Node>)
    ensures |r| == 3 <==> note.kind in {"sidenote", "marginnote"}
    ensures |r| == 2 <==> note.kind !in {"sidenote", "marginnote"}
    ensures IsElement(r[|r| - 2], "input") && IsElement(r[|r| - 1], "span")
    ensures Get(r[|r| - 2].props, "id") == Some(Str(StrFieldOr(note, "identifier")))
    ensures Get(r[|r| - 2].props, "type") == Some(Str("checkbox")) && Classes(r[|r| - 2]) == ["margin-toggle"]
    ensures Classes(r[|r| - 1]) == ["marginnote"] && r[|r| - 1].children == rendered
    ensures |r| == 3 ==> IsElement(r[0], "label") && Get(r[0].props, "htmlFor") == Some(Strs(Tokens(StrFieldOr(note, "identifier"))))
    ensures |r| == 3 ==> "margin-toggle" in Classes(r[0])
    ensures |r| == 3 ==> ("sidenote-number" in Classes(r[0]) <==> note.kind == "sidenote")
    ensures |r| == 3 ==> ("margin-toggle--always-display" in Classes(r[0]) <==> note.kind == "marginnote" && StrField(note, "label").Some?)
  {
    var identifier := StrFieldOr(note, "identifier");
    NoteLabel(note)
      + [Element("input", ClassName(["margin-toggle"])["type" := Str("checkbox")]["id" := Str(identifier)], [])]
      + [Element("span", ClassName(["marginnote"]), rendered)]
  }

  /** For an identifier without white space, the label's `for` is the one token that is the checkbox's id. */
  lemma LabelPointsAtCheckbox(note: Node, rendered: seq<Node>)
    requires note.kind in {"sidenote", "marginnote"}
    requires StrFieldOr(note, "identifier") != [] && NoSpace(StrFieldOr(note, "identifier"))
    ensures var r := NoteToHast(note, rendered);
      && r[1].props["id"].Str?
      && r[0].props["htmlFor"] == Strs([r[1].props["id"].s])
  {
    TokensOfWord(StrFieldOr(note, "identifier"));
  }

  /**
   * A resolved footnote reference renders as a numbered side note unless its
   * identifier starts with `mn-`, and then as an unnumbered margin note with the
   * `⊕` toggle.
   */
  lemma ReferenceNumberedUnlessMn(reference: Node, definitions: map<string, Node>, rendered: seq<Node>)
    requires Notes.ResolveReference(reference, definitions).Ok?
    ensures
      var r := NoteToHast(Notes.ResolveReference(reference, definitions).value, rendered);
      && |r| == 3
      && ("sidenote-number" in Classes(r[0]) <==> !StartsWith(Notes.Identifier(reference), "mn-"))
      && (StartsWith(Notes.Identifier(reference), "mn-") ==> r[0].children == [Text(" \U{2295}")])
  {
    var note := Notes.ResolveReference(reference, definitions).value;
    assert StrField(note, "label") == None;
  }

  /** A labelled margin span renders with its label always displayed, wrapped in `span.margin-toggle--label`. */
  lemma LabelledMarginNoteShowsLabel(note: Node, caption: string, rendered: seq<Node>)
    requires note.kind == "marginnote" && StrField(note, "label") == Some(caption)
    ensures NoteToHast(note, rendered)[0].children == [Element("span", ClassName(["margin-toggle--label"]), [Text(caption)])]
  {
  }
}
