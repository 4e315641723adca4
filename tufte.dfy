/**
 * `remarkTufte`'s transformer: the linter, then sectioning, epigraphs, figures,
 * notes and full-width containers, in that order. The first pass that fails
 * ends the run with its message.
 */
module Tufte {
  import opened Wrappers
  import opened Tree
  import opened Diagnostics
  import Options
  import Linter
  import Sections
  import Directives
  import Figures
  import Notes

  /**
   * Whether newthought spans start sections: as written (`!!options?.sectionize?.heading`)
   * or as the `newthought` option documents it.
   */
  function Newthought(options: Option<Options.TufteOptions>, asWritten: bool): bool {
    if asWritten then Options.SectionizeNewthoughtAsWritten(options) else Options.SectionizeNewthought(options)
  }

  /** The section boundaries the options ask for. */
  function SectionStart(options: Option<Options.TufteOptions>, asWritten: bool): Node -> bool {
    Sections.StartOf(Options.SectionizeHeading(options), Newthought(options, asWritten))
  }

  /**
   * The passes as values, each starting from the tree the one before it left.
   * `asWritten` selects the program's own readings of the newthought switch and of
   * the margin-span identifier; without it, the corrected readings are composed.
   */
  function TufteRun(tree: Node, options: Option<Options.TufteOptions>, asWritten: bool): Result<Node, Failure> {
    if Linter.Lint(tree).Fail? then Err(Linter.Lint(tree).error)
    else
      var sectioned := tree.(children := Sections.SectionNodes(Sections.Groups(tree.children, SectionStart(options, asWritten))));
      var epigraphs := Directives.HandleEpigraph(sectioned);
      var figures :- Figures.FiguresRun(epigraphs);
      var notes :- Notes.NotesRun(figures.node, Notes.DefinitionsOf(PreOrder(figures.node)), asWritten);
      Ok(Directives.Fullwidths(notes))
  }

  /** The transformer as written, calling each pass in turn on the tree the one before it left. */
  method RemarkTufte(tree: Node, options: Option<Options.TufteOptions>) returns (r: Result<Node, Failure>)
    ensures Linter.Lint(tree).Fail? ==> r == Err(Linter.Lint(tree).error)
    ensures r == TufteRun(tree, options, true)
  {
    var lint := Linter.Lint(tree);
    if lint.Fail? {
      return Err(lint.error);
    }
    var sectioned := Sections.Sectionize(tree, Options.SectionizeHeading(options), Options.SectionizeNewthoughtAsWritten(options));
    var epigraphs := Directives.HandleEpigraph(sectioned);
    var figures := Figures.HandleFigures(epigraphs);
    if figures.Err? {
      return Err(figures.error);
    }
    var notes := Notes.HandleNotes(figures.value);
    if notes.Err? {
      return Err(notes.error);
    }
    r := Ok(Directives.Fullwidths(notes.value));
  }

  /** A tree the transformer accepts obeys every rule of the linter. */
  lemma AcceptedTreesLint(tree: Node, options: Option<Options.TufteOptions>, asWritten: bool)
    requires TufteRun(tree, options, asWritten).Ok?
    ensures forall n :: n in PreOrder(tree) ==> Linter.CheckHeading(n).Pass? && Linter.CheckDirective(n).Pass?
    ensures forall v :: v in PreOrderVisits(tree, []) ==> Linter.CheckSpanVisit(v).Pass?
  {
    Linter.LintAcceptsIff(tree);
  }

  /** A heading deeper than three aborts the run, whatever the options. */
  lemma DeepHeadingAborts(tree: Node, options: Option<Options.TufteOptions>, asWritten: bool, k: nat)
    requires k < |PreOrder(tree)| && PreOrder(tree)[k].kind == "heading" && Linter.Depth(PreOrder(tree)[k]) > 3
    ensures TufteRun(tree, options, asWritten).Err?
  {
    Linter.LintAcceptsIff(tree);
    assert !Linter.CheckHeading(PreOrder(tree)[k]).Pass?;
  }
}
