# Tufte book transforms in Dafny

This project models the tree transforms of a Markdown-to-HTML pipeline for a book
laid out in the style of Edward Tufte. It covers five plugins:

- `remarkCite` recognizes textual citations `@key [suffix]` inside text nodes and
  splices in a `text-cite` node.
- `remarkTufte` runs its passes in order:
  1. a schema linter (headings, bracketed spans, directives);
  2. the sectionizer;
  3. the epigraph pass;
  4. the figure passes (margin figures, main-text figures, iframes);
  5. the note passes (footnotes become side or margin notes, margin spans become margin notes);
  6. the full-width pass.
- `remarkRehypeCite` renders citations as a toggle label, a checkbox and a margin
  note. It keeps a reference-collision counter shared by its two handlers.
- `remarkRehypeTufte` renders side notes and margin notes the same way.
- `rehypeTufte` unwraps `div.fullwidth` into its parent. Before that it widens every
  `figure` and `pre` inside the div.

Both tree grammars, mdast and hast, are one `Tree.Node` value. A node has:

- a kind;
- its fields;
- its `properties`/`attributes`;
- its `data` and `data.hProperties` hints;
- its children.

Each walk of the unist traversal library is modelled with the library's own semantics:

- pre-order;
- `SKIP` does not descend;
- after the visitor splices, the walk resumes at `index + 1`.

How each kind of source code is modelled:

- Walks that splice siblings in place are methods with loops. Each is proved
  against a specification function: `CiteRecognizer.CiteWalkAll`,
  `Figures.MarginFiguresWalkAll`, `Figures.MainFiguresWalkAll` and
  `RehypeFullwidth.UnwrapWalkAll`.
- Buffers and counters the source updates are state:
  - the section buffer is a method's local variable;
  - the figure-label map is the class `Labels.LabelCollisionMap`;
  - the citation-reference map is a field of the class `CiteRender.CiteHandlers`.
- Read-only checks and pure rewrites are functions with lemmas.

Two points about the citation key in `remarkCite`:

- The separator class of the key is written `[:.#$%&-+?<>~\/]`. The `&-+` in it is
  the range `&`..`+`, so a hyphen ends a key. `CiteRecognizer.IsSep` follows the
  expression as written.
- A `text-cite` key of `data.key` that is missing is read as the empty string.

## Model

| member | source | states |
|---|---|---|
| Options.SectionizeHeading | src/plugins/remark-tufte.ts:43-45 | the section heading depth is the `sectionize.heading` option, 2 when absent |
| Options.NewthoughtOptionIgnoredAsWritten | src/plugins/remark-tufte.ts:47-49 | as written, asking for newthought sections without a heading option leaves them off, and a heading option turns them on even with `newthought: false` |
| Options.NewthoughtFollowsHeadingAsWritten | src/plugins/remark-tufte.ts:47-49 | as written, newthought sectioning is on exactly when the heading option is a non-zero number |
| Options.NewthoughtIndependentOfHeading | src/plugins/remark-tufte.ts:36-41 | corrected reading: newthought sectioning depends only on the `newthought` option, and is on exactly when it is `true` |
| Options.DefaultsWithoutOptions | src/plugins/remark-tufte.ts:43-49 | without options, sections start at depth-2 headings and newthought sectioning is off in both readings |
| Linter.CheckHeading | src/plugins/remark-tufte.ts:86-94 | a heading fails with `max-heading-depth` exactly when its depth exceeds 3 (the default 2 plus one, as the linter gets no options) |
| Linter.RoleOf | src/plugins/remark-tufte.ts:100-187 | a span's role is the first of newthought, cite, footer, margin among its classes, each role holding exactly when no earlier one is present |
| Linter.FindEpigraph | src/plugins/remark-tufte.ts:125-127 | the ancestor search succeeds exactly when some ancestor is an epigraph container directive |
| Linter.CheckSpan | src/plugins/remark-tufte.ts:96-192 | a span passes exactly when its class list is an array and it satisfies the rules of its role; a non-array class list, an unsupported span and an extra margin class each fail with their own error |
| Linter.CheckDirective | src/plugins/remark-tufte.ts:194-257 | leaf and text directives fail; a container passes exactly when it is an epigraph or fullwidth with no attributes, or an iframe whose attribute names are among the five allowed |
| Linter.FirstFailure | src/plugins/remark-tufte.ts:78-82 | a pass succeeds exactly when every node passes, and otherwise reports the first failing node in visiting order |
| Linter.LintAcceptsIff | src/plugins/remark-tufte.ts:70-258 | the linter accepts a tree exactly when every heading, every span (with its ancestors) and every directive obeys its rule |
| Linter.TooDeepHeadingReportedFirst | src/plugins/remark-tufte.ts:86-96 | when a heading is too deep, the error is the first such heading in document order, whatever spans or directives are wrong too |
| Linter.MarginSpanNeedsIdOrImage | src/plugins/remark-tufte.ts:179-184 | a margin span with class `margin`, only permitted properties (any `label`) and no string `id` passes exactly when it has an image child, and otherwise fails with the missing-id error |
| Linter.NewthoughtWinsOverCite | src/plugins/remark-tufte.ts:100-112 | a span with classes newthought and cite is judged as a newthought span and rejected for its extra class |
| Sections.SectionNode | src/plugins/remark-tufte.ts:313-317 | a section node has kind `section`, the given children and the `section` tag hint |
| Sections.Sectionize | src/plugins/remark-tufte.ts:275-333 | the loop with its buffer replaces the root's children by one section per group of the split at section starts |
| Sections.SplitKeepsOrder | src/plugins/remark-tufte.ts:321-329 | after every node, the emitted sections followed by the buffer are exactly the nodes seen so far, and the buffer is non-empty |
| Sections.SplitInvariant | src/plugins/remark-tufte.ts:306-329 | after every node, emitted sections are non-empty, only their first node may be a section start, and every section but the first begins with one |
| Sections.GroupsPartition | src/plugins/remark-tufte.ts:301-332 | the sections' contents, concatenated, are the original children in order, and the sections are well grouped |
| Sections.GroupsOfNothing | src/plugins/remark-tufte.ts:322-330 | an empty document yields no section |
| Sections.NoStartOneSection | src/plugins/remark-tufte.ts:322-330 | a non-empty document with no section start becomes exactly one section |
| Sections.GroupsUnique | src/plugins/remark-tufte.ts:306-330 | any well-grouped partition of the children in order is the one the pass produces |
| Sections.TwoHeadingsTwoSections | src/plugins/remark-tufte.ts:277-279 | two depth-2 headings with paragraphs give two sections, each starting at its heading |
| Directives.MarkDiv | src/plugins/remark-tufte.ts:425-428 | the hint is tag `div` with class list `[className]`, and nothing else of the node changes |
| Directives.SpanTag | src/plugins/remark-tufte.ts:432-447 | a span inside an epigraph gets tag `cite` when its class array holds cite, else `footer` when it holds footer, and no tag otherwise |
| Directives.EpigraphsKeepContent | src/plugins/remark-tufte.ts:421-450 | the epigraph pass changes rendering hints only |
| Directives.EpigraphsMarkAll | src/plugins/remark-tufte.ts:422-429 | every epigraph directive of the result carries the `div.epigraph` hint |
| Directives.NoEpigraphNoChange | src/plugins/remark-tufte.ts:422 | a tree without an epigraph directive is unchanged |
| Directives.EpigraphsIdempotent | src/plugins/remark-tufte.ts:421-450 | running the epigraph pass twice gives what running it once does |
| Directives.InnerWalkSkipsNestedSpans | src/plugins/remark-tufte.ts:431-448 | the inner walk returns `SKIP` at every span, so a footer span nested in a cite span gets no tag |
| Directives.FullwidthsKeepContent | src/plugins/remark-tufte.ts:611-625 | the full-width pass changes rendering hints only |
| Directives.FullwidthsMarkAll | src/plugins/remark-tufte.ts:612-623 | every fullwidth container of the result carries the `div.fullwidth` hint |
| Labels.ResolveLabel | src/plugins/remark-tufte.ts:463-472 | a first request returns the label and records 1; a later one returns `label-k`, k being the recorded count |
| Labels.LabelCollisionMap.Resolve | src/plugins/remark-tufte.ts:463-472 | the method updates the map in place as `ResolveLabel` prescribes |
| Labels.ResolveAllAppend | src/plugins/remark-tufte.ts:461-472 | two runs of requests in a row, sharing the map, are one run of their concatenation |
| Labels.ResolveAllCounts | src/plugins/remark-tufte.ts:461-472 | from an empty map, the map afterwards holds for each label exactly its number of requests |
| Labels.ResolveAllClosedForm | src/plugins/remark-tufte.ts:461-472 | the request preceded by n requests for label L gets L when n = 0 and `L-n` otherwise, and the final counts are the request counts |
| Labels.ResolveAllLabels | src/plugins/remark-tufte.ts:464-470 | each label handed out is the request numbered by its earlier requests for the same label |
| Labels.NumberedLabelsMayRepeat | src/plugins/remark-tufte.ts:464-470 | requests `fig`, `fig-1`, `fig` hand out `fig-1` twice: numbered labels can repeat a given one |
| Labels.BaseName | src/plugins/remark-tufte.ts:476 | the base name holds no slash and is a prefix of the path's last segment |
| Labels.BaseNameDropsExtension | src/plugins/remark-tufte.ts:476 | directories and the last extension are dropped, and dots inside the name are kept |
| Labels.BaseNameKeepsDotFile | src/plugins/remark-tufte.ts:476 | a dot file keeps its leading dot |
| Figures.SpanClasses | src/plugins/remark-tufte.ts:502-503 | a span's class list fails exactly when it is present, not null and not an array |
| Figures.MarginFiguresAllFailurePersists | src/plugins/remark-tufte.ts:499-503 | once the walk over a prefix of the siblings fails, the whole walk fails the same way |
| Figures.MarginFiguresWalk | src/plugins/remark-tufte.ts:499-520 | the margin walk with the shared label map computes the margin-figure specification and leaves the map it prescribes |
| Figures.MarginFiguresWalkAll | src/plugins/remark-tufte.ts:499-520 | the sibling loop, splicing each margin note and the images' title texts in place, computes the specification |
| Figures.TitleNote | src/plugins/remark-tufte.ts:531-538 | an image yields at most one title note |
| Figures.FigureTitle | src/plugins/remark-tufte.ts:531-538 | the title note asks the label map in place exactly as the specification does |
| Figures.MainFiguresWalk | src/plugins/remark-tufte.ts:525-552 | the main-figure walk with the shared label map computes the specification |
| Figures.MainFiguresWalkAll | src/plugins/remark-tufte.ts:525-552 | the sibling loop, replacing images under paragraphs and the root by figure paragraphs, computes the specification |
| Figures.IframeProperties | src/plugins/remark-tufte.ts:582-588 | the iframe keeps src, width and height when present, a numeric width or height read as a number; `frameBorder` defaults to `"0"`; `allowFullScreen` is the truthiness of the attribute |
| Figures.NumberAttributeReadsDecimal | src/plugins/remark-tufte.ts:583-584 | a width or height written in decimal is read back as that number; a string that is not a run of digits is kept |
| Figures.IframeWidthIsNumber | src/plugins/remark-tufte.ts:583 | `width="560"` gives the iframe the number 560 as its width |
| Figures.IframesAll | src/plugins/remark-tufte.ts:559-601 | the sibling walk succeeds exactly when every sibling's walk succeeds |
| Figures.IframesFailIffMissingSrc | src/plugins/remark-tufte.ts:567-574 | the iframe walk fails exactly when some iframe directive has no `src` |
| Figures.HandleFigures | src/plugins/remark-tufte.ts:459-602 | one label map serves the margin walk, then the main walk; the iframe walk follows; the first failure aborts |
| Figures.MainFiguresRequests | src/plugins/remark-tufte.ts:525-552 | the main walk asks the label map exactly for its titled figure images, in document order |
| Figures.MarginFiguresRequests | src/plugins/remark-tufte.ts:499-511 | a successful margin walk asks the label map exactly for its margin figures, in document order |
| Figures.MarginLabelsBeforeMainLabels | src/plugins/remark-tufte.ts:495-552 | every margin figure is labelled before any main-text figure |
| Figures.MarginFigureTakesLastUrl | src/plugins/remark-tufte.ts:486-491 | a margin figure is labelled after the last image or link url in its span |
| Notes.FlattenToPhrasing | src/plugins/remark-tufte.ts:358-374 | flattening yields phrasing nodes only, keeps a phrasing node as itself, and fails only on a non-phrasing node that is neither a definition nor a paragraph |
| Notes.FlattenIsFrontier | src/plugins/remark-tufte.ts:358-374 | flattening succeeds exactly when every node down to the phrasing content is a definition or paragraph, and then yields the phrasing frontier in order |
| Notes.CollectDefinitions | src/plugins/remark-tufte.ts:375-378 | the loop builds the definitions record of the tree's definitions in pre-order |
| Notes.DefinitionsLastWins | src/plugins/remark-tufte.ts:375-378 | an identifier is defined exactly when some definition carries it, and the last such definition wins |
| Notes.ResolveReference | src/plugins/remark-tufte.ts:379-393 | an undefined reference fails; otherwise the note is a margin note exactly when the identifier starts with `mn-`, and holds the flattened definition |
| Notes.ReferencesOkIff | src/plugins/remark-tufte.ts:379-393 | the reference walk succeeds exactly when every reference it meets resolves |
| Notes.MarginSpansOkIff | src/plugins/remark-tufte.ts:394-398 | the margin-span walk fails exactly when some bracketed span has a class list that is not an array |
| Notes.MarginSpansLeaveNone | src/plugins/remark-tufte.ts:394-411 | after a successful walk no margin span is left in the tree |
| Notes.AsWrittenIdentifierIsUndefined | src/plugins/remark-tufte.ts:402 | as written, every margin span the linter accepts gets the note identifier `"undefined"` |
| Notes.AsWrittenMarginNotesCollide | src/plugins/remark-tufte.ts:402 | as written, two margin spans with different ids get the same note identifier |
| Notes.MarginNoteKeepsId | src/plugins/remark-tufte.ts:402 | reading `id`, a margin note keeps its span's id, so distinct ids stay distinct |
| Notes.HandleNotes | src/plugins/remark-tufte.ts:357-412 | the definitions are collected first, then references and margin spans are rewritten, with the margin-span identifier read from `identifier` as written |
| Tufte.RemarkTufte | src/plugins/remark-tufte.ts:51-63 | a linter failure ends the run with its error; otherwise the six passes run in order, each failure aborting, with the newthought switch and the margin-span identifier as written |
| Tufte.AcceptedTreesLint | src/plugins/remark-tufte.ts:56-61 | a tree the transformer accepts, as written or corrected, obeys every linter rule |
| Tufte.DeepHeadingAborts | src/plugins/remark-tufte.ts:86-94 | a heading deeper than three aborts the run whatever the options |
| CiteRecognizer.KeyEnd | src/plugins/remark-cite.ts:34 | the greedy key end: a key that cannot be extended by a character or a separator-and-character pair |
| CiteRecognizer.KeyMaximalUnique | src/plugins/remark-cite.ts:34 | a maximal key starting at a position is unique |
| CiteRecognizer.ParseBracketSound | src/plugins/remark-cite.ts:34 | a parsed `\s*[suffix]` group is well formed and is a prefix of the text |
| CiteRecognizer.ParseBracketComplete | src/plugins/remark-cite.ts:34 | every well-formed bracket group followed by any text is parsed back |
| CiteRecognizer.MatchAtSound | src/plugins/remark-cite.ts:34 | the attempt at a position yields a match of the expression whose `before` has that length |
| CiteRecognizer.MatchAtComplete | src/plugins/remark-cite.ts:34 | for every way the expression can match, the attempt at that `before` length succeeds |
| CiteRecognizer.Recognize | src/plugins/remark-cite.ts:41 | a recognized match splits the text as before, `@`, key, bracket, after, with no line terminator outside the bracket |
| CiteRecognizer.RecognizeIsLast | src/plugins/remark-cite.ts:34 | the match found has the longest `before` with which the expression matches |
| CiteRecognizer.RecognizeIsGreedy | src/plugins/remark-cite.ts:34 | whenever the expression can match, the recognizer matches, with a `before` at least as long |
| CiteRecognizer.RecognizeNoneIff | src/plugins/remark-cite.ts:41-42 | no match exactly when the expression matches no way at all |
| CiteRecognizer.RecognizeTakesLongestKey | src/plugins/remark-cite.ts:34 | the key is maximal and an unbracketed match leaves no bracket group at the start of `after` |
| CiteRecognizer.CiteNode | src/plugins/remark-cite.ts:48-56 | the `text-cite` node has value `@key`, data key, and the suffix only when the bracket group took part |
| CiteRecognizer.CiteWalkAll | src/plugins/remark-cite.ts:38-63 | the sibling loop, splicing three nodes at each match and resuming after the first, computes the walk's specification |
| CiteRecognizer.RemarkCite | src/plugins/remark-cite.ts:37-64 | the transformer is the walk with the citation expression as matcher |
| CiteRecognizer.CitesNoMatch | src/plugins/remark-cite.ts:41-42 | with no text node that matches, the tree is unchanged |
| CiteRecognizer.CitesSplicesThree | src/plugins/remark-cite.ts:43-61 | a matched node whose `after` holds no match is replaced by exactly before text, cite node and after text |
| CiteRecognizer.AfterRematchNeedsLineBreak | src/plugins/remark-cite.ts:34-61 | the `after` text, visited in turn, can hold a second citation only when the first one's bracket spans a line break |
| CiteRender.ItemEntries | src/plugins/remarkRehype-cite.ts:60-65 | each item becomes the entry with its key, prefix, suffix and suppress-author flag, in order |
| CiteRender.ArrayOfOneIsNotSingle | src/plugins/remarkRehype-cite.ts:57-85 | an array of one item is one citation request with options; a single item is an author-only request and a suppress-author request joined by a space |
| CiteRender.SingleIgnoresAuthorFlags | src/plugins/remarkRehype-cite.ts:67-85 | for a single item, its own author flags do not change the text |
| CiteRender.MarkDivsLeavesNoDiv | src/plugins/remarkRehype-cite.ts:106-113 | no `div` is left in a parsed bibliography entry |
| CiteRender.DivBecomesSpan | src/plugins/remarkRehype-cite.ts:106-113 | a div becomes a span with `data-cite-key` the entry's key and `inline-bib-entry` in its classes, other properties kept |
| CiteRender.MarkDivsWithoutDivs | src/plugins/remarkRehype-cite.ts:106-113 | an entry without divs is unchanged |
| CiteRender.ParseEntries | src/plugins/remarkRehype-cite.ts:104-115 | each entry's fragment is parsed and has its divs rewritten with its own key, in order |
| CiteRender.FormatBibliography | src/plugins/remarkRehype-cite.ts:89-117 | the bibliography fails exactly when the formatter does; otherwise all entries, in order, are wrapped in `span.inline-bib` |
| CiteRender.InlineCite | src/plugins/remarkRehype-cite.ts:120-152 | a text failure leaves the counts; otherwise the reference's count goes up by one; a success is a label `margin-toggle margin-toggle--always-display` whose `htmlFor` is the white-space tokens of the control id, wrapping a `margin-toggle--label` span with the formatted citation text, then the checkbox `margin-toggle` with that id, then a `marginnote` span holding the formatted bibliography |
| CiteRender.CiteHandlers.constructor | src/plugins/remarkRehype-cite.ts:154-155 | the handlers start with an empty collision map |
| CiteRender.CiteHandlers.Render | src/plugins/remarkRehype-cite.ts:120-152 | one render updates the shared map in place as `InlineCite` prescribes |
| CiteRender.CiteHandlers.Cite | src/plugins/remarkRehype-cite.ts:157-169 | the `cite` handler renders the item array, with no fallback |
| CiteRender.CiteHandlers.TextCite | src/plugins/remarkRehype-cite.ts:170-186 | the `text-cite` handler renders one item and falls back to the node's text on any failure |
| CiteRender.RepeatedReferenceDistinctIds | src/plugins/remarkRehype-cite.ts:127-130 | a later render of the same reference gets a different control id |
| CiteRender.CountsNeverShrink | src/plugins/remarkRehype-cite.ts:128-129 | no render lowers a reference's count |
| CiteRender.IdsOfDifferentReferencesCollide | src/plugins/remarkRehype-cite.ts:130 | reference `a1` with count 1 and reference `a` with count 11 both get the id `a11` |
| CiteRender.FailureAndCounts | src/plugins/remarkRehype-cite.ts:125-129 | a text failure leaves the counts unchanged; a bibliography failure comes after the count went up |
| CiteRender.ToggleLabelPointsAtCheckbox | src/plugins/remarkRehype-cite.ts:129-142 | for a reference without white space, the label's `htmlFor` is the single token that is the checkbox's id |
| Tree.TokensKeepText | src/plugins/remarkRehype-cite.ts:134 | the `htmlFor` tokens of a `for` value hold exactly its characters that are not white space, in order, and no token is empty or holds white space |
| CiteRender.SuccessiveRendersDistinctIds | src/plugins/remarkRehype-cite.ts:127-130 | rendering the same items twice gives two different control ids |
| NoteRender.NoteToHast | src/plugins/remarkRehype-tufte.ts:15-66 | a side or margin note renders as three elements, the label's `htmlFor` being the white-space tokens of the identifier and the checkbox's `id` the identifier itself; the number class is there exactly for side notes and the always-display class exactly for labelled margin notes; the span holds the rendered children |
| NoteRender.LabelPointsAtCheckbox | src/plugins/remarkRehype-tufte.ts:22-62 | for an identifier without white space, the label's `htmlFor` is the single token that is the checkbox's id |
| NoteRender.ReferenceNumberedUnlessMn | src/plugins/remarkRehype-tufte.ts:22-41 | a resolved footnote renders numbered unless its identifier starts with `mn-`, and then with the `⊕` toggle |
| NoteRender.LabelledMarginNoteShowsLabel | src/plugins/remarkRehype-tufte.ts:42-52 | a labelled margin note's label wraps its text in `span.margin-toggle--label` |
| RehypeFullwidth.Widen | src/plugins/rehype-tufte.ts:16-19 | a falsy or missing class list becomes `["fullwidth"]`; an array gains `fullwidth` at its end even when it holds it already; any other value is left alone |
| RehypeFullwidth.Mark | src/plugins/rehype-tufte.ts:15-26 | marking keeps kinds, fields and shape, and neither creates nor removes a full-width div |
| RehypeFullwidth.MarkWidens | src/plugins/rehype-tufte.ts:15-26 | every figure and pre of a marked subtree has a truthy class list that holds `fullwidth` when it is an array |
| RehypeFullwidth.UnwrapWalkAll | src/plugins/rehype-tufte.ts:9-28 | the sibling loop, splicing each full-width div's marked children in place and resuming at the next index, computes the walk's specification |
| RehypeFullwidth.RehypeTufte | src/plugins/rehype-tufte.ts:7-29 | the transformer is the walk as written |
| RehypeFullwidth.UnwrapFlat | src/plugins/rehype-tufte.ts:12-14 | a tree with no full-width div, including other divs and divs with a non-array class, is unchanged |
| RehypeFullwidth.UnwrapOneDiv | src/plugins/rehype-tufte.ts:27 | a single full-width div is replaced at its index by its marked children, and the other siblings keep their order |
| RehypeFullwidth.EmptyDivSkipsNextSibling | src/plugins/rehype-tufte.ts:27-28 | as written, an empty full-width div makes the walk pass over its next sibling, so a full-width div right after it stays wrapped |
| RehypeFullwidth.ResumingAtIndexUnwrapsAll | src/plugins/rehype-tufte.ts:27-28 | resuming at the div's own index leaves no full-width div below the root |

## Left out

- Positions, message texts and rule sources of `file.fail`: a failure is the `Diagnostics.Failure` value that names the rule and the offending node.
- `assert` on `index` and `parent` in the visitors is not modelled. The root is never a text node, a reference, a span or a div, so the asserts cannot fail on the trees the pipeline builds.
- Labels.BaseName: URL and file-URL parsing (`URL.parse`, `pathToFileURL`, percent-encoding) is not modelled. The base name is taken from the url string as a path.
- Figures.Url: a missing `url` reads as the empty string.
- Figures: images and text nodes are treated as leaves by the walks.
- Citation formatting (citation-js `Cite.format`), bibliography loading (`loadBibTeX`, `loadCsl`, `parseBibTeX`) and `fromHtml` are parameters: `CiteRender.Services`. Formatter options are not modelled beyond the array/single distinction.
- `state.all` and `state.patch` of the Markdown-to-HTML conversion: the rendered children of a note are a parameter, and positions are not patched.
- hastscript property normalisation is written out where the source relies on it: `class` as the `className` token list, `for` as the `htmlFor` token list (`Tree.Tokens`, the value split on white space), `frameborder` as `frameBorder`, `allowfullscreen` as `allowFullScreen`, and the number parsing of an iframe's width and height. The rest of hastscript (property information for other names) is not modelled.
- Tree.Tokens: the value is split on space, tab, line feed, carriage return and form feed. Other white space that `trim` removes at the ends of the value (vertical tab, no-break and other Unicode spaces) stays part of the first or last token.
- Figures.IframeProperties: a width or height is read as a number only when it is a non-empty run of decimal digits. The other strings that `Number` reads (a sign, a fraction, an exponent, hexadecimal, surrounding white space) stay strings, because a property value here has no floating-point number.
- Labels.ResolveLabel: the three plain-object records of the source are modelled as maps, so a key that names an `Object.prototype` member (`constructor`, `toString`, ...) does not read the inherited value. These records are `labelCollisionMap` (`Labels.ResolveLabel`), `referenceCollisionMap` (`CiteRender.CountOf`, `CiteRender.InlineCite`) and `definitions` (`Notes.DefinitionsOf`). For example, the source labels a figure `constructor.png` as `constructor-function Object() { [native code] }`, and the model labels it `constructor`.
- Aliasing of live objects:
  - the definitions record holds definitions as collected, not as later mutated;
  - in-place updates are modelled on tree values.
- RehypeFullwidth.RehypeTufte: after the splice, the walk also descends into the div's own, now detached, child array. The model does not follow that descent. It only matters for a full-width div inside another one: the source then widens the inner div's figures more than once and can leave the inner div wrapped.
- Tufte.RemarkTufte and Notes.HandleNotes compose the program as written: the newthought switch reads the heading option, and a margin span's note identifier is `"undefined"`. The corrected readings are composed by `Tufte.TufteRun` with `asWritten` false.
- Tufte: the plugin order of the build configuration (`remarkCite` before `remarkTufte`, the renderers, then `rehypeTufte`) is stated here, not composed in Dafny. Other plugins of the build (math, slugs, heading anchors, smart quotes) are not part of this model.
- The tokenizers that build `cite`, `bracketedSpan` and directive nodes are not part of this model.

## Findings

| source | as written | input that shows it | evidently intended | confidence | as-written member | corrected member |
|---|---|---|---|---|---|---|
| src/plugins/remark-tufte.ts:402 | a margin span's note identifier is `String(span.properties.identifier)` | `[note]{.margin #side}`: the span has `id` "side" and no `identifier`, so the note identifier is `"undefined"`, the same for every margin span | the identifier is the span's `id`, which the linter requires of every margin span without an image (lines 180-183) | high, not executed | Notes.AsWrittenIdentifierIsUndefined | Notes.MarginNoteKeepsId |
| src/plugins/remark-tufte.ts:47-49 | `sectionizeNewthought` returns `!!options?.sectionize?.heading` | `{sectionize: {newthought: true}}` leaves newthought sectioning off; `{sectionize: {heading: 2, newthought: false}}` turns it on | the switch is the `newthought` option (documented at lines 39-40) | high, not executed | Options.NewthoughtOptionIgnoredAsWritten | Options.NewthoughtIndependentOfHeading |
| src/plugins/rehype-tufte.ts:27-28 | after splicing a div's children in place, the walk resumes at `index + 1` | `<div class="fullwidth"></div><div class="fullwidth"><figure></figure></div>`: the empty div is removed, the second div moves to its index and is passed over, so it stays wrapped and its figure is not widened | every full-width div is unwrapped (resume at `index`) | medium, not executed | RehypeFullwidth.EmptyDivSkipsNextSibling | RehypeFullwidth.ResumingAtIndexUnwrapsAll |
