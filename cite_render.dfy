/**
 * The citation handlers of `remarkRehypeCite`: a citation node becomes a margin
 * toggle (label, checkbox, margin note holding the bibliography entries), with a
 * control id made unique by a reference-collision counter shared by both handlers.
 * The citation-js formatter and the HTML fragment parser are parameters.
 */
module CiteRender {
  import opened Wrappers
  import opened Tree

  /** An exception thrown by the formatter, which the handlers propagate or catch. */
  datatype CiteError = Thrown(message: string)

  /** One cited item: `{key, prefix?, suffix?, suppressAuthor?, authorInText?}`. */
  datatype CiteItem = CiteItem(key: string, prefix: Option<string>, suffix: Option<string>,
                               suppressAuthor: Option<bool>, authorInText: Option<bool>)

  /** What the handlers pass on: an array of items (`cite`) or a single item (`text-cite`). */
  datatype CiteItems = Many(items: seq<CiteItem>) | One(item: CiteItem)

  /** An entry of a `citation` request: `{id, prefix, suffix, "suppress-author", "author-only"}`. */
  datatype Entry = Entry(id: string, prefix: Option<string>, suffix: Option<string>,
                         suppressAuthor: Option<bool>, authorOnly: bool)

  /** `cite.format("citation", {entry, ...})`; `withOptions` says whether the handler's options are spread in. */
  datatype Request = Request(entries: seq<Entry>, withOptions: bool)

  /** One entry of `format("bibliography", {asEntryArray: true, ...})`: the key and its HTML. */
  datatype BibEntry = BibEntry(key: string, html: string)

  /** The external services: citation-js formatting and `fromHtml` fragment parsing. */
  datatype Services = Services(
    citation: Request -> Result<string, CiteError>,
    bibliography: seq<string> -> Result<seq<BibEntry>, CiteError>,
    fromHtml: string -> Node)

  function ItemEntries(items: seq<CiteItem>): (r: seq<Entry>)
    ensures |r| == |items|
    ensures forall i :: 0 <= i < |items| ==> r[i] == Entry(items[i].key, items[i].prefix, items[i].suffix, items[i].suppressAuthor, false)
  {
    if items == [] then []
    else [Entry(items[0].key, items[0].prefix, items[0].suffix, items[0].suppressAuthor, false)] + ItemEntries(items[1..])
  }

  /**
   * `formatCiteText`: an array is formatted in one request with the options; a single
   * item is formatted twice without them, author only and then without the author,
   * and the two are joined by a space.
   */
  function FormatCiteText(items: CiteItems, citation: Request -> Result<string, CiteError>): Result<string, CiteError> {
    match items
    case Many(xs) => citation(Request(ItemEntries(xs), true))
    case One(x) =>
      var author :- citation(AuthorOnly(x));
      var rest :- citation(SuppressAuthor(x));
      Ok(author + " " + rest)
  }

  function AuthorOnly(x: CiteItem): Request {
    Request([Entry(x.key, None, None, None, true)], false)
  }

  function SuppressAuthor(x: CiteItem): Request {
    Request([Entry(x.key, x.prefix, x.suffix, Some(true), false)], false)
  }

  /** The branch depends only on the array test: one item in an array is formatted like any array. */
  lemma ArrayOfOneIsNotSingle(x: CiteItem, citation: Request -> Result<string, CiteError>)
    ensures FormatCiteText(Many([x]), citation) == citation(Request([Entry(x.key, x.prefix, x.suffix, x.suppressAuthor, false)], true))
    ensures FormatCiteText(One(x), citation).Ok? ==>
      FormatCiteText(One(x), citation).value == citation(AuthorOnly(x)).value + " " + citation(SuppressAuthor(x)).value
  {
    assert ItemEntries([x]) == [Entry(x.key, x.prefix, x.suffix, x.suppressAuthor, false)];
  }

  /** The requests of a single item ignore `authorInText` and `suppressAuthor`. */
  lemma SingleIgnoresAuthorFlags(x: CiteItem, y: CiteItem, citation: Request -> Result<string, CiteError>)
    requires x.key == y.key && x.prefix == y.prefix && x.suffix == y.suffix
    ensures FormatCiteText(One(x), citation) == FormatCiteText(One(y), citation)
  {
    assert AuthorOnly(x) == AuthorOnly(y) && SuppressAuthor(x) == SuppressAuthor(y);
  }

  function ItemArray(items: CiteItems): seq<CiteItem> {
    match items
    case Many(xs) => xs
    case One(x) => [x]
  }

  function Keys(items: seq<CiteItem>): (r: seq<string>)
    ensures |r| == |items| && forall i :: 0 <= i < |items| ==> r[i] == items[i].key
  {
    if items == [] then [] else [items[0].key] + Keys(items[1..])
  }

  /** `node.properties.className`, with `inline-bib-entry` appended (an array is created when there is none). */
  function EntryClasses(props: map<string, Prop>): seq<string> {
    (if "className" in props && props["className"].Strs? then props["className"].items else []) + ["inline-bib-entry"]
  }

  /** The `div` visitor of one bibliography entry: every div, at any depth, becomes a span that carries the entry's key. */
  function MarkDivs(n: Node, key: string): Node
    decreases n, 1
  {
    var kids := MarkDivsAll(n.children, key);
    if IsElement(n, "div") then
      n.(fields := n.fields["tagName" := Str("span")],
         props := n.props["data-cite-key" := Str(key)]["className" := Strs(EntryClasses(n.props))],
         children := kids)
    else n.(children := kids)
  }

  function MarkDivsAll(cs: seq<Node>, key: string): (r: seq<Node>)
    decreases cs, 0
    ensures |r| == |cs|
  {
    if cs == [] then [] else [MarkDivs(cs[0], key)] + MarkDivsAll(cs[1..], key)
  }

  /** After the visit no div is left in the entry. */
  lemma {:induction false} MarkDivsLeavesNoDiv(n: Node, key: string)
    ensures forall m :: m in PreOrder(MarkDivs(n, key)) ==> !IsElement(m, "div")
    decreases n, 1
  {
    MarkDivsAllLeavesNoDiv(n.children, key);
  }

  lemma {:induction false} MarkDivsAllLeavesNoDiv(cs: seq<Node>, key: string)
    ensures forall m :: m in PreOrderAll(MarkDivsAll(cs, key)) ==> !IsElement(m, "div")
    decreases cs, 0
  {
    if cs != [] {
      MarkDivsLeavesNoDiv(cs[0], key);
      MarkDivsAllLeavesNoDiv(cs[1..], key);
      assert MarkDivsAll(cs, key)[0] == MarkDivs(cs[0], key);
      assert MarkDivsAll(cs, key)[1..] == MarkDivsAll(cs[1..], key);
    }
  }

  /** Every div becomes a span with the key and the entry class, and keeps its other properties. */
  lemma DivBecomesSpan(n: Node, key: string)
    requires IsElement(n, "div")
    ensures IsElement(MarkDivs(n, key), "span")
    ensures MarkDivs(n, key).props["data-cite-key"] == Str(key)
    ensures MarkDivs(n, key).props["className"].Strs? && "inline-bib-entry" in MarkDivs(n, key).props["className"].items
    ensures forall p :: p in n.props && p !in {"data-cite-key", "className"} ==> MarkDivs(n, key).props[p] == n.props[p]
  {
  }

  /** An entry without divs is left as parsed. */
  lemma {:induction false} MarkDivsWithoutDivs(n: Node, key: string)
    requires forall m :: m in PreOrder(n) ==> !IsElement(m, "div")
    ensures MarkDivs(n, key) == n
    decreases n, 1
  {
    MarkDivsAllWithoutDivs(n.children, key);
  }

  lemma {:induction false} MarkDivsAllWithoutDivs(cs: seq<Node>, key: string)
    requires forall m :: m in PreOrderAll(cs) ==> !IsElement(m, "div")
    ensures MarkDivsAll(cs, key) == cs
    decreases cs, 0
  {
    if cs != [] {
      MarkDivsWithoutDivs(cs[0], key);
      MarkDivsAllWithoutDivs(cs[1..], key);
    }
  }

  /** The children `h` adds for a list of nodes: a root fragment contributes its children. */
  function Flatten(ns: seq<Node>): seq<Node> {
    if ns == [] then []
    else (if ns[0].kind == "root" then ns[0].children else [ns[0]]) + Flatten(ns[1..])
  }

  function ParseEntries(entries: seq<BibEntry>, fromHtml: string -> Node): (r: seq<Node>)
    ensures |r| == |entries|
    ensures forall i :: 0 <= i < |entries| ==> r[i] == MarkDivs(fromHtml(entries[i].html), entries[i].key)
  {
    if entries == [] then []
    else [MarkDivs(fromHtml(entries[0].html), entries[0].key)] + ParseEntries(entries[1..], fromHtml)
  }

  /** `formatBibliography`: the entries of the items' keys, in order, inside `span.inline-bib`. */
  function FormatBibliography(items: seq<CiteItem>, services: Services): (r: Result<Node, CiteError>)
    ensures services.bibliography(Keys(items)).Err? <==> r.Err?
    ensures r.Ok? ==> IsElement(r.value, "span") && r.value.props == map["className" := Strs(["inline-bib"])]
    ensures r.Ok? ==> r.value.children == Flatten(ParseEntries(services.bibliography(Keys(items)).value, services.fromHtml))
  {
    var entries :- services.bibliography(Keys(items));
    Ok(Element("span", map["className" := Strs(["inline-bib"])], Flatten(ParseEntries(entries, services.fromHtml))))
  }

  /** `referenceWithCount`: the joined keys immediately followed by the count. */
  function ControlId(reference: string, count: nat): string {
    reference + NatToString(count)
  }

  /**
   * What a citation shows: a label for the checkbox holding the formatted text in a
   * `margin-toggle--label` span, the checkbox itself, and the margin note holding the
   * bibliography. The label's `for` is the white-space token list of the id, as
   * hastscript stores a space-separated property; the checkbox's `id` is the id itself.
   */
  predicate ShowsCitation(r: seq<Node>, id: string, text: string, bibliography: Node) {
    && |r| == 3
    && IsElement(r[0], "label")
    && r[0].props == map["htmlFor" := Strs(Tokens(id)), "className" := Strs(["margin-toggle", "margin-toggle--always-display"])]
    && r[0].children == [Element("span", map["className" := Strs(["margin-toggle--label"])], [Text(text)])]
    && IsElement(r[1], "input")
    && r[1].props == map["type" := Str("checkbox"), "id" := Str(id), "className" := Strs(["margin-toggle"])]
    && r[1].children == []
    && IsElement(r[2], "span")
    && r[2].props == map["className" := Strs(["marginnote"])]
    && r[2].children == [bibliography]
  }

  /** The toggle label, the checkbox and the margin note of one citation. */
  function Toggle(id: string, text: string, bibliography: Node): (r: seq<Node>)
    ensures ShowsCitation(r, id, text, bibliography)
    ensures Get(r[0].props, "htmlFor") == Some(Strs(Tokens(id))) && Get(r[1].props, "id") == Some(Str(id))
  {
    [ Element("label", map["htmlFor" := Strs(Tokens(id)), "className" := Strs(["margin-toggle", "margin-toggle--always-display"])],
        [Element("span", map["className" := Strs(["margin-toggle--label"])], [Text(text)])]),
      Element("input", map["type" := Str("checkbox"), "id" := Str(id), "className" := Strs(["margin-toggle"])], []),
      Element("span", map["className" := Strs(["marginnote"])], [bibliography]) ]
  }

  function CountOf(counts: map<string, nat>, reference: string): nat {
    if reference in counts then counts[reference] else 0
  }

  /** A control id without white space is one token, so the label's `for` names exactly the checkbox's id. */
  lemma ToggleLabelPointsAtCheckbox(reference: string, count: nat, text: string, bibliography: Node)
    requires NoSpace(reference)
    ensures var r := Toggle(ControlId(reference, count), text, bibliography);
      && r[1].props["id"].Str?
      && r[0].props["htmlFor"] == Strs([r[1].props["id"].s])
  {
    var id := ControlId(reference, count);
    var digits := NatToString(count);
    assert forall i :: 0 <= i < |id| ==> !IsSpace(id[i]) by {
      forall i | 0 <= i < |id|
        ensures !IsSpace(id[i])
      {
        if i >= |reference| {
          assert id[i] == digits[i - |reference|];
        }
      }
    }
    TokensOfWord(id);
  }

  /** The result of one render and the collision map after it. */
  datatype Rendered = Rendered(result: Result<seq<Node>, CiteError>, counts: map<string, nat>)

  /**
   * `formatInlineCiteNode`: the text is formatted first, then the count of the
   * reference is raised, then the bibliography is formatted.
   */
  function InlineCite(items: CiteItems, counts: map<string, nat>, services: Services): (r: Rendered)
    ensures FormatCiteText(items, services.citation).Err? ==> r == Rendered(Err(FormatCiteText(items, services.citation).error), counts)
    ensures FormatCiteText(items, services.citation).Ok? ==>
      var reference := Join(Keys(ItemArray(items)), "-");
      r.counts == counts[reference := CountOf(counts, reference) + 1]
    ensures r.result.Ok? ==>
      var reference := Join(Keys(ItemArray(items)), "-");
      var id := ControlId(reference, CountOf(counts, reference) + 1);
      && FormatCiteText(items, services.citation).Ok? && FormatBibliography(ItemArray(items), services).Ok?
      && ShowsCitation(r.result.value, id, FormatCiteText(items, services.citation).value,
                       FormatBibliography(ItemArray(items), services).value)
  {
    match FormatCiteText(items, services.citation)
    case Err(e) => Rendered(Err(e), counts)
    case Ok(text) =>
      var reference := Join(Keys(ItemArray(items)), "-");
      var count := CountOf(counts, reference) + 1;
      var counts' := counts[reference := count];
      match FormatBibliography(ItemArray(items), services)
      case Err(e) => Rendered(Err(e), counts')
      case Ok(bibliography) => Rendered(Ok(Toggle(ControlId(reference, count), text, bibliography)), counts')
  }

  /** The `text-cite` item: the node's data with `authorInText: true`. */
  function TextCiteItem(node: Node): CiteItem {
    var key := if DataStr(node, "key").Some? then DataStr(node, "key").value else "";
    CiteItem(key, None, DataStr(node, "suffix"), None, Some(true))
  }

  /** The `text-cite` fallback: any throw gives back the node's text (`@key`, without the suffix). */
  function TextCiteOutput(node: Node, rendered: Rendered): seq<Node> {
    match rendered.result
    case Ok(nodes) => nodes
    case Err(_) => [Text(StrFieldOr(node, "value"))]
  }

  /** The handlers returned by one `remarkRehypeCite(options)` call, sharing one collision map. */
  class CiteHandlers {
    const services: Services
    var referenceCollisionMap: map<string, nat>

    constructor(services: Services)
      ensures this.services == services && referenceCollisionMap == map[]
    {
      this.services := services;
      referenceCollisionMap := map[];
    }

    /** `formatInlineCiteNode` on the shared map. */
    method Render(items: CiteItems) returns (r: Result<seq<Node>, CiteError>)
      modifies this
      ensures Rendered(r, referenceCollisionMap) == InlineCite(items, old(referenceCollisionMap), services)
    {
      var text := FormatCiteText(items, services.citation);
      if text.Err? {
        return Err(text.error);
      }
      var reference := Join(Keys(ItemArray(items)), "-");
      var count := CountOf(referenceCollisionMap, reference) + 1;
      referenceCollisionMap := referenceCollisionMap[reference := count];
      var bibliography := FormatBibliography(ItemArray(items), services);
      if bibliography.Err? {
        return Err(bibliography.error);
      }
      r := Ok(Toggle(ControlId(reference, count), text.value, bibliography.value));
    }

    /** The `cite` handler: the node's item array, with no fallback. */
    method Cite(citeItems: seq<CiteItem>) returns (r: Result<seq<Node>, CiteError>)
      modifies this
      ensures Rendered(r, referenceCollisionMap) == InlineCite(Many(citeItems), old(referenceCollisionMap), services)
    {
      r := Render(Many(citeItems));
    }

    /** The `text-cite` handler: a single item, and the node's text when anything throws. */
    method TextCite(node: Node) returns (r: seq<Node>)
      modifies this
      ensures var rendered := InlineCite(One(TextCiteItem(node)), old(referenceCollisionMap), services);
        r == TextCiteOutput(node, rendered) && referenceCollisionMap == rendered.counts
    {
      var result := Render(One(TextCiteItem(node)));
      r := if result.Ok? then result.value else [Text(StrFieldOr(node, "value"))];
    }
  }

  /** Two renders of the same reference get different control ids, whatever is rendered between them. */
  lemma RepeatedReferenceDistinctIds(reference: string, counts: map<string, nat>, later: map<string, nat>)
    requires CountOf(later, reference) >= CountOf(counts, reference) + 1
    ensures ControlId(reference, CountOf(later, reference) + 1) != ControlId(reference, CountOf(counts, reference) + 1)
  {
    var a, b := CountOf(later, reference) + 1, CountOf(counts, reference) + 1;
    if ControlId(reference, a) == ControlId(reference, b) {
      assert NatToString(a) == ControlId(reference, a)[|reference|..];
      assert NatToString(b) == ControlId(reference, b)[|reference|..];
      NatToStringInjective(a, b);
    }
  }

  /** The count of a reference only grows: every render that formats its text raises it by one. */
  lemma CountsNeverShrink(items: CiteItems, counts: map<string, nat>, services: Services, reference: string)
    ensures CountOf(InlineCite(items, counts, services).counts, reference) >= CountOf(counts, reference)
  {
  }

  /** Ids of different references can collide: "a1" at its first render and "a" at its eleventh both give "a11". */
  lemma IdsOfDifferentReferencesCollide()
    ensures ControlId("a1", 1) == ControlId("a", 11) == "a11"
  {
    assert NatToString(11) == NatToString(1) + [Digit(1)];
  }

  /** A throw while formatting the text leaves the map unchanged; a throw in the bibliography still uses up a count. */
  lemma FailureAndCounts(items: CiteItems, counts: map<string, nat>, services: Services)
    ensures FormatCiteText(items, services.citation).Err? ==> InlineCite(items, counts, services).counts == counts
    ensures FormatCiteText(items, services.citation).Ok? && services.bibliography(Keys(ItemArray(items))).Err? ==>
      InlineCite(items, counts, services).result.Err?
      && InlineCite(items, counts, services).counts != counts
  {
    if FormatCiteText(items, services.citation).Ok? {
      var reference := Join(Keys(ItemArray(items)), "-");
      assert InlineCite(items, counts, services).counts[reference] == CountOf(counts, reference) + 1;
    }
  }

  /** Rendering the same citation twice in a row gives two different control ids. */
  lemma SuccessiveRendersDistinctIds(items: CiteItems, counts: map<string, nat>, services: Services)
    requires InlineCite(items, counts, services).result.Ok?
    requires InlineCite(items, InlineCite(items, counts, services).counts, services).result.Ok?
    ensures
      var first := InlineCite(items, counts, services).result.value;
      var second := InlineCite(items, InlineCite(items, counts, services).counts, services).result.value;
      Get(first[1].props, "id") != Get(second[1].props, "id")
  {
    var reference := Join(Keys(ItemArray(items)), "-");
    var later := InlineCite(items, counts, services).counts;
    assert CountOf(later, reference) == CountOf(counts, reference) + 1;
    RepeatedReferenceDistinctIds(reference, counts, later);
  }
}
