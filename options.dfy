/**
 * The options of the `remarkTufte` plugin (`TufteOptions`). The book's build
 * configuration passes none, so every default applies.
 */
module Options {
  import opened Wrappers

  /** `sectionize.heading` and `sectionize.newthought`; a missing option is None. */
  datatype SectionOptions = SectionOptions(heading: Option<int>, newthought: Option<bool>)

  datatype TufteOptions = TufteOptions(sectionize: Option<SectionOptions>)

  /** The options the plugin receives when it is given none. */
  const NoOptions: Option<TufteOptions> := None

  function HeadingOption(options: Option<TufteOptions>): Option<int> {
    if options.Some? && options.value.sectionize.Some? then options.value.sectionize.value.heading else None
  }

  function NewthoughtOption(options: Option<TufteOptions>): Option<bool> {
    if options.Some? && options.value.sectionize.Some? then options.value.sectionize.value.newthought else None
  }

  /** `options?.sectionize?.heading ?? 2`: the heading depth that starts a section. */
  function SectionizeHeading(options: Option<TufteOptions>): (depth: int)
    ensures HeadingOption(options).None? ==> depth == 2
    ensures HeadingOption(options).Some? ==> depth == HeadingOption(options).value
  {
    match HeadingOption(options)
    case Some(h) => h
    case None => 2
  }

  /**
   * Whether newthought spans start sections, AS WRITTEN: `!!options?.sectionize?.heading`
   * reads the heading option, so the `newthought` option has no effect.
   */
  function SectionizeNewthoughtAsWritten(options: Option<TufteOptions>): bool {
    match HeadingOption(options)
    case Some(h) => h != 0
    case None => false
  }

  /** Whether newthought spans start sections, as the `newthought` option documents it. */
  function SectionizeNewthought(options: Option<TufteOptions>): bool {
    NewthoughtOption(options) == Some(true)
  }

  /** As written, asking for newthought sections without a heading option leaves them off. */
  lemma NewthoughtOptionIgnoredAsWritten()
    ensures !SectionizeNewthoughtAsWritten(Some(TufteOptions(Some(SectionOptions(None, Some(true))))))
    ensures SectionizeNewthoughtAsWritten(Some(TufteOptions(Some(SectionOptions(Some(2), Some(false))))))
  {
  }

  /** As written, the switch is on exactly when the heading option is a non-zero number. */
  lemma NewthoughtFollowsHeadingAsWritten(options: Option<TufteOptions>)
    ensures SectionizeNewthoughtAsWritten(options) <==> HeadingOption(options).Some? && HeadingOption(options).value != 0
  {
  }

  /** Corrected: the switch depends on the newthought option only, never on the heading option. */
  lemma NewthoughtIndependentOfHeading(h1: Option<int>, h2: Option<int>, newthought: Option<bool>)
    ensures SectionizeNewthought(Some(TufteOptions(Some(SectionOptions(h1, newthought)))))
         == SectionizeNewthought(Some(TufteOptions(Some(SectionOptions(h2, newthought)))))
    ensures SectionizeNewthought(Some(TufteOptions(Some(SectionOptions(h1, newthought))))) <==> newthought == Some(true)
  {
  }

  /** Without options neither reading turns newthought sections on, and sections start at depth 2. */
  lemma DefaultsWithoutOptions()
    ensures SectionizeHeading(NoOptions) == 2
    ensures !SectionizeNewthought(NoOptions) && !SectionizeNewthoughtAsWritten(NoOptions)
  {
  }
}
