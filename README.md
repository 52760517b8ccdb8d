# query-css-syntax in Dafny

A model of the core of **query-css-syntax**. This tool reads the CSS
definitions published by the webref corpus and answers two kinds of
question.

- **What is the syntax of this item?** The item is a CSS property, at-rule,
  at-rule descriptor, type or function.
- **Which types make up that syntax, transitively, and what is the syntax of
  each?**

The model covers four parts of the tool.

- **The registry** (`query-syntax.js`).
  - Loading builds seven maps from the corpus:
    - properties, at-rules and selectors;
    - types, values and functions;
    - descriptors.
  - Documents are read in a fixed order: the three core documents, then every
    non-draft document, then the drafts. The first definition of a key wins.
  - A second pass appends each document's `newValues` to the property it
    extends.
  - The query facade `getSyntax` looks a name up by kind. It then computes the
    constituents of the syntax it found.
  - Constituents are computed by a closure loop. The loop parses grammars,
    records each type reference once, and stops on a pass that adds nothing.
- **The older constituent engine** (`get-constituent-syntaxes.js`).
  - It looks names up by a first-match search in a flat list of value
    definitions, which it caches.
  - A parse failure aborts the whole query.
  - An undefined entry in the list, which a document without `values`
    produces, raises an error once the search reaches it.
- **The property query** (`query-property-syntax.js`).
  - It keeps a property-to-documents index, built lazily.
  - It drops versioned drafts, concatenates the base value with the
    `newValues` of every document, and gathers the property's own namespaced
    values.
  - It then calls the older constituent engine.
- **The test fixtures' query** (`testing/utils.js`: `getSyntaxForType` and
  `typesToOmit`). It maps a fixture slug and kind onto a `getSyntax` call.

## How the model is built

- **Values and functions.** Entities that are values are datatypes:
  - a definition entry (`Corpus.Entry`);
  - a corpus document (`Corpus.Spec`);
  - a parsed node (`Grammar.Node`);
  - the seven maps (`Ingestion.Tables`).
- **Parameters.** The CSS grammar parser (css-tree's `definitionSyntax.parse`
  and `walk`) is a parameter `parse: string -> Option<seq<Node>>`. It returns
  the visited nodes in walk order, or `None` when the text does not parse.
  The webref corpus is a parameter too: a sequence of (document name,
  document) pairs in `Object.entries` order.
- **Ingestion as a stream.** Ingestion is specified as a stream of operations
  (`Ingestion.Op`), applied first-wins by `Ingestion.ApplyAll`.
- **Imperative code.** The module-level maps of `query-syntax.js` form the
  class `QuerySyntax.Registry`. Its loop methods are proved equal to the
  specification functions. The same holds for two other classes:
  - the cached value list of `get-constituent-syntaxes.js`
    (`LegacyClosure.ValueCache`);
  - the index of `query-property-syntax.js`
    (`PropertySyntax.PropertyQuery`).
- **Closure termination.** Both closure loops terminate. Their measure is the
  number of names in a finite universe that are not yet recorded. The
  universe holds the references of the root grammar and of every registered
  grammar.

### Where the code and its comments disagree

- **Version filtering.** The comment on `filterDuplicateSpecVersions`
  (`query-property-syntax.js` lines 13-16) says versioned names are dropped
  only when the list holds more than one name. The code drops them whenever
  the list is non-empty. The model follows the code (`PropertySyntax.Stable`).
  `PropertySyntax.SingleDraftIsDropped` shows the difference on a one-element
  list.
- **Index rebuild.** `getAllPropertySpecs` rebuilds its index on every miss.
  Each rebuild appends to the lists already there, so a second miss doubles
  every list. The model keeps this behaviour (`PropertySyntax.SecondMissDuplicates`).
- **Type slugs with `_value`.** The comment in `getSyntaxForType`
  (`testing/utils.js` line 26) speaks of a `_value` suffix. The code calls
  `replace`, which removes the first occurrence. A slug with an earlier
  `_value` therefore loses that one, not the suffix. The model follows the
  code (`Fixtures.FixtureQuery`); `Fixtures.FirstValueIsRemoved` shows it on
  `a_value_b_value`.
- **Function slugs.** `getSyntaxForType` appends `()` to every function slug.
  `getSyntax` appends it only when missing. A slug that already ends in `()`
  is therefore looked up as `name()()` (`Fixtures.FixtureFunctionAppendsParens`).
- **Alternatives-only types.** `getSyntax` answers such a type with the bare
  names of its alternatives. The constituent list reports the same type with
  bracketed `<name>` forms (`Query.ReportedAlternativesAreBracketed`).

## Model

| member | source | states |
|---|---|---|
| Text.DigitRun | query-syntax.js:16-18 | The digit run counted back from a position consists of digits only and is maximal: the character before it, if any, is not a digit. |
| Text.IsDraftNameMeansVersionSuffix | query-syntax.js:16-18 | The draft test holds exactly when the name ends in `-` followed by one or more digits. |
| Text.StripAnglesOfAngled | query-syntax.js:29 | Stripping the brackets of `<n>` gives back `n`. |
| Names.GetDescriptorName | query-syntax.js:51-62 | A descriptor key is produced exactly for at-rule names starting with `@`; it is `at-rule__descriptor` when a descriptor is given, and the at-rule itself when neither a descriptor nor `/` is present. |
| Names.CombinedNameMatchesIngestionKey | query-syntax.js:51-62 | The `@rule/descriptor` spelling and the separate (at-rule, descriptor) spelling give the same key. |
| Corpus.Lookup | query-syntax.js:116-118 | `webRef[name]` finds a document exactly when one with that name exists, and it returns that document's record. |
| Ingestion.ApplyAt | query-syntax.js:23-45 | One registration step only fills a key that is absent: every existing entry is kept and a new key takes the claimed entry. |
| Ingestion.ApplyAllWinner | query-syntax.js:113-130 | After any successful stream, each key holds its earlier entry or else the first claim on it in the stream; nothing registered is lost. |
| Ingestion.FirstClaimAppend | query-syntax.js:113-130 | The winner of a key in a concatenated stream is the first part's claim, falling back to the second part's. |
| Ingestion.ReplayIsNoOp | query-syntax.js:113-130 | Replaying a stream on any registry that extends its result succeeds and changes nothing. |
| Ingestion.ExtractTwiceIsIdempotent | query-syntax.js:100-111 | Extracting the same document twice in a row leaves all seven maps as after the first extraction. |
| Ingestion.ReingestAfterOthersIsNoOp | query-syntax.js:121-124 | A core document that is read again among the stable documents, after others, changes nothing. |
| Ingestion.PrefixDefinitionsWin | query-syntax.js:113-130 | A definition offered earlier in the stream is never displaced by a later one. |
| Ingestion.CoreDefinitionsWin | query-syntax.js:116-118 | After the registration passes, and before the `newValues` pass, a key defined by one of the three core documents holds the core definition. |
| Ingestion.DraftsNeverDisplaceStable | query-syntax.js:127-130 | After the registration passes, and before the `newValues` pass, a key defined by any non-draft document holds that definition; drafts only fill keys the stable documents leave free. |
| Ingestion.LoadingKeepsRegistered | query-syntax.js:113-135 | Loading succeeds only when the registration passes do. The `newValues` pass neither adds nor removes a key of any map. Every registered entry is kept, and only a property's `value` changes, gaining the corpus's `newValues` suffix for its name. |
| Ingestion.CoreDefinitionsSurviveLoading | query-syntax.js:113-135 | After loading, a key defined by one of the three core documents holds the core definition. For a property, its `value` has the `newValues` suffix of every document appended. |
| Ingestion.StableDefinitionsSurviveLoading | query-syntax.js:113-135 | After loading, a key defined by any non-draft document holds the first such definition. For a property, its `value` has the `newValues` suffix of every document appended. |
| Ingestion.SelectDrafts | query-syntax.js:121-130 | The draft and non-draft selections contain exactly the corpus documents whose name passes or fails the draft test, in corpus order. |
| Ingestion.TopValuesReachOneLevel | query-syntax.js:105-110 | A value is ingested from a document's top-level list exactly when it is a top-level value or a direct child of one. |
| Ingestion.AppendedTwice | query-syntax.js:91-98 | Two appends with `+=` equal one append of the concatenated suffix. |
| Ingestion.AppendItemsEffect | query-syntax.js:91-98 | The `newValues` pass keeps the set of property keys. Each registered property's value gains ` \| nv` for every truthy `newValues` aimed at it, in order. |
| Ingestion.AppendCorpusFailure | query-syntax.js:132-135 | The `newValues` pass fails exactly when some document has no property list. |
| Ingestion.AppendCorpusEffect | query-syntax.js:132-135 | A successful `newValues` pass changes only property values, appending the whole corpus's suffix for each property. |
| QuerySyntax.Registry.constructor | query-syntax.js:5-14 | The registry starts with all seven maps empty. |
| QuerySyntax.Registry.SetIfAbsent | query-syntax.js:31-39 | Writes the key only when it is absent in the chosen map; the other maps are unchanged. |
| QuerySyntax.Registry.AddToValueMap | query-syntax.js:23-45 | The outcome and new maps are those of one first-wins value registration, including the error for an unknown `type`. |
| QuerySyntax.Registry.RegisterItem | query-syntax.js:73-75 | Registers a construct that has a value under its name, first wins; a construct without a value is skipped. |
| QuerySyntax.Registry.FileDescriptor | query-syntax.js:79-87 | Files one descriptor under the key `getDescriptorName` gives for its owning at-rule, or fails as that operation does. |
| QuerySyntax.Registry.AddValues | query-syntax.js:76-78 | The loop over an item's values leaves the registry where the stream of its value operations would. |
| QuerySyntax.Registry.AddDescriptors | query-syntax.js:79-87 | The loop over an item's descriptors leaves the registry where the stream of its descriptor operations would. |
| QuerySyntax.Registry.AddToConstructMap | query-syntax.js:67-89 | Ingesting a construct list equals applying its operation stream; a missing list does nothing. |
| QuerySyntax.Registry.AddTopValues | query-syntax.js:105-110 | The loop over top-level values and their children equals their operation stream. |
| QuerySyntax.Registry.ExtractDataFromSpec | query-syntax.js:100-111 | Extracting one document equals applying that document's operation stream. |
| QuerySyntax.Registry.ExtractCore | query-syntax.js:116-118 | Extracting a named core document equals that document's stream. A missing core document fails with `MissingSpec`, as `extractDataFromSpec(undefined)` throws when it reads `spec.properties`. |
| QuerySyntax.Registry.ExtractAll | query-syntax.js:121-130 | Extracting a list of documents in order equals their concatenated stream. |
| QuerySyntax.Registry.AppendPropertyNewValues | query-syntax.js:91-98 | Appending one document's `newValues` equals the specified append pass, including the error for a missing list. |
| QuerySyntax.Registry.Load | query-syntax.js:113-135 | Loading yields exactly the specified registry: core, stable and draft registration, then the `newValues` pass; otherwise it reports the same error. |
| Grammar.AddNodes | query-syntax.js:141-149 | The visitor only appends. It appends exactly the not-yet-recorded, non-omitted type references, never repeats a name, and keeps an existing list duplicate-free. |
| Closure.Scan | query-syntax.js:140-159 | One pass over a frontier extends the list with exactly the names that its parseable grammars reference, each once. Grammars that do not parse are skipped. |
| QuerySyntax.GetTypesForSyntaxes | query-syntax.js:140-159 | The nested loop over grammars and walked nodes computes exactly that pass. |
| Closure.GetValue | query-syntax.js:161-166 | A name containing `()` is looked up only in the function map. Any other name resolves exactly when it is a type or a value, and a type shadows a value of the same name. Only registered entries are returned. |
| Closure.AlternativeGrammars | query-syntax.js:211-214 | The alternatives contribute their grammars one for one, in order, undefined ones included. |
| Closure.ExpansionsContents | query-syntax.js:205-216 | The next frontier holds exactly the grammars contributed by the names just added, and only registered grammars. |
| QuerySyntax.Registry.NextSyntaxes | query-syntax.js:205-216 | The loop building the next frontier computes exactly those expansions. |
| Closure.RoundShrinks | query-syntax.js:196-217 | Each round that records a new name shrinks the set of unrecorded names of the finite universe, so the loop terminates. |
| Closure.NextFrontierRefersTo | query-syntax.js:205-216 | The next frontier refers to a name exactly when a newly added name's grammar does. |
| Closure.RunRecordsCleanly | query-syntax.js:196-217 | The loop only extends the list; recorded names are never repeated and never omitted. |
| Closure.RunIsComplete | query-syntax.js:196-217 | Everything recorded or owed by the frontier ends up recorded, and the loop stops only on a closed set. |
| Closure.RunIsLeast | query-syntax.js:196-217 | The loop records nothing outside any closed set that contains what is recorded and owed. |
| Closure.RootFrontier | query-syntax.js:192 | The first frontier refers to exactly what the root grammar refers to. |
| Closure.ClosureRecordsEachNameOnce | query-syntax.js:188-217 | The accumulated constituents contain each name once and no omitted name. |
| Closure.ClosureIsComplete | query-syntax.js:188-217 | Every reference of the root grammar is recorded, and the recorded set is closed under references. |
| Closure.ClosureIsLeast | query-syntax.js:188-217 | The recorded set is contained in every closed set holding the root's references, so it is the least closure. |
| Closure.ClosureStartsWithRootReferences | query-syntax.js:188-202 | The root's own references come first, in walk order; a root that does not parse yields no constituents. |
| QuerySyntax.Registry.CollectConstituents | query-syntax.js:196-217 | The `while (true)` loop computes exactly the specified closure, so the properties above hold of its result. |
| Closure.AngledNames | query-syntax.js:225-229 | The alternatives' names are bracketed one for one, in order. |
| Closure.Resolving | query-syntax.js:219-233 | The emitted names are exactly the recorded names that resolve to a syntax, and they are distinct when the recorded names are. |
| Closure.Emit | query-syntax.js:219-235 | One `{type, syntax}` pair per resolving recorded name, in recording order, carrying that name's syntax. |
| QuerySyntax.Registry.ResolveSyntax | query-syntax.js:220-231 | The body of the output loop computes the syntax the output step specifies for a recorded name. Closure.OutputReadsPropertiesLast and Query.ReportedAlternativesAreBracketed state what that syntax is. |
| Closure.OutputReadsPropertiesLast | query-syntax.js:220-224 | The property map is consulted only for a name `getValue` does not resolve: otherwise the reported syntax does not depend on the properties at all. A name resolved by neither reports nothing. |
| QuerySyntax.Registry.EmitSyntaxes | query-syntax.js:219-235 | The output loop computes exactly those pairs. |
| QuerySyntax.Registry.GetConstituentSyntaxes | query-syntax.js:188-236 | The whole closure query returns the specified constituents of the root grammar. |
| Query.BareNames | query-syntax.js:262 | A type with only alternatives lists its alternatives' names one for one, in order. |
| Query.Found | query-syntax.js:290-292 | A query succeeds exactly when a non-empty syntax was found, and otherwise reports "not found" under the display name. |
| Query.FindSyntax | query-syntax.js:246-292 | A found syntax is never empty. An unknown-kind error occurs exactly for kinds outside the five. An invalid-descriptor error occurs exactly for descriptor queries whose name lacks `@`. For a property, at-rule, function or descriptor the answer is the registered entry's `value` under the normalised key, found exactly when that value is truthy. For a type it is the entry's value, else its alternatives' names. A miss is reported under the display name (`<key>` for types and functions). |
| Query.AlternativesOnlyTypeIsFoundByNames | query-syntax.js:253-262 | A type whose entry has no truthy value but has alternatives is answered with the alternatives' bare names joined by ` \| `. |
| Query.BracketingLengthens | query-syntax.js:228-230 | Joining the bracketed names is two characters per name longer than joining the bare names. |
| Query.ReportedAlternativesAreBracketed | query-syntax.js:226-231 | For such a type the two code paths differ: the constituent list reports the bracketed `<name>` forms and `getSyntax` the bare names. The two strings differ in length by two characters per alternative. |
| Query.TypeBracketsAreOptional | query-syntax.js:253-256 | `<n>` and `n` give the same type answer. |
| Query.FunctionParensAreOptional | query-syntax.js:267-273 | `f()` and `f` give the same function answer. |
| Query.RegisteredTypeIsFound | query-syntax.js:253-260 | A type registered from a bracketed value definition with a value is found under its bracketed name, with that value. |
| Query.DescriptorQueryReadsIngestionKey | query-syntax.js:277-283 | A descriptor query reads the very key under which ingestion filed that descriptor. |
| Closure.ConstituentsAreDistinctAndComplete | query-syntax.js:188-236 | The constituents of a root grammar have distinct, non-omitted types, each paired with its own syntax. Every direct reference of the root that resolves is among them. |
| Query.QueryConstituents | query-syntax.js:293-294 | A successful query's constituents have distinct, non-omitted types, each paired with its own syntax. Every direct reference of the found syntax that resolves is among them. |
| QuerySyntax.Registry.GetSyntax | query-syntax.js:246-295 | The facade method returns exactly the specified answer. |
| LegacyClosure.Piece | get-constituent-syntaxes.js:30-32 | A document contributes its values, or one undefined entry when it has none. |
| LegacyClosure.Find | get-constituent-syntaxes.js:67-70 | The search returns the first entry with that name. It reports "not found" only when it passes every entry, and fails when it reaches an undefined entry first. |
| LegacyClosure.FindInConcat | get-constituent-syntaxes.js:47-48 | Searching the cached list followed by the namespaced values equals searching the first part, then the second if nothing was found. |
| LegacyClosure.NoHolesMeansLookupsSucceed | get-constituent-syntaxes.js:67-70 | A list without undefined entries never makes a lookup fail. |
| LegacyClosure.AllValuesHoles | get-constituent-syntaxes.js:27-36 | The cached list is free of undefined entries exactly when every document has a `values` list. |
| LegacyClosure.ValueCache.constructor | get-constituent-syntaxes.js:4-5 | The cache starts empty. |
| LegacyClosure.ValueCache.InitializeValues | get-constituent-syntaxes.js:27-36 | An empty cache is filled with every document's values in corpus order; a filled cache is returned unchanged. |
| LegacyClosure.StrictScan | get-constituent-syntaxes.js:10-25 | One pass succeeds exactly when every grammar parses, and then equals the tolerant pass. Otherwise it fails on the first grammar that does not parse. |
| LegacyClosure.GetTypesForSyntaxes | get-constituent-syntaxes.js:10-25 | The loop computes exactly that strict pass. |
| LegacyClosure.NextGrammars | get-constituent-syntaxes.js:65-74 | The next frontier holds exactly the truthy values found for the newly added names, and only grammars present in the list. It fails as the search does. |
| LegacyClosure.NextSyntaxes | get-constituent-syntaxes.js:65-74 | The loop building the next frontier computes exactly that. |
| LegacyClosure.NextFrontierRefersTo | get-constituent-syntaxes.js:65-74 | The next frontier refers to a name exactly when a newly added name's looked-up grammar does. |
| LegacyClosure.LegacyRunRecordsCleanly | get-constituent-syntaxes.js:57-75 | A successful loop only extends the list, and never records a name twice or an omitted name. |
| LegacyClosure.LegacyRunIsComplete | get-constituent-syntaxes.js:57-75 | A successful loop records everything recorded or owed, and stops only on a closed set. |
| LegacyClosure.LegacyRunIsLeast | get-constituent-syntaxes.js:57-75 | A successful loop records nothing outside a closed set containing what is recorded and owed. |
| LegacyClosure.RootParseFailureAborts | get-constituent-syntaxes.js:21-24 | A root grammar that does not parse makes the whole query fail with that grammar. |
| LegacyClosure.LegacyNamesAreTheClosure | get-constituent-syntaxes.js:50-75 | On success the accumulated names are distinct and not omitted. They include the root's references, are closed, and lie within every closed set that holds those references. |
| LegacyClosure.CollectConstituents | get-constituent-syntaxes.js:50-75 | The `while (true)` loop computes exactly the specified accumulation, failure included. |
| LegacyClosure.LegacyOutput | get-constituent-syntaxes.js:77-89 | The output succeeds exactly when every lookup succeeds. Each pair's name is recorded and has a truthy syntax in the list. |
| LegacyClosure.LegacyOutputIsComplete | get-constituent-syntaxes.js:79-87 | Every recorded name with a truthy syntax appears in the output. |
| LegacyClosure.LegacyOutputKeysAreDistinct | get-constituent-syntaxes.js:77-89 | No name appears twice in the output when the recorded names are distinct. |
| LegacyClosure.RootFrontier | get-constituent-syntaxes.js:53 | The first frontier refers to exactly what the root grammar refers to. |
| LegacyClosure.BuildSyntaxes | get-constituent-syntaxes.js:77-89 | The output loop computes exactly that result. |
| LegacyClosure.ValueCache.GetConstituentSyntaxes | get-constituent-syntaxes.js:42-90 | The cache is initialised, and the answer is the specified closure over the cached values followed by the namespaced ones. |
| PropertySyntax.Stable | query-property-syntax.js:17-22 | The filtered list is no longer than the input and contains exactly the input's non-versioned names. |
| PropertySyntax.FilterIsStable | query-property-syntax.js:17-22 | The filter is the non-versioned selection on every list, empty or not. |
| PropertySyntax.SingleDraftIsDropped | query-property-syntax.js:13-22 | A one-element list holding a versioned name becomes empty, unlike what the comment says. |
| PropertySyntax.StableAppend | query-property-syntax.js:17-22 | Filtering distributes over concatenation. |
| PropertySyntax.StableIsIdempotent | query-property-syntax.js:17-22 | Filtering twice equals filtering once. |
| PropertySyntax.Listing | query-property-syntax.js:35-41 | A document lists a property exactly when one of its property records has that name. |
| PropertySyntax.IndexPropertiesEffect | query-property-syntax.js:35-41 | Indexing one document appends that document's name once per matching record to each property's list. The other lists are unchanged. |
| PropertySyntax.IndexCorpusFails | query-property-syntax.js:34-35 | Rebuilding the index fails exactly when some document has no property list. |
| PropertySyntax.IndexCorpusEffect | query-property-syntax.js:33-42 | A rebuild appends, for every property, the documents listing it in corpus order. A property becomes a key exactly when it was one or some document lists it. |
| PropertySyntax.FirstLookupListsEverySpec | query-property-syntax.js:28-44 | On an empty index, a lookup returns exactly the documents listing the property, in order. |
| PropertySyntax.SecondMissDuplicates | query-property-syntax.js:28-44 | A second miss rebuilds again on top of the first rebuild, so every property's list is doubled. |
| PropertySyntax.PropertyQuery.constructor | query-property-syntax.js:5-11 | The index starts empty and the value cache is empty and reads the same corpus. |
| PropertySyntax.PropertyQuery.GetAllPropertySpecs | query-property-syntax.js:28-44 | A hit returns the stored list. A miss rebuilds the index over the whole corpus and returns the property's list. Failures are as specified. |
| PropertySyntax.FirstNamed | query-property-syntax.js:57-59 | The record found has the name and sits at a position before which no record has it, so it is the first match. It is absent exactly when none has the name. |
| PropertySyntax.PropertyRecord | query-property-syntax.js:57-60 | A record read has the property's name, and a document missing from the corpus is reported as missing. |
| PropertySyntax.PropertyRecordCases | query-property-syntax.js:57-60 | A document without a `properties` list is reported as missing its list. Otherwise the read succeeds exactly when the list has a record of that name, and then gives the first such record. A list without one is reported as missing the property. |
| PropertySyntax.PropertyRecords | query-property-syntax.js:56-60 | Gathering succeeds exactly when every listed document yields its record, and then holds those records in order. |
| PropertySyntax.LastBaseEmptyIffNoneTruthy | query-property-syntax.js:54-63 | The base syntax is empty exactly when no record has a truthy `value`. |
| PropertySyntax.LastBaseIsLastTruthy | query-property-syntax.js:54-63 | The base syntax is the last truthy `value` among the records, or empty when there is none. |
| PropertySyntax.NewSuffixAppend | query-property-syntax.js:64-67 | The appended text for a concatenation of records is the concatenation of their appended texts. |
| PropertySyntax.NoNewValuesMeansBase | query-property-syntax.js:53-74 | Without any truthy `newValues`, the syntax is just the base value. |
| PropertySyntax.PropertyQuery.BuildPropertySyntax | query-property-syntax.js:53-74 | The loop gathers the records and builds base-plus-additions, failing as gathering fails. |
| PropertySyntax.LinkedTypesAreOmitted | query-property-syntax.js:100 | Colour and gradient are omitted by the linked-types list. |
| PropertySyntax.PropertyConstituentsAreDistinctAndLinked | query-property-syntax.js:88-100 | With the linked-types list, a successful property query reports distinct constituents, none of them colour or gradient. |
| PropertySyntax.PropertyQuery.NamespacedValues | query-property-syntax.js:80-86 | The gathered list is the `values` of the property's record in each listed document, in document order, with one undefined entry for a record without a list. |
| PropertySyntax.PropertyQuery.GetPropertySyntax | query-property-syntax.js:76-98 | The answer is the specified property query. The index is updated as by the lookup. The value cache is initialised once the closure is reached, and is unchanged otherwise. |
| Fixtures.FixtureQuery | testing/utils.js:19-45 | An unknown kind yields no query, and every other kind keeps its kind. Property, at-rule and descriptor slugs are passed unchanged, and a function slug always gains `()`. A type slug ending in `_value` loses the first occurrence of `_value`; other type slugs are passed unchanged. |
| Fixtures.FixtureNeverReportsUnknownKind | testing/utils.js:19-45 | The fixture query is absent exactly for unknown kinds, and a present one never fails with an unknown-kind error. |
| Fixtures.FixturePassesConstructNamesThrough | testing/utils.js:21-42 | Property, at-rule and descriptor slugs are queried unchanged, with the fixtures' omit list. |
| Fixtures.FixtureFunctionAppendsParens | testing/utils.js:33-36 | Every function slug is queried as `name()`. For a name without `()` this is the query `getSyntax` makes for the bare name anyway. A name already ending in `()` is looked up under a different key, `name()()`. |
| Text.IndexOf | testing/utils.js:27-29 | The index found is an occurrence, and no earlier one exists; none is found only when there is no occurrence. |
| Fixtures.SuffixIsFirstOccurrence | testing/utils.js:27-29 | In a slug with one `_value` suffix, the first occurrence is the suffix. |
| Fixtures.FixtureTypeQuery | testing/utils.js:25-32 | Every type slug gives a `getSyntax` type query. The slug is unchanged unless it ends in `_value`; then the query name is the slug with its first `_value` cut out. |
| Fixtures.FirstValueIsRemoved | testing/utils.js:27-29 | The slug `a_value_b_value` is queried as `a_b_value`, not `a_value_b`. |
| Fixtures.FixtureTypeSlugDropsValueSuffix | testing/utils.js:25-32 | When `s` has no `_value` of its own, the slug `s_value` gives the `getSyntax` type query for `s`, the same answer as the slug `s`. |
| Fixtures.OmittedByFixtures | testing/utils.js:6 | Colour, gradient and length are omitted by the fixtures' list. |
| Fixtures.LinkedTypesAreNeverConstituents | testing/utils.js:6 | A query with the fixtures' omit list never reports colour, gradient or length as a constituent. |
| Fixtures.FixtureOmitsLinkedTypes | testing/utils.js:19-45 | A fixture query never reports colour, gradient or length as a constituent. |

## Left out

- **Asynchronous loading.** The webref corpus is a parameter, not loaded with
  `await listAll()`.
- **The parser.** css-tree's parser and walker are the parameter `parse`. Their
  grammar is not modelled.
- **Undefined grammars.** `parse(undefined)` is treated as a parse failure. In
  the registry closure it is skipped; in the older engine it aborts.
- **Command-line code.** The command-line entry points (`process.argv`,
  `console.log`, `cli.js`) are not part of this model.
- **Error logging.** The error is logged inside `try`/`catch` around the parse
  in `getTypesForSyntaxes` of `query-syntax.js`. The model returns the
  skipped-or-failed outcome instead.
- **Other testing scripts.** `walkSync` and the remaining scripts under
  `testing/` are not part of this model.
- **Shared objects.** Object identity and aliasing are not modelled, for two
  reasons:
  - `appendPropertyNewValues` mutates corpus entries that other maps may share;
  - `getAllPropertySpecs` returns the index's own array.

  Entries are values here.
- **Prototype keys.** JavaScript prototype keys such as `constructor` on the
  plain object `specsForProp` are not modelled. The index is a map with no
  inherited keys.
- **Output key order.** The legacy `syntaxes` object is a sequence of
  (name, syntax) pairs in insertion order. JavaScript's ordering of
  integer-like keys is not modelled.
- QuerySyntax.Registry.AddToConstructMap: the maps after a failed ingestion
  are not stated, because the source throws and the registry is not used
  afterwards.
- QuerySyntax.Registry.Load: as above, the maps after an ingestion error are
  not stated.
- QuerySyntax.Registry.ExtractDataFromSpec, QuerySyntax.Registry.ExtractCore,
  QuerySyntax.Registry.ExtractAll and
  QuerySyntax.Registry.AppendPropertyNewValues: as above, the maps after an
  error are not stated; only the error itself is.
- **Duplicate document names.** The corpus is a sequence of (name, document)
  pairs and its names are not required to be distinct, although the keys of
  `Object.entries` are. On a corpus with distinct names every reading agrees.
  With a repeated name, `Corpus.Lookup` would see only the first copy, while
  `LegacyClosure.AllValues`, `PropertySyntax.IndexCorpus` and the registration
  streams would see every copy.
- PropertySyntax.PropertyQuery.GetAllPropertySpecs: the index after a failed
  rebuild is not stated, because the source throws part-way through it.
