/**
 * query-property-syntax.js: the formal syntax of one property, gathered from
 * every stable document that lists it. A property's base grammar comes from
 * the last such document that gives one, and each document's `newValues`
 * fragment is appended with ` | `. Its constituents come from the legacy
 * closure over the cached value list plus the property's own `values`.
 */
module PropertySyntax {
  import opened Wrappers
  import opened Text
  import opened Corpus
  import opened Grammar
  import opened LegacyClosure

  /** The errors a property query raises. */
  datatype PropertyError =
    | UnknownProperty(name: string)          // no document lists it: `specNames.length` of `undefined`
    | SpecMissing(spec: string)              // `parsedWebRef[specName]` is `undefined`
    | PropertiesMissing(spec: string)        // a document without `properties` is read
    | PropertyMissing(spec: string, name: string) // the listed document has no such property
    | ClosureFailed(error: LegacyError)      // raised by `getConstituentSyntaxes`

  // ---------------------------------------------------------------------------
  // Draft versions

  /** The names that do not end in `-` and digits, in their order. */
  function Stable(names: seq<string>): (r: seq<string>)
    ensures |r| <= |names|
    ensures forall x :: x in r <==> x in names && !IsDraftName(x)
    decreases |names|
  {
    if |names| == 0 then []
    else if IsDraftName(names[0]) then Stable(names[1..])
    else
      assert forall x :: x in names <==> x == names[0] || x in names[1..];
      [names[0]] + Stable(names[1..])
  }

  /** `filterDuplicateSpecVersions(specNames)`: the test is on a non-empty list, not on one of more than one. */
  function FilterDuplicateSpecVersions(specNames: seq<string>): seq<string> {
    if |specNames| > 0 then Stable(specNames) else specNames
  }

  /** Filtering keeps the relative order: it distributes over concatenation. */
  lemma {:induction false} StableAppend(a: seq<string>, b: seq<string>)
    ensures Stable(a + b) == Stable(a) + Stable(b)
    decreases |a|
  {
    if |a| == 0 {
      assert a + b == b;
    } else {
      assert (a + b)[0] == a[0] && (a + b)[1..] == a[1..] + b;
      StableAppend(a[1..], b);
    }
  }

  /**
   * The filter always drops every draft name, even from a list of one, so a
   * property listed only in a draft document ends up with no documents.
   */
  lemma FilterIsStable(specNames: seq<string>)
    ensures FilterDuplicateSpecVersions(specNames) == Stable(specNames)
    ensures forall x :: x in FilterDuplicateSpecVersions(specNames) <==> x in specNames && !IsDraftName(x)
  {
  }

  /** A single draft document is not kept, contrary to "more than one item". */
  lemma SingleDraftIsDropped(spec: string)
    requires IsDraftName(spec)
    ensures FilterDuplicateSpecVersions([spec]) == []
  {
    assert [spec][1..] == [];
  }

  /** Filtering twice changes nothing. */
  lemma {:induction false} StableIsIdempotent(names: seq<string>)
    ensures Stable(Stable(names)) == Stable(names)
    decreases |names|
  {
    if |names| > 0 {
      StableIsIdempotent(names[1..]);
      if !IsDraftName(names[0]) {
        var r := [names[0]] + Stable(names[1..]);
        assert r[0] == names[0] && r[1..] == Stable(names[1..]);
      }
    }
  }

  // ---------------------------------------------------------------------------
  // The per-property document index

  /** What the index holds for `p`: its documents, or nothing. */
  function Entries(index: map<string, seq<string>>, p: string): seq<string> {
    if p in index then index[p] else []
  }

  /** The document names `getAllPropertySpecs` pushes for `p` while walking one document's properties. */
  function Listing(specName: string, props: seq<Entry>, p: string): (r: seq<string>)
    ensures forall x :: x in r ==> x == specName
    ensures |r| > 0 <==> exists i :: 0 <= i < |props| && props[i].name == p
    decreases |props|
  {
    if |props| == 0 then []
    else
      var rest := Listing(specName, props[1..], p);
      assert (exists i :: 0 <= i < |props| && props[i].name == p) <==>
        props[0].name == p || exists i :: 0 <= i < |props[1..]| && props[1..][i].name == p by {
        if exists i :: 0 <= i < |props| && props[i].name == p {
          var i :| 0 <= i < |props| && props[i].name == p;
          if i > 0 {
            assert props[1..][i - 1] == props[i];
          }
        }
        if exists i :: 0 <= i < |props[1..]| && props[1..][i].name == p {
          var i :| 0 <= i < |props[1..]| && props[1..][i].name == p;
          assert props[i + 1] == props[1..][i];
        }
      }
      (if props[0].name == p then [specName] else []) + rest
  }

  /** The documents listing `p`, once per listing, in corpus order. */
  function SpecsListing(corpus: Corpus, p: string): seq<string>
    decreases |corpus|
  {
    if |corpus| == 0 then []
    else Listing(corpus[0].0, ListOrEmpty(corpus[0].1.properties), p) + SpecsListing(corpus[1..], p)
  }

  /** One push: `p` gains the document name, a fresh list if it had none. */
  function AddListing(index: map<string, seq<string>>, p: string, specName: string): map<string, seq<string>> {
    index[p := Entries(index, p) + [specName]]
  }

  /** The inner loop of the cache build, over one document's properties. */
  function IndexProperties(index: map<string, seq<string>>, specName: string, props: seq<Entry>): map<string, seq<string>>
    decreases |props|
  {
    if |props| == 0 then index
    else IndexProperties(AddListing(index, props[0].name, specName), specName, props[1..])
  }

  /** The cache build over the whole corpus, or the error of the first document without `properties`. */
  function IndexCorpus(index: map<string, seq<string>>, corpus: Corpus): Result<map<string, seq<string>>, PropertyError>
    decreases |corpus|
  {
    if |corpus| == 0 then Success(index)
    else if corpus[0].1.properties.None? then Failure(PropertiesMissing(corpus[0].0))
    else IndexCorpus(IndexProperties(index, corpus[0].0, corpus[0].1.properties.value), corpus[1..])
  }

  /** Walking a document's properties appends the document name to each listed property's entry. */
  lemma {:induction false} IndexPropertiesEffect(index: map<string, seq<string>>, specName: string, props: seq<Entry>, p: string)
    ensures Entries(IndexProperties(index, specName, props), p) == Entries(index, p) + Listing(specName, props, p)
    ensures p in IndexProperties(index, specName, props) <==> p in index || |Listing(specName, props, p)| > 0
    decreases |props|
  {
    if |props| > 0 {
      var next := AddListing(index, props[0].name, specName);
      assert IndexProperties(index, specName, props) == IndexProperties(next, specName, props[1..]);
      IndexPropertiesEffect(next, specName, props[1..], p);
      var rest := Listing(specName, props[1..], p);
      assert Listing(specName, props, p) == (if props[0].name == p then [specName] else []) + rest;
      assert p in next <==> p in index || props[0].name == p;
      if props[0].name == p {
        assert Entries(next, p) == Entries(index, p) + [specName];
        assert Entries(index, p) + [specName] + rest == Entries(index, p) + ([specName] + rest);
      } else {
        assert Entries(next, p) == Entries(index, p);
        assert Listing(specName, props, p) == [] + rest;
      }
    }
  }

  /** The cache build fails exactly when some document has no `properties`. */
  lemma {:induction false} IndexCorpusFails(index: map<string, seq<string>>, corpus: Corpus)
    ensures IndexCorpus(index, corpus).Failure? <==> exists k :: 0 <= k < |corpus| && corpus[k].1.properties.None?
    ensures IndexCorpus(index, corpus).Failure? ==>
      exists k :: 0 <= k < |corpus| && corpus[k].1.properties.None? && IndexCorpus(index, corpus).error == PropertiesMissing(corpus[k].0)
    decreases |corpus|
  {
    if |corpus| > 0 && corpus[0].1.properties.Some? {
      IndexCorpusFails(IndexProperties(index, corpus[0].0, corpus[0].1.properties.value), corpus[1..]);
      forall k | 0 <= k < |corpus[1..]| ensures corpus[1..][k] == corpus[k + 1] {
      }
      if exists k :: 0 <= k < |corpus| && corpus[k].1.properties.None? {
        var k :| 0 <= k < |corpus| && corpus[k].1.properties.None?;
        assert corpus[1..][k - 1] == corpus[k];
      }
    }
  }

  /** A successful build appends, for each property, the documents that list it to what the index held. */
  lemma {:induction false} IndexCorpusEffect(index: map<string, seq<string>>, corpus: Corpus, p: string)
    requires IndexCorpus(index, corpus).Success?
    ensures Entries(IndexCorpus(index, corpus).value, p) == Entries(index, p) + SpecsListing(corpus, p)
    ensures p in IndexCorpus(index, corpus).value <==> p in index || |SpecsListing(corpus, p)| > 0
    decreases |corpus|
  {
    if |corpus| > 0 {
      var props := corpus[0].1.properties.value;
      var next := IndexProperties(index, corpus[0].0, props);
      assert IndexCorpus(index, corpus) == IndexCorpus(next, corpus[1..]);
      IndexPropertiesEffect(index, corpus[0].0, props, p);
      IndexCorpusEffect(next, corpus[1..], p);
      var l := Listing(corpus[0].0, props, p);
      assert SpecsListing(corpus, p) == l + SpecsListing(corpus[1..], p);
      assert Entries(index, p) + l + SpecsListing(corpus[1..], p) == Entries(index, p) + (l + SpecsListing(corpus[1..], p));
    }
  }

  /** What `getAllPropertySpecs(p)` returns: the stored list, else the entry after a rebuild (absent: `undefined`). */
  function SpecsLookup(index: map<string, seq<string>>, corpus: Corpus, p: string): Result<Option<seq<string>>, PropertyError> {
    if p in index then Success(Some(index[p]))
    else
      match IndexCorpus(index, corpus)
      case Failure(e) => Failure(e)
      case Success(built) => Success(if p in built then Some(built[p]) else None)
  }

  /** The index after a successful `getAllPropertySpecs(p)`. */
  function IndexAfter(index: map<string, seq<string>>, corpus: Corpus, p: string): map<string, seq<string>>
    requires SpecsLookup(index, corpus, p).Success?
  {
    if p in index then index else IndexCorpus(index, corpus).value
  }

  /** From the empty index, a lookup lists exactly the documents listing the property, in corpus order. */
  lemma FirstLookupListsEverySpec(corpus: Corpus, p: string)
    requires forall k :: 0 <= k < |corpus| ==> corpus[k].1.properties.Some?
    ensures SpecsLookup(map[], corpus, p)
      == Success(if |SpecsListing(corpus, p)| > 0 then Some(SpecsListing(corpus, p)) else None)
  {
    IndexCorpusFails(map[], corpus);
    assert IndexCorpus(map[], corpus).Success?;
    IndexCorpusEffect(map[], corpus, p);
    var built := IndexCorpus(map[], corpus).value;
    assert Entries(map[], p) == [];
    assert p in built <==> |SpecsListing(corpus, p)| > 0;
    if p in built {
      assert built[p] == Entries(built, p) == SpecsListing(corpus, p);
    }
  }

  /**
   * A miss rebuilds on top of what is stored: after a second lookup of a
   * property no document lists, every property's documents appear twice.
   */
  lemma SecondMissDuplicates(corpus: Corpus, p: string, q: string)
    requires forall k :: 0 <= k < |corpus| ==> corpus[k].1.properties.Some?
    requires |SpecsListing(corpus, p)| == 0
    ensures IndexCorpus(map[], corpus).Success?
    ensures p !in IndexCorpus(map[], corpus).value
    ensures IndexCorpus(IndexCorpus(map[], corpus).value, corpus).Success?
    ensures Entries(IndexCorpus(IndexCorpus(map[], corpus).value, corpus).value, q)
      == SpecsListing(corpus, q) + SpecsListing(corpus, q)
  {
    IndexCorpusFails(map[], corpus);
    var once := IndexCorpus(map[], corpus).value;
    assert p !in once by {
      IndexCorpusEffect(map[], corpus, p);
    }
    assert Entries(once, q) == SpecsListing(corpus, q) by {
      IndexCorpusEffect(map[], corpus, q);
      assert Entries(map[], q) == [];
    }
    IndexCorpusFails(once, corpus);
    IndexCorpusEffect(once, corpus, q);
  }

  // ---------------------------------------------------------------------------
  // The property's syntax

  /** Position `i` holds a property of that name and no earlier position does. */
  predicate FirstNamedAt(props: seq<Entry>, name: string, i: int) {
    0 <= i < |props| && props[i].name == name && forall j :: 0 <= j < i ==> props[j].name != name
  }

  /** The first property of that name in a document's list: `filter((p) => p.name === name)[0]`. */
  function FirstNamed(props: seq<Entry>, name: string): (r: Option<Entry>)
    ensures r.Some? ==> r.value.name == name && r.value in props
    ensures r.Some? ==> exists i :: FirstNamedAt(props, name, i) && props[i] == r.value
    ensures r.None? <==> forall i :: 0 <= i < |props| ==> props[i].name != name
    decreases |props|
  {
    if |props| == 0 then None
    else if props[0].name == name then
      assert FirstNamedAt(props, name, 0);
      Some(props[0])
    else
      var r := FirstNamed(props[1..], name);
      assert forall i :: 1 <= i < |props| ==> props[i] == props[1..][i - 1];
      FirstNamedShifts(props, name, r);
      r
  }

  /** The first match in the tail is the first match in the list when the head does not match. */
  lemma FirstNamedShifts(props: seq<Entry>, name: string, r: Option<Entry>)
    requires |props| > 0 && props[0].name != name
    requires r.Some? ==> exists i :: FirstNamedAt(props[1..], name, i) && props[1..][i] == r.value
    ensures r.Some? ==> exists i :: FirstNamedAt(props, name, i) && props[i] == r.value
  {
    if r.Some? {
      var i :| FirstNamedAt(props[1..], name, i) && props[1..][i] == r.value;
      forall j | 0 <= j < i + 1 ensures props[j].name != name {
        if j > 0 {
          assert props[j] == props[1..][j - 1];
        }
      }
      assert FirstNamedAt(props, name, i + 1) && props[i + 1] == r.value;
    }
  }

  /** `parsedWebRef[specName].properties.filter((p) => p.name === name)[0]`, or the error reading it raises. */
  function PropertyRecord(corpus: Corpus, specName: string, name: string): (r: Result<Entry, PropertyError>)
    ensures r.Success? ==> r.value.name == name
    ensures Lookup(corpus, specName).None? ==> r == Failure(SpecMissing(specName))
  {
    match Lookup(corpus, specName)
    case None => Failure(SpecMissing(specName))
    case Some(spec) =>
      if spec.properties.None? then Failure(PropertiesMissing(specName))
      else
        match FirstNamed(spec.properties.value, name)
        case None => Failure(PropertyMissing(specName, name))
        case Some(e) => Success(e)
  }

  /**
   * Reading a document's record: a document without a `properties` list is
   * reported as such, and otherwise the read succeeds exactly when the list
   * has a record of that name, giving the first one.
   */
  lemma PropertyRecordCases(corpus: Corpus, specName: string, name: string)
    ensures Lookup(corpus, specName).Some? && Lookup(corpus, specName).value.properties.None? ==>
      PropertyRecord(corpus, specName, name) == Failure(PropertiesMissing(specName))
    ensures Lookup(corpus, specName).Some? && Lookup(corpus, specName).value.properties.Some? ==>
      var props := Lookup(corpus, specName).value.properties.value;
      var r := PropertyRecord(corpus, specName, name);
      (r.Success? <==> exists i :: 0 <= i < |props| && props[i].name == name)
      && (r.Success? ==> exists i :: FirstNamedAt(props, name, i) && props[i] == r.value)
      && (r.Failure? ==> r.error == PropertyMissing(specName, name))
  {
  }

  /** The property's record in each listed document, in order, or the first error. */
  function PropertyRecords(corpus: Corpus, specs: seq<string>, name: string): (r: Result<seq<Entry>, PropertyError>)
    ensures r.Success? <==> forall i :: 0 <= i < |specs| ==> PropertyRecord(corpus, specs[i], name).Success?
    ensures r.Success? ==> (|r.value| == |specs|
      && forall i :: 0 <= i < |specs| ==> r.value[i] == PropertyRecord(corpus, specs[i], name).value)
    decreases |specs|
  {
    if |specs| == 0 then Success([])
    else
      var init := specs[..|specs| - 1];
      var front := PropertyRecords(corpus, init, name);
      var last := PropertyRecord(corpus, specs[|specs| - 1], name);
      assert forall i :: 0 <= i < |init| ==> init[i] == specs[i];
      if front.Failure? then Failure(front.error)
      else if last.Failure? then Failure(last.error)
      else Success(front.value + [last.value])
  }

  /** The base grammar: the last truthy `value` among the records, or `""`. */
  function LastBase(rs: seq<Entry>): string
    decreases |rs|
  {
    if |rs| == 0 then ""
    else if Truthy(rs[|rs| - 1].value) then rs[|rs| - 1].value.value
    else LastBase(rs[..|rs| - 1])
  }

  /** The `newSyntaxes` accumulator: ` | nv` for each truthy `newValues`, in order. */
  function NewSuffix(rs: seq<Entry>): string
    decreases |rs|
  {
    if |rs| == 0 then ""
    else NewSuffix(rs[..|rs| - 1]) + Fragment(rs[|rs| - 1])
  }

  /** What one record adds to `newSyntaxes`. */
  function Fragment(r: Entry): string {
    if Truthy(r.newValues) then " | " + r.newValues.value else ""
  }

  /** `buildPropertySyntax` on the records of the listed documents. */
  function BuildSyntax(rs: seq<Entry>): string {
    LastBase(rs) + NewSuffix(rs)
  }

  /** Position `i` holds the last record whose `value` is truthy. */
  predicate LastTruthyAt(rs: seq<Entry>, i: int) {
    0 <= i < |rs| && Truthy(rs[i].value) && forall j :: i < j < |rs| ==> !Truthy(rs[j].value)
  }

  /** The base grammar is empty exactly when no record has a truthy `value`. */
  lemma {:induction false} LastBaseEmptyIffNoneTruthy(rs: seq<Entry>)
    ensures LastBase(rs) == "" <==> forall i :: 0 <= i < |rs| ==> !Truthy(rs[i].value)
    decreases |rs|
  {
    if |rs| > 0 && !Truthy(rs[|rs| - 1].value) {
      var init := rs[..|rs| - 1];
      LastBaseEmptyIffNoneTruthy(init);
      assert forall i :: 0 <= i < |init| ==> init[i] == rs[i];
    }
  }

  /** A last truthy `value` in the first records stays last when a record without one follows. */
  lemma LastTruthyExtends(rs: seq<Entry>, i: int)
    requires |rs| > 0 && !Truthy(rs[|rs| - 1].value)
    requires LastTruthyAt(rs[..|rs| - 1], i)
    ensures LastTruthyAt(rs, i) && rs[i] == rs[..|rs| - 1][i]
  {
  }

  /** The base grammar is the `value` of the last record that has a truthy one, or `""` when none does. */
  lemma {:induction false} LastBaseIsLastTruthy(rs: seq<Entry>)
    ensures LastBase(rs) == "" <==> forall i :: 0 <= i < |rs| ==> !Truthy(rs[i].value)
    ensures LastBase(rs) != "" ==> exists i :: LastTruthyAt(rs, i) && LastBase(rs) == rs[i].value.value
    decreases |rs|
  {
    LastBaseEmptyIffNoneTruthy(rs);
    if |rs| > 0 {
      var last := |rs| - 1;
      if Truthy(rs[last].value) {
        assert LastTruthyAt(rs, last);
      } else {
        var init := rs[..last];
        assert LastBase(rs) == LastBase(init);
        LastBaseIsLastTruthy(init);
        if LastBase(init) != "" {
          var i :| LastTruthyAt(init, i) && LastBase(init) == init[i].value.value;
          LastTruthyExtends(rs, i);
        }
      }
    }
  }

  /** `newSyntaxes` is the fragments of the first records followed by those of the rest. */
  lemma {:induction false} NewSuffixAppend(a: seq<Entry>, b: seq<Entry>)
    ensures NewSuffix(a + b) == NewSuffix(a) + NewSuffix(b)
    decreases |b|
  {
    if |b| == 0 {
      assert a + b == a;
    } else {
      var b' := b[..|b| - 1];
      assert (a + b)[..|a + b| - 1] == a + b' && (a + b)[|a + b| - 1] == b[|b| - 1];
      NewSuffixAppend(a, b');
    }
  }

  /** Without any truthy `newValues` the syntax is just the base grammar. */
  lemma {:induction false} NoNewValuesMeansBase(rs: seq<Entry>)
    requires forall i :: 0 <= i < |rs| ==> !Truthy(rs[i].newValues)
    ensures BuildSyntax(rs) == LastBase(rs)
    decreases |rs|
  {
    if |rs| > 0 {
      var init := rs[..|rs| - 1];
      assert forall i :: 0 <= i < |init| ==> init[i] == rs[i];
      NoNewValuesMeansBase(init);
      assert LastBase(init) + NewSuffix(init) == LastBase(init);
      assert NewSuffix(init) == "";
    }
  }

  /** The values the property's records name, each list spread and each missing list a hole, in order. */
  function Namespaced(rs: seq<Entry>): seq<Option<Entry>>
    decreases |rs|
  {
    if |rs| == 0 then [] else Namespaced(rs[..|rs| - 1]) + Piece(rs[|rs| - 1].values)
  }

  /** One property query's output. */
  datatype PropertySyntaxResult = PropertySyntaxResult(propertySyntax: string, constituents: seq<Pair>)

  /** The grammar and the namespaced values `getPropertySyntax` hands to the closure, from the looked-up list. */
  function Prepared(corpus: Corpus, specs: Option<seq<string>>, name: string): Result<(string, seq<Option<Entry>>), PropertyError> {
    if specs.None? then Failure(UnknownProperty(name))
    else
      match PropertyRecords(corpus, FilterDuplicateSpecVersions(specs.value), name)
      case Failure(e) => Failure(e)
      case Success(rs) => Success((BuildSyntax(rs), Namespaced(rs)))
  }

  /**
   * `getPropertySyntax(name, typesToLink)` from the index and the value
   * cache as they were before the call.
   */
  ghost function PropertySyntaxOf(index: map<string, seq<string>>, cache: seq<Option<Entry>>, corpus: Corpus,
                                   parse: Parser, name: string, typesToLink: seq<string>): Result<PropertySyntaxResult, PropertyError>
  {
    match SpecsLookup(index, corpus, name)
    case Failure(e) => Failure(e)
    case Success(specs) =>
      match Prepared(corpus, specs, name)
      case Failure(e) => Failure(e)
      case Success((syntax, namespaced)) =>
        match LegacyConstituents(Initialized(cache, corpus) + namespaced, parse, typesToLink, syntax)
        case Failure(e) => Failure(ClosureFailed(e))
        case Success(pairs) => Success(PropertySyntaxResult(syntax, pairs))
  }

  /** A query that gets as far as calling `getConstituentSyntaxes`. */
  ghost predicate ReachesClosure(index: map<string, seq<string>>, corpus: Corpus, name: string) {
    SpecsLookup(index, corpus, name).Success? && Prepared(corpus, SpecsLookup(index, corpus, name).value, name).Success?
  }

  /** The omit list of the command line: colours and gradients are linked to, not expanded. */
  const TypesToLink: seq<string> := ["<color>", "<gradient>"]

  lemma LinkedTypesAreOmitted()
    ensures Omitted(TypesToLink, "color") && Omitted(TypesToLink, "gradient")
  {
    assert Angled("color") == TypesToLink[0];
    assert Angled("gradient") == TypesToLink[1];
  }

  /**
   * A successful property query reports each of its constituents once, with
   * the value its first list entry gives, and never colour or gradient.
   */
  lemma PropertyConstituentsAreDistinctAndLinked(index: map<string, seq<string>>, cache: seq<Option<Entry>>, corpus: Corpus,
                                                 parse: Parser, name: string)
    requires PropertySyntaxOf(index, cache, corpus, parse, name, TypesToLink).Success?
    ensures var ps := PropertySyntaxOf(index, cache, corpus, parse, name, TypesToLink).value.constituents;
      (forall i, j :: 0 <= i < j < |ps| ==> ps[i].name != ps[j].name)
      && forall i :: 0 <= i < |ps| ==> ps[i].name != "color" && ps[i].name != "gradient"
  {
    var specs := SpecsLookup(index, corpus, name).value;
    var prep := Prepared(corpus, specs, name).value;
    var values := Initialized(cache, corpus) + prep.1;
    assert LegacyConstituents(values, parse, TypesToLink, prep.0).Success?;
    var names := LegacyNames(values, parse, TypesToLink, prep.0).value;
    assert PropertySyntaxOf(index, cache, corpus, parse, name, TypesToLink).value.constituents
      == LegacyOutput(values, names).value;
    LegacyNamesAreTheClosure(values, parse, TypesToLink, prep.0, {});
    LegacyOutputKeysAreDistinct(values, names);
    var ps := LegacyOutput(values, names).value;
    forall i | 0 <= i < |ps| ensures ps[i].name != "color" && ps[i].name != "gradient" {
      assert ps[i] in ps;
      LinkedTypesAreOmitted();
    }
  }

  // ---------------------------------------------------------------------------
  // The loops of query-property-syntax.js as it runs them

  lemma IndexCorpusAt(index: map<string, seq<string>>, corpus: Corpus, k: nat)
    requires k < |corpus|
    ensures IndexCorpus(index, corpus[k..]) ==
      if corpus[k].1.properties.None? then Failure(PropertiesMissing(corpus[k].0))
      else IndexCorpus(IndexProperties(index, corpus[k].0, corpus[k].1.properties.value), corpus[k + 1..])
  {
    assert corpus[k..][0] == corpus[k] && corpus[k..][1..] == corpus[k + 1..];
  }

  lemma IndexPropertiesAt(index: map<string, seq<string>>, specName: string, props: seq<Entry>, j: nat)
    requires j < |props|
    ensures IndexProperties(index, specName, props[j..])
      == IndexProperties(AddListing(index, props[j].name, specName), specName, props[j + 1..])
  {
    assert props[j..][0] == props[j] && props[j..][1..] == props[j + 1..];
  }

  /** Once a prefix of the documents fails to give a record, the whole list fails with that error. */
  lemma {:induction false} PropertyRecordsFailurePersists(corpus: Corpus, specs: seq<string>, name: string, n: nat)
    requires n <= |specs| && PropertyRecords(corpus, specs[..n], name).Failure?
    ensures PropertyRecords(corpus, specs, name) == PropertyRecords(corpus, specs[..n], name)
    decreases |specs| - n
  {
    if n < |specs| {
      assert specs[..n + 1][..n] == specs[..n];
      assert PropertyRecords(corpus, specs[..n + 1], name) == PropertyRecords(corpus, specs[..n], name);
      PropertyRecordsFailurePersists(corpus, specs, name, n + 1);
    } else {
      assert specs[..n] == specs;
    }
  }

  lemma RecordsStep(corpus: Corpus, specs: seq<string>, name: string, i: nat, rs: seq<Entry>)
    requires i < |specs| && PropertyRecords(corpus, specs[..i], name) == Success(rs)
    ensures PropertyRecords(corpus, specs[..i + 1], name) ==
      if PropertyRecord(corpus, specs[i], name).Failure? then Failure(PropertyRecord(corpus, specs[i], name).error)
      else Success(rs + [PropertyRecord(corpus, specs[i], name).value])
  {
    assert specs[..i + 1][..i] == specs[..i] && specs[..i + 1][i] == specs[i];
  }

  lemma SyntaxStep(rs: seq<Entry>, d: Entry)
    ensures LastBase(rs + [d]) == if Truthy(d.value) then d.value.value else LastBase(rs)
    ensures NewSuffix(rs + [d]) == NewSuffix(rs) + Fragment(d)
  {
    assert (rs + [d])[..|rs|] == rs && (rs + [d])[|rs|] == d;
  }

  /** The module state of query-property-syntax.js, with the closure module it calls. */
  class PropertyQuery {
    const parsedWebRef: Corpus
    var specsForProp: map<string, seq<string>>
    const values: ValueCache

    /** Both modules read the same documents. */
    ghost predicate Valid()
      reads this
    {
      values.parsedWebRef == parsedWebRef
    }

    /** The state as the modules create it: an empty index and an empty value cache. */
    constructor (parsedWebRef: Corpus)
      ensures Valid() && fresh(values)
      ensures this.parsedWebRef == parsedWebRef && specsForProp == map[] && values.nonNamespacedValues == []
    {
      this.parsedWebRef := parsedWebRef;
      specsForProp := map[];
      values := new ValueCache(parsedWebRef);
    }

    /**
     * `getAllPropertySpecs(propertyName)`: a stored list is returned as is;
     * otherwise every document's properties are pushed onto the index and
     * the entry for the name (perhaps `undefined`) is returned.
     */
    method GetAllPropertySpecs(propertyName: string) returns (r: Result<Option<seq<string>>, PropertyError>)
      modifies this
      ensures r == SpecsLookup(old(specsForProp), parsedWebRef, propertyName)
      ensures r.Success? ==> specsForProp == IndexAfter(old(specsForProp), parsedWebRef, propertyName)
    {
      if propertyName in specsForProp {
        return Success(Some(specsForProp[propertyName]));
      }
      ghost var start := specsForProp;
      for k := 0 to |parsedWebRef|
        invariant IndexCorpus(specsForProp, parsedWebRef[k..]) == IndexCorpus(start, parsedWebRef)
      {
        IndexCorpusAt(specsForProp, parsedWebRef, k);
        var specName := parsedWebRef[k].0;
        if parsedWebRef[k].1.properties.None? {
          return Failure(PropertiesMissing(specName));
        }
        var props := parsedWebRef[k].1.properties.value;
        ghost var before := specsForProp;
        for j := 0 to |props|
          invariant IndexProperties(specsForProp, specName, props[j..]) == IndexProperties(before, specName, props)
        {
          IndexPropertiesAt(specsForProp, specName, props, j);
          ghost var pushed := AddListing(specsForProp, props[j].name, specName);
          if props[j].name !in specsForProp {
            assert Entries(specsForProp, props[j].name) + [specName] == [specName];
            specsForProp := specsForProp[props[j].name := [specName]];
          } else {
            specsForProp := specsForProp[props[j].name := specsForProp[props[j].name] + [specName]];
          }
          assert specsForProp == pushed;
        }
      }
      assert parsedWebRef[|parsedWebRef|..] == [];
      return Success(if propertyName in specsForProp then Some(specsForProp[propertyName]) else None);
    }

    /**
     * `buildPropertySyntax(propertyName, specs)`: the last truthy base value
     * followed by ` | nv` for each truthy `newValues`, or the error reading a
     * record raises.
     */
    method BuildPropertySyntax(propertyName: string, specs: seq<string>) returns (r: Result<string, PropertyError>)
      ensures r == match PropertyRecords(parsedWebRef, specs, propertyName)
        case Failure(e) => Failure(e)
        case Success(rs) => Success(BuildSyntax(rs))
    {
      var syntax := "";
      var newSyntaxes := "";
      ghost var rs: seq<Entry> := [];
      assert specs[..0] == [];
      for i := 0 to |specs|
        invariant PropertyRecords(parsedWebRef, specs[..i], propertyName) == Success(rs)
        invariant syntax == LastBase(rs) && newSyntaxes == NewSuffix(rs)
      {
        var propertyData := PropertyRecord(parsedWebRef, specs[i], propertyName);
        RecordsStep(parsedWebRef, specs, propertyName, i, rs);
        if propertyData.Failure? {
          PropertyRecordsFailurePersists(parsedWebRef, specs, propertyName, i + 1);
          return Failure(propertyData.error);
        }
        SyntaxStep(rs, propertyData.value);
        if Truthy(propertyData.value.value) {
          syntax := propertyData.value.value.value;
        }
        if Truthy(propertyData.value.newValues) {
          newSyntaxes := newSyntaxes + " | " + propertyData.value.newValues.value;
        }
        rs := rs + [propertyData.value];
      }
      if newSyntaxes != "" {
        syntax := syntax + newSyntaxes;
      } else {
        assert syntax + newSyntaxes == syntax;
      }
      assert specs[..|specs|] == specs;
      return Success(syntax);
    }

    /**
     * The loop gathering the property's own `values` from each listed document,
     * an absent list contributing one undefined entry. It runs only once
     * `buildPropertySyntax` has read the same records without error.
     */
    method NamespacedValues(propertyName: string, specs: seq<string>) returns (namespacedValues: seq<Option<Entry>>)
      requires PropertyRecords(parsedWebRef, specs, propertyName).Success?
      ensures namespacedValues == Namespaced(PropertyRecords(parsedWebRef, specs, propertyName).value)
    {
      ghost var rs := PropertyRecords(parsedWebRef, specs, propertyName).value;
      namespacedValues := [];
      assert rs[..0] == [];
      for i := 0 to |specs|
        invariant namespacedValues == Namespaced(rs[..i])
      {
        var namespacedValuesForSpec := PropertyRecord(parsedWebRef, specs[i], propertyName).value.values;
        assert rs[..i + 1][..i] == rs[..i] && rs[..i + 1][i] == rs[i];
        namespacedValues := namespacedValues + Piece(namespacedValuesForSpec);
      }
      assert rs[..|rs|] == rs;
    }

    /**
     * `getPropertySyntax(propertyName, typesToLink)`: the property's grammar
     * from its stable documents, and the constituents of that grammar over
     * the cached values plus the property's own values.
     */
    method GetPropertySyntax(parse: Parser, propertyName: string, typesToLink: seq<string>)
      returns (r: Result<PropertySyntaxResult, PropertyError>)
      requires Valid()
      modifies this, values
      ensures r == PropertySyntaxOf(old(specsForProp), old(values.nonNamespacedValues), parsedWebRef, parse, propertyName, typesToLink)
      ensures SpecsLookup(old(specsForProp), parsedWebRef, propertyName).Success? ==>
        specsForProp == IndexAfter(old(specsForProp), parsedWebRef, propertyName)
      ensures values.nonNamespacedValues == if ReachesClosure(old(specsForProp), parsedWebRef, propertyName)
        then Initialized(old(values.nonNamespacedValues), parsedWebRef) else old(values.nonNamespacedValues)
    {
      var allSpecs := GetAllPropertySpecs(propertyName);
      if allSpecs.Failure? {
        return Failure(allSpecs.error);
      }
      if allSpecs.value.None? {
        return Failure(UnknownProperty(propertyName));
      }
      var filteredSpecs := FilterDuplicateSpecVersions(allSpecs.value.value);
      var propertySyntax := BuildPropertySyntax(propertyName, filteredSpecs);
      if propertySyntax.Failure? {
        return Failure(propertySyntax.error);
      }
      var namespacedValues := NamespacedValues(propertyName, filteredSpecs);
      assert Prepared(parsedWebRef, allSpecs.value, propertyName) == Success((propertySyntax.value, namespacedValues));
      var constituents := values.GetConstituentSyntaxes(parse, propertySyntax.value, namespacedValues, typesToLink);
      if constituents.Failure? {
        return Failure(ClosureFailed(constituents.error));
      }
      return Success(PropertySyntaxResult(propertySyntax.value, constituents.value));
    }
  }
}
