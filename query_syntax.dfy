/**
 * query-syntax.js as it runs: seven maps updated in place by the
 * ingestion sequence, and the queries that read them.
 *
 * Every state-changing method is proved against the function of the
 * Ingestion module that describes its effect, and every query against the
 * Closure and Lookup functions; the properties of those functions
 * (first-definition-wins, idempotence, precedence, append-only accumulation,
 * the closure's completeness and minimality) carry over to the maps.
 */
module QuerySyntax {
  import opened Wrappers
  import opened Text
  import opened Corpus
  import opened Grammar
  import opened Names
  import opened Ingestion
  import opened Closure
  import opened Query

  /** One step of a stream: `[op] + rest` is `op`, then `rest`. */
  lemma StepOp(t: Tables, op: Op, rest: seq<Op>)
    ensures ApplyAll(t, [op] + rest) == Chain(Apply(t, op), rest)
  {
    assert ([op] + rest)[1..] == rest;
  }

  /** A stream split in two: on success of the first part the rest starts from its result. */
  lemma StepOps(t: Tables, a: seq<Op>, rest: seq<Op>)
    ensures ApplyAll(t, a + rest) == Chain(ApplyAll(t, a), rest)
  {
    ApplyAllAppend(t, a, rest);
  }

  /** The stream of the item at index `i` of a construct list, then the rest of the list. */
  lemma ItemsOpsStep(k: ConstructKind, items: seq<Entry>, i: nat)
    requires i < |items|
    ensures ItemsOps(k, items[i..]) ==
      [Register(k, items[i])] + (ValueOps(ListOrEmpty(items[i].values))
        + (DescriptorOps(items[i].name, ListOrEmpty(items[i].descriptors)) + ItemsOps(k, items[i + 1..])))
  {
    assert items[i..][1..] == items[i + 1..];
    var a := [Register(k, items[i])];
    var b := ValueOps(ListOrEmpty(items[i].values));
    var c := DescriptorOps(items[i].name, ListOrEmpty(items[i].descriptors));
    var d := ItemsOps(k, items[i + 1..]);
    assert ItemsOps(k, items[i..]) == ((a + b) + c) + d;
    ConcatAssoc(a + b, c, d);
    ConcatAssoc(a, b, c + d);
  }

  lemma ValueOpsStep(defs: seq<Entry>, j: nat, rest: seq<Op>)
    requires j < |defs|
    ensures ValueOps(defs[j..]) + rest == [AddValue(defs[j])] + (ValueOps(defs[j + 1..]) + rest)
  {
    assert defs[j..][1..] == defs[j + 1..];
    assert ValueOps(defs[j..]) == [AddValue(defs[j])] + ValueOps(defs[j + 1..]);
  }

  lemma DescriptorOpsStep(owner: string, ds: seq<Entry>, j: nat, rest: seq<Op>)
    requires j < |ds|
    ensures DescriptorOps(owner, ds[j..]) + rest == [AddDescriptor(owner, ds[j])] + (DescriptorOps(owner, ds[j + 1..]) + rest)
  {
    assert ds[j..][1..] == ds[j + 1..];
    assert DescriptorOps(owner, ds[j..]) == [AddDescriptor(owner, ds[j])] + DescriptorOps(owner, ds[j + 1..]);
  }

  lemma TopValueOpsStep(defs: seq<Entry>, i: nat, rest: seq<Op>)
    requires i < |defs|
    ensures TopValueOps(defs[i..]) + rest ==
      [AddValue(defs[i])] + (ValueOps(ListOrEmpty(defs[i].values)) + (TopValueOps(defs[i + 1..]) + rest))
  {
    assert defs[i..][1..] == defs[i + 1..];
    var a := [AddValue(defs[i])];
    var b := ValueOps(ListOrEmpty(defs[i].values));
    var c := TopValueOps(defs[i + 1..]);
    assert TopValueOps(defs[i..]) == (a + b) + c;
    assert ((a + b) + c) + rest == a + (b + (c + rest));
  }

  lemma SpecsOpsStep(specs: Corpus, i: nat, rest: seq<Op>)
    requires i < |specs|
    ensures SpecsOps(specs[i..]) + rest == SpecOps(specs[i].1) + (SpecsOps(specs[i + 1..]) + rest)
  {
    assert specs[i..][1..] == specs[i + 1..];
    assert SpecsOps(specs[i..]) == SpecOps(specs[i].1) + SpecsOps(specs[i + 1..]);
  }

  lemma SpecOpsSplit(spec: Spec, rest: seq<Op>)
    ensures SpecOps(spec) + rest ==
      ListOps(PropertyList, spec.properties) + (ListOps(AtRuleList, spec.atrules)
        + (ListOps(SelectorList, spec.selectors) + (TopValueOps(ListOrEmpty(spec.values)) + rest)))
  {
    var a := ListOps(PropertyList, spec.properties);
    var b := ListOps(AtRuleList, spec.atrules);
    var c := ListOps(SelectorList, spec.selectors);
    var d := TopValueOps(ListOrEmpty(spec.values));
    ConcatAssoc((a + b) + c, d, rest);
    ConcatAssoc(a + b, c, d + rest);
    ConcatAssoc(a, b, c + (d + rest));
  }

  lemma RegistrationSplit(corpus: Corpus)
    ensures RegistrationOps(corpus) ==
      CoreOps(corpus, "CSS") + (CoreOps(corpus, "css-syntax") + (CoreOps(corpus, "css-values")
        + (SpecsOps(SelectDrafts(corpus, false)) + (SpecsOps(SelectDrafts(corpus, true)) + []))))
  {
    var a := CoreOps(corpus, "CSS");
    var b := CoreOps(corpus, "css-syntax");
    var c := CoreOps(corpus, "css-values");
    var d := SpecsOps(SelectDrafts(corpus, false));
    var e := SpecsOps(SelectDrafts(corpus, true));
    assert e + [] == e;
    ConcatAssoc(((a + b) + c), d, e);
    ConcatAssoc(a + b, c, d + e);
    ConcatAssoc(a, b, c + (d + e));
  }

  /** The first step of `getTypesForSyntaxes` over the grammars from index `i`. */
  lemma ScanStep(parse: Parser, gs: seq<Option<string>>, omit: seq<string>, acc: seq<string>, i: nat)
    requires i < |gs|
    ensures Scan(parse, gs[i..], omit, acc) ==
      Scan(parse, gs[i + 1..], omit, match ParseGrammar(parse, gs[i]) case None => acc case Some(nodes) => AddNodes(nodes, omit, acc))
  {
    assert gs[i..][0] == gs[i] && gs[i..][1..] == gs[i + 1..];
  }

  /**
   * `getTypesForSyntaxes(syntaxes, typesToOmit, constituents)`: the names
   * `processNode` appends while the walker visits every grammar that parses,
   * a grammar that does not parse being skipped. The source appends to the
   * caller's array; here the grown list is returned.
   */
  method GetTypesForSyntaxes(parse: Parser, syntaxes: seq<Option<string>>, omit: seq<string>, constituents: seq<string>)
    returns (r: seq<string>)
    ensures r == Scan(parse, syntaxes, omit, constituents)
  {
    r := constituents;
    for i := 0 to |syntaxes|
      invariant Scan(parse, syntaxes[i..], omit, r) == Scan(parse, syntaxes, omit, constituents)
    {
      ScanStep(parse, syntaxes, omit, r, i);
      var ast := ParseGrammar(parse, syntaxes[i]);
      if ast.Some? {
        var nodes := ast.value;
        ghost var before := r;
        for j := 0 to |nodes|
          invariant AddNodes(nodes[j..], omit, r) == AddNodes(nodes, omit, before)
        {
          AddNodesStep(nodes, omit, r, j);
          r := ProcessNode(nodes[j], omit, r);
        }
      }
    }
  }

  /** The module-level maps of query-syntax.js. */
  class Registry {
    var properties: map<string, Entry>
    var atrules: map<string, Entry>
    var selectors: map<string, Entry>
    var types: map<string, Entry>
    var values: map<string, Entry>
    var functions: map<string, Entry>
    var descriptors: map<string, Entry>

    /** The seven maps as one value. */
    function Snapshot(): Tables
      reads this
    {
      Tables(properties, atrules, selectors, types, values, functions, descriptors)
    }

    /** The maps as the module creates them: all empty. */
    constructor ()
      ensures Snapshot() == Empty
    {
      properties, atrules, selectors := map[], map[], map[];
      types, values, functions, descriptors := map[], map[], map[], map[];
    }

    /** `if (!map.has(key)) map.set(key, e)` on the map `s`. */
    method SetIfAbsent(s: Slot, key: string, e: Entry)
      modifies this
      ensures Snapshot() == if key in Get(old(Snapshot()), s) then old(Snapshot())
                            else Put(old(Snapshot()), s, Get(old(Snapshot()), s)[key := e])
    {
      match s
      case PropertiesSlot => if key !in properties { properties := properties[key := e]; }
      case AtRulesSlot => if key !in atrules { atrules := atrules[key := e]; }
      case SelectorsSlot => if key !in selectors { selectors := selectors[key := e]; }
      case TypesSlot => if key !in types { types := types[key := e]; }
      case ValuesSlot => if key !in values { values := values[key := e]; }
      case FunctionsSlot => if key !in functions { functions := functions[key := e]; }
      case DescriptorsSlot => if key !in descriptors { descriptors := descriptors[key := e]; }
    }

    /**
     * `addToValueMap(data)`: forwards and selector definitions change nothing,
     * an unknown definition type raises an error and changes nothing, any other
     * definition is filed under its unbracketed name if that key is absent.
     */
    method AddToValueMap(data: Entry) returns (r: Outcome<IngestError>)
      modifies this
      ensures r == Status(Apply(old(Snapshot()), AddValue(data)))
      ensures Snapshot() == if r.Pass? then Apply(old(Snapshot()), AddValue(data)).value else old(Snapshot())
    {
      if data.value == Some(data.name) {
        return Pass;
      }
      var name := StripAngles(data.name);
      if data.kind == "type" {
        SetIfAbsent(TypesSlot, name, data);
      } else if data.kind == "value" {
        SetIfAbsent(ValuesSlot, name, data);
      } else if data.kind == "function" {
        SetIfAbsent(FunctionsSlot, name, data);
      } else if data.kind == "selector" {
      } else {
        return Fail(UnknownValueType(data.kind));
      }
      return Pass;
    }

    /** The registration test of `addToConstructMap`: an item with a truthy value is filed if its name is absent. */
    method RegisterItem(k: ConstructKind, item: Entry)
      modifies this
      ensures Apply(old(Snapshot()), Register(k, item)) == Success(Snapshot())
    {
      if Truthy(item.value) {
        SetIfAbsent(ConstructSlot(k), item.name, item);
      }
    }

    /** One descriptor of `addToConstructMap`'s descriptor loop for the item named `owner`. */
    method FileDescriptor(owner: string, d: Entry) returns (r: Outcome<IngestError>)
      modifies this
      ensures r == Status(Apply(old(Snapshot()), AddDescriptor(owner, d)))
      ensures Snapshot() == if r.Pass? then Apply(old(Snapshot()), AddDescriptor(owner, d)).value else old(Snapshot())
    {
      var rule := if Truthy(d.forRule) then d.forRule.value else owner;
      var key := GetDescriptorName(rule, Some(d.name));
      if key.None? {
        return Fail(InvalidDescriptorName(rule));
      }
      SetIfAbsent(DescriptorsSlot, key.value, d);
      return Pass;
    }

    /** `for (const value of defs) addToValueMap(value)`, followed by the stream `rest`. */
    method AddValues(defs: seq<Entry>, ghost rest: seq<Op>) returns (r: Outcome<IngestError>)
      modifies this
      ensures r.Pass? ==> ApplyAll(old(Snapshot()), ValueOps(defs) + rest) == ApplyAll(Snapshot(), rest)
      ensures r.Fail? ==> ApplyAll(old(Snapshot()), ValueOps(defs) + rest) == Failure(r.error)
    {
      ghost var goal := ApplyAll(Snapshot(), ValueOps(defs) + rest);
      for j := 0 to |defs|
        invariant ApplyAll(Snapshot(), ValueOps(defs[j..]) + rest) == goal
      {
        ValueOpsStep(defs, j, rest);
        StepOp(Snapshot(), AddValue(defs[j]), ValueOps(defs[j + 1..]) + rest);
        r := AddToValueMap(defs[j]);
        if r.Fail? {
          return;
        }
      }
      assert ValueOps(defs[|defs|..]) + rest == rest;
      r := Pass;
    }

    /** The descriptor loop of `addToConstructMap` for the item named `owner`, followed by `rest`. */
    method AddDescriptors(owner: string, ds: seq<Entry>, ghost rest: seq<Op>) returns (r: Outcome<IngestError>)
      modifies this
      ensures r.Pass? ==> ApplyAll(old(Snapshot()), DescriptorOps(owner, ds) + rest) == ApplyAll(Snapshot(), rest)
      ensures r.Fail? ==> ApplyAll(old(Snapshot()), DescriptorOps(owner, ds) + rest) == Failure(r.error)
    {
      ghost var goal := ApplyAll(Snapshot(), DescriptorOps(owner, ds) + rest);
      for j := 0 to |ds|
        invariant ApplyAll(Snapshot(), DescriptorOps(owner, ds[j..]) + rest) == goal
      {
        DescriptorOpsStep(owner, ds, j, rest);
        StepOp(Snapshot(), AddDescriptor(owner, ds[j]), DescriptorOps(owner, ds[j + 1..]) + rest);
        r := FileDescriptor(owner, ds[j]);
        if r.Fail? {
          return;
        }
      }
      assert DescriptorOps(owner, ds[|ds|..]) + rest == rest;
      r := Pass;
    }

    /**
     * `addToConstructMap(map, list)`: the maps become exactly what the
     * operation stream of the list produces, or the error it raises.
     */
    method AddToConstructMap(k: ConstructKind, list: Option<seq<Entry>>) returns (r: Outcome<IngestError>)
      modifies this
      ensures r == Status(ApplyAll(old(Snapshot()), ListOps(k, list)))
      ensures r.Pass? ==> Snapshot() == ApplyAll(old(Snapshot()), ListOps(k, list)).value
    {
      if list.None? {
        return Pass;
      }
      var items := list.value;
      ghost var goal := ApplyAll(Snapshot(), ItemsOps(k, items));
      for i := 0 to |items|
        invariant ApplyAll(Snapshot(), ItemsOps(k, items[i..])) == goal
      {
        var item := items[i];
        var vs := ListOrEmpty(item.values);
        var ds := ListOrEmpty(item.descriptors);
        ghost var rest := ItemsOps(k, items[i + 1..]);
        ItemsOpsStep(k, items, i);
        StepOp(Snapshot(), Register(k, item), ValueOps(vs) + (DescriptorOps(item.name, ds) + rest));
        RegisterItem(k, item);
        r := AddValues(vs, DescriptorOps(item.name, ds) + rest);
        if r.Fail? {
          return;
        }
        r := AddDescriptors(item.name, ds, rest);
        if r.Fail? {
          return;
        }
      }
      assert items[|items|..] == [];
      r := Pass;
    }

    /** The loop over a document's top-level values, followed by `rest`. */
    method AddTopValues(defs: seq<Entry>, ghost rest: seq<Op>) returns (r: Outcome<IngestError>)
      modifies this
      ensures r.Pass? ==> ApplyAll(old(Snapshot()), TopValueOps(defs) + rest) == ApplyAll(Snapshot(), rest)
      ensures r.Fail? ==> ApplyAll(old(Snapshot()), TopValueOps(defs) + rest) == Failure(r.error)
    {
      ghost var goal := ApplyAll(Snapshot(), TopValueOps(defs) + rest);
      for i := 0 to |defs|
        invariant ApplyAll(Snapshot(), TopValueOps(defs[i..]) + rest) == goal
      {
        var children := ListOrEmpty(defs[i].values);
        ghost var later := TopValueOps(defs[i + 1..]) + rest;
        TopValueOpsStep(defs, i, rest);
        StepOp(Snapshot(), AddValue(defs[i]), ValueOps(children) + later);
        r := AddToValueMap(defs[i]);
        if r.Fail? {
          return;
        }
        r := AddValues(children, later);
        if r.Fail? {
          return;
        }
      }
      assert TopValueOps(defs[|defs|..]) + rest == rest;
      r := Pass;
    }

    /** `extractDataFromSpec(spec)`, followed by the stream `rest`. */
    method ExtractDataFromSpec(spec: Spec, ghost rest: seq<Op>) returns (r: Outcome<IngestError>)
      modifies this
      ensures r.Pass? ==> ApplyAll(old(Snapshot()), SpecOps(spec) + rest) == ApplyAll(Snapshot(), rest)
      ensures r.Fail? ==> ApplyAll(old(Snapshot()), SpecOps(spec) + rest) == Failure(r.error)
    {
      var props := ListOps(PropertyList, spec.properties);
      var rules := ListOps(AtRuleList, spec.atrules);
      var sels := ListOps(SelectorList, spec.selectors);
      var tops := TopValueOps(ListOrEmpty(spec.values));
      SpecOpsSplit(spec, rest);
      StepOps(Snapshot(), props, rules + (sels + (tops + rest)));
      r := AddToConstructMap(PropertyList, spec.properties);
      if r.Fail? {
        return;
      }
      StepOps(Snapshot(), rules, sels + (tops + rest));
      r := AddToConstructMap(AtRuleList, spec.atrules);
      if r.Fail? {
        return;
      }
      StepOps(Snapshot(), sels, tops + rest);
      r := AddToConstructMap(SelectorList, spec.selectors);
      if r.Fail? {
        return;
      }
      r := AddTopValues(ListOrEmpty(spec.values), rest);
    }

    /** `extractDataFromSpec(webRef[name])` for a core document, followed by `rest`. */
    method ExtractCore(corpus: Corpus, name: string, ghost rest: seq<Op>) returns (r: Outcome<IngestError>)
      modifies this
      ensures r.Pass? ==> ApplyAll(old(Snapshot()), CoreOps(corpus, name) + rest) == ApplyAll(Snapshot(), rest)
      ensures r.Fail? ==> ApplyAll(old(Snapshot()), CoreOps(corpus, name) + rest) == Failure(r.error)
    {
      var spec := Lookup(corpus, name);
      if spec.None? {
        StepOp(Snapshot(), ReadMissing(name), rest);
        return Fail(MissingSpec(name));
      }
      r := ExtractDataFromSpec(spec.value, rest);
    }

    /** `for (const [, spec] of specs) extractDataFromSpec(spec)`, followed by `rest`. */
    method ExtractAll(specs: Corpus, ghost rest: seq<Op>) returns (r: Outcome<IngestError>)
      modifies this
      ensures r.Pass? ==> ApplyAll(old(Snapshot()), SpecsOps(specs) + rest) == ApplyAll(Snapshot(), rest)
      ensures r.Fail? ==> ApplyAll(old(Snapshot()), SpecsOps(specs) + rest) == Failure(r.error)
    {
      ghost var goal := ApplyAll(Snapshot(), SpecsOps(specs) + rest);
      for i := 0 to |specs|
        invariant ApplyAll(Snapshot(), SpecsOps(specs[i..]) + rest) == goal
      {
        SpecsOpsStep(specs, i, rest);
        r := ExtractDataFromSpec(specs[i].1, SpecsOps(specs[i + 1..]) + rest);
        if r.Fail? {
          return;
        }
      }
      assert SpecsOps(specs[|specs|..]) + rest == rest;
      r := Pass;
    }

    /**
     * `appendPropertyNewValues(list)`: a registered property listed with a
     * truthy `newValues` gets ` | newValues` appended to its value; iterating a
     * missing list raises an error.
     */
    method AppendPropertyNewValues(list: Option<seq<Entry>>) returns (r: Outcome<IngestError>)
      modifies this
      ensures r == Status(AppendList(old(Snapshot()), list))
      ensures r.Pass? ==> Snapshot() == AppendList(old(Snapshot()), list).value
    {
      if list.None? {
        return Fail(PropertiesNotIterable);
      }
      var items := list.value;
      for i := 0 to |items|
        invariant AppendItems(properties, items[i..]) == AppendItems(old(properties), items)
        invariant Snapshot() == old(Snapshot()).(properties := properties)
      {
        assert items[i..][1..] == items[i + 1..];
        var item := items[i];
        if item.name in properties && Truthy(item.newValues) {
          var property := properties[item.name];
          properties := properties[item.name := property.(value := Some(JsString(property.value) + " | " + item.newValues.value))];
        }
      }
      assert items[|items|..] == [];
      r := Pass;
    }

    /**
     * The module's load sequence (lines 116-135): the three core documents,
     * every non-draft document, every draft document, then the `newValues`
     * pass over the whole corpus. The maps become what `Ingest` describes.
     */
    method Load(corpus: Corpus) returns (r: Outcome<IngestError>)
      modifies this
      ensures r == Status(Ingest(old(Snapshot()), corpus))
      ensures r.Pass? ==> Snapshot() == Ingest(old(Snapshot()), corpus).value
    {
      var current := SelectDrafts(corpus, false);
      var drafts := SelectDrafts(corpus, true);
      ghost var tail := SpecsOps(drafts) + [];
      ghost var later := SpecsOps(current) + tail;
      ghost var goal := ApplyAll(Snapshot(), RegistrationOps(corpus));
      RegistrationSplit(corpus);
      r := ExtractCore(corpus, "CSS", CoreOps(corpus, "css-syntax") + (CoreOps(corpus, "css-values") + later));
      if r.Fail? {
        return;
      }
      r := ExtractCore(corpus, "css-syntax", CoreOps(corpus, "css-values") + later);
      if r.Fail? {
        return;
      }
      r := ExtractCore(corpus, "css-values", later);
      if r.Fail? {
        return;
      }
      r := ExtractAll(current, tail);
      if r.Fail? {
        return;
      }
      r := ExtractAll(drafts, []);
      if r.Fail? {
        return;
      }
      assert goal == Success(Snapshot());
      ghost var registered := Snapshot();
      for i := 0 to |corpus|
        invariant AppendCorpus(Snapshot(), corpus[i..]) == AppendCorpus(registered, corpus)
      {
        assert corpus[i..][1..] == corpus[i + 1..];
        r := AppendPropertyNewValues(corpus[i].1.properties);
        if r.Fail? {
          return;
        }
      }
      assert corpus[|corpus|..] == [];
      r := Pass;
    }

    // -------------------------------------------------------------------------
    // Queries

    /**
     * The expansion loop of `getConstituentSyntaxes`: the grammars of the
     * names `added` by the last pass, in order, become the next frontier.
     */
    method NextSyntaxes(added: seq<string>) returns (frontier: seq<Option<string>>)
      ensures frontier == Expansions(Snapshot(), added)
    {
      var t := Snapshot();
      frontier := [];
      for k := 0 to |added|
        invariant frontier + Expansions(t, added[k..]) == Expansions(t, added)
      {
        ExpansionsStep(t, added, k, frontier);
        var entry := GetValue(t, added[k]);
        if entry.Some? {
          frontier := frontier + EntryGrammars(entry.value);
        }
      }
      assert added[|added|..] == [];
    }

    /**
     * The `while (true)` loop of `getConstituentSyntaxes`: the names it
     * accumulates in `allConstituents` are `ClosureNames`, the least closed
     * set of references reachable from `itemSyntax`, in discovery order.
     */
    method CollectConstituents(parse: Parser, itemSyntax: string, omit: seq<string>) returns (all: seq<string>)
      ensures all == ClosureNames(Snapshot(), parse, omit, itemSyntax)
    {
      ghost var t := Snapshot();
      all := [];
      var frontier: seq<Option<string>> := [Some(itemSyntax)];
      while true
        invariant InScope(t, itemSyntax, frontier) && WithinUniverse(t, parse, itemSyntax, all)
        invariant Run(t, parse, omit, itemSyntax, frontier, all) == ClosureNames(t, parse, omit, itemSyntax)
        decreases Unrecorded(Universe(t, parse, itemSyntax), all)
      {
        var oldLength := |all|;
        RunStep(t, parse, omit, itemSyntax, frontier, all);
        var next := GetTypesForSyntaxes(parse, frontier, omit, all);
        if |next| <= oldLength {
          return next;
        }
        var added := next[oldLength..];
        frontier := NextSyntaxes(added);
        all := next;
      }
    }

    /** The output loop of `getConstituentSyntaxes`: one `{type, syntax}` per accumulated name that resolves. */
    method EmitSyntaxes(all: seq<string>) returns (syntaxes: seq<Constituent>)
      ensures syntaxes == Emit(Snapshot(), all)
    {
      syntaxes := [];
      for i := 0 to |all|
        invariant syntaxes + Emit(Snapshot(), all[i..]) == Emit(Snapshot(), all)
      {
        EmitStep(Snapshot(), all, i);
        var syntax := ResolveSyntax(all[i]);
        if syntax.Some? {
          syntaxes := syntaxes + [Constituent(all[i], syntax.value)];
        }
      }
      assert all[|all|..] == [];
    }

    /**
     * The body of the output loop for one name: `getValue(name)`, else the
     * property of that name, reported when it has a value or alternatives.
     */
    method ResolveSyntax(name: string) returns (syntax: Option<string>)
      ensures syntax == SyntaxOf(Snapshot(), name)
    {
      var entry := GetValue(Snapshot(), name);
      if entry.None? {
        entry := if name in properties then Some(properties[name]) else None;
      }
      if entry.Some? && (Truthy(entry.value.value) || entry.value.values.Some?) {
        syntax := Some(if Truthy(entry.value.value) then entry.value.value.value
                       else Join(AngledNames(entry.value.values.value), " | "));
      } else {
        syntax := None;
      }
    }

    /** `getConstituentSyntaxes(itemSyntax, typesToOmit)`. */
    method GetConstituentSyntaxes(parse: Parser, itemSyntax: string, omit: seq<string>) returns (syntaxes: seq<Constituent>)
      ensures syntaxes == ConstituentSyntaxes(Snapshot(), parse, omit, itemSyntax)
    {
      var all := CollectConstituents(parse, itemSyntax, omit);
      syntaxes := EmitSyntaxes(all);
    }

    /** `getSyntax(name, kind, typesToOmit)`: the found syntax and its constituents, or the error raised. */
    method GetSyntax(parse: Parser, name: string, kind: string, omit: seq<string>) returns (r: Result<Syntax, QueryError>)
      ensures r == Query.GetSyntax(Snapshot(), parse, name, kind, omit)
    {
      var found := FindSyntax(Snapshot(), name, kind);
      if found.Failure? {
        return Failure(found.error);
      }
      var constituents := GetConstituentSyntaxes(parse, found.value, omit);
      return Success(Syntax(found.value, constituents));
    }
  }
}
