/**
 * What ingestion does to the seven registry maps of query-syntax.js, as
 * functions on values.
 *
 * Each call of `addToValueMap`, each registration test in `addToConstructMap`
 * and each descriptor it files is one operation (`Op`). Ingesting a document is
 * the stream of operations its nested loops perform, in loop order
 * (`SpecOps`), and ingesting the corpus is the concatenation of those streams
 * in precedence order (`RegistrationOps`) followed by the `newValues` pass
 * (`AppendCorpus`). Every operation claims at most one key of one map and
 * writes it only when the key is absent, so first-definition-wins, idempotence
 * and precedence are proved once, about operation streams.
 */
module Ingestion {
  import opened Wrappers
  import opened Text
  import opened Corpus
  import opened Names

  /** The seven maps: three for constructs, three for value definitions, one for descriptors. */
  datatype Slot =
    | PropertiesSlot | AtRulesSlot | SelectorsSlot
    | TypesSlot | ValuesSlot | FunctionsSlot
    | DescriptorsSlot

  datatype Tables = Tables(
    properties: map<string, Entry>,
    atrules: map<string, Entry>,
    selectors: map<string, Entry>,
    types: map<string, Entry>,
    values: map<string, Entry>,
    functions: map<string, Entry>,
    descriptors: map<string, Entry>)

  const Empty := Tables(map[], map[], map[], map[], map[], map[], map[])

  function Get(t: Tables, s: Slot): map<string, Entry> {
    match s
    case PropertiesSlot => t.properties
    case AtRulesSlot => t.atrules
    case SelectorsSlot => t.selectors
    case TypesSlot => t.types
    case ValuesSlot => t.values
    case FunctionsSlot => t.functions
    case DescriptorsSlot => t.descriptors
  }

  /** Replaces one map; the other six are kept. */
  function Put(t: Tables, s: Slot, m: map<string, Entry>): (r: Tables)
    ensures forall s' :: Get(r, s') == if s' == s then m else Get(t, s')
  {
    match s
    case PropertiesSlot => t.(properties := m)
    case AtRulesSlot => t.(atrules := m)
    case SelectorsSlot => t.(selectors := m)
    case TypesSlot => t.(types := m)
    case ValuesSlot => t.(values := m)
    case FunctionsSlot => t.(functions := m)
    case DescriptorsSlot => t.(descriptors := m)
  }

  /** The entry registered under `key` in one map, if any. */
  function At(t: Tables, s: Slot, key: string): Option<Entry> {
    if key in Get(t, s) then Some(Get(t, s)[key]) else None
  }

  /** Which construct list `addToConstructMap` is filling. */
  datatype ConstructKind = PropertyList | AtRuleList | SelectorList

  function ConstructSlot(k: ConstructKind): Slot {
    match k
    case PropertyList => PropertiesSlot
    case AtRuleList => AtRulesSlot
    case SelectorList => SelectorsSlot
  }

  /** The errors that abort ingestion. */
  datatype IngestError =
    | UnknownValueType(kind: string)       // addToValueMap's default case
    | InvalidDescriptorName(atRule: string)  // getDescriptorName on a name without `@`
    | MissingSpec(specName: string)         // webRef["CSS"] (or another core document) is undefined
    | PropertiesNotIterable                 // appendPropertyNewValues(undefined)

  /** One step of ingestion. */
  datatype Op =
    | Register(target: ConstructKind, item: Entry)  // `if (!map.has(item.name) && item.value) map.set(...)`
    | AddValue(def: Entry)                          // `addToValueMap(def)`
    | AddDescriptor(owner: string, descriptor: Entry)  // one descriptor of the at-rule named `owner`
    | ReadMissing(specName: string)                 // `extractDataFromSpec(undefined)`

  /** A key of a map that an operation fills if it is still absent. */
  datatype Claim = Claim(slot: Slot, key: string, entry: Entry)

  /** `data.name === data.value`: a forwarding artifact of the corpus. */
  predicate IsForward(v: Entry) {
    v.value == Some(v.name)
  }

  /** The map slot `addToValueMap` chooses for a value definition's `type`. */
  function ValueSlot(kind: string): Option<Slot> {
    if kind == "type" then Some(TypesSlot)
    else if kind == "value" then Some(ValuesSlot)
    else if kind == "function" then Some(FunctionsSlot)
    else None
  }

  /** The at-rule a descriptor belongs to: `descriptor.for || item.name`. */
  function DescriptorOwner(owner: string, d: Entry): string {
    if Truthy(d.forRule) then d.forRule.value else owner
  }

  /** What an operation would write, or the error it raises; it never depends on the maps. */
  function ClaimOf(op: Op): Result<Option<Claim>, IngestError> {
    match op
    case Register(k, item) =>
      Success(if Truthy(item.value) then Some(Claim(ConstructSlot(k), item.name, item)) else None)
    case AddValue(v) =>
      if IsForward(v) then Success(None)
      else if v.kind == "selector" then Success(None)
      else if ValueSlot(v.kind).None? then Failure(UnknownValueType(v.kind))
      else Success(Some(Claim(ValueSlot(v.kind).value, StripAngles(v.name), v)))
    case AddDescriptor(owner, d) =>
      var rule := DescriptorOwner(owner, d);
      (match GetDescriptorName(rule, Some(d.name))
       case None => Failure(InvalidDescriptorName(rule))
       case Some(key) => Success(Some(Claim(DescriptorsSlot, key, d))))
    case ReadMissing(name) => Failure(MissingSpec(name))
  }

  /** One operation: the claimed key is written only if absent (first definition wins). */
  function Apply(t: Tables, op: Op): Result<Tables, IngestError> {
    match ClaimOf(op)
    case Failure(e) => Failure(e)
    case Success(None) => Success(t)
    case Success(Some(c)) => Success(Fill(t, c))
  }

  /** Writes the claimed entry unless its key is already present. */
  function Fill(t: Tables, c: Claim): Tables {
    if c.key in Get(t, c.slot) then t else Put(t, c.slot, Get(t, c.slot)[c.key := c.entry])
  }

  /** A stream of operations, stopping at the first error. */
  function ApplyAll(t: Tables, ops: seq<Op>): Result<Tables, IngestError>
    decreases |ops|
  {
    if |ops| == 0 then Success(t)
    else
      match Apply(t, ops[0])
      case Failure(e) => Failure(e)
      case Success(t') => ApplyAll(t', ops[1..])
  }

  /** Continues a partial ingestion with more operations. */
  function Chain(r: Result<Tables, IngestError>, ops: seq<Op>): Result<Tables, IngestError> {
    match r
    case Failure(e) => Failure(e)
    case Success(t) => ApplyAll(t, ops)
  }

  // ---------------------------------------------------------------------------
  // The operation streams of the loops of query-syntax.js

  /** `for (const value of values) addToValueMap(value)`. */
  function ValueOps(defs: seq<Entry>): (ops: seq<Op>)
    ensures |ops| == |defs|
    ensures forall i :: 0 <= i < |defs| ==> ops[i] == AddValue(defs[i])
    decreases |defs|
  {
    if |defs| == 0 then [] else [AddValue(defs[0])] + ValueOps(defs[1..])
  }

  /** The descriptor loop of `addToConstructMap` for the item named `owner`. */
  function DescriptorOps(owner: string, ds: seq<Entry>): (ops: seq<Op>)
    ensures |ops| == |ds|
    ensures forall i :: 0 <= i < |ds| ==> ops[i] == AddDescriptor(owner, ds[i])
    decreases |ds|
  {
    if |ds| == 0 then [] else [AddDescriptor(owner, ds[0])] + DescriptorOps(owner, ds[1..])
  }

  /** One iteration of `addToConstructMap`'s loop: register, then its values, then its descriptors. */
  function ItemOps(k: ConstructKind, item: Entry): seq<Op> {
    [Register(k, item)] + ValueOps(ListOrEmpty(item.values)) + DescriptorOps(item.name, ListOrEmpty(item.descriptors))
  }

  function ItemsOps(k: ConstructKind, items: seq<Entry>): seq<Op>
    decreases |items|
  {
    if |items| == 0 then [] else ItemOps(k, items[0]) + ItemsOps(k, items[1..])
  }

  /** `addToConstructMap(map, list)`; a missing list does nothing. */
  function ListOps(k: ConstructKind, list: Option<seq<Entry>>): seq<Op> {
    match list
    case None => []
    case Some(items) => ItemsOps(k, items)
  }

  /** The loop over a document's top-level values: each value, then its direct children. */
  function TopValueOps(defs: seq<Entry>): seq<Op>
    decreases |defs|
  {
    if |defs| == 0 then []
    else [AddValue(defs[0])] + ValueOps(ListOrEmpty(defs[0].values)) + TopValueOps(defs[1..])
  }

  /** `extractDataFromSpec(spec)`. */
  function SpecOps(spec: Spec): seq<Op> {
    ListOps(PropertyList, spec.properties)
      + ListOps(AtRuleList, spec.atrules)
      + ListOps(SelectorList, spec.selectors)
      + TopValueOps(ListOrEmpty(spec.values))
  }

  /** `for (const [, spec] of specs) extractDataFromSpec(spec)`. */
  function SpecsOps(specs: Corpus): seq<Op>
    decreases |specs|
  {
    if |specs| == 0 then [] else SpecOps(specs[0].1) + SpecsOps(specs[1..])
  }

  /** `extractDataFromSpec(webRef[name])` for a core document. */
  function CoreOps(corpus: Corpus, name: string): seq<Op> {
    match Lookup(corpus, name)
    case None => [ReadMissing(name)]
    case Some(spec) => SpecOps(spec)
  }

  /** The documents whose names pass (or fail) the draft test, in corpus order. */
  function SelectDrafts(corpus: Corpus, draft: bool): (r: Corpus)
    ensures forall i :: 0 <= i < |r| ==> IsDraftName(r[i].0) == draft
    ensures forall e :: e in r <==> e in corpus && IsDraftName(e.0) == draft
    decreases |corpus|
  {
    if |corpus| == 0 then []
    else if IsDraftName(corpus[0].0) == draft then [corpus[0]] + SelectDrafts(corpus[1..], draft)
    else SelectDrafts(corpus[1..], draft)
  }

  /** The three core documents, ingested first (query-syntax.js lines 116-118). */
  function CoreStreamOps(corpus: Corpus): seq<Op> {
    CoreOps(corpus, "CSS") + CoreOps(corpus, "css-syntax") + CoreOps(corpus, "css-values")
  }

  /** Core documents, then every non-draft document (the core ones again among them). */
  function StableOps(corpus: Corpus): seq<Op> {
    CoreStreamOps(corpus) + SpecsOps(SelectDrafts(corpus, false))
  }

  /** The whole first phase (lines 116-130): stable documents, then drafts. */
  function RegistrationOps(corpus: Corpus): seq<Op> {
    StableOps(corpus) + SpecsOps(SelectDrafts(corpus, true))
  }

  // ---------------------------------------------------------------------------
  // The newValues pass

  /** `property.value += ` | ${item.newValues}`` for one item whose property is registered. */
  function AppendOne(props: map<string, Entry>, item: Entry): map<string, Entry> {
    if item.name in props && Truthy(item.newValues) then
      var p := props[item.name];
      props[item.name := p.(value := Some(JsString(p.value) + " | " + item.newValues.value))]
    else
      props
  }

  /** `appendPropertyNewValues(list)` on the property map. */
  function AppendItems(props: map<string, Entry>, items: seq<Entry>): map<string, Entry>
    decreases |items|
  {
    if |items| == 0 then props else AppendItems(AppendOne(props, items[0]), items[1..])
  }

  /** `appendPropertyNewValues(list)`: iterating an undefined list raises an error. */
  function AppendList(t: Tables, list: Option<seq<Entry>>): Result<Tables, IngestError> {
    match list
    case None => Failure(PropertiesNotIterable)
    case Some(items) => Success(t.(properties := AppendItems(t.properties, items)))
  }

  /** Lines 133-135: every document's property list, in corpus order. */
  function AppendCorpus(t: Tables, corpus: Corpus): Result<Tables, IngestError>
    decreases |corpus|
  {
    if |corpus| == 0 then Success(t)
    else
      match AppendList(t, corpus[0].1.properties)
      case Failure(e) => Failure(e)
      case Success(t') => AppendCorpus(t', corpus[1..])
  }

  /** The registry built at module load (lines 113-135), starting from the maps `t`. */
  function Ingest(t: Tables, corpus: Corpus): Result<Tables, IngestError> {
    match ApplyAll(t, RegistrationOps(corpus))
    case Failure(e) => Failure(e)
    case Success(t') => AppendCorpus(t', corpus)
  }

  // ---------------------------------------------------------------------------
  // Operation streams: composition, first-definition-wins, idempotence, precedence

  lemma {:induction false} ApplyAllAppend(t: Tables, a: seq<Op>, b: seq<Op>)
    ensures ApplyAll(t, a + b) == Chain(ApplyAll(t, a), b)
    decreases |a|
  {
    if |a| == 0 {
      assert a + b == b;
    } else {
      assert (a + b)[0] == a[0] && (a + b)[1..] == a[1..] + b;
      match Apply(t, a[0])
      case Failure(_) =>
      case Success(t') => ApplyAllAppend(t', a[1..], b);
    }
  }

  /** The entry `op` would register under `key` of map `s`, if it claims that key. */
  function ClaimFor(op: Op, s: Slot, key: string): Option<Entry> {
    match ClaimOf(op)
    case Success(Some(c)) => ClaimedAt(c, s, key)
    case _ => None
  }

  /** The entry a claim offers for `key` of map `s`, if it is that key's claim. */
  function ClaimedAt(c: Claim, s: Slot, key: string): Option<Entry> {
    if c.slot == s && c.key == key then Some(c.entry) else None
  }

  function OrElse(a: Option<Entry>, b: Option<Entry>): Option<Entry> {
    if a.Some? then a else b
  }

  /** The first claim on `key` of map `s` in a stream: the definition that wins it. */
  function FirstClaim(ops: seq<Op>, s: Slot, key: string): Option<Entry>
    decreases |ops|
  {
    if |ops| == 0 then None else OrElse(ClaimFor(ops[0], s, key), FirstClaim(ops[1..], s, key))
  }

  /** Nothing registered in `t` is lost or replaced in `t'`. */
  ghost predicate Extends(t: Tables, t': Tables) {
    forall s, key :: At(t, s, key).Some? ==> At(t', s, key) == At(t, s, key)
  }

  lemma ApplyAt(t: Tables, op: Op, t': Tables)
    requires Apply(t, op) == Success(t')
    ensures forall s, key :: At(t', s, key) == OrElse(At(t, s, key), ClaimFor(op, s, key))
  {
    match ClaimOf(op)
    case Failure(_) =>
    case Success(None) =>
    case Success(Some(c)) => FillAt(t, c);
  }

  /** Filling a claim keeps every present entry and sets only the claimed key, if it was absent. */
  lemma FillAt(t: Tables, c: Claim)
    ensures forall s, key :: At(Fill(t, c), s, key) == OrElse(At(t, s, key), ClaimedAt(c, s, key))
  {
    if c.key !in Get(t, c.slot) {
      var m := Get(t, c.slot)[c.key := c.entry];
      forall s, key ensures At(Fill(t, c), s, key) == OrElse(At(t, s, key), ClaimedAt(c, s, key)) {
        assert Get(Fill(t, c), s) == if s == c.slot then m else Get(t, s);
      }
    }
  }

  /**
   * After a stream of operations, each key holds what it held before or, if it
   * was absent, the first definition the stream offered for it.
   */
  lemma {:induction false} ApplyAllWinner(t: Tables, ops: seq<Op>, t': Tables)
    requires ApplyAll(t, ops) == Success(t')
    ensures forall s, key :: At(t', s, key) == OrElse(At(t, s, key), FirstClaim(ops, s, key))
    ensures Extends(t, t')
    decreases |ops|
  {
    if |ops| > 0 {
      var t1 := Apply(t, ops[0]).value;
      ApplyAt(t, ops[0], t1);
      ApplyAllWinner(t1, ops[1..], t');
    }
  }

  lemma {:induction false} FirstClaimAppend(a: seq<Op>, b: seq<Op>, s: Slot, key: string)
    ensures FirstClaim(a + b, s, key) == OrElse(FirstClaim(a, s, key), FirstClaim(b, s, key))
    decreases |a|
  {
    if |a| == 0 {
      assert a + b == b;
    } else {
      assert (a + b)[0] == a[0] && (a + b)[1..] == a[1..] + b;
      FirstClaimAppend(a[1..], b, s, key);
    }
  }

  /**
   * Replaying a stream that has already been applied, on the maps it produced or
   * on any later extension of them, changes nothing.
   */
  lemma {:induction false} ReplayIsNoOp(t: Tables, ops: seq<Op>, t1: Tables, t2: Tables)
    requires ApplyAll(t, ops) == Success(t1) && Extends(t1, t2)
    ensures ApplyAll(t2, ops) == Success(t2)
    decreases |ops|
  {
    if |ops| > 0 {
      var ta := Apply(t, ops[0]).value;
      ApplyAt(t, ops[0], ta);
      ApplyAllWinner(ta, ops[1..], t1);
      if ClaimOf(ops[0]).Success? && ClaimOf(ops[0]).value.Some? {
        var c := ClaimOf(ops[0]).value.value;
        assert At(ta, c.slot, c.key).Some?;
        assert At(t2, c.slot, c.key).Some?;
      }
      ReplayIsNoOp(ta, ops[1..], t1, t2);
    }
  }

  /** Re-running `extractDataFromSpec` on a document just ingested leaves all seven maps unchanged. */
  lemma ExtractTwiceIsIdempotent(t: Tables, spec: Spec, t1: Tables)
    requires ApplyAll(t, SpecOps(spec)) == Success(t1)
    ensures ApplyAll(t1, SpecOps(spec)) == Success(t1)
  {
    ApplyAllWinner(t1, [], t1);
    ReplayIsNoOp(t, SpecOps(spec), t1, t1);
  }

  /**
   * Ingesting a document again after others (the core documents meet their own
   * names again in the non-draft pass) changes nothing either.
   */
  lemma ReingestAfterOthersIsNoOp(t: Tables, spec: Spec, others: seq<Op>, t1: Tables, t2: Tables)
    requires ApplyAll(t, SpecOps(spec)) == Success(t1)
    requires ApplyAll(t1, others) == Success(t2)
    ensures ApplyAll(t2, SpecOps(spec)) == Success(t2)
  {
    ApplyAllWinner(t1, others, t2);
    ReplayIsNoOp(t, SpecOps(spec), t1, t2);
  }

  /** A definition offered by an earlier part of a stream is never displaced by a later part. */
  lemma PrefixDefinitionsWin(t: Tables, a: seq<Op>, b: seq<Op>, t': Tables, s: Slot, key: string)
    requires ApplyAll(t, a + b) == Success(t')
    requires At(t, s, key).None? && FirstClaim(a, s, key).Some?
    ensures At(t', s, key) == FirstClaim(a, s, key)
  {
    ApplyAllWinner(t, a + b, t');
    FirstClaimAppend(a, b, s, key);
  }

  /** After the registration passes, a key defined by one of the three core documents holds the core definition. */
  lemma CoreDefinitionsWin(corpus: Corpus, t': Tables, s: Slot, key: string)
    requires ApplyAll(Empty, RegistrationOps(corpus)) == Success(t')
    requires FirstClaim(CoreStreamOps(corpus), s, key).Some?
    ensures At(t', s, key) == FirstClaim(CoreStreamOps(corpus), s, key)
  {
    var core := CoreStreamOps(corpus);
    var stable := SpecsOps(SelectDrafts(corpus, false));
    var drafts := SpecsOps(SelectDrafts(corpus, true));
    ConcatAssoc(core, stable, drafts);
    PrefixDefinitionsWin(Empty, core, stable + drafts, t', s, key);
  }

  /**
   * A draft document never displaces a definition that a core or stable
   * document offers: the key holds the first stable definition.
   */
  lemma DraftsNeverDisplaceStable(corpus: Corpus, t': Tables, s: Slot, key: string)
    requires ApplyAll(Empty, RegistrationOps(corpus)) == Success(t')
    requires FirstClaim(StableOps(corpus), s, key).Some?
    ensures At(t', s, key) == FirstClaim(StableOps(corpus), s, key)
  {
    PrefixDefinitionsWin(Empty, StableOps(corpus), SpecsOps(SelectDrafts(corpus, true)), t', s, key);
  }

  /**
   * A registered entry as the newValues pass leaves it: a property's `value`
   * gains the corpus's suffix for its name, any other entry is kept as it is.
   */
  function Loaded(e: Entry, s: Slot, corpus: Corpus, key: string): Entry {
    if s == PropertiesSlot then e.(value := Appended(e.value, CorpusSuffix(corpus, key))) else e
  }

  /**
   * Loading succeeds only after the registration passes do, and each entry
   * they register ends up in the loaded maps as the newValues pass leaves it.
   */
  lemma LoadingKeepsRegistered(corpus: Corpus, t'': Tables, s: Slot, key: string)
    requires Ingest(Empty, corpus) == Success(t'')
    ensures ApplyAll(Empty, RegistrationOps(corpus)).Success?
    ensures var t' := ApplyAll(Empty, RegistrationOps(corpus)).value;
      (At(t', s, key).None? <==> At(t'', s, key).None?)
      && (At(t', s, key).Some? ==> At(t'', s, key) == Some(Loaded(At(t', s, key).value, s, corpus, key)))
  {
    var t' := ApplyAll(Empty, RegistrationOps(corpus)).value;
    assert AppendCorpus(t', corpus) == Success(t'');
    AppendCorpusEffect(t', corpus, t'');
  }

  /**
   * After loading, a key defined by one of the three core documents holds the
   * core definition, with the newValues suffix appended when it is a property.
   */
  lemma CoreDefinitionsSurviveLoading(corpus: Corpus, t'': Tables, s: Slot, key: string)
    requires Ingest(Empty, corpus) == Success(t'')
    requires FirstClaim(CoreStreamOps(corpus), s, key).Some?
    ensures At(t'', s, key) == Some(Loaded(FirstClaim(CoreStreamOps(corpus), s, key).value, s, corpus, key))
  {
    LoadingKeepsRegistered(corpus, t'', s, key);
    CoreDefinitionsWin(corpus, ApplyAll(Empty, RegistrationOps(corpus)).value, s, key);
  }

  /**
   * After loading, a key defined by a non-draft document holds the first such
   * definition, with the newValues suffix appended when it is a property.
   */
  lemma StableDefinitionsSurviveLoading(corpus: Corpus, t'': Tables, s: Slot, key: string)
    requires Ingest(Empty, corpus) == Success(t'')
    requires FirstClaim(StableOps(corpus), s, key).Some?
    ensures At(t'', s, key) == Some(Loaded(FirstClaim(StableOps(corpus), s, key).value, s, corpus, key))
  {
    LoadingKeepsRegistered(corpus, t'', s, key);
    DraftsNeverDisplaceStable(corpus, ApplyAll(Empty, RegistrationOps(corpus)).value, s, key);
  }

  /** Only one level of nesting under a top-level value definition is ingested. */
  lemma {:induction false} TopValuesReachOneLevel(defs: seq<Entry>, v: Entry)
    ensures AddValue(v) in TopValueOps(defs) <==>
      exists i :: 0 <= i < |defs| && (v == defs[i] || v in ListOrEmpty(defs[i].values))
    decreases |defs|
  {
    if |defs| > 0 {
      TopValuesReachOneLevel(defs[1..], v);
      var head := [AddValue(defs[0])] + ValueOps(ListOrEmpty(defs[0].values));
      assert TopValueOps(defs) == head + TopValueOps(defs[1..]);
      assert AddValue(v) in head <==> v == defs[0] || v in ListOrEmpty(defs[0].values) by {
        if v in ListOrEmpty(defs[0].values) {
          var j :| 0 <= j < |ListOrEmpty(defs[0].values)| && ListOrEmpty(defs[0].values)[j] == v;
          assert head[j + 1] == AddValue(v);
        }
      }
      if exists i :: 0 <= i < |defs| && (v == defs[i] || v in ListOrEmpty(defs[i].values)) {
        var i :| 0 <= i < |defs| && (v == defs[i] || v in ListOrEmpty(defs[i].values));
        if i > 0 {
          assert defs[1..][i - 1] == defs[i];
        }
      }
      if exists i :: 0 <= i < |defs[1..]| && (v == defs[1..][i] || v in ListOrEmpty(defs[1..][i].values)) {
        var i :| 0 <= i < |defs[1..]| && (v == defs[1..][i] || v in ListOrEmpty(defs[1..][i].values));
        assert defs[i + 1] == defs[1..][i];
      }
    }
  }

  // ---------------------------------------------------------------------------
  // The newValues pass: append-only accumulation

  /** The text the pass appends to property `name` from one list: ` | nv` per truthy `newValues`, in order. */
  function NewValuesSuffix(items: seq<Entry>, name: string): string
    decreases |items|
  {
    if |items| == 0 then ""
    else
      (if items[0].name == name && Truthy(items[0].newValues) then " | " + items[0].newValues.value else "")
        + NewValuesSuffix(items[1..], name)
  }

  /** The same over every document of the corpus, in corpus order. */
  function CorpusSuffix(corpus: Corpus, name: string): string
    decreases |corpus|
  {
    if |corpus| == 0 then ""
    else NewValuesSuffix(ListOrEmpty(corpus[0].1.properties), name) + CorpusSuffix(corpus[1..], name)
  }

  /** A value after `suffix` was appended to it with `+=` (nothing happens for an empty suffix). */
  function Appended(v: Option<string>, suffix: string): Option<string> {
    if suffix == "" then v else Some(JsString(v) + suffix)
  }

  lemma AppendedTwice(v: Option<string>, a: string, b: string)
    ensures Appended(Appended(v, a), b) == Appended(v, a + b)
  {
    if a != "" && b != "" {
      assert JsString(v) + a + b == JsString(v) + (a + b);
    }
    if a == "" {
      assert a + b == b;
    }
    if b == "" {
      assert a + b == a;
    }
  }

  /**
   * `appendPropertyNewValues(list)`: the registered properties are the same keys;
   * each keeps its record except that its value has the list's fragments for
   * it appended, in list order; unregistered names are ignored.
   */
  lemma {:induction false} AppendItemsEffect(props: map<string, Entry>, items: seq<Entry>)
    ensures AppendItems(props, items).Keys == props.Keys
    ensures forall k :: k in props ==>
      AppendItems(props, items)[k] == props[k].(value := Appended(props[k].value, NewValuesSuffix(items, k)))
    decreases |items|
  {
    if |items| > 0 {
      var props1 := AppendOne(props, items[0]);
      AppendItemsEffect(props1, items[1..]);
      forall k | k in props
        ensures AppendItems(props, items)[k] == props[k].(value := Appended(props[k].value, NewValuesSuffix(items, k)))
      {
        var a := if items[0].name == k && Truthy(items[0].newValues) then " | " + items[0].newValues.value else "";
        if a != "" {
          assert JsString(props[k].value) + " | " + items[0].newValues.value == JsString(props[k].value) + a;
        }
        assert props1[k] == props[k].(value := Appended(props[k].value, a));
        AppendedTwice(props[k].value, a, NewValuesSuffix(items[1..], k));
      }
    }
  }

  /** The newValues pass over the corpus fails exactly when some document has no property list. */
  lemma {:induction false} AppendCorpusFailure(t: Tables, corpus: Corpus)
    ensures AppendCorpus(t, corpus).Failure? <==>
      exists i :: 0 <= i < |corpus| && corpus[i].1.properties.None?
    decreases |corpus|
  {
    if |corpus| > 0 && corpus[0].1.properties.Some? {
      var t1 := t.(properties := AppendItems(t.properties, corpus[0].1.properties.value));
      AppendCorpusFailure(t1, corpus[1..]);
      if exists i :: 0 <= i < |corpus| && corpus[i].1.properties.None? {
        var i :| 0 <= i < |corpus| && corpus[i].1.properties.None?;
        assert corpus[1..][i - 1] == corpus[i];
      }
      if exists i :: 0 <= i < |corpus[1..]| && corpus[1..][i].1.properties.None? {
        var i :| 0 <= i < |corpus[1..]| && corpus[1..][i].1.properties.None?;
        assert corpus[1..][i] == corpus[i + 1];
      }
    }
  }

  /**
   * When the newValues pass succeeds it changes only the values of registered
   * properties, appending every fragment for each, in corpus order.
   */
  lemma {:induction false} AppendCorpusEffect(t: Tables, corpus: Corpus, t': Tables)
    requires AppendCorpus(t, corpus) == Success(t')
    ensures forall s :: s != PropertiesSlot ==> Get(t', s) == Get(t, s)
    ensures t'.properties.Keys == t.properties.Keys
    ensures forall k :: k in t.properties ==>
      t'.properties[k] == t.properties[k].(value := Appended(t.properties[k].value, CorpusSuffix(corpus, k)))
    decreases |corpus|
  {
    if |corpus| > 0 {
      var items := corpus[0].1.properties.value;
      var t1 := t.(properties := AppendItems(t.properties, items));
      assert AppendCorpus(t1, corpus[1..]) == Success(t');
      AppendItemsEffect(t.properties, items);
      ReplacingPropertiesKeepsOthers(t, AppendItems(t.properties, items));
      AppendCorpusEffect(t1, corpus[1..], t');
      forall k | k in t.properties
        ensures t'.properties[k] == t.properties[k].(value := Appended(t.properties[k].value, CorpusSuffix(corpus, k)))
      {
        assert CorpusSuffix(corpus, k) == NewValuesSuffix(items, k) + CorpusSuffix(corpus[1..], k);
        AppendedTwice(t.properties[k].value, NewValuesSuffix(items, k), CorpusSuffix(corpus[1..], k));
      }
    }
  }

  lemma ReplacingPropertiesKeepsOthers(t: Tables, props: map<string, Entry>)
    ensures forall s :: s != PropertiesSlot ==> Get(t.(properties := props), s) == Get(t, s)
  {
  }
}
