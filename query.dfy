/**
 * The query facade of query-syntax.js (`getSyntax`): per-kind normalisation
 * of the queried name, lookup in the registry, and its error conditions.
 */
module Query {
  import opened Wrappers
  import opened Text
  import opened Corpus
  import opened Grammar
  import opened Names
  import opened Ingestion
  import opened Closure

  /** The errors `getSyntax` raises. */
  datatype QueryError =
    | UnknownKind(kind: string)       // the default case of the kind switch
    | InvalidDescriptor(name: string)  // getDescriptorName on a name without `@`
    | NotFound(display: string)       // "Could not find '<display>' in specifications."

  /** The five kinds the facade accepts. */
  const Kinds: seq<string> := ["property", "type", "function", "at-rule", "at-rule-descriptor"]

  /** The type-map key of a queried type name: brackets are stripped only when the name ends in `>`. */
  function TypeKey(name: string): string {
    if EndsWith(name, ">") then StripAngles(name) else name
  }

  /** The function-map key of a queried function name: `()` is appended when absent. */
  function FunctionKey(name: string): string {
    if EndsWith(name, "()") then name else name + "()"
  }

  /** `data.values.map((s) => s.name)`: the alternatives' names, without brackets. */
  function BareNames(vs: seq<Entry>): (ns: seq<string>)
    ensures |ns| == |vs|
    ensures forall i :: 0 <= i < |vs| ==> ns[i] == vs[i].name
    decreases |vs|
  {
    if |vs| == 0 then [] else [vs[0].name] + BareNames(vs[1..])
  }

  /** The syntax read from a type definition: its value, else its alternatives' names joined by ` | `. */
  function TypeSyntax(e: Entry): Option<string> {
    if Truthy(e.value) then e.value
    else if e.values.Some? then Some(Join(BareNames(e.values.value), " | "))
    else None
  }

  /** `map.has(key) ? map.get(key).value : undefined`. */
  function ValueOf(m: map<string, Entry>, key: string): Option<string> {
    if key in m then m[key].value else None
  }

  /** `if (!syntax) throw ...`: a missing or empty syntax is reported under the display name. */
  function Found(syntax: Option<string>, display: string): (r: Result<string, QueryError>)
    ensures r.Success? <==> Truthy(syntax)
    ensures r.Success? ==> r.value == syntax.value && r.value != ""
    ensures r.Failure? ==> r.error == NotFound(display)
  {
    if Truthy(syntax) then Success(syntax.value) else Failure(NotFound(display))
  }

  /**
   * `map.has(key) ? map.get(key).value : undefined` followed by the "Could not
   * find" check: the answer is the registered value exactly when it is truthy,
   * and a miss is reported under the display name.
   */
  predicate ReadsValue(r: Result<string, QueryError>, m: map<string, Entry>, key: string, display: string) {
    (r.Success? <==> key in m && Truthy(m[key].value))
    && (r.Success? ==> Some(r.value) == m[key].value)
    && (r.Failure? ==> r.error == NotFound(display))
  }

  /**
   * The kind switch of `getSyntax` and its "Could not find" check. A found
   * syntax is never empty; an unknown kind and a descriptor name without `@`
   * are the only other errors, each raised exactly in its own case.
   */
  function FindSyntax(t: Tables, name: string, kind: string): (r: Result<string, QueryError>)
    ensures r.Success? ==> r.value != ""
    ensures r.Failure? && r.error.UnknownKind? <==> kind !in Kinds
    ensures r.Failure? && r.error.InvalidDescriptor? <==> kind == "at-rule-descriptor" && !StartsWith(name, "@")
    ensures kind == "property" ==> ReadsValue(r, t.properties, name, name)
    ensures kind == "at-rule" ==> ReadsValue(r, t.atrules, name, name)
    ensures kind == "function" ==> ReadsValue(r, t.functions, FunctionKey(name), Angled(FunctionKey(name)))
    ensures kind == "at-rule-descriptor" && StartsWith(name, "@") ==>
      ReadsValue(r, t.descriptors, GetDescriptorName(name, None).value, name)
    ensures kind == "type" ==> (r.Success? <==> TypeKey(name) in t.types && Truthy(TypeSyntax(t.types[TypeKey(name)])))
    ensures kind == "type" && r.Success? ==> Some(r.value) == TypeSyntax(t.types[TypeKey(name)])
    ensures kind == "type" && r.Failure? ==> r.error == NotFound(Angled(TypeKey(name)))
  {
    if kind == "property" then
      Found(ValueOf(t.properties, name), name)
    else if kind == "type" then
      var key := TypeKey(name);
      Found(if key in t.types then TypeSyntax(t.types[key]) else None, Angled(key))
    else if kind == "function" then
      var key := FunctionKey(name);
      Found(ValueOf(t.functions, key), Angled(key))
    else if kind == "at-rule" then
      Found(ValueOf(t.atrules, name), name)
    else if kind == "at-rule-descriptor" then
      match GetDescriptorName(name, None)
      case None => Failure(InvalidDescriptor(name))
      case Some(key) => Found(ValueOf(t.descriptors, key), name)
    else
      Failure(UnknownKind(kind))
  }

  /** What `getSyntax` returns: `{syntax, constituents}`. */
  datatype Syntax = Syntax(syntax: string, constituents: seq<Constituent>)

  /** `getSyntax(name, kind, omit)` on the registry `t`. */
  ghost function GetSyntax(t: Tables, parse: Parser, name: string, kind: string, omit: seq<string>): Result<Syntax, QueryError> {
    match FindSyntax(t, name, kind)
    case Failure(e) => Failure(e)
    case Success(s) => Success(Syntax(s, ConstituentSyntaxes(t, parse, omit, s)))
  }

  // ---------------------------------------------------------------------------
  // Properties of the facade

  /** A type may be queried with or without its brackets: `<n>` and `n` give the same answer. */
  lemma TypeBracketsAreOptional(t: Tables, n: string)
    requires !EndsWith(n, ">")
    ensures FindSyntax(t, Angled(n), "type") == FindSyntax(t, n, "type")
  {
    assert EndsWith(Angled(n), ">");
    StripAnglesOfAngled(n);
  }

  /** A function may be queried with or without `()`: `f()` and `f` give the same answer. */
  lemma FunctionParensAreOptional(t: Tables, n: string)
    requires !EndsWith(n, "()")
    ensures FindSyntax(t, n + "()", "function") == FindSyntax(t, n, "function")
  {
    assert EndsWith(n + "()", "()") by {
      assert (n + "()")[|n + "()"| - 2..] == "()";
    }
  }

  /**
   * A type without a truthy value of its own is answered with the names of its
   * alternatives joined by ` | `, without brackets.
   */
  lemma AlternativesOnlyTypeIsFoundByNames(t: Tables, k: string, vs: seq<Entry>)
    requires k in t.types && !Truthy(t.types[k].value) && t.types[k].values == Some(vs)
    ensures FindSyntax(t, Angled(k), "type") == Found(Some(Join(BareNames(vs), " | ")), Angled(k))
  {
    assert EndsWith(Angled(k), ">");
    StripAnglesOfAngled(k);
  }

  /** Bracketing every name of a ` | `-joined list adds two characters per name. */
  lemma {:induction false} BracketingLengthens(vs: seq<Entry>)
    ensures |Join(AngledNames(vs), " | ")| == |Join(BareNames(vs), " | ")| + 2 * |vs|
    decreases |vs|
  {
    if |vs| > 1 {
      BracketingLengthens(vs[1..]);
      assert AngledNames(vs)[1..] == AngledNames(vs[1..]);
      assert BareNames(vs)[1..] == BareNames(vs[1..]);
    }
  }

  /**
   * The same alternatives-only type is written differently by the two code
   * paths: `getSyntax` joins the bare names, while the constituent list of
   * `getConstituentSyntaxes` joins the bracketed `<name>` forms.
   */
  lemma ReportedAlternativesAreBracketed(t: Tables, k: string, vs: seq<Entry>)
    requires !Contains(k, "()") && k in t.types && !Truthy(t.types[k].value) && t.types[k].values == Some(vs)
    ensures SyntaxOf(t, k) == Some(Join(AngledNames(vs), " | "))
    ensures FindSyntax(t, Angled(k), "type") == Found(Some(Join(BareNames(vs), " | ")), Angled(k))
    ensures |Join(AngledNames(vs), " | ")| == |Join(BareNames(vs), " | ")| + 2 * |vs|
  {
    AlternativesOnlyTypeIsFoundByNames(t, k, vs);
    BracketingLengthens(vs);
  }

  /**
   * A type definition `<n>` registered by ingestion is found by a query for
   * `<n>`, with the syntax it was registered with.
   */
  lemma RegisteredTypeIsFound(t: Tables, v: Entry)
    requires EndsWith(v.name, ">") && !IsForward(v) && v.kind == "type" && Truthy(v.value)
    requires At(t, TypesSlot, StripAngles(v.name)) == Some(v)
    ensures ClaimOf(AddValue(v)) == Success(Some(Claim(TypesSlot, StripAngles(v.name), v)))
    ensures FindSyntax(t, v.name, "type") == Success(v.value.value)
  {
  }

  /**
   * A query for `@rule/descriptor` reads the key under which ingestion files
   * that descriptor of that at-rule, and reports a miss under the queried name.
   */
  lemma DescriptorQueryReadsIngestionKey(t: Tables, atRule: string, d: Entry)
    requires StartsWith(atRule, "@") && '/' !in atRule && d.name != "" && !Truthy(d.forRule)
    ensures ClaimOf(AddDescriptor(atRule, d)).Success?
    ensures ClaimOf(AddDescriptor(atRule, d)).value.Some?
    ensures var key := ClaimOf(AddDescriptor(atRule, d)).value.value.key;
      FindSyntax(t, atRule + "/" + d.name, "at-rule-descriptor") == Found(ValueOf(t.descriptors, key), atRule + "/" + d.name)
  {
    CombinedNameMatchesIngestionKey(atRule, d.name);
  }

  /**
   * The constituents of a successful query: each is a recorded, non-omitted
   * name with the syntax it resolves to, each name at most once, and every
   * resolvable reference of the found syntax is among them.
   */
  lemma {:induction false} QueryConstituents(t: Tables, parse: Parser, name: string, kind: string, omit: seq<string>)
    requires GetSyntax(t, parse, name, kind, omit).Success?
    ensures var q := GetSyntax(t, parse, name, kind, omit).value;
      forall i :: 0 <= i < |q.constituents| ==>
        !Omitted(omit, q.constituents[i].name) && SyntaxOf(t, q.constituents[i].name) == Some(q.constituents[i].syntax)
    ensures var q := GetSyntax(t, parse, name, kind, omit).value;
      forall i, j :: 0 <= i < j < |q.constituents| ==> q.constituents[i].name != q.constituents[j].name
    ensures var q := GetSyntax(t, parse, name, kind, omit).value;
      forall x :: RefersTo(parse, omit, Some(q.syntax), x) && SyntaxOf(t, x).Some? ==>
        exists i :: 0 <= i < |q.constituents| && q.constituents[i].name == x
  {
    var s := FindSyntax(t, name, kind).value;
    assert GetSyntax(t, parse, name, kind, omit).value == Syntax(s, ConstituentSyntaxes(t, parse, omit, s));
    ConstituentsAreDistinctAndComplete(t, parse, omit, s);
  }
}
