/**
 * The specification corpus as the registry receives it: one record per
 * specification document, keyed by the document's short name, in the order in
 * which `Object.entries` lists them. Absent JavaScript fields are `None`.
 */
module Corpus {
  import opened Wrappers

  /**
   * One definition record of the corpus: a property, at-rule, selector, value
   * definition, or at-rule descriptor. `kind` is the record's `type` field, read
   * only for value definitions; `forRule` is a descriptor's `for` field.
   */
  datatype Entry = Entry(
    name: string,
    kind: string,
    value: Option<string>,
    values: Option<seq<Entry>>,
    descriptors: Option<seq<Entry>>,
    newValues: Option<string>,
    forRule: Option<string>)

  /** One specification document. */
  datatype Spec = Spec(
    properties: Option<seq<Entry>>,
    atrules: Option<seq<Entry>>,
    selectors: Option<seq<Entry>>,
    values: Option<seq<Entry>>)

  /** The whole corpus, in `Object.entries` order. */
  type Corpus = seq<(string, Spec)>

  /** JavaScript truthiness of an optional string: present and non-empty. */
  predicate Truthy(s: Option<string>) {
    s.Some? && s.value != ""
  }

  /** The string JavaScript's `+` makes of an optional string (`undefined` when absent). */
  function JsString(s: Option<string>): string {
    match s
    case Some(v) => v
    case None => "undefined"
  }

  /** `items || []`. */
  function ListOrEmpty(items: Option<seq<Entry>>): seq<Entry> {
    items.GetOr([])
  }

  /** `webRef[name]`: the first document with that name, if any. */
  function Lookup(corpus: Corpus, name: string): (r: Option<Spec>)
    ensures r.Some? <==> exists i :: 0 <= i < |corpus| && corpus[i].0 == name
    ensures r.Some? ==> exists i :: 0 <= i < |corpus| && corpus[i] == (name, r.value)
  {
    if |corpus| == 0 then None
    else if corpus[0].0 == name then Some(corpus[0].1)
    else
      var r := Lookup(corpus[1..], name);
      assert forall i :: 1 <= i < |corpus| ==> corpus[i] == corpus[1..][i - 1];
      r
  }

  /** The document names of the corpus, in order. */
  function Names(corpus: Corpus): (names: seq<string>)
    ensures |names| == |corpus|
    ensures forall i :: 0 <= i < |corpus| ==> names[i] == corpus[i].0
  {
    if |corpus| == 0 then [] else [corpus[0].0] + Names(corpus[1..])
  }
}
