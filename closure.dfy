/**
 * The constituent closure of query-syntax.js (`getTypesForSyntaxes`,
 * `getValue`, `getConstituentSyntaxes`) as functions on a built registry.
 *
 * A pass parses every grammar of the frontier and records, in walk order,
 * each type reference that is neither omitted nor already recorded; a grammar
 * that does not parse is skipped. The names a pass adds are resolved to their
 * grammars, which form the next frontier, until a pass adds nothing.
 */
module Closure {
  import opened Wrappers
  import opened Text
  import opened Corpus
  import opened Grammar
  import opened Ingestion

  /** `getValue(name)`: function names in the function map; other names in the type map, then the value map. */
  function GetValue(t: Tables, name: string): (r: Option<Entry>)
    ensures r.Some? ==> r.value in t.types.Values || r.value in t.values.Values || r.value in t.functions.Values
    ensures Contains(name, "()") ==> (r.Some? <==> name in t.functions) && (r.Some? ==> r.value == t.functions[name])
    ensures !Contains(name, "()") ==> (r.Some? <==> name in t.types || name in t.values)
    ensures !Contains(name, "()") && name in t.types ==> r == Some(t.types[name])
    ensures !Contains(name, "()") && name !in t.types && name in t.values ==> r == Some(t.values[name])
  {
    if Contains(name, "()") then
      if name in t.functions then Some(t.functions[name]) else None
    else if name in t.types then Some(t.types[name])
    else if name in t.values then Some(t.values[name])
    else None
  }

  /** `values.map((v) => v.value)`: the grammars of a definition's named alternatives. */
  function AlternativeGrammars(vs: seq<Entry>): (gs: seq<Option<string>>)
    ensures |gs| == |vs|
    ensures forall i :: 0 <= i < |vs| ==> gs[i] == vs[i].value
    decreases |vs|
  {
    if |vs| == 0 then [] else [vs[0].value] + AlternativeGrammars(vs[1..])
  }

  /** What a resolved definition pushes onto the next frontier. */
  function EntryGrammars(e: Entry): seq<Option<string>> {
    if Truthy(e.value) then [e.value]
    else if e.values.Some? then AlternativeGrammars(e.values.value)
    else []
  }

  /** What a newly recorded name pushes onto the next frontier (nothing if it does not resolve). */
  function Expansion(t: Tables, name: string): seq<Option<string>> {
    match GetValue(t, name)
    case None => []
    case Some(e) => EntryGrammars(e)
  }

  /** Every grammar that a resolved name can contribute. */
  ghost function Grammars(t: Tables): set<Option<string>> {
    set e, g | e in t.types.Values + t.values.Values + t.functions.Values && g in EntryGrammars(e) :: g
  }

  /** The next frontier: the expansions of the names a pass added, in order. */
  function Expansions(t: Tables, names: seq<string>): seq<Option<string>>
    decreases |names|
  {
    if |names| == 0 then [] else Expansion(t, names[0]) + Expansions(t, names[1..])
  }

  /**
   * The next frontier holds exactly the grammars the added names expand to,
   * and only grammars of registered definitions.
   */
  lemma {:induction false} ExpansionsContents(t: Tables, names: seq<string>)
    ensures forall i, g :: 0 <= i < |names| && g in Expansion(t, names[i]) ==> g in Expansions(t, names)
    ensures forall g :: g in Expansions(t, names) ==> exists i :: 0 <= i < |names| && g in Expansion(t, names[i])
    ensures forall g :: g in Expansions(t, names) ==> g in Grammars(t)
    decreases |names|
  {
    if |names| > 0 {
      ExpansionsContents(t, names[1..]);
      var gs := Expansions(t, names);
      assert gs == Expansion(t, names[0]) + Expansions(t, names[1..]);
      forall i, g | 0 <= i < |names| && g in Expansion(t, names[i]) ensures g in gs {
        if i > 0 {
          assert names[1..][i - 1] == names[i];
        }
      }
      forall g | g in gs ensures exists i :: 0 <= i < |names| && g in Expansion(t, names[i]) {
        if g !in Expansion(t, names[0]) {
          var i :| 0 <= i < |names[1..]| && g in Expansion(t, names[1..][i]);
          assert names[i + 1] == names[1..][i];
        }
      }
      forall g | g in Expansion(t, names[0]) ensures g in Grammars(t) {
        var e := GetValue(t, names[0]).value;
        assert e in t.types.Values + t.values.Values + t.functions.Values && g in EntryGrammars(e);
      }
    }
  }

  /** `definitionSyntax.parse` on a frontier entry; an undefined grammar does not parse either. */
  function ParseGrammar(parse: Parser, g: Option<string>): Option<seq<Node>> {
    match g
    case None => None
    case Some(s) => parse(s)
  }

  /** The grammar `g` parses and refers to `x` through a recorded type reference. */
  predicate RefersTo(parse: Parser, omit: seq<string>, g: Option<string>, x: string) {
    ParseGrammar(parse, g).Some? && Mentions(ParseGrammar(parse, g).value, omit, x)
  }

  predicate FrontierRefersTo(parse: Parser, omit: seq<string>, gs: seq<Option<string>>, x: string) {
    exists i :: 0 <= i < |gs| && RefersTo(parse, omit, gs[i], x)
  }

  /**
   * `getTypesForSyntaxes(syntaxes, typesToOmit, constituents)`: one pass. The
   * recorded names only grow, at the end, by exactly the references of the
   * frontier's grammars not yet recorded.
   */
  function Scan(parse: Parser, gs: seq<Option<string>>, omit: seq<string>, acc: seq<string>): (r: seq<string>)
    ensures acc <= r
    ensures forall x :: x in r <==> x in acc || FrontierRefersTo(parse, omit, gs, x)
    ensures forall i :: |acc| <= i < |r| ==> r[i] !in acc
    ensures NoDup(acc) ==> NoDup(r)
    decreases |gs|
  {
    if |gs| == 0 then
      acc
    else
      var next := match ParseGrammar(parse, gs[0])
        case None => acc
        case Some(nodes) => AddNodes(nodes, omit, acc);
      var r := Scan(parse, gs[1..], omit, next);
      assert forall x :: FrontierRefersTo(parse, omit, gs, x) <==>
          RefersTo(parse, omit, gs[0], x) || FrontierRefersTo(parse, omit, gs[1..], x) by {
        forall x ensures FrontierRefersTo(parse, omit, gs, x) ==>
            RefersTo(parse, omit, gs[0], x) || FrontierRefersTo(parse, omit, gs[1..], x) {
          if FrontierRefersTo(parse, omit, gs, x) {
            var i :| 0 <= i < |gs| && RefersTo(parse, omit, gs[i], x);
            if i > 0 {
              assert gs[1..][i - 1] == gs[i];
            }
          }
        }
        forall x | FrontierRefersTo(parse, omit, gs[1..], x) ensures FrontierRefersTo(parse, omit, gs, x) {
          var i :| 0 <= i < |gs[1..]| && RefersTo(parse, omit, gs[1..][i], x);
          assert gs[i + 1] == gs[1..][i];
        }
      }
      r
  }

  /** The names a closure query can ever record: references in the root or in a registered grammar. */
  ghost function Universe(t: Tables, parse: Parser, root: string): set<string> {
    set g, node | g in Grammars(t) + {Some(root)} && ParseGrammar(parse, g).Some?
      && node in ParseGrammar(parse, g).value :: node.name
  }

  /** The frontier holds the root or registered grammars only. */
  ghost predicate InScope(t: Tables, root: string, gs: seq<Option<string>>) {
    forall g :: g in gs ==> g in Grammars(t) || g == Some(root)
  }

  ghost predicate WithinUniverse(t: Tables, parse: Parser, root: string, acc: seq<string>) {
    forall x :: x in acc ==> x in Universe(t, parse, root)
  }

  lemma ReferencesAreInUniverse(t: Tables, parse: Parser, omit: seq<string>, root: string, g: Option<string>, x: string)
    requires g in Grammars(t) || g == Some(root)
    requires RefersTo(parse, omit, g, x)
    ensures x in Universe(t, parse, root)
  {
    var i :| 0 <= i < |ParseGrammar(parse, g).value| && IsReference(ParseGrammar(parse, g).value[i], omit)
      && ParseGrammar(parse, g).value[i].name == x;
    var node := ParseGrammar(parse, g).value[i];
    assert g in Grammars(t) + {Some(root)} && node in ParseGrammar(parse, g).value;
  }

  /** The names a pass adds belong to the universe. */
  lemma ScanWithinUniverse(t: Tables, parse: Parser, omit: seq<string>, root: string,
                           gs: seq<Option<string>>, acc: seq<string>)
    requires InScope(t, root, gs) && WithinUniverse(t, parse, root, acc)
    ensures WithinUniverse(t, parse, root, Scan(parse, gs, omit, acc))
  {
    var acc' := Scan(parse, gs, omit, acc);
    forall x | x in acc' ensures x in Universe(t, parse, root) {
      if x !in acc {
        var i :| 0 <= i < |gs| && RefersTo(parse, omit, gs[i], x);
        ReferencesAreInUniverse(t, parse, omit, root, gs[i], x);
      }
    }
  }

  /** How many names of the universe `u` are not yet recorded in `acc`: the loop's termination measure. */
  ghost function Unrecorded(u: set<string>, acc: seq<string>): nat {
    |u - set x | x in acc|
  }

  /** Recording a further name of a finite universe leaves fewer names unrecorded. */
  lemma {:induction false} RoundShrinks(u: set<string>, a: seq<string>, b: seq<string>, x: string)
    requires forall y :: y in b ==> y in u
    requires forall y :: y in a ==> y in b
    requires x in b && x !in a
    ensures Unrecorded(u, b) < Unrecorded(u, a)
  {
    var sa := set y | y in a;
    var sb := set y | y in b;
    var d := (u - sa) - (u - sb);
    assert x in d;
    assert (u - sa) == (u - sb) + d;
    assert (u - sb) * d == {};
  }

  /**
   * The `while (true)` loop of `getConstituentSyntaxes` from a frontier `gs`
   * and recorded names `acc`: scan, stop when nothing was added, else expand
   * the added names into the next frontier. Each round records a new name of
   * the finite universe, so the loop ends.
   */
  ghost function Run(t: Tables, parse: Parser, omit: seq<string>, root: string,
                     gs: seq<Option<string>>, acc: seq<string>): seq<string>
    requires InScope(t, root, gs) && WithinUniverse(t, parse, root, acc)
    decreases Unrecorded(Universe(t, parse, root), acc)
  {
    var acc' := Scan(parse, gs, omit, acc);
    if |acc'| <= |acc| then
      acc'
    else
      ScanWithinUniverse(t, parse, omit, root, gs, acc);
      RoundShrinks(Universe(t, parse, root), acc, acc', acc'[|acc|]);
      ExpansionsContents(t, acc'[|acc|..]);
      Run(t, parse, omit, root, Expansions(t, acc'[|acc|..]), acc')
  }

  /** One round of the loop: it stops on a pass that adds nothing, otherwise it goes on from the added names. */
  lemma RunStep(t: Tables, parse: Parser, omit: seq<string>, root: string, gs: seq<Option<string>>, acc: seq<string>)
    requires InScope(t, root, gs) && WithinUniverse(t, parse, root, acc)
    ensures var acc' := Scan(parse, gs, omit, acc);
      |acc'| <= |acc| ==> Run(t, parse, omit, root, gs, acc) == acc'
    ensures var acc' := Scan(parse, gs, omit, acc);
      |acc'| > |acc| ==>
        InScope(t, root, Expansions(t, acc'[|acc|..])) && WithinUniverse(t, parse, root, acc')
        && Unrecorded(Universe(t, parse, root), acc') < Unrecorded(Universe(t, parse, root), acc)
        && Run(t, parse, omit, root, gs, acc) == Run(t, parse, omit, root, Expansions(t, acc'[|acc|..]), acc')
  {
    var acc' := Scan(parse, gs, omit, acc);
    if |acc'| > |acc| {
      ScanWithinUniverse(t, parse, omit, root, gs, acc);
      RoundShrinks(Universe(t, parse, root), acc, acc', acc'[|acc|]);
      ExpansionsContents(t, acc'[|acc|..]);
    }
  }

  lemma ExpansionsStep(t: Tables, names: seq<string>, k: nat, front: seq<Option<string>>)
    requires k < |names|
    ensures front + Expansions(t, names[k..]) == (front + Expansion(t, names[k])) + Expansions(t, names[k + 1..])
  {
    assert names[k..][0] == names[k] && names[k..][1..] == names[k + 1..];
  }

  /** The names `getConstituentSyntaxes(root, omit)` accumulates in `allConstituents`. */
  ghost function ClosureNames(t: Tables, parse: Parser, omit: seq<string>, root: string): seq<string> {
    Run(t, parse, omit, root, [Some(root)], [])
  }

  // ---------------------------------------------------------------------------
  // What the closure is

  /** The grammar that the recorded name `n` expands to refers to `x`. */
  ghost predicate NameRefersTo(t: Tables, parse: Parser, omit: seq<string>, n: string, x: string) {
    FrontierRefersTo(parse, omit, Expansion(t, n), x)
  }

  /** A set of names that holds every reference of the grammar of each of its names. */
  ghost predicate Closed(t: Tables, parse: Parser, omit: seq<string>, s: set<string>) {
    forall n, x :: n in s && NameRefersTo(t, parse, omit, n, x) ==> x in s
  }

  /** Loop invariant: what a recorded name refers to is recorded, or is owed by the frontier. */
  ghost predicate Pending(t: Tables, parse: Parser, omit: seq<string>, gs: seq<Option<string>>, acc: seq<string>) {
    forall n, x :: n in acc && NameRefersTo(t, parse, omit, n, x) ==> x in acc || FrontierRefersTo(parse, omit, gs, x)
  }

  /** A grammar of the next frontier refers to what the name that contributed it refers to, and to nothing else. */
  lemma NextFrontierRefersTo(t: Tables, parse: Parser, omit: seq<string>, names: seq<string>, x: string)
    ensures FrontierRefersTo(parse, omit, Expansions(t, names), x) <==>
      exists i :: 0 <= i < |names| && NameRefersTo(t, parse, omit, names[i], x)
  {
    var f := Expansions(t, names);
    ExpansionsContents(t, names);
    if FrontierRefersTo(parse, omit, f, x) {
      var m :| 0 <= m < |f| && RefersTo(parse, omit, f[m], x);
      assert f[m] in f;
      var i :| 0 <= i < |names| && f[m] in Expansion(t, names[i]);
      var j :| 0 <= j < |Expansion(t, names[i])| && Expansion(t, names[i])[j] == f[m];
      assert NameRefersTo(t, parse, omit, names[i], x);
    }
    if exists i :: 0 <= i < |names| && NameRefersTo(t, parse, omit, names[i], x) {
      var i :| 0 <= i < |names| && NameRefersTo(t, parse, omit, names[i], x);
      var j :| 0 <= j < |Expansion(t, names[i])| && RefersTo(parse, omit, Expansion(t, names[i])[j], x);
      var g := Expansion(t, names[i])[j];
      assert g in f;
      var m :| 0 <= m < |f| && f[m] == g;
    }
  }

  /** Recorded names are never repeated and never omitted. */
  lemma {:induction false} RunRecordsCleanly(t: Tables, parse: Parser, omit: seq<string>, root: string,
                                             gs: seq<Option<string>>, acc: seq<string>)
    requires InScope(t, root, gs) && WithinUniverse(t, parse, root, acc)
    requires NoDup(acc) && forall x :: x in acc ==> !Omitted(omit, x)
    ensures acc <= Run(t, parse, omit, root, gs, acc)
    ensures NoDup(Run(t, parse, omit, root, gs, acc))
    ensures forall x :: x in Run(t, parse, omit, root, gs, acc) ==> !Omitted(omit, x)
    decreases Unrecorded(Universe(t, parse, root), acc)
  {
    var acc' := Scan(parse, gs, omit, acc);
    assert forall x :: x in acc' ==> !Omitted(omit, x) by {
      forall x | x in acc' ensures !Omitted(omit, x) {
        if x !in acc {
          var i :| 0 <= i < |gs| && RefersTo(parse, omit, gs[i], x);
        }
      }
    }
    RunStep(t, parse, omit, root, gs, acc);
    if |acc'| > |acc| {
      RunRecordsCleanly(t, parse, omit, root, Expansions(t, acc'[|acc|..]), acc');
    }
  }

  /** One round keeps the invariant: the names just added owe what their grammars refer to. */
  lemma PendingAfterRound(t: Tables, parse: Parser, omit: seq<string>, gs: seq<Option<string>>, acc: seq<string>)
    requires Pending(t, parse, omit, gs, acc)
    ensures var acc' := Scan(parse, gs, omit, acc);
      Pending(t, parse, omit, Expansions(t, acc'[|acc|..]), acc')
  {
    var acc' := Scan(parse, gs, omit, acc);
    var added := acc'[|acc|..];
    var f := Expansions(t, added);
    forall n, x | n in acc' && NameRefersTo(t, parse, omit, n, x)
      ensures x in acc' || FrontierRefersTo(parse, omit, f, x)
    {
      if n !in acc {
        var k :| 0 <= k < |acc'| && acc'[k] == n;
        assert k >= |acc|;
        assert added[k - |acc|] == n;
        NextFrontierRefersTo(t, parse, omit, added, x);
      }
    }
  }

  /** The loop records what it owes: everything recorded or owed, and it stops only on a closed set. */
  lemma {:induction false} RunIsComplete(t: Tables, parse: Parser, omit: seq<string>, root: string,
                                         gs: seq<Option<string>>, acc: seq<string>)
    requires InScope(t, root, gs) && WithinUniverse(t, parse, root, acc)
    requires Pending(t, parse, omit, gs, acc)
    ensures forall x :: x in acc || FrontierRefersTo(parse, omit, gs, x) ==> x in Run(t, parse, omit, root, gs, acc)
    ensures Closed(t, parse, omit, set x | x in Run(t, parse, omit, root, gs, acc))
    decreases Unrecorded(Universe(t, parse, root), acc)
  {
    var acc' := Scan(parse, gs, omit, acc);
    RunStep(t, parse, omit, root, gs, acc);
    if |acc'| <= |acc| {
      assert acc' == acc;
    } else {
      PendingAfterRound(t, parse, omit, gs, acc);
      RunIsComplete(t, parse, omit, root, Expansions(t, acc'[|acc|..]), acc');
    }
  }

  /** The loop records nothing outside a closed set that holds what is recorded and owed. */
  lemma {:induction false} RunIsLeast(t: Tables, parse: Parser, omit: seq<string>, root: string,
                                      gs: seq<Option<string>>, acc: seq<string>, s: set<string>)
    requires InScope(t, root, gs) && WithinUniverse(t, parse, root, acc)
    requires Closed(t, parse, omit, s)
    requires forall x :: x in acc || FrontierRefersTo(parse, omit, gs, x) ==> x in s
    ensures forall x :: x in Run(t, parse, omit, root, gs, acc) ==> x in s
    decreases Unrecorded(Universe(t, parse, root), acc)
  {
    var acc' := Scan(parse, gs, omit, acc);
    RunStep(t, parse, omit, root, gs, acc);
    if |acc'| > |acc| {
      LeastAfterRound(t, parse, omit, gs, acc, s);
      RunIsLeast(t, parse, omit, root, Expansions(t, acc'[|acc|..]), acc', s);
    }
  }

  /** One round stays inside a closed set that holds what is recorded and owed. */
  lemma LeastAfterRound(t: Tables, parse: Parser, omit: seq<string>, gs: seq<Option<string>>, acc: seq<string>, s: set<string>)
    requires Closed(t, parse, omit, s)
    requires forall x :: x in acc || FrontierRefersTo(parse, omit, gs, x) ==> x in s
    ensures var acc' := Scan(parse, gs, omit, acc);
      forall x :: x in acc' || FrontierRefersTo(parse, omit, Expansions(t, acc'[|acc|..]), x) ==> x in s
  {
    var acc' := Scan(parse, gs, omit, acc);
    var added := acc'[|acc|..];
    forall x | FrontierRefersTo(parse, omit, Expansions(t, added), x) ensures x in s {
      NextFrontierRefersTo(t, parse, omit, added, x);
      var i :| 0 <= i < |added| && NameRefersTo(t, parse, omit, added[i], x);
      assert added[i] == acc'[|acc| + i];
      assert added[i] in s;
    }
  }

  /** The first frontier is the root grammar alone. */
  lemma RootFrontier(parse: Parser, omit: seq<string>, root: string, x: string)
    ensures FrontierRefersTo(parse, omit, [Some(root)], x) <==> RefersTo(parse, omit, Some(root), x)
  {
    if RefersTo(parse, omit, Some(root), x) {
      assert [Some(root)][0] == Some(root);
    }
  }

  /** The recorded names hold each name once and no omitted name. */
  lemma ClosureRecordsEachNameOnce(t: Tables, parse: Parser, omit: seq<string>, root: string)
    ensures NoDup(ClosureNames(t, parse, omit, root))
    ensures forall x :: x in ClosureNames(t, parse, omit, root) ==> !Omitted(omit, x)
  {
    RunRecordsCleanly(t, parse, omit, root, [Some(root)], []);
  }

  /**
   * The recorded names hold every reference of the root grammar and are closed:
   * every reference of the grammar of a recorded name is recorded too.
   */
  lemma ClosureIsComplete(t: Tables, parse: Parser, omit: seq<string>, root: string)
    ensures forall x :: RefersTo(parse, omit, Some(root), x) ==> x in ClosureNames(t, parse, omit, root)
    ensures Closed(t, parse, omit, set x | x in ClosureNames(t, parse, omit, root))
  {
    forall x | RefersTo(parse, omit, Some(root), x) ensures FrontierRefersTo(parse, omit, [Some(root)], x) {
      RootFrontier(parse, omit, root, x);
    }
    RunIsComplete(t, parse, omit, root, [Some(root)], []);
  }

  /**
   * Any closed set that holds the references of the root grammar holds every
   * recorded name: the closure is the least such set, so a cycle of references
   * is recorded once and nothing unreachable is recorded.
   */
  lemma ClosureIsLeast(t: Tables, parse: Parser, omit: seq<string>, root: string, s: set<string>)
    requires Closed(t, parse, omit, s)
    requires forall x :: RefersTo(parse, omit, Some(root), x) ==> x in s
    ensures forall x :: x in ClosureNames(t, parse, omit, root) ==> x in s
  {
    forall x | FrontierRefersTo(parse, omit, [Some(root)], x) ensures x in s {
      RootFrontier(parse, omit, root, x);
    }
    RunIsLeast(t, parse, omit, root, [Some(root)], [], s);
  }

  /** The root's own references come first, in walk order; a root that does not parse records nothing. */
  lemma ClosureStartsWithRootReferences(t: Tables, parse: Parser, omit: seq<string>, root: string)
    ensures parse(root).Some? ==> AddNodes(parse(root).value, omit, []) <= ClosureNames(t, parse, omit, root)
    ensures parse(root).None? ==> ClosureNames(t, parse, omit, root) == []
  {
    var gs, acc := [Some(root)], [];
    var acc' := Scan(parse, gs, omit, acc);
    assert gs[1..] == [];
    RunStep(t, parse, omit, root, gs, acc);
    if parse(root).Some? {
      assert acc' == Scan(parse, [], omit, AddNodes(parse(root).value, omit, []));
      if |acc'| > 0 {
        RunRecordsCleanly(t, parse, omit, root, Expansions(t, acc'[|acc|..]), acc');
      }
    } else {
      assert acc' == Scan(parse, [], omit, []);
    }
  }

  // ---------------------------------------------------------------------------
  // The output step

  /** `getValue(name) || properties.get(name)`. */
  function OutputEntry(t: Tables, name: string): Option<Entry> {
    match GetValue(t, name)
    case Some(e) => Some(e)
    case None => if name in t.properties then Some(t.properties[name]) else None
  }

  /** `valueEntry.value || valueEntry.values.map((v) => `<${v.name}>`).join(" | ")`, when either exists. */
  function EntrySyntax(e: Entry): Option<string> {
    if Truthy(e.value) then e.value
    else if e.values.Some? then Some(Join(AngledNames(e.values.value), " | "))
    else None
  }

  function AngledNames(vs: seq<Entry>): (ns: seq<string>)
    ensures |ns| == |vs|
    ensures forall i :: 0 <= i < |vs| ==> ns[i] == Angled(vs[i].name)
    decreases |vs|
  {
    if |vs| == 0 then [] else [Angled(vs[0].name)] + AngledNames(vs[1..])
  }

  /** The grammar reported for a recorded name, if it resolves to one. */
  function SyntaxOf(t: Tables, name: string): Option<string> {
    match OutputEntry(t, name)
    case None => None
    case Some(e) => EntrySyntax(e)
  }

  /** The property map is read only for a name that `getValue` does not resolve. */
  lemma OutputReadsPropertiesLast(t: Tables, name: string, p: map<string, Entry>)
    ensures GetValue(t, name).Some? ==> SyntaxOf(t.(properties := p), name) == SyntaxOf(t, name)
    ensures GetValue(t, name).None? && name in t.properties ==> SyntaxOf(t, name) == EntrySyntax(t.properties[name])
    ensures GetValue(t, name).None? && name !in t.properties ==> SyntaxOf(t, name).None?
  {
    assert GetValue(t.(properties := p), name) == GetValue(t, name);
  }

  /** One element of the result: `{type, syntax}`. */
  datatype Constituent = Constituent(name: string, syntax: string)

  /** The recorded names that resolve, in recording order. */
  function Resolving(t: Tables, names: seq<string>): (r: seq<string>)
    ensures forall x :: x in r <==> x in names && SyntaxOf(t, x).Some?
    ensures NoDup(names) ==> NoDup(r)
    decreases |names|
  {
    if |names| == 0 then []
    else if SyntaxOf(t, names[0]).Some? then [names[0]] + Resolving(t, names[1..])
    else Resolving(t, names[1..])
  }

  /** The output loop: one constituent per recorded name that resolves. */
  function Emit(t: Tables, names: seq<string>): (r: seq<Constituent>)
    ensures |r| == |Resolving(t, names)|
    ensures forall i :: 0 <= i < |r| ==>
      r[i].name == Resolving(t, names)[i] && SyntaxOf(t, r[i].name) == Some(r[i].syntax)
    decreases |names|
  {
    if |names| == 0 then []
    else
      var rest := Emit(t, names[1..]);
      if SyntaxOf(t, names[0]).Some? then
        [Constituent(names[0], SyntaxOf(t, names[0]).value)] + rest
      else
        rest
  }

  lemma EmitStep(t: Tables, names: seq<string>, i: nat)
    requires i < |names|
    ensures Emit(t, names[i..]) ==
      (if SyntaxOf(t, names[i]).Some? then [Constituent(names[i], SyntaxOf(t, names[i]).value)] else [])
      + Emit(t, names[i + 1..])
  {
    assert names[i..][1..] == names[i + 1..];
  }

  /** The result of `getConstituentSyntaxes(root, omit)`. */
  ghost function ConstituentSyntaxes(t: Tables, parse: Parser, omit: seq<string>, root: string): seq<Constituent> {
    Emit(t, ClosureNames(t, parse, omit, root))
  }

  /**
   * The constituents of a root grammar name distinct, non-omitted types, each
   * with the syntax it resolves to, and hold every resolvable reference of the root.
   */
  lemma ConstituentsAreDistinctAndComplete(t: Tables, parse: Parser, omit: seq<string>, root: string)
    ensures var cs := ConstituentSyntaxes(t, parse, omit, root);
      forall i :: 0 <= i < |cs| ==> !Omitted(omit, cs[i].name) && SyntaxOf(t, cs[i].name) == Some(cs[i].syntax)
    ensures var cs := ConstituentSyntaxes(t, parse, omit, root);
      forall i, j :: 0 <= i < j < |cs| ==> cs[i].name != cs[j].name
    ensures var cs := ConstituentSyntaxes(t, parse, omit, root);
      forall x :: RefersTo(parse, omit, Some(root), x) && SyntaxOf(t, x).Some? ==>
        exists i :: 0 <= i < |cs| && cs[i].name == x
  {
    var names := ClosureNames(t, parse, omit, root);
    var cs := Emit(t, names);
    ClosureRecordsEachNameOnce(t, parse, omit, root);
    ClosureIsComplete(t, parse, omit, root);
    var res := Resolving(t, names);
    assert forall i :: 0 <= i < |cs| ==> cs[i].name in names by {
      forall i | 0 <= i < |cs| ensures cs[i].name in names {
        assert cs[i].name == res[i] && res[i] in res;
      }
    }
    forall x | RefersTo(parse, omit, Some(root), x) && SyntaxOf(t, x).Some?
      ensures exists i :: 0 <= i < |cs| && cs[i].name == x
    {
      assert x in res;
      var i :| 0 <= i < |res| && res[i] == x;
      assert cs[i].name == x;
    }
  }
}
