/**
 * The earlier closure engine of get-constituent-syntaxes.js. It differs from
 * the registry's: definitions are looked up by first match in one list (the
 * cached values of every document, then the caller's namespaced values), only
 * a definition's `value` is expanded, and a grammar that does not parse aborts
 * the whole query.
 *
 * Lists built with `concat` may hold `undefined` where a document or property
 * had no `values`; such a hole is `None`, and reading `.name` of it while
 * searching raises an error.
 */
module LegacyClosure {
  import opened Wrappers
  import opened Text
  import opened Corpus
  import opened Grammar
  import Closure

  /** The errors a legacy query raises. */
  datatype LegacyError =
    | ParseFailed(syntax: string)  // definitionSyntax.parse threw; nothing catches it
    | HoleInValues                 // `v.name` read on an undefined list element

  /** The list elements `list.concat(vs)` appends: the array spread, or `undefined` itself. */
  function Piece(vs: Option<seq<Entry>>): (p: seq<Option<Entry>>)
    ensures vs.None? ==> p == [None]
    ensures vs.Some? ==> |p| == |vs.value| && forall i :: 0 <= i < |p| ==> p[i] == Some(vs.value[i])
  {
    match vs
    case None => [None]
    case Some(es) => Spread(es)
  }

  function Spread(es: seq<Entry>): (p: seq<Option<Entry>>)
    ensures |p| == |es| && forall i :: 0 <= i < |p| ==> p[i] == Some(es[i])
    decreases |es|
  {
    if |es| == 0 then [] else [Some(es[0])] + Spread(es[1..])
  }

  /** Every document's `values`, concatenated in key order. */
  function AllValues(corpus: Corpus): seq<Option<Entry>>
    decreases |corpus|
  {
    if |corpus| == 0 then [] else Piece(corpus[0].1.values) + AllValues(corpus[1..])
  }

  /** What `initializeValues()` leaves in the cache: a non-empty cache is kept, an empty one is filled. */
  function Initialized(cache: seq<Option<Entry>>, corpus: Corpus): seq<Option<Entry>> {
    if |cache| == 0 then AllValues(corpus) else cache
  }

  /** The search stops at the first element that is a hole or carries the name. */
  predicate SearchedPast(vs: seq<Option<Entry>>, name: string, i: nat)
    requires i <= |vs|
  {
    forall j :: 0 <= j < i ==> vs[j].Some? && vs[j].value.name != name
  }

  /**
   * `values.find((v) => v.name === name)`: the first element with that name,
   * `undefined` if none, or an error if a hole comes first.
   */
  function Find(vs: seq<Option<Entry>>, name: string): (r: Result<Option<Entry>, LegacyError>)
    ensures r.Success? && r.value.Some? ==>
      exists i :: 0 <= i < |vs| && vs[i] == r.value && r.value.value.name == name && SearchedPast(vs, name, i)
    ensures r == Success(None) <==> SearchedPast(vs, name, |vs|)
    ensures r.Failure? <==> exists i :: 0 <= i < |vs| && vs[i].None? && SearchedPast(vs, name, i)
    decreases |vs|
  {
    if |vs| == 0 then Success(None)
    else if vs[0].None? then Failure(HoleInValues)
    else if vs[0].value.name == name then Success(vs[0])
    else
      var r := Find(vs[1..], name);
      assert forall i :: 0 <= i < |vs| - 1 ==> (SearchedPast(vs[1..], name, i) <==> SearchedPast(vs, name, i + 1)) by {
        forall i | 0 <= i < |vs| - 1 ensures SearchedPast(vs[1..], name, i) <==> SearchedPast(vs, name, i + 1) {
          if SearchedPast(vs[1..], name, i) {
            forall j | 0 <= j < i + 1 ensures vs[j].Some? && vs[j].value.name != name {
              if j > 0 {
                assert vs[j] == vs[1..][j - 1];
              }
            }
          }
        }
      }
      assert SearchedPast(vs[1..], name, |vs| - 1) <==> SearchedPast(vs, name, |vs|) by {
        if SearchedPast(vs[1..], name, |vs| - 1) {
          forall j | 0 <= j < |vs| ensures vs[j].Some? && vs[j].value.name != name {
            if j > 0 {
              assert vs[j] == vs[1..][j - 1];
            }
          }
        }
      }
      if r.Failure? then
        assert exists i :: 0 <= i < |vs| && vs[i].None? && SearchedPast(vs, name, i) by {
          var i :| 0 <= i < |vs[1..]| && vs[1..][i].None? && SearchedPast(vs[1..], name, i);
          assert vs[i + 1].None?;
        }
        r
      else
        r
  }

  /** The list entry a constituent is looked up under: function names as they are, others bracketed. */
  function LookupName(c: string): string {
    if EndsWith(c, "()") then c else Angled(c)
  }

  /** The grammar a newly found constituent contributes: its entry's value, if truthy. */
  function LegacyGrammar(values: seq<Option<Entry>>, c: string): Result<Option<string>, LegacyError> {
    match Find(values, LookupName(c))
    case Failure(e) => Failure(e)
    case Success(found) =>
      Success(if found.Some? && Truthy(found.value.value) then found.value.value else None)
  }

  /** Every truthy value in the list: the grammars a legacy query can ever scan besides the root. */
  ghost function ListedGrammars(values: seq<Option<Entry>>): set<string> {
    set i | 0 <= i < |values| && values[i].Some? && Truthy(values[i].value.value) :: values[i].value.value.value
  }

  lemma LegacyGrammarIsListed(values: seq<Option<Entry>>, c: string)
    requires LegacyGrammar(values, c).Success? && LegacyGrammar(values, c).value.Some?
    ensures LegacyGrammar(values, c).value.value in ListedGrammars(values)
  {
    var i :| 0 <= i < |values| && values[i] == Find(values, LookupName(c)).value && SearchedPast(values, LookupName(c), i);
  }

  /** The expansion loop: the grammars of the names `added`, in order, or the first error. */
  function NextGrammars(values: seq<Option<Entry>>, added: seq<string>): (r: Result<seq<string>, LegacyError>)
    ensures r.Success? ==> forall g :: g in r.value ==> g in ListedGrammars(values)
    ensures r.Success? ==> forall g :: g in r.value <==>
      exists i :: 0 <= i < |added| && LegacyGrammar(values, added[i]) == Success(Some(g))
    decreases |added|
  {
    if |added| == 0 then Success([])
    else
      match LegacyGrammar(values, added[0])
      case Failure(e) => Failure(e)
      case Success(g) =>
        match NextGrammars(values, added[1..])
        case Failure(e) => Failure(e)
        case Success(rest) =>
          var r := (if g.Some? then [g.value] else []) + rest;
          NextGrammarsCons(values, added, g, rest);
          Success(r)
  }

  /** The grammars of the names `added` from those of all but the first name. */
  lemma NextGrammarsCons(values: seq<Option<Entry>>, added: seq<string>, g: Option<string>, rest: seq<string>)
    requires |added| > 0 && LegacyGrammar(values, added[0]) == Success(g)
    requires forall x :: x in rest ==> x in ListedGrammars(values)
    requires forall x :: x in rest <==>
      exists i :: 0 <= i < |added[1..]| && LegacyGrammar(values, added[1..][i]) == Success(Some(x))
    ensures var r := (if g.Some? then [g.value] else []) + rest;
      forall x :: x in r ==> x in ListedGrammars(values)
    ensures var r := (if g.Some? then [g.value] else []) + rest;
      forall x :: x in r <==> exists i :: 0 <= i < |added| && LegacyGrammar(values, added[i]) == Success(Some(x))
  {
    var r := (if g.Some? then [g.value] else []) + rest;
    if g.Some? {
      LegacyGrammarIsListed(values, added[0]);
    }
    forall x | x in r ensures exists i :: 0 <= i < |added| && LegacyGrammar(values, added[i]) == Success(Some(x)) {
      if g == Some(x) {
        assert LegacyGrammar(values, added[0]) == Success(Some(x));
      } else {
        assert x in rest;
        var i :| 0 <= i < |added[1..]| && LegacyGrammar(values, added[1..][i]) == Success(Some(x));
        assert added[i + 1] == added[1..][i];
      }
    }
    forall x, i | 0 <= i < |added| && LegacyGrammar(values, added[i]) == Success(Some(x)) ensures x in r {
      if i > 0 {
        assert added[1..][i - 1] == added[i];
      }
    }
  }

  /** The frontier as the registry engine's scan sees it. */
  function Lift(gs: seq<string>): (r: seq<Option<string>>)
    ensures |r| == |gs| && forall i :: 0 <= i < |gs| ==> r[i] == Some(gs[i])
    decreases |gs|
  {
    if |gs| == 0 then [] else [Some(gs[0])] + Lift(gs[1..])
  }

  /**
   * `getTypesForSyntaxes(syntaxes, constituents, typesToLink)` without a
   * `try`: the first grammar that does not parse raises its error, and when
   * all parse the names added are those of the registry engine's scan.
   */
  function StrictScan(parse: Parser, gs: seq<string>, omit: seq<string>, acc: seq<string>): (r: Result<seq<string>, LegacyError>)
    ensures r.Success? <==> ParsesUpTo(parse, gs, |gs|)
    ensures r.Success? ==> r.value == Closure.Scan(parse, Lift(gs), omit, acc)
    ensures r.Failure? ==> exists i :: (0 <= i < |gs| && parse(gs[i]).None? && r.error == ParseFailed(gs[i])
      && ParsesUpTo(parse, gs, i))
    decreases |gs|
  {
    if |gs| == 0 then
      Success(acc)
    else if parse(gs[0]).None? then
      Failure(ParseFailed(gs[0]))
    else
      var r := StrictScan(parse, gs[1..], omit, AddNodes(parse(gs[0]).value, omit, acc));
      StrictScanStep(parse, gs, omit, acc);
      if r.Failure? then
        ghost var i :| 0 <= i < |gs[1..]| && parse(gs[1..][i]).None? && r.error == ParseFailed(gs[1..][i])
          && ParsesUpTo(parse, gs[1..], i);
        FirstUnparsedShifts(parse, gs, i);
        r
      else
        ParsesUpToTail(parse, gs, |gs|);
        r
  }

  /** The first `i` grammars of `gs` parse. */
  predicate ParsesUpTo(parse: Parser, gs: seq<string>, i: nat)
    requires i <= |gs|
  {
    forall j :: 0 <= j < i ==> parse(gs[j]).Some?
  }

  lemma ParsesUpToTail(parse: Parser, gs: seq<string>, i: nat)
    requires 1 <= i <= |gs|
    ensures ParsesUpTo(parse, gs, i) <==> parse(gs[0]).Some? && ParsesUpTo(parse, gs[1..], i - 1)
  {
    if parse(gs[0]).Some? && ParsesUpTo(parse, gs[1..], i - 1) {
      forall j | 0 < j < i ensures parse(gs[j]).Some? {
        assert gs[j] == gs[1..][j - 1];
      }
    }
    if ParsesUpTo(parse, gs, i) {
      forall j | 0 <= j < i - 1 ensures parse(gs[1..][j]).Some? {
        assert gs[1..][j] == gs[j + 1];
      }
    }
  }

  /** The first grammar of the tail that does not parse is the first of the whole frontier, one place later. */
  lemma FirstUnparsedShifts(parse: Parser, gs: seq<string>, i: nat)
    requires |gs| > 0 && parse(gs[0]).Some?
    requires i < |gs| - 1 && parse(gs[1..][i]).None? && ParsesUpTo(parse, gs[1..], i)
    ensures gs[i + 1] == gs[1..][i] && ParsesUpTo(parse, gs, i + 1)
  {
    ParsesUpToTail(parse, gs, i + 1);
  }

  lemma StrictScanStep(parse: Parser, gs: seq<string>, omit: seq<string>, acc: seq<string>)
    requires |gs| > 0 && parse(gs[0]).Some?
    ensures Closure.Scan(parse, Lift(gs), omit, acc) == Closure.Scan(parse, Lift(gs[1..]), omit, AddNodes(parse(gs[0]).value, omit, acc))
  {
    assert Lift(gs)[0] == Some(gs[0]) && Lift(gs)[1..] == Lift(gs[1..]);
  }

  /** The names a legacy query can ever record: the references of the root and of every listed value. */
  ghost function LegacyUniverse(values: seq<Option<Entry>>, parse: Parser, root: string): set<string> {
    set g, node | g in ListedGrammars(values) + {root} && parse(g).Some? && node in parse(g).value :: node.name
  }

  ghost predicate LegacyInScope(values: seq<Option<Entry>>, root: string, gs: seq<string>) {
    forall g :: g in gs ==> g in ListedGrammars(values) || g == root
  }

  ghost predicate LegacyWithin(values: seq<Option<Entry>>, parse: Parser, root: string, acc: seq<string>) {
    forall x :: x in acc ==> x in LegacyUniverse(values, parse, root)
  }

  lemma StrictScanWithinUniverse(values: seq<Option<Entry>>, parse: Parser, omit: seq<string>, root: string,
                                 gs: seq<string>, acc: seq<string>)
    requires LegacyInScope(values, root, gs) && LegacyWithin(values, parse, root, acc)
    requires StrictScan(parse, gs, omit, acc).Success?
    ensures LegacyWithin(values, parse, root, StrictScan(parse, gs, omit, acc).value)
  {
    var acc' := StrictScan(parse, gs, omit, acc).value;
    forall x | x in acc' ensures x in LegacyUniverse(values, parse, root) {
      if x !in acc {
        var i :| 0 <= i < |Lift(gs)| && Closure.RefersTo(parse, omit, Lift(gs)[i], x);
        var g := gs[i];
        assert g in gs;
        var nodes := parse(g).value;
        var k :| 0 <= k < |nodes| && IsReference(nodes[k], omit) && nodes[k].name == x;
        assert g in ListedGrammars(values) + {root} && nodes[k] in parse(g).value;
      }
    }
  }

  /**
   * The `while (true)` loop of the legacy `getConstituentSyntaxes` from the
   * frontier `gs` and recorded names `acc`, or the first error raised.
   */
  ghost function LegacyRun(values: seq<Option<Entry>>, parse: Parser, omit: seq<string>, root: string,
                           gs: seq<string>, acc: seq<string>): Result<seq<string>, LegacyError>
    requires LegacyInScope(values, root, gs) && LegacyWithin(values, parse, root, acc)
    decreases Closure.Unrecorded(LegacyUniverse(values, parse, root), acc)
  {
    match StrictScan(parse, gs, omit, acc)
    case Failure(e) => Failure(e)
    case Success(acc') =>
      if |acc'| <= |acc| then
        Success(acc')
      else
        match NextGrammars(values, acc'[|acc|..])
        case Failure(e) => Failure(e)
        case Success(next) =>
          StrictScanWithinUniverse(values, parse, omit, root, gs, acc);
          Closure.RoundShrinks(LegacyUniverse(values, parse, root), acc, acc', acc'[|acc|]);
          LegacyRun(values, parse, omit, root, next, acc')
  }

  /** The names the legacy query accumulates in `allConstituents`. */
  ghost function LegacyNames(values: seq<Option<Entry>>, parse: Parser, omit: seq<string>, root: string): Result<seq<string>, LegacyError> {
    LegacyRun(values, parse, omit, root, [root], [])
  }

  /** One key of the result object: a constituent and its grammar. */
  datatype Pair = Pair(name: string, syntax: string)

  /** Every name's lookup completes without meeting a hole. */
  predicate AllResolve(values: seq<Option<Entry>>, names: seq<string>) {
    forall i :: 0 <= i < |names| ==> LegacyGrammar(values, names[i]).Success?
  }

  /** The output loop: each recorded name whose entry has a truthy value, in order, or the first error. */
  function LegacyOutput(values: seq<Option<Entry>>, names: seq<string>): (r: Result<seq<Pair>, LegacyError>)
    ensures r.Success? <==> AllResolve(values, names)
    ensures r.Success? ==> forall p :: p in r.value ==>
      p.name in names && LegacyGrammar(values, p.name) == Success(Some(p.syntax))
    decreases |names|
  {
    if |names| == 0 then Success([])
    else
      var g := LegacyGrammar(values, names[0]);
      var rest := LegacyOutput(values, names[1..]);
      assert AllResolve(values, names) <==> g.Success? && AllResolve(values, names[1..]) by {
        if g.Success? && AllResolve(values, names[1..]) {
          forall i | 0 < i < |names| ensures LegacyGrammar(values, names[i]).Success? {
            assert names[i] == names[1..][i - 1];
          }
        }
        if AllResolve(values, names) {
          forall i | 0 <= i < |names| - 1 ensures LegacyGrammar(values, names[1..][i]).Success? {
            assert names[1..][i] == names[i + 1];
          }
        }
      }
      if g.Failure? then Failure(g.error)
      else if rest.Failure? then rest
      else
        assert forall x :: x in names[1..] ==> x in names;
        Success((if g.value.Some? then [Pair(names[0], g.value.value)] else []) + rest.value)
  }

  /** One step of the output loop, for a list whose names all resolve. */
  lemma LegacyOutputStep(values: seq<Option<Entry>>, names: seq<string>)
    requires |names| > 0 && AllResolve(values, names)
    ensures AllResolve(values, names[1..])
    ensures LegacyGrammar(values, names[0]).Success?
    ensures var g := LegacyGrammar(values, names[0]).value;
      LegacyOutput(values, names).value
        == (if g.Some? then [Pair(names[0], g.value)] else []) + LegacyOutput(values, names[1..]).value
  {
    forall i | 0 <= i < |names| - 1 ensures LegacyGrammar(values, names[1..][i]).Success? {
      assert names[1..][i] == names[i + 1];
    }
  }

  /** Every name whose entry has a truthy value appears in the output. */
  lemma {:induction false} LegacyOutputIsComplete(values: seq<Option<Entry>>, names: seq<string>)
    requires AllResolve(values, names)
    ensures forall i :: 0 <= i < |names| && LegacyGrammar(values, names[i]).value.Some? ==>
      exists p :: p in LegacyOutput(values, names).value && p.name == names[i]
    decreases |names|
  {
    if |names| > 0 {
      LegacyOutputStep(values, names);
      LegacyOutputIsComplete(values, names[1..]);
      var r := LegacyOutput(values, names).value;
      var g := LegacyGrammar(values, names[0]).value;
      forall i | 0 <= i < |names| && LegacyGrammar(values, names[i]).value.Some?
        ensures exists p :: p in r && p.name == names[i]
      {
        if i == 0 {
          assert Pair(names[0], g.value) in r;
        } else {
          assert names[1..][i - 1] == names[i];
          var p :| p in LegacyOutput(values, names[1..]).value && p.name == names[1..][i - 1];
          assert p in r;
        }
      }
    }
  }

  /** The names after the first are distinct and do not repeat the first. */
  lemma NoDupTail(names: seq<string>)
    requires |names| > 0 && NoDup(names)
    ensures NoDup(names[1..]) && names[0] !in names[1..]
  {
    var tail := names[1..];
    forall i, j | 0 <= i < j < |tail| ensures tail[i] != tail[j] {
      assert tail[i] == names[i + 1] && tail[j] == names[j + 1];
    }
    forall m | 0 <= m < |tail| ensures tail[m] != names[0] {
      assert tail[m] == names[m + 1];
    }
  }

  predicate DistinctKeys(r: seq<Pair>) {
    forall i, j :: 0 <= i < j < |r| ==> r[i].name != r[j].name
  }

  /** A pair whose name no later pair carries keeps the keys distinct. */
  lemma ConsKeepsKeysDistinct(p: Pair, rest: seq<Pair>)
    requires DistinctKeys(rest)
    requires forall q :: q in rest ==> q.name != p.name
    ensures DistinctKeys([p] + rest)
  {
    var r := [p] + rest;
    forall i, j | 0 <= i < j < |r| ensures r[i].name != r[j].name {
      assert r[j] == rest[j - 1];
      if i > 0 {
        assert r[i] == rest[i - 1];
      }
    }
  }

  /** Distinct names give distinct keys in the output. */
  lemma {:induction false} LegacyOutputKeysAreDistinct(values: seq<Option<Entry>>, names: seq<string>)
    requires AllResolve(values, names) && NoDup(names)
    ensures DistinctKeys(LegacyOutput(values, names).value)
    decreases |names|
  {
    if |names| > 0 {
      LegacyOutputStep(values, names);
      NoDupTail(names);
      LegacyOutputKeysAreDistinct(values, names[1..]);
      var g := LegacyGrammar(values, names[0]).value;
      if g.Some? {
        ConsKeepsKeysDistinct(Pair(names[0], g.value), LegacyOutput(values, names[1..]).value);
      }
    }
  }

  /** What the legacy `getConstituentSyntaxes(itemSyntax, namespacedValues, typesToLink)` returns. */
  ghost function LegacyConstituents(values: seq<Option<Entry>>, parse: Parser, omit: seq<string>, root: string): Result<seq<Pair>, LegacyError> {
    match LegacyNames(values, parse, omit, root)
    case Failure(e) => Failure(e)
    case Success(names) => LegacyOutput(values, names)
  }

  // ---------------------------------------------------------------------------
  // The one-list lookup

  /** `a.concat(b).find(...)`: the first list decides unless it has neither the name nor a hole before it. */
  lemma {:induction false} FindInConcat(a: seq<Option<Entry>>, b: seq<Option<Entry>>, name: string)
    ensures Find(a + b, name) == if Find(a, name) == Success(None) then Find(b, name) else Find(a, name)
    decreases |a|
  {
    if |a| > 0 {
      assert (a + b)[0] == a[0] && (a + b)[1..] == a[1..] + b;
      FindInConcat(a[1..], b, name);
    } else {
      assert a + b == b;
    }
  }

  /** The list has no `undefined` element. */
  predicate NoHoles(vs: seq<Option<Entry>>) {
    forall i :: 0 <= i < |vs| ==> vs[i].Some?
  }

  /** Without holes no lookup fails, and so neither does the output loop. */
  lemma NoHolesMeansLookupsSucceed(values: seq<Option<Entry>>, names: seq<string>)
    requires NoHoles(values)
    ensures AllResolve(values, names)
    ensures LegacyOutput(values, names).Success?
  {
    forall i | 0 <= i < |names| ensures LegacyGrammar(values, names[i]).Success? {
    }
  }

  lemma NoHolesConcat(p: seq<Option<Entry>>, rest: seq<Option<Entry>>)
    ensures NoHoles(p + rest) <==> NoHoles(p) && NoHoles(rest)
  {
    var s := p + rest;
    if NoHoles(s) {
      forall i | 0 <= i < |p| ensures p[i].Some? {
        assert p[i] == s[i];
      }
      forall i | 0 <= i < |rest| ensures rest[i].Some? {
        assert rest[i] == s[|p| + i];
      }
    }
    if NoHoles(p) && NoHoles(rest) {
      forall i | 0 <= i < |s| ensures s[i].Some? {
        if i < |p| {
          assert s[i] == p[i];
        } else {
          assert s[i] == rest[i - |p|];
        }
      }
    }
  }

  /** One document's share of the cache has a hole exactly when it has no `values`. */
  lemma PieceNoHoles(vs: Option<seq<Entry>>)
    ensures NoHoles(Piece(vs)) <==> vs.Some?
  {
    if vs.None? {
      assert Piece(vs)[0] == None;
    }
  }

  predicate AllHaveValues(corpus: Corpus) {
    forall k :: 0 <= k < |corpus| ==> corpus[k].1.values.Some?
  }

  lemma AllHaveValuesCons(corpus: Corpus)
    requires |corpus| > 0
    ensures AllHaveValues(corpus) <==> corpus[0].1.values.Some? && AllHaveValues(corpus[1..])
  {
    var tail := corpus[1..];
    if AllHaveValues(corpus) {
      forall k | 0 <= k < |tail| ensures tail[k].1.values.Some? {
        assert tail[k] == corpus[k + 1];
      }
    }
    if corpus[0].1.values.Some? && AllHaveValues(tail) {
      forall k | 0 < k < |corpus| ensures corpus[k].1.values.Some? {
        assert corpus[k] == tail[k - 1];
      }
    }
  }

  /** The cached list has a hole exactly when some document has no `values`. */
  lemma {:induction false} AllValuesHoles(corpus: Corpus)
    ensures NoHoles(AllValues(corpus)) <==> forall k :: 0 <= k < |corpus| ==> corpus[k].1.values.Some?
    decreases |corpus|
  {
    if |corpus| > 0 {
      AllValuesHoles(corpus[1..]);
      NoHolesConcat(Piece(corpus[0].1.values), AllValues(corpus[1..]));
      PieceNoHoles(corpus[0].1.values);
      AllHaveValuesCons(corpus);
    }
  }

  // ---------------------------------------------------------------------------
  // What the legacy closure is

  /** The grammar that the recorded name `n` contributes refers to `x`. */
  predicate LegacyNameRefersTo(values: seq<Option<Entry>>, parse: Parser, omit: seq<string>, n: string, x: string) {
    LegacyGrammar(values, n).Success? && LegacyGrammar(values, n).value.Some?
      && Closure.RefersTo(parse, omit, LegacyGrammar(values, n).value, x)
  }

  /** A set of names that holds every reference of the grammar of each of its names. */
  ghost predicate LegacyClosed(values: seq<Option<Entry>>, parse: Parser, omit: seq<string>, s: set<string>) {
    forall n, x :: n in s && LegacyNameRefersTo(values, parse, omit, n, x) ==> x in s
  }

  /** Loop invariant: what a recorded name refers to is recorded, or is owed by the frontier. */
  ghost predicate LegacyPending(values: seq<Option<Entry>>, parse: Parser, omit: seq<string>, gs: seq<string>, acc: seq<string>) {
    forall n, x :: n in acc && LegacyNameRefersTo(values, parse, omit, n, x) ==>
      x in acc || Closure.FrontierRefersTo(parse, omit, Lift(gs), x)
  }

  /** One round of the loop, as `LegacyRun` takes it. */
  lemma LegacyRunStep(values: seq<Option<Entry>>, parse: Parser, omit: seq<string>, root: string,
                      gs: seq<string>, acc: seq<string>)
    requires LegacyInScope(values, root, gs) && LegacyWithin(values, parse, root, acc)
    ensures StrictScan(parse, gs, omit, acc).Failure? ==>
      LegacyRun(values, parse, omit, root, gs, acc) == Failure(StrictScan(parse, gs, omit, acc).error)
    ensures StrictScan(parse, gs, omit, acc).Success? ==>
      var acc' := StrictScan(parse, gs, omit, acc).value;
      LegacyWithin(values, parse, root, acc')
      && (|acc'| <= |acc| ==> LegacyRun(values, parse, omit, root, gs, acc) == Success(acc'))
      && (|acc'| > |acc| && NextGrammars(values, acc'[|acc|..]).Failure? ==>
           LegacyRun(values, parse, omit, root, gs, acc) == Failure(NextGrammars(values, acc'[|acc|..]).error))
      && (|acc'| > |acc| && NextGrammars(values, acc'[|acc|..]).Success? ==>
           var next := NextGrammars(values, acc'[|acc|..]).value;
           LegacyInScope(values, root, next)
           && Closure.Unrecorded(LegacyUniverse(values, parse, root), acc') < Closure.Unrecorded(LegacyUniverse(values, parse, root), acc)
           && LegacyRun(values, parse, omit, root, gs, acc) == LegacyRun(values, parse, omit, root, next, acc'))
  {
    if StrictScan(parse, gs, omit, acc).Success? {
      StrictScanWithinUniverse(values, parse, omit, root, gs, acc);
      var acc' := StrictScan(parse, gs, omit, acc).value;
      if |acc'| > |acc| {
        Closure.RoundShrinks(LegacyUniverse(values, parse, root), acc, acc', acc'[|acc|]);
      }
    }
  }

  /** A grammar of the next frontier refers to what the name that contributed it refers to, and to nothing else. */
  lemma NextFrontierRefersTo(values: seq<Option<Entry>>, parse: Parser, omit: seq<string>, added: seq<string>, x: string)
    requires NextGrammars(values, added).Success?
    ensures Closure.FrontierRefersTo(parse, omit, Lift(NextGrammars(values, added).value), x) <==>
      exists i :: 0 <= i < |added| && LegacyNameRefersTo(values, parse, omit, added[i], x)
  {
    var next := NextGrammars(values, added).value;
    if Closure.FrontierRefersTo(parse, omit, Lift(next), x) {
      NextFrontierSound(values, parse, omit, added, x);
    }
    if exists i :: 0 <= i < |added| && LegacyNameRefersTo(values, parse, omit, added[i], x) {
      var i :| 0 <= i < |added| && LegacyNameRefersTo(values, parse, omit, added[i], x);
      NextFrontierComplete(values, parse, omit, added, i, x);
    }
  }

  lemma NextFrontierSound(values: seq<Option<Entry>>, parse: Parser, omit: seq<string>, added: seq<string>, x: string)
    requires NextGrammars(values, added).Success?
    requires Closure.FrontierRefersTo(parse, omit, Lift(NextGrammars(values, added).value), x)
    ensures exists i :: 0 <= i < |added| && LegacyNameRefersTo(values, parse, omit, added[i], x)
  {
    var next := NextGrammars(values, added).value;
    var f := Lift(next);
    var m :| 0 <= m < |f| && Closure.RefersTo(parse, omit, f[m], x);
    var g := next[m];
    assert g in next;
    var i :| 0 <= i < |added| && LegacyGrammar(values, added[i]) == Success(Some(g));
    assert f[m] == Some(g);
    assert LegacyNameRefersTo(values, parse, omit, added[i], x);
  }

  lemma NextFrontierComplete(values: seq<Option<Entry>>, parse: Parser, omit: seq<string>, added: seq<string>, i: nat, x: string)
    requires NextGrammars(values, added).Success?
    requires i < |added| && LegacyNameRefersTo(values, parse, omit, added[i], x)
    ensures Closure.FrontierRefersTo(parse, omit, Lift(NextGrammars(values, added).value), x)
  {
    var next := NextGrammars(values, added).value;
    var g := LegacyGrammar(values, added[i]).value.value;
    assert LegacyGrammar(values, added[i]) == Success(Some(g));
    assert g in next;
    var m :| 0 <= m < |next| && next[m] == g;
    assert Lift(next)[m] == Some(g);
  }

  /** A successful run records names never repeated and never omitted. */
  lemma {:induction false} LegacyRunRecordsCleanly(values: seq<Option<Entry>>, parse: Parser, omit: seq<string>, root: string,
                                                   gs: seq<string>, acc: seq<string>)
    requires LegacyInScope(values, root, gs) && LegacyWithin(values, parse, root, acc)
    requires NoDup(acc) && forall x :: x in acc ==> !Omitted(omit, x)
    requires LegacyRun(values, parse, omit, root, gs, acc).Success?
    ensures acc <= LegacyRun(values, parse, omit, root, gs, acc).value
    ensures NoDup(LegacyRun(values, parse, omit, root, gs, acc).value)
    ensures forall x :: x in LegacyRun(values, parse, omit, root, gs, acc).value ==> !Omitted(omit, x)
    decreases Closure.Unrecorded(LegacyUniverse(values, parse, root), acc)
  {
    LegacyRunStep(values, parse, omit, root, gs, acc);
    var acc' := StrictScan(parse, gs, omit, acc).value;
    assert forall x :: x in acc' ==> !Omitted(omit, x) by {
      forall x | x in acc' ensures !Omitted(omit, x) {
        if x !in acc {
          var i :| 0 <= i < |Lift(gs)| && Closure.RefersTo(parse, omit, Lift(gs)[i], x);
        }
      }
    }
    if |acc'| > |acc| {
      var next := NextGrammars(values, acc'[|acc|..]).value;
      LegacyRunRecordsCleanly(values, parse, omit, root, next, acc');
    }
  }

  /** A successful run records what it owes, and stops only on a closed set. */
  lemma {:induction false} LegacyRunIsComplete(values: seq<Option<Entry>>, parse: Parser, omit: seq<string>, root: string,
                                               gs: seq<string>, acc: seq<string>)
    requires LegacyInScope(values, root, gs) && LegacyWithin(values, parse, root, acc)
    requires LegacyPending(values, parse, omit, gs, acc)
    requires LegacyRun(values, parse, omit, root, gs, acc).Success?
    ensures forall x :: x in acc || Closure.FrontierRefersTo(parse, omit, Lift(gs), x) ==>
      x in LegacyRun(values, parse, omit, root, gs, acc).value
    ensures LegacyClosed(values, parse, omit, set x | x in LegacyRun(values, parse, omit, root, gs, acc).value)
    decreases Closure.Unrecorded(LegacyUniverse(values, parse, root), acc)
  {
    LegacyRunStep(values, parse, omit, root, gs, acc);
    var acc' := StrictScan(parse, gs, omit, acc).value;
    if |acc'| <= |acc| {
      assert acc' == acc;
    } else {
      LegacyPendingAfterRound(values, parse, omit, gs, acc);
      LegacyRunIsComplete(values, parse, omit, root, NextGrammars(values, acc'[|acc|..]).value, acc');
    }
  }

  /** One successful round keeps the invariant: the names just added owe what their grammars refer to. */
  lemma LegacyPendingAfterRound(values: seq<Option<Entry>>, parse: Parser, omit: seq<string>, gs: seq<string>, acc: seq<string>)
    requires LegacyPending(values, parse, omit, gs, acc)
    requires StrictScan(parse, gs, omit, acc).Success?
    requires NextGrammars(values, StrictScan(parse, gs, omit, acc).value[|acc|..]).Success?
    ensures var acc' := StrictScan(parse, gs, omit, acc).value;
      LegacyPending(values, parse, omit, NextGrammars(values, acc'[|acc|..]).value, acc')
  {
    var acc' := StrictScan(parse, gs, omit, acc).value;
    AddedNamesOwe(values, parse, omit, acc, acc');
  }

  /** A name added after `acc` owes its references to the frontier built from the added names. */
  lemma AddedNamesOwe(values: seq<Option<Entry>>, parse: Parser, omit: seq<string>, acc: seq<string>, acc': seq<string>)
    requires acc <= acc'
    requires NextGrammars(values, acc'[|acc|..]).Success?
    ensures forall n, x :: n in acc' && n !in acc && LegacyNameRefersTo(values, parse, omit, n, x) ==>
      Closure.FrontierRefersTo(parse, omit, Lift(NextGrammars(values, acc'[|acc|..]).value), x)
  {
    var added := acc'[|acc|..];
    forall n, x | n in acc' && n !in acc && LegacyNameRefersTo(values, parse, omit, n, x)
      ensures Closure.FrontierRefersTo(parse, omit, Lift(NextGrammars(values, added).value), x)
    {
      var i := AddedAfterPrefix(acc, acc', n);
      NextFrontierComplete(values, parse, omit, added, i, x);
    }
  }

  /** A name of the longer list that the prefix lacks sits among the names after the prefix. */
  lemma AddedAfterPrefix(acc: seq<string>, acc': seq<string>, n: string) returns (i: nat)
    requires acc <= acc' && n in acc' && n !in acc
    ensures i < |acc'| - |acc| && acc'[|acc|..][i] == n
  {
    forall j | 0 <= j < |acc| ensures acc'[j] != n {
      assert acc'[j] == acc[j];
    }
    var k :| 0 <= k < |acc'| && acc'[k] == n;
    i := k - |acc|;
  }

  /** A run records nothing outside a closed set that holds what is recorded and owed. */
  lemma {:induction false} LegacyRunIsLeast(values: seq<Option<Entry>>, parse: Parser, omit: seq<string>, root: string,
                                            gs: seq<string>, acc: seq<string>, s: set<string>)
    requires LegacyInScope(values, root, gs) && LegacyWithin(values, parse, root, acc)
    requires LegacyClosed(values, parse, omit, s)
    requires forall x :: x in acc || Closure.FrontierRefersTo(parse, omit, Lift(gs), x) ==> x in s
    requires LegacyRun(values, parse, omit, root, gs, acc).Success?
    ensures forall x :: x in LegacyRun(values, parse, omit, root, gs, acc).value ==> x in s
    decreases Closure.Unrecorded(LegacyUniverse(values, parse, root), acc)
  {
    LegacyRunStep(values, parse, omit, root, gs, acc);
    var acc' := StrictScan(parse, gs, omit, acc).value;
    if |acc'| > |acc| {
      LegacyLeastAfterRound(values, parse, omit, gs, acc, s);
      LegacyRunIsLeast(values, parse, omit, root, NextGrammars(values, acc'[|acc|..]).value, acc', s);
    }
  }

  /** One successful round stays inside a closed set that holds what is recorded and owed. */
  lemma LegacyLeastAfterRound(values: seq<Option<Entry>>, parse: Parser, omit: seq<string>, gs: seq<string>,
                              acc: seq<string>, s: set<string>)
    requires LegacyClosed(values, parse, omit, s)
    requires forall x :: x in acc || Closure.FrontierRefersTo(parse, omit, Lift(gs), x) ==> x in s
    requires StrictScan(parse, gs, omit, acc).Success?
    requires NextGrammars(values, StrictScan(parse, gs, omit, acc).value[|acc|..]).Success?
    ensures var acc' := StrictScan(parse, gs, omit, acc).value;
      forall x :: x in acc' || Closure.FrontierRefersTo(parse, omit, Lift(NextGrammars(values, acc'[|acc|..]).value), x) ==> x in s
  {
    var acc' := StrictScan(parse, gs, omit, acc).value;
    assert forall x :: x in acc' ==> x in s;
    NextFrontierStaysIn(values, parse, omit, acc'[|acc|..], s);
  }

  /** The grammars found for names of a closed set refer only to names of that set. */
  lemma NextFrontierStaysIn(values: seq<Option<Entry>>, parse: Parser, omit: seq<string>, added: seq<string>, s: set<string>)
    requires LegacyClosed(values, parse, omit, s)
    requires forall x :: x in added ==> x in s
    requires NextGrammars(values, added).Success?
    ensures forall x :: Closure.FrontierRefersTo(parse, omit, Lift(NextGrammars(values, added).value), x) ==> x in s
  {
    forall x | Closure.FrontierRefersTo(parse, omit, Lift(NextGrammars(values, added).value), x) ensures x in s {
      NextFrontierSound(values, parse, omit, added, x);
      var i :| 0 <= i < |added| && LegacyNameRefersTo(values, parse, omit, added[i], x);
      assert added[i] in added;
    }
  }

  /** The first frontier is the root grammar alone. */
  lemma RootFrontier(parse: Parser, omit: seq<string>, root: string, x: string)
    ensures Closure.FrontierRefersTo(parse, omit, Lift([root]), x) <==> Closure.RefersTo(parse, omit, Some(root), x)
  {
    if Closure.RefersTo(parse, omit, Some(root), x) {
      assert Lift([root])[0] == Some(root);
    }
  }

  /** A root grammar that does not parse aborts the query with its own error. */
  lemma RootParseFailureAborts(values: seq<Option<Entry>>, parse: Parser, omit: seq<string>, root: string)
    requires parse(root).None?
    ensures LegacyNames(values, parse, omit, root) == Failure(ParseFailed(root))
    ensures LegacyConstituents(values, parse, omit, root) == Failure(ParseFailed(root))
  {
    LegacyRunStep(values, parse, omit, root, [root], []);
  }

  /**
   * On success the recorded names are distinct, not omitted, include every
   * reference of the root grammar and form the least closed set that does.
   */
  lemma LegacyNamesAreTheClosure(values: seq<Option<Entry>>, parse: Parser, omit: seq<string>, root: string, s: set<string>)
    requires LegacyNames(values, parse, omit, root).Success?
    ensures var names := LegacyNames(values, parse, omit, root).value;
      NoDup(names) && (forall x :: x in names ==> !Omitted(omit, x))
      && (forall x :: Closure.RefersTo(parse, omit, Some(root), x) ==> x in names)
      && LegacyClosed(values, parse, omit, set x | x in names)
      && (LegacyClosed(values, parse, omit, s) && (forall x :: Closure.RefersTo(parse, omit, Some(root), x) ==> x in s)
          ==> forall x :: x in names ==> x in s)
  {
    LegacyRunRecordsCleanly(values, parse, omit, root, [root], []);
    forall x ensures Closure.FrontierRefersTo(parse, omit, Lift([root]), x) <==> Closure.RefersTo(parse, omit, Some(root), x) {
      RootFrontier(parse, omit, root, x);
    }
    LegacyRunIsComplete(values, parse, omit, root, [root], []);
    if LegacyClosed(values, parse, omit, s) && (forall x :: Closure.RefersTo(parse, omit, Some(root), x) ==> x in s) {
      LegacyRunIsLeast(values, parse, omit, root, [root], [], s);
    }
  }

  // ---------------------------------------------------------------------------
  // The loops of get-constituent-syntaxes.js as it runs them

  /** A loop's collected prefix in front of what the rest of its input yields, or the error the rest raises. */
  function Prepend<T>(front: seq<T>, r: Result<seq<T>, LegacyError>): Result<seq<T>, LegacyError> {
    if r.Failure? then r else Success(front + r.value)
  }

  lemma PrependTwice<T>(a: seq<T>, b: seq<T>, r: Result<seq<T>, LegacyError>)
    ensures Prepend(a, Prepend(b, r)) == Prepend(a + b, r)
  {
    if r.Success? {
      assert a + (b + r.value) == (a + b) + r.value;
    }
  }

  lemma StrictScanAt(parse: Parser, gs: seq<string>, omit: seq<string>, acc: seq<string>, i: nat)
    requires i < |gs|
    ensures StrictScan(parse, gs[i..], omit, acc) ==
      if parse(gs[i]).None? then Failure(ParseFailed(gs[i]))
      else StrictScan(parse, gs[i + 1..], omit, AddNodes(parse(gs[i]).value, omit, acc))
  {
    assert gs[i..][0] == gs[i] && gs[i..][1..] == gs[i + 1..];
  }

  lemma NextGrammarsAt(values: seq<Option<Entry>>, added: seq<string>, i: nat)
    requires i < |added|
    ensures NextGrammars(values, added[i..]) ==
      if LegacyGrammar(values, added[i]).Failure? then Failure(LegacyGrammar(values, added[i]).error)
      else Prepend(if LegacyGrammar(values, added[i]).value.Some? then [LegacyGrammar(values, added[i]).value.value] else [],
                   NextGrammars(values, added[i + 1..]))
  {
    assert added[i..][0] == added[i] && added[i..][1..] == added[i + 1..];
  }

  lemma LegacyOutputAt(values: seq<Option<Entry>>, names: seq<string>, i: nat)
    requires i < |names|
    ensures LegacyOutput(values, names[i..]) ==
      if LegacyGrammar(values, names[i]).Failure? then Failure(LegacyGrammar(values, names[i]).error)
      else Prepend(if LegacyGrammar(values, names[i]).value.Some? then [Pair(names[i], LegacyGrammar(values, names[i]).value.value)] else [],
                   LegacyOutput(values, names[i + 1..]))
  {
    assert names[i..][0] == names[i] && names[i..][1..] == names[i + 1..];
  }

  lemma AllValuesAt(corpus: Corpus, k: nat)
    requires k < |corpus|
    ensures AllValues(corpus[k..]) == Piece(corpus[k].1.values) + AllValues(corpus[k + 1..])
  {
    assert corpus[k..][0] == corpus[k] && corpus[k..][1..] == corpus[k + 1..];
  }

  /**
   * `getTypesForSyntaxes(syntaxes, constituents, typesToLink)`: the walker
   * appends unseen, unlinked type names grammar by grammar; the first grammar
   * that does not parse throws. The grown list is returned rather than
   * appended to the caller's array.
   */
  method GetTypesForSyntaxes(parse: Parser, syntaxes: seq<string>, constituents: seq<string>, typesToLink: seq<string>)
    returns (r: Result<seq<string>, LegacyError>)
    ensures r == StrictScan(parse, syntaxes, typesToLink, constituents)
  {
    var acc := constituents;
    for i := 0 to |syntaxes|
      invariant StrictScan(parse, syntaxes[i..], typesToLink, acc) == StrictScan(parse, syntaxes, typesToLink, constituents)
    {
      StrictScanAt(parse, syntaxes, typesToLink, acc, i);
      var ast := parse(syntaxes[i]);
      if ast.None? {
        return Failure(ParseFailed(syntaxes[i]));
      }
      var nodes := ast.value;
      ghost var before := acc;
      for j := 0 to |nodes|
        invariant AddNodes(nodes[j..], typesToLink, acc) == AddNodes(nodes, typesToLink, before)
      {
        AddNodesStep(nodes, typesToLink, acc, j);
        acc := ProcessNode(nodes[j], typesToLink, acc);
      }
    }
    return Success(acc);
  }

  /** The inner `for` of the loop: the values of the names added in the last round. */
  method NextSyntaxes(values: seq<Option<Entry>>, added: seq<string>) returns (r: Result<seq<string>, LegacyError>)
    ensures r == NextGrammars(values, added)
  {
    var syntaxes: seq<string> := [];
    assert added[0..] == added;
    assert NextGrammars(values, added).Success? ==> [] + NextGrammars(values, added).value == NextGrammars(values, added).value;
    for i := 0 to |added|
      invariant Prepend(syntaxes, NextGrammars(values, added[i..])) == NextGrammars(values, added)
    {
      NextGrammarsAt(values, added, i);
      var valueEntry := Find(values, LookupName(added[i]));
      if valueEntry.Failure? {
        return Failure(valueEntry.error);
      }
      var found: seq<string> := [];
      if valueEntry.value.Some? && Truthy(valueEntry.value.value.value) {
        found := [valueEntry.value.value.value.value];
      }
      PrependTwice(syntaxes, found, NextGrammars(values, added[i + 1..]));
      syntaxes := syntaxes + found;
    }
    assert added[|added|..] == [];
    assert syntaxes + [] == syntaxes;
    return Success(syntaxes);
  }

  /** The `while (true)` loop: the names accumulated in `allConstituents`, or the error that ends it. */
  method CollectConstituents(values: seq<Option<Entry>>, parse: Parser, itemSyntax: string, typesToLink: seq<string>)
    returns (r: Result<seq<string>, LegacyError>)
    ensures r == LegacyNames(values, parse, typesToLink, itemSyntax)
  {
    var all: seq<string> := [];
    var constituentSyntaxes := [itemSyntax];
    while true
      invariant LegacyInScope(values, itemSyntax, constituentSyntaxes) && LegacyWithin(values, parse, itemSyntax, all)
      invariant LegacyRun(values, parse, typesToLink, itemSyntax, constituentSyntaxes, all)
        == LegacyNames(values, parse, typesToLink, itemSyntax)
      decreases Closure.Unrecorded(LegacyUniverse(values, parse, itemSyntax), all)
    {
      var oldLength := |all|;
      LegacyRunStep(values, parse, typesToLink, itemSyntax, constituentSyntaxes, all);
      var scanned := GetTypesForSyntaxes(parse, constituentSyntaxes, all, typesToLink);
      if scanned.Failure? {
        return Failure(scanned.error);
      }
      if |scanned.value| <= oldLength {
        return Success(scanned.value);
      }
      var next := NextSyntaxes(values, scanned.value[oldLength..]);
      if next.Failure? {
        return Failure(next.error);
      }
      constituentSyntaxes := next.value;
      all := scanned.value;
    }
  }

  /** The output loop: a key per accumulated name whose entry has a truthy value. */
  method BuildSyntaxes(values: seq<Option<Entry>>, allConstituents: seq<string>) returns (r: Result<seq<Pair>, LegacyError>)
    ensures r == LegacyOutput(values, allConstituents)
  {
    var syntaxes: seq<Pair> := [];
    assert allConstituents[0..] == allConstituents;
    assert LegacyOutput(values, allConstituents).Success? ==>
      [] + LegacyOutput(values, allConstituents).value == LegacyOutput(values, allConstituents).value;
    for i := 0 to |allConstituents|
      invariant Prepend(syntaxes, LegacyOutput(values, allConstituents[i..])) == LegacyOutput(values, allConstituents)
    {
      LegacyOutputAt(values, allConstituents, i);
      var valueEntry := Find(values, LookupName(allConstituents[i]));
      if valueEntry.Failure? {
        return Failure(valueEntry.error);
      }
      var found: seq<Pair> := [];
      if valueEntry.value.Some? && Truthy(valueEntry.value.value.value) {
        found := [Pair(allConstituents[i], valueEntry.value.value.value.value)];
      }
      PrependTwice(syntaxes, found, LegacyOutput(values, allConstituents[i + 1..]));
      syntaxes := syntaxes + found;
    }
    assert allConstituents[|allConstituents|..] == [];
    assert syntaxes + [] == syntaxes;
    return Success(syntaxes);
  }

  /** The module state of get-constituent-syntaxes.js: the loaded documents and the cached value list. */
  class ValueCache {
    const parsedWebRef: Corpus
    var nonNamespacedValues: seq<Option<Entry>>

    /** The cache as the module creates it: empty. */
    constructor (parsedWebRef: Corpus)
      ensures this.parsedWebRef == parsedWebRef && nonNamespacedValues == []
    {
      this.parsedWebRef := parsedWebRef;
      nonNamespacedValues := [];
    }

    /** `initializeValues()`: an empty cache is filled with every document's values, a non-empty one is kept. */
    method InitializeValues() returns (vs: seq<Option<Entry>>)
      modifies this
      ensures nonNamespacedValues == Initialized(old(nonNamespacedValues), parsedWebRef)
      ensures vs == nonNamespacedValues
    {
      if |nonNamespacedValues| == 0 {
        var docs := parsedWebRef;
        var filled: seq<Option<Entry>> := [];
        for k := 0 to |docs|
          invariant filled + AllValues(docs[k..]) == AllValues(docs)
        {
          AllValuesAt(docs, k);
          var piece := Piece(docs[k].1.values);
          ConcatAssoc(filled, piece, AllValues(docs[k + 1..]));
          filled := filled + piece;
        }
        assert docs[|docs|..] == [];
        nonNamespacedValues := filled;
      }
      vs := nonNamespacedValues;
    }

    /**
     * `getConstituentSyntaxes(itemSyntax, namespacedValues, typesToLink)`:
     * the cache is initialised, the caller's values are appended to it for
     * this query only, and the closure is taken over that list.
     */
    method GetConstituentSyntaxes(parse: Parser, itemSyntax: string, namespacedValues: seq<Option<Entry>>, typesToLink: seq<string>)
      returns (r: Result<seq<Pair>, LegacyError>)
      modifies this
      ensures nonNamespacedValues == Initialized(old(nonNamespacedValues), parsedWebRef)
      ensures r == LegacyConstituents(nonNamespacedValues + namespacedValues, parse, typesToLink, itemSyntax)
    {
      var values := InitializeValues();
      values := values + namespacedValues;
      var all := CollectConstituents(values, parse, itemSyntax, typesToLink);
      if all.Failure? {
        return Failure(all.error);
      }
      r := BuildSyntaxes(values, all.value);
    }
  }
}
