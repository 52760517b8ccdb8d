/**
 * The fixture dispatcher of testing/utils.js (`getSyntaxForType` and its
 * fixed `typesToOmit` list): two more name normalisations over `getSyntax`.
 */
module Fixtures {
  import opened Wrappers
  import opened Text
  import opened Grammar
  import opened Ingestion
  import opened Closure
  import opened Query

  /** The types whose constituents the fixtures never expand. */
  const TypesToOmit: seq<string> := ["<color>", "<gradient>", "<length>"]

  /**
   * The `getSyntax` call `getSyntaxForType(name, kind)` makes, as a name and a
   * kind, or `None` for a kind it does not recognise (it then returns
   * `undefined` without querying).
   */
  function FixtureQuery(name: string, kind: string): (q: Option<(string, string)>)
    ensures q.None? <==> kind !in Kinds
    ensures q.Some? ==> q.value.1 == kind
    ensures kind == "property" || kind == "at-rule" || kind == "at-rule-descriptor" ==> q == Some((name, kind))
    ensures kind == "function" ==> q == Some((name + "()", kind))
    ensures kind == "type" && !EndsWith(name, "_value") ==> q == Some((name, kind))
    ensures kind == "type" && EndsWith(name, "_value") ==> (IndexOf(name, "_value").Some?
      && q == Some((name[..IndexOf(name, "_value").value] + name[IndexOf(name, "_value").value + 6..], kind)))
  {
    if kind == "property" then Some((name, kind))
    else if kind == "type" then
      if EndsWith(name, "_value") then
        SuffixOccurs(name, "_value");
        var i := IndexOf(name, "_value").value;
        assert name[..i] + "" == name[..i];
        Some((ReplaceFirst(name, "_value", ""), kind))
      else
        Some((name, kind))
    else if kind == "function" then Some((name + "()", kind))
    else if kind == "at-rule" then Some((name, kind))
    else if kind == "at-rule-descriptor" then Some((name, kind))
    else None
  }

  /** `getSyntaxForType(name, kind)` on the registry `t`. */
  ghost function GetSyntaxForType(t: Tables, parse: Parser, name: string, kind: string): Option<Result<Syntax, QueryError>> {
    match FixtureQuery(name, kind)
    case None => None
    case Some((n, k)) => Some(GetSyntax(t, parse, n, k, TypesToOmit))
  }

  /** An unrecognised kind yields no answer rather than an error; a recognised one never yields `UnknownKind`. */
  lemma FixtureNeverReportsUnknownKind(t: Tables, parse: Parser, name: string, kind: string)
    ensures GetSyntaxForType(t, parse, name, kind).None? <==> kind !in Kinds
    ensures GetSyntaxForType(t, parse, name, kind).Some? && GetSyntaxForType(t, parse, name, kind).value.Failure? ==>
      !GetSyntaxForType(t, parse, name, kind).value.error.UnknownKind?
  {
    if kind in Kinds {
      var q := FixtureQuery(name, kind).value;
      assert FindSyntax(t, q.0, q.1).Failure? ==> !FindSyntax(t, q.0, q.1).error.UnknownKind?;
    }
  }

  /** Property, at-rule and descriptor names are passed through unchanged. */
  lemma FixturePassesConstructNamesThrough(t: Tables, parse: Parser, name: string, kind: string)
    requires kind in ["property", "at-rule", "at-rule-descriptor"]
    ensures GetSyntaxForType(t, parse, name, kind) == Some(GetSyntax(t, parse, name, kind, TypesToOmit))
  {
  }

  /**
   * A function slug always gains `()`, whether or not it already ends in
   * `()`: a bare name gives the query `getSyntax` would make for it anyway,
   * while a name already ending in `()` is looked up as `name()()`.
   */
  lemma FixtureFunctionAppendsParens(t: Tables, parse: Parser, name: string)
    ensures GetSyntaxForType(t, parse, name, "function") == Some(GetSyntax(t, parse, name + "()", "function", TypesToOmit))
    ensures !EndsWith(name, "()") ==>
      GetSyntaxForType(t, parse, name, "function") == Some(GetSyntax(t, parse, name, "function", TypesToOmit))
    ensures EndsWith(name, "()") ==> FunctionKey(name + "()") == name + "()" != FunctionKey(name)
  {
    assert EndsWith(name + "()", "()") by {
      assert (name + "()")[|name + "()"| - 2..] == "()";
    }
    if !EndsWith(name, "()") {
      FunctionParensAreOptional(t, name);
    }
  }

  /**
   * A type slug is queried as it is, unless it ends in `_value`; then the
   * first occurrence of `_value` is cut out, which is the suffix only when no
   * earlier occurrence exists.
   */
  lemma FixtureTypeQuery(t: Tables, parse: Parser, s: string)
    ensures !EndsWith(s, "_value") ==>
      GetSyntaxForType(t, parse, s, "type") == Some(GetSyntax(t, parse, s, "type", TypesToOmit))
    ensures EndsWith(s, "_value") ==> (IndexOf(s, "_value").Some? &&
      var i := IndexOf(s, "_value").value;
      GetSyntaxForType(t, parse, s, "type") == Some(GetSyntax(t, parse, s[..i] + s[i + 6..], "type", TypesToOmit)))
  {
  }

  /** The slug `a_value_b_value` loses its first `_value`, not its suffix. */
  lemma FirstValueIsRemoved()
    ensures FixtureQuery("a_value_b_value", "type") == Some(("a_b_value", "type"))
  {
    var w := "a_value_b_value";
    assert OccursAt(w, "_value", 1) by {
      assert w[1..7] == "_value";
    }
    assert !OccursAt(w, "_value", 0) by {
      assert w[0..6][0] == 'a';
    }
    assert EndsWith(w, "_value") by {
      assert w[|w| - 6..] == "_value";
    }
    assert w[..1] + w[7..] == "a_b_value";
  }

  /** `_value` occurs in `s + "_value"` first at the end of `s` when `s` has no occurrence of its own. */
  lemma {:induction false} SuffixIsFirstOccurrence(s: string)
    requires !Contains(s, "_value")
    ensures IndexOf(s + "_value", "_value") == Some(|s|)
  {
    var w := s + "_value";
    assert w[|s|..] == "_value";
    assert OccursAt(w, "_value", |s|);
    forall j | 0 <= j < |s| ensures !OccursAt(w, "_value", j) {
      if j + 6 <= |s| {
        assert s[j..j + 6] == w[j..j + 6];
        assert !OccursAt(s, "_value", j);
      } else {
        // the `_` that starts the suffix would fall inside the window, where `_value` has a letter
        var k := |s| - j;
        assert w[j..j + 6][k] == w[|s|] == '_';
        assert "_value"[k] != '_';
      }
    }
  }

  /**
   * A type slug with a `_value` suffix names the type without it: the slug
   * `s_value` gives the answer of the slug `s`.
   */
  lemma FixtureTypeSlugDropsValueSuffix(t: Tables, parse: Parser, s: string)
    requires !Contains(s, "_value")
    ensures GetSyntaxForType(t, parse, s + "_value", "type") == Some(GetSyntax(t, parse, s, "type", TypesToOmit))
    ensures GetSyntaxForType(t, parse, s + "_value", "type") == GetSyntaxForType(t, parse, s, "type")
  {
    SuffixIsFirstOccurrence(s);
    var w := s + "_value";
    assert EndsWith(w, "_value") by {
      assert w[|w| - 6..] == "_value";
    }
    assert ReplaceFirst(w, "_value", "") == s by {
      assert w[..|s|] == s && w[|s| + 6..] == [];
    }
    if EndsWith(s, "_value") {
      assert OccursAt(s, "_value", |s| - 6);
      assert false;
    }
  }

  /** The names the fixtures' omit list excludes. */
  lemma OmittedByFixtures(n: string)
    requires n == "color" || n == "gradient" || n == "length"
    ensures Omitted(TypesToOmit, n)
  {
    if n == "color" {
      assert Angled(n) == TypesToOmit[0];
    } else if n == "gradient" {
      assert Angled(n) == TypesToOmit[1];
    } else {
      assert Angled(n) == TypesToOmit[2];
    }
  }

  /** A query with the fixtures' omit list never reports a constituent for colour, gradient or length. */
  lemma {:induction false} LinkedTypesAreNeverConstituents(t: Tables, parse: Parser, name: string, kind: string)
    requires GetSyntax(t, parse, name, kind, TypesToOmit).Success?
    ensures var cs := GetSyntax(t, parse, name, kind, TypesToOmit).value.constituents;
      forall i :: 0 <= i < |cs| ==> cs[i].name != "color" && cs[i].name != "gradient" && cs[i].name != "length"
  {
    QueryConstituents(t, parse, name, kind, TypesToOmit);
    var cs := GetSyntax(t, parse, name, kind, TypesToOmit).value.constituents;
    forall i | 0 <= i < |cs| ensures cs[i].name != "color" && cs[i].name != "gradient" && cs[i].name != "length" {
      if cs[i].name == "color" || cs[i].name == "gradient" || cs[i].name == "length" {
        OmittedByFixtures(cs[i].name);
      }
    }
  }

  /** Fixture queries never report a constituent for the omitted colour, gradient or length types. */
  lemma FixtureOmitsLinkedTypes(t: Tables, parse: Parser, name: string, kind: string)
    requires GetSyntaxForType(t, parse, name, kind).Some?
    requires GetSyntaxForType(t, parse, name, kind).value.Success?
    ensures var cs := GetSyntaxForType(t, parse, name, kind).value.value.constituents;
      forall i :: 0 <= i < |cs| ==> cs[i].name != "color" && cs[i].name != "gradient" && cs[i].name != "length"
  {
    var q := FixtureQuery(name, kind).value;
    assert GetSyntaxForType(t, parse, name, kind) == Some(GetSyntax(t, parse, q.0, q.1, TypesToOmit));
    LinkedTypesAreNeverConstituents(t, parse, q.0, q.1);
  }
}
