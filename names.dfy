/**
 * Registry keys of at-rule descriptors (query-syntax.js, `getDescriptorName`).
 * Descriptors of different at-rules may share a name, so a descriptor is
 * registered under `@rule__descriptor`.
 */
module Names {
  import opened Wrappers
  import opened Text
  import opened Corpus

  /**
   * `getDescriptorName(atRule, descriptor)`; `None` stands for the error it
   * raises when the at-rule name does not start with `@`.
   */
  function GetDescriptorName(atRule: string, descriptor: Option<string>): (r: Option<string>)
    ensures r.Some? <==> StartsWith(atRule, "@")
    ensures r.Some? && Truthy(descriptor) ==> r.value == atRule + "__" + descriptor.value
    ensures r.Some? && !Truthy(descriptor) && '/' !in atRule ==> r.value == atRule
  {
    if !StartsWith(atRule, "@") then
      None
    else if Truthy(descriptor) then
      Some(atRule + "__" + descriptor.value)
    else
      assert forall i :: OccursAt(atRule, "/", i) ==> atRule[i..i + 1][0] in atRule;
      Some(ReplaceFirst(atRule, "/", "__"))
  }

  /**
   * The key a query computes from a combined `@rule/descriptor` name is the key
   * under which ingestion registered that descriptor of that at-rule.
   */
  lemma {:induction false} CombinedNameMatchesIngestionKey(atRule: string, descriptor: string)
    requires '/' !in atRule && descriptor != ""
    ensures GetDescriptorName(atRule + "/" + descriptor, None) == GetDescriptorName(atRule, Some(descriptor))
  {
    var s := atRule + "/" + descriptor;
    var n := |atRule|;
    assert s[n..n + 1] == "/";
    assert OccursAt(s, "/", n);
    forall j | 0 <= j < n ensures !OccursAt(s, "/", j) {
      assert s[j] == atRule[j];
    }
    assert IndexOf(s, "/") == Some(n);
    assert s[..n] == atRule && s[n + 1..] == descriptor;
    if StartsWith(atRule, "@") {
      assert s[..1] == atRule[..1];
    }
    if StartsWith(s, "@") && n > 0 {
      assert s[..1] == atRule[..1];
    }
  }
}
