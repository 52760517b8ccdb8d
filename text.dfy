/**
 * The JavaScript string operations the registry relies on (`startsWith`,
 * `endsWith`, `includes`, `replace` with a string pattern, `join`, and the two
 * regular expressions of the source), written out over `seq<char>`.
 */
module Text {
  import opened Wrappers

  predicate StartsWith(s: string, prefix: string) {
    |prefix| <= |s| && s[..|prefix|] == prefix
  }

  predicate EndsWith(s: string, suffix: string) {
    |suffix| <= |s| && s[|s| - |suffix|..] == suffix
  }

  /** Whether `p` occurs in `s` at position `i`. */
  predicate OccursAt(s: string, p: string, i: int) {
    0 <= i && i + |p| <= |s| && s[i..i + |p|] == p
  }

  /** The index of the first occurrence of `p` in `s` (JavaScript's `indexOf`), if any. */
  function IndexOf(s: string, p: string): (r: Option<nat>)
    ensures r.Some? ==> OccursAt(s, p, r.value)
    ensures forall j :: 0 <= j && (r.None? || j < r.value) ==> !OccursAt(s, p, j)
    decreases |s|
  {
    if |s| < |p| then
      None
    else if s[..|p|] == p then
      Some(0)
    else
      var rest := IndexOf(s[1..], p);
      assert forall j :: 1 <= j ==> (OccursAt(s, p, j) <==> OccursAt(s[1..], p, j - 1)) by {
        forall j | 1 <= j ensures OccursAt(s, p, j) <==> OccursAt(s[1..], p, j - 1) {
          if j + |p| <= |s| {
            assert s[1..][j - 1..j - 1 + |p|] == s[j..j + |p|];
          }
        }
      }
      match rest
      case None => None
      case Some(i) => Some(i + 1)
  }

  /** JavaScript's `s.includes(p)`. */
  predicate Contains(s: string, p: string) {
    IndexOf(s, p).Some?
  }

  /** JavaScript's `s.replace(p, q)` with a string pattern: only the first occurrence is replaced. */
  function ReplaceFirst(s: string, p: string, q: string): string {
    match IndexOf(s, p)
    case None => s
    case Some(i) => s[..i] + q + s[i + |p|..]
  }

  /** `name.replaceAll(/(^<|>$)/g, "")`: drops one leading `<` and one trailing `>`, each if present. */
  function StripAngles(s: string): string {
    var lo := if |s| > 0 && s[0] == '<' then 1 else 0;
    var hi := if |s| > lo && s[|s| - 1] == '>' then |s| - 1 else |s|;
    s[lo..hi]
  }

  /** The bracketed form `<n>` of a type name. */
  function Angled(n: string): string {
    "<" + n + ">"
  }

  /** `parts.join(sep)`. */
  function Join(parts: seq<string>, sep: string): string
    decreases |parts|
  {
    if |parts| == 0 then ""
    else if |parts| == 1 then parts[0]
    else parts[0] + sep + Join(parts[1..], sep)
  }

  predicate IsDigit(c: char) {
    '0' <= c <= '9'
  }

  predicate AllDigits(s: string) {
    forall i :: 0 <= i < |s| ==> IsDigit(s[i])
  }

  /** The length of the longest run of digits that ends just before position `n` of `s`. */
  function DigitRun(s: string, n: nat): (t: nat)
    requires n <= |s|
    ensures t <= n
    ensures forall i :: n - t <= i < n ==> IsDigit(s[i])
    ensures t < n ==> !IsDigit(s[n - t - 1])
  {
    if n == 0 || !IsDigit(s[n - 1]) then 0 else DigitRun(s, n - 1) + 1
  }

  /** The length of the longest run of digits at the end of `s`. */
  function TrailingDigits(s: string): nat {
    DigitRun(s, |s|)
  }

  /**
   * The test `/-\d+$/.test(name)` of query-syntax.js and query-property-syntax.js:
   * the name of a draft (versioned) specification such as `css-fonts-5`.
   */
  predicate IsDraftName(name: string) {
    var t := TrailingDigits(name);
    0 < t < |name| && name[|name| - t - 1] == '-'
  }

  /** The regular expression, stated directly: a `-` followed by one or more digits up to the end. */
  ghost predicate HasVersionSuffix(name: string) {
    exists k :: 0 <= k < |name| - 1 && name[k] == '-' && AllDigits(name[k + 1..])
  }

  lemma {:induction false} IsDraftNameMeansVersionSuffix(name: string)
    ensures IsDraftName(name) <==> HasVersionSuffix(name)
  {
    var t := TrailingDigits(name);
    if IsDraftName(name) {
      var k := |name| - t - 1;
      var digits := name[k + 1..];
      forall i | 0 <= i < |digits| ensures IsDigit(digits[i]) {
        assert digits[i] == name[k + 1 + i];
      }
      assert name[k] == '-' && AllDigits(digits);
    }
    if HasVersionSuffix(name) {
      var k :| 0 <= k < |name| - 1 && name[k] == '-' && AllDigits(name[k + 1..]);
      assert forall i :: k + 1 <= i < |name| ==> IsDigit(name[i]) by {
        forall i | k + 1 <= i < |name| ensures IsDigit(name[i]) {
          assert name[k + 1..][i - k - 1] == name[i];
        }
      }
      // every character after k is a digit and name[k] is not, so the run ends exactly at k
      assert t == |name| - k - 1;
    }
  }

  /** A suffix is an occurrence, so `indexOf` finds one no later than it. */
  lemma SuffixOccurs(s: string, p: string)
    requires EndsWith(s, p)
    ensures OccursAt(s, p, |s| - |p|)
    ensures IndexOf(s, p).Some? && IndexOf(s, p).value <= |s| - |p|
  {
  }

  lemma StripAnglesOfAngled(n: string)
    ensures StripAngles(Angled(n)) == n
  {
    assert Angled(n)[1..|Angled(n)| - 1] == n;
  }
}
