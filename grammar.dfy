/**
 * The interface to the grammar parser and walker (css-tree's
 * `definitionSyntax.parse` and `definitionSyntax.walk`), and the node visitor
 * `processNode` that both closure engines hand to the walker.
 *
 * The parser is not modelled: it is a parameter of every operation that needs
 * it, a total function from a grammar string to the nodes its walk visits, in
 * walk order, or `None` when parsing raises an error.
 */
module Grammar {
  import opened Wrappers
  import opened Text

  /** A node visited by the walker: its node type (`Type` for a type reference) and its name. */
  datatype Node = Node(kind: string, name: string)

  type Parser = string -> Option<seq<Node>>

  predicate NoDup(s: seq<string>) {
    forall i, j :: 0 <= i < j < |s| ==> s[i] != s[j]
  }

  /** `typesToOmit.includes(`<${name}>`)`. */
  predicate Omitted(omit: seq<string>, name: string) {
    Angled(name) in omit
  }

  /** A node that `processNode` records: a type reference whose bracketed name is not omitted. */
  predicate IsReference(node: Node, omit: seq<string>) {
    node.kind == "Type" && !Omitted(omit, node.name)
  }

  /** Some node of `nodes` is a recorded reference to `x`. */
  predicate Mentions(nodes: seq<Node>, omit: seq<string>, x: string) {
    exists i :: 0 <= i < |nodes| && IsReference(nodes[i], omit) && nodes[i].name == x
  }

  /** `processNode`: one visit of the walker, pushing onto the accumulated names. */
  function ProcessNode(node: Node, omit: seq<string>, acc: seq<string>): seq<string> {
    if Omitted(omit, node.name) then acc
    else if node.kind == "Type" && node.name !in acc then acc + [node.name]
    else acc
  }

  /**
   * The whole walk of one parsed grammar: `processNode` on every node in walk
   * order. The names only grow, at the end; what is added is exactly the
   * references not yet present, each once.
   */
  function AddNodes(nodes: seq<Node>, omit: seq<string>, acc: seq<string>): (r: seq<string>)
    ensures acc <= r
    ensures forall x :: x in r <==> x in acc || Mentions(nodes, omit, x)
    ensures forall i :: |acc| <= i < |r| ==> r[i] !in acc
    ensures NoDup(acc) ==> NoDup(r)
    decreases |nodes|
  {
    if |nodes| == 0 then
      acc
    else
      var next := ProcessNode(nodes[0], omit, acc);
      var r := AddNodes(nodes[1..], omit, next);
      assert forall x :: Mentions(nodes, omit, x) <==>
          (IsReference(nodes[0], omit) && nodes[0].name == x) || Mentions(nodes[1..], omit, x) by {
        forall x ensures Mentions(nodes, omit, x) ==>
            (IsReference(nodes[0], omit) && nodes[0].name == x) || Mentions(nodes[1..], omit, x) {
          if Mentions(nodes, omit, x) {
            var i :| 0 <= i < |nodes| && IsReference(nodes[i], omit) && nodes[i].name == x;
            if i > 0 {
              assert nodes[1..][i - 1] == nodes[i];
            }
          }
        }
        forall x | Mentions(nodes[1..], omit, x) ensures Mentions(nodes, omit, x) {
          var i :| 0 <= i < |nodes[1..]| && IsReference(nodes[1..][i], omit) && nodes[1..][i].name == x;
          assert nodes[i + 1] == nodes[1..][i];
        }
      }
      r
  }

  /** One step of the walk: the names after node `j` are those after the rest, starting from `processNode` of node `j`. */
  lemma AddNodesStep(nodes: seq<Node>, omit: seq<string>, acc: seq<string>, j: nat)
    requires j < |nodes|
    ensures AddNodes(nodes[j..], omit, acc) == AddNodes(nodes[j + 1..], omit, ProcessNode(nodes[j], omit, acc))
  {
    assert nodes[j..][0] == nodes[j] && nodes[j..][1..] == nodes[j + 1..];
  }
}
