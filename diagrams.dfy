/** The `visualDiagram` value that both source files build: a titled
    flowchart given as a list of node labels and a list of
    (from, to) label pairs. */
module Diagrams {
  import opened Seqs

  datatype Diagram = Diagram(
    kind: string,
    title: string,
    nodes: seq<string>,
    connections: seq<(string, string)>,
    description: Option<string>)

  /** Every connection joins two labels that are drawn as nodes; the
      renderer (src/Dashboard.js:676-681) skips any connection whose end
      it cannot find with `indexOf`. */
  ghost predicate EndpointsAreNodes(d: Diagram)
  {
    forall c :: c in d.connections ==> c.0 in d.nodes && c.1 in d.nodes
  }

  /** The connections of a straight chain through `nodes`: each node to
      the next one. */
  function Chain(nodes: seq<string>): (links: seq<(string, string)>)
    ensures |links| == if nodes == [] then 0 else |nodes| - 1
    ensures forall i :: 0 <= i < |links| ==> links[i] == (nodes[i], nodes[i + 1])
  {
    if |nodes| <= 1 then [] else [(nodes[0], nodes[1])] + Chain(nodes[1..])
  }

  /** A chain only ever joins nodes of the diagram. */
  lemma ChainEndpoints(d: Diagram)
    requires d.connections == Chain(d.nodes)
    ensures EndpointsAreNodes(d)
  {
    forall c | c in d.connections ensures c.0 in d.nodes && c.1 in d.nodes {
      var i :| 0 <= i < |d.connections| && d.connections[i] == c;
      assert c == (d.nodes[i], d.nodes[i + 1]);
    }
  }
}
