/**
 * The endpoint graphs the orientation steps edit: DAGs, CPDAGs and PAGs are
 * all graphs whose edges carry a mark at each end. The graph class itself
 * (EdgeListGraph and the Graph interface) is not part of this model; this
 * module gives the queries and edits the modelled code calls on it, with
 * the meaning their names and the searches' comments give them.
 */
module Graphs {
  import opened Base
  import opened Orders

  datatype Endpoint = TAIL | ARROW | CIRCLE

  /** An ordered triple of nodes; y is the middle node. */
  datatype Triple = Triple(x: Node, y: Node, z: Node)

  /**
   * A graph as a value. ends[(a, b)] is the mark at b on the edge between a
   * and b, so an edge a -> b is ends[(a, b)] == ARROW with ends[(b, a)] == TAIL;
   * a pair is adjacent when both of its marks are present. Underline and
   * ambiguous triples are the annotations a search leaves on the graph;
   * attributes are the names of the scalar attributes it carries.
   */
  datatype Graph = Graph(
    nodes: seq<Node>,
    ends: map<(Node, Node), Endpoint>,
    underlines: set<Triple>,
    ambiguous: set<Triple>,
    pag: bool,
    attributes: set<string>)

  /** At most one edge per unordered pair, no self-loops, edges between nodes of the graph. */
  ghost predicate Wf(g: Graph)
  {
    Distinct(g.nodes)
    && forall e | e in g.ends :: e.0 != e.1 && e.0 in g.nodes && e.1 in g.nodes && (e.1, e.0) in g.ends
  }

  predicate Adjacent(g: Graph, a: Node, b: Node)
  {
    (a, b) in g.ends && (b, a) in g.ends
  }

  /** The nodes adjacent to x. */
  function AdjacentNodes(g: Graph, x: Node): set<Node>
  {
    set e | e in g.ends && e.0 == x && (e.1, e.0) in g.ends :: e.1
  }

  lemma AdjacentNodesIff(g: Graph, x: Node, y: Node)
    ensures y in AdjacentNodes(g, x) <==> Adjacent(g, x, y)
  {
    if Adjacent(g, x, y) {
      assert (x, y) in g.ends && (y, x) in g.ends;
    }
  }

  /** Adjacency depends only on which marks are present. */
  lemma AdjacentNodesSameKeys(g: Graph, h: Graph, x: Node)
    requires g.ends.Keys == h.ends.Keys
    ensures AdjacentNodes(g, x) == AdjacentNodes(h, x)
  {
  }

  /** The edge between a and b points towards b: an arrowhead at b and none at a. */
  predicate PointsTowards(g: Graph, a: Node, b: Node)
  {
    Adjacent(g, a, b) && g.ends[(a, b)] == ARROW && g.ends[(b, a)] != ARROW
  }

  /** p -> x. */
  predicate IsParentOf(g: Graph, p: Node, x: Node)
  {
    Adjacent(g, p, x) && g.ends[(p, x)] == ARROW && g.ends[(x, p)] == TAIL
  }

  /** a --- b. */
  predicate IsUndirected(g: Graph, a: Node, b: Node)
  {
    Adjacent(g, a, b) && g.ends[(a, b)] == TAIL && g.ends[(b, a)] == TAIL
  }

  /** a *-> b <-* c. */
  predicate IsDefCollider(g: Graph, a: Node, b: Node, c: Node)
  {
    Adjacent(g, a, b) && Adjacent(g, c, b) && g.ends[(a, b)] == ARROW && g.ends[(c, b)] == ARROW
  }

  /** Sets the mark at `to` on the edge between from and to. */
  function SetEndpoint(g: Graph, from: Node, to: Node, e: Endpoint): Graph
    requires Adjacent(g, from, to)
  {
    g.(ends := g.ends[(from, to) := e])
  }

  function RemoveEdge(g: Graph, a: Node, b: Node): Graph
  {
    g.(ends := g.ends - {(a, b), (b, a)})
  }

  /** Adds the edge a -> b. */
  function AddDirectedEdge(g: Graph, a: Node, b: Node): Graph
  {
    g.(ends := g.ends[(b, a) := TAIL][(a, b) := ARROW])
  }

  /** Adds the edge a --- b. */
  function AddUndirectedEdge(g: Graph, a: Node, b: Node): Graph
  {
    g.(ends := g.ends[(b, a) := TAIL][(a, b) := TAIL])
  }

  /** Every mark of every edge becomes e. */
  function ReorientAllWith(g: Graph, e: Endpoint): Graph
  {
    g.(ends := map k | k in g.ends :: e)
  }

  /** A new graph on the same nodes and adjacencies, with every edge undirected and no annotations. */
  function Undirected(g: Graph): Graph
  {
    Graph(g.nodes, map k | k in g.ends :: TAIL, {}, {}, false, {})
  }

  /** The nodes of the graph that some member of s points to with a directed edge. */
  function Children(g: Graph, s: set<Node>): set<Node>
  {
    set e | e in g.ends && e.0 in s && e.1 in g.nodes && IsParentOf(g, e.0, e.1) :: e.1
  }

  /** s together with every node reachable from it along directed edges. */
  function Reach(g: Graph, s: set<Node>): (r: set<Node>)
    ensures s <= r
    decreases |Elems(g.nodes) - s|
  {
    var next := s + Children(g, s);
    if next == s then s
    else
      SubsetSize(Elems(g.nodes) - next, Elems(g.nodes) - s);
      Reach(g, next)
  }

  /** x is y or a descendant of y. */
  predicate IsDescendentOf(g: Graph, x: Node, y: Node)
  {
    x in Reach(g, {y})
  }
}
