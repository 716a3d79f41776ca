/**
 * PC-All (PcAll.java): adjacency search, then the orientation pipeline E, and
 * optionally a bounded Markov loop that adds and removes edges while the
 * local Markov condition fails. The adjacency search (FAS), the orientation
 * collaborators (knowledge, collider discovery, Meek rules) and the
 * independence test are given as functions; the surgery PcAll does itself
 * on the graph is modelled on graph values.
 */
module PcAllSearch {
  import opened Base
  import opened Orders
  import opened Graphs

  /** test.isIndependent(x, y, z): the conditioning list is passed as the set of its members. */
  type IndTest = (Node, Node, set<Node>) -> bool

  /** How OrientColliders decides colliders. */
  datatype ColliderMethod = SEPSETS | CPC | MPC

  /** The separating sets FAS records, by pair. */
  type SepsetMap = map<(Node, Node), set<Node>>

  /** An edge of the graph with its two marks; node1 < node2. */
  datatype Edge = Edge(node1: Node, node2: Node, end1: Endpoint, end2: Endpoint)

  // ---------------------------------------------------------------------
  // Knowledge

  /**
   * isArrowpointAllowed (and its copy isArrowpointAllowed1): an
   * arrowhead at `to` on the edge from - to is allowed unless the knowledge
   * requires to -> from or forbids from -> to; without knowledge it is allowed.
   */
  predicate IsArrowpointAllowed(from: Node, to: Node, knowledge: Option<Knowledge>)
  {
    knowledge.None? || (!knowledge.value.IsRequired(to, from) && !knowledge.value.IsForbidden(from, to))
  }

  /** More knowledge allows fewer arrowheads; no knowledge, or empty knowledge, allows all. */
  lemma ArrowpointAllowedMonotone(from: Node, to: Node, k1: Knowledge, k2: Knowledge)
    requires k1.required <= k2.required && k1.forbidden <= k2.forbidden
    ensures IsArrowpointAllowed(from, to, Some(k2)) ==> IsArrowpointAllowed(from, to, Some(k1))
    ensures IsArrowpointAllowed(from, to, None) && IsArrowpointAllowed(from, to, Some(NoKnowledge))
    ensures IsArrowpointAllowed(from, to, Some(k2)) <==> (to, from) !in k2.required && (from, to) !in k2.forbidden
  {
  }

  // ---------------------------------------------------------------------
  // Boundary and the non-Markov sets

  /** boundary(x, G): the nodes y adjacent to x with x --- y or y -> x. */
  function Boundary(g: Graph, x: Node): set<Node>
  {
    set y | y in AdjacentNodes(g, x) && y != x && (IsUndirected(g, x, y) || IsParentOf(g, y, x))
  }

  /** Two different nodes are in each other's boundary exactly when the edge between them is undirected. */
  lemma MutualBoundary(g: Graph, x: Node, y: Node)
    requires x != y
    ensures x in Boundary(g, y) && y in Boundary(g, x) <==> IsUndirected(g, x, y)
  {
    AdjacentNodesIff(g, x, y);
    AdjacentNodesIff(g, y, x);
  }

  /** x is a candidate non-Markov node for y (the test inside nonMarkov and nonMarkovEmpty). */
  predicate NonMarkovAt(indep: IndTest, g: Graph, y: Node, x: Node)
  {
    y != x && !IsDescendentOf(g, x, y) && x !in Boundary(g, y) && !indep(y, x, Boundary(g, y))
  }

  /** The members of xs, in order, that are non-Markov for y. */
  function NonMarkovIn(indep: IndTest, g: Graph, y: Node, xs: seq<Node>): seq<Node>
  {
    if xs == [] then []
    else
      NonMarkovIn(indep, g, y, xs[..|xs| - 1])
      + if NonMarkovAt(indep, g, y, xs[|xs| - 1]) then [xs[|xs| - 1]] else []
  }

  /**
   * The members of nonMarkov: exactly the listed nodes that are not y, not
   * descendants of y, not in y's boundary, and dependent on y given it.
   */
  lemma {:induction false} NonMarkovMembers(indep: IndTest, g: Graph, y: Node, xs: seq<Node>, x: Node)
    ensures x in NonMarkovIn(indep, g, y, xs) <==> x in xs && NonMarkovAt(indep, g, y, x)
  {
    if xs != [] {
      var init := xs[..|xs| - 1];
      assert xs == init + [xs[|xs| - 1]];
      NonMarkovMembers(indep, g, y, init, x);
    }
  }

  /** nonMarkov(y, G), with its loop over the nodes of G. */
  method NonMarkov(indep: IndTest, g: Graph, y: Node) returns (nodes: seq<Node>)
    ensures nodes == NonMarkovIn(indep, g, y, g.nodes)
  {
    var boundary := Boundary(g, y);
    nodes := [];
    for i := 0 to |g.nodes|
      invariant nodes == NonMarkovIn(indep, g, y, g.nodes[..i])
    {
      var x := g.nodes[i];
      assert g.nodes[..i + 1][..i] == g.nodes[..i];
      if y != x && !IsDescendentOf(g, x, y) && x !in boundary && !indep(y, x, boundary) {
        nodes := nodes + [x];
      }
    }
    assert g.nodes[..|g.nodes|] == g.nodes;
  }

  /** nonMarkovEmpty(y, G) stops at the first non-Markov node. */
  method NonMarkovEmpty(indep: IndTest, g: Graph, y: Node) returns (empty: bool)
    ensures empty <==> NonMarkovIn(indep, g, y, g.nodes) == []
  {
    var boundary := Boundary(g, y);
    for i := 0 to |g.nodes|
      invariant NonMarkovIn(indep, g, y, g.nodes[..i]) == []
    {
      var x := g.nodes[i];
      assert g.nodes[..i + 1][..i] == g.nodes[..i];
      if y != x && !IsDescendentOf(g, x, y) && x !in boundary && !indep(y, x, boundary) {
        NonMarkovMembers(indep, g, y, g.nodes, x);
        return false;
      }
    }
    assert g.nodes[..|g.nodes|] == g.nodes;
    return true;
  }

  /** nonMarkovContains(y, G, x). */
  predicate NonMarkovContains(indep: IndTest, g: Graph, y: Node, x: Node)
  {
    var boundary := Boundary(g, y);
    if y == x then false
    else if IsDescendentOf(g, x, y) then false
    else if x in boundary then false
    else !indep(y, x, boundary)
  }

  /** For a node of the graph, nonMarkovContains(y, G, x) holds exactly when x is in nonMarkov(y, G). */
  lemma NonMarkovContainsIff(indep: IndTest, g: Graph, y: Node, x: Node)
    requires x in g.nodes
    ensures NonMarkovContains(indep, g, y, x) <==> x in NonMarkovIn(indep, g, y, g.nodes)
  {
    NonMarkovMembers(indep, g, y, g.nodes, x);
  }

  // ---------------------------------------------------------------------
  // Adjacencies and non-adjacencies (getAdjacencies, getNonadjacencies)

  /** The edges of g, each listed once with its lower node first. */
  function EdgesOf(g: Graph): set<Edge>
  {
    set k | k in g.ends && k.0 < k.1 && (k.1, k.0) in g.ends :: Edge(k.0, k.1, g.ends[(k.1, k.0)], g.ends[k])
  }

  /**
   * The edges of the complete graph on the nodes of g that are not edges of
   * g made undirected: an undirected edge for every non-adjacent pair.
   */
  function NonadjacentEdges(g: Graph): set<Edge>
  {
    set x, y | x in g.nodes && y in g.nodes && x < y && !Adjacent(g, x, y) :: Edge(x, y, TAIL, TAIL)
  }

  /** Every pair of different nodes of g is an edge of g or a non-adjacency, never both. */
  lemma AdjacencyPartition(g: Graph, x: Node, y: Node)
    requires x in g.nodes && y in g.nodes && x < y
    ensures Adjacent(g, x, y) <==> exists e | e in EdgesOf(g) :: e.node1 == x && e.node2 == y
    ensures !Adjacent(g, x, y) <==> Edge(x, y, TAIL, TAIL) in NonadjacentEdges(g)
  {
    if Adjacent(g, x, y) {
      assert Edge(x, y, g.ends[(y, x)], g.ends[(x, y)]) in EdgesOf(g);
    }
  }

  // ---------------------------------------------------------------------
  // kpartialRemoveEdge

  /**
   * Edits the edge between c and a: refused when there is none; removed when
   * it points at a; replaced by a -> c when undirected; otherwise left alone.
   * Afterwards the edge never points at a nor is undirected, and no other
   * pair's marks change.
   */
  function KpartialRemoveEdge(g: Graph, c: Node, a: Node): (r: Result<Graph>)
    ensures r.Err? <==> !Adjacent(g, a, c)
    ensures r.Err? ==> r.error == IllegalArgument
    ensures r.Ok? ==> !PointsTowards(r.value, c, a) && !IsUndirected(r.value, c, a)
    ensures r.Ok? ==> r.value.ends - {(a, c), (c, a)} == g.ends - {(a, c), (c, a)}
    ensures r.Ok? ==> r.value == g.(ends := r.value.ends)
    ensures r.Ok? && PointsTowards(g, c, a) ==> !Adjacent(r.value, a, c)
    ensures r.Ok? && IsUndirected(g, c, a) ==> IsParentOf(r.value, a, c) || c == a
    ensures r.Ok? && !PointsTowards(g, c, a) && !IsUndirected(g, c, a) ==> r.value == g
  {
    if !Adjacent(g, a, c) then Err(IllegalArgument)
    else if PointsTowards(g, c, a) then Ok(RemoveEdge(g, c, a))
    else if IsUndirected(g, c, a) then Ok(AddDirectedEdge(RemoveEdge(g, c, a), a, c))
    else Ok(g)
  }

  // ---------------------------------------------------------------------
  // removeUnnecessaryMarks

  /**
   * An ambiguous triple (x, y, z) whose marks settle it: x - y points at x,
   * z - y points at z, or both edges point into y.
   */
  predicate Resolved(g: Graph, t: Triple)
  {
    PointsTowards(g, t.y, t.x) || PointsTowards(g, t.y, t.z) || (PointsTowards(g, t.x, t.y) && PointsTowards(g, t.z, t.y))
  }

  /** Both edges of the triple are in g; otherwise getEdge returns null. */
  predicate HasEdges(g: Graph, t: Triple)
  {
    Adjacent(g, t.x, t.y) && Adjacent(g, t.z, t.y)
  }

  /**
   * What removeUnnecessaryMarks leaves: no underline triple and only the
   * unresolved ambiguous triples; a null pointer when an ambiguous triple
   * lacks one of its edges.
   */
  function Cleaned(g: Graph): (r: Result<Graph>)
    ensures r.Err? <==> exists t | t in g.ambiguous :: !HasEdges(g, t)
    ensures r.Err? ==> r.error == NullPointer
    ensures r.Ok? ==> r.value.nodes == g.nodes && r.value.ends == g.ends && r.value.pag == g.pag
    ensures r.Ok? ==> r.value.underlines == {} && r.value.ambiguous <= g.ambiguous
    ensures r.Ok? ==> forall t | t in g.ambiguous :: t in r.value.ambiguous <==> !Resolved(g, t)
    ensures r.Ok? ==> CleanMarks(r.value)
  {
    if exists t | t in g.ambiguous :: !HasEdges(g, t) then Err(NullPointer)
    else Ok(g.(underlines := {}, ambiguous := set t | t in g.ambiguous && !Resolved(g, t)))
  }

  /** Cleaning twice is cleaning once. */
  lemma CleanedIdempotent(g: Graph)
    requires Cleaned(g).Ok?
    ensures Cleaned(Cleaned(g).value) == Cleaned(g)
  {
    var h := Cleaned(g).value;
    assert forall t | t in h.ambiguous :: HasEdges(h, t);
    assert h.(underlines := {}, ambiguous := set t | t in h.ambiguous && !Resolved(h, t)) == h;
  }

  /** The triples of s that g's marks resolve. */
  ghost function ResolvedAmong(g: Graph, s: seq<Triple>): set<Triple>
  {
    set t | t in s && Resolved(g, t)
  }

  /** removeUnnecessaryMarks, with its two loops over the triples. */
  method RemoveUnnecessaryMarks(g: Graph) returns (r: Result<Graph>)
    ensures r == Cleaned(g)
  {
    var h := RemoveUnderlines(g);
    var list := ListOf(h.ambiguous);
    for i := 0 to |list|
      invariant h == g.(underlines := {}, ambiguous := g.ambiguous - ResolvedAmong(g, list[..i]))
      invariant forall t | t in list[..i] :: HasEdges(g, t)
    {
      var t := list[i];
      if !Adjacent(h, t.x, t.y) || !Adjacent(h, t.z, t.y) {
        assert t in g.ambiguous && !HasEdges(g, t);
        return Err(NullPointer);
      }
      h := DropIfResolved(g, h, list, i);
    }
    AllResolved(g, list);
    return Ok(h);
  }

  /** One pass of the second loop, for a triple whose edges are present. */
  method DropIfResolved(ghost g: Graph, h: Graph, list: seq<Triple>, i: nat) returns (h': Graph)
    requires i < |list| && HasEdges(g, list[i])
    requires h == g.(underlines := {}, ambiguous := g.ambiguous - ResolvedAmong(g, list[..i]))
    requires forall t | t in list[..i] :: HasEdges(g, t)
    ensures h' == g.(underlines := {}, ambiguous := g.ambiguous - ResolvedAmong(g, list[..i + 1]))
    ensures forall t | t in list[..i + 1] :: HasEdges(g, t)
  {
    var t := list[i];
    ResolvedAmongStep(g, list, i);
    h' := h;
    if PointsTowards(h, t.y, t.x) || PointsTowards(h, t.y, t.z) || (PointsTowards(h, t.x, t.y) && PointsTowards(h, t.z, t.y)) {
      h' := h.(ambiguous := h.ambiguous - {t});
    }
  }

  lemma ResolvedAmongStep(g: Graph, list: seq<Triple>, i: nat)
    requires i < |list|
    ensures ResolvedAmong(g, list[..i + 1]) == ResolvedAmong(g, list[..i]) + if Resolved(g, list[i]) then {list[i]} else {}
    ensures forall t | t in list[..i + 1] :: t in list[..i] || t == list[i]
  {
    assert list[..i + 1] == list[..i] + [list[i]];
  }

  lemma AllResolved(g: Graph, list: seq<Triple>)
    requires Elems(list) == g.ambiguous
    requires forall t | t in list[..|list|] :: HasEdges(g, t)
    ensures g.ambiguous - ResolvedAmong(g, list[..|list|]) == set t | t in g.ambiguous && !Resolved(g, t)
    ensures Cleaned(g).Ok?
  {
    assert list[..|list|] == list;
  }

  /** The first loop of removeUnnecessaryMarks: every underline triple removed. */
  method RemoveUnderlines(g: Graph) returns (h: Graph)
    ensures h == g.(underlines := {})
  {
    var list := ListOf(g.underlines);
    h := g;
    for i := 0 to |list|
      invariant h == g.(underlines := g.underlines - Elems(list[..i]))
    {
      assert Elems(list[..i + 1]) == Elems(list[..i]) + {list[i]} by {
        assert list[..i + 1] == list[..i] + [list[i]];
      }
      h := h.(underlines := h.underlines - {list[i]});
    }
    assert list[..|list|] == list;
  }

  /** No underline triple, and every ambiguous triple has both edges and is not settled by the marks. */
  predicate CleanMarks(g: Graph)
  {
    g.underlines == {} && forall t | t in g.ambiguous :: HasEdges(g, t) && !Resolved(g, t)
  }

  // ---------------------------------------------------------------------
  // The Markov loop's stopping condition (doMarkovLoop)

  /** No listed x, different from y and not adjacent to it, is non-Markov for y. */
  ghost predicate MarkovRow(indep: IndTest, g: Graph, y: Node, xs: seq<Node>)
  {
    forall x | x in xs && x != y && !Adjacent(g, x, y) :: !NonMarkovContains(indep, g, y, x)
  }

  ghost predicate MarkovAmong(indep: IndTest, g: Graph, ys: seq<Node>, xs: seq<Node>)
  {
    forall y | y in ys :: MarkovRow(indep, g, y, xs)
  }

  /**
   * The collider loop of doMarkovLoop, for the edge x - y just removed: the
   * candidates zs in turn, each z made x -> z <- y when it is not a definite
   * collider yet and isCollider, asked on the graph built so far, says it is
   * one. Only the marks on the edges between x or y and a listed z change.
   */
  function Recollided(h: Graph, x: Node, y: Node, zs: seq<Node>, isCollider: (Graph, Node, Node, Node) -> bool): (h': Graph)
    requires forall z | z in zs :: Adjacent(h, x, z) && Adjacent(h, y, z)
    ensures h' == h.(ends := h'.ends) && h'.ends.Keys == h.ends.Keys
    decreases |zs|
  {
    if zs == [] then h
    else
      var init, z := zs[..|zs| - 1], zs[|zs| - 1];
      assert forall w | w in init :: w in zs;
      var g := Recollided(h, x, y, init, isCollider);
      assert z in zs;
      assert Adjacent(h, x, z) && Adjacent(h, y, z);
      assert g.ends.Keys == h.ends.Keys;
      assert Adjacent(g, x, z) && Adjacent(g, y, z);
      RecollideStep(g, x, y, z, isCollider)
  }

  /** One candidate z of the collider loop: x -> z <- y when it is not a definite collider yet and the test says it is one. */
  function RecollideStep(g: Graph, x: Node, y: Node, z: Node, isCollider: (Graph, Node, Node, Node) -> bool): Graph
    requires Adjacent(g, x, z) && Adjacent(g, y, z)
  {
    if !IsDefCollider(g, x, z, y) && isCollider(g, x, z, y) then MakeCollider(g, x, z, y) else g
  }

  /** The step for z keeps the adjacencies, and the marks between x, y and any other node w. */
  lemma StepElsewhere(g: Graph, x: Node, y: Node, z: Node, isCollider: (Graph, Node, Node, Node) -> bool, w: Node)
    requires Adjacent(g, x, z) && Adjacent(g, y, z) && Adjacent(g, x, w) && Adjacent(g, y, w)
    requires w != z && w != x && w != y
    ensures var g' := RecollideStep(g, x, y, z, isCollider);
      g'.ends.Keys == g.ends.Keys
      && g'.ends[(x, w)] == g.ends[(x, w)] && g'.ends[(w, x)] == g.ends[(w, x)]
      && g'.ends[(y, w)] == g.ends[(y, w)] && g'.ends[(w, y)] == g.ends[(w, y)]
  {
    assert (x, w) != (x, z) && (x, w) != (z, x) && (x, w) != (y, z) && (x, w) != (z, y);
    assert (w, x) != (x, z) && (w, x) != (z, x) && (w, x) != (y, z) && (w, x) != (z, y);
    assert (y, w) != (x, z) && (y, w) != (z, x) && (y, w) != (y, z) && (y, w) != (z, y);
    assert (w, y) != (x, z) && (w, y) != (z, x) && (w, y) != (y, z) && (w, y) != (z, y);
  }

  /** k is the edge, in either direction, between x or y and one of zs. */
  predicate ColliderKey(k: (Node, Node), x: Node, y: Node, zs: seq<Node>)
  {
    (k.1 in zs && (k.0 == x || k.0 == y)) || (k.0 in zs && (k.1 == x || k.1 == y))
  }

  /** A mark on an edge that is not between x or y and a candidate is left as it was. */
  lemma {:induction false} RecollidedFrame(h: Graph, x: Node, y: Node, zs: seq<Node>,
                                           isCollider: (Graph, Node, Node, Node) -> bool, k: (Node, Node))
    requires forall w | w in zs :: Adjacent(h, x, w) && Adjacent(h, y, w)
    requires k in h.ends && !ColliderKey(k, x, y, zs)
    ensures Recollided(h, x, y, zs, isCollider).ends[k] == h.ends[k]
    decreases |zs|
  {
    if zs != [] {
      var init := zs[..|zs| - 1];
      assert forall w | w in init :: w in zs;
      RecollidedFrame(h, x, y, init, isCollider, k);
    }
  }

  /**
   * For every candidate z other than x and y, the loop leaves x -> z <- y or
   * the four marks between z and x, y as they were.
   */
  lemma {:induction false} RecollidedOutcome(h: Graph, x: Node, y: Node, zs: seq<Node>,
                                             isCollider: (Graph, Node, Node, Node) -> bool, z: Node)
    requires forall w | w in zs :: Adjacent(h, x, w) && Adjacent(h, y, w)
    requires z in zs && z != x && z != y
    ensures var h' := Recollided(h, x, y, zs, isCollider);
      IsDefCollider(h', x, z, y)
      || (h'.ends[(x, z)] == h.ends[(x, z)] && h'.ends[(z, x)] == h.ends[(z, x)]
          && h'.ends[(y, z)] == h.ends[(y, z)] && h'.ends[(z, y)] == h.ends[(z, y)])
    decreases |zs|
  {
    var init, last := zs[..|zs| - 1], zs[|zs| - 1];
    assert forall w | w in init :: w in zs;
    var g := Recollided(h, x, y, init, isCollider);
    assert last in zs && z in zs;
    assert Adjacent(g, x, last) && Adjacent(g, y, last) && Adjacent(g, x, z) && Adjacent(g, y, z);
    // The outcome for z after the candidates before the last one.
    if z in init {
      RecollidedOutcome(h, x, y, init, isCollider, z);
    } else {
      RecollidedFrame(h, x, y, init, isCollider, (x, z));
      RecollidedFrame(h, x, y, init, isCollider, (z, x));
      RecollidedFrame(h, x, y, init, isCollider, (y, z));
      RecollidedFrame(h, x, y, init, isCollider, (z, y));
    }
    // The last step decides z when z is the last candidate, and leaves it alone otherwise.
    if z != last {
      StepElsewhere(g, x, y, last, isCollider, z);
    }
  }

  /** The collider loop of doMarkovLoop run on h, giving Recollided. */
  method Recollide(h: Graph, x: Node, y: Node, zs: seq<Node>, isCollider: (Graph, Node, Node, Node) -> bool) returns (h': Graph)
    requires forall z | z in zs :: Adjacent(h, x, z) && Adjacent(h, y, z)
    ensures h' == Recollided(h, x, y, zs, isCollider)
  {
    h' := h;
    for i := 0 to |zs|
      invariant forall w | w in zs[..i] :: w in zs
      invariant h' == Recollided(h, x, y, zs[..i], isCollider)
    {
      var z := zs[i];
      ghost var prefix := zs[..i + 1];
      assert prefix[..|prefix| - 1] == zs[..i] && prefix[|prefix| - 1] == z;
      assert forall w | w in prefix :: w in zs;
      assert Adjacent(h, x, z) && Adjacent(h, y, z);
      if !IsDefCollider(h', x, z, y) && isCollider(h', x, z, y) {
        h' := MakeCollider(h', x, z, y);
      }
      assert h' == Recollided(h, x, y, prefix, isCollider);
    }
    assert zs[..|zs|] == zs;
  }

  /** In doMarkovLoop, x - z and y - z replaced by x -> z <- y. */
  function MakeCollider(h: Graph, x: Node, z: Node, y: Node): (h': Graph)
    requires Adjacent(h, x, z) && Adjacent(h, y, z)
    ensures IsDefCollider(h', x, z, y)
    ensures h' == h.(ends := h'.ends) && h'.ends.Keys == h.ends.Keys
    ensures forall k | k in h.ends && k != (x, z) && k != (z, x) && k != (y, z) && k != (z, y) :: h'.ends[k] == h.ends[k]
  {
    AddDirectedEdge(AddDirectedEdge(RemoveEdge(RemoveEdge(h, x, z), y, z), x, z), y, z)
  }

  // ---------------------------------------------------------------------
  // kpartial

  /**
   * sub is g with some edges removed, each of them directed in g, and every
   * other mark as in g.
   */
  ghost predicate Pruned(sub: Graph, g: Graph)
  {
    sub == g.(ends := sub.ends)
    && sub.ends.Keys <= g.ends.Keys
    && (forall k | k in sub.ends :: sub.ends[k] == g.ends[k])
    && forall k | k in g.ends && k !in sub.ends :: (k.1, k.0) !in sub.ends && (IsParentOf(g, k.0, k.1) || IsParentOf(g, k.1, k.0))
  }

  /** Removing c -> a from a pruned graph leaves a pruned graph. */
  lemma PrunedRemove(sub: Graph, g: Graph, c: Node, a: Node)
    requires Pruned(sub, g) && IsParentOf(sub, c, a)
    ensures Pruned(RemoveEdge(sub, c, a), g)
  {
  }

  /** A step that prunes, after one that pruned, still prunes. */
  lemma PrunedAfter(r: Result<Graph>, s1: Graph, g: Graph)
    requires r.Ok? ==> Pruned(r.value, s1)
    requires Pruned(s1, g)
    ensures r.Ok? ==> Pruned(r.value, g)
  {
    if r.Ok? {
      PrunedTrans(r.value, s1, g);
    }
  }

  /** Every graph is a pruning of itself. */
  lemma PrunedRefl(g: Graph)
    ensures Pruned(g, g)
  {
  }

  /** A pruning of a pruning of g is a pruning of g. */
  lemma PrunedTrans(s2: Graph, s1: Graph, g: Graph)
    requires Pruned(s2, s1) && Pruned(s1, g)
    ensures Pruned(s2, g)
  {
  }

  /**
   * kpartial's removal condition for a pair a, b found independent given z,
   * judged on g: c is outside z, c -> a and c -> b, and c is dependent on a
   * and on b given z.
   */
  predicate Prunable(indep: IndTest, g: Graph, a: Node, b: Node, z: set<Node>, c: Node)
  {
    c !in z && IsParentOf(g, c, a) && IsParentOf(g, c, b) && !indep(a, c, z) && !indep(c, b, z)
  }

  /** The nodes of g that meet the removal condition for a, b and z. */
  function PrunableSet(indep: IndTest, g: Graph, a: Node, b: Node, z: set<Node>): set<Node>
  {
    set c | c in AdjacentNodes(g, a) && Prunable(indep, g, a, b, z, c)
  }

  /** k is the edge, in either direction, between a or b and one of cs. */
  predicate PairKey(k: (Node, Node), a: Node, b: Node, cs: set<Node>)
  {
    (k.0 in cs && (k.1 == a || k.1 == b)) || (k.1 in cs && (k.0 == a || k.0 == b))
  }

  /** g without the edges between a or b and any of cs. */
  function WithoutPairs(g: Graph, a: Node, b: Node, cs: set<Node>): Graph
  {
    g.(ends := map k | k in g.ends && !PairKey(k, a, b, cs) :: g.ends[k])
  }

  /**
   * What kpartial's loop over the common neighbours of a and b does, for a
   * and b found independent given z, stated on the graph it starts from:
   * every c meeting the removal condition loses c -> a and c -> b, and
   * nothing else changes. When a and b are the same node, the second removal
   * for the first such c finds no edge and fails.
   */
  function CommonPruned(indep: IndTest, g: Graph, a: Node, b: Node, z: set<Node>): (r: Result<Graph>)
    ensures r.Err? <==> a == b && exists c | c in AdjacentNodes(g, a) :: Prunable(indep, g, a, b, z, c)
    ensures r.Err? ==> r.error == IllegalArgument
    ensures r.Ok? ==> Pruned(r.value, g)
    ensures r.Ok? ==> forall c | Prunable(indep, g, a, b, z, c) :: !Adjacent(r.value, c, a) && !Adjacent(r.value, c, b)
    ensures r.Ok? ==> forall k | k in g.ends && !(exists c | Prunable(indep, g, a, b, z, c) :: PairKey(k, a, b, {c})) ::
      k in r.value.ends && r.value.ends[k] == g.ends[k]
  {
    var cs := PrunableSet(indep, g, a, b, z);
    assert forall c | Prunable(indep, g, a, b, z, c) :: c in cs by {
      forall c | Prunable(indep, g, a, b, z, c) ensures c in cs {
        AdjacentNodesIff(g, a, c);
      }
    }
    if cs == {} then
      Ok(g)
    else if a == b then
      var c :| c in cs;
      Err(IllegalArgument)
    else
      var h := WithoutPairs(g, a, b, cs);
      forall c | Prunable(indep, g, a, b, z, c) ensures !Adjacent(h, c, a) && !Adjacent(h, c, b) {
        assert PairKey((c, a), a, b, cs) && PairKey((c, b), a, b, cs);
      }
      forall k | k in g.ends && k !in h.ends ensures (k.1, k.0) !in h.ends && (IsParentOf(g, k.0, k.1) || IsParentOf(g, k.1, k.0)) {
        assert PairKey(k, a, b, cs);
      }
      forall k | k in g.ends && !(exists c | Prunable(indep, g, a, b, z, c) :: PairKey(k, a, b, {c})) ensures k in h.ends {
        if PairKey(k, a, b, cs) {
          var c := if k.0 in cs && (k.1 == a || k.1 == b) then k.0 else k.1;
          assert PairKey(k, a, b, {c});
        }
      }
      Ok(h)
  }

  /**
   * While c's edges are not yet removed, the loop sees them as they are in
   * g; once they are, c is adjacent to neither a nor b.
   */
  lemma WithoutPairsSees(indep: IndTest, g: Graph, a: Node, b: Node, z: set<Node>, done: set<Node>, c: Node)
    requires done <= PrunableSet(indep, g, a, b, z)
    ensures c !in done ==> (IsParentOf(WithoutPairs(g, a, b, done), c, a) <==> IsParentOf(g, c, a))
    ensures c !in done ==> (IsParentOf(WithoutPairs(g, a, b, done), c, b) <==> IsParentOf(g, c, b))
    ensures c in done ==> !Adjacent(WithoutPairs(g, a, b, done), c, a) && !Adjacent(WithoutPairs(g, a, b, done), c, b)
  {
    assert a !in done && b !in done;
    if c in done {
      assert PairKey((c, a), a, b, done) && PairKey((c, b), a, b, done);
    } else {
      assert !PairKey((c, a), a, b, done) && !PairKey((a, c), a, b, done);
      assert !PairKey((c, b), a, b, done) && !PairKey((b, c), a, b, done);
    }
  }

  /**
   * Once every candidate of the common neighbours cs has been seen, the
   * removals so far are all of them, and the graph is CommonPruned's result.
   */
  lemma CommonPrunedReached(indep: IndTest, g: Graph, a: Node, b: Node, z: set<Node>, done: set<Node>, cs: seq<Node>)
    requires Elems(cs) == AdjacentNodes(g, a) * AdjacentNodes(g, b)
    requires done <= PrunableSet(indep, g, a, b, z) && (a == b ==> done == {})
    requires forall j | 0 <= j < |cs| :: cs[j] in PrunableSet(indep, g, a, b, z) ==> cs[j] in done
    ensures CommonPruned(indep, g, a, b, z) == Ok(WithoutPairs(g, a, b, done))
  {
    var all := PrunableSet(indep, g, a, b, z);
    forall c | c in all ensures c in done {
      AdjacentNodesIff(g, a, c);
      AdjacentNodesIff(g, b, c);
      assert c in Elems(cs);
    }
    assert done == all;
    if all == {} {
      assert WithoutPairs(g, a, b, done).ends == g.ends;
    }
  }

  /** Removing c's two edges from WithoutPairs(g, a, b, done) adds c to done. */
  /** Removing the pairs of no neighbour leaves the graph as it is. */
  lemma WithoutNoPairs(g: Graph, a: Node, b: Node)
    ensures WithoutPairs(g, a, b, {}) == g
  {
    assert WithoutPairs(g, a, b, {}).ends == g.ends;
  }

  lemma WithoutPairsStep(g: Graph, a: Node, b: Node, done: set<Node>, c: Node)
    ensures RemoveEdge(RemoveEdge(WithoutPairs(g, a, b, done), c, a), c, b) == WithoutPairs(g, a, b, done + {c})
  {
    var lhs := RemoveEdge(RemoveEdge(WithoutPairs(g, a, b, done), c, a), c, b);
    var rhs := WithoutPairs(g, a, b, done + {c});
    assert forall k :: PairKey(k, a, b, done + {c}) <==> PairKey(k, a, b, done) || k in {(c, a), (a, c), (c, b), (b, c)};
    assert lhs.ends.Keys == rhs.ends.Keys;
  }

  /**
   * GraphUtils.asList(choice, nodes): the nodes at the chosen indices, in
   * order; an index past the end fails as List.get does.
   */
  function AsList(choice: seq<int>, nodes: seq<Node>): (r: Result<seq<Node>>)
    ensures r.Err? <==> exists k | k in choice :: !(0 <= k < |nodes|)
    ensures r.Err? ==> r.error == IndexOutOfBounds
    ensures r.Ok? ==> |r.value| == |choice| && forall i | 0 <= i < |choice| :: 0 <= choice[i] < |nodes| && r.value[i] == nodes[choice[i]]
  {
    if choice == [] then Ok([])
    else if !(0 <= choice[0] < |nodes|) then
      assert choice[0] in choice;
      Err(IndexOutOfBounds)
    else
      var rest := AsList(choice[1..], nodes);
      if rest.Err? then
        assert forall k | k in choice[1..] :: k in choice;
        rest
      else Ok([nodes[choice[0]]] + rest.value)
  }

  // ---------------------------------------------------------------------
  // The search

  /**
   * The PC-All search object. The independence test, the adjacency search
   * (FAS), background-knowledge orientation (pcOrientbk), collider
   * discovery (OrientColliders), the Meek rules and the subset enumeration
   * (DepthChoiceGenerator) are the collaborators, given as functions.
   */
  class PcAll {
    /** test.getVariables(). */
    const testVars: seq<Node>
    /** test.isIndependent; isDependent is its negation. */
    const indep: IndTest
    /** FAS from the initial graph, with knowledge and depth: its graph and separating sets. */
    const fas: (Option<Graph>, Knowledge, int) -> (Graph, SepsetMap)
    const pcOrientbk: (Knowledge, Graph) -> Graph
    /** OrientColliders.orientTriples for the collider method, sepsets and depth. */
    const orientTriples: (ColliderMethod, Option<SepsetMap>, int, Graph) -> Graph
    /** OrientColliders.orientTriple(h, x, z, y) == COLLIDER. */
    const orientTriple: (ColliderMethod, Option<SepsetMap>, int, Graph, Node, Node, Node) -> bool
    /** MeekRules.orientImplied with the knowledge. */
    const meek: (Knowledge, Graph) -> Graph
    /** DepthChoiceGenerator(n, depth): the index lists it returns, in order. */
    const choices: (nat, int) -> seq<seq<int>>

    var depth: int
    var doMarkovLoop: bool
    var colliderDiscovery: ColliderMethod
    var knowledge: Knowledge
    var initialGraph: Option<Graph>
    var sepsets: Option<SepsetMap>
    /** The field G: null until a search has run. */
    var graph: Option<Graph>

    /** The constructor PcAll(independenceTest, initialGraph), with the field initialisers. */
    constructor (testVars: seq<Node>, indep: IndTest, fas: (Option<Graph>, Knowledge, int) -> (Graph, SepsetMap),
                 pcOrientbk: (Knowledge, Graph) -> Graph,
                 orientTriples: (ColliderMethod, Option<SepsetMap>, int, Graph) -> Graph,
                 orientTriple: (ColliderMethod, Option<SepsetMap>, int, Graph, Node, Node, Node) -> bool,
                 meek: (Knowledge, Graph) -> Graph, choices: (nat, int) -> seq<seq<int>>, initialGraph: Option<Graph>)
      ensures this.testVars == testVars && this.indep == indep && this.fas == fas && this.pcOrientbk == pcOrientbk
      ensures this.orientTriples == orientTriples && this.orientTriple == orientTriple && this.meek == meek && this.choices == choices
      ensures this.initialGraph == initialGraph && graph == None && sepsets == None
      ensures depth == 1000 && !doMarkovLoop && colliderDiscovery == SEPSETS && knowledge == NoKnowledge
    {
      this.testVars := testVars;
      this.indep := indep;
      this.fas := fas;
      this.pcOrientbk := pcOrientbk;
      this.orientTriples := orientTriples;
      this.orientTriple := orientTriple;
      this.meek := meek;
      this.choices := choices;
      this.initialGraph := initialGraph;
      graph := None;
      sepsets := None;
      depth := 1000;
      doMarkovLoop := false;
      colliderDiscovery := SEPSETS;
      knowledge := NoKnowledge;
    }

    /** setDepth: -1 or more, but not Integer.MAX_VALUE. */
    method SetDepth(d: int) returns (r: Result<()>)
      modifies this
      ensures r.Err? <==> d < -1 || d == IntMax
      ensures r.Err? ==> r.error == IllegalArgument && depth == old(depth)
      ensures r.Ok? ==> depth == d
      ensures doMarkovLoop == old(doMarkovLoop) && colliderDiscovery == old(colliderDiscovery) && knowledge == old(knowledge)
      ensures initialGraph == old(initialGraph) && sepsets == old(sepsets) && graph == old(graph)
    {
      if d < -1 {
        return Err(IllegalArgument);
      }
      if d == IntMax {
        return Err(IllegalArgument);
      }
      depth := d;
      return Ok(());
    }

    method SetDoMarkovLoop(b: bool)
      modifies this
      ensures doMarkovLoop == b
      ensures depth == old(depth) && colliderDiscovery == old(colliderDiscovery) && knowledge == old(knowledge)
      ensures initialGraph == old(initialGraph) && sepsets == old(sepsets) && graph == old(graph)
    {
      doMarkovLoop := b;
    }

    method SetColliderDiscovery(m: ColliderMethod)
      modifies this
      ensures colliderDiscovery == m
      ensures depth == old(depth) && doMarkovLoop == old(doMarkovLoop) && knowledge == old(knowledge)
      ensures initialGraph == old(initialGraph) && sepsets == old(sepsets) && graph == old(graph)
    {
      colliderDiscovery := m;
    }

    method SetKnowledge(k: Knowledge)
      modifies this
      ensures knowledge == k
      ensures depth == old(depth) && doMarkovLoop == old(doMarkovLoop) && colliderDiscovery == old(colliderDiscovery)
      ensures initialGraph == old(initialGraph) && sepsets == old(sepsets) && graph == old(graph)
    {
      knowledge := k;
    }

    /** getAdjacencies: the edges of G; G.getEdges() on a null G fails. */
    function GetAdjacencies(): (r: Result<set<Edge>>)
      reads this
      ensures r.Err? <==> graph.None?
      ensures r.Err? ==> r.error == NullPointer
      ensures r.Ok? ==> forall e | e in r.value :: e.node1 < e.node2 && Adjacent(graph.value, e.node1, e.node2)
      ensures r.Ok? ==> forall x, y | x < y && Adjacent(graph.value, x, y) ::
                          Edge(x, y, graph.value.ends[(y, x)], graph.value.ends[(x, y)]) in r.value
    {
      if graph.None? then Err(NullPointer)
      else
        var g := graph.value;
        assert forall x, y | x < y && Adjacent(g, x, y) :: Edge(x, y, g.ends[(y, x)], g.ends[(x, y)]) in EdgesOf(g) by {
          forall x, y | x < y && Adjacent(g, x, y) ensures Edge(x, y, g.ends[(y, x)], g.ends[(x, y)]) in EdgesOf(g) {
            assert (x, y) in g.ends;
          }
        }
        Ok(EdgesOf(g))
    }

    /** getNonadjacencies: the undirected edges of the complete graph on G's nodes that are not adjacencies of G. */
    function GetNonadjacencies(): (r: Result<set<Edge>>)
      reads this
      ensures r.Err? <==> graph.None?
      ensures r.Err? ==> r.error == NullPointer
      ensures r.Ok? ==> forall e | e in r.value ::
                          e.node1 < e.node2 && e.node1 in graph.value.nodes && e.node2 in graph.value.nodes
                          && e.end1 == TAIL && e.end2 == TAIL && !Adjacent(graph.value, e.node1, e.node2)
      ensures r.Ok? ==> forall x, y | x in graph.value.nodes && y in graph.value.nodes && x < y && !Adjacent(graph.value, x, y) ::
                          Edge(x, y, TAIL, TAIL) in r.value
    {
      if graph.None? then Err(NullPointer) else Ok(NonadjacentEdges(graph.value))
    }

    /**
     * E(H): the orientation pipeline on a copy of h with its marks
     * erased: knowledge, then collider discovery, then the Meek rules, then
     * the clean-up of the triple annotations.
     */
    function E(h: Graph): (r: Result<Graph>)
      reads this`knowledge, this`colliderDiscovery, this`sepsets, this`depth
      ensures r.Err? ==> r.error == NullPointer
      ensures r.Ok? ==> CleanMarks(r.value)
    {
      Cleaned(meek(knowledge, orientTriples(colliderDiscovery, sepsets, depth, pcOrientbk(knowledge, Undirected(h)))))
    }

    /** E starts by erasing the marks: it sees only h's nodes and adjacencies. */
    lemma EForgetsMarks(h1: Graph, h2: Graph)
      requires h1.nodes == h2.nodes && h1.ends.Keys == h2.ends.Keys
      ensures E(h1) == E(h2)
    {
      assert Undirected(h1) == Undirected(h2);
    }

    /** The result of E is left as it is by another clean-up. */
    lemma ECleanedTwice(h: Graph)
      requires E(h).Ok?
      ensures Cleaned(E(h).value) == E(h)
    {
      var o := meek(knowledge, orientTriples(colliderDiscovery, sepsets, depth, pcOrientbk(knowledge, Undirected(h))));
      CleanedIdempotent(o);
    }

    /** findAdjacencies: FAS from G when there is one, else from the initial graph. */
    method FindAdjacencies()
      modifies this
      ensures initialGraph == if old(graph).Some? then old(graph) else old(initialGraph)
      ensures graph == Some(fas(initialGraph, knowledge, depth).0)
      ensures sepsets == Some(fas(initialGraph, knowledge, depth).1)
      ensures depth == old(depth) && doMarkovLoop == old(doMarkovLoop) && colliderDiscovery == old(colliderDiscovery)
      ensures knowledge == old(knowledge)
    {
      if graph.Some? {
        initialGraph := graph;
      }
      var result := fas(initialGraph, knowledge, depth);
      graph := Some(result.0);
      sepsets := Some(result.1);
    }

    // -------------------------------------------------------------------
    // doMarkovLoop

    /** The inner loops of the first half of a doMarkovLoop round, for one y: add x --- y for each listed x that is non-Markov for y, re-running E each time. */
    method AddRow(nodes: seq<Node>, g: Graph, y: Node) returns (r: Result<Graph>, reached: Graph, changed: bool)
      ensures r.Ok? && !changed ==> r.value == g && MarkovRow(indep, g, y, nodes)
      ensures r.Ok? && changed ==> CleanMarks(r.value)
      ensures r.Err? ==> r.error == NullPointer
      ensures r.Ok? ==> reached == r.value
      ensures !changed ==> reached == g
      ensures changed ==> CleanMarks(reached)
    {
      var h := g;
      changed := false;
      for j := 0 to |nodes|
        invariant !changed ==> h == g && MarkovRow(indep, g, y, nodes[..j])
        invariant changed ==> CleanMarks(h)
      {
        var x := nodes[j];
        assert nodes[..j + 1] == nodes[..j] + [x];
        if x == y || Adjacent(h, x, y) {
          continue;
        }
        if NonMarkovContains(indep, h, y, x) {
          var e := E(AddUndirectedEdge(h, x, y));
          if e.Err? {
            return Err(e.error), h, changed;
          }
          h := e.value;
          changed := true;
        }
      }
      assert nodes[..|nodes|] == nodes;
      return Ok(h), h, changed;
    }

    /** The first half of a doMarkovLoop round. When nothing changes, every listed pair is Markov. */
    method AddPass(nodes: seq<Node>, g: Graph) returns (r: Result<Graph>, reached: Graph, changed: bool)
      ensures r.Ok? && !changed ==> r.value == g && MarkovAmong(indep, g, nodes, nodes)
      ensures r.Ok? && changed ==> CleanMarks(r.value)
      ensures r.Err? ==> r.error == NullPointer
      ensures r.Ok? ==> reached == r.value
      ensures !changed ==> reached == g
      ensures changed ==> CleanMarks(reached)
    {
      var h := g;
      changed := false;
      for i := 0 to |nodes|
        invariant !changed ==> h == g && MarkovAmong(indep, g, nodes[..i], nodes)
        invariant changed ==> CleanMarks(h)
      {
        assert nodes[..i + 1] == nodes[..i] + [nodes[i]];
        var row, at, c := AddRow(nodes, h, nodes[i]);
        if row.Err? {
          return row, at, changed || c;
        }
        h := row.value;
        changed := changed || c;
      }
      assert nodes[..|nodes|] == nodes;
      return Ok(h), h, changed;
    }

    /** The collider test of the Markov loop: orientTriple for this search's collider method, sepsets and depth. */
    function ColliderTest(): (Graph, Node, Node, Node) -> bool
      reads this`colliderDiscovery, this`sepsets, this`depth
    {
      var m, sep, d := colliderDiscovery, sepsets, depth;
      (g: Graph, a: Node, b: Node, c: Node) => orientTriple(m, sep, d, g, a, b, c)
    }

    /**
     * The body of the loop over G's edges in doMarkovLoop, for one edge x - y:
     * remove it, make colliders at the common neighbours (in the hash set's
     * order, common) where the collider test finds them, and keep the result,
     * through E, exactly when neither y nor x has a non-Markov node in it.
     */
    method RemoveStep(h: Graph, x: Node, y: Node)
      returns (r: Result<Graph>, changed: bool, ghost common: seq<Node>, ghost trial: Graph)
      ensures Elems(common) == AdjacentNodes(RemoveEdge(h, x, y), x) * AdjacentNodes(RemoveEdge(h, x, y), y)
      ensures forall z | z in common :: Adjacent(RemoveEdge(h, x, y), x, z) && Adjacent(RemoveEdge(h, x, y), y, z)
      ensures trial == Recollided(RemoveEdge(h, x, y), x, y, common, ColliderTest())
      ensures changed <==> NonMarkovIn(indep, trial, y, trial.nodes) == [] && NonMarkovIn(indep, trial, x, trial.nodes) == []
      ensures changed ==> r == E(trial)
      ensures !changed ==> r == Ok(h)
    {
      var t := RemoveEdge(h, x, y);
      var adj := ListOf(AdjacentNodes(t, x) * AdjacentNodes(t, y));
      forall z | z in adj
        ensures Adjacent(t, x, z) && Adjacent(t, y, z)
      {
        assert z in Elems(adj);
        AdjacentNodesIff(t, x, z);
        AdjacentNodesIff(t, y, z);
      }
      common := adj;
      t := Recollide(t, x, y, adj, ColliderTest());
      trial := t;
      var emptyY := NonMarkovEmpty(indep, t, y);
      if emptyY {
        var emptyX := NonMarkovEmpty(indep, t, x);
        if emptyX {
          return E(t), true, common, trial;
        }
      }
      return Ok(h), false, common, trial;
    }

    /** The second half of a doMarkovLoop round, over the edges G had when it began. */
    method RemovePass(g: Graph) returns (r: Result<Graph>, reached: Graph, changed: bool)
      ensures r.Ok? && !changed ==> r.value == g
      ensures r.Ok? && changed ==> CleanMarks(r.value)
      ensures r.Err? ==> r.error == NullPointer
      ensures r.Ok? ==> reached == r.value
      ensures !changed ==> reached == g
      ensures changed ==> CleanMarks(reached)
    {
      var edges := ListOf(EdgesOf(g));
      var h := g;
      changed := false;
      for i := 0 to |edges|
        invariant !changed ==> h == g
        invariant changed ==> CleanMarks(h)
      {
        var step, c, common, trial := RemoveStep(h, edges[i].node1, edges[i].node2);
        if step.Err? {
          return step, h, changed;
        }
        h := step.value;
        changed := changed || c;
      }
      return Ok(h), h, changed;
    }

    /**
     * doMarkovLoop: at most ten rounds, stopping after the first round that
     * changes nothing; then every listed non-adjacent pair is Markov.
     * flags records whether each round changed the graph.
     */
    method MarkovLoop(nodes: seq<Node>, g: Graph) returns (r: Result<Graph>, reached: Graph, rounds: nat, ghost flags: seq<bool>)
      ensures r.Ok? ==> 1 <= rounds <= 10 && |flags| == rounds
      ensures r.Ok? ==> forall i | 0 <= i < rounds - 1 :: flags[i]
      ensures r.Ok? && rounds < 10 ==> !flags[rounds - 1] && MarkovAmong(indep, r.value, nodes, nodes)
      ensures r.Ok? && !flags[0] ==> rounds == 1 && r.value == g && MarkovAmong(indep, g, nodes, nodes)
      ensures r.Ok? && CleanMarks(g) ==> CleanMarks(r.value)
      ensures r.Err? ==> r.error == NullPointer
      ensures r.Ok? ==> reached == r.value
      ensures reached == g || CleanMarks(reached)
    {
      var h := g;
      rounds := 0;
      var changed := true;
      flags := [];
      while changed && rounds < 10
        invariant rounds <= 10 && |flags| == rounds
        invariant rounds == 0 ==> changed && h == g
        invariant rounds > 0 ==> flags[rounds - 1] == changed
        invariant forall i | 0 <= i < rounds - 1 :: flags[i]
        invariant rounds > 0 && !changed ==> MarkovAmong(indep, h, nodes, nodes)
        invariant rounds > 0 && !flags[0] ==> rounds == 1 && h == g
        invariant CleanMarks(g) ==> CleanMarks(h)
        invariant h == g || CleanMarks(h)
        decreases 10 - rounds
      {
        rounds := rounds + 1;
        var added, at, c1 := AddPass(nodes, h);
        if added.Err? {
          return added, at, rounds, flags;
        }
        var removed, at', c2 := RemovePass(added.value);
        if removed.Err? {
          return removed, at', rounds, flags;
        }
        h := removed.value;
        changed := c1 || c2;
        flags := flags + [changed];
      }
      return Ok(h), h, rounds, flags;
    }

    // -------------------------------------------------------------------
    // kpartial

    /**
     * kpartial's loop over the conditioning sets for the pair a, b, from h:
     * each index list the generator offers names a set z of rest; when a and
     * b are independent given z, CommonPruned is applied to the graph so far.
     */
    function SubsetsPruned(h: Graph, a: Node, b: Node, rest: seq<Node>, subsets: seq<seq<int>>): (r: Result<Graph>)
      ensures r.Ok? ==> Pruned(r.value, h)
      ensures r.Err? ==> r.error == IndexOutOfBounds || (a == b && r.error == IllegalArgument)
      decreases |subsets|
    {
      if subsets == [] then Ok(h)
      else
        var z := AsList(subsets[0], rest);
        if z.Err? then Err(IndexOutOfBounds)
        else
          var next := if indep(a, b, Elems(z.value)) then CommonPruned(indep, h, a, b, Elems(z.value)) else Ok(h);
          if next.Err? then next
          else
            var r := SubsetsPruned(next.value, a, b, rest, subsets[1..]);
            PrunedAfter(r, next.value, h);
            r
    }

    /** kpartial for the pair of test variables at indices i < j, from h. */
    function PairPruned(h: Graph, depth: int, i: nat, j: nat): (r: Result<Graph>)
      requires i < j < |testVars|
      ensures r.Ok? ==> Pruned(r.value, h)
      ensures r.Err? ==> r.error == IndexOutOfBounds || (!Distinct(testVars) && r.error == IllegalArgument)
    {
      var a, b := testVars[i], testVars[j];
      var rest := RemoveFirst(RemoveFirst(testVars, a), b);
      SubsetsPruned(h, a, b, rest, choices(|rest|, depth))
    }

    /** kpartial's inner pair loop, from h: the pairs (i, j') for j' from j on. */
    function FromPruned(h: Graph, depth: int, i: nat, j: nat): (r: Result<Graph>)
      requires i < j <= |testVars|
      ensures r.Ok? ==> Pruned(r.value, h)
      ensures r.Err? ==> r.error == IndexOutOfBounds || (!Distinct(testVars) && r.error == IllegalArgument)
      decreases |testVars| - j
    {
      if j == |testVars| then Ok(h)
      else
        var next := PairPruned(h, depth, i, j);
        if next.Err? then next
        else
          var r := FromPruned(next.value, depth, i, j + 1);
          PrunedAfter(r, next.value, h);
          r
    }

    /** The inner loop so far from g reached h; one more pair gives next. */
    lemma FromPrunedStep(h: Graph, depth: int, i: nat, j: nat, next: Result<Graph>)
      requires i < j < |testVars| && next == PairPruned(h, depth, i, j)
      ensures FromPruned(h, depth, i, j) == if next.Err? then next else FromPruned(next.value, depth, i, j + 1)
    {
    }

    /** kpartial's outer pair loop, from h: the pairs (i', j) for i' from i on. */
    function AllPruned(h: Graph, depth: int, i: nat): (r: Result<Graph>)
      requires i <= |testVars|
      ensures r.Ok? ==> Pruned(r.value, h)
      ensures r.Err? ==> r.error == IndexOutOfBounds || (!Distinct(testVars) && r.error == IllegalArgument)
      decreases |testVars| - i
    {
      if i == |testVars| then Ok(h)
      else
        var next := FromPruned(h, depth, i, i + 1);
        if next.Err? then next
        else
          var r := AllPruned(next.value, depth, i + 1);
          PrunedAfter(r, next.value, h);
          r
    }

    /**
     * In kpartial, for a pair a, b found independent given z: every common
     * neighbour c outside z with c -> a and c -> b that is dependent on both
     * given z loses both of its edges. A second removal fails only when a
     * and b are the same node.
     */
    method PruneCommon(g: Graph, ghost start: Graph, a: Node, b: Node, z: seq<Node>) returns (r: Result<Graph>, reached: Graph)
      requires Pruned(g, start)
      ensures r == CommonPruned(indep, g, a, b, Elems(z))
      ensures r.Ok? ==> Pruned(r.value, start)
      ensures r.Err? ==> a == b && r.error == IllegalArgument
      ensures r.Ok? ==> reached == r.value
      ensures r.Err? ==> exists c | Prunable(indep, g, a, b, Elems(z), c) :: reached == RemoveEdge(g, c, a)
      ensures Pruned(reached, start)
    {
      var cs := ListOf(AdjacentNodes(g, a) * AdjacentNodes(g, b));
      ghost var all := PrunableSet(indep, g, a, b, Elems(z));
      ghost var done: set<Node> := {};
      var h := g;
      assert h == WithoutPairs(g, a, b, done);
      for k := 0 to |cs|
        invariant done <= all && (a == b ==> done == {})
        invariant forall j | 0 <= j < k :: cs[j] in all ==> cs[j] in done
        invariant h == WithoutPairs(g, a, b, done)
      {
        var step;
        var c := cs[k];
        step, reached, done := PruneCandidate(h, a, b, z, c, g, done);
        if step.Err? {
          PrunedRemove(g, start, c, a);
          return step, reached;
        }
        h := step.value;
      }
      CommonPrunedReached(indep, g, a, b, Elems(z), done, cs);
      r, reached := Ok(h), h;
      PrunedTrans(h, g, start);
    }

    /**
     * The body of kpartial's loop over the common neighbours of a and b, for
     * c: its two edges are removed when it meets the removal condition on
     * the graph so far, which, for a c not seen before, is the condition on g.
     */
    method PruneCandidate(h: Graph, a: Node, b: Node, z: seq<Node>, c: Node, ghost g: Graph, ghost done: set<Node>)
      returns (r: Result<Graph>, reached: Graph, ghost done': set<Node>)
      requires done <= PrunableSet(indep, g, a, b, Elems(z)) && (a == b ==> done == {})
      requires h == WithoutPairs(g, a, b, done)
      ensures done' == if c in PrunableSet(indep, g, a, b, Elems(z)) then done + {c} else done
      ensures r.Err? <==> a == b && c in PrunableSet(indep, g, a, b, Elems(z))
      ensures r.Err? ==> r.error == IllegalArgument
      ensures r.Ok? ==> r.value == WithoutPairs(g, a, b, done')
      ensures r.Ok? ==> reached == r.value
      ensures r.Err? ==> reached == RemoveEdge(g, c, a) && Prunable(indep, g, a, b, Elems(z), c)
    {
      done' := done;
      reached := h;
      if a == b {
        WithoutNoPairs(g, a, b);
      }
      WithoutPairsSees(indep, g, a, b, Elems(z), done, c);
      AdjacentNodesIff(g, a, c);
      if c in z || !IsParentOf(h, c, a) || !IsParentOf(h, c, b) {
        return Ok(h), reached, done';
      }
      if !indep(a, c, Elems(z)) && !indep(c, b, Elems(z)) {
        r, reached := RemoveBoth(h, h, a, b, c);
        WithoutPairsStep(g, a, b, done, c);
        done' := done + {c};
      } else {
        r := Ok(h);
      }
    }

    /**
     * In kpartial, c -> a and c -> b removed through kpartialRemoveEdge, in
     * place: reached is the graph G holds afterwards, also when the second
     * removal throws.
     */
    method RemoveBoth(h: Graph, ghost start: Graph, a: Node, b: Node, c: Node) returns (r: Result<Graph>, reached: Graph)
      requires Pruned(h, start) && IsParentOf(h, c, a) && IsParentOf(h, c, b)
      ensures r.Ok? ==> Pruned(r.value, start) && !Adjacent(r.value, c, a) && !Adjacent(r.value, c, b)
      ensures r.Ok? ==> r.value == RemoveEdge(RemoveEdge(h, c, a), c, b)
      ensures r.Err? <==> a == b
      ensures r.Err? ==> r.error == IllegalArgument
      ensures r.Ok? ==> reached == r.value
      ensures r.Err? ==> reached == RemoveEdge(h, c, a)
      ensures Pruned(reached, start)
    {
      var first := KpartialRemoveEdge(h, c, a);
      assert first == Ok(RemoveEdge(h, c, a));
      PrunedRemove(h, start, c, a);
      r := KpartialRemoveEdge(first.value, c, b);
      if a != b {
        assert IsParentOf(first.value, c, b);
        PrunedRemove(first.value, start, c, b);
      }
      reached := if r.Ok? then r.value else first.value;
    }

    /** In kpartial, for the pair at indices i and j: every subset the generator offers is tried. */
    method PrunePair(g: Graph, ghost start: Graph, i: nat, j: nat) returns (r: Result<Graph>, reached: Graph)
      requires i < j < |testVars|
      requires Pruned(g, start)
      ensures r == PairPruned(g, depth, i, j)
      ensures r.Ok? ==> Pruned(r.value, start)
      ensures r.Err? ==> r.error == IndexOutOfBounds || (!Distinct(testVars) && r.error == IllegalArgument)
      ensures r.Ok? ==> reached == r.value
      ensures Pruned(reached, start)
    {
      var a, b := testVars[i], testVars[j];
      var rest := RemoveFirst(RemoveFirst(testVars, a), b);
      var subsets := choices(|rest|, depth);
      var h := g;
      for k := 0 to |subsets|
        invariant Pruned(h, start)
        invariant SubsetsPruned(g, a, b, rest, subsets) == SubsetsPruned(h, a, b, rest, subsets[k..])
      {
        assert subsets[k..][0] == subsets[k] && subsets[k..][1..] == subsets[k + 1..];
        var z := AsList(subsets[k], rest);
        if z.Err? {
          return Err(IndexOutOfBounds), h;
        }
        if indep(a, b, Elems(z.value)) {
          var pruned;
          pruned, reached := PruneCommon(h, start, a, b, z.value);
          if pruned.Err? {
            return pruned, reached;
          }
          h := pruned.value;
        }
      }
      return Ok(h), h;
    }

    /** The pair loops of kpartial: every pair of test variables, in index order. */
    method PruneAll(g: Graph) returns (r: Result<Graph>, reached: Graph)
      ensures r == AllPruned(g, depth, 0)
      ensures r.Ok? ==> Pruned(r.value, g)
      ensures r.Err? ==> r.error == IndexOutOfBounds || (!Distinct(testVars) && r.error == IllegalArgument)
      ensures r.Ok? ==> reached == r.value
      ensures Pruned(reached, g)
    {
      var h := g;
      for i := 0 to |testVars|
        invariant Pruned(h, g)
        invariant AllPruned(g, depth, 0) == AllPruned(h, depth, i)
      {
        var step;
        step, reached := PruneFrom(h, i);
        PrunedTrans(reached, h, g);
        if step.Err? {
          return step, reached;
        }
        h := step.value;
      }
      PrunedRefl(h);
      PrunedTrans(h, h, g);
      return Ok(h), h;
    }

    /** One pair of the inner loop, continuing the fold from g that has reached h. */
    method PruneNext(ghost target: Result<Graph>, ghost g: Graph, h: Graph, i: nat, j: nat) returns (r: Result<Graph>, reached: Graph)
      requires i < j < |testVars|
      requires target == FromPruned(h, depth, i, j) && Pruned(h, g)
      ensures r.Err? ==> target == r
      ensures r.Ok? ==> target == FromPruned(r.value, depth, i, j + 1)
      ensures r.Ok? ==> reached == r.value
      ensures Pruned(reached, g)
    {
      PrunedRefl(h);
      r, reached := PrunePair(h, h, i, j);
      FromPrunedStep(h, depth, i, j, r);
      PrunedTrans(reached, h, g);
    }

    /** The inner pair loop of kpartial: the pairs (i, j) for every j after i. */
    method PruneFrom(g: Graph, i: nat) returns (r: Result<Graph>, reached: Graph)
      requires i < |testVars|
      ensures r == FromPruned(g, depth, i, i + 1)
      ensures r.Ok? ==> Pruned(r.value, g)
      ensures r.Err? ==> r.error == IndexOutOfBounds || (!Distinct(testVars) && r.error == IllegalArgument)
      ensures r.Ok? ==> reached == r.value
      ensures Pruned(reached, g)
    {
      var h := g;
      ghost var target := FromPruned(g, depth, i, i + 1);
      PrunedRefl(g);
      for j := i + 1 to |testVars|
        invariant target == FromPruned(h, depth, i, j) && Pruned(h, g)
      {
        var step;
        step, reached := PruneNext(target, g, h, i, j);
        if step.Err? {
          return step, reached;
        }
        h := step.value;
      }
      r, reached := Ok(h), h;
    }

    /**
     * What kpartial computes from the FAS graph h: E (with CPC), the pair
     * loops, then the Meek rules; the first exception stops it.
     */
    function KpartialOf(h: Graph): (r: Result<Graph>)
      reads this`knowledge, this`colliderDiscovery, this`sepsets, this`depth
      ensures r.Err? ==> r.error in {NullPointer, IndexOutOfBounds} || (!Distinct(testVars) && r.error == IllegalArgument)
      ensures r.Ok? ==> exists start, pruned :: E(h) == Ok(start) && Pruned(pruned, start) && r.value == meek(knowledge, pruned)
    {
      var start := E(h);
      if start.Err? then Err(start.error)
      else
        var pruned := AllPruned(start.value, depth, 0);
        if pruned.Err? then Err(pruned.error)
        else Ok(meek(knowledge, pruned.value))
    }

    /**
     * kpartial: CPC orientation of the FAS graph, then, for every pair
     * of test variables, removal of the directed edges described at
     * PruneCommon, then the Meek rules. The result is the Meek closure of a
     * graph obtained from start, the oriented FAS graph, by removing
     * directed edges only.
     */
    method Kpartial() returns (r: Result<Graph>, ghost start: Graph, ghost pruned: Graph)
      modifies this
      ensures colliderDiscovery == CPC
      ensures initialGraph == if old(graph).Some? then old(graph) else old(initialGraph)
      ensures sepsets == Some(fas(initialGraph, knowledge, depth).1)
      ensures depth == old(depth) && doMarkovLoop == old(doMarkovLoop) && knowledge == old(knowledge)
      ensures r.Ok? ==> E(fas(initialGraph, knowledge, depth).0) == Ok(start)
      ensures r.Ok? ==> Pruned(pruned, start) && r.value == meek(knowledge, pruned) && graph == Some(r.value)
      ensures r.Ok? ==> AllPruned(start, depth, 0) == Ok(pruned)
      ensures r.Err? ==> r.error in {NullPointer, IndexOutOfBounds} || (!Distinct(testVars) && r.error == IllegalArgument)
      ensures r == KpartialOf(fas(initialGraph, knowledge, depth).0)
      ensures r.Err? && E(fas(initialGraph, knowledge, depth).0).Err? ==> graph == Some(fas(initialGraph, knowledge, depth).0)
      ensures r.Err? && E(fas(initialGraph, knowledge, depth).0).Ok? ==>
        E(fas(initialGraph, knowledge, depth).0) == Ok(start) && Pruned(pruned, start) && graph == Some(pruned)
    {
      colliderDiscovery := CPC;
      FindAdjacencies();
      var oriented := E(graph.value);
      if oriented.Err? {
        return Err(oriented.error), graph.value, graph.value;
      }
      start := oriented.value;
      r, pruned := PruneAndClose(oriented.value);
    }

    /**
     * The second half of kpartial, on G = start: the pair loops prune G in
     * place, then the Meek rules; after a failure G keeps the removals made
     * so far.
     */
    method PruneAndClose(start: Graph) returns (r: Result<Graph>, ghost pruned: Graph)
      modifies this`graph
      ensures Pruned(pruned, start)
      ensures r.Ok? ==> AllPruned(start, depth, 0) == Ok(pruned) && r.value == meek(knowledge, pruned) && graph == Some(r.value)
      ensures r.Err? ==> r == AllPruned(start, depth, 0) && graph == Some(pruned)
    {
      var all, reached := PruneAll(start);
      pruned := reached;
      if all.Err? {
        graph := Some(reached);
        return all, pruned;
      }
      r := Ok(meek(knowledge, all.value));
      graph := Some(r.value);
    }

    // -------------------------------------------------------------------
    // search

    /**
     * The graph search builds before its Markov loop, read in the state the
     * building leaves: with MPC (by then switched to CPC) kpartial, otherwise
     * E applied to the FAS graph.
     */
    function OrientedOf(discovery: ColliderMethod): (r: Result<Graph>)
      reads this`initialGraph, this`knowledge, this`colliderDiscovery, this`sepsets, this`depth
      ensures r.Err? ==> r.error in {NullPointer, IndexOutOfBounds, IllegalArgument}
      ensures r.Ok? && discovery != MPC ==> CleanMarks(r.value)
    {
      if discovery == MPC then KpartialOf(fas(initialGraph, knowledge, depth).0)
      else E(fas(initialGraph, knowledge, depth).0)
    }

    /**
     * What G holds once the first half of search has thrown: the FAS graph
     * when E threw, otherwise (kpartial only) E's result with the directed
     * edges removed before the throw.
     */
    ghost predicate FailedOrientLeaves(discovery: ColliderMethod)
      reads this`graph, this`initialGraph, this`knowledge, this`colliderDiscovery, this`sepsets, this`depth
    {
      var f := fas(initialGraph, knowledge, depth).0;
      if E(f).Err? then graph == Some(f)
      else discovery == MPC && graph.Some? && Pruned(graph.value, E(f).value)
    }

    /** The first half of search: kpartial with MPC, otherwise FAS then E; the graph is left in G. */
    method Orient() returns (r: Result<Graph>)
      modifies this
      ensures initialGraph == if old(graph).Some? then old(graph) else old(initialGraph)
      ensures sepsets == Some(fas(initialGraph, knowledge, depth).1)
      ensures depth == old(depth) && doMarkovLoop == old(doMarkovLoop) && knowledge == old(knowledge)
      ensures colliderDiscovery == if old(colliderDiscovery) == MPC then CPC else old(colliderDiscovery)
      ensures r == OrientedOf(old(colliderDiscovery))
      ensures r.Ok? ==> graph == Some(r.value)
      ensures r.Err? ==> FailedOrientLeaves(old(colliderDiscovery))
    {
      if colliderDiscovery == MPC {
        ghost var start, pruned;
        r, start, pruned := Kpartial();
      } else {
        FindAdjacencies();
        r := E(graph.value);
      }
      if r.Ok? {
        graph := Some(r.value);
      }
    }

    /**
     * search(nodes): the given nodes must all be test variables; MPC runs
     * kpartial (which switches collider discovery to CPC), the others run
     * FAS then E; the Markov loop, when asked for, refuses SEPSETS. The
     * result is also left in G.
     */
    /** The Markov half of search, on G = g: refused with SEPSETS, otherwise the loop; after a failure G keeps the graph the loop had reached. */
    method MarkovPhase(nodes: seq<Node>, g: Graph) returns (r: Result<Graph>, ghost rounds: nat, ghost flags: seq<bool>)
      modifies this`graph
      ensures colliderDiscovery == SEPSETS ==> r == Err(IllegalArgument) && graph == old(graph)
      ensures r.Ok? ==> 1 <= rounds <= 10 && |flags| == rounds && forall i | 0 <= i < rounds - 1 :: flags[i]
      ensures r.Ok? && !flags[0] ==> r == Ok(g) && MarkovAmong(indep, g, nodes, nodes)
      ensures r.Ok? && rounds < 10 ==> MarkovAmong(indep, r.value, nodes, nodes)
      ensures r.Ok? && CleanMarks(g) ==> CleanMarks(r.value)
      ensures r.Err? ==> r.error in {IllegalArgument, NullPointer}
      ensures r.Err? && colliderDiscovery != SEPSETS ==> graph.Some? && (graph.value == g || CleanMarks(graph.value))
      ensures r.Ok? ==> graph == Some(r.value)
    {
      rounds, flags := 0, [];
      if colliderDiscovery == SEPSETS {
        return Err(IllegalArgument), rounds, flags;
      }
      var m, at, n, f := MarkovLoop(nodes, g);
      flags := f;
      graph := Some(at);
      if m.Err? {
        return m, rounds, flags;
      }
      rounds := n;
      r := m;
    }

    method Search(nodes: seq<Node>) returns (r: Result<Graph>, ghost rounds: nat, ghost before: Result<Graph>, ghost flags: seq<bool>)
      modifies this
      ensures (forall n | n in nodes :: n in testVars) ==> initialGraph == if old(graph).Some? then old(graph) else old(initialGraph)
      ensures (forall n | n in nodes :: n in testVars) ==> sepsets == Some(fas(initialGraph, knowledge, depth).1)
      ensures depth == old(depth) && doMarkovLoop == old(doMarkovLoop) && knowledge == old(knowledge)
      ensures (forall n | n in nodes :: n in testVars) ==> before == OrientedOf(old(colliderDiscovery))
      ensures (forall n | n in nodes :: n in testVars) && (before.Err? || !old(doMarkovLoop)) ==> r == before
      ensures (forall n | n in nodes :: n in testVars) && before.Ok? && old(doMarkovLoop) && old(colliderDiscovery) == SEPSETS ==> r == Err(IllegalArgument)
      ensures r.Ok? && old(doMarkovLoop) ==> before.Ok? && 1 <= rounds <= 10 && |flags| == rounds && forall i | 0 <= i < rounds - 1 :: flags[i]
      ensures r.Ok? && old(doMarkovLoop) && !flags[0] ==> r == before && MarkovAmong(indep, r.value, nodes, nodes)
      ensures (forall n | n in nodes :: n in testVars) && before.Err? ==> FailedOrientLeaves(old(colliderDiscovery))
      ensures (forall n | n in nodes :: n in testVars) && before.Ok? && old(doMarkovLoop) && r.Err? ==>
        graph.Some? && (graph.value == before.value || CleanMarks(graph.value))
      ensures (forall n | n in nodes :: n in testVars) && before.Ok? && old(doMarkovLoop) && old(colliderDiscovery) == SEPSETS ==>
        graph == Some(before.value)
      ensures !(forall n | n in nodes :: n in testVars) ==> r == Err(IllegalArgument) && graph == old(graph)
      ensures !(forall n | n in nodes :: n in testVars) ==> colliderDiscovery == old(colliderDiscovery)
      ensures (forall n | n in nodes :: n in testVars) && old(colliderDiscovery) == MPC ==> colliderDiscovery == CPC
      ensures old(colliderDiscovery) != MPC ==> colliderDiscovery == old(colliderDiscovery)
      ensures (forall n | n in nodes :: n in testVars) && old(doMarkovLoop) && old(colliderDiscovery) == SEPSETS ==> r.Err?
      ensures r.Err? ==> r.error in {IllegalArgument, NullPointer, IndexOutOfBounds}
      ensures r.Ok? ==> graph == Some(r.value)
      ensures r.Ok? && old(colliderDiscovery) != MPC ==> CleanMarks(r.value)
      ensures r.Ok? && old(doMarkovLoop) && rounds < 10 ==> MarkovAmong(indep, r.value, nodes, nodes)
    {
      rounds, before, flags := 0, Err(IllegalArgument), [];
      if !(forall n | n in nodes :: n in testVars) {
        return Err(IllegalArgument), rounds, before, flags;
      }
      var o := Orient();
      before := o;
      if o.Err? {
        return o, rounds, before, flags;
      }
      if doMarkovLoop {
        r, rounds, flags := MarkovPhase(nodes, o.value);
        return;
      }
      return Ok(graph.value), rounds, before, flags;
    }
  }
}
