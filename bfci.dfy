/**
 * BFCI: FCI-style orientation of the graph BOSS finds. The BOSS run itself
 * is modelled in BossSearch and called from here; the phases after it are
 * modelled here: every mark reset to a circle, background
 * knowledge, unshielded colliders copied from the BOSS graph, the
 * swap-and-rescore probe that finds triples b, c, d whose edge b - d is
 * removed, and the final flags. The final FCI orientation rules are a
 * collaborator and enter as a function.
 */
module BfciSearch {
  import opened Base
  import opened Orders
  import opened Scoring
  import opened Graphs
  import BossSearch

  // ---------------------------------------------------------------------
  // The probe's predicates

  /** a, b, c and d are four different nodes: the set of them has four members. */
  predicate Distinct4(a: Node, b: Node, c: Node, d: Node)
  {
    |{a, b, c, d}| == 4
  }

  lemma Distinct4Pairwise(a: Node, b: Node, c: Node, d: Node)
    ensures Distinct4(a, b, c, d) <==> a != b && a != c && a != d && b != c && b != d && c != d
  {
    if a == b || a == c || a == d {
      assert {a, b, c, d} == {b, c, d};
    } else if b == c || b == d {
      assert {a, b, c, d} == {a, c, d};
    } else if c == d {
      assert {a, b, c, d} == {a, b, c};
    }
  }

  /**
   * The shape the probe looks for under order o: a -> b <- c with a and c
   * not adjacent, and d adjacent to both b and c.
   */
  predicate Configuration(parentsOf: (seq<Node>, Node) -> set<Node>, o: seq<Node>,
                          a: Node, b: Node, c: Node, d: Node)
  {
    Distinct4(a, b, c, d)
    && AdjacentIn(parentsOf, o, a, b) && AdjacentIn(parentsOf, o, b, c)
    && AdjacentIn(parentsOf, o, c, d) && AdjacentIn(parentsOf, o, b, d)
    && !AdjacentIn(parentsOf, o, a, c)
    && ColliderIn(parentsOf, o, a, b, c)
  }

  /** In a configuration all four nodes are in the order, and the collider b comes after a and c. */
  lemma ConfigurationInOrder(parentsOf: (seq<Node>, Node) -> set<Node>, o: seq<Node>,
                             a: Node, b: Node, c: Node, d: Node)
    requires ParentsPrecede(parentsOf) && Configuration(parentsOf, o, a, b, c, d)
    ensures a in o && b in o && c in o && d in o
    ensures IndexOf(o, a) < IndexOf(o, b) && IndexOf(o, c) < IndexOf(o, b)
  {
    assert a in parentsOf(o, b) && c in parentsOf(o, b);
    assert d in parentsOf(o, c) || c in parentsOf(o, d);
  }

  // ---------------------------------------------------------------------
  // Background knowledge (fciOrientbk)

  /**
   * One knowledge edge from -> to, when both ends are variables and adjacent:
   * the mark at `from` becomes atFrom and the mark at `to` becomes atTo.
   */
  function OrientEdge(g: Graph, e: (Node, Node), vars: seq<Node>, atFrom: Endpoint, atTo: Endpoint): Graph
  {
    if e.0 in vars && e.1 in vars && Adjacent(g, e.0, e.1) then
      SetEndpoint(SetEndpoint(g, e.1, e.0, atFrom), e.0, e.1, atTo)
    else
      g
  }

  /** The knowledge edges es applied in the order listed. */
  function OrientAll(g: Graph, es: seq<(Node, Node)>, vars: seq<Node>, atFrom: Endpoint, atTo: Endpoint): (r: Graph)
    ensures r.nodes == g.nodes && r.ends.Keys == g.ends.Keys
    ensures r.underlines == g.underlines && r.ambiguous == g.ambiguous
    ensures r.pag == g.pag && r.attributes == g.attributes
  {
    if es == [] then g
    else OrientEdge(OrientAll(g, es[..|es| - 1], vars, atFrom, atTo), es[|es| - 1], vars, atFrom, atTo)
  }

  /** The two marks of the edge between a and b. */
  predicate OnPair(e: (Node, Node), k: (Node, Node))
  {
    k == e || k == (e.1, e.0)
  }

  /** One knowledge edge leaves the marks of every other pair alone. */
  lemma OrientEdgeElsewhere(g: Graph, e: (Node, Node), vars: seq<Node>, atFrom: Endpoint, atTo: Endpoint,
                            k: (Node, Node))
    requires k in g.ends && !OnPair(e, k)
    ensures OrientEdge(g, e, vars, atFrom, atTo).ends[k] == g.ends[k]
  {
  }

  /** A mark on no listed pair keeps its value. */
  lemma {:induction false} OrientAllUntouched(g: Graph, es: seq<(Node, Node)>, vars: seq<Node>,
                                              atFrom: Endpoint, atTo: Endpoint, k: (Node, Node))
    requires k in g.ends && forall e | e in es :: !OnPair(e, k)
    ensures OrientAll(g, es, vars, atFrom, atTo).ends[k] == g.ends[k]
  {
    if es != [] {
      var init, last := es[..|es| - 1], es[|es| - 1];
      assert es == init + [last];
      assert last in es && forall e | e in init :: e in es;
      OrientAllUntouched(g, init, vars, atFrom, atTo, k);
      OrientEdgeElsewhere(OrientAll(g, init, vars, atFrom, atTo), last, vars, atFrom, atTo, k);
    }
  }

  /**
   * A listed edge from -> to between adjacent variables, whose reverse is not
   * listed, ends with atFrom at `from` and atTo at `to`, whatever else is listed.
   */
  lemma {:induction false} OrientAllListed(g: Graph, es: seq<(Node, Node)>, vars: seq<Node>,
                                           atFrom: Endpoint, atTo: Endpoint, e: (Node, Node))
    requires e in es && (e.1, e.0) !in es
    requires e.0 in vars && e.1 in vars && Adjacent(g, e.0, e.1)
    ensures OrientAll(g, es, vars, atFrom, atTo).ends[(e.1, e.0)] == atFrom
    ensures OrientAll(g, es, vars, atFrom, atTo).ends[(e.0, e.1)] == atTo
  {
    var init, last := es[..|es| - 1], es[|es| - 1];
    assert es == init + [last];
    var h := OrientAll(g, init, vars, atFrom, atTo);
    if last != e {
      assert e in init && (e.1, e.0) !in init;
      assert last != (e.1, e.0);
      OrientAllListed(g, init, vars, atFrom, atTo, e);
      OrientEdgeElsewhere(h, last, vars, atFrom, atTo, (e.1, e.0));
      OrientEdgeElsewhere(h, last, vars, atFrom, atTo, (e.0, e.1));
    }
  }

  /** The body of fciOrientbk's loops for the knowledge edge from -> to. */
  method OrientKnowledgeEdge(graph: Graph, from: Node, to: Node, variables: seq<Node>,
                             atFrom: Endpoint, atTo: Endpoint) returns (g: Graph)
    ensures g == OrientEdge(graph, (from, to), variables, atFrom, atTo)
  {
    g := graph;
    if from !in variables || to !in variables {
      return;
    }
    if !Adjacent(g, from, to) {
      return;
    }
    g := SetEndpoint(g, to, from, atFrom);
    g := SetEndpoint(g, from, to, atTo);
  }

  /**
   * One of fciOrientbk's two loops: every knowledge edge from -> to in edges,
   * taken in the iterator's order es, gets atFrom at `from` and atTo at `to`
   * when both ends are variables and adjacent.
   */
  method OrientKnowledgeEdges(edges: set<(Node, Node)>, graph: Graph, variables: seq<Node>,
                              atFrom: Endpoint, atTo: Endpoint)
    returns (g: Graph, ghost es: seq<(Node, Node)>)
    ensures Elems(es) == edges && |es| == |edges| && g == OrientAll(graph, es, variables, atFrom, atTo)
  {
    var list := ListOf(edges);
    g, es := graph, list;
    for i := 0 to |list|
      invariant g == OrientAll(graph, list[..i], variables, atFrom, atTo)
    {
      assert list[..i + 1][..i] == list[..i];
      g := OrientKnowledgeEdge(g, list[i].0, list[i].1, variables, atFrom, atTo);
    }
    assert list[..|list|] == list;
  }

  /**
   * fciOrientbk: forbidden edges from -> to first (an arrowhead at `from`, a
   * circle at `to`), then required edges (a tail at `from`, an arrowhead at
   * `to`). The knowledge iterators' orders are returned as fs and rs.
   */
  method FciOrientbk(knowledge: Knowledge, graph: Graph, variables: seq<Node>)
    returns (g: Graph, ghost fs: seq<(Node, Node)>, ghost rs: seq<(Node, Node)>)
    ensures Elems(fs) == knowledge.forbidden && Elems(rs) == knowledge.required
    ensures |fs| == |knowledge.forbidden| && |rs| == |knowledge.required|
    ensures g == OrientAll(OrientAll(graph, fs, variables, ARROW, CIRCLE), rs, variables, TAIL, ARROW)
  {
    g, fs := OrientKnowledgeEdges(knowledge.forbidden, graph, variables, ARROW, CIRCLE);
    g, rs := OrientKnowledgeEdges(knowledge.required, g, variables, TAIL, ARROW);
  }

  /** What fciOrientbk leaves on graph when its iterators take the orders fs and rs. */
  function KnowledgeOriented(graph: Graph, fs: seq<(Node, Node)>, rs: seq<(Node, Node)>, variables: seq<Node>): Graph
  {
    OrientAll(OrientAll(graph, fs, variables, ARROW, CIRCLE), rs, variables, TAIL, ARROW)
  }

  /**
   * What fciOrientbk leaves, for any iteration order: a required edge
   * from -> to between adjacent variables, not contradicted by a required
   * to -> from, ends as from --> to, whatever is forbidden.
   */
  lemma RequiredWins(knowledge: Knowledge, graph: Graph, variables: seq<Node>,
                     fs: seq<(Node, Node)>, rs: seq<(Node, Node)>, e: (Node, Node))
    requires Elems(fs) == knowledge.forbidden && Elems(rs) == knowledge.required
    requires knowledge.IsRequired(e.0, e.1) && !knowledge.IsRequired(e.1, e.0)
    requires e.0 in variables && e.1 in variables && Adjacent(graph, e.0, e.1)
    ensures var g := OrientAll(OrientAll(graph, fs, variables, ARROW, CIRCLE), rs, variables, TAIL, ARROW);
            g.ends[(e.1, e.0)] == TAIL && g.ends[(e.0, e.1)] == ARROW
  {
    var h := OrientAll(graph, fs, variables, ARROW, CIRCLE);
    assert Adjacent(h, e.0, e.1);
    OrientAllListed(h, rs, variables, TAIL, ARROW, e);
  }

  /**
   * A forbidden edge from -> to between adjacent variables, with no other
   * knowledge on the pair, ends with an arrowhead at `from` and a circle at `to`.
   */
  lemma ForbiddenOrients(knowledge: Knowledge, graph: Graph, variables: seq<Node>,
                         fs: seq<(Node, Node)>, rs: seq<(Node, Node)>, e: (Node, Node))
    requires Elems(fs) == knowledge.forbidden && Elems(rs) == knowledge.required
    requires knowledge.IsForbidden(e.0, e.1) && !knowledge.IsForbidden(e.1, e.0)
    requires !knowledge.IsRequired(e.0, e.1) && !knowledge.IsRequired(e.1, e.0)
    requires e.0 in variables && e.1 in variables && Adjacent(graph, e.0, e.1)
    ensures var g := OrientAll(OrientAll(graph, fs, variables, ARROW, CIRCLE), rs, variables, TAIL, ARROW);
            g.ends[(e.1, e.0)] == ARROW && g.ends[(e.0, e.1)] == CIRCLE
  {
    var h := OrientAll(graph, fs, variables, ARROW, CIRCLE);
    OrientAllListed(graph, fs, variables, ARROW, CIRCLE, e);
    OrientAllUntouched(h, rs, variables, TAIL, ARROW, (e.1, e.0));
    OrientAllUntouched(h, rs, variables, TAIL, ARROW, (e.0, e.1));
  }

  /** A mark on a pair the knowledge says nothing about keeps its value. */
  lemma KnowledgeElsewhere(knowledge: Knowledge, graph: Graph, variables: seq<Node>,
                           fs: seq<(Node, Node)>, rs: seq<(Node, Node)>, k: (Node, Node))
    requires Elems(fs) == knowledge.forbidden && Elems(rs) == knowledge.required
    requires k in graph.ends
    requires forall e | e in knowledge.forbidden + knowledge.required :: !OnPair(e, k)
    ensures OrientAll(OrientAll(graph, fs, variables, ARROW, CIRCLE), rs, variables, TAIL, ARROW).ends[k]
            == graph.ends[k]
  {
    var h := OrientAll(graph, fs, variables, ARROW, CIRCLE);
    OrientAllUntouched(graph, fs, variables, ARROW, CIRCLE, k);
    OrientAllUntouched(h, rs, variables, TAIL, ARROW, k);
  }

  // ---------------------------------------------------------------------
  // Unshielded colliders copied from the BOSS graph

  /** a - b - c in g with a and c not adjacent, and a *-> b <-* c in the BOSS graph. */
  predicate Unshielded(g: Graph, boss: Graph, a: Node, b: Node, c: Node)
  {
    a != c && Adjacent(g, b, a) && Adjacent(g, b, c) && !Adjacent(g, a, c) && IsDefCollider(boss, a, b, c)
  }

  /** The nodes adjacent to b in g from which an edge gets an arrowhead at b. */
  ghost function Justified(g: Graph, boss: Graph, b: Node): set<Node>
  {
    set x | x in AdjacentNodes(g, b) && exists c | c in AdjacentNodes(g, b) :: Unshielded(g, boss, x, b, c)
  }

  /** The marks of m, with an arrowhead at b on the edge from each node of marked. */
  function MarkedInto(m: map<(Node, Node), Endpoint>, b: Node, marked: set<Node>): map<(Node, Node), Endpoint>
  {
    map k | k in m :: if k.1 == b && k.0 in marked then ARROW else m[k]
  }

  /** The inner loop at b for a = adj[i]: every later c of the list is tried. */
  method CopyCollidersFrom(h: Graph, ghost g: Graph, ghost graph: Graph, boss: Graph, b: Node, adj: seq<Node>,
                           i: nat, ghost marked: set<Node>)
    returns (h': Graph, ghost marked': set<Node>)
    requires i < |adj| && Elems(adj) == AdjacentNodes(graph, b) && g.ends.Keys == graph.ends.Keys
    requires h == g.(ends := MarkedInto(g.ends, b, marked)) && marked <= Justified(graph, boss, b)
    requires PairsTried(graph, boss, b, adj, i, marked)
    ensures h' == g.(ends := MarkedInto(g.ends, b, marked')) && marked <= marked' <= Justified(graph, boss, b)
    ensures PairsTried(graph, boss, b, adj, i + 1, marked')
  {
    h', marked' := h, marked;
    for j := i + 1 to |adj|
      invariant h' == g.(ends := MarkedInto(g.ends, b, marked')) && marked <= marked' <= Justified(graph, boss, b)
      invariant forall q | i < q < j && Unshielded(graph, boss, adj[i], b, adj[q]) :: adj[i] in marked' && adj[q] in marked'
    {
      h', marked' := CopyColliderPair(h', g, graph, boss, b, adj, marked', adj[i], adj[j]);
    }
    PairsTriedStep(graph, boss, b, adj, i, marked, marked');
  }

  /** Every unshielded pair adj[p], adj[q] with p < n was marked. */
  ghost predicate PairsTried(graph: Graph, boss: Graph, b: Node, adj: seq<Node>, n: nat, marked: set<Node>)
  {
    forall p, q | 0 <= p < n && p < q < |adj| && Unshielded(graph, boss, adj[p], b, adj[q]) ::
      adj[p] in marked && adj[q] in marked
  }

  lemma PairsTriedStep(graph: Graph, boss: Graph, b: Node, adj: seq<Node>, i: nat, marked: set<Node>, marked': set<Node>)
    requires i < |adj| && PairsTried(graph, boss, b, adj, i, marked) && marked <= marked'
    requires forall q | i < q < |adj| && Unshielded(graph, boss, adj[i], b, adj[q]) :: adj[i] in marked' && adj[q] in marked'
    ensures PairsTried(graph, boss, b, adj, i + 1, marked')
  {
  }

  /** The body of the inner loop: a - b - c, when unshielded, becomes a *-> b <-* c as in the BOSS graph. */
  method CopyColliderPair(h: Graph, ghost g: Graph, ghost graph: Graph, boss: Graph, b: Node, ghost adj: seq<Node>,
                          ghost marked: set<Node>, a: Node, c: Node)
    returns (h': Graph, ghost marked': set<Node>)
    requires Elems(adj) == AdjacentNodes(graph, b) && g.ends.Keys == graph.ends.Keys && a in adj && c in adj
    requires h == g.(ends := MarkedInto(g.ends, b, marked)) && marked <= Justified(graph, boss, b)
    ensures h' == g.(ends := MarkedInto(g.ends, b, marked')) && marked <= marked' <= Justified(graph, boss, b)
    ensures Unshielded(graph, boss, a, b, c) ==> a in marked' && c in marked'
  {
    h', marked' := h, marked;
    if a != c && !Adjacent(h, a, c) && IsDefCollider(boss, a, b, c) {
      MarkPair(g, graph, boss, b, adj, marked, a, c);
      h' := SetEndpoint(h', a, b, ARROW);
      h' := SetEndpoint(h', c, b, ARROW);
      marked' := marked' + {a, c};
    }
  }

  /** Marking a and c at b, when a - b - c is an unshielded collider, keeps the loop's state. */
  lemma MarkPair(g: Graph, graph: Graph, boss: Graph, b: Node, adj: seq<Node>, marked: set<Node>, a: Node, c: Node)
    requires Elems(adj) == AdjacentNodes(graph, b) && g.ends.Keys == graph.ends.Keys
    requires a in adj && c in adj && a != c && !Adjacent(graph, a, c) && IsDefCollider(boss, a, b, c)
    ensures Unshielded(graph, boss, a, b, c) && {a, c} <= Justified(graph, boss, b)
    ensures var h := g.(ends := MarkedInto(g.ends, b, marked));
            Adjacent(h, a, b) && Adjacent(SetEndpoint(h, a, b, ARROW), c, b)
            && SetEndpoint(SetEndpoint(h, a, b, ARROW), c, b, ARROW) == g.(ends := MarkedInto(g.ends, b, marked + {a, c}))
  {
    AdjacentNodesIff(graph, b, a);
    AdjacentNodesIff(graph, b, c);
    assert Unshielded(graph, boss, a, b, c) && Unshielded(graph, boss, c, b, a);
  }

  /**
   * The loop over adj at b: afterwards exactly the nodes in Justified have an
   * arrowhead at b on their edge to b.
   */
  method CopyCollidersAt(g: Graph, ghost graph: Graph, boss: Graph, b: Node) returns (h: Graph)
    requires g.ends.Keys == graph.ends.Keys
    ensures h == g.(ends := MarkedInto(g.ends, b, Justified(graph, boss, b)))
  {
    AdjacentNodesSameKeys(g, graph, b);
    var adj := ListOf(AdjacentNodes(g, b));
    ghost var marked := {};
    assert MarkedInto(g.ends, b, marked) == g.ends;
    h := g;
    for i := 0 to |adj|
      invariant h == g.(ends := MarkedInto(g.ends, b, marked)) && marked <= Justified(graph, boss, b)
      invariant PairsTried(graph, boss, b, adj, i, marked)
    {
      h, marked := CopyCollidersFrom(h, g, graph, boss, b, adj, i, marked);
    }
    AllJustifiedMarked(graph, boss, b, adj, marked);
  }

  /** When every pair of the list was tried, every justified node was marked. */
  lemma AllJustifiedMarked(graph: Graph, boss: Graph, b: Node, adj: seq<Node>, marked: set<Node>)
    requires Elems(adj) == AdjacentNodes(graph, b) && marked <= Justified(graph, boss, b)
    requires PairsTried(graph, boss, b, adj, |adj|, marked)
    ensures marked == Justified(graph, boss, b)
  {
    forall x | x in Justified(graph, boss, b) ensures x in marked {
      var c :| c in AdjacentNodes(graph, b) && Unshielded(graph, boss, x, b, c);
      var p, q := IndexOf(adj, x), IndexOf(adj, c);
      if q < p {
        assert Unshielded(graph, boss, c, b, x);
      }
    }
  }

  /**
   * The marks after copying the colliders at every b of bs: an arrowhead at b
   * on the edge from each justified node, and the mark of graph elsewhere.
   */
  ghost function CopiedEnds(graph: Graph, boss: Graph, bs: seq<Node>): map<(Node, Node), Endpoint>
  {
    map k | k in graph.ends :: if k.1 in bs && k.0 in Justified(graph, boss, k.1) then ARROW else graph.ends[k]
  }

  /**
   * In search, for every b of the order, every a - b - c with a and c not
   * adjacent that is a *-> b <-* c in the BOSS graph becomes a *-> b <-* c.
   */
  method CopyColliders(graph: Graph, boss: Graph, perm: seq<Node>) returns (g: Graph)
    ensures g == graph.(ends := CopiedEnds(graph, boss, perm))
  {
    g := graph;
    assert CopiedEnds(graph, boss, []) == graph.ends;
    for i := 0 to |perm|
      invariant g == graph.(ends := CopiedEnds(graph, boss, perm[..i]))
    {
      g := CopyCollidersAt(g, graph, boss, perm[i]);
      CopyStep(graph, boss, perm, i);
    }
    assert perm[..|perm|] == perm;
  }

  lemma CopyStep(graph: Graph, boss: Graph, perm: seq<Node>, i: nat)
    requires i < |perm|
    ensures MarkedInto(CopiedEnds(graph, boss, perm[..i]), perm[i], Justified(graph, boss, perm[i]))
            == CopiedEnds(graph, boss, perm[..i + 1])
  {
    assert perm[..i + 1] == perm[..i] + [perm[i]];
  }

  // ---------------------------------------------------------------------
  // The swap-and-rescore probe (in search)

  /**
   * The probe at a, b, c, d under order o: a -> b <- c, d, with a and c not
   * adjacent, is a configuration; swapping b and c gives the configuration
   * d, c, b, a, and the swap leaves the score as it was.
   */
  predicate Probe(m: ScoreModel, o: seq<Node>, a: Node, b: Node, c: Node, d: Node)
  {
    Configuration(m.parentsOf, o, a, b, c, d) && b in o && c in o
    && Configuration(m.parentsOf, Swapped(o, b, c), d, c, b, a)
    && m.scoreOf(o) == m.scoreOf(Swapped(o, b, c))
  }

  /** The triples (b, c, d) the probe finds for a, b, c and any d of ds. */
  ghost function ProbesD(m: ScoreModel, o: seq<Node>, a: Node, b: Node, c: Node, ds: seq<Node>): set<Triple>
  {
    set d | d in ds && Probe(m, o, a, b, c, d) :: Triple(b, c, d)
  }

  /** The triples the probe finds for a, b, any c of cs and any d of ds. */
  ghost function ProbesC(m: ScoreModel, o: seq<Node>, a: Node, b: Node, cs: seq<Node>, ds: seq<Node>): set<Triple>
  {
    set c, d | c in cs && d in ds && Probe(m, o, a, b, c, d) :: Triple(b, c, d)
  }

  /** The triples the probe finds for b, any a of ps, any c of cs and any d of ds. */
  ghost function ProbesA(m: ScoreModel, o: seq<Node>, b: Node, ps: seq<Node>, cs: seq<Node>, ds: seq<Node>): set<Triple>
  {
    set a, c, d | a in ps && c in cs && d in ds && Probe(m, o, a, b, c, d) :: Triple(b, c, d)
  }

  /**
   * The triples the probe finds for any b of bs, any two parents a and c of
   * b under o, and any d of ds.
   */
  ghost function ProbesB(m: ScoreModel, o: seq<Node>, bs: seq<Node>, ds: seq<Node>): set<Triple>
  {
    set b, a, c, d | b in bs && a in m.parentsOf(o, b) && c in m.parentsOf(o, b) && d in ds
                     && Probe(m, o, a, b, c, d) :: Triple(b, c, d)
  }

  /** The bookmarks are as they were, or the default key names the order o. */
  predicate BookmarksKept(before: map<int, seq<Node>>, after: map<int, seq<Node>>, o: seq<Node>)
  {
    after == before || after == before[DefaultKey := o]
  }

  /** The probe of search for one a, b, c, d: bookmark, swap b and c, test, and go back. */
  method ProbeOne(scorer: TeyssierScorer, a: Node, b: Node, c: Node, d: Node) returns (found: bool)
    requires scorer.Valid() && ParentsPrecede(scorer.model.parentsOf)
    modifies scorer`order, scorer`bookmarks
    ensures scorer.Valid() && scorer.order == old(scorer.order)
    ensures BookmarksKept(old(scorer.bookmarks), scorer.bookmarks, scorer.order)
    ensures found == Probe(scorer.model, scorer.order, a, b, c, d)
  {
    found := false;
    if Configuration(scorer.model.parentsOf, scorer.order, a, b, c, d) {
      ConfigurationInOrder(scorer.model.parentsOf, scorer.order, a, b, c, d);
      scorer.Bookmark(DefaultKey);
      var score := scorer.Score();
      scorer.Swap(b, c);
      if Configuration(scorer.model.parentsOf, scorer.order, d, c, b, a) && score == scorer.Score() {
        found := true;
      }
      scorer.GoToBookmark(DefaultKey);
    }
  }

  lemma BookmarksKeptTrans(b0: map<int, seq<Node>>, b1: map<int, seq<Node>>, b2: map<int, seq<Node>>, o: seq<Node>)
    requires BookmarksKept(b0, b1, o) && BookmarksKept(b1, b2, o)
    ensures BookmarksKept(b0, b2, o)
  {
  }

  /** The probe's loop over d for fixed a, b and c. */
  method ProbeAllD(scorer: TeyssierScorer, perm: seq<Node>, a: Node, b: Node, c: Node) returns (found: seq<Triple>)
    requires scorer.Valid() && ParentsPrecede(scorer.model.parentsOf)
    modifies scorer`order, scorer`bookmarks
    ensures scorer.Valid() && scorer.order == old(scorer.order)
    ensures BookmarksKept(old(scorer.bookmarks), scorer.bookmarks, scorer.order)
    ensures Elems(found) == ProbesD(scorer.model, scorer.order, a, b, c, perm)
  {
    found := [];
    assert ProbesD(scorer.model, scorer.order, a, b, c, perm[..0]) == {};
    for j := 0 to |perm|
      invariant scorer.Valid() && scorer.order == old(scorer.order)
      invariant BookmarksKept(old(scorer.bookmarks), scorer.bookmarks, scorer.order)
      invariant Elems(found) == ProbesD(scorer.model, scorer.order, a, b, c, perm[..j])
    {
      ghost var bm := scorer.bookmarks;
      var f := ProbeOne(scorer, a, b, c, perm[j]);
      BookmarksKeptTrans(old(scorer.bookmarks), bm, scorer.bookmarks, scorer.order);
      var t := if f then [Triple(b, c, perm[j])] else [];
      ElemsConcat(found, t);
      found := found + t;
      ProbesDStep(scorer.model, scorer.order, a, b, c, perm, j);
    }
    assert perm[..|perm|] == perm;
  }

  lemma ProbesDStep(m: ScoreModel, o: seq<Node>, a: Node, b: Node, c: Node, ds: seq<Node>, j: nat)
    requires j < |ds|
    ensures ProbesD(m, o, a, b, c, ds[..j + 1])
            == ProbesD(m, o, a, b, c, ds[..j]) + (if Probe(m, o, a, b, c, ds[j]) then {Triple(b, c, ds[j])} else {})
  {
    assert ds[..j + 1] == ds[..j] + [ds[j]];
  }

  /** The probe's loop over c for fixed a and b. */
  method ProbeAllC(scorer: TeyssierScorer, perm: seq<Node>, a: Node, b: Node, cs: seq<Node>) returns (found: seq<Triple>)
    requires scorer.Valid() && ParentsPrecede(scorer.model.parentsOf)
    modifies scorer`order, scorer`bookmarks
    ensures scorer.Valid() && scorer.order == old(scorer.order)
    ensures BookmarksKept(old(scorer.bookmarks), scorer.bookmarks, scorer.order)
    ensures Elems(found) == ProbesC(scorer.model, scorer.order, a, b, cs, perm)
  {
    found := [];
    assert ProbesC(scorer.model, scorer.order, a, b, cs[..0], perm) == {};
    for i := 0 to |cs|
      invariant scorer.Valid() && scorer.order == old(scorer.order)
      invariant BookmarksKept(old(scorer.bookmarks), scorer.bookmarks, scorer.order)
      invariant Elems(found) == ProbesC(scorer.model, scorer.order, a, b, cs[..i], perm)
    {
      ghost var bm := scorer.bookmarks;
      var f := ProbeAllD(scorer, perm, a, b, cs[i]);
      BookmarksKeptTrans(old(scorer.bookmarks), bm, scorer.bookmarks, scorer.order);
      ElemsConcat(found, f);
      found := found + f;
      ProbesCStep(scorer.model, scorer.order, a, b, cs, perm, i);
    }
    assert cs[..|cs|] == cs;
  }

  lemma ProbesCStep(m: ScoreModel, o: seq<Node>, a: Node, b: Node, cs: seq<Node>, ds: seq<Node>, i: nat)
    requires i < |cs|
    ensures ProbesC(m, o, a, b, cs[..i + 1], ds) == ProbesC(m, o, a, b, cs[..i], ds) + ProbesD(m, o, a, b, cs[i], ds)
  {
    assert cs[..i + 1] == cs[..i] + [cs[i]];
  }

  /** The probe's loop over a for fixed b; cs lists the same parents of b. */
  method ProbeAllA(scorer: TeyssierScorer, perm: seq<Node>, b: Node, ps: seq<Node>, cs: seq<Node>)
    returns (found: seq<Triple>)
    requires scorer.Valid() && ParentsPrecede(scorer.model.parentsOf)
    modifies scorer`order, scorer`bookmarks
    ensures scorer.Valid() && scorer.order == old(scorer.order)
    ensures BookmarksKept(old(scorer.bookmarks), scorer.bookmarks, scorer.order)
    ensures Elems(found) == ProbesA(scorer.model, scorer.order, b, ps, cs, perm)
  {
    found := [];
    assert ProbesA(scorer.model, scorer.order, b, ps[..0], cs, perm) == {};
    for i := 0 to |ps|
      invariant scorer.Valid() && scorer.order == old(scorer.order)
      invariant BookmarksKept(old(scorer.bookmarks), scorer.bookmarks, scorer.order)
      invariant Elems(found) == ProbesA(scorer.model, scorer.order, b, ps[..i], cs, perm)
    {
      ghost var bm := scorer.bookmarks;
      var f := ProbeAllC(scorer, perm, ps[i], b, cs);
      BookmarksKeptTrans(old(scorer.bookmarks), bm, scorer.bookmarks, scorer.order);
      ElemsConcat(found, f);
      found := found + f;
      ProbesAStep(scorer.model, scorer.order, b, ps, cs, perm, i);
    }
    assert ps[..|ps|] == ps;
  }

  lemma ProbesAStep(m: ScoreModel, o: seq<Node>, b: Node, ps: seq<Node>, cs: seq<Node>, ds: seq<Node>, i: nat)
    requires i < |ps|
    ensures ProbesA(m, o, b, ps[..i + 1], cs, ds) == ProbesA(m, o, b, ps[..i], cs, ds) + ProbesC(m, o, ps[i], b, cs, ds)
  {
    assert ps[..i + 1] == ps[..i] + [ps[i]];
  }

  /**
   * The probe of search: every b of perm, every two parents a and c of b and every
   * d of perm are probed; the triples (b, c, d) found are listed, and the
   * scorer is back at perm afterwards.
   */
  method FindTriples(scorer: TeyssierScorer, perm: seq<Node>) returns (triples: seq<Triple>)
    requires scorer.Valid() && ParentsPrecede(scorer.model.parentsOf) && scorer.order == perm
    modifies scorer`order, scorer`bookmarks
    ensures scorer.Valid() && scorer.order == perm
    ensures BookmarksKept(old(scorer.bookmarks), scorer.bookmarks, perm)
    ensures Elems(triples) == ProbesB(scorer.model, perm, perm, perm)
  {
    triples := [];
    assert ProbesB(scorer.model, perm, perm[..0], perm) == {};
    for i := 0 to |perm|
      invariant scorer.Valid() && scorer.order == perm
      invariant BookmarksKept(old(scorer.bookmarks), scorer.bookmarks, perm)
      invariant Elems(triples) == ProbesB(scorer.model, perm, perm[..i], perm)
    {
      var into := ListOf(scorer.Parents(perm[i]));
      ghost var bm := scorer.bookmarks;
      var f := ProbeAllA(scorer, perm, perm[i], into, into);
      BookmarksKeptTrans(old(scorer.bookmarks), bm, scorer.bookmarks, perm);
      ElemsConcat(triples, f);
      triples := triples + f;
      ProbesBStep(scorer.model, perm, perm, perm, i, into);
    }
    assert perm[..|perm|] == perm;
  }

  lemma ProbesBStep(m: ScoreModel, o: seq<Node>, bs: seq<Node>, ds: seq<Node>, i: nat, into: seq<Node>)
    requires i < |bs| && Elems(into) == m.parentsOf(o, bs[i])
    ensures ProbesB(m, o, bs[..i + 1], ds) == ProbesB(m, o, bs[..i], ds) + ProbesA(m, o, bs[i], into, into, ds)
  {
    assert bs[..i + 1] == bs[..i] + [bs[i]];
  }

  /**
   * What a found triple (b, c, d) means: the four nodes of its probe are
   * different, c is a parent of b and d is adjacent to b under o, and in the
   * order with b and c swapped, which scores the same, d is not adjacent to b
   * and d -> c <- b is a collider.
   */
  lemma FoundTripleMeaning(m: ScoreModel, o: seq<Node>, t: Triple)
    requires t in ProbesB(m, o, o, o)
    ensures t.x in o && t.y in o && t.z in o && t.x != t.y && t.x != t.z && t.y != t.z
    ensures t.y in m.parentsOf(o, t.x) && AdjacentIn(m.parentsOf, o, t.x, t.z)
    ensures m.scoreOf(Swapped(o, t.x, t.y)) == m.scoreOf(o)
    ensures !AdjacentIn(m.parentsOf, Swapped(o, t.x, t.y), t.x, t.z)
    ensures ColliderIn(m.parentsOf, Swapped(o, t.x, t.y), t.z, t.y, t.x)
  {
    var b, a, c, d :| b in o && a in m.parentsOf(o, b) && c in m.parentsOf(o, b) && d in o
                      && Probe(m, o, a, b, c, d) && t == Triple(b, c, d);
    Distinct4Pairwise(a, b, c, d);
  }

  // ---------------------------------------------------------------------
  // Removing and orienting at the triples (in search)

  /** Both marks of the edge between x and z, for each triple (x, y, z) of ts. */
  function RemovedKeys(ts: set<Triple>): set<(Node, Node)>
  {
    (set t | t in ts :: (t.x, t.z)) + (set t | t in ts :: (t.z, t.x))
  }

  /** In search, the edge b - d of every triple (b, c, d) is removed. */
  method RemoveTripleEdges(graph: Graph, triples: seq<Triple>) returns (g: Graph)
    ensures g == graph.(ends := graph.ends - RemovedKeys(Elems(triples)))
  {
    g := graph;
    assert graph.ends - RemovedKeys(Elems(triples[..0])) == graph.ends;
    for i := 0 to |triples|
      invariant g == graph.(ends := graph.ends - RemovedKeys(Elems(triples[..i])))
    {
      var t := triples[i];
      g := RemoveEdge(g, t.x, t.z);
      RemovedKeysStep(graph.ends, triples, i);
    }
    assert triples[..|triples|] == triples;
  }

  lemma RemovedKeysStep(m: map<(Node, Node), Endpoint>, ts: seq<Triple>, i: nat)
    requires i < |ts|
    ensures m - RemovedKeys(Elems(ts[..i + 1]))
            == (m - RemovedKeys(Elems(ts[..i]))) - {(ts[i].x, ts[i].z), (ts[i].z, ts[i].x)}
  {
    assert Elems(ts[..i + 1]) == Elems(ts[..i]) + {ts[i]} by {
      assert ts[..i + 1] == ts[..i] + [ts[i]];
    }
  }

  /**
   * The marks at y on the edges x - y and z - y, for each triple (x, y, z) of
   * ts whose two edges are both in g.
   */
  function ArrowKeys(g: Graph, ts: set<Triple>): set<(Node, Node)>
  {
    (set t | t in ts && Adjacent(g, t.x, t.y) && Adjacent(g, t.z, t.y) :: (t.x, t.y))
    + (set t | t in ts && Adjacent(g, t.x, t.y) && Adjacent(g, t.z, t.y) :: (t.z, t.y))
  }

  /** The marks of g with an arrowhead at each key of ks. */
  function ArrowsAt(m: map<(Node, Node), Endpoint>, ks: set<(Node, Node)>): map<(Node, Node), Endpoint>
  {
    map k | k in m :: if k in ks then ARROW else m[k]
  }

  /**
   * In search, for every triple (b, c, d) whose edges b - c and d - c
   * remain, b *-> c <-* d. Orienting does not change adjacency, so which
   * triples qualify is decided by the input graph.
   */
  method OrientTriples(graph: Graph, triples: seq<Triple>) returns (g: Graph)
    ensures g == graph.(ends := ArrowsAt(graph.ends, ArrowKeys(graph, Elems(triples))))
  {
    g := graph;
    assert ArrowsAt(graph.ends, ArrowKeys(graph, Elems(triples[..0]))) == graph.ends;
    for i := 0 to |triples|
      invariant g == graph.(ends := ArrowsAt(graph.ends, ArrowKeys(graph, Elems(triples[..i]))))
    {
      var t := triples[i];
      ghost var h := g;
      if Adjacent(g, t.x, t.y) && Adjacent(g, t.z, t.y) {
        g := SetEndpoint(g, t.x, t.y, ARROW);
        g := SetEndpoint(g, t.z, t.y, ARROW);
      }
      ArrowKeysStep(graph, triples, i, h, g);
    }
    assert triples[..|triples|] == triples;
  }

  lemma ArrowKeysStep(graph: Graph, ts: seq<Triple>, i: nat, h: Graph, g: Graph)
    requires i < |ts| && h == graph.(ends := ArrowsAt(graph.ends, ArrowKeys(graph, Elems(ts[..i]))))
    requires var t := ts[i];
      g == if Adjacent(h, t.x, t.y) && Adjacent(h, t.z, t.y)
           then h.(ends := h.ends[(t.x, t.y) := ARROW][(t.z, t.y) := ARROW]) else h
    ensures g == graph.(ends := ArrowsAt(graph.ends, ArrowKeys(graph, Elems(ts[..i + 1]))))
  {
    var t := ts[i];
    assert Elems(ts[..i + 1]) == Elems(ts[..i]) + {t} by {
      assert ts[..i + 1] == ts[..i] + [t];
    }
    ArrowKeysAdd(graph, Elems(ts[..i]), t);
    if Adjacent(graph, t.x, t.y) && Adjacent(graph, t.z, t.y) {
      ArrowsAtAdd(graph.ends, ArrowKeys(graph, Elems(ts[..i])), (t.x, t.y), (t.z, t.y));
    }
  }

  lemma ArrowKeysAdd(graph: Graph, ts: set<Triple>, t: Triple)
    ensures ArrowKeys(graph, ts + {t})
            == ArrowKeys(graph, ts) + if Adjacent(graph, t.x, t.y) && Adjacent(graph, t.z, t.y)
                                      then {(t.x, t.y), (t.z, t.y)} else {}
  {
  }

  lemma ArrowsAtAdd(m: map<(Node, Node), Endpoint>, ks: set<(Node, Node)>, k1: (Node, Node), k2: (Node, Node))
    requires k1 in m && k2 in m
    ensures ArrowsAt(m, ks + {k1, k2}) == ArrowsAt(m, ks)[k1 := ARROW][k2 := ARROW]
  {
  }

  // ---------------------------------------------------------------------
  // The search

  /** The flags search sets on the result: a PAG, without the "BIC" attribute. */
  function Flagged(g: Graph): (r: Graph)
    ensures r.pag && "BIC" !in r.attributes
    ensures r.nodes == g.nodes && r.ends == g.ends && r.attributes == g.attributes - {"BIC"}
  {
    g.(pag := true, attributes := g.attributes - {"BIC"})
  }

  /**
   * With no knowledge, the marks before the final orientation: every mark was
   * reset to a circle, so a mark is an arrowhead exactly when the collider
   * copying or the triple orientation put one there.
   */
  lemma CirclesElsewhere(bossGraph: Graph, perm: seq<Node>, ts: set<Triple>, pre: Graph)
    requires var circ := ReorientAllWith(bossGraph, CIRCLE);
      pre.ends == ArrowsAt(CopiedEnds(circ, bossGraph, perm) - RemovedKeys(ts), ArrowKeys(pre, ts))
    ensures CirclesOrArrows(pre, bossGraph, perm, ts)
  {
  }

  /**
   * In the graph search hands to the final orientation, a required edge
   * from -> to between adjacent variables, not contradicted by a required
   * to -> from and not removed at a triple, keeps its arrowhead at `to`; the
   * mark at `from` is a tail unless a copied collider or an oriented triple
   * put an arrowhead there.
   */
  lemma RequiredInPre(knowledge: Knowledge, bossGraph: Graph, perm: seq<Node>, fs: seq<(Node, Node)>,
                      rs: seq<(Node, Node)>, ts: set<Triple>, pre: Graph, e: (Node, Node))
    requires Elems(fs) == knowledge.forbidden && Elems(rs) == knowledge.required
    requires knowledge.IsRequired(e.0, e.1) && !knowledge.IsRequired(e.1, e.0)
    requires e.0 in bossGraph.nodes && e.1 in bossGraph.nodes && Adjacent(bossGraph, e.0, e.1) && e !in RemovedKeys(ts)
    requires var kg := KnowledgeOriented(ReorientAllWith(bossGraph, CIRCLE), fs, rs, bossGraph.nodes);
      pre.ends == ArrowsAt(CopiedEnds(kg, bossGraph, perm) - RemovedKeys(ts), ArrowKeys(pre, ts))
    ensures pre.ends[e] == ARROW
    ensures var kg := KnowledgeOriented(ReorientAllWith(bossGraph, CIRCLE), fs, rs, bossGraph.nodes);
      pre.ends[(e.1, e.0)]
        == if (e.0 in perm && e.1 in Justified(kg, bossGraph, e.0)) || (e.1, e.0) in ArrowKeys(pre, ts) then ARROW else TAIL
  {
    var circ := ReorientAllWith(bossGraph, CIRCLE);
    assert Adjacent(circ, e.0, e.1);
    RequiredWins(knowledge, circ, bossGraph.nodes, fs, rs, e);
    assert (e.1, e.0) !in RemovedKeys(ts);
  }

  /**
   * In the graph search hands to the final orientation, a forbidden edge
   * from -> to between adjacent variables, with no other knowledge on the
   * pair and not removed at a triple, has an arrowhead at `from`; the mark at
   * `to` is a circle unless a copied collider or an oriented triple put an
   * arrowhead there.
   */
  lemma ForbiddenInPre(knowledge: Knowledge, bossGraph: Graph, perm: seq<Node>, fs: seq<(Node, Node)>,
                       rs: seq<(Node, Node)>, ts: set<Triple>, pre: Graph, e: (Node, Node))
    requires Elems(fs) == knowledge.forbidden && Elems(rs) == knowledge.required
    requires knowledge.IsForbidden(e.0, e.1) && !knowledge.IsForbidden(e.1, e.0)
    requires !knowledge.IsRequired(e.0, e.1) && !knowledge.IsRequired(e.1, e.0)
    requires e.0 in bossGraph.nodes && e.1 in bossGraph.nodes && Adjacent(bossGraph, e.0, e.1) && e !in RemovedKeys(ts)
    requires var kg := KnowledgeOriented(ReorientAllWith(bossGraph, CIRCLE), fs, rs, bossGraph.nodes);
      pre.ends == ArrowsAt(CopiedEnds(kg, bossGraph, perm) - RemovedKeys(ts), ArrowKeys(pre, ts))
    ensures pre.ends[(e.1, e.0)] == ARROW
    ensures var kg := KnowledgeOriented(ReorientAllWith(bossGraph, CIRCLE), fs, rs, bossGraph.nodes);
      pre.ends[e]
        == if (e.1 in perm && e.0 in Justified(kg, bossGraph, e.1)) || e in ArrowKeys(pre, ts) then ARROW else CIRCLE
  {
    var circ := ReorientAllWith(bossGraph, CIRCLE);
    assert Adjacent(circ, e.0, e.1);
    ForbiddenOrients(knowledge, circ, bossGraph.nodes, fs, rs, e);
    assert (e.1, e.0) !in RemovedKeys(ts);
  }

  /**
   * BFCI (Bfci.java). The score and the test are given as the models their
   * scorers follow; what the BOSS graph of an order is (Boss.getGraph with a
   * CPDAG requested) and the final FCI orientation are collaborators, given
   * as functions.
   */
  class Bfci {
    const scoreModel: ScoreModel
    const testModel: ScoreModel
    /** The score is a GraphScore (a d-separation oracle over a known graph). */
    const scoreIsGraphScore: bool
    /** The round bound passed on to BOSS. */
    const roundLimit: nat
    /** The CPDAG BOSS reports for the order its scorer is left on. */
    const cpdagOf: (ScoreModel, seq<Node>) -> Graph
    /**
     * FciOrient.doFinalOrientation with sepsets read off the BOSS graph and
     * the scorer: graph, BOSS graph, scorer model and order, knowledge,
     * complete rule set, maximum path length, maximum degree.
     */
    const finalOrient: (Graph, Graph, ScoreModel, seq<Node>, Knowledge, bool, int, int) -> Graph

    var knowledge: Knowledge
    var completeRuleSetUsed: bool
    var maxPathLength: int
    var maxDegree: int
    var numStarts: int
    var useScore: bool
    var depth: int

    /** The score and the test are over the same variables, and both scorers are well behaved. */
    ghost predicate Valid()
    {
      scoreModel.variables == testModel.variables && scoreModel.Sound() && testModel.Sound()
    }

    constructor (scoreModel: ScoreModel, testModel: ScoreModel, scoreIsGraphScore: bool, roundLimit: nat,
                 cpdagOf: (ScoreModel, seq<Node>) -> Graph,
                 finalOrient: (Graph, Graph, ScoreModel, seq<Node>, Knowledge, bool, int, int) -> Graph)
      ensures this.scoreModel == scoreModel && this.testModel == testModel
      ensures this.scoreIsGraphScore == scoreIsGraphScore && this.roundLimit == roundLimit
      ensures this.cpdagOf == cpdagOf && this.finalOrient == finalOrient
      ensures knowledge == NoKnowledge && !completeRuleSetUsed && maxPathLength == -1 && maxDegree == -1
      ensures numStarts == 0 && useScore && depth == -1
    {
      this.scoreModel := scoreModel;
      this.testModel := testModel;
      this.scoreIsGraphScore := scoreIsGraphScore;
      this.roundLimit := roundLimit;
      this.cpdagOf := cpdagOf;
      this.finalOrient := finalOrient;
      knowledge := NoKnowledge;
      completeRuleSetUsed := false;
      maxPathLength := -1;
      maxDegree := -1;
      numStarts := 0;
      useScore := true;
      depth := -1;
    }

    /** The model search runs BOSS on: the score unless it is switched off or a GraphScore. */
    function BossModel(): ScoreModel
      reads this
    {
      if useScore && !scoreIsGraphScore then scoreModel else testModel
    }

    /** The model of the probe's scorer in search: the score unless it is a GraphScore. */
    function ProbeModel(): ScoreModel
    {
      if !scoreIsGraphScore then scoreModel else testModel
    }

    method SetMaxDegree(d: int) returns (r: Result<()>)
      modifies this`maxDegree
      ensures d < -1 ==> r == Err(IllegalArgument) && maxDegree == old(maxDegree)
      ensures d >= -1 ==> r == Ok(()) && maxDegree == d
    {
      if d < -1 {
        return Err(IllegalArgument);
      }
      maxDegree := d;
      return Ok(());
    }

    method SetMaxPathLength(n: int) returns (r: Result<()>)
      modifies this`maxPathLength
      ensures n < -1 ==> r == Err(IllegalArgument) && maxPathLength == old(maxPathLength)
      ensures n >= -1 ==> r == Ok(()) && maxPathLength == n
    {
      if n < -1 {
        return Err(IllegalArgument);
      }
      maxPathLength := n;
      return Ok(());
    }

    /** A null knowledge object is refused. */
    method SetKnowledge(k: Option<Knowledge>) returns (r: Result<()>)
      modifies this`knowledge
      ensures k.None? ==> r == Err(NullPointer) && knowledge == old(knowledge)
      ensures k.Some? ==> r == Ok(()) && knowledge == k.value
    {
      if k.None? {
        return Err(NullPointer);
      }
      knowledge := k.value;
      return Ok(());
    }

    /** Stored unchecked; BOSS checks it when the search passes it on. */
    method SetDepth(d: int)
      modifies this`depth
      ensures depth == d
    {
      depth := d;
    }

    method SetNumStarts(n: int)
      modifies this`numStarts
      ensures numStarts == n
    {
      numStarts := n;
    }

    method SetUseScore(u: bool)
      modifies this`useScore
      ensures useScore == u
    {
      useScore := u;
    }

    method SetCompleteRuleSetUsed(c: bool)
      modifies this`completeRuleSetUsed
      ensures completeRuleSetUsed == c
    {
      completeRuleSetUsed := c;
    }

    /** The probe of search: a fresh scorer for the probe, evaluated at the order, and the triples it finds. */
    method ProbeTriples(order: seq<Node>) returns (found: seq<Triple>)
      requires Valid() && IsPermOf(order, scoreModel.variables)
      ensures Elems(found) == ProbesB(ProbeModel(), order, order, order)
    {
      var scorer := new TeyssierScorer(ProbeModel());
      scorer.Evaluate(order);
      found := FindTriples(scorer, order);
    }

    /**
     * search: BOSS, configured from these fields, refuses a depth below -1
     * (the depth is passed on as its triangle depth), and its knowledge sort
     * may throw. Otherwise perm is the best of BOSS's runs and bossGraph is the
     * CPDAG of the order BOSS's scorer is left on, which is its last run's.
     * pre is the graph handed to the final orientation. It has the adjacencies
     * of the BOSS graph minus the edge b - d of every triple found, which are
     * exactly the probe's triples under perm. Its marks are circles, then
     * fciOrientbk's knowledge for the iterator orders fs and rs, then the
     * arrowheads of copied colliders and of oriented triples; with no
     * knowledge, circles except for those arrowheads. The result is flagged
     * as a PAG.
     */
    method Search() returns (r: Result<Graph>, ghost runs: seq<seq<Node>>, ghost starts: seq<seq<Node>>,
                             ghost perm: seq<Node>, ghost bossGraph: Graph,
                             ghost triples: set<Triple>, ghost pre: Graph,
                             ghost fs: seq<(Node, Node)>, ghost rs: seq<(Node, Node)>)
      requires Valid()
      ensures depth < -1 ==> r == Err(IllegalArgument)
      ensures r.Err? ==> r.error == IllegalArgument
      ensures r.Err? && depth >= -1 ==> !knowledge.IsEmpty() && |scoreModel.variables| >= BossSearch.MinMergeLength
      ensures depth >= -1 && knowledge.IsEmpty() ==> r.Ok?
      ensures r.Ok? ==> |runs| == (if numStarts > 0 then numStarts else 0) && |starts| == |runs|
      ensures r.Ok? ==> forall k | 0 <= k < |runs| ::
        IsPermOf(runs[k], scoreModel.variables) && IsPermOf(starts[k], scoreModel.variables)
      ensures r.Ok? && knowledge.IsEmpty() ==> forall k | 0 <= k < |runs| ::
        BossModel().scoreOf(starts[k]) <= BossModel().scoreOf(runs[k])
      ensures r.Ok? ==> BossSearch.FirstBest(BossModel().scoreOf, BossModel().variables, runs, perm)
      ensures r.Ok? ==> bossGraph == cpdagOf(BossModel(), if runs == [] then BossModel().variables else runs[|runs| - 1])
      ensures r.Ok? ==> IsPermOf(perm, scoreModel.variables)
      ensures r.Ok? ==> r.value.pag && "BIC" !in r.value.attributes
      ensures r.Ok? ==> r.value == Flagged(finalOrient(pre, bossGraph, ProbeModel(), perm, knowledge,
                                                       completeRuleSetUsed, maxPathLength, maxDegree))
      ensures r.Ok? ==> triples == ProbesB(ProbeModel(), perm, perm, perm)
      ensures r.Ok? ==> pre.nodes == bossGraph.nodes && pre.ends.Keys == bossGraph.ends.Keys - RemovedKeys(triples)
      ensures r.Ok? && knowledge.IsEmpty() ==> CirclesOrArrows(pre, bossGraph, perm, triples)
      ensures r.Ok? ==> Elems(fs) == knowledge.forbidden && Elems(rs) == knowledge.required
      ensures r.Ok? ==> var kg := KnowledgeOriented(ReorientAllWith(bossGraph, CIRCLE), fs, rs, bossGraph.nodes);
        pre.ends == ArrowsAt(CopiedEnds(kg, bossGraph, perm) - RemovedKeys(triples), ArrowKeys(pre, triples))
    {
      var m := BossModel();
      var oracle := if useScore && !scoreIsGraphScore then BossSearch.FromScore(false) else BossSearch.FromTest;
      var boss := new BossSearch.Boss(oracle, m, roundLimit);
      boss.numStarts := numStarts;
      ghost var none := Graph([], map[], {}, {}, false, {});
      var depthSet := boss.SetDepth(depth);
      if depthSet.Err? {
        return Err(depthSet.error), [], [], [], none, {}, none, [], [];
      }
      boss.knowledge := knowledge;
      var best;
      best, runs, starts := boss.BestOrder(m.variables);
      if best.Err? {
        return Err(best.error), runs, starts, [], none, {}, none, [], [];
      }
      forall k | 0 <= k < |runs| && knowledge.IsEmpty() ensures m.scoreOf(starts[k]) <= m.scoreOf(runs[k]) {
        assert BossSearch.RunKeeps(m, BossSearch.BOSS, knowledge, starts[k], runs[k]);
      }
      var order := best.value;
      var bg := cpdagOf(m, boss.scorer.order);
      var found := ProbeTriples(order);
      var graph;
      graph, fs, rs := OrientPhases(bg, order, knowledge, found);
      perm, bossGraph, triples, pre := order, bg, Elems(found), graph;
      graph := finalOrient(graph, bg, ProbeModel(), order, knowledge, completeRuleSetUsed, maxPathLength, maxDegree);
      return Ok(Flagged(graph)), runs, starts, perm, bossGraph, triples, pre, fs, rs;
    }
  }

  /**
   * With every mark first reset to a circle and no knowledge, a mark of pre
   * is an arrowhead exactly where the collider copying or the triple
   * orientation put one, and a circle everywhere else.
   */
  ghost predicate CirclesOrArrows(pre: Graph, bossGraph: Graph, perm: seq<Node>, triples: set<Triple>)
  {
    var circ := ReorientAllWith(bossGraph, CIRCLE);
    forall k | k in pre.ends ::
      pre.ends[k] == if (k.1 in perm && k.0 in Justified(circ, bossGraph, k.1)) || k in ArrowKeys(pre, triples)
                     then ARROW else CIRCLE
  }

  /**
   * The phases of search on the BOSS graph: every mark reset to a circle, the
   * knowledge, the copied colliders, and the removal and orientation at the
   * triples found.
   */
  method OrientPhases(bossGraph: Graph, perm: seq<Node>, knowledge: Knowledge, found: seq<Triple>)
    returns (pre: Graph, ghost fs: seq<(Node, Node)>, ghost rs: seq<(Node, Node)>)
    ensures pre.nodes == bossGraph.nodes && pre.ends.Keys == bossGraph.ends.Keys - RemovedKeys(Elems(found))
    ensures Elems(fs) == knowledge.forbidden && Elems(rs) == knowledge.required
    ensures var kg := KnowledgeOriented(ReorientAllWith(bossGraph, CIRCLE), fs, rs, bossGraph.nodes);
      pre.ends == ArrowsAt(CopiedEnds(kg, bossGraph, perm) - RemovedKeys(Elems(found)), ArrowKeys(pre, Elems(found)))
    ensures knowledge.IsEmpty() ==> CirclesOrArrows(pre, bossGraph, perm, Elems(found))
  {
    var graph;
    graph, fs, rs := CircleAndCopy(bossGraph, perm, knowledge);
    pre := AtTriples(graph, found);
    if knowledge.IsEmpty() {
      CirclesElsewhere(bossGraph, perm, Elems(found), pre);
    }
  }

  /**
   * The first phases of search: every mark reset to a circle, the knowledge, and the
   * colliders copied from the BOSS graph along perm.
   */
  method CircleAndCopy(bossGraph: Graph, perm: seq<Node>, knowledge: Knowledge)
    returns (g: Graph, ghost fs: seq<(Node, Node)>, ghost rs: seq<(Node, Node)>)
    ensures g.nodes == bossGraph.nodes && g.ends.Keys == bossGraph.ends.Keys
    ensures Elems(fs) == knowledge.forbidden && Elems(rs) == knowledge.required
    ensures var kg := KnowledgeOriented(ReorientAllWith(bossGraph, CIRCLE), fs, rs, bossGraph.nodes);
      g == kg.(ends := CopiedEnds(kg, bossGraph, perm))
    ensures knowledge.IsEmpty() ==>
      var circ := ReorientAllWith(bossGraph, CIRCLE);
      g == circ.(ends := CopiedEnds(circ, bossGraph, perm))
  {
    var graph := ReorientAllWith(bossGraph, CIRCLE);
    graph, fs, rs := FciOrientbk(knowledge, graph, graph.nodes);
    g := CopyColliders(graph, bossGraph, perm);
  }

  /** The last phase of search: the triples' edges b - d removed, then their colliders oriented. */
  method AtTriples(graph: Graph, found: seq<Triple>) returns (pre: Graph)
    ensures pre.nodes == graph.nodes && pre.ends.Keys == graph.ends.Keys - RemovedKeys(Elems(found))
    ensures pre.ends == ArrowsAt(graph.ends - RemovedKeys(Elems(found)), ArrowKeys(pre, Elems(found)))
  {
    var g := RemoveTripleEdges(graph, found);
    pre := OrientTriples(g, found);
    ArrowKeysSameKeys(g, pre, Elems(found));
  }

  lemma ArrowKeysSameKeys(g: Graph, h: Graph, ts: set<Triple>)
    requires g.ends.Keys == h.ends.Keys
    ensures ArrowKeys(g, ts) == ArrowKeys(h, ts)
  {
  }
}
