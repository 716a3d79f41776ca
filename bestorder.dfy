/**
 * The best order score search: restarts from shuffled orders and improves
 * each by promoting variables to the left (PROMOTION), by trying every index
 * (ALL_INDICES), by enumerating every order (SP), by neighbour swaps (ESP) or
 * by covered-edge swaps (GSP). LOWER scores are better here.
 */
module BestOrderSearch {
  import opened Base
  import opened Orders
  import opened Scoring

  datatype Method = PROMOTION | ALL_INDICES | SP | ESP | GSP

  /** An order with its score, as the neighbour-swap search passes them around. */
  datatype EspVisit = EspVisit(order: seq<Node>, score: real)

  /** A graph given by its nodes and its directed edges (tail, head). */
  datatype DirectedGraph = DirectedGraph(nodes: seq<Node>, edges: set<(Node, Node)>)

  /** The tails of the edges into v. */
  function ParentsIn(g: DirectedGraph, v: Node): set<Node>
  {
    set e | e in g.edges && e.1 == v :: e.0
  }

  /** The bookmark key the searches use. */
  const SearchKey: int := 1

  /**
   * g has the nodes of order, an edge z -> order[p] for each z in the Markov
   * blanket of position p, and no other edge.
   */
  ghost predicate IsMbGraph(g: DirectedGraph, order: seq<Node>, mbOf: (seq<Node>, nat) -> set<Node>)
  {
    g.nodes == order
    && (forall p: nat, z | p < |order| && z in mbOf(order, p) :: (z, order[p]) in g.edges)
    && (forall e | e in g.edges :: exists p: nat :: p < |order| && e.1 == order[p] && e.0 in mbOf(order, p))
  }

  /** The Markov-blanket graph of an order is determined by the order. */
  lemma MbGraphUnique(g1: DirectedGraph, g2: DirectedGraph, order: seq<Node>, mbOf: (seq<Node>, nat) -> set<Node>)
    requires IsMbGraph(g1, order, mbOf) && IsMbGraph(g2, order, mbOf)
    ensures g1 == g2
  {
    forall e | e in g1.edges ensures e in g2.edges {
      var p: nat :| p < |order| && e.1 == order[p] && e.0 in mbOf(order, p);
    }
    forall e | e in g2.edges ensures e in g1.edges {
      var p: nat :| p < |order| && e.1 == order[p] && e.0 in mbOf(order, p);
    }
  }

  /** When blankets name variables of the order, every edge joins two nodes of the graph. */
  lemma MbGraphClosed(g: DirectedGraph, order: seq<Node>, mbOf: (seq<Node>, nat) -> set<Node>)
    requires IsMbGraph(g, order, mbOf) && BlanketsWithin(mbOf)
    ensures forall e | e in g.edges :: e.0 in g.nodes && e.1 in g.nodes
  {
    forall e | e in g.edges ensures e.0 in g.nodes && e.1 in g.nodes {
      var p: nat :| p < |order| && e.1 == order[p] && e.0 in mbOf(order, p);
    }
  }

  /**
   * Among the insertions of v into rest at indices lo..hi, the one at index at
   * scores lowest, and every insertion left of it scores strictly higher: at
   * is the leftmost minimum.
   */
  ghost predicate LeftmostMin(f: seq<Node> -> real, rest: seq<Node>, v: Node, lo: nat, hi: nat, at: nat)
  {
    lo <= at <= hi <= |rest|
    && (forall j | lo <= j <= hi :: f(InsertAt(rest, at, v)) <= f(InsertAt(rest, j, v)))
    && (forall j | lo <= j < at :: f(InsertAt(rest, at, v)) < f(InsertAt(rest, j, v)))
  }

  /** The leftmost minimum of a range is unique. */
  lemma LeftmostMinUnique(f: seq<Node> -> real, rest: seq<Node>, v: Node, lo: nat, hi: nat, a: nat, b: nat)
    requires LeftmostMin(f, rest, v, lo, hi, a) && LeftmostMin(f, rest, v, lo, hi, b)
    ensures a == b
  {
    var fa, fb := f(InsertAt(rest, a, v)), f(InsertAt(rest, b, v));
    assert fa <= fb && fb <= fa;
    assert a < b ==> fb < fa;
    assert b < a ==> fa < fb;
  }

  /** Widening the range one index to the left, where ties go to the new index (promotion's <=). */
  lemma LeftmostMinLeft(f: seq<Node> -> real, rest: seq<Node>, v: Node, lo: nat, hi: nat, at: nat)
    requires LeftmostMin(f, rest, v, lo, hi, at) && lo > 0
    ensures f(InsertAt(rest, lo - 1, v)) <= f(InsertAt(rest, at, v)) ==> LeftmostMin(f, rest, v, lo - 1, hi, lo - 1)
    ensures f(InsertAt(rest, lo - 1, v)) > f(InsertAt(rest, at, v)) ==> LeftmostMin(f, rest, v, lo - 1, hi, at)
  {
    var m, c := f(InsertAt(rest, at, v)), f(InsertAt(rest, lo - 1, v));
    if c <= m {
      forall j | lo - 1 <= j <= hi ensures c <= f(InsertAt(rest, j, v)) {
        if j >= lo {
          assert m <= f(InsertAt(rest, j, v));
        }
      }
    }
  }

  /** Widening the range one index to the right, where ties stay with the old index (all-indices' <). */
  lemma LeftmostMinRight(f: seq<Node> -> real, rest: seq<Node>, v: Node, lo: nat, hi: nat, at: nat)
    requires LeftmostMin(f, rest, v, lo, hi, at) && hi < |rest|
    ensures f(InsertAt(rest, hi + 1, v)) < f(InsertAt(rest, at, v)) ==> LeftmostMin(f, rest, v, lo, hi + 1, hi + 1)
    ensures f(InsertAt(rest, hi + 1, v)) >= f(InsertAt(rest, at, v)) ==> LeftmostMin(f, rest, v, lo, hi + 1, at)
  {
    var m, c := f(InsertAt(rest, at, v)), f(InsertAt(rest, hi + 1, v));
    if c < m {
      forall j | lo <= j <= hi ensures c < f(InsertAt(rest, j, v)) {
        assert m <= f(InsertAt(rest, j, v));
      }
    }
  }

  /**
   * The state of a scan over the placements of v: v sits at index j, the
   * bookmark holds the placement at index at with score best, and at is the
   * leftmost minimum of the indices lo..hi tried so far.
   */
  ghost predicate Scanned(f: seq<Node> -> real, rest: seq<Node>, v: Node, j: nat, order: seq<Node>, mark: seq<Node>,
                          best: real, at: nat, lo: nat, hi: nat)
  {
    v !in rest && j <= |rest| && at <= |rest| && order == InsertAt(rest, j, v) && mark == InsertAt(rest, at, v)
    && best == f(mark) && LeftmostMin(f, rest, v, lo, hi, at)
  }

  /** Moving v of o0 to the leftmost best placement gives that placement, scoring no more than o0. */
  lemma PlacementOutcome(f: seq<Node> -> real, o0: seq<Node>, rest: seq<Node>, k0: nat, v: Node, lo: nat, hi: nat,
                         at: nat)
    requires v !in rest && lo <= k0 <= hi && LeftmostMin(f, rest, v, lo, hi, at) && o0 == InsertAt(rest, k0, v)
    ensures v in o0 && |o0| == |rest| + 1 && Without(o0, v) == rest && IndexOf(o0, v) == k0
    ensures at < |o0| && MovedTo(o0, v, at) == InsertAt(rest, at, v)
    ensures LeftmostMin(f, Without(o0, v), v, lo, hi, at) && f(MovedTo(o0, v, at)) <= f(o0)
  {
    InsertThenWithout(rest, k0, v);
    MovedToPlacement(rest, k0, v, at);
  }

  /** A promotion step keeps Scanned, with the new index j - 1 and ties going to it. */
  lemma PromoteStepState(f: seq<Node> -> real, rest: seq<Node>, v: Node, j: nat, hi: nat, mark: seq<Node>, best: real,
                         at: nat, mark': seq<Node>, nb: real, at': nat)
    requires 0 < j <= |rest| && Scanned(f, rest, v, j, InsertAt(rest, j, v), mark, best, at, j, hi)
    requires var c := f(InsertAt(rest, j - 1, v));
      (c <= best && nb == c && mark' == InsertAt(rest, j - 1, v) && at' == j - 1)
      || (c > best && nb == best && mark' == mark && at' == at)
    ensures Scanned(f, rest, v, j - 1, InsertAt(rest, j - 1, v), mark', nb, at', j - 1, hi)
  {
    LeftmostMinLeft(f, rest, v, j, hi, at);
  }

  /** An all-indices step keeps Scanned, with the new index j + 1 taken only when strictly lower. */
  lemma PlaceStepState(f: seq<Node> -> real, rest: seq<Node>, v: Node, j: nat, mark: seq<Node>, best: real,
                       at: nat, mark': seq<Node>, nb: real, at': nat)
    requires j < |rest| && Scanned(f, rest, v, j, InsertAt(rest, j, v), mark, best, at, 0, j)
    requires var c := f(InsertAt(rest, j + 1, v));
      (c < best && nb == c && mark' == InsertAt(rest, j + 1, v) && at' == j + 1)
      || (c >= best && nb == best && mark' == mark && at' == at)
    ensures Scanned(f, rest, v, j + 1, InsertAt(rest, j + 1, v), mark', nb, at', 0, j + 1)
  {
    LeftmostMinRight(f, rest, v, 0, j, at);
  }

  /**
   * best is the first of ps of minimal score: no element scores lower, and
   * every earlier one scores strictly higher.
   */
  ghost predicate FirstMinimum(f: seq<Node> -> real, ps: seq<seq<Node>>, best: seq<Node>)
  {
    exists m :: 0 <= m < |ps| && ps[m] == best
      && (forall k | 0 <= k < m :: f(ps[k]) > f(best))
      && (forall k | 0 <= k < |ps| :: f(best) <= f(ps[k]))
  }

  /** Adding a candidate keeps FirstMinimum, the candidate winning only with a strictly lower score. */
  lemma FirstMinimumExtend(f: seq<Node> -> real, ps: seq<seq<Node>>, best: seq<Node>, p: seq<Node>)
    requires FirstMinimum(f, ps, best)
    ensures FirstMinimum(f, ps + [p], if f(p) < f(best) then p else best)
  {
    var ps' := ps + [p];
    var m :| 0 <= m < |ps| && ps[m] == best
      && (forall k | 0 <= k < m :: f(ps[k]) > f(best))
      && (forall k | 0 <= k < |ps| :: f(best) <= f(ps[k]));
    if f(p) < f(best) {
      assert ps'[|ps|] == p;
      assert forall k | 0 <= k < |ps| :: f(ps'[k]) > f(p);
    } else {
      assert ps'[m] == best;
      assert forall k | 0 <= k < |ps'| :: f(best) <= f(ps'[k]);
    }
  }

  /**
   * The state of a scan for the first minimum of ps after k elements: the
   * candidate (none before the first) is the m-th, with its score as the bound.
   */
  ghost predicate MinSoFar(f: seq<Node> -> real, ps: seq<seq<Node>>, k: nat, minP: Option<seq<Node>>,
                           minScore: ExtReal, m: nat)
  {
    k <= |ps| && (k == 0 <==> minP.None?) && (minP.None? ==> minScore == PosInf)
    && (minP.Some? ==>
          minScore == Fin(f(minP.value)) && m < k && ps[m] == minP.value
          && (forall i | 0 <= i < m :: f(ps[i]) > f(minP.value))
          && (forall i | 0 <= i < k :: f(minP.value) <= f(ps[i])))
  }

  /** Looking at one more element keeps MinSoFar, which takes it only when it is strictly lower. */
  lemma MinSoFarStep(f: seq<Node> -> real, ps: seq<seq<Node>>, k: nat, minP: Option<seq<Node>>, minScore: ExtReal,
                     m: nat)
    requires MinSoFar(f, ps, k, minP, minScore, m) && k < |ps|
    ensures Below(f(ps[k]), minScore) ==> MinSoFar(f, ps, k + 1, Some(ps[k]), Fin(f(ps[k])), k)
    ensures !Below(f(ps[k]), minScore) ==> MinSoFar(f, ps, k + 1, minP, minScore, m)
  {
    if Below(f(ps[k]), minScore) && minP.Some? {
      assert forall i | 0 <= i < k :: f(ps[k]) < f(ps[i]);
    }
  }

  /** After the whole of a non-empty ps, the candidate is its first minimum. */
  lemma MinSoFarDone(f: seq<Node> -> real, ps: seq<seq<Node>>, minP: Option<seq<Node>>, minScore: ExtReal, m: nat)
    requires MinSoFar(f, ps, |ps|, minP, minScore, m) && ps != []
    ensures minP.Some? && FirstMinimum(f, ps, minP.value)
  {
  }

  /**
   * What one run of the chosen search promises about the order it ends on,
   * given the order it started from: SP's scores no higher than any order of
   * the variables; GSP's has no more edges than the start; every other
   * method's scores no higher than the start.
   */
  ghost predicate RunKeeps(model: ScoreModel, m: Method, start: seq<Node>, run: seq<Node>)
  {
    (m == SP ==> forall p | IsPermOf(p, model.variables) :: model.scoreOf(run) <= model.scoreOf(p))
    && (m != GSP ==> model.scoreOf(run) <= model.scoreOf(start))
    && (m == GSP ==> EdgeCount(model.parentsOf, run, run) <= EdgeCount(model.parentsOf, start, start))
  }

  /** Run k started from starts[k] and kept RunKeeps, for every run. */
  ghost predicate RunsKeep(model: ScoreModel, m: Method, starts: seq<seq<Node>>, runs: seq<seq<Node>>)
  {
    |starts| == |runs|
    && forall k | 0 <= k < |runs| ::
         IsPermOf(runs[k], model.variables) && IsPermOf(starts[k], model.variables)
         && RunKeeps(model, m, starts[k], runs[k])
  }

  lemma RunsKeepExtend(model: ScoreModel, m: Method, starts: seq<seq<Node>>, runs: seq<seq<Node>>,
                       start: seq<Node>, run: seq<Node>)
    requires RunsKeep(model, m, starts, runs)
    requires IsPermOf(run, model.variables) && IsPermOf(start, model.variables) && RunKeeps(model, m, start, run)
    ensures RunsKeep(model, m, starts + [start], runs + [run])
  {
  }

  /** With SP, the first minimum of the runs scores no higher than any order. */
  lemma SpBestIsOptimal(model: ScoreModel, starts: seq<seq<Node>>, runs: seq<seq<Node>>, best: seq<Node>)
    requires FirstMinimum(model.scoreOf, runs, best) && RunsKeep(model, SP, starts, runs)
    ensures forall p | IsPermOf(p, model.variables) :: model.scoreOf(best) <= model.scoreOf(p)
  {
    var m :| 0 <= m < |runs| && runs[m] == best
      && (forall k | 0 <= k < m :: model.scoreOf(runs[k]) > model.scoreOf(best))
      && (forall k | 0 <= k < |runs| :: model.scoreOf(best) <= model.scoreOf(runs[k]));
    assert RunKeeps(model, SP, starts[m], runs[m]);
  }

  /**
   * The bookkeeping of the runs so far: each kept RunKeeps, and the best
   * order (none before the first run) is their first minimum, with its score.
   */
  ghost predicate Tracked(model: ScoreModel, m: Method, starts: seq<seq<Node>>, runs: seq<seq<Node>>,
                          bestP: Option<seq<Node>>, bestScore: ExtReal, best: seq<Node>)
  {
    RunsKeep(model, m, starts, runs) && (runs == [] <==> bestP.None?)
    && (bestP.Some? ==>
          bestP.value == best && bestScore == Fin(model.scoreOf(best)) && FirstMinimum(model.scoreOf, runs, best))
  }

  /** One more run keeps Tracked; it becomes the best when it is the first or strictly lower. */
  lemma TrackedStep(model: ScoreModel, m: Method, starts: seq<seq<Node>>, runs: seq<seq<Node>>,
                    bestP: Option<seq<Node>>, bestScore: ExtReal, best: seq<Node>, start: seq<Node>, run: seq<Node>)
    requires Tracked(model, m, starts, runs, bestP, bestScore, best)
    requires IsPermOf(run, model.variables) && IsPermOf(start, model.variables) && RunKeeps(model, m, start, run)
    ensures var take := bestP.None? || Below(model.scoreOf(run), bestScore);
      Tracked(model, m, starts + [start], runs + [run], if take then Some(run) else bestP,
              if take then Fin(model.scoreOf(run)) else bestScore, if take then run else best)
  {
    if bestP.None? {
      FirstMinimumSingle(model.scoreOf, run);
      assert runs + [run] == [run];
    } else {
      FirstMinimumExtend(model.scoreOf, runs, best, run);
    }
    RunsKeepExtend(model, m, starts, runs, start, run);
  }

  lemma FirstMinimumSingle(f: seq<Node> -> real, p: seq<Node>)
    ensures FirstMinimum(f, [p], p)
  {
    assert [p][0] == p;
  }

  /** A set of variables that a search updates in place (the gsp path). */
  class NodeSet {
    var elems: set<Node>
    constructor ()
      ensures elems == {}
    {
      elems := {};
    }
  }

  class BestOrderScoreSearch {
    const model: ScoreModel
    var cachingScores: bool
    var numStarts: int
    var searchMethod: Method
    var returnCpdag: bool
    var gspDepth: int

    constructor (model: ScoreModel)
      ensures this.model == model
      ensures cachingScores && numStarts == 1 && searchMethod == PROMOTION && !returnCpdag && gspDepth == -1
    {
      this.model := model;
      cachingScores := true;
      numStarts := 1;
      searchMethod := PROMOTION;
      returnCpdag := false;
      gspDepth := -1;
    }

    method SetCachingScores(b: bool)
      modifies this`cachingScores
      ensures cachingScores == b
    {
      cachingScores := b;
    }

    method SetNumStarts(n: int)
      modifies this`numStarts
      ensures numStarts == n
    {
      numStarts := n;
    }

    method SetMethod(m: Method)
      modifies this`searchMethod
      ensures searchMethod == m
    {
      searchMethod := m;
    }

    method SetGspDepth(d: int)
      modifies this`gspDepth
      ensures gspDepth == d
    {
      gspDepth := d;
    }

    method SetReturnCpdag(b: bool)
      modifies this`returnCpdag
      ensures returnCpdag == b
    {
      returnCpdag := b;
    }

    /**
     * Runs the chosen search from numStarts shuffled orders and returns the
     * Markov-blanket graph of the best one. The first run is always taken;
     * a later run replaces it only with a strictly lower score. With no runs
     * there is no best order to re-score, which the source does with a null
     * list.
     */
    method Search(variables: seq<Node>)
      returns (r: Result<DirectedGraph>, ghost runs: seq<seq<Node>>, ghost starts: seq<seq<Node>>, ghost best: seq<Node>)
      requires model.Sound() && IsPermOf(variables, model.variables)
      ensures r.Err? <==> numStarts <= 0
      ensures r.Err? ==> r.error == NullPointer
      ensures r.Ok? ==> |runs| == numStarts && RunsKeep(model, searchMethod, starts, runs)
      ensures r.Ok? ==> FirstMinimum(model.scoreOf, runs, best) && IsMbGraph(r.value, best, model.mbOf)
      ensures r.Ok? && searchMethod == SP ==>
        forall p | IsPermOf(p, model.variables) :: model.scoreOf(best) <= model.scoreOf(p)
    {
      var scorer := new TeyssierScorer(model);
      var bestScore := NegInf;
      var bestP: Option<seq<Node>> := None;
      runs, starts, best := [], [], variables;
      var rr := 0;
      while rr < numStarts
        invariant scorer.Valid() && scorer.model == model && fresh(scorer)
        invariant 0 <= rr <= (if numStarts > 0 then numStarts else 0) && |runs| == rr
        invariant Tracked(model, searchMethod, starts, runs, bestP, bestScore, best)
      {
        ghost var start := OneStart(scorer, variables);
        TrackedStep(model, searchMethod, starts, runs, bestP, bestScore, best, start, scorer.order);
        runs, starts := runs + [scorer.order], starts + [start];
        if bestP.None? || Below(scorer.Score(), bestScore) {
          bestScore := Fin(scorer.Score());
          bestP := Some(scorer.order);
          best := scorer.order;
        }
        rr := rr + 1;
      }
      if bestP.None? {
        return Err(NullPointer), runs, starts, best;
      }
      if searchMethod == SP {
        SpBestIsOptimal(model, starts, runs, best);
      }
      scorer.Evaluate(bestP.value);
      var g := GetGraph(scorer);
      return Ok(g), runs, starts, best;
    }

    /** One start of search: a random order of the variables (start), improved by the chosen method. */
    method OneStart(scorer: TeyssierScorer, variables: seq<Node>) returns (ghost start: seq<Node>)
      requires scorer.Valid() && scorer.model.Sound() && IsPermOf(variables, scorer.model.variables)
      modifies scorer`order, scorer`bookmarks
      ensures scorer.Valid() && IsPermOf(start, scorer.model.variables)
      ensures RunKeeps(scorer.model, searchMethod, start, scorer.order)
    {
      assert IsPermOf(variables, variables);
      var shuffled: seq<Node> :| multiset(shuffled) == multiset(variables);
      scorer.Evaluate(shuffled);
      start := shuffled;
      RunMethod(scorer);
    }

    /** The search chosen by searchMethod, run on the scorer's current order. */
    method RunMethod(scorer: TeyssierScorer)
      requires scorer.Valid() && scorer.model.Sound()
      modifies scorer`order, scorer`bookmarks
      ensures scorer.Valid()
      ensures RunKeeps(scorer.model, searchMethod, old(scorer.order), scorer.order)
    {
      match searchMethod {
        case PROMOTION => Promotion(scorer);
        case ALL_INDICES => AllIndices(scorer);
        case SP => Sp(scorer);
        case ESP => Esp(scorer);
        case GSP => Gsp(scorer);
      }
    }

    /**
     * Passes over the variables, each promoted to its best position to its
     * left (bossSearchPromotion), until a pass no longer lowers the score.
     */
    method Promotion(scorer: TeyssierScorer)
      requires scorer.Valid()
      modifies scorer`order, scorer`bookmarks
      ensures scorer.Valid() && scorer.Score() <= old(scorer.Score())
    {
      ghost var vars, f := scorer.model.variables, scorer.model.scoreOf;
      var overall := PosInf;
      while true
        invariant scorer.Valid() && scorer.Score() <= old(scorer.Score())
        invariant overall != PosInf ==> overall == Fin(scorer.Score())
        decreases |Lower(vars, f, scorer.order)| + (if overall == PosInf then 1 else 0)
      {
        ghost var before := scorer.order;
        var vs := scorer.order;
        var iv := 0;
        while iv < |vs|
          invariant 0 <= iv <= |vs|
          invariant scorer.Valid() && scorer.Score() <= f(before)
        {
          assert vs[iv] in multiset(scorer.order);
          ghost var at := PromoteOne(scorer, vs[iv]);
          iv := iv + 1;
        }
        LowerNoLarger(vars, f, before, scorer.order);
        if Below(scorer.Score(), overall) {
          if overall != PosInf {
            LowerShrinks(vars, f, before, scorer.order);
          }
          overall := Fin(scorer.Score());
        } else {
          break;
        }
      }
    }

    /**
     * One variable's turn in a promotion pass: v goes one place to the left at
     * a time, and an order is bookmarked when it scores no higher than the best
     * so far. The restored order is v's leftmost best placement at or left of
     * its index.
     */
    method PromoteOne(scorer: TeyssierScorer, v: Node) returns (ghost at: nat)
      requires scorer.Valid() && v in scorer.order
      modifies scorer`order, scorer`bookmarks
      ensures scorer.Valid()
      ensures at <= IndexOf(old(scorer.order), v) && scorer.order == MovedTo(old(scorer.order), v, at)
      ensures LeftmostMin(scorer.model.scoreOf, Without(old(scorer.order), v), v, 0, IndexOf(old(scorer.order), v), at)
      ensures scorer.Score() <= old(scorer.Score())
    {
      ghost var o0, f := scorer.order, scorer.model.scoreOf;
      ghost var rest, k0 := Without(o0, v), IndexOf(o0, v);
      scorer.OrderIsDistinct();
      WithoutAndBack(o0, v);
      var bestScore := scorer.Score();
      scorer.Bookmark(SearchKey);
      var kept;
      bestScore, kept := KeepIfNoHigher(scorer, bestScore);
      ghost var j := k0;
      at := k0;
      while true
        invariant scorer.Valid() && SearchKey in scorer.bookmarks
        invariant Scanned(f, rest, v, j, scorer.order, scorer.bookmarks[SearchKey], bestScore, at, j, k0)
        decreases j
      {
        var moved;
        moved, bestScore, at := PromoteStep(scorer, v, bestScore, rest, j, k0, at);
        if !moved {
          break;
        }
        j := j - 1;
      }
      scorer.GoToBookmark(SearchKey);
      PlacementOutcome(f, o0, rest, k0, v, 0, k0, at);
    }

    /**
     * One step of a promotion turn: v moves one place to the left, when it is
     * not first, and the order is bookmarked when it scores no higher.
     */
    method PromoteStep(scorer: TeyssierScorer, v: Node, bestScore: real, ghost rest: seq<Node>, ghost j: nat,
                       ghost hi: nat, ghost at: nat) returns (moved: bool, nb: real, ghost at': nat)
      requires scorer.Valid() && SearchKey in scorer.bookmarks
      requires Scanned(scorer.model.scoreOf, rest, v, j, scorer.order, scorer.bookmarks[SearchKey], bestScore, at, j, hi)
      modifies scorer`order, scorer`bookmarks
      ensures scorer.Valid() && SearchKey in scorer.bookmarks && moved == (j > 0)
      ensures !moved ==>
        scorer.order == old(scorer.order) && scorer.bookmarks == old(scorer.bookmarks) && nb == bestScore && at' == at
      ensures moved ==> Scanned(scorer.model.scoreOf, rest, v, j - 1, scorer.order, scorer.bookmarks[SearchKey], nb, at',
                                j - 1, hi)
    {
      ghost var mark := scorer.bookmarks[SearchKey];
      moved := StepLeft(scorer, v, rest, j);
      nb, at' := bestScore, at;
      if moved {
        var kept;
        nb, kept := KeepIfNoHigher(scorer, bestScore);
        if kept {
          at' := j - 1;
        }
        PromoteStepState(scorer.model.scoreOf, rest, v, j, hi, mark, bestScore, at, scorer.bookmarks[SearchKey], nb, at');
      }
    }

    /** moveLeft on a placement of v into rest: v goes from index j to j - 1 unless j is 0. */
    method StepLeft(scorer: TeyssierScorer, v: Node, ghost rest: seq<Node>, ghost j: nat) returns (moved: bool)
      requires scorer.Valid() && v !in rest && j <= |rest| && scorer.order == InsertAt(rest, j, v)
      modifies scorer`order
      ensures scorer.Valid() && moved == (j > 0)
      ensures moved ==> scorer.order == InsertAt(rest, j - 1, v)
      ensures !moved ==> scorer.order == old(scorer.order)
    {
      PlacementNeighbours(rest, j, v);
      moved := scorer.MoveLeft(v);
    }

    /** moveRight on a placement of v into rest: v goes from index j to j + 1 unless j is last. */
    method StepRight(scorer: TeyssierScorer, v: Node, ghost rest: seq<Node>, ghost j: nat) returns (moved: bool)
      requires scorer.Valid() && v !in rest && j <= |rest| && scorer.order == InsertAt(rest, j, v)
      modifies scorer`order
      ensures scorer.Valid() && moved == (j < |rest|)
      ensures moved ==> scorer.order == InsertAt(rest, j + 1, v)
      ensures !moved ==> scorer.order == old(scorer.order)
    {
      PlacementNeighbours(rest, j, v);
      moved := scorer.MoveRight(v);
    }

    /** Bookmarks the current order when it scores no higher than best; returns the new best. */
    method KeepIfNoHigher(scorer: TeyssierScorer, best: real) returns (nb: real, kept: bool)
      requires scorer.Valid()
      modifies scorer`bookmarks
      ensures scorer.Valid() && kept == (scorer.Score() <= best)
      ensures kept ==> nb == scorer.Score() && scorer.bookmarks == old(scorer.bookmarks)[SearchKey := scorer.order]
      ensures !kept ==> nb == best && scorer.bookmarks == old(scorer.bookmarks)
    {
      nb := best;
      kept := scorer.Score() <= best;
      if kept {
        nb := scorer.Score();
        scorer.Bookmark(SearchKey);
      }
    }

    /**
     * Passes over the variables, each tried at every index from the left
     * (bossSearchAllIndices), until a pass no longer lowers the score.
     */
    method AllIndices(scorer: TeyssierScorer)
      requires scorer.Valid()
      modifies scorer`order, scorer`bookmarks
      ensures scorer.Valid() && scorer.Score() <= old(scorer.Score())
    {
      ghost var vars, f := scorer.model.variables, scorer.model.scoreOf;
      var overall := PosInf;
      while true
        invariant scorer.Valid() && scorer.Score() <= old(scorer.Score())
        invariant overall != PosInf ==> overall == Fin(scorer.Score())
        decreases |Lower(vars, f, scorer.order)| + (if overall == PosInf then 1 else 0)
      {
        ghost var before := scorer.order;
        var vs := scorer.order;
        var iv := 0;
        while iv < |vs|
          invariant 0 <= iv <= |vs|
          invariant scorer.Valid() && scorer.Score() <= f(before)
        {
          assert vs[iv] in multiset(scorer.order);
          ghost var at := PlaceBest(scorer, vs[iv]);
          iv := iv + 1;
        }
        LowerNoLarger(vars, f, before, scorer.order);
        if Below(scorer.Score(), overall) {
          if overall != PosInf {
            LowerShrinks(vars, f, before, scorer.order);
          }
          overall := Fin(scorer.Score());
        } else {
          break;
        }
      }
    }

    /**
     * One variable's turn in an all-indices pass: v goes first and then one
     * place to the right at a time, and an order is bookmarked when it scores
     * strictly lower than the best so far. The restored order is v's leftmost
     * best placement overall.
     */
    method PlaceBest(scorer: TeyssierScorer, v: Node) returns (ghost at: nat)
      requires scorer.Valid() && v in scorer.order
      modifies scorer`order, scorer`bookmarks
      ensures scorer.Valid()
      ensures at < |old(scorer.order)| && scorer.order == MovedTo(old(scorer.order), v, at)
      ensures LeftmostMin(scorer.model.scoreOf, Without(old(scorer.order), v), v, 0, |old(scorer.order)| - 1, at)
      ensures scorer.Score() <= old(scorer.Score())
    {
      ghost var o0, f := scorer.order, scorer.model.scoreOf;
      var bestScore;
      ghost var rest, k0;
      bestScore, rest, k0 := PlaceFirst(scorer, v);
      bestScore, at := PlaceRightward(scorer, v, bestScore, rest);
      scorer.GoToBookmark(SearchKey);
      PlacementOutcome(f, o0, rest, k0, v, 0, |o0| - 1, at);
    }

    /**
     * The loop of an all-indices turn: from the first index, v moves one place
     * to the right until it is last, keeping the leftmost best placement.
     */
    method PlaceRightward(scorer: TeyssierScorer, v: Node, bestScore: real, ghost rest: seq<Node>)
      returns (nb: real, ghost at: nat)
      requires scorer.Valid() && SearchKey in scorer.bookmarks
      requires Scanned(scorer.model.scoreOf, rest, v, 0, scorer.order, scorer.bookmarks[SearchKey], bestScore, 0, 0, 0)
      modifies scorer`order, scorer`bookmarks
      ensures scorer.Valid() && SearchKey in scorer.bookmarks
      ensures Scanned(scorer.model.scoreOf, rest, v, |rest|, scorer.order, scorer.bookmarks[SearchKey], nb, at, 0, |rest|)
    {
      ghost var j := 0;
      nb, at := bestScore, 0;
      var moved := true;
      while moved
        invariant j <= |rest| && scorer.Valid() && SearchKey in scorer.bookmarks
        invariant Scanned(scorer.model.scoreOf, rest, v, j, scorer.order, scorer.bookmarks[SearchKey], nb, at, 0, j)
        invariant !moved ==> j == |rest|
        decreases |rest| - j + (if moved then 1 else 0)
      {
        moved, nb, at, j := PlaceStep(scorer, v, nb, rest, j, at);
      }
    }

    /**
     * The start of an all-indices turn: v goes first, and that order is
     * bookmarked with its score as the best so far.
     */
    method PlaceFirst(scorer: TeyssierScorer, v: Node) returns (bestScore: real, ghost rest: seq<Node>, ghost k0: nat)
      requires scorer.Valid() && v in scorer.order
      modifies scorer`order, scorer`bookmarks
      ensures scorer.Valid() && SearchKey in scorer.bookmarks
      ensures rest == Without(old(scorer.order), v) && v !in rest && k0 <= |rest|
      ensures old(scorer.order) == InsertAt(rest, k0, v)
      ensures Scanned(scorer.model.scoreOf, rest, v, 0, scorer.order, scorer.bookmarks[SearchKey], bestScore, 0, 0, 0)
    {
      ghost var o0 := scorer.order;
      rest, k0 := Without(o0, v), IndexOf(o0, v);
      scorer.OrderIsDistinct();
      WithoutAndBack(o0, v);
      MovedToPlacement(rest, k0, v, 0);
      scorer.MoveTo(v, 0);
      bestScore := scorer.Score();
      scorer.Bookmark(SearchKey);
      var kept;
      bestScore, kept := KeepIfLower(scorer, bestScore);
    }

    /**
     * One step of an all-indices turn: v moves one place to the right, when it
     * is not last, and the order is bookmarked when it scores strictly lower.
     */
    method PlaceStep(scorer: TeyssierScorer, v: Node, bestScore: real, ghost rest: seq<Node>, ghost j: nat,
                     ghost at: nat) returns (moved: bool, nb: real, ghost at': nat, ghost j': nat)
      requires scorer.Valid() && SearchKey in scorer.bookmarks
      requires Scanned(scorer.model.scoreOf, rest, v, j, scorer.order, scorer.bookmarks[SearchKey], bestScore, at, 0, j)
      modifies scorer`order, scorer`bookmarks
      ensures scorer.Valid() && SearchKey in scorer.bookmarks && moved == (j < |rest|)
      ensures j' == (if moved then j + 1 else j) && j' <= |rest| && (!moved ==> j' == |rest|)
      ensures !moved ==>
        scorer.order == old(scorer.order) && scorer.bookmarks == old(scorer.bookmarks) && nb == bestScore && at' == at
      ensures Scanned(scorer.model.scoreOf, rest, v, j', scorer.order, scorer.bookmarks[SearchKey], nb, at', 0, j')
    {
      ghost var mark := scorer.bookmarks[SearchKey];
      moved := StepRight(scorer, v, rest, j);
      nb, at', j' := bestScore, at, j;
      if moved {
        var kept;
        nb, kept := KeepIfLower(scorer, bestScore);
        if kept {
          at' := j + 1;
        }
        j' := j + 1;
        PlaceStepState(scorer.model.scoreOf, rest, v, j, mark, bestScore, at, scorer.bookmarks[SearchKey], nb, at');
      }
    }

    /** Bookmarks the current order when it scores strictly lower than best; returns the new best. */
    method KeepIfLower(scorer: TeyssierScorer, best: real) returns (nb: real, kept: bool)
      requires scorer.Valid()
      modifies scorer`bookmarks
      ensures scorer.Valid() && kept == (scorer.Score() < best)
      ensures kept ==> nb == scorer.Score() && scorer.bookmarks == old(scorer.bookmarks)[SearchKey := scorer.order]
      ensures !kept ==> nb == best && scorer.bookmarks == old(scorer.bookmarks)
    {
      nb := best;
      kept := scorer.Score() < best;
      if kept {
        nb := scorer.Score();
        scorer.Bookmark(SearchKey);
      }
    }

    /**
     * Neighbour-swap search (esp): repeats the visit from its own result until
     * the visit's score stops changing, and leaves the scorer on that order.
     */
    method Esp(scorer: TeyssierScorer)
      requires scorer.Valid()
      modifies scorer`order
      ensures scorer.Valid() && scorer.Score() <= old(scorer.Score())
    {
      ghost var vars, f := scorer.model.variables, scorer.model.scoreOf;
      var visit := EspVisit(scorer.order, scorer.Score());
      while true
        invariant scorer.Valid() && IsPermOf(visit.order, vars)
        invariant visit.score == f(visit.order) && visit.score <= old(scorer.Score())
        decreases |Lower(vars, f, visit.order)|
      {
        var visit0 := visit;
        visit := VisitEsp(scorer, visit0);
        if visit.score == visit0.score {
          break;
        }
        LowerShrinks(vars, f, visit0.order, visit.order);
      }
      scorer.Evaluate(visit.order);
    }

    /**
     * One neighbour-swap visit (espVisit): for each adjacent pair of g's order,
     * swap it; when the swap beats the best visit so far, continue from there.
     * The result is g itself or strictly better.
     */
    method VisitEsp(scorer: TeyssierScorer, g: EspVisit) returns (r: EspVisit)
      requires scorer.Valid() && IsPermOf(g.order, scorer.model.variables)
      requires g.score == scorer.model.scoreOf(g.order)
      modifies scorer`order
      ensures scorer.Valid() && IsPermOf(r.order, scorer.model.variables)
      ensures r.score == scorer.model.scoreOf(r.order) && r.score <= g.score
      ensures r == g || r.score < g.score
      decreases |Lower(scorer.model.variables, scorer.model.scoreOf, g.order)|
    {
      ghost var vars, f := scorer.model.variables, scorer.model.scoreOf;
      r := g;
      var i := 0;
      while i < |g.order| - 1
        invariant 0 <= i
        invariant scorer.Valid() && IsPermOf(r.order, vars)
        invariant r.score == f(r.order) && r.score <= g.score && (r == g || r.score < g.score)
      {
        var v, w := g.order[i], g.order[i + 1];
        scorer.Evaluate(g.order);
        assert v in multiset(scorer.order) && w in multiset(scorer.order);
        scorer.Swap(v, w);
        if scorer.Score() < r.score {
          LowerShrinks(vars, f, g.order, scorer.order);
          r := VisitEsp(scorer, EspVisit(scorer.order, scorer.Score()));
        }
        i := i + 1;
      }
    }

    /**
     * Covered-edge search (gsp): repeats the visit until the edge count stops
     * changing. Each visit lowers the count or leaves the order as it was.
     */
    method Gsp(scorer: TeyssierScorer)
      requires scorer.Valid() && BlanketsWithin(scorer.model.mbOf)
      modifies scorer`order
      ensures scorer.Valid() && scorer.NumEdges() <= old(scorer.NumEdges())
    {
      var num1 := scorer.NumEdges();
      while true
        invariant scorer.Valid() && num1 == scorer.NumEdges() && num1 <= old(scorer.NumEdges())
        decreases num1
      {
        var num0 := num1;
        var path := new NodeSet();
        GspVisit(scorer, if gspDepth == -1 then IntMax else gspDepth, 0, path);
        num1 := scorer.NumEdges();
        if num0 == num1 {
          break;
        }
      }
    }

    /**
     * Depth-first walk over swaps of covered edges of the Markov-blanket graph
     * (gspVisit): an edge v -> w is swapped when neither end is on the path and
     * the parents of v are those of w besides v. The swap is kept, and the walk
     * returns, only when the edge count strictly fell; otherwise it is undone.
     * The path is restored on return.
     */
    method GspVisit(scorer: TeyssierScorer, maxDepth: int, depth: int, path: NodeSet)
      requires scorer.Valid() && BlanketsWithin(scorer.model.mbOf)
      modifies scorer`order, path
      ensures scorer.Valid() && path.elems == old(path.elems)
      ensures scorer.NumEdges() < old(scorer.NumEdges()) || scorer.order == old(scorer.order)
      decreases |Elems(scorer.model.variables) - path.elems|, 2
    {
      ghost var o0, p0 := scorer.order, path.elems;
      var graph0 := GetGraph(scorer);
      MbGraphClosed(graph0, scorer.order, scorer.model.mbOf);
      var num0 := scorer.NumEdges();
      var depth := depth;
      var remaining := graph0.edges;
      while remaining != {}
        invariant scorer.Valid() && scorer.order == o0 && path.elems == p0
        invariant remaining <= graph0.edges
        decreases |remaining|
      {
        var edge :| edge in remaining;
        remaining := remaining - {edge};
        var done;
        done, depth := TrySwap(scorer, graph0, edge.0, edge.1, maxDepth, depth, num0, path);
        if done {
          return;
        }
      }
    }

    /**
     * The body of gspVisit for one edge v -> w of graph0: when neither end is on
     * the path and the edge is covered in graph0, v and w are swapped and the
     * walk goes deeper; done says the edge count fell below num0, and
     * otherwise the order is as before.
     */
    method TrySwap(scorer: TeyssierScorer, graph0: DirectedGraph, v: Node, w: Node, maxDepth: int, depth: int,
                   num0: nat, path: NodeSet) returns (done: bool, depth': int)
      requires scorer.Valid() && BlanketsWithin(scorer.model.mbOf) && v in scorer.order && w in scorer.order
      requires num0 == scorer.NumEdges()
      modifies scorer`order, path
      ensures scorer.Valid() && path.elems == old(path.elems)
      ensures done ==> scorer.NumEdges() < num0
      ensures !done ==> scorer.order == old(scorer.order)
      decreases |Elems(scorer.model.variables) - path.elems|, 1
    {
      done, depth' := false, depth;
      if v !in path.elems && w !in path.elems {
        var parentsV := ParentsIn(graph0, v);
        var parentsW := ParentsIn(graph0, w) - {v};
        if parentsV == parentsW {
          scorer.OrderIsDistinct();
          SwapTwice(scorer.order, v, w);
          scorer.Swap(v, w);
          if depth' <= maxDepth && scorer.NumEdges() <= num0 {
            depth' := depth' + 1;
            Descend(scorer, maxDepth, depth', path, v);
            if scorer.NumEdges() < num0 {
              return true, depth';
            }
          }
          scorer.Swap(v, w);
        }
      }
    }

    /** One level deeper in gspVisit: v joins the path for the visit of the current order. */
    method Descend(scorer: TeyssierScorer, maxDepth: int, depth: int, path: NodeSet, v: Node)
      requires scorer.Valid() && BlanketsWithin(scorer.model.mbOf) && v in scorer.order && v !in path.elems
      modifies scorer`order, path
      ensures scorer.Valid() && path.elems == old(path.elems)
      ensures scorer.NumEdges() < old(scorer.NumEdges()) || scorer.order == old(scorer.order)
      decreases |Elems(scorer.model.variables) - path.elems|, 0
    {
      ghost var vars := Elems(scorer.model.variables);
      ghost var p0 := path.elems;
      assert v in multiset(scorer.order);
      path.elems := path.elems + {v};
      assert v in vars - p0 && v !in vars - path.elems;
      SubsetSize(vars - path.elems, vars - p0);
      GspVisit(scorer, maxDepth, depth, path);
      path.elems := path.elems - {v};
    }

    /**
     * The exhaustive search (sp): scores every order of the variables, in the
     * generator's order, and leaves the scorer on the first one of minimal score.
     */
    method Sp(scorer: TeyssierScorer)
      requires scorer.Valid()
      modifies scorer`order
      ensures scorer.Valid()
      ensures FirstMinimum(scorer.model.scoreOf, Perms(old(scorer.order)), scorer.order)
      ensures forall p | IsPermOf(p, old(scorer.order)) :: scorer.Score() <= scorer.model.scoreOf(p)
    {
      var f := scorer.model.scoreOf;
      var vars := scorer.order;
      var perms := Perms(vars);
      var minScore := PosInf;
      var minP: Option<seq<Node>> := None;
      ghost var m := 0;
      var k := 0;
      while k < |perms|
        invariant scorer.Valid() && scorer.model.scoreOf == f
        invariant MinSoFar(f, perms, k, minP, minScore, m)
      {
        var p := perms[k];
        PermsSound(vars, p);
        scorer.Evaluate(p);
        MinSoFarStep(f, perms, k, minP, minScore, m);
        if Below(scorer.Score(), minScore) {
          minScore := Fin(scorer.Score());
          minP := Some(p);
          m := k;
        }
        k := k + 1;
      }
      PermsComplete(vars, vars);
      MinSoFarDone(f, perms, minP, minScore, m);
      PermsSound(vars, minP.value);
      scorer.Evaluate(minP.value);
      forall p | IsPermOf(p, vars) ensures f(minP.value) <= f(p) {
        PermsComplete(vars, p);
      }
    }

    /**
     * The Markov-blanket graph of the scorer's order (getGraph): the order's
     * nodes, with an edge into each position from every member of its blanket.
     */
    method GetGraph(scorer: TeyssierScorer) returns (g: DirectedGraph)
      ensures IsMbGraph(g, scorer.order, scorer.model.mbOf)
    {
      var order := scorer.order;
      var edges: set<(Node, Node)> := {};
      var p := 0;
      while p < |order|
        invariant 0 <= p <= |order|
        invariant forall q: nat, z | q < p && z in scorer.Mb(q) :: (z, order[q]) in edges
        invariant forall e | e in edges :: exists q: nat :: q < p && e.1 == order[q] && e.0 in scorer.Mb(q)
      {
        var mb := scorer.Mb(p);
        var left := mb;
        while left != {}
          invariant left <= mb
          invariant forall q: nat, z | q < p && z in scorer.Mb(q) :: (z, order[q]) in edges
          invariant forall z | z in mb - left :: (z, order[p]) in edges
          invariant forall e | e in edges :: exists q: nat :: q <= p && e.1 == order[q] && e.0 in scorer.Mb(q)
          decreases |left|
        {
          var z :| z in left;
          edges := edges + {(z, order[p])};
          left := left - {z};
        }
        p := p + 1;
      }
      g := DirectedGraph(order, edges);
    }
  }
}
