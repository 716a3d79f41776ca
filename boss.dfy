/**
 * BOSS (best order score search): restarts from shuffled orders, and in each
 * run improves the order by moving single variables to their best positions
 * and by reorienting triangles; alternatively it enumerates every order (SP)
 * or walks covered-edge reversals (GSP). Higher scores are better here.
 */
module BossSearch {
  import opened Base
  import opened Orders
  import opened Scoring

  datatype Method = BOSS | SP | GSP

  /** What the search was built from: a score (possibly a GraphScore) or an independence test. */
  datatype Oracle = FromScore(isGraphScore: bool) | FromTest

  /** No forbidden edge leads from a variable to one placed after it. */
  predicate Respects(knowledge: Knowledge, order: seq<Node>)
  {
    forall i, j :: 0 <= i < j < |order| ==> !knowledge.IsForbidden(order[i], order[j])
  }

  /** Whether the order agrees with the knowledge (satisfiesKnowledge). */
  method SatisfiesKnowledge(knowledge: Knowledge, order: seq<Node>) returns (ok: bool)
    ensures ok <==> Respects(knowledge, order)
  {
    if !knowledge.IsEmpty() {
      var i := 0;
      while i < |order|
        invariant 0 <= i <= |order|
        invariant forall a, b :: 0 <= a < i && a < b < |order| ==> !knowledge.IsForbidden(order[a], order[b])
      {
        var j := i + 1;
        while j < |order|
          invariant i + 1 <= j <= |order|
          invariant forall b :: i < b < j ==> !knowledge.IsForbidden(order[i], order[b])
        {
          if knowledge.IsForbidden(order[i], order[j]) {
            return false;
          }
          j := j + 1;
        }
        i := i + 1;
      }
    }
    return true;
  }

  /**
   * Reorders the variables towards the knowledge (makeValidKnowledgeOrder).
   * The source sorts with a comparator that is not a total order (two
   * unrelated variables each compare above the other), so the result is some
   * permutation; with empty knowledge the order is kept. On 32 or more
   * elements the library sort may detect the inconsistency and throw
   * IllegalArgumentException; below that it uses an insertion sort that
   * never checks.
   */
  method MakeValidKnowledgeOrder(knowledge: Knowledge, order: seq<Node>) returns (r: Result<seq<Node>>)
    ensures r.Ok? ==> IsPermOf(r.value, order)
    ensures r.Err? ==> r.error == IllegalArgument && !knowledge.IsEmpty() && |order| >= MinMergeLength
    ensures knowledge.IsEmpty() ==> r == Ok(order)
  {
    if knowledge.IsEmpty() {
      return Ok(order);
    }
    if |order| >= MinMergeLength {
      var detected: bool :| true;
      if detected {
        return Err(IllegalArgument);
      }
    }
    assert IsPermOf(order, order);
    var sorted :| IsPermOf(sorted, order);
    return Ok(sorted);
  }

  /** The shortest list the library sort merges (and checks the comparator on) rather than insertion-sorts. */
  const MinMergeLength: nat := 32

  /** v -> w is covered: adjacent, with the same parents apart from each other. */
  predicate Covered(scorer: TeyssierScorer, v: Node, w: Node)
    reads scorer
  {
    scorer.Adjacent(v, w) && scorer.Parents(w) - {v} == scorer.Parents(v) - {w}
  }

  /** For a parent v of w, covered means the textbook condition Pa(w) = Pa(v) + {v}. */
  lemma CoveredIsTextbook(scorer: TeyssierScorer, v: Node, w: Node)
    requires scorer.model.Sound() && v in scorer.Parents(w)
    ensures Covered(scorer, v, w) <==> scorer.Parents(w) == scorer.Parents(v) + {v}
  {
    var o, pa := scorer.order, scorer.model.parentsOf;
    var pw, pv := pa(o, w), pa(o, v);
    assert ParentsPrecede(pa);
    assert IndexOf(o, v) < IndexOf(o, w);
    assert w !in pv && v !in pv;
    assert pv - {w} == pv;
    if pw - {v} == pv {
      assert pw == pv + {v};
    }
    if pw == pv + {v} {
      assert pw - {v} == pv;
    }
  }

  /** e is (order[a], order[b]) for some a before b. */
  ghost predicate ForwardPair(order: seq<Node>, e: (Node, Node))
  {
    exists a, b :: 0 <= a < b < |order| && e == (order[a], order[b])
  }

  /** The pairs (order[i], order[b]) for i < b < j, in the order of b. */
  function RowPairs(order: seq<Node>, i: nat, j: nat): seq<(Node, Node)>
    requires i < |order| && j <= |order|
    decreases j
  {
    if j <= i + 1 then [] else RowPairs(order, i, j - 1) + [(order[i], order[j - 1])]
  }

  /** The rows of pairs of the first i positions, one row after the other. */
  function PairsBefore(order: seq<Node>, i: nat): seq<(Node, Node)>
    requires i <= |order|
  {
    if i == 0 then [] else PairsBefore(order, i - 1) + RowPairs(order, i - 1, |order|)
  }

  /** The row of position i lists (order[i], order[b]) for every b between i and j. */
  lemma {:induction false} RowListsPair(order: seq<Node>, i: nat, j: nat, b: nat)
    requires i < b < j <= |order|
    ensures (order[i], order[b]) in RowPairs(order, i, j)
    decreases j
  {
    if b < j - 1 {
      RowListsPair(order, i, j - 1, b);
    }
  }

  /** Everything in a row is a forward pair. */
  lemma {:induction false} RowPairForward(order: seq<Node>, i: nat, j: nat, e: (Node, Node))
    requires i < |order| && j <= |order| && e in RowPairs(order, i, j)
    ensures ForwardPair(order, e)
    decreases j
  {
    if e in RowPairs(order, i, j - 1) {
      RowPairForward(order, i, j - 1, e);
    } else {
      assert e == (order[i], order[j - 1]);
    }
  }

  /** The rows of the first i positions list every forward pair that starts before i. */
  lemma {:induction false} PairsBeforeListsPair(order: seq<Node>, i: nat, a: nat, b: nat)
    requires a < i <= |order| && a < b < |order|
    ensures (order[a], order[b]) in PairsBefore(order, i)
  {
    var prev, row := PairsBefore(order, i - 1), RowPairs(order, i - 1, |order|);
    var e := (order[a], order[b]);
    if a < i - 1 {
      PairsBeforeListsPair(order, i - 1, a, b);
      assert e in prev;
    } else {
      RowListsPair(order, a, |order|, b);
      assert e in row;
    }
    assert e in prev + row;
  }

  /** Everything in the rows of the first i positions is a forward pair. */
  lemma {:induction false} PairsBeforeForward(order: seq<Node>, i: nat, e: (Node, Node))
    requires i <= |order| && e in PairsBefore(order, i)
    ensures ForwardPair(order, e)
  {
    if e in PairsBefore(order, i - 1) {
      PairsBeforeForward(order, i - 1, e);
    } else {
      RowPairForward(order, i - 1, |order|, e);
    }
  }

  /** The pairs (order[i], order[j]) with i < j: every pair of variables once (gsp3). */
  method OrderPairs(order: seq<Node>) returns (edges: seq<(Node, Node)>)
    ensures forall i, j :: 0 <= i < j < |order| ==> (order[i], order[j]) in edges
    ensures forall e | e in edges :: e.0 in order && e.1 in order
    ensures forall e | e in edges :: ForwardPair(order, e)
  {
    edges := [];
    var i := 0;
    while i < |order|
      invariant 0 <= i <= |order| && edges == PairsBefore(order, i)
    {
      var j := i + 1;
      while j < |order|
        invariant i + 1 <= j <= |order| && edges == PairsBefore(order, i) + RowPairs(order, i, j)
      {
        edges := edges + [(order[i], order[j])];
        j := j + 1;
      }
      i := i + 1;
    }
    forall a, b | 0 <= a < b < |order| ensures (order[a], order[b]) in edges {
      PairsBeforeListsPair(order, |order|, a, b);
    }
    forall e | e in edges ensures ForwardPair(order, e) && e.0 in order && e.1 in order {
      PairsBeforeForward(order, |order|, e);
      var a, b :| 0 <= a < b < |order| && e == (order[a], order[b]);
    }
  }

  /** The pairs (x, z) and (y, z) for every z completing a triangle with x and y (the list ZZ). */
  method TrianglePairs(scorer: TeyssierScorer, x: Node, y: Node) returns (zz: seq<(Node, Node)>)
    requires x in scorer.order && y in scorer.order
    ensures forall p | p in zz :: (p.0 == x || p.0 == y) && p.1 in scorer.order && scorer.Triangle(x, y, p.1)
    ensures forall z | z in scorer.order && scorer.Triangle(x, y, z) :: (x, z) in zz && (y, z) in zz
  {
    zz := [];
    var k := 0;
    while k < |scorer.order|
      invariant 0 <= k <= |scorer.order|
      invariant forall p | p in zz :: (p.0 == x || p.0 == y) && p.1 in scorer.order[..k] && scorer.Triangle(x, y, p.1)
      invariant forall z | z in scorer.order[..k] && scorer.Triangle(x, y, z) :: (x, z) in zz && (y, z) in zz
    {
      var z := scorer.order[k];
      assert scorer.order[..k + 1] == scorer.order[..k] + [z];
      if scorer.Triangle(x, y, z) {
        zz := zz + [(x, z), (y, z)];
      }
      k := k + 1;
    }
    assert scorer.order[..k] == scorer.order;
  }

  /** A set of variable pairs that the searches update in place (the triangle path). */
  class PairSet {
    var elems: set<(Node, Node)>
    constructor ()
      ensures elems == {}
    {
      elems := {};
    }
  }

  /** A list of variable pairs that the searches update in place (the gsp3 path). */
  class PairList {
    var items: seq<(Node, Node)>
    constructor ()
      ensures items == []
    {
      items := [];
    }
  }

  /** best is the first of ps of maximal score: every earlier one scores strictly lower. */
  ghost predicate FirstMaximum(f: seq<Node> -> real, ps: seq<seq<Node>>, best: seq<Node>)
  {
    exists m :: 0 <= m < |ps| && ps[m] == best && forall k | 0 <= k < m :: f(ps[k]) < f(best)
  }

  /** The earliest of the runs to beat the start, if any beats it, is the result; later runs are no better. */
  ghost predicate FirstBest(f: seq<Node> -> real, start: seq<Node>, runs: seq<seq<Node>>, best: seq<Node>)
  {
    (best == start && forall k | 0 <= k < |runs| :: f(runs[k]) <= f(start))
    || (exists m :: 0 <= m < |runs| && runs[m] == best && f(start) < f(best)
          && (forall k | 0 <= k < m :: f(runs[k]) < f(best))
          && (forall k | m < k < |runs| :: f(runs[k]) <= f(best)))
  }

  /** The result of FirstBest scores at least as high as the start and as every run. */
  lemma FirstBestBounds(f: seq<Node> -> real, start: seq<Node>, runs: seq<seq<Node>>, best: seq<Node>)
    requires FirstBest(f, start, runs, best)
    ensures f(start) <= f(best)
    ensures forall k | 0 <= k < |runs| :: f(runs[k]) <= f(best)
  {
    if !(best == start && forall k | 0 <= k < |runs| :: f(runs[k]) <= f(start)) {
      var m :| 0 <= m < |runs| && runs[m] == best && f(start) < f(best)
        && (forall k | 0 <= k < m :: f(runs[k]) < f(best))
        && (forall k | m < k < |runs| :: f(runs[k]) <= f(best));
    }
  }

  /**
   * What one run of the chosen search promises about the order it ends on,
   * given the order it started from: SP's scores at least as high as every
   * order of the variables; GSP's, and BOSS's under empty knowledge, at least
   * as high as the start.
   */
  ghost predicate RunKeeps(model: ScoreModel, m: Method, kn: Knowledge, start: seq<Node>, run: seq<Node>)
  {
    (m == SP ==> forall p | IsPermOf(p, model.variables) :: model.scoreOf(p) <= model.scoreOf(run))
    && (m == GSP || (m == BOSS && kn.IsEmpty()) ==> model.scoreOf(start) <= model.scoreOf(run))
  }

  /** Run k started from starts[k] and kept RunKeeps, for every run. */
  ghost predicate RunsKeep(model: ScoreModel, m: Method, kn: Knowledge, starts: seq<seq<Node>>, runs: seq<seq<Node>>)
  {
    |starts| == |runs|
    && forall k | 0 <= k < |runs| ::
         IsPermOf(runs[k], model.variables) && IsPermOf(starts[k], model.variables)
         && RunKeeps(model, m, kn, starts[k], runs[k])
  }

  lemma RunsKeepExtend(model: ScoreModel, m: Method, kn: Knowledge, starts: seq<seq<Node>>, runs: seq<seq<Node>>,
                       start: seq<Node>, run: seq<Node>)
    requires RunsKeep(model, m, kn, starts, runs)
    requires IsPermOf(run, model.variables) && IsPermOf(start, model.variables) && RunKeeps(model, m, kn, start, run)
    ensures RunsKeep(model, m, kn, starts + [start], runs + [run])
  {
  }

  /**
   * The bookkeeping of bestOrder's runs so far: each kept RunKeeps, and the
   * best order, a permutation scoring best, is FirstBest of the start and runs.
   */
  ghost predicate Tracked(model: ScoreModel, m: Method, kn: Knowledge, start: seq<Node>, starts: seq<seq<Node>>,
                          runs: seq<seq<Node>>, bestPerm: seq<Node>, best: real)
  {
    IsPermOf(bestPerm, model.variables) && best == model.scoreOf(bestPerm)
    && RunsKeep(model, m, kn, starts, runs) && FirstBest(model.scoreOf, start, runs, bestPerm)
  }

  /** One more run keeps Tracked; it becomes the best only when it scores strictly higher. */
  lemma TrackedStep(model: ScoreModel, m: Method, kn: Knowledge, start: seq<Node>, starts: seq<seq<Node>>,
                    runs: seq<seq<Node>>, bestPerm: seq<Node>, best: real, runStart: seq<Node>, run: seq<Node>)
    requires Tracked(model, m, kn, start, starts, runs, bestPerm, best)
    requires IsPermOf(run, model.variables) && IsPermOf(runStart, model.variables)
    requires RunKeeps(model, m, kn, runStart, run)
    ensures var take := model.scoreOf(run) > best;
      Tracked(model, m, kn, start, starts + [runStart], runs + [run], if take then run else bestPerm,
              if take then model.scoreOf(run) else best)
  {
    FirstBestExtend(model.scoreOf, start, runs, bestPerm, run);
    RunsKeepExtend(model, m, kn, starts, runs, runStart, run);
  }

  /** With SP and at least one run, the result of FirstBest scores at least as high as every order. */
  lemma SpBestIsOptimal(model: ScoreModel, kn: Knowledge, start: seq<Node>, starts: seq<seq<Node>>,
                        runs: seq<seq<Node>>, best: seq<Node>)
    requires FirstBest(model.scoreOf, start, runs, best) && RunsKeep(model, SP, kn, starts, runs) && runs != []
    ensures forall p | IsPermOf(p, model.variables) :: model.scoreOf(p) <= model.scoreOf(best)
  {
    FirstBestBounds(model.scoreOf, start, runs, best);
    assert RunKeeps(model, SP, kn, starts[0], runs[0]);
  }

  /**
   * No way of inserting v into rest at an index from lo on that respects the
   * knowledge scores above best (stated index by index; NoBetterPlacementAll
   * gives the quantified form). With rest the order without v, these
   * insertions are exactly the placements of v that moveTo can reach.
   */
  ghost predicate NoBetterFrom(f: seq<Node> -> real, kn: Knowledge, rest: seq<Node>, v: Node, lo: nat, best: ExtReal)
    decreases |rest| + 1 - lo
  {
    lo > |rest|
    || ((Respects(kn, InsertAt(rest, lo, v)) ==> !Above(f(InsertAt(rest, lo, v)), best))
        && NoBetterFrom(f, kn, rest, v, lo + 1, best))
  }

  lemma {:induction false} NoBetterPlacementAll(f: seq<Node> -> real, kn: Knowledge, rest: seq<Node>, v: Node,
                                                lo: nat, best: ExtReal)
    requires NoBetterFrom(f, kn, rest, v, lo, best)
    ensures forall j: nat | lo <= j <= |rest| && Respects(kn, InsertAt(rest, j, v)) ::
      !Above(f(InsertAt(rest, j, v)), best)
    decreases |rest| + 1 - lo
  {
    if lo <= |rest| {
      NoBetterPlacementAll(f, kn, rest, v, lo + 1, best);
    }
  }

  lemma NoBetterFromStep(f: seq<Node> -> real, kn: Knowledge, rest: seq<Node>, v: Node, i: nat, best: ExtReal)
    requires i <= |rest| && NoBetterFrom(f, kn, rest, v, i + 1, best)
    requires Respects(kn, InsertAt(rest, i, v)) ==> !Above(f(InsertAt(rest, i, v)), best)
    ensures NoBetterFrom(f, kn, rest, v, i, best)
  {
  }

  /** Leaving v where it is, is one of the placements NoBetterFrom covers. */
  lemma OwnPlacementBounded(f: seq<Node> -> real, kn: Knowledge, o: seq<Node>, v: Node, best: ExtReal)
    requires Distinct(o) && v in o && NoBetterFrom(f, kn, Without(o, v), v, 0, best)
    ensures Respects(kn, o) ==> !Above(f(o), best)
  {
    NoBetterPlacementAll(f, kn, Without(o, v), v, 0, best);
    WithoutAndBack(o, v);
  }

  /** Raising the bound keeps NoBetterFrom. */
  lemma {:induction false} NoBetterFromRaise(f: seq<Node> -> real, kn: Knowledge, rest: seq<Node>, v: Node, lo: nat,
                                             best: ExtReal, nb: ExtReal)
    requires NoBetterFrom(f, kn, rest, v, lo, best)
    requires nb.Fin? && Above(nb.r, best)
    ensures NoBetterFrom(f, kn, rest, v, lo, nb)
    decreases |rest| + 1 - lo
  {
    if lo <= |rest| {
      NoBetterFromRaise(f, kn, rest, v, lo + 1, best, nb);
    }
  }

  /**
   * The state of the scan over placements of v, before index i is tried:
   * v sits just after i (or where it started, k0, first time round), the
   * bookmark holds the best order so far (or the original one when nothing
   * beat s), and no placement after i scores above best.
   */
  ghost predicate ScanState(f: seq<Node> -> real, kn: Knowledge, rest: seq<Node>, v: Node, k0: nat, s: ExtReal,
                            b0: seq<Node>, i: int, order: seq<Node>, mark: seq<Node>, best: ExtReal,
                            marked: seq<Node>, at: int)
  {
    -1 <= i <= |rest| && k0 <= |rest|
    && order == InsertAt(rest, if i == |rest| then k0 else i + 1, v)
    && (best == s ==> mark == b0)
    && (best != s ==>
          best.Fin? && Above(best.r, s) && mark == marked && f(marked) == best.r && Respects(kn, marked)
          && 0 <= at <= |rest| && marked == InsertAt(rest, at, v))
    && NoBetterFrom(f, kn, rest, v, i + 1, best)
  }

  /** After the scan, v is first, and the state says what ScanPlacements promises. */
  lemma ScanEnd(f: seq<Node> -> real, kn: Knowledge, o0: seq<Node>, v: Node, s: ExtReal, b0: seq<Node>,
                order: seq<Node>, mark: seq<Node>, best: ExtReal, marked: seq<Node>, at: int)
    requires v in o0 && ScanState(f, kn, Without(o0, v), v, IndexOf(o0, v), s, b0, -1, order, mark, best, marked, at)
    ensures order == MovedTo(o0, v, 0)
    ensures best == s ==> mark == b0
    ensures best != s ==>
      best.Fin? && Above(best.r, s) && mark == marked && f(marked) == best.r && Respects(kn, marked)
      && 0 <= at < |o0| && marked == MovedTo(o0, v, at)
    ensures NoBetterFrom(f, kn, Without(o0, v), v, 0, best)
  {
  }

  /** One step of the scan keeps ScanState, with i lowered by one. */
  lemma ScanStep(f: seq<Node> -> real, kn: Knowledge, rest: seq<Node>, v: Node, k0: nat, s: ExtReal, b0: seq<Node>,
                 i: nat, order: seq<Node>, mark: seq<Node>, best: ExtReal, marked: seq<Node>, at: int,
                 order': seq<Node>, mark': seq<Node>, nb: ExtReal, marked': seq<Node>, at': int)
    requires ScanState(f, kn, rest, v, k0, s, b0, i, order, mark, best, marked, at)
    requires order' == InsertAt(rest, i, v)
    requires (nb == best && mark' == mark && marked' == marked && at' == at)
      || (nb == Fin(f(order')) && Above(nb.r, best) && Respects(kn, order') && mark' == order' && marked' == order'
          && at' == i)
    requires Respects(kn, order') ==> !Above(f(order'), nb)
    ensures ScanState(f, kn, rest, v, k0, s, b0, i - 1, order', mark', nb, marked', at')
  {
    if nb != best {
      NoBetterFromRaise(f, kn, rest, v, i + 1, best, nb);
    }
    NoBetterFromStep(f, kn, rest, v, i, nb);
  }

  /** Adding a run keeps FirstBest, the run replacing the best only when it scores strictly higher. */
  lemma FirstBestExtend(f: seq<Node> -> real, start: seq<Node>, runs: seq<seq<Node>>, best: seq<Node>, run: seq<Node>)
    requires FirstBest(f, start, runs, best)
    ensures FirstBest(f, start, runs + [run], if f(run) > f(best) then run else best)
  {
    var runs' := runs + [run];
    if f(run) > f(best) {
      assert runs'[|runs|] == run;
      if best == start && forall k | 0 <= k < |runs| :: f(runs[k]) <= f(start) {
        assert forall k | 0 <= k < |runs| :: f(runs'[k]) < f(run);
      } else {
        var m :| 0 <= m < |runs| && runs[m] == best && f(start) < f(best)
          && (forall k | 0 <= k < m :: f(runs[k]) < f(best))
          && (forall k | m < k < |runs| :: f(runs[k]) <= f(best));
        assert forall k | 0 <= k < |runs| :: f(runs'[k]) < f(run);
      }
    } else {
      if best == start && forall k | 0 <= k < |runs| :: f(runs[k]) <= f(start) {
        assert forall k | 0 <= k < |runs'| :: f(runs'[k]) <= f(start);
      } else {
        var m :| 0 <= m < |runs| && runs[m] == best && f(start) < f(best)
          && (forall k | 0 <= k < m :: f(runs[k]) < f(best))
          && (forall k | m < k < |runs| :: f(runs[k]) <= f(best));
        assert runs'[m] == best;
      }
    }
  }

  class Boss {
    const oracle: Oracle
    const model: ScoreModel
    /** Round bound on the outer loop of boss; the source has none (see the README). */
    const roundLimit: nat
    var numStarts: int
    var searchMethod: Method
    var depth: int
    var knowledge: Knowledge
    var firstRunUseDataOrder: bool
    var scorer: TeyssierScorer?

    constructor (oracle: Oracle, model: ScoreModel, roundLimit: nat)
      ensures this.oracle == oracle && this.model == model && this.roundLimit == roundLimit
      ensures numStarts == 1 && searchMethod == BOSS && depth == -1
      ensures knowledge == NoKnowledge && !firstRunUseDataOrder && scorer == null
    {
      this.oracle := oracle;
      this.model := model;
      this.roundLimit := roundLimit;
      numStarts := 1;
      searchMethod := BOSS;
      depth := -1;
      knowledge := NoKnowledge;
      firstRunUseDataOrder := false;
      scorer := null;
    }

    /** The triangle depth; -1 means unbounded and anything lower is refused. */
    method SetDepth(d: int) returns (r: Result<()>)
      modifies this`depth
      ensures d < -1 ==> r == Err(IllegalArgument) && depth == old(depth)
      ensures d >= -1 ==> r == Ok(()) && depth == d
    {
      if d < -1 {
        return Err(IllegalArgument);
      }
      depth := d;
      return Ok(());
    }

    /** Validates a triangle count and, as in the source, keeps nothing. */
    method SetMaxNumTriangles(n: int) returns (r: Result<()>)
      ensures r.Err? <==> n < -1
      ensures r.Err? ==> r.error == IllegalArgument
    {
      if n < -1 {
        return Err(IllegalArgument);
      }
      return Ok(());
    }

    /**
     * The best order found over numStarts runs that each start from a shuffled
     * (or, first, the given) order. A run replaces the best so far only when it
     * scores strictly higher. The knowledge sort of a run may throw, which
     * ends the search.
     */
    method BestOrder(order: seq<Node>)
      returns (r: Result<seq<Node>>, ghost runs: seq<seq<Node>>, ghost starts: seq<seq<Node>>)
      requires model.Sound() && IsPermOf(order, model.variables)
      modifies this`scorer
      ensures oracle == FromScore(true) ==> r == Err(IllegalArgument)
      ensures r.Err? ==> r.error == IllegalArgument
      ensures r.Err? && oracle != FromScore(true) ==> !knowledge.IsEmpty() && |order| >= MinMergeLength
      ensures oracle != FromScore(true) && knowledge.IsEmpty() ==> r.Ok?
      ensures r.Ok? ==> IsPermOf(r.value, model.variables)
      ensures r.Ok? ==> |runs| == if numStarts > 0 then numStarts else 0
      ensures r.Ok? ==> RunsKeep(model, searchMethod, knowledge, starts, runs)
      ensures r.Ok? ==> FirstBest(model.scoreOf, order, runs, r.value)
      ensures r.Ok? && searchMethod == SP && numStarts > 0 ==>
        forall p | IsPermOf(p, model.variables) :: model.scoreOf(p) <= model.scoreOf(r.value)
      ensures r.Ok? ==> fresh(scorer) && scorer.Valid() && scorer.model == model
      ensures r.Ok? ==> scorer.order == if runs == [] then order else runs[|runs| - 1]
    {
      runs, starts := [], [];
      if oracle == FromScore(true) {
        return Err(IllegalArgument), runs, starts;
      }
      var sc := new TeyssierScorer(model);
      scorer := sc;
      var bestPerm := order;
      sc.Evaluate(bestPerm);
      var best := sc.Score();
      var rr := 0;
      while rr < numStarts
        invariant fresh(sc) && sc.Valid() && sc.model == model
        invariant |runs| == rr && (if numStarts > 0 then rr <= numStarts else rr == 0)
        invariant Tracked(model, searchMethod, knowledge, order, starts, runs, bestPerm, best)
        invariant scorer == sc && sc.order == if runs == [] then order else runs[|runs| - 1]
      {
        var run, start := OneStart(sc, rr);
        if run.Err? {
          assert |multiset(order)| == |multiset(model.variables)|;
          return Err(run.error), runs, starts;
        }
        var perm := run.value;
        TrackedStep(model, searchMethod, knowledge, order, starts, runs, bestPerm, best, start, perm);
        runs, starts := runs + [perm], starts + [start];
        if sc.Score() > best {
          best := sc.Score();
          bestPerm := perm;
        }
        rr := rr + 1;
      }
      if searchMethod == SP && numStarts > 0 {
        SpBestIsOptimal(model, knowledge, order, starts, runs, bestPerm);
      }
      return Ok(bestPerm), runs, starts;
    }

    /**
     * One start of bestOrder: shuffle (except for a first run that keeps the
     * data order), bring the order in line with the knowledge, and run the
     * chosen search from there (start); the scorer is left on the order found.
     */
    method OneStart(sc: TeyssierScorer, rr: nat) returns (r: Result<seq<Node>>, ghost start: seq<Node>)
      requires sc.Valid() && sc.model.Sound()
      modifies sc
      ensures sc.Valid() && IsPermOf(start, sc.model.variables)
      ensures r.Err? ==> r.error == IllegalArgument && !knowledge.IsEmpty() && |sc.model.variables| >= MinMergeLength
      ensures knowledge.IsEmpty() ==> r.Ok?
      ensures r.Ok? ==> sc.order == r.value && IsPermOf(r.value, sc.model.variables)
      ensures r.Ok? ==> RunKeeps(sc.model, searchMethod, knowledge, start, r.value)
    {
      if firstRunUseDataOrder {
        if rr > 0 {
          sc.ShuffleVariables();
        }
      } else {
        sc.ShuffleVariables();
      }
      start := sc.order;
      var o := MakeValidKnowledgeOrder(knowledge, sc.order);
      if o.Err? {
        assert |multiset(sc.order)| == |multiset(sc.model.variables)|;
        return Err(o.error), start;
      }
      start := o.value;
      sc.Evaluate(o.value);
      var perm;
      match searchMethod {
        case BOSS =>
          ghost var cutOff: bool;
          perm, cutOff := RunBoss(sc);
        case SP => perm := Sp(sc);
        case GSP => perm := Gsp3(sc);
      }
      sc.Evaluate(perm);
      return Ok(perm), start;
    }

    /**
     * One BOSS run (boss): single-variable moves, then triangle reorientations,
     * repeated while the triangle step raises the score. The model stops after
     * roundLimit rounds; with empty knowledge every round but the last raises
     * the score, so a bound of at least the number of orders is never reached.
     */
    method RunBoss(scorer: TeyssierScorer) returns (r: seq<Node>, ghost cutOff: bool)
      requires scorer.Valid()
      modifies scorer
      ensures scorer.Valid() && r == scorer.order
      ensures knowledge.IsEmpty() ==> scorer.Score() >= old(scorer.Score())
      ensures knowledge.IsEmpty() && roundLimit >= |Perms(scorer.model.variables)| ==> !cutOff
    {
      ghost var start := scorer.order;
      ghost var vars, f := scorer.model.variables, scorer.model.scoreOf;
      var rounds := 0;
      cutOff := true;
      HigherBelowCount(vars, f, scorer.order);
      while rounds < roundLimit
        invariant scorer.Valid()
        invariant knowledge.IsEmpty() ==> scorer.Score() >= f(start)
        invariant knowledge.IsEmpty() ==> rounds + |Higher(vars, f, scorer.order)| < |Perms(vars)|
        invariant cutOff
      {
        ghost var before := scorer.order;
        BossLoop(scorer);
        var s := scorer.Score();
        TriangleLoop(scorer);
        if scorer.Score() <= s {
          cutOff := false;
          break;
        }
        if knowledge.IsEmpty() {
          HigherShrinks(vars, f, before, scorer.order);
        }
        rounds := rounds + 1;
      }
      r := scorer.order;
    }

    /**
     * Passes over all variables, each moved to its best position, until a pass
     * no longer raises the score (bossLoop). Starting from an order that
     * respects the knowledge, the result respects it and scores no lower.
     */
    method BossLoop(scorer: TeyssierScorer)
      requires scorer.Valid()
      modifies scorer
      ensures scorer.Valid()
      ensures Respects(knowledge, old(scorer.order)) ==>
        Respects(knowledge, scorer.order) && scorer.Score() >= old(scorer.Score())
      ensures scorer.order == old(scorer.order) || Respects(knowledge, scorer.order)
    {
      scorer.Bookmark(DefaultKey);
      ghost var start := scorer.order;
      while true
        invariant scorer.Valid() && DefaultKey in scorer.bookmarks
        invariant scorer.order == scorer.bookmarks[DefaultKey]
        invariant Respects(knowledge, start) ==>
          Respects(knowledge, scorer.order) && scorer.Score() >= scorer.model.scoreOf(start)
        invariant scorer.order == start || Respects(knowledge, scorer.order)
        decreases |Higher(scorer.model.variables, scorer.model.scoreOf, scorer.order)|
      {
        var s0 := scorer.Score();
        ghost var before := scorer.order;
        BossPass(scorer);
        if !(scorer.Score() > s0) {
          break;
        }
        HigherShrinks(scorer.model.variables, scorer.model.scoreOf, before, scorer.order);
      }
    }

    /** One pass of bossLoop over a snapshot of the order. */
    method BossPass(scorer: TeyssierScorer)
      requires scorer.Valid() && DefaultKey in scorer.bookmarks
      requires scorer.order == scorer.bookmarks[DefaultKey]
      modifies scorer`order, scorer`bookmarks
      ensures scorer.Valid() && DefaultKey in scorer.bookmarks
      ensures scorer.order == scorer.bookmarks[DefaultKey]
      ensures Respects(knowledge, old(scorer.order)) ==>
        Respects(knowledge, scorer.order) && scorer.Score() >= old(scorer.Score())
      ensures scorer.order == old(scorer.order) || Respects(knowledge, scorer.order)
    {
      ghost var start := scorer.order;
      ghost var f := scorer.model.scoreOf;
      var vs := scorer.order;
      var s := NegInf;
      var iv := 0;
      while iv < |vs|
        invariant 0 <= iv <= |vs|
        invariant scorer.Valid() && DefaultKey in scorer.bookmarks && scorer.model.scoreOf == f
        invariant scorer.order == scorer.bookmarks[DefaultKey]
        invariant iv == 0 ==> s == NegInf
        invariant s == NegInf ==> scorer.order == start
        invariant s != NegInf ==> s == Fin(f(scorer.order)) && Respects(knowledge, scorer.order)
        invariant iv > 0 && Respects(knowledge, start) ==> s != NegInf && f(scorer.order) >= f(start)
      {
        var v := vs[iv];
        assert v in multiset(scorer.order);
        ghost var o0 := scorer.order;
        ghost var s0 := s;
        ghost var marked, at;
        scorer.OrderIsDistinct();
        s, marked, at := ScanPlacements(scorer, v, s);
        OwnPlacementBounded(f, knowledge, o0, v, s);
        scorer.GoToBookmark(DefaultKey);
        if s == s0 {
          assert scorer.order == o0;
          assert Respects(knowledge, o0) ==> s != NegInf;
        } else {
          assert scorer.order == marked && s == Fin(f(marked)) && Above(f(marked), s0);
          if s0 == NegInf {
            assert o0 == start;
          } else {
            assert f(marked) > f(o0);
          }
        }
        iv := iv + 1;
      }
    }

    /**
     * The inner loop of bossLoop for one variable v: v goes to every index from
     * the last to the first, and an order is bookmarked when it beats the best
     * score s so far and respects the knowledge. The returned best is at least
     * the score of every placement of v that respects the knowledge.
     */
    method ScanPlacements(scorer: TeyssierScorer, v: Node, s: ExtReal)
      returns (best: ExtReal, ghost marked: seq<Node>, ghost at: int)
      requires scorer.Valid() && v in scorer.order && DefaultKey in scorer.bookmarks
      modifies scorer`order, scorer`bookmarks
      ensures scorer.Valid() && DefaultKey in scorer.bookmarks
      ensures scorer.order == MovedTo(old(scorer.order), v, 0)
      ensures best == s ==> scorer.bookmarks[DefaultKey] == old(scorer.bookmarks[DefaultKey])
      ensures best != s ==>
        best.Fin? && Above(best.r, s) && scorer.bookmarks[DefaultKey] == marked
        && scorer.model.scoreOf(marked) == best.r && Respects(knowledge, marked)
        && 0 <= at < |old(scorer.order)| && marked == MovedTo(old(scorer.order), v, at)
      ensures NoBetterFrom(scorer.model.scoreOf, knowledge, Without(old(scorer.order), v), v, 0, best)
    {
      ghost var o0 := scorer.order;
      ghost var b0 := scorer.bookmarks[DefaultKey];
      ghost var rest, k0 := Without(o0, v), IndexOf(o0, v);
      scorer.OrderIsDistinct();
      WithoutAndBack(o0, v);
      marked, at := o0, 0;
      var i := |scorer.order| - 1;
      best := s;
      while i >= 0
        invariant -1 <= i <= |rest|
        invariant scorer.Valid() && DefaultKey in scorer.bookmarks
        invariant ScanState(scorer.model.scoreOf, knowledge, rest, v, k0, s, b0, i, scorer.order,
                            scorer.bookmarks[DefaultKey], best, marked, at)
        decreases i + 1
      {
        best, marked, at := PlaceAndKeep(scorer, v, i, best, rest, k0, s, b0, marked, at);
        i := i - 1;
      }
      assert i == -1;
      ScanEnd(scorer.model.scoreOf, knowledge, o0, v, s, b0, scorer.order, scorer.bookmarks[DefaultKey], best, marked, at);
    }

    /** One step of that loop: v moves to index i, and the order is kept when it is better. */
    method PlaceAndKeep(scorer: TeyssierScorer, v: Node, i: nat, best: ExtReal, ghost rest: seq<Node>, ghost k0: nat,
                        ghost s: ExtReal, ghost b0: seq<Node>, ghost marked: seq<Node>, ghost at: int)
      returns (nb: ExtReal, ghost marked': seq<Node>, ghost at': int)
      requires scorer.Valid() && DefaultKey in scorer.bookmarks && v !in rest && i <= |rest|
      requires ScanState(scorer.model.scoreOf, knowledge, rest, v, k0, s, b0, i, scorer.order,
                         scorer.bookmarks[DefaultKey], best, marked, at)
      modifies scorer`order, scorer`bookmarks
      ensures scorer.Valid() && DefaultKey in scorer.bookmarks
      ensures ScanState(scorer.model.scoreOf, knowledge, rest, v, k0, s, b0, i - 1, scorer.order,
                        scorer.bookmarks[DefaultKey], nb, marked', at')
    {
      ghost var order, mark := scorer.order, scorer.bookmarks[DefaultKey];
      MovedToPlacement(rest, if i == |rest| then k0 else i + 1, v, i);
      scorer.MoveTo(v, i);
      nb := KeepIfBetter(scorer, best);
      marked', at' := if nb == best then marked else scorer.order, if nb == best then at else i;
      ScanStep(scorer.model.scoreOf, knowledge, rest, v, k0, s, b0, i, order, mark, best, marked, at, scorer.order,
               scorer.bookmarks[DefaultKey], nb, marked', at');
    }

    /**
     * Bookmarks the current order when it scores above best and respects the
     * knowledge, and returns the new best.
     */
    method KeepIfBetter(scorer: TeyssierScorer, best: ExtReal) returns (nb: ExtReal)
      requires scorer.Valid() && DefaultKey in scorer.bookmarks
      modifies scorer`bookmarks
      ensures scorer.Valid() && DefaultKey in scorer.bookmarks
      ensures nb == best ==> scorer.bookmarks[DefaultKey] == old(scorer.bookmarks[DefaultKey])
      ensures nb != best ==>
        nb == Fin(scorer.Score()) && Above(nb.r, best)
        && scorer.bookmarks[DefaultKey] == scorer.order && Respects(knowledge, scorer.order)
      ensures Respects(knowledge, scorer.order) ==> !Above(scorer.Score(), nb)
    {
      nb := best;
      var sc := scorer.Score();
      if Above(sc, best) {
        var ok := SatisfiesKnowledge(knowledge, scorer.order);
        if ok {
          nb := Fin(sc);
          scorer.Bookmark(DefaultKey);
        }
      }
    }

    /**
     * Tries to raise the score by reorienting triangles (triangleLoop). As in
     * the source, the inner index stops before 0, so the first variable of the
     * order is never paired.
     */
    method TriangleLoop(scorer: TeyssierScorer)
      requires scorer.Valid()
      modifies scorer
      ensures scorer.Valid()
      ensures depth == 0 ==> scorer.order == old(scorer.order)
      ensures scorer.Score() > old(scorer.Score()) || scorer.order == old(scorer.order)
    {
      if depth == 0 {
        return;
      }
      var path := new PairSet();
      var d := if depth == -1 then IntMax else depth;
      var s := scorer.Score();
      ghost var o0 := scorer.order;
      var i := |scorer.order| - 1;
      while i >= 0
        invariant i < |o0|
        invariant fresh(path) && path.elems == {}
        invariant scorer.Valid() && scorer.order == o0
      {
        var j := i - 1;
        while j > 0
          invariant j < i
          invariant fresh(path) && path.elems == {}
          invariant scorer.Valid() && scorer.order == o0
        {
          var x := scorer.order[i];
          var y := scorer.order[j];
          if scorer.Adjacent(x, y) {
            var zz := TrianglePairs(scorer, x, y);
            forall p | p in zz ensures p.0 in scorer.model.variables && p.1 in scorer.model.variables {
              assert p.0 in multiset(scorer.order) && p.1 in multiset(scorer.order);
            }
            var order := scorer.order;
            TriangleVisit(scorer, zz, path, d);
            if scorer.Score() > s {
              return;
            }
            scorer.Evaluate(order);
          }
          j := j - 1;
        }
        i := i - 1;
      }
    }

    /**
     * Depth-first search over sequences of swaps from zz (triangleVisit): it
     * returns as soon as the score has risen, and otherwise restores the order.
     */
    method TriangleVisit(scorer: TeyssierScorer, zz: seq<(Node, Node)>, path: PairSet, depth: int)
      requires scorer.Valid()
      requires forall p | p in zz :: p.0 in scorer.model.variables && p.1 in scorer.model.variables
      requires forall p | p in path.elems :: p in zz
      modifies scorer`order, path
      ensures scorer.Valid() && path.elems == old(path.elems)
      ensures scorer.Score() > old(scorer.Score()) || scorer.order == old(scorer.order)
      decreases |Elems(zz) - path.elems|
    {
      if |path.elems| > depth {
        return;
      }
      var score := scorer.Score();
      var order := scorer.order;
      ghost var p0 := path.elems;
      var k := 0;
      while k < |zz|
        invariant 0 <= k <= |zz|
        invariant scorer.Valid() && path.elems == p0 && scorer.order == order
      {
        var z := zz[k];
        if z !in path.elems {
          assert z.0 in multiset(scorer.order) && z.1 in multiset(scorer.order);
          scorer.Swap(z.0, z.1);
          path.elems := path.elems + {z};
          ghost var p1 := path.elems;
          assert p1 - {z} == p0;
          assert z in Elems(zz) - p0;
          SubsetSize(Elems(zz) - p1, Elems(zz) - p0);
          TriangleVisit(scorer, zz, path, depth);
          path.elems := path.elems - {z};
          if scorer.Score() > score {
            return;
          }
          scorer.Evaluate(order);
        }
        k := k + 1;
      }
    }

    /**
     * Reverses the edge between x and y (flip): the child moves to the index
     * of its parent. Afterwards an adjacent pair is in the opposite relative order.
     */
    method Flip(scorer: TeyssierScorer, x: Node, y: Node)
      requires scorer.Valid() && scorer.model.Sound() && x in scorer.order && y in scorer.order
      modifies scorer`order
      ensures scorer.Valid() && x in scorer.order && y in scorer.order
      ensures y in old(scorer.Parents(x)) ==>
        scorer.order == MovedTo(old(scorer.order), x, IndexOf(old(scorer.order), y))
      ensures y !in old(scorer.Parents(x)) && x in old(scorer.Parents(y)) ==>
        scorer.order == MovedTo(old(scorer.order), y, IndexOf(old(scorer.order), x))
      ensures y !in old(scorer.Parents(x)) && x !in old(scorer.Parents(y)) ==>
        scorer.order == old(scorer.order)
      ensures old(scorer.Adjacent(x, y)) ==>
        (IndexOf(scorer.order, x) < IndexOf(scorer.order, y) <==>
         IndexOf(old(scorer.order), y) < IndexOf(old(scorer.order), x))
    {
      scorer.OrderIsDistinct();
      if y in scorer.Parents(x) {
        MoveInFront(scorer.order, x, y);
        scorer.MoveTo(x, IndexOf(scorer.order, y));
      } else if x in scorer.Parents(y) {
        MoveInFront(scorer.order, y, x);
        scorer.MoveTo(y, IndexOf(scorer.order, x));
      }
    }

    /**
     * The exhaustive search (sp): scores every order of the variables, in the
     * generator's order, and keeps the first one of maximal score.
     */
    method Sp(scorer: TeyssierScorer) returns (best: seq<Node>)
      requires scorer.Valid()
      modifies scorer`order
      ensures scorer.Valid() && IsPermOf(best, scorer.model.variables)
      ensures forall p | IsPermOf(p, old(scorer.order)) :: scorer.model.scoreOf(p) <= scorer.model.scoreOf(best)
      ensures FirstMaximum(scorer.model.scoreOf, Perms(old(scorer.order)), best)
    {
      var f := scorer.model.scoreOf;
      var vars := scorer.order;
      var perms := Perms(vars);
      var maxScore := NegInf;
      best := vars;
      ghost var m := 0;
      var k := 0;
      while k < |perms|
        invariant 0 <= k <= |perms|
        invariant scorer.Valid() && IsPermOf(best, scorer.model.variables)
        invariant k == 0 <==> maxScore == NegInf
        invariant k > 0 ==> maxScore == Fin(f(best)) && 0 <= m < k && perms[m] == best
        invariant k > 0 ==> forall i | 0 <= i < m :: f(perms[i]) < f(best)
        invariant k > 0 ==> forall i | 0 <= i < k :: f(perms[i]) <= f(best)
      {
        var p := perms[k];
        PermsSound(vars, p);
        scorer.Evaluate(p);
        if Above(scorer.Score(), maxScore) {
          maxScore := Fin(scorer.Score());
          best := p;
          m := k;
        }
        k := k + 1;
      }
      PermsComplete(vars, vars);
      forall p | IsPermOf(p, vars) ensures f(p) <= f(best) {
        PermsComplete(vars, p);
      }
    }

    /** GSP from the current order (gsp3): all pairs of variables are candidate edges. */
    method Gsp3(scorer: TeyssierScorer) returns (r: seq<Node>)
      requires scorer.Valid() && scorer.model.Sound()
      modifies scorer
      ensures scorer.Valid() && IsPermOf(r, scorer.model.variables)
      ensures scorer.model.scoreOf(r) >= old(scorer.Score())
      ensures r == old(scorer.order) || scorer.model.scoreOf(r) > old(scorer.Score())
    {
      var edges := OrderPairs(scorer.order);
      forall e | e in edges ensures e.0 in scorer.model.variables && e.1 in scorer.model.variables {
        assert e.0 in multiset(scorer.order) && e.1 in multiset(scorer.order);
      }
      var path := new PairList();
      r := Gsp3Visit(scorer, None, scorer.order, edges, path);
    }

    /**
     * Depth-first walk over covered-edge reversals (gsp3Visit). A reversal is
     * followed when it does not lower the score; the result is the best order
     * met, and the path is restored on return.
     */
    method Gsp3Visit(scorer: TeyssierScorer, edge: Option<(Node, Node)>, order: seq<Node>,
                     edges: seq<(Node, Node)>, path: PairList) returns (r: seq<Node>)
      requires scorer.Valid() && scorer.model.Sound() && IsPermOf(order, scorer.model.variables)
      requires forall e | e in edges :: e.0 in scorer.model.variables && e.1 in scorer.model.variables
      requires edge.Some? ==> edge.value in edges
      requires forall e | e in path.items :: e in edges
      modifies scorer`order, path
      ensures scorer.Valid() && path.items == old(path.items)
      ensures IsPermOf(r, scorer.model.variables)
      ensures scorer.model.scoreOf(r) >= scorer.model.scoreOf(order)
      ensures r == order || scorer.model.scoreOf(r) > scorer.model.scoreOf(order)
      decreases |Elems(edges) - Elems(path.items)|, if edge.None? then 1 else 0
    {
      var f := scorer.model.scoreOf;
      ghost var vars := scorer.model.variables;
      ghost var all := Elems(edges);
      ghost var p0 := path.items;
      if edge.Some? {
        if edge.value in path.items {
          return order;
        }
        path.items := path.items + [edge.value];
      }
      ghost var p1 := path.items;
      if edge.Some? {
        assert edge.value in all - Elems(p0) && edge.value !in all - Elems(p1);
      }
      SubsetSize(all - Elems(p1), all - Elems(p0));
      scorer.Evaluate(order);
      var newOrder := scorer.order;
      var newScore := scorer.Score();
      var k := 0;
      while k < |edges|
        invariant 0 <= k <= |edges|
        invariant scorer.Valid() && scorer.model.variables == vars && scorer.model.scoreOf == f && path.items == p1
        invariant IsPermOf(newOrder, vars) && newScore == f(newOrder)
        invariant newScore >= f(order) && (newOrder == order || newScore > f(order))
      {
        var x, y := edges[k].0, edges[k].1;
        assert x in multiset(scorer.order) && y in multiset(scorer.order);
        if Covered(scorer, x, y) {
          scorer.Evaluate(order);
          assert x in multiset(scorer.order) && y in multiset(scorer.order);
          Flip(scorer, x, y);
          if scorer.Score() >= newScore {
            var o := Gsp3Visit(scorer, Some(edges[k]), scorer.order, edges, path);
            scorer.Evaluate(o);
            if scorer.Score() > newScore {
              newScore := scorer.Score();
              newOrder := scorer.order;
            }
          }
        }
        k := k + 1;
      }
      if edge.Some? {
        RemoveFirstAppended(p0, edge.value);
        path.items := RemoveFirst(path.items, edge.value);
      }
      r := newOrder;
    }
  }
}
