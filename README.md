# Order searches, BFCI, PC-All and the degenerate Gaussian test, in Dafny

This project models five search components of the Tetrad causal-discovery
library and proves properties of the model.

- **BOSS** (`Boss.java`) and the **best order score search**
  (`BestOrderScoreSearch.java`) search over causal orders of the variables.
  Both drive a permutation scorer (`TeyssierScorer`) that holds the current
  order and a set of bookmarked orders. They move single variables, swap
  neighbours, reverse covered edges, enumerate every order, and restart from
  shuffled orders. BOSS maximises the score. The best order score search
  minimises it.
- **BFCI** (`Bfci.java`) orients the graph BOSS finds, in this order:
  - every mark is reset to a circle;
  - background knowledge is applied;
  - unshielded colliders are copied from the BOSS graph;
  - a swap-and-rescore probe finds triples (b, c, d);
  - the edge b - d of each such triple is removed and b *-> c <-* d is oriented;
  - the result is flagged as a PAG.
- **PC-All** (`PcAll.java`) runs an adjacency search and then the orientation
  pipeline `E`. The MPC variant (`kpartial`) removes edges after that, and an
  optional Markov loop of at most ten rounds adds and removes edges while the
  local Markov condition fails.
- **The degenerate Gaussian likelihood-ratio test**
  (`IndTestDegenerateGaussianLRT.java`) embeds mixed data into continuous
  columns: one column per continuous variable, and one indicator column per
  discrete level except the last new one. It selects the rows with no missing
  value and decides independence from two likelihood differences and their
  degrees of freedom.

The modules are:

| module | file | contents |
|---|---|---|
| `Base` | base.dfy | Nodes, results, options, extended reals, background knowledge, sequence helpers |
| `Orders` | orders.dfy | Permutations, the scorer's moves, the enumeration of every order, termination measures |
| `Scoring` | scorer.dfy | The scorer as a class over a score model |
| `BossSearch` | boss.dfy | BOSS |
| `BestOrderSearch` | bestorder.dfy | The best order score search |
| `Graphs` | graphs.dfy | An endpoint graph as a value: a map from ordered node pairs to the mark at the second node |
| `BfciSearch` | bfci.dfy | BFCI: the BOSS run it configures, and the phases after it |
| `PcAllSearch` | pcall.dfy | PC-All |
| `DegenerateGaussianLrt` | degenerate.dfy | The degenerate Gaussian test |

The searches change the scorer in place, so they are methods on classes with
`modifies` clauses. Each method is proved against specification functions and
predicates, for example:
- `FirstMaximum` and `FirstMinimum` (the first best of the enumerated orders);
- `LeftmostMin` (the leftmost best placement of a variable);
- `NoBetterFrom` (no placement that respects the knowledge scores higher);
- `ProbesB` (the triples the probe finds);
- `Cleaned` (what the triple clean-up leaves);
- `CompleteRows` and `Decide` for the degenerate test.

Graphs are values that the methods reassign. The pieces of code that are not
part of this model become const function fields of the class that uses them:
- the scorer's score, parents and Markov blankets;
- the independence test;
- FAS, knowledge orientation, collider orientation and the Meek rules;
- the final FCI orientation and the CPDAG of an order;
- the log likelihood and the chi-squared tail.

`TeyssierScorer.java` is not part of this model. `Scoring.TeyssierScorer`
gives it the contracts the searches rely on. For example, `moveTo`
places v at index i and keeps the rest in order, `swap` exchanges two
variables, and `goToBookmark` restores exactly the order that was bookmarked.

Three places where the code does something a reader may not expect; the model follows the code:
- `Bfci.search` takes the BOSS graph from the scorer's current order, which is
  the last run's order rather than the best one. `BfciSearch.Bfci.Search` states
  the BOSS graph as the CPDAG of the last run (or of the data order when there are no runs).
- `Boss.triangleLoop` stops its inner index before 0 (`j > -0`), so the first
  variable of the order is never paired. `BossSearch.Boss.TriangleLoop` does the same.
- In the degenerate test, the covariance over a subset of rows (`getCov`) is
  not centred, but the covariance over all rows is. The likelihood collaborator
  is given the rows, so it can cover both.

## Model

| member | source | states |
|---|---|---|
| BossSearch.SatisfiesKnowledge | tetrad-lib/src/main/java/edu/cmu/tetrad/search/Boss.java:141-153 | The answer is true exactly when no forbidden edge leads from a variable to one placed after it; with empty knowledge this always holds |
| BossSearch.MakeValidKnowledgeOrder | tetrad-lib/src/main/java/edu/cmu/tetrad/search/Boss.java:121-139 | The result, when there is one, is a permutation of the order; with empty knowledge it is the order unchanged. With knowledge and at least 32 variables the sort may throw IllegalArgumentException, and nowhere else |
| BossSearch.CoveredIsTextbook | tetrad-lib/src/main/java/edu/cmu/tetrad/search/Boss.java:498-506 | For a parent v of w, `covered(v, w)` holds exactly when Pa(w) = Pa(v) + {v} |
| BossSearch.OrderPairs | tetrad-lib/src/main/java/edu/cmu/tetrad/search/Boss.java:403-409 | Every pair (order[i], order[j]) with i < j is listed, and every listed pair is such a pair |
| BossSearch.TrianglePairs | tetrad-lib/src/main/java/edu/cmu/tetrad/search/Boss.java:266-273 | ZZ holds (x, z) and (y, z) exactly for the z that complete a triangle with x and y |
| BossSearch.NoBetterPlacementAll | tetrad-lib/src/main/java/edu/cmu/tetrad/search/Boss.java:190-204 | After the scan, no placement of v that respects the knowledge scores above the best found |
| BossSearch.FirstBestExtend | tetrad-lib/src/main/java/edu/cmu/tetrad/search/Boss.java:99-104 | A new run replaces the best order only when it scores strictly higher, so the best is the input order or the earliest run to beat it, and no later run beats it |
| BossSearch.FirstBestBounds | tetrad-lib/src/main/java/edu/cmu/tetrad/search/Boss.java:99-104 | The result of the strict-improvement selection scores at least as high as the input order and as every run |
| BossSearch.SpBestIsOptimal | tetrad-lib/src/main/java/edu/cmu/tetrad/search/Boss.java:508-527 | With SP and at least one run, the selected order scores at least as high as every order of the variables |
| BossSearch.TrackedStep | tetrad-lib/src/main/java/edu/cmu/tetrad/search/Boss.java:101-104 | A run replaces the best order only when it scores strictly higher; the best stays FirstBest of the input order and the runs, each of which keeps what its method promises |
| BossSearch.Boss.constructor | tetrad-lib/src/main/java/edu/cmu/tetrad/search/Boss.java:31-50 | One start, method BOSS, depth -1, empty knowledge, no data-order first run, no scorer yet |
| BossSearch.Boss.SetDepth | tetrad-lib/src/main/java/edu/cmu/tetrad/search/Boss.java:601-605 | A depth below -1 is refused with IllegalArgument and nothing changes; otherwise the depth is stored |
| BossSearch.Boss.SetMaxNumTriangles | tetrad-lib/src/main/java/edu/cmu/tetrad/search/Boss.java:593-595 | A count below -1 is refused; nothing is stored either way |
| BossSearch.Boss.BestOrder | tetrad-lib/src/main/java/edu/cmu/tetrad/search/Boss.java:52-115 | A GraphScore without a test is refused; the knowledge sort may throw only with knowledge and at least 32 variables. Otherwise there are max(numStarts, 0) runs, each a permutation that keeps what its method promises from its start; the result is the first run to strictly beat the input order, or the input order; with SP and a run it scores at least as high as every order; the scorer is left on the last run |
| BossSearch.Boss.OneStart | tetrad-lib/src/main/java/edu/cmu/tetrad/search/Boss.java:75-99 | The run ends on a permutation of the variables and leaves the scorer on it. From the knowledge-sorted start, SP returns an order no other order beats, and GSP, and BOSS with empty knowledge, one scoring no lower than the start. Only the knowledge sort can fail |
| BossSearch.Boss.RunBoss | tetrad-lib/src/main/java/edu/cmu/tetrad/search/Boss.java:155-181 | With empty knowledge the score never falls, and a round bound at least the number of orders is never reached, because every repeated round strictly raises the score |
| BossSearch.Boss.BossLoop | tetrad-lib/src/main/java/edu/cmu/tetrad/search/Boss.java:183-212 | Starting from an order that respects the knowledge, the result respects it and scores no lower; any order it moves to respects the knowledge |
| BossSearch.Boss.BossPass | tetrad-lib/src/main/java/edu/cmu/tetrad/search/Boss.java:190-206 | One pass over a snapshot of the order keeps the order equal to the bookmark and keeps respecting the knowledge without lowering the score |
| BossSearch.Boss.ScanPlacements | tetrad-lib/src/main/java/edu/cmu/tetrad/search/Boss.java:191-204 | v ends at index 0; the bookmark changes only to a placement that respects the knowledge and strictly beats s; no placement that respects the knowledge scores above the returned best |
| BossSearch.Boss.PlaceAndKeep | tetrad-lib/src/main/java/edu/cmu/tetrad/search/Boss.java:192-201 | Moving v to index i and bookmarking when it is better keeps the scan's state, one index further left |
| BossSearch.Boss.KeepIfBetter | tetrad-lib/src/main/java/edu/cmu/tetrad/search/Boss.java:195-200 | The bookmark moves exactly when the order strictly beats best and respects the knowledge; the new best bounds the current order |
| BossSearch.Boss.TriangleLoop | tetrad-lib/src/main/java/edu/cmu/tetrad/search/Boss.java:253-295 | At depth 0 nothing changes; otherwise the score strictly rises or the order is as before |
| BossSearch.Boss.TriangleVisit | tetrad-lib/src/main/java/edu/cmu/tetrad/search/Boss.java:297-319 | The score strictly rises or the order is restored, and the path is as it was on entry |
| BossSearch.Boss.Flip | tetrad-lib/src/main/java/edu/cmu/tetrad/search/Boss.java:452-458 | If y is a parent of x, x moves to y's index; else if x is a parent of y, y moves to x's index; else nothing changes. For an adjacent pair, the relative order is reversed |
| BossSearch.Boss.Sp | tetrad-lib/src/main/java/edu/cmu/tetrad/search/Boss.java:508-527 | The result is a permutation scoring at least as high as every permutation, and it is the first maximum in generation order |
| BossSearch.Boss.Gsp3 | tetrad-lib/src/main/java/edu/cmu/tetrad/search/Boss.java:402-412 | The result is a permutation that scores no lower than the start, and it is the start unless it scores strictly higher |
| BossSearch.Boss.Gsp3Visit | tetrad-lib/src/main/java/edu/cmu/tetrad/search/Boss.java:414-450 | The same for the given order, and the path is restored on return |
| BestOrderSearch.MbGraphUnique | tetrad-lib/src/main/java/edu/cmu/tetrad/search/BestOrderScoreSearch.java:264-276 | The Markov-blanket graph of an order is determined by the order |
| BestOrderSearch.MbGraphClosed | tetrad-lib/src/main/java/edu/cmu/tetrad/search/BestOrderScoreSearch.java:264-276 | Every edge of the Markov-blanket graph joins two of its nodes |
| BestOrderSearch.LeftmostMinUnique | tetrad-lib/src/main/java/edu/cmu/tetrad/search/BestOrderScoreSearch.java:104-117 | The leftmost best placement of a variable is unique |
| BestOrderSearch.FirstMinimumExtend | tetrad-lib/src/main/java/edu/cmu/tetrad/search/BestOrderScoreSearch.java:70-73 | A new candidate wins only with a strictly lower score, so the first minimum is kept |
| BestOrderSearch.SpBestIsOptimal | tetrad-lib/src/main/java/edu/cmu/tetrad/search/BestOrderScoreSearch.java:70-73 | With SP, the first minimum of the runs scores no higher than any order of the variables |
| BestOrderSearch.TrackedStep | tetrad-lib/src/main/java/edu/cmu/tetrad/search/BestOrderScoreSearch.java:70-73 | A run becomes the best when it is the first or scores strictly lower; the best stays the first minimum of the runs, each of which keeps what its method promises |
| BestOrderSearch.BestOrderScoreSearch.constructor | tetrad-lib/src/main/java/edu/cmu/tetrad/search/BestOrderScoreSearch.java:22-35 | Caching on, one start, PROMOTION, no CPDAG, gsp depth -1 |
| BestOrderSearch.BestOrderScoreSearch.SetCachingScores | tetrad-lib/src/main/java/edu/cmu/tetrad/search/BestOrderScoreSearch.java:278-280 | Stores the flag |
| BestOrderSearch.BestOrderScoreSearch.SetNumStarts | tetrad-lib/src/main/java/edu/cmu/tetrad/search/BestOrderScoreSearch.java:282-284 | Stores the count unchecked |
| BestOrderSearch.BestOrderScoreSearch.SetMethod | tetrad-lib/src/main/java/edu/cmu/tetrad/search/BestOrderScoreSearch.java:290-292 | Stores the method |
| BestOrderSearch.BestOrderScoreSearch.SetGspDepth | tetrad-lib/src/main/java/edu/cmu/tetrad/search/BestOrderScoreSearch.java:294-297 | Stores the depth |
| BestOrderSearch.BestOrderScoreSearch.SetReturnCpdag | tetrad-lib/src/main/java/edu/cmu/tetrad/search/BestOrderScoreSearch.java:303-305 | Stores the flag |
| BestOrderSearch.BestOrderScoreSearch.Search | tetrad-lib/src/main/java/edu/cmu/tetrad/search/BestOrderScoreSearch.java:37-90 | Fails with a null pointer exactly when there are no starts; otherwise there are numStarts runs, each a permutation keeping what its method promises from its shuffled start, and the result is the Markov-blanket graph of the first run of minimal score; with SP that run scores no higher than any order |
| BestOrderSearch.BestOrderScoreSearch.OneStart | tetrad-lib/src/main/java/edu/cmu/tetrad/search/BestOrderScoreSearch.java:54-68 | From a shuffled start, the scorer ends on an order that keeps what the chosen method promises |
| BestOrderSearch.BestOrderScoreSearch.RunMethod | tetrad-lib/src/main/java/edu/cmu/tetrad/search/BestOrderScoreSearch.java:58-68 | SP ends on an order no other order beats; GSP does not raise the edge count; every other method does not raise the score |
| BestOrderSearch.BestOrderScoreSearch.Promotion | tetrad-lib/src/main/java/edu/cmu/tetrad/search/BestOrderScoreSearch.java:93-126 | The score never rises, and the passes end because each repeated pass strictly lowers it |
| BestOrderSearch.BestOrderScoreSearch.PromoteOne | tetrad-lib/src/main/java/edu/cmu/tetrad/search/BestOrderScoreSearch.java:105-117 | v ends at the leftmost best placement at or left of its index (ties go left, by `<=`), and the score does not rise |
| BestOrderSearch.BestOrderScoreSearch.PromoteStep | tetrad-lib/src/main/java/edu/cmu/tetrad/search/BestOrderScoreSearch.java:109-114 | One move left keeps the scan's leftmost-minimum state, and it moves exactly when v is not first |
| BestOrderSearch.BestOrderScoreSearch.StepLeft | tetrad-lib/src/main/java/edu/cmu/tetrad/search/BestOrderScoreSearch.java:114 | moveLeft takes v from index j to j - 1 unless j is 0, and reports whether it moved |
| BestOrderSearch.BestOrderScoreSearch.StepRight | tetrad-lib/src/main/java/edu/cmu/tetrad/search/BestOrderScoreSearch.java:150 | moveRight takes v from index j to j + 1 unless it is last, and reports whether it moved |
| BestOrderSearch.BestOrderScoreSearch.KeepIfNoHigher | tetrad-lib/src/main/java/edu/cmu/tetrad/search/BestOrderScoreSearch.java:110-113 | Bookmarks exactly when the score is no higher than the best |
| BestOrderSearch.BestOrderScoreSearch.AllIndices | tetrad-lib/src/main/java/edu/cmu/tetrad/search/BestOrderScoreSearch.java:128-161 | The score never rises, and the passes end because each repeated pass strictly lowers it |
| BestOrderSearch.BestOrderScoreSearch.PlaceBest | tetrad-lib/src/main/java/edu/cmu/tetrad/search/BestOrderScoreSearch.java:140-153 | v ends at its leftmost best placement over all indices (a later index wins only when strictly lower), and the score does not rise |
| BestOrderSearch.BestOrderScoreSearch.PlaceFirst | tetrad-lib/src/main/java/edu/cmu/tetrad/search/BestOrderScoreSearch.java:141-147 | v goes first and that order is bookmarked with its score as the best: the scan's starting state, with v's placement recorded |
| BestOrderSearch.BestOrderScoreSearch.PlaceRightward | tetrad-lib/src/main/java/edu/cmu/tetrad/search/BestOrderScoreSearch.java:145-150 | The do-while ends with v last and the bookmark on v's leftmost strictly-best placement over all indices |
| BestOrderSearch.BestOrderScoreSearch.PlaceStep | tetrad-lib/src/main/java/edu/cmu/tetrad/search/BestOrderScoreSearch.java:145-150 | One move right keeps the scan's leftmost-minimum state at the index it returns; it moves exactly when v is not last, and otherwise nothing changes |
| BestOrderSearch.BestOrderScoreSearch.KeepIfLower | tetrad-lib/src/main/java/edu/cmu/tetrad/search/BestOrderScoreSearch.java:146-149 | Bookmarks exactly when the score is strictly lower than the best |
| BestOrderSearch.BestOrderScoreSearch.Esp | tetrad-lib/src/main/java/edu/cmu/tetrad/search/BestOrderScoreSearch.java:163-173 | The score does not rise, and the loop ends because each repeated visit strictly lowers it |
| BestOrderSearch.BestOrderScoreSearch.VisitEsp | tetrad-lib/src/main/java/edu/cmu/tetrad/search/BestOrderScoreSearch.java:175-192 | The visit returns its input or a permutation of strictly lower score, with its true score |
| BestOrderSearch.BestOrderScoreSearch.Gsp | tetrad-lib/src/main/java/edu/cmu/tetrad/search/BestOrderScoreSearch.java:194-204 | The edge count never rises |
| BestOrderSearch.BestOrderScoreSearch.GspVisit | tetrad-lib/src/main/java/edu/cmu/tetrad/search/BestOrderScoreSearch.java:206-237 | The edge count strictly falls or the order is as before, and the path is restored |
| BestOrderSearch.BestOrderScoreSearch.TrySwap | tetrad-lib/src/main/java/edu/cmu/tetrad/search/BestOrderScoreSearch.java:210-235 | A covered edge whose ends are off the path is swapped; the swap stays only when the edge count strictly fell, and is otherwise undone by a second swap |
| BestOrderSearch.BestOrderScoreSearch.Descend | tetrad-lib/src/main/java/edu/cmu/tetrad/search/BestOrderScoreSearch.java:225-227 | v is on the path only for the deeper visit |
| BestOrderSearch.BestOrderScoreSearch.Sp | tetrad-lib/src/main/java/edu/cmu/tetrad/search/BestOrderScoreSearch.java:243-262 | The scorer is left on the first permutation of minimal score in generation order, which scores no higher than any permutation |
| BestOrderSearch.BestOrderScoreSearch.GetGraph | tetrad-lib/src/main/java/edu/cmu/tetrad/search/BestOrderScoreSearch.java:264-276 | The graph has exactly the order's nodes and exactly an edge z -> order[p] for each z in the blanket of p |
| Scoring.TeyssierScorer.MoveTo | tetrad-lib/src/main/java/edu/cmu/tetrad/search/Boss.java:192 | v lands at index i and the others keep their relative order |
| Scoring.TeyssierScorer.Swap | tetrad-lib/src/main/java/edu/cmu/tetrad/search/Bfci.java:152 | v and w exchange places |
| Scoring.TeyssierScorer.MoveLeft | tetrad-lib/src/main/java/edu/cmu/tetrad/search/BestOrderScoreSearch.java:114 | Moves v one place left and answers true exactly when v was not first |
| Scoring.TeyssierScorer.MoveRight | tetrad-lib/src/main/java/edu/cmu/tetrad/search/BestOrderScoreSearch.java:150 | Moves v one place right and answers true exactly when v was not last |
| Scoring.TeyssierScorer.Bookmark | tetrad-lib/src/main/java/edu/cmu/tetrad/search/Bfci.java:150 | Remembers the current order under the key |
| Scoring.TeyssierScorer.GoToBookmark | tetrad-lib/src/main/java/edu/cmu/tetrad/search/Bfci.java:158 | Restores exactly the remembered order |
| Scoring.TeyssierScorer.ShuffleVariables | tetrad-lib/src/main/java/edu/cmu/tetrad/search/Boss.java:76-80 | Leaves some permutation of the variables |
| Scoring.TeyssierScorer.Evaluate | tetrad-lib/src/main/java/edu/cmu/tetrad/search/Boss.java:85 | The scorer is set to exactly the given permutation, and stays well formed |
| Base.ListOf | tetrad-lib/src/main/java/edu/cmu/tetrad/search/PcAll.java:300 | The members of a set, each once, in an unspecified order, as iterating a hash set visits them |
| Orders.MovedToPerm | tetrad-lib/src/main/java/edu/cmu/tetrad/search/Boss.java:192 | A move yields a permutation of the order |
| Orders.SwappedPerm | tetrad-lib/src/main/java/edu/cmu/tetrad/search/Bfci.java:152 | A swap yields a permutation of the order |
| Orders.SwapTwice | tetrad-lib/src/main/java/edu/cmu/tetrad/search/BestOrderScoreSearch.java:222-234 | Swapping the same two variables again restores the order |
| Orders.MoveUndone | tetrad-lib/src/main/java/edu/cmu/tetrad/search/Boss.java:192 | The inverse of moveTo: moving v back to its old index restores the order exactly |
| Orders.MoveInFront | tetrad-lib/src/main/java/edu/cmu/tetrad/search/Boss.java:453-456 | Moving x to the index of an earlier y puts x immediately in front of y |
| Orders.PermsExactly | tetrad-lib/src/main/java/edu/cmu/tetrad/search/Boss.java:513-524 | The generator lists p exactly when p is a permutation of the variables |
| Orders.HigherShrinks | tetrad-lib/src/main/java/edu/cmu/tetrad/search/Boss.java:173-178 | A strictly better order has strictly fewer orders above it, which bounds the rounds of a maximising loop |
| Orders.LowerShrinks | tetrad-lib/src/main/java/edu/cmu/tetrad/search/BestOrderScoreSearch.java:119-124 | A strictly lower order has strictly fewer orders below it, which bounds the passes of a minimising loop |
| Orders.HigherBelowCount | tetrad-lib/src/main/java/edu/cmu/tetrad/search/Boss.java:173-178 | Fewer orders score above any order than there are orders |
| BfciSearch.Distinct4Pairwise | tetrad-lib/src/main/java/edu/cmu/tetrad/search/Bfci.java:212-221 | The four-element set has four members exactly when the nodes are pairwise different |
| BfciSearch.ConfigurationInOrder | tetrad-lib/src/main/java/edu/cmu/tetrad/search/Bfci.java:201-210 | In a configuration all four nodes are in the order, and the collider comes after both of its parents |
| BfciSearch.OrientKnowledgeEdge | tetrad-lib/src/main/java/edu/cmu/tetrad/search/Bfci.java:351-365 | A knowledge edge between adjacent variables gets the two marks; otherwise the graph is unchanged |
| BfciSearch.OrientKnowledgeEdges | tetrad-lib/src/main/java/edu/cmu/tetrad/search/Bfci.java:347-366 | Every knowledge edge is applied once, in the iterator's order |
| BfciSearch.OrientAllUntouched | tetrad-lib/src/main/java/edu/cmu/tetrad/search/Bfci.java:347-386 | A mark on no listed pair keeps its value |
| BfciSearch.OrientAllListed | tetrad-lib/src/main/java/edu/cmu/tetrad/search/Bfci.java:347-386 | A listed edge whose reverse is not listed ends with its two marks, whatever else is listed |
| BfciSearch.FciOrientbk | tetrad-lib/src/main/java/edu/cmu/tetrad/search/Bfci.java:344-389 | The forbidden edges are applied first (arrowhead at from, circle at to), then the required ones (tail at from, arrowhead at to) |
| BfciSearch.RequiredWins | tetrad-lib/src/main/java/edu/cmu/tetrad/search/Bfci.java:368-386 | For any iteration order, a required edge between adjacent variables, not contradicted, ends as from --> to whatever is forbidden |
| BfciSearch.ForbiddenOrients | tetrad-lib/src/main/java/edu/cmu/tetrad/search/Bfci.java:347-366 | A forbidden edge with no other knowledge on the pair ends with an arrowhead at from and a circle at to |
| BfciSearch.KnowledgeElsewhere | tetrad-lib/src/main/java/edu/cmu/tetrad/search/Bfci.java:344-389 | Marks on pairs the knowledge does not mention are unchanged |
| BfciSearch.CopyColliderPair | tetrad-lib/src/main/java/edu/cmu/tetrad/search/Bfci.java:119-127 | An unshielded a - b - c that is a collider in the BOSS graph gets arrowheads at b from a and c |
| BfciSearch.CopyCollidersFrom | tetrad-lib/src/main/java/edu/cmu/tetrad/search/Bfci.java:119-127 | Every later c of the list is tried with a |
| BfciSearch.CopyCollidersAt | tetrad-lib/src/main/java/edu/cmu/tetrad/search/Bfci.java:116-128 | Afterwards exactly the nodes of an unshielded BOSS collider at b have an arrowhead at b |
| BfciSearch.AllJustifiedMarked | tetrad-lib/src/main/java/edu/cmu/tetrad/search/Bfci.java:118-128 | Trying every pair of the list marks every such node |
| BfciSearch.CopyColliders | tetrad-lib/src/main/java/edu/cmu/tetrad/search/Bfci.java:115-129 | Along the order, every mark is an arrowhead where a copied collider puts one and as before elsewhere |
| BfciSearch.ProbeOne | tetrad-lib/src/main/java/edu/cmu/tetrad/search/Bfci.java:149-159 | The answer is the probe predicate, and the scorer's order is restored |
| BfciSearch.ProbeAllD | tetrad-lib/src/main/java/edu/cmu/tetrad/search/Bfci.java:148-160 | The triples found for fixed a, b and c, with the order restored |
| BfciSearch.ProbeAllC | tetrad-lib/src/main/java/edu/cmu/tetrad/search/Bfci.java:147-161 | The triples found for fixed a and b, with the order restored |
| BfciSearch.ProbeAllA | tetrad-lib/src/main/java/edu/cmu/tetrad/search/Bfci.java:146-162 | The triples found for fixed b, with the order restored |
| BfciSearch.FindTriples | tetrad-lib/src/main/java/edu/cmu/tetrad/search/Bfci.java:139-163 | The listed triples are exactly those the probe finds, and the scorer is back on perm |
| BfciSearch.FoundTripleMeaning | tetrad-lib/src/main/java/edu/cmu/tetrad/search/Bfci.java:149-156 | A found (b, c, d): distinct nodes, c a parent of b, d adjacent to b; after swapping b and c the score is equal, d is not adjacent to b, and d -> c <- b |
| BfciSearch.RemoveTripleEdges | tetrad-lib/src/main/java/edu/cmu/tetrad/search/Bfci.java:165-170 | Exactly the edges b - d of the triples are removed |
| BfciSearch.OrientTriples | tetrad-lib/src/main/java/edu/cmu/tetrad/search/Bfci.java:172-181 | b *-> c <-* d exactly for the triples whose edges b - c and d - c remain |
| BfciSearch.Flagged | tetrad-lib/src/main/java/edu/cmu/tetrad/search/Bfci.java:194-196 | The result is a PAG without the BIC attribute, otherwise unchanged |
| BfciSearch.CirclesElsewhere | tetrad-lib/src/main/java/edu/cmu/tetrad/search/Bfci.java:112-181 | With no knowledge, a mark is an arrowhead exactly where collider copying or triple orientation put one, and a circle elsewhere |
| BfciSearch.RequiredInPre | tetrad-lib/src/main/java/edu/cmu/tetrad/search/Bfci.java:368-386 | In the graph before the final orientation, a required edge from --> to that survives keeps its arrowhead at to; the mark at from is a tail unless a copied collider or a found triple put an arrowhead there |
| BfciSearch.ForbiddenInPre | tetrad-lib/src/main/java/edu/cmu/tetrad/search/Bfci.java:347-366 | In the graph before the final orientation, a forbidden edge from --> to that survives, with no required knowledge on the pair, has an arrowhead at from; the mark at to is a circle unless a copied collider or a found triple put an arrowhead there |
| BfciSearch.OrientPhases | tetrad-lib/src/main/java/edu/cmu/tetrad/search/Bfci.java:110-181 | The adjacencies are the BOSS graph's minus the triples' b - d. Every mark is the one left by circling, the forbidden then required knowledge (fs, rs list exactly the knowledge) and the collider copying, except that the triples' arrowheads are added; with no knowledge the marks are as in CirclesElsewhere |
| BfciSearch.CircleAndCopy | tetrad-lib/src/main/java/edu/cmu/tetrad/search/Bfci.java:110-129 | The adjacencies are unchanged. The marks are those of the circled BOSS graph after the forbidden then the required knowledge (fs, rs list exactly the knowledge), with an arrowhead at b copied wherever a *-> b <-* c is a BOSS collider over non-adjacent a, c |
| BfciSearch.AtTriples | tetrad-lib/src/main/java/edu/cmu/tetrad/search/Bfci.java:165-181 | Removal, then orientation at the triples |
| BfciSearch.Bfci.constructor | tetrad-lib/src/main/java/edu/cmu/tetrad/search/Bfci.java:52-80 | Empty knowledge, basic rule set, path length and degree -1, no starts, score used, depth -1 |
| BfciSearch.Bfci.SetMaxDegree | tetrad-lib/src/main/java/edu/cmu/tetrad/search/Bfci.java:238-245 | Below -1 is refused with IllegalArgument and nothing changes; otherwise stored |
| BfciSearch.Bfci.SetMaxPathLength | tetrad-lib/src/main/java/edu/cmu/tetrad/search/Bfci.java:289-295 | Below -1 is refused with IllegalArgument and nothing changes; otherwise stored |
| BfciSearch.Bfci.SetKnowledge | tetrad-lib/src/main/java/edu/cmu/tetrad/search/Bfci.java:251-257 | Null is refused with a null pointer exception; otherwise stored |
| BfciSearch.Bfci.SetDepth | tetrad-lib/src/main/java/edu/cmu/tetrad/search/Bfci.java:423-425 | Stored unchecked |
| BfciSearch.Bfci.SetNumStarts | tetrad-lib/src/main/java/edu/cmu/tetrad/search/Bfci.java:399-401 | Stored |
| BfciSearch.Bfci.SetUseScore | tetrad-lib/src/main/java/edu/cmu/tetrad/search/Bfci.java:419-421 | Stored |
| BfciSearch.Bfci.SetCompleteRuleSetUsed | tetrad-lib/src/main/java/edu/cmu/tetrad/search/Bfci.java:273-275 | Stored |
| BfciSearch.Bfci.ProbeTriples | tetrad-lib/src/main/java/edu/cmu/tetrad/search/Bfci.java:131-163 | A fresh scorer at the order finds exactly the probe's triples |
| BfciSearch.Bfci.Search | tetrad-lib/src/main/java/edu/cmu/tetrad/search/Bfci.java:83-199 | Fails when the depth is below -1, and otherwise only when the BOSS knowledge sort throws. Otherwise perm is the first best of the BOSS runs, with empty knowledge each run scores no lower than its start, and the BOSS graph is the CPDAG of the last run. The result is the flagged final orientation of a graph with the BOSS adjacencies minus the found triples' b - d, where the triples are exactly the probe's; its marks are those of the circled BOSS graph after the knowledge and the collider copying, plus the triples' arrowheads (so RequiredInPre and ForbiddenInPre apply to it), and with no knowledge they are circles except the copied and oriented arrowheads |
| PcAllSearch.ArrowpointAllowedMonotone | tetrad-lib/src/main/java/edu/cmu/tetrad/search/PcAll.java:446-490 | An arrowhead is allowed exactly when the knowledge is null or neither requires to -> from nor forbids from -> to; more knowledge allows fewer |
| PcAllSearch.MutualBoundary | tetrad-lib/src/main/java/edu/cmu/tetrad/search/PcAll.java:388-404 | Two different nodes are in each other's boundary exactly when their edge is undirected |
| PcAllSearch.NonMarkovMembers | tetrad-lib/src/main/java/edu/cmu/tetrad/search/PcAll.java:406-419 | x is listed exactly when it is a node that is not y, not a descendant of y, not in y's boundary, and dependent on y given it |
| PcAllSearch.NonMarkov | tetrad-lib/src/main/java/edu/cmu/tetrad/search/PcAll.java:406-420 | The loop lists the non-Markov nodes in the graph's order |
| PcAllSearch.NonMarkovEmpty | tetrad-lib/src/main/java/edu/cmu/tetrad/search/PcAll.java:422-435 | True exactly when nonMarkov is empty |
| PcAllSearch.NonMarkovContainsIff | tetrad-lib/src/main/java/edu/cmu/tetrad/search/PcAll.java:437-444 | For a node of the graph, true exactly when x is in nonMarkov |
| PcAllSearch.AdjacencyPartition | tetrad-lib/src/main/java/edu/cmu/tetrad/search/PcAll.java:206-216 | Every pair of nodes is an edge of G or a non-adjacency, never both |
| PcAllSearch.KpartialRemoveEdge | tetrad-lib/src/main/java/edu/cmu/tetrad/search/PcAll.java:629-636 | Refused when a and c are not adjacent; an edge into a is removed; c - a becomes a -> c; otherwise no change; no other pair changes |
| PcAllSearch.Cleaned | tetrad-lib/src/main/java/edu/cmu/tetrad/search/PcAll.java:552-573 | No underline triple remains; an ambiguous triple stays exactly when its marks do not resolve it; a null pointer when one of its edges is missing |
| PcAllSearch.CleanedIdempotent | tetrad-lib/src/main/java/edu/cmu/tetrad/search/PcAll.java:552-573 | Cleaning twice is cleaning once |
| PcAllSearch.RemoveUnnecessaryMarks | tetrad-lib/src/main/java/edu/cmu/tetrad/search/PcAll.java:552-573 | The two loops compute Cleaned |
| PcAllSearch.RemoveUnderlines | tetrad-lib/src/main/java/edu/cmu/tetrad/search/PcAll.java:555-557 | Every underline triple is removed, nothing else changes |
| PcAllSearch.DropIfResolved | tetrad-lib/src/main/java/edu/cmu/tetrad/search/PcAll.java:559-572 | One triple is dropped exactly when its marks resolve it |
| PcAllSearch.Recollide | tetrad-lib/src/main/java/edu/cmu/tetrad/search/PcAll.java:310-317 | The result is Recollided: the candidates in turn, each made a collider when it is not one yet and the test says it is |
| PcAllSearch.Recollided | tetrad-lib/src/main/java/edu/cmu/tetrad/search/PcAll.java:310-317 | The candidates folded in turn keep the nodes and adjacencies, and change marks only on edges between x or y and a candidate |
| PcAllSearch.RecollidedFrame | tetrad-lib/src/main/java/edu/cmu/tetrad/search/PcAll.java:310-317 | A mark on any other edge is left as it was |
| PcAllSearch.RecollidedOutcome | tetrad-lib/src/main/java/edu/cmu/tetrad/search/PcAll.java:310-317 | Each candidate z ends as x -> z <- y, or with its four marks between z and x, y as they were |
| PcAllSearch.MakeCollider | tetrad-lib/src/main/java/edu/cmu/tetrad/search/PcAll.java:312-315 | x -> z <- y, with no adjacency changed and no mark changed other than the four between z and x, y |
| PcAllSearch.PrunedRemove | tetrad-lib/src/main/java/edu/cmu/tetrad/search/PcAll.java:612-613 | Removing a directed edge keeps the graph a pruning of the start |
| PcAllSearch.AsList | tetrad-lib/src/main/java/edu/cmu/tetrad/search/PcAll.java:362-370 | The nodes at the chosen indices, in order; an index out of range fails |
| PcAllSearch.PcAll.constructor | tetrad-lib/src/main/java/edu/cmu/tetrad/search/PcAll.java:44-78 | Depth 1000, no Markov loop, SEPSETS, empty knowledge, no graph and no sepsets |
| PcAllSearch.PcAll.SetDepth | tetrad-lib/src/main/java/edu/cmu/tetrad/search/PcAll.java:128-139 | Refused exactly for a depth below -1 or Integer.MAX_VALUE, and nothing changes then; otherwise stored |
| PcAllSearch.PcAll.SetDoMarkovLoop | tetrad-lib/src/main/java/edu/cmu/tetrad/search/PcAll.java:194-196 | Stored, nothing else changes |
| PcAllSearch.PcAll.SetColliderDiscovery | tetrad-lib/src/main/java/edu/cmu/tetrad/search/PcAll.java:112-114 | Stored, nothing else changes |
| PcAllSearch.PcAll.SetKnowledge | tetrad-lib/src/main/java/edu/cmu/tetrad/search/PcAll.java:158-160 | Stored, nothing else changes |
| PcAllSearch.PcAll.GetAdjacencies | tetrad-lib/src/main/java/edu/cmu/tetrad/search/PcAll.java:206-208 | Fails before a search; otherwise one edge per adjacency of G, with its marks |
| PcAllSearch.PcAll.GetNonadjacencies | tetrad-lib/src/main/java/edu/cmu/tetrad/search/PcAll.java:210-216 | Fails before a search; otherwise exactly an undirected edge per non-adjacent pair of G's nodes |
| PcAllSearch.PcAll.E | tetrad-lib/src/main/java/edu/cmu/tetrad/search/PcAll.java:345-360 | The pipeline's result carries clean triple marks |
| PcAllSearch.PcAll.EForgetsMarks | tetrad-lib/src/main/java/edu/cmu/tetrad/search/PcAll.java:345-360 | E depends only on the nodes and adjacencies of its input |
| PcAllSearch.PcAll.ECleanedTwice | tetrad-lib/src/main/java/edu/cmu/tetrad/search/PcAll.java:345-351 | Cleaning E's result again changes nothing |
| PcAllSearch.PcAll.FindAdjacencies | tetrad-lib/src/main/java/edu/cmu/tetrad/search/PcAll.java:493-524 | FAS starts from G when there is one, else the initial graph; G and the sepsets are FAS's |
| PcAllSearch.PcAll.AddRow | tetrad-lib/src/main/java/edu/cmu/tetrad/search/PcAll.java:287-297 | If nothing is added, every listed non-adjacent x is Markov for y and the graph G holds is g; otherwise it is cleanly marked, also when a call fails part-way |
| PcAllSearch.PcAll.AddPass | tetrad-lib/src/main/java/edu/cmu/tetrad/search/PcAll.java:286-298 | If nothing is added, every listed non-adjacent pair is Markov and the graph G holds is g; otherwise it is cleanly marked, also when a call fails part-way |
| PcAllSearch.PcAll.RemoveStep | tetrad-lib/src/main/java/edu/cmu/tetrad/search/PcAll.java:300-322 | The trial graph is h without x - y, recollided at the common neighbours of x and y with the search's collider test; the removal is kept, through E, exactly when neither y nor x has a non-Markov node in it |
| PcAllSearch.PcAll.RemovePass | tetrad-lib/src/main/java/edu/cmu/tetrad/search/PcAll.java:300-323 | Unchanged, or a cleanly marked graph; the graph G holds after a failure is g when nothing was removed before it, and cleanly marked otherwise |
| PcAllSearch.PcAll.MarkovLoop | tetrad-lib/src/main/java/edu/cmu/tetrad/search/PcAll.java:276-325 | One to ten rounds, every round but the last changed something, and when it stops before ten every listed pair is Markov; when the first round changes nothing the input graph is returned, and it is Markov. The graph G holds, also after a failure, is g or cleanly marked |
| PcAllSearch.CommonPruned | tetrad-lib/src/main/java/edu/cmu/tetrad/search/PcAll.java:601-618 | For a pair a, b found independent given Z: every c outside Z with c -> a and c -> b and a, c and c, b dependent given Z loses its edges to a and b, every other pair keeps its marks, only directed edges go; it fails (IllegalArgument) exactly when a == b and such a c exists |
| PcAllSearch.PcAll.PruneCandidate | tetrad-lib/src/main/java/edu/cmu/tetrad/search/PcAll.java:603-615 | One common neighbour c: it is pruned exactly when it meets the removal condition, failing exactly when it does and a == b, and then G holds g without c -> a; otherwise the graph is the start without the pairs of the pruned neighbours so far |
| PcAllSearch.PcAll.SubsetsPruned | tetrad-lib/src/main/java/edu/cmu/tetrad/search/PcAll.java:594-617 | The conditioning sets in the generator's order, CommonPruned on each that separates a and b: only directed edges are removed; a failure is a bad index list or a == b |
| PcAllSearch.PcAll.PairPruned | tetrad-lib/src/main/java/edu/cmu/tetrad/search/PcAll.java:588-617 | The pair (i, j): the sets of the other test variables up to size depth; only directed edges are removed; a failure is a bad index or a repeated variable |
| PcAllSearch.PcAll.FromPruned | tetrad-lib/src/main/java/edu/cmu/tetrad/search/PcAll.java:587-619 | The pairs (i, j) for j from j on, the first failure stopping; only directed edges are removed |
| PcAllSearch.PcAll.AllPruned | tetrad-lib/src/main/java/edu/cmu/tetrad/search/PcAll.java:586-620 | Every pair i < j in index order, the first failure stopping; only directed edges are removed |
| PcAllSearch.PcAll.KpartialOf | tetrad-lib/src/main/java/edu/cmu/tetrad/search/PcAll.java:575-626 | E of the FAS graph, then AllPruned, then Meek; the first failure stops it; a success is the Meek closure of a pruned E result |
| PcAllSearch.PcAll.OrientedOf | tetrad-lib/src/main/java/edu/cmu/tetrad/search/PcAll.java:240-245 | Kpartial with MPC, otherwise E of the FAS graph; non-MPC results are cleanly marked |
| PcAllSearch.PcAll.PruneCommon | tetrad-lib/src/main/java/edu/cmu/tetrad/search/PcAll.java:601-618 | Equals CommonPruned for the graph so far; only directed edges of the start are removed; a failure needs a == b, and then G holds g without c -> a for a c meeting the removal condition, still a pruning of the start |
| PcAllSearch.PcAll.RemoveBoth | tetrad-lib/src/main/java/edu/cmu/tetrad/search/PcAll.java:612-613 | c -> a and c -> b are gone; it fails exactly when a == b, and then G holds h without c -> a, the first removal having been made in place |
| PcAllSearch.PcAll.PrunePair | tetrad-lib/src/main/java/edu/cmu/tetrad/search/PcAll.java:588-620 | Equals PairPruned: CommonPruned over every set of the other test variables up to size depth that separates a and b, in the generator's order; only directed edges are removed; a failure is a bad index or a repeated variable. The graph G holds, also after a failure, is a pruning of the start |
| PcAllSearch.PcAll.PruneFrom | tetrad-lib/src/main/java/edu/cmu/tetrad/search/PcAll.java:587-621 | Equals FromPruned: PrunePair for every j after i in order, the first failure stopping; only directed edges are removed; the graph G holds, also after a failure, is a pruning of g |
| PcAllSearch.PcAll.PruneAll | tetrad-lib/src/main/java/edu/cmu/tetrad/search/PcAll.java:586-622 | Equals AllPruned: every pair i < j in index order; the graph G holds, also after a failure, is a pruning of g |
| PcAllSearch.PcAll.PruneAndClose | tetrad-lib/src/main/java/edu/cmu/tetrad/search/PcAll.java:584-627 | From start = E of the FAS graph: the result is the Meek closure of AllPruned of start and is left in G; after a failure G holds the pruning of start reached before the throw |
| PcAllSearch.PcAll.Kpartial | tetrad-lib/src/main/java/edu/cmu/tetrad/search/PcAll.java:575-627 | Switches to CPC and runs FAS; the result equals KpartialOf of the FAS graph: start is E of it, pruned is AllPruned of start (so exactly CommonPruned's removals, pair by pair), and the result is the Meek closure of pruned. After a failure G is the FAS graph when E threw, and otherwise the pruning of E's result reached before the throw |
| PcAllSearch.PcAll.Orient | tetrad-lib/src/main/java/edu/cmu/tetrad/search/PcAll.java:240-245 | The result is OrientedOf the old collider method (kpartial with MPC, FAS then E otherwise) and is left in G; FAS starts from G or the initial graph; after a failure G is the FAS graph when E threw, and with MPC otherwise a pruning of E's result |
| PcAllSearch.PcAll.MarkovPhase | tetrad-lib/src/main/java/edu/cmu/tetrad/search/PcAll.java:249-255 | Refused with SEPSETS, leaving G as it was; otherwise the Markov loop's guarantees (one to ten rounds, g itself when the first round changes nothing, every pair Markov when it stops early) with its result in G, and after a failure G holds g or a cleanly marked graph |
| PcAllSearch.PcAll.Search | tetrad-lib/src/main/java/edu/cmu/tetrad/search/PcAll.java:222-274 | Refuses nodes outside the test's variables. Otherwise FAS starts from G or the initial graph and before is OrientedOf the old collider method; without the Markov loop, or when before failed, the result is before; the loop with SEPSETS is refused; with the loop the result is MarkovLoop's (one to ten rounds, before itself when the first round changes nothing, every pair Markov when it stops early). MPC switches to CPC; non-MPC results are cleanly marked. After a failure G is what Orient leaves, the refused loop leaves before in G, and a failed loop leaves before or a cleanly marked graph |
| DegenerateGaussianLrt.Levels | tetrad-lib/src/main/java/edu/cmu/tetrad/search/IndTestDegenerateGaussianLRT.java:138-147 | The levels are distinct and exactly the observed codes |
| DegenerateGaussianLrt.Indicator | tetrad-lib/src/main/java/edu/cmu/tetrad/search/IndTestDegenerateGaussianLRT.java:145-148 | 1 in the rows holding the level, 0 elsewhere |
| DegenerateGaussianLrt.VarColumns | tetrad-lib/src/main/java/edu/cmu/tetrad/search/IndTestDegenerateGaussianLRT.java:135-176 | A variable contributes Width(v) columns |
| DegenerateGaussianLrt.DiscreteColumns | tetrad-lib/src/main/java/edu/cmu/tetrad/search/IndTestDegenerateGaussianLRT.java:137-149 | One indicator column per level, in the order first seen, keyed from start |
| DegenerateGaussianLrt.ScanRow | tetrad-lib/src/main/java/edu/cmu/tetrad/search/IndTestDegenerateGaussianLRT.java:138-149 | One row keeps the columns equal to the partial indicators |
| DegenerateGaussianLrt.NoteLevel | tetrad-lib/src/main/java/edu/cmu/tetrad/search/IndTestDegenerateGaussianLRT.java:141-147 | A new level gets the next key and a zero column |
| DegenerateGaussianLrt.MarkRow | tetrad-lib/src/main/java/edu/cmu/tetrad/search/IndTestDegenerateGaussianLRT.java:148 | A 1 in row j of the column of row j's level |
| DegenerateGaussianLrt.Embed | tetrad-lib/src/main/java/edu/cmu/tetrad/search/IndTestDegenerateGaussianLRT.java:129-178 | With rows the result is the embedding of every variable, one index list per variable; it can fail, with an index error, only when there are no rows |
| DegenerateGaussianLrt.EmbedOne | tetrad-lib/src/main/java/edu/cmu/tetrad/search/IndTestDegenerateGaussianLRT.java:133-177 | Variable p's columns are appended and its indices are those from its offset |
| DegenerateGaussianLrt.DiscreteStep | tetrad-lib/src/main/java/edu/cmu/tetrad/search/IndTestDegenerateGaussianLRT.java:135-160 | The kept indicator columns are appended, and the variable's indices are exactly the new column numbers |
| DegenerateGaussianLrt.ValuesOf | tetrad-lib/src/main/java/edu/cmu/tetrad/search/IndTestDegenerateGaussianLRT.java:159 | The map's values, one per key |
| DegenerateGaussianLrt.KeptColumns | tetrad-lib/src/main/java/edu/cmu/tetrad/search/IndTestDegenerateGaussianLRT.java:151-157 | Dropping the last new column leaves the variable's columns |
| DegenerateGaussianLrt.KeptIndices | tetrad-lib/src/main/java/edu/cmu/tetrad/search/IndTestDegenerateGaussianLRT.java:154-159 | The kept keys name exactly the new columns, one each |
| DegenerateGaussianLrt.WidthIsDimension | tetrad-lib/src/main/java/edu/cmu/tetrad/search/IndTestDegenerateGaussianLRT.java:135-176 | One column for a continuous variable, levels - 1 for a discrete one |
| DegenerateGaussianLrt.ColumnCount | tetrad-lib/src/main/java/edu/cmu/tetrad/search/IndTestDegenerateGaussianLRT.java:129-185 | The column count is #continuous plus the sum of (levels - 1) |
| DegenerateGaussianLrt.OffsetMonotone | tetrad-lib/src/main/java/edu/cmu/tetrad/search/IndTestDegenerateGaussianLRT.java:129-178 | Later variables get columns further right |
| DegenerateGaussianLrt.ColumnsPrefix | tetrad-lib/src/main/java/edu/cmu/tetrad/search/IndTestDegenerateGaussianLRT.java:129-178 | The first variables' columns come first |
| DegenerateGaussianLrt.EmbeddingsDisjoint | tetrad-lib/src/main/java/edu/cmu/tetrad/search/IndTestDegenerateGaussianLRT.java:129-178 | Different variables have disjoint embeddings |
| DegenerateGaussianLrt.EmbeddingCovers | tetrad-lib/src/main/java/edu/cmu/tetrad/search/IndTestDegenerateGaussianLRT.java:129-185 | Every column belongs to some variable |
| DegenerateGaussianLrt.FirstBeyond | tetrad-lib/src/main/java/edu/cmu/tetrad/search/IndTestDegenerateGaussianLRT.java:129-178 | Each column index lies in exactly the range of some earlier variable |
| DegenerateGaussianLrt.ColumnOfVariable | tetrad-lib/src/main/java/edu/cmu/tetrad/search/IndTestDegenerateGaussianLRT.java:129-178 | Column Offset(p) + q is in p's embedding and holds p's q-th column |
| DegenerateGaussianLrt.ColumnAt | tetrad-lib/src/main/java/edu/cmu/tetrad/search/IndTestDegenerateGaussianLRT.java:129-178 | The same for the column list alone |
| DegenerateGaussianLrt.IndicatorColumns | tetrad-lib/src/main/java/edu/cmu/tetrad/search/IndTestDegenerateGaussianLRT.java:138-149 | A kept column is 1 exactly in the rows of its level, and rows of the dropped level are 0 in every column |
| DegenerateGaussianLrt.KeptAndDropped | tetrad-lib/src/main/java/edu/cmu/tetrad/search/IndTestDegenerateGaussianLRT.java:151-157 | The dropped level is not kept, and kept plus dropped are all the levels |
| DegenerateGaussianLrt.DroppedLastNew | tetrad-lib/src/main/java/edu/cmu/tetrad/search/IndTestDegenerateGaussianLRT.java:141-157 | The dropped level is the last new one: when it first appears every kept level has been seen |
| DegenerateGaussianLrt.CompleteRowsMeaning | tetrad-lib/src/main/java/edu/cmu/tetrad/search/IndTestDegenerateGaussianLRT.java:463-480 | Row k is listed exactly when k < N and no listed variable is missing there (NaN or -99); rows ascend |
| DegenerateGaussianLrt.CompleteRowsSameVars | tetrad-lib/src/main/java/edu/cmu/tetrad/search/IndTestDegenerateGaussianLRT.java:244-249 | Which rows are complete depends only on which variables are listed |
| DegenerateGaussianLrt.DofCount | tetrad-lib/src/main/java/edu/cmu/tetrad/search/IndTestDegenerateGaussianLRT.java:214 | The division is exact; the dof is w(w+1)/2 + w·b and never negative |
| DegenerateGaussianLrt.DofDifference | tetrad-lib/src/main/java/edu/cmu/tetrad/search/IndTestDegenerateGaussianLRT.java:268-276 | Adding x to the parents adds |x|·|y| dof |
| DegenerateGaussianLrt.ParentColumnsAppend | tetrad-lib/src/main/java/edu/cmu/tetrad/search/IndTestDegenerateGaussianLRT.java:200-202 | B grows by each parent's embedding in turn |
| DegenerateGaussianLrt.Clamp | tetrad-lib/src/main/java/edu/cmu/tetrad/search/IndTestDegenerateGaussianLRT.java:280-285 | At least 1, and a positive dof is kept |
| DegenerateGaussianLrt.DecideMeaning | tetrad-lib/src/main/java/edu/cmu/tetrad/search/IndTestDegenerateGaussianLRT.java:278-301 | Independent exactly when a likelihood difference is infinite or both p values exceed alpha; only then is no p value recorded |
| DegenerateGaussianLrt.MinExceeds | tetrad-lib/src/main/java/edu/cmu/tetrad/search/IndTestDegenerateGaussianLRT.java:300-301 | min(p0, p1) > alpha exactly when both exceed it, NaN included |
| DegenerateGaussianLrt.DecideSymmetric | tetrad-lib/src/main/java/edu/cmu/tetrad/search/IndTestDegenerateGaussianLRT.java:278-301 | Swapping the two directions changes nothing |
| DegenerateGaussianLrt.DecideMonotone | tetrad-lib/src/main/java/edu/cmu/tetrad/search/IndTestDegenerateGaussianLRT.java:301 | A smaller alpha judges independence at least as often |
| DegenerateGaussianLrt.DegenerateTest.constructor | tetrad-lib/src/main/java/edu/cmu/tetrad/search/IndTestDegenerateGaussianLRT.java:51-54 | Alpha 0.001, p value NaN, and the embedding's fields |
| DegenerateGaussianLrt.DegenerateTest.SideDof | tetrad-lib/src/main/java/edu/cmu/tetrad/search/IndTestDegenerateGaussianLRT.java:268-276 | Each compared dof is the product of the two variables' column counts, whatever z is |
| DegenerateGaussianLrt.DegenerateTest.JudgementSymmetric | tetrad-lib/src/main/java/edu/cmu/tetrad/search/IndTestDegenerateGaussianLRT.java:242-301 | x _||_ y given z is judged as y _||_ x given z, with the same p value |
| DegenerateGaussianLrt.DegenerateTest.GetRows | tetrad-lib/src/main/java/edu/cmu/tetrad/search/IndTestDegenerateGaussianLRT.java:463-480 | The complete rows, ascending, each below N |
| DegenerateGaussianLrt.DegenerateTest.RowComplete | tetrad-lib/src/main/java/edu/cmu/tetrad/search/IndTestDegenerateGaussianLRT.java:466-474 | True exactly when no listed variable is missing at row k |
| DegenerateGaussianLrt.DegenerateTest.GetLlDof | tetrad-lib/src/main/java/edu/cmu/tetrad/search/IndTestDegenerateGaussianLRT.java:197-214 | The dof is w(w+1)/2 + w·\|B\| for a target of w columns |
| DegenerateGaussianLrt.DegenerateTest.IsIndependent | tetrad-lib/src/main/java/edu/cmu/tetrad/search/IndTestDegenerateGaussianLRT.java:242-301 | The answer is the judgement at alpha; the p value is recorded unless a likelihood difference is infinite |
| DegenerateGaussianLrt.DegenerateTest.GetSide | tetrad-lib/src/main/java/edu/cmu/tetrad/search/IndTestDegenerateGaussianLRT.java:268-276 | One direction's likelihood and dof differences |
| DegenerateGaussianLrt.DegenerateTest.DecideStep | tetrad-lib/src/main/java/edu/cmu/tetrad/search/IndTestDegenerateGaussianLRT.java:278-301 | Computes Decide: infinite means independent, dofs clamped, a throwing distribution gives 0, then min > alpha |
| DegenerateGaussianLrt.DegenerateTest.IsDependent | tetrad-lib/src/main/java/edu/cmu/tetrad/search/IndTestDegenerateGaussianLRT.java:314-316 | The negation of the judgement, with the same p value update |
| DegenerateGaussianLrt.DegenerateTest.Determines | tetrad-lib/src/main/java/edu/cmu/tetrad/search/IndTestDegenerateGaussianLRT.java:364-366 | Always false |
| DegenerateGaussianLrt.DegenerateTest.IndTestSubset | tetrad-lib/src/main/java/edu/cmu/tetrad/search/IndTestDegenerateGaussianLRT.java:233-235 | Always UnsupportedOperation |
| DegenerateGaussianLrt.Create | tetrad-lib/src/main/java/edu/cmu/tetrad/search/IndTestDegenerateGaussianLRT.java:108-191 | Fails exactly when there are no rows (IndexOutOfBounds, from the embedding loop or the matrix constructor) or no embedded columns (IllegalArgument, the matrix constructor's zero dimension); otherwise the columns are the embedding, #continuous + sum(levels - 1) of them, at least one |

## Left out

- Logging, `System.out`, verbose output, elapsed time and print streams are not modelled.
- Floating point is not modelled. Scores are reals. The degenerate test's likelihoods are a `Double` datatype with NaN and infinities, and finite values have no rounding. The determinants, logarithms and the chi-squared distribution are collaborators given as functions. The covariance over a subset of rows (`getCov`) is not centred, unlike the full covariance; this is part of that collaborator.
- `TeyssierScorer`, `EdgeListGraph`, `Knowledge2`, FAS, `OrientColliders`, `MeekRules`, `FciOrient`, `SepsetsTeyssier`, `BicEst`, `PermutationGenerator`, `DepthChoiceGenerator` and Apache Commons Math's `BlockRealMatrix` are not part of this model. They are given by the contracts stated in `Scoring`, `Graphs` and `Orders`, or as function fields.
- Randomness: shuffling is modelled as "some permutation of the variables", and whether the knowledge sort throws as a nondeterministic choice.
- BossSearch.MakeValidKnowledgeOrder: the source sorts with a comparator that is not a total order, so a successful sort is modelled only as some permutation (the order itself when the knowledge is empty). Whether the library sort detects the inconsistency and throws depends on the data order and the sort's internals, so the model lets it throw or not, nondeterministically, whenever it could: with knowledge and at least 32 variables.
- Iteration over hash sets and hash maps (edges, triples, knowledge edges, map values) takes an arbitrary order. The results are stated for every order. `gsp3`'s hash set of pairs is taken in insertion order; the contract of `BossSearch.Boss.Gsp3Visit` holds for any order of the pairs.
- BossSearch.Boss.RunBoss: the source's outer loop has no bound. With non-empty knowledge it need not terminate: `bossLoop` may lower the score when it starts from an order that violates the knowledge. The model therefore stops after `roundLimit` rounds. It proves that, with empty knowledge, a limit of at least the number of orders is never reached.
- BossSearch.Boss.BestOrder: the model takes the score model as given and does not model the GraphScore instanceof check as a type; the `oracle` field says what the search was built from. The score-type, caching and parent-calculation settings only configure the scorer and are not modelled.
- Dead code in Boss.java is not modelled: `bossLoop2`, `gsp`, `gspLoop`, `gsp2` and `agsp` are never reached from `bestOrder`. The same goes for `getRows(int, int[])` in the degenerate test.
- BestOrderSearch.BestOrderScoreSearch.Search: the result is the Markov-blanket graph; its conversion to a CPDAG when `returnCpdag` is set (`SearchGraphUtils.patternForDag`) is not modelled.
- BfciSearch.Bfci.Search: the BOSS graph (`Boss.getGraph(true)`) and the final FCI orientation are collaborators. The BIC attribute that `getGraph` adds, and the removal of that attribute, are modelled only as a set of attribute names. Bfci's `setTriangleDepth` call is taken as `Boss.setDepth`. Bfci's `method` and `breakTies` are stored but never passed to BOSS; the score type and caching it passes only configure the scorer, and none of these is modelled.
- PcAllSearch.PcAll.E: what the knowledge, collider and Meek collaborators do is not modelled. Only the composition and the final clean-up are.
- PcAll's `printNonMarkovCounts`, the FAS and concurrency options, and the orientation alpha and conflict rule are not modelled: they only print or configure collaborators. The getters that throw `UnsupportedOperationException` are not modelled.
- Null arguments are not modelled, except where the source checks for them (`Bfci.setKnowledge`; the null list in the best order score search's restarts). The degenerate test's null data set and PcAll's null test are not modelled.
- In the degenerate test, nodes are variable indices. Node lookup by `indexOf` is not modelled, and the requires clauses restrict the variables to those of the data set.
- DegenerateGaussianLrt.DegenerateTest.GetLlDof: Java's 32-bit `int` arithmetic is not modelled; the dof is an unbounded integer.
- Test drivers, GUI editors and algorithm wrappers in the repository, `CStaSMulti` and `ZhangShenBoundScore` are not part of this model.
