/**
 * Causal orders: permutations of the variables, the moves the scorer makes
 * on them, the enumeration of every permutation used by the exhaustive
 * searches, and the measures that make score-improving searches terminate.
 */
module Orders {
  import opened Base

  /** p lists exactly the elements of s, each as often. */
  predicate IsPermOf(p: seq<Node>, s: seq<Node>)
  {
    multiset(p) == multiset(s)
  }

  /** s without v. */
  function Without(s: seq<Node>, v: Node): (r: seq<Node>)
    requires v in s
    ensures |r| == |s| - 1
  {
    RemoveAt(s, IndexOf(s, v))
  }

  /** s after moving v so that it lands at index i (the scorer's moveTo). */
  function MovedTo(s: seq<Node>, v: Node, i: nat): (r: seq<Node>)
    requires v in s && i < |s|
    ensures |r| == |s| && r[i] == v
  {
    InsertAt(Without(s, v), i, v)
  }

  /** s with v and w exchanging places (the scorer's swap). */
  function Swapped(s: seq<Node>, v: Node, w: Node): (r: seq<Node>)
    requires v in s && w in s
    ensures |r| == |s|
  {
    s[IndexOf(s, v) := w][IndexOf(s, w) := v]
  }

  // ---------------------------------------------------------------------
  // Distinctness and permutations

  lemma {:induction false} DistinctByCount(s: seq<Node>)
    ensures Distinct(s) <==> forall x :: multiset(s)[x] <= 1
  {
    if s != [] {
      var t := s[1..];
      assert s == [s[0]] + t;
      DistinctByCount(t);
      if Distinct(s) {
        assert Distinct(t) by {
          forall i, j | 0 <= i < j < |t| ensures t[i] != t[j] {
            assert t[i] == s[i + 1] && t[j] == s[j + 1];
          }
        }
      }
      if forall x :: multiset(s)[x] <= 1 {
        assert forall x :: multiset(t)[x] <= 1 by {
          forall x ensures multiset(t)[x] <= 1 {
            assert multiset(s)[x] == multiset(t)[x] + (if x == s[0] then 1 else 0);
          }
        }
        assert s[0] !in t by {
          assert multiset(s)[s[0]] == multiset(t)[s[0]] + 1;
        }
        forall i, j | 0 <= i < j < |s| ensures s[i] != s[j] {
          if i == 0 {
            assert s[j] == t[j - 1];
          } else {
            assert s[i] == t[i - 1] && s[j] == t[j - 1];
          }
        }
      }
    }
  }

  lemma DistinctPerm(p: seq<Node>, s: seq<Node>)
    requires Distinct(s) && IsPermOf(p, s)
    ensures Distinct(p)
  {
    DistinctByCount(s);
    DistinctByCount(p);
  }

  lemma {:induction false} MovedToPerm(s: seq<Node>, v: Node, i: nat)
    requires v in s && i < |s|
    ensures IsPermOf(MovedTo(s, v, i), s)
  {
    MultisetRemoveAt(s, IndexOf(s, v));
    MultisetInsertAt(Without(s, v), i, v);
  }

  lemma {:induction false} SwappedPerm(s: seq<Node>, v: Node, w: Node)
    requires v in s && w in s
    ensures IsPermOf(Swapped(s, v, w), s)
  {
    var kv, kw := IndexOf(s, v), IndexOf(s, w);
    var t := s[kv := w];
    assert multiset(t) == multiset(s) - multiset{v} + multiset{w};
    if kv == kw {
      assert v == w;
    } else {
      assert t[kw] == w;
      assert multiset(t[kw := v]) == multiset(t) - multiset{w} + multiset{v};
    }
  }

  // ---------------------------------------------------------------------
  // Moves

  /** Inserting v into a sequence without v and removing it again gives the sequence back. */
  lemma InsertThenWithout(r: seq<Node>, i: nat, v: Node)
    requires v !in r && i <= |r|
    ensures IndexOf(InsertAt(r, i, v), v) == i
    ensures Without(InsertAt(r, i, v), v) == r
  {
    var s := InsertAt(r, i, v);
    assert RemoveAt(s, i) == r;
  }

  /** A sequence without duplicates is its v-less rest with v put back where it was. */
  lemma WithoutAndBack(s: seq<Node>, v: Node)
    requires Distinct(s) && v in s
    ensures v !in Without(s, v)
    ensures s == InsertAt(Without(s, v), IndexOf(s, v), v)
  {
    var k := IndexOf(s, v);
    var r := Without(s, v);
    assert s == InsertAt(r, k, v);
  }

  /** Moving v within one of its placements gives another placement of v. */
  lemma MovedToPlacement(r: seq<Node>, j: nat, v: Node, i: nat)
    requires v !in r && j <= |r| && i <= |r|
    ensures MovedTo(InsertAt(r, j, v), v, i) == InsertAt(r, i, v)
  {
    InsertThenWithout(r, j, v);
  }

  /** One step to either side of placement j of v into r is the neighbouring placement. */
  lemma PlacementNeighbours(r: seq<Node>, j: nat, v: Node)
    requires v !in r && j <= |r|
    ensures v in InsertAt(r, j, v) && IndexOf(InsertAt(r, j, v), v) == j
    ensures j < |r| ==> MovedTo(InsertAt(r, j, v), v, j + 1) == InsertAt(r, j + 1, v)
    ensures j > 0 ==> MovedTo(InsertAt(r, j, v), v, j - 1) == InsertAt(r, j - 1, v)
  {
    InsertThenWithout(r, j, v);
    if j < |r| {
      MovedToPlacement(r, j, v, j + 1);
    }
    if j > 0 {
      MovedToPlacement(r, j, v, j - 1);
    }
  }

  /** Two moves of the same element amount to the second one alone. */
  lemma MoveAgain(s: seq<Node>, v: Node, i: nat, j: nat)
    requires Distinct(s) && v in s && i < |s| && j < |s|
    ensures v in MovedTo(s, v, i) && MovedTo(MovedTo(s, v, i), v, j) == MovedTo(s, v, j)
  {
    WithoutAndBack(s, v);
    MovedToPlacement(Without(s, v), i, v, j);
  }

  /** Moving an element to the index it already has changes nothing. */
  lemma MoveToOwnIndex(s: seq<Node>, v: Node)
    requires Distinct(s) && v in s
    ensures MovedTo(s, v, IndexOf(s, v)) == s
  {
    WithoutAndBack(s, v);
  }

  /** Moving v back to the index it came from undoes a move. */
  lemma {:induction false} MoveUndone(s: seq<Node>, v: Node, i: nat)
    requires Distinct(s) && v in s && i < |s|
    ensures v in MovedTo(s, v, i) && MovedTo(MovedTo(s, v, i), v, IndexOf(s, v)) == s
  {
    var r := Without(s, v);
    WithoutAndBack(s, v);
    MovedToPlacement(r, i, v, IndexOf(s, v));
  }

  /**
   * Moving x to the index of y, when y comes before x, puts x immediately
   * in front of y: the relative order of the two is reversed.
   */
  lemma {:induction false} MoveInFront(s: seq<Node>, x: Node, y: Node)
    requires Distinct(s) && x in s && y in s && IndexOf(s, y) < IndexOf(s, x)
    ensures var t := MovedTo(s, x, IndexOf(s, y));
      x in t && y in t && IndexOf(t, x) == IndexOf(s, y) && IndexOf(t, y) == IndexOf(s, y) + 1
  {
    var ky, kx := IndexOf(s, y), IndexOf(s, x);
    var r := Without(s, x);
    WithoutAndBack(s, x);
    InsertThenWithout(r, ky, x);
    var t := InsertAt(r, ky, x);
    assert r[..ky + 1] == s[..ky + 1];
    assert t[..ky + 1] == s[..ky] + [x];
    assert t[ky + 1] == y;
    IndexOfIs(t, y, ky + 1);
  }

  /** An element found at k and nowhere before it has index k. */
  lemma IndexOfIs(t: seq<Node>, y: Node, k: nat)
    requires k < |t| && t[k] == y && y !in t[..k]
    ensures IndexOf(t, y) == k
  {
  }

  /** Exchanging the same two elements twice restores a sequence without duplicates. */
  lemma {:induction false} SwapTwice(s: seq<Node>, v: Node, w: Node)
    requires Distinct(s) && v in s && w in s
    ensures v in Swapped(s, v, w) && w in Swapped(s, v, w)
    ensures Swapped(Swapped(s, v, w), v, w) == s
  {
    var kv, kw := IndexOf(s, v), IndexOf(s, w);
    var t := Swapped(s, v, w);
    if kv == kw {
      assert t == s;
    } else {
      assert t[kw] == v && t[kv] == w;
      SwappedPerm(s, v, w);
      DistinctPerm(t, s);
      assert IndexOf(t, v) == kw by {
        var k := IndexOf(t, v);
        assert t[k] == v;
      }
      assert IndexOf(t, w) == kv by {
        var k := IndexOf(t, w);
        assert t[k] == w;
      }
      assert Swapped(t, v, w) == s;
    }
  }

  // ---------------------------------------------------------------------
  // Enumeration of all permutations

  /** x prepended to each of ps. */
  function PrependAll(x: Node, ps: seq<seq<Node>>): (r: seq<seq<Node>>)
    ensures |r| == |ps| && forall i :: 0 <= i < |ps| ==> r[i] == [x] + ps[i]
  {
    seq(|ps|, i requires 0 <= i < |ps| => [x] + ps[i])
  }

  /**
   * Every ordering of s, in lexicographic order of the positions taken from s:
   * the order in which a permutation generator over indices produces them.
   */
  function Perms(s: seq<Node>): seq<seq<Node>>
    decreases |s|, 1
  {
    if s == [] then [[]] else PermsFrom(s, 0)
  }

  /** The orderings of s whose first element is taken from index k or later. */
  function PermsFrom(s: seq<Node>, k: nat): seq<seq<Node>>
    requires k <= |s|
    decreases |s|, 0, |s| - k
  {
    if k == |s| then [] else PrependAll(s[k], Perms(RemoveAt(s, k))) + PermsFrom(s, k + 1)
  }

  lemma {:induction false} PermsSound(s: seq<Node>, p: seq<Node>)
    requires p in Perms(s)
    ensures IsPermOf(p, s)
    decreases |s|, 1
  {
    if s != [] {
      PermsFromSound(s, 0, p);
    }
  }

  lemma {:induction false} PermsFromSound(s: seq<Node>, k: nat, p: seq<Node>)
    requires k <= |s| && p in PermsFrom(s, k)
    ensures IsPermOf(p, s)
    decreases |s|, 0, |s| - k
  {
    if k < |s| {
      var rest := Perms(RemoveAt(s, k));
      var head := PrependAll(s[k], rest);
      if p in head {
        var i :| 0 <= i < |head| && head[i] == p;
        PermsSound(RemoveAt(s, k), rest[i]);
        MultisetRemoveAt(s, k);
      } else {
        PermsFromSound(s, k + 1, p);
      }
    }
  }

  lemma {:induction false} PermsFromGrows(s: seq<Node>, j: nat, k: nat, p: seq<Node>)
    requires j <= k <= |s| && p in PermsFrom(s, k)
    ensures p in PermsFrom(s, j)
    decreases k - j
  {
    if j < k {
      PermsFromGrows(s, j + 1, k, p);
    }
  }

  lemma {:induction false} PermsComplete(s: seq<Node>, p: seq<Node>)
    requires IsPermOf(p, s)
    ensures p in Perms(s)
    decreases |s|
  {
    assert |p| == |multiset(p)| == |s|;
    if s != [] {
      assert p[0] in multiset(s);
      var k := IndexOf(s, p[0]);
      var r := RemoveAt(s, k);
      MultisetRemoveAt(s, k);
      assert p == [p[0]] + p[1..];
      assert multiset(p[1..]) == multiset(r);
      PermsComplete(r, p[1..]);
      var rest := Perms(r);
      var i :| 0 <= i < |rest| && rest[i] == p[1..];
      assert PrependAll(s[k], rest)[i] == p;
      PermsFromGrows(s, 0, k, p);
    }
  }

  /** p is one of the enumerated orderings of s exactly when it is a permutation of s. */
  lemma PermsExactly(s: seq<Node>, p: seq<Node>)
    ensures p in Perms(s) <==> IsPermOf(p, s)
  {
    if p in Perms(s) {
      PermsSound(s, p);
    }
    if IsPermOf(p, s) {
      PermsComplete(s, p);
    }
  }

  lemma {:induction false} ElementsAtMostLength(ps: seq<seq<Node>>)
    ensures |set p | p in ps| <= |ps|
  {
    if ps != [] {
      ElementsAtMostLength(ps[1..]);
      assert (set p | p in ps) == (set p | p in ps[1..]) + {ps[0]};
    }
  }

  // ---------------------------------------------------------------------
  // Measures: a strict improvement of the score can happen only finitely often.

  lemma SubsetSize<T>(a: set<T>, b: set<T>)
    requires a <= b
    ensures |a| <= |b| && (a < b ==> |a| < |b|)
  {
    assert b == a + (b - a);
    assert |b| == |a| + |b - a|;
    if a < b {
      assert b - a != {};
    }
  }

  /** The orderings of vars that score strictly higher than o. */
  function Higher(vars: seq<Node>, f: seq<Node> -> real, o: seq<Node>): set<seq<Node>>
  {
    set p | p in Perms(vars) && f(p) > f(o)
  }

  /** The orderings of vars that score strictly lower than o. */
  function Lower(vars: seq<Node>, f: seq<Node> -> real, o: seq<Node>): set<seq<Node>>
  {
    set p | p in Perms(vars) && f(p) < f(o)
  }

  lemma HigherShrinks(vars: seq<Node>, f: seq<Node> -> real, o: seq<Node>, o2: seq<Node>)
    requires IsPermOf(o2, vars) && f(o2) > f(o)
    ensures |Higher(vars, f, o2)| < |Higher(vars, f, o)|
  {
    PermsComplete(vars, o2);
    assert o2 in Higher(vars, f, o) - Higher(vars, f, o2);
    SubsetSize(Higher(vars, f, o2), Higher(vars, f, o));
  }

  lemma LowerShrinks(vars: seq<Node>, f: seq<Node> -> real, o: seq<Node>, o2: seq<Node>)
    requires IsPermOf(o2, vars) && f(o2) < f(o)
    ensures |Lower(vars, f, o2)| < |Lower(vars, f, o)|
  {
    PermsComplete(vars, o2);
    assert o2 in Lower(vars, f, o) - Lower(vars, f, o2);
    SubsetSize(Lower(vars, f, o2), Lower(vars, f, o));
  }

  lemma LowerNoLarger(vars: seq<Node>, f: seq<Node> -> real, o: seq<Node>, o2: seq<Node>)
    requires f(o2) <= f(o)
    ensures |Lower(vars, f, o2)| <= |Lower(vars, f, o)|
  {
    SubsetSize(Lower(vars, f, o2), Lower(vars, f, o));
  }

  /** Fewer orderings score higher than o than there are orderings at all. */
  lemma HigherBelowCount(vars: seq<Node>, f: seq<Node> -> real, o: seq<Node>)
    requires IsPermOf(o, vars)
    ensures |Higher(vars, f, o)| < |Perms(vars)|
  {
    PermsComplete(vars, o);
    var all := set p | p in Perms(vars);
    assert o in all - Higher(vars, f, o);
    SubsetSize(Higher(vars, f, o), all);
    ElementsAtMostLength(Perms(vars));
  }
}
