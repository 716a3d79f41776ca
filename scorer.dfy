/**
 * The permutation scorer the order searches drive. It holds a current causal
 * order of the variables and a set of bookmarked orders; for the current order
 * it reports a score, the parents each variable gets, and the Markov blanket
 * found for each position. How those are computed (grow-shrink over a score
 * or a test, caching) is the scorer's own business: here they are functions
 * of the order supplied when the scorer is built.
 */
module Scoring {
  import opened Base
  import opened Orders

  /** The parents a scorer infers for a variable come earlier in the order. */
  ghost predicate ParentsPrecede(parentsOf: (seq<Node>, Node) -> set<Node>)
  {
    forall o: seq<Node>, v: Node, p: Node | p in parentsOf(o, v) ::
      p in o && v in o && IndexOf(o, p) < IndexOf(o, v)
  }

  /** The Markov blanket found for a position names variables of the order. */
  ghost predicate BlanketsWithin(mbOf: (seq<Node>, nat) -> set<Node>)
  {
    forall o: seq<Node>, p: nat, z: Node | z in mbOf(o, p) :: z in o
  }

  /**
   * What a scorer is built from: the variables of a score or a test and,
   * for every order of them, the score, the parents of each variable and
   * the Markov blanket of each position.
   */
  datatype ScoreModel = ScoreModel(
    variables: seq<Node>,
    scoreOf: seq<Node> -> real,
    parentsOf: (seq<Node>, Node) -> set<Node>,
    mbOf: (seq<Node>, nat) -> set<Node>)
  {
    ghost predicate Sound()
    {
      Distinct(variables) && ParentsPrecede(parentsOf) && BlanketsWithin(mbOf)
    }
  }

  /** The number of parent links of the variables in vs, under order o. */
  function EdgeCount(parentsOf: (seq<Node>, Node) -> set<Node>, o: seq<Node>, vs: seq<Node>): nat
  {
    if vs == [] then 0 else |parentsOf(o, vs[0])| + EdgeCount(parentsOf, o, vs[1..])
  }

  /** Under order o, one of a and b is a parent of the other. */
  predicate AdjacentIn(parentsOf: (seq<Node>, Node) -> set<Node>, o: seq<Node>, a: Node, b: Node)
  {
    a in parentsOf(o, b) || b in parentsOf(o, a)
  }

  /** Under order o, a and c are both parents of b. */
  predicate ColliderIn(parentsOf: (seq<Node>, Node) -> set<Node>, o: seq<Node>, a: Node, b: Node, c: Node)
  {
    a in parentsOf(o, b) && c in parentsOf(o, b)
  }

  /** Bookmark key used when the caller gives none. */
  const DefaultKey: int := -1

  class TeyssierScorer {
    const model: ScoreModel
    var order: seq<Node>
    var bookmarks: map<int, seq<Node>>

    ghost predicate Valid()
      reads this
    {
      Distinct(model.variables) && IsPermOf(order, model.variables)
      && forall key | key in bookmarks :: IsPermOf(bookmarks[key], model.variables)
    }

    constructor (model: ScoreModel)
      requires Distinct(model.variables)
      ensures Valid() && this.model == model
      ensures order == model.variables && bookmarks == map[]
    {
      this.model := model;
      order := model.variables;
      bookmarks := map[];
    }

    /** The current order names each variable once. */
    lemma OrderIsDistinct()
      requires Valid()
      ensures Distinct(order)
    {
      DistinctPerm(order, model.variables);
    }

    /** The score of the current order. */
    function Score(): real
      reads this
    {
      model.scoreOf(order)
    }

    function Parents(v: Node): set<Node>
      reads this
    {
      model.parentsOf(order, v)
    }

    function Mb(p: nat): set<Node>
      reads this
    {
      model.mbOf(order, p)
    }

    predicate Adjacent(a: Node, b: Node)
      reads this
    {
      AdjacentIn(model.parentsOf, order, a, b)
    }

    predicate Triangle(x: Node, y: Node, z: Node)
      reads this
    {
      Adjacent(x, y) && Adjacent(y, z) && Adjacent(x, z)
    }

    predicate Collider(a: Node, b: Node, c: Node)
      reads this
    {
      ColliderIn(model.parentsOf, order, a, b, c)
    }

    function NumEdges(): nat
      reads this
    {
      EdgeCount(model.parentsOf, order, order)
    }

    /** Makes o the current order. */
    method Evaluate(o: seq<Node>)
      requires Valid() && IsPermOf(o, model.variables)
      modifies this`order
      ensures Valid() && order == o
    {
      order := o;
    }

    /** Moves v so that it lands at index i. */
    method MoveTo(v: Node, i: nat)
      requires Valid() && v in order && i < |order|
      modifies this`order
      ensures Valid() && order == MovedTo(old(order), v, i)
    {
      MovedToPerm(order, v, i);
      order := MovedTo(order, v, i);
    }

    /** Exchanges the places of v and w. */
    method Swap(v: Node, w: Node)
      requires Valid() && v in order && w in order
      modifies this`order
      ensures Valid() && order == Swapped(old(order), v, w)
    {
      SwappedPerm(order, v, w);
      order := Swapped(order, v, w);
    }

    /** Moves v one place to the left, when it is not first already. */
    method MoveLeft(v: Node) returns (moved: bool)
      requires Valid() && v in order
      modifies this`order
      ensures Valid()
      ensures moved == (IndexOf(old(order), v) > 0)
      ensures moved ==> order == MovedTo(old(order), v, IndexOf(old(order), v) - 1)
      ensures !moved ==> order == old(order)
    {
      var k := IndexOf(order, v);
      moved := k > 0;
      if moved {
        MovedToPerm(order, v, k - 1);
        order := MovedTo(order, v, k - 1);
      }
    }

    /** Moves v one place to the right, when it is not last already. */
    method MoveRight(v: Node) returns (moved: bool)
      requires Valid() && v in order
      modifies this`order
      ensures Valid()
      ensures moved == (IndexOf(old(order), v) + 1 < |old(order)|)
      ensures moved ==> order == MovedTo(old(order), v, IndexOf(old(order), v) + 1)
      ensures !moved ==> order == old(order)
    {
      var k := IndexOf(order, v);
      if k + 1 < |order| {
        MoveTo(v, k + 1);
        moved := true;
      } else {
        moved := false;
      }
    }

    /** Remembers the current order under key. */
    method Bookmark(key: int)
      requires Valid()
      modifies this`bookmarks
      ensures Valid() && bookmarks == old(bookmarks)[key := order]
    {
      bookmarks := bookmarks[key := order];
    }

    /** Returns to the order remembered under key. */
    method GoToBookmark(key: int)
      requires Valid() && key in bookmarks
      modifies this`order
      ensures Valid() && order == bookmarks[key]
    {
      order := bookmarks[key];
    }

    /** Puts the variables in a random order. */
    method ShuffleVariables()
      requires Valid()
      modifies this`order
      ensures Valid() && IsPermOf(order, model.variables)
    {
      var p: seq<Node> :| IsPermOf(p, model.variables);
      order := p;
    }
  }
}
