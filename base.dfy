/**
 * Shared vocabulary of the searches: variables, results with the source's
 * exception kinds, doubles that may be infinite, background knowledge and
 * small sequence operations.
 */
module Base {

  /** A variable of the search. The source identifies variables by name; here a name is a number. */
  type Node = nat

  /** The kinds of exception the modelled code throws. */
  datatype Error = IllegalArgument | NullPointer | UnsupportedOperation | IndexOutOfBounds

  datatype Result<T> = Ok(value: T) | Err(error: Error)

  datatype Option<T> = None | Some(value: T)

  /** Java's Integer.MAX_VALUE. */
  const IntMax: int := 0x7fff_ffff

  /** A double that is finite or one of the two infinities the searches start from. */
  datatype ExtReal = NegInf | PosInf | Fin(r: real)

  /** x > s, for a finite x and a possibly infinite s. */
  predicate Above(x: real, s: ExtReal)
  {
    match s
    case NegInf => true
    case PosInf => false
    case Fin(r) => x > r
  }

  /** x < s, for a finite x and a possibly infinite s. */
  predicate Below(x: real, s: ExtReal)
  {
    match s
    case NegInf => false
    case PosInf => true
    case Fin(r) => x < r
  }

  /**
   * Background knowledge: required and forbidden directed edges (from, to).
   * Tiers are not modelled separately; they only contribute forbidden edges.
   */
  datatype Knowledge = Knowledge(required: set<(Node, Node)>, forbidden: set<(Node, Node)>)
  {
    predicate IsEmpty() { required == {} && forbidden == {} }
    predicate IsForbidden(from: Node, to: Node) { (from, to) in forbidden }
    predicate IsRequired(from: Node, to: Node) { (from, to) in required }
  }

  const NoKnowledge := Knowledge({}, {})

  predicate Distinct<T(==)>(s: seq<T>)
  {
    forall i, j :: 0 <= i < j < |s| ==> s[i] != s[j]
  }

  /** The position of the first occurrence of x in s (List.indexOf). */
  function IndexOf<T(==)>(s: seq<T>, x: T): (k: nat)
    requires x in s
    ensures k < |s| && s[k] == x && x !in s[..k]
  {
    if s[0] == x then 0 else 1 + IndexOf(s[1..], x)
  }

  /** s without its element at index k (List.remove(int)). */
  function RemoveAt<T>(s: seq<T>, k: nat): (r: seq<T>)
    requires k < |s|
    ensures |r| == |s| - 1
  {
    s[..k] + s[k + 1..]
  }

  /** s with x inserted so that it lands at index k (List.add(int, E)). */
  function InsertAt<T>(s: seq<T>, k: nat, x: T): (r: seq<T>)
    requires k <= |s|
    ensures |r| == |s| + 1 && r[k] == x
  {
    s[..k] + [x] + s[k..]
  }

  /** The elements of s, as a set. */
  function Elems<T(!new)>(s: seq<T>): set<T>
  {
    set x | x in s
  }

  lemma ElemsConcat<T(!new)>(s: seq<T>, t: seq<T>)
    ensures Elems(s + t) == Elems(s) + Elems(t)
  {
  }

  /** The members of a set in the order a Java iterator visits them, which is not specified. */
  method ListOf<T(!new)>(s: set<T>) returns (l: seq<T>)
    ensures Elems(l) == s && |l| == |s|
  {
    l := [];
    var left := s;
    while left != {}
      invariant left <= s && Elems(l) == s - left && |l| + |left| == |s|
      decreases |left|
    {
      var x :| x in left;
      assert Elems(l + [x]) == Elems(l) + {x};
      l := l + [x];
      left := left - {x};
    }
  }

  /** s without the first occurrence of x, if any (List.remove(Object)). */
  function RemoveFirst<T(==)>(s: seq<T>, x: T): (r: seq<T>)
  {
    if x in s then RemoveAt(s, IndexOf(s, x)) else s
  }

  lemma RemoveFirstAppended<T>(s: seq<T>, x: T)
    requires x !in s
    ensures RemoveFirst(s + [x], x) == s
  {
    var k := IndexOf(s + [x], x);
    assert k == |s| by {
      assert (s + [x])[..|s|] == s;
    }
  }

  lemma RemoveAtIndex<T>(s: seq<T>, k: nat, i: nat)
    requires k < |s| && i < |s| - 1
    ensures RemoveAt(s, k)[i] == if i < k then s[i] else s[i + 1]
  {
  }

  lemma InsertAtIndex<T>(s: seq<T>, k: nat, x: T, i: nat)
    requires k <= |s| && i <= |s|
    ensures InsertAt(s, k, x)[i] == if i < k then s[i] else if i == k then x else s[i - 1]
  {
  }

  lemma MultisetRemoveAt<T>(s: seq<T>, k: nat)
    requires k < |s|
    ensures multiset(RemoveAt(s, k)) == multiset(s) - multiset{s[k]}
  {
    assert s == s[..k] + [s[k]] + s[k + 1..];
  }

  lemma MultisetInsertAt<T>(s: seq<T>, k: nat, x: T)
    requires k <= |s|
    ensures multiset(InsertAt(s, k, x)) == multiset(s) + multiset{x}
  {
    assert s == s[..k] + s[k..];
  }
}
