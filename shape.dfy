/** The abstract value of a subtree of `Node` objects: the nodes' data arranged
    as they are linked, without object identity. Every property of the search
    tree is stated on this value. */
module Shapes {
  import opened ArrayOps
  import opened Balance

  datatype Shape = Empty | Branch(left: Shape, data: int, right: Shape)

  /** the set of values stored */
  function Values(t: Shape): set<int>
  {
    match t
    case Empty => {}
    case Branch(l, d, r) => Values(l) + {d} + Values(r)
  }

  /** every stored value, counted once per node that holds it */
  function Elements(t: Shape): multiset<int>
  {
    match t
    case Empty => multiset{}
    case Branch(l, d, r) => Elements(l) + multiset{d} + Elements(r)
  }

  function Size(t: Shape): nat
  {
    match t
    case Empty => 0
    case Branch(l, _, r) => Size(l) + 1 + Size(r)
  }

  /** left subtree, node, right subtree */
  function Inorder(t: Shape): seq<int>
  {
    match t
    case Empty => []
    case Branch(l, d, r) => Inorder(l) + [d] + Inorder(r)
  }

  /** -1 for the empty tree, 0 for a leaf */
  function Height(t: Shape): int
  {
    match t
    case Empty => -1
    case Branch(l, _, r) => 1 + Max(Height(l), Height(r))
  }

  /** at every node the two subtrees' heights differ by at most one */
  predicate Balanced(t: Shape)
  {
    match t
    case Empty => true
    case Branch(l, _, r) => Balanced(l) && Balanced(r) && -1 <= Height(l) - Height(r) <= 1
  }

  /** The strict search-tree order: at every node, every value in the left
      subtree is below the node's data and every value in the right one above. */
  predicate SearchTree(t: Shape)
  {
    match t
    case Empty => true
    case Branch(l, d, r) =>
      && SearchTree(l) && SearchTree(r)
      && (forall x :: x in Values(l) ==> x < d)
      && (forall x :: x in Values(r) ==> d < x)
  }

  lemma {:induction false} InorderValues(t: Shape)
    ensures forall x :: x in Inorder(t) <==> x in Values(t)
    ensures |Inorder(t)| == Size(t)
  {
    if t.Branch? {
      InorderValues(t.left);
      InorderValues(t.right);
    }
  }

  /** A tree is a search tree exactly when its inorder sequence is strictly
      increasing. */
  lemma {:induction false} SearchTreeIffAscending(t: Shape)
    ensures SearchTree(t) <==> StrictlyIncreasing(Inorder(t))
  {
    if t.Branch? {
      var l, d, r := t.left, t.data, t.right;
      SearchTreeIffAscending(l);
      SearchTreeIffAscending(r);
      InorderValues(l);
      InorderValues(r);
      if SearchTree(t) {
        JoinStrict(Inorder(l), d, Inorder(r));
      }
      if StrictlyIncreasing(Inorder(t)) {
        SplitStrict(Inorder(l), d, Inorder(r));
      }
    }
  }

  /** In a search tree every value is held by exactly one node. */
  lemma {:induction false} SearchTreeElementsOnce(t: Shape)
    requires SearchTree(t)
    ensures Elements(t) == multiset(Values(t))
  {
    if t.Branch? {
      var l, d, r := t.left, t.data, t.right;
      SearchTreeElementsOnce(l);
      SearchTreeElementsOnce(r);
      var L, R := Values(l), Values(r);
      assert L !! {d} && R !! {d} && L !! R by {
        forall x | x in L ensures x < d { }
        forall x | x in R ensures d < x { }
      }
      calc {
        multiset(Values(t));
        multiset(L + {d} + R);
        { DisjointUnionMultiset(L + {d}, R); DisjointUnionMultiset(L, {d}); }
        multiset(L) + multiset{d} + multiset(R);
      }
    }
  }

  lemma DisjointUnionMultiset(a: set<int>, b: set<int>)
    requires a !! b
    ensures multiset(a + b) == multiset(a) + multiset(b)
  {
    forall x ensures multiset(a + b)[x] == (multiset(a) + multiset(b))[x] {
      if x in a { assert x !in b; }
    }
  }
}
