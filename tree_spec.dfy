/** Reference definitions of the tree operations on `Shape` values: what
    `insert`, `delete`, `min_value_node` and `level_order` of bst.rb do to the
    abstract tree, and the properties of each that the search tree relies on. */
module TreeSpec {
  import opened ArrayOps
  import opened Balance
  import opened Shapes

  /** Construction from an array: the middle element at the root, the
      elements before it built into the left subtree and those after it into
      the right one. */
  function BuildShape(items: seq<int>): Shape
    decreases |items|
  {
    if items == [] then Empty
    else
      var mid := |items| / 2;
      Branch(BuildShape(items[..mid]), items[mid], BuildShape(items[mid + 1..]))
  }

  /** The built tree reads back, in order, as the array it was built from. */
  lemma {:induction false} BuildShapeInorder(items: seq<int>)
    ensures Inorder(BuildShape(items)) == items
    decreases |items|
  {
    if items != [] {
      var mid := |items| / 2;
      BuildShapeInorder(items[..mid]);
      BuildShapeInorder(items[mid + 1..]);
      assert items == items[..mid] + [items[mid]] + items[mid + 1..];
    }
  }

  /** The built tree is height-balanced, of the height `SplitHeight` gives,
      which is logarithmic in the number of elements. */
  lemma {:induction false} BuildShapeBalanced(items: seq<int>)
    ensures Balanced(BuildShape(items))
    ensures Height(BuildShape(items)) == SplitHeight(|items|)
    ensures items != [] ==> Height(BuildShape(items)) >= 0 && Pow2(Height(BuildShape(items))) <= |items|
    decreases |items|
  {
    if items != [] {
      var n, mid := |items|, |items| / 2;
      BuildShapeBalanced(items[..mid]);
      BuildShapeBalanced(items[mid + 1..]);
      assert |items[..mid]| == mid && |items[mid + 1..]| == n - 1 - mid;
      SplitHalves(n);
      SplitHeightLogarithmic(n);
    }
  }

  /** The built tree is a search tree exactly when the array is strictly
      increasing, as `array.uniq.sort` is. */
  lemma BuildShapeSearchTree(items: seq<int>)
    ensures SearchTree(BuildShape(items)) <==> StrictlyIncreasing(items)
    ensures forall x :: x in Values(BuildShape(items)) <==> x in items
  {
    BuildShapeInorder(items);
    SearchTreeIffAscending(BuildShape(items));
    InorderValues(BuildShape(items));
  }

  /** The data of the node reached by following left links from the root. */
  function Leftmost(t: Shape): int
    requires t.Branch?
  {
    if t.left == Empty then t.data else Leftmost(t.left)
  }

  /** The leftmost value is stored in the tree and, in a search tree, is its
      least value. */
  lemma {:induction false} LeftmostIsLeast(t: Shape)
    requires t.Branch?
    ensures Leftmost(t) in Values(t)
    ensures SearchTree(t) ==> forall x :: x in Values(t) ==> Leftmost(t) <= x
  {
    if t.left != Empty {
      LeftmostIsLeast(t.left);
    }
  }

  /** A value sits on one side of a search tree's root according to its
      comparison with the root's data. */
  lemma SearchDescends(v: int, t: Shape)
    requires t.Branch?
    ensures SearchTree(t) && v in Values(t) && v < t.data ==> v in Values(t.left)
    ensures SearchTree(t) && v in Values(t) && v > t.data ==> v in Values(t.right)
  {
    if SearchTree(t) && v in Values(t) {
      if v in Values(t.right) {
        assert t.data < v;
      } else if v in Values(t.left) {
        assert v < t.data;
      }
    }
  }

  /** Insertion: a new leaf where the descent falls off the tree; an equal
      value met on the way leaves the tree as it is. */
  function InsertShape(v: int, t: Shape): Shape
  {
    match t
    case Empty => Branch(Empty, v, Empty)
    case Branch(l, d, r) =>
      if v < d then Branch(InsertShape(v, l), d, r)
      else if v > d then Branch(l, d, InsertShape(v, r))
      else t
  }

  /** Insertion adds exactly `v` to the stored values and keeps the search
      order. */
  lemma {:induction false} InsertValues(v: int, t: Shape)
    ensures Values(InsertShape(v, t)) == Values(t) + {v}
    ensures SearchTree(t) ==> SearchTree(InsertShape(v, t))
  {
    match t
    case Empty =>
    case Branch(l, d, r) =>
      if v < d {
        InsertValues(v, l);
      } else if v > d {
        InsertValues(v, r);
      }
  }

  /** Inserting a value a search tree already holds changes nothing. */
  lemma {:induction false} InsertPresent(v: int, t: Shape)
    requires SearchTree(t) && v in Values(t)
    ensures InsertShape(v, t) == t
  {
    match t
    case Branch(l, d, r) =>
      SearchDescends(v, t);
      if v < d {
        InsertPresent(v, l);
      } else if v > d {
        InsertPresent(v, r);
      }
  }

  /** Deletion: a node holding `v` with no left subtree gives way to its right
      subtree, one with no right subtree to its left subtree, and one with two
      subtrees takes the leftmost value of its right subtree, which is deleted
      from there. */
  function DeleteShape(v: int, t: Shape): Shape
    decreases t
  {
    match t
    case Empty => Empty
    case Branch(l, d, r) =>
      if v < d then Branch(DeleteShape(v, l), d, r)
      else if v > d then Branch(l, d, DeleteShape(v, r))
      else if l == Empty then r
      else if r == Empty then l
      else Branch(l, Leftmost(r), DeleteShape(Leftmost(r), r))
  }

  /** On a search tree, deletion removes exactly `v` from the stored values
      and keeps the search order. */
  lemma {:induction false} DeleteValues(v: int, t: Shape)
    requires SearchTree(t)
    ensures SearchTree(DeleteShape(v, t))
    ensures Values(DeleteShape(v, t)) == Values(t) - {v}
    decreases t
  {
    match t
    case Empty =>
    case Branch(l, d, r) =>
      if v < d {
        DeleteValues(v, l);
        assert v !in Values(r);
      } else if v > d {
        DeleteValues(v, r);
        assert v !in Values(l);
      } else if l == Empty {
        assert d !in Values(r);
      } else if r == Empty {
        assert d !in Values(l);
      } else {
        var m := Leftmost(r);
        LeftmostIsLeast(r);
        DeleteValues(m, r);
        assert d !in Values(l) && d !in Values(r);
        forall x | x in Values(l) ensures x < m {
          assert x < d && d < m;
        }
      }
  }

  /** Deleting a value the tree does not hold changes nothing. */
  lemma {:induction false} DeleteAbsent(v: int, t: Shape)
    requires v !in Values(t)
    ensures DeleteShape(v, t) == t
    decreases t
  {
    match t
    case Empty =>
    case Branch(l, d, r) =>
      if v < d {
        DeleteAbsent(v, l);
      } else if v > d {
        DeleteAbsent(v, r);
      }
  }

  /** Deleting a value just inserted into a tree that did not hold it gives
      back the tree it was inserted into. */
  lemma {:induction false} DeleteUndoesInsert(v: int, t: Shape)
    requires v !in Values(t)
    ensures DeleteShape(v, InsertShape(v, t)) == t
  {
    match t
    case Empty =>
    case Branch(l, d, r) =>
      if v < d {
        DeleteUndoesInsert(v, l);
      } else {
        DeleteUndoesInsert(v, r);
      }
  }

  /** Deleting a stored value from a search tree and inserting it again gives
      a search tree with the same values and the same inorder sequence. The
      tree itself may differ: deleting a node with two children moves its
      successor up, and the value then comes back as a leaf. */
  lemma DeleteThenInsertInorder(v: int, t: Shape)
    requires SearchTree(t) && v in Values(t)
    ensures SearchTree(InsertShape(v, DeleteShape(v, t)))
    ensures Values(InsertShape(v, DeleteShape(v, t))) == Values(t)
    ensures Inorder(InsertShape(v, DeleteShape(v, t))) == Inorder(t)
  {
    var d := DeleteShape(v, t);
    var u := InsertShape(v, d);
    DeleteValues(v, t);
    InsertValues(v, d);
    SearchTreeIffAscending(t);
    SearchTreeIffAscending(u);
    InorderValues(t);
    InorderValues(u);
    SameElementsSameSequence(Inorder(u), Inorder(t));
  }

  /** The tree `Tree.new(array)` builds: a height-balanced search tree
      holding exactly the array's elements, reading back in order as
      `array.uniq.sort`. */
  lemma InitialTree(items: seq<int>)
    ensures var t := BuildShape(SortedUnique(items));
      && SearchTree(t) && Balanced(t)
      && Inorder(t) == SortedUnique(items)
      && (forall x :: x in Values(t) <==> x in items)
  {
    var sorted := SortedUnique(items);
    BuildShapeInorder(sorted);
    BuildShapeBalanced(sorted);
    BuildShapeSearchTree(sorted);
  }

  /** `Tree.new([5, 3, 8, 3, 1])` holds 1, 3, 5 and 8 in a tree of height 2
      rooted at 5. */
  lemma InitialTreeExample()
    ensures var t := BuildShape(SortedUnique([5, 3, 8, 3, 1]));
      && Inorder(t) == [1, 3, 5, 8] && Height(t) == 2 && t.Branch? && t.data == 5
  {
    var sorted := [1, 3, 5, 8];
    SortedUniqueExample();
    BuildShapeInorder(sorted);
    BuildShapeBalanced(sorted);
    assert SplitHeight(4) == 2 by {
      assert SplitHeight(1) == 0;
    }
  }

  /** the total number of nodes in a queue of subtrees */
  function TotalSize(q: seq<Shape>): nat
  {
    if q == [] then 0 else Size(q[0]) + TotalSize(q[1..])
  }

  /** every value held in a queue of subtrees */
  function QueueElements(q: seq<Shape>): multiset<int>
  {
    if q == [] then multiset{} else Elements(q[0]) + QueueElements(q[1..])
  }

  lemma {:induction false} QueueConcat(a: seq<Shape>, b: seq<Shape>)
    ensures TotalSize(a + b) == TotalSize(a) + TotalSize(b)
    ensures QueueElements(a + b) == QueueElements(a) + QueueElements(b)
  {
    if a == [] {
      assert a + b == b;
    } else {
      assert (a + b)[0] == a[0] && (a + b)[1..] == a[1..] + b;
      QueueConcat(a[1..], b);
    }
  }

  /** the children a node puts on the queue: left, then right, each only when
      present */
  function Enqueued(l: Shape, r: Shape): seq<Shape>
  {
    (if l.Branch? then [l] else []) + (if r.Branch? then [r] else [])
  }

  lemma EnqueuedAccount(l: Shape, r: Shape)
    ensures TotalSize(Enqueued(l, r)) == Size(l) + Size(r)
    ensures QueueElements(Enqueued(l, r)) == Elements(l) + Elements(r)
  {
    var a, b := if l.Branch? then [l] else [], if r.Branch? then [r] else [];
    QueueConcat(a, b);
    assert TotalSize(a) == Size(l) && QueueElements(a) == Elements(l);
    assert TotalSize(b) == Size(r) && QueueElements(b) == Elements(r);
  }

  /** Breadth-first order of the values of a queue of subtrees: take the
      first subtree, record its data, append its children to the queue. */
  function LevelOrderOf(q: seq<Shape>): seq<int>
    decreases TotalSize(q), |q|
  {
    if q == [] then []
    else
      match q[0]
      case Empty => LevelOrderOf(q[1..])
      case Branch(l, d, r) =>
        QueueConcat(q[1..], Enqueued(l, r));
        EnqueuedAccount(l, r);
        [d] + LevelOrderOf(q[1..] + Enqueued(l, r))
  }

  /** The breadth-first walk records every value of the queue, as often as it
      is stored. */
  lemma {:induction false} LevelOrderElements(q: seq<Shape>)
    ensures multiset(LevelOrderOf(q)) == QueueElements(q)
    decreases TotalSize(q), |q|
  {
    if q != [] {
      match q[0]
      case Empty =>
        LevelOrderElements(q[1..]);
      case Branch(l, d, r) =>
        var next := q[1..] + Enqueued(l, r);
        LevelOrderStep(q);
        QueueConcat(q[1..], Enqueued(l, r));
        EnqueuedAccount(l, r);
        LevelOrderElements(next);
        assert multiset(LevelOrderOf(q)) == multiset{d} + QueueElements(next);
    }
  }

  /** The walk of a single tree starts with its root's data and visits each
      value of a search tree exactly once. */
  lemma LevelOrderOfTree(t: Shape)
    ensures multiset(LevelOrderOf([t])) == Elements(t)
    ensures t.Branch? ==> |LevelOrderOf([t])| > 0 && LevelOrderOf([t])[0] == t.data
    ensures t == Empty ==> LevelOrderOf([t]) == []
    ensures SearchTree(t) ==> multiset(LevelOrderOf([t])) == multiset(Values(t))
  {
    LevelOrderElements([t]);
    assert QueueElements([t]) == Elements(t) by {
      assert [t][1..] == [];
    }
    if SearchTree(t) {
      SearchTreeElementsOnce(t);
    }
  }

  /** One step of the walk: the front subtree's data, then the walk of the
      rest of the queue with its children appended. */
  lemma LevelOrderStep(q: seq<Shape>)
    requires q != [] && q[0].Branch?
    ensures LevelOrderOf(q) == [q[0].data] + LevelOrderOf(q[1..] + Enqueued(q[0].left, q[0].right))
    ensures TotalSize(q[1..] + Enqueued(q[0].left, q[0].right)) < TotalSize(q)
  {
    QueueConcat(q[1..], Enqueued(q[0].left, q[0].right));
    EnqueuedAccount(q[0].left, q[0].right);
  }
}
