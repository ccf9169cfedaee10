/** The binary search tree of bst.rb over integers: `Node` objects linked
    through their `left` and `right` fields, the node-level operations of
    `Tree` (`build_tree`, `insert`, `delete`, `min_value_node`, `find`,
    `level_order`), each taking the subtree it works on as the source's `node`
    argument does, and the `Tree` object that owns the root.

    Each node carries a ghost `Model`, the `Shape` of the subtree it roots;
    `Valid()` ties the model to the linked nodes, and every contract is
    stated on models. */
module Bst {
  import opened ArrayOps
  import opened Balance
  import opened Shapes
  import opened TreeSpec

  class Node {
    var data: int
    var left: Node?
    var right: Node?

    /** the abstract value of the subtree rooted here */
    ghost var Model: Shape
    /** the nodes of that subtree */
    ghost var Repr: set<object>

    /** The subtree is a finite tree owned by this node: the children's
        footprints are disjoint and exclude this node, the footprint is exactly
        this node and its children's footprints, and the model is this node's
        data between the children's models. */
    ghost predicate Valid()
      reads this, Repr
      decreases Repr
      ensures Valid() ==> this in Repr && Model.Branch?
    {
      && this in Repr
      && (left != null ==>
            left in Repr && left.Repr <= Repr && this !in left.Repr && left.Valid())
      && (right != null ==>
            right in Repr && right.Repr <= Repr && this !in right.Repr && right.Valid())
      && (left != null && right != null ==> left.Repr !! right.Repr)
      && Repr == {this} + ReprOf(left) + ReprOf(right)
      && Model == Branch(ModelOf(left), data, ModelOf(right))
    }

    /** `Node.new(data)`: a leaf. */
    constructor (data: int)
      ensures Valid() && fresh(Repr)
      ensures this.data == data && left == null && right == null
      ensures Model == Branch(Empty, data, Empty)
    {
      this.data := data;
      left := null;
      right := null;
      Model := Branch(Empty, data, Empty);
      Repr := {this};
    }
  }

  /** The model of a possibly absent subtree. */
  ghost function ModelOf(n: Node?): Shape
    reads n
  {
    if n == null then Empty else n.Model
  }

  /** The nodes of a possibly absent subtree. */
  ghost function ReprOf(n: Node?): set<object>
    reads n
  {
    if n == null then {} else n.Repr
  }

  ghost predicate ValidOrNull(n: Node?)
    reads n, ReprOf(n)
  {
    n != null ==> n.Valid()
  }

  /** `build_tree(array)`: the middle element becomes the root, the elements
      before it the left subtree and those after it the right one.
      Deviation from bst.rb:29, which passes `array[0..mid]`, an inclusive range
      that still holds `array[mid]`, and so recurses forever on any non-empty
      array: the left half here is `array[..mid]`. */
  method BuildTree(items: seq<int>) returns (r: Node?)
    ensures ValidOrNull(r) && fresh(ReprOf(r))
    ensures ModelOf(r) == BuildShape(items)
    decreases |items|
  {
    if items == [] {
      return null;
    }
    var mid := |items| / 2;
    assert BuildShape(items) == Branch(BuildShape(items[..mid]), items[mid], BuildShape(items[mid + 1..]));
    var node := new Node(items[mid]);
    var l := BuildTree(items[..mid]);
    var rr := BuildTree(items[mid + 1..]);
    Link(node, l, rr);
    r := node;
  }

  /** `node.left = ...; node.right = ...`: hangs two disjoint subtrees below
      `node`, as `build_tree`, `insert` and `delete` do with the subtrees they
      build or return. */
  method Link(node: Node, l: Node?, r: Node?)
    requires ValidOrNull(l) && ValidOrNull(r)
    requires node !in ReprOf(l) && node !in ReprOf(r) && ReprOf(l) !! ReprOf(r)
    modifies node
    ensures node.Valid() && node.data == old(node.data)
    ensures node.Model == Branch(old(ModelOf(l)), node.data, old(ModelOf(r)))
    ensures node.Repr == {node} + ReprOf(l) + ReprOf(r)
  {
    node.left := l;
    node.right := r;
    node.Model := Branch(ModelOf(l), node.data, ModelOf(r));
    node.Repr := {node} + ReprOf(l) + ReprOf(r);
  }

  /** `find(value, node)`: descends by comparison and returns the node holding
      `value`; null when the descent falls off the tree, which on a search tree
      means `value` is not stored. */
  function FindNode(value: int, node: Node?): (r: Node?)
    requires ValidOrNull(node)
    reads node, ReprOf(node)
    decreases ReprOf(node)
    ensures r != null ==> r in ReprOf(node) && r.data == value && value in Values(ModelOf(node))
    ensures SearchTree(ModelOf(node)) && value in Values(ModelOf(node)) ==> r != null
  {
    if node == null then null
    else if value == node.data then node
    else
      SearchDescends(value, node.Model);
      if value < node.data then FindNode(value, node.left)
      else FindNode(value, node.right)
  }

  /** `min_value_node(node)`: follows left links while there is one, and
      returns null for an absent subtree. */
  method MinValueNode(node: Node?) returns (current: Node?)
    requires ValidOrNull(node)
    ensures node == null ==> current == null
    ensures node != null ==>
      && current != null && current in node.Repr && current.Valid()
      && current.left == null
      && current.data == Leftmost(node.Model)
  {
    current := node;
    while current != null && current.left != null
      invariant node == null ==> current == null
      invariant node != null ==>
        && current != null && current in node.Repr && current.Repr <= node.Repr
        && current.Valid()
        && Leftmost(current.Model) == Leftmost(node.Model)
      decreases ReprOf(current)
    {
      current := current.left;
    }
  }

  /** `insert(value, node)`: an absent subtree becomes a new leaf; otherwise
      the value goes into the left or right subtree and the result is linked
      back in its place, and an equal value changes nothing.
      bst.rb:36 writes `Mode.new` for `Node.new` and bst.rb:41 writes
      `insert(value.node.right)` for `insert(value, node.right)`; both raise
      as written, and the intended calls are modelled. */
  method InsertNode(value: int, node: Node?) returns (r: Node)
    requires ValidOrNull(node)
    modifies ReprOf(node)
    decreases ReprOf(node)
    ensures r.Valid() && r.Model == InsertShape(value, old(ModelOf(node)))
    ensures node == null ==> fresh(r.Repr)
    ensures node != null ==> r == node && fresh(r.Repr - old(node.Repr))
  {
    if node == null {
      r := new Node(value);
      return;
    }
    if value < node.data {
      var t := InsertNode(value, node.left);
      Link(node, t, node.right);
    } else if value > node.data {
      var t := InsertNode(value, node.right);
      Link(node, node.left, t);
    }
    r := node;
  }

  /** `delete(value, node)`: descends to the node holding `value`, removes it
      with `RemoveRoot`, and links each result back in place.
      bst.rb:58 tests `node.right?`, which raises NoMethodError whenever the
      node holding `value` has a left child; the intended test
      `node.right.nil?` is modelled. */
  method DeleteNode(value: int, node: Node?) returns (r: Node?)
    requires ValidOrNull(node)
    modifies ReprOf(node)
    decreases ReprOf(node), 1
    ensures ValidOrNull(r) && ModelOf(r) == DeleteShape(value, old(ModelOf(node)))
    ensures ReprOf(r) <= old(ReprOf(node))
    ensures node != null && value != old(node.data) ==> r == node
    ensures node != null && value == old(node.data) && old(node.left) == null ==>
      r == old(node.right)
    ensures node != null && value == old(node.data) && old(node.left) != null && old(node.right) == null ==>
      r == old(node.left)
    ensures node != null && value == old(node.data) && old(node.left) != null && old(node.right) != null ==>
      r == node
    ensures node != null && r != node ==>
      node.Valid() && node.Model == old(node.Model) && node.Repr == old(node.Repr)
  {
    if node == null {
      return node;
    }
    if value < node.data {
      var t := DeleteNode(value, node.left);
      Link(node, t, node.right);
      r := node;
    } else if value > node.data {
      var t := DeleteNode(value, node.right);
      Link(node, node.left, t);
      r := node;
    } else {
      r := RemoveRoot(node);
    }
  }

  /** The branch of `delete` for the node holding the value: a node with no
      left child is replaced by its right child, one with no right child by its
      left child; a node with two children takes the value of the leftmost node
      of its right subtree, which is then deleted from that subtree. */
  method RemoveRoot(node: Node) returns (r: Node?)
    requires node.Valid()
    modifies node.Repr
    decreases node.Repr, 0
    ensures ValidOrNull(r) && ModelOf(r) == DeleteShape(old(node.data), old(node.Model))
    ensures ReprOf(r) <= old(node.Repr)
    ensures old(node.left) == null ==> r == old(node.right)
    ensures old(node.left) != null && old(node.right) == null ==> r == old(node.left)
    ensures old(node.left) != null && old(node.right) != null ==> r == node
    ensures r != node ==> node.Valid() && node.Model == old(node.Model) && node.Repr == old(node.Repr)
  {
    if node.left == null {
      return node.right;
    } else if node.right == null {
      return node.left;
    }
    var temp := MinValueNode(node.right);
    node.data := temp.data;
    var t := DeleteNode(temp.data, node.right);
    Link(node, node.left, t);
    r := node;
  }

  /** `level_order(node)`, collecting form: a queue seeded with the subtree's
      root; each node taken from the front has its data recorded and its
      present children pushed, left first. */
  method LevelOrderFrom(node: Node?) returns (values: seq<int>)
    requires ValidOrNull(node)
    ensures values == LevelOrderOf([ModelOf(node)])
  {
    if node == null {
      assert [ModelOf(node)][1..] == [];
      return [];
    }
    var queue: seq<Node> := [node];
    ghost var shapes := [node.Model];
    values := [];
    while queue != []
      invariant |shapes| == |queue|
      invariant forall n :: n in queue ==> n.Valid()
      invariant forall i :: 0 <= i < |queue| ==> queue[i].Model == shapes[i]
      invariant values + LevelOrderOf(shapes) == LevelOrderOf([node.Model])
      decreases TotalSize(shapes)
    {
      var current := queue[0];
      assert current in queue;
      LevelOrderStep(shapes);
      values := values + [current.data];
      var children := Children(current);
      queue := queue[1..] + children;
      shapes := shapes[1..] + Enqueued(ModelOf(current.left), ModelOf(current.right));
    }
  }

  /** `queue.push(current.left) if current.left` followed by the same for
      `current.right`: the children a node puts on the queue, left first. */
  method Children(current: Node) returns (children: seq<Node>)
    requires current.Valid()
    ensures var kids := Enqueued(ModelOf(current.left), ModelOf(current.right));
      && |children| == |kids|
      && (forall n :: n in children ==> n.Valid())
      && (forall i :: 0 <= i < |children| ==> children[i].Model == kids[i])
    ensures children ==
      (if current.left != null then [current.left] else []) +
      (if current.right != null then [current.right] else [])
  {
    children := [];
    if current.left != null {
      children := children + [current.left];
    }
    if current.right != null {
      children := children + [current.right];
    }
  }

  /** `Tree`: owns the root of a search tree. `Contents` is the set of values
      the tree holds. */
  class Tree {
    var root: Node?

    ghost var Contents: set<int>
    ghost var Repr: set<object>

    ghost predicate Valid()
      reads this, Repr
      ensures Valid() ==> this in Repr
    {
      && this in Repr
      && (root != null ==>
            root in Repr && root.Repr <= Repr && this !in root.Repr && root.Valid())
      && SearchTree(ModelOf(root))
      && Contents == Values(ModelOf(root))
    }

    /** `Tree.new(array)`: the tree built from `array.uniq.sort`. */
    constructor (items: seq<int>)
      ensures Valid() && fresh(Repr)
      ensures ModelOf(root) == BuildShape(SortedUnique(items))
      ensures forall x :: x in Contents <==> x in items
    {
      var sorted := SortedUnique(items);
      var r := BuildTree(sorted);
      BuildShapeSearchTree(sorted);
      root := r;
      Contents := Values(ModelOf(r));
      Repr := {this} + ReprOf(r);
    }

    /** `insert(value)` with the new root stored back in `root`. */
    method Insert(value: int)
      requires Valid()
      modifies Repr
      ensures Valid() && fresh(Repr - old(Repr))
      ensures ModelOf(root) == InsertShape(value, old(ModelOf(root)))
      ensures Contents == old(Contents) + {value}
    {
      InsertValues(value, ModelOf(root));
      var r := InsertNode(value, root);
      root := r;
      Contents := Values(r.Model);
      Repr := Repr + r.Repr;
    }

    /** `insert(value)` as bst.rb:35-45 has it: the node returned for the
        root is dropped, so an insertion into an empty tree is lost. The slips
        at bst.rb:36 and bst.rb:41 are modelled as intended; as written, an
        insertion into an empty tree raises NameError at bst.rb:36 first, so the
        lost root shows only once that slip is corrected. */
    method InsertAsWritten(value: int) returns (n: Node)
      requires Valid()
      modifies Repr
      ensures Valid() && fresh(Repr - old(Repr)) && root == old(root)
      ensures n.Valid() && n.Model == InsertShape(value, old(ModelOf(root)))
      ensures Contents == if old(root) == null then old(Contents) else old(Contents) + {value}
    {
      InsertValues(value, ModelOf(root));
      n := InsertNode(value, root);
      if root != null {
        Repr := Repr + n.Repr;
      }
      Contents := Values(ModelOf(root));
    }

    /** `delete(value)` with the new root stored back in `root`. */
    method Delete(value: int)
      requires Valid()
      modifies Repr
      ensures Valid() && Repr == old(Repr)
      ensures ModelOf(root) == DeleteShape(value, old(ModelOf(root)))
      ensures Contents == old(Contents) - {value}
    {
      DeleteValues(value, ModelOf(root));
      var r := DeleteNode(value, root);
      root := r;
      Contents := Values(ModelOf(r));
    }

    /** `delete(value)` as bst.rb:47-69 has it: the node returned for the
        root is dropped, so deleting the root's value is lost whenever the
        root has fewer than two children. The slip at bst.rb:58 is modelled as
        intended; as written, a root holding `value` with a left child raises
        NoMethodError there, so only a root without a left child shows the loss
        in bst.rb exactly as written. */
    method DeleteAsWritten(value: int) returns (n: Node?)
      requires Valid()
      modifies Repr
      ensures Valid() && Repr == old(Repr) && root == old(root)
      ensures ValidOrNull(n) && ModelOf(n) == DeleteShape(value, old(ModelOf(root)))
      ensures Contents ==
        if old(root) != null && value == old(root.data) && (old(root.left) == null || old(root.right) == null)
        then old(Contents)
        else old(Contents) - {value}
    {
      DeleteValues(value, ModelOf(root));
      n := DeleteNode(value, root);
      Contents := Values(ModelOf(root));
    }

    /** `find(value)`: the node holding `value`, null exactly when the tree
        does not hold it. */
    function Find(value: int): (n: Node?)
      requires Valid()
      reads this, Repr
      ensures n != null <==> value in Contents
      ensures n != null ==> n in ReprOf(root) && n.data == value
    {
      FindNode(value, root)
    }

    /** `level_order`: the values in breadth-first order, each stored value
        once, the root's first. */
    method LevelOrder() returns (values: seq<int>)
      requires Valid()
      ensures values == LevelOrderOf([ModelOf(root)])
      ensures multiset(values) == multiset(Contents)
      ensures root == null <==> values == []
      ensures root != null ==> values[0] == root.data
    {
      values := LevelOrderFrom(root);
      LevelOrderOfTree(ModelOf(root));
    }
  }
}
