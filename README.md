# Binary search tree (bst.rb) in Dafny

This project models the core of `bst.rb`, a binary search tree in Ruby, over
integer values. It covers:

- the `Node` objects, linked through their `left` and `right` fields;
- the `Tree` object that owns the root;
- the structural algorithms of `Tree`: construction from an array
  (`initialize`, `build_tree`), `insert`, `delete` with its helper
  `min_value_node`, `find`, and the collecting form of `level_order`.

The files are:

- `array_ops.dfy` (module `ArrayOps`): the two library calls the constructor
  makes on its input, `Array#uniq` and `Array#sort`, as functions. Insertion
  sort is the reference definition of the sort.
- `balance.dfy` (module `Balance`): the arithmetic of the middle-index split.
  `SplitHeight(n)` is the height of the tree built from `n` elements.
- `shape.dfy` (module `Shapes`): `Shape`, the abstract value of a subtree. It
  also defines the stored values, inorder sequence, height, balance and the
  strict search-tree order.
- `tree_spec.dfy` (module `TreeSpec`): what each operation does to a `Shape`
  (`BuildShape`, `InsertShape`, `DeleteShape`, `Leftmost`, `LevelOrderOf`).
  Every property the search tree promises is proved here, as lemmas about
  these functions.
- `bst.dfy` (module `Bst`): the heap model.
  - `Node` is a class whose ghost `Model` is the `Shape` of the subtree it
    roots.
  - The node-level operations are methods taking the subtree's root, as the
    source's `node = @root` parameter does. Each is proved to turn the old
    model into the `TreeSpec` function of it.
  - `Tree` holds `root`, with the invariant that it roots a search tree whose
    values are `Contents`.
- `findings.dfy` (module `Findings`): the three places where `bst.rb` as
  written does not do what it evidently intends. See "Findings" below.

Three slips in `bst.rb` make a call raise an error at run time, and the model
uses the evidently intended code instead. Each is also noted in a comment at
the corresponding member:

- bst.rb:36 `Mode.new` is modelled as `Node.new`.
- bst.rb:41 `insert(value.node.right)` is modelled as
  `insert(value, node.right)`.
- bst.rb:58 `node.right?` is modelled as `node.right.nil?`. As written it
  raises NoMethodError whenever the node holding the deleted value has a left
  child.

Ruby's `Comparable`, used by `value < node.data`, is modelled as the built-in
order on `int`.

## Model

| member | source | states |
|---|---|---|
| `ArrayOps.Uniq` | bst.rb:20 | `array.uniq` has no repeated element and holds exactly the elements of `array` |
| `ArrayOps.SortCorrect` | bst.rb:20 | `sort` returns a sorted permutation of its input |
| `ArrayOps.SortDistinct` | bst.rb:20 | sorting an array without repeats gives a strictly increasing array |
| `ArrayOps.SortedUnique` | bst.rb:20 | `array.uniq.sort` is strictly increasing and holds exactly the elements of `array` |
| `ArrayOps.SameElementsSameSequence` | bst.rb:20 | `array.uniq.sort` is determined by the set of elements: two strictly increasing arrays with the same elements are equal |
| `Balance.SplitHalves` | bst.rb:26-30 | splitting `n >= 1` elements at `mid = n / 2` leaves halves whose sizes and heights differ by at most one, and the left half sets the height |
| `Balance.SplitHeightLogarithmic` | bst.rb:23-33 | the tree built from `n >= 1` elements has height at most log2 `n` |
| `Shapes.SearchTreeIffAscending` | bst.rb:38-42 | a tree is a search tree exactly when its inorder sequence is strictly increasing |
| `Shapes.SearchTreeElementsOnce` | bst.rb:38-43 | in a search tree every value is held by exactly one node |
| `TreeSpec.BuildShapeInorder` | bst.rb:23-33 | the tree built from an array reads back in order as that array |
| `TreeSpec.BuildShapeBalanced` | bst.rb:23-33 | the built tree is height-balanced, of height `SplitHeight(len)`, with 2^height at most the array's length |
| `TreeSpec.BuildShapeSearchTree` | bst.rb:19-33 | the built tree is a search tree exactly when the array is strictly increasing, and it holds exactly the array's elements |
| `TreeSpec.InitialTree` | bst.rb:19-21 | `Tree.new(array)` builds a balanced search tree holding exactly the elements of `array`, whose inorder sequence is `array.uniq.sort` |
| `TreeSpec.InitialTreeExample` | bst.rb:19-21 | `Tree.new([5, 3, 8, 3, 1])` reads back as `[1, 3, 5, 8]`, has root 5 and height 2 |
| `TreeSpec.LeftmostIsLeast` | bst.rb:71-75 | the node reached by following left links holds a value of the tree, and in a search tree the least one |
| `TreeSpec.SearchDescends` | bst.rb:77-87 | in a search tree a stored value below (above) the root's data lies in the left (right) subtree, so the descent of `find` cannot miss it |
| `TreeSpec.InsertValues` | bst.rb:35-45 | insertion adds exactly `value` to the stored values and keeps the search-tree order |
| `TreeSpec.InsertPresent` | bst.rb:38-44 | inserting a value already present leaves the tree unchanged |
| `TreeSpec.DeleteValues` | bst.rb:47-69 | on a search tree, deletion removes exactly `value` from the stored values and keeps the search-tree order |
| `TreeSpec.DeleteAbsent` | bst.rb:47-69 | deleting an absent value leaves the tree unchanged |
| `TreeSpec.DeleteUndoesInsert` | bst.rb:35-69 | deleting a value just inserted into a tree without it gives back the original tree |
| `TreeSpec.DeleteThenInsertInorder` | bst.rb:35-69 | deleting a stored value from a search tree and inserting it again gives a search tree with the same values and the same inorder sequence (the tree itself may be reshaped) |
| `TreeSpec.LevelOrderStep` | bst.rb:94-104 | one turn of the queue loop records the front node's data and appends its present children, left first |
| `TreeSpec.LevelOrderElements` | bst.rb:89-108 | the breadth-first walk of a queue records every value it holds, as often as it is stored |
| `TreeSpec.LevelOrderOfTree` | bst.rb:89-108 | the walk of a tree starts with the root's data, gives `[]` for an empty tree, and lists each value of a search tree exactly once |
| `Bst.Node.constructor` | bst.rb:5-9 | `Node.new(data)` is a leaf holding `data` |
| `Bst.BuildTree` | bst.rb:23-33 | `build_tree` allocates a fresh, well-formed subtree whose model is `BuildShape(array)`, with the exclusive left half `array[..mid]` |
| `Bst.Link` | bst.rb:29-30 | setting `left` and `right` of a node over two disjoint subtrees gives a well-formed subtree of those two models |
| `Bst.FindNode` | bst.rb:77-87 | `find` returns a node of the subtree holding `value`, and on a search tree returns nil only when `value` is absent |
| `Bst.MinValueNode` | bst.rb:71-75 | `min_value_node` returns nil for nil, otherwise a node of the subtree with no left child holding `Leftmost` of the model |
| `Bst.InsertNode` | bst.rb:35-45 | `insert` returns the same root, or a fresh leaf for nil, and the subtree's model becomes `InsertShape(value, old model)` |
| `Bst.DeleteNode` | bst.rb:47-69 | `delete` returns the new subtree root, with model `DeleteShape(value, old model)`: the node itself unless it holds `value`, its right child if it has no left child, its left child if it has no right child |
| `Bst.RemoveRoot` | bst.rb:54-66 | removing a node with two children copies in the leftmost value of its right subtree and deletes that value there; otherwise the node gives way to its one child, and it is left untouched |
| `Bst.Children` | bst.rb:103-104 | the nodes pushed for `current` are exactly `current.left` if present followed by `current.right` if present, each a well-formed subtree whose model is what `Enqueued` lists |
| `Bst.LevelOrderFrom` | bst.rb:89-108 | the queue loop of `level_order` returns exactly `LevelOrderOf([model])` |
| `Bst.Tree.constructor` | bst.rb:19-21 | `Tree.new(array)` holds a search tree whose values are exactly the elements of `array`, built as `BuildShape(array.uniq.sort)` |
| `Bst.Tree.Insert` | bst.rb:35-45 | `insert` with the result stored as the root: the values gain exactly `value` and the search order holds |
| `Bst.Tree.InsertAsWritten` | bst.rb:35-45 | `insert` with `root` not reassigned, as written, and the slips at bst.rb:36 and :41 corrected: the values of an empty tree stay empty |
| `Bst.Tree.Delete` | bst.rb:47-69 | `delete` with the result stored as the root: the values lose exactly `value` and the search order holds |
| `Bst.Tree.DeleteAsWritten` | bst.rb:47-69 | `delete` with `root` not reassigned, as written, and the slip at bst.rb:58 corrected: deleting the root's value is lost when the root has at most one child |
| `Bst.Tree.Find` | bst.rb:77-87 | `find(value)` is nil exactly when the tree does not hold `value`, and otherwise a node reachable from the root holding it |
| `Bst.Tree.LevelOrder` | bst.rb:89-108 | `level_order` lists each stored value exactly once, the root's first, and `[]` for an empty tree |
| `Findings.BuildTreeAsWrittenDiverges` | bst.rb:29 | with the inclusive left half `array[0..mid]`, `build_tree` never returns on a non-empty array |
| `Findings.InsertIntoEmptyTreeIsLost` | bst.rb:35-36 | `Tree.new([])` then `insert(7)`, with `root` not reassigned and `Mode.new` read as `Node.new`, leaves the tree empty |
| `Findings.DeleteOfLeafRootIsLost` | bst.rb:47-57 | `Tree.new([1])` (built with the corrected split) then `delete(1)` as written leaves 1 in the tree |
| `Findings.InsertAndDeleteCorrected` | bst.rb:35-69 | with the root stored back, inserting 7 into an empty tree and then deleting it gives an empty tree |

## Left out

- `Node#<=>` and `Comparable` (bst.rb:11-13): values are integers with their
  built-in order. Other comparable types are not modelled.
- `level_order` with a block (bst.rb:97-98): yielding to a caller's block is a
  call into code the model cannot see. Only the form that collects values is
  modelled.
- `pretty_print` (bst.rb:110-127): text output only.
- Traversals other than level order, height, depth, balance testing and
  rebalancing: `bst.rb` does not define them.
- `Array#uniq` and `Array#sort` are modelled by their results. `Uniq` keeps
  first occurrences, and `Sort` is an insertion sort. Ruby's own algorithms are
  not modelled.
- Bst.Tree.InsertAsWritten: models the dropped root of bst.rb:35-45 but
  reads bst.rb:36 and :41 as intended. It does not model the NameError that
  `Mode.new` raises on an empty tree or the NoMethodError of
  `value.node.right`.
- Bst.Tree.DeleteAsWritten: models the dropped root of bst.rb:47-69 but reads
  bst.rb:58 as `node.right.nil?`. It does not model the NoMethodError that
  `node.right?` raises when the node holding the value has a left child.
- Node identity outside the tree: a caller holding a `Node` returned by
  `find` can change its fields and break the search order. `Tree.Valid`
  rules that out instead of modelling it.

## Findings

| source | as written | input that shows it | evidently intended | confidence | as-written member | corrected member |
|---|---|---|---|---|---|---|
| bst.rb:29 | the left subtree is built from `array[0..mid]`, an inclusive range that still holds `array[mid]` | any non-empty array, e.g. `[1]`: the left half is `[1]` again, so `build_tree` recurses without end | the left half `array[0...mid]`, as the right half `array[mid + 1..-1]` already excludes `mid` | high; not executed | `Findings.BuildTreeAsWrittenDiverges` | `Bst.BuildTree` |
| bst.rb:35-45 | `insert` returns the new subtree root, but nothing stores it into `@root` when it is called on the whole tree | `Tree.new([])` then `insert(7)`, once the bst.rb:36 slip `Mode.new` reads `Node.new` (as written the call raises NameError there first, and an empty tree is the only case where a dropped root shows): the tree stays empty (`Findings.InsertIntoEmptyTreeIsLost`) | the tree's root becomes the returned node | medium, since a caller could store it through `root=`; not executed | `Bst.Tree.InsertAsWritten` | `Bst.Tree.Insert` |
| bst.rb:47-69 | `delete` returns the new subtree root, but nothing stores it into `@root` when it is called on the whole tree | a tree whose root is the leaf 1 (`Tree.new([1])` once bst.rb:29 is corrected, or a root set through `root=`), then `delete(1)`: bst.rb:56-57 returns nil before the bst.rb:58 slip, and the tree still holds 1 (`Findings.DeleteOfLeafRootIsLost`) | the tree's root becomes the returned node | medium, since a caller could store it through `root=`; not executed | `Bst.Tree.DeleteAsWritten` | `Bst.Tree.Delete` |
