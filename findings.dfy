/** The code of bst.rb as written, where it departs from what it evidently
    intends, next to inputs that show the difference. */
module Findings {
  import opened ArrayOps
  import opened Shapes
  import opened TreeSpec
  import opened Bst

  /** `build_tree` with the left half `array[0..mid]` of bst.rb:29, an
      inclusive range that keeps `array[mid]`: true when the recursion returns
      within `fuel` nested calls. */
  function BuildTreeAsWritten(items: seq<int>, fuel: nat): bool
    decreases fuel
  {
    if items == [] then true
    else if fuel == 0 then false
    else
      var mid := |items| / 2;
      BuildTreeAsWritten(items[..mid + 1], fuel - 1) && BuildTreeAsWritten(items[mid + 1..], fuel - 1)
  }

  /** On any non-empty array the left half as written is non-empty again, so
      the recursion never returns, however deep it is allowed to go. */
  lemma {:induction false} BuildTreeAsWrittenDiverges(items: seq<int>, fuel: nat)
    requires items != []
    ensures !BuildTreeAsWritten(items, fuel)
    decreases fuel
  {
    if fuel > 0 {
      BuildTreeAsWrittenDiverges(items[..|items| / 2 + 1], fuel - 1);
    }
  }

  /** `Tree.new([])` followed by `insert(7)`, with `@root` never reassigned
      as bst.rb:35-45 has it. In bst.rb exactly as written this call raises
      NameError at bst.rb:36 (`Mode.new`) before anything is returned; once that
      slip reads `Node.new`, the new leaf is returned but never stored as the
      root. An empty tree is the only case where the dropped root shows. */
  method InsertIntoEmptyTreeIsLost() returns (t: Tree)
    ensures t.Valid() && t.root == null && 7 !in t.Contents
  {
    t := new Tree([]);
    var n := t.InsertAsWritten(7);
  }

  /** `Tree.new([1])` followed by `delete(1)` as written: the root is a leaf,
      so bst.rb:56-57 returns its nil right child without reaching the slip at
      bst.rb:58; that nil is dropped, and the tree still holds 1. The tree is
      built with the corrected split of bst.rb:29 (as written, `Tree.new([1])`
      does not return); a root set through `root=` shows the same. */
  method DeleteOfLeafRootIsLost() returns (t: Tree)
    ensures t.Valid() && t.Contents == {1}
  {
    t := new Tree([1]);
    assert SortedUnique([1]) == [1] by {
      SameElementsSameSequence(SortedUnique([1]), [1]);
    }
    assert BuildShape([1]) == Branch(Empty, 1, Empty) by {
      assert [1][..0] == [] && [1][1..] == [];
    }
    assert t.root != null && t.root.data == 1 && t.root.left == null;
    var n := t.DeleteAsWritten(1);
  }

  /** The same two calls with the root stored back. */
  method InsertAndDeleteCorrected() returns (t: Tree)
    ensures t.Valid() && t.Contents == {}
  {
    t := new Tree([]);
    t.Insert(7);
    assert t.Contents == {7};
    t.Delete(7);
  }
}
