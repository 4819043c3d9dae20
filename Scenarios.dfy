/** Concrete runs of the pointer-linked tree: the duplicate-key behaviour of
    insert and remove (BST.h:118-122, 189-199), the two places where BST.h's public wrappers leave `head`
    pointing at a node that is no longer part of the tree, and the null result
    that the public findByKey dereferences; each next to the corrected run. */
module Scenarios {
  import opened TreeSpec
  import opened BinarySearchTree

  /** The tree that inserting (5, "a"), (3, "b"), (8, "c"), (3, "d") builds. */
  function DuplicateTree(): Tree<string>
  {
    Branch(Branch(Leaf, 3, "b", Branch(Leaf, 3, "d", Leaf)), 5, "a", Branch(Leaf, 8, "c", Leaf))
  }

  /** Insert (5, "a"), (3, "b"): the smaller key goes left of the root. */
  method BuildBase() returns (t: BST<string>)
    ensures t.Valid() && fresh(t.Repr)
    ensures t.Model() == Branch(Branch(Leaf, 3, "b", Leaf), 5, "a", Leaf)
  {
    t := new BST<string>();
    t.Insert(5, "a");
    assert fresh(t.Repr);
    t.Insert(3, "b");
  }

  /** Then insert (8, "c"), (3, "d"): the second 3 goes to the right of the
      first. */
  method BuildWithDuplicate() returns (t: BST<string>)
    ensures t.Valid() && fresh(t.Repr)
    ensures t.Model() == DuplicateTree()
  {
    t := BuildBase();
    t.Insert(8, "c");
    assert fresh(t.Repr);
    t.Insert(3, "d");
  }

  /** On that tree findByKey(3) sees "b"; after removing key 3 it sees "d". */
  method DuplicateKeyRun() returns (before: Option<string>, after: Option<string>)
    ensures before == Some("b") && after == Some("d")
  {
    var t := BuildWithDuplicate();
    before := t.FindByKey(3);
    t.Remove(3, "b");
    assert t.Model() == Branch(Branch(Leaf, 3, "d", Leaf), 5, "a", Branch(Leaf, 8, "c", Leaf));
    after := t.FindByKey(3);
  }

  /** Removing key 3 from that tree leaves three entries whose keys read
      3, 5, 8 in order. */
  lemma DuplicateKeyRemoval()
    ensures var t := Branch(Branch(Leaf, 3, "b", Branch(Leaf, 3, "d", Leaf)), 5, "a", Branch(Leaf, 8, "c", Leaf));
      Size(Removed(t, 3)) == 3 && InOrderKeys(Removed(t, 3)) == [3, 5, 8]
  {
    var rest := Branch(Branch(Leaf, 3, "d", Leaf), 5, "a", Branch(Leaf, 8, "c", Leaf));
    assert InOrderKeys(rest.left) == [3] && InOrderKeys(rest.right) == [8];
  }

  /** Removing the only entry with `remove` as written: the helper returns
      null, yet `head` still points at the node it deleted. */
  method RemoveOnlyEntryAsWritten() returns (helperResult: Node?<string>, head: Node?<string>)
    ensures helperResult == null && head != null
  {
    var t := new BST<string>();
    t.Insert(5, "a");
    helperResult := t.RemoveAsWritten(5, "a");
    head := t.head;
  }

  /** The same removal through the corrected `remove`: the tree is empty. */
  method RemoveOnlyEntry() returns (head: Node?<string>)
    ensures head == null
  {
    var t := new BST<string>();
    t.Insert(5, "a");
    t.Remove(5, "a");
    head := t.head;
  }

  /** `deleteAll` as written on a one-entry tree: the node is freed and
      `head` still points at it, so the destructor's second `deleteAll` would
      free it again. */
  method DeleteAllAsWrittenRun() returns (head: Node?<string>, ghost freed: seq<Node<string>>)
    ensures head != null && head in freed
  {
    var t := new BST<string>();
    t.Insert(5, "a");
    freed := t.DeleteAllAsWritten();
    head := t.head;
  }

  /** The corrected `deleteAll` on the same tree frees the node and empties
      the tree, so a second call frees nothing. */
  method DeleteAllRun() returns (head: Node?<string>, ghost freed: seq<Node<string>>, ghost again: seq<Node<string>>)
    ensures head == null && |freed| == 1 && again == []
  {
    var t := new BST<string>();
    t.Insert(5, "a");
    freed := t.DeleteAll();
    head := t.head;
    again := t.DeleteAll();
  }

  /** A missing key with `findByKey` as written: the helper returns null,
      which the public overload then dereferences. */
  method FindMissingKeyAsWritten() returns (found: Node?<string>)
    ensures found == null
  {
    var t := new BST<string>();
    t.Insert(5, "a");
    found := t.FindNode(3, t.head);
  }

  /** The same lookup through the corrected `findByKey`: a checked miss. */
  method FindMissingKey() returns (r: Option<string>)
    ensures r == None
  {
    var t := new BST<string>();
    t.Insert(5, "a");
    r := t.FindByKey(3);
  }
}
