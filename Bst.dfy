/** The pointer-linked tree of BST.h.  A `Node` is a `BST_Node`: mutable key,
    value and child links, plus a ghost footprint `Repr` (the nodes of its
    subtree) and a ghost abstract subtree `T`.  The recursive helpers of
    `BST<K, V>` are methods over a nullable subtree root, proved to follow the
    functions of TreeSpec; the public operations work on `head`. */
module BinarySearchTree {
  import opened TreeSpec

  class Node<V> {
    var key: int
    var value: V
    var left: Node?<V>
    var right: Node?<V>

    ghost var Repr: set<Node<V>>
    ghost var T: Tree<V>

    /** The two subtrees are well formed, disjoint and do not contain this
        node (so the links are acyclic and unshared), `Repr` is exactly the
        subtree's nodes and `T` is what they hold. */
    ghost predicate Valid()
      reads this, Repr
      decreases Repr
    {
      (left != null ==> left in Repr) && (right != null ==> right in Repr) &&
      Repr == {this} + ReprOf(left) + ReprOf(right) &&
      (left != null ==> this !in left.Repr && left.Valid()) &&
      (right != null ==> this !in right.Repr && right.Valid()) &&
      ReprOf(left) !! ReprOf(right) &&
      T == Branch(TreeOf(left), key, value, TreeOf(right))
    }

    /** `left = sub` for a subtree disjoint from the rest of this one. */
    method SetLeft(sub: Node?<V>)
      requires ValidLink(sub) && ValidLink(right)
      requires this !in ReprOf(sub) && this !in ReprOf(right)
      requires ReprOf(sub) !! ReprOf(right)
      modifies this
      ensures Valid() && left == sub && right == old(right)
      ensures key == old(key) && value == old(value)
      ensures Repr == {this} + ReprOf(sub) + ReprOf(right)
      ensures T == Branch(TreeOf(sub), key, value, TreeOf(right))
    {
      Relink(key, value, sub, right);
    }

    /** `right = sub` for a subtree disjoint from the rest of this one. */
    method SetRight(sub: Node?<V>)
      requires ValidLink(left) && ValidLink(sub)
      requires this !in ReprOf(left) && this !in ReprOf(sub)
      requires ReprOf(left) !! ReprOf(sub)
      modifies this
      ensures Valid() && left == old(left) && right == sub
      ensures key == old(key) && value == old(value)
      ensures Repr == {this} + ReprOf(left) + ReprOf(sub)
      ensures T == Branch(TreeOf(left), key, value, TreeOf(sub))
    {
      Relink(key, value, left, sub);
    }

    /** The one-child case of `remove`: this node takes over its only
        child's key, value and links, and the child leaves the footprint
        (the source then frees it). */
    method Absorb(child: Node<V>)
      requires Valid()
      requires (child == left && right == null) || (child == right && left == null)
      modifies this
      ensures Valid()
      ensures T == old(child.T)
      ensures Repr == old(Repr) - {child}
    {
      Unfold(this);
      Unfold(child);
      Relink(child.key, child.value, child.left, child.right);
    }

    /** Overwrites all four fields of this node at once. */
    method Relink(k: int, v: V, l: Node?<V>, r: Node?<V>)
      requires ValidLink(l) && ValidLink(r)
      requires this !in ReprOf(l) && this !in ReprOf(r)
      requires ReprOf(l) !! ReprOf(r)
      modifies this
      ensures Valid() && key == k && value == v && left == l && right == r
      ensures Repr == {this} + ReprOf(l) + ReprOf(r)
      ensures T == Branch(TreeOf(l), k, v, TreeOf(r))
    {
      key, value, left, right := k, v, l, r;
      Framed(l);
      Framed(r);
      Repr := {this} + ReprOf(l) + ReprOf(r);
      T := Branch(TreeOf(l), k, v, TreeOf(r));
    }

    /** `new BST_Node<K, V>(k, v)`: a childless node. */
    constructor (k: int, v: V)
      ensures Valid() && fresh(Repr)
      ensures key == k && value == v && left == null && right == null
      ensures T == Branch(Leaf, k, v, Leaf)
    {
      key, value := k, v;
      left, right := null, null;
      Repr := {this};
      T := Branch(Leaf, k, v, Leaf);
    }
  }

  /** The abstract subtree behind a possibly null link. */
  ghost function TreeOf<V>(n: Node?<V>): Tree<V>
    reads n
  {
    if n == null then Leaf else n.T
  }

  /** The nodes behind a possibly null link. */
  ghost function ReprOf<V>(n: Node?<V>): set<Node<V>>
    reads n
  {
    if n == null then {} else n.Repr
  }

  /** A null link or a well-formed subtree. */
  ghost predicate ValidLink<V>(n: Node?<V>)
    reads n, ReprOf(n)
  {
    n != null ==> n.Valid()
  }

  /** What `Valid()` says about a node's two links, spelled out. */
  lemma Unfold<V>(n: Node<V>)
    requires n.Valid()
    ensures ValidLink(n.left) && ValidLink(n.right)
    ensures n !in ReprOf(n.left) && n !in ReprOf(n.right)
    ensures ReprOf(n.left) !! ReprOf(n.right)
    ensures n.Repr == {n} + ReprOf(n.left) + ReprOf(n.right)
    ensures n.T == Branch(TreeOf(n.left), n.key, n.value, TreeOf(n.right))
  {
  }

  /** A well-formed subtree none of whose nodes changed is still well formed
      and still holds the same entries. */
  twostate lemma Framed<V>(n: Node?<V>)
    requires old(ValidLink(n))
    requires n != null ==> unchanged(old(n.Repr))
    ensures ValidLink(n) && ReprOf(n) == old(ReprOf(n)) && TreeOf(n) == old(TreeOf(n))
  {
  }

  /** Each node of a well-formed subtree is one entry of its abstract tree. */
  lemma {:induction false} NodeCount<V>(n: Node?<V>)
    requires ValidLink(n)
    ensures |ReprOf(n)| == Size(TreeOf(n))
    decreases ReprOf(n)
  {
    if n != null {
      NodeCount(n.left);
      NodeCount(n.right);
      assert ReprOf(n.left) !! ReprOf(n.right);
      assert n !in ReprOf(n.left) + ReprOf(n.right);
    }
  }

  class BST<V> {
    var head: Node?<V>
    ghost var Repr: set<object>

    /** The nodes reachable from `head` are well formed and satisfy the
        ordering invariant. */
    ghost predicate Valid()
      reads this, Repr
    {
      this in Repr &&
      (head != null ==> head in Repr && head.Repr <= Repr && head.Valid()) &&
      Repr == {this} + ReprOf(head) &&
      Ordered(TreeOf(head))
    }

    /** The entries the tree holds, as an abstract tree. */
    ghost function Model(): Tree<V>
      reads this, head
    {
      TreeOf(head)
    }

    /** `BST()`: an empty tree. */
    constructor ()
      ensures Valid() && fresh(Repr)
      ensures Model() == Leaf
    {
      head := null;
      Repr := {this};
    }

    // -------------------------------------------------------------------------
    // insert

    /** `insert(k, v)`: one new node holding (k, v); nothing is overwritten. */
    method Insert(k: int, v: V)
      requires Valid()
      modifies Repr
      ensures Valid() && old(Repr) <= Repr && fresh(Repr - old(Repr))
      ensures Model() == Inserted(old(Model()), k, v)
      ensures Elems(Model()) == Elems(old(Model())) + multiset{(k, v)}
      ensures Size(Model()) == Size(old(Model())) + 1
      ensures old(head) != null ==> head == old(head)
    {
      ghost var t := Model();
      var n := InsertAt(k, v, head);
      assert head == n;
      Repr := {this} + n.Repr;
      InsertedOrdered(t, k, v);
      InsertedElems(t, k, v);
    }

    /** `insert(k, v, root)`: on an empty tree the new node becomes `head`;
        otherwise the key goes left when strictly smaller and right when equal
        or greater, and a new node is linked in where the path ends. */
    method InsertAt(k: int, v: V, root: Node?<V>) returns (r: Node<V>)
      requires head == null ==> root == null
      requires ValidLink(root)
      modifies this`head, ReprOf(root)
      decreases ReprOf(root)
      ensures r.Valid()
      ensures root != null ==> r == root
      ensures r.T == Inserted(old(TreeOf(root)), k, v)
      ensures old(ReprOf(root)) <= r.Repr && fresh(r.Repr - old(ReprOf(root)))
      ensures head == if old(head) == null then r else old(head)
    {
      if head == null {
        head := new Node(k, v);
        return head;
      }
      if root == null {
        r := new Node(k, v);
        return;
      }
      Unfold(root);
      if k < root.key {
        var sub := InsertAt(k, v, root.left);
        Framed(root.right);
        root.SetLeft(sub);
      } else {
        var sub := InsertAt(k, v, root.right);
        Framed(root.left);
        root.SetRight(sub);
      }
      r := root;
    }

    // -------------------------------------------------------------------------
    // findByKey

    /** `findByKey(searchKey, root)`: the first node on the search path whose
        key equals `searchKey`, or null when the path runs out. */
    function FindNode(searchKey: int, root: Node?<V>): (r: Node?<V>)
      requires ValidLink(root)
      reads ReprOf(root)
      decreases ReprOf(root)
      ensures r != null ==> r in ReprOf(root) && r.key == searchKey
      ensures r == null <==> Lookup(TreeOf(root), searchKey).None?
      ensures r != null ==> Lookup(TreeOf(root), searchKey) == Some(r.value)
    {
      if root == null then null
      else if searchKey == root.key then root
      else if searchKey < root.key then FindNode(searchKey, root.left)
      else FindNode(searchKey, root.right)
    }

    /** `findByKey(searchKey)`: the value of the first matching node, or None
        where the source would dereference a null result. */
    function FindByKey(searchKey: int): (r: Option<V>)
      requires Valid()
      reads this, Repr
      ensures r.None? <==> searchKey !in Keys(Model())
      ensures r.Some? ==> (searchKey, r.value) in Elems(Model())
      ensures r == Lookup(Model(), searchKey)
    {
      LookupCorrect(Model(), searchKey);
      var n := FindNode(searchKey, head);
      if n == null then None else Some(n.value)
    }

    /** `findByKey(searchKey)` as BST.h writes it: the helper's result is
        dereferenced unconditionally, which is defined only when the key is
        present. */
    function FindByKeyAsWritten(searchKey: int): (r: V)
      requires Valid() && FindNode(searchKey, head) != null
      reads this, Repr
      ensures searchKey in Keys(Model())
      ensures Lookup(Model(), searchKey) == Some(r)
    {
      LookupCorrect(Model(), searchKey);
      FindNode(searchKey, head).value
    }

    // -------------------------------------------------------------------------
    // findInorderSuccessor

    /** `findInorderSuccessor(root)`: follows left links to the leftmost node,
        which has no left child and holds the subtree's minimum key. */
    method FindInorderSuccessor(root: Node<V>) returns (s: Node<V>)
      requires root.Valid()
      ensures s in root.Repr && s.left == null
      ensures (s.key, s.value) == Leftmost(root.T)
      ensures Ordered(root.T) ==> forall y :: y in Keys(root.T) ==> s.key <= y
    {
      var current := root;
      while current.left != null
        invariant current in root.Repr && current.Valid()
        invariant Leftmost(current.T) == Leftmost(root.T)
        decreases current.Repr
      {
        current := current.left;
      }
      s := current;
      LeftmostIsMinimum(root.T);
    }

    // -------------------------------------------------------------------------
    // remove

    /** `remove(key, value)`: the helper's result becomes the new `head`. */
    method Remove(key: int, value: V)
      requires Valid()
      modifies Repr
      ensures Valid() && Repr <= old(Repr)
      ensures Model() == Removed(old(Model()), key)
      ensures key !in Keys(old(Model())) ==> Model() == old(Model())
      ensures Lookup(old(Model()), key).Some? ==>
        Elems(Model()) == Elems(old(Model())) - multiset{(key, Lookup(old(Model()), key).value)}
      ensures Size(Model()) == Size(old(Model())) - (if key in Keys(old(Model())) then 1 else 0)
    {
      ghost var t := Model();
      var n := RemoveAt(key, value, head);
      head := n;
      Repr := {this} + ReprOf(n);
      RemovedOrdered(t, key);
      assert Valid();
      LookupCorrect(t, key);
      if key in Keys(t) {
        RemovedElems(t, key);
      } else {
        RemovedAbsent(t, key);
      }
    }

    /** `remove(key, value)` as BST.h writes it: the helper's result is
        dropped, so `head` keeps pointing at the old root node even when the
        helper deleted that node or moved the tree elsewhere. */
    method RemoveAsWritten(key: int, value: V) returns (helperResult: Node?<V>)
      requires Valid()
      modifies Repr
      ensures head == old(head)
      ensures ValidLink(helperResult)
      ensures TreeOf(helperResult) == Removed(old(Model()), key)
    {
      helperResult := RemoveAt(key, value, head);
    }

    /** `remove(key, value, root)`: searches by key exactly as findByKey does
        and hands the first matching node to RemoveMatched; an absent key
        reaches a null link and changes nothing.  `value` is only passed along. */
    method RemoveAt(key: int, value: V, root: Node?<V>) returns (r: Node?<V>)
      requires ValidLink(root)
      modifies ReprOf(root)
      decreases ReprOf(root), 2
      ensures r == null || r == root
      ensures ValidLink(r)
      ensures TreeOf(r) == Removed(old(TreeOf(root)), key)
      ensures ReprOf(r) <= old(ReprOf(root))
    {
      if root == null {
        return root;
      }
      Unfold(root);
      r := root;
      if key < root.key {
        var sub := RemoveAt(key, value, root.left);
        Framed(root.right);
        root.SetLeft(sub);
      } else if key > root.key {
        var sub := RemoveAt(key, value, root.right);
        Framed(root.left);
        root.SetRight(sub);
      } else {
        r := RemoveMatched(root);
      }
    }

    /** The matching-node part of `remove(key, value, root)`: a childless node
        is freed (the link becomes null), a node with one child absorbs that
        child, and a node with two children takes its inorder successor's
        entry. */
    method RemoveMatched(root: Node<V>) returns (r: Node?<V>)
      requires root.Valid()
      modifies root.Repr
      decreases root.Repr, 1
      ensures r == null || r == root
      ensures ValidLink(r)
      ensures TreeOf(r) == Removed(old(root.T), old(root.key))
      ensures ReprOf(r) <= old(root.Repr)
    {
      Unfold(root);
      if root.left == null && root.right == null {
        r := null;
      } else if root.left == null {
        root.Absorb(root.right);
        r := root;
      } else if root.right == null {
        root.Absorb(root.left);
        r := root;
      } else {
        ReplaceWithSuccessor(root);
        r := root;
      }
    }

    /** The two-child case of `remove`: the inorder successor's key and value
        are copied into `root`, then the successor is removed from the right
        subtree by its key. */
    method ReplaceWithSuccessor(root: Node<V>)
      requires root.Valid() && root.left != null && root.right != null
      modifies root.Repr
      decreases root.Repr, 0
      ensures root.Valid()
      ensures root.T == Removed(old(root.T), old(root.key))
      ensures root.Repr <= old(root.Repr)
    {
      Unfold(root);
      var temp := FindInorderSuccessor(root.right);
      ghost var rightTree := root.right.T;
      ghost var successor := (temp.key, temp.value);
      root.key := temp.key;
      root.value := temp.value;
      Framed(root.right);
      var sub := RemoveAt(temp.key, temp.value, root.right);
      Framed(root.left);
      root.SetRight(sub);
      assert successor == Leftmost(rightTree);
    }

    // -------------------------------------------------------------------------
    // deleteAll

    /** `deleteAll()`: frees every node and leaves the tree empty. */
    method DeleteAll() returns (ghost freed: seq<Node<V>>)
      requires Valid()
      modifies this
      ensures Valid() && Model() == Leaf
      ensures forall n :: n in freed <==> n in old(ReprOf(head))
      ensures Distinct(freed) && ChildrenFirst(freed)
      ensures |freed| == Size(old(Model()))
    {
      freed := DeleteAllAt(head);
      head := null;
      Repr := {this};
    }

    /** `deleteAll()` as BST.h writes it: every node is freed but `head`
        still points at the freed root. */
    method DeleteAllAsWritten() returns (ghost freed: seq<Node<V>>)
      requires Valid()
      ensures head == old(head)
      ensures forall n :: n in freed <==> n in ReprOf(head)
    {
      freed := DeleteAllAt(head);
    }

    /** `deleteAll(root)`: a post-order walk; `freed` lists the nodes in the
        order they are freed.  Every node of the subtree is freed exactly once,
        and only after both of its children. */
    method DeleteAllAt(root: Node?<V>) returns (ghost freed: seq<Node<V>>)
      requires ValidLink(root)
      decreases ReprOf(root)
      ensures forall n :: n in freed <==> n in ReprOf(root)
      ensures Distinct(freed) && ChildrenFirst(freed)
      ensures |freed| == Size(TreeOf(root))
      ensures root != null ==> freed != [] && freed[|freed| - 1] == root
    {
      if root == null {
        return [];
      }
      Unfold(root);
      ghost var fl := DeleteAllAt(root.left);
      ghost var fr := DeleteAllAt(root.right);
      freed := fl + fr + [root];
      DistinctConcat(fl, fr);
      DistinctConcat(fl + fr, [root]);
      ChildrenFirstConcat(fl, fr);
      ChildrenFirstThenParent(fl + fr, root);
    }
  }

  /** No element occurs twice. */
  ghost predicate Distinct<T>(s: seq<T>)
  {
    forall i, j :: 0 <= i < j < |s| ==> s[i] != s[j]
  }

  /** Every node comes after its children. */
  ghost predicate ChildrenFirst<V>(s: seq<Node<V>>)
    reads s
  {
    forall i :: 0 <= i < |s| ==>
      (s[i].left != null ==> s[i].left in s[..i]) &&
      (s[i].right != null ==> s[i].right in s[..i])
  }

  lemma DistinctConcat<T>(a: seq<T>, b: seq<T>)
    requires Distinct(a) && Distinct(b)
    requires forall x :: x in a ==> x !in b
    ensures Distinct(a + b)
  {
    forall i, j | 0 <= i < j < |a + b|
      ensures (a + b)[i] != (a + b)[j]
    {
      if j < |a| {
      } else if i < |a| {
        assert (a + b)[i] in a && (a + b)[j] in b;
      } else {
        assert (a + b)[i] == b[i - |a|] && (a + b)[j] == b[j - |a|];
      }
    }
  }

  lemma ChildrenFirstConcat<V>(a: seq<Node<V>>, b: seq<Node<V>>)
    requires ChildrenFirst(a) && ChildrenFirst(b)
    ensures ChildrenFirst(a + b)
  {
    forall i | 0 <= i < |a + b|
      ensures ((a + b)[i].left != null ==> (a + b)[i].left in (a + b)[..i]) &&
              ((a + b)[i].right != null ==> (a + b)[i].right in (a + b)[..i])
    {
      if i < |a| {
        assert (a + b)[..i] == a[..i];
      } else {
        assert (a + b)[i] == b[i - |a|];
        assert (a + b)[..i] == a + b[..i - |a|];
      }
    }
  }

  lemma ChildrenFirstThenParent<V>(s: seq<Node<V>>, n: Node<V>)
    requires ChildrenFirst(s)
    requires n.left != null ==> n.left in s
    requires n.right != null ==> n.right in s
    ensures ChildrenFirst(s + [n])
  {
    assert (s + [n])[..|s|] == s;
    forall i | 0 <= i < |s|
      ensures (s + [n])[..i] == s[..i]
    {
    }
  }
}
