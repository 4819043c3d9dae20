/** The abstract view of the binary search tree of BST.h: an immutable tree of
    (key, value) entries, and the functions that say what insert, findByKey,
    findInorderSuccessor and remove do to it.  The pointer-linked class in
    Bst.dfy is proved to follow these functions step by step. */
module TreeSpec {

  datatype Option<T> = None | Some(value: T)

  /** A subtree: either absent (a null child pointer) or a node with a key, a
      value and two subtrees. */
  datatype Tree<V> = Leaf | Branch(left: Tree<V>, key: int, value: V, right: Tree<V>)

  /** The set of keys held anywhere in `t`. */
  function Keys<V>(t: Tree<V>): set<int>
  {
    match t
    case Leaf => {}
    case Branch(l, k, _, r) => Keys(l) + {k} + Keys(r)
  }

  /** The (key, value) entries of `t`, one per node; duplicate keys are kept. */
  ghost function Elems<V>(t: Tree<V>): multiset<(int, V)>
  {
    match t
    case Leaf => multiset{}
    case Branch(l, k, v, r) => Elems(l) + multiset{(k, v)} + Elems(r)
  }

  /** The number of nodes of `t`. */
  function Size<V>(t: Tree<V>): nat
  {
    match t
    case Leaf => 0
    case Branch(l, _, _, r) => Size(l) + 1 + Size(r)
  }

  /** The keys of `t` read in order (left subtree, node, right subtree). */
  function InOrderKeys<V>(t: Tree<V>): seq<int>
  {
    match t
    case Leaf => []
    case Branch(l, k, _, r) => InOrderKeys(l) + [k] + InOrderKeys(r)
  }

  /** The ordering invariant: every key of a left subtree is strictly less than
      its node's key, every key of a right subtree is greater than or equal to it. */
  ghost predicate Ordered<V>(t: Tree<V>)
  {
    match t
    case Leaf => true
    case Branch(l, k, _, r) =>
      Ordered(l) && Ordered(r) &&
      (forall y :: y in Keys(l) ==> y < k) &&
      (forall y :: y in Keys(r) ==> k <= y)
  }

  /** insert: a smaller key goes left, an equal or greater key goes right, and
      the new entry becomes a fresh childless node where the path ends, so the
      result is never empty and holds `k`. */
  function Inserted<V>(t: Tree<V>, k: int, v: V): (r: Tree<V>)
    ensures r.Branch? && k in Keys(r)
  {
    match t
    case Leaf => Branch(Leaf, k, v, Leaf)
    case Branch(l, x, w, r) =>
      if k < x then Branch(Inserted(l, k, v), x, w, r)
      else Branch(l, x, w, Inserted(r, k, v))
  }

  /** findByKey: the value of the first node with key `k` on the search path;
      a hit is always one of the entries of `t`. */
  function Lookup<V>(t: Tree<V>, k: int): (r: Option<V>)
    ensures r.Some? ==> (k, r.value) in Elems(t)
  {
    match t
    case Leaf => None
    case Branch(l, x, w, r) =>
      if k == x then Some(w)
      else if k < x then Lookup(l, k)
      else Lookup(r, k)
  }

  /** findInorderSuccessor: the entry of the leftmost node of a non-empty
      subtree, which is one of its entries. */
  function Leftmost<V>(t: Tree<V>): (r: (int, V))
    requires t.Branch?
    ensures r in Elems(t)
  {
    if t.left.Leaf? then (t.key, t.value) else Leftmost(t.left)
  }

  /** remove: the search path by key; a childless target disappears, a target
      with one child is replaced by that child's subtree, and a target with two
      children takes the inorder successor's entry, which is then removed from
      the right subtree by its key, so at most one node disappears.  The value
      argument of the source plays no part in it. */
  function Removed<V>(t: Tree<V>, k: int): (r: Tree<V>)
    ensures Size(t) - 1 <= Size(r) <= Size(t)
  {
    match t
    case Leaf => Leaf
    case Branch(l, x, w, r) =>
      if k < x then Branch(Removed(l, k), x, w, r)
      else if k > x then Branch(l, x, w, Removed(r, k))
      else if l.Leaf? && r.Leaf? then Leaf
      else if l.Leaf? then r
      else if r.Leaf? then l
      else
        var (m, mv) := Leftmost(r);
        Branch(l, m, mv, Removed(r, m))
  }

  // ---------------------------------------------------------------------------
  // Counting

  lemma {:induction false} SizeIsElemsCount<V>(t: Tree<V>)
    ensures |Elems(t)| == Size(t)
  {
    match t
    case Leaf =>
    case Branch(l, _, _, r) =>
      SizeIsElemsCount(l);
      SizeIsElemsCount(r);
  }

  lemma {:induction false} ElemKeyInKeys<V>(t: Tree<V>, k: int, v: V)
    requires (k, v) in Elems(t)
    ensures k in Keys(t)
  {
    match t
    case Branch(l, x, w, r) =>
      if (k, v) in Elems(l) {
        ElemKeyInKeys(l, k, v);
      } else if (k, v) in Elems(r) {
        ElemKeyInKeys(r, k, v);
      }
  }

  // ---------------------------------------------------------------------------
  // The ordering invariant read as a sequence

  /** The inorder key sequence has one position per node and holds exactly the
      keys of the tree. */
  lemma {:induction false} InOrderKeysContent<V>(t: Tree<V>)
    ensures |InOrderKeys(t)| == Size(t)
    ensures forall y :: y in InOrderKeys(t) <==> y in Keys(t)
  {
    match t
    case Leaf =>
    case Branch(l, k, _, r) =>
      InOrderKeysContent(l);
      InOrderKeysContent(r);
      assert InOrderKeys(t) == InOrderKeys(l) + [k] + InOrderKeys(r);
  }

  /** The inorder key sequence of an ordered tree never decreases, has one
      position per node, and lists exactly the keys of the tree. */
  lemma {:induction false} OrderedInOrderSorted<V>(t: Tree<V>)
    requires Ordered(t)
    ensures forall i, j :: 0 <= i < j < |InOrderKeys(t)| ==> InOrderKeys(t)[i] <= InOrderKeys(t)[j]
    ensures |InOrderKeys(t)| == Size(t)
    ensures forall i :: 0 <= i < |InOrderKeys(t)| ==> InOrderKeys(t)[i] in Keys(t)
    ensures forall y :: y in Keys(t) ==> y in InOrderKeys(t)
  {
    InOrderKeysContent(t);
    match t
    case Leaf =>
    case Branch(l, k, _, r) =>
      var s := InOrderKeys(t);
      var sl, sr := InOrderKeys(l), InOrderKeys(r);
      assert s == sl + [k] + sr;
      forall i, j | 0 <= i < j < |s|
        ensures s[i] <= s[j]
      {
        if j < |sl| {
          OrderedInOrderSorted(l);
          assert s[i] == sl[i] && s[j] == sl[j];
        } else if |sl| < i {
          OrderedInOrderSorted(r);
          assert s[i] == sr[i - |sl| - 1] && s[j] == sr[j - |sl| - 1];
        } else {
          assert s[i] <= k by {
            if i < |sl| {
              InOrderKeysContent(l);
              assert s[i] == sl[i] && sl[i] in sl;
            }
          }
          assert k <= s[j] by {
            if |sl| < j {
              InOrderKeysContent(r);
              assert s[j] == sr[j - |sl| - 1] && sr[j - |sl| - 1] in sr;
            }
          }
        }
      }
  }

  // ---------------------------------------------------------------------------
  // insert

  lemma {:induction false} InsertedElems<V>(t: Tree<V>, k: int, v: V)
    ensures Elems(Inserted(t, k, v)) == Elems(t) + multiset{(k, v)}
    ensures Size(Inserted(t, k, v)) == Size(t) + 1
  {
    match t
    case Leaf =>
    case Branch(l, x, w, r) =>
      var e := multiset{(k, v)};
      if k < x {
        InsertedElems(l, k, v);
        ElemsReplaceLeft(Inserted(t, k, v), l, e);
      } else {
        InsertedElems(r, k, v);
        ElemsReplaceRight(Inserted(t, k, v), r, e);
      }
  }

  lemma {:induction false} InsertedKeys<V>(t: Tree<V>, k: int, v: V)
    ensures Keys(Inserted(t, k, v)) == Keys(t) + {k}
  {
    match t
    case Leaf =>
    case Branch(l, x, w, r) =>
      if k < x {
        InsertedKeys(l, k, v);
      } else {
        InsertedKeys(r, k, v);
      }
  }

  /** Insert keeps the ordering invariant. */
  lemma {:induction false} InsertedOrdered<V>(t: Tree<V>, k: int, v: V)
    requires Ordered(t)
    ensures Ordered(Inserted(t, k, v))
  {
    match t
    case Leaf =>
    case Branch(l, x, w, r) =>
      if k < x {
        InsertedOrdered(l, k, v);
        InsertedKeys(l, k, v);
      } else {
        InsertedOrdered(r, k, v);
        InsertedKeys(r, k, v);
      }
  }

  /** An equal key is never merged or overwritten: where the search path
      already finds an entry for `k`, it still finds that same entry after the
      insert, and the new entry is added beside it. */
  lemma {:induction false} InsertedDuplicateKept<V>(t: Tree<V>, k: int, v: V)
    requires Lookup(t, k).Some?
    ensures Lookup(Inserted(t, k, v), k) == Lookup(t, k)
    ensures Elems(Inserted(t, k, v)) == Elems(t) + multiset{(k, v)}
  {
    InsertedElems(t, k, v);
    match t
    case Branch(l, x, w, r) =>
      if k < x {
        InsertedDuplicateKept(l, k, v);
      } else if k > x {
        InsertedDuplicateKept(r, k, v);
      }
  }

  /** After inserting a key that was absent, looking it up yields the new value. */
  lemma {:induction false} LookupAfterInsert<V>(t: Tree<V>, k: int, v: V)
    requires k !in Keys(t)
    ensures Lookup(Inserted(t, k, v), k) == Some(v)
  {
    match t
    case Leaf =>
    case Branch(l, x, w, r) =>
      if k < x {
        LookupAfterInsert(l, k, v);
      } else {
        LookupAfterInsert(r, k, v);
      }
  }

  /** The tree built by inserting `entries` into `t` one after another. */
  function InsertedAll<V>(t: Tree<V>, entries: seq<(int, V)>): Tree<V>
    decreases |entries|
  {
    if entries == [] then t
    else InsertedAll(Inserted(t, entries[0].0, entries[0].1), entries[1..])
  }

  /** Any sequence of inserts keeps the ordering and adds exactly the
      inserted entries. */
  lemma {:induction false} InsertedAllElems<V>(t: Tree<V>, entries: seq<(int, V)>)
    requires Ordered(t)
    decreases |entries|
    ensures Ordered(InsertedAll(t, entries))
    ensures Elems(InsertedAll(t, entries)) == Elems(t) + multiset(entries)
  {
    if entries != [] {
      var (k, v) := entries[0];
      var t', rest := Inserted(t, k, v), entries[1..];
      assert InsertedAll(t, entries) == InsertedAll(t', rest);
      InsertedOrdered(t, k, v);
      InsertedAllElems(t', rest);
      InsertedElems(t, k, v);
      MultisetOfCons(entries);
      calc {
        Elems(InsertedAll(t, entries));
        Elems(t') + multiset(rest);
        Elems(t) + multiset{(k, v)} + multiset(rest);
        Elems(t) + multiset(entries);
      }
    }
  }

  /** The keys of a sequence of entries, in the same order. */
  function EntryKeys<V>(entries: seq<(int, V)>): seq<int>
  {
    if entries == [] then [] else [entries[0].0] + EntryKeys(entries[1..])
  }

  /** Insert adds its key once to the inorder key sequence and keeps every
      other occurrence. */
  lemma {:induction false} InsertedInOrder<V>(t: Tree<V>, k: int, v: V)
    ensures multiset(InOrderKeys(Inserted(t, k, v))) == multiset(InOrderKeys(t)) + multiset{k}
  {
    match t
    case Leaf =>
    case Branch(l, x, w, r) =>
      var t' := Inserted(t, k, v);
      if k < x {
        InsertedInOrder(l, k, v);
        InOrderReplaceLeft(t, t'.left, multiset{k});
      } else {
        InsertedInOrder(r, k, v);
        InOrderReplaceRight(t, t'.right, multiset{k});
      }
  }

  lemma InOrderReplaceLeft<V>(t: Tree<V>, l': Tree<V>, e: multiset<int>)
    requires t.Branch? && multiset(InOrderKeys(l')) == multiset(InOrderKeys(t.left)) + e
    ensures multiset(InOrderKeys(Branch(l', t.key, t.value, t.right))) == multiset(InOrderKeys(t)) + e
  {
  }

  lemma InOrderReplaceRight<V>(t: Tree<V>, r': Tree<V>, e: multiset<int>)
    requires t.Branch? && multiset(InOrderKeys(r')) == multiset(InOrderKeys(t.right)) + e
    ensures multiset(InOrderKeys(Branch(t.left, t.key, t.value, r'))) == multiset(InOrderKeys(t)) + e
  {
  }

  /** A sequence of inserts adds exactly the inserted keys to the inorder key
      sequence. */
  lemma {:induction false} InsertedAllInOrder<V>(t: Tree<V>, entries: seq<(int, V)>)
    decreases |entries|
    ensures multiset(InOrderKeys(InsertedAll(t, entries))) == multiset(InOrderKeys(t)) + multiset(EntryKeys(entries))
  {
    if entries != [] {
      var (k, v) := entries[0];
      var t' := Inserted(t, k, v);
      assert InsertedAll(t, entries) == InsertedAll(t', entries[1..]);
      InsertedAllInOrder(t', entries[1..]);
      InsertedInOrder(t, k, v);
      assert EntryKeys(entries) == [k] + EntryKeys(entries[1..]);
    }
  }

  lemma MultisetOfCons<X>(s: seq<X>)
    requires s != []
    ensures multiset(s) == multiset{s[0]} + multiset(s[1..])
  {
    assert s == [s[0]] + s[1..];
  }

  /** A tree built by inserts alone holds exactly the inserted entries, and
      its keys read in order are the inserted keys, sorted. */
  lemma InsertedAllSorted<V>(entries: seq<(int, V)>)
    ensures Elems(InsertedAll(Leaf, entries)) == multiset(entries)
    ensures var ks := InOrderKeys(InsertedAll(Leaf, entries));
      (forall i, j :: 0 <= i < j < |ks| ==> ks[i] <= ks[j]) &&
      multiset(ks) == multiset(EntryKeys(entries))
  {
    var t := InsertedAll(Leaf, entries);
    var ks := InOrderKeys(t);
    assert Ordered(t) && Elems(t) == multiset(entries) by {
      InsertedAllElems(Leaf, entries);
    }
    assert multiset(ks) == multiset(EntryKeys(entries)) by {
      InsertedAllInOrder(Leaf, entries);
    }
    assert forall i, j :: 0 <= i < j < |ks| ==> ks[i] <= ks[j] by {
      OrderedInOrderSorted(t);
    }
  }

  // ---------------------------------------------------------------------------
  // findByKey

  /** On an ordered tree the lookup misses exactly when the key is absent, and a
      hit is one of the tree's entries. */
  lemma {:induction false} LookupCorrect<V>(t: Tree<V>, k: int)
    requires Ordered(t)
    ensures Lookup(t, k).None? <==> k !in Keys(t)
    ensures Lookup(t, k).Some? ==> (k, Lookup(t, k).value) in Elems(t)
  {
    match t
    case Leaf =>
    case Branch(l, x, w, r) =>
      if k < x {
        LookupCorrect(l, k);
        assert k !in Keys(r);
        assert k in Keys(t) <==> k in Keys(l);
      } else if k > x {
        LookupCorrect(r, k);
        assert k !in Keys(l);
        assert k in Keys(t) <==> k in Keys(r);
      }
  }

  // ---------------------------------------------------------------------------
  // findInorderSuccessor

  /** The leftmost entry is an entry of the subtree, and on an ordered subtree
      its key is the minimum key. */
  lemma {:induction false} LeftmostIsMinimum<V>(t: Tree<V>)
    requires t.Branch?
    ensures Leftmost(t) in Elems(t)
    ensures Leftmost(t).0 in Keys(t)
    ensures Ordered(t) ==> forall y :: y in Keys(t) ==> Leftmost(t).0 <= y
  {
    if t.left.Branch? {
      var m := Leftmost(t.left);
      LeftmostIsMinimum(t.left);
      assert Leftmost(t) == m;
      assert Elems(t) == Elems(t.left) + multiset{(t.key, t.value)} + Elems(t.right);
      if Ordered(t) {
        assert Ordered(t.left);
        assert m.0 < t.key;
        forall y | y in Keys(t)
          ensures m.0 <= y
        {
          assert y in Keys(t.left) || y == t.key || y in Keys(t.right);
        }
      }
    }
  }

  /** Searching an ordered subtree for its minimum key stops at the leftmost
      node, so the successor's key and value are what the search finds. */
  lemma {:induction false} LookupLeftmost<V>(t: Tree<V>)
    requires t.Branch? && Ordered(t)
    ensures Lookup(t, Leftmost(t).0) == Some(Leftmost(t).1)
  {
    if t.left.Branch? {
      LookupLeftmost(t.left);
      LeftmostIsMinimum(t.left);
    }
  }

  // ---------------------------------------------------------------------------
  // remove

  /** Removing an absent key changes nothing (ordered or not). */
  lemma {:induction false} RemovedAbsent<V>(t: Tree<V>, k: int)
    requires k !in Keys(t)
    ensures Removed(t, k) == t
  {
    match t
    case Leaf =>
    case Branch(l, x, w, r) =>
      if k < x {
        RemovedAbsent(l, k);
      } else if k > x {
        RemovedAbsent(r, k);
      }
  }

  /** Remove never introduces a key. */
  lemma {:induction false} RemovedKeys<V>(t: Tree<V>, k: int)
    ensures Keys(Removed(t, k)) <= Keys(t)
  {
    match t
    case Leaf =>
    case Branch(l, x, w, r) =>
      if k < x {
        RemovedKeys(l, k);
      } else if k > x {
        RemovedKeys(r, k);
      } else if l.Branch? && r.Branch? {
        LeftmostIsMinimum(r);
        RemovedKeys(r, Leftmost(r).0);
      }
  }

  /** Removing a present key deletes exactly the entry that the lookup finds
      (the first node with that key on the search path): one entry, one node. */
  lemma {:induction false} RemovedElems<V>(t: Tree<V>, k: int)
    requires Ordered(t) && k in Keys(t)
    ensures Lookup(t, k).Some?
    ensures (k, Lookup(t, k).value) in Elems(t)
    ensures Elems(Removed(t, k)) == Elems(t) - multiset{(k, Lookup(t, k).value)}
    ensures Size(Removed(t, k)) == Size(t) - 1
  {
    LookupCorrect(t, k);
    RemovedEntry(t, k);
    SizeIsElemsCount(t);
    SizeIsElemsCount(Removed(t, k));
  }

  lemma {:induction false} RemovedEntry<V>(t: Tree<V>, k: int)
    requires Ordered(t) && Lookup(t, k).Some?
    ensures Elems(Removed(t, k)) + multiset{(k, Lookup(t, k).value)} == Elems(t)
    decreases t, 1
  {
    var Branch(l, x, w, r) := t;
    if k < x {
      RemovedEntry(l, k);
      ElemsReplaceLeft(t, Removed(l, k), multiset{(k, Lookup(l, k).value)});
    } else if k > x {
      RemovedEntry(r, k);
      ElemsReplaceRight(t, Removed(r, k), multiset{(k, Lookup(r, k).value)});
    } else if l.Branch? && r.Branch? {
      RemovedSuccessor(t);
    }
  }

  lemma ElemsReplaceLeft<V>(t: Tree<V>, l': Tree<V>, e: multiset<(int, V)>)
    requires t.Branch? && Elems(l') + e == Elems(t.left)
    ensures Elems(Branch(l', t.key, t.value, t.right)) + e == Elems(t)
  {
  }

  lemma ElemsReplaceRight<V>(t: Tree<V>, r': Tree<V>, e: multiset<(int, V)>)
    requires t.Branch? && Elems(r') + e == Elems(t.right)
    ensures Elems(Branch(t.left, t.key, t.value, r')) + e == Elems(t)
  {
  }

  /** The two-child case: the successor's entry moves up and its node goes. */
  lemma {:induction false} RemovedSuccessor<V>(t: Tree<V>)
    requires Ordered(t) && t.Branch? && t.left.Branch? && t.right.Branch?
    ensures Elems(Removed(t, t.key)) + multiset{(t.key, t.value)} == Elems(t)
    decreases t, 0
  {
    var Branch(l, x, w, r) := t;
    var (m, mv) := Leftmost(r);
    LookupLeftmost(r);
    RemovedEntry(r, m);
    assert Removed(t, x) == Branch(l, m, mv, Removed(r, m));
    assert Elems(Removed(r, m)) + multiset{(m, mv)} == Elems(r);
  }

  /** Remove keeps the ordering invariant in all three cases.  In the two-child
      case the successor key is at least every key on the left (which are below
      the old key) and at most every key left on the right. */
  lemma {:induction false} RemovedOrdered<V>(t: Tree<V>, k: int)
    requires Ordered(t)
    ensures Ordered(Removed(t, k))
  {
    match t
    case Leaf =>
    case Branch(l, x, w, r) =>
      if k < x {
        RemovedOrdered(l, k);
        RemovedKeys(l, k);
      } else if k > x {
        RemovedOrdered(r, k);
        RemovedKeys(r, k);
      } else if l.Branch? && r.Branch? {
        var (m, mv) := Leftmost(r);
        LeftmostIsMinimum(r);
        RemovedOrdered(r, m);
        RemovedKeys(r, m);
      }
  }
}
