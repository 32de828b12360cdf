/** The binary search tree of `algorithms/tree/bst.py`.

    Nodes are values of `BNode`; the `BinarySearchTree` class holds the root
    and the size counter, which the source's recursive helpers update as they
    go. A helper that reassigns `node.left`, `node.right` or `node.value` in
    place is modelled as rebuilding the node. Within the tree no node is
    shared, so the tree itself comes out the same; a node handed out earlier
    by `find_min_node` or `find_max_node` is a snapshot here, whereas in the
    source it is the live node and sees later writes. */
module Bst {
  import opened Wrappers
  import GenericTree

  datatype BNode<V> = Nil | Node(key: int, value: V, left: BNode<V>, right: BNode<V>)

  // ---------------------------------------------------------------------------
  // Abstractions

  function Keys<V>(t: BNode<V>): set<int>
  {
    match t
    case Nil => {}
    case Node(k, _, l, r) => Keys(l) + {k} + Keys(r)
  }

  /** Number of nodes. */
  function Count<V>(t: BNode<V>): nat
  {
    match t
    case Nil => 0
    case Node(_, _, l, r) => Count(l) + 1 + Count(r)
  }

  /** The key/value pairs stored in the tree. */
  function Contents<V>(t: BNode<V>): map<int, V>
  {
    match t
    case Nil => map[]
    case Node(k, v, l, r) => (Contents(l) + Contents(r))[k := v]
  }

  /** The ordering invariant: left keys below the node's key, right keys above. */
  predicate IsBst<V>(t: BNode<V>)
  {
    match t
    case Nil => true
    case Node(k, _, l, r) =>
      && IsBst(l) && IsBst(r)
      && (forall x :: x in Keys(l) ==> x < k)
      && (forall x :: x in Keys(r) ==> k < x)
  }

  /** The shape and keys of a tree, with the values forgotten. */
  function Erase<V>(t: BNode<V>): BNode<()>
  {
    match t
    case Nil => Nil
    case Node(k, _, l, r) => Node(k, (), Erase(l), Erase(r))
  }

  lemma ContentsKeys<V>(t: BNode<V>)
    ensures Contents(t).Keys == Keys(t)
  {
  }

  // Map algebra used to relate the contents of a rebuilt node to the old ones.

  lemma UpdateLeft<V>(a: map<int, V>, b: map<int, V>, k: int, v: V, key: int, value: V)
    requires key != k && key !in b
    ensures (a[key := value] + b)[k := v] == ((a + b)[k := v])[key := value]
  {
  }

  lemma UpdateRight<V>(a: map<int, V>, b: map<int, V>, k: int, v: V, key: int, value: V)
    requires key != k
    ensures (a + b[key := value])[k := v] == ((a + b)[k := v])[key := value]
  {
  }

  lemma RemoveLeft<V>(a: map<int, V>, b: map<int, V>, k: int, v: V, key: int)
    requires key != k && key !in b
    ensures ((a - {key}) + b)[k := v] == ((a + b)[k := v]) - {key}
  {
  }

  lemma RemoveRight<V>(a: map<int, V>, b: map<int, V>, k: int, v: V, key: int)
    requires key != k && key !in a
    ensures (a + (b - {key}))[k := v] == ((a + b)[k := v]) - {key}
  {
  }

  lemma RemoveUpdated<V>(m: map<int, V>, k: int, v: V)
    requires k !in m
    ensures m[k := v] - {k} == m
  {
  }

  lemma UpdateThenUnion<V>(a: map<int, V>, b: map<int, V>, k: int, v: V)
    requires k !in b
    ensures (a + b)[k := v] == a[k := v] + b
  {
  }

  lemma UnionAssoc<V>(a: map<int, V>, b: map<int, V>, c: map<int, V>)
    ensures a + (b + c) == (a + b) + c
  {
  }

  /** In an ordered tree the keys are distinct, so the size is the number of keys. */
  lemma {:induction false} CountIsNumberOfKeys<V>(t: BNode<V>)
    requires IsBst(t)
    ensures |Keys(t)| == Count(t)
  {
    match t
    case Nil =>
    case Node(k, _, l, r) =>
      CountIsNumberOfKeys(l);
      CountIsNumberOfKeys(r);
      var left := Keys(l) + {k};
      assert |left| == |Keys(l)| + 1;
      forall x | x in left
        ensures x !in Keys(r)
      {
        assert x <= k;
      }
      assert left !! Keys(r);
  }

  // ---------------------------------------------------------------------------
  // Height

  function Pow2(n: nat): (p: nat)
    ensures p >= 1
  {
    if n == 0 then 1 else 2 * Pow2(n - 1)
  }

  lemma {:induction false} Pow2Monotone(a: nat, b: nat)
    requires a <= b
    ensures Pow2(a) <= Pow2(b)
    decreases b
  {
    if a < b {
      Pow2Monotone(a, b - 1);
    }
  }

  /** `_height`: 0 for an absent node, 1 plus the taller child otherwise. */
  function HeightOf<V>(t: BNode<V>): (h: nat)
    ensures h == 0 <==> t.Nil?
  {
    match t
    case Nil => 0
    case Node(_, _, l, r) => 1 + if HeightOf(l) >= HeightOf(r) then HeightOf(l) else HeightOf(r)
  }

  /** A tree of height h has at least h and fewer than 2^h nodes; only the
      empty tree has height 0. */
  lemma {:induction false} HeightBounds<V>(t: BNode<V>)
    ensures HeightOf(t) == 0 <==> t.Nil?
    ensures HeightOf(t) <= Count(t) < Pow2(HeightOf(t))
  {
    match t
    case Nil =>
    case Node(_, _, l, r) =>
      HeightBounds(l);
      HeightBounds(r);
      var h, hl, hr := HeightOf(t), HeightOf(l), HeightOf(r);
      assert hl <= h - 1 && hr <= h - 1;
      Pow2Monotone(hl, h - 1);
      Pow2Monotone(hr, h - 1);
      assert Pow2(h) == 2 * Pow2(h - 1);
      assert Count(t) == 1 + Count(l) + Count(r);
  }

  // ---------------------------------------------------------------------------
  // Find

  /** `_find`: descends by comparison; `None` when the key is not on the path. */
  function FindIn<V>(t: BNode<V>, key: int): (r: Option<V>)
    ensures r.Some? ==> key in Keys(t)
  {
    match t
    case Nil => None
    case Node(k, v, l, r) =>
      if key == k then Some(v)
      else if key > k then FindIn(r, key)
      else FindIn(l, key)
  }

  /** In an ordered tree `_find` returns exactly the stored value of the key. */
  lemma {:induction false} FindInContents<V>(t: BNode<V>, key: int)
    ensures IsBst(t) ==> FindIn(t, key) == if key in Contents(t) then Some(Contents(t)[key]) else None
  {
    match t
    case Nil =>
    case Node(k, v, l, r) =>
      if !IsBst(t) {
        return;
      }
      ContentsKeys(l);
      ContentsKeys(r);
      if key < k {
        FindInContents(l, key);
        assert key !in Contents(r);
      } else if key > k {
        FindInContents(r, key);
        assert key !in Contents(l);
      }
  }

  // ---------------------------------------------------------------------------
  // Insert

  /** `_insert`: overwrites the value of a matching node, or adds a leaf at the
      empty slot the search ends in. The node count grows exactly when `_find`
      would have missed the key. */
  function Inserted<V>(t: BNode<V>, key: int, value: V): (r: BNode<V>)
    ensures Keys(r) == Keys(t) + {key}
    ensures Count(r) == Count(t) + (if FindIn(t, key).None? then 1 else 0)
  {
    match t
    case Nil => Node(key, value, Nil, Nil)
    case Node(k, v, l, rt) =>
      if key == k then Node(k, value, l, rt)
      else if key < k then Node(k, v, Inserted(l, key, value), rt)
      else Node(k, v, l, Inserted(rt, key, value))
  }

  /** Inserting keeps the tree ordered. */
  lemma {:induction false} InsertedKeepsOrder<V>(t: BNode<V>, key: int, value: V)
    requires IsBst(t)
    ensures IsBst(Inserted(t, key, value))
  {
    match t
    case Nil =>
    case Node(k, v, l, rt) =>
      if key < k {
        InsertedKeepsOrder(l, key, value);
      } else if key > k {
        InsertedKeepsOrder(rt, key, value);
      }
  }

  /** Inserting maps the key to the new value and leaves every other pair alone. */
  lemma {:induction false} InsertedContents<V>(t: BNode<V>, key: int, value: V)
    requires IsBst(t)
    ensures Contents(Inserted(t, key, value)) == Contents(t)[key := value]
  {
    match t
    case Nil =>
    case Node(k, v, l, rt) =>
      if key < k {
        InsertedContents(l, key, value);
        ContentsKeys(rt);
        UpdateLeft(Contents(l), Contents(rt), k, v, key, value);
      } else if key > k {
        InsertedContents(rt, key, value);
        UpdateRight(Contents(l), Contents(rt), k, v, key, value);
      }
  }

  /** Overwriting a present key changes neither the shape nor any key. */
  lemma {:induction false} InsertedKeepsShape<V>(t: BNode<V>, key: int, value: V)
    requires FindIn(t, key).Some?
    ensures Erase(Inserted(t, key, value)) == Erase(t)
  {
    match t
    case Node(k, v, l, rt) =>
      if key < k {
        InsertedKeepsShape(l, key, value);
      } else if key > k {
        InsertedKeepsShape(rt, key, value);
      }
  }

  /** After `insert(k, v)`, `find(k)` is `v` and `find` of every other key is unchanged. */
  lemma FindAfterInsert<V>(t: BNode<V>, key: int, value: V, other: int)
    requires IsBst(t)
    ensures FindIn(Inserted(t, key, value), key) == Some(value)
    ensures other != key ==> FindIn(Inserted(t, key, value), other) == FindIn(t, other)
  {
    InsertedKeepsOrder(t, key, value);
    FindInContents(Inserted(t, key, value), key);
    FindInContents(Inserted(t, key, value), other);
    FindInContents(t, other);
  }

  // ---------------------------------------------------------------------------
  // Minimum and maximum

  /** `s` is `t` itself or a subtree hanging somewhere below it. */
  ghost predicate IsSubtree<V>(s: BNode<V>, t: BNode<V>)
  {
    s == t || (t.Node? && (IsSubtree(s, t.left) || IsSubtree(s, t.right)))
  }

  /** `_find_min_node`: the leftmost node. */
  function MinNodeOf<V>(t: BNode<V>): (r: Option<BNode<V>>)
    ensures r.None? <==> t.Nil?
    ensures r.Some? ==> r.value.Node? && r.value.left.Nil? && r.value.key in Keys(t)
    ensures r.Some? ==> IsSubtree(r.value, t)
    ensures r.Some? && IsBst(t) ==> forall x :: x in Keys(t) ==> r.value.key <= x
    ensures r.Some? && IsBst(t) ==> r.value.key in Contents(t) && Contents(t)[r.value.key] == r.value.value
  {
    match t
    case Nil => None
    case Node(_, _, l, rt) =>
      if l.Nil? then Some(t)
      else
        ContentsKeys(l);
        ContentsKeys(rt);
        MinNodeOf(l)
  }

  /** `_find_max_node`: the rightmost node, which has no right child. */
  function MaxNodeOf<V>(t: BNode<V>): (r: Option<BNode<V>>)
    ensures r.None? <==> t.Nil?
    ensures r.Some? ==> r.value.Node? && r.value.right.Nil? && r.value.key in Keys(t)
    ensures r.Some? ==> IsSubtree(r.value, t)
    ensures r.Some? && IsBst(t) ==> forall x :: x in Keys(t) ==> x <= r.value.key
    ensures r.Some? && IsBst(t) ==> r.value.key in Contents(t) && Contents(t)[r.value.key] == r.value.value
  {
    match t
    case Nil => None
    case Node(_, _, l, rt) =>
      if rt.Nil? then Some(t)
      else
        ContentsKeys(l);
        ContentsKeys(rt);
        MaxNodeOf(rt)
  }

  // ---------------------------------------------------------------------------
  // Delete

  /** The write `left_max_node.right = node.right` of `_delete_THE_node`:
      `sub` replaces the empty right child of the rightmost node of `t`. */
  function HangOffMax<V>(t: BNode<V>, sub: BNode<V>): (r: BNode<V>)
    requires t.Node?
    ensures Keys(r) == Keys(t) + Keys(sub)
    ensures Count(r) == Count(t) + Count(sub)
  {
    if t.right.Nil? then Node(t.key, t.value, t.left, sub)
    else Node(t.key, t.value, t.left, HangOffMax(t.right, sub))
  }

  /** Hanging a tree whose keys all lie above `t`'s keeps the order and unites the contents. */
  lemma {:induction false} HangOffMaxKeepsOrder<V>(t: BNode<V>, sub: BNode<V>)
    requires t.Node? && IsBst(t) && IsBst(sub)
    requires forall a, b :: a in Keys(t) && b in Keys(sub) ==> a < b
    ensures IsBst(HangOffMax(t, sub))
    ensures Contents(HangOffMax(t, sub)) == Contents(t) + Contents(sub)
  {
    ContentsKeys(sub);
    assert t.key in Keys(t);
    assert t.key !in Contents(sub);
    var cl, cr, cs := Contents(t.left), Contents(t.right), Contents(sub);
    if t.right.Node? {
      HangOffMaxKeepsOrder(t.right, sub);
      UnionAssoc(cl, cr, cs);
      UpdateThenUnion(cl + cr, cs, t.key, t.value);
    } else {
      UpdateThenUnion(cl, cs, t.key, t.value);
    }
  }

  /** `_delete_THE_node`: the left subtree takes the node's place, with the
      right subtree hung off its maximum; without a left subtree the right one
      takes the place. */
  function SpliceOut<V>(t: BNode<V>): (r: BNode<V>)
    ensures t.Nil? ==> r.Nil?
    ensures t.Node? ==> Keys(r) == Keys(t.left) + Keys(t.right)
    ensures t.Node? ==> Count(r) == Count(t) - 1
  {
    match t
    case Nil => Nil
    case Node(_, _, l, rt) => if l.Node? then HangOffMax(l, rt) else rt
  }

  /** Splicing out the root of an ordered tree keeps it ordered and removes
      exactly the root's key. */
  lemma SpliceOutKeepsOrder<V>(t: BNode<V>)
    requires t.Node? && IsBst(t)
    ensures IsBst(SpliceOut(t))
    ensures Contents(SpliceOut(t)) == Contents(t) - {t.key}
  {
    ContentsKeys(t.left);
    ContentsKeys(t.right);
    if t.left.Node? {
      HangOffMaxKeepsOrder(t.left, t.right);
    }
    RemoveUpdated(Contents(t.left) + Contents(t.right), t.key, t.value);
  }

  /** `_delete`: the node the search finds is spliced out; a missed key leaves
      the tree as it is. */
  function Deleted<V>(t: BNode<V>, key: int): (r: BNode<V>)
    ensures Count(r) == Count(t) - (if FindIn(t, key).Some? then 1 else 0)
    ensures FindIn(t, key).None? ==> r == t
    ensures Keys(r) <= Keys(t)
  {
    match t
    case Nil => Nil
    case Node(k, v, l, rt) =>
      if key == k then SpliceOut(t)
      else if key < k then Node(k, v, Deleted(l, key), rt)
      else Node(k, v, l, Deleted(rt, key))
  }

  /** Deleting keeps the tree ordered, removes the key and keeps every other pair. */
  lemma {:induction false} DeletedKeepsOrder<V>(t: BNode<V>, key: int)
    requires IsBst(t)
    ensures IsBst(Deleted(t, key))
    ensures Contents(Deleted(t, key)) == Contents(t) - {key}
  {
    match t
    case Nil =>
    case Node(k, v, l, rt) =>
      if key == k {
        SpliceOutKeepsOrder(t);
      } else if key < k {
        DeletedKeepsOrder(l, key);
        ContentsKeys(rt);
        RemoveLeft(Contents(l), Contents(rt), k, v, key);
      } else {
        DeletedKeepsOrder(rt, key);
        ContentsKeys(l);
        RemoveRight(Contents(l), Contents(rt), k, v, key);
      }
  }

  /** After `delete(k)`, `find(k)` is `None` and `find` of every other key is unchanged. */
  lemma FindAfterDelete<V>(t: BNode<V>, key: int, other: int)
    requires IsBst(t)
    ensures FindIn(Deleted(t, key), key) == None
    ensures other != key ==> FindIn(Deleted(t, key), other) == FindIn(t, other)
  {
    DeletedKeepsOrder(t, key);
    FindInContents(Deleted(t, key), key);
    FindInContents(Deleted(t, key), other);
    FindInContents(t, other);
  }

  // ---------------------------------------------------------------------------
  // Deleting the minimum and the maximum

  /** `_delete_min_node` as written: the leftmost node is replaced by `None`,
      so its right subtree is dropped along with it. */
  function DropMin<V>(t: BNode<V>): (r: BNode<V>)
    ensures t.Node? ==> Count(r) == Count(t) - 1 - Count(MinNodeOf(t).value.right)
    ensures Keys(r) <= Keys(t)
  {
    match t
    case Nil => Nil
    case Node(k, v, l, rt) => if l.Nil? then Nil else Node(k, v, DropMin(l), rt)
  }

  /** `_delete_max_node` as written: the rightmost node is replaced by `None`,
      so its left subtree is dropped along with it. */
  function DropMax<V>(t: BNode<V>): (r: BNode<V>)
    ensures t.Node? ==> Count(r) == Count(t) - 1 - Count(MaxNodeOf(t).value.left)
    ensures Keys(r) <= Keys(t)
  {
    match t
    case Nil => Nil
    case Node(k, v, l, rt) => if rt.Nil? then Nil else Node(k, v, l, DropMax(rt))
  }

  /** The leftmost node replaced by its right subtree: what `_delete_min_node`
      evidently intends. */
  function DeleteMin<V>(t: BNode<V>): (r: BNode<V>)
    ensures Count(r) == Count(t) - (if t.Node? then 1 else 0)
    ensures Keys(r) <= Keys(t)
  {
    match t
    case Nil => Nil
    case Node(k, v, l, rt) => if l.Nil? then rt else Node(k, v, DeleteMin(l), rt)
  }

  /** The rightmost node replaced by its left subtree: what `_delete_max_node`
      evidently intends. */
  function DeleteMax<V>(t: BNode<V>): (r: BNode<V>)
    ensures Count(r) == Count(t) - (if t.Node? then 1 else 0)
    ensures Keys(r) <= Keys(t)
  {
    match t
    case Nil => Nil
    case Node(k, v, l, rt) => if rt.Nil? then l else Node(k, v, l, DeleteMax(rt))
  }

  /** Removing nodes keeps an ordered tree ordered. */
  lemma {:induction false} DropMinKeepsOrder<V>(t: BNode<V>)
    requires IsBst(t)
    ensures IsBst(DropMin(t))
  {
    if t.Node? && t.left.Node? {
      DropMinKeepsOrder(t.left);
    }
  }

  lemma {:induction false} DropMaxKeepsOrder<V>(t: BNode<V>)
    requires IsBst(t)
    ensures IsBst(DropMax(t))
  {
    if t.Node? && t.right.Node? {
      DropMaxKeepsOrder(t.right);
    }
  }

  /** The corrected deletion removes exactly the smallest key and keeps the order. */
  lemma {:induction false} DeleteMinRemovesMinimum<V>(t: BNode<V>)
    requires t.Node? && IsBst(t)
    ensures IsBst(DeleteMin(t))
    ensures Contents(DeleteMin(t)) == Contents(t) - {MinNodeOf(t).value.key}
  {
    var m := MinNodeOf(t).value.key;
    ContentsKeys(t.right);
    if t.left.Node? {
      DeleteMinRemovesMinimum(t.left);
      RemoveLeft(Contents(t.left), Contents(t.right), t.key, t.value, m);
    } else {
      RemoveUpdated(Contents(t.left) + Contents(t.right), t.key, t.value);
    }
  }

  lemma {:induction false} DeleteMaxRemovesMaximum<V>(t: BNode<V>)
    requires t.Node? && IsBst(t)
    ensures IsBst(DeleteMax(t))
    ensures Contents(DeleteMax(t)) == Contents(t) - {MaxNodeOf(t).value.key}
  {
    var m := MaxNodeOf(t).value.key;
    ContentsKeys(t.left);
    if t.right.Node? {
      DeleteMaxRemovesMaximum(t.right);
      RemoveRight(Contents(t.left), Contents(t.right), t.key, t.value, m);
    } else {
      ContentsKeys(t.right);
      RemoveUpdated(Contents(t.left) + Contents(t.right), t.key, t.value);
    }
  }

  /** The code as written agrees with the corrected deletion exactly when the
      leftmost node has no right subtree to lose. */
  lemma {:induction false} DropMinAgrees<V>(t: BNode<V>)
    requires t.Node?
    ensures DropMin(t) == DeleteMin(t) <==> MinNodeOf(t).value.right.Nil?
  {
    if t.left.Node? {
      DropMinAgrees(t.left);
    }
  }

  lemma {:induction false} DropMaxAgrees<V>(t: BNode<V>)
    requires t.Node?
    ensures DropMax(t) == DeleteMax(t) <==> MaxNodeOf(t).value.left.Nil?
  {
    if t.right.Node? {
      DropMaxAgrees(t.right);
    }
  }

  /** A tree the code as written mishandles: keys 1 and 2, the minimum 1 at
      the root with 2 as its right child. `delete_min_node` leaves an empty
      tree while the size counter drops by one only. */
  lemma DropMinLosesRightSubtree()
    ensures var t := Node(1, (), Nil, Node(2, (), Nil, Nil));
      IsBst(t) && DropMin(t) == Nil && Count(t) - 1 == 1 && Count(DropMin(t)) == 0
      && DeleteMin(t) == Node(2, (), Nil, Nil)
  {
  }

  lemma DropMaxLosesLeftSubtree()
    ensures var t := Node(2, (), Node(1, (), Nil, Nil), Nil);
      IsBst(t) && DropMax(t) == Nil && Count(t) - 1 == 1 && Count(DropMax(t)) == 0
      && DeleteMax(t) == Node(1, (), Nil, Nil)
  {
  }

  // ---------------------------------------------------------------------------
  // In-order and out-order traversals

  /** `_in_order_traverse`: left subtree, node, right subtree. */
  function InOrderOf<V>(t: BNode<V>): (r: seq<BNode<V>>)
    ensures |r| == Count(t)
    ensures forall i :: 0 <= i < |r| ==> r[i].Node? && r[i].key in Keys(t)
  {
    match t
    case Nil => []
    case Node(_, _, l, rt) => InOrderOf(l) + [t] + InOrderOf(rt)
  }

  /** `_out_order_traverse`: right subtree, node, left subtree. */
  function OutOrderOf<V>(t: BNode<V>): (r: seq<BNode<V>>)
    ensures |r| == Count(t)
    ensures forall i :: 0 <= i < |r| ==> r[i].Node? && r[i].key in Keys(t)
  {
    match t
    case Nil => []
    case Node(_, _, l, rt) => OutOrderOf(rt) + [t] + OutOrderOf(l)
  }

  function Reverse<T>(s: seq<T>): (r: seq<T>)
    ensures |r| == |s|
  {
    if s == [] then [] else Reverse(s[1..]) + [s[0]]
  }

  lemma {:induction false} ReverseAppend<T>(a: seq<T>, b: seq<T>)
    ensures Reverse(a + b) == Reverse(b) + Reverse(a)
  {
    if a == [] {
      assert a + b == b;
    } else {
      assert (a + b)[1..] == a[1..] + b;
      ReverseAppend(a[1..], b);
    }
  }

  /** In-order traversal of an ordered tree lists its nodes by strictly
      ascending key. */
  lemma {:induction false} InOrderAscending<V>(t: BNode<V>)
    ensures IsBst(t) ==> forall i, j :: 0 <= i < j < |InOrderOf(t)| ==> InOrderOf(t)[i].key < InOrderOf(t)[j].key
  {
    match t
    case Nil =>
    case Node(k, _, l, rt) =>
      if !IsBst(t) {
        return;
      }
      InOrderAscending(l);
      InOrderAscending(rt);
      var a, b := InOrderOf(l), InOrderOf(rt);
      var s := InOrderOf(t);
      assert s == a + [t] + b;
      forall i, j | 0 <= i < j < |s|
        ensures s[i].key < s[j].key
      {
        if j < |a| {
          assert s[i] == a[i] && s[j] == a[j];
        } else if i < |a| {
          assert s[i] == a[i] && a[i].key in Keys(l);
          if j > |a| {
            assert s[j] == b[j - |a| - 1] && b[j - |a| - 1].key in Keys(rt);
          }
        } else if i == |a| {
          assert s[j] == b[j - |a| - 1] && b[j - |a| - 1].key in Keys(rt);
        } else {
          assert s[i] == b[i - |a| - 1] && s[j] == b[j - |a| - 1];
        }
      }
  }

  /** The keys of the nodes of a sequence. */
  function KeysOf<V>(s: seq<BNode<V>>): set<int>
  {
    set i | 0 <= i < |s| && s[i].Node? :: s[i].key
  }

  lemma KeysOfAppend<V>(a: seq<BNode<V>>, b: seq<BNode<V>>)
    ensures KeysOf(a + b) == KeysOf(a) + KeysOf(b)
  {
    var s := a + b;
    forall x | x in KeysOf(s)
      ensures x in KeysOf(a) + KeysOf(b)
    {
      var i :| 0 <= i < |s| && s[i].Node? && s[i].key == x;
      if i < |a| {
        assert s[i] == a[i];
      } else {
        assert s[i] == b[i - |a|];
      }
    }
    forall x | x in KeysOf(a)
      ensures x in KeysOf(s)
    {
      var i :| 0 <= i < |a| && a[i].Node? && a[i].key == x;
      assert s[i] == a[i];
    }
    forall x | x in KeysOf(b)
      ensures x in KeysOf(s)
    {
      var i :| 0 <= i < |b| && b[i].Node? && b[i].key == x;
      assert s[|a| + i] == b[i];
    }
  }

  /** In-order traversal yields a node for every key of the tree, and no other key. */
  lemma {:induction false} InOrderCoversKeys<V>(t: BNode<V>)
    ensures KeysOf(InOrderOf(t)) == Keys(t)
  {
    match t
    case Nil =>
    case Node(k, _, l, rt) =>
      InOrderCoversKeys(l);
      InOrderCoversKeys(rt);
      KeysOfAppend(InOrderOf(l) + [t], InOrderOf(rt));
      KeysOfAppend(InOrderOf(l), [t]);
      assert [t][0] == t;
      assert KeysOf([t]) == {k};
  }

  /** Out-order traversal is exactly the reverse of in-order traversal. */
  lemma {:induction false} OutOrderIsReversedInOrder<V>(t: BNode<V>)
    ensures OutOrderOf(t) == Reverse(InOrderOf(t))
  {
    match t
    case Nil =>
    case Node(_, _, l, rt) =>
      OutOrderIsReversedInOrder(l);
      OutOrderIsReversedInOrder(rt);
      ReverseAppend(InOrderOf(l) + [t], InOrderOf(rt));
      ReverseAppend(InOrderOf(l), [t]);
      assert Reverse([t]) == [t];
  }

  // ---------------------------------------------------------------------------
  // The container

  /** `BST.default_traversal_order`. */
  const DefaultTraversalOrder: string := "in_order"

  /** Names `n` for which `n + "_traverse"` is a method of the search tree
      that takes a node argument, so calling it with none raises `TypeError`. */
  const NeedsArgumentNames: set<string> :=
    GenericTree.NeedsArgumentNames + {"_in_order", "_out_order"}

  class BinarySearchTree<V> {
    var root: BNode<V>
    /** The size counter; it equals `Count(root)` as long as no node is lost. */
    var size: int

    ghost predicate Valid()
      reads this
    {
      IsBst(root)
    }

    ghost predicate SizeAgrees()
      reads this
    {
      size == Count(root)
    }

    constructor ()
      ensures Valid() && SizeAgrees()
      ensures root == Nil && size == 0
    {
      root := Nil;
      size := 0;
    }

    /** The `height` property: between the number of nodes' base-2 logarithm and that number. */
    function Height(): (h: nat)
      reads this
      ensures h == 0 <==> root.Nil?
      ensures h <= Count(root) < Pow2(h)
    {
      HeightBounds(root);
      HeightOf(root)
    }

    /** `_insert`: the counter goes up by one where a node is created. */
    method InsertAt(node: BNode<V>, key: int, value: V) returns (r: BNode<V>)
      modifies this`size
      ensures r == Inserted(node, key, value)
      ensures size == old(size) + (if FindIn(node, key).None? then 1 else 0)
      decreases node
    {
      if node.Nil? {
        size := size + 1;
        return Node(key, value, Nil, Nil);
      }
      r := node;
      if key == node.key {
        r := r.(value := value);
      } else if key < node.key {
        var l := InsertAt(node.left, key, value);
        r := r.(left := l);
      } else {
        var rt := InsertAt(node.right, key, value);
        r := r.(right := rt);
      }
    }

    /** `insert`. */
    method Insert(key: int, value: V)
      requires Valid()
      modifies this
      ensures Valid()
      ensures Contents(root) == old(Contents(root))[key := value]
      ensures size == old(size) + (if key in old(Keys(root)) then 0 else 1)
      ensures old(SizeAgrees()) ==> SizeAgrees()
      ensures key in old(Keys(root)) ==> Erase(root) == Erase(old(root))
      ensures root == Inserted(old(root), key, value)
    {
      FindInContents(root, key);
      ContentsKeys(root);
      if key in Keys(root) {
        InsertedKeepsShape(root, key, value);
      }
      InsertedKeepsOrder(root, key, value);
      InsertedContents(root, key, value);
      root := InsertAt(root, key, value);
    }

    /** `find`: the stored value, or `None` for an absent key. */
    function Find(key: int): (r: Option<V>)
      reads this
      ensures Valid() ==> r == if key in Contents(root) then Some(Contents(root)[key]) else None
    {
      FindInContents(root, key);
      FindIn(root, key)
    }

    /** `_delete`: the counter goes down by one where a node is spliced out. */
    method DeleteAt(node: BNode<V>, key: int) returns (r: BNode<V>)
      modifies this`size
      ensures r == Deleted(node, key)
      ensures size == old(size) - (if FindIn(node, key).Some? then 1 else 0)
      decreases node
    {
      if node.Nil? {
        return Nil;
      }
      if key == node.key {
        size := size - 1;
        r := SpliceOut(node);
      } else if key < node.key {
        var l := DeleteAt(node.left, key);
        r := node.(left := l);
      } else {
        var rt := DeleteAt(node.right, key);
        r := node.(right := rt);
      }
    }

    /** `delete`: an absent key changes nothing. */
    method Delete(key: int)
      requires Valid()
      modifies this
      ensures Valid()
      ensures Contents(root) == old(Contents(root)) - {key}
      ensures size == old(size) - (if key in old(Keys(root)) then 1 else 0)
      ensures old(SizeAgrees()) ==> SizeAgrees()
      ensures key !in old(Keys(root)) ==> root == old(root)
      ensures root == Deleted(old(root), key)
    {
      FindInContents(root, key);
      ContentsKeys(root);
      DeletedKeepsOrder(root, key);
      root := DeleteAt(root, key);
    }

    /** `_delete_min_node` as written. */
    method DeleteMinAt(node: BNode<V>) returns (r: BNode<V>)
      modifies this`size
      ensures r == DropMin(node)
      ensures size == old(size) - (if node.Node? then 1 else 0)
      decreases node
    {
      if node.Nil? {
        return Nil;
      }
      if node.left.Nil? {
        size := size - 1;
        return Nil;
      }
      var l := DeleteMinAt(node.left);
      r := node.(left := l);
    }

    /** `delete_min_node` as written: the counter stays right, and exactly the
        smallest key goes, only when the leftmost node has no right subtree. */
    method DeleteMinNode()
      requires Valid()
      modifies this
      ensures Valid()
      ensures root == DropMin(old(root))
      ensures size == old(size) - (if old(root).Node? then 1 else 0)
      ensures old(root).Node? && old(MinNodeOf(root)).value.right.Nil? ==>
        && Contents(root) == old(Contents(root)) - {old(MinNodeOf(root)).value.key}
        && (old(SizeAgrees()) ==> SizeAgrees())
    {
      DropMinKeepsOrder(root);
      if root.Node? {
        DropMinAgrees(root);
        if MinNodeOf(root).value.right.Nil? {
          DeleteMinRemovesMinimum(root);
        }
      }
      root := DeleteMinAt(root);
    }

    /** `_delete_max_node` as written. */
    method DeleteMaxAt(node: BNode<V>) returns (r: BNode<V>)
      modifies this`size
      ensures r == DropMax(node)
      ensures size == old(size) - (if node.Node? then 1 else 0)
      decreases node
    {
      if node.Nil? {
        return Nil;
      }
      if node.right.Nil? {
        size := size - 1;
        return Nil;
      }
      var rt := DeleteMaxAt(node.right);
      r := node.(right := rt);
    }

    /** `delete_max_node` as written: the counter stays right, and exactly the
        largest key goes, only when the rightmost node has no left subtree. */
    method DeleteMaxNode()
      requires Valid()
      modifies this
      ensures Valid()
      ensures root == DropMax(old(root))
      ensures size == old(size) - (if old(root).Node? then 1 else 0)
      ensures old(root).Node? && old(MaxNodeOf(root)).value.left.Nil? ==>
        && Contents(root) == old(Contents(root)) - {old(MaxNodeOf(root)).value.key}
        && (old(SizeAgrees()) ==> SizeAgrees())
    {
      DropMaxKeepsOrder(root);
      if root.Node? {
        DropMaxAgrees(root);
        if MaxNodeOf(root).value.left.Nil? {
          DeleteMaxRemovesMaximum(root);
        }
      }
      root := DeleteMaxAt(root);
    }

    /** `find_min_node`: `None` for an empty tree, else the node of the smallest key. */
    function FindMinNode(): (r: Option<BNode<V>>)
      reads this
      ensures r.None? <==> root.Nil?
      ensures r.Some? ==> r.value.Node? && r.value.left.Nil? && r.value.key in Keys(root)
      ensures r.Some? ==> IsSubtree(r.value, root)
      ensures r.Some? && Valid() ==> forall x :: x in Keys(root) ==> r.value.key <= x
      ensures r.Some? && Valid() ==> Find(r.value.key) == Some(r.value.value)
    {
      MinNodeOf(root)
    }

    /** `find_max_node`: `None` for an empty tree, else the node of the largest key. */
    function FindMaxNode(): (r: Option<BNode<V>>)
      reads this
      ensures r.None? <==> root.Nil?
      ensures r.Some? ==> r.value.Node? && r.value.right.Nil? && r.value.key in Keys(root)
      ensures r.Some? ==> IsSubtree(r.value, root)
      ensures r.Some? && Valid() ==> forall x :: x in Keys(root) ==> x <= r.value.key
      ensures r.Some? && Valid() ==> Find(r.value.key) == Some(r.value.value)
    {
      MaxNodeOf(root)
    }

    /** `in_order_traverse`: the nodes by strictly ascending key. */
    function InOrderTraverse(): (r: seq<BNode<V>>)
      reads this
      ensures |r| == size <== SizeAgrees()
      ensures forall i :: 0 <= i < |r| ==> r[i].Node? && r[i].key in Keys(root)
      ensures Valid() ==> forall i, j :: 0 <= i < j < |r| ==> r[i].key < r[j].key
    {
      InOrderAscending(root);
      InOrderOf(root)
    }

    /** `out_order_traverse`: the in-order traversal reversed, so by descending key. */
    function OutOrderTraverse(): (r: seq<BNode<V>>)
      reads this
      ensures r == Reverse(InOrderTraverse())
    {
      OutOrderIsReversedInOrder(root);
      OutOrderOf(root)
    }

    /** `traverse` before payloads are taken: resolves the order name for a
        search tree. */
    function TraverseNodes(order: GenericTree.OrderArg): (r: Result<seq<BNode<V>>, GenericTree.TreeError>)
      reads this
      requires order.Name? ==> order.name !in GenericTree.TreeOrderNames
      ensures r.Ok? <==> order.Default? || (order.Name? && order.name in {"in_order", "out_order"})
      ensures order.Default? ==> r == Ok(InOrderTraverse())
      ensures order == GenericTree.Name("in_order") ==> r == Ok(InOrderTraverse())
      ensures order == GenericTree.Name("out_order") ==> r == Ok(OutOrderTraverse())
      ensures order.NotAString? ==> r == Err(GenericTree.OrderNotString)
      ensures order.Name? && order.name in NeedsArgumentNames ==> r == Err(GenericTree.MissingArgument)
      ensures order.Name? && order.name !in {"in_order", "out_order"} + NeedsArgumentNames ==>
        r == Err(GenericTree.WrongOrdering)
    {
      match order
      case Default => TraverseByName(DefaultTraversalOrder)
      case Name(n) => TraverseByName(n)
      case NotAString => Err(GenericTree.OrderNotString)
    }

    /** The lookup of `name + "_traverse"` among the search tree's own methods. */
    function TraverseByName(name: string): (r: Result<seq<BNode<V>>, GenericTree.TreeError>)
      reads this
      ensures r.Ok? <==> name in {"in_order", "out_order"}
      ensures r.Ok? ==> |r.value| == Count(root)
      ensures r.Err? ==> (r.error == GenericTree.MissingArgument <==> name in NeedsArgumentNames)
      ensures r.Err? ==> r.error == GenericTree.MissingArgument || r.error == GenericTree.WrongOrdering
    {
      if name == "in_order" then Ok(InOrderTraverse())
      else if name == "out_order" then Ok(OutOrderTraverse())
      else if name in NeedsArgumentNames then Err(GenericTree.MissingArgument)
      else Err(GenericTree.WrongOrdering)
    }

    /** `clear`, inherited: an empty, ordered tree whose counter is right. */
    method Clear() returns (self: BinarySearchTree<V>)
      modifies this
      ensures self == this && root == Nil && size == 0
      ensures Valid() && SizeAgrees() && IsEmpty()
    {
      root := Nil;
      size := 0;
      self := this;
    }

    /** `isEmpty`, inherited: reads the counter. */
    predicate IsEmpty()
      reads this
      ensures SizeAgrees() ==> (IsEmpty() <==> root.Nil?)
    {
      size == 0
    }
  }

  /** The tree that inserting 5, 3, 8, 1, 4 into an empty tree builds. */
  function ScenarioTree(): BNode<()>
  {
    Inserted(Inserted(Inserted(Inserted(Inserted(Nil, 5, ()), 3, ()), 8, ()), 1, ()), 4, ())
  }

  function ExpectedTree(): BNode<()>
  {
    Node(5, (), Node(3, (), Node(1, (), Nil, Nil), Node(4, (), Nil, Nil)), Node(8, (), Nil, Nil))
  }

  lemma ScenarioShape()
    ensures ScenarioTree() == ExpectedTree()
  {
    var n5 := Inserted(Nil, 5, ());
    assert n5 == Node(5, (), Nil, Nil);
    var n53 := Inserted(n5, 3, ());
    assert n53 == Node(5, (), Node(3, (), Nil, Nil), Nil);
    var n538 := Inserted(n53, 8, ());
    assert n538 == Node(5, (), Node(3, (), Nil, Nil), Node(8, (), Nil, Nil));
    var n5381 := Inserted(n538, 1, ());
    assert n5381 == Node(5, (), Node(3, (), Node(1, (), Nil, Nil), Nil), Node(8, (), Nil, Nil));
  }

  lemma ExpectedTreeFacts()
    ensures HeightOf(ExpectedTree()) == 3
    ensures |InOrderOf(ExpectedTree())| == 5
    ensures InOrderOf(ExpectedTree())[0].key == 1 && InOrderOf(ExpectedTree())[1].key == 3
    ensures InOrderOf(ExpectedTree())[2].key == 4 && InOrderOf(ExpectedTree())[3].key == 5
    ensures InOrderOf(ExpectedTree())[4].key == 8
  {
    var leaf1, leaf4, leaf8 := Node(1, (), Nil, Nil), Node(4, (), Nil, Nil), Node(8, (), Nil, Nil);
    var n3 := Node(3, (), leaf1, leaf4);
    assert InOrderOf(leaf1) == [leaf1];
    assert InOrderOf(leaf4) == [leaf4];
    assert InOrderOf(leaf8) == [leaf8];
    assert InOrderOf(n3) == [leaf1, n3, leaf4];
    assert InOrderOf(ExpectedTree()) == [leaf1, n3, leaf4, ExpectedTree(), leaf8];
  }

  /** Inserting 5, 3, 8, 1, 4 gives height 3 and in-order keys 1, 3, 4, 5, 8. */
  lemma InsertScenario()
    ensures HeightOf(ScenarioTree()) == 3
    ensures |InOrderOf(ScenarioTree())| == 5
    ensures InOrderOf(ScenarioTree())[0].key == 1 && InOrderOf(ScenarioTree())[1].key == 3
    ensures InOrderOf(ScenarioTree())[2].key == 4 && InOrderOf(ScenarioTree())[3].key == 5
    ensures InOrderOf(ScenarioTree())[4].key == 8
  {
    ScenarioShape();
    ExpectedTreeFacts();
  }

  /** The tree left by deleting 3 from `ExpectedTree()`: 3's left child 1
      takes its place, with 3's right child 4 hung off it. */
  function ExpectedAfterDelete(): BNode<()>
  {
    Node(5, (), Node(1, (), Nil, Node(4, (), Nil, Nil)), Node(8, (), Nil, Nil))
  }

  lemma DeleteShape()
    ensures Deleted(ExpectedTree(), 3) == ExpectedAfterDelete()
  {
    var leaf1, leaf4 := Node(1, (), Nil, Nil), Node(4, (), Nil, Nil);
    assert HangOffMax(leaf1, leaf4) == Node(1, (), Nil, leaf4);
    assert Deleted(Node(3, (), leaf1, leaf4), 3) == Node(1, (), Nil, leaf4);
  }

  lemma ExpectedDeleteFacts()
    ensures Count(ExpectedAfterDelete()) == 4
    ensures |InOrderOf(ExpectedAfterDelete())| == 4
    ensures InOrderOf(ExpectedAfterDelete())[0].key == 1
    ensures InOrderOf(ExpectedAfterDelete())[1].key == 4
    ensures InOrderOf(ExpectedAfterDelete())[2].key == 5
    ensures InOrderOf(ExpectedAfterDelete())[3].key == 8
  {
    var leaf4, leaf8 := Node(4, (), Nil, Nil), Node(8, (), Nil, Nil);
    var n1 := Node(1, (), Nil, leaf4);
    var d := ExpectedAfterDelete();
    assert InOrderOf(leaf4) == [leaf4];
    assert InOrderOf(leaf8) == [leaf8];
    assert InOrderOf(n1) == [n1, leaf4];
    assert InOrderOf(d) == [n1, leaf4, d, leaf8];
  }

  /** Deleting 3 from that tree leaves four nodes with in-order keys 1, 4, 5, 8. */
  lemma DeleteScenario()
    ensures Count(Deleted(ScenarioTree(), 3)) == 4
    ensures |InOrderOf(Deleted(ScenarioTree(), 3))| == 4
    ensures InOrderOf(Deleted(ScenarioTree(), 3))[0].key == 1
    ensures InOrderOf(Deleted(ScenarioTree(), 3))[1].key == 4
    ensures InOrderOf(Deleted(ScenarioTree(), 3))[2].key == 5
    ensures InOrderOf(Deleted(ScenarioTree(), 3))[3].key == 8
  {
    ScenarioShape();
    DeleteShape();
    ExpectedDeleteFacts();
  }
}
