/** The generic multi-way tree of `algorithms/tree/abstract_tree.py`.

    A vertex holds a payload and an ordered list of children; a child slot may
    hold `None`, which traversals skip. Vertices are modelled as values: the
    tree is an arborescence, so a value-level model loses only object identity
    (the shared `children` list of a shallow copy). */
module GenericTree {
  import opened Wrappers

  /** `Nil` is an absent vertex: an empty tree's root, or a `None` child slot. */
  datatype GTree<D> = Nil | Node(data: D, children: seq<GTree<D>>)

  /** What the tree raises: `KeyError` when reading the root of an empty tree,
      the two `ValueError`s of the traversal dispatch, and the `TypeError` that
      dispatching to a `*_traverse` method which needs an argument provokes. */
  datatype TreeError = EmptyTree | OrderNotString | WrongOrdering | MissingArgument

  /** The `order` argument of `traverse`: `None`, a string, or any other object. */
  datatype OrderArg = Default | Name(name: string) | NotAString

  /** `Tree.default_traversal_order`. */
  const DefaultTraversalOrder: string := "breadth_first_order"

  /** The order names that select a traversal of the generic tree. */
  const TreeOrderNames: set<string> := {"pre_order", "post_order", "breadth_first_order"}

  /** Names `n` for which `n + "_traverse"` is a method of `Tree` that takes an
      argument besides `self`, so calling it with none raises `TypeError`. */
  const NeedsArgumentNames: set<string> := {"", "recur_pre_order", "recur_post_order"}

  /** `Node.copy`: a new vertex with the same payload and the same children list. */
  function CopyNode<D>(n: GTree<D>): (r: GTree<D>)
    requires n.Node?
    ensures r.Node? && r.data == n.data && r.children == n.children
  {
    Node(n.data, n.children)
  }

  // ---------------------------------------------------------------------------
  // Depth-first traversals

  /** `recur_pre_order_traverse`: the vertex, then each child's traversal, left to right. */
  function PreOrder<D>(t: GTree<D>): (r: seq<GTree<D>>)
    ensures forall i :: 0 <= i < |r| ==> r[i].Node?
    decreases t, 1
  {
    match t
    case Nil => []
    case Node(_, cs) => [t] + PreOrderForest(cs)
  }

  /** The pre-order traversals of a list of child slots, concatenated. */
  function PreOrderForest<D>(ts: seq<GTree<D>>): (r: seq<GTree<D>>)
    ensures forall i :: 0 <= i < |r| ==> r[i].Node?
    decreases ts, 0
  {
    if ts == [] then [] else PreOrder(ts[0]) + PreOrderForest(ts[1..])
  }

  /** `recur_post_order_traverse`: each child's traversal, left to right, then the vertex. */
  function PostOrder<D>(t: GTree<D>): (r: seq<GTree<D>>)
    ensures forall i :: 0 <= i < |r| ==> r[i].Node?
    decreases t, 1
  {
    match t
    case Nil => []
    case Node(_, cs) => PostOrderForest(cs) + [t]
  }

  /** The post-order traversals of a list of child slots, concatenated. */
  function PostOrderForest<D>(ts: seq<GTree<D>>): (r: seq<GTree<D>>)
    ensures forall i :: 0 <= i < |r| ==> r[i].Node?
    decreases ts, 0
  {
    if ts == [] then [] else PostOrder(ts[0]) + PostOrderForest(ts[1..])
  }

  lemma {:induction false} PreOrderForestAppend<D>(a: seq<GTree<D>>, b: seq<GTree<D>>)
    ensures PreOrderForest(a + b) == PreOrderForest(a) + PreOrderForest(b)
  {
    if a != [] {
      assert (a + b)[1..] == a[1..] + b;
      PreOrderForestAppend(a[1..], b);
    } else {
      assert a + b == b;
    }
  }

  /** Pre-order and post-order visit the same vertices, each as often: the two
      results are permutations of each other. */
  lemma {:induction false} PreOrderPostOrderPermutation<D>(t: GTree<D>)
    ensures multiset(PreOrder(t)) == multiset(PostOrder(t))
    decreases t, 1
  {
    match t
    case Nil =>
    case Node(_, cs) => ForestPermutation(cs);
  }

  lemma {:induction false} ForestPermutation<D>(ts: seq<GTree<D>>)
    ensures multiset(PreOrderForest(ts)) == multiset(PostOrderForest(ts))
    decreases ts, 0
  {
    if ts != [] {
      PreOrderPostOrderPermutation(ts[0]);
      ForestPermutation(ts[1..]);
    }
  }

  /** Pre-order yields each vertex immediately followed by all of its
      descendants: the slice that starts at a vertex is that vertex's own
      pre-order traversal. */
  lemma {:induction false} PreOrderSubtreeFollows<D>(t: GTree<D>, i: nat)
    requires i < |PreOrder(t)|
    ensures i + |PreOrder(PreOrder(t)[i])| <= |PreOrder(t)|
    ensures PreOrder(t)[i..i + |PreOrder(PreOrder(t)[i])|] == PreOrder(PreOrder(t)[i])
    decreases t, 1
  {
    var cs := t.children;
    if i > 0 {
      PreOrderForestSubtreeFollows(cs, i - 1);
      assert PreOrder(t)[i] == PreOrderForest(cs)[i - 1];
      var x := PreOrder(t)[i];
      assert PreOrder(t)[i..i + |PreOrder(x)|] == PreOrderForest(cs)[i - 1..i - 1 + |PreOrder(x)|];
    }
  }

  lemma {:induction false} PreOrderForestSubtreeFollows<D>(ts: seq<GTree<D>>, i: nat)
    requires i < |PreOrderForest(ts)|
    ensures i + |PreOrder(PreOrderForest(ts)[i])| <= |PreOrderForest(ts)|
    ensures PreOrderForest(ts)[i..i + |PreOrder(PreOrderForest(ts)[i])|] == PreOrder(PreOrderForest(ts)[i])
    decreases ts, 0
  {
    var head, rest := PreOrder(ts[0]), PreOrderForest(ts[1..]);
    var x := PreOrderForest(ts)[i];
    if i < |head| {
      PreOrderSubtreeFollows(ts[0], i);
      assert head[i] == x;
      assert PreOrderForest(ts)[i..i + |PreOrder(x)|] == head[i..i + |PreOrder(x)|];
    } else {
      PreOrderForestSubtreeFollows(ts[1..], i - |head|);
      assert rest[i - |head|] == x;
      assert PreOrderForest(ts)[i..i + |PreOrder(x)|] == rest[i - |head|..i - |head| + |PreOrder(x)|];
    }
  }

  /** Post-order yields each vertex immediately after all of its descendants:
      the slice that ends at a vertex is that vertex's own post-order traversal. */
  lemma {:induction false} PostOrderSubtreePrecedes<D>(t: GTree<D>, i: nat)
    requires i < |PostOrder(t)|
    ensures |PostOrder(PostOrder(t)[i])| <= i + 1
    ensures PostOrder(t)[i + 1 - |PostOrder(PostOrder(t)[i])|..i + 1] == PostOrder(PostOrder(t)[i])
    decreases t, 1
  {
    var cs := t.children;
    if i < |PostOrderForest(cs)| {
      PostOrderForestSubtreePrecedes(cs, i);
      assert PostOrder(t)[i] == PostOrderForest(cs)[i];
      var x := PostOrder(t)[i];
      assert PostOrder(t)[i + 1 - |PostOrder(x)|..i + 1] == PostOrderForest(cs)[i + 1 - |PostOrder(x)|..i + 1];
    }
  }

  lemma {:induction false} PostOrderForestSubtreePrecedes<D>(ts: seq<GTree<D>>, i: nat)
    requires i < |PostOrderForest(ts)|
    ensures |PostOrder(PostOrderForest(ts)[i])| <= i + 1
    ensures PostOrderForest(ts)[i + 1 - |PostOrder(PostOrderForest(ts)[i])|..i + 1] == PostOrder(PostOrderForest(ts)[i])
    decreases ts, 0
  {
    var head, rest := PostOrder(ts[0]), PostOrderForest(ts[1..]);
    var x := PostOrderForest(ts)[i];
    if i < |head| {
      PostOrderSubtreePrecedes(ts[0], i);
      assert head[i] == x;
      assert PostOrderForest(ts)[i + 1 - |PostOrder(x)|..i + 1] == head[i + 1 - |PostOrder(x)|..i + 1];
    } else {
      var j := i - |head|;
      PostOrderForestSubtreePrecedes(ts[1..], j);
      assert rest[j] == x;
      SliceRight(head, rest, i + 1 - |PostOrder(x)|, i + 1);
    }
  }

  lemma AppendAssoc<T>(a: seq<T>, b: seq<T>, c: seq<T>)
    ensures a + (b + c) == (a + b) + c
  {
  }

  lemma SliceRight<T>(a: seq<T>, b: seq<T>, lo: int, hi: int)
    requires |a| <= lo <= hi <= |a| + |b|
    ensures (a + b)[lo..hi] == b[lo - |a|..hi - |a|]
  {
  }

  // ---------------------------------------------------------------------------
  // Breadth-first traversal

  /** Every slot of a queue counts, absent ones included; used to bound the queue loop. */
  function Weight<D>(ts: seq<GTree<D>>): nat
    decreases ts, 0
  {
    if ts == [] then 0 else SlotWeight(ts[0]) + Weight(ts[1..])
  }

  function SlotWeight<D>(t: GTree<D>): nat
    decreases t, 1
  {
    match t
    case Nil => 1
    case Node(_, cs) => 1 + Weight(cs)
  }

  lemma {:induction false} WeightAppend<D>(a: seq<GTree<D>>, b: seq<GTree<D>>)
    ensures Weight(a + b) == Weight(a) + Weight(b)
  {
    if a != [] {
      assert (a + b)[1..] == a[1..] + b;
      WeightAppend(a[1..], b);
    } else {
      assert a + b == b;
    }
  }

  /** Dequeuing one slot and enqueuing its children lowers the queue's weight. */
  lemma WeightDequeue<D>(q: seq<GTree<D>>)
    requires q != []
    ensures q[0].Nil? ==> Weight(q[1..]) < Weight(q)
    ensures q[0].Node? ==> Weight(q[1..] + q[0].children) < Weight(q)
  {
    if q[0].Node? {
      WeightAppend(q[1..], q[0].children);
    }
  }

  /** What the FIFO loop of `breadth_first_order_traverse` yields from queue
      `q` onwards: dequeue the head, skip it if absent, otherwise yield it and
      enqueue all its children (absent ones too). */
  function LevelOrder<D>(q: seq<GTree<D>>): (r: seq<GTree<D>>)
    ensures forall i :: 0 <= i < |r| ==> r[i].Node?
    decreases Weight(q)
  {
    if q == [] then []
    else
      WeightDequeue(q);
      match q[0]
      case Nil => LevelOrder(q[1..])
      case Node(_, cs) => [q[0]] + LevelOrder(q[1..] + cs)
  }

  lemma LevelOrderStep<D>(q: seq<GTree<D>>)
    requires q != []
    ensures q[0].Nil? ==> LevelOrder(q) == LevelOrder(q[1..])
    ensures q[0].Node? ==> LevelOrder(q) == [q[0]] + LevelOrder(q[1..] + q[0].children)
  {
  }

  /** Breadth-first order visits exactly the vertices pre-order visits, each as
      often as pre-order does. */
  lemma {:induction false} LevelOrderPermutation<D>(q: seq<GTree<D>>)
    ensures multiset(LevelOrder(q)) == multiset(PreOrderForest(q))
    decreases Weight(q)
  {
    if q != [] {
      WeightDequeue(q);
      match q[0]
      case Nil =>
        LevelOrderPermutation(q[1..]);
      case Node(_, cs) =>
        LevelOrderPermutation(q[1..] + cs);
        PreOrderForestAppend(q[1..], cs);
    }
  }

  /** The present vertices of a queue, in queue order. */
  function Present<D>(q: seq<GTree<D>>): (r: seq<GTree<D>>)
    ensures forall i :: 0 <= i < |r| ==> r[i].Node?
    ensures |r| <= |q|
  {
    if q == [] then []
    else (if q[0].Node? then [q[0]] else []) + Present(q[1..])
  }

  /** The child slots of the present vertices of a queue, concatenated in
      queue order: the next level down. */
  function Kids<D>(q: seq<GTree<D>>): seq<GTree<D>>
  {
    if q == [] then []
    else (if q[0].Node? then q[0].children else []) + Kids(q[1..])
  }

  /** FIFO order: whatever sits at the front of the queue comes out, present
      vertices first, before anything queued behind it, and the children of
      the front part are queued after the rest. */
  lemma {:induction false} LevelOrderAppend<D>(a: seq<GTree<D>>, b: seq<GTree<D>>)
    ensures LevelOrder(a + b) == Present(a) + LevelOrder(b + Kids(a))
    decreases |a|
  {
    if a == [] {
      assert a + b == b;
      assert b + Kids(a) == b;
    } else {
      var x := a[0];
      LevelOrderStep(a + b);
      assert (a + b)[0] == x;
      assert (a + b)[1..] == a[1..] + b;
      if x.Nil? {
        LevelOrderAppend(a[1..], b);
        assert Present(a) == [] + Present(a[1..]) == Present(a[1..]);
        assert Kids(a) == [] + Kids(a[1..]) == Kids(a[1..]);
      } else {
        assert a[1..] + b + x.children == a[1..] + (b + x.children);
        LevelOrderAppend(a[1..], b + x.children);
        assert b + x.children + Kids(a[1..]) == b + Kids(a);
      }
    }
  }

  /** The slots `n` levels below the queue `q`. */
  function Level<D>(q: seq<GTree<D>>, n: nat): seq<GTree<D>>
  {
    if n == 0 then q else Kids(Level(q, n - 1))
  }

  /** The present vertices of the first `n` levels, level after level. */
  function LevelsUpTo<D>(q: seq<GTree<D>>, n: nat): (r: seq<GTree<D>>)
    ensures forall i :: 0 <= i < |r| ==> r[i].Node?
  {
    if n == 0 then [] else LevelsUpTo(q, n - 1) + Present(Level(q, n - 1))
  }

  /** Breadth-first order is level order: for every `n`, the vertices of the
      first `n` levels come out first, level by level, and only then the
      deeper ones. */
  lemma {:induction false} LevelOrderByLevels<D>(q: seq<GTree<D>>, n: nat)
    ensures LevelOrder(q) == LevelsUpTo(q, n) + LevelOrder(Level(q, n))
  {
    if n == 0 {
      assert LevelsUpTo(q, 0) == [];
    } else {
      LevelOrderByLevels(q, n - 1);
      var l := Level(q, n - 1);
      assert l + [] == l;
      LevelOrderAppend(l, []);
      assert [] + Kids(l) == Kids(l);
      AppendAssoc(LevelsUpTo(q, n - 1), Present(l), LevelOrder(Kids(l)));
    }
  }

  lemma SingleForest<D>(t: GTree<D>)
    ensures PreOrderForest([t]) == PreOrder(t)
  {
    assert [t][1..] == [];
  }

  /** All three orders visit every present vertex, so they agree in length. */
  lemma OrdersAgreeInLength<D>(t: GTree<D>)
    ensures |PostOrder(t)| == |PreOrder(t)|
    ensures |LevelOrder([t])| == |PreOrder(t)|
  {
    PreOrderPostOrderPermutation(t);
    assert |multiset(PostOrder(t))| == |multiset(PreOrder(t))|;
    LevelOrderPermutation([t]);
    SingleForest(t);
    assert |multiset(LevelOrder([t]))| == |multiset(PreOrder(t))|;
  }

  /** The payloads of a sequence of present vertices: what `traverse` yields. */
  function DataOf<D>(s: seq<GTree<D>>): (r: seq<D>)
    requires forall i :: 0 <= i < |s| ==> s[i].Node?
    ensures |r| == |s|
    ensures forall i :: 0 <= i < |s| ==> r[i] == s[i].data
  {
    seq(|s|, i requires 0 <= i < |s| => s[i].data)
  }

  // ---------------------------------------------------------------------------
  // Copying

  /** `recur_copy` inside `Tree.copy`, as written: the loop rebinds its loop
      variable to each child's copy and throws it away, so the copy keeps the
      original children; the count starts at 1 per vertex and the function
      returns one more, so every present vertex is counted twice. */
  method RecurCopy<D>(node: GTree<D>) returns (copy: GTree<D>, size: nat)
    ensures copy == node
    ensures size == 2 * |PreOrder(node)|
    decreases node
  {
    if node.Nil? {
      return Nil, 0;
    }
    copy := CopyNode(node);
    var newSize := 1;
    var i := 0;
    while i < |copy.children|
      invariant 0 <= i <= |copy.children|
      invariant newSize == 1 + 2 * |PreOrderForest(copy.children[..i])|
    {
      var child := copy.children[i];
      var childCopy, childSize := RecurCopy(child);
      ForestPrefixStep(copy.children, i);
      newSize := newSize + childSize;
      i := i + 1;
    }
    assert copy.children[..i] == copy.children;
    size := 1 + newSize;
  }

  /** The copy count the documentation of `Tree.copy` promises, one per present
      vertex: `recur_copy` with the count returned as accumulated. */
  method RecurCopyCounted<D>(node: GTree<D>) returns (copy: GTree<D>, size: nat)
    ensures copy == node
    ensures size == |PreOrder(node)|
    decreases node
  {
    if node.Nil? {
      return Nil, 0;
    }
    copy := CopyNode(node);
    var newSize := 1;
    var i := 0;
    while i < |copy.children|
      invariant 0 <= i <= |copy.children|
      invariant newSize == 1 + |PreOrderForest(copy.children[..i])|
    {
      var child := copy.children[i];
      var childCopy, childSize := RecurCopyCounted(child);
      ForestPrefixStep(copy.children, i);
      newSize := newSize + childSize;
      i := i + 1;
    }
    assert copy.children[..i] == copy.children;
    size := newSize;
  }

  lemma ForestPrefixStep<D>(ts: seq<GTree<D>>, i: nat)
    requires i < |ts|
    ensures PreOrderForest(ts[..i + 1]) == PreOrderForest(ts[..i]) + PreOrder(ts[i])
  {
    assert ts[..i + 1] == ts[..i] + [ts[i]];
    PreOrderForestAppend(ts[..i], [ts[i]]);
    SingleForest(ts[i]);
  }

  /** The as-written copy count equals the number of vertices only for the
      empty tree; a single vertex is counted as 2. */
  lemma CopyCountDoubles<D>(t: GTree<D>)
    ensures (2 * |PreOrder(t)| == |PreOrder(t)|) <==> t.Nil?
    ensures t.Node? && t.children == [] ==> 2 * |PreOrder(t)| == 2 && |PreOrder(t)| == 1
  {
  }

  // ---------------------------------------------------------------------------
  // The container

  /** `Tree`: an optional root vertex and a size counter. */
  class Tree<D> {
    /** `_root`; `Nil` when the tree has no root. */
    var root: GTree<D>
    /** `_size`: a counter, kept only by `clear` and `copy`. */
    var size: nat

    constructor ()
      ensures root == Nil && size == 0
    {
      root := Nil;
      size := 0;
    }

    /** `clear`: drops the root, resets the size, and returns the same tree. */
    method Clear() returns (self: Tree<D>)
      modifies this
      ensures self == this
      ensures root == Nil && size == 0
      ensures IsEmpty() && Root() == Err(EmptyTree)
    {
      root := Nil;
      size := 0;
      self := this;
    }

    /** The `root` property: the root vertex's payload, not the vertex; raises
        when there is no root vertex, whatever the size counter says. */
    function Root(): (r: Result<D, TreeError>)
      reads this
      ensures r.Err? <==> root.Nil?
      ensures r.Err? ==> r.error == EmptyTree
      ensures r.Ok? ==> r.value == root.data
    {
      if root.Nil? then Err(EmptyTree) else Ok(root.data)
    }

    /** `size` and `len(tree)`: both read the counter. */
    function Len(): (n: nat)
      reads this
      ensures n == size
    {
      size
    }

    /** `isEmpty`: true exactly when the length is 0. */
    predicate IsEmpty()
      reads this
      ensures IsEmpty() <==> Len() == 0
    {
      size == 0
    }

    /** `copy`: a new tree whose root equals this one's and whose size is the
        as-written `recur_copy` count. */
    method Copy() returns (t: Tree<D>)
      ensures fresh(t)
      ensures t.root == root
      ensures t.size == 2 * |PreOrder(root)|
    {
      var newRoot, newSize := RecurCopy(root);
      t := new Tree();
      t.root := newRoot;
      t.size := newSize;
    }

    /** `breadth_first_order_traverse`: a FIFO loop over a queue seeded with the
        root, which yields present vertices and enqueues their children. */
    method BreadthFirstOrderTraverse() returns (r: seq<GTree<D>>)
      ensures r == LevelOrder([root])
      ensures multiset(r) == multiset(PreOrder(root))
      ensures root.Node? ==> |r| > 0 && r[0] == root
      ensures forall n: nat :: r == LevelsUpTo([root], n) + LevelOrder(Level([root], n))
    {
      var q := [root];
      r := [];
      while q != []
        invariant r + LevelOrder(q) == LevelOrder([root])
        decreases Weight(q)
      {
        LevelOrderStep(q);
        WeightDequeue(q);
        var node := q[0];
        q := q[1..];
        if node.Node? {
          AppendAssoc(r, [node], LevelOrder(q + node.children));
          r := r + [node];
          q := q + node.children;
        }
      }
      assert LevelOrder(q) == [];
      LevelOrderStep([root]);
      LevelOrderPermutation([root]);
      SingleForest(root);
      forall n: nat
        ensures r == LevelsUpTo([root], n) + LevelOrder(Level([root], n))
      {
        LevelOrderByLevels([root], n);
      }
    }

    /** `traverse` with `_traverse`: resolves the order name and maps each
        visited vertex to its payload. */
    function Traverse(order: OrderArg): (r: Result<seq<D>, TreeError>)
      reads this
      ensures r.Ok? <==> order.Default? || (order.Name? && order.name in TreeOrderNames)
      ensures order.NotAString? ==> r == Err(OrderNotString)
      ensures order.Name? && order.name in NeedsArgumentNames ==> r == Err(MissingArgument)
      ensures order.Name? && order.name !in TreeOrderNames + NeedsArgumentNames ==> r == Err(WrongOrdering)
      ensures order.Default? ==> r == Ok(DataOf(LevelOrder([root])))
      ensures order == Name("pre_order") ==> r == Ok(DataOf(PreOrder(root)))
      ensures order == Name("post_order") ==> r == Ok(DataOf(PostOrder(root)))
      ensures order == Name("breadth_first_order") ==> r == Ok(DataOf(LevelOrder([root])))
      ensures r.Ok? ==> |r.value| == |PreOrder(root)|
    {
      OrdersAgreeInLength(root);
      match order
      case Default => TraverseByName(DefaultTraversalOrder)
      case Name(n) => TraverseByName(n)
      case NotAString => Err(OrderNotString)
    }

    /** The lookup of `name + "_traverse"` among the tree's methods. */
    function TraverseByName(name: string): (r: Result<seq<D>, TreeError>)
      reads this
      ensures r.Ok? <==> name in TreeOrderNames
      ensures r.Ok? ==> |r.value| == |PreOrder(root)|
      ensures r.Err? ==> (r.error == MissingArgument <==> name in NeedsArgumentNames)
      ensures r.Err? ==> r.error != EmptyTree && r.error != OrderNotString
    {
      OrdersAgreeInLength(root);
      if name == "pre_order" then Ok(DataOf(PreOrder(root)))
      else if name == "post_order" then Ok(DataOf(PostOrder(root)))
      else if name == "breadth_first_order" then Ok(DataOf(LevelOrder([root])))
      else if name in NeedsArgumentNames then Err(MissingArgument)
      else Err(WrongOrdering)
    }
  }

  /** The tree of the module's own demonstration: root 0 with children
      [1, 2, 3], where vertex 1 has children [4, 2, 3]. */
  function DemoTree(): GTree<int>
  {
    Node(0, [Node(1, [Node(4, []), Node(2, []), Node(3, [])]), Node(2, []), Node(3, [])])
  }

  lemma DemoPreOrder()
    ensures DataOf(PreOrder(DemoTree())) == [0, 1, 4, 2, 3, 2, 3]
  {
  }

  /** A queue of childless vertices is yielded as it stands. */
  lemma {:induction false} LeavesLevelOrder<D>(q: seq<GTree<D>>)
    requires forall i :: 0 <= i < |q| ==> q[i].Node? && q[i].children == []
    ensures LevelOrder(q) == q
    decreases |q|
  {
    if q != [] {
      LevelOrderStep(q);
      assert q[1..] + q[0].children == q[1..];
      LeavesLevelOrder(q[1..]);
    }
  }

  lemma DemoBreadthFirst()
    ensures DataOf(LevelOrder([DemoTree()])) == [0, 1, 2, 3, 4, 2, 3]
  {
    var n4, n2, n3 := Node(4, []), Node(2, []), Node(3, []);
    var n1 := Node(1, [n4, n2, n3]);
    var t := DemoTree();
    assert t == Node(0, [n1, n2, n3]);
    LevelOrderStep([t]);
    assert [t][1..] + t.children == [n1, n2, n3];
    LevelOrderStep([n1, n2, n3]);
    assert [n1, n2, n3][1..] + n1.children == [n2, n3, n4, n2, n3];
    LeavesLevelOrder([n2, n3, n4, n2, n3]);
    assert LevelOrder([t]) == [t, n1, n2, n3, n4, n2, n3];
  }
}
