/** The balanced search tree with parent links that every map of the library is built on (lib/avltree.c). */
module AvlTrees {
  import opened AvlShape
  import opened Ordered

  datatype Status = Done | KeyExists | UnknownKey

  ghost function RootSet<V(!new)>(s: Shape<V>): set<Node<V>> {
    if s.Leaf? then {} else {s.node}
  }

  ghost function UpSet<V(!new)>(c: Context<V>): set<Node<V>> {
    if c.Top? then {} else {c.node}
  }

  function HeightOf<V(!new)>(n: Node?<V>): nat
    reads n
  {
    if n == null then 0 else n.height
  }

  function GetBalance<V(!new)>(n: Node<V>): int
    reads n, n.left, n.right
  {
    HeightOf(n.right) - HeightOf(n.left)
  }

  lemma LinkedHeights<V(!new)>(s: Shape<V>, p: Node?<V>)
    requires Linked(s, p)
    ensures HeightOf(Ptr(s)) == H(s)
    ensures s.Tree? ==> GetBalance(s.node) == BalanceOf(s)
  {
    if s.Tree? {
      assert Linked(s.l, s.node) && Linked(s.r, s.node);
    }
  }

  /** Makes `b` the child of `p` where `a` was. */
  method ReplaceChild<V(!new)>(p: Node?<V>, a: Node<V>, b: Node<V>, ghost c: Context<V>)
    requires p == Up(c) && LinkedContext(c, a) && DistinctContext(c) && a !in ContextNodes(c)
    modifies if p == null then {} else {p}
    ensures LinkedContext(c, b)
  {
    if p != null {
      if p.left == a {
        p.left := b;
      } else {
        p.right := b;
      }
    }
  }

  /** Hands a subtree over to another parent. */
  method Adopt<V(!new)>(child: Node?<V>, parent: Node<V>, ghost was: Node<V>, ghost m: Shape<V>)
    requires child == Ptr(m) && Distinct(m) && Linked(m, was)
    modifies RootSet(m)
    ensures Linked(m, parent)
  {
    if child != null {
      child.parent := parent;
    }
  }

  /** Puts a node on top of two subtrees. */
  method Place<V(!new)>(n: Node<V>, p: Node?<V>, left: Node?<V>, right: Node?<V>, ghost l: Shape<V>, ghost r: Shape<V>)
    requires left == Ptr(l) && right == Ptr(r) && Linked(l, n) && Linked(r, n)
    requires n !in Nodes(l) && n !in Nodes(r)
    modifies n
    ensures n.value == old(n.value) && Linked(Join(n, n.value, l, r), p)
  {
    LinkedHeights(l, n);
    LinkedHeights(r, n);
    n.parent, n.left, n.right := p, left, right;
    n.height := 1 + Max(HeightOf(left), HeightOf(right));
  }

  /** The links and heights of a left rotation at `a`, below the parent `p`. */
  method RelinkLeft<V(!new)>(a: Node<V>, b: Node<V>, p: Node?<V>, ghost s: Shape<V>)
    requires s.Tree? && s.r.Tree? && s.node == a && s.r.node == b
    requires Distinct(s) && Linked(s, p)
    modifies a, b, RootSet(s.r.l)
    ensures Linked(RotatedLeft(s), p)
  {
    ghost var m := s.r.l;
    assert Distinct(s.r) && Distinct(m) && Linked(m, b);
    assert allocated(Nodes(s));
    var t1, t2, t3 := a.left, b.left, b.right;
    Adopt(t2, a, b, m);
    Place(a, b, t1, t2, s.l, m);
    Place(b, p, a, t3, Join(a, s.val, s.l, m), s.r.r);
  }

  method RotateLeft<V(!new)>(a: Node<V>, ghost s: Shape<V>, ghost c: Context<V>) returns (b: Node<V>)
    requires s.Tree? && s.r.Tree? && s.node == a
    requires Separate(c, s) && Linked(s, Up(c)) && LinkedContext(c, a)
    modifies Nodes(s), UpSet(c)
    ensures b == s.r.node
    ensures Linked(RotatedLeft(s), Up(c)) && LinkedContext(c, b)
  {
    b := a.right;
    assert allocated(Nodes(s)) && allocated(ContextNodes(c));
    assert b in Nodes(s) && RootSet(s.r.l) <= Nodes(s) by {
      assert b in Nodes(s.r) && RootSet(s.r.l) <= Nodes(s.r.l) <= Nodes(s.r);
    }
    ReplaceChild(a.parent, a, b, c);
    RelinkLeft(a, b, a.parent, s);
  }

  /** The links and heights of a right rotation at `a`, below the parent `p`. */
  method RelinkRight<V(!new)>(a: Node<V>, b: Node<V>, p: Node?<V>, ghost s: Shape<V>)
    requires s.Tree? && s.l.Tree? && s.node == a && s.l.node == b
    requires Distinct(s) && Linked(s, p)
    modifies a, b, RootSet(s.l.r)
    ensures Linked(RotatedRight(s), p)
  {
    ghost var m := s.l.r;
    assert Distinct(s.l) && Distinct(m) && Linked(m, b);
    assert allocated(Nodes(s));
    var t1, t2, t3 := b.left, b.right, a.right;
    Adopt(t2, a, b, m);
    Place(a, b, t2, t3, m, s.r);
    Place(b, p, t1, a, s.l.l, Join(a, s.val, m, s.r));
  }

  method RotateRight<V(!new)>(a: Node<V>, ghost s: Shape<V>, ghost c: Context<V>) returns (b: Node<V>)
    requires s.Tree? && s.l.Tree? && s.node == a
    requires Separate(c, s) && Linked(s, Up(c)) && LinkedContext(c, a)
    modifies Nodes(s), UpSet(c)
    ensures b == s.l.node
    ensures Linked(RotatedRight(s), Up(c)) && LinkedContext(c, b)
  {
    b := a.left;
    assert allocated(Nodes(s)) && allocated(ContextNodes(c));
    assert b in Nodes(s) && RootSet(s.l.r) <= Nodes(s) by {
      assert b in Nodes(s.l) && RootSet(s.l.r) <= Nodes(s.l.r) <= Nodes(s.l);
    }
    ReplaceChild(a.parent, a, b, c);
    RelinkRight(a, b, a.parent, s);
  }

  /** The first half of a double rotation: the left side of `n` is rotated. */
  method RotateLeftSide<V(!new)>(n: Node<V>, ghost s: Shape<V>, ghost c: Context<V>)
    requires s.Tree? && s.l.Tree? && s.l.r.Tree? && s.node == n
    requires Separate(c, s) && Linked(s, Up(c)) && LinkedContext(c, n)
    modifies Nodes(s)
    ensures var t := s.(l := RotatedLeft(s.l));
      Separate(c, t) && Linked(t, Up(c)) && LinkedContext(c, n) && Nodes(t) == Nodes(s)
  {
    RotatedLeftContents(s.l);
    assert allocated(Nodes(s.r)) && allocated(ContextNodes(c));
    var b := RotateLeft(n.left, s.l, InLeft(c, n, s.val, s.h, s.r));
    n.left := b;
  }

  method RotateLeftRight<V(!new)>(n: Node<V>, ghost s: Shape<V>, ghost c: Context<V>) returns (m: Node<V>)
    requires s.Tree? && s.l.Tree? && s.l.r.Tree? && s.node == n
    requires Separate(c, s) && Linked(s, Up(c)) && LinkedContext(c, n)
    modifies Nodes(s), UpSet(c)
    ensures m == s.l.r.node
    ensures Linked(RotatedRight(s.(l := RotatedLeft(s.l))), Up(c)) && LinkedContext(c, m)
  {
    hide Linked, LinkedContext, Separate, Nodes;
    RotateLeftSide(n, s, c);
    m := RotateRight(n, s.(l := RotatedLeft(s.l)), c);
  }

  method RotateRightSide<V(!new)>(n: Node<V>, ghost s: Shape<V>, ghost c: Context<V>)
    requires s.Tree? && s.r.Tree? && s.r.l.Tree? && s.node == n
    requires Separate(c, s) && Linked(s, Up(c)) && LinkedContext(c, n)
    modifies Nodes(s)
    ensures var t := s.(r := RotatedRight(s.r));
      Separate(c, t) && Linked(t, Up(c)) && LinkedContext(c, n) && Nodes(t) == Nodes(s)
  {
    RotatedRightContents(s.r);
    assert allocated(Nodes(s.l)) && allocated(ContextNodes(c));
    var b := RotateRight(n.right, s.r, InRight(c, n, s.val, s.h, s.l));
    n.right := b;
  }

  method RotateRightLeft<V(!new)>(n: Node<V>, ghost s: Shape<V>, ghost c: Context<V>) returns (m: Node<V>)
    requires s.Tree? && s.r.Tree? && s.r.l.Tree? && s.node == n
    requires Separate(c, s) && Linked(s, Up(c)) && LinkedContext(c, n)
    modifies Nodes(s), UpSet(c)
    ensures m == s.r.l.node
    ensures Linked(RotatedLeft(s.(r := RotatedRight(s.r))), Up(c)) && LinkedContext(c, m)
  {
    hide Linked, LinkedContext, Separate, Nodes;
    RotateRightSide(n, s, c);
    m := RotateLeft(n, s.(r := RotatedRight(s.r)), c);
  }

  /** Restores the balance of one node whose sides differ by at most two. */
  method RebalanceNode<V(!new)>(n: Node<V>, ghost s: Shape<V>, ghost c: Context<V>) returns (m: Node<V>)
    requires NearlyBalanced(s) && s.node == n
    requires Separate(c, s) && Linked(s, Up(c)) && LinkedContext(c, n)
    modifies Nodes(s), UpSet(c)
    ensures m == Ptr(Rebalanced(s))
    ensures Linked(Rebalanced(s), Up(c)) && LinkedContext(c, m)
  {
    LinkedHeights(s, Up(c));
    if s.l.Tree? { LinkedHeights(s.l, n); }
    if s.r.Tree? { LinkedHeights(s.r, n); }
    m := n;
    var balance := GetBalance(n);
    if balance < -1 {
      if GetBalance(n.left) <= 0 {
        m := RotateRight(n, s, c);
      } else {
        m := RotateLeftRight(n, s, c);
      }
    } else if balance > 1 {
      if GetBalance(n.right) >= 0 {
        m := RotateLeft(n, s, c);
      } else {
        m := RotateRightLeft(n, s, c);
      }
    }
  }

  /** Recomputes the height of `n` from its children and restores its balance. */
  method Refresh<V(!new)>(n: Node<V>, ghost s: Shape<V>, ghost c: Context<V>) returns (m: Node<V>)
    requires s.Tree? && s.node == n && NearlyBalanced(Updated(s))
    requires Separate(c, s) && Linked(s, Up(c)) && LinkedContext(c, n)
    modifies Nodes(s), UpSet(c)
    ensures m == Ptr(Rebalanced(Updated(s)))
    ensures Linked(Rebalanced(Updated(s)), Up(c)) && LinkedContext(c, m)
  {
    LinkedHeights(s.l, n);
    LinkedHeights(s.r, n);
    n.height := 1 + Max(HeightOf(n.left), HeightOf(n.right));
    m := RebalanceNode(n, Updated(s), c);
  }

  /** Makes the subtree `u` the left child of `n`. */
  method AttachLeft<V(!new)>(n: Node<V>, child: Node<V>, ghost s: Shape<V>, ghost c: Context<V>, ghost u: Shape<V>,
                              ghost q: Node?<V>)
    requires s.Tree? && n == s.node && u.Tree? && child == u.node
    requires Distinct(u) && n !in Nodes(u) && n !in Nodes(s.r) && child !in Nodes(s.r) && Linked(u, q)
    requires n.value == s.val && n.height == s.h && n.right == Ptr(s.r) && Linked(s.r, n)
    requires n.parent == Up(c) && LinkedContext(c, n) && {n, child} !! ContextNodes(c)
    modifies n`left, child`parent
    ensures Linked(s.(l := u), Up(c)) && LinkedContext(c, n)
  {
    n.left := child;
    n.left.parent := n;
    assert Linked(u, n);
  }

  method AttachRight<V(!new)>(n: Node<V>, child: Node<V>, ghost s: Shape<V>, ghost c: Context<V>, ghost u: Shape<V>,
                              ghost q: Node?<V>)
    requires s.Tree? && n == s.node && u.Tree? && child == u.node
    requires Distinct(u) && n !in Nodes(u) && n !in Nodes(s.l) && child !in Nodes(s.l) && Linked(u, q)
    requires n.value == s.val && n.height == s.h && n.left == Ptr(s.l) && Linked(s.l, n)
    requires n.parent == Up(c) && LinkedContext(c, n) && {n, child} !! ContextNodes(c)
    modifies n`right, child`parent
    ensures Linked(s.(r := u), Up(c)) && LinkedContext(c, n)
  {
    n.right := child;
    n.right.parent := n;
    assert Linked(u, n);
  }

  /** Inserts below the link that holds `n`; `m` is what that link has to hold afterwards.
      `slot` is what it holds on return: a rotation at `n` has written it already, a new leaf has not. */
  method InsertSubtree<K, V(!new)>(o: Order<K, V>, n: Node?<V>, key: K, value: V, ghost s: Shape<V>,
      ghost c: Context<V>)
    returns (status: Status, m: Node?<V>, ghost leaf: Node?<V>, ghost slot: Node?<V>)
    requires n == Ptr(s) && Balanced(s)
    requires Separate(c, s) && Linked(s, Up(c)) && LinkedContext(c, n)
    modifies Nodes(s), UpSet(c)
    ensures LinkedContext(c, slot)
    ensures status == if Found(o, s, key) then KeyExists else Done
    ensures status.KeyExists? ==> m == n && slot == n && Linked(s, Up(c))
    ensures status.Done? ==>
      && leaf != null && fresh(leaf)
      && var t := Grown(o, s, key, leaf, value);
      && m == Ptr(t) && Linked(t, if s.Leaf? then null else Up(c))
    decreases s, 1
  {
    if n == null {
      assert allocated(ContextNodes(c));
      m := new Node(value);
      return Done, m, m, null;
    }
    assert allocated(Nodes(s)) && allocated(ContextNodes(c));
    var d := o.compare(key, n.value);
    if d == 0 {
      return KeyExists, n, null, n;
    }
    if d < 0 {
      status, leaf := InsertLeft(o, n, key, value, s, c);
    } else {
      status, leaf := InsertRight(o, n, key, value, s, c);
    }
    m, slot := n, n;
    if status.Done? {
      ghost var u := if d < 0 then s.(l := Grown(o, s.l, key, leaf, value))
        else s.(r := Grown(o, s.r, key, leaf, value));
      GrownBelow(o, c, s, key, leaf, value);
      m := Refresh(n, u, c);
      slot := m;
    }
  }

  /** What the context of a side says about the node above it. */
  lemma AscendLeft<V(!new)>(c: Context<V>, s: Shape<V>, slot: Node?<V>)
    requires s.Tree? && LinkedContext(LeftOf(c, s), slot)
    ensures var n := s.node;
      && LinkedContext(c, n) && Linked(s.r, n) && n.value == s.val && n.height == s.h
      && n.parent == Up(c) && n.left == slot && n.right == Ptr(s.r)
  {
  }

  lemma AscendRight<V(!new)>(c: Context<V>, s: Shape<V>, slot: Node?<V>)
    requires s.Tree? && LinkedContext(RightOf(c, s), slot)
    ensures var n := s.node;
      && LinkedContext(c, n) && Linked(s.l, n) && n.value == s.val && n.height == s.h
      && n.parent == Up(c) && n.left == Ptr(s.l) && n.right == slot
  {
  }

  /** The step of `InsertSubtree` into the left side: afterwards only the height of `n` is out of date. */
  method InsertLeft<K, V(!new)>(o: Order<K, V>, n: Node<V>, key: K, value: V, ghost s: Shape<V>, ghost c: Context<V>)
    returns (status: Status, ghost leaf: Node?<V>)
    requires s.Tree? && n == s.node && Balanced(s)
    requires Separate(c, s) && Linked(s, Up(c)) && LinkedContext(c, n)
    modifies Nodes(s)
    ensures LinkedContext(c, n)
    ensures status == if Found(o, s.l, key) then KeyExists else Done
    ensures status.KeyExists? ==> Linked(s, Up(c))
    ensures status.Done? ==>
      && leaf != null && fresh(leaf)
      && var t := s.(l := Grown(o, s.l, key, leaf, value));
      && Linked(t, Up(c))
    decreases s, 0
  {
    hide Found, Grown, Distinct, H, LinkedContext;
    assert allocated(Nodes(s.l)) && allocated(Nodes(s.r)) && allocated(ContextNodes(c));
    Descend(c, s);
    ghost var slot;
    var child;
    status, child, leaf, slot := InsertSubtree(o, n.left, key, value, s.l, LeftOf(c, s));
    AscendLeft(c, s, slot);
    if status.Done? {
      GrownNodes(o, s.l, key, leaf, value);
      AttachLeft(n, child, s, c, Grown(o, s.l, key, leaf, value), if s.l.Leaf? then null else n);
    }
  }

  method InsertRight<K, V(!new)>(o: Order<K, V>, n: Node<V>, key: K, value: V, ghost s: Shape<V>, ghost c: Context<V>)
    returns (status: Status, ghost leaf: Node?<V>)
    requires s.Tree? && n == s.node && Balanced(s)
    requires Separate(c, s) && Linked(s, Up(c)) && LinkedContext(c, n)
    modifies Nodes(s)
    ensures LinkedContext(c, n)
    ensures status == if Found(o, s.r, key) then KeyExists else Done
    ensures status.KeyExists? ==> Linked(s, Up(c))
    ensures status.Done? ==>
      && leaf != null && fresh(leaf)
      && var t := s.(r := Grown(o, s.r, key, leaf, value));
      && Linked(t, Up(c))
    decreases s, 0
  {
    hide Found, Grown, Distinct, H, LinkedContext;
    assert allocated(Nodes(s.l)) && allocated(Nodes(s.r)) && allocated(ContextNodes(c));
    Descend(c, s);
    ghost var slot;
    var child;
    status, child, leaf, slot := InsertSubtree(o, n.right, key, value, s.r, RightOf(c, s));
    AscendRight(c, s, slot);
    if status.Done? {
      GrownNodes(o, s.r, key, leaf, value);
      AttachRight(n, child, s, c, Grown(o, s.r, key, leaf, value), if s.r.Leaf? then null else n);
    }
  }

  /** Repairs heights and balance from `start` up to the root, which it returns. */
  method RebalanceFrom<V(!new)>(start: Node<V>, ghost s0: Shape<V>, ghost c0: Context<V>, ghost was0: nat)
    returns (root: Node<V>, ghost w: Shape<V>)
    requires s0.Tree? && s0.node == start && Shrunk(s0, was0) && BalancedContext(c0, was0)
    requires Separate(c0, s0) && Linked(s0, Up(c0)) && LinkedContext(c0, start)
    modifies Nodes(s0), ContextNodes(c0)
    ensures root == Ptr(w) && Linked(w, null) && Distinct(w) && Balanced(w)
    ensures InOrder(w) == InOrder(Plug(c0, s0)) && Nodes(w) == Nodes(Plug(c0, s0))
  {
    var n := start;
    ghost var s, c, was := s0, c0, was0;
    assert allocated(Nodes(s0)) && allocated(ContextNodes(c0));
    while true
      invariant s.Tree? && s.node == n && Shrunk(s, was) && BalancedContext(c, was)
      invariant Separate(c, s) && Linked(s, Up(c)) && LinkedContext(c, n)
      invariant InOrder(Plug(c, s)) == InOrder(Plug(c0, s0))
      invariant Nodes(s) + ContextNodes(c) == Nodes(s0) + ContextNodes(c0)
      decreases c
    {
      RefreshedStep(c, s, was);
      ghost var t := Rebalanced(Updated(s));
      n := Refresh(n, s, c);
      if n.parent == null {
        PlugNodes(c0, s0);
        return n, t;
      }
      GoOutward(c, t);
      n := n.parent;
      s, was, c := Outward(c, t), c.h, c.up;
    }
  }

  /** The state in which a removal hands over to `RebalanceFrom`: the element at the root of `s` is gone,
      `freed` is no longer linked, and the tree `t` in the context `k` may have to be repaired from its root up. */
  ghost predicate Spliced<V(!new)>(c: Context<V>, s: Shape<V>, k: Context<V>, t: Shape<V>, was: nat, freed: Node<V>)
    requires s.Tree?
    reads Nodes(t), ContextNodes(k)
  {
    && Shrunk(t, was) && BalancedContext(k, was)
    && Separate(k, t) && Linked(t, Up(k)) && LinkedContext(k, t.node)
    && InOrder(Plug(k, t)) == ValuesBefore(c) + InOrder(s.l) + InOrder(s.r) + ValuesAfter(c)
    && freed in Nodes(s) && Nodes(t) + ContextNodes(k) == Nodes(s) + ContextNodes(c) - {freed}
  }

  /** Takes the childless node `n` out of its parent. */
  method Unlink<V(!new)>(n: Node<V>, ghost s: Shape<V>, ghost c: Context<V>) returns (p: Node<V>)
    requires s.Tree? && s.node == n && s.l.Leaf? && s.r.Leaf? && !c.Top?
    requires Balanced(s) && BalancedContext(c, H(s))
    requires Separate(c, s) && Linked(s, Up(c)) && LinkedContext(c, n)
    modifies c.node
    ensures p == c.node && Spliced(c, s, c.up, Outward(c, Leaf), c.h, n)
  {
    hide ValuesBefore, ValuesAfter, Shrunk, BalancedContext;
    p := n.parent;
    if n == p.left {
      p.left := null;
    } else {
      p.right := null;
    }
    GoOutward(c, Leaf);
    PlugValues(c, Leaf);
    ShrunkOutward(c, Leaf, 1);
  }

  /** The right side of `n`, a single node, takes the place of `n`. */
  method PullUpRight<V(!new)>(n: Node<V>, ghost s: Shape<V>, ghost c: Context<V>)
    requires s.Tree? && s.node == n && s.l.Leaf? && s.r.Tree?
    requires Balanced(s) && BalancedContext(c, H(s))
    requires Separate(c, s) && Linked(s, Up(c)) && LinkedContext(c, n)
    modifies n
    ensures Spliced(c, s, c, Tree(n, s.r.val, s.h, Leaf, Leaf), s.h, s.r.node)
  {
    assert n.right == s.r.node && n.right.value == s.r.val by {
      assert Linked(s.r, n);
    }
    PulledUpRight(c, s);
    n.value := n.right.value;
    n.right := null;
  }

  /** The left side of `n`, a single node, takes the place of `n`. */
  method PullUpLeft<V(!new)>(n: Node<V>, ghost s: Shape<V>, ghost c: Context<V>)
    requires s.Tree? && s.node == n && s.r.Leaf? && s.l.Tree?
    requires Balanced(s) && BalancedContext(c, H(s))
    requires Separate(c, s) && Linked(s, Up(c)) && LinkedContext(c, n)
    modifies n
    ensures Spliced(c, s, c, Tree(n, s.l.val, s.h, Leaf, Leaf), s.h, s.l.node)
  {
    assert n.left == s.l.node && n.left.value == s.l.val by {
      assert Linked(s.l, n);
    }
    PulledUpLeft(c, s);
    n.value := n.left.value;
    n.left := null;
  }

  /** The last node below `n`, with the path that leads to it. */
  method Rightmost<V(!new)>(n: Node<V>, ghost s: Shape<V>, ghost p: Node<V>)
    returns (m: Node<V>, ghost d: Context<V>, ghost t: Shape<V>)
    requires s.Tree? && s.node == n && Linked(s, p)
    ensures t.Tree? && t.node == m && t.r.Leaf? && Plug(d, t) == s && ValuesAfter(d) == []
    ensures m.value == t.val && m.left == Ptr(t.l)
  {
    m := n;
    d, t := Top, s;
    ghost var q := p;
    while m.right != null
      invariant t.Tree? && t.node == m && Linked(t, q)
      invariant Plug(d, t) == s && ValuesAfter(d) == []
      decreases t
    {
      q := m;
      m := m.right;
      d, t := RightOf(d, t), t.r;
    }
  }

  method SetValue<V(!new)>(n: Node<V>, value: V, ghost s: Shape<V>, ghost c: Context<V>)
    requires s.Tree? && s.node == n
    requires Separate(c, s) && Linked(s, Up(c)) && LinkedContext(c, n)
    modifies n`value
    ensures Separate(c, s.(val := value)) && Linked(s.(val := value), Up(c)) && LinkedContext(c, n)
  {
    n.value := value;
  }

  /** Takes out the node `n`, which has no right child: its left child, if any, is a single node. */
  method TakeOut<V(!new)>(n: Node<V>, ghost s: Shape<V>, ghost c: Context<V>)
    returns (changed: Node<V>, ghost k: Context<V>, ghost t: Shape<V>, ghost was: nat, ghost freed: Node<V>)
    requires s.Tree? && s.node == n && s.r.Leaf? && !c.Top?
    requires Balanced(s) && BalancedContext(c, H(s))
    requires Separate(c, s) && Linked(s, Up(c)) && LinkedContext(c, n)
    modifies n, c.node
    ensures t.Tree? && t.node == changed && Spliced(c, s, k, t, was, freed)
  {
    if n.left != null {
      PullUpLeft(n, s, c);
      changed := n;
      freed, k, was, t := s.l.node, c, s.h, Tree(n, s.l.val, s.h, Leaf, Leaf);
    } else {
      BalancedTreeHeight(s);
      changed := Unlink(n, s, c);
      freed, k, was, t := n, c.up, c.h, Outward(c, Leaf);
    }
  }

  /** The tree seen from the node `u` on the left of `s`, whose value has replaced that of `s`. */
  ghost predicate SeenFrom<V(!new)>(c: Context<V>, s: Shape<V>, k: Context<V>, u: Shape<V>)
    requires s.Tree?
  {
    && u.Tree? && u.r.Leaf? && !k.Top?
    && Balanced(u) && BalancedContext(k, H(u))
    && Nodes(u) + ContextNodes(k) == Nodes(s) + ContextNodes(c)
    && Nodes(u) <= Nodes(s) && k.node in Nodes(s)
    && ValuesBefore(k) + InOrder(u.l) + ValuesAfter(k) == ValuesBefore(c) + InOrder(s.l) + InOrder(s.r) + ValuesAfter(c)
  }

  lemma SplicedWithin<V(!new)>(c: Context<V>, s: Shape<V>, c': Context<V>, u: Shape<V>,
                               k: Context<V>, t: Shape<V>, was: nat, freed: Node<V>)
    requires s.Tree? && SeenFrom(c, s, c', u) && Spliced(c', u, k, t, was, freed)
    ensures Spliced(c, s, k, t, was, freed)
  {
  }

  /** Copies the value of the last node on the left of `n` into `n`. */
  method CopyRightmost<V(!new)>(n: Node<V>, ghost s: Shape<V>, ghost c: Context<V>)
    returns (rightmost: Node<V>, ghost k: Context<V>, ghost u: Shape<V>)
    requires s.Tree? && s.node == n && s.l.Tree?
    requires Balanced(s) && BalancedContext(c, H(s))
    requires Separate(c, s) && Linked(s, Up(c)) && LinkedContext(c, n)
    modifies n`value
    ensures SeenFrom(c, s, k, u) && u.node == rightmost
    ensures Separate(k, u) && Linked(u, Up(k)) && LinkedContext(k, rightmost)
  {
    ghost var d;
    assert Linked(s.l, n);
    assert allocated(Nodes(s)) && allocated(ContextNodes(c));
    rightmost, d, u := Rightmost(n.left, s.l, n);
    SetValue(n, rightmost.value, s, c);
    k := Compose(d, LeftOf(c, s.(val := u.val)));
    Rezip(c, s.(val := u.val), d, u);
    SplicedValues(c, s, d, u);
    ComposeNodes(c, s, d, u);
  }

  /** Copies the value of the last node on the left into `n` and takes that node out instead. */
  method SpliceRightmost<V(!new)>(n: Node<V>, ghost s: Shape<V>, ghost c: Context<V>)
    returns (changed: Node<V>, ghost k: Context<V>, ghost t: Shape<V>, ghost was: nat, ghost freed: Node<V>)
    requires s.Tree? && s.node == n && s.l.Tree?
    requires Balanced(s) && BalancedContext(c, H(s))
    requires Separate(c, s) && Linked(s, Up(c)) && LinkedContext(c, n)
    modifies Nodes(s)
    ensures t.Tree? && t.node == changed && Spliced(c, s, k, t, was, freed)
  {
    ghost var c', u;
    var rightmost;
    rightmost, c', u := CopyRightmost(n, s, c);
    assert rightmost in Nodes(s);
    changed, k, t, was, freed := TakeOut(rightmost, u, c');
    SplicedWithin(c, s, c', u, k, t, was, freed);
  }

  /** Takes the value of `n` out of the tree, and with it one node: the three cases of a removal that leave a tree. */
  method Splice<V(!new)>(n: Node<V>, ghost s: Shape<V>, ghost c: Context<V>)
    returns (changed: Node<V>, ghost k: Context<V>, ghost t: Shape<V>, ghost was: nat, ghost freed: Node<V>)
    requires s.Tree? && s.node == n && (s.l.Tree? || s.r.Tree? || !c.Top?)
    requires Balanced(s) && BalancedContext(c, H(s))
    requires Separate(c, s) && Linked(s, Up(c)) && LinkedContext(c, n)
    modifies Nodes(s), UpSet(c)
    ensures t.Tree? && t.node == changed && Spliced(c, s, k, t, was, freed)
  {
    if n.left != null {
      changed, k, t, was, freed := SpliceRightmost(n, s, c);
    } else if n.right != null {
      changed, k, t, was, freed := n, c, Tree(n, s.r.val, s.h, Leaf, Leaf), s.h, s.r.node;
      PullUpRight(n, s, c);
    } else {
      BalancedTreeHeight(s);
      k, t, was, freed := c.up, Outward(c, Leaf), c.h, n;
      changed := Unlink(n, s, c);
    }
  }

  /** Takes the value of `n` out of the tree and repairs it up to the root, which is returned. */
  method RemoveNode<V(!new)>(n: Node<V>, ghost s: Shape<V>, ghost c: Context<V>)
    returns (root: Node?<V>, ghost w: Shape<V>, ghost freed: Node<V>)
    requires s.Tree? && s.node == n && Balanced(s) && BalancedContext(c, H(s))
    requires Separate(c, s) && Linked(s, Up(c)) && LinkedContext(c, n)
    modifies Nodes(s), ContextNodes(c)
    ensures root == Ptr(w) && Linked(w, null) && Distinct(w) && Balanced(w)
    ensures InOrder(w) == ValuesBefore(c) + InOrder(s.l) + InOrder(s.r) + ValuesAfter(c)
    ensures freed in Nodes(s) && Nodes(w) == Nodes(s) + ContextNodes(c) - {freed}
  {
    if n.left == null && n.right == null && n.parent == null {
      root, w, freed := null, Leaf, n;
    } else {
      hide InOrder, ValuesBefore, ValuesAfter, Shrunk, Balanced, BalancedContext;
      ghost var k, t, was;
      var changed;
      changed, k, t, was, freed := Splice(n, s, c);
      PlugNodes(k, t);
      root, w := RebalanceFrom(changed, t, k, was);
    }
  }

  /** The node after the `i`-th one of the tree `w`, found through child and parent links. */
  method NodeNext<V(!new)>(node: Node<V>, ghost w: Shape<V>, ghost i: nat) returns (next: Node?<V>)
    requires Distinct(w) && Linked(w, null) && i < |NodeOrder(w)| && NodeOrder(w)[i] == node
    ensures next == if i + 1 < |NodeOrder(w)| then NodeOrder(w)[i+1] else null
  {
    ghost var c, s := Locate(Top, w, i);
    PlugLinked(c, s);
    if node.right != null {
      Descend(c, s);
      next := node.right;
      c, s := RightOf(c, s), s.r;
      while next.left != null
        invariant next != null && s.Tree? && next == s.node && Plug(c, s) == w
        invariant Separate(c, s) && Linked(s, Up(c)) && LinkedContext(c, next)
        invariant |NodesBefore(c)| == i + 1
        decreases s
      {
        Descend(c, s);
        next := next.left;
        c, s := LeftOf(c, s), s.l;
      }
      PlugNodeOrder(c, s);
    } else {
      var n := node;
      next := n.parent;
      while next != null && next.right == n
        invariant s.Tree? && n == s.node && next == n.parent && Plug(c, s) == w
        invariant Separate(c, s) && Linked(s, Up(c)) && LinkedContext(c, n)
        invariant |NodesBefore(c)| + |NodeOrder(s)| == i + 1
        decreases c
      {
        GoOutward(c, s);
        s, c := Outward(c, s), c.up;
        n := next;
        next := n.parent;
      }
      PlugNodeOrder(c, s);
    }
  }

  /** The node before the `i`-th one of the tree `w`. */
  method NodePrevious<V(!new)>(node: Node<V>, ghost w: Shape<V>, ghost i: nat) returns (previous: Node?<V>)
    requires Distinct(w) && Linked(w, null) && i < |NodeOrder(w)| && NodeOrder(w)[i] == node
    ensures previous == if i > 0 then NodeOrder(w)[i-1] else null
  {
    ghost var c, s := Locate(Top, w, i);
    PlugLinked(c, s);
    if node.left != null {
      Descend(c, s);
      previous := node.left;
      c, s := LeftOf(c, s), s.l;
      while previous.right != null
        invariant previous != null && s.Tree? && previous == s.node && Plug(c, s) == w
        invariant Separate(c, s) && Linked(s, Up(c)) && LinkedContext(c, previous)
        invariant |NodesBefore(c)| + |NodeOrder(s)| == i
        decreases s
      {
        Descend(c, s);
        previous := previous.right;
        c, s := RightOf(c, s), s.r;
      }
      PlugNodeOrder(c, s);
    } else {
      var n := node;
      previous := n.parent;
      while previous != null && previous.left == n
        invariant s.Tree? && n == s.node && previous == n.parent && Plug(c, s) == w
        invariant Separate(c, s) && Linked(s, Up(c)) && LinkedContext(c, n)
        invariant |NodesBefore(c)| == i
        decreases c
      {
        GoOutward(c, s);
        s, c := Outward(c, s), c.up;
        n := previous;
        previous := n.parent;
      }
      PlugNodeOrder(c, s);
    }
  }

  method OverwriteNode<V(!new)>(n: Node<V>, value: V, ghost s: Shape<V>, ghost c: Context<V>)
    returns (ghost w: Shape<V>)
    requires s.Tree? && s.node == n && Balanced(s) && BalancedContext(c, H(s))
    requires Separate(c, s) && Linked(s, Up(c)) && LinkedContext(c, n)
    modifies n`value
    ensures Linked(w, null) && Distinct(w) && Balanced(w)
    ensures Ptr(w) == Ptr(Plug(c, s)) && Nodes(w) == Nodes(Plug(c, s))
    ensures InOrder(w) == (ValuesBefore(c) + InOrder(s.l)) + [value] + (InOrder(s.r) + ValuesAfter(c))
  {
    ghost var t := s.(val := value);
    assert Nodes(t) == Nodes(s) && InOrder(t) == InOrder(s.l) + [value] + InOrder(s.r);
    assert Balanced(t) == Balanced(s);
    hide Linked, LinkedContext, Balanced, BalancedContext, Distinct, DistinctContext, InOrder, Nodes, Plug;
    SetValue(n, value, s, c);
    PlugLinked(c, t);
    PlugBalanced(c, t);
    PlugValues(c, t);
    Revalued(c, s, t);
    Around(ValuesBefore(c), InOrder(s.l), [value], InOrder(s.r), ValuesAfter(c));
    w := Plug(c, t);
  }

  /** The elements handed out by `GetElements`, ended by a null entry. */
  datatype Entry<V> = Null | Value(value: V)

  class AvlTree<K(!new), V(!new)> {
    const order: Order<K, V>
    var root: Node?<V>
    var nElements: nat
    ghost var shape: Shape<V>

    /** The nodes form a balanced tree whose links, heights and count are right. */
    ghost predicate Shaped()
      reads this, Nodes(shape)
    {
      && root == Ptr(shape) && Distinct(shape) && Linked(shape, null)
      && Balanced(shape)
      && nElements == |Nodes(shape)|
    }

    ghost predicate Valid()
      reads this, Nodes(shape)
    {
      Shaped() && Lawful(order) && Sorted(order, InOrder(shape))
    }

    /** The elements in key order. */
    ghost function Contents(): seq<V>
      reads this
    {
      InOrder(shape)
    }

    ghost function Repr(): set<object>
      reads this
    {
      {this} + Nodes(shape)
    }

    constructor (order: Order<K, V>)
      requires Lawful(order)
      ensures Valid() && fresh(Repr()) && this.order == order && Contents() == []
    {
      this.order := order;
      root, nElements, shape := null, 0, Leaf;
    }

    lemma ElementCount()
      requires Shaped()
      ensures nElements == |Contents()|
    {
      OrderLengths(shape);
    }

    /** A path no longer than the height is logarithmic in the number of elements. */
    lemma PathBound(steps: nat)
      requires Shaped() && steps <= H(shape)
      ensures Fib(steps + 2) <= nElements + 1 && steps <= 2 * Log2(nElements + 1) + 1
    {
      OrderLengths(shape);
      HeightIsLogarithmic(shape);
      FibMonotone(steps + 2, H(shape) + 2);
      FibLogarithm(steps, nElements + 1);
    }

    method Insert(key: K, value: V) returns (status: Status)
      requires Valid() && key == order.keyOf(value)
      modifies Repr()
      ensures Valid() && fresh(Repr() - old(Repr()))
      ensures status == if Has(order, old(Contents()), key) then KeyExists else Done
      ensures Contents() == if status.Done? then Ordered.Insert(order, old(Contents()), value) else old(Contents())
      ensures nElements == if status.Done? then old(nElements) + 1 else old(nElements)
      ensures status.KeyExists? ==> shape == old(shape)
    {
      hide Found, Grown, InOrder, Balanced, Sorted, Lawful, Has;
      FoundIsHas(order, shape, key);
      ghost var leaf, slot;
      var top;
      assert allocated(Nodes(shape));
      status, top, leaf, slot := InsertSubtree(order, root, key, value, shape, Top);
      if status.Done? {
        GrownInserts(order, shape, leaf, value);
        GrownNodes(order, shape, key, leaf, value);
        InsertSorted(order, InOrder(shape), value);
        SetRoot(top, nElements + 1, Grown(order, shape, key, leaf, value));
      }
    }

    /** Follows the comparisons down from the root; the path taken is no longer than the height (see
        `PathBound`). */
    method FindNode(key: K) returns (n: Node?<V>, ghost c: Context<V>, ghost s: Shape<V>, ghost steps: nat)
      requires Valid()
      ensures Plug(c, s) == shape && n == Ptr(s)
      ensures n != null <==> Has(order, Contents(), key)
      ensures n != null ==> order.compare(key, s.val) == 0 && n.value == s.val && n.value in Contents()
      ensures steps <= H(shape)
    {
      n := root;
      c, s, steps := Top, shape, 0;
      FoundIsHas(order, shape, key);
      while n != null
        invariant Plug(c, s) == shape && n == Ptr(s)
        invariant Separate(c, s) && Linked(s, Up(c)) && LinkedContext(c, n)
        invariant Balanced(s) && steps + H(s) <= H(shape)
        invariant Found(order, shape, key) <==> Found(order, s, key)
        decreases s
      {
        var r := order.compare(key, n.value);
        if r == 0 {
          break;
        }
        Descend(c, s);
        steps := steps + 1;
        if r < 0 {
          n := n.left;
          c, s := LeftOf(c, s), s.l;
        } else {
          n := n.right;
          c, s := RightOf(c, s), s.r;
        }
      }
      PlugValues(c, s);
    }

    /** Stores another value under a key that is present; no node moves. */
    method Replace(value: V)
      requires Valid() && Has(order, Contents(), order.keyOf(value))
      modifies Repr()
      ensures Valid() && Repr() == old(Repr())
      ensures Has(order, old(Contents()), order.keyOf(value))
      ensures Contents() == Ordered.Replace(order, old(Contents()), value)
    {
      ghost var c, s, steps;
      var n;
      assert allocated(Nodes(shape));
      n, c, s, steps := FindNode(order.keyOf(value));
      PlugValues(c, s);
      Around(ValuesBefore(c), InOrder(s.l), [s.val], InOrder(s.r), ValuesAfter(c));
      ReplaceSorted(order, ValuesBefore(c) + InOrder(s.l), s.val, InOrder(s.r) + ValuesAfter(c), value);
      Overwrite(n, value, c, s);
    }

    method Overwrite(n: Node<V>, value: V, ghost c: Context<V>, ghost s: Shape<V>)
      requires Shaped() && Plug(c, s) == shape && s.Tree? && s.node == n
      modifies Repr()
      ensures Shaped() && Repr() == old(Repr())
      ensures Contents() == (ValuesBefore(c) + InOrder(s.l)) + [value] + (InOrder(s.r) + ValuesAfter(c))
    {
      hide InOrder, Balanced, BalancedContext, Linked, LinkedContext, Distinct, Separate, Plug;
      PlugLinked(c, s);
      PlugBalanced(c, s);
      PlugNodes(c, s);
      ghost var w := OverwriteNode(n, value, s, c);
      SetRoot(root, nElements, w);
    }

    method Find(key: K) returns (e: Entry<V>)
      requires Valid()
      ensures e.Value? <==> Has(order, Contents(), key)
      ensures e.Value? ==> e.value in Contents() && order.keyOf(e.value) == key
    {
      ghost var c, s, steps;
      var n;
      n, c, s, steps := FindNode(key);
      e := if n == null then Null else Value(n.value);
    }

    method First() returns (n: Node?<V>)
      requires Shaped()
      ensures Shaped() && n == if NodeOrder(shape) == [] then null else NodeOrder(shape)[0]
    {
      assert allocated(Nodes(shape));
      n := root;
      if n == null {
        return;
      }
      ghost var c, s := Top, shape;
      while n.left != null
        invariant n != null && s.Tree? && n == s.node && Plug(c, s) == shape
        invariant Separate(c, s) && Linked(s, Up(c)) && LinkedContext(c, n)
        invariant NodesBefore(c) == []
        decreases s
      {
        Descend(c, s);
        n := n.left;
        c, s := LeftOf(c, s), s.l;
      }
      PlugNodeOrder(c, s);
    }

    method Last() returns (n: Node?<V>)
      requires Shaped()
      ensures n == if NodeOrder(shape) == [] then null else NodeOrder(shape)[|NodeOrder(shape)| - 1]
    {
      n := root;
      if n == null {
        return;
      }
      ghost var c, s := Top, shape;
      while n.right != null
        invariant n != null && s.Tree? && n == s.node && Plug(c, s) == shape
        invariant Separate(c, s) && Linked(s, Up(c)) && LinkedContext(c, n)
        invariant NodesAfter(c) == []
        decreases s
      {
        Descend(c, s);
        n := n.right;
        c, s := RightOf(c, s), s.r;
      }
      PlugNodeOrder(c, s);
    }

    /** The element of the `i`-th node, and the node to go on with. */
    method Visit(node: Node<V>, ghost i: nat) returns (value: V, next: Node?<V>)
      requires Shaped() && i < |NodeOrder(shape)| && NodeOrder(shape)[i] == node
      ensures Shaped() && i < |Contents()| && value == Contents()[i]
      ensures next == if i + 1 < |NodeOrder(shape)| then NodeOrder(shape)[i+1] else null
    {
      assert allocated(Nodes(shape));
      NodeHolds(shape, null, i);
      value := node.value;
      next := NodeNext(node, shape, i);
    }

    /** Copies the elements in order; exactly `nElements` entries and the final null are filled. */
    method GetElements() returns (elements: seq<Entry<V>>)
      requires Shaped()
      ensures |elements| == nElements + 1 && nElements == |Contents()|
      ensures elements[nElements] == Null
      ensures forall j :: 0 <= j < nElements ==> elements[j] == Value(Contents()[j])
    {
      OrderLengths(shape);
      elements := seq(nElements + 1, _ => Null);
      var node := First();
      var i := 0;
      while node != null
        invariant Shaped() && i <= nElements == |Contents()| == |NodeOrder(shape)|
        invariant node == if i < nElements then NodeOrder(shape)[i] else null
        invariant |elements| == nElements + 1
        invariant forall j :: 0 <= j < i ==> elements[j] == Value(Contents()[j])
        decreases nElements - i
      {
        var value;
        value, node := Visit(node, i);
        elements := elements[i := Value(value)];
        i := i + 1;
      }
      elements := elements[nElements := Null];
    }

    method Remove(key: K) returns (status: Status)
      requires Valid()
      modifies Repr()
      ensures Valid() && Repr() <= old(Repr())
      ensures status == if Has(order, old(Contents()), key) then Done else UnknownKey
      ensures Contents() == Ordered.Remove(order, old(Contents()), key)
      ensures nElements == if status.Done? then old(nElements) - 1 else old(nElements)
      ensures status.UnknownKey? ==> shape == old(shape)
    {
      ghost var c, s, steps;
      var n;
      assert allocated(Nodes(shape));
      n, c, s, steps := FindNode(key);
      if n == null {
        return UnknownKey;
      }
      RemoveSorted(order, Contents(), key);
      RemoveFound(order, c, s, key);
      Detach(n, c, s);
      status := Done;
    }

    /** Takes out the value of the node `n` found at `s` in the context `c`, and repairs the tree. */
    method Detach(n: Node<V>, ghost c: Context<V>, ghost s: Shape<V>)
      requires Shaped() && Plug(c, s) == shape && s.Tree? && s.node == n
      modifies Repr()
      ensures Shaped() && Repr() <= old(Repr()) && nElements == old(nElements) - 1
      ensures Contents() == ValuesBefore(c) + InOrder(s.l) + InOrder(s.r) + ValuesAfter(c)
    {
      PlugLinked(c, s);
      PlugBalanced(c, s);
      PlugNodes(c, s);
      var top;
      ghost var w, freed;
      top, w, freed := RemoveNode(n, s, c);
      SetRoot(top, nElements - 1, w);
    }

    /** Makes `top` the root of a tree that holds `count` elements. */
    method SetRoot(top: Node?<V>, count: nat, ghost w: Shape<V>)
      requires top == Ptr(w) && Distinct(w) && Linked(w, null) && Balanced(w) && count == |Nodes(w)|
      modifies this
      ensures Shaped() && shape == w && nElements == count
    {
      root, shape, nElements := top, w, count;
    }
  }
}
