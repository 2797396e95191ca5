/** The nodes of the balanced tree (lib/avltree.c) and the ghost shape that describes how they are linked. */
module AvlShape {
  import opened Ordered

  class Node<V(!new)> {
    var value: V
    var parent: Node?<V>
    var left: Node?<V>
    var right: Node?<V>
    var height: nat

    constructor (value: V)
      ensures this.value == value && height == 1
      ensures parent == null && left == null && right == null
    {
      this.value, height := value, 1;
      parent, left, right := null, null, null;
    }
  }

  /** A subtree: its nodes together with the value and the height each of them stores. */
  datatype Shape<V(!new)> =
    | Leaf
    | Tree(node: Node<V>, val: V, h: nat, l: Shape<V>, r: Shape<V>)

  /** What surrounds a subtree: the path up to the root with the subtrees hanging off it. */
  datatype Context<V(!new)> =
    | Top
    | InLeft(up: Context<V>, node: Node<V>, val: V, h: nat, r: Shape<V>)
    | InRight(up: Context<V>, node: Node<V>, val: V, h: nat, l: Shape<V>)

  ghost function Ptr<V(!new)>(s: Shape<V>): Node?<V> {
    if s.Leaf? then null else s.node
  }

  ghost function Up<V(!new)>(c: Context<V>): Node?<V> {
    if c.Top? then null else c.node
  }

  ghost function Nodes<V(!new)>(s: Shape<V>): set<Node<V>> {
    match s
    case Leaf => {}
    case Tree(n, _, _, l, r) => {n} + Nodes(l) + Nodes(r)
  }

  ghost function ContextNodes<V(!new)>(c: Context<V>): set<Node<V>> {
    match c
    case Top => {}
    case InLeft(up, n, _, _, r) => {n} + Nodes(r) + ContextNodes(up)
    case InRight(up, n, _, _, l) => {n} + Nodes(l) + ContextNodes(up)
  }

  /** No node occurs twice. */
  ghost predicate Distinct<V(!new)>(s: Shape<V>) {
    match s
    case Leaf => true
    case Tree(n, _, _, l, r) =>
      n !in Nodes(l) && n !in Nodes(r) && Nodes(l) !! Nodes(r) && Distinct(l) && Distinct(r)
  }

  ghost predicate DistinctContext<V(!new)>(c: Context<V>) {
    match c
    case Top => true
    case InLeft(up, n, _, _, s) =>
      n !in Nodes(s) && n !in ContextNodes(up) && Nodes(s) !! ContextNodes(up) && Distinct(s) && DistinctContext(up)
    case InRight(up, n, _, _, s) =>
      n !in Nodes(s) && n !in ContextNodes(up) && Nodes(s) !! ContextNodes(up) && Distinct(s) && DistinctContext(up)
  }

  ghost predicate Separate<V(!new)>(c: Context<V>, s: Shape<V>) {
    Distinct(s) && DistinctContext(c) && Nodes(s) !! ContextNodes(c)
  }

  /** The nodes in memory are linked as `s` says, below the parent `p`; child and parent links agree. */
  ghost predicate Linked<V(!new)>(s: Shape<V>, p: Node?<V>)
    reads Nodes(s)
  {
    match s
    case Leaf => true
    case Tree(n, v, h, l, r) =>
      && n.value == v && n.height == h && n.parent == p
      && n.left == Ptr(l) && n.right == Ptr(r)
      && Linked(l, n) && Linked(r, n)
  }

  /** The nodes of the context are linked as `c` says, with `hole` in the place of the missing subtree. */
  ghost predicate LinkedContext<V(!new)>(c: Context<V>, hole: Node?<V>)
    reads ContextNodes(c)
  {
    match c
    case Top => true
    case InLeft(up, n, v, h, r) =>
      && n.value == v && n.height == h && n.parent == Up(up)
      && n.left == hole && n.right == Ptr(r)
      && Linked(r, n) && LinkedContext(up, n)
    case InRight(up, n, v, h, l) =>
      && n.value == v && n.height == h && n.parent == Up(up)
      && n.left == Ptr(l) && n.right == hole
      && Linked(l, n) && LinkedContext(up, n)
  }

  ghost function Plug<V(!new)>(c: Context<V>, s: Shape<V>): Shape<V>
    decreases c
  {
    match c
    case Top => s
    case InLeft(up, n, v, h, r) => Plug(up, Tree(n, v, h, s, r))
    case InRight(up, n, v, h, l) => Plug(up, Tree(n, v, h, l, s))
  }

  ghost function InOrder<V(!new)>(s: Shape<V>): seq<V> {
    match s
    case Leaf => []
    case Tree(_, v, _, l, r) => InOrder(l) + [v] + InOrder(r)
  }

  /** The nodes in the order of their values. */
  ghost function NodeOrder<V(!new)>(s: Shape<V>): seq<Node<V>> {
    match s
    case Leaf => []
    case Tree(n, _, _, l, r) => NodeOrder(l) + [n] + NodeOrder(r)
  }

  ghost function ValuesBefore<V(!new)>(c: Context<V>): seq<V> {
    match c
    case Top => []
    case InLeft(up, _, _, _, _) => ValuesBefore(up)
    case InRight(up, _, v, _, l) => ValuesBefore(up) + InOrder(l) + [v]
  }

  ghost function ValuesAfter<V(!new)>(c: Context<V>): seq<V> {
    match c
    case Top => []
    case InLeft(up, _, v, _, r) => [v] + InOrder(r) + ValuesAfter(up)
    case InRight(up, _, _, _, _) => ValuesAfter(up)
  }

  ghost function NodesBefore<V(!new)>(c: Context<V>): seq<Node<V>> {
    match c
    case Top => []
    case InLeft(up, _, _, _, _) => NodesBefore(up)
    case InRight(up, n, _, _, l) => NodesBefore(up) + NodeOrder(l) + [n]
  }

  ghost function NodesAfter<V(!new)>(c: Context<V>): seq<Node<V>> {
    match c
    case Top => []
    case InLeft(up, n, _, _, r) => [n] + NodeOrder(r) + NodesAfter(up)
    case InRight(up, _, _, _, _) => NodesAfter(up)
  }

  lemma {:induction false} PlugValues<V(!new)>(c: Context<V>, s: Shape<V>)
    ensures InOrder(Plug(c, s)) == ValuesBefore(c) + InOrder(s) + ValuesAfter(c)
    decreases c
  {
    match c
    case Top =>
    case InLeft(up, n, v, h, r) =>
      PlugValues(up, Tree(n, v, h, s, r));
      Regroup(ValuesBefore(up), InOrder(s), [v], InOrder(r), ValuesAfter(up));
    case InRight(up, n, v, h, l) =>
      PlugValues(up, Tree(n, v, h, l, s));
      Regroup(ValuesBefore(up), InOrder(l), [v], InOrder(s), ValuesAfter(up));
  }

  lemma {:induction false} PlugNodeOrder<V(!new)>(c: Context<V>, s: Shape<V>)
    ensures NodeOrder(Plug(c, s)) == NodesBefore(c) + NodeOrder(s) + NodesAfter(c)
    decreases c
  {
    match c
    case Top =>
    case InLeft(up, n, v, h, r) =>
      PlugNodeOrder(up, Tree(n, v, h, s, r));
      Regroup(NodesBefore(up), NodeOrder(s), [n], NodeOrder(r), NodesAfter(up));
    case InRight(up, n, v, h, l) =>
      PlugNodeOrder(up, Tree(n, v, h, l, s));
      Regroup(NodesBefore(up), NodeOrder(l), [n], NodeOrder(s), NodesAfter(up));
  }

  lemma Regroup<T>(a: seq<T>, b: seq<T>, c: seq<T>, d: seq<T>, e: seq<T>)
    ensures a + (b + c + d) + e == a + b + (c + d + e)
    ensures a + (b + c + d) + e == (a + b + c) + d + e
  {
  }

  lemma {:induction false} PlugNodes<V(!new)>(c: Context<V>, s: Shape<V>)
    ensures Nodes(Plug(c, s)) == ContextNodes(c) + Nodes(s)
    decreases c
  {
    match c
    case Top =>
    case InLeft(up, n, v, h, r) =>
      PlugNodes(up, Tree(n, v, h, s, r));
    case InRight(up, n, v, h, l) =>
      PlugNodes(up, Tree(n, v, h, l, s));
  }

  /** The whole tree is well linked exactly when the subtree and its context are. */
  lemma {:induction false} PlugLinked<V(!new)>(c: Context<V>, s: Shape<V>)
    ensures Distinct(Plug(c, s)) <==> Separate(c, s)
    ensures Linked(Plug(c, s), null) <==> Linked(s, Up(c)) && LinkedContext(c, Ptr(s))
    decreases c
  {
    match c
    case Top =>
    case InLeft(up, n, v, h, r) =>
      PlugLinked(up, Tree(n, v, h, s, r));
    case InRight(up, n, v, h, l) =>
      PlugLinked(up, Tree(n, v, h, l, s));
  }

  ghost function LeftOf<V(!new)>(c: Context<V>, s: Shape<V>): Context<V>
    requires s.Tree?
  {
    InLeft(c, s.node, s.val, s.h, s.r)
  }

  ghost function RightOf<V(!new)>(c: Context<V>, s: Shape<V>): Context<V>
    requires s.Tree?
  {
    InRight(c, s.node, s.val, s.h, s.l)
  }

  /** A step down into one side moves the node into the context. */
  lemma Descend<V(!new)>(c: Context<V>, s: Shape<V>)
    requires s.Tree? && Separate(c, s) && Linked(s, Up(c)) && LinkedContext(c, s.node)
    ensures Separate(LeftOf(c, s), s.l) && Linked(s.l, s.node) && LinkedContext(LeftOf(c, s), Ptr(s.l))
    ensures Separate(RightOf(c, s), s.r) && Linked(s.r, s.node) && LinkedContext(RightOf(c, s), Ptr(s.r))
  {
  }

  /** The context that results from putting `d` inside `outer`. */
  ghost function Compose<V(!new)>(d: Context<V>, outer: Context<V>): Context<V> {
    match d
    case Top => outer
    case InLeft(up, n, v, h, r) => InLeft(Compose(up, outer), n, v, h, r)
    case InRight(up, n, v, h, l) => InRight(Compose(up, outer), n, v, h, l)
  }

  lemma {:induction false} PlugCompose<V(!new)>(d: Context<V>, outer: Context<V>, s: Shape<V>)
    ensures Plug(Compose(d, outer), s) == Plug(outer, Plug(d, s))
    ensures ValuesBefore(Compose(d, outer)) == ValuesBefore(outer) + ValuesBefore(d)
    ensures ValuesAfter(Compose(d, outer)) == ValuesAfter(d) + ValuesAfter(outer)
    decreases d
  {
    match d
    case Top =>
    case InLeft(up, n, v, h, r) => PlugCompose(up, outer, Tree(n, v, h, s, r));
    case InRight(up, n, v, h, l) => PlugCompose(up, outer, Tree(n, v, h, l, s));
  }

  /** The position of a node in the order determines the path to it. */
  lemma {:induction false} Locate<V(!new)>(c0: Context<V>, s0: Shape<V>, i: nat) returns (c: Context<V>, s: Shape<V>)
    requires |NodesBefore(c0)| <= i < |NodesBefore(c0)| + |NodeOrder(s0)|
    ensures Plug(c, s) == Plug(c0, s0) && s.Tree?
    ensures |NodesBefore(c)| + |NodeOrder(s.l)| == i < |NodeOrder(Plug(c0, s0))|
    ensures s.node == NodeOrder(Plug(c0, s0))[i]
    decreases s0
  {
    var m := |NodesBefore(c0)| + |NodeOrder(s0.l)|;
    if i < m {
      c, s := Locate(LeftOf(c0, s0), s0.l, i);
    } else if i > m {
      c, s := Locate(RightOf(c0, s0), s0.r, i);
    } else {
      c, s := c0, s0;
      PlugNodeOrder(c, s);
    }
  }

  // ---------------------------------------------------------------- balance

  function Max(a: nat, b: nat): nat { if a > b then a else b }

  ghost function H<V(!new)>(s: Shape<V>): nat {
    if s.Leaf? then 0 else s.h
  }

  /** Stored heights are real heights and the two sides of every node differ by at most one. */
  ghost predicate Balanced<V(!new)>(s: Shape<V>) {
    match s
    case Leaf => true
    case Tree(_, _, h, l, r) =>
      h == 1 + Max(H(l), H(r)) && -1 <= H(r) - H(l) <= 1 && Balanced(l) && Balanced(r)
  }

  /** The context is balanced when a subtree of height `hole` is put in. */
  ghost predicate BalancedContext<V(!new)>(c: Context<V>, hole: nat) {
    match c
    case Top => true
    case InLeft(up, _, _, h, s) =>
      h == 1 + Max(hole, H(s)) && -1 <= H(s) - hole <= 1 && Balanced(s) && BalancedContext(up, h)
    case InRight(up, _, _, h, s) =>
      h == 1 + Max(hole, H(s)) && -1 <= H(s) - hole <= 1 && Balanced(s) && BalancedContext(up, h)
  }

  lemma {:induction false} PlugBalanced<V(!new)>(c: Context<V>, s: Shape<V>)
    ensures Balanced(Plug(c, s)) <==> Balanced(s) && BalancedContext(c, H(s))
    decreases c
  {
    match c
    case Top =>
    case InLeft(up, n, v, h, r) =>
      PlugBalanced(up, Tree(n, v, h, s, r));
    case InRight(up, n, v, h, l) =>
      PlugBalanced(up, Tree(n, v, h, l, s));
  }

  ghost function Join<V(!new)>(n: Node<V>, v: V, l: Shape<V>, r: Shape<V>): Shape<V> {
    Tree(n, v, 1 + Max(H(l), H(r)), l, r)
  }

  ghost function RotatedLeft<V(!new)>(s: Shape<V>): Shape<V>
    requires s.Tree? && s.r.Tree?
  {
    Join(s.r.node, s.r.val, Join(s.node, s.val, s.l, s.r.l), s.r.r)
  }

  ghost function RotatedRight<V(!new)>(s: Shape<V>): Shape<V>
    requires s.Tree? && s.l.Tree?
  {
    Join(s.l.node, s.l.val, s.l.l, Join(s.node, s.val, s.l.r, s.r))
  }

  ghost function BalanceOf<V(!new)>(s: Shape<V>): int
    requires s.Tree?
  {
    H(s.r) - H(s.l)
  }

  /** A node whose sides are balanced and differ by at most two, its height up to date. */
  ghost predicate NearlyBalanced<V(!new)>(s: Shape<V>) {
    && s.Tree? && s.h == 1 + Max(H(s.l), H(s.r))
    && -2 <= BalanceOf(s) <= 2
    && Balanced(s.l) && Balanced(s.r)
  }

  ghost function Rebalanced<V(!new)>(s: Shape<V>): Shape<V>
    requires NearlyBalanced(s)
  {
    if BalanceOf(s) < -1 then
      if BalanceOf(s.l) <= 0 then RotatedRight(s)
      else RotatedRight(s.(l := RotatedLeft(s.l)))
    else if BalanceOf(s) > 1 then
      if BalanceOf(s.r) >= 0 then RotatedLeft(s)
      else RotatedLeft(s.(r := RotatedRight(s.r)))
    else s
  }

  lemma JoinBalanced<V(!new)>(n: Node<V>, v: V, l: Shape<V>, r: Shape<V>)
    ensures Balanced(l) && Balanced(r) && -1 <= H(r) - H(l) <= 1 ==> Balanced(Join(n, v, l, r))
  {
  }

  lemma LeftHeavyHeight<V(!new)>(s: Shape<V>)
    requires NearlyBalanced(s) && BalanceOf(s) < -1
    ensures var t := Rebalanced(s); Balanced(t) && t.Tree? && s.h - 1 <= t.h <= s.h
  {
    var l := s.l;
    assert Balanced(l.l) && Balanced(l.r);
    if BalanceOf(l) <= 0 {
      JoinBalanced(s.node, s.val, l.r, s.r);
      JoinBalanced(l.node, l.val, l.l, Join(s.node, s.val, l.r, s.r));
    } else {
      var m := l.r;
      var t := RotatedRight(s.(l := RotatedLeft(l)));
      var a, b := Join(l.node, l.val, l.l, m.l), Join(s.node, s.val, m.r, s.r);
      assert t == Join(m.node, m.val, a, b);
      JoinBalanced(l.node, l.val, l.l, m.l);
      JoinBalanced(s.node, s.val, m.r, s.r);
      JoinBalanced(m.node, m.val, a, b);
    }
  }

  lemma RightHeavyHeight<V(!new)>(s: Shape<V>)
    requires NearlyBalanced(s) && BalanceOf(s) > 1
    ensures var t := Rebalanced(s); Balanced(t) && t.Tree? && s.h - 1 <= t.h <= s.h
  {
    var r := s.r;
    assert Balanced(r.l) && Balanced(r.r);
    if BalanceOf(r) >= 0 {
      JoinBalanced(s.node, s.val, s.l, r.l);
      JoinBalanced(r.node, r.val, Join(s.node, s.val, s.l, r.l), r.r);
    } else {
      var m := r.l;
      var t := RotatedLeft(s.(r := RotatedRight(r)));
      var a, b := Join(s.node, s.val, s.l, m.l), Join(r.node, r.val, m.r, r.r);
      assert t == Join(m.node, m.val, a, b);
      JoinBalanced(s.node, s.val, s.l, m.l);
      JoinBalanced(r.node, r.val, m.r, r.r);
      JoinBalanced(m.node, m.val, a, b);
    }
  }

  /** Rebalancing repairs one node and costs at most one level. */
  lemma RebalancedHeight<V(!new)>(s: Shape<V>)
    requires NearlyBalanced(s)
    ensures var t := Rebalanced(s);
      && Balanced(t) && t.Tree?
      && s.h - 1 <= t.h <= s.h
      && (-1 <= BalanceOf(s) <= 1 ==> t == s)
  {
    if BalanceOf(s) < -1 {
      LeftHeavyHeight(s);
    } else if BalanceOf(s) > 1 {
      RightHeavyHeight(s);
    }
  }

  /** Two shapes with the same nodes and elements in the same order. */
  ghost predicate SameContents<V(!new)>(s: Shape<V>, t: Shape<V>) {
    InOrder(t) == InOrder(s) && NodeOrder(t) == NodeOrder(s) && Nodes(t) == Nodes(s) && (Distinct(s) ==> Distinct(t))
  }

  lemma RotatedDistinct<V(!new)>(s: Shape<V>)
    requires s.Tree? && Distinct(s)
    ensures s.r.Tree? ==> Distinct(RotatedLeft(s))
    ensures s.l.Tree? ==> Distinct(RotatedRight(s))
  {
    if s.r.Tree? {
      assert Distinct(s.r);
      assert Distinct(Join(s.node, s.val, s.l, s.r.l));
    }
    if s.l.Tree? {
      assert Distinct(s.l);
      assert Distinct(Join(s.node, s.val, s.l.r, s.r));
    }
  }

  lemma RotatedLeftContents<V(!new)>(s: Shape<V>)
    requires s.Tree? && s.r.Tree?
    ensures SameContents(s, RotatedLeft(s))
  {
    if Distinct(s) { RotatedDistinct(s); }
    assert InOrder(RotatedLeft(s)) == InOrder(s) by {
      Regroup([], InOrder(s.l), [s.val], InOrder(s.r.l), [s.r.val] + InOrder(s.r.r));
    }
    assert NodeOrder(RotatedLeft(s)) == NodeOrder(s) by {
      Regroup([], NodeOrder(s.l), [s.node], NodeOrder(s.r.l), [s.r.node] + NodeOrder(s.r.r));
    }
  }

  lemma RotatedRightContents<V(!new)>(s: Shape<V>)
    requires s.Tree? && s.l.Tree?
    ensures SameContents(s, RotatedRight(s))
  {
    if Distinct(s) { RotatedDistinct(s); }
    assert InOrder(RotatedRight(s)) == InOrder(s);
    assert NodeOrder(RotatedRight(s)) == NodeOrder(s);
  }

  lemma RebalancedContents<V(!new)>(s: Shape<V>)
    requires NearlyBalanced(s)
    ensures SameContents(s, Rebalanced(s))
  {
    if BalanceOf(s) < -1 {
      if BalanceOf(s.l) <= 0 {
        RotatedRightContents(s);
      } else {
        RotatedLeftContents(s.l);
        RotatedRightContents(s.(l := RotatedLeft(s.l)));
      }
    } else if BalanceOf(s) > 1 {
      if BalanceOf(s.r) >= 0 {
        RotatedLeftContents(s);
      } else {
        RotatedRightContents(s.r);
        RotatedLeftContents(s.(r := RotatedRight(s.r)));
      }
    }
  }

  // ---------------------------------------------------------------- insertion

  /** Whether the search for `k` meets an equal key. */
  ghost predicate Found<K, V(!new)>(o: Order<K, V>, s: Shape<V>, k: K) {
    match s
    case Leaf => false
    case Tree(_, v, _, l, r) =>
      o.compare(k, v) == 0 || (if o.compare(k, v) < 0 then Found(o, l, k) else Found(o, r, k))
  }

  /** The tree with `leaf` hung in at the end of the search for `k` and the path back rebalanced. */
  ghost function Grown<K, V(!new)>(o: Order<K, V>, s: Shape<V>, k: K, leaf: Node<V>, value: V): (t: Shape<V>)
    requires Balanced(s)
    ensures Balanced(t) && t.Tree? && H(s) <= H(t) <= H(s) + 1
  {
    match s
    case Leaf => Tree(leaf, value, 1, Leaf, Leaf)
    case Tree(n, v, _, l, r) =>
      var u := if o.compare(k, v) < 0 then Join(n, v, Grown(o, l, k, leaf, value), r)
               else Join(n, v, l, Grown(o, r, k, leaf, value));
      RebalancedHeight(u);
      Rebalanced(u)
  }

  lemma {:induction false} GrownNodes<K, V(!new)>(o: Order<K, V>, s: Shape<V>, k: K, leaf: Node<V>, value: V)
    requires Balanced(s) && Distinct(s) && leaf !in Nodes(s)
    ensures var t := Grown(o, s, k, leaf, value); Distinct(t) && Nodes(t) == Nodes(s) + {leaf}
  {
    if s.Tree? {
      var u;
      if o.compare(k, s.val) < 0 {
        GrownNodes(o, s.l, k, leaf, value);
        u := Join(s.node, s.val, Grown(o, s.l, k, leaf, value), s.r);
      } else {
        GrownNodes(o, s.r, k, leaf, value);
        u := Join(s.node, s.val, s.l, Grown(o, s.r, k, leaf, value));
      }
      RebalancedContents(u);
    }
  }

  lemma GrownBelow<K, V(!new)>(o: Order<K, V>, c: Context<V>, s: Shape<V>, k: K, leaf: Node<V>, value: V)
    requires s.Tree? && Balanced(s) && Separate(c, s) && leaf !in Nodes(s) + ContextNodes(c)
    ensures var t := s.(l := Grown(o, s.l, k, leaf, value)); Separate(c, t) && Nodes(t) == Nodes(s) + {leaf}
    ensures var t := s.(r := Grown(o, s.r, k, leaf, value)); Separate(c, t) && Nodes(t) == Nodes(s) + {leaf}
  {
    GrownNodes(o, s.l, k, leaf, value);
    GrownNodes(o, s.r, k, leaf, value);
  }

  lemma SubtreesSorted<K(!new), V(!new)>(o: Order<K, V>, s: Shape<V>)
    requires s.Tree? && Sorted(o, InOrder(s))
    ensures Sorted(o, InOrder(s.l)) && Sorted(o, InOrder(s.r))
  {
    SortedParts(o, InOrder(s.l) + [s.val], InOrder(s.r));
    SortedParts(o, InOrder(s.l), [s.val]);
  }

  /** Searching the tree is searching the sorted sequence of its elements. */
  lemma {:induction false} FoundIsHas<K(!new), V(!new)>(o: Order<K, V>, s: Shape<V>, k: K)
    requires Lawful(o) && Sorted(o, InOrder(s))
    ensures Found(o, s, k) <==> Has(o, InOrder(s), k)
  {
    if s.Tree? {
      SubtreesSorted(o, s);
      HasSplit(o, InOrder(s.l), s.val, InOrder(s.r), k);
      FoundIsHas(o, s.l, k);
      FoundIsHas(o, s.r, k);
    }
  }

  /** Hanging in a new leaf is insertion into the sorted sequence of elements. */
  lemma {:induction false} GrownInserts<K(!new), V(!new)>(o: Order<K, V>, s: Shape<V>, leaf: Node<V>, value: V)
    requires Lawful(o) && Sorted(o, InOrder(s)) && Balanced(s) && !Found(o, s, o.keyOf(value))
    ensures InOrder(Grown(o, s, o.keyOf(value), leaf, value)) == Insert(o, InOrder(s), value)
  {
    var k := o.keyOf(value);
    if s.Tree? {
      SubtreesSorted(o, s);
      if o.compare(k, s.val) < 0 {
        InsertLeft(o, InOrder(s.l), s.val, InOrder(s.r), value);
        GrownInserts(o, s.l, leaf, value);
        RebalancedContents(Join(s.node, s.val, Grown(o, s.l, k, leaf, value), s.r));
      } else {
        InsertRight(o, InOrder(s.l), s.val, InOrder(s.r), value);
        GrownInserts(o, s.r, leaf, value);
        RebalancedContents(Join(s.node, s.val, s.l, Grown(o, s.r, k, leaf, value)));
      }
    }
  }

  // ---------------------------------------------------------------- removal

  /** A tree whose root may store an outdated height. */
  ghost function Updated<V(!new)>(s: Shape<V>): Shape<V>
    requires s.Tree?
  {
    Join(s.node, s.val, s.l, s.r)
  }

  /** One side of `s` has lost at most one level since the height of `s` was `was`. */
  ghost predicate Shrunk<V(!new)>(s: Shape<V>, was: nat) {
    && s.Tree? && Balanced(s.l) && Balanced(s.r)
    && was - 1 <= 1 + Max(H(s.l), H(s.r)) <= was
    && -2 <= BalanceOf(s) <= 2
    && (BalanceOf(s) == 2 || BalanceOf(s) == -2 ==> 1 + Max(H(s.l), H(s.r)) == was)
  }

  /** The parent's tree once its missing subtree is put back. */
  ghost function Outward<V(!new)>(c: Context<V>, s: Shape<V>): Shape<V>
    requires !c.Top?
  {
    match c
    case InLeft(_, n, v, h, r) => Tree(n, v, h, s, r)
    case InRight(_, n, v, h, l) => Tree(n, v, h, l, s)
  }

  /** Losing a level below leaves the next node out with a side that has lost at most one level. */
  lemma ShrunkOutward<V(!new)>(c: Context<V>, s: Shape<V>, was: nat)
    requires !c.Top? && BalancedContext(c, was) && Balanced(s) && was - 1 <= H(s) <= was
    ensures Shrunk(Outward(c, s), c.h) && BalancedContext(c.up, c.h)
  {
  }

  /** Refreshing the node above a removal keeps elements and nodes, and hands on a tree that has
      lost at most one level to the next node out. */
  lemma RefreshedStep<V(!new)>(c: Context<V>, s: Shape<V>, was: nat)
    requires Shrunk(s, was) && BalancedContext(c, was) && Separate(c, s)
    ensures NearlyBalanced(Updated(s))
    ensures var t := Rebalanced(Updated(s));
      && t.Tree? && Balanced(t) && was - 1 <= H(t) <= was
      && Separate(c, t) && Nodes(t) == Nodes(s)
      && InOrder(Plug(c, t)) == InOrder(Plug(c, s))
      && (!c.Top? ==> Shrunk(Outward(c, t), c.h) && BalancedContext(c.up, c.h))
  {
    var t := Rebalanced(Updated(s));
    RebalancedHeight(Updated(s));
    RebalancedContents(Updated(s));
    assert InOrder(t) == InOrder(s);
    PlugValues(c, s);
    PlugValues(c, t);
    if !c.Top? { ShrunkOutward(c, t, was); }
  }

  /** Going one node out moves it from the context into the tree. */
  lemma GoOutward<V(!new)>(c: Context<V>, s: Shape<V>)
    requires !c.Top? && Separate(c, s) && Linked(s, Up(c)) && LinkedContext(c, Ptr(s))
    ensures Separate(c.up, Outward(c, s))
    ensures Linked(Outward(c, s), Up(c.up)) && LinkedContext(c.up, c.node)
    ensures Plug(c.up, Outward(c, s)) == Plug(c, s)
    ensures Nodes(Outward(c, s)) + ContextNodes(c.up) == Nodes(s) + ContextNodes(c)
  {
  }

  lemma BalancedTreeHeight<V(!new)>(s: Shape<V>)
    requires Balanced(s)
    ensures H(s) == 0 <==> s.Leaf?
    ensures H(s) == 1 ==> s.l.Leaf? && s.r.Leaf?
  {
    if s.Tree? {
      assert Balanced(s.l) && Balanced(s.r);
    }
  }

  /** A non-empty subtree beside an empty one is a single node. */
  lemma LoneSide<V(!new)>(s: Shape<V>)
    requires s.Tree? && Balanced(s)
    ensures s.r.Leaf? && s.l.Tree? ==> s.l.l.Leaf? && s.l.r.Leaf? && InOrder(s.l) == [s.l.val]
    ensures s.l.Leaf? && s.r.Tree? ==> s.r.l.Leaf? && s.r.r.Leaf? && InOrder(s.r) == [s.r.val]
  {
    BalancedTreeHeight(s.l);
    BalancedTreeHeight(s.r);
  }

  /** Splits the tree at a node on the left of `s` instead of at `s`. */
  lemma Rezip<V(!new)>(c: Context<V>, s: Shape<V>, d: Context<V>, u: Shape<V>)
    requires s.Tree? && s.l == Plug(d, u)
    requires Separate(c, s) && Linked(s, Up(c)) && LinkedContext(c, s.node)
    requires Balanced(s) && BalancedContext(c, H(s))
    ensures var k := Compose(d, LeftOf(c, s));
      && Separate(k, u) && Linked(u, Up(k)) && LinkedContext(k, Ptr(u))
      && Balanced(u) && BalancedContext(k, H(u))
      && !k.Top? && Nodes(u) + ContextNodes(k) == Nodes(s) + ContextNodes(c)
      && Plug(k, u) == Plug(c, s)
  {
    var k := Compose(d, LeftOf(c, s));
    PlugCompose(d, LeftOf(c, s), u);
    assert Plug(k, u) == Plug(c, s);
    PlugLinked(c, s);
    PlugLinked(k, u);
    PlugBalanced(c, s);
    PlugBalanced(k, u);
    PlugNodes(c, s);
    PlugNodes(k, u);
  }

  /** Replacing a node with one child by that child keeps the other elements. */
  lemma PulledUpLeft<V(!new)>(c: Context<V>, s: Shape<V>)
    requires s.Tree? && s.r.Leaf? && s.l.Tree? && Balanced(s) && Separate(c, s)
    ensures var t := Tree(s.node, s.l.val, s.h, Leaf, Leaf);
      && Shrunk(t, s.h) && Separate(c, t) && Nodes(s) == {s.node, s.l.node} && s.node != s.l.node
      && InOrder(Plug(c, t)) == ValuesBefore(c) + InOrder(s.l) + InOrder(s.r) + ValuesAfter(c)
  {
    LoneSide(s);
    assert s.l == Tree(s.l.node, s.l.val, s.l.h, Leaf, Leaf);
    assert Nodes(s.l) == {s.l.node};
    PlugValues(c, Tree(s.node, s.l.val, s.h, Leaf, Leaf));
  }

  lemma PulledUpRight<V(!new)>(c: Context<V>, s: Shape<V>)
    requires s.Tree? && s.l.Leaf? && s.r.Tree? && Balanced(s) && Separate(c, s)
    ensures var t := Tree(s.node, s.r.val, s.h, Leaf, Leaf);
      && Shrunk(t, s.h) && Separate(c, t) && Nodes(s) == {s.node, s.r.node} && s.node != s.r.node
      && InOrder(Plug(c, t)) == ValuesBefore(c) + InOrder(s.l) + InOrder(s.r) + ValuesAfter(c)
  {
    LoneSide(s);
    assert s.r == Tree(s.r.node, s.r.val, s.r.h, Leaf, Leaf);
    assert Nodes(s.r) == {s.r.node};
    PlugValues(c, Tree(s.node, s.r.val, s.h, Leaf, Leaf));
  }

  lemma Around<T>(a: seq<T>, b: seq<T>, v: seq<T>, d: seq<T>, e: seq<T>)
    ensures a + (b + v + d) + e == (a + b) + v + (d + e)
    ensures (a + b) + (d + e) == a + b + d + e
  {
  }

  /** Another value in one node changes neither nodes nor balance. */
  lemma {:induction false} Revalued<V(!new)>(c: Context<V>, s: Shape<V>, t: Shape<V>)
    requires s.Tree? && t.Tree? && Ptr(s) == Ptr(t) && Nodes(s) == Nodes(t)
    ensures Ptr(Plug(c, s)) == Ptr(Plug(c, t)) && Nodes(Plug(c, s)) == Nodes(Plug(c, t))
    decreases c
  {
    match c
    case Top =>
    case InLeft(up, n, v, h, r) => Revalued(up, Tree(n, v, h, s, r), Tree(n, v, h, t, r));
    case InRight(up, n, v, h, l) => Revalued(up, Tree(n, v, h, l, s), Tree(n, v, h, l, t));
  }

  /** Removing a key whose node has been found takes exactly the value of that node out of the elements. */
  lemma RemoveFound<K(!new), V(!new)>(o: Order<K, V>, c: Context<V>, s: Shape<V>, k: K)
    requires s.Tree? && Lawful(o) && Sorted(o, InOrder(Plug(c, s))) && o.compare(k, s.val) == 0
    ensures Remove(o, InOrder(Plug(c, s)), k) == ValuesBefore(c) + InOrder(s.l) + InOrder(s.r) + ValuesAfter(c)
  {
    PlugValues(c, s);
    Around(ValuesBefore(c), InOrder(s.l), [s.val], InOrder(s.r), ValuesAfter(c));
    RemoveAt(o, ValuesBefore(c) + InOrder(s.l), s.val, InOrder(s.r) + ValuesAfter(c), k);
  }

  lemma PlugUp<V(!new)>(d: Context<V>, u: Shape<V>)
    ensures !d.Top? ==> d.node in Nodes(Plug(d, u))
  {
    if !d.Top? {
      PlugNodes(d, u);
    }
  }

  lemma ComposeNodes<V(!new)>(c: Context<V>, s: Shape<V>, d: Context<V>, u: Shape<V>)
    requires s.Tree? && u.Tree? && s.l == Plug(d, u)
    ensures Nodes(u) <= Nodes(s) && Compose(d, LeftOf(c, s.(val := u.val))).node in Nodes(s)
  {
    PlugNodes(d, u);
    PlugUp(d, u);
  }

  /** The elements around the last node on the left of `s`, once its value has replaced that of `s`. */
  lemma SplicedValues<V(!new)>(c: Context<V>, s: Shape<V>, d: Context<V>, u: Shape<V>)
    requires s.Tree? && u.Tree? && s.l == Plug(d, u) && u.r.Leaf? && ValuesAfter(d) == []
    ensures var k := Compose(d, LeftOf(c, s.(val := u.val)));
      ValuesBefore(k) + InOrder(u.l) + ValuesAfter(k) == ValuesBefore(c) + InOrder(s.l) + InOrder(s.r) + ValuesAfter(c)
  {
    PlugCompose(d, LeftOf(c, s.(val := u.val)), u);
    PlugValues(d, u);
  }

  // ---------------------------------------------------------------- height

  function Fib(n: nat): nat { if n < 2 then n else Fib(n - 2) + Fib(n - 1) }

  /** A balanced tree of height h holds at least Fib(h+2) - 1 elements. */
  lemma {:induction false} HeightIsLogarithmic<V(!new)>(s: Shape<V>)
    requires Balanced(s)
    ensures |InOrder(s)| >= Fib(H(s) + 2) - 1
  {
    match s
    case Leaf =>
    case Tree(_, _, h, l, r) =>
      HeightIsLogarithmic(l);
      HeightIsLogarithmic(r);
      assert Fib(h + 2) == Fib(h) + Fib(h + 1);
      var low := if H(l) < H(r) then H(l) else H(r);
      FibMonotone(h, low + 2);
      assert Max(H(l), H(r)) + 2 == h + 1;
  }

  lemma {:induction false} FibMonotone(a: nat, b: nat)
    ensures a <= b ==> Fib(a) <= Fib(b)
    decreases b
  {
    if a < b {
      FibMonotone(a, b - 1);
      assert Fib(b) >= Fib(b - 1);
    }
  }

  /** The logarithm to the base of two, rounded down. */
  function Log2(n: nat): nat { if n < 2 then 0 else 1 + Log2(n / 2) }

  /** Fib doubles with every second step. */
  lemma {:induction false} FibLogarithm(h: nat, m: nat)
    requires Fib(h + 2) <= m
    ensures h <= 2 * Log2(m) + 1
    decreases h
  {
    if h >= 2 {
      assert Fib(h + 2) == Fib(h) + Fib(h + 1);
      FibMonotone(h, h + 1);
      FibMonotone(3, h + 1);
      FibLogarithm(h - 2, m / 2);
    }
  }

  /** A balanced tree is at most about twice as high as the logarithm of its size. */
  lemma HeightBound<V(!new)>(s: Shape<V>)
    requires Balanced(s)
    ensures H(s) <= 2 * Log2(|InOrder(s)| + 1) + 1
  {
    HeightIsLogarithmic(s);
    FibLogarithm(H(s), |InOrder(s)| + 1);
  }

  /** The nodes in order hold the elements in order. */
  lemma {:induction false} NodeHolds<V(!new)>(s: Shape<V>, p: Node?<V>, i: nat)
    requires Linked(s, p) && i < |NodeOrder(s)|
    ensures |InOrder(s)| == |NodeOrder(s)| && NodeOrder(s)[i].value == InOrder(s)[i]
  {
    OrderLengths(s);
    OrderLengths(s.l);
    if i < |NodeOrder(s.l)| {
      NodeHolds(s.l, s.node, i);
    } else if i > |NodeOrder(s.l)| {
      NodeHolds(s.r, s.node, i - |NodeOrder(s.l)| - 1);
    }
  }

  lemma {:induction false} OrderLengths<V(!new)>(s: Shape<V>)
    ensures |InOrder(s)| == |NodeOrder(s)|
    ensures forall n :: n in NodeOrder(s) <==> n in Nodes(s)
    ensures Distinct(s) ==> |Nodes(s)| == |NodeOrder(s)|
  {
    match s
    case Leaf =>
    case Tree(n, _, _, l, r) =>
      OrderLengths(l);
      OrderLengths(r);
  }
}
