/**
 * The stackless walks over an AVL tree: they climb parent links and keep their place
 * in the visit bits of the nodes, whatever bits an earlier walk has left behind.
 */
module AvlWalk {
  import opened CStrings
  import opened AvlModel
  import opened AvlLinks
  import opened AvlStream
  import opened AvlHeap

  /** The visit bits of the nodes above the walk: each says which subtree the walk is in. */
  ghost function Marks<V>(c: HCtx<V>): map<AvlNode<V>, Visit> {
    match c
    case Top => map[]
    case InLeft(up, it, _) => Marks(up)[it.id := Visit(true, false)]
    case InRight(up, _, it) => Marks(up)[it.id := Visit(true, true)]
  }

  lemma {:induction false} MarksInside<V>(c: HCtx<V>)
    ensures Marks(c).Keys <= CtxNodes(c)
  {
    if !c.Top? { MarksInside(c.up); }
  }

  ghost predicate Marked<V>(c: HCtx<V>)
    reads CtxNodes(c)
  {
    forall n :: n in Marks(c) && n in CtxNodes(c) ==> n.visit == Marks(c)[n]
  }

  /** The walk is at node `n`, the root of `s` in `c`; the heap is that of the tree `m`. */
  ghost predicate WalkAt<V>(m: HTree<V>, c: HCtx<V>, s: HTree<V>, n: AvlNode<V>)
    reads Nodes(m), CtxNodes(c)
  {
    && s.Node? && s.it.id == n && Plug(c, s) == m && Distinct(m)
    && Matches(Links(m, None)) && Marked(c)
  }

  /** What the walk reads at its node. */
  lemma Here<V>(m: HTree<V>, c: HCtx<V>, s: HTree<V>, n: AvlNode<V>)
    requires WalkAt(m, c, s, n)
    ensures Fits(c, s) && n in Nodes(m) && n !in CtxNodes(c)
    ensures Stores(n, RecOf(s.it, Root(s.left), Root(s.right), Above(c)))
  {
    PlugFits(c, s);
    PlugWhole(c, s);
    RootRec(c, s);
  }

  method SetVisit<V>(n: AvlNode<V>, v: Visit, ghost m: HTree<V>, ghost c: HCtx<V>, ghost s: HTree<V>)
    requires WalkAt(m, c, s, n)
    modifies n`visit
    ensures n.visit == v && WalkAt(m, c, s, n)
  {
    Here(m, c, s, n);
    n.visit := v;
  }

  lemma GoLeft<V>(m: HTree<V>, c: HCtx<V>, s: HTree<V>, n: AvlNode<V>)
    requires WalkAt(m, c, s, n) && n.visit == Visit(true, false) && s.left.Node?
    ensures WalkAt(m, InLeft(c, s.it, s.right), s.left, s.left.it.id)
  {
    Here(m, c, s, n);
    MarksInside(c);
  }

  lemma GoRight<V>(m: HTree<V>, c: HCtx<V>, s: HTree<V>, n: AvlNode<V>)
    requires WalkAt(m, c, s, n) && n.visit == Visit(true, true) && s.right.Node?
    ensures WalkAt(m, InRight(c, s.left, s.it), s.right, s.right.it.id)
  {
    Here(m, c, s, n);
    MarksInside(c);
  }

  lemma GoUp<V>(m: HTree<V>, c: HCtx<V>, s: HTree<V>, n: AvlNode<V>)
    requires WalkAt(m, c, s, n) && !c.Top?
    ensures WalkAt(m, c.up, Fold(c, s), c.it.id)
    ensures c.it.id.visit == if c.InLeft? then Visit(true, false) else Visit(true, true)
  {
    Here(m, c, s, n);
    MarksInside(c.up);
    assert c.it.id in Marks(c) && c.it.id in CtxNodes(c);
    forall x | x in Marks(c.up) && x in CtxNodes(c.up) ensures x.visit == Marks(c.up)[x] {
      assert x in Marks(c) && x in CtxNodes(c) && x != c.it.id;
    }
  }

  lemma Start<V>(m: HTree<V>)
    requires m.Node? && Distinct(m) && Matches(Links(m, None))
    ensures WalkAt(m, Top, m, m.it.id)
  {
  }

  /** Marks the left side as visited and enters the left child, if there is one. */
  method TurnLeft<V>(n: AvlNode<V>, ghost m: HTree<V>, ghost c: HCtx<V>, ghost s: HTree<V>) returns (next: AvlNode<V>)
    requires WalkAt(m, c, s, n) && n.visit == Visit(false, false) && n in Nodes(m)
    modifies Nodes(m)`visit
    ensures s.left.Leaf? ==> next == n && WalkAt(m, c, s, n) && n.visit == Visit(true, false)
    ensures s.left.Node? ==> WalkAt(m, InLeft(c, s.it, s.right), s.left, next) && next.visit == Visit(false, false)
    ensures next in Nodes(m)
  {
    Here(m, c, s, n);
    next := n;
    SetVisit(n, Visit(true, n.visit.right), m, c, s);
    if n.left.Some? {
      GoLeft(m, c, s, n);
      next := n.left.value;
      Here(m, InLeft(c, s.it, s.right), s.left, next);
      SetVisit(next, Visit(false, false), m, InLeft(c, s.it, s.right), s.left);
    }
  }

  /** The same on the right. */
  method TurnRight<V>(n: AvlNode<V>, ghost m: HTree<V>, ghost c: HCtx<V>, ghost s: HTree<V>) returns (next: AvlNode<V>)
    requires WalkAt(m, c, s, n) && n.visit == Visit(true, false) && n in Nodes(m)
    modifies Nodes(m)`visit
    ensures s.right.Leaf? ==> next == n && WalkAt(m, c, s, n) && n.visit == Visit(true, true)
    ensures s.right.Node? ==> WalkAt(m, InRight(c, s.left, s.it), s.right, next) && next.visit == Visit(false, false)
    ensures next in Nodes(m)
  {
    Here(m, c, s, n);
    next := n;
    SetVisit(n, Visit(n.visit.left, true), m, c, s);
    if n.right.Some? {
      GoRight(m, c, s, n);
      next := n.right.value;
      Here(m, InRight(c, s.left, s.it), s.right, next);
      SetVisit(next, Visit(false, false), m, InRight(c, s.left, s.it), s.right);
    }
  }

  // ----- depth_first_search -----

  /** One callback. */
  datatype Call<V> = Call(key: string, value: V)

  function PostOrder<N, V>(t: Tree<N, V>): seq<Call<V>> {
    if t.Leaf? then [] else PostOrder(t.left) + PostOrder(t.right) + [Call(t.it.key, t.it.value)]
  }

  /** The calls still to come when the subtree in the hole of `c` is done. */
  function PostAfter<N, V>(c: Ctx<N, V>): seq<Call<V>>
    decreases c
  {
    match c
    case Top => []
    case InLeft(up, it, right) => PostOrder(right) + [Call(it.key, it.value)] + PostAfter(up)
    case InRight(up, _, it) => [Call(it.key, it.value)] + PostAfter(up)
  }

  /** The calls still to come at the root of `s`, by its visit bits. */
  function PostRest<N, V>(c: Ctx<N, V>, s: Tree<N, V>, v: Visit): seq<Call<V>>
    requires s.Node?
  {
    if !v.left then PostOrder(s) + PostAfter(c)
    else if !v.right then PostOrder(s.right) + [Call(s.it.key, s.it.value)] + PostAfter(c)
    else [Call(s.it.key, s.it.value)] + PostAfter(c)
  }

  /** Steps left, for termination. */
  function Steps<N, V>(t: Tree<N, V>): nat {
    if t.Leaf? then 0 else Steps(t.left) + Steps(t.right) + 3
  }

  function StepsAfter<N, V>(c: Ctx<N, V>): nat
    decreases c
  {
    match c
    case Top => 0
    case InLeft(up, _, right) => Steps(right) + 2 + StepsAfter(up)
    case InRight(up, _, _) => 1 + StepsAfter(up)
  }

  function StepsLeft<N, V>(c: Ctx<N, V>, s: Tree<N, V>, v: Visit): nat
    requires s.Node?
  {
    if !v.left then Steps(s) + StepsAfter(c)
    else if !v.right then Steps(s.right) + 2 + StepsAfter(c)
    else 1 + StepsAfter(c)
  }

  // How the calls and steps still to come change at each turn of the walk.

  lemma PostTurnLeft<N, V>(c: Ctx<N, V>, s: Tree<N, V>)
    requires s.Node?
    ensures s.left.Leaf? ==>
      && PostRest(c, s, Visit(false, false)) == PostRest(c, s, Visit(true, false))
      && StepsLeft(c, s, Visit(false, false)) > StepsLeft(c, s, Visit(true, false))
    ensures s.left.Node? ==> var c' := InLeft(c, s.it, s.right);
      && PostRest(c, s, Visit(false, false)) == PostRest(c', s.left, Visit(false, false))
      && StepsLeft(c, s, Visit(false, false)) > StepsLeft(c', s.left, Visit(false, false))
  {
    var l, r, x, z := PostOrder(s.left), PostOrder(s.right), [Call(s.it.key, s.it.value)], PostAfter(c);
    assert (l + r + x) + z == l + (r + x + z);
    if s.left.Leaf? { assert l + (r + x + z) == r + x + z; }
  }

  lemma PostTurnRight<N, V>(c: Ctx<N, V>, s: Tree<N, V>)
    requires s.Node?
    ensures s.right.Leaf? ==>
      && PostRest(c, s, Visit(true, false)) == PostRest(c, s, Visit(true, true))
      && StepsLeft(c, s, Visit(true, false)) > StepsLeft(c, s, Visit(true, true))
    ensures s.right.Node? ==> var c' := InRight(c, s.left, s.it);
      && PostRest(c, s, Visit(true, false)) == PostRest(c', s.right, Visit(false, false))
      && StepsLeft(c, s, Visit(true, false)) > StepsLeft(c', s.right, Visit(false, false))
  {
    var r, x, z := PostOrder(s.right), [Call(s.it.key, s.it.value)], PostAfter(c);
    assert (r + x) + z == r + (x + z);
    if s.right.Leaf? { assert r + (x + z) == x + z; }
  }

  lemma PostTurnUp<N, V>(c: Ctx<N, V>, s: Tree<N, V>, done: seq<Call<V>>)
    requires s.Node?
    ensures done + PostRest(c, s, Visit(true, true)) == done + [Call(s.it.key, s.it.value)] + PostAfter(c)
    ensures !c.Top? ==> var v := if c.InLeft? then Visit(true, false) else Visit(true, true);
      && PostAfter(c) == PostRest(c.up, Fold(c, s), v)
      && StepsLeft(c, s, Visit(true, true)) > StepsLeft(c.up, Fold(c, s), v)
  {
    var x := [Call(s.it.key, s.it.value)];
    assert done + (x + PostAfter(c)) == done + x + PostAfter(c);
  }

  /** From any visit bits, the walk calls back exactly once per node, in post-order,
      and leaves links, balances, keys and values alone. */
  method DepthFirstSearch<V>(tree: AvlTree<V>) returns (calls: seq<Call<V>>)
    requires tree.Settled(tree.model)
    modifies Nodes(tree.model)`visit
    ensures calls == PostOrder(tree.model)
    ensures tree.Settled(tree.model)
  {
    calls := [];
    ghost var m := tree.model;
    if tree.root.Some? {
      var thisNode := tree.root.value;
      ghost var c, s := Top, m;
      Start(m);
      SetVisit(thisNode, Visit(false, false), m, c, s);
      while true
        invariant WalkAt(m, c, s, thisNode) && thisNode in Nodes(m)
        invariant thisNode.visit != Visit(false, true)
        invariant calls + PostRest(c, s, thisNode.visit) == PostOrder(m)
        decreases StepsLeft(c, s, thisNode.visit)
      {
        if thisNode.visit.left {
          if thisNode.visit.right {
            Here(m, c, s, thisNode);
            PostTurnUp(c, s, calls);
            calls := calls + [Call(thisNode.key, thisNode.value)];
            if thisNode.parent.None? {
              break;
            }
            GoUp(m, c, s, thisNode);
            thisNode := thisNode.parent.value;
            c, s := c.up, Fold(c, s);
            Here(m, c, s, thisNode);
          } else {
            PostTurnRight(c, s);
            thisNode := TurnRight(thisNode, m, c, s);
            if s.right.Node? { c, s := InRight(c, s.left, s.it), s.right; }
          }
        } else {
          PostTurnLeft(c, s);
          thisNode := TurnLeft(thisNode, m, c, s);
          if s.left.Node? { c, s := InLeft(c, s.it, s.right), s.left; }
        }
      }
    }
  }

  /** The calls are the cells of the map, each exactly once. */
  lemma {:induction false} PostOrderCells<N, V>(t: Tree<N, V>)
    ensures multiset(PostOrder(t)) == multiset(InOrder(t))
  {
    if t.Node? {
      PostOrderCells(t.left);
      PostOrderCells(t.right);
      var x := [Call(t.it.key, t.it.value)];
      assert multiset(PostOrder(t)) == multiset(PostOrder(t.left)) + multiset(PostOrder(t.right)) + multiset(x);
      assert multiset(InOrder(t)) == multiset(InOrder(t.left)) + multiset(x) + multiset(InOrder(t.right));
    }
  }

  function InOrder<N, V>(t: Tree<N, V>): seq<Call<V>> {
    if t.Leaf? then [] else InOrder(t.left) + [Call(t.it.key, t.it.value)] + InOrder(t.right)
  }

  /** The left side is called first and the node itself last. */
  lemma PostOrderOfThree<N, V>(a: Item<N, V>, b: Item<N, V>, c: Item<N, V>)
    ensures PostOrder(Node(Node(Leaf, a, Leaf), b, Node(Leaf, c, Leaf))) == [Call(a.key, a.value), Call(c.key, c.value), Call(b.key, b.value)]
  {
    var none: Tree<N, V> := Leaf;
    assert PostOrder(none) == [];
  }

  /** What a search finds is called. */
  lemma {:induction false} FoundIsCalled<N, V>(t: Tree<N, V>, k: string)
    requires Lookup(t, k).Some?
    ensures Call(k, Lookup(t, k).value.value) in PostOrder(t)
  {
    StrCmpZero(t.it.key, k);
    var c := StrCmp(t.it.key, k);
    if c < 0 {
      FoundIsCalled(t.right, k);
    } else if c > 0 {
      FoundIsCalled(t.left, k);
    }
  }

  // ----- write_to_file -----

  /** What is still to be written when the subtree in the hole of `c` is done. */
  function DumpAfter<N, V>(c: Ctx<N, V>, addr: N -> nat, enc: Writer<V>): Mem
    decreases c
  {
    match c
    case Top => []
    case InLeft(up, it, right) => Dump(right, Some(it.id), addr, enc) + DumpAfter(up, addr, enc)
    case InRight(up, _, it) => DumpAfter(up, addr, enc)
  }

  /** What is still to be written at the root of `s`, whose own structure has been written. */
  function DumpRest<N, V>(c: Ctx<N, V>, s: Tree<N, V>, v: Visit, addr: N -> nat, enc: Writer<V>): Mem
    requires s.Node?
  {
    if !v.left then Dump(s.left, Some(s.it.id), addr, enc) + (Dump(s.right, Some(s.it.id), addr, enc) + DumpAfter(c, addr, enc))
    else if !v.right then Dump(s.right, Some(s.it.id), addr, enc) + DumpAfter(c, addr, enc)
    else DumpAfter(c, addr, enc)
  }

  /** What a turn to a side writes: the child with its key and value, or the empty marker. */
  function Turned<N, V>(t: Tree<N, V>, p: N, addr: N -> nat, enc: Writer<V>): Mem {
    if t.Leaf? then [EMPTY_NODE] else DumpNode(t, Some(p), addr, enc)
  }

  lemma ShiftOne(out: Mem, w: Mem, z: Mem)
    ensures out + (w + z) == (out + w) + z
  {
  }

  lemma Shift(out: Mem, w: Mem, l: Mem, r: Mem, z: Mem)
    ensures out + ((w + l + r) + z) == (out + w) + (l + (r + z))
  {
  }

  lemma DumpTurnLeft<N, V>(out: Mem, c: Ctx<N, V>, s: Tree<N, V>, addr: N -> nat, enc: Writer<V>)
    requires s.Node?
    ensures var (w, c') := (Turned(s.left, s.it.id, addr, enc), InLeft(c, s.it, s.right));
      out + DumpRest(c, s, Visit(false, false), addr, enc) ==
        if s.left.Leaf? then (out + w) + DumpRest(c, s, Visit(true, false), addr, enc)
        else (out + w) + DumpRest(c', s.left, Visit(false, false), addr, enc)
  {
    if s.left.Leaf? {
      ShiftOne(out, [EMPTY_NODE], DumpRest(c, s, Visit(true, false), addr, enc));
    } else {
      var id := Some(s.left.it.id);
      var w, l, r := Turned(s.left, s.it.id, addr, enc), Dump(s.left.left, id, addr, enc), Dump(s.left.right, id, addr, enc);
      var z := Dump(s.right, Some(s.it.id), addr, enc) + DumpAfter(c, addr, enc);
      Shift(out, w, l, r, z);
    }
  }

  lemma DumpTurnRight<N, V>(out: Mem, c: Ctx<N, V>, s: Tree<N, V>, addr: N -> nat, enc: Writer<V>)
    requires s.Node?
    ensures var (w, c') := (Turned(s.right, s.it.id, addr, enc), InRight(c, s.left, s.it));
      out + DumpRest(c, s, Visit(true, false), addr, enc) ==
        if s.right.Leaf? then (out + w) + DumpRest(c, s, Visit(true, true), addr, enc)
        else (out + w) + DumpRest(c', s.right, Visit(false, false), addr, enc)
  {
    if s.right.Leaf? {
      ShiftOne(out, [EMPTY_NODE], DumpRest(c, s, Visit(true, true), addr, enc));
    } else {
      var id := Some(s.right.it.id);
      var w, l, r := Turned(s.right, s.it.id, addr, enc), Dump(s.right.left, id, addr, enc), Dump(s.right.right, id, addr, enc);
      var z := DumpAfter(c, addr, enc);
      Shift(out, w, l, r, z);
    }
  }

  /** What `write_node_to_file` writes: the structure with `visit` set, then key and value. */
  function NodeBytes<V>(n: AvlNode<V>, addr: AvlNode<V> -> nat, enc: Writer<V>): Mem
    reads n
  {
    [NodeTok(Visit(true, true), Addr(addr, n.left), Addr(addr, n.right), Addr(addr, n.parent), n.balance)]
    + WriteStr(n.key) + enc(n.value)
  }

  /** What is written for one child link: the child, or the empty marker. */
  function ChildBytes<V>(child: Option<AvlNode<V>>, addr: AvlNode<V> -> nat, enc: Writer<V>): Mem
    reads if child.None? then {} else {child.value}
  {
    if child.None? then [EMPTY_NODE] else NodeBytes(child.value, addr, enc)
  }

  lemma ChildBytesAre<V>(m: HTree<V>, c: HCtx<V>, s: HTree<V>, n: AvlNode<V>, addr: AvlNode<V> -> nat, enc: Writer<V>)
    requires WalkAt(m, c, s, n)
    ensures NodeBytes(n, addr, enc) == DumpNode(s, Above(c), addr, enc)
    ensures ChildBytes(n.left, addr, enc) == Turned(s.left, n, addr, enc)
    ensures ChildBytes(n.right, addr, enc) == Turned(s.right, n, addr, enc)
  {
    hide Links, Dump;
    Here(m, c, s, n);
    PlugWhole(c, s);
    if s.left.Node? { LeftRec(c, s); }
    if s.right.Node? { RightRec(c, s); }
  }

  /** `write_to_file`: a tree structure, then the dump of the nodes. */
  method WriteToFile<V>(tree: AvlTree<V>, addr: AvlNode<V> -> nat, enc: Writer<V>) returns (out: Mem)
    requires tree.Settled(tree.model)
    modifies Nodes(tree.model)`visit
    ensures out == [TreeHead(tree.model, addr)] + Dump(tree.model, None, addr, enc)
    ensures tree.Settled(tree.model)
  {
    out := [TreeTok(Addr(addr, tree.root))];
    if tree.root.Some? {
      out := WriteSubtree(out, tree, addr, enc);
    } else {
      out := out + [EMPTY_NODE];
    }
  }

  method WriteSubtree<V>(start: Mem, tree: AvlTree<V>, addr: AvlNode<V> -> nat, enc: Writer<V>) returns (out: Mem)
    requires tree.Settled(tree.model) && tree.root.Some?
    modifies Nodes(tree.model)`visit
    ensures out == start + Dump(tree.model, None, addr, enc)
    ensures tree.Settled(tree.model)
  {
    ghost var m := tree.model;
    var thisNode := tree.root.value;
    ghost var c, s := Top, m;
    Start(m);
    SetVisit(thisNode, Visit(false, false), m, c, s);
    Here(m, c, s, thisNode);
    ChildBytesAre(m, c, s, thisNode, addr, enc);
    out := start + NodeBytes(thisNode, addr, enc);
    DumpBegins(m, addr, enc, start);
    while true
      invariant WalkAt(m, c, s, thisNode) && thisNode in Nodes(m)
      invariant thisNode.visit != Visit(false, true)
      invariant out + DumpRest(c, s, thisNode.visit, addr, enc) == start + Dump(m, None, addr, enc)
      decreases StepsLeft(c, s, thisNode.visit)
    {
      Here(m, c, s, thisNode);
      ChildBytesAre(m, c, s, thisNode, addr, enc);
      if thisNode.visit.left {
        if thisNode.visit.right {
          PostTurnUp(c, s, []);
          if thisNode.parent.None? {
            break;
          }
          GoUp(m, c, s, thisNode);
          thisNode := thisNode.parent.value;
          c, s := c.up, Fold(c, s);
          Here(m, c, s, thisNode);
        } else {
          PostTurnRight(c, s);
          DumpTurnRight(out, c, s, addr, enc);
          out := out + ChildBytes(thisNode.right, addr, enc);
          thisNode := TurnRight(thisNode, m, c, s);
          if s.right.Node? { c, s := InRight(c, s.left, s.it), s.right; }
        }
      } else {
        PostTurnLeft(c, s);
        DumpTurnLeft(out, c, s, addr, enc);
        out := out + ChildBytes(thisNode.left, addr, enc);
        thisNode := TurnLeft(thisNode, m, c, s);
        if s.left.Node? { c, s := InLeft(c, s.it, s.right), s.left; }
      }
    }
  }

  lemma DumpBegins<N, V>(m: Tree<N, V>, addr: N -> nat, enc: Writer<V>, start: Mem)
    requires m.Node?
    ensures (start + DumpNode(m, None, addr, enc)) + DumpRest(Top, m, Visit(false, false), addr, enc) == start + Dump(m, None, addr, enc)
  {
    var id := Some(m.it.id);
    var n, l, r := DumpNode(m, None, addr, enc), Dump(m.left, id, addr, enc), Dump(m.right, id, addr, enc);
    assert (start + n) + (l + (r + [])) == start + (n + l + r);
  }
}
