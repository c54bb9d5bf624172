/**
 * The AVL map on the heap: nodes whose links the rotations, the climb and the walks
 * update in place, proved against the ghost trees of AvlModel.
 */
module AvlHeap {
  import opened CStrings
  import opened AvlModel
  import opened AvlOrder
  import opened AvlLinks
  import opened AvlStream

  class AvlNode<V> {
    var visit: Visit
    var left: Option<AvlNode<V>>
    var right: Option<AvlNode<V>>
    var parent: Option<AvlNode<V>>
    var balance: Balance
    var key: string
    var value: V

    constructor (key: string, parent: Option<AvlNode<V>>, value: V)
      ensures this.key == key && this.parent == parent && this.value == value
      ensures left == None && right == None && balance == Balanced
    {
      this.key, this.value, this.balance := key, value, Balanced;
      this.left, this.right, this.parent := None, None, parent;
      this.visit := Visit(false, false);
    }
  }

  /** Node `n` stores the record `r` (the visit bits are not part of it). */
  ghost predicate Stores<V>(n: AvlNode<V>, r: Rec<AvlNode<V>, V>)
    reads n
  {
    && n.left == r.left && n.right == r.right && n.parent == r.parent
    && n.balance == r.bal && n.key == r.key && n.value == r.value
  }

  /** The heap stores the table `m`. */
  ghost predicate Matches<V>(m: HTable<V>)
    reads m.Keys
  {
    forall n {:trigger m[n]} :: n in m ==> Stores(n, m[n])
  }

  /** A pointer to a link: `&tree_root`, `&node->links.left` or `&node->links.right`. */
  datatype Slot<V> = RootSlot | LeftOf(node: AvlNode<V>) | RightOf(node: AvlNode<V>)

  function SlotOf<V>(c: HCtx<V>): Slot<V> {
    match c
    case Top => RootSlot
    case InLeft(_, it, _) => LeftOf(it.id)
    case InRight(_, _, it) => RightOf(it.id)
  }

  type HTree<!V> = Tree<AvlNode<V>, V>
  type HCtx<!V> = Ctx<AvlNode<V>, V>
  type HTable<!V> = Table<AvlNode<V>, V>

  class AvlTree<V> {
    var root: Option<AvlNode<V>>
    ghost var model: HTree<V>
    const zero: V

    constructor (zero: V)
      ensures Valid() && model == Leaf && this.zero == zero
    {
      root, model, this.zero := None, Leaf, zero;
    }

    /** The common start of the four rotations: `child` takes the place of `parent` below the node above. */
    method Lift(parent: AvlNode<V>, child: AvlNode<V>, ghost m: HTable<V>)
      requires Matches(m) && parent in m && child in m
      requires m[parent].parent.Some? ==> m[parent].parent.value in m && m[parent].parent.value != child
      modifies this`root, m.Keys
      ensures Matches(TakePlace(m, parent, child))
      ensures root == if m[parent].parent.None? then Some(child) else old(root)
    {
      child.parent := parent.parent;
      if child.parent.Some? {
        var above := child.parent.value;
        if above.left == Some(parent) {
          above.left := Some(child);
        } else {
          above.right := Some(child);
        }
      } else {
        root := Some(child);
      }
    }

    /** `if (p->links.left = n) n->links.parent = p`. */
    static method AdoptLeft(p: AvlNode<V>, n: Option<AvlNode<V>>, ghost m: HTable<V>)
      requires Matches(m) && p in m && (n.Some? ==> n.value in m && n.value != p)
      modifies m.Keys
      ensures Matches(HangLeft(m, p, n))
    {
      p.left := n;
      if n.Some? {
        n.value.parent := Some(p);
      }
    }

    static method AdoptRight(p: AvlNode<V>, n: Option<AvlNode<V>>, ghost m: HTable<V>)
      requires Matches(m) && p in m && (n.Some? ==> n.value in m && n.value != p)
      modifies m.Keys
      ensures Matches(HangRight(m, p, n))
    {
      p.right := n;
      if n.Some? {
        n.value.parent := Some(p);
      }
    }

    static method ClearTwo(parent: AvlNode<V>, child: AvlNode<V>, ghost m: HTable<V>)
      requires Matches(m) && parent in m && child in m && parent != child
      modifies m.Keys
      ensures Matches(m[parent := m[parent].(bal := Balanced)][child := m[child].(bal := Balanced)])
    {
      parent.balance := Balanced;
      child.balance := Balanced;
    }

    /** The writes of this rotation; the tables between them are given. */
    method LeftLeftWrites(parent: AvlNode<V>, child: AvlNode<V>, ghost m: HTable<V>, ghost m1: HTable<V>, ghost m2: HTable<V>, ghost m3: HTable<V>)
      requires Matches(m) && child in m && HasRoom(m, parent, child, m[child].left) && m1.Keys == m2.Keys == m3.Keys == m.Keys
      requires m1 == m[parent := m[parent].(bal := Balanced)][child := m[child].(bal := Balanced)] && m1[parent].parent == m[parent].parent
      requires m2 == TakePlace(m1, parent, child) && m2[child].left == m[child].left && m3 == HangRight(m2, parent, m[child].left)
      modifies this`root, m.Keys
      ensures Matches(HangLeft(m3, child, Some(parent)))
      ensures root == if m[parent].parent.None? then Some(child) else old(root)
    {
      ClearTwo(parent, child, m);
      Lift(parent, child, m1);
      AdoptRight(parent, child.left, m2);
      AdoptLeft(child, Some(parent), m3);
    }

    method LeftLeftRotation(parent: AvlNode<V>, child: AvlNode<V>, ghost m: HTable<V>)
      requires Matches(m) && child in m && HasRoom(m, parent, child, m[child].left)
      modifies this`root, m.Keys
      ensures Matches(LeftLeft(m, parent, child))
      ensures root == if m[parent].parent.None? then Some(child) else old(root)
    {
      ghost var m1, m2, m3 := LeftLeftStages(m, parent, child);
      LeftLeftWrites(parent, child, m, m1, m2, m3);
    }

    /** The writes of this rotation; the tables between them are given. */
    method RightRightWrites(parent: AvlNode<V>, child: AvlNode<V>, ghost m: HTable<V>, ghost m1: HTable<V>, ghost m2: HTable<V>, ghost m3: HTable<V>)
      requires Matches(m) && child in m && HasRoom(m, parent, child, m[child].right) && m1.Keys == m2.Keys == m3.Keys == m.Keys
      requires m1 == m[parent := m[parent].(bal := Balanced)][child := m[child].(bal := Balanced)] && m1[parent].parent == m[parent].parent
      requires m2 == TakePlace(m1, parent, child) && m2[child].right == m[child].right && m3 == HangLeft(m2, parent, m[child].right)
      modifies this`root, m.Keys
      ensures Matches(HangRight(m3, child, Some(parent)))
      ensures root == if m[parent].parent.None? then Some(child) else old(root)
    {
      ClearTwo(parent, child, m);
      Lift(parent, child, m1);
      AdoptLeft(parent, child.right, m2);
      AdoptRight(child, Some(parent), m3);
    }

    method RightRightRotation(parent: AvlNode<V>, child: AvlNode<V>, ghost m: HTable<V>)
      requires Matches(m) && child in m && HasRoom(m, parent, child, m[child].right)
      modifies this`root, m.Keys
      ensures Matches(RightRight(m, parent, child))
      ensures root == if m[parent].parent.None? then Some(child) else old(root)
    {
      ghost var m1, m2, m3 := RightRightStages(m, parent, child);
      RightRightWrites(parent, child, m, m1, m2, m3);
    }

    /** The common start of the double rotations. */
    method LiftGrandchild(parent: AvlNode<V>, child: AvlNode<V>, grandchild: AvlNode<V>, ghost m: HTable<V>)
      requires Matches(m) && HasRoom3(m, parent, child, grandchild)
      modifies this`root, m.Keys
      ensures Matches(Place3(m, parent, child, grandchild))
      ensures root == if m[parent].parent.None? then Some(grandchild) else old(root)
    {
      hide TakePlace;
      ghost var m1 := m[parent := m[parent].(bal := Balanced)][child := m[child].(bal := Balanced)];
      ClearTwo(parent, child, m);
      grandchild.balance := Balanced;
      Lift(parent, grandchild, m1[grandchild := m1[grandchild].(bal := Balanced)]);
    }

    /** The grandchild's subtrees go to `parent` and `child`, which then become its children. */
    static method SpreadRightLeft(parent: AvlNode<V>, child: AvlNode<V>, grandchild: AvlNode<V>, ghost m: HTable<V>)
      requires Matches(m) && HasRoom3(m, parent, child, grandchild)
      modifies m.Keys
      ensures Matches(HangLeft(HangRight(m, parent, m[grandchild].left), child, m[grandchild].right))
    {
      ghost var m1 := HangRight(m, parent, m[grandchild].left);
      assert m1[grandchild].right == m[grandchild].right;
      AdoptRight(parent, grandchild.left, m);
      AdoptLeft(child, grandchild.right, m1);
    }
  
    static method SpreadLeftRight(parent: AvlNode<V>, child: AvlNode<V>, grandchild: AvlNode<V>, ghost m: HTable<V>)
      requires Matches(m) && HasRoom3(m, parent, child, grandchild)
      modifies m.Keys
      ensures Matches(HangRight(HangLeft(m, parent, m[grandchild].right), child, m[grandchild].left))
    {
      ghost var m1 := HangLeft(m, parent, m[grandchild].right);
      assert m1[grandchild].left == m[grandchild].left;
      AdoptLeft(parent, grandchild.right, m);
      AdoptRight(child, grandchild.left, m1);
    }

    method RightLeftWrites(parent: AvlNode<V>, child: AvlNode<V>, grandchild: AvlNode<V>,
                           ghost m: HTable<V>, ghost m1: HTable<V>, ghost m2: HTable<V>, ghost m3: HTable<V>)
      requires Matches(m) && HasRoom3(m, parent, child, grandchild) && m1.Keys == m2.Keys == m3.Keys == m.Keys
      requires m1 == Place3(m, parent, child, grandchild) && HasRoom3(m1, parent, child, grandchild)
      requires m2 == HangLeft(HangRight(m1, parent, m1[grandchild].left), child, m1[grandchild].right) && m3 == HangLeft(m2, grandchild, Some(parent))
      modifies this`root, m.Keys
      ensures Matches(HangRight(m3, grandchild, Some(child)))
      ensures root == if m[parent].parent.None? then Some(grandchild) else old(root)
    {
      hide Place3;
      LiftGrandchild(parent, child, grandchild, m);
      SpreadRightLeft(parent, child, grandchild, m1);
      AdoptLeft(grandchild, Some(parent), m2);
      AdoptRight(grandchild, Some(child), m3);
    }

    method RightLeftRotation(parent: AvlNode<V>, child: AvlNode<V>, grandchild: AvlNode<V>, ghost m: HTable<V>)
      requires Matches(m) && HasRoom3(m, parent, child, grandchild)
      modifies this`root, m.Keys
      ensures Matches(RightLeft(m, parent, child, grandchild))
      ensures root == if m[parent].parent.None? then Some(grandchild) else old(root)
    {
      ghost var m1, m2, m3 := RightLeftStages(m, parent, child, grandchild);
      RightLeftWrites(parent, child, grandchild, m, m1, m2, m3);
    }

    method LeftRightWrites(parent: AvlNode<V>, child: AvlNode<V>, grandchild: AvlNode<V>,
                           ghost m: HTable<V>, ghost m1: HTable<V>, ghost m2: HTable<V>, ghost m3: HTable<V>)
      requires Matches(m) && HasRoom3(m, parent, child, grandchild) && m1.Keys == m2.Keys == m3.Keys == m.Keys
      requires m1 == Place3(m, parent, child, grandchild) && HasRoom3(m1, parent, child, grandchild)
      requires m2 == HangRight(HangLeft(m1, parent, m1[grandchild].right), child, m1[grandchild].left) && m3 == HangRight(m2, grandchild, Some(parent))
      modifies this`root, m.Keys
      ensures Matches(HangLeft(m3, grandchild, Some(child)))
      ensures root == if m[parent].parent.None? then Some(grandchild) else old(root)
    {
      hide Place3;
      LiftGrandchild(parent, child, grandchild, m);
      SpreadLeftRight(parent, child, grandchild, m1);
      AdoptRight(grandchild, Some(parent), m2);
      AdoptLeft(grandchild, Some(child), m3);
    }

    method LeftRightRotation(parent: AvlNode<V>, child: AvlNode<V>, grandchild: AvlNode<V>, ghost m: HTable<V>)
      requires Matches(m) && HasRoom3(m, parent, child, grandchild)
      modifies this`root, m.Keys
      ensures Matches(LeftRight(m, parent, child, grandchild))
      ensures root == if m[parent].parent.None? then Some(grandchild) else old(root)
    {
      ghost var m1, m2, m3 := LeftRightStages(m, parent, child, grandchild);
      LeftRightWrites(parent, child, grandchild, m, m1, m2, m3);
    }
  
    /** `t`, with root `n`, hangs in `up` in the heap. */
    ghost predicate Hangs(up: HCtx<V>, t: HTree<V>, n: AvlNode<V>)
      reads this`root, CtxNodes(up) + Nodes(t)
    {
      && t.Node? && t.it.id == n && Fits(up, t) && Matches(Whole(up, t)) && root == RootAt(up, Some(n))
    }

    method Mark(n: AvlNode<V>, b: Balance, ghost up: HCtx<V>, ghost t: HTree<V>)
      requires Hangs(up, t, n)
      modifies n
      ensures Hangs(up, SetBal(t, b), n) && Nodes(SetBal(t, b)) == Nodes(t)
    {
      SetBalWhole(up, t, b);
      n.balance := b;
    }

    /** The heavy side has grown again. */
    method RotateLeftHeavy(thisNode: AvlNode<V>, previous: AvlNode<V>, ghost up: HCtx<V>, ghost t: HTree<V>)
      requires Hangs(up, t, thisNode) && t.left.Node? && t.left.it.id == previous
      requires !t.left.it.bal.LeftHeavy? ==> t.left.right.Node?
      modifies this`root, CtxNodes(up), Nodes(t)
      ensures var r := if t.left.it.bal.LeftHeavy? then RotateRightRight(t) else RotateLeftRight(AsWritten, t);
        r.Node? && Hangs(up, r, r.it.id) && Nodes(r) == Nodes(t)
    {
      RootRec(up, t);
      LeftRec(up, t);
      if previous.balance == LeftHeavy {
        RightRightWhole(up, t);
        RightRightRotation(thisNode, previous, Whole(up, t));
      } else {
        LeftRightWhole(up, t);
        LeftRightRotation(thisNode, previous, previous.right.value, Whole(up, t));
      }
    }

    /** One step of `rebalance_grew` at `thisNode`, whose left subtree has grown. */
    method LeftGrew(thisNode: AvlNode<V>, previous: AvlNode<V>, ghost up: HCtx<V>, ghost t: HTree<V>) returns (goOn: bool)
      requires Hangs(up, t, thisNode) && t.left.Node? && t.left.it.id == previous
      requires t.it.bal.LeftHeavy? && !t.left.it.bal.LeftHeavy? ==> t.left.right.Node?
      modifies this`root, CtxNodes(up), Nodes(t)
      ensures var (r, grew) := GrewLeft(AsWritten, t);
        && goOn == grew && r.Node? && Hangs(up, r, r.it.id) && Nodes(r) == Nodes(t) && (goOn ==> r.it.id == thisNode)
    {
      RootRec(up, t);
      goOn := false;
      if thisNode.balance == RightHeavy {
        Mark(thisNode, Balanced, up, t);
      } else if thisNode.balance == Balanced {
        Mark(thisNode, LeftHeavy, up, t);
        goOn := true;
      } else {
        RotateLeftHeavy(thisNode, previous, up, t);
      }
    }

    /** The heavy side has grown again. */
    method RotateRightHeavy(thisNode: AvlNode<V>, previous: AvlNode<V>, ghost up: HCtx<V>, ghost t: HTree<V>)
      requires Hangs(up, t, thisNode) && t.right.Node? && t.right.it.id == previous
      requires !t.right.it.bal.RightHeavy? ==> t.right.left.Node?
      modifies this`root, CtxNodes(up), Nodes(t)
      ensures var r := if t.right.it.bal.RightHeavy? then RotateLeftLeft(t) else RotateRightLeft(AsWritten, t);
        r.Node? && Hangs(up, r, r.it.id) && Nodes(r) == Nodes(t)
    {
      RootRec(up, t);
      RightRec(up, t);
      if previous.balance == RightHeavy {
        LeftLeftWhole(up, t);
        LeftLeftRotation(thisNode, previous, Whole(up, t));
      } else {
        RightLeftWhole(up, t);
        RightLeftRotation(thisNode, previous, previous.left.value, Whole(up, t));
      }
    }

    /** One step of `rebalance_grew` at `thisNode`, whose right subtree has grown. */
    method RightGrew(thisNode: AvlNode<V>, previous: AvlNode<V>, ghost up: HCtx<V>, ghost t: HTree<V>) returns (goOn: bool)
      requires Hangs(up, t, thisNode) && t.right.Node? && t.right.it.id == previous
      requires t.it.bal.RightHeavy? && !t.right.it.bal.RightHeavy? ==> t.right.left.Node?
      modifies this`root, CtxNodes(up), Nodes(t)
      ensures var (r, grew) := GrewRight(AsWritten, t);
        && goOn == grew && r.Node? && Hangs(up, r, r.it.id) && Nodes(r) == Nodes(t) && (goOn ==> r.it.id == thisNode)
    {
      RootRec(up, t);
      goOn := false;
      if thisNode.balance == LeftHeavy {
        Mark(thisNode, Balanced, up, t);
      } else if thisNode.balance == Balanced {
        Mark(thisNode, RightHeavy, up, t);
        goOn := true;
      } else {
        RotateRightHeavy(thisNode, previous, up, t);
      }
    }
  
    /** The climb. `s0`, with root `node`, is the subtree that has grown; it hangs in `c0`. */
    method RebalanceGrew(node: AvlNode<V>, ghost c0: HCtx<V>, ghost s0: HTree<V>) returns (ghost final: HTree<V>)
      requires Hangs(c0, s0, node) && GrownIn(true, s0) && CtxHeavy(c0, false)
      modifies this`root, CtxNodes(c0), Nodes(s0)
      ensures final == Climb(AsWritten, c0, s0)
      ensures Settled(final) && Nodes(final) == CtxNodes(c0) + Nodes(s0)
    {
      ghost var c, s, full := c0, s0, false;
      var previous, thisNode := node, node.parent;
      RootRec(c, s);
      while thisNode.Some?
        invariant Hangs(c, s, previous) && thisNode == Above(c)
        invariant GrownIn(!full, s) && CtxHeavy(c, full)
        invariant CtxNodes(c) + Nodes(s) == CtxNodes(c0) + Nodes(s0)
        invariant Climb(AsWritten, c, s) == Climb(AsWritten, c0, s0)
        decreases c
      {
        var n := thisNode.value;
        ghost var up, t := c.up, Fold(c, s);
        WholeUp(c, s);
        RootRec(up, t);
        var goOn;
        if n.left == Some(previous) {
          assert c.InLeft?;
          GrewLeftKeepsHeavyHasChild(t);
          goOn := LeftGrew(n, previous, up, t);
          s := GrewLeft(AsWritten, t).0;
        } else {
          assert c.InRight?;
          GrewRightKeepsHeavyHasChild(t);
          goOn := RightGrew(n, previous, up, t);
          s := GrewRight(AsWritten, t).0;
        }
        if !goOn {
          final := Plug(up, s);
          Settle(up, s);
          return;
        }
        c, full := up, true;
        RootRec(c, s);
        previous, thisNode := n, n.parent;
      }
      final := s;
      Settle(c, s);
    }

    /** The heap holds exactly the tree `t`, from the root. */
    ghost predicate Settled(t: HTree<V>)
      reads this`root, Nodes(t)
    {
      Distinct(t) && Matches(Links(t, None)) && root == Root(t) && HeavyHasChild(t)
    }

    lemma Settle(c: HCtx<V>, s: HTree<V>)
      requires s.Node? && Hangs(c, s, s.it.id) && HeavyHasChild(s) && CtxHeavy(c, true)
      ensures Settled(Plug(c, s)) && Nodes(Plug(c, s)) == CtxNodes(c) + Nodes(s)
    {
      PlugFits(c, s);
      PlugWhole(c, s);
      PlugRoot(c, s);
      PlugHeavy(c, s);
    }
  
    ghost predicate Valid()
      reads this, Nodes(model)
    {
      Settled(model) && Ordered(model)
    }

    function Deref(s: Slot<V>): Option<AvlNode<V>>
      reads this, match s { case RootSlot => {} case LeftOf(n) => {n} case RightOf(n) => {n} }
    {
      match s
      case RootSlot => root
      case LeftOf(n) => n.left
      case RightOf(n) => n.right
    }

    /** What a slot on the search path points to. */
    lemma SlotHolds(c: HCtx<V>, t: HTree<V>)
      requires Fits(c, t) && Plug(c, t) == model && Settled(model)
      ensures Deref(SlotOf(c)) == Root(t)
      ensures t.Node? ==> t.it.id.key == t.it.key
    {
      PlugWhole(c, t);
      if c.Top? {
        assert root == Root(t);
      } else {
        WholeUp(c, t);
        RootRec(c.up, Fold(c, t));
      }
      if t.Node? { RootRec(c, t); }
    }

    method SearchRoutine(key: string) returns (slot: Slot<V>, parent: Option<AvlNode<V>>)
      requires Settled(model)
      ensures Settled(model)
      ensures var (c, t) := Descend(Top, model, key);
        slot == SlotOf(c) && parent == Above(c) && Deref(slot) == Root(t) && Fits(c, t) && Plug(c, t) == model
    {
      ghost var c, t := Top, model;
      slot, parent := RootSlot, None;
      SlotHolds(c, t);
      var here := root;
      while here.Some?
        invariant Settled(model) && Fits(c, t) && Plug(c, t) == model && here == Root(t)
        invariant slot == SlotOf(c) && parent == Above(c) && Deref(slot) == here
        invariant Descend(c, t, key) == Descend(Top, model, key)
        decreases t
      {
        SlotHolds(c, t);
        var node := here.value;
        var res := StrCmp(node.key, key);
        if res == 0 {
          break;
        }
        parent := here;
        PlugFits(c, t);
        if res < 0 {
          slot := RightOf(node);
          c, t := InRight(c, t.left, t.it), t.right;
        } else {
          slot := LeftOf(node);
          c, t := InLeft(c, t.it, t.right), t.left;
        }
        PlugFits(c, t);
        SlotHolds(c, t);
        here := Deref(slot);
      }
    }

    /** `search_node`: the cell of `key`, if the map has one. */
    method SearchNode(key: string) returns (r: Option<AvlNode<V>>)
      requires Valid()
      ensures match Find(Cells(model), key)
        case None => r == None
        case Some(cell) => r == Some(cell.id)
    {
      var slot, parent := SearchRoutine(key);
      r := Deref(slot);
      DescendFinds(Top, model, key);
      LookupIsFind(model, key);
    }
  
    /** `*slot = n`. */
    method WriteSlot(slot: Slot<V>, n: AvlNode<V>, ghost m: HTable<V>)
      requires Matches(m) && (!slot.RootSlot? ==> slot.node in m)
      modifies this`root, m.Keys
      ensures slot.RootSlot? ==> root == Some(n) && Matches(m)
      ensures !slot.RootSlot? ==> root == old(root)
      ensures slot.LeftOf? ==> Matches(m[slot.node := m[slot.node].(left := Some(n))])
      ensures slot.RightOf? ==> Matches(m[slot.node := m[slot.node].(right := Some(n))])
    {
      match slot
      case RootSlot => root := Some(n);
      case LeftOf(p) => p.left := Some(n);
      case RightOf(p) => p.right := Some(n);
    }

    /** A fresh leaf in the hole where the search ended. */
    method HangLeaf(slot: Slot<V>, n: AvlNode<V>, ghost c: HCtx<V>)
      requires slot == SlotOf(c) && CtxDistinct(c) && n !in CtxNodes(c) && Matches(Whole(c, Leaf)) && root == RootAt(c, None)
      requires Stores(n, Rec(None, None, Above(c), Balanced, n.key, n.value))
      modifies this`root, CtxNodes(c)
      ensures Hangs(c, Fresh(n, n.key, n.value), n)
    {
      FillHole(c, n, n.key, n.value);
      WriteSlot(slot, n, Whole(c, Leaf));
    }

    /** What is known when a search ends at an empty place. */
    lemma EmptyHole(c: HCtx<V>)
      requires Plug(c, Leaf) == model && Settled(model)
      ensures CtxDistinct(c) && CtxNodes(c) == Nodes(model) && Matches(Whole(c, Leaf))
      ensures root == RootAt(c, None) && CtxHeavy(c, false)
    {
      PlugFits(c, Leaf);
      PlugWhole(c, Leaf);
      PlugRoot(c, Leaf);
      PlugHeavy(c, Leaf);
    }

    /** A new node is put into the hole where the search ended, and the tree rebalanced. */
    method Attach(slot: Slot<V>, n: AvlNode<V>, ghost c: HCtx<V>) returns (ghost final: HTree<V>)
      requires slot == SlotOf(c) && CtxDistinct(c) && n !in CtxNodes(c) && Matches(Whole(c, Leaf)) && root == RootAt(c, None)
      requires Stores(n, Rec(None, None, Above(c), Balanced, n.key, n.value)) && CtxHeavy(c, false)
      modifies this`root, CtxNodes(c), n
      ensures final == Climb(AsWritten, c, Fresh(n, old(n.key), old(n.value)))
      ensures Settled(final) && Nodes(final) == CtxNodes(c) + {n}
    {
      ghost var leaf := Fresh(n, n.key, n.value);
      assert Nodes(leaf) == {n};
      HangLeaf(slot, n, c);
      final := RebalanceGrew(n, c, leaf);
    }

    /** The branch of `search_or_create_node` for a key that is not there. */
    method CreateNode(slot: Slot<V>, parent: Option<AvlNode<V>>, key: string, ghost c: HCtx<V>, ghost nodes: set<AvlNode<V>>)
      returns (cell: AvlNode<V>, ghost final: HTree<V>)
      requires Settled(model) && Plug(c, Leaf) == model && slot == SlotOf(c) && parent == Above(c) && nodes == Nodes(model)
      modifies this`root, nodes
      ensures fresh(cell) && final == Climb(AsWritten, c, Fresh(cell, key, zero))
      ensures Settled(final) && Nodes(final) == nodes + {cell}
    {
      EmptyHole(c);
      cell := new AvlNode(key, parent, zero);
      assert cell !in nodes;
      assert Matches(Whole(c, Leaf));
      final := Attach(slot, cell, c);
    }

    /** `search_or_create_node`: the cell of `key`, created if there is none. */
    method SearchOrCreate(key: string) returns (cell: AvlNode<V>)
      requires Valid()
      modifies this, Nodes(model)
      ensures Valid()
      ensures model == Insert(AsWritten, old(model), cell, key, zero)
      ensures match Find(Cells(old(model)), key)
        case Some(found) => cell == found.id && model == old(model) && root == old(root)
        case None => fresh(cell) && Cells(model) == Put(Cells(old(model)), Cell(cell, key, zero))
      ensures Nodes(model) == Nodes(old(model)) + {cell}
    {
      hide Links;
      var slot, parent := SearchRoutine(key);
      ghost var c, t := Descend(Top, model, key).0, Descend(Top, model, key).1;
      var found := Deref(slot);
      DescendFinds(Top, model, key);
      LookupIsFind(model, key);
      if found.Some? {
        cell := found.value;
        PlugFits(c, t);
        InsertPresent(AsWritten, model, cell, key, zero);
      } else {
        ghost var was := model;
        cell, model := CreateNode(slot, parent, key, c, Nodes(model));
        Created(was, cell, key);
      }
    }

    /** What the new tree holds. */
    lemma Created(was: HTree<V>, cell: AvlNode<V>, key: string)
      requires Ordered(was)
      ensures Descend(Top, was, key).1.Leaf? ==>
        var r := Climb(AsWritten, Descend(Top, was, key).0, Fresh(cell, key, zero));
        r == Insert(AsWritten, was, cell, key, zero) && Ordered(r) && Cells(r) == Put(Cells(was), Cell(cell, key, zero))
    {
      if Descend(Top, was, key).1.Leaf? {
        ClimbIsGrow(AsWritten, Top, was, cell, key, zero);
        InsertIsPut(AsWritten, was, cell, key, zero);
        PutSorted(Cells(was), Cell(cell, key, zero));
      }
    }

    method WriteValue(cell: AvlNode<V>, v: V, ghost m: HTable<V>)
      requires Matches(m) && cell in m
      modifies cell`value
      ensures Matches(m[cell := m[cell].(value := v)])
    {
      cell.value := v;
    }

    /** A caller writes a value through a cell it was given. */
    method Store(cell: AvlNode<V>, v: V)
      requires Valid() && cell in Nodes(model)
      modifies this`model, cell`value
      ensures Valid() && model == Written(old(model), cell, v)
      ensures Cells(model) == Overwritten(old(Cells(model)), cell, v)
    {
      ghost var was := model;
      WriteValue(cell, v, Links(was, None));
      model := Written(was, cell, v);
      StoreDone(was, cell, v);
    }

    lemma StoreDone(was: HTree<V>, cell: AvlNode<V>, v: V)
      requires Distinct(was) && HeavyHasChild(was) && Ordered(was) && cell in Nodes(was) && root == Root(was)
      requires Matches(Links(was, None)[cell := Links(was, None)[cell].(value := v)])
      ensures var r := Written(was, cell, v); Settled(r) && Ordered(r) && Cells(r) == Overwritten(Cells(was), cell, v)
    {
      WrittenNodes(was, cell, v);
      WrittenTable(was, cell, v, None);
      WrittenCells(was, cell, v);
      WrittenOrdered(was, cell, v);
      WrittenHeavy(was, cell, v);
    }
  }
}
