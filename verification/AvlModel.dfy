/**
 * The abstract side of the AVL map: ghost trees that name the heap node of every
 * position, insertion with its upward climb, and the order and height laws.
 * `N` is the type of node identities, `V` the type of values.
 */
module AvlModel {
  import opened CStrings

  datatype Balance = LeftHeavy | Balanced | RightHeavy

  /** One node's own data: its identity, key, recorded balance and value. */
  datatype Item<N, V> = Item(id: N, key: string, bal: Balance, value: V)

  datatype Tree<N, V> = Leaf | Node(left: Tree<N, V>, it: Item<N, V>, right: Tree<N, V>)

  /** A tree with one subtree cut out; the path leads up from the hole. */
  datatype Ctx<N, V> =
    | Top
    | InLeft(up: Ctx<N, V>, it: Item<N, V>, right: Tree<N, V>)
    | InRight(up: Ctx<N, V>, left: Tree<N, V>, it: Item<N, V>)

  /** How a double rotation sets balances: all BALANCED, as the code does, or
      the textbook assignment that accounts for a heavy grandchild. */
  datatype DoubleRule = AsWritten | Textbook

  function Root<N, V>(t: Tree<N, V>): Option<N> {
    if t.Leaf? then None else Some(t.it.id)
  }

  function SetBal<N, V>(t: Tree<N, V>, b: Balance): Tree<N, V>
    requires t.Node?
  {
    t.(it := t.it.(bal := b))
  }

  function Plug<N, V>(c: Ctx<N, V>, t: Tree<N, V>): Tree<N, V>
    decreases c
  {
    match c
    case Top => t
    case InLeft(up, it, right) => Plug(up, Node(t, it, right))
    case InRight(up, left, it) => Plug(up, Node(left, it, t))
  }

  /** The path taken by a search for `k`: the item found, if any. */
  function Lookup<N, V>(t: Tree<N, V>, k: string): Option<Item<N, V>> {
    if t.Leaf? then None
    else
      var c := StrCmp(t.it.key, k);
      if c == 0 then Some(t.it)
      else if c < 0 then Lookup(t.right, k)
      else Lookup(t.left, k)
  }

  /** A tree with other node identities. */
  function Rename<N, M, V>(t: Tree<N, V>, f: N -> M): Tree<M, V> {
    if t.Leaf? then Leaf else Node(Rename(t.left, f), RenameItem(t.it, f), Rename(t.right, f))
  }

  function RenameItem<N, M, V>(it: Item<N, V>, f: N -> M): Item<M, V> {
    Item(f(it.id), it.key, it.bal, it.value)
  }

  // ----- rotations and the growth step -----
  // Where a child that the code dereferences is missing, these functions leave the tree
  // alone. `GrowKeepsHeavyHasChild` and the heap methods show that this never happens.

  function RotateLeftLeft<N, V>(t: Tree<N, V>): Tree<N, V> {
    match t
    case Node(a, p, Node(b, c, d)) =>
      Node(Node(a, p.(bal := Balanced), b), c.(bal := Balanced), d)
    case _ => t
  }

  function RotateRightRight<N, V>(t: Tree<N, V>): Tree<N, V> {
    match t
    case Node(Node(a, c, b), p, d) =>
      Node(a, c.(bal := Balanced), Node(b, p.(bal := Balanced), d))
    case _ => t
  }

  function RotateRightLeft<N, V>(rule: DoubleRule, t: Tree<N, V>): Tree<N, V> {
    match t
    case Node(a, p, Node(Node(b, g, c), ch, d)) =>
      var pb := if rule.Textbook? && g.bal.RightHeavy? then LeftHeavy else Balanced;
      var cb := if rule.Textbook? && g.bal.LeftHeavy? then RightHeavy else Balanced;
      Node(Node(a, p.(bal := pb), b), g.(bal := Balanced), Node(c, ch.(bal := cb), d))
    case _ => t
  }

  function RotateLeftRight<N, V>(rule: DoubleRule, t: Tree<N, V>): Tree<N, V> {
    match t
    case Node(Node(a, ch, Node(b, g, c)), p, d) =>
      var pb := if rule.Textbook? && g.bal.LeftHeavy? then RightHeavy else Balanced;
      var cb := if rule.Textbook? && g.bal.RightHeavy? then LeftHeavy else Balanced;
      Node(Node(a, ch.(bal := cb), b), g.(bal := Balanced), Node(c, p.(bal := pb), d))
    case _ => t
  }

  /** One step of `rebalance_grew`: the left subtree of `t` has grown. The flag says
      whether `t` has grown too, that is, whether the climb goes on. */
  function GrewLeft<N, V>(rule: DoubleRule, t: Tree<N, V>): (Tree<N, V>, bool)
    requires t.Node?
  {
    match t.it.bal
    case RightHeavy => (SetBal(t, Balanced), false)
    case Balanced => (SetBal(t, LeftHeavy), true)
    case LeftHeavy =>
      if t.left.Node? && t.left.it.bal.LeftHeavy? then (RotateRightRight(t), false)
      else (RotateLeftRight(rule, t), false)
  }

  function GrewRight<N, V>(rule: DoubleRule, t: Tree<N, V>): (Tree<N, V>, bool)
    requires t.Node?
  {
    match t.it.bal
    case LeftHeavy => (SetBal(t, Balanced), false)
    case Balanced => (SetBal(t, RightHeavy), true)
    case RightHeavy =>
      if t.right.Node? && t.right.it.bal.RightHeavy? then (RotateLeftLeft(t), false)
      else (RotateRightLeft(rule, t), false)
  }

  // ----- insertion -----

  function Fresh<N, V>(id: N, k: string, v: V): Tree<N, V> {
    Node(Leaf, Item(id, k, Balanced, v), Leaf)
  }

  /** Recursive insertion, with the flag of `GrewLeft` and `GrewRight`. */
  function Grow<N, V>(rule: DoubleRule, t: Tree<N, V>, id: N, k: string, v: V): (Tree<N, V>, bool) {
    if t.Leaf? then (Fresh(id, k, v), true)
    else
      var c := StrCmp(t.it.key, k);
      if c == 0 then (t, false)
      else if c < 0 then
        var (right, grew) := Grow(rule, t.right, id, k, v);
        var t' := Node(t.left, t.it, right);
        if grew then GrewRight(rule, t') else (t', false)
      else
        var (left, grew) := Grow(rule, t.left, id, k, v);
        var t' := Node(left, t.it, t.right);
        if grew then GrewLeft(rule, t') else (t', false)
  }

  function Insert<N, V>(rule: DoubleRule, t: Tree<N, V>, id: N, k: string, v: V): Tree<N, V> {
    Grow(rule, t, id, k, v).0
  }

  // ----- the loop form: walk down to a hole, climb back up -----

  /** The hole where a search for `k` in `t` ends, below context `c`;
      the second part is the subtree there: a leaf, or the node that holds `k`. */
  function Descend<N, V>(c: Ctx<N, V>, t: Tree<N, V>, k: string): (Ctx<N, V>, Tree<N, V>)
    decreases t
  {
    if t.Leaf? then (c, t)
    else
      var r := StrCmp(t.it.key, k);
      if r == 0 then (c, t)
      else if r < 0 then Descend(InRight(c, t.left, t.it), t.right, k)
      else Descend(InLeft(c, t.it, t.right), t.left, k)
  }

  /** `rebalance_grew`: `s` hangs in `c` and has grown. */
  function Climb<N, V>(rule: DoubleRule, c: Ctx<N, V>, s: Tree<N, V>): Tree<N, V>
    decreases c
  {
    match c
    case Top => s
    case InLeft(up, it, right) =>
      var (t, grew) := GrewLeft(rule, Node(s, it, right));
      if grew then Climb(rule, up, t) else Plug(up, t)
    case InRight(up, left, it) =>
      var (t, grew) := GrewRight(rule, Node(left, it, s));
      if grew then Climb(rule, up, t) else Plug(up, t)
  }

  /** The search that stops at a node finds what `Lookup` finds. */
  lemma {:induction false} DescendFinds<N, V>(c: Ctx<N, V>, t: Tree<N, V>, k: string)
    ensures var t' := Descend(c, t, k).1; Lookup(t, k) == if t'.Leaf? then None else Some(t'.it)
    decreases t
  {
    if t.Node? {
      if StrCmp(t.it.key, k) < 0 {
        DescendFinds(InRight(c, t.left, t.it), t.right, k);
      } else if StrCmp(t.it.key, k) > 0 {
        DescendFinds(InLeft(c, t.it, t.right), t.left, k);
      }
    }
  }

  /** The loop form of insertion computes what the recursive form computes. */
  lemma {:induction false} ClimbIsGrow<N, V>(rule: DoubleRule, c: Ctx<N, V>, t: Tree<N, V>, id: N, k: string, v: V)
    requires Descend(c, t, k).1.Leaf?
    ensures var (t', grew) := Grow(rule, t, id, k, v);
      Climb(rule, Descend(c, t, k).0, Fresh(id, k, v)) == if grew then Climb(rule, c, t') else Plug(c, t')
    decreases t
  {
    if t.Node? {
      if StrCmp(t.it.key, k) < 0 {
        ClimbIsGrow(rule, InRight(c, t.left, t.it), t.right, id, k, v);
      } else {
        ClimbIsGrow(rule, InLeft(c, t.it, t.right), t.left, id, k, v);
      }
    }
  }

  /** A key that is there changes nothing. */
  lemma {:induction false} InsertPresent<N, V>(rule: DoubleRule, t: Tree<N, V>, id: N, k: string, v: V)
    requires Lookup(t, k).Some?
    ensures Grow(rule, t, id, k, v) == (t, false)
  {
    if StrCmp(t.it.key, k) < 0 {
      InsertPresent(rule, t.right, id, k, v);
    } else if StrCmp(t.it.key, k) > 0 {
      InsertPresent(rule, t.left, id, k, v);
    }
  }

  /** The tree after a caller has written a value through the cell of a node. */
  function Written<N(==), V>(t: Tree<N, V>, id: N, v: V): (r: Tree<N, V>)
    ensures Root(r) == Root(t)
  {
    if t.Leaf? then Leaf
    else Node(Written(t.left, id, v), if t.it.id == id then t.it.(value := v) else t.it, Written(t.right, id, v))
  }

  // ----- what holds of the code as written -----

  /** Every side that is marked heavy has a child there. */
  predicate HeavyHasChild<N, V>(t: Tree<N, V>) {
    t.Node? ==>
      && (t.it.bal.LeftHeavy? ==> t.left.Node?)
      && (t.it.bal.RightHeavy? ==> t.right.Node?)
      && HeavyHasChild(t.left) && HeavyHasChild(t.right)
  }

  lemma {:induction false} WrittenHeavy<N, V>(t: Tree<N, V>, id: N, v: V)
    ensures HeavyHasChild(Written(t, id, v)) <==> HeavyHasChild(t)
  {
    if t.Node? {
      WrittenHeavy(t.left, id, v);
      WrittenHeavy(t.right, id, v);
    }
  }

  /** A grown subtree is a fresh leaf where there was no node before, or is marked heavy. */
  predicate GrownIn<N, V>(wasLeaf: bool, t: Tree<N, V>) {
    t.Node? && HeavyHasChild(t) && (wasLeaf || !t.it.bal.Balanced?)
  }

  lemma GrewLeftKeepsHeavyHasChild<N, V>(t: Tree<N, V>)
    requires t.Node? && HeavyHasChild(t.right) && (t.it.bal.RightHeavy? ==> t.right.Node?)
    requires GrownIn(!t.it.bal.LeftHeavy?, t.left)
    ensures var (r, grew) := GrewLeft(AsWritten, t); HeavyHasChild(r) && r.Node? && (grew ==> GrownIn(false, r))
    ensures t.it.bal.LeftHeavy? && !t.left.it.bal.LeftHeavy? ==> t.left.right.Node?
  {
    if t.it.bal.LeftHeavy? && !t.left.it.bal.LeftHeavy? {
      assert HeavyHasChild(t.left.right);
    }
  }

  lemma GrewRightKeepsHeavyHasChild<N, V>(t: Tree<N, V>)
    requires t.Node? && HeavyHasChild(t.left) && (t.it.bal.LeftHeavy? ==> t.left.Node?)
    requires GrownIn(!t.it.bal.RightHeavy?, t.right)
    ensures var (r, grew) := GrewRight(AsWritten, t); HeavyHasChild(r) && r.Node? && (grew ==> GrownIn(false, r))
    ensures t.it.bal.RightHeavy? && !t.right.it.bal.RightHeavy? ==> t.right.left.Node?
  {
    if t.it.bal.RightHeavy? && !t.right.it.bal.RightHeavy? {
      assert HeavyHasChild(t.right.left);
    }
  }

  lemma {:induction false} GrowKeepsHeavyHasChild<N, V>(t: Tree<N, V>, id: N, k: string, v: V)
    requires HeavyHasChild(t)
    ensures var (r, grew) := Grow(AsWritten, t, id, k, v); HeavyHasChild(r) && r.Node? && (grew ==> GrownIn(t.Leaf?, r))
  {
    if t.Node? {
      var c := StrCmp(t.it.key, k);
      if c < 0 {
        GrowKeepsHeavyHasChild(t.right, id, k, v);
        var (right, grew) := Grow(AsWritten, t.right, id, k, v);
        if grew { GrewRightKeepsHeavyHasChild(Node(t.left, t.it, right)); }
      } else if c > 0 {
        GrowKeepsHeavyHasChild(t.left, id, k, v);
        var (left, grew) := Grow(AsWritten, t.left, id, k, v);
        if grew { GrewLeftKeepsHeavyHasChild(Node(left, t.it, t.right)); }
      }
    }
  }

  /** The part of `HeavyHasChild` that concerns a context; `full` says that the hole holds a node. */
  predicate CtxHeavy<N, V>(c: Ctx<N, V>, full: bool) {
    match c
    case Top => true
    case InLeft(up, it, right) =>
      && (it.bal.LeftHeavy? ==> full) && (it.bal.RightHeavy? ==> right.Node?)
      && HeavyHasChild(right) && CtxHeavy(up, true)
    case InRight(up, left, it) =>
      && (it.bal.RightHeavy? ==> full) && (it.bal.LeftHeavy? ==> left.Node?)
      && HeavyHasChild(left) && CtxHeavy(up, true)
  }

  lemma {:induction false} PlugHeavy<N, V>(c: Ctx<N, V>, t: Tree<N, V>)
    ensures HeavyHasChild(Plug(c, t)) <==> HeavyHasChild(t) && CtxHeavy(c, t.Node?)
    decreases c
  {
    match c
    case Top =>
    case InLeft(up, it, right) => PlugHeavy(up, Node(t, it, right));
    case InRight(up, left, it) => PlugHeavy(up, Node(left, it, t));
  }
}
