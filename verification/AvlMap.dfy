/**
 * Mapping a dumped tree back: the reader takes node structures as they lie in memory,
 * with stale links, and overwrites links as it meets the children.
 */
module AvlMap {
  import opened CStrings
  import opened AvlModel
  import opened AvlLinks
  import opened AvlStream
  import opened AvlHeap

  // ----- a tree that is partly mapped -----

  /** The nodes above the current one. `stale` is the right link of a node whose left
      subtree is being mapped: it still holds what was dumped. */
  datatype PCtx<N, V> =
    | PTop
    | PInLeft(up: PCtx<N, V>, it: Item<N, V>, stale: Option<N>)
    | PInRight(up: PCtx<N, V>, left: Tree<N, V>, it: Item<N, V>)

  /** The current node: nothing, the left side, or both sides mapped. */
  datatype Cur<N, V> =
    | Opened(it: Item<N, V>, staleLeft: Option<N>, staleRight: Option<N>)
    | Half(left: Tree<N, V>, it: Item<N, V>, staleRight: Option<N>)
    | Done(left: Tree<N, V>, it: Item<N, V>, right: Tree<N, V>)

  function PAbove<N, V>(c: PCtx<N, V>): Option<N> {
    if c.PTop? then None else Some(c.it.id)
  }

  ghost function PCtxNodes<N, V>(c: PCtx<N, V>): set<N> {
    match c
    case PTop => {}
    case PInLeft(up, it, _) => PCtxNodes(up) + {it.id}
    case PInRight(up, left, it) => PCtxNodes(up) + Nodes(left) + {it.id}
  }

  ghost function CurNodes<N, V>(k: Cur<N, V>): set<N> {
    match k
    case Opened(it, _, _) => {it.id}
    case Half(left, it, _) => Nodes(left) + {it.id}
    case Done(left, it, right) => Nodes(Node(left, it, right))
  }

  ghost predicate PCtxDistinct<N, V>(c: PCtx<N, V>) {
    match c
    case PTop => true
    case PInLeft(up, it, _) => PCtxDistinct(up) && it.id !in PCtxNodes(up)
    case PInRight(up, left, it) =>
      && PCtxDistinct(up) && Distinct(left) && it.id !in PCtxNodes(up) && it.id !in Nodes(left)
      && PCtxNodes(up) !! Nodes(left)
  }

  ghost predicate PFits<N, V>(c: PCtx<N, V>, k: Cur<N, V>) {
    && PCtxDistinct(c) && PCtxNodes(c) !! CurNodes(k)
    && match k
       case Opened(_, _, _) => true
       case Half(left, it, _) => Distinct(left) && it.id !in Nodes(left)
       case Done(left, it, right) => Distinct(Node(left, it, right))
  }

  ghost function PCtxLinks<N, V>(c: PCtx<N, V>, h: Option<N>): (m: Table<N, V>)
    ensures m.Keys == PCtxNodes(c)
  {
    match c
    case PTop => map[]
    case PInLeft(up, it, stale) => PCtxLinks(up, Some(it.id))[it.id := RecOf(it, h, stale, PAbove(up))]
    case PInRight(up, left, it) =>
      (PCtxLinks(up, Some(it.id)) + Links(left, Some(it.id)))[it.id := RecOf(it, Root(left), h, PAbove(up))]
  }

  ghost function CurLinks<N, V>(k: Cur<N, V>, p: Option<N>): (m: Table<N, V>)
    ensures m.Keys == CurNodes(k)
  {
    match k
    case Opened(it, sl, sr) => map[it.id := RecOf(it, sl, sr, p)]
    case Half(left, it, sr) => Links(left, Some(it.id))[it.id := RecOf(it, Root(left), sr, p)]
    case Done(left, it, right) => Links(Node(left, it, right), p)
  }

  ghost function PTable<N, V>(c: PCtx<N, V>, k: Cur<N, V>): (m: Table<N, V>)
    ensures m.Keys == PCtxNodes(c) + CurNodes(k)
  {
    PCtxLinks(c, Some(k.it.id)) + CurLinks(k, PAbove(c))
  }

  /** The record of the current node. */
  lemma CurRec<N, V>(c: PCtx<N, V>, k: Cur<N, V>)
    ensures k.it.id in PTable(c, k)
    ensures PTable(c, k)[k.it.id] == match k
      case Opened(it, sl, sr) => RecOf(it, sl, sr, PAbove(c))
      case Half(left, it, sr) => RecOf(it, Root(left), sr, PAbove(c))
      case Done(left, it, right) => RecOf(it, Root(left), Root(right), PAbove(c))
  {
  }

  // How the table changes at each step of the reader.

  lemma OpenLeft<N, V>(c: PCtx<N, V>, k: Cur<N, V>, it: Item<N, V>, sl: Option<N>, sr: Option<N>)
    requires PFits(c, k) && k.Opened? && it.id !in PTable(c, k)
    ensures var (c', k') := (PInLeft(c, k.it, k.staleRight), Opened(it, sl, sr));
      && PFits(c', k')
      && PTable(c', k') == PTable(c, k)[k.it.id := PTable(c, k)[k.it.id].(left := Some(it.id))]
                                       [it.id := RecOf(it, sl, sr, Some(k.it.id))]
  {
  }

  lemma OpenRight<N, V>(c: PCtx<N, V>, k: Cur<N, V>, it: Item<N, V>, sl: Option<N>, sr: Option<N>)
    requires PFits(c, k) && k.Half? && it.id !in PTable(c, k)
    ensures var (c', k') := (PInRight(c, k.left, k.it), Opened(it, sl, sr));
      && PFits(c', k')
      && PTable(c', k') == PTable(c, k)[k.it.id := PTable(c, k)[k.it.id].(right := Some(it.id))]
                                       [it.id := RecOf(it, sl, sr, Some(k.it.id))]
  {
  }

  /** A missing child leaves its link as dumped, which is right only if that was NULL. */
  lemma SkipLeft<N, V>(c: PCtx<N, V>, k: Cur<N, V>)
    requires PFits(c, k) && k.Opened? && k.staleLeft.None?
    ensures PFits(c, Half(Leaf, k.it, k.staleRight)) && PTable(c, Half(Leaf, k.it, k.staleRight)) == PTable(c, k)
  {
  }

  lemma SkipRight<N, V>(c: PCtx<N, V>, k: Cur<N, V>)
    requires PFits(c, k) && k.Half? && k.staleRight.None?
    ensures PFits(c, Done(k.left, k.it, Leaf)) && PTable(c, Done(k.left, k.it, Leaf)) == PTable(c, k)
  {
    assert Nodes(Node(k.left, k.it, Leaf)) == Nodes(k.left) + {k.it.id};
    assert Links(k.left, Some(k.it.id)) + map[] == Links(k.left, Some(k.it.id));
  }

  function Close<N, V>(c: PCtx<N, V>, k: Cur<N, V>): Cur<N, V>
    requires !c.PTop? && k.Done?
  {
    if c.PInLeft? then Half(Node(k.left, k.it, k.right), c.it, c.stale)
    else Done(c.left, c.it, Node(k.left, k.it, k.right))
  }

  lemma CloseTable<N, V>(c: PCtx<N, V>, k: Cur<N, V>)
    requires PFits(c, k) && k.Done? && !c.PTop?
    ensures PFits(c.up, Close(c, k)) && PTable(c.up, Close(c, k)) == PTable(c, k)
  {
    var t := Node(k.left, k.it, k.right);
    if c.PInLeft? {
      assert PTable(c, k) == PCtxLinks(c.up, Some(c.it.id))[c.it.id := RecOf(c.it, Root(t), c.stale, PAbove(c.up))] + Links(t, Some(c.it.id));
    } else {
      Shuffle(PCtxLinks(c.up, Some(c.it.id)), Links(c.left, Some(c.it.id)), Links(t, Some(c.it.id)),
              c.it.id, RecOf(c.it, Root(c.left), Root(t), PAbove(c.up)));
    }
  }

  // ----- what the reader will produce -----

  function Forget<N>(n: N): () { () }

  /** A tree without node identities. */
  function Strip<N, V>(t: Tree<N, V>): Tree<(), V> {
    Rename(t, Forget)
  }

  /** How the nodes of the mapped tree, and the places in the file, are named in the outcome. */
  datatype Names<!N, M> = Names(node: N -> M, place: int -> M)

  /** The right subtree read at `pos`, unless it is missing and the dumped link was not NULL. */
  function LoadSide<W>(dec: Reader<W>, mem: Mem, pos: nat, linked: bool): (r: Got<Tree<int, W>>)
    ensures r.Got? ==> pos < r.next <= |mem|
  {
    match Load(dec, mem, pos)
    case Bad => Bad
    case Got(t, end) => if t.Leaf? && linked then Bad else Got(t, end)
  }

  /** The whole tree, when the subtree in the hole of `c` is `t` and the reader is at `pos`. */
  function After<N, M, W>(dec: Reader<W>, mem: Mem, a: Names<N, M>, c: PCtx<N, W>, t: Tree<M, W>, pos: nat): Got<Tree<M, W>>
    decreases c
  {
    match c
    case PTop => Got(t, pos)
    case PInLeft(up, it, stale) =>
      (match LoadSide(dec, mem, pos, stale.Some?)
       case Bad => Bad
       case Got(r, end) => After(dec, mem, a, up, Node(t, RenameItem(it, a.node), Rename(r, a.place)), end))
    case PInRight(up, left, it) => After(dec, mem, a, up, Node(Rename(left, a.node), RenameItem(it, a.node), t), pos)
  }

  /** The whole tree, from the current node. */
  function Outcome<N, M, W>(dec: Reader<W>, mem: Mem, a: Names<N, M>, c: PCtx<N, W>, k: Cur<N, W>, pos: nat): Got<Tree<M, W>> {
    match k
    case Opened(it, sl, sr) =>
      (match LoadSide(dec, mem, pos, sl.Some?)
       case Bad => Bad
       case Got(l, mid) =>
         match LoadSide(dec, mem, mid, sr.Some?)
         case Bad => Bad
         case Got(r, end) => After(dec, mem, a, c, Node(Rename(l, a.place), RenameItem(it, a.node), Rename(r, a.place)), end))
    case Half(left, it, sr) =>
      (match LoadSide(dec, mem, pos, sr.Some?)
       case Bad => Bad
       case Got(r, end) => After(dec, mem, a, c, Node(Rename(left, a.node), RenameItem(it, a.node), Rename(r, a.place)), end))
    case Done(left, it, right) => After(dec, mem, a, c, Rename(Node(left, it, right), a.node), pos)
  }

  /** A node as it has just been taken from memory at `pos`. */
  ghost predicate JustOpened<N, M, W>(dec: Reader<W>, mem: Mem, a: Names<N, M>, pos: nat, k: Cur<N, W>, next: nat) {
    && k.Opened? && NodeAt(mem, pos) && ReadNode(dec, mem, pos).Got? && ReadNode(dec, mem, pos).next == next
    && RenameItem(ReadNode(dec, mem, pos).value, a.place) == RenameItem(k.it, a.node)
    && (k.staleLeft.Some? <==> mem[pos].left != 0) && (k.staleRight.Some? <==> mem[pos].right != 0)
  }

  lemma OutcomeOpens<N, M, W>(dec: Reader<W>, mem: Mem, a: Names<N, M>, pos: nat, k: Cur<N, W>, next: nat)
    requires JustOpened(dec, mem, a, pos, k, next)
    ensures match Load(dec, mem, pos)
      case Bad => Outcome(dec, mem, a, PTop, k, next) == Bad
      case Got(t, end) => Outcome(dec, mem, a, PTop, k, next) == Got(Rename(t, a.place), end)
  {
  }

  lemma OutcomeOpensLeft<N, M, W>(dec: Reader<W>, mem: Mem, a: Names<N, M>, c: PCtx<N, W>, k: Cur<N, W>, pos: nat, k': Cur<N, W>, next: nat)
    requires k.Opened? && JustOpened(dec, mem, a, pos, k', next)
    ensures Outcome(dec, mem, a, PInLeft(c, k.it, k.staleRight), k', next) == Outcome(dec, mem, a, c, k, pos)
  {
  }

  lemma OutcomeOpensRight<N, M, W>(dec: Reader<W>, mem: Mem, a: Names<N, M>, c: PCtx<N, W>, k: Cur<N, W>, pos: nat, k': Cur<N, W>, next: nat)
    requires k.Half? && JustOpened(dec, mem, a, pos, k', next)
    ensures Outcome(dec, mem, a, PInRight(c, k.left, k.it), k', next) == Outcome(dec, mem, a, c, k, pos)
  {
  }

  lemma OutcomeSkips<N, M, W>(dec: Reader<W>, mem: Mem, a: Names<N, M>, c: PCtx<N, W>, k: Cur<N, W>, pos: nat)
    requires EmptyAt(mem, pos) && Outcome(dec, mem, a, c, k, pos).Got? && !k.Done?
    ensures k.Opened? ==> k.staleLeft.None? && Outcome(dec, mem, a, c, Half(Leaf, k.it, k.staleRight), pos + 1) == Outcome(dec, mem, a, c, k, pos)
    ensures k.Half? ==> k.staleRight.None? && Outcome(dec, mem, a, c, Done(k.left, k.it, Leaf), pos + 1) == Outcome(dec, mem, a, c, k, pos)
  {
    assert Load(dec, mem, pos) == Got(Leaf, pos + 1);
    if k.Half? {
      assert Rename(Node(k.left, k.it, Leaf), a.node) == Node(Rename(k.left, a.node), RenameItem(k.it, a.node), Leaf);
    }
  }

  lemma OutcomeCloses<N, M, W>(dec: Reader<W>, mem: Mem, a: Names<N, M>, c: PCtx<N, W>, k: Cur<N, W>, pos: nat)
    requires k.Done? && !c.PTop?
    ensures Outcome(dec, mem, a, c.up, Close(c, k), pos) == Outcome(dec, mem, a, c, k, pos)
  {
  }

  /** A well-formed stream has a structure wherever the reader is still to read one. */
  lemma OutcomeReads<N, M, W>(dec: Reader<W>, mem: Mem, a: Names<N, M>, c: PCtx<N, W>, k: Cur<N, W>, pos: nat)
    requires Outcome(dec, mem, a, c, k, pos).Got? && !k.Done?
    ensures EmptyAt(mem, pos) || NodeAt(mem, pos)
    ensures NodeAt(mem, pos) ==> ReadNode(dec, mem, pos).Got?
  {
  }

  // ----- map_from_memory -----

  function Unnamed<W>(): Names<AvlNode<W>, ()> {
    Names(Forget, Forget)
  }

  ghost function PMarks<V>(c: PCtx<AvlNode<V>, V>): (m: map<AvlNode<V>, Visit>)
    ensures m.Keys <= PCtxNodes(c)
  {
    match c
    case PTop => map[]
    case PInLeft(up, it, _) => PMarks(up)[it.id := Visit(true, false)]
    case PInRight(up, _, it) => PMarks(up)[it.id := Visit(true, true)]
  }

  function Phase<N, V>(k: Cur<N, V>): Visit {
    match k
    case Opened(_, _, _) => Visit(false, false)
    case Half(_, _, _) => Visit(true, false)
    case Done(_, _, _) => Visit(true, true)
  }

  /** The reader is at node `n`; the heap is that of the partly mapped tree. `nodes` are its nodes. */
  ghost predicate MapAt<V>(c: PCtx<AvlNode<V>, V>, k: Cur<AvlNode<V>, V>, n: AvlNode<V>, nodes: set<AvlNode<V>>)
    reads nodes
  {
    && n == k.it.id && nodes == PCtxNodes(c) + CurNodes(k)
    && PFits(c, k) && Matches(PTable(c, k)) && n.visit == Phase(k)
    && forall x :: x in PMarks(c) && x in nodes ==> x.visit == PMarks(c)[x]
  }

  /** Takes the node structure at `pos` as it lies there, with stale links, and reads key and value. */
  method OpenNode<W>(dec: Reader<W>, mem: Mem, pos: nat, junk: AvlNode<W>) returns (n: AvlNode<W>, next: nat)
    requires NodeAt(mem, pos) && ReadNode(dec, mem, pos).Got?
    ensures fresh(n) && next == ReadNode(dec, mem, pos).next && n.visit == Visit(false, false)
    ensures var it := ReadNode(dec, mem, pos).value;
      Stores(n, Rec(Stale(mem[pos].left, junk), Stale(mem[pos].right, junk), Stale(mem[pos].parent, junk), it.bal, it.key, it.value))
  {
    var it := ReadNode(dec, mem, pos).value;
    n := new AvlNode(it.key, Stale(mem[pos].parent, junk), it.value);
    n.left, n.right, n.balance := Stale(mem[pos].left, junk), Stale(mem[pos].right, junk), mem[pos].bal;
    n.visit := Visit(false, false);
    next := ReadNode(dec, mem, pos).next;
  }

  /** A raw address taken for a pointer: some node, which need not be in the tree. */
  function Stale<W>(address: nat, junk: AvlNode<W>): Option<AvlNode<W>> {
    if address == 0 then None else Some(junk)
  }

  /** Links a node just taken from memory as the left child of `n`. */
  method LinkLeft<V>(n: AvlNode<V>, child: AvlNode<V>, ghost c: PCtx<AvlNode<V>, V>, ghost k: Cur<AvlNode<V>, V>,
                     ghost nodes: set<AvlNode<V>>, ghost k': Cur<AvlNode<V>, V>)
    requires MapAt(c, k, n, nodes) && k.Opened? && child !in nodes && child.visit == Visit(false, false)
    requires k'.Opened? && k'.it.id == child && Stores(child, RecOf(k'.it, k'.staleLeft, k'.staleRight, child.parent))
    modifies n, child
    ensures MapAt(PInLeft(c, k.it, k.staleRight), k', child, nodes + {child})
  {
    hide PTable;
    OpenLeft(c, k, k'.it, k'.staleLeft, k'.staleRight);
    assert k.it.id in PTable(c, k);
    WriteLeft(n, child, PTable(c, k), RecOf(k'.it, k'.staleLeft, k'.staleRight, Some(n)));
    AtLeft(c, k, n, nodes, k', child);
  }

  method WriteLeft<V>(n: AvlNode<V>, child: AvlNode<V>, ghost m: HTable<V>, ghost r: Rec<AvlNode<V>, V>)
    requires Matches(m) && n in m && child !in m && Stores(child, r.(parent := child.parent)) && r.parent == Some(n)
    modifies n, child`parent
    ensures Matches(m[n := m[n].(left := Some(child))][child := r])
    ensures n.visit == Visit(true, old(n.visit).right)
  {
    n.left := Some(child);
    child.parent := Some(n);
    n.visit := Visit(true, n.visit.right);
  }

  /** Leaves the left link of `n` as it was dumped. */
  method SkipLeftChild<V>(n: AvlNode<V>, ghost c: PCtx<AvlNode<V>, V>, ghost k: Cur<AvlNode<V>, V>, ghost nodes: set<AvlNode<V>>)
    requires MapAt(c, k, n, nodes) && k.Opened? && k.staleLeft.None?
    modifies n
    ensures MapAt(c, Half(Leaf, k.it, k.staleRight), n, nodes)
  {
    SkipLeft(c, k);
    n.visit := Visit(true, n.visit.right);
  }

  method MapLeft<W>(dec: Reader<W>, mem: Mem, pos: nat, junk: AvlNode<W>, n: AvlNode<W>,
                    ghost c: PCtx<AvlNode<W>, W>, ghost k: Cur<AvlNode<W>, W>, ghost nodes: set<AvlNode<W>>)
    returns (n': AvlNode<W>, next: nat, ghost c': PCtx<AvlNode<W>, W>, ghost k': Cur<AvlNode<W>, W>, ghost nodes': set<AvlNode<W>>)
    requires MapAt(c, k, n, nodes) && k.Opened? && Outcome(dec, mem, Unnamed<W>(), c, k, pos).Got?
    modifies nodes
    ensures MapAt(c', k', n', nodes') && fresh(nodes' - nodes) && nodes <= nodes' && Topmost(c', n') == Topmost(c, n)
    ensures Outcome(dec, mem, Unnamed<W>(), c', k', next) == Outcome(dec, mem, Unnamed<W>(), c, k, pos)
    ensures pos < next <= |mem|
  {
    OutcomeReads(dec, mem, Unnamed<W>(), c, k, pos);
    if NodeAt(mem, pos) {
      n', next := OpenNode(dec, mem, pos, junk);
      k' := Opened(Item(n', n'.key, n'.balance, n'.value), n'.left, n'.right);
      c' := PInLeft(c, k.it, k.staleRight);
      nodes' := nodes + {n'};
      OutcomeOpensLeft(dec, mem, Unnamed<W>(), c, k, pos, k', next);
      LinkLeft(n, n', c, k, nodes, k');
    } else {
      OutcomeSkips(dec, mem, Unnamed<W>(), c, k, pos);
      n', next := n, pos + 1;
      c', k', nodes' := c, Half(Leaf, k.it, k.staleRight), nodes;
      SkipLeftChild(n, c, k, nodes);
    }
  }

  /** Links a node just taken from memory as the right child of `n`. */
  method LinkRight<V>(n: AvlNode<V>, child: AvlNode<V>, ghost c: PCtx<AvlNode<V>, V>, ghost k: Cur<AvlNode<V>, V>,
                     ghost nodes: set<AvlNode<V>>, ghost k': Cur<AvlNode<V>, V>)
    requires MapAt(c, k, n, nodes) && k.Half? && child !in nodes && child.visit == Visit(false, false)
    requires k'.Opened? && k'.it.id == child && Stores(child, RecOf(k'.it, k'.staleLeft, k'.staleRight, child.parent))
    modifies n, child
    ensures MapAt(PInRight(c, k.left, k.it), k', child, nodes + {child})
  {
    hide PTable;
    OpenRight(c, k, k'.it, k'.staleLeft, k'.staleRight);
    assert k.it.id in PTable(c, k);
    WriteRight(n, child, PTable(c, k), RecOf(k'.it, k'.staleLeft, k'.staleRight, Some(n)));
    AtRight(c, k, n, nodes, k', child);
  }

  lemma AtLeft<V>(c: PCtx<AvlNode<V>, V>, k: Cur<AvlNode<V>, V>, n: AvlNode<V>, nodes: set<AvlNode<V>>, k': Cur<AvlNode<V>, V>, child: AvlNode<V>)
    requires k.Opened? && k'.Opened? && n == k.it.id && child == k'.it.id && nodes == PCtxNodes(c) + CurNodes(k)
    requires var c' := PInLeft(c, k.it, k.staleRight); PFits(c', k') && Matches(PTable(c', k'))
    requires child.visit == Visit(false, false) && n.visit == Visit(true, false) && n !in PMarks(c)
    requires forall x :: x in PMarks(c) && x in nodes ==> x.visit == PMarks(c)[x]
    ensures MapAt(PInLeft(c, k.it, k.staleRight), k', child, nodes + {child})
  {
    var c' := PInLeft(c, k.it, k.staleRight);
    assert PCtxNodes(c') == nodes && CurNodes(k') == {child} && child !in nodes;
    forall x | x in PMarks(c') && x in nodes + {child} ensures x.visit == PMarks(c')[x] {
      assert x in nodes;
      assert x != n ==> x in PMarks(c);
    }
  }

  /** The child is the current node now. */
  lemma AtRight<V>(c: PCtx<AvlNode<V>, V>, k: Cur<AvlNode<V>, V>, n: AvlNode<V>, nodes: set<AvlNode<V>>, k': Cur<AvlNode<V>, V>, child: AvlNode<V>)
    requires k.Half? && k'.Opened? && n == k.it.id && child == k'.it.id && nodes == PCtxNodes(c) + CurNodes(k)
    requires var c' := PInRight(c, k.left, k.it); PFits(c', k') && Matches(PTable(c', k'))
    requires child.visit == Visit(false, false) && n.visit == Visit(true, true) && n !in PMarks(c)
    requires forall x :: x in PMarks(c) && x in nodes ==> x.visit == PMarks(c)[x]
    ensures MapAt(PInRight(c, k.left, k.it), k', child, nodes + {child})
  {
    var c' := PInRight(c, k.left, k.it);
    assert PCtxNodes(c') == nodes && CurNodes(k') == {child} && child !in nodes;
    forall x | x in PMarks(c') && x in nodes + {child} ensures x.visit == PMarks(c')[x] {
      assert x in nodes;
      assert x != n ==> x in PMarks(c);
    }
  }

  method WriteRight<V>(n: AvlNode<V>, child: AvlNode<V>, ghost m: HTable<V>, ghost r: Rec<AvlNode<V>, V>)
    requires Matches(m) && n in m && child !in m && Stores(child, r.(parent := child.parent)) && r.parent == Some(n)
    modifies n, child`parent
    ensures Matches(m[n := m[n].(right := Some(child))][child := r])
    ensures n.visit == Visit(old(n.visit).left, true)
  {
    n.right := Some(child);
    child.parent := Some(n);
    n.visit := Visit(n.visit.left, true);
  }

  /** Leaves the right link of `n` as it was dumped. */
  method SkipRightChild<V>(n: AvlNode<V>, ghost c: PCtx<AvlNode<V>, V>, ghost k: Cur<AvlNode<V>, V>, ghost nodes: set<AvlNode<V>>)
    requires MapAt(c, k, n, nodes) && k.Half? && k.staleRight.None?
    modifies n
    ensures MapAt(c, Done(k.left, k.it, Leaf), n, nodes)
  {
    SkipRight(c, k);
    n.visit := Visit(n.visit.left, true);
  }

  method MapRight<W>(dec: Reader<W>, mem: Mem, pos: nat, junk: AvlNode<W>, n: AvlNode<W>,
                    ghost c: PCtx<AvlNode<W>, W>, ghost k: Cur<AvlNode<W>, W>, ghost nodes: set<AvlNode<W>>)
    returns (n': AvlNode<W>, next: nat, ghost c': PCtx<AvlNode<W>, W>, ghost k': Cur<AvlNode<W>, W>, ghost nodes': set<AvlNode<W>>)
    requires MapAt(c, k, n, nodes) && k.Half? && Outcome(dec, mem, Unnamed<W>(), c, k, pos).Got?
    modifies nodes
    ensures MapAt(c', k', n', nodes') && fresh(nodes' - nodes) && nodes <= nodes' && Topmost(c', n') == Topmost(c, n)
    ensures Outcome(dec, mem, Unnamed<W>(), c', k', next) == Outcome(dec, mem, Unnamed<W>(), c, k, pos)
    ensures pos < next <= |mem|
  {
    OutcomeReads(dec, mem, Unnamed<W>(), c, k, pos);
    if NodeAt(mem, pos) {
      n', next := OpenNode(dec, mem, pos, junk);
      k' := Opened(Item(n', n'.key, n'.balance, n'.value), n'.left, n'.right);
      c' := PInRight(c, k.left, k.it);
      nodes' := nodes + {n'};
      OutcomeOpensRight(dec, mem, Unnamed<W>(), c, k, pos, k', next);
      LinkRight(n, n', c, k, nodes, k');
    } else {
      OutcomeSkips(dec, mem, Unnamed<W>(), c, k, pos);
      n', next := n, pos + 1;
      c', k', nodes' := c, Done(k.left, k.it, Leaf), nodes;
      SkipRightChild(n, c, k, nodes);
    }
  }

  /** Back to the parent, when both sides of the current node are mapped. */
  lemma GoBack<V>(c: PCtx<AvlNode<V>, V>, k: Cur<AvlNode<V>, V>, n: AvlNode<V>, nodes: set<AvlNode<V>>)
    requires MapAt(c, k, n, nodes) && k.Done? && !c.PTop?
    ensures n.parent == Some(c.it.id) && c.it.id in nodes && MapAt(c.up, Close(c, k), c.it.id, nodes)
  {
    CurRec(c, k);
    CloseTable(c, k);
    assert c.it.id in PMarks(c);
    forall x | x in PMarks(c.up) && x in nodes ensures x.visit == PMarks(c.up)[x] {
      assert x in PMarks(c) && x != c.it.id;
    }
  }

  ghost function Depth<N, V>(c: PCtx<N, V>): nat {
    if c.PTop? then 0 else 1 + Depth(c.up)
  }

  /** The side of the current node that is next. */
  method MapSide<W>(dec: Reader<W>, mem: Mem, pos: nat, junk: AvlNode<W>, n: AvlNode<W>,
                    ghost c: PCtx<AvlNode<W>, W>, ghost k: Cur<AvlNode<W>, W>, ghost nodes: set<AvlNode<W>>)
    returns (n': AvlNode<W>, next: nat, ghost c': PCtx<AvlNode<W>, W>, ghost k': Cur<AvlNode<W>, W>, ghost nodes': set<AvlNode<W>>)
    requires MapAt(c, k, n, nodes) && !k.Done? && Outcome(dec, mem, Unnamed<W>(), c, k, pos).Got?
    modifies nodes
    ensures MapAt(c', k', n', nodes') && (forall x :: x in nodes' ==> x in nodes || fresh(x)) && Topmost(c', n') == Topmost(c, n)
    ensures Outcome(dec, mem, Unnamed<W>(), c', k', next) == Outcome(dec, mem, Unnamed<W>(), c, k, pos)
    ensures pos < next <= |mem|
  {
    AtNode(c, k, n, nodes);
    if n.visit.left {
      n', next, c', k', nodes' := MapRight(dec, mem, pos, junk, n, c, k, nodes);
    } else {
      n', next, c', k', nodes' := MapLeft(dec, mem, pos, junk, n, c, k, nodes);
    }
  }

  /** Back to the parent. */
  method GoUp<W>(dec: Reader<W>, mem: Mem, pos: nat, n: AvlNode<W>,
                 ghost c: PCtx<AvlNode<W>, W>, ghost k: Cur<AvlNode<W>, W>, ghost nodes: set<AvlNode<W>>)
    returns (n': AvlNode<W>, ghost c': PCtx<AvlNode<W>, W>, ghost k': Cur<AvlNode<W>, W>)
    requires MapAt(c, k, n, nodes) && k.Done? && !c.PTop? && n.parent.Some?
    ensures MapAt(c', k', n', nodes) && Topmost(c', n') == Topmost(c, n) && Depth(c') < Depth(c)
    ensures Outcome(dec, mem, Unnamed<W>(), c', k', pos) == Outcome(dec, mem, Unnamed<W>(), c, k, pos)
  {
    GoBack(c, k, n, nodes);
    OutcomeCloses(dec, mem, Unnamed<W>(), c, k, pos);
    n' := n.parent.value;
    c', k' := c.up, Close(c, k);
  }

  /** The root, as it was taken. */
  method MapRoot<W>(dec: Reader<W>, mem: Mem, pos: nat, junk: AvlNode<W>) returns (top: AvlNode<W>, next: nat, ghost k: Cur<AvlNode<W>, W>)
    requires NodeAt(mem, pos) && mem[pos].parent == 0 && Load(dec, mem, pos).Got?
    ensures fresh(top) && MapAt(PTop, k, top, {top}) && next <= |mem|
    ensures Outcome(dec, mem, Unnamed<W>(), PTop, k, next) == Got(Strip(Load(dec, mem, pos).value), Load(dec, mem, pos).next)
  {
    top, next := OpenNode(dec, mem, pos, junk);
    k := Opened(Item(top, top.key, top.balance, top.value), top.left, top.right);
    OutcomeOpens(dec, mem, Unnamed<W>(), pos, k, next);
  }

  /** What the marks and the parent of the current node say. */
  lemma AtNode<V>(c: PCtx<AvlNode<V>, V>, k: Cur<AvlNode<V>, V>, n: AvlNode<V>, nodes: set<AvlNode<V>>)
    requires MapAt(c, k, n, nodes)
    ensures n in nodes && n.visit == Phase(k) && n.parent == PAbove(c)
  {
    CurRec(c, k);
  }

  /** When both sides of the root are mapped, the tree is. */
  lemma TreeMapped<V>(c: PCtx<AvlNode<V>, V>, k: Cur<AvlNode<V>, V>, n: AvlNode<V>, nodes: set<AvlNode<V>>) returns (t: HTree<V>)
    requires MapAt(c, k, n, nodes) && k.Done? && c.PTop?
    ensures t == Node(k.left, k.it, k.right) && t.it.id == n && Distinct(t) && Nodes(t) == nodes && Matches(Links(t, None))
  {
    t := Node(k.left, k.it, k.right);
    assert PTable(c, k) == Links(t, None);
  }

  /** The loop of `map_subtree_from_memory`. */
  method MapRest<W>(dec: Reader<W>, mem: Mem, pos: nat, junk: AvlNode<W>, top: AvlNode<W>,
                    ghost k0: Cur<AvlNode<W>, W>, ghost goal: Got<Tree<(), W>>)
    returns (next: nat, ghost k: Cur<AvlNode<W>, W>, ghost nodes: set<AvlNode<W>>)
    requires MapAt(PTop, k0, top, {top}) && pos <= |mem| && goal.Got? && Outcome(dec, mem, Unnamed<W>(), PTop, k0, pos) == goal
    modifies top
    ensures MapAt(PTop, k, top, nodes) && k.Done? && Outcome(dec, mem, Unnamed<W>(), PTop, k, next) == goal
    ensures forall x :: x in nodes ==> x == top || fresh(x)
  {
    ghost var c;
    var n := top;
    next, c, k, nodes := pos, PTop, k0, {top};
    while true
      invariant MapAt(c, k, n, nodes) && top == Topmost(c, n) && next <= |mem|
      invariant forall x :: x in nodes ==> x == top || fresh(x)
      invariant Outcome(dec, mem, Unnamed<W>(), c, k, next) == goal
      decreases |mem| - next, Depth(c)
    {
      AtNode(c, k, n, nodes);
      if n.visit.left && n.visit.right {
        if n.parent.None? {
          break;
        }
        n, c, k := GoUp(dec, mem, next, n, c, k, nodes);
      } else {
        n, next, c, k, nodes := MapSide(dec, mem, next, junk, n, c, k, nodes);
      }
    }
  }

  /** `map_subtree_from_memory` for a stream that starts with a node. */
  method MapNodes<W>(dec: Reader<W>, mem: Mem, pos: nat, junk: AvlNode<W>)
    returns (top: AvlNode<W>, next: nat, ghost t: HTree<W>)
    requires NodeAt(mem, pos) && mem[pos].parent == 0 && Load(dec, mem, pos).Got?
    ensures next == Load(dec, mem, pos).next && Strip(t) == Strip(Load(dec, mem, pos).value)
    ensures t.Node? && t.it.id == top && Distinct(t) && Matches(Links(t, None)) && fresh(Nodes(t))
  {
    ghost var k, nodes;
    top, next, k := MapRoot(dec, mem, pos, junk);
    next, k, nodes := MapRest(dec, mem, next, junk, top, k, Outcome(dec, mem, Unnamed<W>(), PTop, k, next));
    t := TreeMapped(PTop, k, top, nodes);
  }

  /** The first node mapped, seen from a node below it. */
  ghost function Topmost<N, V>(c: PCtx<N, V>, n: N): N
    decreases c
  {
    if c.PTop? then n else Topmost(c.up, c.it.id)
  }

  /** `map_from_memory`: the tree written at `pos`, with all links in place, and the place after it. */
  method MapFromMemory<W>(dec: Reader<W>, mem: Mem, pos: nat, junk: AvlNode<W>, zero: W) returns (tree: AvlTree<W>, next: nat)
    requires pos < |mem| && mem[pos].TreeTok? && Load(dec, mem, pos + 1).Got?
    requires NodeAt(mem, pos + 1) ==> mem[pos + 1].parent == 0
    ensures next == Load(dec, mem, pos + 1).next && Strip(tree.model) == Strip(Load(dec, mem, pos + 1).value)
    ensures tree.root == Root(tree.model) && Distinct(tree.model) && Matches(Links(tree.model, None))
    ensures fresh(tree) && fresh(Nodes(tree.model))
  {
    tree := new AvlTree(zero);
    if NodeAt(mem, pos + 1) {
      var top;
      ghost var t;
      top, next, t := MapNodes(dec, mem, pos + 1, junk);
      tree.root := Some(top);
      tree.model := t;
    } else {
      next := pos + 2;
    }
  }
}
