/** Runs of calls on one map on the heap, against the tree that the run gives on values. */
module AvlRuns {
  import opened CStrings
  import opened AvlModel
  import opened AvlOrder
  import opened AvlLinks
  import opened AvlHeap

  // ----- insertion does not look at node identities -----

  lemma SingleRenamed<N, M, V>(t: Tree<N, V>, f: N -> M)
    ensures RotateLeftLeft(Rename(t, f)) == Rename(RotateLeftLeft(t), f)
    ensures RotateRightRight(Rename(t, f)) == Rename(RotateRightRight(t), f)
  {
    match t
    case Node(Node(a, c, b), p, d) =>
    case _ =>
  }

  lemma RightLeftRenamed<N, M, V>(rule: DoubleRule, t: Tree<N, V>, f: N -> M)
    ensures RotateRightLeft(rule, Rename(t, f)) == Rename(RotateRightLeft(rule, t), f)
  {
    if t.Node? && t.right.Node? {
      OneLevel(t, f);
      OneLevel(t.right, f);
      if t.right.left.Node? {
        OneLevel(t.right.left, f);
        var r := RotateRightLeft(rule, t);
        OneLevel(r.left, f);
        OneLevel(r.right, f);
      }
    }
  }

  lemma LeftRightRenamed<N, M, V>(rule: DoubleRule, t: Tree<N, V>, f: N -> M)
    ensures RotateLeftRight(rule, Rename(t, f)) == Rename(RotateLeftRight(rule, t), f)
  {
    if t.Node? && t.left.Node? {
      OneLevel(t, f);
      OneLevel(t.left, f);
      if t.left.right.Node? {
        OneLevel(t.left.right, f);
        var r := RotateLeftRight(rule, t);
        OneLevel(r.left, f);
        OneLevel(r.right, f);
      }
    }
  }

  lemma OneLevel<N, M, V>(t: Tree<N, V>, f: N -> M)
    requires t.Node?
    ensures Rename(t, f) == Node(Rename(t.left, f), RenameItem(t.it, f), Rename(t.right, f))
  {
  }

  lemma GrewLeftRenamed<N, M, V>(rule: DoubleRule, t: Tree<N, V>, f: N -> M)
    requires t.Node?
    ensures GrewLeft(rule, Rename(t, f)) == (Rename(GrewLeft(rule, t).0, f), GrewLeft(rule, t).1)
  {
    if t.it.bal.LeftHeavy? {
      SingleRenamed(t, f);
      LeftRightRenamed(rule, t, f);
    }
  }

  lemma GrewRightRenamed<N, M, V>(rule: DoubleRule, t: Tree<N, V>, f: N -> M)
    requires t.Node?
    ensures GrewRight(rule, Rename(t, f)) == (Rename(GrewRight(rule, t).0, f), GrewRight(rule, t).1)
  {
    if t.it.bal.RightHeavy? {
      SingleRenamed(t, f);
      RightLeftRenamed(rule, t, f);
    }
  }

  lemma {:induction false} GrowRenamed<N, M, V>(rule: DoubleRule, t: Tree<N, V>, f: N -> M, id: N, k: string, v: V)
    ensures Grow(rule, Rename(t, f), f(id), k, v) == (Rename(Grow(rule, t, id, k, v).0, f), Grow(rule, t, id, k, v).1)
  {
    if t.Node? {
      var c := StrCmp(t.it.key, k);
      if c < 0 {
        GrowRenamed(rule, t.right, f, id, k, v);
        GrewRightRenamed(rule, Node(t.left, t.it, Grow(rule, t.right, id, k, v).0), f);
      } else if c > 0 {
        GrowRenamed(rule, t.left, f, id, k, v);
        GrewLeftRenamed(rule, Node(Grow(rule, t.left, id, k, v).0, t.it, t.right), f);
      }
    }
  }

  lemma SingleNodes<N, V>(t: Tree<N, V>)
    ensures Nodes(RotateLeftLeft(t)) == Nodes(t) == Nodes(RotateRightRight(t))
  {
  }

  lemma RightLeftNodes<N, V>(rule: DoubleRule, t: Tree<N, V>)
    ensures Nodes(RotateRightLeft(rule, t)) == Nodes(t)
  {
    if t.Node? && t.right.Node? && t.right.left.Node? {
      var r := RotateRightLeft(rule, t);
      assert Nodes(t.right) == Nodes(t.right.left) + {t.right.it.id} + Nodes(t.right.right);
      assert Nodes(r) == Nodes(r.left) + {r.it.id} + Nodes(r.right);
    }
  }

  lemma LeftRightNodes<N, V>(rule: DoubleRule, t: Tree<N, V>)
    ensures Nodes(RotateLeftRight(rule, t)) == Nodes(t)
  {
    if t.Node? && t.left.Node? && t.left.right.Node? {
      var r := RotateLeftRight(rule, t);
      assert Nodes(t.left) == Nodes(t.left.left) + {t.left.it.id} + Nodes(t.left.right);
      assert Nodes(r) == Nodes(r.left) + {r.it.id} + Nodes(r.right);
    }
  }

  lemma GrewNodes<N, V>(rule: DoubleRule, t: Tree<N, V>)
    requires t.Node?
    ensures Nodes(GrewLeft(rule, t).0) == Nodes(t) == Nodes(GrewRight(rule, t).0)
  {
    SingleNodes(t);
    RightLeftNodes(rule, t);
    LeftRightNodes(rule, t);
  }

  lemma {:induction false} GrowNodes<N, V>(rule: DoubleRule, t: Tree<N, V>, id: N, k: string, v: V)
    ensures Nodes(t) <= Nodes(Grow(rule, t, id, k, v).0) <= Nodes(t) + {id}
  {
    if t.Node? {
      var c := StrCmp(t.it.key, k);
      if c < 0 {
        GrowNodes(rule, t.right, id, k, v);
        GrewNodes(rule, Node(t.left, t.it, Grow(rule, t.right, id, k, v).0));
      } else if c > 0 {
        GrowNodes(rule, t.left, id, k, v);
        GrewNodes(rule, Node(Grow(rule, t.left, id, k, v).0, t.it, t.right));
      }
    }
  }

  /** A write finds its node under either name, when no other node has the new one. */
  lemma {:induction false} WrittenRenamed<N, M, V>(t: Tree<N, V>, f: N -> M, id: N, v: V)
    requires forall n :: n in Nodes(t) && f(n) == f(id) ==> n == id
    ensures Written(Rename(t, f), f(id), v) == Rename(Written(t, id, v), f)
  {
    if t.Node? {
      WrittenRenamed(t.left, f, id, v);
      WrittenRenamed(t.right, f, id, v);
    }
  }

  lemma {:induction false} SameRenamed<N, M, V>(t: Tree<N, V>, f: N -> M, g: N -> M)
    requires forall n :: n in Nodes(t) ==> f(n) == g(n)
    ensures Rename(t, f) == Rename(t, g)
  {
    if t.Node? {
      SameRenamed(t.left, f, g);
      SameRenamed(t.right, f, g);
    }
  }

  /** What stands under a key stands there under either name. */
  lemma {:induction false} LookupRenamed<N, M, V>(t: Tree<N, V>, f: N -> M, k: string)
    ensures Lookup(Rename(t, f), k) == match Lookup(t, k) case None => None case Some(it) => Some(RenameItem(it, f))
  {
    if t.Node? {
      LookupRenamed(t.left, f, k);
      LookupRenamed(t.right, f, k);
    }
  }

  function Known<N>(n: N): Option<N> { Some(n) }

  /** Nodes with different places keep them apart when the renamed trees are the same. */
  lemma {:induction false} NamesApart<N, M, V>(h: Tree<M, V>, t: Tree<N, V>, f: N -> Option<M>, i: N, j: N)
    requires Distinct(h) && Rename(h, Known) == Rename(t, f) && i in Nodes(t) && j in Nodes(t) && f(i) == f(j)
    ensures i == j
  {
    SidesNamed(h, t, Known, f);
    if i in Nodes(t.left) { NodeNamed(h.left, t.left, f, i); }
    if i in Nodes(t.right) { NodeNamed(h.right, t.right, f, i); }
    if j in Nodes(t.left) { NodeNamed(h.left, t.left, f, j); }
    if j in Nodes(t.right) { NodeNamed(h.right, t.right, f, j); }
    if i in Nodes(t.left) && j in Nodes(t.left) {
      NamesApart(h.left, t.left, f, i, j);
    } else if i in Nodes(t.right) && j in Nodes(t.right) {
      NamesApart(h.right, t.right, f, i, j);
    }
  }

  lemma {:induction false} SidesNamed<N, M, L, V>(h: Tree<M, V>, t: Tree<N, V>, g: M -> L, f: N -> L)
    requires Rename(h, g) == Rename(t, f) && t.Node?
    ensures h.Node? && Rename(h.left, g) == Rename(t.left, f) && Rename(h.right, g) == Rename(t.right, f)
    ensures f(t.it.id) == g(h.it.id)
  {
  }

  lemma {:induction false} NodeNamed<N, M, V>(h: Tree<M, V>, t: Tree<N, V>, f: N -> Option<M>, i: N)
    requires Rename(h, Known) == Rename(t, f) && i in Nodes(t)
    ensures f(i).Some? && f(i).value in Nodes(h)
  {
    if i in Nodes(t.left) {
      NodeNamed(h.left, t.left, f, i);
    } else if i in Nodes(t.right) {
      NodeNamed(h.right, t.right, f, i);
    }
  }

  // ----- runs -----

  /** A write goes through a cell that an earlier step gave. */
  ghost predicate Proper<V>(ops: seq<Op<V>>) {
    forall n :: 0 <= n < |ops| && ops[n].Store? ==> 0 <= ops[n].step < n && ops[ops[n].step].Create?
  }

  /** The node that a step of the run gave. */
  function Named<V>(cells: seq<AvlNode<V>>): int -> Option<AvlNode<V>> {
    (i: int) => if 0 <= i < |cells| then Some(cells[i]) else None
  }

  /** The tree on the heap is the tree of the run: same shape, keys, balances and values, and every
      node the one that was given to the caller when its key was first asked for. */
  ghost predicate Follows<V>(h: HTree<V>, ops: seq<Op<V>>, zero: V, cells: seq<AvlNode<V>>) {
    && |cells| == |ops|
    && Rename(h, Known) == Rename(AfterOps(AsWritten, ops, zero), Named(cells))
    && forall i {:trigger Given(ops, i)} :: 0 <= i < |ops| && ops[i].Create? ==> Given(ops, i).Some? && cells[i] == cells[Given(ops, i).value]
  }

  lemma {:induction false} PlacesInRun<V>(ops: seq<Op<V>>, zero: V)
    ensures forall i :: i in Nodes(AfterOps(AsWritten, ops, zero)) ==> 0 <= i < |ops|
  {
    if ops != [] {
      var n := |ops| - 1;
      var t := AfterOps(AsWritten, ops[..n], zero);
      PlacesInRun(ops[..n], zero);
      match ops[n]
      case Create(k) => GrowNodes(AsWritten, t, n, k, zero);
      case Store(step, v) => if Given(ops[..n], step).Some? { WrittenNodes(t, Given(ops[..n], step).value, v); }
    }
  }

  /** A longer list of cells names the places of the run as before. */
  lemma MoreCells<V>(t: Tree<int, V>, ops: seq<Op<V>>, zero: V, cells: seq<AvlNode<V>>, cell: AvlNode<V>)
    requires |cells| == |ops| && Nodes(t) == Nodes(AfterOps(AsWritten, ops, zero))
    ensures Rename(t, Named(cells + [cell])) == Rename(t, Named(cells))
  {
    PlacesInRun(ops, zero);
    SameRenamed(t, Named(cells + [cell]), Named(cells));
  }

  lemma CreationSnoc<V>(ops: seq<Op<V>>, op: Op<V>, k: string)
    ensures Creation(ops + [op], k) == if Creation(ops, k).Some? then Creation(ops, k) else if op == Create(k) then Some(|ops|) else None
  {
    assert (ops + [op])[..|ops|] == ops;
  }

  /** What was given stays given. */
  lemma GivenSnoc<V>(ops: seq<Op<V>>, op: Op<V>, i: int)
    requires 0 <= i < |ops| && Given(ops, i).Some?
    ensures Given(ops + [op], i) == Given(ops, i)
  {
    CreationSnoc(ops, op, ops[i].key);
  }

  lemma GivesMore<V>(h: HTree<V>, ops: seq<Op<V>>, op: Op<V>, zero: V, cells: seq<AvlNode<V>>, cell: AvlNode<V>)
    requires Follows(h, ops, zero, cells)
    requires op.Create? ==> Creation(ops + [op], op.key).Some? && cell == (cells + [cell])[Creation(ops + [op], op.key).value]
    ensures forall i {:trigger Given(ops + [op], i)} :: 0 <= i < |ops| + 1 && (ops + [op])[i].Create? ==>
      Given(ops + [op], i).Some? && (cells + [cell])[i] == (cells + [cell])[Given(ops + [op], i).value]
  {
    forall i | 0 <= i < |ops| + 1 && (ops + [op])[i].Create?
      ensures Given(ops + [op], i).Some? && (cells + [cell])[i] == (cells + [cell])[Given(ops + [op], i).value]
    {
      if i < |ops| {
        assert Given(ops, i).Some?;
        GivenSnoc(ops, op, i);
      }
    }
  }

  /** What stands under a key after the run, on the heap. */
  lemma FoundInRun<V>(h: HTree<V>, ops: seq<Op<V>>, zero: V, cells: seq<AvlNode<V>>, k: string)
    requires Follows(h, ops, zero, cells) && Ordered(h)
    ensures Find(Cells(h), k) == match Creation(ops, k)
      case None => None
      case Some(c) => Some(Cell(cells[c], k, LastValue(ops, c, zero)))
  {
    var t := AfterOps(AsWritten, ops, zero);
    StoresMeaning(AsWritten, ops, zero, k);
    LookupIsFind(t, k);
    LookupIsFind(h, k);
    LookupRenamed(h, Known, k);
    LookupRenamed(t, Named(cells), k);
  }

  lemma CreatedStep<V>(h: HTree<V>, ops: seq<Op<V>>, zero: V, cells: seq<AvlNode<V>>, k: string, cell: AvlNode<V>)
    requires Follows(h, ops, zero, cells) && Ordered(h)
    requires Find(Cells(h), k).Some? ==> cell == Find(Cells(h), k).value.id
    ensures Follows(Insert(AsWritten, h, cell, k, zero), ops + [Create(k)], zero, cells + [cell])
  {
    var t, f, n := AfterOps(AsWritten, ops, zero), Named(cells + [cell]), |ops|;
    FoundInRun(h, ops, zero, cells, k);
    CreationSnoc(ops, Create(k), k);
    GivesMore(h, ops, Create(k), zero, cells, cell);
    MoreCells(t, ops, zero, cells, cell);
    assert (ops + [Create(k)])[..n] == ops;
    if Find(Cells(h), k).Some? {
      LookupIsFind(h, k);
      StoresMeaning(AsWritten, ops, zero, k);
      LookupIsFind(t, k);
      InsertPresent(AsWritten, h, cell, k, zero);
      InsertPresent(AsWritten, t, n, k, zero);
    } else {
      GrowRenamed(AsWritten, h, Known, cell, k, zero);
      GrowRenamed(AsWritten, t, f, n, k, zero);
    }
  }

  lemma StoredStep<V>(h: HTree<V>, ops: seq<Op<V>>, zero: V, cells: seq<AvlNode<V>>, step: int, v: V)
    requires Follows(h, ops, zero, cells) && Ordered(h) && Distinct(h) && 0 <= step < |ops| && ops[step].Create?
    ensures cells[step] in Nodes(h)
    ensures Follows(Written(h, cells[step], v), ops + [Store(step, v)], zero, cells + [cells[step]])
  {
    var op, cell := Store(step, v), cells[step];
    var t, f, c := AfterOps(AsWritten, ops, zero), Named(cells), Given(ops, step).value;
    assert Given(ops, step).Some?;
    GivenInTree(ops, zero, step);
    NodeNamed(h, t, f, c);
    forall n | n in Nodes(t) && f(n) == f(c) ensures n == c { NamesApart(h, t, f, n, c); }
    WrittenRenamed(h, Known, cell, v);
    WrittenRenamed(t, f, c, v);
    WrittenNodes(t, c, v);
    MoreCells(Written(t, c, v), ops, zero, cells, cell);
    GivesMore(h, ops, op, zero, cells, cell);
    assert (ops + [op])[..|ops|] == ops;
  }

  lemma {:induction false} LookupInTree<N, V>(t: Tree<N, V>, k: string)
    requires Lookup(t, k).Some?
    ensures Lookup(t, k).value.id in Nodes(t)
  {
    var c := StrCmp(t.it.key, k);
    if c < 0 { LookupInTree(t.right, k); } else if c > 0 { LookupInTree(t.left, k); }
  }

  lemma GivenInTree<V>(ops: seq<Op<V>>, zero: V, step: int)
    requires Given(ops, step).Some?
    ensures Given(ops, step).value in Nodes(AfterOps(AsWritten, ops, zero))
  {
    var t := AfterOps(AsWritten, ops, zero);
    StoresMeaning(AsWritten, ops, zero, ops[step].key);
    LookupIsFind(t, ops[step].key);
    LookupInTree(t, ops[step].key);
  }

  /** One step. */
  method RunOne<V>(tree: AvlTree<V>, op: Op<V>, cells: seq<AvlNode<V>>, ghost ops: seq<Op<V>>) returns (cell: AvlNode<V>)
    requires tree.Valid() && Follows(tree.model, ops, tree.zero, cells)
    requires op.Store? ==> 0 <= op.step < |ops| && ops[op.step].Create?
    modifies tree, Nodes(tree.model)
    ensures tree.Valid() && Follows(tree.model, ops + [op], tree.zero, cells + [cell])
    ensures fresh(Nodes(tree.model) - old(Nodes(tree.model)))
  {
    ghost var was := tree.model;
    match op
    case Create(k) =>
      cell := tree.SearchOrCreate(k);
      CreatedStep(was, ops, tree.zero, cells, k, cell);
    case Store(step, v) =>
      cell := cells[step];
      StoredStep(was, ops, tree.zero, cells, step, v);
      WrittenNodes(was, cell, v);
      tree.Store(cell, v);
  }

  /** Every run of calls on a new map follows the tree of the run, and each key has, whatever was
      inserted and rotated in between, the cell first given for it with the value last written. */
  method RunOps<V>(ops: seq<Op<V>>, zero: V) returns (tree: AvlTree<V>, cells: seq<AvlNode<V>>)
    requires Proper(ops)
    ensures tree.Valid() && Follows(tree.model, ops, zero, cells)
    ensures forall k {:trigger Creation(ops, k)} :: Find(Cells(tree.model), k) == match Creation(ops, k)
      case None => None
      case Some(c) => Some(Cell(cells[c], k, LastValue(ops, c, zero)))
  {
    tree := new AvlTree(zero);
    cells := [];
    for i := 0 to |ops|
      invariant fresh(tree) && fresh(Nodes(tree.model)) && tree.Valid() && tree.zero == zero
      invariant Follows(tree.model, ops[..i], zero, cells)
    {
      assert ops[..i + 1] == ops[..i] + [ops[i]];
      var cell := RunOne(tree, ops[i], cells, ops[..i]);
      cells := cells + [cell];
    }
    assert ops[..|ops|] == ops;
    forall k { FoundInRun(tree.model, ops, zero, cells, k); }
  }
}
