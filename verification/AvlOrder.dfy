/**
 * The AVL map refines a sorted association list: what insertion and search mean,
 * for either double-rotation rule and over whole runs.
 */
module AvlOrder {
  import opened CStrings
  import opened AvlModel

  /** What a caller can see of a node: its identity (the address of its value cell), key and value. */
  datatype Cell<N, V> = Cell(id: N, key: string, value: V)

  function CellOf<N, V>(it: Item<N, V>): Cell<N, V> {
    Cell(it.id, it.key, it.value)
  }

  function Cells<N, V>(t: Tree<N, V>): seq<Cell<N, V>> {
    if t.Leaf? then [] else Cells(t.left) + [CellOf(t.it)] + Cells(t.right)
  }

  ghost predicate Sorted<N, V>(s: seq<Cell<N, V>>) {
    forall i, j :: 0 <= i < j < |s| ==> Less(s[i].key, s[j].key)
  }

  /** Strict search order. */
  ghost predicate Ordered<N, V>(t: Tree<N, V>) {
    Sorted(Cells(t))
  }

  // ----- the association list -----

  function Find<N, V>(s: seq<Cell<N, V>>, k: string): Option<Cell<N, V>> {
    if s == [] then None else if s[0].key == k then Some(s[0]) else Find(s[1..], k)
  }

  /** Adds a cell for a new key; a key that is there keeps its cell. */
  function Put<N, V>(s: seq<Cell<N, V>>, x: Cell<N, V>): seq<Cell<N, V>> {
    if s == [] then [x]
    else if s[0].key == x.key then s
    else if Less(s[0].key, x.key) then [s[0]] + Put(s[1..], x)
    else [x] + s
  }

  lemma {:induction false} PutMembers<N, V>(s: seq<Cell<N, V>>, x: Cell<N, V>)
    ensures forall c :: c in Put(s, x) ==> c in s || c == x
  {
    if s != [] { PutMembers(s[1..], x); }
  }

  lemma {:induction false} PutSorted<N, V>(s: seq<Cell<N, V>>, x: Cell<N, V>)
    requires Sorted(s)
    ensures Sorted(Put(s, x))
  {
    if s != [] && s[0].key != x.key {
      LessTotal(s[0].key, x.key);
      if Less(s[0].key, x.key) {
        PutSorted(s[1..], x);
        PutMembers(s[1..], x);
        HeadBelow(s, Put(s[1..], x), x);
      } else {
        forall j | 0 < j < |s| ensures Less(x.key, s[j].key) {
          LessTransitive(x.key, s[0].key, s[j].key);
        }
      }
    }
  }

  lemma HeadBelow<N, V>(s: seq<Cell<N, V>>, p: seq<Cell<N, V>>, x: Cell<N, V>)
    requires s != [] && Sorted(s) && Less(s[0].key, x.key)
    requires forall c :: c in p ==> c in s[1..] || c == x
    ensures forall j :: 0 <= j < |p| ==> Less(s[0].key, p[j].key)
  {
    forall j | 0 <= j < |p| ensures Less(s[0].key, p[j].key) {
      assert p[j] in p;
    }
  }

  lemma {:induction false} PutFind<N, V>(s: seq<Cell<N, V>>, x: Cell<N, V>, k: string)
    requires Sorted(s)
    ensures Find(Put(s, x), k) == if k == x.key && Find(s, k).None? then Some(x) else Find(s, k)
  {
    if s != [] && s[0].key != x.key {
      LessTotal(s[0].key, x.key);
      if Less(s[0].key, x.key) {
        PutFind(s[1..], x, k);
      } else {
        FindAbove(s, x.key);
      }
    }
  }

  lemma {:induction false} FindAbove<N, V>(s: seq<Cell<N, V>>, k: string)
    requires Sorted(s) && (s != [] ==> Less(k, s[0].key))
    ensures Find(s, k).None?
  {
    if s != [] {
      LessTotal(k, s[0].key);
      if |s| > 1 { LessTransitive(k, s[0].key, s[1].key); }
      FindAbove(s[1..], k);
    }
  }

  lemma {:induction false} FindAppend<N, V>(a: seq<Cell<N, V>>, b: seq<Cell<N, V>>, k: string)
    ensures Find(a + b, k) == if Find(a, k).Some? then Find(a, k) else Find(b, k)
  {
    if a == [] {
      assert a + b == b;
    } else {
      assert (a + b)[1..] == a[1..] + b;
      FindAppend(a[1..], b, k);
    }
  }

  lemma {:induction false} FindNothing<N, V>(s: seq<Cell<N, V>>, k: string)
    requires forall i :: 0 <= i < |s| ==> s[i].key != k
    ensures Find(s, k).None?
  {
    if s != [] { FindNothing(s[1..], k); }
  }

  lemma {:induction false} FindIn<N, V>(s: seq<Cell<N, V>>, i: nat)
    requires Sorted(s) && i < |s|
    ensures Find(s, s[i].key) == Some(s[i])
  {
    if i > 0 {
      LessTotal(s[0].key, s[i].key);
      FindIn(s[1..], i - 1);
    }
  }

  // ----- the tree refines it -----

  lemma SortedParts<N, V>(a: seq<Cell<N, V>>, m: Cell<N, V>, b: seq<Cell<N, V>>)
    requires Sorted(a + [m] + b)
    ensures Sorted(a) && Sorted(b)
    ensures forall i :: 0 <= i < |a| ==> Less(a[i].key, m.key)
    ensures forall i :: 0 <= i < |b| ==> Less(m.key, b[i].key)
  {
    var s := a + [m] + b;
    assert forall i :: 0 <= i < |a| ==> s[i] == a[i];
    assert s[|a|] == m;
    assert forall i :: 0 <= i < |b| ==> b[i] == s[|a| + 1 + i];
  }

  lemma {:induction false} PutLeft<N, V>(a: seq<Cell<N, V>>, m: Cell<N, V>, b: seq<Cell<N, V>>, x: Cell<N, V>)
    requires Less(x.key, m.key)
    ensures Put(a + [m] + b, x) == Put(a, x) + [m] + b
  {
    LessTotal(x.key, m.key);
    if a == [] {
      assert a + [m] + b == [m] + b;
    } else {
      assert (a + [m] + b)[1..] == a[1..] + [m] + b;
      PutLeft(a[1..], m, b, x);
    }
  }

  lemma {:induction false} PutRight<N, V>(a: seq<Cell<N, V>>, m: Cell<N, V>, b: seq<Cell<N, V>>, x: Cell<N, V>)
    requires Less(m.key, x.key) && forall i :: 0 <= i < |a| ==> Less(a[i].key, m.key)
    ensures Put(a + [m] + b, x) == a + [m] + Put(b, x)
  {
    LessTotal(m.key, x.key);
    if a == [] {
      assert a + [m] + b == [m] + b;
    } else {
      LessTransitive(a[0].key, m.key, x.key);
      LessTotal(a[0].key, x.key);
      assert (a + [m] + b)[1..] == a[1..] + [m] + b;
      PutRight(a[1..], m, b, x);
    }
  }

  /** Rotations and balance changes do not move a cell in the in-order sequence. */
  lemma GrewKeepsCells<N, V>(rule: DoubleRule, t: Tree<N, V>)
    requires t.Node?
    ensures Cells(GrewLeft(rule, t).0) == Cells(t)
    ensures Cells(GrewRight(rule, t).0) == Cells(t)
  {
    RotationsKeepCells(rule, t);
  }

  lemma RotationsKeepCells<N, V>(rule: DoubleRule, t: Tree<N, V>)
    ensures Cells(RotateLeftLeft(t)) == Cells(t)
    ensures Cells(RotateRightRight(t)) == Cells(t)
    ensures Cells(RotateRightLeft(rule, t)) == Cells(t)
    ensures Cells(RotateLeftRight(rule, t)) == Cells(t)
  {
    if t.Node? {
      if t.right.Node? {
        assert Cells(RotateLeftLeft(t)) == Cells(t);
        if t.right.left.Node? { RightLeftKeepsCells(rule, t); }
      }
      if t.left.Node? {
        assert Cells(RotateRightRight(t)) == Cells(t);
        if t.left.right.Node? { LeftRightKeepsCells(rule, t); }
      }
    }
  }

  lemma RightLeftKeepsCells<N, V>(rule: DoubleRule, t: Tree<N, V>)
    requires t.Node? && t.right.Node? && t.right.left.Node?
    ensures Cells(RotateRightLeft(rule, t)) == Cells(t)
  {
    var r := RotateRightLeft(rule, t);
    assert Cells(t.right) == Cells(t.right.left) + [CellOf(t.right.it)] + Cells(t.right.right);
    assert Cells(r) == Cells(r.left) + [CellOf(r.it)] + Cells(r.right);
  }

  lemma LeftRightKeepsCells<N, V>(rule: DoubleRule, t: Tree<N, V>)
    requires t.Node? && t.left.Node? && t.left.right.Node?
    ensures Cells(RotateLeftRight(rule, t)) == Cells(t)
  {
    var r := RotateLeftRight(rule, t);
    assert Cells(t.left) == Cells(t.left.left) + [CellOf(t.left.it)] + Cells(t.left.right);
    assert Cells(r) == Cells(r.left) + [CellOf(r.it)] + Cells(r.right);
  }

  /** Insertion into the tree is insertion into its sorted list of cells. */
  lemma {:induction false} InsertIsPut<N, V>(rule: DoubleRule, t: Tree<N, V>, id: N, k: string, v: V)
    requires Ordered(t)
    ensures Cells(Insert(rule, t, id, k, v)) == Put(Cells(t), Cell(id, k, v))
  {
    if t.Node? {
      var x, m := Cell(id, k, v), CellOf(t.it);
      StrCmpZero(m.key, k);
      StrCmpFlip(k, m.key);
      SortedParts(Cells(t.left), m, Cells(t.right));
      if StrCmp(m.key, k) < 0 {
        InsertIsPut(rule, t.right, id, k, v);
        PutRight(Cells(t.left), m, Cells(t.right), x);
        GrewKeepsCells(rule, Node(t.left, t.it, Grow(rule, t.right, id, k, v).0));
      } else if StrCmp(m.key, k) > 0 {
        InsertIsPut(rule, t.left, id, k, v);
        PutLeft(Cells(t.left), m, Cells(t.right), x);
        GrewKeepsCells(rule, Node(Grow(rule, t.left, id, k, v).0, t.it, t.right));
      } else {
        PutHere(Cells(t.left), m, Cells(t.right), x);
      }
    }
  }

  lemma {:induction false} PutHere<N, V>(a: seq<Cell<N, V>>, m: Cell<N, V>, b: seq<Cell<N, V>>, x: Cell<N, V>)
    requires m.key == x.key && forall i :: 0 <= i < |a| ==> Less(a[i].key, m.key)
    ensures Put(a + [m] + b, x) == a + [m] + b
  {
    if a == [] {
      assert a + [m] + b == [m] + b;
    } else {
      LessTotal(a[0].key, x.key);
      assert (a + [m] + b)[1..] == a[1..] + [m] + b;
      PutHere(a[1..], m, b, x);
    }
  }

  /** Search in the tree is search in its sorted list of cells. */
  lemma {:induction false} LookupIsFind<N, V>(t: Tree<N, V>, k: string)
    requires Ordered(t)
    ensures Find(Cells(t), k) == match Lookup(t, k) { case None => None case Some(it) => Some(CellOf(it)) }
  {
    if t.Node? {
      var a, m, b := Cells(t.left), CellOf(t.it), Cells(t.right);
      SortedParts(a, m, b);
      FindAppend(a + [m], b, k);
      FindAppend(a, [m], k);
      StrCmpZero(m.key, k);
      StrCmpFlip(k, m.key);
      if StrCmp(m.key, k) < 0 {
        LookupIsFind(t.right, k);
        NoneBelow(a, m.key, k);
      } else if StrCmp(m.key, k) > 0 {
        LookupIsFind(t.left, k);
        if b != [] { LessTransitive(k, m.key, b[0].key); }
        FindAbove(b, k);
      } else {
        forall i | 0 <= i < |a| ensures a[i].key != k { LessTotal(a[i].key, k); }
        FindNothing(a, k);
      }
    }
  }

  lemma NoneBelow<N, V>(a: seq<Cell<N, V>>, m: string, k: string)
    requires Less(m, k) && forall i :: 0 <= i < |a| ==> Less(a[i].key, m)
    ensures Find(a, k).None?
  {
    forall i | 0 <= i < |a| ensures a[i].key != k {
      LessTransitive(a[i].key, m, k);
      LessTotal(a[i].key, k);
    }
    FindNothing(a, k);
  }

  /** Insertion as its callers see it: order is kept, a key that is there keeps its cell and
      the tree, a new key gets exactly the new cell, every other key is as before. */
  lemma InsertMeaning<N, V>(rule: DoubleRule, t: Tree<N, V>, id: N, k: string, v: V, k': string)
    requires Ordered(t)
    ensures var r := Insert(rule, t, id, k, v);
      && Ordered(r)
      && Find(Cells(r), k') == if k' == k && Find(Cells(t), k).None? then Some(Cell(id, k, v)) else Find(Cells(t), k')
  {
    InsertIsPut(rule, t, id, k, v);
    PutSorted(Cells(t), Cell(id, k, v));
    PutFind(Cells(t), Cell(id, k, v), k');
  }

  // ----- whole runs from the empty tree -----

  /** The tree after inserting `ks` in order; node identities are positions in the run. */
  function Run(rule: DoubleRule, ks: seq<string>): Tree<int, ()> {
    if ks == [] then Leaf
    else Insert(rule, Run(rule, ks[..|ks| - 1]), |ks| - 1, ks[|ks| - 1], ())
  }

  /** The first position of `k` in a run: the cell that the key keeps. */
  function First(ks: seq<string>, k: string): Option<Cell<int, ()>> {
    if ks == [] then None
    else
      var n := |ks| - 1;
      var r := First(ks[..n], k);
      if r.Some? then r else if ks[n] == k then Some(Cell(n, k, ())) else None
  }

  /** Every run keeps strict key order, holds exactly the keys inserted, and lets every key
      keep the cell of its first insertion. As written, no side without a child is ever
      marked heavy, so no rotation meets a null pointer. */
  lemma {:induction false} RunMeaning(rule: DoubleRule, ks: seq<string>, k: string)
    ensures Ordered(Run(rule, ks))
    ensures Find(Cells(Run(rule, ks)), k) == First(ks, k)
    ensures rule.AsWritten? ==> HeavyHasChild(Run(rule, ks))
  {
    if ks != [] {
      var n := |ks| - 1;
      var t := Run(rule, ks[..n]);
      RunMeaning(rule, ks[..n], k);
      RunMeaning(rule, ks[..n], ks[n]);
      InsertMeaning(rule, t, n, ks[n], (), k);
      if rule.AsWritten? { GrowKeepsHeavyHasChild(t, n, ks[n], ()); }
    }
  }

  // ----- runs in which callers also write values -----

  /** What a caller does: asks for the cell of a key, or writes through the cell an earlier step gave it. */
  datatype Op<V> = Create(key: string) | Store(step: int, value: V)

  /** The cells after a write. */
  function Overwritten<N(==), V>(s: seq<Cell<N, V>>, id: N, v: V): (r: seq<Cell<N, V>>)
    ensures |r| == |s| && forall i :: 0 <= i < |s| ==> r[i] == if s[i].id == id then s[i].(value := v) else s[i]
  {
    if s == [] then [] else [if s[0].id == id then s[0].(value := v) else s[0]] + Overwritten(s[1..], id, v)
  }

  lemma {:induction false} WrittenCells<N, V>(t: Tree<N, V>, id: N, v: V)
    ensures Cells(Written(t, id, v)) == Overwritten(Cells(t), id, v)
  {
    if t.Node? {
      WrittenCells(t.left, id, v);
      WrittenCells(t.right, id, v);
    }
  }

  lemma WrittenOrdered<N, V>(t: Tree<N, V>, id: N, v: V)
    ensures Ordered(Written(t, id, v)) <==> Ordered(t)
  {
    WrittenCells(t, id, v);
    KeysDecide(Cells(t), Overwritten(Cells(t), id, v));
  }

  /** The order is an order of keys. */
  lemma KeysDecide<N, V>(s: seq<Cell<N, V>>, r: seq<Cell<N, V>>)
    requires |s| == |r| && forall i :: 0 <= i < |s| ==> r[i].key == s[i].key
    ensures Sorted(s) <==> Sorted(r)
  {
    if Sorted(s) { forall i, j | 0 <= i < j < |r| ensures Less(r[i].key, r[j].key) { assert Less(s[i].key, s[j].key); } }
    if Sorted(r) { forall i, j | 0 <= i < j < |s| ensures Less(s[i].key, s[j].key) { assert Less(r[i].key, r[j].key); } }
  }

  lemma {:induction false} OverwrittenFind<N, V>(s: seq<Cell<N, V>>, id: N, v: V, k: string)
    ensures Find(Overwritten(s, id, v), k) == match Find(s, k)
      case None => None
      case Some(x) => Some(if x.id == id then x.(value := v) else x)
  {
    if s != [] {
      OverwrittenFind(s[1..], id, v, k);
      assert Overwritten(s, id, v)[1..] == Overwritten(s[1..], id, v);
    }
  }

  /** The step that created the cell of a key. */
  function Creation<V>(ops: seq<Op<V>>, k: string): (r: Option<int>)
    ensures r.Some? ==> 0 <= r.value < |ops|
  {
    if ops == [] then None
    else
      var n := |ops| - 1;
      var r := Creation(ops[..n], k);
      if r.Some? then r else if ops[n] == Create(k) then Some(n) else None
  }

  /** The cell that a step gave to the caller. */
  function Given<V>(ops: seq<Op<V>>, step: int): Option<int> {
    if 0 <= step < |ops| && ops[step].Create? then Creation(ops, ops[step].key) else None
  }

  /** The tree after a run; a created node is named by its place in the run. */
  function AfterOps<V>(rule: DoubleRule, ops: seq<Op<V>>, zero: V): Tree<int, V> {
    if ops == [] then Leaf
    else
      var n := |ops| - 1;
      var t := AfterOps(rule, ops[..n], zero);
      match ops[n]
      case Create(k) => Insert(rule, t, n, k, zero)
      case Store(step, v) =>
        match Given(ops[..n], step)
        case None => t
        case Some(cell) => Written(t, cell, v)
  }

  /** The last value written through the cell created in step `cell`, or the value it was created with. */
  function LastValue<V>(ops: seq<Op<V>>, cell: int, zero: V): V {
    if ops == [] || |ops| - 1 == cell then zero
    else
      var n := |ops| - 1;
      if ops[n].Store? && Given(ops[..n], ops[n].step) == Some(cell) then ops[n].value else LastValue(ops[..n], cell, zero)
  }

  /** In every run of creations and writes, each key keeps the cell of its first creation, and the cell
      holds the value last written through it, whatever was inserted and rotated in between. */
  lemma {:induction false} StoresMeaning<V>(rule: DoubleRule, ops: seq<Op<V>>, zero: V, k: string)
    ensures Ordered(AfterOps(rule, ops, zero))
    ensures Find(Cells(AfterOps(rule, ops, zero)), k) == match Creation(ops, k)
      case None => None
      case Some(cell) => Some(Cell(cell, k, LastValue(ops, cell, zero)))
    ensures rule.AsWritten? ==> HeavyHasChild(AfterOps(rule, ops, zero))
  {
    if ops != [] {
      var n := |ops| - 1;
      var t := AfterOps(rule, ops[..n], zero);
      StoresMeaning(rule, ops[..n], zero, k);
      match ops[n]
      case Create(new_) =>
        InsertMeaning(rule, t, n, new_, zero, k);
        if rule.AsWritten? { GrowKeepsHeavyHasChild(t, n, new_, zero); }
      case Store(step, v) =>
        match Given(ops[..n], step)
        case None =>
        case Some(cell) =>
          WrittenCells(t, cell, v);
          WrittenOrdered(t, cell, v);
          OverwrittenFind(Cells(t), cell, v, k);
          WrittenHeavy(t, cell, v);
    }
  }
}
