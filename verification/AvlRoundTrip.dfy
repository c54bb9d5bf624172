/** Writing an AVL tree and mapping it back: the heap procedures together. */
module AvlRoundTrip {
  import opened CStrings
  import opened AvlModel
  import opened AvlOrder
  import opened AvlLinks
  import opened AvlStream
  import opened AvlHeap
  import opened AvlWalk
  import opened AvlMap

  // ----- what does not depend on node identities -----

  lemma {:induction false} StripHeavy<N, V>(t: Tree<N, V>)
    ensures HeavyHasChild(Strip(t)) <==> HeavyHasChild(t)
  {
    if t.Node? {
      StripHeavy(t.left);
      StripHeavy(t.right);
    }
  }

  lemma {:induction false} StripCells<N, V>(t: Tree<N, V>)
    ensures |Cells(Strip(t))| == |Cells(t)|
    ensures forall i :: 0 <= i < |Cells(t)| ==>
      Cells(Strip(t))[i].key == Cells(t)[i].key && Cells(Strip(t))[i].value == Cells(t)[i].value
  {
    if t.Node? {
      StripCells(t.left);
      StripCells(t.right);
    }
  }

  lemma StripOrdered<N, V>(t: Tree<N, V>)
    ensures Ordered(Strip(t)) <==> Ordered(t)
  {
    StripCells(t);
    var a, b := Cells(Strip(t)), Cells(t);
    if Ordered(t) {
      forall i, j | 0 <= i < j < |a| ensures Less(a[i].key, a[j].key) { assert Less(b[i].key, b[j].key); }
    }
    if Ordered(Strip(t)) {
      forall i, j | 0 <= i < j < |b| ensures Less(b[i].key, b[j].key) { assert Less(a[i].key, a[j].key); }
    }
  }

  /** A tree that is the image of `t` under the identity has the shape, keys, balances and values of `t`. */
  lemma {:induction false} StripSameImage<N, V>(t: Tree<N, V>, pos: nat, p: Option<N>, addr: N -> nat, enc: Writer<V>)
    ensures Strip(TreeImage(t, pos, p, addr, enc, SameValue)) == Strip(t)
    decreases t
  {
    if t.Node? {
      var pos1 := pos + |DumpNode(t, p, addr, enc)|;
      var pos2 := pos1 + |Dump(t.left, Some(t.it.id), addr, enc)|;
      ImageParts(t, pos, p, addr, enc, SameValue, pos1, pos2);
      StripSameImage(t.left, pos1, Some(t.it.id), addr, enc);
      StripSameImage(t.right, pos2, Some(t.it.id), addr, enc);
    }
  }

  function SameValue<V>(v: V, pos: nat): V { v }

  lemma FirstToken<N, V>(t: Tree<N, V>, addr: N -> nat, enc: Writer<V>)
    ensures var d := Dump(t, None, addr, enc);
      && |d| > 0 && d[0].NodeTok? && d[0].parent == 0
  {
  }

  /** The written file loads, to its last token, as a tree like the one written. */
  lemma FileLoads<N, V(!new)>(t: Tree<N, V>, addr: N -> nat, enc: Writer<V>, dec: Reader<V>, ok: V -> bool, file: Mem)
    requires AllOk(t, ok) && RoundTrips(enc, dec, SameValue, ok) && file == [TreeHead(t, addr)] + Dump(t, None, addr, enc)
    ensures |file| > 1 && file[0].TreeTok? && file[1].NodeTok? && file[1].parent == 0
    ensures Load(dec, file, 1).Got? && Load(dec, file, 1).next == |file|
    ensures Strip(Load(dec, file, 1).value) == Strip(t)
  {
    FirstToken(t, addr, enc);
    AtHead(file, 0, TreeHead(t, addr), Dump(t, None, addr, enc));
    assert At(file, 0, file);
    TreeRoundTrip(t, None, addr, enc, dec, SameValue, ok, file, 1);
    StripSameImage(t, 1, None, addr, enc);
  }

  /** Trees that are alike are ordered and heavy in the same places. */
  lemma AlikeTrees<N, M, V>(t: Tree<N, V>, u: Tree<M, V>)
    requires Strip(t) == Strip(u)
    ensures (HeavyHasChild(t) <==> HeavyHasChild(u)) && (Ordered(t) <==> Ordered(u))
  {
    StripHeavy(t);
    StripHeavy(u);
    StripOrdered(t);
    StripOrdered(u);
  }

  /** Writing changes visit bits only. */
  method SaveToFile<V(!new)>(tree: AvlTree<V>, addr: AvlNode<V> -> nat, enc: Writer<V>, dec: Reader<V>, ghost ok: V -> bool) returns (file: Mem)
    requires tree.Valid() && AllOk(tree.model, ok) && RoundTrips(enc, dec, SameValue, ok)
    modifies Nodes(tree.model)`visit
    ensures tree.Valid() && file == [TreeHead(tree.model, addr)] + Dump(tree.model, None, addr, enc)
    ensures |file| > 1 && file[0].TreeTok? && file[1].NodeTok? && file[1].parent == 0
    ensures Load(dec, file, 1).Got? && Load(dec, file, 1).next == |file| && Strip(Load(dec, file, 1).value) == Strip(tree.model)
  {
    file := WriteToFile(tree, addr, enc);
    FileLoads(tree.model, addr, enc, dec, ok, file);
  }

  /** A file that loads as a tree like `t` maps to a valid tree like `t`; nodes that are there stay as they are. */
  method MapSaved<V>(dec: Reader<V>, file: Mem, junk: AvlNode<V>, zero: V, ghost t: HTree<V>, ghost m: HTable<V>)
    returns (mapped: AvlTree<V>, end: nat)
    requires Matches(m)
    requires |file| > 1 && file[0].TreeTok? && file[1].NodeTok? && file[1].parent == 0
    requires Load(dec, file, 1).Got? && Strip(Load(dec, file, 1).value) == Strip(t) && HeavyHasChild(t) && Ordered(t)
    ensures mapped.Valid() && fresh(mapped) && fresh(Nodes(mapped.model)) && Strip(mapped.model) == Strip(t)
    ensures end == Load(dec, file, 1).next && Matches(m)
  {
    mapped, end := MapFromMemory(dec, file, 0, junk, zero);
    AlikeTrees(t, mapped.model);
  }

  /** A tree written to a file and mapped back has the same shape, keys, balances and values,
      all links rebuilt among new nodes, and searches as before; the old tree is unchanged. */
  method SaveAndMap<V(!new)>(tree: AvlTree<V>, addr: AvlNode<V> -> nat, enc: Writer<V>, dec: Reader<V>, junk: AvlNode<V>,
                       ghost ok: V -> bool) returns (mapped: AvlTree<V>, file: Mem, end: nat)
    requires tree.Valid() && AllOk(tree.model, ok) && RoundTrips(enc, dec, SameValue, ok)
    modifies Nodes(tree.model)`visit
    ensures mapped.Valid() && fresh(mapped) && fresh(Nodes(mapped.model))
    ensures Strip(mapped.model) == Strip(tree.model) && tree.model == old(tree.model) && tree.Valid()
    ensures file == [TreeHead(tree.model, addr)] + Dump(tree.model, None, addr, enc) && end == |file|
  {
    file := SaveToFile(tree, addr, enc, dec, ok);
    mapped, end := MapSaved(dec, file, junk, tree.zero, tree.model, Links(tree.model, None));
  }
}
