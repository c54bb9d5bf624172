/**
 * Trees inside the stream of a cache file, where a node is named by its address, and what holds of
 * any reader and writer of their values.
 */
module CacheTrees {
  import opened CStrings
  import opened Sequences
  import opened AvlModel
  import opened AvlStream

  type PTree<!V> = Tree<int, V>

  function Address(n: int): nat {
    if n < 0 then 0 else n
  }

  function WriteTree<V>(t: PTree<V>, enc: Writer<V>): Mem {
    [TreeHead(t, Address)] + Dump(t, None, Address, enc)
  }

  /** The root keeps its dumped parent link, which must have been NULL. */
  function ReadTree<W>(dec: Reader<W>, mem: Mem, pos: nat): (r: Got<PTree<W>>)
    ensures r.Got? ==> pos < r.next <= |mem|
  {
    if pos >= |mem| || !mem[pos].TreeTok? then Bad
    else if NodeAt(mem, pos + 1) && mem[pos + 1].parent != 0 then Bad
    else Load(dec, mem, pos + 1)
  }

  function TreeAt<V, W>(t: PTree<V>, pos: nat, enc: Writer<V>, image: ValueImage<V, W>): PTree<W> {
    TreeImage(t, pos + 1, None, Address, enc, image)
  }

  lemma TreeCodec<V(!new), W>(t: PTree<V>, enc: Writer<V>, dec: Reader<W>, image: ValueImage<V, W>, ok: V -> bool, mem: Mem, pos: nat)
    requires RoundTrips(enc, dec, image, ok) && AllOk(t, ok) && At(mem, pos, WriteTree(t, enc))
    ensures ReadTree(dec, mem, pos) == Got(TreeAt(t, pos, enc, image), pos + |WriteTree(t, enc)|)
  {
    AtHead(mem, pos, TreeHead(t, Address), Dump(t, None, Address, enc));
    TreeRoundTrip(t, None, Address, enc, dec, image, ok, mem, pos + 1);
    if t.Node? {
      var pos1, pos2 := DumpParts(t, None, Address, enc, mem, pos + 1);
      NodeRoundTrip(t, None, Address, enc, dec, image, ok, mem, pos + 1);
    } else {
      LeafRoundTrip(dec, mem, pos + 1);
      AtHead(mem, pos + 1, EMPTY_NODE, []);
      assert [EMPTY_NODE] + [] == [EMPTY_NODE];
    }
  }

  // ----- readers look only forward -----

  lemma ReadWithLocal<W>(dec: Reader<W>, m: Mem, m': Mem, pos: nat)
    requires Local(dec) && SameFrom(m, m', pos)
    ensures ReadWith(dec, m', pos) == ReadWith(dec, m, pos)
  {
    assert dec(m, pos) == dec(m', pos);
  }

  lemma NodeLocal<W>(dec: Reader<W>, m: Mem, m': Mem, pos: nat)
    requires Local(dec) && SameFrom(m, m', pos) && NodeAt(m, pos)
    ensures NodeAt(m', pos) && ReadNode(dec, m', pos) == ReadNode(dec, m, pos)
  {
    ReadStrSame(m, m', pos + 1);
    if ReadStr(m, pos + 1).Got? {
      ReadWithLocal(dec, m, m', ReadStr(m, pos + 1).next);
    }
  }

  lemma {:induction false} LoadLocal<W>(dec: Reader<W>, m: Mem, m': Mem, pos: nat)
    requires Local(dec) && SameFrom(m, m', pos)
    ensures Load(dec, m', pos) == Load(dec, m, pos)
    decreases |m| - pos
  {
    if NodeAt(m, pos) {
      NodeLocal(dec, m, m', pos);
      if ReadNode(dec, m, pos).Got? {
        var pos1 := ReadNode(dec, m, pos).next;
        LoadLocal(dec, m, m', pos1);
        if Load(dec, m, pos1).Got? {
          LoadLocal(dec, m, m', Load(dec, m, pos1).next);
        }
      }
    }
  }

  lemma TreeLocal<W>(dec: Reader<W>, m: Mem, m': Mem, pos: nat)
    requires Local(dec) && SameFrom(m, m', pos)
    ensures ReadTree(dec, m', pos) == ReadTree(dec, m, pos)
  {
    LoadLocal(dec, m, m', pos + 1);
  }

  // ----- what was read has the size of what it is written as -----

  ghost predicate Sized<V>(enc: Writer<V>, dec: Reader<V>) {
    forall mem: Mem, pos: nat {:trigger dec(mem, pos)} :: dec(mem, pos).Got? ==>
      dec(mem, pos).next <= |mem| && dec(mem, pos).next == pos + |enc(dec(mem, pos).value)|
  }

  lemma NodeSized<V>(enc: Writer<V>, dec: Reader<V>, mem: Mem, pos: nat)
    requires Sized(enc, dec) && NodeAt(mem, pos) && ReadNode(dec, mem, pos).Got?
    ensures var r := ReadNode(dec, mem, pos); r.next == pos + 1 + |WriteStr(r.value.key)| + |enc(r.value.value)|
  {
    StrRead(mem, pos + 1);
  }

  lemma {:induction false} LoadSized<V>(enc: Writer<V>, dec: Reader<V>, mem: Mem, pos: nat, p: Option<int>)
    requires Sized(enc, dec) && Load(dec, mem, pos).Got?
    ensures var r := Load(dec, mem, pos); r.next == pos + |Dump(r.value, p, Address, enc)|
    decreases |mem| - pos
  {
    if NodeAt(mem, pos) {
      NodeSized(enc, dec, mem, pos);
      var pos1 := ReadNode(dec, mem, pos).next;
      LoadSized(enc, dec, mem, pos1, Some(pos));
      LoadSized(enc, dec, mem, Load(dec, mem, pos1).next, Some(pos));
    }
  }

  lemma TreeSized<V>(enc: Writer<V>, dec: Reader<V>, mem: Mem, pos: nat)
    requires Sized(enc, dec) && ReadTree(dec, mem, pos).Got?
    ensures var r := ReadTree(dec, mem, pos); r.next == pos + |WriteTree(r.value, enc)|
  {
    LoadSized(enc, dec, mem, pos + 1, None);
  }

  // ----- reading and writing again -----

  /** The tokens of the value read, as the writer writes it. */
  function Rewrite<V>(enc: Writer<V>, dec: Reader<V>): Reader<Mem> {
    (mem: Mem, pos: nat) =>
      match dec(mem, pos)
      case Bad => Bad
      case Got(v, end) => Got(enc(v), end)
  }

  function Same(s: Mem): Mem { s }

  lemma RewriteLaws<V>(enc: Writer<V>, dec: Reader<V>)
    requires Local(dec) && Sized(enc, dec)
    ensures Local(Rewrite(enc, dec)) && Sized(Same, Rewrite(enc, dec))
  {
  }

  function Mapped<N, V, W>(t: Tree<N, V>, f: V -> W): Tree<N, W> {
    if t.Leaf? then Leaf
    else Node(Mapped(t.left, f), Item(t.it.id, t.it.key, t.it.bal, f(t.it.value)), Mapped(t.right, f))
  }

  lemma {:induction false} LoadRewrite<V>(enc: Writer<V>, dec: Reader<V>, mem: Mem, pos: nat)
    ensures Load(Rewrite(enc, dec), mem, pos) == match Load(dec, mem, pos)
      case Bad => Bad
      case Got(t, end) => Got(Mapped(t, enc), end)
    decreases |mem| - pos
  {
    if NodeAt(mem, pos) && ReadNode(dec, mem, pos).Got? {
      var pos1 := ReadNode(dec, mem, pos).next;
      LoadRewrite(enc, dec, mem, pos1);
      if Load(dec, mem, pos1).Got? {
        LoadRewrite(enc, dec, mem, Load(dec, mem, pos1).next);
      }
    }
  }

  lemma {:induction false} DumpMapped<N, V>(t: Tree<N, V>, p: Option<N>, addr: N -> nat, enc: Writer<V>)
    ensures Dump(Mapped(t, enc), p, addr, Same) == Dump(t, p, addr, enc)
  {
    if t.Node? {
      DumpMapped(t.left, Some(t.it.id), addr, enc);
      DumpMapped(t.right, Some(t.it.id), addr, enc);
    }
  }

  /** Rewriting the values of a tree is rewriting the tree. */
  lemma TreeRewrite<V>(enc: Writer<V>, dec: Reader<V>, mem: Mem, pos: nat)
    ensures match ReadTree(dec, mem, pos)
      case Bad => ReadTree(Rewrite(enc, dec), mem, pos) == Bad
      case Got(t, end) =>
        && ReadTree(Rewrite(enc, dec), mem, pos) == Got(Mapped(t, enc), end)
        && WriteTree(Mapped(t, enc), Same) == WriteTree(t, enc)
  {
    LoadRewrite(enc, dec, mem, pos + 1);
    if ReadTree(dec, mem, pos).Got? {
      DumpMapped(ReadTree(dec, mem, pos).value, None, Address, enc);
    }
  }

  // ----- a node that was read, and stands as it is written -----

  lemma NodeStanding<V>(enc: Writer<V>, dec: Reader<V>, was: Mem, mem: Mem, pos: nat, t: PTree<V>, p: Option<int>) returns (q: nat)
    requires NodeAt(was, pos) && ReadNode(dec, was, pos).Got? && t.Node? && t.it == ReadNode(dec, was, pos).value
    requires At(mem, pos, DumpNode(t, p, Address, enc))
    ensures t.it.id == pos < |mem| && NulFree(t.it.key) && q == pos + 1 + |WriteStr(t.it.key)|
    ensures mem[pos] == NodeTok(Visit(true, true), Addr(Address, Root(t.left)), Addr(Address, Root(t.right)), Addr(Address, p), t.it.bal)
    ensures At(mem, pos + 1, WriteStr(t.it.key)) && At(mem, q, enc(t.it.value))
    ensures dec(was, q).Got? && dec(was, q).value == t.it.value
  {
    StrRead(was, pos + 1);
    var tok, key, v := DumpNode(t, p, Address, enc)[0], WriteStr(t.it.key), enc(t.it.value);
    q := pos + 1 + |key|;
    Regrouped([tok], key, v);
    AtHead(mem, pos, tok, key + v);
    AtSplit(mem, pos + 1, key, v);
  }

  /** Where the children of a node that was read were read, and stand. */
  lemma ChildrenStanding<V>(enc: Writer<V>, dec: Reader<V>, was: Mem, mem: Mem, pos: nat, t: PTree<V>, p: Option<int>, end: nat)
    returns (pos1: nat, pos2: nat)
    requires Sized(enc, dec) && NodeAt(was, pos) && Load(dec, was, pos) == Got(t, end) && At(mem, pos, Dump(t, p, Address, enc))
    ensures t.Node? && ReadNode(dec, was, pos).Got? && t.it == ReadNode(dec, was, pos).value && At(mem, pos, DumpNode(t, p, Address, enc))
    ensures pos < pos1 && pos < pos2 && Load(dec, was, pos1) == Got(t.left, pos2) && Load(dec, was, pos2) == Got(t.right, end)
    ensures At(mem, pos1, Dump(t.left, Some(pos), Address, enc)) && At(mem, pos2, Dump(t.right, Some(pos), Address, enc))
  {
    hide Dump, At;
    pos1, pos2 := DumpParts(t, p, Address, enc, mem, pos);
    NodeSized(enc, dec, was, pos);
    LoadSized(enc, dec, was, ReadNode(dec, was, pos).next, Some(pos));
  }
}
