/**
 * The stream form of an AVL tree: a pre-order dump of node structures, each followed by
 * its key and value, with an all-zero structure for a missing child.
 */
module AvlStream {
  import opened CStrings
  import opened AvlModel

  /** The two bits of the `visit` field. */
  datatype Visit = Visit(left: bool, right: bool)

  /** What one `write` call puts into the file. Pointers are raw addresses, 0 is NULL;
      in a mapped file they are stale until the reader overwrites them. */
  datatype Tok =
    | Ch(c: char)
    | TreeTok(root: nat)
    | NodeTok(visit: Visit, left: nat, right: nat, parent: nat, bal: Balance)
    | VersionTok(version: nat)
    | ListTok(head: nat, tail: nat)
    | ItemTok(list: nat, next: nat, prev: nat, extra: int)
    | AppTok(groups: nat)
    | GroupsTok(owner: nat, root: nat)
    | EntryTok(head: nat, tail: nat, root: nat)

  type Mem = seq<Tok>

  /** The outcome of reading at a place: a value and the place after it, or a malformed stream. */
  datatype Got<+T> = Bad | Got(value: T, next: nat)

  const EMPTY_NODE := NodeTok(Visit(false, false), 0, 0, 0, Balanced)

  /** `s` is what the memory holds at `pos`. */
  predicate At(mem: Mem, pos: nat, s: Mem) {
    pos + |s| <= |mem| && mem[pos..pos + |s|] == s
  }

  lemma AtSplit(mem: Mem, pos: nat, a: Mem, b: Mem)
    ensures At(mem, pos, a + b) <==> At(mem, pos, a) && At(mem, pos + |a|, b)
  {
    if At(mem, pos, a + b) {
      var s := mem[pos..pos + |a + b|];
      assert s[..|a|] == a && s[|a|..] == b;
      assert mem[pos..pos + |a|] == s[..|a|];
      assert mem[pos + |a|..pos + |a| + |b|] == s[|a|..];
    }
    if At(mem, pos, a) && At(mem, pos + |a|, b) {
      assert mem[pos..pos + |a + b|] == mem[pos..pos + |a|] + mem[pos + |a|..pos + |a| + |b|];
    }
  }

  lemma AtHead(mem: Mem, pos: nat, x: Tok, b: Mem)
    ensures At(mem, pos, [x] + b) <==> pos < |mem| && mem[pos] == x && At(mem, pos + 1, b)
  {
    AtSplit(mem, pos, [x], b);
    if pos < |mem| { assert mem[pos..pos + 1] == [mem[pos]]; }
  }

  // ----- strings -----

  predicate NulFree(s: string) {
    forall i :: 0 <= i < |s| ==> s[i] != '\0'
  }

  /** `write(fd, s, strlen(s) + 1)`. */
  function WriteStr(s: string): Mem {
    if s == [] then [Ch('\0')] else [Ch(s[0])] + WriteStr(s[1..])
  }

  /** The NUL-terminated string at `pos`, and the place after it. */
  function ReadStr(mem: Mem, pos: nat): (r: Got<string>)
    ensures r.Got? ==> pos < r.next <= |mem|
    decreases |mem| - pos
  {
    if pos >= |mem| || !mem[pos].Ch? then Bad
    else if mem[pos].c == '\0' then Got("", pos + 1)
    else match ReadStr(mem, pos + 1)
      case Bad => Bad
      case Got(s, end) => Got([mem[pos].c] + s, end)
  }

  lemma {:induction false} StrRoundTrip(s: string, mem: Mem, pos: nat)
    requires NulFree(s) && At(mem, pos, WriteStr(s))
    ensures ReadStr(mem, pos) == Got(s, pos + |WriteStr(s)|)
  {
    if s == [] {
      AtHead(mem, pos, Ch('\0'), []);
      assert [Ch('\0')] + [] == WriteStr(s);
    } else {
      AtHead(mem, pos, Ch(s[0]), WriteStr(s[1..]));
      StrRoundTrip(s[1..], mem, pos + 1);
      assert [s[0]] + s[1..] == s;
    }
  }

  /** What stands where a string was read. */
  lemma {:induction false} StrRead(mem: Mem, pos: nat)
    requires ReadStr(mem, pos).Got?
    ensures var r := ReadStr(mem, pos); NulFree(r.value) && At(mem, pos, WriteStr(r.value)) && r.next == pos + |WriteStr(r.value)|
    decreases |mem| - pos
  {
    if mem[pos].c == '\0' {
      AtHead(mem, pos, mem[pos], []);
      assert [mem[pos]] + [] == WriteStr("");
    } else {
      StrRead(mem, pos + 1);
      var s := ReadStr(mem, pos + 1).value;
      AtHead(mem, pos, mem[pos], WriteStr(s));
      assert ([mem[pos].c] + s)[1..] == s;
    }
  }

  // ----- what readers depend on -----

  /** The memories agree from `pos` on. */
  ghost predicate SameFrom(m: Mem, m': Mem, pos: nat) {
    |m| == |m'| && forall i :: pos <= i < |m| ==> m[i] == m'[i]
  }

  lemma {:induction false} ReadStrSame(m: Mem, m': Mem, pos: nat)
    requires SameFrom(m, m', pos)
    ensures ReadStr(m', pos) == ReadStr(m, pos)
    decreases |m| - pos
  {
    if pos < |m| { ReadStrSame(m, m', pos + 1); }
  }

  /** A reader looks only forward. */
  ghost predicate Local<W>(dec: Reader<W>) {
    forall m: Mem, m': Mem, pos: nat {:trigger dec(m, pos), dec(m', pos)} :: SameFrom(m, m', pos) ==> dec(m, pos) == dec(m', pos)
  }

  /** The memory with `s` in place of what stood at `pos`. */
  function Patch(mem: Mem, pos: nat, s: Mem): Mem
    requires pos + |s| <= |mem|
  {
    mem[..pos] + s + mem[pos + |s|..]
  }

  // ----- trees -----

  /** A pair of functions that write and read values. `W` is what a value becomes in memory. */
  type Writer<!V> = V -> Mem
  type Reader<!W> = (Mem, nat) -> Got<W>

  function Addr<N>(addr: N -> nat, o: Option<N>): nat {
    if o.None? then 0 else addr(o.value)
  }

  /** The tree structure leads to the root. */
  function TreeHead<N, V>(t: Tree<N, V>, addr: N -> nat): Tok {
    TreeTok(Addr(addr, Root(t)))
  }

  /** `write_subtree_to_file`: node, key, value, left subtree, right subtree. */
  function Dump<N, V>(t: Tree<N, V>, p: Option<N>, addr: N -> nat, enc: Writer<V>): Mem {
    if t.Leaf? then [EMPTY_NODE]
    else DumpNode(t, p, addr, enc) + Dump(t.left, Some(t.it.id), addr, enc) + Dump(t.right, Some(t.it.id), addr, enc)
  }

  /** `write_node_to_file`. */
  function DumpNode<N, V>(t: Tree<N, V>, p: Option<N>, addr: N -> nat, enc: Writer<V>): Mem
    requires t.Node?
  {
    [NodeTok(Visit(true, true), Addr(addr, Root(t.left)), Addr(addr, Root(t.right)), Addr(addr, p), t.it.bal)]
    + WriteStr(t.it.key) + enc(t.it.value)
  }

  /** A reader that does not advance past the end of the memory, or backwards, is taken at its word. */
  function ReadWith<W>(dec: Reader<W>, mem: Mem, pos: nat): (r: Got<W>)
    ensures r.Got? ==> pos <= r.next <= |mem|
  {
    var r := dec(mem, pos);
    if r.Got? && pos <= r.next <= |mem| then r else Bad
  }

  /** The structure at `pos` marks a present node. */
  predicate NodeAt(mem: Mem, pos: nat) {
    pos < |mem| && mem[pos].NodeTok? && mem[pos].visit != Visit(false, false)
  }

  predicate EmptyAt(mem: Mem, pos: nat) {
    pos < |mem| && mem[pos].NodeTok? && mem[pos].visit == Visit(false, false)
  }

  /** One node with its key and value; the identity of a mapped node is its place. */
  function ReadNode<W>(dec: Reader<W>, mem: Mem, pos: nat): (r: Got<Item<int, W>>)
    requires NodeAt(mem, pos)
    ensures r.Got? ==> pos < r.next <= |mem|
  {
    match ReadStr(mem, pos + 1)
    case Bad => Bad
    case Got(key, pos1) =>
      match ReadWith(dec, mem, pos1)
      case Bad => Bad
      case Got(value, pos2) =>
        var it: Item<int, W> := Item(pos, key, mem[pos].bal, value);
        Got(it, pos2)
  }

  /** The subtree whose dump starts at `pos`. The reader only writes the link of a child that
      is there, so a missing child is well formed only if the dumped link was NULL. */
  function Load<W>(dec: Reader<W>, mem: Mem, pos: nat): (r: Got<Tree<int, W>>)
    ensures r.Got? ==> pos < r.next <= |mem|
    ensures r.Got? && r.value.Node? ==> NodeAt(mem, pos)
    decreases |mem| - pos
  {
    if EmptyAt(mem, pos) then Got(Leaf, pos + 1)
    else if !NodeAt(mem, pos) then Bad
    else match ReadNode(dec, mem, pos)
      case Bad => Bad
      case Got(it, pos1) =>
        match Load(dec, mem, pos1)
        case Bad => Bad
        case Got(left, pos2) =>
          if left.Leaf? && mem[pos].left != 0 then Bad else
          match Load(dec, mem, pos2)
          case Bad => Bad
          case Got(right, pos3) =>
            if right.Leaf? && mem[pos].right != 0 then Bad
            else Got(Node(left, it, right), pos3)
  }

  // ----- the round trip -----

  /** What a value written at `pos` is when it has been read back. */
  type ValueImage<!V, !W> = (V, nat) -> W

  /** The codec round-trips on the values in `ok`, and the reader stops exactly after them. */
  ghost predicate RoundTrips<V(!new), W>(enc: Writer<V>, dec: Reader<W>, image: ValueImage<V, W>, ok: V -> bool) {
    forall v, mem: Mem, pos: nat {:trigger At(mem, pos, enc(v))} :: ok(v) && At(mem, pos, enc(v)) ==>
      dec(mem, pos) == Got(image(v, pos), pos + |enc(v)|)
  }

  ghost predicate AllOk<N, V>(t: Tree<N, V>, ok: V -> bool) {
    t.Node? ==> NulFree(t.it.key) && ok(t.it.value) && AllOk(t.left, ok) && AllOk(t.right, ok)
  }

  function ItemImage<N, V, W>(it: Item<N, V>, pos: nat, image: ValueImage<V, W>): Item<int, W> {
    Item(pos, it.key, it.bal, image(it.value, pos + 1 + |WriteStr(it.key)|))
  }

  /** The tree that comes back: same shape, keys and balances, every value the image of the old one. */
  function TreeImage<N, V, W>(t: Tree<N, V>, pos: nat, p: Option<N>, addr: N -> nat, enc: Writer<V>, image: ValueImage<V, W>): Tree<int, W> {
    if t.Leaf? then Leaf
    else
      var posLeft := pos + |DumpNode(t, p, addr, enc)|;
      var posRight := posLeft + |Dump(t.left, Some(t.it.id), addr, enc)|;
      Node(TreeImage(t.left, posLeft, Some(t.it.id), addr, enc, image),
           ItemImage(t.it, pos, image),
           TreeImage(t.right, posRight, Some(t.it.id), addr, enc, image))
  }

  lemma ApplyCodec<V(!new), W>(enc: Writer<V>, dec: Reader<W>, image: ValueImage<V, W>, ok: V -> bool, v: V, mem: Mem, pos: nat)
    requires RoundTrips(enc, dec, image, ok) && ok(v) && At(mem, pos, enc(v))
    ensures ReadWith(dec, mem, pos) == Got(image(v, pos), pos + |enc(v)|)
  {
  }

  lemma NodeRoundTrip<N, V(!new), W>(
      t: Tree<N, V>, p: Option<N>, addr: N -> nat, enc: Writer<V>, dec: Reader<W>, image: ValueImage<V, W>, ok: V -> bool, mem: Mem, pos: nat)
    requires RoundTrips(enc, dec, image, ok) && t.Node? && NulFree(t.it.key) && ok(t.it.value)
    requires At(mem, pos, DumpNode(t, p, addr, enc))
    ensures NodeAt(mem, pos)
    ensures mem[pos].left == Addr(addr, Root(t.left)) && mem[pos].right == Addr(addr, Root(t.right))
    ensures mem[pos].parent == Addr(addr, p)
    ensures ReadNode(dec, mem, pos) == Got(ItemImage(t.it, pos, image), pos + |DumpNode(t, p, addr, enc)|)
  {
    var tok := DumpNode(t, p, addr, enc)[0];
    var k, v := WriteStr(t.it.key), enc(t.it.value);
    assert DumpNode(t, p, addr, enc) == [tok] + (k + v);
    AtHead(mem, pos, tok, k + v);
    AtSplit(mem, pos + 1, k, v);
    StrRoundTrip(t.it.key, mem, pos + 1);
    ApplyCodec(enc, dec, image, ok, t.it.value, mem, pos + 1 + |k|);
  }

  /** Where the two sides of a dumped node begin. */
  lemma DumpParts<N, V>(t: Tree<N, V>, p: Option<N>, addr: N -> nat, enc: Writer<V>, mem: Mem, pos: nat) returns (pos1: nat, pos2: nat)
    requires t.Node? && At(mem, pos, Dump(t, p, addr, enc))
    ensures pos1 == pos + |DumpNode(t, p, addr, enc)| && pos2 == pos1 + |Dump(t.left, Some(t.it.id), addr, enc)|
    ensures At(mem, pos, DumpNode(t, p, addr, enc))
    ensures At(mem, pos1, Dump(t.left, Some(t.it.id), addr, enc)) && At(mem, pos2, Dump(t.right, Some(t.it.id), addr, enc))
  {
    var id := Some(t.it.id);
    var n, l, r := DumpNode(t, p, addr, enc), Dump(t.left, id, addr, enc), Dump(t.right, id, addr, enc);
    AtSplit(mem, pos, n + l, r);
    AtSplit(mem, pos, n, l);
    pos1 := pos + |n|;
    pos2 := pos1 + |l|;
  }

  lemma LeafRoundTrip<W>(dec: Reader<W>, mem: Mem, pos: nat)
    requires At(mem, pos, [EMPTY_NODE])
    ensures Load(dec, mem, pos) == Got(Leaf, pos + 1)
  {
    AtHead(mem, pos, EMPTY_NODE, []);
    assert [EMPTY_NODE] + [] == [EMPTY_NODE];
  }

  /** One step of `Load`, from the results for the parts. */
  lemma LoadStep<W>(dec: Reader<W>, mem: Mem, pos: nat, it: Item<int, W>, pos1: nat,
                    left: Tree<int, W>, pos2: nat, right: Tree<int, W>, pos3: nat)
    requires NodeAt(mem, pos) && ReadNode(dec, mem, pos) == Got(it, pos1)
    requires Load(dec, mem, pos1) == Got(left, pos2) && (left.Leaf? ==> mem[pos].left == 0)
    requires Load(dec, mem, pos2) == Got(right, pos3) && (right.Leaf? ==> mem[pos].right == 0)
    ensures Load(dec, mem, pos) == Got(Node(left, it, right), pos3)
  {
  }

  lemma ImageParts<N, V, W>(t: Tree<N, V>, pos: nat, p: Option<N>, addr: N -> nat, enc: Writer<V>, image: ValueImage<V, W>, pos1: nat, pos2: nat)
    requires t.Node? && pos1 == pos + |DumpNode(t, p, addr, enc)| && pos2 == pos1 + |Dump(t.left, Some(t.it.id), addr, enc)|
    ensures TreeImage(t, pos, p, addr, enc, image)
      == Node(TreeImage(t.left, pos1, Some(t.it.id), addr, enc, image), ItemImage(t.it, pos, image),
              TreeImage(t.right, pos2, Some(t.it.id), addr, enc, image))
    ensures |Dump(t, p, addr, enc)| == pos2 - pos + |Dump(t.right, Some(t.it.id), addr, enc)|
  {
  }

  lemma Combine<N, V, W>(t: Tree<N, V>, p: Option<N>, addr: N -> nat, enc: Writer<V>, dec: Reader<W>, image: ValueImage<V, W>, mem: Mem,
                         pos: nat, pos1: nat, pos2: nat)
    requires t.Node? && NodeAt(mem, pos)
    requires pos1 == pos + |DumpNode(t, p, addr, enc)| && pos2 == pos1 + |Dump(t.left, Some(t.it.id), addr, enc)|
    requires mem[pos].left == Addr(addr, Root(t.left)) && mem[pos].right == Addr(addr, Root(t.right))
    requires ReadNode(dec, mem, pos) == Got(ItemImage(t.it, pos, image), pos1)
    requires Load(dec, mem, pos1) == Got(TreeImage(t.left, pos1, Some(t.it.id), addr, enc, image), pos2)
    requires Load(dec, mem, pos2) == Got(TreeImage(t.right, pos2, Some(t.it.id), addr, enc, image), pos2 + |Dump(t.right, Some(t.it.id), addr, enc)|)
    ensures Load(dec, mem, pos) == Got(TreeImage(t, pos, p, addr, enc, image), pos + |Dump(t, p, addr, enc)|)
  {
    var id := Some(t.it.id);
    LoadStep(dec, mem, pos, ItemImage(t.it, pos, image), pos1,
             TreeImage(t.left, pos1, id, addr, enc, image), pos2,
             TreeImage(t.right, pos2, id, addr, enc, image), pos2 + |Dump(t.right, id, addr, enc)|);
    ImageParts(t, pos, p, addr, enc, image, pos1, pos2);
  }

  /** Reading back a dump gives the same shape, keys, balances and values,
      and consumes exactly what was written. */
  lemma {:induction false} TreeRoundTrip<N, V(!new), W>(
      t: Tree<N, V>, p: Option<N>, addr: N -> nat, enc: Writer<V>, dec: Reader<W>, image: ValueImage<V, W>, ok: V -> bool, mem: Mem, pos: nat)
    requires RoundTrips(enc, dec, image, ok) && AllOk(t, ok)
    requires At(mem, pos, Dump(t, p, addr, enc))
    ensures Load(dec, mem, pos) == Got(TreeImage(t, pos, p, addr, enc, image), pos + |Dump(t, p, addr, enc)|)
    decreases t
  {
    if t.Leaf? {
      LeafRoundTrip(dec, mem, pos);
    } else {
      var id := Some(t.it.id);
      var pos1, pos2 := DumpParts(t, p, addr, enc, mem, pos);
      NodeRoundTrip(t, p, addr, enc, dec, image, ok, mem, pos);
      TreeRoundTrip(t.left, id, addr, enc, dec, image, ok, mem, pos1);
      TreeRoundTrip(t.right, id, addr, enc, dec, image, ok, mem, pos2);
      Combine(t, p, addr, enc, dec, image, mem, pos, pos1, pos2);
    }
  }
}
