/**
 * Mapping a tree where it lies: the tokens of the nodes opened so far, and what each step of the
 * reader makes of them.
 */
module CacheTreeMap {
  import opened CStrings
  import opened Sequences
  import opened AvlModel
  import opened AvlStream
  import opened AvlMap
  import opened CacheTrees

  // A value is the block of tokens that stands in memory after the key.

  type BTree = PTree<Mem>
  type BCtx = PCtx<int, Mem>
  type BCur = Cur<int, Mem>

  /** What follows the structure of a node. */
  function Body(it: Item<int, Mem>): Mem {
    WriteStr(it.key) + it.value
  }

  function NodeOf(visit: Visit, l: Option<int>, r: Option<int>, p: Option<int>, it: Item<int, Mem>): Tok {
    NodeTok(visit, Addr(Address, l), Addr(Address, r), Addr(Address, p), it.bal)
  }

  function Below(t: BTree, it: Item<int, Mem>): Mem {
    Dump(t, Some(it.id), Address, Same)
  }

  /** The nodes above the current one, which hangs at `h`. */
  function CtxPart(c: BCtx, h: Option<int>): Mem
    decreases c
  {
    match c
    case PTop => []
    case PInLeft(up, it, stale) =>
      CtxPart(up, Some(it.id)) + ([NodeOf(Visit(true, false), h, stale, PAbove(up), it)] + Body(it))
    case PInRight(up, left, it) =>
      CtxPart(up, Some(it.id)) + ([NodeOf(Visit(true, true), Root(left), h, PAbove(up), it)] + (Body(it) + Below(left, it)))
  }

  /** The structure of the current node, whose parent is `p`. */
  function CurNode(k: BCur, p: Option<int>): Tok {
    match k
    case Opened(it, sl, sr) => NodeOf(Phase(k), sl, sr, p, it)
    case Half(left, it, sr) => NodeOf(Phase(k), Root(left), sr, p, it)
    case Done(left, it, right) => NodeOf(Phase(k), Root(left), Root(right), p, it)
  }

  /** What follows it. */
  function CurBody(k: BCur): Mem {
    match k
    case Opened(it, _, _) => Body(it)
    case Half(left, it, _) => Body(it) + Below(left, it)
    case Done(left, it, right) => Body(it) + Below(left, it) + Below(right, it)
  }

  ghost predicate CtxPlaced(c: BCtx, start: nat)
    decreases c
  {
    !c.PTop? ==> c.it.id == start + |CtxPart(c.up, Some(c.it.id))| && CtxPlaced(c.up, start)
  }

  /** The memory while the tree at `start` is being mapped: what came before, the nodes opened so far,
      and from `next` on what was there. */
  ghost predicate InPlace(mem: Mem, was: Mem, start: nat, c: BCtx, k: BCur, next: nat) {
    var a, b := CtxPart(c, Some(k.it.id)), [CurNode(k, PAbove(c))] + CurBody(k);
    && 0 < start <= next <= |was| && CtxPlaced(c, start)
    && k.it.id == start + |a| && next == k.it.id + |b|
    && mem == (was[..start] + a) + b + was[next..]
  }

  /** The memory is the old one from `next` on. */
  lemma Unread(mem: Mem, was: Mem, start: nat, c: BCtx, k: BCur, next: nat)
    requires InPlace(mem, was, start, c, k, next)
    ensures SameFrom(was, mem, next) && 0 < k.it.id < next && mem[k.it.id] == CurNode(k, PAbove(c)) && mem[..start] == was[..start]
  {
    var w, a, b, rest := was[..start], CtxPart(c, Some(k.it.id)), [CurNode(k, PAbove(c))] + CurBody(k), was[next..];
    Around(mem, w, a, b, rest);
    forall i | next <= i < |was| ensures was[i] == mem[i] {
      assert rest[i - next] == was[i];
    }
  }

  /** Four parts of a memory. */
  lemma Around(mem: Mem, w: Mem, a: Mem, b: Mem, rest: Mem)
    requires mem == (w + a) + b + rest && |b| > 0
    ensures mem[..|w|] == w && mem[|w| + |a|] == b[0] && |mem| == |w| + |a| + |b| + |rest|
    ensures forall i :: |w| + |a| + |b| <= i < |mem| ==> mem[i] == rest[i - |w| - |a| - |b|]
  {
  }

  /** One cell changes. */
  lemma CellSet(a: Mem, x: Tok, b: Mem, y: Tok)
    ensures (a + ([x] + b))[|a| := y] == a + ([y] + b)
  {
  }

  lemma OpenShape(a: Mem, x: Tok, b: Mem, y: Tok, key: Mem, stale: Mem, rest: Mem, x': Tok, y1: Tok, y': Tok, val: Mem)
    requires |val| == |stale|
    ensures
      var m0 := a + ([x] + b) + ([y] + (key + (stale + rest)));
      var n, q := |a|, |a| + 1 + |b|;
      var m1 := m0[n := x'][q := y1];
      Patch(m1, q + 1 + |key|, val)[q := y'] == (a + ([x'] + b)) + ([y'] + (key + val)) + rest
  {
    var m0 := a + ([x] + b) + ([y] + (key + (stale + rest)));
    var n, q := |a|, |a| + 1 + |b|;
    var m1 := m0[n := x'][q := y1];
    assert m1 == (a + ([x'] + b) + [y1] + key) + (stale + rest);
    var p := q + 1 + |key|;
    assert m1[..p] == a + ([x'] + b) + [y1] + key && m1[p + |val|..] == rest;
  }

  // ----- opening a child -----

  /** The context of a child of the current node. */
  function ChildCtx(c: BCtx, k: BCur): BCtx
    requires !k.Done?
  {
    if k.Opened? then PInLeft(c, k.it, k.staleRight) else PInRight(c, k.left, k.it)
  }

  /** The current node once its child hangs on it. */
  function WithChild(c: BCtx, k: BCur, child: int): Tok
    requires !k.Done?
  {
    if k.Opened? then NodeOf(Visit(true, false), Some(child), k.staleRight, PAbove(c), k.it)
    else NodeOf(Visit(true, true), Root(k.left), Some(child), PAbove(c), k.it)
  }

  function Link(address: nat): Option<int> {
    if address == 0 then None else Some(address)
  }

  /** A node as it was read, its links as dumped. */
  function Taken(it: Item<int, Mem>, tok: Tok): BCur
    requires tok.NodeTok?
  {
    Opened(it, Link(tok.left), Link(tok.right))
  }

  /** The parts of a node that was read. */
  lemma NodeParts(fix: Reader<Mem>, was: Mem, next: nat) returns (it: Item<int, Mem>, p1: nat, end: nat)
    requires Sized(Same, fix) && NodeAt(was, next) && ReadNode(fix, was, next).Got?
    ensures ReadNode(fix, was, next) == Got(it, end) && it.id == next && it.bal == was[next].bal
    ensures p1 == next + 1 + |WriteStr(it.key)| && end == p1 + |it.value| <= |was|
    ensures ReadStr(was, next + 1) == Got(it.key, p1) && fix(was, p1) == Got(it.value, end)
    ensures was[next..] == [was[next]] + (WriteStr(it.key) + (was[p1..end] + was[end..]))
  {
    it, end := ReadNode(fix, was, next).value, ReadNode(fix, was, next).next;
    StrRead(was, next + 1);
    p1 := next + 1 + |WriteStr(it.key)|;
    assert was[next..] == [was[next]] + (was[next + 1..p1] + (was[p1..end] + was[end..]));
  }

  lemma OpenStep(fix: Reader<Mem>, mem: Mem, was: Mem, start: nat, c: BCtx, k: BCur, next: nat)
    returns (c': BCtx, k': BCur, p1: nat, end: nat)
    requires InPlace(mem, was, start, c, k, next) && !k.Done?
    requires Sized(Same, fix) && NodeAt(was, next) && ReadNode(fix, was, next).Got?
    ensures c' == ChildCtx(c, k) && k' == Taken(ReadNode(fix, was, next).value, was[next])
    ensures ReadNode(fix, was, next).next == end && ReadStr(was, next + 1) == Got(k'.it.key, p1) && p1 <= end <= |was|
    ensures fix(was, p1) == Got(k'.it.value, end) && next < p1 && end == p1 + |k'.it.value|
    ensures 0 < k.it.id < next < |mem| == |was|
    ensures
      var m1 := mem[k.it.id := WithChild(c, k, next)][next := was[next].(parent := k.it.id)];
      InPlace(Patch(m1, p1, k'.it.value)[next := CurNode(k', Some(k.it.id))], was, start, c', k', end)
  {
    var it;
    it, p1, end := NodeParts(fix, was, next);
    c', k' := ChildCtx(c, k), Taken(it, was[next]);
    Unread(mem, was, start, c, k, next);
    var n, w, up, b := k.it.id, was[..start], CtxPart(c, Some(k.it.id)), CurBody(k);
    var x', y1, y' := WithChild(c, k, next), was[next].(parent := n), CurNode(k', Some(n));
    var m1 := mem[n := x'][next := y1];
    assert mem == (w + up) + ([CurNode(k, PAbove(c))] + b) + ([was[next]] + (WriteStr(it.key) + (was[p1..end] + was[end..])));
    var r := ChildOpened(mem, w, up, CurNode(k, PAbove(c)), b, was[next], WriteStr(it.key), was[p1..end], was[end..], n, next, p1, x', y1, y', it.value);
    OpenParts(c, k, c', next);
    Placing(r, was, start, c', k', end, up + ([x'] + b), [y'] + (WriteStr(it.key) + it.value));
  }

  lemma ChildOpened(mem: Mem, w: Mem, up: Mem, x: Tok, b: Mem, y: Tok, key: Mem, stale: Mem, rest: Mem,
                n: nat, next: nat, p1: nat, x': Tok, y1: Tok, y': Tok, val: Mem) returns (r: Mem)
    requires |val| == |stale| && mem == (w + up) + ([x] + b) + ([y] + (key + (stale + rest)))
    requires n == |w| + |up| && next == n + 1 + |b| && p1 == next + 1 + |key|
    ensures r == Patch(mem[n := x'][next := y1], p1, val)[next := y']
    ensures r == (w + (up + ([x'] + b))) + ([y'] + (key + val)) + rest
  {
    OpenShape(w + up, x, b, y, key, stale, rest, x', y1, y', val);
    Regrouped(w, up, [x'] + b);
    r := Patch(mem[n := x'][next := y1], p1, val)[next := y'];
  }

  /** The parts that stand are those of the state. */
  lemma Placing(mem: Mem, was: Mem, start: nat, c: BCtx, k: BCur, next: nat, a: Mem, b: Mem)
    requires a == CtxPart(c, Some(k.it.id)) && b == [CurNode(k, PAbove(c))] + CurBody(k)
    requires 0 < start <= next <= |was| && CtxPlaced(c, start) && k.it.id == start + |a| && next == k.it.id + |b|
    requires mem == (was[..start] + a) + b + was[next..]
    ensures InPlace(mem, was, start, c, k, next)
  {
  }

  lemma OpenParts(c: BCtx, k: BCur, c': BCtx, next: int)
    requires !k.Done? && c' == ChildCtx(c, k)
    ensures CtxPart(c', Some(next)) == CtxPart(c, Some(k.it.id)) + ([WithChild(c, k, next)] + CurBody(k))
  {
  }

  // ----- a missing child -----

  /** The current node without the child. */
  function Without(k: BCur): BCur
    requires !k.Done?
  {
    if k.Opened? then Half(Leaf, k.it, k.staleRight) else Done(k.left, k.it, Leaf)
  }

  lemma SkipStep(mem: Mem, was: Mem, start: nat, c: BCtx, k: BCur, next: nat) returns (k': BCur)
    requires InPlace(mem, was, start, c, k, next) && !k.Done? && next < |was| && was[next] == EMPTY_NODE
    requires (k.Opened? ==> k.staleLeft.None?) && (k.Half? ==> k.staleRight.None?)
    ensures k' == Without(k) && 0 < k.it.id < |mem| && InPlace(mem[k.it.id := CurNode(k', PAbove(c))], was, start, c, k', next + 1)
  {
    k' := Without(k);
    Unread(mem, was, start, c, k, next);
    var a, b, y := was[..start] + CtxPart(c, Some(k.it.id)), CurBody(k), CurNode(k', PAbove(c));
    assert was[next..] == [EMPTY_NODE] + was[next + 1..];
    SkipShape(a, CurNode(k, PAbove(c)), b, was[next..], y, EMPTY_NODE, was[next + 1..]);
    assert CurBody(k') == b + [EMPTY_NODE];
  }

  lemma SkipShape(a: Mem, x: Tok, b: Mem, rest: Mem, y: Tok, e: Tok, more: Mem)
    requires rest == [e] + more
    ensures (a + ([x] + b) + rest)[|a| := y] == a + ([y] + (b + [e])) + more
  {
  }

  // ----- back to the parent -----

  lemma CloseStep(mem: Mem, was: Mem, start: nat, c: BCtx, k: BCur, next: nat) returns (c': BCtx, k': BCur)
    requires InPlace(mem, was, start, c, k, next) && k.Done? && !c.PTop?
    ensures c' == c.up && k' == Close(c, k) && InPlace(mem, was, start, c', k', next)
  {
    c', k' := c.up, Close(c, k);
    CloseParts(c, k);
    var a, b, d := was[..start], CtxPart(c, Some(k.it.id)), [CurNode(k, PAbove(c))] + CurBody(k);
    Regrouped(a, b, d);
    Regrouped(a, CtxPart(c', Some(k'.it.id)), [CurNode(k', PAbove(c'))] + CurBody(k'));
  }

  lemma CloseParts(c: BCtx, k: BCur)
    requires k.Done? && !c.PTop?
    ensures var k' := Close(c, k);
      CtxPart(c, Some(k.it.id)) + ([CurNode(k, PAbove(c))] + CurBody(k)) == CtxPart(c.up, Some(c.it.id)) + ([CurNode(k', PAbove(c.up))] + CurBody(k'))
  {
    DoneIsDump(k, Some(c.it.id));
    var up, k', d := CtxPart(c.up, Some(c.it.id)), Close(c, k), Below(Node(k.left, k.it, k.right), c.it);
    var x := CurNode(k', PAbove(c.up));
    var body := if c.PInLeft? then Body(c.it) else Body(c.it) + Below(c.left, c.it);
    assert CtxPart(c, Some(k.it.id)) == up + ([x] + body);
    assert CurBody(k') == body + d;
    CloseShape(up, x, body, d);
  }

  lemma CloseShape(up: Mem, x: Tok, body: Mem, d: Mem)
    ensures (up + ([x] + body)) + d == up + ([x] + (body + d))
  {
  }

  /** A finished node stands as the dump of its subtree. */
  lemma DoneIsDump(k: BCur, p: Option<int>)
    requires k.Done?
    ensures [CurNode(k, p)] + CurBody(k) == Dump(Node(k.left, k.it, k.right), p, Address, Same)
  {
    var x, key, v, l, r := CurNode(k, p), WriteStr(k.it.key), k.it.value, Below(k.left, k.it), Below(k.right, k.it);
    assert [x] + ((key + v) + l + r) == [x] + key + v + l + r;
  }

  /** The end: the whole tree stands as its dump. */
  lemma FinishStep(mem: Mem, was: Mem, start: nat, k: BCur, next: nat)
    requires InPlace(mem, was, start, PTop, k, next) && k.Done?
    ensures var s := Dump(Node(k.left, k.it, k.right), None, Address, Same); next == start + |s| && mem == Patch(was, start, s)
  {
    DoneIsDump(k, None);
    assert was[..start] + [] == was[..start];
  }

  /** The root, as it was taken. */
  lemma StartStep(fix: Reader<Mem>, was: Mem, start: nat) returns (k: BCur, p1: nat, end: nat)
    requires Sized(Same, fix) && NodeAt(was, start) && ReadNode(fix, was, start).Got? && start > 0 && was[start].parent == 0
    ensures k == Taken(ReadNode(fix, was, start).value, was[start]) && ReadNode(fix, was, start).next == end
    ensures ReadStr(was, start + 1) == Got(k.it.key, p1) && start < p1 <= end <= |was|
    ensures fix(was, p1) == Got(k.it.value, end) && end == p1 + |k.it.value|
    ensures InPlace(Patch(was, p1, k.it.value)[start := CurNode(k, None)], was, start, PTop, k, end)
  {
    var it;
    it, p1, end := NodeParts(fix, was, start);
    k := Taken(it, was[start]);
    StartShape(was[..start], was[start], WriteStr(it.key), was[p1..end], was[end..], CurNode(k, None), it.value, was);
    assert was[..start] + [] == was[..start];
  }

  lemma StartShape(a: Mem, y: Tok, key: Mem, stale: Mem, rest: Mem, y': Tok, val: Mem, was: Mem)
    requires |val| == |stale| && was == a + ([y] + (key + (stale + rest)))
    ensures Patch(was, |a| + 1 + |key|, val)[|a| := y'] == a + ([y'] + (key + val)) + rest
  {
    var front, body := a + ([y] + key), key + val + rest;
    FrontAssoc(a, y, key, stale + rest);
    Split3(was, front, stale, rest);
    var r := Patch(was, |front|, val);
    assert r == front + val + rest;
    Regrouped(front, val, rest);
    FrontAssoc(a, y, key, val + rest);
    Regrouped(key, val, rest);
    CellSet(a, y, body, y');
    FrontAssoc(a, y', key + val, rest);
  }

  lemma FrontAssoc(a: Mem, y: Tok, key: Mem, rest: Mem)
    ensures (a + ([y] + key)) + rest == a + ([y] + (key + rest))
  {
  }

  lemma Split3(s: Mem, a: Mem, b: Mem, c: Mem)
    requires s == a + (b + c)
    ensures s[..|a|] == a && s[|a| + |b|..] == c
  {
  }
}
