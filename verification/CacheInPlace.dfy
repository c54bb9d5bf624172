/**
 * Reading the desktop cache: every structure of the mapped file is linked where it lies. What is left
 * in memory is what writing the index read would write.
 */
module CacheInPlace {
  import opened CStrings
  import opened AvlModel
  import opened AvlStream
  import opened AvlMap
  import opened CacheTrees
  import opened CacheTreeMap
  import opened CacheLists
  import opened CacheRelink
  import opened DesktopCache

  // ----- readers of the cache look only forward, and consume what they would write -----

  lemma {:induction false} ItemsLocal(m: Mem, m': Mem, pos: nat, fix: (int, string) -> int)
    requires SameFrom(m, m', pos)
    ensures ReadItems(m', pos, fix) == ReadItems(m, pos, fix)
    decreases |m| - pos
  {
    ReadStrSame(m, m', pos + 1);
    if pos < |m| && m[pos].ItemTok? && ReadStr(m, pos + 1).Got? {
      ItemsLocal(m, m', ReadStr(m, pos + 1).next, fix);
    }
  }

  lemma ListLocal(m: Mem, m': Mem, list: nat, fix: (int, string) -> int)
    requires SameFrom(m, m', list) && list < |m| && IsHeader(m[list])
    ensures m'[list] == m[list] && ReadList(m', list, fix) == ReadList(m, list, fix)
  {
    ItemsLocal(m, m', list + 1, fix);
  }

  lemma {:induction false} ItemsSized(mem: Mem, list: nat, s: seq<MItem>, i: nat, pos: nat, fix: (int, string) -> int, end: nat)
    requires i < |s| && ReadItems(mem, pos, fix) == Got(s[i..], end)
    ensures end == pos + |WriteItems(list, s, i)|
    decreases |s| - i
  {
    var next := ItemHere(mem, s, i, pos, fix, end);
    StrRead(mem, pos + 1);
    if i + 1 < |s| { ItemsSized(mem, list, s, i + 1, next, fix, end); }
  }

  lemma ListSized(mem: Mem, list: nat, at: nat, fix: (int, string) -> int)
    requires list < |mem| && IsHeader(mem[list]) && ReadList(mem, list, fix).Got?
    ensures var r := ReadList(mem, list, fix); r.next == list + 1 + |WriteItems(at, r.value, 0)|
  {
    if HeadOf(mem[list]) != 0 {
      var r := ReadList(mem, list, fix);
      ReadPlaces(mem, list + 1, fix);
      assert r.value[0..] == r.value;
      ItemsSized(mem, at, r.value, 0, list + 1, fix, r.next);
    }
  }

  ghost predicate Lawful<V>(enc: Writer<V>, dec: Reader<V>) {
    Local(dec) && Sized(enc, dec)
  }

  lemma ChainLaws(fix: (int, string) -> int, dec: Reader<Values>)
    requires forall mem: Mem, pos: nat {:trigger dec(mem, pos)} :: dec(mem, pos) == ReadChain(mem, pos, fix)
    ensures Lawful(WriteValues, dec)
  {
    forall m: Mem, m': Mem, pos: nat | SameFrom(m, m', pos) ensures dec(m, pos) == dec(m', pos) {
      if pos < |m| && m[pos].ListTok? { ListLocal(m, m', pos, fix); }
    }
    forall mem: Mem, pos: nat | dec(mem, pos).Got?
      ensures dec(mem, pos).next <= |mem| && dec(mem, pos).next == pos + |WriteValues(dec(mem, pos).value)|
    {
      ListSized(mem, pos, pos, fix);
    }
  }

  lemma TreeLaws<V>(enc: Writer<V>, dec: Reader<V>, tenc: Writer<PTree<V>>, tdec: Reader<PTree<V>>)
    requires Lawful(enc, dec)
    requires forall t {:trigger tenc(t)} :: tenc(t) == WriteTree(t, enc)
    requires forall mem: Mem, pos: nat {:trigger tdec(mem, pos)} :: tdec(mem, pos) == ReadTree(dec, mem, pos)
    ensures Lawful(tenc, tdec)
  {
    forall m: Mem, m': Mem, pos: nat | SameFrom(m, m', pos) ensures tdec(m, pos) == tdec(m', pos) {
      TreeLocal(dec, m, m', pos);
    }
    forall mem: Mem, pos: nat | tdec(mem, pos).Got?
      ensures tdec(mem, pos).next <= |mem| && tdec(mem, pos).next == pos + |tenc(tdec(mem, pos).value)|
    {
      TreeSized(enc, dec, mem, pos);
    }
  }

  lemma EntryLaws()
    ensures Lawful(WriteEntry, ReadEntry)
  {
    ChainLaws(KeepExtra, ReadValues);
    forall m: Mem, m': Mem, pos: nat | SameFrom(m, m', pos) ensures ReadEntry(m, pos) == ReadEntry(m', pos) {
      if pos < |m| && m[pos].EntryTok? {
        ListLocal(m, m', pos, KeepExtra);
        if ReadList(m, pos, KeepExtra).Got? { TreeLocal(ReadValues, m, m', ReadList(m, pos, KeepExtra).next); }
      }
    }
    forall mem: Mem, pos: nat | ReadEntry(mem, pos).Got?
      ensures ReadEntry(mem, pos).next <= |mem| && ReadEntry(mem, pos).next == pos + |WriteEntry(ReadEntry(mem, pos).value)|
    {
      ListSized(mem, pos, pos, KeepExtra);
      TreeSized(WriteValues, ReadValues, mem, ReadList(mem, pos, KeepExtra).next);
    }
  }

  lemma GroupLaws()
    ensures Lawful(WriteGroup, ReadGroup)
  {
    EntryLaws();
    TreeLaws(WriteEntry, ReadEntry, WriteGroup, ReadGroup);
  }

  lemma AppLaws()
    ensures Lawful(WriteApp, ReadApp)
  {
    GroupLaws();
    forall m: Mem, m': Mem, pos: nat | SameFrom(m, m', pos) ensures ReadApp(m, pos) == ReadApp(m', pos) {
      TreeLocal(ReadGroup, m, m', pos + 2);
    }
    forall mem: Mem, pos: nat | ReadApp(mem, pos).Got?
      ensures ReadApp(mem, pos).next <= |mem| && ReadApp(mem, pos).next == pos + |WriteApp(ReadApp(mem, pos).value)|
    {
      if mem[pos].groups != 0 { TreeSized(WriteGroup, ReadGroup, mem, pos + 2); }
    }
  }

  lemma MimeTypeLaws(apps: PTree<App>)
    ensures Lawful(WriteSubType, ReadSubType(apps)) && Lawful(WriteMimeType, ReadMimeType(apps))
  {
    ChainLaws(Resolve(apps), ReadSubType(apps));
    assert Lawful(WriteSubType, ReadSubType(apps)) by {
      forall mem: Mem, pos: nat | ReadSubType(apps)(mem, pos).Got?
        ensures ReadSubType(apps)(mem, pos).next == pos + |WriteSubType(ReadSubType(apps)(mem, pos).value)|
      {
        assert WriteSubType(ReadSubType(apps)(mem, pos).value) == WriteValues(ReadSubType(apps)(mem, pos).value);
      }
    }
    TreeLaws(WriteSubType, ReadSubType(apps), WriteMimeType, ReadMimeType(apps));
  }

  // ----- the read functions that are passed to the tree reader -----

  /** What a value of the kind is when it has been read: the tokens that writing it would give. */
  function FixerOf(kind: Kind, apps: PTree<App>): Reader<Mem> {
    match kind
    case Strings => Rewrite(WriteValues, ReadValues)
    case EntryValue => Rewrite(WriteEntry, ReadEntry)
    case GroupValue => Rewrite(WriteGroup, ReadGroup)
    case AppValue => Rewrite(WriteApp, ReadApp)
    case SubTypeValue => Rewrite(WriteSubType, ReadSubType(apps))
    case MimeTypeValue => Rewrite(WriteMimeType, ReadMimeType(apps))
  }

  lemma KindLaws(kind: Kind, apps: PTree<App>)
    ensures Local(FixerOf(kind, apps)) && Sized(Same, FixerOf(kind, apps))
  {
    match kind
    case Strings => ChainLaws(KeepExtra, ReadValues); RewriteLaws(WriteValues, ReadValues);
    case EntryValue => EntryLaws(); RewriteLaws(WriteEntry, ReadEntry);
    case GroupValue => GroupLaws(); RewriteLaws(WriteGroup, ReadGroup);
    case AppValue => AppLaws(); RewriteLaws(WriteApp, ReadApp);
    case SubTypeValue => MimeTypeLaws(apps); RewriteLaws(WriteSubType, ReadSubType(apps));
    case MimeTypeValue => MimeTypeLaws(apps); RewriteLaws(WriteMimeType, ReadMimeType(apps));
  }

  // ----- the tree reader, in place -----

  function Itself(n: int): int { n }

  function Own(): Names<int, int> {
    Names(Itself, Itself)
  }

  lemma {:induction false} RenameSelf<V>(t: PTree<V>)
    ensures Rename(t, Itself) == t
  {
    if t.Node? {
      RenameSelf(t.left);
      RenameSelf(t.right);
    }
  }

  /** Markers of missing children are all zero. */
  ghost predicate Zeroed(mem: Mem, pos: nat) {
    forall i :: pos <= i < |mem| && EmptyAt(mem, i) ==> mem[i] == EMPTY_NODE
  }

  /** The applications stand in memory before `pos`, their tree at `root`. */
  ghost predicate Known(mem: Mem, root: nat, apps: PTree<App>, limit: nat, pos: nat) {
    && limit <= pos && Stands(mem, apps, limit) && root == Addr(Address, Root(apps))
    && forall name {:trigger Place(apps, name)} :: AppAddress(apps, name) == Place(apps, name)
  }

  /** What the readers need of the memory from `pos` on, and before. */
  ghost predicate Ready(mem: Mem, root: nat, apps: PTree<App>, limit: nat, pos: nat) {
    Zeroed(mem, pos) && Known(mem, root, apps, limit, pos)
  }

  /** Changes between `limit` and `pos` do not matter. */
  lemma StillReady(mem: Mem, mem': Mem, root: nat, apps: PTree<App>, limit: nat, pos: nat, pos': nat)
    requires Ready(mem, root, apps, limit, pos) && pos <= pos' && SameFrom(mem, mem', pos') && mem'[..limit] == mem[..limit]
    ensures Ready(mem', root, apps, limit, pos')
  {
    StandsKept(mem, mem', apps, limit);
  }

  lemma PatchSame(mem: Mem, pos: nat, s: Mem, limit: nat)
    requires pos + |s| <= |mem| && limit <= pos
    ensures var r := Patch(mem, pos, s); |r| == |mem| && SameFrom(mem, r, pos + |s|) && r[..limit] == mem[..limit] && At(r, pos, s)
  {
    var r := Patch(mem, pos, s);
    assert r[pos..pos + |s|] == s;
  }

  lemma PatchTwice(mem: Mem, pos: nat, a: Mem, b: Mem)
    requires pos + |a| + |b| <= |mem|
    ensures Patch(Patch(mem, pos, a), pos + |a|, b) == Patch(mem, pos, a + b)
  {
    var m := Patch(mem, pos, a);
    assert m[..pos + |a|] == mem[..pos] + a && m[pos + |a| + |b|..] == mem[pos + |a| + |b|..];
  }

  // ----- the shape of each method's contract -----

  /** The value at `pos` reads, and may be mapped. */
  ghost predicate Readable(mem: Mem, pos: nat, kind: Kind, root: nat, apps: PTree<App>, limit: nat) {
    FixerOf(kind, apps)(mem, pos).Got? && Ready(mem, root, apps, limit, pos)
  }

  ghost predicate TreeReadable(mem: Mem, pos: nat, kind: Kind, root: nat, apps: PTree<App>, limit: nat) {
    ReadTree(FixerOf(kind, apps), mem, pos).Got? && Ready(mem, root, apps, limit, pos)
  }

  ghost predicate ValueMapped(mem: Mem, was: Mem, pos: nat, kind: Kind, apps: PTree<App>, next: nat) {
    var r := FixerOf(kind, apps)(was, pos);
    r.Got? && next == r.next == pos + |r.value| && next <= |was| && mem == Patch(was, pos, r.value)
  }

  ghost predicate TreeMapped(mem: Mem, was: Mem, pos: nat, kind: Kind, apps: PTree<App>, next: nat) {
    var r := ReadTree(FixerOf(kind, apps), was, pos);
    r.Got? && next == r.next == pos + |WriteTree(r.value, Same)| && next <= |was| && mem == Patch(was, pos, WriteTree(r.value, Same))
  }

  /** The writes that hang the structure at `next` below the current node. */
  method HangChild(mem: array<Tok>, n: nat, next: nat)
    requires n < next < mem.Length && mem[n].NodeTok? && mem[next].NodeTok?
    modifies mem
    ensures
      var x := old(mem[n]);
      var x' := if !x.visit.left then x.(left := next, visit := Visit(true, x.visit.right)) else x.(right := next, visit := Visit(x.visit.left, true));
      mem[..] == old(mem[..])[n := x'][next := old(mem[next]).(parent := n)]
  {
    if !mem[n].visit.left {
      mem[n] := mem[n].(left := next, visit := Visit(true, mem[n].visit.right));
    } else {
      mem[n] := mem[n].(right := next, visit := Visit(mem[n].visit.left, true));
    }
    mem[next] := mem[next].(parent := n);
  }

  /** Hanging the child leaves its key and value as they were, and its value may be mapped. */
  lemma ChildHung(kind: Kind, root: nat, apps: PTree<App>, limit: nat, m0: Mem, was: Mem, start: nat, c: BCtx, k: BCur, next: nat)
    returns (m1: Mem, c': BCtx, k': BCur, p1: nat, end: nat)
    requires InPlace(m0, was, start, c, k, next) && !k.Done? && limit <= start && Ready(was, root, apps, limit, start)
    requires NodeAt(was, next) && ReadNode(FixerOf(kind, apps), was, next).Got?
    ensures 0 <= k.it.id < next < p1 <= end <= |m0| && end == p1 + |k'.it.value|
    ensures m0[k.it.id] == CurNode(k, PAbove(c)) && m0[next] == was[next]
    ensures m1 == m0[k.it.id := WithChild(c, k, next)][next := was[next].(parent := k.it.id)]
    ensures ReadStr(m1, next + 1) == Got(k'.it.key, p1) && FixerOf(kind, apps)(m1, p1) == Got(k'.it.value, end)
    ensures Readable(m1, p1, kind, root, apps, limit)
    ensures c' == ChildCtx(c, k) && k' == Taken(ReadNode(FixerOf(kind, apps), was, next).value, was[next]) && k'.it.id == next
    ensures ReadNode(FixerOf(kind, apps), was, next).next == end
    ensures InPlace(Patch(m1, p1, k'.it.value)[next := CurNode(k', Some(k.it.id))], was, start, c', k', end)
  {
    KindLaws(kind, apps);
    Unread(m0, was, start, c, k, next);
    c', k', p1, end := OpenStep(FixerOf(kind, apps), m0, was, start, c, k, next);
    m1 := m0[k.it.id := WithChild(c, k, next)][next := was[next].(parent := k.it.id)];
    HungReady(kind, root, apps, limit, m0, m1, was, start, k.it.id, next, p1);
  }

  lemma HungReady(kind: Kind, root: nat, apps: PTree<App>, limit: nat, m0: Mem, m1: Mem, was: Mem, start: nat, n: nat, next: nat, p1: nat)
    requires Ready(was, root, apps, limit, start) && limit <= start <= n < next < p1 <= |was| == |m0|
    requires SameFrom(was, m0, next) && m0[..start] == was[..start] && Local(FixerOf(kind, apps))
    requires |m1| == |m0| && forall i :: 0 <= i < |m0| && i != n && i != next ==> m1[i] == m0[i]
    ensures ReadStr(m1, next + 1) == ReadStr(was, next + 1) && FixerOf(kind, apps)(m1, p1) == FixerOf(kind, apps)(was, p1)
    ensures Ready(m1, root, apps, limit, p1)
  {
    ReadStrSame(was, m1, next + 1);
    assert m1[..limit] == m0[..start][..limit] == was[..start][..limit] == was[..limit];
    StillReady(was, m1, root, apps, limit, start, p1);
  }

  /** The branch for a child that is there: it is hung below the current node and its key and value are read. */
  method MapChild(mem: array<Tok>, n: nat, next: nat, kind: Kind, root: nat, ghost apps: PTree<App>, ghost limit: nat,
                  ghost was: Mem, ghost start: nat, ghost c: BCtx, ghost k: BCur)
    returns (next': nat, ghost c': BCtx, ghost k': BCur)
    requires InPlace(mem[..], was, start, c, k, next) && n == k.it.id && !k.Done? && limit <= start && Ready(was, root, apps, limit, start)
    requires NodeAt(was, next) && ReadNode(FixerOf(kind, apps), was, next).Got?
    modifies mem
    ensures InPlace(mem[..], was, start, c', k', next') && k'.it.id == next < next'
    ensures Outcome(FixerOf(kind, apps), was, Own(), c', k', next') == Outcome(FixerOf(kind, apps), was, Own(), c, k, next)
    decreases Rank(kind), 1
  {
    ghost var m1, p1, end;
    m1, c', k', p1, end := ChildHung(kind, root, apps, limit, mem[..], was, start, c, k, next);
    HangChild(mem, n, next);
    assert mem[..] == m1;
    next' := MapHung(mem, next, kind, root, apps, limit, m1, k', p1, end);
    assert mem[..] == Patch(m1, p1, k'.it.value)[next := CurNode(k', Some(n))];
    ChildTaken(FixerOf(kind, apps), was, c, k, next, c', k', next');
  }

  /** Key and value of the structure at `next`, and its mark. */
  method MapHung(mem: array<Tok>, next: nat, kind: Kind, root: nat, ghost apps: PTree<App>, ghost limit: nat,
                 ghost m1: Mem, ghost k: BCur, ghost p1: nat, ghost end: nat) returns (next': nat)
    requires mem[..] == m1 && next < p1 <= end == p1 + |k.it.value| <= |m1| && m1[next].NodeTok?
    requires ReadStr(m1, next + 1) == Got(k.it.key, p1) && FixerOf(kind, apps)(m1, p1) == Got(k.it.value, end)
    requires Readable(m1, p1, kind, root, apps, limit)
    modifies mem
    ensures next' == end && mem[..] == Patch(m1, p1, k.it.value)[next := m1[next].(visit := Visit(false, false))]
    decreases Rank(kind), 0, 2
  {
    var key := ReadStr(mem[..], next + 1);
    next' := MapValue(mem, key.next, kind, root, apps, limit);
    mem[next] := mem[next].(visit := Visit(false, false));
  }

  /** The branch for a child that is missing. */
  method SkipChild(mem: array<Tok>, n: nat, next: nat, ghost fix: Reader<Mem>, ghost was: Mem, ghost start: nat, ghost c: BCtx, ghost k: BCur)
    returns (ghost k': BCur)
    requires InPlace(mem[..], was, start, c, k, next) && n == k.it.id && !k.Done? && EmptyAt(was, next) && was[next] == EMPTY_NODE
    requires Outcome(fix, was, Own(), c, k, next).Got?
    modifies mem
    ensures k'.it.id == n && InPlace(mem[..], was, start, c, k', next + 1)
    ensures Outcome(fix, was, Own(), c, k', next + 1) == Outcome(fix, was, Own(), c, k, next)
  {
    OutcomeSkips(fix, was, Own(), c, k, next);
    Unread(mem[..], was, start, c, k, next);
    k' := SkipStep(mem[..], was, start, c, k, next);
    if !mem[n].visit.left {
      mem[n] := mem[n].(visit := Visit(true, mem[n].visit.right));
    } else {
      mem[n] := mem[n].(visit := Visit(mem[n].visit.left, true));
    }
  }

  /** What the reader finds at `next`: the structure of a child, or the marker of a missing one. */
  lemma ChildThere(fix: Reader<Mem>, m0: Mem, was: Mem, start: nat, c: BCtx, k: BCur, next: nat)
    requires InPlace(m0, was, start, c, k, next) && !k.Done? && Outcome(fix, was, Own(), c, k, next).Got? && Zeroed(was, start)
    ensures next < |m0| == |was| && m0[next] == was[next] && was[next].NodeTok?
    ensures was[next].visit != Visit(false, false) ==> NodeAt(was, next) && ReadNode(fix, was, next).Got?
    ensures was[next].visit == Visit(false, false) ==> EmptyAt(was, next) && was[next] == EMPTY_NODE
  {
    OutcomeReads(fix, was, Own(), c, k, next);
    Unread(m0, was, start, c, k, next);
  }

  /** A child that was taken does not change the outcome. */
  lemma ChildTaken(fix: Reader<Mem>, was: Mem, c: BCtx, k: BCur, next: nat, c': BCtx, k': BCur, end: nat)
    requires !k.Done? && NodeAt(was, next) && ReadNode(fix, was, next).Got? && ReadNode(fix, was, next).next == end
    requires c' == ChildCtx(c, k) && k' == Taken(ReadNode(fix, was, next).value, was[next])
    ensures Outcome(fix, was, Own(), c', k', end) == Outcome(fix, was, Own(), c, k, next)
  {
    if k.Opened? {
      OutcomeOpensLeft(fix, was, Own(), c, k, next, k', end);
    } else {
      OutcomeOpensRight(fix, was, Own(), c, k, next, k', end);
    }
  }

  /** One side of the current node. */
  method MapSide(mem: array<Tok>, n: nat, next: nat, kind: Kind, root: nat, ghost apps: PTree<App>, ghost limit: nat,
                 ghost was: Mem, ghost start: nat, ghost c: BCtx, ghost k: BCur)
    returns (n': nat, next': nat, ghost c': BCtx, ghost k': BCur)
    requires InPlace(mem[..], was, start, c, k, next) && n == k.it.id && !k.Done? && limit <= start && Ready(was, root, apps, limit, start)
    requires Outcome(FixerOf(kind, apps), was, Own(), c, k, next).Got?
    modifies mem
    ensures InPlace(mem[..], was, start, c', k', next') && n' == k'.it.id && next < next'
    ensures Outcome(FixerOf(kind, apps), was, Own(), c', k', next') == Outcome(FixerOf(kind, apps), was, Own(), c, k, next)
    decreases Rank(kind), 2
  {
    hide InPlace, Outcome;
    ChildThere(FixerOf(kind, apps), mem[..], was, start, c, k, next);
    if mem[next].visit != Visit(false, false) {
      n' := next;
      next', c', k' := MapChild(mem, n, next, kind, root, apps, limit, was, start, c, k);
    } else {
      n', next', c' := n, next + 1, c;
      k' := SkipChild(mem, n, next, FixerOf(kind, apps), was, start, c, k);
    }
  }

  /** The root and its key and value. */
  method MapRoot(mem: array<Tok>, start: nat, kind: Kind, root: nat, ghost apps: PTree<App>, ghost limit: nat)
    returns (next: nat, ghost k: BCur)
    requires start > 0 && NodeAt(mem[..], start) && mem[start].parent == 0 && ReadNode(FixerOf(kind, apps), mem[..], start).Got?
    requires limit <= start && Ready(mem[..], root, apps, limit, start)
    modifies mem
    ensures InPlace(mem[..], old(mem[..]), start, PTop, k, next) && k.it.id == start
    ensures var was := old(mem[..]);
      k == Taken(ReadNode(FixerOf(kind, apps), was, start).value, was[start]) && next == ReadNode(FixerOf(kind, apps), was, start).next
    decreases Rank(kind), 1
  {
    KindLaws(kind, apps);
    ghost var was, p1, end := mem[..], 0, 0;
    k, p1, end := StartStep(FixerOf(kind, apps), was, start);
    StillReady(was, was, root, apps, limit, start, p1);
    next := MapHung(mem, start, kind, root, apps, limit, was, k, p1, end);
    assert mem[..] == Patch(was, p1, k.it.value)[start := CurNode(k, None)];
  }

  /** `map_subtree_from_memory` where a node is. */
  method MapSubtree(mem: array<Tok>, start: nat, kind: Kind, root: nat, ghost apps: PTree<App>, ghost limit: nat) returns (next: nat)
    requires start > 0 && NodeAt(mem[..], start) && mem[start].parent == 0 && Load(FixerOf(kind, apps), mem[..], start).Got?
    requires limit <= start && Ready(mem[..], root, apps, limit, start)
    modifies mem
    ensures var (was, r) := (old(mem[..]), Load(FixerOf(kind, apps), old(mem[..]), start));
      var s := Dump(r.value, None, Address, Same);
      next == r.next == start + |s| && next <= |was| && mem[..] == Patch(was, start, s)
    decreases Rank(kind), 3, 0
  {
    ghost var was, fix := mem[..], FixerOf(kind, apps);
    ghost var c, k: BCur;
    c := PTop;
    next, k := MapRoot(mem, start, kind, root, apps, limit);
    var n := start;
    OutcomeOpens(fix, was, Own(), start, k, next);
    RenameSelf(Load(fix, was, start).value);
    while true
      invariant InPlace(mem[..], was, start, c, k, next) && n == k.it.id
      invariant Outcome(fix, was, Own(), c, k, next) == Load(fix, was, start)
      decreases |was| - next, Depth(c)
    {
      Unread(mem[..], was, start, c, k, next);
      if mem[n].visit.left && mem[n].visit.right {
        if mem[n].parent == 0 {
          break;
        }
        n := mem[n].parent;
        OutcomeCloses(fix, was, Own(), c, k, next);
        c, k := CloseStep(mem[..], was, start, c, k, next);
      } else {
        n, next, c, k := MapSide(mem, n, next, kind, root, apps, limit, was, start, c, k);
      }
    }
    FinishStep(mem[..], was, start, k, next);
    RenameSelf(Node(k.left, k.it, k.right));
  }

  /** `map_from_memory`. */
  method MapTree(mem: array<Tok>, pos: nat, kind: Kind, root: nat, ghost apps: PTree<App>, ghost limit: nat) returns (next: nat)
    requires TreeReadable(mem[..], pos, kind, root, apps, limit)
    modifies mem
    ensures TreeMapped(mem[..], old(mem[..]), pos, kind, apps, next)
    decreases Rank(kind), 4
  {
    ghost var was := mem[..];
    mem[pos] := TreeTok(0);
    if mem[pos + 1].visit != Visit(false, false) {
      next := MapRooted(mem, pos, kind, root, apps, limit, was);
    } else {
      next := pos + 2;
      EmptyTree(was, pos);
    }
  }

  /** The tree structure is pointed to its root, and the nodes are mapped. */
  method MapRooted(mem: array<Tok>, pos: nat, kind: Kind, root: nat, ghost apps: PTree<App>, ghost limit: nat, ghost was: Mem)
    returns (next: nat)
    requires TreeReadable(was, pos, kind, root, apps, limit) && NodeAt(was, pos + 1) && mem[..] == was[pos := TreeTok(0)]
    modifies mem
    ensures TreeMapped(mem[..], was, pos, kind, apps, next)
    decreases Rank(kind), 3, 1
  {
    hide Load, Dump, Patch;
    mem[pos] := TreeTok(pos + 1);
    assert mem[..] == was[pos := TreeTok(pos + 1)];
    HeaderSet(was, mem[..], pos, kind, root, apps, limit);
    next := MapSubtree(mem, pos + 1, kind, root, apps, limit);
    HeadPatch(was, pos, TreeTok(pos + 1), Dump(Load(FixerOf(kind, apps), was, pos + 1).value, None, Address, Same));
  }

  /** The header does not matter to what is read behind it. */
  lemma HeaderSet(was: Mem, mem: Mem, pos: nat, kind: Kind, root: nat, apps: PTree<App>, limit: nat)
    requires TreeReadable(was, pos, kind, root, apps, limit) && NodeAt(was, pos + 1) && |mem| == |was| && mem == was[pos := mem[pos]]
    ensures NodeAt(mem, pos + 1) && mem[pos + 1].parent == 0 && Ready(mem, root, apps, limit, pos + 1)
    ensures Load(FixerOf(kind, apps), mem, pos + 1) == Load(FixerOf(kind, apps), was, pos + 1)
    ensures Root(Load(FixerOf(kind, apps), was, pos + 1).value) == Some(pos + 1)
  {
    HeaderLoad(was, mem, pos, kind, apps);
    assert mem[..limit] == was[..limit];
    StillReady(was, mem, root, apps, limit, pos, pos + 1);
  }

  lemma HeaderLoad(was: Mem, mem: Mem, pos: nat, kind: Kind, apps: PTree<App>)
    requires NodeAt(was, pos + 1) && SameFrom(was, mem, pos + 1) && Load(FixerOf(kind, apps), was, pos + 1).Got?
    ensures Load(FixerOf(kind, apps), mem, pos + 1) == Load(FixerOf(kind, apps), was, pos + 1)
    ensures Root(Load(FixerOf(kind, apps), was, pos + 1).value) == Some(pos + 1)
  {
    KindLaws(kind, apps);
    LoadLocal(FixerOf(kind, apps), was, mem, pos + 1);
  }

  lemma HeadPatch(was: Mem, pos: nat, tok: Tok, s: Mem)
    requires pos + 1 + |s| <= |was|
    ensures Patch(was[pos := tok], pos + 1, s) == Patch(was, pos, [tok] + s)
  {
    assert was[pos := tok][..pos + 1] == was[..pos] + [tok];
  }

  lemma EmptyTree(was: Mem, pos: nat)
    requires pos + 1 < |was| && was[pos + 1] == EMPTY_NODE
    ensures was[pos := TreeTok(0)] == Patch(was, pos, [TreeTok(0)] + [EMPTY_NODE])
  {
    assert was[pos := TreeTok(0)] == was[..pos] + ([TreeTok(0)] + [EMPTY_NODE]) + was[pos + 2..];
  }

  // ----- the value readers, in place -----

  lemma KeepFixes(mem: Mem, root: nat, apps: PTree<App>, limit: nat, pos: nat)
    requires Known(mem, root, apps, limit, pos)
    ensures Fixes(mem, Keep, KeepExtra, apps, limit) && Fixes(mem, Search(root), Resolve(apps), apps, limit)
  {
  }

  /** The value read is rewritten where it lies. */
  ghost predicate Rewritten<V>(mem: Mem, was: Mem, pos: nat, enc: Writer<V>, r: Got<V>, next: nat) {
    r.Got? && next == r.next == pos + |enc(r.value)| && next <= |was| && mem == Patch(was, pos, enc(r.value))
  }

  /** `read_app_group_localized_entry`, `read_file_watcher_list`, `read_mime_group_sub_type`. */
  method MapChain(mem: array<Tok>, pos: nat, how: Fixup, root: nat, ghost fix: (int, string) -> int, ghost apps: PTree<App>, ghost limit: nat)
    returns (next: nat)
    requires ReadChain(mem[..], pos, fix).Got? && Fixes(mem[..], how, fix, apps, limit) && limit <= pos
    modifies mem
    ensures Rewritten(mem[..], old(mem[..]), pos, WriteValues, ReadChain(old(mem[..]), pos, fix), next)
  {
    next := RelinkList(mem, pos, how, fix, apps, limit);
  }

  /** After the values of an entry have been relinked, its tree may be mapped. */
  lemma EntryHalf(was: Mem, pos: nat, root: nat, apps: PTree<App>, limit: nat) returns (s: Mem, mid: nat, m1: Mem)
    requires ReadEntry(was, pos).Got? && Ready(was, root, apps, limit, pos)
    ensures s == ListTokens(was[pos], pos, ReadList(was, pos, KeepExtra).value) && mid == ReadList(was, pos, KeepExtra).next
    ensures pos + |s| == mid <= |was| ==> m1 == Patch(was, pos, s) && TreeReadable(m1, mid, Strings, root, apps, limit)
    ensures pos + |s| == mid <= |was| ==>
      var (t, r) := (ReadTree(ReadValues, was, mid), ReadTree(FixerOf(Strings, apps), m1, mid));
      && t.Got? && r.next == t.next && WriteTree(r.value, Same) == WriteTree(t.value, WriteValues)
      && t.next == mid + |WriteTree(t.value, WriteValues)| <= |was|
  {
    s, mid := ListTokens(was[pos], pos, ReadList(was, pos, KeepExtra).value), ReadList(was, pos, KeepExtra).next;
    m1 := was;
    if pos + |s| == mid <= |was| {
      m1 := Patch(was, pos, s);
      PatchSame(was, pos, s, limit);
      StillReady(was, m1, root, apps, limit, pos, mid);
      ChainLaws(KeepExtra, ReadValues);
      TreeAgain(WriteValues, ReadValues, was, m1, mid);
    }
  }

  /** `read_app_group_entry`. */
  method MapEntry(mem: array<Tok>, pos: nat, root: nat, ghost apps: PTree<App>, ghost limit: nat) returns (next: nat)
    requires ReadEntry(mem[..], pos).Got? && Ready(mem[..], root, apps, limit, pos)
    modifies mem
    ensures Rewritten(mem[..], old(mem[..]), pos, WriteEntry, ReadEntry(old(mem[..]), pos), next)
    decreases 1, 0, 0
  {
    ghost var was, s, middle, m1 := mem[..], [], 0, [];
    s, middle, m1 := EntryHalf(was, pos, root, apps, limit);
    KeepFixes(was, root, apps, limit, pos);
    var mid := RelinkList(mem, pos, Keep, KeepExtra, apps, limit);
    assert mem[..] == m1;
    next := MapTree(mem, mid, Strings, root, apps, limit);
    PatchTwice(was, pos, s, WriteTree(ReadTree(ReadValues, was, mid).value, WriteValues));
    EntryTokens(was, mem[..], pos, mid, s);
    mem[pos] := WithTree(mem[pos], mem[mid].root);
  }

  /** A tree behind a place that has changed reads as before, and is rewritten as its values are. */
  lemma TreeAgain<V>(enc: Writer<V>, dec: Reader<V>, was: Mem, mem: Mem, pos: nat)
    requires Lawful(enc, dec) && SameFrom(was, mem, pos) && ReadTree(dec, was, pos).Got?
    ensures var (t, r) := (ReadTree(dec, was, pos), ReadTree(Rewrite(enc, dec), mem, pos));
      && r.Got? && r.next == t.next && WriteTree(r.value, Same) == WriteTree(t.value, enc)
      && t.next == pos + |WriteTree(t.value, enc)| <= |was|
  {
    TreeLocal(dec, was, mem, pos);
    TreeRewrite(enc, dec, mem, pos);
    TreeSized(enc, dec, was, pos);
  }

  /** The copy of the tree header completes the entry. */
  lemma EntryTokens(was: Mem, mem: Mem, pos: nat, mid: nat, s: Mem)
    requires ReadEntry(was, pos).Got? && ReadList(was, pos, KeepExtra).next == mid == pos + |s|
    requires s == ListTokens(was[pos], pos, ReadList(was, pos, KeepExtra).value)
    requires var t := WriteTree(ReadTree(ReadValues, was, mid).value, WriteValues); mid + |t| <= |was| && mem == Patch(was, pos, s + t)
    ensures mid < |mem| && mem[mid].TreeTok? && mem[pos].EntryTok?
    ensures var w := WriteEntry(ReadEntry(was, pos).value);
      pos + |w| <= |was| && mem[pos := WithTree(mem[pos], mem[mid].root)] == Patch(was, pos, w)
  {
    var v := ReadEntry(was, pos).value;
    var t := WriteTree(v.localized, WriteValues);
    Copied(was, mem, pos, s[0], EntryItems(v), t, EntryHead(v));
    assert mem[mid] == TreeHead(v.localized, Address);
  }

  /** One token of a rewritten part changes. */
  lemma Copied(was: Mem, mem: Mem, pos: nat, x: Tok, items: Mem, t: Mem, y: Tok)
    requires |t| > 0 && pos + 1 + |items| + |t| <= |was| && mem == Patch(was, pos, ([x] + items) + t)
    ensures |mem| == |was| && mem[pos] == x && mem[pos + 1 + |items|] == t[0]
    ensures mem[pos := y] == Patch(was, pos, [y] + (items + t))
  {
  }

  /** `read_app`. */
  method MapApp(mem: array<Tok>, pos: nat, root: nat, ghost apps: PTree<App>, ghost limit: nat) returns (next: nat)
    requires ReadApp(mem[..], pos).Got? && Ready(mem[..], root, apps, limit, pos)
    modifies mem
    ensures Rewritten(mem[..], old(mem[..]), pos, WriteApp, ReadApp(old(mem[..]), pos), next)
    decreases 3, 0, 0
  {
    ghost var was := mem[..];
    if mem[pos].groups == 0 {
      next := pos + 1;
      BareApp(was, pos);
    } else {
      ghost var mid, tree := AppTree(was, pos);
      next := MapGroups(mem, pos, root, apps, limit, was, tree);
    }
  }

  /** The groups of an application. */
  method MapGroups(mem: array<Tok>, pos: nat, root: nat, ghost apps: PTree<App>, ghost limit: nat, ghost was: Mem, ghost tree: PTree<Group>)
    returns (next: nat)
    requires mem[..] == was && pos + 2 <= |was| && was[pos + 1].GroupsTok? && Ready(was, root, apps, limit, pos)
    requires ReadTree(ReadGroup, was, pos + 2).Got? && tree == ReadTree(ReadGroup, was, pos + 2).value
    modifies mem
    ensures Rewritten(mem[..], was, pos, WriteApp, Got(App(pos, Some((pos + 1, pos, tree))), ReadTree(ReadGroup, was, pos + 2).next), next)
    decreases 2, 5, 0
  {
    hide ReadTree, WriteTree, WriteApp;
    ghost var head := OwnGroups(mem, pos);
    GroupsAgain(was, mem[..], pos, pos + 2, head, root, apps, limit);
    next := MapTree(mem, pos + 2, GroupValue, root, apps, limit);
    AppDone(was, mem[..], pos, head, tree, next);
    mem[pos + 1] := WithTree(mem[pos + 1], mem[pos + 2].root);
  }

  /** An application without groups stays as it is. */
  lemma BareApp(was: Mem, pos: nat)
    requires pos < |was| && was[pos] == AppTok(0)
    ensures Rewritten(was, was, pos, WriteApp, ReadApp(was, pos), pos + 1)
  {
    assert was == was[..pos] + [AppTok(0)] + was[pos + 1..];
  }

  lemma AppTree(was: Mem, pos: nat) returns (mid: nat, tree: PTree<Group>)
    requires ReadApp(was, pos).Got? && was[pos].groups != 0
    ensures mid == pos + 2 <= |was| && was[pos + 1].GroupsTok? && ReadTree(ReadGroup, was, mid).Got? && tree == ReadTree(ReadGroup, was, mid).value
    ensures ReadApp(was, pos) == Got(App(pos, Some((pos + 1, pos, tree))), ReadTree(ReadGroup, was, mid).next)
  {
    mid := pos + 2;
    tree := ReadTree(ReadGroup, was, mid).value;
  }

  /** Application, groups structure with a copy of the tree header, and tree together. */
  lemma AppDone(was: Mem, mem: Mem, pos: nat, head: Mem, tree: PTree<Group>, next: nat)
    requires |head| == 2 && head[0] == AppTok(pos + 1) && head[1].GroupsTok? && head[1].owner == pos
    requires pos + 2 + |WriteTree(tree, WriteGroup)| == next <= |was|
    requires mem == Patch(Patch(was, pos, head), pos + 2, WriteTree(tree, WriteGroup))
    ensures pos + 2 < |mem| && mem[pos + 1].GroupsTok? && mem[pos + 2].TreeTok?
    ensures Rewritten(mem[pos + 1 := WithTree(mem[pos + 1], mem[pos + 2].root)], was, pos, WriteApp,
                      Got(App(pos, Some((pos + 1, pos, tree))), next), next)
  {
    var s, app := WriteTree(tree, WriteGroup), AppTok(pos + 1);
    PatchTwice(was, pos, head, s);
    assert head == [app] + ([head[1]] + []);
    GroupsCopied(was, mem, pos, app, head[1], s, GroupsHead(pos, tree));
    assert mem[pos + 2] == TreeHead(tree, Address);
  }

  lemma GroupsCopied(was: Mem, mem: Mem, pos: nat, app: Tok, x: Tok, s: Mem, y: Tok)
    requires |s| > 0 && pos + 2 + |s| <= |was| && mem == Patch(was, pos, ([app] + ([x] + [])) + s)
    ensures |mem| == |was| && mem[pos] == app && mem[pos + 1] == x && mem[pos + 2] == s[0]
    ensures mem[pos + 1 := y] == Patch(was, pos, [app] + ([y] + s))
  {
  }

  /** The application is pointed to its groups, and they to it. */
  method OwnGroups(mem: array<Tok>, pos: nat) returns (ghost head: Mem)
    requires pos + 1 < mem.Length && mem[pos + 1].GroupsTok?
    modifies mem
    ensures head == [AppTok(pos + 1), GroupsTok(pos, old(mem[pos + 1]).root)] && mem[..] == Patch(old(mem[..]), pos, head)
  {
    head := [AppTok(pos + 1), GroupsTok(pos, mem[pos + 1].root)];
    mem[pos], mem[pos + 1] := AppTok(pos + 1), GroupsTok(pos, mem[pos + 1].root);
  }

  lemma GroupsAgain(was: Mem, m1: Mem, pos: nat, mid: nat, head: Mem, root: nat, apps: PTree<App>, limit: nat)
    requires ReadTree(ReadGroup, was, mid).Got? && Ready(was, root, apps, limit, pos)
    requires pos + |head| == mid <= |was| && m1 == Patch(was, pos, head)
    ensures TreeReadable(m1, mid, GroupValue, root, apps, limit)
    ensures
      var (t, r) := (ReadTree(ReadGroup, was, mid), ReadTree(FixerOf(GroupValue, apps), m1, mid));
      && r.next == t.next && WriteTree(r.value, Same) == WriteTree(t.value, WriteGroup)
      && t.next == mid + |WriteTree(t.value, WriteGroup)| <= |was|
  {
    PatchSame(was, pos, head, limit);
    StillReady(was, m1, root, apps, limit, pos, mid);
    GroupLaws();
    TreeAgain(WriteGroup, ReadGroup, was, m1, mid);
  }

  /** A value that is rewritten is what its kind makes of it. */
  lemma AsMapped<V>(mem: Mem, was: Mem, pos: nat, enc: Writer<V>, dec: Reader<V>, kind: Kind, apps: PTree<App>, next: nat)
    requires FixerOf(kind, apps) == Rewrite(enc, dec) && Rewritten(mem, was, pos, enc, dec(was, pos), next)
    ensures ValueMapped(mem, was, pos, kind, apps, next)
  {
  }

  lemma FixerReads(kind: Kind, apps: PTree<App>, mem: Mem, pos: nat)
    ensures FixerOf(kind, apps)(mem, pos).Got? ==>
      && (kind.Strings? ==> ReadChain(mem, pos, KeepExtra).Got?)
      && (kind.GroupValue? ==> ReadTree(ReadEntry, mem, pos).Got?)
      && (kind.SubTypeValue? ==> ReadChain(mem, pos, Resolve(apps)).Got?)
      && (kind.MimeTypeValue? ==> ReadTree(ReadSubType(apps), mem, pos).Got?)
  {
    assert ReadValues(mem, pos) == ReadChain(mem, pos, KeepExtra) && ReadGroup(mem, pos) == ReadTree(ReadEntry, mem, pos);
    assert ReadSubType(apps)(mem, pos) == ReadChain(mem, pos, Resolve(apps));
    assert ReadMimeType(apps)(mem, pos) == ReadTree(ReadSubType(apps), mem, pos);
  }

  /** The function that `map_from_memory` calls for a value. */
  method MapValue(mem: array<Tok>, pos: nat, kind: Kind, root: nat, ghost apps: PTree<App>, ghost limit: nat) returns (next: nat)
    requires Readable(mem[..], pos, kind, root, apps, limit)
    modifies mem
    ensures ValueMapped(mem[..], old(mem[..]), pos, kind, apps, next)
    decreases Rank(kind), 0, 1
  {
    ghost var was := mem[..];
    KeepFixes(was, root, apps, limit, pos);
    FixerReads(kind, apps, was, pos);
    match kind
    case Strings =>
      next := MapChain(mem, pos, Keep, root, KeepExtra, apps, limit);
      AsMapped(mem[..], was, pos, WriteValues, ReadValues, kind, apps, next);
    case EntryValue =>
      next := MapEntry(mem, pos, root, apps, limit);
      AsMapped(mem[..], was, pos, WriteEntry, ReadEntry, kind, apps, next);
    case GroupValue =>
      TreeRewrite(WriteEntry, ReadEntry, was, pos);
      next := MapTree(mem, pos, EntryValue, root, apps, limit);
      AsMapped(mem[..], was, pos, WriteGroup, ReadGroup, kind, apps, next);
    case AppValue =>
      next := MapApp(mem, pos, root, apps, limit);
      AsMapped(mem[..], was, pos, WriteApp, ReadApp, kind, apps, next);
    case SubTypeValue =>
      next := MapChain(mem, pos, Search(root), root, Resolve(apps), apps, limit);
      AsMapped(mem[..], was, pos, WriteSubType, ReadSubType(apps), kind, apps, next);
    case MimeTypeValue =>
      TreeRewrite(WriteSubType, ReadSubType(apps), was, pos);
      next := MapTree(mem, pos, SubTypeValue, root, apps, limit);
      AsMapped(mem[..], was, pos, WriteMimeType, ReadMimeType(apps), kind, apps, next);
  }

  // ----- the whole cache -----

  /** The lists of reloaded applications lead to where the applications lie. */
  ghost predicate OwnPlaces(t: PTree<App>) {
    t.Node? ==> t.it.value.at == t.it.id + 1 + |WriteStr(t.it.key)| && OwnPlaces(t.left) && OwnPlaces(t.right)
  }

  lemma {:induction false} PlacesAgree(t: PTree<App>, name: string)
    requires OwnPlaces(t)
    ensures AppAddress(t, name) == Place(t, name)
  {
    if t.Node? && StrCmp(t.it.key, name) != 0 {
      if StrCmp(t.it.key, name) < 0 {
        PlacesAgree(t.right, name);
      } else {
        PlacesAgree(t.left, name);
      }
    }
  }

  /** A tree that was read, and stands as it is written, can be searched where it stands. */
  lemma {:induction false} TreeStands<V>(enc: Writer<V>, dec: Reader<V>, was: Mem, mem: Mem, pos: nat, t: PTree<V>, p: Option<int>, end: nat, limit: nat)
    requires Sized(enc, dec) && Load(dec, was, pos) == Got(t, end) && 0 < pos && end <= limit <= |mem|
    requires At(mem, pos, Dump(t, p, Address, enc))
    ensures Stands(mem, t, limit)
    decreases |was| - pos
  {
    if NodeAt(was, pos) {
      var pos1, pos2 := ChildrenStanding(enc, dec, was, mem, pos, t, p, end);
      TreeStands(enc, dec, was, mem, pos1, t.left, Some(pos), pos2, limit);
      TreeStands(enc, dec, was, mem, pos2, t.right, Some(pos), end, limit);
      var q := NodeStanding(enc, dec, was, mem, pos, t, p);
      NodeSized(enc, dec, was, pos);
    }
  }

  /** Applications that were read name the places where they lie. */
  lemma {:induction false} PlacesRead(was: Mem, pos: nat)
    requires Load(ReadApp, was, pos).Got?
    ensures OwnPlaces(Load(ReadApp, was, pos).value)
    decreases |was| - pos
  {
    if NodeAt(was, pos) {
      var end := ReadNode(ReadApp, was, pos).next;
      StrRead(was, pos + 1);
      PlacesRead(was, end);
      PlacesRead(was, Load(ReadApp, was, end).next);
      assert ReadNode(ReadApp, was, pos).value.value.at == ReadStr(was, pos + 1).next;
    }
  }

  function WriteApps(t: PTree<App>): Mem { WriteTree(t, WriteApp) }

  function WriteMap(t: PTree<MimeType>): Mem { WriteTree(t, WriteMimeType) }

  /** The tree of applications; `root` is where its root lies. */
  method MapApps(mem: array<Tok>, pos: nat) returns (next: nat, root: nat)
    requires ReadTree(ReadApp, mem[..], pos).Got? && Zeroed(mem[..], pos)
    modifies mem
    ensures Rewritten(mem[..], old(mem[..]), pos, WriteApps, ReadTree(ReadApp, old(mem[..]), pos), next)
    ensures Ready(mem[..], root, ReadTree(ReadApp, old(mem[..]), pos).value, next, next)
  {
    ghost var was, t := mem[..], ReadTree(ReadApp, mem[..], pos);
    AppLaws();
    TreeAgain(WriteApp, ReadApp, was, was, pos);
    next := MapTree(mem, pos, AppValue, 0, Leaf, 0);
    root := if mem[pos + 1].visit != Visit(false, false) then pos + 1 else 0;
    PatchSame(was, pos, WriteApps(t.value), 0);
    AppsReady(was, mem[..], pos, t.value, next, root);
  }

  lemma AppsReady(was: Mem, mem: Mem, pos: nat, t: PTree<App>, next: nat, root: nat)
    requires ReadTree(ReadApp, was, pos) == Got(t, next) && Zeroed(was, pos) && Lawful(WriteApp, ReadApp)
    requires SameFrom(was, mem, next) && At(mem, pos, WriteApps(t))
    requires pos + 1 < |mem| && mem[pos + 1].NodeTok? && root == if mem[pos + 1].visit != Visit(false, false) then pos + 1 else 0
    ensures Ready(mem, root, t, next, next)
  {
    AtHead(mem, pos, TreeHead(t, Address), Dump(t, None, Address, WriteApp));
    TreeStands(WriteApp, ReadApp, was, mem, pos + 1, t, None, next, next);
    PlacesRead(was, pos + 1);
    forall name ensures AppAddress(t, name) == Place(t, name) { PlacesAgree(t, name); }
    RootStands(mem, pos + 1, t, root);
  }

  lemma RootStands(mem: Mem, pos: nat, t: PTree<App>, root: nat)
    requires At(mem, pos, Dump(t, None, Address, WriteApp)) && (t.Node? ==> t.it.id == pos)
    requires pos < |mem| && mem[pos].NodeTok? && root == if mem[pos].visit != Visit(false, false) then pos else 0
    ensures root == Addr(Address, Root(t))
  {
    var d := Dump(t, None, Address, WriteApp);
    assert mem[pos] == mem[pos..pos + |d|][0];
  }

  /** An association map. */
  method MapAssociations(mem: array<Tok>, pos: nat, root: nat, ghost apps: PTree<App>, ghost limit: nat) returns (next: nat)
    requires ReadTree(ReadMimeType(apps), mem[..], pos).Got? && Ready(mem[..], root, apps, limit, pos)
    modifies mem
    ensures Rewritten(mem[..], old(mem[..]), pos, WriteMap, ReadTree(ReadMimeType(apps), old(mem[..]), pos), next)
    ensures Ready(mem[..], root, apps, limit, next)
  {
    ghost var was, t := mem[..], ReadTree(ReadMimeType(apps), mem[..], pos);
    MimeTypeLaws(apps);
    TreeAgain(WriteMimeType, ReadMimeType(apps), was, was, pos);
    next := MapTree(mem, pos, MimeTypeValue, root, apps, limit);
    PatchSame(was, pos, WriteMap(t.value), limit);
    StillReady(was, mem[..], root, apps, limit, pos, next);
  }

  /** One part after the other is rewritten; what is still to be read is as it was. */
  lemma PartDone<V>(was: Mem, m1: Mem, m2: Mem, s: Mem, pos: nat, enc: Writer<V>, r: Got<V>, next: nat)
    requires pos == 1 + |s| <= |was| && m1 == Patch(was, 1, s) && Rewritten(m2, m1, pos, enc, r, next)
    ensures next == 1 + |s + enc(r.value)| <= |was| && m2 == Patch(was, 1, s + enc(r.value)) && SameFrom(was, m2, next)
  {
    PatchTwice(was, 1, s, enc(r.value));
    PatchSame(was, 1, s + enc(r.value), 1);
  }

  /** Watchers and applications. */
  method MapFront(mem: array<Tok>, ghost d: Index) returns (pos2: nat, root: nat)
    requires mem.Length > 0 && mem[0] == VersionTok(1) && ReadCache(mem[..]).Got? && Zeroed(mem[..], 0) && d == ReadCache(mem[..]).value
    modifies mem
    ensures var (was, s) := (old(mem[..]), WriteValues(d.files) + WriteApps(d.apps));
      pos2 == 1 + |s| <= |was| && mem[..] == Patch(was, 1, s) && SameFrom(was, mem[..], pos2)
    ensures Ready(mem[..], root, d.apps, pos2, pos2)
    ensures ReadMaps(d.files, d.apps, old(mem[..]), pos2) == ReadCache(old(mem[..]))
  {
    ghost var was := mem[..];
    var pos1 := MapChain(mem, 1, Keep, 0, KeepExtra, Leaf, 0);
    ghost var m1 := mem[..];
    PatchSame(was, 1, WriteValues(d.files), 1);
    AppLaws();
    TreeLocal(ReadApp, was, m1, pos1);
    pos2, root := MapApps(mem, pos1);
    PartDone(was, m1, mem[..], WriteValues(d.files), pos1, WriteApps, ReadTree(ReadApp, m1, pos1), pos2);
  }

  /** `_xdg_app_cache_read`: what it leaves in memory is what writing the index read would write. */
  method MapCache(mem: array<Tok>) returns (ok: bool)
    requires mem.Length > 0 && (mem[0] == VersionTok(1) ==> ReadCache(mem[..]).Got? && Zeroed(mem[..], 0))
    modifies mem
    ensures ok <==> old(mem[0]) == VersionTok(1)
    ensures ok ==> var r := ReadCache(old(mem[..]));
      r.next == |WriteCache(r.value)| <= mem.Length && mem[..] == Patch(old(mem[..]), 0, WriteCache(r.value))
    ensures !ok ==> mem[..] == old(mem[..])
  {
    if mem[0] != VersionTok(1) {
      return false;
    }
    ok := true;
    ghost var was, d := mem[..], ReadCache(mem[..]).value;
    ghost var s := WriteValues(d.files) + WriteApps(d.apps);
    var pos2, root := MapFront(mem, d);
    ghost var m2 := mem[..];
    MimeTypeTreeLaws(d.apps, was, m2, pos2);
    var pos3 := MapAssociations(mem, pos2, root, d.apps, pos2);
    ghost var m3 := mem[..];
    PartDone(was, m2, m3, s, pos2, WriteMap, ReadTree(ReadMimeType(d.apps), m2, pos2), pos3);
    MimeTypeTreeLaws(d.apps, was, m3, pos3);
    var pos4 := MapAssociations(mem, pos3, root, d.apps, pos2);
    PartDone(was, m3, mem[..], s + WriteMap(d.assoc), pos3, WriteMap, ReadTree(ReadMimeType(d.apps), m3, pos3), pos4);
    CacheTokens(was, d);
  }

  lemma MimeTypeTreeLaws(apps: PTree<App>, was: Mem, mem: Mem, pos: nat)
    requires SameFrom(was, mem, pos)
    ensures ReadTree(ReadMimeType(apps), mem, pos) == ReadTree(ReadMimeType(apps), was, pos)
  {
    MimeTypeLaws(apps);
    TreeLocal(ReadMimeType(apps), was, mem, pos);
  }

  lemma CacheTokens(was: Mem, d: Index)
    requires |was| > 0 && was[0] == VersionTok(1) && |WriteCache(d)| <= |was|
    ensures
      var s := WriteValues(d.files) + WriteApps(d.apps) + WriteMap(d.assoc) + WriteMap(d.lists);
      |WriteCache(d)| == 1 + |s| && Patch(was, 1, s) == Patch(was, 0, WriteCache(d))
  {
    var f, a, m, l := WriteValues(d.files), WriteApps(d.apps), WriteMap(d.assoc), WriteMap(d.lists);
    assert f + (a + (m + l)) == f + a + m + l;
    assert was[..1] == [VersionTok(1)];
  }
}
