/**
 * Writing the index from the heap: each tree is walked by the stackless writer, which calls the writer
 * of its values, with walks of its own, in the middle of the walk.
 */
module CacheSave {
  import opened CStrings
  import opened Sequences
  import opened AvlModel
  import opened AvlLinks
  import opened AvlStream
  import opened AvlHeap
  import opened AvlWalk
  import opened CacheTrees
  import opened CacheLists
  import opened DesktopCache
  import opened IndexHeap
  import opened CacheKept

  // ----- what is written -----

  ghost function TreeBytes(m: HTree<Val>, addr: Place, enc: Writer<Val>): Mem {
    [TreeHead(m, addr)] + Dump(m, None, addr, enc)
  }

  ghost function ListBytes(v: Val): Mem {
    if v.ListVal? then WriteValues(v.list) else []
  }

  /** `write_app_group_entry`. */
  ghost function EntryBytes(s: Trees, addr: Place): Writer<Val> {
    (v: Val) =>
      if v.EntryVal? && v.localized in s.held then
        var m := s.held[v.localized].model;
        [EntryTok(AddrAt(v.values.items, 0), AddrAt(v.values.items, |v.values.items| - 1), Addr(addr, Root(m)))]
        + (WriteItems(v.values.at, v.values.items, 0) + TreeBytes(m, addr, ListBytes))
      else []
  }

  /** `write_app_group`. */
  ghost function GroupBytes(s: Trees, addr: Place): Writer<Val> {
    (v: Val) => if v.GroupVal? && v.entries in s.held then TreeBytes(s.held[v.entries].model, addr, EntryBytes(s, addr)) else []
  }

  /** `write_app`. */
  ghost function AppBytes(s: Trees, addr: Place): Writer<Val> {
    (v: Val) =>
      if OwnsGroups(v) && v.groups.value.tree in s.held then
        var m := s.held[v.groups.value.tree].model;
        [AppTok(v.groups.value.at)] + ([GroupsTok(v.at, Addr(addr, Root(m)))] + TreeBytes(m, addr, GroupBytes(s, addr)))
      else [AppTok(0)]
  }

  /** `write_mime_group_type`. */
  ghost function TypeBytes(s: Trees, addr: Place): Writer<Val> {
    (v: Val) => if v.TypeVal? && v.subTypes in s.held then TreeBytes(s.held[v.subTypes].model, addr, ListBytes) else []
  }

  /** What the writer of a kind writes. */
  ghost function Bytes(kind: Kind, s: Trees, addr: Place): Writer<Val> {
    match kind
    case Strings => ListBytes
    case EntryValue => EntryBytes(s, addr)
    case GroupValue => GroupBytes(s, addr)
    case AppValue => AppBytes(s, addr)
    case SubTypeValue => ListBytes
    case MimeTypeValue => TypeBytes(s, addr)
  }

  // ----- the writers -----

  /** The loop over the items of a list. */
  method WriteList(head: Tok, v: Values) returns (out: Mem)
    ensures out == [head] + WriteItems(v.at, v.items, 0)
  {
    out := [head];
    var i := 0;
    while i < |v.items|
      invariant 0 <= i <= |v.items| && out + WriteItems(v.at, v.items, i) == [head] + WriteItems(v.at, v.items, 0)
    {
      ItemOut(out, v.at, v.items, i);
      out := out + ([ItemTok(v.at, AddrAt(v.items, i + 1), AddrAt(v.items, i - 1), v.items[i].extra)] + WriteStr(v.items[i].text));
      i := i + 1;
    }
    assert out + [] == out;
  }

  lemma ItemOut(out: Mem, list: nat, s: seq<MItem>, i: nat)
    requires i < |s|
    ensures var w := [ItemTok(list, AddrAt(s, i + 1), AddrAt(s, i - 1), s[i].extra)] + WriteStr(s[i].text);
      out + WriteItems(list, s, i) == (out + w) + WriteItems(list, s, i + 1)
  {
    var t, str, rest := [ItemTok(list, AddrAt(s, i + 1), AddrAt(s, i - 1), s[i].extra)], WriteStr(s[i].text), WriteItems(list, s, i + 1);
    assert WriteItems(list, s, i) == (t + str) + rest;
    Regrouped(out, t + str, rest);
  }

  /** The write function that is passed to the tree writer. */
  method WriteValue(kind: Kind, v: Val, addr: Place, ghost s: Trees) returns (out: Mem)
    requires Ready(s) && OfKind(s, kind, v)
    modifies Below(s, Rank(kind))`visit
    ensures Ready(s) && out == Bytes(kind, s, addr)(v)
    decreases Rank(kind), 0
  {
    match kind
    case Strings =>
      out := WriteList(ListTok(AddrAt(v.list.items, 0), AddrAt(v.list.items, |v.list.items| - 1)), v.list);
    case SubTypeValue =>
      out := WriteList(ListTok(AddrAt(v.list.items, 0), AddrAt(v.list.items, |v.list.items| - 1)), v.list);
    case EntryValue =>
      out := WriteEntryValue(v, addr, s);
    case GroupValue =>
      out := WriteMap(v.entries, EntryValue, addr, s);
    case AppValue =>
      if OwnsGroups(v) {
        out := WriteAppValue(v, addr, s);
      } else {
        out := [AppTok(0)];
      }
    case MimeTypeValue =>
      out := WriteMap(v.subTypes, SubTypeValue, addr, s);
  }

  method WriteEntryValue(v: Val, addr: Place, ghost s: Trees) returns (out: Mem)
    requires Ready(s) && OfKind(s, EntryValue, v)
    modifies Below(s, 1)`visit
    ensures Ready(s) && out == EntryBytes(s, addr)(v)
    decreases 0, 4
  {
    var head := EntryTok(AddrAt(v.values.items, 0), AddrAt(v.values.items, |v.values.items| - 1), Addr(addr, v.localized.root));
    out := WriteList(head, v.values);
    var tree := WriteMap(v.localized, Strings, addr, s);
    Regrouped([head], WriteItems(v.values.at, v.values.items, 0), tree);
    out := out + tree;
  }

  method WriteAppValue(v: Val, addr: Place, ghost s: Trees) returns (out: Mem)
    requires Ready(s) && OfKind(s, AppValue, v) && OwnsGroups(v)
    modifies Below(s, 3)`visit
    ensures Ready(s) && out == AppBytes(s, addr)(v)
    decreases 2, 4
  {
    var g := v.groups.value;
    var app, groups := AppTok(g.at), GroupsTok(v.at, Addr(addr, g.tree.root));
    var tree := WriteMap(g.tree, GroupValue, addr, s);
    out := [app] + ([groups] + tree);
  }

  /** `write_to_file`. */
  method WriteMap(tree: AvlTree<Val>, kind: Kind, addr: Place, ghost s: Trees) returns (out: Mem)
    requires Ready(s) && IsTree(s, tree, kind)
    modifies Below(s, Rank(kind) + 1)`visit
    ensures Ready(s) && out == TreeBytes(s.held[tree].model, addr, Bytes(kind, s, addr))
    decreases Rank(kind), 3
  {
    out := [TreeTok(Addr(addr, tree.root))];
    if tree.root.Some? {
      out := WriteNodes(out, tree, kind, addr, s);
    } else {
      out := out + [EMPTY_NODE];
    }
  }

  /** What is written for one child: the child with its key and value, or the empty marker. */
  method WriteChild(child: Option<AvlNode<Val>>, tree: AvlTree<Val>, kind: Kind, addr: Place, ghost s: Trees) returns (out: Mem)
    requires Ready(s) && IsTree(s, tree, kind) && (child.Some? ==> child.value in Nodes(s.held[tree].model))
    modifies Below(s, Rank(kind))`visit
    ensures Ready(s) && out == ChildBytes(child, addr, Bytes(kind, s, addr))
    decreases Rank(kind), 1, 0
  {
    if child.None? {
      return [EMPTY_NODE];
    }
    var n := child.value;
    TreeStands(s, tree);
    ValueOfKind(s, kind, s.held[tree].model, None, n);
    var value := WriteValue(kind, n.value, addr, s);
    out := [NodeTok(Visit(true, true), Addr(addr, n.left), Addr(addr, n.right), Addr(addr, n.parent), n.balance)] + WriteStr(n.key) + value;
  }

  /** The writer of a child runs while the walk stands at `n`; its own walks are elsewhere. */
  method WriteChildAt(child: Option<AvlNode<Val>>, tree: AvlTree<Val>, kind: Kind, addr: Place, ghost s: Trees,
                      ghost m: HTree<Val>, ghost c: HCtx<Val>, ghost t: HTree<Val>, ghost n: AvlNode<Val>,
                      ghost nodes: set<AvlNode<Val>>) returns (out: Mem)
    requires nodes == Nodes(m) && Ready(s) && IsTree(s, tree, kind) && m == s.held[tree].model && WalkAt(m, c, t, n) && n in Nodes(m)
    requires child.Some? ==> child.value in Nodes(m)
    modifies Below(s, Rank(kind))`visit
    ensures Ready(s) && WalkAt(m, c, t, n) && n.visit == old(n.visit)
    ensures out == ChildBytes(child, addr, Bytes(kind, s, addr))
    decreases Rank(kind), 1, 1
  {
    hide Ready, Bytes, ChildBytes, IsTree;
    Around(s, tree, kind, m, c, t, n);
    out := WriteChild(child, tree, kind, addr, s);
  }

  /** One side of the current node: the child is written, then entered. */
  method WriteSide(start: Mem, n: AvlNode<Val>, tree: AvlTree<Val>, kind: Kind, addr: Place, ghost s: Trees,
                   ghost m: HTree<Val>, ghost c: HCtx<Val>, ghost t: HTree<Val>)
    returns (out: Mem, next: AvlNode<Val>, ghost c': HCtx<Val>, ghost t': HTree<Val>)
    requires Ready(s) && IsTree(s, tree, kind) && m == s.held[tree].model && WalkAt(m, c, t, n) && n in Nodes(m)
    requires !n.visit.right
    modifies Below(s, Rank(kind) + 1)`visit
    ensures Ready(s) && WalkAt(m, c', t', next) && next in Nodes(m) && next.visit != Visit(false, true)
    ensures out + DumpRest(c', t', next.visit, addr, Bytes(kind, s, addr)) == start + DumpRest(c, t, old(n.visit), addr, Bytes(kind, s, addr))
    ensures StepsLeft(c', t', next.visit) < StepsLeft(c, t, old(n.visit))
    decreases Rank(kind), 2, 0
  {
    hide DumpRest, StepsLeft, Bytes, Turned, PostRest;
    ghost var enc := Bytes(kind, s, addr);
    ApartFromBelow(s, tree);
    SidesIn(m, c, t, n);
    PostTurnLeft(c, t);
    PostTurnRight(c, t);
    DumpTurnLeft(start, c, t, addr, enc);
    DumpTurnRight(start, c, t, addr, enc);
    var w := WriteChildAt(if n.visit.left then n.right else n.left, tree, kind, addr, s, m, c, t, n, Nodes(m));
    ChildBytesAre(m, c, t, n, addr, enc);
    out := start + w;
    next, c', t' := Turn(n, s, m, c, t);
  }

  lemma SidesIn(m: HTree<Val>, c: HCtx<Val>, t: HTree<Val>, n: AvlNode<Val>)
    requires WalkAt(m, c, t, n)
    ensures t.Node? && (n.left.Some? ==> n.left.value in Nodes(m))
    ensures n.right.Some? ==> n.right.value in Nodes(m)
  {
    Here(m, c, t, n);
    PlugFits(c, t);
  }

  /** The stackless loop: at each node the writer of the value runs, with walks of its own. */
  method WriteNodes(start: Mem, tree: AvlTree<Val>, kind: Kind, addr: Place, ghost s: Trees) returns (out: Mem)
    requires Ready(s) && IsTree(s, tree, kind) && tree.root.Some?
    modifies Below(s, Rank(kind) + 1)`visit
    ensures Ready(s) && out == start + Dump(s.held[tree].model, None, addr, Bytes(kind, s, addr))
    decreases Rank(kind), 2, 1
  {
    hide Separate, Standing;
    hide Dump, DumpNode, Bytes, StepsLeft, PostRest, NodeBytes;
    ghost var m, enc := s.held[tree].model, Bytes(kind, s, addr);
    ApartFromBelow(s, tree);
    var thisNode := Begin(tree, s);
    ghost var c, t := Top, m;
    var first := WriteChildAt(Some(thisNode), tree, kind, addr, s, m, c, t, thisNode, Nodes(m));
    ChildBytesAre(m, c, t, thisNode, addr, enc);
    out := start + first;
    DumpBegins(m, addr, enc, start);
    while true
      invariant Ready(s) && WalkAt(m, c, t, thisNode) && thisNode in Nodes(m)
      invariant thisNode.visit != Visit(false, true)
      invariant out + DumpRest(c, t, thisNode.visit, addr, enc) == start + Dump(m, None, addr, enc)
      decreases StepsLeft(c, t, thisNode.visit)
    {
      Here(m, c, t, thisNode);
      if thisNode.visit.left && thisNode.visit.right {
        PostTurnUp(c, t, []);
        if thisNode.parent.None? {
          break;
        }
        GoUp(m, c, t, thisNode);
        thisNode := thisNode.parent.value;
        c, t := c.up, Fold(c, t);
        Here(m, c, t, thisNode);
      } else {
        out, thisNode, c, t := WriteSide(out, thisNode, tree, kind, addr, s, m, c, t);
      }
    }
  }

  // ----- the index that is written -----

  /** The tree with its nodes named by their addresses. */
  function TreeOf<V>(m: HTree<Val>, addr: Place, f: Val -> V): PTree<V> {
    Mapped(Rename(m, n => addr(n) as int), f)
  }

  function ValuesOf(v: Val): Values {
    if v.ListVal? then v.list else Values(0, [])
  }

  ghost function EntryOf(s: Trees, addr: Place): Val -> Entry {
    (v: Val) =>
      if v.EntryVal? && v.localized in s.held then Entry(v.values, TreeOf(s.held[v.localized].model, addr, ValuesOf))
      else Entry(Values(0, []), Leaf)
  }

  ghost function GroupOf(s: Trees, addr: Place): Val -> Group {
    (v: Val) => if v.GroupVal? && v.entries in s.held then TreeOf(s.held[v.entries].model, addr, EntryOf(s, addr)) else Leaf
  }

  ghost function AppOf(s: Trees, addr: Place): Val -> App {
    (v: Val) =>
      if v.AppVal? && v.groups.Some? then
        var g := v.groups.value;
        App(v.at, Some((g.at, g.owner, if g.tree in s.held then TreeOf(s.held[g.tree].model, addr, GroupOf(s, addr)) else Leaf)))
      else App(if v.AppVal? then v.at else 0, None)
  }

  ghost function TypeOf(s: Trees, addr: Place): Val -> MimeType {
    (v: Val) => if v.TypeVal? && v.subTypes in s.held then TreeOf(s.held[v.subTypes].model, addr, ValuesOf) else Leaf
  }

  /** A tree is written as the tree of what its values are. */
  lemma {:induction false} NamedDump<V>(s: Trees, kind: Kind, m: HTree<Val>, p: Option<AvlNode<Val>>, q: Option<int>, addr: Place,
                                        f: Val -> V, enc: Writer<Val>, wanted: Writer<V>)
    requires AllOfKind(s, kind, m) && Addr(addr, p) == Addr(Address, q)
    requires forall v {:trigger enc(v)} :: OfKind(s, kind, v) ==> enc(v) == wanted(f(v))
    ensures Dump(m, p, addr, enc) == Dump(TreeOf(m, addr, f), q, Address, wanted)
  {
    if m.Node? {
      NamedDump(s, kind, m.left, Some(m.it.id), Some(addr(m.it.id)), addr, f, enc, wanted);
      NamedDump(s, kind, m.right, Some(m.it.id), Some(addr(m.it.id)), addr, f, enc, wanted);
      assert enc(m.it.value) == wanted(f(m.it.value));
    }
  }

  /** The same with the tree structure in front. */
  lemma NamedTree<V>(s: Trees, tree: AvlTree<Val>, kind: Kind, addr: Place, f: Val -> V, enc: Writer<Val>, wanted: Writer<V>)
    requires Separate(s) && IsTree(s, tree, kind)
    requires forall v {:trigger enc(v)} :: OfKind(s, kind, v) ==> enc(v) == wanted(f(v))
    ensures TreeBytes(s.held[tree].model, addr, enc) == WriteTree(TreeOf(s.held[tree].model, addr, f), wanted)
  {
    assert GoodTree(s, s.held[tree]);
    NamedDump(s, kind, s.held[tree].model, None, None, addr, f, enc, wanted);
  }

  lemma EntriesNamed(s: Trees, addr: Place)
    requires Separate(s)
    ensures forall v {:trigger EntryBytes(s, addr)(v)} :: OfKind(s, EntryValue, v) ==> EntryBytes(s, addr)(v) == WriteEntry(EntryOf(s, addr)(v))
  {
    forall v {:trigger EntryBytes(s, addr)(v)} | OfKind(s, EntryValue, v) ensures EntryBytes(s, addr)(v) == WriteEntry(EntryOf(s, addr)(v)) {
      NamedTree(s, v.localized, Strings, addr, ValuesOf, ListBytes, WriteValues);
    }
  }

  lemma GroupsNamed(s: Trees, addr: Place)
    requires Separate(s)
    ensures forall v {:trigger GroupBytes(s, addr)(v)} :: OfKind(s, GroupValue, v) ==> GroupBytes(s, addr)(v) == WriteGroup(GroupOf(s, addr)(v))
  {
    EntriesNamed(s, addr);
    forall v {:trigger GroupBytes(s, addr)(v)} | OfKind(s, GroupValue, v) ensures GroupBytes(s, addr)(v) == WriteGroup(GroupOf(s, addr)(v)) {
      NamedTree(s, v.entries, EntryValue, addr, EntryOf(s, addr), EntryBytes(s, addr), WriteEntry);
    }
  }

  lemma AppsNamed(s: Trees, addr: Place)
    requires Separate(s)
    ensures forall v {:trigger AppBytes(s, addr)(v)} :: OfKind(s, AppValue, v) ==> AppBytes(s, addr)(v) == WriteApp(AppOf(s, addr)(v))
  {
    GroupsNamed(s, addr);
    forall v {:trigger AppBytes(s, addr)(v)} | OfKind(s, AppValue, v) ensures AppBytes(s, addr)(v) == WriteApp(AppOf(s, addr)(v)) {
      if OwnsGroups(v) {
        NamedTree(s, v.groups.value.tree, GroupValue, addr, GroupOf(s, addr), GroupBytes(s, addr), WriteGroup);
      }
    }
  }

  lemma TypesNamed(s: Trees, addr: Place)
    requires Separate(s)
    ensures forall v {:trigger TypeBytes(s, addr)(v)} :: OfKind(s, MimeTypeValue, v) ==> TypeBytes(s, addr)(v) == WriteMimeType(TypeOf(s, addr)(v))
  {
    forall v {:trigger TypeBytes(s, addr)(v)} | OfKind(s, MimeTypeValue, v) ensures TypeBytes(s, addr)(v) == WriteMimeType(TypeOf(s, addr)(v)) {
      NamedTree(s, v.subTypes, SubTypeValue, addr, ValuesOf, ListBytes, WriteSubType);
    }
  }

  // ----- the index that comes back -----

  /** A tree of heap values comes back with corresponding values. */
  lemma {:induction false} TreeKept<V, W>(s: Trees, kind: Kind, m: HTree<Val>, pos: nat, p: Option<int>, addr: Place, f: Val -> V,
                                          enc: Writer<V>, image: ValueImage<V, W>, same: (Val, W) -> bool)
    requires AllOfKind(s, kind, m)
    requires forall v, q: nat {:trigger image(f(v), q)} :: OfKind(s, kind, v) ==> same(v, image(f(v), q))
    ensures SameTree(m, TreeImage(TreeOf(m, addr, f), pos, p, Address, enc, image), same)
    decreases m
  {
    if m.Node? {
      var t := TreeOf(m, addr, f);
      var pos1 := pos + |DumpNode(t, p, Address, enc)|;
      var pos2 := pos1 + |Dump(t.left, Some(t.it.id), Address, enc)|;
      ImageParts(t, pos, p, Address, enc, image, pos1, pos2);
      TreeKept(s, kind, m.left, pos1, Some(t.it.id), addr, f, enc, image, same);
      TreeKept(s, kind, m.right, pos2, Some(t.it.id), addr, f, enc, image, same);
      assert same(m.it.value, image(f(m.it.value), pos + 1 + |WriteStr(t.it.key)|));
    }
  }

  /** The same for a tree in one of the structures. */
  lemma MapKept<V, W>(s: Trees, tree: AvlTree<Val>, kind: Kind, pos: nat, addr: Place, f: Val -> V,
                      enc: Writer<V>, image: ValueImage<V, W>, same: (Val, W) -> bool)
    requires Separate(s) && IsTree(s, tree, kind)
    requires forall v, q: nat {:trigger image(f(v), q)} :: OfKind(s, kind, v) ==> same(v, image(f(v), q))
    ensures SameTree(s.held[tree].model, TreeAt(TreeOf(s.held[tree].model, addr, f), pos, enc, image), same)
  {
    assert GoodTree(s, s.held[tree]);
    TreeKept(s, kind, s.held[tree].model, pos + 1, None, addr, f, enc, image, same);
  }

  lemma ListsKept(v: Values, q: nat)
    ensures SameList(v, ValuesAt(v, q))
  {
    ImageItems(v.items, 0, q + 1, KeepExtra);
  }

  lemma EntriesKept(s: Trees, addr: Place, v: Val, q: nat)
    requires Separate(s) && OfKind(s, EntryValue, v)
    ensures EntryKept(s)(v, EntryAt(EntryOf(s, addr)(v), q))
  {
    ListsKept(v.values, q);
    forall x: Val, i: nat {:trigger ValuesAt(ValuesOf(x), i)} | OfKind(s, Strings, x) ensures ListKept()(x, ValuesAt(ValuesOf(x), i)) {
      ListsKept(x.list, i);
    }
    var e := EntryOf(s, addr)(v);
    MapKept(s, v.localized, Strings, q + 1 + |EntryItems(e)|, addr, ValuesOf, WriteValues, ValuesAt, ListKept());
  }

  lemma GroupsKept(s: Trees, addr: Place, v: Val, q: nat)
    requires Separate(s) && OfKind(s, GroupValue, v)
    ensures GroupKept(s)(v, GroupAt(GroupOf(s, addr)(v), q))
  {
    forall x: Val, i: nat {:trigger EntryAt(EntryOf(s, addr)(x), i)} | OfKind(s, EntryValue, x)
      ensures EntryKept(s)(x, EntryAt(EntryOf(s, addr)(x), i))
    {
      EntriesKept(s, addr, x, i);
    }
    MapKept(s, v.entries, EntryValue, q, addr, EntryOf(s, addr), WriteEntry, EntryAt, EntryKept(s));
  }

  lemma AppsKept(s: Trees, addr: Place, v: Val, q: nat)
    requires Separate(s) && OfKind(s, AppValue, v)
    ensures AppKept(s)(v, AppAt(AppOf(s, addr)(v), q))
  {
    if v.groups.Some? && v.groups.value.owner == v.at {
      forall x: Val, i: nat {:trigger GroupAt(GroupOf(s, addr)(x), i)} | OfKind(s, GroupValue, x)
        ensures GroupKept(s)(x, GroupAt(GroupOf(s, addr)(x), i))
      {
        GroupsKept(s, addr, x, i);
      }
      MapKept(s, v.groups.value.tree, GroupValue, q + 2, addr, GroupOf(s, addr), WriteGroup, GroupAt, GroupKept(s));
    }
  }

  lemma TypesKept(s: Trees, addr: Place, apps: PTree<App>, v: Val, q: nat)
    requires Separate(s) && OfKind(s, MimeTypeValue, v)
    ensures TypeKept(s, apps)(v, MimeTypeAt(apps)(TypeOf(s, addr)(v), q))
  {
    forall x: Val, i: nat {:trigger SubTypeAt(apps)(ValuesOf(x), i)} | OfKind(s, SubTypeValue, x)
      ensures NamesKept(apps)(x, SubTypeAt(apps)(ValuesOf(x), i))
    {
      ImageItems(x.list.items, 0, i + 1, Resolve(apps));
    }
    MapKept(s, v.subTypes, SubTypeValue, q, addr, ValuesOf, WriteSubType, SubTypeAt(apps), NamesKept(apps));
  }

  /** The index on the heap: the watchers and the three trees. */
  datatype Data = Data(files: Values, apps: AvlTree<Val>, assoc: AvlTree<Val>, lists: AvlTree<Val>)

  ghost predicate Indexed(s: Trees, d: Data) {
    IsTree(s, d.apps, AppValue) && IsTree(s, d.assoc, MimeTypeValue) && IsTree(s, d.lists, MimeTypeValue)
  }

  ghost function IndexOf(s: Trees, d: Data, addr: Place): Index
    requires Indexed(s, d)
  {
    Index(d.files, TreeOf(s.held[d.apps].model, addr, AppOf(s, addr)), TreeOf(s.held[d.assoc].model, addr, TypeOf(s, addr)),
          TreeOf(s.held[d.lists].model, addr, TypeOf(s, addr)))
  }

  /** The index `r` is the one on the heap: the watchers, every application with the groups it owns, and every
      association, which points at the application of its name in `r`. */
  ghost predicate IndexKept(s: Trees, d: Data, r: Index)
    requires Indexed(s, d)
  {
    && SameList(d.files, r.files) && SameTree(s.held[d.apps].model, r.apps, AppKept(s))
    && SameTree(s.held[d.assoc].model, r.assoc, TypeKept(s, r.apps)) && SameTree(s.held[d.lists].model, r.lists, TypeKept(s, r.apps))
  }

  lemma ReloadedKept(s: Trees, d: Data, addr: Place)
    requires Separate(s) && Indexed(s, d)
    ensures IndexKept(s, d, Reloaded(IndexOf(s, d, addr)))
  {
    var index := IndexOf(s, d, addr);
    var apps := ReloadedApps(index);
    ListsKept(d.files, 1);
    forall x: Val, i: nat {:trigger AppAt(AppOf(s, addr)(x), i)} | OfKind(s, AppValue, x) ensures AppKept(s)(x, AppAt(AppOf(s, addr)(x), i)) {
      AppsKept(s, addr, x, i);
    }
    MapKept(s, d.apps, AppValue, AppsPos(index), addr, AppOf(s, addr), WriteApp, AppAt, AppKept(s));
    forall x: Val, i: nat {:trigger MimeTypeAt(apps)(TypeOf(s, addr)(x), i)} | OfKind(s, MimeTypeValue, x)
      ensures TypeKept(s, apps)(x, MimeTypeAt(apps)(TypeOf(s, addr)(x), i))
    {
      TypesKept(s, addr, apps, x, i);
    }
    MapKept(s, d.assoc, MimeTypeValue, AssocPos(index), addr, TypeOf(s, addr), WriteMimeType, MimeTypeAt(apps), TypeKept(s, apps));
    MapKept(s, d.lists, MimeTypeValue, ListsPos(index), addr, TypeOf(s, addr), WriteMimeType, MimeTypeAt(apps), TypeKept(s, apps));
  }

  lemma SavedKept(s: Trees, d: Data, addr: Place)
    requires Ready(s) && Indexed(s, d)
    ensures GoodIndex(IndexOf(s, d, addr)) ==>
      var r := ReadCache(WriteCache(IndexOf(s, d, addr)));
      r.Got? && r.next == |WriteCache(IndexOf(s, d, addr))| && IndexKept(s, d, r.value)
  {
    hide IndexKept, GoodIndex, ReadCache, WriteCache, IndexOf;
    if GoodIndex(IndexOf(s, d, addr)) {
      CacheRoundTrip(IndexOf(s, d, addr));
      ReloadedKept(s, d, addr);
    }
  }

  /** `_xdg_app_cache_write`. */
  method SaveCache(d: Data, addr: Place, ghost s: Trees) returns (file: Mem)
    requires Ready(s) && Indexed(s, d)
    modifies Below(s, 4)`visit
    ensures Ready(s) && file == WriteCache(IndexOf(s, d, addr))
    ensures GoodIndex(IndexOf(s, d, addr)) ==>
      ReadCache(file).Got? && ReadCache(file).next == |file| && IndexKept(s, d, ReadCache(file).value)
  {
    hide IndexKept, GoodIndex, ReadCache;
    hide TreeBytes, TreeOf, WriteTree, WriteItems, OfKind, Separate, Standing;
    var files := WriteList(ListTok(AddrAt(d.files.items, 0), AddrAt(d.files.items, |d.files.items| - 1)), d.files);
    var apps := WriteMap(d.apps, AppValue, addr, s);
    assert Below(s, 2) <= Below(s, 4);
    var assoc := WriteMap(d.assoc, MimeTypeValue, addr, s);
    var lists := WriteMap(d.lists, MimeTypeValue, addr, s);
    AppsNamed(s, addr);
    TypesNamed(s, addr);
    NamedTree(s, d.apps, AppValue, addr, AppOf(s, addr), AppBytes(s, addr), WriteApp);
    NamedTree(s, d.assoc, MimeTypeValue, addr, TypeOf(s, addr), TypeBytes(s, addr), WriteMimeType);
    NamedTree(s, d.lists, MimeTypeValue, addr, TypeOf(s, addr), TypeBytes(s, addr), WriteMimeType);
    file := [VersionTok(1)] + (files + (apps + (assoc + lists)));
    SavedKept(s, d, addr);
  }
}
