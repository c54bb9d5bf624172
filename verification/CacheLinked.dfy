/**
 * The whole cache, written and mapped: in one memory, every list and every tree of the index, at all
 * nesting levels, is linked.
 */
module CacheLinked {
  import opened CStrings
  import opened AvlModel
  import opened AvlStream
  import opened CacheTrees
  import opened CacheLists
  import opened CacheRelink
  import opened DesktopCache
  import opened CacheInPlace
  import CacheSave
  import IndexHeap

  // ----- what it means that the structures of an index are linked in memory -----

  /** The list structure leads to its items, and they to it and to each other. */
  ghost predicate ListLinked(mem: Mem, v: Values) {
    && v.at < |mem| && IsHeader(mem[v.at])
    && HeadOf(mem[v.at]) == AddrAt(v.items, 0) && TailOf(mem[v.at]) == AddrAt(v.items, |v.items| - 1)
    && LinkedAt(mem, v.at, v.items)
  }

  /** Every node structure leads to its children and its parent and holds its balance, and what hangs
      at it is linked. */
  ghost predicate TreeLinked<V>(mem: Mem, t: PTree<V>, p: Option<int>, inner: V -> bool) {
    t.Node? ==>
      && 0 < t.it.id < |mem|
      && mem[t.it.id] == NodeTok(Visit(true, true), Addr(Address, Root(t.left)), Addr(Address, Root(t.right)), Addr(Address, p), t.it.bal)
      && inner(t.it.value)
      && TreeLinked(mem, t.left, Some(t.it.id), inner) && TreeLinked(mem, t.right, Some(t.it.id), inner)
  }

  /** The same with the header in front of the root. */
  ghost predicate MapLinked<V>(mem: Mem, t: PTree<V>, inner: V -> bool) {
    && (t.Node? ==> 0 < t.it.id <= |mem| && mem[t.it.id - 1] == TreeTok(t.it.id))
    && TreeLinked(mem, t, None, inner)
  }

  ghost function ListsIn(mem: Mem): Values -> bool { (v: Values) => ListLinked(mem, v) }

  ghost function EntriesIn(mem: Mem): Entry -> bool {
    (v: Entry) =>
      && ListLinked(mem, v.values) && MapLinked(mem, v.localized, ListsIn(mem))
      && mem[v.values.at].EntryTok? && mem[v.values.at].root == Addr(Address, Root(v.localized))
  }

  ghost function GroupsIn(mem: Mem): Group -> bool { (v: Group) => MapLinked(mem, v, EntriesIn(mem)) }

  /** An application leads to its groups, and they to it. */
  ghost function AppsIn(mem: Mem): App -> bool {
    (v: App) =>
      && v.at < |mem|
      && match v.groups
         case None => mem[v.at] == AppTok(0)
         case Some((at, owner, tree)) =>
           && at == v.at + 1 < |mem| && mem[v.at] == AppTok(at)
           && owner == v.at && mem[at] == GroupsTok(owner, Addr(Address, Root(tree)))
           && MapLinked(mem, tree, GroupsIn(mem))
  }

  ghost function TypesIn(mem: Mem): MimeType -> bool { (v: MimeType) => MapLinked(mem, v, ListsIn(mem)) }

  ghost predicate IndexLinked(mem: Mem, d: Index) {
    && ListLinked(mem, d.files) && MapLinked(mem, d.apps, AppsIn(mem))
    && MapLinked(mem, d.assoc, TypesIn(mem)) && MapLinked(mem, d.lists, TypesIn(mem))
    && At(mem, AppsPos(d), [TreeHead(d.apps, Address)])
    && At(mem, AssocPos(d), [TreeHead(d.assoc, Address)]) && At(mem, ListsPos(d), [TreeHead(d.lists, Address)])
  }

  // ----- what was read and written back is linked -----

  /** A value that was read, and stands where it was read as it is written, is linked. */
  ghost predicate Settles<V>(enc: Writer<V>, dec: Reader<V>, mem: Mem, inner: V -> bool) {
    forall was: Mem, pos: nat {:trigger dec(was, pos)} ::
      dec(was, pos).Got? && At(mem, pos, enc(dec(was, pos).value)) ==> inner(dec(was, pos).value)
  }

  lemma {:induction false} ItemsLinked(was: Mem, mem: Mem, list: nat, s: seq<MItem>, i: nat, pos: nat, fix: (int, string) -> int, end: nat, k: nat)
    requires i <= k < |s| && ReadItems(was, pos, fix) == Got(s[i..], end) && At(mem, pos, WriteItems(list, s, i))
    ensures s[k].addr < |mem| && mem[s[k].addr] == ItemTok(list, AddrAt(s, k + 1), AddrAt(s, k - 1), s[k].extra)
    decreases |s| - i
  {
    var next := ItemHere(was, s, i, pos, fix, end);
    StrRead(was, pos + 1);
    var to := ItemSplit(list, s, i, mem, pos);
    if i < k { ItemsLinked(was, mem, list, s, i + 1, next, fix, end, k); }
  }

  lemma ListSettles(was: Mem, mem: Mem, pos: nat, fix: (int, string) -> int)
    requires pos < |was| && IsHeader(was[pos]) && ReadList(was, pos, fix).Got? && pos < |mem| && IsHeader(mem[pos])
    requires var s := ReadList(was, pos, fix).value;
      && HeadOf(mem[pos]) == AddrAt(s, 0) && TailOf(mem[pos]) == AddrAt(s, |s| - 1) && At(mem, pos + 1, WriteItems(pos, s, 0))
    ensures ListLinked(mem, Values(pos, ReadList(was, pos, fix).value))
  {
    var r := ReadList(was, pos, fix);
    if HeadOf(was[pos]) != 0 {
      assert r.value[0..] == r.value;
      forall k | 0 <= k < |r.value|
        ensures r.value[k].addr < |mem|
        ensures mem[r.value[k].addr] == ItemTok(pos, AddrAt(r.value, k + 1), AddrAt(r.value, k - 1), r.value[k].extra)
      {
        ItemsLinked(was, mem, pos, r.value, 0, pos + 1, fix, r.next, k);
      }
    }
  }

  lemma ChainSettles(was: Mem, mem: Mem, pos: nat, fix: (int, string) -> int)
    requires ReadChain(was, pos, fix).Got? && At(mem, pos, WriteValues(ReadChain(was, pos, fix).value))
    ensures ListLinked(mem, ReadChain(was, pos, fix).value)
  {
    var v := ReadChain(was, pos, fix).value;
    AtHead(mem, pos, ListTok(AddrAt(v.items, 0), AddrAt(v.items, |v.items| - 1)), WriteItems(v.at, v.items, 0));
    ListSettles(was, mem, pos, fix);
  }

  lemma {:induction false} LoadSettles<V>(enc: Writer<V>, dec: Reader<V>, was: Mem, mem: Mem, pos: nat, t: PTree<V>, p: Option<int>,
                                          end: nat, inner: V -> bool)
    requires Sized(enc, dec) && Settles(enc, dec, mem, inner) && Load(dec, was, pos) == Got(t, end) && 0 < pos
    requires At(mem, pos, Dump(t, p, Address, enc))
    ensures TreeLinked(mem, t, p, inner)
    decreases |was| - pos
  {
    if NodeAt(was, pos) {
      var pos1, pos2 := ChildrenStanding(enc, dec, was, mem, pos, t, p, end);
      LoadSettles(enc, dec, was, mem, pos1, t.left, Some(pos), pos2, inner);
      LoadSettles(enc, dec, was, mem, pos2, t.right, Some(pos), end, inner);
      var q := NodeStanding(enc, dec, was, mem, pos, t, p);
    }
  }

  lemma TreeSettles<V>(enc: Writer<V>, dec: Reader<V>, was: Mem, mem: Mem, pos: nat, inner: V -> bool)
    requires Lawful(enc, dec) && Settles(enc, dec, mem, inner) && ReadTree(dec, was, pos).Got?
    requires At(mem, pos, WriteTree(ReadTree(dec, was, pos).value, enc))
    ensures MapLinked(mem, ReadTree(dec, was, pos).value, inner)
    ensures At(mem, pos, [TreeHead(ReadTree(dec, was, pos).value, Address)])
  {
    var t := ReadTree(dec, was, pos).value;
    AtHead(mem, pos, TreeHead(t, Address), Dump(t, None, Address, enc));
    AtHead(mem, pos, TreeHead(t, Address), []);
    LoadSettles(enc, dec, was, mem, pos + 1, ReadTree(dec, was, pos).value, None, ReadTree(dec, was, pos).next, inner);
  }

  lemma ValuesSettle(mem: Mem)
    ensures Settles(WriteValues, ReadValues, mem, ListsIn(mem))
  {
    forall was: Mem, pos: nat | ReadValues(was, pos).Got? && At(mem, pos, WriteValues(ReadValues(was, pos).value))
      ensures ListsIn(mem)(ReadValues(was, pos).value)
    {
      ChainSettles(was, mem, pos, KeepExtra);
    }
  }

  lemma EntriesSettle(mem: Mem)
    ensures Settles(WriteEntry, ReadEntry, mem, EntriesIn(mem))
  {
    ValuesSettle(mem);
    ChainLaws(KeepExtra, ReadValues);
    forall was: Mem, pos: nat | ReadEntry(was, pos).Got? && At(mem, pos, WriteEntry(ReadEntry(was, pos).value))
      ensures EntriesIn(mem)(ReadEntry(was, pos).value)
    {
      var items, mid := ReadList(was, pos, KeepExtra).value, ReadList(was, pos, KeepExtra).next;
      EntrySettles(was, mem, pos, items, mid, ReadTree(ReadValues, was, mid).value);
    }
  }

  lemma EntrySettles(was: Mem, mem: Mem, pos: nat, items: seq<MItem>, mid: nat, tree: PTree<Values>)
    requires Settles(WriteValues, ReadValues, mem, ListsIn(mem)) && Lawful(WriteValues, ReadValues)
    requires pos < |was| && was[pos].EntryTok? && ReadList(was, pos, KeepExtra) == Got(items, mid)
    requires ReadTree(ReadValues, was, mid).Got? && ReadTree(ReadValues, was, mid).value == tree
    requires At(mem, pos, WriteEntry(Entry(Values(pos, items), tree)))
    ensures ListLinked(mem, Values(pos, items)) && MapLinked(mem, tree, ListsIn(mem))
    ensures mem[pos].EntryTok? && mem[pos].root == Addr(Address, Root(tree))
  {
    var to := EntrySplit(Entry(Values(pos, items), tree), mem, pos);
    assert to == mid by { ListSized(was, pos, pos, KeepExtra); }
    assert ListLinked(mem, Values(pos, items)) by { ListSettles(was, mem, pos, KeepExtra); }
    TreeSettles(WriteValues, ReadValues, was, mem, mid, ListsIn(mem));
  }

  lemma GroupsSettle(mem: Mem)
    ensures Settles(WriteGroup, ReadGroup, mem, GroupsIn(mem))
  {
    EntriesSettle(mem);
    EntryLaws();
    forall was: Mem, pos: nat | ReadGroup(was, pos).Got? && At(mem, pos, WriteGroup(ReadGroup(was, pos).value))
      ensures GroupsIn(mem)(ReadGroup(was, pos).value)
    {
      TreeSettles(WriteEntry, ReadEntry, was, mem, pos, EntriesIn(mem));
    }
  }

  lemma AppsSettle(mem: Mem)
    ensures Settles(WriteApp, ReadApp, mem, AppsIn(mem))
  {
    GroupsSettle(mem);
    GroupLaws();
    forall was: Mem, pos: nat | ReadApp(was, pos).Got? && At(mem, pos, WriteApp(ReadApp(was, pos).value))
      ensures AppsIn(mem)(ReadApp(was, pos).value)
    {
      AppSettles(was, mem, pos);
    }
  }

  lemma AppSettles(was: Mem, mem: Mem, pos: nat)
    requires Settles(WriteGroup, ReadGroup, mem, GroupsIn(mem)) && Lawful(WriteGroup, ReadGroup)
    requires ReadApp(was, pos).Got? && At(mem, pos, WriteApp(ReadApp(was, pos).value))
    ensures AppsIn(mem)(ReadApp(was, pos).value)
  {
    if was[pos].groups != 0 {
      var tree := ReadTree(ReadGroup, was, pos + 2).value;
      AtHead(mem, pos, AppTok(pos + 1), [GroupsHead(pos, tree)] + WriteTree(tree, WriteGroup));
      AtHead(mem, pos + 1, GroupsHead(pos, tree), WriteTree(tree, WriteGroup));
      TreeSettles(WriteGroup, ReadGroup, was, mem, pos + 2, GroupsIn(mem));
    } else {
      assert mem[pos] == mem[pos..pos + 1][0];
    }
  }

  lemma TypesSettle(apps: PTree<App>, mem: Mem)
    ensures Settles(WriteMimeType, ReadMimeType(apps), mem, TypesIn(mem))
  {
    MimeTypeLaws(apps);
    forall was: Mem, pos: nat | ReadSubType(apps)(was, pos).Got? && At(mem, pos, WriteSubType(ReadSubType(apps)(was, pos).value))
      ensures ListsIn(mem)(ReadSubType(apps)(was, pos).value)
    {
      ChainSettles(was, mem, pos, Resolve(apps));
    }
    forall was: Mem, pos: nat | ReadMimeType(apps)(was, pos).Got? && At(mem, pos, WriteMimeType(ReadMimeType(apps)(was, pos).value))
      ensures TypesIn(mem)(ReadMimeType(apps)(was, pos).value)
    {
      TreeSettles(WriteSubType, ReadSubType(apps), was, mem, pos, ListsIn(mem));
    }
  }

  /** What was read, written at the start of a memory, is linked there. */
  lemma CacheSettles(was: Mem, mem: Mem)
    requires ReadCache(was).Got? && At(mem, 0, WriteCache(ReadCache(was).value))
    requires ReadCache(was).next == |WriteCache(ReadCache(was).value)|
    ensures IndexLinked(mem, ReadCache(was).value)
  {
    var d := ReadCache(was).value;
    CacheAt(d, mem);
    CacheReads(was, d);
    ChainSettles(was, mem, 1, KeepExtra);
    AppTreeSettles(was, mem, AppsPos(d));
    MapSettles(d.apps, was, mem, AssocPos(d));
    MapSettles(d.apps, was, mem, ListsPos(d));
  }

  /** The parts that were read, at the places where the parts would be written. */
  lemma CacheReads(was: Mem, d: Index)
    requires ReadCache(was).Got? && ReadCache(was).value == d
    ensures ReadChain(was, 1, KeepExtra) == Got(d.files, AppsPos(d))
    ensures ReadTree(ReadApp, was, AppsPos(d)) == Got(d.apps, AssocPos(d))
    ensures ReadTree(ReadMimeType(d.apps), was, AssocPos(d)) == Got(d.assoc, ListsPos(d))
    ensures ReadTree(ReadMimeType(d.apps), was, ListsPos(d)).Got? && ReadTree(ReadMimeType(d.apps), was, ListsPos(d)).value == d.lists
  {
    var files := ReadValues(was, 1);
    ChainLaws(KeepExtra, ReadValues);
    assert files.value == d.files && files.next == AppsPos(d);
    var apps := ReadTree(ReadApp, was, files.next);
    AppLaws();
    TreeSized(WriteApp, ReadApp, was, files.next);
    assert apps.value == d.apps && apps.next == AssocPos(d);
    MimeTypeLaws(d.apps);
    TreeSized(WriteMimeType, ReadMimeType(d.apps), was, AssocPos(d));
  }

  lemma AppTreeSettles(was: Mem, mem: Mem, pos: nat)
    requires ReadTree(ReadApp, was, pos).Got? && At(mem, pos, WriteTree(ReadTree(ReadApp, was, pos).value, WriteApp))
    ensures var r := ReadTree(ReadApp, was, pos);
      && MapLinked(mem, r.value, AppsIn(mem)) && At(mem, pos, [TreeHead(r.value, Address)])
      && r.next == pos + |WriteTree(r.value, WriteApp)|
  {
    AppsSettle(mem);
    AppLaws();
    TreeSettles(WriteApp, ReadApp, was, mem, pos, AppsIn(mem));
    TreeSized(WriteApp, ReadApp, was, pos);
  }

  lemma MapSettles(apps: PTree<App>, was: Mem, mem: Mem, pos: nat)
    requires ReadTree(ReadMimeType(apps), was, pos).Got? && At(mem, pos, WriteTree(ReadTree(ReadMimeType(apps), was, pos).value, WriteMimeType))
    ensures var r := ReadTree(ReadMimeType(apps), was, pos);
      && MapLinked(mem, r.value, TypesIn(mem)) && At(mem, pos, [TreeHead(r.value, Address)])
      && r.next == pos + |WriteTree(r.value, WriteMimeType)|
  {
    TypesSettle(apps, mem);
    MimeTypeLaws(apps);
    TreeSettles(WriteMimeType, ReadMimeType(apps), was, mem, pos, TypesIn(mem));
    TreeSized(WriteMimeType, ReadMimeType(apps), was, pos);
  }

  // ----- markers of missing children in a written cache -----

  ghost predicate Clean(s: Mem) { Zeroed(s, 0) }

  lemma CleanParts(a: Mem, b: Mem)
    requires Clean(a) && Clean(b)
    ensures Clean(a + b)
  {
    var s := a + b;
    forall i | 0 <= i < |s| && EmptyAt(s, i) ensures s[i] == EMPTY_NODE {
      if i < |a| { assert EmptyAt(a, i); } else { assert EmptyAt(b, i - |a|); }
    }
  }

  lemma {:induction false} CleanStr(s: string)
    ensures Clean(WriteStr(s))
  {
    if s != [] {
      CleanStr(s[1..]);
      CleanParts([Ch(s[0])], WriteStr(s[1..]));
    }
  }

  lemma {:induction false} CleanItems(list: nat, s: seq<MItem>, i: nat)
    requires i <= |s|
    ensures Clean(WriteItems(list, s, i))
    decreases |s| - i
  {
    if i < |s| {
      var tok := [ItemTok(list, AddrAt(s, i + 1), AddrAt(s, i - 1), s[i].extra)];
      CleanItems(list, s, i + 1);
      CleanStr(s[i].text);
      CleanParts(tok, WriteStr(s[i].text));
      CleanParts(tok + WriteStr(s[i].text), WriteItems(list, s, i + 1));
    }
  }

  ghost predicate CleanWriter<V(!new)>(enc: Writer<V>) {
    forall v {:trigger enc(v)} :: Clean(enc(v))
  }

  lemma {:induction false} CleanDump<V(!new)>(t: PTree<V>, p: Option<int>, enc: Writer<V>)
    requires CleanWriter(enc)
    ensures Clean(Dump(t, p, Address, enc))
  {
    if t.Node? {
      var id := Some(t.it.id);
      var tok := [NodeTok(Visit(true, true), Addr(Address, Root(t.left)), Addr(Address, Root(t.right)), Addr(Address, p), t.it.bal)];
      CleanDump(t.left, id, enc);
      CleanDump(t.right, id, enc);
      CleanStr(t.it.key);
      assert Clean(enc(t.it.value));
      CleanParts(tok, WriteStr(t.it.key));
      CleanParts(tok + WriteStr(t.it.key), enc(t.it.value));
      CleanParts(DumpNode(t, p, Address, enc), Dump(t.left, id, Address, enc));
      CleanParts(DumpNode(t, p, Address, enc) + Dump(t.left, id, Address, enc), Dump(t.right, id, Address, enc));
    }
  }

  lemma CleanTree<V(!new)>(t: PTree<V>, enc: Writer<V>)
    requires CleanWriter(enc)
    ensures Clean(WriteTree(t, enc))
  {
    CleanDump(t, None, enc);
    CleanParts([TreeHead(t, Address)], Dump(t, None, Address, enc));
  }

  lemma CleanValues()
    ensures CleanWriter(WriteValues) && CleanWriter(WriteSubType)
  {
    forall v: Values ensures Clean(WriteValues(v)) {
      CleanItems(v.at, v.items, 0);
      CleanParts([ListTok(AddrAt(v.items, 0), AddrAt(v.items, |v.items| - 1))], WriteItems(v.at, v.items, 0));
    }
    forall v: SubType ensures Clean(WriteSubType(v)) { assert WriteSubType(v) == WriteValues(v); }
  }

  lemma CleanEntries()
    ensures CleanWriter(WriteEntry) && CleanWriter(WriteGroup) && CleanWriter(WriteMimeType)
  {
    CleanValues();
    forall v: Entry ensures Clean(WriteEntry(v)) {
      CleanItems(v.values.at, v.values.items, 0);
      CleanTree(v.localized, WriteValues);
      CleanParts(EntryItems(v), WriteTree(v.localized, WriteValues));
      CleanParts([EntryHead(v)], EntryItems(v) + WriteTree(v.localized, WriteValues));
    }
    forall v: Group ensures Clean(WriteGroup(v)) { CleanTree(v, WriteEntry); }
    forall v: MimeType ensures Clean(WriteMimeType(v)) { CleanTree(v, WriteSubType); }
  }

  lemma CleanApps()
    ensures CleanWriter(WriteApp)
  {
    CleanEntries();
    forall v: App ensures Clean(WriteApp(v)) {
      if Owns(v) {
        CleanTree(v.groups.value.2, WriteGroup);
        var head, tree := GroupsHead(v.at, v.groups.value.2), WriteTree(v.groups.value.2, WriteGroup);
        CleanParts([head], tree);
        CleanParts([AppTok(v.groups.value.0)], [head] + tree);
      }
    }
  }

  lemma CacheClean(d: Index)
    ensures Clean(WriteCache(d))
  {
    var s1, s2 := WriteValues(d.files), WriteTree(d.apps, WriteApp);
    var s3, s4 := WriteTree(d.assoc, WriteMimeType), WriteTree(d.lists, WriteMimeType);
    CleanValues();
    CleanEntries();
    CleanApps();
    CleanTree(d.apps, WriteApp);
    CleanTree(d.assoc, WriteMimeType);
    CleanTree(d.lists, WriteMimeType);
    CleanParts(s3, s4);
    CleanParts(s2, s3 + s4);
    CleanParts(s1, s2 + (s3 + s4));
    CleanParts([VersionTok(1)], s1 + (s2 + (s3 + s4)));
  }

  // ----- written and mapped -----

  /** The memory of a written cache, once mapped, holds what writing the reloaded index would write, and
      every list and tree of the reloaded index is linked in it. */
  method MapFile(file: Mem, ghost d: Index) returns (mem: array<Tok>, ok: bool)
    requires GoodIndex(d) && file == WriteCache(d)
    ensures ok && fresh(mem) && mem[..] == WriteCache(Reloaded(d)) && IndexLinked(mem[..], Reloaded(d))
  {
    mem := NewMemory(file);
    CacheClean(d);
    CacheRoundTrip(d);
    ok := MapCache(mem);
    WholePatch(file, WriteCache(Reloaded(d)));
    CacheSettles(file, mem[..]);
  }

  /** The index on the heap, written by the walks over its nested trees and mapped: the reloaded index is linked
      in the memory, and is the one on the heap. */
  method SaveAndMapCache(d: CacheSave.Data, addr: IndexHeap.Place, ghost s: IndexHeap.Trees) returns (mem: array<Tok>, ok: bool)
    requires IndexHeap.Ready(s) && CacheSave.Indexed(s, d) && GoodIndex(CacheSave.IndexOf(s, d, addr))
    modifies IndexHeap.Below(s, 4)`visit
    ensures IndexHeap.Ready(s)
    ensures var r := Reloaded(CacheSave.IndexOf(s, d, addr));
      ok && fresh(mem) && mem[..] == WriteCache(r) && IndexLinked(mem[..], r) && CacheSave.IndexKept(s, d, r)
  {
    CacheSave.ReloadedKept(s, d, addr);
    var file := CacheSave.SaveCache(d, addr, s);
    mem, ok := MapFile(file, CacheSave.IndexOf(s, d, addr));
  }

  method NewMemory(file: Mem) returns (mem: array<Tok>)
    ensures fresh(mem) && mem[..] == file
  {
    mem := new Tok[|file|](i requires 0 <= i < |file| => file[i]);
  }

  lemma WholePatch(file: Mem, s: Mem)
    requires |s| == |file|
    ensures Patch(file, 0, s) == s && At(s, 0, s)
  {
  }
}
