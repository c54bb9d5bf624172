/**
 * The binary cache of the desktop index: AVL trees whose values hold lists and further
 * trees, written as one stream and read back level by level.
 */
module DesktopCache {
  import opened CStrings
  import opened AvlModel
  import opened AvlStream
  import opened CacheTrees
  import opened CacheLists

  // ----- the index in memory; nodes and items carry their addresses -----

  /** A list: its own address and its items. */
  datatype Values = Values(at: nat, items: seq<MItem>)

  datatype Entry = Entry(values: Values, localized: PTree<Values>)
  type Group = PTree<Entry>

  /** `at` is the application's own address. Its groups are written only if it owns them. */
  datatype App = App(at: nat, groups: Option<(nat, nat, PTree<Group>)>)

  type SubType = Values
  type MimeType = PTree<SubType>

  datatype Index = Index(files: Values, apps: PTree<App>, assoc: PTree<MimeType>, lists: PTree<MimeType>)

  /** For strings and watched files the further field is data, and stays. */
  function KeepExtra(extra: int, text: string): int { extra }

  // ----- localized values -----

  /** `write_app_group_localized_entry`. */
  function WriteValues(v: Values): Mem {
    [ListTok(AddrAt(v.items, 0), AddrAt(v.items, |v.items| - 1))] + WriteItems(v.at, v.items, 0)
  }

  /** A list on its own, its items' further fields set by `fix`. */
  function ReadChain(mem: Mem, pos: nat, fix: (int, string) -> int): Got<Values> {
    if pos >= |mem| || !mem[pos].ListTok? then Bad
    else match ReadList(mem, pos, fix)
      case Bad => Bad
      case Got(items, end) => Got(Values(pos, items), end)
  }

  function ChainAt(v: Values, pos: nat, fix: (int, string) -> int): Values {
    Values(pos, ItemsImage(v.items, 0, pos + 1, fix))
  }

  lemma ChainRoundTrip(v: Values, mem: Mem, pos: nat, fix: (int, string) -> int)
    requires GoodItems(v.items) && At(mem, pos, WriteValues(v))
    ensures ReadChain(mem, pos, fix) == Got(ChainAt(v, pos, fix), pos + |WriteValues(v)|)
  {
    AtHead(mem, pos, ListTok(AddrAt(v.items, 0), AddrAt(v.items, |v.items| - 1)), WriteItems(v.at, v.items, 0));
    ListRoundTrip(v.at, v.items, mem, pos, fix);
  }

  /** `read_app_group_localized_entry`. */
  function ReadValues(mem: Mem, pos: nat): Got<Values> {
    ReadChain(mem, pos, KeepExtra)
  }

  function ValuesAt(v: Values, pos: nat): Values {
    ChainAt(v, pos, KeepExtra)
  }

  predicate GoodValues(v: Values) { GoodItems(v.items) }

  lemma ValuesRoundTrip()
    ensures RoundTrips(WriteValues, ReadValues, ValuesAt, GoodValues)
  {
    forall v, mem: Mem, pos: nat | GoodValues(v) && At(mem, pos, WriteValues(v))
      ensures ReadValues(mem, pos) == Got(ValuesAt(v, pos), pos + |WriteValues(v)|)
    {
      ChainRoundTrip(v, mem, pos, KeepExtra);
    }
  }

  // ----- kinds of values -----

  /** The values of trees, by the functions that read and write them. */
  datatype Kind = Strings | EntryValue | GroupValue | AppValue | SubTypeValue | MimeTypeValue

  /** How many trees deep a value of the kind goes. */
  function Rank(kind: Kind): nat {
    match kind
    case Strings => 0
    case EntryValue => 1
    case GroupValue => 2
    case AppValue => 3
    case SubTypeValue => 0
    case MimeTypeValue => 1
  }

  // ----- entries -----

  /** The entry holds the ends of its list and a copy of the header of its tree. */
  function EntryHead(v: Entry): Tok {
    EntryTok(AddrAt(v.values.items, 0), AddrAt(v.values.items, |v.values.items| - 1), TreeHead(v.localized, Address).root)
  }

  function EntryItems(v: Entry): Mem {
    WriteItems(v.values.at, v.values.items, 0)
  }

  /** `write_app_group_entry`: the structure, its values, the tree of localized values. */
  function WriteEntry(v: Entry): Mem {
    [EntryHead(v)] + (EntryItems(v) + WriteTree(v.localized, WriteValues))
  }

  /** `read_app_group_entry`. */
  function ReadEntry(mem: Mem, pos: nat): Got<Entry> {
    if pos >= |mem| || !mem[pos].EntryTok? then Bad
    else match ReadList(mem, pos, KeepExtra)
      case Bad => Bad
      case Got(items, mid) =>
        match ReadTree(ReadValues, mem, mid)
        case Bad => Bad
        case Got(localized, end) => Got(Entry(Values(pos, items), localized), end)
  }

  function EntryAt(v: Entry, pos: nat): Entry {
    Entry(ValuesAt(v.values, pos), TreeAt(v.localized, pos + 1 + |EntryItems(v)|, WriteValues, ValuesAt))
  }

  ghost predicate GoodEntry(v: Entry) {
    GoodValues(v.values) && AllOk(v.localized, GoodValues)
  }

  lemma EntryRoundTrip()
    ensures RoundTrips(WriteEntry, ReadEntry, EntryAt, GoodEntry)
  {
    ValuesRoundTrip();
    forall v, mem: Mem, pos: nat | GoodEntry(v) && At(mem, pos, WriteEntry(v))
      ensures ReadEntry(mem, pos) == Got(EntryAt(v, pos), pos + |WriteEntry(v)|)
    {
      EntryOne(v, mem, pos);
    }
  }

  /** One read of an entry, from the results for its parts. */
  lemma EntryParts(mem: Mem, pos: nat, items: seq<MItem>, mid: nat, localized: PTree<Values>, end: nat)
    requires pos < |mem| && mem[pos].EntryTok?
    requires ReadList(mem, pos, KeepExtra) == Got(items, mid)
    requires ReadTree(ReadValues, mem, mid) == Got(localized, end)
    ensures ReadEntry(mem, pos) == Got(Entry(Values(pos, items), localized), end)
  {
  }

  /** The parts of a written entry. */
  lemma EntrySplit(v: Entry, mem: Mem, pos: nat) returns (mid: nat)
    requires At(mem, pos, WriteEntry(v))
    ensures mid == pos + 1 + |EntryItems(v)|
    ensures pos < |mem| && mem[pos] == EntryHead(v)
    ensures At(mem, pos + 1, EntryItems(v)) && At(mem, mid, WriteTree(v.localized, WriteValues))
    ensures pos + |WriteEntry(v)| == mid + |WriteTree(v.localized, WriteValues)|
  {
    var items, tree := EntryItems(v), WriteTree(v.localized, WriteValues);
    mid := pos + 1 + |items|;
    AtHead(mem, pos, EntryHead(v), items + tree);
    AtSplit(mem, pos + 1, items, tree);
  }

  lemma EntryOne(v: Entry, mem: Mem, pos: nat)
    requires RoundTrips(WriteValues, ReadValues, ValuesAt, GoodValues)
    requires GoodEntry(v) && At(mem, pos, WriteEntry(v))
    ensures ReadEntry(mem, pos) == Got(EntryAt(v, pos), pos + |WriteEntry(v)|)
  {
    var mid := EntrySplit(v, mem, pos);
    ListRoundTrip(v.values.at, v.values.items, mem, pos, KeepExtra);
    TreeCodec(v.localized, WriteValues, ReadValues, ValuesAt, GoodValues, mem, mid);
    EntryParts(mem, pos, ValuesAt(v.values, pos).items, mid, TreeAt(v.localized, mid, WriteValues, ValuesAt), mid + |WriteTree(v.localized, WriteValues)|);
  }

  // ----- groups and applications -----

  /** `write_app_group`, `read_app_group`: a group is a tree of entries. */
  function WriteGroup(v: Group): Mem { WriteTree(v, WriteEntry) }

  function ReadGroup(mem: Mem, pos: nat): Got<Group> { ReadTree(ReadEntry, mem, pos) }

  function GroupAt(v: Group, pos: nat): Group { TreeAt(v, pos, WriteEntry, EntryAt) }

  ghost predicate GoodGroup(v: Group) { AllOk(v, GoodEntry) }

  lemma GroupRoundTrip()
    ensures RoundTrips(WriteGroup, ReadGroup, GroupAt, GoodGroup)
  {
    EntryRoundTrip();
    forall v, mem: Mem, pos: nat | GoodGroup(v) && At(mem, pos, WriteGroup(v))
      ensures ReadGroup(mem, pos) == Got(GroupAt(v, pos), pos + |WriteGroup(v)|)
    {
      TreeCodec(v, WriteEntry, ReadEntry, EntryAt, GoodEntry, mem, pos);
    }
  }

  predicate Owns(v: App) {
    v.groups.Some? && v.groups.value.1 == v.at
  }

  /** The groups name their application and hold a copy of the header of their tree. */
  function GroupsHead(owner: nat, tree: PTree<Group>): Tok {
    GroupsTok(owner, TreeHead(tree, Address).root)
  }

  /** `write_app`: groups that belong to another application are not written. */
  function WriteApp(v: App): Mem {
    if Owns(v) then
      [AppTok(v.groups.value.0)] + ([GroupsHead(v.at, v.groups.value.2)] + WriteTree(v.groups.value.2, WriteGroup))
    else [AppTok(0)]
  }

  /** `read_app`. */
  function ReadApp(mem: Mem, pos: nat): Got<App> {
    if pos >= |mem| || !mem[pos].AppTok? then Bad
    else if mem[pos].groups == 0 then Got(App(pos, None), pos + 1)
    else if pos + 1 >= |mem| || !mem[pos + 1].GroupsTok? then Bad
    else match ReadTree(ReadGroup, mem, pos + 2)
      case Bad => Bad
      case Got(tree, end) => Got(App(pos, Some((pos + 1, pos, tree))), end)
  }

  function AppAt(v: App, pos: nat): App {
    App(pos, if Owns(v) then Some((pos + 1, pos, TreeAt(v.groups.value.2, pos + 2, WriteGroup, GroupAt))) else None)
  }

  ghost predicate GoodApp(v: App) {
    Owns(v) ==> v.groups.value.0 != 0 && AllOk(v.groups.value.2, GoodGroup)
  }

  lemma AppRoundTrip()
    ensures RoundTrips(WriteApp, ReadApp, AppAt, GoodApp)
  {
    GroupRoundTrip();
    forall v, mem: Mem, pos: nat | GoodApp(v) && At(mem, pos, WriteApp(v))
      ensures ReadApp(mem, pos) == Got(AppAt(v, pos), pos + |WriteApp(v)|)
    {
      AppOne(v, mem, pos);
    }
  }

  lemma AppOne(v: App, mem: Mem, pos: nat)
    requires RoundTrips(WriteGroup, ReadGroup, GroupAt, GoodGroup)
    requires GoodApp(v) && At(mem, pos, WriteApp(v))
    ensures ReadApp(mem, pos) == Got(AppAt(v, pos), pos + |WriteApp(v)|)
  {
    if Owns(v) {
      var tree := WriteTree(v.groups.value.2, WriteGroup);
      AtHead(mem, pos, AppTok(v.groups.value.0), [GroupsHead(v.at, v.groups.value.2)] + tree);
      AtHead(mem, pos + 1, GroupsHead(v.at, v.groups.value.2), tree);
      TreeCodec(v.groups.value.2, WriteGroup, ReadGroup, GroupAt, GoodGroup, mem, pos + 2);
    } else {
      assert [AppTok(0)] + [] == WriteApp(v);
      AtHead(mem, pos, AppTok(0), []);
    }
  }

  // ----- association lists -----

  /** The address of the application with this id, or NULL: `search_node` on the reloaded applications. */
  function AppAddress(apps: PTree<App>, name: string): int {
    match Lookup(apps, name)
    case None => 0
    case Some(it) => it.value.at
  }

  function Resolve(apps: PTree<App>): (int, string) -> int {
    (extra: int, name: string) => AppAddress(apps, name)
  }

  /** `write_mime_group_sub_type`. */
  function WriteSubType(v: SubType): Mem { WriteValues(v) }

  /** `read_mime_group_sub_type`: every item is pointed to the application of its name. */
  function ReadSubType(apps: PTree<App>): Reader<SubType> {
    (mem: Mem, pos: nat) => ReadChain(mem, pos, Resolve(apps))
  }

  function SubTypeAt(apps: PTree<App>): ValueImage<SubType, SubType> {
    (v: SubType, pos: nat) => ChainAt(v, pos, Resolve(apps))
  }

  lemma SubTypeRoundTrip(apps: PTree<App>)
    ensures RoundTrips(WriteSubType, ReadSubType(apps), SubTypeAt(apps), GoodValues)
  {
    forall v, mem: Mem, pos: nat | GoodValues(v) && At(mem, pos, WriteSubType(v))
      ensures ReadSubType(apps)(mem, pos) == Got(SubTypeAt(apps)(v, pos), pos + |WriteSubType(v)|)
    {
      ChainRoundTrip(v, mem, pos, Resolve(apps));
    }
  }

  /** `write_mime_group_type`, `read_mime_group_type`: a tree of sub-types. */
  function WriteMimeType(v: MimeType): Mem { WriteTree(v, WriteSubType) }

  function ReadMimeType(apps: PTree<App>): Reader<MimeType> {
    (mem: Mem, pos: nat) => ReadTree(ReadSubType(apps), mem, pos)
  }

  function MimeTypeAt(apps: PTree<App>): ValueImage<MimeType, MimeType> {
    (v: MimeType, pos: nat) => TreeAt(v, pos, WriteSubType, SubTypeAt(apps))
  }

  ghost predicate GoodMimeType(v: MimeType) { AllOk(v, GoodValues) }

  lemma MimeTypeRoundTrip(apps: PTree<App>)
    ensures RoundTrips(WriteMimeType, ReadMimeType(apps), MimeTypeAt(apps), GoodMimeType)
  {
    SubTypeRoundTrip(apps);
    forall v, mem: Mem, pos: nat | GoodMimeType(v) && At(mem, pos, WriteMimeType(v))
      ensures ReadMimeType(apps)(mem, pos) == Got(MimeTypeAt(apps)(v, pos), pos + |WriteMimeType(v)|)
    {
      TreeCodec(v, WriteSubType, ReadSubType(apps), SubTypeAt(apps), GoodValues, mem, pos);
    }
  }

  // ----- the whole cache -----

  /** `_xdg_app_cache_write`. */
  function WriteCache(d: Index): Mem {
    [VersionTok(1)]
    + (WriteValues(d.files)
       + (WriteTree(d.apps, WriteApp)
          + (WriteTree(d.assoc, WriteMimeType) + WriteTree(d.lists, WriteMimeType))))
  }

  /** `_xdg_app_cache_read`: only version 1; applications before the two association maps. */
  function ReadCache(mem: Mem): Got<Index> {
    if |mem| == 0 || mem[0] != VersionTok(1) then Bad
    else match ReadValues(mem, 1)
      case Bad => Bad
      case Got(files, pos1) =>
        match ReadTree(ReadApp, mem, pos1)
        case Bad => Bad
        case Got(apps, pos2) => ReadMaps(files, apps, mem, pos2)
  }

  /** Another version is not read. */
  lemma OtherVersion(mem: Mem)
    ensures ReadCache(mem).Got? ==> mem != [] && mem[0] == VersionTok(1)
  {
  }

  function ReadMaps(files: Values, apps: PTree<App>, mem: Mem, pos: nat): Got<Index> {
    match ReadTree(ReadMimeType(apps), mem, pos)
    case Bad => Bad
    case Got(assoc, mid) =>
      match ReadTree(ReadMimeType(apps), mem, mid)
      case Bad => Bad
      case Got(lists, end) => Got(Index(files, apps, assoc, lists), end)
  }

  ghost predicate GoodIndex(d: Index) {
    GoodValues(d.files) && AllOk(d.apps, GoodApp) && AllOk(d.assoc, GoodMimeType) && AllOk(d.lists, GoodMimeType)
  }

  // Where the parts of the file begin.

  function AppsPos(d: Index): nat { 1 + |WriteValues(d.files)| }

  function AssocPos(d: Index): nat { AppsPos(d) + |WriteTree(d.apps, WriteApp)| }

  function ListsPos(d: Index): nat { AssocPos(d) + |WriteTree(d.assoc, WriteMimeType)| }

  /** The index as it comes back. */
  function Reloaded(d: Index): Index {
    var apps := ReloadedApps(d);
    Index(ValuesAt(d.files, 1), apps,
          TreeAt(d.assoc, AssocPos(d), WriteMimeType, MimeTypeAt(apps)),
          TreeAt(d.lists, ListsPos(d), WriteMimeType, MimeTypeAt(apps)))
  }

  function ReloadedApps(d: Index): PTree<App> {
    TreeAt(d.apps, AppsPos(d), WriteApp, AppAt)
  }

  lemma FourParts(mem: Mem, pos: nat, s1: Mem, s2: Mem, s3: Mem, s4: Mem)
    requires At(mem, pos, s1 + (s2 + (s3 + s4)))
    ensures At(mem, pos, s1) && At(mem, pos + |s1|, s2)
    ensures At(mem, pos + |s1| + |s2|, s3) && At(mem, pos + |s1| + |s2| + |s3|, s4)
  {
    var r2 := s3 + s4;
    var r1 := s2 + r2;
    AtSplit(mem, pos, s1, r1);
    AtSplit(mem, pos + |s1|, s2, r2);
    AtSplit(mem, pos + |s1| + |s2|, s3, s4);
  }

  /** Where the parts of a written cache stand. */
  lemma CacheAt(d: Index, mem: Mem)
    requires At(mem, 0, WriteCache(d))
    ensures |mem| > 0 && mem[0] == VersionTok(1)
    ensures At(mem, 1, WriteValues(d.files)) && At(mem, AppsPos(d), WriteTree(d.apps, WriteApp))
    ensures At(mem, AssocPos(d), WriteTree(d.assoc, WriteMimeType)) && At(mem, ListsPos(d), WriteTree(d.lists, WriteMimeType))
  {
    hide WriteValues, WriteTree, WriteApp, WriteMimeType;
    var s1, s2 := WriteValues(d.files), WriteTree(d.apps, WriteApp);
    var s3, s4 := WriteTree(d.assoc, WriteMimeType), WriteTree(d.lists, WriteMimeType);
    var rest := s1 + (s2 + (s3 + s4));
    AtHead(mem, 0, VersionTok(1), rest);
    FourParts(mem, 1, s1, s2, s3, s4);
  }

  lemma AppsComeBack(d: Index, mem: Mem)
    requires GoodIndex(d) && At(mem, AppsPos(d), WriteTree(d.apps, WriteApp))
    ensures ReadTree(ReadApp, mem, AppsPos(d)) == Got(ReloadedApps(d), AssocPos(d))
  {
    AppRoundTrip();
    TreeCodec(d.apps, WriteApp, ReadApp, AppAt, GoodApp, mem, AppsPos(d));
  }

  lemma AssociationsComeBack(apps: PTree<App>, t: PTree<MimeType>, mem: Mem, pos: nat)
    requires AllOk(t, GoodMimeType) && At(mem, pos, WriteTree(t, WriteMimeType))
    ensures ReadTree(ReadMimeType(apps), mem, pos)
      == Got(TreeAt(t, pos, WriteMimeType, MimeTypeAt(apps)), pos + |WriteTree(t, WriteMimeType)|)
  {
    MimeTypeRoundTrip(apps);
    TreeCodec(t, WriteMimeType, ReadMimeType(apps), MimeTypeAt(apps), GoodMimeType, mem, pos);
  }

  lemma MapsParts(files: Values, apps: PTree<App>, mem: Mem, pos: nat, assoc: PTree<MimeType>, mid: nat, lists: PTree<MimeType>, end: nat)
    requires ReadTree(ReadMimeType(apps), mem, pos) == Got(assoc, mid)
    requires ReadTree(ReadMimeType(apps), mem, mid) == Got(lists, end)
    ensures ReadMaps(files, apps, mem, pos) == Got(Index(files, apps, assoc, lists), end)
  {
  }

  lemma MapsComeBack(d: Index, mem: Mem)
    requires GoodIndex(d)
    requires At(mem, AssocPos(d), WriteTree(d.assoc, WriteMimeType)) && At(mem, ListsPos(d), WriteTree(d.lists, WriteMimeType))
    ensures ReadMaps(ValuesAt(d.files, 1), ReloadedApps(d), mem, AssocPos(d))
      == Got(Reloaded(d), ListsPos(d) + |WriteTree(d.lists, WriteMimeType)|)
  {
    var apps := ReloadedApps(d);
    AssociationsComeBack(apps, d.assoc, mem, AssocPos(d));
    AssociationsComeBack(apps, d.lists, mem, ListsPos(d));
    MapsParts(ValuesAt(d.files, 1), apps, mem, AssocPos(d),
              TreeAt(d.assoc, AssocPos(d), WriteMimeType, MimeTypeAt(apps)), ListsPos(d),
              TreeAt(d.lists, ListsPos(d), WriteMimeType, MimeTypeAt(apps)), ListsPos(d) + |WriteTree(d.lists, WriteMimeType)|);
  }

  /** Reading what was written consumes the whole stream and yields `Reloaded`. */
  lemma CacheRoundTrip(d: Index)
    requires GoodIndex(d)
    ensures ReadCache(WriteCache(d)) == Got(Reloaded(d), |WriteCache(d)|)
  {
    var mem := WriteCache(d);
    assert At(mem, 0, mem);
    CacheAt(d, mem);
    assert ReadValues(mem, 1) == Got(ValuesAt(d.files, 1), AppsPos(d)) by { ValuesRoundTrip(); }
    AppsComeBack(d, mem);
    MapsComeBack(d, mem);
  }

  // ----- one file, token by token -----

  /** The node at `id` without children. */
  function Sole<V>(id: int, key: string, value: V): PTree<V> {
    Node(Leaf, Item(id, key, Balanced, value), Leaf)
  }

  lemma SoleDump<V>(id: int, key: char, value: V, p: Option<int>, enc: Writer<V>)
    ensures Dump(Sole(id, [key], value), p, Address, enc)
      == [NodeTok(Visit(true, true), 0, 0, Addr(Address, p), Balanced), Ch(key), Ch('\0')] + enc(value)
         + [NodeTok(Visit(false, false), 0, 0, 0, Balanced), NodeTok(Visit(false, false), 0, 0, 0, Balanced)]
  {
    var t := Sole(id, [key], value);
    assert WriteStr([key][1..]) == [Ch('\0')];
    assert WriteStr([key]) == [Ch(key), Ch('\0')];
    assert DumpNode(t, p, Address, enc) == [NodeTok(Visit(true, true), 0, 0, Addr(Address, p), Balanced), Ch(key), Ch('\0')] + enc(value);
  }

  lemma TwoValues(list: nat, at: nat, c: char, next: nat, d: char)
    ensures WriteItems(list, [MItem(at, 0, [c]), MItem(next, 0, [d])], 0)
      == [ItemTok(list, next, 0, 0), Ch(c), Ch('\0'), ItemTok(list, 0, at, 0), Ch(d), Ch('\0')]
  {
    var s := [MItem(at, 0, [c]), MItem(next, 0, [d])];
    assert WriteStr([c][1..]) == [Ch('\0')] && WriteStr([d][1..]) == [Ch('\0')];
    assert WriteStr([c]) == [Ch(c), Ch('\0')] && WriteStr([d]) == [Ch(d), Ch('\0')];
    assert WriteItems(list, s, 2) == [];
    assert WriteItems(list, s, 1) == [ItemTok(list, 0, at, 0), Ch(d), Ch('\0')];
  }

  lemma OneValue(list: nat, at: nat, c: char)
    ensures WriteItems(list, [MItem(at, 0, [c])], 0) == [ItemTok(list, 0, 0, 0), Ch(c), Ch('\0')]
  {
    assert WriteStr([c][1..]) == [Ch('\0')];
    assert WriteStr([c]) == [Ch(c), Ch('\0')];
  }

  /** Two applications that share groups, of which the application "a" is the owner. */
  function SharedGroups(): PTree<Group> {
    Sole(300, "G", Sole(400, "K", Entry(Values(500, [MItem(510, 0, "v")]), Leaf)))
  }

  function TwoApps(): PTree<App> {
    Node(Sole(50, "a", App(100, Some((200, 100, SharedGroups())))), Item(60, "b", LeftHeavy, App(110, Some((200, 100, SharedGroups())))), Leaf)
  }

  lemma EntryInFile()
    ensures WriteEntry(Entry(Values(500, [MItem(510, 0, "v")]), Leaf))
      == [EntryTok(510, 510, 0), ItemTok(500, 0, 0, 0), Ch('v'), Ch('\0'), TreeTok(0), NodeTok(Visit(false, false), 0, 0, 0, Balanced)]
  {
    OneValue(500, 510, 'v');
  }

  lemma GroupInFile()
    ensures WriteGroup(Sole(400, "K", Entry(Values(500, [MItem(510, 0, "v")]), Leaf)))
      == [TreeTok(400), NodeTok(Visit(true, true), 0, 0, 0, Balanced), Ch('K'), Ch('\0')]
         + [EntryTok(510, 510, 0), ItemTok(500, 0, 0, 0), Ch('v'), Ch('\0'), TreeTok(0), NodeTok(Visit(false, false), 0, 0, 0, Balanced)]
         + [NodeTok(Visit(false, false), 0, 0, 0, Balanced), NodeTok(Visit(false, false), 0, 0, 0, Balanced)]
  {
    EntryInFile();
    SoleDump(400, 'K', Entry(Values(500, [MItem(510, 0, "v")]), Leaf), None, WriteEntry);
    hide WriteEntry;
  }

  /** The groups in the file, below the application at 100. */
  lemma GroupsInFile()
    ensures WriteApp(App(100, Some((200, 100, SharedGroups())))) == [
      AppTok(200), GroupsTok(100, 300), TreeTok(300), NodeTok(Visit(true, true), 0, 0, 0, Balanced), Ch('G'), Ch('\0')]
      + WriteGroup(Sole(400, "K", Entry(Values(500, [MItem(510, 0, "v")]), Leaf)))
      + [NodeTok(Visit(false, false), 0, 0, 0, Balanced), NodeTok(Visit(false, false), 0, 0, 0, Balanced)]
  {
    SoleDump(300, 'G', Sole(400, "K", Entry(Values(500, [MItem(510, 0, "v")]), Leaf)), None, WriteGroup);
    hide WriteGroup;
  }

  /** The applications in the file: a node before its left side, that before its right side; the groups with
      their owner only, although "b" comes first. */
  lemma AppsInFile()
    ensures WriteTree(TwoApps(), WriteApp) == [
      TreeTok(60), NodeTok(Visit(true, true), 50, 0, 0, LeftHeavy), Ch('b'), Ch('\0'), AppTok(0),
      NodeTok(Visit(true, true), 0, 0, 60, Balanced), Ch('a'), Ch('\0')]
      + WriteApp(App(100, Some((200, 100, SharedGroups()))))
      + [NodeTok(Visit(false, false), 0, 0, 0, Balanced), NodeTok(Visit(false, false), 0, 0, 0, Balanced),
         NodeTok(Visit(false, false), 0, 0, 0, Balanced)]
  {
    hide SharedGroups;
    FirstInFile();
    hide WriteApp;
    var t := TwoApps();
    SoleDump(50, 'a', App(100, Some((200, 100, SharedGroups()))), Some(60), WriteApp);
    assert Dump(t.right, Some(60), Address, WriteApp) == [EMPTY_NODE];
  }

  lemma FirstInFile()
    ensures DumpNode(TwoApps(), None, Address, WriteApp)
      == [NodeTok(Visit(true, true), 50, 0, 0, LeftHeavy), Ch('b'), Ch('\0'), AppTok(0)]
  {
    hide SharedGroups;
    assert WriteApp(App(110, Some((200, 100, SharedGroups())))) == [AppTok(0)];
    assert WriteStr("b"[1..]) == [Ch('\0')];
    assert WriteStr("b") == [Ch('b'), Ch('\0')];
  }

  /** One association of the type "t/s" in the file. */
  function OneType(): PTree<MimeType> {
    Sole(700, "t", Sole(710, "s", Values(720, [MItem(730, 100, "a")])))
  }

  lemma SubTypeInFile()
    ensures WriteMimeType(Sole(710, "s", Values(720, [MItem(730, 100, "a")]))) == [
      TreeTok(710), NodeTok(Visit(true, true), 0, 0, 0, Balanced), Ch('s'), Ch('\0'),
      ListTok(730, 730), ItemTok(720, 0, 0, 100), Ch('a'), Ch('\0'),
      NodeTok(Visit(false, false), 0, 0, 0, Balanced), NodeTok(Visit(false, false), 0, 0, 0, Balanced)]
  {
    var names := Values(720, [MItem(730, 100, "a")]);
    assert WriteStr("a"[1..]) == [Ch('\0')];
    assert WriteStr("a") == [Ch('a'), Ch('\0')];
    assert WriteValues(names) == [ListTok(730, 730), ItemTok(720, 0, 0, 100), Ch('a'), Ch('\0')];
    SoleDump(710, 's', names, None, WriteSubType);
  }

  lemma TypeInFile()
    ensures WriteTree(OneType(), WriteMimeType) == [
      TreeTok(700), NodeTok(Visit(true, true), 0, 0, 0, Balanced), Ch('t'), Ch('\0')]
      + WriteMimeType(Sole(710, "s", Values(720, [MItem(730, 100, "a")])))
      + [NodeTok(Visit(false, false), 0, 0, 0, Balanced), NodeTok(Visit(false, false), 0, 0, 0, Balanced)]
  {
    hide WriteMimeType;
    SoleDump(700, 't', Sole(710, "s", Values(720, [MItem(730, 100, "a")])), None, WriteMimeType);
  }

  lemma EndsInFile()
    ensures WriteValues(Values(5, [MItem(10, 0, "d"), MItem(20, 0, "e")]))
      == [ListTok(10, 20), ItemTok(5, 20, 0, 0), Ch('d'), Ch('\0'), ItemTok(5, 0, 10, 0), Ch('e'), Ch('\0')]
    ensures var none: PTree<MimeType> := Leaf; WriteTree(none, WriteMimeType) == [TreeTok(0), NodeTok(Visit(false, false), 0, 0, 0, Balanced)]
  {
    TwoValues(5, 10, 'd', 20, 'e');
  }

  /** A whole file: the version, the watched files, the applications, the two association maps. */
  lemma OneFile()
    ensures WriteCache(Index(Values(5, [MItem(10, 0, "d"), MItem(20, 0, "e")]), TwoApps(), OneType(), Leaf))
      == [VersionTok(1)] + [ListTok(10, 20), ItemTok(5, 20, 0, 0), Ch('d'), Ch('\0'), ItemTok(5, 0, 10, 0), Ch('e'), Ch('\0')]
         + WriteTree(TwoApps(), WriteApp) + WriteTree(OneType(), WriteMimeType)
         + [TreeTok(0), NodeTok(Visit(false, false), 0, 0, 0, Balanced)]
  {
    hide WriteValues, WriteTree, TwoApps, OneType, WriteApp, WriteMimeType;
    EndsInFile();
    var apps, types := WriteTree(TwoApps(), WriteApp), WriteTree(OneType(), WriteMimeType);
    var head, end := [ListTok(10, 20), ItemTok(5, 20, 0, 0), Ch('d'), Ch('\0'), ItemTok(5, 0, 10, 0), Ch('e'), Ch('\0')], [TreeTok(0), NodeTok(Visit(false, false), 0, 0, 0, Balanced)];
    assert [VersionTok(1)] + (head + (apps + (types + end))) == [VersionTok(1)] + head + apps + types + end;
  }
}
