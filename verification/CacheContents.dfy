/** What a reloaded cache contains: the same index, with association items pointed at reloaded applications. */
module CacheContents {
  import opened CStrings
  import opened AvlModel
  import opened AvlStream
  import opened CacheTrees
  import opened CacheLists
  import opened DesktopCache
  import CacheKept

  /** A tree without addresses, its values seen through `f`. */
  function View<N, V, X>(t: Tree<N, V>, f: V -> X): Tree<(), X> {
    if t.Leaf? then Leaf
    else Node(View(t.left, f), Item((), t.it.key, t.it.bal, f(t.it.value)), View(t.right, f))
  }

  /** Equal views are trees of the same shape, keys and balances, with values of equal views. */
  lemma {:induction false} ViewMeaning<N, V, M, W, X>(t: Tree<N, V>, u: Tree<M, W>, f: V -> X, g: W -> X)
    ensures View(t, f) == View(u, g) <==> CacheKept.SameTree(t, u, (v: V, w: W) => f(v) == g(w))
  {
    if t.Node? && u.Node? {
      ViewMeaning(t.left, u.left, f, g);
      ViewMeaning(t.right, u.right, f, g);
    }
  }

  /** If reading back does not change the view of a value, it does not change the view of a tree. */
  lemma {:induction false} ImageView<N, V, W, X>(t: Tree<N, V>, pos: nat, p: Option<N>, addr: N -> nat, enc: Writer<V>,
                                                image: ValueImage<V, W>, f: V -> X, g: W -> X)
    requires forall v, q: nat :: g(image(v, q)) == f(v)
    ensures View(TreeImage(t, pos, p, addr, enc, image), g) == View(t, f)
    decreases t
  {
    if t.Node? {
      var pos1 := pos + |DumpNode(t, p, addr, enc)|;
      var pos2 := pos1 + |Dump(t.left, Some(t.it.id), addr, enc)|;
      ImageParts(t, pos, p, addr, enc, image, pos1, pos2);
      ImageView(t.left, pos1, Some(t.it.id), addr, enc, image, f, g);
      ImageView(t.right, pos2, Some(t.it.id), addr, enc, image, f, g);
    }
  }

  // ----- the content of each level -----

  datatype Text = Text(extra: int, text: string)

  function Texts(v: Values): seq<Text> {
    seq(|v.items|, i requires 0 <= i < |v.items| => Text(v.items[i].extra, v.items[i].text))
  }

  function Names(v: SubType): seq<string> {
    seq(|v.items|, i requires 0 <= i < |v.items| => v.items[i].text)
  }

  datatype EntryContent = EntryContent(values: seq<Text>, localized: Tree<(), seq<Text>>)

  function OfEntry(v: Entry): EntryContent {
    EntryContent(Texts(v.values), View(v.localized, Texts))
  }

  function OfGroup(v: Group): Tree<(), EntryContent> {
    View(v, OfEntry)
  }

  /** Groups that an application shares with another one are not part of its own content. */
  function OfApp(v: App): Option<Tree<(), Tree<(), EntryContent>>> {
    if v.groups.Some? && v.groups.value.1 == v.at then Some(View(v.groups.value.2, OfGroup)) else None
  }

  function OfMimeType(v: MimeType): Tree<(), seq<string>> {
    View(v, Names)
  }

  datatype IndexContent = IndexContent(files: seq<Text>, apps: Tree<(), Option<Tree<(), Tree<(), EntryContent>>>>,
                                       assoc: Tree<(), Tree<(), seq<string>>>, lists: Tree<(), Tree<(), seq<string>>>)

  function OfIndex(d: Index): IndexContent {
    IndexContent(Texts(d.files), View(d.apps, OfApp), View(d.assoc, OfMimeType), View(d.lists, OfMimeType))
  }

  lemma ValuesKeep(v: Values, pos: nat)
    ensures Texts(ValuesAt(v, pos)) == Texts(v)
  {
    ImageItems(v.items, 0, pos + 1, KeepExtra);
    var r := ValuesAt(v, pos);
    forall k | 0 <= k < |v.items| ensures Texts(r)[k] == Texts(v)[k] { assert r.items[k] == ItemsImage(v.items, 0, pos + 1, KeepExtra)[k]; }
  }

  lemma EntryKeeps(v: Entry, pos: nat)
    ensures OfEntry(EntryAt(v, pos)) == OfEntry(v)
  {
    ValuesKeep(v.values, pos);
    forall x: Values, q: nat ensures Texts(ValuesAt(x, q)) == Texts(x) { ValuesKeep(x, q); }
    ImageView(v.localized, pos + 1 + |EntryItems(v)| + 1, None, Address, WriteValues, ValuesAt, Texts, Texts);
  }

  lemma GroupKeeps(v: Group, pos: nat)
    ensures OfGroup(GroupAt(v, pos)) == OfGroup(v)
  {
    forall x: Entry, q: nat ensures OfEntry(EntryAt(x, q)) == OfEntry(x) { EntryKeeps(x, q); }
    ImageView(v, pos + 1, None, Address, WriteEntry, EntryAt, OfEntry, OfEntry);
  }

  lemma AppKeeps(v: App, pos: nat)
    ensures OfApp(AppAt(v, pos)) == OfApp(v)
  {
    forall x: Group, q: nat ensures OfGroup(GroupAt(x, q)) == OfGroup(x) { GroupKeeps(x, q); }
    if v.groups.Some? && v.groups.value.1 == v.at {
      ImageView(v.groups.value.2, pos + 3, None, Address, WriteGroup, GroupAt, OfGroup, OfGroup);
    }
  }

  /** Groups whose owner is the application itself come back as its own; groups of another owner do not come back. */
  lemma OwnGroupsComeBack(at: nat, groups: nat, owner: nat, tree: PTree<Group>, pos: nat)
    ensures var r := AppAt(App(at, Some((groups, owner, tree))), pos);
      && r.at == pos && (r.groups.Some? <==> owner == at)
      && (owner == at ==> r.groups.value.1 == pos && View(r.groups.value.2, OfGroup) == View(tree, OfGroup))
    ensures AppAt(App(at, None), pos) == App(pos, None)
  {
    AppKeeps(App(at, Some((groups, owner, tree))), pos);
  }

  lemma SubTypeKeeps(apps: PTree<App>, v: SubType, pos: nat)
    ensures Names(SubTypeAt(apps)(v, pos)) == Names(v)
  {
    ImageItems(v.items, 0, pos + 1, Resolve(apps));
    var r := SubTypeAt(apps)(v, pos);
    forall k | 0 <= k < |v.items| ensures Names(r)[k] == Names(v)[k] { assert r.items[k].text == v.items[0 + k].text; }
  }

  lemma MimeTypeKeeps(apps: PTree<App>, v: MimeType, pos: nat)
    ensures OfMimeType(MimeTypeAt(apps)(v, pos)) == OfMimeType(v)
  {
    forall x: SubType, q: nat ensures Names(SubTypeAt(apps)(x, q)) == Names(x) { SubTypeKeeps(apps, x, q); }
    ImageView(v, pos + 1, None, Address, WriteSubType, SubTypeAt(apps), Names, Names);
  }

  lemma MapsKeep(apps: PTree<App>, t: PTree<MimeType>, pos: nat)
    ensures View(TreeAt(t, pos, WriteMimeType, MimeTypeAt(apps)), OfMimeType) == View(t, OfMimeType)
  {
    forall x: MimeType, q: nat ensures OfMimeType(MimeTypeAt(apps)(x, q)) == OfMimeType(x) { MimeTypeKeeps(apps, x, q); }
    ImageView(t, pos + 1, None, Address, WriteMimeType, MimeTypeAt(apps), OfMimeType, OfMimeType);
  }

  lemma AppsKeep(d: Index)
    ensures View(ReloadedApps(d), OfApp) == View(d.apps, OfApp)
  {
    forall x: App, q: nat ensures OfApp(AppAt(x, q)) == OfApp(x) { AppKeeps(x, q); }
    ImageView(d.apps, AppsPos(d) + 1, None, Address, WriteApp, AppAt, OfApp, OfApp);
  }

  lemma ReloadedKeeps(d: Index)
    ensures OfIndex(Reloaded(d)) == OfIndex(d)
  {
    ValuesKeep(d.files, 1);
    AppsKeep(d);
    MapsKeep(ReloadedApps(d), d.assoc, AssocPos(d));
    MapsKeep(ReloadedApps(d), d.lists, ListsPos(d));
  }

  /** The cache keeps the whole index at every level: shapes, keys, balances, lists in order. */
  lemma CacheKeepsContent(d: Index)
    requires GoodIndex(d)
    ensures ReadCache(WriteCache(d)).Got? && ReadCache(WriteCache(d)).next == |WriteCache(d)|
    ensures OfIndex(ReadCache(WriteCache(d)).value) == OfIndex(d)
  {
    CacheRoundTrip(d);
    ReloadedKeeps(d);
  }

  // ----- the pointers of the associations -----

  ghost predicate Everywhere<N, V>(t: Tree<N, V>, p: V -> bool) {
    t.Node? ==> p(t.it.value) && Everywhere(t.left, p) && Everywhere(t.right, p)
  }

  lemma {:induction false} ImageEverywhere<N, V, W>(t: Tree<N, V>, pos: nat, p: Option<N>, addr: N -> nat, enc: Writer<V>,
                                                   image: ValueImage<V, W>, q: W -> bool)
    requires forall v, i: nat :: q(image(v, i))
    ensures Everywhere(TreeImage(t, pos, p, addr, enc, image), q)
    decreases t
  {
    if t.Node? {
      var pos1 := pos + |DumpNode(t, p, addr, enc)|;
      var pos2 := pos1 + |Dump(t.left, Some(t.it.id), addr, enc)|;
      ImageParts(t, pos, p, addr, enc, image, pos1, pos2);
      ImageEverywhere(t.left, pos1, Some(t.it.id), addr, enc, image, q);
      ImageEverywhere(t.right, pos2, Some(t.it.id), addr, enc, image, q);
    }
  }

  /** Every item of the list points at the application of its name, or nowhere if there is none. */
  ghost predicate Pointed(apps: PTree<App>, v: SubType) {
    forall i :: 0 <= i < |v.items| ==> v.items[i].extra == match Lookup(apps, v.items[i].text)
      case None => 0
      case Some(it) => it.value.at
  }

  ghost function PointedIn(apps: PTree<App>): SubType -> bool { v => Pointed(apps, v) }

  ghost function AllPointedIn(apps: PTree<App>): MimeType -> bool { v => Everywhere(v, PointedIn(apps)) }

  lemma MapPointed(apps: PTree<App>, t: PTree<MimeType>, pos: nat)
    ensures Everywhere(TreeAt(t, pos, WriteMimeType, MimeTypeAt(apps)), AllPointedIn(apps))
  {
    forall v: MimeType, i: nat ensures AllPointedIn(apps)(MimeTypeAt(apps)(v, i)) {
      forall x: SubType, j: nat ensures PointedIn(apps)(SubTypeAt(apps)(x, j)) {
        ImageItems(x.items, 0, j + 1, Resolve(apps));
      }
      ImageEverywhere(v, i + 1, None, Address, WriteSubType, SubTypeAt(apps), PointedIn(apps));
    }
    ImageEverywhere(t, pos + 1, None, Address, WriteMimeType, MimeTypeAt(apps), AllPointedIn(apps));
  }

  /** Searching the reloaded tree finds the reloaded value, at the place where it lies. */
  lemma {:induction false} ImageLookup<N, V, W>(t: Tree<N, V>, pos: nat, p: Option<N>, addr: N -> nat, enc: Writer<V>,
                                               image: ValueImage<V, W>, k: string) returns (at: nat)
    ensures at >= pos
    ensures match Lookup(t, k)
      case None => Lookup(TreeImage(t, pos, p, addr, enc, image), k) == None
      case Some(it) => var r := Lookup(TreeImage(t, pos, p, addr, enc, image), k);
        r.Some? && r.value.key == it.key && r.value.value == image(it.value, at)
    decreases t
  {
    at := pos;
    if t.Node? {
      var pos1 := pos + |DumpNode(t, p, addr, enc)|;
      var pos2 := pos1 + |Dump(t.left, Some(t.it.id), addr, enc)|;
      ImageParts(t, pos, p, addr, enc, image, pos1, pos2);
      var c := StrCmp(t.it.key, k);
      if c == 0 {
        at := pos + 1 + |WriteStr(t.it.key)|;
      } else if c < 0 {
        at := ImageLookup(t.right, pos2, Some(t.it.id), addr, enc, image, k);
      } else {
        at := ImageLookup(t.left, pos1, Some(t.it.id), addr, enc, image, k);
      }
    }
  }

  /** An association of the reloaded cache points at the reloaded application with the same id,
      which has the content it had, and is null exactly if the index has no such application. */
  lemma AssociationsResolve(d: Index, name: string)
    requires GoodIndex(d)
    ensures ReadCache(WriteCache(d)).Got?
    ensures var r := ReadCache(WriteCache(d)).value;
      && Everywhere(r.assoc, AllPointedIn(r.apps)) && Everywhere(r.lists, AllPointedIn(r.apps))
      && (Lookup(r.apps, name).Some? <==> Lookup(d.apps, name).Some?)
      && (Lookup(d.apps, name).Some? ==>
            && Lookup(r.apps, name).value.value.at > 0
            && OfApp(Lookup(r.apps, name).value.value) == OfApp(Lookup(d.apps, name).value.value))
  {
    CacheRoundTrip(d);
    MapPointed(ReloadedApps(d), d.assoc, AssocPos(d));
    MapPointed(ReloadedApps(d), d.lists, ListsPos(d));
    var at := ImageLookup(d.apps, AppsPos(d) + 1, None, Address, WriteApp, AppAt, name);
    if Lookup(d.apps, name).Some? {
      AppKeeps(Lookup(d.apps, name).value.value, at);
    }
  }
}
