/**
 * What the cache keeps, told from the values on the heap: which trees and lists the reloaded index has,
 * and where its associations point.
 */
module CacheKept {
  import opened AvlModel
  import opened CacheTrees
  import opened DesktopCache
  import opened IndexHeap

  /** The same shape, keys and balances, with values that correspond. */
  ghost predicate SameTree<N, V, M, W>(t: Tree<N, V>, u: Tree<M, W>, same: (V, W) -> bool) {
    if t.Leaf? then u.Leaf?
    else
      && u.Node? && u.it.key == t.it.key && u.it.bal == t.it.bal && same(t.it.value, u.it.value)
      && SameTree(t.left, u.left, same) && SameTree(t.right, u.right, same)
  }

  /** A search in either tree finds corresponding values, or nothing in both. */
  lemma {:induction false} SameLookup<N, V, M, W>(t: Tree<N, V>, u: Tree<M, W>, same: (V, W) -> bool, k: string)
    requires SameTree(t, u, same)
    ensures match Lookup(t, k)
      case None => Lookup(u, k).None?
      case Some(it) => Lookup(u, k).Some? && Lookup(u, k).value.key == it.key && same(it.value, Lookup(u, k).value.value)
  {
    if t.Node? {
      SameLookup(t.left, u.left, same, k);
      SameLookup(t.right, u.right, same, k);
    }
  }

  ghost predicate SameList(v: Values, w: Values) {
    && |w.items| == |v.items|
    && forall i :: 0 <= i < |v.items| ==> w.items[i].text == v.items[i].text && w.items[i].extra == v.items[i].extra
  }

  /** The same names in the same order, each pointing at the application of its name, or nowhere if there is none. */
  ghost predicate SameNames(apps: PTree<App>, v: Values, w: Values) {
    && |w.items| == |v.items|
    && forall i :: 0 <= i < |v.items| ==> w.items[i].text == v.items[i].text && w.items[i].extra == match Lookup(apps, v.items[i].text)
         case None => 0
         case Some(it) => it.value.at
  }

  ghost function ListKept(): (Val, Values) -> bool {
    (v: Val, w: Values) => v.ListVal? && SameList(v.list, w)
  }

  ghost function EntryKept(s: Trees): (Val, Entry) -> bool {
    (v: Val, w: Entry) =>
      && v.EntryVal? && v.localized in s.held
      && SameList(v.values, w.values) && SameTree(s.held[v.localized].model, w.localized, ListKept())
  }

  ghost function GroupKept(s: Trees): (Val, Group) -> bool {
    (v: Val, w: Group) => v.GroupVal? && v.entries in s.held && SameTree(s.held[v.entries].model, w, EntryKept(s))
  }

  /** An application comes back with its groups and owns them, unless they were another one's: then it has none. */
  ghost function AppKept(s: Trees): (Val, App) -> bool {
    (v: Val, w: App) =>
      && v.AppVal?
      && if v.groups.Some? && v.groups.value.owner == v.at then
           && v.groups.value.tree in s.held && w.groups.Some? && w.groups.value.1 == w.at
           && SameTree(s.held[v.groups.value.tree].model, w.groups.value.2, GroupKept(s))
         else w.groups.None?
  }

  ghost function NamesKept(apps: PTree<App>): (Val, SubType) -> bool {
    (v: Val, w: SubType) => v.ListVal? && SameNames(apps, v.list, w)
  }

  ghost function TypeKept(s: Trees, apps: PTree<App>): (Val, MimeType) -> bool {
    (v: Val, w: MimeType) => v.TypeVal? && v.subTypes in s.held && SameTree(s.held[v.subTypes].model, w, NamesKept(apps))
  }
}
