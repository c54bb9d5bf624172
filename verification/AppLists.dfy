/** The lists of applications of one MIME type, and the handlers of list-file sections. */
module AppLists {
  import opened XdgLists

  /** One association: the id of a desktop file and the application found for it. */
  datatype Assoc<A> = Assoc(name: string, app: A)

  function Data<T>(s: seq<ListItem<T>>): (r: seq<T>)
    ensures |r| == |s| && forall i :: 0 <= i < |s| ==> r[i] == s[i].data
  {
    seq(|s|, i requires 0 <= i < |s| => s[i].data)
  }

  // ----- the handlers on sequences -----

  predicate HasName<A>(s: seq<Assoc<A>>, name: string) {
    exists i :: 0 <= i < |s| && s[i].name == name
  }

  ghost predicate DistinctNames<A>(s: seq<Assoc<A>>) {
    forall i, j :: 0 <= i < j < |s| ==> s[i].name != s[j].name
  }

  /** The associations with other names, in order. */
  function Without<A>(s: seq<Assoc<A>>, name: string): seq<Assoc<A>> {
    if s == [] then []
    else Without(s[..|s| - 1], name) + if s[|s| - 1].name == name then [] else [s[|s| - 1]]
  }

  datatype Handler = Default | Added | Removed

  /** What each section does with one name. */
  function Handle<A>(h: Handler, s: seq<Assoc<A>>, name: string, app: A): seq<Assoc<A>> {
    match h
    case Default => if HasName(s, name) then s else s + [Assoc(name, app)]
    case Added => [Assoc(name, app)] + Without(s, name)
    case Removed => Without(s, name)
  }

  lemma {:induction false} WithoutMembers<A>(s: seq<Assoc<A>>, name: string, x: Assoc<A>)
    ensures x in Without(s, name) <==> x in s && x.name != name
  {
    if s != [] {
      var n := |s| - 1;
      WithoutMembers(s[..n], name, x);
      assert s == s[..n] + [s[n]];
    }
  }

  lemma {:induction false} WithoutMeaning<A>(s: seq<Assoc<A>>, name: string)
    requires DistinctNames(s)
    ensures DistinctNames(Without(s, name)) && !HasName(Without(s, name), name)
    ensures forall x :: x in Without(s, name) <==> x in s && x.name != name
  {
    if s != [] {
      var n := |s| - 1;
      WithoutMeaning(s[..n], name);
      var r := Without(s[..n], name);
      forall i | 0 <= i < |r| ensures r[i].name != s[n].name {
        WithoutMembers(s[..n], name, r[i]);
      }
    }
    forall x ensures x in Without(s, name) <==> x in s && x.name != name {
      WithoutMembers(s, name, x);
    }
  }

  lemma {:induction false} WithoutNone<A>(s: seq<Assoc<A>>, name: string)
    requires !HasName(s, name)
    ensures Without(s, name) == s
  {
    if s != [] {
      assert !HasName(s[..|s| - 1], name) && s[|s| - 1].name != name;
      WithoutNone(s[..|s| - 1], name);
    }
  }

  /** The name's association goes, those on both sides of it stay. */
  lemma {:induction false} WithoutOne<A>(a: seq<Assoc<A>>, x: Assoc<A>, b: seq<Assoc<A>>)
    requires !HasName(a, x.name) && !HasName(b, x.name)
    ensures Without(a + [x] + b, x.name) == a + b
    decreases |b|
  {
    var all := a + [x] + b;
    if b != [] {
      var n := |b| - 1;
      assert all[..|a| + 1 + n] == a + [x] + b[..n];
      assert !HasName(b[..n], x.name) && b[n].name != x.name;
      WithoutOne(a, x, b[..n]);
    } else {
      assert all[..|a|] == a;
      WithoutNone(a, x.name);
    }
  }

  /** Every section keeps names distinct and touches only its own name. */
  lemma HandleMeaning<A>(h: Handler, s: seq<Assoc<A>>, name: string, app: A)
    requires DistinctNames(s)
    ensures var r := Handle(h, s, name, app);
      && DistinctNames(r)
      && (h.Removed? <==> !HasName(r, name))
      && forall x: Assoc<A> :: x.name != name ==> (x in r <==> x in s)
    ensures h.Added? ==> Handle(h, s, name, app)[0] == Assoc(name, app)
    ensures h.Default? && HasName(s, name) ==> Handle(h, s, name, app) == s
    ensures h.Default? && !HasName(s, name) ==> Handle(h, s, name, app)[..|s|] == s && Handle(h, s, name, app)[|s|..] == [Assoc(name, app)]
  {
    WithoutMeaning(s, name);
    var r := Handle(h, s, name, app);
    match h
    case Default =>
      if !HasName(s, name) { assert r[|s|].name == name; }
    case Added =>
      var w := Without(s, name);
      forall i | 0 <= i < |w| ensures w[i].name != name { assert w[i] in w; }
      assert r[0].name == name;
    case Removed =>
  }

  datatype Op<A> = Op(h: Handler, name: string, app: A)

  function HandleAll<A>(s: seq<Assoc<A>>, ops: seq<Op<A>>): seq<Assoc<A>> {
    if ops == [] then s
    else
      var o := ops[|ops| - 1];
      Handle(o.h, HandleAll(s, ops[..|ops| - 1]), o.name, o.app)
  }

  /** In every run of the handlers, names stay distinct. */
  lemma {:induction false} RunsKeepNamesDistinct<A>(s: seq<Assoc<A>>, ops: seq<Op<A>>)
    requires DistinctNames(s)
    ensures DistinctNames(HandleAll(s, ops))
  {
    if ops != [] {
      var n := |ops| - 1;
      RunsKeepNamesDistinct(s, ops[..n]);
      HandleMeaning(ops[n].h, HandleAll(s, ops[..n]), ops[n].name, ops[n].app);
    }
  }

  // ----- the handlers on linked lists -----

  /** `_xdg_list_app_item_append`. */
  method AppendApp<A>(list: List<Assoc<A>>, name: string, app: A)
    requires list.Valid()
    modifies list, list.items
    ensures list.Valid() && Data(list.items) == Data(old(list.items)) + [Assoc(name, app)]
    ensures fresh(list.items[|list.items| - 1]) && list.items[..|list.items| - 1] == old(list.items)
  {
    var value := new ListItem(Assoc(name, app));
    list.Append(value);
  }

  /** `_xdg_list_app_item_prepend`. */
  method PrependApp<A>(list: List<Assoc<A>>, name: string, app: A)
    requires list.Valid()
    modifies list, list.items
    ensures list.Valid() && Data(list.items) == [Assoc(name, app)] + Data(old(list.items))
  {
    var value := new ListItem(Assoc(name, app));
    list.Prepend(value);
  }

  /** `_xdg_lst_group_handle_default`: appends the name unless the list has it. */
  method HandleDefault<A>(list: List<Assoc<A>>, name: string, app: A)
    requires list.Valid()
    modifies list, list.items
    ensures list.Valid() && Data(list.items) == Handle(Default, Data(old(list.items)), name, app)
  {
    var item := list.head;
    ghost var j := 0;
    while item.Some?
      invariant 0 <= j <= |list.items| && item == NextOf(list.items, j - 1) && list.Valid()
      invariant forall k :: 0 <= k < j ==> list.items[k].data.name != name
      decreases |list.items| - j
    {
      assert list.Placed(list.items, j);
      if item.value.data.name == name {
        assert Data(list.items)[j].name == name;
        return;
      }
      item := item.value.next;
      j := j + 1;
    }
    AppendApp(list, name, app);
  }

  /** `_xdg_lst_remove_sub_type_value`. */
  function NameIs<A>(name: string): Assoc<A> -> bool {
    (x: Assoc<A>) => x.name == name
  }

  lemma {:induction false} SelectIsWithout<A>(s: seq<ListItem<Assoc<A>>>, name: string)
    ensures Data(Select(s, NameIs(name), false)) == Without(Data(s), name)
  {
    if s != [] {
      SelectIsWithout(s[..|s| - 1], name);
      assert Data(s)[..|s| - 1] == Data(s[..|s| - 1]);
    }
  }

  /** `_xdg_lst_group_handle_removed`. */
  method HandleRemoved<A>(list: List<Assoc<A>>, name: string, app: A)
    requires list.Valid()
    modifies list, list.items
    ensures list.Valid() && Data(list.items) == Handle(Removed, Data(old(list.items)), name, app)
    ensures forall x :: x in list.items ==> x in old(list.items)
  {
    SelectIsWithout(list.items, name);
    SelectIn(list.items, NameIs(name), false);
    var freed := list.RemoveIf(NameIs(name));
  }

  /** `_xdg_lst_group_handle_added`: the name moves to, or enters at, the front. */
  method HandleAdded<A>(list: List<Assoc<A>>, name: string, app: A, ghost all: set<ListItem<Assoc<A>>>)
    requires list.Valid() && forall x :: x in list.items ==> x in all
    modifies list, all
    ensures list.Valid() && Data(list.items) == Handle(Added, Data(old(list.items)), name, app)
  {
    HandleRemoved(list, name, app);
    PrependApp(list, name, app);
  }
}
