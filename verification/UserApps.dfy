/** The applications a user chose: the text that is saved and what loading it gives. */
module UserApps {
  import opened CStrings
  import opened Sequences
  import opened AvlModel
  import opened AvlLinks
  import opened AvlStream
  import opened AvlHeap
  import opened AvlWalk
  import opened CacheLists
  import opened DesktopCache
  import opened IndexHeap
  import opened AppLines
  import opened TextFiles

  // ----- what is saved -----

  datatype SubEntry = SubEntry(subtype: string, names: seq<string>)
  datatype TypeEntry = TypeEntry(type_: string, subs: seq<SubEntry>)

  /** The trees of the three sections, in the order of their walks. */
  datatype Apps = Apps(added: seq<TypeEntry>, defaults: seq<TypeEntry>, removed: seq<TypeEntry>)

  /** One line of a section. */
  datatype Saved = Saved(key: MimeKey, names: seq<string>)

  function SavedSubs(type_: string, subs: seq<SubEntry>): seq<Saved> {
    if subs == [] then []
    else
      var s := subs[|subs| - 1];
      SavedSubs(type_, subs[..|subs| - 1]) + if s.names == [] then [] else [Saved(MimeKey(type_, s.subtype), s.names)]
  }

  /** The lists that are not empty. */
  function SavedTypes(types: seq<TypeEntry>): seq<Saved> {
    if types == [] then []
    else
      var t := types[|types| - 1];
      SavedTypes(types[..|types| - 1]) + SavedSubs(t.type_, t.subs)
  }

  function NamesText(names: seq<string>): string {
    if names == [] then "" else NamesText(names[..|names| - 1]) + names[|names| - 1] + ";"
  }

  function LineText(s: Saved): string {
    s.key.type_ + "/" + s.key.subtype + "=" + NamesText(s.names) + "\n"
  }

  function LinesText(ss: seq<Saved>): seq<string> {
    if ss == [] then [] else LinesText(ss[..|ss| - 1]) + [LineText(ss[|ss| - 1])]
  }

  function HeaderText(name: string): string {
    "[" + name + "]\n"
  }

  function SectionLines(name: string, types: seq<TypeEntry>): seq<string> {
    if types == [] then [] else [HeaderText(name)] + LinesText(SavedTypes(types)) + ["\n"]
  }

  const ADDED := "Added Associations"
  const DEFAULTS := "Default Applications"
  /** The name under which the removed applications are saved; another one is read. */
  const REMOVED := "Removed Applications"

  function FileLines(a: Apps): seq<string> {
    SectionLines(ADDED, a.added) + SectionLines(DEFAULTS, a.defaults) + SectionLines(REMOVED, a.removed)
  }

  lemma AddedText(header: string)
    requires header == "[Added Associations]\n"
    ensures HeaderText(ADDED) == header
  {
  }

  lemma DefaultText(header: string)
    requires header == "[Default Applications]\n"
    ensures HeaderText(DEFAULTS) == header
  {
  }

  lemma RemovedText(header: string)
    requires header == "[Removed Applications]\n"
    ensures HeaderText(REMOVED) == header
  {
  }

  lemma OneLine(k: MimeKey, x: string, y: string)
    ensures NamesText([x, y]) == x + ";" + y + ";"
    ensures LinesText([Saved(k, [x, y])]) == [k.type_ + "/" + k.subtype + "=" + (x + ";" + y + ";") + "\n"]
  {
    assert [x, y][..1] == [x] && [x][..0] == [];
    assert NamesText([x]) == "" + x + ";" == x + ";";
    var ss := [Saved(k, [x, y])];
    assert ss[..0] == [] && LinesText(ss[..0]) == [];
    assert LinesText(ss) == [LineText(ss[0])];
  }

  lemma OneType(k: MimeKey, x: string, y: string)
    ensures SavedTypes([TypeEntry(k.type_, [SubEntry(k.subtype, [x, y]), SubEntry("", [])])]) == [Saved(k, [x, y])]
  {
    var subs := [SubEntry(k.subtype, [x, y]), SubEntry("", [])];
    assert subs[..1] == [subs[0]] && [subs[0]][..0] == [];
    assert SavedSubs(k.type_, [subs[0]]) == [] + [Saved(MimeKey(k.type_, k.subtype), [x, y])];
    assert [TypeEntry(k.type_, subs)][..0] == [];
  }

  /** A file with two added applications of one type and one section of each other kind: a header, the lines and
      an empty line; a list without names and an empty tree are not written. */
  lemma OneFile(k: MimeKey, x: string, y: string, h1: string, h3: string)
    requires h1 == "[Added Associations]\n" && h3 == "[Removed Applications]\n"
    ensures var types := [TypeEntry(k.type_, [SubEntry(k.subtype, [x, y]), SubEntry("", [])])];
      var line := k.type_ + "/" + k.subtype + "=" + (x + ";" + y + ";") + "\n";
      FileLines(Apps(types, [], types)) == [h1, line, "\n", h3, line, "\n"]
  {
    AddedText(h1);
    RemovedText(h3);
    OneType(k, x, y);
    OneLine(k, x, y);
    hide SavedTypes, LinesText, HeaderText;
  }

  // ----- the trees that are saved -----

  /** The kinds of values that are saved: sub-types with their lists, and types. */
  predicate Saves(kind: Kind) {
    kind.SubTypeValue? || kind.MimeTypeValue?
  }

  function Texts(items: seq<MItem>): (r: seq<string>)
    ensures |r| == |items| && forall i :: 0 <= i < |r| ==> r[i] == items[i].text
  {
    seq(|items|, i requires 0 <= i < |items| => items[i].text)
  }

  /** The sub-types of a walk. */
  function SubsOf(calls: seq<Call<Val>>): (r: seq<SubEntry>)
    ensures |r| == |calls|
    ensures forall i :: 0 <= i < |r| ==> r[i] == SubEntry(calls[i].key, if calls[i].value.ListVal? then Texts(calls[i].value.list.items) else [])
  {
    seq(|calls|, i requires 0 <= i < |calls| =>
      SubEntry(calls[i].key, if calls[i].value.ListVal? then Texts(calls[i].value.list.items) else []))
  }

  ghost function SubsIn(s: Trees, v: Val): seq<SubEntry> {
    if v.TypeVal? && v.subTypes in s.held then SubsOf(PostOrder(s.held[v.subTypes].model)) else []
  }

  /** The types of a walk, each with the sub-types of its own walk. */
  ghost function TypesOf(s: Trees, calls: seq<Call<Val>>): (r: seq<TypeEntry>)
    ensures |r| == |calls| && forall i :: 0 <= i < |r| ==> r[i] == TypeEntry(calls[i].key, SubsIn(s, calls[i].value))
  {
    seq(|calls|, i requires 0 <= i < |calls| => TypeEntry(calls[i].key, SubsIn(s, calls[i].value)))
  }

  ghost function TypesIn(s: Trees, tree: AvlTree<Val>): seq<TypeEntry>
    requires tree in s.held
  {
    TypesOf(s, PostOrder(s.held[tree].model))
  }

  datatype UserTrees = UserTrees(added: AvlTree<Val>, defaults: AvlTree<Val>, removed: AvlTree<Val>)

  ghost predicate UserLoaded(s: Trees, u: UserTrees) {
    IsTree(s, u.added, MimeTypeValue) && IsTree(s, u.defaults, MimeTypeValue) && IsTree(s, u.removed, MimeTypeValue)
  }

  /** The trees in the order of their walks. */
  ghost function UserAppsOf(s: Trees, u: UserTrees): Apps
    requires UserLoaded(s, u)
  {
    Apps(TypesIn(s, u.added), TypesIn(s, u.defaults), TypesIn(s, u.removed))
  }

  /** What a walk writes. */
  ghost function LinesOf(s: Trees, kind: Kind, type_: string, calls: seq<Call<Val>>): seq<string> {
    if kind.SubTypeValue? then LinesText(SavedSubs(type_, SubsOf(calls))) else LinesText(SavedTypes(TypesOf(s, calls)))
  }

  ghost function CallText(s: Trees, kind: Kind, type_: string, call: Call<Val>): string {
    if !kind.SubTypeValue? then Joined(LinesText(SavedSubs(call.key, SubsIn(s, call.value))))
    else if !call.value.ListVal? || call.value.list.items == [] then ""
    else LineText(Saved(MimeKey(type_, call.key), Texts(call.value.list.items)))
  }

  // ----- saving -----

  class File {
    var text: string

    constructor ()
      ensures text == ""
    {
      text := "";
    }

    method Write(s: string)
      modifies this`text
      ensures text == old(text) + s
    {
      text := text + s;
    }

    /** `__xdg_user_defined_apps_save`. */
    method SaveSub(type_: string, s: SubEntry)
      modifies this`text
      ensures text == old(text) + if s.names == [] then "" else LineText(Saved(MimeKey(type_, s.subtype), s.names))
    {
      if s.names == [] { return; }
      Write(type_ + "/" + s.subtype + "=");
      ghost var start := text;
      var i := 0;
      assert start + NamesText(s.names[..0]) == start;
      while i < |s.names|
        invariant 0 <= i <= |s.names| && text == start + NamesText(s.names[..i])
      {
        Write(s.names[i] + ";");
        assert s.names[..i + 1][..i] == s.names[..i];
        i := i + 1;
      }
      assert s.names[..i] == s.names;
      Write("\n");
    }

    /** What the walk calls for a node: a line for a sub-type, a walk over its sub-types for a type. */
    method SaveCall(kind: Kind, type_: string, key: string, v: Val, ghost s: Trees)
      requires Ready(s) && OfKind(s, kind, v) && Saves(kind)
      modifies this`text, Below(s, Rank(kind))`visit
      ensures Ready(s) && text == old(text) + CallText(s, kind, type_, Call(key, v))
      decreases Rank(kind), 0
    {
      if kind.SubTypeValue? {
        SaveSub(type_, SubEntry(key, Texts(v.list.items)));
      } else {
        SaveTree(v.subTypes, SubTypeValue, key, s);
      }
    }

    /** The walk stands at `n`; what is called for it walks elsewhere. */
    method SaveHere(tree: AvlTree<Val>, kind: Kind, type_: string, n: AvlNode<Val>, ghost s: Trees,
                    ghost m: HTree<Val>, ghost c: HCtx<Val>, ghost t: HTree<Val>, ghost nodes: set<AvlNode<Val>>)
      requires nodes == Nodes(m) && Ready(s) && IsTree(s, tree, kind) && m == s.held[tree].model && WalkAt(m, c, t, n) && Saves(kind)
      modifies this`text, Below(s, Rank(kind))`visit
      ensures Ready(s) && WalkAt(m, c, t, n) && n.visit == old(n.visit)
      ensures OfKind(s, kind, t.it.value) && text == old(text) + CallText(s, kind, type_, Call(t.it.key, t.it.value))
      decreases Rank(kind), 1, 0
    {
      hide CallText;
      Around(s, tree, kind, m, c, t, n);
      TreeStands(s, tree);
      ValueOfKind(s, kind, m, None, n);
      Here(m, c, t, n);
      SaveCall(kind, type_, n.key, n.value, s);
    }

    /** The walk has called for both sides of `n`: it calls for `n` and goes up, or ends at the root. */
    method SaveAndUp(tree: AvlTree<Val>, kind: Kind, type_: string, n: AvlNode<Val>, ghost s: Trees, ghost m: HTree<Val>,
                     ghost c: HCtx<Val>, ghost t: HTree<Val>, ghost done: seq<Call<Val>>, ghost start: string)
      returns (next: Option<AvlNode<Val>>, ghost c': HCtx<Val>, ghost t': HTree<Val>, ghost more: seq<Call<Val>>)
      requires Ready(s) && IsTree(s, tree, kind) && m == s.held[tree].model && WalkAt(m, c, t, n) && n in Nodes(m) && Saves(kind)
      requires n.visit == Visit(true, true) && text == start + Joined(LinesOf(s, kind, type_, done))
      modifies this`text, Below(s, Rank(kind))`visit
      ensures Ready(s) && text == start + Joined(LinesOf(s, kind, type_, more))
      ensures next.None? ==> more == done + PostRest(c, t, Visit(true, true))
      ensures next.Some? ==>
        && WalkAt(m, c', t', next.value) && t'.Node? && next.value in Nodes(m) && next.value.visit != Visit(false, true)
        && more + PostRest(c', t', next.value.visit) == done + PostRest(c, t, Visit(true, true))
        && StepsLeft(c', t', next.value.visit) < StepsLeft(c, t, Visit(true, true))
      decreases Rank(kind), 1, 1
    {
      hide LinesOf, PostRest, StepsLeft, CallText;
      PostTurnUp(c, t, done);
      SaveHere(tree, kind, type_, n, s, m, c, t, Nodes(m));
      OneCall(s, kind, type_, done, Call(t.it.key, t.it.value), start);
      Here(m, c, t, n);
      next, c', t', more := n.parent, c, t, done + [Call(t.it.key, t.it.value)];
      if next.Some? {
        GoUp(m, c, t, n);
        c', t' := c.up, Fold(c, t);
        Here(m, c', t', next.value);
      }
    }

    /** `depth_first_search` over a tree of types or of sub-types. */
    method SaveTree(tree: AvlTree<Val>, kind: Kind, type_: string, ghost s: Trees)
      requires Ready(s) && IsTree(s, tree, kind) && Saves(kind)
      modifies this`text, Below(s, Rank(kind) + 1)`visit
      ensures Ready(s) && text == old(text) + Joined(LinesOf(s, kind, type_, PostOrder(s.held[tree].model)))
      decreases Rank(kind), 2
    {
      hide LinesOf, PostRest, StepsLeft, WalkAt;
      ghost var m, start, done: seq<Call<Val>> := s.held[tree].model, text, [];
      NoLines(s, kind, type_);
      ApartFromBelow(s, tree);
      assert text == start + "";
      if tree.root.Some? {
        var n := Begin(tree, s);
        ghost var c, t := Top, m;
        CallsBegin(m);
        while true
          invariant Ready(s) && WalkAt(m, c, t, n) && t.Node? && n in Nodes(m) && n.visit != Visit(false, true)
          invariant done + PostRest(c, t, n.visit) == PostOrder(m)
          invariant text == start + Joined(LinesOf(s, kind, type_, done))
          decreases StepsLeft(c, t, n.visit)
        {
          if n.visit.left && n.visit.right {
            var next;
            next, c, t, done := SaveAndUp(tree, kind, type_, n, s, m, c, t, done, start);
            if next.None? {
              break;
            }
            n := next.value;
          } else {
            PostTurnLeft(c, t);
            PostTurnRight(c, t);
            n, c, t := Turn(n, s, m, c, t);
            InTree(m, c, t, n);
          }
        }
      }
    }

    /** One section of `xdg_user_defined_apps_free`; an empty tree writes nothing. */
    method SaveSection(name: string, tree: AvlTree<Val>, ghost s: Trees)
      requires Ready(s) && IsTree(s, tree, MimeTypeValue)
      modifies this`text, Below(s, 2)`visit
      ensures Ready(s) && text == old(text) + Joined(SectionLines(name, TypesIn(s, tree)))
    {
      if tree.root.None? {
        assert text + "" == text;
        return;
      }
      hide Joined, SavedTypes, LinesText;
      ghost var start, lines := text, LinesText(SavedTypes(TypesIn(s, tree)));
      Write(HeaderText(name));
      SaveTree(tree, MimeTypeValue, "", s);
      Write("\n");
      SectionJoined(HeaderText(name), lines);
      Regrouped(start, HeaderText(name), Joined(lines));
      Regrouped(start, HeaderText(name) + Joined(lines), "\n");
    }

    /** The sections of `xdg_user_defined_apps_free`. */
    method Save(u: UserTrees, ghost s: Trees)
      requires Ready(s) && UserLoaded(s, u)
      modifies this`text, Below(s, 2)`visit
      ensures Ready(s) && text == old(text) + Joined(FileLines(UserAppsOf(s, u)))
    {
      ghost var a := UserAppsOf(s, u);
      ghost var x, y, z := SectionLines(ADDED, a.added), SectionLines(DEFAULTS, a.defaults), SectionLines(REMOVED, a.removed);
      Regrouped(text, Joined(x), Joined(y));
      Regrouped(text, Joined(x) + Joined(y), Joined(z));
      JoinedConcat(x, y);
      JoinedConcat(x + y, z);
      SaveSection(ADDED, u.added, s);
      SaveSection(DEFAULTS, u.defaults, s);
      SaveSection(REMOVED, u.removed, s);
    }
  }

  lemma CallsBegin(m: HTree<Val>)
    requires m.Node?
    ensures [] + PostRest(Top, m, Visit(false, false)) == PostOrder(m)
  {
  }

  lemma InTree(m: HTree<Val>, c: HCtx<Val>, t: HTree<Val>, n: AvlNode<Val>)
    requires WalkAt(m, c, t, n)
    ensures t.Node?
  {
  }

  lemma NoLines(s: Trees, kind: Kind, type_: string)
    ensures Joined(LinesOf(s, kind, type_, [])) == ""
  {
  }

  /** One more call of a walk. */
  lemma OneCall(s: Trees, kind: Kind, type_: string, done: seq<Call<Val>>, call: Call<Val>, start: string)
    requires Saves(kind) && OfKind(s, kind, call.value)
    ensures start + Joined(LinesOf(s, kind, type_, done + [call]))
         == (start + Joined(LinesOf(s, kind, type_, done))) + CallText(s, kind, type_, call)
  {
    Regrouped(start, Joined(LinesOf(s, kind, type_, done)), CallText(s, kind, type_, call));
    if kind.SubTypeValue? {
      OneSubCall(type_, done, call);
    } else {
      OneTypeCall(s, done, call);
    }
  }

  lemma OneSubCall(type_: string, done: seq<Call<Val>>, call: Call<Val>)
    requires call.value.ListVal?
    ensures Joined(LinesText(SavedSubs(type_, SubsOf(done + [call]))))
         == Joined(LinesText(SavedSubs(type_, SubsOf(done))))
            + if call.value.list.items == [] then "" else LineText(Saved(MimeKey(type_, call.key), Texts(call.value.list.items)))
  {
    hide SavedSubs, LinesText, Joined;
    var more, n := SubsOf(done + [call]), |done|;
    assert more[..n + 1] == more && more[..n] == SubsOf(done);
    assert more[n] == SubEntry(call.key, Texts(call.value.list.items));
    SubSaved(type_, more, n, n + 1);
  }

  lemma OneTypeCall(s: Trees, done: seq<Call<Val>>, call: Call<Val>)
    ensures Joined(LinesText(SavedTypes(TypesOf(s, done + [call]))))
         == Joined(LinesText(SavedTypes(TypesOf(s, done)))) + Joined(LinesText(SavedSubs(call.key, SubsIn(s, call.value))))
  {
    hide SavedTypes, SavedSubs, LinesText, Joined;
    var more, n := TypesOf(s, done + [call]), |done|;
    assert more[..n + 1] == more && more[..n] == TypesOf(s, done);
    TypeSaved(more, n, n + 1);
  }

  lemma {:induction false} LinesConcat(a: seq<Saved>, b: seq<Saved>)
    ensures LinesText(a + b) == LinesText(a) + LinesText(b)
  {
    if b == [] {
      assert a + b == a;
    } else {
      var n := |b| - 1;
      assert (a + b)[..|a| + n] == a + b[..n];
      LinesConcat(a, b[..n]);
    }
  }

  lemma SubSaved(type_: string, subs: seq<SubEntry>, i: nat, i1: nat)
    requires i < |subs| && i1 == i + 1
    ensures
      var line := if subs[i].names == [] then "" else LineText(Saved(MimeKey(type_, subs[i].subtype), subs[i].names));
      Joined(LinesText(SavedSubs(type_, subs[..i1]))) == Joined(LinesText(SavedSubs(type_, subs[..i]))) + line
  {
    assert subs[..i1][..i] == subs[..i];
    var was := SavedSubs(type_, subs[..i]);
    if subs[i].names == [] {
      assert was + [] == was;
    } else {
      var s := Saved(MimeKey(type_, subs[i].subtype), subs[i].names);
      assert (was + [s])[..|was|] == was;
      assert (LinesText(was) + [LineText(s)])[..|LinesText(was)|] == LinesText(was);
    }
  }

  lemma TypeSaved(types: seq<TypeEntry>, i: nat, i1: nat)
    requires i < |types| && i1 == i + 1
    ensures Joined(LinesText(SavedTypes(types[..i1])))
         == Joined(LinesText(SavedTypes(types[..i]))) + Joined(LinesText(SavedSubs(types[i].type_, types[i].subs)))
  {
    assert types[..i1][..i] == types[..i];
    var a, b := SavedTypes(types[..i]), SavedSubs(types[i].type_, types[i].subs);
    LinesConcat(a, b);
    JoinedConcat(LinesText(a), LinesText(b));
  }

  lemma SectionJoined(header: string, lines: seq<string>)
    ensures Joined([header] + lines + ["\n"]) == header + Joined(lines) + "\n"
  {
    JoinedConcat([header], lines);
    assert [header][..0] == [] && Joined([header]) == header;
    assert ([header] + lines + ["\n"])[..1 + |lines|] == [header] + lines;
  }
}
