/** Loading the applications a user chose, and that saving comes first. */
module UserLoad {
  import opened CStrings
  import opened Sequences
  import opened TextFiles
  import opened MimeTypes
  import opened AppLines
  import opened AppLists
  import opened IndexHeap
  import opened MimeIndex
  import opened UserApps
  import AvlHeap
  import AvlModel
  import AvlWalk

  const BUFFER := 1024

  type Lists<A> = map<MimeKey, seq<Assoc<A>>>

  datatype Loaded<A> = Loaded(added: Lists<A>, defaults: Lists<A>, removed: Lists<A>)

  datatype Section = AddedSection | DefaultSection | RemovedSection

  function Tree<A>(st: Loaded<A>, s: Section): Lists<A> {
    match s
    case AddedSection => st.added
    case DefaultSection => st.defaults
    case RemovedSection => st.removed
  }

  function WithTree<A>(st: Loaded<A>, s: Section, m: Lists<A>): Loaded<A> {
    match s
    case AddedSection => st.(added := m)
    case DefaultSection => st.(defaults := m)
    case RemovedSection => st.(removed := m)
  }

  /** One name: kept when some folder has the application and the list does not have the name. */
  function AddName<A>(m: Lists<A>, k: MimeKey, name: string, find: string -> Option<A>): Lists<A> {
    match find(name)
    case None => m
    case Some(app) => m[k := Handle(Default, Get(m, k), name, app)]
  }

  function AddNames<A>(m: Lists<A>, k: MimeKey, names: seq<string>, find: string -> Option<A>): Lists<A> {
    if names == [] then m
    else AddName(AddNames(m, k, names[..|names| - 1], find), k, names[|names| - 1], find)
  }

  lemma AddNamesSnoc<A>(m: Lists<A>, k: MimeKey, names: seq<string>, name: string, find: string -> Option<A>)
    ensures AddNames(m, k, names + [name], find) == AddName(AddNames(m, k, names, find), k, name, find)
  {
    assert (names + [name])[..|names|] == names;
  }

  /** `_xdg_lst_group_read_entry_const`. */
  function LoadEntry<A>(m: Lists<A>, line: string, find: string -> Option<A>): Lists<A> {
    match KeyLineOf(line)
    case None => m
    case Some(kl) =>
      match MimeKeyOf(kl.key)
      case None => m
      case Some(k) => AddNames(m[k := Get(m, k)], k, Pieces(kl.text), find)
  }

  /** The name under which removed applications are read. */
  const READ_REMOVED := "Removed Associations"

  /** The section a header names. */
  function SectionOf(line: string): Option<Section>
    requires Opens(line)
  {
    match GroupOf(line)
    case None => None
    case Some(g) =>
      if g == DEFAULTS then Some(DefaultSection)
      else if g == ADDED then Some(AddedSection)
      else if g == READ_REMOVED then Some(RemovedSection)
      else None
  }

  /** `_xdg_app_read_list_file`: an entry outside a known section ends the reading. */
  function LoadLines<A>(lines: seq<string>, section: Option<Section>, st: Loaded<A>, find: string -> Option<A>): Loaded<A>
    decreases |lines|
  {
    if lines == [] then st
    else if Skipped(lines[0]) then LoadLines(lines[1..], section, st, find)
    else if Opens(lines[0]) then LoadLines(lines[1..], SectionOf(lines[0]), st, find)
    else match section
      case None => st
      case Some(s) => LoadLines(lines[1..], section, WithTree(st, s, LoadEntry(Tree(st, s), lines[0], find)), find)
  }

  function LoadText<A>(text: string, find: string -> Option<A>): Loaded<A> {
    LoadLines(Fgets(text, BUFFER), None, Loaded(map[], map[], map[]), find)
  }

  // ----- the loops -----

  method NextName<A>(ghost m0: Lists<A>, m: Lists<A>, k: MimeKey, ghost done: seq<string>, name: string, find: string -> Option<A>)
    returns (r: Lists<A>, ghost more: seq<string>)
    requires m == AddNames(m0, k, done, find)
    ensures more == done + [name] && r == AddNames(m0, k, more, find)
  {
    AddNamesSnoc(m0, k, done, name, find);
    r, more := AddName(m, k, name, find), done + [name];
  }

  /** The names of a line, one after the other. */
  method ReadNames<A>(m0: Lists<A>, k: MimeKey, text: string, find: string -> Option<A>) returns (m: Lists<A>)
    ensures m == AddNames(m0, k, Pieces(text), find)
  {
    m := m0;
    ghost var done := [];
    var start, sep := 0, 0;
    CutStart(text);
    RunIsPieces(text, 0, 0, []);
    while sep < |text| && text[sep] != '\n'
      invariant start <= sep <= |text| && Run(text, start, sep, done) == Pieces(text)
      invariant m == AddNames(m0, k, done, find)
      decreases |text| - sep
    {
      if text[sep] == ';' {
        m, done := NextName(m0, m, k, done, text[start..sep], find);
        start := sep + 1;
      }
      sep := sep + 1;
    }
    if start < |text| && text[start] != '\n' {
      m, done := NextName(m0, m, k, done, text[start..sep], find);
    }
  }

  method ReadEntry<A>(m0: Lists<A>, line: string, find: string -> Option<A>) returns (m: Lists<A>)
    ensures m == LoadEntry(m0, line, find)
  {
    m := m0;
    var kl := KeyLineOf(line);
    if kl.None? { return; }
    var k := MimeKeyOf(kl.value.key);
    if k.None? { return; }
    m := ReadNames(m[k.value := Get(m, k.value)], k.value, kl.value.text, find);
  }

  method ReadListFile<A>(text: string, find: string -> Option<A>) returns (st: Loaded<A>)
    ensures st == LoadText(text, find)
  {
    st := Loaded(map[], map[], map[]);
    var lines, section, i := Fgets(text, BUFFER), None, 0;
    assert lines[0..] == lines;
    while i < |lines|
      invariant 0 <= i <= |lines| && LoadText(text, find) == LoadLines(lines[i..], section, st, find)
    {
      LineStep(lines, i, section, st, find);
      if !Skipped(lines[i]) {
        if Opens(lines[i]) {
          section := SectionOf(lines[i]);
        } else if section.Some? {
          var m := ReadEntry(Tree(st, section.value), lines[i], find);
          st := WithTree(st, section.value, m);
        } else {
          return;
        }
      }
      i := i + 1;
    }
  }

  lemma LineStep<A>(lines: seq<string>, i: nat, section: Option<Section>, st: Loaded<A>, find: string -> Option<A>)
    requires i < |lines|
    ensures LoadLines(lines[i..], section, st, find)
         == if Skipped(lines[i]) then LoadLines(lines[i + 1..], section, st, find)
            else if Opens(lines[i]) then LoadLines(lines[i + 1..], SectionOf(lines[i]), st, find)
            else if section.None? then st
            else LoadLines(lines[i + 1..], section,
                           WithTree(st, section.value, LoadEntry(Tree(st, section.value), lines[i], find)), find)
  {
    var tail := lines[i..];
    assert tail[0] == lines[i] && tail[1..] == lines[i + 1..];
  }

  // ----- what can be read back -----

  predicate PlainName(name: string) {
    name != "" && forall i :: 0 <= i < |name| ==> name[i] != ';' && name[i] != '\n'
  }

  /** A type and a sub-type without delimiters, and names without them. */
  predicate Plain(s: Saved) {
    && (forall i :: 0 <= i < |s.key.type_| ==> s.key.type_[i] != '/' && s.key.type_[i] != '=' && s.key.type_[i] != '\n')
    && (forall i :: 0 <= i < |s.key.subtype| ==> s.key.subtype[i] != '=' && s.key.subtype[i] != '\n')
    && s.key.subtype != "" && s.key.subtype[|s.key.subtype| - 1] != ' '
    && !Skipped(s.key.type_ + "/") && !Opens(s.key.type_ + "/")
    && s.names != [] && (forall i :: 0 <= i < |s.names| ==> PlainName(s.names[i])) && s.names[0] != "" && s.names[0][0] != ' '
  }

  lemma SplitPiece(piece: string, rest: string)
    requires forall k :: 0 <= k < |piece| ==> piece[k] != ';'
    ensures Split(piece + ";" + rest) == [piece] + Split(rest)
  {
    var s := piece + ";" + rest;
    IndexIs(s, ';', |piece|);
    assert s[..|piece|] == piece && s[|piece| + 1..] == rest;
  }

  lemma {:induction false} SplitNames(names: seq<string>, tail: string)
    requires forall i :: 0 <= i < |names| ==> PlainName(names[i])
    ensures Split(NamesText(names) + tail) == names + Split(tail)
    decreases |names|
  {
    if names == [] {
      assert NamesText(names) + tail == tail;
    } else {
      var n := |names| - 1;
      Regrouped(NamesText(names[..n]) + names[n], ";", tail);
      Regrouped(NamesText(names[..n]), names[n], ";" + tail);
      Regrouped(names[n], ";", tail);
      SplitNames(names[..n], names[n] + ";" + tail);
      SplitPiece(names[n], tail);
      Regrouped(names[..n], [names[n]], Split(tail));
      assert names[..n] + [names[n]] == names;
    }
  }

  lemma {:induction false} NamesClean(names: seq<string>)
    requires forall i :: 0 <= i < |names| ==> PlainName(names[i])
    ensures forall k :: 0 <= k < |NamesText(names)| ==> NamesText(names)[k] != '\n'
    ensures names != [] ==> NamesText(names) != "" && names[0] != "" && NamesText(names)[0] == names[0][0]
  {
    if names != [] {
      var n := |names| - 1;
      NamesClean(names[..n]);
      if n > 0 { assert names[..n][0] == names[0]; }
    }
  }

  /** The pieces of a saved list are its names. */
  lemma NamesReadBack(names: seq<string>)
    requires names != [] && (forall i :: 0 <= i < |names| ==> PlainName(names[i])) && names[0] != "" && names[0][0] != ' '
    ensures Pieces(TrimStart(NamesText(names) + "\n")) == names
  {
    hide NamesText;
    var text := NamesText(names) + "\n";
    NamesClean(names);
    assert TrimStart(text) == text;
    IndexIs(text, '\n', |NamesText(names)|);
    assert Body(text) == NamesText(names);
    assert NamesText(names) + "" == NamesText(names);
    SplitNames(names, "");
  }

  lemma KeySplit(key: string, text: string)
    requires forall i :: 0 <= i < |key| ==> key[i] != '='
    ensures KeyLineOf(key + "=" + text) == Some(KeyLine(TrimEnd(key), TrimStart(text)))
  {
    var line := key + "=" + text;
    IndexIs(line, '=', |key|);
    assert line[..|key|] == key && line[|key| + 1..] == text;
  }

  /** The key of a saved line is its type. */
  lemma KeyReadBack(s: Saved)
    requires Plain(s)
    ensures KeyLineOf(LineText(s)) == Some(KeyLine(s.key.type_ + "/" + s.key.subtype, TrimStart(NamesText(s.names) + "\n")))
    ensures MimeKeyOf(s.key.type_ + "/" + s.key.subtype) == Some(s.key)
  {
    var t, u := s.key.type_, s.key.subtype;
    var key := t + "/" + u;
    forall i | 0 <= i < |key| ensures key[i] != '=' {
      assert key[i] == if i < |t| then t[i] else if i == |t| then '/' else u[i - |t| - 1];
    }
    KeySplit(key, NamesText(s.names) + "\n");
    Regrouped(key + "=", NamesText(s.names), "\n");
    assert key[|key| - 1] == u[|u| - 1];
    MimeKeyExact(s.key);
  }

  /** A saved line adds its names to its list. */
  lemma LineReadBack<A>(m: Lists<A>, s: Saved, find: string -> Option<A>)
    requires Plain(s)
    ensures LoadEntry(m, LineText(s), find) == AddNames(m[s.key := Get(m, s.key)], s.key, s.names, find)
    ensures !Skipped(LineText(s)) && !Opens(LineText(s)) && LineText(s) != ""
  {
    KeyReadBack(s);
    NamesReadBack(s.names);
    assert LineText(s)[0] == (s.key.type_ + "/")[0];
  }

  // ----- sections -----

  /** The lines of a section, one after the other. */
  function AddAll<A>(m: Lists<A>, ss: seq<Saved>, find: string -> Option<A>): Lists<A> {
    if ss == [] then m
    else
      var was, s := AddAll(m, ss[..|ss| - 1], find), ss[|ss| - 1];
      AddNames(was[s.key := Get(was, s.key)], s.key, s.names, find)
  }

  predicate AllPlain(ss: seq<Saved>) {
    forall i {:trigger ss[i]} :: 0 <= i < |ss| ==> Plain(ss[i])
  }

  lemma {:induction false} LinesReadBack<A>(ss: seq<Saved>, rest: seq<string>, section: Section, st: Loaded<A>, find: string -> Option<A>)
    requires AllPlain(ss)
    ensures LoadLines(LinesText(ss) + rest, Some(section), st, find)
         == LoadLines(rest, Some(section), WithTree(st, section, AddAll(Tree(st, section), ss, find)), find)
    decreases |ss|
  {
    if ss == [] {
      assert LinesText(ss) + rest == rest;
      assert WithTree(st, section, Tree(st, section)) == st;
    } else {
      var n := |ss| - 1;
      var last := LineText(ss[n]);
      assert LinesText(ss) + rest == LinesText(ss[..n]) + ([last] + rest);
      LinesReadBack(ss[..n], [last] + rest, section, st, find);
      var was := AddAll(Tree(st, section), ss[..n], find);
      LineReadBack(was, ss[n], find);
      assert ([last] + rest)[1..] == rest;
    }
  }

  /** A header is read as the name it was written for. */
  lemma HeaderReadBack(name: string)
    requires forall i :: 0 <= i < |name| ==> name[i] != ']'
    ensures Opens(HeaderText(name)) && !Skipped(HeaderText(name)) && GroupOf(HeaderText(name)) == Some(name)
  {
    var line := HeaderText(name);
    IndexIs(line, ']', 1 + |name|);
    assert line[1..1 + |name|] == name;
  }

  /** A section that is written is read into the tree its name stands for, whatever was read before. */
  lemma SectionReadBack<A>(name: string, section: Section, types: seq<TypeEntry>, rest: seq<string>, now: Option<Section>,
                           st: Loaded<A>, find: string -> Option<A>)
    requires AllPlain(SavedTypes(types)) && types != []
    requires Opens(HeaderText(name)) && !Skipped(HeaderText(name)) && SectionOf(HeaderText(name)) == Some(section)
    ensures LoadLines(SectionLines(name, types) + rest, now, st, find)
         == LoadLines(rest, Some(section), WithTree(st, section, AddAll(Tree(st, section), SavedTypes(types), find)), find)
  {
    var header, lines := HeaderText(name), LinesText(SavedTypes(types));
    var after := ["\n"] + rest;
    assert SectionLines(name, types) + rest == [header] + (lines + after);
    assert ([header] + (lines + after))[1..] == lines + after;
    LinesReadBack(SavedTypes(types), after, section, st, find);
    assert after[1..] == rest;
  }

  /** Under a header that names no section, the first line ends the reading. */
  lemma UnknownIsLost<A>(name: string, types: seq<TypeEntry>, now: Option<Section>, st: Loaded<A>, find: string -> Option<A>)
    requires AllPlain(SavedTypes(types))
    requires Opens(HeaderText(name)) && !Skipped(HeaderText(name)) && SectionOf(HeaderText(name)) == None
    ensures LoadLines(SectionLines(name, types), now, st, find) == st
  {
    if types != [] {
      var ss := SavedTypes(types);
      var body := LinesText(ss) + ["\n"];
      assert SectionLines(name, types) == [HeaderText(name)] + body;
      assert ([HeaderText(name)] + body)[1..] == body;
      if ss != [] {
        FirstLine(ss);
        LineReadBack(st.added, ss[0], find);
        EndsHere(body, LineText(ss[0]), st, find);
      } else {
        assert body == ["\n"] && ["\n"][1..] == [];
      }
    }
  }

  lemma EndsHere<A>(lines: seq<string>, line: string, st: Loaded<A>, find: string -> Option<A>)
    requires lines != [] && lines[0] == line && !Skipped(line) && !Opens(line)
    ensures LoadLines(lines, None, st, find) == st
  {
  }

  lemma {:induction false} FirstLine(ss: seq<Saved>)
    requires ss != []
    ensures |LinesText(ss)| == |ss| && LinesText(ss)[0] == LineText(ss[0])
  {
    if |ss| > 1 {
      FirstLine(ss[..|ss| - 1]);
    } else {
      assert ss[..0] == [];
    }
  }

  lemma HeaderNames()
    ensures forall i :: 0 <= i < |ADDED| ==> ADDED[i] != ']' && ADDED[i] != '\n'
    ensures forall i :: 0 <= i < |DEFAULTS| ==> DEFAULTS[i] != ']' && DEFAULTS[i] != '\n'
    ensures forall i :: 0 <= i < |REMOVED| ==> REMOVED[i] != ']' && REMOVED[i] != '\n'
    ensures ADDED != DEFAULTS && REMOVED != ADDED && REMOVED != DEFAULTS && REMOVED != READ_REMOVED
    ensures |ADDED| == 18 && |DEFAULTS| == |REMOVED| == 20
  {
    assert DEFAULTS[0] == 'D' && REMOVED[0] == 'R' && REMOVED[9] == 'p' && READ_REMOVED[9] == 's';
  }

  // ----- the names of the sections -----

  /** A header opens the section of its name. */
  lemma SectionNamed(name: string, header: string)
    requires header == HeaderText(name) && forall i :: 0 <= i < |name| ==> name[i] != ']'
    ensures Opens(header) && !Skipped(header)
    ensures SectionOf(header) == if name == DEFAULTS then Some(DefaultSection) else if name == ADDED then Some(AddedSection)
                                 else if name == READ_REMOVED then Some(RemovedSection) else None
  {
    HeaderReadBack(name);
  }

  // The three headers that the reader knows, and one that it does not.

  lemma AddedHeader(header: string)
    requires header == "[Added Associations]\n"
    ensures Opens(header) && !Skipped(header) && SectionOf(header) == Some(AddedSection)
  {
    SectionNamed("Added Associations", header);
    assert ADDED[0] == 'A' && DEFAULTS[0] == 'D';
  }

  lemma DefaultHeader(header: string)
    requires header == "[Default Applications]\n"
    ensures Opens(header) && !Skipped(header) && SectionOf(header) == Some(DefaultSection)
  {
    SectionNamed("Default Applications", header);
  }

  lemma RemovedHeader(header: string)
    requires header == "[Removed Associations]\n"
    ensures Opens(header) && !Skipped(header) && SectionOf(header) == Some(RemovedSection)
  {
    SectionNamed("Removed Associations", header);
    assert READ_REMOVED[0] == 'R' && ADDED[0] == 'A' && DEFAULTS[0] == 'D';
  }

  lemma OtherHeader(header: string)
    requires header == "[Removed Applications]\n"
    ensures Opens(header) && !Skipped(header) && SectionOf(header) == None
  {
    SectionNamed("Removed Applications", header);
    HeaderNames();
  }

  /** The lines under a known header go into its tree. */
  lemma SectionRead<A>(header: string, section: Section, ss: seq<Saved>, rest: seq<string>, now: Option<Section>, st: Loaded<A>,
                       find: string -> Option<A>)
    requires AllPlain(ss) && Opens(header) && !Skipped(header) && SectionOf(header) == Some(section)
    ensures LoadLines([header] + (LinesText(ss) + rest), now, st, find)
         == LoadLines(rest, Some(section), WithTree(st, section, AddAll(Tree(st, section), ss, find)), find)
  {
    assert ([header] + (LinesText(ss) + rest))[1..] == LinesText(ss) + rest;
    LinesReadBack(ss, rest, section, st, find);
  }

  lemma ThreeSections<A>(h1: string, h2: string, h3: string, x: seq<Saved>, y: seq<Saved>, z: seq<Saved>, find: string -> Option<A>)
    requires AllPlain(x) && AllPlain(y) && AllPlain(z)
    requires h1 == "[Added Associations]\n" && h2 == "[Removed Associations]\n" && h3 == "[Default Applications]\n"
    ensures LoadLines([h1] + (LinesText(x) + ([h2] + (LinesText(y) + ([h3] + (LinesText(z) + []))))), None, Loaded(map[], map[], map[]), find)
         == Loaded(AddAll(map[], x, find), AddAll(map[], z, find), AddAll(map[], y, find))
  {
    AddedHeader(h1);
    RemovedHeader(h2);
    DefaultHeader(h3);
    hide AddAll, LinesText, SectionOf, Opens, Skipped;
    var st: Loaded<A> := Loaded(map[], map[], map[]);
    var r2 := [h3] + (LinesText(z) + []);
    var r1 := [h2] + (LinesText(y) + r2);
    SectionRead(h1, AddedSection, x, r1, None, st, find);
    var st1 := Loaded(AddAll(map[], x, find), map[], map[]);
    SectionRead(h2, RemovedSection, y, r2, Some(AddedSection), st1, find);
    var st2 := Loaded(AddAll(map[], x, find), map[], AddAll(map[], y, find));
    SectionRead(h3, DefaultSection, z, [], Some(RemovedSection), st2, find);
    var st3 := Loaded(AddAll(map[], x, find), AddAll(map[], z, find), AddAll(map[], y, find));
    assert LoadLines([], Some(DefaultSection), st3, find) == st3;
  }

  // ----- the file -----

  lemma FileReadBack<A>(a: Apps, find: string -> Option<A>)
    requires AllPlain(SavedTypes(a.added)) && AllPlain(SavedTypes(a.defaults)) && AllPlain(SavedTypes(a.removed))
    ensures LoadLines(FileLines(a), None, Loaded(map[], map[], map[]), find)
         == Loaded(AddAll(map[], SavedTypes(a.added), find), AddAll(map[], SavedTypes(a.defaults), find), map[])
  {
    HeaderNames();
    HeaderReadBack(ADDED);
    HeaderReadBack(DEFAULTS);
    HeaderReadBack(REMOVED);
    var x, y, z := SectionLines(ADDED, a.added), SectionLines(DEFAULTS, a.defaults), SectionLines(REMOVED, a.removed);
    Regrouped(x, y, z);
    var st0: Loaded<A> := Loaded(map[], map[], map[]);
    var st1 := st0.(added := AddAll(map[], SavedTypes(a.added), find));
    var now := if a.added == [] then None else Some(AddedSection);
    if a.added == [] {
      assert x + (y + z) == y + z;
    } else {
      SectionReadBack(ADDED, AddedSection, a.added, y + z, None, st0, find);
    }
    if a.defaults == [] {
      assert y + z == z;
      UnknownIsLost(REMOVED, a.removed, now, st1, find);
    } else {
      SectionReadBack(DEFAULTS, DefaultSection, a.defaults, z, now, st1, find);
      UnknownIsLost(REMOVED, a.removed, Some(DefaultSection), st1.(defaults := AddAll(map[], SavedTypes(a.defaults), find)), find);
    }
  }

  /** Every type stands once, as in a tree. */
  ghost predicate OneEach(ss: seq<Saved>) {
    forall i, j :: 0 <= i < j < |ss| ==> ss[i].key != ss[j].key
  }

  /** The names that stay: those with an application, each where it stands first. */
  function Kept<A>(names: seq<string>, find: string -> Option<A>): seq<string> {
    if names == [] then []
    else
      var last, r := names[|names| - 1], Kept(names[..|names| - 1], find);
      if find(last).Some? && last !in r then r + [last] else r
  }

  lemma {:induction false} KeptMeaning<A>(names: seq<string>, find: string -> Option<A>)
    ensures Unique(Kept(names, find))
    ensures forall x :: x in Kept(names, find) <==> x in names && find(x).Some?
  {
    if names != [] {
      var n := |names| - 1;
      KeptMeaning(names[..n], find);
      assert names == names[..n] + [names[n]];
    }
  }

  /** Every name stands once and has an application. */
  ghost predicate KnownOnce<A>(names: seq<string>, find: string -> Option<A>) {
    Unique(names) && forall i :: 0 <= i < |names| ==> find(names[i]).Some?
  }

  lemma {:induction false} AllKept<A>(names: seq<string>, find: string -> Option<A>)
    requires KnownOnce(names, find)
    ensures Kept(names, find) == names
  {
    if names != [] {
      AllKept(names[..|names| - 1], find);
      assert names == names[..|names| - 1] + [names[|names| - 1]];
    }
  }

  function Names<A>(s: seq<Assoc<A>>): (r: seq<string>)
    ensures |r| == |s| && forall i :: 0 <= i < |s| ==> r[i] == s[i].name
  {
    if s == [] then [] else [s[0].name] + Names(s[1..])
  }

  /** The list that is saved for a type. */
  function ListOf(ss: seq<Saved>, k: MimeKey): seq<string> {
    if ss == [] then []
    else if ss[|ss| - 1].key == k then ss[|ss| - 1].names else ListOf(ss[..|ss| - 1], k)
  }

  lemma {:induction false} NamesSnoc<A>(s: seq<Assoc<A>>, x: Assoc<A>)
    ensures Names(s + [x]) == Names(s) + [x.name]
  {
    if s != [] {
      assert (s + [x])[1..] == s[1..] + [x];
      NamesSnoc(s[1..], x);
    }
  }

  /** A known name that the list does not have goes to its end. */
  lemma OneAdded<A>(m: Lists<A>, k: MimeKey, names: seq<string>, name: string, find: string -> Option<A>)
    requires Names(Get(m, k)) == names
    ensures Names(Get(AddName(m, k, name, find), k)) == if find(name).Some? && name !in names then names + [name] else names
  {
    var list := Get(m, k);
    if find(name).Some? {
      if name !in names {
        forall i | 0 <= i < |list| ensures list[i].name != name {
          assert Names(list)[i] in names;
        }
        NamesSnoc(list, Assoc(name, find(name).value));
      } else {
        var i :| 0 <= i < |names| && names[i] == name;
        assert list[i].name == name;
      }
    }
  }

  /** Adding names to an empty list gives those that stay, in order, */
  lemma {:induction false} NamesAdded<A>(m: Lists<A>, k: MimeKey, names: seq<string>, find: string -> Option<A>)
    requires Get(m, k) == []
    ensures Names(Get(AddNames(m, k, names, find), k)) == Kept(names, find)
  {
    if names != [] {
      var n := |names| - 1;
      NamesAdded(m, k, names[..n], find);
      OneAdded(AddNames(m, k, names[..n], find), k, Kept(names[..n], find), names[n], find);
    }
  }

  ghost predicate AppsFound<A>(s: seq<Assoc<A>>, find: string -> Option<A>) {
    forall i :: 0 <= i < |s| ==> find(s[i].name) == Some(s[i].app)
  }

  /** each with the application its name stands for, and no other list changes. */
  lemma {:induction false} OthersKept<A>(m: Lists<A>, k: MimeKey, names: seq<string>, find: string -> Option<A>, o: MimeKey)
    ensures AppsFound(Get(m, k), find) ==> AppsFound(Get(AddNames(m, k, names, find), k), find)
    ensures o != k ==> Get(AddNames(m, k, names, find), o) == Get(m, o)
  {
    if names != [] {
      var n := |names| - 1;
      OthersKept(m, k, names[..n], find, o);
    }
  }

  /** One line fills the list of its type and leaves the others. */
  lemma LineLists<A>(was: Lists<A>, s: Saved, find: string -> Option<A>, k: MimeKey)
    requires Names(Get(was, s.key)) == [] && AppsFound(Get(was, k), find)
    ensures
      var now := AddNames(was[s.key := Get(was, s.key)], s.key, s.names, find);
      Names(Get(now, k)) == (if k == s.key then Kept(s.names, find) else Names(Get(was, k))) && AppsFound(Get(now, k), find)
  {
    var start := was[s.key := Get(was, s.key)];
    assert Get(start, k) == Get(was, k);
    NamesAdded(start, s.key, s.names, find);
    OthersKept(start, s.key, s.names, find, k);
  }

  /** Loading the lines of a section gives each type its list. */
  lemma {:induction false} SectionLists<A>(ss: seq<Saved>, find: string -> Option<A>, k: MimeKey)
    requires OneEach(ss)
    ensures Names(Get(AddAll(map[], ss, find), k)) == Kept(ListOf(ss, k), find)
    ensures AppsFound(Get(AddAll(map[], ss, find), k), find)
  {
    if ss != [] {
      var n := |ss| - 1;
      assert forall i :: 0 <= i < n ==> ss[..n][i] == ss[i];
      SectionLists(ss[..n], find, ss[n].key);
      NotListed(ss[..n], ss[n].key);
      SectionLists(ss[..n], find, k);
      LineLists(AddAll(map[], ss[..n], find), ss[n], find, k);
    }
  }

  lemma {:induction false} NotListed(ss: seq<Saved>, k: MimeKey)
    requires forall i :: 0 <= i < |ss| ==> ss[i].key != k
    ensures ListOf(ss, k) == []
  {
    if ss != [] { NotListed(ss[..|ss| - 1], k); }
  }

  // ----- the round trip -----

  ghost predicate AllFit(lines: seq<string>) {
    forall i {:trigger lines[i]} :: 0 <= i < |lines| ==> IsLine(lines[i], BUFFER)
  }

  /** Saved text without delimiters, on lines that fit the buffer of 1024 characters. */
  ghost predicate Saveable(ss: seq<Saved>) {
    AllPlain(ss) && forall i {:trigger ss[i]} :: 0 <= i < |ss| ==> |LineText(ss[i])| < 1024
  }

  lemma LineFits(s: Saved)
    requires Plain(s) && |LineText(s)| < BUFFER
    ensures IsLine(LineText(s), BUFFER)
  {
    NamesClean(s.names);
    var t, u, n := s.key.type_, s.key.subtype, NamesText(s.names);
    var line := LineText(s);
    forall i | 0 <= i < |line| - 1 ensures line[i] != '\n' {
      if i < |t| { assert line[i] == t[i]; }
      else if |t| < i <= |t| + |u| { assert line[i] == u[i - |t| - 1]; }
      else if i > |t| + |u| + 1 { assert line[i] == n[i - |t| - |u| - 2]; }
    }
  }

  lemma {:induction false} LinesFit(ss: seq<Saved>)
    requires Saveable(ss)
    ensures AllFit(LinesText(ss))
  {
    if ss != [] {
      LinesFit(ss[..|ss| - 1]);
      LineFits(ss[|ss| - 1]);
    }
  }

  lemma SectionFits(name: string, types: seq<TypeEntry>)
    requires Saveable(SavedTypes(types)) && |name| <= 20 && forall i :: 0 <= i < |name| ==> name[i] != '\n'
    ensures AllFit(SectionLines(name, types))
  {
    LinesFit(SavedTypes(types));
    assert IsLine(HeaderText(name), BUFFER) && IsLine("\n", BUFFER);
  }

  /** Text without delimiters, every type once. */
  ghost predicate Restorable(a: Apps) {
    && Saveable(SavedTypes(a.added)) && Saveable(SavedTypes(a.defaults)) && Saveable(SavedTypes(a.removed))
    && OneEach(SavedTypes(a.added)) && OneEach(SavedTypes(a.defaults)) && OneEach(SavedTypes(a.removed))
  }

  /** The type has its list back: the known names, in order, each once, with the application it stands for. */
  ghost predicate Restored<A>(m: Lists<A>, ss: seq<Saved>, find: string -> Option<A>, k: MimeKey) {
    Names(Get(m, k)) == Kept(ListOf(ss, k), find) && AppsFound(Get(m, k), find)
  }

  lemma TextReadBack<A>(a: Apps, find: string -> Option<A>)
    requires Restorable(a)
    ensures LoadText(Joined(FileLines(a)), find)
         == Loaded(AddAll(map[], SavedTypes(a.added), find), AddAll(map[], SavedTypes(a.defaults), find), map[])
  {
    HeaderNames();
    SectionFits(ADDED, a.added);
    SectionFits(DEFAULTS, a.defaults);
    SectionFits(REMOVED, a.removed);
    LinesOfText(FileLines(a), BUFFER);
    FileReadBack(a, find);
  }

  /** A list file with the three sections that the reader knows fills the three trees: each type has its list. */
  lemma ListFileRead<A>(h1: string, h2: string, h3: string, x: seq<Saved>, y: seq<Saved>, z: seq<Saved>, find: string -> Option<A>, k: MimeKey)
    requires Saveable(x) && Saveable(y) && Saveable(z) && OneEach(x) && OneEach(y) && OneEach(z)
    requires h1 == "[Added Associations]\n" && h2 == "[Removed Associations]\n" && h3 == "[Default Applications]\n"
    ensures var st := LoadText(Joined([h1] + (LinesText(x) + ([h2] + (LinesText(y) + ([h3] + (LinesText(z) + [])))))), find);
      Restored(st.added, x, find, k) && Restored(st.removed, y, find, k) && Restored(st.defaults, z, find, k)
  {
    hide LoadLines, AddAll, LinesText, SavedTypes;
    LinesFit(x);
    LinesFit(y);
    LinesFit(z);
    LinesOfText([h1] + (LinesText(x) + ([h2] + (LinesText(y) + ([h3] + (LinesText(z) + []))))), BUFFER);
    ThreeSections(h1, h2, h3, x, y, z, find);
    SectionLists(x, find, k);
    SectionLists(y, find, k);
    SectionLists(z, find, k);
  }

  /** What is saved is loaded: each type has its added and its default applications back. */
  lemma RoundTrip<A>(a: Apps, find: string -> Option<A>, k: MimeKey)
    requires Restorable(a)
    ensures Restored(LoadText(Joined(FileLines(a)), find).added, SavedTypes(a.added), find, k)
    ensures Restored(LoadText(Joined(FileLines(a)), find).defaults, SavedTypes(a.defaults), find, k)
    ensures LoadText(Joined(FileLines(a)), find).removed == map[]
  {
    TextReadBack(a, find);
    SectionLists(SavedTypes(a.added), find, k);
    SectionLists(SavedTypes(a.defaults), find, k);
  }

  /** Lists of distinct known names come back as they were. */
  lemma KnownComeBack<A>(a: Apps, find: string -> Option<A>, k: MimeKey)
    requires Restorable(a) && KnownOnce(ListOf(SavedTypes(a.added), k), find) && KnownOnce(ListOf(SavedTypes(a.defaults), k), find)
    ensures Names(Get(LoadText(Joined(FileLines(a)), find).added, k)) == ListOf(SavedTypes(a.added), k)
    ensures Names(Get(LoadText(Joined(FileLines(a)), find).defaults, k)) == ListOf(SavedTypes(a.defaults), k)
  {
    RoundTrip(a, find, k);
    AllKept(ListOf(SavedTypes(a.added), k), find);
    AllKept(ListOf(SavedTypes(a.defaults), k), find);
  }

  lemma {:induction false} ListedOnce(ss: seq<Saved>, i: nat)
    requires OneEach(ss) && i < |ss|
    ensures ListOf(ss, ss[i].key) == ss[i].names
  {
    var n := |ss| - 1;
    if i < n {
      assert forall j :: 0 <= j < n ==> ss[..n][j] == ss[j];
      ListedOnce(ss[..n], i);
    }
  }

  lemma {:induction false} ListFrom(ss: seq<Saved>, k: MimeKey) returns (i: nat)
    ensures ListOf(ss, k) == [] || (i < |ss| && ListOf(ss, k) == ss[i].names)
  {
    i := 0;
    if ss != [] {
      var n := |ss| - 1;
      if ss[n].key == k {
        i := n;
      } else {
        i := ListFrom(ss[..n], k);
        assert i < n ==> ss[..n][i] == ss[i];
      }
    }
  }

  ghost predicate NoneKnown<A>(names: seq<string>, find: string -> Option<A>) {
    forall x :: x in names ==> find(x).None?
  }

  lemma NothingKept<A>(names: seq<string>, find: string -> Option<A>)
    ensures Kept(names, find) == [] <==> NoneKnown(names, find)
  {
    KeptMeaning(names, find);
    var r := Kept(names, find);
    if r != [] { assert r[0] in r; }
  }

  /** An empty tree is what comes back exactly when no name of the section is known. */
  lemma EmptyRestored<A>(ss: seq<Saved>, find: string -> Option<A>)
    requires OneEach(ss)
    ensures (forall k :: Restored(map[], ss, find, k)) <==> forall i :: 0 <= i < |ss| ==> NoneKnown(ss[i].names, find)
  {
    var m: Lists<A> := map[];
    if forall k :: Restored(m, ss, find, k) {
      forall i | 0 <= i < |ss| ensures NoneKnown(ss[i].names, find) {
        ListedOnce(ss, i);
        NothingKept(ss[i].names, find);
        assert Restored(m, ss, find, ss[i].key);
      }
    }
    if forall i :: 0 <= i < |ss| ==> NoneKnown(ss[i].names, find) {
      forall k ensures Restored(m, ss, find, k) {
        var i := ListFrom(ss, k);
        NothingKept(ListOf(ss, k), find);
      }
    }
  }

  /** The removed applications come back exactly when no application is known under a saved name. */
  lemma RemovedExact<A>(a: Apps, find: string -> Option<A>)
    requires Restorable(a)
    ensures
      (forall k :: Restored(LoadText(Joined(FileLines(a)), find).removed, SavedTypes(a.removed), find, k))
      <==> forall i :: 0 <= i < |SavedTypes(a.removed)| ==> NoneKnown(SavedTypes(a.removed)[i].names, find)
  {
    TextReadBack(a, find);
    EmptyRestored(SavedTypes(a.removed), find);
  }

  /** One removed application of one type, known under its name. */
  function OneRemoved(type_: string, subtype: string, name: string): Apps {
    Apps([], [], [TypeEntry(type_, [SubEntry(subtype, [name])])])
  }

  /** It is lost, whatever its name. */
  lemma RemovedIsLost<A>(type_: string, subtype: string, name: string, find: string -> Option<A>)
    requires Restorable(OneRemoved(type_, subtype, name)) && find(name).Some?
    ensures var a := OneRemoved(type_, subtype, name);
      !Restored(LoadText(Joined(FileLines(a)), find).removed, SavedTypes(a.removed), find, MimeKey(type_, subtype))
  {
    var a, saved := OneRemoved(type_, subtype, name), Saved(MimeKey(type_, subtype), [name]);
    OneSaved(type_, subtype, name);
    TextReadBack(a, find);
    ListedOnce([saved], 0);
    NothingKept([name], find);
  }

  lemma OneSaved(type_: string, subtype: string, name: string)
    ensures SavedTypes(OneRemoved(type_, subtype, name).removed) == [Saved(MimeKey(type_, subtype), [name])]
  {
    var s := SubEntry(subtype, [name]);
    assert [s][..0] == [] && SavedSubs(type_, [s]) == [] + [Saved(MimeKey(type_, subtype), [name])];
    assert [TypeEntry(type_, [s])][..0] == [];
  }

  /** The removed application x.desktop of the type a/b is gone after saving and loading. */
  lemma RemovedLost<A>(find: string -> Option<A>)
    requires find("x.desktop").Some?
    ensures var a := OneRemoved("a", "b", "x.desktop");
      && Restorable(a)
      && !Restored(LoadText(Joined(FileLines(a)), find).removed, SavedTypes(a.removed), find, MimeKey("a", "b"))
  {
    PlainRemoved("a", "b", "x.desktop");
    RemovedIsLost("a", "b", "x.desktop", find);
  }

  lemma PlainRemoved(type_: string, subtype: string, name: string)
    requires type_ == "a" && subtype == "b" && name == "x.desktop"
    ensures Restorable(OneRemoved(type_, subtype, name))
  {
    var s := Saved(MimeKey(type_, subtype), [name]);
    OneSaved(type_, subtype, name);
    assert [name][..0] == [] && NamesText([name]) == "" + name + ";";
    assert Plain(s);
  }

  // ----- from the heap to a file and back -----

  lemma {:induction false} SubSaved(type_: string, subs: seq<SubEntry>, j: nat)
    requires j < |subs| && subs[j].names != []
    ensures Saved(MimeKey(type_, subs[j].subtype), subs[j].names) in SavedSubs(type_, subs)
  {
    var n := |subs| - 1;
    if j < n { SubSaved(type_, subs[..n], j); }
  }

  lemma {:induction false} TypeSaved(types: seq<TypeEntry>, i: nat, x: Saved)
    requires i < |types| && x in SavedSubs(types[i].type_, types[i].subs)
    ensures x in SavedTypes(types)
  {
    var n := |types| - 1;
    if i < n { TypeSaved(types[..n], i, x); }
  }

  /** The names in the list of the sub-type `v` of the type `t` on the heap. */
  ghost function NamesAt(s: Trees, tree: AvlHeap.AvlTree<Val>, t: string, v: string): seq<string>
    requires tree in s.held
  {
    match AvlModel.Lookup(s.held[tree].model, t)
    case None => []
    case Some(a) =>
      if a.value.TypeVal? && a.value.subTypes in s.held then
        match AvlModel.Lookup(s.held[a.value.subTypes].model, v)
        case None => []
        case Some(b) =>
          if b.value.ListVal? then
            var items := b.value.list.items;
            seq(|items|, i requires 0 <= i < |items| => items[i].text)
          else []
      else []
  }

  /** They are saved under the type. */
  lemma NamesSaved(s: Trees, tree: AvlHeap.AvlTree<Val>, t: string, v: string)
    requires tree in s.held && OneEach(SavedTypes(TypesIn(s, tree))) && NamesAt(s, tree, t, v) != []
    ensures ListOf(SavedTypes(TypesIn(s, tree)), MimeKey(t, v)) == NamesAt(s, tree, t, v)
  {
    var a := AvlModel.Lookup(s.held[tree].model, t).value.value;
    var b := AvlModel.Lookup(s.held[a.subTypes].model, v).value.value;
    AvlWalk.FoundIsCalled(s.held[tree].model, t);
    AvlWalk.FoundIsCalled(s.held[a.subTypes].model, v);
    var types, ss := TypesIn(s, tree), SavedTypes(TypesIn(s, tree));
    var i :| 0 <= i < |types| && AvlWalk.PostOrder(s.held[tree].model)[i] == AvlWalk.Call(t, a);
    var j :| 0 <= j < |types[i].subs| && AvlWalk.PostOrder(s.held[a.subTypes].model)[j] == AvlWalk.Call(v, b);
    var x := Saved(MimeKey(t, v), Texts(b.list.items));
    assert Texts(b.list.items) == NamesAt(s, tree, t, v);
    SubSaved(t, types[i].subs, j);
    TypeSaved(types, i, x);
    var k :| 0 <= k < |ss| && ss[k] == x;
    ListedOnce(ss, k);
  }

  /** Every list on the heap is back: its known names, in order, each once. */
  ghost predicate TreeRestored<A>(s: Trees, tree: AvlHeap.AvlTree<Val>, m: Lists<A>, find: string -> Option<A>)
    requires tree in s.held
  {
    forall t, v {:trigger MimeKey(t, v)} :: NamesAt(s, tree, t, v) != [] ==> Names(Get(m, MimeKey(t, v))) == Kept(NamesAt(s, tree, t, v), find)
  }

  lemma TreeIsRestored<A>(s: Trees, tree: AvlHeap.AvlTree<Val>, m: Lists<A>, find: string -> Option<A>)
    requires tree in s.held && OneEach(SavedTypes(TypesIn(s, tree)))
    requires forall k :: Restored(m, SavedTypes(TypesIn(s, tree)), find, k)
    ensures TreeRestored(s, tree, m, find)
  {
    hide Kept, ListOf, SavedTypes, NamesAt;
    forall t, v {:trigger MimeKey(t, v)} | NamesAt(s, tree, t, v) != []
      ensures Names(Get(m, MimeKey(t, v))) == Kept(NamesAt(s, tree, t, v), find)
    {
      NamesSaved(s, tree, t, v);
      assert Restored(m, SavedTypes(TypesIn(s, tree)), find, MimeKey(t, v));
    }
  }

  /** Saving to a file and loading the file. */
  method SaveAndLoad<A>(u: UserTrees, find: string -> Option<A>, ghost s: Trees) returns (st: Loaded<A>)
    requires Ready(s) && UserLoaded(s, u) && Restorable(UserAppsOf(s, u))
    modifies Below(s, 2)`visit
    ensures Ready(s)
    ensures forall k :: Restored(st.added, SavedTypes(UserAppsOf(s, u).added), find, k)
    ensures forall k :: Restored(st.defaults, SavedTypes(UserAppsOf(s, u).defaults), find, k)
    ensures TreeRestored(s, u.added, st.added, find) && TreeRestored(s, u.defaults, st.defaults, find)
    ensures st.removed == map[]
  {
    hide SavedTypes, TypesIn;
    ghost var a := UserAppsOf(s, u);
    var file := new File();
    file.Save(u, s);
    assert "" + Joined(FileLines(a)) == Joined(FileLines(a));
    st := ReadListFile(file.text, find);
    TextReadBack(a, find);
    forall k ensures Restored(st.added, SavedTypes(a.added), find, k) && Restored(st.defaults, SavedTypes(a.defaults), find, k) {
      RoundTrip(a, find, k);
    }
    TreeIsRestored(s, u.added, st.added, find);
    TreeIsRestored(s, u.defaults, st.defaults, find);
  }
}
