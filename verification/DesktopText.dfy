/** Desktop files that are written line by line, and the values they are read as. */
module DesktopText {
  import opened CStrings
  import opened MimeTypes
  import opened TextFiles
  import opened AppLines
  import opened MimeIndex
  import opened UserApps
  import opened UserLoad

  /** A comment, an empty line with one of two endings, the header of a group, or an entry, for all locales or for one. */
  datatype Item =
    | Note(text: string)
    | Blank(dos: bool)
    | Head(group: string)
    | Given(name: string, locale: Option<string>, values: seq<string>)

  function KeyText(name: string, locale: Option<string>): string {
    match locale
    case None => name
    case Some(l) => name + "[" + l + "]"
  }

  function ItemText(x: Item): string {
    match x
    case Note(text) => "#" + text + "\n"
    case Blank(dos) => if dos then "\r\n" else "\n"
    case Head(group) => "[" + group + "]\n"
    case Given(name, locale, values) => KeyText(name, locale) + "=" + (NamesText(values) + "\n")
  }

  /** A name without delimiters. */
  predicate PlainKey(name: string) {
    && name != "" && name[0] !in {'#', '\r', '\n', '['} && name[|name| - 1] != ' '
    && '=' !in name && '[' !in name
  }

  predicate Writable(x: Item) {
    match x
    case Note(_) => true
    case Blank(_) => true
    case Head(group) => ']' !in group
    case Given(name, locale, values) =>
      && PlainKey(name) && (locale.Some? ==> ']' !in locale.value && '=' !in locale.value)
      && (forall i :: 0 <= i < |values| ==> PlainName(values[i])) && (values != [] ==> values[0] != "" && values[0][0] != ' ')
  }

  function FileText(items: seq<Item>): (r: seq<string>)
    ensures |r| == |items|
  {
    if items == [] then [] else [ItemText(items[0])] + FileText(items[1..])
  }

  /** The values that the items give an entry, from inside the group `now`; an entry outside a group ends the file. */
  function Values(items: seq<Item>, now: Option<string>, group: string, name: string, locale: Option<string>): seq<string> {
    if items == [] then []
    else match items[0]
      case Note(_) => Values(items[1..], now, group, name, locale)
      case Blank(_) => Values(items[1..], now, group, name, locale)
      case Head(g) => Values(items[1..], Some(g), group, name, locale)
      case Given(n, l, values) =>
        if now.None? then []
        else (if now.value == group && n == name && l == locale then values else []) + Values(items[1..], now, group, name, locale)
  }

  // ----- one line -----

  /** A key with a locale in brackets gives its values to the entry of its name for that locale. */
  lemma SlotReadBack(app: string, group: string, name: string, locale: Option<string>)
    requires '[' !in name && (locale.Some? ==> ']' !in locale.value)
    ensures SlotOf(app, group, KeyText(name, locale)) == Slot(app, group, name, locale)
  {
    var key := KeyText(name, locale);
    match locale
    case None =>
      assert Index(key, '[') == |key|;
    case Some(l) =>
      IndexIs(key, '[', |name|);
      var rest := key[|name| + 1..];
      assert key[..|name|] == name && rest == l + "]";
      IndexIs(rest, ']', |l|);
      assert rest[..|l|] == l;
  }

  lemma KeyEnds(name: string, locale: Option<string>)
    requires PlainKey(name) && (locale.Some? ==> '=' !in locale.value)
    ensures var key := KeyText(name, locale); key != "" && key[0] == name[0] && key[|key| - 1] != ' ' && '=' !in key
  {
    var key := KeyText(name, locale);
    if locale.Some? {
      var l := locale.value;
      forall i | 0 <= i < |key| ensures key[i] != '=' {
        assert key[i] == if i < |name| then name[i] else if i == |name| then '[' else if i <= |name| + |l| then l[i - |name| - 1] else ']';
      }
    }
  }

  lemma ValuesReadBack(values: seq<string>)
    requires (forall i :: 0 <= i < |values| ==> PlainName(values[i])) && (values != [] ==> values[0] != "" && values[0][0] != ' ')
    ensures TrimStart(NamesText(values) + "\n") == NamesText(values) + "\n" && Pieces(NamesText(values) + "\n") == values
  {
    NamesClean(values);
    if values == [] {
      assert Body("\n") == "" && NamesText(values) + "\n" == "\n";
    } else {
      NamesReadBack(values);
    }
  }

  /** What an entry gives the log. */
  lemma GivenReadBack(app: string, group: string, x: Item)
    requires Writable(x) && x.Given?
    ensures !Skipped(ItemText(x)) && !Opens(ItemText(x))
    ensures EntryLog(app, group, ItemText(x)) == Logged(Slot(app, group, x.name, x.locale), x.values, KeyText(x.name, x.locale) == MIME)
  {
    var key, text := KeyText(x.name, x.locale), NamesText(x.values) + "\n";
    KeyEnds(x.name, x.locale);
    ValuesReadBack(x.values);
    KeyLineMeaning(key, 0, 0, text);
    assert key + Blanks(0) == key && Blanks(0) + text == text;
    SlotReadBack(app, group, x.name, x.locale);
    assert ItemText(x)[0] == key[0];
  }

  lemma OtherLines(x: Item)
    requires Writable(x) && !x.Given?
    ensures !x.Head? ==> Skipped(ItemText(x))
    ensures x.Head? ==> !Skipped(ItemText(x)) && Opens(ItemText(x)) && GroupOf(ItemText(x)) == Some(x.group)
  {
    if x.Head? {
      HeaderReadBack(x.group);
    }
  }

  // ----- the whole file -----

  lemma {:induction false} TextsConcat(a: seq<Parsed>, b: seq<Parsed>, slot: Slot)
    ensures TextsOf(a + b, slot) == TextsOf(a, slot) + TextsOf(b, slot)
  {
    if b == [] {
      assert a + b == a && TextsOf(b, slot) == [];
    } else {
      hide TextsOf;
      var n := |b| - 1;
      var rest, last := b[..n], b[n];
      TextsConcat(a, rest, slot);
      assert a + b == (a + rest) + [last] && b == rest + [last];
      ReadOne(a + rest, last, slot);
      ReadOne(rest, last, slot);
    }
  }

  lemma {:induction false} LoggedTexts(at: Slot, pieces: seq<string>, indexed: bool, slot: Slot)
    ensures TextsOf(Logged(at, pieces, indexed), slot) == if at == slot then pieces else []
  {
    if pieces != [] {
      var n := |pieces| - 1;
      LoggedTexts(at, pieces[..n], indexed, slot);
      ReadOne(Logged(at, pieces[..n], indexed), Parsed(at, pieces[n], indexed), slot);
    }
  }

  /** One line of the file, and the rest. */
  lemma FileLine(app: string, now: Option<string>, items: seq<Item>)
    requires items != [] && forall i :: 0 <= i < |items| ==> Writable(items[i])
    ensures var (x, rest) := (items[0], items[1..]);
      FileLog(app, now, FileText(items)) ==
        if x.Head? then FileLog(app, Some(x.group), FileText(rest))
        else if !x.Given? then FileLog(app, now, FileText(rest))
        else if now.None? then []
        else Logged(Slot(app, now.value, x.name, x.locale), x.values, KeyText(x.name, x.locale) == MIME) + FileLog(app, now, FileText(rest))
  {
    var x, lines := items[0], FileText(items);
    assert lines[0] == ItemText(x) && lines[1..] == FileText(items[1..]);
    if x.Given? {
      GivenReadBack(app, if now.Some? then now.value else "", x);
    } else {
      OtherLines(x);
    }
    hide FileText, ItemText, Skipped, Opens, GroupOf, EntryLog, Logged, KeyText, Writable;
  }

  lemma NothingHolds(app: string, now: Option<string>, slot: Slot)
    ensures TextsOf(FileLog(app, now, FileText([])), slot) == [] && TextsOf([], slot) == []
  {
  }

  lemma {:induction false} LogHolds(app: string, now: Option<string>, items: seq<Item>, group: string, name: string, locale: Option<string>)
    requires forall i :: 0 <= i < |items| ==> Writable(items[i])
    ensures TextsOf(FileLog(app, now, FileText(items)), Slot(app, group, name, locale)) == Values(items, now, group, name, locale)
    decreases |items|
  {
    hide FileLog, FileText, Logged, Writable, KeyText, TextsOf;
    var slot := Slot(app, group, name, locale);
    NothingHolds(app, now, slot);
    if items != [] {
      var x, rest := items[0], items[1..];
      FileLine(app, now, items);
      if x.Head? {
        LogHolds(app, Some(x.group), rest, group, name, locale);
      } else if !x.Given? {
        LogHolds(app, now, rest, group, name, locale);
      } else if now.Some? {
        var at := Slot(app, now.value, x.name, x.locale);
        LogHolds(app, now, rest, group, name, locale);
        TextsConcat(Logged(at, x.values, KeyText(x.name, x.locale) == MIME), FileLog(app, now, FileText(rest)), slot);
        LoggedTexts(at, x.values, KeyText(x.name, x.locale) == MIME, slot);
      }
    }
  }

  lemma {:induction false} AppsConcat(a: seq<Parsed>, b: seq<Parsed>, k: MimeKey)
    ensures AppsOf(a + b, k) == AppsOf(a, k) + AppsOf(b, k)
  {
    hide MimeKeyOf;
    if b == [] {
      assert a + b == a && AppsOf(b, k) == [];
    } else {
      hide AppsOf;
      var n := |b| - 1;
      var rest, last := b[..n], b[n];
      AppsConcat(a, rest, k);
      assert a + b == (a + rest) + [last] && b == rest + [last];
      IndexedOne(a + rest, last, k);
      IndexedOne(rest, last, k);
    }
  }

  lemma {:induction false} LoggedApps(at: Slot, pieces: seq<string>, indexed: bool, k: MimeKey)
    ensures forall x :: x in AppsOf(Logged(at, pieces, indexed), k) ==> x == at.app
  {
    if pieces != [] {
      var n := |pieces| - 1;
      LoggedApps(at, pieces[..n], indexed, k);
      IndexedOne(Logged(at, pieces[..n], indexed), Parsed(at, pieces[n], indexed), k);
    }
  }

  lemma {:induction false} FileApps(app: string, now: Option<string>, lines: seq<string>, k: MimeKey)
    ensures forall x :: x in AppsOf(FileLog(app, now, lines), k) ==> x == app
    decreases |lines|
  {
    if lines != [] {
      if Skipped(lines[0]) {
        FileApps(app, now, lines[1..], k);
      } else if Opens(lines[0]) {
        FileApps(app, GroupOf(lines[0]), lines[1..], k);
      } else if now.Some? {
        FileApps(app, now, lines[1..], k);
        AppsConcat(EntryLog(app, now.value, lines[0]), FileLog(app, now, lines[1..]), k);
        var kl := KeyLineOf(lines[0]);
        if kl.Some? {
          LoggedApps(SlotOf(app, now.value, kl.value.key), Pieces(kl.value.text), kl.value.key == MIME, k);
        }
      }
    }
  }

  /** In the index the applications of a type stand in the order in which their files were read. */
  lemma IndexOrder(files: seq<DesktopFile>, f: DesktopFile, k: MimeKey)
    ensures AppsOf(RunLog(files + [f]), k) == AppsOf(RunLog(files), k) + AppsOf(FileLog(f.app, None, f.lines), k)
    ensures forall x :: x in AppsOf(FileLog(f.app, None, f.lines), k) ==> x == f.app
  {
    assert (files + [f])[..|files|] == files;
    AppsConcat(RunLog(files), FileLog(f.app, None, f.lines), k);
    FileApps(f.app, None, f.lines, k);
  }

  // ----- the text of the file -----

  /** The line has no newline before its end and fits the buffer of 1024 characters. */
  predicate OneLine(x: Item) {
    && |ItemText(x)| < 1024
    && match x
       case Note(text) => '\n' !in text
       case Blank(_) => true
       case Head(group) => '\n' !in group
       case Given(name, locale, _) => '\n' !in name && (locale.Some? ==> '\n' !in locale.value)
  }

  lemma ItemIsLine(x: Item)
    requires Writable(x) && OneLine(x)
    ensures IsLine(ItemText(x), 1024)
  {
    if x.Given? {
      var key, names := KeyText(x.name, x.locale), NamesText(x.values);
      NamesClean(x.values);
      assert '\n' !in key by {
        if x.locale.Some? { assert key == (x.name + "[") + x.locale.value + "]"; }
      }
      var line := ItemText(x);
      hide KeyText, NamesText;
      assert line == (key + "=") + (names + "\n");
      forall i | 0 <= i < |line| - 1 ensures line[i] != '\n' {
        assert line[i] == if i < |key| then key[i] else if i == |key| then '=' else names[i - |key| - 1];
      }
    }
  }

  lemma {:induction false} ItemsAreLines(items: seq<Item>)
    requires forall i :: 0 <= i < |items| ==> Writable(items[i]) && OneLine(items[i])
    ensures forall i :: 0 <= i < |items| ==> IsLine(FileText(items)[i], 1024)
  {
    if items != [] {
      ItemIsLine(items[0]);
      ItemsAreLines(items[1..]);
    }
  }

  /** The lines of such a file come back from its text one by one. */
  lemma LinesComeBack(items: seq<Item>)
    requires forall i :: 0 <= i < |items| ==> Writable(items[i]) && OneLine(items[i])
    ensures Fgets(Joined(FileText(items)), 1024) == FileText(items)
  {
    ItemsAreLines(items);
    LinesOfText(FileText(items), 1024);
  }

  /** After reading such a file every entry holds, behind what it held, the values written for its group, name and locale. */
  lemma FileHolds(data: AppData, was: seq<Parsed>, app: string, items: seq<Item>, group: string, name: string, locale: Option<string>)
    requires data.Valid() && data.log == was + FileLog(app, None, Fgets(Joined(FileText(items)), 1024))
    requires forall i :: 0 <= i < |items| ==> Writable(items[i]) && OneLine(items[i])
    ensures var slot := Slot(app, group, name, locale);
      Get(data.values, slot) == TextsOf(was, slot) + Values(items, None, group, name, locale)
  {
    var slot := Slot(app, group, name, locale);
    LinesComeBack(items);
    LogHolds(app, None, items, group, name, locale);
    TextsConcat(was, FileLog(app, None, FileText(items)), slot);
    assert Get(data.values, slot) == TextsOf(data.log, slot);
  }
}
