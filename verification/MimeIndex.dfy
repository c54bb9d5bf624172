/** Reading desktop files: the values of every entry and the index from types to applications. */
module MimeIndex {
  import opened CStrings
  import opened MimeTypes
  import opened AppLines

  /** The entry of a group of an application, or its values for one locale. */
  datatype Slot = Slot(app: string, group: string, key: string, locale: Option<string>)

  /** The entry that lists types. */
  predicate ListsTypes(slot: Slot) {
    slot.key == MIME && slot.locale.None?
  }

  /** One value that was read, and whether the index was told of it. */
  datatype Parsed = Parsed(slot: Slot, text: string, indexed: bool)

  const MIME := "MimeType"

  // ----- what was read -----

  /** The values of an entry, in the order read. */
  function TextsOf(log: seq<Parsed>, slot: Slot): seq<string> {
    if log == [] then []
    else
      var p := log[|log| - 1];
      TextsOf(log[..|log| - 1], slot) + if p.slot == slot then [p.text] else []
  }

  /** The applications of a type, in the order read. */
  function AppsOf(log: seq<Parsed>, k: MimeKey): seq<string> {
    if log == [] then []
    else
      var p := log[|log| - 1];
      AppsOf(log[..|log| - 1], k) + if p.indexed && MimeKeyOf(p.text) == Some(k) then [p.slot.app] else []
  }

  /** All type values of an application, whatever the group. */
  function TypesOf(log: seq<Parsed>, app: string): seq<string> {
    if log == [] then []
    else
      var p := log[|log| - 1];
      TypesOf(log[..|log| - 1], app) + if p.slot.app == app && ListsTypes(p.slot) then [p.text] else []
  }

  function Logged(slot: Slot, pieces: seq<string>, indexed: bool): seq<Parsed> {
    if pieces == [] then []
    else Logged(slot, pieces[..|pieces| - 1], indexed) + [Parsed(slot, pieces[|pieces| - 1], indexed)]
  }

  /** The key and the locale in brackets; a key with an open bracket but no closing
      one gives its values to the plain entry. */
  function SlotOf(app: string, group: string, key: string): Slot {
    var i := Index(key, '[');
    if i == |key| then Slot(app, group, key, None)
    else
      var rest := key[i + 1..];
      var j := Index(rest, ']');
      Slot(app, group, key[..i], if j == |rest| then None else Some(rest[..j]))
  }

  /** `_xdg_app_group_read_entry`: the index is told of keys without a bracket only. */
  function EntryLog(app: string, group: string, line: string): seq<Parsed> {
    match KeyLineOf(line)
    case None => []
    case Some(kl) => Logged(SlotOf(app, group, kl.key), Pieces(kl.text), kl.key == MIME)
  }

  lemma MimeSlot(app: string, group: string, key: string)
    requires key == MIME
    ensures SlotOf(app, group, key) == Slot(app, group, MIME, None)
  {
    assert forall i :: 0 <= i < |MIME| ==> MIME[i] != '[';
  }

  predicate Skipped(line: string) {
    line != [] && (line[0] == '#' || line[0] == '\r' || line[0] == '\n')
  }

  predicate Opens(line: string) {
    line != [] && line[0] == '['
  }

  /** The group a header names, if it is closed. */
  function GroupOf(line: string): Option<string>
    requires Opens(line)
  {
    var i := Index(line, ']');
    if i == |line| then None else Some(line[1..i])
  }

  /** `_xdg_app_read_desktop_file`: reading stops at an entry outside a group. */
  function FileLog(app: string, group: Option<string>, lines: seq<string>): seq<Parsed>
    decreases |lines|
  {
    if lines == [] then []
    else if Skipped(lines[0]) then FileLog(app, group, lines[1..])
    else if Opens(lines[0]) then FileLog(app, GroupOf(lines[0]), lines[1..])
    else match group
      case None => []
      case Some(g) => EntryLog(app, g, lines[0]) + FileLog(app, group, lines[1..])
  }

  // ----- the index is the inverse of the values -----

  /** Values the index was not told of. */
  function Untold(log: seq<Parsed>, app: string, text: string): nat {
    if log == [] then 0
    else
      var p := log[|log| - 1];
      Untold(log[..|log| - 1], app, text) + if p.slot.app == app && ListsTypes(p.slot) && p.text == text && !p.indexed then 1 else 0
  }

  /** Only type values are indexed. */
  ghost predicate Regular(log: seq<Parsed>) {
    forall i :: 0 <= i < |log| ==> log[i].indexed ==> ListsTypes(log[i].slot)
  }

  lemma {:induction false} Counts(log: seq<Parsed>, app: string, text: string, k: MimeKey)
    requires Regular(log) && MimeKeyOf(text) == Some(k)
    ensures multiset(TypesOf(log, app))[text] == multiset(AppsOf(log, k))[app] + Untold(log, app, text)
  {
    if log != [] {
      var n := |log| - 1;
      var rest, p := log[..n], log[n];
      assert Regular(rest) by { assert forall i :: 0 <= i < n ==> rest[i] == log[i]; }
      Counts(rest, app, text, k);
      CountBoth(TypesOf(rest, app), AppsOf(rest, k), Untold(rest, app, text), p, app, text, k);
    }
  }

  /** One more value keeps the balance between the values, the index and what was lost. */
  lemma CountBoth(types: seq<string>, apps: seq<string>, untold: nat, p: Parsed, app: string, text: string, k: MimeKey)
    requires multiset(types)[text] == multiset(apps)[app] + untold && MimeKeyOf(text) == Some(k) && (p.indexed ==> ListsTypes(p.slot))
    ensures multiset(types + if p.slot.app == app && ListsTypes(p.slot) then [p.text] else [])[text]
         == multiset(apps + if p.indexed && MimeKeyOf(p.text) == Some(k) then [p.slot.app] else [])[app]
            + (untold + if p.slot.app == app && ListsTypes(p.slot) && p.text == text && !p.indexed then 1 else 0)
  {
    SameName(p.text, text, k);
    CountOne(types, p.text, p.slot.app == app && ListsTypes(p.slot), text);
    CountOne(apps, p.slot.app, p.indexed && MimeKeyOf(p.text) == Some(k), app);
  }

  /** How often `x` stands in a sequence with one more element, or none. */
  lemma CountOne(s: seq<string>, y: string, more: bool, x: string)
    ensures multiset(s + if more then [y] else [])[x] == multiset(s)[x] + if more && y == x then 1 else 0
  {
  }

  lemma SameName(a: string, b: string, k: MimeKey)
    requires MimeKeyOf(b) == Some(k)
    ensures MimeKeyOf(a) == Some(k) <==> a == b
  {
  }

  /** In the index, every application stands under every type as often as it lists it. */
  ghost predicate Inverse(log: seq<Parsed>, app: string) {
    forall text, k :: MimeKeyOf(text) == Some(k) ==> multiset(AppsOf(log, k))[app] == multiset(TypesOf(log, app))[text]
  }

  /** No well-formed type stands in a value the index was not told of. */
  ghost predicate AllTold(log: seq<Parsed>, app: string) {
    forall i :: 0 <= i < |log| && log[i].slot.app == app && ListsTypes(log[i].slot) && !log[i].indexed ==> MimeKeyOf(log[i].text).None?
  }

  lemma {:induction false} UntoldMeaning(log: seq<Parsed>, app: string, text: string)
    ensures Untold(log, app, text) == 0 <==>
            forall i :: 0 <= i < |log| && log[i].slot.app == app && ListsTypes(log[i].slot) && !log[i].indexed ==> log[i].text != text
  {
    if log != [] {
      var n := |log| - 1;
      UntoldMeaning(log[..n], app, text);
      assert forall i :: 0 <= i < n ==> log[..n][i] == log[i];
    }
  }

  /** The index is the inverse of the values exactly when no unclosed key
      carried a well-formed type. */
  lemma InverseExact(log: seq<Parsed>, app: string)
    requires Regular(log)
    ensures Inverse(log, app) <==> AllTold(log, app)
  {
    if AllTold(log, app) {
      forall text, k | MimeKeyOf(text) == Some(k) ensures multiset(AppsOf(log, k))[app] == multiset(TypesOf(log, app))[text] {
        Counts(log, app, text, k);
        UntoldMeaning(log, app, text);
      }
    }
    if Inverse(log, app) {
      forall i | 0 <= i < |log| && log[i].slot.app == app && ListsTypes(log[i].slot) && !log[i].indexed
        ensures MimeKeyOf(log[i].text).None?
      {
        var text := log[i].text;
        if MimeKeyOf(text).Some? {
          Counts(log, app, text, MimeKeyOf(text).value);
          UntoldMeaning(log, app, text);
        }
      }
    }
  }

  /** The occurrences of a value in the entries of the given groups. */
  function InGroups(log: seq<Parsed>, app: string, groups: seq<string>, text: string): nat {
    if groups == [] then 0
    else multiset(TextsOf(log, Slot(app, groups[0], MIME, None)))[text] + InGroups(log, app, groups[1..], text)
  }

  lemma {:induction false} InGroupsSnoc(log: seq<Parsed>, p: Parsed, app: string, groups: seq<string>, text: string)
    requires forall i, j :: 0 <= i < j < |groups| ==> groups[i] != groups[j]
    ensures InGroups(log + [p], app, groups, text)
         == InGroups(log, app, groups, text)
            + if p.slot.app == app && ListsTypes(p.slot) && p.slot.group in groups && p.text == text then 1 else 0
  {
    if groups != [] {
      InGroupsSnoc(log, p, app, groups[1..], text);
      assert (log + [p])[..|log|] == log;
      assert groups == [groups[0]] + groups[1..];
    }
  }

  /** The values of an application are those of its groups, taken together. */
  lemma {:induction false} GroupsAddUp(log: seq<Parsed>, app: string, groups: seq<string>, text: string)
    requires forall i, j :: 0 <= i < j < |groups| ==> groups[i] != groups[j]
    requires forall i :: 0 <= i < |log| && log[i].slot.app == app ==> log[i].slot.group in groups
    ensures multiset(TypesOf(log, app))[text] == InGroups(log, app, groups, text)
  {
    hide InGroups;
    if log != [] {
      var n := |log| - 1;
      var rest, p := log[..n], log[n];
      assert forall i :: 0 <= i < n ==> rest[i] == log[i];
      GroupsAddUp(rest, app, groups, text);
      assert log == rest + [p];
      InGroupsSnoc(rest, p, app, groups, text);
      CountOne(TypesOf(rest, app), p.text, p.slot.app == app && ListsTypes(p.slot), text);
    } else {
      NoGroups(app, groups, text);
    }
  }

  lemma {:induction false} NoGroups(app: string, groups: seq<string>, text: string)
    ensures InGroups([], app, groups, text) == 0
  {
    if groups != [] { NoGroups(app, groups[1..], text); }
  }

  // ----- the data of a folder -----

  function Get<K, V>(m: map<K, seq<V>>, k: K): seq<V> {
    if k in m then m[k] else []
  }

  ghost predicate HoldsValues(values: map<Slot, seq<string>>, log: seq<Parsed>) {
    forall slot {:trigger TextsOf(log, slot)} :: Get(values, slot) == TextsOf(log, slot)
  }

  ghost predicate HoldsIndex(asoc: map<MimeKey, seq<string>>, log: seq<Parsed>) {
    forall k {:trigger AppsOf(log, k)} :: Get(asoc, k) == AppsOf(log, k)
  }

  lemma RegularSnoc(log: seq<Parsed>, p: Parsed)
    requires Regular(log) && (p.indexed ==> ListsTypes(p.slot))
    ensures Regular(log + [p])
  {
  }

  lemma ValueAdded(values: map<Slot, seq<string>>, log: seq<Parsed>, p: Parsed)
    requires HoldsValues(values, log)
    ensures HoldsValues(values[p.slot := Get(values, p.slot) + [p.text]], log + [p])
  {
    var r := values[p.slot := Get(values, p.slot) + [p.text]];
    forall slot ensures Get(r, slot) == TextsOf(log + [p], slot) {
      ReadOne(log, p, slot);
    }
  }

  lemma IndexAdded(asoc: map<MimeKey, seq<string>>, log: seq<Parsed>, p: Parsed)
    requires HoldsIndex(asoc, log)
    ensures
      var k := MimeKeyOf(p.text);
      HoldsIndex(if p.indexed && k.Some? then asoc[k.value := Get(asoc, k.value) + [p.slot.app]] else asoc, log + [p])
  {
    forall k { IndexedOne(log, p, k); }
  }

  class AppData {
    var values: map<Slot, seq<string>>
    var asoc: map<MimeKey, seq<string>>
    ghost var log: seq<Parsed>

    constructor ()
      ensures Valid() && log == []
    {
      values, asoc, log := map[], map[], [];
    }

    /** Both maps hold what was read. */
    ghost predicate Valid()
      reads this
    {
      Regular(log) && HoldsValues(values, log) && HoldsIndex(asoc, log)
    }

    /** One value: to the entry, and to the index when it names a type. */
    method AddValue(slot: Slot, text: string, index: bool)
      requires Valid() && (index ==> ListsTypes(slot))
      modifies this
      ensures Valid() && log == old(log) + [Parsed(slot, text, index)]
    {
      ghost var p := Parsed(slot, text, index);
      RegularSnoc(log, p);
      ValueAdded(values, log, p);
      IndexAdded(asoc, log, p);
      values := values[slot := Get(values, slot) + [text]];
      if index {
        var k := MimeKeyOf(text);
        if k.Some? {
          asoc := asoc[k.value := Get(asoc, k.value) + [slot.app]];
        }
      }
      log := log + [p];
    }

    method AddPiece(slot: Slot, text: string, index: bool, ghost was: seq<Parsed>, ghost done: seq<string>)
      requires Valid() && (index ==> ListsTypes(slot)) && log == was + Logged(slot, done, index)
      modifies this
      ensures Valid() && log == was + Logged(slot, done + [text], index)
    {
      LoggedSnoc(slot, done, text, index);
      AddValue(slot, text, index);
    }

    /** `_xdg_app_group_read_entry_value` and, with the index,
        `_xdg_app_group_read_mime_type_entry_value`. */
    method ReadValue(slot: Slot, line: string, index: bool)
      requires Valid() && (index ==> ListsTypes(slot))
      modifies this
      ensures Valid() && log == old(log) + Logged(slot, Pieces(line), index)
    {
      ghost var was, done := log, [];
      var start, sep := 0, 0;
      CutStart(line);
      RunIsPieces(line, 0, 0, []);
      assert was + [] == was;
      while sep < |line| && line[sep] != '\n'
        invariant start <= sep <= |line| && Run(line, start, sep, done) == Pieces(line)
        invariant Valid() && log == was + Logged(slot, done, index)
        decreases |line| - sep
      {
        if line[sep] == ';' {
          AddPiece(slot, line[start..sep], index, was, done);
          done := done + [line[start..sep]];
          start := sep + 1;
        }
        sep := sep + 1;
      }
      if start < |line| && line[start] != '\n' {
        AddPiece(slot, line[start..sep], index, was, done);
      }
    }

    /** `_xdg_app_group_read_entry`. */
    method ReadEntry(app: string, group: string, line: string)
      requires Valid()
      modifies this
      ensures Valid() && log == old(log) + EntryLog(app, group, line)
    {
      assert log + [] == log;
      var kl := KeyLineOf(line);
      if kl.None? { return; }
      var key, text := kl.value.key, kl.value.text;
      if key == MIME { MimeSlot(app, group, key); }
      var i := Index(key, '[');
      if i < |key| {
        var j := Index(key[i + 1..], ']');
        if j < |key[i + 1..]| {
          var locale := LocaleName(key[i + 1..][..j]);
          ReadValue(Slot(app, group, key[..i], Some(locale)), text, false);
        } else {
          ReadValue(Slot(app, group, key[..i], None), text, false);
        }
      } else {
        ReadValue(Slot(app, group, key, None), text, key == MIME);
      }
    }

    /** The locale is cut at its modifier and put together again. */
    method LocaleName(locale: string) returns (buffer: string)
      ensures buffer == locale
    {
      var at := Index(locale, '@');
      buffer := locale[..at];
      if at < |locale| {
        buffer := buffer + "@" + locale[at + 1..];
      }
    }

    /** `_xdg_app_read_desktop_file`. */
    method ReadDesktopFile(app: string, lines: seq<string>)
      requires Valid()
      modifies this
      ensures Valid() && log == old(log) + FileLog(app, None, lines)
    {
      var group, i := None, 0;
      ghost var was, done, all := log, [], FileLog(app, None, lines);
      assert lines[0..] == lines && was + [] == was && [] + all == all;
      while i < |lines|
        invariant 0 <= i <= |lines| && Valid() && log == was + done
        invariant done + FileLog(app, group, lines[i..]) == all
      {
        FileStep(app, group, lines, i, done);
        if !Skipped(lines[i]) {
          if Opens(lines[i]) {
            group := GroupOf(lines[i]);
          } else if group.Some? {
            ReadEntry(app, group.value, lines[i]);
            done := done + EntryLog(app, group.value, lines[i]);
          } else {
            break;
          }
        }
        i := i + 1;
      }
    }
  }

  /** What one line adds, and what is left. */
  lemma FileStep(app: string, group: Option<string>, lines: seq<string>, i: nat, done: seq<Parsed>)
    requires i < |lines|
    ensures
      var rest := done + FileLog(app, group, lines[i..]);
      if Skipped(lines[i]) then rest == done + FileLog(app, group, lines[i + 1..])
      else if Opens(lines[i]) then rest == done + FileLog(app, GroupOf(lines[i]), lines[i + 1..])
      else if group.Some? then rest == (done + EntryLog(app, group.value, lines[i])) + FileLog(app, group, lines[i + 1..])
      else rest == done
  {
    var tail := lines[i..];
    assert tail[0] == lines[i] && tail[1..] == lines[i + 1..];
  }

  lemma ReadOne(log: seq<Parsed>, p: Parsed, slot: Slot)
    ensures TextsOf(log + [p], slot) == if p.slot == slot then TextsOf(log, slot) + [p.text] else TextsOf(log, slot)
  {
    assert (log + [p])[..|log|] == log;
  }

  lemma IndexedOne(log: seq<Parsed>, p: Parsed, k: MimeKey)
    ensures AppsOf(log + [p], k) == if p.indexed && MimeKeyOf(p.text) == Some(k) then AppsOf(log, k) + [p.slot.app] else AppsOf(log, k)
  {
    assert (log + [p])[..|log|] == log;
  }

  lemma LoggedSnoc(slot: Slot, pieces: seq<string>, piece: string, index: bool)
    ensures Logged(slot, pieces + [piece], index) == Logged(slot, pieces, index) + [Parsed(slot, piece, index)]
  {
    assert (pieces + [piece])[..|pieces|] == pieces;
  }

  // ----- runs over many files -----

  /** The line is not an unclosed `MimeType[` key. */
  predicate Closed(line: string) {
    KeyLineOf(line).Some? ==>
      var key := KeyLineOf(line).value.key;
      var i := Index(key, '[');
      i == |key| || ']' in key[i + 1..] || key[..i] != MIME
  }

  datatype DesktopFile = DesktopFile(app: string, lines: seq<string>)

  /** Everything that reading the files in order leaves. */
  function RunLog(files: seq<DesktopFile>): seq<Parsed> {
    if files == [] then []
    else RunLog(files[..|files| - 1]) + FileLog(files[|files| - 1].app, None, files[|files| - 1].lines)
  }

  /** Every type value was told to the index, and only type values were. */
  ghost predicate Told(log: seq<Parsed>) {
    forall p :: p in log ==> (p.indexed <==> ListsTypes(p.slot))
  }

  lemma {:induction false} LoggedTold(slot: Slot, pieces: seq<string>, index: bool)
    requires index <==> ListsTypes(slot)
    ensures Told(Logged(slot, pieces, index))
  {
    if pieces != [] { LoggedTold(slot, pieces[..|pieces| - 1], index); }
  }

  lemma EntryTold(app: string, group: string, line: string)
    requires Closed(line)
    ensures Told(EntryLog(app, group, line))
  {
    if KeyLineOf(line).Some? {
      var kl := KeyLineOf(line).value;
      if kl.key == MIME { MimeSlot(app, group, kl.key); }
      LoggedTold(SlotOf(app, group, kl.key), Pieces(kl.text), kl.key == MIME);
    }
  }

  lemma {:induction false} FileTold(app: string, group: Option<string>, lines: seq<string>)
    requires forall i :: 0 <= i < |lines| ==> Closed(lines[i])
    ensures Told(FileLog(app, group, lines))
    decreases |lines|
  {
    if lines != [] {
      forall g { FileTold(app, g, lines[1..]); }
      if group.Some? { EntryTold(app, group.value, lines[0]); }
    }
  }

  /** After reading any files without an unclosed `MimeType[` key, the index is
      the inverse of the values: each application stands under each well-formed
      type as often as its groups list it, in the order read. */
  lemma {:induction false} RunTold(files: seq<DesktopFile>)
    requires forall i, j :: 0 <= i < |files| && 0 <= j < |files[i].lines| ==> Closed(files[i].lines[j])
    ensures Told(RunLog(files))
  {
    if files != [] {
      var n := |files| - 1;
      RunTold(files[..n]);
      FileTold(files[n].app, None, files[n].lines);
    }
  }

  lemma RunInverse(files: seq<DesktopFile>, app: string)
    requires forall i, j :: 0 <= i < |files| && 0 <= j < |files[i].lines| ==> Closed(files[i].lines[j])
    ensures Inverse(RunLog(files), app)
  {
    RunTold(files);
    var log := RunLog(files);
    assert forall i :: 0 <= i < |log| ==> log[i] in log;
    InverseExact(log, app);
  }

  // ----- exactly when, on the lines of the files -----

  predicate NamesType(pieces: seq<string>) {
    exists i :: 0 <= i < |pieces| && MimeKeyOf(pieces[i]).Some?
  }

  /** An unclosed `MimeType[` key with a value that names a type. */
  predicate Stray(line: string) {
    match KeyLineOf(line)
    case None => false
    case Some(kl) =>
      var i := Index(kl.key, '[');
      i < |kl.key| && ']' !in kl.key[i + 1..] && kl.key[..i] == MIME && NamesType(Pieces(kl.text))
  }

  predicate IsEntry(line: string) {
    !Skipped(line) && !Opens(line)
  }

  /** The group that is open after a line. */
  function NextGroup(group: Option<string>, line: string): Option<string> {
    if Opens(line) then GroupOf(line) else group
  }

  /** The group that is open before line `j`. */
  function GroupBefore(group: Option<string>, lines: seq<string>, j: nat): Option<string>
    requires j <= |lines|
    decreases j
  {
    if j == 0 then group else GroupBefore(NextGroup(group, lines[0]), lines[1..], j - 1)
  }

  /** Line `j` is read as an entry: it and every entry line before it stand in an open group. */
  predicate ReadsEntry(group: Option<string>, lines: seq<string>, j: nat) {
    && j < |lines| && IsEntry(lines[j])
    && forall i :: 0 <= i <= j && IsEntry(lines[i]) ==> GroupBefore(group, lines, i).Some?
  }

  /** Some line that is read as an entry gives a type to the values and not to the index. */
  ghost predicate HasStray(group: Option<string>, lines: seq<string>) {
    exists j: nat :: ReadsEntry(group, lines, j) && Stray(lines[j])
  }

  /** A value of `app` that names a type and was not told to the index. */
  predicate Lost(p: Parsed, app: string) {
    p.slot.app == app && ListsTypes(p.slot) && !p.indexed && MimeKeyOf(p.text).Some?
  }

  ghost predicate Loses(log: seq<Parsed>, app: string) {
    exists i :: 0 <= i < |log| && Lost(log[i], app)
  }

  lemma LosesParts(a: seq<Parsed>, b: seq<Parsed>, app: string)
    ensures Loses(a + b, app) <==> Loses(a, app) || Loses(b, app)
  {
    var s := a + b;
    if i :| 0 <= i < |a| && Lost(a[i], app) { assert s[i] == a[i]; }
    if i :| 0 <= i < |b| && Lost(b[i], app) { assert s[|a| + i] == b[i]; }
    if i :| 0 <= i < |s| && Lost(s[i], app) { assert if i < |a| then s[i] == a[i] else s[i] == b[i - |a|]; }
  }

  lemma {:induction false} LoggedLoses(slot: Slot, pieces: seq<string>, index: bool, app: string)
    ensures Loses(Logged(slot, pieces, index), app) <==> slot.app == app && ListsTypes(slot) && !index && NamesType(pieces)
  {
    if pieces != [] {
      var n := |pieces| - 1;
      var p := Parsed(slot, pieces[n], index);
      LoggedLoses(slot, pieces[..n], index, app);
      LosesParts(Logged(slot, pieces[..n], index), [p], app);
      assert Lost([p][0], app) ==> Loses([p], app);
      assert NamesType(pieces) <==> NamesType(pieces[..n]) || MimeKeyOf(pieces[n]).Some? by {
        if i :| 0 <= i < n && MimeKeyOf(pieces[..n][i]).Some? { assert pieces[i] == pieces[..n][i]; }
        if i :| 0 <= i <= n && MimeKeyOf(pieces[i]).Some? { assert i < n ==> pieces[i] == pieces[..n][i]; }
      }
    }
  }

  lemma EntryLoses(app: string, group: string, line: string, other: string)
    ensures Loses(EntryLog(app, group, line), other) <==> app == other && Stray(line)
  {
    if KeyLineOf(line).Some? {
      var kl := KeyLineOf(line).value;
      if kl.key == MIME { MimeSlot(app, group, kl.key); }
      LoggedLoses(SlotOf(app, group, kl.key), Pieces(kl.text), kl.key == MIME, other);
    }
  }

  /** Which entry lines are read, one line on. */
  lemma ReadsNext(group: Option<string>, lines: seq<string>, j: nat)
    requires lines != []
    ensures ReadsEntry(group, lines, j + 1) <==>
      (IsEntry(lines[0]) ==> group.Some?) && ReadsEntry(NextGroup(group, lines[0]), lines[1..], j)
  {
    var g, rest := NextGroup(group, lines[0]), lines[1..];
    if ReadsEntry(group, lines, j + 1) {
      assert GroupBefore(group, lines, 0) == group;
      forall i | 0 <= i <= j && IsEntry(rest[i]) ensures GroupBefore(g, rest, i).Some? {
        assert rest[i] == lines[i + 1] && GroupBefore(group, lines, i + 1) == GroupBefore(g, rest, i);
      }
    }
    if (IsEntry(lines[0]) ==> group.Some?) && ReadsEntry(g, rest, j) {
      forall i | 0 <= i <= j + 1 && IsEntry(lines[i]) ensures GroupBefore(group, lines, i).Some? {
        if i > 0 { assert rest[i - 1] == lines[i] && GroupBefore(group, lines, i) == GroupBefore(g, rest, i - 1); }
      }
    }
  }

  lemma HasStrayNext(group: Option<string>, lines: seq<string>)
    requires lines != []
    ensures HasStray(group, lines) <==>
      (IsEntry(lines[0]) ==> group.Some?)
      && ((IsEntry(lines[0]) && Stray(lines[0])) || HasStray(NextGroup(group, lines[0]), lines[1..]))
  {
    var g, rest := NextGroup(group, lines[0]), lines[1..];
    if HasStray(group, lines) {
      var j: nat :| ReadsEntry(group, lines, j) && Stray(lines[j]);
      if j > 0 {
        ReadsNext(group, lines, j - 1);
        assert rest[j - 1] == lines[j];
      } else {
        assert GroupBefore(group, lines, 0) == group;
      }
    }
    if IsEntry(lines[0]) && group.Some? && Stray(lines[0]) {
      assert ReadsEntry(group, lines, 0) by { assert GroupBefore(group, lines, 0) == group; }
    }
    if (IsEntry(lines[0]) ==> group.Some?) && HasStray(g, rest) {
      var j: nat :| ReadsEntry(g, rest, j) && Stray(rest[j]);
      ReadsNext(group, lines, j);
      assert rest[j] == lines[j + 1];
    }
  }

  lemma {:induction false} FileLoses(app: string, group: Option<string>, lines: seq<string>, other: string)
    ensures Loses(FileLog(app, group, lines), other) <==> app == other && HasStray(group, lines)
    decreases |lines|
  {
    if lines != [] {
      var line, g, rest := lines[0], NextGroup(group, lines[0]), lines[1..];
      HasStrayNext(group, lines);
      FileLoses(app, g, rest, other);
      if IsEntry(line) && group.Some? {
        EntryLoses(app, group.value, line, other);
        LosesParts(EntryLog(app, group.value, line), FileLog(app, group, rest), other);
      }
    }
  }

  lemma {:induction false} RunLoses(files: seq<DesktopFile>, app: string)
    ensures Loses(RunLog(files), app) <==> exists f :: 0 <= f < |files| && files[f].app == app && HasStray(None, files[f].lines)
  {
    if files != [] {
      var n := |files| - 1;
      RunLoses(files[..n], app);
      FileLoses(files[n].app, None, files[n].lines, app);
      LosesParts(RunLog(files[..n]), FileLog(files[n].app, None, files[n].lines), app);
      assert forall f :: 0 <= f < n ==> files[..n][f] == files[f];
    }
  }

  lemma {:induction false} RunRegular(files: seq<DesktopFile>)
    ensures Regular(RunLog(files))
  {
    if files != [] {
      var n := |files| - 1;
      RunRegular(files[..n]);
      FileRegular(files[n].app, None, files[n].lines);
    }
  }

  lemma {:induction false} FileRegular(app: string, group: Option<string>, lines: seq<string>)
    ensures Regular(FileLog(app, group, lines))
    decreases |lines|
  {
    if lines != [] {
      FileRegular(app, NextGroup(group, lines[0]), lines[1..]);
      if group.Some? { EntryRegular(app, group.value, lines[0]); }
    }
  }

  lemma EntryRegular(app: string, group: string, line: string)
    ensures Regular(EntryLog(app, group, line))
  {
    if KeyLineOf(line).Some? {
      var kl := KeyLineOf(line).value;
      if kl.key == MIME { MimeSlot(app, group, kl.key); }
      LoggedRegular(SlotOf(app, group, kl.key), Pieces(kl.text), kl.key == MIME);
    }
  }

  lemma {:induction false} LoggedRegular(slot: Slot, pieces: seq<string>, index: bool)
    requires index ==> ListsTypes(slot)
    ensures Regular(Logged(slot, pieces, index))
  {
    if pieces != [] { LoggedRegular(slot, pieces[..|pieces| - 1], index); }
  }

  /** After reading any files, the index is the inverse of the values of an application exactly when
      no file of the application has, inside an open group and before reading stops, an unclosed
      `MimeType[` key with a value that names a type. */
  lemma RunInverseExact(files: seq<DesktopFile>, app: string)
    ensures Inverse(RunLog(files), app)
       <==> forall f :: 0 <= f < |files| && files[f].app == app ==> !HasStray(None, files[f].lines)
  {
    RunRegular(files);
    RunLoses(files, app);
    InverseExact(RunLog(files), app);
    assert AllTold(RunLog(files), app) <==> !Loses(RunLog(files), app);
  }

  lemma KeyLineParts(line: string, key: string, text: string)
    requires line == key + "=" + text && key != [] && '=' !in key && key[|key| - 1] != ' ' && text != [] && text[0] != ' '
    ensures KeyLineOf(line) == Some(KeyLine(key, text))
  {
    IndexIs(line, '=', |key|);
    assert line[..|key|] == key && line[|key| + 1..] == text;
  }

  lemma OnePiece(text: string, type_: string)
    requires text == type_ + ";\n" && ';' !in type_ && '\n' !in type_ && MimeKeyOf(type_).Some?
    ensures NamesType(Pieces(text))
  {
    IndexIs(text, '\n', |type_| + 1);
    var body := Body(text);
    SplitAt(body, |type_|);
    assert body[..|type_|] == type_;
    assert Pieces(text)[0] == type_;
  }

  lemma StrayShape(line: string, name: string, x: string, type_: string)
    requires line == (name + "[" + x) + "=" + (type_ + ";\n") && name == MIME
    requires x != [] && '=' !in x && ']' !in x && x[|x| - 1] != ' '
    requires ';' !in type_ && '\n' !in type_ && type_ != [] && type_[0] != ' ' && MimeKeyOf(type_).Some?
    ensures Stray(line)
  {
    var key, text := name + "[" + x, type_ + ";\n";
    KeyLineParts(line, key, text);
    OnePiece(text, type_);
    OpenBracket(key, name, x);
  }

  lemma OpenBracket(key: string, name: string, x: string)
    requires key == name + "[" + x && name == MIME && ']' !in x
    ensures var i := Index(key, '['); i < |key| && key[..i] == name && ']' !in key[i + 1..]
  {
    IndexIs(key, '[', |name|);
    assert key[..|name|] == name && key[|name| + 1..] == x;
  }

  /** A file with such a line, after which an entry lists a type and the index does not know of it. */
  lemma StrayFile(app: string, header: string, line: string)
    requires Opens(header) && GroupOf(header).Some? && Stray(line) && IsEntry(line)
    ensures !Inverse(RunLog([DesktopFile(app, [header, line])]), app)
  {
    var lines, files := [header, line], [DesktopFile(app, [header, line])];
    assert GroupBefore(None, lines, 1) == GroupBefore(GroupOf(header), lines[1..], 0);
    assert ReadsEntry(None, lines, 1);
    assert files[0].app == app && HasStray(None, files[0].lines);
    RunInverseExact(files, app);
  }

  lemma StrayWitness(app: string, header: string, line: string)
    requires header == "[G]\n" && line == "MimeType[x=t/p;\n"
    ensures !Inverse(RunLog([DesktopFile(app, [header, line])]), app)
  {
    hide Stray, RunLog, Inverse;
    StrayParts(line, "x", "t/p");
    IndexIs(header, ']', 2);
    StrayFile(app, header, line);
  }

  lemma StrayParts(line: string, x: string, type_: string)
    requires line == "MimeType[x=t/p;\n" && x == "x" && type_ == "t/p"
    ensures Stray(line)
  {
    IndexIs(type_, '/', 1);
    assert line == (MIME + "[" + x) + "=" + (type_ + ";\n");
    StrayShape(line, MIME, x, type_);
  }

  /** The two maps after a run hold that log. */
  method ReadFiles(files: seq<DesktopFile>) returns (data: AppData)
    ensures data.Valid() && data.log == RunLog(files)
  {
    data := new AppData();
    assert files[..0] == [];
    for i := 0 to |files|
      invariant data.Valid() && data.log == RunLog(files[..i]) && fresh(data)
    {
      assert files[..i + 1][..i] == files[..i];
      data.ReadDesktopFile(files[i].app, files[i].lines);
    }
    assert files[..|files|] == files;
  }
}
