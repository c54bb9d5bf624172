/** The parent list: subclass files grouped by type, sorted, and searched. */
module MimeParents {
  import opened CStrings
  import opened MimeTypes
  import opened TextFiles

  /** One type with its parents, in the order of the lines. */
  datatype Entry = Entry(mime: string, parents: seq<string>)

  datatype Pair = Pair(mime: string, parent: string)

  /** The buffer that lines are read into. */
  const LINE := 255

  function DropLast(s: string): string {
    if s == [] then [] else s[..|s| - 1]
  }

  /** What a line says: comments and lines without a space say nothing, and the
      last character, the newline, is dropped. */
  function PairOf(line: string): Option<Pair> {
    var i := Index(line, ' ');
    if (line != [] && line[0] == '#') || i == |line| then None
    else Some(Pair(line[..i], DropLast(line[i + 1..])))
  }

  /** The parents the lines give a type, in order. */
  function ParentsIn(lines: seq<string>, mime: string): seq<string> {
    if lines == [] then []
    else
      var p := PairOf(lines[|lines| - 1]);
      ParentsIn(lines[..|lines| - 1], mime) + if p.Some? && p.value.mime == mime then [p.value.parent] else []
  }

  // ----- files that are written line by line -----

  /** A comment, a line without a space, or a type with a parent. */
  datatype Line = Comment(text: string) | Silent(text: string) | Says(mime: string, parent: string)

  function LineText(l: Line): string {
    match l
    case Comment(text) => "#" + text + "\n"
    case Silent(text) => text + "\n"
    case Says(mime, parent) => mime + " " + parent + "\n"
  }

  predicate Printable(l: Line) {
    match l
    case Comment(text) => '\n' !in text && |text| < 253
    case Silent(text) => ' ' !in text && '\n' !in text && |text| < 254
    case Says(mime, parent) => mime != "" && mime[0] != '#' && ' ' !in mime && '\n' !in mime && '\n' !in parent && |mime| + |parent| < 253
  }

  /** A line says what was written: the type in front of the space, the parent behind it. */
  lemma PairReadBack(l: Line)
    requires Printable(l)
    ensures PairOf(LineText(l)) == if l.Says? then Some(Pair(l.mime, l.parent)) else None
  {
    var line := LineText(l);
    match l
    case Comment(text) =>
      assert line[0] == '#';
    case Silent(text) =>
      assert forall i :: 0 <= i < |line| ==> line[i] != ' ';
    case Says(mime, parent) =>
      IndexIs(line, ' ', |mime|);
      assert line[0] == mime[0];
      assert line[..|mime|] == mime && line[|mime| + 1..] == parent + "\n";
      assert (parent + "\n")[..|parent|] == parent;
  }

  function Texts(ls: seq<Line>): (r: seq<string>)
    ensures |r| == |ls| && forall i :: 0 <= i < |ls| ==> r[i] == LineText(ls[i])
  {
    seq(|ls|, i requires 0 <= i < |ls| => LineText(ls[i]))
  }

  /** The parents that the lines name for a type, in order. */
  function Said(ls: seq<Line>, mime: string): seq<string> {
    if ls == [] then []
    else
      var l := ls[|ls| - 1];
      Said(ls[..|ls| - 1], mime) + if l.Says? && l.mime == mime then [l.parent] else []
  }

  lemma {:induction false} SaidIsIn(ls: seq<Line>, mime: string)
    requires forall i :: 0 <= i < |ls| ==> Printable(ls[i])
    ensures ParentsIn(Texts(ls), mime) == Said(ls, mime)
  {
    if ls != [] {
      var n := |ls| - 1;
      SaidIsIn(ls[..n], mime);
      assert Texts(ls)[..n] == Texts(ls[..n]);
      PairReadBack(ls[n]);
    }
  }

  /** A file that was written so gives every type the parents written behind it. */
  lemma FileSays(ls: seq<Line>, mime: string)
    requires forall i :: 0 <= i < |ls| ==> Printable(ls[i])
    ensures ParentsIn(Fgets(Joined(Texts(ls)), LINE), mime) == Said(ls, mime)
  {
    forall i | 0 <= i < |ls| ensures IsLine(Texts(ls)[i], LINE) {
      LineIs(ls[i]);
    }
    LinesOfText(Texts(ls), LINE);
    SaidIsIn(ls, mime);
  }

  lemma LineIs(l: Line)
    requires Printable(l)
    ensures IsLine(LineText(l), LINE)
  {
  }

  // ----- entries -----

  ghost predicate DistinctTypes(es: seq<Entry>) {
    forall i, j :: 0 <= i < j < |es| ==> es[i].mime != es[j].mime
  }

  /** The parents an entry list gives a type. */
  function Find(es: seq<Entry>, mime: string): seq<string> {
    if es == [] then [] else if es[0].mime == mime then es[0].parents else Find(es[1..], mime)
  }

  /** No type stands twice, and each type has the parents of the lines. */
  ghost predicate Groups(es: seq<Entry>, lines: seq<string>) {
    && DistinctTypes(es)
    && (forall i :: 0 <= i < |es| ==> es[i].parents == ParentsIn(lines, es[i].mime) != [])
    && (forall mime :: ParentsIn(lines, mime) != [] ==> exists i :: 0 <= i < |es| && es[i].mime == mime)
  }

  lemma {:induction false} FindIn(es: seq<Entry>, i: nat)
    requires DistinctTypes(es) && i < |es|
    ensures Find(es, es[i].mime) == es[i].parents
  {
    if i > 0 { FindIn(es[1..], i - 1); }
  }

  lemma {:induction false} FindNone(es: seq<Entry>, mime: string)
    requires forall i :: 0 <= i < |es| ==> es[i].mime != mime
    ensures Find(es, mime) == []
  {
    if es != [] { FindNone(es[1..], mime); }
  }

  /** Grouping loses nothing: each type is found with its parents in line order. */
  lemma GroupsFind(es: seq<Entry>, lines: seq<string>, mime: string)
    requires Groups(es, lines)
    ensures Find(es, mime) == ParentsIn(lines, mime)
  {
    if i :| 0 <= i < |es| && es[i].mime == mime {
      FindIn(es, i);
    } else {
      FindNone(es, mime);
    }
  }

  // ----- the order -----

  ghost predicate Sorted(es: seq<Entry>) {
    forall i, j :: 0 <= i < j < |es| ==> Less(es[i].mime, es[j].mime)
  }

  function Placed(es: seq<Entry>, e: Entry): seq<Entry> {
    if es == [] || Less(e.mime, es[0].mime) then [e] + es else [es[0]] + Placed(es[1..], e)
  }

  /** The order of the names, as `qsort` leaves it. */
  function ByName(es: seq<Entry>): seq<Entry> {
    if es == [] then [] else Placed(ByName(es[..|es| - 1]), es[|es| - 1])
  }

  lemma {:induction false} PlacedMeaning(es: seq<Entry>, e: Entry)
    requires Sorted(es) && forall x :: x in es ==> x.mime != e.mime
    ensures Sorted(Placed(es, e))
    ensures forall x :: x in Placed(es, e) <==> x in es || x == e
  {
    if es != [] {
      assert es == [es[0]] + es[1..];
      LessTotal(e.mime, es[0].mime);
      if Less(e.mime, es[0].mime) {
        forall j | 0 <= j < |es| ensures Less(e.mime, es[j].mime) {
          if j > 0 { LessTransitive(e.mime, es[0].mime, es[j].mime); }
        }
      } else {
        PlacedMeaning(es[1..], e);
        var r := Placed(es[1..], e);
        forall j | 0 <= j < |r| ensures Less(es[0].mime, r[j].mime) {
          assert r[j] in r;
          if r[j] != e {
            var k :| 0 <= k < |es| - 1 && es[1..][k] == r[j];
            assert es[k + 1] == r[j];
          }
        }
      }
    }
  }

  lemma {:induction false} ByNameMeaning(es: seq<Entry>)
    requires DistinctTypes(es)
    ensures Sorted(ByName(es))
    ensures forall x :: x in ByName(es) <==> x in es
  {
    if es != [] {
      var was, last := es[..|es| - 1], es[|es| - 1];
      ByNameMeaning(was);
      assert es == was + [last];
      forall x | x in ByName(was) ensures x.mime != last.mime {
        var k :| 0 <= k < |was| && was[k] == x;
        assert es[k] == x;
      }
      PlacedMeaning(ByName(was), last);
    }
  }

  lemma GroupsSorted(es: seq<Entry>, lines: seq<string>)
    requires Groups(es, lines)
    ensures Groups(ByName(es), lines) && Sorted(ByName(es))
  {
    ByNameMeaning(es);
    var r := ByName(es);
    forall i, j | 0 <= i < j < |r| ensures r[i].mime != r[j].mime {
      LessTotal(r[i].mime, r[j].mime);
    }
    forall i | 0 <= i < |r| ensures r[i].parents == ParentsIn(lines, r[i].mime) != [] {
      assert r[i] in es;
      var k :| 0 <= k < |es| && es[k] == r[i];
    }
    forall mime | ParentsIn(lines, mime) != [] ensures exists i :: 0 <= i < |r| && r[i].mime == mime {
      var k :| 0 <= k < |es| && es[k].mime == mime;
      assert es[k] in r;
      var i :| 0 <= i < |r| && r[i] == es[k];
    }
  }

  // ----- the list -----

  /** The entry gets one more parent. */
  function WithParent(es: seq<Entry>, i: nat, parent: string): seq<Entry>
    requires i < |es|
  {
    es[i := es[i].(parents := es[i].parents + [parent])]
  }

  class ParentList {
    /** The first `count` places are in use. */
    var table: array<Entry>
    var count: nat
    /** The lines read so far, of all files. */
    ghost var lines: seq<string>

    constructor ()
      ensures Valid() && lines == []
    {
      table, count, lines := new Entry[0], 0, [];
    }

    ghost predicate Holds(lines: seq<string>)
      reads this, table
    {
      count <= table.Length && Groups(table[..count], lines)
    }

    /** Sorted and grouped. */
    ghost predicate Valid()
      reads this, table
    {
      Holds(lines) && Sorted(table[..count])
    }

    /** `realloc`: the entries move to a table of another size. */
    method Resize(size: nat)
      requires count <= table.Length && count <= size
      modifies this`table
      ensures fresh(table) && table.Length == size && table[..count] == old(table[..count])
    {
      var was := table;
      table := new Entry[size](i => Entry("", []));
      for i := 0 to count
        invariant fresh(table) && table.Length == size && table[..i] == was[..i]
      {
        table[i] := was[i];
      }
    }

    /** The place of the type, or the number of types. */
    method IndexOf(mime: string) returns (i: nat)
      requires count <= table.Length
      ensures i <= count && (i < count ==> table[i].mime == mime)
      ensures forall j :: 0 <= j < i ==> table[j].mime != mime
    {
      i := 0;
      while i < count && StrCmp(table[i].mime, mime) != 0
        invariant 0 <= i <= count
        invariant forall j :: 0 <= j < i ==> table[j].mime != mime
      {
        StrCmpZero(table[i].mime, mime);
        i := i + 1;
      }
      if i < count { StrCmpZero(table[i].mime, mime); }
    }

    /** One line of a file: the entry of the type grows, or a new one is made, in a table of twice the
        size when there is no place left. */
    method AddLine(line: string, ghost was: seq<string>)
      requires Holds(was) && table.Length > 0
      modifies this`table, this`count, table
      ensures Holds(was + [line]) && table.Length > 0 && (table == old(table) || fresh(table))
    {
      var p := PairOf(line);
      if p.None? {
        Ignored(table[..count], was, line);
        return;
      }
      var i := IndexOf(p.value.mime);
      if i < count {
        AddParent(i, p.value.parent, line, was);
      } else {
        AddEntry(p.value, line, was);
      }
    }

    method AddParent(i: nat, parent: string, line: string, ghost was: seq<string>)
      requires Holds(was) && i < count && PairOf(line) == Some(Pair(table[i].mime, parent))
      modifies table
      ensures Holds(was + [line])
    {
      Grown(table[..count], was, line, i);
      ghost var es := table[..count];
      table[i] := table[i].(parents := table[i].parents + [parent]);
      assert table[..count] == WithParent(es, i, parent);
    }

    method AddEntry(p: Pair, line: string, ghost was: seq<string>)
      requires Holds(was) && table.Length > 0 && PairOf(line) == Some(p) && forall j :: 0 <= j < count ==> table[j].mime != p.mime
      modifies this`table, this`count, table
      ensures Holds(was + [line]) && table.Length > 0 && (table == old(table) || fresh(table))
    {
      ghost var es := table[..count];
      Added(es, was, line);
      if count == table.Length {
        Resize(2 * table.Length);
      }
      table[count] := Entry(p.mime, [p.parent]);
      count := count + 1;
      assert table[..count] == es + [Entry(p.mime, [p.parent])];
    }

    /** `qsort` by the names of the types. */
    method Qsort()
      requires count == table.Length
      modifies table
      ensures table[..count] == ByName(old(table[..count]))
    {
      var es := ByName(table[..count]);
      ByNameLength(table[..count]);
      forall i | 0 <= i < table.Length { table[i] := es[i]; }
    }

    /** `_xdg_mime_parent_read_from_file`. */
    method ReadFile(text: string)
      requires Valid()
      modifies this, table
      ensures Valid() && lines == old(lines) + Fgets(text, LINE) && (table == old(table) || fresh(table))
    {
      hide Groups, Sorted, ByName, Fgets;
      ghost var was := lines;
      var file := Fgets(text, LINE);
      Resize(count + 16);
      assert was + file[..0] == was;
      for i := 0 to |file|
        invariant Holds(was + file[..i]) && table.Length > 0 && fresh(table)
      {
        AddLine(file[i], was + file[..i]);
        assert was + file[..i + 1] == was + file[..i] + [file[i]];
      }
      assert file[..|file|] == file;
      GroupsSorted(table[..count], was + file);
      Resize(count);
      if count > 1 {
        Qsort();
      } else {
        OneSorted(table[..count]);
      }
      lines := was + file;
    }

    /** `_xdg_mime_parent_list_lookup`, with the search in halves. */
    method Lookup(mime: string) returns (parents: seq<string>)
      requires Valid()
      ensures parents == ParentsIn(lines, mime)
    {
      ghost var es := table[..count];
      GroupsFind(es, lines, mime);
      var lo, hi := 0, count;
      while lo < hi
        invariant 0 <= lo <= hi <= count
        invariant forall i :: 0 <= i < lo || hi <= i < count ==> es[i].mime != mime
      {
        var mid := (lo + hi) / 2;
        var c := StrCmp(mime, table[mid].mime);
        Halves(es, mid, mime);
        if c == 0 {
          FindIn(es, mid);
          return table[mid].parents;
        } else if c < 0 {
          hi := mid;
        } else {
          lo := mid + 1;
        }
      }
      FindNone(es, mime);
      parents := [];
    }
  }

  lemma {:induction false} ByNameLength(es: seq<Entry>)
    ensures |ByName(es)| == |es|
  {
    if es != [] {
      ByNameLength(es[..|es| - 1]);
      PlacedLength(ByName(es[..|es| - 1]), es[|es| - 1]);
    }
  }

  lemma {:induction false} PlacedLength(es: seq<Entry>, e: Entry)
    ensures |Placed(es, e)| == |es| + 1
  {
    if es != [] { PlacedLength(es[1..], e); }
  }

  lemma OneSorted(es: seq<Entry>)
    requires |es| <= 1
    ensures ByName(es) == es
  {
    if |es| == 1 { assert es[..0] == [] && es == [es[0]]; }
  }

  lemma Halves(es: seq<Entry>, mid: nat, mime: string)
    requires Sorted(es) && mid < |es|
    ensures StrCmp(mime, es[mid].mime) == 0 <==> mime == es[mid].mime
    ensures StrCmp(mime, es[mid].mime) < 0 ==> forall i :: mid <= i < |es| ==> es[i].mime != mime
    ensures StrCmp(mime, es[mid].mime) > 0 ==> forall i :: 0 <= i <= mid ==> es[i].mime != mime
  {
    StrCmpZero(mime, es[mid].mime);
    StrCmpFlip(es[mid].mime, mime);
    forall i | 0 <= i < |es| && es[i].mime == mime && i != mid
      ensures if i < mid then StrCmp(mime, es[mid].mime) < 0 else StrCmp(mime, es[mid].mime) > 0
    {
      if i > mid { assert Less(es[mid].mime, es[i].mime); }
    }
  }

  lemma LineAdded(lines: seq<string>, line: string, mime: string)
    ensures ParentsIn(lines + [line], mime)
         == if PairOf(line).Some? && PairOf(line).value.mime == mime
            then ParentsIn(lines, mime) + [PairOf(line).value.parent] else ParentsIn(lines, mime)
  {
    assert (lines + [line])[..|lines|] == lines;
  }

  lemma Ignored(es: seq<Entry>, lines: seq<string>, line: string)
    requires Groups(es, lines) && PairOf(line).None?
    ensures Groups(es, lines + [line])
  {
    forall mime { LineAdded(lines, line, mime); }
  }

  lemma Grown(es: seq<Entry>, lines: seq<string>, line: string, i: nat)
    requires Groups(es, lines) && PairOf(line).Some? && i < |es| && es[i].mime == PairOf(line).value.mime
    ensures Groups(WithParent(es, i, PairOf(line).value.parent), lines + [line])
  {
    forall mime { LineAdded(lines, line, mime); }
    hide PairOf, ParentsIn;
    var r := WithParent(es, i, PairOf(line).value.parent);
    forall mime | ParentsIn(lines + [line], mime) != [] ensures exists k :: 0 <= k < |r| && r[k].mime == mime {
      if mime != es[i].mime {
        var k :| 0 <= k < |es| && es[k].mime == mime;
        assert r[k].mime == mime;
      } else {
        assert r[i].mime == mime;
      }
    }
  }

  lemma Added(es: seq<Entry>, lines: seq<string>, line: string)
    requires Groups(es, lines) && PairOf(line).Some? && forall j :: 0 <= j < |es| ==> es[j].mime != PairOf(line).value.mime
    ensures Groups(es + [Entry(PairOf(line).value.mime, [PairOf(line).value.parent])], lines + [line])
  {
    forall mime { LineAdded(lines, line, mime); }
    hide PairOf, ParentsIn;
    var p := PairOf(line).value;
    var r, all := es + [Entry(p.mime, [p.parent])], lines + [line];
    assert ParentsIn(lines, p.mime) == [] && [] + [p.parent] == [p.parent];
    forall i | 0 <= i < |r| ensures r[i].parents == ParentsIn(all, r[i].mime) != [] {
      assert i < |es| ==> r[i] == es[i];
    }
    forall mime | ParentsIn(all, mime) != [] ensures exists k :: 0 <= k < |r| && r[k].mime == mime {
      if mime != p.mime {
        var k :| 0 <= k < |es| && es[k].mime == mime;
        assert r[k].mime == mime;
      } else {
        assert r[|es|].mime == mime;
      }
    }
  }
}
