/** Lines of desktop files and list files, cut as the parsers cut them. */
module AppLines {
  import opened CStrings
  import opened Sequences
  import opened MimeTypes

  /** The text before the newline. */
  function Body(line: string): string {
    line[..Index(line, '\n')]
  }

  /** The pieces between semicolons; nothing after the last one is no piece. */
  function Split(s: string): seq<string>
    decreases |s|
  {
    if s == [] then []
    else
      var i := Index(s, ';');
      if i == |s| then [s] else [s[..i]] + Split(s[i + 1..])
  }

  function Pieces(text: string): seq<string> {
    Split(Body(text))
  }

  /** `REMOVE_WHITE_SPACES_LEFT`: blanks before the equals sign go, except at the very start. */
  function TrimEnd(key: string): (r: string)
    ensures r <= key
  {
    if |key| > 1 && key[|key| - 1] == ' ' then TrimEnd(key[..|key| - 1]) else key
  }

  /** `REMOVE_WHITE_SPACES_RIGHT`. */
  function TrimStart(s: string): string {
    if s != [] && s[0] == ' ' then TrimStart(s[1..]) else s
  }

  /** A line `key = text`, if it has an equals sign. */
  datatype KeyLine = KeyLine(key: string, text: string)

  function KeyLineOf(line: string): Option<KeyLine> {
    var i := Index(line, '=');
    if i == |line| then None else Some(KeyLine(TrimEnd(line[..i]), TrimStart(line[i + 1..])))
  }

  function Blanks(n: nat): (s: string)
    ensures |s| == n && forall i :: 0 <= i < n ==> s[i] == ' '
  {
    seq(n, _ => ' ')
  }

  lemma {:induction false} TrimEndBlanks(key: string, n: nat)
    requires key != [] && key[|key| - 1] != ' '
    ensures TrimEnd(key + Blanks(n)) == key
  {
    var s := key + Blanks(n);
    if n == 0 {
      assert s == key;
    } else {
      assert s[..|s| - 1] == key + Blanks(n - 1) && s[|s| - 1] == ' ';
      TrimEndBlanks(key, n - 1);
    }
  }

  lemma {:induction false} TrimStartBlanks(n: nat, s: string)
    requires s == [] || s[0] != ' '
    ensures TrimStart(Blanks(n) + s) == s
  {
    var t := Blanks(n) + s;
    if n == 0 {
      assert t == s;
    } else {
      assert t[1..] == Blanks(n - 1) + s && t[0] == ' ';
      TrimStartBlanks(n - 1, s);
    }
  }

  /** The key is what stands before the first equals sign, the text what stands behind it, without the blanks
      around the sign. */
  lemma KeyLineMeaning(key: string, n: nat, m: nat, text: string)
    requires '=' !in key && key != [] && key[|key| - 1] != ' ' && (text == [] || text[0] != ' ')
    ensures KeyLineOf(key + Blanks(n) + "=" + (Blanks(m) + text)) == Some(KeyLine(key, text))
  {
    var left, right := key + Blanks(n), Blanks(m) + text;
    var line := left + "=" + right;
    IndexIs(line, '=', |left|);
    assert line[..|left|] == left && line[|left| + 1..] == right;
    TrimEndBlanks(key, n);
    TrimStartBlanks(m, text);
  }

  /** A type and a sub-type around the first slash. */
  datatype MimeKey = MimeKey(type_: string, subtype: string)

  /** `_xdg_mime_sub_type_add`: nothing without a slash or without a sub-type. */
  function MimeKeyOf(name: string): (r: Option<MimeKey>)
    ensures r.Some? ==> '/' !in r.value.type_ && r.value.subtype != [] && r.value.subtype[0] != '\n'
                        && name == r.value.type_ + "/" + r.value.subtype
  {
    var i := Index(name, '/');
    if i == |name| || i + 1 == |name| || name[i + 1] == '\n' then None
    else
      assert name == name[..i] + "/" + name[i + 1..];
      Some(MimeKey(name[..i], name[i + 1..]))
  }

  /** Only the type itself is split off its name. */
  lemma MimeKeyExact(k: MimeKey)
    requires '/' !in k.type_ && k.subtype != [] && k.subtype[0] != '\n'
    ensures MimeKeyOf(k.type_ + "/" + k.subtype) == Some(k)
  {
    var name := k.type_ + "/" + k.subtype;
    MediaIndex(k.type_, k.subtype);
    assert name[..|k.type_|] == k.type_ && name[|k.type_| + 1..] == k.subtype;
  }

  // ----- the loop that cuts a line into pieces -----

  /** The pieces found so far; none ends between `start` and `sep`. */
  ghost predicate Cut(line: string, start: nat, sep: nat, done: seq<string>) {
    && start <= sep <= |Body(line)| && (forall k :: start <= k < sep ==> line[k] != ';')
    && done + Split(Body(line)[start..]) == Pieces(line)
  }

  lemma CutStart(line: string)
    ensures Cut(line, 0, 0, [])
  {
    assert Body(line)[0..] == Body(line);
  }

  lemma SplitAt(s: string, i: nat)
    requires i < |s| && s[i] == ';' && forall k :: 0 <= k < i ==> s[k] != ';'
    ensures Split(s) == [s[..i]] + Split(s[i + 1..])
  {
    IndexIs(s, ';', i);
  }

  lemma SplitWhole(s: string)
    requires forall k :: 0 <= k < |s| ==> s[k] != ';'
    ensures Split(s) == if s == [] then [] else [s]
  {
    IndexIs(s, ';', |s|);
  }

  lemma InBody(line: string, sep: nat)
    requires sep <= |Body(line)|
    ensures sep < |line| && line[sep] != '\n' ==> sep < |Body(line)|
    ensures sep == |line| || line[sep] == '\n' ==> sep == |Body(line)|
  {
  }

  lemma BodySlice(line: string, start: nat, sep: nat)
    requires start <= sep <= |Body(line)|
    ensures Body(line)[start..][..sep - start] == line[start..sep]
    ensures sep == |Body(line)| ==> Body(line)[start..] == line[start..sep]
  {
    var n := |Body(line)|;
    assert Body(line) == line[..n];
  }

  /** A semicolon ends a piece. */
  lemma CutPiece(line: string, start: nat, sep: nat, piece: string)
    requires start <= sep < |Body(line)| && line[sep] == ';' && piece == line[start..sep]
    requires forall k :: start <= k < sep ==> line[k] != ';'
    ensures Split(Body(line)[start..]) == [piece] + Split(Body(line)[sep + 1..])
  {
    var s := Body(line)[start..];
    assert forall k :: 0 <= k < |s| ==> s[k] == line[start + k];
    SplitAt(s, sep - start);
    BodySlice(line, start, sep);
    assert s[sep - start + 1..] == Body(line)[sep + 1..];
  }

  /** One more character. */
  lemma CutOn(line: string, start: nat, sep: nat, done: seq<string>) returns (start': nat, done': seq<string>)
    requires Cut(line, start, sep, done) && sep < |line| && line[sep] != '\n'
    ensures start' == (if line[sep] == ';' then sep + 1 else start)
    ensures done' == (if line[sep] == ';' then done + [line[start..sep]] else done)
    ensures Cut(line, start', sep + 1, done')
  {
    InBody(line, sep);
    start', done' := start, done;
    if line[sep] == ';' {
      var piece := line[start..sep];
      CutPiece(line, start, sep, piece);
      Regrouped(done, [piece], Split(Body(line)[sep + 1..]));
      start', done' := sep + 1, done + [piece];
    }
  }

  /** The end of the line. */
  lemma CutEnd(line: string, start: nat, sep: nat, done: seq<string>)
    requires Cut(line, start, sep, done) && (sep == |line| || line[sep] == '\n')
    ensures Pieces(line) == if start < |line| && line[start] != '\n' then done + [line[start..sep]] else done
  {
    InBody(line, sep);
    InBody(line, start);
    var s := Body(line)[start..];
    BodySlice(line, start, sep);
    SplitWhole(s);
    assert start < sep ==> line[start] != '\n';
  }

  /** The pieces the loop has when it ends, from where it is. */
  function Run(line: string, start: nat, sep: nat, done: seq<string>): seq<string>
    requires start <= sep <= |line|
    decreases |line| - sep
  {
    if sep == |line| || line[sep] == '\n' then
      if start < |line| && line[start] != '\n' then done + [line[start..sep]] else done
    else if line[sep] == ';' then Run(line, sep + 1, sep + 1, done + [line[start..sep]])
    else Run(line, start, sep + 1, done)
  }

  lemma {:induction false} RunIsPieces(line: string, start: nat, sep: nat, done: seq<string>)
    requires start <= sep <= |line| && Cut(line, start, sep, done)
    ensures Run(line, start, sep, done) == Pieces(line)
    decreases |line| - sep
  {
    if sep == |line| || line[sep] == '\n' {
      CutEnd(line, start, sep, done);
    } else {
      var start', done' := CutOn(line, start, sep, done);
      RunIsPieces(line, start', sep + 1, done');
    }
  }
}
