/** Reading a magic file: characters, lines, and the state machine over sections. */
module MagicReader {
  import opened CStrings
  import opened Sequences
  import opened PackedBuffer
  import opened Magic
  import opened MagicRules
  import opened MagicText
  import opened MagicList

  const EOF := -1

  /** An open file with a position. */
  class Stream {
    const bytes: seq<Byte>
    var pos: nat

    constructor (bytes: seq<Byte>, pos: nat)
      requires pos <= |bytes|
      ensures this.bytes == bytes && this.pos == pos
    {
      this.bytes, this.pos := bytes, pos;
    }

    ghost predicate Valid()
      reads this
    {
      pos <= |bytes|
    }

    method Getc() returns (c: int)
      requires Valid()
      modifies this
      ensures Valid()
      ensures if old(pos) == |bytes| then c == EOF && pos == old(pos) else c == bytes[old(pos)] && pos == old(pos) + 1
    {
      if pos == |bytes| { return EOF; }
      c := bytes[pos];
      pos := pos + 1;
    }

    /** Puts the last character back. */
    method Ungetc()
      requires Valid() && pos > 0
      modifies this
      ensures Valid() && pos == old(pos) - 1
    {
      pos := pos - 1;
    }

    /** `_xdg_mime_magic_read_a_number`. */
    method ReadNumber() returns (value: int, eof: bool)
      requires Valid()
      modifies this
      ensures Valid()
      ensures var n := NumberAt(bytes, old(pos)); value == n.value && eof == n.eof && pos == n.next
    {
      ghost var start := pos;
      var digits: seq<Byte> := [];
      eof := false;
      while true
        invariant Valid() && pos == start + |digits| && digits == bytes[start..pos] && |digits| < MAX_DIGITS && !eof
        invariant DigitsEnd(bytes, start, start + MAX_DIGITS) == DigitsEnd(bytes, pos, start + MAX_DIGITS)
        decreases |bytes| - pos
      {
        var c := Getc();
        if c == EOF {
          eof := true;
          break;
        }
        if !(48 <= c <= 57) {
          Ungetc();
          break;
        }
        digits := digits + [c];
        if |digits| == MAX_DIGITS { break; }
      }
      assert DigitsEnd(bytes, start, start + MAX_DIGITS) == pos && bytes[start..pos] == digits;
      value := -1;
      if |digits| > 0 {
        value := Value(digits);
        if value > INT_MAX || value < 0 { value := -1; }
      }
    }

    /** `_xdg_mime_magic_read_to_newline`. */
    method ReadToNewline() returns (text: seq<Byte>, eof: bool)
      requires Valid()
      modifies this
      ensures Valid()
      ensures
        var e := LineEnd(bytes, old(pos));
        text == bytes[old(pos)..e] && eof == (e == |bytes|) && pos == if eof then e else e + 1
    {
      ghost var start := pos;
      text, eof := [], false;
      while true
        invariant Valid() && start <= pos && text == bytes[start..pos] && !eof
        invariant LineEnd(bytes, start) == LineEnd(bytes, pos)
        decreases |bytes| - pos
      {
        var c := Getc();
        if c == EOF {
          eof := true;
          break;
        }
        if c == NL || c == 0 { break; }
        text := text + [c];
      }
    }

    /** `_xdg_mime_magic_parse_header`. */
    method ParseHeader(m: Match) returns (state: State)
      requires Valid() && m.mimeType == None
      modifies this, m`mimeType, m`priority
      ensures Valid()
      ensures
        var h := HeaderAt(bytes, old(pos));
        && state == h.state
        && (!state.AtEof? ==> pos == h.next)
        && (state.InMagic? ==> m.mimeType == Some(h.mime) && m.priority == h.priority)
    {
      var c := Getc();
      if c == EOF { return AtEof; }
      if c != '[' as int { return InError; }
      var priority, eof := ReadNumber();
      m.priority := priority;
      if eof { return AtEof; }
      if m.priority == -1 { return InError; }
      c := Getc();
      if c == EOF { return AtEof; }
      if c != ':' as int { return InError; }
      var buffer;
      buffer, eof := ReadToNewline();
      if eof { return AtEof; }
      var mime := UpToBracket(buffer);
      if mime.None? { return InError; }
      m.mimeType := mime;
      state := InMagic;
    }

    /** `_xdg_mime_magic_parse_error`. */
    method ParseError() returns (state: State)
      requires Valid()
      modifies this
      ensures Valid()
      ensures
        var e := ErrorEnd(bytes, old(pos));
        && pos == e
        && state == if e > old(pos) && bytes[e - 1] == NL then InSection else AtEof
    {
      ghost var start := pos;
      while true
        invariant Valid() && start <= pos && ErrorEnd(bytes, start) == ErrorEnd(bytes, pos)
        invariant forall i :: start <= i < pos ==> bytes[i] != NL
        decreases |bytes| - pos
      {
        var c := Getc();
        if c == EOF { return AtEof; }
        if c == NL { return InSection; }
      }
    }

    /** `_xdg_mime_magic_parse_magic_line`. */
    method ParseLine() returns (state: State, m: Option<Matchlet>)
      requires Valid()
      modifies this
      ensures Valid() && Reads(LineAt(bytes, old(pos)), state, m)
    {
      var c := Getc();
      if c == EOF {
        return AtEof, None;
      } else if c == '[' as int {
        Ungetc();
        return InSection, None;
      } else if c == NL {
        return InMagic, None;
      }
      Ungetc();
      var indent := 0;
      if 48 <= c <= 57 {
        var n, eof := ReadNumber();
        if eof { return AtEof, None; }
        if n == -1 { return InError, None; }
        indent := n;
      }
      state, m := ParseOffset(NewMatchlet(indent));
    }

    /** The call leaves the stream where the line says. */
    ghost predicate Reads(l: Line, state: State, m: Option<Matchlet>)
      reads this
    {
      l.state == state && l.matchlet == m && (!state.AtEof? ==> l.next == pos)
    }

    method ParseOffset(start: Matchlet) returns (state: State, m: Option<Matchlet>)
      requires Valid() && start.mask == None && start.wordSize == 1
      modifies this
      ensures Valid() && Reads(After(Offset, bytes, old(pos), start), state, m)
    {
      var c := Getc();
      if c == EOF { return AtEof, None; }
      if c != '>' as int { return InError, None; }
      var offset, eof := ReadNumber();
      if eof { return AtEof, None; }
      if offset == -1 { return InError, None; }
      c := Getc();
      if c == EOF { return AtEof, None; }
      if c != '=' as int { return InError, None; }
      state, m := ParseValue(start.(offset := offset));
    }

    /** `fread`: all of `n` bytes, or the end of the file. */
    method Read(n: nat) returns (data: Option<seq<Byte>>)
      requires Valid()
      modifies this
      ensures Valid()
      ensures if old(pos) + n <= |bytes| then data == Some(bytes[old(pos)..old(pos) + n]) && pos == old(pos) + n else data == None
    {
      if pos + n > |bytes| {
        pos := |bytes|;
        return None;
      }
      data := Some(bytes[pos..pos + n]);
      pos := pos + n;
    }

    method ParseValue(start: Matchlet) returns (state: State, m: Option<Matchlet>)
      requires Valid() && start.mask == None && start.wordSize == 1
      modifies this
      ensures Valid() && Reads(After(Length, bytes, old(pos), start), state, m)
    {
      var hi := Getc();
      if hi == EOF { return AtEof, None; }
      var lo := Getc();
      if lo == EOF { return AtEof, None; }
      var value := Read(hi * 256 + lo);
      if value.None? { return AtEof, None; }
      state, m := ParseMask(start.(value := value.value));
    }

    method ParseMask(start: Matchlet) returns (state: State, m: Option<Matchlet>)
      requires Valid() && start.mask == None && start.wordSize == 1
      modifies this
      ensures Valid() && Reads(After(Mask, bytes, old(pos), start), state, m)
    {
      var line := start;
      var c := Getc();
      if c == '&' as int {
        var mask := Read(|line.value|);
        if mask.None? { return AtEof, None; }
        line := line.(mask := mask);
        assert After(Mask, bytes, old(pos), start) == After(Word, bytes, pos, line);
      } else if c != EOF {
        Ungetc();
      }
      state, m := ParseWord(line);
    }

    method ParseWord(start: Matchlet) returns (state: State, m: Option<Matchlet>)
      requires Valid() && InProgress(start)
      modifies this
      ensures Valid() && Reads(After(Word, bytes, old(pos), start), state, m)
    {
      var line := start;
      var c := Getc();
      if c == '~' as int {
        var n, eof := ReadNumber();
        if eof { return AtEof, None; }
        if n != 0 && n != 1 && n != 2 && n != 4 { return InError, None; }
        line := line.(wordSize := n);
      } else if c != EOF {
        Ungetc();
      }
      state, m := ParseRange(line);
    }

    /** The loop that turns the words of value and mask around. */
    method SwapWords(m: Matchlet) returns (r: Matchlet)
      requires InProgress(m) && (m.wordSize > 1 ==> |m.value| % m.wordSize == 0)
      ensures r == Swapped(m)
    {
      if m.wordSize <= 1 { return m; }
      var w, i := m.wordSize, 0;
      var value, mask := m.value, m.mask;
      while i < |value|
        invariant 0 <= i <= |value| == |m.value| && i % w == 0
        invariant SwapFrom(value, w, i) == SwapFrom(m.value, w, 0)
        invariant mask.Some? <==> m.mask.Some?
        invariant mask.Some? ==> |mask.value| == |value| && SwapFrom(mask.value, w, i) == SwapFrom(m.mask.value, w, 0)
      {
        NextWord(i, |value|, w);
        value := Overwritten(value, w * i, Backwards(value[i..i + w]));
        if mask.Some? {
          mask := Some(Overwritten(mask.value, w * i, Backwards(mask.value[i..i + w])));
        }
        i := i + w;
      }
      r := m.(value := value, mask := mask);
    }

    static lemma NextWord(i: nat, n: nat, w: nat)
      requires IsWord(w) && i < n && i % w == 0 && n % w == 0
      ensures i + w <= n && (i + w) % w == 0
    {
    }

    method ParseRange(start: Matchlet) returns (state: State, m: Option<Matchlet>)
      requires Valid() && InProgress(start)
      modifies this
      ensures Valid() && Reads(After(Range, bytes, old(pos), start), state, m)
    {
      var line := start;
      var c := Getc();
      if c == '+' as int {
        var n, eof := ReadNumber();
        if eof { return AtEof, None; }
        if n == -1 { return InError, None; }
        line := line.(rangeLength := n);
        c := Getc();
      }
      if c == NL {
        if line.wordSize > 1 && |line.value| % line.wordSize != 0 { return InError, None; }
        line := SwapWords(line);
        return InMagic, Some(line);
      }
      return if c == EOF then AtEof else InError, None;
    }
  }

  // ----- one section -----

  /** The section being read: its lines hang in the opposite order. */
  ghost predicate Pending(m: Match, ns: seq<MatchletNode>, cur: Section)
    reads m, ns
  {
    && m.mimeType == Some(cur.mime) && m.priority == cur.priority && m.next == None
    && Chain(m.matchlet, ns) && Unique(ns) && Reversed(Values(ns)) == cur.matchlets
  }

  /** The last lines of `_xdg_mime_magic_parse_magic_line`: the line goes in front. */
  method AddLine(m: Match, line: Matchlet, ghost ns: seq<MatchletNode>, ghost cur: Section, ghost all: set<MatchletNode>)
    returns (node: MatchletNode)
    requires Pending(m, ns, cur) && forall n :: n in ns ==> n in all
    modifies m`matchlet
    ensures fresh(node) && Pending(m, [node] + ns, WithLine(cur, Some(line)))
  {
    node := new MatchletNode(line, m.matchlet);
    m.matchlet := Some(node);
    ghost var r := [node] + ns;
    assert node !in ns;
    assert Chain(old(m.matchlet), ns);
    forall i | 0 <= i < |r| ensures r[i].next == NodeFrom(r, i + 1) {
      assert i > 0 ==> r[i] == ns[i - 1];
    }
    assert r[1..] == ns;
    ReversedCons(line, Values(ns));
  }

  lemma ReversedCons<X>(x: X, s: seq<X>)
    ensures Reversed([x] + s) == Reversed(s) + [x]
  {
  }

  lemma {:induction false} ValuesReversed(ns: seq<MatchletNode>)
    ensures Values(Reversed(ns)) == Reversed(Values(ns))
  {
    hide Values, Reversed;
    var a, b := Values(Reversed(ns)), Reversed(Values(ns));
    forall i | 0 <= i < |ns| ensures a[i] == b[i] {
      assert a[i] == Reversed(ns)[i].matchlet && b[i] == Values(ns)[|ns| - 1 - i];
    }
  }

  method MirrorLines(m: Match, ghost ns: seq<MatchletNode>, ghost cur: Section)
    requires Pending(m, ns, cur)
    modifies m`matchlet, ns
    ensures Holds(m, Reversed(ns), cur)
  {
    m.matchlet := Mirror(m.matchlet, ns);
    ValuesReversed(ns);
  }

  lemma SplicedMultiset<X>(s: seq<X>, k: nat, x: X)
    requires k <= |s|
    ensures multiset(Spliced(s, k, x)) == multiset(s) + multiset{x}
  {
    assert s == s[..k] + s[k..];
  }

  /** The end of a section: its lines are put in file order and it is inserted. */
  method Finish(head: Option<Match>, m: Match, ghost l: Layout, ghost ns: seq<MatchletNode>, ghost sec: Section)
    returns (res: Option<Match>, ghost r: Layout)
    requires Stored(head, l) && Pending(m, ns, sec) && m !in l.ms && forall n :: n in ns ==> n !in l.cells
    modifies l.ms`next, m`next, m`matchlet, ns
    ensures Stored(res, r) && r.secs == Place(l.secs, sec)
    ensures multiset(r.ms) == multiset(l.ms) + multiset{m}
  {
    ghost var k;
    MirrorLines(m, ns, sec);
    assert Stored(head, l);
    res, k := InsertFilled(head, m, l.ms, l.chains, l.secs, l.cells, Reversed(ns), sec, l.cells + set n | n in Reversed(ns));
    r := WithSection(l, k, m, Reversed(ns), sec);
    SplicedMultiset(l.ms, k, m);
  }

  // ----- the state machine -----

  function PlaceAll(secs: seq<Section>, more: seq<Section>): seq<Section>
    decreases |more|
  {
    if more == [] then secs else PlaceAll(Place(secs, more[0]), more[1..])
  }

  lemma {:induction false} PlaceAllIsLoaded(loads: seq<Section>, more: seq<Section>)
    ensures PlaceAll(Loaded(loads), more) == Loaded(loads + more)
    decreases |more|
  {
    if more == [] {
      assert loads + more == loads;
    } else {
      var next := loads + [more[0]];
      assert next[..|loads|] == loads;
      PlaceAllIsLoaded(next, more[1..]);
      assert next + more[1..] == loads + more;
    }
  }

  /** What the run adds up to, from here. */
  ghost function Rest(secs: seq<Section>, f: Stream, state: State, sec: Section): seq<Section>
    requires f.Valid()
    reads f
  {
    PlaceAll(secs, SectionsFrom(f.bytes, f.pos, state, sec))
  }

  function Measure(f: Stream, state: State): int
    reads f
  {
    if state.AtEof? then 0 else |f.bytes| - f.pos + 1
  }

  /** A new section object and its header. */
  method StepSection(f: Stream, ghost secs: seq<Section>, ghost sec0: Section) returns (state: State, m: Match, ghost sec: Section)
    requires f.Valid()
    modifies f
    ensures f.Valid() && fresh(m)
    ensures state.InMagic? ==> Pending(m, [], sec)
    ensures Rest(secs, f, state, sec) == old(Rest(secs, f, InSection, sec0))
    ensures Measure(f, state) < old(Measure(f, InSection)) && !state.InSection?
  {
    m := new Match();
    ghost var h := HeaderAt(f.bytes, f.pos);
    state := f.ParseHeader(m);
    sec := Section(h.mime, h.priority, []);
  }

  /** What becomes of the object of a section after one more line. */
  datatype Fate = Kept | Inserted | Freed

  function FateOf(state: State): Fate {
    match state
    case InMagic => Kept
    case InError => Freed
    case _ => Inserted
  }

  /** The line goes to the section, or the section to the list. */
  method Settle(head: Option<Match>, m: Match, state: State, line: Option<Matchlet>,
                ghost l: Layout, ghost ns: seq<MatchletNode>, ghost sec: Section, ghost all: set<MatchletNode>)
    returns (res: Option<Match>, ghost r: Layout, ghost rest: seq<MatchletNode>)
    requires Stored(head, l) && Pending(m, ns, sec) && m !in l.ms
    requires all == (set n | n in ns) && all !! l.cells
    modifies l.ms`next, m, ns
    ensures Stored(res, r)
    ensures FateOf(state).Kept? ==> Pending(m, rest, WithLine(sec, line))
    ensures if FateOf(state).Inserted? then multiset(r.ms) == multiset(l.ms) + multiset{m} && r.secs == Place(l.secs, sec) else r == l
    ensures forall n :: n in rest ==> n in ns || fresh(n)
  {
    rest, res, r := ns, head, l;
    match FateOf(state)
    case Kept =>
      if line.Some? {
        var node := AddLine(m, line.value, ns, sec, all);
        rest := [node] + ns;
      }
    case Freed =>
    case Inserted =>
      res, r := Finish(head, m, l, ns, sec);
  }

  lemma LineRest(f: seq<Byte>, p: nat, sec: Section)
    requires p <= |f|
    ensures
      var l := LineAt(f, p);
      var rest := if l.state.AtEof? then [] else SectionsFrom(f, l.next, l.state, WithLine(sec, l.matchlet));
      SectionsFrom(f, p, InMagic, sec) == if FateOf(l.state).Inserted? then [sec] + rest else rest
  {
    var l := LineAt(f, p);
    if l.state.AtEof? { assert [sec] + [] == [sec]; }
  }

  /** One more line: kept, or the end of the section, or an error. */
  method StepMagic(head: Option<Match>, f: Stream, m: Match, ghost l: Layout, ghost ns: seq<MatchletNode>, ghost sec: Section,
                   ghost all: set<MatchletNode>, ghost listed: set<Match>)
    returns (res: Option<Match>, state: State, ghost r: Layout, ghost rest: seq<MatchletNode>, ghost next: Section)
    requires Stored(head, l) && f.Valid() && Pending(m, ns, sec) && m !in l.ms
    requires all == (set n | n in ns) && all !! l.cells && listed == (set x | x in l.ms)
    modifies listed`next, f, m, all
    ensures f.Valid() && Stored(res, r)
    ensures FateOf(state).Kept? ==> Pending(m, rest, next)
    ensures if FateOf(state).Inserted? then multiset(r.ms) == multiset(l.ms) + multiset{m} else r == l
    ensures Rest(r.secs, f, state, next) == old(Rest(l.secs, f, InMagic, sec))
    ensures Measure(f, state) < old(Measure(f, InMagic)) || (Measure(f, state) == old(Measure(f, InMagic)) && state.InSection?)
    ensures forall n :: n in rest ==> n in all || fresh(n)
  {
    LineRest(f.bytes, f.pos, sec);
    var line;
    state, line := f.ParseLine();
    next := WithLine(sec, line);
    res, r, rest := Settle(head, m, state, line, l, ns, sec, all);
  }

  method StepError(f: Stream, ghost secs: seq<Section>, ghost sec: Section) returns (state: State)
    requires f.Valid()
    modifies f
    ensures f.Valid() && !state.InMagic?
    ensures Rest(secs, f, state, sec) == old(Rest(secs, f, InError, sec))
    ensures Measure(f, state) < old(Measure(f, InError))
  {
    state := f.ParseError();
  }

  /** The objects made so far: in the list, freed, or being read. */
  ghost predicate Accounted(l: Layout, base: multiset<Match>, made: seq<Match>, freed: seq<Match>, m: Match, state: State) {
    if state.InMagic? then multiset(l.ms) + multiset(freed) + multiset{m} == base + multiset(made)
    else multiset(l.ms) + multiset(freed) == base + multiset(made)
  }

  /** An object being read is not in the list yet, and the list holds old objects and made ones. */
  lemma StillNew(l: Layout, base: multiset<Match>, made: seq<Match>, freed: seq<Match>, m: Match)
    requires Accounted(l, base, made, freed, m, InMagic) && Unique(made) && m in made && m !in base
    ensures m !in l.ms
    ensures forall x :: x in l.ms ==> x in base || x in made
  {
    DistinctOnce(made, m);
    assert multiset(l.ms)[m] + 1 <= (base + multiset(made))[m];
    forall x | x in l.ms ensures x in base || x in made {
      assert x in multiset(l.ms) + multiset(freed) + multiset{m};
    }
  }

  lemma {:induction false} DistinctOnce<X>(s: seq<X>, x: X)
    requires Unique(s)
    ensures multiset(s)[x] <= 1
  {
    if s != [] {
      var n := |s| - 1;
      DistinctOnce(s[..n], x);
      assert s == s[..n] + [s[n]];
      if x == s[n] { assert x !in s[..n]; }
    }
  }

  /** A new object is being read, or freed at once. */
  lemma MadeOne(l: Layout, base: multiset<Match>, made: seq<Match>, freed: seq<Match>, m0: Match, m: Match, state: State)
    requires Accounted(l, base, made, freed, m0, InSection) && Unique(made) && m !in made
    ensures Unique(made + [m])
    ensures Accounted(l, base, made + [m], if state.InMagic? then freed else freed + [m], m, state)
  {
    assert multiset(made + [m]) == multiset(made) + multiset{m};
    assert multiset(freed + [m]) == multiset(freed) + multiset{m};
    AddBoth(multiset(l.ms), multiset(freed), base, multiset(made), m);
  }

  lemma AddBoth<X>(a: multiset<X>, f: multiset<X>, b: multiset<X>, d: multiset<X>, m: X)
    requires a + f == b + d
    ensures a + (f + multiset{m}) == b + (d + multiset{m}) == a + f + multiset{m}
  {
    var one := multiset{m};
    assert a + (f + one) == (a + f) + one;
    assert b + (d + one) == (b + d) + one;
  }

  /** The object goes on being read, joins the list, or is freed. */
  lemma Settled(l: Layout, r: Layout, base: multiset<Match>, made: seq<Match>, freed: seq<Match>, m: Match, state: State)
    requires Accounted(l, base, made, freed, m, InMagic)
    requires if FateOf(state).Inserted? then multiset(r.ms) == multiset(l.ms) + multiset{m} else r == l
    ensures Accounted(r, base, made, if state.InError? then freed + [m] else freed, m, state)
  {
    assert multiset(freed + [m]) == multiset(freed) + multiset{m};
  }

  /** A header: an object is made, and read on or freed. */
  method SectionTurn(f: Stream, ghost head: Option<Match>, made: seq<Match>, freed: seq<Match>, ghost l: Layout,
                     ghost sec: Section, ghost base: multiset<Match>, ghost m0: Match)
    returns (state: State, m: Match, ghost next: Section, made': seq<Match>, freed': seq<Match>)
    requires f.Valid() && Stored(head, l) && Unique(made) && Accounted(l, base, made, freed, m0, InSection)
    modifies f
    ensures f.Valid() && Stored(head, l) && fresh(m) && made' == made + [m]
    ensures state.InMagic? ==> Pending(m, [], next)
    ensures Rest(l.secs, f, state, next) == old(Rest(l.secs, f, InSection, sec))
    ensures Unique(made') && Accounted(l, base, made', freed', m, state)
    ensures Measure(f, state) < old(Measure(f, InSection)) && !state.InSection?
  {
    state, m, next := StepSection(f, l.secs, sec);
    MadeOne(l, base, made, freed, m0, m, state);
    made' := made + [m];
    freed' := if state.InMagic? then freed else freed + [m];
  }

  /** A line: the object is read on, joins the list, or is freed. */
  method LineTurn(head: Option<Match>, f: Stream, m: Match, made: seq<Match>, freed: seq<Match>,
                  ghost l: Layout, ghost ns: seq<MatchletNode>, ghost sec: Section, ghost all: set<MatchletNode>,
                  ghost base: multiset<Match>, ghost olds: set<Match>, ghost news: set<Match>)
    returns (res: Option<Match>, state: State, freed': seq<Match>, ghost r: Layout, ghost rest: seq<MatchletNode>, ghost next: Section,
             ghost all': set<MatchletNode>)
    requires Stored(head, l) && f.Valid() && Pending(m, ns, sec) && Accounted(l, base, made, freed, m, InMagic)
    requires Unique(made) && m in made && m !in base && (forall x :: x in made ==> x in news) && (forall x :: x in base ==> x in olds)
    requires all == (set n | n in ns) && all !! l.cells
    modifies olds`next, news, f, all
    ensures f.Valid() && Stored(res, r) && Accounted(r, base, made, freed', m, state)
    ensures state.InMagic? ==> Pending(m, rest, next) && all' !! r.cells
    ensures all' == (set n | n in rest) && fresh(all' - all)
    ensures Rest(r.secs, f, state, next) == old(Rest(l.secs, f, InMagic, sec))
    ensures Measure(f, state) < old(Measure(f, InMagic)) || (Measure(f, state) == old(Measure(f, InMagic)) && state.InSection?)
  {
    StillNew(l, base, made, freed, m);
    res, state, r, rest, next := StepMagic(head, f, m, l, ns, sec, all, set x | x in l.ms);
    all' := set n | n in rest;
    Settled(l, r, base, made, freed, m, state);
    freed' := if state.InError? then freed + [m] else freed;
  }

  /** The rest of a line that could not be read. */
  method ErrorTurn(f: Stream, ghost head: Option<Match>, ghost made: seq<Match>, ghost freed: seq<Match>, ghost l: Layout, ghost sec: Section,
                   ghost base: multiset<Match>, ghost m: Match) returns (state: State)
    requires f.Valid() && Stored(head, l) && Accounted(l, base, made, freed, m, InError)
    modifies f
    ensures f.Valid() && Stored(head, l) && Accounted(l, base, made, freed, m, state) && !state.InMagic?
    ensures Rest(l.secs, f, state, sec) == old(Rest(l.secs, f, InError, sec))
    ensures Measure(f, state) < old(Measure(f, InError))
  {
    state := StepError(f, l.secs, sec);
  }

  /** What is known of the object at hand while its lines are read. */
  ghost predicate AtHand(state: State, l: Layout, m: Match, made: seq<Match>, ns: seq<MatchletNode>, sec: Section, all: set<MatchletNode>)
    reads m, ns
  {
    state.InMagic? ==> Pending(m, ns, sec) && m in made && all == (set n | n in ns) && all !! l.cells
  }

  /** One turn of the loop. */
  method Turn(state0: State, head: Option<Match>, f: Stream, m: Match, made: seq<Match>, freed: seq<Match>,
              ghost l: Layout, ghost ns: seq<MatchletNode>, ghost sec: Section, ghost all: set<MatchletNode>,
              ghost base: multiset<Match>, ghost olds: set<Match>, ghost news: set<Match>)
    returns (state: State, res: Option<Match>, m': Match, made': seq<Match>, freed': seq<Match>,
             ghost r: Layout, ghost rest: seq<MatchletNode>, ghost next: Section, ghost all': set<MatchletNode>, ghost news': set<Match>)
    requires !state0.AtEof? && f.Valid() && Stored(head, l) && Unique(made) && Accounted(l, base, made, freed, m, state0)
    requires AtHand(state0, l, m, made, ns, sec, all) && (forall x :: x in made ==> x in news) && (forall x :: x in base ==> x in olds)
    requires olds !! news
    modifies olds`next, news, f, all
    ensures f.Valid() && Stored(res, r) && Unique(made') && Accounted(r, base, made', freed', m', state)
    ensures AtHand(state, r, m', made', rest, next, all') && (forall x :: x in made' ==> x in news')
    ensures fresh(all' - all) && fresh(news' - news) && forall x :: x in made' ==> x in made || fresh(x)
    ensures Rest(r.secs, f, state, next) == old(Rest(l.secs, f, state0, sec))
    ensures Measure(f, state) < old(Measure(f, state0)) || (Measure(f, state) == old(Measure(f, state0)) && Rank(state) < Rank(state0))
  {
    res, m', made', freed', r, rest, next, all', news' := head, m, made, freed, l, ns, sec, all, news;
    match state0
    case InSection =>
      state, m', next, made', freed' := SectionTurn(f, head, made, freed, l, sec, base, m);
      rest, all', news' := [], {}, news + {m'};
    case InMagic =>
      res, state, freed', r, rest, next, all' := LineTurn(head, f, m, made, freed, l, ns, sec, all, base, olds, news);
    case InError =>
      state := ErrorTurn(f, head, made, freed, l, sec, base, m);
  }

  /** The loop of `_xdg_mime_magic_read_magic_file`. */
  method ReadSections(first: Option<Match>, f: Stream, ghost start: Layout, ghost olds: set<Match>)
    returns (head: Option<Match>, freed: seq<Match>, made: seq<Match>, ghost l: Layout)
    requires Stored(first, start) && f.Valid() && olds == set x | x in start.ms
    modifies olds`next, f
    ensures Stored(head, l)
    ensures l.secs == old(Rest(start.secs, f, InSection, Section("", 0, [])))
    ensures Unique(made) && fresh(made)
    ensures multiset(l.ms) + multiset(freed) == multiset(start.ms) + multiset(made)
  {
    hide Stored;
    var state := InSection;
    var m := new Match();
    freed, made, head, l := [], [], first, start;
    ghost var base := multiset(start.ms);
    ghost var sec: Section, ns: seq<MatchletNode>, all: set<MatchletNode>, news: set<Match> := Section("", 0, []), [], {}, {};
    ghost var total := Rest(start.secs, f, InSection, sec);
    while !state.AtEof?
      invariant f.Valid() && Stored(head, l)
      invariant Rest(l.secs, f, state, sec) == total
      invariant Unique(made) && Accounted(l, base, made, freed, m, state)
      invariant fresh(made) && fresh(all) && fresh(news) && forall x :: x in made ==> x in news
      invariant AtHand(state, l, m, made, ns, sec, all)
      decreases Measure(f, state), Rank(state)
    {
      state, head, m, made, freed, l, ns, sec, all, news := Turn(state, head, f, m, made, freed, l, ns, sec, all, base, olds, news);
    }
  }

  /** `_xdg_mime_magic_read_magic_file`: the database gains the sections of the
      file, and each section object that was made ends up in the list or among
      the freed ones, once. */
  method ReadMagicFile(db: Database, f: Stream, ghost olds: set<Match>) returns (freed: seq<Match>, made: seq<Match>)
    requires db.Valid() && f.Valid() && olds == set x | x in db.layout.ms
    modifies db, olds`next, f
    ensures db.Valid()
    ensures db.layout.secs == PlaceAll(old(db.layout.secs), SectionsFrom(f.bytes, old(f.pos), InSection, Section("", 0, [])))
    ensures db.maxExtent == MaxExtent(db.layout.secs)
    ensures Unique(made) && fresh(made)
    ensures multiset(db.layout.ms) + multiset(freed) == old(multiset(db.layout.ms)) + multiset(made)
  {
    var head;
    ghost var l;
    head, freed, made, l := ReadSections(db.matchList, f, db.layout, olds);
    var extent := ExtentOfList(head, l);
    db.Install(head, extent, l);
  }

  const HEADER: seq<Byte> := [77, 73, 77, 69, 45, 77, 97, 103, 105, 99, 0, 10]

  /** The sections of a whole file; none without the header. */
  function SectionsOf(file: seq<Byte>): seq<Section> {
    if HEADER <= file then SectionsFrom(file, |HEADER|, InSection, Section("", 0, [])) else []
  }

  /** `_xdg_mime_magic_read_from_file`, for a new database. */
  method ReadFromFile(file: seq<Byte>) returns (db: Database)
    ensures db.Valid() && db.layout.secs == Loaded(SectionsOf(file))
    ensures db.maxExtent == MaxExtent(db.layout.secs)
  {
    db := new Database();
    if |file| >= |HEADER| && file[..|HEADER|] == HEADER {
      var f := new Stream(file, |HEADER|);
      var freed, made := ReadMagicFile(db, f, {});
      PlaceAllIsLoaded([], SectionsOf(file));
      assert [] + SectionsOf(file) == SectionsOf(file);
    }
  }
}
