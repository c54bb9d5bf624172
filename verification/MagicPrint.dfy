/** The text of a magic database, and that reading it gives the database back. */
module MagicPrint {
  import opened CStrings
  import opened Sequences
  import opened PackedBuffer
  import opened Magic
  import opened MagicRules
  import opened MagicText
  import opened MagicReader

  // ----- texts -----

  /** `s` stands at position `p`. */
  ghost predicate Stands(f: seq<Byte>, p: nat, s: seq<Byte>) {
    p + |s| <= |f| && f[p..p + |s|] == s
  }

  lemma StandsSplit(f: seq<Byte>, p: nat, a: seq<Byte>, b: seq<Byte>)
    requires Stands(f, p, a + b)
    ensures Stands(f, p, a) && Stands(f, p + |a|, b)
  {
    assert f[p..p + |a + b|][..|a|] == a && f[p..p + |a + b|][|a|..] == b;
  }

  lemma StandsHead(f: seq<Byte>, p: nat, c: Byte, b: seq<Byte>)
    requires Stands(f, p, [c] + b)
    ensures p < |f| && f[p] == c && Stands(f, p + 1, b)
  {
    StandsSplit(f, p, [c], b);
    assert f[p] == f[p..p + 1][0];
  }

  // ----- numbers -----

  function Dec(n: nat): (r: seq<Byte>)
    ensures r != [] && forall i :: 0 <= i < |r| ==> IsDigit(r[i])
  {
    if n < 10 then [48 + n] else Dec(n / 10) + [48 + n % 10]
  }

  lemma {:induction false} DecValue(n: nat)
    ensures Value(Dec(n)) == n
  {
    if n >= 10 {
      DecValue(n / 10);
      assert Dec(n)[..|Dec(n)| - 1] == Dec(n / 10);
    } else {
      assert Dec(n)[..0] == [];
    }
  }

  function Pow10(k: nat): nat {
    if k == 0 then 1 else 10 * Pow10(k - 1)
  }

  lemma {:induction false} DecLength(n: nat, k: nat)
    requires n < Pow10(k) && k > 0
    ensures |Dec(n)| <= k
  {
    if n >= 10 {
      assert k > 1;
      DecLength(n / 10, k - 1);
    }
  }

  lemma {:induction false} DigitsStand(f: seq<Byte>, p: nat, s: seq<Byte>, stop: nat)
    requires Stands(f, p, s) && (forall i :: 0 <= i < |s| ==> IsDigit(s[i])) && p + |s| <= stop
    requires p + |s| < |f| && !IsDigit(f[p + |s|])
    ensures DigitsEnd(f, p, stop) == p + |s|
    decreases |s|
  {
    if s != [] {
      assert s == [s[0]] + s[1..];
      StandsHead(f, p, s[0], s[1..]);
      DigitsStand(f, p + 1, s[1..], stop);
    }
  }

  /** A printed number is read back, up to the next character. */
  lemma NumberStands(f: seq<Byte>, p: nat, n: nat, c: Byte, rest: seq<Byte>)
    requires n <= INT_MAX && !IsDigit(c) && Stands(f, p, Dec(n) + ([c] + rest))
    ensures var q := p + |Dec(n)|; NumberAt(f, p) == Number(n, false, q) && Stands(f, q, [c] + rest)
  {
    var q := p + |Dec(n)|;
    StandsSplit(f, p, Dec(n), [c] + rest);
    StandsHead(f, q, c, rest);
    assert Pow10(10) > INT_MAX;
    DecLength(n, 10);
    DigitsStand(f, p, Dec(n), p + MAX_DIGITS);
    DecValue(n);
  }

  /** A printed number and the character after it. */
  lemma NumberThen(f: seq<Byte>, p: nat, n: nat, c: Byte, rest: seq<Byte>) returns (q: nat)
    requires n <= INT_MAX && !IsDigit(c) && Stands(f, p, Dec(n) + ([c] + rest))
    ensures 0 < q <= |f| && q == p + |Dec(n)| + 1 && NumberAt(f, p) == Number(n, false, q - 1) && f[q - 1] == c && Stands(f, q, rest)
  {
    NumberStands(f, p, n, c, rest);
    StandsHead(f, p + |Dec(n)|, c, rest);
    q := p + |Dec(n)| + 1;
  }

  /** A larger number than an int holds is an error, after all its digits. */
  lemma NumberTooLarge(f: seq<Byte>, p: nat, n: nat, c: Byte, rest: seq<Byte>)
    requires n > 0x7fff_ffff && |Dec(n)| <= 30 && !IsDigit(c) && Stands(f, p, Dec(n) + ([c] + rest))
    ensures NumberAt(f, p) == Number(-1, false, p + |Dec(n)|)
  {
    hide Dec, DigitsEnd;
    StandsSplit(f, p, Dec(n), [c] + rest);
    StandsHead(f, p + |Dec(n)|, c, rest);
    DigitsStand(f, p, Dec(n), p + MAX_DIGITS);
    DecValue(n);
  }

  /** At most thirty digits are taken. */
  lemma NumberCut(f: seq<Byte>, p: nat)
    requires p + 30 <= |f| && forall i :: p <= i < p + 30 ==> IsDigit(f[i])
    ensures NumberAt(f, p).next == p + 30
  {
    hide DigitsEnd;
    assert DigitsEnd(f, p, p + MAX_DIGITS) == p + 30;
  }

  // ----- lines -----

  /** What a line can hold, before words are turned around. */
  predicate Expressible(m: Matchlet) {
    Readable(m) && m.indent <= INT_MAX && (m.wordSize == 0 || m.wordSize == 1 || IsWord(m.wordSize))
  }

  /** A value that is no whole number of words. */
  predicate Broken(m: Matchlet) {
    m.wordSize > 1 && |m.value| % m.wordSize != 0
  }

  /** A matchlet the format can express: a value in words has no more than one. */
  predicate Printable(m: Matchlet) {
    Expressible(m) && !Broken(m) && (m.wordSize > 1 ==> |m.value| <= m.wordSize)
  }

  /** What comes of a line that ends at `q`: its matchlet, with the words turned around, or an error. */
  function EndOf(m: Matchlet, q: nat): Line {
    if Broken(m) then Line(InError, None, q) else Line(InMagic, Some(Swapped(m)), q)
  }

  function RangeText(m: Matchlet): seq<Byte> {
    if m.rangeLength == 1 then [NL] else ['+' as int] + (Dec(m.rangeLength) + ([NL] + []))
  }

  function WordText(m: Matchlet): seq<Byte> {
    if m.wordSize == 1 then RangeText(m) else ['~' as int] + (Dec(m.wordSize) + RangeText(m))
  }

  function MaskText(m: Matchlet): seq<Byte> {
    if m.mask.None? then WordText(m) else ['&' as int] + (m.mask.value + WordText(m))
  }

  function ValueText(m: Matchlet): seq<Byte>
    requires Readable(m)
  {
    [|m.value| / 256] + ([|m.value| % 256] + (m.value + MaskText(m)))
  }

  function OffsetText(m: Matchlet): seq<Byte>
    requires Readable(m)
  {
    ['>' as int] + (Dec(m.offset) + (['=' as int] + ValueText(m)))
  }

  /** A whole line: the indent unless it is 0, then offset and value, then mask, word size and range
      length where they differ from none, 1 and 1. */
  function LineBytes(m: Matchlet): seq<Byte>
    requires Readable(m)
  {
    if m.indent == 0 then OffsetText(m) else Dec(m.indent) + OffsetText(m)
  }

  lemma RangeStands(f: seq<Byte>, p: nat, m: Matchlet)
    requires Expressible(m) && Stands(f, p, RangeText(m))
    ensures After(Range, f, p, m.(rangeLength := 1)) == EndOf(m, p + |RangeText(m)|)
  {
    if m.rangeLength == 1 {
      assert [NL] == [NL] + [];
      StandsHead(f, p, NL, []);
    } else {
      StandsHead(f, p, '+' as int, Dec(m.rangeLength) + ([NL] + []));
      NumberStands(f, p + 1, m.rangeLength, NL, []);
      StandsHead(f, p + 1 + |Dec(m.rangeLength)|, NL, []);
    }
  }

  lemma RangeStarts(m: Matchlet)
    ensures RangeText(m) != [] && RangeText(m) == [RangeText(m)[0]] + RangeText(m)[1..] && !IsDigit(RangeText(m)[0])
    ensures RangeText(m)[0] != '~' as int && RangeText(m)[0] != '&' as int
  {
  }

  lemma WordThenRange(f: seq<Byte>, p: nat, start: Matchlet, n: nat, w: seq<Byte>) returns (q: nat)
    requires (n == 0 || n == 2 || n == 4) && w != [] && !IsDigit(w[0])
    requires Stands(f, p, ['~' as int] + (Dec(n) + w))
    ensures q + |w| == p + |['~' as int] + (Dec(n) + w)| && Stands(f, q, w)
    ensures After(Word, f, p, start) == After(Range, f, q, start.(wordSize := n))
  {
    hide NumberAt, Dec;
    assert w == [w[0]] + w[1..];
    StandsHead(f, p, '~' as int, Dec(n) + w);
    NumberStands(f, p + 1, n, w[0], w[1..]);
    q := p + 1 + |Dec(n)|;
  }

  lemma NoWordStep(f: seq<Byte>, p: nat, start: Matchlet, w: seq<Byte>)
    requires Stands(f, p, w) && w != [] && w[0] != '~' as int
    ensures After(Word, f, p, start) == After(Range, f, p, start)
  {
    assert w == [w[0]] + w[1..];
    StandsHead(f, p, w[0], w[1..]);
  }

  lemma WordStands(f: seq<Byte>, p: nat, m: Matchlet)
    requires Expressible(m) && Stands(f, p, WordText(m))
    ensures After(Word, f, p, m.(rangeLength := 1, wordSize := 1)) == EndOf(m, p + |WordText(m)|)
  {
    hide EndOf, RangeText, After, Stands, Dec;
    RangeStarts(m);
    var start := m.(rangeLength := 1, wordSize := 1);
    if m.wordSize == 1 {
      NoWordStep(f, p, start, RangeText(m));
      RangeStands(f, p, m);
    } else {
      var q := WordThenRange(f, p, start, m.wordSize, RangeText(m));
      RangeStands(f, q, m);
    }
  }

  lemma NoMaskStep(f: seq<Byte>, p: nat, start: Matchlet, w: seq<Byte>)
    requires Stands(f, p, w) && w != [] && w[0] != '&' as int
    ensures After(Mask, f, p, start) == After(Word, f, p, start)
  {
    assert w == [w[0]] + w[1..];
    StandsHead(f, p, w[0], w[1..]);
  }

  lemma MaskStands(f: seq<Byte>, p: nat, m: Matchlet, start: Matchlet)
    requires Expressible(m) && Stands(f, p, MaskText(m)) && start == m.(rangeLength := 1, wordSize := 1, mask := None)
    ensures After(Mask, f, p, start) == EndOf(m, p + |MaskText(m)|)
  {
    var w := WordText(m);
    if m.mask.None? {
      WordStarts(m);
      NoMaskStep(f, p, start, w);
      WordStands(f, p, m);
    } else {
      var q := MaskThenWord(f, p, start, m.mask.value, w);
      WordStands(f, q, m);
    }
  }

  lemma MaskThenWord(f: seq<Byte>, p: nat, start: Matchlet, mask: seq<Byte>, w: seq<Byte>) returns (q: nat)
    requires |mask| == |start.value| && Stands(f, p, ['&' as int] + (mask + w))
    ensures q + |w| == p + |['&' as int] + (mask + w)| && Stands(f, q, w)
    ensures After(Mask, f, p, start) == After(Word, f, q, start.(mask := Some(mask)))
  {
    StandsHead(f, p, '&' as int, mask + w);
    StandsSplit(f, p + 1, mask, w);
    q := p + 1 + |mask|;
  }

  lemma WordStarts(m: Matchlet)
    ensures WordText(m) != [] && WordText(m)[0] != '&' as int
  {
    RangeStarts(m);
  }

  lemma ValueStep(f: seq<Byte>, p: nat, start: Matchlet, value: seq<Byte>, w: seq<Byte>) returns (q: nat)
    requires |value| < 0x1_0000 && Stands(f, p, [|value| / 256] + ([|value| % 256] + (value + w)))
    ensures q == p + 2 + |value| && Stands(f, q, w) && After(Length, f, p, start) == After(Mask, f, q, start.(value := value))
  {
    var n := |value|;
    q := p + 2 + n;
    StandsHead(f, p, n / 256, [n % 256] + (value + w));
    StandsHead(f, p + 1, n % 256, value + w);
    StandsSplit(f, p + 2, value, w);
    LengthStep(f, p, start, value);
  }

  lemma LengthStep(f: seq<Byte>, p: nat, start: Matchlet, value: seq<Byte>)
    requires |value| < 0x1_0000 && p + 2 + |value| <= |f| && f[p] == |value| / 256 && f[p + 1] == |value| % 256
    requires f[p + 2..p + 2 + |value|] == value
    ensures After(Length, f, p, start) == After(Mask, f, p + 2 + |value|, start.(value := value))
  {
  }

  lemma ValueStands(f: seq<Byte>, p: nat, m: Matchlet)
    requires Expressible(m) && Stands(f, p, ValueText(m))
    ensures After(Length, f, p, NewMatchlet(m.indent).(offset := m.offset)) == EndOf(m, p + |ValueText(m)|)
  {
    var start := NewMatchlet(m.indent).(offset := m.offset);
    var q := ValueStep(f, p, start, m.value, MaskText(m));
    MaskStands(f, q, m, start.(value := m.value));
  }

  lemma OffsetThenValue(f: seq<Byte>, p: nat, start: Matchlet, offset: nat, w: seq<Byte>) returns (q: nat)
    requires offset <= INT_MAX && Stands(f, p, ['>' as int] + (Dec(offset) + (['=' as int] + w)))
    ensures q + |w| == p + |['>' as int] + (Dec(offset) + (['=' as int] + w))| && Stands(f, q, w)
    ensures After(Offset, f, p, start) == After(Length, f, q, start.(offset := offset))
  {
    StandsHead(f, p, '>' as int, Dec(offset) + (['=' as int] + w));
    q := NumberThen(f, p + 1, offset, '=' as int, w);
    OffsetStep(f, p, start, offset, q);
  }

  lemma OffsetStep(f: seq<Byte>, p: nat, start: Matchlet, offset: nat, q: nat)
    requires p < |f| && f[p] == '>' as int && 0 < q <= |f| && NumberAt(f, p + 1) == Number(offset, false, q - 1) && f[q - 1] == '=' as int
    ensures After(Offset, f, p, start) == After(Length, f, q, start.(offset := offset))
  {
  }

  lemma OffsetStands(f: seq<Byte>, p: nat, m: Matchlet)
    requires Expressible(m) && Stands(f, p, OffsetText(m))
    ensures After(Offset, f, p, NewMatchlet(m.indent)) == EndOf(m, p + |OffsetText(m)|)
  {
    hide EndOf, After;
    var q := OffsetThenValue(f, p, NewMatchlet(m.indent), m.offset, ValueText(m));
    ValueStands(f, q, m);
  }

  /** A line that starts with a digit starts with its indent. */
  lemma DigitLine(f: seq<Byte>, p: nat, indent: nat, q: nat)
    requires p < |f| && IsDigit(f[p]) && NumberAt(f, p) == Number(indent, false, q)
    ensures LineAt(f, p) == After(Offset, f, q, NewMatchlet(indent))
  {
  }

  lemma IndentStep(f: seq<Byte>, p: nat, indent: nat, w: seq<Byte>) returns (q: nat)
    requires indent <= INT_MAX && Stands(f, p, Dec(indent) + (['>' as int] + w))
    ensures q == p + |Dec(indent)| && Stands(f, q, ['>' as int] + w)
    ensures LineAt(f, p) == After(Offset, f, q, NewMatchlet(indent))
  {
    var d := Dec(indent);
    q := p + |d|;
    NumberStands(f, p, indent, '>' as int, w);
    assert IsDigit(f[p]) by {
      assert d == [d[0]] + d[1..];
      StandsSplit(f, p, d, ['>' as int] + w);
      StandsHead(f, p, d[0], d[1..]);
    }
    DigitLine(f, p, indent, q);
  }

  lemma NoIndentStep(f: seq<Byte>, p: nat, w: seq<Byte>)
    requires Stands(f, p, ['>' as int] + w)
    ensures LineAt(f, p) == After(Offset, f, p, NewMatchlet(0))
  {
    StandsHead(f, p, '>' as int, w);
  }

  lemma PlainLine(f: seq<Byte>, p: nat, m: Matchlet)
    requires Expressible(m) && m.indent == 0 && Stands(f, p, OffsetText(m))
    ensures LineAt(f, p) == EndOf(m, p + |OffsetText(m)|)
  {
    hide EndOf, After, LineAt;
    NoIndentStep(f, p, Dec(m.offset) + (['=' as int] + ValueText(m)));
    OffsetStands(f, p, m);
  }

  lemma IndentedLine(f: seq<Byte>, p: nat, m: Matchlet)
    requires Expressible(m) && Stands(f, p, Dec(m.indent) + OffsetText(m))
    ensures LineAt(f, p) == EndOf(m, p + |Dec(m.indent) + OffsetText(m)|)
  {
    hide EndOf, After, LineAt;
    var q := IndentStep(f, p, m.indent, Dec(m.offset) + (['=' as int] + ValueText(m)));
    OffsetStands(f, q, m);
  }

  /** A line is read, and its words turned around if they are whole. */
  lemma BytesStand(f: seq<Byte>, p: nat, m: Matchlet)
    requires Expressible(m) && Stands(f, p, LineBytes(m))
    ensures LineAt(f, p) == EndOf(m, p + |LineBytes(m)|)
  {
    hide EndOf, After, LineAt, OffsetText;
    if m.indent == 0 {
      PlainLine(f, p, m);
    } else {
      IndentedLine(f, p, m);
    }
  }

  /** A line whose value is no whole number of words is an error. */
  lemma BrokenLine(f: seq<Byte>, p: nat, m: Matchlet)
    requires Expressible(m) && Stands(f, p, LineBytes(m)) && m.wordSize > 1 && |m.value| % m.wordSize != 0
    ensures LineAt(f, p) == Line(InError, None, p + |LineBytes(m)|)
  {
    BytesStand(f, p, m);
  }

  /** So is a word size other than 0, 1, 2 and 4. */
  lemma WordRejected(f: seq<Byte>, p: nat, start: Matchlet, n: nat, c: Byte, rest: seq<Byte>)
    requires n != 0 && n != 1 && n != 2 && n != 4 && n <= INT_MAX && !IsDigit(c)
    requires Stands(f, p, ['~' as int] + (Dec(n) + ([c] + rest)))
    ensures After(Word, f, p, start) == Line(InError, None, p + 1 + |Dec(n)|)
  {
    hide NumberAt, Dec;
    StandsHead(f, p, '~' as int, Dec(n) + ([c] + rest));
    NumberStands(f, p + 1, n, c, rest);
  }

  /** The line of a matchlet: its words are written the other way round. */
  function LineText(m: Matchlet): seq<Byte>
    requires Readable(m)
  {
    LineBytes(Swapped(m))
  }

  /** A printed line is read back. */
  lemma LineStands(f: seq<Byte>, p: nat, m: Matchlet)
    requires Printable(m) && Stands(f, p, LineText(m))
    ensures LineAt(f, p) == Line(InMagic, Some(m), p + |LineText(m)|)
  {
    assert m.wordSize > 1 ==> m.value == [] || |m.value| == m.wordSize;
    SwappedTwice(m);
    BytesStand(f, p, Swapped(m));
  }

  // ----- sections -----

  predicate PrintableName(mime: string) {
    forall i :: 0 <= i < |mime| ==> mime[i] < 256 as char && mime[i] != ']' && mime[i] != '\n' && mime[i] != '\0'
  }

  predicate PrintableSection(s: Section) {
    && 0 <= s.priority <= INT_MAX && PrintableName(s.mime)
    && AllLines(s.matchlets)
  }

  predicate AllLines(ms: seq<Matchlet>) {
    forall i {:trigger ms[i]} :: 0 <= i < |ms| ==> Printable(ms[i])
  }

  predicate AllSections(secs: seq<Section>) {
    forall i {:trigger secs[i]} :: 0 <= i < |secs| ==> PrintableSection(secs[i])
  }

  /** A name with its closing bracket. */
  function NameText(mime: string): seq<Byte>
    requires PrintableName(mime)
  {
    if mime == [] then [']' as int] else [mime[0] as int] + NameText(mime[1..])
  }

  function LinesText(ms: seq<Matchlet>): seq<Byte>
    requires AllLines(ms)
  {
    if ms == [] then [] else LineText(ms[0]) + LinesText(ms[1..])
  }

  /** `[priority:type]` on a line of its own. */
  function HeaderText(s: Section): seq<Byte>
    requires PrintableSection(s)
  {
    ['[' as int] + (Dec(s.priority) + ([':' as int] + (NameText(s.mime) + [NL])))
  }

  function FileText(secs: seq<Section>): seq<Byte>
    requires AllSections(secs)
  {
    if secs == [] then [] else HeaderText(secs[0]) + (LinesText(secs[0].matchlets) + FileText(secs[1..]))
  }

  lemma {:induction false} NameMeaning(mime: string)
    requires PrintableName(mime)
    ensures UpToBracket(NameText(mime)) == Some(mime)
    ensures forall i :: 0 <= i < |NameText(mime)| ==> NameText(mime)[i] != NL && NameText(mime)[i] != 0
  {
    if mime != [] {
      NameMeaning(mime[1..]);
      assert NameText(mime)[1..] == NameText(mime[1..]);
      assert mime == [mime[0]] + mime[1..];
    }
  }

  lemma {:induction false} LineEndStands(f: seq<Byte>, p: nat, s: seq<Byte>)
    requires Stands(f, p, s + [NL]) && forall i :: 0 <= i < |s| ==> s[i] != NL && s[i] != 0
    ensures LineEnd(f, p) == p + |s|
    decreases |s|
  {
    if s == [] {
      StandsHead(f, p, NL, []);
    } else {
      assert s + [NL] == [s[0]] + (s[1..] + [NL]);
      StandsHead(f, p, s[0], s[1..] + [NL]);
      LineEndStands(f, p + 1, s[1..]);
    }
  }

  lemma HeaderStart(f: seq<Byte>, p: nat, priority: nat, name: seq<Byte>) returns (q: nat)
    requires priority <= INT_MAX && Stands(f, p, ['[' as int] + (Dec(priority) + ([':' as int] + name)))
    ensures q + |name| == p + |['[' as int] + (Dec(priority) + ([':' as int] + name))| && Stands(f, q, name)
    ensures p < |f| && f[p] == '[' as int && q > 0 && NumberAt(f, p + 1) == Number(priority, false, q - 1) && f[q - 1] == ':' as int
  {
    StandsHead(f, p, '[' as int, Dec(priority) + ([':' as int] + name));
    q := NumberThen(f, p + 1, priority, ':' as int, name);
  }

  lemma HeaderStands(f: seq<Byte>, p: nat, s: Section)
    requires PrintableSection(s) && Stands(f, p, HeaderText(s))
    ensures HeaderAt(f, p) == Header(InMagic, s.mime, s.priority, p + |HeaderText(s)|)
  {
    hide NumberAt, LineEnd, NameText, UpToBracket;
    var name := NameText(s.mime);
    var q := HeaderStart(f, p, s.priority, name + [NL]);
    NameMeaning(s.mime);
    LineEndStands(f, q, name);
    StandsSplit(f, q, name, [NL]);
  }

  // ----- the file -----

  /** A line that is read adds its matchlet to the section at hand. */
  lemma LineKept(f: seq<Byte>, p: nat, q: nat, m: Matchlet, cur: Section)
    requires p <= |f| && LineAt(f, p) == Line(InMagic, Some(m), q)
    ensures SectionsFrom(f, p, InMagic, cur) == SectionsFrom(f, q, InMagic, cur.(matchlets := cur.matchlets + [m]))
  {
  }

  lemma OneLine(f: seq<Byte>, p: nat, m: Matchlet, rest: seq<Byte>, cur: Section) returns (q: nat, next: Section)
    requires Printable(m) && Stands(f, p, LineText(m) + rest)
    ensures q + |rest| == p + |LineText(m) + rest| && Stands(f, q, rest)
    ensures next == cur.(matchlets := cur.matchlets + [m])
    ensures SectionsFrom(f, p, InMagic, cur) == SectionsFrom(f, q, InMagic, next)
  {
    StandsSplit(f, p, LineText(m), rest);
    LineStands(f, p, m);
    q, next := LineRead(f, p, LineText(m), m, rest, cur);
  }

  lemma LineRead(f: seq<Byte>, p: nat, line: seq<Byte>, m: Matchlet, rest: seq<Byte>, cur: Section) returns (q: nat, next: Section)
    requires Stands(f, p, line + rest) && LineAt(f, p) == Line(InMagic, Some(m), p + |line|)
    ensures q + |rest| == p + |line + rest| && Stands(f, q, rest)
    ensures next == cur.(matchlets := cur.matchlets + [m])
    ensures SectionsFrom(f, p, InMagic, cur) == SectionsFrom(f, q, InMagic, next)
  {
    StandsSplit(f, p, line, rest);
    q, next := p + |line|, cur.(matchlets := cur.matchlets + [m]);
    LineKept(f, p, q, m, cur);
  }

  lemma {:induction false} LinesStand(f: seq<Byte>, p: nat, ms: seq<Matchlet>, rest: seq<Byte>, cur: Section) returns (q: nat, done: Section)
    requires AllLines(ms) && Stands(f, p, LinesText(ms) + rest)
    ensures q + |rest| == p + |LinesText(ms) + rest| && Stands(f, q, rest)
    ensures done == cur.(matchlets := cur.matchlets + ms)
    ensures SectionsFrom(f, p, InMagic, cur) == SectionsFrom(f, q, InMagic, done)
    decreases |ms|
  {
    if ms == [] {
      assert LinesText(ms) + rest == rest && cur.matchlets + [] == cur.matchlets;
      q, done := p, cur;
    } else {
      var next;
      Regrouped(LineText(ms[0]), LinesText(ms[1..]), rest);
      q, next := OneLine(f, p, ms[0], LinesText(ms[1..]) + rest, cur);
      q, done := LinesStand(f, q, ms[1..], rest, next);
      Regrouped(cur.matchlets, [ms[0]], ms[1..]);
      assert [ms[0]] + ms[1..] == ms;
    }
  }

  /** After the lines of a section comes the next header or the end. */
  lemma SectionEnds(f: seq<Byte>, p: nat, cur: Section, more: seq<Section>)
    requires AllSections(more) && Stands(f, p, FileText(more)) && p + |FileText(more)| == |f|
    ensures SectionsFrom(f, p, InMagic, cur) == [cur] + SectionsFrom(f, p, InSection, cur)
  {
    if more != [] {
      var h := Dec(more[0].priority) + ([':' as int] + (NameText(more[0].mime) + [NL]));
      var rest := LinesText(more[0].matchlets) + FileText(more[1..]);
      StandsSplit(f, p, HeaderText(more[0]), rest);
      StandsHead(f, p, '[' as int, h);
    } else {
      assert HeaderAt(f, p).state.AtEof?;
      assert [cur] + [] == [cur];
    }
  }

  lemma OneHeader(f: seq<Byte>, p: nat, s: Section, rest: seq<Byte>, cur: Section) returns (q: nat, start: Section)
    requires PrintableSection(s) && Stands(f, p, HeaderText(s) + rest)
    ensures q + |rest| == p + |HeaderText(s) + rest| && Stands(f, q, rest)
    ensures start == Section(s.mime, s.priority, [])
    ensures SectionsFrom(f, p, InSection, cur) == SectionsFrom(f, q, InMagic, start)
  {
    StandsSplit(f, p, HeaderText(s), rest);
    HeaderStands(f, p, s);
    q, start := HeaderRead(f, p, HeaderText(s), s.mime, s.priority, rest, cur);
  }

  lemma HeaderRead(f: seq<Byte>, p: nat, header: seq<Byte>, mime: string, priority: int, rest: seq<Byte>, cur: Section) returns (q: nat, start: Section)
    requires Stands(f, p, header + rest) && HeaderAt(f, p) == Header(InMagic, mime, priority, p + |header|)
    ensures q + |rest| == p + |header + rest| && Stands(f, q, rest)
    ensures start == Section(mime, priority, [])
    ensures SectionsFrom(f, p, InSection, cur) == SectionsFrom(f, q, InMagic, start)
  {
    StandsSplit(f, p, header, rest);
    q, start := p + |header|, Section(mime, priority, []);
    HeaderKept(f, p, q, mime, priority, cur);
  }

  lemma HeaderKept(f: seq<Byte>, p: nat, q: nat, mime: string, priority: int, cur: Section)
    requires p <= |f| && HeaderAt(f, p) == Header(InMagic, mime, priority, q)
    ensures SectionsFrom(f, p, InSection, cur) == SectionsFrom(f, q, InMagic, Section(mime, priority, []))
  {
  }

  /** One printed section is read, up to the start of the next. */
  lemma OneSection(f: seq<Byte>, p: nat, s: Section, more: seq<Section>, cur: Section) returns (q: nat)
    requires PrintableSection(s) && AllSections(more)
    requires Stands(f, p, HeaderText(s) + (LinesText(s.matchlets) + FileText(more)))
    requires p + |HeaderText(s) + (LinesText(s.matchlets) + FileText(more))| == |f|
    ensures q + |FileText(more)| == |f| && Stands(f, q, FileText(more))
    ensures SectionsFrom(f, p, InSection, cur) == [s] + SectionsFrom(f, q, InSection, s)
  {
    var start, done;
    q, start := OneHeader(f, p, s, LinesText(s.matchlets) + FileText(more), cur);
    q, done := LinesStand(f, q, s.matchlets, FileText(more), start);
    assert done == s;
    SectionEnds(f, q, s, more);
  }

  lemma {:induction false} FileStands(f: seq<Byte>, p: nat, secs: seq<Section>, cur: Section)
    requires AllSections(secs) && Stands(f, p, FileText(secs)) && p + |FileText(secs)| == |f|
    ensures SectionsFrom(f, p, InSection, cur) == secs
    decreases |secs|
  {
    if secs != [] {
      var q := OneSection(f, p, secs[0], secs[1..], cur);
      FileStands(f, q, secs[1..], secs[0]);
      assert secs == [secs[0]] + secs[1..];
    }
  }

  /** Every database the format can express is read back from its text, section
      by section and line by line. */
  lemma FileRoundTrip(secs: seq<Section>)
    requires AllSections(secs)
    ensures SectionsOf(HEADER + FileText(secs)) == secs
  {
    hide SectionsFrom, FileText, AllSections;
    var f := HEADER + FileText(secs);
    assert Stands(f, |HEADER|, FileText(secs));
    FileStands(f, |HEADER|, secs, Section("", 0, []));
  }

  // ----- errors -----

  lemma {:induction false} ErrorEndStands(f: seq<Byte>, p: nat, s: seq<Byte>, rest: seq<Byte>)
    requires Stands(f, p, s + ([NL] + rest)) && NL !in s
    ensures ErrorEnd(f, p) == p + |s| + 1 && Stands(f, p + |s| + 1, rest) && f[p + |s|] == NL
    decreases |s|
  {
    if s == [] {
      assert s + ([NL] + rest) == [NL] + rest;
      StandsHead(f, p, NL, rest);
    } else {
      assert s + ([NL] + rest) == [s[0]] + (s[1..] + ([NL] + rest));
      StandsHead(f, p, s[0], s[1..] + ([NL] + rest));
      ErrorEndStands(f, p + 1, s[1..], rest);
    }
  }

  lemma ErrorKept(f: seq<Byte>, p: nat, e: nat, cur: Section)
    requires p < e <= |f| && e == ErrorEnd(f, p) && f[e - 1] == NL
    ensures SectionsFrom(f, p, InError, cur) == SectionsFrom(f, e, InSection, cur)
  {
    hide ErrorEnd;
  }

  lemma ErrorSkipped(f: seq<Byte>, p: nat, s: seq<Byte>, rest: seq<Byte>, cur: Section)
    requires Stands(f, p, s + ([NL] + rest)) && NL !in s
    ensures SectionsFrom(f, p, InError, cur) == SectionsFrom(f, p + |s| + 1, InSection, cur) && Stands(f, p + |s| + 1, rest)
  {
    hide SectionsFrom, ErrorEnd;
    ErrorEndStands(f, p, s, rest);
    ErrorKept(f, p, p + |s| + 1, cur);
  }

  /** A line that begins with none of the expected characters is an error. */
  lemma BadStart(f: seq<Byte>, p: nat)
    requires p < |f| && f[p] != '[' as int && f[p] != '>' as int && !IsDigit(f[p]) && f[p] != NL
    ensures LineAt(f, p) == Line(InError, None, p + 1)
  {
    hide NumberAt;
  }

  lemma BadKept(f: seq<Byte>, p: nat, cur: Section)
    requires p < |f| && LineAt(f, p) == Line(InError, None, p + 1)
    ensures SectionsFrom(f, p, InMagic, cur) == SectionsFrom(f, p + 1, InError, cur)
  {
    hide LineAt;
  }

  lemma BadLine(f: seq<Byte>, p: nat, bad: seq<Byte>, rest: seq<Byte>, cur: Section)
    requires bad != [] && bad[0] != '[' as int && bad[0] != '>' as int && !IsDigit(bad[0]) && NL !in bad
    requires Stands(f, p, bad + ([NL] + rest))
    ensures SectionsFrom(f, p, InMagic, cur) == SectionsFrom(f, p + |bad| + 1, InSection, cur) && Stands(f, p + |bad| + 1, rest)
  {
    hide SectionsFrom, LineAt, Stands;
    assert bad + ([NL] + rest) == [bad[0]] + (bad[1..] + ([NL] + rest));
    StandsHead(f, p, bad[0], bad[1..] + ([NL] + rest));
    BadStart(f, p);
    BadKept(f, p, cur);
    ErrorSkipped(f, p + 1, bad[1..], rest, cur);
  }

  /** A section with such a line is dropped, with the lines read before it; the sections after it are read. */
  lemma BadSectionDropped(s: Section, bad: seq<Byte>, more: seq<Section>)
    requires PrintableSection(s) && AllSections(more)
    requires bad != [] && bad[0] != '[' as int && bad[0] != '>' as int && !IsDigit(bad[0]) && NL !in bad
    ensures SectionsOf(HEADER + (HeaderText(s) + (LinesText(s.matchlets) + (bad + ([NL] + FileText(more)))))) == more
  {
    hide SectionsFrom, FileText, AllSections, HeaderText, LinesText;
    var rest := LinesText(s.matchlets) + (bad + ([NL] + FileText(more)));
    var f, none := HEADER + (HeaderText(s) + rest), Section("", 0, []);
    assert Stands(f, |HEADER|, HeaderText(s) + rest);
    var q, start := OneHeader(f, |HEADER|, s, rest, none);
    var done;
    q, done := LinesStand(f, q, s.matchlets, bad + ([NL] + FileText(more)), start);
    BadLine(f, q, bad, FileText(more), done);
    FileStands(f, q + |bad| + 1, more, done);
  }

  /** The same for a line in the place of a header. */
  lemma BadHeaderSkipped(bad: seq<Byte>, more: seq<Section>)
    requires AllSections(more) && bad != [] && bad[0] != '[' as int && NL !in bad
    ensures SectionsOf(HEADER + (bad + ([NL] + FileText(more)))) == more
  {
    hide FileText, AllSections;
    var rest := [NL] + FileText(more);
    var f, none, p := HEADER + (bad + rest), Section([], 0, []), |HEADER|;
    assert Stands(f, p, bad + rest);
    assert bad + rest == [bad[0]] + (bad[1..] + rest);
    StandsHead(f, p, bad[0], bad[1..] + rest);
    assert SectionsOf(f) == SectionsFrom(f, p + 1, InError, none);
    hide SectionsFrom;
    ErrorSkipped(f, p + 1, bad[1..], FileText(more), none);
    FileStands(f, p + |bad| + 1, more, none);
  }

  // ----- one file, byte by byte -----

  /** Two lines: the bytes "#!" under a mask at one of three places, and below it a word of two bytes. */
  function FirstRule(): Matchlet { Matchlet(0, 4, [35, 33], Some([255, 240]), 3, 1) }

  function SecondRule(): Matchlet { Matchlet(1, 12, [1, 2], None, 1, 2) }

  lemma Numbers()
    ensures Dec(50) == [53, 48] && Dec(12) == [49, 50] && Dec(4) == [52] && Dec(3) == [51] && Dec(2) == [50] && Dec(1) == [49]
  {
    assert Dec(5) == [53];
  }

  /** The lines ">4=..#!&..+3" and "1>12=....~2": length, value and mask are bytes, the word has its bytes turned around. */
  lemma LinesInFile()
    ensures LineText(FirstRule()) == [62, 52, 61, 0, 2, 35, 33, 38, 255, 240, 43, 51, 10]
    ensures LineText(SecondRule()) == [49, 62, 49, 50, 61, 0, 2, 2, 1, 126, 50, 10]
  {
    Numbers();
    hide Dec;
    FirstLine();
    SecondLine();
  }

  lemma FirstLine()
    requires Dec(4) == [52] && Dec(3) == [51]
    ensures LineText(FirstRule()) == [62, 52, 61, 0, 2, 35, 33, 38, 255, 240, 43, 51, 10]
  {
    hide Dec;
    var m := FirstRule();
    assert RangeText(m) == [43, 51, 10];
    assert MaskText(m) == [38, 255, 240] + RangeText(m);
    assert ValueText(m) == [0, 2, 35, 33] + MaskText(m);
    assert OffsetText(m) == [62, 52, 61] + ValueText(m);
  }

  lemma SecondLine()
    requires Dec(12) == [49, 50] && Dec(2) == [50] && Dec(1) == [49]
    ensures LineText(SecondRule()) == [49, 62, 49, 50, 61, 0, 2, 2, 1, 126, 50, 10]
  {
    hide Dec;
    var m := Matchlet(1, 12, [2, 1], None, 1, 2);
    assert Backwards([1, 2]) == [2, 1];
    assert Overwritten([1, 2], 0, [2, 1]) == [2, 1];
    assert SwapFrom([1, 2], 2, 0) == SwapFrom([2, 1], 2, 2) == [2, 1];
    assert Swapped(SecondRule()) == m;
    assert MaskText(m) == [126, 50, 10];
    assert ValueText(m) == [0, 2, 2, 1] + MaskText(m);
    assert OffsetText(m) == [62, 49, 50, 61] + ValueText(m);
  }

  /** A whole file: "MIME-Magic", a zero and a newline; "[50:t/x]"; the two lines. */
  lemma OneFile()
    ensures SectionsOf([77, 73, 77, 69, 45, 77, 97, 103, 105, 99, 0, 10]
                       + ([91, 53, 48, 58, 116, 47, 120, 93, 10]
                          + ([62, 52, 61, 0, 2, 35, 33, 38, 255, 240, 43, 51, 10] + [49, 62, 49, 50, 61, 0, 2, 2, 1, 126, 50, 10])))
         == [Section("t/x", 50, [FirstRule(), SecondRule()])]
  {
    var s := Section("t/x", 50, [FirstRule(), SecondRule()]);
    LinesInFile();
    TextInFile(s);
    FileRoundTrip([s]);
    hide SectionsOf, FileText;
  }

  lemma TextInFile(s: Section)
    requires s == Section("t/x", 50, [FirstRule(), SecondRule()])
    ensures AllSections([s]) && PrintableSection(s)
    ensures FileText([s]) == [91, 53, 48, 58, 116, 47, 120, 93, 10] + (LineText(FirstRule()) + LineText(SecondRule()))
  {
    Numbers();
    hide Dec, LineText, Expressible;
    RulesPrintable();
    assert NameText("x") == [120, 93];
    assert NameText("/x") == [47, 120, 93];
    assert NameText("t/x") == [116, 47, 120, 93];
    var ms := s.matchlets;
    assert ms[1..] == [SecondRule()] && ms[1..][1..] == [];
    assert LinesText(ms[1..]) == LineText(SecondRule()) + [];
    assert [s][1..] == [];
  }

  lemma RulesPrintable()
    ensures Printable(FirstRule()) && Printable(SecondRule())
  {
  }
}
