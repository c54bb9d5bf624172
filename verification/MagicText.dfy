/** The text of a magic file: what each position of the file parses to. */
module MagicText {
  import opened CStrings
  import opened PackedBuffer
  import opened Magic
  import opened MagicRules

  datatype State = InSection | InMagic | InError | AtEof

  const NL: Byte := 10

  predicate Is(f: seq<Byte>, p: nat, c: char) {
    p < |f| && f[p] == c as int
  }

  // ----- numbers -----

  predicate IsDigit(b: Byte) {
    48 <= b <= 57
  }

  const MAX_DIGITS := 30

  /** The position after the digits, but not after `stop`. */
  function DigitsEnd(f: seq<Byte>, p: nat, stop: nat): (e: nat)
    requires p <= |f| && p <= stop
    ensures p <= e <= |f| && e <= stop
    ensures forall i :: p <= i < e ==> IsDigit(f[i])
    ensures e < |f| && e < stop ==> !IsDigit(f[e])
    decreases |f| - p
  {
    if p < |f| && p < stop && IsDigit(f[p]) then DigitsEnd(f, p + 1, stop) else p
  }

  function Value(digits: seq<Byte>): int {
    if digits == [] then 0 else 10 * Value(digits[..|digits| - 1]) + digits[|digits| - 1] - 48
  }

  /** A number that was read: -1 stands for none or too large. */
  datatype Number = Number(value: int, eof: bool, next: nat)

  function NumberAt(f: seq<Byte>, p: nat): (n: Number)
    requires p <= |f|
    ensures p <= n.next <= |f| && -1 <= n.value <= INT_MAX
    ensures n.value >= 0 ==> n.next > p
  {
    var e := DigitsEnd(f, p, p + MAX_DIGITS);
    var v := Value(f[p..e]);
    Number(if e == p || v > INT_MAX || v < 0 then -1 else v, e == |f| && e < p + MAX_DIGITS, e)
  }

  // ----- headers -----

  /** The position of the next newline or NUL, or the end. */
  function LineEnd(f: seq<Byte>, p: nat): (e: nat)
    requires p <= |f|
    ensures p <= e <= |f|
    decreases |f| - p
  {
    if p == |f| || f[p] == NL || f[p] == 0 then p else LineEnd(f, p + 1)
  }

  /** The characters of `s` before the first bracket, if there is one. */
  function UpToBracket(s: seq<Byte>): Option<string> {
    if s == [] then None
    else if s[0] == ']' as int then Some([])
    else match UpToBracket(s[1..])
      case None => None
      case Some(r) => Some([s[0] as char] + r)
  }

  datatype Header = Header(state: State, mime: string, priority: int, next: nat)

  /** `_xdg_mime_magic_parse_header`. */
  function HeaderAt(f: seq<Byte>, p: nat): (h: Header)
    requires p <= |f|
    ensures h.next <= |f| && !h.state.InSection?
    ensures !h.state.AtEof? ==> h.next > p
  {
    var eof := Header(AtEof, [], 0, |f|);
    if p == |f| then eof
    else if f[p] != '[' as int then Header(InError, [], 0, p + 1)
    else
      var n := NumberAt(f, p + 1);
      if n.eof then eof
      else if n.value == -1 then Header(InError, [], 0, n.next)
      else if n.next == |f| then eof
      else if f[n.next] != ':' as int then Header(InError, [], 0, n.next + 1)
      else
        var e := LineEnd(f, n.next + 1);
        if e == |f| then eof
        else match UpToBracket(f[n.next + 1..e])
          case None => Header(InError, [], 0, e + 1)
          case Some(mime) => Header(InMagic, mime, n.value, e + 1)
  }

  // ----- lines -----

  datatype Line = Line(state: State, matchlet: Option<Matchlet>, next: nat)

  function Eof(f: seq<Byte>): Line {
    Line(AtEof, None, |f|)
  }

  function Bad(p: nat): Line {
    Line(InError, None, p)
  }

  /** The field of a line that comes next. */
  datatype Field = Offset | Length | Mask | Word | Range | End

  function Left(x: Field): nat {
    match x
    case Offset => 5
    case Length => 4
    case Mask => 3
    case Word => 2
    case Range => 1
    case End => 0
  }

  // ----- words -----

  /** `s` written at `p`; what would lie behind the end is not part of the value. */
  function Overwritten(v: seq<Byte>, p: nat, s: seq<Byte>): (r: seq<Byte>)
    ensures |r| == |v|
  {
    seq(|v|, k requires 0 <= k < |v| => if p <= k < p + |s| then s[k - p] else v[k])
  }

  function Backwards(s: seq<Byte>): (r: seq<Byte>)
    ensures |r| == |s|
  {
    seq(|s|, k requires 0 <= k < |s| => s[|s| - 1 - k])
  }

  /** The loop over the words: the one at byte `i` is reversed and goes to the place of word `i`. */
  function SwapFrom(v: seq<Byte>, w: nat, i: nat): (r: seq<Byte>)
    ensures |r| == |v|
    decreases |v| - i
  {
    if w == 0 || i + w > |v| then v else SwapFrom(Overwritten(v, w * i, Backwards(v[i..i + w])), w, i + w)
  }

  /** The matchlet on a little-endian machine. */
  function Swapped(m: Matchlet): (r: Matchlet)
    ensures r == m.(value := r.value, mask := r.mask) && |r.value| == |m.value|
    ensures r.mask.Some? <==> m.mask.Some?
    ensures r.mask.Some? ==> |r.mask.value| == |m.mask.value|
  {
    if m.wordSize <= 1 then m
    else m.(value := SwapFrom(m.value, m.wordSize, 0),
            mask := match m.mask case None => None case Some(mask) => Some(SwapFrom(mask, m.wordSize, 0)))
  }

  /** What holds of a line while it is read. */
  predicate InProgress(m: Matchlet) {
    (m.wordSize <= 1 || IsWord(m.wordSize)) && (m.mask.Some? ==> |m.mask.value| == |m.value|)
  }

  predicate IsWord(w: nat) {
    w == 2 || w == 4
  }

  /** Every word goes to a place inside the value. */
  ghost predicate StaysInside(v: seq<Byte>, w: nat) {
    forall k: nat :: k * w < |v| ==> (k * w) * w + w <= |v|
  }

  /** That is so exactly when there is no second word. */
  lemma StaysInsideExact(v: seq<Byte>, w: nat)
    requires IsWord(w) && |v| % w == 0
    ensures StaysInside(v, w) <==> |v| <= w
  {
    if |v| > w {
      var k := |v| / w - 1;
      assert k * w == |v| - w;
      assert (k * w) * w + w > |v|;
    } else {
      forall k: nat | k * w < |v| ensures (k * w) * w + w <= |v| { assert k == 0; }
    }
  }

  /** Each word reversed where it is. */
  function WordsReversed(v: seq<Byte>, w: nat): (r: seq<Byte>)
    ensures |r| == |v|
    decreases |v|
  {
    if w == 0 || |v| < w then v else Backwards(v[..w]) + WordsReversed(v[w..], w)
  }

  lemma FirstWord(v: seq<Byte>, w: nat)
    requires IsWord(w) && (v == [] || |v| == w)
    ensures WordsReversed(v, w) == Backwards(v)
  {
    if v != [] { assert v[..w] == v && v[w..] == []; }
  }

  lemma SecondWord(v: seq<Byte>, w: nat)
    requires IsWord(w) && |v| >= 2 * w
    ensures WordsReversed(v, w)[w] == v[2 * w - 1]
  {
    var rest := v[w..];
    assert WordsReversed(rest, w)[0] == Backwards(rest[..w])[0];
  }

  /** The second word is never written. */
  lemma {:induction false} SecondStays(v: seq<Byte>, w: nat, i: nat, k: nat)
    requires IsWord(w) && (i == 0 || i >= w) && w <= k < 2 * w && k < |v|
    ensures SwapFrom(v, w, i)[k] == v[k]
    decreases |v| - i
  {
    if i + w <= |v| {
      assert w * i == 0 || w * i >= 2 * w;
      SecondStays(Overwritten(v, w * i, Backwards(v[i..i + w])), w, i + w, k);
    }
  }

  /** The loop reverses each word of every value of a length exactly when there is no second word. */
  lemma SwapExact(n: nat, w: nat)
    requires IsWord(w) && n % w == 0
    ensures (forall v: seq<Byte> :: |v| == n ==> SwapFrom(v, w, 0) == WordsReversed(v, w)) <==> n <= w
  {
    if n <= w {
      forall v: seq<Byte> | |v| == n ensures SwapFrom(v, w, 0) == WordsReversed(v, w) {
        OneWord(v, w);
        FirstWord(v, w);
      }
    } else {
      var v := Marked(n, w);
      SecondStays(v, w, 0, w);
      SecondWord(v, w);
      assert SwapFrom(v, w, 0)[w] != WordsReversed(v, w)[w];
    }
  }

  /** Zeros, and a one at the start of the second word. */
  function Marked(n: nat, w: nat): (v: seq<Byte>)
    ensures |v| == n && forall k :: 0 <= k < n ==> v[k] == if k == w then 1 else 0
  {
    seq(n, k => if k == w then 1 else 0)
  }

  /** A value of one word is reversed, and reversed back. */
  lemma OneWord(v: seq<Byte>, w: nat)
    requires IsWord(w) && (v == [] || |v| == w)
    ensures SwapFrom(v, w, 0) == Backwards(v) && SwapFrom(SwapFrom(v, w, 0), w, 0) == v
  {
    OneTurn(v, w);
    OneTurn(Backwards(v), w);
    assert Backwards(Backwards(v)) == v;
  }

  lemma OneTurn(v: seq<Byte>, w: nat)
    requires IsWord(w) && (v == [] || |v| == w)
    ensures SwapFrom(v, w, 0) == Backwards(v)
  {
    if v != [] {
      assert v[0..w] == v && w * 0 == 0;
      assert Overwritten(v, 0, Backwards(v)) == Backwards(v);
    }
  }

  lemma SwappedTwice(m: Matchlet)
    requires m.wordSize > 1 ==> IsWord(m.wordSize) && (m.value == [] || |m.value| == m.wordSize)
    requires m.mask.Some? ==> |m.mask.value| == |m.value|
    ensures Swapped(Swapped(m)) == m
  {
    if m.wordSize > 1 {
      OneWord(m.value, m.wordSize);
      if m.mask.Some? { OneWord(m.mask.value, m.wordSize); }
    }
  }

  /** `_xdg_mime_magic_matchlet_new`. */
  function NewMatchlet(indent: nat): Matchlet {
    Matchlet(indent, 0, [], None, 1, 1)
  }

  /** `_xdg_mime_magic_parse_magic_line`. */
  function LineAt(f: seq<Byte>, p: nat): (l: Line)
    requires p <= |f|
    ensures l.next <= |f|
    ensures l.state.InSection? ==> l.next == p && Is(f, p, '[')
    ensures l.state.InMagic? || l.state.InError? ==> l.next > p
    ensures l.matchlet.Some? ==> l.state.InMagic?
  {
    if p == |f| then Eof(f)
    else if f[p] == '[' as int then Line(InSection, None, p)
    else if f[p] == NL then Line(InMagic, None, p + 1)
    else if IsDigit(f[p]) then
      var n := NumberAt(f, p);
      if n.eof then Eof(f) else if n.value == -1 then Bad(n.next) else After(Offset, f, n.next, NewMatchlet(n.value))
    else After(Offset, f, p, NewMatchlet(0))
  }

  /** The rest of a line, from the given field on. */
  function After(x: Field, f: seq<Byte>, p: nat, m: Matchlet): (l: Line)
    requires p <= |f|
    ensures l.next <= |f| && (!l.state.AtEof? ==> l.next > p) && (l.matchlet.Some? <==> l.state.InMagic?) && !l.state.InSection?
    decreases |f| - p, Left(x)
  {
    match x
    case Offset =>
      if p == |f| then Eof(f)
      else if f[p] != '>' as int then Bad(p + 1)
      else
        var n := NumberAt(f, p + 1);
        if n.eof then Eof(f)
        else if n.value == -1 then Bad(n.next)
        else if n.next == |f| then Eof(f)
        else if f[n.next] != '=' as int then Bad(n.next + 1)
        else After(Length, f, n.next + 1, m.(offset := n.value))
    case Length =>
      if |f| < p + 2 then Eof(f)
      else
        var hi: nat, lo: nat := f[p], f[p + 1];
        var q := p + 2 + (hi * 256 + lo);
        if q > |f| then Eof(f) else After(Mask, f, q, m.(value := f[p + 2..q]))
    case Mask =>
      if !Is(f, p, '&') then After(Word, f, p, m)
      else
        var q := p + 1 + |m.value|;
        if q > |f| then Eof(f) else After(Word, f, q, m.(mask := Some(f[p + 1..q])))
    case Word =>
      if !Is(f, p, '~') then After(Range, f, p, m)
      else
        var n := NumberAt(f, p + 1);
        if n.eof then Eof(f)
        else if n.value != 0 && n.value != 1 && n.value != 2 && n.value != 4 then Bad(n.next)
        else After(Range, f, n.next, m.(wordSize := n.value))
    case Range =>
      if !Is(f, p, '+') then After(End, f, p, m)
      else
        var n := NumberAt(f, p + 1);
        if n.eof then Eof(f)
        else if n.value == -1 then Bad(n.next)
        else After(End, f, n.next, m.(rangeLength := n.value))
    case End =>
      if p == |f| then Eof(f)
      else if f[p] != NL then Bad(p + 1)
      else if m.wordSize > 1 && |m.value| % m.wordSize != 0 then Bad(p + 1)
      else Line(InMagic, Some(Swapped(m)), p + 1)
  }

  // ----- the file -----

  /** `_xdg_mime_magic_parse_error`: the position after the next newline, or the end. */
  function ErrorEnd(f: seq<Byte>, p: nat): (e: nat)
    requires p <= |f|
    ensures p <= e <= |f|
    decreases |f| - p
  {
    if p == |f| then p else if f[p] == NL then p + 1 else ErrorEnd(f, p + 1)
  }

  function Rank(s: State): nat {
    match s
    case AtEof => 0
    case InSection => 1
    case InMagic => 2
    case InError => 3
  }

  /** The sections that reading from `p` inserts; `cur` is the one being read. */
  function SectionsFrom(f: seq<Byte>, p: nat, s: State, cur: Section): seq<Section>
    requires p <= |f|
    decreases |f| - p, Rank(s)
  {
    match s
    case AtEof => []
    case InSection =>
      var h := HeaderAt(f, p);
      if h.state.AtEof? then [] else SectionsFrom(f, h.next, h.state, Section(h.mime, h.priority, []))
    case InMagic =>
      var l := LineAt(f, p);
      if l.state.AtEof? then [cur]
      else if l.state.InSection? then [cur] + SectionsFrom(f, l.next, InSection, cur)
      else if l.state.InMagic? then SectionsFrom(f, l.next, InMagic, WithLine(cur, l.matchlet))
      else SectionsFrom(f, l.next, InError, cur)
    case InError =>
      var e := ErrorEnd(f, p);
      if e > p && f[e - 1] == NL then SectionsFrom(f, e, InSection, cur) else []
  }

  /** The section with one more line at its end. */
  function WithLine(s: Section, m: Option<Matchlet>): Section {
    match m
    case None => s
    case Some(x) => s.(matchlets := s.matchlets + [x])
  }
}
