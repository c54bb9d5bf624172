/** Magic rules in a mapped cache file: matchlets with arrays of children. */
module MagicCache {
  import opened CStrings
  import opened PackedBuffer
  import opened Magic
  import opened MagicRules
  import opened MagicList

  const MATCHLET := 32

  function Siblings(f: Forest): nat {
    if f.Nil? then 0 else 1 + Siblings(f.rest)
  }

  /** The number of matchlets. */
  ghost function Matchlets(f: Forest): nat {
    if f.Nil? then 0 else 1 + Matchlets(f.kids) + Matchlets(f.rest)
  }

  predicate BytesAt(buf: seq<Byte>, off: nat, s: seq<Byte>) {
    off + |s| <= |buf| && buf[off..off + |s|] == s
  }

  /** The fields of one matchlet; a mask at offset 0 is no mask. */
  ghost predicate PackedOne(buf: seq<Byte>, at: nat, m: Matchlet) {
    && at + MATCHLET <= |buf|
    && U32(buf, at) == m.offset && U32(buf, at + 4) == m.rangeLength
    && m.offset + m.rangeLength < 0x1_0000_0000
    && U32(buf, at + 12) == |m.value| && BytesAt(buf, U32(buf, at + 16), m.value)
    && (if U32(buf, at + 20) == 0 then m.mask == None
        else m.mask.Some? && |m.mask.value| == |m.value| && BytesAt(buf, U32(buf, at + 20), m.mask.value))
  }

  /** The array of matchlets at `off` holds the siblings of the forest, each
      pointing to the array of its children. */
  ghost predicate Packed(buf: seq<Byte>, off: nat, f: Forest)
    decreases f
  {
    f.More? ==>
      && PackedOne(buf, off, f.m)
      && U32(buf, off + 24) == Siblings(f.kids) && Packed(buf, U32(buf, off + 28), f.kids)
      && Packed(buf, off + MATCHLET, f.rest)
  }

  /** The matchlet read from its fields. */
  method ReadMatchlet(buf: seq<Byte>, at: nat, ghost m: Matchlet) returns (r: Matchlet)
    requires PackedOne(buf, at, m)
    ensures r == m.(indent := 0, wordSize := 1)
  {
    var length, valueAt, maskAt := U32(buf, at + 12), U32(buf, at + 16), U32(buf, at + 20);
    var mask := if maskAt == 0 then None else Some(buf[maskAt..maskAt + length]);
    r := Matchlet(0, U32(buf, at), buf[valueAt..valueAt + length], mask, U32(buf, at + 4), 1);
  }

  lemma FitsFields(a: Matchlet, b: Matchlet, data: seq<Byte>)
    requires a == b.(indent := 0, wordSize := 1)
    ensures Fits(a, data) <==> Fits(b, data)
  {
    forall i | a.offset <= i < a.offset + a.rangeLength ensures FitsAt(a, data, i) <==> FitsAt(b, data, i) {
      if i + |a.value| <= |data| {
        assert forall j :: 0 <= j < |a.value| ==> (ByteFits(a, data, i, j) <==> ByteFits(b, data, i, j));
      }
    }
  }

  /** `cache_magic_matchlet_compare`: the matchlet with what is below it. */
  method Compare(buf: seq<Byte>, off: nat, data: seq<Byte>, ghost f: Forest) returns (res: bool)
    requires f.More? && Packed(buf, off, f)
    ensures res <==> Fits(f.m, data) && (f.kids.Nil? || Succeeds(f.kids, data))
    decreases Matchlets(f), 0
  {
    var children, childAt := U32(buf, off + 24), U32(buf, off + 28);
    var m := ReadMatchlet(buf, off, f.m);
    FitsFields(m, f.m, data);
    res := CompareToData(m, data);
    if res && children != 0 {
      res := CompareAny(buf, children, childAt, data, f.kids);
    }
  }

  /** The siblings after the first, when that one fails. */
  lemma NextSibling(buf: seq<Byte>, off: nat, all: Forest, f: Forest, data: seq<Byte>) returns (rest: Forest)
    requires f.More? && Packed(buf, off, f) && !(Fits(f.m, data) && (f.kids.Nil? || Succeeds(f.kids, data)))
    requires SameOutcome(all, f, data)
    ensures Packed(buf, off + MATCHLET, rest) && Siblings(f) == 1 + Siblings(rest) && Matchlets(rest) < Matchlets(f)
    ensures SameOutcome(all, rest, data)
  {
    rest := f.rest;
  }

  /** Whether one of `n` sibling matchlets succeeds. */
  method CompareAny(buf: seq<Byte>, n: nat, off: nat, data: seq<Byte>, ghost f: Forest) returns (res: bool)
    requires n == Siblings(f) && Packed(buf, off, f)
    ensures res <==> Succeeds(f, data)
    decreases Matchlets(f), 1
  {
    ghost var rest := f;
    var i: nat, at: nat := 0, off;
    while i < n
      invariant 0 <= i <= n && n - i == Siblings(rest) && Packed(buf, at, rest) && Matchlets(rest) <= Matchlets(f)
      invariant SameOutcome(f, rest, data)
    {
      res := Compare(buf, at, data, rest);
      if res { return; }
      rest := NextSibling(buf, at, f, rest, data);
      i, at := i + 1, at + MATCHLET;
    }
    res := false;
  }

  ghost predicate SameOutcome(f: Forest, g: Forest, data: seq<Byte>) {
    Succeeds(f, data) <==> Succeeds(g, data)
  }

  // ----- sections -----

  const SECTION := 16

  /** A list of matchlets that stands for a forest. */
  ghost predicate Regular(ms: seq<Matchlet>) {
    Rising(ms) && (ms == [] || ms[0].indent == 0)
  }

  /** The section record at `at` and the forest of its matchlets. */
  ghost predicate PackedSection(buf: seq<Byte>, at: nat, s: Section) {
    && at + SECTION <= |buf| && Regular(s.matchlets)
    && U32(buf, at) == s.priority && StringAt(buf, U32(buf, at + 4)) == s.mime
    && U32(buf, at + 8) == Siblings(Parse(s.matchlets, 0).forest)
    && Packed(buf, U32(buf, at + 12), Parse(s.matchlets, 0).forest)
  }

  /** `cache_magic_compare_to_data`: the packed evaluator says what the level
      evaluator says of the flat list. */
  method CompareSection(buf: seq<Byte>, at: nat, data: seq<Byte>, ghost s: Section) returns (res: bool)
    requires PackedSection(buf, at, s)
    ensures res <==> Accepts(s, data)
    ensures res <==> exists p :: IsPath(Parse(s.matchlets, 0).forest, p) && AllFit(p, data)
  {
    LevelMeansPath(s.matchlets, data);
    res := CompareAny(buf, U32(buf, at + 8), U32(buf, at + 12), data, Parse(s.matchlets, 0).forest);
  }

  /** The magic section of a file holds `secs`, in order. */
  ghost predicate Holding(buf: seq<Byte>, secs: seq<Section>) {
    && 28 <= |buf| && U32(buf, 24) + 12 <= |buf| && U32(buf, U32(buf, 24)) == |secs|
    && forall i {:trigger secs[i]} :: 0 <= i < |secs| ==> PackedSection(buf, U32(buf, U32(buf, 24) + 8) + SECTION * i, secs[i])
  }

  /** `cache_magic_lookup_data`: the first section that accepts, and the same
      candidates erased as in the linked database. */
  method LookupData(buf: seq<Byte>, data: seq<Byte>, cands: array<Option<string>>, same: (string, string) -> bool, ghost secs: seq<Section>)
    returns (mime: Option<string>, priority: int)
    requires Holding(buf, secs)
    modifies cands
    ensures Left(cands[..], old(cands[..]), secs[..Hit(secs, data)], same)
    ensures
      var k := Hit(secs, data);
      && mime == (if k < |secs| then Some(secs[k].mime) else None)
      && priority == (if k < |secs| then secs[k].priority else 0)
  {
    mime, priority := None, 0;
    var list := U32(buf, 24);
    var n, offset := U32(buf, list), U32(buf, list + 8);
    for k := 0 to n
      invariant NoneOf(secs, k, data) && Left(cands[..], old(cands[..]), secs[..k], same)
    {
      var accepts := TrySection(buf, offset + SECTION * k, data, cands, same, old(cands[..]), secs, k, k + 1);
      if accepts {
        HitIs(secs, data, k);
        return Some(StringAt(buf, U32(buf, offset + SECTION * k + 4))), U32(buf, offset + SECTION * k);
      }
    }
    HitIs(secs, data, n);
  }

  ghost predicate NoneOf(secs: seq<Section>, k: nat, data: seq<Byte>) {
    k <= |secs| && forall i :: 0 <= i < k ==> !Accepts(secs[i], data)
  }

  /** One section: it accepts, or its type is erased. */
  method TrySection(buf: seq<Byte>, at: nat, data: seq<Byte>, cands: array<Option<string>>, same: (string, string) -> bool,
                    ghost orig: seq<Option<string>>, ghost secs: seq<Section>, ghost k: nat, ghost k1: nat)
    returns (accepts: bool)
    requires k < |secs| && k1 == k + 1 && PackedSection(buf, at, secs[k]) && NoneOf(secs, k, data)
    requires Left(cands[..], orig, secs[..k], same)
    modifies cands
    ensures accepts <==> Accepts(secs[k], data)
    ensures accepts ==> cands[..] == old(cands[..])
    ensures !accepts ==> NoneOf(secs, k1, data) && Left(cands[..], orig, secs[..k1], same)
  {
    accepts := CompareSection(buf, at, data, secs[k]);
    if !accepts {
      EraseTried(cands, StringAt(buf, U32(buf, at + 4)), same, orig, secs, k, k1);
    }
  }
}
