/** The magic database as a list of sections: its order, its answers, and how much data it reads. */
module MagicRules {
  import opened CStrings
  import opened PackedBuffer
  import opened Magic

  datatype Section = Section(mime: string, priority: int, matchlets: seq<Matchlet>)

  ghost predicate Accepts(s: Section, data: seq<Byte>) {
    Level(s.matchlets, data, 0)
  }

  // ----- the order -----

  /** A new section goes before the first one of smaller priority. */
  function Place(secs: seq<Section>, s: Section): (r: seq<Section>)
    ensures |r| == |secs| + 1
  {
    if secs == [] || secs[0].priority < s.priority then [s] + secs else [secs[0]] + Place(secs[1..], s)
  }

  /** The database after loading sections one by one. */
  function Loaded(loads: seq<Section>): seq<Section> {
    if loads == [] then [] else Place(Loaded(loads[..|loads| - 1]), loads[|loads| - 1])
  }

  ghost predicate NonIncreasing(secs: seq<Section>) {
    secs == [] || ((forall s :: s in secs[1..] ==> s.priority <= secs[0].priority) && NonIncreasing(secs[1..]))
  }

  /** The sections of one priority, in order. */
  function OfPriority(secs: seq<Section>, p: int): seq<Section> {
    if secs == [] then [] else (if secs[0].priority == p then [secs[0]] else []) + OfPriority(secs[1..], p)
  }

  lemma {:induction false} PlaceMeaning(secs: seq<Section>, s: Section, p: int)
    requires NonIncreasing(secs)
    ensures NonIncreasing(Place(secs, s))
    ensures forall x :: x in Place(secs, s) <==> x in secs || x == s
    ensures OfPriority(Place(secs, s), p) == OfPriority(secs, p) + if s.priority == p then [s] else []
  {
    if secs == [] || secs[0].priority < s.priority {
      assert ([s] + secs)[1..] == secs;
      if s.priority == p { NoneOfPriority(secs, p); }
    } else {
      assert secs == [secs[0]] + secs[1..];
      PlaceMeaning(secs[1..], s, p);
      assert Place(secs, s)[1..] == Place(secs[1..], s);
    }
  }

  lemma {:induction false} NoneOfPriority(secs: seq<Section>, p: int)
    requires NonIncreasing(secs) && (secs == [] || secs[0].priority < p)
    ensures OfPriority(secs, p) == []
  {
    if |secs| > 1 {
      assert secs[1] in secs[1..];
      NoneOfPriority(secs[1..], p);
    }
  }

  lemma {:induction false} OfPrioritySnoc(secs: seq<Section>, s: Section, p: int)
    ensures OfPriority(secs + [s], p) == OfPriority(secs, p) + if s.priority == p then [s] else []
  {
    if secs != [] {
      assert (secs + [s])[1..] == secs[1..] + [s];
      OfPrioritySnoc(secs[1..], s, p);
    }
  }

  /** Loading sorts by priority and keeps the load order among equals. */
  lemma {:induction false} LoadedOrder(loads: seq<Section>, p: int)
    ensures NonIncreasing(Loaded(loads))
    ensures OfPriority(Loaded(loads), p) == OfPriority(loads, p)
    ensures forall x :: x in Loaded(loads) <==> x in loads
  {
    if loads != [] {
      var was, s := loads[..|loads| - 1], loads[|loads| - 1];
      assert loads == was + [s];
      LoadedOrder(was, p);
      PlaceMeaning(Loaded(was), s, p);
      OfPrioritySnoc(was, s, p);
    }
  }

  // ----- the answer -----

  /** The first section that accepts the data, or the length. */
  ghost function Hit(secs: seq<Section>, data: seq<Byte>): (k: nat)
    ensures k <= |secs| && (k < |secs| ==> Accepts(secs[k], data))
    ensures forall i :: 0 <= i < k ==> !Accepts(secs[i], data)
  {
    if secs == [] || Accepts(secs[0], data) then 0 else 1 + Hit(secs[1..], data)
  }

  /** A section is the answer when it accepts, none of higher priority does, and
      none of the same priority that was loaded earlier does. */
  ghost predicate Best(loads: seq<Section>, s: Section, data: seq<Byte>) {
    && Accepts(s, data)
    && (forall x :: x in loads && Accepts(x, data) ==> x.priority <= s.priority)
    && Hit(OfPriority(loads, s.priority), data) < |OfPriority(loads, s.priority)|
    && OfPriority(loads, s.priority)[Hit(OfPriority(loads, s.priority), data)] == s
  }

  lemma {:induction false} HitIsTop(secs: seq<Section>, data: seq<Byte>, x: Section)
    requires NonIncreasing(secs) && x in secs && Accepts(x, data)
    ensures Hit(secs, data) < |secs| && x.priority <= secs[Hit(secs, data)].priority
  {
    assert x == secs[0] || x in secs[1..];
    if !Accepts(secs[0], data) {
      HitIsTop(secs[1..], data, x);
    }
  }

  lemma {:induction false} HitIsFirst(secs: seq<Section>, data: seq<Byte>)
    requires Hit(secs, data) < |secs|
    ensures
      var s := secs[Hit(secs, data)];
      var same := OfPriority(secs, s.priority);
      Hit(same, data) < |same| && same[Hit(same, data)] == s
  {
    hide Hit, OfPriority, Accepts;
    HitStep(secs, data);
    var s := secs[Hit(secs, data)];
    var same, tail := OfPriority(secs, s.priority), OfPriority(secs[1..], s.priority);
    OfPriorityStep(secs, s.priority);
    if Accepts(secs[0], data) {
      assert same[0] == s;
      HitStep(same, data);
    } else {
      assert secs[1..][Hit(secs[1..], data)] == s;
      HitIsFirst(secs[1..], data);
      if secs[0].priority == s.priority {
        assert same[1..] == tail && same[0] == secs[0];
        HitStep(same, data);
      } else {
        assert same == tail;
      }
    }
  }

  lemma HitStep(secs: seq<Section>, data: seq<Byte>)
    requires secs != []
    ensures Hit(secs, data) == if Accepts(secs[0], data) then 0 else 1 + Hit(secs[1..], data)
  {
  }

  lemma OfPriorityStep(secs: seq<Section>, p: int)
    requires secs != []
    ensures OfPriority(secs, p) == (if secs[0].priority == p then [secs[0]] else []) + OfPriority(secs[1..], p)
  {
  }

  lemma HitIsBest(secs: seq<Section>, data: seq<Byte>)
    requires NonIncreasing(secs) && Hit(secs, data) < |secs|
    ensures Best(secs, secs[Hit(secs, data)], data)
  {
    HitIsFirst(secs, data);
    forall x | x in secs && Accepts(x, data) ensures x.priority <= secs[Hit(secs, data)].priority {
      HitIsTop(secs, data, x);
    }
  }

  /** Whatever was loaded in whatever order, the first hit in the list is the
      earliest of the best sections that accept. */
  lemma LoadedHit(loads: seq<Section>, data: seq<Byte>)
    ensures
      var secs := Loaded(loads);
      && (Hit(secs, data) < |secs| ==> Best(loads, secs[Hit(secs, data)], data))
      && (Hit(secs, data) == |secs| <==> forall x :: x in loads ==> !Accepts(x, data))
  {
    var secs := Loaded(loads);
    LoadedOrder(loads, 0);
    var k := Hit(secs, data);
    if k < |secs| {
      LoadedOrder(loads, secs[k].priority);
      HitIsBest(secs, data);
      assert secs[k] in secs;
    }
    forall x | k == |secs| && x in loads ensures !Accepts(x, data) {
      assert x in secs;
    }
  }

  // ----- how much data is read -----

  const INT_MAX := 0x7fff_ffff

  /** Conversion of an unsigned 32-bit sum to `int`. */
  function ToInt(n: nat): int {
    var w := n % 0x1_0000_0000;
    if w <= INT_MAX then w else w - 0x1_0000_0000
  }

  function Sum(m: Matchlet): nat {
    |m.value| + m.offset + m.rangeLength
  }

  function Extent(m: Matchlet): int {
    ToInt(Sum(m))
  }

  function Max(a: int, b: int): int {
    if a < b then b else a
  }

  function ExtentOf(ms: seq<Matchlet>): (e: nat)
    ensures forall i :: 0 <= i < |ms| ==> Extent(ms[i]) <= e
  {
    if ms == [] then 0 else Max(Extent(ms[|ms| - 1]), ExtentOf(ms[..|ms| - 1]))
  }

  function MaxExtent(secs: seq<Section>): (e: nat)
    ensures forall i :: 0 <= i < |secs| ==> ExtentOf(secs[i].matchlets) <= e
  {
    if secs == [] then 0 else Max(ExtentOf(secs[|secs| - 1].matchlets), MaxExtent(secs[..|secs| - 1]))
  }

  /** The extent is that of some matchlet, unless it is zero. */
  lemma {:induction false} ExtentAttained(ms: seq<Matchlet>)
    ensures ExtentOf(ms) == 0 || exists i :: 0 <= i < |ms| && Extent(ms[i]) == ExtentOf(ms)
  {
    if ms != [] {
      var rest := ms[..|ms| - 1];
      ExtentAttained(rest);
      if i :| 0 <= i < |rest| && Extent(rest[i]) == ExtentOf(rest) { assert ms[i] == rest[i]; }
    }
  }

  /** The same for the largest one of a database: no smaller bound has room for every matchlet. */
  lemma {:induction false} MaxExtentAttained(secs: seq<Section>)
    ensures MaxExtent(secs) == 0 || exists i, x :: 0 <= i < |secs| && x in secs[i].matchlets && Extent(x) == MaxExtent(secs)
  {
    if secs != [] {
      var n := |secs| - 1;
      var rest, ms := secs[..n], secs[n].matchlets;
      MaxExtentAttained(rest);
      ExtentAttained(ms);
      if i, x :| 0 <= i < |rest| && x in rest[i].matchlets && Extent(x) == MaxExtent(rest) { assert secs[i] == rest[i]; }
      if i :| 0 <= i < |ms| && Extent(ms[i]) == ExtentOf(ms) { assert ms[i] in secs[n].matchlets; }
    }
  }

  /** One more matchlet, and one more section. */
  lemma ExtentStep(ms: seq<Matchlet>, k: nat, k1: nat)
    requires k < |ms| && k1 == k + 1
    ensures ExtentOf(ms[..k1]) == Max(Extent(ms[k]), ExtentOf(ms[..k]))
  {
    assert ms[..k1][..k] == ms[..k];
  }

  lemma MaxExtentStep(secs: seq<Section>, k: nat, k1: nat)
    requires k < |secs| && k1 == k + 1
    ensures MaxExtent(secs[..k1]) == Max(ExtentOf(secs[k].matchlets), MaxExtent(secs[..k]))
  {
    assert secs[..k1][..k] == secs[..k];
  }

  function Cut(data: seq<Byte>, n: nat): seq<Byte> {
    if n < |data| then data[..n] else data
  }

  /** The first `n` bytes decide whether the matchlet fits: its range is empty, or ends inside them. */
  predicate Within(m: Matchlet, n: nat) {
    m.rangeLength == 0 || Sum(m) <= n + 1
  }

  lemma FitsCut(m: Matchlet, data: seq<Byte>, n: nat)
    requires Within(m, n)
    ensures Fits(m, Cut(data, n)) <==> Fits(m, data)
  {
    forall i | m.offset <= i < m.offset + m.rangeLength ensures FitsAt(m, Cut(data, n), i) <==> FitsAt(m, data, i) {
      forall j | 0 <= j < |m.value| && i + j < |Cut(data, n)| ensures ByteFits(m, Cut(data, n), i, j) == ByteFits(m, data, i, j) {}
      if FitsAt(m, data, i) {
        assert forall j :: 0 <= j < |m.value| ==> ByteFits(m, data, i, j);
      }
      if FitsAt(m, Cut(data, n), i) {
        assert forall j :: 0 <= j < |m.value| ==> ByteFits(m, Cut(data, n), i, j);
      }
    }
  }

  lemma {:induction false} SkipIn(ms: seq<Matchlet>, d: nat)
    ensures forall x :: x in Skip(ms, d) ==> x in ms
  {
    if ms != [] { SkipIn(ms[1..], d); }
  }

  lemma {:induction false} LevelCut(ms: seq<Matchlet>, data: seq<Byte>, d: nat, n: nat)
    requires forall x :: x in ms ==> Within(x, n)
    ensures Level(ms, Cut(data, n), d) <==> Level(ms, data, d)
    decreases |ms|
  {
    if ms != [] {
      FitsCut(ms[0], data, n);
      LevelCut(ms[1..], data, d + 1, n);
      SkipIn(ms[1..], d);
      LevelCut(Skip(ms[1..], d), data, d, n);
    }
  }

  lemma AcceptsCut(s: Section, data: seq<Byte>, n: nat)
    requires AllWithin(s, n)
    ensures Accepts(s, Cut(data, n)) <==> Accepts(s, data)
  {
    LevelCut(s.matchlets, data, 0, n);
  }

  ghost predicate AllWithin(s: Section, n: nat) {
    forall x :: x in s.matchlets ==> Within(x, n)
  }

  /** Reading no more than the largest extent changes no answer, when every range
      that is not empty ends inside it. */
  lemma CutKeepsHit(secs: seq<Section>, data: seq<Byte>)
    requires forall i :: 0 <= i < |secs| ==> AllWithin(secs[i], MaxExtent(secs))
    ensures Hit(secs, Cut(data, MaxExtent(secs))) == Hit(secs, data)
  {
    var n := MaxExtent(secs);
    forall i | 0 <= i < |secs| ensures Accepts(secs[i], Cut(data, n)) <==> Accepts(secs[i], data) {
      AcceptsCut(secs[i], data, n);
    }
    SameHit(secs, Cut(data, n), data);
  }

  /** No sum of a matchlet leaves the range of `int`, or its range is empty. */
  ghost predicate Small(s: Section) {
    forall i :: 0 <= i < |s.matchlets| ==> Sum(s.matchlets[i]) <= INT_MAX || s.matchlets[i].rangeLength == 0
  }

  /** For such a database the largest extent is large enough. */
  lemma SmallIsWithin(secs: seq<Section>)
    requires forall i :: 0 <= i < |secs| ==> Small(secs[i])
    ensures forall i :: 0 <= i < |secs| ==> AllWithin(secs[i], MaxExtent(secs))
  {
    var n := MaxExtent(secs);
    forall i | 0 <= i < |secs| ensures AllWithin(secs[i], n) {
      SmallSection(secs[i], n);
    }
  }

  lemma SmallSection(s: Section, n: nat)
    requires Small(s) && ExtentOf(s.matchlets) <= n
    ensures AllWithin(s, n)
  {
    var ms := s.matchlets;
    forall x | x in ms ensures Within(x, n) {
      var j :| 0 <= j < |ms| && ms[j] == x;
      if Sum(x) <= INT_MAX { SumFits(x); }
    }
  }

  lemma SumFits(m: Matchlet)
    requires Sum(m) <= INT_MAX
    ensures Extent(m) == Sum(m)
  {
  }

  lemma {:induction false} SameHit(secs: seq<Section>, a: seq<Byte>, b: seq<Byte>)
    requires forall i :: 0 <= i < |secs| ==> (Accepts(secs[i], a) <==> Accepts(secs[i], b))
    ensures Hit(secs, a) == Hit(secs, b)
  {
    if secs != [] { SameHit(secs[1..], a, b); }
  }

  /** The fields a magic file can give a matchlet. */
  predicate Readable(m: Matchlet) {
    m.offset <= INT_MAX && m.rangeLength <= INT_MAX && |m.value| < 0x1_0000 && (m.mask.Some? ==> |m.mask.value| == |m.value|)
  }

  /** For a database of one matchlet the condition is exact: its answers survive
      the cut if and only if the sum fits an `int` or the range is empty. */
  lemma OneMatchletExact(m: Matchlet, mime: string, priority: int)
    requires Readable(m) && m.indent == 0
    ensures
      var secs := [Section(mime, priority, [m])];
      (forall data :: Hit(secs, Cut(data, MaxExtent(secs))) == Hit(secs, data)) <==> Sum(m) <= INT_MAX || m.rangeLength == 0
  {
    var secs := [Section(mime, priority, [m])];
    OneAccepts(m, mime, priority);
    if Sum(m) <= INT_MAX || m.rangeLength == 0 {
      assert Small(secs[0]);
      SmallIsWithin(secs);
      forall data ensures Hit(secs, Cut(data, MaxExtent(secs))) == Hit(secs, data) {
        CutKeepsHit(secs, data);
      }
    } else {
      var data := Zeros(m.offset) + m.value;
      assert FitsAt(m, data, m.offset) by {
        forall j | 0 <= j < |m.value| ensures ByteFits(m, data, m.offset, j) {}
      }
      OneExtent(m, mime, priority);
      var e := MaxExtent(secs);
      assert e < |data|;
      assert !Fits(m, Cut(data, e));
      assert Hit(secs, data) == 0;
      assert Hit(secs, Cut(data, e)) == 1;
    }
  }

  function Zeros(n: nat): (r: seq<Byte>)
    ensures |r| == n
  {
    seq(n, i => 0)
  }

  lemma OneAccepts(m: Matchlet, mime: string, priority: int)
    requires m.indent == 0
    ensures forall data :: Accepts(Section(mime, priority, [m]), data) <==> Fits(m, data)
    ensures forall data :: Hit([Section(mime, priority, [m])], data) == if Fits(m, data) then 0 else 1
  {
    var s := Section(mime, priority, [m]);
    assert [m][1..] == [] && [s][1..] == [];
    forall data ensures Accepts(s, data) <==> Fits(m, data) {
      assert !Level(Skip([m][1..], 0), data, 0);
    }
    forall data ensures Hit([s], data) == if Fits(m, data) then 0 else 1 {
      assert Hit([s][1..], data) == 0;
    }
  }

  lemma OneExtent(m: Matchlet, mime: string, priority: int)
    ensures MaxExtent([Section(mime, priority, [m])]) == Max(Extent(m), 0)
  {
    assert [m][..0] == [] && ExtentOf([m]) == Max(Extent(m), 0);
    assert [Section(mime, priority, [m])][..0] == [];
  }

  /** A file may ask for a range so long that no byte is read. */
  lemma CutLosesHit()
    ensures
      var secs := [Section("text/x-zero", 50, [Matchlet(0, 0, [0], None, INT_MAX, 1)])];
      MaxExtent(secs) == 0 && Hit(secs, [0]) == 0 && Hit(secs, Cut([0], 0)) == 1
  {
    var m := Matchlet(0, 0, [0], None, INT_MAX, 1);
    OneExtent(m, "text/x-zero", 50);
    OneAccepts(m, "text/x-zero", 50);
    assert ByteFits(m, [0], 0, 0) && FitsAt(m, [0], 0);
  }
}
