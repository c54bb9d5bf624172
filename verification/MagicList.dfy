/** The magic database in memory: linked matchlets under linked sections. */
module MagicList {
  import opened CStrings
  import opened Sequences
  import opened PackedBuffer
  import opened Magic
  import opened MagicRules

  class MatchletNode {
    const matchlet: Matchlet
    var next: Option<MatchletNode>

    constructor (matchlet: Matchlet, next: Option<MatchletNode>)
      ensures this.matchlet == matchlet && this.next == next
    {
      this.matchlet, this.next := matchlet, next;
    }
  }

  ghost function NodeFrom(ns: seq<MatchletNode>, i: nat): Option<MatchletNode> {
    if i < |ns| then Some(ns[i]) else None
  }

  /** The list that starts at `p` runs through `ns`. */
  ghost predicate Chain(p: Option<MatchletNode>, ns: seq<MatchletNode>)
    reads ns
  {
    p == NodeFrom(ns, 0) && forall i {:trigger ns[i]} :: 0 <= i < |ns| ==> ns[i].next == NodeFrom(ns, i + 1)
  }

  ghost function Values(ns: seq<MatchletNode>): (r: seq<Matchlet>)
    ensures |r| == |ns| && forall i :: 0 <= i < |ns| ==> r[i] == ns[i].matchlet
  {
    if ns == [] then [] else [ns[0].matchlet] + Values(ns[1..])
  }

  // ----- the level evaluator -----

  /** The next matchlet that is not deeper than `indent`. */
  method SkipDeeper(p: Option<MatchletNode>, indent: nat, ghost ns: seq<MatchletNode>)
    returns (q: Option<MatchletNode>, ghost rest: seq<MatchletNode>)
    requires Chain(p, ns)
    ensures Chain(q, rest) && Values(rest) == Skip(Values(ns), indent) && |rest| <= |ns|
  {
    q, rest := p, ns;
    while q.Some? && q.value.matchlet.indent > indent
      invariant Chain(q, rest) && |rest| <= |ns|
      invariant Skip(Values(rest), indent) == Skip(Values(ns), indent)
      decreases |rest|
    {
      q, rest := q.value.next, rest[1..];
    }
  }

  /** `_xdg_mime_magic_matchlet_compare_level`. */
  method CompareLevel(p: Option<MatchletNode>, data: seq<Byte>, indent: nat, ghost ns: seq<MatchletNode>) returns (res: bool)
    requires Chain(p, ns)
    ensures res <==> Level(Values(ns), data, indent)
    decreases |ns|
  {
    var q := p;
    ghost var rest := ns;
    while q.Some? && q.value.matchlet.indent == indent
      invariant Chain(q, rest) && |rest| <= |ns|
      invariant Level(Values(rest), data, indent) <==> Level(Values(ns), data, indent)
      decreases |rest|
    {
      var fits := CompareToData(q.value.matchlet, data);
      if fits {
        if q.value.next.None? || q.value.next.value.matchlet.indent <= indent {
          return true;
        }
        var below := CompareLevel(q.value.next, data, indent + 1, rest[1..]);
        if below { return true; }
      }
      q, rest := SkipDeeper(q.value.next, indent, rest[1..]);
    }
    res := false;
  }

  // ----- the mirror -----

  function Reversed<X>(s: seq<X>): (r: seq<X>)
    ensures |r| == |s| && forall i :: 0 <= i < |s| ==> r[i] == s[|s| - 1 - i]
  {
    if s == [] then [] else [s[|s| - 1]] + Reversed(s[..|s| - 1])
  }

  ghost function NodeBefore(ns: seq<MatchletNode>, i: nat): Option<MatchletNode>
    requires i <= |ns|
  {
    if i == 0 then None else Some(ns[i - 1])
  }

  /** `_xdg_mime_magic_matchlet_mirror`: the same nodes in the opposite order. */
  method Mirror(p: Option<MatchletNode>, ghost ns: seq<MatchletNode>) returns (q: Option<MatchletNode>)
    requires Chain(p, ns) && Unique(ns)
    modifies ns
    ensures Chain(q, Reversed(ns))
  {
    q := None;
    if p.None? || p.value.next.None? {
      assert |ns| <= 1;
      return p;
    }
    var tmp := p;
    ghost var k := 0;
    while tmp.Some?
      invariant 0 <= k <= |ns| && tmp == NodeFrom(ns, k) && q == NodeBefore(ns, k)
      invariant forall i {:trigger ns[i]} :: k <= i < |ns| ==> ns[i].next == NodeFrom(ns, i + 1)
      invariant forall i {:trigger ns[i]} :: 0 <= i < k ==> ns[i].next == NodeBefore(ns, i)
      decreases |ns| - k
    {
      var node := tmp.value;
      tmp := tmp.value.next;
      node.next := q;
      q := Some(node);
      k := k + 1;
    }
    ghost var r := Reversed(ns);
    forall i | 0 <= i < |r| ensures r[i].next == NodeFrom(r, i + 1) {
      assert r[i] == ns[|ns| - 1 - i];
      assert i + 1 < |r| ==> r[i + 1] == ns[|ns| - 2 - i];
    }
  }

  // ----- the list of sections -----

  class Match {
    var mimeType: Option<string>
    var priority: int
    var matchlet: Option<MatchletNode>
    var next: Option<Match>

    constructor ()
      ensures mimeType == None && priority == 0 && matchlet == None && next == None
    {
      mimeType, priority, matchlet, next := None, 0, None, None;
    }
  }

  ghost function MatchFrom(ms: seq<Match>, i: nat): Option<Match> {
    if i < |ms| then Some(ms[i]) else None
  }

  ghost predicate Linked(p: Option<Match>, ms: seq<Match>)
    reads ms
  {
    p == MatchFrom(ms, 0) && forall i {:trigger ms[i]} :: 0 <= i < |ms| ==> ms[i].next == MatchFrom(ms, i + 1)
  }

  ghost function Before(ms: seq<Match>, m: Match): (k: nat)
    reads ms, m
    ensures k <= |ms| && (k < |ms| ==> ms[k].priority < m.priority)
    ensures forall i :: 0 <= i < k ==> ms[i].priority >= m.priority
  {
    if ms == [] || ms[0].priority < m.priority then 0 else 1 + Before(ms[1..], m)
  }

  lemma {:induction false} BeforeIs(ms: seq<Match>, m: Match, k: nat)
    requires k <= |ms| && (k < |ms| ==> ms[k].priority < m.priority)
    requires forall i :: 0 <= i < k ==> ms[i].priority >= m.priority
    ensures Before(ms, m) == k
  {
    if k > 0 { BeforeIs(ms[1..], m, k - 1); }
  }

  /** Links a section in before position `k`, after the section `prev`. */
  method InsertAfter(prev: Match, match_: Match, ghost head: Option<Match>, ghost k: nat, ghost ms: seq<Match>)
    requires Linked(head, ms) && Unique(ms) && match_ !in ms && 0 < k <= |ms| && prev == ms[k - 1]
    modifies prev`next, match_`next
    ensures Linked(head, ms[..k] + [match_] + ms[k..])
  {
    match_.next := prev.next;
    prev.next := Some(match_);
    ghost var r := ms[..k] + [match_] + ms[k..];
    forall i | 0 <= i < |r| ensures r[i].next == MatchFrom(r, i + 1) {
      assert r[i] == if i < k then ms[i] else if i == k then match_ else ms[i - 1];
    }
  }

  /** The last section that does not have a smaller priority. */
  method FindPlace(first: Match, m: Match, ghost head: Option<Match>, ghost ms: seq<Match>) returns (list: Match)
    requires Linked(head, ms) && head == Some(first) && first.priority >= m.priority
    ensures Linked(head, ms) && 0 < Before(ms, m) <= |ms| && list == ms[Before(ms, m) - 1]
  {
    list := first;
    ghost var k := 1;
    while list.next.Some? && list.next.value.priority >= m.priority
      invariant 0 < k <= |ms| && list == ms[k - 1]
      invariant forall i :: 0 <= i < k ==> ms[i].priority >= m.priority
      decreases |ms| - k
    {
      list := list.next.value;
      k := k + 1;
    }
    BeforeIs(ms, m, k);
  }

  /** The first section of the list; an empty list needs no link. */
  method InsertFront(head: Option<Match>, match_: Match, ghost ms: seq<Match>) returns (res: Option<Match>)
    requires Linked(head, ms) && match_ !in ms && match_.next == None
    modifies match_`next
    ensures res == Some(match_) && Linked(res, ms[..0] + [match_] + ms[0..])
  {
    if head.Some? {
      match_.next := head;
    }
    res := Some(match_);
    ghost var r := ms[..0] + [match_] + ms[0..];
    forall i | 0 <= i < |r| ensures r[i].next == MatchFrom(r, i + 1) {
      assert r[i] == if i == 0 then match_ else ms[i - 1];
    }
  }

  /** `_xdg_mime_magic_insert_match`. */
  method InsertMatch(head: Option<Match>, match_: Match, ghost ms: seq<Match>) returns (res: Option<Match>)
    requires Linked(head, ms) && Unique(ms) && match_ !in ms && match_.next == None
    modifies ms`next, match_`next
    ensures var k := Before(ms, match_); Linked(res, ms[..k] + [match_] + ms[k..])
  {
    if head.None? || match_.priority > head.value.priority {
      BeforeIs(ms, match_, 0);
      res := InsertFront(head, match_, ms);
    } else {
      res := head;
      var list := FindPlace(head.value, match_, head, ms);
      InsertAfter(list, match_, head, Before(ms, match_), ms);
    }
  }

  // ----- the database -----

  /** The object holds the section, its matchlets being linked through `ns`. */
  ghost predicate Holds(m: Match, ns: seq<MatchletNode>, s: Section)
    reads m, ns
  {
    m.mimeType == Some(s.mime) && m.priority == s.priority && Chain(m.matchlet, ns) && Values(ns) == s.matchlets
  }

  ghost predicate Filled(ms: seq<Match>, chains: seq<seq<MatchletNode>>, secs: seq<Section>, cells: set<MatchletNode>)
    reads ms, cells
  {
    && |ms| == |chains| == |secs|
    && forall i {:trigger secs[i]} :: 0 <= i < |secs| ==> (forall n :: n in chains[i] ==> n in cells) && Holds(ms[i], chains[i], secs[i])
  }

  lemma {:induction false} PlaceAt(secs: seq<Section>, s: Section, k: nat)
    requires k <= |secs| && (k < |secs| ==> secs[k].priority < s.priority)
    requires forall i :: 0 <= i < k ==> secs[i].priority >= s.priority
    ensures Place(secs, s) == Spliced(secs, k, s)
  {
    if k > 0 {
      var rest := secs[1..];
      PlaceAt(rest, s, k - 1);
      assert Place(secs, s) == [secs[0]] + Place(rest, s);
      hide Place;
      assert secs[..k] == [secs[0]] + rest[..k - 1] && secs[k..] == rest[k - 1..];
    }
  }

  /** The order of the objects is the order of the sections they hold. */
  lemma PlaceIsSplice(ms: seq<Match>, chains: seq<seq<MatchletNode>>, secs: seq<Section>, cells: set<MatchletNode>, m: Match, s: Section)
    requires Filled(ms, chains, secs, cells) && m.priority == s.priority
    ensures Place(secs, s) == Spliced(secs, Before(ms, m), s)
  {
    forall i | 0 <= i < |secs| ensures secs[i].priority == ms[i].priority {
      assert Holds(ms[i], chains[i], secs[i]);
    }
    PlaceAt(secs, s, Before(ms, m));
  }

  lemma FilledSpliced(ms: seq<Match>, chains: seq<seq<MatchletNode>>, secs: seq<Section>, cells: set<MatchletNode>,
                      k: nat, m: Match, ns: seq<MatchletNode>, s: Section, all: set<MatchletNode>)
    requires Filled(ms, chains, secs, cells) && k <= |ms| && Holds(m, ns, s)
    requires cells <= all && forall n :: n in ns ==> n in all
    ensures Filled(Spliced(ms, k, m), Spliced(chains, k, ns), Spliced(secs, k, s), all)
  {
    var r := Spliced(secs, k, s);
    forall i | 0 <= i < |r|
      ensures (forall n :: n in Spliced(chains, k, ns)[i] ==> n in all) && Holds(Spliced(ms, k, m)[i], Spliced(chains, k, ns)[i], r[i])
    {
      if i < k {
        assert r[i] == secs[i];
      } else if i > k {
        assert r[i] == secs[i - 1];
      }
    }
  }

  lemma SplicedUnique<X>(s: seq<X>, k: nat, x: X)
    requires k <= |s| && Unique(s) && x !in s
    ensures Unique(Spliced(s, k, x))
    ensures forall y :: y in Spliced(s, k, x) <==> y in s || y == x
  {
    assert s == s[..k] + s[k..];
  }

  /** Insertion keeps what every object holds. */
  method InsertFilled(head: Option<Match>, m: Match, ghost ms: seq<Match>, ghost chains: seq<seq<MatchletNode>>, ghost secs: seq<Section>,
                      ghost cells: set<MatchletNode>, ghost ns: seq<MatchletNode>, ghost s: Section, ghost all: set<MatchletNode>)
    returns (res: Option<Match>, ghost k: nat)
    requires Linked(head, ms) && Unique(ms) && Filled(ms, chains, secs, cells)
    requires m !in ms && m.next == None && Holds(m, ns, s)
    requires cells <= all && forall n :: n in ns ==> n in all
    modifies ms`next, m`next
    ensures k <= |ms| == |chains| && Place(secs, s) == Spliced(secs, k, s)
    ensures Linked(res, Spliced(ms, k, m)) && Unique(Spliced(ms, k, m))
    ensures Filled(Spliced(ms, k, m), Spliced(chains, k, ns), Place(secs, s), all)
    ensures forall y :: y in Spliced(ms, k, m) <==> y in ms || y == m
  {
    k := Before(ms, m);
    PlaceIsSplice(ms, chains, secs, cells, m, s);
    res := InsertMatch(head, m, ms);
    forall i | 0 <= i < |secs| ensures Holds(ms[i], chains[i], secs[i]) {
      assert old(Holds(ms[i], chains[i], secs[i]));
    }
    assert Filled(ms, chains, secs, cells);
    FilledSpliced(ms, chains, secs, cells, k, m, ns, s, all);
    SplicedUnique(ms, k, m);
  }

  /** The objects of a database and the sections they hold. */
  datatype Layout = Layout(ms: seq<Match>, chains: seq<seq<MatchletNode>>, cells: set<MatchletNode>, secs: seq<Section>)

  ghost predicate Stored(head: Option<Match>, l: Layout)
    reads l.ms, l.cells
  {
    Linked(head, l.ms) && Unique(l.ms) && Filled(l.ms, l.chains, l.secs, l.cells)
  }

  ghost function WithSection(l: Layout, k: nat, m: Match, ns: seq<MatchletNode>, s: Section): Layout
    requires k <= |l.ms| == |l.chains|
  {
    Layout(Spliced(l.ms, k, m), Spliced(l.chains, k, ns), l.cells + (set n | n in ns), Place(l.secs, s))
  }

  // ----- the answer -----

  /** A candidate is erased when it equals the type of a section tried in vain. */
  predicate Spent(c: string, tried: seq<Section>, same: (string, string) -> bool) {
    exists i :: 0 <= i < |tried| && same(c, tried[i].mime)
  }

  function Remaining(c: Option<string>, tried: seq<Section>, same: (string, string) -> bool): Option<string> {
    if c.Some? && Spent(c.value, tried, same) then None else c
  }

  lemma RemainingSnoc(c: Option<string>, tried: seq<Section>, s: Section, same: (string, string) -> bool)
    ensures Remaining(c, tried + [s], same)
         == if Remaining(c, tried, same).Some? && same(Remaining(c, tried, same).value, s.mime) then None else Remaining(c, tried, same)
  {
    var t := tried + [s];
    if c.Some? {
      if Spent(c.value, tried, same) {
        var i :| 0 <= i < |tried| && same(c.value, tried[i].mime);
        assert same(c.value, t[i].mime);
      }
      if same(c.value, s.mime) { assert same(c.value, t[|tried|].mime); }
    }
  }

  method EraseEqual(cands: array<Option<string>>, mime: string, same: (string, string) -> bool)
    modifies cands
    ensures forall i :: 0 <= i < cands.Length ==>
      cands[i] == if old(cands[i]).Some? && same(old(cands[i]).value, mime) then None else old(cands[i])
  {
    for n := 0 to cands.Length
      invariant forall i :: 0 <= i < n ==>
        cands[i] == if old(cands[i]).Some? && same(old(cands[i]).value, mime) then None else old(cands[i])
      invariant forall i :: n <= i < cands.Length ==> cands[i] == old(cands[i])
    {
      if cands[n].Some? && same(cands[n].value, mime) { cands[n] := None; }
    }
  }

  ghost predicate Left(cands: seq<Option<string>>, orig: seq<Option<string>>, tried: seq<Section>, same: (string, string) -> bool) {
    |cands| == |orig| && forall i :: 0 <= i < |cands| ==> cands[i] == Remaining(orig[i], tried, same)
  }

  /** A candidate is left exactly when no section tried in vain has a type equal to it. */
  lemma LeftMeaning(cands: seq<Option<string>>, orig: seq<Option<string>>, tried: seq<Section>, same: (string, string) -> bool, i: nat)
    requires Left(cands, orig, tried, same) && i < |orig|
    ensures cands[i].Some? <==> orig[i].Some? && forall s :: s in tried ==> !same(orig[i].value, s.mime)
    ensures cands[i].Some? ==> cands[i] == orig[i]
  {
    assert cands[i] == Remaining(orig[i], tried, same);
    if orig[i].Some? && cands[i].None? {
      var k :| 0 <= k < |tried| && same(orig[i].value, tried[k].mime);
      assert tried[k] in tried;
    }
  }

  /** One more section was tried in vain. */
  method EraseTried(cands: array<Option<string>>, mime: string, same: (string, string) -> bool,
                    ghost orig: seq<Option<string>>, ghost secs: seq<Section>, ghost k: nat, ghost k1: nat)
    requires k < |secs| && k1 == k + 1 && mime == secs[k].mime && Left(cands[..], orig, secs[..k], same)
    modifies cands
    ensures Left(cands[..], orig, secs[..k1], same)
  {
    EraseEqual(cands, mime, same);
    assert secs[..k1] == secs[..k] + [secs[k]];
    forall i | 0 <= i < cands.Length ensures cands[i] == Remaining(orig[i], secs[..k1], same) {
      RemainingSnoc(orig[i], secs[..k], secs[k], same);
      assert old(cands[..])[i] == Remaining(orig[i], secs[..k], same);
    }
  }

  /** `res` is the last of the candidates that are left. */
  ghost predicate IsLastLeft(res: Option<string>, cands: seq<Option<string>>) {
    if res.None? then forall i :: 0 <= i < |cands| ==> cands[i].None?
    else exists i :: 0 <= i < |cands| && cands[i] == res && forall j :: i < j < |cands| ==> cands[j].None?
  }

  method LastLeft(cands: array<Option<string>>) returns (res: Option<string>)
    ensures IsLastLeft(res, cands[..])
  {
    res := None;
    ghost var last := 0;
    for n := 0 to cands.Length
      invariant res.None? ==> forall i :: 0 <= i < n ==> cands[i].None?
      invariant res.Some? ==> last < n && cands[last] == res && forall i :: last < i < n ==> cands[i].None?
    {
      if cands[n].Some? {
        res := cands[n];
        last := n;
      }
    }
  }

  class Database {
    var matchList: Option<Match>
    var maxExtent: int
    ghost var layout: Layout

    constructor ()
      ensures Valid() && layout == Layout([], [], {}, []) && maxExtent == 0
    {
      matchList, maxExtent := None, 0;
      layout := Layout([], [], {}, []);
    }

    ghost predicate Valid()
      reads this, layout.ms, layout.cells
    {
      Stored(matchList, layout)
    }

    method Install(head: Option<Match>, extent: int, ghost l: Layout)
      requires Stored(head, l)
      modifies this
      ensures matchList == head && maxExtent == extent && layout == l
      ensures Stored(matchList, layout)
    {
      matchList, maxExtent, layout := head, extent, l;
    }

    /** `_xdg_mime_magic_lookup_data`. */
    method LookupData(data: seq<Byte>, cands: array<Option<string>>, same: (string, string) -> bool)
      returns (mime: Option<string>, priority: int)
      requires Valid()
      modifies cands
      ensures Left(cands[..], old(cands[..]), layout.secs[..Hit(layout.secs, data)], same)
      ensures
        var k := Hit(layout.secs, data);
        k < |layout.secs| ==> mime == Some(layout.secs[k].mime) && priority == layout.secs[k].priority
      ensures Hit(layout.secs, data) == |layout.secs| ==> priority == 0 && IsLastLeft(mime, cands[..])
    {
      mime, priority := TrySections(matchList, data, cands, same, layout);
      if mime.None? {
        mime := LastLeft(cands);
      }
    }
  }

  /** The first section that accepts, erasing the types of those before it. */
  method TrySections(head: Option<Match>, data: seq<Byte>, cands: array<Option<string>>, same: (string, string) -> bool, ghost l: Layout)
    returns (mime: Option<string>, priority: int)
    requires Stored(head, l)
    modifies cands
    ensures Left(cands[..], old(cands[..]), l.secs[..Hit(l.secs, data)], same)
    ensures
      var k := Hit(l.secs, data);
      && mime == (if k < |l.secs| then Some(l.secs[k].mime) else None)
      && priority == (if k < |l.secs| then l.secs[k].priority else 0)
  {
    mime, priority := None, 0;
    var p := head;
    ghost var k, secs := 0, l.secs;
    while p.Some?
      invariant 0 <= k <= |secs| && p == MatchFrom(l.ms, k) && Stored(head, l)
      invariant forall i :: 0 <= i < k ==> !Accepts(secs[i], data)
      invariant Left(cands[..], old(cands[..]), secs[..k], same)
      decreases |secs| - k
    {
      var m := p.value;
      assert Holds(m, l.chains[k], secs[k]);
      var accepts := CompareLevel(m.matchlet, data, 0, l.chains[k]);
      if accepts {
        HitIs(secs, data, k);
        return m.mimeType, m.priority;
      }
      ghost var k1 := k + 1;
      EraseTried(cands, m.mimeType.value, same, old(cands[..]), secs, k, k1);
      p := m.next;
      k := k1;
    }
    HitIs(secs, data, k);
  }

  lemma {:induction false} HitIs(secs: seq<Section>, data: seq<Byte>, k: nat)
    requires k <= |secs| && (k < |secs| ==> Accepts(secs[k], data))
    requires forall i :: 0 <= i < k ==> !Accepts(secs[i], data)
    ensures Hit(secs, data) == k
  {
    if k > 0 { HitIs(secs[1..], data, k - 1); }
  }

  /** The largest extent of a list of matchlets, or `start`. */
  method ExtentOfChain(p: Option<MatchletNode>, start: nat, ghost ns: seq<MatchletNode>) returns (e: nat)
    requires Chain(p, ns)
    ensures e == Max(ExtentOf(Values(ns)), start)
  {
    e := start;
    var q := p;
    ghost var k, ms := 0, Values(ns);
    assert ms[..0] == [];
    while q.Some?
      invariant 0 <= k <= |ns| && q == NodeFrom(ns, k) && e == Max(ExtentOf(ms[..k]), start)
      decreases |ns| - k
    {
      ExtentStep(ms, k, k + 1);
      var extent := ToInt(|q.value.matchlet.value| + q.value.matchlet.offset + q.value.matchlet.rangeLength);
      if e < extent { e := extent; }
      q := q.value.next;
      k := k + 1;
    }
    assert ms[..k] == ms;
  }

  /** `_xdg_mime_update_mime_magic_extents`. */
  method ExtentOfList(head: Option<Match>, ghost l: Layout) returns (e: nat)
    requires Stored(head, l)
    ensures e == MaxExtent(l.secs)
  {
    e := 0;
    var p := head;
    ghost var k, secs := 0, l.secs;
    assert secs[..0] == [];
    while p.Some?
      invariant 0 <= k <= |secs| && p == MatchFrom(l.ms, k) && e == MaxExtent(secs[..k])
      decreases |secs| - k
    {
      assert Holds(l.ms[k], l.chains[k], secs[k]);
      MaxExtentStep(secs, k, k + 1);
      e := ExtentOfChain(p.value.matchlet, e, l.chains[k]);
      p := p.value.next;
      k := k + 1;
    }
    assert secs[..k] == secs;
  }
}
