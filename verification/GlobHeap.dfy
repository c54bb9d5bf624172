/** The suffix trie as linked nodes, changed in place. */
module GlobHeap {
  import opened CStrings
  import opened Sequences
  import opened GlobTrie
  import opened GlobLookup

  class GlobNode {
    var character: char
    var mimeType: Option<string>
    var weight: int
    var caseSensitive: bool
    var next: Option<GlobNode>
    var child: Option<GlobNode>

    /** `_xdg_glob_hash_node_new`, with the character and the sibling set. */
    constructor (character: char, next: Option<GlobNode>)
      ensures this.character == character && this.next == next && mimeType == None && child == None
    {
      this.character, this.next := character, next;
      mimeType, weight, caseSensitive, child := None, 0, false, None;
    }

    function Own(): Option<Glob>
      reads this
    {
      match mimeType
      case None => None
      case Some(m) => Some(Glob(m, weight, caseSensitive))
    }

    method SetType(g: Glob)
      modifies this`mimeType, this`weight, this`caseSensitive
      ensures Own() == Some(g)
    {
      mimeType, weight, caseSensitive := Some(g.mime), g.weight, g.caseSensitive;
    }
  }

  /** Which nodes make up a level: each sibling with the nodes below it. */
  datatype Shape = Shape(node: GlobNode, below: set<GlobNode>, kids: seq<Shape>)

  ghost function Part(s: Shape): set<GlobNode> {
    {s.node} + s.below
  }

  ghost function Cover(ss: seq<Shape>): set<GlobNode> {
    if ss == [] then {} else Part(ss[0]) + Cover(ss[1..])
  }

  /** No node stands in two places. */
  ghost predicate Apart(ss: seq<Shape>)
    decreases ss
  {
    && (forall i {:trigger ApartOf(ss[i])} :: 0 <= i < |ss| ==> ApartOf(ss[i]))
    && (forall i, j {:trigger Clear(ss[i], ss[j])} :: 0 <= i < |ss| && 0 <= j < |ss| && i != j ==> Clear(ss[i], ss[j]))
  }

  ghost predicate ApartOf(s: Shape)
    decreases s
  {
    s.node !in s.below && s.below == Cover(s.kids) && Apart(s.kids)
  }

  ghost predicate Clear(s: Shape, r: Shape) {
    Part(s) !! Part(r)
  }

  ghost function NodeAt(ss: seq<Shape>, i: nat): Option<GlobNode> {
    if i < |ss| then Some(ss[i].node) else None
  }

  /** The list that starts at `p` runs through the nodes of `ss` and stores `ts`. */
  ghost predicate Level(p: Option<GlobNode>, ss: seq<Shape>, ts: seq<Trie>)
    reads Cover(ss)
    decreases ss
  {
    && |ss| == |ts| && p == NodeAt(ss, 0)
    && (forall i {:trigger ts[i]} :: 0 <= i < |ss| ==> Part(ss[i]) <= Cover(ss) && Holds(ss[i], ts[i], NodeAt(ss, i + 1)))
  }

  ghost predicate Holds(s: Shape, t: Trie, next: Option<GlobNode>)
    reads Part(s)
    decreases s
  {
    && s.node.character == t.character && s.node.Own() == t.own && s.node.next == next
    && Cover(s.kids) <= s.below
    && Level(s.node.child, s.kids, t.kids)
  }

  // ----- one new node between its neighbours -----

  function Single(node: GlobNode): Shape {
    Shape(node, {}, [])
  }

  lemma {:induction false} CoverConcat(a: seq<Shape>, b: seq<Shape>)
    ensures Cover(a + b) == Cover(a) + Cover(b)
  {
    if a == [] {
      assert a + b == b;
    } else {
      assert (a + b)[1..] == a[1..] + b;
      CoverConcat(a[1..], b);
    }
  }

  lemma {:induction false} PartInCover(ss: seq<Shape>, i: nat)
    requires i < |ss|
    ensures Part(ss[i]) <= Cover(ss)
  {
    if i > 0 { PartInCover(ss[1..], i - 1); }
  }

  lemma SplicedCover(ss: seq<Shape>, k: nat, node: GlobNode)
    requires k <= |ss|
    ensures Cover(Spliced(ss, k, Single(node))) == Cover(ss) + {node}
  {
    var one := [Single(node)];
    assert ss == ss[..k] + ss[k..];
    CoverConcat(ss[..k], ss[k..]);
    assert Cover(one) == {node};
    CoverConcat(ss[..k], one);
    CoverConcat(ss[..k] + one, ss[k..]);
  }

  lemma SplicedApart(ss: seq<Shape>, k: nat, node: GlobNode)
    requires k <= |ss| && Apart(ss) && node !in Cover(ss)
    ensures Apart(Spliced(ss, k, Single(node)))
  {
    var rs := Spliced(ss, k, Single(node));
    assert ApartOf(Single(node));
    forall i: nat | i < |rs| ensures ApartOf(rs[i]) {
      SplicedAt(ss, k, Single(node), i);
    }
    forall i: nat, j: nat | i < |rs| && j < |rs| && i != j ensures Clear(rs[i], rs[j]) {
      SplicedAt(ss, k, Single(node), i);
      SplicedAt(ss, k, Single(node), j);
      if i != k { PartInCover(ss, if i < k then i else i - 1); }
      if j != k { PartInCover(ss, if j < k then j else j - 1); }
    }
  }

  lemma SplicedLevel(ss: seq<Shape>, ts: seq<Trie>, k: nat, node: GlobNode, t: Trie)
    requires k <= |ss| == |ts|
    requires Holds(Single(node), t, NodeAt(ss, k))
    requires forall i :: 0 <= i < |ss| ==> Holds(ss[i], ts[i], if i + 1 == k then Some(node) else NodeAt(ss, i + 1))
    ensures Level(NodeAt(Spliced(ss, k, Single(node)), 0), Spliced(ss, k, Single(node)), Spliced(ts, k, t))
  {
    hide Holds, Part, Cover;
    var rs, rt := Spliced(ss, k, Single(node)), Spliced(ts, k, t);
    forall i: nat | i < |rs| ensures Part(rs[i]) <= Cover(rs) && Holds(rs[i], rt[i], NodeAt(rs, i + 1)) {
      PartInCover(rs, i);
      SplicedAt(ss, k, Single(node), i);
      SplicedAt(ts, k, t, i);
      if i + 1 < |rs| { SplicedAt(ss, k, Single(node), i + 1); }
    }
  }

  /** Links a new node before sibling `k`. */
  method Splice(head: Option<GlobNode>, prev: Option<GlobNode>, c: char, ghost k: nat,
                ghost ss: seq<Shape>, ghost ts: seq<Trie>, ghost all: set<GlobNode>)
    returns (res: Option<GlobNode>, node: GlobNode)
    requires Level(head, ss, ts) && Apart(ss) && all == Cover(ss) && k <= |ss|
    requires prev == if k == 0 then None else NodeAt(ss, k - 1)
    modifies all
    ensures Level(res, Spliced(ss, k, Single(node)), Spliced(ts, k, Trie(c, None, []))) && fresh(node)
  {
    if prev.None? {
      node := new GlobNode(c, head);
      res := Some(node);
    } else {
      assert Holds(ss[k - 1], ts[k - 1], NodeAt(ss, k)) && prev.value in Part(ss[k - 1]);
      node := new GlobNode(c, prev.value.next);
      prev.value.next := Some(node);
      res := head;
    }
    forall i | 0 <= i < |ss| ensures Holds(ss[i], ts[i], if i + 1 == k then Some(node) else NodeAt(ss, i + 1)) {
      assert old(Holds(ss[i], ts[i], NodeAt(ss, i + 1)));
      assert ApartOf(ss[i]);
      assert k > 0 && i != k - 1 ==> Clear(ss[i], ss[k - 1]);
    }
    SplicedLevel(ss, ts, k, node, Trie(c, None, []));
  }

  /** Adds the sibling of `c` where the order puts it. */
  method AddNode(head: Option<GlobNode>, prev: Option<GlobNode>, c: char, ghost k: nat,
                 ghost ss: seq<Shape>, ghost ts: seq<Trie>, ghost all: set<GlobNode>)
    returns (res: Option<GlobNode>, node: GlobNode, ghost rs: seq<Shape>)
    requires Level(head, ss, ts) && Apart(ss) && all == Cover(ss) && k == Seek(ts, c) && !Found(ts, c)
    requires prev == if k == 0 then None else NodeAt(ss, k - 1)
    modifies all
    ensures Level(res, rs, WithNode(ts, c)) && Apart(rs) && rs[k].node == node
    ensures Cover(rs) == all + {node} && fresh(node)
  {
    res, node := Splice(head, prev, c, k, ss, ts, all);
    rs := Spliced(ss, k, Single(node));
    SplicedApart(ss, k, node);
    SplicedCover(ss, k, node);
    SplicedAt(ss, k, Single(node), k);
  }

  /** Finds or adds the sibling of `c`, keeping the siblings in order. */
  method FindOrAdd(head: Option<GlobNode>, c: char, ghost ss: seq<Shape>, ghost ts: seq<Trie>, ghost all: set<GlobNode>)
    returns (res: Option<GlobNode>, node: GlobNode, ghost rs: seq<Shape>)
    requires Level(head, ss, ts) && Apart(ss) && all == Cover(ss)
    modifies all
    ensures Level(res, rs, WithNode(ts, c)) && Apart(rs) && rs[Seek(ts, c)].node == node
    ensures fresh(Cover(rs) - all)
  {
    assert ss != [] ==> Holds(ss[0], ts[0], NodeAt(ss, 1));
    if head.None? || c < head.value.character {
      SeekIs(ts, c, 0);
      res, node, rs := AddNode(head, None, c, 0, ss, ts, all);
    } else if c == head.value.character {
      SeekIs(ts, c, 0);
      res, node, rs := head, head.value, ss;
    } else {
      var prev := head.value;
      var cur := prev.next;
      ghost var k := 1;
      while cur.Some? && cur.value.character < c
        invariant 1 <= k <= |ss| && prev == ss[k - 1].node && cur == NodeAt(ss, k) && prev.next == cur
        invariant forall i :: 0 <= i < k ==> ts[i].character < c
        decreases |ss| - k
      {
        assert Holds(ss[k], ts[k], NodeAt(ss, k + 1));
        prev := cur.value;
        cur := prev.next;
        k := k + 1;
      }
      assert k < |ss| ==> Holds(ss[k], ts[k], NodeAt(ss, k + 1));
      SeekIs(ts, c, k);
      if cur.Some? && cur.value.character == c {
        res, node, rs := head, cur.value, ss;
      } else {
        res, node, rs := AddNode(head, Some(prev), c, k, ss, ts, all);
      }
    }
  }

  // ----- the type at the end of a suffix -----

  lemma KnowsStep(ts: seq<Trie>, k: nat, mime: string)
    requires k < |ts| && ts[k].character == NUL && ts[k].own.Some? && ts[k].own.value.mime != mime
    ensures Knows(Extras(ts[k..]), mime) <==> Knows(Extras(ts[k + 1..]), mime)
  {
    var a, b := Extras(ts[k..]), Extras(ts[k + 1..]);
    assert ts[k..][1..] == ts[k + 1..];
    assert a == [ts[k].own.value] + b;
    if Knows(b, mime) {
      var i :| 0 <= i < |b| && b[i].mime == mime;
      assert a[i + 1].mime == mime;
    }
  }

  /** Whether a zero child carries the type already. */
  method HasZeroChild(node: GlobNode, mime: string, ghost s: Shape, ghost t: Trie) returns (found: bool)
    requires Holds(s, t, node.next) && s.node == node && FormedNode(t)
    ensures found <==> Knows(Extras(t.kids), mime)
  {
    var child := node.child;
    ghost var k := 0;
    found := false;
    while child.Some? && child.value.character == NUL
      invariant 0 <= k <= |t.kids| && child == NodeAt(s.kids, k)
      invariant Knows(Extras(t.kids), mime) <==> Knows(Extras(t.kids[k..]), mime)
      decreases |t.kids| - k
    {
      assert Holds(s.kids[k], t.kids[k], NodeAt(s.kids, k + 1)) && FormedNode(t.kids[k]);
      if child.value.mimeType == Some(mime) {
        assert Extras(t.kids[k..])[0].mime == mime;
        return true;
      }
      KnowsStep(t.kids, k, mime);
      child := child.value.next;
      k := k + 1;
    }
    assert k < |t.kids| ==> Holds(s.kids[k], t.kids[k], NodeAt(s.kids, k + 1));
  }

  /** Puts a zero child with the type in front of the others. */
  method HangZero(node: GlobNode, g: Glob, ghost s: Shape, ghost t: Trie, ghost all: set<GlobNode>) returns (ghost r: Shape)
    requires Holds(s, t, node.next) && s.node == node && ApartOf(s) && all == Part(s)
    modifies node
    ensures Holds(r, t.(kids := [Trie(NUL, Some(g), [])] + t.kids), old(node.next)) && ApartOf(r) && r.node == node
    ensures fresh(Part(r) - all)
  {
    var child := new GlobNode(NUL, node.child);
    child.SetType(g);
    assert Level(child.next, s.kids, t.kids);
    node.child := Some(child);
    SplicedLevel(s.kids, t.kids, 0, child, Trie(NUL, Some(g), []));
    SplicedApart(s.kids, 0, child);
    SplicedCover(s.kids, 0, child);
    r := Shape(node, s.below + {child}, Spliced(s.kids, 0, Single(child)));
    assert Spliced(t.kids, 0, Trie(NUL, Some(g), [])) == [Trie(NUL, Some(g), [])] + t.kids;
  }

  /** The end of the text: the node takes the type, or one more zero child does. */
  method AddTypeTo(node: GlobNode, g: Glob, ghost s: Shape, ghost t: Trie, ghost all: set<GlobNode>) returns (ghost r: Shape)
    requires Holds(s, t, node.next) && s.node == node && ApartOf(s) && FormedNode(t) && all == Part(s)
    modifies all
    ensures Holds(r, AddType(t, g), old(node.next)) && ApartOf(r) && r.node == node
    ensures fresh(Part(r) - all)
  {
    r := s;
    if node.mimeType.Some? {
      if node.mimeType.value != g.mime {
        var found := HasZeroChild(node, g.mime, s, t);
        if !found {
          r := HangZero(node, g, s, t, all);
        }
      }
    } else {
      node.SetType(g);
    }
  }

  // ----- insertion -----

  method GrowNode(node: GlobNode, text: string, g: Glob, ghost s: Shape, ghost t: Trie, ghost all: set<GlobNode>)
    returns (ghost r: Shape)
    requires Holds(s, t, node.next) && s.node == node && ApartOf(s) && FormedNode(t) && OwnedNode(t) && all == Part(s)
    requires Plain(text) && text[0] == t.character
    modifies all
    ensures Holds(r, Grown(t, text, g), old(node.next)) && ApartOf(r) && r.node == node
    ensures fresh(Part(r) - all)
    decreases |text|, 0
  {
    if |text| == 1 {
      r := AddTypeTo(node, g, s, t, all);
    } else {
      ghost var kids;
      node.child, kids := InsertUcs4(node.child, text[1..], g, s.kids, t.kids, s.below);
      r := Shape(node, Cover(kids), kids);
    }
  }

  lemma ReplacedCover(ss: seq<Shape>, k: nat, r: Shape)
    requires k < |ss|
    ensures Cover(ss[k := r]) == Cover(ss[..k]) + Part(r) + Cover(ss[k + 1..])
    ensures Cover(ss) == Cover(ss[..k]) + Part(ss[k]) + Cover(ss[k + 1..])
  {
    assert ss[k := r] == (ss[..k] + [r]) + ss[k + 1..] && ss == (ss[..k] + [ss[k]]) + ss[k + 1..];
    CoverConcat(ss[..k] + [r], ss[k + 1..]);
    CoverConcat(ss[..k], [r]);
    CoverConcat(ss[..k] + [ss[k]], ss[k + 1..]);
    CoverConcat(ss[..k], [ss[k]]);
  }

  lemma ReplacedApart(ss: seq<Shape>, k: nat, r: Shape)
    requires k < |ss| && Apart(ss) && ApartOf(r)
    requires forall i :: 0 <= i < |ss| && i != k ==> Clear(ss[i], r)
    ensures Apart(ss[k := r])
  {
    var rs := ss[k := r];
    forall i, j | 0 <= i < |rs| && 0 <= j < |rs| && i != j ensures Clear(rs[i], rs[j]) {
      if i != k && j != k { assert Clear(ss[i], ss[j]); }
    }
  }

  lemma ReplacedLevel(p: Option<GlobNode>, ss: seq<Shape>, ts: seq<Trie>, k: nat, r: Shape, t: Trie)
    requires k < |ss| == |ts| && p == NodeAt(ss, 0) && r.node == ss[k].node
    requires Holds(r, t, NodeAt(ss, k + 1))
    requires forall i :: 0 <= i < |ss| && i != k ==> Holds(ss[i], ts[i], NodeAt(ss, i + 1))
    ensures Level(p, ss[k := r], ts[k := t])
  {
    var rs, rt := ss[k := r], ts[k := t];
    forall i: nat | i < |rs| ensures Part(rs[i]) <= Cover(rs) && Holds(rs[i], rt[i], NodeAt(rs, i + 1)) {
      PartInCover(rs, i);
    }
  }

  /** Grows the node of the first character and keeps its siblings. */
  method GrowAt(node: GlobNode, text: string, g: Glob, ghost head: Option<GlobNode>, ghost k: nat,
                ghost ss: seq<Shape>, ghost ts: seq<Trie>, ghost all: set<GlobNode>)
    returns (ghost rs: seq<Shape>)
    requires Level(head, ss, ts) && Apart(ss) && all == Cover(ss) && Formed(ts) && Owned(ts) && Plain(text)
    requires k < |ss| && ss[k].node == node && ts[k].character == text[0]
    modifies all
    ensures Level(head, rs, ts[k := Grown(ts[k], text, g)]) && Apart(rs)
    ensures fresh(Cover(rs) - all)
    decreases |text|, 1
  {
    ghost var s := ss[k];
    assert Holds(s, ts[k], NodeAt(ss, k + 1)) && ApartOf(s) && FormedNode(ts[k]) && OwnedNode(ts[k]);
    PartInCover(ss, k);
    ghost var r := GrowNode(node, text, g, s, ts[k], Part(s));
    rs := ss[k := r];
    assert Cover(rs) <= Cover(ss) + Part(r) by {
      ReplacedCover(ss, k, r);
    }
    forall i: nat | i < |ss| && i != k
      ensures Holds(ss[i], ts[i], NodeAt(ss, i + 1)) && Clear(ss[i], r)
    {
      assert old(Holds(ss[i], ts[i], NodeAt(ss, i + 1)));
      assert Clear(ss[i], s);
      PartInCover(ss, i);
    }
    ReplacedApart(ss, k, r);
    ReplacedLevel(head, ss, ts, k, r, Grown(ts[k], text, g));
  }

  /** `_xdg_glob_hash_insert_ucs4`. */
  method InsertUcs4(head: Option<GlobNode>, text: string, g: Glob,
                    ghost ss: seq<Shape>, ghost ts: seq<Trie>, ghost all: set<GlobNode>)
    returns (res: Option<GlobNode>, ghost rs: seq<Shape>)
    requires Level(head, ss, ts) && Apart(ss) && all == Cover(ss) && Formed(ts) && Owned(ts) && Plain(text)
    modifies all
    ensures Level(res, rs, Insert(ts, text, g)) && Apart(rs)
    ensures fresh(Cover(rs) - all)
    decreases |text|, 2
  {
    var node;
    ghost var ms;
    res, node, ms := FindOrAdd(head, text[0], ss, ts, all);
    WithNodeFormed(ts, text[0]);
    rs := GrowAt(node, text, g, res, Seek(ts, text[0]), ms, WithNode(ts, text[0]), Cover(ms));
  }

  // ----- lookup -----

  datatype MimeWeight = MimeWeight(mime: string, weight: int)

  function Weighted(gs: seq<Glob>): (r: seq<MimeWeight>)
    ensures |r| == |gs| && forall i :: 0 <= i < |gs| ==> r[i] == MimeWeight(gs[i].mime, gs[i].weight)
  {
    if gs == [] then [] else [MimeWeight(gs[0].mime, gs[0].weight)] + Weighted(gs[1..])
  }

  function Capped<X>(s: seq<X>, cap: nat): seq<X> {
    if |s| <= cap then s else s[..cap]
  }

  /** The cap leaves the beginning. */
  lemma CappedIs<X>(s: seq<X>, cap: nat)
    ensures Capped(s, cap) <= s && |Capped(s, cap)| == if |s| < cap then |s| else cap
  {
  }

  /** The first `len` characters of a name, read from the end. */
  function FromEnd(name: string, len: nat): (r: string)
    requires len <= |name|
    ensures |r| == len && forall i :: 0 <= i < len ==> r[i] == name[len - 1 - i]
  {
    if len == 0 then [] else [name[len - 1]] + FromEnd(name, len - 1)
  }

  lemma {:induction false} EligibleConcat(a: seq<Glob>, b: seq<Glob>, caseCheck: bool)
    ensures Eligible(a + b, caseCheck) == Eligible(a, caseCheck) + Eligible(b, caseCheck)
  {
    if a == [] {
      assert a + b == b;
    } else {
      var s := a + b;
      assert s[0] == a[0] && s[1..] == a[1..] + b;
      EligibleConcat(a[1..], b, caseCheck);
      Regrouped(if Accepts(a[0], caseCheck) then [a[0]] else [], Eligible(a[1..], caseCheck), Eligible(b, caseCheck));
    }
  }

  lemma ZeroStep(ts: seq<Trie>, k: nat, k1: nat, caseCheck: bool, total: seq<Glob>, now: seq<Glob>)
    requires k < |ts| && k1 == k + 1 && ts[k].character == NUL
    requires total == now + Eligible(Extras(ts[k..]), caseCheck)
    ensures total == (now + Eligible(Listed(ts[k].own), caseCheck)) + Eligible(Extras(ts[k1..]), caseCheck)
  {
    assert ts[k..][1..] == ts[k1..];
    EligibleConcat(Listed(ts[k].own), Extras(ts[k1..]), caseCheck);
  }

  lemma LastZero(ts: seq<Trie>, k: nat, caseCheck: bool, total: seq<Glob>, now: seq<Glob>, cap: nat)
    requires k <= |ts| && total == now + Eligible(Extras(ts[k..]), caseCheck) && |now| <= cap
    requires |now| == cap || k == |ts| || ts[k].character != NUL
    ensures Capped(total, cap) == now
  {
    assert |now| < cap ==> Extras(ts[k..]) == [];
  }

  /** Writes a type to position `n` if there is one and it is eligible. */
  method Offered(own: Option<Glob>, caseCheck: bool, out: array<MimeWeight>, n: nat, ghost done: seq<Glob>) returns (m: nat)
    requires n < out.Length && n == |done| && out[..n] == Weighted(done)
    modifies out
    ensures m == |done + Eligible(Listed(own), caseCheck)| <= n + 1
    ensures out[..m] == Weighted(done + Eligible(Listed(own), caseCheck))
  {
    m := n;
    if own.Some? && (caseCheck || !own.value.caseSensitive) {
      out[n] := MimeWeight(own.value.mime, own.value.weight);
      m := n + 1;
      assert Eligible([own.value], caseCheck) == [own.value];
      assert out[..m] == out[..n] + [out[n]];
    } else {
      assert Eligible(Listed(own), caseCheck) == [];
      assert done + [] == done;
    }
  }

  /** One zero child, and the one after it. */
  method OfferNode(child: GlobNode, caseCheck: bool, out: array<MimeWeight>, n: nat, ghost done: seq<Glob>,
                   ghost first: Option<GlobNode>, ghost k: nat, ghost ss: seq<Shape>, ghost ts: seq<Trie>, ghost all: set<GlobNode>)
    returns (next: Option<GlobNode>, m: nat)
    requires Level(first, ss, ts) && all == Cover(ss) && k < |ss| && child == ss[k].node
    requires n < out.Length && n == |done| && out[..n] == Weighted(done)
    modifies out
    ensures Level(first, ss, ts) && next == NodeAt(ss, k + 1)
    ensures m == |done + Eligible(Listed(ts[k].own), caseCheck)| <= n + 1
    ensures out[..m] == Weighted(done + Eligible(Listed(ts[k].own), caseCheck))
  {
    assert Holds(ss[k], ts[k], NodeAt(ss, k + 1));
    next := child.next;
    m := Offered(child.Own(), caseCheck, out, n, done);
  }

  /** The types in the zero children that follow, as long as there is room. */
  method CollectZeros(first: Option<GlobNode>, caseCheck: bool, out: array<MimeWeight>, start: nat, cap: nat,
                      ghost done: seq<Glob>, ghost ss: seq<Shape>, ghost ts: seq<Trie>)
    returns (n: nat)
    requires Level(first, ss, ts) && start == |done| <= cap <= out.Length && out[..start] == Weighted(done)
    modifies out
    ensures n <= cap && out[..n] == Weighted(Capped(done + Eligible(Extras(ts), caseCheck), cap))
  {
    ghost var all := Cover(ss);
    var child := first;
    n := start;
    ghost var now, k, total := done, 0, done + Eligible(Extras(ts), caseCheck);
    assert ts[0..] == ts;
    while n < cap && child.Some? && child.value.character == NUL
      invariant 0 <= k <= |ts| && child == NodeAt(ss, k)
      invariant all == Cover(ss) && Level(first, ss, ts)
      invariant n == |now| <= cap && out[..n] == Weighted(now)
      invariant total == now + Eligible(Extras(ts[k..]), caseCheck)
      decreases |ts| - k
    {
      ghost var k1 := k + 1;
      ZeroStep(ts, k, k1, caseCheck, total, now);
      child, n := OfferNode(child.value, caseCheck, out, n, now, first, k, ss, ts, all);
      now := now + Eligible(Listed(ts[k].own), caseCheck);
      k := k1;
    }
    assert k < |ts| ==> Holds(ss[k], ts[k], NodeAt(ss, k + 1));
    LastZero(ts, k, caseCheck, total, now, cap);
  }

  /** The eligible types of one suffix, up to the cap. */
  method Collect(node: GlobNode, caseCheck: bool, out: array<MimeWeight>, cap: nat, ghost s: Shape, ghost t: Trie)
    returns (n: nat)
    requires Holds(s, t, node.next) && s.node == node && 0 < cap <= out.Length
    modifies out
    ensures n <= cap && out[..n] == Weighted(Capped(Eligible(TypesOf(t), caseCheck), cap))
  {
    n := Offered(node.Own(), caseCheck, out, 0, []);
    EligibleConcat(Listed(t.own), Extras(t.kids), caseCheck);
    ghost var own := Eligible(Listed(t.own), caseCheck);
    assert [] + own == own;
    n := CollectZeros(node.child, caseCheck, out, n, cap, own, s.kids, t.kids);
  }

  /** The sibling at which a search for `c` stops. */
  method SeekNode(head: Option<GlobNode>, c: char, ghost ss: seq<Shape>, ghost ts: seq<Trie>) returns (node: Option<GlobNode>)
    requires Level(head, ss, ts)
    ensures Level(head, ss, ts)
    ensures var k := Seek(ts, c); node == NodeAt(ss, k) && (k < |ss| ==> Holds(ss[k], ts[k], NodeAt(ss, k + 1)))
  {
    node := head;
    ghost var k := 0;
    while node.Some? && c > node.value.character
      invariant 0 <= k <= |ss| && node == NodeAt(ss, k)
      invariant forall i :: 0 <= i < k ==> ts[i].character < c
      decreases |ss| - k
    {
      assert Holds(ss[k], ts[k], NodeAt(ss, k + 1));
      node := node.value.next;
      k := k + 1;
    }
    assert k < |ss| ==> Holds(ss[k], ts[k], NodeAt(ss, k + 1));
    SeekIs(ts, c, k);
  }

  /** `_xdg_glob_hash_node_lookup_file_name`. */
  method LookupFileName(head: Option<GlobNode>, name: string, len: nat, caseCheck: bool,
                        out: array<MimeWeight>, cap: nat, ghost ss: seq<Shape>, ghost ts: seq<Trie>)
    returns (n: nat)
    requires Level(head, ss, ts) && 0 < len <= |name| && 0 < cap <= out.Length
    modifies out
    ensures n <= cap && out[..n] == Weighted(Capped(Lookup(ts, FromEnd(name, len), caseCheck), cap))
    decreases len, 1
  {
    var character := name[len - 1];
    var node := SeekNode(head, character, ss, ts);
    ghost var k, text := Seek(ts, character), FromEnd(name, len);
    assert text[0] == character && text[1..] == FromEnd(name, len - 1);
    if node.None? || character != node.value.character {
      n := 0;
    } else {
      n := LookupBelow(node.value, name, len - 1, caseCheck, out, cap, ss[k], ts[k]);
    }
  }

  /** The longer suffixes first, then the node itself. */
  method LookupBelow(node: GlobNode, name: string, len: nat, caseCheck: bool,
                     out: array<MimeWeight>, cap: nat, ghost s: Shape, ghost t: Trie)
    returns (n: nat)
    requires Holds(s, t, node.next) && s.node == node && len <= |name| && 0 < cap <= out.Length
    modifies out
    ensures n <= cap && out[..n] == Weighted(Capped(LookupAt(t, FromEnd(name, len), caseCheck), cap))
    decreases len, 2
  {
    n := 0;
    if len > 0 {
      n := LookupFileName(node.child, name, len, caseCheck, out, cap, s.kids, t.kids);
    }
    if n == 0 {
      n := Collect(node, caseCheck, out, cap, s, t);
    }
  }
}
