/** The suffix-glob trie as a value: what insertion registers and what lookup finds. */
module GlobTrie {
  import opened CStrings

  datatype Glob = Glob(mime: string, weight: int, caseSensitive: bool)

  /** A node with its list of children; a level is a list of siblings. */
  datatype Trie = Trie(character: char, own: Option<Glob>, kids: seq<Trie>)

  const NUL: char := '\0'

  // ----- the sibling order -----

  /** Zero nodes come first, then strictly increasing characters. */
  ghost predicate Increasing(ts: seq<Trie>) {
    forall i, j :: 0 <= i < j < |ts| ==> ts[i].character < ts[j].character || ts[i].character == ts[j].character == NUL
  }

  /** A zero node only carries one more type of its parent. */
  ghost predicate Formed(ts: seq<Trie>)
    decreases ts
  {
    Increasing(ts) && forall i :: 0 <= i < |ts| ==> FormedNode(ts[i])
  }

  ghost predicate FormedNode(t: Trie)
    decreases t
  {
    if t.character == NUL then t.own.Some? && t.kids == []
    else Formed(t.kids)
  }

  /** The first sibling whose character is not below `c`. */
  function Seek(ts: seq<Trie>, c: char): (k: nat)
    ensures k <= |ts|
    ensures forall i :: 0 <= i < k ==> ts[i].character < c
    ensures k < |ts| ==> ts[k].character >= c
  {
    if ts == [] || ts[0].character >= c then 0 else 1 + Seek(ts[1..], c)
  }

  lemma {:induction false} SeekIs(ts: seq<Trie>, c: char, k: nat)
    requires k <= |ts| && (forall i :: 0 <= i < k ==> ts[i].character < c) && (k < |ts| ==> ts[k].character >= c)
    ensures Seek(ts, c) == k
  {
    if k > 0 { SeekIs(ts[1..], c, k - 1); }
  }

  predicate Found(ts: seq<Trie>, c: char) {
    Seek(ts, c) < |ts| && ts[Seek(ts, c)].character == c
  }

  // ----- the types of one suffix -----

  /** The types in the leading zero nodes. */
  function Extras(ts: seq<Trie>): seq<Glob> {
    if ts == [] || ts[0].character != NUL then []
    else Listed(ts[0].own) + Extras(ts[1..])
  }

  function Listed(own: Option<Glob>): seq<Glob> {
    match own
    case None => []
    case Some(g) => [g]
  }

  function TypesOf(t: Trie): seq<Glob> {
    Listed(t.own) + Extras(t.kids)
  }

  /** The types registered for exactly this suffix, which is read from its end. */
  function Types(ts: seq<Trie>, text: string): seq<Glob>
    requires text != []
    decreases |text|, 1
  {
    if Found(ts, text[0]) then Below(ts[Seek(ts, text[0])], text) else []
  }

  /** The same under the node of the first character. */
  function Below(t: Trie, text: string): seq<Glob>
    requires text != []
    decreases |text|, 0
  {
    if |text| == 1 then TypesOf(t) else Types(t.kids, text[1..])
  }

  // ----- insertion -----

  predicate Knows(gs: seq<Glob>, mime: string) {
    exists i :: 0 <= i < |gs| && gs[i].mime == mime
  }

  /** What one more registration does to the types of its suffix: the first
      one of a type wins, and later types come right after the oldest. */
  function Registered(gs: seq<Glob>, g: Glob): seq<Glob> {
    if Knows(gs, g.mime) then gs
    else if gs == [] then [g]
    else [gs[0], g] + gs[1..]
  }

  function AddType(t: Trie, g: Glob): Trie {
    match t.own
    case None => t.(own := Some(g))
    case Some(o) =>
      if o.mime == g.mime || Knows(Extras(t.kids), g.mime) then t
      else t.(kids := [Trie(NUL, Some(g), [])] + t.kids)
  }

  /** The level with a node for `c`. */
  function WithNode(ts: seq<Trie>, c: char): (r: seq<Trie>)
    ensures Found(r, c) && Seek(r, c) == Seek(ts, c)
  {
    var k := Seek(ts, c);
    var r := if Found(ts, c) then ts else ts[..k] + [Trie(c, None, [])] + ts[k..];
    SeekIs(r, c, k);
    r
  }

  function Insert(ts: seq<Trie>, text: string, g: Glob): seq<Trie>
    requires text != []
    decreases |text|
  {
    var level := WithNode(ts, text[0]);
    var k := Seek(ts, text[0]);
    level[k := Grown(level[k], text, g)]
  }

  /** The node of the first character of `text`, with the rest below it. */
  function Grown(t: Trie, text: string, g: Glob): (r: Trie)
    requires text != []
    ensures r.character == t.character
    decreases |text|, 0
  {
    if |text| == 1 then AddType(t, g)
    else t.(kids := Insert(t.kids, text[1..], g))
  }

  /** A zero type is a zero node only under a node that has a type itself. */
  ghost predicate Owned(ts: seq<Trie>)
    decreases ts
  {
    forall i :: 0 <= i < |ts| ==> OwnedNode(ts[i])
  }

  ghost predicate OwnedNode(t: Trie)
    decreases t
  {
    (t.own.None? ==> Extras(t.kids) == []) && Owned(t.kids)
  }

  predicate Plain(text: string) {
    text != [] && forall i :: 0 <= i < |text| ==> text[i] != NUL
  }

  lemma NulIsLeast(c: char)
    ensures c == NUL || c > NUL
  {
  }

  /** The nodes of `d` are in `r` what they are in `ts`, and apart from those of `c`. */
  predicate Elsewhere(ts: seq<Trie>, r: seq<Trie>, c: char, d: char) {
    && Found(r, d) == Found(ts, d)
    && (Found(ts, d) ==> Seek(r, d) != Seek(r, c) && r[Seek(r, d)] == ts[Seek(ts, d)])
  }

  lemma {:induction false} WithNodeElsewhere(ts: seq<Trie>, c: char, d: char)
    requires c != d
    ensures Elsewhere(ts, WithNode(ts, c), c, d)
  {
    if Found(ts, c) {
      assert WithNode(ts, c) == ts;
    } else if ts == [] || ts[0].character >= c {
      ElsewhereInFront(ts, Trie(c, None, []), WithNode(ts, c), d);
    } else {
      var head, tail := ts[0], ts[1..];
      WithNodeElsewhere(tail, c, d);
      WithNodeTail(ts, c);
      ElsewhereBehind(head, ts, tail, WithNode(ts, c), WithNode(tail, c), c, d);
    }
  }

  lemma ElsewhereInFront(ts: seq<Trie>, x: Trie, r: seq<Trie>, d: char)
    requires x.character != d && (ts != [] ==> ts[0].character > x.character) && r == ts[..0] + [x] + ts[0..]
    ensures Elsewhere(ts, r, x.character, d)
  {
    assert r == [x] + ts;
    NodeInFront(ts, x, d);
  }

  lemma ElsewhereBehind(head: Trie, ts: seq<Trie>, tail: seq<Trie>, r: seq<Trie>, rt: seq<Trie>, c: char, d: char)
    requires ts == [head] + tail && r == [head] + rt && head.character < c && c != d && Elsewhere(tail, rt, c, d)
    ensures Elsewhere(ts, r, c, d)
  {
    SeekTail(ts, head, tail, d);
    SeekTail(r, head, rt, c);
    SeekTail(r, head, rt, d);
  }

  /** A search over one node more in front. */
  lemma SeekTail(ts: seq<Trie>, head: Trie, tail: seq<Trie>, d: char)
    requires ts == [head] + tail
    ensures Seek(ts, d) == if head.character >= d then 0 else 1 + Seek(tail, d)
  {
    assert ts[0] == head && ts[1..] == tail;
  }

  /** A new node in front of larger ones. */
  lemma NodeInFront(ts: seq<Trie>, x: Trie, d: char)
    requires x.character != d && (ts != [] ==> ts[0].character > x.character)
    ensures var r := [x] + ts; Found(r, d) == Found(ts, d) && Seek(r, x.character) == 0
    ensures var r := [x] + ts; Found(ts, d) ==> Seek(r, d) != 0 && r[Seek(r, d)] == ts[Seek(ts, d)]
  {
    SeekTail([x] + ts, x, ts, d);
    SeekTail([x] + ts, x, ts, x.character);
  }

  lemma SeekReplaced(ts: seq<Trie>, k: nat, t: Trie, d: char)
    requires k < |ts| && t.character == ts[k].character
    ensures Seek(ts[k := t], d) == Seek(ts, d)
  {
    SeekIs(ts[k := t], d, Seek(ts, d));
  }

  lemma InsertTail<X>(s: seq<X>, x: X, k: nat)
    requires s != [] && k < |s|
    ensures s[..k + 1] + [x] + s[k + 1..] == [s[0]] + (s[1..][..k] + [x] + s[1..][k..])
  {
  }

  lemma WithNodeTail(ts: seq<Trie>, c: char)
    requires ts != [] && ts[0].character < c
    ensures WithNode(ts, c) == [ts[0]] + WithNode(ts[1..], c)
  {
    var k := Seek(ts[1..], c);
    assert Seek(ts, c) == k + 1;
    if Found(ts, c) {
      assert ts == [ts[0]] + ts[1..];
    } else {
      assert !Found(ts[1..], c);
      InsertTail(ts, Trie(c, None, []), k);
    }
  }

  lemma {:induction false} ExtrasOfNew(ts: seq<Trie>, c: char)
    requires c != NUL
    ensures Extras(WithNode(ts, c)) == Extras(ts)
  {
    if ts != [] && ts[0].character < c {
      WithNodeTail(ts, c);
      ExtrasOfNew(ts[1..], c);
      assert ([ts[0]] + WithNode(ts[1..], c))[1..] == WithNode(ts[1..], c);
    }
  }

  lemma {:induction false} ExtrasReplaced(ts: seq<Trie>, k: nat, t: Trie)
    requires k < |ts| && ts[k].character == t.character != NUL
    ensures Extras(ts[k := t]) == Extras(ts)
  {
    if k > 0 && ts[0].character == NUL {
      assert ts[k := t][1..] == ts[1..][k - 1 := t];
      ExtrasReplaced(ts[1..], k - 1, t);
    }
  }

  lemma ExtrasInserted(ts: seq<Trie>, text: string, g: Glob)
    requires Plain(text)
    ensures Extras(Insert(ts, text, g)) == Extras(ts)
  {
    var level, k := WithNode(ts, text[0]), Seek(ts, text[0]);
    ExtrasOfNew(ts, text[0]);
    ExtrasReplaced(level, k, Grown(level[k], text, g));
  }

  lemma ZeroInFront(ts: seq<Trie>, z: Trie, text: string)
    requires Plain(text) && z.character == NUL
    ensures Types([z] + ts, text) == Types(ts, text)
  {
    assert ([z] + ts)[1..] == ts;
    NulIsLeast(text[0]);
  }

  lemma AddTypeRegisters(t: Trie, g: Glob)
    requires OwnedNode(t)
    ensures TypesOf(AddType(t, g)) == Registered(TypesOf(t), g)
  {
    if t.own.Some? {
      var o, e := t.own.value, Extras(t.kids);
      assert TypesOf(t) == [o] + e;
      assert Knows(TypesOf(t), g.mime) <==> o.mime == g.mime || Knows(e, g.mime) by {
        if o.mime == g.mime { assert TypesOf(t)[0].mime == g.mime; }
        if Knows(e, g.mime) {
          var i :| 0 <= i < |e| && e[i].mime == g.mime;
          assert TypesOf(t)[i + 1].mime == g.mime;
        }
      }
      var z := Trie(NUL, Some(g), []);
      assert ([z] + t.kids)[1..] == t.kids;
      assert [o] + ([g] + e) == [o, g] + e;
    }
  }

  /** One insertion registers the type for its own suffix and changes no other. */
  lemma {:induction false} InsertRegisters(ts: seq<Trie>, text: string, g: Glob, other: string)
    requires Owned(ts) && Plain(text) && Plain(other)
    ensures Types(Insert(ts, text, g), other)
         == if other == text then Registered(Types(ts, text), g) else Types(ts, other)
    decreases |text|
  {
    var level, k := WithNode(ts, text[0]), Seek(ts, text[0]);
    var t := Grown(level[k], text, g);
    SeekReplaced(level, k, t, other[0]);
    if other[0] != text[0] {
      WithNodeElsewhere(ts, text[0], other[0]);
    } else {
      NewNodeIsEmpty(ts, text[0], text);
      NewNodeIsEmpty(ts, text[0], other);
      GrownRegisters(level[k], text, g, other);
    }
  }

  lemma NewNodeIsEmpty(ts: seq<Trie>, c: char, text: string)
    requires Owned(ts) && text != [] && text[0] == c
    ensures
      var level := WithNode(ts, c);
      && OwnedNode(level[Seek(ts, c)])
      && Below(level[Seek(ts, c)], text) == Types(ts, text)
  {
    if !Found(ts, c) && |text| > 1 {
      assert Types([], text[1..]) == [];
    }
  }

  lemma {:induction false} GrownRegisters(t: Trie, text: string, g: Glob, other: string)
    requires OwnedNode(t) && Plain(text) && Plain(other) && other[0] == text[0]
    ensures Below(Grown(t, text, g), other)
         == if other == text then Registered(Below(t, text), g) else Below(t, other)
    decreases |text|, 0
  {
    if |text| == 1 {
      if |other| == 1 {
        AddTypeRegisters(t, g);
      } else {
        ZeroInFront(t.kids, Trie(NUL, Some(g), []), other[1..]);
      }
    } else if |other| == 1 {
      ExtrasInserted(t.kids, text[1..], g);
    } else {
      InsertRegisters(t.kids, text[1..], g, other[1..]);
      assert text == [text[0]] + text[1..] && other == [other[0]] + other[1..];
    }
  }

  // ----- the invariant -----

  /** Siblings are ordered, zero nodes carry a type each and stand under a node
      that has one, and the root level has none. */
  ghost predicate WellFormed(ts: seq<Trie>) {
    Formed(ts) && Owned(ts) && Extras(ts) == []
  }

  lemma WithNodeFormed(ts: seq<Trie>, c: char)
    requires Formed(ts) && Owned(ts) && c != NUL
    ensures var r := WithNode(ts, c); Formed(r) && Owned(r)
  {
    var r, k := WithNode(ts, c), Seek(ts, c);
    NulIsLeast(c);
    if !Found(ts, c) {
      assert forall i :: 0 <= i < |r| ==> r[i] == if i < k then ts[i] else if i == k then Trie(c, None, []) else ts[i - 1];
      forall i | 0 <= i < |r| ensures FormedNode(r[i]) && OwnedNode(r[i]) {
        assert i < k ==> FormedNode(ts[i]) && OwnedNode(ts[i]);
        assert i > k ==> FormedNode(ts[i - 1]) && OwnedNode(ts[i - 1]);
      }
      forall i, j | 0 <= i < j < |r| ensures r[i].character < r[j].character || r[i].character == r[j].character == NUL {
        if i > k || j < k { assert Increasing(ts); }
        else if i == k { assert j - 1 == k || Increasing(ts); }
      }
    }
  }

  lemma {:induction false} InsertFormed(ts: seq<Trie>, text: string, g: Glob)
    requires Formed(ts) && Owned(ts) && Plain(text)
    ensures Formed(Insert(ts, text, g)) && Owned(Insert(ts, text, g))
    decreases |text|
  {
    var level, k := WithNode(ts, text[0]), Seek(ts, text[0]);
    WithNodeFormed(ts, text[0]);
    assert FormedNode(level[k]) && OwnedNode(level[k]);
    GrownFormed(level[k], text, g);
    var r := Insert(ts, text, g);
    forall i | 0 <= i < |r| ensures FormedNode(r[i]) && OwnedNode(r[i]) {
      assert i != k ==> FormedNode(level[i]) && OwnedNode(level[i]);
    }
  }

  lemma {:induction false} GrownFormed(t: Trie, text: string, g: Glob)
    requires FormedNode(t) && OwnedNode(t) && Plain(text) && text[0] == t.character
    ensures FormedNode(Grown(t, text, g)) && OwnedNode(Grown(t, text, g))
    decreases |text|, 0
  {
    if |text| == 1 {
      ZeroFormed(t.kids, g);
    } else {
      InsertFormed(t.kids, text[1..], g);
      ExtrasInserted(t.kids, text[1..], g);
    }
  }

  lemma ZeroFormed(ts: seq<Trie>, g: Glob)
    requires Formed(ts) && Owned(ts)
    ensures Formed([Trie(NUL, Some(g), [])] + ts) && Owned([Trie(NUL, Some(g), [])] + ts)
  {
    var z := Trie(NUL, Some(g), []);
    var r := [z] + ts;
    assert Extras(z.kids) == [] && OwnedNode(z) && FormedNode(z);
    forall i | 0 <= i < |r| ensures FormedNode(r[i]) && OwnedNode(r[i]) {
      assert i > 0 ==> r[i] == ts[i - 1] && FormedNode(ts[i - 1]) && OwnedNode(ts[i - 1]);
    }
    forall i, j | 0 <= i < j < |r| ensures r[i].character < r[j].character || r[i].character == r[j].character == NUL {
      NulIsLeast(r[j].character);
      if i > 0 { assert ts[i - 1] == r[i] && ts[j - 1] == r[j]; }
    }
  }
}
