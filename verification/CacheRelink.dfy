/**
 * Relinking lists where they lie in the mapped cache, and looking up applications in the tree that
 * has been mapped there before.
 */
module CacheRelink {
  import opened CStrings
  import opened Sequences
  import opened AvlModel
  import opened AvlStream
  import opened CacheTrees
  import opened CacheLists

  // ----- a search in a mapped tree -----

  /** The nodes of `t` stand in memory below `limit`, linked to each other, each followed by its key. */
  ghost predicate Stands<W>(mem: Mem, t: PTree<W>, limit: nat) {
    && limit <= |mem|
    && (t.Node? ==>
          && 0 < t.it.id && t.it.id + 1 + |WriteStr(t.it.key)| <= limit && NulFree(t.it.key)
          && mem[t.it.id].NodeTok? && mem[t.it.id].left == Addr(Address, Root(t.left)) && mem[t.it.id].right == Addr(Address, Root(t.right))
          && At(mem, t.it.id + 1, WriteStr(t.it.key))
          && Stands(mem, t.left, limit) && Stands(mem, t.right, limit))
  }

  /** Where the value of a key lies; 0 if the tree does not have the key. */
  function Place<W>(t: PTree<W>, key: string): int {
    match Lookup(t, key)
    case None => 0
    case Some(it) => it.id + 1 + |WriteStr(it.key)|
  }

  lemma Within<X>(s: seq<X>, limit: nat, a: nat, b: nat)
    requires a <= b <= limit <= |s|
    ensures s[..limit][a..b] == s[a..b]
  {
  }

  lemma {:induction false} StandsKept<W>(mem: Mem, mem': Mem, t: PTree<W>, limit: nat)
    requires Stands(mem, t, limit) && limit <= |mem'| && mem'[..limit] == mem[..limit]
    ensures Stands(mem', t, limit)
  {
    if t.Node? {
      StandsKept(mem, mem', t.left, limit);
      StandsKept(mem, mem', t.right, limit);
      var at, s := t.it.id + 1, WriteStr(t.it.key);
      assert mem[t.it.id] == mem[..limit][t.it.id] && mem'[t.it.id] == mem'[..limit][t.it.id];
      Within(mem, limit, at, at + |s|);
      Within(mem', limit, at, at + |s|);
    }
  }

  /** `search_node` on a mapped tree whose root is at `root`: the place of the value, or NULL. */
  method FindNode<W>(mem: array<Tok>, root: nat, key: string, ghost t: PTree<W>, ghost limit: nat) returns (place: int)
    requires Stands(mem[..], t, limit) && root == Addr(Address, Root(t))
    ensures place == Place(t, key)
  {
    var n := root;
    ghost var s := t;
    while n != 0
      invariant Stands(mem[..], s, limit) && n == Addr(Address, Root(s)) && Lookup(s, key) == Lookup(t, key)
      decreases s
    {
      StrRoundTrip(s.it.key, mem[..], n + 1);
      var name := ReadStr(mem[..], n + 1);
      var res := StrCmp(name.value, key);
      if res == 0 {
        return name.next;
      }
      if res < 0 {
        n := mem[n].right;
        s := s.right;
      } else {
        n := mem[n].left;
        s := s.left;
      }
    }
    place := 0;
  }

  // ----- the further field of an item -----

  /** What becomes of it: it stays, or it is the application found in the tree at `root`. */
  datatype Fixup = Keep | Search(root: nat)

  /** `fix` is what the reader does, with the mapped applications `t`. */
  ghost predicate Fixes<W>(mem: Mem, how: Fixup, fix: (int, string) -> int, t: PTree<W>, limit: nat) {
    match how
    case Keep => forall extra, text {:trigger fix(extra, text)} :: fix(extra, text) == extra
    case Search(root) =>
      && Stands(mem, t, limit) && root == Addr(Address, Root(t))
      && forall extra, text {:trigger fix(extra, text)} :: fix(extra, text) == Place(t, text)
  }

  lemma FixesKept<W>(mem: Mem, mem': Mem, how: Fixup, fix: (int, string) -> int, t: PTree<W>, limit: nat)
    requires Fixes(mem, how, fix, t, limit) && limit <= |mem| == |mem'| && mem'[..limit] == mem[..limit]
    ensures Fixes(mem', how, fix, t, limit)
  {
    if how.Search? { StandsKept(mem, mem', t, limit); }
  }

  method Field<W>(mem: array<Tok>, how: Fixup, extra: int, text: string, ghost fix: (int, string) -> int, ghost t: PTree<W>, ghost limit: nat)
    returns (r: int)
    requires Fixes(mem[..], how, fix, t, limit)
    ensures r == fix(extra, text)
  {
    match how
    case Keep => r := extra;
    case Search(root) => r := FindNode(mem, root, text, t, limit);
  }

  // ----- the reading loop -----

  method LinkPair(mem: array<Tok>, list: nat, prev: nat, next: nat, extra: int)
    requires prev < next < mem.Length && mem[prev].ItemTok? && mem[next].ItemTok?
    modifies mem
    ensures mem[..] == Relinked(old(mem[..]), list, prev, next, extra)
  {
    mem[prev] := mem[prev].(next := next);
    mem[next] := mem[next].(prev := prev, list := list, extra := extra);
  }

  lemma BeforeKept(mem: Mem, was: Mem, list: nat, s: seq<MItem>, end: nat, fix: (int, string) -> int, j: nat, next: nat, limit: nat)
    requires Progress(mem, was, list, s, end, fix, j, next) && limit <= list < |was|
    ensures mem[..limit] == was[..limit]
  {
    forall i | 0 <= i < limit ensures mem[i] == was[i] {
      assert forall k :: 0 <= k <= j ==> s[k].addr != i;
    }
  }

  /** One turn: the item at `next` becomes the neighbour of the one at `prev`. */
  method RelinkNext<W>(mem: array<Tok>, list: nat, prev: nat, next: nat, how: Fixup, ghost fix: (int, string) -> int,
                       ghost t: PTree<W>, ghost limit: nat,
                       ghost now: Mem, ghost was: Mem, ghost s: seq<MItem>, ghost end: nat, ghost j: nat)
    returns (prev': nat, next': nat, ghost after: Mem)
    requires mem[..] == now && Progress(now, was, list, s, end, fix, j, next) && prev == s[j].addr && j + 1 < |s|
    requires Fixes(now, how, fix, t, limit)
    modifies mem
    ensures mem[..] == after && Progress(after, was, list, s, end, fix, j + 1, next') && prev' == s[j + 1].addr
    ensures list < |now| ==> after[list] == now[list]
  {
    ghost var extra, end';
    extra, end', after := ProgressStep(now, was, list, s, end, fix, j, j + 1, next);
    var text := ReadStr(mem[..], next + 1);
    var field := Field(mem, how, mem[next].extra, text.value, fix, t, limit);
    LinkPair(mem, list, prev, next, field);
    prev', next' := next, text.next;
  }

  /** The memory once the first item is linked to its list. */
  ghost function Begun(was: Mem, list: nat, extra: int): Mem
    requires list + 1 < |was| && IsHeader(was[list]) && was[list + 1].ItemTok?
  {
    was[list := WithEnds(was[list], list + 1, TailOf(was[list]))][list + 1 := was[list + 1].(list := list, extra := extra)]
  }

  lemma Begins(was: Mem, list: nat, fix: (int, string) -> int) returns (s: seq<MItem>, end: nat, text: string, next: nat, extra: int)
    requires list < |was| && IsHeader(was[list]) && ReadItems(was, list + 1, fix).Got? && was[list + 1].prev == 0
    ensures ReadItems(was, list + 1, fix) == Got(s, end) && ReadStr(was, list + 2) == Got(text, next)
    ensures list + 1 < |was| && was[list + 1].ItemTok? && extra == fix(was[list + 1].extra, text)
    ensures |s| > 0 && s[0].addr == list + 1 && Progress(Begun(was, list, extra), was, list, s, end, fix, 0, next)
  {
    var pos := list + 1;
    s, end := ReadItems(was, pos, fix).value, ReadItems(was, pos, fix).next;
    text, next := ReadStr(was, pos + 1).value, ReadStr(was, pos + 1).next;
    extra := fix(was[pos].extra, text);
    ReadPlaces(was, pos, fix);
    ReadOne(was, pos, fix);
  }

  /** The first item, and the head of the list. */
  method RelinkFirst<W>(mem: array<Tok>, list: nat, how: Fixup, ghost fix: (int, string) -> int, ghost t: PTree<W>, ghost limit: nat)
    returns (prev: nat, next: nat, ghost now: Mem, ghost s: seq<MItem>, ghost end: nat)
    requires list < mem.Length && IsHeader(mem[list]) && ReadItems(mem[..], list + 1, fix).Got? && mem[list + 1].prev == 0
    requires Fixes(mem[..], how, fix, t, limit)
    modifies mem
    ensures var was := old(mem[..]);
      && ReadItems(was, list + 1, fix) == Got(s, end) && |s| > 0 && prev == s[0].addr == list + 1
      && mem[..] == now && Progress(now, was, list, s, end, fix, 0, next) && now[list] == WithEnds(was[list], prev, TailOf(was[list]))
  {
    ghost var word, after, extra;
    s, end, word, after, extra := Begins(mem[..], list, fix);
    prev := list + 1;
    var text := ReadStr(mem[..], prev + 1);
    var field := Field(mem, how, mem[prev].extra, text.value, fix, t, limit);
    mem[list] := WithEnds(mem[list], prev, TailOf(mem[list]));
    mem[prev] := mem[prev].(list := list, extra := field);
    next, now := text.next, mem[..];
    assert now == Begun(old(mem[..]), list, extra);
  }

  /** The last item, whatever is then written into the header. */
  lemma LastLinked(now: Mem, was: Mem, list: nat, s: seq<MItem>, end: nat, j: nat, tail: Tok)
    requires Spread(list, s, end) && Finished(now, list, s, j) && Current(now, was, list, s, j) && j + 1 == |s| && list < |now|
    ensures LinkedAt(now[list := tail], list, s)
  {
    var r := now[list := tail];
    forall k | 0 <= k < |s| ensures s[k].addr < |r| && r[s[k].addr] == ItemTok(list, AddrAt(s, k + 1), AddrAt(s, k - 1), s[k].extra) {
      assert list < s[k].addr;
      assert k < j ==> FinishedItem(now, list, s, k);
    }
  }

  lemma RestKept(now: Mem, was: Mem, list: nat, s: seq<MItem>, j: nat, next: nat, tail: Tok)
    requires Untouched(now, was, list, s, j, next) && j + 1 == |s| && list < |now|
    ensures OthersKept(now[list := tail], was, list, s)
  {
  }

  /** The last item ends the list. */
  lemma Ends(now: Mem, was: Mem, list: nat, s: seq<MItem>, end: nat, fix: (int, string) -> int, j: nat, next: nat, tail: Tok)
    requires Progress(now, was, list, s, end, fix, j, next) && list < |now| && j < |s| && now[s[j].addr].ItemTok? && now[s[j].addr].next == 0
    ensures next == end && j == |s| - 1 && LinkedAt(now[list := tail], list, s) && OthersKept(now[list := tail], was, list, s)
  {
    assert now[s[j].addr].next == was[s[j].addr].next;
    LastLinked(now, was, list, s, end, j, tail);
    RestKept(now, was, list, s, j, next, tail);
  }

  method RelinkItems<W>(mem: array<Tok>, list: nat, how: Fixup, ghost fix: (int, string) -> int, ghost t: PTree<W>, ghost limit: nat)
    returns (next: nat)
    requires list < mem.Length && IsHeader(mem[list]) && ReadItems(mem[..], list + 1, fix).Got? && mem[list + 1].prev == 0
    requires Fixes(mem[..], how, fix, t, limit) && limit <= list
    modifies mem
    ensures var r := ReadItems(old(mem[..]), list + 1, fix);
      && next == r.next
      && mem[list] == WithEnds(old(mem[list]), AddrAt(r.value, 0), AddrAt(r.value, |r.value| - 1))
      && LinkedAt(mem[..], list, r.value) && OthersKept(mem[..], old(mem[..]), list, r.value)
  {
    ghost var was, now, s, end := mem[..], [], [], 0;
    var prev;
    prev, next, now, s, end := RelinkFirst(mem, list, how, fix, t, limit);
    ghost var j := 0;
    while mem[prev].next != 0
      invariant mem[..] == now && Progress(now, was, list, s, end, fix, j, next) && prev == s[j].addr
      invariant now[list] == WithEnds(was[list], list + 1, TailOf(was[list]))
      decreases |s| - j
    {
      BeforeKept(now, was, list, s, end, fix, j, next, limit);
      FixesKept(was, now, how, fix, t, limit);
      prev, next, now := RelinkNext(mem, list, prev, next, how, fix, t, limit, now, was, s, end, j);
      j := j + 1;
    }
    Ends(now, was, list, s, end, fix, j, next, WithEnds(mem[list], HeadOf(mem[list]), prev));
    mem[list] := WithEnds(mem[list], HeadOf(mem[list]), prev);
  }

  // ----- what stands where the list was -----

  /** An item and its string, and the items behind it. */
  lemma ItemRegion(mem: Mem, was: Mem, list: nat, s: seq<MItem>, i: nat, pos: nat, next: nat, end: nat)
    requires i < |s| && pos < |mem| && mem[pos] == ItemTok(list, AddrAt(s, i + 1), AddrAt(s, i - 1), s[i].extra)
    requires ReadStr(was, pos + 1) == Got(s[i].text, next) && next <= |mem| == |was| && mem[pos + 1..next] == was[pos + 1..next]
    requires At(mem, next, WriteItems(list, s, i + 1)) && end == next + |WriteItems(list, s, i + 1)|
    ensures At(mem, pos, WriteItems(list, s, i)) && end == pos + |WriteItems(list, s, i)|
  {
    var str, rest := WriteStr(s[i].text), WriteItems(list, s, i + 1);
    StrRead(was, pos + 1);
    assert At(mem, pos + 1, str);
    AtSplit(mem, pos + 1, str, rest);
    AtHead(mem, pos, mem[pos], str + rest);
    Regrouped([mem[pos]], str, rest);
  }

  /** The items from `i` on, with the strings between them. */
  lemma {:induction false} ItemsRegion(mem: Mem, was: Mem, list: nat, s: seq<MItem>, i: nat, pos: nat, fix: (int, string) -> int, end: nat)
    requires i < |s| && list < pos && ReadItems(was, pos, fix) == Got(s[i..], end)
    requires LinkedAt(mem, list, s) && OthersKept(mem, was, list, s)
    requires forall k :: 0 <= k < i ==> s[k].addr < pos
    ensures At(mem, pos, WriteItems(list, s, i)) && end == pos + |WriteItems(list, s, i)|
    decreases |s| - i
  {
    var next := ItemHere(was, s, i, pos, fix, end);
    if i + 1 < |s| {
      ItemsRegion(mem, was, list, s, i + 1, next, fix, end);
    } else {
      assert At(mem, next, []);
    }
    StringKept(mem, was, list, s, i, pos, next);
    ItemRegion(mem, was, list, s, i, pos, next, end);
  }

  /** The item at `pos`, and where the next one lies. */
  lemma ItemHere(was: Mem, s: seq<MItem>, i: nat, pos: nat, fix: (int, string) -> int, end: nat) returns (next: nat)
    requires i < |s| && ReadItems(was, pos, fix) == Got(s[i..], end)
    ensures s[i].addr == pos && ReadStr(was, pos + 1) == Got(s[i].text, next) && pos < next <= |was|
    ensures i + 1 == |s| ==> next == end
    ensures i + 1 < |s| ==> ReadItems(was, next, fix) == Got(s[i + 1..], end)
    ensures forall k :: i < k < |s| ==> s[k].addr >= next
  {
    ReadPlaces(was, pos, fix);
    ReadOne(was, pos, fix);
    next := ReadStr(was, pos + 1).next;
    RestOfItems(s, i);
    if i + 1 < |s| {
      ReadPlaces(was, next, fix);
      forall k | i < k < |s| ensures s[k].addr >= next {
        assert s[k] == s[i + 1..][k - i - 1];
      }
    }
  }

  /** No item lies in the string of another. */
  lemma StringKept(mem: Mem, was: Mem, list: nat, s: seq<MItem>, i: nat, pos: nat, next: nat)
    requires OthersKept(mem, was, list, s) && i < |s| && list < pos < next <= |was| && s[i].addr == pos
    requires forall k :: 0 <= k < i ==> s[k].addr < pos
    requires forall k :: i < k < |s| ==> s[k].addr >= next
    ensures mem[pos + 1..next] == was[pos + 1..next]
  {
    forall a | pos + 1 <= a < next ensures mem[a] == was[a] {
      assert forall k :: 0 <= k < |s| ==> s[k].addr != a;
    }
  }

  /** The tokens of a relinked list: the header with its ends, and the items. */
  function ListTokens(tok: Tok, list: nat, s: seq<MItem>): Mem
    requires IsHeader(tok)
  {
    [WithEnds(tok, AddrAt(s, 0), AddrAt(s, |s| - 1))] + WriteItems(list, s, 0)
  }

  lemma ListRegion(mem: Mem, was: Mem, list: nat, s: seq<MItem>, fix: (int, string) -> int, end: nat)
    requires list + 1 < |was| && IsHeader(was[list]) && ReadItems(was, list + 1, fix) == Got(s, end)
    requires LinkedAt(mem, list, s) && OthersKept(mem, was, list, s)
    requires mem[list] == WithEnds(was[list], AddrAt(s, 0), AddrAt(s, |s| - 1))
    ensures end == list + |ListTokens(was[list], list, s)| && mem == Patch(was, list, ListTokens(was[list], list, s))
  {
    ReadPlaces(was, list + 1, fix);
    assert s[0..] == s;
    ItemsRegion(mem, was, list, s, 0, list + 1, fix, end);
    OutsideKept(mem, was, list, s, end);
    Standing(mem, was, list, end, mem[list], WriteItems(list, s, 0));
  }

  lemma Standing(mem: Mem, was: Mem, list: nat, end: nat, x: Tok, s: Mem)
    requires list < |mem| == |was| && mem[list] == x && At(mem, list + 1, s) && end == list + 1 + |s|
    requires mem[..list] == was[..list] && mem[end..] == was[end..]
    ensures mem == Patch(was, list, [x] + s)
  {
    AtHead(mem, list, x, s);
    assert mem == mem[..list] + mem[list..end] + mem[end..];
  }

  lemma OutsideKept(mem: Mem, was: Mem, list: nat, s: seq<MItem>, end: nat)
    requires OthersKept(mem, was, list, s) && list < end <= |was| && forall k :: 0 <= k < |s| ==> list < s[k].addr < end
    ensures mem[..list] == was[..list] && mem[end..] == was[end..]
  {
    forall a | 0 <= a < |was| && (a < list || a >= end) ensures mem[a] == was[a] {
      assert forall k :: 0 <= k < |s| ==> s[k].addr != a;
    }
  }

  /** The reading loop of every list: the items behind the header at `list` are relinked where they
      lie, to each other and to their list; nothing else changes. */
  method RelinkList<W>(mem: array<Tok>, list: nat, how: Fixup, ghost fix: (int, string) -> int, ghost t: PTree<W>, ghost limit: nat)
    returns (next: nat)
    requires list < mem.Length && IsHeader(mem[list]) && ReadList(mem[..], list, fix).Got?
    requires Fixes(mem[..], how, fix, t, limit) && limit <= list
    modifies mem
    ensures var r := ReadList(old(mem[..]), list, fix);
      && next == r.next == list + |ListTokens(old(mem[list]), list, r.value)|
      && mem[..] == Patch(old(mem[..]), list, ListTokens(old(mem[list]), list, r.value))
  {
    ghost var was := mem[..];
    if HeadOf(mem[list]) != 0 {
      next := RelinkItems(mem, list, how, fix, t, limit);
      ListRegion(mem[..], was, list, ReadItems(was, list + 1, fix).value, fix, next);
    } else {
      next := list + 1;
      assert ListTokens(was[list], list, []) == [was[list]];
      assert was == was[..list] + [was[list]] + was[list + 1..];
    }
  }
}
