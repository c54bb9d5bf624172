/**
 * Lists in the binary cache: item structures with stale links, each followed by its string.
 * The reader goes on as long as the stale `next` is not NULL, and relinks the items in place.
 */
module CacheLists {
  import opened AvlStream

  /** A list item in memory: its address, one further field (a time stamp, an application
      pointer, or nothing) and its string. */
  datatype MItem = MItem(addr: nat, extra: int, text: string)

  function AddrAt(s: seq<MItem>, i: int): nat {
    if 0 <= i < |s| then s[i].addr else 0
  }

  /** The loop of the writers, for the list at address `list`: the items from `i` on, with their links as they are. */
  function WriteItems(list: nat, s: seq<MItem>, i: nat): Mem
    requires i <= |s|
    decreases |s| - i
  {
    if i == |s| then []
    else [ItemTok(list, AddrAt(s, i + 1), AddrAt(s, i - 1), s[i].extra)] + WriteStr(s[i].text) + WriteItems(list, s, i + 1)
  }

  /** The loop of the readers: an item, and the next one if `next` is not NULL. An item's new
      address is its place; `fix` says what becomes of the further field. */
  function ReadItems(mem: Mem, pos: nat, fix: (int, string) -> int): (r: Got<seq<MItem>>)
    ensures r.Got? ==> pos < r.next <= |mem|
    decreases |mem| - pos
  {
    if pos >= |mem| || !mem[pos].ItemTok? then Bad
    else match ReadStr(mem, pos + 1)
      case Bad => Bad
      case Got(text, end) =>
        var item := MItem(pos, fix(mem[pos].extra, text), text);
        if mem[pos].next == 0 then Got([item], end)
        else match ReadItems(mem, end, fix)
          case Bad => Bad
          case Got(rest, end') => Got([item] + rest, end')
  }

  // ----- headers -----

  /** A list structure, on its own or at the start of an entry. */
  predicate IsHeader(t: Tok) {
    t.ListTok? || t.EntryTok?
  }

  function HeadOf(t: Tok): nat
    requires IsHeader(t)
  {
    match t case ListTok(h, _) => h case EntryTok(h, _, _) => h
  }

  function TailOf(t: Tok): nat
    requires IsHeader(t)
  {
    match t case ListTok(_, e) => e case EntryTok(_, e, _) => e
  }

  function WithEnds(t: Tok, h: nat, e: nat): Tok
    requires IsHeader(t)
  {
    match t case ListTok(_, _) => ListTok(h, e) case EntryTok(_, _, root) => EntryTok(h, e, root)
  }

  /** An entry, or the groups of an application, with a copy of a tree header. */
  function WithTree(t: Tok, root: nat): Tok
    requires t.EntryTok? || t.GroupsTok?
  {
    match t case EntryTok(h, e, _) => EntryTok(h, e, root) case GroupsTok(owner, _) => GroupsTok(owner, root)
  }

  /** The list at `list`, its items behind it. The reader leaves the `tail` of an empty list and the
      `prev` of the first item as dumped, which is right only if they were NULL. */
  function ReadList(mem: Mem, list: nat, fix: (int, string) -> int): (r: Got<seq<MItem>>)
    requires list < |mem| && IsHeader(mem[list])
    ensures r.Got? ==> list < r.next <= |mem|
  {
    if HeadOf(mem[list]) == 0 then
      if TailOf(mem[list]) == 0 then Got([], list + 1) else Bad
    else if list + 1 < |mem| && mem[list + 1].ItemTok? && mem[list + 1].prev == 0 then ReadItems(mem, list + 1, fix)
    else Bad
  }

  // ----- round trip -----

  predicate GoodItems(s: seq<MItem>) {
    forall i :: 0 <= i < |s| ==> s[i].addr != 0 && NulFree(s[i].text)
  }

  /** The items from `i` on as they come back when the first of them lies at `pos`. */
  function ItemsImage(s: seq<MItem>, i: nat, pos: nat, fix: (int, string) -> int): (r: seq<MItem>)
    requires i <= |s|
    ensures |r| == |s| - i
    decreases |s| - i
  {
    if i == |s| then []
    else [MItem(pos, fix(s[i].extra, s[i].text), s[i].text)] +
         ItemsImage(s, i + 1, pos + 1 + |WriteStr(s[i].text)|, fix)
  }

  /** The parts of a written item, and where the next one begins. */
  lemma ItemSplit(list: nat, s: seq<MItem>, i: nat, mem: Mem, pos: nat) returns (next: nat)
    requires i < |s| && NulFree(s[i].text) && At(mem, pos, WriteItems(list, s, i))
    ensures pos < |mem| && mem[pos] == ItemTok(list, AddrAt(s, i + 1), AddrAt(s, i - 1), s[i].extra)
    ensures next == pos + 1 + |WriteStr(s[i].text)| && ReadStr(mem, pos + 1) == Got(s[i].text, next)
    ensures At(mem, next, WriteItems(list, s, i + 1)) && pos + |WriteItems(list, s, i)| == next + |WriteItems(list, s, i + 1)|
  {
    var tok, str, rest := ItemTok(list, AddrAt(s, i + 1), AddrAt(s, i - 1), s[i].extra), WriteStr(s[i].text), WriteItems(list, s, i + 1);
    assert WriteItems(list, s, i) == [tok] + (str + rest);
    AtHead(mem, pos, tok, str + rest);
    AtSplit(mem, pos + 1, str, rest);
    StrRoundTrip(s[i].text, mem, pos + 1);
    next := pos + 1 + |str|;
  }

  /** One turn of the reader. */
  lemma ReadStep(mem: Mem, pos: nat, fix: (int, string) -> int, text: string, next: nat, rest: seq<MItem>, end: nat)
    requires pos < |mem| && mem[pos].ItemTok? && ReadStr(mem, pos + 1) == Got(text, next)
    requires if mem[pos].next == 0 then rest == [] && end == next else ReadItems(mem, next, fix) == Got(rest, end)
    ensures ReadItems(mem, pos, fix) == Got([MItem(pos, fix(mem[pos].extra, text), text)] + rest, end)
  {
    var item := MItem(pos, fix(mem[pos].extra, text), text);
    assert [item] + [] == [item];
  }

  lemma {:induction false} ItemsRoundTrip(list: nat, s: seq<MItem>, i: nat, mem: Mem, pos: nat, fix: (int, string) -> int)
    requires i < |s| && GoodItems(s) && At(mem, pos, WriteItems(list, s, i))
    ensures ReadItems(mem, pos, fix) == Got(ItemsImage(s, i, pos, fix), pos + |WriteItems(list, s, i)|)
    decreases |s| - i
  {
    hide ReadItems, At, ReadStr;
    var next := ItemSplit(list, s, i, mem, pos);
    var rest := ItemsImage(s, i + 1, next, fix);
    if i + 1 < |s| {
      assert s[i + 1].addr != 0;
      ItemsRoundTrip(list, s, i + 1, mem, next, fix);
    }
    ReadStep(mem, pos, fix, s[i].text, next, rest, next + |WriteItems(list, s, i + 1)|);
  }

  lemma ListRoundTrip(at: nat, s: seq<MItem>, mem: Mem, list: nat, fix: (int, string) -> int)
    requires GoodItems(s) && list < |mem| && IsHeader(mem[list]) && At(mem, list + 1, WriteItems(at, s, 0))
    requires HeadOf(mem[list]) == AddrAt(s, 0) && TailOf(mem[list]) == AddrAt(s, |s| - 1)
    ensures ReadList(mem, list, fix) == Got(ItemsImage(s, 0, list + 1, fix), list + 1 + |WriteItems(at, s, 0)|)
  {
    if s != [] {
      var next := ItemSplit(at, s, 0, mem, list + 1);
      ItemsRoundTrip(at, s, 0, mem, list + 1, fix);
    }
  }

  /** Order and strings are kept; the further field is what `fix` makes of it. */
  lemma {:induction false} ImageItems(s: seq<MItem>, i: nat, pos: nat, fix: (int, string) -> int)
    requires i <= |s|
    ensures forall k :: 0 <= k < |s| - i ==> var r := ItemsImage(s, i, pos, fix)[k];
      r.text == s[i + k].text && r.extra == fix(s[i + k].extra, s[i + k].text) && r.addr >= pos
    decreases |s| - i
  {
    if i < |s| {
      ImageItems(s, i + 1, pos + 1 + |WriteStr(s[i].text)|, fix);
    }
  }

  // ----- relinking in the mapped memory -----

  /** The places of the items rise, and hold item structures. */
  lemma {:induction false} ReadPlaces(mem: Mem, pos: nat, fix: (int, string) -> int)
    requires ReadItems(mem, pos, fix).Got?
    ensures var s := ReadItems(mem, pos, fix).value;
      && |s| > 0 && s[0].addr == pos
      && (forall i :: 0 <= i < |s| ==> pos <= s[i].addr < ReadItems(mem, pos, fix).next)
      && (forall i, j :: 0 <= i < j < |s| ==> s[i].addr < s[j].addr)
    decreases |mem| - pos
  {
    var text := ReadStr(mem, pos + 1);
    if mem[pos].next != 0 { ReadPlaces(mem, text.next, fix); }
  }

  /** The items `s`, linked to each other and to the list at `list`, lie in memory. */
  ghost predicate LinkedAt(mem: Mem, list: nat, s: seq<MItem>) {
    forall k :: 0 <= k < |s| ==>
      && s[k].addr < |mem|
      && mem[s[k].addr] == ItemTok(list, AddrAt(s, k + 1), AddrAt(s, k - 1), s[k].extra)
  }

  /** All cells but the list header and the items are as in `was`. */
  ghost predicate OthersKept(mem: Mem, was: Mem, list: nat, s: seq<MItem>) {
    |mem| == |was| && forall i :: 0 <= i < |mem| && i != list && (forall k :: 0 <= k < |s| ==> s[k].addr != i) ==> mem[i] == was[i]
  }

  /** One step of the reader on the memory as it was: the item at `pos`, and where the rest begins. */
  lemma ReadOne(mem: Mem, pos: nat, fix: (int, string) -> int)
    requires ReadItems(mem, pos, fix).Got?
    ensures mem[pos].ItemTok? && ReadStr(mem, pos + 1).Got?
    ensures var (s, str) := (ReadItems(mem, pos, fix).value, ReadStr(mem, pos + 1));
      && s[0] == MItem(pos, fix(mem[pos].extra, str.value), str.value)
      && (mem[pos].next == 0 <==> |s| == 1)
      && (|s| == 1 ==> ReadItems(mem, pos, fix).next == str.next)
      && (|s| > 1 ==> ReadItems(mem, str.next, fix) == Got(s[1..], ReadItems(mem, pos, fix).next))
  {
    ReadPlaces(mem, pos, fix);
    if mem[pos].next != 0 {
      ReadPlaces(mem, ReadStr(mem, pos + 1).next, fix);
    }
  }

  /** The items lie one after the other behind the header. */
  ghost predicate Spread(list: nat, s: seq<MItem>, end: nat) {
    && (forall k :: 0 <= k < |s| ==> list < s[k].addr < end)
    && (forall i, k :: 0 <= i < k < |s| ==> s[i].addr < s[k].addr)
  }

  /** Nothing but the header and the items up to `j` has changed. */
  ghost predicate Untouched(mem: Mem, was: Mem, list: nat, s: seq<MItem>, j: nat, next: nat) {
    && |mem| == |was| && j < |s|
    && SameFrom(was, mem, next)
    && (forall i :: 0 <= i < next && i < |mem| && i != list && (forall k :: 0 <= k <= j ==> s[k].addr != i) ==> mem[i] == was[i])
  }

  /** The items before `j` are linked on both sides. */
  ghost predicate Finished(mem: Mem, list: nat, s: seq<MItem>, j: nat) {
    j < |s| && forall k {:trigger s[k]} :: 0 <= k < j ==> FinishedItem(mem, list, s, k)
  }

  ghost predicate FinishedItem(mem: Mem, list: nat, s: seq<MItem>, k: nat) {
    k + 1 < |s| && s[k].addr < |mem| && mem[s[k].addr] == ItemTok(list, AddrAt(s, k + 1), AddrAt(s, k - 1), s[k].extra)
  }

  /** Item `j` is linked to the one before it. */
  ghost predicate Current(mem: Mem, was: Mem, list: nat, s: seq<MItem>, j: nat) {
    && j < |s| && s[j].addr < |mem| == |was|
    && was[s[j].addr].ItemTok? && (was[s[j].addr].next == 0 <==> j + 1 == |s|)
    && mem[s[j].addr] == ItemTok(list, was[s[j].addr].next, AddrAt(s, j - 1), s[j].extra)
  }

  /** What is left to read. */
  ghost predicate Ahead(was: Mem, s: seq<MItem>, end: nat, fix: (int, string) -> int, j: nat, next: nat) {
    && j < |s| && s[j].addr < next <= end <= |was|
    && if j + 1 == |s| then next == end else s[j + 1].addr == next && ReadItems(was, next, fix) == Got(s[j + 1..], end)
  }

  /** How far the reader is: item `j` has been taken and `next` is the place after it. */
  ghost predicate Progress(mem: Mem, was: Mem, list: nat, s: seq<MItem>, end: nat, fix: (int, string) -> int, j: nat, next: nat) {
    && Spread(list, s, end) && Untouched(mem, was, list, s, j, next) && Finished(mem, list, s, j)
    && Current(mem, was, list, s, j) && Ahead(was, s, end, fix, j, next)
  }

  /** The memory after one turn: the item at `next` is the neighbour of the one at `prev`. */
  ghost function Relinked(mem: Mem, list: nat, prev: nat, next: nat, extra: int): Mem
    requires prev < next < |mem| && mem[prev].ItemTok? && mem[next].ItemTok?
  {
    mem[prev := mem[prev].(next := next)][next := mem[next].(prev := prev, list := list, extra := extra)]
  }

  lemma AheadStep(was: Mem, mem: Mem, list: nat, s: seq<MItem>, end: nat, fix: (int, string) -> int, j: nat, j1: nat, next: nat)
    requires Ahead(was, s, end, fix, j, next) && j1 == j + 1 < |s|
    requires SameFrom(was, mem, next)
    ensures next < |mem| && was[next].ItemTok? && ReadStr(mem, next + 1).Got?
    ensures
      var text := ReadStr(mem, next + 1);
      && s[j1] == MItem(next, fix(was[next].extra, text.value), text.value)
      && (was[next].next == 0 <==> j1 + 1 == |s|) && Ahead(was, s, end, fix, j1, text.next)
  {
    ReadOne(was, next, fix);
    ReadPlaces(was, next, fix);
    ReadStrSame(was, mem, next + 1);
    RestOfItems(s, j1);
  }

  lemma RestOfItems(s: seq<MItem>, j: nat)
    requires j < |s|
    ensures s[j..][0] == s[j] && s[j..][1..] == s[j + 1..] && |s[j..]| == |s| - j
    ensures j + 1 < |s| ==> s[j..][1] == s[j + 1] && s[j + 1..][0] == s[j + 1]
  {
  }

  lemma FinishedStep(mem: Mem, mem': Mem, list: nat, s: seq<MItem>, end: nat, j: nat, j1: nat)
    requires Spread(list, s, end) && Finished(mem, list, s, j) && j1 == j + 1 < |s| && |mem'| == |mem|
    requires forall k :: 0 <= k < j && s[k].addr < |mem| ==> mem'[s[k].addr] == mem[s[k].addr]
    requires FinishedItem(mem', list, s, j)
    ensures Finished(mem', list, s, j1)
  {
    forall k | 0 <= k < j1 ensures FinishedItem(mem', list, s, k) {
      assert k < j ==> FinishedItem(mem, list, s, k);
    }
  }

  lemma UntouchedStep(mem: Mem, mem': Mem, was: Mem, list: nat, s: seq<MItem>, j: nat, j1: nat, next: nat, next': nat)
    requires Untouched(mem, was, list, s, j, next) && j1 == j + 1 < |s| && s[j].addr < next == s[j1].addr < next' && |mem'| == |mem|
    requires forall i :: 0 <= i < |mem| && i != s[j].addr && i != next ==> mem'[i] == mem[i]
    ensures Untouched(mem', was, list, s, j1, next')
  {
    forall i | 0 <= i < next' && i < |mem| && i != list && (forall k :: 0 <= k <= j1 ==> s[k].addr != i) ensures mem'[i] == was[i] {
      assert s[j].addr != i && s[j1].addr != i;
    }
  }

  lemma ProgressStep(mem: Mem, was: Mem, list: nat, s: seq<MItem>, end: nat, fix: (int, string) -> int, j: nat, j1: nat, next: nat)
    returns (extra: int, next': nat, mem': Mem)
    requires Progress(mem, was, list, s, end, fix, j, next) && j1 == j + 1 < |s|
    ensures s[j].addr < next == s[j1].addr < |mem| && mem[next].ItemTok? && mem[s[j].addr].ItemTok? && ReadStr(mem, next + 1).Got?
    ensures extra == fix(mem[next].extra, ReadStr(mem, next + 1).value) && next' == ReadStr(mem, next + 1).next
    ensures mem' == Relinked(mem, list, s[j].addr, next, extra)
    ensures list < |mem| ==> mem'[list] == mem[list]
    ensures Progress(mem', was, list, s, end, fix, j1, next')
  {
    AheadStep(was, mem, list, s, end, fix, j, j1, next);
    var text := ReadStr(mem, next + 1);
    extra, next' := fix(mem[next].extra, text.value), text.next;
    mem' := Relinked(mem, list, s[j].addr, next, extra);
    assert list < s[j].addr < next;
    UntouchedStep(mem, mem', was, list, s, j, j1, next, next');
    assert FinishedItem(mem', list, s, j);
    forall k | 0 <= k < j && s[k].addr < |mem| ensures mem'[s[k].addr] == mem[s[k].addr] {
      assert s[k].addr < s[j].addr;
    }
    FinishedStep(mem, mem', list, s, end, j, j1);
  }
}
