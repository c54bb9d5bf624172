/** Intrusive doubly linked lists, updated in place. */
module XdgLists {
  import opened CStrings
  import opened Sequences

  class ListItem<T> {
    var list: Option<List<T>>
    var prev: Option<ListItem<T>>
    var next: Option<ListItem<T>>
    const data: T

    constructor (data: T)
      ensures this.data == data
    {
      this.data := data;
      list, prev, next := None, None, None;
    }
  }

  function PrevOf<T>(s: seq<ListItem<T>>, i: int): Option<ListItem<T>>
    requires 0 <= i <= |s|
  {
    if i == 0 then None else Some(s[i - 1])
  }

  function NextOf<T>(s: seq<ListItem<T>>, i: int): Option<ListItem<T>>
    requires -1 <= i < |s|
  {
    if i + 1 == |s| then None else Some(s[i + 1])
  }

  class List<T> {
    var head: Option<ListItem<T>>
    var tail: Option<ListItem<T>>
    ghost var items: seq<ListItem<T>>

    constructor ()
      ensures Valid() && items == []
    {
      head, tail, items := None, None, [];
    }

    /** The items, in order, are linked to each other and to the list in both directions. */
    ghost predicate Valid()
      reads this, items
    {
      Unique(items) && Linked(items)
    }

    /** The links are those of the sequence `s`. */
    ghost predicate Linked(s: seq<ListItem<T>>)
      reads this, s
    {
      head == NextOf(s, -1) && tail == PrevOf(s, |s|) && forall k :: 0 <= k < |s| ==> Placed(s, k)
    }

    /** Item `i` of `s` is linked to its neighbours and to this list. */
    ghost predicate Placed(s: seq<ListItem<T>>, i: int)
      requires 0 <= i < |s|
      reads s[i]
    {
      s[i].list == Some(this) && s[i].prev == PrevOf(s, i) && s[i].next == NextOf(s, i)
    }

    method Prepend(value: ListItem<T>)
      requires Valid() && value !in items
      modifies this, items, value
      ensures Valid() && items == [value] + old(items)
    {
      value.list := Some(this);
      value.prev := None;
      if head.None? {
        value.next := None;
        tail := Some(value);
      } else {
        value.next := head;
        head.value.prev := Some(value);
      }
      head := Some(value);
      ghost var s := items;
      items := [value] + s;
      forall i | 0 <= i < |items| ensures Placed(items, i) {
        if i > 0 { assert old(Placed(s, i - 1)); }
      }
    }

    method Append(value: ListItem<T>)
      requires Valid() && value !in items
      modifies this, items, value
      ensures Valid() && items == old(items) + [value]
    {
      ghost var s := items;
      assert s != [] ==> Placed(s, |s| - 1) && tail == Some(s[|s| - 1]);
      value.list := Some(this);
      value.next := None;
      if head.None? {
        value.prev := None;
        head := Some(value);
      } else {
        value.prev := tail;
        tail.value.next := Some(value);
      }
      tail := Some(value);
      items := s + [value];
      forall i | 0 <= i < |items| ensures Placed(items, i) {
        if i < |s| { assert old(Placed(s, i)); }
      }
    }
  
    /** `_xdg_list_remove`: the item after the removed one. */
    method Remove(item: ListItem<T>, ghost i: nat) returns (res: Option<ListItem<T>>)
      requires Valid() && i < |items| && items[i] == item
      modifies this, items
      ensures Valid() && items == old(items)[..i] + old(items)[i + 1..]
      ensures res == NextOf(old(items), i)
    {
      ghost var s := items;
      assert Placed(s, i) && (i > 0 ==> Placed(s, i - 1)) && (i + 1 < |s| ==> Placed(s, i + 1));
      res := item.next;
      if item.prev.Some? {
        item.prev.value.next := res;
        if res.Some? {
          res.value.prev := item.prev;
        } else {
          tail := item.prev;
        }
      } else {
        head := res;
        if res.Some? {
          res.value.prev := None;
        } else {
          tail := None;
        }
      }
      items := s[..i] + s[i + 1..];
      forall k | 0 <= k < |items| ensures Placed(items, k) {
        assert old(Placed(s, if k < i then k else k + 1));
      }
    }

    /** The item takes a new left neighbour; a neighbour that would be itself is `other`. */
    method PutPrev(item: ListItem<T>, p: Option<ListItem<T>>, other: ListItem<T>)
      requires item != other
      modifies this`head, item`prev, (if p.None? || p == Some(item) then {} else {p.value})`next
      ensures item.prev == if p == Some(item) then Some(other) else p
      ensures head == if p.None? then Some(item) else old(head)
      ensures p.Some? && p.value != item ==> p.value.next == Some(item)
    {
      item.prev := p;
      if item.prev.Some? {
        if item.prev.value == item {
          item.prev := Some(other);
        } else {
          item.prev.value.next := Some(item);
        }
      } else {
        head := Some(item);
      }
    }

    method PutNext(item: ListItem<T>, n: Option<ListItem<T>>, other: ListItem<T>)
      requires item != other
      modifies this`tail, item`next, (if n.None? || n == Some(item) then {} else {n.value})`prev
      ensures item.next == if n == Some(item) then Some(other) else n
      ensures tail == if n.None? then Some(item) else old(tail)
      ensures n.Some? && n.value != item ==> n.value.prev == Some(item)
    {
      item.next := n;
      if item.next.Some? {
        if item.next.value == item {
          item.next := Some(other);
        } else {
          item.next.value.prev := Some(item);
        }
      } else {
        tail := Some(item);
      }
    }

    method SwapLinks(item1: ListItem<T>, item2: ListItem<T>, ghost s: seq<ListItem<T>>, ghost i: nat, ghost j: nat)
      requires Unique(s) && Linked(s) && i < |s| && j < |s| && i != j && s[i] == item1 && s[j] == item2
      modifies this`head, this`tail, s
      ensures Linked(Swapped(s, i, j))
    {
      assert Placed(s, i) && Placed(s, j);
      var prev1, next1, prev2, next2 := item1.prev, item1.next, item2.prev, item2.next;
      PutPrev(item2, prev1, item1);
      PutNext(item2, next1, item1);
      PutPrev(item1, prev2, item2);
      PutNext(item1, next2, item2);
      ghost var r := Swapped(s, i, j);
      forall k | 0 <= k < |r| ensures Placed(r, k) {
        assert old(Placed(s, k));
        assert r[k] == if k == i then item2 else if k == j then item1 else s[k];
      }
    }

    /** `xdg_list_swap`: exactly two positions are exchanged. */
    method Swap(item1: ListItem<T>, item2: ListItem<T>, ghost i: nat, ghost j: nat)
      requires Valid() && i < |items| && j < |items| && i != j && items[i] == item1 && items[j] == item2
      modifies this, items
      ensures Valid() && items == Swapped(old(items), i, j)
      ensures items[i] == item2 && items[j] == item1 && forall k :: 0 <= k < |items| && k != i && k != j ==> items[k] == old(items[k])
    {
      SwapLinks(item1, item2, items, i, j);
      items := Swapped(items, i, j);
    }

    /** One turn of `_xdg_list_remove_if`: removes `item` or steps over it. */
    method RemoveOrSkip(item: ListItem<T>, remove: bool, ghost i: nat, ghost all: set<ListItem<T>>) returns (next: Option<ListItem<T>>)
      requires Valid() && i < |items| && items[i] == item && forall x :: x in items ==> x in all
      modifies this, all
      ensures Valid() && items == if remove then old(items)[..i] + old(items)[i + 1..] else old(items)
      ensures next == NextOf(old(items), i)
    {
      assert Placed(items, i);
      if remove {
        next := Remove(item, i);
      } else {
        next := item.next;
      }
    }

    /** `_xdg_list_remove_if`: keeps the items that do not match, in order,
        and frees each of the others once. */
    method RemoveIf(match_: T -> bool) returns (freed: seq<ListItem<T>>)
      requires Valid()
      modifies this, items
      ensures Valid() && items == Select(old(items), match_, false)
      ensures freed == Select(old(items), match_, true)
    {
      ghost var s, kept, all := items, [], set x | x in items;
      ghost var j := 0;
      var item := head;
      freed := [];
      while item.Some?
        invariant 0 <= j <= |s| && Valid() && item == NextOf(s, j - 1)
        invariant items == kept + s[j..] && kept == Select(s[..j], match_, false)
        invariant freed == Select(s[..j], match_, true)
        decreases |s| - j
      {
        ghost var j1 := j + 1;
        SelectSnoc(s, j, j1, match_, false);
        SelectSnoc(s, j, j1, match_, true);
        SelectIn(s[..j], match_, false);
        RestStep(s, j, j1, kept, items);
        var remove := match_(item.value.data);
        if remove {
          freed := freed + [item.value];
        }
        item := RemoveOrSkip(item.value, remove, |kept|, all);
        if !remove {
          kept := kept + [s[j]];
        }
        j := j1;
      }
      assert s[..j] == s;
    }
  }

  /** `s` with positions `i` and `j` exchanged. */
  function Swapped<X>(s: seq<X>, i: nat, j: nat): (r: seq<X>)
    requires i < |s| && j < |s|
    ensures Unique(s) ==> Unique(r)
  {
    s[i := s[j]][j := s[i]]
  }

  /** The two positions hold each other's items, the others their own. */
  lemma SwappedPlaces<X>(s: seq<X>, i: nat, j: nat, k: nat)
    requires i < |s| && j < |s| && k < |s|
    ensures var r := Swapped(s, i, j);
      && |r| == |s| && multiset(r) == multiset(s)
      && r[i] == s[j] && r[j] == s[i] && (k != i && k != j ==> r[k] == s[k])
  {
  }

  /** Swapping is its own inverse, whichever item is named first. */
  lemma SwapTwice<X>(s: seq<X>, i: nat, j: nat)
    requires i < |s| && j < |s|
    ensures Swapped(Swapped(s, i, j), i, j) == s
    ensures Swapped(s, j, i) == Swapped(s, i, j)
  {
  }

  /** The items whose data satisfies `p`, or fails it, in order. */
  function Select<T>(s: seq<ListItem<T>>, p: T -> bool, want: bool): seq<ListItem<T>> {
    if s == [] then []
    else Select(s[..|s| - 1], p, want) + if p(s[|s| - 1].data) == want then [s[|s| - 1]] else []
  }

  lemma SelectSnoc<T>(s: seq<ListItem<T>>, j: nat, j1: nat, p: T -> bool, want: bool)
    requires j < |s| && j1 == j + 1
    ensures Select(s[..j1], p, want) == Select(s[..j], p, want) + if p(s[j].data) == want then [s[j]] else []
  {
    assert s[..j + 1][..j] == s[..j];
  }

  lemma {:induction false} SelectIn<T>(s: seq<ListItem<T>>, p: T -> bool, want: bool)
    ensures forall x :: x in Select(s, p, want) ==> x in s && p(x.data) == want
  {
    if s != [] { SelectIn(s[..|s| - 1], p, want); }
  }

  /** Part by part, */
  lemma {:induction false} SelectParts<T>(a: seq<ListItem<T>>, b: seq<ListItem<T>>, p: T -> bool, want: bool)
    ensures Select(a + b, p, want) == Select(a, p, want) + Select(b, p, want)
    decreases |b|
  {
    if b != [] {
      var n := |b| - 1;
      assert (a + b)[..|a| + n] == a + b[..n];
      SelectParts(a, b[..n], p, want);
    } else {
      assert a + b == a;
    }
  }

  /** items that are wanted stay, and others go. */
  lemma {:induction false} SelectAll<T>(s: seq<ListItem<T>>, p: T -> bool, want: bool)
    ensures (forall x :: x in s ==> p(x.data) == want) ==> Select(s, p, want) == s
    ensures (forall x :: x in s ==> p(x.data) != want) ==> Select(s, p, want) == []
  {
    if s != [] {
      SelectAll(s[..|s| - 1], p, want);
    }
  }

  lemma RestStep<T>(s: seq<ListItem<T>>, j: nat, j1: nat, kept: seq<ListItem<T>>, items: seq<ListItem<T>>)
    requires j < |s| && j1 == j + 1 && items == kept + s[j..] && forall x :: x in kept ==> x in s[..j]
    ensures items[|kept|] == s[j] && NextOf(items, |kept|) == NextOf(s, j)
    ensures items[..|kept|] + items[|kept| + 1..] == kept + s[j1..] && items == (kept + [s[j]]) + s[j1..]
    ensures forall x :: x in items ==> x in s
  {
  }
}
