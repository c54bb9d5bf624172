/** The subclass test over the loaded lists and over mapped cache files. */
module MimeSubclass {
  import opened CStrings
  import opened Sequences
  import opened PackedBuffer
  import opened MimeTypes
  import opened MimeParents

  /** One of the types is a subclass. */
  ghost predicate AnySubclass(t: Tables, types: seq<string>, base: string, rank: string -> nat)
    requires Acyclic(t, rank)
  {
    exists i :: 0 <= i < |types| && Subclass(t, types[i], base, rank)
  }

  lemma AnyOfParents(t: Tables, mime: string, base: string, rank: string -> nat)
    requires Acyclic(t, rank)
    ensures
      var um, ub := Unalias(t, mime), Unalias(t, base);
      Subclass(t, mime, base, rank) <==> Accepts(um, ub) || AnySubclass(t, Parents(t, um), ub, rank)
  {
  }

  lemma AnyConcat(t: Tables, a: seq<string>, b: seq<string>, base: string, rank: string -> nat)
    requires Acyclic(t, rank)
    ensures AnySubclass(t, a + b, base, rank) <==> AnySubclass(t, a, base, rank) || AnySubclass(t, b, base, rank)
  {
    if i :| 0 <= i < |a| && Subclass(t, a[i], base, rank) { assert (a + b)[i] == a[i]; }
    if i :| 0 <= i < |b| && Subclass(t, b[i], base, rank) { assert (a + b)[|a| + i] == b[i]; }
  }

  /** The parent list holds the parents of the tables. */
  ghost predicate SameParents(t: Tables, lines: seq<string>) {
    forall m :: Parents(t, m) == ParentsIn(lines, m)
  }

  /** `_xdg_mime_mime_type_subclass`, over the alias table and the parent list. */
  method SubclassOfLists(alias: map<string, string>, list: ParentList, mime: string, base: string, ghost t: Tables, ghost rank: string -> nat)
    returns (res: bool)
    requires list.Valid() && t.alias == alias && Acyclic(t, rank) && SameParents(t, list.lines)
    ensures res <==> Subclass(t, mime, base, rank)
    decreases rank(Unalias(t, mime))
  {
    hide Groups, Sorted, Subclass, Accepts, ParentsIn;
    var umime := if mime in alias then alias[mime] else mime;
    var ubase := if base in alias then alias[base] else base;
    AnyOfParents(t, mime, base, rank);
    if Accepts(umime, ubase) { return true; }
    var parents := list.Lookup(umime);
    assert parents == Parents(t, umime);
    for i := 0 to |parents|
      invariant forall j :: 0 <= j < i ==> !Subclass(t, parents[j], ubase, rank)
    {
      assert rank(Unalias(t, Parents(t, umime)[i])) < rank(umime);
      res := SubclassOfLists(alias, list, parents[i], ubase, t, rank);
      if res { return; }
    }
    res := false;
  }

  // ----- sorted string tables -----

  const PAIR := 8

  function KeyAt(buf: seq<Byte>, list: nat, i: nat): string
    requires list + 4 + PAIR * i + PAIR <= |buf|
  {
    StringAt(buf, U32(buf, list + 4 + PAIR * i))
  }

  function DataAt(buf: seq<Byte>, list: nat, i: nat): nat
    requires list + 4 + PAIR * i + PAIR <= |buf|
  {
    U32(buf, list + 4 + PAIR * i + 4)
  }

  /** A table of pairs at `list` with these keys, which are sorted. */
  ghost predicate Keyed(buf: seq<Byte>, list: nat, keys: seq<string>) {
    && list + 4 + PAIR * |keys| <= |buf| && U32(buf, list) == |keys|
    && (forall i {:trigger keys[i]} :: 0 <= i < |keys| ==> list + 4 + PAIR * i + PAIR <= |buf| && KeyAt(buf, list, i) == keys[i])
    && (forall i, j :: 0 <= i < j < |keys| ==> Less(keys[i], keys[j]))
  }

  /** The search in halves that all lookups share. */
  method Bisect(buf: seq<Byte>, list: nat, key: string, ghost keys: seq<string>) returns (found: bool, mid: nat)
    requires Keyed(buf, list, keys)
    ensures found ==> mid < |keys| && keys[mid] == key
    ensures !found ==> key !in keys
  {
    var min, max := 0, U32(buf, list) - 1;
    mid := 0;
    while max >= min
      invariant 0 <= min <= max + 1 <= |keys|
      invariant forall i :: 0 <= i < min || max < i < |keys| ==> keys[i] != key
    {
      mid := (min + max) / 2;
      var cmp := StrCmp(KeyAt(buf, list, mid), key);
      assert keys[mid] == KeyAt(buf, list, mid);
      HalfKeys(keys, mid, key);
      if cmp < 0 {
        min := mid + 1;
      } else if cmp > 0 {
        max := mid - 1;
      } else {
        return true, mid;
      }
    }
    found := false;
  }

  lemma HalfKeys(keys: seq<string>, mid: nat, key: string)
    requires mid < |keys| && forall i, j :: 0 <= i < j < |keys| ==> Less(keys[i], keys[j])
    ensures StrCmp(keys[mid], key) == 0 ==> keys[mid] == key
    ensures StrCmp(keys[mid], key) < 0 ==> forall i :: 0 <= i <= mid ==> keys[i] != key
    ensures StrCmp(keys[mid], key) > 0 ==> forall i :: mid <= i < |keys| ==> keys[i] != key
  {
    StrCmpZero(keys[mid], key);
    StrCmpFlip(key, keys[mid]);
    LessTotal(key, keys[mid]);
    forall i | 0 <= i < |keys| && keys[i] == key && i != mid
      ensures if i < mid then StrCmp(keys[mid], key) > 0 else StrCmp(keys[mid], key) < 0
    {
      if i > mid { assert Less(keys[mid], keys[i]); } else { assert Less(keys[i], keys[mid]); }
    }
  }

  // ----- mapped files -----

  /** The alias and the parent section of one file. */
  datatype Cached = Cached(aliases: seq<string>, names: seq<string>, types: seq<string>, parents: seq<seq<string>>)

  ghost predicate ListedAt(buf: seq<Byte>, off: nat, s: seq<string>) {
    && off + 4 + 4 * |s| <= |buf| && U32(buf, off) == |s|
    && forall j {:trigger s[j]} :: 0 <= j < |s| ==> off + 4 + 4 * j + 4 <= |buf| && StringAt(buf, U32(buf, off + 4 + 4 * j)) == s[j]
  }

  ghost predicate Holds(buf: seq<Byte>, c: Cached) {
    && 12 <= |buf| && |c.aliases| == |c.names| && |c.types| == |c.parents|
    && Keyed(buf, U32(buf, 4), c.aliases) && Keyed(buf, U32(buf, 8), c.types)
    && (forall i {:trigger c.names[i]} :: 0 <= i < |c.names| ==>
          U32(buf, 4) + 4 + PAIR * i + PAIR <= |buf| && StringAt(buf, DataAt(buf, U32(buf, 4), i)) == c.names[i])
    && (forall i {:trigger c.parents[i]} :: 0 <= i < |c.parents| ==>
          U32(buf, 8) + 4 + PAIR * i + PAIR <= |buf| && ListedAt(buf, DataAt(buf, U32(buf, 8), i), c.parents[i]))
  }

  function Position(keys: seq<string>, key: string): (i: nat)
    requires key in keys
    ensures i < |keys| && keys[i] == key
  {
    if keys[0] == key then 0 else 1 + Position(keys[1..], key)
  }

  ghost predicate Matched(c: Cached) {
    |c.aliases| == |c.names| && |c.types| == |c.parents|
  }

  /** The alias a file gives. */
  function AliasOf(c: Cached, m: string): Option<string>
    requires |c.aliases| == |c.names|
  {
    if m in c.aliases then Some(c.names[Position(c.aliases, m)]) else None
  }

  function ParentsOf(c: Cached, m: string): seq<string>
    requires |c.types| == |c.parents|
  {
    if m in c.types then c.parents[Position(c.types, m)] else []
  }

  ghost predicate AllHold(bufs: seq<seq<Byte>>, cs: seq<Cached>) {
    |bufs| == |cs| && forall i {:trigger cs[i]} :: 0 <= i < |cs| ==> Holds(bufs[i], cs[i])
  }

  ghost predicate AllMatched(cs: seq<Cached>) {
    forall i {:trigger cs[i]} :: 0 <= i < |cs| ==> Matched(cs[i])
  }

  /** The first file with an alias decides. */
  function AliasIn(cs: seq<Cached>, m: string): Option<string>
    requires AllMatched(cs)
  {
    if cs == [] then None
    else if AliasOf(cs[0], m).Some? then AliasOf(cs[0], m) else AliasIn(cs[1..], m)
  }

  /** The parents of all files, file by file. */
  function ParentsUpTo(cs: seq<Cached>, n: nat, m: string): seq<string>
    requires AllMatched(cs) && n <= |cs|
  {
    if n == 0 then [] else ParentsUpTo(cs, n - 1, m) + ParentsOf(cs[n - 1], m)
  }

  /** The alias is the name beside it, in the first file that has one. */
  lemma {:induction false} AliasMeaning(cs: seq<Cached>, m: string, i: nat, k: nat)
    requires AllMatched(cs) && i < |cs| && k < |cs[i].aliases| && cs[i].aliases[k] == m
    requires forall j :: 0 <= j < k ==> cs[i].aliases[j] != m
    requires forall j :: 0 <= j < i ==> m !in cs[j].aliases
    ensures Matched(cs[i]) && AliasIn(cs, m) == Some(cs[i].names[k])
  {
    assert Matched(cs[i]);
    if i > 0 {
      assert m !in cs[0].aliases;
      AliasMeaning(cs[1..], m, i - 1, k);
    } else {
      FirstPosition(cs[0].aliases, m, k);
    }
  }

  lemma {:induction false} FirstPosition(keys: seq<string>, key: string, k: nat)
    requires k < |keys| && keys[k] == key && forall j :: 0 <= j < k ==> keys[j] != key
    ensures Position(keys, key) == k
  {
    if k > 0 { FirstPosition(keys[1..], key, k - 1); }
  }

  lemma {:induction false} NoAlias(cs: seq<Cached>, m: string)
    requires AllMatched(cs) && forall j :: 0 <= j < |cs| ==> m !in cs[j].aliases
    ensures AliasIn(cs, m) == None
  {
    if cs != [] { NoAlias(cs[1..], m); }
  }

  /** The parents are those beside the type, of every file. */
  lemma {:induction false} ParentsMeaning(cs: seq<Cached>, n: nat, m: string, p: string)
    requires AllMatched(cs) && n <= |cs| && forall i :: 0 <= i < n ==> Unique(cs[i].types)
    ensures p in ParentsUpTo(cs, n, m) <==>
      exists i, k :: 0 <= i < n && 0 <= k < |cs[i].types| && cs[i].types[k] == m && k < |cs[i].parents| && p in cs[i].parents[k]
  {
    if n > 0 {
      ParentsMeaning(cs, n - 1, m, p);
      assert Matched(cs[n - 1]);
      var c := cs[n - 1];
      if m in c.types {
        var k := Position(c.types, m);
        assert forall j :: 0 <= j < |c.types| && c.types[j] == m ==> j == k;
      }
    }
  }

  /** The tables say what the files say. */
  ghost predicate Merged(cs: seq<Cached>, t: Tables)
    requires AllMatched(cs)
  {
    && (forall m {:trigger AliasIn(cs, m)} :: Unalias(t, m) == match AliasIn(cs, m) { case None => m case Some(x) => x })
    && (forall m {:trigger ParentsUpTo(cs, |cs|, m)} :: Parents(t, m) == ParentsUpTo(cs, |cs|, m))
  }

  lemma {:induction false} SortedOnce(keys: seq<string>, mid: nat, key: string)
    requires mid < |keys| && keys[mid] == key && forall i, j :: 0 <= i < j < |keys| ==> Less(keys[i], keys[j])
    ensures Position(keys, key) == mid
  {
    LessTotal(key, key);
    if mid > 0 {
      assert Less(keys[0], keys[mid]);
      SortedOnce(keys[1..], mid - 1, key);
    }
  }

  /** `_xdg_mime_cache_unalias_mime_type`. */
  method UnaliasIn(bufs: seq<seq<Byte>>, mime: string, ghost cs: seq<Cached>) returns (res: string)
    requires AllHold(bufs, cs) && AllMatched(cs)
    ensures res == match AliasIn(cs, mime) { case None => mime case Some(x) => x }
  {
    assert cs[0..] == cs;
    for i := 0 to |bufs|
      invariant AliasIn(cs, mime) == AliasIn(cs[i..], mime)
    {
      assert cs[i..][0] == cs[i] && cs[i..][1..] == cs[i + 1..] && Holds(bufs[i], cs[i]);
      var list := U32(bufs[i], 4);
      var found, mid := Bisect(bufs[i], list, mime, cs[i].aliases);
      if found {
        SortedOnce(cs[i].aliases, mid, mime);
        assert StringAt(bufs[i], DataAt(bufs[i], list, mid)) == cs[i].names[mid];
        return StringAt(bufs[i], DataAt(bufs[i], list, mid));
      }
    }
    res := mime;
  }

  /** Where a file lists the parents of a type. */
  method FindParents(buf: seq<Byte>, mime: string, ghost c: Cached) returns (found: bool, offset: nat)
    requires Holds(buf, c)
    ensures if found then ListedAt(buf, offset, ParentsOf(c, mime)) else ParentsOf(c, mime) == []
  {
    var list, med := U32(buf, 8), 0;
    found, med := Bisect(buf, list, mime, c.types);
    offset := 0;
    if found {
      SortedOnce(c.types, med, mime);
      assert ListedAt(buf, DataAt(buf, list, med), c.parents[med]);
      offset := DataAt(buf, list, med);
    }
  }

  /** The parents that one file lists for a type. */
  method AnyParentIn(bufs: seq<seq<Byte>>, i: nat, umime: string, ubase: string,
                     ghost cs: seq<Cached>, ghost t: Tables, ghost rank: string -> nat, ghost ps: seq<string>)
    returns (res: bool)
    requires AllHold(bufs, cs) && AllMatched(cs) && Merged(cs, t) && Acyclic(t, rank) && i < |bufs|
    requires ps == ParentsOf(cs[i], umime) && forall p :: p in ps ==> rank(Unalias(t, p)) < rank(umime)
    ensures res <==> AnySubclass(t, ps, ubase, rank)
    decreases rank(umime), 0
  {
    hide Subclass, Keyed;
    assert Holds(bufs[i], cs[i]);
    var found, offset := FindParents(bufs[i], umime, cs[i]);
    res := false;
    if found {
      for j := 0 to U32(bufs[i], offset)
        invariant !AnySubclass(t, ps[..j], ubase, rank)
      {
        var parent := StringAt(bufs[i], U32(bufs[i], offset + 4 + 4 * j));
        assert parent == ps[j] && ps[j] in ps;
        res := SubclassOfCaches(bufs, parent, ubase, cs, t, rank);
        if res { return; }
        assert ps[..j + 1] == ps[..j] + [ps[j]];
        AnyConcat(t, ps[..j], [ps[j]], ubase, rank);
      }
      assert ps[..|ps|] == ps;
      res := false;
    }
  }

  lemma {:induction false} PartOfParents(cs: seq<Cached>, n: nat, i: nat, m: string)
    requires AllMatched(cs) && i < n <= |cs|
    ensures forall p :: p in ParentsOf(cs[i], m) ==> p in ParentsUpTo(cs, n, m)
  {
    if i < n - 1 { PartOfParents(cs, n - 1, i, m); }
  }

  /** `_xdg_mime_cache_mime_type_subclass`: the same answer as over the lists. */
  method SubclassOfCaches(bufs: seq<seq<Byte>>, mime: string, base: string,
                          ghost cs: seq<Cached>, ghost t: Tables, ghost rank: string -> nat)
    returns (res: bool)
    requires AllHold(bufs, cs) && AllMatched(cs) && Merged(cs, t) && Acyclic(t, rank)
    ensures res <==> Subclass(t, mime, base, rank)
    decreases rank(Unalias(t, mime)), 1
  {
    var umime := UnaliasIn(bufs, mime, cs);
    var ubase := UnaliasIn(bufs, base, cs);
    AnyOfParents(t, mime, base, rank);
    if Accepts(umime, ubase) { return true; }
    for i := 0 to |bufs|
      invariant !AnySubclass(t, ParentsUpTo(cs, i, umime), ubase, rank)
    {
      PartOfParents(cs, |cs|, i, umime);
      SmallerRanks(t, umime, rank);
      res := AnyParentIn(bufs, i, umime, ubase, cs, t, rank, ParentsOf(cs[i], umime));
      AnyConcat(t, ParentsUpTo(cs, i, umime), ParentsOf(cs[i], umime), ubase, rank);
      if res {
        AnyUpTo(cs, i + 1, |cs|, t, umime, ubase, rank);
        return;
      }
    }
    res := false;
  }

  lemma SmallerRanks(t: Tables, m: string, rank: string -> nat)
    requires Acyclic(t, rank)
    ensures forall p :: p in Parents(t, m) ==> rank(Unalias(t, p)) < rank(m)
  {
    forall p | p in Parents(t, m) ensures rank(Unalias(t, p)) < rank(m) {
      var i :| 0 <= i < |Parents(t, m)| && Parents(t, m)[i] == p;
    }
  }

  lemma {:induction false} AnyUpTo(cs: seq<Cached>, i: nat, n: nat, t: Tables, m: string, base: string, rank: string -> nat)
    requires AllMatched(cs) && i <= n <= |cs| && Acyclic(t, rank) && AnySubclass(t, ParentsUpTo(cs, i, m), base, rank)
    ensures AnySubclass(t, ParentsUpTo(cs, n, m), base, rank)
  {
    hide Subclass;
    if i < n {
      AnyUpTo(cs, i, n - 1, t, m, base, rank);
      AnyConcat(t, ParentsUpTo(cs, n - 1, m), ParentsOf(cs[n - 1], m), base, rank);
    }
  }
}
