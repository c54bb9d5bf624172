/** What a table loaded from a list of globs answers, told from the globs and the name alone. */
module GlobAnswers {
  import opened GlobTrie
  import opened GlobLookup
  import opened GlobHeap
  import opened GlobHash

  ghost predicate EndsIn(name: string, tail: string) {
    |tail| <= |name| && name[|name| - |tail|..] == tail
  }

  /** Two texts read from their ends: one begins with the other exactly when it ends in it. */
  lemma FromEndPrefix(tail: string, name: string)
    ensures FromEnd(tail, |tail|) <= FromEnd(name, |name|) <==> EndsIn(name, tail)
  {
    hide FromEnd;
    var s, t := FromEnd(tail, |tail|), FromEnd(name, |name|);
    var n, m := |name|, |tail|;
    if m <= n {
      var end := name[n - m..];
      if s <= t {
        forall k | 0 <= k < m ensures end[k] == tail[k] {
          assert s[m - 1 - k] == t[m - 1 - k];
        }
      }
      if end == tail {
        forall i | 0 <= i < m ensures s[i] == t[i] {
          assert end[m - 1 - i] == tail[m - 1 - i];
        }
      }
    }
  }

  /** The stored suffix begins the name read from its end exactly when the name ends in what follows the star. */
  lemma SuffixEnds(glob: string, name: string)
    requires glob != []
    ensures SuffixOf(glob) <= FromEnd(name, |name|) <==> EndsIn(name, glob[1..])
  {
    FromEndPrefix(glob[1..], name);
  }

  ghost predicate AllUsable(entries: seq<Entry>) {
    forall i :: 0 <= i < |entries| ==> Usable(entries[i].glob)
  }

  /** An entry of the kind that no earlier one has with the same type. */
  ghost predicate Stands(entries: seq<Entry>, kind: string -> bool, i: nat) {
    && i < |entries| && kind(entries[i].glob)
    && forall j: nat :: j < i && entries[j].glob == entries[i].glob ==> entries[j].type_.mime != entries[i].type_.mime
  }

  lemma StandsSnoc(was: seq<Entry>, e: Entry, kind: string -> bool)
    ensures forall i: nat :: i < |was| ==> (Stands(was + [e], kind, i) <==> Stands(was, kind, i))
    ensures Stands(was + [e], kind, |was|) <==>
      kind(e.glob) && forall j: nat :: j < |was| && was[j].glob == e.glob ==> was[j].type_.mime != e.type_.mime
  {
    var all := was + [e];
    assert forall j: nat :: j < |was| ==> all[j] == was[j];
    forall i: nat | i < |was| ensures Stands(all, kind, i) <==> Stands(was, kind, i) {
      if Stands(all, kind, i) {
        forall j: nat | j < i && was[j].glob == was[i].glob ensures was[j].type_.mime != was[i].type_.mime {
          assert all[j].glob == all[i].glob;
        }
      }
    }
    if Stands(all, kind, |was|) {
      forall j: nat | j < |was| && was[j].glob == e.glob ensures was[j].type_.mime != e.type_.mime {
        assert all[j].glob == all[|was|].glob;
      }
    }
  }

  // ----- suffixes -----

  /** The simple globs are told apart by their suffixes. */
  lemma SuffixTells(a: string, b: string)
    requires IsSimple(a) && IsSimple(b)
    ensures SuffixOf(a) == SuffixOf(b) <==> a == b
  {
    if SuffixOf(a) == SuffixOf(b) {
      forall k | 1 <= k < |a| ensures a[k] == b[k] {
        assert SuffixOf(a)[|a| - 1 - k] == a[1..][k - 1];
        assert SuffixOf(b)[|b| - 1 - k] == b[1..][k - 1];
      }
    }
  }

  ghost predicate Tells(entries: seq<Entry>, suffix: string, mime: string) {
    exists i: nat :: i < |entries| && IsSimple(entries[i].glob) && SuffixOf(entries[i].glob) == suffix && entries[i].type_.mime == mime
  }

  ghost predicate Named(regs: seq<Registration>, suffix: string, mime: string) {
    exists i: nat :: i < |regs| && regs[i].suffix == suffix && regs[i].glob.mime == mime
  }

  lemma {:induction false} NamedTells(entries: seq<Entry>, suffix: string, mime: string)
    requires AllUsable(entries)
    ensures Named(Registrations(entries), suffix, mime) <==> Tells(entries, suffix, mime)
  {
    if entries != [] {
      var n := |entries| - 1;
      var was, e := entries[..n], entries[n];
      NamedTells(was, suffix, mime);
      var regs, all := Registrations(was), Registrations(entries);
      if Tells(was, suffix, mime) {
        var i: nat :| i < |was| && IsSimple(was[i].glob) && SuffixOf(was[i].glob) == suffix && was[i].type_.mime == mime;
        assert entries[i] == was[i];
        var k: nat :| k < |regs| && regs[k].suffix == suffix && regs[k].glob.mime == mime;
        assert all[k] == regs[k];
      }
      if Tells(entries, suffix, mime) {
        var i: nat :| i < |entries| && IsSimple(entries[i].glob) && SuffixOf(entries[i].glob) == suffix && entries[i].type_.mime == mime;
        if i < n {
          assert was[i] == entries[i];
        } else {
          assert all[|regs|] == Registration(SuffixOf(e.glob), e.type_);
        }
      }
      if Named(all, suffix, mime) {
        var k: nat :| k < |all| && all[k].suffix == suffix && all[k].glob.mime == mime;
        if k < |regs| { assert regs[k] == all[k]; } else { assert entries[n] == e; }
      }
    }
  }

  /** The entry stands for the suffix with this type. */
  ghost predicate Entered(entries: seq<Entry>, suffix: string, g: Glob) {
    exists i: nat :: Stands(entries, IsSimple, i) && SuffixOf(entries[i].glob) == suffix && entries[i].type_ == g
  }

  /** The first registrations of a suffix are the standing globs with it. */
  lemma {:induction false} RegistersEntry(entries: seq<Entry>, suffix: string, g: Glob)
    requires AllUsable(entries)
    ensures Registers(Registrations(entries), suffix, g) <==> Entered(entries, suffix, g)
  {
    if entries != [] {
      var n := |entries| - 1;
      var was, e := entries[..n], entries[n];
      assert entries == was + [e];
      RegistersEntry(was, suffix, g);
      StandsSnoc(was, e, IsSimple);
      EnteredSnoc(was, e, suffix, g);
      var regs := Registrations(was);
      if IsSimple(e.glob) {
        var r := Registration(SuffixOf(e.glob), e.type_);
        FirstSnoc(regs, r, suffix, g);
        FirstIffNew(was, e);
      } else {
        assert regs + [] == regs;
      }
    }
  }

  lemma EnteredSnoc(was: seq<Entry>, e: Entry, suffix: string, g: Glob)
    ensures Entered(was + [e], suffix, g) <==>
      Entered(was, suffix, g) || (Stands(was + [e], IsSimple, |was|) && SuffixOf(e.glob) == suffix && e.type_ == g)
  {
    var all := was + [e];
    StandsSnoc(was, e, IsSimple);
    if Entered(was, suffix, g) {
      var i: nat :| Stands(was, IsSimple, i) && SuffixOf(was[i].glob) == suffix && was[i].type_ == g;
      assert Stands(all, IsSimple, i) && all[i] == was[i];
    }
    if Entered(all, suffix, g) {
      var i: nat :| Stands(all, IsSimple, i) && SuffixOf(all[i].glob) == suffix && all[i].type_ == g;
      assert i < |was| ==> Stands(was, IsSimple, i) && all[i] == was[i];
    }
  }

  lemma FirstIffNew(was: seq<Entry>, e: Entry)
    requires AllUsable(was) && Usable(e.glob) && IsSimple(e.glob)
    ensures First(Registrations(was) + [Registration(SuffixOf(e.glob), e.type_)], |Registrations(was)|) <==> Stands(was + [e], IsSimple, |was|)
  {
    var regs, r := Registrations(was), Registration(SuffixOf(e.glob), e.type_);
    var all := regs + [r];
    NamedTells(was, r.suffix, e.type_.mime);
    StandsSnoc(was, e, IsSimple);
    assert forall k: nat :: k < |regs| ==> all[k] == regs[k];
    assert First(all, |regs|) <==> !Named(regs, r.suffix, e.type_.mime) by {
      if !First(all, |regs|) {
        var k: nat :| k < |regs| && all[k].suffix == r.suffix && all[k].glob.mime == r.glob.mime;
        assert regs[k] == all[k];
      }
    }
    forall j: nat | j < |was| && IsSimple(was[j].glob) ensures SuffixOf(was[j].glob) == r.suffix <==> was[j].glob == e.glob {
      SuffixTells(was[j].glob, e.glob);
    }
  }

  // ----- the globs that a name ends in -----

  /** A standing glob whose text after the star ends the name, and which the pass accepts. */
  ghost predicate Offers(entries: seq<Entry>, i: nat, name: string, check: bool) {
    Stands(entries, IsSimple, i) && EndsIn(name, entries[i].glob[1..]) && (check || !entries[i].type_.caseSensitive)
  }

  ghost predicate Offered(entries: seq<Entry>, name: string, check: bool) {
    exists i: nat :: Offers(entries, i, name, check)
  }

  /** One of the longest of them. */
  ghost predicate Decides(entries: seq<Entry>, i: nat, name: string, check: bool) {
    Offers(entries, i, name, check) && forall j: nat :: Offers(entries, j, name, check) ==> |entries[j].glob| <= |entries[i].glob|
  }

  /** An offer is an accepted registration of a suffix that begins the name read from its end. */
  lemma OfferRegisters(entries: seq<Entry>, i: nat, name: string, check: bool)
    requires AllUsable(entries) && Offers(entries, i, name, check)
    ensures var (t, l) := (FromEnd(name, |name|), |entries[i].glob| - 1);
      1 <= l <= |t| && Registers(Registrations(entries), t[..l], entries[i].type_) && Accepts(entries[i].type_, check)
  {
    SuffixEnds(entries[i].glob, name);
    var t, l := FromEnd(name, |name|), |entries[i].glob| - 1;
    assert SuffixOf(entries[i].glob) == t[..l];
    assert Entered(entries, t[..l], entries[i].type_);
    RegistersEntry(entries, t[..l], entries[i].type_);
  }

  lemma RegisteredOffer(entries: seq<Entry>, name: string, check: bool, l: nat, g: Glob) returns (i: nat)
    requires AllUsable(entries) && l <= |name| && Registers(Registrations(entries), FromEnd(name, |name|)[..l], g) && Accepts(g, check)
    ensures Offers(entries, i, name, check) && entries[i].type_ == g && |entries[i].glob| == l + 1
  {
    var t := FromEnd(name, |name|);
    RegistersEntry(entries, t[..l], g);
    i :| Stands(entries, IsSimple, i) && SuffixOf(entries[i].glob) == t[..l] && entries[i].type_ == g;
    SuffixEnds(entries[i].glob, name);
  }

  /** The lookup in the loaded trie finds the types of the longest globs that the name ends in. */
  lemma LoadedLookup(entries: seq<Entry>, name: string, check: bool, g: Glob)
    requires AllUsable(entries) && Plain(name)
    ensures g in Lookup(Build(Registrations(entries)), FromEnd(name, |name|), check)
       <==> exists i: nat :: Decides(entries, i, name, check) && entries[i].type_ == g
  {
    var regs, t := Registrations(entries), FromEnd(name, |name|);
    assert Plain(t);
    RunLookup(regs, t, check, g);
    if g in Lookup(Build(regs), t, check) {
      var l :| 1 <= l <= |t| && Wins(regs, t, check, l) && Registers(regs, t[..l], g);
      var i := RegisteredOffer(entries, name, check, l, g);
      forall j: nat | Offers(entries, j, name, check) ensures |entries[j].glob| <= |entries[i].glob| {
        OfferRegisters(entries, j, name, check);
      }
      assert Decides(entries, i, name, check) && entries[i].type_ == g;
    }
    if i: nat :| Decides(entries, i, name, check) && entries[i].type_ == g {
      OfferRegisters(entries, i, name, check);
      var l := |entries[i].glob| - 1;
      forall m, h | l < m <= |t| && Registers(regs, t[..m], h) ensures !Accepts(h, check) {
        if Accepts(h, check) {
          var j := RegisteredOffer(entries, name, check, m, h);
        }
      }
      assert Wins(regs, t, check, l);
    }
  }

  // ----- the answer -----

  /** A capped answer names only types of the candidates, and all of them if it stays below the caps. */
  lemma CappedTypes(gs: seq<Glob>, most: nat, cap: nat, types: seq<string>, mime: string)
    requires types == Capped(Mimes(ByWeight(Weighted(Capped(gs, most)))), cap)
    ensures mime in types ==> Among(gs, mime)
    ensures |types| < cap && |types| < most && Among(gs, mime) ==> mime in types
  {
    var some := Capped(gs, most);
    AnswerTypes(some, mime);
    if mime in types {
      var i :| 0 <= i < |types| && types[i] == mime;
      assert Mimes(ByWeight(Weighted(some)))[i] == mime;
      var g :| g in some && g.mime == mime;
    }
  }

  ghost predicate Decided(entries: seq<Entry>, name: string, check: bool, mime: string) {
    exists i: nat :: Decides(entries, i, name, check) && entries[i].type_.mime == mime
  }

  lemma DecidedTypes(entries: seq<Entry>, name: string, check: bool, mime: string)
    requires AllUsable(entries) && Plain(name)
    ensures Among(Lookup(Build(Registrations(entries)), FromEnd(name, |name|), check), mime) <==> Decided(entries, name, check, mime)
  {
    var gs := Lookup(Build(Registrations(entries)), FromEnd(name, |name|), check);
    if Among(gs, mime) {
      var g: Glob :| g in gs && g.mime == mime;
      LoadedLookup(entries, name, check, g);
    }
    if Decided(entries, name, check, mime) {
      var i: nat :| Decides(entries, i, name, check) && entries[i].type_.mime == mime;
      LoadedLookup(entries, name, check, entries[i].type_);
    }
  }

  /** Among the globs that the name ends in there is a longest one. */
  lemma {:induction false} LongestOffer(entries: seq<Entry>, i: nat, name: string, check: bool)
    requires Offers(entries, i, name, check)
    ensures exists k: nat :: Decides(entries, k, name, check)
    decreases |name| - |entries[i].glob|
  {
    if !Decides(entries, i, name, check) {
      var j: nat :| Offers(entries, j, name, check) && |entries[j].glob| > |entries[i].glob|;
      LongestOffer(entries, j, name, check);
    }
  }

  /** The trie answers exactly when some glob is offered. */
  lemma OfferedIff(entries: seq<Entry>, name: string, check: bool)
    requires AllUsable(entries) && Plain(name)
    ensures Lookup(Build(Registrations(entries)), FromEnd(name, |name|), check) != [] <==> Offered(entries, name, check)
  {
    var gs := Lookup(Build(Registrations(entries)), FromEnd(name, |name|), check);
    if gs != [] {
      LoadedLookup(entries, name, check, gs[0]);
    }
    if Offered(entries, name, check) {
      var i: nat :| Offers(entries, i, name, check);
      LongestOffer(entries, i, name, check);
      var k: nat :| Decides(entries, k, name, check);
      LoadedLookup(entries, name, check, entries[k].type_);
    }
  }

  ghost predicate Fitting(entries: seq<Entry>, name: string, fnmatch: (string, string) -> bool, mime: string) {
    exists i: nat :: i < |entries| && IsFull(entries[i].glob) && fnmatch(entries[i].glob, name) && entries[i].type_.mime == mime
  }

  lemma {:induction false} MatchingIs(list: seq<Pattern>, name: string, fnmatch: (string, string) -> bool, g: Glob)
    ensures g in Matching(list, name, fnmatch) <==> exists i :: 0 <= i < |list| && fnmatch(list[i].data, name) && list[i].glob == g
  {
    if list != [] {
      var n := |list| - 1;
      MatchingIs(list[..n], name, fnmatch, g);
      if i :| 0 <= i < |list| && fnmatch(list[i].data, name) && list[i].glob == g { assert i < n ==> list[..n][i] == list[i]; }
      if i :| 0 <= i < n && fnmatch(list[..n][i].data, name) && list[..n][i].glob == g { assert list[i] == list[..n][i]; }
    }
  }

  lemma FittingTypes(entries: seq<Entry>, name: string, fnmatch: (string, string) -> bool, mime: string)
    ensures Among(Matching(ListOf(entries, IsFull), name, fnmatch), mime) <==> Fitting(entries, name, fnmatch, mime)
  {
    var list := ListOf(entries, IsFull);
    var gs := Matching(list, name, fnmatch);
    if Among(gs, mime) {
      var g: Glob :| g in gs && g.mime == mime;
      MatchingIs(list, name, fnmatch, g);
      var k :| 0 <= k < |list| && fnmatch(list[k].data, name) && list[k].glob == g;
      ListMeaning(entries, IsFull, list[k].data, mime);
      assert SamePattern(list, list[k].data, mime);
    }
    if Fitting(entries, name, fnmatch, mime) {
      var i: nat :| i < |entries| && IsFull(entries[i].glob) && fnmatch(entries[i].glob, name) && entries[i].type_.mime == mime;
      ListMeaning(entries, IsFull, entries[i].glob, mime);
      var k :| 0 <= k < |list| && list[k].data == entries[i].glob && list[k].glob.mime == mime;
      MatchingIs(list, name, fnmatch, list[k].glob);
    }
  }

  /** The types that a loaded table may answer for a name that is no literal of it: those of the longest globs that
      the lower-case name ends in, case-sensitive globs left out; if there are none, those of the longest globs that
      the name itself ends in; if there are none either, those of the patterns that match. */
  ghost predicate Wanted(entries: seq<Entry>, name: string, fnmatch: (string, string) -> bool, mime: string) {
    if Offered(entries, LowerCase(name), false) then Decided(entries, LowerCase(name), false, mime)
    else if Offered(entries, name, true) then Decided(entries, name, true, mime)
    else Fitting(entries, name, fnmatch, mime)
  }

  /** Every type answered is one of these, and all of them are answered if the answer stays below the caps. */
  lemma LoadedAnswer(entries: seq<Entry>, ts: seq<Trie>, full: seq<Pattern>, name: string, fnmatch: (string, string) -> bool,
                     cap: nat, types: seq<string>, mime: string)
    requires AllUsable(entries) && Plain(name) && ts == Build(Registrations(entries)) && full == ListOf(entries, IsFull)
    requires types == Capped(Mimes(ByWeight(Weighted(Candidates(ts, full, name, fnmatch, cap)))), cap)
    ensures mime in types ==> Wanted(entries, name, fnmatch, mime)
    ensures |types| < cap && |types| < 10 && Wanted(entries, name, fnmatch, mime) ==> mime in types
  {
    hide LowerCase, FromEnd, Lookup, Build, Registrations, ListOf, Matching, Offered, Decided, Fitting, Among, ByWeight;
    var lower := LowerCase(name);
    assert Plain(lower);
    OfferedIff(entries, lower, false);
    OfferedIff(entries, name, true);
    DecidedTypes(entries, lower, false, mime);
    DecidedTypes(entries, name, true, mime);
    FittingTypes(entries, name, fnmatch, mime);
    if Offered(entries, lower, false) {
      CappedTypes(Lookup(ts, FromEnd(lower, |name|), false), 10, cap, types, mime);
    } else if Offered(entries, name, true) {
      CappedTypes(Lookup(ts, FromEnd(name, |name|), true), 10, cap, types, mime);
    } else {
      CappedTypes(Matching(full, name, fnmatch), cap, cap, types, mime);
    }
  }

  // ----- literals -----

  /** The list holds the standing entries in their order. */
  lemma {:induction false} ListPlaces(entries: seq<Entry>, kind: string -> bool, k: nat) returns (i: nat)
    requires k < |ListOf(entries, kind)|
    ensures Stands(entries, kind, i) && ListOf(entries, kind)[k] == Pattern(entries[i].glob, entries[i].type_)
    ensures forall j: nat :: j < i && Stands(entries, kind, j) ==>
      Pattern(entries[j].glob, entries[j].type_) in ListOf(entries, kind)[..k]
  {
    var n := |entries| - 1;
    var was, e := entries[..n], entries[n];
    assert entries == was + [e];
    StandsSnoc(was, e, kind);
    var list, all := ListOf(was, kind), ListOf(entries, kind);
    if k < |list| {
      i := ListPlaces(was, kind, k);
      assert all[..k] == list[..k];
    } else {
      i := n;
      ListMeaning(was, kind, e.glob, e.type_.mime);
      assert all == list + [Pattern(e.glob, e.type_)];
      assert all[..k] == list;
      forall j: nat | j < n && Stands(entries, kind, j) ensures Pattern(entries[j].glob, entries[j].type_) in list {
        StandingListed(was, kind, j);
      }
    }
  }

  lemma {:induction false} StandingListed(entries: seq<Entry>, kind: string -> bool, j: nat)
    requires Stands(entries, kind, j)
    ensures Pattern(entries[j].glob, entries[j].type_) in ListOf(entries, kind)
  {
    var n := |entries| - 1;
    var was, e := entries[..n], entries[n];
    assert entries == was + [e];
    StandsSnoc(was, e, kind);
    var list, all := ListOf(was, kind), ListOf(entries, kind);
    if j < n {
      StandingListed(was, kind, j);
      var k :| 0 <= k < |list| && list[k] == Pattern(was[j].glob, was[j].type_);
      assert all[k] == list[k];
    } else {
      ListMeaning(was, kind, e.glob, e.type_.mime);
      assert all[|list|] == Pattern(e.glob, e.type_);
    }
  }

  /** The first entry with this glob and type stands. */
  lemma {:induction false} Earliest(entries: seq<Entry>, kind: string -> bool, j: nat) returns (i: nat)
    requires j < |entries| && kind(entries[j].glob)
    ensures i <= j && Stands(entries, kind, i) && entries[i].glob == entries[j].glob && entries[i].type_.mime == entries[j].type_.mime
    decreases j
  {
    i := j;
    if !Stands(entries, kind, j) {
      var k: nat :| k < j && entries[k].glob == entries[j].glob && entries[k].type_.mime == entries[j].type_.mime;
      i := Earliest(entries, kind, k);
    }
  }

  /** A name is in the list of literals exactly when it is the glob of an entry, and has no special character. */
  lemma LoadedLiterals(entries: seq<Entry>, name: string)
    ensures HasLiteral(ListOf(entries, IsLiteral), name, LowerCase(name), true)
      <==> IsLiteral(name) && exists i: nat :: i < |entries| && entries[i].glob == name
  {
    var list := ListOf(entries, IsLiteral);
    if HasLiteral(list, name, LowerCase(name), true) {
      var k :| 0 <= k < |list| && Literally(list[k], name, LowerCase(name), true);
      var i := ListPlaces(entries, IsLiteral, k);
    }
    if IsLiteral(name) {
      if i: nat :| i < |entries| && entries[i].glob == name {
        ListMeaning(entries, IsLiteral, name, entries[i].type_.mime);
        var k :| 0 <= k < |list| && list[k].data == name && list[k].glob.mime == entries[i].type_.mime;
        assert Literally(list[k], name, LowerCase(name), true);
      }
    }
  }

  /** Its type is that of the first entry with it. */
  lemma LoadedLiteral(entries: seq<Entry>, name: string, mime: string)
    requires FirstLiteral(ListOf(entries, IsLiteral), name, LowerCase(name), true, mime)
    ensures exists i: nat :: i < |entries| && entries[i].glob == name && entries[i].type_.mime == mime
                             && forall j: nat :: j < i ==> entries[j].glob != name
  {
    hide ListOf, LowerCase;
    var list := ListOf(entries, IsLiteral);
    var k: nat :| k < |list| && Literally(list[k], name, LowerCase(name), true) && mime == list[k].glob.mime
              && forall j :: 0 <= j < k ==> !Literally(list[j], name, LowerCase(name), true);
    var i := ListPlaces(entries, IsLiteral, k);
    forall j: nat | j < i && Stands(entries, IsLiteral, j) ensures entries[j].glob != name {
      var q :| 0 <= q < k && list[..k][q] == Pattern(entries[j].glob, entries[j].type_);
      assert list[q] == list[..k][q];
    }
    forall j: nat | j < i && IsLiteral(entries[j].glob) ensures entries[j].glob != name {
      var e := Earliest(entries, IsLiteral, j);
    }
  }

  /** Without one, the name in lower case gets the type of the first standing entry that is equal to it and not case-sensitive. */
  lemma LoadedLowerLiteral(entries: seq<Entry>, name: string, mime: string)
    requires FirstLiteral(ListOf(entries, IsLiteral), name, LowerCase(name), false, mime)
    ensures exists i: nat ::
      && Stands(entries, IsLiteral, i) && entries[i].glob == LowerCase(name) && !entries[i].type_.caseSensitive && entries[i].type_.mime == mime
      && forall j: nat :: j < i && Stands(entries, IsLiteral, j) && entries[j].glob == LowerCase(name) ==> entries[j].type_.caseSensitive
  {
    hide ListOf, LowerCase;
    var list := ListOf(entries, IsLiteral);
    var k: nat :| k < |list| && Literally(list[k], name, LowerCase(name), false) && mime == list[k].glob.mime
              && forall j :: 0 <= j < k ==> !Literally(list[j], name, LowerCase(name), false);
    var i := ListPlaces(entries, IsLiteral, k);
    forall j: nat | j < i && Stands(entries, IsLiteral, j) && entries[j].glob == LowerCase(name) ensures entries[j].type_.caseSensitive {
      var q :| 0 <= q < k && list[..k][q] == Pattern(entries[j].glob, entries[j].type_);
      assert list[q] == list[..k][q];
    }
  }

  // ----- kinds of globs and letters -----

  /** Lower case changes the letters from A to Z, by 32, and no other character. */
  lemma LowerCaseIs(s: string, i: nat)
    requires i < |s|
    ensures (LowerCase(s)[i] as int == s[i] as int + if 65 <= s[i] as int <= 90 then 32 else 0) && LowerCase(LowerCase(s)) == LowerCase(s)
  {
    hide LowerCase;
    var r := LowerCase(s);
    assert r[i] == Lower(s[i]);
    assert forall k :: 0 <= k < |r| ==> LowerCase(r)[k] == Lower(r[k]) && r[k] == Lower(s[k]);
  }

  lemma KindWitness()
    ensures IsLiteral("Makefile") && IsSimple("*.tar.gz") && IsSimple("*~") && IsLiteral("") && IsSimple("*")
    ensures IsFull("*.[ch]") && IsFull("a?") && IsFull("a*") && IsFull("**") && IsFull("a\\b") && IsFull("[a]")
  {
    assert "*.[ch]"[2] == '[' && "a?"[1] == '?' && "a*"[1] == '*' && "**"[1] == '*' && "a\\b"[1] == '\\' && "[a]"[0] == '[';
  }
}
