/** The glob tables of one directory: literals, suffixes and full patterns. */
module GlobHash {
  import opened CStrings
  import opened GlobTrie
  import opened GlobLookup
  import opened GlobHeap

  datatype Kind = Literal | Simple | Full

  /** An element of the literal or the full list. */
  datatype Pattern = Pattern(data: string, glob: Glob)

  predicate Special(c: char) {
    c == '\\' || c == '[' || c == '?' || c == '*'
  }

  /** `_xdg_glob_determine_type`. */
  method DetermineType(glob: string) returns (kind: Kind)
    ensures kind.Simple? <==> glob != [] && glob[0] == '*' && forall i :: 1 <= i < |glob| ==> !Special(glob[i])
    ensures kind.Literal? <==> forall i :: 0 <= i < |glob| ==> !Special(glob[i])
  {
    var maybeSimple, i := false, 0;
    while i < |glob|
      invariant 0 <= i <= |glob|
      invariant forall j :: 0 <= j < i ==> !Special(glob[j]) || (j == 0 && glob[0] == '*')
      invariant maybeSimple <==> i > 0 && glob[0] == '*'
    {
      if glob[i] == '*' && i == 0 {
        maybeSimple := true;
      } else if Special(glob[i]) {
        return Full;
      }
      i := i + 1;
    }
    kind := if maybeSimple then Simple else Literal;
  }

  /** `_xdg_glob_list_append`: the first entry of a pattern and a type stays. */
  function Appended(list: seq<Pattern>, p: Pattern): (r: seq<Pattern>)
    ensures r == list || r == list + [p]
    ensures r == list <==> exists i :: 0 <= i < |list| && list[i].data == p.data && list[i].glob.mime == p.glob.mime
  {
    if exists i :: 0 <= i < |list| && list[i].data == p.data && list[i].glob.mime == p.glob.mime then list
    else list + [p]
  }

  function Lower(c: char): char {
    if 'A' <= c <= 'Z' then c - 'A' + 'a' else c
  }

  function LowerCase(s: string): (r: string)
    ensures |r| == |s| && forall i :: 0 <= i < |s| ==> r[i] == Lower(s[i])
  {
    if s == [] then [] else [Lower(s[0])] + LowerCase(s[1..])
  }

  // ----- the order of the answer -----

  ghost predicate Descending(ws: seq<MimeWeight>) {
    ws == [] || ((forall w :: w in ws[1..] ==> w.weight <= ws[0].weight) && Descending(ws[1..]))
  }

  function Placed(ws: seq<MimeWeight>, w: MimeWeight): seq<MimeWeight> {
    if ws == [] || ws[0].weight <= w.weight then [w] + ws else [ws[0]] + Placed(ws[1..], w)
  }

  /** A descending order of the weights, as `qsort` leaves one. */
  function ByWeight(ws: seq<MimeWeight>): seq<MimeWeight> {
    if ws == [] then [] else Placed(ByWeight(ws[1..]), ws[0])
  }

  lemma {:induction false} PlacedMeaning(ws: seq<MimeWeight>, w: MimeWeight)
    requires Descending(ws)
    ensures Descending(Placed(ws, w)) && multiset(Placed(ws, w)) == multiset(ws) + multiset{w}
    ensures forall x :: x in Placed(ws, w) <==> x in ws || x == w
  {
    if ws != [] {
      assert ws == [ws[0]] + ws[1..];
      if ws[0].weight > w.weight {
        PlacedMeaning(ws[1..], w);
        assert Placed(ws, w)[1..] == Placed(ws[1..], w);
      } else {
        assert Placed(ws, w)[1..] == ws;
      }
    }
  }

  lemma {:induction false} ByWeightMeaning(ws: seq<MimeWeight>)
    ensures Descending(ByWeight(ws)) && multiset(ByWeight(ws)) == multiset(ws)
    ensures forall x :: x in ByWeight(ws) <==> x in ws
  {
    if ws != [] {
      ByWeightMeaning(ws[1..]);
      PlacedMeaning(ByWeight(ws[1..]), ws[0]);
      assert ws == [ws[0]] + ws[1..];
    }
  }

  // ----- the tables -----

  predicate Literally(p: Pattern, name: string, lower: string, exact: bool) {
    if exact then p.data == name else !p.glob.caseSensitive && p.data == lower
  }

  ghost predicate HasLiteral(list: seq<Pattern>, name: string, lower: string, exact: bool) {
    exists i :: 0 <= i < |list| && Literally(list[i], name, lower, exact)
  }

  /** The type of the first literal that matches. */
  ghost predicate FirstLiteral(list: seq<Pattern>, name: string, lower: string, exact: bool, mime: string) {
    exists i :: 0 <= i < |list| && Literally(list[i], name, lower, exact) && mime == list[i].glob.mime
                && forall j :: 0 <= j < i ==> !Literally(list[j], name, lower, exact)
  }

  method FindLiteral(list: seq<Pattern>, name: string, lower: string, exact: bool) returns (res: Option<string>)
    ensures res.Some? <==> HasLiteral(list, name, lower, exact)
    ensures res.Some? ==> FirstLiteral(list, name, lower, exact, res.value)
  {
    for i := 0 to |list|
      invariant forall j :: 0 <= j < i ==> !Literally(list[j], name, lower, exact)
    {
      if Literally(list[i], name, lower, exact) { return Some(list[i].glob.mime); }
    }
    res := None;
  }

  /** The patterns that match, in order. */
  function Matching(list: seq<Pattern>, name: string, fnmatch: (string, string) -> bool): seq<Glob> {
    if list == [] then []
    else
      var last := list[|list| - 1];
      Matching(list[..|list| - 1], name, fnmatch) + if fnmatch(last.data, name) then [last.glob] else []
  }

  method PutMatch(out: array<MimeWeight>, n: nat, g: Glob) returns (n': nat)
    requires n < out.Length
    modifies out
    ensures n' == n + 1 && out[..n'] == old(out[..n]) + [MimeWeight(g.mime, g.weight)]
  {
    out[n] := MimeWeight(g.mime, g.weight);
    n' := n + 1;
  }

  /** One more pattern, and how many there can be. */
  lemma MatchingStep(list: seq<Pattern>, i: nat, name: string, fnmatch: (string, string) -> bool, all: seq<Glob>, found: seq<Glob>)
    returns (more: seq<Glob>)
    requires i < |list| && all == Matching(list, name, fnmatch) && found == Matching(list[..i], name, fnmatch)
    ensures more == found + (if fnmatch(list[i].data, name) then [list[i].glob] else []) && |more| <= |all|
    ensures more == Matching(list[..i + 1], name, fnmatch)
    ensures Weighted(more) == Weighted(found) + if fnmatch(list[i].data, name) then [MimeWeight(list[i].glob.mime, list[i].glob.weight)] else []
  {
    assert list[..i + 1][..i] == list[..i];
    MatchingGrows(list, i + 1, name, fnmatch);
    more := found + if fnmatch(list[i].data, name) then [list[i].glob] else [];
  }

  method MatchFull(list: seq<Pattern>, name: string, fnmatch: (string, string) -> bool, out: array<MimeWeight>, cap: nat)
    returns (n: nat)
    requires cap <= out.Length || |Matching(list, name, fnmatch)| <= out.Length
    modifies out
    ensures n <= cap && n <= out.Length && out[..n] == Weighted(Capped(Matching(list, name, fnmatch), cap))
  {
    n := 0;
    var i := 0;
    ghost var all, found: seq<Glob> := Matching(list, name, fnmatch), [];
    assert list[..0] == [];
    while i < |list| && n < cap
      invariant 0 <= i <= |list| && |found| == n <= cap && n <= out.Length
      invariant found == Matching(list[..i], name, fnmatch) && out[..n] == Weighted(found)
    {
      found := MatchingStep(list, i, name, fnmatch, all, found);
      if fnmatch(list[i].data, name) {
        n := PutMatch(out, n, list[i].glob);
      }
      i := i + 1;
    }
    MatchedAll(list, i, name, fnmatch, cap, found);
  }

  lemma MatchedAll(list: seq<Pattern>, i: nat, name: string, fnmatch: (string, string) -> bool, cap: nat, found: seq<Glob>)
    requires i <= |list| && found == Matching(list[..i], name, fnmatch) && |found| <= cap && (i < |list| ==> |found| == cap)
    ensures found == Capped(Matching(list, name, fnmatch), cap)
  {
    assert list[..|list|] == list;
    MatchingGrows(list, i, name, fnmatch);
  }

  /** The matching patterns fit the buffer, or the loop stops before it is full. */
  predicate InBounds(list: seq<Pattern>, name: string, fnmatch: (string, string) -> bool, cap: nat) {
    cap <= 10 || |Matching(list, name, fnmatch)| <= 10
  }

  lemma {:induction false} MatchingGrows(list: seq<Pattern>, i: nat, name: string, fnmatch: (string, string) -> bool)
    requires i <= |list|
    ensures Matching(list[..i], name, fnmatch) <= Matching(list, name, fnmatch)
  {
    if i < |list| {
      assert list[..|list| - 1][..i] == list[..i];
      MatchingGrows(list[..|list| - 1], i, name, fnmatch);
    } else {
      assert list[..i] == list;
    }
  }

  /** At pattern `i` the pass writes the place `place` of the buffer. */
  predicate WritesPlace(list: seq<Pattern>, name: string, fnmatch: (string, string) -> bool, cap: nat, i: nat, place: nat) {
    i < |list| && fnmatch(list[i].data, name) && place == |Matching(list[..i], name, fnmatch)| < cap
  }

  /** The pass stays in its buffer exactly when the matches or the cap say so. */
  lemma InBoundsExact(list: seq<Pattern>, name: string, fnmatch: (string, string) -> bool, cap: nat)
    ensures InBounds(list, name, fnmatch, cap) <==> forall i: nat, place: nat :: WritesPlace(list, name, fnmatch, cap, i, place) ==> place < 10
  {
    if InBounds(list, name, fnmatch, cap) {
      forall i: nat, place: nat | WritesPlace(list, name, fnmatch, cap, i, place) ensures place < 10 {
        var more := MatchingStep(list, i, name, fnmatch, Matching(list, name, fnmatch), Matching(list[..i], name, fnmatch));
      }
    } else {
      var i := MatchAt(list, name, fnmatch, 10);
      assert WritesPlace(list, name, fnmatch, cap, i, 10);
    }
  }

  /** The pattern of the match with `n` matches before it. */
  lemma {:induction false} MatchAt(list: seq<Pattern>, name: string, fnmatch: (string, string) -> bool, n: nat) returns (i: nat)
    requires n < |Matching(list, name, fnmatch)|
    ensures i < |list| && fnmatch(list[i].data, name) && |Matching(list[..i], name, fnmatch)| == n
  {
    i := |list| - 1;
    if n < |Matching(list[..i], name, fnmatch)| {
      var rest := list[..i];
      i := MatchAt(rest, name, fnmatch, n);
      assert rest[..i] == list[..i];
    }
  }

  /** No literal and no suffix has a type for the name, so the patterns decide. */
  ghost predicate PatternsDecide(literals: seq<Pattern>, ts: seq<Trie>, name: string)
    requires name != []
  {
    && !HasLiteral(literals, name, LowerCase(name), true) && !HasLiteral(literals, name, LowerCase(name), false)
    && Lookup(ts, FromEnd(LowerCase(name), |name|), false) == [] && Lookup(ts, FromEnd(name, |name|), true) == []
  }

  /** The types of a name that no literal matches: suffixes in lower case, then
      suffixes as written, then full patterns. */
  function Candidates(ts: seq<Trie>, full: seq<Pattern>, name: string, fnmatch: (string, string) -> bool, cap: nat): seq<Glob>
    requires name != []
  {
    var lower := Lookup(ts, FromEnd(LowerCase(name), |name|), false);
    var exact := Lookup(ts, FromEnd(name, |name|), true);
    if lower != [] then Capped(lower, 10)
    else if exact != [] then Capped(exact, 10)
    else Capped(Matching(full, name, fnmatch), cap)
  }

  function Mimes(ws: seq<MimeWeight>): (r: seq<string>)
    ensures |r| == |ws| && forall i :: 0 <= i < |ws| ==> r[i] == ws[i].mime
  {
    if ws == [] then [] else [ws[0].mime] + Mimes(ws[1..])
  }

  predicate IsSimple(glob: string) {
    glob != [] && glob[0] == '*' && forall i :: 1 <= i < |glob| ==> !Special(glob[i])
  }

  predicate IsLiteral(glob: string) {
    forall i :: 0 <= i < |glob| ==> !Special(glob[i])
  }

  /** A glob without NULs that is not the bare star. */
  predicate Usable(glob: string) {
    glob != "*" && forall i :: 0 <= i < |glob| ==> glob[i] != NUL
  }

  /** The suffix of a simple glob, read from its end. */
  function SuffixOf(glob: string): (r: string)
    requires glob != []
    ensures Usable(glob) && IsSimple(glob) ==> Plain(r)
  {
    FromEnd(glob[1..], |glob| - 1)
  }

  class Hash {
    var literals: seq<Pattern>
    var simple: Option<GlobNode>
    var full: seq<Pattern>
    ghost var nodes: set<GlobNode>
    ghost var shape: seq<Shape>
    ghost var trie: seq<Trie>

    constructor ()
      ensures Valid() && trie == [] && literals == [] && full == [] && fresh(nodes)
    {
      literals, simple, full := [], None, [];
      nodes, shape, trie := {}, [], [];
    }

    /** The linked nodes store the trie. */
    ghost predicate Valid()
      reads this, nodes
    {
      nodes == Cover(shape) && Level(simple, shape, trie) && Apart(shape) && Formed(trie) && Owned(trie)
    }

    /** `_xdg_glob_hash_append_glob`. */
    method AppendGlob(glob: string, g: Glob)
      requires Valid() && Usable(glob)
      modifies this, nodes
      ensures Valid() && fresh(nodes - old(nodes))
      ensures trie == if IsSimple(glob) then Insert(old(trie), SuffixOf(glob), g) else old(trie)
      ensures literals == if IsLiteral(glob) then Appended(old(literals), Pattern(glob, g)) else old(literals)
      ensures full == if IsSimple(glob) || IsLiteral(glob) then old(full) else Appended(old(full), Pattern(glob, g))
    {
      var kind := DetermineType(glob);
      match kind
      case Literal =>
        literals := Appended(literals, Pattern(glob, g));
      case Simple =>
        InsertText(SuffixOf(glob), g);
      case Full =>
        full := Appended(full, Pattern(glob, g));
    }

    /** `_xdg_glob_hash_insert_text`, after the reversal. */
    method InsertText(suffix: string, g: Glob)
      requires Valid() && Plain(suffix)
      modifies this`simple, this`nodes, this`shape, this`trie, nodes
      ensures Valid() && fresh(nodes - old(nodes))
      ensures trie == Insert(old(trie), suffix, g)
    {
      InsertFormed(trie, suffix, g);
      var res;
      ghost var r;
      res, r := InsertUcs4(simple, suffix, g, shape, trie, nodes);
      Install(res, r, Insert(trie, suffix, g));
    }

    method Install(res: Option<GlobNode>, ghost r: seq<Shape>, ghost t: seq<Trie>)
      requires Level(res, r, t) && Apart(r) && Formed(t) && Owned(t)
      modifies this`simple, this`nodes, this`shape, this`trie
      ensures Valid() && simple == res && shape == r && trie == t && nodes == Cover(r)
    {
      simple, shape, trie, nodes := res, r, t, Cover(r);
    }

    /** `_xdg_glob_hash_lookup_file_name`. The pass over the patterns fills a buffer of ten. */
    method LookupName(name: string, fnmatch: (string, string) -> bool, cap: nat) returns (types: seq<string>)
      requires Valid() && name != [] && 0 < cap && (PatternsDecide(literals, trie, name) ==> InBounds(full, name, fnmatch, cap))
      ensures HasLiteral(literals, name, LowerCase(name), true) ==>
        |types| == 1 && FirstLiteral(literals, name, LowerCase(name), true, types[0])
      ensures !HasLiteral(literals, name, LowerCase(name), true) && HasLiteral(literals, name, LowerCase(name), false) ==>
        |types| == 1 && FirstLiteral(literals, name, LowerCase(name), false, types[0])
      ensures !HasLiteral(literals, name, LowerCase(name), true) && !HasLiteral(literals, name, LowerCase(name), false) ==>
        types == Capped(Mimes(ByWeight(Weighted(Candidates(trie, full, name, fnmatch, cap)))), cap)
    {
      var lower := LowerCase(name);
      var first := FindLiteral(literals, name, lower, true);
      if first.Some? { return [first.value]; }
      first := FindLiteral(literals, name, lower, false);
      if first.Some? { return [first.value]; }
      var found := new MimeWeight[10](i => MimeWeight("", 0));
      var n := FindTypes(name, lower, fnmatch, cap, found);
      types := Capped(Mimes(ByWeight(found[..n])), cap);
    }

    /** Suffixes in lower case, suffixes as written, then full patterns. */
    method FindTypes(name: string, lower: string, fnmatch: (string, string) -> bool, cap: nat, found: array<MimeWeight>) returns (n: nat)
      requires Valid() && name != [] && lower == LowerCase(name) && 0 < cap && found.Length == 10
      requires !HasLiteral(literals, name, lower, true) && !HasLiteral(literals, name, lower, false)
      requires PatternsDecide(literals, trie, name) ==> InBounds(full, name, fnmatch, cap)
      modifies found
      ensures n <= 10 && found[..n] == Weighted(Candidates(trie, full, name, fnmatch, cap))
    {
      n := LookupFileName(simple, lower, |lower|, false, found, 10, shape, trie);
      if n == 0 {
        n := LookupFileName(simple, name, |name|, true, found, 10, shape, trie);
        if n == 0 {
          n := MatchFull(full, name, fnmatch, found, cap);
        }
      }
    }
  }

  /** When no literal matches and the name has a suffix with a case-insensitive
      registration in lower case, or else one as written, the answer holds
      exactly the first registrations of the longest such suffix, best weight
      first, unless there are more of them than fit. */
  lemma AnswerMeaning(regs: seq<Registration>, ts: seq<Trie>, full: seq<Pattern>, name: string, fnmatch: (string, string) -> bool,
                      cap: nat, mime: string, answer: seq<MimeWeight>)
    requires AllPlain(regs) && Plain(name) && ts == Build(regs)
    requires answer == ByWeight(Weighted(Candidates(ts, full, name, fnmatch, cap)))
    ensures Descending(answer)
    ensures 0 < |Lookup(ts, Searched(ts, name), CaseChecked(ts, name))| <= (if cap < 10 then cap else 10) ==>
              |answer| <= cap && (mime in Mimes(answer) <==> Best(regs, Searched(ts, name), CaseChecked(ts, name), mime))
  {
    ByWeightMeaning(Weighted(Candidates(ts, full, name, fnmatch, cap)));
    var gs := Lookup(ts, Searched(ts, name), CaseChecked(ts, name));
    if 0 < |gs| <= cap && |gs| <= 10 {
      FromSuffix(ts, full, name, fnmatch, cap);
      AnswerTypes(gs, mime);
      BestInLookup(regs, Searched(ts, name), CaseChecked(ts, name), mime);
    }
  }

  /** Case matters only when the lower-case name has no suffix that accepts it. */
  predicate CaseChecked(ts: seq<Trie>, name: string)
    requires name != []
  {
    Lookup(ts, FromEnd(LowerCase(name), |name|), false) == []
  }

  function Searched(ts: seq<Trie>, name: string): (r: string)
    requires name != []
    ensures |r| == |name| && (Plain(name) ==> Plain(r))
  {
    if CaseChecked(ts, name) then FromEnd(name, |name|) else FromEnd(LowerCase(name), |name|)
  }

  lemma FromSuffix(ts: seq<Trie>, full: seq<Pattern>, name: string, fnmatch: (string, string) -> bool, cap: nat)
    requires name != [] && 0 < |Lookup(ts, Searched(ts, name), CaseChecked(ts, name))| <= 10
    ensures Candidates(ts, full, name, fnmatch, cap) == Lookup(ts, Searched(ts, name), CaseChecked(ts, name))
  {
  }

  /** `mime` has an accepted first registration for the longest suffix with any. */
  ghost predicate Best(regs: seq<Registration>, text: string, check: bool, mime: string) {
    exists g: Glob, l: nat :: g.mime == mime && Accepts(g, check) && 1 <= l <= |text| && Wins(regs, text, check, l) && Registers(regs, text[..l], g)
  }

  ghost predicate Among(gs: seq<Glob>, mime: string) {
    exists g: Glob :: g in gs && g.mime == mime
  }

  lemma BestInLookup(regs: seq<Registration>, text: string, check: bool, mime: string)
    requires AllPlain(regs) && Plain(text)
    ensures Among(Lookup(Build(regs), text, check), mime) <==> Best(regs, text, check, mime)
  {
    var gs := Lookup(Build(regs), text, check);
    if Among(gs, mime) {
      var g :| g in gs && g.mime == mime;
      RunLookup(regs, text, check, g);
    }
    if Best(regs, text, check, mime) {
      var g: Glob, l: nat :| g.mime == mime && Accepts(g, check) && 1 <= l <= |text| && Wins(regs, text, check, l) && Registers(regs, text[..l], g);
      RunLookup(regs, text, check, g);
    }
  }

  lemma AnswerTypes(gs: seq<Glob>, mime: string)
    ensures mime in Mimes(ByWeight(Weighted(gs))) <==> Among(gs, mime)
    ensures |ByWeight(Weighted(gs))| == |gs|
  {
    var ws := Weighted(gs);
    ByWeightMeaning(ws);
    assert |ByWeight(ws)| == |multiset(ByWeight(ws))|;
    MimesIn(ByWeight(ws), mime);
    if w: MimeWeight :| w in ws && w.mime == mime {
      var i :| 0 <= i < |ws| && ws[i] == w;
      assert gs[i] in gs;
    }
    if Among(gs, mime) {
      var g :| g in gs && g.mime == mime;
      var i :| 0 <= i < |gs| && gs[i] == g;
      assert ws[i] in ws;
    }
  }

  lemma MimesIn(ws: seq<MimeWeight>, mime: string)
    ensures mime in Mimes(ws) <==> exists w: MimeWeight :: w in ws && w.mime == mime
  {
    if mime in Mimes(ws) {
      var i :| 0 <= i < |ws| && Mimes(ws)[i] == mime;
      assert ws[i] in ws;
    }
    if w: MimeWeight :| w in ws && w.mime == mime {
      var i :| 0 <= i < |ws| && ws[i] == w;
      assert Mimes(ws)[i] == mime;
    }
  }

  // ----- whole files of globs -----

  datatype Entry = Entry(glob: string, type_: Glob)

  /** The suffix registrations of a list of globs, in order. */
  function Registrations(entries: seq<Entry>): (r: seq<Registration>)
    requires forall i :: 0 <= i < |entries| ==> Usable(entries[i].glob)
    ensures AllPlain(r)
  {
    if entries == [] then []
    else
      var last := entries[|entries| - 1];
      Registrations(entries[..|entries| - 1])
      + if IsSimple(last.glob) then [Registration(SuffixOf(last.glob), last.type_)] else []
  }

  lemma LoadStep(entries: seq<Entry>, i: nat, i1: nat)
    requires i < |entries| && i1 == i + 1 && forall i :: 0 <= i < |entries| ==> Usable(entries[i].glob)
    ensures Build(Registrations(entries[..i1])) == Stepped(Build(Registrations(entries[..i])), entries[i])
  {
    var was := Registrations(entries[..i]);
    assert entries[..i1][..i] == entries[..i];
    if IsSimple(entries[i].glob) {
      var r := Registration(SuffixOf(entries[i].glob), entries[i].type_);
      assert (was + [r])[..|was|] == was;
    } else {
      assert was + [] == was;
    }
  }

  /** The trie after one more glob. */
  function Stepped(ts: seq<Trie>, e: Entry): seq<Trie>
    requires Usable(e.glob)
  {
    if IsSimple(e.glob) then Insert(ts, SuffixOf(e.glob), e.type_) else ts
  }

  /** The entries of one kind, the first of each pattern and type. */
  function ListOf(entries: seq<Entry>, kind: string -> bool): seq<Pattern> {
    if entries == [] then []
    else
      var last := entries[|entries| - 1];
      var list := ListOf(entries[..|entries| - 1], kind);
      if kind(last.glob) then Appended(list, Pattern(last.glob, last.type_)) else list
  }

  predicate IsFull(glob: string) {
    !IsSimple(glob) && !IsLiteral(glob)
  }

  ghost predicate SamePattern(list: seq<Pattern>, glob: string, mime: string) {
    exists i :: 0 <= i < |list| && list[i].data == glob && list[i].glob.mime == mime
  }

  /** A list holds a pattern with a type exactly when some entry of its kind has both, once. */
  lemma {:induction false} ListMeaning(entries: seq<Entry>, kind: string -> bool, glob: string, mime: string)
    ensures SamePattern(ListOf(entries, kind), glob, mime)
       <==> exists i :: 0 <= i < |entries| && kind(glob) && entries[i].glob == glob && entries[i].type_.mime == mime
    ensures forall i, j :: 0 <= i < j < |ListOf(entries, kind)| ==>
      ListOf(entries, kind)[i].data != ListOf(entries, kind)[j].data || ListOf(entries, kind)[i].glob.mime != ListOf(entries, kind)[j].glob.mime
  {
    if entries != [] {
      var n := |entries| - 1;
      ListMeaning(entries[..n], kind, glob, mime);
      var list, r, e := ListOf(entries[..n], kind), ListOf(entries, kind), entries[n];
      assert forall i :: 0 <= i < n ==> entries[..n][i] == entries[i];
      if kind(e.glob) {
        ListGrows(list, Pattern(e.glob, e.type_), glob, mime);
      }
    }
  }

  lemma ListGrows(list: seq<Pattern>, p: Pattern, glob: string, mime: string)
    ensures SamePattern(Appended(list, p), glob, mime) <==> SamePattern(list, glob, mime) || (p.data == glob && p.glob.mime == mime)
  {
    var r := Appended(list, p);
    if i :| 0 <= i < |list| && list[i].data == glob && list[i].glob.mime == mime { assert r[i] == list[i]; }
    if p.data == glob && p.glob.mime == mime && r != list { assert r[|list|] == p; }
    if i :| 0 <= i < |r| && r[i].data == glob && r[i].glob.mime == mime { assert i < |list| ==> r[i] == list[i]; }
  }

  /** A list after one more glob. */
  function Listed(list: seq<Pattern>, e: Entry, kind: string -> bool): seq<Pattern> {
    if kind(e.glob) then Appended(list, Pattern(e.glob, e.type_)) else list
  }

  lemma ListStep(entries: seq<Entry>, i: nat, i1: nat, kind: string -> bool)
    requires i < |entries| && i1 == i + 1
    ensures ListOf(entries[..i1], kind) == Listed(ListOf(entries[..i], kind), entries[i], kind)
  {
    assert entries[..i1][..i] == entries[..i];
  }

  method LoadOne(hash: Hash, e: Entry, ghost ts: seq<Trie>, ghost literals: seq<Pattern>, ghost full: seq<Pattern>, ghost nodes: set<GlobNode>)
    requires hash.Valid() && Usable(e.glob) && hash.trie == ts && hash.literals == literals && hash.full == full && hash.nodes == nodes
    modifies hash, nodes
    ensures hash.Valid() && hash.trie == Stepped(ts, e) && fresh(hash.nodes - nodes)
    ensures hash.literals == Listed(literals, e, IsLiteral) && hash.full == Listed(full, e, IsFull)
  {
    hash.AppendGlob(e.glob, e.type_);
  }

  /** Appending any list of globs to a new table stores the trie of its suffixes and the two lists. */
  method Load(entries: seq<Entry>) returns (hash: Hash)
    requires forall i :: 0 <= i < |entries| ==> Usable(entries[i].glob)
    ensures hash.Valid() && hash.trie == Build(Registrations(entries))
    ensures hash.literals == ListOf(entries, IsLiteral) && hash.full == ListOf(entries, IsFull)
  {
    hash := new Hash();
    ghost var ts: seq<Trie>, literals: seq<Pattern>, full: seq<Pattern> := [], [], [];
    for i := 0 to |entries|
      invariant hash.Valid() && fresh(hash) && fresh(hash.nodes)
      invariant hash.trie == ts && hash.literals == literals && hash.full == full
      invariant ts == Build(Registrations(entries[..i]))
      invariant literals == ListOf(entries[..i], IsLiteral) && full == ListOf(entries[..i], IsFull)
    {
      LoadOne(hash, entries[i], ts, literals, full, hash.nodes);
      LoadStep(entries, i, i + 1);
      ListStep(entries, i, i + 1, IsLiteral);
      ListStep(entries, i, i + 1, IsFull);
      ts, literals, full := Stepped(ts, entries[i]), Listed(literals, entries[i], IsLiteral), Listed(full, entries[i], IsFull);
    }
    assert entries[..|entries|] == entries;
  }
}
