/** Looking a file name up in the suffix trie: the longest suffix with an eligible type wins. */
module GlobLookup {
  import opened GlobTrie

  // ----- what a run of registrations leaves behind -----

  /** `suffix` is a simple glob without its star, read from its end. */
  datatype Registration = Registration(suffix: string, glob: Glob)

  ghost predicate AllPlain(regs: seq<Registration>) {
    forall i :: 0 <= i < |regs| ==> Plain(regs[i].suffix)
  }

  function Build(regs: seq<Registration>): seq<Trie>
    requires AllPlain(regs)
  {
    if regs == [] then []
    else
      var r := regs[|regs| - 1];
      Insert(Build(regs[..|regs| - 1]), r.suffix, r.glob)
  }

  /** Registration `i` is the first of its type for its suffix. */
  ghost predicate First(regs: seq<Registration>, i: nat) {
    i < |regs| && forall j: nat :: j < i && regs[j].suffix == regs[i].suffix ==> regs[j].glob.mime != regs[i].glob.mime
  }

  /** `g` stands in a first registration of `suffix`. */
  ghost predicate Registers(regs: seq<Registration>, suffix: string, g: Glob) {
    exists i: nat :: First(regs, i) && regs[i] == Registration(suffix, g)
  }

  ghost predicate DistinctTypes(gs: seq<Glob>) {
    forall i, j :: 0 <= i < j < |gs| ==> gs[i].mime != gs[j].mime
  }

  lemma SecondPlace(gs: seq<Glob>, g: Glob, r: seq<Glob>)
    requires gs != [] && DistinctTypes(gs) && !Knows(gs, g.mime) && r == [gs[0], g] + gs[1..]
    ensures DistinctTypes(r) && r[1] == g && r[0] == gs[0]
    ensures forall x :: x in r <==> x in gs || x == g
  {
    assert gs == [gs[0]] + gs[1..];
    forall i, j | 0 <= i < j < |r| ensures r[i].mime != r[j].mime {
      var a, b := if i == 0 then gs[0] else if i == 1 then g else gs[i - 1], if j == 1 then g else gs[j - 1];
      assert r[i] == a && r[j] == b;
    }
  }

  lemma RegisteredMeaning(gs: seq<Glob>, g: Glob)
    requires DistinctTypes(gs)
    ensures DistinctTypes(Registered(gs, g)) && Knows(Registered(gs, g), g.mime)
    ensures forall x :: x in Registered(gs, g) <==> x in gs || (x == g && !Knows(gs, g.mime))
    ensures gs != [] ==> Registered(gs, g)[0] == gs[0]
  {
    var r := Registered(gs, g);
    if !Knows(gs, g.mime) {
      if gs == [] {
        assert r[0] == g;
      } else {
        SecondPlace(gs, g, r);
        assert r[1].mime == g.mime;
      }
    }
  }

  lemma FirstSnoc(regs: seq<Registration>, r: Registration, suffix: string, g: Glob)
    ensures Registers(regs + [r], suffix, g)
         <==> (Registers(regs, suffix, g) || (r == Registration(suffix, g) && First(regs + [r], |regs|)))
  {
    var all := regs + [r];
    forall i: nat | i < |regs| ensures First(all, i) <==> First(regs, i) {
      assert forall j: nat :: j <= i ==> all[j] == regs[j];
    }
    if Registers(all, suffix, g) {
      var i: nat :| First(all, i) && all[i] == Registration(suffix, g);
      assert i < |regs| ==> First(regs, i) && regs[i] == Registration(suffix, g);
    }
    if Registers(regs, suffix, g) {
      var i: nat :| First(regs, i) && regs[i] == Registration(suffix, g);
      assert First(all, i) && all[i] == Registration(suffix, g);
    }
    if r == Registration(suffix, g) && First(all, |regs|) {
      assert all[|regs|] == Registration(suffix, g);
    }
  }

  /** Some registration of the type for the suffix is the first one. */
  lemma {:induction false} SomeFirst(regs: seq<Registration>, i: nat) returns (j: nat)
    requires i < |regs|
    ensures j <= i && First(regs, j) && regs[j].suffix == regs[i].suffix && regs[j].glob.mime == regs[i].glob.mime
    ensures Registers(regs, regs[j].suffix, regs[j].glob)
    decreases i
  {
    if First(regs, i) {
      j := i;
    } else {
      var k: nat :| k < i && regs[k].suffix == regs[i].suffix && regs[k].glob.mime == regs[i].glob.mime;
      j := SomeFirst(regs, k);
    }
    assert regs[j] == Registration(regs[j].suffix, regs[j].glob);
  }

  /** `gs` is what the first registrations of `suffix` say, each type once. */
  ghost predicate Exactly(gs: seq<Glob>, regs: seq<Registration>, suffix: string) {
    DistinctTypes(gs) && forall g :: g in gs <==> Registers(regs, suffix, g)
  }

  lemma KnownIffNotFirst(gs: seq<Glob>, regs: seq<Registration>, r: Registration)
    requires Exactly(gs, regs, r.suffix)
    ensures Knows(gs, r.glob.mime) <==> !First(regs + [r], |regs|)
  {
    var all := regs + [r];
    if Knows(gs, r.glob.mime) {
      var i :| 0 <= i < |gs| && gs[i].mime == r.glob.mime;
      assert gs[i] in gs && Registers(regs, r.suffix, gs[i]);
      var j: nat :| First(regs, j) && regs[j] == Registration(r.suffix, gs[i]);
      assert all[j] == regs[j];
    }
    if !First(all, |regs|) {
      var i: nat :| i < |regs| && all[i].suffix == r.suffix && all[i].glob.mime == r.glob.mime;
      assert all[i] == regs[i];
      var j := SomeFirst(regs, i);
      assert regs[j].glob in gs;
    }
  }

  lemma RegisteredExactly(gs: seq<Glob>, regs: seq<Registration>, r: Registration)
    requires Exactly(gs, regs, r.suffix)
    ensures Exactly(Registered(gs, r.glob), regs + [r], r.suffix)
  {
    KnownIffNotFirst(gs, regs, r);
    RegisteredMeaning(gs, r.glob);
    forall g ensures g in Registered(gs, r.glob) <==> Registers(regs + [r], r.suffix, g) {
      FirstSnoc(regs, r, r.suffix, g);
    }
  }

  lemma OtherExactly(gs: seq<Glob>, regs: seq<Registration>, r: Registration, suffix: string)
    requires Exactly(gs, regs, suffix) && r.suffix != suffix
    ensures Exactly(gs, regs + [r], suffix)
  {
    forall g ensures g in gs <==> Registers(regs + [r], suffix, g) {
      FirstSnoc(regs, r, suffix, g);
    }
  }

  /** Every run of registrations leaves a trie in order, */
  lemma {:induction false} BuildFormed(regs: seq<Registration>)
    requires AllPlain(regs)
    ensures WellFormed(Build(regs))
  {
    if regs != [] {
      var was, r := regs[..|regs| - 1], regs[|regs| - 1];
      BuildFormed(was);
      InsertFormed(Build(was), r.suffix, r.glob);
      ExtrasInserted(Build(was), r.suffix, r.glob);
    }
  }

  lemma OneMoreType(ts: seq<Trie>, was: seq<Registration>, r: Registration, suffix: string)
    requires Owned(ts) && Plain(r.suffix) && Plain(suffix) && Exactly(Types(ts, suffix), was, suffix)
    ensures Exactly(Types(Insert(ts, r.suffix, r.glob), suffix), was + [r], suffix)
  {
    var gs := Types(ts, suffix);
    InsertRegisters(ts, r.suffix, r.glob, suffix);
    if r.suffix == suffix {
      RegisteredExactly(gs, was, r);
    } else {
      OtherExactly(gs, was, r, suffix);
    }
  }

  /** in which every suffix has exactly its first registrations, each type once. */
  lemma {:induction false} BuildTypes(regs: seq<Registration>, suffix: string)
    requires AllPlain(regs) && Plain(suffix)
    ensures Exactly(Types(Build(regs), suffix), regs, suffix)
  {
    hide Insert, Formed;
    if regs != [] {
      var was, r := regs[..|regs| - 1], regs[|regs| - 1];
      var ts := Build(was);
      assert regs == was + [r] && Build(regs) == Insert(ts, r.suffix, r.glob);
      BuildTypes(was, suffix);
      assert Owned(ts) by { BuildFormed(was); }
      OneMoreType(ts, was, r, suffix);
    } else {
      NothingYet([], regs, suffix);
    }
  }

  lemma NothingYet(gs: seq<Glob>, regs: seq<Registration>, suffix: string)
    requires regs == [] && gs == []
    ensures Exactly(gs, regs, suffix)
  {
  }

  // ----- lookup -----

  predicate Accepts(g: Glob, caseCheck: bool) {
    caseCheck || !g.caseSensitive
  }

  function Eligible(gs: seq<Glob>, caseCheck: bool): seq<Glob> {
    if gs == [] then []
    else (if Accepts(gs[0], caseCheck) then [gs[0]] else []) + Eligible(gs[1..], caseCheck)
  }

  lemma {:induction false} EligibleMeaning(gs: seq<Glob>, caseCheck: bool)
    ensures forall g :: g in Eligible(gs, caseCheck) <==> g in gs && Accepts(g, caseCheck)
  {
    if gs != [] {
      EligibleMeaning(gs[1..], caseCheck);
      assert gs == [gs[0]] + gs[1..];
    }
  }

  /** The lookup of a name read from its end, without a cap. */
  function Lookup(ts: seq<Trie>, text: string, caseCheck: bool): seq<Glob>
    requires text != []
    decreases |text|, 0
  {
    if Found(ts, text[0]) then LookupAt(ts[Seek(ts, text[0])], text[1..], caseCheck) else []
  }

  /** Below one node: the longer suffixes first, then the node itself. */
  function LookupAt(t: Trie, rest: string, caseCheck: bool): seq<Glob>
    decreases |rest|, 1
  {
    var deeper := if rest == [] then [] else Lookup(t.kids, rest, caseCheck);
    if deeper != [] then deeper else Eligible(TypesOf(t), caseCheck)
  }

  /** The eligible types of the suffix of length `m`. */
  function Offer(ts: seq<Trie>, text: string, caseCheck: bool, m: nat): seq<Glob>
    requires 0 < m <= |text|
  {
    Eligible(Types(ts, text[..m]), caseCheck)
  }

  /** The length of the longest suffix, of at most `n`, with an eligible type; 0 if there is none. */
  function Longest(ts: seq<Trie>, text: string, caseCheck: bool, n: nat): (l: nat)
    requires n <= |text|
    ensures l <= n
    ensures l > 0 ==> Offer(ts, text, caseCheck, l) != []
    ensures forall m :: l < m <= n ==> Offer(ts, text, caseCheck, m) == []
  {
    if n == 0 || Offer(ts, text, caseCheck, n) != [] then n else Longest(ts, text, caseCheck, n - 1)
  }

  /** Lookup gives exactly the eligible types of the longest suffix that has any. */
  lemma {:induction false} LookupIsLongest(ts: seq<Trie>, text: string, caseCheck: bool)
    requires text != []
    ensures
      var l := Longest(ts, text, caseCheck, |text|);
      Lookup(ts, text, caseCheck) == if l == 0 then [] else Offer(ts, text, caseCheck, l)
    decreases |text|
  {
    if !Found(ts, text[0]) {
      NoNode(ts, text, caseCheck);
    } else {
      var kids, rest := ts[Seek(ts, text[0])].kids, text[1..];
      var k := Longest(kids, rest, caseCheck, |rest|);
      LongestBelow(ts, text, rest, kids, caseCheck, k);
      if |text| > 1 {
        LookupIsLongest(kids, rest, caseCheck);
        if k > 0 { OneMore(ts, text, rest, caseCheck, k); }
      }
      OneCharacter(ts, text, caseCheck);
    }
  }

  lemma NoneLonger(ts: seq<Trie>, text: string, rest: string, kids: seq<Trie>, caseCheck: bool, k: nat, m: nat)
    requires text != [] && rest == text[1..] && Found(ts, text[0]) && kids == ts[Seek(ts, text[0])].kids
    requires k == Longest(kids, rest, caseCheck, |rest|) && k + 1 < m <= |text|
    ensures Offer(ts, text, caseCheck, m) == []
  {
    OneMore(ts, text, rest, caseCheck, m - 1);
    assert Offer(kids, rest, caseCheck, m - 1) == [];
  }

  lemma LongestBelow(ts: seq<Trie>, text: string, rest: string, kids: seq<Trie>, caseCheck: bool, k: nat)
    requires text != [] && rest == text[1..] && Found(ts, text[0]) && kids == ts[Seek(ts, text[0])].kids
    requires k == Longest(kids, rest, caseCheck, |rest|)
    ensures Longest(ts, text, caseCheck, |text|) == if k > 0 then k + 1 else if Offer(ts, text, caseCheck, 1) != [] then 1 else 0
  {
    var l := if k > 0 then k + 1 else if Offer(ts, text, caseCheck, 1) != [] then 1 else 0;
    if k > 0 { OneMore(ts, text, rest, caseCheck, k); }
    forall m | l < m <= |text| ensures Offer(ts, text, caseCheck, m) == [] {
      if m > k + 1 { NoneLonger(ts, text, rest, kids, caseCheck, k, m); }
    }
    LongestIs(ts, text, caseCheck, l);
  }

  lemma OneCharacter(ts: seq<Trie>, text: string, caseCheck: bool)
    requires text != [] && Found(ts, text[0])
    ensures Offer(ts, text, caseCheck, 1) == Eligible(TypesOf(ts[Seek(ts, text[0])]), caseCheck)
  {
    var one := text[..1];
    assert one[0] == text[0] && |one| == 1;
    assert Types(ts, one) == Below(ts[Seek(ts, one[0])], one);
  }

  lemma OneMore(ts: seq<Trie>, text: string, rest: string, caseCheck: bool, m: nat)
    requires text != [] && rest == text[1..] && 0 < m <= |rest| && Found(ts, text[0])
    ensures Offer(ts, text, caseCheck, m + 1) == Offer(ts[Seek(ts, text[0])].kids, rest, caseCheck, m)
  {
    var some := text[..m + 1];
    assert some[0] == text[0] && some[1..] == rest[..m];
    assert Types(ts, some) == Below(ts[Seek(ts, some[0])], some);
  }

  lemma NoNode(ts: seq<Trie>, text: string, caseCheck: bool)
    requires text != [] && !Found(ts, text[0])
    ensures Longest(ts, text, caseCheck, |text|) == 0
  {
    forall m | 1 <= m <= |text| ensures Offer(ts, text, caseCheck, m) == [] {
      assert text[..m][0] == text[0];
    }
    LongestIs(ts, text, caseCheck, 0);
  }

  lemma LongestIs(ts: seq<Trie>, text: string, caseCheck: bool, l: nat)
    requires l <= |text| && (l > 0 ==> Offer(ts, text, caseCheck, l) != [])
    requires forall m :: l < m <= |text| ==> Offer(ts, text, caseCheck, m) == []
    ensures Longest(ts, text, caseCheck, |text|) == l
  {
  }

  /** Two tries that hold the same types for every suffix give the same set of
      types for every name, whatever the order and the place of the types. */
  lemma SameTypesSameLookup(a: seq<Trie>, b: seq<Trie>, text: string, caseCheck: bool)
    requires Plain(text)
    requires forall suffix :: Plain(suffix) ==> forall g :: g in Types(a, suffix) <==> g in Types(b, suffix)
    ensures forall g :: g in Lookup(a, text, caseCheck) <==> g in Lookup(b, text, caseCheck)
  {
    LookupIsLongest(a, text, caseCheck);
    LookupIsLongest(b, text, caseCheck);
    forall l | 1 <= l <= |text|
      ensures forall g :: g in Offer(a, text, caseCheck, l) <==> g in Offer(b, text, caseCheck, l)
      ensures Offer(a, text, caseCheck, l) == [] <==> Offer(b, text, caseCheck, l) == []
    {
      assert Plain(text[..l]);
      EligibleMeaning(Types(a, text[..l]), caseCheck);
      EligibleMeaning(Types(b, text[..l]), caseCheck);
      var x, y := Offer(a, text, caseCheck, l), Offer(b, text, caseCheck, l);
      if x != [] { assert x[0] in x; }
      if y != [] { assert y[0] in y; }
    }
    LongestIs(b, text, caseCheck, Longest(a, text, caseCheck, |text|));
  }

  /** `text[..l]` is the longest suffix with an accepted registration. */
  ghost predicate Wins(regs: seq<Registration>, text: string, caseCheck: bool, l: nat) {
    l <= |text| && forall m, g :: l < m <= |text| && Registers(regs, text[..m], g) ==> !Accepts(g, caseCheck)
  }

  /** After any run of registrations, a lookup finds exactly the eligible first
      registrations of the longest suffix that has any. */
  lemma RunLookup(regs: seq<Registration>, text: string, caseCheck: bool, g: Glob)
    requires AllPlain(regs) && Plain(text)
    ensures
      g in Lookup(Build(regs), text, caseCheck)
      <==>
      Accepts(g, caseCheck) && exists l :: 1 <= l <= |text| && Wins(regs, text, caseCheck, l) && Registers(regs, text[..l], g)
  {
    var ts := Build(regs);
    LookupIsLongest(ts, text, caseCheck);
    forall m | 1 <= m <= |text|
      ensures forall h :: h in Offer(ts, text, caseCheck, m) <==> Registers(regs, text[..m], h) && Accepts(h, caseCheck)
    {
      assert Plain(text[..m]);
      BuildTypes(regs, text[..m]);
      EligibleMeaning(Types(ts, text[..m]), caseCheck);
    }
    var l := Longest(ts, text, caseCheck, |text|);
    assert Wins(regs, text, caseCheck, l);
    if l > 0 {
      var h := Offer(ts, text, caseCheck, l)[0];
      assert h in Offer(ts, text, caseCheck, l);
      assert forall k :: 1 <= k < l ==> !Wins(regs, text, caseCheck, k);
    }
    if k :| 1 <= k <= |text| && Wins(regs, text, caseCheck, k) && Registers(regs, text[..k], g) && Accepts(g, caseCheck) {
      assert g in Offer(ts, text, caseCheck, k);
    }
  }
}
