/**
 * When the subclass test asks the right question: the base is resolved again at every level, which
 * is harmless exactly when the names it moves through accept the same types.
 */
module MimeBases {
  import opened CStrings
  import opened MimeTypes

  const OCTETS := "application/octet-stream"

  /** The base accepts a whole media type. */
  predicate Wide(base: string) {
    SuperType(base) || base == "text/plain"
  }

  /** Two bases that accept the same types: equal, or both for all of one media type. */
  predicate Alike(b: string, c: string) {
    b == c || (Wide(b) && Wide(c) && MediaEqual(b, c))
  }

  lemma SamePrefix(a: string, b: string, p: string)
    requires |p| <= |a| && |p| <= |b| && a[..|p|] == p && b[..|p|] == p
    ensures forall k :: 0 <= k < |p| ==> a[k] == b[k]
  {
    forall k | 0 <= k < |p| ensures a[k] == b[k] { assert a[..|p|][k] == b[..|p|][k]; }
  }

  lemma FirstInPrefix(a: string, b: string, c: char, i: nat)
    requires i < |a| && i < |b| && a[..i + 1] == b[..i + 1] && a[i] == c && forall j :: 0 <= j < i ==> a[j] != c
    ensures Index(b, c) == i
  {
    SamePrefix(a, b, a[..i + 1]);
    IndexIs(b, c, i);
  }

  lemma PrefixTake(p: string, b: string)
    requires p <= b
    ensures |p| <= |b| && b[..|p|] == p
  {
  }

  lemma IndexOfPrefix(a: string, b: string, c: char)
    requires Index(a, c) < |a| && a[..Index(a, c) + 1] <= b
    ensures Index(b, c) == Index(a, c) && b[..Index(a, c) + 1] == a[..Index(a, c) + 1]
  {
    hide Index;
    var i := Index(a, c);
    PrefixTake(a[..i + 1], b);
    FirstInPrefix(a, b, c, i);
  }

  lemma MediaEqualSymmetric(a: string, b: string)
    ensures MediaEqual(a, b) <==> MediaEqual(b, a)
  {
    if MediaEqual(a, b) { IndexOfPrefix(a, b, '/'); }
    if MediaEqual(b, a) { IndexOfPrefix(b, a, '/'); }
  }

  lemma MediaEqualTransitive(a: string, b: string, c: string)
    requires MediaEqual(a, b) && MediaEqual(b, c)
    ensures MediaEqual(a, c)
  {
    IndexOfPrefix(a, b, '/');
    IndexOfPrefix(b, c, '/');
  }

  lemma TextMedia(mime: string)
    ensures "text/" <= mime <==> MediaEqual(mime, "text/plain")
  {
    var plain := "text/plain";
    assert plain[4] == '/' && plain[..5] == "text/";
    IndexIsFour(plain);
    if "text/" <= mime {
      IndexIsFour(mime);
      assert mime[..5] == "text/";
    }
    if MediaEqual(mime, plain) {
      IndexOfPrefix(mime, plain, '/');
      assert mime[..5] == "text/";
    }
  }

  lemma IndexIsFour(s: string)
    requires "text/" <= s
    ensures Index(s, '/') == 4
  {
    assert "text/" == s[..5];
    assert s[0] == 't' && s[1] == 'e' && s[2] == 'x' && s[3] == 't' && s[4] == '/';
    var i := Index(s, '/');
    assert i <= 4;
  }

  /** What a base accepts, in one form. */
  lemma AcceptsMeaning(mime: string, base: string)
    ensures Accepts(mime, base) <==> mime == base || base == OCTETS || (Wide(base) && MediaEqual(mime, base))
  {
    StrCmpZero(mime, base);
    TextMedia(mime);
  }

  lemma AlikeAccepts(b: string, c: string, mime: string)
    requires Alike(b, c)
    ensures Accepts(mime, b) <==> Accepts(mime, c)
  {
    AcceptsMeaning(mime, b);
    AcceptsMeaning(mime, c);
    if b != c {
      MediaEqualSymmetric(b, c);
      if MediaEqual(mime, b) { MediaEqualTransitive(mime, b, c); }
      if MediaEqual(mime, c) { MediaEqualTransitive(mime, c, b); }
    }
  }

  // ----- names that nothing knows -----

  /** A name without a slash. */
  function Stroke(n: nat): (s: string)
    ensures |s| == n && '/' !in s
  {
    seq(n, _ => 'z')
  }

  lemma StrokeRefused(n: nat, base: string)
    requires n > |base| && base != OCTETS
    ensures !Accepts(Stroke(n), base)
  {
    AcceptsMeaning(Stroke(n), base);
    assert Index(Stroke(n), '/') == n;
  }

  lemma {:induction false} Longer(names: set<string>) returns (n: nat)
    ensures forall m :: m in names ==> |m| < n
  {
    n := 0;
    var left := names;
    while left != {}
      invariant left <= names && forall m :: m in names - left ==> |m| < n
      decreases left
    {
      var m :| m in left;
      left := left - {m};
      n := n + |m| + 1;
    }
  }

  // ----- the base at a level -----

  lemma {:induction false} BaseAtNext(t: Tables, base: string, level: nat)
    ensures BaseAt(t, base, level + 1) == Unalias(t, BaseAt(t, base, level))
    decreases level
  {
    if level > 0 {
      BaseAtNext(t, Unalias(t, base), level - 1);
    } else {
      assert BaseAt(t, base, 1) == BaseAt(t, Unalias(t, base), 0);
    }
  }

  /** Two bases that are not alike differ in a resolved type. */
  lemma Different(t: Tables, b: string, c: string) returns (mime: string)
    requires !Alike(Unalias(t, b), Unalias(t, c)) && Unalias(t, b) != OCTETS
    ensures Accepts(Unalias(t, mime), Unalias(t, b)) != Accepts(Unalias(t, mime), Unalias(t, c))
  {
    var ub, uc := Unalias(t, b), Unalias(t, c);
    AcceptsMeaning(ub, ub);
    AcceptsMeaning(ub, uc);
    AcceptsMeaning(uc, ub);
    AcceptsMeaning(uc, uc);
    if uc == OCTETS {
      var n := Longer(t.alias.Keys + {ub});
      mime := Stroke(n);
      StrokeRefused(n, ub);
      AcceptsMeaning(mime, uc);
    } else if !Accepts(ub, uc) {
      mime := b;
    } else {
      mime := c;
    }
  }

  // ----- a table on which the moving base shows -----

  /** `levels - 1` unknown names, one below the other, above the type `last`. */
  function Ladder(start: nat, levels: nat, last: string): map<string, seq<string>> {
    map m | m in Rungs(start, levels) :: [if |m| + 2 < start + levels then Stroke(|m| + 1) else last]
  }

  function Rungs(start: nat, levels: nat): (r: set<string>)
    ensures forall k :: start <= k < start + levels - 1 ==> Stroke(k) in r
    ensures forall m :: m in r ==> start <= |m| < start + levels - 1 && m == Stroke(|m|)
  {
    set k | start <= k < start + levels - 1 :: Stroke(k)
  }

  function LadderRank(start: nat, levels: nat): string -> nat {
    (m: string) => if start <= |m| < start + levels then start + levels - |m| else 0
  }

  ghost predicate OnLadder(t: Tables, start: nat, levels: nat, last: string) {
    && levels >= 2 && t.parents == Ladder(start, levels, last)
    && |last| < start && |Unalias(t, last)| < start
    && (forall m :: m in t.alias ==> |m| < start)
  }

  lemma Rung(t: Tables, start: nat, levels: nat, last: string, k: nat)
    requires OnLadder(t, start, levels, last) && k + 1 < levels
    ensures var s := Stroke(start + k);
      && Unalias(t, s) == s && Parents(t, s) == [if k + 2 < levels then Stroke(start + k + 1) else last]
  {
  }

  lemma LadderTop(t: Tables, start: nat, levels: nat, last: string, m: string)
    requires OnLadder(t, start, levels, last) && |m| < start
    ensures Parents(t, m) == []
  {
  }

  lemma LadderAcyclic(t: Tables, start: nat, levels: nat, last: string)
    requires OnLadder(t, start, levels, last)
    ensures Acyclic(t, LadderRank(start, levels))
  {
    forall m, i | 0 <= i < |Parents(t, m)|
      ensures LadderRank(start, levels)(Unalias(t, Parents(t, m)[i])) < LadderRank(start, levels)(m)
    {
      var k := |m| - start;
      Rung(t, start, levels, last, k);
      if k + 2 < levels { Rung(t, start, levels, last, k + 1); }
    }
  }

  lemma OneParent(t: Tables, m: string, base: string, rank: string -> nat, parent: string)
    requires Acyclic(t, rank) && Unalias(t, m) == m && Parents(t, m) == [parent] && !Accepts(m, Unalias(t, base))
    ensures Subclass(t, m, base, rank) <==> Subclass(t, parent, Unalias(t, base), rank)
  {
    assert Parents(t, m)[0] == parent;
  }

  lemma NoParent(t: Tables, m: string, base: string, rank: string -> nat)
    requires Acyclic(t, rank) && Parents(t, Unalias(t, m)) == []
    ensures Subclass(t, m, base, rank) <==> Accepts(Unalias(t, m), Unalias(t, base))
  {
  }

  /** The bases of the levels, each resolved from the one before. */
  ghost predicate Moves(t: Tables, bases: seq<string>) {
    forall j {:trigger MovesAt(t, bases, j)} :: 0 <= j < |bases| - 1 ==> MovesAt(t, bases, j)
  }

  predicate MovesAt(t: Tables, bases: seq<string>, j: int)
    requires 0 <= j < |bases| - 1
  {
    bases[j + 1] == Unalias(t, bases[j])
  }

  /** The bases below the last level refuse the names of the ladder. */
  ghost predicate Refusing(start: nat, bases: seq<string>) {
    forall j :: 0 < j < |bases| - 1 ==> bases[j] != OCTETS && |bases[j]| < start
  }

  /** One level down: the test on a name of the ladder is the test on its only parent. */
  lemma OneRung(t: Tables, start: nat, levels: nat, last: string, k: nat, m: string, base: string, rank: string -> nat, parent: string, ub: string)
    requires OnLadder(t, start, levels, last) && k + 1 < levels && Acyclic(t, rank) && m == Stroke(start + k)
    requires ub == Unalias(t, base) && ub != OCTETS && |ub| < start && parent == if k + 2 < levels then Stroke(start + k + 1) else last
    ensures Subclass(t, m, base, rank) <==> Subclass(t, parent, ub, rank)
  {
    Rung(t, start, levels, last, k);
    StrokeRefused(start + k, ub);
    OneParent(t, m, base, rank, parent);
  }

  /** At the end of the ladder the test looks at `last`. */
  lemma LastRung(t: Tables, start: nat, levels: nat, last: string, base: string, rank: string -> nat)
    requires OnLadder(t, start, levels, last) && Acyclic(t, rank)
    ensures Subclass(t, last, base, rank) <==> Accepts(Unalias(t, last), Unalias(t, base))
  {
    LadderTop(t, start, levels, last, Unalias(t, last));
    NoParent(t, last, base, rank);
  }

  lemma {:induction false} AllEqual(h: seq<bool>, k: nat)
    requires k < |h| && forall j :: 0 <= j < |h| - 1 ==> h[j] == h[j + 1]
    ensures h[0] == h[k]
  {
    if k > 0 { AllEqual(h, k - 1); }
  }

  /** The name on rung `k`, and `last` below the ladder. */
  function OnRung(start: nat, levels: nat, last: string, k: nat): string {
    if k + 1 < levels then Stroke(start + k) else last
  }

  /** From the top of the ladder the test looks at `last` with the base of the last level but one. */
  lemma TestOnLadder(t: Tables, start: nat, levels: nat, last: string, bases: seq<string>, rank: string -> nat)
    requires OnLadder(t, start, levels, last) && levels == |bases| - 1 && Acyclic(t, rank) && Moves(t, bases) && Refusing(start, bases)
    ensures Subclass(t, Stroke(start), bases[0], rank) <==> Subclass(t, last, bases[levels - 1], rank)
  {
    hide Subclass, Acyclic, Ladder, Unalias;
    var h := seq(levels, k requires 0 <= k < levels => Subclass(t, OnRung(start, levels, last, k), bases[k], rank));
    forall k | 0 <= k < levels - 1 ensures h[k] == h[k + 1] {
      assert MovesAt(t, bases, k);
      OneRung(t, start, levels, last, k, Stroke(start + k), bases[k], rank, OnRung(start, levels, last, k + 1), bases[k + 1]);
    }
    AllEqual(h, levels - 1);
  }

  /** A path from the ladder stays on it, or ends at the resolved `last`. */
  lemma {:induction false} PathOnLadder(t: Tables, start: nat, levels: nat, last: string, k: nat, path: seq<string>)
    requires OnLadder(t, start, levels, last) && k + 1 < levels && IsPath(t, path) && path[0] == Stroke(start + k)
    ensures path[|path| - 1] == Unalias(t, last) || exists j :: start <= j && path[|path| - 1] == Stroke(j)
    decreases |path|
  {
    Rung(t, start, levels, last, k);
    if |path| > 1 {
      assert path[1..][|path| - 2] == path[|path| - 1];
      if k + 2 < levels {
        Rung(t, start, levels, last, k + 1);
        PathOnLadder(t, start, levels, last, k + 1, path[1..]);
      } else {
        LadderTop(t, start, levels, last, path[1]);
      }
    }
  }

  lemma {:induction false} DownTheLadder(t: Tables, start: nat, levels: nat, last: string, k: nat, m: string) returns (path: seq<string>)
    requires OnLadder(t, start, levels, last) && k + 1 < levels && m == Stroke(start + k)
    ensures IsPath(t, path) && path[0] == m && path[|path| - 1] == Unalias(t, last)
    decreases levels - k
  {
    var parent := if k + 2 < levels then Stroke(start + k + 1) else last;
    assert Parents(t, m) == [parent] by { Rung(t, start, levels, last, k); }
    var rest := [Unalias(t, last)];
    if k + 2 < levels {
      assert Unalias(t, parent) == parent by { Rung(t, start, levels, last, k + 1); }
      rest := DownTheLadder(t, start, levels, last, k + 1, parent);
    }
    path := OneLonger(t, m, parent, rest);
  }

  /** A path from the only parent of a type is a path from the type. */
  lemma OneLonger(t: Tables, m: string, parent: string, rest: seq<string>) returns (path: seq<string>)
    requires Parents(t, m) == [parent] && IsPath(t, rest) && rest[0] == Unalias(t, parent)
    ensures path == [m] + rest && IsPath(t, path) && path[0] == m && path[|path| - 1] == rest[|rest| - 1]
  {
    path := [m] + rest;
    assert path[1..] == rest && path[1] == Unalias(t, Parents(t, path[0])[0]);
  }

  lemma RefusedOnLadder(t: Tables, start: nat, levels: nat, last: string, b: string, path: seq<string>)
    requires OnLadder(t, start, levels, last) && b != OCTETS && |b| < start
    requires IsPath(t, path) && path[0] == Stroke(start) && Accepts(path[|path| - 1], b)
    ensures Accepts(Unalias(t, last), b)
  {
    PathOnLadder(t, start, levels, last, 0, path);
    if path[|path| - 1] != Unalias(t, last) {
      var j :| start <= j && path[|path| - 1] == Stroke(j);
      StrokeRefused(j, b);
    }
  }

  /** Reachability asks the first base about `last`. */
  lemma ReachOnLadder(t: Tables, start: nat, levels: nat, last: string, base: string, m: string)
    requires OnLadder(t, start, levels, last) && Unalias(t, base) != OCTETS && |Unalias(t, base)| < start && m == Stroke(start + 0)
    ensures ReachesBase(t, m, base) <==> Accepts(Unalias(t, last), Unalias(t, base))
  {
    var b := Unalias(t, base);
    assert Unalias(t, m) == m by { Rung(t, start, levels, last, 0); }
    if Accepts(Unalias(t, last), b) {
      var down := DownTheLadder(t, start, levels, last, 0, m);
    }
    if path :| IsPath(t, path) && path[0] == Unalias(t, m) && Accepts(path[|path| - 1], b) {
      RefusedOnLadder(t, start, levels, last, b, path);
    }
  }

  // ----- exactly when the test is reachability -----

  /** With these aliases and this base the test is reachability, whatever the parents are. */
  ghost predicate AlwaysReachability(alias: map<string, string>, base: string) {
    forall parents, mime, rank {:trigger Subclass(Tables(alias, parents), mime, base, rank)} ::
      Acyclic(Tables(alias, parents), rank) ==>
        (Subclass(Tables(alias, parents), mime, base, rank) <==> ReachesBase(Tables(alias, parents), mime, base))
  }

  /** The names the base moves through accept the same types. */
  ghost predicate BasesAlike(t: Tables, base: string) {
    forall n :: n > 0 ==> Alike(Unalias(t, base), BaseAt(t, base, n))
  }

  lemma AlikeIsEnough(t: Tables, mime: string, base: string, rank: string -> nat)
    requires Acyclic(t, rank) && (Unalias(t, base) == OCTETS || BasesAlike(t, base))
    ensures Subclass(t, mime, base, rank) <==> ReachesBase(t, mime, base)
  {
    if Unalias(t, base) == OCTETS {
      var path := [Unalias(t, mime)];
      assert IsPath(t, path);
    } else {
      SubclassMeaning(t, mime, base, rank);
      forall path | IsPath(t, path)
        ensures Reaches(t, mime, base, path) <==> path[0] == Unalias(t, mime) && Accepts(path[|path| - 1], Unalias(t, base))
      {
        AlikeAccepts(Unalias(t, base), BaseAt(t, base, |path|), path[|path| - 1]);
      }
    }
  }

  /** The first level whose base is not like the first one. */
  lemma FirstUnlike(t: Tables, base: string) returns (n: nat)
    requires !BasesAlike(t, base)
    ensures n > 1 && !Alike(Unalias(t, base), BaseAt(t, base, n))
    ensures forall j :: 0 < j < n ==> Alike(Unalias(t, base), BaseAt(t, base, j))
  {
    var m :| m > 0 && !Alike(Unalias(t, base), BaseAt(t, base, m));
    BaseAtNext(t, base, 0);
    n := 1;
    while Alike(Unalias(t, base), BaseAt(t, base, n))
      invariant 0 < n <= m
      invariant forall j :: 0 < j < n ==> Alike(Unalias(t, base), BaseAt(t, base, j))
      decreases m - n
    {
      n := n + 1;
    }
  }

  /** A base that moves to one that accepts other types fails on some table of parents. */
  lemma Unlike(alias: map<string, string>, base: string) returns (parents: map<string, seq<string>>, mime: string, rank: string -> nat)
    requires Unalias(Tables(alias, map[]), base) != OCTETS && !BasesAlike(Tables(alias, map[]), base)
    ensures var t := Tables(alias, parents); Acyclic(t, rank) && Subclass(t, mime, base, rank) != ReachesBase(t, mime, base)
  {
    var t0 := Tables(alias, map[]);
    var n := FirstUnlike(t0, base);
    BaseAtNext(t0, base, n - 1);
    var last := Different(t0, base, BaseAt(t0, base, n - 1));
    var bases := BaseSeq(t0, base, n);
    BaseAtNext(t0, base, 0);
    RefusedBases(t0, base, n, bases);
    parents, mime, rank := LadderFor(alias, n, last, bases);
  }

  lemma RefusedBases(t: Tables, base: string, n: nat, bases: seq<string>)
    requires |bases| == n + 1 && (forall j :: 0 <= j <= n ==> bases[j] == BaseAt(t, base, j)) && Unalias(t, base) != OCTETS
    requires forall j :: 0 < j < n ==> Alike(Unalias(t, base), BaseAt(t, base, j))
    ensures forall j :: 0 < j < n ==> bases[j] != OCTETS
  {
    forall j | 0 < j < n ensures bases[j] != OCTETS {
      assert Alike(Unalias(t, base), BaseAt(t, base, j));
    }
  }

  /** A ladder longer than all names involved. */
  lemma LadderFor(alias: map<string, string>, n: nat, last: string, bases: seq<string>)
    returns (parents: map<string, seq<string>>, mime: string, rank: string -> nat)
    requires n > 1 && |bases| == n + 1 && Moves(Tables(alias, map[]), bases) && forall j :: 0 < j < n ==> bases[j] != OCTETS
    requires var x := Unalias(Tables(alias, map[]), last); Accepts(x, bases[1]) != Accepts(x, bases[n])
    ensures var t := Tables(alias, parents); Acyclic(t, rank) && Subclass(t, mime, bases[0], rank) != ReachesBase(t, mime, bases[0])
  {
    var t0 := Tables(alias, map[]);
    var names := alias.Keys + (set b | b in bases) + {last, Unalias(t0, last)};
    var start := Longer(names);
    parents, mime, rank := Ladder(start, n, last), Stroke(start), LadderRank(start, n);
    var t := Tables(alias, parents);
    forall j | 0 < j < n ensures bases[j] != OCTETS && |bases[j]| < start { assert bases[j] in names; }
    forall j | 0 <= j < n ensures MovesAt(t, bases, j) { assert MovesAt(t0, bases, j); }
    OnTheLadder(t, n, start, last, bases, rank);
  }

  /** The bases of the levels up to `n`. */
  lemma {:induction false} BaseSeq(t: Tables, base: string, n: nat) returns (bases: seq<string>)
    ensures |bases| == n + 1 && Moves(t, bases) && forall j :: 0 <= j <= n ==> bases[j] == BaseAt(t, base, j)
  {
    if n == 0 {
      bases := [base];
    } else {
      var before := BaseSeq(t, base, n - 1);
      BaseAtNext(t, base, n - 1);
      bases := before + [BaseAt(t, base, n)];
      forall j | 0 <= j < n ensures MovesAt(t, bases, j) { assert j < n - 1 ==> MovesAt(t, before, j); }
    }
  }

  lemma OnTheLadder(t: Tables, n: nat, start: nat, last: string, bases: seq<string>, rank: string -> nat)
    requires OnLadder(t, start, n, last) && rank == LadderRank(start, n)
    requires |bases| == n + 1 && n > 0 && Moves(t, bases) && Refusing(start, bases) && bases[1] != OCTETS && |bases[1]| < start
    requires Accepts(Unalias(t, last), bases[1]) != Accepts(Unalias(t, last), bases[n])
    ensures Acyclic(t, rank) && Subclass(t, Stroke(start), bases[0], rank) != ReachesBase(t, Stroke(start), bases[0])
  {
    LadderAcyclic(t, start, n, last);
    assert MovesAt(t, bases, 0);
    ReachOnLadder(t, start, n, last, bases[0], Stroke(start));
    LastRung(t, start, n, last, bases[n - 1], rank);
    assert MovesAt(t, bases, n - 1);
    TestOnLadder(t, start, n, last, bases, rank);
  }

  lemma {:induction false} SameBases(t: Tables, u: Tables, base: string, level: nat)
    requires t.alias == u.alias
    ensures BaseAt(t, base, level) == BaseAt(u, base, level)
    decreases level
  {
    if level > 0 { SameBases(t, u, Unalias(t, base), level - 1); }
  }

  /** The test is reachability on every acyclic table of parents exactly when the resolved base
      accepts everything or the base moves only between names that accept the same types. */
  lemma ReachabilityExact(alias: map<string, string>, base: string)
    ensures AlwaysReachability(alias, base)
       <==> Unalias(Tables(alias, map[]), base) == OCTETS || BasesAlike(Tables(alias, map[]), base)
  {
    var t0 := Tables(alias, map[]);
    if Unalias(t0, base) == OCTETS || BasesAlike(t0, base) {
      forall parents, mime, rank | Acyclic(Tables(alias, parents), rank)
        ensures Subclass(Tables(alias, parents), mime, base, rank) <==> ReachesBase(Tables(alias, parents), mime, base)
      {
        var t := Tables(alias, parents);
        forall j ensures BaseAt(t, base, j) == BaseAt(t0, base, j) { SameBases(t, t0, base, j); }
        AlikeIsEnough(t, mime, base, rank);
      }
    } else {
      var parents, mime, rank := Unlike(alias, base);
      assert Acyclic(Tables(alias, parents), rank);
    }
  }
}
