/** MIME types: aliases, and which type is a subclass of which. */
module MimeTypes {
  import opened CStrings

  /** The alias list and the parent list, by name. */
  datatype Tables = Tables(alias: map<string, string>, parents: map<string, seq<string>>)

  /** `_xdg_mime_unalias_mime_type`. */
  function Unalias(t: Tables, mime: string): string {
    if mime in t.alias then t.alias[mime] else mime
  }

  /** `_xdg_mime_mime_type_equal`. */
  predicate TypeEqual(t: Tables, a: string, b: string) {
    StrCmp(Unalias(t, a), Unalias(t, b)) == 0
  }

  /** Equality is equality of the resolved names, so it is an equivalence. */
  lemma TypeEqualMeaning(t: Tables, a: string, b: string)
    ensures TypeEqual(t, a, b) <==> Unalias(t, a) == Unalias(t, b)
  {
    StrCmpZero(Unalias(t, a), Unalias(t, b));
  }

  function Parents(t: Tables, mime: string): seq<string> {
    if mime in t.parents then t.parents[mime] else []
  }

  /** The position of the first `c`, or the length. */
  function Index(s: string, c: char): (i: nat)
    ensures i <= |s| && (i < |s| ==> s[i] == c) && forall j :: 0 <= j < i ==> s[j] != c
  {
    if s == [] || s[0] == c then 0 else 1 + Index(s[1..], c)
  }

  lemma {:induction false} IndexIs(s: string, c: char, i: nat)
    requires i <= |s| && (i < |s| ==> s[i] == c) && forall k :: 0 <= k < i ==> s[k] != c
    ensures Index(s, c) == i
  {
    if i > 0 { IndexIs(s[1..], c, i - 1); }
  }

  /** `xdg_mime_media_type_equal`: the same text up to the first slash. */
  predicate MediaEqual(a: string, b: string) {
    var i := Index(a, '/');
    i < |a| && a[..i + 1] <= b
  }

  /** `xdg_mime_is_super_type`. */
  predicate SuperType(mime: string) {
    |mime| >= 2 && mime[|mime| - 2..] == "/*"
  }

  /** A resolved type is accepted by a resolved base without looking at parents. */
  predicate Accepts(mime: string, base: string) {
    || StrCmp(mime, base) == 0
    || (SuperType(base) && MediaEqual(mime, base))
    || (base == "text/plain" && "text/" <= mime)
    || base == "application/octet-stream"
  }

  /** Media types are equal when the first type is `media/rest` and the second
      starts with `media/`. */
  lemma MediaMeaning(a: string, b: string)
    ensures MediaEqual(a, b) <==> exists media, rest, more :: '/' !in media && a == media + "/" + rest && b == media + "/" + more
  {
    var i := Index(a, '/');
    if MediaEqual(a, b) {
      MediaSplit(a, i);
      assert b[..i + 1] == a[..i + 1];
      MediaSplit(b, i);
      assert '/' !in a[..i];
    }
    if media, rest, more :| '/' !in media && a == media + "/" + rest && b == media + "/" + more {
      MediaIndex(media, rest);
      assert a[..|media| + 1] == media + "/" == b[..|media| + 1];
    }
  }

  lemma MediaSplit(a: string, i: nat)
    requires i < |a| && a[i] == '/'
    ensures a == a[..i] + "/" + a[i + 1..]
  {
  }

  lemma {:induction false} MediaIndex(media: string, rest: string)
    requires '/' !in media
    ensures Index(media + "/" + rest, '/') == |media|
  {
    if media != [] {
      assert (media + "/" + rest)[1..] == media[1..] + "/" + rest;
      MediaIndex(media[1..], rest);
    }
  }

  /** A type has one media type and one rest. */
  lemma OneSplit(media: string, rest: string, media': string, rest': string)
    requires '/' !in media && '/' !in media'
    ensures media + "/" + rest == media' + "/" + rest' <==> media == media' && rest == rest'
  {
    var a := media + "/" + rest;
    if a == media' + "/" + rest' {
      MediaIndex(media, rest);
      MediaIndex(media', rest');
      assert media == a[..|media|] && rest == a[|media| + 1..];
      assert media' == a[..|media|] && rest' == a[|media| + 1..];
    }
  }

  /** Only a star behind the slash makes a super type. */
  lemma SuperMeaning(media: string, rest: string)
    requires '/' !in rest
    ensures SuperType(media + "/" + rest) <==> rest == "*"
  {
    var a := media + "/" + rest;
    var n := |a|;
    assert n >= 2 ==> (a[n - 2..] == "/*" <==> a[n - 2] == '/' && a[n - 1] == '*');
    assert forall k :: 0 <= k < |rest| ==> a[|media| + 1 + k] == rest[k];
    assert rest == "*" <==> |rest| == 1 && rest[0] == '*';
  }

  lemma SameMedia(media: string, rest: string, media': string, rest': string)
    requires '/' !in media && '/' !in media'
    ensures MediaEqual(media + "/" + rest, media' + "/" + rest') <==> media == media'
  {
    var a, b := media + "/" + rest, media' + "/" + rest';
    MediaIndex(media, rest);
    assert a[..|media| + 1] == media + "/";
    if media + "/" <= b {
      MediaSplit(b, |media|);
      assert b[..|media|] == media;
      OneSplit(media, b[|media| + 1..], media', rest');
    }
    if media == media' {
      assert media + "/" <= b;
    }
  }

  lemma TextPlain(media: string, rest: string, base: string, text: string)
    requires '/' !in media && base == "text/plain" && text == "text"
    ensures media + "/" + rest == base <==> media == text && rest == "plain"
    ensures text + "/" == "text/" && ("text/" <= media + "/" + rest <==> media == text)
  {
    OneSplit(media, rest, text, "plain");
    assert text + "/" + "plain" == base && text + "/" == "text/";
    var a := media + "/" + rest;
    if "text/" <= a {
      assert a[..5] == "text/" == text + "/";
      assert a == a[..5] + a[5..];
      OneSplit(media, rest, text, a[5..]);
    }
    if media == text { assert "text/" <= a; }
  }

  lemma Octets(media: string, rest: string, base: string, application: string)
    requires '/' !in media && base == "application/octet-stream" && application == "application"
    ensures media + "/" + rest == base <==> media == application && rest == "octet-stream"
  {
    OneSplit(media, rest, application, "octet-stream");
    assert application + "/" + "octet-stream" == base;
  }

  /** A base accepts itself, with a star all types of its media type, as text/plain all text types, and as
      application/octet-stream every type. */
  lemma AcceptsMeaning(media: string, rest: string, base: string, kind: string)
    requires '/' !in media && '/' !in base && '/' !in kind
    ensures Accepts(media + "/" + rest, base + "/" + kind) <==>
      || (media == base && (rest == kind || kind == "*"))
      || (base == "text" && kind == "plain" && media == "text")
      || (base == "application" && kind == "octet-stream")
  {
    StrCmpZero(media + "/" + rest, base + "/" + kind);
    OneSplit(media, rest, base, kind);
    SuperMeaning(base, kind);
    SameMedia(media, rest, base, kind);
    TextPlain(base, kind, "text/plain", "text");
    TextPlain(media, rest, "text/plain", "text");
    Octets(base, kind, "application/octet-stream", "application");
    hide StrCmp, SuperType, MediaEqual;
  }

  // ----- the recursion -----

  /** The parents of a type, resolved, have a smaller rank: there are no cycles. */
  ghost predicate Acyclic(t: Tables, rank: string -> nat) {
    forall m, i :: 0 <= i < |Parents(t, m)| ==> rank(Unalias(t, Parents(t, m)[i])) < rank(m)
  }

  /** The recursion of the subclass test. */
  ghost predicate Subclass(t: Tables, mime: string, base: string, rank: string -> nat)
    requires Acyclic(t, rank)
    decreases rank(Unalias(t, mime))
  {
    var um, ub := Unalias(t, mime), Unalias(t, base);
    Accepts(um, ub) || exists i :: 0 <= i < |Parents(t, um)| && Subclass(t, Parents(t, um)[i], ub, rank)
  }

  /** The base is resolved once more at every level. */
  function BaseAt(t: Tables, base: string, level: nat): string
    decreases level
  {
    if level == 0 then base else BaseAt(t, Unalias(t, base), level - 1)
  }

  /** Each type of the path is a resolved parent of the one before. */
  ghost predicate IsPath(t: Tables, path: seq<string>)
    decreases |path|
  {
    && path != []
    && (|path| > 1 ==> (exists i :: 0 <= i < |Parents(t, path[0])| && path[1] == Unalias(t, Parents(t, path[0])[i])) && IsPath(t, path[1..]))
  }

  /** Some type reachable from the resolved type is accepted by the base, as resolved at its level. */
  ghost predicate Reaches(t: Tables, mime: string, base: string, path: seq<string>) {
    IsPath(t, path) && path[0] == Unalias(t, mime) && Accepts(path[|path| - 1], BaseAt(t, base, |path|))
  }

  lemma {:induction false} SubclassReaches(t: Tables, mime: string, base: string, rank: string -> nat) returns (path: seq<string>)
    requires Acyclic(t, rank) && Subclass(t, mime, base, rank)
    ensures Reaches(t, mime, base, path)
    decreases rank(Unalias(t, mime))
  {
    var um, ub := Unalias(t, mime), Unalias(t, base);
    if Accepts(um, ub) {
      path := [um];
      assert BaseAt(t, base, 1) == BaseAt(t, ub, 0);
    } else {
      var i :| 0 <= i < |Parents(t, um)| && Subclass(t, Parents(t, um)[i], ub, rank);
      var rest := SubclassReaches(t, Parents(t, um)[i], ub, rank);
      path := [um] + rest;
      assert path[1..] == rest && path[1] == rest[0];
    }
  }

  lemma {:induction false} ReachesSubclass(t: Tables, mime: string, base: string, rank: string -> nat, path: seq<string>)
    requires Acyclic(t, rank) && Reaches(t, mime, base, path)
    ensures Subclass(t, mime, base, rank)
    decreases |path|
  {
    var um, ub := Unalias(t, mime), Unalias(t, base);
    if |path| > 1 {
      var i :| 0 <= i < |Parents(t, path[0])| && path[1] == Unalias(t, Parents(t, path[0])[i]);
      assert path[1..][|path| - 2] == path[|path| - 1];
      ReachesSubclass(t, Parents(t, um)[i], ub, rank, path[1..]);
    } else {
      assert BaseAt(t, base, 1) == BaseAt(t, ub, 0);
    }
  }

  /** The test is true exactly when a reachable type is accepted. */
  lemma SubclassMeaning(t: Tables, mime: string, base: string, rank: string -> nat)
    requires Acyclic(t, rank)
    ensures Subclass(t, mime, base, rank) <==> exists path :: Reaches(t, mime, base, path)
  {
    if Subclass(t, mime, base, rank) {
      var path := SubclassReaches(t, mime, base, rank);
    }
    forall path | Reaches(t, mime, base, path) ensures Subclass(t, mime, base, rank) {
      ReachesSubclass(t, mime, base, rank, path);
    }
  }

  /** Resolving the resolved base once more changes nothing. */
  predicate Settled(t: Tables, base: string) {
    Unalias(t, Unalias(t, base)) == Unalias(t, base)
  }

  lemma {:induction false} BaseStays(t: Tables, base: string, level: nat)
    requires Settled(t, base) && level > 0
    ensures BaseAt(t, base, level) == Unalias(t, base)
    decreases level
  {
    if level == 1 {
      assert BaseAt(t, base, 1) == BaseAt(t, Unalias(t, base), 0);
    } else {
      BaseStays(t, Unalias(t, base), level - 1);
    }
  }

  /** Some type reachable from the resolved type is accepted directly by the resolved base. */
  ghost predicate ReachesBase(t: Tables, mime: string, base: string) {
    exists path :: IsPath(t, path) && path[0] == Unalias(t, mime) && Accepts(path[|path| - 1], Unalias(t, base))
  }

  /** When the base resolves in one step, it is the same at every level. */
  lemma ResolvedMeaning(t: Tables, mime: string, base: string, rank: string -> nat)
    requires Acyclic(t, rank) && Settled(t, base)
    ensures Subclass(t, mime, base, rank) <==> ReachesBase(t, mime, base)
  {
    SubclassMeaning(t, mime, base, rank);
    forall path | IsPath(t, path)
      ensures Reaches(t, mime, base, path) <==> path[0] == Unalias(t, mime) && Accepts(path[|path| - 1], Unalias(t, base))
    {
      BaseStays(t, base, |path|);
    }
  }

  function RankOfM(mime: string): nat {
    if mime == "m" then 1 else 0
  }

  /** With an alias of an alias the base moves on at each level, and the parent
      that is the base itself is missed. */
  lemma MovingBase()
    ensures
      var t := Tables(map["b" := "c", "c" := "d"], map["m" := ["b"]]);
      !Settled(t, "b") && Acyclic(t, RankOfM) && t.parents["m"] == ["b"] && !Subclass(t, "m", "b", RankOfM)
  {
    var t := Tables(map["b" := "c", "c" := "d"], map["m" := ["b"]]);
    assert t.alias["b"] == "c" && t.alias["c"] == "d";
    assert Unalias(t, "m") == "m" && Unalias(t, "b") == "c" && Unalias(t, "c") == "d";
    StrCmpZero("m", "c");
    StrCmpZero("c", "d");
    assert !Accepts("m", "c") && !Accepts("c", "d");
    assert Parents(t, "m") == ["b"] && Parents(t, "c") == [];
    assert !Subclass(t, "b", "c", RankOfM);
  }
}
