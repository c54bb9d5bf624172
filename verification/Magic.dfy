/** Magic rules: flat lists of matchlets with indents, and the forests they stand for. */
module Magic {
  import opened CStrings
  import opened PackedBuffer

  datatype Matchlet = Matchlet(indent: nat, offset: nat, value: seq<Byte>, mask: Option<seq<Byte>>, rangeLength: nat, wordSize: nat)

  function And(a: Byte, b: Byte): Byte {
    ((a as bv8) & (b as bv8)) as nat
  }

  // ----- the bits of a byte -----

  /** Bit `k` of a number. */
  predicate Bit(a: nat, k: nat) {
    if k == 0 then a % 2 == 1 else Bit(a / 2, k - 1)
  }

  lemma Back(x: bv8)
    ensures (x as nat) as bv8 == x
  {
  }

  lemma AndIs(a: Byte, b: Byte, x: bv8, y: bv8)
    requires a as bv8 == x && b as bv8 == y
    ensures And(a, b) == (x & y) as nat
  {
  }

  lemma AndOfBits(x: bv8, y: bv8)
    ensures And(x as nat, y as nat) == (x & y) as nat
  {
    hide And;
    Back(x);
    Back(y);
    AndIs(x as nat, y as nat, x, y);
  }

  lemma Halved(x: bv8)
    ensures (x >> 1) as nat == (x as nat) / 2
  {
  }

  lemma LowBit(x: bv8)
    ensures x & 1 == 1 <==> (x as nat) % 2 == 1
  {
  }

  lemma BitsOfAnd(x: bv8, y: bv8)
    ensures (x & y) >> 1 == (x >> 1) & (y >> 1) && ((x & y) & 1 == 1 <==> x & 1 == 1 && y & 1 == 1)
  {
  }

  lemma AndHalved(x: bv8, y: bv8)
    ensures And(x as nat, y as nat) / 2 == And((x as nat) / 2, (y as nat) / 2)
    ensures And(x as nat, y as nat) % 2 == 1 <==> (x as nat) % 2 == 1 && (y as nat) % 2 == 1
  {
    hide And;
    AndOfBits(x, y);
    AndOfBits(x >> 1, y >> 1);
    Halved(x);
    Halved(y);
    Halved(x & y);
    LowBit(x);
    LowBit(y);
    LowBit(x & y);
    BitsOfAnd(x, y);
  }

  lemma AsBits(a: Byte)
    ensures (a as bv8) as nat == a
  {
    var x := a as bv8;
    assert x as nat < 256;
    assert x as nat == a;
  }

  lemma AndHalves(a: Byte, b: Byte)
    ensures And(a, b) / 2 == And(a / 2, b / 2) && (And(a, b) % 2 == 1 <==> a % 2 == 1 && b % 2 == 1)
  {
    hide And;
    AsBits(a);
    AsBits(b);
    AndHalved(a as bv8, b as bv8);
  }

  lemma {:induction false} AndBits(a: Byte, b: Byte, k: nat)
    ensures Bit(And(a, b), k) <==> Bit(a, k) && Bit(b, k)
  {
    AndHalves(a, b);
    if k > 0 { AndBits(a / 2, b / 2, k - 1); }
  }

  /** Numbers with the same bits are equal. */
  lemma {:induction false} SameBits(a: nat, b: nat)
    requires forall k: nat :: Bit(a, k) <==> Bit(b, k)
    ensures a == b
    decreases a + b
  {
    assert Bit(a, 0) <==> Bit(b, 0);
    if a + b > 0 {
      forall k: nat ensures Bit(a / 2, k) <==> Bit(b / 2, k) {
        assert Bit(a, k + 1) <==> Bit(b, k + 1);
      }
      SameBits(a / 2, b / 2);
    }
  }

  /** The two bytes agree in the bits of the mask. */
  ghost predicate AgreeUnder(mask: Byte, a: Byte, b: Byte) {
    forall k: nat :: Bit(mask, k) ==> (Bit(a, k) <==> Bit(b, k))
  }

  /** Masked bytes are equal exactly when the bytes agree in the bits of the mask. */
  lemma MaskedEqual(mask: Byte, a: Byte, b: Byte)
    ensures And(a, mask) == And(b, mask) <==> AgreeUnder(mask, a, b)
  {
    forall k: nat
      ensures Bit(And(a, mask), k) <==> Bit(a, k) && Bit(mask, k)
      ensures Bit(And(b, mask), k) <==> Bit(b, k) && Bit(mask, k)
    {
      AndBits(a, mask, k);
      AndBits(b, mask, k);
    }
    if AgreeUnder(mask, a, b) {
      SameBits(And(a, mask), And(b, mask));
    }
  }

  // ----- one matchlet -----

  predicate ByteFits(m: Matchlet, data: seq<Byte>, i: nat, j: nat)
    requires j < |m.value| && i + j < |data|
  {
    if m.mask.Some? then j < |m.mask.value| && And(m.value[j], m.mask.value[j]) == And(data[i + j], m.mask.value[j])
    else m.value[j] == data[i + j]
  }

  /** The value stands at position `i` of the data, under the mask. */
  predicate FitsAt(m: Matchlet, data: seq<Byte>, i: nat)
  {
    i + |m.value| <= |data| && forall j :: 0 <= j < |m.value| ==> ByteFits(m, data, i, j)
  }

  /** The value stands somewhere in the range of the matchlet. */
  predicate Fits(m: Matchlet, data: seq<Byte>)
  {
    exists i :: m.offset <= i < m.offset + m.rangeLength && FitsAt(m, data, i)
  }

  ghost predicate StandsIn(value: seq<Byte>, data: seq<Byte>, i: nat) {
    i + |value| <= |data| && data[i..i + |value|] == value
  }

  /** Without a mask the value stands in the data, at a place in the range. */
  lemma FitsPlain(m: Matchlet, data: seq<Byte>)
    requires m.mask.None?
    ensures Fits(m, data) <==> exists i: nat :: m.offset <= i < m.offset + m.rangeLength && StandsIn(m.value, data, i)
  {
    forall i: nat | m.offset <= i < m.offset + m.rangeLength ensures FitsAt(m, data, i) <==> StandsIn(m.value, data, i) {
      if i + |m.value| <= |data| {
        var part := data[i..i + |m.value|];
        assert forall j :: 0 <= j < |m.value| ==> part[j] == data[i + j] && (ByteFits(m, data, i, j) <==> m.value[j] == part[j]);
      }
    }
    if Fits(m, data) {
      var i :| m.offset <= i < m.offset + m.rangeLength && FitsAt(m, data, i);
      assert StandsIn(m.value, data, i);
    }
  }

  /** The value stands at `i` in the bits of the mask. */
  ghost predicate StandsUnder(value: seq<Byte>, mask: seq<Byte>, data: seq<Byte>, i: nat)
    requires |mask| == |value|
  {
    i + |value| <= |data| && forall j :: 0 <= j < |value| ==> AgreeUnder(mask[j], value[j], data[i + j])
  }

  /** With a mask only its bits count. */
  lemma FitsMasked(m: Matchlet, data: seq<Byte>)
    requires m.mask.Some? && |m.mask.value| == |m.value|
    ensures Fits(m, data) <==> exists i: nat :: m.offset <= i < m.offset + m.rangeLength && StandsUnder(m.value, m.mask.value, data, i)
  {
    hide And, AgreeUnder;
    forall i: nat | m.offset <= i < m.offset + m.rangeLength ensures FitsAt(m, data, i) <==> StandsUnder(m.value, m.mask.value, data, i) {
      if i + |m.value| <= |data| {
        forall j | 0 <= j < |m.value| ensures ByteFits(m, data, i, j) <==> AgreeUnder(m.mask.value[j], m.value[j], data[i + j]) {
          MaskedEqual(m.mask.value[j], m.value[j], data[i + j]);
        }
      }
    }
    if Fits(m, data) {
      var i :| m.offset <= i < m.offset + m.rangeLength && FitsAt(m, data, i);
      assert StandsUnder(m.value, m.mask.value, data, i);
    }
  }

  /** The comparison loops of both forms: `_xdg_mime_magic_matchlet_compare_to_data`
      and `cache_magic_matchlet_compare_to_data`. */
  method CompareToData(m: Matchlet, data: seq<Byte>) returns (res: bool)
    ensures res <==> Fits(m, data)
  {
    var i := m.offset;
    while i < m.offset + m.rangeLength
      invariant m.offset <= i
      invariant forall k :: m.offset <= k < i ==> !FitsAt(m, data, k)
    {
      if i + |m.value| > |data| { return false; }
      var valid, j := true, 0;
      while j < |m.value| && valid
        invariant 0 <= j <= |m.value|
        invariant valid ==> forall k :: 0 <= k < j ==> ByteFits(m, data, i, k)
        invariant !valid ==> !FitsAt(m, data, i)
        decreases |m.value| - j, valid
      {
        if ByteFits(m, data, i, j) {
          j := j + 1;
        } else {
          valid := false;
        }
      }
      if valid {
        assert FitsAt(m, data, i);
        return true;
      }
      i := i + 1;
    }
    res := false;
  }

  // ----- the flat list -----

  /** The matchlets after those deeper than `indent`. */
  function Skip(ms: seq<Matchlet>, indent: nat): (r: seq<Matchlet>)
    ensures |r| <= |ms|
  {
    if ms != [] && ms[0].indent > indent then Skip(ms[1..], indent) else ms
  }

  /** What the level evaluator computes from the matchlets that are left. */
  ghost predicate Level(ms: seq<Matchlet>, data: seq<Byte>, indent: nat)
    decreases |ms|
  {
    && ms != [] && ms[0].indent == indent
    && (|| (Fits(ms[0], data) && (|ms| == 1 || ms[1].indent <= indent || Level(ms[1..], data, indent + 1)))
        || Level(Skip(ms[1..], indent), data, indent))
  }

  // ----- the forest -----

  /** First child and next sibling. */
  datatype Forest = Nil | More(m: Matchlet, kids: Forest, rest: Forest)

  ghost predicate Indented(f: Forest, d: nat) {
    f.More? ==> f.m.indent == d && Indented(f.kids, d + 1) && Indented(f.rest, d)
  }

  function Flatten(f: Forest): seq<Matchlet> {
    match f
    case Nil => []
    case More(m, kids, rest) => [m] + (Flatten(kids) + Flatten(rest))
  }

  /** Some root has a matching path below it. */
  ghost predicate Succeeds(f: Forest, data: seq<Byte>)
  {
    f.More? && ((Fits(f.m, data) && (f.kids.Nil? || Succeeds(f.kids, data))) || Succeeds(f.rest, data))
  }

  /** `p` runs from a root of the forest to a leaf. */
  ghost predicate IsPath(f: Forest, p: seq<Matchlet>) {
    && f.More?
    && (|| (p != [] && p[0] == f.m && if f.kids.Nil? then |p| == 1 else IsPath(f.kids, p[1..]))
        || IsPath(f.rest, p))
  }

  ghost predicate AllFit(p: seq<Matchlet>, data: seq<Byte>) {
    forall i :: 0 <= i < |p| ==> Fits(p[i], data)
  }

  lemma {:induction false} PathSucceeds(f: Forest, p: seq<Matchlet>, data: seq<Byte>)
    requires IsPath(f, p) && AllFit(p, data)
    ensures Succeeds(f, data)
  {
    if p != [] && p[0] == f.m && (if f.kids.Nil? then |p| == 1 else IsPath(f.kids, p[1..])) {
      if f.kids.More? { PathSucceeds(f.kids, p[1..], data); }
    } else {
      PathSucceeds(f.rest, p, data);
    }
  }

  lemma {:induction false} SuccessPath(f: Forest, data: seq<Byte>) returns (p: seq<Matchlet>)
    requires Succeeds(f, data)
    ensures IsPath(f, p) && AllFit(p, data)
  {
    if Fits(f.m, data) && (f.kids.Nil? || Succeeds(f.kids, data)) {
      p := [];
      if f.kids.More? { p := SuccessPath(f.kids, data); }
      p := [f.m] + p;
    } else {
      p := SuccessPath(f.rest, data);
    }
  }

  // ----- from lists to forests and back -----

  lemma {:induction false} SkipForest(f: Forest, e: nat, d: nat, tail: seq<Matchlet>)
    requires Indented(f, e) && d < e
    ensures Skip(Flatten(f) + tail, d) == Skip(tail, d)
  {
    if f.More? {
      var more := Flatten(f.rest) + tail;
      assert Flatten(f) + tail == [f.m] + (Flatten(f.kids) + more);
      SkipForest(f.kids, e + 1, d, more);
      SkipForest(f.rest, e, d, tail);
    } else {
      assert [] + tail == tail;
    }
  }

  /** The list ends, or goes on with something less deep. */
  predicate Ends(tail: seq<Matchlet>, d: nat) {
    tail == [] || tail[0].indent < d
  }

  lemma LevelOfCons(m: Matchlet, below: seq<Matchlet>, data: seq<Byte>, d: nat)
    requires m.indent == d
    ensures Level([m] + below, data, d)
       <==> (|| (Fits(m, data) && (below == [] || below[0].indent <= d || Level(below, data, d + 1)))
             || Level(Skip(below, d), data, d))
  {
    var all := [m] + below;
    assert all[1..] == below && all[0] == m;
  }

  /** The level evaluator computes the forest it reads. */
  lemma {:induction false} LevelIsForest(f: Forest, d: nat, tail: seq<Matchlet>, data: seq<Byte>)
    requires Indented(f, d) && Ends(tail, d)
    ensures Level(Flatten(f) + tail, data, d) <==> Succeeds(f, data)
  {
    if f.Nil? {
      assert Flatten(f) + tail == tail;
    } else {
      var more := Flatten(f.rest) + tail;
      var below := Flatten(f.kids) + more;
      assert Flatten(f) + tail == [f.m] + below;
      LevelIsForest(f.rest, d, tail, data);
      FirstOf(f.rest, d, tail);
      LevelIsForest(f.kids, d + 1, more, data);
      FirstOf(f.kids, d + 1, more);
      LevelOfCons(f.m, below, data, d);
      SkipForest(f.kids, d + 1, d, more);
    }
  }

  lemma FirstOf(f: Forest, d: nat, tail: seq<Matchlet>)
    requires Indented(f, d) && Ends(tail, d)
    ensures Ends(Flatten(f) + tail, d + 1)
    ensures Skip(Flatten(f) + tail, d) == Flatten(f) + tail
    ensures f.Nil? ==> Flatten(f) + tail == tail
    ensures f.More? ==> Flatten(f) + tail != [] && (Flatten(f) + tail)[0].indent == d
  {
    if f.More? { assert (Flatten(f) + tail)[0] == f.m; }
  }

  datatype Parsed = Parsed(forest: Forest, tail: seq<Matchlet>)

  /** The siblings at depth `d` with what is below them, and what comes after. */
  function Parse(ms: seq<Matchlet>, d: nat): (r: Parsed)
    ensures |r.tail| <= |ms|
    decreases |ms|
  {
    if ms == [] || ms[0].indent != d then Parsed(Nil, ms)
    else
      var kids := Parse(ms[1..], d + 1);
      var rest := Parse(kids.tail, d);
      Parsed(More(ms[0], kids.forest, rest.forest), rest.tail)
  }

  /** Indents rise by at most one from matchlet to matchlet. */
  ghost predicate Rising(ms: seq<Matchlet>) {
    forall i :: 0 <= i < |ms| - 1 ==> ms[i + 1].indent <= ms[i].indent + 1
  }

  /** Parsing loses nothing, */
  lemma {:induction false} ParseIsInverse(ms: seq<Matchlet>, d: nat)
    ensures ms == Flatten(Parse(ms, d).forest) + Parse(ms, d).tail
    ensures Indented(Parse(ms, d).forest, d)
    decreases |ms|
  {
    if ms != [] && ms[0].indent == d {
      var kids := Parse(ms[1..], d + 1);
      var rest := Parse(kids.tail, d);
      ParseIsInverse(ms[1..], d + 1);
      ParseIsInverse(kids.tail, d);
      Regroup(ms, Flatten(kids.forest), Flatten(rest.forest), rest.tail);
    } else {
      assert [] + ms == ms;
    }
  }

  lemma Regroup<X>(ms: seq<X>, a: seq<X>, b: seq<X>, tail: seq<X>)
    requires ms != [] && ms[1..] == a + (b + tail)
    ensures ms == [ms[0]] + (a + b) + tail
  {
    assert ms == [ms[0]] + ms[1..];
  }

  /** and it ends at something less deep when indents rise by one at most. */
  lemma {:induction false} ParseEnds(ms: seq<Matchlet>, d: nat)
    requires Rising(ms) && (ms == [] || ms[0].indent <= d)
    ensures Ends(Parse(ms, d).tail, d) && Rising(Parse(ms, d).tail)
    decreases |ms|
  {
    if ms != [] && ms[0].indent == d {
      assert Rising(ms[1..]) by {
        assert forall i :: 0 <= i < |ms[1..]| ==> ms[1..][i] == ms[i + 1];
      }
      assert |ms| > 1 ==> ms[0 + 1].indent <= d + 1;
      ParseEnds(ms[1..], d + 1);
      ParseEnds(Parse(ms[1..], d + 1).tail, d);
    }
  }

  lemma SucceedsMeansPath(f: Forest, data: seq<Byte>)
    ensures Succeeds(f, data) <==> exists p :: IsPath(f, p) && AllFit(p, data)
  {
    if Succeeds(f, data) {
      var p := SuccessPath(f, data);
    }
    forall p | IsPath(f, p) && AllFit(p, data) ensures Succeeds(f, data) {
      PathSucceeds(f, p, data);
    }
  }

  /** A list that starts at indent 0 and rises by at most one is accepted exactly
      when its forest has a path from a root to a leaf that matches throughout. */
  lemma LevelMeansPath(ms: seq<Matchlet>, data: seq<Byte>)
    requires Rising(ms) && (ms == [] || ms[0].indent == 0)
    ensures Flatten(Parse(ms, 0).forest) == ms
    ensures Level(ms, data, 0) <==> Succeeds(Parse(ms, 0).forest, data)
    ensures Level(ms, data, 0) <==> exists p :: IsPath(Parse(ms, 0).forest, p) && AllFit(p, data)
  {
    var f := Parse(ms, 0).forest;
    ParseIsInverse(ms, 0);
    ParseEnds(ms, 0);
    assert Flatten(f) + [] == Flatten(f);
    LevelIsForest(f, 0, [], data);
    SucceedsMeansPath(f, data);
  }
}
