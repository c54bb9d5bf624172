/** The suffix tables of a mapped cache file, searched in two halves at each level. */
module GlobCache {
  import opened CStrings
  import opened GlobTrie
  import opened GlobLookup
  import opened GlobHeap
  import opened PackedBuffer

  const ENTRY := 12

  /** `n` entries at `off` hold the level `ts`. */
  ghost predicate Packed(buf: seq<Byte>, n: nat, off: nat, ts: seq<Trie>)
    decreases ts
  {
    && n == |ts| && off + ENTRY * n <= |buf|
    && forall i {:trigger ts[i]} :: 0 <= i < n ==> PackedNode(buf, off + ENTRY * i, ts[i])
  }

  /** An entry is a character with its children, or a zero with a type. */
  ghost predicate PackedNode(buf: seq<Byte>, at: nat, t: Trie)
    decreases t
  {
    && at + ENTRY <= |buf| && U32(buf, at) == t.character as nat
    && if t.character == NUL
       then t.own == Some(TypeAt(buf, at)) && t.kids == []
       else t.own == None && Packed(buf, U32(buf, at + 4), U32(buf, at + 8), t.kids)
  }

  /** The type of a zero entry: a string, a weight byte and the case flag. */
  function TypeAt(buf: seq<Byte>, at: nat): (g: Glob)
    requires at + ENTRY <= |buf|
    ensures 0 <= g.weight < 256
    ensures U32(buf, at + 8) < 512 ==> U32(buf, at + 8) == g.weight + if g.caseSensitive then 256 else 0
  {
    var w := U32(buf, at + 8);
    Glob(StringAt(buf, U32(buf, at + 4)), w % 256, w / 256 % 2 == 1)
  }

  /** The zero entries that follow each other from entry `i`. */
  method CollectPacked(buf: seq<Byte>, n: nat, off: nat, caseCheck: bool, out: array<MimeWeight>, cap: nat, ghost ts: seq<Trie>)
    returns (m: nat)
    requires Packed(buf, n, off, ts) && cap <= out.Length
    modifies out
    ensures m <= cap && out[..m] == Weighted(Capped(Eligible(Extras(ts), caseCheck), cap))
  {
    var i := 0;
    m := 0;
    ghost var now: seq<Glob>, total := [], Eligible(Extras(ts), caseCheck);
    assert ts[0..] == ts && [] + total == total;
    while m < cap && i < n && U32(buf, off + ENTRY * i) == 0
      invariant 0 <= i <= n && m == |now| <= cap && out[..m] == Weighted(now)
      invariant total == now + Eligible(Extras(ts[i..]), caseCheck)
    {
      assert PackedNode(buf, off + ENTRY * i, ts[i]);
      var g := TypeAt(buf, off + ENTRY * i);
      ghost var i1 := i + 1;
      ZeroStep(ts, i, i1, caseCheck, total, now);
      m := Offered(Some(g), caseCheck, out, m, now);
      now := now + Eligible(Listed(ts[i].own), caseCheck);
      i := i + 1;
    }
    assert i < n ==> PackedNode(buf, off + ENTRY * i, ts[i]);
    LastZero(ts, i, caseCheck, total, now, cap);
  }

  /** Entries before a small one are small, entries after a large one large. */
  lemma Halves(ts: seq<Trie>, mid: nat, c: char)
    requires Increasing(ts) && mid < |ts| && c != NUL
    ensures ts[mid].character <= c ==> forall i :: 0 <= i < mid ==> ts[i].character < c
    ensures ts[mid].character >= c ==> forall i :: mid < i < |ts| ==> ts[i].character > c
  {
    NulIsLeast(c);
  }

  /** The search in halves for the entry of `c`. */
  method Bisect(buf: seq<Byte>, n: nat, off: nat, c: char, ghost ts: seq<Trie>) returns (mid: nat, found: bool)
    requires Packed(buf, n, off, ts) && Increasing(ts) && c != NUL
    ensures found <==> Found(ts, c)
    ensures found ==> mid == Seek(ts, c)
  {
    hide Seek;
    var min, max := 0, n - 1;
    mid := 0;
    while max >= min
      invariant 0 <= min <= max + 1 <= n
      invariant forall i :: 0 <= i < min ==> ts[i].character < c
      invariant forall i :: max < i < n ==> ts[i].character > c
    {
      mid := (min + max) / 2;
      assert PackedNode(buf, off + ENTRY * mid, ts[mid]);
      Halves(ts, mid, c);
      var ch := U32(buf, off + ENTRY * mid);
      if ch < c as nat {
        min := mid + 1;
      } else if ch > c as nat {
        max := mid - 1;
      } else {
        SeekIs(ts, c, mid);
        return mid, true;
      }
    }
    found := false;
    SeekIs(ts, c, min);
  }

  /** `cache_glob_node_lookup_suffix`: what the linked trie of the same level would give. */
  method LookupSuffix(buf: seq<Byte>, n: nat, off: nat, name: string, len: nat, caseCheck: bool,
                      out: array<MimeWeight>, cap: nat, ghost ts: seq<Trie>)
    returns (m: nat)
    requires Packed(buf, n, off, ts) && Formed(ts) && Plain(name) && 0 < len <= |name| && 0 < cap <= out.Length
    modifies out
    ensures m <= cap && out[..m] == Weighted(Capped(Lookup(ts, FromEnd(name, len), caseCheck), cap))
    decreases len
  {
    hide FromEnd;
    ghost var text := FromEnd(name, len);
    assert text[0] == name[len - 1] && text[1..] == FromEnd(name, len - 1);
    var mid, found := Bisect(buf, n, off, name[len - 1], ts);
    m := 0;
    if found {
      ghost var t := ts[mid];
      assert PackedNode(buf, off + ENTRY * mid, t) && FormedNode(t);
      var children, childOffset := U32(buf, off + ENTRY * mid + 4), U32(buf, off + ENTRY * mid + 8);
      if len > 1 {
        m := LookupSuffix(buf, children, childOffset, name, len - 1, caseCheck, out, cap, t.kids);
      }
      if m == 0 {
        m := CollectPacked(buf, children, childOffset, caseCheck, out, cap, t.kids);
        assert TypesOf(t) == Extras(t.kids);
      }
    }
  }

  /** A mapped file whose suffix section holds `ts`. */
  ghost predicate Holding(buf: seq<Byte>, ts: seq<Trie>) {
    && 20 <= |buf| && U32(buf, 16) + 8 <= |buf|
    && Packed(buf, U32(buf, U32(buf, 16)), U32(buf, U32(buf, 16) + 4), ts) && Formed(ts)
  }

  /** The first cache with any type for the name decides. */
  function FirstOffer(tss: seq<seq<Trie>>, text: string, caseCheck: bool): seq<Glob>
    requires text != []
  {
    if tss == [] then []
    else
      var gs := Lookup(tss[0], text, caseCheck);
      if gs != [] then gs else FirstOffer(tss[1..], text, caseCheck)
  }

  /** It is the lookup in some file, after files that have nothing. */
  lemma {:induction false} FirstOfferIs(tss: seq<seq<Trie>>, text: string, caseCheck: bool, i: nat)
    requires text != [] && i < |tss| && Lookup(tss[i], text, caseCheck) != []
    requires forall j :: 0 <= j < i ==> Lookup(tss[j], text, caseCheck) == []
    ensures FirstOffer(tss, text, caseCheck) == Lookup(tss[i], text, caseCheck)
  {
    if i > 0 {
      FirstOfferIs(tss[1..], text, caseCheck, i - 1);
    }
  }

  lemma {:induction false} NoOffer(tss: seq<seq<Trie>>, text: string, caseCheck: bool)
    requires text != [] && forall i :: 0 <= i < |tss| ==> Lookup(tss[i], text, caseCheck) == []
    ensures FirstOffer(tss, text, caseCheck) == []
  {
    if tss != [] { NoOffer(tss[1..], text, caseCheck); }
  }

  /** `cache_glob_lookup_suffix`, over the mapped files in order. */
  method LookupCaches(bufs: seq<seq<Byte>>, name: string, caseCheck: bool, out: array<MimeWeight>, cap: nat, ghost tss: seq<seq<Trie>>)
    returns (m: nat)
    requires |bufs| == |tss| && forall i :: 0 <= i < |bufs| ==> Holding(bufs[i], tss[i])
    requires Plain(name) && 0 < cap <= out.Length
    modifies out
    ensures m <= cap && out[..m] == Weighted(Capped(FirstOffer(tss, FromEnd(name, |name|), caseCheck), cap))
  {
    ghost var text := FromEnd(name, |name|);
    assert tss[0..] == tss;
    for i := 0 to |bufs|
      invariant FirstOffer(tss, text, caseCheck) == FirstOffer(tss[i..], text, caseCheck)
    {
      var list := U32(bufs[i], 16);
      m := LookupSuffix(bufs[i], U32(bufs[i], list), U32(bufs[i], list + 4), name, |name|, caseCheck, out, cap, tss[i]);
      assert tss[i..][1..] == tss[i + 1..];
      if m > 0 { return; }
    }
    m := 0;
  }

  /** The packed and the linked form give the same types for every name, when
      each suffix has the same types in both and the cap is not reached. */
  lemma FormsAgree(linked: seq<Trie>, packed: seq<Trie>, text: string, caseCheck: bool, cap: nat, w: MimeWeight)
    requires Plain(text)
    requires forall suffix :: Plain(suffix) ==> forall g :: g in Types(linked, suffix) <==> g in Types(packed, suffix)
    requires |Lookup(linked, text, caseCheck)| <= cap && |Lookup(packed, text, caseCheck)| <= cap
    ensures w in Weighted(Capped(Lookup(linked, text, caseCheck), cap))
       <==> w in Weighted(Capped(Lookup(packed, text, caseCheck), cap))
  {
    SameTypesSameLookup(linked, packed, text, caseCheck);
    WeightedIn(Lookup(linked, text, caseCheck), w);
    WeightedIn(Lookup(packed, text, caseCheck), w);
  }

  lemma WeightedIn(gs: seq<Glob>, w: MimeWeight)
    ensures w in Weighted(gs) <==> exists g: Glob :: g in gs && w == MimeWeight(g.mime, g.weight)
  {
    var ws := Weighted(gs);
    if w in ws {
      var i :| 0 <= i < |ws| && ws[i] == w;
      assert gs[i] in gs;
    }
    if g: Glob :| g in gs && w == MimeWeight(g.mime, g.weight) {
      var i :| 0 <= i < |gs| && gs[i] == g;
      assert ws[i] in ws;
    }
  }
}
