/** Sequences, as several of the lists use them. */
module Sequences {

  lemma Regrouped<X>(a: seq<X>, b: seq<X>, c: seq<X>)
    ensures (a + b) + c == a + (b + c)
  {
  }

  /** `x` put in before position `k`. */
  ghost function Spliced<X>(s: seq<X>, k: nat, x: X): seq<X>
    requires k <= |s|
  {
    s[..k] + [x] + s[k..]
  }

  lemma SplicedAt<X>(s: seq<X>, k: nat, x: X, i: nat)
    requires k <= |s| && i <= |s|
    ensures Spliced(s, k, x)[i] == if i < k then s[i] else if i == k then x else s[i - 1]
  {
  }

  /** No element stands twice. */
  ghost predicate Unique<X>(s: seq<X>) {
    forall i, j :: 0 <= i < j < |s| ==> s[i] != s[j]
  }
}
