/**
 * Heights and recorded balances. With the textbook double rotation every insertion keeps
 * balances exact, so trees are logarithmically shallow. The code as written does so exactly
 * when the insertion does not end in a double rotation around an old grandchild.
 */
module AvlHeight {
  import opened CStrings
  import opened AvlModel
  import opened AvlOrder

  function Max(a: nat, b: nat): nat { if a < b then b else a }

  function Height<N, V>(t: Tree<N, V>): nat {
    if t.Leaf? then 0 else 1 + Max(Height(t.left), Height(t.right))
  }

  function Size<N, V>(t: Tree<N, V>): nat {
    if t.Leaf? then 0 else Size(t.left) + 1 + Size(t.right)
  }

  function Tilt(b: Balance): int {
    match b case LeftHeavy => -1 case Balanced => 0 case RightHeavy => 1
  }

  /** The recorded balance of every node is its true height difference, hence in {-1, 0, 1}. */
  predicate Exact<N, V>(t: Tree<N, V>) {
    t.Node? ==> Tilt(t.it.bal) == Height(t.right) - Height(t.left) && Exact(t.left) && Exact(t.right)
  }

  function Fib(n: nat): nat {
    if n < 2 then n else Fib(n - 2) + Fib(n - 1)
  }

  /** A tree of height `h` with exact balances holds at least Fib(h + 2) - 1 nodes. */
  lemma {:induction false} ExactIsDense<N, V>(t: Tree<N, V>)
    requires Exact(t)
    ensures Size(t) + 1 >= Fib(Height(t) + 2)
  {
    if t.Node? {
      ExactIsDense(t.left);
      ExactIsDense(t.right);
      var l, r := Height(t.left), Height(t.right);
      assert Fib(Max(l, r) + 3) == Fib(Max(l, r) + 1) + Fib(Max(l, r) + 2);
      FibGrows(Max(l, r) + 1, l + 2);
      FibGrows(Max(l, r) + 1, r + 2);
    }
  }

  /** Exact balances never mark a side heavy that has no child. */
  lemma {:induction false} ExactHeavy<N, V>(t: Tree<N, V>)
    requires Exact(t)
    ensures HeavyHasChild(t)
  {
    if t.Node? {
      ExactHeavy(t.left);
      ExactHeavy(t.right);
    }
  }

  lemma {:induction false} FibGrows(a: nat, b: nat)
    requires 1 <= a <= b
    ensures Fib(a) <= Fib(b)
  {
    if a < b { FibGrows(a, b - 1); }
  }

  // ----- the textbook rule -----

  /** `r` results from `t` by a step that reports `grew`. */
  predicate StepOk<N, V>(h: nat, r: Tree<N, V>, grew: bool) {
    Exact(r) && Height(r) == h + (if grew then 1 else 0) && (grew ==> r.Node? && (h == 0 || !r.it.bal.Balanced?))
  }

  lemma DoubleLeftRightExact<N, V>(t: Tree<N, V>, h: nat)
    requires t.Node? && t.left.Node? && Exact(t.left) && Height(t.left) == h + 1
    requires Exact(t.right) && Height(t.right) == h - 1 && t.left.it.bal.RightHeavy?
    ensures StepOk(h + 1, RotateLeftRight(Textbook, t), false)
  {
    var r := RotateLeftRight(Textbook, t);
    assert Exact(t.left.left) && Exact(t.left.right);
    assert Exact(r.left) && Exact(r.right);
  }

  lemma DoubleRightLeftExact<N, V>(t: Tree<N, V>, h: nat)
    requires t.Node? && t.right.Node? && Exact(t.right) && Height(t.right) == h + 1
    requires Exact(t.left) && Height(t.left) == h - 1 && t.right.it.bal.LeftHeavy?
    ensures StepOk(h + 1, RotateRightLeft(Textbook, t), false)
  {
    var r := RotateRightLeft(Textbook, t);
    assert Exact(t.right.left) && Exact(t.right.right);
    assert Exact(r.left) && Exact(r.right);
  }

  /** The left subtree has grown from height `h`, and `t` still records the old balance. */
  lemma GrewLeftExact<N, V>(t: Tree<N, V>, h: nat)
    requires t.Node? && StepOk(h, t.left, true) && Exact(t.right)
    requires Tilt(t.it.bal) == Height(t.right) - h
    ensures var (r, grew) := GrewLeft(Textbook, t); StepOk(1 + Max(h, Height(t.right)), r, grew)
  {
    if t.it.bal.LeftHeavy? {
      if t.left.it.bal.LeftHeavy? {
        assert Exact(RotateRightRight(t).right);
      } else {
        DoubleLeftRightExact(t, h);
      }
    }
  }

  lemma GrewRightExact<N, V>(t: Tree<N, V>, h: nat)
    requires t.Node? && StepOk(h, t.right, true) && Exact(t.left)
    requires Tilt(t.it.bal) == h - Height(t.left)
    ensures var (r, grew) := GrewRight(Textbook, t); StepOk(1 + Max(h, Height(t.left)), r, grew)
  {
    if t.it.bal.RightHeavy? {
      if t.right.it.bal.RightHeavy? {
        assert Exact(RotateLeftLeft(t).left);
      } else {
        DoubleRightLeftExact(t, h);
      }
    }
  }

  /** With the textbook double rotation, insertion keeps balances exact and the climb
      stops exactly where the height stops growing. */
  lemma {:induction false} GrowExact<N, V>(t: Tree<N, V>, id: N, k: string, v: V)
    requires Exact(t)
    ensures var (r, grew) := Grow(Textbook, t, id, k, v); StepOk(Height(t), r, grew)
  {
    if t.Node? {
      if StrCmp(t.it.key, k) < 0 {
        GrowExact(t.right, id, k, v);
        var (right, grew) := Grow(Textbook, t.right, id, k, v);
        if grew { GrewRightExact(Node(t.left, t.it, right), Height(t.right)); }
      } else if StrCmp(t.it.key, k) > 0 {
        GrowExact(t.left, id, k, v);
        var (left, grew) := Grow(Textbook, t.left, id, k, v);
        if grew { GrewLeftExact(Node(left, t.it, t.right), Height(t.left)); }
      }
    }
  }

  // ----- the code as written -----

  function Next<N, V>(t: Tree<N, V>, k: string): Tree<N, V>
    requires t.Node?
  {
    if StrCmp(t.it.key, k) < 0 then t.right else t.left
  }

  /** Some node on the search path of `k` is marked heavy: the climb will stop there or below. */
  predicate HeavyOnPath<N, V>(t: Tree<N, V>, k: string) {
    t.Node? && StrCmp(t.it.key, k) != 0 && (!t.it.bal.Balanced? || HeavyOnPath(Next(t, k), k))
  }

  /** A double rotation around an old grandchild is ahead: the lowest heavy node on the path
      leans towards `k`, the path turns at its child, and there is a node after the turn. */
  predicate Skews<N, V>(t: Tree<N, V>, k: string) {
    t.Node? && StrCmp(t.it.key, k) != 0 &&
    if HeavyOnPath(Next(t, k), k) then Skews(Next(t, k), k)
    else if StrCmp(t.it.key, k) > 0 then
      t.it.bal.LeftHeavy? && t.left.Node? && StrCmp(t.left.it.key, k) < 0 && t.left.right.Node?
    else
      t.it.bal.RightHeavy? && t.right.Node? && StrCmp(t.right.it.key, k) > 0 && t.right.left.Node?
  }

  /** The climb goes past a subtree exactly when no node on the path in it was heavy. */
  lemma {:induction false} GrewIffNoHeavy<N, V>(rule: DoubleRule, t: Tree<N, V>, id: N, k: string, v: V)
    requires Lookup(t, k).None?
    ensures var (r, grew) := Grow(rule, t, id, k, v);
      (grew <==> !HeavyOnPath(t, k)) && (grew ==> r.Node? && r == Grow(Textbook, t, id, k, v).0)
    ensures !HeavyOnPath(t, k) && t.Node? ==>
      var r := Grow(rule, t, id, k, v).0;
      if StrCmp(t.it.key, k) < 0
      then r == Node(t.left, t.it.(bal := RightHeavy), Grow(rule, t.right, id, k, v).0)
      else r == Node(Grow(rule, t.left, id, k, v).0, t.it.(bal := LeftHeavy), t.right)
  {
    if t.Node? {
      GrewIffNoHeavy(rule, Next(t, k), id, k, v);
    }
  }

  /** As written, an insertion that does not skew computes the textbook tree. */
  lemma {:induction false} NoSkewIsTextbook<N, V>(t: Tree<N, V>, id: N, k: string, v: V)
    requires Exact(t) && Lookup(t, k).None? && !Skews(t, k)
    ensures Grow(AsWritten, t, id, k, v) == Grow(Textbook, t, id, k, v)
  {
    if t.Node? {
      var n := Next(t, k);
      GrewIffNoHeavy(AsWritten, n, id, k, v);
      GrewIffNoHeavy(Textbook, n, id, k, v);
      if HeavyOnPath(n, k) {
        NoSkewIsTextbook(n, id, k, v);
      } else if n.Node? {
        GrewIffNoHeavy(AsWritten, Next(n, k), id, k, v);
      }
    }
  }

  /** As written, an insertion that skews leaves a wrong balance behind. */
  lemma {:induction false} SkewIsInexact<N, V>(t: Tree<N, V>, id: N, k: string, v: V)
    requires Exact(t) && Lookup(t, k).None? && Skews(t, k)
    ensures !Exact(Insert(AsWritten, t, id, k, v))
  {
    var n := Next(t, k);
    GrewIffNoHeavy(AsWritten, n, id, k, v);
    if HeavyOnPath(n, k) {
      SkewIsInexact(n, id, k, v);
    } else {
      SkewHere(t, id, k, v);
    }
  }

  lemma SkewHere<N, V>(t: Tree<N, V>, id: N, k: string, v: V)
    requires Exact(t) && Lookup(t, k).None? && Skews(t, k) && !HeavyOnPath(Next(t, k), k)
    ensures !Exact(Insert(AsWritten, t, id, k, v))
  {
    var n := Next(t, k);
    var g := Next(n, k);
    GrewIffNoHeavy(AsWritten, n, id, k, v);
    GrewIffNoHeavy(AsWritten, g, id, k, v);
    var n' := Grow(AsWritten, n, id, k, v).0;
    var g' := Grow(AsWritten, g, id, k, v).0;
    GrowExact(n, id, k, v);
    GrowExact(g, id, k, v);
    assert Exact(g') && !g'.it.bal.Balanced? && Height(g') == Height(g) + 1;
  }

  /** The exact condition: from exact balances, inserting a new key as written
      gives exact balances if and only if the insertion does not skew. */
  lemma InsertExactIff<N, V>(t: Tree<N, V>, id: N, k: string, v: V)
    requires Exact(t) && Lookup(t, k).None?
    ensures Exact(Insert(AsWritten, t, id, k, v)) <==> !Skews(t, k)
  {
    if Skews(t, k) {
      SkewIsInexact(t, id, k, v);
    } else {
      NoSkewIsTextbook(t, id, k, v);
      GrowExact(t, id, k, v);
    }
  }

  // ----- whole runs -----

  /** The step that adds `ks[i]` as written meets a new key and skews. */
  predicate SkewsAt(ks: seq<string>, i: nat)
    requires i < |ks|
  {
    var t := Run(AsWritten, ks[..i]);
    Lookup(t, ks[i]).None? && Skews(t, ks[i])
  }

  /** With the textbook rule every run has exact balances, so a tree of height h
      holds at least Fib(h + 2) - 1 nodes. */
  lemma {:induction false} TextbookRuns(ks: seq<string>)
    ensures Exact(Run(Textbook, ks)) && HeavyHasChild(Run(Textbook, ks))
    ensures Size(Run(Textbook, ks)) + 1 >= Fib(Height(Run(Textbook, ks)) + 2)
  {
    if ks != [] {
      var n := |ks| - 1;
      TextbookRuns(ks[..n]);
      GrowExact(Run(Textbook, ks[..n]), n, ks[n], ());
    }
    ExactIsDense(Run(Textbook, ks));
    ExactHeavy(Run(Textbook, ks));
  }

  /** The code as written has exact balances after every step of the run. */
  ghost predicate AlwaysExact(ks: seq<string>) {
    forall i :: 0 <= i <= |ks| ==> Exact(Run(AsWritten, ks[..i]))
  }

  ghost predicate NeverSkews(ks: seq<string>) {
    forall i :: 0 <= i < |ks| ==> !SkewsAt(ks, i)
  }

  lemma AlwaysExactStep(ks: seq<string>)
    requires ks != []
    ensures AlwaysExact(ks) <==> AlwaysExact(ks[..|ks| - 1]) && Exact(Run(AsWritten, ks))
  {
    var n := |ks| - 1;
    assert ks[..n + 1] == ks;
    forall i | 0 <= i <= n ensures ks[..n][..i] == ks[..i] { }
    if AlwaysExact(ks[..n]) && Exact(Run(AsWritten, ks)) {
      forall i | 0 <= i <= n + 1 ensures Exact(Run(AsWritten, ks[..i])) {
        if i <= n { assert Exact(Run(AsWritten, ks[..n][..i])); }
      }
    }
    if AlwaysExact(ks) {
      forall i | 0 <= i <= n ensures Exact(Run(AsWritten, ks[..n][..i])) {
        assert Exact(Run(AsWritten, ks[..i]));
      }
    }
  }

  lemma NeverSkewsStep(ks: seq<string>)
    requires ks != []
    ensures NeverSkews(ks) <==> NeverSkews(ks[..|ks| - 1]) && !SkewsAt(ks, |ks| - 1)
  {
    var n := |ks| - 1;
    forall i | 0 <= i < n ensures SkewsAt(ks[..n], i) <==> SkewsAt(ks, i) {
      assert ks[..n][..i] == ks[..i];
    }
  }

  /** As written, balances stay exact all along a run if and only if no step skews. */
  lemma {:induction false} AsWrittenRuns(ks: seq<string>)
    ensures AlwaysExact(ks) <==> NeverSkews(ks)
  {
    if ks != [] {
      var n := |ks| - 1;
      var t := Run(AsWritten, ks[..n]);
      AsWrittenRuns(ks[..n]);
      AlwaysExactStep(ks);
      NeverSkewsStep(ks);
      if AlwaysExact(ks[..n]) {
        assert ks[..n][..n] == ks[..n];
        if Lookup(t, ks[n]).None? {
          InsertExactIff(t, n, ks[n], ());
        } else {
          InsertPresent(AsWritten, t, n, ks[n], ());
        }
      }
    }
  }

  // ----- a run that goes wrong -----

  const SIX: seq<string> := ["5", "2", "6", "1", "3", "4"]

  function One(id: int, k: string, b: Balance): Item<int, ()> {
    Item(id, k, b, ())
  }

  function Single(id: int, k: string): Tree<int, ()> {
    Fresh(id, k, ())
  }

  lemma RunSnoc(rule: DoubleRule, ks: seq<string>, k: string)
    ensures Run(rule, ks + [k]) == Insert(rule, Run(rule, ks), |ks|, k, ())
  {
    assert (ks + [k])[..|ks|] == ks;
  }

  lemma FiveKeys()
    ensures Run(AsWritten, SIX[..5]) ==
      Node(Node(Single(3, "1"), One(1, "2", Balanced), Single(4, "3")), One(0, "5", LeftHeavy), Single(2, "6"))
  {
    assert Run(AsWritten, []) == Leaf;
    RunSnoc(AsWritten, [], "5");
    assert [] + ["5"] == ["5"];
    RunSnoc(AsWritten, ["5"], "2");
    assert ["5"] + ["2"] == ["5", "2"];
    assert Run(AsWritten, ["5", "2"]) == Node(Single(1, "2"), One(0, "5", LeftHeavy), Leaf);
    RunSnoc(AsWritten, ["5", "2"], "6");
    assert ["5", "2"] + ["6"] == ["5", "2", "6"];
    RunSnoc(AsWritten, ["5", "2", "6"], "1");
    assert ["5", "2", "6"] + ["1"] == ["5", "2", "6", "1"];
    assert Run(AsWritten, ["5", "2", "6", "1"]) ==
      Node(Node(Single(3, "1"), One(1, "2", LeftHeavy), Leaf), One(0, "5", LeftHeavy), Single(2, "6"));
    RunSnoc(AsWritten, ["5", "2", "6", "1"], "3");
    assert ["5", "2", "6", "1"] + ["3"] == SIX[..5];
  }

  lemma SixKeys()
    ensures Run(AsWritten, SIX) ==
      Node(Node(Single(3, "1"), One(1, "2", Balanced), Leaf), One(4, "3", Balanced),
           Node(Single(5, "4"), One(0, "5", Balanced), Single(2, "6")))
  {
    FiveKeys();
    RunSnoc(AsWritten, SIX[..5], "4");
    assert SIX[..5] + ["4"] == SIX;
    var t := Run(AsWritten, SIX[..5]);
    assert Grow(AsWritten, t.left.right, 5, "4", ()) == (Node(Leaf, One(4, "3", RightHeavy), Single(5, "4")), true);
    assert Grow(AsWritten, t.left, 5, "4", ()).0.it == One(1, "2", RightHeavy);
  }

  /** Six keys leave a node marked balanced that has one child; a seventh key then hangs a
      subtree of height 2 beside an empty one, and the climb reports nothing wrong. */
  lemma SkewedRun()
    ensures !Exact(Run(AsWritten, SIX))
    ensures var t := Run(AsWritten, SIX + ["0"]);
      && t.Node? && t.left.Node?
      && Height(t.left.left) == 2 && Height(t.left.right) == 0
  {
    SixKeys();
    RunSnoc(AsWritten, SIX, "0");
    var t := Run(AsWritten, SIX);
    assert Grow(AsWritten, t.left.left, 6, "0", ()) == (Node(Single(6, "0"), One(3, "1", LeftHeavy), Leaf), true);
    assert Grow(AsWritten, t.left, 6, "0", ()).0.left == Node(Single(6, "0"), One(3, "1", LeftHeavy), Leaf);
    assert Height(Single(6, "0")) == 1;
  }
}
