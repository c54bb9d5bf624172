/** Sharing the groups of one application between folders. */
module AppFolders {
  import opened CStrings

  // ----- one application id, folder by folder -----

  /** What a folder knows of the id: nothing, or an application with its groups. */
  datatype Cell<G> = Absent | Has(groups: Option<G>)

  /** The first folder with groups, or the number of folders. */
  function FirstKnown<G>(c: seq<Cell<G>>): (f: nat)
    ensures f <= |c| && (f < |c| ==> c[f].Has? && c[f].groups.Some?)
    ensures forall k :: 0 <= k < f && c[k].Has? ==> c[k].groups.None?
  {
    if c == [] || (c[0].Has? && c[0].groups.Some?) then 0 else 1 + FirstKnown(c[1..])
  }

  /** The first groups in folder order. */
  function FirstGroups<G>(c: seq<Cell<G>>): Option<G> {
    if FirstKnown(c) < |c| then c[FirstKnown(c)].groups else None
  }

  /** `_xdg_app_fixup_links_between_folders`, for folders `i` and `j`. */
  function Fixed<G>(c: seq<Cell<G>>, i: nat, j: nat): (r: seq<Cell<G>>)
    requires i < j < |c|
    ensures |r| == |c| && forall k :: 0 <= k < |c| ==> (r[k].Has? <==> c[k].Has?)
  {
    if c[i].Absent? || c[j].Absent? then c
    else if c[i].groups.None? then c[i := c[j]] else c[j := c[i]]
  }

  /** Folder `i` with the folders after it, up to `j`. */
  function FixedUpTo<G>(c: seq<Cell<G>>, i: nat, j: nat): (r: seq<Cell<G>>)
    requires i < j <= |c|
    ensures |r| == |c| && forall k :: 0 <= k < |c| ==> (r[k].Has? <==> c[k].Has?)
  {
    if j == i + 1 then c else Fixed(FixedUpTo(c, i, j - 1), i, j - 1)
  }

  /** The folders before `n`, each with those after it. */
  function FixedAll<G>(c: seq<Cell<G>>, n: nat): (r: seq<Cell<G>>)
    requires n <= |c|
    ensures |r| == |c| && forall k :: 0 <= k < |c| ==> (r[k].Has? <==> c[k].Has?)
  {
    if n == 0 then c else FixedUpTo(FixedAll(c, n - 1), n - 1, |c|)
  }

  /** All folders that know the id have the same groups. */
  function Shared<G>(c: seq<Cell<G>>, g: Option<G>): (r: seq<Cell<G>>)
    ensures |r| == |c| && forall k :: 0 <= k < |c| ==> r[k] == if c[k].Has? then Has(g) else Absent
  {
    if c == [] then [] else [if c[0].Has? then Has(g) else Absent] + Shared(c[1..], g)
  }

  // ----- what the passes leave -----

  predicate KnownBefore<G>(c: seq<Cell<G>>, n: nat)
    requires n <= |c|
  {
    exists k :: 0 <= k < n && c[k].Has?
  }

  /** Cell `k` after `n` passes: once the id has been met, it has the first
      groups in the folders already passed and from their folder on. */
  function After<G>(c: seq<Cell<G>>, n: nat, k: nat): Cell<G>
    requires n <= |c| && k < |c|
  {
    if c[k].Absent? || !KnownBefore(c, n) then c[k]
    else if k < n || k >= FirstKnown(c) then Has(FirstGroups(c)) else Has(None)
  }

  /** Cell `k` in pass `i`, before folder `j`. */
  function Amid<G>(c: seq<Cell<G>>, i: nat, j: nat, k: nat): Cell<G>
    requires i < j <= |c| && k < |c|
  {
    var f := FirstKnown(c);
    if c[i].Absent? then After(c, i, k)
    else if k == i then (if f < j then Has(FirstGroups(c)) else Has(None))
    else if KnownBefore(c, i) || k >= j || c[k].Absent? then After(c, i, k)
    else if f <= k then Has(FirstGroups(c)) else Has(None)
  }

  lemma {:induction false} PassUpTo<G>(c: seq<Cell<G>>, w: seq<Cell<G>>, i: nat, j: nat)
    requires i < j <= |c| == |w| && forall k :: 0 <= k < |c| ==> w[k] == After(c, i, k)
    ensures forall k :: 0 <= k < |c| ==> FixedUpTo(w, i, j)[k] == Amid(c, i, j, k)
    decreases j
  {
    if j > i + 1 {
      PassUpTo(c, w, i, j - 1);
      PassStep(c, FixedUpTo(w, i, j - 1), i, j - 1);
    }
  }

  lemma PassStep<G>(c: seq<Cell<G>>, w: seq<Cell<G>>, i: nat, j: nat)
    requires i < j < |c| == |w| && forall k :: 0 <= k < |c| ==> w[k] == Amid(c, i, j, k)
    ensures forall k :: 0 <= k < |c| ==> Fixed(w, i, j)[k] == Amid(c, i, j + 1, k)
  {
    assert w[i] == Amid(c, i, j, i) && w[j] == Amid(c, i, j, j);
  }

  lemma {:induction false} Passes<G>(c: seq<Cell<G>>, n: nat)
    requires n <= |c|
    ensures forall k :: 0 <= k < |c| ==> FixedAll(c, n)[k] == After(c, n, k)
    decreases n
  {
    if n > 0 {
      Passes(c, n - 1);
      PassUpTo(c, FixedAll(c, n - 1), n - 1, |c|);
    }
  }

  /** After the fix-up every folder that knows the id has the first groups in folder order. */
  lemma FixupShares<G>(c: seq<Cell<G>>)
    ensures FixedAll(c, |c|) == Shared(c, FirstGroups(c))
  {
    Passes(c, |c|);
    forall k | 0 <= k < |c| ensures After(c, |c|, k) == Shared(c, FirstGroups(c))[k] {}
  }

  // ----- cleaning -----

  lemma {:induction false} FirstKnownIs<G>(c: seq<Cell<G>>, f: nat)
    requires f <= |c| && (f < |c| ==> c[f].Has? && c[f].groups.Some?)
    requires forall k :: 0 <= k < f && c[k].Has? ==> c[k].groups.None?
    ensures FirstKnown(c) == f
  {
    if f > 0 { FirstKnownIs(c[1..], f - 1); }
  }

  /** The shared column after cleaning: only the first owner keeps its groups. */
  ghost predicate Cleaned<G>(c: seq<Cell<G>>, d: seq<Cell<G>>) {
    && |d| == |c|
    && forall k :: 0 <= k < |c| ==>
         d[k] == if c[k].Absent? then Absent else if k == FirstKnown(c) then Has(FirstGroups(c)) else Has(None)
  }

  /** Fixing up a cleaned column restores the sharing. */
  lemma CleanupThenFixup<G>(c: seq<Cell<G>>, d: seq<Cell<G>>)
    requires Cleaned(c, d)
    ensures FixedAll(d, |d|) == FixedAll(c, |c|)
  {
    FirstKnownIs(d, FirstKnown(c));
    FixupShares(c);
    FixupShares(d);
    SharedAgain(c, d, FirstGroups(c));
  }

  lemma SharedAgain<G>(c: seq<Cell<G>>, d: seq<Cell<G>>, g: Option<G>)
    requires |d| == |c| && forall k :: 0 <= k < |c| ==> (d[k].Has? <==> c[k].Has?)
    ensures Shared(d, g) == Shared(c, g)
  {
  }

  // ----- folders of applications -----

  class App {
    var groups: Option<Groups>

    constructor ()
      ensures groups == None
    {
      groups := None;
    }
  }

  /** The groups of a desktop file, made for one application. */
  class Groups {
    const owner: App

    constructor (owner: App)
      ensures this.owner == owner
    {
      this.owner := owner;
    }
  }

  datatype Named = Named(name: string, app: App)

  /** The applications of a folder, in the order of the walk. */
  type Folder = seq<Named>

  ghost predicate Proper(folders: seq<Folder>) {
    && (forall i, p, q {:trigger folders[i][p], folders[i][q]} :: 0 <= i < |folders| && 0 <= p < q < |folders[i]| ==> folders[i][p].name != folders[i][q].name)
    && (forall i, p, j, q {:trigger folders[i][p], folders[j][q]} ::
          0 <= i < |folders| && 0 <= p < |folders[i]| && 0 <= j < |folders| && 0 <= q < |folders[j]| && (i != j || p != q)
          ==> folders[i][p].app != folders[j][q].app)
  }

  /** The position of a name in a folder, or the length. */
  function Search(f: Folder, name: string): (p: nat)
    ensures p <= |f| && (p < |f| ==> f[p].name == name)
    ensures p == |f| ==> forall q :: 0 <= q < |f| ==> f[q].name != name
  {
    if f == [] || f[0].name == name then 0 else 1 + Search(f[1..], name)
  }

  /** The groups of every application at some moment. */
  type Snapshot = map<App, Option<Groups>>

  ghost predicate Covers(g: Snapshot, folders: seq<Folder>) {
    forall i, p {:trigger folders[i][p]} :: 0 <= i < |folders| && 0 <= p < |folders[i]| ==> folders[i][p].app in g
  }

  ghost function CellOf(f: Folder, g: Snapshot, name: string): Cell<Groups>
    requires forall p :: 0 <= p < |f| ==> f[p].app in g
  {
    var p := Search(f, name);
    if p == |f| then Absent else Has(g[f[p].app])
  }

  ghost function Column(folders: seq<Folder>, g: Snapshot, name: string, n: nat): (c: seq<Cell<Groups>>)
    requires Covers(g, folders) && n <= |folders|
    ensures |c| == n && forall k :: 0 <= k < n ==> c[k] == CellOf(folders[k], g, name)
  {
    if n == 0 then [] else Column(folders, g, name, n - 1) + [CellOf(folders[n - 1], g, name)]
  }

  /** Changing one application changes one cell of one column. */
  lemma OneChange(folders: seq<Folder>, g: Snapshot, i: nat, p: nat, v: Option<Groups>, name: string)
    requires Proper(folders) && Covers(g, folders) && i < |folders| && p < |folders[i]|
    ensures
      var h := g[folders[i][p].app := v];
      var c := Column(folders, g, name, |folders|);
      && Covers(h, folders)
      && Column(folders, h, name, |folders|) == if name == folders[i][p].name then c[i := Has(v)] else c
  {
    var h := g[folders[i][p].app := v];
    forall k | 0 <= k < |folders|
      ensures CellOf(folders[k], h, name)
           == if k == i && name == folders[i][p].name then Has(v) else CellOf(folders[k], g, name)
    {
      var q := Search(folders[k], name);
      if q < |folders[k]| {
        assert folders[k][q].name == name;
        if k == i && q != p { assert folders[i][if p < q then p else q].name != folders[i][if p < q then q else p].name; }
      } else if k == i {
        assert folders[i][p].name != name;
      }
    }
  }

  /** The heap is as the snapshot says. */
  ghost predicate Now(g: Snapshot)
    reads g.Keys
  {
    forall a {:trigger g[a]} :: a in g.Keys ==> a.groups == g[a]
  }

  ghost function Col(folders: seq<Folder>, g: Snapshot, name: string): (c: seq<Cell<Groups>>)
    requires Covers(g, folders)
    ensures |c| == |folders|
  {
    Column(folders, g, name, |folders|)
  }

  /** The columns after the first `m` applications of folder `i` met folder `j`. */
  ghost predicate PairDone(folders: seq<Folder>, g: Snapshot, h: Snapshot, i: nat, j: nat, m: nat)
    requires Covers(g, folders) && Covers(h, folders) && i < j < |folders|
  {
    forall name {:trigger Col(folders, h, name)} ::
      Col(folders, h, name) == if Search(folders[i], name) < m then Fixed(Col(folders, g, name), i, j) else Col(folders, g, name)
  }

  lemma {:induction false} SearchIs(f: Folder, p: nat)
    requires p < |f| && forall q, r :: 0 <= q < r < |f| ==> f[q].name != f[r].name
    ensures Search(f, f[p].name) == p
  {
    if p > 0 { SearchIs(f[1..], p - 1); }
  }

  lemma NamesDiffer(folders: seq<Folder>, i: nat)
    requires Proper(folders) && i < |folders|
    ensures forall q, r :: 0 <= q < r < |folders[i]| ==> folders[i][q].name != folders[i][r].name
  {
  }

  /** `_xdg_app_fixup_links_between_folders`, on snapshots. */
  ghost function Met(folders: seq<Folder>, h: Snapshot, i: nat, j: nat, m: nat): Snapshot
    requires Covers(h, folders) && i < j < |folders| && m < |folders[i]|
  {
    var x, q := folders[i][m].app, Search(folders[j], folders[i][m].name);
    assert folders[i][m].app in h && (q < |folders[j]| ==> folders[j][q].app in h);
    if q == |folders[j]| then h
    else if h[x].None? then h[x := h[folders[j][q].app]]
    else h[folders[j][q].app := h[x]]
  }

  lemma MetColumn(folders: seq<Folder>, h: Snapshot, i: nat, j: nat, m: nat, name: string)
    requires Proper(folders) && Covers(h, folders) && i < j < |folders| && m < |folders[i]|
    ensures Covers(Met(folders, h, i, j, m), folders)
    ensures Col(folders, Met(folders, h, i, j, m), name)
         == if name == folders[i][m].name then Fixed(Col(folders, h, name), i, j) else Col(folders, h, name)
  {
    var x, q := folders[i][m].app, Search(folders[j], folders[i][m].name);
    NamesDiffer(folders, i);
    SearchIs(folders[i], m);
    assert folders[i][m].app in h;
    if q < |folders[j]| {
      assert folders[j][q].app in h;
      if h[x].None? {
        OneChange(folders, h, i, m, h[folders[j][q].app], name);
      } else {
        OneChange(folders, h, j, q, h[x], name);
      }
    }
  }

  /** One more application of folder `i`. */
  lemma PairStep(folders: seq<Folder>, g: Snapshot, h: Snapshot, i: nat, j: nat, m: nat)
    requires Proper(folders) && Covers(g, folders) && Covers(h, folders) && i < j < |folders| && m < |folders[i]|
    requires PairDone(folders, g, h, i, j, m)
    ensures Covers(Met(folders, h, i, j, m), folders) && PairDone(folders, g, Met(folders, h, i, j, m), i, j, m + 1)
  {
    MetColumn(folders, h, i, j, m, folders[i][m].name);
    NamesDiffer(folders, i);
    SearchIs(folders[i], m);
    forall name
      ensures Col(folders, Met(folders, h, i, j, m), name)
           == if Search(folders[i], name) < m + 1 then Fixed(Col(folders, g, name), i, j) else Col(folders, g, name)
    {
      MetColumn(folders, h, i, j, m, name);
      assert Search(folders[i], name) == m ==> name == folders[i][m].name;
      assert Col(folders, h, name) == if Search(folders[i], name) < m then Fixed(Col(folders, g, name), i, j) else Col(folders, g, name);
    }
  }

  /** The walk over the applications of folder `i`, against folder `j`. */
  method FixPair(folders: seq<Folder>, i: nat, j: nat, ghost g: Snapshot, ghost all: set<App>) returns (ghost h: Snapshot)
    requires Proper(folders) && Covers(g, folders) && Now(g) && g.Keys == all && i < j < |folders|
    modifies all
    ensures h.Keys == all && Now(h) && Covers(h, folders)
    ensures forall name {:trigger Col(folders, h, name)} :: Col(folders, h, name) == Fixed(Col(folders, g, name), i, j)
  {
    h := g;
    for m := 0 to |folders[i]|
      invariant h.Keys == all && Now(h) && Covers(h, folders) && PairDone(folders, g, h, i, j, m)
    {
      PairStep(folders, g, h, i, j, m);
      ghost var next := Met(folders, h, i, j, m);
      var x := folders[i][m];
      var q := Search(folders[j], x.name);
      assert x.app in h;
      if q < |folders[j]| {
        var res := folders[j][q];
        assert res.app in h;
        if x.app.groups.None? {
          x.app.groups := res.app.groups;
        } else {
          res.app.groups := x.app.groups;
        }
      }
      h := next;
    }
    AllMet(folders, g, h, i, j);
  }

  lemma AllMet(folders: seq<Folder>, g: Snapshot, h: Snapshot, i: nat, j: nat)
    requires Covers(g, folders) && Covers(h, folders) && i < j < |folders| && PairDone(folders, g, h, i, j, |folders[i]|)
    ensures forall name {:trigger Col(folders, h, name)} :: Col(folders, h, name) == Fixed(Col(folders, g, name), i, j)
  {
    forall name ensures Col(folders, h, name) == Fixed(Col(folders, g, name), i, j) {
      var c := Col(folders, g, name);
      if Search(folders[i], name) == |folders[i]| {
        assert c[i] == CellOf(folders[i], g, name);
      }
    }
  }

  /** Every column is as folder `i` and the folders before `j` leave it. */
  ghost predicate ColumnsFixed(folders: seq<Folder>, g: Snapshot, h: Snapshot, i: nat, j: nat)
    requires Covers(g, folders) && Covers(h, folders) && i < j <= |folders|
  {
    forall name {:trigger ColumnFixed(folders, g, h, i, j, name)} :: ColumnFixed(folders, g, h, i, j, name)
  }

  ghost predicate ColumnFixed(folders: seq<Folder>, g: Snapshot, h: Snapshot, i: nat, j: nat, name: string)
    requires Covers(g, folders) && Covers(h, folders) && i < j <= |folders|
  {
    Col(folders, h, name) == FixedUpTo(Col(folders, g, name), i, j)
  }

  lemma NoneFixed(folders: seq<Folder>, g: Snapshot, i: nat)
    requires Covers(g, folders) && i < |folders|
    ensures ColumnsFixed(folders, g, g, i, i + 1)
  {
  }

  /** Folder `i` against all folders after it. */
  method FixFolder(folders: seq<Folder>, i: nat, ghost g: Snapshot, ghost all: set<App>) returns (ghost h: Snapshot)
    requires Proper(folders) && Covers(g, folders) && Now(g) && g.Keys == all && i < |folders|
    modifies all
    ensures h.Keys == all && Now(h) && Covers(h, folders) && ColumnsFixed(folders, g, h, i, |folders|)
  {
    hide ColumnsFixed, Proper, Covers;
    h := g;
    NoneFixed(folders, g, i);
    for j := i + 1 to |folders|
      invariant h.Keys == all && Now(h) && Covers(h, folders)
      invariant ColumnsFixed(folders, g, h, i, j)
    {
      h := FixNext(folders, i, j, j + 1, g, h, all);
    }
  }

  /** Folder `i` against one more folder. */
  method FixNext(folders: seq<Folder>, i: nat, j: nat, ghost j1: nat, ghost g: Snapshot, ghost was: Snapshot, ghost all: set<App>) returns (ghost h: Snapshot)
    requires Proper(folders) && Covers(g, folders) && Covers(was, folders) && Now(was) && was.Keys == all && i < j < |folders| && j1 == j + 1
    requires ColumnsFixed(folders, g, was, i, j)
    modifies all
    ensures h.Keys == all && Now(h) && Covers(h, folders) && ColumnsFixed(folders, g, h, i, j1)
  {
    h := FixPair(folders, i, j, was, all);
    ColumnsStep(folders, g, was, h, i, j, j1);
  }

  /** One more folder. */
  lemma ColumnsStep(folders: seq<Folder>, g: Snapshot, was: Snapshot, h: Snapshot, i: nat, j: nat, j1: nat)
    requires Covers(g, folders) && Covers(was, folders) && Covers(h, folders) && i < j < |folders| && j1 == j + 1
    requires ColumnsFixed(folders, g, was, i, j)
    requires forall name {:trigger Col(folders, h, name)} :: Col(folders, h, name) == Fixed(Col(folders, was, name), i, j)
    ensures ColumnsFixed(folders, g, h, i, j1)
  {
    forall name ensures ColumnFixed(folders, g, h, i, j1, name) {
      assert ColumnFixed(folders, g, was, i, j, name);
      OneColumn(Col(folders, g, name), Col(folders, was, name), Col(folders, h, name), i, j, j1);
    }
  }

  lemma OneColumn<G>(c: seq<Cell<G>>, w: seq<Cell<G>>, h: seq<Cell<G>>, i: nat, j: nat, j1: nat)
    requires i < j < |c| && j1 == j + 1 && w == FixedUpTo(c, i, j) && h == Fixed(w, i, j)
    ensures h == FixedUpTo(c, i, j1)
  {
  }

  /** `_xdg_app_fixup_links_to_desktop_files`: every id is shared by all folders that know it. */
  method Fixup(folders: seq<Folder>, ghost g: Snapshot, ghost all: set<App>) returns (ghost h: Snapshot)
    requires Proper(folders) && Covers(g, folders) && Now(g) && g.Keys == all
    modifies all
    ensures h.Keys == all && Now(h) && Covers(h, folders)
    ensures forall name {:trigger Col(folders, h, name)} ::
      Col(folders, h, name) == Shared(Col(folders, g, name), FirstGroups(Col(folders, g, name)))
  {
    h := g;
    for i := 0 to |folders|
      invariant h.Keys == all && Now(h) && Covers(h, folders) && PassesDone(folders, g, h, i)
    {
      ghost var was := h;
      h := FixFolder(folders, i, was, all);
      OnePass(folders, g, was, h, i);
    }
    AllShared(folders, g, h);
  }

  ghost predicate PassesDone(folders: seq<Folder>, g: Snapshot, h: Snapshot, n: nat)
    requires Covers(g, folders) && Covers(h, folders) && n <= |folders|
  {
    forall name {:trigger Col(folders, h, name)} :: Col(folders, h, name) == FixedAll(Col(folders, g, name), n)
  }

  lemma OnePass(folders: seq<Folder>, g: Snapshot, was: Snapshot, h: Snapshot, i: nat)
    requires Covers(g, folders) && Covers(was, folders) && Covers(h, folders) && i < |folders| && PassesDone(folders, g, was, i)
    requires ColumnsFixed(folders, was, h, i, |folders|)
    ensures PassesDone(folders, g, h, i + 1)
  {
    forall name ensures Col(folders, h, name) == FixedAll(Col(folders, g, name), i + 1) {
      assert ColumnFixed(folders, was, h, i, |folders|, name);
      assert Col(folders, was, name) == FixedAll(Col(folders, g, name), i);
    }
  }

  lemma AllShared(folders: seq<Folder>, g: Snapshot, h: Snapshot)
    requires Covers(g, folders) && Covers(h, folders) && PassesDone(folders, g, h, |folders|)
    ensures forall name {:trigger Col(folders, h, name)} ::
      Col(folders, h, name) == Shared(Col(folders, g, name), FirstGroups(Col(folders, g, name)))
  {
    forall name ensures Col(folders, h, name) == Shared(Col(folders, g, name), FirstGroups(Col(folders, g, name))) {
      FixupShares(Col(folders, g, name));
    }
  }

  // ----- cleaning in place -----

  /** Every application has groups made for itself, or none. */
  ghost predicate OwnGroups(folders: seq<Folder>, g: Snapshot)
    requires Covers(g, folders)
  {
    forall i, p {:trigger folders[i][p]} :: 0 <= i < |folders| && 0 <= p < |folders[i]| ==>
      assert folders[i][p].app in g;
      g[folders[i][p].app].Some? ==> g[folders[i][p].app].value.owner == folders[i][p].app
  }

  /** `_xdg_app_cleanup_links_to_desktop_files`: what belongs to another application goes. */
  method Cleanup(folders: seq<Folder>, ghost g: Snapshot, ghost all: set<App>) returns (ghost h: Snapshot)
    requires Proper(folders) && Covers(g, folders) && Now(g) && g.Keys == all
    modifies all
    ensures h.Keys == all && Now(h) && Covers(h, folders)
    ensures forall i, p {:trigger folders[i][p]} :: 0 <= i < |folders| && 0 <= p < |folders[i]| ==>
              var x := folders[i][p].app;
              assert x in g && x in h;
              h[x] == if g[x].Some? && g[x].value.owner != x then None else g[x]
  {
    h := g;
    for i := 0 to |folders|
      invariant h.Keys == all && Now(h)
      invariant forall k, p {:trigger folders[k][p]} :: 0 <= k < |folders| && 0 <= p < |folders[k]| ==>
                  assert folders[k][p].app in g;
                  h[folders[k][p].app] == if k < i then Kept(g, folders[k][p].app) else g[folders[k][p].app]
    {
      for m := 0 to |folders[i]|
        invariant h.Keys == all && Now(h)
        invariant forall k, p {:trigger folders[k][p]} :: 0 <= k < |folders| && 0 <= p < |folders[k]| ==>
                    assert folders[k][p].app in g;
                    h[folders[k][p].app] == if k < i || (k == i && p < m) then Kept(g, folders[k][p].app) else g[folders[k][p].app]
      {
        var x := folders[i][m].app;
        assert x in g && h[x] == g[x];
        if x.groups.Some? && x.groups.value.owner != x {
          x.groups := None;
          h := h[x := None];
        }
      }
    }
  }

  ghost function Kept(g: Snapshot, x: App): Option<Groups>
    requires x in g
  {
    if g[x].Some? && g[x].value.owner != x then None else g[x]
  }

  /** After a fix-up, cleaning leaves the groups with the application they were made for. */
  lemma OwnerKeeps(folders: seq<Folder>, g: Snapshot, h: Snapshot, d: Snapshot, name: string)
    requires Proper(folders) && Covers(g, folders) && Covers(h, folders) && Covers(d, folders) && OwnGroups(folders, g)
    requires Col(folders, h, name) == Shared(Col(folders, g, name), FirstGroups(Col(folders, g, name)))
    requires forall i, p {:trigger folders[i][p]} :: 0 <= i < |folders| && 0 <= p < |folders[i]| ==>
               assert folders[i][p].app in h && folders[i][p].app in d;
               d[folders[i][p].app] == Kept(h, folders[i][p].app)
    ensures Cleaned(Col(folders, g, name), Col(folders, d, name))
  {
    var c := Col(folders, g, name);
    var f := FirstKnown(c);
    var q := if f < |c| then Search(folders[f], name) else 0;
    if f < |c| {
      assert c[f] == CellOf(folders[f], g, name);
      assert folders[f][q].app in g && c[f].groups == g[folders[f][q].app];
    }
    forall k | 0 <= k < |c|
      ensures Col(folders, d, name)[k]
           == if c[k].Absent? then Absent else if k == f then Has(FirstGroups(c)) else Has(None)
    {
      var p := Search(folders[k], name);
      assert c[k] == CellOf(folders[k], g, name) && Col(folders, h, name)[k] == CellOf(folders[k], h, name);
      if p < |folders[k]| {
        assert folders[k][p].app in h && h[folders[k][p].app] == FirstGroups(c);
        if f < |c| && k != f { assert folders[k][p].app != folders[f][q].app; }
      }
    }
  }

  /** Cleaning and fixing up again restores the sharing, when each application
      started with its own groups or none. */
  method Refresh(folders: seq<Folder>, ghost g: Snapshot, ghost all: set<App>) returns (ghost h: Snapshot)
    requires Proper(folders) && Covers(g, folders) && Now(g) && g.Keys == all && OwnGroups(folders, g)
    modifies all
    ensures h.Keys == all && Now(h) && Covers(h, folders)
    ensures forall name {:trigger Col(folders, h, name)} ::
      Col(folders, h, name) == Shared(Col(folders, g, name), FirstGroups(Col(folders, g, name)))
  {
    ghost var fixed := Fixup(folders, g, all);
    ghost var clean := Cleanup(folders, fixed, all);
    h := Fixup(folders, clean, all);
    forall name ensures Col(folders, h, name) == Shared(Col(folders, g, name), FirstGroups(Col(folders, g, name))) {
      assert Col(folders, fixed, name) == Shared(Col(folders, g, name), FirstGroups(Col(folders, g, name)));
      OwnerKeeps(folders, g, fixed, clean, name);
      CleanupThenFixup(Col(folders, g, name), Col(folders, clean, name));
      FixupShares(Col(folders, g, name));
      FixupShares(Col(folders, clean, name));
    }
  }
}
