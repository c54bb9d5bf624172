/**
 * The index on the heap: trees whose nodes hold further trees. A walk over one tree leaves the others
 * standing, and may be interrupted by walks over the trees in its nodes.
 */
module IndexHeap {
  import opened CStrings
  import opened AvlModel
  import opened AvlLinks
  import opened AvlStream
  import opened AvlHeap
  import opened AvlWalk
  import opened DesktopCache

  // ----- the index on the heap -----

  /** The value of a node: a list, or a structure with a tree of its own. */
  datatype Val =
    | ListVal(list: Values)
    | EntryVal(values: Values, localized: AvlTree<Val>)
    | GroupVal(entries: AvlTree<Val>)
    | AppVal(at: nat, groups: Option<Groups>)
    | TypeVal(subTypes: AvlTree<Val>)

  datatype Groups = Groups(at: nat, owner: nat, tree: AvlTree<Val>)

  predicate OwnsGroups(v: Val) {
    v.AppVal? && v.groups.Some? && v.groups.value.owner == v.at
  }

  type Place = AvlNode<Val> -> nat

  /** A tree with the kind of its values, and what it holds. */
  datatype Held = Held(kind: Kind, model: HTree<Val>)

  /** All trees of an index, and what each of their nodes stores. */
  datatype Trees = Trees(held: map<AvlTree<Val>, Held>, table: HTable<Val>)

  ghost predicate IsTree(s: Trees, tree: AvlTree<Val>, kind: Kind) {
    tree in s.held && s.held[tree].kind == kind
  }

  /** The value is one of its kind, and the tree in it is one of the trees. */
  ghost predicate OfKind(s: Trees, kind: Kind, v: Val) {
    match kind
    case Strings => v.ListVal?
    case SubTypeValue => v.ListVal?
    case EntryValue => v.EntryVal? && IsTree(s, v.localized, Strings)
    case GroupValue => v.GroupVal? && IsTree(s, v.entries, EntryValue)
    case AppValue => v.AppVal? && (OwnsGroups(v) ==> IsTree(s, v.groups.value.tree, GroupValue))
    case MimeTypeValue => v.TypeVal? && IsTree(s, v.subTypes, SubTypeValue)
  }

  ghost predicate AllOfKind(s: Trees, kind: Kind, m: HTree<Val>) {
    m.Node? ==> OfKind(s, kind, m.it.value) && AllOfKind(s, kind, m.left) && AllOfKind(s, kind, m.right)
  }

  /** The table has the nodes of the tree. */
  ghost predicate Tabled(table: HTable<Val>, m: HTree<Val>) {
    forall n :: n in Nodes(m) ==> n in table && table[n] == Links(m, None)[n]
  }

  ghost predicate GoodTree(s: Trees, h: Held) {
    AllOfKind(s, h.kind, h.model) && Distinct(h.model) && Tabled(s.table, h.model)
  }

  /** Every tree holds values of its kind, and no node is in two trees. */
  ghost predicate Separate(s: Trees) {
    && (forall t {:trigger s.held[t]} :: t in s.held ==> GoodTree(s, s.held[t]))
    && (forall t, u {:trigger s.held[t], s.held[u]} :: t in s.held && u in s.held && t != u ==>
          Nodes(s.held[t].model) !! Nodes(s.held[u].model))
  }

  /** The nodes of the trees of lower rank. */
  ghost function Below(s: Trees, rank: nat): set<AvlNode<Val>> {
    set t, n | t in s.held && Rank(s.held[t].kind) < rank && n in Nodes(s.held[t].model) :: n
  }

  /** The trees are on the heap. */
  ghost predicate Standing(s: Trees)
    reads s.held.Keys, s.table.Keys
  {
    && Matches(s.table)
    && forall t {:trigger s.held[t]} :: t in s.held ==> t.model == s.held[t].model && t.root == Root(s.held[t].model)
  }

  ghost predicate Ready(s: Trees)
    reads s.held.Keys, s.table.Keys
  {
    Separate(s) && Standing(s)
  }

  // ----- walks -----

  /** The nodes of a tree are not among those of lower rank. */
  lemma ApartFromBelow(s: Trees, tree: AvlTree<Val>)
    requires Separate(s) && tree in s.held
    ensures Nodes(s.held[tree].model) !! Below(s, Rank(s.held[tree].kind))
    ensures Nodes(s.held[tree].model) <= Below(s, Rank(s.held[tree].kind) + 1) && Below(s, Rank(s.held[tree].kind)) <= Below(s, Rank(s.held[tree].kind) + 1)
  {
    forall t | t in s.held && Rank(s.held[t].kind) < Rank(s.held[tree].kind) ensures Nodes(s.held[t].model) !! Nodes(s.held[tree].model) {
      assert s.held[t] != s.held[tree];
    }
  }

  lemma {:induction false} ValueOfKind(s: Trees, kind: Kind, m: HTree<Val>, p: Option<AvlNode<Val>>, n: AvlNode<Val>)
    requires AllOfKind(s, kind, m) && Distinct(m) && n in Nodes(m)
    ensures OfKind(s, kind, Links(m, p)[n].value)
  {
    if n != m.it.id {
      if n in Nodes(m.left) {
        ValueOfKind(s, kind, m.left, Root(m), n);
      } else {
        ValueOfKind(s, kind, m.right, Root(m), n);
      }
    }
  }

  lemma TreeStands(s: Trees, tree: AvlTree<Val>)
    requires Ready(s) && tree in s.held
    ensures Matches(Links(s.held[tree].model, None)) && Distinct(s.held[tree].model)
  {
    assert GoodTree(s, s.held[tree]);
    forall n {:trigger Links(s.held[tree].model, None)[n]} | n in Links(s.held[tree].model, None)
      ensures Stores(n, Links(s.held[tree].model, None)[n])
    {
      assert Stores(n, s.table[n]);
    }
  }

  /** What a walk looks at is apart from the trees of lower rank. */
  lemma Around(s: Trees, tree: AvlTree<Val>, kind: Kind, m: HTree<Val>, c: HCtx<Val>, t: HTree<Val>, n: AvlNode<Val>)
    requires Ready(s) && IsTree(s, tree, kind) && m == s.held[tree].model && WalkAt(m, c, t, n)
    ensures n in Nodes(m) && n !in Below(s, Rank(kind))
    ensures Nodes(m) !! Below(s, Rank(kind)) && CtxNodes(c) !! Below(s, Rank(kind)) && CtxNodes(c) <= Nodes(m)
  {
    ApartFromBelow(s, tree);
    Here(m, c, t, n);
    PlugFits(c, t);
  }

  /** The steps of the walk leave the trees standing. */
  method LeftTurn(n: AvlNode<Val>, ghost s: Trees, ghost m: HTree<Val>, ghost c: HCtx<Val>, ghost t: HTree<Val>) returns (next: AvlNode<Val>)
    requires Ready(s) && WalkAt(m, c, t, n) && n in Nodes(m) && n.visit == Visit(false, false)
    modifies Nodes(m)`visit
    ensures Ready(s) && next in Nodes(m)
    ensures t.left.Leaf? ==> next == n && WalkAt(m, c, t, n) && n.visit == Visit(true, false)
    ensures t.left.Node? ==> WalkAt(m, InLeft(c, t.it, t.right), t.left, next) && next.visit == Visit(false, false)
  {
    hide WalkAt;
    next := TurnLeft(n, m, c, t);
  }

  method RightTurn(n: AvlNode<Val>, ghost s: Trees, ghost m: HTree<Val>, ghost c: HCtx<Val>, ghost t: HTree<Val>) returns (next: AvlNode<Val>)
    requires Ready(s) && WalkAt(m, c, t, n) && n in Nodes(m) && n.visit == Visit(true, false)
    modifies Nodes(m)`visit
    ensures Ready(s) && next in Nodes(m)
    ensures t.right.Leaf? ==> next == n && WalkAt(m, c, t, n) && n.visit == Visit(true, true)
    ensures t.right.Node? ==> WalkAt(m, InRight(c, t.left, t.it), t.right, next) && next.visit == Visit(false, false)
  {
    hide WalkAt;
    next := TurnRight(n, m, c, t);
  }

  /** To the side that is next. */
  method Turn(n: AvlNode<Val>, ghost s: Trees, ghost m: HTree<Val>, ghost c: HCtx<Val>, ghost t: HTree<Val>)
    returns (next: AvlNode<Val>, ghost c': HCtx<Val>, ghost t': HTree<Val>)
    requires Ready(s) && WalkAt(m, c, t, n) && n in Nodes(m) && !n.visit.right
    modifies Nodes(m)`visit
    ensures Ready(s) && WalkAt(m, c', t', next) && next in Nodes(m)
    ensures var (left, child) := (!old(n.visit).left, if old(n.visit).left then t.right else t.left);
      if child.Leaf? then next == n && c' == c && t' == t && next.visit == Visit(true, !left)
      else c' == (if left then InLeft(c, t.it, t.right) else InRight(c, t.left, t.it)) && t' == child && next.visit == Visit(false, false)
  {
    hide Ready;
    c', t' := c, t;
    if n.visit.left {
      next := RightTurn(n, s, m, c, t);
      if t.right.Node? { c', t' := InRight(c, t.left, t.it), t.right; }
    } else {
      next := LeftTurn(n, s, m, c, t);
      if t.left.Node? { c', t' := InLeft(c, t.it, t.right), t.left; }
    }
  }

  /** The walk begins at the root. */
  method Begin(tree: AvlTree<Val>, ghost s: Trees) returns (root: AvlNode<Val>)
    requires Ready(s) && tree in s.held && tree.root.Some?
    modifies Nodes(s.held[tree].model)`visit
    ensures Ready(s) && tree.root == Some(root) && WalkAt(s.held[tree].model, Top, s.held[tree].model, root)
    ensures root in Nodes(s.held[tree].model) && root.visit == Visit(false, false)
  {
    TreeStands(s, tree);
    root := tree.root.value;
    Start(s.held[tree].model);
    SetVisit(root, Visit(false, false), s.held[tree].model, Top, s.held[tree].model);
  }
}
