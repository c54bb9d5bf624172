/**
 * A ghost tree read as a table from node to links, balance, key and value. The heap
 * matches a table node by node, so the effect of a pointer update on the whole tree
 * is a statement about finite maps, proved here.
 */
module AvlLinks {
  import opened CStrings
  import opened AvlModel

  /** What one node stores, apart from its visit bits. */
  datatype Rec<N, V> = Rec(left: Option<N>, right: Option<N>, parent: Option<N>, bal: Balance, key: string, value: V)

  type Table<!N, V> = map<N, Rec<N, V>>

  ghost function Nodes<N, V>(t: Tree<N, V>): set<N> {
    if t.Leaf? then {} else Nodes(t.left) + {t.it.id} + Nodes(t.right)
  }

  ghost function CtxNodes<N, V>(c: Ctx<N, V>): set<N> {
    match c
    case Top => {}
    case InLeft(up, it, right) => CtxNodes(up) + {it.id} + Nodes(right)
    case InRight(up, left, it) => CtxNodes(up) + {it.id} + Nodes(left)
  }

  function Above<N, V>(c: Ctx<N, V>): Option<N> {
    if c.Top? then None else Some(c.it.id)
  }

  ghost predicate Distinct<N, V>(t: Tree<N, V>) {
    t.Node? ==>
      && Distinct(t.left) && Distinct(t.right)
      && t.it.id !in Nodes(t.left) && t.it.id !in Nodes(t.right)
      && Nodes(t.left) !! Nodes(t.right)
  }

  ghost predicate CtxDistinct<N, V>(c: Ctx<N, V>) {
    match c
    case Top => true
    case InLeft(up, it, right) =>
      && CtxDistinct(up) && Distinct(right)
      && it.id !in CtxNodes(up) && it.id !in Nodes(right) && CtxNodes(up) !! Nodes(right)
    case InRight(up, left, it) =>
      && CtxDistinct(up) && Distinct(left)
      && it.id !in CtxNodes(up) && it.id !in Nodes(left) && CtxNodes(up) !! Nodes(left)
  }

  ghost predicate Fits<N, V>(c: Ctx<N, V>, t: Tree<N, V>) {
    CtxDistinct(c) && Distinct(t) && CtxNodes(c) !! Nodes(t)
  }

  function RecOf<N, V>(it: Item<N, V>, l: Option<N>, r: Option<N>, p: Option<N>): Rec<N, V> {
    Rec(l, r, p, it.bal, it.key, it.value)
  }

  /** The table of `t` hung below parent `p`. */
  ghost function Links<N, V>(t: Tree<N, V>, p: Option<N>): (m: Table<N, V>)
    ensures m.Keys == Nodes(t)
  {
    if t.Leaf? then map[]
    else (Links(t.left, Root(t)) + Links(t.right, Root(t)))[t.it.id := RecOf(t.it, Root(t.left), Root(t.right), p)]
  }

  lemma {:induction false} WrittenNodes<N, V>(t: Tree<N, V>, id: N, v: V)
    ensures Nodes(Written(t, id, v)) == Nodes(t) && (Distinct(Written(t, id, v)) <==> Distinct(t))
  {
    if t.Node? {
      WrittenNodes(t.left, id, v);
      WrittenNodes(t.right, id, v);
    }
  }

  /** Writing a value changes the value in one record. */
  lemma {:induction false} WrittenLinks<N, V>(t: Tree<N, V>, id: N, v: V, p: Option<N>, n: N)
    requires n in Nodes(t) && n in Nodes(Written(t, id, v))
    ensures Links(Written(t, id, v), p)[n] == if n == id then Links(t, p)[n].(value := v) else Links(t, p)[n]
  {
    WrittenNodes(t.left, id, v);
    WrittenNodes(t.right, id, v);
    if n != t.it.id {
      if n in Nodes(t.right) {
        WrittenLinks(t.right, id, v, Root(t), n);
      } else {
        WrittenLinks(t.left, id, v, Root(t), n);
      }
    }
  }

  lemma WrittenTable<N, V>(t: Tree<N, V>, id: N, v: V, p: Option<N>)
    requires id in Nodes(t)
    ensures Links(Written(t, id, v), p) == Links(t, p)[id := Links(t, p)[id].(value := v)]
  {
    WrittenNodes(t, id, v);
    forall n | n in Nodes(t) ensures Links(Written(t, id, v), p)[n] == if n == id then Links(t, p)[n].(value := v) else Links(t, p)[n] {
      WrittenLinks(t, id, v, p, n);
    }
  }

  /** The table of a context whose hole holds the subtree rooted at `h`. */
  ghost function CtxLinks<N, V>(c: Ctx<N, V>, h: Option<N>): (m: Table<N, V>)
    ensures m.Keys == CtxNodes(c)
  {
    match c
    case Top => map[]
    case InLeft(up, it, right) =>
      (CtxLinks(up, Some(it.id)) + Links(right, Some(it.id)))[it.id := RecOf(it, h, Root(right), Above(up))]
    case InRight(up, left, it) =>
      (CtxLinks(up, Some(it.id)) + Links(left, Some(it.id)))[it.id := RecOf(it, Root(left), h, Above(up))]
  }

  /** The table of `t` in `c`. */
  ghost function Whole<N, V>(c: Ctx<N, V>, t: Tree<N, V>): (m: Table<N, V>)
    ensures m.Keys == CtxNodes(c) + Nodes(t)
  {
    CtxLinks(c, Root(t)) + Links(t, Above(c))
  }

  lemma {:induction false} PlugFits<N, V>(c: Ctx<N, V>, t: Tree<N, V>)
    ensures Nodes(Plug(c, t)) == CtxNodes(c) + Nodes(t)
    ensures Distinct(Plug(c, t)) <==> Fits(c, t)
    decreases c
  {
    match c
    case Top =>
    case InLeft(up, it, right) => PlugFits(up, Node(t, it, right));
    case InRight(up, left, it) => PlugFits(up, Node(left, it, t));
  }

  lemma Shuffle<K, T>(a: map<K, T>, b: map<K, T>, d: map<K, T>, k: K, r: T)
    requires a.Keys !! b.Keys && a.Keys !! d.Keys && b.Keys !! d.Keys
    requires k !in a && k !in b && k !in d
    ensures (a + b)[k := r] + d == a + (d + b)[k := r]
    ensures (a + b)[k := r] + d == a + (b + d)[k := r]
  {
  }

  /** One node of the context moved into the subtree. */
  function Fold<N, V>(c: Ctx<N, V>, t: Tree<N, V>): Tree<N, V>
    requires !c.Top?
  {
    if c.InLeft? then Node(t, c.it, c.right) else Node(c.left, c.it, t)
  }

  /** Moving the hole up by one node does not change the table. */
  lemma WholeUp<N, V>(c: Ctx<N, V>, t: Tree<N, V>)
    requires Fits(c, t) && !c.Top?
    ensures Fits(c.up, Fold(c, t)) && Whole(c.up, Fold(c, t)) == Whole(c, t)
  {
    var id := Some(c.it.id);
    if c.InLeft? {
      Shuffle(CtxLinks(c.up, id), Links(c.right, id), Links(t, id), c.it.id, RecOf(c.it, Root(t), Root(c.right), Above(c.up)));
    } else {
      Shuffle(CtxLinks(c.up, id), Links(c.left, id), Links(t, id), c.it.id, RecOf(c.it, Root(c.left), Root(t), Above(c.up)));
    }
  }

  lemma {:induction false} PlugWhole<N, V>(c: Ctx<N, V>, t: Tree<N, V>)
    requires Fits(c, t)
    ensures Links(Plug(c, t), None) == Whole(c, t)
    decreases c
  {
    match c
    case Top =>
    case InLeft(up, it, right) => WholeUp(c, t); PlugWhole(up, Fold(c, t));
    case InRight(up, left, it) => WholeUp(c, t); PlugWhole(up, Fold(c, t));
  }

  /** The record of the root of a subtree in the whole table. */
  lemma RootRec<N, V>(up: Ctx<N, V>, t: Tree<N, V>)
    requires t.Node?
    ensures t.it.id in Whole(up, t)
    ensures Whole(up, t)[t.it.id] == RecOf(t.it, Root(t.left), Root(t.right), Above(up))
  {
  }

  lemma LeftRec<N, V>(up: Ctx<N, V>, t: Tree<N, V>)
    requires t.Node? && t.left.Node? && Distinct(t)
    ensures t.left.it.id in Whole(up, t)
    ensures Whole(up, t)[t.left.it.id] == RecOf(t.left.it, Root(t.left.left), Root(t.left.right), Some(t.it.id))
  {
    assert t.left.it.id in Nodes(t.left) && t.left.it.id !in Nodes(t.right);
    assert Links(t.left, Root(t))[t.left.it.id] == RecOf(t.left.it, Root(t.left.left), Root(t.left.right), Root(t));
  }

  lemma RightRec<N, V>(up: Ctx<N, V>, t: Tree<N, V>)
    requires t.Node? && t.right.Node? && Distinct(t)
    ensures t.right.it.id in Whole(up, t)
    ensures Whole(up, t)[t.right.it.id] == RecOf(t.right.it, Root(t.right.left), Root(t.right.right), Some(t.it.id))
  {
    assert t.right.it.id in Nodes(t.right);
    assert Links(t.right, Root(t))[t.right.it.id] == RecOf(t.right.it, Root(t.right.left), Root(t.right.right), Root(t));
  }

  lemma SetBalWhole<N, V>(up: Ctx<N, V>, t: Tree<N, V>, b: Balance)
    requires t.Node? && Fits(up, t)
    ensures Fits(up, SetBal(t, b)) && Nodes(SetBal(t, b)) == Nodes(t)
    ensures t.it.id in Whole(up, t)
    ensures Whole(up, SetBal(t, b)) == Whole(up, t)[t.it.id := Whole(up, t)[t.it.id].(bal := b)]
  {
  }

  lemma FillCtx<N, V>(c: Ctx<N, V>, id: N)
    requires CtxDistinct(c) && !c.Top?
    ensures c.it.id in CtxLinks(c, None)
    ensures var r := CtxLinks(c, None)[c.it.id];
      CtxLinks(c, Some(id)) == CtxLinks(c, None)[c.it.id := if c.InLeft? then r.(left := Some(id)) else r.(right := Some(id))]
  {
  }

  /** Filling an empty hole writes one link of the node above. */
  lemma FillHole<N, V>(c: Ctx<N, V>, id: N, k: string, v: V)
    requires CtxDistinct(c) && id !in CtxNodes(c)
    ensures Fits(c, Fresh(id, k, v)) && Whole(c, Leaf) == CtxLinks(c, None)
    ensures c.Top? ==> Whole(c, Fresh(id, k, v)) == map[id := Rec(None, None, None, Balanced, k, v)]
    ensures !c.Top? ==>
      var m := Whole(c, Leaf);
      && c.it.id in m
      && Whole(c, Fresh(id, k, v))
         == m[c.it.id := if c.InLeft? then m[c.it.id].(left := Some(id)) else m[c.it.id].(right := Some(id))]
             [id := Rec(None, None, Some(c.it.id), Balanced, k, v)]
  {
    if !c.Top? { FillCtx(c, id); }
  }

  /** The root of a tree that has subtree root `h` in the hole of `c`. */
  ghost function RootAt<N, V>(c: Ctx<N, V>, h: Option<N>): Option<N>
    decreases c
  {
    if c.Top? then h else RootAt(c.up, Some(c.it.id))
  }

  lemma {:induction false} PlugRoot<N, V>(c: Ctx<N, V>, t: Tree<N, V>)
    ensures Root(Plug(c, t)) == RootAt(c, Root(t))
    decreases c
  {
    if !c.Top? { PlugRoot(c.up, Fold(c, t)); }
  }

  // ----- pointer updates as table updates -----

  /** `if (n) n->links.parent = p`. */
  ghost function SetParent<N, V>(m: Table<N, V>, n: Option<N>, p: N): (r: Table<N, V>)
    ensures r.Keys == m.Keys
  {
    if n.None? || n.value !in m then m else m[n.value := m[n.value].(parent := Some(p))]
  }

  /** In the slot of `above` that holds `was`, put `repl`. */
  ghost function SetSlot<N, V>(m: Table<N, V>, above: Option<N>, was: N, repl: N): (r: Table<N, V>)
    ensures r.Keys == m.Keys
  {
    if above.None? || above.value !in m then m
    else if m[above.value].left == Some(was) then m[above.value := m[above.value].(left := Some(repl))]
    else m[above.value := m[above.value].(right := Some(repl))]
  }

  lemma LinksSetParent<N, V>(t: Tree<N, V>, p: Option<N>, q: N)
    requires Distinct(t)
    ensures SetParent(Links(t, p), Root(t), q) == Links(t, Some(q))
  {
  }

  lemma CtxSetSlot<N, V>(c: Ctx<N, V>, was: N, repl: N)
    requires CtxDistinct(c) && was !in CtxNodes(c)
    ensures SetSlot(CtxLinks(c, Some(was)), Above(c), was, repl) == CtxLinks(c, Some(repl))
  {
  }

  lemma SetSlotFirst<N, V>(x: Table<N, V>, y: Table<N, V>, above: Option<N>, p: N, c: N)
    requires x.Keys !! y.Keys && (above.Some? ==> above.value !in y)
    ensures SetSlot(x + y, above, p, c) == SetSlot(x, above, p, c) + y
  {
  }

  lemma SetParentFirst<N, V>(x: Table<N, V>, y: Table<N, V>, n: Option<N>, p: N)
    requires x.Keys !! y.Keys && (n.Some? ==> n.value !in y)
    ensures SetParent(x + y, n, p) == SetParent(x, n, p) + y
  {
  }

  lemma SetParentSecond<N, V>(x: Table<N, V>, y: Table<N, V>, n: Option<N>, p: N)
    requires x.Keys !! y.Keys && (n.Some? ==> n.value !in x)
    ensures SetParent(x + y, n, p) == x + SetParent(y, n, p)
  {
  }

  lemma AboveIn<N, V>(c: Ctx<N, V>)
    ensures Above(c).Some? ==> Above(c).value in CtxNodes(c)
  {
  }

  lemma RootIn<N, V>(t: Tree<N, V>)
    ensures Root(t).Some? ==> Root(t).value in Nodes(t)
  {
  }

  // ----- the rotations: the assignments of the code, in its order -----

  /** `child` takes the place of `parent` below the node above. */
  ghost function TakePlace<N, V>(m: Table<N, V>, p: N, c: N): (r: Table<N, V>)
    requires p in m && c in m
    ensures r.Keys == m.Keys
  {
    SetSlot(m[c := m[c].(parent := m[p].parent)], m[p].parent, p, c)
  }

  /** `if (p->links.left = n) n->links.parent = p`. */
  ghost function HangLeft<N, V>(m: Table<N, V>, p: N, n: Option<N>): (r: Table<N, V>)
    requires p in m
    ensures r.Keys == m.Keys
  {
    SetParent(m[p := m[p].(left := n)], n, p)
  }

  ghost function HangRight<N, V>(m: Table<N, V>, p: N, n: Option<N>): (r: Table<N, V>)
    requires p in m
    ensures r.Keys == m.Keys
  {
    SetParent(m[p := m[p].(right := n)], n, p)
  }

  /** Different nodes at the places a single rotation writes to. */
  ghost predicate HasRoom<N, V>(m: Table<N, V>, p: N, c: N, moved: Option<N>) {
    && p in m && c in m && p != c
    && (m[p].parent.Some? ==> m[p].parent.value in m && m[p].parent.value !in {p, c})
    && (moved.Some? ==> moved.value in m && moved.value !in {p, c})
  }

  ghost function LeftLeft<N, V>(m: Table<N, V>, p: N, c: N): Table<N, V>
    requires c in m && HasRoom(m, p, c, m[c].left)
  {
    var m := m[p := m[p].(bal := Balanced)];
    var m := m[c := m[c].(bal := Balanced)];
    var m := TakePlace(m, p, c);
    var m := HangRight(m, p, m[c].left);
    HangLeft(m, c, Some(p))
  }

  ghost function RightRight<N, V>(m: Table<N, V>, p: N, c: N): Table<N, V>
    requires c in m && HasRoom(m, p, c, m[c].right)
  {
    var m := m[p := m[p].(bal := Balanced)];
    var m := m[c := m[c].(bal := Balanced)];
    var m := TakePlace(m, p, c);
    var m := HangLeft(m, p, m[c].right);
    HangRight(m, c, Some(p))
  }

  /** Different nodes at the places a double rotation writes to. */
  ghost predicate HasRoom3<N, V>(m: Table<N, V>, p: N, c: N, g: N) {
    && p in m && c in m && g in m && p != c && p != g && c != g
    && (m[p].parent.Some? ==> m[p].parent.value in m && m[p].parent.value !in {p, c, g})
    && (m[g].left.Some? ==> m[g].left.value in m && m[g].left.value !in {p, c, g})
    && (m[g].right.Some? ==> m[g].right.value in m && m[g].right.value !in {p, c, g})
  }

  /** The common start of the double rotations: clear three balances, lift the grandchild. */
  ghost function Place3<N, V>(m: Table<N, V>, p: N, c: N, g: N): (r: Table<N, V>)
    requires p in m && c in m && g in m
    ensures r.Keys == m.Keys
  {
    var m := m[p := m[p].(bal := Balanced)];
    var m := m[c := m[c].(bal := Balanced)];
    var m := m[g := m[g].(bal := Balanced)];
    var m := TakePlace(m, p, g);
    m
  }

  ghost function RightLeft<N, V>(m: Table<N, V>, p: N, c: N, g: N): Table<N, V>
    requires HasRoom3(m, p, c, g)
  {
    RightLeftTail(Place3(m, p, c, g), p, c, g)
  }

  ghost function RightLeftTail<N, V>(m: Table<N, V>, p: N, c: N, g: N): Table<N, V>
    requires p in m && c in m && g in m
  {
    var m := HangRight(m, p, m[g].left);
    var m := HangLeft(m, c, m[g].right);
    var m := HangLeft(m, g, Some(p));
    HangRight(m, g, Some(c))
  }

  ghost function LeftRight<N, V>(m: Table<N, V>, p: N, c: N, g: N): Table<N, V>
    requires HasRoom3(m, p, c, g)
  {
    LeftRightTail(Place3(m, p, c, g), p, c, g)
  }

  ghost function LeftRightTail<N, V>(m: Table<N, V>, p: N, c: N, g: N): Table<N, V>
    requires p in m && c in m && g in m
  {
    var m := HangLeft(m, p, m[g].right);
    var m := HangRight(m, c, m[g].left);
    var m := HangRight(m, g, Some(p));
    HangLeft(m, g, Some(c))
  }

  // The tables between the assignments of each rotation.

  lemma LeftLeftStages<N, V>(m: Table<N, V>, p: N, c: N) returns (m1: Table<N, V>, m2: Table<N, V>, m3: Table<N, V>)
    requires c in m && HasRoom(m, p, c, m[c].left)
    ensures m1.Keys == m2.Keys == m3.Keys == m.Keys
    ensures m1 == m[p := m[p].(bal := Balanced)][c := m[c].(bal := Balanced)] && m1[p].parent == m[p].parent
    ensures m2 == TakePlace(m1, p, c) && m2[c].left == m[c].left
    ensures m3 == HangRight(m2, p, m[c].left)
    ensures LeftLeft(m, p, c) == HangLeft(m3, c, Some(p))
  {
    m1 := m[p := m[p].(bal := Balanced)][c := m[c].(bal := Balanced)];
    m2 := TakePlace(m1, p, c);
    m3 := HangRight(m2, p, m[c].left);
  }

  lemma RightRightStages<N, V>(m: Table<N, V>, p: N, c: N) returns (m1: Table<N, V>, m2: Table<N, V>, m3: Table<N, V>)
    requires c in m && HasRoom(m, p, c, m[c].right)
    ensures m1.Keys == m2.Keys == m3.Keys == m.Keys
    ensures m1 == m[p := m[p].(bal := Balanced)][c := m[c].(bal := Balanced)] && m1[p].parent == m[p].parent
    ensures m2 == TakePlace(m1, p, c) && m2[c].right == m[c].right
    ensures m3 == HangLeft(m2, p, m[c].right)
    ensures RightRight(m, p, c) == HangRight(m3, c, Some(p))
  {
    m1 := m[p := m[p].(bal := Balanced)][c := m[c].(bal := Balanced)];
    m2 := TakePlace(m1, p, c);
    m3 := HangLeft(m2, p, m[c].right);
  }

  lemma RightLeftStages<N, V>(m: Table<N, V>, p: N, c: N, g: N) returns (m1: Table<N, V>, m2: Table<N, V>, m3: Table<N, V>)
    requires HasRoom3(m, p, c, g)
    ensures m1.Keys == m2.Keys == m3.Keys == m.Keys
    ensures m1 == Place3(m, p, c, g) && HasRoom3(m1, p, c, g)
    ensures m2 == HangLeft(HangRight(m1, p, m1[g].left), c, m1[g].right)
    ensures m3 == HangLeft(m2, g, Some(p))
    ensures RightLeft(m, p, c, g) == HangRight(m3, g, Some(c))
  {
    m1 := Place3(m, p, c, g);
    m2 := HangLeft(HangRight(m1, p, m1[g].left), c, m1[g].right);
    m3 := HangLeft(m2, g, Some(p));
  }

  lemma LeftRightStages<N, V>(m: Table<N, V>, p: N, c: N, g: N) returns (m1: Table<N, V>, m2: Table<N, V>, m3: Table<N, V>)
    requires HasRoom3(m, p, c, g)
    ensures m1.Keys == m2.Keys == m3.Keys == m.Keys
    ensures m1 == Place3(m, p, c, g) && HasRoom3(m1, p, c, g)
    ensures m2 == HangRight(HangLeft(m1, p, m1[g].right), c, m1[g].left)
    ensures m3 == HangRight(m2, g, Some(p))
    ensures LeftRight(m, p, c, g) == HangLeft(m3, g, Some(c))
  {
    m1 := Place3(m, p, c, g);
    m2 := HangRight(HangLeft(m1, p, m1[g].right), c, m1[g].left);
    m3 := HangRight(m2, g, Some(p));
  }

  // ----- on a table split into the written nodes and the rest -----

  lemma LeftLeftSplit<N, V>(rest: Table<N, V>, p: N, rp: Rec<N, V>, c: N, rc: Rec<N, V>)
    requires p !in rest && c !in rest && p != c
    requires (rp.parent.Some? ==> rp.parent.value in rest) && (rc.left.Some? ==> rc.left.value in rest)
    ensures var m := rest + map[p := rp, c := rc];
      && HasRoom(m, p, c, m[c].left)
      && LeftLeft(m, p, c) == SetParent(SetSlot(rest, rp.parent, p, c), rc.left, p)
           + map[p := rp.(bal := Balanced, right := rc.left, parent := Some(c)),
                 c := rc.(bal := Balanced, parent := rp.parent, left := Some(p))]
  {
    var recs := map[p := rp, c := rc];
    var recs1 := map[p := rp.(bal := Balanced), c := rc.(bal := Balanced)];
    var recs2 := recs1[c := recs1[c].(parent := rp.parent)];
    assert (rest + recs)[p := recs1[p]][c := recs1[c]] == rest + recs1;
    assert (rest + recs1)[c := recs2[c]] == rest + recs2;
    SetSlotFirst(rest, recs2, rp.parent, p, c);
    var rest2 := SetSlot(rest, rp.parent, p, c);
    var recs3 := recs2[p := recs2[p].(right := rc.left)];
    assert (rest2 + recs2)[p := recs3[p]] == rest2 + recs3;
    SetParentFirst(rest2, recs3, rc.left, p);
  }

  lemma RightRightSplit<N, V>(rest: Table<N, V>, p: N, rp: Rec<N, V>, c: N, rc: Rec<N, V>)
    requires p !in rest && c !in rest && p != c
    requires (rp.parent.Some? ==> rp.parent.value in rest) && (rc.right.Some? ==> rc.right.value in rest)
    ensures var m := rest + map[c := rc, p := rp];
      && HasRoom(m, p, c, m[c].right)
      && RightRight(m, p, c) == SetParent(SetSlot(rest, rp.parent, p, c), rc.right, p)
           + map[c := rc.(bal := Balanced, parent := rp.parent, right := Some(p)),
                 p := rp.(bal := Balanced, left := rc.right, parent := Some(c))]
  {
    var recs := map[c := rc, p := rp];
    var recs1 := map[c := rc.(bal := Balanced), p := rp.(bal := Balanced)];
    var recs2 := recs1[c := recs1[c].(parent := rp.parent)];
    assert (rest + recs)[p := recs1[p]][c := recs1[c]] == rest + recs1;
    assert (rest + recs1)[c := recs2[c]] == rest + recs2;
    SetSlotFirst(rest, recs2, rp.parent, p, c);
    var rest2 := SetSlot(rest, rp.parent, p, c);
    var recs3 := recs2[p := recs2[p].(left := rc.right)];
    assert (rest2 + recs2)[p := recs3[p]] == rest2 + recs3;
    SetParentFirst(rest2, recs3, rc.right, p);
  }

  lemma Place3Split<N, V>(rest: Table<N, V>, recs: Table<N, V>, p: N, c: N, g: N)
    requires recs.Keys == {p, c, g} && p != c && p != g && c != g && recs.Keys !! rest.Keys
    requires recs[p].parent.Some? ==> recs[p].parent.value in rest
    ensures Place3(rest + recs, p, c, g) == SetSlot(rest, recs[p].parent, p, g) + map[
      p := recs[p].(bal := Balanced),
      c := recs[c].(bal := Balanced),
      g := recs[g].(bal := Balanced, parent := recs[p].parent)]
  {
    var recs1 := map[p := recs[p].(bal := Balanced), c := recs[c].(bal := Balanced), g := recs[g].(bal := Balanced)];
    var recs2 := recs1[g := recs1[g].(parent := recs[p].parent)];
    assert (rest + recs)[p := recs1[p]][c := recs1[c]][g := recs1[g]] == rest + recs1;
    assert (rest + recs1)[g := recs2[g]] == rest + recs2;
    SetSlotFirst(rest, recs2, recs[p].parent, p, g);
  }

  lemma RightLeftTailSplit<N, V>(rest: Table<N, V>, recs: Table<N, V>, p: N, c: N, g: N)
    requires recs.Keys == {p, c, g} && p != c && p != g && c != g && recs.Keys !! rest.Keys
    requires (recs[g].left.Some? ==> recs[g].left.value in rest) && (recs[g].right.Some? ==> recs[g].right.value in rest)
    ensures RightLeftTail(rest + recs, p, c, g) == SetParent(SetParent(rest, recs[g].left, p), recs[g].right, c) + map[
      p := recs[p].(right := recs[g].left, parent := Some(g)),
      c := recs[c].(left := recs[g].right, parent := Some(g)),
      g := recs[g].(left := Some(p), right := Some(c))]
  {
    var b, d := recs[g].left, recs[g].right;
    UpdateSecond(rest, recs, p, recs[p].(right := b));
    var recs1 := recs[p := recs[p].(right := b)];
    SetParentFirst(rest, recs1, b, p);
    var rest1 := SetParent(rest, b, p);
    UpdateSecond(rest1, recs1, c, recs[c].(left := d));
    var recs2 := recs1[c := recs[c].(left := d)];
    SetParentFirst(rest1, recs2, d, c);
  }

  lemma LeftRightTailSplit<N, V>(rest: Table<N, V>, recs: Table<N, V>, p: N, c: N, g: N)
    requires recs.Keys == {p, c, g} && p != c && p != g && c != g && recs.Keys !! rest.Keys
    requires (recs[g].left.Some? ==> recs[g].left.value in rest) && (recs[g].right.Some? ==> recs[g].right.value in rest)
    ensures LeftRightTail(rest + recs, p, c, g) == SetParent(SetParent(rest, recs[g].right, p), recs[g].left, c) + map[
      p := recs[p].(left := recs[g].right, parent := Some(g)),
      c := recs[c].(right := recs[g].left, parent := Some(g)),
      g := recs[g].(right := Some(p), left := Some(c))]
  {
    var b, d := recs[g].right, recs[g].left;
    UpdateSecond(rest, recs, p, recs[p].(left := b));
    var recs1 := recs[p := recs[p].(left := b)];
    SetParentFirst(rest, recs1, b, p);
    var rest1 := SetParent(rest, b, p);
    UpdateSecond(rest1, recs1, c, recs[c].(right := d));
    var recs2 := recs1[c := recs[c].(right := d)];
    SetParentFirst(rest1, recs2, d, c);
  }

  lemma UpdateSecond<K, T>(x: map<K, T>, y: map<K, T>, k: K, v: T)
    ensures (x + y)[k := v] == x + y[k := v]
  {
  }

  // ----- the subtrees a rotation leaves whole -----

  ghost predicate Apart<N, V>(ids: set<N>, b: Tree<N, V>) {
    Distinct(b) && ids !! Nodes(b)
  }

  ghost predicate Three<N, V>(ids: set<N>, a: Tree<N, V>, b: Tree<N, V>, d: Tree<N, V>) {
    && Apart(ids, a) && Apart(ids, b) && Apart(ids, d)
    && Nodes(a) !! Nodes(b) && Nodes(a) !! Nodes(d) && Nodes(b) !! Nodes(d)
  }

  ghost predicate Four<N, V>(ids: set<N>, a: Tree<N, V>, b: Tree<N, V>, c: Tree<N, V>, d: Tree<N, V>) {
    Three(ids, a, b, c) && Apart(ids, d) && Nodes(a) + Nodes(b) + Nodes(c) !! Nodes(d)
  }

  lemma RightPieces<N, V>(up: set<N>, t: Tree<N, V>)
    requires t.Node? && t.right.Node?
    ensures var ids := {t.it.id, t.right.it.id};
      && Nodes(t) == Nodes(t.left) + Nodes(t.right.left) + Nodes(t.right.right) + ids
      && (Distinct(t) && up !! Nodes(t) <==>
            && t.it.id != t.right.it.id && ids !! up
            && Three(up + ids, t.left, t.right.left, t.right.right))
  {
    assert Nodes(t.right) == Nodes(t.right.left) + {t.right.it.id} + Nodes(t.right.right);
  }

  lemma LeftPieces<N, V>(up: set<N>, t: Tree<N, V>)
    requires t.Node? && t.left.Node?
    ensures var ids := {t.left.it.id, t.it.id};
      && Nodes(t) == Nodes(t.left.left) + Nodes(t.left.right) + Nodes(t.right) + ids
      && (Distinct(t) && up !! Nodes(t) <==>
            && t.it.id != t.left.it.id && ids !! up
            && Three(up + ids, t.left.left, t.left.right, t.right))
  {
    assert Nodes(t.left) == Nodes(t.left.left) + {t.left.it.id} + Nodes(t.left.right);
  }

  lemma NestRight<K, T>(a: map<K, T>, b: map<K, T>, d: map<K, T>, p: K, rp: T, c: K, rc: T)
    requires p != c
    ensures (a + (b + d)[c := rc])[p := rp] == a + b + d + map[p := rp, c := rc]
  {
  }

  lemma NestLeft<K, T>(a: map<K, T>, b: map<K, T>, d: map<K, T>, p: K, rp: T, c: K, rc: T)
    requires p != c && p !in d
    ensures ((a + b)[p := rp] + d)[c := rc] == a + b + d + map[p := rp, c := rc]
  {
  }

  /** The table of a tree whose right child is a node, split at the two nodes. */
  lemma LinksRight<N, V>(t: Tree<N, V>, q: Option<N>)
    requires t.Node? && t.right.Node? && t.it.id != t.right.it.id
    ensures var p, c := t.it.id, t.right.it.id;
      Links(t, q) == Links(t.left, Some(p)) + Links(t.right.left, Some(c)) + Links(t.right.right, Some(c))
        + map[p := RecOf(t.it, Root(t.left), Some(c), q),
              c := RecOf(t.right.it, Root(t.right.left), Root(t.right.right), Some(p))]
  {
    var p, c := t.it.id, t.right.it.id;
    var rp := RecOf(t.it, Root(t.left), Some(c), q);
    var rc := RecOf(t.right.it, Root(t.right.left), Root(t.right.right), Some(p));
    assert Links(t.right, Some(p)) == (Links(t.right.left, Some(c)) + Links(t.right.right, Some(c)))[c := rc];
    NestRight(Links(t.left, Some(p)), Links(t.right.left, Some(c)), Links(t.right.right, Some(c)), p, rp, c, rc);
  }

  /** The same at the left child. */
  lemma LinksLeft<N, V>(t: Tree<N, V>, q: Option<N>)
    requires t.Node? && t.left.Node? && t.left.it.id != t.it.id && t.left.it.id !in Nodes(t.right)
    ensures var c, p := t.left.it.id, t.it.id;
      Links(t, q) == Links(t.left.left, Some(c)) + Links(t.left.right, Some(c)) + Links(t.right, Some(p))
        + map[c := RecOf(t.left.it, Root(t.left.left), Root(t.left.right), Some(p)),
              p := RecOf(t.it, Some(c), Root(t.right), q)]
  {
    var c, p := t.left.it.id, t.it.id;
    var rc := RecOf(t.left.it, Root(t.left.left), Root(t.left.right), Some(p));
    var rp := RecOf(t.it, Some(c), Root(t.right), q);
    assert Links(t.left, Some(p)) == (Links(t.left.left, Some(c)) + Links(t.left.right, Some(c)))[c := rc];
    NestLeft(Links(t.left.left, Some(c)), Links(t.left.right, Some(c)), Links(t.right, Some(p)), c, rc, p, rp);
  }

  lemma WholeRight<N, V>(up: Ctx<N, V>, t: Tree<N, V>)
    requires t.Node? && t.right.Node? && t.it.id != t.right.it.id
    ensures var p, c := t.it.id, t.right.it.id;
      Whole(up, t) == CtxLinks(up, Some(p))
        + (Links(t.left, Some(p)) + Links(t.right.left, Some(c)) + Links(t.right.right, Some(c)))
        + map[p := RecOf(t.it, Root(t.left), Some(c), Above(up)),
              c := RecOf(t.right.it, Root(t.right.left), Root(t.right.right), Some(p))]
  {
    LinksRight(t, Above(up));
  }

  lemma WholeLeft<N, V>(up: Ctx<N, V>, t: Tree<N, V>)
    requires t.Node? && t.left.Node? && t.left.it.id != t.it.id && t.left.it.id !in Nodes(t.right)
    ensures var c, p := t.left.it.id, t.it.id;
      Whole(up, t) == CtxLinks(up, Some(p))
        + (Links(t.left.left, Some(c)) + Links(t.left.right, Some(c)) + Links(t.right, Some(p)))
        + map[c := RecOf(t.left.it, Root(t.left.left), Root(t.left.right), Some(p)),
              p := RecOf(t.it, Some(c), Root(t.right), Above(up))]
  {
    LinksLeft(t, Above(up));
  }

  /** The slot above the rotated tree and the middle subtree's parent pointer are the only
      things that change outside the two nodes. */
  lemma OuterMoves<N, V>(up: Ctx<N, V>, p: N, c: N, la: Table<N, V>, b: Tree<N, V>, q: N, r: N, ld: Table<N, V>)
    requires CtxDistinct(up) && p !in CtxNodes(up) && Apart(CtxNodes(up) + la.Keys + ld.Keys, b)
    requires CtxNodes(up) !! la.Keys && CtxNodes(up) !! ld.Keys && la.Keys !! ld.Keys
    ensures SetParent(SetSlot(CtxLinks(up, Some(p)) + (la + Links(b, Some(q)) + ld), Above(up), p, c), Root(b), r)
      == CtxLinks(up, Some(c)) + (la + Links(b, Some(r)) + ld)
  {
    var bq := Links(b, Some(q));
    AboveIn(up);
    RootIn(b);
    CtxSetSlot(up, p, c);
    SetSlotFirst(CtxLinks(up, Some(p)), la + bq + ld, Above(up), p, c);
    MiddleMoves(CtxLinks(up, Some(c)), la, b, q, r, ld);
  }

  lemma MiddleMoves<N, V>(x: Table<N, V>, la: Table<N, V>, b: Tree<N, V>, q: N, r: N, ld: Table<N, V>)
    requires Apart(x.Keys + la.Keys + ld.Keys, b)
    requires x.Keys !! la.Keys && x.Keys !! ld.Keys && la.Keys !! ld.Keys
    ensures SetParent(x + (la + Links(b, Some(q)) + ld), Root(b), r) == x + (la + Links(b, Some(r)) + ld)
  {
    var bq := Links(b, Some(q));
    RootIn(b);
    assert x.Keys !! Nodes(b) && ld.Keys !! Nodes(b);
    SetParentSecond(x, la + bq + ld, Root(b), r);
    SetParentFirst(la + bq, ld, Root(b), r);
    SetParentSecond(la, bq, Root(b), r);
    LinksSetParent(b, Some(q), r);
  }

  // ----- the four rotations -----

  /** The left-left rotation of the code, applied to the table of `t` in `up`,
      gives the table of the rotated tree. */
  lemma LeftLeftWhole<N, V>(up: Ctx<N, V>, t: Tree<N, V>)
    requires t.Node? && t.right.Node? && Fits(up, t)
    ensures var (m, p, c) := (Whole(up, t), t.it.id, t.right.it.id);
      && Fits(up, RotateLeftLeft(t)) && Nodes(RotateLeftLeft(t)) == Nodes(t)
      && c in m && HasRoom(m, p, c, m[c].left)
      && LeftLeft(m, p, c) == Whole(up, RotateLeftLeft(t))
  {
    RightPieces(CtxNodes(up), t);
    LeftPieces(CtxNodes(up), RotateLeftLeft(t));
    var p, c := t.it.id, t.right.it.id;
    var a, b, d := t.left, t.right.left, t.right.right;
    var la, ld := Links(a, Some(p)), Links(d, Some(c));
    var rp, rc := RecOf(t.it, Root(a), Some(c), Above(up)), RecOf(t.right.it, Root(b), Root(d), Some(p));
    AboveIn(up);
    RootIn(b);
    WholeRight(up, t);
    LeftLeftSplit(CtxLinks(up, Some(p)) + (la + Links(b, Some(c)) + ld), p, rp, c, rc);
    OuterMoves(up, p, c, la, b, c, p, ld);
    WholeLeft(up, RotateLeftLeft(t));
  }

  lemma RightRightWhole<N, V>(up: Ctx<N, V>, t: Tree<N, V>)
    requires t.Node? && t.left.Node? && Fits(up, t)
    ensures var (m, p, c) := (Whole(up, t), t.it.id, t.left.it.id);
      && Fits(up, RotateRightRight(t)) && Nodes(RotateRightRight(t)) == Nodes(t)
      && c in m && HasRoom(m, p, c, m[c].right)
      && RightRight(m, p, c) == Whole(up, RotateRightRight(t))
  {
    LeftPieces(CtxNodes(up), t);
    RightPieces(CtxNodes(up), RotateRightRight(t));
    var p, c := t.it.id, t.left.it.id;
    var a, b, d := t.left.left, t.left.right, t.right;
    var la, ld := Links(a, Some(c)), Links(d, Some(p));
    var rp, rc := RecOf(t.it, Some(c), Root(d), Above(up)), RecOf(t.left.it, Root(a), Root(b), Some(p));
    AboveIn(up);
    RootIn(b);
    WholeLeft(up, t);
    RightRightSplit(CtxLinks(up, Some(p)) + (la + Links(b, Some(c)) + ld), p, rp, c, rc);
    OuterMoves(up, p, c, la, b, c, p, ld);
    WholeRight(up, RotateRightRight(t));
  }

  // The three shapes of a double rotation.

  ghost predicate FourApart<N, V>(up: set<N>, x: N, g: N, y: N, a: Tree<N, V>, b: Tree<N, V>, c: Tree<N, V>, d: Tree<N, V>) {
    x != g && x != y && g != y && {x, g, y} !! up && Four(up + {x, g, y}, a, b, c, d)
  }

  lemma PiecesRL<N, V>(up: set<N>, t: Tree<N, V>)
    requires t.Node? && t.right.Node? && t.right.left.Node? && Distinct(t) && up !! Nodes(t)
    ensures Nodes(t) == Nodes(t.left) + Nodes(t.right.left.left) + Nodes(t.right.left.right) + Nodes(t.right.right)
                        + {t.it.id, t.right.left.it.id, t.right.it.id}
    ensures FourApart(up, t.it.id, t.right.left.it.id, t.right.it.id,
                      t.left, t.right.left.left, t.right.left.right, t.right.right)
  {
    LeftPieces(up, t.right);
  }

  lemma PiecesLR<N, V>(up: set<N>, t: Tree<N, V>)
    requires t.Node? && t.left.Node? && t.left.right.Node? && Distinct(t) && up !! Nodes(t)
    ensures Nodes(t) == Nodes(t.left.left) + Nodes(t.left.right.left) + Nodes(t.left.right.right) + Nodes(t.right)
                        + {t.left.it.id, t.left.right.it.id, t.it.id}
    ensures FourApart(up, t.left.it.id, t.left.right.it.id, t.it.id,
                      t.left.left, t.left.right.left, t.left.right.right, t.right)
  {
    RightPieces(up, t.left);
  }

  lemma PiecesBoth<N, V>(up: set<N>, t: Tree<N, V>)
    requires t.Node? && t.left.Node? && t.right.Node?
    requires FourApart(up, t.left.it.id, t.it.id, t.right.it.id, t.left.left, t.left.right, t.right.left, t.right.right)
    ensures Nodes(t) == Nodes(t.left.left) + Nodes(t.left.right) + Nodes(t.right.left) + Nodes(t.right.right)
                        + {t.left.it.id, t.it.id, t.right.it.id}
    ensures Distinct(t) && up !! Nodes(t)
  {
    assert Distinct(t.left);
    assert Distinct(t.right);
  }

  lemma Regroup<K, T>(a: map<K, T>, b: map<K, T>, c: map<K, T>, d: map<K, T>)
    ensures a + (b + c + d) == a + b + (c + d)
    ensures (a + b + c) + d == a + b + (c + d)
    ensures (a + b) + c + d == a + b + (c + d)
  {
  }

  lemma Append3<K, T>(x: map<K, T>, s: map<K, T>, m: map<K, T>, s': map<K, T>)
    requires s == s'
    ensures x + (s + m) == x + s' + m
  {
  }

  lemma WholeRL<N, V>(up: Ctx<N, V>, t: Tree<N, V>)
    requires t.Node? && t.right.Node? && t.right.left.Node?
    requires t.it.id !in {t.right.it.id, t.right.left.it.id} && t.right.left.it.id != t.right.it.id
    requires t.right.left.it.id !in Nodes(t.right.right)
    ensures var (p, c, g) := (t.it.id, t.right.it.id, t.right.left.it.id);
      Whole(up, t) == CtxLinks(up, Some(p))
        + (Links(t.left, Some(p)) + Links(t.right.left.left, Some(g)) + (Links(t.right.left.right, Some(g)) + Links(t.right.right, Some(c))))
        + map[g := RecOf(t.right.left.it, Root(t.right.left.left), Root(t.right.left.right), Some(c)),
              c := RecOf(t.right.it, Some(g), Root(t.right.right), Some(p)),
              p := RecOf(t.it, Root(t.left), Some(c), Above(up))]
  {
    var p, c, g := t.it.id, t.right.it.id, t.right.left.it.id;
    LinksLeft(t.right, Some(p));
    var la := Links(t.left, Some(p));
    var r := Links(t.right.left.left, Some(g)) + Links(t.right.left.right, Some(g)) + Links(t.right.right, Some(c));
    var m := map[g := RecOf(t.right.left.it, Root(t.right.left.left), Root(t.right.left.right), Some(c)),
                 c := RecOf(t.right.it, Some(g), Root(t.right.right), Some(p))];
    var rp := RecOf(t.it, Root(t.left), Some(c), Above(up));
    assert Links(t, Above(up)) == (la + (r + m))[p := rp];
    NestOuterRight(la, r, m, p, rp);
    Regroup(la, Links(t.right.left.left, Some(g)), Links(t.right.left.right, Some(g)), Links(t.right.right, Some(c)));
    Append3(CtxLinks(up, Some(p)), la + r, m[p := rp],
            la + Links(t.right.left.left, Some(g)) + (Links(t.right.left.right, Some(g)) + Links(t.right.right, Some(c))));
  }

  lemma NestOuterRight<K, T>(a: map<K, T>, r: map<K, T>, m: map<K, T>, p: K, rp: T)
    ensures (a + (r + m))[p := rp] == (a + r) + m[p := rp]
  {
  }

  lemma NestOuterLeft<K, T>(r: map<K, T>, m: map<K, T>, d: map<K, T>, p: K, rp: T)
    requires m.Keys !! d.Keys
    ensures ((r + m) + d)[p := rp] == (r + d) + m[p := rp]
  {
  }

  lemma WholeLR<N, V>(up: Ctx<N, V>, t: Tree<N, V>)
    requires t.Node? && t.left.Node? && t.left.right.Node?
    requires t.it.id !in {t.left.it.id, t.left.right.it.id} && t.left.right.it.id != t.left.it.id
    requires t.left.it.id !in Nodes(t.right) && t.left.right.it.id !in Nodes(t.right)
    ensures var (p, c, g) := (t.it.id, t.left.it.id, t.left.right.it.id);
      Whole(up, t) == CtxLinks(up, Some(p))
        + (Links(t.left.left, Some(c)) + Links(t.left.right.left, Some(g)) + (Links(t.left.right.right, Some(g)) + Links(t.right, Some(p))))
        + map[c := RecOf(t.left.it, Root(t.left.left), Some(g), Some(p)),
              g := RecOf(t.left.right.it, Root(t.left.right.left), Root(t.left.right.right), Some(c)),
              p := RecOf(t.it, Some(c), Root(t.right), Above(up))]
  {
    var p, c, g := t.it.id, t.left.it.id, t.left.right.it.id;
    LinksRight(t.left, Some(p));
    var ld := Links(t.right, Some(p));
    var r := Links(t.left.left, Some(c)) + Links(t.left.right.left, Some(g)) + Links(t.left.right.right, Some(g));
    var m := map[c := RecOf(t.left.it, Root(t.left.left), Some(g), Some(p)),
                 g := RecOf(t.left.right.it, Root(t.left.right.left), Root(t.left.right.right), Some(c))];
    var rp := RecOf(t.it, Some(c), Root(t.right), Above(up));
    assert Links(t, Above(up)) == ((r + m) + ld)[p := rp];
    NestOuterLeft(r, m, ld, p, rp);
    Regroup(Links(t.left.left, Some(c)), Links(t.left.right.left, Some(g)), Links(t.left.right.right, Some(g)), ld);
    Append3(CtxLinks(up, Some(p)), r + ld, m[p := rp],
            Links(t.left.left, Some(c)) + Links(t.left.right.left, Some(g)) + (Links(t.left.right.right, Some(g)) + ld));
  }

  lemma NestBoth<K, T>(a: map<K, T>, b: map<K, T>, c: map<K, T>, d: map<K, T>, x: K, rx: T, y: K, ry: T, g: K, rg: T)
    requires x != y && x != g && y != g && x !in c && x !in d
    ensures ((a + b)[x := rx] + (c + d)[y := ry])[g := rg] == a + b + (c + d) + map[x := rx, g := rg, y := ry]
  {
  }

  lemma Regroup3<K, T>(a: map<K, T>, b: map<K, T>, c: map<K, T>)
    ensures a + (b + c) == a + b + c
  {
  }

  /** The table of a tree, from those of its four grandchildren. */
  lemma TreeOf<N, V>(t: Tree<N, V>, la: Table<N, V>, lb: Table<N, V>, lc: Table<N, V>, ld: Table<N, V>,
                     rx: Rec<N, V>, ry: Rec<N, V>, rg: Rec<N, V>, p: Option<N>)
    requires t.Node? && t.left.Node? && t.right.Node?
    requires la == Links(t.left.left, Some(t.left.it.id)) && lb == Links(t.left.right, Some(t.left.it.id))
    requires lc == Links(t.right.left, Some(t.right.it.id)) && ld == Links(t.right.right, Some(t.right.it.id))
    requires rx == RecOf(t.left.it, Root(t.left.left), Root(t.left.right), Some(t.it.id))
    requires ry == RecOf(t.right.it, Root(t.right.left), Root(t.right.right), Some(t.it.id))
    requires rg == RecOf(t.it, Some(t.left.it.id), Some(t.right.it.id), p)
    ensures Links(t, p) == ((la + lb)[t.left.it.id := rx] + (lc + ld)[t.right.it.id := ry])[t.it.id := rg]
  {
    assert Links(t.left, Some(t.it.id)) == (la + lb)[t.left.it.id := rx];
    assert Links(t.right, Some(t.it.id)) == (lc + ld)[t.right.it.id := ry];
  }

  lemma WholeBoth<N, V>(up: Ctx<N, V>, t: Tree<N, V>)
    requires t.Node? && t.left.Node? && t.right.Node?
    requires t.it.id !in {t.left.it.id, t.right.it.id} && t.left.it.id != t.right.it.id
    requires t.left.it.id !in Nodes(t.right.left) && t.left.it.id !in Nodes(t.right.right)
    ensures var (x, g, y) := (t.left.it.id, t.it.id, t.right.it.id);
      Whole(up, t) == CtxLinks(up, Some(g))
        + (Links(t.left.left, Some(x)) + Links(t.left.right, Some(x)) + (Links(t.right.left, Some(y)) + Links(t.right.right, Some(y))))
        + map[x := RecOf(t.left.it, Root(t.left.left), Root(t.left.right), Some(g)),
              g := RecOf(t.it, Some(x), Some(y), Above(up)),
              y := RecOf(t.right.it, Root(t.right.left), Root(t.right.right), Some(g))]
  {
    var x, g, y := t.left.it.id, t.it.id, t.right.it.id;
    var la, lb := Links(t.left.left, Some(x)), Links(t.left.right, Some(x));
    var lc, ld := Links(t.right.left, Some(y)), Links(t.right.right, Some(y));
    var rx := RecOf(t.left.it, Root(t.left.left), Root(t.left.right), Some(g));
    var ry := RecOf(t.right.it, Root(t.right.left), Root(t.right.right), Some(g));
    var rg := RecOf(t.it, Some(x), Some(y), Above(up));
    NestBoth(la, lb, lc, ld, x, rx, y, ry, g, rg);
    TreeOf(t, la, lb, lc, ld, rx, ry, rg, Above(up));
    var outer, inner, recs := CtxLinks(up, Some(g)), la + lb + (lc + ld), map[x := rx, g := rg, y := ry];
    assert Whole(up, t) == outer + (inner + recs);
    Regroup3(outer, inner, recs);
  }

  lemma Room3<N, V>(rest: Table<N, V>, recs: Table<N, V>, p: N, c: N, g: N)
    requires recs.Keys == {p, c, g} && p != c && p != g && c != g && recs.Keys !! rest.Keys
    requires recs[p].parent.Some? ==> recs[p].parent.value in rest
    requires (recs[g].left.Some? ==> recs[g].left.value in rest) && (recs[g].right.Some? ==> recs[g].right.value in rest)
    ensures HasRoom3(rest + recs, p, c, g)
  {
  }

  lemma RightLeftSplit<N, V>(rest: Table<N, V>, recs: Table<N, V>, p: N, c: N, g: N)
    requires recs.Keys == {p, c, g} && p != c && p != g && c != g && recs.Keys !! rest.Keys
    requires recs[p].parent.Some? ==> recs[p].parent.value in rest
    requires (recs[g].left.Some? ==> recs[g].left.value in rest) && (recs[g].right.Some? ==> recs[g].right.value in rest)
    requires HasRoom3(rest + recs, p, c, g)
    ensures RightLeft(rest + recs, p, c, g)
      == SetParent(SetParent(SetSlot(rest, recs[p].parent, p, g), recs[g].left, p), recs[g].right, c) + map[
        p := recs[p].(bal := Balanced, right := recs[g].left, parent := Some(g)),
        g := recs[g].(bal := Balanced, parent := recs[p].parent, left := Some(p), right := Some(c)),
        c := recs[c].(bal := Balanced, left := recs[g].right, parent := Some(g))]
  {
    Place3Split(rest, recs, p, c, g);
    RightLeftTailSplit(SetSlot(rest, recs[p].parent, p, g), map[
      p := recs[p].(bal := Balanced),
      c := recs[c].(bal := Balanced),
      g := recs[g].(bal := Balanced, parent := recs[p].parent)], p, c, g);
  }

  lemma LeftRightSplit<N, V>(rest: Table<N, V>, recs: Table<N, V>, p: N, c: N, g: N)
    requires recs.Keys == {p, c, g} && p != c && p != g && c != g && recs.Keys !! rest.Keys
    requires recs[p].parent.Some? ==> recs[p].parent.value in rest
    requires (recs[g].left.Some? ==> recs[g].left.value in rest) && (recs[g].right.Some? ==> recs[g].right.value in rest)
    requires HasRoom3(rest + recs, p, c, g)
    ensures LeftRight(rest + recs, p, c, g)
      == SetParent(SetParent(SetSlot(rest, recs[p].parent, p, g), recs[g].right, p), recs[g].left, c) + map[
        p := recs[p].(bal := Balanced, left := recs[g].right, parent := Some(g)),
        g := recs[g].(bal := Balanced, parent := recs[p].parent, left := Some(c), right := Some(p)),
        c := recs[c].(bal := Balanced, right := recs[g].left, parent := Some(g))]
  {
    Place3Split(rest, recs, p, c, g);
    LeftRightTailSplit(SetSlot(rest, recs[p].parent, p, g), map[
      p := recs[p].(bal := Balanced),
      c := recs[c].(bal := Balanced),
      g := recs[g].(bal := Balanced, parent := recs[p].parent)], p, c, g);
  }

  /** Outside the three nodes of a right-left rotation. */
  lemma DoubleMovesRL<N, V>(up: Ctx<N, V>, p: N, g: N, ch: N, la: Table<N, V>, b: Tree<N, V>, c: Tree<N, V>, ld: Table<N, V>)
    requires CtxDistinct(up) && p !in CtxNodes(up) && CtxNodes(up) !! la.Keys && CtxNodes(up) !! ld.Keys && la.Keys !! ld.Keys
    requires Apart(CtxNodes(up) + la.Keys + ld.Keys, b) && Apart(CtxNodes(up) + la.Keys + ld.Keys + Nodes(b), c)
    ensures SetParent(SetParent(SetSlot(CtxLinks(up, Some(p)) + (la + Links(b, Some(g)) + (Links(c, Some(g)) + ld)),
                                        Above(up), p, g), Root(b), p), Root(c), ch)
      == CtxLinks(up, Some(g)) + (la + Links(b, Some(p)) + (Links(c, Some(ch)) + ld))
  {
    OuterMoves(up, p, g, la, b, g, p, Links(c, Some(g)) + ld);
    Regroup(la, Links(b, Some(p)), Links(c, Some(g)), ld);
    MiddleMoves(CtxLinks(up, Some(g)), la + Links(b, Some(p)), c, g, ch, ld);
    Regroup(la, Links(b, Some(p)), Links(c, Some(ch)), ld);
  }

  /** Outside the three nodes of a left-right rotation. */
  lemma DoubleMovesLR<N, V>(up: Ctx<N, V>, p: N, g: N, ch: N, la: Table<N, V>, b: Tree<N, V>, c: Tree<N, V>, ld: Table<N, V>)
    requires CtxDistinct(up) && p !in CtxNodes(up) && CtxNodes(up) !! la.Keys && CtxNodes(up) !! ld.Keys && la.Keys !! ld.Keys
    requires Apart(CtxNodes(up) + la.Keys + ld.Keys, b) && Apart(CtxNodes(up) + la.Keys + ld.Keys + Nodes(b), c)
    ensures SetParent(SetParent(SetSlot(CtxLinks(up, Some(p)) + (la + Links(b, Some(g)) + (Links(c, Some(g)) + ld)),
                                        Above(up), p, g), Root(c), p), Root(b), ch)
      == CtxLinks(up, Some(g)) + (la + Links(b, Some(ch)) + (Links(c, Some(p)) + ld))
  {
    Regroup(la, Links(b, Some(g)), Links(c, Some(g)), ld);
    OuterMoves(up, p, g, la + Links(b, Some(g)), c, g, p, ld);
    Regroup(la, Links(b, Some(g)), Links(c, Some(p)), ld);
    MiddleMoves(CtxLinks(up, Some(g)), la, b, g, ch, Links(c, Some(p)) + ld);
  }

  lemma RightLeftNodes<N, V>(up: Ctx<N, V>, t: Tree<N, V>)
    requires t.Node? && t.right.Node? && t.right.left.Node? && Fits(up, t)
    ensures var r := RotateRightLeft(AsWritten, t); Fits(up, r) && Nodes(r) == Nodes(t)
    ensures FourApart(CtxNodes(up), t.it.id, t.right.left.it.id, t.right.it.id,
                      t.left, t.right.left.left, t.right.left.right, t.right.right)
  {
    PiecesRL(CtxNodes(up), t);
    PiecesBoth(CtxNodes(up), RotateRightLeft(AsWritten, t));
  }

  lemma LeftRightNodes<N, V>(up: Ctx<N, V>, t: Tree<N, V>)
    requires t.Node? && t.left.Node? && t.left.right.Node? && Fits(up, t)
    ensures var r := RotateLeftRight(AsWritten, t); Fits(up, r) && Nodes(r) == Nodes(t)
    ensures FourApart(CtxNodes(up), t.left.it.id, t.left.right.it.id, t.it.id,
                      t.left.left, t.left.right.left, t.left.right.right, t.right)
  {
    PiecesLR(CtxNodes(up), t);
    PiecesBoth(CtxNodes(up), RotateLeftRight(AsWritten, t));
  }

  /** Four subtrees below a context, outside the nodes of a rotation. */
  ghost function Outer<N, V>(up: Ctx<N, V>, hole: N, la: Table<N, V>, lb: Table<N, V>, lc: Table<N, V>, ld: Table<N, V>): Table<N, V> {
    CtxLinks(up, Some(hole)) + (la + lb + (lc + ld))
  }

  lemma OuterKeys<N, V>(up: Ctx<N, V>, hole: N, la: Table<N, V>, b: Tree<N, V>, q: N, c: Tree<N, V>, r: N, ld: Table<N, V>)
    ensures var m := Outer(up, hole, la, Links(b, Some(q)), Links(c, Some(r)), ld);
      && m.Keys == CtxNodes(up) + la.Keys + Nodes(b) + Nodes(c) + ld.Keys
      && (Above(up).Some? ==> Above(up).value in m)
      && (Root(b).Some? ==> Root(b).value in m) && (Root(c).Some? ==> Root(c).value in m)
  {
    AboveIn(up);
    RootIn(b);
    RootIn(c);
  }

  /** The nodes of a double rotation are not among the nodes outside it. */
  lemma OutsideThree<N, V>(up: Ctx<N, V>, hole: N, ids: set<N>, a: Tree<N, V>, pa: Option<N>, b: Tree<N, V>, q: N,
                           c: Tree<N, V>, r: N, d: Tree<N, V>, pd: Option<N>)
    requires ids !! CtxNodes(up) && Four(CtxNodes(up) + ids, a, b, c, d)
    ensures var m := Outer(up, hole, Links(a, pa), Links(b, Some(q)), Links(c, Some(r)), Links(d, pd));
      && ids !! m.Keys
      && (Above(up).Some? ==> Above(up).value in m)
      && (Root(b).Some? ==> Root(b).value in m) && (Root(c).Some? ==> Root(c).value in m)
  {
    OuterKeys(up, hole, Links(a, pa), b, q, c, r, Links(d, pd));
  }

  ghost function OuterRL<N, V>(up: Ctx<N, V>, t: Tree<N, V>): Table<N, V>
    requires t.Node? && t.right.Node? && t.right.left.Node?
  {
    var (p, c, g) := (t.it.id, t.right.it.id, t.right.left.it.id);
    Outer(up, p, Links(t.left, Some(p)), Links(t.right.left.left, Some(g)), Links(t.right.left.right, Some(g)), Links(t.right.right, Some(c)))
  }

  ghost function RecsRL<N, V>(up: Ctx<N, V>, t: Tree<N, V>): Table<N, V>
    requires t.Node? && t.right.Node? && t.right.left.Node?
  {
    var (p, c, g) := (t.it.id, t.right.it.id, t.right.left.it.id);
    map[g := RecOf(t.right.left.it, Root(t.right.left.left), Root(t.right.left.right), Some(c)),
        c := RecOf(t.right.it, Some(g), Root(t.right.right), Some(p)),
        p := RecOf(t.it, Root(t.left), Some(c), Above(up))]
  }

  lemma PartsRL<N, V>(up: Ctx<N, V>, t: Tree<N, V>)
    requires t.Node? && t.right.Node? && t.right.left.Node? && Fits(up, t)
    ensures var (p, c, g) := (t.it.id, t.right.it.id, t.right.left.it.id);
      && p != c && p != g && c != g && {p, c, g} !! OuterRL(up, t).Keys
      && HasRoom3(OuterRL(up, t) + RecsRL(up, t), p, c, g)
      && Whole(up, t) == OuterRL(up, t) + RecsRL(up, t)
  {
    var p, c, g := t.it.id, t.right.it.id, t.right.left.it.id;
    RightLeftNodes(up, t);
    OutsideThree(up, p, {p, g, c}, t.left, Some(p), t.right.left.left, g, t.right.left.right, g, t.right.right, Some(c));
    RoomRL(up, t);
    WholeIsPartsRL(up, t);
  }

  lemma WholeIsPartsRL<N, V>(up: Ctx<N, V>, t: Tree<N, V>)
    requires t.Node? && t.right.Node? && t.right.left.Node?
    requires t.it.id !in {t.right.it.id, t.right.left.it.id} && t.right.left.it.id != t.right.it.id
    requires t.right.left.it.id !in Nodes(t.right.right)
    ensures Whole(up, t) == OuterRL(up, t) + RecsRL(up, t)
  {
    WholeRL(up, t);
  }

  lemma RoomRL<N, V>(up: Ctx<N, V>, t: Tree<N, V>)
    requires t.Node? && t.right.Node? && t.right.left.Node?
    requires t.it.id !in {t.right.it.id, t.right.left.it.id} && t.right.left.it.id != t.right.it.id
    requires {t.it.id, t.right.it.id, t.right.left.it.id} !! OuterRL(up, t).Keys
    requires Above(up).Some? ==> Above(up).value in OuterRL(up, t)
    requires Root(t.right.left.left).Some? ==> Root(t.right.left.left).value in OuterRL(up, t)
    requires Root(t.right.left.right).Some? ==> Root(t.right.left.right).value in OuterRL(up, t)
    ensures HasRoom3(OuterRL(up, t) + RecsRL(up, t), t.it.id, t.right.it.id, t.right.left.it.id)
  {
    Room3(OuterRL(up, t), RecsRL(up, t), t.it.id, t.right.it.id, t.right.left.it.id);
  }

  lemma RightLeftBegin<N, V>(up: Ctx<N, V>, t: Tree<N, V>)
    requires t.Node? && t.right.Node? && t.right.left.Node?
    requires t.it.id !in {t.right.it.id, t.right.left.it.id} && t.right.left.it.id != t.right.it.id
    requires {t.it.id, t.right.it.id, t.right.left.it.id} !! OuterRL(up, t).Keys
    requires HasRoom3(OuterRL(up, t) + RecsRL(up, t), t.it.id, t.right.it.id, t.right.left.it.id)
    ensures var (p, c, g) := (t.it.id, t.right.it.id, t.right.left.it.id);
      var (b, d) := (t.right.left.left, t.right.left.right);
      RightLeft(OuterRL(up, t) + RecsRL(up, t), p, c, g)
      == SetParent(SetParent(SetSlot(OuterRL(up, t), Above(up), p, g), Root(b), p), Root(d), c)
         + map[p := RecOf(t.it.(bal := Balanced), Root(t.left), Root(b), Some(g)),
               g := RecOf(t.right.left.it.(bal := Balanced), Some(p), Some(c), Above(up)),
               c := RecOf(t.right.it.(bal := Balanced), Root(d), Root(t.right.right), Some(g))]
  {
    hide RightLeft, HasRoom3;
    RightLeftSplit(OuterRL(up, t), RecsRL(up, t), t.it.id, t.right.it.id, t.right.left.it.id);
  }

  lemma RightLeftEnd<N, V>(up: Ctx<N, V>, t: Tree<N, V>)
    requires t.Node? && t.right.Node? && t.right.left.Node? && Fits(up, t)
    ensures var (p, c, g) := (t.it.id, t.right.it.id, t.right.left.it.id);
      var (b, d) := (t.right.left.left, t.right.left.right);
      SetParent(SetParent(SetSlot(OuterRL(up, t), Above(up), p, g), Root(b), p), Root(d), c)
      + map[p := RecOf(t.it.(bal := Balanced), Root(t.left), Root(b), Some(g)),
            g := RecOf(t.right.left.it.(bal := Balanced), Some(p), Some(c), Above(up)),
            c := RecOf(t.right.it.(bal := Balanced), Root(d), Root(t.right.right), Some(g))]
      == Whole(up, RotateRightLeft(AsWritten, t))
  {
    RightLeftNodes(up, t);
    var p, c, g := t.it.id, t.right.it.id, t.right.left.it.id;
    DoubleMovesRL(up, p, g, c, Links(t.left, Some(p)), t.right.left.left, t.right.left.right, Links(t.right.right, Some(c)));
    WholeBoth(up, RotateRightLeft(AsWritten, t));
  }

  lemma RightLeftWhole<N, V>(up: Ctx<N, V>, t: Tree<N, V>)
    requires t.Node? && t.right.Node? && t.right.left.Node? && Fits(up, t)
    ensures var (m, p, c, g) := (Whole(up, t), t.it.id, t.right.it.id, t.right.left.it.id);
      && HasRoom3(m, p, c, g)
      && RightLeft(m, p, c, g) == Whole(up, RotateRightLeft(AsWritten, t))
    ensures var r := RotateRightLeft(AsWritten, t); Fits(up, r) && Nodes(r) == Nodes(t)
  {
    RightLeftNodes(up, t);
    PartsRL(up, t);
    RightLeftBegin(up, t);
    RightLeftEnd(up, t);
  }

  ghost function OuterLR<N, V>(up: Ctx<N, V>, t: Tree<N, V>): Table<N, V>
    requires t.Node? && t.left.Node? && t.left.right.Node?
  {
    var (p, c, g) := (t.it.id, t.left.it.id, t.left.right.it.id);
    Outer(up, p, Links(t.left.left, Some(c)), Links(t.left.right.left, Some(g)), Links(t.left.right.right, Some(g)), Links(t.right, Some(p)))
  }

  ghost function RecsLR<N, V>(up: Ctx<N, V>, t: Tree<N, V>): Table<N, V>
    requires t.Node? && t.left.Node? && t.left.right.Node?
  {
    var (p, c, g) := (t.it.id, t.left.it.id, t.left.right.it.id);
    map[c := RecOf(t.left.it, Root(t.left.left), Some(g), Some(p)),
        g := RecOf(t.left.right.it, Root(t.left.right.left), Root(t.left.right.right), Some(c)),
        p := RecOf(t.it, Some(c), Root(t.right), Above(up))]
  }

  lemma PartsLR<N, V>(up: Ctx<N, V>, t: Tree<N, V>)
    requires t.Node? && t.left.Node? && t.left.right.Node? && Fits(up, t)
    ensures var (p, c, g) := (t.it.id, t.left.it.id, t.left.right.it.id);
      && p != c && p != g && c != g && {p, c, g} !! OuterLR(up, t).Keys
      && HasRoom3(OuterLR(up, t) + RecsLR(up, t), p, c, g)
      && Whole(up, t) == OuterLR(up, t) + RecsLR(up, t)
  {
    var p, c, g := t.it.id, t.left.it.id, t.left.right.it.id;
    LeftRightNodes(up, t);
    OutsideThree(up, p, {c, g, p}, t.left.left, Some(c), t.left.right.left, g, t.left.right.right, g, t.right, Some(p));
    RoomLR(up, t);
    WholeIsPartsLR(up, t);
  }

  lemma WholeIsPartsLR<N, V>(up: Ctx<N, V>, t: Tree<N, V>)
    requires t.Node? && t.left.Node? && t.left.right.Node?
    requires t.it.id !in {t.left.it.id, t.left.right.it.id} && t.left.right.it.id != t.left.it.id
    requires t.left.it.id !in Nodes(t.right) && t.left.right.it.id !in Nodes(t.right)
    ensures Whole(up, t) == OuterLR(up, t) + RecsLR(up, t)
  {
    WholeLR(up, t);
  }

  lemma RoomLR<N, V>(up: Ctx<N, V>, t: Tree<N, V>)
    requires t.Node? && t.left.Node? && t.left.right.Node?
    requires t.it.id !in {t.left.it.id, t.left.right.it.id} && t.left.right.it.id != t.left.it.id
    requires {t.it.id, t.left.it.id, t.left.right.it.id} !! OuterLR(up, t).Keys
    requires Above(up).Some? ==> Above(up).value in OuterLR(up, t)
    requires Root(t.left.right.left).Some? ==> Root(t.left.right.left).value in OuterLR(up, t)
    requires Root(t.left.right.right).Some? ==> Root(t.left.right.right).value in OuterLR(up, t)
    ensures HasRoom3(OuterLR(up, t) + RecsLR(up, t), t.it.id, t.left.it.id, t.left.right.it.id)
  {
    Room3(OuterLR(up, t), RecsLR(up, t), t.it.id, t.left.it.id, t.left.right.it.id);
  }

  lemma LeftRightBegin<N, V>(up: Ctx<N, V>, t: Tree<N, V>)
    requires t.Node? && t.left.Node? && t.left.right.Node?
    requires t.it.id !in {t.left.it.id, t.left.right.it.id} && t.left.right.it.id != t.left.it.id
    requires {t.it.id, t.left.it.id, t.left.right.it.id} !! OuterLR(up, t).Keys
    requires HasRoom3(OuterLR(up, t) + RecsLR(up, t), t.it.id, t.left.it.id, t.left.right.it.id)
    ensures var (p, c, g) := (t.it.id, t.left.it.id, t.left.right.it.id);
      var (b, d) := (t.left.right.left, t.left.right.right);
      LeftRight(OuterLR(up, t) + RecsLR(up, t), p, c, g)
      == SetParent(SetParent(SetSlot(OuterLR(up, t), Above(up), p, g), Root(d), p), Root(b), c)
         + map[p := RecOf(t.it.(bal := Balanced), Root(d), Root(t.right), Some(g)),
               g := RecOf(t.left.right.it.(bal := Balanced), Some(c), Some(p), Above(up)),
               c := RecOf(t.left.it.(bal := Balanced), Root(t.left.left), Root(b), Some(g))]
  {
    hide LeftRight, HasRoom3;
    LeftRightSplit(OuterLR(up, t), RecsLR(up, t), t.it.id, t.left.it.id, t.left.right.it.id);
  }

  lemma LeftRightEnd<N, V>(up: Ctx<N, V>, t: Tree<N, V>)
    requires t.Node? && t.left.Node? && t.left.right.Node? && Fits(up, t)
    ensures var (p, c, g) := (t.it.id, t.left.it.id, t.left.right.it.id);
      var (b, d) := (t.left.right.left, t.left.right.right);
      SetParent(SetParent(SetSlot(OuterLR(up, t), Above(up), p, g), Root(d), p), Root(b), c)
      + map[p := RecOf(t.it.(bal := Balanced), Root(d), Root(t.right), Some(g)),
            g := RecOf(t.left.right.it.(bal := Balanced), Some(c), Some(p), Above(up)),
            c := RecOf(t.left.it.(bal := Balanced), Root(t.left.left), Root(b), Some(g))]
      == Whole(up, RotateLeftRight(AsWritten, t))
  {
    LeftRightNodes(up, t);
    var p, c, g := t.it.id, t.left.it.id, t.left.right.it.id;
    DoubleMovesLR(up, p, g, c, Links(t.left.left, Some(c)), t.left.right.left, t.left.right.right, Links(t.right, Some(p)));
    WholeBoth(up, RotateLeftRight(AsWritten, t));
    Reorder(p, RecOf(t.it.(bal := Balanced), Root(t.left.right.right), Root(t.right), Some(g)),
            g, RecOf(t.left.right.it.(bal := Balanced), Some(c), Some(p), Above(up)),
            c, RecOf(t.left.it.(bal := Balanced), Root(t.left.left), Root(t.left.right.left), Some(g)));
  }

  lemma Reorder<K, T>(p: K, rp: T, g: K, rg: T, c: K, rc: T)
    requires p != g && p != c && g != c
    ensures map[p := rp, g := rg, c := rc] == map[c := rc, g := rg, p := rp]
  {
  }

  lemma LeftRightWhole<N, V>(up: Ctx<N, V>, t: Tree<N, V>)
    requires t.Node? && t.left.Node? && t.left.right.Node? && Fits(up, t)
    ensures var (m, p, c, g) := (Whole(up, t), t.it.id, t.left.it.id, t.left.right.it.id);
      && HasRoom3(m, p, c, g)
      && LeftRight(m, p, c, g) == Whole(up, RotateLeftRight(AsWritten, t))
    ensures var r := RotateLeftRight(AsWritten, t); Fits(up, r) && Nodes(r) == Nodes(t)
  {
    LeftRightNodes(up, t);
    PartsLR(up, t);
    LeftRightBegin(up, t);
    LeftRightEnd(up, t);
  }
}
