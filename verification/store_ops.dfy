/**
  The primitives of `RedBlackTree` on the store of node objects, besides the
  rotations: moving along links, `_minimum`, `_transplant`, the side test of
  `_delete_fixup`, recolouring, `_find_node`, and the descent and linking
  steps of `insert`. Each is proved to do on the store what its counterpart
  in `Deletion`, `Searching` or `Insertion` does on tree values.
 */
module StoreOps {
  import opened StrOrder
  import opened AssocList
  import opened Trees
  import opened Cursors
  import opened Links
  import Deletion
  import Searching
  import Insertion

  // ----- moving along links -----

  /** `x = x.left` on a held cursor: the left child is held by the cursor one step down to the left. */
  lemma AtDownLeft<D>(s: Store<D>, x: Ref, p: Ref, c: Cursor<D>)
    requires At(s, x, p, c) && c.focus.Node?
    ensures x in s.recs && At(s, s.recs[x].left, x, DownLeft(c))
  {
    RepFacts(s, x, p, c.focus);
    CtxFacts(s, x, p, c.ctx);
  }

  /** `x = x.right` on a held cursor. */
  lemma AtDownRight<D>(s: Store<D>, x: Ref, p: Ref, c: Cursor<D>)
    requires At(s, x, p, c) && c.focus.Node?
    ensures x in s.recs && At(s, s.recs[x].right, x, DownRight(c))
  {
    RepFacts(s, x, p, c.focus);
    CtxFacts(s, x, p, c.ctx);
  }

  // ----- what the fixup loops read: colours, sides, `self.root` -----

  /** `x.color`, where the sentinel reads as BLACK. */
  function ColorAt<D>(s: Store<D>, x: Ref): Color
    requires Valid(s, x)
  {
    if x == NULL then Black else s.recs[x].color
  }

  /**
    The store holds the cursor `c` at `x`, and `x.parent` (the sentinel's
    own field when `x` is the sentinel) names the parent of `x`'s slot:
    what the fixup loops need to climb from `x`.
   */
  ghost predicate Held<D>(s: Store<D>, x: Ref, c: Cursor<D>) {
    Valid(s, x) && At(s, x, Parent(s, x), c)
  }

  /** A held subtree's root has the subtree's colour, the sentinel BLACK. */
  lemma RepColor<D>(s: Store<D>, x: Ref, p: Ref, t: Tree<D>)
    requires Rep(s, x, p, t)
    ensures Valid(s, x) && ColorAt(s, x) == ColorOf(t)
  {
    RepFacts(s, x, p, t);
  }

  /** `self.root` is one of the nodes a context below the top accounts for. */
  lemma {:induction false} RootInCtx<D>(s: Store<D>, x: Ref, p: Ref, ctx: Ctx<D>)
    requires RepCtx(s, x, p, ctx) && !ctx.Top?
    ensures s.root in CtxRefs(s, p, ctx)
    decreases ctx
  {
    match ctx
    case InLeft(up, _, _, _, _) =>
      if !up.Top? {
        RootInCtx(s, p, s.recs[p].parent, up);
      }
    case InRight(up, _, _, _, _) =>
      if !up.Top? {
        RootInCtx(s, p, s.recs[p].parent, up);
      }
  }

  /**
    `x == self.root` and `x.color`, read on the store, are what the held
    cursor says: `x` is the root exactly at the top, even when `x` is the
    sentinel and the tree is not empty.
   */
  lemma HeldFacts<D>(s: Store<D>, x: Ref, c: Cursor<D>)
    requires Held(s, x, c)
    ensures x == s.root <==> c.ctx.Top?
    ensures ColorAt(s, x) == ColorOf(c.focus)
  {
    RepFacts(s, x, Parent(s, x), c.focus);
    CtxFacts(s, x, Parent(s, x), c.ctx);
    if !c.ctx.Top? {
      RootInCtx(s, x, Parent(s, x), c.ctx);
    }
  }

  /** `x.parent.color` of a held real node is the colour its context gives its parent, BLACK at the top. */
  lemma HeldParent<D>(s: Store<D>, x: Ref, c: Cursor<D>)
    requires Held(s, x, c) && c.focus.Node?
    ensures x in s.recs && Valid(s, s.recs[x].parent)
    ensures ColorAt(s, s.recs[x].parent) == ParentColor(c.ctx)
  {
    RepFacts(s, x, Parent(s, x), c.focus);
    CtxFacts(s, x, Parent(s, x), c.ctx);
  }

  /** The identity tests `x == x.parent.left` and `x == x.parent.right` on a held real node tell its side. */
  lemma ChildSides<D>(s: Store<D>, x: Ref, p: Ref, c: Cursor<D>)
    requires At(s, x, p, c) && !c.ctx.Top? && c.focus.Node?
    ensures p in s.recs
    ensures x == s.recs[p].left <==> c.ctx.InLeft?
    ensures x == s.recs[p].right <==> c.ctx.InRight?
  {
    RepFacts(s, x, p, c.focus);
    CtxFacts(s, x, p, c.ctx);
    if c.ctx.InLeft? {
      RepFacts(s, s.recs[p].right, p, c.ctx.right);
    } else {
      RepFacts(s, s.recs[p].left, p, c.ctx.left);
    }
  }

  // ----- _minimum -----

  /**
    `_minimum(x)`: follow left links from a real node until the left child
    is the sentinel. The node reached is the subtree's leftmost node, as the
    value-level `Deletion.Minimum` finds it: it has no left child, nothing
    of the subtree comes before it, so it holds the least entry, and it is
    `x` itself exactly when its parent is still `x`'s parent.
   */
  method Minimum<D>(s: Store<D>, x: Ref, ghost p: Ref, ghost c: Cursor<D>) returns (m: Ref, ghost mc: Cursor<D>)
    requires At(s, x, p, c) && c.focus.Node?
    ensures Whole(mc) == c.focus && mc.focus.Node? && mc.focus.left.Nil? && Before(mc.ctx) == []
    ensures m in s.recs && s.recs[m].left == NULL
    ensures At(s, m, s.recs[m].parent, Cursor(mc.focus, Compose(mc.ctx, c.ctx)))
    ensures s.recs[m].parent == p <==> mc.ctx.Top?
    ensures Entries(c.focus)[0] == Entry(s.recs[m].key, s.recs[m].data)
  {
    RepFacts(s, x, p, c.focus);
    CtxFacts(s, x, p, c.ctx);
    m, mc := x, Cursor(c.focus, Top);
    ghost var q := p;
    while Left(s, m) != NULL                          // line 37
      invariant At(s, m, q, Cursor(mc.focus, Compose(mc.ctx, c.ctx)))
      invariant Whole(mc) == c.focus && mc.focus.Node? && Before(mc.ctx) == []
      invariant Refs(s, m, mc.focus) <= Refs(s, x, c.focus)
      invariant mc.ctx.Top? ==> q == p
      invariant !mc.ctx.Top? ==> q in Refs(s, x, c.focus)
      decreases Size(mc.focus)
    {
      RepFacts(s, m, q, mc.focus);
      AtDownLeft(s, m, q, Cursor(mc.focus, Compose(mc.ctx, c.ctx)));
      RepFacts(s, s.recs[m].left, m, mc.focus.left);
      q, mc := m, DownLeft(mc);
      m := s.recs[m].left;                            // line 38
    }
    RepFacts(s, m, q, mc.focus);
    RepFacts(s, NULL, m, mc.focus.left);
    Deletion.DropFirst(mc);
  }

  // ----- _transplant -----

  /**
    `_transplant(u, v)`: `v` takes `u`'s slot, which is `self.root` when
    `u.parent` is the sentinel and otherwise the child slot of `u.parent`
    that holds `u`; then `v`'s parent link becomes `u`'s parent (line 34), even when
    `v` is the sentinel.
   */
  function Transplant<D>(s: Store<D>, u: Ref, v: Ref): (r: Store<D>)
    requires Valid(s, u) && Valid(s, v) && Valid(s, Parent(s, u))
    ensures r.recs.Keys == s.recs.Keys
    ensures Parent(r, v) == Parent(s, u)
  {
    var p := Parent(s, u);
    var s1 := if p == NULL then s.(root := v)
              else if u == Left(s, p) then SetLeft(s, p, v)
              else SetRight(s, p, v);
    SetParent(s1, v, p)
  }

  /** The links `_transplant` leaves, when `v` is not `u`'s parent: `v` in `u`'s slot, `v`'s parent set, nothing else changed. */
  lemma TransplantLinks<D>(s: Store<D>, u: Ref, v: Ref)
    requires u in s.recs && Valid(s, v) && Valid(s, Parent(s, u))
    requires v != NULL ==> v != Parent(s, u)
    ensures var r := Transplant(s, u, v);
            && Replaced(s, r, Parent(s, u), u, v, true)
            && Untouched(s, r, {v, Parent(s, u)})
            && (v != NULL ==> v in r.recs && r.recs[v] == s.recs[v].(parent := Parent(s, u)))
            && (v != NULL ==> r.nullParent == s.nullParent)
  {
  }

  /**
    `_transplant(u, v)` on a held cursor at a real `u`, with `v` one of
    `u`'s children, does what `Deletion.Transplant` does on values: the
    store holds the old context around `v`'s subtree, `v.parent` (the
    sentinel's own parent field when `v` is the sentinel) is `u`'s old
    parent, and `self.root` holds the transplanted tree.
   */
  lemma TransplantRefines<D>(s: Store<D>, u: Ref, p: Ref, c: Cursor<D>, v: Ref, vt: Tree<D>)
    requires At(s, u, p, c) && c.focus.Node?
    requires (v, vt) == (s.recs[u].left, c.focus.left) || (v, vt) == (s.recs[u].right, c.focus.right)
    ensures Valid(s, v) && Parent(s, u) == p && Valid(s, p)
    ensures At(Transplant(s, u, v), v, p, Deletion.Transplant(c, vt))
    ensures Parent(Transplant(s, u, v), v) == p
    ensures Holds(Transplant(s, u, v), Whole(Deletion.Transplant(c, vt)))
    ensures Refs(Transplant(s, u, v), v, vt) == Refs(s, v, vt)
    ensures CtxRefs(Transplant(s, u, v), p, c.ctx) == CtxRefs(s, p, c.ctx)
  {
    RepFacts(s, u, p, c.focus);
    CtxFacts(s, u, p, c.ctx);
    RepFacts(s, v, u, vt);
    var r := Transplant(s, u, v);
    TransplantLinks(s, u, v);
    KeepsOutside(s, r, Refs(s, v, vt) - {v}, {v, p});
    RepMoved(s, r, v, u, p, vt);
    ContextRelinked(s, u, p, c, v, r, {v} - {NULL}, true);
    AtWhole(r, v, p, Cursor(vt, c.ctx));
  }

  // ----- the side test of _delete_fixup -----

  /**
    `x == x.parent.left` on the store. Provided `x.parent` is the parent of
    `x`'s slot, as `_transplant` leaves it even for the sentinel, the test
    is `Deletion.SideIsLeft` of the held cursor: true for a left child, and
    for the sentinel also when the parent's left child is the sentinel too.
   */
  lemma SideTest<D>(s: Store<D>, x: Ref, p: Ref, c: Cursor<D>)
    requires At(s, x, p, c) && !c.ctx.Top? && Parent(s, x) == p
    ensures Valid(s, p)
    ensures x == Left(s, Parent(s, x)) <==> Deletion.SideIsLeft(c)
  {
    RepFacts(s, x, p, c.focus);
    CtxFacts(s, x, p, c.ctx);
    if c.ctx.InRight? {
      RepFacts(s, s.recs[p].left, p, c.ctx.left);
    }
  }

  // ----- rewriting one node's own fields -----

  /** A store that rewrote only the key, payload or colour of a held node holds the rewritten tree. */
  lemma Rewritten<D>(s: Store<D>, x: Ref, p: Ref, c: Cursor<D>, r: Store<D>, t: Tree<D>)
    requires At(s, x, p, c) && c.focus.Node? && t.Node?
    requires t.left == c.focus.left && t.right == c.focus.right
    requires Untouched(s, r, {x}) && r.root == s.root
    requires x in r.recs && r.recs[x] == s.recs[x].(key := t.key, data := t.data, color := t.color)
    ensures At(r, x, p, Cursor(t, c.ctx)) && Holds(r, Plug(t, c.ctx))
  {
    var n := s.recs[x];
    RepFacts(s, x, p, c.focus);
    CtxFacts(s, x, p, c.ctx);
    RepFacts(s, n.left, x, t.left);
    RepFacts(s, n.right, x, t.right);
    KeepsOutside(s, r, Refs(s, n.left, t.left), {x});
    KeepsOutside(s, r, Refs(s, n.right, t.right), {x});
    RepMoved(s, r, n.left, x, x, t.left);
    RepMoved(s, r, n.right, x, x, t.right);
    RepJoin(r, x, p, t);
    KeepsOutside(s, r, CtxRefs(s, p, c.ctx) - {p}, {x});
    RepCtxRelink(s, r, x, x, p, c.ctx);
    AtWhole(r, x, p, Cursor(t, c.ctx));
  }

  /** `x.color = c` on a held real node repaints the subtree's root, as `Paint` does. */
  lemma RecolorRefines<D>(s: Store<D>, x: Ref, p: Ref, c: Cursor<D>, col: Color)
    requires At(s, x, p, c) && c.focus.Node?
    ensures x in s.recs
    ensures At(SetColor(s, x, col), x, p, Cursor(Paint(c.focus, col), c.ctx))
    ensures Holds(SetColor(s, x, col), Plug(Paint(c.focus, col), c.ctx))
  {
    RepFacts(s, x, p, c.focus);
    Rewritten(s, x, p, c, SetColor(s, x, col), Paint(c.focus, col));
  }

  /** `x.left.color = c` on a held node with a real left child repaints that child's subtree root. */
  lemma RecolorLeftChild<D>(s: Store<D>, x: Ref, p: Ref, c: Cursor<D>, col: Color)
    requires At(s, x, p, c) && c.focus.Node? && c.focus.left.Node?
    ensures x in s.recs && s.recs[x].left in s.recs
    ensures At(SetColor(s, s.recs[x].left, col), x, p, Cursor(c.focus.(left := Paint(c.focus.left, col)), c.ctx))
  {
    AtDownLeft(s, x, p, c);
    var y := s.recs[x].left;
    RepFacts(s, y, x, c.focus.left);
    RecolorRefines(s, y, x, DownLeft(c), col);
    AtUp(SetColor(s, y, col), y, x, Cursor(Paint(c.focus.left, col), DownLeft(c).ctx));
  }

  /** `x.right.color = c` on a held node with a real right child. */
  lemma RecolorRightChild<D>(s: Store<D>, x: Ref, p: Ref, c: Cursor<D>, col: Color)
    requires At(s, x, p, c) && c.focus.Node? && c.focus.right.Node?
    ensures x in s.recs && s.recs[x].right in s.recs
    ensures At(SetColor(s, s.recs[x].right, col), x, p, Cursor(c.focus.(right := Paint(c.focus.right, col)), c.ctx))
  {
    AtDownRight(s, x, p, c);
    var y := s.recs[x].right;
    RepFacts(s, y, x, c.focus.right);
    RecolorRefines(s, y, x, DownRight(c), col);
    AtUp(SetColor(s, y, col), y, x, Cursor(Paint(c.focus.right, col), DownRight(c).ctx));
  }

  /** `x.data = data` on a held real node replaces that node's payload and nothing else. */
  lemma SetDataRefines<D>(s: Store<D>, x: Ref, p: Ref, c: Cursor<D>, d: D)
    requires At(s, x, p, c) && c.focus.Node?
    ensures x in s.recs
    ensures At(SetData(s, x, d), x, p, Cursor(c.focus.(data := d), c.ctx))
    ensures Holds(SetData(s, x, d), Plug(c.focus.(data := d), c.ctx))
  {
    RepFacts(s, x, p, c.focus);
    Rewritten(s, x, p, c, SetData(s, x, d), c.focus.(data := d));
  }

  // ----- _find_node and search -----

  /**
    `_find_node(key)` and `search(key)` on the store: from `self.root`, stop
    at a node whose key equals `key`, otherwise go left when `key` is
    smaller and right when it is not, and give the sentinel (`None`) when
    the descent falls off the tree. The node found holds the key; in an
    ordered tree the sentinel comes back exactly when the key is absent, and
    a node found holds the payload the map lookup gives.
   */
  method FindRef<D>(s: Store<D>, k: string, ghost t: Tree<D>) returns (x: Ref, ghost p: Ref, ghost c: Cursor<D>)
    requires Holds(s, t)
    ensures x != NULL ==> x in s.recs && s.recs[x].key == k && k in Keys(t)
    ensures Ordered(t) ==> (x != NULL <==> k in Keys(t))
    ensures Ordered(t) && x != NULL ==> Lookup(Entries(t), k) == Some(s.recs[x].data)
    ensures x != NULL ==> At(s, x, p, c) && Whole(c) == t && c.focus.Node? && c.focus.key == k
    ensures x != NULL && Ordered(t) ==> KeyFits(c.ctx, k)
  {
    x := s.root;                                      // line 230
    p, c := NULL, Cursor(t, Top);
    while x != NULL                                   // line 231
      invariant At(s, x, p, c) && Whole(c) == t
      invariant Ordered(t) ==> KeyFits(c.ctx, k)
      decreases Size(c.focus)
    {
      RepFacts(s, x, p, c.focus);
      if k == s.recs[x].key {
        Searching.FocusKeyIn(c);
        if Ordered(t) {
          Searching.FoundLookup(c, k);
        }
        return;
      }
      if Ordered(t) {
        LessTrichotomy(k, c.focus.key);
        Descend(c, k);
      }
      if Less(k, s.recs[x].key) {
        AtDownLeft(s, x, p, c);
        p, c := x, DownLeft(c);
        x := s.recs[x].left;
      } else {
        AtDownRight(s, x, p, c);
        p, c := x, DownRight(c);
        x := s.recs[x].right;
      }
    }
    RepFacts(s, x, p, c.focus);
    if Ordered(t) {
      FitsAtSentinel(c.ctx, k);
    }
  }

  // ----- insert, up to _insert_fixup -----

  /**
    The linking step of `insert`: the fresh node `z` holds the key and
    payload, is RED with the sentinel for both children, gets `y` as its
    parent, and fills `self.root` when `y` is the sentinel, otherwise `y`'s
    left slot when the key is below `y`'s and its right slot when not.
   */
  function Link<D>(s: Store<D>, y: Ref, z: Ref, k: string, d: D): (r: Store<D>)
    requires Valid(s, y) && z != NULL && z !in s.recs
    ensures r.recs.Keys == s.recs.Keys + {z} && r.nullParent == s.nullParent
  {
    var s1 := s.(recs := s.recs[z := Rec(k, d, Red, NULL, NULL, NULL)]);
    var s2 := SetParent(s1, z, y);                    // line 91
    if y == NULL then s2.(root := z)                  // line 93
    else if Less(k, s2.recs[y].key) then SetLeft(s2, y, z)
    else SetRight(s2, y, z)
  }

  /** The last step down to the hole of `ctx` went to the side the comparison of `k` with the parent's key picks. */
  ghost predicate CameBy<D>(ctx: Ctx<D>, k: string) {
    match ctx
    case Top => true
    case InLeft(_, _, key, _, _) => Less(k, key)
    case InRight(_, _, _, key, _) => !Less(k, key)
  }

  /**
    Linking a fresh node where a key-directed descent fell off the tree
    does what `Insertion` does on values: the store holds the same context
    around a RED leaf with the key and payload, under the last node visited.
   */
  lemma LinkRefines<D>(s: Store<D>, y: Ref, ctx: Ctx<D>, z: Ref, k: string, d: D)
    requires At(s, NULL, y, Cursor(Nil, ctx))
    requires z != NULL && z !in s.recs
    requires CameBy(ctx, k)
    ensures Valid(s, y)
    ensures At(Link(s, y, z, k, d), z, y, Cursor(Node(Red, Nil, k, d, Nil), ctx))
    ensures Holds(Link(s, y, z, k, d), Plug(Node(Red, Nil, k, d, Nil), ctx))
  {
    CtxFacts(s, NULL, y, ctx);
    var r := Link(s, y, z, k, d);
    var leaf := Node(Red, Nil, k, d, Nil);
    assert Keeps(s, r, CtxRefs(s, y, ctx) - {y});
    RepCtxRelink(s, r, NULL, z, y, ctx);
    assert y != z && r.recs[z] == Rec(k, d, Red, NULL, NULL, y);
    assert Refs(r, NULL, Nil) == {} && Rep(r, NULL, z, Nil);
    RepJoin(r, z, y, leaf);
    AtWhole(r, z, y, Cursor(leaf, ctx));
  }

  /** One step of `insert`'s descent: the child on the side the key comparison picks is held one level down, and the key still fits there. */
  lemma DescendStep<D>(s: Store<D>, x: Ref, y: Ref, c: Cursor<D>, k: string)
    requires At(s, x, y, c) && c.focus.Node?
    requires Ordered(Whole(c)) ==> KeyFits(c.ctx, k)
    ensures x in s.recs && s.recs[x].key == c.focus.key
    ensures Less(k, c.focus.key) ==> At(s, s.recs[x].left, x, DownLeft(c))
                                     && (Ordered(Whole(c)) ==> KeyFits(DownLeft(c).ctx, k))
    ensures Less(c.focus.key, k) ==> At(s, s.recs[x].right, x, DownRight(c))
                                     && (Ordered(Whole(c)) ==> KeyFits(DownRight(c).ctx, k))
  {
    AtDownLeft(s, x, y, c);
    AtDownRight(s, x, y, c);
    if Ordered(Whole(c)) {
      Descend(c, k);
    }
  }

  /** The exit of `insert`'s descent at a node holding the key: the payload overwrite and what it means. */
  lemma ReplaceExit<D>(s: Store<D>, x: Ref, y: Ref, c: Cursor<D>, k: string, d: D)
    requires At(s, x, y, c) && c.focus.Node? && c.focus.key == k
    requires Ordered(Whole(c)) ==> KeyFits(c.ctx, k)
    ensures x in s.recs && k in Keys(Whole(c))
    ensures Holds(SetData(s, x, d), Plug(c.focus.(data := d), c.ctx))
    ensures IsRedBlack(Whole(c)) ==> Entries(Plug(c.focus.(data := d), c.ctx)) == Put(Entries(Whole(c)), k, d)
  {
    Searching.FocusKeyIn(c);
    SetDataRefines(s, x, y, c, d);
    if IsRedBlack(Whole(c)) {
      LessIrreflexive(k);
      FitsAtNode(c, k);
      Insertion.ReplaceSound(c, k, d);
    }
  }

  /** The exit of `insert`'s descent at the sentinel: the linking of `z` and what it means. */
  lemma LinkExit<D>(s: Store<D>, y: Ref, ctx: Ctx<D>, z: Ref, k: string, d: D)
    requires At(s, NULL, y, Cursor(Nil, ctx))
    requires z != NULL && z !in s.recs
    requires CameBy(ctx, k)
    requires Ordered(Plug(Nil, ctx)) ==> KeyFits(ctx, k)
    ensures Valid(s, y)
    ensures var r := Link(s, y, z, k, d);
            z in r.recs && At(r, z, r.recs[z].parent, Cursor(Node(Red, Nil, k, d, Nil), ctx))
    ensures Ordered(Plug(Nil, ctx)) ==> k !in Keys(Plug(Nil, ctx))
    ensures IsRedBlack(Plug(Nil, ctx)) ==> Insertion.FixupInv(Cursor(Node(Red, Nil, k, d, Nil), ctx))
    ensures IsRedBlack(Plug(Nil, ctx)) ==> Entries(Plug(Node(Red, Nil, k, d, Nil), ctx)) == Put(Entries(Plug(Nil, ctx)), k, d)
  {
    LinkRefines(s, y, ctx, z, k, d);
    if Ordered(Plug(Nil, ctx)) {
      FitsAtSentinel(ctx, k);
    }
    if IsRedBlack(Plug(Nil, ctx)) {
      Insertion.LinkSound(ctx, k, d);
    }
  }

  /**
    `insert(key, data)` on the store, up to the call of `_insert_fixup`:
    descend from `self.root` comparing keys. An equal key has that node's
    payload overwritten and nothing else changes. Otherwise the fresh RED
    node `z` is linked below the last node visited and the sentinel's own
    parent is not touched. The store holds the value-level result in both
    cases; in a valid tree it is the map update, and a linked node starts
    `_insert_fixup` with its loop invariant.
   */
  method InsertLink<D>(s: Store<D>, k: string, d: D, z: Ref, ghost t: Tree<D>)
    returns (r: Store<D>, linked: bool, ghost c: Cursor<D>)
    requires Holds(s, t)
    requires z != NULL && z !in s.recs
    ensures Whole(c) == t && r.nullParent == s.nullParent
    ensures !linked ==> c.focus.Node? && c.focus.key == k && k in Keys(t)
    ensures !linked ==> r.recs.Keys == s.recs.Keys && Holds(r, Plug(c.focus.(data := d), c.ctx))
    ensures linked ==> c.focus == Nil && r.recs.Keys == s.recs.Keys + {z}
    ensures linked ==> z in r.recs && At(r, z, r.recs[z].parent, Cursor(Node(Red, Nil, k, d, Nil), c.ctx))
    ensures Ordered(t) ==> (linked <==> k !in Keys(t))
    ensures IsRedBlack(t) && linked ==> Insertion.FixupInv(Cursor(Node(Red, Nil, k, d, Nil), c.ctx))
    ensures IsRedBlack(t) && linked ==> Entries(Plug(Node(Red, Nil, k, d, Nil), c.ctx)) == Put(Entries(t), k, d)
    ensures IsRedBlack(t) && !linked ==> Entries(Plug(c.focus.(data := d), c.ctx)) == Put(Entries(t), k, d)
  {
    var x, y;
    x, y, c := InsertDescent(s, k, t);
    if x != NULL {
      ReplaceExit(s, x, y, c, k, d);                  // the key is already there: line 88
      r, linked := SetData(s, x, d), false;
    } else {
      LinkExit(s, y, c.ctx, z, k, d);
      r, linked := Link(s, y, z, k, d), true;
    }
  }

  /**
    The descent loop of `insert`: from `self.root`, go left while the key
    is below the node's, right while it is above, and stop at a node with
    an equal key or at the sentinel. `y` trails one node behind `x`, and the
    side of the last step is the side the key comparison picked.
   */
  method InsertDescent<D>(s: Store<D>, k: string, ghost t: Tree<D>) returns (x: Ref, y: Ref, ghost c: Cursor<D>)
    requires Holds(s, t)
    ensures At(s, x, y, c) && Whole(c) == t
    ensures x != NULL ==> c.focus.Node? && c.focus.key == k
    ensures Ordered(t) ==> KeyFits(c.ctx, k)
    ensures CameBy(c.ctx, k)
    ensures x != NULL ==> x in s.recs && s.recs[x].key == k
    ensures Ordered(t) ==> (x == NULL <==> k !in Keys(t))
  {
    y, x := NULL, s.root;                             // lines 78-79
    c := Cursor(t, Top);
    while x != NULL                                   // line 80
      invariant At(s, x, y, c) && Whole(c) == t
      invariant Ordered(t) ==> KeyFits(c.ctx, k)
      invariant CameBy(c.ctx, k)
      decreases Size(c.focus)
    {
      DescendStep(s, x, y, c, k);
      if Less(k, s.recs[x].key) {
        c := DownLeft(c);
        y, x := x, s.recs[x].left;                    // lines 81, 83
      } else if Less(s.recs[x].key, k) {
        c := DownRight(c);
        y, x := x, s.recs[x].right;                   // lines 81, 85
      } else {
        LessTrichotomy(k, s.recs[x].key);
        Searching.FocusKeyIn(c);
        return;
      }
    }
    RepFacts(s, x, y, c.focus);
    if Ordered(t) {
      FitsAtSentinel(c.ctx, k);
    }
  }

}
