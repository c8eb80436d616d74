/**
  `delete` on the node store: the splice of lines 139-171, before
  `_delete_fixup`. The node holding the key is replaced by its only child
  or, when it has two, by its in-order successor, and the store is proved
  to hold the tree `Deletion.Delete` builds, with `x` and `x.parent` (the
  sentinel's own `parent` field when `x` is the sentinel) where the fixup
  expects them.
 */
module StoreDelete {
  import opened StrOrder
  import opened AssocList
  import opened Trees
  import opened Cursors
  import opened Links
  import opened StoreOps
  import Deletion

  /** The fields of a node that holds a subtree. */
  lemma NodeFields<D>(s: Store<D>, x: Ref, p: Ref, t: Tree<D>)
    requires Rep(s, x, p, t) && t.Node?
    ensures x != NULL && x in s.recs && s.recs[x].parent == p
    ensures s.recs[x].key == t.key && s.recs[x].data == t.data && s.recs[x].color == t.color
    ensures t.left.Nil? ==> s.recs[x].left == NULL
    ensures t.right.Nil? ==> s.recs[x].right == NULL
  {
  }

  // ----- paths through the store -----

  /** The nodes a held cursor accounts for: its subtree's and its context's. */
  ghost function Span<D>(s: Store<D>, x: Ref, p: Ref, c: Cursor<D>): set<Ref> {
    Refs(s, x, c.focus) + CtxRefs(s, p, c.ctx)
  }

  /**
    The node reached from `r` by following child links along the path of
    `inner`, read from its outermost step in.
   */
  ghost function Follow<D>(s: Store<D>, r: Ref, inner: Ctx<D>): Ref
    decreases inner
  {
    match inner
    case Top => r
    case InLeft(up, _, _, _, _) =>
      var a := Follow(s, r, up);
      if a in s.recs then s.recs[a].left else NULL
    case InRight(up, _, _, _, _) =>
      var a := Follow(s, r, up);
      if a in s.recs then s.recs[a].right else NULL
  }

  /** The node the last step of that path starts from; `q` for the empty path. */
  ghost function FollowParent<D>(s: Store<D>, r: Ref, q: Ref, inner: Ctx<D>): Ref {
    match inner
    case Top => q
    case InLeft(up, _, _, _, _) => Follow(s, r, up)
    case InRight(up, _, _, _, _) => Follow(s, r, up)
  }

  /** Moving up one level accounts for the same nodes. */
  lemma AtUpSpan<D>(s: Store<D>, x: Ref, p: Ref, c: Cursor<D>)
    requires At(s, x, p, c) && !c.ctx.Top?
    ensures At(s, p, s.recs[p].parent, Up(c))
    ensures Span(s, p, s.recs[p].parent, Up(c)) == Span(s, x, p, c)
  {
    AtUp(s, x, p, c);
  }

  /**
    Following the links of `inner` from a held subtree reaches the node
    holding the part of it that `inner` leads to, within the subtree.
   */
  lemma {:induction false} AtDescend<D>(s: Store<D>, r: Ref, q: Ref, f: Tree<D>, inner: Ctx<D>, outer: Ctx<D>)
    requires At(s, r, q, Cursor(Plug(f, inner), outer))
    ensures At(s, Follow(s, r, inner), FollowParent(s, r, q, inner), Cursor(f, Compose(inner, outer)))
    ensures Refs(s, Follow(s, r, inner), f) <= Refs(s, r, Plug(f, inner))
    ensures !inner.Top? ==> FollowParent(s, r, q, inner) in Refs(s, r, Plug(f, inner))
    decreases inner
  {
    match inner
    case Top =>
    case InLeft(up, c, k, d, rt) =>
      var g := Node(c, f, k, d, rt);
      AtDescend(s, r, q, g, up, outer);
      var a := Follow(s, r, up);
      RepFacts(s, a, FollowParent(s, r, q, up), g);
      AtDownLeft(s, a, FollowParent(s, r, q, up), Cursor(g, Compose(up, outer)));
    case InRight(up, c, lt, k, d) =>
      var g := Node(c, lt, k, d, f);
      AtDescend(s, r, q, g, up, outer);
      var a := Follow(s, r, up);
      RepFacts(s, a, FollowParent(s, r, q, up), g);
      AtDownRight(s, a, FollowParent(s, r, q, up), Cursor(g, Compose(up, outer)));
  }

  /** A path through a subtree whose child links did not change leads to the same node. */
  lemma {:induction false} FollowFrame<D>(s: Store<D>, s': Store<D>, r: Ref, q: Ref, f: Tree<D>, inner: Ctx<D>, outer: Ctx<D>)
    requires At(s, r, q, Cursor(Plug(f, inner), outer))
    requires forall n :: n in Refs(s, r, Plug(f, inner)) ==>
               n in s.recs && n in s'.recs && s'.recs[n].left == s.recs[n].left && s'.recs[n].right == s.recs[n].right
    ensures Follow(s', r, inner) == Follow(s, r, inner)
    ensures FollowParent(s', r, q, inner) == FollowParent(s, r, q, inner)
    decreases inner
  {
    match inner
    case Top =>
    case InLeft(up, c, k, d, rt) =>
      var g := Node(c, f, k, d, rt);
      FollowFrame(s, s', r, q, g, up, outer);
      AtDescend(s, r, q, g, up, outer);
      RepFacts(s, Follow(s, r, up), FollowParent(s, r, q, up), g);
    case InRight(up, c, lt, k, d) =>
      var g := Node(c, lt, k, d, f);
      FollowFrame(s, s', r, q, g, up, outer);
      AtDescend(s, r, q, g, up, outer);
      RepFacts(s, Follow(s, r, up), FollowParent(s, r, q, up), g);
  }

  /** A context is held around at most one slot: the same context means the same node and parent. */
  lemma {:induction false} CtxUnique<D>(s: Store<D>, a: Ref, pa: Ref, b: Ref, pb: Ref, ctx: Ctx<D>)
    requires RepCtx(s, a, pa, ctx) && RepCtx(s, b, pb, ctx)
    ensures a == b && pa == pb
    decreases ctx
  {
    match ctx
    case Top =>
    case InLeft(up, _, _, _, _) =>
      CtxUnique(s, pa, s.recs[pa].parent, pb, s.recs[pb].parent, up);
    case InRight(up, _, _, _, _) =>
      CtxUnique(s, pa, s.recs[pa].parent, pb, s.recs[pb].parent, up);
  }

  /** Climbing out of `inner` from a held cursor reaches a node holding the plugged subtree, accounting for the same nodes. */
  lemma {:induction false} AtAscend<D>(s: Store<D>, x: Ref, q: Ref, f: Tree<D>, inner: Ctx<D>, outer: Ctx<D>)
    returns (a: Ref, pa: Ref)
    requires At(s, x, q, Cursor(f, Compose(inner, outer)))
    ensures At(s, a, pa, Cursor(Plug(f, inner), outer))
    ensures Span(s, a, pa, Cursor(Plug(f, inner), outer)) == Span(s, x, q, Cursor(f, Compose(inner, outer)))
    decreases inner
  {
    match inner
    case Top =>
      a, pa := x, q;
    case InLeft(up, c, k, d, rt) =>
      AtUpSpan(s, x, q, Cursor(f, Compose(inner, outer)));
      a, pa := AtAscend(s, q, s.recs[q].parent, Node(c, f, k, d, rt), up, outer);
    case InRight(up, c, lt, k, d) =>
      AtUpSpan(s, x, q, Cursor(f, Compose(inner, outer)));
      a, pa := AtAscend(s, q, s.recs[q].parent, Node(c, lt, k, d, f), up, outer);
  }

  /** A store with the same nodes and root holds the same cursors, whatever the sentinel's own `parent` says. */
  lemma AtRelabel<D>(s: Store<D>, s': Store<D>, x: Ref, p: Ref, c: Cursor<D>)
    requires At(s, x, p, c) && s'.recs == s.recs && s'.root == s.root
    ensures At(s', x, p, c) && Span(s', x, p, c) == Span(s, x, p, c)
  {
    RepFacts(s, x, p, c.focus);
    CtxFacts(s, x, p, c.ctx);
    RepMoved(s, s', x, p, p, c.focus);
    RepCtxRelink(s, s', x, x, p, c.ctx);
  }

  // ----- the two-children splice, lines 158-168 -----

  /** Lines 163-164: `y` adopts `z`'s right subtree, whose root points back to `y`. */
  function AdoptRight<D>(s: Store<D>, z: Ref, y: Ref): (r: Store<D>)
    requires z in s.recs && y in s.recs && Valid(s, s.recs[z].right)
    ensures r.recs.Keys == s.recs.Keys && r.root == s.root
  {
    var s1 := SetRight(s, y, Right(s, z));
    SetParent(s1, Right(s1, y), y)
  }

  /** Lines 166-168: `y` adopts `z`'s left subtree, whose root points back to `y`, and takes `z`'s colour. */
  function Inherit<D>(s: Store<D>, z: Ref, y: Ref): (r: Store<D>)
    requires z in s.recs && y in s.recs && Valid(s, s.recs[z].left)
    ensures r.recs.Keys == s.recs.Keys && r.root == s.root
  {
    var s1 := SetLeft(s, y, Left(s, z));
    var s2 := SetParent(s1, Left(s1, y), y);
    SetColor(s2, y, s2.recs[z].color)
  }

  /**
    What the splice needs of the node `z` being deleted and its successor
    `y`: both real and distinct, `z` with two real children, and no link
    read along the way pointing back at `z`.
   */
  ghost predicate SpliceReady<D>(s: Store<D>, z: Ref, y: Ref) {
    && z != NULL && y != NULL && z in s.recs && y in s.recs && z != y
    && s.recs[z].left in s.recs && s.recs[z].right in s.recs
    && s.recs[z].left != z && s.recs[z].right != z
    && Valid(s, s.recs[z].parent) && s.recs[z].parent != z
    && Valid(s, s.recs[y].right) && s.recs[y].right != z
    && Valid(s, s.recs[y].parent)
  }

  /**
    Lines 159-164, with `x` the right child of `y`: when `y` is `z`'s own
    child only the parent link of `x` is set to `y` (the sentinel's field too), otherwise `y` is
    cut out by `_transplant(y, y.right)` and takes over `z`'s right
    subtree. `z` itself is not written.
   */
  function Detach<D>(s: Store<D>, z: Ref, y: Ref): (r: Store<D>)
    requires SpliceReady(s, z, y)
    ensures r.recs.Keys == s.recs.Keys && r.recs[z] == s.recs[z]
  {
    var x := Right(s, y);
    if Parent(s, y) == z then SetParent(s, x, y)
    else AdoptRight(Transplant(s, y, x), z, y)
  }

  /** Lines 158-168, once `y = _minimum(z.right)` is found: `y` is detached, then takes `z`'s slot, left subtree and colour. */
  function SuccessorSplice<D>(s: Store<D>, z: Ref, y: Ref): (r: Store<D>)
    requires SpliceReady(s, z, y)
    ensures r.recs.Keys == s.recs.Keys
  {
    var s1 := Detach(s, z, y);
    Inherit(Transplant(s1, z, y), z, y)
  }

  /** What lines 166-168 write: `y`'s left link and colour, and the parent link of `z`'s left child. */
  ghost predicate Inherited<D>(s: Store<D>, z: Ref, y: Ref, r: Store<D>)
    requires z in s.recs && y in s.recs && s.recs[z].left in s.recs
  {
    var l := s.recs[z].left;
    && Untouched(s, r, {y, l}) && r.root == s.root && r.nullParent == s.nullParent
    && r.recs[y] == s.recs[y].(left := l, color := s.recs[z].color)
    && r.recs[l] == s.recs[l].(parent := y)
  }

  lemma InheritLinks<D>(s: Store<D>, z: Ref, y: Ref)
    requires z != NULL && z in s.recs && y in s.recs && y != NULL && s.recs[z].left in s.recs && s.recs[z].left != NULL
    requires z != y && z != s.recs[z].left && y != s.recs[z].left
    ensures Inherited(s, z, y, Inherit(s, z, y))
  {
  }

  /** What lines 163-165 write: `y` takes `z`'s right child and parent, the right child points back to `y`, and `y` fills `z`'s slot. */
  ghost predicate Promoted<D>(s: Store<D>, z: Ref, y: Ref, r: Store<D>)
    requires z in s.recs && y in s.recs && s.recs[z].right in s.recs
  {
    var zr, p := s.recs[z].right, s.recs[z].parent;
    && Untouched(s, r, {y, zr, p}) && Replaced(s, r, p, z, y, true) && r.nullParent == s.nullParent
    && r.recs[y] == s.recs[y].(right := zr, parent := p)
    && r.recs[zr] == s.recs[zr].(parent := y)
  }

  lemma PromoteLinks<D>(s: Store<D>, z: Ref, y: Ref)
    requires z != NULL && z in s.recs && y in s.recs && y != NULL && s.recs[z].right in s.recs && s.recs[z].right != NULL
    requires Valid(s, s.recs[z].parent)
    requires y != z && y != s.recs[z].right && y != s.recs[z].parent
    requires z != s.recs[z].right && z != s.recs[z].parent && s.recs[z].right != s.recs[z].parent
    ensures Valid(AdoptRight(s, z, y), z) && Parent(AdoptRight(s, z, y), z) == s.recs[z].parent
    ensures Promoted(s, z, y, Transplant(AdoptRight(s, z, y), z, y))
  {
  }

  /** The subtree half of `InheritRefines`: `y`'s new subtree is held, made of `y` and its two subtrees' nodes. */
  lemma InheritedSubtree<D>(s: Store<D>, z: Ref, y: Ref, p: Ref, t: Tree<D>, lt: Tree<D>, r: Store<D>)
    requires Rep(s, y, p, t) && t.Node? && t.left.Nil?
    requires z in s.recs && z != y
    requires Rep(s, s.recs[z].left, z, lt) && lt.Node?
    requires Refs(s, s.recs[z].left, lt) !! Refs(s, y, t)
    requires s.recs[z].left in s.recs && Inherited(s, z, y, r)
    ensures Rep(r, y, p, Node(s.recs[z].color, lt, t.key, t.data, t.right))
    ensures Refs(r, y, Node(s.recs[z].color, lt, t.key, t.data, t.right)) == Refs(s, y, t) + Refs(s, s.recs[z].left, lt)
  {
    var l, yr := s.recs[z].left, s.recs[y].right;
    RepFacts(s, y, p, t);
    RepFacts(s, yr, y, t.right);
    RepFacts(s, l, z, lt);
    KeepsOutside(s, r, Refs(s, l, lt) - {l}, {y, l});
    RepMoved(s, r, l, z, y, lt);
    KeepsOutside(s, r, Refs(s, yr, t.right), {y, l});
    RepMoved(s, r, yr, y, y, t.right);
    RepJoin(r, y, p, Node(s.recs[z].color, lt, t.key, t.data, t.right));
  }

  /**
    Lines 166-168 on a held cursor at `y` whose left slot is empty: `y`
    takes the left subtree of the detached `z` and `z`'s colour.
   */
  lemma InheritRefines<D>(s: Store<D>, z: Ref, y: Ref, p: Ref, c: Cursor<D>, lt: Tree<D>, r: Store<D>)
    requires At(s, y, p, c) && c.focus.Node? && c.focus.left.Nil?
    requires z in s.recs && z !in Span(s, y, p, c)
    requires Rep(s, s.recs[z].left, z, lt) && lt.Node?
    requires Refs(s, s.recs[z].left, lt) !! Span(s, y, p, c)
    requires s.recs[z].left in s.recs && Inherited(s, z, y, r)
    ensures At(r, y, p, Cursor(Node(s.recs[z].color, lt, c.focus.key, c.focus.data, c.focus.right), c.ctx))
  {
    RepFacts(s, y, p, c.focus);
    CtxFacts(s, y, p, c.ctx);
    InheritedSubtree(s, z, y, p, c.focus, lt, r);
    KeepsOutside(s, r, CtxRefs(s, p, c.ctx) - {p}, {y, s.recs[z].left});
    RepCtxRelink(s, r, y, y, p, c.ctx);
  }

  /**
    Lines 163-165 on a held cursor at `z`, with `y` a detached node whose
    left slot is empty: `y` takes `z`'s right subtree and then `z`'s slot.
   */
  lemma PromoteRefines<D>(s: Store<D>, z: Ref, p: Ref, c: Cursor<D>, y: Ref, r: Store<D>)
    requires At(s, z, p, c) && c.focus.Node? && c.focus.right.Node?
    requires y != NULL && y in s.recs && y !in Span(s, z, p, c) && s.recs[y].left == NULL
    requires s.recs[z].right in s.recs && Promoted(s, z, y, r)
    ensures At(r, y, p, Cursor(Node(s.recs[y].color, Nil, s.recs[y].key, s.recs[y].data, c.focus.right), c.ctx))
    ensures Span(r, y, p, Cursor(Node(s.recs[y].color, Nil, s.recs[y].key, s.recs[y].data, c.focus.right), c.ctx))
            == {y} + Refs(s, s.recs[z].right, c.focus.right) + CtxRefs(s, p, c.ctx)
  {
    RepFacts(s, z, p, c.focus);
    CtxFacts(s, z, p, c.ctx);
    var zr := s.recs[z].right;
    RepFacts(s, zr, z, c.focus.right);
    if c.ctx.InRight? {
      RepFacts(s, s.recs[p].left, p, c.ctx.left);
    }
    KeepsOutside(s, r, Refs(s, zr, c.focus.right) - {zr}, {y, zr, p});
    RepMoved(s, r, zr, z, y, c.focus.right);
    assert Rep(r, NULL, y, Nil) && Refs(r, NULL, Nil) == {};
    RepJoin(r, y, p, Node(s.recs[y].color, Nil, s.recs[y].key, s.recs[y].data, c.focus.right));
    KeepsOutside(s, r, CtxRefs(s, p, c.ctx) - {p}, {y, zr, p});
    RepCtxRelink(s, r, z, y, p, c.ctx);
  }

  /** The links the splice reads are in place when the successor is `z`'s own right child. */
  lemma ChildSuccessorReady<D>(s: Store<D>, z: Ref, p: Ref, c: Cursor<D>, y: Ref)
    requires At(s, z, p, c) && c.focus.Node? && c.focus.left.Node? && c.focus.right.Node?
    requires z in s.recs && y == s.recs[z].right && c.focus.right.left.Nil?
    ensures SpliceReady(s, z, y) && Parent(s, y) == z && s.recs[z].parent == p
    ensures Detach(s, z, y).recs == s.recs && Detach(s, z, y).root == s.root
    ensures s.recs[y].right == NULL ==> Detach(s, z, y).nullParent == y
  {
    RepFacts(s, z, p, c.focus);
    CtxFacts(s, z, p, c.ctx);
    RepFacts(s, s.recs[z].left, z, c.focus.left);
    RepFacts(s, y, z, c.focus.right);
    RepFacts(s, s.recs[y].right, y, c.focus.right.right);
  }

  /**
    The successor is `z`'s own right child (line 159 true): after line 160,
    which leaves the nodes as they were, `_transplant(z, y)`
    puts `y`'s subtree in `z`'s slot, and `z`, detached, still holds its
    left subtree.
   */
  lemma ChildSuccessorMoved<D>(s: Store<D>, z: Ref, p: Ref, c: Cursor<D>, y: Ref)
    requires At(s, z, p, c) && c.focus.Node? && c.focus.left.Node? && c.focus.right.Node?
    requires z in s.recs && y == s.recs[z].right && s.recs[z].parent == p
    ensures Valid(s, y) && Valid(s, p)
    ensures var s2 := Transplant(s, z, y);
            var yc := Cursor(c.focus.right, c.ctx);
            && At(s2, y, p, yc) && z in s2.recs && s2.recs[z] == s.recs[z] && z !in Span(s2, y, p, yc)
            && Rep(s2, s.recs[z].left, z, c.focus.left) && Refs(s2, s.recs[z].left, c.focus.left) !! Span(s2, y, p, yc)
            && y in s2.recs && s2.recs[y].right == s.recs[y].right && s2.nullParent == s.nullParent
  {
    RepFacts(s, z, p, c.focus);
    CtxFacts(s, z, p, c.ctx);
    var zl := s.recs[z].left;
    RepFacts(s, zl, z, c.focus.left);
    var s2 := Transplant(s, z, y);
    TransplantRefines(s, z, p, c, y, c.focus.right);
    TransplantLinks(s, z, y);
    KeepsOutside(s, s2, Refs(s, zl, c.focus.left), {y, p});
    RepMoved(s, s2, zl, z, z, c.focus.left);
  }

  /**
    The successor is `z`'s own right child (line 159 true): line 160 sets
    the parent link of `x` to `y`, even on the sentinel, and after lines 165-168 the store
    holds `x` under `y` in the context `Deletion.SuccessorCtx` describes.
   */
  lemma ChildSuccessorRefines<D>(s: Store<D>, z: Ref, p: Ref, c: Cursor<D>, y: Ref)
    requires At(s, z, p, c) && c.focus.Node? && c.focus.left.Node? && c.focus.right.Node?
    requires z in s.recs && y == s.recs[z].right && c.focus.right.left.Nil?
    ensures SpliceReady(s, z, y) && Parent(s, y) == z
    ensures var r := SuccessorSplice(s, z, y);
            var x := s.recs[y].right;
            && Valid(r, x) && Parent(r, x) == y
            && At(r, x, y, Cursor(c.focus.right.right, Deletion.SuccessorCtx(c, Cursor(c.focus.right, Top))))
  {
    ChildSuccessorReady(s, z, p, c, y);
    var s1 := Detach(s, z, y);
    AtRelabel(s, s1, z, p, c);
    ChildSuccessorMoved(s1, z, p, c, y);
    var s2 := Transplant(s1, z, y);
    var r := Inherit(s2, z, y);
    InheritLinks(s2, z, y);
    InheritRefines(s2, z, y, p, Cursor(c.focus.right, c.ctx), c.focus.left, r);
    var yt := Node(c.focus.color, c.focus.left, c.focus.right.key, c.focus.right.data, c.focus.right.right);
    AtDownRight(r, y, p, Cursor(yt, c.ctx));
  }

  // ----- the successor deeper down (line 159 false) -----

  /**
    What `_minimum(z.right)` returns when it went left at least once: the
    node `y` holding the leftmost entry, found inside `z`'s right subtree
    with its parent, and `x`, the right child of `y`, the splice's links in place.
   */
  ghost predicate DeepSuccessor<D>(s: Store<D>, z: Ref, p: Ref, c: Cursor<D>, y: Ref, mc: Cursor<D>) {
    && At(s, z, p, c) && c.focus.Node? && c.focus.left.Node? && c.focus.right.Node?
    && Whole(mc) == c.focus.right && mc.focus.Node? && mc.focus.left.Nil? && !mc.ctx.Top?
    && y in s.recs && At(s, y, s.recs[y].parent, Cursor(mc.focus, Compose(mc.ctx, DownRight(c).ctx)))
  }

  /** In that case `y`, its parent and `x` all lie in `z`'s right subtree, and the splice can run. */
  lemma DeepSuccessorReady<D>(s: Store<D>, z: Ref, p: Ref, c: Cursor<D>, y: Ref, mc: Cursor<D>)
    requires DeepSuccessor(s, z, p, c, y, mc)
    ensures z in s.recs && SpliceReady(s, z, y) && Parent(s, y) != z && s.recs[z].parent == p
    ensures s.recs[y].parent in Refs(s, s.recs[z].right, c.focus.right)
    ensures s.recs[y].right != NULL ==> s.recs[y].right in Refs(s, s.recs[z].right, c.focus.right)
  {
    RepFacts(s, z, p, c.focus);
    CtxFacts(s, z, p, c.ctx);
    var zr, yp := s.recs[z].right, s.recs[y].parent;
    RepFacts(s, s.recs[z].left, z, c.focus.left);
    var cr := DownRight(c);
    AtDownRight(s, z, p, c);
    AtDescend(s, zr, z, mc.focus, mc.ctx, cr.ctx);
    var a, pa := Follow(s, zr, mc.ctx), FollowParent(s, zr, z, mc.ctx);
    CtxUnique(s, y, yp, a, pa, Compose(mc.ctx, cr.ctx));
    RepFacts(s, y, yp, mc.focus);
    RepFacts(s, s.recs[y].right, y, mc.focus.right);
    CtxFacts(s, zr, z, cr.ctx);
  }

  /** The node a path from a held subtree leads to is the one held in the composed context. */
  lemma FollowFinds<D>(s: Store<D>, r: Ref, q: Ref, f: Tree<D>, inner: Ctx<D>, outer: Ctx<D>, x: Ref, px: Ref)
    requires At(s, r, q, Cursor(Plug(f, inner), outer)) && RepCtx(s, x, px, Compose(inner, outer))
    ensures Follow(s, r, inner) == x && FollowParent(s, r, q, inner) == px
  {
    AtDescend(s, r, q, f, inner, outer);
    CtxUnique(s, x, px, Follow(s, r, inner), FollowParent(s, r, q, inner), Compose(inner, outer));
  }

  /** Writes confined to `z`'s right subtree leave the context of that subtree held. */
  lemma RightContextKept<D>(s: Store<D>, s1: Store<D>, z: Ref, p: Ref, c: Cursor<D>, w: set<Ref>)
    requires At(s, z, p, c) && c.focus.Node? && z in s.recs
    requires Untouched(s, s1, w) && s1.root == s.root
    requires forall n :: n in w ==> n == NULL || n in Refs(s, s.recs[z].right, c.focus.right)
    ensures RepCtx(s1, s.recs[z].right, z, DownRight(c).ctx)
  {
    var zr, cr := s.recs[z].right, DownRight(c);
    AtDownRight(s, z, p, c);
    CtxFacts(s, zr, z, cr.ctx);
    KeepsOutside(s, s1, CtxRefs(s, z, cr.ctx) - {z}, w);
    RepCtxRelink(s, s1, zr, zr, z, cr.ctx);
  }

  /**
    After `y`'s slot was handed to `x`, climbing from `x` back to `z.right`
    finds it holding the right subtree without `y`, provided nothing above
    that subtree changed.
   */
  lemma DeepSuccessorClimb<D>(s: Store<D>, s1: Store<D>, z: Ref, p: Ref, c: Cursor<D>, y: Ref, mc: Cursor<D>)
    requires DeepSuccessor(s, z, p, c, y, mc) && z in s.recs
    requires var x, yp := s.recs[y].right, s.recs[y].parent;
             && At(s1, x, yp, Cursor(mc.focus.right, Compose(mc.ctx, DownRight(c).ctx)))
             && y !in Span(s1, x, yp, Cursor(mc.focus.right, Compose(mc.ctx, DownRight(c).ctx)))
             && Untouched(s, s1, {x, yp}) && s1.root == s.root
             && yp in Refs(s, s.recs[z].right, c.focus.right)
             && (x != NULL ==> x in Refs(s, s.recs[z].right, c.focus.right))
    ensures var c1 := Cursor(Plug(mc.focus.right, mc.ctx), DownRight(c).ctx);
            At(s1, s.recs[z].right, z, c1) && y !in Span(s1, s.recs[z].right, z, c1)
    ensures Follow(s1, s.recs[z].right, mc.ctx) == s.recs[y].right
    ensures FollowParent(s1, s.recs[z].right, z, mc.ctx) == s.recs[y].parent
  {
    var zr, yp, x := s.recs[z].right, s.recs[y].parent, s.recs[y].right;
    var cr := DownRight(c);
    var a, pa := AtAscend(s1, x, yp, mc.focus.right, mc.ctx, cr.ctx);
    RightContextKept(s, s1, z, p, c, {x, yp});
    CtxUnique(s1, a, pa, zr, z, cr.ctx);
    FollowFinds(s1, zr, z, mc.focus.right, mc.ctx, cr.ctx, x, yp);
  }

  /** Line 162 as seen from `x`: `x` holds `y`'s right subtree in `y`'s old context, and only `x` and `y`'s parent were written. */
  lemma DeepSuccessorUnlinked<D>(s: Store<D>, z: Ref, p: Ref, c: Cursor<D>, y: Ref, mc: Cursor<D>)
    requires DeepSuccessor(s, z, p, c, y, mc)
    requires z in s.recs && SpliceReady(s, z, y)
    requires s.recs[y].parent in Refs(s, s.recs[z].right, c.focus.right)
    ensures var x, yp := s.recs[y].right, s.recs[y].parent;
            var s1 := Transplant(s, y, x);
            var xc := Cursor(mc.focus.right, Compose(mc.ctx, DownRight(c).ctx));
            && At(s1, x, yp, xc) && y !in Span(s1, x, yp, xc)
            && Untouched(s, s1, {x, yp}) && s1.root == s.root
            && (x == NULL ==> s1.nullParent == yp)
  {
    var yp, x := s.recs[y].parent, s.recs[y].right;
    var c0 := Compose(mc.ctx, DownRight(c).ctx);
    RepFacts(s, y, yp, mc.focus);
    RepFacts(s, x, y, mc.focus.right);
    TransplantRefines(s, y, yp, Cursor(mc.focus, c0), x, mc.focus.right);
    TransplantLinks(s, y, x);
  }

  /**
    Line 162, `_transplant(y, y.right)`: `y` is cut out and `x` takes its
    slot, so `z` now holds the right subtree without the successor; `y`
    and `z` are not written, and `x`'s new place is reached from `z.right`
    by the same path that led to `y`.
   */
  lemma DeepSuccessorCut<D>(s: Store<D>, z: Ref, p: Ref, c: Cursor<D>, y: Ref, mc: Cursor<D>)
    requires DeepSuccessor(s, z, p, c, y, mc)
    requires z in s.recs && SpliceReady(s, z, y) && s.recs[z].parent == p
    requires s.recs[y].parent in Refs(s, s.recs[z].right, c.focus.right)
    requires s.recs[y].right != NULL ==> s.recs[y].right in Refs(s, s.recs[z].right, c.focus.right)
    ensures var s1 := Transplant(s, y, s.recs[y].right);
            var zr := s.recs[z].right;
            var c1 := Cursor(c.focus.(right := Plug(mc.focus.right, mc.ctx)), c.ctx);
            && At(s1, z, p, c1) && y !in Span(s1, z, p, c1)
            && s1.recs[y] == s.recs[y] && s1.recs[z] == s.recs[z]
            && Follow(s1, zr, mc.ctx) == s.recs[y].right && FollowParent(s1, zr, z, mc.ctx) == s.recs[y].parent
            && (s.recs[y].right == NULL ==> s1.nullParent == s.recs[y].parent)
  {
    var zr, yp, x := s.recs[z].right, s.recs[y].parent, s.recs[y].right;
    var s1 := Transplant(s, y, x);
    DeepSuccessorUnlinked(s, z, p, c, y, mc);
    DeepSuccessorClimb(s, s1, z, p, c, y, mc);
    var c1 := Cursor(Plug(mc.focus.right, mc.ctx), DownRight(c).ctx);
    AtUpSpan(s1, zr, z, c1);
  }

  /**
    Lines 163-165 after the cut: the detached `y` takes `z`'s right subtree
    and then `z`'s slot; `z`, now detached, still holds its left subtree.
   */
  lemma DeepSuccessorPromoted<D>(s1: Store<D>, z: Ref, p: Ref, c1: Cursor<D>, y: Ref)
    requires At(s1, z, p, c1) && c1.focus.Node? && c1.focus.left.Node? && c1.focus.right.Node?
    requires y != NULL && y in s1.recs && y !in Span(s1, z, p, c1) && s1.recs[y].left == NULL
    ensures z in s1.recs && s1.recs[z].right in s1.recs && Valid(s1, s1.recs[z].right)
    ensures Valid(AdoptRight(s1, z, y), z) && Parent(AdoptRight(s1, z, y), z) == p && Valid(AdoptRight(s1, z, y), p)
    ensures var s2 := Transplant(AdoptRight(s1, z, y), z, y);
            var zl, zr := s1.recs[z].left, s1.recs[z].right;
            var yc := Cursor(Node(s1.recs[y].color, Nil, s1.recs[y].key, s1.recs[y].data, c1.focus.right), c1.ctx);
            && At(s2, y, p, yc) && z in s2.recs && s2.recs[z] == s1.recs[z] && z !in Span(s2, y, p, yc)
            && Rep(s2, zl, z, c1.focus.left) && Refs(s2, zl, c1.focus.left) !! Span(s2, y, p, yc)
            && s2.nullParent == s1.nullParent && Untouched(s1, s2, {y, zr, p})
            && s2.recs[y].right == zr && s2.recs[zr] == s1.recs[zr].(parent := y)
  {
    RepFacts(s1, z, p, c1.focus);
    CtxFacts(s1, z, p, c1.ctx);
    var zl, zr := s1.recs[z].left, s1.recs[z].right;
    RepFacts(s1, zl, z, c1.focus.left);
    RepFacts(s1, zr, z, c1.focus.right);
    PromoteLinks(s1, z, y);
    var s2 := Transplant(AdoptRight(s1, z, y), z, y);
    PromoteRefines(s1, z, p, c1, y, s2);
    KeepsOutside(s1, s2, Refs(s1, zl, c1.focus.left), {y, zr, p});
    RepMoved(s1, s2, zl, z, z, c1.focus.left);
  }

  /** No child link inside `z`'s right subtree changed from `s1` to `r`. */
  lemma RightLinksKept<D>(s1: Store<D>, s2: Store<D>, r: Store<D>, z: Ref, p: Ref, c1: Cursor<D>, y: Ref)
    requires At(s1, z, p, c1) && c1.focus.Node?
    requires y !in Span(s1, z, p, c1) && z in s1.recs && s1.recs[z].left in s1.recs && s1.recs[z].right in s1.recs
    requires Untouched(s1, s2, {y, s1.recs[z].right, p}) && s2.recs[s1.recs[z].right].left == s1.recs[s1.recs[z].right].left
    requires s2.recs[s1.recs[z].right].right == s1.recs[s1.recs[z].right].right
    requires Untouched(s2, r, {y, s1.recs[z].left})
    ensures forall n :: n in Refs(s1, s1.recs[z].right, c1.focus.right) ==>
              n in s1.recs && n in r.recs && r.recs[n].left == s1.recs[n].left && r.recs[n].right == s1.recs[n].right
  {
    var zl, zr := s1.recs[z].left, s1.recs[z].right;
    RepFacts(s1, z, p, c1.focus);
    CtxFacts(s1, z, p, c1.ctx);
    RepFacts(s1, zr, z, c1.focus.right);
    RepFacts(s1, zl, z, c1.focus.left);
  }

  /**
    After lines 163-168 the store holds `y` in `z`'s place with `z`'s left
    subtree and colour; `x` is reached from `y.right` by the path that led
    to it before, since no link inside that subtree changed.
   */
  lemma DeepSuccessorReattached<D>(s1: Store<D>, s2: Store<D>, r: Store<D>, z: Ref, p: Ref, c1: Cursor<D>, y: Ref,
                                   yt: Tree<D>, inner: Ctx<D>, f: Tree<D>)
    requires At(s1, z, p, c1) && c1.focus.Node? && c1.focus.left.Node? && c1.focus.right == Plug(f, inner) && !inner.Top?
    requires y !in Span(s1, z, p, c1) && z in s1.recs && s1.recs[z].left in s1.recs && s1.recs[z].right in s1.recs
    requires yt.Node? && yt.left == c1.focus.left && yt.right == c1.focus.right && yt.color == c1.focus.color
    requires At(r, y, p, Cursor(yt, c1.ctx)) && y in r.recs && r.recs[y].right == s1.recs[z].right
    requires Untouched(s1, s2, {y, s1.recs[z].right, p}) && s2.recs[s1.recs[z].right].left == s1.recs[s1.recs[z].right].left
    requires s2.recs[s1.recs[z].right].right == s1.recs[s1.recs[z].right].right
    requires Untouched(s2, r, {y, s1.recs[z].left})
    ensures var zr := s1.recs[z].right;
            At(r, Follow(s1, zr, inner), FollowParent(s1, zr, z, inner),
               Cursor(f, Compose(inner, InRight(c1.ctx, yt.color, yt.left, yt.key, yt.data))))
  {
    var zr := s1.recs[z].right;
    var cr := DownRight(c1);
    AtDownRight(s1, z, p, c1);
    RightLinksKept(s1, s2, r, z, p, c1, y);
    FollowFrame(s1, r, zr, z, f, inner, cr.ctx);
    AtDownRight(r, y, p, Cursor(yt, c1.ctx));
    AtDescend(r, zr, y, f, inner, DownRight(Cursor(yt, c1.ctx)).ctx);
  }

  /**
    The successor lies deeper in `z`'s right subtree (line 159 false):
    after lines 162-168 the store holds `x` under `y`'s old parent, in the
    context `Deletion.SuccessorCtx` describes, and `x.parent` says so even
    when `x` is the sentinel.
   */
  lemma DeepSuccessorRefines<D>(s: Store<D>, z: Ref, p: Ref, c: Cursor<D>, y: Ref, mc: Cursor<D>)
    requires DeepSuccessor(s, z, p, c, y, mc)
    ensures SpliceReady(s, z, y) && Parent(s, y) != z
    ensures var r := SuccessorSplice(s, z, y);
            var x, yp := s.recs[y].right, s.recs[y].parent;
            && Valid(r, x) && Parent(r, x) == yp
            && At(r, x, yp, Cursor(mc.focus.right, Deletion.SuccessorCtx(c, mc)))
  {
    DeepSuccessorReady(s, z, p, c, y, mc);
    NodeFields(s, y, s.recs[y].parent, mc.focus);
    NodeFields(s, z, p, c.focus);
    DeepSuccessorCut(s, z, p, c, y, mc);
    var x := s.recs[y].right;
    var s1 := Transplant(s, y, x);
    var c1 := Cursor(c.focus.(right := Plug(mc.focus.right, mc.ctx)), c.ctx);
    DeepSuccessorPromoted(s1, z, p, c1, y);
    var s2 := Transplant(AdoptRight(s1, z, y), z, y);
    assert Detach(s, z, y) == AdoptRight(s1, z, y);
    var r := Inherit(s2, z, y);
    InheritLinks(s2, z, y);
    var yt := Node(s.recs[y].color, Nil, s.recs[y].key, s.recs[y].data, c1.focus.right);
    InheritRefines(s2, z, y, p, Cursor(yt, c.ctx), c.focus.left, r);
    var yt' := Node(c.focus.color, c.focus.left, s.recs[y].key, s.recs[y].data, c1.focus.right);
    DeepSuccessorReattached(s1, s2, r, z, p, c1, y, yt', mc.ctx, mc.focus.right);
  }

  /**
    Lines 158-168 for either place of the successor `y` that
    `_minimum(z.right)` returns: the store ends up holding `x`, the right child of `y`, in
    the context `Deletion.SuccessorCtx` describes, and `x.parent`, the
    sentinel's own field when `x` is the sentinel, is the parent of that slot.
   */
  lemma SuccessorRefines<D>(s: Store<D>, z: Ref, p: Ref, c: Cursor<D>, y: Ref, mc: Cursor<D>)
    requires At(s, z, p, c) && c.focus.Node? && c.focus.left.Node? && c.focus.right.Node?
    requires Whole(mc) == c.focus.right && mc.focus.Node? && mc.focus.left.Nil?
    requires y in s.recs && At(s, y, s.recs[y].parent, Cursor(mc.focus, Compose(mc.ctx, DownRight(c).ctx)))
    ensures SpliceReady(s, z, y)
    ensures var r := SuccessorSplice(s, z, y);
            var x := s.recs[y].right;
            && Valid(r, x)
            && At(r, x, Parent(r, x), Cursor(mc.focus.right, Deletion.SuccessorCtx(c, mc)))
  {
    if mc.ctx.Top? {
      AtDownRight(s, z, p, c);
      CtxUnique(s, y, s.recs[y].parent, s.recs[z].right, z, DownRight(c).ctx);
      ChildSuccessorRefines(s, z, p, c, y);
    } else {
      DeepSuccessorRefines(s, z, p, c, y, mc);
    }
  }

  // ----- delete -----

  /**
    Lines 148-153: a node with an empty side is replaced by its other child
    `x` by `_transplant(z, x)`; the store holds the cursor `Deletion.Delete`
    passes on, with `x.parent` right even for the sentinel.
   */
  lemma ChildSpliceRefines<D>(s: Store<D>, z: Ref, p: Ref, c: Cursor<D>, x: Ref, xt: Tree<D>)
    requires At(s, z, p, c) && c.focus.Node? && NoRedRed(Whole(c)) && Balanced(Whole(c)) && ColorOf(Whole(c)) == Black
    requires AllBelow(Before(c.ctx) + Entries(c.focus.left), c.focus.key)
    requires (c.focus.left.Nil? && (x, xt) == (s.recs[z].right, c.focus.right))
          || (c.focus.right.Nil? && (x, xt) == (s.recs[z].left, c.focus.left))
    ensures Valid(s, z) && Valid(s, x) && Valid(s, Parent(s, z))
    ensures var r, xc := Transplant(s, z, x), Deletion.Transplant(c, xt);
            && Valid(r, x) && At(r, x, Parent(r, x), xc)
            && Deletion.Ready(xc, c.focus.color)
            && Entries(Whole(xc)) == Remove(Entries(Whole(c)), c.focus.key)
  {
    TransplantRefines(s, z, p, c, x, xt);
    Deletion.SpliceSound(c, xt);
    Deletion.SpliceEntries(c, xt);
  }

  /** Lines 154-168 on the store, seen from the fixup's side: the successor splice with its colour bookkeeping. */
  lemma SuccessorSpliceRefines<D>(s: Store<D>, z: Ref, p: Ref, c: Cursor<D>, y: Ref, mc: Cursor<D>)
    requires At(s, z, p, c) && c.focus.Node? && c.focus.left.Node? && c.focus.right.Node?
    requires NoRedRed(Whole(c)) && Balanced(Whole(c)) && ColorOf(Whole(c)) == Black
    requires AllBelow(Before(c.ctx) + Entries(c.focus.left), c.focus.key)
    requires Whole(mc) == c.focus.right && mc.focus.Node? && mc.focus.left.Nil? && Before(mc.ctx) == []
    requires y in s.recs && At(s, y, s.recs[y].parent, Cursor(mc.focus, Compose(mc.ctx, DownRight(c).ctx)))
    ensures SpliceReady(s, z, y) && s.recs[y].color == mc.focus.color
    ensures var r, x := SuccessorSplice(s, z, y), s.recs[y].right;
            var xc := Cursor(mc.focus.right, Deletion.SuccessorCtx(c, mc));
            && Valid(r, x) && At(r, x, Parent(r, x), xc)
            && Deletion.Ready(xc, mc.focus.color)
            && Entries(Whole(xc)) == Remove(Entries(Whole(c)), c.focus.key)
  {
    NodeFields(s, y, s.recs[y].parent, mc.focus);
    SuccessorRefines(s, z, p, c, y, mc);
    Deletion.SuccessorSound(c, mc);
    Deletion.SuccessorEntries(c, mc);
  }

  /**
    `delete(key)` up to the call of `_delete_fixup`: when the key is absent
    nothing is written and `False` is the answer. Otherwise the node `z`
    holding it is spliced out, and the store holds the cursor `xc` at `x`
    with `x.parent` (the sentinel's own field when `x` is the sentinel)
    naming the parent of `x`'s slot, as the fixup's side test needs. That
    cursor is the one `Deletion.Delete` hands to the fixup: it is a valid
    start for the fixup when the removed colour is BLACK and a valid tree
    otherwise, and its contents are the map removal of the key.
   */
  method Delete<D>(s: Store<D>, k: string, ghost t: Tree<D>)
    returns (r: Store<D>, found: bool, x: Ref, removed: Color, ghost xc: Cursor<D>)
    requires Holds(s, t) && IsRedBlack(t)
    ensures found <==> k in Keys(t)
    ensures !found ==> r == s
    ensures r.recs.Keys == s.recs.Keys
    ensures found ==> Valid(r, x) && At(r, x, Parent(r, x), xc) && Holds(r, Whole(xc))
    ensures found ==> Deletion.Ready(xc, removed)
    ensures found ==> Entries(Whole(xc)) == Remove(Entries(t), k)
  {
    ghost var p: Ref, c: Cursor<D>;
    var z;
    z, p, c := FindRef(s, k, t);                      // line 142
    if z == NULL {
      return s, false, NULL, Black, Cursor(t, Top);
    }
    found := true;
    LessIrreflexive(k);
    FitsAtNode(c, k);
    NodeFields(s, z, p, c.focus);
    RepFacts(s, z, p, c.focus);
    RepFacts(s, s.recs[z].left, z, c.focus.left);
    RepFacts(s, s.recs[z].right, z, c.focus.right);
    removed := s.recs[z].color;                       // line 147
    if Left(s, z) == NULL {
      x := Right(s, z);                               // line 149
      ChildSpliceRefines(s, z, p, c, x, c.focus.right);
      r := Transplant(s, z, x);                       // line 150
      xc := Deletion.Transplant(c, c.focus.right);
    } else if Right(s, z) == NULL {
      x := Left(s, z);                                // line 152
      ChildSpliceRefines(s, z, p, c, x, c.focus.left);
      r := Transplant(s, z, x);                       // line 153
      xc := Deletion.Transplant(c, c.focus.left);
    } else {
      AtDownRight(s, z, p, c);
      var y;
      ghost var mc;
      y, mc := Minimum(s, Right(s, z), z, DownRight(c)); // line 156
      SuccessorSpliceRefines(s, z, p, c, y, mc);
      removed := s.recs[y].color;                     // line 157
      x := s.recs[y].right;                           // line 158
      r := SuccessorSplice(s, z, y);                  // lines 159-168
      xc := Cursor(mc.focus.right, Deletion.SuccessorCtx(c, mc));
    }
    AtWhole(r, x, Parent(r, x), xc);
  }
}
