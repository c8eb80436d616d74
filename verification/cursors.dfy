/**
  A position inside a tree together with the way back to the root. The
  context is the chain of `parent` links of the node under the cursor: each
  frame is the parent with the child slot the cursor came through left open.
  A cursor on `Nil` is the sentinel seen from the slot it currently fills,
  which is what the sentinel's mutable `parent` field records.
 */
module Cursors {
  import opened StrOrder
  import opened AssocList
  import opened Trees

  datatype Ctx<D> =
    | Top
      /** The hole is the left child of this parent. */
    | InLeft(up: Ctx<D>, color: Color, key: string, data: D, right: Tree<D>)
      /** The hole is the right child of this parent. */
    | InRight(up: Ctx<D>, color: Color, left: Tree<D>, key: string, data: D)

  datatype Cursor<D> = Cursor(focus: Tree<D>, ctx: Ctx<D>)

  /** Entries of the tree that come before the hole in key order. */
  function Before<D>(ctx: Ctx<D>): seq<Entry<D>> {
    match ctx
    case Top => []
    case InLeft(up, _, _, _, _) => Before(up)
    case InRight(up, _, l, k, d) => Before(up) + Entries(l) + [Entry(k, d)]
  }

  /** Entries of the tree that come after the hole in key order. */
  function After<D>(ctx: Ctx<D>): seq<Entry<D>> {
    match ctx
    case Top => []
    case InLeft(up, _, k, d, r) => [Entry(k, d)] + Entries(r) + After(up)
    case InRight(up, _, _, _, _) => After(up)
  }

  /** Rebuild the whole tree with `t` in the hole. */
  function Plug<D>(t: Tree<D>, ctx: Ctx<D>): (r: Tree<D>)
    ensures Entries(r) == Before(ctx) + Entries(t) + After(ctx)
    decreases ctx
  {
    match ctx
    case Top => t
    case InLeft(up, c, k, d, rt) =>
      RegroupMiddle(Before(up), Entries(t), [Entry(k, d)], Entries(rt), After(up));
      Plug(Node(c, t, k, d, rt), up)
    case InRight(up, c, lt, k, d) =>
      RegroupMiddle(Before(up), Entries(lt), [Entry(k, d)], Entries(t), After(up));
      Plug(Node(c, lt, k, d, t), up)
  }

  /** The tree a cursor points into (the tree reached from `root`). */
  function Whole<D>(c: Cursor<D>): Tree<D> {
    Plug(c.focus, c.ctx)
  }

  /** The parent node, with `t` in the child slot the hole stands for. */
  function Attach<D>(t: Tree<D>, ctx: Ctx<D>): (r: Tree<D>)
    requires !ctx.Top?
    ensures r.Node? && Plug(r, ctx.up) == Plug(t, ctx)
  {
    match ctx
    case InLeft(_, c, k, d, rt) => Node(c, t, k, d, rt)
    case InRight(_, c, lt, k, d) => Node(c, lt, k, d, t)
  }

  /** `x = x.parent`: the cursor moves up one level; the tree is unchanged. */
  function Up<D>(c: Cursor<D>): (r: Cursor<D>)
    requires !c.ctx.Top?
    ensures Whole(r) == Whole(c) && Depth(r.ctx) + 1 == Depth(c.ctx)
  {
    Cursor(Attach(c.focus, c.ctx), c.ctx.up)
  }

  /** `x = x.left`: the cursor moves to the left child; the tree is unchanged. */
  function DownLeft<D>(c: Cursor<D>): (r: Cursor<D>)
    requires c.focus.Node?
    ensures Whole(r) == Whole(c) && Depth(r.ctx) == Depth(c.ctx) + 1
    ensures r.ctx.InLeft? && r.ctx.up == c.ctx
  {
    Cursor(c.focus.left, InLeft(c.ctx, c.focus.color, c.focus.key, c.focus.data, c.focus.right))
  }

  /** `x = x.right`: the cursor moves to the right child; the tree is unchanged. */
  function DownRight<D>(c: Cursor<D>): (r: Cursor<D>)
    requires c.focus.Node?
    ensures Whole(r) == Whole(c) && Depth(r.ctx) == Depth(c.ctx) + 1
    ensures r.ctx.InRight? && r.ctx.up == c.ctx
  {
    Cursor(c.focus.right, InRight(c.ctx, c.focus.color, c.focus.left, c.focus.key, c.focus.data))
  }

  /** Key `k` belongs in the hole: everything before it is smaller, everything after it larger. */
  ghost predicate KeyFits<D>(ctx: Ctx<D>, k: string) {
    AllBelow(Before(ctx), k) && AllAbove(After(ctx), k)
  }

  /** The number of ancestors. */
  function Depth<D>(ctx: Ctx<D>): nat {
    match ctx
    case Top => 0
    case InLeft(up, _, _, _, _) => Depth(up) + 1
    case InRight(up, _, _, _, _) => Depth(up) + 1
  }

  /** `x.parent.color`; the root's parent is the BLACK sentinel. */
  function ParentColor<D>(ctx: Ctx<D>): Color {
    if ctx.Top? then Black else ctx.color
  }

  /** The root's colour once a subtree whose root has colour `hc` fills the hole. */
  function RootColorAbove<D>(ctx: Ctx<D>, hc: Color): Color {
    match ctx
    case Top => hc
    case InLeft(up, c, _, _, _) => RootColorAbove(up, c)
    case InRight(up, c, _, _, _) => RootColorAbove(up, c)
  }

  /** The black-height of the whole tree once a subtree of black-height `h` fills the hole. */
  function CtxHeight<D>(ctx: Ctx<D>, h: nat): nat {
    match ctx
    case Top => h
    case InLeft(up, c, _, _, _) => CtxHeight(up, h + (if c == Black then 1 else 0))
    case InRight(up, c, _, _, _) => CtxHeight(up, h + (if c == Black then 1 else 0))
  }

  /** Filling the hole with a balanced subtree of black-height `h` gives a balanced tree. */
  ghost predicate CtxBalanced<D>(ctx: Ctx<D>, h: nat) {
    match ctx
    case Top => true
    case InLeft(up, c, _, _, r) =>
      Balanced(r) && BlackHeight(r) == h && CtxBalanced(up, h + (if c == Black then 1 else 0))
    case InRight(up, c, l, _, _) =>
      Balanced(l) && BlackHeight(l) == h && CtxBalanced(up, h + (if c == Black then 1 else 0))
  }

  /**
    Filling the hole with a subtree without red-red edges whose root has
    colour `hc` gives a tree without red-red edges. With `hc == Black` this
    says that every edge outside the hole's own parent link is fine.
   */
  ghost predicate CtxNoRedRed<D>(ctx: Ctx<D>, hc: Color) {
    match ctx
    case Top => true
    case InLeft(up, c, _, _, r) =>
      && NoRedRed(r)
      && (c == Red ==> hc == Black && ColorOf(r) == Black)
      && CtxNoRedRed(up, c)
    case InRight(up, c, l, _, _) =>
      && NoRedRed(l)
      && (c == Red ==> hc == Black && ColorOf(l) == Black)
      && CtxNoRedRed(up, c)
  }

  /** `inner` is a context inside a subtree; `outer` leads from that subtree to the root. */
  function Compose<D>(inner: Ctx<D>, outer: Ctx<D>): (r: Ctx<D>)
    ensures Depth(r) == Depth(inner) + Depth(outer)
  {
    match inner
    case Top => outer
    case InLeft(up, c, k, d, rt) => InLeft(Compose(up, outer), c, k, d, rt)
    case InRight(up, c, lt, k, d) => InRight(Compose(up, outer), c, lt, k, d)
  }

  // ----- how the tree-wide properties split between a hole's filler and its context -----

  lemma {:induction false} PlugBalanced<D>(t: Tree<D>, ctx: Ctx<D>)
    ensures Balanced(Plug(t, ctx)) <==> Balanced(t) && CtxBalanced(ctx, BlackHeight(t))
    ensures Balanced(t) && CtxBalanced(ctx, BlackHeight(t)) ==>
              BlackHeight(Plug(t, ctx)) == CtxHeight(ctx, BlackHeight(t))
    decreases ctx
  {
    match ctx
    case Top =>
    case InLeft(up, c, k, d, r) =>
      var n := Node(c, t, k, d, r);
      PlugBalanced(n, up);
      assert Plug(t, ctx) == Plug(n, up);
      assert BlackHeight(n) == BlackHeight(t) + (if c == Black then 1 else 0);
    case InRight(up, c, l, k, d) =>
      var n := Node(c, l, k, d, t);
      PlugBalanced(n, up);
      assert Plug(t, ctx) == Plug(n, up);
      assert BlackHeight(n) == BlackHeight(l) + (if c == Black then 1 else 0);
  }

  lemma {:induction false} PlugNoRedRed<D>(t: Tree<D>, ctx: Ctx<D>)
    ensures NoRedRed(Plug(t, ctx)) <==> NoRedRed(t) && CtxNoRedRed(ctx, ColorOf(t))
    decreases ctx
  {
    match ctx
    case Top =>
    case InLeft(up, c, k, d, r) => PlugNoRedRed(Node(c, t, k, d, r), up);
    case InRight(up, c, l, k, d) => PlugNoRedRed(Node(c, l, k, d, t), up);
  }

  lemma {:induction false} PlugColor<D>(t: Tree<D>, ctx: Ctx<D>)
    ensures ColorOf(Plug(t, ctx)) == RootColorAbove(ctx, ColorOf(t))
    decreases ctx
  {
    match ctx
    case Top =>
    case InLeft(up, c, k, d, r) => PlugColor(Node(c, t, k, d, r), up);
    case InRight(up, c, l, k, d) => PlugColor(Node(c, l, k, d, t), up);
  }

  /** Below the root, the root's colour does not depend on what fills the hole. */
  lemma {:induction false} RootColorAboveFixed<D>(ctx: Ctx<D>, a: Color, b: Color)
    requires !ctx.Top?
    ensures RootColorAbove(ctx, a) == RootColorAbove(ctx, b)
  {
  }

  /** A context that accepts a red filler accepts a black one. */
  lemma CtxNoRedRedBlack<D>(ctx: Ctx<D>)
    requires CtxNoRedRed(ctx, Red)
    ensures CtxNoRedRed(ctx, Black)
  {
  }

  /** A context accepts a red filler exactly when it accepts a black one and the parent is black. */
  lemma CtxNoRedRedRed<D>(ctx: Ctx<D>)
    ensures CtxNoRedRed(ctx, Red) <==> CtxNoRedRed(ctx, Black) && ParentColor(ctx) == Black
  {
  }

  lemma {:induction false} PlugCompose<D>(t: Tree<D>, inner: Ctx<D>, outer: Ctx<D>)
    ensures Plug(t, Compose(inner, outer)) == Plug(Plug(t, inner), outer)
    decreases inner
  {
    match inner
    case Top =>
    case InLeft(up, c, k, d, r) => PlugCompose(Node(c, t, k, d, r), up, outer);
    case InRight(up, c, l, k, d) => PlugCompose(Node(c, l, k, d, t), up, outer);
  }

  lemma {:induction false} CtxBalancedCompose<D>(inner: Ctx<D>, outer: Ctx<D>, h: nat)
    ensures CtxBalanced(Compose(inner, outer), h) <==> CtxBalanced(inner, h) && CtxBalanced(outer, CtxHeight(inner, h))
    decreases inner
  {
    match inner
    case Top =>
    case InLeft(up, c, _, _, _) => CtxBalancedCompose(up, outer, h + (if c == Black then 1 else 0));
    case InRight(up, c, _, _, _) => CtxBalancedCompose(up, outer, h + (if c == Black then 1 else 0));
  }

  lemma {:induction false} CtxNoRedRedCompose<D>(inner: Ctx<D>, outer: Ctx<D>, hc: Color)
    ensures CtxNoRedRed(Compose(inner, outer), hc) <==> CtxNoRedRed(inner, hc) && CtxNoRedRed(outer, RootColorAbove(inner, hc))
    ensures RootColorAbove(Compose(inner, outer), hc) == RootColorAbove(outer, RootColorAbove(inner, hc))
    decreases inner
  {
    match inner
    case Top =>
    case InLeft(up, c, _, _, _) => CtxNoRedRedCompose(up, outer, c);
    case InRight(up, c, _, _, _) => CtxNoRedRedCompose(up, outer, c);
  }

  /** A subtree of an ordered tree is ordered. */
  lemma PlugOrdered<D>(t: Tree<D>, ctx: Ctx<D>)
    requires Ordered(Plug(t, ctx))
    ensures Ordered(t)
  {
    var b, e, a := Before(ctx), Entries(t), After(ctx);
    SortedAppend(b + e, a);
    SortedAppend(b, e);
  }

  /**
    One step of a key-directed descent keeps the key between the entries
    before and after the cursor.
   */
  lemma Descend<D>(c: Cursor<D>, k: string)
    requires Ordered(Whole(c)) && c.focus.Node? && KeyFits(c.ctx, k)
    ensures Less(k, c.focus.key) ==> KeyFits(DownLeft(c).ctx, k)
    ensures Less(c.focus.key, k) ==> KeyFits(DownRight(c).ctx, k)
  {
    PlugOrdered(c.focus, c.ctx);
    OrderedNode(c.focus);
    var n := c.focus;
    var here := [Entry(n.key, n.data)];
    if Less(k, n.key) {
      AllAboveThrough(Entries(n.right), n.key, k);
      AllAboveConcat(here, Entries(n.right), k);
      AllAboveConcat(here + Entries(n.right), After(c.ctx), k);
    }
    if Less(n.key, k) {
      AllBelowThrough(Entries(n.left), n.key, k);
      AllBelowConcat(Before(c.ctx), Entries(n.left), k);
      AllBelowConcat(Before(c.ctx) + Entries(n.left), here, k);
    }
  }

  /** A descent that reaches the sentinel proves the key absent. */
  lemma FitsAtSentinel<D>(ctx: Ctx<D>, k: string)
    requires KeyFits(ctx, k)
    ensures k !in Keys(Plug(Nil, ctx))
  {
    var b: seq<Entry<D>>, a: seq<Entry<D>> := Before(ctx), After(ctx);
    assert Entries(Plug(Nil, ctx)) == b + a;
    forall i | 0 <= i < |b + a|
      ensures (b + a)[i].key != k
    {
      LessIrreflexive(k);
      if i < |b| {
        assert (b + a)[i] == b[i];
      } else {
        assert (b + a)[i] == a[i - |b|];
      }
    }
    KeysOfIndex(b + a, k);
  }

  /** A descent that meets a node whose key is neither below nor above `k` found `k`. */
  lemma FitsAtNode<D>(c: Cursor<D>, k: string)
    requires Ordered(Whole(c)) && c.focus.Node? && KeyFits(c.ctx, k)
    requires !Less(k, c.focus.key) && !Less(c.focus.key, k)
    ensures c.focus.key == k
    ensures AllBelow(Before(c.ctx) + Entries(c.focus.left), k)
    ensures AllAbove(Entries(c.focus.right) + After(c.ctx), k)
  {
    LessTrichotomy(k, c.focus.key);
    PlugOrdered(c.focus, c.ctx);
    OrderedNode(c.focus);
    AllBelowConcat(Before(c.ctx), Entries(c.focus.left), k);
    AllAboveConcat(Entries(c.focus.right), After(c.ctx), k);
  }

  /** Filling a hole with subtrees of the same shape, keys and colours gives trees of the same shape. */
  lemma {:induction false} PlugSkeleton<D>(a: Tree<D>, b: Tree<D>, ctx: Ctx<D>)
    requires Skeleton(a) == Skeleton(b)
    ensures Skeleton(Plug(a, ctx)) == Skeleton(Plug(b, ctx))
    decreases ctx
  {
    match ctx
    case Top =>
    case InLeft(up, c, k, d, r) => PlugSkeleton(Node(c, a, k, d, r), Node(c, b, k, d, r), up);
    case InRight(up, c, l, k, d) => PlugSkeleton(Node(c, l, k, d, a), Node(c, l, k, d, b), up);
  }

  /** The entries of the tree around a node: those before it, its own, those after it. */
  lemma FocusSplit<D>(c: Cursor<D>)
    requires c.focus.Node?
    ensures Entries(Whole(c)) == (Before(c.ctx) + Entries(c.focus.left)) + [Entry(c.focus.key, c.focus.data)]
                                 + (Entries(c.focus.right) + After(c.ctx))
  {
    var z := c.focus;
    assert Entries(z) == Entries(z.left) + [Entry(z.key, z.data)] + Entries(z.right);
  }
}
