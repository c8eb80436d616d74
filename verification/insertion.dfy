/**
  `insert` and `_insert_fixup`. The cursor `z` of the fixup loop is the
  newly linked RED node, or later the RED node the violation moved up to.
 */
module Insertion {
  import opened StrOrder
  import opened AssocList
  import opened Trees
  import opened Cursors

  /**
    What holds at the head of `_insert_fixup`'s loop: `z` is RED, its
    subtree is a valid red-black subtree, black-heights agree everywhere,
    the only edge that may join two RED nodes is `z`'s link to its parent,
    and the root is BLACK unless `z` is the root.
   */
  ghost predicate FixupInv<D>(c: Cursor<D>) {
    && c.focus.Node? && c.focus.color == Red
    && NoRedRed(c.focus) && Balanced(c.focus)
    && CtxBalanced(c.ctx, BlackHeight(c.focus))
    && CtxNoRedRed(c.ctx, Black)
    && RootColorAbove(c.ctx, Black) == Black
  }

  /** `z.parent.parent.right` when the parent is a left child, else `z.parent.parent.left`. */
  function Uncle<D>(ctx: Ctx<D>): Tree<D>
    requires !ctx.Top? && !ctx.up.Top?
  {
    if ctx.up.InLeft? then ctx.up.right else ctx.up.left
  }

  /** A RED parent is never the root, and then the grandparent is BLACK. */
  lemma GrandparentExists<D>(c: Cursor<D>)
    requires FixupInv(c) && ParentColor(c.ctx) == Red
    ensures !c.ctx.Top? && !c.ctx.up.Top? && c.ctx.up.color == Black
  {
    var pf := c.ctx;
    assert RootColorAbove(pf, Black) == RootColorAbove(pf.up, Red);
    assert CtxNoRedRed(pf.up, Red);
  }

  /**
    Case 1, either side: the uncle is RED. The parent and the uncle turn
    BLACK, the grandparent turns RED and becomes the new `z`.
   */
  function RecolorCase<D>(c: Cursor<D>): (r: Cursor<D>)
    requires FixupInv(c) && ParentColor(c.ctx) == Red
    requires !c.ctx.Top? && !c.ctx.up.Top? && ColorOf(Uncle(c.ctx)) == Red
    ensures FixupInv(r)
    ensures Depth(r.ctx) + 2 == Depth(c.ctx)
    ensures Entries(Whole(r)) == Entries(Whole(c))
  {
    GrandparentExists(c);
    var p := Up(c);                                   // the parent of z
    var g := Up(Cursor(Paint(p.focus, Black), p.ctx)); // line 108 (125 on the right); then the grandparent
    var gp := g.focus;
    var gp' := if p.ctx.InLeft? then gp.(right := Paint(gp.right, Black)) else gp.(left := Paint(gp.left, Black));
    RecolorCaseSound(c, p.focus, Uncle(c.ctx), gp');
    Cursor(Paint(gp', Red), g.ctx)                    // lines 109-111 (126-128 on the right)
  }

  lemma RecolorCaseSound<D>(c: Cursor<D>, parent: Tree<D>, uncle: Tree<D>, gp': Tree<D>)
    requires FixupInv(c) && ParentColor(c.ctx) == Red
    requires !c.ctx.Top? && !c.ctx.up.Top? && c.ctx.up.color == Black
    requires uncle == Uncle(c.ctx) && ColorOf(uncle) == Red
    requires parent == Attach(c.focus, c.ctx)
    requires gp' == (var gf := c.ctx.up;
                     if gf.InLeft? then Node(Black, Paint(parent, Black), gf.key, gf.data, Paint(uncle, Black))
                     else Node(Black, Paint(uncle, Black), gf.key, gf.data, Paint(parent, Black)))
    ensures FixupInv(Cursor(Paint(gp', Red), c.ctx.up.up))
    ensures Entries(Plug(Paint(gp', Red), c.ctx.up.up)) == Entries(Whole(c))
  {
    var pf, gf, z := c.ctx, c.ctx.up, c.focus;
    var sib := if pf.InLeft? then pf.right else pf.left;
    assert Balanced(sib) && BlackHeight(sib) == BlackHeight(z) && NoRedRed(sib) && ColorOf(sib) == Black;
    assert CtxBalanced(gf, BlackHeight(z)) && CtxNoRedRed(gf, Red);
    assert Balanced(uncle) && BlackHeight(uncle) == BlackHeight(z) && NoRedRed(uncle);
    PaintFacts(parent, Black);
    PaintFacts(uncle, Black);
    assert BlackHeight(Paint(uncle, Black)) == BlackHeight(z) + 1;
    assert NoRedRed(Paint(parent, Black));
    assert CtxBalanced(gf.up, BlackHeight(z) + 1) && CtxNoRedRed(gf.up, Black);
    assert RootColorAbove(pf, Black) == RootColorAbove(gf, Red) == RootColorAbove(gf.up, Black);
  }

  /**
    Case 2, parent a left child: `z` is a right child. `z` moves to its
    parent, which is rotated left, leaving `z` a left child (case 3's shape).
   */
  function TurnLeftCase<D>(c: Cursor<D>): (r: Cursor<D>)
    requires FixupInv(c) && ParentColor(c.ctx) == Red
    requires c.ctx.InRight? && c.ctx.up.InLeft? && ColorOf(Uncle(c.ctx)) == Black
    ensures FixupInv(r) && ParentColor(r.ctx) == Red
    ensures r.ctx.InLeft? && r.ctx.up == c.ctx.up
    ensures Depth(r.ctx) == Depth(c.ctx)
    ensures Entries(Whole(r)) == Entries(Whole(c))
  {
    var p := Up(c);                                   // line 115
    DownLeft(Cursor(RotateLeft(p.focus), p.ctx))      // line 116; z is now a left child
  }

  /** Case 2, mirrored: parent a right child, `z` a left child. */
  function TurnRightCase<D>(c: Cursor<D>): (r: Cursor<D>)
    requires FixupInv(c) && ParentColor(c.ctx) == Red
    requires c.ctx.InLeft? && c.ctx.up.InRight? && ColorOf(Uncle(c.ctx)) == Black
    ensures FixupInv(r) && ParentColor(r.ctx) == Red
    ensures r.ctx.InRight? && r.ctx.up == c.ctx.up
    ensures Depth(r.ctx) == Depth(c.ctx)
    ensures Entries(Whole(r)) == Entries(Whole(c))
  {
    var p := Up(c);
    DownRight(Cursor(RotateRight(p.focus), p.ctx))
  }

  /**
    Case 3, parent a left child: `z` is a left child. The parent turns
    BLACK, the grandparent RED, and the grandparent is rotated right; the
    parent of `z` is then BLACK and the loop ends.
   */
  function LineLeftCase<D>(c: Cursor<D>): (r: Cursor<D>)
    requires FixupInv(c) && ParentColor(c.ctx) == Red
    requires c.ctx.InLeft? && c.ctx.up.InLeft? && ColorOf(Uncle(c.ctx)) == Black
    ensures FixupInv(r) && ParentColor(r.ctx) == Black
    ensures Depth(r.ctx) + 1 == Depth(c.ctx)
    ensures Entries(Whole(r)) == Entries(Whole(c))
  {
    GrandparentExists(c);
    var p := Up(c);                                   // the parent of z
    var g := Up(Cursor(Paint(p.focus, Black), p.ctx)); // line 118
    var r := DownLeft(Cursor(RotateRight(Paint(g.focus, Red)), g.ctx)); // lines 119-120
    LineLeftSound(c, r);
    PaintFacts(p.focus, Black);
    PaintFacts(g.focus, Red);
    r
  }

  /** The shape case 3 leaves on the left side, and why it is a valid loop state with a BLACK parent. */
  lemma LineLeftSound<D>(c: Cursor<D>, r: Cursor<D>)
    requires FixupInv(c) && ParentColor(c.ctx) == Red
    requires c.ctx.InLeft? && c.ctx.up.InLeft? && ColorOf(c.ctx.up.right) == Black && c.ctx.up.color == Black
    requires r == (var pf, gf := c.ctx, c.ctx.up;
                   Cursor(c.focus, InLeft(gf.up, Black, pf.key, pf.data, Node(Red, pf.right, gf.key, gf.data, gf.right))))
    ensures FixupInv(r) && ParentColor(r.ctx) == Black
  {
    var pf, gf, z := c.ctx, c.ctx.up, c.focus;
    assert Balanced(pf.right) && BlackHeight(pf.right) == BlackHeight(z) && NoRedRed(pf.right) && ColorOf(pf.right) == Black;
    assert CtxBalanced(gf, BlackHeight(z)) && CtxNoRedRed(gf, Red);
    assert CtxBalanced(gf.up, BlackHeight(z) + 1) && CtxNoRedRed(gf.up, Black);
    assert RootColorAbove(pf, Black) == RootColorAbove(gf, Red) == RootColorAbove(gf.up, Black);
  }

  /** The shape case 3 leaves on the right side. */
  lemma LineRightSound<D>(c: Cursor<D>, r: Cursor<D>)
    requires FixupInv(c) && ParentColor(c.ctx) == Red
    requires c.ctx.InRight? && c.ctx.up.InRight? && ColorOf(c.ctx.up.left) == Black && c.ctx.up.color == Black
    requires r == (var pf, gf := c.ctx, c.ctx.up;
                   Cursor(c.focus, InRight(gf.up, Black, Node(Red, gf.left, gf.key, gf.data, pf.left), pf.key, pf.data)))
    ensures FixupInv(r) && ParentColor(r.ctx) == Black
  {
    var pf, gf, z := c.ctx, c.ctx.up, c.focus;
    assert Balanced(pf.left) && BlackHeight(pf.left) == BlackHeight(z) && NoRedRed(pf.left) && ColorOf(pf.left) == Black;
    assert CtxBalanced(gf, BlackHeight(z)) && CtxNoRedRed(gf, Red);
    assert CtxBalanced(gf.up, BlackHeight(z) + 1) && CtxNoRedRed(gf.up, Black);
    assert RootColorAbove(pf, Black) == RootColorAbove(gf, Red) == RootColorAbove(gf.up, Black);
    var moved := Node(Red, gf.left, gf.key, gf.data, pf.left);
    assert Balanced(moved) && BlackHeight(moved) == BlackHeight(z) && NoRedRed(moved);
  }

  /** Case 3, mirrored: parent a right child, `z` a right child. */
  function LineRightCase<D>(c: Cursor<D>): (r: Cursor<D>)
    requires FixupInv(c) && ParentColor(c.ctx) == Red
    requires c.ctx.InRight? && c.ctx.up.InRight? && ColorOf(Uncle(c.ctx)) == Black
    ensures FixupInv(r) && ParentColor(r.ctx) == Black
    ensures Depth(r.ctx) + 1 == Depth(c.ctx)
    ensures Entries(Whole(r)) == Entries(Whole(c))
  {
    GrandparentExists(c);
    var p := Up(c);
    var g := Up(Cursor(Paint(p.focus, Black), p.ctx));
    var r := DownRight(Cursor(RotateLeft(Paint(g.focus, Red)), g.ctx));
    LineRightSound(c, r);
    PaintFacts(p.focus, Black);
    PaintFacts(g.focus, Red);
    r
  }

  /**
    `_insert_fixup(z)`: walk the RED-RED violation up the tree until the
    parent of `z` is BLACK, then paint the root BLACK. The result is a
    red-black tree with the same contents.
   */
  method InsertFixup<D>(c0: Cursor<D>) returns (t: Tree<D>)
    requires FixupInv(c0)
    ensures ColorOf(t) == Black && NoRedRed(t) && Balanced(t)
    ensures Entries(t) == Entries(Whole(c0))
  {
    var c := c0;
    while ParentColor(c.ctx) == Red
      invariant FixupInv(c)
      invariant Entries(Whole(c)) == Entries(Whole(c0))
      decreases Depth(c.ctx)
    {
      GrandparentExists(c);
      if c.ctx.up.InLeft? {                           // line 104
        if ColorOf(Uncle(c.ctx)) == Red {
          c := RecolorCase(c);
        } else {
          if c.ctx.InRight? {                         // line 113
            c := TurnLeftCase(c);
          }
          c := LineLeftCase(c);
        }
      } else {
        if ColorOf(Uncle(c.ctx)) == Red {
          c := RecolorCase(c);
        } else {
          if c.ctx.InLeft? {                          // line 130
            c := TurnRightCase(c);
          }
          c := LineRightCase(c);
        }
      }
    }
    FixupDone(c);
    t := Paint(Whole(c), Black);                      // line 136
  }

  /**
    Once the parent of `z` is BLACK the only fault left is a RED root, and
    painting the root BLACK leaves a valid tree with the same contents.
   */
  lemma FixupDone<D>(c: Cursor<D>)
    requires FixupInv(c) && ParentColor(c.ctx) == Black
    ensures var t := Paint(Whole(c), Black);
      ColorOf(t) == Black && NoRedRed(t) && Balanced(t) && Entries(t) == Entries(Whole(c))
  {
    CtxNoRedRedRed(c.ctx);
    PlugNoRedRed(c.focus, c.ctx);
    PlugBalanced(c.focus, c.ctx);
    PaintFacts(Whole(c), Black);
  }

  /**
    `insert(key, data)`: descend by key from the root. An existing key has
    its payload replaced and nothing else changes; otherwise a RED node is
    linked where the descent fell off the tree and `_insert_fixup` restores
    the red-black properties. The contents become those of the map update.
   */
  method Insert<D>(t: Tree<D>, k: string, d: D) returns (r: Tree<D>)
    requires IsRedBlack(t)
    ensures IsRedBlack(r)
    ensures Entries(r) == Put(Entries(t), k, d)
    ensures k in Keys(t) ==> Skeleton(r) == Skeleton(t)
    ensures k !in Keys(t) ==> |Entries(r)| == |Entries(t)| + 1
    ensures forall q :: Lookup(Entries(r), q) == if q == k then Some(d) else Lookup(Entries(t), q)
  {
    var c := Cursor(t, Top);                          // line 79
    while c.focus.Node?                               // line 80
      invariant Whole(c) == t
      invariant KeyFits(c.ctx, k)
      decreases Size(c.focus)
    {
      Descend(c, k);
      if Less(k, c.focus.key) {
        c := DownLeft(c);
      } else if Less(c.focus.key, k) {
        c := DownRight(c);
      } else {
        FitsAtNode(c, k);                             // the key is already present: line 88
        r := Plug(c.focus.(data := d), c.ctx);
        ReplaceSound(c, k, d);
        PutView(Entries(t), k, d);
        return;
      }
    }
    LinkSound(c.ctx, k, d);
    var z := Node(Red, Nil, k, d, Nil);               // z links below y, on the side the last comparison chose
    r := InsertFixup(Cursor(z, c.ctx));
    PutView(Entries(t), k, d);
  }

  /** Replacing the payload of the node holding `k` is the map update and keeps every invariant and the shape. */
  lemma ReplaceSound<D>(c: Cursor<D>, k: string, d: D)
    requires IsRedBlack(Whole(c)) && c.focus.Node? && c.focus.key == k
    requires AllBelow(Before(c.ctx) + Entries(c.focus.left), k)
    ensures var r := Plug(c.focus.(data := d), c.ctx);
      && IsRedBlack(r) && Entries(r) == Put(Entries(Whole(c)), k, d)
      && Skeleton(r) == Skeleton(Whole(c)) && k in Keys(Whole(c))
  {
    var n := c.focus;
    var lo, hi := Before(c.ctx) + Entries(n.left), Entries(n.right) + After(c.ctx);
    FocusSplit(c);
    FocusSplit(Cursor(n.(data := d), c.ctx));
    PutReplaces(lo, hi, k, n.data, d);
    KeyBetween(lo, Entry(k, n.data), hi);
    PutSorted(Entries(Whole(c)), k, d);
    SameShapeSound(n, d, c.ctx);
  }

  /** Two fillers that differ only in payload give trees with the same shape and red-black properties. */
  lemma SameShapeSound<D>(a: Tree<D>, d: D, ctx: Ctx<D>)
    requires a.Node?
    ensures var b := a.(data := d);
      && Skeleton(Plug(a, ctx)) == Skeleton(Plug(b, ctx))
      && Balanced(Plug(a, ctx)) == Balanced(Plug(b, ctx))
      && NoRedRed(Plug(a, ctx)) == NoRedRed(Plug(b, ctx))
      && ColorOf(Plug(a, ctx)) == ColorOf(Plug(b, ctx))
  {
    var b := a.(data := d);
    PlugSkeleton(a, b, ctx);
    PlugBalanced(a, ctx);
    PlugBalanced(b, ctx);
    PlugNoRedRed(a, ctx);
    PlugNoRedRed(b, ctx);
    PlugColor(a, ctx);
    PlugColor(b, ctx);
  }

  /** A RED leaf linked where a key-directed descent fell off a red-black tree is a valid start for the fixup. */
  lemma LinkSound<D>(ctx: Ctx<D>, k: string, d: D)
    requires IsRedBlack(Plug(Nil, ctx)) && KeyFits(ctx, k)
    ensures FixupInv(Cursor(Node(Red, Nil, k, d, Nil), ctx))
    ensures Entries(Plug(Node(Red, Nil, k, d, Nil), ctx)) == Put(Entries(Plug(Nil, ctx)), k, d)
    ensures Sorted(Entries(Plug(Node(Red, Nil, k, d, Nil), ctx)))
    ensures k !in Keys(Plug(Nil, ctx))
    ensures |Entries(Plug(Node(Red, Nil, k, d, Nil), ctx))| == |Entries(Plug(Nil, ctx))| + 1
  {
    FitsAtSentinel(ctx, k);
    PlugBalanced(Nil, ctx);
    PlugNoRedRed(Nil, ctx);
    PlugColor(Nil, ctx);
    LinkEntries(ctx, k, d);
  }

  lemma LinkEntries<D>(ctx: Ctx<D>, k: string, d: D)
    requires Ordered(Plug(Nil, ctx)) && KeyFits(ctx, k)
    ensures Entries(Plug(Node(Red, Nil, k, d, Nil), ctx)) == Put(Entries(Plug(Nil, ctx)), k, d)
    ensures Sorted(Entries(Plug(Node(Red, Nil, k, d, Nil), ctx)))
    ensures |Entries(Plug(Node(Red, Nil, k, d, Nil), ctx))| == |Entries(Plug(Nil, ctx))| + 1
  {
    var lo, hi := Before(ctx), After(ctx);
    PutBetween(lo, hi, k, d);
    FocusSplit(Cursor(Node(Red, Nil, k, d, Nil), ctx));
    DropEmpty(lo, [Entry(k, d)], hi);
    PutSorted(lo + hi, k, d);
  }
}
