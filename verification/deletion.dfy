/**
  `delete`, `_transplant`, `_minimum` and `_delete_fixup`. The cursor `x` of
  the fixup loop may sit on the sentinel: its context is then what the
  sentinel's `parent` field records.
 */
module Deletion {
  import opened StrOrder
  import opened AssocList
  import opened Trees
  import opened Cursors
  import opened Searching

  // ----- _minimum and _transplant -----

  /**
    `_minimum(x)`: follow left links from a real node to the first node
    without a left child. The cursor is relative to `t`; nothing comes
    before it, so its node holds the smallest entry of `t`.
   */
  method Minimum<D>(t: Tree<D>) returns (m: Cursor<D>)
    requires t.Node?
    ensures Whole(m) == t && m.focus.Node? && m.focus.left.Nil?
    ensures Before(m.ctx) == []
    ensures Entries(t)[0] == Entry(m.focus.key, m.focus.data)
  {
    m := Cursor(t, Top);
    while m.focus.left.Node?                          // line 37
      invariant Whole(m) == t && m.focus.Node?
      invariant Before(m.ctx) == []
      decreases Size(m.focus)
    {
      m := DownLeft(m);                               // line 38
    }
    assert Entries(m.focus) == [Entry(m.focus.key, m.focus.data)] + Entries(m.focus.right);
    assert Entries(t) == Before(m.ctx) + Entries(m.focus) + After(m.ctx);
  }

  /**
    `_transplant(u, v)`: the subtree `v` takes the place of the subtree at
    `u` under `u`'s parent (or as the root), and `v`'s parent becomes `u`'s
    parent, even when `v` is the sentinel.
   */
  function Transplant<D>(u: Cursor<D>, v: Tree<D>): (r: Cursor<D>)
    ensures Entries(Whole(r)) == Before(u.ctx) + Entries(v) + After(u.ctx)
    ensures Depth(r.ctx) == Depth(u.ctx)
  {
    Cursor(v, u.ctx)
  }

  /** Transplanting the old subtree back restores the tree: nothing outside the slot changed. */
  lemma TransplantBack<D>(u: Cursor<D>, v: Tree<D>)
    ensures Transplant(Transplant(u, v), u.focus) == u
    ensures Whole(Transplant(Transplant(u, v), u.focus)) == Whole(u)
  {
  }

  // ----- the loop state of _delete_fixup -----

  /**
    What holds at the head of `_delete_fixup`'s loop: `x` carries one extra
    BLACK, so its subtree is one short of the black-height its context
    expects; painting `x` BLACK would leave no RED-RED edge; no edge outside
    `x`'s link to its parent joins two RED nodes; and the root is BLACK
    unless `x` is the root.
   */
  ghost predicate DeleteInv<D>(c: Cursor<D>) {
    && NoRedRed(Paint(c.focus, Black)) && Balanced(c.focus)
    && CtxBalanced(c.ctx, BlackHeight(c.focus) + 1)
    && CtxNoRedRed(c.ctx, Black)
    && RootColorAbove(c.ctx, Black) == Black
  }

  /** `x`'s sibling `w`. */
  function Sibling<D>(ctx: Ctx<D>): Tree<D>
    requires !ctx.Top?
  {
    if ctx.InLeft? then ctx.right else ctx.left
  }

  /**
    `x == x.parent.left` as evaluated on nodes: `x` is its parent's left
    child, or `x` is the sentinel and so is the parent's left child (the
    sentinel is one object shared by every empty slot).
   */
  predicate SideIsLeft<D>(c: Cursor<D>)
    requires !c.ctx.Top?
  {
    c.ctx.InLeft? || (c.focus.Nil? && c.ctx.left.Nil?)
  }

  /**
    While `x` is a BLACK non-root, its sibling is a real node one BLACK
    taller than `x`, so the identity test on the shared sentinel picks the
    side `x` is really on.
   */
  lemma SiblingFacts<D>(c: Cursor<D>)
    requires DeleteInv(c) && !c.ctx.Top? && ColorOf(c.focus) == Black
    ensures Sibling(c.ctx).Node? && Balanced(Sibling(c.ctx)) && NoRedRed(Sibling(c.ctx))
    ensures BlackHeight(Sibling(c.ctx)) == BlackHeight(c.focus) + 1
    ensures SideIsLeft(c) <==> c.ctx.InLeft?
  {
  }

  /**
    Whether a removal leaves work for `_delete_fixup`: with a BLACK node
    spliced out, `x` starts the loop; with a RED one, the tree is already valid.
   */
  ghost predicate Ready<D>(x: Cursor<D>, removed: Color) {
    if removed == Black then DeleteInv(x)
    else NoRedRed(Whole(x)) && Balanced(Whole(x)) && ColorOf(Whole(x)) == Black
  }

  // ----- _delete_fixup, x a left child -----

  /**
    Case 1: the sibling `w` is RED. `w` turns BLACK, the parent RED, and the
    parent is rotated left; `x` keeps its (now RED) parent and gets a BLACK
    sibling, one level deeper.
   */
  function RedSiblingLeft<D>(c: Cursor<D>): (r: Cursor<D>)
    requires DeleteInv(c) && ColorOf(c.focus) == Black && c.ctx.InLeft? && ColorOf(c.ctx.right) == Red
    ensures DeleteInv(r) && r.focus == c.focus && r.ctx.InLeft? && r.ctx.color == Red && ColorOf(r.ctx.right) == Black
    ensures Depth(r.ctx) == Depth(c.ctx) + 1
    ensures Entries(Whole(r)) == Entries(Whole(c))
  {
    var p := Up(c);                                   // the parent of x
    var n := p.focus;
    var rotated := RotateLeft(Node(Red, n.left, n.key, n.data, Paint(n.right, Black))); // lines 181-183
    PaintFacts(n.right, Black);
    var r := DownLeft(DownLeft(Cursor(rotated, p.ctx))); // line 184
    RedSiblingLeftSound(c, r);
    r
  }

  lemma RedSiblingLeftSound<D>(c: Cursor<D>, r: Cursor<D>)
    requires DeleteInv(c) && ColorOf(c.focus) == Black && c.ctx.InLeft? && ColorOf(c.ctx.right) == Red
    requires r == (var pf, w := c.ctx, c.ctx.right;
                   Cursor(c.focus, InLeft(InLeft(pf.up, Black, w.key, w.data, w.right), Red, pf.key, pf.data, w.left)))
    ensures DeleteInv(r)
  {
    var pf, w, x := c.ctx, c.ctx.right, c.focus;
    var h := BlackHeight(x);
    assert pf.color == Black;
    assert Balanced(w) && BlackHeight(w) == h + 1 && NoRedRed(w);
    assert Balanced(w.left) && BlackHeight(w.left) == h + 1 && NoRedRed(w.left) && ColorOf(w.left) == Black;
    assert Balanced(w.right) && BlackHeight(w.right) == h + 1 && NoRedRed(w.right) && ColorOf(w.right) == Black;
    assert CtxBalanced(pf.up, h + 2) && CtxNoRedRed(pf.up, Black);
    assert CtxBalanced(r.ctx.up, h + 1) && CtxNoRedRed(r.ctx.up, Red);
    assert CtxBalanced(r.ctx, h + 1) && CtxNoRedRed(r.ctx, Black);
    assert RootColorAbove(r.ctx, Black) == RootColorAbove(pf.up, Black) == RootColorAbove(pf, Black);
  }

  /**
    Case 2: `w` is BLACK with two BLACK children. `w` turns RED and the
    extra BLACK moves up to the parent, which becomes `x`.
   */
  function BlackNephewsLeft<D>(c: Cursor<D>): (r: Cursor<D>)
    requires DeleteInv(c) && ColorOf(c.focus) == Black && c.ctx.InLeft?
    requires c.ctx.right.Node? && c.ctx.right.color == Black
    requires ColorOf(c.ctx.right.left) == Black && ColorOf(c.ctx.right.right) == Black
    ensures DeleteInv(r) && ColorOf(r.focus) == c.ctx.color
    ensures Depth(r.ctx) + 1 == Depth(c.ctx)
    ensures Entries(Whole(r)) == Entries(Whole(c))
  {
    var pf := c.ctx;
    var r := Up(Cursor(c.focus, pf.(right := Paint(pf.right, Red)))); // lines 187-188
    PaintFacts(pf.right, Red);
    BlackNephewsLeftSound(c, r);
    r
  }

  lemma BlackNephewsLeftSound<D>(c: Cursor<D>, r: Cursor<D>)
    requires DeleteInv(c) && ColorOf(c.focus) == Black && c.ctx.InLeft?
    requires c.ctx.right.Node? && c.ctx.right.color == Black
    requires ColorOf(c.ctx.right.left) == Black && ColorOf(c.ctx.right.right) == Black
    requires r == (var pf := c.ctx; Cursor(Node(pf.color, c.focus, pf.key, pf.data, Paint(pf.right, Red)), pf.up))
    ensures DeleteInv(r)
  {
    var pf, w, x := c.ctx, c.ctx.right, c.focus;
    var h := BlackHeight(x);
    PaintFacts(w, Red);
    assert Balanced(w) && BlackHeight(w) == h + 1 && NoRedRed(w);
    assert NoRedRed(x);
    if pf.color == Red {
      CtxNoRedRedBlack(pf.up);
    }
    if !pf.up.Top? {
      RootColorAboveFixed(pf.up, Black, pf.color);
    }
    PaintFacts(r.focus, Black);
  }

  /**
    Case 3: `w` is BLACK, its left child RED and its right child BLACK. The
    left child turns BLACK, `w` RED, and `w` is rotated right; the new
    sibling is BLACK with a RED right child (case 4's shape).
   */
  function NearNephewLeft<D>(c: Cursor<D>): (r: Cursor<D>)
    requires DeleteInv(c) && ColorOf(c.focus) == Black && c.ctx.InLeft?
    requires c.ctx.right.Node? && c.ctx.right.color == Black
    requires ColorOf(c.ctx.right.left) == Red && ColorOf(c.ctx.right.right) == Black
    ensures DeleteInv(r) && r.focus == c.focus && r.ctx.InLeft? && r.ctx.up == c.ctx.up && r.ctx.color == c.ctx.color
    ensures r.ctx.right.Node? && r.ctx.right.color == Black && ColorOf(r.ctx.right.right) == Red
    ensures Depth(r.ctx) == Depth(c.ctx)
    ensures Entries(Whole(r)) == Entries(Whole(c))
  {
    var pf := c.ctx;
    var w := pf.right;
    var w' := RotateRight(Node(Red, Paint(w.left, Black), w.key, w.data, w.right)); // lines 192-194
    PaintFacts(w.left, Black);
    var r := Cursor(c.focus, pf.(right := w'));       // line 195
    NearNephewLeftSound(c, r);
    r
  }

  lemma NearNephewLeftSound<D>(c: Cursor<D>, r: Cursor<D>)
    requires DeleteInv(c) && ColorOf(c.focus) == Black && c.ctx.InLeft?
    requires c.ctx.right.Node? && c.ctx.right.color == Black
    requires ColorOf(c.ctx.right.left) == Red && ColorOf(c.ctx.right.right) == Black
    requires r == (var pf, w := c.ctx, c.ctx.right;
                   Cursor(c.focus, pf.(right := Node(Black, w.left.left, w.left.key, w.left.data,
                                                    Node(Red, w.left.right, w.key, w.data, w.right)))))
    ensures DeleteInv(r)
  {
    var pf, w, x := c.ctx, c.ctx.right, c.focus;
    var h := BlackHeight(x);
    assert Balanced(w) && BlackHeight(w) == h + 1 && NoRedRed(w);
    var wl := w.left;
    assert Balanced(wl) && BlackHeight(wl) == h && NoRedRed(wl) && wl.Node? && wl.color == Red;
    assert BlackHeight(wl.left) == h && BlackHeight(wl.right) == h && BlackHeight(w.right) == h;
    assert ColorOf(wl.left) == Black && ColorOf(wl.right) == Black;
    var inner := Node(Red, wl.right, w.key, w.data, w.right);
    assert Balanced(inner) && BlackHeight(inner) == h && NoRedRed(inner);
    var w' := Node(Black, wl.left, wl.key, wl.data, inner);
    assert r.ctx.right == w';
    assert Balanced(w') && BlackHeight(w') == h + 1 && NoRedRed(w');
  }

  /**
    Case 4: `w` is BLACK with a RED right child. `w` takes the parent's
    colour, the parent and `w`'s right child turn BLACK, the parent is
    rotated left, and `x` becomes the root: the loop ends.
   */
  function FarNephewLeft<D>(c: Cursor<D>): (r: Cursor<D>)
    requires DeleteInv(c) && ColorOf(c.focus) == Black && c.ctx.InLeft?
    requires c.ctx.right.Node? && c.ctx.right.color == Black && ColorOf(c.ctx.right.right) == Red
    ensures DeleteInv(r) && r.ctx.Top?
    ensures Entries(Whole(r)) == Entries(Whole(c))
  {
    var p := Up(c);                                   // the parent of x
    var n := p.focus;
    var w := n.right;
    var pre := Node(Black, n.left, n.key, n.data, Node(n.color, w.left, w.key, w.data, Paint(w.right, Black)));
                                                      // lines 197-199: w takes the parent's colour; parent and far nephew BLACK
    var sub := RotateLeft(pre);                       // line 200
    var r := Cursor(Plug(sub, p.ctx), Top);           // line 201
    PaintFacts(w.right, Black);
    assert Entries(pre.right) == Entries(w);
    assert Entries(sub) == Entries(n);
    FarNephewLeftSound(c, sub);
    r
  }

  lemma FarNephewLeftSound<D>(c: Cursor<D>, sub: Tree<D>)
    requires DeleteInv(c) && ColorOf(c.focus) == Black && c.ctx.InLeft?
    requires c.ctx.right.Node? && c.ctx.right.color == Black && ColorOf(c.ctx.right.right) == Red
    requires sub == (var pf, w := c.ctx, c.ctx.right;
                     Node(pf.color, Node(Black, c.focus, pf.key, pf.data, w.left), w.key, w.data, Paint(w.right, Black)))
    ensures DeleteInv(Cursor(Plug(sub, c.ctx.up), Top))
  {
    var pf, w, x := c.ctx, c.ctx.right, c.focus;
    var h := BlackHeight(x);
    assert Balanced(w) && BlackHeight(w) == h + 1 && NoRedRed(w);
    assert NoRedRed(x);
    assert BlackHeight(w.left) == h && BlackHeight(w.right) == h && w.right.Node?;
    PaintFacts(w.right, Black);
    assert BlackHeight(Paint(w.right, Black)) == h + 1 && NoRedRed(Paint(w.right, Black));
    assert Balanced(sub.left) && BlackHeight(sub.left) == h + 1 && NoRedRed(sub.left);
    assert Balanced(sub) && NoRedRed(sub);
    assert CtxBalanced(pf.up, BlackHeight(sub)) && CtxNoRedRed(pf.up, ColorOf(sub));
    PlugBalanced(sub, pf.up);
    PlugNoRedRed(sub, pf.up);
    PaintFacts(Plug(sub, pf.up), Black);
  }

  // ----- _delete_fixup, x a right child (left and right exchanged) -----

  function RedSiblingRight<D>(c: Cursor<D>): (r: Cursor<D>)
    requires DeleteInv(c) && ColorOf(c.focus) == Black && c.ctx.InRight? && ColorOf(c.ctx.left) == Red
    ensures DeleteInv(r) && r.focus == c.focus && r.ctx.InRight? && r.ctx.color == Red && ColorOf(r.ctx.left) == Black
    ensures Depth(r.ctx) == Depth(c.ctx) + 1
    ensures Entries(Whole(r)) == Entries(Whole(c))
  {
    var p := Up(c);
    var n := p.focus;
    var rotated := RotateRight(Node(Red, Paint(n.left, Black), n.key, n.data, n.right)); // lines 206-208
    PaintFacts(n.left, Black);
    var r := DownRight(DownRight(Cursor(rotated, p.ctx))); // line 209
    RedSiblingRightSound(c, r);
    r
  }

  lemma RedSiblingRightSound<D>(c: Cursor<D>, r: Cursor<D>)
    requires DeleteInv(c) && ColorOf(c.focus) == Black && c.ctx.InRight? && ColorOf(c.ctx.left) == Red
    requires r == (var pf, w := c.ctx, c.ctx.left;
                   Cursor(c.focus, InRight(InRight(pf.up, Black, w.left, w.key, w.data), Red, w.right, pf.key, pf.data)))
    ensures DeleteInv(r)
  {
    var pf, w, x := c.ctx, c.ctx.left, c.focus;
    var h := BlackHeight(x);
    assert pf.color == Black;
    assert Balanced(w) && BlackHeight(w) == h + 1 && NoRedRed(w);
    assert Balanced(w.left) && BlackHeight(w.left) == h + 1 && NoRedRed(w.left) && ColorOf(w.left) == Black;
    assert Balanced(w.right) && BlackHeight(w.right) == h + 1 && NoRedRed(w.right) && ColorOf(w.right) == Black;
    assert CtxBalanced(pf.up, h + 2) && CtxNoRedRed(pf.up, Black);
    assert CtxBalanced(r.ctx.up, h + 1) && CtxNoRedRed(r.ctx.up, Red);
    assert CtxBalanced(r.ctx, h + 1) && CtxNoRedRed(r.ctx, Black);
    assert RootColorAbove(r.ctx, Black) == RootColorAbove(pf.up, Black) == RootColorAbove(pf, Black);
  }

  function BlackNephewsRight<D>(c: Cursor<D>): (r: Cursor<D>)
    requires DeleteInv(c) && ColorOf(c.focus) == Black && c.ctx.InRight?
    requires c.ctx.left.Node? && c.ctx.left.color == Black
    requires ColorOf(c.ctx.left.right) == Black && ColorOf(c.ctx.left.left) == Black
    ensures DeleteInv(r) && ColorOf(r.focus) == c.ctx.color
    ensures Depth(r.ctx) + 1 == Depth(c.ctx)
    ensures Entries(Whole(r)) == Entries(Whole(c))
  {
    var pf := c.ctx;
    var r := Up(Cursor(c.focus, pf.(left := Paint(pf.left, Red)))); // lines 211-212
    PaintFacts(pf.left, Red);
    BlackNephewsRightSound(c, r);
    r
  }

  lemma BlackNephewsRightSound<D>(c: Cursor<D>, r: Cursor<D>)
    requires DeleteInv(c) && ColorOf(c.focus) == Black && c.ctx.InRight?
    requires c.ctx.left.Node? && c.ctx.left.color == Black
    requires ColorOf(c.ctx.left.right) == Black && ColorOf(c.ctx.left.left) == Black
    requires r == (var pf := c.ctx; Cursor(Node(pf.color, Paint(pf.left, Red), pf.key, pf.data, c.focus), pf.up))
    ensures DeleteInv(r)
  {
    var pf, w, x := c.ctx, c.ctx.left, c.focus;
    var h := BlackHeight(x);
    PaintFacts(w, Red);
    assert Balanced(w) && BlackHeight(w) == h + 1 && NoRedRed(w);
    assert NoRedRed(x);
    if pf.color == Red {
      CtxNoRedRedBlack(pf.up);
    }
    if !pf.up.Top? {
      RootColorAboveFixed(pf.up, Black, pf.color);
    }
    PaintFacts(r.focus, Black);
  }

  function NearNephewRight<D>(c: Cursor<D>): (r: Cursor<D>)
    requires DeleteInv(c) && ColorOf(c.focus) == Black && c.ctx.InRight?
    requires c.ctx.left.Node? && c.ctx.left.color == Black
    requires ColorOf(c.ctx.left.right) == Red && ColorOf(c.ctx.left.left) == Black
    ensures DeleteInv(r) && r.focus == c.focus && r.ctx.InRight? && r.ctx.up == c.ctx.up && r.ctx.color == c.ctx.color
    ensures r.ctx.left.Node? && r.ctx.left.color == Black && ColorOf(r.ctx.left.left) == Red
    ensures Depth(r.ctx) == Depth(c.ctx)
    ensures Entries(Whole(r)) == Entries(Whole(c))
  {
    var pf := c.ctx;
    var w := pf.left;
    var w' := RotateLeft(Node(Red, w.left, w.key, w.data, Paint(w.right, Black))); // lines 215-217
    PaintFacts(w.right, Black);
    var r := Cursor(c.focus, pf.(left := w'));        // line 218
    NearNephewRightSound(c, r);
    r
  }

  lemma NearNephewRightSound<D>(c: Cursor<D>, r: Cursor<D>)
    requires DeleteInv(c) && ColorOf(c.focus) == Black && c.ctx.InRight?
    requires c.ctx.left.Node? && c.ctx.left.color == Black
    requires ColorOf(c.ctx.left.right) == Red && ColorOf(c.ctx.left.left) == Black
    requires r == (var pf, w := c.ctx, c.ctx.left;
                   Cursor(c.focus, pf.(left := Node(Black, Node(Red, w.left, w.key, w.data, w.right.left),
                                                   w.right.key, w.right.data, w.right.right))))
    ensures DeleteInv(r)
  {
    var pf, w, x := c.ctx, c.ctx.left, c.focus;
    var h := BlackHeight(x);
    assert Balanced(w) && BlackHeight(w) == h + 1 && NoRedRed(w);
    var wr := w.right;
    assert Balanced(wr) && BlackHeight(wr) == h && NoRedRed(wr) && wr.Node? && wr.color == Red;
    assert BlackHeight(wr.left) == h && BlackHeight(wr.right) == h && BlackHeight(w.left) == h;
    assert ColorOf(wr.left) == Black && ColorOf(wr.right) == Black;
    var inner := Node(Red, w.left, w.key, w.data, wr.left);
    assert Balanced(inner) && BlackHeight(inner) == h && NoRedRed(inner);
    var w' := Node(Black, inner, wr.key, wr.data, wr.right);
    assert r.ctx.left == w';
    assert Balanced(w') && BlackHeight(w') == h + 1 && NoRedRed(w');
  }

  function FarNephewRight<D>(c: Cursor<D>): (r: Cursor<D>)
    requires DeleteInv(c) && ColorOf(c.focus) == Black && c.ctx.InRight?
    requires c.ctx.left.Node? && c.ctx.left.color == Black && ColorOf(c.ctx.left.left) == Red
    ensures DeleteInv(r) && r.ctx.Top?
    ensures Entries(Whole(r)) == Entries(Whole(c))
  {
    var p := Up(c);
    var n := p.focus;
    var w := n.left;
    var pre := Node(Black, Node(n.color, Paint(w.left, Black), w.key, w.data, w.right), n.key, n.data, n.right);
                                                      // lines 219-221: w takes the parent's colour; parent and far nephew BLACK
    var sub := RotateRight(pre);                      // line 222
    var r := Cursor(Plug(sub, p.ctx), Top);           // line 223
    PaintFacts(w.left, Black);
    assert Entries(pre.left) == Entries(w);
    assert Entries(sub) == Entries(n);
    FarNephewRightSound(c, sub);
    r
  }

  lemma FarNephewRightSound<D>(c: Cursor<D>, sub: Tree<D>)
    requires DeleteInv(c) && ColorOf(c.focus) == Black && c.ctx.InRight?
    requires c.ctx.left.Node? && c.ctx.left.color == Black && ColorOf(c.ctx.left.left) == Red
    requires sub == (var pf, w := c.ctx, c.ctx.left;
                     Node(pf.color, Paint(w.left, Black), w.key, w.data, Node(Black, w.right, pf.key, pf.data, c.focus)))
    ensures DeleteInv(Cursor(Plug(sub, c.ctx.up), Top))
  {
    var pf, w, x := c.ctx, c.ctx.left, c.focus;
    var h := BlackHeight(x);
    assert Balanced(w) && BlackHeight(w) == h + 1 && NoRedRed(w);
    assert NoRedRed(x);
    assert BlackHeight(w.left) == h && BlackHeight(w.right) == h && w.left.Node?;
    PaintFacts(w.left, Black);
    assert BlackHeight(Paint(w.left, Black)) == h + 1 && NoRedRed(Paint(w.left, Black));
    assert Balanced(sub.right) && BlackHeight(sub.right) == h + 1 && NoRedRed(sub.right);
    assert Balanced(sub) && NoRedRed(sub);
    assert CtxBalanced(pf.up, BlackHeight(sub)) && CtxNoRedRed(pf.up, ColorOf(sub));
    PlugBalanced(sub, pf.up);
    PlugNoRedRed(sub, pf.up);
    PaintFacts(Plug(sub, pf.up), Black);
  }

  // ----- the loop -----

  /** Leaving the loop (at the root, or at a RED `x`) and painting `x` BLACK gives a valid tree. */
  lemma FixupExit<D>(c: Cursor<D>)
    requires DeleteInv(c) && (c.ctx.Top? || ColorOf(c.focus) == Red)
    ensures var t := Plug(Paint(c.focus, Black), c.ctx);
      ColorOf(t) == Black && NoRedRed(t) && Balanced(t) && Entries(t) == Entries(Whole(c))
  {
    var x := c.focus;
    var x' := Paint(x, Black);
    PaintFacts(x, Black);
    PlugBalanced(x', c.ctx);
    PlugNoRedRed(x', c.ctx);
    PlugColor(x', c.ctx);
    if !c.ctx.Top? {
      assert BlackHeight(x') == BlackHeight(x) + 1;
    }
  }

  /** The loop's measure: `x` rises, or stays and turns RED. */
  function Progress<D>(c: Cursor<D>): nat {
    2 * Depth(c.ctx) + (if ColorOf(c.focus) == Black then 1 else 0)
  }

  /** One round of the loop with `x` a left child: case 1 if it applies, then the rest. */
  method LeftRound<D>(c0: Cursor<D>) returns (c: Cursor<D>)
    requires DeleteInv(c0) && c0.ctx.InLeft? && ColorOf(c0.focus) == Black
    ensures DeleteInv(c) && Entries(Whole(c)) == Entries(Whole(c0))
    ensures Progress(c) < Progress(c0)
  {
    c := c0;
    SiblingFacts(c);
    if ColorOf(c.ctx.right) == Red {                  // line 179
      c := RedSiblingLeft(c);                         // case 1
    }
    c := BlackSiblingLeft(c);
  }

  /** With a BLACK sibling: case 2, or cases 3 and 4. `x` moves to its parent or becomes the root. */
  method BlackSiblingLeft<D>(c0: Cursor<D>) returns (c: Cursor<D>)
    requires DeleteInv(c0) && c0.ctx.InLeft? && ColorOf(c0.focus) == Black && ColorOf(c0.ctx.right) == Black
    ensures DeleteInv(c) && Entries(Whole(c)) == Entries(Whole(c0))
    ensures c.ctx.Top? || (Depth(c.ctx) + 1 == Depth(c0.ctx) && ColorOf(c.focus) == c0.ctx.color)
  {
    c := c0;
    SiblingFacts(c);
    var w := c.ctx.right;
    if ColorOf(w.left) == Black && ColorOf(w.right) == Black {
      c := BlackNephewsLeft(c);                       // case 2
    } else {
      if ColorOf(w.right) == Black {
        c := NearNephewLeft(c);                       // case 3
      }
      c := FarNephewLeft(c);                          // case 4
    }
  }

  /** One round of the loop with `x` a right child. */
  method RightRound<D>(c0: Cursor<D>) returns (c: Cursor<D>)
    requires DeleteInv(c0) && c0.ctx.InRight? && ColorOf(c0.focus) == Black
    ensures DeleteInv(c) && Entries(Whole(c)) == Entries(Whole(c0))
    ensures Progress(c) < Progress(c0)
  {
    c := c0;
    SiblingFacts(c);
    if ColorOf(c.ctx.left) == Red {
      c := RedSiblingRight(c);
    }
    c := BlackSiblingRight(c);
  }

  /** With a BLACK sibling, mirrored. */
  method BlackSiblingRight<D>(c0: Cursor<D>) returns (c: Cursor<D>)
    requires DeleteInv(c0) && c0.ctx.InRight? && ColorOf(c0.focus) == Black && ColorOf(c0.ctx.left) == Black
    ensures DeleteInv(c) && Entries(Whole(c)) == Entries(Whole(c0))
    ensures c.ctx.Top? || (Depth(c.ctx) + 1 == Depth(c0.ctx) && ColorOf(c.focus) == c0.ctx.color)
  {
    c := c0;
    SiblingFacts(c);
    var w := c.ctx.left;
    if ColorOf(w.right) == Black && ColorOf(w.left) == Black {
      c := BlackNephewsRight(c);
    } else {
      if ColorOf(w.left) == Black {
        c := NearNephewRight(c);
      }
      c := FarNephewRight(c);
    }
  }

  /**
    `_delete_fixup(x)`: while `x` is a BLACK non-root, apply the cases of
    its side, then paint `x` BLACK. The result is a red-black tree with
    the same contents.
   */
  method DeleteFixup<D>(c0: Cursor<D>) returns (t: Tree<D>)
    requires DeleteInv(c0)
    ensures ColorOf(t) == Black && NoRedRed(t) && Balanced(t)
    ensures Entries(t) == Entries(Whole(c0))
  {
    var c := c0;
    while !c.ctx.Top? && ColorOf(c.focus) == Black   // line 176
      invariant DeleteInv(c)
      invariant Entries(Whole(c)) == Entries(Whole(c0))
      decreases Progress(c)
    {
      SiblingFacts(c);
      if SideIsLeft(c) {                              // line 177
        c := LeftRound(c);
      } else {
        c := RightRound(c);
      }
    }
    FixupExit(c);
    t := Plug(Paint(c.focus, Black), c.ctx);          // line 225
  }

  // ----- delete -----

  /** Splicing out a node with at most one real child: that child takes its place. */
  lemma SpliceSound<D>(c: Cursor<D>, child: Tree<D>)
    requires NoRedRed(Whole(c)) && Balanced(Whole(c)) && ColorOf(Whole(c)) == Black && c.focus.Node?
    requires (c.focus.left.Nil? && child == c.focus.right) || (c.focus.right.Nil? && child == c.focus.left)
    ensures Ready(Transplant(c, child), c.focus.color)
  {
    var z := c.focus;
    PlugBalanced(z, c.ctx);
    PlugNoRedRed(z, c.ctx);
    PlugColor(z, c.ctx);
    PaintFacts(child, Black);
    if z.color == Red {
      assert child == Nil;
      CtxNoRedRedBlack(c.ctx);
      PlugBalanced(Nil, c.ctx);
      PlugNoRedRed(Nil, c.ctx);
      PlugColor(Nil, c.ctx);
      if !c.ctx.Top? {
        RootColorAboveFixed(c.ctx, Black, Red);
      }
    }
  }

  /**
    The successor `y` (relative to `z.right`, without a left child) takes
    `z`'s place and colour, and `y.right` takes `y`'s place: `x` is then
    `y.right` under the context that goes through `y`'s new position.
   */
  function SuccessorCtx<D>(c: Cursor<D>, m: Cursor<D>): Ctx<D>
    requires c.focus.Node? && m.focus.Node?
  {
    Compose(m.ctx, InRight(c.ctx, c.focus.color, c.focus.left, m.focus.key, m.focus.data))
  }

  lemma SuccessorSound<D>(c: Cursor<D>, m: Cursor<D>)
    requires NoRedRed(Whole(c)) && Balanced(Whole(c)) && ColorOf(Whole(c)) == Black
    requires c.focus.Node? && Whole(m) == c.focus.right && m.focus.Node? && m.focus.left.Nil?
    ensures Ready(Cursor(m.focus.right, SuccessorCtx(c, m)), m.focus.color)
  {
    if m.focus.color == Black {
      BlackSuccessorSound(c, m);
    } else {
      RedSuccessorSound(c, m);
    }
  }

  /** A BLACK successor leaves its right child one BLACK short: the fixup starts there. */
  lemma BlackSuccessorSound<D>(c: Cursor<D>, m: Cursor<D>)
    requires NoRedRed(Whole(c)) && Balanced(Whole(c)) && ColorOf(Whole(c)) == Black
    requires c.focus.Node? && Whole(m) == c.focus.right && m.focus.Node? && m.focus.left.Nil? && m.focus.color == Black
    ensures DeleteInv(Cursor(m.focus.right, SuccessorCtx(c, m)))
  {
    var z, y := c.focus, m.focus;
    var outer := InRight(c.ctx, z.color, z.left, y.key, y.data);
    PlugBalanced(z, c.ctx);
    PlugNoRedRed(z, c.ctx);
    PlugColor(z, c.ctx);
    PlugBalanced(y, m.ctx);
    PlugNoRedRed(y, m.ctx);
    PlugColor(y, m.ctx);
    PaintFacts(y.right, Black);
    assert BlackHeight(y.right) == 0 && BlackHeight(y) == 1;
    CtxBalancedCompose(m.ctx, outer, 1);
    CtxNoRedRedCompose(m.ctx, outer, Black);
    assert CtxBalanced(outer, CtxHeight(m.ctx, 1));
    assert CtxNoRedRed(outer, RootColorAbove(m.ctx, Black));
  }

  /** A RED successor has no children, and removing it from its place leaves a valid tree. */
  lemma RedSuccessorSound<D>(c: Cursor<D>, m: Cursor<D>)
    requires NoRedRed(Whole(c)) && Balanced(Whole(c)) && ColorOf(Whole(c)) == Black
    requires c.focus.Node? && Whole(m) == c.focus.right && m.focus.Node? && m.focus.left.Nil? && m.focus.color == Red
    ensures var x := Whole(Cursor(m.focus.right, SuccessorCtx(c, m)));
      NoRedRed(x) && Balanced(x) && ColorOf(x) == Black
  {
    var z, y := c.focus, m.focus;
    var outer := InRight(c.ctx, z.color, z.left, y.key, y.data);
    PlugBalanced(z, c.ctx);
    PlugNoRedRed(z, c.ctx);
    PlugColor(z, c.ctx);
    PlugBalanced(y, m.ctx);
    PlugNoRedRed(y, m.ctx);
    assert y.right == Nil;
    CtxNoRedRedBlack(m.ctx);
    PlugBalanced(Nil, m.ctx);
    PlugNoRedRed(Nil, m.ctx);
    PlugColor(Nil, m.ctx);
    var rest := Plug(Nil, m.ctx);
    assert BlackHeight(rest) == BlackHeight(z.right);
    if !m.ctx.Top? {
      RootColorAboveFixed(m.ctx, Black, Red);
      PlugColor(y, m.ctx);
    }
    var z' := Node(z.color, z.left, y.key, y.data, rest);
    assert Balanced(z') && BlackHeight(z') == BlackHeight(z);
    assert NoRedRed(z') && ColorOf(z') == ColorOf(z);
    PlugCompose(Nil, m.ctx, outer);
    PlugBalanced(z', c.ctx);
    PlugNoRedRed(z', c.ctx);
    PlugColor(z', c.ctx);
    PlugColor(z, c.ctx);
  }

  /** Taking the first node out of a subtree, its right child moving up into its place, drops the first entry. */
  lemma DropFirst<D>(m: Cursor<D>)
    requires m.focus.Node? && m.focus.left.Nil? && Before(m.ctx) == []
    ensures Entries(Whole(m)) == [Entry(m.focus.key, m.focus.data)] + Entries(Plug(m.focus.right, m.ctx))
  {
    FocusSplit(m);
  }

  /** What the successor splice does to the contents: `z`'s entry is removed and nothing else. */
  lemma SuccessorEntries<D>(c: Cursor<D>, m: Cursor<D>)
    requires c.focus.Node? && Whole(m) == c.focus.right && m.focus.Node? && m.focus.left.Nil? && Before(m.ctx) == []
    requires AllBelow(Before(c.ctx) + Entries(c.focus.left), c.focus.key)
    ensures Entries(Plug(m.focus.right, SuccessorCtx(c, m))) == Remove(Entries(Whole(c)), c.focus.key)
  {
    var z := c.focus;
    var lo, hi := Before(c.ctx) + Entries(z.left), Entries(z.right) + After(c.ctx);
    FocusSplit(c);
    RemoveSplices(lo, hi, z.key, z.data);
    SuccessorSplice(c, m);
  }

  /** With the successor moved into `z`'s place, the in-order entries are those of `z`'s two sides. */
  lemma SuccessorSplice<D>(c: Cursor<D>, m: Cursor<D>)
    requires c.focus.Node? && Whole(m) == c.focus.right && m.focus.Node? && m.focus.left.Nil? && Before(m.ctx) == []
    ensures Entries(Plug(m.focus.right, SuccessorCtx(c, m)))
         == (Before(c.ctx) + Entries(c.focus.left)) + (Entries(c.focus.right) + After(c.ctx))
  {
    var z, y := c.focus, m.focus;
    var outer := InRight(c.ctx, z.color, z.left, y.key, y.data);
    var rest := Plug(y.right, m.ctx);
    PlugCompose(y.right, m.ctx, outer);
    DropFirst(m);
    var b, el, ye, er, a := Before(c.ctx), Entries(z.left), [Entry(y.key, y.data)], Entries(rest), After(c.ctx);
    assert Before(outer) == (b + el) + ye;
    Regroup(b + el, ye, er, a);
  }

  /** Splicing out a node with an empty side removes its entry and nothing else. */
  lemma SpliceEntries<D>(c: Cursor<D>, child: Tree<D>)
    requires c.focus.Node? && AllBelow(Before(c.ctx) + Entries(c.focus.left), c.focus.key)
    requires (c.focus.left.Nil? && child == c.focus.right) || (c.focus.right.Nil? && child == c.focus.left)
    ensures Entries(Whole(Transplant(c, child))) == Remove(Entries(Whole(c)), c.focus.key)
  {
    var z := c.focus;
    var b, a := Before(c.ctx), After(c.ctx);
    var lo, hi := b + Entries(z.left), Entries(z.right) + a;
    FocusSplit(c);
    RemoveSplices(lo, hi, z.key, z.data);
    if z.left.Nil? {
      assert lo == b;
      Regroup(b, [], Entries(child), a);
    } else {
      assert hi == a;
      Regroup(b, Entries(child), [], a);
    }
  }

  /**
    `delete(key)`: `False` and no change when the key is absent; otherwise
    the node is removed (replaced by its only child, or by its successor
    when it has two children) and, when a BLACK node left its place,
    `_delete_fixup` restores the red-black properties. The contents become
    those of the map removal.
   */
  method Delete<D>(t: Tree<D>, k: string) returns (found: bool, r: Tree<D>)
    requires IsRedBlack(t)
    ensures found <==> k in Keys(t)
    ensures !found ==> r == t
    ensures IsRedBlack(r)
    ensures Entries(r) == Remove(Entries(t), k)
    ensures forall q :: Lookup(Entries(r), q) == if q == k then None else Lookup(Entries(t), q)
  {
    RemoveView(Entries(t), k);
    var hit := FindNode(t, k);                        // line 142
    if hit.None? {
      RemoveAbsent(Entries(t), k);
      return false, t;
    }
    var c := hit.value;
    var z := c.focus;
    LessIrreflexive(k);
    FitsAtNode(c, k);
    var x: Cursor<D>;
    var removed := z.color;                           // line 147
    if z.left.Nil? {
      x := Transplant(c, z.right);                    // lines 149-150
      SpliceSound(c, z.right);
      SpliceEntries(c, z.right);
    } else if z.right.Nil? {
      x := Transplant(c, z.left);                     // lines 152-153
      SpliceSound(c, z.left);
      SpliceEntries(c, z.left);
    } else {
      var m := Minimum(z.right);                      // line 156
      removed := m.focus.color;                       // line 157
      x := Cursor(m.focus.right, SuccessorCtx(c, m)); // line 158; y then takes z's place and colour (lines 159-168)
      SuccessorSound(c, m);
      SuccessorEntries(c, m);
    }
    RemoveSorted(Entries(t), k);
    if removed == Black {
      r := DeleteFixup(x);
    } else {
      r := Whole(x);
    }
    found := true;
  }
}
