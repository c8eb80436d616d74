/**
  `_delete_fixup` and `delete` on the store of node objects. Each case of
  the loop writes the fields the source writes, in the source's order. It
  is proved to leave the store holding exactly the cursor that the
  matching case of `Deletion` returns on tree values. So the loop carries
  that module's invariant `DeleteInv` and its measure `Progress` over to
  the store. `x` may be the sentinel. Its parent is then read from
  `NULL.parent`, which the splicing step of `delete` has set, and which no
  step of the loop writes.
 */
module StoreDeleteFixup {
  import opened StrOrder
  import opened AssocList
  import opened Trees
  import opened Cursors
  import opened Links
  import opened StoreOps
  import Deletion
  import StoreDelete

  // ----- x a left child -----

  /**
    What a round reads when `x` is a BLACK left child. `x.parent` is a real
    node whose left child is `x`. Its right child `w` is real. The colours
    read at `w`, `w.left` and `w.right` (BLACK at the sentinel) are those of
    the value-level sibling and its children.
   */
  lemma SiblingLeftAt<D>(s: Store<D>, x: Ref, c: Cursor<D>)
    requires Held(s, x, c) && Deletion.DeleteInv(c) && c.ctx.InLeft? && ColorOf(c.focus) == Black
    ensures c.ctx.right.Node?
    ensures Parent(s, x) in s.recs && x == s.recs[Parent(s, x)].left
    ensures var w := s.recs[Parent(s, x)].right;
            && w in s.recs && Valid(s, s.recs[w].left) && Valid(s, s.recs[w].right)
            && ColorAt(s, w) == ColorOf(c.ctx.right)
            && ColorAt(s, s.recs[w].left) == ColorOf(c.ctx.right.left)
            && ColorAt(s, s.recs[w].right) == ColorOf(c.ctx.right.right)
  {
    Deletion.SiblingFacts(c);
    var xp := Parent(s, x);
    CtxFacts(s, x, xp, c.ctx);
    var w := s.recs[xp].right;
    RepFacts(s, w, xp, c.ctx.right);
    RepColor(s, w, xp, c.ctx.right);
    RepColor(s, s.recs[w].left, w, c.ctx.right.left);
    RepColor(s, s.recs[w].right, w, c.ctx.right.right);
  }

  /** `x.right.right.color = c` on a held node: repaints the root of that grandchild's subtree. */
  lemma RecolorRightGrandchild<D>(s: Store<D>, x: Ref, p: Ref, c: Cursor<D>, col: Color)
    requires At(s, x, p, c) && c.focus.Node? && c.focus.right.Node? && c.focus.right.right.Node?
    ensures x in s.recs && s.recs[x].right in s.recs && s.recs[s.recs[x].right].right in s.recs
    ensures At(SetColor(s, s.recs[s.recs[x].right].right, col), x, p,
               Cursor(c.focus.(right := c.focus.right.(right := Paint(c.focus.right.right, col))), c.ctx))
  {
    AtDownRight(s, x, p, c);
    var w := s.recs[x].right;
    RecolorRightChild(s, w, x, DownRight(c), col);
    var s1 := SetColor(s, s.recs[w].right, col);
    AtUp(s1, w, x, Cursor(c.focus.right.(right := Paint(c.focus.right.right, col)), DownRight(c).ctx));
  }

  /**
    `_left_rotate` at the top of the whole tree's subtree that the cursor
    holds: afterwards the store holds the rotated tree as a cursor at
    `self.root`, whose parent is the sentinel.
   */
  lemma RootAfterLeftRotate<D>(s: Store<D>, x: Ref, p: Ref, c: Cursor<D>)
    requires At(s, x, p, c) && c.focus.Node? && c.focus.right.Node?
    ensures CanRotateLeft(s, x)
    ensures Held(LeftRotate(s, x), LeftRotate(s, x).root, Cursor(Plug(RotateLeft(c.focus), c.ctx), Top))
  {
    LeftRotateRefines(s, x, p, c);
    var r := LeftRotate(s, x);
    var whole := Plug(RotateLeft(c.focus), c.ctx);
    assert whole.Node? by {
      assert |Entries(RotateLeft(c.focus))| > 0;
    }
    RepFacts(r, r.root, NULL, whole);
  }

  /**
    Case 1 with `x` a left child (`w` is RED). Painting `w` BLACK and the
    parent RED, then rotating the parent left (lines 181-183), leave the store
    holding the cursor of `Deletion.RedSiblingLeft` at `x`, under the same
    parent.
   */
  lemma RedSiblingLeftRefines<D>(s: Store<D>, x: Ref, c: Cursor<D>) returns (s2: Store<D>)
    requires Held(s, x, c) && Deletion.DeleteInv(c) && c.ctx.InLeft? && ColorOf(c.focus) == Black
    requires ColorOf(c.ctx.right) == Red
    ensures Parent(s, x) in s.recs && s.recs[Parent(s, x)].right in s.recs
    ensures s2 == SetColor(SetColor(s, s.recs[Parent(s, x)].right, Black), Parent(s, x), Red)
    ensures CanRotateLeft(s2, Parent(s, x))
    ensures Held(LeftRotate(s2, Parent(s, x)), x, Deletion.RedSiblingLeft(c))
    ensures Parent(LeftRotate(s2, Parent(s, x)), x) == Parent(s, x)
  {
    SiblingLeftAt(s, x, c);
    var xp := Parent(s, x);
    var g := s.recs[xp].parent;
    var w := s.recs[xp].right;
    AtUp(s, x, xp, c);
    var p := Up(c);
    RecolorRightChild(s, xp, g, p, Black);
    var s1 := SetColor(s, w, Black);
    var p1 := Cursor(p.focus.(right := Paint(p.focus.right, Black)), p.ctx);
    RecolorRefines(s1, xp, g, p1, Red);
    s2 := SetColor(s1, xp, Red);
    RedSiblingLeftDown(s, x, c, s2, Cursor(Paint(p1.focus, Red), p.ctx));
  }

  /** The rotation of case 1 and the walk back down to `x`. */
  lemma RedSiblingLeftDown<D>(s: Store<D>, x: Ref, c: Cursor<D>, s2: Store<D>, p2: Cursor<D>)
    requires Held(s, x, c) && Deletion.DeleteInv(c) && c.ctx.InLeft? && ColorOf(c.focus) == Black
    requires ColorOf(c.ctx.right) == Red && Parent(s, x) in s.recs
    requires p2.focus.Node? && p2.focus.right.Node?
    requires At(s2, Parent(s, x), s.recs[Parent(s, x)].parent, p2)
    requires s2.recs.Keys == s.recs.Keys && s2.nullParent == s.nullParent
    requires s2.recs[Parent(s, x)].left == x
    requires p2 == (var n := Attach(c.focus, c.ctx); Cursor(Paint(n.(right := Paint(n.right, Black)), Red), c.ctx.up))
    ensures CanRotateLeft(s2, Parent(s, x))
    ensures Held(LeftRotate(s2, Parent(s, x)), x, Deletion.RedSiblingLeft(c))
    ensures Parent(LeftRotate(s2, Parent(s, x)), x) == Parent(s, x)
  {
    var xp := Parent(s, x);
    var g := s.recs[xp].parent;
    LeftRotateRefines(s2, xp, g, p2);
    LeftRotateLinks(s2, xp);
    var s3 := LeftRotate(s2, xp);
    var w := s2.recs[xp].right;
    var rc := Cursor(RotateLeft(p2.focus), p2.ctx);
    AtDownLeft(s3, w, g, rc);
    AtDownLeft(s3, xp, w, DownLeft(rc));
    RepFacts(s3, x, xp, c.focus);
  }

  /**
    Case 2 with `x` a left child (`w` and both its children BLACK).
    Painting `w` RED and moving `x` up (lines 187-188) leave the store
    holding the cursor of `Deletion.BlackNephewsLeft` at the old parent.
   */
  lemma BlackNephewsLeftRefines<D>(s: Store<D>, x: Ref, c: Cursor<D>)
    requires Held(s, x, c) && Deletion.DeleteInv(c) && c.ctx.InLeft? && ColorOf(c.focus) == Black
    requires c.ctx.right.Node? && c.ctx.right.color == Black
    requires ColorOf(c.ctx.right.left) == Black && ColorOf(c.ctx.right.right) == Black
    ensures Parent(s, x) in s.recs && s.recs[Parent(s, x)].right in s.recs
    ensures Held(SetColor(s, s.recs[Parent(s, x)].right, Red), Parent(s, x), Deletion.BlackNephewsLeft(c))
  {
    SiblingLeftAt(s, x, c);
    var xp := Parent(s, x);
    AtUp(s, x, xp, c);
    RecolorRightChild(s, xp, s.recs[xp].parent, Up(c), Red);
  }

  /**
    Case 3 with `x` a left child (`w.left` RED, `w.right` BLACK).
    Painting `w`'s left child BLACK and `w` RED, then rotating `w` right
    (lines 192-194), leave the store holding the cursor of
    `Deletion.NearNephewLeft` at `x`, under the same parent.
   */
  lemma NearNephewLeftRefines<D>(s: Store<D>, x: Ref, c: Cursor<D>) returns (s3: Store<D>)
    requires Held(s, x, c) && Deletion.DeleteInv(c) && c.ctx.InLeft? && ColorOf(c.focus) == Black
    requires c.ctx.right.Node? && c.ctx.right.color == Black
    requires ColorOf(c.ctx.right.left) == Red && ColorOf(c.ctx.right.right) == Black
    ensures Parent(s, x) in s.recs && s.recs[Parent(s, x)].right in s.recs
    ensures s.recs[s.recs[Parent(s, x)].right].left in s.recs
    ensures var w := s.recs[Parent(s, x)].right;
            var s2 := SetColor(SetColor(s, s.recs[w].left, Black), w, Red);
            CanRotateRight(s2, w) && s3 == RightRotate(s2, w)
    ensures Held(s3, x, Deletion.NearNephewLeft(c)) && Parent(s3, x) == Parent(s, x)
  {
    SiblingLeftAt(s, x, c);
    var xp := Parent(s, x);
    var w := s.recs[xp].right;
    AtUp(s, x, xp, c);
    AtDownRight(s, xp, s.recs[xp].parent, Up(c));
    var wc := DownRight(Up(c));
    s3 := NearNephewLeftTurn(s, w, xp, wc);
    NearNephewLeftBack(s, x, c, s3, wc);
  }

  /** The recolouring and rotation of case 3, seen from the sibling `w`. */
  lemma NearNephewLeftTurn<D>(s: Store<D>, w: Ref, xp: Ref, wc: Cursor<D>) returns (s3: Store<D>)
    requires At(s, w, xp, wc) && wc.ctx.InRight? && wc.focus.Node? && wc.focus.left.Node?
    ensures w in s.recs && s.recs[w].left in s.recs && xp in s.recs
    ensures var s2 := SetColor(SetColor(s, s.recs[w].left, Black), w, Red);
            && RightRotatable(s2, w) && s3 == RightRotate(s2, w)
            && s3.recs.Keys == s.recs.Keys && s3.nullParent == s.nullParent
            && s3.recs[xp] == s.recs[xp].(right := s.recs[w].left)
            && At(s3, s.recs[w].left, xp,
                  Cursor(RotateRight(Paint(wc.focus.(left := Paint(wc.focus.left, Black)), Red)), wc.ctx))
  {
    RepFacts(s, w, xp, wc.focus);
    CtxFacts(s, w, xp, wc.ctx);
    RecolorLeftChild(s, w, xp, wc, Black);
    var s1 := SetColor(s, s.recs[w].left, Black);
    var w1 := Cursor(wc.focus.(left := Paint(wc.focus.left, Black)), wc.ctx);
    RecolorRefines(s1, w, xp, w1, Red);
    var s2 := SetColor(s1, w, Red);
    RightRotateRefines(s2, w, xp, Cursor(Paint(w1.focus, Red), wc.ctx));
    RightRotateSlot(s2, w);
    s3 := RightRotate(s2, w);
  }

  /** After case 3's rotation, the walk back up to `x.parent` and down to `x`. */
  lemma NearNephewLeftBack<D>(s: Store<D>, x: Ref, c: Cursor<D>, s3: Store<D>, wc: Cursor<D>)
    requires Held(s, x, c) && Deletion.DeleteInv(c) && c.ctx.InLeft? && ColorOf(c.focus) == Black
    requires c.ctx.right.Node? && c.ctx.right.color == Black
    requires ColorOf(c.ctx.right.left) == Red && ColorOf(c.ctx.right.right) == Black
    requires Parent(s, x) in s.recs && s.recs[Parent(s, x)].left == x && s.recs[Parent(s, x)].right in s.recs
    requires wc == DownRight(Up(c))
    requires s3.recs.Keys == s.recs.Keys && s3.nullParent == s.nullParent
    requires var w := s.recs[Parent(s, x)].right;
             && w in s.recs && s.recs[w].left in s.recs
             && s3.recs[Parent(s, x)] == s.recs[Parent(s, x)].(right := s.recs[w].left)
             && At(s3, s.recs[w].left, Parent(s, x),
                   Cursor(RotateRight(Paint(wc.focus.(left := Paint(wc.focus.left, Black)), Red)), wc.ctx))
    ensures Held(s3, x, Deletion.NearNephewLeft(c)) && Parent(s3, x) == Parent(s, x)
  {
    var xp := Parent(s, x);
    var w := s.recs[xp].right;
    var w' := RotateRight(Paint(wc.focus.(left := Paint(wc.focus.left, Black)), Red));
    AtUp(s3, s.recs[w].left, xp, Cursor(w', wc.ctx));
    AtDownLeft(s3, xp, s3.recs[xp].parent, Up(Cursor(w', wc.ctx)));
    RepFacts(s3, x, xp, c.focus);
  }

  /**
    Case 4 with `x` a left child (`w.right` RED). Giving `w` the parent's
    colour, painting the parent and `w`'s right child BLACK, rotating the
    parent left and moving `x` to the root (lines 197-201) leave the store
    holding the cursor of `Deletion.FarNephewLeft`, which stands at the root.
   */
  lemma FarNephewLeftRefines<D>(s: Store<D>, x: Ref, c: Cursor<D>) returns (s3: Store<D>)
    requires Held(s, x, c) && Deletion.DeleteInv(c) && c.ctx.InLeft? && ColorOf(c.focus) == Black
    requires c.ctx.right.Node? && c.ctx.right.color == Black && ColorOf(c.ctx.right.right) == Red
    ensures Parent(s, x) in s.recs && s.recs[Parent(s, x)].right in s.recs
    ensures s.recs[s.recs[Parent(s, x)].right].right in s.recs
    ensures var xp := Parent(s, x);
            var w := s.recs[xp].right;
            var s2 := SetColor(SetColor(s, w, s.recs[xp].color), xp, Black);
            s3 == SetColor(s2, s2.recs[w].right, Black)
    ensures CanRotateLeft(s3, Parent(s, x))
    ensures Held(LeftRotate(s3, Parent(s, x)), LeftRotate(s3, Parent(s, x)).root, Deletion.FarNephewLeft(c))
  {
    SiblingLeftAt(s, x, c);
    var xp := Parent(s, x);
    var g := s.recs[xp].parent;
    var w := s.recs[xp].right;
    AtUp(s, x, xp, c);
    var p := Up(c);
    var n := p.focus;
    RecolorRightChild(s, xp, g, p, n.color);
    var s1 := SetColor(s, w, n.color);
    var p1 := Cursor(n.(right := Paint(n.right, n.color)), p.ctx);
    RecolorRefines(s1, xp, g, p1, Black);
    var s2 := SetColor(s1, xp, Black);
    var p2 := Cursor(Paint(p1.focus, Black), p.ctx);
    RecolorRightGrandchild(s2, xp, g, p2, Black);
    s3 := SetColor(s2, s2.recs[w].right, Black);
    var pre := n.(color := Black, right := n.right.(color := n.color, right := Paint(n.right.right, Black)));
    assert p2.focus.(right := p2.focus.right.(right := Paint(p2.focus.right.right, Black))) == pre;
    RootAfterLeftRotate(s3, xp, g, Cursor(pre, p.ctx));
  }

  // The steps of a round: the source's writes for one case, and what they refine.

  /** Case 1, `x` a left child. */
  method RedSiblingLeftStep<D>(s: Store<D>, x: Ref, ghost c0: Cursor<D>) returns (r: Store<D>, ghost c: Cursor<D>)
    requires Held(s, x, c0) && Deletion.DeleteInv(c0) && c0.ctx.InLeft? && ColorOf(c0.focus) == Black
    requires ColorOf(c0.ctx.right) == Red
    ensures c == Deletion.RedSiblingLeft(c0) && Held(r, x, c)
    ensures Deletion.DeleteInv(c) && c.focus == c0.focus && c.ctx.InLeft? && c.ctx.color == Red
    ensures ColorOf(c.ctx.right) == Black && Depth(c.ctx) == Depth(c0.ctx) + 1
    ensures Entries(Whole(c)) == Entries(Whole(c0))
    ensures r.recs.Keys == s.recs.Keys && r.nullParent == s.nullParent
  {
    ghost var s2 := RedSiblingLeftRefines(s, x, c0);
    var xp := Parent(s, x);
    var w := s.recs[xp].right;                        // line 178
    r := SetColor(s, w, Black);                       // line 181
    r := SetColor(r, xp, Red);                        // line 182
    r := LeftRotate(r, xp);                           // line 183
    c := Deletion.RedSiblingLeft(c0);
  }

  /** Case 2, `x` a left child: `x` moves up to its parent. */
  method BlackNephewsLeftStep<D>(s: Store<D>, x0: Ref, ghost c0: Cursor<D>) returns (r: Store<D>, x: Ref, ghost c: Cursor<D>)
    requires Held(s, x0, c0) && Deletion.DeleteInv(c0) && c0.ctx.InLeft? && ColorOf(c0.focus) == Black
    requires c0.ctx.right.Node? && c0.ctx.right.color == Black
    requires ColorOf(c0.ctx.right.left) == Black && ColorOf(c0.ctx.right.right) == Black
    ensures c == Deletion.BlackNephewsLeft(c0) && Held(r, x, c) && x == Parent(s, x0)
    ensures Deletion.DeleteInv(c) && ColorOf(c.focus) == c0.ctx.color && Depth(c.ctx) + 1 == Depth(c0.ctx)
    ensures Entries(Whole(c)) == Entries(Whole(c0))
    ensures r.recs.Keys == s.recs.Keys && r.nullParent == s.nullParent
  {
    BlackNephewsLeftRefines(s, x0, c0);
    var xp := Parent(s, x0);
    r := SetColor(s, s.recs[xp].right, Red);          // line 187
    x, c := xp, Deletion.BlackNephewsLeft(c0);        // line 188
  }

  /** Case 3, `x` a left child: `x` keeps its parent and gets a sibling of case 4's shape. */
  method NearNephewLeftStep<D>(s: Store<D>, x: Ref, ghost c0: Cursor<D>) returns (r: Store<D>, ghost c: Cursor<D>)
    requires Held(s, x, c0) && Deletion.DeleteInv(c0) && c0.ctx.InLeft? && ColorOf(c0.focus) == Black
    requires c0.ctx.right.Node? && c0.ctx.right.color == Black
    requires ColorOf(c0.ctx.right.left) == Red && ColorOf(c0.ctx.right.right) == Black
    ensures c == Deletion.NearNephewLeft(c0) && Held(r, x, c) && Parent(r, x) == Parent(s, x)
    ensures Deletion.DeleteInv(c) && c.focus == c0.focus && c.ctx.InLeft? && c.ctx.up == c0.ctx.up
    ensures c.ctx.color == c0.ctx.color && c.ctx.right.Node? && c.ctx.right.color == Black
    ensures ColorOf(c.ctx.right.right) == Red && Entries(Whole(c)) == Entries(Whole(c0))
    ensures r.recs.Keys == s.recs.Keys && r.nullParent == s.nullParent
  {
    ghost var s3 := NearNephewLeftRefines(s, x, c0);
    var w := s.recs[Parent(s, x)].right;              // w as line 178 or 184 left it
    r := SetColor(s, s.recs[w].left, Black);          // line 192
    r := SetColor(r, w, Red);                         // line 193
    r := RightRotate(r, w);                           // line 194
    c := Deletion.NearNephewLeft(c0);
  }

  /** Case 4, `x` a left child: `x` becomes the root and the loop ends. */
  method FarNephewLeftStep<D>(s: Store<D>, x0: Ref, ghost c0: Cursor<D>) returns (r: Store<D>, x: Ref, ghost c: Cursor<D>)
    requires Held(s, x0, c0) && Deletion.DeleteInv(c0) && c0.ctx.InLeft? && ColorOf(c0.focus) == Black
    requires c0.ctx.right.Node? && c0.ctx.right.color == Black && ColorOf(c0.ctx.right.right) == Red
    ensures c == Deletion.FarNephewLeft(c0) && Held(r, x, c) && x == r.root
    ensures Deletion.DeleteInv(c) && c.ctx.Top? && Entries(Whole(c)) == Entries(Whole(c0))
    ensures r.recs.Keys == s.recs.Keys && r.nullParent == s.nullParent
  {
    ghost var s3 := FarNephewLeftRefines(s, x0, c0);
    var xp := Parent(s, x0);
    var w := s.recs[xp].right;                        // w as line 178, 184 or 195 left it
    r := SetColor(s, w, s.recs[xp].color);            // line 197
    r := SetColor(r, xp, Black);                      // line 198
    r := SetColor(r, r.recs[w].right, Black);         // line 199
    r := LeftRotate(r, xp);                           // line 200
    x, c := r.root, Deletion.FarNephewLeft(c0);       // line 201
  }

  /**
    One round of `_delete_fixup`'s loop with `x` a left child. If `w` is
    RED, case 1 runs first. The store then holds the state that
    `Deletion.LeftRound` reaches, which is further along the loop's measure.
   */
  method LeftRound<D>(s: Store<D>, x0: Ref, ghost c0: Cursor<D>) returns (r: Store<D>, x: Ref, ghost c: Cursor<D>)
    requires Held(s, x0, c0) && Deletion.DeleteInv(c0) && c0.ctx.InLeft? && ColorOf(c0.focus) == Black
    ensures Held(r, x, c) && Deletion.DeleteInv(c) && Entries(Whole(c)) == Entries(Whole(c0))
    ensures Deletion.Progress(c) < Deletion.Progress(c0)
    ensures r.recs.Keys == s.recs.Keys && r.nullParent == s.nullParent
  {
    r, x, c := s, x0, c0;
    SiblingLeftAt(r, x, c);
    if ColorAt(r, r.recs[Parent(r, x)].right) == Red { // line 179
      r, c := RedSiblingLeftStep(r, x, c);
    }
    r, x, c := BlackSiblingLeft(r, x, c);
  }

  /**
    The rest of a round with `x` a left child and `w` BLACK. If both of
    `w`'s children are BLACK, case 2 runs and `x` moves up. Otherwise
    case 3 runs if `w.right` is BLACK, then case 4, and `x` becomes the
    root.
   */
  method BlackSiblingLeft<D>(s: Store<D>, x0: Ref, ghost c0: Cursor<D>) returns (r: Store<D>, x: Ref, ghost c: Cursor<D>)
    requires Held(s, x0, c0) && Deletion.DeleteInv(c0) && c0.ctx.InLeft? && ColorOf(c0.focus) == Black
    requires ColorOf(c0.ctx.right) == Black
    ensures Held(r, x, c) && Deletion.DeleteInv(c) && Entries(Whole(c)) == Entries(Whole(c0))
    ensures c.ctx.Top? || (Depth(c.ctx) + 1 == Depth(c0.ctx) && ColorOf(c.focus) == c0.ctx.color)
    ensures r.recs.Keys == s.recs.Keys && r.nullParent == s.nullParent
  {
    r, x, c := s, x0, c0;
    SiblingLeftAt(r, x, c);
    var w := r.recs[Parent(r, x)].right;              // w as line 178 or 184 left it
    if ColorAt(r, r.recs[w].left) == Black && ColorAt(r, r.recs[w].right) == Black {
      r, x, c := BlackNephewsLeftStep(r, x, c);       // case 2
    } else {
      if ColorAt(r, r.recs[w].right) == Black {       // line 190
        r, c := NearNephewLeftStep(r, x, c);          // case 3
        SiblingLeftAt(r, x, c);
      }
      r, x, c := FarNephewLeftStep(r, x, c);          // case 4
    }
  }

  // ----- x a right child (left and right exchanged) -----

  /**
    What a round reads when `x` is a BLACK right child. `x.parent` is a real
    node whose right child is `x`. Its left child `w` is real. The colours
    read at `w`, `w.right` and `w.left` (BLACK at the sentinel) are those of
    the value-level sibling and its children.
   */
  lemma SiblingRightAt<D>(s: Store<D>, x: Ref, c: Cursor<D>)
    requires Held(s, x, c) && Deletion.DeleteInv(c) && c.ctx.InRight? && ColorOf(c.focus) == Black
    ensures c.ctx.left.Node?
    ensures Parent(s, x) in s.recs && x == s.recs[Parent(s, x)].right
    ensures var w := s.recs[Parent(s, x)].left;
            && w in s.recs && Valid(s, s.recs[w].right) && Valid(s, s.recs[w].left)
            && ColorAt(s, w) == ColorOf(c.ctx.left)
            && ColorAt(s, s.recs[w].right) == ColorOf(c.ctx.left.right)
            && ColorAt(s, s.recs[w].left) == ColorOf(c.ctx.left.left)
  {
    Deletion.SiblingFacts(c);
    var xp := Parent(s, x);
    CtxFacts(s, x, xp, c.ctx);
    var w := s.recs[xp].left;
    RepFacts(s, w, xp, c.ctx.left);
    RepColor(s, w, xp, c.ctx.left);
    RepColor(s, s.recs[w].right, w, c.ctx.left.right);
    RepColor(s, s.recs[w].left, w, c.ctx.left.left);
  }

  /** `x.left.left.color = c` on a held node: repaints the root of that grandchild's subtree. */
  lemma RecolorLeftGrandchild<D>(s: Store<D>, x: Ref, p: Ref, c: Cursor<D>, col: Color)
    requires At(s, x, p, c) && c.focus.Node? && c.focus.left.Node? && c.focus.left.left.Node?
    ensures x in s.recs && s.recs[x].left in s.recs && s.recs[s.recs[x].left].left in s.recs
    ensures At(SetColor(s, s.recs[s.recs[x].left].left, col), x, p,
               Cursor(c.focus.(left := c.focus.left.(left := Paint(c.focus.left.left, col))), c.ctx))
  {
    AtDownLeft(s, x, p, c);
    var w := s.recs[x].left;
    RecolorLeftChild(s, w, x, DownLeft(c), col);
    var s1 := SetColor(s, s.recs[w].left, col);
    AtUp(s1, w, x, Cursor(c.focus.left.(left := Paint(c.focus.left.left, col)), DownLeft(c).ctx));
  }

  /**
    `_right_rotate` at the top of the whole tree's subtree that the cursor
    holds: afterwards the store holds the rotated tree as a cursor at
    `self.root`, whose parent is the sentinel.
   */
  lemma RootAfterRightRotate<D>(s: Store<D>, x: Ref, p: Ref, c: Cursor<D>)
    requires At(s, x, p, c) && c.focus.Node? && c.focus.left.Node?
    ensures CanRotateRight(s, x)
    ensures Held(RightRotate(s, x), RightRotate(s, x).root, Cursor(Plug(RotateRight(c.focus), c.ctx), Top))
  {
    RightRotateRefines(s, x, p, c);
    var r := RightRotate(s, x);
    var whole := Plug(RotateRight(c.focus), c.ctx);
    assert whole.Node? by {
      assert |Entries(RotateRight(c.focus))| > 0;
    }
    RepFacts(r, r.root, NULL, whole);
  }

  /**
    Case 1 with `x` a right child (`w` is RED). Painting `w` BLACK and the
    parent RED, then rotating the parent right (lines 206-208), leave the store
    holding the cursor of `Deletion.RedSiblingRight` at `x`, under the same
    parent.
   */
  lemma RedSiblingRightRefines<D>(s: Store<D>, x: Ref, c: Cursor<D>) returns (s2: Store<D>)
    requires Held(s, x, c) && Deletion.DeleteInv(c) && c.ctx.InRight? && ColorOf(c.focus) == Black
    requires ColorOf(c.ctx.left) == Red
    ensures Parent(s, x) in s.recs && s.recs[Parent(s, x)].left in s.recs
    ensures s2 == SetColor(SetColor(s, s.recs[Parent(s, x)].left, Black), Parent(s, x), Red)
    ensures CanRotateRight(s2, Parent(s, x))
    ensures Held(RightRotate(s2, Parent(s, x)), x, Deletion.RedSiblingRight(c))
    ensures Parent(RightRotate(s2, Parent(s, x)), x) == Parent(s, x)
  {
    SiblingRightAt(s, x, c);
    var xp := Parent(s, x);
    var g := s.recs[xp].parent;
    var w := s.recs[xp].left;
    AtUp(s, x, xp, c);
    var p := Up(c);
    RecolorLeftChild(s, xp, g, p, Black);
    var s1 := SetColor(s, w, Black);
    var p1 := Cursor(p.focus.(left := Paint(p.focus.left, Black)), p.ctx);
    RecolorRefines(s1, xp, g, p1, Red);
    s2 := SetColor(s1, xp, Red);
    RedSiblingRightDown(s, x, c, s2, Cursor(Paint(p1.focus, Red), p.ctx));
  }

  /** The rotation of case 1 and the walk back down to `x`. */
  lemma RedSiblingRightDown<D>(s: Store<D>, x: Ref, c: Cursor<D>, s2: Store<D>, p2: Cursor<D>)
    requires Held(s, x, c) && Deletion.DeleteInv(c) && c.ctx.InRight? && ColorOf(c.focus) == Black
    requires ColorOf(c.ctx.left) == Red && Parent(s, x) in s.recs
    requires p2.focus.Node? && p2.focus.left.Node?
    requires At(s2, Parent(s, x), s.recs[Parent(s, x)].parent, p2)
    requires s2.recs.Keys == s.recs.Keys && s2.nullParent == s.nullParent
    requires s2.recs[Parent(s, x)].right == x
    requires p2 == (var n := Attach(c.focus, c.ctx); Cursor(Paint(n.(left := Paint(n.left, Black)), Red), c.ctx.up))
    ensures CanRotateRight(s2, Parent(s, x))
    ensures Held(RightRotate(s2, Parent(s, x)), x, Deletion.RedSiblingRight(c))
    ensures Parent(RightRotate(s2, Parent(s, x)), x) == Parent(s, x)
  {
    var xp := Parent(s, x);
    var g := s.recs[xp].parent;
    RightRotateRefines(s2, xp, g, p2);
    RightRotateLinks(s2, xp);
    var s3 := RightRotate(s2, xp);
    var w := s2.recs[xp].left;
    var rc := Cursor(RotateRight(p2.focus), p2.ctx);
    AtDownRight(s3, w, g, rc);
    AtDownRight(s3, xp, w, DownRight(rc));
    RepFacts(s3, x, xp, c.focus);
  }

  /**
    Case 2 with `x` a right child (`w` and both its children BLACK).
    Painting `w` RED and moving `x` up (lines 211-212) leave the store
    holding the cursor of `Deletion.BlackNephewsRight` at the old parent.
   */
  lemma BlackNephewsRightRefines<D>(s: Store<D>, x: Ref, c: Cursor<D>)
    requires Held(s, x, c) && Deletion.DeleteInv(c) && c.ctx.InRight? && ColorOf(c.focus) == Black
    requires c.ctx.left.Node? && c.ctx.left.color == Black
    requires ColorOf(c.ctx.left.right) == Black && ColorOf(c.ctx.left.left) == Black
    ensures Parent(s, x) in s.recs && s.recs[Parent(s, x)].left in s.recs
    ensures Held(SetColor(s, s.recs[Parent(s, x)].left, Red), Parent(s, x), Deletion.BlackNephewsRight(c))
  {
    SiblingRightAt(s, x, c);
    var xp := Parent(s, x);
    AtUp(s, x, xp, c);
    RecolorLeftChild(s, xp, s.recs[xp].parent, Up(c), Red);
  }

  /**
    Case 3 with `x` a right child (`w.right` RED, `w.left` BLACK).
    Painting `w`'s right child BLACK and `w` RED, then rotating `w` left
    (lines 215-217), leave the store holding the cursor of
    `Deletion.NearNephewRight` at `x`, under the same parent.
   */
  lemma NearNephewRightRefines<D>(s: Store<D>, x: Ref, c: Cursor<D>) returns (s3: Store<D>)
    requires Held(s, x, c) && Deletion.DeleteInv(c) && c.ctx.InRight? && ColorOf(c.focus) == Black
    requires c.ctx.left.Node? && c.ctx.left.color == Black
    requires ColorOf(c.ctx.left.right) == Red && ColorOf(c.ctx.left.left) == Black
    ensures Parent(s, x) in s.recs && s.recs[Parent(s, x)].left in s.recs
    ensures s.recs[s.recs[Parent(s, x)].left].right in s.recs
    ensures var w := s.recs[Parent(s, x)].left;
            var s2 := SetColor(SetColor(s, s.recs[w].right, Black), w, Red);
            CanRotateLeft(s2, w) && s3 == LeftRotate(s2, w)
    ensures Held(s3, x, Deletion.NearNephewRight(c)) && Parent(s3, x) == Parent(s, x)
  {
    SiblingRightAt(s, x, c);
    var xp := Parent(s, x);
    var w := s.recs[xp].left;
    AtUp(s, x, xp, c);
    AtDownLeft(s, xp, s.recs[xp].parent, Up(c));
    var wc := DownLeft(Up(c));
    s3 := NearNephewRightTurn(s, w, xp, wc);
    NearNephewRightBack(s, x, c, s3, wc);
  }

  /** The recolouring and rotation of case 3, seen from the sibling `w`. */
  lemma NearNephewRightTurn<D>(s: Store<D>, w: Ref, xp: Ref, wc: Cursor<D>) returns (s3: Store<D>)
    requires At(s, w, xp, wc) && wc.ctx.InLeft? && wc.focus.Node? && wc.focus.right.Node?
    ensures w in s.recs && s.recs[w].right in s.recs && xp in s.recs
    ensures var s2 := SetColor(SetColor(s, s.recs[w].right, Black), w, Red);
            && LeftRotatable(s2, w) && s3 == LeftRotate(s2, w)
            && s3.recs.Keys == s.recs.Keys && s3.nullParent == s.nullParent
            && s3.recs[xp] == s.recs[xp].(left := s.recs[w].right)
            && At(s3, s.recs[w].right, xp,
                  Cursor(RotateLeft(Paint(wc.focus.(right := Paint(wc.focus.right, Black)), Red)), wc.ctx))
  {
    RepFacts(s, w, xp, wc.focus);
    CtxFacts(s, w, xp, wc.ctx);
    RecolorRightChild(s, w, xp, wc, Black);
    var s1 := SetColor(s, s.recs[w].right, Black);
    var w1 := Cursor(wc.focus.(right := Paint(wc.focus.right, Black)), wc.ctx);
    RecolorRefines(s1, w, xp, w1, Red);
    var s2 := SetColor(s1, w, Red);
    LeftRotateRefines(s2, w, xp, Cursor(Paint(w1.focus, Red), wc.ctx));
    LeftRotateSlot(s2, w);
    s3 := LeftRotate(s2, w);
  }

  /** After case 3's rotation, the walk back up to `x.parent` and down to `x`. */
  lemma NearNephewRightBack<D>(s: Store<D>, x: Ref, c: Cursor<D>, s3: Store<D>, wc: Cursor<D>)
    requires Held(s, x, c) && Deletion.DeleteInv(c) && c.ctx.InRight? && ColorOf(c.focus) == Black
    requires c.ctx.left.Node? && c.ctx.left.color == Black
    requires ColorOf(c.ctx.left.right) == Red && ColorOf(c.ctx.left.left) == Black
    requires Parent(s, x) in s.recs && s.recs[Parent(s, x)].right == x && s.recs[Parent(s, x)].left in s.recs
    requires wc == DownLeft(Up(c))
    requires s3.recs.Keys == s.recs.Keys && s3.nullParent == s.nullParent
    requires var w := s.recs[Parent(s, x)].left;
             && w in s.recs && s.recs[w].right in s.recs
             && s3.recs[Parent(s, x)] == s.recs[Parent(s, x)].(left := s.recs[w].right)
             && At(s3, s.recs[w].right, Parent(s, x),
                   Cursor(RotateLeft(Paint(wc.focus.(right := Paint(wc.focus.right, Black)), Red)), wc.ctx))
    ensures Held(s3, x, Deletion.NearNephewRight(c)) && Parent(s3, x) == Parent(s, x)
  {
    var xp := Parent(s, x);
    var w := s.recs[xp].left;
    var w' := RotateLeft(Paint(wc.focus.(right := Paint(wc.focus.right, Black)), Red));
    AtUp(s3, s.recs[w].right, xp, Cursor(w', wc.ctx));
    AtDownRight(s3, xp, s3.recs[xp].parent, Up(Cursor(w', wc.ctx)));
    RepFacts(s3, x, xp, c.focus);
  }

  /**
    Case 4 with `x` a right child (`w.left` RED). Giving `w` the parent's
    colour, painting the parent and `w`'s left child BLACK, rotating the
    parent right and moving `x` to the root (lines 219-223) leave the store
    holding the cursor of `Deletion.FarNephewRight`, which stands at the root.
   */
  lemma FarNephewRightRefines<D>(s: Store<D>, x: Ref, c: Cursor<D>) returns (s3: Store<D>)
    requires Held(s, x, c) && Deletion.DeleteInv(c) && c.ctx.InRight? && ColorOf(c.focus) == Black
    requires c.ctx.left.Node? && c.ctx.left.color == Black && ColorOf(c.ctx.left.left) == Red
    ensures Parent(s, x) in s.recs && s.recs[Parent(s, x)].left in s.recs
    ensures s.recs[s.recs[Parent(s, x)].left].left in s.recs
    ensures var xp := Parent(s, x);
            var w := s.recs[xp].left;
            var s2 := SetColor(SetColor(s, w, s.recs[xp].color), xp, Black);
            s3 == SetColor(s2, s2.recs[w].left, Black)
    ensures CanRotateRight(s3, Parent(s, x))
    ensures Held(RightRotate(s3, Parent(s, x)), RightRotate(s3, Parent(s, x)).root, Deletion.FarNephewRight(c))
  {
    SiblingRightAt(s, x, c);
    var xp := Parent(s, x);
    var g := s.recs[xp].parent;
    var w := s.recs[xp].left;
    AtUp(s, x, xp, c);
    var p := Up(c);
    var n := p.focus;
    RecolorLeftChild(s, xp, g, p, n.color);
    var s1 := SetColor(s, w, n.color);
    var p1 := Cursor(n.(left := Paint(n.left, n.color)), p.ctx);
    RecolorRefines(s1, xp, g, p1, Black);
    var s2 := SetColor(s1, xp, Black);
    var p2 := Cursor(Paint(p1.focus, Black), p.ctx);
    RecolorLeftGrandchild(s2, xp, g, p2, Black);
    s3 := SetColor(s2, s2.recs[w].left, Black);
    var pre := n.(color := Black, left := n.left.(color := n.color, left := Paint(n.left.left, Black)));
    assert p2.focus.(left := p2.focus.left.(left := Paint(p2.focus.left.left, Black))) == pre;
    RootAfterRightRotate(s3, xp, g, Cursor(pre, p.ctx));
  }

  // The steps of a round: the source's writes for one case, and what they refine.

  /** Case 1, `x` a right child. */
  method RedSiblingRightStep<D>(s: Store<D>, x: Ref, ghost c0: Cursor<D>) returns (r: Store<D>, ghost c: Cursor<D>)
    requires Held(s, x, c0) && Deletion.DeleteInv(c0) && c0.ctx.InRight? && ColorOf(c0.focus) == Black
    requires ColorOf(c0.ctx.left) == Red
    ensures c == Deletion.RedSiblingRight(c0) && Held(r, x, c)
    ensures Deletion.DeleteInv(c) && c.focus == c0.focus && c.ctx.InRight? && c.ctx.color == Red
    ensures ColorOf(c.ctx.left) == Black && Depth(c.ctx) == Depth(c0.ctx) + 1
    ensures Entries(Whole(c)) == Entries(Whole(c0))
    ensures r.recs.Keys == s.recs.Keys && r.nullParent == s.nullParent
  {
    ghost var s2 := RedSiblingRightRefines(s, x, c0);
    var xp := Parent(s, x);
    var w := s.recs[xp].left;                        // line 204
    r := SetColor(s, w, Black);                       // line 206
    r := SetColor(r, xp, Red);                        // line 207
    r := RightRotate(r, xp);                           // line 208
    c := Deletion.RedSiblingRight(c0);
  }

  /** Case 2, `x` a right child: `x` moves up to its parent. */
  method BlackNephewsRightStep<D>(s: Store<D>, x0: Ref, ghost c0: Cursor<D>) returns (r: Store<D>, x: Ref, ghost c: Cursor<D>)
    requires Held(s, x0, c0) && Deletion.DeleteInv(c0) && c0.ctx.InRight? && ColorOf(c0.focus) == Black
    requires c0.ctx.left.Node? && c0.ctx.left.color == Black
    requires ColorOf(c0.ctx.left.right) == Black && ColorOf(c0.ctx.left.left) == Black
    ensures c == Deletion.BlackNephewsRight(c0) && Held(r, x, c) && x == Parent(s, x0)
    ensures Deletion.DeleteInv(c) && ColorOf(c.focus) == c0.ctx.color && Depth(c.ctx) + 1 == Depth(c0.ctx)
    ensures Entries(Whole(c)) == Entries(Whole(c0))
    ensures r.recs.Keys == s.recs.Keys && r.nullParent == s.nullParent
  {
    BlackNephewsRightRefines(s, x0, c0);
    var xp := Parent(s, x0);
    r := SetColor(s, s.recs[xp].left, Red);          // line 211
    x, c := xp, Deletion.BlackNephewsRight(c0);        // line 212
  }

  /** Case 3, `x` a right child: `x` keeps its parent and gets a sibling of case 4's shape. */
  method NearNephewRightStep<D>(s: Store<D>, x: Ref, ghost c0: Cursor<D>) returns (r: Store<D>, ghost c: Cursor<D>)
    requires Held(s, x, c0) && Deletion.DeleteInv(c0) && c0.ctx.InRight? && ColorOf(c0.focus) == Black
    requires c0.ctx.left.Node? && c0.ctx.left.color == Black
    requires ColorOf(c0.ctx.left.right) == Red && ColorOf(c0.ctx.left.left) == Black
    ensures c == Deletion.NearNephewRight(c0) && Held(r, x, c) && Parent(r, x) == Parent(s, x)
    ensures Deletion.DeleteInv(c) && c.focus == c0.focus && c.ctx.InRight? && c.ctx.up == c0.ctx.up
    ensures c.ctx.color == c0.ctx.color && c.ctx.left.Node? && c.ctx.left.color == Black
    ensures ColorOf(c.ctx.left.left) == Red && Entries(Whole(c)) == Entries(Whole(c0))
    ensures r.recs.Keys == s.recs.Keys && r.nullParent == s.nullParent
  {
    ghost var s3 := NearNephewRightRefines(s, x, c0);
    var w := s.recs[Parent(s, x)].left;              // w as line 204 or 209 left it
    r := SetColor(s, s.recs[w].right, Black);          // line 215
    r := SetColor(r, w, Red);                         // line 216
    r := LeftRotate(r, w);                           // line 217
    c := Deletion.NearNephewRight(c0);
  }

  /** Case 4, `x` a right child: `x` becomes the root and the loop ends. */
  method FarNephewRightStep<D>(s: Store<D>, x0: Ref, ghost c0: Cursor<D>) returns (r: Store<D>, x: Ref, ghost c: Cursor<D>)
    requires Held(s, x0, c0) && Deletion.DeleteInv(c0) && c0.ctx.InRight? && ColorOf(c0.focus) == Black
    requires c0.ctx.left.Node? && c0.ctx.left.color == Black && ColorOf(c0.ctx.left.left) == Red
    ensures c == Deletion.FarNephewRight(c0) && Held(r, x, c) && x == r.root
    ensures Deletion.DeleteInv(c) && c.ctx.Top? && Entries(Whole(c)) == Entries(Whole(c0))
    ensures r.recs.Keys == s.recs.Keys && r.nullParent == s.nullParent
  {
    ghost var s3 := FarNephewRightRefines(s, x0, c0);
    var xp := Parent(s, x0);
    var w := s.recs[xp].left;                        // w as line 204, 209 or 218 left it
    r := SetColor(s, w, s.recs[xp].color);            // line 219
    r := SetColor(r, xp, Black);                      // line 220
    r := SetColor(r, r.recs[w].left, Black);         // line 221
    r := RightRotate(r, xp);                           // line 222
    x, c := r.root, Deletion.FarNephewRight(c0);       // line 223
  }

  /**
    One round of `_delete_fixup`'s loop with `x` a right child. If `w` is
    RED, case 1 runs first. The store then holds the state that
    `Deletion.RightRound` reaches, which is further along the loop's measure.
   */
  method RightRound<D>(s: Store<D>, x0: Ref, ghost c0: Cursor<D>) returns (r: Store<D>, x: Ref, ghost c: Cursor<D>)
    requires Held(s, x0, c0) && Deletion.DeleteInv(c0) && c0.ctx.InRight? && ColorOf(c0.focus) == Black
    ensures Held(r, x, c) && Deletion.DeleteInv(c) && Entries(Whole(c)) == Entries(Whole(c0))
    ensures Deletion.Progress(c) < Deletion.Progress(c0)
    ensures r.recs.Keys == s.recs.Keys && r.nullParent == s.nullParent
  {
    r, x, c := s, x0, c0;
    SiblingRightAt(r, x, c);
    if ColorAt(r, r.recs[Parent(r, x)].left) == Red { // line 205
      r, c := RedSiblingRightStep(r, x, c);
    }
    r, x, c := BlackSiblingRight(r, x, c);
  }

  /**
    The rest of a round with `x` a right child and `w` BLACK. If both of
    `w`'s children are BLACK, case 2 runs and `x` moves up. Otherwise
    case 3 runs if `w.left` is BLACK, then case 4, and `x` becomes the
    root.
   */
  method BlackSiblingRight<D>(s: Store<D>, x0: Ref, ghost c0: Cursor<D>) returns (r: Store<D>, x: Ref, ghost c: Cursor<D>)
    requires Held(s, x0, c0) && Deletion.DeleteInv(c0) && c0.ctx.InRight? && ColorOf(c0.focus) == Black
    requires ColorOf(c0.ctx.left) == Black
    ensures Held(r, x, c) && Deletion.DeleteInv(c) && Entries(Whole(c)) == Entries(Whole(c0))
    ensures c.ctx.Top? || (Depth(c.ctx) + 1 == Depth(c0.ctx) && ColorOf(c.focus) == c0.ctx.color)
    ensures r.recs.Keys == s.recs.Keys && r.nullParent == s.nullParent
  {
    r, x, c := s, x0, c0;
    SiblingRightAt(r, x, c);
    var w := r.recs[Parent(r, x)].left;              // w as line 204 or 209 left it
    if ColorAt(r, r.recs[w].right) == Black && ColorAt(r, r.recs[w].left) == Black {
      r, x, c := BlackNephewsRightStep(r, x, c);       // case 2
    } else {
      if ColorAt(r, r.recs[w].left) == Black {       // line 214
        r, c := NearNephewRightStep(r, x, c);          // case 3
        SiblingRightAt(r, x, c);
      }
      r, x, c := FarNephewRightStep(r, x, c);          // case 4
    }
  }

  // ----- the loop -----

  /**
    Line 225, painting `x` BLACK once the loop stops. On a real node this repaints
    it. On the sentinel the write would store the BLACK it already has, so
    the store is left as it is. Either way the store holds the tree with
    `x`'s subtree root painted BLACK.
   */
  lemma ExitPaintRefines<D>(s: Store<D>, x: Ref, c: Cursor<D>)
    requires Held(s, x, c)
    ensures x != NULL ==> x in s.recs
    ensures Holds(if x == NULL then s else SetColor(s, x, Black), Plug(Paint(c.focus, Black), c.ctx))
  {
    RepFacts(s, x, Parent(s, x), c.focus);
    if x == NULL {
      AtWhole(s, x, Parent(s, x), c);
    } else {
      RecolorRefines(s, x, Parent(s, x), c, Black);
    }
  }

  /**
    `_delete_fixup(x)` on the store. While `x` is not `self.root` and is
    BLACK, it runs one round on the side that the test
    `x == x.parent.left` picks. Then it paints `x` BLACK. The store ends up
    holding a BLACK-rooted tree with no RED-RED link, equal black-heights
    and the same contents. No node is added or removed, and the sentinel's
    own parent is not touched.
   */
  method DeleteFixup<D>(s: Store<D>, x0: Ref, ghost c0: Cursor<D>) returns (r: Store<D>, ghost t: Tree<D>)
    requires Held(s, x0, c0) && Deletion.DeleteInv(c0)
    ensures Holds(r, t) && ColorOf(t) == Black && NoRedRed(t) && Balanced(t)
    ensures Entries(t) == Entries(Whole(c0))
    ensures r.recs.Keys == s.recs.Keys && r.nullParent == s.nullParent
  {
    var x := x0;
    ghost var c := c0;
    r := s;
    HeldFacts(r, x, c);
    while x != r.root && ColorAt(r, x) == Black      // line 176
      invariant Held(r, x, c) && Deletion.DeleteInv(c)
      invariant Entries(Whole(c)) == Entries(Whole(c0))
      invariant r.recs.Keys == s.recs.Keys && r.nullParent == s.nullParent
      decreases Deletion.Progress(c)
    {
      HeldFacts(r, x, c);
      Deletion.SiblingFacts(c);
      SideTest(r, x, Parent(r, x), c);
      if x == Left(r, Parent(r, x)) {                 // line 177
        r, x, c := LeftRound(r, x, c);
      } else {
        r, x, c := RightRound(r, x, c);
      }
      HeldFacts(r, x, c);
    }
    HeldFacts(r, x, c);
    Deletion.FixupExit(c);
    ExitPaintRefines(r, x, c);
    t := Plug(Paint(c.focus, Black), c.ctx);
    if x != NULL {
      r := SetColor(r, x, Black);                     // line 225
    }
  }

  /**
    `delete(key)` on the store: splice out the node holding the key, then
    run `_delete_fixup` if the colour removed from the tree was BLACK. The
    result says whether the key was there. A missing key leaves the store
    as it was. Otherwise the store ends up holding a red-black tree whose
    contents are the map removal of the key. The spliced-out node object
    stays in the store but is no longer reachable from `self.root`.
   */
  method Delete<D>(s: Store<D>, k: string, ghost t: Tree<D>) returns (r: Store<D>, found: bool, ghost t': Tree<D>)
    requires Holds(s, t) && IsRedBlack(t)
    ensures found <==> k in Keys(t)
    ensures !found ==> r == s
    ensures Holds(r, t') && IsRedBlack(t')
    ensures Entries(t') == Remove(Entries(t), k)
    ensures r.recs.Keys == s.recs.Keys
  {
    var x, removed;
    ghost var xc;
    r, found, x, removed, xc := StoreDelete.Delete(s, k, t);
    RemoveSorted(Entries(t), k);
    if !found {
      RemoveAbsent(Entries(t), k);
      t' := t;
      return;
    }
    if removed == Black {                             // line 170
      r, t' := DeleteFixup(r, x, xc);                 // line 171
    } else {
      t' := Whole(xc);
    }
  }
}
