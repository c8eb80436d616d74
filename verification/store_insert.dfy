/**
  `_insert_fixup` and `insert` on the store of node objects. Each case of
  the loop writes the fields the source writes, in the source's order, and
  is proved to leave the store holding exactly the cursor that the matching
  case of `Insertion` returns on tree values. So the loop carries that
  module's invariant `FixupInv` and its measure over to the store.
 */
module StoreInsert {
  import opened StrOrder
  import opened AssocList
  import opened Trees
  import opened Cursors
  import opened Links
  import opened StoreOps
  import Insertion

  /**
    What one pass of the loop reads once `z.parent` is RED. The parent and
    the grandparent are real nodes. The identity tests on them tell which
    sides the cursor is on. The uncle that the side test picks has the
    colour of the value-level uncle.
   */
  lemma StepFacts<D>(s: Store<D>, z: Ref, c: Cursor<D>)
    requires Held(s, z, c) && Insertion.FixupInv(c) && ParentColor(c.ctx) == Red
    ensures !c.ctx.Top? && !c.ctx.up.Top?
    ensures z in s.recs && s.recs[z].parent in s.recs && s.recs[s.recs[z].parent].parent in s.recs
    ensures var zp := s.recs[z].parent;
            var g := s.recs[zp].parent;
            && (zp == s.recs[g].left <==> c.ctx.up.InLeft?)
            && (z == s.recs[zp].right <==> c.ctx.InRight?)
            && (z == s.recs[zp].left <==> c.ctx.InLeft?)
            && Valid(s, s.recs[g].left) && Valid(s, s.recs[g].right)
            && ColorAt(s, if zp == s.recs[g].left then s.recs[g].right else s.recs[g].left)
               == ColorOf(Insertion.Uncle(c.ctx))
  {
    Insertion.GrandparentExists(c);
    RepFacts(s, z, Parent(s, z), c.focus);
    var zp := s.recs[z].parent;
    ChildSides(s, z, zp, c);
    AtUp(s, z, zp, c);
    var g := s.recs[zp].parent;
    ChildSides(s, zp, g, Up(c));
    RepFacts(s, zp, g, Up(c).focus);
    AtUp(s, zp, g, Up(c));
    RepFacts(s, g, s.recs[g].parent, Up(Up(c)).focus);
    if c.ctx.up.InLeft? {
      RepColor(s, s.recs[g].right, g, c.ctx.up.right);
    } else {
      RepColor(s, s.recs[g].left, g, c.ctx.up.left);
    }
  }

  /**
    Case 1, either side (the uncle `y` is RED): painting the parent and the
    uncle BLACK and the grandparent RED (lines 108-110, 125-127) leave the store
    holding the cursor of `Insertion.RecolorCase` at the grandparent, which
    becomes the new `z`.
   */
  lemma UncleRedRefines<D>(s: Store<D>, z: Ref, zp: Ref, g: Ref, y: Ref, c: Cursor<D>)
    requires Held(s, z, c) && Insertion.FixupInv(c) && ParentColor(c.ctx) == Red
    requires z in s.recs && zp == s.recs[z].parent && zp in s.recs && g == s.recs[zp].parent && g in s.recs
    requires y == (if zp == s.recs[g].left then s.recs[g].right else s.recs[g].left)
    requires Valid(s, y) && ColorAt(s, y) == Red
    ensures !c.ctx.Top? && !c.ctx.up.Top? && ColorOf(Insertion.Uncle(c.ctx)) == Red && y in s.recs
    ensures Held(SetColor(SetColor(SetColor(s, zp, Black), y, Black), g, Red), g, Insertion.RecolorCase(c))
  {
    StepFacts(s, z, c);
    AtUp(s, z, zp, c);
    var p := Up(c);
    RecolorRefines(s, zp, g, p, Black);
    var s1 := SetColor(s, zp, Black);
    var pc := Cursor(Paint(p.focus, Black), p.ctx);
    AtUp(s1, zp, g, pc);
    var gc := Up(pc);
    var gg := s1.recs[g].parent;
    var gp';
    if c.ctx.up.InLeft? {
      RecolorRightChild(s1, g, gg, gc, Black);
      gp' := gc.focus.(right := Paint(gc.focus.right, Black));
    } else {
      RecolorLeftChild(s1, g, gg, gc, Black);
      gp' := gc.focus.(left := Paint(gc.focus.left, Black));
    }
    RecolorRefines(SetColor(s1, y, Black), g, gg, Cursor(gp', gc.ctx), Red);
  }

  /**
    Case 2, parent a left child and `z` a right child: moving `z` to its
    parent and rotating it left (lines 115-116) leave the store holding the cursor of
    `Insertion.TurnLeftCase` at the old parent.
   */
  lemma TurnLeftRefines<D>(s: Store<D>, z: Ref, zp: Ref, c: Cursor<D>)
    requires Held(s, z, c) && Insertion.FixupInv(c) && ParentColor(c.ctx) == Red
    requires c.ctx.InRight? && c.ctx.up.InLeft? && ColorOf(Insertion.Uncle(c.ctx)) == Black
    requires z in s.recs && zp == s.recs[z].parent
    ensures CanRotateLeft(s, zp)
    ensures Held(LeftRotate(s, zp), zp, Insertion.TurnLeftCase(c))
  {
    AtUp(s, z, zp, c);
    var g := s.recs[zp].parent;
    ChildSides(s, z, zp, c);
    LeftRotateRefines(s, zp, g, Up(c));
    LeftRotateLinks(s, zp);
    var r := LeftRotate(s, zp);
    AtDownLeft(r, z, g, Cursor(RotateLeft(Up(c).focus), Up(c).ctx));
    RepFacts(r, zp, z, Insertion.TurnLeftCase(c).focus);
  }

  /** Case 2, mirrored (lines 131-132): `z` moves to its parent, which is rotated right. */
  lemma TurnRightRefines<D>(s: Store<D>, z: Ref, zp: Ref, c: Cursor<D>)
    requires Held(s, z, c) && Insertion.FixupInv(c) && ParentColor(c.ctx) == Red
    requires c.ctx.InLeft? && c.ctx.up.InRight? && ColorOf(Insertion.Uncle(c.ctx)) == Black
    requires z in s.recs && zp == s.recs[z].parent
    ensures CanRotateRight(s, zp)
    ensures Held(RightRotate(s, zp), zp, Insertion.TurnRightCase(c))
  {
    AtUp(s, z, zp, c);
    var g := s.recs[zp].parent;
    ChildSides(s, z, zp, c);
    RightRotateRefines(s, zp, g, Up(c));
    RightRotateLinks(s, zp);
    var r := RightRotate(s, zp);
    AtDownRight(r, z, g, Cursor(RotateRight(Up(c).focus), Up(c).ctx));
    RepFacts(r, zp, z, Insertion.TurnRightCase(c).focus);
  }

  /**
    Case 3, parent a left child and `z` a left child: painting the parent
    BLACK and the grandparent RED, then rotating the grandparent right
    (lines 118-120), leave the store holding the cursor of
    `Insertion.LineLeftCase` at `z`, whose parent is now BLACK.
   */
  lemma LineLeftRefines<D>(s: Store<D>, z: Ref, zp: Ref, g: Ref, c: Cursor<D>)
    requires Held(s, z, c) && Insertion.FixupInv(c) && ParentColor(c.ctx) == Red
    requires c.ctx.InLeft? && c.ctx.up.InLeft? && ColorOf(Insertion.Uncle(c.ctx)) == Black
    requires z in s.recs && zp == s.recs[z].parent && zp in s.recs && g == s.recs[zp].parent && g in s.recs
    ensures CanRotateRight(SetColor(SetColor(s, zp, Black), g, Red), g)
    ensures Held(RightRotate(SetColor(SetColor(s, zp, Black), g, Red), g), z, Insertion.LineLeftCase(c))
  {
    Insertion.GrandparentExists(c);
    ChildSides(s, z, zp, c);
    AtUp(s, z, zp, c);
    var p := Up(c);
    RecolorRefines(s, zp, g, p, Black);
    var s1 := SetColor(s, zp, Black);
    var pc := Cursor(Paint(p.focus, Black), p.ctx);
    AtUp(s1, zp, g, pc);
    var gc := Up(pc);
    var gg := s1.recs[g].parent;
    ChildSides(s1, zp, g, pc);
    RecolorRefines(s1, g, gg, gc, Red);
    var s2 := SetColor(s1, g, Red);
    var rc := Cursor(Paint(gc.focus, Red), gc.ctx);
    RightRotateRefines(s2, g, gg, rc);
    RightRotateLinks(s2, g);
    var s3 := RightRotate(s2, g);
    AtDownLeft(s3, zp, gg, Cursor(RotateRight(rc.focus), rc.ctx));
    RepFacts(s3, z, zp, c.focus);
  }

  /** Case 3, mirrored (lines 133-135): the same recolouring, then the grandparent is rotated left. */
  lemma LineRightRefines<D>(s: Store<D>, z: Ref, zp: Ref, g: Ref, c: Cursor<D>)
    requires Held(s, z, c) && Insertion.FixupInv(c) && ParentColor(c.ctx) == Red
    requires c.ctx.InRight? && c.ctx.up.InRight? && ColorOf(Insertion.Uncle(c.ctx)) == Black
    requires z in s.recs && zp == s.recs[z].parent && zp in s.recs && g == s.recs[zp].parent && g in s.recs
    ensures CanRotateLeft(SetColor(SetColor(s, zp, Black), g, Red), g)
    ensures Held(LeftRotate(SetColor(SetColor(s, zp, Black), g, Red), g), z, Insertion.LineRightCase(c))
  {
    Insertion.GrandparentExists(c);
    ChildSides(s, z, zp, c);
    AtUp(s, z, zp, c);
    var p := Up(c);
    RecolorRefines(s, zp, g, p, Black);
    var s1 := SetColor(s, zp, Black);
    var pc := Cursor(Paint(p.focus, Black), p.ctx);
    AtUp(s1, zp, g, pc);
    var gc := Up(pc);
    var gg := s1.recs[g].parent;
    ChildSides(s1, zp, g, pc);
    RecolorRefines(s1, g, gg, gc, Red);
    var s2 := SetColor(s1, g, Red);
    var rc := Cursor(Paint(gc.focus, Red), gc.ctx);
    LeftRotateRefines(s2, g, gg, rc);
    LeftRotateLinks(s2, g);
    var s3 := LeftRotate(s2, g);
    AtDownRight(s3, zp, gg, Cursor(RotateLeft(rc.focus), rc.ctx));
    RepFacts(s3, z, zp, c.focus);
  }

  /**
    Line 136, painting the root BLACK once the loop stops: the store held at a
    real node has a real root, and painting it holds the whole tree painted
    BLACK.
   */
  lemma RootPaintRefines<D>(s: Store<D>, z: Ref, c: Cursor<D>)
    requires Held(s, z, c) && c.focus.Node?
    ensures s.root in s.recs
    ensures Holds(SetColor(s, s.root, Black), Paint(Whole(c), Black))
  {
    var p := Parent(s, z);
    RepFacts(s, z, p, c.focus);
    CtxFacts(s, z, p, c.ctx);
    if !c.ctx.Top? {
      RootInCtx(s, z, p, c.ctx);
    }
    AtWhole(s, z, p, c);
    RepFacts(s, s.root, NULL, Whole(c));
    RecolorRefines(s, s.root, NULL, Cursor(Whole(c), Top), Black);
  }

  /**
    Cases 2 and 3 when `z.parent` is a left child and the uncle is BLACK.
    If `z` is a right child, it moves up to its parent and is rotated down
    to the left. Then the parent turns BLACK, the grandparent RED, and the
    grandparent is rotated right. The store ends up holding the state where
    `Insertion.InsertFixup` stops: `z`'s parent is BLACK.
   */
  method LeftLine<D>(s: Store<D>, z0: Ref, ghost c0: Cursor<D>) returns (r: Store<D>, z: Ref, ghost c: Cursor<D>)
    requires Held(s, z0, c0) && Insertion.FixupInv(c0) && ParentColor(c0.ctx) == Red
    requires !c0.ctx.Top? && c0.ctx.up.InLeft? && ColorOf(Insertion.Uncle(c0.ctx)) == Black
    ensures Held(r, z, c) && Insertion.FixupInv(c) && ParentColor(c.ctx) == Black && z in r.recs
    ensures Entries(Whole(c)) == Entries(Whole(c0)) && Depth(c.ctx) < Depth(c0.ctx)
    ensures r.recs.Keys == s.recs.Keys && r.nullParent == s.nullParent
  {
    StepFacts(s, z0, c0);
    z, c, r := z0, c0, s;
    var zp := r.recs[z].parent;
    if z == r.recs[zp].right {                        // line 113
      TurnLeftRefines(r, z, zp, c);
      z := zp;                                        // line 115
      r := LeftRotate(r, z);                          // line 116
      c := Insertion.TurnLeftCase(c);
      StepFacts(r, z, c);
      zp := r.recs[z].parent;
    }
    var g := r.recs[zp].parent;
    LineLeftRefines(r, z, zp, g, c);
    r := SetColor(r, zp, Black);                      // line 118
    r := SetColor(r, g, Red);                         // line 119
    r := RightRotate(r, g);                           // line 120
    c := Insertion.LineLeftCase(c);
    RepFacts(r, z, Parent(r, z), c.focus);
  }

  /** Cases 2 and 3 when `z.parent` is a right child: the mirror image of `LeftLine`. */
  method RightLine<D>(s: Store<D>, z0: Ref, ghost c0: Cursor<D>) returns (r: Store<D>, z: Ref, ghost c: Cursor<D>)
    requires Held(s, z0, c0) && Insertion.FixupInv(c0) && ParentColor(c0.ctx) == Red
    requires !c0.ctx.Top? && c0.ctx.up.InRight? && ColorOf(Insertion.Uncle(c0.ctx)) == Black
    ensures Held(r, z, c) && Insertion.FixupInv(c) && ParentColor(c.ctx) == Black && z in r.recs
    ensures Entries(Whole(c)) == Entries(Whole(c0)) && Depth(c.ctx) < Depth(c0.ctx)
    ensures r.recs.Keys == s.recs.Keys && r.nullParent == s.nullParent
  {
    StepFacts(s, z0, c0);
    z, c, r := z0, c0, s;
    var zp := r.recs[z].parent;
    if z == r.recs[zp].left {                         // line 130
      TurnRightRefines(r, z, zp, c);
      z := zp;
      r := RightRotate(r, z);                         // line 132
      c := Insertion.TurnRightCase(c);
      StepFacts(r, z, c);
      zp := r.recs[z].parent;
    }
    var g := r.recs[zp].parent;
    LineRightRefines(r, z, zp, g, c);
    r := SetColor(r, zp, Black);
    r := SetColor(r, g, Red);
    r := LeftRotate(r, g);                            // line 135
    c := Insertion.LineRightCase(c);
    RepFacts(r, z, Parent(r, z), c.focus);
  }

  /**
    `_insert_fixup(z)` on the store. While `z.parent` is RED, it reads the
    uncle on the side that the test `z.parent == z.parent.parent.left`
    picks. A RED uncle gives case 1. Otherwise cases 2 and 3 run on that
    side. Then it paints `self.root` BLACK. The store ends up holding a BLACK-rooted
    tree with no RED-RED link, equal black-heights and the same contents.
    No node is added or removed, and the sentinel's own parent is not
    touched.
   */
  method InsertFixup<D>(s: Store<D>, z0: Ref, ghost c0: Cursor<D>) returns (r: Store<D>, ghost t: Tree<D>)
    requires Held(s, z0, c0) && Insertion.FixupInv(c0)
    ensures Holds(r, t) && ColorOf(t) == Black && NoRedRed(t) && Balanced(t)
    ensures Entries(t) == Entries(Whole(c0))
    ensures r.recs.Keys == s.recs.Keys && r.nullParent == s.nullParent
    ensures r.root in r.recs && r.recs[r.root].color == Black
  {
    var z := z0;
    ghost var c := c0;
    r := s;
    HeldParent(r, z, c);
    while ColorAt(r, r.recs[z].parent) == Red        // line 103
      invariant Held(r, z, c) && Insertion.FixupInv(c)
      invariant z in r.recs && Valid(r, r.recs[z].parent) && ColorAt(r, r.recs[z].parent) == ParentColor(c.ctx)
      invariant Entries(Whole(c)) == Entries(Whole(c0))
      invariant r.recs.Keys == s.recs.Keys && r.nullParent == s.nullParent
      decreases Depth(c.ctx)
    {
      StepFacts(r, z, c);
      var zp := r.recs[z].parent;
      var g := r.recs[zp].parent;
      var y := if zp == r.recs[g].left then r.recs[g].right else r.recs[g].left;
      if ColorAt(r, y) == Red {                       // lines 106 and 124: the uncle y is RED, case 1 on either side
        UncleRedRefines(r, z, zp, g, y, c);
        r := SetColor(r, zp, Black);                  // line 108 (125 on the right)
        r := SetColor(r, y, Black);                   // line 109 (126)
        r := SetColor(r, g, Red);                     // line 110 (127)
        z, c := g, Insertion.RecolorCase(c);          // line 111 (128)
      } else if zp == r.recs[g].left {                // line 104
        r, z, c := LeftLine(r, z, c);
      } else {
        r, z, c := RightLine(r, z, c);
      }
      HeldParent(r, z, c);
    }
    RootPaintRefines(r, z, c);
    Insertion.FixupDone(c);
    t := Paint(Whole(c), Black);
    r := SetColor(r, r.root, Black);                  // line 136
  }

  /**
    `insert(key, data)` on the store: the descent and linking step, then
    `_insert_fixup` when a node was linked. The new node object `z` is
    given by the caller. Starting from a store that holds a red-black tree,
    the store ends up holding a red-black tree whose contents are the map
    update at `key`. The new node becomes a node of the store exactly when
    the key was absent; a present key leaves the shape and the colours as
    they were. The root ends up a real BLACK node, and the
    sentinel's own parent is not touched.
   */
  method Insert<D>(s: Store<D>, k: string, d: D, z: Ref, ghost t: Tree<D>) returns (r: Store<D>, ghost t': Tree<D>)
    requires Holds(s, t) && IsRedBlack(t)
    requires z != NULL && z !in s.recs
    ensures Holds(r, t') && IsRedBlack(t')
    ensures Entries(t') == Put(Entries(t), k, d)
    ensures k in Keys(t) ==> r.recs.Keys == s.recs.Keys && Skeleton(t') == Skeleton(t)
    ensures k !in Keys(t) ==> r.recs.Keys == s.recs.Keys + {z}
    ensures r.nullParent == s.nullParent
    ensures r.root in r.recs && r.recs[r.root].color == Black
  {
    var linked;
    ghost var c;
    r, linked, c := InsertLink(s, k, d, z, t);
    PutSorted(Entries(t), k, d);
    if linked {
      r, t' := InsertFixup(r, z, Cursor(Node(Red, Nil, k, d, Nil), c.ctx));
    } else {
      t' := Plug(c.focus.(data := d), c.ctx);
      Insertion.SameShapeSound(c.focus, d, c.ctx);
      RepFacts(r, r.root, NULL, t');
    }
  }
}
