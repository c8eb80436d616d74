/**
  The node objects themselves: `_Node` records that point at each other by
  reference, the one shared sentinel `NULL`, `self.root`, and the sentinel's
  `parent` field, which `_transplant` writes. `Rep` and `RepCtx` say when a
  store of records holds a tree value of `Trees` (seen through a cursor of
  `Cursors`). The primitives `_transplant`, `_minimum`, the two rotations and
  the linking step of `insert` are written field by field, as the source
  writes them, and proved to act on the store as their tree-level
  counterparts act on values.
 */
module Links {
  import opened StrOrder
  import opened AssocList
  import opened Trees
  import opened Cursors

  /** A reference to a node object; `NULL` is the sentinel. */
  type Ref = nat

  const NULL: Ref := 0

  /** The fields of a real `_Node`. */
  datatype Rec<D> = Rec(key: string, data: D, color: Color, left: Ref, right: Ref, parent: Ref)

  /**
    The tree's mutable state: the real nodes, `self.root`, and the one field
    of the sentinel that changes, `self.NULL.parent` (the sentinel's colour
    stays BLACK and its children stay `NULL`).
   */
  datatype Store<D> = Store(recs: map<Ref, Rec<D>>, root: Ref, nullParent: Ref)

  /** `x` names the sentinel or a real node of `s`. */
  predicate Valid<D>(s: Store<D>, x: Ref) {
    x == NULL || x in s.recs
  }

  /** `x.left`; the sentinel's children are the sentinel. */
  function Left<D>(s: Store<D>, x: Ref): Ref
    requires Valid(s, x)
  {
    if x == NULL then NULL else s.recs[x].left
  }

  /** `x.right`. */
  function Right<D>(s: Store<D>, x: Ref): Ref
    requires Valid(s, x)
  {
    if x == NULL then NULL else s.recs[x].right
  }

  /** `x.parent`, including the sentinel's own, mutable, parent. */
  function Parent<D>(s: Store<D>, x: Ref): Ref
    requires Valid(s, x)
  {
    if x == NULL then s.nullParent else s.recs[x].parent
  }

  /** `x.left = v` on a real node. */
  function SetLeft<D>(s: Store<D>, x: Ref, v: Ref): (r: Store<D>)
    requires x in s.recs
    ensures r.recs.Keys == s.recs.Keys && r.root == s.root && r.nullParent == s.nullParent
  {
    s.(recs := s.recs[x := s.recs[x].(left := v)])
  }

  /** `x.right = v` on a real node. */
  function SetRight<D>(s: Store<D>, x: Ref, v: Ref): (r: Store<D>)
    requires x in s.recs
    ensures r.recs.Keys == s.recs.Keys && r.root == s.root && r.nullParent == s.nullParent
  {
    s.(recs := s.recs[x := s.recs[x].(right := v)])
  }

  /** `x.parent = v`, which on the sentinel writes `NULL.parent`. */
  function SetParent<D>(s: Store<D>, x: Ref, v: Ref): (r: Store<D>)
    requires Valid(s, x)
    ensures r.recs.Keys == s.recs.Keys && r.root == s.root
    ensures x != NULL ==> r.nullParent == s.nullParent
  {
    if x == NULL then s.(nullParent := v) else s.(recs := s.recs[x := s.recs[x].(parent := v)])
  }

  /** `x.color = c` on a real node. */
  function SetColor<D>(s: Store<D>, x: Ref, c: Color): (r: Store<D>)
    requires x in s.recs
    ensures r.recs.Keys == s.recs.Keys && r.root == s.root && r.nullParent == s.nullParent
  {
    s.(recs := s.recs[x := s.recs[x].(color := c)])
  }

  /** `x.data = d` on a real node. */
  function SetData<D>(s: Store<D>, x: Ref, d: D): (r: Store<D>)
    requires x in s.recs
    ensures r.recs.Keys == s.recs.Keys && r.root == s.root && r.nullParent == s.nullParent
  {
    s.(recs := s.recs[x := s.recs[x].(data := d)])
  }

  // ----- representation of tree values -----

  /** The references of the real nodes of the subtree `t` held at `x`. */
  ghost function Refs<D>(s: Store<D>, x: Ref, t: Tree<D>): set<Ref>
    decreases t
  {
    match t
    case Nil => {}
    case Node(_, l, _, _, r) =>
      if x in s.recs then {x} + Refs(s, s.recs[x].left, l) + Refs(s, s.recs[x].right, r) else {x}
  }

  /**
    The store holds the subtree `t` at `x`, under the parent `p`: the
    sentinel for `Nil`; otherwise a real node with `t`'s colour, key and
    payload, whose `parent` is `p`, whose children hold `t`'s subtrees, and
    whose nodes are all distinct.
   */
  ghost predicate Rep<D>(s: Store<D>, x: Ref, p: Ref, t: Tree<D>)
    decreases t
  {
    match t
    case Nil => x == NULL
    case Node(c, l, k, d, r) =>
      && x != NULL && x in s.recs
      && s.recs[x].key == k && s.recs[x].data == d && s.recs[x].color == c && s.recs[x].parent == p
      && Rep(s, s.recs[x].left, x, l) && Rep(s, s.recs[x].right, x, r)
      && x !in Refs(s, s.recs[x].left, l) && x !in Refs(s, s.recs[x].right, r)
      && Refs(s, s.recs[x].left, l) !! Refs(s, s.recs[x].right, r)
  }

  /** The references of the real nodes a context stands for, `p` being the parent of its hole. */
  ghost function CtxRefs<D>(s: Store<D>, p: Ref, ctx: Ctx<D>): set<Ref>
    decreases ctx
  {
    match ctx
    case Top => {}
    case InLeft(up, _, _, _, rt) =>
      if p in s.recs then {p} + Refs(s, s.recs[p].right, rt) + CtxRefs(s, s.recs[p].parent, up) else {p}
    case InRight(up, _, lt, _, _) =>
      if p in s.recs then {p} + Refs(s, s.recs[p].left, lt) + CtxRefs(s, s.recs[p].parent, up) else {p}
  }

  /**
    The store holds the context `ctx` around the slot of `x`, whose parent
    is `p`: at the top `p` is the sentinel and `x` is `self.root`;
    otherwise `p` is a real node with `x` in the child slot the hole stands
    for, the sibling subtree in the other slot and its own context above.
   */
  ghost predicate RepCtx<D>(s: Store<D>, x: Ref, p: Ref, ctx: Ctx<D>)
    decreases ctx
  {
    match ctx
    case Top => p == NULL && s.root == x
    case InLeft(up, c, k, d, rt) =>
      && p != NULL && p in s.recs
      && s.recs[p].key == k && s.recs[p].data == d && s.recs[p].color == c && s.recs[p].left == x
      && Rep(s, s.recs[p].right, p, rt) && RepCtx(s, p, s.recs[p].parent, up)
      && p !in Refs(s, s.recs[p].right, rt) && p !in CtxRefs(s, s.recs[p].parent, up)
      && Refs(s, s.recs[p].right, rt) !! CtxRefs(s, s.recs[p].parent, up)
    case InRight(up, c, lt, k, d) =>
      && p != NULL && p in s.recs
      && s.recs[p].key == k && s.recs[p].data == d && s.recs[p].color == c && s.recs[p].right == x
      && Rep(s, s.recs[p].left, p, lt) && RepCtx(s, p, s.recs[p].parent, up)
      && p !in Refs(s, s.recs[p].left, lt) && p !in CtxRefs(s, s.recs[p].parent, up)
      && Refs(s, s.recs[p].left, lt) !! CtxRefs(s, s.recs[p].parent, up)
  }

  /** The store holds the cursor `c` with its subtree at `x` under the parent `p`. */
  ghost predicate At<D>(s: Store<D>, x: Ref, p: Ref, c: Cursor<D>) {
    Rep(s, x, p, c.focus) && RepCtx(s, x, p, c.ctx) && Refs(s, x, c.focus) !! CtxRefs(s, p, c.ctx)
  }

  /** The store holds the whole tree `t`, from `self.root` down. */
  ghost predicate Holds<D>(s: Store<D>, t: Tree<D>) {
    Rep(s, s.root, NULL, t)
  }

  /** The nodes named in `rs` are real in both stores and have the same fields. */
  ghost predicate Keeps<D>(s: Store<D>, s': Store<D>, rs: set<Ref>) {
    forall n :: n in rs ==> n in s.recs && n in s'.recs && s'.recs[n] == s.recs[n]
  }

  /** What a held subtree's references are: real nodes, its root among them. */
  lemma {:induction false} RepFacts<D>(s: Store<D>, x: Ref, p: Ref, t: Tree<D>)
    requires Rep(s, x, p, t)
    ensures Valid(s, x) && (x == NULL <==> t.Nil?)
    ensures x != NULL ==> x in Refs(s, x, t)
    ensures NULL !in Refs(s, x, t)
    ensures forall n :: n in Refs(s, x, t) ==> n in s.recs
    decreases t
  {
    if t.Node? {
      RepFacts(s, s.recs[x].left, x, t.left);
      RepFacts(s, s.recs[x].right, x, t.right);
    }
  }

  /** What a held context's references are: real nodes, the hole's parent among them. */
  lemma {:induction false} CtxFacts<D>(s: Store<D>, x: Ref, p: Ref, ctx: Ctx<D>)
    requires RepCtx(s, x, p, ctx)
    ensures ctx.Top? <==> p == NULL
    ensures p != NULL ==> p in CtxRefs(s, p, ctx) && p in s.recs
    ensures NULL !in CtxRefs(s, p, ctx)
    ensures forall n :: n in CtxRefs(s, p, ctx) ==> n in s.recs
    decreases ctx
  {
    match ctx
    case Top =>
    case InLeft(up, _, _, _, rt) =>
      RepFacts(s, s.recs[p].right, p, rt);
      CtxFacts(s, p, s.recs[p].parent, up);
    case InRight(up, _, lt, _, _) =>
      RepFacts(s, s.recs[p].left, p, lt);
      CtxFacts(s, p, s.recs[p].parent, up);
  }

  /**
    A held subtree stays held when no record of it changes, except that its
    root may get a new parent: the frame rule for `Rep`.
   */
  lemma {:induction false} RepMoved<D>(s: Store<D>, s': Store<D>, x: Ref, p: Ref, p': Ref, t: Tree<D>)
    requires Rep(s, x, p, t)
    requires Keeps(s, s', Refs(s, x, t) - {x})
    requires x != NULL ==> x in s'.recs && s'.recs[x] == s.recs[x].(parent := p')
    ensures Rep(s', x, p', t) && Refs(s', x, t) == Refs(s, x, t)
    decreases t
  {
    if t.Node? {
      var n := s.recs[x];
      RepFacts(s, n.left, x, t.left);
      RepFacts(s, n.right, x, t.right);
      RepMoved(s, s', n.left, x, x, t.left);
      RepMoved(s, s', n.right, x, x, t.right);
    }
  }

  /**
    A held context stays held when none of its records changes, except the
    child slot of the hole's parent (or `self.root` at the top), which now
    names `x'`: the frame rule for `RepCtx`.
   */
  lemma {:induction false} RepCtxRelink<D>(s: Store<D>, s': Store<D>, x: Ref, x': Ref, p: Ref, ctx: Ctx<D>)
    requires RepCtx(s, x, p, ctx)
    requires Keeps(s, s', CtxRefs(s, p, ctx) - {p})
    requires ctx.Top? ==> s'.root == x'
    requires !ctx.Top? ==> s'.root == s.root
    requires ctx.InLeft? ==> p in s'.recs && s'.recs[p] == s.recs[p].(left := x')
    requires ctx.InRight? ==> p in s'.recs && s'.recs[p] == s.recs[p].(right := x')
    ensures RepCtx(s', x', p, ctx) && CtxRefs(s', p, ctx) == CtxRefs(s, p, ctx)
    decreases ctx, 1
  {
    match ctx
    case Top =>
    case InLeft(_, _, _, _, _) => RelinkInLeft(s, s', x, x', p, ctx);
    case InRight(_, _, _, _, _) => RelinkInRight(s, s', x, x', p, ctx);
  }

  lemma {:induction false} RelinkInLeft<D>(s: Store<D>, s': Store<D>, x: Ref, x': Ref, p: Ref, ctx: Ctx<D>)
    requires ctx.InLeft? && RepCtx(s, x, p, ctx)
    requires Keeps(s, s', CtxRefs(s, p, ctx) - {p}) && s'.root == s.root
    requires p in s'.recs && s'.recs[p] == s.recs[p].(left := x')
    ensures RepCtx(s', x', p, ctx) && CtxRefs(s', p, ctx) == CtxRefs(s, p, ctx)
    decreases ctx, 0
  {
    var n := s.recs[p];
    RepFacts(s, n.right, p, ctx.right);
    CtxFacts(s, p, n.parent, ctx.up);
    RepMoved(s, s', n.right, p, p, ctx.right);
    RepCtxRelink(s, s', p, p, n.parent, ctx.up);
  }

  lemma {:induction false} RelinkInRight<D>(s: Store<D>, s': Store<D>, x: Ref, x': Ref, p: Ref, ctx: Ctx<D>)
    requires ctx.InRight? && RepCtx(s, x, p, ctx)
    requires Keeps(s, s', CtxRefs(s, p, ctx) - {p}) && s'.root == s.root
    requires p in s'.recs && s'.recs[p] == s.recs[p].(right := x')
    ensures RepCtx(s', x', p, ctx) && CtxRefs(s', p, ctx) == CtxRefs(s, p, ctx)
    decreases ctx, 0
  {
    var n := s.recs[p];
    RepFacts(s, n.left, p, ctx.left);
    CtxFacts(s, p, n.parent, ctx.up);
    RepMoved(s, s', n.left, p, p, ctx.left);
    RepCtxRelink(s, s', p, p, n.parent, ctx.up);
  }

  /** `x = x.parent` on the store: the parent's node holds the cursor moved one level up. */
  lemma AtUp<D>(s: Store<D>, x: Ref, p: Ref, c: Cursor<D>)
    requires At(s, x, p, c) && !c.ctx.Top?
    ensures At(s, p, s.recs[p].parent, Up(c))
  {
    RepFacts(s, x, p, c.focus);
    CtxFacts(s, x, p, c.ctx);
  }

  /** A held cursor means the whole tree it points into is held from `self.root`. */
  lemma {:induction false} AtWhole<D>(s: Store<D>, x: Ref, p: Ref, c: Cursor<D>)
    requires At(s, x, p, c)
    ensures Holds(s, Whole(c))
    decreases c.ctx
  {
    if c.ctx.Top? {
      assert Whole(c) == c.focus;
    } else {
      AtUp(s, x, p, c);
      AtWhole(s, p, s.recs[p].parent, Up(c));
    }
  }

  /** `__init__`: no nodes yet; `self.root` and `NULL.parent` are the sentinel. */
  function Init<D>(): Store<D> {
    Store(map[], NULL, NULL)
  }

  /** The new store holds the empty tree, with the sentinel as its own parent. */
  lemma InitHolds<D>(s: Store<D>)
    requires s == Init()
    ensures At(s, s.root, NULL, Cursor(Nil, Top)) && Parent(s, NULL) == NULL && Holds(s, Nil)
  {
  }

  // ----- rotations -----

  /** What `_left_rotate(x)` reads is there: `x` and its right child `y` are real, and `y.left` and `x.parent` name nodes. */
  predicate CanRotateLeft<D>(s: Store<D>, x: Ref) {
    && x != NULL && x in s.recs && s.recs[x].right != NULL && s.recs[x].right in s.recs
    && Valid(s, s.recs[s.recs[x].right].left) && Valid(s, s.recs[x].parent)
  }

  /** What `_right_rotate(x)` reads is there. */
  predicate CanRotateRight<D>(s: Store<D>, x: Ref) {
    && x != NULL && x in s.recs && s.recs[x].left != NULL && s.recs[x].left in s.recs
    && Valid(s, s.recs[s.recs[x].left].right) && Valid(s, s.recs[x].parent)
  }

  /**
    `_left_rotate(x)`, one field write per source line. Only links change:
    every node keeps its key, payload and colour, and the sentinel's parent
    is not touched.
   */
  function LeftRotate<D>(s: Store<D>, x: Ref): (r: Store<D>)
    requires CanRotateLeft(s, x)
    ensures r.recs.Keys == s.recs.Keys && r.nullParent == s.nullParent
  {
    var y := Right(s, x);                             // line 43
    var s1 := SetRight(s, x, Left(s, y));             // line 44
    var s2 := if Left(s1, y) != NULL                  // line 45
              then SetParent(s1, Left(s1, y), x)      // line 46
              else s1;
    var s3 := SetParent(s2, y, Parent(s2, x));        // line 47
    var p := Parent(s3, x);
    var s4 := if p == NULL then s3.(root := y)        // lines 48-49
              else if x == Left(s3, p)                // line 50
              then SetLeft(s3, p, y)                  // line 51
              else SetRight(s3, p, y);                // lines 52-53
    var s5 := SetLeft(s4, y, x);                      // line 54
    SetParent(s5, x, y)                               // line 55
  }

  /** `_right_rotate(x)`: the mirror image of `LeftRotate`. */
  function RightRotate<D>(s: Store<D>, x: Ref): (r: Store<D>)
    requires CanRotateRight(s, x)
    ensures r.recs.Keys == s.recs.Keys && r.nullParent == s.nullParent
  {
    var y := Left(s, x);                              // line 58
    var s1 := SetLeft(s, x, Right(s, y));             // line 59
    var s2 := if Right(s1, y) != NULL                 // line 60
              then SetParent(s1, Right(s1, y), x)     // line 61
              else s1;
    var s3 := SetParent(s2, y, Parent(s2, x));        // line 62
    var p := Parent(s3, x);
    var s4 := if p == NULL then s3.(root := y)        // lines 63-64
              else if x == Right(s3, p)               // line 65
              then SetRight(s3, p, y)                 // line 66
              else SetLeft(s3, p, y);                 // lines 67-68
    var s5 := SetRight(s4, y, x);                     // line 69
    SetParent(s5, x, y)                               // line 70
  }

  /**
    The four nodes a left rotation of `x` writes are distinct: `x`, its right
    child `y`, `y`'s left child (when real) and `x`'s parent (when real).
   */
  ghost predicate LeftRotatable<D>(s: Store<D>, x: Ref) {
    && CanRotateLeft(s, x)
    && var y, b, p := s.recs[x].right, s.recs[s.recs[x].right].left, s.recs[x].parent;
    && y != x && b != x && b != y && p != x && p != y && (b != NULL ==> p != b)
  }

  /** The nodes a right rotation of `x` writes are distinct. */
  ghost predicate RightRotatable<D>(s: Store<D>, x: Ref) {
    && CanRotateRight(s, x)
    && var y, b, p := s.recs[x].left, s.recs[s.recs[x].left].right, s.recs[x].parent;
    && y != x && b != x && b != y && p != x && p != y && (b != NULL ==> p != b)
  }

  /** Going from `s` to `r`, no real node outside `w` changed, and none was added or removed. */
  ghost predicate Untouched<D>(s: Store<D>, r: Store<D>, w: set<Ref>) {
    && r.recs.Keys == s.recs.Keys
    && forall n :: n in s.recs && n !in w ==> r.recs[n] == s.recs[n]
  }

  /**
    Going from `s` to `r`, `v` took the slot of `u` under `p`: `self.root`
    when `p` is the sentinel, otherwise the child slot of `p` that the
    source's identity test picks, the left one first when `leftFirst`.
   */
  ghost predicate Replaced<D>(s: Store<D>, r: Store<D>, p: Ref, u: Ref, v: Ref, leftFirst: bool) {
    && (p == NULL ==> r.root == v)
    && (p != NULL ==> p in s.recs && p in r.recs && r.root == s.root
                      && r.recs[p] == if leftFirst && s.recs[p].left == u then s.recs[p].(left := v)
                                      else if leftFirst then s.recs[p].(right := v)
                                      else if s.recs[p].right == u then s.recs[p].(right := v)
                                      else s.recs[p].(left := v))
  }

  /**
    What a left rotation does to the nodes it moves: `y` gets `x`'s old
    parent and `x` as its left child; `x` gets `y` as its parent and `y`'s
    old left subtree as its right subtree, whose root now points back to `x`.
   */
  ghost predicate LeftMoved<D>(s: Store<D>, x: Ref, r: Store<D>)
    requires LeftRotatable(s, x)
  {
    var y := s.recs[x].right;
    var b, p := s.recs[y].left, s.recs[x].parent;
    && x in r.recs && y in r.recs
    && r.recs[y] == s.recs[y].(left := x, parent := p)
    && r.recs[x] == s.recs[x].(right := b, parent := y)
    && (b != NULL ==> b in r.recs && r.recs[b] == s.recs[b].(parent := x))
  }

  /** What a right rotation does to the nodes it moves: the mirror image of `LeftMoved`. */
  ghost predicate RightMoved<D>(s: Store<D>, x: Ref, r: Store<D>)
    requires RightRotatable(s, x)
  {
    var y := s.recs[x].left;
    var b, p := s.recs[y].right, s.recs[x].parent;
    && x in r.recs && y in r.recs
    && r.recs[y] == s.recs[y].(right := x, parent := p)
    && r.recs[x] == s.recs[x].(left := b, parent := y)
    && (b != NULL ==> b in r.recs && r.recs[b] == s.recs[b].(parent := x))
  }

  /**
    The links `_left_rotate(x)` leaves: the moved nodes as `LeftMoved`
    says; `y` in the slot of `x`'s old parent that held `x` (or in
    `self.root`); no other node changed.
   */
  lemma LeftRotateLinks<D>(s: Store<D>, x: Ref)
    requires LeftRotatable(s, x)
    ensures LeftMoved(s, x, LeftRotate(s, x))
  {
  }

  lemma LeftRotateSlot<D>(s: Store<D>, x: Ref)
    requires LeftRotatable(s, x)
    ensures var y := s.recs[x].right;
            var b, p := s.recs[y].left, s.recs[x].parent;
            && Replaced(s, LeftRotate(s, x), p, x, y, true)
            && Untouched(s, LeftRotate(s, x), {x, y, b, p})
  {
  }

  /** The links `_right_rotate(x)` leaves: the mirror image of `LeftRotateLinks`. */
  lemma RightRotateLinks<D>(s: Store<D>, x: Ref)
    requires RightRotatable(s, x)
    ensures RightMoved(s, x, RightRotate(s, x))
  {
  }

  lemma RightRotateSlot<D>(s: Store<D>, x: Ref)
    requires RightRotatable(s, x)
    ensures var y := s.recs[x].left;
            var b, p := s.recs[y].right, s.recs[x].parent;
            && Replaced(s, RightRotate(s, x), p, x, y, false)
            && Untouched(s, RightRotate(s, x), {x, y, b, p})
  {
  }

  /** A store that changed only the nodes `w` keeps every set of real nodes that avoids them. */
  lemma KeepsOutside<D>(s: Store<D>, r: Store<D>, rs: set<Ref>, w: set<Ref>)
    requires Untouched(s, r, w)
    requires forall n :: n in rs ==> n in s.recs
    requires rs !! w
    ensures Keeps(s, r, rs)
  {
  }

  /** The nodes of a subtree before and after a rotation, grouped the two ways. */
  lemma Regrouped(x: Ref, y: Ref, ra: set<Ref>, rb: set<Ref>, re: set<Ref>)
    ensures {y} + ({x} + ra + rb) + re == {x} + ra + ({y} + rb + re)
    ensures {x} + ({y} + ra + rb) + re == {y} + ra + ({x} + rb + re)
  {
  }

  /** In a held subtree with a real right child, the nodes a left rotation writes are distinct. */
  lemma LeftRotateDistinct<D>(s: Store<D>, x: Ref, p: Ref, t: Tree<D>)
    requires Rep(s, x, p, t) && t.Node? && t.right.Node?
    requires p != NULL ==> p in s.recs && p !in Refs(s, x, t)
    ensures LeftRotatable(s, x)
  {
    var y := s.recs[x].right;
    RepFacts(s, x, p, t);
    RepFacts(s, y, x, t.right);
    RepFacts(s, s.recs[y].left, y, t.right.left);
  }

  /** In a held subtree with a real left child, the nodes a right rotation writes are distinct. */
  lemma RightRotateDistinct<D>(s: Store<D>, x: Ref, p: Ref, t: Tree<D>)
    requires Rep(s, x, p, t) && t.Node? && t.left.Node?
    requires p != NULL ==> p in s.recs && p !in Refs(s, x, t)
    ensures RightRotatable(s, x)
  {
    var y := s.recs[x].left;
    RepFacts(s, x, p, t);
    RepFacts(s, y, x, t.left);
    RepFacts(s, s.recs[y].right, y, t.left.right);
  }

  /** A real node whose record matches `t`'s root and whose children hold `t`'s subtrees, all distinct, holds `t`. */
  lemma RepJoin<D>(s: Store<D>, x: Ref, p: Ref, t: Tree<D>)
    requires t.Node? && x != NULL && x in s.recs
    requires s.recs[x].key == t.key && s.recs[x].data == t.data && s.recs[x].color == t.color && s.recs[x].parent == p
    requires Rep(s, s.recs[x].left, x, t.left) && Rep(s, s.recs[x].right, x, t.right)
    requires x !in Refs(s, s.recs[x].left, t.left) + Refs(s, s.recs[x].right, t.right)
    requires Refs(s, s.recs[x].left, t.left) !! Refs(s, s.recs[x].right, t.right)
    ensures Rep(s, x, p, t)
    ensures Refs(s, x, t) == {x} + Refs(s, s.recs[x].left, t.left) + Refs(s, s.recs[x].right, t.right)
  {
  }

  /**
    The subtree part of a left rotation's refinement: in any store `r` that
    moved the nodes as `LeftMoved` says and touched nothing else below `x`,
    the rotated subtree is held at the old right child.
   */
  lemma LeftRotatedSubtree<D>(s: Store<D>, x: Ref, p: Ref, t: Tree<D>, r: Store<D>)
    requires Rep(s, x, p, t) && t.Node? && t.right.Node?
    requires LeftRotatable(s, x) && p !in Refs(s, x, t)
    requires LeftMoved(s, x, r)
    requires Untouched(s, r, {x, s.recs[x].right, s.recs[s.recs[x].right].left, s.recs[x].parent})
    ensures Rep(r, s.recs[x].right, p, RotateLeft(t))
    ensures Refs(r, s.recs[x].right, RotateLeft(t)) == Refs(s, x, t)
  {
    var a, y := s.recs[x].left, s.recs[x].right;
    RepFacts(s, x, p, t);
    RepFacts(s, y, x, t.right);
    var b, e := s.recs[y].left, s.recs[y].right;
    RepFacts(s, a, x, t.left);
    RepFacts(s, b, y, t.right.left);
    RepFacts(s, e, y, t.right.right);
    var w := {x, y, b, s.recs[x].parent};
    var ra, rb, re := Refs(s, a, t.left), Refs(s, b, t.right.left), Refs(s, e, t.right.right);
    assert Refs(s, y, t.right) == {y} + rb + re;
    assert Refs(s, x, t) == {x} + ra + Refs(s, y, t.right);
    KeepsOutside(s, r, ra, w);
    KeepsOutside(s, r, rb - {b}, w);
    KeepsOutside(s, r, re, w);
    RepMoved(s, r, a, x, x, t.left);
    RepMoved(s, r, b, y, x, t.right.left);
    RepMoved(s, r, e, y, y, t.right.right);
    var nx := Node(t.color, t.left, t.key, t.data, t.right.left);
    RepJoin(r, x, y, nx);
    Regrouped(x, y, ra, rb, re);
    RepJoin(r, y, p, RotateLeft(t));
  }

  /** The subtree part of a right rotation's refinement: the mirror image of `LeftRotatedSubtree`. */
  lemma RightRotatedSubtree<D>(s: Store<D>, x: Ref, p: Ref, t: Tree<D>, r: Store<D>)
    requires Rep(s, x, p, t) && t.Node? && t.left.Node?
    requires RightRotatable(s, x) && p !in Refs(s, x, t)
    requires RightMoved(s, x, r)
    requires Untouched(s, r, {x, s.recs[x].left, s.recs[s.recs[x].left].right, s.recs[x].parent})
    ensures Rep(r, s.recs[x].left, p, RotateRight(t))
    ensures Refs(r, s.recs[x].left, RotateRight(t)) == Refs(s, x, t)
  {
    var e, y := s.recs[x].right, s.recs[x].left;
    RepFacts(s, x, p, t);
    RepFacts(s, y, x, t.left);
    var a, b := s.recs[y].left, s.recs[y].right;
    RepFacts(s, e, x, t.right);
    RepFacts(s, a, y, t.left.left);
    RepFacts(s, b, y, t.left.right);
    var w := {x, y, b, s.recs[x].parent};
    var ra, rb, re := Refs(s, a, t.left.left), Refs(s, b, t.left.right), Refs(s, e, t.right);
    assert Refs(s, y, t.left) == {y} + ra + rb;
    assert Refs(s, x, t) == {x} + Refs(s, y, t.left) + re;
    KeepsOutside(s, r, ra, w);
    KeepsOutside(s, r, rb - {b}, w);
    KeepsOutside(s, r, re, w);
    RepMoved(s, r, a, y, y, t.left.left);
    RepMoved(s, r, b, y, x, t.left.right);
    RepMoved(s, r, e, x, x, t.right);
    var nx := Node(t.color, t.left.right, t.key, t.data, t.right);
    RepJoin(r, x, y, nx);
    Regrouped(y, x, ra, rb, re);
    RepJoin(r, y, p, RotateRight(t));
  }

  /**
    The context part of a rotation's refinement: when `x`'s slot under `p`
    now holds `y` and no node of the context other than `p` changed, the
    context is held around `y`.
   */
  lemma ContextRelinked<D>(s: Store<D>, x: Ref, p: Ref, c: Cursor<D>, y: Ref, r: Store<D>, w: set<Ref>, leftFirst: bool)
    requires At(s, x, p, c) && x != NULL
    requires Replaced(s, r, p, x, y, leftFirst) && Untouched(s, r, w + {p})
    requires w <= Refs(s, x, c.focus)
    ensures RepCtx(r, y, p, c.ctx) && CtxRefs(r, p, c.ctx) == CtxRefs(s, p, c.ctx)
  {
    RepFacts(s, x, p, c.focus);
    CtxFacts(s, x, p, c.ctx);
    if c.ctx.InRight? {
      RepFacts(s, s.recs[p].left, p, c.ctx.left);
    }
    KeepsOutside(s, r, CtxRefs(s, p, c.ctx) - {p}, w + {p});
    RepCtxRelink(s, r, x, y, p, c.ctx);
  }

  /**
    `_left_rotate` on the store does what `RotateLeft` does on values: when
    the store holds a cursor whose subtree has a real right child, after the
    rotation it holds the same context around the rotated subtree, now
    rooted at the old right child under the same parent, so the whole tree
    held from `self.root` is the rotated one; `NULL.parent` is not touched.
   */
  lemma LeftRotateRefines<D>(s: Store<D>, x: Ref, p: Ref, c: Cursor<D>)
    requires At(s, x, p, c) && c.focus.Node? && c.focus.right.Node?
    ensures LeftRotatable(s, x)
    ensures At(LeftRotate(s, x), s.recs[x].right, p, Cursor(RotateLeft(c.focus), c.ctx))
    ensures Holds(LeftRotate(s, x), Plug(RotateLeft(c.focus), c.ctx))
    ensures LeftRotate(s, x).nullParent == s.nullParent
  {
    var t := c.focus;
    CtxFacts(s, x, p, c.ctx);
    LeftRotateDistinct(s, x, p, t);
    var r := LeftRotate(s, x);
    var y := s.recs[x].right;
    RepFacts(s, x, p, t);
    RepFacts(s, y, x, t.right);
    var b := s.recs[y].left;
    RepFacts(s, b, y, t.right.left);
    LeftRotateLinks(s, x);
    LeftRotateSlot(s, x);
    LeftRotatedSubtree(s, x, p, t, r);
    ContextRelinked(s, x, p, c, y, r, {x, y, b} - {NULL}, true);
    AtWhole(r, y, p, Cursor(RotateLeft(t), c.ctx));
  }

  /** `_right_rotate` on the store does what `RotateRight` does on values. */
  lemma RightRotateRefines<D>(s: Store<D>, x: Ref, p: Ref, c: Cursor<D>)
    requires At(s, x, p, c) && c.focus.Node? && c.focus.left.Node?
    ensures RightRotatable(s, x)
    ensures At(RightRotate(s, x), s.recs[x].left, p, Cursor(RotateRight(c.focus), c.ctx))
    ensures Holds(RightRotate(s, x), Plug(RotateRight(c.focus), c.ctx))
    ensures RightRotate(s, x).nullParent == s.nullParent
  {
    var t := c.focus;
    CtxFacts(s, x, p, c.ctx);
    RightRotateDistinct(s, x, p, t);
    var r := RightRotate(s, x);
    var y := s.recs[x].left;
    RepFacts(s, x, p, t);
    RepFacts(s, y, x, t.left);
    var b := s.recs[y].right;
    RepFacts(s, b, y, t.left.right);
    RightRotateLinks(s, x);
    RightRotateSlot(s, x);
    RightRotatedSubtree(s, x, p, t, r);
    ContextRelinked(s, x, p, c, y, r, {x, y, b} - {NULL}, false);
    AtWhole(r, y, p, Cursor(RotateRight(t), c.ctx));
  }
}
