/**
  `_find_node`, `search` and the lookup they implement: a descent from the
  root comparing the sought key with each node's key.
 */
module Searching {
  import opened StrOrder
  import opened AssocList
  import opened Trees
  import opened Cursors

  /** The key under a cursor's node is a key of the tree. */
  lemma FocusKeyIn<D>(c: Cursor<D>)
    requires c.focus.Node?
    ensures c.focus.key in Keys(Whole(c))
  {
    var lo := Before(c.ctx) + Entries(c.focus.left);
    var s := Entries(Whole(c));
    assert s == lo + [Entry(c.focus.key, c.focus.data)] + (Entries(c.focus.right) + After(c.ctx));
    assert s[|lo|].key == c.focus.key;
    KeysOfIndex(s, c.focus.key);
  }

  /**
    `_find_node(key)`: the node holding `key`, as a cursor into the tree, or
    `None` when the descent reaches the sentinel. In an ordered tree the
    answer is `None` exactly when the key is absent.
   */
  method FindNode<D>(t: Tree<D>, k: string) returns (r: Option<Cursor<D>>)
    ensures r.Some? ==> Whole(r.value) == t && r.value.focus.Node? && r.value.focus.key == k && k in Keys(t)
    ensures Ordered(t) ==> (r.Some? <==> k in Keys(t))
    ensures Ordered(t) && r.Some? ==> KeyFits(r.value.ctx, k)
  {
    var c := Cursor(t, Top);                          // line 230
    while c.focus.Node?                               // line 231
      invariant Whole(c) == t
      invariant Ordered(t) ==> KeyFits(c.ctx, k)
      decreases Size(c.focus)
    {
      if k == c.focus.key {
        FocusKeyIn(c);
        return Some(c);
      }
      if Ordered(t) {
        LessTrichotomy(k, c.focus.key);
        Descend(c, k);
      }
      if Less(k, c.focus.key) {
        c := DownLeft(c);
      } else {
        c := DownRight(c);
      }
    }
    if Ordered(t) {
      FitsAtSentinel(c.ctx, k);
    }
    return None;
  }

  /**
    `search(key)`: what a caller reads from the node `_find_node` returns —
    its key, payload and colour. In a valid tree it agrees with the lookup
    of the key in the tree's contents.
   */
  method Search<D>(t: Tree<D>, k: string) returns (r: Option<Visit<D>>)
    ensures r.Some? ==> r.value.key == k && k in Keys(t) && r.value in Inorder(t)
    ensures Ordered(t) ==> (r.Some? <==> k in Keys(t))
    ensures Ordered(t) ==> (r.Some? ==> Lookup(Entries(t), k) == Some(r.value.data))
  {
    var found := FindNode(t, k);
    match found
    case None =>
      r := None;
    case Some(c) =>
      var n := c.focus;
      if Ordered(t) {
        FoundLookup(c, k);
      }
      r := Some(Visit(n.key, n.data, n.color));
      assert Inorder(n) == Inorder(n.left) + [r.value] + Inorder(n.right);
      VisitPlugged(n, c.ctx, r.value);
  }

  /** A node's visit stays in the traversal when its subtree is plugged back into a context. */
  lemma {:induction false} VisitPlugged<D>(t: Tree<D>, ctx: Ctx<D>, v: Visit<D>)
    requires v in Inorder(t)
    ensures v in Inorder(Plug(t, ctx))
    decreases ctx
  {
    match ctx
    case Top =>
    case InLeft(up, c, k, d, rt) =>
      var n := Node(c, t, k, d, rt);
      assert Inorder(n) == Inorder(t) + [Visit(k, d, c)] + Inorder(rt);
      VisitPlugged(n, up, v);
    case InRight(up, c, lt, k, d) =>
      var n := Node(c, lt, k, d, t);
      assert Inorder(n) == Inorder(lt) + [Visit(k, d, c)] + Inorder(t);
      VisitPlugged(n, up, v);
  }

  /** The node a key-directed descent stops at holds the payload the lookup returns. */
  lemma FoundLookup<D>(c: Cursor<D>, k: string)
    requires Ordered(Whole(c)) && c.focus.Node? && c.focus.key == k && KeyFits(c.ctx, k)
    ensures Lookup(Entries(Whole(c)), k) == Some(c.focus.data)
  {
    LessIrreflexive(k);
    FitsAtNode(c, k);
    FocusSplit(c);
    LookupAt(Before(c.ctx) + Entries(c.focus.left), Entries(c.focus.right) + After(c.ctx), k, c.focus.data);
  }
}
