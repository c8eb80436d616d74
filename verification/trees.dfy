/**
  Red-black trees as values: the node record of `_Node`, the sentinel, the
  traversal, the four red-black properties and the two rotations.
 */
module Trees {
  import opened StrOrder
  import opened AssocList

  datatype Color = Red | Black

  /**
    A subtree. `Nil` is the tree's one shared sentinel `NULL`: it stands for
    every missing child, is never visited by the traversal and is BLACK.
   */
  datatype Tree<D> = Nil | Node(color: Color, left: Tree<D>, key: string, data: D, right: Tree<D>)

  /** One item of `inorder()`: a key, its payload and its node's colour. */
  datatype Visit<D> = Visit(key: string, data: D, color: Color)

  /** `n.color`, where the sentinel reads as BLACK. */
  function ColorOf<D>(t: Tree<D>): Color {
    if t.Nil? then Black else t.color
  }

  /** `n.color = c`; writing the sentinel leaves it as it is (only BLACK is ever written to it). */
  function Paint<D>(t: Tree<D>, c: Color): Tree<D> {
    if t.Nil? then Nil else t.(color := c)
  }

  /** The logical contents: key and payload of every node, left to right. */
  function Entries<D>(t: Tree<D>): seq<Entry<D>> {
    match t
    case Nil => []
    case Node(_, l, k, d, r) => Entries(l) + [Entry(k, d)] + Entries(r)
  }

  function Keys<D>(t: Tree<D>): set<string> {
    KeysOf(Entries(t))
  }

  /** The number of real nodes. */
  function Size<D>(t: Tree<D>): nat {
    match t
    case Nil => 0
    case Node(_, l, _, _, r) => Size(l) + 1 + Size(r)
  }

  /** What a traversal lists, colours dropped: the keys and payloads in order. */
  function Listed<D>(vs: seq<Visit<D>>): seq<Entry<D>> {
    if |vs| == 0 then [] else [Entry(vs[0].key, vs[0].data)] + Listed(vs[1..])
  }

  lemma {:induction false} ListedAppend<D>(a: seq<Visit<D>>, b: seq<Visit<D>>)
    ensures Listed(a + b) == Listed(a) + Listed(b)
    decreases |a|
  {
    if |a| == 0 {
      assert a + b == b;
    } else {
      assert (a + b)[0] == a[0] && (a + b)[1..] == a[1..] + b;
      ListedAppend(a[1..], b);
    }
  }

  lemma {:induction false} ListedIndex<D>(vs: seq<Visit<D>>, i: nat)
    requires i < |vs|
    ensures |Listed(vs)| == |vs| && Listed(vs)[i] == Entry(vs[i].key, vs[i].data)
    decreases i
  {
    if i > 0 {
      ListedIndex(vs[1..], i - 1);
    } else {
      ListedLength(vs);
    }
  }

  lemma {:induction false} ListedLength<D>(vs: seq<Visit<D>>)
    ensures |Listed(vs)| == |vs|
    decreases |vs|
  {
    if |vs| > 0 {
      ListedLength(vs[1..]);
    }
  }

  /**
    `inorder()`: left subtree, the node, right subtree, stopping at the
    sentinel. It lists exactly the logical contents, one item per real node.
   */
  function Inorder<D>(t: Tree<D>): (r: seq<Visit<D>>)
    ensures Listed(r) == Entries(t) && |r| == Size(t)
  {
    match t
    case Nil => []
    case Node(c, l, k, d, r) =>
      ListedAppend(Inorder(l) + [Visit(k, d, c)], Inorder(r));
      ListedAppend(Inorder(l), [Visit(k, d, c)]);
      assert Listed([Visit(k, d, c)]) == [Entry(k, d)];
      Inorder(l) + [Visit(k, d, c)] + Inorder(r)
  }

  /** The number of BLACK nodes on the leftmost path down to the sentinel. */
  function BlackHeight<D>(t: Tree<D>): nat {
    match t
    case Nil => 0
    case Node(c, l, _, _, _) => BlackHeight(l) + (if c == Black then 1 else 0)
  }

  /** Every path from a node down to the sentinel has the same number of BLACK nodes. */
  ghost predicate Balanced<D>(t: Tree<D>) {
    match t
    case Nil => true
    case Node(_, l, _, _, r) => Balanced(l) && Balanced(r) && BlackHeight(l) == BlackHeight(r)
  }

  /** No RED node has a RED child. */
  ghost predicate NoRedRed<D>(t: Tree<D>) {
    match t
    case Nil => true
    case Node(c, l, _, _, r) =>
      && (c == Red ==> ColorOf(l) == Black && ColorOf(r) == Black)
      && NoRedRed(l) && NoRedRed(r)
  }

  /** Binary-search-tree order: the in-order keys strictly ascend. */
  ghost predicate Ordered<D>(t: Tree<D>) {
    Sorted(Entries(t))
  }

  /** The invariants that hold between public operations. */
  ghost predicate IsRedBlack<D>(t: Tree<D>) {
    Ordered(t) && ColorOf(t) == Black && NoRedRed(t) && Balanced(t)
  }

  /** `__init__`: a new tree, whose root is the sentinel, holds nothing, lists nothing and is a valid red-black tree. */
  lemma Empty<D>(t: Tree<D>)
    requires t == Nil
    ensures Entries(t) == [] && Inorder(t) == [] && IsRedBlack(t)
  {
  }

  /** Recolouring a node changes neither the contents, nor the shape, nor its subtrees. */
  lemma PaintFacts<D>(t: Tree<D>, c: Color)
    ensures Entries(Paint(t, c)) == Entries(t)
    ensures Balanced(Paint(t, c)) <==> Balanced(t)
    ensures t.Node? ==> BlackHeight(Paint(t, c)) == BlackHeight(t.left) + (if c == Black then 1 else 0)
    ensures NoRedRed(t) ==> NoRedRed(Paint(t, Black))
    ensures (t.Node? && c == Red && NoRedRed(t.left) && NoRedRed(t.right)
              && ColorOf(t.left) == Black && ColorOf(t.right) == Black) ==> NoRedRed(Paint(t, c))
  {
  }

  /** The tree with its payloads forgotten: structure, keys and colours. */
  function Skeleton<D>(t: Tree<D>): Tree<()> {
    match t
    case Nil => Nil
    case Node(c, l, k, _, r) => Node(c, Skeleton(l), k, (), Skeleton(r))
  }

  /**
    `_left_rotate(x)`: the right child `y` (never the sentinel) takes the
    place of `x`, `x` becomes `y`'s left child and `y`'s old left subtree
    becomes `x`'s right subtree. Every node keeps its key, payload and
    colour and the in-order sequence is unchanged.
   */
  function RotateLeft<D>(t: Tree<D>): (r: Tree<D>)
    requires t.Node? && t.right.Node?
    ensures Entries(r) == Entries(t)
    ensures r.Node? && r.key == t.right.key && r.color == t.right.color
    ensures r.left.Node? && r.left.key == t.key && r.left.color == t.color
  {
    var Node(xc, a, xk, xd, Node(yc, b, yk, yd, c)) := t;
    Node(yc, Node(xc, a, xk, xd, b), yk, yd, c)
  }

  /** `_right_rotate(x)`: the mirror image of `RotateLeft`. */
  function RotateRight<D>(t: Tree<D>): (r: Tree<D>)
    requires t.Node? && t.left.Node?
    ensures Entries(r) == Entries(t)
    ensures r.Node? && r.key == t.left.key && r.color == t.left.color
    ensures r.right.Node? && r.right.key == t.key && r.right.color == t.color
  {
    var Node(xc, Node(yc, a, yk, yd, b), xk, xd, c) := t;
    Node(yc, a, yk, yd, Node(xc, b, xk, xd, c))
  }

  /** A left rotation keeps the traversal itself: the same keys, payloads and colours in the same order. */
  lemma RotateLeftKeepsInorder<D>(t: Tree<D>)
    requires t.Node? && t.right.Node?
    ensures Inorder(RotateLeft(t)) == Inorder(t)
  {
    var Node(xc, a, xk, xd, Node(yc, b, yk, yd, c)) := t;
    var x, y := [Visit(xk, xd, xc)], [Visit(yk, yd, yc)];
    assert Inorder(t) == (Inorder(a) + x) + ((Inorder(b) + y) + Inorder(c));
    assert Inorder(RotateLeft(t)) == ((Inorder(a) + x) + Inorder(b)) + y + Inorder(c);
    Regroup(Inorder(a) + x, Inorder(b), y, Inorder(c));
  }

  /** A right rotation keeps the traversal itself. */
  lemma RotateRightKeepsInorder<D>(t: Tree<D>)
    requires t.Node? && t.left.Node?
    ensures Inorder(RotateRight(t)) == Inorder(t)
  {
    var Node(xc, Node(yc, a, yk, yd, b), xk, xd, c) := t;
    var x, y := [Visit(xk, xd, xc)], [Visit(yk, yd, yc)];
    assert Inorder(t) == ((Inorder(a) + y) + Inorder(b)) + x + Inorder(c);
    assert Inorder(RotateRight(t)) == (Inorder(a) + y) + ((Inorder(b) + x) + Inorder(c));
    Regroup(Inorder(a) + y, Inorder(b), x, Inorder(c));
  }

  /** The two rotations undo each other. */
  lemma RotationsInverse<D>(t: Tree<D>)
    requires t.Node? && t.right.Node?
    ensures RotateLeft(t).left.Node?
    ensures RotateRight(RotateLeft(t)) == t
  {
  }

  /** In an ordered tree the key of a node lies strictly between its two subtrees' keys. */
  lemma OrderedNode<D>(t: Tree<D>)
    requires t.Node? && Ordered(t)
    ensures Ordered(t.left) && Ordered(t.right)
    ensures AllBelow(Entries(t.left), t.key) && AllAbove(Entries(t.right), t.key)
  {
    var el, er := Entries(t.left), Entries(t.right);
    SortedAppend(el + [Entry(t.key, t.data)], er);
    SortedAppend(el, [Entry(t.key, t.data)]);
    assert (el + [Entry(t.key, t.data)])[|el|].key == t.key;
  }

  /** The traversal of a valid tree lists its keys in strictly ascending order. */
  lemma InorderAscending<D>(t: Tree<D>)
    requires Ordered(t)
    ensures forall i, j :: 0 <= i < j < |Inorder(t)| ==> Less(Inorder(t)[i].key, Inorder(t)[j].key)
  {
    var vs := Inorder(t);
    forall i, j | 0 <= i < j < |vs|
      ensures Less(vs[i].key, vs[j].key)
    {
      ListedIndex(vs, i);
      ListedIndex(vs, j);
    }
  }

  /** A tree is empty exactly when its traversal is. */
  lemma EmptyIffNoEntries<D>(t: Tree<D>)
    ensures t == Nil <==> Inorder(t) == []
  {
  }
}
