/**
 Node creation and the structural primitives of `src/llrbtree.c`: the two
 rotations, the colour flip, and the three compound fix-ups built from them
 (`balance`, `move_red_left`, `move_red_right`). None of them changes which
 entries the tree holds or their order; they relink nodes and recolour them.
 */
module Primitives {
  import opened Trees
  import opened Order

  /** `llrbtree_node_init`: a fresh node with no children (allocation is
      taken to succeed). */
  function NewNode(key: Int64, value: Int64, color: Color): (r: Tree)
    ensures r.Node? && r.color == color
    ensures Inorder(r) == [Entry(key, value)]
    ensures Ordered(r)
    ensures Shape(r)
  {
    var r := Node(color, Leaf, key, value, Leaf);
    assert !IsRed(Leaf) && BlackHeight(Leaf) == 0;
    assert Balanced(r) && NoRedRed(r) && LeansLeft(r);
    assert Inorder(r) == [] + [Entry(key, value)] + [];
    r
  }

  /** `llrbtree_init`: a one-entry tree with a black root. */
  function Init(key: Int64, value: Int64): (r: Tree)
    ensures ValidLlrb(r)
    ensures Contents(r) == map[key := value]
  {
    var r := NewNode(key, value, Black);
    var s := [Entry(key, value)];
    assert s[..0] == [];
    assert MapOf(s) == MapOf([])[key := value];
    r
  }

  /** `llrbtree_node_rotate_left`: the right child becomes the subtree root,
      taking over the old root's colour while the old root turns red.
      Without a node or a right child it does nothing. */
  function RotateLeft(t: Tree): (r: Tree)
    ensures Inorder(r) == Inorder(t)
    ensures t.Node? && t.right.Node? ==>
      && r.Node? && r.color == t.color && r.key == t.right.key
      && IsRed(r.left) && r.left.key == t.key
      && RootIndex(r) > RootIndex(t)
    ensures t.Node? && t.right.Node? ==>
      && r.value == t.right.value && r.left.value == t.value
      && r.left.left == t.left && r.left.right == t.right.left && r.right == t.right.right
    ensures t.Leaf? || t.right.Leaf? ==> r == t
  {
    if t.Leaf? || t.right.Leaf? then t
    else
      var b := t.right;
      Node(t.color, Node(Red, t.left, t.key, t.value, b.left), b.key, b.value, b.right)
  }

  /** `llrbtree_node_rotate_right`: the mirror image of `RotateLeft`. */
  function RotateRight(t: Tree): (r: Tree)
    ensures Inorder(r) == Inorder(t)
    ensures t.Node? && t.left.Node? ==>
      && r.Node? && r.color == t.color && r.key == t.left.key
      && IsRed(r.right) && r.right.key == t.key
      && RootIndex(r) < RootIndex(t)
    ensures t.Node? && t.left.Node? ==>
      && r.value == t.left.value && r.right.value == t.value
      && r.left == t.left.left && r.right.left == t.left.right && r.right.right == t.right
    ensures t.Leaf? || t.left.Leaf? ==> r == t
  {
    if t.Leaf? || t.left.Leaf? then t
    else
      var b := t.left;
      Node(t.color, b.left, b.key, b.value, Node(Red, b.right, t.key, t.value, t.right))
  }

  /** Toggle the colour of a present node; an absent child stays absent. */
  function Toggle(t: Tree): Tree {
    if t.Leaf? then t else t.(color := t.color.Flip())
  }

  /** `r` is `t` with only the colour of its root changed (or both absent). */
  predicate Recoloured(t: Tree, r: Tree) {
    (t.Leaf? && r.Leaf?) || (t.Node? && r.Node? && r.color != t.color && r == t.(color := r.color))
  }

  /** `llrbtree_node_flip_colors`: the node and each present child change
      colour; keys, values and links stay as they were. The C code
      dereferences the node, so it must be present. */
  function FlipColors(t: Tree): (r: Tree)
    requires t.Node?
    ensures r.Node? && r.color != t.color && r.key == t.key && r.value == t.value
    ensures Recoloured(t.left, r.left) && Recoloured(t.right, r.right)
    ensures Inorder(r.left) == Inorder(t.left) && Inorder(r.right) == Inorder(t.right)
    ensures Inorder(r) == Inorder(t)
  {
    Node(t.color.Flip(), Toggle(t.left), t.key, t.value, Toggle(t.right))
  }

  /** Flipping twice restores every colour. */
  lemma FlipColorsTwice(t: Tree)
    requires t.Node?
    ensures FlipColors(FlipColors(t)) == t
  {
    var f := FlipColors(t);
    assert FlipColors(f).left == t.left;
    assert FlipColors(f).right == t.right;
  }

  /** `llrbtree_balance`, the fix-up run on the way back up a delete:
      repair a lone red right link, then two red left links in a row
      (forcing the new root black and its demoted child red in both cases),
      then split a node with two red children. */
  function Balance(t: Tree): (r: Tree)
    requires t.Node?
    ensures r.Node?
    ensures Inorder(r) == Inorder(t)
  {
    var a :=
      if IsRed(t.right) && !IsRed(t.left) then
        var x := var rl := RotateLeft(t); assert rl.Node?; rl.(color := Black);
        if x.left.Node? then x.(left := x.left.(color := Red)) else x
      else t;
    var b :=
      if IsRed(a.left) && IsRed(a.left.left) then
        var x := var rr := RotateRight(a); assert rr.Node?; rr.(color := Black);
        if x.right.Node? then x.(right := x.right.(color := Red)) else x
      else a;
    if IsRed(b.right) && IsRed(b.left) then FlipColors(b) else b
  }

  /** `llrbtree_node_move_red_left`: make the node black and its left child
      red; then borrow from the right sibling, by a double rotation when the
      sibling's left child is red, otherwise by colouring the sibling red.
      The C code dereferences the left child, so a present node must have
      one; an absent node is left alone. The subtree root can only move to
      a later position in key order. */
  function MoveRedLeft(t: Tree): (r: Tree)
    requires t.Node? ==> t.left.Node?
    ensures Inorder(r) == Inorder(t)
    ensures t.Node? ==> r.Node? && RootIndex(r) >= RootIndex(t)
    ensures t.Leaf? ==> r == t
  {
    if t.Leaf? then t
    else
      var r0 := t.(color := Black, left := t.left.(color := Red));
      if r0.right.Node? then
        if IsRed(r0.right.left) then RotateLeft(r0.(right := RotateRight(r0.right)))
        else r0.(right := r0.right.(color := Red))
      else r0
  }

  /** `llrbtree_node_move_red_right`: flip the colours; if the left child's
      left child is then red, rotate right and flip again. An absent node is
      left alone. The subtree root can only move to an earlier position in
      key order. */
  function MoveRedRight(t: Tree): (r: Tree)
    ensures Inorder(r) == Inorder(t)
    ensures t.Node? ==> r.Node? && RootIndex(r) <= RootIndex(t)
    ensures t.Leaf? ==> r == t
  {
    if t.Leaf? then t
    else
      var r0 := FlipColors(t);
      if r0.left.Node? && IsRed(r0.left.left) then FlipColors(RotateRight(r0)) else r0
  }

  /** Restructuring that keeps the in-order sequence keeps order and the
      represented map. */
  lemma SameInorder(a: Tree, b: Tree)
    requires Inorder(a) == Inorder(b)
    ensures Ordered(a) <==> Ordered(b)
    ensures Keys(a) == Keys(b) && Contents(a) == Contents(b)
  {
  }
}
