/**
 Top-down insertion (`llrbtree_node_insert` / `llrbtree_insert`): a node
 with two red children is split by a colour flip before the descent, and on
 the way back up a lone red right link is rotated left and two red left
 links in a row are rotated right. The outermost call paints the root black.
 Because the flip happens before descending and the left rotation needs a
 black left child, the trees built are 2-3-4 trees: a black node may carry
 two red children.
 */
module Insertion {
  import opened Trees
  import opened Order
  import opened Primitives

  /** Lines 74-76 of `src/llrbtree.c`: split a node whose children are both red. */
  function PreSplit(h: Tree): (r: Tree)
    requires h.Node?
    ensures r.Node? && r.key == h.key && r.value == h.value
    ensures Inorder(r) == Inorder(h)
    ensures Inorder(r.left) == Inorder(h.left) && Inorder(r.right) == Inorder(h.right)
  {
    if IsRed(h.right) && IsRed(h.left) then FlipColors(h) else h
  }

  /** Lines 84-89 of `src/llrbtree.c`: the two rotations applied on the way back up. */
  function FixUp(h: Tree): (r: Tree)
    requires h.Node?
    ensures r.Node?
    ensures Inorder(r) == Inorder(h)
  {
    var h2 := if IsRed(h.right) && !IsRed(h.left) then RotateLeft(h) else h;
    if IsRed(h2.left) && IsRed(h2.left.left) then RotateRight(h2) else h2
  }

  /** `llrbtree_node_insert`: insert below `h`; an equal key only has its
      value overwritten. Allocation is taken to succeed. The key is present
      afterwards, whether or not the tree is ordered. */
  function InsertAt(h: Tree, key: Int64, value: Int64): (r: Tree)
    ensures r.Node?
    ensures key in Keys(r)
    decreases |Inorder(h)|
  {
    if h.Leaf? then
      var n := NewNode(key, value, Red);
      assert Entry(key, value) in Inorder(n);
      n
    else
      var h0 := PreSplit(h);
      var h1 :=
        if key < h0.key then h0.(left := InsertAt(h0.left, key, value))
        else if key > h0.key then h0.(right := InsertAt(h0.right, key, value))
        else h0.(value := value);
      assert key in Keys(h1) by {
        KeysOfNode(h1);
      }
      FixUp(h1)
  }

  /** On an ordered tree, insertion places the new entry between the entries
      with smaller keys and those with larger keys, dropping any entry that
      had the same key. */
  lemma {:induction false} InsertAtInorder(h: Tree, key: Int64, value: Int64)
    requires Ordered(h)
    ensures Inorder(InsertAt(h, key, value))
         == Select(Inorder(h), key, Below) + [Entry(key, value)] + Select(Inorder(h), key, Above)
    decreases |Inorder(h)|, 1
  {
    if h.Leaf? {
      assert Inorder(InsertAt(h, key, value)) == [Entry(key, value)];
    } else {
      var h0 := PreSplit(h);
      SameInorder(h, h0);
      if key < h0.key {
        InsertLeftInorder(h, key, value);
      } else if key > h0.key {
        InsertRightInorder(h, key, value);
      } else {
        assert Inorder(InsertAt(h, key, value)) == Inorder(h0.left) + [Entry(key, value)] + Inorder(h0.right) by {
          assert InsertAt(h, key, value) == FixUp(h0.(value := value));
        }
        AtRoot(h0);
      }
    }
  }

  lemma {:induction false} InsertLeftInorder(h: Tree, key: Int64, value: Int64)
    requires h.Node? && Ordered(h) && key < h.key
    ensures Inorder(InsertAt(h, key, value))
         == Select(Inorder(h), key, Below) + [Entry(key, value)] + Select(Inorder(h), key, Above)
    decreases |Inorder(h)|, 0
  {
    var e := Entry(key, value);
    var h0 := PreSplit(h);
    var x := Entry(h0.key, h0.value);
    SameInorder(h, h0);
    var l' := InsertAt(h0.left, key, value);
    assert Inorder(InsertAt(h, key, value)) == Inorder(l') + [x] + Inorder(h0.right) by {
      assert InsertAt(h, key, value) == FixUp(h0.(left := l'));
    }
    var L, R := Inorder(h0.left), Inorder(h0.right);
    var lb, la := Select(L, key, Below), Select(L, key, Above);
    assert Select(Inorder(h), key, Below) == lb
        && Select(Inorder(h), key, Above) == la + [x] + R by {
      LeftOfRoot(h0, key);
    }
    assert Inorder(l') == lb + [e] + la by {
      LeftOfRoot(h0, key);
      InsertAtInorder(h0.left, key, value);
    }
    Regroup(lb, [e], la, [x], R);
  }

  lemma Regroup(a: seq<Entry>, b: seq<Entry>, c: seq<Entry>, d: seq<Entry>, f: seq<Entry>)
    ensures (a + b + c) + d + f == a + b + (c + d + f)
    ensures a + b + (c + d + f) == (a + b + c) + d + f
    ensures (a + b + c) + d + f == (a + b) + c + (d + f)
  {
  }

  lemma {:induction false} InsertRightInorder(h: Tree, key: Int64, value: Int64)
    requires h.Node? && Ordered(h) && key > h.key
    ensures Inorder(InsertAt(h, key, value))
         == Select(Inorder(h), key, Below) + [Entry(key, value)] + Select(Inorder(h), key, Above)
    decreases |Inorder(h)|, 0
  {
    var e := Entry(key, value);
    var h0 := PreSplit(h);
    var x := Entry(h0.key, h0.value);
    SameInorder(h, h0);
    var r' := InsertAt(h0.right, key, value);
    assert Inorder(InsertAt(h, key, value)) == Inorder(h0.left) + [x] + Inorder(r') by {
      assert InsertAt(h, key, value) == FixUp(h0.(right := r'));
    }
    var L, R := Inorder(h0.left), Inorder(h0.right);
    var rb, ra := Select(R, key, Below), Select(R, key, Above);
    assert Select(Inorder(h), key, Below) == L + [x] + rb
        && Select(Inorder(h), key, Above) == ra by {
      RightOfRoot(h0, key);
    }
    assert Inorder(r') == rb + [e] + ra by {
      RightOfRoot(h0, key);
      InsertAtInorder(h0.right, key, value);
    }
    Regroup(L, [x], rb, [e], ra);
  }

  /** What one level of insertion does to the red-black shape of a subtree
      `h` that had the shape: black height and left-leaning are kept and the
      children of the result have no red-red link; a black (or absent) `h`
      yields a result with no red-red link at all, which stays black unless
      `h` was a black node with two red children; a red `h` yields a red
      result whose right child is black and which may have a red left child
      for the caller to rotate away. */
  predicate InsertedShape(h: Tree, r: Tree) {
    && r.Node?
    && Balanced(r) && BlackHeight(r) == BlackHeight(h)
    && LeansLeft(r)
    && NoRedRed(r.left) && NoRedRed(r.right)
    && (!IsRed(h) ==> NoRedRed(r))
    && (h.Node? && !IsRed(h) && !(IsRed(h.left) && IsRed(h.right)) ==> !IsRed(r))
    && (IsRed(h) ==> IsRed(r) && !IsRed(r.right))
  }

  /** Splitting a 4-node (a black node with two red children) before the
      descent leaves a red node with two black children, each of which has
      no red child. */
  lemma PreSplitShape(h: Tree)
    requires h.Node? && Shape(h) && IsRed(h.left) && IsRed(h.right)
    ensures var f := PreSplit(h);
      && f == FlipColors(h)
      && IsRed(f) && !IsRed(h)
      && !IsRed(f.left) && !IsRed(f.right)
      && !IsRed(f.left.left) && !IsRed(f.left.right)
      && !IsRed(f.right.left) && !IsRed(f.right.right)
      && Shape(f.left) && Shape(f.right)
      && BlackHeight(f.left) == BlackHeight(f.right) == BlackHeight(h)
  {
    var f := FlipColors(h);
    var l, r := h.left, h.right;
    assert NoRedRed(h) && NoRedRed(l) && NoRedRed(r);
    assert h.color == Black;
    assert !IsRed(l.left) && !IsRed(l.right) && !IsRed(r.left) && !IsRed(r.right);
    assert f.color == Red;
    assert f.left == l.(color := Black) && f.right == r.(color := Black);
    assert Balanced(l) && Balanced(r) && LeansLeft(l) && LeansLeft(r);
    assert BlackHeight(f.left) == BlackHeight(l.left) + 1 == BlackHeight(l) + 1;
    assert BlackHeight(f.right) == BlackHeight(r.left) + 1 == BlackHeight(r) + 1;
  }

  /** The left rotation of the fix-up, applied to a node whose right child
      is red and whose left child is not. */
  lemma FixUpRotateLeft(h: Tree)
    requires h.Node? && IsRed(h.right) && !IsRed(h.left)
    requires Balanced(h.left) && Balanced(h.right) && BlackHeight(h.left) == BlackHeight(h.right)
    requires LeansLeft(h.left) && LeansLeft(h.right)
    requires NoRedRed(h.left) && NoRedRed(h.right)
    ensures var r := FixUp(h);
      && r.Node? && r.color == h.color && IsRed(r.left) && !IsRed(r.right)
      && Balanced(r) && BlackHeight(r) == BlackHeight(h)
      && LeansLeft(r) && NoRedRed(r.left) && NoRedRed(r.right)
  {
    var b := h.right;
    var a := Node(Red, h.left, h.key, h.value, b.left);
    assert FixUp(h) == Node(h.color, a, b.key, b.value, b.right);
  }

  /** The right rotation of the fix-up, applied to a node whose left child
      and left-left grandchild are red. */
  lemma FixUpRotateRight(h: Tree)
    requires h.Node? && !IsRed(h.right) && IsRed(h.left) && IsRed(h.left.left)
    requires !IsRed(h.left.right)
    requires Balanced(h.left) && Balanced(h.right) && BlackHeight(h.left) == BlackHeight(h.right)
    requires LeansLeft(h.left) && LeansLeft(h.right)
    requires NoRedRed(h.left.left) && NoRedRed(h.left.right) && NoRedRed(h.right)
    ensures var r := FixUp(h);
      && r.Node? && r.color == h.color && IsRed(r.left) && IsRed(r.right)
      && Balanced(r) && BlackHeight(r) == BlackHeight(h)
      && LeansLeft(r) && NoRedRed(r.left) && NoRedRed(r.right)
  {
    var b := h.left;
    var a := Node(Red, b.right, h.key, h.value, h.right);
    assert FixUp(h) == Node(h.color, b.left, b.key, b.value, a);
  }

  /** When neither rotation applies the fix-up changes nothing. */
  lemma FixUpNone(h: Tree)
    requires h.Node?
    requires !(IsRed(h.right) && !IsRed(h.left))
    requires !(IsRed(h.left) && IsRed(h.left.left))
    ensures FixUp(h) == h
  {
  }

  /** Insertion into a subtree with the red-black shape, one recursion level
      at a time (see `InsertedShape`). */
  lemma {:induction false} InsertAtShape(h: Tree, key: Int64, value: Int64)
    requires Shape(h)
    ensures InsertedShape(h, InsertAt(h, key, value))
    decreases |Inorder(h)|, 1
  {
    if h.Leaf? {
      var r := InsertAt(h, key, value);
      assert r == NewNode(key, value, Red);
    } else if IsRed(h.left) && IsRed(h.right) {
      InsertSplitShape(h, key, value);
    } else if IsRed(h) {
      InsertRedShape(h, key, value);
    } else {
      InsertBlackShape(h, key, value);
    }
  }

  /** Insertion below a 4-node, which is split first. */
  lemma {:induction false} InsertSplitShape(h: Tree, key: Int64, value: Int64)
    requires h.Node? && Shape(h) && IsRed(h.left) && IsRed(h.right)
    ensures InsertedShape(h, InsertAt(h, key, value))
    decreases |Inorder(h)|, 0
  {
    var h0 := PreSplit(h);
    PreSplitShape(h);
    if key < h0.key {
      var c' := InsertAt(h0.left, key, value);
      InsertAtShape(h0.left, key, value);
      var h1 := h0.(left := c');
      assert InsertAt(h, key, value) == FixUp(h1);
      FixUpNone(h1);
    } else if key > h0.key {
      var c' := InsertAt(h0.right, key, value);
      InsertAtShape(h0.right, key, value);
      var h1 := h0.(right := c');
      assert InsertAt(h, key, value) == FixUp(h1);
      FixUpNone(h1);
    } else {
      var h1 := h0.(value := value);
      assert InsertAt(h, key, value) == FixUp(h1);
      FixUpNone(h1);
    }
  }

  /** Insertion below a red node, whose children are both black. */
  lemma {:induction false} InsertRedShape(h: Tree, key: Int64, value: Int64)
    requires h.Node? && Shape(h) && IsRed(h)
    ensures InsertedShape(h, InsertAt(h, key, value))
    decreases |Inorder(h)|, 0
  {
    assert PreSplit(h) == h;
    if key < h.key {
      var c' := InsertAt(h.left, key, value);
      InsertAtShape(h.left, key, value);
      var h1 := h.(left := c');
      assert InsertAt(h, key, value) == FixUp(h1);
      FixUpNone(h1);
    } else if key > h.key {
      var c' := InsertAt(h.right, key, value);
      InsertAtShape(h.right, key, value);
      var h1 := h.(right := c');
      assert InsertAt(h, key, value) == FixUp(h1);
      if IsRed(c') {
        FixUpRotateLeft(h1);
      } else {
        FixUpNone(h1);
      }
    } else {
      var h1 := h.(value := value);
      assert InsertAt(h, key, value) == FixUp(h1);
      FixUpNone(h1);
    }
  }

  /** Insertion below a black node that is not a 4-node. */
  lemma {:induction false} InsertBlackShape(h: Tree, key: Int64, value: Int64)
    requires h.Node? && Shape(h) && !IsRed(h) && !(IsRed(h.left) && IsRed(h.right))
    ensures InsertedShape(h, InsertAt(h, key, value))
    decreases |Inorder(h)|, 0
  {
    assert PreSplit(h) == h;
    if key < h.key {
      var c' := InsertAt(h.left, key, value);
      InsertAtShape(h.left, key, value);
      var h1 := h.(left := c');
      assert InsertAt(h, key, value) == FixUp(h1);
      if IsRed(h.left) && IsRed(c'.left) {
        FixUpRotateRight(h1);
      } else {
        FixUpNone(h1);
      }
    } else if key > h.key {
      var c' := InsertAt(h.right, key, value);
      InsertAtShape(h.right, key, value);
      var h1 := h.(right := c');
      assert InsertAt(h, key, value) == FixUp(h1);
      assert NoRedRed(h.left) && (IsRed(h.left) ==> !IsRed(h.left.left));
      if IsRed(c') && !IsRed(h.left) {
        FixUpRotateLeft(h1);
      } else {
        FixUpNone(h1);
      }
    } else {
      var h1 := h.(value := value);
      assert InsertAt(h, key, value) == FixUp(h1);
      assert NoRedRed(h.left) && (IsRed(h.left) ==> !IsRed(h.left.left));
      FixUpNone(h1);
    }
  }

  /** `llrbtree_insert`: insert below the root, then paint the root black.
      The call always succeeds once allocation is taken to succeed. */
  function Insert(root: Tree, key: Int64, value: Int64): (r: Tree)
    ensures r.Node? && r.color == Black
    ensures key in Keys(r)
  {
    var n := InsertAt(root, key, value);
    assert Inorder(n.(color := Black)) == Inorder(n);
    n.(color := Black)
  }

  /** On an ordered tree the in-order sequence after insertion is the old
      one with the new entry spliced in at its place, so the tree stays
      ordered. */
  lemma InsertOrdered(t: Tree, key: Int64, value: Int64)
    requires Ordered(t)
    ensures Inorder(Insert(t, key, value))
         == Select(Inorder(t), key, Below) + [Entry(key, value)] + Select(Inorder(t), key, Above)
    ensures Ordered(Insert(t, key, value))
  {
    var s := Inorder(t);
    InsertAtInorder(t, key, value);
    var b, a := Select(s, key, Below), Select(s, key, Above);
    SelectAscending(s, key, Below);
    SelectAscending(s, key, Above);
    SelectMembers(s, key, Below);
    SelectMembers(s, key, Above);
    AscendingJoin(b, Entry(key, value), a);
  }

  /** Insertion updates the represented map at `key` to `value` and leaves
      every other key alone. */
  lemma InsertContents(t: Tree, key: Int64, value: Int64)
    requires Ordered(t)
    ensures Contents(Insert(t, key, value)) == Contents(t)[key := value]
  {
    InsertOrdered(t, key, value);
    MapOfSplice(Inorder(t), Entry(key, value));
  }

  /** A new key adds exactly one node; a key already present only has its
      value overwritten, and the node count is unchanged. */
  lemma InsertCount(t: Tree, key: Int64, value: Int64)
    requires Ordered(t)
    ensures |Inorder(Insert(t, key, value))| == |Inorder(t)| + (if key in Keys(t) then 0 else 1)
  {
    InsertOrdered(t, key, value);
    SelectCount(Inorder(t), key);
  }

  /** Insertion into a valid tree (ordered, 2-3-4 left-leaning red-black
      shape, black root) yields a valid tree. */
  lemma InsertValid(t: Tree, key: Int64, value: Int64)
    requires ValidLlrb(t)
    ensures ValidLlrb(Insert(t, key, value))
  {
    InsertOrdered(t, key, value);
    InsertAtShape(t, key, value);
    var n := InsertAt(t, key, value);
    var r := Insert(t, key, value);
    assert r == n.(color := Black);
    assert Inorder(r) == Inorder(n);
  }

  /** Inserting 1, 2, 3 in that order into an empty tree leaves a black
      root with two red children: a 4-node, which a 2-3 reading of the
      left-leaning rules would not allow. */
  lemma InsertAscendingThree()
    ensures var t := Insert(Insert(Insert(Leaf, 1, 1), 2, 2), 3, 3);
      && t.key == 2 && t.color == Black
      && IsRed(t.left) && t.left.key == 1
      && IsRed(t.right) && t.right.key == 3
    ensures Insert(Insert(Insert(Leaf, 1, 1), 2, 2), 3, 3)
         == Node(Black, Node(Red, Leaf, 1, 1, Leaf), 2, 2, Node(Red, Leaf, 3, 3, Leaf))
  {
    var t1 := Insert(Leaf, 1, 1);
    assert t1 == Node(Black, Leaf, 1, 1, Leaf);
    var t2 := Insert(t1, 2, 2);
    assert InsertAt(t1.right, 2, 2) == Node(Red, Leaf, 2, 2, Leaf);
    assert t2 == Node(Black, Node(Red, Leaf, 1, 1, Leaf), 2, 2, Leaf);
    var t3 := Insert(t2, 3, 3);
    assert InsertAt(t2.right, 3, 3) == Node(Red, Leaf, 3, 3, Leaf);
    assert t3 == Node(Black, Node(Red, Leaf, 1, 1, Leaf), 2, 2, Node(Red, Leaf, 3, 3, Leaf));
  }
}
