/**
 Deletion, `llrbtree_node_delete` and `llrbtree_delete`: a recursive
 descent that pushes a red link down ahead of itself (`MoveRedLeft`,
 `MoveRedRight`, a right rotation), removes a node with no right child
 directly, and otherwise swaps the doomed entry with its in-order successor
 and deletes that from the right subtree, rebalancing on the way back up.

 What is proved is the part the library relies on: on an ordered tree the
 call removes exactly the entry with the key (reporting it), or reports that
 the key is absent and keeps every entry, and the tree stays ordered.
 */
module Deletion {
  import opened Trees
  import opened Order
  import opened Primitives
  import Insertion

  /** The outcome of a delete: the new subtree, the status code the C function
      returns (0 on success, -6 when the key is absent) and the entry of the
      node handed back through `deleted`. */
  datatype DeleteResult = DeleteResult(tree: Tree, status: int, removed: Option<Entry>)

  /** The node the successor loop stops at: follow left links from `t`. */
  function Leftmost(t: Tree): (e: Entry)
    requires t.Node?
    ensures |Inorder(t)| > 0 && e == Inorder(t)[0]
  {
    if t.left.Leaf? then Entry(t.key, t.value) else Leftmost(t.left)
  }

  /** `t` with the key and value of its leftmost node replaced, as the swap
      with the successor leaves the right subtree. */
  function SetLeftmost(t: Tree, k: Int64, v: Int64): (r: Tree)
    requires t.Node?
    ensures r.Node?
    ensures Inorder(r) == [Entry(k, v)] + Inorder(t)[1..]
  {
    if t.left.Leaf? then
      assert Inorder(t) == [Entry(t.key, t.value)] + Inorder(t.right);
      t.(key := k, value := v)
    else
      var l := SetLeftmost(t.left, k, v);
      var r := t.(left := l);
      assert Inorder(r) == [Entry(k, v)] + (Inorder(t.left)[1..] + [Entry(t.key, t.value)] + Inorder(t.right));
      assert Inorder(t)[1..] == Inorder(t.left)[1..] + [Entry(t.key, t.value)] + Inorder(t.right);
      r
  }

  /** The node after the successor swap: it takes the successor's entry and
      its right subtree holds the doomed entry in the successor's place. */
  function Swapped(h: Tree): (r: Tree)
    requires h.Node? && h.right.Node?
    ensures r.Node? && r.left == h.left
    ensures Entry(r.key, r.value) == Inorder(h.right)[0]
    ensures Inorder(r.right) == [Entry(h.key, h.value)] + Inorder(h.right)[1..]
  {
    var m := Leftmost(h.right);
    h.(key := m.key, value := m.value, right := SetLeftmost(h.right, h.key, h.value))
  }

  /** `llrbtree_node_delete` on the subtree `h`. */
  function DeleteAt(h: Tree, key: Int64): (r: DeleteResult)
    ensures r.status == 0 || r.status == -6
    ensures r.status == 0 <==> r.removed.Some?
    ensures r.removed.Some? ==> r.removed.value.key == key
    decreases |Inorder(h)|
  {
    if h.Leaf? then DeleteResult(Leaf, -6, None)
    else if key < h.key then
      var h0 := if h.left.Node? && !IsRed(h.left) && !IsRed(h.left.left) then MoveRedLeft(h) else h;
      var d := DeleteAt(h0.left, key);
      DeleteResult(Balance(h0.(left := d.tree)), d.status, d.removed)
    else
      var h0 := if IsRed(h.left) then RotateRight(h) else h;
      if key == h0.key then
        if h0.right.Leaf? then DeleteResult(h0.left, 0, Some(Entry(h0.key, h0.value)))
        else
          var h1 := Swapped(h0);
          var d := DeleteAt(h1.right, key);
          DeleteResult(Balance(h1.(right := d.tree)), d.status, d.removed)
      else
        var h1 :=
          if h0.right.Node? && !IsRed(h0.right) && !IsRed(h0.right.left) then MoveRedRight(h0) else h0;
        var d := DeleteAt(h1.right, key);
        DeleteResult(Balance(h1.(right := d.tree)), d.status, d.removed)
  }

  /** What a delete of `key` from `h` must achieve, read off the in-order
      sequence: a present key is removed and its entry reported; an absent
      key leaves the entries as they were. */
  predicate Deleted(h: Tree, key: Int64, d: DeleteResult) {
    if key in Keys(h) then
      && d.status == 0
      && d.removed.Some? && d.removed.value.key == key && d.removed.value in Inorder(h)
      && Inorder(d.tree) == Without(Inorder(h), key)
    else
      && d.status == -6
      && d.removed == None
      && Inorder(d.tree) == Inorder(h)
  }

  /** Descending left from an ordered node: deleting from the left subtree
      deletes from the node. */
  lemma LeftStep(h: Tree, key: Int64, d: DeleteResult)
    requires h.Node? && Ordered(h) && key < h.key
    requires Deleted(h.left, key, d)
    ensures Deleted(h, key, DeleteResult(Balance(h.(left := d.tree)), d.status, d.removed))
  {
    LeftOfRoot(h, key);
    var r := Balance(h.(left := d.tree));
    assert Inorder(r) == Inorder(d.tree) + [Entry(h.key, h.value)] + Inorder(h.right);
    if d.removed.Some? {
      assert d.removed.value in Inorder(h);
    }
  }

  /** Descending right from an ordered node. */
  lemma RightStep(h: Tree, key: Int64, d: DeleteResult)
    requires h.Node? && Ordered(h) && h.key < key
    requires Deleted(h.right, key, d)
    ensures Deleted(h, key, DeleteResult(Balance(h.(right := d.tree)), d.status, d.removed))
  {
    RightOfRoot(h, key);
    var r := Balance(h.(right := d.tree));
    assert Inorder(r) == Inorder(h.left) + [Entry(h.key, h.value)] + Inorder(d.tree);
    if d.removed.Some? {
      assert d.removed.value in Inorder(h);
    }
  }

  /** The key sits at a node with no right child: the left child replaces it. */
  lemma RemoveStep(h: Tree, key: Int64)
    requires h.Node? && Ordered(h) && h.key == key && h.right.Leaf?
    ensures Deleted(h, key, DeleteResult(h.left, 0, Some(Entry(h.key, h.value))))
  {
    AtRoot(h);
    RootEntry(h);
  }

  /** After the successor swap the right subtree is ordered and starts with
      the doomed entry. */
  lemma SwappedOrdered(h: Tree)
    requires h.Node? && h.right.Node? && Ordered(h)
    ensures Ordered(Swapped(h).right)
    ensures h.key in Keys(Swapped(h).right)
    ensures Without(Inorder(Swapped(h).right), h.key) == Inorder(h.right)[1..]
  {
    assert Inorder(h) == Inorder(h.left) + [Entry(h.key, h.value)] + Inorder(h.right);
    SwapSeq(Inorder(h.left), Entry(h.key, h.value), Inorder(h.right));
  }

  /** The sequence form of the swap: in an ascending `l + [x] + s`, putting
      `x` in place of the first entry of `s` keeps the order, and removing
      `x.key` again leaves the rest of `s`. */
  lemma SwapSeq(l: seq<Entry>, x: Entry, s: seq<Entry>)
    requires |s| > 0 && Ascending(l + [x] + s)
    ensures Ascending([x] + s[1..])
    ensures x.key in KeysOf([x] + s[1..])
    ensures Without([x] + s[1..], x.key) == s[1..]
  {
    var w, tail := l + [x] + s, s[1..];
    var u := [x] + tail;
    forall i, j | 0 <= i < j < |u|
      ensures u[i].key < u[j].key
    {
      var i' := if i == 0 then |l| else |l| + 1 + i;
      assert u[i] == w[i'] && u[j] == w[|l| + 1 + j];
    }
    assert u[0] == x;
    SwapSeqWithout(x, tail);
  }

  lemma SwapSeqWithout(x: Entry, tail: seq<Entry>)
    requires Ascending([x] + tail)
    ensures Without([x] + tail, x.key) == tail
  {
    forall i | 0 <= i < |tail|
      ensures Keeps(Except, tail[i].key, x.key)
    {
      assert ([x] + tail)[0] == x && ([x] + tail)[i + 1] == tail[i];
    }
    SelectAppend([x], tail, x.key, Except);
    SelectSingle(x, x.key, Except);
    SelectAll(tail, x.key, Except);
    assert [] + tail == tail;
  }

  /** The successor swap: deleting the doomed entry from the swapped right
      subtree deletes it from the node. */
  lemma SwapStep(h: Tree, key: Int64, d: DeleteResult)
    requires h.Node? && h.right.Node? && Ordered(h) && h.key == key
    requires Deleted(Swapped(h).right, key, d)
    ensures Deleted(h, key, DeleteResult(Balance(Swapped(h).(right := d.tree)), d.status, d.removed))
  {
    SwappedOrdered(h);
    SwapRemoved(h, d);
    SwapTree(h, d);
    AtRoot(h);
    RootEntry(h);
  }

  /** The entry reported after the swap is the doomed one: it is the first,
      and only, entry with its key in the ordered right subtree. */
  lemma SwapRemoved(h: Tree, d: DeleteResult)
    requires h.Node? && h.right.Node? && Ordered(Swapped(h).right)
    requires d.removed.Some? && d.removed.value.key == h.key
    requires d.removed.value in Inorder(Swapped(h).right)
    ensures d.removed == Some(Entry(h.key, h.value))
  {
    var e := d.removed.value;
    var t := Inorder(Swapped(h).right);
    var i :| 0 <= i < |t| && t[i] == e;
    assert t[0] == Entry(h.key, h.value);
    assert i == 0;
  }

  /** After the swap, the node's entries are the old left and right subtrees'
      entries with the doomed one gone. */
  lemma SwapTree(h: Tree, d: DeleteResult)
    requires h.Node? && h.right.Node?
    requires Inorder(d.tree) == Inorder(h.right)[1..]
    ensures var h1 := Swapped(h);
      Inorder(h1.left) + [Entry(h1.key, h1.value)] + Inorder(d.tree) == Inorder(h.left) + Inorder(h.right)
  {
    var s := Inorder(h.right);
    assert s == [s[0]] + s[1..];
  }

  /** The recursion of `llrbtree_node_delete` meets `Deleted` on every ordered
      subtree, and keeps it ordered. */
  lemma {:induction false} DeleteAtCorrect(h: Tree, key: Int64)
    requires Ordered(h)
    ensures Deleted(h, key, DeleteAt(h, key))
    decreases |Inorder(h)|
  {
    if h.Leaf? {
      assert Inorder(h) == [];
    } else if key < h.key {
      var h0 := if h.left.Node? && !IsRed(h.left) && !IsRed(h.left.left) then MoveRedLeft(h) else h;
      RootKeyOrder(h, h0);
      SameInorder(h, h0);
      LeftOfRoot(h0, key);
      DeleteAtCorrect(h0.left, key);
      LeftStep(h0, key, DeleteAt(h0.left, key));
    } else {
      var h0 := if IsRed(h.left) then RotateRight(h) else h;
      SameInorder(h, h0);
      if key == h0.key {
        if h0.right.Leaf? {
          RemoveStep(h0, key);
        } else {
          SwappedOrdered(h0);
          DeleteAtCorrect(Swapped(h0).right, key);
          SwapStep(h0, key, DeleteAt(Swapped(h0).right, key));
        }
      } else {
        RootKeyOrder(h0, h);
        var h1 :=
          if h0.right.Node? && !IsRed(h0.right) && !IsRed(h0.right.left) then MoveRedRight(h0) else h0;
        RootKeyOrder(h1, h0);
        SameInorder(h0, h1);
        RightOfRoot(h1, key);
        DeleteAtCorrect(h1.right, key);
        RightStep(h1, key, DeleteAt(h1.right, key));
      }
    }
  }

  /** `llrbtree_delete`: an empty tree reports the key missing; a black root
      with no red child is painted red first, and a non-empty result gets a
      black root. */
  function Delete(root: Tree, key: Int64): (r: DeleteResult)
    ensures r.tree.Node? ==> r.tree.color == Black
    ensures root.Leaf? ==> r == DeleteResult(Leaf, -6, None)
  {
    if root.Leaf? then DeleteResult(Leaf, -6, None)
    else
      var h :=
        if root.color == Black && !IsRed(root.left) && !IsRed(root.right) then root.(color := Red) else root;
      var d := DeleteAt(h, key);
      if d.tree.Node? then d.(tree := d.tree.(color := Black)) else d
  }

  /** On an ordered tree `llrbtree_delete` removes exactly the entry with the
      key and reports it, or reports -6 and keeps every entry; either way
      the tree stays ordered. */
  lemma DeleteCorrect(t: Tree, key: Int64)
    requires Ordered(t)
    ensures Deleted(t, key, Delete(t, key))
    ensures Ordered(Delete(t, key).tree)
  {
    if t.Node? {
      var h :=
        if t.color == Black && !IsRed(t.left) && !IsRed(t.right) then t.(color := Red) else t;
      assert Inorder(h) == Inorder(t);
      DeleteAtCorrect(h, key);
      var d := DeleteAt(h, key);
      if key in Keys(t) {
        SelectAscending(Inorder(t), key, Except);
      }
      if d.tree.Node? {
        assert Inorder(d.tree.(color := Black)) == Inorder(d.tree);
      }
    }
  }

  /** The represented map loses exactly `key`, and the reported entry carries
      the value the map held for it. */
  lemma DeleteContents(t: Tree, key: Int64)
    requires Ordered(t)
    ensures Contents(Delete(t, key).tree) == Contents(t) - {key}
    ensures key in Contents(t) <==> Delete(t, key).status == 0
    ensures key in Contents(t) ==> Delete(t, key).removed == Some(Entry(key, Contents(t)[key]))
  {
    DeleteCorrect(t, key);
    var s, d := Inorder(t), Delete(t, key);
    MapOfKeys(s);
    if key in Keys(t) {
      MapOfWithout(s, key);
      var i :| 0 <= i < |s| && s[i] == d.removed.value;
      MapOfAscending(s, i);
    } else {
      assert MapOf(s) - {key} == MapOf(s);
    }
  }

  /** A present key costs exactly one entry; an absent one costs none. */
  lemma DeleteCount(t: Tree, key: Int64)
    requires Ordered(t)
    ensures |Inorder(Delete(t, key).tree)| == |Inorder(t)| - (if key in Keys(t) then 1 else 0)
  {
    DeleteCorrect(t, key);
    var s := Inorder(t);
    if key in Keys(t) {
      SelectCount(s, key);
      WithoutCount(s, key);
    }
  }

  /** Removing a key from any sequence leaves the entries below it and the
      entries above it. */
  lemma {:induction false} WithoutCount(s: seq<Entry>, k: Int64)
    ensures |Without(s, k)| == |Select(s, k, Below)| + |Select(s, k, Above)|
    decreases |s|
  {
    if |s| > 0 {
      WithoutCount(s[..|s| - 1], k);
    }
  }

  /** Deleting a key just inserted restores the entries of an ordered tree
      that did not hold it. */
  lemma DeleteAfterInsert(t: Tree, key: Int64, value: Int64)
    requires Ordered(t) && key !in Keys(t)
    ensures Contents(Delete(Insertion.Insert(t, key, value), key).tree) == Contents(t)
  {
    var m := Contents(t);
    var t2 := Insertion.Insert(t, key, value);
    assert Contents(t2) == m[key := value] && Ordered(t2) by {
      Insertion.InsertContents(t, key, value);
      Insertion.InsertOrdered(t, key, value);
    }
    assert Contents(Delete(t2, key).tree) == Contents(t2) - {key} by {
      DeleteContents(t2, key);
    }
    assert key !in m by {
      MapOfKeys(Inorder(t));
    }
    UpdateRemove(m, key, value);
  }

  lemma UpdateRemove(m: map<Int64, Int64>, k: Int64, v: Int64)
    requires k !in m
    ensures m[k := v] - {k} == m
  {
  }

  /** Deleting an absent key still restructures the tree: from the tree
      built by inserting 1, 2, 3, deleting 4 reports -6 and keeps every
      entry, but returns a different tree whose two sides differ in black
      height. */
  lemma DeleteAbsentReshapes()
    ensures var t := Insertion.Insert(Insertion.Insert(Insertion.Insert(Leaf, 1, 1), 2, 2), 3, 3);
      var d := Delete(t, 4);
      && d.status == -6 && d.removed == None
      && Inorder(d.tree) == Inorder(t)
      && d.tree != t
      && !Balanced(d.tree)
  {
    Insertion.InsertAscendingThree();
    var t := Node(Black, Node(Red, Leaf, 1, 1, Leaf), 2, 2, Node(Red, Leaf, 3, 3, Leaf));
    var n3 := Node(Red, Leaf, 3, 3, Leaf);
    assert DeleteAt(n3, 4) == DeleteResult(n3, -6, None);
    var n2 := Node(Red, Leaf, 2, 2, n3);
    var m := Node(Black, Node(Red, Leaf, 2, 2, Leaf), 3, 3, Leaf);
    assert DeleteAt(n2, 4) == DeleteResult(m, -6, None);
    assert RotateRight(t) == Node(Black, Leaf, 1, 1, n2);
    var r := Node(Black, Leaf, 1, 1, m);
    assert Delete(t, 4) == DeleteResult(r, -6, None);
    assert BlackHeight(r.left) != BlackHeight(r.right);
  }

  /** Deleting a present key can break black balance as well: the successor
      swap recurses right without first pushing a red link down, unlike the
      other right descent. From the valid tree built by inserting 0, 3, 2, 1,
      deleting 2 reports the entry but leaves a black left child beside an
      absent right one. */
  lemma DeletePresentUnbalances()
    ensures var t := Insertion.Insert(Insertion.Insert(Insertion.Insert(Insertion.Insert(Leaf, 0, 0), 3, 3), 2, 2), 1, 1);
      var d := Delete(t, 2);
      && ValidLlrb(t)
      && d.status == 0 && d.removed == Some(Entry(2, 2))
      && !Balanced(d.tree)
  {
    BuildFour();
    FourValid();
    DeleteTwo();
    var r := Node(Black, Node(Black, Node(Red, Leaf, 0, 0, Leaf), 1, 1, Leaf), 3, 3, Leaf);
    assert BlackHeight(r.left) != BlackHeight(r.right);
  }

  /** The tree inserting 0, 3, 2, 1 builds. */
  lemma BuildFour()
    ensures Insertion.Insert(Insertion.Insert(Insertion.Insert(Insertion.Insert(Leaf, 0, 0), 3, 3), 2, 2), 1, 1)
         == Node(Black, Node(Black, Node(Red, Leaf, 0, 0, Leaf), 1, 1, Leaf), 2, 2, Node(Black, Leaf, 3, 3, Leaf))
  {
    InsertZeroThree();
    InsertTwo();
    InsertOne();
  }

  /** Inserting 0 then 3: 3 becomes the black root with 0 as its red left child. */
  lemma InsertZeroThree()
    ensures Insertion.Insert(Insertion.Insert(Leaf, 0, 0), 3, 3) == Node(Black, Node(Red, Leaf, 0, 0, Leaf), 3, 3, Leaf)
  {
    assert Insertion.Insert(Leaf, 0, 0) == Node(Black, Leaf, 0, 0, Leaf);
    assert Insertion.InsertAt(Leaf, 3, 3) == Node(Red, Leaf, 3, 3, Leaf);
  }

  /** Inserting 2 next: two red links in a row are rotated and split. */
  lemma InsertTwo()
    ensures Insertion.Insert(Node(Black, Node(Red, Leaf, 0, 0, Leaf), 3, 3, Leaf), 2, 2)
         == Node(Black, Node(Red, Leaf, 0, 0, Leaf), 2, 2, Node(Red, Leaf, 3, 3, Leaf))
  {
    var t2 := Node(Black, Node(Red, Leaf, 0, 0, Leaf), 3, 3, Leaf);
    assert Insertion.InsertAt(Leaf, 2, 2) == Node(Red, Leaf, 2, 2, Leaf);
    assert Insertion.InsertAt(t2.left, 2, 2) == Node(Red, Node(Red, Leaf, 0, 0, Leaf), 2, 2, Leaf);
    assert Insertion.InsertAt(t2, 2, 2) == Node(Black, Node(Red, Leaf, 0, 0, Leaf), 2, 2, Node(Red, Leaf, 3, 3, Leaf));
  }

  /** Inserting 1 last: the root's two red children are flipped black. */
  lemma InsertOne()
    ensures Insertion.Insert(Node(Black, Node(Red, Leaf, 0, 0, Leaf), 2, 2, Node(Red, Leaf, 3, 3, Leaf)), 1, 1)
         == Node(Black, Node(Black, Node(Red, Leaf, 0, 0, Leaf), 1, 1, Leaf), 2, 2, Node(Black, Leaf, 3, 3, Leaf))
  {
    var t3 := Node(Black, Node(Red, Leaf, 0, 0, Leaf), 2, 2, Node(Red, Leaf, 3, 3, Leaf));
    assert Insertion.InsertAt(Leaf, 1, 1) == Node(Red, Leaf, 1, 1, Leaf);
    assert Insertion.InsertAt(Node(Black, Leaf, 0, 0, Leaf), 1, 1) == Node(Black, Node(Red, Leaf, 0, 0, Leaf), 1, 1, Leaf);
    assert Insertion.InsertAt(t3, 1, 1)
        == Node(Red, Node(Black, Node(Red, Leaf, 0, 0, Leaf), 1, 1, Leaf), 2, 2, Node(Black, Leaf, 3, 3, Leaf));
  }

  lemma FourValid()
    ensures ValidLlrb(Node(Black, Node(Black, Node(Red, Leaf, 0, 0, Leaf), 1, 1, Leaf), 2, 2, Node(Black, Leaf, 3, 3, Leaf)))
  {
    var t := Node(Black, Node(Black, Node(Red, Leaf, 0, 0, Leaf), 1, 1, Leaf), 2, 2, Node(Black, Leaf, 3, 3, Leaf));
    assert Inorder(t.left) == [Entry(0, 0), Entry(1, 1)];
    assert Inorder(t) == [Entry(0, 0), Entry(1, 1), Entry(2, 2), Entry(3, 3)];
  }

  /** Deleting 2 from that tree: the root is painted red, swapped with its
      successor 3, and the successor's old node is removed without a red
      link having been pushed down the right side. */
  lemma DeleteTwo()
    ensures Delete(Node(Black, Node(Black, Node(Red, Leaf, 0, 0, Leaf), 1, 1, Leaf), 2, 2, Node(Black, Leaf, 3, 3, Leaf)), 2)
         == DeleteResult(Node(Black, Node(Black, Node(Red, Leaf, 0, 0, Leaf), 1, 1, Leaf), 3, 3, Leaf), 0, Some(Entry(2, 2)))
  {
    var h := Node(Red, Node(Black, Node(Red, Leaf, 0, 0, Leaf), 1, 1, Leaf), 2, 2, Node(Black, Leaf, 3, 3, Leaf));
    var s := Node(Red, h.left, 3, 3, Node(Black, Leaf, 2, 2, Leaf));
    assert Swapped(h) == s;
    assert DeleteAt(s.right, 2) == DeleteResult(Leaf, 0, Some(Entry(2, 2)));
    assert Balance(s.(right := Leaf)) == s.(right := Leaf);
    assert DeleteAt(h, 2) == DeleteResult(s.(right := Leaf), 0, Some(Entry(2, 2)));
  }
}
