/**
 Lookup, `llrbtree_search`: an iterative descent from the root. The loop body
 of the C code tests `key < curr->key` and `key > curr->key` in two separate
 `if`s, so a step to the left is followed at once by a comparison against
 the new node, which is read through a null pointer when the left child is
 absent. The model keeps that outcome as `NullDeref`, shows that it happens
 on a valid one-node tree, and gives the guarded descent the code evidently
 intends, proved correct on ordered trees.
 */
module Search {
  import opened Trees
  import opened Order
  import Primitives

  /** How a search ends: the node holding the key (status 0), an empty tree
      (status -1), a key not in the tree (status -6), or a read through a
      null pointer, which has no status because the C code does not return. */
  datatype SearchResult = Found(node: Tree) | NoTree | NotFound | NullDeref

  /** The status code `llrbtree_search` returns; a null dereference returns
      none. */
  function Status(r: SearchResult): (code: Option<int>)
    ensures code.None? <==> r.NullDeref?
    ensures code == Some(0) <==> r.Found?
    ensures code == Some(-1) <==> r.NoTree?
    ensures code == Some(-6) <==> r.NotFound?
  {
    match r
    case Found(_) => Some(0)
    case NoTree => Some(-1)
    case NotFound => Some(-6)
    case NullDeref => None
  }

  /** The do-while loop of `llrbtree_search` entered at the present node `c`,
      one iteration per call: the equality test, a step left, then a test
      against whatever `curr` now is, a step right, and the loop condition. */
  function Walk(c: Tree, key: Int64): (r: SearchResult)
    requires c.Node?
    ensures r != NoTree
    ensures r.Found? ==> r.node.Node? && r.node.key == key
    decreases c
  {
    if key == c.key then Found(c)
    else
      var c1 := if key < c.key then c.left else c;
      if c1.Leaf? then NullDeref
      else
        var c2 := if key > c1.key then c1.right else c1;
        if c2.Leaf? then NotFound else Walk(c2, key)
  }

  /** The outcome of `llrbtree_search` on the tree `t`: -1 exactly for the
      null tree, and a reported node holds the key. */
  function SearchOutcome(t: Tree, key: Int64): (r: SearchResult)
    ensures r == NoTree <==> t.Leaf?
    ensures r.Found? ==> r.node.Node? && r.node.key == key
  {
    if t.Leaf? then NoTree else Walk(t, key)
  }

  /** `llrbtree_search` as the loop it is. */
  method SearchLoop(t: Tree, key: Int64) returns (r: SearchResult)
    ensures r == SearchOutcome(t, key)
    ensures r.Found? ==> r.node.Node? && r.node.key == key
  {
    if t.Leaf? {
      return NoTree;
    }
    var curr := t;
    while true
      invariant curr.Node?
      invariant Walk(curr, key) == Walk(t, key)
      decreases curr
    {
      if key == curr.key {
        return Found(curr);
      }
      if key < curr.key {
        curr := curr.left;
        if curr.Leaf? {
          return NullDeref;
        }
      }
      if key > curr.key {
        curr := curr.right;
      }
      if curr.Leaf? {
        return NotFound;
      }
    }
  }

  /** A node the walk reports holds the key and is an entry of the tree. */
  lemma {:induction false} WalkSound(c: Tree, key: Int64)
    requires c.Node?
    ensures Walk(c, key) != NoTree
    ensures Walk(c, key).Found? ==>
      var n := Walk(c, key).node;
      n.Node? && n.key == key && Entry(n.key, n.value) in Inorder(c)
    decreases c
  {
    if key != c.key {
      var c1 := if key < c.key then c.left else c;
      if c1.Node? {
        var c2 := if key > c1.key then c1.right else c1;
        if c2.Node? {
          WalkSound(c2, key);
          assert forall e :: e in Inorder(c2) ==> e in Inorder(c1);
          assert forall e :: e in Inorder(c1) ==> e in Inorder(c);
        }
      }
    }
  }

  /** On an ordered tree the walk finds every key the tree holds. */
  lemma {:induction false} WalkComplete(c: Tree, key: Int64)
    requires c.Node? && Ordered(c) && key in Keys(c)
    ensures Walk(c, key).Found?
    decreases c
  {
    if key != c.key {
      var c1 := if key < c.key then c.left else c;
      if key < c.key {
        LeftOfRoot(c, key);
      }
      assert c1.Node? && Ordered(c1) && key in Keys(c1) by {
        if c1 == c.left {
          KeysOfNode(c);
        }
      }
      var c2 := if key > c1.key then c1.right else c1;
      if key > c1.key {
        RightOfRoot(c1, key);
        KeysOfNode(c1);
      }
      WalkComplete(c2, key);
    }
  }

  /** A key the walk reports is a key of the tree. */
  lemma WalkFoundKey(c: Tree, key: Int64)
    requires c.Node?
    ensures Walk(c, key).Found? ==> key in Keys(c)
  {
    WalkSound(c, key);
    var r := Walk(c, key);
    if r.Found? {
      var e := Entry(r.node.key, r.node.value);
      assert e in Inorder(c) && e.key == key;
    }
  }

  /** On an ordered tree `llrbtree_search` reports success exactly for the
      keys the tree holds, with the node that holds the key; in particular
      a present key never reaches the null dereference. */
  lemma SearchCorrect(t: Tree, key: Int64)
    requires Ordered(t)
    ensures SearchOutcome(t, key).Found? ==> key in Keys(t)
    ensures key in Keys(t) ==> SearchOutcome(t, key).Found?
    ensures SearchOutcome(t, key).Found? ==>
      var n := SearchOutcome(t, key).node;
      n.Node? && n.key == key && Entry(n.key, n.value) in Inorder(t)
    ensures SearchOutcome(t, key) == NoTree <==> t.Leaf?
    ensures Status(SearchOutcome(t, key)) == Some(-1) <==> t.Leaf?
  {
    if t.Node? {
      WalkSound(t, key);
      WalkFoundKey(t, key);
      if key in Keys(t) {
        WalkComplete(t, key);
      }
    }
  }

  /** A valid one-entry tree and a smaller key: the walk steps left onto the
      absent child and then reads its key. */
  lemma SearchLeftOfLeafDerefs()
    ensures ValidLlrb(Primitives.Init(5, 0))
    ensures SearchOutcome(Primitives.Init(5, 0), 3) == NullDeref
  {
    assert Primitives.Init(5, 0) == Node(Black, Leaf, 5, 0, Leaf);
  }

  /** The descent the code evidently intends: go left or right by one
      comparison per node and stop at an absent child. */
  function GuardedWalk(c: Tree, key: Int64): SearchResult
    decreases c
  {
    if c.Leaf? then NotFound
    else if key == c.key then Found(c)
    else if key < c.key then GuardedWalk(c.left, key)
    else GuardedWalk(c.right, key)
  }

  /** Whether the guarded descent for `key` leaves the tree through an
      absent left child (rather than an absent right child or a match). */
  function LeavesLeft(c: Tree, key: Int64): bool
    decreases c
  {
    if c.Leaf? || key == c.key then false
    else if key < c.key then c.left.Leaf? || LeavesLeft(c.left, key)
    else LeavesLeft(c.right, key)
  }

  /** For a key the tree does not hold, the loop as written reads through a
      null pointer exactly when the descent ends by stepping left off the
      tree, and reports -6 exactly when it ends by stepping right. */
  lemma {:induction false} WalkAbsent(c: Tree, key: Int64)
    requires c.Node? && key !in Keys(c)
    ensures Walk(c, key) == (if LeavesLeft(c, key) then NullDeref else NotFound)
    decreases c
  {
    KeysOfNode(c);
    if key < c.key {
      var c1 := c.left;
      if c1.Node? {
        KeysOfNode(c1);
        if key > c1.key {
          assert LeavesLeft(c, key) == LeavesLeft(c1.right, key);
          if c1.right.Node? {
            WalkAbsent(c1.right, key);
          }
        } else {
          WalkAbsent(c1, key);
        }
      }
    } else if c.right.Node? {
      WalkAbsent(c.right, key);
    }
  }

  lemma {:induction false} SearchAbsent(t: Tree, key: Int64)
    requires t.Node? && key !in Keys(t)
    ensures SearchOutcome(t, key) == NullDeref <==> LeavesLeft(t, key)
    ensures SearchOutcome(t, key) == NotFound <==> !LeavesLeft(t, key)
    ensures Status(SearchOutcome(t, key)) == Some(-6) <==> !LeavesLeft(t, key)
  {
    WalkAbsent(t, key);
  }

  /** `llrbtree_search` with the second test made an `else if`. */
  function GuardedSearch(t: Tree, key: Int64): SearchResult {
    if t.Leaf? then NoTree else GuardedWalk(t, key)
  }

  /** The guarded search never dereferences a null pointer and, on an ordered
      tree, reports success exactly for the keys the tree holds. */
  lemma {:induction false} GuardedWalkCorrect(c: Tree, key: Int64)
    requires Ordered(c)
    ensures GuardedWalk(c, key) != NullDeref && GuardedWalk(c, key) != NoTree
    ensures GuardedWalk(c, key).Found? <==> key in Keys(c)
    ensures GuardedWalk(c, key).Found? ==>
      var n := GuardedWalk(c, key).node;
      n.Node? && n.key == key && Entry(n.key, n.value) in Inorder(c)
    decreases c
  {
    if c.Node? {
      KeysOfNode(c);
      if key < c.key {
        LeftOfRoot(c, key);
        GuardedWalkCorrect(c.left, key);
      } else if key > c.key {
        RightOfRoot(c, key);
        GuardedWalkCorrect(c.right, key);
      } else {
        RootEntry(c);
      }
    } else {
      assert Inorder(c) == [];
    }
  }

  lemma GuardedSearchCorrect(t: Tree, key: Int64)
    requires Ordered(t)
    ensures GuardedSearch(t, key) != NullDeref
    ensures GuardedSearch(t, key) == NoTree <==> t.Leaf?
    ensures GuardedSearch(t, key).Found? <==> key in Keys(t)
  {
    GuardedWalkCorrect(t, key);
  }

  /** Wherever the original walk does not crash it agrees with the guarded
      one, on any tree: the fix changes nothing but the crash. */
  lemma {:induction false} WalkAgrees(c: Tree, key: Int64)
    requires c.Node? && Walk(c, key) != NullDeref
    ensures Walk(c, key) == GuardedWalk(c, key)
    decreases c
  {
    if key < c.key {
      var c1 := c.left;
      assert GuardedWalk(c, key) == GuardedWalk(c1, key);
      if key > c1.key {
        assert GuardedWalk(c1, key) == GuardedWalk(c1.right, key);
        if c1.right.Node? {
          WalkAgrees(c1.right, key);
        }
      } else {
        WalkAgrees(c1, key);
      }
    } else if key > c.key {
      if c.right.Node? {
        WalkAgrees(c.right, key);
      }
    }
  }

  lemma SearchAgrees(t: Tree, key: Int64)
    requires SearchOutcome(t, key) != NullDeref
    ensures SearchOutcome(t, key) == GuardedSearch(t, key)
  {
    if t.Node? {
      WalkAgrees(t, key);
    }
  }
}
