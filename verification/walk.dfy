/**
 The growable node buffer `llrbtree_array_t` with `llrbtree_array_push` and
 `llrbtree_array_pop`, and the level-order walk that `llrbtree_bfs` and
 `llrbtree_free` share: two buffers hold the current depth and the next one;
 each outer round visits the current depth left to right, pushing each
 node's present children into the other buffer, then the buffers swap.
 */
module LevelOrder {
  import opened Trees

  /** `llrbtree_array_t`: `items` is `buf[0 .. length)`, `size` the capacity. */
  datatype Buffer = Buffer(items: seq<Tree>, size: nat)

  /** The buffer's standing invariant: it never holds more than its capacity,
      and the capacity is never zero (doubling zero would not grow it). */
  predicate Valid(b: Buffer) {
    0 < b.size && |b.items| <= b.size
  }

  /** A fresh buffer with room for 16 nodes, as both walks allocate. */
  const Fresh := Buffer([], 16)

  datatype PushResult = PushResult(buffer: Buffer, status: int)

  /** `llrbtree_array_push`: a full buffer first doubles its capacity; if
      the reallocation fails (`reallocFails`), the buffer is left as it was
      and -2 returned. Then the node goes in at index `length`. */
  function Push(b: Buffer, n: Tree, reallocFails: bool): (r: PushResult)
    requires Valid(b)
    ensures Valid(r.buffer)
    ensures r.status == 0 ==> r.buffer.items == b.items + [n]
    ensures r.status == 0 ==>
      r.buffer.size == if |b.items| == b.size then 2 * b.size else b.size
    ensures r.status != 0 ==> r.status == -2 && r.buffer == b
    ensures r.status != 0 <==> |b.items| == b.size && reallocFails
  {
    var b0 :=
      if |b.items| == b.size then
        if reallocFails then b else b.(size := 2 * b.size)
      else b;
    if |b.items| == b.size && reallocFails then PushResult(b, -2)
    else PushResult(b0.(items := b0.items + [n]), 0)
  }

  datatype PopResult = PopResult(buffer: Buffer, node: Tree, status: int)

  /** `llrbtree_array_pop`: an empty buffer yields a null node and -10;
      otherwise the node at index `length - 1` is taken off. */
  function Pop(b: Buffer): (r: PopResult)
    ensures r.buffer.size == b.size
    ensures |b.items| == 0 ==> r == PopResult(b, Leaf, -10)
    ensures |b.items| > 0 ==>
      r.status == 0 && r.buffer.items + [r.node] == b.items
  {
    if |b.items| == 0 then PopResult(b, Leaf, -10)
    else PopResult(b.(items := b.items[..|b.items| - 1]), b.items[|b.items| - 1], 0)
  }

  /** Popping right after a successful push gives back the pushed node and
      the buffer's old contents. */
  lemma PopAfterPush(b: Buffer, n: Tree)
    requires Valid(b)
    ensures var p := Pop(Push(b, n, false).buffer);
      p.status == 0 && p.node == n && p.buffer.items == b.items
  {
    var q := Push(b, n, false).buffer;
    assert q.items == b.items + [n];
    assert q.items[..|q.items| - 1] == b.items;
  }

  /** The present nodes at depth `d` below `t`, left to right. */
  function Level(t: Tree, d: nat): seq<Tree> {
    if t.Leaf? then []
    else if d == 0 then [t]
    else Level(t.left, d - 1) + Level(t.right, d - 1)
  }

  /** The number of depths that hold a node. */
  function Height(t: Tree): nat {
    if t.Leaf? then 0
    else 1 + (if Height(t.left) < Height(t.right) then Height(t.right) else Height(t.left))
  }

  /** What one visit pushes: the node's present children, left first. */
  function Kids(t: Tree): seq<Tree> {
    if t.Leaf? then []
    else (if t.left.Node? then [t.left] else []) + (if t.right.Node? then [t.right] else [])
  }

  /** Everything one round pushes while visiting `s` in order. */
  function Children(s: seq<Tree>): seq<Tree> {
    if |s| == 0 then [] else Kids(s[0]) + Children(s[1..])
  }

  predicate AllNodes(s: seq<Tree>) {
    forall i :: 0 <= i < |s| ==> s[i].Node?
  }

  /** The entries a round reports for the nodes of `s`, in order. */
  function Entries(s: seq<Tree>): seq<Entry> {
    if |s| == 0 then []
    else Entries(s[..|s| - 1]) + Label(s[|s| - 1])
  }

  function Label(t: Tree): seq<Entry> {
    if t.Leaf? then [] else [Entry(t.key, t.value)]
  }

  /** The entries of depths `0 .. n - 1`, depth by depth. */
  function LevelsBelow(t: Tree, n: nat): seq<Entry> {
    if n == 0 then []
    else LevelsBelow(t, n - 1) + Entries(Level(t, n - 1))
  }

  /** Every member of a level is a present node. */
  lemma {:induction false} LevelNodes(t: Tree, d: nat)
    ensures AllNodes(Level(t, d))
    decreases t
  {
    if t.Node? && d > 0 {
      LevelNodes(t.left, d - 1);
      LevelNodes(t.right, d - 1);
    }
  }

  lemma {:induction false} ChildrenAppend(a: seq<Tree>, b: seq<Tree>)
    ensures Children(a + b) == Children(a) + Children(b)
    decreases |a|
  {
    if |a| == 0 {
      assert a + b == b;
    } else {
      assert (a + b)[1..] == a[1..] + b;
      assert (a + b)[0] == a[0];
      ChildrenAppend(a[1..], b);
    }
  }

  /** Visiting one more node appends its children. */
  lemma ChildrenSnoc(s: seq<Tree>, x: Tree)
    ensures Children(s + [x]) == Children(s) + Kids(x)
  {
    ChildrenAppend(s, [x]);
    assert [x][1..] == [];
  }

  /** Dropping the last element of `a + b`, for non-empty `b`. */
  lemma DropLast<T>(a: seq<T>, b: seq<T>)
    requires |b| > 0
    ensures (a + b)[..|a + b| - 1] == a + b[..|b| - 1]
    ensures (a + b)[|a + b| - 1] == b[|b| - 1]
  {
  }

  lemma {:induction false} EntriesAppend(a: seq<Tree>, b: seq<Tree>)
    ensures Entries(a + b) == Entries(a) + Entries(b)
    decreases |b|
  {
    if |b| == 0 {
      assert a + b == a;
    } else {
      var b', x := b[..|b| - 1], b[|b| - 1];
      DropLast(a, b);
      EntriesAppend(a, b');
      assert Entries(a + b) == Entries(a + b') + Label(x);
    }
  }

  /** One round of the walk turns depth `d` into depth `d + 1`. */
  lemma {:induction false} ChildrenOfLevel(t: Tree, d: nat)
    ensures Children(Level(t, d)) == Level(t, d + 1)
    decreases t
  {
    if t.Node? {
      if d == 0 {
        ChildrenOfRoot(t);
      } else {
        var l, r := Level(t.left, d - 1), Level(t.right, d - 1);
        ChildrenOfLevel(t.left, d - 1);
        ChildrenOfLevel(t.right, d - 1);
        ChildrenOfSplit(t, d, l, r);
      }
    }
  }

  lemma ChildrenOfRoot(t: Tree)
    requires t.Node?
    ensures Children(Level(t, 0)) == Level(t, 1)
  {
    assert Level(t, 0) == [t];
    assert [t][1..] == [];
    assert Children([t]) == Kids(t);
    assert Level(t.left, 0) == (if t.left.Node? then [t.left] else []);
    assert Level(t.right, 0) == (if t.right.Node? then [t.right] else []);
  }

  lemma ChildrenOfSplit(t: Tree, d: nat, l: seq<Tree>, r: seq<Tree>)
    requires t.Node? && d > 0
    requires l == Level(t.left, d - 1) && r == Level(t.right, d - 1)
    requires Children(l) == Level(t.left, d) && Children(r) == Level(t.right, d)
    ensures Children(Level(t, d)) == Level(t, d + 1)
  {
    assert Level(t, d) == l + r;
    ChildrenAppend(l, r);
  }

  /** A depth holds a node exactly when it is above the height. */
  lemma {:induction false} LevelEmpty(t: Tree, d: nat)
    ensures Level(t, d) == [] <==> Height(t) <= d
    decreases t
  {
    if t.Node? && d > 0 {
      LevelEmpty(t.left, d - 1);
      LevelEmpty(t.right, d - 1);
    }
  }

  lemma LevelWithin(t: Tree, d: nat)
    requires Level(t, d) != []
    ensures d < Height(t)
  {
    LevelEmpty(t, d);
  }

  lemma LevelPast(t: Tree, d: nat)
    requires Level(t, d) == []
    ensures Height(t) <= d
  {
    LevelEmpty(t, d);
  }

  /** Depth by depth, a node's levels are its own entry and then its two
      subtrees' levels side by side, which as a multiset is the node's entry
      plus both subtrees' levels. */
  lemma {:induction false} LevelsBelowNode(t: Tree, n: nat)
    requires t.Node? && n > 0
    ensures multiset(LevelsBelow(t, n))
         == multiset{Entry(t.key, t.value)}
          + multiset(LevelsBelow(t.left, n - 1))
          + multiset(LevelsBelow(t.right, n - 1))
    decreases n
  {
    if n == 1 {
      LevelsBelowOne(t);
    } else {
      var d := n - 1;
      LevelsBelowNode(t, d);
      LevelsBelowSplit(t, d);
      RegroupMultiset(LevelsBelow(t, n), LevelsBelow(t, d),
        Entries(Level(t.left, d - 1)), Entries(Level(t.right, d - 1)),
        LevelsBelow(t.left, d - 1), LevelsBelow(t.right, d - 1),
        LevelsBelow(t.left, d), LevelsBelow(t.right, d), Entry(t.key, t.value));
    }
  }

  lemma RegroupMultiset(s: seq<Entry>, p: seq<Entry>, a: seq<Entry>, b: seq<Entry>,
                pa: seq<Entry>, pb: seq<Entry>, l: seq<Entry>, r: seq<Entry>, e: Entry)
    requires s == p + (a + b) && l == pa + a && r == pb + b
    requires multiset(p) == multiset{e} + multiset(pa) + multiset(pb)
    ensures multiset(s) == multiset{e} + multiset(l) + multiset(r)
  {
  }

  lemma LevelsBelowOne(t: Tree)
    requires t.Node?
    ensures LevelsBelow(t, 1) == [Entry(t.key, t.value)]
    ensures LevelsBelow(t.left, 0) == [] && LevelsBelow(t.right, 0) == []
  {
    assert Level(t, 0) == [t];
    assert [t][..0] == [];
    assert Entries([t]) == Label(t);
  }

  /** Depth `d + 1` of a node, as entries, is depth `d` of its left subtree
      followed by depth `d` of its right subtree. */
  lemma LevelsBelowSplit(t: Tree, d: nat)
    requires t.Node? && d > 0
    ensures LevelsBelow(t, d + 1)
         == LevelsBelow(t, d) + (Entries(Level(t.left, d - 1)) + Entries(Level(t.right, d - 1)))
    ensures LevelsBelow(t.left, d) == LevelsBelow(t.left, d - 1) + Entries(Level(t.left, d - 1))
    ensures LevelsBelow(t.right, d) == LevelsBelow(t.right, d - 1) + Entries(Level(t.right, d - 1))
  {
    var l, r := Level(t.left, d - 1), Level(t.right, d - 1);
    EntriesAppend(l, r);
    assert Level(t, d) == l + r;
  }

  /** Depths at or past the height add nothing. */
  lemma LevelsBelowPast(t: Tree, n: nat)
    requires Height(t) <= n
    ensures LevelsBelow(t, n) == LevelsBelow(t, Height(t))
  {
    LevelsBelowFrom(t, n, Height(t));
  }

  lemma {:induction false} LevelsBelowFrom(t: Tree, n: nat, h: nat)
    requires h == Height(t) && h <= n
    ensures LevelsBelow(t, n) == LevelsBelow(t, h)
    decreases n
  {
    if n > h {
      LevelsBelowFrom(t, n - 1, h);
      LevelEmpty(t, n - 1);
      var l := Level(t, n - 1);
      assert l == [];
      assert Entries(l) == [];
    }
  }

  /** The levels of a tree hold exactly its in-order entries, each once. */
  lemma {:induction false} LevelsCover(t: Tree)
    ensures multiset(LevelsBelow(t, Height(t))) == multiset(Inorder(t))
    decreases t
  {
    if t.Node? {
      var h := Height(t);
      LevelsBelowNode(t, h);
      LevelsBelowPast(t.left, h - 1);
      LevelsBelowPast(t.right, h - 1);
      LevelsCover(t.left);
      LevelsCover(t.right);
    }
  }

  /** One outer round: visit the nodes of `cur` left to right, reporting
      each and pushing its present children into the empty buffer `next`.
      The C code dereferences every buffered pointer, so all must be nodes. */
  method Round(cur: seq<Tree>, next: Buffer) returns (line: seq<Entry>, next': Buffer)
    requires AllNodes(cur)
    requires Valid(next) && next.items == []
    ensures Valid(next')
    ensures next'.items == Children(cur)
    ensures line == Entries(cur)
  {
    line, next' := [], next;
    var i := 0;
    while i < |cur|
      invariant 0 <= i <= |cur|
      invariant Valid(next')
      invariant next'.items == Children(cur[..i])
      invariant line == Entries(cur[..i])
    {
      var n := cur[i];
      assert cur[..i + 1] == cur[..i] + [n];
      assert cur[..i + 1][..i] == cur[..i];
      ChildrenSnoc(cur[..i], n);
      line := line + [Entry(n.key, n.value)];
      if n.left.Node? {
        next' := Push(next', n.left, false).buffer;
      }
      if n.right.Node? {
        next' := Push(next', n.right, false).buffer;
      }
      i := i + 1;
    }
    assert cur[..i] == cur;
  }

  /** The lines of depths `0 .. n - 1`, one per depth. */
  function LevelLines(t: Tree, n: nat): (lines: seq<seq<Entry>>)
    ensures |lines| == n
  {
    if n == 0 then [] else LevelLines(t, n - 1) + [Entries(Level(t, n - 1))]
  }

  /** The line of depth `d` holds that depth's entries, whatever the count
      of lines. */
  lemma {:induction false} LevelLinesAt(t: Tree, n: nat, d: nat)
    requires d < n
    ensures LevelLines(t, n)[d] == Entries(Level(t, d))
    decreases n
  {
    if d < n - 1 {
      LevelLinesAt(t, n - 1, d);
    }
  }

  /** Joined up, the lines are the depth-by-depth entry sequence. */
  lemma {:induction false} FlattenLines(t: Tree, n: nat)
    ensures Flatten(LevelLines(t, n)) == LevelsBelow(t, n)
    decreases n
  {
    if n > 0 {
      FlattenLines(t, n - 1);
      var s := LevelLines(t, n);
      assert s[..|s| - 1] == LevelLines(t, n - 1);
    }
  }

  /** The depth-by-depth visit of `llrbtree_bfs` / `llrbtree_free`: `rounds`
      holds the entries of each outer round, in visiting order. A null
      tree returns -1. Allocation is taken to succeed. */
  method LevelWalk(t: Tree) returns (rounds: seq<seq<Entry>>, status: int)
    ensures t.Leaf? ==> status == -1 && rounds == []
    ensures t.Node? ==> status == 0
    ensures rounds == LevelLines(t, Height(t))
  {
    if t.Leaf? {
      return [], -1;
    }
    var cur := Push(Fresh, t, false).buffer;
    var next := Fresh;
    var depth := 0;
    rounds, status := [], 0;
    while |cur.items| > 0
      invariant Valid(cur) && Valid(next) && next.items == []
      invariant cur.items == Level(t, depth)
      invariant depth <= Height(t)
      invariant rounds == LevelLines(t, depth)
      decreases Height(t) - depth
    {
      cur, next, rounds := Advance(t, depth, cur, next, rounds);
      depth := depth + 1;
    }
    LevelPast(t, depth);
  }

  /** The body of the outer loop: run a round over the current depth, record
      its line, and swap the buffers. */
  method Advance(t: Tree, depth: nat, cur: Buffer, next: Buffer, rounds: seq<seq<Entry>>)
    returns (cur': Buffer, next': Buffer, rounds': seq<seq<Entry>>)
    requires Valid(cur) && Valid(next) && next.items == []
    requires cur.items == Level(t, depth) && cur.items != []
    requires rounds == LevelLines(t, depth)
    ensures Valid(cur') && Valid(next') && next'.items == []
    ensures cur'.items == Level(t, depth + 1)
    ensures depth < Height(t)
    ensures rounds' == LevelLines(t, depth + 1)
  {
    LevelWithin(t, depth);
    LevelNodes(t, depth);
    var line, filled := Round(cur.items, next);
    ChildrenOfLevel(t, depth);
    rounds' := rounds + [line];
    cur', next' := Buffer(filled.items, filled.size), Buffer([], cur.size);
  }

  /** `llrbtree_bfs`: the lines it prints, one per depth, none empty. */
  method Bfs(t: Tree) returns (lines: seq<seq<Entry>>, status: int)
    ensures status == (if t.Leaf? then -1 else 0)
    ensures |lines| == Height(t)
    ensures forall d :: 0 <= d < |lines| ==> lines[d] == Entries(Level(t, d)) && lines[d] != []
    ensures Flatten(lines) == LevelsBelow(t, Height(t))
  {
    lines, status := LevelWalk(t);
    forall d | 0 <= d < |lines| ensures lines[d] == Entries(Level(t, d)) && lines[d] != [] {
      LevelLinesAt(t, Height(t), d);
      LevelEmpty(t, d);
      LevelNodes(t, d);
      EntriesLength(Level(t, d));
    }
    FlattenLines(t, Height(t));
  }

  /** `llrbtree_free`: the nodes in the order they are released. Every node
      of the tree is released, and none twice. */
  method Free(t: Tree) returns (released: seq<Entry>, status: int)
    ensures status == (if t.Leaf? then -1 else 0)
    ensures multiset(released) == multiset(Inorder(t))
    ensures |released| == |Inorder(t)|
  {
    var rounds;
    rounds, status := LevelWalk(t);
    FlattenLines(t, Height(t));
    released := Flatten(rounds);
    LevelsCover(t);
    assert |multiset(released)| == |multiset(Inorder(t))|;
  }

  function Flatten(s: seq<seq<Entry>>): seq<Entry> {
    if |s| == 0 then [] else Flatten(s[..|s| - 1]) + s[|s| - 1]
  }

  lemma {:induction false} EntriesLength(s: seq<Tree>)
    requires AllNodes(s)
    ensures |Entries(s)| == |s|
    decreases |s|
  {
    if |s| > 0 {
      EntriesLength(s[..|s| - 1]);
    }
  }
}
