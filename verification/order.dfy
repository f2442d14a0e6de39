/**
 Facts about in-order entry sequences: how selections and the denoted map
 behave under concatenation, how ascending order splits at a node, and the
 equivalence of the two readings of search-tree order.
 */
module Order {
  import opened Trees

  lemma {:induction false} SelectAppend(a: seq<Entry>, b: seq<Entry>, k: Int64, side: Side)
    ensures Select(a + b, k, side) == Select(a, k, side) + Select(b, k, side)
    decreases |b|
  {
    if |b| == 0 {
      assert a + b == a;
    } else {
      var b' := b[..|b| - 1];
      assert (a + b)[..|a + b| - 1] == a + b';
      assert (a + b)[|a + b| - 1] == b[|b| - 1];
      SelectAppend(a, b', k, side);
    }
  }

  lemma {:induction false} SelectAll(s: seq<Entry>, k: Int64, side: Side)
    requires forall i :: 0 <= i < |s| ==> Keeps(side, s[i].key, k)
    ensures Select(s, k, side) == s
    decreases |s|
  {
    if |s| > 0 {
      SelectAll(s[..|s| - 1], k, side);
      assert s[..|s| - 1] + [s[|s| - 1]] == s;
    }
  }

  lemma {:induction false} SelectNone(s: seq<Entry>, k: Int64, side: Side)
    requires forall i :: 0 <= i < |s| ==> !Keeps(side, s[i].key, k)
    ensures Select(s, k, side) == []
    decreases |s|
  {
    if |s| > 0 {
      SelectNone(s[..|s| - 1], k, side);
    }
  }

  /** The part of a map whose keys lie on one side of `k`. */
  function Restrict(m: map<Int64, Int64>, k: Int64, side: Side): map<Int64, Int64> {
    map j | j in m && Keeps(side, j, k) :: m[j]
  }

  /** Selecting entries restricts the denoted map to the selected keys. */
  lemma {:induction false} MapOfSelect(s: seq<Entry>, k: Int64, side: Side)
    ensures MapOf(Select(s, k, side)) == Restrict(MapOf(s), k, side)
    decreases |s|
  {
    if |s| > 0 {
      var p := s[..|s| - 1];
      var e := s[|s| - 1];
      MapOfSelect(p, k, side);
      assert MapOf(s) == MapOf(p)[e.key := e.value];
      if Keeps(side, e.key, k) {
        assert Select(s, k, side) == Select(p, k, side) + [e];
        MapOfSnoc(Select(p, k, side), e);
        RestrictUpdate(MapOf(p), e.key, e.value, k, side);
      } else {
        assert Select(s, k, side) == Select(p, k, side) + [];
        assert Select(p, k, side) + [] == Select(p, k, side);
        RestrictSkip(MapOf(p), e.key, e.value, k, side);
      }
    }
  }

  lemma RestrictUpdate(m: map<Int64, Int64>, j0: Int64, v: Int64, k: Int64, side: Side)
    requires Keeps(side, j0, k)
    ensures Restrict(m[j0 := v], k, side) == Restrict(m, k, side)[j0 := v]
  {
  }

  lemma RestrictSkip(m: map<Int64, Int64>, j0: Int64, v: Int64, k: Int64, side: Side)
    requires !Keeps(side, j0, k)
    ensures Restrict(m[j0 := v], k, side) == Restrict(m, k, side)
  {
  }

  lemma MapOfSnoc(s: seq<Entry>, e: Entry)
    ensures MapOf(s + [e]) == MapOf(s)[e.key := e.value]
  {
    assert (s + [e])[..|s + [e]| - 1] == s;
  }

  lemma {:induction false} MapOfAppend(a: seq<Entry>, b: seq<Entry>)
    ensures MapOf(a + b) == MapOf(a) + MapOf(b)
    decreases |b|
  {
    if |b| == 0 {
      assert a + b == a;
    } else {
      var b' := b[..|b| - 1];
      var e := b[|b| - 1];
      assert a + b == (a + b') + [e];
      MapOfSnoc(a + b', e);
      MapOfSnoc(b', e);
      assert b == b' + [e];
      MapOfAppend(a, b');
    }
  }

  lemma {:induction false} MapOfKeys(s: seq<Entry>)
    ensures MapOf(s).Keys == KeysOf(s)
    decreases |s|
  {
    if |s| > 0 {
      var p := s[..|s| - 1];
      MapOfKeys(p);
      assert s == p + [s[|s| - 1]];
      assert KeysOf(s) == KeysOf(p) + {s[|s| - 1].key};
    }
  }

  /** In an ascending sequence the map gives each key the value stored
      beside it. */
  lemma {:induction false} MapOfAscending(s: seq<Entry>, i: nat)
    requires Ascending(s)
    requires i < |s|
    ensures s[i].key in MapOf(s) && MapOf(s)[s[i].key] == s[i].value
    decreases |s|
  {
    var p := s[..|s| - 1];
    if i < |s| - 1 {
      MapOfAscending(p, i);
    }
  }

  lemma KeysOfAppend(a: seq<Entry>, b: seq<Entry>)
    ensures KeysOf(a + b) == KeysOf(a) + KeysOf(b)
  {
    forall j | j in KeysOf(a + b)
      ensures j in KeysOf(a) + KeysOf(b)
    {
      var e :| e in a + b && e.key == j;
    }
    forall j | j in KeysOf(a) + KeysOf(b)
      ensures j in KeysOf(a + b)
    {
      if j in KeysOf(a) {
        var e :| e in a && e.key == j;
        assert e in a + b;
      } else {
        var e :| e in b && e.key == j;
        assert e in a + b;
      }
    }
  }

  lemma KeysOfNode(t: Tree)
    requires t.Node?
    ensures Keys(t) == Keys(t.left) + {t.key} + Keys(t.right)
  {
    KeysOfAppend(Inorder(t.left) + [Entry(t.key, t.value)], Inorder(t.right));
    KeysOfAppend(Inorder(t.left), [Entry(t.key, t.value)]);
  }

  lemma RootEntry(t: Tree)
    requires t.Node?
    ensures RootIndex(t) < |Inorder(t)|
    ensures Inorder(t)[RootIndex(t)] == Entry(t.key, t.value)
  {
  }

  /** An ascending `l + [x] + r` has ascending sides separated by `x`. */
  lemma AscendingParts(l: seq<Entry>, x: Entry, r: seq<Entry>)
    requires Ascending(l + [x] + r)
    ensures Ascending(l) && Ascending(r)
    ensures forall i :: 0 <= i < |l| ==> l[i].key < x.key
    ensures forall i :: 0 <= i < |r| ==> x.key < r[i].key
  {
    var s := l + [x] + r;
    var n := |l|;
    forall i, j | 0 <= i < j < |l| ensures l[i].key < l[j].key {
      assert s[i] == l[i] && s[j] == l[j];
    }
    forall i | 0 <= i < |l| ensures l[i].key < x.key {
      assert s[i] == l[i] && s[n] == x;
    }
    forall i, j | 0 <= i < j < |r| ensures r[i].key < r[j].key {
      assert s[n + 1 + i] == r[i] && s[n + 1 + j] == r[j];
    }
    forall i | 0 <= i < |r| ensures x.key < r[i].key {
      assert s[n] == x && s[n + 1 + i] == r[i];
    }
  }

  /** Ascending sides separated by `x` make `l + [x] + r` ascending. */
  lemma AscendingJoin(l: seq<Entry>, x: Entry, r: seq<Entry>)
    requires Ascending(l) && Ascending(r)
    requires forall i :: 0 <= i < |l| ==> l[i].key < x.key
    requires forall i :: 0 <= i < |r| ==> x.key < r[i].key
    ensures Ascending(l + [x] + r)
  {
    var s := l + [x] + r;
    var n := |l|;
    forall i, j | 0 <= i < j < |s| ensures s[i].key < s[j].key {
      if j < n {
        assert s[i] == l[i] && s[j] == l[j];
      } else if j == n {
        assert s[i] == l[i] && s[j] == x;
      } else if i < n {
        assert s[i] == l[i] && s[j] == r[j - n - 1];
      } else if i == n {
        assert s[i] == x && s[j] == r[j - n - 1];
      } else {
        assert s[i] == r[i - n - 1] && s[j] == r[j - n - 1];
      }
    }
  }

  /** Ascending order at a node: both subtrees are ordered, and the node's key
      separates them. */
  lemma OrderedNode(t: Tree)
    requires t.Node?
    ensures Ordered(t) ==>
      && Ordered(t.left)
      && Ordered(t.right)
      && (forall i :: 0 <= i < |Inorder(t.left)| ==> Inorder(t.left)[i].key < t.key)
      && (forall i :: 0 <= i < |Inorder(t.right)| ==> t.key < Inorder(t.right)[i].key)
    ensures
      && Ordered(t.left)
      && Ordered(t.right)
      && (forall i :: 0 <= i < |Inorder(t.left)| ==> Inorder(t.left)[i].key < t.key)
      && (forall i :: 0 <= i < |Inorder(t.right)| ==> t.key < Inorder(t.right)[i].key)
      ==> Ordered(t)
  {
    var l, x, r := Inorder(t.left), Entry(t.key, t.value), Inorder(t.right);
    assert Inorder(t) == l + [x] + r;
    if Ordered(t) {
      AscendingParts(l, x, r);
    }
    if && Ordered(t.left) && Ordered(t.right)
       && (forall i :: 0 <= i < |l| ==> l[i].key < t.key)
       && (forall i :: 0 <= i < |r| ==> t.key < r[i].key)
    {
      AscendingJoin(l, x, r);
    }
  }

  /** A bound on every entry of a sequence is a bound on its key set. */
  lemma KeysOfBounds(s: seq<Entry>, k: Int64)
    ensures (forall i :: 0 <= i < |s| ==> s[i].key < k) ==> forall j :: j in KeysOf(s) ==> j < k
    ensures (forall i :: 0 <= i < |s| ==> k < s[i].key) ==> forall j :: j in KeysOf(s) ==> k < j
    ensures forall i :: 0 <= i < |s| ==> s[i].key in KeysOf(s)
  {
    forall j | j in KeysOf(s)
      ensures exists i :: 0 <= i < |s| && s[i].key == j
    {
      var e :| e in s && e.key == j;
      var i :| 0 <= i < |s| && s[i] == e;
    }
    forall i | 0 <= i < |s| ensures s[i].key in KeysOf(s) {
      assert s[i] in s;
    }
  }

  /** The two readings of search-tree order agree. */
  lemma {:induction false} OrderedIffSearchTree(t: Tree)
    ensures Ordered(t) <==> SearchTree(t)
  {
    match t
    case Leaf =>
    case Node(_, l, k, _, r) =>
      OrderedIffSearchTree(l);
      OrderedIffSearchTree(r);
      var sl, sr := Inorder(l), Inorder(r);
      assert Keys(l) == KeysOf(sl) && Keys(r) == KeysOf(sr);
      KeysOfBounds(sl, k);
      KeysOfBounds(sr, k);
      if Ordered(t) {
        OrderedNode(t);
      }
      if SearchTree(t) {
        assert forall i :: 0 <= i < |sl| ==> sl[i].key < k;
        assert forall i :: 0 <= i < |sr| ==> k < sr[i].key;
        OrderedNode(t);
      }
  }

  /** Two trees with the same ordered in-order sequence: the one whose root
      sits further right in that sequence has the larger root key. */
  lemma RootKeyOrder(a: Tree, b: Tree)
    requires a.Node? && b.Node?
    requires Inorder(a) == Inorder(b) && Ordered(a)
    ensures RootIndex(a) < RootIndex(b) ==> a.key < b.key
    ensures RootIndex(a) == RootIndex(b) ==> a.key == b.key
  {
    RootEntry(a);
    RootEntry(b);
  }

  lemma ConcatEmpty(a: seq<Entry>, b: seq<Entry>)
    ensures a + [] + b == a + b
  {
  }

  lemma SelectSingle(x: Entry, k: Int64, side: Side)
    ensures Select([x], k, side) == if Keeps(side, x.key, k) then [x] else []
  {
    assert [x][..0] == [];
  }

  /** A selection over a node's in-order sequence splits at the node. */
  lemma SelectNode(t: Tree, k: Int64, side: Side)
    requires t.Node?
    ensures Select(Inorder(t), k, side)
         == Select(Inorder(t.left), k, side)
          + (if Keeps(side, t.key, k) then [Entry(t.key, t.value)] else [])
          + Select(Inorder(t.right), k, side)
  {
    var l, x, r := Inorder(t.left), [Entry(t.key, t.value)], Inorder(t.right);
    assert Inorder(t) == (l + x) + r;
    SelectAppend(l + x, r, k, side);
    SelectAppend(l, x, k, side);
    SelectSingle(Entry(t.key, t.value), k, side);
  }

  /** Looking for `k` left of an ordered node's key: the node's key and the
      whole right subtree lie above `k`. */
  lemma LeftOfRoot(t: Tree, k: Int64)
    requires t.Node? && Ordered(t) && k < t.key
    ensures Ordered(t.left)
    ensures k in Keys(t) <==> k in Keys(t.left)
    ensures Select(Inorder(t), k, Below) == Select(Inorder(t.left), k, Below)
    ensures Select(Inorder(t), k, Above)
         == Select(Inorder(t.left), k, Above) + [Entry(t.key, t.value)] + Inorder(t.right)
    ensures Without(Inorder(t), k)
         == Without(Inorder(t.left), k) + [Entry(t.key, t.value)] + Inorder(t.right)
  {
    var r := Inorder(t.right);
    assert forall i :: 0 <= i < |r| ==> k < r[i].key by {
      OrderedNode(t);
    }
    LeftOfRootKeys(t, k);
    SelectNode(t, k, Below);
    SelectNode(t, k, Above);
    SelectNode(t, k, Except);
    SelectNone(r, k, Below);
    SelectAll(r, k, Above);
    SelectAll(r, k, Except);
  }

  lemma LeftOfRootKeys(t: Tree, k: Int64)
    requires t.Node? && Ordered(t) && k < t.key
    ensures Ordered(t.left)
    ensures k in Keys(t) <==> k in Keys(t.left)
  {
    var r := Inorder(t.right);
    OrderedNode(t);
    KeysOfNode(t);
    assert forall i :: 0 <= i < |r| ==> k < r[i].key;
    KeysOfBounds(r, k);
  }

  /** Looking for `k` right of an ordered node's key: the node's key and the
      whole left subtree lie below `k`. */
  lemma RightOfRoot(t: Tree, k: Int64)
    requires t.Node? && Ordered(t) && t.key < k
    ensures Ordered(t.right)
    ensures k in Keys(t) <==> k in Keys(t.right)
    ensures Select(Inorder(t), k, Below)
         == Inorder(t.left) + [Entry(t.key, t.value)] + Select(Inorder(t.right), k, Below)
    ensures Select(Inorder(t), k, Above) == Select(Inorder(t.right), k, Above)
    ensures Without(Inorder(t), k)
         == Inorder(t.left) + [Entry(t.key, t.value)] + Without(Inorder(t.right), k)
  {
    var l := Inorder(t.left);
    assert forall i :: 0 <= i < |l| ==> l[i].key < k by {
      OrderedNode(t);
    }
    RightOfRootKeys(t, k);
    SelectNode(t, k, Below);
    SelectNode(t, k, Above);
    SelectNode(t, k, Except);
    SelectAll(l, k, Below);
    SelectNone(l, k, Above);
    SelectAll(l, k, Except);
  }

  lemma RightOfRootKeys(t: Tree, k: Int64)
    requires t.Node? && Ordered(t) && t.key < k
    ensures Ordered(t.right)
    ensures k in Keys(t) <==> k in Keys(t.right)
  {
    var l := Inorder(t.left);
    OrderedNode(t);
    KeysOfNode(t);
    assert forall i :: 0 <= i < |l| ==> l[i].key < k;
    KeysOfBounds(l, k);
  }

  /** Looking for an ordered node's own key. */
  lemma AtRoot(t: Tree)
    requires t.Node? && Ordered(t)
    ensures t.key in Keys(t)
    ensures Select(Inorder(t), t.key, Below) == Inorder(t.left)
    ensures Select(Inorder(t), t.key, Above) == Inorder(t.right)
    ensures Without(Inorder(t), t.key) == Inorder(t.left) + Inorder(t.right)
  {
    KeysOfNode(t);
    OrderedNode(t);
    AtRootSides(t);
    AtRootWithout(t);
  }

  lemma AtRootSides(t: Tree)
    requires t.Node?
    requires forall i :: 0 <= i < |Inorder(t.left)| ==> Inorder(t.left)[i].key < t.key
    requires forall i :: 0 <= i < |Inorder(t.right)| ==> t.key < Inorder(t.right)[i].key
    ensures Select(Inorder(t), t.key, Below) == Inorder(t.left)
    ensures Select(Inorder(t), t.key, Above) == Inorder(t.right)
  {
    AtRootBelow(t);
    AtRootAbove(t);
  }

  lemma AtRootBelow(t: Tree)
    requires t.Node?
    requires forall i :: 0 <= i < |Inorder(t.left)| ==> Inorder(t.left)[i].key < t.key
    requires forall i :: 0 <= i < |Inorder(t.right)| ==> t.key < Inorder(t.right)[i].key
    ensures Select(Inorder(t), t.key, Below) == Inorder(t.left)
  {
    var k, l, r := t.key, Inorder(t.left), Inorder(t.right);
    SelectNode(t, k, Below);
    SelectAll(l, k, Below);
    SelectNone(r, k, Below);
    assert l + [] + [] == l;
  }

  lemma AtRootAbove(t: Tree)
    requires t.Node?
    requires forall i :: 0 <= i < |Inorder(t.left)| ==> Inorder(t.left)[i].key < t.key
    requires forall i :: 0 <= i < |Inorder(t.right)| ==> t.key < Inorder(t.right)[i].key
    ensures Select(Inorder(t), t.key, Above) == Inorder(t.right)
  {
    var k, l, r := t.key, Inorder(t.left), Inorder(t.right);
    SelectNode(t, k, Above);
    SelectNone(l, k, Above);
    SelectAll(r, k, Above);
    assert [] + [] + r == r;
  }

  lemma AtRootWithout(t: Tree)
    requires t.Node?
    requires forall i :: 0 <= i < |Inorder(t.left)| ==> Inorder(t.left)[i].key < t.key
    requires forall i :: 0 <= i < |Inorder(t.right)| ==> t.key < Inorder(t.right)[i].key
    ensures Without(Inorder(t), t.key) == Inorder(t.left) + Inorder(t.right)
  {
    var k, l, r := t.key, Inorder(t.left), Inorder(t.right);
    SelectNode(t, k, Except);
    SelectAll(l, k, Except);
    SelectAll(r, k, Except);
    assert !Keeps(Except, t.key, k);
    ConcatEmpty(l, r);
  }

  /** Every selected entry comes from `s` and lies on the selected side. */
  lemma {:induction false} SelectMembers(s: seq<Entry>, k: Int64, side: Side)
    ensures forall i :: 0 <= i < |Select(s, k, side)| ==>
      Select(s, k, side)[i] in s && Keeps(side, Select(s, k, side)[i].key, k)
    decreases |s|
  {
    if |s| > 0 {
      var p := s[..|s| - 1];
      SelectMembers(p, k, side);
      assert forall e :: e in p ==> e in s;
    }
  }

  /** A selection from an ascending sequence is ascending. */
  lemma {:induction false} SelectAscending(s: seq<Entry>, k: Int64, side: Side)
    requires Ascending(s)
    ensures Ascending(Select(s, k, side))
    decreases |s|
  {
    if |s| > 0 {
      var p, e := s[..|s| - 1], s[|s| - 1];
      var q := Select(p, k, side);
      SelectAscending(p, k, side);
      SelectMembers(p, k, side);
      if Keeps(side, e.key, k) {
        forall i | 0 <= i < |q| ensures q[i].key < e.key {
          var m :| 0 <= m < |p| && p[m] == q[i];
          assert s[m] == p[m];
        }
        var t := q + [e];
        forall i, j | 0 <= i < j < |t| ensures t[i].key < t[j].key {
          if j < |q| {
            assert t[i] == q[i] && t[j] == q[j];
          } else {
            assert t[i] == q[i] && t[j] == e;
          }
        }
      }
    }
  }

  /** In an ascending sequence, the entries below `k`, the entries above
      `k`, and the (at most one) entry at `k` account for every entry. */
  lemma {:induction false} SelectCount(s: seq<Entry>, k: Int64)
    requires Ascending(s)
    ensures |Select(s, k, Below)| + |Select(s, k, Above)| + (if k in KeysOf(s) then 1 else 0) == |s|
    decreases |s|
  {
    if |s| > 0 {
      var p, e := s[..|s| - 1], s[|s| - 1];
      AscendingPrefix(s);
      SelectCount(p, k);
      KeysOfLast(s);
      assert |Select(s, k, Below)| == |Select(p, k, Below)| + (if e.key < k then 1 else 0);
      assert |Select(s, k, Above)| == |Select(p, k, Above)| + (if e.key > k then 1 else 0);
    }
  }

  /** Dropping the last entry of an ascending sequence leaves an ascending
      sequence whose keys all lie below the dropped one. */
  lemma AscendingPrefix(s: seq<Entry>)
    requires Ascending(s) && |s| > 0
    ensures Ascending(s[..|s| - 1])
    ensures s[|s| - 1].key !in KeysOf(s[..|s| - 1])
  {
    var p := s[..|s| - 1];
    assert forall i :: 0 <= i < |p| ==> p[i] == s[i];
    assert forall i :: 0 <= i < |p| ==> p[i].key < s[|s| - 1].key;
    KeysOfBounds(p, s[|s| - 1].key);
  }

  lemma KeysOfLast(s: seq<Entry>)
    requires |s| > 0
    ensures KeysOf(s) == KeysOf(s[..|s| - 1]) + {s[|s| - 1].key}
  {
    var p, e := s[..|s| - 1], s[|s| - 1];
    assert s == p + [e];
    KeysOfAppend(p, [e]);
    assert KeysOf([e]) == {e.key};
  }

  /** Replacing one key of a map, written as the union of the part below,
      the new binding and the part above. */
  lemma UpdateAsUnion(m: map<Int64, Int64>, k: Int64, v: Int64)
    ensures Restrict(m, k, Below) + map[k := v] + Restrict(m, k, Above) == m[k := v]
  {
  }

  /** The map of an insertion-shaped sequence. */
  lemma MapOfSplice(s: seq<Entry>, e: Entry)
    ensures MapOf(Select(s, e.key, Below) + [e] + Select(s, e.key, Above)) == MapOf(s)[e.key := e.value]
  {
    var b, a := Select(s, e.key, Below), Select(s, e.key, Above);
    MapOfAppend(b + [e], a);
    MapOfAppend(b, [e]);
    assert [e][..0] == [];
    assert MapOf([e]) == map[e.key := e.value];
    MapOfSelect(s, e.key, Below);
    MapOfSelect(s, e.key, Above);
    UpdateAsUnion(MapOf(s), e.key, e.value);
  }

  /** The map of a sequence with one key removed. */
  lemma MapOfWithout(s: seq<Entry>, k: Int64)
    ensures MapOf(Without(s, k)) == MapOf(s) - {k}
  {
    MapOfSelect(s, k, Except);
    assert Restrict(MapOf(s), k, Except) == MapOf(s) - {k};
  }
}
