/**
 The node of the left-leaning red-black tree and the views of it that the
 rest of the model is stated in: the in-order entry sequence, the key set,
 the map the tree represents, search-tree order and the red-black shape rules.
 */
module Trees {

  /** A C `int64_t`. Keys and values are only compared and copied, never
      combined arithmetically, so no wrap-around needs modelling. */
  type Int64 = x: int | -0x8000_0000_0000_0000 <= x < 0x8000_0000_0000_0000

  /** The node's `bool color`: `true` is red, `false` is black. */
  datatype Color = Red | Black {
    function Flip(): (c: Color)
      ensures c != this
    {
      if this == Red then Black else Red
    }
  }

  /** `llrbtree_node_t`: an absent child pointer is `Leaf`. */
  datatype Tree =
    | Leaf
    | Node(color: Color, left: Tree, key: Int64, value: Int64, right: Tree)

  /** A (key, value) pair as the traversals report it. */
  datatype Entry = Entry(key: Int64, value: Int64)

  datatype Option<T> = None | Some(value: T)

  /** `llrbtree_node_is_red`: an absent node counts as black. */
  predicate IsRed(t: Tree) {
    t.Node? && t.color == Red
  }

  /** The entries in left-subtree / node / right-subtree order. */
  function Inorder(t: Tree): seq<Entry> {
    match t
    case Leaf => []
    case Node(_, l, k, v, r) => Inorder(l) + [Entry(k, v)] + Inorder(r)
  }

  /** The position of the root's entry in the in-order sequence. */
  function RootIndex(t: Tree): nat
    requires t.Node?
  {
    |Inorder(t.left)|
  }

  function KeysOf(s: seq<Entry>): set<Int64> {
    set e | e in s :: e.key
  }

  function Keys(t: Tree): set<Int64> {
    KeysOf(Inorder(t))
  }

  /** The map a sequence of entries denotes; a later entry wins. */
  function MapOf(s: seq<Entry>): map<Int64, Int64> {
    if |s| == 0 then map[]
    else MapOf(s[..|s| - 1])[s[|s| - 1].key := s[|s| - 1].value]
  }

  /** The map from keys to values that the tree represents. */
  function Contents(t: Tree): map<Int64, Int64> {
    MapOf(Inorder(t))
  }

  predicate Ascending(s: seq<Entry>) {
    forall i, j :: 0 <= i < j < |s| ==> s[i].key < s[j].key
  }

  /** Binary-search-tree order, read off the in-order sequence. */
  predicate Ordered(t: Tree) {
    Ascending(Inorder(t))
  }

  /** Binary-search-tree order, node by node: every key of the left subtree
      is smaller and every key of the right subtree larger than the node's. */
  predicate SearchTree(t: Tree) {
    match t
    case Leaf => true
    case Node(_, l, k, _, r) =>
      && SearchTree(l)
      && SearchTree(r)
      && (forall j :: j in Keys(l) ==> j < k)
      && (forall j :: j in Keys(r) ==> k < j)
  }

  /** The number of black nodes on the leftmost root-to-leaf path. */
  function BlackHeight(t: Tree): nat {
    match t
    case Leaf => 0
    case Node(c, l, _, _, _) => BlackHeight(l) + (if c == Black then 1 else 0)
  }

  /** Every root-to-leaf path crosses the same number of black nodes. */
  predicate Balanced(t: Tree) {
    match t
    case Leaf => true
    case Node(_, l, _, _, r) =>
      Balanced(l) && Balanced(r) && BlackHeight(l) == BlackHeight(r)
  }

  /** No red node has a red child. */
  predicate NoRedRed(t: Tree) {
    match t
    case Leaf => true
    case Node(c, l, _, _, r) =>
      && NoRedRed(l)
      && NoRedRed(r)
      && (c == Red ==> !IsRed(l) && !IsRed(r))
  }

  /** A red right child only occurs beside a red left child (the 4-node of a
      2-3-4 tree); a lone red link always leans left. */
  predicate LeansLeft(t: Tree) {
    match t
    case Leaf => true
    case Node(_, l, _, _, r) =>
      LeansLeft(l) && LeansLeft(r) && (IsRed(r) ==> IsRed(l))
  }

  /** The red-black shape of a 2-3-4 left-leaning tree, below any root. */
  predicate Shape(t: Tree) {
    Balanced(t) && NoRedRed(t) && LeansLeft(t)
  }

  /** A whole tree as the library keeps it between calls: ordered, shaped,
      and with a black root. */
  predicate ValidLlrb(t: Tree) {
    Ordered(t) && Shape(t) && !IsRed(t)
  }

  /** Which entries a selection keeps, relative to a pivot key. */
  datatype Side = Below | Above | Except

  predicate Keeps(side: Side, j: Int64, k: Int64) {
    match side
    case Below => j < k
    case Above => j > k
    case Except => j != k
  }

  /** The entries of `s` whose keys lie on `side` of `k`, in order. */
  function Select(s: seq<Entry>, k: Int64, side: Side): seq<Entry> {
    if |s| == 0 then []
    else
      Select(s[..|s| - 1], k, side)
      + (if Keeps(side, s[|s| - 1].key, k) then [s[|s| - 1]] else [])
  }

  function Without(s: seq<Entry>, k: Int64): seq<Entry> {
    Select(s, k, Except)
  }
}
