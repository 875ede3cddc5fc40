/** The search tree the compiler reads: a GLib GTree seen through its node fields. */
module AvlTree {
  import opened Wrappers

  /** One GTree node. A child is Some exactly when GLib's `left_child` or
      `right_child` flag is set; when the flag is clear the raw pointer is a
      threading link to an in-order neighbour, not a child. */
  datatype Tree = Node(key: int, value: int, left: Option<Tree>, right: Option<Tree>)

  /** What the compiled lookup returns for a key that is not in the tree. */
  const NotFound: int := -1

  function Keys(t: Tree): set<int>
  {
    {t.key} + OptKeys(t.left) + OptKeys(t.right)
  }

  function OptKeys(o: Option<Tree>): set<int>
  {
    match o
    case None => {}
    case Some(c) => Keys(c)
  }

  /** The search-tree ordering GTree keeps with an integer comparator: every key
      of the left subtree is below the node's key and every key of the right
      subtree above it (so all keys are distinct). */
  predicate IsBst(t: Tree)
  {
    (forall k :: k in OptKeys(t.left) ==> k < t.key) &&
    (forall k :: k in OptKeys(t.right) ==> t.key < k) &&
    OptIsBst(t.left) && OptIsBst(t.right)
  }

  predicate OptIsBst(o: Option<Tree>)
  {
    match o
    case None => true
    case Some(c) => IsBst(c)
  }

  /** The key-to-value mapping the tree stores. */
  function Contents(t: Tree): map<int, int>
  {
    OptContents(t.left) + OptContents(t.right) + map[t.key := t.value]
  }

  function OptContents(o: Option<Tree>): map<int, int>
  {
    match o
    case None => map[]
    case Some(c) => Contents(c)
  }

  /** The answer a lookup of `x` must give: the value stored under `x`, or NotFound. */
  function Lookup(t: Tree, x: int): int
  {
    if x in Contents(t) then Contents(t)[x] else NotFound
  }

  /** Binary search from `t`: the key is tested for equality first; a greater
      argument continues in the right subtree, any other in the left one, and a
      missing subtree ends the search with NotFound. */
  function Search(t: Tree, x: int): int
  {
    if x == t.key then t.value
    else if x > t.key then OptSearch(t.right, x)
    else OptSearch(t.left, x)
  }

  function OptSearch(o: Option<Tree>, x: int): int
  {
    match o
    case None => NotFound
    case Some(c) => Search(c, x)
  }

  /** Number of nodes on the longest path from `t` down to a leaf. */
  function Height(t: Tree): nat
  {
    var hl, hr := OptHeight(t.left), OptHeight(t.right);
    1 + if hl < hr then hr else hl
  }

  function OptHeight(o: Option<Tree>): nat
  {
    match o
    case None => 0
    case Some(c) => Height(c)
  }

  /** Every node reachable from `t` through the child flags, `t` included. */
  function Subtrees(t: Tree): set<Tree>
  {
    {t} + OptSubtrees(t.left) + OptSubtrees(t.right)
  }

  function OptSubtrees(o: Option<Tree>): set<Tree>
  {
    match o
    case None => {}
    case Some(c) => Subtrees(c)
  }

  /** The children of a node of `t` are nodes of `t`, and no node is taller than `t`. */
  lemma {:induction false} SubtreesClosed(t: Tree, m: Tree)
    requires m in Subtrees(t)
    ensures m.left.Some? ==> m.left.value in Subtrees(t)
    ensures m.right.Some? ==> m.right.value in Subtrees(t)
    ensures Height(m) <= Height(t)
  {
    if m != t {
      if m in OptSubtrees(t.left) {
        var l := t.left.value;
        SubtreesClosed(l, m);
        assert Subtrees(l) <= Subtrees(t) && Height(l) < Height(t);
      } else {
        var r := t.right.value;
        SubtreesClosed(r, m);
        assert Subtrees(r) <= Subtrees(t) && Height(r) < Height(t);
      }
    } else {
      if t.left.Some? {
        assert t.left.value in Subtrees(t.left.value);
      }
      if t.right.Some? {
        assert t.right.value in Subtrees(t.right.value);
      }
    }
  }

  lemma {:induction false} ContentsKeys(t: Tree)
    ensures Contents(t).Keys == Keys(t)
  {
    OptContentsKeys(t.left);
    OptContentsKeys(t.right);
  }

  lemma {:induction false} OptContentsKeys(o: Option<Tree>)
    ensures OptContents(o).Keys == OptKeys(o)
  {
    match o
    case None =>
    case Some(c) => ContentsKeys(c);
  }

  /** In a search tree, binary search finds exactly what the tree stores:
      the value under `x` when `x` is a key, NotFound otherwise. */
  lemma {:induction false} SearchIsLookup(t: Tree, x: int)
    requires IsBst(t)
    ensures Search(t, x) == Lookup(t, x)
  {
    OptContentsKeys(t.left);
    OptContentsKeys(t.right);
    if x == t.key {
    } else if x > t.key {
      assert x !in OptContents(t.left);
      match t.right
      case None =>
      case Some(r) => SearchIsLookup(r, x);
    } else {
      assert x !in OptContents(t.right);
      match t.left
      case None =>
      case Some(l) => SearchIsLookup(l, x);
    }
  }
}
