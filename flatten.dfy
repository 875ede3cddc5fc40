/** Flattening: the pre-order list `translate_avl_tree` builds with an explicit work stack. */
module Flatten {
  import opened Wrappers
  import opened AvlTree

  /** A node, then its left subtree, then its right subtree. */
  function PreOrder(t: Tree): seq<Tree>
  {
    [t] + OptPreOrder(t.left) + OptPreOrder(t.right)
  }

  function OptPreOrder(o: Option<Tree>): seq<Tree>
  {
    match o
    case None => []
    case Some(c) => PreOrder(c)
  }

  /** The nodes a work stack will still contribute, in the order they will be
      appended: the top of the stack (its last element) and its subtrees first. */
  function Pending(stack: seq<Tree>): seq<Tree>
  {
    if stack == [] then [] else PreOrder(stack[|stack| - 1]) + Pending(stack[..|stack| - 1])
  }

  /** The stack after a node's flagged children are pushed: right first, then left. */
  function PushChildren(stack: seq<Tree>, node: Tree): seq<Tree>
  {
    var withRight := if node.right.Some? then stack + [node.right.value] else stack;
    if node.left.Some? then withRight + [node.left.value] else withRight
  }

  lemma PendingPush(stack: seq<Tree>, t: Tree)
    ensures Pending(stack + [t]) == PreOrder(t) + Pending(stack)
  {
    assert (stack + [t])[..|stack|] == stack;
  }

  /** Pushing a child when its flag is set. */
  lemma PendingPushChild(stack: seq<Tree>, o: Option<Tree>)
    ensures Pending(if o.Some? then stack + [o.value] else stack) == OptPreOrder(o) + Pending(stack)
  {
    if o.Some? {
      PendingPush(stack, o.value);
    } else {
      assert [] + Pending(stack) == Pending(stack);
    }
  }

  lemma PendingChildren(stack: seq<Tree>, node: Tree)
    ensures Pending(PushChildren(stack, node)) == OptPreOrder(node.left) + OptPreOrder(node.right) + Pending(stack)
  {
    var withRight := if node.right.Some? then stack + [node.right.value] else stack;
    PendingPushChild(stack, node.right);
    PendingPushChild(withRight, node.left);
    Regroup([], OptPreOrder(node.left), OptPreOrder(node.right), Pending(stack));
  }

  /** Popping `node` off the stack and pushing its children leaves the
      pending list with `node` taken off its front. */
  lemma PopPending(stack: seq<Tree>, node: Tree)
    ensures Pending(stack + [node]) == [node] + Pending(PushChildren(stack, node))
  {
    var l, r, rest := OptPreOrder(node.left), OptPreOrder(node.right), Pending(stack);
    PendingPush(stack, node);
    PendingChildren(stack, node);
    assert PreOrder(node) == [node] + l + r;
    Regroup([node], l, r, rest);
  }

  /** A sequence is its prefix followed by its last element. */
  lemma SplitLast(s: seq<Tree>)
    requires |s| > 0
    ensures s == s[..|s| - 1] + [s[|s| - 1]]
  {
  }

  /** Moving one element across a concatenation. */
  lemma Shift(a: seq<Tree>, x: Tree, b: seq<Tree>)
    ensures a + [x] + b == a + ([x] + b)
  {
  }

  lemma Regroup(a: seq<Tree>, b: seq<Tree>, c: seq<Tree>, d: seq<Tree>)
    ensures a + b + c + d == a + (b + c + d)
    ensures a + (b + (c + d)) == a + (b + c + d)
  {
  }

  /** The flattening loop: the stack is seeded with the root; each step pops its
      last node, appends it to the result, then pushes the flagged right child
      and then the flagged left child. */
  method BuildPreOrder(root: Tree) returns (preOrder: seq<Tree>)
    ensures preOrder == PreOrder(root)
  {
    var stack := [root];
    preOrder := [];
    PendingPush([], root);
    while |stack| > 0
      invariant preOrder + Pending(stack) == PreOrder(root)
      decreases |Pending(stack)|
    {
      var node := stack[|stack| - 1];
      SplitLast(stack);
      stack := stack[..|stack| - 1];
      ghost var below, before := stack, preOrder;
      PopPending(below, node);
      preOrder := preOrder + [node];
      if node.right.Some? {
        stack := stack + [node.right.value];
      }
      if node.left.Some? {
        stack := stack + [node.left.value];
      }
      assert stack == PushChildren(below, node);
      Shift(before, node, Pending(stack));
    }
  }

  /** Flattening visits exactly the nodes reachable through the child flags. */
  lemma {:induction false} PreOrderCoversSubtrees(t: Tree)
    ensures forall s :: s in PreOrder(t) <==> s in Subtrees(t)
  {
    var left, right := OptPreOrder(t.left), OptPreOrder(t.right);
    match t.left {
      case None =>
      case Some(l) => PreOrderCoversSubtrees(l);
    }
    match t.right {
      case None =>
      case Some(r) => PreOrderCoversSubtrees(r);
    }
    assert forall s :: s in left <==> s in OptSubtrees(t.left);
    assert forall s :: s in right <==> s in OptSubtrees(t.right);
    assert PreOrder(t) == [t] + left + right;
  }

  lemma {:induction false} PreOrderKeys(t: Tree)
    ensures forall s :: s in PreOrder(t) ==> s.key in Keys(t)
  {
    match t.left {
      case None =>
      case Some(l) => PreOrderKeys(l);
    }
    match t.right {
      case None =>
      case Some(r) => PreOrderKeys(r);
    }
  }

  /** In a search tree no two entries of the pre-order list share a key, so
      every node is appended exactly once. */
  lemma {:induction false} PreOrderKeysDistinct(t: Tree)
    requires IsBst(t)
    ensures forall a, b :: 0 <= a < b < |PreOrder(t)| ==> PreOrder(t)[a].key != PreOrder(t)[b].key
  {
    var p, left, right := PreOrder(t), OptPreOrder(t.left), OptPreOrder(t.right);
    if t.left.Some? {
      var l := t.left.value;
      PreOrderKeysDistinct(l);
      PreOrderKeys(l);
      assert left == PreOrder(l) && OptKeys(t.left) == Keys(l);
    }
    if t.right.Some? {
      var r := t.right.value;
      PreOrderKeysDistinct(r);
      PreOrderKeys(r);
      assert right == PreOrder(r) && OptKeys(t.right) == Keys(r);
    }
    assert forall s :: s in left ==> s.key < t.key;
    assert forall s :: s in right ==> t.key < s.key;
    DistinctJoin(t, left, right);
  }

  /** A node followed by entries with smaller keys and then by entries with
      greater keys, each group without repeated keys, repeats no key. */
  lemma DistinctJoin(t: Tree, left: seq<Tree>, right: seq<Tree>)
    requires forall s :: s in left ==> s.key < t.key
    requires forall s :: s in right ==> t.key < s.key
    requires forall x, y :: 0 <= x < y < |left| ==> left[x].key != left[y].key
    requires forall x, y :: 0 <= x < y < |right| ==> right[x].key != right[y].key
    ensures var p := [t] + left + right;
      forall a, b :: 0 <= a < b < |p| ==> p[a].key != p[b].key
  {
    var p := [t] + left + right;
    forall a, b | 0 <= a < b < |p|
      ensures p[a].key != p[b].key
    {
      if b <= |left| {
        assert p[b] == left[b - 1] && p[b] in left;
        if a > 0 {
          assert p[a] == left[a - 1];
        }
      } else {
        assert p[b] == right[b - 1 - |left|] && p[b] in right;
        if 0 < a <= |left| {
          assert p[a] == left[a - 1] && p[a] in left;
        } else if a > |left| {
          assert p[a] == right[a - 1 - |left|];
        }
      }
    }
  }

  lemma {:induction false} PreOrderNested(t: Tree, i: nat)
    requires i < |PreOrder(t)|
    ensures i + |PreOrder(PreOrder(t)[i])| <= |PreOrder(t)|
    ensures PreOrder(t)[i..i + |PreOrder(PreOrder(t)[i])|] == PreOrder(PreOrder(t)[i])
  {
    var p, left, right := PreOrder(t), OptPreOrder(t.left), OptPreOrder(t.right);
    var q := PreOrder(p[i]);
    if i == 0 {
    } else if i <= |left| {
      var l := t.left.value;
      assert p[i] == left[i - 1];
      PreOrderNested(l, i - 1);
      assert p[i..i + |q|] == left[i - 1..i - 1 + |q|];
    } else {
      var r := t.right.value;
      var k := i - 1 - |left|;
      assert p[i] == right[k];
      PreOrderNested(r, k);
      assert p[i..i + |q|] == right[k..k + |q|];
    }
  }


  /** Where the children of entry `i` sit: the left child right after it, the
      right child after the whole left subtree. */
  lemma PreOrderChildren(t: Tree, i: nat)
    requires i < |PreOrder(t)|
    ensures var p := PreOrder(t); var m := p[i];
      (m.left.Some? ==> i + 1 < |p| && p[i + 1] == m.left.value) &&
      (m.right.Some? ==> i + 1 + |OptPreOrder(m.left)| < |p| &&
                         p[i + 1 + |OptPreOrder(m.left)|] == m.right.value)
  {
    var p := PreOrder(t);
    var m := p[i];
    var q := PreOrder(m);
    PreOrderNested(t, i);
    var n := |OptPreOrder(m.left)|;
    assert q == [m] + OptPreOrder(m.left) + OptPreOrder(m.right);
    if m.left.Some? {
      assert OptPreOrder(m.left) == PreOrder(m.left.value);
      assert q[1] == PreOrder(m.left.value)[0];
      assert p[i + 1] == p[i..i + |q|][1];
    }
    if m.right.Some? {
      assert OptPreOrder(m.right) == PreOrder(m.right.value);
      assert q[1 + n] == PreOrder(m.right.value)[0];
      assert p[i + 1 + n] == p[i..i + |q|][1 + n];
    }
  }
}
