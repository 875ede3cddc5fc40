/** `translate_avl_tree`: compiles a search tree into a straight-line branch
    program that performs the lookup itself. */
module Translate {
  import opened Wrappers
  import opened AvlTree
  import opened Flatten
  import opened Jit

  /** The names of the label table: "BRNULL", "EQk", "DIFk", "BRk" and "ENTRY". */
  datatype LabelName = BrNull | Eq(key: int) | Dif(key: int) | Br(key: int) | Entry

  /** The label table: block name to label. */
  type LabelTable = map<LabelName, LabelId>

  /** The name of a node's equality-test block: ENTRY for the root, BRk otherwise. */
  function EntryName(m: Tree, isRoot: bool): LabelName
  {
    if isRoot then Entry else Br(m.key)
  }

  /** Where the dispatch block goes for a child: its BRk block, or BRNULL when the flag is clear. */
  function ChildEntry(o: Option<Tree>): LabelName
  {
    match o
    case None => BrNull
    case Some(c) => Br(c.key)
  }

  /** The body of DIFk: a leaf jumps to BRNULL; an inner node tests `arg > k`
      and goes right on true, left on false. */
  function DispatchBody(m: Tree, labels: LabelTable): seq<Insn>
    requires ChildEntry(m.left) in labels && ChildEntry(m.right) in labels
  {
    if m.left.None? && m.right.None? then [Branch(labels[BrNull])]
    else [BranchIf(Greater(m.key), labels[ChildEntry(m.right)]),
          BranchIfNot(Greater(m.key), labels[ChildEntry(m.left)])]
  }

  /** The body of BRk / ENTRY: test `arg == k`, go to EQk on true and DIFk on false. */
  function EntryBody(m: Tree, labels: LabelTable): seq<Insn>
    requires Eq(m.key) in labels && Dif(m.key) in labels
  {
    [BranchIf(Equal(m.key), labels[Eq(m.key)]), BranchIfNot(Equal(m.key), labels[Dif(m.key)])]
  }

  /** The three blocks of node `m` are in `code` under the labels the table gives them. */
  ghost predicate NodeEmitted(code: seq<Insn>, labels: LabelTable, m: Tree, isRoot: bool)
  {
    Eq(m.key) in labels && Dif(m.key) in labels && EntryName(m, isRoot) in labels &&
    ChildEntry(m.left) in labels && ChildEntry(m.right) in labels &&
    At(code, labels[Eq(m.key)], [Return(m.value)]) &&
    At(code, labels[Dif(m.key)], DispatchBody(m, labels)) &&
    At(code, labels[EntryName(m, isRoot)], EntryBody(m, labels))
  }

  /** The blocks of node `m` of the tree `t` are in `code`. */
  ghost predicate NodeEmittedIn(code: seq<Insn>, labels: LabelTable, t: Tree, m: Tree)
  {
    NodeEmitted(code, labels, m, m == t)
  }

  /** The blocks of entry `j` of the pre-order list `p`, entry 0 being the root, are in `code`. */
  ghost predicate EntryEmitted(code: seq<Insn>, labels: LabelTable, p: seq<Tree>, j: nat)
  {
    j < |p| && NodeEmitted(code, labels, p[j], j == 0)
  }

  /** All blocks of the tree `t` and the BRNULL block are in `code`. */
  ghost predicate TreeEmitted(code: seq<Insn>, labels: LabelTable, t: Tree)
  {
    BrNull in labels && At(code, labels[BrNull], [Return(NotFound)]) &&
    forall m {:trigger NodeEmittedIn(code, labels, t, m)} :: m in Subtrees(t) ==> NodeEmittedIn(code, labels, t, m)
  }

  /** `labels'` keeps every entry of `labels`. */
  ghost predicate Grows(labels: LabelTable, labels': LabelTable)
  {
    forall n :: n in labels ==> n in labels' && labels'[n] == labels[n]
  }

  lemma NodeEmittedKept(code: seq<Insn>, code': seq<Insn>, labels: LabelTable, labels': LabelTable,
                        m: Tree, isRoot: bool)
    requires NodeEmitted(code, labels, m, isRoot) && Extends(code, code') && Grows(labels, labels')
    ensures NodeEmitted(code', labels', m, isRoot)
  {
    assert DispatchBody(m, labels') == DispatchBody(m, labels);
    assert EntryBody(m, labels') == EntryBody(m, labels);
  }

  function NodeNames(m: Tree, isRoot: bool): set<LabelName>
  {
    {Eq(m.key), Dif(m.key), EntryName(m, isRoot)}
  }

  /** The names inserted for the entries `i..` of the pre-order list `p`. */
  function Names(p: seq<Tree>, i: nat): set<LabelName>
    decreases |p| - i
  {
    if i >= |p| then {} else NodeNames(p[i], i == 0) + Names(p, i + 1)
  }

  /** When no entry from `i` on has key `k`, none of the names of `k` is taken. */
  lemma {:induction false} NamesAvoid(p: seq<Tree>, i: nat, k: int)
    requires 0 < i
    requires forall j :: i <= j < |p| ==> p[j].key != k
    ensures Eq(k) !in Names(p, i) && Dif(k) !in Names(p, i) && Br(k) !in Names(p, i)
    ensures Entry !in Names(p, i)
    decreases |p| - i
  {
    if i < |p| {
      NamesAvoid(p, i + 1, k);
    }
  }

  /** What the three blocks of one node do: on `arg == k` return the node's
      value; otherwise continue at the right child's entry (or BRNULL) on a
      greater argument and at the left child's entry (or BRNULL) on a smaller
      one. With the children's entries computing their subtrees' searches,
      the node's entry computes the search of its own subtree. */
  lemma NodeRuns(code: seq<Insn>, labels: LabelTable, m: Tree, isRoot: bool, x: int, fuel: nat)
    requires NodeEmitted(code, labels, m, isRoot)
    requires BrNull in labels && At(code, labels[BrNull], [Return(NotFound)])
    requires fuel >= 8
    requires x > m.key && m.right.Some? ==>
               Jump(code, labels[ChildEntry(m.right)], x, fuel - 5) == Some(Search(m.right.value, x))
    requires x < m.key && m.left.Some? ==>
               Jump(code, labels[ChildEntry(m.left)], x, fuel - 6) == Some(Search(m.left.value, x))
    ensures Jump(code, labels[EntryName(m, isRoot)], x, fuel) == Some(Search(m, x))
  {
    var eq, dif := labels[Eq(m.key)], labels[Dif(m.key)];
    JumpCondPair(code, labels[EntryName(m, isRoot)], Equal(m.key), eq, dif, x, fuel);
    if x == m.key {
      JumpReturn(code, eq, m.value, x, fuel - 2);
    } else if m.left.None? && m.right.None? {
      JumpBranch(code, dif, labels[BrNull], x, fuel - 3);
      JumpReturn(code, labels[BrNull], NotFound, x, fuel - 5);
    } else {
      JumpCondPair(code, dif, Greater(m.key), labels[ChildEntry(m.right)], labels[ChildEntry(m.left)], x, fuel - 3);
      if x > m.key && m.right.None? {
        JumpReturn(code, labels[BrNull], NotFound, x, fuel - 5);
      } else if x < m.key && m.left.None? {
        JumpReturn(code, labels[BrNull], NotFound, x, fuel - 6);
      }
    }
  }

  /** Entering the blocks of any node `m` of the tree runs a binary search of
      the subtree under `m`. */
  lemma {:induction false} EntryComputesSearch(t: Tree, code: seq<Insn>, labels: LabelTable, m: Tree, x: int, fuel: nat)
    requires TreeEmitted(code, labels, t)
    requires m in Subtrees(t)
    requires fuel >= 6 * Height(m) + 2
    ensures EntryName(m, m == t) in labels
    ensures Jump(code, labels[EntryName(m, m == t)], x, fuel) == Some(Search(m, x))
    decreases m
  {
    assert NodeEmittedIn(code, labels, t, m);
    SubtreesClosed(t, m);
    if x > m.key && m.right.Some? {
      var r := m.right.value;
      SubtreesClosed(t, r);
      assert Height(r) == OptHeight(m.right) < Height(m);
      EntryComputesSearch(t, code, labels, r, x, fuel - 5);
      assert EntryName(r, r == t) == ChildEntry(m.right);
      NodeRuns(code, labels, m, m == t, x, fuel);
    } else if x < m.key && m.left.Some? {
      var l := m.left.value;
      SubtreesClosed(t, l);
      assert Height(l) == OptHeight(m.left) < Height(m);
      EntryComputesSearch(t, code, labels, l, x, fuel - 6);
      assert EntryName(l, l == t) == ChildEntry(m.left);
      NodeRuns(code, labels, m, m == t, x, fuel);
    } else {
      NodeRuns(code, labels, m, m == t, x, fuel);
    }
  }

  /** The blocks of every pre-order entry, the root being entry 0, are the
      blocks of every node of the tree. */
  lemma EmittedByIndex(t: Tree, code: seq<Insn>, labels: LabelTable)
    requires IsBst(t)
    requires forall j :: 0 <= j < |PreOrder(t)| ==> EntryEmitted(code, labels, PreOrder(t), j)
    ensures forall m :: m in Subtrees(t) ==> NodeEmittedIn(code, labels, t, m)
  {
    var p := PreOrder(t);
    PreOrderCoversSubtrees(t);
    PreOrderKeysDistinct(t);
    forall m | m in Subtrees(t)
      ensures NodeEmittedIn(code, labels, t, m)
    {
      var j :| 0 <= j < |p| && p[j] == m;
      assert EntryEmitted(code, labels, p, j);
      assert j != 0 ==> p[j].key != p[0].key;
    }
  }

  /** Started at position 0, where the root's ENTRY block sits, the program
      returns the value stored under its argument, or NotFound. */
  lemma ProgramComputesLookup(t: Tree, code: seq<Insn>, labels: LabelTable)
    requires IsBst(t)
    requires TreeEmitted(code, labels, t)
    requires Entry in labels && Find(code, labels[Entry]) == Some(0)
    ensures forall x, fuel :: fuel >= 6 * Height(t) + 2 ==> Run(code, 0, x, fuel) == Some(Lookup(t, x))
  {
    forall x, fuel | fuel >= 6 * Height(t) + 2
      ensures Run(code, 0, x, fuel) == Some(Lookup(t, x))
    {
      EntryComputesSearch(t, code, labels, t, x, fuel);
      SearchIsLookup(t, x);
    }
  }

  /** Every label of the table is placed in `code`. */
  ghost predicate Placed(code: seq<Insn>, labels: LabelTable)
  {
    forall n :: n in labels ==> Label(labels[n]) in code
  }

  /** The EQk and DIFk blocks of a node, as emitted. */
  function NodeCode(m: Tree, labels: LabelTable, eqLabel: LabelId, difLabel: LabelId): seq<Insn>
    requires ChildEntry(m.left) in labels && ChildEntry(m.right) in labels
  {
    [Label(eqLabel), Return(m.value), Label(difLabel)] + DispatchBody(m, labels)
  }

  /** The BRk (or ENTRY) block of a node, as emitted. */
  function EntryBlock(m: Tree, labels: LabelTable, entryLabel: LabelId): seq<Insn>
    requires Eq(m.key) in labels && Dif(m.key) in labels
  {
    [Label(entryLabel)] + EntryBody(m, labels)
  }

  /** Appending instructions whose jumps name placed labels keeps every jump resolved. */
  lemma ResolvedAppend(code: seq<Insn>, extra: seq<Insn>)
    requires Resolved(code)
    requires forall insn :: insn in extra && IsJump(insn) ==> Label(insn.target) in code + extra
    ensures Resolved(code + extra)
  {
    forall insn | insn in code + extra && IsJump(insn)
      ensures Label(insn.target) in code + extra
    {
      if insn in code {
        assert Label(insn.target) in code;
        assert (code + extra)[..|code|] == code;
      }
    }
  }

  /** Reordering the instructions keeps the labels placed and the jumps resolved. */
  lemma Reordered(code: seq<Insn>, code': seq<Insn>, labels: LabelTable)
    requires multiset(code) == multiset(code')
    requires Placed(code, labels) && Resolved(code)
    ensures Placed(code', labels) && Resolved(code')
  {
    forall insn | insn in code'
      ensures insn in code
    {
      assert insn in multiset(code');
    }
    forall insn | insn in code
      ensures insn in code'
    {
      assert insn in multiset(code);
    }
  }

  /** A node whose EQk and DIFk blocks were appended to `c0` with fresh
      labels, and whose entry block is placed, has all its blocks in place;
      the blocks of `c0` stay where they were. */
  lemma NodeBlocksPlaced(c0: seq<Insn>, code: seq<Insn>, m: Tree, isRoot: bool, labels: LabelTable)
    requires Eq(m.key) in labels && Dif(m.key) in labels && EntryName(m, isRoot) in labels
    requires ChildEntry(m.left) in labels && ChildEntry(m.right) in labels
    requires Label(labels[Eq(m.key)]) !in c0 && Label(labels[Dif(m.key)]) !in c0
    requires labels[Eq(m.key)] != labels[Dif(m.key)]
    requires Extends(c0 + NodeCode(m, labels, labels[Eq(m.key)], labels[Dif(m.key)]), code)
    requires At(code, labels[EntryName(m, isRoot)], EntryBody(m, labels))
    ensures Extends(c0, code) && NodeEmitted(code, labels, m, isRoot)
  {
    var eq, dif := labels[Eq(m.key)], labels[Dif(m.key)];
    var d := DispatchBody(m, labels);
    var rest := c0 + NodeCode(m, labels, eq, dif);
    ExtendsPrefix(c0, rest);
    ExtendsTrans(c0, rest, code);
    var pre := c0 + [Label(eq), Return(m.value)];
    assert rest == pre + [Label(dif)] + d + [];
    assert rest == c0 + [Label(eq)] + [Return(m.value)] + ([Label(dif)] + d);
    AtFresh(c0, eq, [Return(m.value)], [Label(dif)] + d);
    assert Label(dif) !in pre;
    AtFresh(pre, dif, d, []);
  }

  /** Appending a node's blocks places the labels recorded for them. */
  lemma BlocksLabelsPlaced(code: seq<Insn>, labels: LabelTable, m: Tree, isRoot: bool, labels': LabelTable,
                           eqLabel: LabelId, difLabel: LabelId, entryLabel: LabelId, c: seq<Insn>)
    requires Placed(code, labels)
    requires ChildEntry(m.left) in labels && ChildEntry(m.right) in labels
    requires labels' == labels[Eq(m.key) := eqLabel][Dif(m.key) := difLabel][EntryName(m, isRoot) := entryLabel]
    requires c == code + NodeCode(m, labels', eqLabel, difLabel) + EntryBlock(m, labels', entryLabel)
    ensures Placed(c, labels')
  {
    assert c[..|code|] == code;
    forall n | n in labels'
      ensures Label(labels'[n]) in c
    {
      if n == Eq(m.key) {
        assert c[|code|] == Label(eqLabel);
      } else if n == Dif(m.key) {
        assert c[|code| + 2] == Label(difLabel);
      } else if n == EntryName(m, isRoot) {
        assert c[|c| - 3] == Label(entryLabel);
      } else {
        assert Label(labels[n]) in code;
      }
    }
  }

  /** Every jump of a node's blocks names a label of the table. */
  lemma BlocksTargets(m: Tree, labels: LabelTable, eqLabel: LabelId, difLabel: LabelId, entryLabel: LabelId)
    requires BrNull in labels && ChildEntry(m.left) in labels && ChildEntry(m.right) in labels
    requires Eq(m.key) in labels && Dif(m.key) in labels
    ensures forall insn :: insn in NodeCode(m, labels, eqLabel, difLabel) + EntryBlock(m, labels, entryLabel) && IsJump(insn) ==>
      insn.target in labels.Values
  {
    var extra := NodeCode(m, labels, eqLabel, difLabel) + EntryBlock(m, labels, entryLabel);
    assert labels[BrNull] in labels.Values && labels[Eq(m.key)] in labels.Values && labels[Dif(m.key)] in labels.Values;
    assert labels[ChildEntry(m.left)] in labels.Values && labels[ChildEntry(m.right)] in labels.Values;
  }

  /** Appending a node's blocks places the labels recorded for them, and
      their jumps name labels of the table, so every jump stays resolved. */
  lemma BlocksPlaced(code: seq<Insn>, labels: LabelTable, m: Tree, isRoot: bool, labels': LabelTable,
                     eqLabel: LabelId, difLabel: LabelId, entryLabel: LabelId)
    requires Placed(code, labels) && Resolved(code)
    requires BrNull in labels && ChildEntry(m.left) in labels && ChildEntry(m.right) in labels
    requires labels' == labels[Eq(m.key) := eqLabel][Dif(m.key) := difLabel][EntryName(m, isRoot) := entryLabel]
    ensures var c := code + NodeCode(m, labels', eqLabel, difLabel) + EntryBlock(m, labels', entryLabel);
      Placed(c, labels') && Resolved(c)
  {
    var extra := NodeCode(m, labels', eqLabel, difLabel) + EntryBlock(m, labels', entryLabel);
    var c := code + extra;
    assert c == code + NodeCode(m, labels', eqLabel, difLabel) + EntryBlock(m, labels', entryLabel);
    BlocksLabelsPlaced(code, labels, m, isRoot, labels', eqLabel, difLabel, entryLabel, c);
    BlocksTargets(m, labels', eqLabel, difLabel, entryLabel);
    forall insn | insn in extra && IsJump(insn)
      ensures Label(insn.target) in c
    {
      var n :| n in labels' && labels'[n] == insn.target;
    }
    ResolvedAppend(code, extra);
  }

  /** Recording a node's three fresh names keeps the table's entries and adds those names. */
  lemma TableAdded(labels: LabelTable, m: Tree, isRoot: bool, eqLabel: LabelId, difLabel: LabelId, entryLabel: LabelId)
    requires Eq(m.key) !in labels && Dif(m.key) !in labels && EntryName(m, isRoot) !in labels
    ensures var labels' := labels[Eq(m.key) := eqLabel][Dif(m.key) := difLabel][EntryName(m, isRoot) := entryLabel];
      && labels'.Keys == labels.Keys + NodeNames(m, isRoot)
      && Grows(labels, labels')
      && labels'[Eq(m.key)] == eqLabel && labels'[Dif(m.key)] == difLabel
      && labels'[EntryName(m, isRoot)] == entryLabel
  {
  }

  /** The table and function right after the BRNULL block: nothing of the tree emitted yet. */
  lemma NullEmitted(nullLabel: LabelId)
    ensures var code := [Label(nullLabel), Return(NotFound)];
      Placed(code, map[BrNull := nullLabel]) && Resolved(code) &&
      At(code, nullLabel, [Return(NotFound)])
  {
    AtFresh([], nullLabel, [Return(NotFound)], []);
    assert [Label(nullLabel), Return(NotFound)] == [] + [Label(nullLabel)] + [Return(NotFound)] + [];
  }

  /** Emits the EQk block of a node: on `arg == k`, return the node's value. */
  method EmitEq(f: JitFunction, node: Tree, labels: LabelTable) returns (labels': LabelTable, eqLabel: LabelId)
    requires f.Valid()
    modifies f
    ensures f.Valid() && labels' == labels[Eq(node.key) := eqLabel]
    ensures Label(eqLabel) !in old(f.code) && f.code == old(f.code) + [Label(eqLabel), Return(node.value)]
  {
    eqLabel := f.InsnLabel();
    f.InsnReturn(node.value);
    labels' := labels[Eq(node.key) := eqLabel];
  }

  /** Emits the DIFk block of a node: a leaf jumps to BRNULL; an inner node
      goes to its right child's BRk (or BRNULL) on a greater argument and to
      its left child's (or BRNULL) otherwise. The child blocks must already
      be in the table. */
  method EmitDif(f: JitFunction, node: Tree, labels: LabelTable) returns (labels': LabelTable, difLabel: LabelId)
    requires f.Valid()
    requires BrNull in labels && ChildEntry(node.left) in labels && ChildEntry(node.right) in labels
    modifies f
    ensures f.Valid() && labels' == labels[Dif(node.key) := difLabel]
    ensures Label(difLabel) !in old(f.code) && f.code == old(f.code) + [Label(difLabel)] + DispatchBody(node, labels')
  {
    difLabel := f.InsnLabel();
    labels' := labels[Dif(node.key) := difLabel];
    if node.right.None? && node.left.None? {
      var notFound := labels'[BrNull];
      f.InsnBranch(notFound);
    } else {
      var onGreater, onNotGreater: LabelId;
      if node.right.Some? {
        onGreater := labels'[Br(node.right.value.key)];
      } else {
        onGreater := labels'[BrNull];
      }
      if node.left.Some? {
        onNotGreater := labels'[Br(node.left.value.key)];
      } else {
        onNotGreater := labels'[BrNull];
      }
      var ifx := Greater(node.key);
      f.InsnBranchIf(ifx, onGreater);
      f.InsnBranchIfNot(ifx, onNotGreater);
    }
  }

  /** Emits the BRk block of a node, named ENTRY for the root: on `arg == k`
      go to EQk, otherwise to DIFk. */
  method EmitEntry(f: JitFunction, node: Tree, labels: LabelTable, isRoot: bool)
      returns (labels': LabelTable, entryLabel: LabelId)
    requires f.Valid() && Eq(node.key) in labels && Dif(node.key) in labels
    modifies f
    ensures f.Valid() && labels' == labels[EntryName(node, isRoot) := entryLabel]
    ensures Label(entryLabel) !in old(f.code) && f.code == old(f.code) + EntryBlock(node, labels', entryLabel)
  {
    entryLabel := f.InsnLabel();
    if isRoot {
      labels' := labels[Entry := entryLabel];
    } else {
      labels' := labels[Br(node.key) := entryLabel];
    }
    var eqLookup := labels'[Eq(node.key)];
    var difLookup := labels'[Dif(node.key)];
    var ifx := Equal(node.key);
    f.InsnBranchIf(ifx, eqLookup);
    f.InsnBranchIfNot(ifx, difLookup);
  }

  /** Emits the three blocks of one node (EQk, DIFk, and BRk or ENTRY for the
      root) and records their labels in the table. */
  method EmitBlocks(f: JitFunction, node: Tree, labels: LabelTable, isRoot: bool)
      returns (labels': LabelTable, eqLabel: LabelId, difLabel: LabelId, entryLabel: LabelId)
    requires f.Valid() && Placed(f.code, labels) && Resolved(f.code)
    requires BrNull in labels && ChildEntry(node.left) in labels && ChildEntry(node.right) in labels
    requires Eq(node.key) !in labels && Dif(node.key) !in labels && EntryName(node, isRoot) !in labels
    modifies f
    ensures f.Valid() && Placed(f.code, labels') && Resolved(f.code)
    ensures labels' == labels[Eq(node.key) := eqLabel][Dif(node.key) := difLabel][EntryName(node, isRoot) := entryLabel]
    ensures Label(eqLabel) !in old(f.code) && Label(difLabel) !in old(f.code) && eqLabel != difLabel
    ensures Label(entryLabel) !in old(f.code) + NodeCode(node, labels', eqLabel, difLabel)
    ensures f.code == old(f.code) + NodeCode(node, labels', eqLabel, difLabel) + EntryBlock(node, labels', entryLabel)
  {
    var withEq, withDif;
    withEq, eqLabel := EmitEq(f, node, labels);
    withDif, difLabel := EmitDif(f, node, withEq);
    ghost var c2 := f.code;
    labels', entryLabel := EmitEntry(f, node, withDif, isRoot);
    assert DispatchBody(node, labels') == DispatchBody(node, withDif);
    assert c2 == old(f.code) + NodeCode(node, labels', eqLabel, difLabel);
    BlocksPlaced(old(f.code), labels, node, isRoot, labels', eqLabel, difLabel, entryLabel);
  }

  /** The names of every entry from `i` on are among `Names(p, i)`. */
  lemma {:induction false} NamesHas(p: seq<Tree>, i: nat, j: nat)
    requires i <= j < |p|
    ensures NodeNames(p[j], j == 0) <= Names(p, i)
    decreases j - i
  {
    if i < j {
      NamesHas(p, i + 1, j);
    }
  }

  /** When entry `i` of the pre-order list is popped, its own names are not
      in the table yet: keys are distinct, so no later entry has its key. */
  lemma PopFresh(root: Tree, p: seq<Tree>, i: nat, labels: LabelTable)
    requires IsBst(root) && p == PreOrder(root) && i < |p|
    requires labels.Keys == {BrNull} + Names(p, i + 1)
    ensures Eq(p[i].key) !in labels && Dif(p[i].key) !in labels && EntryName(p[i], i == 0) !in labels
  {
    PreOrderKeysDistinct(root);
    NamesAvoid(p, i + 1, p[i].key);
  }

  /** When entry `i` of the pre-order list is popped, BRNULL and the BRk
      names of its children are in the table: children come later in
      pre-order, so they were emitted earlier. */
  lemma PopChildren(root: Tree, p: seq<Tree>, i: nat, labels: LabelTable)
    requires p == PreOrder(root) && i < |p|
    requires labels.Keys == {BrNull} + Names(p, i + 1)
    ensures BrNull in labels
    ensures ChildEntry(p[i].left) in labels && ChildEntry(p[i].right) in labels
  {
    PreOrderChildren(root, i);
    var m := p[i];
    if m.left.Some? {
      NamesHas(p, i + 1, i + 1);
      assert EntryName(p[i + 1], i + 1 == 0) in NodeNames(p[i + 1], i + 1 == 0);
    }
    if m.right.Some? {
      var jr := i + 1 + |OptPreOrder(m.left)|;
      NamesHas(p, i + 1, jr);
      assert EntryName(p[jr], jr == 0) in NodeNames(p[jr], jr == 0);
    }
  }

  /** The blocks of the entries after `i` stay in place, and with entry `i`
      emitted the blocks of every entry from `i` on are in place. */
  lemma StepKept(p: seq<Tree>, i: nat, c0: seq<Insn>, labels0: LabelTable, code: seq<Insn>, labels: LabelTable)
    requires i < |p|
    requires forall j {:trigger EntryEmitted(c0, labels0, p, j)} :: i < j < |p| ==> EntryEmitted(c0, labels0, p, j)
    requires Extends(c0, code) && Grows(labels0, labels)
    requires NodeEmitted(code, labels, p[i], i == 0)
    ensures forall j {:trigger EntryEmitted(code, labels, p, j)} :: i <= j < |p| ==> EntryEmitted(code, labels, p, j)
  {
    forall j | i <= j < |p|
      ensures EntryEmitted(code, labels, p, j)
    {
      if i < j {
        assert EntryEmitted(c0, labels0, p, j);
        NodeEmittedKept(c0, code, labels0, labels, p[j], j == 0);
      }
    }
  }

  /** Where `jit_insn_move_blocks_to_start` finds the root's ENTRY block and
      the final label after it, and what moving that range to the front gives. */
  lemma RootMoved(rest: seq<Insn>, m: Tree, labels: LabelTable, entryLabel: LabelId, finalLabel: LabelId)
    requires Eq(m.key) in labels && Dif(m.key) in labels
    requires Label(entryLabel) !in rest
    requires Label(finalLabel) !in rest + EntryBlock(m, labels, entryLabel)
    ensures var c := rest + EntryBlock(m, labels, entryLabel) + [Label(finalLabel), Nop];
      && Find(c, entryLabel) == Some(|rest|)
      && Find(c, finalLabel) == Some(|rest| + 3)
      && c[|rest|..|rest| + 3] + c[..|rest|] + c[|rest| + 3..] ==
         EntryBlock(m, labels, entryLabel) + rest + [Label(finalLabel), Nop]
    ensures forall l :: Label(l) in EntryBlock(m, labels, entryLabel) ==> Label(l) !in rest
  {
    var b := EntryBlock(m, labels, entryLabel);
    var c := rest + b + [Label(finalLabel), Nop];
    assert c[..|rest|] == rest;
    FindAt(c, entryLabel, |rest|);
    assert c[..|rest| + 3] == rest + b;
    FindAt(c, finalLabel, |rest| + 3);
    assert c[|rest|..|rest| + 3] == b;
    assert c[|rest| + 3..] == [Label(finalLabel), Nop];
  }

  /** A BRk block appended with a fresh label is placed, and the blocks
      before it stay in place. */
  lemma EntryAppended(rest: seq<Insn>, m: Tree, labels: LabelTable, entryLabel: LabelId)
    requires Eq(m.key) in labels && Dif(m.key) in labels
    requires Label(entryLabel) !in rest
    ensures var code := rest + EntryBlock(m, labels, entryLabel);
      Extends(rest, code) && At(code, entryLabel, EntryBody(m, labels))
  {
    var code := rest + EntryBlock(m, labels, entryLabel);
    assert code == rest + [Label(entryLabel)] + EntryBody(m, labels) + [];
    AtFresh(rest, entryLabel, EntryBody(m, labels), []);
    ExtendsPrefix(rest, code);
  }

  /** Appending instructions without jumps and then reordering the function
      keeps the labels of the table placed and every jump resolved. */
  lemma TailReordered(c2: seq<Insn>, tail: seq<Insn>, code: seq<Insn>, labels: LabelTable)
    requires forall insn :: insn in tail ==> !IsJump(insn)
    requires Placed(c2, labels) && Resolved(c2)
    requires multiset(c2 + tail) == multiset(code)
    ensures Placed(code, labels) && Resolved(code)
  {
    ResolvedAppend(c2, tail);
    assert Placed(c2 + tail, labels) by {
      forall n | n in labels
        ensures Label(labels[n]) in c2 + tail
      {
        assert Label(labels[n]) in c2;
      }
    }
    Reordered(c2 + tail, code, labels);
  }

  /** After `jit_insn_move_blocks_to_start` the root's ENTRY block is the
      first block and the other blocks keep their bodies. */
  lemma RootFirst(rest: seq<Insn>, m: Tree, labels: LabelTable, entryLabel: LabelId,
                  tail: seq<Insn>, code: seq<Insn>)
    requires Eq(m.key) in labels && Dif(m.key) in labels
    requires Label(entryLabel) !in rest
    requires code == EntryBlock(m, labels, entryLabel) + rest + tail
    ensures Extends(rest, code) && At(code, entryLabel, EntryBody(m, labels))
    ensures Find(code, entryLabel) == Some(0)
  {
    var b := EntryBlock(m, labels, entryLabel);
    assert forall l :: Label(l) in b ==> l == entryLabel;
    ExtendsRelocate(rest, b, tail);
    AtFresh([], entryLabel, EntryBody(m, labels), rest + tail);
    assert [] + [Label(entryLabel)] + EntryBody(m, labels) + (rest + tail) == code;
    FindAt(code, entryLabel, 0);
  }

  /** Once `jit_insn_move_blocks_to_start` has put the root's ENTRY block
      first, every label is still placed, every jump still resolved, and the
      other blocks keep their bodies. */
  lemma MovedToStart(rest: seq<Insn>, m: Tree, labels: LabelTable, entryLabel: LabelId, finalLabel: LabelId,
                     code: seq<Insn>)
    requires Eq(m.key) in labels && Dif(m.key) in labels
    requires Label(entryLabel) !in rest
    requires Label(finalLabel) !in rest + EntryBlock(m, labels, entryLabel)
    requires Placed(rest + EntryBlock(m, labels, entryLabel), labels)
    requires Resolved(rest + EntryBlock(m, labels, entryLabel))
    requires multiset(code) == multiset(rest + EntryBlock(m, labels, entryLabel) + [Label(finalLabel), Nop])
    requires code == EntryBlock(m, labels, entryLabel) + rest + [Label(finalLabel), Nop]
    ensures Placed(code, labels) && Resolved(code)
    ensures Extends(rest, code) && At(code, entryLabel, EntryBody(m, labels))
    ensures Find(code, entryLabel) == Some(0)
  {
    var tail := [Label(finalLabel), Nop];
    TailReordered(rest + EntryBlock(m, labels, entryLabel), tail, code, labels);
    RootFirst(rest, m, labels, entryLabel, tail, code);
  }

  /** Moves the root's ENTRY block, which was emitted last, to the start of
      the function: a final label and a no-op mark the end of the range that
      `jit_insn_move_blocks_to_start` moves. */
  method MoveEntryToStart(f: JitFunction, ghost rest: seq<Insn>, node: Tree, labels: LabelTable, entryLabel: LabelId)
      returns (finalLabel: LabelId)
    requires f.Valid() && Placed(f.code, labels) && Resolved(f.code)
    requires Eq(node.key) in labels && Dif(node.key) in labels
    requires Label(entryLabel) !in rest
    requires f.code == rest + EntryBlock(node, labels, entryLabel)
    modifies f
    ensures f.Valid() && Placed(f.code, labels) && Resolved(f.code)
    ensures f.code == EntryBlock(node, labels, entryLabel) + rest + [Label(finalLabel), Nop]
    ensures Extends(rest, f.code) && At(f.code, entryLabel, EntryBody(node, labels))
    ensures Find(f.code, entryLabel) == Some(0)
  {
    finalLabel := f.InsnLabel();
    f.InsnNop();
    assert f.code == rest + EntryBlock(node, labels, entryLabel) + [Label(finalLabel), Nop];
    RootMoved(rest, node, labels, entryLabel, finalLabel);
    var moved := f.MoveBlocksToStart(entryLabel, finalLabel);
    MovedToStart(rest, node, labels, entryLabel, finalLabel, f.code);
  }

  /** The state of the translation once the pre-order entries from `k` on
      have been emitted: their names (and BRNULL) are the whole table, every
      label of the table is placed, every jump is resolved, the blocks of
      those entries and the BRNULL block are in place, and once the root is
      emitted its ENTRY block comes first. */
  ghost predicate Progress(code: seq<Insn>, labels: LabelTable, p: seq<Tree>, k: nat)
  {
    && Placed(code, labels) && Resolved(code)
    && labels.Keys == {BrNull} + Names(p, k)
    && At(code, labels[BrNull], [Return(NotFound)])
    && (forall j {:trigger EntryEmitted(code, labels, p, j)} :: k <= j < |p| ==> EntryEmitted(code, labels, p, j))
    && (k == 0 ==> Entry in labels && Find(code, labels[Entry]) == Some(0))
  }

  /** Emitting the blocks of entry `i` puts them in place and keeps the
      blocks of the later entries in place. */
  lemma AdvanceEntries(p: seq<Tree>, i: nat, node: Tree, c0: seq<Insn>, labels0: LabelTable,
                       code: seq<Insn>, labels: LabelTable, eqLabel: LabelId, difLabel: LabelId, entryLabel: LabelId)
    requires i < |p| && node == p[i]
    requires forall j {:trigger EntryEmitted(c0, labels0, p, j)} :: i + 1 <= j < |p| ==> EntryEmitted(c0, labels0, p, j)
    requires Eq(node.key) !in labels0 && Dif(node.key) !in labels0 && EntryName(node, i == 0) !in labels0
    requires ChildEntry(node.left) in labels0 && ChildEntry(node.right) in labels0
    requires labels == labels0[Eq(node.key) := eqLabel][Dif(node.key) := difLabel][EntryName(node, i == 0) := entryLabel]
    requires Label(eqLabel) !in c0 && Label(difLabel) !in c0 && eqLabel != difLabel
    requires Extends(c0 + NodeCode(node, labels, eqLabel, difLabel), code)
    requires At(code, entryLabel, EntryBody(node, labels))
    ensures Extends(c0, code)
    ensures forall j {:trigger EntryEmitted(code, labels, p, j)} :: i <= j < |p| ==> EntryEmitted(code, labels, p, j)
  {
    TableAdded(labels0, node, i == 0, eqLabel, difLabel, entryLabel);
    NodeBlocksPlaced(c0, code, node, i == 0, labels);
    StepKept(p, i, c0, labels0, code, labels);
  }

  /** The names of entry `i` join the table. */
  lemma AdvanceNames(p: seq<Tree>, i: nat, node: Tree, labels0: LabelTable, labels: LabelTable,
                     eqLabel: LabelId, difLabel: LabelId, entryLabel: LabelId)
    requires i < |p| && node == p[i]
    requires labels0.Keys == {BrNull} + Names(p, i + 1)
    requires labels == labels0[Eq(node.key) := eqLabel][Dif(node.key) := difLabel][EntryName(node, i == 0) := entryLabel]
    ensures labels.Keys == {BrNull} + Names(p, i)
  {
    assert Names(p, i) == NodeNames(node, i == 0) + Names(p, i + 1);
  }

  /** Emitting the blocks of entry `i` advances the translation from entry
      `i + 1` to entry `i`. */
  lemma Advance(root: Tree, p: seq<Tree>, i: nat, node: Tree, c0: seq<Insn>, labels0: LabelTable,
                code: seq<Insn>, labels: LabelTable, eqLabel: LabelId, difLabel: LabelId, entryLabel: LabelId)
    requires IsBst(root) && p == PreOrder(root) && i < |p| && node == p[i]
    requires Progress(c0, labels0, p, i + 1)
    requires Eq(node.key) !in labels0 && Dif(node.key) !in labels0 && EntryName(node, i == 0) !in labels0
    requires ChildEntry(node.left) in labels0 && ChildEntry(node.right) in labels0
    requires labels == labels0[Eq(node.key) := eqLabel][Dif(node.key) := difLabel][EntryName(node, i == 0) := entryLabel]
    requires Label(eqLabel) !in c0 && Label(difLabel) !in c0 && eqLabel != difLabel
    requires Extends(c0 + NodeCode(node, labels, eqLabel, difLabel), code)
    requires At(code, entryLabel, EntryBody(node, labels))
    requires Placed(code, labels) && Resolved(code)
    requires i == 0 ==> Find(code, entryLabel) == Some(0)
    ensures Progress(code, labels, p, i)
  {
    AdvanceEntries(p, i, node, c0, labels0, code, labels, eqLabel, difLabel, entryLabel);
    AdvanceNames(p, i, node, labels0, labels, eqLabel, difLabel, entryLabel);
    assert labels[BrNull] == labels0[BrNull];
    assert At(code, labels[BrNull], [Return(NotFound)]);
  }

  /** Compiles the search tree `root` into a branch program. The program
      starts with the root's ENTRY block; every jump in it has a placed label;
      run on any argument it returns the value stored under that key, or
      NotFound. */
  method TranslateAvlTree(root: Tree) returns (code: seq<Insn>)
    requires IsBst(root)
    ensures Resolved(code)
    ensures forall x, fuel :: fuel >= 6 * Height(root) + 2 ==> Run(code, 0, x, fuel) == Some(Lookup(root, x))
  {
    var f := new JitFunction();

    // BRNULL block: the key is not in the tree.
    var nullLabel := f.InsnLabel();
    f.InsnReturn(NotFound);
    var labels: LabelTable := map[BrNull := nullLabel];
    NullEmitted(nullLabel);

    // Flatten the tree into pre-order: the root first, every node before its descendants.
    var preOrder := BuildPreOrder(root);
    ghost var p := preOrder;

    // Emit the blocks from the end of the list: children before parents, the root last.
    while |preOrder| > 0
      invariant f.Valid() && Progress(f.code, labels, p, |preOrder|)
      invariant |preOrder| <= |p| && preOrder == p[..|preOrder|]
    {
      var node := preOrder[|preOrder| - 1];
      preOrder := preOrder[..|preOrder| - 1];
      ghost var i := |preOrder|;
      assert node == p[i] && preOrder == p[..i];
      ghost var c0, labels0 := f.code, labels;
      PopFresh(root, p, i, labels);
      PopChildren(root, p, i, labels);

      var eqLabel, difLabel, entryLabel;
      labels, eqLabel, difLabel, entryLabel := EmitBlocks(f, node, labels, |preOrder| == 0);
      ghost var rest := c0 + NodeCode(node, labels, eqLabel, difLabel);
      if |preOrder| == 0 {
        // Move the ENTRY block to the start of the function.
        var finalLabel := MoveEntryToStart(f, rest, node, labels, entryLabel);
      } else {
        EntryAppended(rest, node, labels, entryLabel);
      }
      Advance(root, p, i, node, c0, labels0, f.code, labels, eqLabel, difLabel, entryLabel);
    }
    code := f.code;
    EmittedByIndex(root, code, labels);
    ProgramComputesLookup(root, code, labels);
  }
}
