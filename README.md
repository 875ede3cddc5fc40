# A verified model of `translate_avl_tree`

`translate_avl_tree` (avl-libjit.c) compiles a GLib search tree into a libjit
function of one integer argument. The function performs the lookup with
branches over constants embedded in the code. There is no pointer walk at call
time. Compilation has two phases.

1. **Flattening.** A work stack seeded with the root is popped from its end.
   Each popped node is appended to a pre-order list. Its flagged right child is
   pushed, then its flagged left child.
2. **Emission.**
   - A `BRNULL` block that returns -1 comes first.
   - Nodes are then popped from the end of the pre-order list. Children are
     therefore emitted before their parent, and the root comes last.
   - Each node gets three blocks. `EQk` returns the node's value. `DIFk` sends a
     greater argument to the right child's `BRk` block and any other argument
     to the left child's; a missing child means `BRNULL`, and a leaf jumps
     straight to `BRNULL`. `BRk` (named `ENTRY` for the root) tests `arg == k`
     and goes to `EQk` or `DIFk`.
   - Labels are found through a name-keyed table.
   - Finally the root's `ENTRY` block is moved to the front of the function.

The project has five modules, one per file:

- `Wrappers` (wrappers.dfy): `Option`.
- `AvlTree` (avl_tree.dfy): the tree as the compiler sees it. Only flagged
  children are modelled. It also defines the key-to-value contents, the
  search-tree ordering, binary search and height.
- `Flatten` (flatten.dfy): the flattening loop, written as a method with a loop
  invariant and proved equal to a recursive pre-order function. The lemmas
  about that function are what the emission phase relies on.
- `Jit` (jit.dfy): the part of libjit the compiler drives.
  - An instruction stream with numbered labels.
  - A `JitFunction` class whose methods append instructions and move a block
    range to the front.
  - A step interpreter with fuel for running the finished function.
- `Translate` (translate.dfy): the label table, `map<LabelName, LabelId>`,
  where `LabelName` stands for the strings `BRNULL`, `EQk`, `DIFk`, `BRk` and
  `ENTRY`.
  - One method per emitted block, and the main method `TranslateAvlTree`.
  - The proof that every label lookup in the source finds its entry.
  - The proof that the finished program, started at position 0, returns the
    value stored under its argument, or -1 when the key is absent.

The specification and the code disagree in two places. The model follows the
code in both:

- **Empty tree.** The specification asks for an always-not-found function for
  an empty tree. The code pushes `avl_tree->root` unconditionally and
  dereferences it (avl-libjit.c:103-110). The model's `Tree` is therefore
  non-empty by construction.
- **Traversal order.** The specification allows any traversal order with the
  root last. The model keeps the code's exact order: pop last, push right,
  then push left.

## Model

| member | source | states |
|---|---|---|
| AvlTree.SubtreesClosed | avl-libjit.c:31-40 | the flagged children of any node reachable from the root are themselves reachable, and no reachable node is taller than the root |
| AvlTree.ContentsKeys | avl-libjit.c:31-40 | the keys of the stored key-to-value mapping are exactly the keys of the tree's nodes |
| AvlTree.OptContentsKeys | avl-libjit.c:31-40 | the same for a possibly missing child |
| AvlTree.SearchIsLookup | avl-libjit.c:137-180 | in a search tree, testing equality first, then going right on a greater argument and left otherwise, yields the value stored under the argument, or -1 when it is not a key |
| Flatten.BuildPreOrder | avl-libjit.c:102-111 | the stack loop terminates and leaves exactly the pre-order list of the tree: node, then left subtree, then right subtree |
| Flatten.PendingPush | avl-libjit.c:109-110 | pushing a node puts its whole pre-order in front of what the stack still yields |
| Flatten.PendingPushChild | avl-libjit.c:109-110 | pushing a child only when its flag is set adds that child's pre-order, or nothing |
| Flatten.PendingChildren | avl-libjit.c:109-110 | pushing the right child and then the left child makes the stack yield the left subtree, then the right subtree, then the rest |
| Flatten.PopPending | avl-libjit.c:105-110 | one loop step takes exactly the next pre-order node off the front of what the stack yields |
| Flatten.PreOrderCoversSubtrees | avl-libjit.c:103-111 | a node is in the flattened list if and only if it is reachable from the root through the child flags |
| Flatten.PreOrderKeys | avl-libjit.c:103-111 | every flattened node's key is a key of the tree |
| Flatten.PreOrderKeysDistinct | avl-libjit.c:103-111 | in a search tree no two positions of the flattened list hold the same key, so every node is appended exactly once |
| Flatten.PreOrderNested | avl-libjit.c:103-116 | the descendants of the node at position i fill the positions right after i, so every node precedes all its descendants and popping from the end handles descendants first |
| Flatten.PreOrderChildren | avl-libjit.c:109-110 | a node's left child is the next entry, and its right child comes right after the whole left subtree |
| Jit.Find | avl-libjit.c:97 | a label that is found sits at the returned position of the stream |
| Jit.FindFirst | avl-libjit.c:97 | the lookup fails exactly when the label is not placed, and otherwise it returns the label's first position |
| Jit.FindAt | avl-libjit.c:124 | a label whose first placement is at position i is found at i |
| Jit.AtFresh | avl-libjit.c:121-126 | a freshly numbered label followed by a body is found with that body, whatever comes after it |
| Jit.ExtendsPrefix | avl-libjit.c:113-212 | appending instructions keeps every placed block and its body |
| Jit.ExtendsRelocate | avl-libjit.c:219 | moving a segment that places none of the other labels to the front keeps every other block and its body |
| Jit.JumpReturn | avl-libjit.c:98-99 | entering a block that returns a constant yields that constant |
| Jit.JumpBranch | avl-libjit.c:144 | entering an unconditional branch block continues at its target |
| Jit.JumpCondPair | avl-libjit.c:178-180 | a `branch_if`/`branch_if_not` pair on one condition leaves through the first target when the condition holds and through the second when it fails, never falling through |
| Jit.JitFunction.constructor | avl-libjit.c:78 | a new function has an empty body and a fresh label counter |
| Jit.JitFunction.InsnLabel | avl-libjit.c:97 | numbers a label that has not been placed before, places it at the end and advances the counter |
| Jit.JitFunction.InsnReturn | avl-libjit.c:99 | appends a return of the constant |
| Jit.JitFunction.InsnBranch | avl-libjit.c:144 | appends an unconditional branch |
| Jit.JitFunction.InsnBranchIf | avl-libjit.c:179 | appends a branch taken when the condition holds |
| Jit.JitFunction.InsnBranchIfNot | avl-libjit.c:180 | appends a branch taken when the condition fails |
| Jit.JitFunction.InsnNop | avl-libjit.c:218 | appends a no-op |
| Jit.JitFunction.MoveBlocksToStart | avl-libjit.c:219 | when both labels are placed in order, the range from the first label up to the second moves to the front and nothing else changes order; otherwise the body is unchanged; either way it is a permutation of the old body |
| Translate.NodeEmittedKept | avl-libjit.c:113-212 | a node's blocks stay in place with the same targets while later code is appended and the table grows |
| Translate.NamesAvoid | avl-libjit.c:123-134 | when no later entry has key k, none of the names `EQk`, `DIFk`, `BRk` or `ENTRY` has been inserted |
| Translate.NodeRuns | avl-libjit.c:120-212 | one node's blocks return the value on `arg == k`, otherwise continue at the right child's entry (or `BRNULL`) on a greater argument and at the left child's (or `BRNULL`) on a smaller one |
| Translate.EntryComputesSearch | avl-libjit.c:113-212 | entering any node's entry block runs the binary search of that node's subtree, within six steps per level |
| Translate.EmittedByIndex | avl-libjit.c:113-116 | once the blocks of every flattened entry are emitted, with the first entry as root, the blocks of every node of the tree are emitted |
| Translate.ProgramComputesLookup | avl-libjit.c:214-219 | with every block emitted and `ENTRY` at position 0, the program returns the value stored under its argument, or -1 |
| Translate.ResolvedAppend | avl-libjit.c:225 | appending instructions whose jumps name placed labels keeps every jump resolved, the condition under which `jit_function_compile` succeeds |
| Translate.Reordered | avl-libjit.c:219 | permuting the instructions keeps every table label placed and every jump resolved |
| Translate.NodeBlocksPlaced | avl-libjit.c:120-134 | with fresh `EQk`/`DIFk` labels and the entry block placed, all three blocks of the node are in place and earlier blocks are kept |
| Translate.BlocksLabelsPlaced | avl-libjit.c:121-134 | after a node's blocks are appended, every label recorded in the table is placed |
| Translate.BlocksTargets | avl-libjit.c:137-212 | every jump in a node's blocks names a label taken from the table |
| Translate.BlocksPlaced | avl-libjit.c:120-212 | after a node's blocks are appended, every table label is placed and every jump is resolved |
| Translate.TableAdded | avl-libjit.c:127-197 | inserting a node's three fresh names keeps all earlier entries and adds exactly those names |
| Translate.NullEmitted | avl-libjit.c:93-100 | after the first block, the `BRNULL` label is placed with a block that returns -1, and the stream has no unresolved jump |
| Translate.EmitEq | avl-libjit.c:120-127 | emits a fresh label followed by a return of the node's value, and records it as `EQk` |
| Translate.EmitDif | avl-libjit.c:129-181 | emits a fresh label, recorded as `DIFk`, followed by a branch to `BRNULL` for a leaf, or for an inner node by a greater-than branch to the right child's entry (or `BRNULL`) and a not-greater branch to the left child's entry (or `BRNULL`) |
| Translate.EmitEntry | avl-libjit.c:183-212 | emits a fresh label, recorded as `ENTRY` for the root or `BRk` otherwise, followed by an equality branch to `EQk` and a not-equal branch to `DIFk` |
| Translate.EmitBlocks | avl-libjit.c:120-212 | emits a node's three blocks under three fresh, distinct labels, adds exactly its three names to the table, and keeps every label placed and every jump resolved |
| Translate.NamesHas | avl-libjit.c:113-116 | the names of every entry from i on have been inserted by the time entry i is popped |
| Translate.PopFresh | avl-libjit.c:123-197 | a popped node's `EQk`, `DIFk` and `BRk`/`ENTRY` names are not yet in the table, so no name is inserted twice |
| Translate.PopChildren | avl-libjit.c:140-175 | when a node is popped, `BRNULL` and the `BRk` names of its flagged children are already in the table, so the lookups guarded by `assert` succeed |
| Translate.StepKept | avl-libjit.c:113-116 | emitting one node keeps the blocks of all nodes emitted before it in place |
| Translate.RootMoved | avl-libjit.c:214-219 | the final label sits right after the root's entry block, so moving the range between them brings exactly that block to the front |
| Translate.EntryAppended | avl-libjit.c:193-197 | a non-root `BRk` block appended under a fresh label is in place and earlier blocks are kept |
| Translate.TailReordered | avl-libjit.c:216-219 | appending the final label and no-op and then moving blocks keeps every table label placed and every jump resolved |
| Translate.RootFirst | avl-libjit.c:219 | after the move, `ENTRY` is at position 0 with its body, and every other block keeps its body |
| Translate.MovedToStart | avl-libjit.c:214-219 | after the move the program starts with the root's entry block, and every label, jump and other block is unaffected |
| Translate.MoveEntryToStart | avl-libjit.c:214-219 | places a final label and a no-op after the root's entry block and moves that block to the front: it is then found at position 0 and every other block keeps its body |
| Translate.AdvanceEntries | avl-libjit.c:113-212 | after entry i is emitted, the blocks of every entry from i on are in place |
| Translate.AdvanceNames | avl-libjit.c:123-197 | after entry i is emitted, the table holds exactly `BRNULL` and the names of the entries from i on |
| Translate.Advance | avl-libjit.c:113-221 | one iteration of the emission loop preserves the loop's state: table contents, placed labels, resolved jumps, blocks in place, and `ENTRY` first once the root is done |
| Translate.TranslateAvlTree | avl-libjit.c:49-229 | for a search tree, the compiled function has every jump resolved, and started at its first instruction on any argument it returns the value stored under that key, or -1 |

## Left out

- `main` (avl-libjit.c:231-283), the benchmark harness, is not modelled. It covers random lookups, timing and printing.
- GLib tree construction and balancing are not modelled. The tree is an input value.
- `compare_int` is not modelled. It is GTree's comparator, not part of the compiler.
- The `balance` field and the threaded `left`/`right` pointers of unflagged children are not modelled. Only flagged children are children.
- libjit's context, signature and value creation are not modelled (avl-libjit.c:72-82, 98, 125, 178, 210). A comparison against an embedded constant is folded into the `Cond` of its branch.
- `jit_function_compile` and `jit_context_build_end` (avl-libjit.c:225-226) are not modelled as code generation. Their precondition, that every branch names a placed label, is the `Resolved` predicate, which `TranslateAvlTree` guarantees.
- The hash table is modelled as a map from tagged names. String formatting of `"EQ%d"` and the like, `g_strdup`/`g_free`, and the label memory are not modelled.
- The `assert`s on table lookups become preconditions of the emitting methods. `PopFresh` and `PopChildren` prove they always hold, so no abort path is modelled.
- The GList removal is simplified. `g_list_remove` removes the first occurrence of the node pointer. The model removes the last element, which is the same element because every node occurs once.
- Keys and values are unbounded integers. The pointer-to-int casts of GPOINTER_TO_INT are not modelled.
- `jit_insn_move_blocks_to_start` moves whole basic blocks. The model moves the instruction range between the two labels, which here is exactly the root's entry block.
- An empty tree is excluded by the `Tree` type, because the code dereferences the root unconditionally.
- TranslateAvlTree: the lookup result is stated only for runs allowed at least 6·height + 2 steps. The interpreter is fuel-bounded, and nothing is claimed about shorter runs.
