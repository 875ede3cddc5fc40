/** The part of libjit the compiler drives: an instruction stream with labels,
    the branch instructions it emits, and what running the finished function does. */
module Jit {
  import opened Wrappers

  /** A label number, as libjit hands out when `jit_insn_label` places an
      undefined label. */
  type LabelId = nat

  /** A comparison of the function's single argument with an embedded key
      constant (`jit_insn_gt` and `jit_insn_eq` against a constant). */
  datatype Cond = Greater(key: int) | Equal(key: int)

  predicate Holds(c: Cond, arg: int)
  {
    match c
    case Greater(k) => arg > k
    case Equal(k) => arg == k
  }

  datatype Insn =
    | Label(id: LabelId)                          // jit_insn_label: a block starts here
    | Return(result: int)                         // jit_insn_return of a constant
    | Branch(target: LabelId)                     // jit_insn_branch
    | BranchIf(cond: Cond, target: LabelId)       // jit_insn_branch_if
    | BranchIfNot(cond: Cond, target: LabelId)    // jit_insn_branch_if_not
    | Nop                                         // jit_insn_nop

  predicate IsJump(insn: Insn)
  {
    insn.Branch? || insn.BranchIf? || insn.BranchIfNot?
  }

  /** Where label `l` is placed: the first position holding `Label(l)`. */
  function Find(code: seq<Insn>, l: LabelId): (r: Option<nat>)
    ensures r.Some? ==> r.value < |code| && code[r.value] == Label(l)
  {
    if code == [] then None
    else if code[0] == Label(l) then Some(0)
    else
      match Find(code[1..], l)
      case None => None
      case Some(i) => Some(i + 1)
  }

  /** `Find` gives nothing exactly when the label is not placed, and otherwise
      its first position. */
  lemma {:induction false} FindFirst(code: seq<Insn>, l: LabelId)
    ensures Find(code, l).None? <==> Label(l) !in code
    ensures Find(code, l).Some? ==> Label(l) !in code[..Find(code, l).value]
  {
    if code != [] && code[0] != Label(l) {
      FindFirst(code[1..], l);
      assert code == [code[0]] + code[1..];
      match Find(code[1..], l)
      case None =>
      case Some(i) =>
        assert code[..i + 1] == [code[0]] + code[1..][..i];
    }
  }

  /** Every jump names a label that is placed somewhere in the stream, so
      finalising the function (`jit_function_compile`) cannot fail on an
      undefined label. */
  ghost predicate Resolved(code: seq<Insn>)
  {
    forall insn :: insn in code && IsJump(insn) ==> Label(insn.target) in code
  }

  /** What one instruction does: finish with a value, continue at a position,
      or get stuck (off the end of the stream, or at a jump to an unplaced label). */
  datatype Outcome = Done(result: int) | Continue(pc: nat) | Stuck

  /** Control continues at label `l`. */
  function GoTo(code: seq<Insn>, l: LabelId): Outcome
  {
    match Find(code, l)
    case None => Stuck
    case Some(i) => Continue(i)
  }

  /** Executes the instruction at `pc` on argument `arg`. Labels and no-ops
      fall through; a conditional branch jumps when its condition holds
      (`branch_if`) or fails (`branch_if_not`) and falls through otherwise. */
  function Step(code: seq<Insn>, pc: nat, arg: int): Outcome
  {
    if pc >= |code| then Stuck
    else match code[pc]
      case Label(_) => Continue(pc + 1)
      case Nop => Continue(pc + 1)
      case Return(v) => Done(v)
      case Branch(l) => GoTo(code, l)
      case BranchIf(c, l) => if Holds(c, arg) then GoTo(code, l) else Continue(pc + 1)
      case BranchIfNot(c, l) => if Holds(c, arg) then Continue(pc + 1) else GoTo(code, l)
  }

  /** Runs the stream from position `pc` on argument `arg` for at most `fuel`
      steps; None when it gets stuck or runs out of fuel. */
  function Run(code: seq<Insn>, pc: nat, arg: int, fuel: nat): Option<int>
    decreases fuel
  {
    if fuel == 0 then None
    else match Step(code, pc, arg)
      case Done(v) => Some(v)
      case Stuck => None
      case Continue(next) => Run(code, next, arg, fuel - 1)
  }

  /** Runs from label `l`. */
  function Jump(code: seq<Insn>, l: LabelId, arg: int, fuel: nat): Option<int>
  {
    match Find(code, l)
    case None => None
    case Some(i) => Run(code, i, arg, fuel)
  }

  /** Label `l` is placed and the instructions right after it are `body`. */
  ghost predicate At(code: seq<Insn>, l: LabelId, body: seq<Insn>)
  {
    match Find(code, l)
    case None => false
    case Some(i) => i + |body| < |code| && code[i + 1..i + 1 + |body|] == body
  }

  /** Every block placed in `code` is still placed, with the same body, in `code'`. */
  ghost predicate Extends(code: seq<Insn>, code': seq<Insn>)
  {
    forall l, body :: At(code, l, body) ==> At(code', l, body)
  }

  lemma {:induction false} FindAt(code: seq<Insn>, l: LabelId, i: nat)
    requires i < |code| && code[i] == Label(l) && Label(l) !in code[..i]
    ensures Find(code, l) == Some(i)
  {
    if i > 0 {
      assert code[0] == code[..i][0];
      assert code[1..][..i - 1] == code[..i][1..];
      FindAt(code[1..], l, i - 1);
    }
  }

  /** A label placed fresh, followed by `body`, is found with that body however
      the stream continues. */
  lemma AtFresh(before: seq<Insn>, l: LabelId, body: seq<Insn>, after: seq<Insn>)
    requires Label(l) !in before
    ensures At(before + [Label(l)] + body + after, l, body)
  {
    var code := before + [Label(l)] + body + after;
    assert code[..|before|] == before;
    FindAt(code, l, |before|);
    assert code[|before| + 1..|before| + 1 + |body|] == body;
  }

  /** Appending instructions keeps every placed block. */
  lemma ExtendsPrefix(code: seq<Insn>, code': seq<Insn>)
    requires code <= code'
    ensures Extends(code, code')
  {
    forall l, body | At(code, l, body)
      ensures At(code', l, body)
    {
      var i := Find(code, l).value;
      FindFirst(code, l);
      assert code'[..i] == code[..i];
      FindAt(code', l, i);
      assert code'[i + 1..i + 1 + |body|] == code[i + 1..i + 1 + |body|];
    }
  }

  /** Moving a segment `moved` that places none of the labels of `rest` in
      front of it keeps every block placed in `rest`. */
  lemma ExtendsRelocate(rest: seq<Insn>, moved: seq<Insn>, tail: seq<Insn>)
    requires forall l :: Label(l) in moved ==> Label(l) !in rest
    ensures Extends(rest, moved + rest + tail)
  {
    var code' := moved + rest + tail;
    forall l, body | At(rest, l, body)
      ensures At(code', l, body)
    {
      var i := Find(rest, l).value;
      FindFirst(rest, l);
      var k := |moved| + i;
      assert code'[k] == Label(l);
      assert code'[..k] == moved + rest[..i];
      FindAt(code', l, k);
      assert code'[k + 1..k + 1 + |body|] == rest[i + 1..i + 1 + |body|];
    }
  }

  lemma ExtendsTrans(a: seq<Insn>, b: seq<Insn>, c: seq<Insn>)
    requires Extends(a, b) && Extends(b, c)
    ensures Extends(a, c)
  {
  }

  /** A return block ends the run with its constant. */
  lemma {:induction false} JumpReturn(code: seq<Insn>, l: LabelId, v: int, arg: int, fuel: nat)
    requires At(code, l, [Return(v)]) && fuel >= 2
    ensures Jump(code, l, arg, fuel) == Some(v)
  {
    var i := Find(code, l).value;
    assert code[i + 1] == code[i + 1..i + 2][0];
    assert Jump(code, l, arg, fuel) == Run(code, i, arg, fuel) == Run(code, i + 1, arg, fuel - 1);
  }

  /** An unconditional block continues at its target. */
  lemma {:induction false} JumpBranch(code: seq<Insn>, l: LabelId, target: LabelId, arg: int, fuel: nat)
    requires At(code, l, [Branch(target)]) && fuel >= 2
    ensures Jump(code, l, arg, fuel) == Jump(code, target, arg, fuel - 2)
  {
    var i := Find(code, l).value;
    assert code[i + 1] == code[i + 1..i + 2][0];
    assert Jump(code, l, arg, fuel) == Run(code, i, arg, fuel) == Run(code, i + 1, arg, fuel - 1);
  }

  /** A block made of a `branch_if` and a `branch_if_not` on the same condition
      always leaves through one of its two targets: control never falls
      through into the next block. */
  lemma {:induction false} JumpCondPair(code: seq<Insn>, l: LabelId, c: Cond, onTrue: LabelId, onFalse: LabelId,
                                        arg: int, fuel: nat)
    requires At(code, l, [BranchIf(c, onTrue), BranchIfNot(c, onFalse)]) && fuel >= 3
    ensures Jump(code, l, arg, fuel) ==
            if Holds(c, arg) then Jump(code, onTrue, arg, fuel - 2) else Jump(code, onFalse, arg, fuel - 3)
  {
    var i := Find(code, l).value;
    assert code[i + 1] == code[i + 1..i + 3][0];
    assert code[i + 2] == code[i + 1..i + 3][1];
    assert Jump(code, l, arg, fuel) == Run(code, i, arg, fuel) == Run(code, i + 1, arg, fuel - 1);
    if !Holds(c, arg) {
      assert Run(code, i + 1, arg, fuel - 1) == Run(code, i + 2, arg, fuel - 2);
    }
  }

  /** A function under construction (`jit_function_t`): the instructions
      emitted so far and libjit's counter of label numbers. */
  class JitFunction {
    var code: seq<Insn>
    var nextLabel: LabelId

    /** Every placed label was numbered below the counter, so the next one is fresh. */
    ghost predicate Valid()
      reads this
    {
      forall insn :: insn in code && insn.Label? ==> insn.id < nextLabel
    }

    /** `jit_function_create`: an empty body. */
    constructor ()
      ensures Valid() && code == [] && nextLabel == 0
    {
      code := [];
      nextLabel := 0;
    }

    /** `jit_insn_label` on an undefined label: number it and place it here. */
    method InsnLabel() returns (l: LabelId)
      requires Valid()
      modifies this
      ensures Valid()
      ensures l == old(nextLabel) && nextLabel == l + 1
      ensures Label(l) !in old(code) && code == old(code) + [Label(l)]
    {
      l := nextLabel;
      code := code + [Label(l)];
      nextLabel := nextLabel + 1;
    }

    method InsnReturn(v: int)
      requires Valid()
      modifies this
      ensures Valid() && nextLabel == old(nextLabel)
      ensures code == old(code) + [Return(v)]
    {
      code := code + [Return(v)];
    }

    method InsnBranch(target: LabelId)
      requires Valid()
      modifies this
      ensures Valid() && nextLabel == old(nextLabel)
      ensures code == old(code) + [Branch(target)]
    {
      code := code + [Branch(target)];
    }

    method InsnBranchIf(c: Cond, target: LabelId)
      requires Valid()
      modifies this
      ensures Valid() && nextLabel == old(nextLabel)
      ensures code == old(code) + [BranchIf(c, target)]
    {
      code := code + [BranchIf(c, target)];
    }

    method InsnBranchIfNot(c: Cond, target: LabelId)
      requires Valid()
      modifies this
      ensures Valid() && nextLabel == old(nextLabel)
      ensures code == old(code) + [BranchIfNot(c, target)]
    {
      code := code + [BranchIfNot(c, target)];
    }

    method InsnNop()
      requires Valid()
      modifies this
      ensures Valid() && nextLabel == old(nextLabel)
      ensures code == old(code) + [Nop]
    {
      code := code + [Nop];
    }

    /** `jit_insn_move_blocks_to_start`: the blocks from label `from` up to,
        not including, label `to` move to the front of the stream. When either
        label is not placed, or `to` comes first, nothing moves and the result
        is false. */
    method MoveBlocksToStart(from: LabelId, to: LabelId) returns (ok: bool)
      requires Valid()
      modifies this
      ensures Valid() && nextLabel == old(nextLabel)
      ensures multiset(code) == multiset(old(code))
      ensures match (Find(old(code), from), Find(old(code), to))
              case (Some(a), Some(b)) =>
                ok == (a <= b) &&
                code == if a <= b then old(code)[a..b] + old(code)[..a] + old(code)[b..] else old(code)
              case _ => !ok && code == old(code)
    {
      ok := false;
      var a, b := Find(code, from), Find(code, to);
      if a.Some? && b.Some? && a.value <= b.value {
        var i, j := a.value, b.value;
        assert code == code[..i] + code[i..j] + code[j..];
        code := code[i..j] + code[..i] + code[j..];
        ok := true;
      }
    }
  }
}
