/** A static check built from the metrics table makes every run of the interpreter stack-safe. */
module VmStackSafety {
  import opened Basics
  import opened ByteStrings
  import opened ExampleVm
  import opened InstructionMetrics
  import opened VmComposition

  predicate Implemented(op: byte) {
    || IsPush(op)
    || op in {OP_STOP, OP_ADD, OP_ADDRESS, OP_CALLDATALOAD, OP_NUMBER, OP_MSTORE, OP_SLOAD, OP_SSTORE, OP_MSIZE,
              OP_DUP1, OP_CALL, OP_RETURN, OP_REVERT}
  }

  /** The linear scan: PUSH data is skipped, and every opcode finds its operands and stays within the limit. */
  predicate ScanPasses(code: seq<byte>, pc: nat, height: int)
    decreases |code| - pc
  {
    pc < |code| ==>
      var m := StackMetrics(code[pc]);
      var next := pc + 1 + PushWidth(code[pc]);
      && next <= |code|
      && m.required <= height
      && height + m.change <= 1024
      && ScanPasses(code, next, height + m.change)
  }

  /** The height the scan computes when it arrives at `target`. */
  function ScannedHeight(code: seq<byte>, pc: nat, height: int, target: nat): Option<int>
    decreases |code| - pc
  {
    if pc == target then Some(height)
    else if pc >= |code| then None
    else ScannedHeight(code, pc + 1 + PushWidth(code[pc]), height + StackMetrics(code[pc]).change, target)
  }

  lemma CallStack<H>(env: Env<H>, c: Core<H>)
    requires |c.stack| <= STACK_LIMIT
    ensures var e := ExecCall(env, c);
            && ((e.Broken? && e.fault == StackUnderflow) <==> |c.stack| < 7)
            && !(e.Broken? && e.fault == StackOverflow)
            && !(e.Stop? && e.status in {Success, Revert})
            && (e.Next? ==> |e.core.stack| == |c.stack| - 6)
  {
  }

  /** The table is exact: it tells when an implemented instruction leaves the stack, and how the height changes. */
  lemma TableIsExact<H>(env: Env<H>, op: byte, immediate: seq<byte>, c: Core<H>)
    requires Implemented(op) && |immediate| == PushWidth(op) && |c.stack| <= STACK_LIMIT
    ensures var e, m := Exec(env, op, immediate, c), StackMetrics(op);
            && ((e.Broken? && e.fault == StackUnderflow) <==> |c.stack| < m.required)
            && ((e.Broken? && e.fault == StackOverflow)
                <==> m.required <= |c.stack| && |c.stack| + m.change > STACK_LIMIT)
            && (e.Next? || (e.Stop? && e.status in {Success, Revert}) ==> |e.core.stack| == |c.stack| + m.change)
  {
    if op == OP_CALL {
      CallStack(env, c);
    } else if op in {OP_RETURN, OP_REVERT, OP_MSTORE} {
      assert StackMetrics(op) == Metrics(2, -2);
    }
  }

  // ----- one step -----

  /** What the local check refuses: push data cut off, operands missing, or a result past the limit. */
  predicate Refused(code: seq<byte>, pc: nat, height: int) {
    pc < |code| &&
    var m := StackMetrics(code[pc]);
    || pc + 1 + PushWidth(code[pc]) > |code|
    || (Implemented(code[pc]) && (m.required > height || height + m.change > 1024))
  }

  /** An ending that leaves the stack or the code. */
  predicate LeavesBounds<H(==)>(e: Ending<H>) {
    e.Faulted? && e.fault != WildPointer
  }

  /** An unimplemented opcode stops at once. */
  lemma UndefinedStops<H>(env: Env<H>, op: byte, immediate: seq<byte>, c: Core<H>)
    requires |immediate| == PushWidth(op) && !Implemented(op)
    ensures Exec(env, op, immediate, c) == Stop(UndefinedInstruction, [], c)
  {
  }

  /** A step that goes on moves to the next opcode and changes the height as the table says. */
  lemma ContinuingStep<H>(env: Env<H>, code: seq<byte>, s: State<H>)
    requires |s.core.stack| <= STACK_LIMIT && Step(env, code, s).Continue?
    ensures var s' := Step(env, code, s).state;
            && s.pc < |code|
            && s'.pc == s.pc + 1 + PushWidth(code[s.pc])
            && |s'.core.stack| == |s.core.stack| + StackMetrics(code[s.pc]).change <= STACK_LIMIT
            && !Refused(code, s.pc, |s.core.stack|)
  {
    var op := code[s.pc];
    var immediate := code[s.pc + 1..s.pc + 1 + PushWidth(op)];
    if Implemented(op) {
      TableIsExact(env, op, immediate, s.core);
    } else {
      UndefinedStops(env, op, immediate, s.core);
    }
  }

  /** An instruction leaves the bounds exactly where the table says so. */
  lemma BreakingInstruction<H>(env: Env<H>, op: byte, immediate: seq<byte>, c: Core<H>)
    requires |immediate| == PushWidth(op) && |c.stack| <= STACK_LIMIT
    ensures var e, m := Exec(env, op, immediate, c), StackMetrics(op);
            e.Broken? && e.fault != WildPointer
            <==> Implemented(op) && (m.required > |c.stack| || |c.stack| + m.change > STACK_LIMIT)
  {
    if Implemented(op) {
      TableIsExact(env, op, immediate, c);
      ExecNeverOverreads(env, op, immediate, c);
    } else {
      UndefinedStops(env, op, immediate, c);
    }
  }

  /** A step leaves the bounds exactly where there is gas to take it and the local check refuses. */
  lemma BreakingStep<H>(env: Env<H>, code: seq<byte>, s: State<H>)
    requires |s.core.stack| <= STACK_LIMIT
    ensures var m := Step(env, code, s);
            m.Finish? && LeavesBounds(m.ending) <==> s.gas > 0 && Refused(code, s.pc, |s.core.stack|)
  {
    if s.pc >= |code| || s.gas <= 0 || s.pc + 1 + PushWidth(code[s.pc]) > |code| {
    } else {
      BreakingInstruction(env, code[s.pc], code[s.pc + 1..s.pc + 1 + PushWidth(code[s.pc])], s.core);
    }
  }

  /** At a loop head that the scan passes, the step neither leaves the stack nor reads past the code. */
  lemma StepIsSafe<H>(env: Env<H>, code: seq<byte>, s: State<H>)
    requires |s.core.stack| <= STACK_LIMIT && ScanPasses(code, s.pc, |s.core.stack|)
    ensures var m := Step(env, code, s);
            if m.Continue? then
              && |m.state.core.stack| <= STACK_LIMIT
              && m.state.pc == s.pc + 1 + PushWidth(code[s.pc])
              && |m.state.core.stack| == |s.core.stack| + StackMetrics(code[s.pc]).change
              && ScanPasses(code, m.state.pc, |m.state.core.stack|)
            else
              m.ending.Faulted? ==> m.ending.fault == WildPointer
  {
    match Step(env, code, s)
    case Continue(_) => ContinuingStep(env, code, s);
    case Finish(_) => BreakingStep(env, code, s);
  }

  // ----- runs -----

  lemma {:induction false} ScanOnlyAdvances(code: seq<byte>, pc: nat, height: int, at: nat)
    requires ScannedHeight(code, pc, height, at).Some?
    ensures pc <= at
    decreases |code| - pc
  {
    if pc == at {
    } else {
      ScanOnlyAdvances(code, pc + 1 + PushWidth(code[pc]), height + StackMetrics(code[pc]).change, at);
    }
  }

  lemma {:induction false} ScannedHeightExtends(code: seq<byte>, pc: nat, height: int, at: nat, h: int)
    requires at < |code| && ScannedHeight(code, pc, height, at) == Some(h)
    ensures ScannedHeight(code, pc, height, at + 1 + PushWidth(code[at])) == Some(h + StackMetrics(code[at]).change)
    decreases |code| - pc
  {
    ScanOnlyAdvances(code, pc, height, at);
    if pc == at {
      assert ScannedHeight(code, at, h, at) == Some(h);
    } else {
      ScannedHeightExtends(code, pc + 1 + PushWidth(code[pc]), height + StackMetrics(code[pc]).change, at, h);
    }
  }

  /** A scan that passes accepts every opcode it arrives at. */
  lemma {:induction false} ScanPassesOnwards(code: seq<byte>, pc: nat, height: int, at: nat)
    requires ScanPasses(code, pc, height) && ScannedHeight(code, pc, height, at).Some?
    ensures ScanPasses(code, at, ScannedHeight(code, pc, height, at).value)
    decreases |code| - pc
  {
    if pc == at {
    } else {
      ScanPassesOnwards(code, pc + 1 + PushWidth(code[pc]), height + StackMetrics(code[pc]).change, at);
    }
  }

  lemma NextHeightIsScanned<H>(env: Env<H>, code: seq<byte>, s: State<H>)
    requires |s.core.stack| <= STACK_LIMIT && ScannedHeight(code, 0, 0, s.pc) == Some(|s.core.stack|)
    requires Step(env, code, s).Continue?
    ensures var s' := Step(env, code, s).state;
            |s'.core.stack| <= STACK_LIMIT && ScannedHeight(code, 0, 0, s'.pc) == Some(|s'.core.stack|)
  {
    ContinuingStep(env, code, s);
    ScannedHeightExtends(code, 0, 0, s.pc, |s.core.stack|);
  }

  /** At every loop head of every run of any code, the stack height is the one the scan computes for that pc. */
  lemma {:induction false} HeightIsScanned<H>(env: Env<H>, code: seq<byte>, gas: int, host: H, n: nat)
    requires After(env, code, Initial(gas, host), n).Some?
    ensures var s := After(env, code, Initial(gas, host), n).value;
            && |s.core.stack| <= STACK_LIMIT
            && ScannedHeight(code, 0, 0, s.pc) == Some(|s.core.stack|)
    decreases n
  {
    if n == 0 {
    } else {
      AfterLast(env, code, Initial(gas, host), n);
      HeightIsScanned(env, code, gas, host, n - 1);
      NextHeightIsScanned(env, code, After(env, code, Initial(gas, host), n - 1).value);
    }
  }

  /** The run arrives with gas at an opcode that the local check refuses at the scanned height. */
  ghost predicate ReachesRefusal<H>(env: Env<H>, code: seq<byte>, s: State<H>, n: nat) {
    var t := After(env, code, s, n);
    t.Some? && t.value.gas > 0 && Refused(code, t.value.pc, |t.value.core.stack|)
  }

  /** The ending of a run is the ending of the run from any of its loop heads. */
  lemma {:induction false} RunFromHead<H>(env: Env<H>, code: seq<byte>, s: State<H>, n: nat)
    requires After(env, code, s, n).Some?
    ensures Run(env, code, s) == Run(env, code, After(env, code, s, n).value)
    decreases n
  {
    if n == 0 {
    } else {
      match Step(env, code, s)
      case Finish(_) => assert false;
      case Continue(s') => RunFromHead(env, code, s', n - 1);
    }
  }

  /**
   * For all code: a run pops an empty stack, pushes past the limit or reads past the code if and only if it arrives,
   * with gas left, at an opcode the local check refuses.
   */
  lemma RefusalIsExact<H>(env: Env<H>, code: seq<byte>, gas: int, host: H)
    ensures LeavesBounds(Run(env, code, Initial(gas, host)))
            <==> exists n: nat :: ReachesRefusal(env, code, Initial(gas, host), n)
  {
    var s := Initial(gas, host);
    if LeavesBounds(Run(env, code, s)) {
      var n, last := RunHasLastStep(env, code, s);
      HeightIsScanned(env, code, gas, host, n);
      BreakingStep(env, code, last);
      assert ReachesRefusal(env, code, s, n);
    }
    if n: nat :| ReachesRefusal(env, code, s, n) {
      HeightIsScanned(env, code, gas, host, n);
      BreakingStep(env, code, After(env, code, s, n).value);
      RunFromHead(env, code, s, n);
    }
  }

  /** Checked code never pops an empty stack, pushes past the limit or reads past its end, whatever gas, input and host. */
  lemma CheckedCodeIsStackSafe<H>(env: Env<H>, code: seq<byte>, gas: int, host: H)
    requires ScanPasses(code, 0, 0)
    ensures var e := Run(env, code, Initial(gas, host));
            e.Faulted? ==> e.fault == WildPointer
  {
    RefusalIsExact(env, code, gas, host);
    if n: nat :| ReachesRefusal(env, code, Initial(gas, host), n) {
      HeightIsScanned(env, code, gas, host, n);
      ScanPassesOnwards(code, 0, 0, After(env, code, Initial(gas, host), n).value.pc);
      assert false;
    }
  }

  // ----- on straight-line code the whole scan is exact -----

  /** The implemented opcodes that neither halt nor touch memory. */
  predicate StraightLine(code: seq<byte>, pc: nat)
    decreases |code| - pc
  {
    pc < |code| ==>
      && (|| IsPush(code[pc])
          || code[pc] in {OP_ADD, OP_ADDRESS, OP_CALLDATALOAD, OP_NUMBER, OP_SLOAD, OP_SSTORE, OP_MSIZE, OP_DUP1})
      && StraightLine(code, pc + 1 + PushWidth(code[pc]))
  }

  /** A straight-line step with gas faults only by leaving the bounds, and otherwise goes on. */
  lemma StraightLineStep<H>(env: Env<H>, code: seq<byte>, s: State<H>)
    requires s.pc < |code| && StraightLine(code, s.pc) && s.gas > 0
    ensures var m := Step(env, code, s); m.Finish? ==> LeavesBounds(m.ending)
  {
  }

  lemma {:induction false} ScanIsExactFrom<H>(env: Env<H>, code: seq<byte>, s: State<H>)
    requires StraightLine(code, s.pc) && |s.core.stack| <= STACK_LIMIT && s.gas >= |code| - s.pc
    ensures Run(env, code, s).Faulted? <==> !ScanPasses(code, s.pc, |s.core.stack|)
    decreases |code| - s.pc
  {
    if s.pc >= |code| {
    } else {
      StraightLineStep(env, code, s);
      match Step(env, code, s)
      case Finish(_) => BreakingStep(env, code, s);
      case Continue(s') =>
        ContinuingStep(env, code, s);
        ScanIsExactFrom(env, code, s');
    }
  }

  /** On straight-line code with gas to run it, the check passes exactly when the run does not fault. */
  lemma ScanIsExact<H>(env: Env<H>, code: seq<byte>, gas: int, host: H)
    requires StraightLine(code, 0) && gas >= |code|
    ensures Run(env, code, Initial(gas, host)).Faulted? <==> !ScanPasses(code, 0, 0)
  {
    ScanIsExactFrom(env, code, Initial(gas, host));
  }
}
