/** Sequential composition of bytecode. */
module VmComposition {
  import opened ByteStrings
  import opened ExampleVm

  /** No PUSH met from `pc` on is cut off by the end of the code. */
  predicate WellFormed(code: seq<byte>, pc: nat)
    decreases |code| - pc
  {
    pc < |code| ==> pc + 1 + PushWidth(code[pc]) <= |code| && WellFormed(code, pc + 1 + PushWidth(code[pc]))
  }

  /** A move, seen from code that starts `offset` bytes further on. */
  function Shifted<H>(m: Move<H>, offset: nat): Move<H> {
    match m
    case Continue(s) => Continue(s.(pc := offset + s.pc))
    case Finish(e) => Finish(e)
  }

  lemma StepInSuffix<H>(env: Env<H>, a: seq<byte>, b: seq<byte>, s: State<H>)
    ensures Step(env, a + b, s.(pc := |a| + s.pc)) == Shifted(Step(env, b, s), |a|)
  {
    if s.pc < |b| {
      var next := s.pc + 1 + PushWidth(b[s.pc]);
      assert (a + b)[|a| + s.pc] == b[s.pc];
      if next <= |b| {
        assert (a + b)[|a| + s.pc + 1..|a| + next] == b[s.pc + 1..next];
      }
    }
  }

  /** A run of the second part does not notice the first. */
  lemma {:induction false} RunInSuffix<H>(env: Env<H>, a: seq<byte>, b: seq<byte>, s: State<H>)
    ensures Run(env, a + b, s.(pc := |a| + s.pc)) == Run(env, b, s)
    decreases |b| - s.pc
  {
    var t := s.(pc := |a| + s.pc);
    StepInSuffix(env, a, b, s);
    match Step(env, b, s)
    case Finish(e) =>
      assert Step(env, a + b, t) == Finish(e);
    case Continue(s') =>
      assert Step(env, a + b, t) == Continue(s'.(pc := |a| + s'.pc));
      RunInSuffix(env, a, b, s');
  }

  /** Inside the first part, the second is not noticed. */
  lemma StepInPrefix<H>(env: Env<H>, a: seq<byte>, b: seq<byte>, s: State<H>)
    requires s.pc < |a| && s.pc + 1 + PushWidth(a[s.pc]) <= |a|
    ensures Step(env, a + b, s) == Step(env, a, s)
    ensures Step(env, a, s).Continue? ==> Step(env, a, s).state.pc == s.pc + 1 + PushWidth(a[s.pc])
    ensures !(Step(env, a, s).Finish? && Step(env, a, s).ending.FellOff?)
  {
    var next := s.pc + 1 + PushWidth(a[s.pc]);
    assert (a + b)[s.pc] == a[s.pc] && (a + b)[s.pc + 1..next] == a[s.pc + 1..next];
  }

  /**
   * Running a ++ b is running a and then, if that fell off its end, running b from the resulting gas, stack,
   * memory and host; if a halted, b is never looked at.
   */
  lemma {:induction false} RunComposes<H>(env: Env<H>, a: seq<byte>, b: seq<byte>, s: State<H>)
    requires s.pc <= |a| && WellFormed(a, s.pc)
    ensures var e := Run(env, a, s);
            Run(env, a + b, s) == if e.FellOff? then Run(env, b, State(0, e.gasLeft, e.core)) else e
    decreases |a| - s.pc
  {
    if s.pc == |a| {
      RunInSuffix(env, a, b, s.(pc := 0));
    } else {
      StepInPrefix(env, a, b, s);
      match Step(env, a, s)
      case Finish(_) =>
      case Continue(s') => RunComposes(env, a, b, s');
    }
  }

  lemma ExecNeverOverreads<H>(env: Env<H>, op: byte, immediate: seq<byte>, c: Core<H>)
    requires |immediate| == PushWidth(op)
    ensures var e := Exec(env, op, immediate, c); e.Broken? ==> e.fault != CodeOverread
  {
  }

  /** Well-formed code is never read past its end, by any run. */
  lemma {:induction false} WellFormedNeverOverreads<H>(env: Env<H>, code: seq<byte>, s: State<H>)
    requires WellFormed(code, s.pc)
    ensures var e := Run(env, code, s); e.Faulted? ==> e.fault != CodeOverread
    decreases |code| - s.pc
  {
    if s.pc >= |code| {
    } else {
      var next := s.pc + 1 + PushWidth(code[s.pc]);
      ExecNeverOverreads(env, code[s.pc], code[s.pc + 1..next], s.core);
      match Step(env, code, s)
      case Finish(_) =>
      case Continue(s') => WellFormedNeverOverreads(env, code, s');
    }
  }

  /** Truncated push data is the one thing composition cannot repair: the concatenation reads into b instead. */
  lemma TruncatedPushDoesNotCompose<H>(env: Env<H>, host: H)
    ensures Run(env, [OP_PUSH1], Initial(1, host)).Faulted?
    ensures Run(env, [OP_PUSH1] + [OP_STOP], Initial(1, host)).FellOff?
  {
    var s := Initial(1, host);
    var code := [OP_PUSH1] + [OP_STOP];
    assert code[0] == OP_PUSH1 && |code| == 2;
    assert Step(env, code, s).Continue?;
    assert Step(env, code, s).state.pc == 2;
  }
}
