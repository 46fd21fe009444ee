/** How gas decides a run, and how a run's record decides the host. */
module VmGas {
  import opened Basics
  import opened ByteStrings
  import opened ExampleVm

  /** The same ending with `k` more gas wherever an ending reports gas. */
  function MoreGas<H>(e: Ending<H>, k: nat): Ending<H> {
    match e
    case FellOff(g, c) => FellOff(g + k, c)
    case Halted(status, g, output, c) => if status in {Success, Revert} then Halted(status, g + k, output, c) else e
    case Faulted(_, _) => e
  }

  predicate RanOutOfGas<H(==)>(e: Ending<H>) {
    e.Halted? && e.status == OutOfGas
  }

  // ----- the record only grows -----

  /** Repeats one recorded call; fails if the host would answer differently. */
  function ReplayEvent<H>(env: Env<H>, h: H, e: Event): Option<H> {
    match e
    case AskedBlockNumber(number) => var r := env.host.blockNumber(h); if r.0 == number then Some(r.1) else None
    case GotStorage(key, value) => var r := env.host.getStorage(h, env.recipient, key); if r.0 == value then Some(r.1) else None
    case SetStorage(key, value) => Some(env.host.setStorage(h, env.recipient, key, value))
    case Called(msg, result) => var r := env.host.call(h, msg); if r.0 == result then Some(r.1) else None
    case Expanded(_, _) => Some(h)
    case Stored(_, _) => Some(h)
  }

  const RECORDED_OPS: set<byte> := {OP_NUMBER, OP_MSTORE, OP_SLOAD, OP_SSTORE, OP_CALL, OP_RETURN, OP_REVERT}

  /** The other instructions record nothing and leave the host alone. */
  lemma ExecRecordsNothing<H>(env: Env<H>, op: byte, immediate: seq<byte>, c: Core<H>)
    requires |immediate| == PushWidth(op) && op !in RECORDED_OPS
    ensures var c' := Exec(env, op, immediate, c).core; c'.trace == c.trace && c'.host == c.host
  {
  }

  /** Any instruction but CALL records at most one event, which leads from the old host to the new. */
  lemma ExecRecordsOne<H>(env: Env<H>, op: byte, immediate: seq<byte>, c: Core<H>)
    requires |immediate| == PushWidth(op) && op != OP_CALL
    ensures var c' := Exec(env, op, immediate, c).core;
            || (c'.trace == c.trace && c'.host == c.host)
            || exists e :: c'.trace == c.trace + [e] && ReplayEvent(env, c.host, e) == Some(c'.host)
  {
    if op in RECORDED_OPS {
      var c' := Exec(env, op, immediate, c).core;
      if c'.trace != c.trace {
        assert c'.trace == c.trace + [c'.trace[|c.trace|]];
      }
    } else {
      ExecRecordsNothing(env, op, immediate, c);
    }
  }

  /** CALL records nothing, or two expansions, the call and the copy of its output. */
  lemma CallOnlyAppends<H>(env: Env<H>, c: Core<H>)
    ensures var c' := ExecCall(env, c).core;
            c'.trace == c.trace || (c.trace <= c'.trace && |c'.trace| == |c.trace| + 4)
  {
  }

  lemma ExecOnlyAppends<H>(env: Env<H>, op: byte, immediate: seq<byte>, c: Core<H>)
    requires |immediate| == PushWidth(op)
    ensures c.trace <= Exec(env, op, immediate, c).core.trace
  {
    if op == OP_CALL {
      CallOnlyAppends(env, c);
    } else {
      ExecRecordsOne(env, op, immediate, c);
    }
  }

  lemma {:induction false} RunOnlyAppends<H>(env: Env<H>, code: seq<byte>, s: State<H>)
    ensures s.core.trace <= Run(env, code, s).core.trace
    decreases |code| - s.pc
  {
    if s.pc >= |code| || s.gas <= 0 || s.pc + 1 + PushWidth(code[s.pc]) > |code| {
    } else {
      ExecOnlyAppends(env, code[s.pc], code[s.pc + 1..s.pc + 1 + PushWidth(code[s.pc])], s.core);
      match Step(env, code, s)
      case Finish(_) =>
      case Continue(s') => RunOnlyAppends(env, code, s');
    }
  }

  // ----- monotonicity -----

  /** No instruction reports that the gas ran out; only the loop does. */
  lemma ExecNeverRunsOut<H>(env: Env<H>, op: byte, immediate: seq<byte>, c: Core<H>)
    requires |immediate| == PushWidth(op)
    ensures var e := Exec(env, op, immediate, c); e.Stop? ==> e.status != OutOfGas
  {
  }

  lemma SettleGas<H>(next: nat, gas: int, e: Effect<H>, k: nat)
    requires e.Stop? ==> e.status != OutOfGas
    ensures var m, m' := Settle(next, gas, e), Settle(next, gas + k, e);
            if m.Continue? then m' == Continue(m.state.(gas := gas + k))
            else !RanOutOfGas(m.ending) && m' == Finish(MoreGas(m.ending, k))
  {
  }

  lemma StepGas<H>(env: Env<H>, code: seq<byte>, s: State<H>, k: nat)
    ensures var m, m' := Step(env, code, s), Step(env, code, s.(gas := s.gas + k));
            if m.Continue? then m' == Continue(m.state.(gas := m.state.gas + k))
            else if RanOutOfGas(m.ending) then m.ending.core == s.core
            else m' == Finish(MoreGas(m.ending, k))
  {
    if s.pc >= |code| || s.gas <= 0 || s.pc + 1 + PushWidth(code[s.pc]) > |code| {
    } else {
      var next := s.pc + 1 + PushWidth(code[s.pc]);
      var immediate := code[s.pc + 1..next];
      ExecNeverRunsOut(env, code[s.pc], immediate, s.core);
      SettleGas(next, s.gas - 1, Exec(env, code[s.pc], immediate, s.core), k);
    }
  }

  /**
   * More gas changes nothing but the gas left: same status, output, stack, memory, host state and record.
   * A run that was cut short did a prefix of what the run with more gas does.
   */
  lemma {:induction false} GasIsMonotone<H>(env: Env<H>, code: seq<byte>, s: State<H>, k: nat)
    ensures var e, e' := Run(env, code, s), Run(env, code, s.(gas := s.gas + k));
            if RanOutOfGas(e) then e.core.trace <= e'.core.trace else e' == MoreGas(e, k)
    decreases |code| - s.pc
  {
    var s' := s.(gas := s.gas + k);
    StepGas(env, code, s, k);
    match Step(env, code, s)
    case Finish(e) =>
      if RanOutOfGas(e) {
        RunOnlyAppends(env, code, s');
      }
    case Continue(next) => GasIsMonotone(env, code, next, k);
  }

  // ----- accounting -----

  /** Each completed iteration costs one gas and consumes at least one code byte. */
  lemma {:induction false} GasAtHead<H>(env: Env<H>, code: seq<byte>, s: State<H>, n: nat)
    requires After(env, code, s, n).Some?
    ensures var t := After(env, code, s, n).value;
            t.gas == s.gas - n && n <= t.pc - s.pc && (n > 0 ==> t.pc <= |code| && t.gas >= 0)
    decreases n
  {
    if n == 0 {
    } else {
      AfterLast(env, code, s, n);
      GasAtHead(env, code, s, n - 1);
    }
  }

  /** The gas reported is the gas supplied minus the instructions executed, the halting one included. */
  lemma GasLeftCountsInstructions<H>(env: Env<H>, code: seq<byte>, gas: int, host: H)
    returns (n: nat, last: State<H>)
    ensures After(env, code, Initial(gas, host), n) == Some(last) && n <= |code|
    ensures var e := Run(env, code, Initial(gas, host));
            && Step(env, code, last) == Finish(e)
            && (e.FellOff? ==> e.gasLeft == gas - n)
            && (e.Halted? ==> e.gasLeft == if e.status in {Success, Revert} then gas - n - 1 else 0)
  {
    n, last := RunHasLastStep(env, code, Initial(gas, host));
    GasAtHead(env, code, Initial(gas, host), n);
  }

  /** A step runs out of gas exactly where there is code but no gas. */
  lemma StepRunsOut<H>(env: Env<H>, code: seq<byte>, s: State<H>)
    ensures var m := Step(env, code, s);
            m.Finish? && RanOutOfGas(m.ending) <==> s.pc < |code| && s.gas <= 0
  {
    if s.pc >= |code| || s.gas <= 0 || s.pc + 1 + PushWidth(code[s.pc]) > |code| {
    } else {
      ExecNeverRunsOut(env, code[s.pc], code[s.pc + 1..s.pc + 1 + PushWidth(code[s.pc])], s.core);
    }
  }

  /** As much gas as code bytes is always enough. */
  lemma EnoughGasNeverRunsOut<H>(env: Env<H>, code: seq<byte>, gas: int, host: H)
    requires gas >= |code|
    ensures !RanOutOfGas(Run(env, code, Initial(gas, host)))
  {
    var n, last := RunHasLastStep(env, code, Initial(gas, host));
    GasAtHead(env, code, Initial(gas, host), n);
    StepRunsOut(env, code, last);
  }

  // ----- the record determines the host -----

  function Replay<H>(env: Env<H>, h: H, trace: seq<Event>): Option<H> {
    if trace == [] then Some(h)
    else
      var before := Replay(env, h, trace[..|trace| - 1]);
      if before.None? then None else ReplayEvent(env, before.value, trace[|trace| - 1])
  }

  lemma ReplayLast<H>(env: Env<H>, h: H, trace: seq<Event>, e: Event)
    requires Replay(env, h, trace).Some?
    ensures Replay(env, h, trace + [e]) == ReplayEvent(env, Replay(env, h, trace).value, e)
  {
    assert (trace + [e])[..|trace|] == trace;
  }

  lemma ReplayLastTwo<H>(env: Env<H>, h: H, trace: seq<Event>, e: Event, e': Event)
    requires Replay(env, h, trace).Some? && ReplayEvent(env, Replay(env, h, trace).value, e).Some?
    ensures Replay(env, h, trace + [e, e'])
            == ReplayEvent(env, ReplayEvent(env, Replay(env, h, trace).value, e).value, e')
  {
    ReplayLast(env, h, trace, e);
    ReplayLast(env, h, trace + [e], e');
    assert trace + [e, e'] == trace + [e] + [e'];
  }

  lemma CallIsRecorded<H>(env: Env<H>, c: Core<H>, h0: H)
    requires Replay(env, h0, c.trace) == Some(c.host)
    ensures var c' := ExecCall(env, c).core; Replay(env, h0, c'.trace) == Some(c'.host)
  {
    var t := ExecCall(env, c).core.trace;
    if |t| > |c.trace| {
      var mid := c.trace + [t[|c.trace|], t[|c.trace| + 1]];
      ReplayLastTwo(env, h0, c.trace, t[|c.trace|], t[|c.trace| + 1]);
      ReplayLastTwo(env, h0, mid, t[|mid|], t[|mid| + 1]);
    }
  }

  lemma ExecIsRecorded<H>(env: Env<H>, op: byte, immediate: seq<byte>, c: Core<H>, h0: H)
    requires |immediate| == PushWidth(op) && Replay(env, h0, c.trace) == Some(c.host)
    ensures var c' := Exec(env, op, immediate, c).core; Replay(env, h0, c'.trace) == Some(c'.host)
  {
    var c' := Exec(env, op, immediate, c).core;
    if op == OP_CALL {
      CallIsRecorded(env, c, h0);
    } else {
      ExecRecordsOne(env, op, immediate, c);
      if c'.trace != c.trace {
        var e :| c'.trace == c.trace + [e] && ReplayEvent(env, c.host, e) == Some(c'.host);
        ReplayLast(env, h0, c.trace, e);
      }
    }
  }

  /** Replaying the recorded calls on the initial host gives the same answers and the final host. */
  lemma {:induction false} RecordDeterminesHost<H>(env: Env<H>, code: seq<byte>, s: State<H>, h0: H)
    requires Replay(env, h0, s.core.trace) == Some(s.core.host)
    ensures var c := Run(env, code, s).core; Replay(env, h0, c.trace) == Some(c.host)
    decreases |code| - s.pc
  {
    if s.pc >= |code| || s.gas <= 0 || s.pc + 1 + PushWidth(code[s.pc]) > |code| {
    } else {
      ExecIsRecorded(env, code[s.pc], code[s.pc + 1..s.pc + 1 + PushWidth(code[s.pc])], s.core, h0);
      match Step(env, code, s)
      case Finish(_) =>
      case Continue(s') => RecordDeterminesHost(env, code, s', h0);
    }
  }
}
