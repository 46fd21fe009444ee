/** The interpreter running on the mocked host: what a whole execution does to storage and to the gas meter. */
module VmOnMockedHost {
  import opened Basics
  import opened ByteStrings
  import opened ExampleVm
  import opened VmGas
  import opened StorageStatus
  import opened MockedHost
  import opened HostGas
  import opened HostLogs
  import opened VmInstructions

  /** The message the interpreter sends: what it does not set is zero. */
  function Sent(m: CallMessage): Message {
    Message(Header(PlainCall, 0, 0, m.gas, m.recipient, Zeros(20), m.value, ZERO_WORD, Zeros(20)), m.input)
  }

  /** The mocked host as an interpreter's host; its block number and its call result are configured once. */
  function Interface(blockNumber: int, callResult: CallResult): HostInterface<HostState> {
    HostInterface(
      (h: HostState, a: Address, k: Word) => (Slot(h.accounts, a, k).current, Apply(h, HostOp.GetStorage(a, k))),
      (h: HostState, a: Address, k: Word, v: Word) => Apply(h, HostOp.SetStorage(a, k, v)),
      (h: HostState) => (blockNumber, h),
      (h: HostState, m: CallMessage) => (callResult, Apply(h, HostOp.Call(Sent(m)))))
  }

  /** The host method behind one event, if it is one. */
  function OpOf(recipient: Address, e: Event): seq<HostOp> {
    match e
    case AskedBlockNumber(_) => [Other]
    case GotStorage(key, _) => [HostOp.GetStorage(recipient, key)]
    case SetStorage(key, value) => [HostOp.SetStorage(recipient, key, value)]
    case Called(m, _) => [HostOp.Call(Sent(m))]
    case Expanded(_, _) => []
    case Stored(_, _) => []
  }

  /** The host methods a recorded run has called. */
  function OpsOf(recipient: Address, trace: seq<Event>): seq<HostOp> {
    if trace == [] then []
    else OpsOf(recipient, trace[..|trace| - 1]) + OpOf(recipient, trace[|trace| - 1])
  }

  lemma ReplayOne(env: Env<HostState>, blockNumber: int, callResult: CallResult, h: HostState, e: Event)
    requires env.host == Interface(blockNumber, callResult) && ReplayEvent(env, h, e).Some?
    ensures var op := OpOf(env.recipient, e);
            ReplayEvent(env, h, e).value == if op == [] then h else Apply(h, op[0])
  {
  }

  lemma HistoryLast(h: HostState, ops: seq<HostOp>, op: seq<HostOp>)
    requires |op| <= 1
    ensures History(h, ops + op) == if op == [] then History(h, ops) else Apply(History(h, ops), op[0])
  {
    if op == [] {
      assert ops + op == ops;
    } else {
      assert (ops + op)[..|ops + op| - 1] == ops;
    }
  }

  lemma {:induction false} ReplayIsHistory(env: Env<HostState>, blockNumber: int, callResult: CallResult, h: HostState,
                                           trace: seq<Event>)
    requires env.host == Interface(blockNumber, callResult) && Replay(env, h, trace).Some?
    ensures Replay(env, h, trace) == Some(History(h, OpsOf(env.recipient, trace)))
  {
    if trace == [] {
    } else {
      var init, last := trace[..|trace| - 1], trace[|trace| - 1];
      ReplayIsHistory(env, blockNumber, callResult, h, init);
      ReplayOne(env, blockNumber, callResult, Replay(env, h, init).value, last);
      HistoryLast(h, OpsOf(env.recipient, init), OpOf(env.recipient, last));
    }
  }

  /**
   * Executing any code leaves the host in the state of the host calls it recorded.  In particular each storage slot
   * of the recipient ends with the value of the last SSTORE to it, and the metered net gas of the execution's writes
   * is their warm accesses plus the change of potential over all slots.
   */
  lemma ExecutionMetersItsWrites(env: Env<HostState>, blockNumber: int, callResult: CallResult, code: seq<byte>, gas: int,
                                 h: HostState, g: Schedule, key: Word)
    requires env.host == Interface(blockNumber, callResult)
    ensures var c := Run(env, code, Initial(gas, h)).core;
            var ops := OpsOf(env.recipient, c.trace);
            && c.host == History(h, ops)
            && Slot(c.host.accounts, env.recipient, key).current
               == (match LastWrite(ops, env.recipient, key)
                   case Some(v) => v
                   case None => Slot(h.accounts, env.recipient, key).current)
            && TotalCost(g, Statuses(h, ops)) - TotalRefund(g, Statuses(h, ops))
               == |Statuses(h, ops)| * g.warm + Total(c.host.accounts, PotentialWeight(g)) - Total(h.accounts, PotentialWeight(g))
  {
    var c := Run(env, code, Initial(gas, h)).core;
    var ops := OpsOf(env.recipient, c.trace);
    RecordDeterminesHost(env, code, Initial(gas, h), h);
    ReplayIsHistory(env, blockNumber, callResult, h, c.trace);
    SlotAfterHistory(h, ops, env.recipient, key);
    NetGasTelescopes(g, h, ops);
  }

  /** The record of a plain call whose operands are `c`'s; what the interpreter does not set is zero. */
  predicate RecordsOperands(c: Core<HostState>, r: RecordedCall)
    requires |c.stack| >= 7
  {
    && r.header.kind == PlainCall && r.header.flags == 0 && r.header.depth == 0
    && r.header.gas == Operand(c, 0)
    && BeValue(r.header.recipient) == BeValue(Top(c, 1)) % Pow256(20)
    && r.header.value == Top(c, 2)
    && r.header.sender == Zeros(20) && r.header.create2Salt == Zeros(32) && r.header.codeAddress == Zeros(20)
    && r.inputSize == Operand(c, 4)
  }

  lemma SentCarriesOperands(c: Core<HostState>, msg: CallMessage, r: RecordedCall, inputs: InputStore)
    requires |c.stack| >= 7 && CarriesOperands(c, msg) && Records(inputs, r, Sent(msg))
    ensures RecordsOperands(c, r) && InputOf(inputs, r) == Some(msg.input)
  {
  }

  /**
   * While the log has room, CALL on the mocked host adds one record with the operands of the instruction, whose input
   * reads back the memory region, leaves the accounts alone, and pushes whether the configured result is a success.
   */
  lemma CallLeavesRecord(env: Env<HostState>, blockNumber: int, callResult: CallResult, c: Core<HostState>,
                         messages: seq<Message>)
    requires env.host == Interface(blockNumber, callResult)
    requires CallLogMatches(c.host, messages) && |messages| < 100
    requires 7 <= |c.stack| <= STACK_LIMIT
    requires Operand(c, 3) + Operand(c, 4) <= 1024 && Operand(c, 5) + Operand(c, 6) <= 1024
    ensures Exec(env, 0xf1, [], c).Next?
    ensures var h, h' := c.host, Exec(env, 0xf1, [], c).core.host;
            && |h'.calls| == |h.calls| + 1 && h'.calls[..|h.calls|] == h.calls && h'.accounts == h.accounts
            && RecordsOperands(c, h'.calls[|h.calls|])
            && InputOf(h'.inputs, h'.calls[|h.calls|]) == Some(c.mem.data[Operand(c, 3)..Operand(c, 3) + Operand(c, 4)])
    ensures BeValue(Top(Exec(env, 0xf1, [], c).core, 0)) == (if callResult.success then 1 else 0)
  {
    CallIsRefused(env, c);
    var e := CallAnswers(env, c);
    var h := Apply(c.host, HostOp.Call(Sent(e.msg)));
    assert Exec(env, 0xf1, [], c).core.host == h && e.result == callResult;
    CallAddsRecord(c.host, messages, Sent(e.msg));
    assert e.msg.input == c.mem.data[Operand(c, 3)..Operand(c, 3) + Operand(c, 4)];
    SentCarriesOperands(c, e.msg, h.calls[|c.host.calls|], h.inputs);
  }
}
