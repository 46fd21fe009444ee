/**
 * The example interpreter as a deterministic transition system.
 *
 * The source checks neither stack bounds nor truncated PUSH data, and its memory bound is computed modulo
 * 2^32.  A transition that would leave those limits ends in an explicit fault, so every theorem about runs
 * is stated over all code, all input, all gas and all hosts.
 */
module ExampleVm {
  import opened Basics
  import opened ByteStrings

  const STACK_LIMIT: nat := 1024
  const MEMORY_LIMIT: nat := 1024
  const TWO_32: nat := 0x1_0000_0000

  const OP_STOP: byte := 0x00
  const OP_ADD: byte := 0x01
  const OP_ADDRESS: byte := 0x30
  const OP_CALLDATALOAD: byte := 0x35
  const OP_NUMBER: byte := 0x43
  const OP_MSTORE: byte := 0x52
  const OP_SLOAD: byte := 0x54
  const OP_SSTORE: byte := 0x55
  const OP_MSIZE: byte := 0x59
  const OP_PUSH1: byte := 0x60
  const OP_PUSH32: byte := 0x7f
  const OP_DUP1: byte := 0x80
  const OP_CALL: byte := 0xf1
  const OP_RETURN: byte := 0xf3
  const OP_REVERT: byte := 0xfd

  // ----- values -----

  type uint32 = x: nat | x < TWO_32

  /** Creates a 256-bit value out of a 32-bit one. */
  function ToWord(x: uint32): Word {
    Zeros(28) + [x / 0x100_0000, x / 0x1_0000 % 0x100, x / 0x100 % 0x100, x % 0x100]
  }

  /** Creates a 256-bit value out of a 160-bit address. */
  function AddressToWord(a: Address): Word {
    Zeros(12) + a
  }

  /** The last four bytes as a number. */
  function ToUint32(w: Word): uint32 {
    var b: seq<nat> := w;
    b[28] * 0x100_0000 + b[29] * 0x1_0000 + b[30] * 0x100 + b[31]
  }

  function ToAddress(w: Word): Address {
    w[12..]
  }

  // ----- the host -----

  datatype CallMessage = CallMessage(gas: nat, recipient: Address, value: Word, input: seq<byte>)

  datatype CallResult = CallResult(success: bool, output: seq<byte>)

  /** A host is any deterministic state machine with these four transitions. */
  datatype HostInterface<!H> = HostInterface(
    getStorage: (H, Address, Word) -> (Word, H),
    setStorage: (H, Address, Word, Word) -> H,
    blockNumber: H -> (int, H),
    call: (H, CallMessage) -> (CallResult, H)
  )

  /** What stays fixed during a run: the message and the host's behaviour. */
  datatype Env<!H> = Env(recipient: Address, input: seq<byte>, host: HostInterface<H>)

  // ----- machine states -----

  datatype MemoryImage = MemoryImage(size: uint32, data: seq<byte>)

  type Mem = m: MemoryImage | |m.data| == MEMORY_LIMIT witness MemoryImage(0, Zeros(MEMORY_LIMIT))

  /** What a run has done so far, oldest first: calls into the host, and uses of its memory. */
  datatype Event =
    | AskedBlockNumber(number: int)
    | GotStorage(key: Word, value: Word)
    | SetStorage(key: Word, value: Word)
    | Called(msg: CallMessage, result: CallResult)
    | Expanded(offset: nat, length: nat)
    | Stored(offset: nat, bytes: seq<byte>)

  /** The part of the state that instructions can see; the top of the stack is the last element. */
  datatype Core<H> = Core(stack: seq<Word>, mem: Mem, host: H, trace: seq<Event>)

  datatype State<H> = State(pc: nat, gas: int, core: Core<H>)

  datatype Status = Success | Failure | Revert | OutOfGas | UndefinedInstruction

  datatype Fault = StackUnderflow | StackOverflow | CodeOverread | WildPointer

  datatype Ending<H> =
    | Halted(status: Status, gasLeft: int, output: seq<byte>, core: Core<H>)
    | FellOff(gasLeft: int, core: Core<H>)
    | Faulted(fault: Fault, core: Core<H>)

  // ----- memory -----

  datatype Region = Refused | Granted(mem: Mem) | Wild

  /** `Memory::expand`: the bound check is made on the sum modulo 2^32. */
  function Expand(m: Mem, offset: uint32, length: uint32): Region {
    var newSize := (offset + length) % TWO_32;
    if newSize > MEMORY_LIMIT then Refused
    else if offset + length >= TWO_32 then Wild
    else Granted(m.(size := Max(m.size, newSize)))
  }

  function Write(m: Mem, offset: nat, bytes: seq<byte>): Mem
    requires offset + |bytes| <= MEMORY_LIMIT
  {
    m.(data := m.data[..offset] + bytes + m.data[offset + |bytes|..])
  }

  // ----- instructions -----

  /** The effect of one instruction on the part of the state it can see. */
  datatype Effect<H> =
    | Next(core: Core<H>)
    | Stop(status: Status, output: seq<byte>, core: Core<H>)
    | Broken(fault: Fault, core: Core<H>)

  function Top<H>(c: Core<H>, i: nat): Word
    requires i < |c.stack|
  {
    c.stack[|c.stack| - 1 - i]
  }

  function Drop<H>(c: Core<H>, n: nat): Core<H>
    requires n <= |c.stack|
  {
    c.(stack := c.stack[..|c.stack| - n])
  }

  function Push<H>(c: Core<H>, w: Word): Effect<H> {
    if |c.stack| >= STACK_LIMIT then Broken(StackOverflow, c) else Next(c.(stack := c.stack + [w]))
  }

  function Log<H>(c: Core<H>, e: Event): Core<H> {
    c.(trace := c.trace + [e])
  }

  /** The input bytes from `offset` on, cut or zero-filled on the right to 32 bytes. */
  function CallData(input: seq<byte>, offset: nat): Word {
    if offset < |input| then
      var n := Min(|input| - offset, 32);
      input[offset..offset + n] + Zeros(32 - n)
    else
      ZERO_WORD
  }

  function ExecCallDataLoad<H>(env: Env<H>, c: Core<H>): Effect<H> {
    if |c.stack| < 1 then Broken(StackUnderflow, c)
    else Push(Drop(c, 1), CallData(env.input, ToUint32(Top(c, 0))))
  }

  function ExecNumber<H>(env: Env<H>, c: Core<H>): Effect<H> {
    var (number, host) := env.host.blockNumber(c.host);
    Push(Log(c.(host := host), AskedBlockNumber(number)), ToWord(number % TWO_32))
  }

  function ExecMStore<H>(c: Core<H>): Effect<H> {
    if |c.stack| < 2 then Broken(StackUnderflow, c)
    else
      var offset, value := ToUint32(Top(c, 0)), Top(c, 1);
      var c' := Drop(c, 2);
      match Expand(c.mem, offset, 32)
      case Refused => Stop(Failure, [], c')
      case Wild => Broken(WildPointer, c')
      case Granted(mem) => Next(Log(c'.(mem := Write(mem, offset, value)), Stored(offset, value)))
  }

  function ExecSLoad<H>(env: Env<H>, c: Core<H>): Effect<H> {
    if |c.stack| < 1 then Broken(StackUnderflow, c)
    else
      var key := Top(c, 0);
      var (value, host) := env.host.getStorage(c.host, env.recipient, key);
      Push(Log(Drop(c, 1).(host := host), GotStorage(key, value)), value)
  }

  function ExecSStore<H>(env: Env<H>, c: Core<H>): Effect<H> {
    if |c.stack| < 2 then Broken(StackUnderflow, c)
    else
      var key, value := Top(c, 0), Top(c, 1);
      Next(Log(Drop(c, 2).(host := env.host.setStorage(c.host, env.recipient, key, value)), SetStorage(key, value)))
  }

  function ExecDup<H>(c: Core<H>): Effect<H> {
    if |c.stack| < 1 then Broken(StackUnderflow, c)
    else Push(c, Top(c, 0))
  }

  /** The two regions of a call, the input's first; both are expanded before either result is looked at. */
  function CallRegions<H>(c: Core<H>): (Region, Region)
    requires |c.stack| >= 7
  {
    var r1 := Expand(c.mem, ToUint32(Top(c, 3)), ToUint32(Top(c, 4)));
    (r1, Expand(if r1.Granted? then r1.mem else c.mem, ToUint32(Top(c, 5)), ToUint32(Top(c, 6))))
  }

  predicate CallIsGranted<H>(c: Core<H>)
    requires |c.stack| >= 7
  {
    CallRegions(c).0.Granted? && CallRegions(c).1.Granted?
  }

  function MessageOf<H>(c: Core<H>): CallMessage
    requires |c.stack| >= 7 && CallIsGranted(c)
  {
    var inOffset, inSize := ToUint32(Top(c, 3)), ToUint32(Top(c, 4));
    CallMessage(ToUint32(Top(c, 0)), ToAddress(Top(c, 1)), Top(c, 2), c.mem.data[inOffset..inOffset + inSize])
  }

  /** What is left when the operands are popped and the memory is expanded. */
  function CallPrepared<H>(c: Core<H>): Core<H>
    requires |c.stack| >= 7 && CallIsGranted(c)
  {
    Drop(c, 7).(mem := CallRegions(c).1.mem,
                trace := c.trace + [Expanded(ToUint32(Top(c, 3)), ToUint32(Top(c, 4))),
                                    Expanded(ToUint32(Top(c, 5)), ToUint32(Top(c, 6)))])
  }

  /** The host call itself, the success flag and the copy of the cut-off output. */
  function FinishCall<H>(env: Env<H>, c: Core<H>, msg: CallMessage, outOffset: nat, outSize: nat): Effect<H>
    requires outOffset + outSize <= MEMORY_LIMIT
  {
    var (result, host) := env.host.call(c.host, msg);
    var output := result.output[..Min(outSize, |result.output|)];
    Push(Core(c.stack, Write(c.mem, outOffset, output), host, c.trace + [Called(msg, result), Stored(outOffset, output)]),
         ToWord(if result.success then 1 else 0))
  }

  function ExecCall<H>(env: Env<H>, c: Core<H>): Effect<H> {
    if |c.stack| < 7 then Broken(StackUnderflow, c)
    else
      var (r1, r2) := CallRegions(c);
      if r1.Wild? || r2.Wild? then Broken(WildPointer, Drop(c, 7))
      else if r1.Refused? || r2.Refused? then Stop(Failure, [], Drop(c, 7))
      else FinishCall(env, CallPrepared(c), MessageOf(c), ToUint32(Top(c, 5)), ToUint32(Top(c, 6)))
  }

  function ExecReturn<H>(status: Status, c: Core<H>): Effect<H> {
    if |c.stack| < 2 then Broken(StackUnderflow, c)
    else
      var offset, length := ToUint32(Top(c, 0)), ToUint32(Top(c, 1));
      var c' := Drop(c, 2);
      match Expand(c.mem, offset, length)
      case Refused => Stop(Failure, [], c')
      case Wild => Broken(WildPointer, c')
      case Granted(mem) =>
        Stop(status, mem.data[offset..offset + length], c'.(mem := mem, trace := c.trace + [Expanded(offset, length)]))
  }

  function ExecAdd<H>(c: Core<H>): Effect<H> {
    if |c.stack| < 2 then Broken(StackUnderflow, c)
    else Push(Drop(c, 2), ToWord((ToUint32(Top(c, 0)) + ToUint32(Top(c, 1))) % TWO_32))
  }

  predicate IsPush(op: byte) {
    OP_PUSH1 <= op <= OP_PUSH32
  }

  /** The number of immediate bytes after the opcode. */
  function PushWidth(op: byte): (n: nat)
    ensures n <= 32 && (n > 0 <==> IsPush(op))
  {
    if IsPush(op) then op - OP_PUSH1 + 1 else 0
  }

  /** The instruction switch; `immediate` holds the push data. */
  function Exec<H>(env: Env<H>, op: byte, immediate: seq<byte>, c: Core<H>): Effect<H>
    requires |immediate| == PushWidth(op)
  {
    if op == OP_STOP then Stop(Success, [], c)
    else if op == OP_ADD then ExecAdd(c)
    else if op == OP_ADDRESS then Push(c, AddressToWord(env.recipient))
    else if op == OP_CALLDATALOAD then ExecCallDataLoad(env, c)
    else if op == OP_NUMBER then ExecNumber(env, c)
    else if op == OP_MSTORE then ExecMStore(c)
    else if op == OP_SLOAD then ExecSLoad(env, c)
    else if op == OP_SSTORE then ExecSStore(env, c)
    else if op == OP_MSIZE then Push(c, ToWord(c.mem.size))
    else if IsPush(op) then Push(c, Zeros(32 - |immediate|) + immediate)
    else if op == OP_DUP1 then ExecDup(c)
    else if op == OP_CALL then ExecCall(env, c)
    else if op == OP_RETURN then ExecReturn(Success, c)
    else if op == OP_REVERT then ExecReturn(Revert, c)
    else Stop(UndefinedInstruction, [], c)
  }

  // ----- runs -----

  datatype Move<H> = Continue(state: State<H>) | Finish(ending: Ending<H>)

  /** What an instruction's effect means for the loop; only success and revert report the gas left. */
  function Settle<H>(next: nat, gas: int, e: Effect<H>): Move<H> {
    match e
    case Next(c) => Continue(State(next, gas, c))
    case Broken(fault, c) => Finish(Faulted(fault, c))
    case Stop(status, output, c) => Finish(Halted(status, if status in {Success, Revert} then gas else 0, output, c))
  }

  /** One iteration of the interpreter loop, its exit included. */
  function Step<H>(env: Env<H>, code: seq<byte>, s: State<H>): (m: Move<H>)
    ensures m.Continue? ==> s.pc < m.state.pc <= |code|
  {
    if s.pc >= |code| then Finish(FellOff(s.gas, s.core))
    else if s.gas - 1 < 0 then Finish(Halted(OutOfGas, 0, [], s.core))
    else
      var op := code[s.pc];
      var next := s.pc + 1 + PushWidth(op);
      if next > |code| then Finish(Faulted(CodeOverread, s.core))
      else
        Settle(next, s.gas - 1, Exec(env, op, code[s.pc + 1..next], s.core))
  }

  /** The whole run from a loop head. */
  function Run<H>(env: Env<H>, code: seq<byte>, s: State<H>): Ending<H>
    decreases |code| - s.pc
  {
    match Step(env, code, s)
    case Finish(e) => e
    case Continue(s') => Run(env, code, s')
  }

  /** The loop head reached after `n` completed iterations, if the run gets that far. */
  function After<H>(env: Env<H>, code: seq<byte>, s: State<H>, n: nat): Option<State<H>>
    decreases n
  {
    if n == 0 then Some(s)
    else
      match Step(env, code, s)
      case Finish(_) => None
      case Continue(s') => After(env, code, s', n - 1)
  }

  function Initial<H>(gas: int, host: H): State<H> {
    State(0, gas, Core([], MemoryImage(0, Zeros(MEMORY_LIMIT)), host, []))
  }

  /** Every run has a last loop head, and ends with the step taken there. */
  lemma {:induction false} RunHasLastStep<H>(env: Env<H>, code: seq<byte>, s: State<H>) returns (n: nat, last: State<H>)
    ensures After(env, code, s, n) == Some(last)
    ensures Step(env, code, last) == Finish(Run(env, code, s))
    decreases |code| - s.pc
  {
    match Step(env, code, s)
    case Finish(_) => n, last := 0, s;
    case Continue(s') =>
      n, last := RunHasLastStep(env, code, s');
      n := n + 1;
  }

  /** Anything the loop body keeps holds at every loop head. */
  lemma {:induction false} AfterLast<H>(env: Env<H>, code: seq<byte>, s: State<H>, n: nat)
    requires n > 0 && After(env, code, s, n).Some?
    ensures var p := After(env, code, s, n - 1);
            p.Some? && Step(env, code, p.value) == Continue(After(env, code, s, n).value)
    decreases n
  {
    if n == 1 {
    } else {
      AfterLast(env, code, Step(env, code, s).state, n - 1);
    }
  }
}
