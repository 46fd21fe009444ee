/** The interpreter as the source runs it: a pointer stack, a byte memory and a loop, refining the transition system. */
module VmExecute {
  import opened Basics
  import opened ByteStrings
  import opened ExampleVm

  class Stack {
    const items: array<Word>
    var pointer: nat  // the first empty slot

    ghost predicate Valid()
      reads this
    {
      items.Length == STACK_LIMIT && pointer <= STACK_LIMIT
    }

    ghost function Contents(): seq<Word>
      reads this, items
      requires Valid()
    {
      items[..pointer]
    }

    constructor ()
      ensures Valid() && Contents() == [] && fresh(items)
    {
      items := new Word[STACK_LIMIT](_ => ZERO_WORD);
      pointer := 0;
    }

    method Pop() returns (w: Word)
      requires Valid() && Contents() != []
      modifies this
      ensures Valid() && old(Contents()) == Contents() + [w]
      ensures items[..] == old(items[..])
    {
      pointer := pointer - 1;
      w := items[pointer];
    }

    method Push(w: Word)
      requires Valid() && |Contents()| < STACK_LIMIT
      modifies this, items
      ensures Valid() && Contents() == old(Contents()) + [w]
    {
      items[pointer] := w;
      pointer := pointer + 1;
    }
  }

  class Memory {
    var size: uint32
    const data: array<byte>

    ghost predicate Valid()
      reads this
    {
      data.Length == MEMORY_LIMIT
    }

    ghost function Image(): Mem
      reads this, data
      requires Valid()
    {
      MemoryImage(size, data[..])
    }

    constructor ()
      ensures Valid() && Image() == MemoryImage(0, Zeros(MEMORY_LIMIT)) && fresh(data)
    {
      size := 0;
      data := new byte[MEMORY_LIMIT](_ => 0);
      new;
      assert data[..] == Zeros(MEMORY_LIMIT);
    }

    /** Returns the index of the region, or None for the null pointer. */
    method Expand(offset: uint32, length: uint32) returns (p: Option<nat>)
      requires Valid() && !ExampleVm.Expand(Image(), offset, length).Wild?
      modifies `size
      ensures Valid()
      ensures match ExampleVm.Expand(old(Image()), offset, length)
              case Refused => p == None && Image() == old(Image())
              case Granted(mem) => p == Some(offset) && offset + length <= MEMORY_LIMIT && Image() == mem
              case Wild => false
    {
      var newSize := (offset + length) % TWO_32;
      if newSize > MEMORY_LIMIT {
        return None;
      }
      if newSize > size {
        size := newSize;
      }
      p := Some(offset);
    }

    method Store(offset: uint32, value: seq<byte>) returns (ok: bool)
      requires Valid() && |value| < TWO_32 && !ExampleVm.Expand(Image(), offset, |value|).Wild?
      modifies this, data
      ensures Valid()
      ensures match ExampleVm.Expand(old(Image()), offset, |value|)
              case Refused => !ok && Image() == old(Image())
              case Granted(mem) => ok && Image() == Write(mem, offset, value)
              case Wild => false
    {
      var p := Expand(offset, |value|);
      if p.None? {
        return false;
      }
      forall i | 0 <= i < |value| {
        data[p.value + i] := value[i];
      }
      ok := true;
    }
  }

  datatype Result = Result(status: Status, gasLeft: int, output: seq<byte>)

  function ResultOf<H>(e: Ending<H>): Result
    requires !e.Faulted?
  {
    match e
    case FellOff(gasLeft, _) => Result(Success, gasLeft, [])
    case Halted(status, gasLeft, output, _) => Result(status, gasLeft, output)
  }

  ghost predicate Ready(stack: Stack, memory: Memory)
    reads stack, memory
  {
    stack.Valid() && memory.Valid() && stack.items as object != memory.data
  }

  ghost function CoreOf<H>(stack: Stack, memory: Memory, host: H, trace: seq<Event>): Core<H>
    reads stack, stack.items, memory, memory.data
    requires Ready(stack, memory)
  {
    Core(stack.Contents(), memory.Image(), host, trace)
  }

  const STACK_OPS: set<byte> := {OP_ADD, OP_CALLDATALOAD, OP_DUP1}
  const CONSTANT_OPS: set<byte> := {OP_ADDRESS, OP_MSIZE}
  const HOST_OPS: set<byte> := {OP_NUMBER, OP_SLOAD, OP_SSTORE}

  method AddInstruction<H>(stack: Stack, memory: Memory, ghost h: H, ghost trace: seq<Event>)
    requires Ready(stack, memory) && ExecAdd(CoreOf(stack, memory, h, trace)).Next?
    modifies stack, stack.items
    ensures Ready(stack, memory)
    ensures ExecAdd(old(CoreOf(stack, memory, h, trace))) == Next(CoreOf(stack, memory, h, trace))
  {
    var x := stack.Pop();
    var y := stack.Pop();
    stack.Push(ToWord((ToUint32(x) + ToUint32(y)) % TWO_32));
  }

  /** The cases of the switch that compute on the stack. */
  method StackInstruction<H>(env: Env<H>, op: byte, stack: Stack, memory: Memory, ghost h: H, ghost trace: seq<Event>)
    requires Ready(stack, memory) && op in STACK_OPS
    requires Exec(env, op, [], CoreOf(stack, memory, h, trace)).Next?
    modifies stack, stack.items
    ensures Ready(stack, memory)
    ensures Exec(env, op, [], old(CoreOf(stack, memory, h, trace))) == Next(CoreOf(stack, memory, h, trace))
  {
    if op == OP_ADD {
      AddInstruction(stack, memory, h, trace);
    } else if op == OP_CALLDATALOAD {
      var offset := stack.Pop();
      stack.Push(CallData(env.input, ToUint32(offset)));
    } else {
      var value := stack.Pop();
      stack.Push(value);
      stack.Push(value);
    }
  }

  /** The cases of the switch that push something already there. */
  method ConstantInstruction<H>(env: Env<H>, op: byte, immediate: seq<byte>, stack: Stack, memory: Memory, ghost h: H,
                                ghost trace: seq<Event>)
    requires Ready(stack, memory) && |immediate| == PushWidth(op) && (op in CONSTANT_OPS || IsPush(op))
    requires Exec(env, op, immediate, CoreOf(stack, memory, h, trace)).Next?
    modifies stack, stack.items
    ensures Ready(stack, memory)
    ensures Exec(env, op, immediate, old(CoreOf(stack, memory, h, trace))) == Next(CoreOf(stack, memory, h, trace))
  {
    if op == OP_ADDRESS {
      stack.Push(AddressToWord(env.recipient));
    } else if op == OP_MSIZE {
      stack.Push(ToWord(memory.size));
    } else {
      stack.Push(Zeros(32 - |immediate|) + immediate);
    }
  }

  /** The cases of the switch that ask the host, with a record of what was asked and answered. */
  method HostInstruction<H>(env: Env<H>, op: byte, stack: Stack, memory: Memory, h: H, ghost trace: seq<Event>)
    returns (h': H, ghost trace': seq<Event>)
    requires Ready(stack, memory) && op in HOST_OPS
    requires Exec(env, op, [], CoreOf(stack, memory, h, trace)).Next?
    modifies stack, stack.items
    ensures Ready(stack, memory)
    ensures Exec(env, op, [], old(CoreOf(stack, memory, h, trace))) == Next(CoreOf(stack, memory, h', trace'))
  {
    if op == OP_NUMBER {
      var (number, host) := env.host.blockNumber(h);
      h', trace' := host, trace + [AskedBlockNumber(number)];
      stack.Push(ToWord(number % TWO_32));
    } else if op == OP_SLOAD {
      var key := stack.Pop();
      var (value, host) := env.host.getStorage(h, env.recipient, key);
      h', trace' := host, trace + [GotStorage(key, value)];
      stack.Push(value);
    } else {
      var key := stack.Pop();
      var value := stack.Pop();
      h' := env.host.setStorage(h, env.recipient, key, value);
      trace' := trace + [SetStorage(key, value)];
    }
  }

  method MStoreInstruction<H>(stack: Stack, memory: Memory, h: H, ghost trace: seq<Event>)
    returns (ok: bool, ghost trace': seq<Event>)
    requires Ready(stack, memory) && !ExecMStore(CoreOf(stack, memory, h, trace)).Broken?
    modifies stack, memory, memory.data
    ensures Ready(stack, memory)
    ensures var e := ExecMStore(old(CoreOf(stack, memory, h, trace)));
            if e.Next? then ok && CoreOf(stack, memory, h, trace') == e.core
            else !ok && e == Stop(Failure, [], e.core) && e.core.host == h && e.core.trace == trace'
  {
    var index := stack.Pop();
    var value := stack.Pop();
    ok := memory.Store(ToUint32(index), value);
    trace' := if ok then trace + [Stored(ToUint32(index), value)] else trace;
  }

  method PopThree(stack: Stack) returns (x: Word, y: Word, z: Word)
    requires stack.Valid() && |stack.Contents()| >= 3
    modifies stack
    ensures stack.Valid() && stack.items[..] == old(stack.items[..])
    ensures var s := old(stack.Contents());
            stack.Contents() == s[..|s| - 3] && x == s[|s| - 1] && y == s[|s| - 2] && z == s[|s| - 3]
  {
    x := stack.Pop();
    y := stack.Pop();
    z := stack.Pop();
  }

  /** Pops the offset and the size of a region and expands the memory by it. */
  method PopRegion(stack: Stack, memory: Memory) returns (offset: uint32, length: uint32, p: Option<nat>)
    requires Ready(stack, memory) && |stack.Contents()| >= 2
    requires var s := stack.Contents();
             !ExampleVm.Expand(memory.Image(), ToUint32(s[|s| - 1]), ToUint32(s[|s| - 2])).Wild?
    modifies stack, memory`size
    ensures Ready(stack, memory) && stack.items[..] == old(stack.items[..])
    ensures var s := old(stack.Contents());
            && stack.Contents() == s[..|s| - 2]
            && offset == ToUint32(s[|s| - 1]) && length == ToUint32(s[|s| - 2])
    ensures match ExampleVm.Expand(old(memory.Image()), offset, length)
            case Refused => p == None && memory.Image() == old(memory.Image())
            case Granted(mem) => p == Some(offset) && offset + length <= MEMORY_LIMIT && memory.Image() == mem
            case Wild => false
  {
    var w := stack.Pop();
    var w' := stack.Pop();
    offset, length := ToUint32(w), ToUint32(w');
    p := memory.Expand(offset, length);
  }

  /** The region expanded by RETURN and REVERT, or None where the source returns a failure. */
  method ReturnInstruction<H>(ghost status: Status, stack: Stack, memory: Memory, h: H, ghost trace: seq<Event>)
    returns (output: Option<seq<byte>>, ghost trace': seq<Event>)
    requires Ready(stack, memory) && !ExecReturn(status, CoreOf(stack, memory, h, trace)).Broken?
    modifies stack, memory
    ensures Ready(stack, memory)
    ensures var e := ExecReturn(status, old(CoreOf(stack, memory, h, trace)));
            && e.core.host == h && e.core.trace == trace'
            && e == if output.Some? then Stop(status, output.value, e.core) else Stop(Failure, [], e.core)
  {
    var offset, length, p := PopRegion(stack, memory);
    if p.None? {
      return None, trace;
    }
    output, trace' := Some(memory.data[p.value..p.value + length]), trace + [Expanded(offset, length)];
  }

  lemma CallNotGranted<H>(env: Env<H>, c: Core<H>)
    requires !ExecCall(env, c).Broken?
    ensures |c.stack| >= 7 && !CallRegions(c).0.Wild? && !CallRegions(c).1.Wild?
    ensures CallRegions(c).0.Refused? || CallRegions(c).1.Refused? ==> ExecCall(env, c) == Stop(Failure, [], Drop(c, 7))
    ensures CallIsGranted(c) ==> ExecCall(env, c).Next?
  {
  }

  lemma GrantedInside(m: Mem, offset: uint32, length: uint32)
    ensures var r := ExampleVm.Expand(m, offset, length);
            r.Granted? ==> offset + length <= Min(r.mem.size, MEMORY_LIMIT) && r.mem.data == m.data
  {
  }

  lemma CallGranted<H>(env: Env<H>, c: Core<H>)
    requires |c.stack| >= 7 && CallIsGranted(c)
    ensures var outOffset, outSize := ToUint32(Top(c, 5)), ToUint32(Top(c, 6));
            && outOffset + outSize <= Min(CallRegions(c).1.mem.size, MEMORY_LIMIT)
            && ExecCall(env, c) == FinishCall(env, CallPrepared(c), MessageOf(c), outOffset, outSize)
  {
    GrantedInside(CallRegions(c).0.mem, ToUint32(Top(c, 5)), ToUint32(Top(c, 6)));
    assert !CallRegions(c).0.Refused? && !CallRegions(c).1.Refused?;
  }

  /** The host call, the pushed success flag and the copy of the output. */
  method MakeCall<H>(env: Env<H>, stack: Stack, memory: Memory, h: H, ghost trace: seq<Event>, msg: CallMessage,
                     outOffset: uint32, outSize: uint32)
    returns (h': H, ghost trace': seq<Event>)
    requires Ready(stack, memory) && outOffset + outSize <= Min(memory.size, MEMORY_LIMIT)
    requires FinishCall(env, CoreOf(stack, memory, h, trace), msg, outOffset, outSize).Next?
    modifies stack, stack.items, memory, memory.data
    ensures Ready(stack, memory)
    ensures FinishCall(env, old(CoreOf(stack, memory, h, trace)), msg, outOffset, outSize)
            == Next(CoreOf(stack, memory, h', trace'))
  {
    var (result, host) := env.host.call(h, msg);
    h' := host;
    stack.Push(ToWord(if result.success then 1 else 0));
    var n := outSize;
    if n > |result.output| {
      n := |result.output|;
    }
    ghost var m := memory.Image();
    assert ExampleVm.Expand(m, outOffset, n) == Granted(m);
    var stored := memory.Store(outOffset, result.output[..n]);
    trace' := trace + [Called(msg, result), Stored(outOffset, result.output[..n])];
  }

  /** Pops the seven operands of a call and expands the memory by both regions. */
  method PopCall<H>(stack: Stack, memory: Memory, ghost c: Core<H>)
    returns (gas: Word, recipient: Word, value: Word, input: Option<seq<byte>>, ghost inOffset: uint32, ghost inSize: uint32,
             outOffset: uint32, outSize: uint32)
    requires Ready(stack, memory) && c == CoreOf(stack, memory, c.host, c.trace)
    requires |c.stack| >= 7 && !CallRegions(c).0.Wild? && !CallRegions(c).1.Wild?
    modifies stack, memory`size
    ensures Ready(stack, memory) && stack.Contents() == c.stack[..|c.stack| - 7]
    ensures gas == Top(c, 0) && recipient == Top(c, 1) && value == Top(c, 2)
    ensures inOffset == ToUint32(Top(c, 3)) && inSize == ToUint32(Top(c, 4))
    ensures outOffset == ToUint32(Top(c, 5)) && outSize == ToUint32(Top(c, 6))
    ensures input.Some? <==> CallIsGranted(c)
    ensures input.Some? ==>
              && inOffset + inSize <= MEMORY_LIMIT && input.value == c.mem.data[inOffset..inOffset + inSize]
              && memory.Image() == CallRegions(c).1.mem
  {
    gas, recipient, value := PopThree(stack);
    var offset, size, inPtr := PopRegion(stack, memory);
    inOffset, inSize := offset, size;
    var outPtr;
    outOffset, outSize, outPtr := PopRegion(stack, memory);
    if inPtr.None? || outPtr.None? {
      input := None;
    } else {
      input := Some(memory.data[inPtr.value..inPtr.value + size]);
    }
  }

  method CallInstruction<H>(env: Env<H>, stack: Stack, memory: Memory, h: H, ghost trace: seq<Event>)
    returns (ok: bool, h': H, ghost trace': seq<Event>)
    requires Ready(stack, memory) && !ExecCall(env, CoreOf(stack, memory, h, trace)).Broken?
    modifies stack, stack.items, memory, memory.data
    ensures Ready(stack, memory)
    ensures var e := ExecCall(env, old(CoreOf(stack, memory, h, trace)));
            if e.Next? then ok && CoreOf(stack, memory, h', trace') == e.core
            else !ok && e == Stop(Failure, [], e.core) && e.core.host == h' && e.core.trace == trace'
  {
    ghost var c := CoreOf(stack, memory, h, trace);
    CallNotGranted(env, c);
    h', trace' := h, trace;
    var gas, recipient, value, input, inOffset, inSize, outOffset, outSize := PopCall(stack, memory, c);
    if input.None? {
      return false, h', trace';
    }
    CallGranted(env, c);
    var msg := CallMessage(ToUint32(gas), ToAddress(recipient), value, input.value);
    trace' := trace + [Expanded(inOffset, inSize), Expanded(outOffset, outSize)];
    assert msg == MessageOf(c) && CoreOf(stack, memory, h, trace') == CallPrepared(c);
    ok := true;
    h', trace' := MakeCall(env, stack, memory, h, trace', msg, outOffset, outSize);
  }

  /** The switch: None to go on, or the status and output to return. */
  method Instruction<H>(env: Env<H>, op: byte, immediate: seq<byte>, stack: Stack, memory: Memory, h: H,
                        ghost trace: seq<Event>)
    returns (halt: Option<(Status, seq<byte>)>, h': H, ghost trace': seq<Event>)
    requires Ready(stack, memory) && |immediate| == PushWidth(op)
    requires !Exec(env, op, immediate, CoreOf(stack, memory, h, trace)).Broken?
    modifies stack, stack.items, memory, memory.data
    ensures Ready(stack, memory)
    ensures var e := Exec(env, op, immediate, old(CoreOf(stack, memory, h, trace)));
            if e.Next? then halt == None && CoreOf(stack, memory, h', trace') == e.core
            else e.Stop? && halt == Some((e.status, e.output)) && e.core.host == h' && e.core.trace == trace'
  {
    h', trace' := h, trace;
    if op == OP_STOP {
      halt := Some((Success, []));
    } else if op == OP_MSTORE {
      var ok;
      ok, trace' := MStoreInstruction(stack, memory, h, trace);
      halt := if ok then None else Some((Failure, []));
    } else if op == OP_CALL {
      var ok;
      ok, h', trace' := CallInstruction(env, stack, memory, h, trace);
      halt := if ok then None else Some((Failure, []));
    } else if op == OP_RETURN || op == OP_REVERT {
      var status := if op == OP_RETURN then Success else Revert;
      var output;
      output, trace' := ReturnInstruction(status, stack, memory, h, trace);
      halt := if output.Some? then Some((status, output.value)) else Some((Failure, []));
    } else if op in HOST_OPS {
      h', trace' := HostInstruction(env, op, stack, memory, h, trace);
      halt := None;
    } else if op in STACK_OPS {
      StackInstruction(env, op, stack, memory, h, trace);
      halt := None;
    } else if op in CONSTANT_OPS || IsPush(op) {
      ConstantInstruction(env, op, immediate, stack, memory, h, trace);
      halt := None;
    } else {
      halt := Some((UndefinedInstruction, []));
    }
  }

  /** The loop body: a result to return, or the loop variables of the next iteration. */
  method Iteration<H>(env: Env<H>, code: seq<byte>, pc: nat, gasLeft: int, stack: Stack, memory: Memory, h: H,
                      ghost trace: seq<Event>)
    returns (result: Option<Result>, pc': nat, gasLeft': int, h': H, ghost trace': seq<Event>)
    requires Ready(stack, memory) && pc < |code|
    requires var m := Step(env, code, State(pc, gasLeft, CoreOf(stack, memory, h, trace)));
             !(m.Finish? && m.ending.Faulted?)
    modifies stack, stack.items, memory, memory.data
    ensures Ready(stack, memory)
    ensures match Step(env, code, State(pc, gasLeft, old(CoreOf(stack, memory, h, trace))))
            case Continue(s) => result == None && s == State(pc', gasLeft', CoreOf(stack, memory, h', trace'))
            case Finish(e) =>
              !e.Faulted? && result == Some(ResultOf(e)) && e.core.host == h' && e.core.trace == trace'
  {
    pc', h', trace' := pc, h, trace;
    gasLeft' := gasLeft - 1;
    if gasLeft' < 0 {
      return Some(Result(OutOfGas, 0, [])), pc', gasLeft', h', trace';
    }
    var op := code[pc];
    pc' := pc + 1 + PushWidth(op);
    assert pc' <= |code|;
    var halt;
    halt, h', trace' := Instruction(env, op, code[pc + 1..pc'], stack, memory, h, trace);
    if halt.None? {
      result := None;
    } else {
      var (status, output) := halt.value;
      result := Some(Result(status, if status in {Success, Revert} then gasLeft' else 0, output));
    }
  }

  /**
   * `execute`: what it returns, what it leaves of the host, and the calls and memory uses it made on the way, in order,
   * are what the transition system says.
   */
  method Execute<H>(env: Env<H>, gas: int, code: seq<byte>, h: H) returns (result: Result, h': H, ghost trace: seq<Event>)
    requires !Run(env, code, Initial(gas, h)).Faulted?
    ensures var e := Run(env, code, Initial(gas, h));
            h' == e.core.host && trace == e.core.trace
            && result == ResultOf(e)
    ensures var e := Run(env, code, Initial(gas, h));
            && (e.FellOff? ==> result.status == Success && result.gasLeft == e.gasLeft && result.output == [])
            && (e.Halted? ==> result.status == e.status && result.gasLeft == e.gasLeft && result.output == e.output)
  {
    var gasLeft := gas;
    var stack := new Stack();
    var memory := new Memory();
    h' := h;
    trace := [];
    var pc := 0;
    while pc < |code|
      invariant Ready(stack, memory) && fresh(stack) && fresh(stack.items) && fresh(memory) && fresh(memory.data)
      invariant Run(env, code, State(pc, gasLeft, CoreOf(stack, memory, h', trace))) == Run(env, code, Initial(gas, h))
      decreases |code| - pc
    {
      var finished;
      finished, pc, gasLeft, h', trace := Iteration(env, code, pc, gasLeft, stack, memory, h', trace);
      if finished.Some? {
        return finished.value, h', trace;
      }
    }
    result := Result(Success, gasLeft, []);
  }
}
