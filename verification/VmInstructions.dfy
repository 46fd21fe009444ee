/** What each opcode does, in terms of the numbers on the stack and the bytes in memory. */
module VmInstructions {
  import opened Basics
  import opened ByteStrings
  import opened ExampleVm
  import opened VmValues

  /** The instruction goes on, having replaced the top `n` items by `w` and changed nothing else. */
  predicate Replaces<H(==)>(c: Core<H>, e: Effect<H>, n: nat, w: Word)
    requires n <= |c.stack|
  {
    e == Next(c.(stack := c.stack[..|c.stack| - n] + [w]))
  }

  // ----- decoding -----

  /** PUSH1 is 0x60 and takes one byte, PUSH32 is 0x7f and takes 32; no other opcode has data. */
  lemma PushDataLength(op: byte)
    ensures 0x60 <= op <= 0x7f ==> PushWidth(op) == 1 + op - 0x60
    ensures op < 0x60 || 0x7f < op ==> PushWidth(op) == 0
  {
  }

  const IMPLEMENTED: set<byte> := {0x00, 0x01, 0x30, 0x35, 0x43, 0x52, 0x54, 0x55, 0x59, 0x80, 0xf1, 0xf3, 0xfd}

  /** Every opcode but these and the pushes is undefined, and stops without touching anything. */
  lemma OthersAreUndefined<H>(env: Env<H>, op: byte, c: Core<H>)
    requires op !in IMPLEMENTED && (op < 0x60 || 0x7f < op)
    ensures Exec(env, op, [], c) == Stop(UndefinedInstruction, [], c)
  {
  }

  // ----- the stack, the message and the host -----

  lemma StopSucceeds<H>(env: Env<H>, c: Core<H>)
    ensures Exec(env, 0x00, [], c) == Stop(Success, [], c)
  {
  }

  lemma AddAddsNumbers<H>(env: Env<H>, c: Core<H>)
    requires 2 <= |c.stack| <= STACK_LIMIT
    ensures exists w: Word :: Replaces(c, Exec(env, 0x01, [], c), 2, w)
                              && BeValue(w) == (BeValue(Top(c, 0)) + BeValue(Top(c, 1))) % 0x1_0000_0000
  {
    var w := Top(ExecAdd(c).core, 0);
    AddIsSumModulo32Bits(c);
    assert Replaces(c, Exec(env, 0x01, [], c), 2, w);
  }

  /** ADDRESS pushes the number of the account whose code runs. */
  lemma AddressIsRecipient<H>(env: Env<H>, c: Core<H>)
    requires |c.stack| < STACK_LIMIT
    ensures exists w: Word :: Replaces(c, Exec(env, 0x30, [], c), 0, w) && BeValue(w) == BeValue(env.recipient)
  {
    var w := AddressToWord(env.recipient);
    AddressConversions(w, env.recipient);
    assert c.stack[..|c.stack| - 0] == c.stack;
    assert Replaces(c, Exec(env, 0x30, [], c), 0, w);
  }

  /** CALLDATALOAD pushes 32 bytes of the input, from the offset on the stack, as if zeros followed. */
  lemma CallDataLoadReads<H>(env: Env<H>, c: Core<H>)
    requires 1 <= |c.stack| <= STACK_LIMIT
    ensures exists w: Word ::
              && Replaces(c, Exec(env, 0x35, [], c), 1, w)
              && forall i :: 0 <= i < 32 ==>
                   var at := BeValue(Top(c, 0)) % 0x1_0000_0000 + i;
                   w[i] == if at < |env.input| then env.input[at] else 0
  {
    var offset := ToUint32(Top(c, 0));
    var w := CallData(env.input, offset);
    ToUint32IsModulo(Top(c, 0));
    assert Replaces(c, Exec(env, 0x35, [], c), 1, w);
    forall i | 0 <= i < 32
      ensures w[i] == if offset + i < |env.input| then env.input[offset + i] else 0
    {
      CallDataBytes(env.input, offset, i);
    }
  }

  /** NUMBER asks the host and pushes the answer modulo 2^32. */
  lemma NumberIsAsked<H>(env: Env<H>, c: Core<H>)
    requires |c.stack| < STACK_LIMIT
    ensures exists w: Word ::
              && BeValue(w) == env.host.blockNumber(c.host).0 % 0x1_0000_0000
              && Exec(env, 0x43, [], c)
                 == Next(Core(c.stack + [w], c.mem, env.host.blockNumber(c.host).1,
                              c.trace + [AskedBlockNumber(env.host.blockNumber(c.host).0)]))
  {
    var w := ToWord(env.host.blockNumber(c.host).0 % TWO_32);
    ToWordKeepsValue(env.host.blockNumber(c.host).0 % TWO_32);
    assert Top(Exec(env, 0x43, [], c).core, 0) == w;
  }

  /** SLOAD replaces the key on the top by the value the host stores under it for the recipient. */
  lemma SLoadAsksHost<H>(env: Env<H>, c: Core<H>)
    requires 1 <= |c.stack| <= STACK_LIMIT
    ensures var (value, host) := env.host.getStorage(c.host, env.recipient, Top(c, 0));
            Exec(env, 0x54, [], c)
            == Next(Core(c.stack[..|c.stack| - 1] + [value], c.mem, host, c.trace + [GotStorage(Top(c, 0), value)]))
  {
  }

  /** SSTORE hands the host the key on the top and the value below it. */
  lemma SStoreTellsHost<H>(env: Env<H>, c: Core<H>)
    requires |c.stack| >= 2
    ensures Exec(env, 0x55, [], c)
            == Next(Core(c.stack[..|c.stack| - 2], c.mem,
                         env.host.setStorage(c.host, env.recipient, Top(c, 0), Top(c, 1)),
                         c.trace + [SetStorage(Top(c, 0), Top(c, 1))]))
  {
  }

  lemma MSizeIsSize<H>(env: Env<H>, c: Core<H>)
    requires |c.stack| < STACK_LIMIT
    ensures exists w: Word :: Replaces(c, Exec(env, 0x59, [], c), 0, w) && BeValue(w) == c.mem.size
  {
    var w := ToWord(c.mem.size);
    ToWordKeepsValue(c.mem.size);
    assert Replaces(c, Exec(env, 0x59, [], c), 0, w);
  }

  lemma PushPushesData<H>(env: Env<H>, op: byte, immediate: seq<byte>, c: Core<H>)
    requires 0x60 <= op <= 0x7f && |immediate| == PushWidth(op) && |c.stack| < STACK_LIMIT
    ensures exists w: Word :: Replaces(c, Exec(env, op, immediate, c), 0, w) && BeValue(w) == BeValue(immediate)
  {
    var w := Zeros(32 - |immediate|) + immediate;
    BeValuePadded(32 - |immediate|, immediate);
    assert Replaces(c, Exec(env, op, immediate, c), 0, w);
  }

  lemma DupDoubles<H>(env: Env<H>, c: Core<H>)
    requires 1 <= |c.stack| < STACK_LIMIT
    ensures Replaces(c, Exec(env, 0x80, [], c), 0, Top(c, 0))
  {
  }

  // ----- memory -----

  /**
   * Without wrap-around a region is granted exactly if it ends within 1024 bytes, and otherwise refused; the size
   * becomes the end if that is higher, and no byte changes.
   */
  lemma RegionIsBounded(m: Mem, offset: uint32, length: uint32)
    requires offset + length < 0x1_0000_0000
    ensures Expand(m, offset, length)
            == if offset + length <= 1024 then Granted(MemoryImage(Max(m.size, offset + length), m.data)) else Refused
  {
  }

  /** What wraps around is refused too, or is the one thing the source gets wrong: a pointer outside the memory. */
  lemma WrappedRegion(m: Mem, offset: uint32, length: uint32)
    requires offset + length >= 0x1_0000_0000
    ensures Expand(m, offset, length) == if offset + length <= 0x1_0000_0000 + 1024 then Wild else Refused
  {
  }

  /** `m'` is `m` with the bytes `bs` at `at`. */
  predicate Overwritten(m: Mem, m': Mem, at: nat, bs: seq<byte>) {
    forall i :: 0 <= i < 1024 ==> m'.data[i] == if at <= i < at + |bs| then bs[i - at] else m.data[i]
  }

  lemma WriteOverwrites(m: Mem, at: nat, bs: seq<byte>)
    requires at + |bs| <= MEMORY_LIMIT
    ensures Overwritten(m, Write(m, at, bs), at, bs) && Write(m, at, bs).size == m.size
  {
  }

  /** The sums at which the bound check of the source lets a region pass that is not in the memory. */
  predicate WrapsAround(end: int) {
    0x1_0000_0000 <= end <= 0x1_0000_0000 + 1024
  }

  /** What becomes of a region, for all offsets and lengths. */
  lemma RegionOutcome(m: Mem, offset: uint32, length: uint32)
    ensures Expand(m, offset, length)
            == if offset + length <= 1024 then Granted(MemoryImage(Max(m.size, offset + length), m.data))
               else if WrapsAround(offset + length) then Wild
               else Refused
  {
    if offset + length < 0x1_0000_0000 {
      RegionIsBounded(m, offset, length);
    } else {
      WrappedRegion(m, offset, length);
    }
  }

  /** MSTORE writes the second item at the offset on the top, or fails if that ends past 1024 bytes. */
  lemma MStoreStores<H>(env: Env<H>, c: Core<H>)
    requires |c.stack| >= 2
    ensures var at, e := BeValue(Top(c, 0)) % 0x1_0000_0000, Exec(env, 0x52, [], c);
            if at + 32 <= 1024 then
              && e.Next? && e.core.stack == c.stack[..|c.stack| - 2] && e.core.host == c.host
              && e.core.mem.size == Max(c.mem.size, at + 32) && Overwritten(c.mem, e.core.mem, at, Top(c, 1))
            else if WrapsAround(at + 32) then e.Broken? && e.fault == WildPointer
            else e.Stop? && e.status == Failure && e.output == []
  {
    var at: nat := ToUint32(Top(c, 0));
    ToUint32IsModulo(Top(c, 0));
    RegionOutcome(c.mem, at, 32);
    if at + 32 <= 1024 {
      WriteOverwrites(c.mem, at, Top(c, 1));
    }
  }

  /** RETURN and REVERT end with their status and the bytes of the region, or fail if it ends past 1024 bytes. */
  lemma ReturnReturnsRegion<H>(env: Env<H>, op: byte, c: Core<H>)
    requires op in {0xf3, 0xfd} && |c.stack| >= 2
    ensures var at, length := BeValue(Top(c, 0)) % 0x1_0000_0000, BeValue(Top(c, 1)) % 0x1_0000_0000;
            var e := Exec(env, op, [], c);
            && e.core.host == c.host
            && if at + length <= 1024 then
                 && e.Stop? && e.status == (if op == 0xf3 then Success else Revert)
                 && e.output == c.mem.data[at..at + length]
               else if WrapsAround(at + length) then e.Broken? && e.fault == WildPointer
               else e.Stop? && e.status == Failure && e.output == []
  {
    ToUint32IsModulo(Top(c, 0));
    ToUint32IsModulo(Top(c, 1));
    RegionOutcome(c.mem, ToUint32(Top(c, 0)), ToUint32(Top(c, 1)));
  }

  // ----- calls -----

  /** The operand of a call as a 32-bit number; the first is on the top. */
  function Operand<H>(c: Core<H>, i: nat): nat
    requires i < |c.stack|
  {
    BeValue(Top(c, i)) % 0x1_0000_0000
  }

  lemma CallOperands<H>(c: Core<H>)
    requires |c.stack| >= 7
    ensures forall i :: 0 <= i < 7 ==> ToUint32(Top(c, i)) == Operand(c, i)
  {
    forall i | 0 <= i < 7
      ensures ToUint32(Top(c, i)) == Operand(c, i)
    {
      ToUint32IsModulo(Top(c, i));
    }
  }

  /** CALL fails, without calling, exactly if one of its regions ends past 1024 bytes. */
  lemma CallIsRefused<H>(env: Env<H>, c: Core<H>)
    requires 7 <= |c.stack| <= STACK_LIMIT
    ensures var e := Exec(env, 0xf1, [], c);
            var inEnd, outEnd := Operand(c, 3) + Operand(c, 4), Operand(c, 5) + Operand(c, 6);
            if inEnd <= 1024 && outEnd <= 1024 then e.Next?
            else if WrapsAround(inEnd) || WrapsAround(outEnd) then e.Broken? && e.fault == WildPointer
            else e.Stop? && e.status == Failure && e.output == [] && e.core.host == c.host && e.core.trace == c.trace
  {
    CallOperands(c);
    var r1 := CallRegions(c).0;
    RegionOutcome(c.mem, Operand(c, 3), Operand(c, 4));
    RegionOutcome(if r1.Granted? then r1.mem else c.mem, Operand(c, 5), Operand(c, 6));
  }

  /** What the message of a call must be: the operands, and the bytes of the input region. */
  predicate CarriesOperands<H>(c: Core<H>, msg: CallMessage)
    requires |c.stack| >= 7
  {
    && msg.gas == Operand(c, 0)
    && BeValue(msg.recipient) == BeValue(Top(c, 1)) % Pow256(20)
    && msg.value == Top(c, 2)
    && |msg.input| == Operand(c, 4) && Operand(c, 3) + Operand(c, 4) <= 1024
    && forall i :: 0 <= i < |msg.input| ==> msg.input[i] == c.mem.data[Operand(c, 3) + i]
  }

  lemma GrantedEnds(m: Mem, offset: uint32, length: uint32)
    requires Expand(m, offset, length).Granted?
    ensures offset + length <= 1024
    ensures Expand(m, offset, length).mem == MemoryImage(Max(m.size, offset + length), m.data)
  {
  }

  lemma MessageCarriesOperands<H>(c: Core<H>)
    requires |c.stack| >= 7 && CallIsGranted(c)
    ensures CarriesOperands(c, MessageOf(c))
  {
    CallOperands(c);
    AddressConversions(Top(c, 1), ToAddress(Top(c, 1)));
    GrantedEnds(c.mem, Operand(c, 3), Operand(c, 4));
  }

  /** The expansions change the size and nothing else. */
  lemma PreparedMemory<H>(c: Core<H>)
    requires |c.stack| >= 7 && CallIsGranted(c)
    ensures Operand(c, 5) + Operand(c, 6) <= 1024 && CallPrepared(c).mem.data == c.mem.data
    ensures CallPrepared(c).mem.size
            == Max(c.mem.size, Max(Operand(c, 3) + Operand(c, 4), Operand(c, 5) + Operand(c, 6)))
  {
    CallOperands(c);
    var m1 := CallRegions(c).0.mem;
    GrantedEnds(c.mem, Operand(c, 3), Operand(c, 4));
    assert m1 == MemoryImage(Max(c.mem.size, Operand(c, 3) + Operand(c, 4)), c.mem.data);
    GrantedEnds(m1, Operand(c, 5), Operand(c, 6));
    assert CallPrepared(c).mem == MemoryImage(Max(m1.size, Operand(c, 5) + Operand(c, 6)), m1.data);
  }

  lemma FinishedCall<H>(env: Env<H>, c: Core<H>, msg: CallMessage, at: nat, size: nat) returns (e: Event)
    requires at + size <= MEMORY_LIMIT && |c.stack| < STACK_LIMIT
    ensures var f := FinishCall(env, c, msg, at, size);
            && f.Next? && |f.core.trace| == |c.trace| + 2 && f.core.trace[|c.trace|] == e
            && e.Called? && e.msg == msg && env.host.call(c.host, msg) == (e.result, f.core.host)
            && |f.core.stack| == |c.stack| + 1 && f.core.stack[..|c.stack|] == c.stack
            && BeValue(Top(f.core, 0)) == (if e.result.success then 1 else 0)
            && Overwritten(c.mem, f.core.mem, at, e.result.output[..Min(size, |e.result.output|)])
            && f.core.mem.size == c.mem.size
  {
    var result := env.host.call(c.host, msg).0;
    e := Called(msg, result);
    WriteOverwrites(c.mem, at, result.output[..Min(size, |result.output|)]);
    ToWordKeepsValue(1);
    ToWordKeepsValue(0);
  }

  /**
   * CALL sends the host the message its operands describe, replaces them by 1 if the host reports success and by 0 if
   * not, and copies the output to the output region, cut off where either ends.
   */
  lemma CallAnswers<H>(env: Env<H>, c: Core<H>) returns (e: Event)
    requires 7 <= |c.stack| <= STACK_LIMIT && Exec(env, 0xf1, [], c).Next?
    ensures var c' := Exec(env, 0xf1, [], c).core;
            && |c'.trace| == |c.trace| + 4 && c'.trace[|c.trace| + 2] == e
            && e.Called? && CarriesOperands(c, e.msg)
            && env.host.call(c.host, e.msg) == (e.result, c'.host)
            && |c'.stack| == |c.stack| - 6 && c'.stack[..|c'.stack| - 1] == c.stack[..|c.stack| - 7]
            && BeValue(Top(c', 0)) == (if e.result.success then 1 else 0)
            && Overwritten(c.mem, c'.mem, Operand(c, 5), e.result.output[..Min(Operand(c, 6), |e.result.output|)])
            && c'.mem.size == Max(c.mem.size, Max(Operand(c, 3) + Operand(c, 4), Operand(c, 5) + Operand(c, 6)))
  {
    CallOperands(c);
    MessageCarriesOperands(c);
    PreparedMemory(c);
    e := FinishedCall(env, CallPrepared(c), MessageOf(c), Operand(c, 5), Operand(c, 6));
  }
}
