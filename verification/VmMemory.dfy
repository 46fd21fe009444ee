/** The interpreter's memory is a high-water mark over a zero-filled buffer. */
module VmMemory {
  import opened Basics
  import opened ByteStrings
  import opened ExampleVm

  /** The end of the region an event touches. */
  function Extent(e: Event): nat {
    match e
    case Expanded(offset, length) => offset + length
    case Stored(offset, bytes) => offset + |bytes|
    case _ => 0
  }

  /** The largest end of all regions expanded so far, zero-size ones included. */
  function HighWater(trace: seq<Event>): nat {
    if trace == [] then 0 else Max(HighWater(trace[..|trace| - 1]), Extent(trace[|trace| - 1]))
  }

  /** The byte last stored at `i`, or 0. */
  function LastStored(trace: seq<Event>, i: nat): byte {
    if trace == [] then 0
    else
      var e := trace[|trace| - 1];
      if e.Stored? && e.offset <= i < e.offset + |e.bytes| then e.bytes[i - e.offset]
      else LastStored(trace[..|trace| - 1], i)
  }

  lemma {:induction false} NothingStoredAboveHighWater(trace: seq<Event>, i: nat)
    requires i >= HighWater(trace)
    ensures LastStored(trace, i) == 0
  {
    if trace == [] {
    } else {
      NothingStoredAboveHighWater(trace[..|trace| - 1], i);
    }
  }

  ghost predicate MemoryMatches(m: Mem, trace: seq<Event>) {
    && m.size == HighWater(trace) <= MEMORY_LIMIT
    && forall i :: 0 <= i < MEMORY_LIMIT ==> m.data[i] == LastStored(trace, i)
  }

  lemma HighWaterLast(trace: seq<Event>, e: Event)
    ensures HighWater(trace + [e]) == Max(HighWater(trace), Extent(e))
  {
    assert (trace + [e])[..|trace|] == trace;
  }

  lemma LastStoredLast(trace: seq<Event>, e: Event, i: nat)
    ensures LastStored(trace + [e], i)
            == if e.Stored? && e.offset <= i < e.offset + |e.bytes| then e.bytes[i - e.offset] else LastStored(trace, i)
  {
    assert (trace + [e])[..|trace|] == trace;
  }

  lemma AfterEvent(m: Mem, m': Mem, trace: seq<Event>, e: Event)
    requires MemoryMatches(m, trace)
    requires Extent(e) <= MEMORY_LIMIT && m'.size == Max(m.size, Extent(e))
    requires m'.data == if e.Stored? then Write(m, e.offset, e.bytes).data else m.data
    ensures MemoryMatches(m', trace + [e])
  {
    HighWaterLast(trace, e);
    forall i | 0 <= i < MEMORY_LIMIT
      ensures m'.data[i] == LastStored(trace + [e], i)
    {
      LastStoredLast(trace, e, i);
    }
  }

  lemma GrantedShape(m: Mem, offset: uint32, length: uint32)
    ensures var r := Expand(m, offset, length);
            r.Granted? ==> offset + length <= MEMORY_LIMIT && r.mem == m.(size := Max(m.size, offset + length))
  {
  }

  lemma FinishShape<H>(env: Env<H>, c: Core<H>, msg: CallMessage, offset: nat, length: nat) returns (e3: Event, e4: Event)
    requires offset + length <= MEMORY_LIMIT && FinishCall(env, c, msg, offset, length).Next?
    ensures var c' := FinishCall(env, c, msg, offset, length).core;
            && c'.trace == c.trace + [e3] + [e4]
            && e3.Called?
            && e4.Stored? && e4.offset == offset && |e4.bytes| <= length
            && c'.mem == Write(c.mem, e4.offset, e4.bytes)
  {
    var result := env.host.call(c.host, msg).0;
    e3, e4 := Called(msg, result), Stored(offset, result.output[..Min(length, |result.output|)]);
    assert c.trace + [e3, e4] == c.trace + [e3] + [e4];
  }

  /** The four events of a completed call and the memory between them. */
  lemma CallShape<H>(env: Env<H>, c: Core<H>) returns (m1: Mem, m2: Mem, e1: Event, e2: Event, e3: Event, e4: Event)
    requires ExecCall(env, c).Next?
    ensures var c' := ExecCall(env, c).core;
            && c'.trace == c.trace + [e1] + [e2] + [e3] + [e4]
            && e1.Expanded? && Extent(e1) <= MEMORY_LIMIT && m1 == c.mem.(size := Max(c.mem.size, Extent(e1)))
            && e2.Expanded? && Extent(e2) <= MEMORY_LIMIT && m2 == m1.(size := Max(m1.size, Extent(e2)))
            && e3.Called?
            && e4.Stored? && Extent(e4) <= Extent(e2) && c'.mem == Write(m2, e4.offset, e4.bytes)
  {
    e1, e2 := Expanded(ToUint32(Top(c, 3)), ToUint32(Top(c, 4))), Expanded(ToUint32(Top(c, 5)), ToUint32(Top(c, 6)));
    m1 := Expand(c.mem, e1.offset, e1.length).mem;
    m2 := Expand(m1, e2.offset, e2.length).mem;
    GrantedShape(c.mem, e1.offset, e1.length);
    GrantedShape(m1, e2.offset, e2.length);
    var mid := CallPrepared(c);
    assert ExecCall(env, c) == FinishCall(env, mid, MessageOf(c), e2.offset, e2.length);
    e3, e4 := FinishShape(env, mid, MessageOf(c), e2.offset, e2.length);
    assert c.trace + [e1, e2] == c.trace + [e1] + [e2];
  }

  lemma CallKeepsMemory<H>(env: Env<H>, c: Core<H>)
    requires MemoryMatches(c.mem, c.trace) && ExecCall(env, c).Next?
    ensures var c' := ExecCall(env, c).core; MemoryMatches(c'.mem, c'.trace) && c'.mem.size >= c.mem.size
  {
    var m1, m2, e1, e2, e3, e4 := CallShape(env, c);
    AfterEvent(c.mem, m1, c.trace, e1);
    AfterEvent(m1, m2, c.trace + [e1], e2);
    AfterEvent(m2, m2, c.trace + [e1] + [e2], e3);
    AfterEvent(m2, ExecCall(env, c).core.mem, c.trace + [e1] + [e2] + [e3], e4);
  }

  lemma MStoreShape<H>(c: Core<H>) returns (e: Event)
    requires ExecMStore(c).Next?
    ensures var c' := ExecMStore(c).core;
            && c'.trace == c.trace + [e]
            && e.Stored? && Extent(e) <= MEMORY_LIMIT
            && c'.mem.size == Max(c.mem.size, Extent(e)) && c'.mem.data == Write(c.mem, e.offset, e.bytes).data
  {
    e := Stored(ToUint32(Top(c, 0)), Top(c, 1));
    GrantedShape(c.mem, e.offset, 32);
  }

  lemma MStoreKeepsMemory<H>(c: Core<H>)
    requires MemoryMatches(c.mem, c.trace) && ExecMStore(c).Next?
    ensures var c' := ExecMStore(c).core; MemoryMatches(c'.mem, c'.trace) && c'.mem.size >= c.mem.size
  {
    var e := MStoreShape(c);
    AfterEvent(c.mem, ExecMStore(c).core.mem, c.trace, e);
  }

  /** Every other instruction that continues leaves the memory alone and records at most a host call. */
  lemma OthersLeaveMemory<H>(env: Env<H>, op: byte, immediate: seq<byte>, c: Core<H>)
    requires |immediate| == PushWidth(op) && op != OP_CALL && op != OP_MSTORE && Exec(env, op, immediate, c).Next?
    ensures var c' := Exec(env, op, immediate, c).core;
            && c'.mem == c.mem
            && (c'.trace == c.trace
                || exists e: Event :: c'.trace == c.trace + [e] && !e.Stored? && !e.Expanded?)
  {
    var c' := Exec(env, op, immediate, c).core;
    if c'.trace != c.trace {
      assert c'.trace == c.trace + [c'.trace[|c.trace|]];
    }
  }

  lemma StepKeepsMemory<H>(env: Env<H>, code: seq<byte>, s: State<H>)
    requires MemoryMatches(s.core.mem, s.core.trace) && Step(env, code, s).Continue?
    ensures var c := Step(env, code, s).state.core;
            MemoryMatches(c.mem, c.trace) && c.mem.size >= s.core.mem.size
  {
    var c := s.core;
    var c' := Step(env, code, s).state.core;
    var op := code[s.pc];
    if op == OP_CALL {
      CallKeepsMemory(env, c);
    } else if op == OP_MSTORE {
      MStoreKeepsMemory(c);
    } else {
      OthersLeaveMemory(env, op, code[s.pc + 1..s.pc + 1 + PushWidth(op)], c);
      if c'.trace != c.trace {
        var e: Event :| c'.trace == c.trace + [e] && !e.Stored? && !e.Expanded?;
        AfterEvent(c.mem, c'.mem, c.trace, e);
      }
    }
  }

  /**
   * At every loop head of every run: the size is the highest end of a region expanded so far and at most 1024,
   * every byte at or above it is 0, and every byte is the one last stored there.
   */
  lemma {:induction false} MemoryIsHighWaterMark<H>(env: Env<H>, code: seq<byte>, gas: int, host: H, n: nat)
    requires After(env, code, Initial(gas, host), n).Some?
    ensures var c := After(env, code, Initial(gas, host), n).value.core;
            && c.mem.size == HighWater(c.trace) <= MEMORY_LIMIT
            && (forall i :: 0 <= i < MEMORY_LIMIT ==> c.mem.data[i] == LastStored(c.trace, i))
            && (forall i :: c.mem.size <= i < MEMORY_LIMIT ==> c.mem.data[i] == 0)
    decreases n
  {
    var s := After(env, code, Initial(gas, host), n).value;
    if n == 0 {
    } else {
      AfterLast(env, code, Initial(gas, host), n);
      MemoryIsHighWaterMark(env, code, gas, host, n - 1);
      StepKeepsMemory(env, code, After(env, code, Initial(gas, host), n - 1).value);
    }
    forall i | s.core.mem.size <= i < MEMORY_LIMIT
      ensures s.core.mem.data[i] == 0
    {
      NothingStoredAboveHighWater(s.core.trace, i);
    }
  }

  lemma NextSizeIsNoSmaller<H>(env: Env<H>, code: seq<byte>, gas: int, host: H, n: nat)
    requires n > 0 && After(env, code, Initial(gas, host), n).Some?
    ensures After(env, code, Initial(gas, host), n - 1).Some?
    ensures After(env, code, Initial(gas, host), n - 1).value.core.mem.size
            <= After(env, code, Initial(gas, host), n).value.core.mem.size
  {
    AfterLast(env, code, Initial(gas, host), n);
    MemoryIsHighWaterMark(env, code, gas, host, n - 1);
    StepKeepsMemory(env, code, After(env, code, Initial(gas, host), n - 1).value);
  }

  /** The memory never shrinks from one loop head to any later one. */
  lemma {:induction false} MemoryNeverShrinks<H>(env: Env<H>, code: seq<byte>, gas: int, host: H, m: nat, n: nat)
    requires m <= n && After(env, code, Initial(gas, host), n).Some?
    ensures After(env, code, Initial(gas, host), m).Some?
    ensures After(env, code, Initial(gas, host), m).value.core.mem.size
            <= After(env, code, Initial(gas, host), n).value.core.mem.size
    decreases n
  {
    if m == n {
    } else {
      NextSizeIsNoSmaller(env, code, gas, host, n);
      MemoryNeverShrinks(env, code, gas, host, m, n - 1);
    }
  }
}
