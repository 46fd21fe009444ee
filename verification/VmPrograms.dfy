/** Whole programs, assembled from segments: what goes in comes out, through memory and through storage. */
module VmPrograms {
  import opened ByteStrings
  import opened ExampleVm
  import opened VmComposition
  import opened MockedHost
  import opened HostLogs
  import opened VmOnMockedHost

  function PushWord(w: Word): seq<byte> {
    [OP_PUSH32] + w
  }

  /** Runs a well-formed segment that falls off its end, then goes on with what follows. */
  lemma Then<H>(env: Env<H>, a: seq<byte>, b: seq<byte>, s: State<H>, t: State<H>)
    requires s.pc == 0 && t.pc == 0 && WellFormed(a, 0) && Run(env, a, s) == FellOff(t.gas, t.core)
    ensures Run(env, a + b, s) == Run(env, b, t)
  {
    RunComposes(env, a, b, s);
  }

  lemma RunPushWord<H>(env: Env<H>, w: Word, rest: seq<byte>, g: int, c: Core<H>)
    requires g > 0 && |c.stack| < STACK_LIMIT
    ensures Run(env, PushWord(w) + rest, State(0, g, c)) == Run(env, rest, State(0, g - 1, c.(stack := c.stack + [w])))
  {
    var code := PushWord(w);
    assert code[1..33] == w && Zeros(0) + w == w;
    var t := State(33, g - 1, c.(stack := c.stack + [w]));
    assert Step(env, code, State(0, g, c)) == Continue(t);
    assert Run(env, code, t) == FellOff(g - 1, t.core);
    assert WellFormed(code, 33);
    Then(env, code, rest, State(0, g, c), t.(pc := 0));
  }

  /** One instruction without immediate bytes that goes on. */
  lemma RunOne<H>(env: Env<H>, op: byte, rest: seq<byte>, g: int, c: Core<H>)
    requires g > 0 && PushWidth(op) == 0 && Exec(env, op, [], c).Next?
    ensures Run(env, [op] + rest, State(0, g, c)) == Run(env, rest, State(0, g - 1, Exec(env, op, [], c).core))
  {
    var t := State(1, g - 1, Exec(env, op, [], c).core);
    assert [op][1..1] == [];
    assert Step(env, [op], State(0, g, c)) == Continue(t);
    assert Run(env, [op], t) == FellOff(g - 1, t.core);
    assert WellFormed([op], 1);
    Then(env, [op], rest, State(0, g, c), t.(pc := 0));
  }

  /** The run returned `output` and left `gasLeft`. */
  predicate Returned<H(==)>(e: Ending<H>, gasLeft: int, output: seq<byte>, host: H) {
    e.Halted? && e.status == Success && e.gasLeft == gasLeft && e.output == output && e.core.host == host
  }

  const RETURN_FIRST: seq<byte> := PushWord(ToWord(0)) + [OP_RETURN]

  /** Returns the first 32 bytes of memory. */
  function ReturnFirst(): seq<byte> {
    PushWord(ToWord(32)) + RETURN_FIRST
  }

  /** Returns the word on the top of the stack, through memory. */
  function ReturnTop(): seq<byte> {
    PushWord(ToWord(0)) + ([OP_MSTORE] + ReturnFirst())
  }

  lemma RunReturn<H>(env: Env<H>, g: int, c: Core<H>)
    requires g >= 1 && |c.stack| >= 2 && Top(c, 0) == ToWord(0) && Top(c, 1) == ToWord(32)
    ensures Returned(Run(env, [OP_RETURN], State(0, g, c)), g - 1, c.mem.data[..32], c.host)
  {
    assert ToUint32(ToWord(0)) == 0 && ToUint32(ToWord(32)) == 32;
    var s := State(0, g, c);
    assert Step(env, [OP_RETURN], s).Finish?;
    assert [OP_RETURN][1..1] == [];
  }

  lemma RunOffsetThenReturn<H>(env: Env<H>, g: int, c: Core<H>)
    requires g >= 2 && 1 <= |c.stack| < STACK_LIMIT && Top(c, 0) == ToWord(32)
    ensures Returned(Run(env, RETURN_FIRST, State(0, g, c)), g - 2, c.mem.data[..32], c.host)
  {
    RunPushWord(env, ToWord(0), [OP_RETURN], g, c);
    RunReturn(env, g - 1, c.(stack := c.stack + [ToWord(0)]));
  }

  lemma RunReturnFirst<H>(env: Env<H>, g: int, c: Core<H>)
    requires g >= 3 && |c.stack| < STACK_LIMIT - 1
    ensures Returned(Run(env, ReturnFirst(), State(0, g, c)), g - 3, c.mem.data[..32], c.host)
  {
    RunPushWord(env, ToWord(32), RETURN_FIRST, g, c);
    RunOffsetThenReturn(env, g - 1, c.(stack := c.stack + [ToWord(32)]));
  }

  lemma AfterMStore<H>(env: Env<H>, c: Core<H>)
    requires |c.stack| >= 2 && Top(c, 0) == ToWord(0)
    ensures var e := Exec(env, OP_MSTORE, [], c);
            e.Next? && |e.core.stack| == |c.stack| - 2 && e.core.mem.data[..32] == Top(c, 1) && e.core.host == c.host
  {
    assert ToUint32(ToWord(0)) == 0;
  }

  lemma RunStoreAndReturn<H>(env: Env<H>, g: int, c: Core<H>)
    requires g >= 4 && 2 <= |c.stack| <= STACK_LIMIT && Top(c, 0) == ToWord(0)
    ensures Returned(Run(env, [OP_MSTORE] + ReturnFirst(), State(0, g, c)), g - 4, Top(c, 1), c.host)
  {
    AfterMStore(env, c);
    RunOne(env, OP_MSTORE, ReturnFirst(), g, c);
    RunReturnFirst(env, g - 1, Exec(env, OP_MSTORE, [], c).core);
  }

  /** The word on the top of the stack comes back through memory, for five gas. */
  lemma RunReturnTop<H>(env: Env<H>, g: int, c: Core<H>)
    requires g >= 5 && 1 <= |c.stack| < STACK_LIMIT
    ensures Returned(Run(env, ReturnTop(), State(0, g, c)), g - 5, Top(c, 0), c.host)
  {
    var c' := c.(stack := c.stack + [ToWord(0)]);
    var rest := [OP_MSTORE] + ReturnFirst();
    assert Run(env, PushWord(ToWord(0)) + rest, State(0, g, c)) == Run(env, rest, State(0, g - 1, c')) by {
      RunPushWord(env, ToWord(0), rest, g, c);
    }
    RunStoreAndReturn(env, g - 1, c');
  }

  /** Loads the word stored under `key` and returns it. */
  function LoadAndReturn(key: Word): seq<byte> {
    PushWord(key) + ([OP_SLOAD] + ReturnTop())
  }

  /** Stores `value` under `key`, loads `other` and returns what was loaded. */
  function StoreThenLoad(key: Word, value: Word, other: Word): seq<byte> {
    PushWord(value) + (PushWord(key) + ([OP_SSTORE] + LoadAndReturn(other)))
  }

  lemma AfterSLoad<H>(env: Env<H>, c: Core<H>, key: Word)
    requires c.stack == [key]
    ensures var e := Exec(env, OP_SLOAD, [], c);
            e.Next? && e.core.stack == [env.host.getStorage(c.host, env.recipient, key).0]
  {
  }

  lemma RunLoadAndReturn<H>(env: Env<H>, g: int, c: Core<H>, key: Word)
    requires g >= 6 && c.stack == [key]
    ensures var e := Run(env, [OP_SLOAD] + ReturnTop(), State(0, g, c));
            Returned(e, g - 6, env.host.getStorage(c.host, env.recipient, key).0, e.core.host)
  {
    var c' := Exec(env, OP_SLOAD, [], c).core;
    AfterSLoad(env, c, key);
    RunReturnTop(env, g - 1, c');
    assert Run(env, [OP_SLOAD] + ReturnTop(), State(0, g, c)) == Run(env, ReturnTop(), State(0, g - 1, c')) by {
      RunOne(env, OP_SLOAD, ReturnTop(), g, c);
    }
  }

  /** The second half of the program: the other slot is loaded and returned. */
  lemma LoadIsReturned<H>(env: Env<H>, g: int, c: Core<H>, key: Word)
    requires g >= 7 && c.stack == []
    ensures var e := Run(env, LoadAndReturn(key), State(0, g, c));
            Returned(e, g - 7, env.host.getStorage(c.host, env.recipient, key).0, e.core.host)
  {
    var c' := c.(stack := c.stack + [key]);
    var rest := [OP_SLOAD] + ReturnTop();
    RunLoadAndReturn(env, g - 1, c', key);
    assert Run(env, PushWord(key) + rest, State(0, g, c)) == Run(env, rest, State(0, g - 1, c')) by {
      RunPushWord(env, key, rest, g, c);
    }
  }

  /** What the second load finds after the first store, on any host. */
  function LoadedAfterStore<H>(env: Env<H>, host: H, key: Word, value: Word, other: Word): Word {
    env.host.getStorage(env.host.setStorage(host, env.recipient, key, value), env.recipient, other).0
  }

  lemma AfterSStore<H>(env: Env<H>, c: Core<H>, key: Word, value: Word)
    requires c.stack == [value, key]
    ensures var e := Exec(env, OP_SSTORE, [], c);
            e.Next? && e.core.stack == [] && e.core.host == env.host.setStorage(c.host, env.recipient, key, value)
  {
  }

  lemma RunStoreThenLoad<H>(env: Env<H>, g: int, c: Core<H>, key: Word, value: Word, other: Word)
    requires g >= 8 && c.stack == [value, key]
    ensures var e := Run(env, [OP_SSTORE] + LoadAndReturn(other), State(0, g, c));
            Returned(e, g - 8, LoadedAfterStore(env, c.host, key, value, other), e.core.host)
  {
    var c' := Exec(env, OP_SSTORE, [], c).core;
    var rest := LoadAndReturn(other);
    AfterSStore(env, c, key, value);
    LoadIsReturned(env, g - 1, c', other);
    assert Run(env, [OP_SSTORE] + rest, State(0, g, c)) == Run(env, rest, State(0, g - 1, c')) by {
      RunOne(env, OP_SSTORE, rest, g, c);
    }
  }

  lemma RunKeyThenStore<H>(env: Env<H>, g: int, c: Core<H>, key: Word, value: Word, other: Word)
    requires g >= 9 && c.stack == [value]
    ensures var e := Run(env, PushWord(key) + ([OP_SSTORE] + LoadAndReturn(other)), State(0, g, c));
            Returned(e, g - 9, LoadedAfterStore(env, c.host, key, value, other), e.core.host)
  {
    var c' := c.(stack := c.stack + [key]);
    var rest := [OP_SSTORE] + LoadAndReturn(other);
    RunStoreThenLoad(env, g - 1, c', key, value, other);
    assert Run(env, PushWord(key) + rest, State(0, g, c)) == Run(env, rest, State(0, g - 1, c')) by {
      RunPushWord(env, key, rest, g, c);
    }
  }

  /** On any host, the program returns what the host's storage gives back. */
  lemma StoreThenLoadReturns<H>(env: Env<H>, gas: int, host: H, key: Word, value: Word, other: Word)
    requires gas >= 10
    ensures var e := Run(env, StoreThenLoad(key, value, other), Initial(gas, host));
            Returned(e, gas - 10, LoadedAfterStore(env, host, key, value, other), e.core.host)
  {
    var c := Initial(gas, host).core;
    var c' := c.(stack := c.stack + [value]);
    var rest := PushWord(key) + ([OP_SSTORE] + LoadAndReturn(other));
    RunKeyThenStore(env, gas - 1, c', key, value, other);
    assert Run(env, PushWord(value) + rest, State(0, gas, c)) == Run(env, rest, State(0, gas - 1, c')) by {
      RunPushWord(env, value, rest, gas, c);
    }
  }

  /**
   * On the mocked host the program returns the value just stored if it loads the same key, and otherwise what the
   * other slot held before; ten instructions cost ten gas.
   */
  lemma StoredIsLoaded(env: Env<HostState>, blockNumber: int, callResult: CallResult, h: HostState, gas: int,
                       key: Word, value: Word, other: Word)
    requires env.host == Interface(blockNumber, callResult) && gas >= 10
    ensures var e := Run(env, StoreThenLoad(key, value, other), Initial(gas, h));
            && e.Halted? && e.status == Success && e.gasLeft == gas - 10
            && e.output == (if other == key then value else Slot(h.accounts, env.recipient, other).current)
  {
    StoreThenLoadReturns(env, gas, h, key, value, other);
    SlotAfterCall(h, HostOp.SetStorage(env.recipient, key, value), env.recipient, other);
  }
}
