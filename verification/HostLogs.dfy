/** What a fresh host has recorded after any history of method calls. */
module HostLogs {
  import opened Basics
  import opened ByteStrings
  import opened MockedHost

  // ----- account accesses -----

  /** The addresses passed to the recording methods, in order. */
  function Touched(ops: seq<HostOp>): seq<Address> {
    if ops == [] then []
    else
      Touched(ops[..|ops| - 1])
      + match ops[|ops| - 1]
        case Query(addr) => [addr]
        case GetStorage(addr, _) => [addr]
        case SetStorage(addr, _, _) => [addr]
        case AccessAccount(addr) => [addr]
        case Call(msg) => [msg.header.recipient]
        case AccessStorage(_, _) => []
        case Other => []
  }

  function First<T>(s: seq<T>, n: nat): (r: seq<T>)
    ensures |r| == Min(|s|, n) && r <= s
  {
    if |s| <= n then s else s[..n]
  }

  /** The account log is exactly the first 200 recorded addresses. */
  lemma {:induction false} AccountLogIsPrefix(ops: seq<HostOp>)
    ensures History(FRESH, ops).accesses == First(Touched(ops), 200)
  {
    if ops == [] {
    } else {
      AccountLogIsPrefix(ops[..|ops| - 1]);
    }
  }

  /** What EIP-2929 asks of `access_account`: warm for precompiles and for whatever was touched before. */
  ghost predicate SpecifiedWarm(ops: seq<HostOp>, addr: Address) {
    1 <= BeValue(addr) <= 9 || addr in Touched(ops)
  }

  /**
   * `access_account` forgets what came after the 200th access: it answers as specified exactly for the addresses that
   * are precompiles, untouched, or among the first 200 touches.
   */
  lemma AccessAccountAnswers(ops: seq<HostOp>, addr: Address)
    ensures AccessAccountStatus(History(FRESH, ops), addr) == Warm
            <==> 1 <= BeValue(addr) <= 9 || addr in First(Touched(ops), 200)
    ensures (AccessAccountStatus(History(FRESH, ops), addr) == Warm <==> SpecifiedWarm(ops, addr))
            <==> 1 <= BeValue(addr) <= 9 || addr !in Touched(ops) || addr in First(Touched(ops), 200)
    ensures |Touched(ops)| <= 200
            ==> (AccessAccountStatus(History(FRESH, ops), addr) == Warm <==> SpecifiedWarm(ops, addr))
  {
    AccountLogIsPrefix(ops);
    PrecompilesAreOneToNine(addr);
  }

  lemma {:induction false} RepeatedTouch(n: nat, a: Address)
    ensures Touched(seq(n, _ => Query(a))) == seq(n, _ => a)
  {
    if n == 0 {
    } else {
      RepeatedTouch(n - 1, a);
      assert seq(n, _ => Query(a))[..n - 1] == seq(n - 1, _ => Query(a));
    }
  }

  /** After 200 accesses to one account, a second account stays cold however often it is accessed. */
  lemma FullLogForgets(a: Address, b: Address)
    requires a != b && BeValue(b) > 9
    ensures var ops := seq(200, _ => Query(a)) + [AccessAccount(b)];
            SpecifiedWarm(ops, b) && AccessAccountStatus(History(FRESH, ops), b) == Cold
  {
    var full := seq(200, _ => Query(a));
    var ops := full + [AccessAccount(b)];
    assert ops[..|ops| - 1] == full;
    RepeatedTouch(200, a);
    assert Touched(ops) == seq(200, _ => a) + [b];
    assert First(Touched(ops), 200) == seq(200, _ => a);
    AccessAccountAnswers(ops, b);
  }

  // ----- storage -----

  /** The value last written to a slot by a history, if any. */
  function LastWrite(ops: seq<HostOp>, addr: Address, key: Word): Option<Word> {
    if ops == [] then None
    else
      var last := ops[|ops| - 1];
      if last.SetStorage? && last.addr == addr && last.key == key then Some(last.value)
      else LastWrite(ops[..|ops| - 1], addr, key)
  }

  /** What one host call does to any one slot. */
  lemma SlotAfterCall(h: HostState, op: HostOp, addr: Address, key: Word)
    ensures var s, s' := Slot(h.accounts, addr, key), Slot(Apply(h, op).accounts, addr, key);
            && s'.original == s.original
            && s'.current == (if op.SetStorage? && op.addr == addr && op.key == key then op.value else s.current)
            && (s'.access == Warm <==> s.access == Warm || op == AccessStorage(addr, key))
  {
    if op.SetStorage? {
      ReadOverWrite(h.accounts, op.addr, op.key, Slot(h.accounts, op.addr, op.key).(current := op.value), addr, key);
    } else if op.AccessStorage? {
      ReadOverWrite(h.accounts, op.addr, op.key, Slot(h.accounts, op.addr, op.key).(access := Warm), addr, key);
    }
  }

  /**
   * After any history from any state, a slot holds the value last written to it and its old original value, and is
   * warm exactly if it was before or an `access_storage` named it.
   */
  lemma {:induction false} SlotAfterHistory(h: HostState, ops: seq<HostOp>, addr: Address, key: Word)
    ensures var s, s' := Slot(h.accounts, addr, key), Slot(History(h, ops).accounts, addr, key);
            && s'.original == s.original
            && s'.current == (match LastWrite(ops, addr, key) case Some(v) => v case None => s.current)
            && (s'.access == Warm <==> s.access == Warm || AccessStorage(addr, key) in ops)
  {
    if ops == [] {
    } else {
      var init, last := ops[..|ops| - 1], ops[|ops| - 1];
      SlotAfterHistory(h, init, addr, key);
      assert ops == init + [last];
      SlotAfterCall(History(h, init), last, addr, key);
    }
  }

  /** On a fresh host every slot starts zero and cold. */
  lemma FreshSlotAfterHistory(ops: seq<HostOp>, addr: Address, key: Word)
    ensures var s := Slot(History(FRESH, ops).accounts, addr, key);
            && s.original == Zeros(32)
            && s.current == (match LastWrite(ops, addr, key) case Some(v) => v case None => Zeros(32))
            && (s.access == Warm <==> AccessStorage(addr, key) in ops)
  {
    SlotAfterHistory(FRESH, ops, addr, key);
  }

  /** The history has a storage write or a storage access of the account. */
  predicate Creates(op: HostOp, addr: Address) {
    (op.SetStorage? || op.AccessStorage?) && op.addr == addr
  }

  /** An account without its storage. */
  function Bare(a: Account): Account {
    a.(storage := map[])
  }

  lemma AccountAfterCall(h: HostState, op: HostOp, addr: Address)
    ensures var before, after := h.accounts, Apply(h, op).accounts;
            && (addr in after <==> addr in before || Creates(op, addr))
            && (addr in after ==> Bare(after[addr]) == Bare(AccountAt(before, addr)))
  {
  }

  /**
   * A history creates exactly the accounts whose storage it writes or accesses, empty ones, and changes nothing else
   * of any account.
   */
  lemma {:induction false} AccountsAfterHistory(h: HostState, ops: seq<HostOp>, addr: Address)
    ensures var before, after := h.accounts, History(h, ops).accounts;
            && (addr in after <==> addr in before || exists op :: op in ops && Creates(op, addr))
            && (addr in before ==> addr in after && Bare(after[addr]) == Bare(before[addr]))
            && (addr in after && addr !in before
                ==> Bare(after[addr]) == Account(0, [], Zeros(32), Zeros(32), map[]))
  {
    if ops == [] {
    } else {
      var init, last := ops[..|ops| - 1], ops[|ops| - 1];
      AccountsAfterHistory(h, init, addr);
      AccountAfterCall(History(h, init), last, addr);
      assert ops == init + [last];
    }
  }

  // ----- calls -----

  function Messages(ops: seq<HostOp>): seq<Message> {
    if ops == [] then []
    else
      var last := ops[|ops| - 1];
      Messages(ops[..|ops| - 1]) + if last.Call? then [last.msg] else []
  }

  /** The record agrees with the message, and its input pointer still leads to the bytes passed. */
  predicate Records(s: InputStore, r: RecordedCall, m: Message) {
    && r.header == m.header && r.inputSize == |m.input|
    && InputOf(s, r) == Some(m.input)
  }

  ghost predicate CallLogMatches(h: HostState, messages: seq<Message>) {
    && |h.calls| == Min(|messages|, 100)
    && |h.inputs.buffers| <= |h.calls|
    && (h.calls != [] ==> h.inputs.capacity >= 100)
    && forall i :: 0 <= i < |h.calls| ==> Records(h.inputs, h.calls[i], messages[i])
  }

  lemma CallKeepsLog(h: HostState, messages: seq<Message>, msg: Message)
    requires CallLogMatches(h, messages)
    ensures CallLogMatches(RecordCall(h, msg), messages + [msg])
  {
    var h' := RecordCall(h, msg);
    if |h.calls| < MAX_RECORDED_CALLS {
      forall i | 0 <= i < |h'.calls|
        ensures Records(h'.inputs, h'.calls[i], (messages + [msg])[i])
      {
        if i < |h.calls| {
          assert Records(h.inputs, h.calls[i], messages[i]);
        }
      }
    }
  }

  lemma OneCallKeepsLog(h: HostState, messages: seq<Message>, op: HostOp)
    requires CallLogMatches(h, messages)
    ensures CallLogMatches(Apply(h, op), messages + if op.Call? then [op.msg] else [])
  {
    if op.Call? {
      CallKeepsLog(RecordAccess(h, op.msg.header.recipient), messages, op.msg);
    } else {
      assert messages + [] == messages;
    }
  }

  /** While the log has room, a call adds one record of its message, and the input is read back from it. */
  lemma CallAddsRecord(h: HostState, messages: seq<Message>, msg: Message)
    requires CallLogMatches(h, messages) && |messages| < 100
    ensures var h' := Apply(h, HostOp.Call(msg));
            && |h'.calls| == |h.calls| + 1 && h'.calls[..|h.calls|] == h.calls && h'.accounts == h.accounts
            && Records(h'.inputs, h'.calls[|h.calls|], msg)
  {
    CallKeepsLog(RecordAccess(h, msg.header.recipient), messages, msg);
  }

  /**
   * However host methods are interleaved, the first 100 call records, in order, still read back the input bytes as
   * they were passed: no later call moves the copies they point to.
   */
  lemma {:induction false} CallRecordsKeepInputs(ops: seq<HostOp>)
    ensures CallLogMatches(History(FRESH, ops), Messages(ops))
  {
    if ops == [] {
    } else {
      var init, last := ops[..|ops| - 1], ops[|ops| - 1];
      CallRecordsKeepInputs(init);
      OneCallKeepsLog(History(FRESH, init), Messages(init), last);
    }
  }
}
