/**
 * The mocked host: its state, the transitions of its methods, and the class that updates the state in place.
 */
module MockedHost {
  import opened Basics
  import opened ByteStrings
  import opened WordCompare
  import opened StorageStatus

  const MAX_RECORDED_ACCESSES: nat := 200
  const MAX_RECORDED_CALLS: nat := 100

  // ----- accounts and storage -----

  datatype Access = Cold | Warm

  datatype StorageValue = StorageValue(current: Word, original: Word, access: Access)

  datatype Account = Account(nonce: int, code: seq<byte>, codehash: Word, balance: Word, storage: map<Word, StorageValue>)

  type Accounts = map<Address, Account>

  const NEW_SLOT := StorageValue(ZERO_WORD, ZERO_WORD, Cold)
  const NEW_ACCOUNT := Account(0, [], ZERO_WORD, ZERO_WORD, map[])

  function AccountAt(accounts: Accounts, addr: Address): Account {
    if addr in accounts then accounts[addr] else NEW_ACCOUNT
  }

  /** The storage entry, as a read that creates missing accounts and entries would find it. */
  function Slot(accounts: Accounts, addr: Address, key: Word): StorageValue {
    var storage := AccountAt(accounts, addr).storage;
    if key in storage then storage[key] else NEW_SLOT
  }

  function PutSlot(accounts: Accounts, addr: Address, key: Word, slot: StorageValue): Accounts {
    var account := AccountAt(accounts, addr);
    accounts[addr := account.(storage := account.storage[key := slot])]
  }

  lemma PutTwice(accounts: Accounts, addr: Address, key: Word, s: StorageValue, s': StorageValue)
    ensures PutSlot(PutSlot(accounts, addr, key, s), addr, key, s') == PutSlot(accounts, addr, key, s')
  {
    var storage: map<Word, StorageValue> := AccountAt(accounts, addr).storage;
    var once: map<Word, StorageValue> := storage[key := s];
    assert once[key := s'] == storage[key := s'];
  }

  /** A store to one slot is read back from that slot and leaves every other slot alone. */
  lemma ReadOverWrite(accounts: Accounts, addr: Address, key: Word, s: StorageValue, addr': Address, key': Word)
    ensures Slot(PutSlot(accounts, addr, key, s), addr', key')
            == if addr' == addr && key' == key then s else Slot(accounts, addr', key')
  {
  }

  // ----- recorded calls -----

  datatype MessageKind = PlainCall | DelegateCall | Create | Create2

  /** The fields of a message other than its input. */
  datatype Header = Header(
    kind: MessageKind, flags: nat, depth: int, gas: int, recipient: Address, sender: Address, value: Word,
    create2Salt: Word, codeAddress: Address
  )

  datatype Message = Message(header: Header, input: seq<byte>)

  /** A pointer into the storage of a vector of byte strings; reallocation starts a new generation. */
  datatype Pointer = CallersOwn | Copied(generation: nat, index: nat)

  /** A message as recorded: the input lies in the copy its data field refers to. */
  datatype RecordedCall = RecordedCall(header: Header, inputSize: nat, inputData: Pointer)

  /** `m_recorded_calls_inputs`, with the capacity that decides when its elements move. */
  datatype InputStore = InputStore(buffers: seq<seq<byte>>, capacity: nat, generation: nat)

  function Reserve(s: InputStore, n: nat): InputStore {
    if n <= s.capacity then s else s.(capacity := n, generation := s.generation + 1)
  }

  function EmplaceBack(s: InputStore, buffer: seq<byte>): InputStore {
    if |s.buffers| < s.capacity then s.(buffers := s.buffers + [buffer])
    else InputStore(s.buffers + [buffer], 2 * |s.buffers| + 1, s.generation + 1)
  }

  /** The input of a recorded call, if its pointer still points at live data. */
  function InputOf(s: InputStore, r: RecordedCall): Option<seq<byte>> {
    if r.inputSize == 0 then Some([])
    else if r.inputData.Copied? && r.inputData.generation == s.generation && r.inputData.index < |s.buffers| then
      Some(s.buffers[r.inputData.index])
    else None
  }

  // ----- the whole state -----

  datatype HostState = HostState(accounts: Accounts, accesses: seq<Address>, calls: seq<RecordedCall>, inputs: InputStore)

  const FRESH := HostState(map[], [], [], InputStore([], 0, 0))

  /** The host methods; Query stands for the five that only read, and Other for those that record elsewhere. */
  datatype HostOp =
    | Query(addr: Address)
    | GetStorage(addr: Address, key: Word)
    | SetStorage(addr: Address, key: Word, value: Word)
    | Call(msg: Message)
    | AccessAccount(addr: Address)
    | AccessStorage(addr: Address, key: Word)
    | Other

  function RecordAccess(h: HostState, addr: Address): HostState {
    if |h.accesses| < MAX_RECORDED_ACCESSES then h.(accesses := h.accesses + [addr]) else h
  }

  function RecordCall(h: HostState, msg: Message): HostState {
    var inputs := if h.calls == [] then Reserve(h.inputs, MAX_RECORDED_CALLS) else h.inputs;
    if |h.calls| >= MAX_RECORDED_CALLS then h.(inputs := inputs)
    else if |msg.input| > 0 then
      var inputs' := EmplaceBack(inputs, msg.input);
      var p := Copied(inputs'.generation, |inputs'.buffers| - 1);
      h.(calls := h.calls + [RecordedCall(msg.header, |msg.input|, p)], inputs := inputs')
    else
      h.(calls := h.calls + [RecordedCall(msg.header, 0, CallersOwn)], inputs := inputs)
  }

  function Apply(h: HostState, op: HostOp): HostState {
    match op
    case Query(addr) => RecordAccess(h, addr)
    case GetStorage(addr, _) => RecordAccess(h, addr)
    case AccessAccount(addr) => RecordAccess(h, addr)
    case SetStorage(addr, key, value) =>
      RecordAccess(h, addr).(accounts := PutSlot(h.accounts, addr, key, Slot(h.accounts, addr, key).(current := value)))
    case Call(msg) => RecordCall(RecordAccess(h, msg.header.recipient), msg)
    case AccessStorage(addr, key) =>
      h.(accounts := PutSlot(h.accounts, addr, key, Slot(h.accounts, addr, key).(access := Warm)))
    case Other => h
  }

  /** The state after a history of method calls, oldest first. */
  function History(h: HostState, ops: seq<HostOp>): HostState {
    if ops == [] then h else Apply(History(h, ops[..|ops| - 1]), ops[|ops| - 1])
  }

  function SetStorageStatus(h: HostState, addr: Address, key: Word, value: Word): Status {
    var s := Slot(h.accounts, addr, key);
    StatusOf(s.original, s.current, value)
  }

  const FIRST_PRECOMPILE: Address := Zeros(19) + [1]
  const LAST_PRECOMPILE: Address := Zeros(19) + [9]

  predicate IsPrecompile(addr: Address) {
    !AddressLess(addr, FIRST_PRECOMPILE) && !AddressLess(LAST_PRECOMPILE, addr)
  }

  function AccessAccountStatus(h: HostState, addr: Address): Access {
    if IsPrecompile(addr) || addr in h.accesses then Warm else Cold
  }

  lemma PrecompilesAreOneToNine(addr: Address)
    ensures IsPrecompile(addr) <==> 1 <= BeValue(addr) <= 9
  {
    AddressCompareCorrect(addr, FIRST_PRECOMPILE);
    AddressCompareCorrect(LAST_PRECOMPILE, addr);
    BeValuePadded(19, [1]);
    BeValuePadded(19, [9]);
    OneByteValue(1);
    OneByteValue(9);
  }

  // ----- the class -----

  class Host {
    var accounts: Accounts
    var recordedAccountAccesses: seq<Address>
    var recordedCalls: seq<RecordedCall>
    var recordedCallsInputs: InputStore
    const callResult: seq<byte>

    ghost function State(): HostState
      reads this
    {
      HostState(accounts, recordedAccountAccesses, recordedCalls, recordedCallsInputs)
    }

    constructor (callResult: seq<byte>)
      ensures State() == FRESH
    {
      accounts := map[];
      recordedAccountAccesses := [];
      recordedCalls := [];
      recordedCallsInputs := InputStore([], 0, 0);
      this.callResult := callResult;
    }

    method RecordAccountAccess(addr: Address)
      modifies this`recordedAccountAccesses
      ensures State() == RecordAccess(old(State()), addr)
    {
      if |recordedAccountAccesses| < MAX_RECORDED_ACCESSES {
        recordedAccountAccesses := recordedAccountAccesses + [addr];
      }
    }

    method AccountExists(addr: Address) returns (exists_: bool)
      modifies this
      ensures State() == Apply(old(State()), Query(addr))
      ensures exists_ <==> addr in old(accounts)
    {
      RecordAccountAccess(addr);
      exists_ := addr in accounts;
    }

    method GetStorage(addr: Address, key: Word) returns (value: Word)
      modifies this
      ensures State() == Apply(old(State()), HostOp.GetStorage(addr, key))
      ensures value == Slot(old(accounts), addr, key).current
    {
      RecordAccountAccess(addr);
      if addr !in accounts {
        return ZERO_WORD;
      }
      if key in accounts[addr].storage {
        return accounts[addr].storage[key].current;
      }
      value := ZERO_WORD;
    }

    /** `accounts[addr].storage[key]`: creates what is missing. */
    method Touch(addr: Address, key: Word) returns (s: StorageValue)
      modifies this`accounts
      ensures addr in accounts && key in accounts[addr].storage && s == accounts[addr].storage[key]
      ensures s == Slot(old(accounts), addr, key)
      ensures accounts == PutSlot(old(accounts), addr, key, s)
    {
      if addr !in accounts {
        accounts := accounts[addr := NEW_ACCOUNT];
      }
      var account := accounts[addr];
      if key !in account.storage {
        account := account.(storage := account.storage[key := NEW_SLOT]);
      }
      accounts := accounts[addr := account];
      s := account.storage[key];
      assert account.storage == account.storage[key := s];
    }

    method SetStorage(addr: Address, key: Word, value: Word) returns (status: Status)
      modifies this
      ensures State() == Apply(old(State()), HostOp.SetStorage(addr, key, value))
      ensures status == SetStorageStatus(old(State()), addr, key, value)
    {
      RecordAccountAccess(addr);
      var s := Touch(addr, key);
      status := StatusOf(s.original, s.current, value);
      PutTwice(old(accounts), addr, key, s, s.(current := value));
      accounts := PutSlot(accounts, addr, key, s.(current := value));
    }

    method Call(msg: Message) returns (result: seq<byte>)
      modifies this
      ensures State() == Apply(old(State()), HostOp.Call(msg)) && result == callResult
    {
      RecordAccountAccess(msg.header.recipient);
      if recordedCalls == [] {
        recordedCallsInputs := Reserve(recordedCallsInputs, MAX_RECORDED_CALLS);
      }
      if |recordedCalls| < MAX_RECORDED_CALLS {
        var pointer := CallersOwn;
        if |msg.input| > 0 {
          recordedCallsInputs := EmplaceBack(recordedCallsInputs, msg.input);
          pointer := Copied(recordedCallsInputs.generation, |recordedCallsInputs.buffers| - 1);
        }
        recordedCalls := recordedCalls + [RecordedCall(msg.header, |msg.input|, pointer)];
      }
      result := callResult;
    }

    method AccessAccount(addr: Address) returns (status: Access)
      modifies this
      ensures State() == Apply(old(State()), HostOp.AccessAccount(addr))
      ensures status == AccessAccountStatus(old(State()), addr)
    {
      var alreadyAccessed := addr in recordedAccountAccesses;
      RecordAccountAccess(addr);
      if !AddressLess(addr, FIRST_PRECOMPILE) && !AddressLess(LAST_PRECOMPILE, addr) {
        return Warm;
      }
      status := if alreadyAccessed then Warm else Cold;
    }

    method AccessStorage(addr: Address, key: Word) returns (status: Access)
      modifies this
      ensures State() == Apply(old(State()), HostOp.AccessStorage(addr, key))
      ensures status == Slot(old(accounts), addr, key).access
    {
      var s := Touch(addr, key);
      status := s.access;
      PutTwice(old(accounts), addr, key, s, s.(access := Warm));
      accounts := PutSlot(accounts, addr, key, s.(access := Warm));
    }
  }
}
