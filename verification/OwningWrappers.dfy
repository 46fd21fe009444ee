/** The move-only wrappers as the source has them, and programs on real objects. */
module OwningWrappers {
  import opened Basics
  import opened Ownership

  /** Where release and destroy functions leave their effect. */
  class Environment {
    var released: multiset<Token>

    constructor ()
      ensures released == multiset{}
    {
      released := multiset{};
    }

    method Release(t: Token)
      modifies this
      ensures released == old(released) + multiset{t}
    {
      released := released + multiset{t};
    }
  }

  class Result {
    var release: Holding

    /** Takes over a raw result. */
    constructor (raw: Holding)
      ensures release == raw
    {
      release := raw;
    }

    constructor Move(other: Result)
      modifies other
      ensures release == old(other.release) && other.release == None
    {
      release := other.release;
      new;
      other.release := None;
    }

    method Destroy(env: Environment)
      modifies env
      ensures env.released == old(env.released) + Dropped(release)
    {
      if release.Some? {
        env.Release(release.value);
      }
    }

    /** The destructor runs, the data is copied, the other object is disarmed, in this order. */
    method Assign(other: Result, env: Environment)
      modifies this, other, env
      ensures env.released == old(env.released) + Dropped(old(release))
      ensures other.release == None && (this != other ==> release == old(other.release))
    {
      Destroy(env);
      release := other.release;
      other.release := None;
    }

    method ReleaseRaw() returns (raw: Holding)
      modifies this
      ensures raw == old(release) && release == None
    {
      raw := release;
      release := None;
    }
  }

  class Vm {
    var instance: Holding

    /** Takes over an instance. */
    constructor (vm: Holding)
      ensures instance == vm
    {
      instance := vm;
    }

    constructor Move(other: Vm)
      modifies other
      ensures instance == old(other.instance) && other.instance == None
    {
      instance := other.instance;
      new;
      other.instance := None;
    }

    method Destroy(env: Environment)
      modifies env
      ensures env.released == old(env.released) + Dropped(instance)
    {
      if instance.Some? {
        env.Release(instance.value);
      }
    }

    /** The destructor runs, the data is copied, the other object is disarmed, in this order. */
    method Assign(other: Vm, env: Environment)
      modifies this, other, env
      ensures env.released == old(env.released) + Dropped(old(instance))
      ensures other.instance == None && (this != other ==> instance == old(other.instance))
    {
      Destroy(env);
      instance := other.instance;
      other.instance := None;
    }
  }

  // ----- programs on real objects -----

  /** Named results and what surrounds them. */
  class ResultPool {
    var live: map<nat, Result>
    var raw: multiset<Token>
    var issued: set<Token>
    const env: Environment

    /** Different names are different objects. */
    ghost predicate Valid()
      reads this
    {
      forall i, j :: i in live && j in live && i != j ==> live[i] != live[j]
    }

    ghost function State(): Pool
      reads this, env, live.Values
    {
      Pool(map id | id in live :: live[id].release, raw, env.released, issued)
    }

    constructor ()
      ensures Valid() && State() == EMPTY && live == map[] && fresh(env)
    {
      live, raw, issued := map[], multiset{}, {};
      env := new Environment();
    }

    method Construct(id: nat, raw: Holding)
      requires Valid() && Legal(State(), Wrap(id, raw))
      modifies this
      ensures Valid() && fresh(live.Values - old(live.Values))
      ensures State() == Step(old(State()), Wrap(id, raw))
    {
      var w := new Result(raw);
      this.raw := this.raw - Dropped(raw);
      assert w !in live.Values;
      live := live[id := w];
      assert State().live == old(State()).live[id := raw];
    }

    method MoveConstruct(id: nat, from: nat)
      requires Valid() && Legal(State(), Op.MoveConstruct(id, from))
      modifies this, live.Values
      ensures Valid() && fresh(live.Values - old(live.Values))
      ensures State() == Step(old(State()), Op.MoveConstruct(id, from))
    {
      var w := new Result.Move(live[from]);
      assert w !in live.Values;
      live := live[id := w];
      assert State().live == Moved(old(State()).live, id, from);
    }

    method MoveAssign(to: nat, from: nat)
      requires Valid() && Legal(State(), Op.MoveAssign(to, from))
      modifies live.Values, env
      ensures State() == Step(old(State()), Op.MoveAssign(to, from))
    {
      live[to].Assign(live[from], env);
    }

    method Destroy(id: nat)
      requires Valid() && Legal(State(), Op.Destroy(id))
      modifies this, env
      ensures Valid() && live.Values <= old(live.Values)
      ensures State() == Step(old(State()), Op.Destroy(id))
    {
      live[id].Destroy(env);
      live := live - {id};
    }

    method Issue(t: Token)
      requires Valid() && Legal(State(), Op.Issue(t))
      modifies this
      ensures Valid() && live == old(live)
      ensures State() == Step(old(State()), Op.Issue(t))
    {
      raw, issued := raw + multiset{t}, issued + {t};
    }

    method FreeRaw(t: Token)
      requires Valid() && Legal(State(), Op.FreeRaw(t))
      modifies this, env
      ensures Valid() && live == old(live)
      ensures State() == Step(old(State()), Op.FreeRaw(t))
    {
      env.Release(t);
      raw := raw - multiset{t};
    }

    method ReleaseRaw(id: nat)
      requires Valid() && Legal(State(), Op.ReleaseRaw(id))
      modifies this, live.Values
      ensures Valid() && live == old(live)
      ensures State() == Step(old(State()), Op.ReleaseRaw(id))
    {
      var r := live[id].ReleaseRaw();
      raw := raw + Dropped(r);
    }

    method Perform(op: Op)
      requires Valid() && Legal(State(), op)
      modifies this, env, live.Values
      ensures Valid() && fresh(live.Values - old(live.Values))
      ensures State() == Step(old(State()), op)
    {
      match op {
        case Issue(t) => Issue(t);
        case Wrap(id, r) => Construct(id, r);
        case MoveConstruct(id, from) => MoveConstruct(id, from);
        case MoveAssign(to, from) => MoveAssign(to, from);
        case Destroy(id) => Destroy(id);
        case FreeRaw(t) => FreeRaw(t);
        case ReleaseRaw(id) => ReleaseRaw(id);
      }
    }
  }

  /** Every legal program on real results is the program on pools, so it releases nothing twice. */
  method RunResults(ops: seq<Op>) returns (pool: ResultPool)
    requires Run(ops).Some?
    ensures pool.State() == Run(ops).value
    ensures forall t: Token :: pool.env.released[t] <= 1
  {
    pool := new ResultPool();
    for i := 0 to |ops|
      invariant pool.Valid() && fresh(pool) && fresh(pool.env) && fresh(pool.live.Values)
      invariant Run(ops[..i]) == Some(pool.State())
    {
      LegalPrefix(ops, i + 1);
      assert ops[..i + 1][..i] == ops[..i];
      pool.Perform(ops[i]);
    }
    assert ops[..|ops|] == ops;
    forall t: Token
      ensures pool.env.released[t] <= 1
    {
      ExactlyOnce(ops, t);
    }
  }

  /** Named VMs and what surrounds them. */
  class VmPool {
    var live: map<nat, Vm>
    var raw: multiset<Token>
    var issued: set<Token>
    const env: Environment

    /** Different names are different objects. */
    ghost predicate Valid()
      reads this
    {
      forall i, j :: i in live && j in live && i != j ==> live[i] != live[j]
    }

    ghost function State(): Pool
      reads this, env, live.Values
    {
      Pool(map id | id in live :: live[id].instance, raw, env.released, issued)
    }

    constructor ()
      ensures Valid() && State() == EMPTY && live == map[] && fresh(env)
    {
      live, raw, issued := map[], multiset{}, {};
      env := new Environment();
    }

    method Construct(id: nat, raw: Holding)
      requires Valid() && Legal(State(), Wrap(id, raw))
      modifies this
      ensures Valid() && fresh(live.Values - old(live.Values))
      ensures State() == Step(old(State()), Wrap(id, raw))
    {
      var w := new Vm(raw);
      this.raw := this.raw - Dropped(raw);
      assert w !in live.Values;
      live := live[id := w];
      assert State().live == old(State()).live[id := raw];
    }

    method MoveConstruct(id: nat, from: nat)
      requires Valid() && Legal(State(), Op.MoveConstruct(id, from))
      modifies this, live.Values
      ensures Valid() && fresh(live.Values - old(live.Values))
      ensures State() == Step(old(State()), Op.MoveConstruct(id, from))
    {
      var w := new Vm.Move(live[from]);
      assert w !in live.Values;
      live := live[id := w];
      assert State().live == Moved(old(State()).live, id, from);
    }

    method MoveAssign(to: nat, from: nat)
      requires Valid() && Legal(State(), Op.MoveAssign(to, from))
      modifies live.Values, env
      ensures State() == Step(old(State()), Op.MoveAssign(to, from))
    {
      live[to].Assign(live[from], env);
    }

    method Destroy(id: nat)
      requires Valid() && Legal(State(), Op.Destroy(id))
      modifies this, env
      ensures Valid() && live.Values <= old(live.Values)
      ensures State() == Step(old(State()), Op.Destroy(id))
    {
      live[id].Destroy(env);
      live := live - {id};
    }

    method Issue(t: Token)
      requires Valid() && Legal(State(), Op.Issue(t))
      modifies this
      ensures Valid() && live == old(live)
      ensures State() == Step(old(State()), Op.Issue(t))
    {
      raw, issued := raw + multiset{t}, issued + {t};
    }

    method FreeRaw(t: Token)
      requires Valid() && Legal(State(), Op.FreeRaw(t))
      modifies this, env
      ensures Valid() && live == old(live)
      ensures State() == Step(old(State()), Op.FreeRaw(t))
    {
      env.Release(t);
      raw := raw - multiset{t};
    }

    method Perform(op: Op)
      requires Valid() && Legal(State(), op) && !op.ReleaseRaw?
      modifies this, env, live.Values
      ensures Valid() && fresh(live.Values - old(live.Values))
      ensures State() == Step(old(State()), op)
    {
      match op {
        case Issue(t) => Issue(t);
        case Wrap(id, r) => Construct(id, r);
        case MoveConstruct(id, from) => MoveConstruct(id, from);
        case MoveAssign(to, from) => MoveAssign(to, from);
        case Destroy(id) => Destroy(id);
        case FreeRaw(t) => FreeRaw(t);
      }
    }
  }

  /** Every legal program on real VMs is the program on pools, so it releases nothing twice. */
  method RunVms(ops: seq<Op>) returns (pool: VmPool)
    requires Run(ops).Some? && forall op :: op in ops ==> !op.ReleaseRaw?
    ensures pool.State() == Run(ops).value
    ensures forall t: Token :: pool.env.released[t] <= 1
  {
    pool := new VmPool();
    for i := 0 to |ops|
      invariant pool.Valid() && fresh(pool) && fresh(pool.env) && fresh(pool.live.Values)
      invariant Run(ops[..i]) == Some(pool.State())
    {
      LegalPrefix(ops, i + 1);
      assert ops[..i + 1][..i] == ops[..i];
      pool.Perform(ops[i]);
    }
    assert ops[..|ops|] == ops;
    forall t: Token
      ensures pool.env.released[t] <= 1
    {
      ExactlyOnce(ops, t);
    }
  }
}
