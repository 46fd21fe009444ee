/** Who owns the resources behind the move-only wrappers `Result` and `VM`, over every program that uses them. */
module Ownership {
  import opened Basics
  import opened MapSums

  /** A resource behind a raw result's release function, or a VM instance. */
  type Token = nat

  /** What a wrapper's pointer says it owns; None is the null pointer. */
  type Holding = Option<Token>

  function Dropped(h: Holding): multiset<Token> {
    if h.Some? then multiset{h.value} else multiset{}
  }

  // ----- what each operation does to a pool of wrappers -----

  /** The live wrappers by name, the raw results in the hands of callers, and what was issued and released so far. */
  datatype Pool = Pool(live: map<nat, Holding>, raw: multiset<Token>, released: multiset<Token>, issued: set<Token>)

  const EMPTY := Pool(map[], multiset{}, multiset{}, {})

  datatype Op =
    | Issue(t: Token)                    // a raw result with a new resource is handed to a caller
    | Wrap(id: nat, raw: Holding)        // a wrapper is constructed from a raw result, which is used up
    | MoveConstruct(id: nat, from: nat)
    | MoveAssign(to: nat, from: nat)     // to and from may be the same object
    | ReleaseRaw(id: nat)
    | Destroy(id: nat)
    | FreeRaw(t: Token)                  // the caller releases its raw result itself

  /** What the language and the documentation ask of the program. */
  predicate Legal(p: Pool, op: Op) {
    match op
    case Issue(t) => t !in p.issued
    case Wrap(id, raw) => id !in p.live && (raw.Some? ==> raw.value in p.raw)
    case MoveConstruct(id, from) => id !in p.live && from in p.live
    case MoveAssign(to, from) => to in p.live && from in p.live
    case ReleaseRaw(id) => id in p.live
    case Destroy(id) => id in p.live
    case FreeRaw(t) => t in p.raw
  }

  /** The holding is copied and its source disarmed, in this order. */
  function Moved(live: map<nat, Holding>, to: nat, from: nat): map<nat, Holding>
    requires from in live
  {
    var copied: map<nat, Holding> := live[to := live[from]];
    copied[from := None]
  }

  function Step(p: Pool, op: Op): Pool
    requires Legal(p, op)
  {
    match op
    case Issue(t) => p.(raw := p.raw + multiset{t}, issued := p.issued + {t})
    case Wrap(id, raw) => p.(live := p.live[id := raw], raw := p.raw - Dropped(raw))
    case MoveConstruct(id, from) => p.(live := Moved(p.live, id, from))
    case MoveAssign(to, from) => p.(live := Moved(p.live, to, from), released := p.released + Dropped(p.live[to]))
    case ReleaseRaw(id) => p.(live := p.live[id := None], raw := p.raw + Dropped(p.live[id]))
    case Destroy(id) => p.(live := p.live - {id}, released := p.released + Dropped(p.live[id]))
    case FreeRaw(t) => p.(raw := p.raw - multiset{t}, released := p.released + multiset{t})
  }

  // ----- programs -----

  /** The pool after a program, if every operation was legal when it ran. */
  function Run(ops: seq<Op>): Option<Pool> {
    if ops == [] then Some(EMPTY)
    else
      var before := Run(ops[..|ops| - 1]);
      var op := ops[|ops| - 1];
      if before.Some? && Legal(before.value, op) then Some(Step(before.value, op)) else None
  }

  function Holds(t: Token): Holding -> int {
    (h: Holding) => if h == Some(t) then 1 else 0
  }

  /** The number of owners of a resource: wrappers that would release it, and callers with its raw result. */
  ghost function Owners(p: Pool, t: Token): int {
    Sum(p.live, Holds(t)) + p.raw[t]
  }

  /** A move, onto itself too, costs only what the target held before. */
  lemma MoveKeepsCount(live: map<nat, Holding>, to: nat, from: nat, t: Token)
    requires from in live
    ensures Sum(Moved(live, to, from), Holds(t))
            == Sum(live, Holds(t)) - (if to in live then Holds(t)(live[to]) else 0)
  {
    var copied: map<nat, Holding> := live[to := live[from]];
    SumUpdate(live, Holds(t), to, live[from]);
    SumUpdate(copied, Holds(t), from, None);
  }

  /** Owners and releases together have changed by `issued`. */
  ghost predicate Conserved(p: Pool, p': Pool, t: Token, issued: int) {
    Owners(p', t) + p'.released[t] == Owners(p, t) + p.released[t] + issued
  }

  lemma WrapConserves(p: Pool, id: nat, raw: Holding, t: Token)
    requires Legal(p, Wrap(id, raw))
    ensures Conserved(p, Step(p, Wrap(id, raw)), t, 0)
  {
    SumUpdate(p.live, Holds(t), id, raw);
  }

  lemma ReleaseRawConserves(p: Pool, id: nat, t: Token)
    requires Legal(p, ReleaseRaw(id))
    ensures Conserved(p, Step(p, ReleaseRaw(id)), t, 0)
  {
    SumUpdate(p.live, Holds(t), id, None);
  }

  lemma DestroyConserves(p: Pool, id: nat, t: Token)
    requires Legal(p, Destroy(id))
    ensures Conserved(p, Step(p, Destroy(id)), t, 0)
  {
    SumRemove(p.live, Holds(t), id);
  }

  lemma MoveConserves(p: Pool, op: Op, t: Token)
    requires Legal(p, op) && (op.MoveConstruct? || op.MoveAssign?)
    ensures Conserved(p, Step(p, op), t, 0)
  {
    MoveKeepsCount(p.live, if op.MoveConstruct? then op.id else op.to, op.from, t);
  }

  lemma StepConserves(p: Pool, op: Op, t: Token)
    requires Legal(p, op)
    ensures Owners(Step(p, op), t) + Step(p, op).released[t]
            == Owners(p, t) + p.released[t] + if op == Issue(t) then 1 else 0
  {
    match op
    case Issue(_) =>
    case FreeRaw(_) =>
    case Wrap(id, raw) => WrapConserves(p, id, raw, t);
    case ReleaseRaw(id) => ReleaseRawConserves(p, id, t);
    case Destroy(id) => DestroyConserves(p, id, t);
    case MoveConstruct(_, _) => MoveConserves(p, op, t);
    case MoveAssign(_, _) => MoveConserves(p, op, t);
  }

  /** Every beginning of a legal program is legal. */
  lemma {:induction false} LegalPrefix(ops: seq<Op>, n: nat)
    requires Run(ops).Some? && n <= |ops|
    ensures Run(ops[..n]).Some?
  {
    if n == |ops| {
      assert ops[..n] == ops;
    } else {
      LegalPrefix(ops[..|ops| - 1], n);
      assert ops[..|ops| - 1][..n] == ops[..n];
    }
  }

  lemma HoldersNonNegative(live: map<nat, Holding>, t: Token)
    ensures Sum(live, Holds(t)) >= 0
  {
    SumIsNonNegative(live, Holds(t));
  }

  /**
   * Over every program, each issued resource has exactly one owner until it is released, and is released at most
   * once; nothing else is ever released.
   */
  lemma {:induction false} ExactlyOnce(ops: seq<Op>, t: Token)
    requires Run(ops).Some?
    ensures var p := Run(ops).value;
            && Owners(p, t) + p.released[t] == (if t in p.issued then 1 else 0)
            && Owners(p, t) >= 0
  {
    var p := Run(ops).value;
    if ops == [] {
      assert Owners(p, t) == 0;
    } else {
      var before := Run(ops[..|ops| - 1]).value;
      ExactlyOnce(ops[..|ops| - 1], t);
      StepConserves(before, ops[|ops| - 1], t);
    }
    HoldersNonNegative(p.live, t);
  }

  /** Destroying, or assigning over, the wrapper that holds a resource releases it at that step, and leaves it no owner. */
  lemma LastOwnerReleases(ops: seq<Op>, op: Op, id: nat, t: Token)
    requires Run(ops).Some? && Legal(Run(ops).value, op)
    requires id in Run(ops).value.live && Run(ops).value.live[id] == Some(t)
    requires op == Destroy(id) || (op.MoveAssign? && op.to == id)
    ensures var p, p' := Run(ops).value, Step(Run(ops).value, op);
            p.released[t] == 0 && p'.released[t] == 1 && Owners(p', t) == 0
  {
    var p := Run(ops).value;
    ExactlyOnce(ops, t);
    SumRemove(p.live, Holds(t), id);
    HoldersNonNegative(p.live - {id}, t);
    StepConserves(p, op, t);
  }

  /** A program that has destroyed its wrappers and freed its raw results has released everything, each resource once. */
  lemma NothingLeaks(ops: seq<Op>)
    requires Run(ops).Some? && Run(ops).value.live == map[] && Run(ops).value.raw == multiset{}
    ensures Run(ops).value.released == multiset(Run(ops).value.issued)
  {
    var p := Run(ops).value;
    forall t: Token
      ensures p.released[t] == multiset(p.issued)[t]
    {
      ExactlyOnce(ops, t);
    }
  }
}
