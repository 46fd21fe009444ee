/** Whole-transaction gas facts about histories of host calls, over any accounts and keys. */
module HostGas {
  import opened ByteStrings
  import opened MapSums
  import opened StorageStatus
  import opened MockedHost

  type SlotWeight = StorageValue -> int

  ghost function AccountWeight(w: SlotWeight): Account -> int {
    (a: Account) => Sum(a.storage, w)
  }

  /** The sum of a weight over all slots of all accounts. */
  ghost function Total(accounts: Accounts, w: SlotWeight): int {
    Sum(accounts, AccountWeight(w))
  }

  lemma TotalUpdate(accounts: Accounts, addr: Address, key: Word, s: StorageValue, w: SlotWeight)
    requires w(NEW_SLOT) == 0
    ensures Total(PutSlot(accounts, addr, key, s), w) == Total(accounts, w) - w(Slot(accounts, addr, key)) + w(s)
  {
    var account := AccountAt(accounts, addr);
    SumUpdate(account.storage, w, key, s);
    SumUpdate(accounts, AccountWeight(w), addr, account.(storage := account.storage[key := s]));
    assert addr !in accounts ==> Sum(account.storage, w) == 0;
  }

  /** The statuses returned by the `set_storage` calls of a history, in order. */
  function Statuses(h: HostState, ops: seq<HostOp>): seq<Status> {
    if ops == [] then []
    else
      var init, last := ops[..|ops| - 1], ops[|ops| - 1];
      Statuses(h, init)
      + if last.SetStorage? then [SetStorageStatus(History(h, init), last.addr, last.key, last.value)] else []
  }

  function TotalCost(g: Schedule, statuses: seq<Status>): int {
    if statuses == [] then 0 else TotalCost(g, statuses[..|statuses| - 1]) + Cost(g, statuses[|statuses| - 1])
  }

  function TotalRefund(g: Schedule, statuses: seq<Status>): int {
    if statuses == [] then 0 else TotalRefund(g, statuses[..|statuses| - 1]) + Refund(g, statuses[|statuses| - 1])
  }

  function PotentialWeight(g: Schedule): SlotWeight {
    (s: StorageValue) => Potential(g, s.original, s.current)
  }

  function ClearedWeight(): SlotWeight {
    (s: StorageValue) => Cleared(s.original, s.current)
  }

  /** How a total over slots moves with one host call: only a storage write changes what a weight may see. */
  lemma TotalAfter(h: HostState, op: HostOp, w: SlotWeight)
    requires w(NEW_SLOT) == 0 && forall s: StorageValue :: w(s.(access := Warm)) == w(s)
    ensures Total(Apply(h, op).accounts, w)
            == Total(h.accounts, w)
               + if op.SetStorage? then
                   var s := Slot(h.accounts, op.addr, op.key); w(s.(current := op.value)) - w(s)
                 else 0
  {
    if op.SetStorage? || op.AccessStorage? {
      var s := Slot(h.accounts, op.addr, op.key);
      TotalUpdate(h.accounts, op.addr, op.key, if op.SetStorage? then s.(current := op.value) else s.(access := Warm), w);
    }
  }

  /**
   * Net gas telescopes: whatever the history, the costs less the refunds of its writes are the warm accesses plus
   * the change of potential summed over all slots, so only the original, first and last values of a slot matter.
   */
  lemma {:induction false} NetGasTelescopes(g: Schedule, h: HostState, ops: seq<HostOp>)
    ensures var statuses := Statuses(h, ops);
            TotalCost(g, statuses) - TotalRefund(g, statuses)
            == |statuses| * g.warm
               + Total(History(h, ops).accounts, PotentialWeight(g)) - Total(h.accounts, PotentialWeight(g))
  {
    if ops == [] {
    } else {
      var init, last := ops[..|ops| - 1], ops[|ops| - 1];
      var mid := History(h, init);
      NetGasTelescopes(g, h, init);
      TotalAfter(mid, last, PotentialWeight(g));
      if last.SetStorage? {
        var s := Slot(mid.accounts, last.addr, last.key);
        WritePaysPotential(g, s.original, s.current, last.value);
        assert Statuses(h, ops)[..|Statuses(h, ops)| - 1] == Statuses(h, init);
        assert (|Statuses(h, init)| + 1) * g.warm == |Statuses(h, init)| * g.warm + g.warm;
      } else {
        assert Statuses(h, ops) == Statuses(h, init);
      }
    }
  }

  /** What one call adds to the refund counter. */
  function RefundOf(g: Schedule, h: HostState, op: HostOp): int {
    if op.SetStorage? then Refund(g, SetStorageStatus(h, op.addr, op.key, op.value)) else 0
  }

  lemma RefundOfLast(g: Schedule, h: HostState, ops: seq<HostOp>)
    requires ops != []
    ensures var init, last := ops[..|ops| - 1], ops[|ops| - 1];
            TotalRefund(g, Statuses(h, ops)) == TotalRefund(g, Statuses(h, init)) + RefundOf(g, History(h, init), last)
  {
    var init, last := ops[..|ops| - 1], ops[|ops| - 1];
    if last.SetStorage? {
      assert Statuses(h, ops)[..|Statuses(h, ops)| - 1] == Statuses(h, init);
    } else {
      assert Statuses(h, ops) == Statuses(h, init);
    }
  }

  /** The refunds of a stretch cover what it clears. */
  ghost predicate Covered(g: Schedule, before: Accounts, after: Accounts, refund: int) {
    refund >= g.sclear * (Total(after, ClearedWeight()) - Total(before, ClearedWeight()))
  }

  lemma OneCallRefunds(g: Schedule, h: HostState, op: HostOp)
    requires g.warm <= g.sset && g.warm <= g.sreset
    ensures Covered(g, h.accounts, Apply(h, op).accounts, RefundOf(g, h, op))
  {
    TotalAfter(h, op, ClearedWeight());
    if op.SetStorage? {
      var s := Slot(h.accounts, op.addr, op.key);
      WriteRefundsClearing(g, s.original, s.current, op.value);
    }
  }

  lemma CoveredTogether(g: Schedule, before: Accounts, mid: Accounts, after: Accounts, refund: int, refund': int)
    requires Covered(g, before, mid, refund) && Covered(g, mid, after, refund')
    ensures Covered(g, before, after, refund + refund')
  {
    var x, y, z := Total(before, ClearedWeight()), Total(mid, ClearedWeight()), Total(after, ClearedWeight());
    assert g.sclear * (y - x) + g.sclear * (z - y) == g.sclear * (z - x);
  }

  lemma RefundsCoverNext(g: Schedule, before: Accounts, mid: HostState, op: HostOp, refund: int)
    requires g.warm <= g.sset && g.warm <= g.sreset && Covered(g, before, mid.accounts, refund)
    ensures Covered(g, before, Apply(mid, op).accounts, refund + RefundOf(g, mid, op))
  {
    OneCallRefunds(g, mid, op);
    CoveredTogether(g, before, mid.accounts, Apply(mid, op).accounts, refund, RefundOf(g, mid, op));
  }

  lemma {:induction false} RefundsCover(g: Schedule, h: HostState, ops: seq<HostOp>)
    requires g.warm <= g.sset && g.warm <= g.sreset
    ensures Covered(g, h.accounts, History(h, ops).accounts, TotalRefund(g, Statuses(h, ops)))
  {
    if ops == [] {
    } else {
      var init, last := ops[..|ops| - 1], ops[|ops| - 1];
      RefundsCover(g, h, init);
      RefundsCoverNext(g, h.accounts, History(h, init), last, TotalRefund(g, Statuses(h, init)));
      RefundOfLast(g, h, ops);
    }
  }

  lemma RefundCoversClearing(g: Schedule, h: HostState, ops: seq<HostOp>)
    requires g.warm <= g.sset && g.warm <= g.sreset
    ensures TotalRefund(g, Statuses(h, ops))
            >= g.sclear * (Total(History(h, ops).accounts, ClearedWeight()) - Total(h.accounts, ClearedWeight()))
  {
    RefundsCover(g, h, ops);
  }

  /** The state a transaction starts in. */
  ghost predicate Clean(accounts: Accounts) {
    forall addr, key :: Slot(accounts, addr, key).original == Slot(accounts, addr, key).current
  }

  lemma CleanHasNoCleared(accounts: Accounts)
    requires Clean(accounts)
    ensures Total(accounts, ClearedWeight()) == 0
  {
    forall addr | addr in accounts
      ensures AccountWeight(ClearedWeight())(accounts[addr]) == 0
    {
      forall key | key in accounts[addr].storage
        ensures ClearedWeight()(accounts[addr].storage[key]) == 0
      {
        assert Slot(accounts, addr, key) == accounts[addr].storage[key];
      }
      SumOfZeros(accounts[addr].storage, ClearedWeight());
    }
    SumOfZeros(accounts, AccountWeight(ClearedWeight()));
  }

  lemma ClearedIsNonNegative(accounts: Accounts)
    ensures Total(accounts, ClearedWeight()) >= 0
  {
    forall addr | addr in accounts
      ensures AccountWeight(ClearedWeight())(accounts[addr]) >= 0
    {
      SumIsNonNegative(accounts[addr].storage, ClearedWeight());
    }
    SumIsNonNegative(accounts, AccountWeight(ClearedWeight()));
  }

  /**
   * The refund counter of a transaction never goes below Rsclear for each slot it leaves cleared, and so never below
   * zero, although single writes refund negative amounts.
   */
  lemma RefundNeverNegative(g: Schedule, h: HostState, ops: seq<HostOp>)
    requires g.warm <= g.sset && g.warm <= g.sreset && Clean(h.accounts)
    ensures TotalRefund(g, Statuses(h, ops)) >= g.sclear * Total(History(h, ops).accounts, ClearedWeight()) >= 0
  {
    RefundCoversClearing(g, h, ops);
    CleanHasNoCleared(h.accounts);
    ClearedIsNonNegative(History(h, ops).accounts);
  }

  /** The refund counter of both published schedules stays non-negative. */
  lemma PublishedRefundsNonNegative(h: HostState, ops: seq<HostOp>)
    requires Clean(h.accounts)
    ensures TotalRefund(EIP_2929, Statuses(h, ops)) >= 15000 * Total(History(h, ops).accounts, ClearedWeight()) >= 0
    ensures TotalRefund(EIP_2200, Statuses(h, ops)) >= 15000 * Total(History(h, ops).accounts, ClearedWeight()) >= 0
  {
    RefundNeverNegative(EIP_2929, h, ops);
    RefundNeverNegative(EIP_2200, h, ops);
  }
}
