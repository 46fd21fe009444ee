/** The storage change status of one write, and what each status costs and refunds. */
module StorageStatus {
  import opened ByteStrings

  datatype Status =
    | Assigned | Added | Deleted | Modified | DeletedAdded | ModifiedDeleted | DeletedRestored | AddedDeleted | ModifiedRestored

  const REMOVE_CLEARS_SCHEDULE := 1
  const ADD_CLEARS_SCHEDULE := 2
  const RESTORED_BY_SET := 4
  const RESTORED_BY_RESET := 8

  predicate IsZero(w: Word) {
    w == ZERO_WORD
  }

  /** The clause tree of the "Specification" section of EIP-2200; the source's asserts are kept. */
  function StatusOf(original: Word, current: Word, value: Word): Status {
    if current == value then Assigned  // clause 2
    else if original == current then   // clause 3.1
      if IsZero(original) then Added
      else if IsZero(value) then Deleted
      else Modified
    else                               // clause 3.2: the dirty slot's clauses are collected, then looked up
      var remove :=
        if !IsZero(original) && IsZero(current) then assert !IsZero(value); REMOVE_CLEARS_SCHEDULE else 0;
      var add :=
        if !IsZero(original) && IsZero(value) then assert !IsZero(current); ADD_CLEARS_SCHEDULE else 0;
      var restored :=
        if original == value then if IsZero(original) then RESTORED_BY_SET else RESTORED_BY_RESET else 0;
      var triggered := remove + add + restored;
      if triggered == REMOVE_CLEARS_SCHEDULE then DeletedAdded
      else if triggered == ADD_CLEARS_SCHEDULE then ModifiedDeleted
      else if triggered == REMOVE_CLEARS_SCHEDULE + RESTORED_BY_RESET then DeletedRestored
      else if triggered == RESTORED_BY_SET then AddedDeleted
      else if triggered == RESTORED_BY_RESET then ModifiedRestored
      else assert triggered == 0; Assigned
  }

  /** The "Efficient implementation": four checks packed into a checksum. */
  function Checksum(original: Word, current: Word, value: Word): nat {
    (if original != current then 8 else 0) + (if original == value then 4 else 0)
    + (if IsZero(current) then 0 else 2) + (if IsZero(value) then 0 else 1)
  }

  const IMPOSSIBLE_CHECKSUMS: set<nat> := {0, 5, 6, 12}

  function StatusByChecksum(checksum: nat): Status
    requires checksum < 16 && checksum !in IMPOSSIBLE_CHECKSUMS
  {
    match checksum
    case 1 => Added
    case 2 => Deleted
    case 3 => Modified
    case 9 => DeletedAdded
    case 10 => ModifiedDeleted
    case 13 => DeletedRestored
    case 14 => AddedDeleted
    case 15 => ModifiedRestored
    case _ => Assigned
  }

  /** The clause tree and the four checks select the same status, and four checksums never occur. */
  lemma ClauseTreeIsFourChecks(original: Word, current: Word, value: Word)
    ensures Checksum(original, current, value) < 16
    ensures Checksum(original, current, value) !in IMPOSSIBLE_CHECKSUMS
    ensures StatusOf(original, current, value) == StatusByChecksum(Checksum(original, current, value))
  {
  }

  // ----- costs -----

  /** Gwarmaccess, Gsset, Gsreset and Rsclear. */
  datatype Schedule = Schedule(warm: nat, sset: nat, sreset: nat, sclear: nat)

  const EIP_2929 := Schedule(100, 20000, 2900, 15000)
  const EIP_2200 := Schedule(800, 20000, 5000, 15000)

  function Cost(g: Schedule, s: Status): int {
    match s
    case Added => g.sset
    case Deleted => g.sreset
    case Modified => g.sreset
    case _ => g.warm
  }

  function Refund(g: Schedule, s: Status): int {
    match s
    case Deleted => g.sclear
    case DeletedAdded => 0 - g.sclear
    case ModifiedDeleted => g.sclear
    case DeletedRestored => 0 - g.sclear + g.sreset - g.warm
    case AddedDeleted => g.sset - g.warm
    case ModifiedRestored => g.sreset - g.warm
    case _ => 0
  }

  /** The nine statuses in numbers, under EIP-2929. */
  lemma PublishedCosts()
    ensures Cost(EIP_2929, Assigned) == 100 && Refund(EIP_2929, Assigned) == 0
    ensures Cost(EIP_2929, Added) == 20000 && Refund(EIP_2929, Added) == 0
    ensures Cost(EIP_2929, Deleted) == 2900 && Refund(EIP_2929, Deleted) == 15000
    ensures Cost(EIP_2929, Modified) == 2900 && Refund(EIP_2929, Modified) == 0
    ensures Cost(EIP_2929, DeletedAdded) == 100 && Refund(EIP_2929, DeletedAdded) == -15000
    ensures Cost(EIP_2929, ModifiedDeleted) == 100 && Refund(EIP_2929, ModifiedDeleted) == 15000
    ensures Cost(EIP_2929, DeletedRestored) == 100 && Refund(EIP_2929, DeletedRestored) == -12200
    ensures Cost(EIP_2929, AddedDeleted) == 100 && Refund(EIP_2929, AddedDeleted) == 19900
    ensures Cost(EIP_2929, ModifiedRestored) == 100 && Refund(EIP_2929, ModifiedRestored) == 2800
    ensures Cost(EIP_2200, Assigned) == 800 && Cost(EIP_2200, Added) == 20000 && Cost(EIP_2200, Modified) == 5000
    ensures Refund(EIP_2200, Deleted) == 15000
  {
  }

  /** What the clauses of EIP-2200 deduct for a write. */
  function ClauseCost(g: Schedule, original: Word, current: Word, value: Word): int {
    if current != value && original == current then if IsZero(original) then g.sset else g.sreset
    else g.warm
  }

  /** What the clauses of EIP-2200 add to the refund counter for a write, one summand a clause. */
  function ClauseRefund(g: Schedule, original: Word, current: Word, value: Word): int {
    if current == value then 0
    else if original == current then if !IsZero(original) && IsZero(value) then g.sclear else 0
    else
      (if !IsZero(original) && IsZero(current) then 0 - g.sclear else 0)
      + (if !IsZero(original) && IsZero(value) then g.sclear else 0)
      + (if original == value then (if IsZero(original) then g.sset else g.sreset) - g.warm else 0)
  }

  /** The status alone tells what the clauses deduct and refund. */
  lemma StatusTellsTheClauses(g: Schedule, original: Word, current: Word, value: Word)
    ensures Cost(g, StatusOf(original, current, value)) == ClauseCost(g, original, current, value)
    ensures Refund(g, StatusOf(original, current, value)) == ClauseRefund(g, original, current, value)
  {
  }

  /** What a slot's distance from its original value is worth, net of refunds. */
  function Potential(g: Schedule, original: Word, current: Word): int {
    if original == current then 0
    else if IsZero(original) then g.sset - g.warm
    else if IsZero(current) then g.sreset - g.warm - g.sclear
    else g.sreset - g.warm
  }

  /** One write pays the warm access and the change of potential, under every schedule. */
  lemma WritePaysPotential(g: Schedule, original: Word, current: Word, value: Word)
    ensures var s := StatusOf(original, current, value);
            Cost(g, s) - Refund(g, s) == g.warm + Potential(g, original, value) - Potential(g, original, current)
  {
  }

  /** 1 for a slot whose original value has been cleared. */
  function Cleared(original: Word, current: Word): nat {
    if !IsZero(original) && IsZero(current) then 1 else 0
  }

  /** One write refunds at least Rsclear for each slot it newly clears, and takes back at most that. */
  lemma WriteRefundsClearing(g: Schedule, original: Word, current: Word, value: Word)
    requires g.warm <= g.sset && g.warm <= g.sreset
    ensures Refund(g, StatusOf(original, current, value))
            >= g.sclear * (Cleared(original, value) - Cleared(original, current))
  {
    var d := Cleared(original, value) - Cleared(original, current);
    assert d == 1 || d == 0 || d == -1;
  }
}
