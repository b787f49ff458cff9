/**
 * Values and pure transition rules of the delegation module of the liquid-staking
 * contract (liquid-staking/src/delegation.rs): the claim status, the per-contract
 * record, the abstract value of the module's four storage mappers, and one function
 * per operation giving the outcome and the new storage value.
 *
 * A failed `require!` aborts the whole transaction, so every rule below leaves the
 * storage value as it was whenever it returns an error.
 */
module Delegation {
  import opened RoundRobin

  /** `u64` of the source. */
  type U64 = x: int | 0 <= x < 0x1_0000_0000_0000_0000

  /** `usize` of the source; the contract runs as 32-bit WebAssembly. */
  type Usize = x: int | 0 <= x < 0x1_0000_0000

  /** `ManagedAddress`: a 32-byte account address. */
  type Address = s: seq<bv8> | |s| == 32 witness seq(32, i => 0)

  /**
   * The error constants of the source's `errors` module that this module raises, plus
   * the abort of `VecMapper::get` on an index outside `1..len`.
   */
  datatype Error =
    | AlreadyWhitelisted  // ERROR_ALREADY_WHITELISTED
    | NotWhitelisted      // ERROR_NOT_WHITELISTED
    | ClaimStart          // ERROR_CLAIM_START
    | ClaimRedelegate     // ERROR_CLAIM_REDELEGATE
    | ClaimEpoch          // ERROR_CLAIM_EPOCH
    | IndexOutOfRange     // VecMapper::get outside 1..len

  datatype Result<T> = Ok(value: T) | Err(error: Error)

  datatype ClaimStatusType = None | Pending | Finished | Redelegated

  datatype ClaimStatus = ClaimStatus(
    status: ClaimStatusType,
    lastClaimEpoch: U64,
    currentIteration: Usize,
    startingTokenReserve: nat)

  datatype DelegationContractData = DelegationContractData(
    totalStaked: nat,
    delegationContractCap: U64,
    nrNodes: U64,
    apy: U64,
    totalStakedFromLsContract: nat,
    totalUndelegatedFromLsContract: nat)

  /**
   * The value held by the module's four storage mappers: `delegation_address` (a record
   * per address; an address without one is absent from the map), the 1-based
   * `delegation_addresses_list`, the cursor `delegation_addresses_last_index` and the
   * singleton `delegation_claim_status`.
   */
  datatype Storage = Storage(
    delegationAddress: map<Address, DelegationContractData>,
    delegationAddressesList: seq<Address>,
    delegationAddressesLastIndex: nat,
    delegationClaimStatus: ClaimStatus)

  /**
   * `ClaimStatus::default()`: an unstarted status. Persisted, it lets no claim cycle
   * start; as a draft, it passes the gate's first check.
   */
  function DefaultClaimStatus(): (c: ClaimStatus)
    ensures c.status == None && c.currentIteration == 1
    ensures forall reserve: nat, draft: ClaimStatus, epoch: U64 ::
      ClaimGate(c, reserve, draft, epoch).Err?
  {
    ClaimStatus(None, 0, 1, 0)
  }

  /** Storage before any operation: no contracts, cursor 0, the default claim status. */
  function Initial(): (s: Storage)
    ensures Valid(s)
    ensures s.delegationAddressesList == [] && s.delegationClaimStatus == DefaultClaimStatus()
  {
    Storage(map[], [], 0, DefaultClaimStatus())
  }

  predicate NoDuplicates(xs: seq<Address>) {
    forall i, j :: 0 <= i < j < |xs| ==> xs[i] != xs[j]
  }

  /**
   * The invariant the operations keep: the list has no duplicates, an address has a
   * record exactly when it is listed, and the cursor lies in 0..len.
   */
  ghost predicate Valid(s: Storage) {
    && NoDuplicates(s.delegationAddressesList)
    && (forall a :: a in s.delegationAddress <==> a in s.delegationAddressesList)
    && s.delegationAddressesLastIndex <= |s.delegationAddressesList|
  }

  /** `whitelist_delegation_contract`. */
  function Whitelist(s: Storage, contractAddress: Address, totalStaked: nat,
                     delegationContractCap: U64, nrNodes: U64, apy: U64): (r: Result<Storage>)
    ensures r.Err? <==> contractAddress in s.delegationAddress
    ensures r.Err? ==> r.error == AlreadyWhitelisted
    ensures r.Ok? ==>
      var t := r.value;
      var n := |s.delegationAddressesList|;
      // the new record holds the four given fields and zero pool counters
      && t.delegationAddress.Keys == s.delegationAddress.Keys + {contractAddress}
      && t.delegationAddress[contractAddress]
           == DelegationContractData(totalStaked, delegationContractCap, nrNodes, apy, 0, 0)
      && (forall a :: a in s.delegationAddress ==> t.delegationAddress[a] == s.delegationAddress[a])
      // the address becomes the last list element; earlier entries stay
      && |t.delegationAddressesList| == n + 1
      && t.delegationAddressesList[n] == contractAddress
      && t.delegationAddressesList[..n] == s.delegationAddressesList
      && t.delegationAddressesLastIndex == s.delegationAddressesLastIndex
      && t.delegationClaimStatus == s.delegationClaimStatus
  {
    if contractAddress in s.delegationAddress then Err(AlreadyWhitelisted)
    else
      var contractData := DelegationContractData(totalStaked, delegationContractCap, nrNodes, apy, 0, 0);
      Ok(s.(delegationAddress := s.delegationAddress[contractAddress := contractData],
            delegationAddressesList := s.delegationAddressesList + [contractAddress]))
  }

  /** `change_delegation_contract_params`. */
  function ChangeParams(s: Storage, contractAddress: Address, totalStaked: nat,
                        delegationContractCap: U64, nrNodes: U64, apy: U64): (r: Result<Storage>)
    ensures r.Err? <==> contractAddress !in s.delegationAddress
    ensures r.Err? ==> r.error == NotWhitelisted
    ensures r.Ok? ==> r.value.delegationAddress.Keys == s.delegationAddress.Keys
    ensures r.Ok? ==>
      var t := r.value;
      var old_ := s.delegationAddress[contractAddress];
      var new_ := t.delegationAddress[contractAddress];
      // the four supplied fields are replaced
      && new_.totalStaked == totalStaked
      && new_.delegationContractCap == delegationContractCap
      && new_.nrNodes == nrNodes
      && new_.apy == apy
      // the pool counters are carried forward
      && new_.totalStakedFromLsContract == old_.totalStakedFromLsContract
      && new_.totalUndelegatedFromLsContract == old_.totalUndelegatedFromLsContract
      // nothing else changes
      && (forall a :: a in s.delegationAddress && a != contractAddress ==>
            t.delegationAddress[a] == s.delegationAddress[a])
      && t.delegationAddressesList == s.delegationAddressesList
      && t.delegationAddressesLastIndex == s.delegationAddressesLastIndex
      && t.delegationClaimStatus == s.delegationClaimStatus
  {
    if contractAddress !in s.delegationAddress then Err(NotWhitelisted)
    else
      var oldContractData := s.delegationAddress[contractAddress];
      var newContractData := DelegationContractData(
        totalStaked, delegationContractCap, nrNodes, apy,
        oldContractData.totalStakedFromLsContract,
        oldContractData.totalUndelegatedFromLsContract);
      Ok(s.(delegationAddress := s.delegationAddress[contractAddress := newContractData]))
  }

  /**
   * `get_next_delegation_contract`: the new storage value and the returned address.
   * On an empty list the list read at index 1 aborts, which also discards the cursor write.
   */
  function NextContract(s: Storage): (r: Result<(Storage, Address)>)
    ensures r.Err? <==> |s.delegationAddressesList| == 0
    ensures r.Err? ==> r.error == IndexOutOfRange
    ensures r.Ok? ==>
      var (t, addr) := r.value;
      // only the cursor moves, onto a position of the list ...
      && t == s.(delegationAddressesLastIndex := t.delegationAddressesLastIndex)
      && t.delegationAddressesLastIndex
           == NextIndex(s.delegationAddressesLastIndex, |s.delegationAddressesList|)
      && 1 <= t.delegationAddressesLastIndex <= |s.delegationAddressesList|
      // ... and the address returned is the one the new cursor designates (1-based)
      && addr == s.delegationAddressesList[t.delegationAddressesLastIndex - 1]
  {
    var newIndex := NextIndex(s.delegationAddressesLastIndex, |s.delegationAddressesList|);
    if newIndex > |s.delegationAddressesList| then Err(IndexOutOfRange)
    else Ok((s.(delegationAddressesLastIndex := newIndex), s.delegationAddressesList[newIndex - 1]))
  }

  /**
   * `can_proceed_claim_operation`: checks the caller's draft against the persisted status
   * and the current epoch, in this order, and upgrades an unstarted draft. `reserve` is
   * the value of the configuration's `virtual_egld_reserve` at the time of the call.
   */
  function ClaimGate(persisted: ClaimStatus, reserve: nat, draft: ClaimStatus,
                     currentEpoch: U64): (r: Result<ClaimStatus>)
    ensures draft.status != None && draft.status != Pending ==> r == Err(ClaimStart)
    ensures ((draft.status == None || draft.status == Pending)
             && persisted.status != Redelegated) ==> r == Err(ClaimRedelegate)
    ensures ((draft.status == None || draft.status == Pending)
             && persisted.status == Redelegated
             && currentEpoch <= persisted.lastClaimEpoch) ==> r == Err(ClaimEpoch)
    ensures r.Ok? <==>
      && (draft.status == None || draft.status == Pending)
      && persisted.status == Redelegated
      && currentEpoch > persisted.lastClaimEpoch
    ensures r.Ok? && draft.status == None ==>
      r.value == ClaimStatus(Pending, currentEpoch, draft.currentIteration, reserve)
    ensures r.Ok? && draft.status == Pending ==> r.value == draft
  {
    if !(draft.status == None || draft.status == Pending) then Err(ClaimStart)
    else if persisted.status != Redelegated then Err(ClaimRedelegate)
    else if !(currentEpoch > persisted.lastClaimEpoch) then Err(ClaimEpoch)
    else if draft.status == None then
      Ok(draft.(status := Pending, lastClaimEpoch := currentEpoch, startingTokenReserve := reserve))
    else Ok(draft)
  }

  // ---------------------------------------------------------------------------
  // Single operations keep the invariant

  lemma WhitelistPreservesValid(s: Storage, contractAddress: Address, totalStaked: nat,
                                delegationContractCap: U64, nrNodes: U64, apy: U64)
    requires Valid(s)
    ensures var r := Whitelist(s, contractAddress, totalStaked, delegationContractCap, nrNodes, apy);
      r.Ok? ==> Valid(r.value)
  {
  }

  lemma ChangeParamsPreservesValid(s: Storage, contractAddress: Address, totalStaked: nat,
                                   delegationContractCap: U64, nrNodes: U64, apy: U64)
    requires Valid(s)
    ensures var r := ChangeParams(s, contractAddress, totalStaked, delegationContractCap, nrNodes, apy);
      r.Ok? ==> Valid(r.value)
  {
  }

  lemma NextContractPreservesValid(s: Storage)
    requires Valid(s)
    ensures NextContract(s).Ok? ==> Valid(NextContract(s).value.0)
  {
  }

  // ---------------------------------------------------------------------------
  // Relations between operations

  /**
   * Changing the parameters is undone by changing them back: the old four fields,
   * supplied again, restore the old storage value exactly.
   */
  lemma ChangeParamsUndo(s: Storage, contractAddress: Address, totalStaked: nat,
                         delegationContractCap: U64, nrNodes: U64, apy: U64)
    requires contractAddress in s.delegationAddress
    ensures
      var d := s.delegationAddress[contractAddress];
      var t := ChangeParams(s, contractAddress, totalStaked, delegationContractCap, nrNodes, apy).value;
      ChangeParams(t, contractAddress, d.totalStaked, d.delegationContractCap, d.nrNodes, d.apy) == Ok(s)
  {
    var d := s.delegationAddress[contractAddress];
    var t := ChangeParams(s, contractAddress, totalStaked, delegationContractCap, nrNodes, apy).value;
    var u := ChangeParams(t, contractAddress, d.totalStaked, d.delegationContractCap, d.nrNodes, d.apy).value;
    assert u.delegationAddress == s.delegationAddress;
  }

  /** Of two parameter changes in a row, only the second is visible. */
  lemma ChangeParamsLastWins(s: Storage, contractAddress: Address,
                             totalStaked1: nat, cap1: U64, nrNodes1: U64, apy1: U64,
                             totalStaked2: nat, cap2: U64, nrNodes2: U64, apy2: U64)
    requires contractAddress in s.delegationAddress
    ensures
      var t := ChangeParams(s, contractAddress, totalStaked1, cap1, nrNodes1, apy1).value;
      ChangeParams(t, contractAddress, totalStaked2, cap2, nrNodes2, apy2)
        == ChangeParams(s, contractAddress, totalStaked2, cap2, nrNodes2, apy2)
  {
    var t := ChangeParams(s, contractAddress, totalStaked1, cap1, nrNodes1, apy1).value;
    var u := ChangeParams(t, contractAddress, totalStaked2, cap2, nrNodes2, apy2).value;
    var w := ChangeParams(s, contractAddress, totalStaked2, cap2, nrNodes2, apy2).value;
    assert u.delegationAddress == w.delegationAddress;
  }

  /**
   * A successful claim start that the caller persists closes the door: while that status
   * is stored, no further cycle can start, whatever the draft, epoch or reserve.
   */
  lemma StartedCycleBlocksRestart(persisted: ClaimStatus, reserve: nat, draft: ClaimStatus,
                                  currentEpoch: U64, reserve': nat, draft': ClaimStatus,
                                  currentEpoch': U64)
    requires ClaimGate(persisted, reserve, draft, currentEpoch).Ok?
    ensures ClaimGate(ClaimGate(persisted, reserve, draft, currentEpoch).value,
                      reserve', draft', currentEpoch').Err?
  {
  }

  /**
   * The gate is idempotent on its own output: passing the upgraded draft again, with the
   * same persisted status and epoch, returns it unchanged, whatever the reserve is then.
   */
  lemma ClaimGateIdempotent(persisted: ClaimStatus, reserve: nat, draft: ClaimStatus,
                            currentEpoch: U64, reserve': nat)
    requires ClaimGate(persisted, reserve, draft, currentEpoch).Ok?
    ensures var d := ClaimGate(persisted, reserve, draft, currentEpoch).value;
      ClaimGate(persisted, reserve', d, currentEpoch) == Ok(d)
  {
  }

  // ---------------------------------------------------------------------------
  // Round robin over the addresses

  /** The storage value and the addresses returned after `k` consecutive next-contract calls. */
  function PickMany(s: Storage, k: nat): (r: (Storage, seq<Address>))
    requires |s.delegationAddressesList| > 0
    ensures |r.1| == k
    decreases k
  {
    if k == 0 then (s, [])
    else
      var (t, addr) := NextContract(s).value;
      var (u, rest) := PickMany(t, k - 1);
      (u, [addr] + rest)
  }

  /** Call `i` of `k` consecutive calls returns the list element at the `i`-th cursor value. */
  lemma {:induction false} PickManyAt(s: Storage, k: nat, i: nat)
    requires |s.delegationAddressesList| > 0 && i < k
    ensures var v := Visits(s.delegationAddressesLastIndex, |s.delegationAddressesList|, k);
      1 <= v[i] <= |s.delegationAddressesList| &&
      PickMany(s, k).1[i] == s.delegationAddressesList[v[i] - 1]
    decreases k
  {
    var n := |s.delegationAddressesList|;
    var (t, addr) := NextContract(s).value;
    var next := NextIndex(s.delegationAddressesLastIndex, n);
    assert t.delegationAddressesLastIndex == next;
    if i > 0 {
      PickManyAt(t, k - 1, i - 1);
      assert PickMany(s, k).1[i] == PickMany(t, k - 1).1[i - 1];
      assert Visits(s.delegationAddressesLastIndex, n, k)[i] == Visits(next, n, k - 1)[i - 1];
    }
  }

  /** All `k` calls at once: each returned address is the one its cursor value designates. */
  lemma PickManyFollowsVisits(s: Storage, k: nat)
    requires |s.delegationAddressesList| > 0
    ensures var v := Visits(s.delegationAddressesLastIndex, |s.delegationAddressesList|, k);
      forall i :: 0 <= i < k ==>
        1 <= v[i] <= |s.delegationAddressesList| &&
        PickMany(s, k).1[i] == s.delegationAddressesList[v[i] - 1]
  {
    forall i | 0 <= i < k
      ensures var v := Visits(s.delegationAddressesLastIndex, |s.delegationAddressesList|, k);
        1 <= v[i] <= |s.delegationAddressesList| &&
        PickMany(s, k).1[i] == s.delegationAddressesList[v[i] - 1]
    {
      PickManyAt(s, k, i);
    }
  }

  /**
   * Address-level round-robin coverage: with `n` whitelisted contracts, `n` consecutive
   * next-contract calls return every whitelisted address exactly once (each listed
   * address occurs, none twice), and call `n + 1` returns the first of them again.
   */
  lemma RoundRobinAddresses(s: Storage)
    requires Valid(s) && |s.delegationAddressesList| > 0
    ensures var xs, n := s.delegationAddressesList, |s.delegationAddressesList|;
      var o := Offset(s.delegationAddressesLastIndex, n);
      PickMany(s, n).1 == xs[o..] + xs[..o]
    ensures var n := |s.delegationAddressesList|;
      var picks := PickMany(s, n).1;
      && NoDuplicates(picks)
      && (forall a :: a in s.delegationAddressesList <==> a in picks)
      && PickMany(s, n + 1).1 == picks + [picks[0]]
  {
    var xs := s.delegationAddressesList;
    var n, c := |xs|, s.delegationAddressesLastIndex;
    RoundRobinCoverage(c, n);
    PickManyFollowsVisits(s, n);
    PicksDistinct(xs, Visits(c, n, n), PickMany(s, n).1);
    PicksCover(xs, Visits(c, n, n), PickMany(s, n).1);
    PickManyRepeats(s);
    PickManyRotation(s);
  }

  /**
   * Insertion order: `n` consecutive calls return the whole list rotated so that it
   * starts just after the cursor's effective offset.
   */
  lemma {:induction false} PickManyRotation(s: Storage)
    requires |s.delegationAddressesList| > 0
    ensures var xs, n := s.delegationAddressesList, |s.delegationAddressesList|;
      var o := Offset(s.delegationAddressesLastIndex, n);
      PickMany(s, n).1 == xs[o..] + xs[..o]
  {
    var xs := s.delegationAddressesList;
    var n, c := |xs|, s.delegationAddressesLastIndex;
    var o := Offset(c, n);
    var picks, rotated := PickMany(s, n).1, xs[o..] + xs[..o];
    forall i | 0 <= i < n ensures picks[i] == rotated[i] {
      PickManyAt(s, n, i);
      VisitsAt(c, n, n, i);
      if o + i < n {
        assert rotated[i] == xs[o + i];
      } else {
        assert rotated[i] == xs[o + i - n];
      }
    }
  }

  /** One call more extends the sequence of returned addresses by one element. */
  lemma {:induction false} PickManyExtend(s: Storage, k: nat)
    requires |s.delegationAddressesList| > 0
    ensures PickMany(s, k + 1).1[..k] == PickMany(s, k).1
    decreases k
  {
    if k > 0 {
      var (t, addr) := NextContract(s).value;
      PickManyExtend(t, k - 1);
      assert PickMany(s, k + 1).1[..k] == [addr] + PickMany(t, k).1[..k - 1];
    }
  }

  /** Call `n + 1` repeats call 1, after the same `n` calls. */
  lemma PickManyRepeats(s: Storage)
    requires |s.delegationAddressesList| > 0
    ensures var n := |s.delegationAddressesList|;
      PickMany(s, n + 1).1 == PickMany(s, n).1 + [PickMany(s, n).1[0]]
  {
    var n, c := |s.delegationAddressesList|, s.delegationAddressesLastIndex;
    var xs := s.delegationAddressesList;
    var w, picks := PickMany(s, n + 1).1, PickMany(s, n).1;
    var v := Visits(c, n, n + 1);
    assert v[n] == v[0] by {
      VisitsAt(c, n, n + 1, n);
      VisitsAt(c, n, n + 1, 0);
    }
    assert 1 <= v[n] <= n && w[n] == xs[v[n] - 1] by {
      PickManyAt(s, n + 1, n);
    }
    assert 1 <= v[0] <= n && w[0] == xs[v[0] - 1] by {
      PickManyAt(s, n + 1, 0);
    }
    assert w[..n] == picks by {
      PickManyExtend(s, n);
    }
    assert w == picks + [picks[0]] by {
      assert w == w[..n] + [w[n]];
    }
  }

  /** Distinct positions into a duplicate-free list designate distinct addresses. */
  lemma PicksDistinct(xs: seq<Address>, v: seq<nat>, picks: seq<Address>)
    requires NoDuplicates(xs) && |v| == |picks|
    requires forall i :: 0 <= i < |v| ==> 1 <= v[i] <= |xs| && picks[i] == xs[v[i] - 1]
    requires forall i, j :: 0 <= i < j < |v| ==> v[i] != v[j]
    ensures NoDuplicates(picks)
  {
  }

  /** Positions covering 1..|xs| designate every element of `xs`, and nothing else. */
  lemma PicksCover(xs: seq<Address>, v: seq<nat>, picks: seq<Address>)
    requires |v| == |picks|
    requires forall i :: 0 <= i < |v| ==> 1 <= v[i] <= |xs| && picks[i] == xs[v[i] - 1]
    requires forall p :: 1 <= p <= |xs| ==> p in v
    ensures forall a :: a in xs <==> a in picks
  {
    forall a | a in xs ensures a in picks {
      var j :| 0 <= j < |xs| && xs[j] == a;
      assert j + 1 in v;
      var i :| 0 <= i < |v| && v[i] == j + 1;
      assert picks[i] == a;
    }
    forall a | a in picks ensures a in xs {
      var i :| 0 <= i < |picks| && picks[i] == a;
      assert xs[v[i] - 1] == a;
    }
  }

  // ---------------------------------------------------------------------------
  // Any sequence of the module's operations

  /** One call of the module's storage-changing operations. */
  datatype Op =
    | WhitelistOp(addr: Address, totalStaked: nat, cap: U64, nrNodes: U64, apy: U64)
    | ChangeParamsOp(addr: Address, totalStaked: nat, cap: U64, nrNodes: U64, apy: U64)
    | NextContractOp

  /** The storage value after one call; a call that fails reverts. */
  function Step(s: Storage, op: Op): Storage {
    match op
    case WhitelistOp(a, ts, cap, nodes, apy) =>
      var r := Whitelist(s, a, ts, cap, nodes, apy);
      if r.Ok? then r.value else s
    case ChangeParamsOp(a, ts, cap, nodes, apy) =>
      var r := ChangeParams(s, a, ts, cap, nodes, apy);
      if r.Ok? then r.value else s
    case NextContractOp =>
      var r := NextContract(s);
      if r.Ok? then r.value.0 else s
  }

  function Run(s: Storage, ops: seq<Op>): Storage
    decreases |ops|
  {
    if ops == [] then s else Run(Step(s, ops[0]), ops[1..])
  }

  /** The invariant (no duplicates, records exactly for listed addresses) holds forever. */
  lemma {:induction false} RunPreservesValid(s: Storage, ops: seq<Op>)
    requires Valid(s)
    ensures Valid(Run(s, ops))
    decreases |ops|
  {
    if ops != [] {
      match ops[0] {
        case WhitelistOp(a, ts, cap, nodes, apy) => WhitelistPreservesValid(s, a, ts, cap, nodes, apy);
        case ChangeParamsOp(a, ts, cap, nodes, apy) => ChangeParamsPreservesValid(s, a, ts, cap, nodes, apy);
        case NextContractOp => NextContractPreservesValid(s);
      }
      RunPreservesValid(Step(s, ops[0]), ops[1..]);
    }
  }

  /**
   * Nothing is ever removed or reordered, and the pool counters belong to the rest of the
   * contract: over any sequence of these operations the list only grows at its end, every
   * record stays, its two pool counters keep their values, and the claim status is
   * never written.
   */
  lemma {:induction false} RunAppendOnly(s: Storage, ops: seq<Op>)
    ensures var t := Run(s, ops);
      && s.delegationAddressesList <= t.delegationAddressesList
      && t.delegationClaimStatus == s.delegationClaimStatus
      && (forall a :: a in s.delegationAddress ==>
            && a in t.delegationAddress
            && t.delegationAddress[a].totalStakedFromLsContract
                 == s.delegationAddress[a].totalStakedFromLsContract
            && t.delegationAddress[a].totalUndelegatedFromLsContract
                 == s.delegationAddress[a].totalUndelegatedFromLsContract)
    decreases |ops|
  {
    if ops != [] {
      var s1 := Step(s, ops[0]);
      assert s.delegationAddressesList <= s1.delegationAddressesList;
      RunAppendOnly(s1, ops[1..]);
    }
  }
}
