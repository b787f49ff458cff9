/**
 * The delegation module as the contract runs it (liquid-staking/src/delegation.rs,
 * trait `DelegationModule`): the four storage mappers are fields that the endpoints
 * update in place, and each method is proved against the matching rule of `Delegation`.
 */
module DelegationContract {
  import opened RoundRobin
  import opened Delegation

  class DelegationModule {
    /** `delegation_address`: one record per whitelisted address. */
    var delegationAddress: map<Address, DelegationContractData>
    /** `delegation_addresses_list` (a `VecMapper`, read 1-based). */
    var delegationAddressesList: seq<Address>
    /** `delegation_addresses_last_index`: the round-robin cursor. */
    var delegationAddressesLastIndex: nat
    /** `delegation_claim_status`: the persisted claim status. */
    var delegationClaimStatus: ClaimStatus
    /** `virtual_egld_reserve` of the configuration module; only read here. */
    var virtualEgldReserve: nat

    /** The abstract value of the four storage mappers. */
    ghost function State(): Storage
      reads this
    {
      Storage(delegationAddress, delegationAddressesList, delegationAddressesLastIndex,
              delegationClaimStatus)
    }

    ghost predicate Valid()
      reads this
    {
      Delegation.Valid(State())
    }

    /** Fresh storage, with the claim status holding its default. */
    constructor (virtualEgldReserve: nat)
      ensures Valid()
      ensures State() == Initial() && this.virtualEgldReserve == virtualEgldReserve
    {
      delegationAddress := map[];
      delegationAddressesList := [];
      delegationAddressesLastIndex := 0;
      delegationClaimStatus := DefaultClaimStatus();
      this.virtualEgldReserve := virtualEgldReserve;
    }

    /** Endpoint `whitelistDelegationContract`. */
    method WhitelistDelegationContract(contractAddress: Address, totalStaked: nat,
                                       delegationContractCap: U64, nrNodes: U64, apy: U64)
      returns (r: Result<()>)
      requires Valid()
      modifies this
      ensures Valid() && virtualEgldReserve == old(virtualEgldReserve)
      ensures match Whitelist(old(State()), contractAddress, totalStaked,
                              delegationContractCap, nrNodes, apy)
        case Ok(t) => r == Ok(()) && State() == t
        case Err(e) => r == Err(e) && State() == old(State())
    {
      ghost var s := State();
      WhitelistPreservesValid(s, contractAddress, totalStaked, delegationContractCap, nrNodes, apy);
      if contractAddress in delegationAddress {
        return Err(AlreadyWhitelisted);
      }
      var contractData := DelegationContractData(
        totalStaked, delegationContractCap, nrNodes, apy, 0, 0);
      delegationAddress := delegationAddress[contractAddress := contractData];
      delegationAddressesList := delegationAddressesList + [contractAddress];
      r := Ok(());
    }

    /** Endpoint `changeDelegationContractParams`. */
    method ChangeDelegationContractParams(contractAddress: Address, totalStaked: nat,
                                          delegationContractCap: U64, nrNodes: U64, apy: U64)
      returns (r: Result<()>)
      requires Valid()
      modifies this
      ensures Valid() && virtualEgldReserve == old(virtualEgldReserve)
      ensures match ChangeParams(old(State()), contractAddress, totalStaked,
                                 delegationContractCap, nrNodes, apy)
        case Ok(t) => r == Ok(()) && State() == t
        case Err(e) => r == Err(e) && State() == old(State())
    {
      ghost var s := State();
      ChangeParamsPreservesValid(s, contractAddress, totalStaked, delegationContractCap, nrNodes, apy);
      if contractAddress !in delegationAddress {
        return Err(NotWhitelisted);
      }
      var oldContractData := delegationAddress[contractAddress];
      var newContractData := DelegationContractData(
        totalStaked, delegationContractCap, nrNodes, apy,
        oldContractData.totalStakedFromLsContract,
        oldContractData.totalUndelegatedFromLsContract);
      delegationAddress := delegationAddress[contractAddress := newContractData];
      r := Ok(());
    }

    /**
     * Round-robin choice of the next delegation contract. The source stores the new
     * cursor and then reads the list at it; on an empty list that read aborts the
     * transaction, undoing the store, so here the read is checked before the store.
     */
    method GetNextDelegationContract() returns (r: Result<Address>)
      requires Valid()
      modifies this`delegationAddressesLastIndex
      ensures Valid()
      ensures match NextContract(old(State()))
        case Ok((t, addr)) => r == Ok(addr) && State() == t
        case Err(e) => r == Err(e) && State() == old(State())
    {
      ghost var s := State();
      NextContractPreservesValid(s);
      var lastIndex := delegationAddressesLastIndex;
      var newIndex := NextIndex(lastIndex, |delegationAddressesList|);
      if newIndex > |delegationAddressesList| {
        return Err(IndexOutOfRange);
      }
      delegationAddressesLastIndex := newIndex;
      r := Ok(delegationAddressesList[newIndex - 1]);
    }

    /**
     * `can_proceed_claim_operation`. The source upgrades the caller's `&mut` draft in
     * place; here the draft comes in by value and the upgraded draft is returned. The
     * persisted claim status is only read.
     */
    method CanProceedClaimOperation(newClaimStatus: ClaimStatus, currentEpoch: U64)
      returns (r: Result<ClaimStatus>)
      ensures r == ClaimGate(delegationClaimStatus, virtualEgldReserve, newClaimStatus, currentEpoch)
    {
      var oldClaimStatus := delegationClaimStatus;
      if !(newClaimStatus.status == None || newClaimStatus.status == Pending) {
        return Err(ClaimStart);
      }
      if oldClaimStatus.status != Redelegated {
        return Err(ClaimRedelegate);
      }
      if !(currentEpoch > oldClaimStatus.lastClaimEpoch) {
        return Err(ClaimEpoch);
      }
      var draft := newClaimStatus;
      if draft.status == None {
        draft := draft.(status := Pending);
        draft := draft.(lastClaimEpoch := currentEpoch);
        draft := draft.(startingTokenReserve := virtualEgldReserve);
      }
      r := Ok(draft);
    }
  }
}
