# Delegation registry and claim gate of the liquid-staking contract

This project models the delegation module of the liquid-staking smart contract
(`liquid-staking/src/delegation.rs`). The module keeps four pieces of storage:

- `delegation_address`: a record per whitelisted delegation contract. Each record holds
  the parameters set by the owner and two pool counters.
- `delegation_addresses_list`: the whitelisted addresses in insertion order. It is append-only
  and read 1-based.
- `delegation_addresses_last_index`: a round-robin cursor into that list.
- `delegation_claim_status`: the singleton status of the reward-claim cycle.

Four operations act on this storage:

- whitelisting a contract is an insert that rejects duplicates;
- changing a contract's parameters is an update that carries both pool counters forward;
- picking the next contract is a round-robin step that wraps to 1;
- the claim gate checks a caller-held draft against the persisted status and the epoch, then
  upgrades an unstarted draft to `Pending` with a snapshot of the virtual EGLD reserve.

Layout:

- `round_robin.dfy` (module `RoundRobin`): the cursor rule. It gives a closed form for the
  positions returned by consecutive calls and proves the coverage property.
- `delegation.dfy` (module `Delegation`): the value types, the error constants and the
  abstract value `Storage` of the four mappers. It has one pure rule per operation, each
  returning the outcome and the new storage value, plus the storage invariant and the lemmas
  that relate operations to each other, including any sequence of operations (`Run`).
- `delegation_module.dfy` (module `DelegationContract`): class `DelegationModule`. The four
  mappers and the configuration's virtual reserve are fields. The endpoints are methods
  that update those fields in place, and each method is proved against its rule in
  `Delegation`.

A failed `require!` aborts the whole transaction. So every error result comes with the
storage value unchanged.

Two edge cases of the code:

- The claim gate accepts only a persisted status of exactly `Redelegated`
  (`delegation.rs:134-137`), so the default `None` is rejected. `DefaultClaimStatus`
  states this.
- On an empty list, `get(1)` aborts. The model returns `IndexOutOfRange` with storage
  unchanged.

## Model

| member | source | states |
|---|---|---|
| RoundRobin.NextIndex | liquid-staking/src/delegation.rs:112-117 | the new cursor is 1 when the old one is at or past the list length, otherwise one more; it always lies in 1..len for a non-empty list |
| RoundRobin.VisitsAt | liquid-staking/src/delegation.rs:109-121 | call i of up to len+1 consecutive calls returns the i-th position after the cursor's effective offset, counted cyclically (independent closed form) |
| RoundRobin.RoundRobinCoverage | liquid-staking/src/delegation.rs:109-121 | from any stored cursor, len consecutive calls return every position 1..len, none twice, and call len+1 returns the first position again |
| Delegation.DefaultClaimStatus | liquid-staking/src/delegation.rs:25-34 | the default status is `None` with iteration 1; stored as the persisted status it makes every claim-gate call fail, whatever the draft, epoch or reserve |
| Delegation.Initial | liquid-staking/src/delegation.rs:150-167 | empty storage with the default claim status satisfies the storage invariant |
| Delegation.Whitelist | liquid-staking/src/delegation.rs:50-75 | fails with AlreadyWhitelisted exactly when the address has a record; otherwise it stores the four given fields with both pool counters 0, appends the address as the new last list element, keeps earlier entries, other records, the cursor and the claim status |
| Delegation.ChangeParams | liquid-staking/src/delegation.rs:79-105 | fails with NotWhitelisted exactly when the address has no record; otherwise it replaces exactly the four supplied fields, keeps both pool counters, and leaves the key set, other records, the list, the cursor and the claim status unchanged |
| Delegation.NextContract | liquid-staking/src/delegation.rs:109-121 | fails with IndexOutOfRange exactly on an empty list; otherwise only the cursor moves, it moves to a position in 1..len, and the address returned is the list element at that 1-based position |
| Delegation.ClaimGate | liquid-staking/src/delegation.rs:123-148 | ordered failures: ClaimStart unless the draft is None or Pending, then ClaimRedelegate unless the persisted status is Redelegated, then ClaimEpoch unless the epoch exceeds the persisted last claim epoch; succeeds exactly when all three hold; a None draft becomes Pending with the current epoch and the reserve, iteration kept; a Pending draft comes back unchanged |
| Delegation.WhitelistPreservesValid | liquid-staking/src/delegation.rs:58-74 | a successful whitelist keeps the list duplicate-free, keeps records exactly for the listed addresses, and keeps the cursor within the list |
| Delegation.ChangeParamsPreservesValid | liquid-staking/src/delegation.rs:87-104 | a successful parameter change keeps the storage invariant |
| Delegation.NextContractPreservesValid | liquid-staking/src/delegation.rs:109-121 | a successful next-contract step keeps the cursor within 1..len and the rest of the invariant |
| Delegation.ChangeParamsUndo | liquid-staking/src/delegation.rs:92-104 | changing the parameters and then supplying the old four values again restores the exact previous storage |
| Delegation.ChangeParamsLastWins | liquid-staking/src/delegation.rs:92-104 | two parameter changes in a row give the same storage as the second one alone |
| Delegation.StartedCycleBlocksRestart | liquid-staking/src/delegation.rs:134-147 | once a status produced by a successful gate call is persisted, no gate call succeeds, for any draft, epoch or reserve |
| Delegation.ClaimGateIdempotent | liquid-staking/src/delegation.rs:143-147 | feeding the gate's own result back with the same persisted status and epoch returns it unchanged, even when the reserve has changed |
| Delegation.PickManyAt | liquid-staking/src/delegation.rs:109-121 | the i-th of k consecutive next-contract calls returns the list element at the i-th cursor value |
| Delegation.PickManyExtend | liquid-staking/src/delegation.rs:109-121 | the first k of k+1 consecutive calls return the same addresses as k calls |
| Delegation.PickManyRepeats | liquid-staking/src/delegation.rs:109-121 | with n listed contracts, call n+1 returns the same address as call 1 |
| Delegation.RoundRobinAddresses | liquid-staking/src/delegation.rs:109-121 | n consecutive calls return the list rotated to start just after the cursor, i.e. in insertion order wrapping once; under the storage invariant each whitelisted address is returned exactly once (all listed addresses occur, none twice, nothing else), and call n+1 repeats the first |
| Delegation.PickManyRotation | liquid-staking/src/delegation.rs:109-121 | n consecutive calls return `xs[o..] + xs[..o]`, where `o` is the cursor's effective offset: the list in insertion order, starting after the cursor |
| Delegation.RunPreservesValid | liquid-staking/src/delegation.rs:58-121 | after any sequence of whitelist, parameter-change and next-contract calls, failed ones reverted, the list has no duplicates, an address has a record exactly when it is listed, and the cursor lies in 0..len |
| Delegation.RunAppendOnly | liquid-staking/src/delegation.rs:58-121 | over any such sequence, the old list is a prefix of the new one, every record stays with both pool counters unchanged, and the claim status is never written |
| DelegationContract.DelegationModule.constructor | liquid-staking/src/delegation.rs:150-167 | the four mappers start empty, with cursor 0 and the default claim status, and satisfy the invariant |
| DelegationContract.DelegationModule.WhitelistDelegationContract | liquid-staking/src/delegation.rs:48-75 | updates the fields in place exactly as `Whitelist` says and returns its error on failure with storage unchanged; keeps the invariant and the reserve |
| DelegationContract.DelegationModule.ChangeDelegationContractParams | liquid-staking/src/delegation.rs:77-105 | updates the record in place exactly as `ChangeParams` says and returns its error on failure with storage unchanged; keeps the invariant and the reserve |
| DelegationContract.DelegationModule.GetNextDelegationContract | liquid-staking/src/delegation.rs:107-121 | changes only the cursor field, exactly as `NextContract` says, and returns its address; on an empty list it returns IndexOutOfRange with the cursor unchanged |
| DelegationContract.DelegationModule.CanProceedClaimOperation | liquid-staking/src/delegation.rs:123-148 | its result is the `ClaimGate` rule applied to the persisted claim status, the current virtual reserve, the draft and the epoch; it has no modifies clause, so the persisted status is only read |

## Left out

- Access control and endpoint plumbing are not modelled. This covers the `#[only_owner]` check and the `#[endpoint]`, `#[view]` and `#[storage_mapper]` attributes. The view getters are the class fields themselves.
- Storage encoding (the `NestedEncode`/`TopEncode`/`TypeAbi` derives and the storage keys) is not modelled. A mapper is a plain field. `is_empty()` on `delegation_address` is map membership; an encoded record is never empty, so that matches.
- `virtual_egld_reserve` belongs to the configuration module, which is not part of this model. It is the field `virtualEgldReserve`, only read here; `ClaimGate` takes it as a parameter.
- The error constants of `crate::errors` are not part of this model. They are the constructors of `Error`, without their message texts.
- The contract's `init` is not part of this model. `Initial` and the constructor assume the claim-status mapper holds `ClaimStatus::default()` at the start.
- The flows that move the persisted status to `Finished` or `Redelegated` or persist the draft are not modelled: `claimRewards`, `delegateRewards`, their asynchronous calls and callbacks. They are outside this module. `StartedCycleBlocksRestart` covers only the case where the caller persists the gate's result.
- CanProceedClaimOperation: the source upgrades the caller's `&mut` draft in place. The model takes the draft by value and returns the upgraded draft. After an error the draft is not returned, since the transaction aborts.
- GetNextDelegationContract: the source stores the cursor before the list read that can abort. The model checks the read first. The aborted transaction restores the cursor, so the outcome is the same.
- `delegationAddressesLastIndex` is a `nat`, not a `usize`. The invariant bounds it by the list length. The `usize` bound on the list length itself (`VecMapper` length) is not modelled.
- `liquid-staking/wasm/src/lib.rs` is not modelled. It is a generated list of endpoint names with no logic.
