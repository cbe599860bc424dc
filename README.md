# Proposal pallet, modelled in Dafny

The proposal pallet (`pallets/proposal/src/lib.rs`) runs a treasury governed by one community.

- **Members.** Anyone may add an account to the community. Root promotes community members to the committee.
- **Proposals.** A community member registers a proposal: a title and an amount, under a caller-chosen hash. That member becomes the proposal's fund seeker.
- **Votes.** Each committee member votes once per proposal, aye or nay. Every vote schedules an evaluation of the proposal `TimeDuration` blocks after the current block.
- **Evaluation.** When a block starts, `on_initialize` runs `transfer_funds` for the proposal scheduled at that block, if there is one. That call pays the amount from the pot account to the fund seeker only if the number of ayes equals the current committee size. Otherwise it declines.
- **Pot.** Root sets the pot account. Any signed origin may move funds from a community member to the pot.

The model is a class, `ProposalPallet.Pallet`:

- one field per storage item: `TransferTime`, `FundSeekerAccounts`, `CommunityMembers`, `CommitteeMembers`, `Voting`, `Proposal`, `Approvers` and `PotAccount`;
- the current block number;
- the free balances held by the currency;
- the deposited events.

Each extrinsic, `transfer_funds` and `on_initialize` is a method. Each method states:

- its result, with the errors in the order the code tests them;
- the new value of every field it writes;
- that a failure, or a panic on an empty list, leaves the storage untouched.

Each method preserves the storage invariant `Valid()`:

- **Member lists.** Both lists are strictly ascending, and the committee is a subset of the community.
- **Proposal maps.** `Proposal`, `Voting` and `FundSeekerAccounts` share one key set. `Approvers` has entries only for existing proposals.
- **Fund seekers.** Each fund-seeker list is a single community member.
- **Tallies.** Each approver list is strictly ascending. It holds exactly the accounts in `ayes` and `nays`, which are disjoint and free of repeats. Every approver is a committee member.
- **Schedule.** Every scheduled block names an existing proposal.

The `binary_search` then `insert(location, …)` pattern is one verified loop, `SortedSeq.SortedInsert`, used by every caller. The unanimity test is shown to mean "every current committee member voted aye".

Modules:

- `sorted.dfy` (`SortedSeq`): strictly ascending lists, binary search and ordered insertion.
- `currency.dfy` (`Currency`): stands in for `T::Currency`.
- `governance.dfy` (`Governance`):
  - the `Vote`, `Votes` and `ProposalInfo` types;
  - the vote update;
  - the tally invariant;
  - the decision `transfer_funds` makes.
- `pallet.dfy` (`ProposalPallet`): the pallet.
- `scenario.dfy` (`ProposalScenario`): client walks that drive the pallet only through its contracts.

Behaviour kept as written:

- `add_community_member` inserts its `who` argument; the origin only has to be signed.
- `fund_pot_account` debits its `who` argument, not the signer.
- `add_proposal` tests freshness against `Voting`. Under `Valid()` this is the same as testing `Proposal`.
- `add_proposal` does not write `Approvers`. `Approvers` is a `ValueQuery`, so a missing key reads as the empty list (`ProposalPallet.Lookup`), and the empty approver list of a new proposal comes from that default. Some descriptions of the pallet say that registration initialises the approver set; the code does not.
- `approve_proposal` writes `TransferTime[blockNumber + TimeDuration] := h`. This overwrites whatever proposal was scheduled at that block, and leaves the proposal's earlier entries in place.
- The `[0]` reads of `PotAccount` (lines 344 and 369) are the outcome `Panic` when the pot was never set. In `transfer_funds` they come before the unanimity test, so even a declined proposal panics without a pot. The read of `FundSeekerAccounts[h][0]` (line 366) is proved in bounds under `Valid()`.

## Model

| member | source | states |
|---|---|---|
| SortedSeq.SortedPairwise | pallets/proposal/src/lib.rs:87-92 | Order between neighbours gives order between any two positions of a member list. |
| SortedSeq.BinarySearch | pallets/proposal/src/lib.rs:182-183 | Finds `x` exactly when it is in the ascending list, and returns its index. Otherwise it returns the insertion point: the number of elements smaller than `x`. |
| SortedSeq.InsertionPointUnique | pallets/proposal/src/lib.rs:182-183 | In a strictly ascending list, the insertion point is the only index with smaller elements before it and larger ones from it on. |
| SortedSeq.InsertAtInsertionPoint | pallets/proposal/src/lib.rs:186 | `insert(location, x)` at the insertion point equals ordered insertion `Insert`. |
| SortedSeq.SortedInsert | pallets/proposal/src/lib.rs:180-186 | The search finds `x` and the list is left alone (the `AlreadyMember…` case), or it reports absence and the result is `Insert(s, x)`. |
| SortedSeq.InsertKeepsOrder | pallets/proposal/src/lib.rs:186 | Inserting an absent account keeps the list strictly ascending. It adds exactly that account, as a multiset, and grows the length by one. |
| SortedSeq.SortedByElems | pallets/proposal/src/lib.rs:87-92 | Two strictly ascending lists with the same members are equal, so each member list is determined by its set. |
| SortedSeq.SortedDistinct | pallets/proposal/src/lib.rs:87-92 | A strictly ascending member list has no duplicates. |
| SortedSeq.DistinctCard | pallets/proposal/src/lib.rs:359-372 | A list without repeats has as many entries as distinct elements. This is what makes the count comparison of `transfer_funds` a comparison of sets. |
| Currency.Transfer | pallets/proposal/src/lib.rs:345 | A KeepAlive transfer is refused exactly when the source cannot pay the amount and stay at or above the existential deposit, or the destination would end below it. Refusals come in this order: insufficient balance, destination below the deposit, source below the deposit. A successful transfer to another account moves exactly the amount, and nobody else's balance changes. |
| Governance.RecordVoteKeepsTally | pallets/proposal/src/lib.rs:280-295 | A committee member who has not voted is pushed onto `ayes` or `nays`, and inserted into the approvers. The tally stays consistent, the chosen list ends with the voter, and the other list is unchanged. |
| Governance.GrowCommitteeKeepsTally | pallets/proposal/src/lib.rs:207-214 | A larger committee keeps a consistent tally consistent. |
| Governance.UnanimousIffEveryMemberAye | pallets/proposal/src/lib.rs:359-372 | Under a consistent tally, `ayes.len() == committee.len()` holds exactly when every current committee member voted aye. Then nobody voted nay, and the aye count never exceeds the committee size. |
| Governance.Settle | pallets/proposal/src/lib.rs:372-383 | The transfer is attempted exactly under unanimity. A failed transfer returns the currency's error. A payment moves the amount from the pot to the fund seeker. |
| ProposalPallet.CommunityGrowthKeepsSeekers | pallets/proposal/src/lib.rs:186-188 | Growing the community keeps every fund seeker a community member. |
| ProposalPallet.CommitteeGrowthKeepsTallies | pallets/proposal/src/lib.rs:211-214 | Growing the committee keeps every proposal's tally consistent. |
| ProposalPallet.NewProposalKeepsInvariant | pallets/proposal/src/lib.rs:240-251 | Registering a fresh hash with an empty tally and a singleton fund seeker keeps the three key sets equal and every proposal invariant. The new proposal's approvers read as empty. |
| ProposalPallet.VoteKeepsInvariant | pallets/proposal/src/lib.rs:280-302 | Recording a vote, inserting the voter into `Approvers[h]` and scheduling `h` keeps the key sets, every tally and every scheduled target. |
| ProposalPallet.Pallet.constructor | pallets/proposal/src/lib.rs:73-115 | Genesis has every storage item empty, and the invariant holds. |
| ProposalPallet.Pallet.AddCommunityMember | pallets/proposal/src/lib.rs:176-192 | Unsigned origins give `BadOrigin`; an account already present gives `AlreadyMemberOfCommunity`, with nothing changed. Otherwise `CommunityMembers` becomes the ordered insertion of `who` and `MemberAdded` is deposited. |
| ProposalPallet.Pallet.AddCommitteeMember | pallets/proposal/src/lib.rs:197-218 | A non-root origin gives `BadOrigin`. Then `MemberIsNotPresentInCommunity` is tested before `AlreadyMemberOfCommittee`. On success the committee becomes the ordered insertion of `who`, stays a subset of the community, and `MemberAddedToCommittee` is deposited. |
| ProposalPallet.Pallet.AddProposal | pallets/proposal/src/lib.rs:223-254 | Errors come in this order: `BadOrigin`, `MemberIsNotPresentInCommunity`, then `ProposalAlreadyExist` when `Voting` has the hash; each leaves storage unchanged. On success it sets `Proposal[h]`, an empty `Voting[h]` and `FundSeekerAccounts[h] = [signer]`, and deposits `ProposalAdded`. |
| ProposalPallet.Pallet.ApproveProposal | pallets/proposal/src/lib.rs:259-317 | Errors come in this order: `BadOrigin`, `MemberIsNotPresentInCommittee`, `AlreadyApproved` (checked against the defaulted `Approvers[h]`), then `ProposalMissing`; a failure changes nothing. On success the vote is recorded, the voter is inserted into the approvers and `TransferTime[block + TimeDuration] := h`. The event carries the new aye and nay counts. |
| ProposalPallet.Pallet.RecordApproval | pallets/proposal/src/lib.rs:280-313 | The writes of a successful vote, stated field by field. They preserve the invariant. |
| ProposalPallet.Pallet.AddPotAccount | pallets/proposal/src/lib.rs:322-328 | Root replaces `PotAccount` with exactly `[who]`; any other origin gives `BadOrigin`. |
| ProposalPallet.Pallet.FundPotAccount | pallets/proposal/src/lib.rs:332-347 | Errors come in this order: `BadOrigin`, `MemberIsNotPresentInCommunity`, then a panic on an empty pot. Otherwise the result is the KeepAlive transfer from `who` to `PotAccount[0]`. |
| ProposalPallet.Pallet.SettlementOf | pallets/proposal/src/lib.rs:354-372 | Under the invariant, a transfer is attempted exactly when every current committee member voted aye, and then nobody voted nay. |
| ProposalPallet.Pallet.TransferFunds | pallets/proposal/src/lib.rs:354-386 | A missing proposal gives `ProposalMissing`, and an empty pot gives a panic; both change nothing. Otherwise, under unanimity, the amount moves from the pot to the fund seeker with `FundTransfer`, or the currency error is returned. Without unanimity, `FundTransferDeclined` is deposited and no balance changes. |
| ProposalPallet.Pallet.OnInitialize | pallets/proposal/src/lib.rs:158-165 | `transfer_funds` runs exactly when block `n` is scheduled; its result is discarded, but a panic is reported. |
| ProposalPallet.Pallet.InitializeBlock | pallets/proposal/src/lib.rs:158-165 | The block number advances by one, then the hook settles the proposal scheduled at the new block, if any. |

## Left out

- `T::Currency` lives outside this repository. `Currency.Transfer` is an abstract KeepAlive transfer on a map of free balances. Reserves, locks, account creation and death, fees and the currency's events are not modelled.
- `ensure_signed` and `ensure_root` are modelled as a guard on the `Origin` datatype (`Signed | Root | None`), with no signature checking.
- FRAME and SCALE machinery has no behaviour here and is not modelled:
  - weights and `Weight::zero()`;
  - storage hashers, getters and the macros;
  - the encoding derives.
- Events are an append-only log field. The runtime's event transport is not modelled.
- The rollback of storage when an extrinsic fails is not modelled separately. Every error is raised before the first write, and each method states that a failure changes nothing.
- Accounts are `int` and hashes `nat`; only their order and equality matter.
- ProposalPallet.Pallet.ApproveProposal: the `as MemberCount` casts of the event counts are not modelled, because counts are unbounded `nat`. Nor is overflow of `block_number() + TimeDuration`.
- ProposalPallet.Pallet.SettlementOf: the comparison of the `u32` casts at line 372 is modelled as a comparison of unbounded lengths. The two differ only with more than 2^32 committee members.
- ProposalPallet.Pallet.InitializeBlock drives the hook as the runtime does at the start of a block. The runtime's block production itself is not modelled.
- The `mock` and `tests` modules and the commented-out benchmarking are not part of this model.
