/** The proposal pallet: a treasury governed by one community. One field per storage item,
    one method per extrinsic, the `on_initialize` hook and `transfer_funds`. */
module ProposalPallet {
  import opened SortedSeq
  import opened Currency
  import opened Governance

  /** `T::Hash`, used only as a key. */
  type Hash = nat
  type BlockNumber = nat

  /** The origin of a call, as `ensure_signed` and `ensure_root` see it. */
  datatype Origin = Signed(account: Account) | Root | None

  datatype DispatchError =
    | BadOrigin
    | AlreadyMemberOfCommunity
    | AlreadyMemberOfCommittee
    | MemberIsNotPresentInCommunity
    | ProposalAlreadyExist
    | MemberIsNotPresentInCommittee
    | AlreadyApproved
    | ProposalMissing
    | CurrencyFailure(reason: CurrencyError)

  /** `Ok(())`, an error returned before any write, or a runtime panic (an out-of-bounds
      index); a panic writes nothing either. */
  datatype Outcome = Ok | Err(error: DispatchError) | Panic

  /** `ProposalReject` and `ProposalApproved` are declared by the pallet but never deposited. */
  datatype Event =
    | MemberAdded
    | MemberAddedToCommittee
    | ProposalReject
    | ProposalApproved
    | ProposalAdded
    | FundTransfer
    | FundTransferDeclined
    | Approved(account: Account, proposalHash: Hash, voted: Vote, ayes: nat, nays: nat)

  /** The result `transfer_funds` returns for a given settlement. */
  function SettlementOutcome(s: Settlement): Outcome {
    match s
    case Paid(_) => Ok
    case Declined => Ok
    case TransferFailed(e) => Err(CurrencyFailure(e))
  }

  /** `Approvers` is a `ValueQuery`: a missing key reads as the empty list. */
  function Lookup(approvers: map<Hash, seq<Account>>, h: Hash): seq<Account> {
    if h in approvers then approvers[h] else []
  }

  /** Both member lists are strictly ascending; every committee member is in the community. */
  ghost predicate MembersOrdered(community: seq<Account>, committee: seq<Account>) {
    && StrictlySorted(community)
    && StrictlySorted(committee)
    && (forall a :: a in committee ==> a in community)
  }

  /** `Proposal`, `Voting` and `FundSeekerAccounts` share one key set; `Approvers` has an entry
      only for a proposal that exists. */
  ghost predicate ProposalsKeyed(voting: map<Hash, Votes>, proposal: map<Hash, ProposalInfo>,
                                 fundSeekers: map<Hash, seq<Account>>, approvers: map<Hash, seq<Account>>) {
    && (forall h :: h in voting <==> h in proposal)
    && (forall h :: h in voting <==> h in fundSeekers)
    && (forall h :: h in approvers ==> h in voting)
  }

  /** Each proposal has exactly one fund seeker, a community member. */
  ghost predicate SeekersAreMembers(fundSeekers: map<Hash, seq<Account>>, community: seq<Account>) {
    forall h :: h in fundSeekers ==> |fundSeekers[h]| == 1 && fundSeekers[h][0] in community
  }

  /** The tally of proposal `h`, if it exists, is consistent with its approver list and the
      committee. */
  ghost predicate TallyHolds(voting: map<Hash, Votes>, approvers: map<Hash, seq<Account>>,
                             committee: seq<Account>, h: Hash) {
    h !in voting || TallyConsistent(Lookup(approvers, h), voting[h], committee)
  }

  /** Every proposal's tally is consistent with its approver list and the committee. Proofs
      name the proposal they need through `TallyHolds`. */
  ghost predicate TalliesConsistent(voting: map<Hash, Votes>, approvers: map<Hash, seq<Account>>,
                                    committee: seq<Account>) {
    forall h :: TallyHolds(voting, approvers, committee, h)
  }

  /** Every scheduled evaluation names an existing proposal. */
  ghost predicate ScheduleTargets(transferTime: map<BlockNumber, Hash>, voting: map<Hash, Votes>) {
    forall n :: n in transferTime ==> transferTime[n] in voting
  }

  lemma CommunityGrowthKeepsSeekers(fundSeekers: map<Hash, seq<Account>>, community: seq<Account>,
                                    larger: seq<Account>)
    requires SeekersAreMembers(fundSeekers, community)
    requires forall a :: a in community ==> a in larger
    ensures SeekersAreMembers(fundSeekers, larger)
  {
    forall h | h in fundSeekers
      ensures |fundSeekers[h]| == 1 && fundSeekers[h][0] in larger
    {
      var a := fundSeekers[h][0];
      assert a in community;
      assert a in larger;
    }
  }

  lemma CommitteeGrowthKeepsTallies(voting: map<Hash, Votes>, approvers: map<Hash, seq<Account>>,
                                    committee: seq<Account>, larger: seq<Account>)
    requires TalliesConsistent(voting, approvers, committee)
    requires forall a :: a in committee ==> a in larger
    ensures TalliesConsistent(voting, approvers, larger)
  {
    forall h
      ensures TallyHolds(voting, approvers, larger, h)
    {
      if h in voting {
        assert TallyHolds(voting, approvers, committee, h);
        GrowCommitteeKeepsTally(Lookup(approvers, h), voting[h], committee, larger);
      }
    }
  }

  /** Registering a fresh proposal with an empty tally keeps every invariant over proposals. */
  lemma NewProposalKeepsInvariant(voting: map<Hash, Votes>, proposal: map<Hash, ProposalInfo>,
                                  fundSeekers: map<Hash, seq<Account>>, approvers: map<Hash, seq<Account>>,
                                  transferTime: map<BlockNumber, Hash>, community: seq<Account>,
                                  committee: seq<Account>, h: Hash, info: ProposalInfo, who: Account)
    requires ProposalsKeyed(voting, proposal, fundSeekers, approvers)
    requires SeekersAreMembers(fundSeekers, community)
    requires TalliesConsistent(voting, approvers, committee)
    requires ScheduleTargets(transferTime, voting)
    requires h !in voting && who in community
    ensures ProposalsKeyed(voting[h := Votes([], [])], proposal[h := info], fundSeekers[h := [who]], approvers)
    ensures SeekersAreMembers(fundSeekers[h := [who]], community)
    ensures TalliesConsistent(voting[h := Votes([], [])], approvers, committee)
    ensures ScheduleTargets(transferTime, voting[h := Votes([], [])])
    ensures Lookup(approvers, h) == []
  {
    var v := voting[h := Votes([], [])];
    forall g
      ensures TallyHolds(v, approvers, committee, g)
    {
      if g != h {
        assert TallyHolds(voting, approvers, committee, g);
      }
    }
  }

  /** A committee member who has not voted on the existing proposal `h` votes: recording the
      vote, inserting the voter into the approver list and arming block `n` for `h` keeps every
      invariant over proposals. */
  lemma VoteKeepsInvariant(voting: map<Hash, Votes>, proposal: map<Hash, ProposalInfo>,
                           fundSeekers: map<Hash, seq<Account>>, approvers: map<Hash, seq<Account>>,
                           transferTime: map<BlockNumber, Hash>, committee: seq<Account>,
                           h: Hash, who: Account, choice: Vote, n: BlockNumber,
                           voting': map<Hash, Votes>, approvers': map<Hash, seq<Account>>,
                           transferTime': map<BlockNumber, Hash>)
    requires ProposalsKeyed(voting, proposal, fundSeekers, approvers)
    requires TalliesConsistent(voting, approvers, committee)
    requires ScheduleTargets(transferTime, voting)
    requires h in voting && who in committee && who !in Lookup(approvers, h)
    requires voting' == voting[h := RecordVote(voting[h], who, choice)]
    requires approvers' == approvers[h := Insert(Lookup(approvers, h), who)]
    requires transferTime' == transferTime[n := h]
    ensures ProposalsKeyed(voting', proposal, fundSeekers, approvers')
    ensures TalliesConsistent(voting', approvers', committee)
    ensures ScheduleTargets(transferTime', voting')
  {
    var old_ := Lookup(approvers, h);
    InsertKeepsOrder(old_, who);
    assert TallyHolds(voting, approvers, committee, h);
    RecordVoteKeepsTally(old_, voting[h], committee, who, choice, Insert(old_, who));
    forall g
      ensures TallyHolds(voting', approvers', committee, g)
    {
      if g != h {
        assert TallyHolds(voting, approvers, committee, g);
        assert g in voting' ==> voting'[g] == voting[g] && Lookup(approvers', g) == Lookup(approvers, g);
      }
    }
  }

  class Pallet {
    /** `T::TimeDuration`: blocks between a vote and the evaluation it schedules. */
    const timeDuration: nat
    /** The currency's existential deposit. */
    const existentialDeposit: Balance

    /** The current block number, set by the runtime before the block's hooks run. */
    var blockNumber: BlockNumber

    var transferTime: map<BlockNumber, Hash>
    var fundSeekerAccounts: map<Hash, seq<Account>>
    var communityMembers: seq<Account>
    var committeeMembers: seq<Account>
    var voting: map<Hash, Votes>
    var proposal: map<Hash, ProposalInfo>
    var approvers: map<Hash, seq<Account>>
    var potAccount: seq<Account>

    /** Free balances held by `T::Currency`. */
    var balances: Balances
    /** Deposited events, oldest first. */
    var events: seq<Event>

    /** The storage invariant every extrinsic and the hook preserve. */
    ghost predicate Valid()
      reads this
    {
      && MembersOrdered(communityMembers, committeeMembers)
      && ProposalsKeyed(voting, proposal, fundSeekerAccounts, approvers)
      && SeekersAreMembers(fundSeekerAccounts, communityMembers)
      && TalliesConsistent(voting, approvers, committeeMembers)
      && ScheduleTargets(transferTime, voting)
    }

    /** Genesis: every storage item empty, block 0. */
    constructor (timeDuration: nat, existentialDeposit: Balance, balances: Balances)
      ensures Valid()
      ensures this.timeDuration == timeDuration && this.existentialDeposit == existentialDeposit
      ensures this.balances == balances && blockNumber == 0 && events == []
      ensures communityMembers == [] && committeeMembers == [] && potAccount == []
      ensures voting == map[] && proposal == map[] && approvers == map[]
      ensures fundSeekerAccounts == map[] && transferTime == map[]
    {
      this.timeDuration := timeDuration;
      this.existentialDeposit := existentialDeposit;
      this.balances := balances;
      blockNumber := 0;
      events := [];
      communityMembers, committeeMembers, potAccount := [], [], [];
      voting, proposal, approvers := map[], map[], map[];
      fundSeekerAccounts, transferTime := map[], map[];
    }

    /** `add_community_member`: any signed origin adds `who` (not the signer). */
    method AddCommunityMember(origin: Origin, who: Account) returns (r: Outcome)
      requires Valid()
      modifies this`communityMembers, this`events
      ensures Valid()
      ensures r == if !origin.Signed? then Err(BadOrigin)
                   else if who in old(communityMembers) then Err(AlreadyMemberOfCommunity)
                   else Ok
      ensures r.Ok? ==> communityMembers == Insert(old(communityMembers), who)
                        && events == old(events) + [MemberAdded]
      ensures !r.Ok? ==> unchanged(this)
    {
      if !origin.Signed? {
        return Err(BadOrigin);
      }
      var present, members := SortedInsert(communityMembers, who);
      if present {
        return Err(AlreadyMemberOfCommunity);
      }
      InsertKeepsOrder(communityMembers, who);
      CommunityGrowthKeepsSeekers(fundSeekerAccounts, communityMembers, members);
      communityMembers := members;
      events := events + [MemberAdded];
      r := Ok;
    }

    /** `add_committee_member`: root adds a community member to the committee. */
    method AddCommitteeMember(origin: Origin, who: Account) returns (r: Outcome)
      requires Valid()
      modifies this`committeeMembers, this`events
      ensures Valid()
      ensures r == if !origin.Root? then Err(BadOrigin)
                   else if who !in communityMembers then Err(MemberIsNotPresentInCommunity)
                   else if who in old(committeeMembers) then Err(AlreadyMemberOfCommittee)
                   else Ok
      ensures r.Ok? ==> committeeMembers == Insert(old(committeeMembers), who)
                        && events == old(events) + [MemberAddedToCommittee]
      ensures !r.Ok? ==> unchanged(this)
    {
      if !origin.Root? {
        return Err(BadOrigin);
      }
      var inCommunity := BinarySearch(communityMembers, who);
      if inCommunity.NotFound? {
        return Err(MemberIsNotPresentInCommunity);
      }
      var present, members := SortedInsert(committeeMembers, who);
      if present {
        return Err(AlreadyMemberOfCommittee);
      }
      InsertKeepsOrder(committeeMembers, who);
      CommitteeGrowthKeepsTallies(voting, approvers, committeeMembers, members);
      committeeMembers := members;
      events := events + [MemberAddedToCommittee];
      r := Ok;
    }

    /** `add_proposal`: a signed community member registers a proposal under a fresh hash
        and becomes its fund seeker. Freshness is tested against `Voting`. */
    method AddProposal(origin: Origin, title: seq<bv8>, proposalHash: Hash, amount: Balance)
      returns (r: Outcome)
      requires Valid()
      modifies this`proposal, this`voting, this`fundSeekerAccounts, this`events
      ensures Valid()
      ensures r == if !origin.Signed? then Err(BadOrigin)
                   else if origin.account !in communityMembers then Err(MemberIsNotPresentInCommunity)
                   else if proposalHash in old(voting) then Err(ProposalAlreadyExist)
                   else Ok
      ensures r.Ok? ==>
                && proposal == old(proposal)[proposalHash := ProposalInfo(title, amount)]
                && voting == old(voting)[proposalHash := Votes([], [])]
                && fundSeekerAccounts == old(fundSeekerAccounts)[proposalHash := [origin.account]]
                && Lookup(approvers, proposalHash) == []
                && events == old(events) + [ProposalAdded]
      ensures !r.Ok? ==> unchanged(this)
    {
      if !origin.Signed? {
        return Err(BadOrigin);
      }
      var who := origin.account;
      var isMember := BinarySearch(communityMembers, who);
      if isMember.NotFound? {
        return Err(MemberIsNotPresentInCommunity);
      }
      if proposalHash in voting {
        return Err(ProposalAlreadyExist);
      }
      NewProposalKeepsInvariant(voting, proposal, fundSeekerAccounts, approvers, transferTime,
                                communityMembers, committeeMembers, proposalHash, ProposalInfo(title, amount), who);
      proposal := proposal[proposalHash := ProposalInfo(title, amount)];
      voting := voting[proposalHash := Votes([], [])];
      fundSeekerAccounts := fundSeekerAccounts[proposalHash := [who]];
      events := events + [ProposalAdded];
      r := Ok;
    }

    /** `approve_proposal`: a committee member votes once on a proposal; the vote re-arms the
        evaluation at `blockNumber + timeDuration`. */
    method ApproveProposal(origin: Origin, proposalHash: Hash, approve: Vote) returns (r: Outcome)
      requires Valid()
      modifies this`voting, this`approvers, this`transferTime, this`events
      ensures Valid()
      ensures r == if !origin.Signed? then Err(BadOrigin)
                   else if origin.account !in committeeMembers then Err(MemberIsNotPresentInCommittee)
                   else if origin.account in Lookup(old(approvers), proposalHash) then Err(AlreadyApproved)
                   else if proposalHash !in old(voting) then Err(ProposalMissing)
                   else Ok
      ensures r.Ok? ==>
                && voting == old(voting)[proposalHash := RecordVote(old(voting)[proposalHash], origin.account, approve)]
                && approvers == old(approvers)[proposalHash := Insert(Lookup(old(approvers), proposalHash), origin.account)]
                && transferTime == old(transferTime)[blockNumber + timeDuration := proposalHash]
                && events == old(events) + [Approved(origin.account, proposalHash, approve,
                                                     |voting[proposalHash].ayes|, |voting[proposalHash].nays|)]
      ensures !r.Ok? ==> unchanged(this)
    {
      if !origin.Signed? {
        return Err(BadOrigin);
      }
      var who := origin.account;
      var isMember := BinarySearch(committeeMembers, who);
      if isMember.NotFound? {
        return Err(MemberIsNotPresentInCommittee);
      }
      var totalApprovers := Lookup(approvers, proposalHash);
      assert TallyHolds(voting, approvers, committeeMembers, proposalHash);
      var present, members := SortedInsert(totalApprovers, who);
      if present {
        return Err(AlreadyApproved);
      }
      if proposalHash !in voting {
        return Err(ProposalMissing);
      }
      RecordApproval(who, proposalHash, approve, members);
      r := Ok;
    }

    /** The writes of a successful `approve_proposal`: the vote goes into `Voting`, the voter
        into `Approvers` at the position the search reported, `TransferTime` maps
        `blockNumber + timeDuration` to the proposal, and the `Approved` event carries the new
        counts. */
    method RecordApproval(who: Account, proposalHash: Hash, approve: Vote, members: seq<Account>)
      requires Valid()
      requires proposalHash in voting && who in committeeMembers
      requires who !in Lookup(approvers, proposalHash)
      requires members == Insert(Lookup(approvers, proposalHash), who)
      modifies this`voting, this`approvers, this`transferTime, this`events
      ensures Valid()
      ensures voting == old(voting)[proposalHash := RecordVote(old(voting)[proposalHash], who, approve)]
      ensures approvers == old(approvers)[proposalHash := members]
      ensures transferTime == old(transferTime)[blockNumber + timeDuration := proposalHash]
      ensures events == old(events) + [Approved(who, proposalHash, approve,
                                                |voting[proposalHash].ayes|, |voting[proposalHash].nays|)]
    {
      var tally := RecordVote(voting[proposalHash], who, approve);
      var voting', approvers', transferTime' :=
        voting[proposalHash := tally], approvers[proposalHash := members],
        transferTime[blockNumber + timeDuration := proposalHash];
      VoteKeepsInvariant(voting, proposal, fundSeekerAccounts, approvers, transferTime, committeeMembers,
                         proposalHash, who, approve, blockNumber + timeDuration, voting', approvers', transferTime');
      voting, approvers, transferTime := voting', approvers', transferTime';
      events := events + [Approved(who, proposalHash, approve, |tally.ayes|, |tally.nays|)];
    }

    /** `add_pot_account`: root replaces the pot with exactly one account. */
    method AddPotAccount(origin: Origin, who: Account) returns (r: Outcome)
      requires Valid()
      modifies this`potAccount
      ensures Valid()
      ensures r == if origin.Root? then Ok else Err(BadOrigin)
      ensures r.Ok? ==> potAccount == [who]
      ensures !r.Ok? ==> unchanged(this)
    {
      if !origin.Root? {
        return Err(BadOrigin);
      }
      potAccount := [who];
      r := Ok;
    }

    /** `fund_pot_account`: moves `amount` from the community member `who` (not the signer)
        to the pot under KeepAlive. Reading the pot of an empty `PotAccount` panics. */
    method FundPotAccount(origin: Origin, who: Account, amount: Balance) returns (r: Outcome)
      requires Valid()
      modifies this`balances
      ensures Valid()
      ensures r == if !origin.Signed? then Err(BadOrigin)
                   else if who !in communityMembers then Err(MemberIsNotPresentInCommunity)
                   else if potAccount == [] then Panic
                   else match Transfer(old(balances), existentialDeposit, who, potAccount[0], amount)
                        case Refused(e) => Err(CurrencyFailure(e))
                        case Transferred(_) => Ok
      ensures r.Ok? ==> Transfer(old(balances), existentialDeposit, who, potAccount[0], amount)
                        == Transferred(balances)
      ensures !r.Ok? ==> unchanged(this)
    {
      if !origin.Signed? {
        return Err(BadOrigin);
      }
      var isMember := BinarySearch(communityMembers, who);
      if isMember.NotFound? {
        return Err(MemberIsNotPresentInCommunity);
      }
      if potAccount == [] {
        return Panic;
      }
      var pot := potAccount[0];
      match Transfer(balances, existentialDeposit, who, pot, amount)
      case Refused(e) =>
        r := Err(CurrencyFailure(e));
      case Transferred(nb) =>
        balances := nb;
        r := Ok;
    }

    /** What `transfer_funds(h)` decides once every read has succeeded. Under `Valid()` the
        fund seeker list of an existing proposal is a singleton, so its first read is in
        bounds; only the pot can be missing. */
    function SettlementOf(h: Hash): (s: Settlement)
      reads this
      requires Valid() && h in voting && potAccount != []
      ensures !s.Declined? <==> forall a :: a in committeeMembers ==> a in voting[h].ayes
      ensures !s.Declined? ==> voting[h].nays == []
    {
      assert TallyHolds(voting, approvers, committeeMembers, h);
      UnanimousIffEveryMemberAye(Lookup(approvers, h), voting[h], committeeMembers);
      Settle(voting[h], proposal[h], committeeMembers, potAccount[0], fundSeekerAccounts[h][0],
             balances, existentialDeposit)
    }

    /** The balances and event log a settlement leaves behind, given the ones it started from. */
    ghost predicate Settled(s: Settlement, b: Balances, log: seq<Event>)
      reads this
    {
      match s
      case Paid(nb) => balances == nb && events == log + [FundTransfer]
      case Declined => balances == b && events == log + [FundTransferDeclined]
      case TransferFailed(_) => balances == b && events == log
    }

    /** `transfer_funds`: pays the proposal's amount from the pot to its fund seeker only when
        the aye count equals the current committee size. */
    method TransferFunds(proposalId: Hash) returns (r: Outcome)
      requires Valid()
      modifies this`balances, this`events
      ensures Valid()
      ensures proposalId !in voting ==> r == Err(ProposalMissing) && unchanged(this)
      ensures proposalId in voting && potAccount == [] ==> r == Panic && unchanged(this)
      ensures proposalId in voting && potAccount != [] ==>
                && r == SettlementOutcome(old(SettlementOf(proposalId)))
                && Settled(old(SettlementOf(proposalId)), old(balances), old(events))
    {
      if proposalId !in voting || proposalId !in proposal {
        return Err(ProposalMissing);
      }
      var voting := voting[proposalId];
      var info := proposal[proposalId];
      var destination := fundSeekerAccounts[proposalId][0];
      if potAccount == [] {
        return Panic;
      }
      var source := potAccount[0];
      if Unanimous(voting, committeeMembers) {
        match Transfer(balances, existentialDeposit, source, destination, info.amount)
        case Refused(e) =>
          r := Err(CurrencyFailure(e));
        case Transferred(nb) =>
          balances := nb;
          events := events + [FundTransfer];
          r := Ok;
      } else {
        events := events + [FundTransferDeclined];
        r := Ok;
      }
    }

    /** `on_initialize(n)`: evaluates the proposal scheduled at block `n`, if any. Its result
        is discarded, but a panic inside it is not. */
    method OnInitialize(n: BlockNumber) returns (panicked: bool)
      requires Valid()
      modifies this`balances, this`events
      ensures Valid()
      ensures n !in transferTime ==> !panicked && unchanged(this)
      ensures n in transferTime && potAccount == [] ==> panicked && unchanged(this)
      ensures n in transferTime && potAccount != [] ==>
                !panicked && Settled(old(SettlementOf(transferTime[n])), old(balances), old(events))
    {
      panicked := false;
      if n in transferTime {
        var proposalId := transferTime[n];
        var result := TransferFunds(proposalId);
        panicked := result.Panic?;
      }
    }

    /** The runtime starting the next block: the block number advances, then the hook runs. */
    method InitializeBlock() returns (panicked: bool)
      requires Valid()
      modifies this`blockNumber, this`balances, this`events
      ensures Valid()
      ensures blockNumber == old(blockNumber) + 1
      ensures blockNumber !in transferTime ==> !panicked && balances == old(balances) && events == old(events)
      ensures blockNumber in transferTime && potAccount == [] ==>
                panicked && balances == old(balances) && events == old(events)
      ensures blockNumber in transferTime && potAccount != [] ==>
                var h := transferTime[blockNumber];
                !panicked && Settled(old(SettlementOf(h)), old(balances), old(events))
    {
      blockNumber := blockNumber + 1;
      panicked := OnInitialize(blockNumber);
    }
  }
}
