/** Client walks through the pallet, driven only through the contracts of its methods. */
module ProposalScenario {
  import opened Currency
  import opened Governance
  import opened ProposalPallet

  /** From genesis: a member joins the community and the committee and proposes; a committee
      candidate from outside the community and a proposal under a taken hash are refused. */
  method RegisterAndPropose() {
    var p := new Pallet(1, 1, map[1 := 100]);
    var r := p.AddCommunityMember(Signed(9), 2);
    assert r == Ok;
    r := p.AddCommitteeMember(Root, 2);
    assert r == Ok;
    r := p.AddCommitteeMember(Root, 4);
    assert r == Err(MemberIsNotPresentInCommunity);
    r := p.AddPotAccount(Root, 1);
    assert r == Ok;
    r := p.AddProposal(Signed(2), [], 5, 10);
    assert r == Ok;
    r := p.AddProposal(Signed(2), [], 5, 20);
    assert r == Err(ProposalAlreadyExist) && p.proposal[5].amount == 10;
  }

  /** The state `RegisterAndPropose` ends in: the member's vote schedules the evaluation one
      block later, and a second vote by the same member is refused. */
  method VoteSchedulesEvaluation(p: Pallet)
    requires p.Valid() && p.blockNumber == 0 && p.timeDuration == 1
    requires p.committeeMembers == [2] && p.voting == map[5 := Votes([], [])]
    requires p.approvers == map[] && p.transferTime == map[]
    modifies p
  {
    var r := p.ApproveProposal(Signed(2), 5, Aye);
    assert r == Ok;
    assert p.voting[5] == Votes([2], []) && p.approvers[5] == [2] && p.transferTime == map[1 := 5];
    r := p.ApproveProposal(Signed(2), 5, Nay);
    assert r == Err(AlreadyApproved);
  }

  /** Members join in any order and the lists stay ascending. */
  method MembersStayOrdered() {
    var p := new Pallet(2, 1, map[]);
    var r := p.AddCommunityMember(Signed(9), 3);
    r := p.AddCommunityMember(Signed(9), 2);
    r := p.AddCommunityMember(Signed(9), 3);
    assert r == Err(AlreadyMemberOfCommunity);
    assert p.communityMembers == [2, 3];
  }

  /** The state after that vote: when block 1 starts the pot pays the fund seeker. */
  method UnanimousProposalIsPaid(p: Pallet)
    requires p.Valid() && p.blockNumber == 0 && p.existentialDeposit == 1
    requires p.committeeMembers == [2] && p.potAccount == [1] && p.balances == map[1 := 100]
    requires p.voting == map[5 := Votes([2], [])] && p.transferTime == map[1 := 5]
    requires p.proposal == map[5 := ProposalInfo([], 10)] && p.fundSeekerAccounts == map[5 := [2]]
    modifies p
  {
    var panicked := p.InitializeBlock();
    assert !panicked && p.balances == map[1 := 90, 2 := 10];
  }

  /** Two committee members and one aye: the evaluation declines and moves nothing. */
  method SplitVoteIsDeclined(p: Pallet)
    requires p.Valid() && p.existentialDeposit == 1
    requires p.committeeMembers == [2, 3] && p.potAccount == [1] && p.balances == map[1 := 100]
    requires p.voting == map[7 := Votes([3], [])]
    modifies p
  {
    var r := p.TransferFunds(7);
    assert r == Ok && p.balances == map[1 := 100];
  }

  /** An evaluation that finds no pot account panics and changes nothing. */
  method EmptyPotPanics(p: Pallet)
    requires p.Valid() && p.potAccount == [] && 7 in p.voting
    modifies p
  {
    var balances := p.balances;
    var r := p.TransferFunds(7);
    assert r == Panic && p.balances == balances;
  }
}
