/** The value types of the pallet (`Vote`, `Votes`, `ProposalInfo`), the tally update that
    `approve_proposal` performs, the consistency a tally keeps with its approver list, and the
    unanimity decision of `transfer_funds`. */
module Governance {
  import opened SortedSeq
  import opened Currency

  datatype Vote = Aye | Nay

  /** Accounts that voted each way, in the order the votes were cast. */
  datatype Votes = Votes(ayes: seq<Account>, nays: seq<Account>)

  datatype ProposalInfo = ProposalInfo(title: seq<bv8>, amount: Balance)

  /** The voter is pushed onto `ayes` for `Aye` and onto `nays` otherwise. */
  function RecordVote(v: Votes, who: Account, choice: Vote): Votes {
    match choice
    case Aye => v.(ayes := v.ayes + [who])
    case Nay => v.(nays := v.nays + [who])
  }

  /** The approver list of a proposal is strictly ascending and holds exactly the accounts
      in `ayes` and `nays`; nobody appears twice across the two lists; every voter is a
      committee member. */
  ghost predicate TallyConsistent(approvers: seq<Account>, v: Votes, committee: seq<Account>) {
    && StrictlySorted(approvers)
    && Distinct(v.ayes)
    && Distinct(v.nays)
    && (forall a :: a in v.ayes ==> a !in v.nays)
    && (forall a :: a in approvers <==> a in v.ayes || a in v.nays)
    && (forall a :: a in approvers ==> a in committee)
  }

  /** A committee member who has not voted yet casts a vote: pushing them onto one list and
      inserting them into the approver list keeps the tally consistent, the list they join
      grows by one with them at its end and the other list is unchanged. */
  lemma RecordVoteKeepsTally(approvers: seq<Account>, v: Votes, committee: seq<Account>,
                             who: Account, choice: Vote, newApprovers: seq<Account>)
    requires TallyConsistent(approvers, v, committee)
    requires who in committee && who !in approvers
    requires StrictlySorted(newApprovers)
    requires forall a :: a in newApprovers <==> a in approvers || a == who
    ensures TallyConsistent(newApprovers, RecordVote(v, who, choice), committee)
    ensures var r := RecordVote(v, who, choice);
            |r.ayes| + |r.nays| == |v.ayes| + |v.nays| + 1
            && (choice == Aye ==> r.ayes[|r.ayes| - 1] == who && r.nays == v.nays)
            && (choice == Nay ==> r.nays[|r.nays| - 1] == who && r.ayes == v.ayes)
  {
  }

  /** A larger committee keeps every tally consistent (the committee only grows). */
  lemma GrowCommitteeKeepsTally(approvers: seq<Account>, v: Votes, committee: seq<Account>, larger: seq<Account>)
    requires TallyConsistent(approvers, v, committee)
    requires forall a :: a in committee ==> a in larger
    ensures TallyConsistent(approvers, v, larger)
  {
  }

  /** The test of `transfer_funds`: as many ayes as there are committee members now. */
  predicate Unanimous(v: Votes, committee: seq<Account>) {
    |v.ayes| == |committee|
  }

  /** Under a consistent tally the count test is exactly "every current committee member voted
      Aye", and then nobody voted Nay; the aye count never exceeds the committee size. */
  lemma UnanimousIffEveryMemberAye(approvers: seq<Account>, v: Votes, committee: seq<Account>)
    requires TallyConsistent(approvers, v, committee)
    requires StrictlySorted(committee)
    ensures |v.ayes| <= |committee|
    ensures Unanimous(v, committee) <==> forall a :: a in committee ==> a in v.ayes
    ensures Unanimous(v, committee) ==> v.nays == []
  {
    DistinctCard(v.ayes);
    SortedDistinct(committee);
    DistinctCard(committee);
    var ayes, members := Elems(v.ayes), Elems(committee);
    assert ayes <= members;
    assert |members - ayes| == |members| - |ayes|;
    if Unanimous(v, committee) {
      assert members - ayes == {};
      forall a | a in committee
        ensures a in v.ayes
      {
        assert a in members;
      }
      assert forall a :: a in v.nays ==> a in approvers && a in members && a !in ayes;
      assert Elems(v.nays) == {};
      DistinctCard(v.nays);
    }
    if forall a :: a in committee ==> a in v.ayes {
      assert members <= ayes;
      assert members == ayes;
    }
  }

  /** What `transfer_funds` does once the proposal, the proposer and the pot account are
      known: the transfer is attempted only under unanimity; otherwise it is declined. */
  datatype Settlement = Paid(balances: Balances) | Declined | TransferFailed(error: CurrencyError)

  function Settle(v: Votes, info: ProposalInfo, committee: seq<Account>, pot: Account, seeker: Account,
                  b: Balances, ed: Balance): (r: Settlement)
    ensures r.Declined? <==> !Unanimous(v, committee)
    ensures r.Paid? ==> Transfer(b, ed, pot, seeker, info.amount) == Transferred(r.balances)
    ensures r.TransferFailed? ==> Transfer(b, ed, pot, seeker, info.amount) == Refused(r.error)
    ensures r.Paid? && pot != seeker ==>
              Free(r.balances, seeker) == Free(b, seeker) + info.amount
              && Free(r.balances, pot) + info.amount == Free(b, pot)
  {
    if Unanimous(v, committee) then
      match Transfer(b, ed, pot, seeker, info.amount)
      case Transferred(nb) => Paid(nb)
      case Refused(e) => TransferFailed(e)
    else
      Declined
  }
}
