/** Stand-in for the runtime's `Currency` (the balances pallet behind `T::Currency`), which
    lives outside this repository: free balances as a map, and the checks a transfer with
    `ExistenceRequirement::KeepAlive` makes before it moves anything. */
module Currency {

  type Account = int
  type Balance = nat
  type Balances = map<Account, Balance>

  /** The ways a KeepAlive transfer can be refused, in the order they are tested. */
  datatype CurrencyError =
    | InsufficientBalance  // the source holds less than the amount
    | ExistentialDeposit   // the destination would hold less than the existential deposit
    | KeepAlive            // the source would drop below the existential deposit

  datatype TransferResult = Transferred(balances: Balances) | Refused(error: CurrencyError)

  /** An account missing from the map holds nothing. */
  function Free(b: Balances, a: Account): Balance {
    if a in b then b[a] else 0
  }

  /** `Currency::transfer(from, to, amount, ExistenceRequirement::KeepAlive)` with existential
      deposit `ed`. A zero amount or a transfer to oneself succeeds and changes nothing. */
  function Transfer(b: Balances, ed: Balance, from: Account, to: Account, amount: Balance): (r: TransferResult)
    ensures r.Refused? <==> from != to && amount > 0
                            && (Free(b, from) < amount + ed || Free(b, to) + amount < ed)
    ensures r.Refused? ==> r.error == (if Free(b, from) < amount then InsufficientBalance
                                       else if Free(b, to) + amount < ed then ExistentialDeposit
                                       else KeepAlive)
    ensures r.Transferred? && from != to ==>
              Free(r.balances, from) + amount == Free(b, from)
              && Free(r.balances, to) == Free(b, to) + amount
              && (amount > 0 ==> Free(r.balances, from) >= ed && Free(r.balances, to) >= ed)
    ensures r.Transferred? && from == to ==> r.balances == b
    ensures r.Transferred? ==> forall a :: a != from && a != to ==> Free(r.balances, a) == Free(b, a)
  {
    if amount == 0 || from == to then Transferred(b)
    else if Free(b, from) < amount then Refused(InsufficientBalance)
    else if Free(b, to) + amount < ed then Refused(ExistentialDeposit)
    else if Free(b, from) - amount < ed then Refused(KeepAlive)
    else Transferred(b[from := Free(b, from) - amount][to := Free(b, to) + amount])
  }
}
