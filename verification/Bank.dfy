/** The bank ledger that the auction module moves coins through. */
module Bank {
  import opened Outcomes

  /** A user's address, or a module account. A message is signed by a user. */
  datatype Account = User(address: string) | Module(name: string)

  /** Spendable balances by account and denomination; an absent entry is zero. */
  type Balances = map<(Account, string), nat>

  function Balance(b: Balances, who: Account, denom: string): nat {
    if (who, denom) in b then b[(who, denom)] else 0
  }

  /** Move `amount`, or nothing if the sender lacks it. Sending zero coins succeeds. */
  function Send(b: Balances, from: Account, to: Account, denom: string, amount: int): (r: Option<Balances>)
    ensures r.Some? <==> 0 <= amount <= Balance(b, from, denom)
    ensures r.Some? && from != to ==>
              && Balance(r.value, from, denom) == Balance(b, from, denom) - amount
              && Balance(r.value, to, denom) == Balance(b, to, denom) + amount
    ensures r.Some? ==> forall a, d ::
              (d != denom || (a != from && a != to)) ==> Balance(r.value, a, d) == Balance(b, a, d)
  {
    if 0 <= amount <= Balance(b, from, denom) then
      var taken := b[(from, denom) := Balance(b, from, denom) - amount];
      Some(taken[(to, denom) := Balance(taken, to, denom) + amount])
    else
      None
  }

  class BankKeeper {
    var balances: Balances

    constructor (b: Balances)
      ensures balances == b
    {
      balances := b;
    }

    method SendCoins(from: Account, to: Account, denom: string, amount: int) returns (ok: bool)
      modifies this
      ensures ok <==> Send(old(balances), from, to, denom, amount).Some?
      ensures balances == if ok then Send(old(balances), from, to, denom, amount).value else old(balances)
    {
      ok := 0 <= amount <= Balance(balances, from, denom);
      if ok {
        balances := balances[(from, denom) := Balance(balances, from, denom) - amount];
        balances := balances[(to, denom) := Balance(balances, to, denom) + amount];
      }
    }
  }
}
