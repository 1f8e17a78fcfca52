/** The results that the end of a block records. */
module CorkResults {
  import opened CorkBlock
  import opened CorkRelay
  import opened CorkSpec
  import opened CorkTally
  import opened CorkTypes
  import opened Decimal
  import opened Integers
  import opened Outcomes
  import opened Rounding

  /** The last of the entries with this id at this height. */
  function EntryFor(env: Env, groups: seq<Group>, height: uint64, id: Hash): (r: Option<Group>)
    ensures r.Some? ==> r.value in groups && IdHash(env, r.value.cork, height) == id
    ensures r.None? ==> forall g :: g in groups ==> IdHash(env, g.cork, height) != id
  {
    if groups == [] then None
    else if IdHash(env, groups[|groups| - 1].cork, height) == id then Some(groups[|groups| - 1])
    else EntryFor(env, groups[..|groups| - 1], height, id)
  }

  /** The entry's cork and height, whether its share of the total is above 0.67, and that share in percent. */
  ghost predicate Records(r: CorkResult, g: Group, height: uint64, total: nat) {
    && r.cork == g.cork && r.height == height
    && exists share :: QuotientOf(share, g.power * 1_000_000_000_000_000_000, total * 1_000_000_000_000_000_000)
                       && (r.approved <==> share > 670_000_000_000_000_000) && r.percentage == 100 * share
  }

  lemma EntryRecorded(g: Group, height: uint64, total: nat)
    requires total > 0
    ensures Records(CorkResult(g.cork, height, Approved(g.power, total), Mul(Percentage(g.power, total), FromInt(100))), g, height, total)
  {
    hide Quo, Mul;
    QuoIsQuotient(FromInt(g.power), FromInt(total));
    MulInt(100, Percentage(g.power, total));
  }

  lemma {:induction false} StoreResultsExactly(env: Env, results: map<(uint64, Hash), CorkResult>, chain: uint64, height: uint64, groups: seq<Group>, total: nat, key: (uint64, Hash))
    requires total > 0
    ensures var after := StoreResults(env, results, chain, height, groups, total);
            if key.0 == chain && EntryFor(env, groups, height, key.1).Some?
            then key in after && Records(after[key], EntryFor(env, groups, height, key.1).value, height, total)
            else Lookup(after, key) == Lookup(results, key)
  {
    hide IdHash, Records, Approved, Percentage, Mul;
    if groups != [] {
      StoreResultsExactly(env, results, chain, height, groups[..|groups| - 1], total, key);
      EntryRecorded(groups[|groups| - 1], height, total);
    }
  }

  /** What the tally of a chain says of an id. */
  function CountedEntry(env: Env, s: State, staking: Staking, chain: uint64, id: Hash): Option<Group> {
    if Known(staking.powers, Votes(s, chain)) then EntryFor(env, Tally(env, staking.powers, Votes(s, chain)), s.height, id) else None
  }

  /** The result under a key once its chain is dealt with, if `ended` says it is. */
  ghost predicate ResultAfter(env: Env, s: State, staking: Staking, before: map<(uint64, Hash), CorkResult>,
                              after: map<(uint64, Hash), CorkResult>, key: (uint64, Hash), ended: bool)
  {
    if ended && CountedEntry(env, s, staking, key.0, key.1).Some?
    then key in after && Records(after[key], CountedEntry(env, s, staking, key.0, key.1).value, s.height, staking.total)
    else Lookup(after, key) == Lookup(before, key)
  }

  lemma OneChainResults(env: Env, s0: State, staking: Staking, expires: WinningKey -> bool, s: State, chain: uint64, key: (uint64, Hash))
    requires SameVotes(s0, s, chain) && EndChain(env, s, staking, chain, expires).Ok?
    ensures ResultAfter(env, s0, staking, s.results, EndChain(env, s, staking, chain, expires).value.results, key, key.0 == chain)
  {
    hide Tally, VoteKeys, VotesFor, StoreResults, SetWinners, Expire, ApprovedCorks, Records, IdHash, SameVotes;
    SameVotesSameCount(s0, s, chain);
    SameHeight(s0, s, chain);
    var votes := Votes(s, chain);
    var groups := Tally(env, staking.powers, votes);
    if groups != [] { StoreResultsExactly(env, s.results, chain, s.height, groups, staking.total, key); }
  }

  lemma SameHeight(s: State, t: State, chain: uint64)
    requires SameVotes(s, t, chain)
    ensures s.height == t.height
  {}

  lemma {:induction false} AllResults(env: Env, s0: State, staking: Staking, expires: WinningKey -> bool, s: State, chains: seq<ChainConfig>, key: (uint64, Hash))
    requires DistinctIds(chains) && OwnContracts(env, s.winning)
    requires forall i :: 0 <= i < |chains| ==> SameVotes(s0, s, chains[i].id)
    requires EndChains(env, s, staking, expires, chains).Ok?
    ensures ResultAfter(env, s0, staking, s.results, EndChains(env, s, staking, expires, chains).value.results, key, Lists(chains, key.0))
    decreases |chains|
  {
    hide SameVotes, EndChain, OwnContracts, CountedEntry, Records, WinningUpdated;
    if chains != [] {
      var t := EndChain(env, s, staking, chains[0].id, expires).value;
      OneChain(env, s0, staking, expires, s, chains[0]);
      OneChainResults(env, s0, staking, expires, s, chains[0].id, key);
      OtherChainsUntouched(env, s0, staking, expires, s, t, chains);
      AllResults(env, s0, staking, expires, t, chains[1..], key);
      ListsSplit(chains, key.0);
      NotAgain(chains, key.0);
    }
  }

  lemma NotAgain(chains: seq<ChainConfig>, chain: nat)
    requires chains != [] && DistinctIds(chains)
    ensures chains[0].id == chain ==> !Lists(chains[1..], chain)
  {
    if Lists(chains[1..], chain) {
      var i :| 0 <= i < |chains[1..]| && chains[1..][i].id == chain;
      assert chains[i + 1].id == chain;
    }
  }

  /** The results after the end of a block: under each configured chain and each id of an entry of its tally lies the last
      such entry's result, and every other result stays. */
  lemma EndBlockerResults(env: Env, s: State, staking: Staking, expires: WinningKey -> bool, key: (uint64, Hash))
    requires ConfigsKeyed(s) && OwnContracts(env, s.winning) && EndBlocker(env, s, staking, expires).Ok?
    ensures ResultAfter(env, s, staking, s.results, EndBlocker(env, s, staking, expires).value.results, key, key.0 as nat in s.configs)
  {
    hide EndChains, ResultAfter, OwnContracts;
    ConfigsDistinct(s);
    AllResults(env, s, staking, expires, s, Configs(s.configs), key);
  }
}
