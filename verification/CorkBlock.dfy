/** What the end of a block does to the cork store: votes are consumed, and what was approved becomes relayable. */
module CorkBlock {
  import opened AxelarProxy
  import opened Collections
  import opened CorkKeys
  import opened CorkRelay
  import opened CorkSpec
  import opened CorkTally
  import opened CorkTypes
  import opened Integers
  import opened Outcomes

  // ----- the votes of one chain -----

  /** The two states hold the same votes for a chain at the current height. */
  ghost predicate SameVotes(s: State, t: State, chain: uint64) {
    && s.height == t.height
    && (forall k :: k in s.scheduled && k.chain == chain && k.height == s.height ==> k in t.scheduled && t.scheduled[k] == s.scheduled[k])
    && (forall k :: k in t.scheduled && k.chain == chain && k.height == s.height ==> k in s.scheduled)
  }

  lemma SameVotesSameCount(s: State, t: State, chain: uint64)
    requires SameVotes(s, t, chain)
    ensures Votes(s, chain) == Votes(t, chain)
  {
    hide ScheduledRank;
    assert ScheduledAt(s, chain, s.height) == ScheduledAt(t, chain, t.height);
    assert VoteKeys(s, chain, s.height) == VoteKeys(t, chain, t.height);
  }

  /** Every scheduled cork names the chain it is scheduled for. */
  ghost predicate ChainIdsMatch(s: State) {
    forall k :: k in s.scheduled ==> s.scheduled[k].chainId == k.chain
  }

  /** A validator has one store key for one contract, call and chain id: two votes of one validator for one call name
      different chains. */
  lemma RepeatedVotesNameOtherChains(env: Env, s: State, chain: uint64, i: nat, j: nat)
    requires ScheduledShape(env, s) && i < j < |Votes(s, chain)|
    requires Votes(s, chain)[i].validator == Votes(s, chain)[j].validator
    requires SameCall(env, Votes(s, chain)[i].cork, Votes(s, chain)[j].cork)
    ensures Votes(s, chain)[i].cork.chainId != Votes(s, chain)[j].cork.chainId
  {
    var keys := VoteKeys(s, chain, s.height);
    assert keys[i] in keys && keys[j] in keys;
    assert ScheduledRank(keys[i]) < ScheduledRank(keys[j]);
  }

  /** If stored corks name their own chain, a validator votes once for a call, with one deadline. */
  lemma StoredVotesOnce(env: Env, s: State, powers: map<Validator, uint64>, chain: uint64, cork: Cork)
    requires ScheduledShape(env, s) && ChainIdsMatch(s) && Known(powers, Votes(s, chain))
    ensures OneVoteFor(env, powers, Votes(s, chain), cork)
  {
    var keys, votes := VoteKeys(s, chain, s.height), Votes(s, chain);
    forall i, j | 0 <= i < j < |votes| && votes[i].validator == votes[j].validator
      ensures !(SameCall(env, cork, votes[i].cork) && SameCall(env, cork, votes[j].cork))
    {
      assert keys[i] in keys && keys[j] in keys;
      assert ScheduledRank(keys[i]) < ScheduledRank(keys[j]);
    }
  }

  /** The chain's tally at the current height approves `cork`. */
  ghost predicate ApprovedNow(env: Env, s: State, staking: Staking, chain: uint64, cork: Cork) {
    && Known(staking.powers, Votes(s, chain)) && staking.total > 0
    && cork in ApprovedCorks(Tally(env, staking.powers, Votes(s, chain)), staking.total)
  }

  lemma {:induction false} ApprovedCorksExactly(groups: seq<Group>, total: nat, cork: Cork)
    requires total > 0
    ensures cork in ApprovedCorks(groups, total) <==> exists g :: g in groups && g.cork == cork && Approved(g.power, total)
  {
    hide Approved;
    if groups != [] {
      var init, last := groups[..|groups| - 1], groups[|groups| - 1];
      ApprovedCorksExactly(init, total, cork);
      assert groups == init + [last];
    }
  }

  /** The voters of two corks approved by a chain at one height. */
  function SharedVoters(env: Env, s: State, chain: uint64, c: Cork, d: Cork): set<nat> {
    Voters(env, Votes(s, chain), c) * Voters(env, Votes(s, chain), d)
  }

  /** In every stored state, two corks approved for a chain share voters with over 34 percent of the power, less what
      repeated votes added; without repeated votes nothing was added, and the two do not differ in the deadline only. */
  lemma ApprovalsAgree(env: Env, s: State, staking: Staking, chain: uint64, c: Cork, d: Cork)
    requires WithinTotal(staking)
    requires ApprovedNow(env, s, staking, chain, c) && ApprovedNow(env, s, staking, chain, d)
    ensures forall v :: v in SharedVoters(env, s, chain, c, d) ==> v in staking.powers
    ensures 100 * (PowerOf(staking.powers, SharedVoters(env, s, chain, c, d))
                   + Overcount(env, staking.powers, Votes(s, chain), c) + Overcount(env, staking.powers, Votes(s, chain), d))
            > 34 * staking.total
    ensures CountedOnce(env, staking.powers, Votes(s, chain), c) && CountedOnce(env, staking.powers, Votes(s, chain), d) ==>
              100 * PowerOf(staking.powers, SharedVoters(env, s, chain, c, d)) > 34 * staking.total
    ensures SameCall(env, c, d) && OneVoteFor(env, staking.powers, Votes(s, chain), c) ==> c.deadline == d.deadline
  {
    hide Approved, Tally, Votes, PowerOf, WithinTotal, Voters, Overcount, CountedOnce, OneVoteFor, Known;
    var votes := Votes(s, chain);
    var groups := Tally(env, staking.powers, votes);
    ApprovedCorksExactly(groups, staking.total, c);
    ApprovedCorksExactly(groups, staking.total, d);
    var g :| g in groups && g.cork == c && Approved(g.power, staking.total);
    var h :| h in groups && h.cork == d && Approved(h.power, staking.total);
    QuorumAgreement(env, staking, votes, g, h);
    if SameCall(env, c, d) && c.deadline != d.deadline {
      DeadlineVariantsNeverBoth(env, staking, votes, g, h);
    }
  }

  /** Where stored corks name their own chain, agreement needs no allowance. */
  lemma OwnChainApprovalsAgree(env: Env, s: State, staking: Staking, chain: uint64, c: Cork, d: Cork)
    requires ScheduledShape(env, s) && ChainIdsMatch(s) && WithinTotal(staking)
    requires ApprovedNow(env, s, staking, chain, c) && ApprovedNow(env, s, staking, chain, d)
    ensures forall v :: v in SharedVoters(env, s, chain, c, d) ==> v in staking.powers
    ensures 100 * PowerOf(staking.powers, SharedVoters(env, s, chain, c, d)) > 34 * staking.total
    ensures SameCall(env, c, d) ==> c.deadline == d.deadline
  {
    hide Tally, Votes, PowerOf, WithinTotal, Voters, Overcount, CountedOnce, OneVoteFor, Known, ChainIdsMatch, ScheduledShape, SameCall;
    ApprovalsAgree(env, s, staking, chain, c, d);
    StoredVotesOnce(env, s, staking.powers, chain, c);
    StoredVotesOnce(env, s, staking.powers, chain, d);
    SameCallAsItself(env, c);
    SameCallAsItself(env, d);
    OneVoteCountsOnce(env, staking.powers, Votes(s, chain), c, c);
    OneVoteCountsOnce(env, staking.powers, Votes(s, chain), d, d);
  }

  lemma SameCallAsItself(env: Env, c: Cork)
    ensures SameCall(env, c, c)
  {}

  // ----- what becomes relayable -----

  /** The last cork of the list for a contract. */
  function LastFor(env: Env, corks: seq<Cork>, contract: Address): (r: Option<Cork>)
    ensures r.None? ==> forall c :: c in corks ==> env.address(c.target) != contract
    ensures r.Some? ==> r.value in corks && env.address(r.value.target) == contract
  {
    if corks == [] then None
    else if env.address(corks[|corks| - 1].target) == contract then Some(corks[|corks| - 1])
    else LastFor(env, corks[..|corks| - 1], contract)
  }

  function Lookup<K, V>(m: map<K, V>, k: K): Option<V> { if k in m then Some(m[k]) else None }

  /** Of several approved corks for one contract the last one stays. */
  lemma {:induction false} SetWinnersExactly(env: Env, winning: map<WinningKey, Cork>, chain: uint64, height: uint64, corks: seq<Cork>, k: WinningKey)
    ensures Lookup(SetWinners(env, winning, chain, height, corks), k) ==
            if k.chain == chain && k.height == height && LastFor(env, corks, k.contract).Some? then LastFor(env, corks, k.contract)
            else Lookup(winning, k)
  {
    if corks != [] { SetWinnersExactly(env, winning, chain, height, corks[..|corks| - 1], k); }
  }

  /** Every cork lies under its own contract. */
  ghost predicate OwnContracts(env: Env, winning: map<WinningKey, Cork>) {
    forall k :: k in winning ==> k.contract == env.address(winning[k].target)
  }

  lemma {:induction false} SetWinnersKeepsContracts(env: Env, winning: map<WinningKey, Cork>, chain: uint64, height: uint64, corks: seq<Cork>)
    requires OwnContracts(env, winning)
    ensures OwnContracts(env, SetWinners(env, winning, chain, height, corks))
  {
    if corks != [] { SetWinnersKeepsContracts(env, winning, chain, height, corks[..|corks| - 1]); }
  }

  lemma ExpireExactly(env: Env, winning: map<WinningKey, Cork>, chain: uint64, expires: WinningKey -> bool, k: WinningKey)
    requires OwnContracts(env, winning)
    ensures Lookup(Expire(env, winning, chain, expires), k) == if k.chain == chain && expires(k) then None else Lookup(winning, k)
    ensures OwnContracts(env, Expire(env, winning, chain, expires))
  {
    assert forall q :: q in winning ==> q == WinningKey(q.chain, q.height, env.address(winning[q].target));
  }

  /** What the chain's tally at the current height approves, in the order of its entries. */
  function ApprovedList(env: Env, s: State, staking: Staking, chain: uint64): seq<Cork> {
    if Known(staking.powers, Votes(s, chain)) && staking.total > 0 then
      ApprovedCorks(Tally(env, staking.powers, Votes(s, chain)), staking.total)
    else []
  }

  /** The cork that the tally puts under a key. */
  function Winner(env: Env, s: State, staking: Staking, k: WinningKey): Option<Cork> {
    if k.height == s.height then LastFor(env, ApprovedList(env, s, staking, k.chain), k.contract) else None
  }

  /** What lies under a key once its chain is dealt with, if `ended` says it is: nothing if it expires, else the new
      winner if there is one, else what was there. */
  function WinningAfter(env: Env, s: State, staking: Staking, expires: WinningKey -> bool, before: map<WinningKey, Cork>, k: WinningKey, ended: bool): Option<Cork> {
    if !ended then Lookup(before, k)
    else if expires(k) then None
    else if Winner(env, s, staking, k).Some? then Winner(env, s, staking, k)
    else Lookup(before, k)
  }

  // ----- one chain after the other -----

  ghost predicate Lists(chains: seq<ChainConfig>, chain: nat) {
    exists i :: 0 <= i < |chains| && chains[i].id == chain
  }

  /** What ending some of the chains did to `s`, the votes being counted as in `s0`. */
  ghost predicate ChainsEnded(env: Env, s0: State, staking: Staking, expires: WinningKey -> bool, s: State, t: State, chains: seq<ChainConfig>) {
    && t == s.(scheduled := t.scheduled, winning := t.winning, results := t.results)
    && t.scheduled.Keys <= s.scheduled.Keys
    && (forall k :: k in t.scheduled ==> t.scheduled[k] == s.scheduled[k])
    && (forall k :: k in s.scheduled ==> (k in t.scheduled <==> !(k.height == s.height && Lists(chains, k.chain))))
    && OwnContracts(env, t.winning)
    && WinningUpdated(env, s0, staking, expires, s.winning, t.winning, chains)
  }

  ghost predicate WinningUpdated(env: Env, s0: State, staking: Staking, expires: WinningKey -> bool,
                                 before: map<WinningKey, Cork>, after: map<WinningKey, Cork>, chains: seq<ChainConfig>)
  {
    forall k: WinningKey :: Lookup(after, k) == WinningAfter(env, s0, staking, expires, before, k, Lists(chains, k.chain))
  }

  lemma OneChain(env: Env, s0: State, staking: Staking, expires: WinningKey -> bool, s: State, config: ChainConfig)
    requires SameVotes(s0, s, config.id) && OwnContracts(env, s.winning)
    requires EndChain(env, s, staking, config.id, expires).Ok?
    ensures ChainsEnded(env, s0, staking, expires, s, EndChain(env, s, staking, config.id, expires).value, [config])
  {
    hide Tally, ApprovedCorks, StoreResults, VoteKeys, VotesFor, SetWinners, Expire, OwnContracts, WinningUpdated;
    OneChainVotes(env, s, staking, config, expires);
    OneChainWinning(env, s0, staking, expires, s, config);
  }

  lemma OneChainVotes(env: Env, s: State, staking: Staking, config: ChainConfig, expires: WinningKey -> bool)
    requires EndChain(env, s, staking, config.id, expires).Ok?
    ensures var t := EndChain(env, s, staking, config.id, expires).value;
            && t == s.(scheduled := t.scheduled, winning := t.winning, results := t.results)
            && t.scheduled.Keys <= s.scheduled.Keys
            && (forall k :: k in t.scheduled ==> t.scheduled[k] == s.scheduled[k])
            && (forall k :: k in s.scheduled ==> (k in t.scheduled <==> !(k.height == s.height && Lists([config], k.chain))))
  {
    hide Tally, ApprovedCorks, StoreResults, VoteKeys, VotesFor, SetWinners, Expire;
    var chain := config.id;
    assert [config][0] == config;
    assert forall c: nat :: Lists([config], c) <==> c == chain;
    if TallyChain(env, s, staking, chain).value.state == s { NoVotesNoKeys(env, s, staking, chain); }
  }

  lemma OneChainWinning(env: Env, s0: State, staking: Staking, expires: WinningKey -> bool, s: State, config: ChainConfig)
    requires SameVotes(s0, s, config.id) && OwnContracts(env, s.winning)
    requires EndChain(env, s, staking, config.id, expires).Ok?
    ensures var t := EndChain(env, s, staking, config.id, expires).value;
            OwnContracts(env, t.winning) && WinningUpdated(env, s0, staking, expires, s.winning, t.winning, [config])
  {
    hide StoreResults, SetWinners, Expire, OwnContracts, LastFor, Winner;
    var chain := config.id;
    assert [config][0] == config;
    assert forall c: nat :: Lists([config], c) <==> c == chain;
    TalliedList(env, s0, staking, s, chain);
    var corks := ApprovedList(env, s0, staking, chain);
    var set_ := SetWinners(env, s.winning, chain, s.height, corks);
    SetWinnersKeepsContracts(env, s.winning, chain, s.height, corks);
    assert EndChain(env, s, staking, chain, expires).value.winning == Expire(env, set_, chain, expires);
    ExpireKeepsContracts(env, set_, chain, expires);
    forall k: WinningKey
      ensures Lookup(Expire(env, set_, chain, expires), k) == WinningAfter(env, s0, staking, expires, s.winning, k, Lists([config], k.chain))
    {
      SetWinnersExactly(env, s.winning, chain, s.height, corks, k);
      ExpireExactly(env, set_, chain, expires, k);
      WinnerIs(env, s0, staking, k);
    }
  }

  lemma WinnerIs(env: Env, s: State, staking: Staking, k: WinningKey)
    ensures Winner(env, s, staking, k) == if k.height == s.height then LastFor(env, ApprovedList(env, s, staking, k.chain), k.contract) else None
  {}

  lemma ExpireKeepsContracts(env: Env, winning: map<WinningKey, Cork>, chain: uint64, expires: WinningKey -> bool)
    requires OwnContracts(env, winning)
    ensures OwnContracts(env, Expire(env, winning, chain, expires))
  {
    ExpireExactly(env, winning, chain, expires, WinningKey(0, 0, 0));
  }

  /** The tally of a state with the same votes approves the same list and leaves the winning corks alone. */
  lemma TalliedList(env: Env, s0: State, staking: Staking, s: State, chain: uint64)
    requires SameVotes(s0, s, chain) && TallyChain(env, s, staking, chain).Ok?
    ensures var tallied := TallyChain(env, s, staking, chain).value;
            tallied.approved == ApprovedList(env, s0, staking, chain) && tallied.state.winning == s.winning
            && tallied.state.height == s.height
  {
    hide Tally, StoreResults, VoteKeys, VotesFor, Approved;
    SameVotesSameCount(s0, s, chain);
  }

  /** Nothing is consumed only when there is nothing to consume. */
  lemma NoVotesNoKeys(env: Env, s: State, staking: Staking, chain: uint64)
    requires TallyChain(env, s, staking, chain).Ok? && TallyChain(env, s, staking, chain).value.state == s
    ensures forall k :: k in s.scheduled ==> !(k.chain == chain && k.height == s.height)
  {
    hide StoreResults, ApprovedCorks;
    var votes := Votes(s, chain);
    if votes != [] { VotesMakeGroups(env, staking.powers, votes); }
  }

  ghost predicate DistinctIds(chains: seq<ChainConfig>) {
    forall i, j :: 0 <= i < j < |chains| ==> chains[i].id != chains[j].id
  }

  lemma {:induction false} AllChains(env: Env, s0: State, staking: Staking, expires: WinningKey -> bool, s: State, chains: seq<ChainConfig>)
    requires DistinctIds(chains) && OwnContracts(env, s.winning)
    requires forall i :: 0 <= i < |chains| ==> SameVotes(s0, s, chains[i].id)
    requires EndChains(env, s, staking, expires, chains).Ok?
    ensures ChainsEnded(env, s0, staking, expires, s, EndChains(env, s, staking, expires, chains).value, chains)
    decreases |chains|
  {
    hide EndChain, WinningUpdated, OwnContracts;
    if chains == [] {
      NothingUpdated(env, s0, staking, expires, s.winning);
    } else {
      OneChain(env, s0, staking, expires, s, chains[0]);
      var s' := EndChain(env, s, staking, chains[0].id, expires).value;
      OtherChainsUntouched(env, s0, staking, expires, s, s', chains);
      AllChains(env, s0, staking, expires, s', chains[1..]);
      ChainsEndedTrans(env, s0, staking, expires, s, s', EndChains(env, s', staking, expires, chains[1..]).value, chains);
    }
  }

  lemma NothingUpdated(env: Env, s: State, staking: Staking, expires: WinningKey -> bool, winning: map<WinningKey, Cork>)
    ensures WinningUpdated(env, s, staking, expires, winning, winning, [])
  {
    hide Winner;
  }

  lemma OtherChainsUntouched(env: Env, s0: State, staking: Staking, expires: WinningKey -> bool, s: State, t: State, chains: seq<ChainConfig>)
    requires chains != [] && ChainsEnded(env, s0, staking, expires, s, t, [chains[0]])
    requires DistinctIds(chains)
    requires forall i :: 0 <= i < |chains| ==> SameVotes(s0, s, chains[i].id)
    ensures DistinctIds(chains[1..])
    ensures forall i :: 0 <= i < |chains[1..]| ==> SameVotes(s0, t, chains[1..][i].id)
  {
    hide WinningUpdated, OwnContracts;
    forall i | 0 <= i < |chains[1..]| ensures SameVotes(s0, t, chains[1..][i].id) {
      assert chains[1..][i] == chains[i + 1] && chains[0].id != chains[i + 1].id;
      assert SameVotes(s0, s, chains[i + 1].id);
    }
  }

  /** A chain is listed at the head or in the rest, and not in both. */
  lemma ListsSplit(chains: seq<ChainConfig>, c: nat)
    requires chains != [] && DistinctIds(chains)
    ensures Lists(chains, c) <==> Lists([chains[0]], c) || Lists(chains[1..], c)
    ensures !(Lists([chains[0]], c) && Lists(chains[1..], c))
  {
    if Lists(chains, c) {
      var i :| 0 <= i < |chains| && chains[i].id == c;
      if i == 0 { assert [chains[0]][0].id == c; } else { assert chains[1..][i - 1].id == c; }
    }
    if Lists(chains[1..], c) {
      var i :| 0 <= i < |chains[1..]| && chains[1..][i].id == c;
      assert chains[i + 1].id == c && chains[0].id != c;
    }
    if Lists([chains[0]], c) { assert chains[0].id == c; }
  }

  lemma ChainsEndedTrans(env: Env, s0: State, staking: Staking, expires: WinningKey -> bool, s: State, t: State, u: State, chains: seq<ChainConfig>)
    requires chains != [] && DistinctIds(chains)
    requires ChainsEnded(env, s0, staking, expires, s, t, [chains[0]]) && ChainsEnded(env, s0, staking, expires, t, u, chains[1..])
    ensures ChainsEnded(env, s0, staking, expires, s, u, chains)
  {
    hide Lists, OwnContracts, DistinctIds, WinningUpdated;
    forall k | k in s.scheduled ensures k in u.scheduled <==> !(k.height == s.height && Lists(chains, k.chain)) {
      ListsSplit(chains, k.chain);
    }
    UpdatedTrans(env, s0, staking, expires, s.winning, t.winning, u.winning, chains);
  }

  lemma UpdatedTrans(env: Env, s0: State, staking: Staking, expires: WinningKey -> bool,
                     w0: map<WinningKey, Cork>, w1: map<WinningKey, Cork>, w2: map<WinningKey, Cork>, chains: seq<ChainConfig>)
    requires chains != [] && DistinctIds(chains)
    requires WinningUpdated(env, s0, staking, expires, w0, w1, [chains[0]])
    requires WinningUpdated(env, s0, staking, expires, w1, w2, chains[1..])
    ensures WinningUpdated(env, s0, staking, expires, w0, w2, chains)
  {
    hide Lists, DistinctIds, Winner, Lookup;
    forall k: WinningKey ensures Lookup(w2, k) == WinningAfter(env, s0, staking, expires, w0, k, Lists(chains, k.chain)) {
      ListsSplit(chains, k.chain);
      assert Lookup(w1, k) == WinningAfter(env, s0, staking, expires, w0, k, Lists([chains[0]], k.chain));
      assert Lookup(w2, k) == WinningAfter(env, s0, staking, expires, w1, k, Lists(chains[1..], k.chain));
    }
  }

  /** The votes that stay: those for other heights, and for chains that are not configured. */
  function Unconsumed(s: State): map<ScheduledKey, Cork> {
    map k | k in s.scheduled && !(k.height == s.height && k.chain in s.configs) :: s.scheduled[k]
  }

  /** The end of a block: every vote of a configured chain at this height is consumed and the others are kept; under every
      key of a configured chain lies the last approved cork of its contract, or what lay there before, unless it expired. */
  lemma EndBlockerEffect(env: Env, s: State, staking: Staking, expires: WinningKey -> bool)
    requires ConfigsKeyed(s) && OwnContracts(env, s.winning) && EndBlocker(env, s, staking, expires).Ok?
    ensures var t := EndBlocker(env, s, staking, expires).value;
            && t == s.(scheduled := t.scheduled, winning := t.winning, results := t.results)
            && t.scheduled == Unconsumed(s)
            && OwnContracts(env, t.winning)
            && forall k: WinningKey :: Lookup(t.winning, k) == WinningAfter(env, s, staking, expires, s.winning, k, k.chain as nat in s.configs)
  {
    hide EndChains, Sorted, OwnContracts, WinningAfter;
    var chains := Configs(s.configs);
    ConfigsDistinct(s);
    AllChains(env, s, staking, expires, s, chains);
    var t := EndChains(env, s, staking, expires, chains).value;
    forall k: WinningKey ensures Lookup(t.winning, k) == WinningAfter(env, s, staking, expires, s.winning, k, k.chain as nat in s.configs) {
      assert Lists(chains, k.chain) <==> k.chain as nat in s.configs;
    }
  }

  lemma ConfigsDistinct(s: State)
    requires ConfigsKeyed(s)
    ensures var chains := Configs(s.configs);
            DistinctIds(chains) && forall c: nat :: Lists(chains, c) <==> c in s.configs
  {
    var ids, chains := Sorted(s.configs.Keys), Configs(s.configs);
    forall i | 0 <= i < |chains| ensures chains[i].id == ids[i] {
      assert ids[i] in s.configs.Keys;
    }
    forall c: nat ensures Lists(chains, c) <==> c in s.configs {
      if c in s.configs {
        assert c in ids;
        var i :| 0 <= i < |ids| && ids[i] == c;
        assert chains[i].id == c;
      }
      if Lists(chains, c) {
        var i :| 0 <= i < |chains| && chains[i].id == c;
        assert ids[i] in s.configs.Keys;
      }
    }
  }

  // ----- when the end of a block panics -----

  /** Every vote of the chain for this height comes from a known validator, and the total power is positive if there is one. */
  ghost predicate Countable(s: State, staking: Staking, chain: nat) {
    forall k :: k in s.scheduled && k.chain == chain && k.height == s.height ==> k.validator in staking.powers && staking.total > 0
  }

  lemma TallyPanicsExactly(env: Env, s: State, staking: Staking, chain: uint64)
    ensures TallyChain(env, s, staking, chain).Ok? <==> Countable(s, staking, chain)
  {
    hide Tally, StoreResults, ApprovedCorks, ScheduledRank, VotesFor;
    var keys, votes := VoteKeys(s, chain, s.height), Votes(s, chain);
    if Known(staking.powers, votes) {
      if votes == [] { NoTally(env, staking.powers); } else { VotesMakeGroups(env, staking.powers, votes); }
      forall k | k in keys ensures k.validator in staking.powers && votes != [] {
        var i :| 0 <= i < |keys| && keys[i] == k;
        assert votes[i] in votes;
      }
      if votes != [] { assert keys[0] in keys; }
    } else {
      var v :| v in votes && v.validator !in staking.powers;
      var i :| 0 <= i < |votes| && votes[i] == v;
      assert keys[i] in keys;
    }
  }

  lemma NoTally(env: Env, powers: map<Validator, uint64>)
    ensures Tally(env, powers, []) == []
  {}

  lemma {:induction false} ChainsPanicExactly(env: Env, s: State, staking: Staking, expires: WinningKey -> bool, chains: seq<ChainConfig>)
    requires DistinctIds(chains)
    ensures EndChains(env, s, staking, expires, chains).Ok? <==> forall i :: 0 <= i < |chains| ==> Countable(s, staking, chains[i].id)
    decreases |chains|
  {
    hide TallyChain, SetWinners, Expire, Countable;
    if chains != [] {
      TallyPanicsExactly(env, s, staking, chains[0].id);
      var r := EndChain(env, s, staking, chains[0].id, expires);
      if r.Ok? {
        ChainsPanicExactly(env, r.value, staking, expires, chains[1..]);
        forall i | 0 < i < |chains| ensures Countable(r.value, staking, chains[1..][i - 1].id) <==> Countable(s, staking, chains[i].id) {
          StillCountable(env, s, staking, expires, chains[0], chains[i].id);
        }
      }
    }
  }

  lemma StillCountable(env: Env, s: State, staking: Staking, expires: WinningKey -> bool, config: ChainConfig, chain: uint64)
    requires EndChain(env, s, staking, config.id, expires).Ok? && chain != config.id
    ensures Countable(EndChain(env, s, staking, config.id, expires).value, staking, chain) <==> Countable(s, staking, chain)
  {
    hide EndChain;
    OneChainVotes(env, s, staking, config, expires);
    assert !Lists([config], chain);
  }

  /** Exactly when the end of a block completes: every vote of a configured chain for this height comes from a validator that
      staking knows, and the total power is positive if there is a vote. Otherwise it panics. */
  lemma EndBlockerPanicsExactly(env: Env, s: State, staking: Staking, expires: WinningKey -> bool)
    requires ConfigsKeyed(s)
    ensures EndBlocker(env, s, staking, expires).Ok? <==> forall c :: c in s.configs ==> Countable(s, staking, c)
    ensures !EndBlocker(env, s, staking, expires).Fail?
  {
    hide Countable, EndChains, Sorted;
    var chains := Configs(s.configs);
    ConfigsDistinct(s);
    ChainsPanicExactly(env, s, staking, expires, chains);
    NoErrors(env, s, staking, expires, chains);
    forall c | c in s.configs ensures exists i :: 0 <= i < |chains| && chains[i].id == c { assert Lists(chains, c); }
    forall i | 0 <= i < |chains| ensures chains[i].id as nat in s.configs { assert Lists(chains, chains[i].id); }
  }

  lemma {:induction false} NoErrors(env: Env, s: State, staking: Staking, expires: WinningKey -> bool, chains: seq<ChainConfig>)
    ensures !EndChains(env, s, staking, expires, chains).Fail?
    decreases |chains|
  {
    hide Tally, StoreResults, ApprovedCorks, SetWinners, Expire;
    if chains != [] && EndChain(env, s, staking, chains[0].id, expires).Ok? {
      NoErrors(env, EndChain(env, s, staking, chains[0].id, expires).value, staking, expires, chains[1..]);
    }
  }

  // ----- what that means for one cork -----

  /** `cork` lies under `k` because its chain approved it at the current height. */
  ghost predicate NewWinner(env: Env, s: State, staking: Staking, k: WinningKey, cork: Cork) {
    k.height == s.height && k.contract == env.address(cork.target) && ApprovedNow(env, s, staking, k.chain, cork)
  }

  /** Every winning cork of `after` was there before, or is new. */
  ghost predicate WinnersFrom(env: Env, s: State, staking: Staking, before: map<WinningKey, Cork>, after: map<WinningKey, Cork>) {
    forall k :: k in after ==> (k in before && after[k] == before[k]) || NewWinner(env, s, staking, k, after[k])
  }

  lemma WinnerIsApproved(env: Env, s: State, staking: Staking, k: WinningKey)
    requires Winner(env, s, staking, k).Some?
    ensures NewWinner(env, s, staking, k, Winner(env, s, staking, k).value)
  {
    hide Tally, ApprovedCorks, Votes, Known;
  }

  lemma EndBlockerWinners(env: Env, s: State, staking: Staking, expires: WinningKey -> bool)
    requires ConfigsKeyed(s) && OwnContracts(env, s.winning) && EndBlocker(env, s, staking, expires).Ok?
    ensures WinnersFrom(env, s, staking, s.winning, EndBlocker(env, s, staking, expires).value.winning)
  {
    hide EndBlocker, Winner, NewWinner, OwnContracts;
    EndBlockerEffect(env, s, staking, expires);
    var t := EndBlocker(env, s, staking, expires).value;
    forall k | k in t.winning ensures (k in s.winning && t.winning[k] == s.winning[k]) || NewWinner(env, s, staking, k, t.winning[k]) {
      assert Lookup(t.winning, k) == Some(t.winning[k]);
      if Winner(env, s, staking, k).Some? { WinnerIsApproved(env, s, staking, k); }
    }
  }

  /** An approved cork becomes relayable if and only if it does not expire at once and no later entry of the tally is
      approved for its contract. */
  lemma ApprovedIsStored(env: Env, s: State, staking: Staking, expires: WinningKey -> bool, chain: uint64, c: Cork)
    requires ConfigsKeyed(s) && WinningShape(env, s) && EndBlocker(env, s, staking, expires).Ok? && chain in s.configs
    requires ApprovedNow(env, s, staking, chain, c)
    ensures var key := WinningKey(chain, s.height, env.address(c.target));
            Lookup(EndBlocker(env, s, staking, expires).value.winning, key) == Some(c)
            <==> !expires(key) && LastFor(env, ApprovedList(env, s, staking, chain), env.address(c.target)) == Some(c)
  {
    hide EndBlocker, Tally, Votes, ApprovedCorks, Known, LastFor;
    EndBlockerEffect(env, s, staking, expires);
  }
}
