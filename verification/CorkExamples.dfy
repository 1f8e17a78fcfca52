/** Runs in which the premises of the general results fail, and what happens then. */
module CorkExamples {
  import opened AxelarProxy
  import opened Collections
  import opened CorkBlock
  import opened CorkKeys
  import opened CorkRelay
  import opened CorkRuns
  import opened CorkSpec
  import opened CorkTally
  import opened CorkTheorems
  import opened CorkTimeout
  import opened CorkTypes
  import opened Integers
  import opened KeyOrder
  import opened Outcomes

  // ----- two votes of one validator -----

  const VOTER: Validator := 7

  /** The default timeout. */
  const TIMEOUT: uint64 := 10_000

  /** A cork that passes its validation. */
  predicate ValidCork(env: Env, c: Cork) { c.call != [] && c.chainId != 0 && env.isHex(c.target) && c.deadline != 0 }

  /** Parameters with a valid account, and a valid proxy address. */
  ghost predicate ValidSetup(env: Env, gmp: string, proxy: string) {
    Faithful(env) && env.account(gmp).Some? && env.isHex(proxy)
  }

  function Settings(gmp: string): CorkParams { CorkParams(true, "channel-0", gmp, TIMEOUT) }

  /** The end of a block at `height`, with the code's own comparison. */
  function BlockEnds(staking: Staking, height: Height, gmp: string): Step { EndBlock(staking, PastTimeout(height, Settings(gmp))) }

  /** The list of one managed cellar, as a proposal stores it. */
  function OneCellar(env: Env, target: string): seq<string> { [env.text(env.address(target))] }

  /** One chain, one managed cellar, nothing scheduled. */
  function VotingState(env: Env, target: string, gmp: string, proxy: string): State {
    State(1, Settings(gmp), map[1 := ChainConfig(1, "chain", proxy)],
          map[], map[], map[], map[1 := OneCellar(env, target)], map[], map[], map[])
  }

  /** One validator schedules two corks for height 2, and the block ends. */
  function TwoVotes(c: Cork, d: Cork, gmp: string): seq<Step> {
    [Schedule(Some(VOTER), 1, 2, c), Schedule(Some(VOTER), 1, 2, d), BlockEnds(MINORITY, 1, gmp)]
  }

  /** The key of the validator's vote. */
  function KeyAt(env: Env, chain: uint64, height: uint64, c: Cork): ScheduledKey {
    ScheduledKey(chain, height, IdHash(env, c, height), VOTER, env.address(c.target))
  }

  /** Both votes pass the handler and lie under two keys when their block comes. */
  function Voted(env: Env, c: Cork, d: Cork, gmp: string, proxy: string): State {
    VotingState(env, c.target, gmp, proxy).(height := 2, scheduled := map[KeyAt(env, 1, 2, c) := c, KeyAt(env, 1, 2, d) := d])
  }

  lemma ListsOne(configs: map<nat, ChainConfig>, chain: nat)
    requires configs.Keys == {chain}
    ensures Configs(configs) == [configs[chain]]
  {
    assert chain in configs.Keys;
    SortedUnique([chain], configs.Keys);
  }

  lemma HasFirst(keys: seq<ScheduledKey>)
    ensures keys == [] || keys[0] in keys
  {}

  /** A block without votes for its height changes nothing but the height. */
  lemma EmptyBlock(env: Env, s: State, staking: Staking, expires: WinningKey -> bool, chain: uint64)
    requires s.configs.Keys == {chain as nat} && s.configs[chain].id == chain && s.winning == map[]
    requires forall k :: k in s.scheduled ==> k.height != s.height
    ensures EndBlocker(env, s, staking, expires) == Ok(s)
  {
    hide Tally, SetWinners, Sorted;
    ListsOne(s.configs, chain);
    var keys := VoteKeys(s, chain, s.height);
    HasFirst(keys);
    NoEntries(env, staking);
    var chains := Configs(s.configs);
    assert chains[1..] == [];
    NoWinnersSet(env, chain, s.height);
    assert EndChain(env, s, staking, chain, expires) == Ok(s.(winning := Expire(env, map[], chain, expires)));
    assert Expire(env, map[], chain, expires) == map[];
    assert s.(winning := map[]) == s;
    assert EndChains(env, s, staking, expires, []) == Ok(s);
    assert chains[0].id == chain;
  }

  lemma NoWinnersSet(env: Env, chain: uint64, height: uint64)
    ensures SetWinners(env, map[], chain, height, []) == map[]
  {}

  lemma NoEntries(env: Env, staking: Staking)
    ensures Tally(env, staking.powers, []) == []
  {}

  /** A vote passes the handler. */
  lemma Scheduled(env: Env, s: State, chain: uint64, height: uint64, c: Cork)
    requires Faithful(env) && s.params.enabled && chain in s.configs && s.configs[chain].id == chain && s.height < height
    requires chain in s.cellars && s.cellars[chain] == OneCellar(env, c.target)
    ensures Next(env, s, Schedule(Some(VOTER), chain, height, c)) == s.(scheduled := s.scheduled[KeyAt(env, chain, height, c) := c])
  {
    hide IdHash, EndBlocker;
    assert Cellars(env, s, chain) == [env.address(c.target)];
  }

  lemma NoVotesYet(env: Env, s: State, gmp: string)
    requires s.configs.Keys == {1} && s.configs[1].id == 1 && s.winning == map[] && s.height == 1
    requires forall k :: k in s.scheduled ==> k.height != s.height
    ensures Next(env, s, BlockEnds(MINORITY, 1, gmp)) == s.(height := 2)
  {
    hide EndBlocker, PastTimeout;
    EmptyBlock(env, s, MINORITY, PastTimeout(1, Settings(gmp)), 1);
  }

  lemma BothVotesStored(env: Env, c: Cork, d: Cork, gmp: string, proxy: string)
    requires ValidSetup(env, gmp, proxy) && c.target == d.target && IdHash(env, c, 2) != IdHash(env, d, 2)
    ensures Inv(env, VotingState(env, c.target, gmp, proxy)) && Voted(env, c, d, gmp, proxy).params == Settings(gmp)
    ensures After(env, VotingState(env, c.target, gmp, proxy), TwoVotes(c, d, gmp), 3) == Voted(env, c, d, gmp, proxy)
  {
    hide IdHash, Next;
    var s0, steps := VotingState(env, c.target, gmp, proxy), TwoVotes(c, d, gmp);
    var s1 := s0.(scheduled := map[KeyAt(env, 1, 2, c) := c]);
    var s2 := s0.(scheduled := map[KeyAt(env, 1, 2, c) := c, KeyAt(env, 1, 2, d) := d]);
    assert After(env, s0, steps, 0) == s0;
    Scheduled(env, s0, 1, 2, c);
    assert After(env, s0, steps, 1) == s1;
    Scheduled(env, s1, 1, 2, d);
    assert After(env, s0, steps, 2) == s2;
    NoVotesYet(env, s2, gmp);
  }

  /** The votes that the tally of height 2 sees, in the order of their ids. */
  lemma VotesSeen(env: Env, c: Cork, d: Cork, gmp: string, proxy: string)
    requires c.target == d.target && IdHash(env, c, 2) != IdHash(env, d, 2)
    ensures var votes := Votes(Voted(env, c, d, gmp, proxy), 1);
            votes == [Vote(VOTER, c), Vote(VOTER, d)] || votes == [Vote(VOTER, d), Vote(VOTER, c)]
  {
    hide IdHash, VoteKeys, Ascends, ScheduledRank;
    var s := Voted(env, c, d, gmp, proxy);
    var keys, x, y := VoteKeys(s, 1, 2), KeyAt(env, 1, 2, c), KeyAt(env, 1, 2, d);
    assert x in keys && y in keys && x != y;
    var i :| 0 <= i < |keys| && keys[i] == x;
    var j :| 0 <= j < |keys| && keys[j] == y;
    OnlyTwo(keys, x, y, i, j);
    assert s.scheduled[x] == c && s.scheduled[y] == d;
  }

  lemma PlaceOf(keys: seq<ScheduledKey>, x: ScheduledKey, y: ScheduledKey, i: nat, j: nat, l: nat)
    requires Ascends(keys, ScheduledRank) && forall k :: k in keys ==> k == x || k == y
    requires i < |keys| && keys[i] == x && j < |keys| && keys[j] == y && l < |keys|
    ensures l == i || l == j
  {
    hide ScheduledRank;
    assert keys[l] in keys;
    var m := if keys[l] == x then i else j;
    assert keys[l] == keys[m];
    assert !(l < m) && !(m < l);
  }

  lemma OnlyTwo(keys: seq<ScheduledKey>, x: ScheduledKey, y: ScheduledKey, i: nat, j: nat)
    requires Ascends(keys, ScheduledRank) && forall k :: k in keys ==> k == x || k == y
    requires i < |keys| && keys[i] == x && j < |keys| && keys[j] == y && x != y
    ensures keys == [x, y] || keys == [y, x]
  {
    hide ScheduledRank, Ascends;
    PlaceOf(keys, x, y, i, j, 0);
    if |keys| > 1 { PlaceOf(keys, x, y, i, j, 1); }
    if |keys| > 2 { PlaceOf(keys, x, y, i, j, 2); }
  }

  /** Of a total of 100, the validator has 40. */
  const MINORITY := Staking(map[VOTER := 40], 100)
  /** Of a total of 100, the validator has 80. */
  const MAJORITY := Staking(map[VOTER := 80], 100)

  lemma PowerOfVoter(power: uint64)
    ensures PowerOf(map[VOTER := power], {VOTER as nat}) == power
    ensures PowerOf(map[VOTER := power], {}) == 0
  {
    assert Max({VOTER as nat}) == VOTER;
    assert {VOTER as nat} - {VOTER as nat} == {};
  }

  /** What the code can make of two votes of the validator, whatever staking says of its power: the block of height 2 ends, and
      the last cork that it approves becomes relayable. */
  lemma VotedBlockEnds(env: Env, c: Cork, d: Cork, gmp: string, proxy: string, power: uint64)
    requires c.target == d.target && IdHash(env, c, 2) != IdHash(env, d, 2)
    ensures var now, staking, key := Voted(env, c, d, gmp, proxy), Staking(map[VOTER := power], 100), WinningKey(1, 2, env.address(c.target));
            var r := EndBlocker(env, now, staking, PastTimeout(2, Settings(gmp)));
            && r.Ok?
            && Lookup(r.value.winning, key) == LastFor(env, ApprovedList(env, now, staking, 1), key.contract)
            && forall k :: k in r.value.winning ==> k.chain == 1 && k.height == 2 && LastFor(env, ApprovedList(env, now, staking, 1), k.contract).Some?
  {
    hide IdHash, EndBlocker, PastTimeout, ApprovedList, LastFor;
    var now, staking, key := Voted(env, c, d, gmp, proxy), Staking(map[VOTER := power], 100), WinningKey(1, 2, env.address(c.target));
    var expires := PastTimeout(2, Settings(gmp));
    EndBlockerPanicsExactly(env, now, staking, expires);
    EndBlockerEffect(env, now, staking, expires);
    DeletesWithinTimeout(2, Settings(gmp), key);
    var winning := EndBlocker(env, now, staking, expires).value.winning;
    assert Lookup(winning, key) == WinningAfter(env, now, staking, expires, map[], key, key.chain as nat in now.configs);
    forall k | k in winning
      ensures k.chain == 1 && k.height == 2 && LastFor(env, ApprovedList(env, now, staking, 1), k.contract).Some?
    {
      assert Lookup(winning, k) == WinningAfter(env, now, staking, expires, map[], k, k.chain as nat in now.configs);
    }
  }

  /** A validator with 40 percent votes twice for one call, naming two chains in the corks. Both votes are accepted, the
      tally adds its power twice, and the call is approved with 80 percent and becomes relayable, although its only voter has
      40. */
  lemma RepeatedVoteApproves(env: Env, c: Cork, d: Cork, gmp: string, proxy: string)
    requires ValidSetup(env, gmp, proxy) && ValidCork(env, c) && ValidCork(env, d)
    requires c.target == d.target && c.call == d.call && c.deadline == d.deadline && IdHash(env, c, 2) != IdHash(env, d, 2)
    ensures var now := After(env, VotingState(env, c.target, gmp, proxy), TwoVotes(c, d, gmp), 3);
            var r := EndBlocker(env, now, MINORITY, PastTimeout(2, now.params));
            && RepeatedVote(env, now, c, d) && r.Ok?
            && (Lookup(r.value.winning, WinningKey(1, 2, env.address(c.target))) == Some(c)
                || Lookup(r.value.winning, WinningKey(1, 2, env.address(c.target))) == Some(d))
  {
    hide IdHash, Votes, After, VotingState, TwoVotes, Equals, RepeatedVote, EndBlocker, PastTimeout, ApprovedList, ValidSetup;
    BothVotesStored(env, c, d, gmp, proxy);
    VotesSeen(env, c, d, gmp, proxy);
    SameCallEquals(env, c, d);
    VotedBlockEnds(env, c, d, gmp, proxy, 40);
    var now := Voted(env, c, d, gmp, proxy);
    if Votes(now, 1) == [Vote(VOTER, c), Vote(VOTER, d)] {
      RepeatedNow(env, now, c, d, c, d);
    } else {
      RepeatedNow(env, now, c, d, d, c);
    }
  }

  /** The single entry has 80 of 100 and is approved; the only validator behind it has 40. */
  ghost predicate RepeatedVote(env: Env, now: State, c: Cork, d: Cork) {
    && WithinTotal(MINORITY) && Known(MINORITY.powers, Votes(now, 1))
    && (Tally(env, MINORITY.powers, Votes(now, 1)) == [Group(c, 80)] || Tally(env, MINORITY.powers, Votes(now, 1)) == [Group(d, 80)])
    && (ApprovedNow(env, now, MINORITY, 1, c) || ApprovedNow(env, now, MINORITY, 1, d))
    && Voters(env, Votes(now, 1), c) == {VOTER as nat} && PowerOf(MINORITY.powers, {VOTER as nat}) == 40
    && !CountedOnce(env, MINORITY.powers, Votes(now, 1), c)
  }

  lemma RepeatedNow(env: Env, now: State, c: Cork, d: Cork, x: Cork, y: Cork)
    requires Equals(env, x, y) && ((x == c && y == d) || (x == d && y == c))
    requires Votes(now, 1) == [Vote(VOTER, x), Vote(VOTER, y)]
    ensures RepeatedVote(env, now, c, d) && ApprovedList(env, now, MINORITY, 1) == [x]
    ensures LastFor(env, [x], env.address(x.target)) == Some(x)
  {
    hide Votes, Approved, PowerOf, Tally, CountedOnce, Voters, ApprovedCorks, Equals, WithinTotal, Known;
    MinorityVoter();
    EightyApproved();
    RepeatedTally(env, x, y);
  }

  lemma SameCallEquals(env: Env, c: Cork, d: Cork)
    requires c.target == d.target && c.call == d.call && c.deadline == d.deadline
    ensures Equals(env, c, d) && Equals(env, d, c)
  {}

  lemma EqualsSymmetric(env: Env, c: Cork, d: Cork)
    ensures Equals(env, c, d) <==> Equals(env, d, c)
  {}

  lemma MinorityVoter()
    ensures PowerOf(MINORITY.powers, {VOTER as nat}) == 40 && WithinTotal(MINORITY)
  {
    PowerOfVoter(40);
    assert MINORITY.powers.Keys == {VOTER as nat};
  }

  lemma RepeatedTally(env: Env, x: Cork, y: Cork)
    requires Equals(env, x, y)
    ensures var votes := [Vote(VOTER, x), Vote(VOTER, y)];
            && Known(MINORITY.powers, votes)
            && Tally(env, MINORITY.powers, votes) == [Group(x, 80)]
            && ApprovedCorks([Group(x, 80)], 100) == (if Approved(80, 100) then [x] else [])
            && Voters(env, votes, x) == {VOTER as nat} && Voters(env, votes, y) == {VOTER as nat}
            && !CountedOnce(env, MINORITY.powers, votes, x) && !CountedOnce(env, MINORITY.powers, votes, y)
  {
    hide Approved;
    var votes := [Vote(VOTER, x), Vote(VOTER, y)];
    assert votes[..1] == [Vote(VOTER, x)];
    TallyOne(env, MINORITY.powers, x);
    assert [Group(x, 80)][..0] == [];
    assert votes[0].validator == votes[1].validator;
    assert votes[0] in votes;
  }

  lemma TallyOne(env: Env, powers: map<Validator, uint64>, x: Cork)
    requires VOTER in powers
    ensures Tally(env, powers, [Vote(VOTER, x)]) == [Group(x, powers[VOTER])]
  {
    assert [Vote(VOTER, x)][..0] == [];
    assert Tally(env, powers, []) == [];
  }

  lemma EightyApproved()
    ensures Approved(80, 100)
  {
    ApprovedIffOver67Percent(80, 100);
  }

  lemma TwoGroups(env: Env, x: Cork, y: Cork)
    requires !Equals(env, x, y)
    ensures var votes := [Vote(VOTER, x), Vote(VOTER, y)];
            && Known(MAJORITY.powers, votes)
            && Tally(env, MAJORITY.powers, votes) == [Group(x, 80), Group(y, 80)]
            && (Approved(80, 100) ==> ApprovedCorks([Group(x, 80), Group(y, 80)], 100) == [x, y])
  {
    hide Approved;
    var votes := [Vote(VOTER, x), Vote(VOTER, y)];
    assert votes[..1] == [Vote(VOTER, x)];
    TallyOne(env, MAJORITY.powers, x);
    assert [Group(x, 80)][1..] == [];
    assert CountVote(env, [], y, 80) == [Group(y, 80)];
    assert CountVote(env, [Group(x, 80)], y, 80) == [Group(x, 80), Group(y, 80)];
    var groups := [Group(x, 80), Group(y, 80)];
    assert groups[..1] == [Group(x, 80)] && [Group(x, 80)][..0] == [];
    assert Approved(80, 100) ==> ApprovedCorks([Group(x, 80)], 100) == [x];
  }

  /** What a validator with 80 percent approves alone, with two different calls for one height. */
  lemma BothApproved(env: Env, c: Cork, d: Cork, gmp: string, proxy: string)
    requires !Equals(env, c, d) && c.target == d.target && IdHash(env, c, 2) != IdHash(env, d, 2)
    ensures var now := Voted(env, c, d, gmp, proxy);
            && (ApprovedList(env, now, MAJORITY, 1) == [c, d] || ApprovedList(env, now, MAJORITY, 1) == [d, c])
            && ApprovedNow(env, now, MAJORITY, 1, c) && ApprovedNow(env, now, MAJORITY, 1, d)
  {
    hide IdHash, Votes, Approved;
    VotesSeen(env, c, d, gmp, proxy);
    EightyApproved();
    EqualsSymmetric(env, c, d);
    var votes := Votes(Voted(env, c, d, gmp, proxy), 1);
    if votes == [Vote(VOTER, c), Vote(VOTER, d)] { TwoGroups(env, c, d); } else { TwoGroups(env, d, c); }
  }

  /** Two calls that differ in the deadline, and name two chains, are both approved at one height. */
  lemma DeadlineVariantsBothApproved(env: Env, c: Cork, d: Cork, gmp: string, proxy: string)
    requires ValidSetup(env, gmp, proxy) && ValidCork(env, c) && ValidCork(env, d)
    requires c.target == d.target && c.call == d.call && c.deadline != d.deadline && IdHash(env, c, 2) != IdHash(env, d, 2)
    ensures var now := After(env, VotingState(env, c.target, gmp, proxy), TwoVotes(c, d, gmp), 3);
            && SameCall(env, c, d) && WithinTotal(MAJORITY)
            && ApprovedNow(env, now, MAJORITY, 1, c) && ApprovedNow(env, now, MAJORITY, 1, d)
  {
    hide IdHash, ApprovedNow, ApprovedList, After, TwoVotes, VotingState, ValidSetup, PowerOf;
    BothVotesStored(env, c, d, gmp, proxy);
    BothApproved(env, c, d, gmp, proxy);
    PowerOfVoter(80);
    assert MAJORITY.powers.Keys == {VOTER as nat};
  }

  /** Of two calls approved for one contract at one height only the later entry of the tally becomes relayable: the other
      approved call is lost. */
  lemma ApprovedCallLost(env: Env, c: Cork, d: Cork, gmp: string, proxy: string)
    requires ValidSetup(env, gmp, proxy) && ValidCork(env, c) && ValidCork(env, d)
    requires c.target == d.target && c.call != d.call && IdHash(env, c, 2) != IdHash(env, d, 2)
    ensures var now, key := After(env, VotingState(env, c.target, gmp, proxy), TwoVotes(c, d, gmp), 3), WinningKey(1, 2, env.address(c.target));
            var r := EndBlocker(env, now, MAJORITY, PastTimeout(2, now.params));
            && ApprovedNow(env, now, MAJORITY, 1, c) && ApprovedNow(env, now, MAJORITY, 1, d)
            && r.Ok? && key in r.value.winning && (r.value.winning[key] == c || r.value.winning[key] == d) && r.value.winning.Keys == {key}
  {
    hide IdHash, ApprovedNow, EndBlocker, ApprovedList, PastTimeout, After, TwoVotes, VotingState, ValidSetup;
    BothVotesStored(env, c, d, gmp, proxy);
    BothApproved(env, c, d, gmp, proxy);
    VotedBlockEnds(env, c, d, gmp, proxy, 80);
    LastOfTwo(env, c, d);
    LastOfTwo(env, d, c);
    var r := EndBlocker(env, Voted(env, c, d, gmp, proxy), MAJORITY, PastTimeout(2, Settings(gmp)));
    forall k | k in r.value.winning ensures k == WinningKey(1, 2, env.address(c.target)) {}
  }

  lemma LastOfTwo(env: Env, c: Cork, d: Cork)
    requires c.target == d.target
    ensures LastFor(env, [c, d], env.address(c.target)) == Some(d)
    ensures forall a: Address :: LastFor(env, [c, d], a).Some? ==> a == env.address(c.target)
  {}

  // ----- two chains of one name -----

  /** Chains 1 and 2 have one name; the contract is managed on both, nothing is scheduled. */
  function TwinStart(env: Env, target: string, gmp: string, proxy: string): State {
    State(1, Settings(gmp), TwinConfigs(proxy), map[], map[], map[],
          map[1 := OneCellar(env, target), 2 := OneCellar(env, target)], map[], map[], map[])
  }

  function TwinConfigs(proxy: string): map<nat, ChainConfig> {
    map[1 := ChainConfig(1, "twin", proxy), 2 := ChainConfig(2, "twin", proxy)]
  }

  /** One call is voted for on chain 1 at heights 2 and 3 and on chain 2 at height 2; the blocks end; it is relayed on chain 2
      twice. */
  function TwinSteps(c: Cork, gmp: string): seq<Step> {
    [Schedule(Some(VOTER), 1, 2, c), Schedule(Some(VOTER), 1, 3, c), Schedule(Some(VOTER), 2, 2, c),
     BlockEnds(MAJORITY, 1, gmp), BlockEnds(MAJORITY, 2, gmp), BlockEnds(MAJORITY, 3, gmp),
     Relay(2, c.target, true, true), Relay(2, c.target, true, true)]
  }

  lemma SingleKey(keys: seq<ScheduledKey>, x: ScheduledKey)
    requires Ascends(keys, ScheduledRank) && forall k :: k in keys <==> k == x
    ensures keys == [x]
  {
    hide ScheduledRank, Ascends;
    assert x in keys;
    var i :| 0 <= i < |keys| && keys[i] == x;
    PlaceOf(keys, x, x, i, i, 0);
    if |keys| > 1 { PlaceOf(keys, x, x, i, i, 1); }
  }

  /** All votes of this height are the validator's votes for one cork. */
  ghost predicate OnlyVotes(env: Env, s: State, c: Cork) {
    forall k :: k in s.scheduled && k.height == s.height ==> k == KeyAt(env, k.chain, s.height, c) && s.scheduled[k] == c
  }

  lemma OneVoteSeen(env: Env, s: State, c: Cork, chain: uint64)
    requires OnlyVotes(env, s, c)
    ensures Votes(s, chain) == if KeyAt(env, chain, s.height, c) in s.scheduled then [Vote(VOTER, c)] else []
  {
    hide IdHash, Ascends, ScheduledRank, VoteKeys;
    var keys, key := VoteKeys(s, chain, s.height), KeyAt(env, chain, s.height, c);
    if key in s.scheduled { SingleKey(keys, key); } else { HasFirst(keys); }
  }

  /** A chain with such a vote approves the cork; a chain without one approves nothing. */
  lemma OneVoteApproves(env: Env, s: State, c: Cork, chain: uint64)
    requires OnlyVotes(env, s, c)
    ensures ApprovedList(env, s, MAJORITY, chain) == if KeyAt(env, chain, s.height, c) in s.scheduled then [c] else []
  {
    hide IdHash, Approved, Votes, OnlyVotes, Tally, ApprovedCorks;
    OneVoteSeen(env, s, c, chain);
    TallyOne(env, MAJORITY.powers, c);
    NoEntries(env, MAJORITY);
    EightyApproved();
    OneGroup(c);
  }

  lemma OneGroup(c: Cork)
    ensures Approved(80, 100) ==> ApprovedCorks([Group(c, 80)], 100) == [c]
    ensures ApprovedCorks([], 100) == []
  {
    hide Approved;
    assert [Group(c, 80)][..0] == [];
  }

  lemma LastOfOne(env: Env, c: Cork, a: Address)
    ensures LastFor(env, [c], a) == if a == env.address(c.target) then Some(c) else None
    ensures LastFor(env, [], a) == None
  {}

  /** The winning corks after such a block: each voted chain's cork, and those that were there. */
  lemma VotedBlock(env: Env, s: State, c: Cork, gmp: string)
    requires ConfigsKeyed(s) && OwnContracts(env, s.winning) && OnlyVotes(env, s, c) && s.params == Settings(gmp)
    requires s.height < TIMEOUT && forall k :: k in s.winning ==> k.height <= s.height
    ensures var r := EndBlocker(env, s, MAJORITY, PastTimeout(s.height, Settings(gmp)));
            && r.Ok? && r.value == s.(scheduled := Unconsumed(s), winning := r.value.winning, results := r.value.results)
            && forall k: WinningKey :: Lookup(r.value.winning, k) ==
                 if k.chain in s.configs && k == WinningKey(k.chain, s.height, env.address(c.target)) && KeyAt(env, k.chain, s.height, c) in s.scheduled
                 then Some(c) else Lookup(s.winning, k)
  {
    hide IdHash, EndBlocker, PastTimeout, ApprovedList, LastFor, OwnContracts, ConfigsKeyed;
    var expires := PastTimeout(s.height, Settings(gmp));
    EndBlockerPanicsExactly(env, s, MAJORITY, expires);
    EndBlockerEffect(env, s, MAJORITY, expires);
    var r := EndBlocker(env, s, MAJORITY, expires);
    forall k: WinningKey ensures Lookup(r.value.winning, k) ==
                 if k.chain in s.configs && k == WinningKey(k.chain, s.height, env.address(c.target)) && KeyAt(env, k.chain, s.height, c) in s.scheduled
                 then Some(c) else Lookup(s.winning, k)
    {
      OneVoteApproves(env, s, c, k.chain);
      LastOfOne(env, c, k.contract);
      if k.height <= s.height { DeletesWithinTimeout(s.height, Settings(gmp), k); }
      assert Lookup(r.value.winning, k) == WinningAfter(env, s, MAJORITY, expires, s.winning, k, k.chain as nat in s.configs);
      if k.height > s.height { assert k !in s.winning; }
    }
  }

  /** The twin run between blocks: what is scheduled, and which winning corks there are. */
  ghost predicate TwinBlocks(env: Env, s: State, c: Cork, gmp: string, proxy: string, height: Height, scheduled: set<ScheduledKey>, winners: set<WinningKey>) {
    && s.height == height && s.params == Settings(gmp) && s.configs == TwinConfigs(proxy) && s.nonces == map[]
    && s.scheduled.Keys == scheduled && (forall k :: k in s.scheduled ==> s.scheduled[k] == c)
    && s.winning.Keys == winners && (forall k :: k in s.winning ==> s.winning[k] == c)
  }

  function Later(scheduled: set<ScheduledKey>, height: int): set<ScheduledKey> { set k | k in scheduled && k.height != height }

  function Won(scheduled: set<ScheduledKey>, height: uint64, contract: Address): set<WinningKey> {
    set k | k in scheduled && k.height == height :: WinningKey(k.chain, height, contract)
  }

  lemma TwinBlockEnds(env: Env, s: State, c: Cork, gmp: string, proxy: string, height: Height, scheduled: set<ScheduledKey>, winners: set<WinningKey>)
    requires TwinBlocks(env, s, c, gmp, proxy, height, scheduled, winners) && height < TIMEOUT
    requires forall k :: k in scheduled ==> k == KeyAt(env, k.chain, k.height, c) && (k.chain == 1 || k.chain == 2)
    requires forall k :: k in winners ==> k.contract == env.address(c.target) && k.height <= height
    ensures TwinBlocks(env, Next(env, s, BlockEnds(MAJORITY, height, gmp)), c, gmp, proxy, height + 1,
                       Later(scheduled, height), winners + Won(scheduled, height, env.address(c.target)))
  {
    hide IdHash, EndBlocker, PastTimeout, RelayCork, RelayProxyUpgrade, ScheduleCork, ValidateAxelarPacket, AddManagedCellars, RemoveManagedCellars,
         ProposeUpgrade, CancelUpgrade;
    VotedBlock(env, s, c, gmp);
    var t := Next(env, s, BlockEnds(MAJORITY, height, gmp));
    var r := EndBlocker(env, s, MAJORITY, PastTimeout(height, Settings(gmp)));
    assert t == r.value.(height := height + 1);
    assert t.scheduled.Keys == Later(scheduled, height);
    var after := winners + Won(scheduled, height, env.address(c.target));
    forall k: WinningKey ensures (k in t.winning <==> k in after) && (k in t.winning ==> t.winning[k] == c) {
      TwinWinner(env, s, t, c, gmp, proxy, height, scheduled, winners, k);
    }
  }

  lemma TwinWinner(env: Env, s: State, t: State, c: Cork, gmp: string, proxy: string, height: Height, scheduled: set<ScheduledKey>, winners: set<WinningKey>, k: WinningKey)
    requires TwinBlocks(env, s, c, gmp, proxy, height, scheduled, winners)
    requires forall q :: q in scheduled ==> q == KeyAt(env, q.chain, q.height, c) && (q.chain == 1 || q.chain == 2)
    requires Lookup(t.winning, k) ==
             if k.chain in s.configs && k == WinningKey(k.chain, height, env.address(c.target)) && KeyAt(env, k.chain, height, c) in s.scheduled
             then Some(c) else Lookup(s.winning, k)
    ensures k in t.winning <==> k in winners + Won(scheduled, height, env.address(c.target))
    ensures k in t.winning ==> t.winning[k] == c
  {
    hide IdHash;
    assert KeyAt(env, k.chain, height, c) in scheduled ==>
      k.chain in s.configs && WinningKey(KeyAt(env, k.chain, height, c).chain, height, env.address(c.target)) == WinningKey(k.chain, height, env.address(c.target));
    if k == WinningKey(k.chain, height, env.address(c.target)) && KeyAt(env, k.chain, height, c) in scheduled {
      assert k in t.winning;
    }
  }

  /** The keys of the three votes. */
  function TwinKeys(env: Env, c: Cork): set<ScheduledKey> { {KeyAt(env, 1, 2, c), KeyAt(env, 1, 3, c), KeyAt(env, 2, 2, c)} }

  lemma TwinSets(env: Env, c: Cork)
    ensures var all, a := TwinKeys(env, c), env.address(c.target);
            && Later(all, 1) == all && Won(all, 1, a) == {}
            && Later(all, 2) == {KeyAt(env, 1, 3, c)} && Won(all, 2, a) == {WinningKey(1, 2, a), WinningKey(2, 2, a)}
            && Won({KeyAt(env, 1, 3, c)}, 3, a) == {WinningKey(1, 3, a)}
  {
    hide IdHash;
    var x, y, z, a := KeyAt(env, 1, 2, c), KeyAt(env, 1, 3, c), KeyAt(env, 2, 2, c), env.address(c.target);
    assert x in TwinKeys(env, c) && z in TwinKeys(env, c) && y in {y};
    forall k ensures k in Won(TwinKeys(env, c), 2, a) <==> k in {WinningKey(1, 2, a), WinningKey(2, 2, a)} {}
    forall k ensures k in Won({y}, 3, a) <==> k in {WinningKey(1, 3, a)} {}
  }

  /** After the three votes and the three blocks, chain 1 holds two winning corks for the contract and chain 2 one. */
  lemma TwinReached(env: Env, c: Cork, gmp: string, proxy: string)
    requires ValidSetup(env, gmp, proxy)
    ensures Inv(env, TwinStart(env, c.target, gmp, proxy))
    ensures var now := After(env, TwinStart(env, c.target, gmp, proxy), TwinSteps(c, gmp), 6);
            Twins(env, now, c, gmp, proxy, {2, 3}) && now.nonces == map[]
  {
    hide IdHash, Next, Inv, TwinStart, Later, Won, TwinBlocks, ValidSetup;
    var s, steps, a := TwinStart(env, c.target, gmp, proxy), TwinSteps(c, gmp), env.address(c.target);
    TwinVotes(env, c, gmp, proxy);
    TwinSets(env, c);
    var t3, t4, t5 := After(env, s, steps, 3), After(env, s, steps, 4), After(env, s, steps, 5);
    assert t4 == Next(env, t3, steps[3]) && t5 == Next(env, t4, steps[4]) && After(env, s, steps, 6) == Next(env, t5, steps[5]);
    hide After;
    var two := {WinningKey(1, 2, a), WinningKey(2, 2, a)};
    TwinBlockEnds(env, t3, c, gmp, proxy, 1, TwinKeys(env, c), {});
    assert {} + Won(TwinKeys(env, c), 1, a) == {};
    TwinBlockEnds(env, t4, c, gmp, proxy, 2, TwinKeys(env, c), {});
    assert {} + Won(TwinKeys(env, c), 2, a) == two;
    TwinBlockEnds(env, t5, c, gmp, proxy, 3, {KeyAt(env, 1, 3, c)}, two);
    TwinsAre(env, After(env, s, steps, 6), c, gmp, proxy, Later({KeyAt(env, 1, 3, c)}, 3));
  }

  lemma TwinsAre(env: Env, s: State, c: Cork, gmp: string, proxy: string, scheduled: set<ScheduledKey>)
    requires var a := env.address(c.target);
             TwinBlocks(env, s, c, gmp, proxy, 4, scheduled, {WinningKey(1, 2, a), WinningKey(2, 2, a)} + {WinningKey(1, 3, a)})
    ensures Twins(env, s, c, gmp, proxy, {2, 3}) && s.nonces == map[]
  {
    var a := env.address(c.target);
    forall k ensures k in s.winning <==> TwinKey(a, {2, 3}, k) {
      assert k in s.winning <==> k in s.winning.Keys;
    }
  }

  lemma TwinVotes(env: Env, c: Cork, gmp: string, proxy: string)
    requires ValidSetup(env, gmp, proxy)
    ensures Inv(env, TwinStart(env, c.target, gmp, proxy))
    ensures TwinBlocks(env, After(env, TwinStart(env, c.target, gmp, proxy), TwinSteps(c, gmp), 3), c, gmp, proxy, 1, TwinKeys(env, c), {})
  {
    hide IdHash, EndBlocker, PastTimeout, Next;
    var s, steps := TwinStart(env, c.target, gmp, proxy), TwinSteps(c, gmp);
    var s1 := s.(scheduled := map[KeyAt(env, 1, 2, c) := c]);
    var s2 := s1.(scheduled := s1.scheduled[KeyAt(env, 1, 3, c) := c]);
    var s3 := s2.(scheduled := s2.scheduled[KeyAt(env, 2, 2, c) := c]);
    assert After(env, s, steps, 0) == s;
    Scheduled(env, s, 1, 2, c);
    assert After(env, s, steps, 1) == s1;
    Scheduled(env, s1, 1, 3, c);
    assert After(env, s, steps, 2) == s2;
    Scheduled(env, s2, 2, 2, c);
    assert After(env, s, steps, 3) == s3;
  }

  /** The winning corks: chain 2's at height 2, and those of chain 1 at the heights that are left. */
  ghost predicate Twins(env: Env, s: State, cork: Cork, gmp: string, proxy: string, left: set<uint64>) {
    && s.height == 4 && s.params == Settings(gmp) && s.configs == TwinConfigs(proxy)
    && (forall h :: h in left ==> h < 4)
    && (forall k :: k in s.winning <==> TwinKey(env.address(cork.target), left, k))
    && (forall k :: k in s.winning ==> s.winning[k] == cork)
  }

  predicate TwinKey(contract: Address, left: set<uint64>, k: WinningKey) {
    k.contract == contract && ((k.chain == 1 && k.height in left) || (k.chain == 2 && k.height == 2))
  }

  /** A relay on chain 2 succeeds and consumes the first of chain 1's corks; chain 2's own cork stays. */
  lemma TwinRelay(env: Env, s: State, cork: Cork, gmp: string, proxy: string, left: set<uint64>, first: uint64)
    requires Faithful(env) && env.isHex(proxy) && env.account(gmp).Some?
    requires Twins(env, s, cork, gmp, proxy, left) && first in left && forall h :: h in left ==> first <= h
    requires Nonce(s, 2, env.address(cork.target)) < 10
    ensures var step := Relay(2, cork.target, true, true);
            && Relays(env, s, step, 2, env.address(cork.target))
            && RelayHeight(s, 2, env.address(cork.target)) == 2
            && Twins(env, Next(env, s, step), cork, gmp, proxy, left - {first})
            && Nonce(Next(env, s, step), 2, env.address(cork.target)) == Nonce(s, 2, env.address(cork.target)) + 1
  {
    hide RelayCork, NextWinning, NamedChain, Twins, Nonce, Next, FirstOfName, ProxyMatches, Counted;
    var contract := env.address(cork.target);
    TwinReady(env, s, cork, gmp, proxy, left, first);
    RelayExactly(env, s, 2, cork.target, true, true);
    TwinNext(env, s, cork);
    TwinConsumed(env, s, cork, gmp, proxy, left, first);
    CountedNonce(s, 2, contract, 2, contract);
    SameNonces(Counted(s, 2, contract), Next(env, s, Relay(2, cork.target, true, true)), 2, contract);
  }

  lemma TwinNext(env: Env, s: State, cork: Cork)
    requires RelayCork(env, s, 2, cork.target, true, true).Ok?
    ensures Relays(env, s, Relay(2, cork.target, true, true), 2, env.address(cork.target))
    ensures Next(env, s, Relay(2, cork.target, true, true)) == RelayCork(env, s, 2, cork.target, true, true).value
  {
    hide RelayCork;
  }

  /** What a relay on chain 2 finds. */
  lemma TwinReady(env: Env, s: State, cork: Cork, gmp: string, proxy: string, left: set<uint64>, first: uint64)
    requires env.isHex(proxy) && env.account(gmp).Some?
    requires Twins(env, s, cork, gmp, proxy, left) && first in left && forall h :: h in left ==> first <= h
    requires Nonce(s, 2, env.address(cork.target)) < 10
    ensures ConfigsKeyed(s) && WinningShape(env, s) && 2 in s.configs
    ensures ValidAddresses(env, s, 2) && ProxyMatches(env, s, 2) && CanRelay(env, s, 2, cork.target, true, true)
    ensures var contract := env.address(cork.target);
            && NextWinning(s, 2, contract) == Some(WinningKey(2, 2, contract)) && Consumed(s, 2, contract) == Some(WinningKey(1, first, contract))
            && SameCallData(s, 2, contract)
  {
    hide NextWinning, NamedChain, Nonce, FirstOfName;
    var contract := env.address(cork.target);
    TwinNames(s, proxy);
    assert WinningKey(2, 2, contract) in s.winning && WinningKey(1, first, contract) in s.winning;
    var own, found := NextWinning(s, 2, contract), NextWinning(s, 1, contract);
    assert own == Some(WinningKey(2, 2, contract));
    assert found == Some(WinningKey(1, first, contract));
  }

  lemma TwinConsumed(env: Env, s: State, cork: Cork, gmp: string, proxy: string, left: set<uint64>, first: uint64)
    requires Twins(env, s, cork, gmp, proxy, left)
    ensures Twins(env, Counted(s, 2, env.address(cork.target)).(winning := s.winning - {WinningKey(1, first, env.address(cork.target))}),
                  cork, gmp, proxy, left - {first})
  {
    hide Nonce;
  }

  lemma TwinNames(s: State, proxy: string)
    requires s.configs == TwinConfigs(proxy) && ConfigsKeyed(s)
    ensures NamedChain(s, 2) == 1 && !FirstOfName(s, 2)
  {
    hide NamedChain;
    NameFinds(s, 2);
    assert s.configs[1].name == s.configs[2].name;
  }

  /** While a chain of lower id has the name, a relay consumes that chain's cork instead, and its own cork is relayed again:
      in a run from a state in which nothing is scheduled or approved, two successful relays on chain 2 take its cork of
      height 2 both times, and use up the two corks of chain 1. */
  lemma SameCorkRelayedTwice(env: Env, cork: Cork, gmp: string, proxy: string)
    requires ValidSetup(env, gmp, proxy) && ValidCork(env, cork)
    ensures var s, steps, contract := TwinStart(env, cork.target, gmp, proxy), TwinSteps(cork, gmp), env.address(cork.target);
            && Inv(env, s) && s.winning == map[] && s.scheduled == map[]
            && Relays(env, After(env, s, steps, 6), steps[6], 2, contract) && Relays(env, After(env, s, steps, 7), steps[7], 2, contract)
            && RelayHeight(After(env, s, steps, 6), 2, contract) == RelayHeight(After(env, s, steps, 7), 2, contract) == 2
            && After(env, s, steps, 6).winning.Keys == {WinningKey(1, 2, contract), WinningKey(1, 3, contract), WinningKey(2, 2, contract)}
            && After(env, s, steps, 8).winning.Keys == {WinningKey(2, 2, contract)}
  {
    hide Relays, RelayHeight, Next, Nonce, Twins, Inv, ValidSetup;
    var s, steps, contract := TwinStart(env, cork.target, gmp, proxy), TwinSteps(cork, gmp), env.address(cork.target);
    TwinReached(env, cork, gmp, proxy);
    var now, t := After(env, s, steps, 6), After(env, s, steps, 7);
    NoNonces(now, contract);
    ValidParts(env, gmp, proxy);
    assert t == Next(env, now, steps[6]) && After(env, s, steps, 8) == Next(env, t, steps[7]);
    hide After;
    TwinRelay(env, now, cork, gmp, proxy, {2, 3}, 2);
    TwinRelay(env, t, cork, gmp, proxy, {2, 3} - {2}, 3);
    TwinWinners(env, now, cork, gmp, proxy, {2, 3});
    TwinWinners(env, After(env, s, steps, 8), cork, gmp, proxy, {2, 3} - {2} - {3});
  }

  lemma ValidParts(env: Env, gmp: string, proxy: string)
    requires ValidSetup(env, gmp, proxy)
    ensures Faithful(env) && env.account(gmp).Some? && env.isHex(proxy)
  {}

  lemma TwinWinners(env: Env, s: State, cork: Cork, gmp: string, proxy: string, left: set<uint64>)
    requires Twins(env, s, cork, gmp, proxy, left)
    ensures var contract := env.address(cork.target);
            && (left == {2, 3} ==> s.winning.Keys == {WinningKey(1, 2, contract), WinningKey(1, 3, contract), WinningKey(2, 2, contract)})
            && (left == {} ==> s.winning.Keys == {WinningKey(2, 2, contract)})
  {
    forall k ensures k in s.winning.Keys <==> TwinKey(env.address(cork.target), left, k) {}
  }

  lemma NoNonces(s: State, contract: Address)
    requires s.nonces == map[]
    ensures Nonce(s, 2, contract) == 0
  {}
}
