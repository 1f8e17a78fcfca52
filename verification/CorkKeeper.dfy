/** The cork keeper: handlers that update the store step by step, proved against `CorkSpec`. */
module CorkKeeper {
  import opened AxelarProxy
  import opened BigEndian
  import opened CellarLists
  import opened Collections
  import opened CorkKeys
  import opened CorkSpec
  import opened CorkTally
  import opened CorkTypes
  import opened Integers
  import opened KeyOrder
  import opened Outcomes

  /** A handler ended the way the specification says. */
  predicate Same<T>(r: Checked<T>, spec: Checked<State>) {
    match spec
    case Ok(_) => r.Ok?
    case Fail(e) => r == Fail(e)
    case Panic(p) => r == Panic(p)
  }

  // ----- payload lists -----

  /** Parse each target, then encode. */
  method EncodeUpgradeArgs(env: Env, newProxy: string, targets: seq<string>) returns (payload: seq<Byte>)
    ensures payload == EncodeUpgrade(Upgrade(env.address(newProxy), Addresses(env, targets)))
  {
    var addresses: seq<Address> := [];
    for i := 0 to |targets|
      invariant addresses == Addresses(env, targets[..i])
    {
      addresses := addresses + [env.address(targets[i])];
    }
    assert targets[..|targets|] == targets;
    payload := EncodeUpgrade(Upgrade(env.address(newProxy), addresses));
  }

  datatype UpgradeArgs = UpgradeArgs(newProxy: string, targets: seq<string>)

  /** Decode, then print each target. */
  method DecodeUpgradeArgs(env: Env, data: seq<Byte>) returns (r: Result<UpgradeArgs, AbiError>)
    ensures match DecodeUpgrade(data)
            case Success(u) => r == Success(UpgradeArgs(env.text(u.newProxy), Texts(env, u.targets)))
            case Failure(e) => r == Failure(e)
  {
    var decoded := DecodeUpgrade(data);
    if decoded.Failure? { return Failure(decoded.error); }
    var u := decoded.value;
    var targets: seq<string> := [];
    for i := 0 to |u.targets|
      invariant targets == Texts(env, u.targets[..i])
    {
      targets := targets + [env.text(u.targets[i])];
    }
    assert u.targets[..|u.targets|] == u.targets;
    return Success(UpgradeArgs(env.text(u.newProxy), targets));
  }

  // ----- the tally's parallel lists -----

  ghost function Zip(corks: seq<Cork>, powers: seq<uint64>): (groups: seq<Group>)
    requires |corks| == |powers|
    ensures |groups| == |corks| && forall i :: 0 <= i < |corks| ==> groups[i] == Group(corks[i], powers[i])
  {
    seq(|corks|, i requires 0 <= i < |corks| => Group(corks[i], powers[i]))
  }

  /** Where a vote goes: to the first equal entry, or to a new one at the end. */
  lemma {:induction false} CountVotePlace(env: Env, groups: seq<Group>, cork: Cork, power: uint64, i: nat)
    requires i <= |groups| && forall j :: 0 <= j < i ==> !Equals(env, groups[j].cork, cork)
    requires i < |groups| ==> Equals(env, groups[i].cork, cork)
    ensures CountVote(env, groups, cork, power) ==
            if i < |groups| then groups[i := groups[i].(power := WrapUint64(groups[i].power + power))] else groups + [Group(cork, power)]
    decreases i
  {
    hide Equals;
    if i > 0 {
      assert groups[1..] == groups[1..][..i - 1] + groups[1..][i - 1..];
      CountVotePlace(env, groups[1..], cork, power, i - 1);
      assert groups == [groups[0]] + groups[1..];
    } else if groups != [] {
      assert groups == [groups[0]] + groups[1..];
    }
  }

  /** Add one vote to the two lists. */
  method AddVote(env: Env, corks: seq<Cork>, powers: seq<uint64>, cork: Cork, power: uint64)
    returns (corks': seq<Cork>, powers': seq<uint64>)
    requires |corks| == |powers|
    ensures |corks'| == |powers'| && Zip(corks', powers') == CountVote(env, Zip(corks, powers), cork, power)
  {
    hide CountVote;
    corks', powers' := corks, powers;
    ghost var groups := Zip(corks, powers);
    for i := 0 to |corks|
      invariant corks' == corks && powers' == powers
      invariant forall j :: 0 <= j < i ==> !Equals(env, corks[j], cork)
    {
      if Equals(env, corks[i], cork) {
        CountVotePlace(env, groups, cork, power, i);
        powers' := powers[i := WrapUint64(powers[i] + power)];
        assert Zip(corks', powers') == groups[i := groups[i].(power := WrapUint64(groups[i].power + power))];
        return;
      }
    }
    CountVotePlace(env, groups, cork, power, |corks|);
    corks' := corks + [cork];
    powers' := powers + [power];
    assert Zip(corks', powers') == groups + [Group(cork, power)];
  }

  class Keeper {
    const env: Env
    var height: Height
    var params: CorkParams
    var configs: map<nat, ChainConfig>
    var scheduled: map<ScheduledKey, Cork>
    var winning: map<WinningKey, Cork>
    var results: map<(uint64, Hash), CorkResult>
    var cellars: map<nat, seq<string>>
    var nonces: map<(uint64, Address), uint64>
    var upgrades: map<nat, UpgradeData>
    var subscriptions: map<(uint64, Address), string>

    function View(): State
      reads this
    {
      State(height, params, configs, scheduled, winning, results, cellars, nonces, upgrades, subscriptions)
    }

    constructor (env: Env, height: Height, params: CorkParams)
      ensures this.env == env
      ensures View() == State(height, params, map[], map[], map[], map[], map[], map[], map[], map[])
    {
      this.env, this.height, this.params := env, height, params;
      configs, scheduled, winning, results := map[], map[], map[], map[];
      cellars, nonces, upgrades, subscriptions := map[], map[], map[], map[];
    }

    // ----- cellars -----

    method GetCellarIDs(chain: uint64) returns (r: seq<Address>)
      ensures r == Cellars(env, View(), chain)
    {
      var ids := if chain in cellars then cellars[chain] else [];
      r := [];
      for i := 0 to |ids|
        invariant r == Addresses(env, ids[..i])
      {
        r := r + [env.address(ids[i])];
      }
      assert ids[..|ids|] == ids;
    }

    method HasCellarID(chain: uint64, address: Address) returns (found: bool)
      ensures found <==> address in Cellars(env, View(), chain)
    {
      found := false;
      var ids := GetCellarIDs(chain);
      for i := 0 to |ids|
        invariant !found && address !in ids[..i]
      {
        if ids[i] == address { return true; }
      }
    }

    // ----- scheduling and tallying -----

    method ScheduleCork(validator: Option<Validator>, chain: uint64, blockHeight: uint64, cork: Cork) returns (r: Checked<Hash>)
      modifies this`scheduled
      ensures Same(r, CorkSpec.ScheduleCork(env, old(View()), validator, chain, blockHeight, cork))
      ensures r.Ok? ==> View() == CorkSpec.ScheduleCork(env, old(View()), validator, chain, blockHeight, cork).value
      ensures r.Ok? ==> r.value == IdHash(env, cork, blockHeight)
      ensures !r.Ok? ==> View() == old(View())
    {
      hide Cellars, IdHash;
      if !params.enabled { return Fail(AxelarDisabled); }
      if validator.None? { return Fail(NotADelegate); }
      if chain !in configs { return Fail(ChainNotFound); }
      var config := configs[chain];
      var managed := HasCellarID(config.id, env.address(cork.target));
      if !managed { return Fail(UnmanagedCellarAddress); }
      if blockHeight <= height { return Fail(SchedulingInThePast); }
      var id := IdHash(env, cork, blockHeight);
      scheduled := scheduled[ScheduledKey(config.id, blockHeight, id, validator.value, env.address(cork.target)) := cork];
      return Ok(id);
    }

    /** The distinct heights, zero excepted, for which a chain has votes, ascending. */
    method GetScheduledBlockHeights(chain: uint64) returns (heights: seq<nat>)
      ensures heights == Sorted(set k | k in scheduled && k.chain == chain && k.height > 0 :: k.height as nat)
    {
      hide Sorted, ChainRank, HeightsUpTo;
      var keys := ScheduledKeys(View(), chain);
      heights := [];
      var latestHeight: nat := 0;
      NoHeights(keys);
      for i := 0 to |keys|
        invariant HeightsUpTo(keys, i, heights, latestHeight)
      {
        NextHeight(keys, i, heights, latestHeight);
        if keys[i].height > latestHeight { heights := heights + [keys[i].height]; }
        latestHeight := keys[i].height;
      }
      HeightsListed(View(), chain, keys, heights, latestHeight);
    }

    /** Count, consume and record the votes of a chain at the current height. */
    method GetApprovedScheduledAxelarCorks(staking: Staking, chain: uint64) returns (r: Checked<seq<Cork>>)
      modifies this`scheduled, this`results
      ensures Same(r, Strip(TallyChain(env, old(View()), staking, chain)))
      ensures r.Ok? ==> Tallied(View(), r.value) == TallyChain(env, old(View()), staking, chain).value
    {
      hide Tally, ApprovedCorks, StoreResults, VoteKeys, VotesFor, Known;
      var counted := CountVotes(staking, chain);
      if counted.IsFailure() { return counted.PropagateFailure(); }
      var corks, powers := counted.value.0, counted.value.1;
      if |powers| == 0 {
        NoneConsumed(env, old(View()), staking, chain);
        return Ok([]);
      }
      if staking.total == 0 { return Panic(DivisionByZero); }
      var approvedCorks := RecordResults(chain, staking.total, corks, powers);
      return Ok(approvedCorks);
    }

    /** Walk the votes in key order, adding each to the lists and deleting it. */
    method CountVotes(staking: Staking, chain: uint64) returns (r: Checked<(seq<Cork>, seq<uint64>)>)
      modifies this`scheduled
      ensures r == Panic(ValidatorNotFound) || (r.Ok? && |r.value.0| == |r.value.1|)
      ensures r.Ok? <==> Known(staking.powers, Votes(old(View()), chain))
      ensures r.Ok? ==> Zip(r.value.0, r.value.1) == Tally(env, staking.powers, Votes(old(View()), chain))
      ensures r.Ok? ==> View() == old(View()).(scheduled := old(scheduled) - ScheduledAt(old(View()), chain, height))
    {
      hide Tally, CountVote, ScheduledRank, Known, ScheduledAt, Zip, Visited, Equals, IdHash;
      ghost var before := View();
      var keys := VoteKeys(View(), chain, height);
      ghost var votes := VotesFor(before, keys);
      var corks: seq<Cork>, powers: seq<uint64> := [], [];
      NoVotes(env, staking.powers);
      NoneVisited(before, keys);
      assert votes[..0] == [];
      for i := 0 to |keys|
        invariant |corks| == |powers| && Known(staking.powers, votes[..i])
        invariant Zip(corks, powers) == Tally(env, staking.powers, votes[..i])
        invariant View() == before.(scheduled := before.scheduled - Visited(keys, i))
      {
        KeyNotVisited(keys, i);
        var key := keys[i];
        var cork := scheduled[key];
        if key.validator !in staking.powers {
          UnknownVoter(staking.powers, votes, i);
          return Panic(ValidatorNotFound);
        }
        corks, powers := AddVote(env, corks, powers, cork, staking.powers[key.validator]);
        TallyStep(env, staking.powers, votes, i);
        scheduled := scheduled - {key};
      }
      assert votes[..|keys|] == votes;
      AllVisited(before, chain, keys);
      return Ok((corks, powers));
    }

    /** Compare each share with the threshold, record the result, and collect what is approved. */
    method RecordResults(chain: uint64, total: nat, corks: seq<Cork>, powers: seq<uint64>) returns (approvedCorks: seq<Cork>)
      requires |corks| == |powers| && total > 0
      modifies this`results
      ensures results == StoreResults(env, old(results), chain, height, Zip(corks, powers), total)
      ensures approvedCorks == ApprovedCorks(Zip(corks, powers), total)
    {
      hide IdHash;
      ghost var groups := Zip(corks, powers);
      approvedCorks := [];
      for i := 0 to |powers|
        invariant results == StoreResults(env, old(results), chain, height, groups[..i], total)
        invariant approvedCorks == ApprovedCorks(groups[..i], total)
      {
        assert groups[..i + 1][..i] == groups[..i];
        var cork := corks[i];
        var approvalPercentage := Percentage(powers[i], total);
        var quorumReached := approvalPercentage > THRESHOLD;
        var result := CorkResult(cork, height, quorumReached, Decimal.Mul(approvalPercentage, Decimal.FromInt(100)));
        results := results[(chain, IdHash(env, cork, height)) := result];
        if quorumReached { approvedCorks := approvedCorks + [cork]; }
      }
      assert groups[..|powers|] == groups;
    }

    /** For every chain: tally, store the winners, and drop those that the timeout comparison names. */
    method EndBlocker(staking: Staking) returns (r: Checked<()>)
      modifies this`scheduled, this`results, this`winning
      ensures Same(r, CorkSpec.EndBlocker(env, old(View()), staking, PastTimeout(height, params)))
      ensures r.Ok? ==> View() == CorkSpec.EndBlocker(env, old(View()), staking, PastTimeout(height, params)).value
    {
      hide EndChain, Configs, Sorted, PastTimeout;
      var chains := Configs(configs);
      for i := 0 to |chains|
        invariant EndChains(env, old(View()), staking, PastTimeout(height, params), chains) ==
                  EndChains(env, View(), staking, PastTimeout(height, params), chains[i..])
      {
        assert chains[i..][1..] == chains[i + 1..];
        var ended := EndOneChain(staking, chains[i].id);
        if ended.IsFailure() { return ended; }
      }
      return Ok(());
    }

    method EndOneChain(staking: Staking, chain: uint64) returns (r: Checked<()>)
      modifies this`scheduled, this`results, this`winning
      ensures Same(r, EndChain(env, old(View()), staking, chain, PastTimeout(height, params)))
      ensures r.Ok? ==> View() == EndChain(env, old(View()), staking, chain, PastTimeout(height, params)).value
    {
      hide TallyChain, PastTimeout, Expire;
      var winners := GetApprovedScheduledAxelarCorks(staking, chain);
      if winners.IsFailure() { return winners.PropagateFailure(); }
      var corks := winners.value;
      for i := 0 to |corks|
        invariant winning == SetWinners(env, old(winning), chain, height, corks[..i])
        invariant Tallied(View().(winning := old(winning)), corks) == TallyChain(env, old(View()), staking, chain).value
      {
        assert corks[..i + 1][..i] == corks[..i];
        winning := winning[WinningKey(chain, height, env.address(corks[i].target)) := corks[i]];
      }
      assert corks[..|corks|] == corks;
      DropExpired(chain);
      return Ok(());
    }

    /** Delete, under the key computed from it, every winning cork of the chain at or above the timeout height. */
    method DropExpired(chain: uint64)
      modifies this`winning
      ensures winning == Expire(env, old(winning), chain, PastTimeout(height, params))
    {
      hide Dropped, Expire, WinningRank, Ascends, WrapUint64;
      var timeoutHeight := WrapUint64(height - params.corkTimeoutBlocks);
      var keys, stored := WinningKeys(View(), chain), winning;
      ghost var expires := PastTimeout(height, params);
      NoneDropped(env, stored, keys, expires);
      for i := 0 to |keys|
        invariant winning == stored - Dropped(env, stored, keys, i, expires)
      {
        assert keys[i] in keys;
        OneDropped(env, stored, keys, i, expires);
        if keys[i].height >= timeoutHeight {
          winning := winning - {WinningKey(keys[i].chain, keys[i].height, env.address(stored[keys[i]].target))};
        }
      }
      AllDropped(env, stored, chain, keys, expires);
    }

    // ----- relaying -----

    /** The first winning cork of the contract in key order. */
    method GetWinningAxelarCork(chain: uint64, contract: Address) returns (r: Option<WinningKey>)
      ensures r == NextWinning(View(), chain, contract)
    {
      var keys := WinningKeys(View(), chain);
      for i := 0 to |keys|
        invariant FirstFor(keys, contract) == FirstFor(keys[i..], contract)
      {
        if keys[i].contract == contract { return Some(keys[i]); }
        assert keys[i..][1..] == keys[i + 1..];
      }
      return None;
    }

    method IncrementNonce(chain: uint64, contract: Address) returns (nonce: uint64)
      modifies this`nonces
      ensures nonce == WrapUint64(Nonce(old(View()), chain, contract) + 1)
      ensures View() == old(View()).(nonces := old(nonces)[(chain, contract) := nonce])
    {
      var stored: uint64 := 0;
      if (chain, contract) in nonces { stored := nonces[(chain, contract)]; }
      nonce := WrapUint64(stored + 1);
      nonces := nonces[(chain, contract) := nonce];
    }

    method RelayCork(chain: uint64, target: string, funded: bool, sent: bool) returns (r: Checked<()>)
      modifies this`nonces, this`winning, this`upgrades
      ensures Same(r, CorkSpec.RelayCork(env, old(View()), chain, target, funded, sent))
      ensures r.Ok? ==> View() == CorkSpec.RelayCork(env, old(View()), chain, target, funded, sent).value
    {
      hide NextWinning, Nonce, EncodeLogicCall, CorkSpec.ValidateAxelarPacket;
      if !params.enabled { return Fail(AxelarDisabled); }
      if chain !in configs { return Fail(ChainNotFound); }
      var config := configs[chain];
      var found := GetWinningAxelarCork(config.id, env.address(target));
      if found.None? { return Fail(NoCorkFound); }
      if !funded { return Fail(InsufficientFunds); }
      var cork := winning[found.value];
      var nonce := IncrementNonce(chain, env.address(cork.target));
      var payload := EncodeLogicCall(LogicCall(env.address(target), nonce, cork.deadline, cork.call));
      var packet := Packet(env.moduleText, params.gmpAccount, Body(config.name, config.proxyAddress, payload));
      r := SendTransfer(packet, sent);
    }

    method RelayProxyUpgrade(chain: uint64, funded: bool, sent: bool) returns (r: Checked<()>)
      modifies this`winning, this`upgrades
      ensures Same(r, CorkSpec.RelayProxyUpgrade(env, old(View()), chain, funded, sent))
      ensures r.Ok? ==> View() == CorkSpec.RelayProxyUpgrade(env, old(View()), chain, funded, sent).value
    {
      hide CorkSpec.ValidateAxelarPacket;
      if !params.enabled { return Fail(AxelarDisabled); }
      if chain !in configs { return Fail(ChainNotFound); }
      if chain !in upgrades { return Fail(NoUpgradeFound); }
      if height < upgrades[chain].threshold { return Fail(NotYetExecutable); }
      if !funded { return Fail(InsufficientFunds); }
      var config := configs[chain];
      var packet := Packet(env.moduleText, params.gmpAccount, Body(config.name, config.proxyAddress, upgrades[chain].payload));
      r := SendTransfer(packet, sent);
      if r.IsFailure() { return; }
      upgrades := upgrades - {chain as nat};
    }

    /** The transfer runs the middleware on the packet before it is sent. */
    method SendTransfer(packet: Packet, sent: bool) returns (r: Checked<()>)
      modifies this`winning, this`upgrades
      ensures Same(r, Transfer(env, Outgoing(old(View()), packet), sent))
      ensures r.Ok? ==> View() == Transfer(env, Outgoing(old(View()), packet), sent).value
    {
      hide CorkSpec.ValidateAxelarPacket;
      var valid := ValidateAxelarPacket(params.ibcChannel, packet);
      if valid.IsFailure() { return valid; }
      if !sent { return Fail(TransferFailed); }
      return Ok(());
    }

    method ValidateAxelarPacket(channel: string, packet: Packet) returns (r: Checked<()>)
      modifies this`winning, this`upgrades
      ensures Same(r, CorkSpec.ValidateAxelarPacket(env, old(View()), channel, packet))
      ensures r.Ok? ==> View() == CorkSpec.ValidateAxelarPacket(env, old(View()), channel, packet).value
      ensures !r.Ok? ==> View() == old(View())
    {
      hide ConfigByName, CorkSpec.ValidatePayload;
      if !params.enabled { return Ok(()); }
      if channel != params.ibcChannel { return Ok(()); }
      if packet.NotJsonPacket? { return Fail(InvalidJson); }
      var gmp, receiver, sender := env.account(params.gmpAccount), env.account(packet.receiver), env.account(packet.sender);
      if gmp.None? { return Fail(InvalidGmpAccount); }
      if receiver.None? { return Fail(InvalidReceiver); }
      if sender.None? { return Fail(InvalidSender); }
      if receiver.value != gmp.value { return Ok(()); }
      if sender.value != env.moduleAccount { return Fail(SenderIsNotTheModule); }
      if packet.memo.NoMemo? { return Ok(()); }
      if packet.memo.NotJson? { return Fail(InvalidJson); }
      var config := GetChainConfigurationByName(packet.memo.destinationChain);
      if config.None? { return Fail(ChainNotFound); }
      if !env.isHex(config.value.proxyAddress) { return Fail(InvalidProxyAddress); }
      if !env.isHex(packet.memo.destinationAddress) { return Fail(InvalidDestination); }
      if env.address(packet.memo.destinationAddress) != env.address(config.value.proxyAddress) { return Fail(BypassesProxy); }
      r := ValidatePayload(config.value, packet.memo.payload);
    }

    method GetChainConfigurationByName(name: string) returns (r: Option<ChainConfig>)
      ensures r == ConfigByName(View(), name)
    {
      hide Sorted;
      var all := Configs(configs);
      for i := 0 to |all|
        invariant FirstNamed(all, name) == FirstNamed(all[i..], name)
      {
        if all[i].name == name { return Some(all[i]); }
        assert all[i..][1..] == all[i + 1..];
      }
      return None;
    }

    /** A logic call must match the contract's first winning cork, an upgrade the pending one; either is consumed. */
    method ValidatePayload(config: ChainConfig, payload: seq<Byte>) returns (r: Checked<()>)
      modifies this`winning, this`upgrades
      ensures Same(r, CorkSpec.ValidatePayload(env, old(View()), config, payload))
      ensures r.Ok? ==> View() == CorkSpec.ValidatePayload(env, old(View()), config, payload).value
      ensures !r.Ok? ==> View() == old(View())
    {
      hide DecodeLogicCall, DecodeUpgrade, NextWinning;
      var call := DecodeLogicCall(payload);
      if call.Success? {
        if call.value.nonce == 0 { return Fail(NonceCannotBeZero); }
        var found := GetWinningAxelarCork(config.id, env.address(env.text(call.value.target)));
        if found.None? { return Fail(NoCorkFound); }
        var cork := winning[found.value];
        if cork.call != call.value.callData { return Fail(CorkDoesNotMatch); }
        winning := winning - {WinningKey(config.id, found.value.height, env.address(cork.target))};
        return Ok(());
      }
      var upgrade := DecodeUpgradeArgs(env, payload);
      if upgrade.Failure? { return Fail(InvalidPayload); }
      ghost var u := DecodeUpgrade(payload).value;
      if !env.isHex(upgrade.value.newProxy) { return Fail(InvalidEvmAddress); }
      if |upgrade.value.targets| == 0 { return Fail(NoTargets); }
      for i := 0 to |upgrade.value.targets|
        invariant View() == old(View())
        invariant forall j :: 0 <= j < i ==> env.isHex(env.text(u.targets[j]))
      {
        if !env.isHex(upgrade.value.targets[i]) {
          assert u.targets[i] in u.targets;
          return Fail(InvalidEvmAddress);
        }
      }
      if config.id !in upgrades { return Fail(NoUpgradeFound); }
      if upgrades[config.id].payload != payload { return Fail(UpgradeDoesNotMatch); }
      upgrades := upgrades - {config.id as nat};
      return Ok(());
    }

    // ----- governance -----

    method HandleAddManagedCellars(chain: uint64, p: CellarIdSet, publisher: string, publisherFound: bool) returns (r: Checked<()>)
      modifies this`cellars, this`subscriptions
      ensures Same(r, AddManagedCellars(env, old(View()), chain, p, publisher, publisherFound))
      ensures r.Ok? ==> View() == AddManagedCellars(env, old(View()), chain, p, publisher, publisherFound).value
      ensures !r.Ok? ==> View() == old(View())
    {
      hide Cellars, CheckCellarIds, SortTexts, Subscribe, AddNew;
      if chain !in configs { return Fail(ChainNotFound); }
      var config := configs[chain];
      if !publisherFound { return Fail(PublisherNotFound); }
      var valid := CheckCellarIds(env, p);
      if valid.IsFailure() { return valid; }
      var before := GetCellarIDs(config.id);
      var addresses := before;
      NoneAdded(old(subscriptions), chain, before, publisher);
      assert Addresses(env, p.ids[..0]) == [];
      for i := 0 to |p.ids|
        invariant addresses == AddNew(before, Addresses(env, p.ids[..i]))
        invariant subscriptions == Subscribe(old(subscriptions), chain, before, Addresses(env, p.ids[..i]), publisher)
        invariant cellars == old(cellars)
      {
        assert Addresses(env, p.ids[..i + 1])[..i] == Addresses(env, p.ids[..i]);
        var proposed := env.address(p.ids[i]);
        OneMoreAdded(old(subscriptions), chain, before, Addresses(env, p.ids[..i + 1]), publisher);
        if proposed !in addresses {
          addresses := addresses + [proposed];
          subscriptions := subscriptions[(chain, proposed) := publisher];
        }
      }
      assert p.ids[..|p.ids|] == p.ids;
      assert subscriptions == Subscribe(old(subscriptions), chain, before, Addresses(env, p.ids), publisher);
      cellars := cellars[config.id as nat := SortTexts(Texts(env, addresses))];
      return Ok(());
    }

    method HandleRemoveManagedCellars(chain: uint64, p: CellarIdSet) returns (r: Checked<()>)
      modifies this`cellars, this`subscriptions
      ensures Same(r, RemoveManagedCellars(env, old(View()), chain, p))
      ensures r.Ok? ==> View() == RemoveManagedCellars(env, old(View()), chain, p).value
      ensures !r.Ok? ==> View() == old(View())
    {
      hide Cellars, CheckCellarIds, Without;
      if chain !in configs { return Fail(ChainNotFound); }
      var config := configs[chain];
      var valid := CheckCellarIds(env, p);
      if valid.IsFailure() { return valid; }
      var existing := GetCellarIDs(config.id);
      var gone := Addresses(env, p.ids);
      var output: seq<string> := [];
      NoneKept(gone);
      assert existing[..0] == [];
      for i := 0 to |existing|
        invariant output == Texts(env, Without(existing[..i], gone))
        invariant View() == old(View())
      {
        OneMoreKept(existing[..i + 1], gone);
        assert existing[..i + 1][..i] == existing[..i];
        if existing[i] !in gone { output := output + [env.text(existing[i])]; }
      }
      assert existing[..|existing|] == existing;
      assert output == Texts(env, Without(existing, gone));
      cellars := cellars[config.id as nat := output];
      assert gone[..0] == [];
      for i := 0 to |p.ids|
        invariant subscriptions == Unsubscribe(old(subscriptions), chain, gone[..i])
        invariant cellars == old(cellars)[config.id as nat := output]
      {
        assert gone[..i + 1][..i] == gone[..i];
        subscriptions := subscriptions - {(chain, env.address(p.ids[i]))};
      }
      assert gone[..|gone|] == gone;
      return Ok(());
    }

    method HandleUpgradeProposal(chain: uint64, newProxy: string) returns (r: Checked<()>)
      modifies this`upgrades
      ensures Same(r, ProposeUpgrade(env, old(View()), chain, newProxy))
      ensures r.Ok? ==> View() == ProposeUpgrade(env, old(View()), chain, newProxy).value
      ensures !r.Ok? ==> View() == old(View())
    {
      hide Cellars, EncodeUpgrade, WrapUint64, AsInt64;
      if chain !in configs { return Fail(ChainNotFound); }
      var ids := GetCellarIDs(chain);
      var texts: seq<string> := [];
      for i := 0 to |ids|
        invariant texts == Texts(env, ids[..i])
      {
        texts := texts + [env.text(ids[i])];
      }
      assert ids[..|ids|] == ids;
      var payload := EncodeUpgradeArgs(env, newProxy, texts);
      upgrades := upgrades[chain as nat := UpgradeData(chain, payload, AsInt64(WrapUint64(height + EXECUTABLE_HEIGHT_DELAY)))];
      return Ok(());
    }

    method HandleCancelProposal(chain: uint64) returns (r: Checked<()>)
      modifies this`upgrades
      ensures Same(r, CancelUpgrade(old(View()), chain))
      ensures r.Ok? ==> View() == CancelUpgrade(old(View()), chain).value
      ensures !r.Ok? ==> View() == old(View())
    {
      if chain !in configs { return Fail(ChainNotFound); }
      upgrades := upgrades - {chain as nat};
      return Ok(());
    }
  }

  // ----- the cellar loops -----

  lemma NoneAdded(subscriptions: map<(uint64, Address), string>, chain: uint64, xs: seq<Address>, publisher: string)
    ensures AddNew(xs, []) == xs && Subscribe(subscriptions, chain, xs, [], publisher) == subscriptions
  {}

  lemma OneMoreAdded(subscriptions: map<(uint64, Address), string>, chain: uint64, xs: seq<Address>, news: seq<Address>, publisher: string)
    requires news != []
    ensures var init, x := news[..|news| - 1], news[|news| - 1];
            var known, subscribed := AddNew(xs, init), Subscribe(subscriptions, chain, xs, init, publisher);
            && AddNew(xs, news) == (if x in known then known else known + [x])
            && Subscribe(subscriptions, chain, xs, news, publisher) == if x in known then subscribed else subscribed[(chain, x) := publisher]
  {}

  lemma NoneKept(gone: seq<Address>)
    ensures Without([], gone) == []
  {}

  lemma OneMoreKept(xs: seq<Address>, gone: seq<Address>)
    requires xs != []
    ensures var init, x := xs[..|xs| - 1], xs[|xs| - 1];
            Without(xs, gone) == Without(init, gone) + if x in gone then [] else [x]
  {}

  // ----- the expiry loop -----

  /** The keys deleted for the first `i` winning corks of the listing. */
  ghost function Dropped(env: Env, stored: map<WinningKey, Cork>, keys: seq<WinningKey>, i: nat, expires: WinningKey -> bool): set<WinningKey>
    requires i <= |keys| && forall k :: k in keys ==> k in stored
  {
    set j | 0 <= j < i && expires(keys[j]) :: WinningKey(keys[j].chain, keys[j].height, env.address(stored[keys[j]].target))
  }

  lemma NoneDropped(env: Env, stored: map<WinningKey, Cork>, keys: seq<WinningKey>, expires: WinningKey -> bool)
    requires forall k :: k in keys ==> k in stored
    ensures stored - Dropped(env, stored, keys, 0, expires) == stored
  {}

  lemma OneDropped(env: Env, stored: map<WinningKey, Cork>, keys: seq<WinningKey>, i: nat, expires: WinningKey -> bool)
    requires i < |keys| && forall k :: k in keys ==> k in stored
    ensures Dropped(env, stored, keys, i + 1, expires) == Dropped(env, stored, keys, i, expires) +
            if expires(keys[i]) then {WinningKey(keys[i].chain, keys[i].height, env.address(stored[keys[i]].target))} else {}
  {}

  lemma AllDropped(env: Env, stored: map<WinningKey, Cork>, chain: uint64, keys: seq<WinningKey>, expires: WinningKey -> bool)
    requires forall k :: k in keys <==> k in stored && k.chain == chain
    ensures stored - Dropped(env, stored, keys, |keys|, expires) == Expire(env, stored, chain, expires)
  {}

  /** The heights collected from the first `i` keys, and the last of them. */
  ghost predicate HeightsUpTo(keys: seq<ScheduledKey>, i: nat, heights: seq<nat>, latest: nat)
    requires i <= |keys|
  {
    && latest == (if i == 0 then 0 else keys[i - 1].height)
    && Ascending(heights)
    && (forall h :: h in heights ==> 0 < h <= latest && Collected(keys, i, h))
    && (forall j :: 0 <= j < i && keys[j].height > 0 ==> keys[j].height as nat in heights)
  }

  ghost predicate Collected(keys: seq<ScheduledKey>, i: nat, h: nat)
    requires i <= |keys|
  {
    exists j :: 0 <= j < i && keys[j].height == h
  }

  lemma NoHeights(keys: seq<ScheduledKey>)
    ensures HeightsUpTo(keys, 0, [], 0)
  {}

  lemma NextHeight(keys: seq<ScheduledKey>, i: nat, heights: seq<nat>, latest: nat)
    requires i < |keys| && HeightsUpTo(keys, i, heights, latest)
    requires Ascends(keys, ChainRank) && forall k :: k in keys ==> k.chain == keys[0].chain
    ensures HeightsUpTo(keys, i + 1, if keys[i].height > latest then heights + [keys[i].height] else heights, keys[i].height)
  {
    hide ChainRank;
    if i > 0 {
      assert keys[i - 1] in keys && keys[i] in keys;
      ScheduledChainOrder(keys[i - 1], keys[i]);
    }
    hide Ascends;
    if keys[i].height > latest { HigherHeight(keys, i, heights, latest); } else { SameHeight(keys, i, heights, latest); }
  }

  lemma StillCollected(keys: seq<ScheduledKey>, i: nat, h: nat)
    requires i < |keys| && Collected(keys, i, h)
    ensures Collected(keys, i + 1, h)
  {
    var j :| 0 <= j < i && keys[j].height == h;
    assert keys[j].height == h;
  }

  lemma HigherHeight(keys: seq<ScheduledKey>, i: nat, heights: seq<nat>, latest: nat)
    requires i < |keys| && HeightsUpTo(keys, i, heights, latest) && keys[i].height > latest
    ensures HeightsUpTo(keys, i + 1, heights + [keys[i].height], keys[i].height)
  {
    hide Collected;
    assert forall j :: 0 <= j < |heights| ==> heights[j] in heights;
    assert Collected(keys, i + 1, keys[i].height) by { CollectedNow(keys, i); }
    forall h | h in heights ensures Collected(keys, i + 1, h) { StillCollected(keys, i, h); }
  }

  lemma CollectedNow(keys: seq<ScheduledKey>, i: nat)
    requires i < |keys|
    ensures Collected(keys, i + 1, keys[i].height)
  {}

  lemma SameHeight(keys: seq<ScheduledKey>, i: nat, heights: seq<nat>, latest: nat)
    requires i < |keys| && HeightsUpTo(keys, i, heights, latest) && keys[i].height == latest
    ensures HeightsUpTo(keys, i + 1, heights, keys[i].height)
  {
    hide Collected;
    forall h | h in heights ensures Collected(keys, i + 1, h) { StillCollected(keys, i, h); }
    if keys[i].height > 0 { assert keys[i - 1].height as nat in heights; }
  }

  lemma HeightsListed(s: State, chain: uint64, keys: seq<ScheduledKey>, heights: seq<nat>, latest: nat)
    requires forall k :: k in keys <==> k in s.scheduled && k.chain == chain
    requires HeightsUpTo(keys, |keys|, heights, latest)
    ensures heights == Sorted(set k | k in s.scheduled && k.chain == chain && k.height > 0 :: k.height as nat)
  {
    hide Sorted, Ascending;
    var all := set k | k in s.scheduled && k.chain == chain && k.height > 0 :: k.height as nat;
    forall h: nat ensures h in heights <==> h in all {
      if h in heights {
        assert Collected(keys, |keys|, h);
        var j :| 0 <= j < |keys| && keys[j].height == h;
        assert keys[j] in keys;
      }
      if h in all {
        var k :| k in s.scheduled && k.chain == chain && k.height > 0 && k.height == h;
        assert k in keys;
      }
    }
    SortedUnique(heights, all);
  }

  // ----- the counting loop -----

  /** The state part of a tally's outcome. */
  ghost function Strip(r: Checked<Tallied>): Checked<State> {
    match r
    case Ok(t) => Ok(t.state)
    case Fail(e) => Fail(e)
    case Panic(p) => Panic(p)
  }

  ghost function Visited(keys: seq<ScheduledKey>, i: nat): set<ScheduledKey>
    requires i <= |keys|
  {
    set j | 0 <= j < i :: keys[j]
  }

  lemma NoneVisited(s: State, keys: seq<ScheduledKey>)
    ensures s.scheduled - Visited(keys, 0) == s.scheduled
  {}

  lemma AllVisited(s: State, chain: uint64, keys: seq<ScheduledKey>)
    requires forall k :: k in keys <==> k in s.scheduled && k.chain == chain && k.height == s.height
    ensures Visited(keys, |keys|) == ScheduledAt(s, chain, s.height)
  {}

  lemma KeyNotVisited(keys: seq<ScheduledKey>, i: nat)
    requires Ascends(keys, ScheduledRank) && i < |keys|
    ensures keys[i] !in Visited(keys, i) && Visited(keys, i + 1) == Visited(keys, i) + {keys[i]}
  {
    hide ScheduledRank;
  }

  lemma NoVotes(env: Env, powers: map<Validator, uint64>)
    ensures Known(powers, []) && Tally(env, powers, []) == [] && Zip([], []) == []
  {}

  lemma UnknownVoter(powers: map<Validator, uint64>, votes: seq<Vote>, i: nat)
    requires i < |votes| && votes[i].validator !in powers
    ensures !Known(powers, votes)
  {
    assert votes[i] in votes;
  }

  lemma TallyStep(env: Env, powers: map<Validator, uint64>, votes: seq<Vote>, i: nat)
    requires i < |votes| && Known(powers, votes[..i]) && votes[i].validator in powers
    ensures Known(powers, votes[..i + 1])
    ensures Tally(env, powers, votes[..i + 1]) ==
            CountVote(env, Tally(env, powers, votes[..i]), votes[i].cork, powers[votes[i].validator])
  {
    hide CountVote;
    assert votes[..i + 1] == votes[..i] + [votes[i]];
    assert votes[..i + 1][..i] == votes[..i];
  }

  /** Without entries there were no votes, and nothing was consumed. */
  lemma NoneConsumed(env: Env, s: State, staking: Staking, chain: uint64)
    requires Known(staking.powers, Votes(s, chain)) && Tally(env, staking.powers, Votes(s, chain)) == []
    ensures s.scheduled - ScheduledAt(s, chain, s.height) == s.scheduled
  {
    if Votes(s, chain) != [] { VotesMakeGroups(env, staking.powers, Votes(s, chain)); }
  }
}
