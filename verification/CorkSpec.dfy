/** The cork module's transitions as functions on its state. `CorkKeeper` implements them step by step. */
module CorkSpec {
  import opened AxelarProxy
  import opened BigEndian
  import opened CellarLists
  import opened Collections
  import opened CorkKeys
  import opened CorkTally
  import opened CorkTypes
  import opened Integers
  import opened KeyOrder
  import opened Outcomes

  /** 72 hours of blocks. */
  const EXECUTABLE_HEIGHT_DELAY := 72 * ((60 * 60) / 12)

  datatype State = State(
    height: Height,
    params: CorkParams,
    configs: map<nat, ChainConfig>,
    scheduled: map<ScheduledKey, Cork>,
    winning: map<WinningKey, Cork>,
    results: map<(uint64, Hash), CorkResult>,
    cellars: map<nat, seq<string>>,
    nonces: map<(uint64, Address), uint64>,
    upgrades: map<nat, UpgradeData>,
    subscriptions: map<(uint64, Address), string>)

  // ----- scheduling -----

  /** The cellars managed for a chain; none if nothing is stored. */
  function Cellars(env: Env, s: State, chain: uint64): seq<Address> {
    Addresses(env, if chain in s.cellars then s.cellars[chain] else [])
  }

  function SetScheduled(env: Env, s: State, chain: uint64, height: uint64, validator: Validator, cork: Cork): State {
    s.(scheduled := s.scheduled[ScheduledKey(chain, height, IdHash(env, cork, height), validator, env.address(cork.target)) := cork])
  }

  function ScheduleCork(env: Env, s: State, validator: Option<Validator>, chain: uint64, height: uint64, cork: Cork): Checked<State> {
    if !s.params.enabled then Fail(AxelarDisabled)
    else if validator.None? then Fail(NotADelegate)
    else if chain !in s.configs then Fail(ChainNotFound)
    else if env.address(cork.target) !in Cellars(env, s, s.configs[chain].id) then Fail(UnmanagedCellarAddress)
    else if height <= s.height then Fail(SchedulingInThePast)
    else Ok(SetScheduled(env, s, s.configs[chain].id, height, validator.value, cork))
  }

  // ----- tallying -----

  function ScheduledAt(s: State, chain: uint64, height: uint64): set<ScheduledKey> {
    set k | k in s.scheduled && k.chain == chain && k.height == height
  }

  lemma ScheduledRanked(s: State, chain: uint64, height: uint64)
    ensures Ranked(ScheduledAt(s, chain, height), ScheduledRank)
  {
    hide ScheduledRank;
    forall x, y | x in ScheduledAt(s, chain, height) && y in ScheduledAt(s, chain, height) && ScheduledRank(x) == ScheduledRank(y)
      ensures x == y
    {
      ScheduledOrder(x, y);
    }
  }

  /** The scheduled corks of a chain and height in the order of their store keys. */
  function VoteKeys(s: State, chain: uint64, height: uint64): (keys: seq<ScheduledKey>)
    ensures forall k :: k in keys <==> k in s.scheduled && k.chain == chain && k.height == height
    ensures Ascends(keys, ScheduledRank)
  {
    ScheduledRanked(s, chain, height);
    Listing(ScheduledAt(s, chain, height), ScheduledRank)
  }

  function ScheduledOn(s: State, chain: uint64): set<ScheduledKey> { set k | k in s.scheduled && k.chain == chain }

  lemma ChainRanked(s: State, chain: uint64)
    ensures Ranked(ScheduledOn(s, chain), ChainRank)
  {
    hide ChainRank;
    forall x, y | x in ScheduledOn(s, chain) && y in ScheduledOn(s, chain) && ChainRank(x) == ChainRank(y) ensures x == y {
      ScheduledChainOrder(x, y);
    }
  }

  /** All scheduled corks of a chain in the order of their store keys. */
  function ScheduledKeys(s: State, chain: uint64): (keys: seq<ScheduledKey>)
    ensures forall k :: k in keys <==> k in s.scheduled && k.chain == chain
    ensures Ascends(keys, ChainRank)
  {
    ChainRanked(s, chain);
    Listing(ScheduledOn(s, chain), ChainRank)
  }

  function VotesFor(s: State, keys: seq<ScheduledKey>): (votes: seq<Vote>)
    requires forall k :: k in keys ==> k in s.scheduled
    ensures |votes| == |keys| && forall i :: 0 <= i < |keys| ==> votes[i] == Vote(keys[i].validator, s.scheduled[keys[i]])
  {
    seq(|keys|, i requires 0 <= i < |keys| => Vote(keys[i].validator, s.scheduled[keys[i]]))
  }

  function Votes(s: State, chain: uint64): seq<Vote> { VotesFor(s, VoteKeys(s, chain, s.height)) }

  function StoreResults(env: Env, results: map<(uint64, Hash), CorkResult>, chain: uint64, height: uint64, groups: seq<Group>, total: nat)
    : map<(uint64, Hash), CorkResult>
    requires total > 0
  {
    if groups == [] then results else
      var g := groups[|groups| - 1];
      var stored := StoreResults(env, results, chain, height, groups[..|groups| - 1], total);
      stored[(chain, IdHash(env, g.cork, height)) :=
        CorkResult(g.cork, height, Approved(g.power, total), Decimal.Mul(Percentage(g.power, total), Decimal.FromInt(100)))]
  }

  datatype Tallied = Tallied(state: State, approved: seq<Cork>)

  /** Count and consume the votes of one chain at the current height, and record a result for each entry. */
  function TallyChain(env: Env, s: State, staking: Staking, chain: uint64): Checked<Tallied> {
    var votes := Votes(s, chain);
    if !Known(staking.powers, votes) then Panic(ValidatorNotFound) else
      var groups := Tally(env, staking.powers, votes);
      if groups == [] then Ok(Tallied(s, []))
      else if staking.total == 0 then Panic(DivisionByZero)
      else
        var results := StoreResults(env, s.results, chain, s.height, groups, staking.total);
        var left := s.scheduled - ScheduledAt(s, chain, s.height);
        Ok(Tallied(s.(scheduled := left, results := results), ApprovedCorks(groups, staking.total)))
  }

  /** Approved corks become winning corks of this height. */
  function SetWinners(env: Env, winning: map<WinningKey, Cork>, chain: uint64, height: uint64, corks: seq<Cork>): map<WinningKey, Cork> {
    if corks == [] then winning else
      var c := corks[|corks| - 1];
      SetWinners(env, winning, chain, height, corks[..|corks| - 1])[WinningKey(chain, height, env.address(c.target)) := c]
  }

  /** Drop the chain's winning corks that `expires` names; each is deleted under the key computed from it. */
  function Expire(env: Env, winning: map<WinningKey, Cork>, chain: uint64, expires: WinningKey -> bool): map<WinningKey, Cork> {
    winning - (set k | k in winning && k.chain == chain && expires(k) :: WinningKey(chain, k.height, env.address(winning[k].target)))
  }

  function EndChain(env: Env, s: State, staking: Staking, chain: uint64, expires: WinningKey -> bool): Checked<State> {
    var t :- TallyChain(env, s, staking, chain);
    var winning := SetWinners(env, t.state.winning, chain, s.height, t.approved);
    Ok(t.state.(winning := Expire(env, winning, chain, expires)))
  }

  function EndChains(env: Env, s: State, staking: Staking, expires: WinningKey -> bool, chains: seq<ChainConfig>): Checked<State>
    decreases |chains|
  {
    if chains == [] then Ok(s) else
      var s' :- EndChain(env, s, staking, chains[0].id, expires);
      EndChains(env, s', staking, expires, chains[1..])
  }

  /** All chain configurations in ascending id. */
  function Configs(configs: map<nat, ChainConfig>): seq<ChainConfig> { Values(configs, Sorted(configs.Keys)) }

  /** Tally every configured chain in turn, and drop its winning corks that `expires` names. */
  function EndBlocker(env: Env, s: State, staking: Staking, expires: WinningKey -> bool): Checked<State> {
    EndChains(env, s, staking, expires, Configs(s.configs))
  }

  /** The comparison that decides expiry in the code. */
  function PastTimeout(height: Height, params: CorkParams): WinningKey -> bool {
    (k: WinningKey) => k.height >= WrapUint64(height - params.corkTimeoutBlocks)
  }

  // ----- relaying -----

  function WinningOn(s: State, chain: uint64): set<WinningKey> { set k | k in s.winning && k.chain == chain }

  lemma WinningRanked(s: State, chain: uint64)
    ensures Ranked(WinningOn(s, chain), WinningRank)
  {
    hide WinningRank;
    forall x, y | x in WinningOn(s, chain) && y in WinningOn(s, chain) && WinningRank(x) == WinningRank(y) ensures x == y {
      WinningOrder(x, y);
    }
  }

  /** The winning corks of a chain in the order of their store keys. */
  function WinningKeys(s: State, chain: uint64): (keys: seq<WinningKey>)
    ensures forall k :: k in keys <==> k in s.winning && k.chain == chain
    ensures Ascends(keys, WinningRank)
  {
    WinningRanked(s, chain);
    Listing(WinningOn(s, chain), WinningRank)
  }

  function FirstFor(keys: seq<WinningKey>, contract: Address): (r: Option<WinningKey>)
    ensures r.None? ==> forall k :: k in keys ==> k.contract != contract
    ensures r.Some? ==> r.value in keys && r.value.contract == contract
    ensures r.Some? && Ascends(keys, WinningRank) ==>
              forall k :: k in keys && k.contract == contract ==> WinningRank(r.value) <= WinningRank(k)
  {
    if keys == [] then None
    else if keys[0].contract == contract then Some(keys[0])
    else FirstFor(keys[1..], contract)
  }

  /** The first winning cork of a contract in key order: the one with the lowest height. */
  function NextWinning(s: State, chain: uint64, contract: Address): (r: Option<WinningKey>)
    ensures r.None? ==> forall k :: k in s.winning ==> k.chain != chain || k.contract != contract
    ensures r.Some? ==> r.value in s.winning && r.value.chain == chain && r.value.contract == contract
    ensures r.Some? ==> forall k :: k in s.winning && k.chain == chain && k.contract == contract ==> r.value.height <= k.height
  {
    FirstFor(WinningKeys(s, chain), contract)
  }

  function Nonce(s: State, chain: uint64, contract: Address): uint64 {
    if (chain, contract) in s.nonces then s.nonces[(chain, contract)] else 0
  }

  /** A packet that is about to be sent, and the state it is sent in. */
  datatype Outgoing = Outgoing(state: State, packet: Packet)

  /** The module's own packet to a chain's proxy. */
  function ToProxy(env: Env, s: State, config: ChainConfig, payload: seq<Byte>): Packet {
    Packet(env.moduleText, s.params.gmpAccount, Body(config.name, config.proxyAddress, payload))
  }

  function PrepareRelay(env: Env, s: State, chain: uint64, target: string, funded: bool): Checked<Outgoing> {
    if !s.params.enabled then Fail(AxelarDisabled)
    else if chain !in s.configs then Fail(ChainNotFound)
    else match NextWinning(s, s.configs[chain].id, env.address(target))
    case None => Fail(NoCorkFound)
    case Some(key) =>
      if !funded then Fail(InsufficientFunds) else
        var config, cork := s.configs[chain], s.winning[key];
        var nonce := WrapUint64(Nonce(s, chain, env.address(cork.target)) + 1);
        var payload := EncodeLogicCall(LogicCall(env.address(target), nonce, cork.deadline, cork.call));
        Ok(Outgoing(s.(nonces := s.nonces[(chain, env.address(cork.target)) := nonce]),
                    ToProxy(env, s, config, payload)))
  }

  /** The transfer hands the packet to the middleware; `sent` tells whether everything else about it succeeds. */
  function Transfer(env: Env, out: Outgoing, sent: bool): Checked<State> {
    var s :- ValidateAxelarPacket(env, out.state, out.state.params.ibcChannel, out.packet);
    if sent then Ok(s) else Fail(TransferFailed)
  }

  function RelayCork(env: Env, s: State, chain: uint64, target: string, funded: bool, sent: bool): Checked<State> {
    var out :- PrepareRelay(env, s, chain, target, funded);
    Transfer(env, out, sent)
  }

  function PrepareUpgrade(env: Env, s: State, chain: uint64, funded: bool): Checked<Outgoing> {
    if !s.params.enabled then Fail(AxelarDisabled)
    else if chain !in s.configs then Fail(ChainNotFound)
    else if chain !in s.upgrades then Fail(NoUpgradeFound)
    else if s.height < s.upgrades[chain].threshold then Fail(NotYetExecutable)
    else if !funded then Fail(InsufficientFunds)
    else
      Ok(Outgoing(s, ToProxy(env, s, s.configs[chain], s.upgrades[chain].payload)))
  }

  function RelayProxyUpgrade(env: Env, s: State, chain: uint64, funded: bool, sent: bool): Checked<State> {
    var out :- PrepareUpgrade(env, s, chain, funded);
    var s' :- Transfer(env, out, sent);
    Ok(s'.(upgrades := s'.upgrades - {chain as nat}))
  }

  // ----- packet validation -----

  function FirstNamed(configs: seq<ChainConfig>, name: string): Option<ChainConfig> {
    if configs == [] then None
    else if configs[0].name == name then Some(configs[0])
    else FirstNamed(configs[1..], name)
  }

  function ConfigByName(s: State, name: string): Option<ChainConfig> { FirstNamed(Configs(s.configs), name) }

  /** Check an outgoing packet. Success may consume a winning cork or a pending upgrade. */
  function ValidateAxelarPacket(env: Env, s: State, channel: string, packet: Packet): Checked<State> {
    if !s.params.enabled || channel != s.params.ibcChannel then Ok(s)
    else match packet
    case NotJsonPacket => Fail(InvalidJson)
    case Packet(sender, receiver, memo) =>
      var gmp, to, from := env.account(s.params.gmpAccount), env.account(receiver), env.account(sender);
      if gmp.None? then Fail(InvalidGmpAccount)
      else if to.None? then Fail(InvalidReceiver)
      else if from.None? then Fail(InvalidSender)
      else if to != gmp then Ok(s)
      else if from.value != env.moduleAccount then Fail(SenderIsNotTheModule)
      else match memo
      case NoMemo => Ok(s)
      case NotJson => Fail(InvalidJson)
      case Body(chain, address, payload) => ValidateBody(env, s, chain, address, payload)
  }

  function ValidateBody(env: Env, s: State, destinationChain: string, destinationAddress: string, payload: seq<Byte>): Checked<State> {
    match ConfigByName(s, destinationChain)
    case None => Fail(ChainNotFound)
    case Some(config) =>
      if !env.isHex(config.proxyAddress) then Fail(InvalidProxyAddress)
      else if !env.isHex(destinationAddress) then Fail(InvalidDestination)
      else if env.address(destinationAddress) != env.address(config.proxyAddress) then Fail(BypassesProxy)
      else ValidatePayload(env, s, config, payload)
  }

  function ValidatePayload(env: Env, s: State, config: ChainConfig, payload: seq<Byte>): Checked<State> {
    match DecodeLogicCall(payload)
    case Success(call) => ConsumeCork(env, s, config, call)
    case Failure(_) =>
      match DecodeUpgrade(payload)
      case Success(upgrade) => ConsumeUpgrade(env, s, config, upgrade, payload)
      case Failure(_) => Fail(InvalidPayload)
  }

  function ConsumeCork(env: Env, s: State, config: ChainConfig, call: LogicCall): Checked<State> {
    if call.nonce == 0 then Fail(NonceCannotBeZero) else
    match NextWinning(s, config.id, env.address(env.text(call.target)))
    case None => Fail(NoCorkFound)
    case Some(key) =>
      if s.winning[key].call != call.callData then Fail(CorkDoesNotMatch)
      else Ok(s.(winning := s.winning - {WinningKey(config.id, key.height, env.address(s.winning[key].target))}))
  }

  function ConsumeUpgrade(env: Env, s: State, config: ChainConfig, upgrade: Upgrade, payload: seq<Byte>): Checked<State> {
    if !env.isHex(env.text(upgrade.newProxy)) then Fail(InvalidEvmAddress)
    else if upgrade.targets == [] then Fail(NoTargets)
    else if exists a :: a in upgrade.targets && !env.isHex(env.text(a)) then Fail(InvalidEvmAddress)
    else if config.id !in s.upgrades then Fail(NoUpgradeFound)
    else if s.upgrades[config.id].payload != payload then Fail(UpgradeDoesNotMatch)
    else Ok(s.(upgrades := s.upgrades - {config.id as nat}))
  }

  // ----- governance -----

  function CheckCellarIds(env: Env, p: CellarIdSet): Checked<()> {
    if p.chainId == 0 then Fail(ChainIdMustBeNonZero)
    else if exists id :: id in p.ids && !env.isHex(id) then Fail(InvalidEvmAddress)
    else Ok(())
  }

  function AddManagedCellars(env: Env, s: State, chain: uint64, p: CellarIdSet, publisher: string, publisherFound: bool): Checked<State> {
    if chain !in s.configs then Fail(ChainNotFound)
    else if !publisherFound then Fail(PublisherNotFound)
    else
      var _ :- CheckCellarIds(env, p);
      var id := s.configs[chain].id;
      var before, news := Cellars(env, s, id), Addresses(env, p.ids);
      Ok(s.(cellars := s.cellars[id as nat := SortTexts(Texts(env, AddNew(before, news)))],
            subscriptions := Subscribe(s.subscriptions, chain, before, news, publisher)))
  }

  /** Each cellar that is added gets the publisher as its default subscription. */
  function Subscribe(subscriptions: map<(uint64, Address), string>, chain: uint64, xs: seq<Address>, news: seq<Address>, publisher: string)
    : map<(uint64, Address), string>
  {
    if news == [] then subscriptions else
      var init, x := news[..|news| - 1], news[|news| - 1];
      var subscribed := Subscribe(subscriptions, chain, xs, init, publisher);
      if x in AddNew(xs, init) then subscribed else subscribed[(chain, x) := publisher]
  }

  function RemoveManagedCellars(env: Env, s: State, chain: uint64, p: CellarIdSet): Checked<State> {
    if chain !in s.configs then Fail(ChainNotFound)
    else
      var _ :- CheckCellarIds(env, p);
      var id := s.configs[chain].id;
      var gone := Addresses(env, p.ids);
      Ok(s.(cellars := s.cellars[id as nat := Texts(env, Without(Cellars(env, s, id), gone))],
            subscriptions := Unsubscribe(s.subscriptions, chain, gone)))
  }

  /** Every cellar that is listed loses its default subscription. */
  function Unsubscribe(subscriptions: map<(uint64, Address), string>, chain: uint64, gone: seq<Address>): map<(uint64, Address), string> {
    if gone == [] then subscriptions
    else Unsubscribe(subscriptions, chain, gone[..|gone| - 1]) - {(chain, gone[|gone| - 1])}
  }

  /** The upgrade a proposal passed now would store. */
  function UpgradeFor(env: Env, s: State, chain: uint64, newProxy: string): UpgradeData {
    var targets := Addresses(env, Texts(env, Cellars(env, s, chain)));
    UpgradeData(chain, EncodeUpgrade(Upgrade(env.address(newProxy), targets)), AsInt64(WrapUint64(s.height + EXECUTABLE_HEIGHT_DELAY)))
  }

  function ProposeUpgrade(env: Env, s: State, chain: uint64, newProxy: string): Checked<State> {
    if chain !in s.configs then Fail(ChainNotFound)
    else Ok(s.(upgrades := s.upgrades[chain as nat := UpgradeFor(env, s, chain, newProxy)]))
  }

  function CancelUpgrade(s: State, chain: uint64): Checked<State> {
    if chain !in s.configs then Fail(ChainNotFound)
    else Ok(s.(upgrades := s.upgrades - {chain as nat}))
  }
}
