/** Relaying: the packet a relay builds, checked by the validation that the transfer runs on it. */
module CorkRelay {
  import opened AxelarProxy
  import opened BigEndian
  import opened CellarLists
  import opened Collections
  import opened CorkSpec
  import opened CorkTypes
  import opened Integers
  import opened Outcomes

  // ----- the shape of the store -----

  ghost predicate ConfigsKeyed(s: State) {
    forall c :: c in s.configs ==> s.configs[c].id == c
  }

  /** Keys are computed from the cork they hold. */
  ghost predicate ScheduledShape(env: Env, s: State) {
    forall k :: k in s.scheduled ==>
      k.id == IdHash(env, s.scheduled[k], k.height) && k.contract == env.address(s.scheduled[k].target)
  }

  /** A winning cork lies under its own contract, at an earlier height. */
  ghost predicate WinningShape(env: Env, s: State) {
    forall k :: k in s.winning ==> k.contract == env.address(s.winning[k].target) && k.height < s.height
  }

  /** No configured chain of lower id has the chain's name. */
  ghost predicate FirstOfName(s: State, chain: nat) {
    chain in s.configs && forall c :: c in s.configs && c < chain ==> s.configs[c].name != s.configs[chain].name
  }

  /** The addresses that relaying to a chain depends on are well-formed. */
  ghost predicate ValidAddresses(env: Env, s: State, chain: nat) {
    && env.account(s.params.gmpAccount).Some?
    && chain in s.configs && env.isHex(s.configs[chain].proxyAddress)
  }

  // ----- lookup by name -----

  /** The entry at `j` is the first of that name. */
  ghost predicate FirstAt(configs: seq<ChainConfig>, name: string, j: int) {
    0 <= j < |configs| && configs[j].name == name && forall l :: 0 <= l < j ==> configs[l].name != name
  }

  /** The lookup returns the first entry of that name. */
  lemma {:induction false} FirstNamedFinds(configs: seq<ChainConfig>, name: string, i: nat)
    requires i < |configs| && configs[i].name == name
    ensures exists j :: j <= i && FirstAt(configs, name, j) && FirstNamed(configs, name) == Some(configs[j])
  {
    if configs[0].name == name {
      assert FirstAt(configs, name, 0);
    } else {
      FirstNamedFinds(configs[1..], name, i - 1);
      var j :| j <= i - 1 && FirstAt(configs[1..], name, j) && FirstNamed(configs[1..], name) == Some(configs[1..][j]);
      forall l | 0 <= l < j + 1 ensures configs[l].name != name {
        if l > 0 { assert configs[1..][l - 1] == configs[l]; }
      }
      assert FirstAt(configs, name, j + 1);
    }
  }

  /** The first configuration of a name, in ascending id. */
  lemma NamedFirst(s: State, chain: nat)
    requires ConfigsKeyed(s) && chain in s.configs
    ensures var name := s.configs[chain].name;
            && ConfigByName(s, name).Some?
            && var id := ConfigByName(s, name).value.id as nat;
               && id in s.configs && s.configs[id] == ConfigByName(s, name).value && s.configs[id].name == name && id <= chain
               && forall c :: c in s.configs && c < id ==> s.configs[c].name != name
  {
    hide Sorted, FirstNamed;
    var ids, list, name := Sorted(s.configs.Keys), Configs(s.configs), s.configs[chain].name;
    assert chain in ids;
    var i :| 0 <= i < |ids| && ids[i] == chain;
    FirstNamedFinds(list, name, i);
    var j :| j <= i && FirstAt(list, name, j) && FirstNamed(list, name) == Some(list[j]);
    assert ids[j] in s.configs.Keys && list[j].id == ids[j];
    forall c | c in s.configs && c < ids[j] ensures s.configs[c].name != name {
      assert c in ids;
      var l :| 0 <= l < |ids| && ids[l] == c;
      assert l < j;
    }
  }

  /** The chain that the validation takes a packet for `chain` to be meant for. */
  function NamedChain(s: State, chain: nat): (c: uint64)
    requires ConfigsKeyed(s) && chain in s.configs
    ensures c as nat in s.configs
  {
    NamedFirst(s, chain);
    ConfigByName(s, s.configs[chain].name).value.id
  }

  /** A packet is checked against the chain of its name with the lowest id, which is its own chain exactly when no
      configured chain of lower id has the name. */
  lemma NameFinds(s: State, chain: nat)
    requires ConfigsKeyed(s) && chain in s.configs
    ensures ConfigByName(s, s.configs[chain].name) == Some(s.configs[NamedChain(s, chain)])
    ensures s.configs[NamedChain(s, chain)].name == s.configs[chain].name
    ensures FirstOfName(s, NamedChain(s, chain)) && NamedChain(s, chain) <= chain
    ensures NamedChain(s, chain) as nat == chain <==> FirstOfName(s, chain)
  {
    hide ConfigByName;
    NamedFirst(s, chain);
  }

  // ----- the module's own packets -----

  /** The chain that the name finds has a well-formed proxy address, the same as the chain's own. */
  ghost predicate ProxyMatches(env: Env, s: State, chain: nat)
    requires ConfigsKeyed(s) && chain in s.configs
  {
    SameProxy(env, s.configs[chain], s.configs[NamedChain(s, chain)])
  }

  ghost predicate SameProxy(env: Env, config: ChainConfig, named: ChainConfig) {
    env.isHex(named.proxyAddress) && env.address(named.proxyAddress) == env.address(config.proxyAddress)
  }

  lemma PacketTo(env: Env, s: State, chain: uint64, payload: seq<Byte>, named: ChainConfig)
    requires chain in s.configs && s.params.enabled && ConfigByName(s, s.configs[chain].name) == Some(named)
    ensures var r := ValidateAxelarPacket(env, s, s.params.ibcChannel, ToProxy(env, s, s.configs[chain], payload));
            && (r.Ok? ==> ValidAddresses(env, s, chain) && SameProxy(env, s.configs[chain], named) && r == ValidatePayload(env, s, named, payload))
            && (env.account(env.moduleText) == Some(env.moduleAccount) && ValidAddresses(env, s, chain) && SameProxy(env, s.configs[chain], named) ==>
                  r == ValidatePayload(env, s, named, payload))
  {
    hide ConfigByName, ValidatePayload;
  }

  /** A packet that the module sends to a chain's proxy is judged by its payload, against the chain its name finds. */
  lemma OwnPacket(env: Env, s: State, chain: uint64, payload: seq<Byte>)
    requires ConfigsKeyed(s) && chain in s.configs && s.params.enabled
    ensures var r := ValidateAxelarPacket(env, s, s.params.ibcChannel, ToProxy(env, s, s.configs[chain], payload));
            && (r.Ok? ==> ValidAddresses(env, s, chain) && ProxyMatches(env, s, chain))
            && (r.Ok? ==> r == ValidatePayload(env, s, s.configs[NamedChain(s, chain)], payload))
            && (Faithful(env) && ValidAddresses(env, s, chain) && ProxyMatches(env, s, chain) ==>
                  r == ValidatePayload(env, s, s.configs[NamedChain(s, chain)], payload))
  {
    hide ValidateAxelarPacket, ValidatePayload, FirstOfName, NamedChain, ConfigByName, ToProxy, ValidAddresses, SameProxy;
    NameFinds(s, chain);
    PacketTo(env, s, chain, payload, s.configs[NamedChain(s, chain)]);
  }

  /** A chain whose name finds it has its own proxy. */
  lemma FirstMatches(env: Env, s: State, chain: uint64)
    requires ConfigsKeyed(s) && FirstOfName(s, chain) && ValidAddresses(env, s, chain)
    ensures NamedChain(s, chain) == chain && ProxyMatches(env, s, chain)
  {
    hide FirstOfName, NamedChain;
    NameFinds(s, chain);
  }

  /** The logic call that relays a winning cork. */
  function CallFor(s: State, key: WinningKey, nonce: uint64): LogicCall
    requires key in s.winning
  {
    LogicCall(key.contract, nonce, s.winning[key].deadline, s.winning[key].call)
  }

  /** Its own call, decoded: the first winning cork of the contract is consumed unless the nonce is zero. */
  lemma OwnCall(env: Env, s: State, config: ChainConfig, key: WinningKey, nonce: uint64)
    requires Faithful(env) && WinningShape(env, s)
    requires key in s.winning && NextWinning(s, config.id, key.contract) == Some(key)
    ensures ValidatePayload(env, s, config, EncodeLogicCall(CallFor(s, key, nonce))) ==
            if nonce == 0 then Fail(NonceCannotBeZero) else Ok(s.(winning := s.winning - {key}))
  {
    hide NextWinning, EncodeLogicCall, DecodeLogicCall, DecodeUpgrade, ConsumeUpgrade;
    var call := CallFor(s, key, nonce);
    LogicCallSize(call);
    LogicCallRoundTrip(call);
    assert env.address(env.text(key.contract)) == key.contract;
  }

  lemma LogicCallSize(c: LogicCall)
    ensures |EncodeLogicCall(c)| <= 223 + |c.callData|
  {
    hide Word;
  }

  /** The nonces do not matter to the winning corks. */
  lemma NextWinningReadsWinning(s: State, t: State, chain: uint64, contract: Address)
    requires s.winning == t.winning
    ensures NextWinning(s, chain, contract) == NextWinning(t, chain, contract)
  {
    assert WinningOn(s, chain) == WinningOn(t, chain);
  }

  /** What a successful relay does: the next nonce is used up, and exactly the contract's lowest winning cork is gone. */
  function Relayed(s: State, chain: uint64, key: WinningKey): State {
    s.(nonces := s.nonces[(chain, key.contract) := WrapUint64(Nonce(s, chain, key.contract) + 1)],
       winning := s.winning - {key})
  }

  /** What a relay needs besides well-formed addresses. */
  ghost predicate CanRelay(env: Env, s: State, chain: uint64, target: string, funded: bool, sent: bool) {
    && s.params.enabled && funded && sent
    && NextWinning(s, chain, env.address(target)).Some?
    && Nonce(s, chain, env.address(target)) != UINT64_LIMIT - 1
  }

  /** The state in which the packet of a relay is checked. */
  function Counted(s: State, chain: uint64, contract: Address): State {
    s.(nonces := s.nonces[(chain, contract) := WrapUint64(Nonce(s, chain, contract) + 1)])
  }

  /** The packet of a relay carries the contract's first winning cork and the next nonce. */
  lemma RelayPacket(env: Env, s: State, chain: uint64, target: string, funded: bool)
    requires ConfigsKeyed(s) && WinningShape(env, s)
    ensures PrepareRelay(env, s, chain, target, funded).Ok? <==>
              s.params.enabled && chain in s.configs && funded && NextWinning(s, chain, env.address(target)).Some?
    ensures PrepareRelay(env, s, chain, target, funded).Ok? ==>
              var key, nonce := NextWinning(s, chain, env.address(target)).value, WrapUint64(Nonce(s, chain, env.address(target)) + 1);
              PrepareRelay(env, s, chain, target, funded).value ==
              Outgoing(Counted(s, chain, env.address(target)), ToProxy(env, s, s.configs[chain], EncodeLogicCall(CallFor(s, key, nonce))))
  {
    hide NextWinning, EncodeLogicCall, Nonce;
  }

  /** A relay's payload, checked against any chain: that chain's first winning cork for the contract is consumed if it
      has the same call data and the nonce is not zero. */
  lemma CallAgainst(env: Env, s: State, config: ChainConfig, key: WinningKey, nonce: uint64)
    requires Faithful(env) && WinningShape(env, s) && key in s.winning
    ensures var r, found := ValidatePayload(env, s, config, EncodeLogicCall(CallFor(s, key, nonce))), NextWinning(s, config.id, key.contract);
            && (r.Ok? <==> nonce != 0 && found.Some? && s.winning[found.value].call == s.winning[key].call)
            && (r.Ok? ==> r.value == s.(winning := s.winning - {found.value}))
  {
    hide NextWinning, EncodeLogicCall, DecodeLogicCall, DecodeUpgrade, ConsumeUpgrade;
    var call := CallFor(s, key, nonce);
    LogicCallSize(call);
    LogicCallRoundTrip(call);
    assert env.address(env.text(key.contract)) == key.contract;
  }

  /** The cork that a relay consumes: the first winning cork for the contract on the chain that the name finds. */
  function Consumed(s: State, chain: uint64, contract: Address): Option<WinningKey>
    requires ConfigsKeyed(s) && chain in s.configs
  {
    NextWinning(s, NamedChain(s, chain), contract)
  }

  /** The consumed cork has the call data of the one that is sent. */
  ghost predicate SameCallData(s: State, chain: uint64, contract: Address)
    requires ConfigsKeyed(s) && chain in s.configs && NextWinning(s, chain, contract).Some?
  {
    Consumed(s, chain, contract).Some?
    && s.winning[Consumed(s, chain, contract).value].call == s.winning[NextWinning(s, chain, contract).value].call
  }

  /** The packet of a relay, checked. */
  lemma RelayChecked(env: Env, s: State, chain: uint64, contract: Address)
    requires Faithful(env) && ConfigsKeyed(s) && WinningShape(env, s)
    requires s.params.enabled && chain in s.configs && NextWinning(s, chain, contract).Some?
    ensures var t, key := Counted(s, chain, contract), NextWinning(s, chain, contract).value;
            var payload := EncodeLogicCall(CallFor(s, key, WrapUint64(Nonce(s, chain, contract) + 1)));
            var r := ValidateAxelarPacket(env, t, t.params.ibcChannel, ToProxy(env, s, s.configs[chain], payload));
            && (r.Ok? <==>
                  ValidAddresses(env, s, chain) && ProxyMatches(env, s, chain)
                  && Nonce(s, chain, contract) != UINT64_LIMIT - 1 && SameCallData(s, chain, contract))
            && (r.Ok? ==> r.value == t.(winning := s.winning - {Consumed(s, chain, contract).value}))
  {
    hide NextWinning, EncodeLogicCall, ValidateAxelarPacket, ValidatePayload, Nonce, NamedChain, FirstOfName, ConfigByName, Faithful, SameProxy;
    var t := Counted(s, chain, contract);
    var key, nonce := NextWinning(s, chain, contract).value, WrapUint64(Nonce(s, chain, contract) + 1);
    SameNames(s, t, chain);
    OwnPacket(env, t, chain, EncodeLogicCall(CallFor(s, key, nonce)));
    CallAgainst(env, t, s.configs[NamedChain(s, chain)], key, nonce);
    NextWinningReadsWinning(s, t, NamedChain(s, chain), contract);
    ConfigKeyed(s, NamedChain(s, chain));
  }

  lemma ConfigKeyed(s: State, chain: nat)
    requires ConfigsKeyed(s) && chain in s.configs
    ensures s.configs[chain].id == chain
  {}

  lemma SameNames(s: State, t: State, chain: nat)
    requires s.configs == t.configs && chain in s.configs && ConfigsKeyed(s)
    ensures NamedChain(s, chain) == NamedChain(t, chain)
  {}

  /** Exactly when a relay succeeds, whatever the names, and what it then does: the next nonce is used up, and the first
      winning cork for the contract on the chain that the name finds is gone. */
  lemma RelayExactly(env: Env, s: State, chain: uint64, target: string, funded: bool, sent: bool)
    requires Faithful(env) && ConfigsKeyed(s) && WinningShape(env, s)
    ensures RelayCork(env, s, chain, target, funded, sent).Ok? <==>
              CanRelay(env, s, chain, target, funded, sent) && ValidAddresses(env, s, chain) && ProxyMatches(env, s, chain)
              && SameCallData(s, chain, env.address(target))
    ensures RelayCork(env, s, chain, target, funded, sent).Ok? ==>
              RelayCork(env, s, chain, target, funded, sent).value ==
              Counted(s, chain, env.address(target)).(winning := s.winning - {Consumed(s, chain, env.address(target)).value})
  {
    hide NextWinning, EncodeLogicCall, ValidateAxelarPacket, Nonce, NamedChain, PrepareRelay, ProxyMatches, SameCallData, Consumed,
         Faithful, WinningShape, ConfigsKeyed, CallFor;
    RelayPacket(env, s, chain, target, funded);
    if s.params.enabled && chain in s.configs && NextWinning(s, chain, env.address(target)).Some? {
      RelayChecked(env, s, chain, env.address(target));
    }
  }

  /** The packet a relay builds passes the validation and consumes exactly the cork it was built from, if and only if no
      configured chain of lower id has the chain's name. */
  lemma RelayThenValidate(env: Env, s: State, chain: uint64, target: string, funded: bool, sent: bool)
    requires Faithful(env) && ValidAddresses(env, s, chain)
    requires ConfigsKeyed(s) && WinningShape(env, s)
    ensures RelayCork(env, s, chain, target, funded, sent).Ok? ==> CanRelay(env, s, chain, target, funded, sent)
    ensures CanRelay(env, s, chain, target, funded, sent) ==>
              (RelayCork(env, s, chain, target, funded, sent) ==
                 Ok(Relayed(s, chain, NextWinning(s, chain, env.address(target)).value))
               <==> FirstOfName(s, chain))
  {
    hide NextWinning, RelayCork, Nonce, NamedChain, FirstOfName, CanRelay, Faithful, WinningShape, ConfigsKeyed, ConfigByName, ProxyMatches;
    NameFinds(s, chain);
    RelayExactly(env, s, chain, target, funded, sent);
    var r := RelayCork(env, s, chain, target, funded, sent);
    if CanRelay(env, s, chain, target, funded, sent) {
      SomethingToRelay(env, s, chain, target, funded, sent);
      if FirstOfName(s, chain) { FirstMatches(env, s, chain); }
      if r.Ok? && !FirstOfName(s, chain) {
        var key := NextWinning(s, chain, env.address(target)).value;
        assert key in r.value.winning && key !in Relayed(s, chain, key).winning;
      }
    }
  }

  lemma SomethingToRelay(env: Env, s: State, chain: uint64, target: string, funded: bool, sent: bool)
    requires CanRelay(env, s, chain, target, funded, sent)
    ensures NextWinning(s, chain, env.address(target)).Some?
  {}

  // ----- upgrades -----

  /** A chain's pending upgrade has this payload. */
  ghost predicate Pending(s: State, chain: nat, u: Upgrade) {
    chain in s.upgrades && s.upgrades[chain].payload == EncodeUpgrade(u)
  }

  /** What relaying a pending upgrade needs besides well-formed addresses. */
  ghost predicate CanUpgrade(s: State, chain: uint64, funded: bool, sent: bool, u: Upgrade) {
    s.params.enabled && funded && sent && Pending(s, chain, u) && s.upgrades[chain].threshold <= s.height && u.targets != []
  }

  /** Exactly when a pending upgrade is relayed, whatever the names: it is due, funded, sent and has targets, and the chain
      that the name finds has the same one pending. Both are then gone. */
  lemma RelayUpgradeExactly(env: Env, s: State, chain: uint64, funded: bool, sent: bool, u: Upgrade)
    requires Faithful(env) && ConfigsKeyed(s) && chain in s.configs
    requires Pending(s, chain, u) && |EncodeUpgrade(u)| < INT64_LIMIT
    ensures RelayProxyUpgrade(env, s, chain, funded, sent).Ok? <==>
              CanUpgrade(s, chain, funded, sent, u) && ValidAddresses(env, s, chain) && ProxyMatches(env, s, chain)
              && Pending(s, NamedChain(s, chain), u)
    ensures RelayProxyUpgrade(env, s, chain, funded, sent).Ok? ==>
              RelayProxyUpgrade(env, s, chain, funded, sent).value ==
              s.(upgrades := s.upgrades - {NamedChain(s, chain) as nat, chain as nat})
  {
    hide ValidateAxelarPacket, ValidatePayload, EncodeUpgrade, NamedChain, ProxyMatches;
    if s.params.enabled {
      var named := NamedChain(s, chain);
      OwnPacket(env, s, chain, s.upgrades[chain].payload);
      ConfigKeyed(s, named);
      UpgradeAgainst(env, s, s.configs[named], u);
      assert s.upgrades - {named as nat} - {chain as nat} == s.upgrades - {named as nat, chain as nat};
    }
  }

  /** An upgrade's payload, checked against any chain. */
  lemma UpgradeAgainst(env: Env, s: State, config: ChainConfig, u: Upgrade)
    requires Faithful(env) && |EncodeUpgrade(u)| < INT64_LIMIT
    ensures var r := ValidatePayload(env, s, config, EncodeUpgrade(u));
            && (r.Ok? <==> u.targets != [] && Pending(s, config.id, u))
            && (r.Ok? ==> r.value == s.(upgrades := s.upgrades - {config.id as nat}))
  {
    hide EncodeUpgrade, DecodeLogicCall, DecodeUpgrade, ConsumeCork;
    UpgradeRoundTrip(u);
    NeverBoth(EncodeUpgrade(u));
  }

  /** With well-formed addresses, a due upgrade is relayed and removed alone if and only if no configured chain of lower
      id has the chain's name. */
  lemma UpgradeThenValidate(env: Env, s: State, chain: uint64, funded: bool, sent: bool, u: Upgrade)
    requires Faithful(env) && ConfigsKeyed(s) && ValidAddresses(env, s, chain)
    requires CanUpgrade(s, chain, funded, sent, u) && |EncodeUpgrade(u)| < INT64_LIMIT
    ensures RelayProxyUpgrade(env, s, chain, funded, sent) == Ok(s.(upgrades := s.upgrades - {chain as nat})) <==> FirstOfName(s, chain)
  {
    hide RelayProxyUpgrade, EncodeUpgrade, NamedChain, FirstOfName, ConfigsKeyed, ConfigByName, Faithful;
    NameFinds(s, chain);
    RelayUpgradeExactly(env, s, chain, funded, sent, u);
    var named, r := NamedChain(s, chain), RelayProxyUpgrade(env, s, chain, funded, sent);
    if FirstOfName(s, chain) {
      FirstMatches(env, s, chain);
      assert {named as nat, chain as nat} == {chain as nat};
    } else if r.Ok? {
      assert named as nat !in r.value.upgrades && named as nat in s.upgrades - {chain as nat};
    }
  }

  /** An upgrade without targets can never be relayed. */
  lemma NoTargetsNoRelay(env: Env, s: State, chain: uint64, funded: bool, sent: bool, u: Upgrade)
    requires ConfigsKeyed(s) && |EncodeUpgrade(u)| < INT64_LIMIT
    requires chain in s.upgrades && s.upgrades[chain].payload == EncodeUpgrade(u) && u.targets == []
    ensures !RelayProxyUpgrade(env, s, chain, funded, sent).Ok?
  {
    hide ValidateAxelarPacket, EncodeUpgrade, DecodeUpgrade, DecodeLogicCall, NamedChain;
    if s.params.enabled && chain in s.configs { OwnPacket(env, s, chain, EncodeUpgrade(u)); }
    UpgradeRoundTrip(u);
    NeverBoth(EncodeUpgrade(u));
  }

  /** With no cellars managed, the stored upgrade has no targets and can never be relayed. */
  lemma NoCellarsNoUpgrade(env: Env, s: State, chain: uint64, newProxy: string, t: State, funded: bool, sent: bool)
    requires ConfigsKeyed(t) && Cellars(env, s, chain) == []
    requires chain in t.upgrades && t.upgrades[chain] == UpgradeFor(env, s, chain, newProxy)
    ensures !RelayProxyUpgrade(env, t, chain, funded, sent).Ok?
  {
    hide RelayProxyUpgrade;
    var u := Upgrade(env.address(newProxy), []);
    assert Addresses(env, Texts(env, [])) == [];
    EmptyUpgradeSize(u);
    NoTargetsNoRelay(env, t, chain, funded, sent, u);
  }

  lemma EmptyUpgradeSize(u: Upgrade)
    requires u.targets == []
    ensures |EncodeUpgrade(u)| == 128
  {
    hide Word;
  }

  // ----- other packets -----

  /** A packet from anyone but the module changes nothing. */
  lemma OthersChangeNothing(env: Env, s: State, channel: string, packet: Packet)
    requires packet.Packet? ==> env.account(packet.sender) != Some(env.moduleAccount)
    ensures ValidateAxelarPacket(env, s, channel, packet).Ok? ==> ValidateAxelarPacket(env, s, channel, packet).value == s
  {
    hide ValidateBody;
  }
}
