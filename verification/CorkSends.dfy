/** The packets that relays send, and exactly when the relays succeed, without the functions that build them. */
module CorkSends {
  import opened AbiLayout
  import opened AxelarProxy
  import opened BigEndian
  import opened CellarLists
  import opened CorkPackets
  import opened CorkRelay
  import opened CorkRuns
  import opened CorkSpec
  import opened CorkTheorems
  import opened CorkTypes
  import opened CorkUpgrades
  import opened Integers
  import opened Outcomes

  // ----- relaying a cork -----

  /** One more than the stored nonce, or one if none is stored; 2^64 wraps to zero. */
  function NextNonce(s: State, chain: uint64, contract: Address): uint64 {
    var used: int := if (chain, contract) in s.nonces then s.nonces[(chain, contract)] else 0;
    (used + 1) % 0x1_0000_0000_0000_0000
  }

  /** The state once the nonce is used up. */
  function NonceTaken(s: State, chain: uint64, contract: Address): State {
    s.(nonces := s.nonces[(chain, contract) := NextNonce(s, chain, contract)])
  }

  /** The module's packet to the chain's proxy, with this payload. */
  ghost predicate ToChain(env: Env, s: State, chain: uint64, packet: Packet, payload: seq<Byte>)
    requires chain in s.configs
  {
    && packet.Packet? && packet.sender == env.moduleText && packet.receiver == s.params.gmpAccount
    && packet.memo == Body(s.configs[chain].name, s.configs[chain].proxyAddress, payload)
  }

  /** The module's packet to the chain's proxy that calls the contract with the call data and deadline of its earliest winning
      cork, under `key`, and with the next nonce. */
  ghost predicate Sends(env: Env, s: State, chain: uint64, contract: Address, key: WinningKey, packet: Packet)
    requires chain in s.configs
  {
    && Earliest(s, chain, contract, key) && packet.Packet? && packet.memo.Body?
    && ToChain(env, s, chain, packet, packet.memo.payload)
    && CallBytes(packet.memo.payload, contract, NextNonce(s, chain, contract), s.winning[key].deadline, s.winning[key].call)
  }

  /** Some packet that the relay would send passes the validation, in the state with the nonce used up. */
  ghost predicate SendsPassing(env: Env, s: State, chain: uint64, contract: Address)
    requires chain in s.configs
  {
    exists key, packet ::
      Sends(env, s, chain, contract, key, packet) && Passes(env, NonceTaken(s, chain, contract), s.params.ibcChannel, packet)
  }

  ghost predicate SendsLeaving(env: Env, s: State, chain: uint64, contract: Address, t: State)
    requires chain in s.configs
  {
    exists key, packet ::
      Sends(env, s, chain, contract, key, packet) && Leaves(env, NonceTaken(s, chain, contract), s.params.ibcChannel, packet, t)
  }

  ghost predicate SendsFailing(env: Env, s: State, chain: uint64, contract: Address, e: CorkError)
    requires chain in s.configs
  {
    exists key, packet ::
      Sends(env, s, chain, contract, key, packet) && PacketCause(env, NonceTaken(s, chain, contract), packet, e)
  }

  /** What each error of relaying a cork says. */
  ghost predicate RelayCause(env: Env, s: State, chain: uint64, contract: Address, funded: bool, sent: bool, e: CorkError) {
    match e
    case AxelarDisabled => !s.params.enabled
    case InsufficientFunds => !funded
    case TransferFailed => !sent
    case NoCorkFound =>
      || (forall k :: k in s.winning ==> !(k.chain == chain && k.contract == contract))
      || (chain in s.configs && SendsFailing(env, s, chain, contract, e))
    case _ => (e.ChainNotFound? && chain !in s.configs) || (chain in s.configs && SendsFailing(env, s, chain, contract, e))
  }

  /** Nothing but the one packet fits. */
  lemma SendsIs(env: Env, s: State, chain: uint64, contract: Address, key: WinningKey, packet: Packet)
    requires chain in s.configs && s.configs[chain].id == chain && key in s.winning && key.contract == contract
    ensures CallBytes(EncodeLogicCall(CallFor(s, key, NextNonce(s, chain, contract))), contract, NextNonce(s, chain, contract),
                      s.winning[key].deadline, s.winning[key].call)
    ensures Sends(env, s, chain, contract, key, packet) ==>
              packet == ToProxy(env, s, s.configs[chain], EncodeLogicCall(CallFor(s, key, NextNonce(s, chain, contract))))
  {
    hide CallBytes, EncodeLogicCall, Earliest, NextNonce;
    var c := CallFor(s, key, NextNonce(s, chain, contract));
    CallLayout(EncodeLogicCall(c), c);
    if packet.Packet? && packet.memo.Body? { CallLayout(packet.memo.payload, c); }
  }

  lemma NoncesAgree(s: State, chain: uint64, contract: Address)
    ensures WrapUint64(Nonce(s, chain, contract) + 1) == NextNonce(s, chain, contract)
    ensures Counted(s, chain, contract) == NonceTaken(s, chain, contract)
  {}

  lemma OneEarliest(s: State, chain: uint64, contract: Address)
    ensures forall j, k :: Earliest(s, chain, contract, j) && Earliest(s, chain, contract, k) ==> j == k
  {}

  /** With a winning cork to relay, the one packet decides. */
  lemma ChecksTheOne(env: Env, s: State, chain: uint64, contract: Address, key: WinningKey)
    requires Faithful(env) && ConfigsKeyed(s) && WinningShape(env, s) && chain in s.configs && Earliest(s, chain, contract, key)
    ensures var t, packet := NonceTaken(s, chain, contract),
                             ToProxy(env, s, s.configs[chain], EncodeLogicCall(CallFor(s, key, NextNonce(s, chain, contract))));
            var r := ValidateAxelarPacket(env, t, s.params.ibcChannel, packet);
            && Sends(env, s, chain, contract, key, packet)
            && (r.Ok? <==> SendsPassing(env, s, chain, contract))
            && (r.Ok? ==> SendsLeaving(env, s, chain, contract, r.value))
            && (r.Fail? ==> SendsFailing(env, s, chain, contract, r.error))
            && !r.Panic?
  {
    hide ValidateAxelarPacket, EncodeLogicCall, CallBytes, Passes, Leaves, PacketCause, NextNonce, Faithful;
    var t, packet := NonceTaken(s, chain, contract),
                     ToProxy(env, s, s.configs[chain], EncodeLogicCall(CallFor(s, key, NextNonce(s, chain, contract))));
    PacketExactly(env, t, s.params.ibcChannel, packet);
    SendsIs(env, s, chain, contract, key, packet);
    OneEarliest(s, chain, contract);
    forall k, p | Sends(env, s, chain, contract, k, p) ensures k == key && p == packet {
      SendsIs(env, s, chain, contract, k, p);
    }
  }

  /** The errors of the relays themselves are none of a packet's. */
  predicate RelayError(e: CorkError) {
    e.AxelarDisabled? || e.InsufficientFunds? || e.TransferFailed? || e.NotYetExecutable?
  }

  lemma OnlyPacketErrors(env: Env, s: State, packet: Packet)
    ensures forall e :: PacketCause(env, s, packet, e) ==> !RelayError(e)
  {}

  lemma OnlySendErrors(env: Env, s: State, chain: uint64, contract: Address, e: CorkError)
    requires chain in s.configs && SendsFailing(env, s, chain, contract, e)
    ensures !RelayError(e)
  {
    hide PacketCause, Sends;
    var key, packet :| Sends(env, s, chain, contract, key, packet) && PacketCause(env, NonceTaken(s, chain, contract), packet, e);
    OnlyPacketErrors(env, NonceTaken(s, chain, contract), packet);
  }

  /** A relay succeeds exactly when the module is enabled, the chain is configured, the funds are there, the transfer is sent and
      the packet just described passes; it leaves what that packet leaves, with the nonce used up. */
  lemma RelaySends(env: Env, s: State, chain: uint64, target: string, funded: bool, sent: bool)
    requires Faithful(env) && ConfigsKeyed(s) && WinningShape(env, s)
    ensures var r, contract := RelayCork(env, s, chain, target, funded, sent), env.address(target);
            && (r.Ok? <==> s.params.enabled && chain in s.configs && funded && sent && SendsPassing(env, s, chain, contract))
            && (r.Ok? ==> SendsLeaving(env, s, chain, contract, r.value))
            && (r.Fail? ==> RelayCause(env, s, chain, contract, funded, sent, r.error))
            && !r.Panic?
  {
    hide ValidateAxelarPacket, EncodeLogicCall, NextWinning, Nonce, NextNonce, CallFor, SendsPassing, SendsLeaving, SendsFailing, ToProxy, Faithful,
         WinningShape, Earliest;
    var contract := env.address(target);
    if s.params.enabled && chain in s.configs {
      ConfigKeyed(s, chain);
      EarliestIs(s, chain, contract);
      RelayPacket(env, s, chain, target, funded);
      NoncesAgree(s, chain, contract);
      var found := NextWinning(s, chain, contract);
      if found.Some? {
        UnfundedRelay(env, s, chain, target);
        RelaysTheOne(env, s, chain, target, funded, sent, found.value);
      } else {
        NothingToSend(env, s, chain, contract);
      }
    }
  }

  lemma RelaysTheOne(env: Env, s: State, chain: uint64, target: string, funded: bool, sent: bool, key: WinningKey)
    requires Faithful(env) && ConfigsKeyed(s) && WinningShape(env, s) && s.params.enabled && chain in s.configs
    requires Earliest(s, chain, env.address(target), key)
    requires var contract := env.address(target);
             && (PrepareRelay(env, s, chain, target, funded).Ok? <==> funded)
             && (funded ==>
                   PrepareRelay(env, s, chain, target, funded).value ==
                   Outgoing(NonceTaken(s, chain, contract),
                            ToProxy(env, s, s.configs[chain], EncodeLogicCall(CallFor(s, key, NextNonce(s, chain, contract))))))
             && (!funded ==> PrepareRelay(env, s, chain, target, funded) == Fail(InsufficientFunds))
    ensures var r, contract := RelayCork(env, s, chain, target, funded, sent), env.address(target);
            && (r.Ok? <==> funded && sent && SendsPassing(env, s, chain, contract))
            && (r.Ok? ==> SendsLeaving(env, s, chain, contract, r.value))
            && (r.Fail? ==> RelayCause(env, s, chain, contract, funded, sent, r.error))
            && !r.Panic?
  {
    hide ValidateAxelarPacket, EncodeLogicCall, NextNonce, CallFor, SendsPassing, SendsLeaving, SendsFailing, ToProxy, Faithful, WinningShape,
         PrepareRelay, Earliest, ConfigsKeyed, Sends;
    var contract := env.address(target);
    ChecksTheOne(env, s, chain, contract, key);
    var r := RelayCork(env, s, chain, target, funded, sent);
    if funded && r.Fail? && SendsFailing(env, s, chain, contract, r.error) { OnlySendErrors(env, s, chain, contract, r.error); }
  }

  lemma UnfundedRelay(env: Env, s: State, chain: uint64, target: string)
    requires s.params.enabled && chain in s.configs && NextWinning(s, s.configs[chain].id, env.address(target)).Some?
    ensures PrepareRelay(env, s, chain, target, false) == Fail(InsufficientFunds)
  {
    hide NextWinning;
  }

  lemma NothingToSend(env: Env, s: State, chain: uint64, contract: Address)
    requires chain in s.configs && forall key :: !Earliest(s, chain, contract, key)
    ensures !SendsPassing(env, s, chain, contract)
  {
    hide Earliest, Passes;
  }

  // ----- relaying an upgrade -----

  /** The packet that relays the chain's pending upgrade. */
  function UpgradePacket(env: Env, s: State, chain: uint64): Packet
    requires chain in s.configs && chain in s.upgrades
  {
    Packet(env.moduleText, s.params.gmpAccount, Body(s.configs[chain].name, s.configs[chain].proxyAddress, s.upgrades[chain].payload))
  }

  /** What each error of relaying an upgrade says. */
  ghost predicate UpgradeCause(env: Env, s: State, chain: uint64, funded: bool, sent: bool, e: CorkError) {
    match e
    case AxelarDisabled => !s.params.enabled
    case InsufficientFunds => !funded
    case TransferFailed => !sent
    case NotYetExecutable => chain in s.upgrades && s.height < s.upgrades[chain].threshold
    case _ =>
      || (e.ChainNotFound? && chain !in s.configs)
      || (e.NoUpgradeFound? && chain !in s.upgrades)
      || (chain in s.configs && chain in s.upgrades && PacketCause(env, s, UpgradePacket(env, s, chain), e))
  }

  ghost predicate LeavesUpgraded(env: Env, s: State, chain: uint64, r: State)
    requires chain in s.configs && chain in s.upgrades
  {
    exists t :: Leaves(env, s, s.params.ibcChannel, UpgradePacket(env, s, chain), t) && r == t.(upgrades := t.upgrades - {chain as nat})
  }

  /** An upgrade is relayed exactly from its threshold on, by the module's packet with the stored payload; the chain then has
      none pending. */
  lemma UpgradeSends(env: Env, s: State, chain: uint64, funded: bool, sent: bool)
    requires Faithful(env) && ConfigsKeyed(s) && WinningShape(env, s)
    ensures var r := RelayProxyUpgrade(env, s, chain, funded, sent);
            && (r.Ok? <==>
                  && s.params.enabled && chain in s.configs && funded && sent && chain in s.upgrades && s.upgrades[chain].threshold <= s.height
                  && Passes(env, s, s.params.ibcChannel, UpgradePacket(env, s, chain)))
            && (r.Ok? ==> LeavesUpgraded(env, s, chain, r.value))
            && (r.Fail? ==> UpgradeCause(env, s, chain, funded, sent, r.error))
            && (r == Fail(NotYetExecutable) <==>
                  s.params.enabled && chain in s.configs && chain in s.upgrades && s.height < s.upgrades[chain].threshold)
            && !r.Panic?
  {
    hide ValidateAxelarPacket, Passes, Leaves, PacketCause, Faithful, WinningShape, ConfigsKeyed;
    if chain in s.configs && chain in s.upgrades {
      var packet := UpgradePacket(env, s, chain);
      PacketExactly(env, s, s.params.ibcChannel, packet);
      OnlyPacketErrors(env, s, packet);
      var r := ValidateAxelarPacket(env, s, s.params.ibcChannel, packet);
      if r.Ok? { assert Leaves(env, s, s.params.ibcChannel, packet, r.value); }
    }
  }

  // ----- the delay of an upgrade -----

  /** The chain's stored list, as addresses in its order. */
  ghost predicate ListedTargets(env: Env, s: State, chain: uint64, targets: seq<Address>) {
    var list := if chain in s.cellars then s.cellars[chain] else [];
    |targets| == |list| && forall i :: 0 <= i < |list| ==> targets[i] == env.address(list[i])
  }

  /** An upgrade that was proposed at this state: to the named proxy, for the cellars managed then, due after 21600 blocks. */
  ghost predicate UpgradeAt(env: Env, s: State, chain: uint64, newProxy: string, u: UpgradeData) {
    && u.chainId == chain
    && (exists targets :: ListedTargets(env, s, chain, targets) && UpgradeBytes(u.payload, env.address(newProxy), targets))
    && u.threshold == (if s.height + 21_600 < 0x8000_0000_0000_0000 then s.height + 21_600 else s.height + 21_600 - 0x1_0000_0000_0000_0000)
  }

  lemma ProposedUpgrade(env: Env, s: State, chain: uint64, newProxy: string)
    requires Faithful(env) && (chain in s.cellars ==> |s.cellars[chain]| < INT64_LIMIT)
    ensures UpgradeAt(env, s, chain, newProxy, UpgradeFor(env, s, chain, newProxy))
  {
    hide EncodeUpgrade, UpgradeBytes, Faithful, Addresses, Texts;
    var cellars := Cellars(env, s, chain);
    AddressesOfTexts(env, cellars);
    UpgradeLayout(AxelarProxy.Upgrade(env.address(newProxy), cellars));
    assert ListedTargets(env, s, chain, cellars);
  }

  /** A proposal stores exactly that for a configured chain, whatever was pending; a cancellation leaves none. */
  lemma ProposeExactly(env: Env, s: State, chain: uint64, newProxy: string)
    requires Faithful(env) && (chain in s.cellars ==> |s.cellars[chain]| < INT64_LIMIT)
    ensures var p, c := ProposeUpgrade(env, s, chain, newProxy), CancelUpgrade(s, chain);
            && (if chain in s.configs
                then p.Ok? && chain in p.value.upgrades && p.value == s.(upgrades := s.upgrades[chain as nat := p.value.upgrades[chain]])
                     && UpgradeAt(env, s, chain, newProxy, p.value.upgrades[chain])
                else p == Fail(ChainNotFound))
            && (if chain in s.configs then c == Ok(s.(upgrades := s.upgrades - {chain as nat})) else c == Fail(ChainNotFound))
  {
    hide UpgradeAt, UpgradeFor;
    ProposedUpgrade(env, s, chain, newProxy);
  }

  /** Over runs, a pending upgrade that step `j` proposed is refused as too early below 21600 blocks after that step, and from
      exactly then on it is relayed whenever the module is enabled, the transfer is paid for and sent, the addresses are
      well-formed, the upgrade has targets, and the chain's name finds it. */
  lemma ExecutableAfterDelay(env: Env, s: State, steps: seq<Step>, n: nat, chain: uint64, j: nat, funded: bool, sent: bool)
    requires Faithful(env) && Inv(env, s) && n <= |steps| && ProposedAt(env, s, steps, n, chain, j)
    requires After(env, s, steps, j).height + 21_600 < INT64_LIMIT
    requires |After(env, s, steps, n).upgrades[chain].payload| < INT64_LIMIT
    ensures var proposed, now := After(env, s, steps, j), After(env, s, steps, n);
            var r := RelayProxyUpgrade(env, now, chain, funded, sent);
            && (now.params.enabled && chain in now.configs ==> (r == Fail(NotYetExecutable) <==> now.height < proposed.height + 21_600))
            && (r.Ok? ==> proposed.height + 21_600 <= now.height)
            && (now.params.enabled && funded && sent && ValidAddresses(env, now, chain) && FirstOfName(now, chain)
                && Cellars(env, proposed, chain) != [] && proposed.height + 21_600 <= now.height ==>
                  r == Ok(now.(upgrades := now.upgrades - {chain as nat})))
  {
    hide After, Inv, Touches, RelayProxyUpgrade, EncodeUpgrade, Cellars, ConfigsKeyed, Faithful, Addresses, Texts, Passes, LeavesUpgraded,
         UpgradeCause, UpgradePacket, WinningShape, FirstOfName;
    var proposed, now := After(env, s, steps, j), After(env, s, steps, n);
    RunKeepsInv(env, s, steps, n);
    InvParts(env, now);
    UpgradeSends(env, now, chain, funded, sent);
    var targets := Cellars(env, proposed, chain);
    AddressesOfTexts(env, targets);
    var u := AxelarProxy.Upgrade(env.address(steps[j].newProxy), targets);
    if CanUpgrade(now, chain, funded, sent, u) && ValidAddresses(env, now, chain) {
      UpgradeThenValidate(env, now, chain, funded, sent, u);
    }
  }
}
