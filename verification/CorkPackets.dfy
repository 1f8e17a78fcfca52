/** Exactly which outgoing packets pass the validation, for every sender, receiver and memo, and what they consume. */
module CorkPackets {
  import opened AxelarProxy
  import opened BigEndian
  import opened CorkRelay
  import opened CorkSpec
  import opened CorkTypes
  import opened Integers
  import opened Outcomes

  // ----- what a chain expects -----

  /** The configured chain of lowest id with this name. */
  ghost predicate NamedBy(s: State, name: string, chain: nat) {
    && chain in s.configs && s.configs[chain].name == name
    && forall c :: c in s.configs && c < chain ==> s.configs[c].name != name
  }

  /** No winning cork for the contract on the chain has a lower height than this one. */
  ghost predicate Earliest(s: State, chain: nat, contract: Address, key: WinningKey) {
    && key in s.winning && key.chain == chain && key.contract == contract
    && forall k :: k in s.winning && k.chain == chain && k.contract == contract ==> key.height <= k.height
  }

  /** The payload is a call with a nonzero nonce, and its contract's earliest winning cork on the chain, under `key`, has its
      call data. */
  ghost predicate ExpectedCall(s: State, chain: nat, payload: seq<Byte>, key: WinningKey) {
    && DecodeLogicCall(payload).Success?
    && var call := DecodeLogicCall(payload).value;
    && call.nonce != 0 && Earliest(s, chain, call.target, key) && s.winning[key].call == call.callData
  }

  /** The payload is an upgrade with targets, and pending for the chain byte by byte. */
  ghost predicate ExpectedUpgrade(s: State, chain: nat, payload: seq<Byte>) {
    && DecodeUpgrade(payload).Success? && DecodeUpgrade(payload).value.targets != []
    && chain in s.upgrades && s.upgrades[chain].payload == payload
  }

  ghost predicate Expected(s: State, chain: nat, payload: seq<Byte>) {
    (exists key :: ExpectedCall(s, chain, payload, key)) || ExpectedUpgrade(s, chain, payload)
  }

  /** A memo that checks out against the chain: it names it, its address is the chain's well-formed proxy, and the chain
      expects the payload. */
  ghost predicate ChecksOut(env: Env, s: State, memo: Memo, chain: nat) {
    && memo.Body? && NamedBy(s, memo.destinationChain, chain)
    && env.isHex(s.configs[chain].proxyAddress) && env.isHex(memo.destinationAddress)
    && env.address(memo.destinationAddress) == env.address(s.configs[chain].proxyAddress)
    && Expected(s, chain, memo.payload)
  }

  // ----- which packets pass -----

  /** The validation looks at packets on this channel only. */
  predicate Watched(s: State, channel: string) { s.params.enabled && channel == s.params.ibcChannel }

  /** The packet and its three accounts can be read. */
  predicate Readable(env: Env, s: State, packet: Packet) {
    packet.Packet? && env.account(s.params.gmpAccount).Some? && env.account(packet.receiver).Some? && env.account(packet.sender).Some?
  }

  /** The packet is for the account that carries calls to other chains. */
  predicate ForCalls(env: Env, s: State, packet: Packet)
    requires packet.Packet?
  {
    env.account(packet.receiver) == env.account(s.params.gmpAccount)
  }

  predicate ByModule(env: Env, packet: Packet)
    requires packet.Packet?
  {
    env.account(packet.sender) == Some(env.moduleAccount)
  }

  ghost predicate Passes(env: Env, s: State, channel: string, packet: Packet) {
    Watched(s, channel) ==>
      Readable(env, s, packet) && (ForCalls(env, s, packet) ==>
                                     ByModule(env, packet) && (packet.memo.NoMemo? || exists chain :: ChecksOut(env, s, packet.memo, chain)))
  }

  /** What a passing packet leaves: the state, less the cork or the upgrade that its memo named. */
  ghost predicate Leaves(env: Env, s: State, channel: string, packet: Packet, t: State) {
    if Watched(s, channel) && packet.Packet? && ForCalls(env, s, packet) && packet.memo.Body?
    then exists chain :: ChecksOut(env, s, packet.memo, chain) && Consumes(s, chain, packet.memo.payload, t)
    else t == s
  }

  ghost predicate Consumes(s: State, chain: nat, payload: seq<Byte>, t: State) {
    || (exists key :: ExpectedCall(s, chain, payload, key) && t == s.(winning := s.winning - {key}))
    || (ExpectedUpgrade(s, chain, payload) && t == s.(upgrades := s.upgrades - {chain}))
  }

  /** What each error of the validation says. */
  ghost predicate PacketCause(env: Env, s: State, packet: Packet, e: CorkError) {
    match e
    case InvalidJson => packet.NotJsonPacket? || packet.memo.NotJson?
    case InvalidGmpAccount => env.account(s.params.gmpAccount).None?
    case InvalidReceiver => packet.Packet? && env.account(packet.receiver).None?
    case InvalidSender => packet.Packet? && env.account(packet.sender).None?
    case SenderIsNotTheModule => packet.Packet? && ForCalls(env, s, packet) && !ByModule(env, packet)
    case _ =>
      && packet.Packet? && ForCalls(env, s, packet) && ByModule(env, packet) && packet.memo.Body?
      && BodyCause(env, s, packet.memo, e)
  }

  ghost predicate BodyCause(env: Env, s: State, memo: Memo, e: CorkError)
    requires memo.Body?
  {
    match e
    case ChainNotFound => forall c :: c in s.configs ==> s.configs[c].name != memo.destinationChain
    case InvalidProxyAddress => exists chain :: NamedBy(s, memo.destinationChain, chain) && !env.isHex(s.configs[chain].proxyAddress)
    case InvalidDestination => !env.isHex(memo.destinationAddress)
    case BypassesProxy =>
      exists chain :: NamedBy(s, memo.destinationChain, chain)
                      && env.address(memo.destinationAddress) != env.address(s.configs[chain].proxyAddress)
    case _ => exists chain :: NamedBy(s, memo.destinationChain, chain) && PayloadCause(s, chain, memo.payload, e)
  }

  ghost predicate PayloadCause(s: State, chain: nat, payload: seq<Byte>, e: CorkError) {
    match e
    case NonceCannotBeZero => DecodeLogicCall(payload).Success? && DecodeLogicCall(payload).value.nonce == 0
    case NoCorkFound =>
      && DecodeLogicCall(payload).Success?
      && forall k :: k in s.winning ==> !(k.chain == chain && k.contract == DecodeLogicCall(payload).value.target)
    case CorkDoesNotMatch =>
      && DecodeLogicCall(payload).Success?
      && exists key :: Earliest(s, chain, DecodeLogicCall(payload).value.target, key)
                       && s.winning[key].call != DecodeLogicCall(payload).value.callData
    case NoTargets => DecodeUpgrade(payload).Success? && DecodeUpgrade(payload).value.targets == []
    case NoUpgradeFound => DecodeUpgrade(payload).Success? && chain !in s.upgrades
    case UpgradeDoesNotMatch => DecodeUpgrade(payload).Success? && chain in s.upgrades && s.upgrades[chain].payload != payload
    case InvalidPayload => DecodeLogicCall(payload).Failure? && DecodeUpgrade(payload).Failure?
    case _ => false
  }

  // ----- proofs -----

  /** The lookup by name. */
  lemma LooksUp(s: State, name: string)
    requires ConfigsKeyed(s)
    ensures ConfigByName(s, name).None? ==> forall c :: c in s.configs ==> s.configs[c].name != name
    ensures ConfigByName(s, name).Some? ==>
              var c := ConfigByName(s, name).value; NamedBy(s, name, c.id) && s.configs[c.id] == c
  {
    hide ConfigByName;
    if c :| c in s.configs && s.configs[c].name == name {
      NameFinds(s, c);
      var named := NamedChain(s, c);
      ConfigKeyed(s, named);
    } else {
      NamesNothing(s, name);
    }
  }

  lemma NamesNothing(s: State, name: string)
    requires ConfigsKeyed(s) && forall c :: c in s.configs ==> s.configs[c].name != name
    ensures ConfigByName(s, name).None?
  {
    FirstNamedFails(Configs(s.configs), name);
  }

  lemma {:induction false} FirstNamedFails(configs: seq<ChainConfig>, name: string)
    requires forall i :: 0 <= i < |configs| ==> configs[i].name != name
    ensures FirstNamed(configs, name).None?
  {
    if configs != [] { FirstNamedFails(configs[1..], name); }
  }

  lemma OneNamed(s: State, name: string, c: nat, d: nat)
    requires NamedBy(s, name, c) && NamedBy(s, name, d)
    ensures c == d
  {}

  /** The earliest winning cork is the one the lookup finds. */
  lemma EarliestIs(s: State, chain: uint64, contract: Address)
    ensures NextWinning(s, chain, contract).Some? ==> Earliest(s, chain, contract, NextWinning(s, chain, contract).value)
    ensures forall key :: Earliest(s, chain, contract, key) ==> NextWinning(s, chain, contract) == Some(key)
  {
    hide NextWinning;
  }

  lemma PayloadExactly(env: Env, s: State, config: ChainConfig, payload: seq<Byte>)
    requires Faithful(env) && WinningShape(env, s)
    ensures var r := ValidatePayload(env, s, config, payload);
            && (r.Ok? <==> Expected(s, config.id, payload))
            && (r.Ok? ==> Consumes(s, config.id, payload, r.value))
            && (r.Fail? ==> PayloadCause(s, config.id, payload, r.error))
            && !r.Panic?
  {
    hide DecodeLogicCall, DecodeUpgrade, NextWinning;
    NeverBothHidden(payload);
    match DecodeLogicCall(payload)
    case Success(call) =>
      EarliestIs(s, config.id, call.target);
      assert env.address(env.text(call.target)) == call.target;
      CallExactly(env, s, config, payload, call);
    case Failure(_) =>
      assert forall key :: !ExpectedCall(s, config.id, payload, key);
      if DecodeUpgrade(payload).Success? { UpgradeExactly(env, s, config, payload, DecodeUpgrade(payload).value); }
  }

  lemma NeverBothHidden(payload: seq<Byte>)
    ensures DecodeLogicCall(payload).Failure? || DecodeUpgrade(payload).Failure?
  {
    NeverBoth(payload);
  }

  lemma CallExactly(env: Env, s: State, config: ChainConfig, payload: seq<Byte>, call: LogicCall)
    requires WinningShape(env, s) && env.address(env.text(call.target)) == call.target
    requires DecodeLogicCall(payload) == Success(call) && DecodeUpgrade(payload).Failure?
    requires NextWinning(s, config.id, call.target).Some? ==> Earliest(s, config.id, call.target, NextWinning(s, config.id, call.target).value)
    requires forall key :: Earliest(s, config.id, call.target, key) ==> NextWinning(s, config.id, call.target) == Some(key)
    ensures var r := ConsumeCork(env, s, config, call);
            && (r.Ok? <==> Expected(s, config.id, payload))
            && (r.Ok? ==> Consumes(s, config.id, payload, r.value))
            && (r.Fail? ==> PayloadCause(s, config.id, payload, r.error))
            && !r.Panic?
  {
    hide DecodeLogicCall, DecodeUpgrade, NextWinning;
    var found := NextWinning(s, config.id, call.target);
    if found.Some? && call.nonce != 0 && s.winning[found.value].call == call.callData {
      assert ExpectedCall(s, config.id, payload, found.value);
      assert WinningKey(config.id, found.value.height, env.address(s.winning[found.value].target)) == found.value;
    }
  }

  lemma UpgradeExactly(env: Env, s: State, config: ChainConfig, payload: seq<Byte>, u: Upgrade)
    requires Faithful(env) && DecodeLogicCall(payload).Failure? && DecodeUpgrade(payload) == Success(u)
    ensures var r := ConsumeUpgrade(env, s, config, u, payload);
            && (r.Ok? <==> Expected(s, config.id, payload))
            && (r.Ok? ==> Consumes(s, config.id, payload, r.value))
            && (r.Fail? ==> PayloadCause(s, config.id, payload, r.error))
            && !r.Panic?
  {
    hide DecodeLogicCall, DecodeUpgrade;
  }

  lemma BodyExactly(env: Env, s: State, memo: Memo)
    requires Faithful(env) && ConfigsKeyed(s) && WinningShape(env, s) && memo.Body?
    ensures var r := ValidateBody(env, s, memo.destinationChain, memo.destinationAddress, memo.payload);
            && (r.Ok? <==> exists chain :: ChecksOut(env, s, memo, chain))
            && (r.Ok? ==> exists chain :: ChecksOut(env, s, memo, chain) && Consumes(s, chain, memo.payload, r.value))
            && (r.Fail? ==> BodyCause(env, s, memo, r.error))
            && !r.Panic?
  {
    hide ConfigByName, ValidatePayload, Expected, Consumes, PayloadCause;
    LooksUp(s, memo.destinationChain);
    var found := ConfigByName(s, memo.destinationChain);
    if found.Some? {
      PayloadExactly(env, s, found.value, memo.payload);
      forall chain | ChecksOut(env, s, memo, chain) ensures chain == found.value.id as nat {
        OneNamed(s, memo.destinationChain, chain, found.value.id);
      }
      PayloadErrors(env, s, found.value, memo.payload);
      var r := ValidateBody(env, s, memo.destinationChain, memo.destinationAddress, memo.payload);
      if r.Ok? { assert ChecksOut(env, s, memo, found.value.id); }
    }
  }

  /** The payload's errors are none of the body's. */
  lemma PayloadErrors(env: Env, s: State, config: ChainConfig, payload: seq<Byte>)
    ensures var r := ValidatePayload(env, s, config, payload);
            r.Fail? ==> !r.error.ChainNotFound? && !r.error.InvalidProxyAddress? && !r.error.InvalidDestination? && !r.error.BypassesProxy?
                        && !r.error.InvalidJson? && !r.error.InvalidGmpAccount? && !r.error.InvalidReceiver? && !r.error.InvalidSender?
                        && !r.error.SenderIsNotTheModule?
  {
    hide DecodeLogicCall, DecodeUpgrade, NextWinning;
  }

  /** Exactly which packets pass, whoever sends them and whatever they hold, and what they consume. An outsider's packet for
      calls to other chains never passes, whatever its memo. */
  lemma PacketExactly(env: Env, s: State, channel: string, packet: Packet)
    requires Faithful(env) && ConfigsKeyed(s) && WinningShape(env, s)
    ensures var r := ValidateAxelarPacket(env, s, channel, packet);
            && (r.Ok? <==> Passes(env, s, channel, packet))
            && (r.Ok? ==> Leaves(env, s, channel, packet, r.value))
            && (r.Fail? ==> Watched(s, channel) && PacketCause(env, s, packet, r.error))
            && !r.Panic?
    ensures Watched(s, channel) && Readable(env, s, packet) && ForCalls(env, s, packet) && !ByModule(env, packet) ==>
              ValidateAxelarPacket(env, s, channel, packet) == Fail(SenderIsNotTheModule)
  {
    hide ValidateBody, ChecksOut, Consumes, BodyCause;
    if packet.Packet? && packet.memo.Body? {
      BodyExactly(env, s, packet.memo);
      BodyErrors(env, s, packet.memo);
    } else if packet.Packet? {
      NeedsBody(env, s, packet.memo);
    }
  }

  lemma NeedsBody(env: Env, s: State, memo: Memo)
    requires !memo.Body?
    ensures forall chain :: !ChecksOut(env, s, memo, chain)
  {}

  lemma BodyErrors(env: Env, s: State, memo: Memo)
    requires memo.Body?
    ensures var r := ValidateBody(env, s, memo.destinationChain, memo.destinationAddress, memo.payload);
            r.Fail? ==> !r.error.InvalidJson? && !r.error.InvalidGmpAccount? && !r.error.InvalidReceiver? && !r.error.InvalidSender?
                        && !r.error.SenderIsNotTheModule?
  {
    hide ValidatePayload, ConfigByName;
    var found := ConfigByName(s, memo.destinationChain);
    if found.Some? { PayloadErrors(env, s, found.value, memo.payload); }
  }
}
