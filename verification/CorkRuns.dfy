/** Runs of the cork module, and what every reachable state keeps. */
module CorkRuns {
  import opened AxelarProxy
  import opened BigEndian
  import opened CorkBlock
  import opened CorkRelay
  import opened CorkSpec
  import opened CorkTypes
  import opened Integers
  import opened Outcomes

  datatype Step =
    | Schedule(validator: Option<Validator>, chain: uint64, height: uint64, cork: Cork)
    | Relay(chain: uint64, target: string, funded: bool, sent: bool)
    | RelayUpgrade(chain: uint64, funded: bool, sent: bool)
    | SendPacket(channel: string, packet: Packet)  // any other transfer
    | AddCellars(chain: uint64, ids: CellarIdSet, publisher: string, publisherFound: bool)
    | RemoveCellars(chain: uint64, ids: CellarIdSet)
    | Upgrade(chain: uint64, newProxy: string)
    | Cancel(chain: uint64)
    | SetChain(config: ChainConfig)
    | RemoveChain(chain: uint64)
    | SetParams(params: CorkParams)
    | EndBlock(staking: Staking, expires: WinningKey -> bool)

  /** A transaction keeps its writes only if it succeeds. */
  ghost function Commit(s: State, r: Checked<State>): State { if r.Ok? then r.value else s }

  /** Nobody can sign for the module's account. */
  ghost predicate FromModule(env: Env, packet: Packet) {
    packet.Packet? && env.account(packet.sender) == Some(env.moduleAccount)
  }

  /** A panic at the end of a block stops the chain; the state stays. */
  ghost function Next(env: Env, s: State, step: Step): State {
    match step
    case Schedule(validator, chain, height, cork) => Commit(s, ScheduleCork(env, s, validator, chain, height, cork))
    case Relay(chain, target, funded, sent) => Commit(s, RelayCork(env, s, chain, target, funded, sent))
    case RelayUpgrade(chain, funded, sent) => Commit(s, RelayProxyUpgrade(env, s, chain, funded, sent))
    case SendPacket(channel, packet) => if FromModule(env, packet) then s else Commit(s, ValidateAxelarPacket(env, s, channel, packet))
    case AddCellars(chain, ids, publisher, found) => Commit(s, AddManagedCellars(env, s, chain, ids, publisher, found))
    case RemoveCellars(chain, ids) => Commit(s, RemoveManagedCellars(env, s, chain, ids))
    case Upgrade(chain, newProxy) => Commit(s, ProposeUpgrade(env, s, chain, newProxy))
    case Cancel(chain) => Commit(s, CancelUpgrade(s, chain))
    case SetChain(config) => s.(configs := s.configs[config.id as nat := config])
    case RemoveChain(chain) => s.(configs := s.configs - {chain as nat})
    case SetParams(params) => s.(params := params)
    case EndBlock(staking, expires) =>
      if Ends(env, s, step) then EndBlocker(env, s, staking, expires).value.(height := s.height + 1) else s
  }

  /** The step completes a block. */
  ghost predicate Ends(env: Env, s: State, step: Step) {
    step.EndBlock? && s.height + 1 < INT64_LIMIT && EndBlocker(env, s, step.staking, step.expires).Ok?
  }

  /** The state after the first `n` steps. */
  ghost function After(env: Env, s: State, steps: seq<Step>, n: nat): State
    requires n <= |steps|
  {
    if n == 0 then s else Next(env, After(env, s, steps, n - 1), steps[n - 1])
  }

  // ----- what every step keeps -----

  /** A stored upgrade payload starts with the upgrade's message id. */
  ghost predicate UpgradeShape(s: State) {
    forall c :: c in s.upgrades ==> IsUpgrade(s.upgrades[c].payload)
  }

  ghost predicate IsUpgrade(payload: seq<Byte>) {
    |payload| >= 32 && WordAt(payload, 0) == UPGRADE_MSG_ID
  }

  ghost predicate Inv(env: Env, s: State) {
    ConfigsKeyed(s) && ScheduledShape(env, s) && WinningShape(env, s) && UpgradeShape(s)
  }

  lemma EncodedIsUpgrade(u: AxelarProxy.Upgrade)
    ensures IsUpgrade(EncodeUpgrade(u))
  {
    hide Word, Decode;
    WordValue(UPGRADE_MSG_ID);
    assert EncodeUpgrade(u)[0..32] == Word(UPGRADE_MSG_ID);
  }

  lemma UpgradeIsNoCall(payload: seq<Byte>)
    requires IsUpgrade(payload)
    ensures DecodeLogicCall(payload).Failure?
  {
    hide ReadSpan;
  }

  /** Validating a packet consumes at most one winning cork or one upgrade. */
  lemma ValidationFrame(env: Env, s: State, channel: string, packet: Packet)
    requires ValidateAxelarPacket(env, s, channel, packet).Ok?
    ensures OnlyConsumes(s, ValidateAxelarPacket(env, s, channel, packet).value)
  {
    hide ConfigByName, ValidatePayload;
    forall config, payload | ValidatePayload(env, s, config, payload).Ok? ensures OnlyConsumes(s, ValidatePayload(env, s, config, payload).value) {
      PayloadFrame(env, s, config, payload);
    }
  }

  /** `t` is `s` less some winning corks and upgrades. */
  ghost predicate OnlyConsumes(s: State, t: State) {
    && t == s.(winning := t.winning, upgrades := t.upgrades)
    && (forall k :: k in t.winning ==> k in s.winning && t.winning[k] == s.winning[k])
    && (forall c :: c in t.upgrades ==> c in s.upgrades && t.upgrades[c] == s.upgrades[c])
  }

  lemma PayloadFrame(env: Env, s: State, config: ChainConfig, payload: seq<Byte>)
    requires ValidatePayload(env, s, config, payload).Ok?
    ensures OnlyConsumes(s, ValidatePayload(env, s, config, payload).value)
  {
    hide DecodeLogicCall, DecodeUpgrade, NextWinning;
  }

  /** Relaying an upgrade removes it and the upgrade of the chain that its name finds, and nothing else. */
  lemma RelayUpgradeEffect(env: Env, s: State, chain: uint64, funded: bool, sent: bool)
    requires ConfigsKeyed(s) && UpgradeShape(s)
    requires RelayProxyUpgrade(env, s, chain, funded, sent).Ok?
    ensures chain in s.configs && chain in s.upgrades && s.upgrades[chain].threshold <= s.height
    ensures RelayProxyUpgrade(env, s, chain, funded, sent).value ==
            s.(upgrades := s.upgrades - {NamedChain(s, chain) as nat} - {chain as nat})
  {
    hide ValidateAxelarPacket, IsUpgrade, ValidatePayload, NamedChain;
    var payload := s.upgrades[chain].payload;
    OwnPacket(env, s, chain, payload);
    PendingUpgradePayload(env, s, s.configs[NamedChain(s, chain)], payload);
  }

  lemma PendingUpgradePayload(env: Env, s: State, config: ChainConfig, payload: seq<Byte>)
    requires IsUpgrade(payload) && ValidatePayload(env, s, config, payload).Ok?
    ensures ValidatePayload(env, s, config, payload).value == s.(upgrades := s.upgrades - {config.id as nat})
  {
    hide DecodeLogicCall, DecodeUpgrade, IsUpgrade;
    UpgradeIsNoCall(payload);
  }

  /** A scheduled cork lies under the key computed from it. */
  lemma ScheduleKeepsInv(env: Env, s: State, validator: Option<Validator>, chain: uint64, height: uint64, cork: Cork)
    requires Inv(env, s)
    ensures Inv(env, Commit(s, ScheduleCork(env, s, validator, chain, height, cork)))
  {
    hide Cellars, IdHash, IsUpgrade;
  }

  lemma RelayKeepsInv(env: Env, s: State, chain: uint64, target: string, funded: bool, sent: bool)
    requires Inv(env, s)
    ensures Inv(env, Commit(s, RelayCork(env, s, chain, target, funded, sent)))
  {
    hide ValidateAxelarPacket, NextWinning, EncodeLogicCall, IsUpgrade, IdHash;
    if RelayCork(env, s, chain, target, funded, sent).Ok? {
      var out := PrepareRelay(env, s, chain, target, funded).value;
      ValidationFrame(env, out.state, out.state.params.ibcChannel, out.packet);
    }
  }

  lemma RelayUpgradeKeepsInv(env: Env, s: State, chain: uint64, funded: bool, sent: bool)
    requires Inv(env, s)
    ensures Inv(env, Commit(s, RelayProxyUpgrade(env, s, chain, funded, sent)))
  {
    hide ValidateAxelarPacket, IsUpgrade, IdHash;
    if RelayProxyUpgrade(env, s, chain, funded, sent).Ok? {
      var out := PrepareUpgrade(env, s, chain, funded).value;
      ValidationFrame(env, out.state, out.state.params.ibcChannel, out.packet);
    }
  }

  lemma UpgradeKeepsInv(env: Env, s: State, chain: uint64, newProxy: string)
    requires Inv(env, s)
    ensures Inv(env, Commit(s, ProposeUpgrade(env, s, chain, newProxy)))
  {
    hide IsUpgrade, EncodeUpgrade, IdHash, Cellars;
    forall u { EncodedIsUpgrade(u); }
  }

  lemma EndBlockKeepsInv(env: Env, s: State, step: Step)
    requires Inv(env, s) && Ends(env, s, step)
    ensures Inv(env, Next(env, s, step))
  {
    hide EndBlocker, IsUpgrade, IdHash, ApprovedNow, WinningAfter, OwnContracts;
    ShapeContracts(env, s);
    EndBlockerEffect(env, s, step.staking, step.expires);
    EndBlockerWinners(env, s, step.staking, step.expires);
  }

  lemma ShapeContracts(env: Env, s: State)
    requires WinningShape(env, s)
    ensures OwnContracts(env, s.winning)
  {}

  lemma NextKeepsInv(env: Env, s: State, step: Step)
    requires Inv(env, s)
    ensures Inv(env, Next(env, s, step))
  {
    hide EndBlocker, RelayCork, RelayProxyUpgrade, ScheduleCork, ProposeUpgrade, AddManagedCellars, RemoveManagedCellars,
         ValidateAxelarPacket, IsUpgrade, IdHash, Inv;
    match step {
      case Schedule(validator, chain, height, cork) => ScheduleKeepsInv(env, s, validator, chain, height, cork);
      case Relay(chain, target, funded, sent) => RelayKeepsInv(env, s, chain, target, funded, sent);
      case RelayUpgrade(chain, funded, sent) => RelayUpgradeKeepsInv(env, s, chain, funded, sent);
      case Upgrade(chain, newProxy) => UpgradeKeepsInv(env, s, chain, newProxy);
      case EndBlock(_, _) => if Ends(env, s, step) { EndBlockKeepsInv(env, s, step); }
      case SendPacket(channel, packet) => if !FromModule(env, packet) { OthersChangeNothing(env, s, channel, packet); }
      case _ => SmallStepKeepsInv(env, s, step);
    }
  }

  lemma SmallStepKeepsInv(env: Env, s: State, step: Step)
    requires Inv(env, s)
    requires step.AddCellars? || step.RemoveCellars? || step.Cancel? || step.SetChain? || step.RemoveChain? || step.SetParams?
    ensures Inv(env, Next(env, s, step))
  {
    hide IsUpgrade, IdHash, CheckCellarIds, Cellars, EndBlocker, RelayCork, RelayProxyUpgrade, ScheduleCork, ProposeUpgrade,
         ValidateAxelarPacket, Subscribe, Unsubscribe;
  }

  lemma {:induction false} RunKeepsInv(env: Env, s: State, steps: seq<Step>, n: nat)
    requires Inv(env, s) && n <= |steps|
    ensures Inv(env, After(env, s, steps, n))
  {
    hide Next, Inv;
    if n > 0 {
      RunKeepsInv(env, s, steps, n - 1);
      NextKeepsInv(env, After(env, s, steps, n - 1), steps[n - 1]);
    }
  }
}
