/** Whole-run properties of voting, relaying and proxy upgrades. */
module CorkTheorems {
  import opened AxelarProxy
  import opened CorkBlock
  import opened CorkRelay
  import opened CorkRuns
  import opened CorkSpec
  import opened CorkTally
  import opened CorkTypes
  import opened Integers
  import opened Outcomes

  // ----- agreement -----

  /** Every vote is scheduled for the chain that its cork names. */
  ghost predicate OwnChains(steps: seq<Step>) {
    forall i :: 0 <= i < |steps| && steps[i].Schedule? ==> steps[i].cork.chainId == steps[i].chain
  }

  lemma StepKeepsChainIds(env: Env, s: State, step: Step)
    requires Inv(env, s) && ChainIdsMatch(s) && (step.Schedule? ==> step.cork.chainId == step.chain)
    ensures ChainIdsMatch(Next(env, s, step))
  {
    hide EndBlocker, RelayCork, RelayProxyUpgrade, ProposeUpgrade, AddManagedCellars, RemoveManagedCellars, ValidateAxelarPacket,
         IdHash, Cellars, ScheduledShape, WinningShape, UpgradeShape;
    if !step.Schedule? { StepScheduled(env, s, step); } else { InvParts(env, s); }
  }

  lemma RelaysKeepVotes(env: Env, s: State, chain: uint64, target: string, funded: bool, sent: bool)
    ensures Commit(s, RelayCork(env, s, chain, target, funded, sent)).scheduled == s.scheduled
    ensures Commit(s, RelayProxyUpgrade(env, s, chain, funded, sent)).scheduled == s.scheduled
  {
    hide ValidateAxelarPacket, EncodeLogicCall, NextWinning;
    var out, up := PrepareRelay(env, s, chain, target, funded), PrepareUpgrade(env, s, chain, funded);
    if RelayCork(env, s, chain, target, funded, sent).Ok? {
      ValidationFrame(env, out.value.state, s.params.ibcChannel, out.value.packet);
    }
    if RelayProxyUpgrade(env, s, chain, funded, sent).Ok? {
      ValidationFrame(env, up.value.state, s.params.ibcChannel, up.value.packet);
    }
  }

  /** Only scheduling adds votes; only the end of a block consumes them. */
  lemma StepScheduled(env: Env, s: State, step: Step)
    requires Inv(env, s) && !step.Schedule?
    ensures forall k :: k in Next(env, s, step).scheduled ==> k in s.scheduled && Next(env, s, step).scheduled[k] == s.scheduled[k]
    ensures !step.EndBlock? ==> Next(env, s, step).scheduled == s.scheduled
  {
    hide EndBlocker, ValidateAxelarPacket, RelayCork, RelayProxyUpgrade, AddManagedCellars, RemoveManagedCellars, ProposeUpgrade,
         CancelUpgrade, Inv, WinningAfter, OwnContracts;
    match step {
      case EndBlock(staking, expires) => if Ends(env, s, step) { InvParts(env, s); EndBlockerEffect(env, s, staking, expires); }
      case Relay(chain, target, funded, sent) => RelaysKeepVotes(env, s, chain, target, funded, sent);
      case RelayUpgrade(chain, funded, sent) => RelaysKeepVotes(env, s, chain, "", funded, sent);
      case SendPacket(channel, packet) => if ValidateAxelarPacket(env, s, channel, packet).Ok? { ValidationFrame(env, s, channel, packet); }
      case _ => GovernanceKeepsVotes(env, s, step);
    }
  }

  lemma GovernanceKeepsVotes(env: Env, s: State, step: Step)
    requires step.AddCellars? || step.RemoveCellars? || step.Upgrade? || step.Cancel? || step.SetChain? || step.RemoveChain? || step.SetParams?
    ensures Next(env, s, step).scheduled == s.scheduled
  {
    hide CheckCellarIds, Cellars, UpgradeFor, EndBlocker, ValidateAxelarPacket, RelayCork, RelayProxyUpgrade, ScheduleCork;
  }

  lemma InvParts(env: Env, s: State)
    requires Inv(env, s)
    ensures ConfigsKeyed(s) && ScheduledShape(env, s) && WinningShape(env, s) && UpgradeShape(s) && OwnContracts(env, s.winning)
  {}

  lemma {:induction false} RunKeepsChainIds(env: Env, s: State, steps: seq<Step>, n: nat)
    requires Inv(env, s) && s.scheduled == map[] && OwnChains(steps) && n <= |steps|
    ensures ChainIdsMatch(After(env, s, steps, n)) && Inv(env, After(env, s, steps, n))
  {
    hide Next, Inv;
    if n > 0 {
      RunKeepsChainIds(env, s, steps, n - 1);
      StepKeepsChainIds(env, After(env, s, steps, n - 1), steps[n - 1]);
      NextKeepsInv(env, After(env, s, steps, n - 1), steps[n - 1]);
    }
  }

  /** If scheduling compared the two chain ids, agreement would hold in every state of every run: two corks approved for a
      chain share voters with over 34 percent of the power, and do not differ in the deadline only. */
  lemma AgreementOverRuns(env: Env, s: State, steps: seq<Step>, n: nat, staking: Staking, chain: uint64, c: Cork, d: Cork)
    requires Inv(env, s) && s.scheduled == map[] && OwnChains(steps) && n <= |steps| && WithinTotal(staking)
    requires var now := After(env, s, steps, n);
             ApprovedNow(env, now, staking, chain, c) && ApprovedNow(env, now, staking, chain, d)
    ensures var both := SharedVoters(env, After(env, s, steps, n), chain, c, d);
            && (forall v :: v in both ==> v in staking.powers)
            && 100 * PowerOf(staking.powers, both) > 34 * staking.total
    ensures SameCall(env, c, d) ==> c.deadline == d.deadline
  {
    hide ApprovedNow, WithinTotal, PowerOf, ChainIdsMatch, After, SharedVoters, Inv, SameCall;
    RunKeepsChainIds(env, s, steps, n);
    InvParts(env, After(env, s, steps, n));
    OwnChainApprovalsAgree(env, After(env, s, steps, n), staking, chain, c, d);
  }

  // ----- what the steps of a run change -----

  /** The step relays a cork to `contract` on `chain`. */
  ghost predicate Relays(env: Env, s: State, step: Step, chain: uint64, contract: Address) {
    && step.Relay? && step.chain == chain && env.address(step.target) == contract
    && RelayCork(env, s, chain, step.target, step.funded, step.sent).Ok?
  }

  /** A relay uses the next nonce and consumes the first winning cork for the contract on the chain that its name finds. */
  lemma RelayStep(env: Env, s: State, step: Step, chain: uint64, contract: Address)
    requires Faithful(env) && Inv(env, s) && Relays(env, s, step, chain, contract)
    ensures ConfigsKeyed(s) && chain in s.configs
    ensures NextWinning(s, chain, contract).Some? && Nonce(s, chain, contract) + 1 < UINT64_LIMIT
    ensures Consumed(s, chain, contract).Some?
    ensures Next(env, s, step) == Counted(s, chain, contract).(winning := s.winning - {Consumed(s, chain, contract).value})
  {
    hide RelayCork, NextWinning, UpgradeShape, ScheduledShape, Consumed, Counted, ProxyMatches;
    RelayExactly(env, s, chain, step.target, step.funded, step.sent);
    InRange(Nonce(s, chain, contract));
  }

  lemma InRange(n: uint64)
    requires n != UINT64_LIMIT - 1
    ensures n + 1 < UINT64_LIMIT
  {}

  /** A step that neither relays a cork nor ends a block leaves the winning corks, the nonces and the height alone. */
  lemma QuietStep(env: Env, s: State, step: Step)
    requires Inv(env, s)
    requires !step.EndBlock? && (step.Relay? ==> !Relays(env, s, step, step.chain, env.address(step.target)))
    ensures var t := Next(env, s, step); t.winning == s.winning && t.nonces == s.nonces && t.height == s.height
    ensures step.Relay? || step.SendPacket? ==> Next(env, s, step) == s
  {
    hide EndBlocker, ValidateAxelarPacket, RelayCork, RelayProxyUpgrade, CheckCellarIds, Cellars, UpgradeFor, NamedChain,
         ConfigsKeyed, WinningShape, ScheduledShape, UpgradeShape;
    match step {
      case RelayUpgrade(chain, funded, sent) =>
        if RelayProxyUpgrade(env, s, chain, funded, sent).Ok? { RelayUpgradeEffect(env, s, chain, funded, sent); }
      case SendPacket(channel, packet) => if !FromModule(env, packet) { OthersChangeNothing(env, s, channel, packet); }
      case _ =>
    }
  }

  /** The end of a block moves to the next height; new winning corks carry the height it ended. */
  lemma EndStep(env: Env, s: State, step: Step)
    requires Inv(env, s) && step.EndBlock?
    ensures var t := Next(env, s, step);
            && t.nonces == s.nonces && t.upgrades == s.upgrades && t.cellars == s.cellars && t.configs == s.configs
            && (t == s || (Ends(env, s, step) && t.height == s.height + 1 && WinnersFrom(env, s, step.staking, s.winning, t.winning)))
  {
    hide EndBlocker, WinnersFrom, WinningAfter, Inv;
    InvParts(env, s);
    if Ends(env, s, step) {
      EndBlockerEffect(env, s, step.staking, step.expires);
      EndBlockerWinners(env, s, step.staking, step.expires);
    }
  }

  /** Only the end of a block adds winning corks. */
  lemma RelaysOnlyConsume(env: Env, s: State, step: Step)
    requires Inv(env, s) && !step.EndBlock?
    ensures var t := Next(env, s, step);
            t.height == s.height && forall k :: k in t.winning ==> k in s.winning && t.winning[k] == s.winning[k]
  {
    hide ValidateAxelarPacket, NextWinning, EncodeLogicCall, Inv, RelayProxyUpgrade, ScheduleCork, AddManagedCellars, RemoveManagedCellars,
         EndBlocker, CancelUpgrade, ProposeUpgrade, Nonce;
    if step.Relay? && Relays(env, s, step, step.chain, env.address(step.target)) {
      var out := PrepareRelay(env, s, step.chain, step.target, step.funded).value;
      ValidationFrame(env, out.state, out.state.params.ibcChannel, out.packet);
    } else {
      QuietStep(env, s, step);
    }
  }

  // ----- nonces -----

  /** How many of the first `n` steps relayed to the contract. */
  ghost function RelayCount(env: Env, s: State, steps: seq<Step>, n: nat, chain: uint64, contract: Address): nat
    requires n <= |steps|
  {
    if n == 0 then 0 else
      RelayCount(env, s, steps, n - 1, chain, contract)
      + if Relays(env, After(env, s, steps, n - 1), steps[n - 1], chain, contract) then 1 else 0
  }

  lemma CountedNonce(s: State, relayed: uint64, to: Address, chain: uint64, contract: Address)
    requires Nonce(s, relayed, to) + 1 < UINT64_LIMIT
    ensures Nonce(Counted(s, relayed, to), chain, contract) ==
            Nonce(s, chain, contract) + if relayed == chain && to == contract then 1 else 0
  {}

  lemma SameNonces(s: State, t: State, chain: uint64, contract: Address)
    requires s.nonces == t.nonces
    ensures Nonce(s, chain, contract) == Nonce(t, chain, contract)
  {}

  lemma StepNonce(env: Env, s: State, step: Step, chain: uint64, contract: Address)
    requires Faithful(env) && Inv(env, s)
    ensures Nonce(Next(env, s, step), chain, contract) ==
            Nonce(s, chain, contract) + if Relays(env, s, step, chain, contract) then 1 else 0
  {
    hide Next, Inv, NextWinning, Faithful, WinnersFrom, Nonce, Counted, RelayCork, Ends, Consumed;
    if step.Relay? && Relays(env, s, step, step.chain, env.address(step.target)) {
      RelayStep(env, s, step, step.chain, env.address(step.target));
      CountedNonce(s, step.chain, env.address(step.target), chain, contract);
      SameNonces(Counted(s, step.chain, env.address(step.target)), Next(env, s, step), chain, contract);
    } else {
      if step.EndBlock? { EndStep(env, s, step); } else { QuietStep(env, s, step); }
      SameNonces(s, Next(env, s, step), chain, contract);
    }
  }

  /** The stored nonce is the number of successful relays so far. */
  lemma {:induction false} NonceCountsRelays(env: Env, s: State, steps: seq<Step>, n: nat, chain: uint64, contract: Address)
    requires Faithful(env) && Inv(env, s) && s.nonces == map[] && n <= |steps|
    ensures Nonce(After(env, s, steps, n), chain, contract) == RelayCount(env, s, steps, n, chain, contract)
  {
    hide Next, Inv, Relays, Faithful;
    if n > 0 {
      NonceCountsRelays(env, s, steps, n - 1, chain, contract);
      RunKeepsInv(env, s, steps, n - 1);
      StepNonce(env, After(env, s, steps, n - 1), steps[n - 1], chain, contract);
    }
  }

  /** The call inside the packet that a relay sends. */
  ghost function SentCall(env: Env, s: State, step: Step): Result<LogicCall, AbiError>
    requires step.Relay?
  {
    var out := PrepareRelay(env, s, step.chain, step.target, step.funded);
    if out.Ok? && out.value.packet.Packet? && out.value.packet.memo.Body? then DecodeLogicCall(out.value.packet.memo.payload)
    else Failure(EmptyData)
  }

  lemma SentCallIs(env: Env, s: State, step: Step, chain: uint64, contract: Address)
    requires Faithful(env) && Inv(env, s) && Relays(env, s, step, chain, contract)
    ensures NextWinning(s, chain, contract).Some?
    ensures SentCall(env, s, step) == Success(CallFor(s, NextWinning(s, chain, contract).value, WrapUint64(Nonce(s, chain, contract) + 1)))
  {
    hide NextWinning, EncodeLogicCall, DecodeLogicCall, ValidateAxelarPacket, UpgradeShape, ScheduledShape, Nonce, NamedChain, Faithful;
    RelayPacket(env, s, chain, step.target, step.funded);
    var call := CallFor(s, NextWinning(s, chain, contract).value, WrapUint64(Nonce(s, chain, contract) + 1));
    LogicCallSize(call);
    LogicCallRoundTrip(call);
  }

  /** The relays to a contract carry the nonces 1, 2, 3, ... without a gap. */
  lemma NoncesWithoutGap(env: Env, s: State, steps: seq<Step>, n: nat, chain: uint64, contract: Address)
    requires Faithful(env) && Inv(env, s) && s.nonces == map[] && n < |steps|
    requires Relays(env, After(env, s, steps, n), steps[n], chain, contract)
    ensures SentCall(env, After(env, s, steps, n), steps[n]).Success?
    ensures var call := SentCall(env, After(env, s, steps, n), steps[n]).value;
            call.target == contract && call.nonce == RelayCount(env, s, steps, n, chain, contract) + 1
  {
    hide Inv, After, NextWinning, SentCall, Relays, RelayCount, Next, Nonce, Faithful, Consumed, Counted;
    RunKeepsInv(env, s, steps, n);
    var now := After(env, s, steps, n);
    NonceCountsRelays(env, s, steps, n, chain, contract);
    SentCallIs(env, now, steps[n], chain, contract);
    assert steps[n].Relay? by { RelaysIsRelay(env, now, steps[n], chain, contract); }
    RelayStep(env, now, steps[n], chain, contract);
  }

  lemma RelaysIsRelay(env: Env, s: State, step: Step, chain: uint64, contract: Address)
    requires Relays(env, s, step, chain, contract)
    ensures step.Relay?
  {}

  // ----- heights -----

  /** The height of the cork that a relay to the contract would take. */
  ghost function RelayHeight(s: State, chain: uint64, contract: Address): int {
    match NextWinning(s, chain, contract) case Some(key) => key.height case None => -1
  }

  /** All winning corks of the contract are later than `height`. */
  ghost predicate AllLater(s: State, chain: uint64, contract: Address, height: int) {
    height < s.height && forall k :: k in s.winning && k.chain == chain && k.contract == contract ==> height < k.height
  }

  /** A relay on a chain whose name finds it leaves only later corks for the contract. */
  lemma RelayLeavesLater(env: Env, s: State, step: Step, chain: uint64, contract: Address)
    requires Faithful(env) && Inv(env, s) && Relays(env, s, step, chain, contract) && FirstOfName(s, chain)
    ensures AllLater(Next(env, s, step), chain, contract, RelayHeight(s, chain, contract))
  {
    hide Next, Relays, Faithful, NamedChain, FirstOfName;
    RelayStep(env, s, step, chain, contract);
    NameFinds(s, chain);
  }

  lemma StepKeepsLater(env: Env, s: State, step: Step, chain: uint64, contract: Address, height: int)
    requires Inv(env, s) && AllLater(s, chain, contract, height)
    ensures AllLater(Next(env, s, step), chain, contract, height)
  {
    hide Next, Inv, ApprovedNow;
    if step.EndBlock? { EndStep(env, s, step); } else { RelaysOnlyConsume(env, s, step); }
  }

  lemma {:induction false} StaysLater(env: Env, s: State, steps: seq<Step>, i: nat, n: nat, chain: uint64, contract: Address)
    requires Faithful(env) && Inv(env, s) && i < n <= |steps|
    requires Relays(env, After(env, s, steps, i), steps[i], chain, contract) && FirstOfName(After(env, s, steps, i), chain)
    ensures AllLater(After(env, s, steps, n), chain, contract, RelayHeight(After(env, s, steps, i), chain, contract))
    decreases n
  {
    hide Next, Inv, FirstOfName, Faithful, Relays, AllLater, RelayHeight;
    RunKeepsInv(env, s, steps, n - 1);
    var before := After(env, s, steps, n - 1);
    if n == i + 1 {
      RelayLeavesLater(env, before, steps[i], chain, contract);
    } else {
      StaysLater(env, s, steps, i, n - 1, chain, contract);
      StepKeepsLater(env, before, steps[n - 1], chain, contract, RelayHeight(After(env, s, steps, i), chain, contract));
    }
  }

  /** After a relay on a chain whose name finds it, every later relay to the contract takes a cork of greater height: the
      cork is not relayed again. */
  lemma HeightsAscend(env: Env, s: State, steps: seq<Step>, i: nat, j: nat, chain: uint64, contract: Address)
    requires Faithful(env) && Inv(env, s) && i < j < |steps|
    requires Relays(env, After(env, s, steps, i), steps[i], chain, contract) && FirstOfName(After(env, s, steps, i), chain)
    requires Relays(env, After(env, s, steps, j), steps[j], chain, contract)
    ensures 0 <= RelayHeight(After(env, s, steps, i), chain, contract) < RelayHeight(After(env, s, steps, j), chain, contract)
  {
    hide Next, Inv, FirstOfName, Faithful, Relays, After, Consumed, Counted;
    StaysLater(env, s, steps, i, j, chain, contract);
    RunKeepsInv(env, s, steps, i);
    RunKeepsInv(env, s, steps, j);
    RelayStep(env, After(env, s, steps, i), steps[i], chain, contract);
    RelayStep(env, After(env, s, steps, j), steps[j], chain, contract);
  }

  // ----- what is relayed was approved -----

  /** Step `i` ended the block at the key's height, and its tally approved `cork`. */
  ghost predicate ApprovedAt(env: Env, s: State, steps: seq<Step>, i: nat, k: WinningKey, cork: Cork)
    requires i < |steps|
  {
    && Ends(env, After(env, s, steps, i), steps[i])
    && NewWinner(env, After(env, s, steps, i), steps[i].staking, k, cork)
  }

  ghost predicate ApprovedBefore(env: Env, s: State, steps: seq<Step>, n: nat, k: WinningKey, cork: Cork)
    requires n <= |steps|
  {
    exists i :: 0 <= i < n && ApprovedAt(env, s, steps, i, k, cork)
  }

  /** After a step, a winning cork is an old one, or was just approved. */
  lemma StepWinners(env: Env, s: State, step: Step, k: WinningKey)
    requires Inv(env, s) && k in Next(env, s, step).winning
    ensures var cork := Next(env, s, step).winning[k];
            (k in s.winning && s.winning[k] == cork) || (Ends(env, s, step) && NewWinner(env, s, step.staking, k, cork))
  {
    hide Next, Inv, NewWinner, Ends;
    if step.EndBlock? { EndStep(env, s, step); } else { RelaysOnlyConsume(env, s, step); }
  }

  lemma {:induction false} WinnersWereApproved(env: Env, s: State, steps: seq<Step>, n: nat, k: WinningKey)
    requires Inv(env, s) && s.winning == map[] && n <= |steps| && k in After(env, s, steps, n).winning
    ensures ApprovedBefore(env, s, steps, n, k, After(env, s, steps, n).winning[k])
  {
    hide Next, Inv, NewWinner, Ends;
    if n > 0 {
      RunKeepsInv(env, s, steps, n - 1);
      var before, cork := After(env, s, steps, n - 1), After(env, s, steps, n).winning[k];
      StepWinners(env, before, steps[n - 1], k);
      if k in before.winning && before.winning[k] == cork {
        WinnersWereApproved(env, s, steps, n - 1, k);
        EarlierApproval(env, s, steps, n - 1, k, cork);
      } else {
        assert ApprovedAt(env, s, steps, n - 1, k, cork);
      }
    }
  }

  lemma EarlierApproval(env: Env, s: State, steps: seq<Step>, n: nat, k: WinningKey, cork: Cork)
    requires n < |steps| && ApprovedBefore(env, s, steps, n, k, cork)
    ensures ApprovedBefore(env, s, steps, n + 1, k, cork)
  {
    hide ApprovedAt;
  }

  /** What a relay sends is a call that the validators approved: the same contract, call data and deadline, from the
      block of the height the cork is stored under. */
  lemma RelayedWasApproved(env: Env, s: State, steps: seq<Step>, n: nat, chain: uint64, contract: Address)
    requires Faithful(env) && Inv(env, s) && s.winning == map[] && n < |steps|
    requires Relays(env, After(env, s, steps, n), steps[n], chain, contract)
    ensures NextWinning(After(env, s, steps, n), chain, contract).Some?
    ensures var now := After(env, s, steps, n);
            var key := NextWinning(now, chain, contract).value;
            && ApprovedBefore(env, s, steps, n, key, now.winning[key])
            && SentCall(env, now, steps[n]).Success?
            && SentCall(env, now, steps[n]).value == CallFor(now, key, SentCall(env, now, steps[n]).value.nonce)
  {
    hide Inv, After, SentCall, Relays, Next, Nonce, Faithful, ApprovedBefore;
    RunKeepsInv(env, s, steps, n);
    var now := After(env, s, steps, n);
    SentCallIs(env, now, steps[n], chain, contract);
    WinnersWereApproved(env, s, steps, n, NextWinning(now, chain, contract).value);
  }
}
