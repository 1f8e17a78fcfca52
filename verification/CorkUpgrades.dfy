/** Proxy upgrades over whole runs. */
module CorkUpgrades {
  import opened AxelarProxy
  import opened CellarLists
  import opened CorkBlock
  import opened CorkRelay
  import opened CorkRuns
  import opened CorkSpec
  import opened CorkTheorems
  import opened CorkTypes
  import opened Integers

  // ----- upgrades -----

  /** The step replaces, cancels or relays the chain's pending upgrade. */
  ghost predicate Touches(env: Env, s: State, step: Step, chain: uint64) {
    match step
    case Upgrade(c, _) => c == chain && chain in s.configs
    case Cancel(c) => c == chain && chain in s.configs
    case RelayUpgrade(c, funded, sent) => c == chain && RelayProxyUpgrade(env, s, chain, funded, sent).Ok?
    case _ => false
  }

  /** An upgrade that is pending after a step was pending before, untouched, or was proposed by the step. */
  lemma StepUpgrade(env: Env, s: State, step: Step, chain: uint64)
    requires Inv(env, s) && chain in Next(env, s, step).upgrades
    ensures if Touches(env, s, step, chain)
            then step.Upgrade? && Next(env, s, step).upgrades[chain] == UpgradeFor(env, s, chain, step.newProxy)
            else chain in s.upgrades && s.upgrades[chain] == Next(env, s, step).upgrades[chain]
  {
    hide EndBlocker, ValidateAxelarPacket, RelayCork, RelayProxyUpgrade, ScheduleCork, ProposeUpgrade, CancelUpgrade, CheckCellarIds, Cellars, UpgradeFor,
         ScheduledShape, WinningShape, WinnersFrom, NextWinning, Nonce, NamedChain;
    match step {
      case Upgrade(_, _) => SmallStepUpgrade(env, s, step, chain);
      case Cancel(_) => SmallStepUpgrade(env, s, step, chain);
      case Schedule(_, _, _, _) => SmallStepUpgrade(env, s, step, chain);
      case Relay(_, _, _, _) => RelayKeepsUpgrades(env, s, step);
      case RelayUpgrade(c, funded, sent) => if RelayProxyUpgrade(env, s, c, funded, sent).Ok? { RelayUpgradeEffect(env, s, c, funded, sent); }
      case SendPacket(channel, packet) => if !FromModule(env, packet) { OthersChangeNothing(env, s, channel, packet); }
      case EndBlock(_, _) => EndStep(env, s, step);
      case _ =>
    }
  }

  lemma SmallStepUpgrade(env: Env, s: State, step: Step, chain: uint64)
    requires step.Upgrade? || step.Cancel? || step.Schedule?
    requires chain in Next(env, s, step).upgrades
    ensures if Touches(env, s, step, chain)
            then step.Upgrade? && Next(env, s, step).upgrades[chain] == UpgradeFor(env, s, chain, step.newProxy)
            else chain in s.upgrades && s.upgrades[chain] == Next(env, s, step).upgrades[chain]
  {
    hide EndBlocker, ValidateAxelarPacket, RelayCork, RelayProxyUpgrade, Cellars, UpgradeFor, AddManagedCellars, RemoveManagedCellars;
  }

  /** A relayed cork proposes no upgrade. */
  lemma RelayKeepsUpgrades(env: Env, s: State, step: Step)
    requires step.Relay?
    ensures forall c :: c in Next(env, s, step).upgrades ==> c in s.upgrades && s.upgrades[c] == Next(env, s, step).upgrades[c]
  {
    hide ValidateAxelarPacket, EncodeLogicCall, NextWinning, EndBlocker, RelayProxyUpgrade, ScheduleCork, AddManagedCellars,
         RemoveManagedCellars, ProposeUpgrade, CancelUpgrade;
    if RelayCork(env, s, step.chain, step.target, step.funded, step.sent).Ok? {
      var out := PrepareRelay(env, s, step.chain, step.target, step.funded).value;
      ValidationFrame(env, out.state, out.state.params.ibcChannel, out.packet);
    }
  }

  /** Step `j` proposed the chain's upgrade that is pending after `n` steps, and no later step touched it. */
  ghost predicate ProposedAt(env: Env, s: State, steps: seq<Step>, n: nat, chain: uint64, j: nat)
    requires n <= |steps|
  {
    && j < n && steps[j].Upgrade? && steps[j].chain == chain
    && chain in After(env, s, steps, n).upgrades
    && After(env, s, steps, n).upgrades[chain] == UpgradeFor(env, After(env, s, steps, j), chain, steps[j].newProxy)
    && forall m :: j < m < n ==> !Touches(env, After(env, s, steps, m), steps[m], chain)
  }

  lemma {:induction false} PendingWasProposed(env: Env, s: State, steps: seq<Step>, n: nat, chain: uint64)
    requires Inv(env, s) && s.upgrades == map[] && n <= |steps| && chain in After(env, s, steps, n).upgrades
    ensures exists j :: ProposedAt(env, s, steps, n, chain, j)
  {
    hide Next, Inv, Touches, UpgradeFor;
    if n > 0 {
      RunKeepsInv(env, s, steps, n - 1);
      var before := After(env, s, steps, n - 1);
      StepUpgrade(env, before, steps[n - 1], chain);
      if Touches(env, before, steps[n - 1], chain) {
        TouchNames(env, before, steps[n - 1], chain);
        assert ProposedAt(env, s, steps, n, chain, n - 1);
      } else {
        PendingWasProposed(env, s, steps, n - 1, chain);
        var j: nat :| ProposedAt(env, s, steps, n - 1, chain, j);
        assert ProposedAt(env, s, steps, n, chain, j);
      }
    }
  }

  lemma TouchNames(env: Env, s: State, step: Step, chain: uint64)
    requires Touches(env, s, step, chain) && step.Upgrade?
    ensures step.chain == chain
  {}

  /** Step `j` proposed what is pending after `n` steps; its payload names the proposed proxy and the cellars managed at that
      time, of which there was at least one, and it is at least 21600 blocks old. */
  ghost predicate DueProposal(env: Env, s: State, steps: seq<Step>, n: nat, chain: uint64, j: nat)
    requires n <= |steps|
  {
    && ProposedAt(env, s, steps, n, chain, j)
    && var earlier, now := After(env, s, steps, j), After(env, s, steps, n);
       var u := AxelarProxy.Upgrade(env.address(steps[j].newProxy), Cellars(env, earlier, chain));
       && now.upgrades[chain].payload == EncodeUpgrade(u)
       && (earlier.height + 21_600 < INT64_LIMIT ==> earlier.height + 21_600 <= now.height)
       && (|EncodeUpgrade(u)| < INT64_LIMIT ==> u.targets != [])
  }

  /** A relayed upgrade is the chain's latest proposal, neither replaced, cancelled nor relayed since, and it is due. */
  lemma RelayedUpgradeIsLatestProposal(env: Env, s: State, steps: seq<Step>, n: nat)
    requires Faithful(env) && Inv(env, s) && s.upgrades == map[] && n < |steps| && steps[n].RelayUpgrade?
    requires RelayProxyUpgrade(env, After(env, s, steps, n), steps[n].chain, steps[n].funded, steps[n].sent).Ok?
    ensures exists j :: DueProposal(env, s, steps, n, steps[n].chain, j)
  {
    hide After, Inv, Touches, RelayProxyUpgrade, ProposedAt, DueProposal, ConfigsKeyed, Faithful, WinningShape, ScheduledShape, UpgradeShape, NamedChain;
    RunKeepsInv(env, s, steps, n);
    InvParts(env, After(env, s, steps, n));
    RelayUpgradeEffect(env, After(env, s, steps, n), steps[n].chain, steps[n].funded, steps[n].sent);
    PendingWasProposed(env, s, steps, n, steps[n].chain);
    var j: nat :| ProposedAt(env, s, steps, n, steps[n].chain, j);
    ProposalIsDue(env, s, steps, n, steps[n].chain, steps[n].funded, steps[n].sent, j);
  }

  lemma ProposalIsDue(env: Env, s: State, steps: seq<Step>, n: nat, chain: uint64, funded: bool, sent: bool, j: nat)
    requires Faithful(env) && n <= |steps| && ConfigsKeyed(After(env, s, steps, n)) && ProposedAt(env, s, steps, n, chain, j)
    requires RelayProxyUpgrade(env, After(env, s, steps, n), chain, funded, sent).Ok?
    requires After(env, s, steps, n).upgrades[chain].threshold <= After(env, s, steps, n).height
    ensures DueProposal(env, s, steps, n, chain, j)
  {
    hide After, Touches, RelayProxyUpgrade, EncodeUpgrade, Cellars, ConfigsKeyed, Faithful, Addresses, Texts;
    var u := AxelarProxy.Upgrade(env.address(steps[j].newProxy), Cellars(env, After(env, s, steps, j), chain));
    AddressesOfTexts(env, u.targets);
    if |EncodeUpgrade(u)| < INT64_LIMIT {
      RelayedHasTargets(env, After(env, s, steps, n), chain, funded, sent, u);
    }
  }

  lemma AddressesOfTexts(env: Env, xs: seq<Address>)
    requires Faithful(env)
    ensures Addresses(env, Texts(env, xs)) == xs
  {}

  lemma RelayedHasTargets(env: Env, s: State, chain: uint64, funded: bool, sent: bool, u: AxelarProxy.Upgrade)
    requires ConfigsKeyed(s) && |EncodeUpgrade(u)| < INT64_LIMIT
    requires chain in s.upgrades && s.upgrades[chain].payload == EncodeUpgrade(u)
    requires RelayProxyUpgrade(env, s, chain, funded, sent).Ok?
    ensures u.targets != []
  {
    hide EncodeUpgrade, RelayProxyUpgrade;
    if u.targets == [] { NoTargetsNoRelay(env, s, chain, funded, sent, u); }
  }
}
