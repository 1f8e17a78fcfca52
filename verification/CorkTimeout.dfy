/** What the timeout comparison at the end of a block leaves relayable. */
module CorkTimeout {
  import opened AxelarProxy
  import opened CorkBlock
  import opened CorkRelay
  import opened CorkRuns
  import opened CorkSpec
  import opened CorkTheorems
  import opened CorkTypes
  import opened Integers
  import opened Outcomes

  /** The comparison deletes the corks within the timeout and keeps the older ones, once the height has reached the
      timeout; before that the subtraction wraps and nothing is deleted. */
  lemma DeletesWithinTimeout(height: Height, params: CorkParams, k: WinningKey)
    requires k.height <= height
    ensures PastTimeout(height, params)(k) <==> params.corkTimeoutBlocks <= height <= k.height + params.corkTimeoutBlocks
  {
    assert -UINT64_LIMIT < height - params.corkTimeoutBlocks < UINT64_LIMIT;
  }

  /** An approved cork becomes relayable if and only if it is the last approved one for its contract and the height is
      still below the timeout: from there on the end of the block deletes it again at once. */
  lemma ApprovedStaysBelowTimeout(env: Env, s: State, staking: Staking, chain: uint64, c: Cork)
    requires ConfigsKeyed(s) && WinningShape(env, s) && chain in s.configs
    requires EndBlocker(env, s, staking, PastTimeout(s.height, s.params)).Ok?
    requires ApprovedNow(env, s, staking, chain, c)
    ensures Lookup(EndBlocker(env, s, staking, PastTimeout(s.height, s.params)).value.winning, WinningKey(chain, s.height, env.address(c.target))) == Some(c)
            <==> s.height < s.params.corkTimeoutBlocks && LastFor(env, ApprovedList(env, s, staking, chain), env.address(c.target)) == Some(c)
  {
    hide EndBlocker, PastTimeout, ApprovedNow, ApprovedList, LastFor, Lookup, ConfigsKeyed, WinningShape;
    ApprovedIsStored(env, s, staking, PastTimeout(s.height, s.params), chain, c);
    DeletesWithinTimeout(s.height, s.params, WinningKey(chain, s.height, env.address(c.target)));
  }

  // ----- whole runs -----

  /** Every end of a block deletes by the code's comparison, with a timeout of at most `limit`. */
  ghost predicate TimesOut(env: Env, s: State, steps: seq<Step>, limit: int) {
    forall n :: 0 <= n < |steps| && steps[n].EndBlock? ==> TimesOutAt(After(env, s, steps, n), steps[n], limit)
  }

  ghost predicate TimesOutAt(s: State, step: Step, limit: int)
    requires step.EndBlock?
  {
    s.params.corkTimeoutBlocks <= limit && forall k :: step.expires(k) == PastTimeout(s.height, s.params)(k)
  }

  /** Winning corks of heights from `first` on and below `limit`. */
  ghost predicate WinningWithin(s: State, first: int, limit: int) {
    first <= s.height && forall k :: k in s.winning ==> first <= k.height < limit
  }

  lemma BlockWithin(env: Env, s: State, step: Step, first: int, limit: int)
    requires Inv(env, s) && WinningWithin(s, first, limit) && step.EndBlock? && TimesOutAt(s, step, limit)
    ensures WinningWithin(Next(env, s, step), first, limit)
  {
    hide EndBlocker, Winner, Inv, OwnContracts;
    InvParts(env, s);
    if Ends(env, s, step) {
      EndBlockerEffect(env, s, step.staking, step.expires);
      var t := EndBlocker(env, s, step.staking, step.expires).value;
      forall k | k in t.winning ensures first <= k.height < limit {
        assert Lookup(t.winning, k) == Some(t.winning[k]);
        if k !in s.winning { NewIsBelowTimeout(env, s, step, k, limit); }
      }
    }
  }

  lemma NewIsBelowTimeout(env: Env, s: State, step: Step, k: WinningKey, limit: int)
    requires step.EndBlock? && TimesOutAt(s, step, limit) && k !in s.winning
    requires WinningAfter(env, s, step.staking, step.expires, s.winning, k, k.chain as nat in s.configs).Some?
    ensures k.height == s.height < limit
  {
    hide LastFor, ApprovedList, PastTimeout;
    assert k.height == s.height;
    DeletesWithinTimeout(s.height, s.params, k);
  }

  lemma StepWithin(env: Env, s: State, step: Step, first: int, limit: int)
    requires Inv(env, s) && WinningWithin(s, first, limit)
    requires step.EndBlock? ==> TimesOutAt(s, step, limit)
    ensures WinningWithin(Next(env, s, step), first, limit)
  {
    hide Inv, Next, TimesOutAt;
    if step.EndBlock? { BlockWithin(env, s, step, first, limit); } else { RelaysOnlyConsume(env, s, step); }
  }

  /** In a run that starts without winning corks, every relayable cork was approved at a height below the timeout. */
  lemma {:induction false} RelayableBelowTimeout(env: Env, s: State, steps: seq<Step>, n: nat, limit: int)
    requires Inv(env, s) && s.winning == map[] && n <= |steps| && TimesOut(env, s, steps, limit)
    ensures WinningWithin(After(env, s, steps, n), s.height, limit)
  {
    hide Inv, Next, TimesOutAt;
    if n > 0 {
      RelayableBelowTimeout(env, s, steps, n - 1, limit);
      RunKeepsInv(env, s, steps, n - 1);
      StepWithin(env, After(env, s, steps, n - 1), steps[n - 1], s.height, limit);
    }
  }

  /** In a run that starts at the timeout or later, whatever is approved, no relay of a cork ever succeeds. */
  lemma NothingRelayedFromTimeoutOn(env: Env, s: State, steps: seq<Step>, n: nat, limit: int, chain: uint64, contract: Address)
    requires Inv(env, s) && s.winning == map[] && n < |steps| && TimesOut(env, s, steps, limit)
    requires limit <= s.height
    ensures After(env, s, steps, n).winning == map[]
    ensures !Relays(env, After(env, s, steps, n), steps[n], chain, contract)
  {
    hide Inv, TimesOut, After;
    RelayableBelowTimeout(env, s, steps, n, limit);
    var now := After(env, s, steps, n);
    assert forall k :: k !in now.winning;
    NothingToRelay(env, now, steps[n], chain, contract);
  }

  lemma NothingToRelay(env: Env, s: State, step: Step, chain: uint64, contract: Address)
    requires s.winning == map[]
    ensures !Relays(env, s, step, chain, contract)
  {
    hide EncodeLogicCall, ValidateAxelarPacket;
  }
}
