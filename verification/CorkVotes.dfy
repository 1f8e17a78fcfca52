/** Exactly which votes are accepted, where stored votes and winning corks come from, and in what order they are tallied. */
module CorkVotes {
  import opened AxelarProxy
  import opened BigEndian
  import opened CellarLists
  import opened CorkBlock
  import opened CorkKeys
  import opened CorkRelay
  import opened CorkRuns
  import opened CorkSpec
  import opened CorkTally
  import opened CorkTheorems
  import opened CorkTypes
  import opened Integers
  import opened Outcomes

  // ----- scheduling -----

  /** The chain's stored list names the contract. */
  ghost predicate ManagedOn(env: Env, s: State, chain: nat, contract: Address) {
    chain in s.cellars && exists text :: text in s.cellars[chain] && env.address(text) == contract
  }

  lemma CellarsManaged(env: Env, s: State, chain: uint64, contract: Address)
    ensures contract in Cellars(env, s, chain) <==> ManagedOn(env, s, chain, contract)
  {
    var texts := if chain in s.cellars then s.cellars[chain] else [];
    if contract in Cellars(env, s, chain) {
      var i :| 0 <= i < |texts| && Addresses(env, texts)[i] == contract;
      assert texts[i] in texts;
    }
    if ManagedOn(env, s, chain, contract) {
      var text :| text in texts && env.address(text) == contract;
      var i :| 0 <= i < |texts| && texts[i] == text;
      assert Addresses(env, texts)[i] == contract;
    }
  }

  /** What each error of scheduling says. */
  ghost predicate ScheduleCause(env: Env, s: State, validator: Option<Validator>, chain: uint64, height: uint64, cork: Cork, e: CorkError) {
    match e
    case AxelarDisabled => !s.params.enabled
    case NotADelegate => validator.None?
    case ChainNotFound => chain !in s.configs
    case UnmanagedCellarAddress => !ManagedOn(env, s, chain, env.address(cork.target))
    case SchedulingInThePast => height <= s.height
    case _ => false
  }

  /** A vote is accepted exactly while the module is enabled, from a delegate, on a configured chain, for a contract managed
      there and a later height; it is then stored under its chain, height, id, validator and contract, and nothing else
      changes. */
  lemma ScheduleExactly(env: Env, s: State, validator: Option<Validator>, chain: uint64, height: uint64, cork: Cork)
    requires ConfigsKeyed(s)
    ensures var r := ScheduleCork(env, s, validator, chain, height, cork);
            && (r.Ok? <==>
                  && s.params.enabled && validator.Some? && chain in s.configs
                  && ManagedOn(env, s, chain, env.address(cork.target)) && height > s.height)
            && (r.Ok? ==>
                  r.value == s.(scheduled := s.scheduled[ScheduledKey(chain, height, IdHash(env, cork, height), validator.value, env.address(cork.target)) := cork]))
            && (r.Fail? ==> ScheduleCause(env, s, validator, chain, height, cork, r.error))
            && !r.Panic?
  {
    hide IdHash, Cellars, ManagedOn;
    CellarsManaged(env, s, chain, env.address(cork.target));
    if chain in s.configs { assert s.configs[chain].id == chain; }
  }

  // ----- where votes and winning corks come from -----

  /** Step `j` stored this vote: its contract was managed on its configured chain, and its height was still to come. */
  ghost predicate VotedAt(env: Env, s: State, steps: seq<Step>, j: nat, k: ScheduledKey, cork: Cork)
    requires j < |steps|
  {
    var now := After(env, s, steps, j);
    && steps[j] == Schedule(Some(k.validator), k.chain, k.height, cork)
    && k.contract == env.address(cork.target) && k.id == IdHash(env, cork, k.height)
    && now.params.enabled && k.chain in now.configs && ManagedOn(env, now, k.chain, k.contract) && now.height < k.height
  }

  ghost predicate VotedBefore(env: Env, s: State, steps: seq<Step>, n: nat, k: ScheduledKey, cork: Cork)
    requires n <= |steps|
  {
    exists j :: 0 <= j < n && VotedAt(env, s, steps, j, k, cork)
  }

  lemma StepVotes(env: Env, s: State, step: Step, k: ScheduledKey)
    requires Inv(env, s) && k in Next(env, s, step).scheduled
    ensures var cork := Next(env, s, step).scheduled[k];
            || (k in s.scheduled && s.scheduled[k] == cork)
            || (&& step == Schedule(Some(k.validator), k.chain, k.height, cork)
                && k.contract == env.address(cork.target) && k.id == IdHash(env, cork, k.height)
                && s.params.enabled && k.chain in s.configs && ManagedOn(env, s, k.chain, k.contract) && s.height < k.height)
  {
    hide Inv, IdHash, ScheduleCork, ManagedOn, EndBlocker, RelayCork, RelayProxyUpgrade, ValidateAxelarPacket, AddManagedCellars,
         RemoveManagedCellars, ProposeUpgrade, CancelUpgrade;
    if step.Schedule? {
      InvParts(env, s);
      ScheduleExactly(env, s, step.validator, step.chain, step.height, step.cork);
    } else {
      StepScheduled(env, s, step);
    }
  }

  /** In every state of a run without initial votes, each stored vote was scheduled for a contract that was managed then and
      for a height later than that block. */
  lemma {:induction false} VotesWereManaged(env: Env, s: State, steps: seq<Step>, n: nat, k: ScheduledKey)
    requires Inv(env, s) && s.scheduled == map[] && n <= |steps| && k in After(env, s, steps, n).scheduled
    ensures VotedBefore(env, s, steps, n, k, After(env, s, steps, n).scheduled[k])
  {
    hide Next, Inv, VotedAt;
    if n > 0 {
      RunKeepsInv(env, s, steps, n - 1);
      var before, cork := After(env, s, steps, n - 1), After(env, s, steps, n).scheduled[k];
      StepVotes(env, before, steps[n - 1], k);
      if k in before.scheduled && before.scheduled[k] == cork {
        VotesWereManaged(env, s, steps, n - 1, k);
      } else {
        IsVotedAt(env, s, steps, n - 1, k, cork);
      }
    }
  }

  lemma IsVotedAt(env: Env, s: State, steps: seq<Step>, j: nat, k: ScheduledKey, cork: Cork)
    requires j < |steps|
    requires var now := After(env, s, steps, j);
             && steps[j] == Schedule(Some(k.validator), k.chain, k.height, cork)
             && k.contract == env.address(cork.target) && k.id == IdHash(env, cork, k.height)
             && now.params.enabled && k.chain in now.configs && ManagedOn(env, now, k.chain, k.contract) && now.height < k.height
    ensures VotedAt(env, s, steps, j, k, cork)
  {}

  lemma VoteIsStored(s: State, chain: uint64, cork: Cork)
    requires VotedFor(Votes(s, chain), cork)
    ensures StoredVote(s, chain, s.height, cork)
  {
    hide ScheduledRank;
    var keys := VoteKeys(s, chain, s.height);
    var j :| 0 <= j < |keys| && Votes(s, chain)[j].cork == cork;
    assert keys[j] in keys && s.scheduled[keys[j]] == cork;
  }

  ghost predicate StoredVote(s: State, chain: uint64, height: int, cork: Cork) {
    exists k :: k in s.scheduled && k.chain == chain && k.height == height && s.scheduled[k] == cork
  }

  /** An approved cork is one of the votes of its chain and height. */
  lemma ApprovedWasVoted(env: Env, s: State, staking: Staking, chain: uint64, cork: Cork)
    requires ApprovedNow(env, s, staking, chain, cork)
    ensures StoredVote(s, chain, s.height, cork)
  {
    hide Tally, ApprovedCorks, Approved, Votes, VotedFor, Known, EqualPower, PairwiseDifferent, HasGroup, StoredVote;
    var votes := Votes(s, chain);
    var groups := Tally(env, staking.powers, votes);
    ApprovedCorksExactly(groups, staking.total, cork);
    var g :| g in groups && g.cork == cork && Approved(g.power, staking.total);
    TallyGroups(env, staking.powers, votes);
    var i :| 0 <= i < |groups| && groups[i] == g;
    assert PowerBehind(env, staking.powers, votes, groups[i]);
    VoteIsStored(s, chain, cork);
  }

  /** Some validator's vote for the cork, for this chain and height, was accepted. */
  ghost predicate CorkVoted(env: Env, s: State, steps: seq<Step>, n: nat, w: WinningKey, cork: Cork)
    requires n <= |steps|
  {
    exists k: ScheduledKey :: k.chain == w.chain && k.height == w.height && VotedBefore(env, s, steps, n, k, cork)
  }

  /** In every state of a run from an empty store, each winning cork was voted for while its contract was managed on its
      chain, before the block it is stored under. */
  lemma WinnersWereManaged(env: Env, s: State, steps: seq<Step>, n: nat, w: WinningKey)
    requires Inv(env, s) && s.scheduled == map[] && s.winning == map[] && n <= |steps| && w in After(env, s, steps, n).winning
    ensures CorkVoted(env, s, steps, n, w, After(env, s, steps, n).winning[w])
    ensures env.address(After(env, s, steps, n).winning[w].target) == w.contract
  {
    hide Next, Inv, VotedAt, After, Ends, ApprovedNow, StoredVote, VotedBefore, OwnContracts, ConfigsKeyed, ScheduledShape, UpgradeShape;
    var cork := After(env, s, steps, n).winning[w];
    RunKeepsInv(env, s, steps, n);
    InvParts(env, After(env, s, steps, n));
    WinnersWereApproved(env, s, steps, n, w);
    var i: nat :| i < n && ApprovedAt(env, s, steps, i, w, cork);
    ApprovedByBlock(env, After(env, s, steps, i), steps[i], w, cork);
    StoredWasVoted(env, s, steps, i, n, w, cork);
  }

  lemma ApprovedByBlock(env: Env, s: State, step: Step, w: WinningKey, cork: Cork)
    requires Ends(env, s, step) && NewWinner(env, s, step.staking, w, cork)
    ensures StoredVote(s, w.chain, w.height, cork) && s.height == w.height
  {
    hide ApprovedNow, StoredVote, EndBlocker;
    ApprovedWasVoted(env, s, step.staking, w.chain, cork);
  }

  lemma StoredWasVoted(env: Env, s: State, steps: seq<Step>, i: nat, n: nat, w: WinningKey, cork: Cork)
    requires Inv(env, s) && s.scheduled == map[] && i <= n <= |steps| && After(env, s, steps, i).height == w.height
    requires StoredVote(After(env, s, steps, i), w.chain, w.height, cork)
    ensures CorkVoted(env, s, steps, n, w, cork)
  {
    hide Inv, VotedAt, After, VotedBefore;
    var now := After(env, s, steps, i);
    var k :| k in now.scheduled && k.chain == w.chain && k.height == w.height && now.scheduled[k] == cork;
    VotesWereManaged(env, s, steps, i, k);
    Later(env, s, steps, i, n, k, cork);
  }

  lemma Later(env: Env, s: State, steps: seq<Step>, i: nat, n: nat, k: ScheduledKey, cork: Cork)
    requires i <= n <= |steps| && VotedBefore(env, s, steps, i, k, cork)
    ensures VotedBefore(env, s, steps, n, k, cork)
  {
    hide VotedAt;
  }

  // ----- the order of the tally -----

  /** The vote at `m` is the first one equal to `cork`. */
  ghost predicate FirstAt(env: Env, votes: seq<Vote>, cork: Cork, m: int) {
    && 0 <= m < |votes| && Equals(env, cork, votes[m].cork)
    && forall l :: 0 <= l < m ==> !Equals(env, cork, votes[l].cork)
  }

  /** Entry `g` holds the cork of the vote that began it. */
  ghost predicate BegunAt(env: Env, votes: seq<Vote>, g: Group, m: int) {
    FirstAt(env, votes, g.cork, m) && votes[m].cork == g.cork
  }

  ghost predicate HasBegun(env: Env, votes: seq<Vote>, g: Group) { exists m :: BegunAt(env, votes, g, m) }

  /** Entries come in the order of the votes that began them. */
  ghost predicate BegunInOrder(env: Env, votes: seq<Vote>, groups: seq<Group>) {
    && (forall i :: 0 <= i < |groups| ==> HasBegun(env, votes, groups[i]))
    && (forall i, j :: 0 <= i < j < |groups| ==> BegunBefore(env, votes, groups[i], groups[j]))
  }

  ghost predicate BegunBefore(env: Env, votes: seq<Vote>, g: Group, h: Group) {
    forall m, l :: BegunAt(env, votes, g, m) && BegunAt(env, votes, h, l) ==> m < l
  }

  /** Each entry of the tally holds the cork of the first vote equal to it, and the entries are in the order of those votes. */
  lemma {:induction false} EntriesBegin(env: Env, powers: map<Validator, uint64>, votes: seq<Vote>)
    requires Known(powers, votes)
    ensures BegunInOrder(env, votes, Tally(env, powers, votes))
  {
    hide CountVote, Equals, Tally, HasBegun, BegunBefore, HasGroup, PairwiseDifferent, CountedOne;
    if votes == [] {
      TallyEmpty(env, powers);
    } else {
      var n := |votes| - 1;
      EntriesBegin(env, powers, votes[..n]);
      TallyGroups(env, powers, votes[..n]);
      OneEntryMore(env, powers, votes, votes[..n]);
    }
  }

  lemma TallyEmpty(env: Env, powers: map<Validator, uint64>)
    ensures Tally(env, powers, []) == []
  {}

  lemma TallyLast(env: Env, powers: map<Validator, uint64>, votes: seq<Vote>)
    requires Known(powers, votes) && votes != []
    ensures var last := votes[|votes| - 1];
            Tally(env, powers, votes) == CountVote(env, Tally(env, powers, votes[..|votes| - 1]), last.cork, powers[last.validator])
  {}

  lemma OneEntryMore(env: Env, powers: map<Validator, uint64>, votes: seq<Vote>, before: seq<Vote>)
    requires Known(powers, votes) && votes != [] && before == votes[..|votes| - 1]
    requires GroupedBy(env, powers, before, Tally(env, powers, before))
    requires BegunInOrder(env, before, Tally(env, powers, before))
    ensures BegunInOrder(env, votes, Tally(env, powers, votes))
  {
    hide CountVote, Equals, Tally, HasBegun, BegunBefore, HasGroup, PowerBehind;
    var last := votes[|votes| - 1];
    var old_, groups := Tally(env, powers, before), Tally(env, powers, votes);
    TallyLast(env, powers, votes);
    CountVoteEffect(env, old_, last.cork, powers[last.validator]);
    forall i | 0 <= i < |groups| ensures HasBegun(env, votes, groups[i]) {
      if i < |old_| { StillBegun(env, votes, old_[i], groups[i]); } else { NewlyBegun(env, before, last, old_, groups[i], votes); }
    }
    forall i, j | 0 <= i < j < |groups| ensures BegunBefore(env, votes, groups[i], groups[j]) {
      if j < |old_| {
        StillBefore(env, votes, old_[i], old_[j], groups[i], groups[j]);
      } else {
        NewlyBegun(env, before, last, old_, groups[j], votes);
        BeforeTheLast(env, votes, old_[i], groups[i], groups[j]);
      }
    }
  }

  lemma OneBegin(env: Env, votes: seq<Vote>, g: Group, m: int, l: int)
    requires BegunAt(env, votes, g, m) && BegunAt(env, votes, g, l)
    ensures m == l
  {}

  lemma BegunStays(env: Env, votes: seq<Vote>, g: Group, h: Group, m: int)
    requires votes != [] && g.cork == h.cork && BegunAt(env, votes[..|votes| - 1], g, m)
    ensures BegunAt(env, votes, h, m) && 0 <= m < |votes| - 1
  {
    hide Equals;
    assert forall l :: 0 <= l < |votes| - 1 ==> votes[l] == votes[..|votes| - 1][l];
  }

  lemma StillBegun(env: Env, votes: seq<Vote>, g: Group, h: Group)
    requires votes != [] && g.cork == h.cork && HasBegun(env, votes[..|votes| - 1], g)
    ensures HasBegun(env, votes, h)
  {
    hide BegunAt;
    var m :| BegunAt(env, votes[..|votes| - 1], g, m);
    BegunStays(env, votes, g, h, m);
  }

  lemma StillBefore(env: Env, votes: seq<Vote>, g: Group, g': Group, h: Group, h': Group)
    requires votes != [] && g.cork == h.cork && g'.cork == h'.cork
    requires HasBegun(env, votes[..|votes| - 1], g) && HasBegun(env, votes[..|votes| - 1], g')
    requires BegunBefore(env, votes[..|votes| - 1], g, g')
    ensures BegunBefore(env, votes, h, h')
  {
    hide BegunAt;
    var m :| BegunAt(env, votes[..|votes| - 1], g, m);
    var l :| BegunAt(env, votes[..|votes| - 1], g', l);
    BegunStays(env, votes, g, h, m);
    BegunStays(env, votes, g', h', l);
    forall x, y | BegunAt(env, votes, h, x) && BegunAt(env, votes, h', y) ensures x < y {
      OneBegin(env, votes, h, x, m);
      OneBegin(env, votes, h', y, l);
    }
  }

  lemma BeforeTheLast(env: Env, votes: seq<Vote>, g: Group, h: Group, newest: Group)
    requires votes != [] && g.cork == h.cork && HasBegun(env, votes[..|votes| - 1], g) && BegunAt(env, votes, newest, |votes| - 1)
    ensures BegunBefore(env, votes, h, newest)
  {
    hide BegunAt;
    var m :| BegunAt(env, votes[..|votes| - 1], g, m);
    BegunStays(env, votes, g, h, m);
    forall x, y | BegunAt(env, votes, h, x) && BegunAt(env, votes, newest, y) ensures x < y {
      OneBegin(env, votes, h, x, m);
      OneBegin(env, votes, newest, y, |votes| - 1);
    }
  }

  lemma NewlyBegun(env: Env, before: seq<Vote>, last: Vote, groups: seq<Group>, g: Group, votes: seq<Vote>)
    requires votes == before + [last] && g.cork == last.cork && !HasGroup(env, groups, last.cork)
    requires forall i :: 0 <= i < |before| ==> HasGroup(env, groups, before[i].cork)
    ensures BegunAt(env, votes, g, |before|) && HasBegun(env, votes, g)
  {
    hide Equals;
    forall l | 0 <= l < |before| ensures !Equals(env, g.cork, votes[l].cork) {
      assert HasGroup(env, groups, before[l].cork);
      var i :| 0 <= i < |groups| && Equals(env, groups[i].cork, before[l].cork);
      EqualsThrough(env, groups[i].cork, before[l].cork, last.cork);
    }
    EqualsReflexive(env, last.cork);
  }

  lemma EqualsThrough(env: Env, a: Cork, b: Cork, c: Cork)
    requires Equals(env, a, b) && !Equals(env, a, c)
    ensures !Equals(env, c, b)
  {}

  /** The approved corks are those of the approved entries, in the order of the entries. */
  lemma {:induction false} ApprovedInOrder(a: seq<Group>, b: seq<Group>, total: nat)
    requires total > 0
    ensures ApprovedCorks(a + b, total) == ApprovedCorks(a, total) + ApprovedCorks(b, total)
    ensures |b| == 1 ==> ApprovedCorks(b, total) == if Approved(b[0].power, total) then [b[0].cork] else []
  {
    hide Approved, ApprovedCorks;
    ApprovedOfNone(total);
    if b == [] {
      assert a + b == a;
    } else {
      var n := |b| - 1;
      ApprovedInOrder(a, b[..n], total);
      ApprovedLast(b, total);
      ApprovedLast(a + b, total);
      assert (a + b)[..|a| + n] == a + b[..n];
    }
  }

  lemma ApprovedOfNone(total: nat)
    requires total > 0
    ensures ApprovedCorks([], total) == []
  {}

  lemma ApprovedLast(groups: seq<Group>, total: nat)
    requires total > 0 && groups != []
    ensures var g := groups[|groups| - 1];
            ApprovedCorks(groups, total) == ApprovedCorks(groups[..|groups| - 1], total) + if Approved(g.power, total) then [g.cork] else []
  {
    hide Approved;
  }

  // ----- ids -----

  /** The bytes that an id is the digest of: height, chain, contract and call. */
  ghost predicate Preimage(env: Env, c: Cork, height: uint64, bytes: seq<Byte>) {
    && |bytes| == 36 + |c.call|
    && Decode(bytes[0..8]) == height && Decode(bytes[8..16]) == c.chainId
    && Decode(bytes[16..36]) == env.address(c.target) && bytes[36..] == c.call
  }

  lemma IdIsDigest(env: Env, c: Cork, height: uint64)
    ensures exists bytes :: Preimage(env, c, height, bytes) && IdHash(env, c, height) == env.digest(bytes)
  {
    hide Encode, Decode, Pow256;
    KeyWidths();
    DecodeEncode(8, height);
    DecodeEncode(8, c.chainId);
    DecodeEncode(20, env.address(c.target));
    var h, i, a := Encode(8, height), Encode(8, c.chainId), Encode(20, env.address(c.target));
    var bytes := h + i + a + c.call;
    assert bytes[0..8] == h && bytes[8..16] == i && bytes[16..36] == a && bytes[36..] == c.call;
    assert Preimage(env, c, height, bytes);
  }

  /** Two different inputs with one digest. */
  ghost predicate Collision(env: Env) { exists x, y :: x != y && env.digest(x) == env.digest(y) }

  /** Ids agree on equal height, chain, contract and call, whatever the deadline; if others agree, the digest has a collision. */
  lemma IdsAgree(env: Env, c: Cork, h: uint64, d: Cork, k: uint64)
    ensures var equal := h == k && c.chainId == d.chainId && env.address(c.target) == env.address(d.target) && c.call == d.call;
            && (equal ==> IdHash(env, c, h) == IdHash(env, d, k))
            && (!equal && IdHash(env, c, h) == IdHash(env, d, k) ==> Collision(env))
  {
    hide IdHash, Preimage;
    IdIsDigest(env, c, h);
    IdIsDigest(env, d, k);
    var x :| Preimage(env, c, h, x) && IdHash(env, c, h) == env.digest(x);
    var y :| Preimage(env, d, k, y) && IdHash(env, d, k) == env.digest(y);
    if x == y { SamePreimage(env, c, h, d, k, x); }
    if h == k && c.chainId == d.chainId && env.address(c.target) == env.address(d.target) && c.call == d.call { SameId(env, c, d, h); }
  }

  lemma SamePreimage(env: Env, c: Cork, h: uint64, d: Cork, k: uint64, x: seq<Byte>)
    requires Preimage(env, c, h, x) && Preimage(env, d, k, x)
    ensures h == k && c.chainId == d.chainId && env.address(c.target) == env.address(d.target) && c.call == d.call
  {}

  lemma SameId(env: Env, c: Cork, d: Cork, h: uint64)
    requires c.chainId == d.chainId && env.address(c.target) == env.address(d.target) && c.call == d.call
    ensures IdHash(env, c, h) == IdHash(env, d, h)
  {}
}
