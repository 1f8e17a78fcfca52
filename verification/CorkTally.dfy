/** Counting the votes of one chain and height, and what the count means. */
module CorkTally {
  import opened Arithmetic
  import opened Collections
  import opened CorkTypes
  import opened Decimal
  import opened Integers

  /** 0.67 */
  const THRESHOLD := 670_000_000_000_000_000

  datatype Vote = Vote(validator: Validator, cork: Cork)

  /** A cork and the voting power gathered for it: the tally's two parallel lists, entry by entry. */
  datatype Group = Group(cork: Cork, power: uint64)

  // ----- the count -----

  /** Add a vote to the first equal cork, or start a new entry. */
  function CountVote(env: Env, groups: seq<Group>, cork: Cork, power: uint64): seq<Group> {
    if groups == [] then [Group(cork, power)]
    else if Equals(env, groups[0].cork, cork) then [groups[0].(power := WrapUint64(groups[0].power + power))] + groups[1..]
    else [groups[0]] + CountVote(env, groups[1..], cork, power)
  }

  /** Every voter is a known validator. */
  predicate Known(powers: map<Validator, uint64>, votes: seq<Vote>) {
    forall v :: v in votes ==> v.validator in powers
  }

  function Tally(env: Env, powers: map<Validator, uint64>, votes: seq<Vote>): seq<Group>
    requires Known(powers, votes)
  {
    if votes == [] then [] else
      var last := votes[|votes| - 1];
      CountVote(env, Tally(env, powers, votes[..|votes| - 1]), last.cork, powers[last.validator])
  }

  function Percentage(power: nat, total: nat): int
    requires total > 0
  {
    Quo(FromInt(power), FromInt(total))
  }

  predicate Approved(power: nat, total: nat)
    requires total > 0
  {
    Percentage(power, total) > THRESHOLD
  }

  /** The corks whose share exceeds the threshold, in the order of the tally. */
  function ApprovedCorks(groups: seq<Group>, total: nat): seq<Cork>
    requires total > 0
  {
    if groups == [] then [] else
      var g := groups[|groups| - 1];
      ApprovedCorks(groups[..|groups| - 1], total) + if Approved(g.power, total) then [g.cork] else []
  }

  // ----- the tally is a correct group-by -----

  /** The power of the votes equal to `cork`. */
  function EqualPower(env: Env, powers: map<Validator, uint64>, votes: seq<Vote>, cork: Cork): nat
    requires Known(powers, votes)
  {
    if votes == [] then 0 else
      var last := votes[|votes| - 1];
      EqualPower(env, powers, votes[..|votes| - 1], cork) + if Equals(env, cork, last.cork) then powers[last.validator] else 0
  }

  ghost predicate PairwiseDifferent(env: Env, groups: seq<Group>) {
    forall i, j :: 0 <= i < j < |groups| ==> !Equals(env, groups[i].cork, groups[j].cork)
  }

  ghost predicate HasGroup(env: Env, groups: seq<Group>, cork: Cork) {
    exists i :: 0 <= i < |groups| && Equals(env, groups[i].cork, cork)
  }

  ghost predicate VotedFor(votes: seq<Vote>, cork: Cork) {
    exists i :: 0 <= i < |votes| && votes[i].cork == cork
  }

  /** How one vote changes the entries. */
  ghost predicate CountedOne(env: Env, groups: seq<Group>, counted: seq<Group>, cork: Cork, power: uint64) {
    && |counted| == |groups| + (if HasGroup(env, groups, cork) then 0 else 1)
    && (forall i :: 0 <= i < |groups| ==> counted[i] == AfterVote(env, groups[i], cork, power))
    && (|counted| > |groups| ==> counted[|groups|] == Group(cork, power))
  }

  function AfterVote(env: Env, g: Group, cork: Cork, power: uint64): Group {
    if Equals(env, g.cork, cork) then g.(power := WrapUint64(g.power + power)) else g
  }

  lemma {:induction false} CountVoteEffect(env: Env, groups: seq<Group>, cork: Cork, power: uint64)
    requires PairwiseDifferent(env, groups)
    ensures CountedOne(env, groups, CountVote(env, groups, cork, power), cork, power)
  {
    if groups != [] && !Equals(env, groups[0].cork, cork) {
      CountVoteEffect(env, groups[1..], cork, power);
      var rest := CountVote(env, groups[1..], cork, power);
      assert HasGroup(env, groups, cork) <==> HasGroup(env, groups[1..], cork) by {
        if i :| 0 <= i < |groups| && Equals(env, groups[i].cork, cork) { assert Equals(env, groups[1..][i - 1].cork, cork); }
      }
      forall i | 0 <= i < |groups| ensures ([groups[0]] + rest)[i] == AfterVote(env, groups[i], cork, power) {
        if i > 0 { assert groups[i] == groups[1..][i - 1]; }
      }
    } else if groups != [] {
      assert HasGroup(env, groups, cork);
    }
  }

  /** What the count promises: one entry for each different call, with the exact power behind it (modulo 2^64). */
  ghost predicate GroupedBy(env: Env, powers: map<Validator, uint64>, votes: seq<Vote>, groups: seq<Group>)
    requires Known(powers, votes)
  {
    && PairwiseDifferent(env, groups)
    && (forall i :: 0 <= i < |groups| ==> PowerBehind(env, powers, votes, groups[i]))
    && (forall i :: 0 <= i < |votes| ==> HasGroup(env, groups, votes[i].cork))
  }

  ghost predicate PowerBehind(env: Env, powers: map<Validator, uint64>, votes: seq<Vote>, g: Group)
    requires Known(powers, votes)
  {
    g.power == WrapUint64(EqualPower(env, powers, votes, g.cork)) && VotedFor(votes, g.cork)
  }

  lemma {:induction false} TallyGroups(env: Env, powers: map<Validator, uint64>, votes: seq<Vote>)
    requires Known(powers, votes)
    ensures GroupedBy(env, powers, votes, Tally(env, powers, votes))
  {
    hide CountVote, PairwiseDifferent, PowerBehind, HasGroup;
    if votes != [] {
      var before, last := votes[..|votes| - 1], votes[|votes| - 1];
      TallyGroups(env, powers, before);
      OneMoreVote(env, powers, before, last, Tally(env, powers, before));
      assert votes == before + [last];
    } else {
      assert PairwiseDifferent(env, []) by { NoGroups(env); }
    }
  }

  lemma VotesMakeGroups(env: Env, powers: map<Validator, uint64>, votes: seq<Vote>)
    requires Known(powers, votes) && votes != []
    ensures Tally(env, powers, votes) != []
  {}

  lemma NoGroups(env: Env)
    ensures PairwiseDifferent(env, [])
  {}

  lemma OneMoreVote(env: Env, powers: map<Validator, uint64>, votes: seq<Vote>, last: Vote, groups: seq<Group>)
    requires Known(powers, votes) && last.validator in powers && GroupedBy(env, powers, votes, groups)
    ensures Known(powers, votes + [last])
    ensures GroupedBy(env, powers, votes + [last], CountVote(env, groups, last.cork, powers[last.validator]))
  {
    hide CountVote, Equals, PowerBehind, HasGroup, PairwiseDifferent, AfterVote, WrapUint64;
    var power := powers[last.validator];
    var counted := CountVote(env, groups, last.cork, power);
    CountVoteEffect(env, groups, last.cork, power);
    forall i | 0 <= i < |counted| ensures PowerBehind(env, powers, votes + [last], counted[i]) {
      if i < |groups| {
        GroupGrows(env, powers, votes, last, groups[i]);
      } else {
        NoEqualVotes(env, powers, votes, groups, last.cork);
        GroupStarts(env, powers, votes, last);
      }
    }
    GroupsKept(env, groups, counted, last.cork, votes, power);
    StillDifferent(env, groups, counted, last.cork, power);
  }

  lemma AppendedVote(env: Env, powers: map<Validator, uint64>, votes: seq<Vote>, last: Vote, cork: Cork)
    requires Known(powers, votes + [last]) && Known(powers, votes)
    ensures EqualPower(env, powers, votes + [last], cork)
         == EqualPower(env, powers, votes, cork) + if Equals(env, cork, last.cork) then powers[last.validator] else 0
    ensures VotedFor(votes, cork) || cork == last.cork ==> VotedFor(votes + [last], cork)
  {
    var now := votes + [last];
    assert now[..|votes|] == votes && now[|votes|] == last;
    if VotedFor(votes, cork) {
      var i :| 0 <= i < |votes| && votes[i].cork == cork;
      assert now[i].cork == cork;
    }
  }

  lemma GroupGrows(env: Env, powers: map<Validator, uint64>, votes: seq<Vote>, last: Vote, g: Group)
    requires Known(powers, votes) && Known(powers, votes + [last]) && last.validator in powers
    requires PowerBehind(env, powers, votes, g)
    ensures PowerBehind(env, powers, votes + [last], AfterVote(env, g, last.cork, powers[last.validator]))
  {
    hide EqualPower, VotedFor, Equals;
    AppendedVote(env, powers, votes, last, g.cork);
  }

  lemma GroupStarts(env: Env, powers: map<Validator, uint64>, votes: seq<Vote>, last: Vote)
    requires Known(powers, votes) && Known(powers, votes + [last]) && last.validator in powers
    requires EqualPower(env, powers, votes, last.cork) == 0
    ensures PowerBehind(env, powers, votes + [last], Group(last.cork, powers[last.validator]))
  {
    hide EqualPower, VotedFor;
    AppendedVote(env, powers, votes, last, last.cork);
  }

  lemma StillDifferent(env: Env, groups: seq<Group>, counted: seq<Group>, cork: Cork, power: uint64)
    requires PairwiseDifferent(env, groups) && CountedOne(env, groups, counted, cork, power)
    ensures PairwiseDifferent(env, counted)
  {
    hide Equals;
    forall i, j | 0 <= i < j < |counted| ensures !Equals(env, counted[i].cork, counted[j].cork) {
      if j == |groups| { assert !HasGroup(env, groups, cork); }
    }
  }

  lemma EqualsReflexive(env: Env, c: Cork)
    ensures Equals(env, c, c)
  {}

  /** Every vote still has its entry, and the new one has too. */
  lemma GroupsKept(env: Env, groups: seq<Group>, counted: seq<Group>, cork: Cork, votes: seq<Vote>, power: uint64)
    requires CountedOne(env, groups, counted, cork, power)
    requires forall i :: 0 <= i < |votes| ==> HasGroup(env, groups, votes[i].cork)
    ensures HasGroup(env, counted, cork)
    ensures forall i :: 0 <= i < |votes| ==> HasGroup(env, counted, votes[i].cork)
  {
    hide Equals;
    EqualsReflexive(env, cork);
    forall c | HasGroup(env, groups, c) ensures HasGroup(env, counted, c) {
      var i :| 0 <= i < |groups| && Equals(env, groups[i].cork, c);
      assert Equals(env, counted[i].cork, c);
    }
    if !HasGroup(env, groups, cork) { assert Equals(env, counted[|groups|].cork, cork); }
  }

  lemma EqualHasGroup(env: Env, groups: seq<Group>, c: Cork, d: Cork)
    requires HasGroup(env, groups, c) && Equals(env, d, c)
    ensures HasGroup(env, groups, d)
  {
    var i :| 0 <= i < |groups| && Equals(env, groups[i].cork, c);
    assert Equals(env, groups[i].cork, d);
  }

  /** A cork without an entry has no equal vote. */
  lemma {:induction false} NoEqualVotes(env: Env, powers: map<Validator, uint64>, votes: seq<Vote>, groups: seq<Group>, cork: Cork)
    requires Known(powers, votes) && !HasGroup(env, groups, cork)
    requires forall i :: 0 <= i < |votes| ==> HasGroup(env, groups, votes[i].cork)
    ensures EqualPower(env, powers, votes, cork) == 0
  {
    hide HasGroup, Equals;
    if votes != [] {
      NoEqualVotes(env, powers, votes[..|votes| - 1], groups, cork);
      if Equals(env, cork, votes[|votes| - 1].cork) { EqualHasGroup(env, groups, votes[|votes| - 1].cork, cork); }
    }
  }

  // ----- the threshold -----

  /** The rounded comparison, exactly: a share is approved when it exceeds 0.67 by at least half a unit of the
      18th decimal, and a little more. */
  lemma ApprovedExactly(power: nat, total: nat)
    requires total > 0
    ensures Approved(power, total) <==> (100 * power - 67 * total) * POW34 >= (ONE / 2 + 1) * total
  {
    var digits := power * (ONE * ONE) / total;
    SameQuotient(power, total);
    RoundsAbove(digits);
    DivAtLeast(power * (ONE * ONE), total, 67 * POW34 + ONE / 2 + 1);
  }

  const POW34 := 10_000_000_000_000_000 * ONE

  /** The 36-digit quotient of two whole numbers. */
  lemma SameQuotient(power: nat, total: nat)
    requires total > 0
    ensures Percentage(power, total) == ChopRound(power * (ONE * ONE) / total)
    ensures power * (ONE * ONE) / total >= 0
  {
    DivAtLeast(power * (ONE * ONE), total, 0);
    var d := FromInt(total);
    var x := power * (ONE * ONE);
    assert FromInt(power) * ONE * ONE == x * ONE;
    var q, r := x / total, x % total;
    assert x == q * total + r;
    Distribute(q, total, r, ONE);
    assert x * ONE == q * d + r * ONE by { assert q * total * ONE == q * d; }
    DivUnique(x * ONE, d, q, r * ONE);
  }

  lemma RoundsAbove(digits: nat)
    ensures ChopRound(digits) > THRESHOLD <==> digits >= 67 * POW34 + ONE / 2 + 1
  {}

  /** Below 2 * 10^16 of total power the rounding never matters. */
  lemma ApprovedIffOver67Percent(power: nat, total: nat)
    requires 0 < total < 20_000_000_000_000_000
    ensures Approved(power, total) <==> 100 * power > 67 * total
  {
    hide Approved;
    ApprovedExactly(power, total);
  }

  /** An approved cork always has more than 67 percent, however large the total. */
  lemma ApprovedHasOver67Percent(power: nat, total: nat)
    requires total > 0 && Approved(power, total)
    ensures 100 * power > 67 * total
  {
    hide Approved;
    ApprovedExactly(power, total);
  }

  /** Of a total of 10^19, the smallest majority over 67 percent is rounded down to 0.67 and fails. */
  lemma BareMajorityRoundedDown()
    ensures 100 * 6_700_000_000_000_000_001 > 67 * 10_000_000_000_000_000_000
    ensures !Approved(6_700_000_000_000_000_001, 10_000_000_000_000_000_000)
  {
    hide Approved;
    ApprovedExactly(6_700_000_000_000_000_001, 10_000_000_000_000_000_000);
  }

  // ----- quorum agreement -----

  /** The power of a set of validators. */
  function PowerOf(powers: map<Validator, uint64>, vs: set<nat>): nat
    requires forall v :: v in vs ==> v in powers
  {
    if vs == {} then 0 else PowerOf(powers, vs - {Max(vs)}) + powers[Max(vs)]
  }

  lemma {:induction false} PowerOfWithout(powers: map<Validator, uint64>, vs: set<nat>, v: nat)
    requires v in vs && forall u :: u in vs ==> u in powers
    ensures PowerOf(powers, vs) == PowerOf(powers, vs - {v}) + powers[v]
    decreases |vs|
  {
    var m := Max(vs);
    if v != m {
      PowerOfWithout(powers, vs - {m}, v);
      assert vs - {m} - {v} == vs - {v} - {m};
      assert Max(vs - {v}) == m;
    }
  }

  lemma {:induction false} PowerOfUnion(powers: map<Validator, uint64>, a: set<nat>, b: set<nat>)
    requires forall u :: u in a + b ==> u in powers
    ensures PowerOf(powers, a) + PowerOf(powers, b) == PowerOf(powers, a + b) + PowerOf(powers, a * b)
    decreases |a|
  {
    hide PowerOf;
    if a == {} {
      assert a + b == b && a * b == {};
    } else {
      var v :| v in a;
      PowerOfUnion(powers, a - {v}, b);
      PowerOfWithout(powers, a, v);
      if v in b {
        assert (a - {v}) + b == a + b;
        assert (a - {v}) * b == a * b - {v};
        PowerOfWithout(powers, a * b, v);
      } else {
        assert (a - {v}) + b == (a + b) - {v};
        assert (a - {v}) * b == a * b;
        PowerOfWithout(powers, a + b, v);
      }
    }
  }

  lemma PowerOfSubset(powers: map<Validator, uint64>, a: set<nat>, all: set<nat>)
    requires a <= all && forall u :: u in all ==> u in powers
    ensures PowerOf(powers, a) <= PowerOf(powers, all)
  {
    PowerOfUnion(powers, a, all - a);
    assert a + (all - a) == all && a * (all - a) == {};
  }

  /** The validators whose vote is equal to `cork`. */
  function Voters(env: Env, votes: seq<Vote>, cork: Cork): (vs: set<nat>) {
    set v | v in votes && Equals(env, cork, v.cork) :: v.validator as nat
  }

  lemma VotersKnown(env: Env, powers: map<Validator, uint64>, votes: seq<Vote>, cork: Cork)
    requires Known(powers, votes)
    ensures forall v :: v in Voters(env, votes, cork) ==> v in powers
  {}

  /** No validator of positive power has two votes equal to `cork`. */
  ghost predicate CountedOnce(env: Env, powers: map<Validator, uint64>, votes: seq<Vote>, cork: Cork)
    requires Known(powers, votes)
  {
    forall i, j :: 0 <= i < j < |votes| && votes[i].validator == votes[j].validator ==>
      Equals(env, cork, votes[i].cork) && Equals(env, cork, votes[j].cork) ==> powers[votes[i].validator] == 0
  }

  /** The power that an entry holds beyond that of the validators behind it. */
  function Overcount(env: Env, powers: map<Validator, uint64>, votes: seq<Vote>, cork: Cork): int
    requires Known(powers, votes)
  {
    VotersKnown(env, powers, votes, cork);
    EqualPower(env, powers, votes, cork) - PowerOf(powers, Voters(env, votes, cork))
  }

  /** An entry holds at least the power of its voters, and exactly that if and only if no validator of positive power
      has two votes equal to it. */
  lemma {:induction false} EqualPowerIsVotersPower(env: Env, powers: map<Validator, uint64>, votes: seq<Vote>, cork: Cork)
    requires Known(powers, votes)
    ensures Overcount(env, powers, votes, cork) >= 0
    ensures Overcount(env, powers, votes, cork) == 0 <==> CountedOnce(env, powers, votes, cork)
  {
    hide EqualPower, PowerOf, Voters, CountedOnce, Equals;
    if votes == [] {
      NothingCounted(env, powers, cork);
    } else {
      var n := |votes| - 1;
      var before, last := votes[..n], votes[n];
      assert votes == before + [last];
      EqualPowerIsVotersPower(env, powers, before, cork);
      AppendedVote(env, powers, before, last, cork);
      VotersKnown(env, powers, before, cork);
      VotersKnown(env, powers, votes, cork);
      VotersSplit(env, votes, cork);
      CountedOnceSplit(env, powers, votes, cork);
      if Equals(env, cork, last.cork) && last.validator !in Voters(env, before, cork) {
        assert Voters(env, votes, cork) - {last.validator as nat} == Voters(env, before, cork);
        PowerOfWithout(powers, Voters(env, votes, cork), last.validator);
      } else {
        assert Voters(env, votes, cork) == Voters(env, before, cork);
      }
    }
  }

  lemma NothingCounted(env: Env, powers: map<Validator, uint64>, cork: Cork)
    ensures Overcount(env, powers, [], cork) == 0 && CountedOnce(env, powers, [], cork)
  {
    assert Voters(env, [], cork) == {};
  }

  lemma VotersSplit(env: Env, votes: seq<Vote>, cork: Cork)
    requires votes != []
    ensures var before, last := Voters(env, votes[..|votes| - 1], cork), votes[|votes| - 1];
            Voters(env, votes, cork) == before + if Equals(env, cork, last.cork) then {last.validator as nat} else {}
  {
    hide Equals;
    var n := |votes| - 1;
    assert votes == votes[..n] + [votes[n]];
  }

  /** A vote is a repetition exactly when its validator already stands behind the cork. */
  lemma CountedOnceSplit(env: Env, powers: map<Validator, uint64>, votes: seq<Vote>, cork: Cork)
    requires Known(powers, votes) && votes != []
    ensures var before, last := votes[..|votes| - 1], votes[|votes| - 1];
            CountedOnce(env, powers, votes, cork) <==>
              CountedOnce(env, powers, before, cork)
              && (Equals(env, cork, last.cork) && last.validator in Voters(env, before, cork) ==> powers[last.validator] == 0)
  {
    hide Equals;
    var n := |votes| - 1;
    var before, last := votes[..n], votes[n];
    if last.validator in Voters(env, before, cork) {
      var w :| w in before && Equals(env, cork, w.cork) && w.validator == last.validator;
      var i :| 0 <= i < n && before[i] == w;
      assert votes[i] == w;
    }
    assert forall i :: 0 <= i < n ==> votes[i] == before[i] && before[i] in before;
  }

  /** The voting power reported by staking is at most its total. */
  ghost predicate WithinTotal(staking: Staking) {
    PowerOf(staking.powers, staking.powers.Keys) <= staking.total
  }

  /** The power behind an approved entry: what its voters hold, and what was counted again. */
  lemma ApprovedVoters(env: Env, staking: Staking, votes: seq<Vote>, g: Group)
    requires Known(staking.powers, votes) && staking.total > 0
    requires g in Tally(env, staking.powers, votes) && Approved(g.power, staking.total)
    ensures forall v :: v in Voters(env, votes, g.cork) ==> v in staking.powers
    ensures 100 * (PowerOf(staking.powers, Voters(env, votes, g.cork)) + Overcount(env, staking.powers, votes, g.cork)) > 67 * staking.total
  {
    hide Approved, Tally, EqualPower, PowerOf, Voters, PairwiseDifferent, HasGroup;
    TallyGroups(env, staking.powers, votes);
    VotersKnown(env, staking.powers, votes, g.cork);
    ApprovedHasOver67Percent(g.power, staking.total);
    assert PowerBehind(env, staking.powers, votes, g);
  }

  /** Any two corks approved for one chain at one height share voters with more than 34 percent of the total, less
      what repeated votes added to the two entries. */
  lemma QuorumAgreement(env: Env, staking: Staking, votes: seq<Vote>, g: Group, h: Group)
    requires Known(staking.powers, votes) && staking.total > 0 && WithinTotal(staking)
    requires g in Tally(env, staking.powers, votes) && Approved(g.power, staking.total)
    requires h in Tally(env, staking.powers, votes) && Approved(h.power, staking.total)
    ensures var both := Voters(env, votes, g.cork) * Voters(env, votes, h.cork);
            && (forall v :: v in both ==> v in staking.powers)
            && 100 * (PowerOf(staking.powers, both) + Overcount(env, staking.powers, votes, g.cork)
                      + Overcount(env, staking.powers, votes, h.cork)) > 34 * staking.total
            && (CountedOnce(env, staking.powers, votes, g.cork) && CountedOnce(env, staking.powers, votes, h.cork) ==>
                  100 * PowerOf(staking.powers, both) > 34 * staking.total)
  {
    hide Approved, Tally, Voters, PowerOf, Overcount, CountedOnce, Known;
    ApprovedVoters(env, staking, votes, g);
    ApprovedVoters(env, staking, votes, h);
    EqualPowerIsVotersPower(env, staking.powers, votes, g.cork);
    EqualPowerIsVotersPower(env, staking.powers, votes, h.cork);
    var a, b := Voters(env, votes, g.cork), Voters(env, votes, h.cork);
    PowerOfUnion(staking.powers, a, b);
    PowerOfSubset(staking.powers, a + b, staking.powers.Keys);
  }

  /** The same contract and the same call data; the deadline may differ. */
  predicate SameCall(env: Env, a: Cork, b: Cork) {
    env.address(a.target) == env.address(b.target) && a.call == b.call
  }

  /** No validator of positive power has two votes for the contract and call of `cork`. */
  ghost predicate OneVoteFor(env: Env, powers: map<Validator, uint64>, votes: seq<Vote>, cork: Cork)
    requires Known(powers, votes)
  {
    forall i, j :: 0 <= i < j < |votes| && votes[i].validator == votes[j].validator ==>
      SameCall(env, cork, votes[i].cork) && SameCall(env, cork, votes[j].cork) ==> powers[votes[i].validator] == 0
  }

  lemma OneVoteCountsOnce(env: Env, powers: map<Validator, uint64>, votes: seq<Vote>, cork: Cork, variant: Cork)
    requires Known(powers, votes) && OneVoteFor(env, powers, votes, cork) && SameCall(env, cork, variant)
    ensures CountedOnce(env, powers, votes, variant)
  {}

  /** Calls that differ only in their deadline are both approved only if some validator of positive power has two
      votes for the call. */
  lemma DeadlineVariantsNeverBoth(env: Env, staking: Staking, votes: seq<Vote>, g: Group, h: Group)
    requires Known(staking.powers, votes) && staking.total > 0 && WithinTotal(staking)
    requires g in Tally(env, staking.powers, votes) && h in Tally(env, staking.powers, votes)
    requires SameCall(env, g.cork, h.cork) && g.cork.deadline != h.cork.deadline
    requires Approved(g.power, staking.total) && Approved(h.power, staking.total)
    ensures !OneVoteFor(env, staking.powers, votes, g.cork)
  {
    hide Approved, Tally, PowerOf, OneVoteFor, CountedOnce, WithinTotal;
    QuorumAgreement(env, staking, votes, g, h);
    var both := Voters(env, votes, g.cork) * Voters(env, votes, h.cork);
    if OneVoteFor(env, staking.powers, votes, g.cork) {
      OneVoteCountsOnce(env, staking.powers, votes, g.cork, g.cork);
      OneVoteCountsOnce(env, staking.powers, votes, g.cork, h.cork);
      forall v | v in both ensures staking.powers[v] == 0 {
        PowerlessIfBoth(env, staking.powers, votes, g.cork, h.cork, v);
      }
      NoPower(staking.powers, both);
    }
  }

  /** A validator behind two deadlines of one call has two votes for it. */
  lemma PowerlessIfBoth(env: Env, powers: map<Validator, uint64>, votes: seq<Vote>, c: Cork, d: Cork, v: nat)
    requires Known(powers, votes) && OneVoteFor(env, powers, votes, c)
    requires SameCall(env, c, d) && c.deadline != d.deadline
    requires v in Voters(env, votes, c) && v in Voters(env, votes, d)
    ensures v in powers && powers[v] == 0
  {
    var x :| x in votes && Equals(env, c, x.cork) && x.validator == v;
    var y :| y in votes && Equals(env, d, y.cork) && y.validator == v;
    var i :| 0 <= i < |votes| && votes[i] == x;
    var j :| 0 <= j < |votes| && votes[j] == y;
    assert i != j;
  }

  lemma {:induction false} NoPower(powers: map<Validator, uint64>, vs: set<nat>)
    requires forall v :: v in vs ==> v in powers && powers[v] == 0
    ensures PowerOf(powers, vs) == 0
    decreases |vs|
  {
    if vs != {} { NoPower(powers, vs - {Max(vs)}); }
  }
}
