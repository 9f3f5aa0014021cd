// Conway ratification: three bodies, weighted or counted votes, defaults for
// pools that do not vote, and why a Yes never hurts.

module Ratify {
  import opened MapSum

  type Id = nat

  datatype Option<+T> = None | Some(value: T)

  datatype Role = Committee | DRep | Pool

  datatype Voter = Voter(role: Role, credential: Id)

  datatype Vote = No | Yes | Abstain

  datatype ActionType =
    | ParameterChange | HardForkInitiation | TreasuryWithdrawals | NoConfidence
    | UpdateCommittee | NewConstitution | Info

  /** What a reward account delegates its vote to. */
  datatype Delegate = Key(id: Id) | Script(id: Id) | AlwaysAbstain | AlwaysNoConfidence

  datatype Threshold = Threshold(num: int, denom: int)

  datatype Thresholds = Thresholds(cc: Option<Threshold>, drep: Option<Threshold>, spo: Option<Threshold>)

  type Votes = map<Voter, Vote>

  /** Everything but proposals and votes. */
  datatype Electorate = Electorate(
    dreps: map<Id, int>,
    committee: map<Id, int>,
    drepStake: map<Id, int>,
    drepActivityEpoch: map<Id, int>,
    poolStake: map<Id, int>,
    rewardDelegations: map<Id, Delegate>,
    protocolMajor: int)

  datatype State = State(proposals: map<Id, ActionType>, votes: map<Id, Votes>, electorate: Electorate)

  datatype Params = Params(committeeMinSize: int, drepActivity: int)

  function DefaultThresholds(action: ActionType): Thresholds {
    var twoThirds, half := Some(Threshold(2, 3)), Some(Threshold(1, 2));
    match action
    case ParameterChange => Thresholds(twoThirds, twoThirds, None)
    case HardForkInitiation => Thresholds(twoThirds, twoThirds, half)
    case TreasuryWithdrawals => Thresholds(twoThirds, twoThirds, None)
    case NoConfidence => Thresholds(None, twoThirds, half)
    case UpdateCommittee => Thresholds(None, twoThirds, half)
    case NewConstitution => Thresholds(twoThirds, twoThirds, None)
    case Info => Thresholds(None, None, None)
  }

  /** The vote of a pool that does not vote. */
  function DefaultPoolVote(pool: Id, action: ActionType, major: int, delegations: map<Id, Delegate>): Vote {
    if action.HardForkInitiation? then Abstain
    else if major < 10 then Abstain
    else if pool !in delegations then No
    else if delegations[pool].AlwaysAbstain? then Abstain
    else if delegations[pool].AlwaysNoConfidence? then (if action.NoConfidence? then Yes else No)
    else No
  }

  predicate Met(yes: int, total: int, t: Threshold) {
    total != 0 && yes * t.denom >= t.num * total
  }

  /** Without a current epoch every DRep counts as active. */
  predicate IsDRepActive(drep: Id, e: Electorate, params: Params, epoch: Option<int>) {
    if e.drepActivityEpoch == map[] || epoch.None? || drep !in e.drepActivityEpoch then true
    else epoch.value - e.drepActivityEpoch[drep] <= params.drepActivity
  }

  // ----- The three tallies ------------------------------------------------------------

  /** Stake when stakes are known at all, otherwise one per head. */
  function Weight(stakes: map<Id, int>, credential: Id): int {
    if stakes == map[] then 1 else At(stakes, credential)
  }

  ghost function YesWeights(votes: Votes, role: Role, stakes: map<Id, int>): map<Voter, int> {
    map v <- votes | v.role == role && votes[v] == Yes :: Weight(stakes, v.credential)
  }

  /** Votes of a role other than abstentions, one per head. */
  ghost function Counted(votes: Votes, role: Role): map<Voter, int> {
    map v <- votes | v.role == role && votes[v] != Abstain :: 1
  }

  ghost function DRepWeights(e: Electorate): map<Id, int> {
    map d <- e.dreps :: Weight(e.drepStake, d)
  }

  /** A pool's vote, cast or by default. */
  function PoolVote(e: Electorate, action: ActionType, votes: Votes, pool: Id): Vote {
    if Voter(Pool, pool) in votes then votes[Voter(Pool, pool)]
    else DefaultPoolVote(pool, action, e.protocolMajor, e.rewardDelegations)
  }

  ghost function PoolYes(e: Electorate, action: ActionType, votes: Votes): map<Id, int> {
    map p <- e.poolStake :: if PoolVote(e, action, votes, p) == Yes then e.poolStake[p] else 0
  }

  ghost function PoolCounted(e: Electorate, action: ActionType, votes: Votes): map<Id, int> {
    map p <- e.poolStake :: if PoolVote(e, action, votes, p) == Abstain then 0 else e.poolStake[p]
  }

  ghost predicate CommitteeAgrees(e: Electorate, votes: Votes, t: Threshold) {
    Met(Sum(YesWeights(votes, Committee, map[])), |e.committee|, t)
  }

  ghost predicate DRepsAgree(e: Electorate, votes: Votes, t: Threshold) {
    Met(Sum(YesWeights(votes, DRep, e.drepStake)), Sum(DRepWeights(e)), t)
  }

  /** Stake mode counts all pools of the distribution, head count only those that voted. */
  ghost predicate PoolsAgree(e: Electorate, action: ActionType, votes: Votes, t: Threshold) {
    if e.poolStake == map[]
    then Met(Sum(YesWeights(votes, Pool, map[])), Sum(Counted(votes, Pool)), t)
    else Met(Sum(PoolYes(e, action, votes)), Sum(PoolCounted(e, action, votes)), t)
  }

  function VotesOn(state: State, action: Id): Votes {
    if action in state.votes then state.votes[action] else map[]
  }

  ghost predicate Agreed(e: Electorate, action: ActionType, votes: Votes, params: Params, t: Thresholds) {
    && (t.cc.Some? ==> CommitteeAgrees(e, votes, t.cc.value) && |e.committee| >= params.committeeMinSize)
    && (t.drep.Some? ==> DRepsAgree(e, votes, t.drep.value))
    && (t.spo.Some? ==> PoolsAgree(e, action, votes, t.spo.value))
  }

  /** Whether an action is ratified. */
  ghost predicate Ratified(state: State, action: Id, params: Params, thresholds: Option<Thresholds>) {
    && action in state.proposals
    && (state.proposals[action].Info?
        || Agreed(state.electorate, state.proposals[action], VotesOn(state, action), params,
                  if thresholds.Some? then thresholds.value else DefaultThresholds(state.proposals[action])))
  }

  // ----- Switching votes to Yes ----------------------------------------------------------

  /** Some voters, whether they voted before or not, now vote Yes. */
  ghost predicate MoreYes(before: Votes, after: Votes) {
    && before.Keys <= after.Keys
    && forall v <- after :: after[v] == Yes || (v in before && after[v] == before[v])
  }

  ghost predicate NonNegative(m: map<Id, int>) {
    forall k <- m :: m[k] >= 0
  }

  lemma MetMore(yes: int, total: int, yes': int, t: Threshold)
    requires Met(yes, total, t) && yes <= yes' && t.denom >= 0
    ensures Met(yes', total, t)
  {
    Products(yes, yes', t.denom);
  }

  lemma Products(x: int, y: int, d: int)
    requires x <= y && d >= 0
    ensures x * d <= y * d
  {
    assert (y - x) * d >= 0;
    assert (y - x) * d == y * d - x * d;
  }

  /** A ratio of at most one only gains when both its parts grow by the same and
      its numerator by more. */
  lemma MetBoth(yes: int, total: int, yes': int, total': int, t: Threshold)
    requires Met(yes, total, t) && t.denom >= 0
    requires 0 <= yes <= total && yes' - yes >= total' - total >= 0
    ensures Met(yes', total', t)
  {
    var gain := total' - total;
    Products(yes, total, t.denom);
    if t.num > t.denom {
      StrictProducts(t.denom, t.num, total);
    } else {
      Products(t.num, t.denom, gain);
      Products(yes + gain, yes', t.denom);
      Expand(yes, gain, t.denom);
      Expand(total, gain, t.num);
    }
  }

  lemma StrictProducts(x: int, y: int, d: int)
    requires x < y && d > 0
    ensures d * x < y * d
  {
    assert (y - x) * d > 0;
    assert (y - x) * d == y * d - d * x;
  }

  lemma Expand(a: int, g: int, d: int)
    ensures (a + g) * d == a * d + d * g == d * a + g * d
  {}

  lemma WeightNonNegative(stakes: map<Id, int>, credential: Id)
    requires NonNegative(stakes)
    ensures Weight(stakes, credential) >= 0
  {}

  lemma YesWeightsGrow(before: Votes, after: Votes, role: Role, stakes: map<Id, int>)
    requires MoreYes(before, after) && NonNegative(stakes)
    ensures 0 <= Sum(YesWeights(before, role, stakes)) <= Sum(YesWeights(after, role, stakes))
  {
    hide Weight;
    var a, b := YesWeights(before, role, stakes), YesWeights(after, role, stakes);
    forall v <- before.Keys + after.Keys ensures Weight(stakes, v.credential) >= 0 {
      WeightNonNegative(stakes, v.credential);
    }
    SumNonNegative(a);
    SumMono(a, b);
  }

  /** Head count of the pools: whoever newly votes Yes joins both sides of the ratio. */
  lemma HeadCountGains(before: Votes, after: Votes)
    requires MoreYes(before, after)
    ensures var y, y' := YesWeights(before, Pool, map[]), YesWeights(after, Pool, map[]);
            var c, c' := Counted(before, Pool), Counted(after, Pool);
            0 <= Sum(y) <= Sum(c) && Sum(y') - Sum(y) >= Sum(c') - Sum(c) >= 0
  {
    var y, y' := YesWeights(before, Pool, map[]), YesWeights(after, Pool, map[]);
    var c, c' := Counted(before, Pool), Counted(after, Pool);
    SumNonNegative(y);
    SumMono(y, c);
    SumMono(c, c');
    SumGains(y, y', c, c', after.Keys);
  }

  /** Stake of the pools: a pool that leaves the abstentions joins both sides. */
  lemma PoolStakeGains(e: Electorate, action: ActionType, before: Votes, after: Votes)
    requires MoreYes(before, after) && NonNegative(e.poolStake)
    ensures var y, y' := PoolYes(e, action, before), PoolYes(e, action, after);
            var c, c' := PoolCounted(e, action, before), PoolCounted(e, action, after);
            0 <= Sum(y) <= Sum(c) && Sum(y') - Sum(y) >= Sum(c') - Sum(c) >= 0
  {
    hide DefaultPoolVote;
    forall p <- e.poolStake
      ensures PoolVote(e, action, after, p) == Yes || PoolVote(e, action, after, p) == PoolVote(e, action, before, p)
    {
      var v := Voter(Pool, p);
      assert v in before ==> v in after;
    }
    hide PoolVote;
    PoolYesBounds(e, action, before);
    PoolGains(e, action, before, after);
  }

  lemma PoolYesBounds(e: Electorate, action: ActionType, votes: Votes)
    requires NonNegative(e.poolStake)
    ensures 0 <= Sum(PoolYes(e, action, votes)) <= Sum(PoolCounted(e, action, votes))
  {
    hide PoolVote;
    SumNonNegative(PoolYes(e, action, votes));
    SumMono(PoolYes(e, action, votes), PoolCounted(e, action, votes));
  }

  lemma PoolGains(e: Electorate, action: ActionType, before: Votes, after: Votes)
    requires NonNegative(e.poolStake)
    requires forall p <- e.poolStake ::
               PoolVote(e, action, after, p) == Yes || PoolVote(e, action, after, p) == PoolVote(e, action, before, p)
    ensures Sum(PoolYes(e, action, after)) - Sum(PoolYes(e, action, before))
            >= Sum(PoolCounted(e, action, after)) - Sum(PoolCounted(e, action, before)) >= 0
  {
    hide PoolVote;
    SumMono(PoolCounted(e, action, before), PoolCounted(e, action, after));
    SumGains(PoolYes(e, action, before), PoolYes(e, action, after),
             PoolCounted(e, action, before), PoolCounted(e, action, after), e.poolStake.Keys);
  }

  ghost predicate Sane(t: Thresholds) {
    && (t.cc.Some? ==> t.cc.value.denom >= 0)
    && (t.drep.Some? ==> t.drep.value.denom >= 0)
    && (t.spo.Some? ==> t.spo.value.denom >= 0)
  }

  lemma NoStakes()
    ensures NonNegative(map[])
  {}

  lemma CommitteeAgreesMore(e: Electorate, before: Votes, after: Votes, t: Threshold)
    requires MoreYes(before, after) && t.denom >= 0 && CommitteeAgrees(e, before, t)
    ensures CommitteeAgrees(e, after, t)
  {
    hide MoreYes, Met, NonNegative, YesWeights;
    NoStakes();
    YesWeightsGrow(before, after, Committee, map[]);
    MetMore(Sum(YesWeights(before, Committee, map[])), |e.committee|, Sum(YesWeights(after, Committee, map[])), t);
  }

  lemma DRepsAgreeMore(e: Electorate, before: Votes, after: Votes, t: Threshold)
    requires MoreYes(before, after) && NonNegative(e.drepStake) && t.denom >= 0 && DRepsAgree(e, before, t)
    ensures DRepsAgree(e, after, t)
  {
    hide MoreYes, Met, NonNegative, YesWeights, DRepWeights;
    YesWeightsGrow(before, after, DRep, e.drepStake);
    MetMore(Sum(YesWeights(before, DRep, e.drepStake)), Sum(DRepWeights(e)), Sum(YesWeights(after, DRep, e.drepStake)), t);
  }

  lemma PoolsAgreeMore(e: Electorate, action: ActionType, before: Votes, after: Votes, t: Threshold)
    requires MoreYes(before, after) && NonNegative(e.poolStake) && t.denom >= 0 && PoolsAgree(e, action, before, t)
    ensures PoolsAgree(e, action, after, t)
  {
    hide MoreYes, Met, NonNegative, YesWeights, Counted, PoolYes, PoolCounted;
    if e.poolStake == map[] {
      HeadCountGains(before, after);
      MetBoth(Sum(YesWeights(before, Pool, map[])), Sum(Counted(before, Pool)),
              Sum(YesWeights(after, Pool, map[])), Sum(Counted(after, Pool)), t);
    } else {
      PoolStakeGains(e, action, before, after);
      MetBoth(Sum(PoolYes(e, action, before)), Sum(PoolCounted(e, action, before)),
              Sum(PoolYes(e, action, after)), Sum(PoolCounted(e, action, after)), t);
    }
  }

  lemma AgreedMore(e: Electorate, action: ActionType, before: Votes, after: Votes, params: Params, t: Thresholds)
    requires NonNegative(e.drepStake) && NonNegative(e.poolStake) && Sane(t)
    requires MoreYes(before, after) && Agreed(e, action, before, params, t)
    ensures Agreed(e, action, after, params, t)
  {
    hide MoreYes, NonNegative, CommitteeAgrees, DRepsAgree, PoolsAgree;
    if t.cc.Some? {
      CommitteeAgreesMore(e, before, after, t.cc.value);
    }
    if t.drep.Some? {
      DRepsAgreeMore(e, before, after, t.drep.value);
    }
    if t.spo.Some? {
      PoolsAgreeMore(e, action, before, after, t.spo.value);
    }
  }

  /** Turning any votes on an action into Yes - a No, an abstention, or silence with
      whatever it stands for by default - never undoes its ratification, although
      the pools' denominator moves. */
  lemma RatificationIsMonotone(state: State, action: Id, after: Votes, params: Params, thresholds: Option<Thresholds>)
    requires NonNegative(state.electorate.drepStake) && NonNegative(state.electorate.poolStake)
    requires thresholds.Some? ==> Sane(thresholds.value)
    requires MoreYes(VotesOn(state, action), after) && Ratified(state, action, params, thresholds)
    ensures Ratified(state.(votes := state.votes[action := after]), action, params, thresholds)
  {
    var kind := state.proposals[action];
    var t := if thresholds.Some? then thresholds.value else DefaultThresholds(kind);
    if !kind.Info? {
      AgreedMore(state.electorate, kind, VotesOn(state, action), after, params, t);
    }
  }

  // ----- Expired DReps ------------------------------------------------------------------------

  /** A DRep that has not been active for longer than the activity period. */
  ghost predicate HasExpired(drep: Id, e: Electorate, params: Params, epoch: int) {
    drep in e.drepActivityEpoch && e.drepActivityEpoch[drep] + params.drepActivity < epoch
  }

  lemma ExpiredIsInactive(e: Electorate, params: Params, epoch: int)
    ensures forall drep :: HasExpired(drep, e, params, epoch) <==> !IsDRepActive(drep, e, params, Some(epoch))
    ensures forall drep :: IsDRepActive(drep, e, params, None)
  {}

  /** The weights of the DReps that are active at an epoch, and of those among the
      voters that vote Yes. */
  ghost function ActiveWeights(e: Electorate, params: Params, epoch: int): map<Id, int> {
    map d <- e.dreps | IsDRepActive(d, e, params, Some(epoch)) :: Weight(e.drepStake, d)
  }

  ghost function ActiveYesWeights(e: Electorate, votes: Votes, params: Params, epoch: int): map<Voter, int> {
    map v <- votes | v.role == DRep && votes[v] == Yes && IsDRepActive(v.credential, e, params, Some(epoch))
      :: Weight(e.drepStake, v.credential)
  }

  /** The vote count, which takes every DRep for active, has the totals that it would
      have over the active ones exactly when the expired ones weigh nothing. */
  lemma ExpiredDRepsCountExactly(e: Electorate, votes: Votes, params: Params, epoch: int)
    requires NonNegative(e.drepStake)
    ensures Sum(DRepWeights(e)) == Sum(ActiveWeights(e, params, epoch))
            <==> forall d <- e.dreps :: HasExpired(d, e, params, epoch) ==> Weight(e.drepStake, d) == 0
    ensures Sum(YesWeights(votes, DRep, e.drepStake)) == Sum(ActiveYesWeights(e, votes, params, epoch))
            <==> forall v <- votes :: v.role == DRep && votes[v] == Yes && HasExpired(v.credential, e, params, epoch)
                   ==> Weight(e.drepStake, v.credential) == 0
  {
    ExpiredIsInactive(e, params, epoch);
    hide HasExpired, IsDRepActive;
    ExpiredTotal(e, params, epoch);
    ExpiredYes(e, votes, params, epoch);
  }

  lemma ExpiredTotal(e: Electorate, params: Params, epoch: int)
    requires NonNegative(e.drepStake)
    ensures Sum(DRepWeights(e)) == Sum(ActiveWeights(e, params, epoch))
            <==> forall d <- e.dreps :: !IsDRepActive(d, e, params, Some(epoch)) ==> Weight(e.drepStake, d) == 0
  {
    hide Weight, IsDRepActive;
    forall d <- e.dreps ensures Weight(e.drepStake, d) >= 0 {
      WeightNonNegative(e.drepStake, d);
    }
    var all, part := DRepWeights(e), ActiveWeights(e, params, epoch);
    SumOfPartExactly(all, part);
    if forall d <- all.Keys - part.Keys :: all[d] == 0 {
      forall d <- e.dreps | !IsDRepActive(d, e, params, Some(epoch)) ensures Weight(e.drepStake, d) == 0 {
        assert d in all.Keys - part.Keys;
      }
    }
  }

  lemma ExpiredYes(e: Electorate, votes: Votes, params: Params, epoch: int)
    requires NonNegative(e.drepStake)
    ensures Sum(YesWeights(votes, DRep, e.drepStake)) == Sum(ActiveYesWeights(e, votes, params, epoch))
            <==> forall v <- votes :: v.role == DRep && votes[v] == Yes && !IsDRepActive(v.credential, e, params, Some(epoch))
                   ==> Weight(e.drepStake, v.credential) == 0
  {
    hide Weight, IsDRepActive;
    forall v <- votes ensures Weight(e.drepStake, v.credential) >= 0 {
      WeightNonNegative(e.drepStake, v.credential);
    }
    var all, part := YesWeights(votes, DRep, e.drepStake), ActiveYesWeights(e, votes, params, epoch);
    SumOfPartExactly(all, part);
    if forall v <- all.Keys - part.Keys :: all[v] == 0 {
      forall v <- votes | v.role == DRep && votes[v] == Yes && !IsDRepActive(v.credential, e, params, Some(epoch))
        ensures Weight(e.drepStake, v.credential) == 0
      {
        assert v in all.Keys - part.Keys;
      }
    }
  }

  /** Two DReps, one expired by epoch 10 and one that votes Yes. */
  const HALF_EXPIRED := Electorate(map[1 := 0, 2 := 0], map[], map[], map[1 := 10, 2 := 0], map[], map[], 10)
  const FIVE_EPOCHS := Params(0, 5)
  const ONE_YES: Votes := map[Voter(DRep, 1) := Yes]

  lemma HalfExpiredTotals()
    ensures Sum(DRepWeights(HALF_EXPIRED)) == 2 && Sum(ActiveWeights(HALF_EXPIRED, FIVE_EPOCHS, 10)) == 1
  {
    var one: map<Id, int>, two: map<Id, int> := map[1 := 1], map[1 := 1, 2 := 1];
    SumPut(map[], 1, 1);
    SumPut(one, 2, 1);
    assert Sum<Id>(map[]) == 0;
    assert map[][1 := 1] == one && one[2 := 1] == two;
    assert DRepWeights(HALF_EXPIRED) == two && ActiveWeights(HALF_EXPIRED, FIVE_EPOCHS, 10) == one;
  }

  lemma OneYesTotals()
    ensures Sum(YesWeights(ONE_YES, DRep, map[])) == 1 && Sum(ActiveYesWeights(HALF_EXPIRED, ONE_YES, FIVE_EPOCHS, 10)) == 1
  {
    var yes := map[Voter(DRep, 1) := 1];
    SumPut(map[], Voter(DRep, 1), 1);
    assert Sum<Voter>(map[]) == 0;
    assert map[][Voter(DRep, 1) := 1] == yes;
    assert YesWeights(ONE_YES, DRep, map[]) == yes && ActiveYesWeights(HALF_EXPIRED, ONE_YES, FIVE_EPOCHS, 10) == yes;
  }

  /** One Yes of two DReps is refused, although the other has expired and the Yes is
      unanimous among the active ones. */
  lemma ExpiredDRepsChangeTheVerdict()
    ensures var thresholds := Thresholds(None, Some(Threshold(2, 3)), None);
            !Ratified(State(map[0 := NewConstitution], map[0 := ONE_YES], HALF_EXPIRED), 0, FIVE_EPOCHS, Some(thresholds))
    ensures !IsDRepActive(2, HALF_EXPIRED, FIVE_EPOCHS, Some(10))
    ensures Met(Sum(ActiveYesWeights(HALF_EXPIRED, ONE_YES, FIVE_EPOCHS, 10)),
                Sum(ActiveWeights(HALF_EXPIRED, FIVE_EPOCHS, 10)), Threshold(2, 3))
  {
    HalfExpiredTotals();
    OneYesTotals();
    hide DRepWeights, ActiveWeights, YesWeights, ActiveYesWeights, Sum;
  }

  // ----- Silence -----------------------------------------------------------------------------

  /** Saying aloud what silence stands for changes nothing: a pool that casts its
      default vote leaves the pools' verdict as it was. */
  lemma SilenceIsItsDefault(e: Electorate, action: ActionType, votes: Votes, pool: Id, t: Threshold)
    requires e.poolStake != map[] && Voter(Pool, pool) !in votes
    ensures var silence := DefaultPoolVote(pool, action, e.protocolMajor, e.rewardDelegations);
            PoolsAgree(e, action, votes, t) == PoolsAgree(e, action, votes[Voter(Pool, pool) := silence], t)
  {
    hide Met, DefaultPoolVote;
    var spoken := votes[Voter(Pool, pool) := DefaultPoolVote(pool, action, e.protocolMajor, e.rewardDelegations)];
    forall p ensures PoolVote(e, action, spoken, p) == PoolVote(e, action, votes, p) {}
    hide PoolVote;
    SameVotes(e, action, votes, spoken);
  }

  lemma SameVotes(e: Electorate, action: ActionType, votes: Votes, others: Votes)
    requires forall p <- e.poolStake :: PoolVote(e, action, others, p) == PoolVote(e, action, votes, p)
    ensures PoolYes(e, action, others) == PoolYes(e, action, votes)
    ensures PoolCounted(e, action, others) == PoolCounted(e, action, votes)
  {
    hide PoolVote;
  }

  /** For a hard fork, and before protocol version 10, pools that do not vote have
      no influence: only the stake of those that do is counted. */
  lemma SilentPoolsDoNotCount(e: Electorate, action: ActionType, votes: Votes)
    requires action.HardForkInitiation? || e.protocolMajor < 10
    ensures Sum(PoolYes(e, action, votes)) == Sum(PoolYes(Voting(e, votes), action, votes))
    ensures Sum(PoolCounted(e, action, votes)) == Sum(PoolCounted(Voting(e, votes), action, votes))
  {
    forall p <- e.poolStake
      ensures Voter(Pool, p) !in votes ==> PoolVote(e, action, votes, p) == Abstain
      ensures PoolVote(Voting(e, votes), action, votes, p) == PoolVote(e, action, votes, p)
    {}
    hide PoolVote;
    SilentAddNoYes(e, action, votes);
    SilentAddNoStake(e, action, votes);
  }

  lemma SilentAddNoYes(e: Electorate, action: ActionType, votes: Votes)
    requires forall p <- e.poolStake :: Voter(Pool, p) !in votes ==> PoolVote(e, action, votes, p) == Abstain
    requires forall p <- e.poolStake :: PoolVote(Voting(e, votes), action, votes, p) == PoolVote(e, action, votes, p)
    ensures Sum(PoolYes(e, action, votes)) == Sum(PoolYes(Voting(e, votes), action, votes))
  {
    hide PoolVote;
    SumSame(PoolYes(e, action, votes), PoolYes(Voting(e, votes), action, votes), e.poolStake.Keys);
  }

  lemma SilentAddNoStake(e: Electorate, action: ActionType, votes: Votes)
    requires forall p <- e.poolStake :: Voter(Pool, p) !in votes ==> PoolVote(e, action, votes, p) == Abstain
    requires forall p <- e.poolStake :: PoolVote(Voting(e, votes), action, votes, p) == PoolVote(e, action, votes, p)
    ensures Sum(PoolCounted(e, action, votes)) == Sum(PoolCounted(Voting(e, votes), action, votes))
  {
    hide PoolVote;
    SumSame(PoolCounted(e, action, votes), PoolCounted(Voting(e, votes), action, votes), e.poolStake.Keys);
  }

  /** The electorate with only the pools that voted. */
  ghost function Voting(e: Electorate, votes: Votes): Electorate {
    e.(poolStake := map p <- e.poolStake | Voter(Pool, p) in votes :: e.poolStake[p])
  }

  /** From protocol version 10 on, for anything but a hard fork, a silent pool that
      delegates its vote to nobody, or to a DRep of its own choosing, votes No. */
  lemma SilenceIsNo(e: Electorate, action: ActionType, votes: Votes, pool: Id, t: Threshold)
    requires e.poolStake != map[] && Voter(Pool, pool) !in votes
    requires e.protocolMajor >= 10 && !action.HardForkInitiation?
    requires pool in e.rewardDelegations ==> e.rewardDelegations[pool].Key? || e.rewardDelegations[pool].Script?
    ensures PoolsAgree(e, action, votes, t) == PoolsAgree(e, action, votes[Voter(Pool, pool) := No], t)
  {
    hide Met;
    SilenceIsItsDefault(e, action, votes, pool, t);
  }

  ghost function Refusing(votes: Votes, pools: set<Id>): Votes {
    votes + map p <- pools :: Voter(Pool, p) := No
  }

  lemma RefusingStep(votes: Votes, pools: set<Id>, p: Id)
    requires p in pools
    ensures Refusing(votes[Voter(Pool, p) := No], pools - {p}) == Refusing(votes, pools)
  {
    var one, all := Refusing(votes[Voter(Pool, p) := No], pools - {p}), Refusing(votes, pools);
    forall v | v in all ensures v in one && one[v] == all[v] {
      if v.role == Pool && v.credential in pools {
        assert v == Voter(Pool, v.credential);
      }
    }
    assert one.Keys == all.Keys;
  }

  /** The pools' verdict is the one that they would reach if all such pools had
      voted No. */
  lemma {:induction false} SilentPoolsRefuse(e: Electorate, action: ActionType, votes: Votes, pools: set<Id>, t: Threshold)
    requires e.poolStake != map[] && e.protocolMajor >= 10 && !action.HardForkInitiation?
    requires forall p <- pools :: Voter(Pool, p) !in votes
    requires forall p <- pools | p in e.rewardDelegations :: e.rewardDelegations[p].Key? || e.rewardDelegations[p].Script?
    ensures PoolsAgree(e, action, votes, t) == PoolsAgree(e, action, Refusing(votes, pools), t)
    decreases pools
  {
    if pools == {} {
      assert Refusing(votes, pools) == votes;
    } else {
      var p :| p in pools;
      hide PoolsAgree, Refusing;
      SilenceIsNo(e, action, votes, p, t);
      RefusingStep(votes, pools, p);
      SilentPoolsRefuse(e, action, votes[Voter(Pool, p) := No], pools - {p}, t);
    }
  }

  /** Where a pool stands: as it voted; if it was silent, nowhere on a hard fork and
      before version 10, and then with what its reward account has delegated to, which
      for the predefined vote of no confidence is a Yes to exactly that, or else a No. */
  ghost function Stance(e: Electorate, action: ActionType, votes: Votes, pool: Id): Vote {
    if Voter(Pool, pool) in votes then votes[Voter(Pool, pool)]
    else if action == HardForkInitiation || e.protocolMajor < 10 then Abstain
    else if pool in e.rewardDelegations && e.rewardDelegations[pool] == AlwaysAbstain then Abstain
    else if pool in e.rewardDelegations && e.rewardDelegations[pool] == AlwaysNoConfidence && action == NoConfidence then Yes
    else No
  }

  lemma StanceIsPoolVote(e: Electorate, action: ActionType, votes: Votes, pool: Id)
    ensures PoolVote(e, action, votes, pool) == Stance(e, action, votes, pool)
  {}

  /** A silent pool could as well vote for where it stands. */
  lemma SilenceMeans(e: Electorate, action: ActionType, votes: Votes, pool: Id, t: Threshold)
    requires e.poolStake != map[] && Voter(Pool, pool) !in votes
    ensures PoolsAgree(e, action, votes, t)
            == PoolsAgree(e, action, votes[Voter(Pool, pool) := Stance(e, action, votes, pool)], t)
  {
    hide PoolsAgree;
    SilenceIsItsDefault(e, action, votes, pool, t);
  }

  // ----- The verdict in ratios ------------------------------------------------------------------

  /** The share of `yes` in `total` is at least the threshold; equality is enough. */
  ghost predicate AtLeast(yes: int, total: int, t: Threshold)
    requires t.denom > 0
  {
    total > 0 && yes as real / total as real >= t.num as real / t.denom as real
  }

  lemma {:induction false} ProductAsReal(a: int, b: nat)
    ensures (a * b) as real == a as real * b as real
  {
    if b > 0 {
      ProductAsReal(a, b - 1);
      assert a * b == a * (b - 1) + a;
      assert a as real * b as real == a as real * (b - 1) as real + a as real;
    }
  }

  lemma CompareRatios(x: real, y: real, c: real, d: real)
    requires c > 0.0 && d > 0.0
    ensures x / c >= y / d <==> x * d >= y * c
  {
    var p, q := x / c, y / d;
    assert p * c == x && q * d == y;
    assert x * d == p * (c * d) && y * c == q * (c * d);
    ScaleBoth(p, q, c * d);
  }

  lemma ScaleBoth(p: real, q: real, f: real)
    requires f > 0.0
    ensures p >= q <==> p * f >= q * f
  {}

  lemma MetIsRatio(yes: int, total: nat, t: Threshold)
    requires t.denom > 0
    ensures Met(yes, total, t) <==> AtLeast(yes, total, t)
  {
    if total > 0 {
      CompareRatios(yes as real, t.num as real, total as real, t.denom as real);
      ProductAsReal(yes, t.denom);
      ProductAsReal(t.num, total);
    }
  }

  ghost function YesVoters(votes: Votes, role: Role): set<Voter> {
    set v <- votes | v.role == role && votes[v] == Yes
  }

  ghost function Decided(votes: Votes, role: Role): set<Voter> {
    set v <- votes | v.role == role && (votes[v] == Yes || votes[v] == No)
  }

  /** The stake, where there is any, of those who satisfy a vote. */
  ghost function StakesBehind(stakes: map<Id, int>, voters: set<Voter>): map<Voter, int> {
    map v <- voters | v.credential in stakes :: stakes[v.credential]
  }

  ghost function StakeBehind(stakes: map<Id, int>, voters: set<Voter>): int {
    Sum(StakesBehind(stakes, voters))
  }

  ghost function StakesOf(stakes: map<Id, int>, ids: set<Id>): map<Id, int> {
    map id <- ids | id in stakes :: stakes[id]
  }

  ghost function StakeOf(stakes: map<Id, int>, ids: set<Id>): int {
    Sum(StakesOf(stakes, ids))
  }

  lemma HeadsAre(votes: Votes, role: Role)
    ensures Sum(YesWeights(votes, role, map[])) == |YesVoters(votes, role)|
    ensures Sum(Counted(votes, role)) == |Decided(votes, role)|
  {
    SumOnes(YesWeights(votes, role, map[]));
    SumOnes(Counted(votes, role));
    assert YesWeights(votes, role, map[]).Keys == YesVoters(votes, role);
    assert Counted(votes, role).Keys == Decided(votes, role);
  }

  /** The committee agrees when the Yes votes are at least the threshold's share of its
      seats, taken or not. */
  lemma CommitteeRatio(e: Electorate, votes: Votes, t: Threshold)
    requires t.denom > 0
    ensures CommitteeAgrees(e, votes, t) <==> AtLeast(|YesVoters(votes, Committee)|, |e.committee|, t)
  {
    HeadsAre(votes, Committee);
    MetIsRatio(|YesVoters(votes, Committee)|, |e.committee|, t);
  }

  lemma DRepHeads(e: Electorate, votes: Votes)
    requires e.drepStake == map[]
    ensures Sum(YesWeights(votes, DRep, e.drepStake)) == |YesVoters(votes, DRep)|
    ensures Sum(DRepWeights(e)) == |e.dreps.Keys|
  {
    HeadsAre(votes, DRep);
    SumOnes(DRepWeights(e));
    assert DRepWeights(e).Keys == e.dreps.Keys;
  }

  lemma DRepStakes(e: Electorate, votes: Votes)
    requires e.drepStake != map[]
    ensures Sum(YesWeights(votes, DRep, e.drepStake)) == StakeBehind(e.drepStake, YesVoters(votes, DRep))
    ensures Sum(DRepWeights(e)) == StakeOf(e.drepStake, e.dreps.Keys)
  {
    var voters := YesVoters(votes, DRep);
    SumSame(YesWeights(votes, DRep, e.drepStake), StakesBehind(e.drepStake, voters), voters);
    SumSame(DRepWeights(e), StakesOf(e.drepStake, e.dreps.Keys), e.dreps.Keys);
  }

  /** The DReps agree when the Yes votes have at least the threshold's share of the
      registered DReps' stake, or of their number if no stake is known. */
  lemma DRepRatio(e: Electorate, votes: Votes, t: Threshold)
    requires t.denom > 0 && NonNegative(e.drepStake)
    ensures DRepsAgree(e, votes, t) <==>
            if e.drepStake == map[] then AtLeast(|YesVoters(votes, DRep)|, |e.dreps|, t)
            else AtLeast(StakeBehind(e.drepStake, YesVoters(votes, DRep)), StakeOf(e.drepStake, e.dreps.Keys), t)
  {
    hide AtLeast, Met, YesWeights, DRepWeights, StakeBehind, StakeOf;
    if e.drepStake == map[] {
      DRepHeads(e, votes);
      MetIsRatio(|YesVoters(votes, DRep)|, |e.dreps|, t);
    } else {
      DRepStakes(e, votes);
      StakeNonNegative(e.drepStake, e.dreps.Keys);
      MetIsRatio(StakeBehind(e.drepStake, YesVoters(votes, DRep)), StakeOf(e.drepStake, e.dreps.Keys), t);
    }
  }

  lemma StakeNonNegative(stakes: map<Id, int>, ids: set<Id>)
    requires NonNegative(stakes)
    ensures StakeOf(stakes, ids) >= 0
  {
    SumNonNegative(StakesOf(stakes, ids));
  }

  /** The pools that stand for Yes, and those that do not abstain. */
  ghost function YesPools(e: Electorate, action: ActionType, votes: Votes): set<Id> {
    set p <- e.poolStake | Stance(e, action, votes, p) == Yes
  }

  ghost function DecidedPools(e: Electorate, action: ActionType, votes: Votes): set<Id> {
    set p <- e.poolStake | Stance(e, action, votes, p) == Yes || Stance(e, action, votes, p) == No
  }

  lemma YesStake(e: Electorate, action: ActionType, votes: Votes)
    ensures Sum(PoolYes(e, action, votes)) == StakeOf(e.poolStake, YesPools(e, action, votes))
  {
    forall p ensures PoolVote(e, action, votes, p) == Stance(e, action, votes, p) { StanceIsPoolVote(e, action, votes, p); }
    hide PoolVote, Stance, Sum;
    SumSame(PoolYes(e, action, votes), StakesOf(e.poolStake, YesPools(e, action, votes)), e.poolStake.Keys);
  }

  lemma DecidedStake(e: Electorate, action: ActionType, votes: Votes)
    ensures Sum(PoolCounted(e, action, votes)) == StakeOf(e.poolStake, DecidedPools(e, action, votes))
  {
    forall p ensures PoolVote(e, action, votes, p) == Stance(e, action, votes, p) { StanceIsPoolVote(e, action, votes, p); }
    hide PoolVote, Stance, Sum;
    SumSame(PoolCounted(e, action, votes), StakesOf(e.poolStake, DecidedPools(e, action, votes)), e.poolStake.Keys);
  }

  /** The pools agree when those for Yes have at least the threshold's share of the
      stake of those that do not abstain, or, if no stake is known, of the number of
      votes cast that are no abstentions. */
  lemma PoolRatio(e: Electorate, action: ActionType, votes: Votes, t: Threshold)
    requires t.denom > 0 && NonNegative(e.poolStake)
    ensures PoolsAgree(e, action, votes, t) <==>
            if e.poolStake == map[] then AtLeast(|YesVoters(votes, Pool)|, |Decided(votes, Pool)|, t)
            else AtLeast(StakeOf(e.poolStake, YesPools(e, action, votes)), StakeOf(e.poolStake, DecidedPools(e, action, votes)), t)
  {
    hide AtLeast, Met, YesWeights, Counted, PoolYes, PoolCounted, StakeOf, YesPools, DecidedPools;
    if e.poolStake == map[] {
      HeadsAre(votes, Pool);
      MetIsRatio(|YesVoters(votes, Pool)|, |Decided(votes, Pool)|, t);
    } else {
      YesStake(e, action, votes);
      DecidedStake(e, action, votes);
      StakeNonNegative(e.poolStake, DecidedPools(e, action, votes));
      MetIsRatio(StakeOf(e.poolStake, YesPools(e, action, votes)), StakeOf(e.poolStake, DecidedPools(e, action, votes)), t);
    }
  }

  ghost predicate Proper(t: Thresholds) {
    && (t.cc.Some? ==> t.cc.value.denom > 0)
    && (t.drep.Some? ==> t.drep.value.denom > 0)
    && (t.spo.Some? ==> t.spo.value.denom > 0)
  }

  /** When an action is ratified, in shares: every body that is asked reaches its
      threshold, equality included, and the committee, if asked, has its minimum size. */
  lemma RatifiedExactly(state: State, action: Id, params: Params, t: Thresholds)
    requires NonNegative(state.electorate.drepStake) && NonNegative(state.electorate.poolStake) && Proper(t)
    ensures Ratified(state, action, params, Some(t)) <==>
            && action in state.proposals
            && var e, kind := state.electorate, state.proposals[action];
               var votes := if action in state.votes then state.votes[action] else map[];
               kind == Info ||
               (&& (t.cc.Some? ==>
                      |e.committee| >= params.committeeMinSize
                      && AtLeast(|YesVoters(votes, Committee)|, |e.committee|, t.cc.value))
                && (t.drep.Some? ==>
                      if e.drepStake == map[] then AtLeast(|YesVoters(votes, DRep)|, |e.dreps|, t.drep.value)
                      else AtLeast(StakeBehind(e.drepStake, YesVoters(votes, DRep)), StakeOf(e.drepStake, e.dreps.Keys), t.drep.value))
                && (t.spo.Some? ==>
                      if e.poolStake == map[] then AtLeast(|YesVoters(votes, Pool)|, |Decided(votes, Pool)|, t.spo.value)
                      else AtLeast(StakeOf(e.poolStake, YesPools(e, kind, votes)),
                                   StakeOf(e.poolStake, DecidedPools(e, kind, votes)), t.spo.value)))
  {
    if action in state.proposals {
      var e, kind, votes := state.electorate, state.proposals[action], VotesOn(state, action);
      hide CommitteeAgrees, DRepsAgree, PoolsAgree, AtLeast, YesVoters, Decided, StakeOf, StakeBehind, YesPools, DecidedPools;
      if t.cc.Some? { CommitteeRatio(e, votes, t.cc.value); }
      if t.drep.Some? { DRepRatio(e, votes, t.drep.value); }
      if t.spo.Some? { PoolRatio(e, kind, votes, t.spo.value); }
    }
  }

  /** Which bodies the default thresholds ask, and for how much: the DReps for two
      thirds of everything but information; the committee for two thirds of all but
      that, a vote of no confidence and its own election; the pools for half of these
      two and of hard forks. */
  lemma DefaultsAre(action: ActionType)
    ensures var t := DefaultThresholds(action);
            && t.drep == (if action == Info then None else Some(Threshold(2, 3)))
            && t.cc == (if action in {NoConfidence, UpdateCommittee, Info} then None else Some(Threshold(2, 3)))
            && t.spo == (if action in {NoConfidence, UpdateCommittee, HardForkInitiation} then Some(Threshold(1, 2)) else None)
            && Proper(t)
  {}

  // ----- The function itself -----------------------------------------------------------------

  lemma YesStep(votes: Votes, role: Role, stakes: map<Id, int>, rest: set<Voter>, v: Voter)
    requires v in rest && rest <= votes.Keys
    ensures Sum(YesWeights(votes - (rest - {v}), role, stakes))
            == Sum(YesWeights(votes - rest, role, stakes))
               + if v.role == role && votes[v] == Yes then Weight(stakes, v.credential) else 0
  {
    hide Weight;
    var before, after := YesWeights(votes - rest, role, stakes), YesWeights(votes - (rest - {v}), role, stakes);
    if v.role == role && votes[v] == Yes {
      SumPut(before, v, Weight(stakes, v.credential));
      assert after == before[v := Weight(stakes, v.credential)];
    } else {
      assert after == before;
    }
  }

  lemma CountedStep(votes: Votes, role: Role, rest: set<Voter>, v: Voter)
    requires v in rest && rest <= votes.Keys
    ensures Sum(Counted(votes - (rest - {v}), role))
            == Sum(Counted(votes - rest, role)) + if v.role == role && votes[v] != Abstain then 1 else 0
  {
    var before, after := Counted(votes - rest, role), Counted(votes - (rest - {v}), role);
    if v.role == role && votes[v] != Abstain {
      SumPut(before, v, 1);
      assert after == before[v := 1];
    } else {
      assert after == before;
    }
  }

  lemma NoVotes(role: Role, stakes: map<Id, int>)
    ensures Sum(YesWeights(map[], role, stakes)) == 0 && Sum(Counted(map[], role)) == 0
  {
    assert YesWeights(map[], role, stakes) == map[] && Counted(map[], role) == map[];
  }

  method TallyCommittee(votes: Votes) returns (yes: int)
    ensures yes == Sum(YesWeights(votes, Committee, map[]))
  {
    hide YesWeights;
    yes := 0;
    NoVotes(Committee, map[]);
    assert votes - votes.Keys == map[];
    var rest := votes.Keys;
    while rest != {}
      invariant rest <= votes.Keys && yes == Sum(YesWeights(votes - rest, Committee, map[]))
    {
      var v :| v in rest;
      YesStep(votes, Committee, map[], rest, v);
      if v.role == Committee {
        if votes[v] == Yes {
          yes := yes + 1;
        }
      }
      rest := rest - {v};
    }
    assert votes - rest == votes;
  }

  /** Every registered DRep counts, and every DRep's Yes, active or not. */
  method TallyDReps(e: Electorate, votes: Votes, params: Params) returns (yes: int, total: int)
    ensures yes == Sum(YesWeights(votes, DRep, e.drepStake)) && total == Sum(DRepWeights(e))
  {
    total := TotalDReps(e, params);
    hide YesWeights;
    yes := 0;
    NoVotes(DRep, e.drepStake);
    assert votes - votes.Keys == map[];
    var rest := votes.Keys;
    while rest != {}
      invariant rest <= votes.Keys && yes == Sum(YesWeights(votes - rest, DRep, e.drepStake))
    {
      var v :| v in rest;
      YesStep(votes, DRep, e.drepStake, rest, v);
      if v.role == DRep {
        if IsDRepActive(v.credential, e, params, None) {
          if votes[v] == Yes {
            yes := yes + Weight(e.drepStake, v.credential);
          }
        }
      }
      rest := rest - {v};
    }
    assert votes - rest == votes;
  }

  ghost function WeightsOf(dreps: map<Id, int>, stakes: map<Id, int>): map<Id, int> {
    map d <- dreps :: Weight(stakes, d)
  }

  lemma WeightsStep(dreps: map<Id, int>, stakes: map<Id, int>, rest: set<Id>, d: Id)
    requires d in rest && rest <= dreps.Keys
    ensures Sum(WeightsOf(dreps - (rest - {d}), stakes)) == Sum(WeightsOf(dreps - rest, stakes)) + Weight(stakes, d)
  {
    hide Weight;
    SumPut(WeightsOf(dreps - rest, stakes), d, Weight(stakes, d));
    assert WeightsOf(dreps - (rest - {d}), stakes) == WeightsOf(dreps - rest, stakes)[d := Weight(stakes, d)];
  }

  method TotalDReps(e: Electorate, params: Params) returns (total: int)
    ensures total == Sum(DRepWeights(e))
  {
    total := 0;
    var rest := e.dreps.Keys;
    assert WeightsOf(e.dreps - rest, e.drepStake) == map[];
    while rest != {}
      invariant rest <= e.dreps.Keys && total == Sum(WeightsOf(e.dreps - rest, e.drepStake))
    {
      var d :| d in rest;
      WeightsStep(e.dreps, e.drepStake, rest, d);
      if IsDRepActive(d, e, params, None) {
        total := total + Weight(e.drepStake, d);
      }
      rest := rest - {d};
    }
    assert WeightsOf(e.dreps - rest, e.drepStake) == DRepWeights(e);
  }

  /** The pools' votes and the denominator without abstentions. */
  method TallyPools(e: Electorate, action: ActionType, votes: Votes) returns (yes: int, denominator: int)
    ensures e.poolStake != map[] ==>
              yes == Sum(PoolYes(e, action, votes)) && denominator == Sum(PoolCounted(e, action, votes))
    ensures e.poolStake == map[] ==>
              yes == Sum(YesWeights(votes, Pool, map[])) && denominator == Sum(Counted(votes, Pool))
  {
    if e.poolStake != map[] {
      yes, denominator := TallyPoolStake(e, action, votes);
    } else {
      yes, denominator := TallyPoolHeads(votes);
    }
  }

  method TallyPoolHeads(votes: Votes) returns (yes: int, denominator: int)
    ensures yes == Sum(YesWeights(votes, Pool, map[])) && denominator == Sum(Counted(votes, Pool))
  {
    hide YesWeights, Counted;
    yes, denominator := 0, 0;
    NoVotes(Pool, map[]);
    assert votes - votes.Keys == map[];
    var rest := votes.Keys;
    while rest != {}
      invariant rest <= votes.Keys && yes == Sum(YesWeights(votes - rest, Pool, map[]))
      invariant denominator == Sum(Counted(votes - rest, Pool))
    {
      var v :| v in rest;
      YesStep(votes, Pool, map[], rest, v);
      CountedStep(votes, Pool, rest, v);
      rest := rest - {v};
      if v.role == Pool {
        if votes[v] == Abstain {
          continue;
        }
        denominator := denominator + 1;
        if votes[v] == Yes {
          yes := yes + 1;
        }
      }
    }
    assert votes - rest == votes;
  }

  /** Over part of the distribution. */
  ghost function PartYes(e: Electorate, action: ActionType, votes: Votes, pools: set<Id>): map<Id, int> {
    map p <- pools :: if PoolVote(e, action, votes, p) == Yes then At(e.poolStake, p) else 0
  }

  ghost function PartCounted(e: Electorate, action: ActionType, votes: Votes, pools: set<Id>): map<Id, int> {
    map p <- pools :: if PoolVote(e, action, votes, p) == Abstain then 0 else At(e.poolStake, p)
  }

  lemma PartYesStep(e: Electorate, action: ActionType, votes: Votes, pools: set<Id>, p: Id)
    requires p !in pools && p in e.poolStake
    ensures Sum(PartYes(e, action, votes, pools + {p}))
            == Sum(PartYes(e, action, votes, pools)) + if PoolVote(e, action, votes, p) == Yes then e.poolStake[p] else 0
  {
    hide PoolVote;
    var gain := if PoolVote(e, action, votes, p) == Yes then e.poolStake[p] else 0;
    SumPut(PartYes(e, action, votes, pools), p, gain);
    assert PartYes(e, action, votes, pools + {p}) == PartYes(e, action, votes, pools)[p := gain];
  }

  lemma PartCountedStep(e: Electorate, action: ActionType, votes: Votes, pools: set<Id>, p: Id)
    requires p !in pools && p in e.poolStake
    ensures Sum(PartCounted(e, action, votes, pools + {p}))
            == Sum(PartCounted(e, action, votes, pools)) + if PoolVote(e, action, votes, p) == Abstain then 0 else e.poolStake[p]
  {
    hide PoolVote;
    var gain := if PoolVote(e, action, votes, p) == Abstain then 0 else e.poolStake[p];
    SumPut(PartCounted(e, action, votes, pools), p, gain);
    assert PartCounted(e, action, votes, pools + {p}) == PartCounted(e, action, votes, pools)[p := gain];
  }

  lemma PartOfAll(e: Electorate, action: ActionType, votes: Votes)
    ensures PartYes(e, action, votes, e.poolStake.Keys) == PoolYes(e, action, votes)
    ensures PartCounted(e, action, votes, e.poolStake.Keys) == PoolCounted(e, action, votes)
    ensures Sum(PartYes(e, action, votes, {})) == 0 == Sum(PartCounted(e, action, votes, {}))
  {
    hide PoolVote;
    assert PartYes(e, action, votes, {}) == map[] && PartCounted(e, action, votes, {}) == map[];
  }

  function ExplicitVotes(votes: Votes): map<Id, Vote> {
    map v <- votes | v.role == Pool :: v.credential := votes[v]
  }

  method TallyPoolStake(e: Electorate, action: ActionType, votes: Votes) returns (yes: int, denominator: int)
    ensures yes == Sum(PoolYes(e, action, votes)) && denominator == Sum(PoolCounted(e, action, votes))
  {
    hide DefaultPoolVote, PartYes, PartCounted, PoolYes, PoolCounted;
    var explicit := ExplicitVotes(votes);
    var abstain, total := 0, 0;
    yes := 0;
    PartOfAll(e, action, votes);
    var rest := e.poolStake.Keys;
    ghost var done: set<Id> := {};
    while rest != {}
      invariant rest !! done && rest + done == e.poolStake.Keys
      invariant yes == Sum(PartYes(e, action, votes, done))
      invariant total - abstain == Sum(PartCounted(e, action, votes, done))
    {
      var pool :| pool in rest;
      var stake := e.poolStake[pool];
      PartYesStep(e, action, votes, done, pool);
      PartCountedStep(e, action, votes, done, pool);
      total := total + stake;
      if pool in explicit {
        var vote := explicit[pool];
        if vote == Yes {
          yes := yes + stake;
        } else if vote == Abstain {
          abstain := abstain + stake;
        }
      } else {
        var vote := DefaultPoolVote(pool, action, e.protocolMajor, e.rewardDelegations);
        if vote == Yes {
          yes := yes + stake;
        } else if vote == Abstain {
          abstain := abstain + stake;
        }
      }
      done := done + {pool};
      rest := rest - {pool};
    }
    assert done == e.poolStake.Keys;
    denominator := total - abstain;
  }

  method CheckRatification(state: State, action: Id, params: Params, thresholds: Option<Thresholds>) returns (ratified: bool)
    ensures ratified == Ratified(state, action, params, thresholds)
  {
    hide Met, YesWeights, Counted, PoolYes, PoolCounted, DRepWeights;
    if action !in state.proposals {
      return false;
    }
    var e := state.electorate;
    var kind := state.proposals[action];
    if kind.Info? {
      return true;
    }
    var t := if thresholds.Some? then thresholds.value else DefaultThresholds(kind);
    var votes := VotesOn(state, action);
    if t.cc.Some? {
      var yes := TallyCommittee(votes);
      if !Met(yes, |e.committee|, t.cc.value) {
        return false;
      }
    }
    if t.drep.Some? {
      var yes, total := TallyDReps(e, votes, params);
      if !Met(yes, total, t.drep.value) {
        return false;
      }
    }
    if t.spo.Some? {
      var yes, denominator := TallyPools(e, kind, votes);
      if !Met(yes, denominator, t.spo.value) {
        return false;
      }
    }
    if t.cc.Some? {
      if |e.committee| < params.committeeMinSize {
        return false;
      }
    }
    return true;
  }
}
