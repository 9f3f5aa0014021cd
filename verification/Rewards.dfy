// Epoch rewards: the stake snapshot, the reward pot, each pool's reward and its
// split between operator and delegators, in exact arithmetic with truncation.

module Rewards {
  import opened MapSum

  type Id = nat

  datatype Option<+T> = None | Some(value: T)

  datatype RewardPot = RewardPot(monetaryExpansion: int, totalPot: int, treasuryCut: int, rewardsPot: int)

  /** What the reward formulas need to know of a pool. */
  datatype Pool = Pool(pledge: int, cost: int, margin: real, stake: int)

  datatype Split = Split(operator: int, members: map<Id, int>)

  /** `int(x)`: truncation toward zero. */
  function Trunc(x: real): int {
    if x >= 0.0 then x.Floor else -((-x).Floor)
  }

  function MinReal(x: real, y: real): real {
    if x <= y then x else y
  }

  lemma TruncBounds(x: real)
    ensures x >= 0.0 ==> 0 <= Trunc(x) && Trunc(x) as real <= x < Trunc(x) as real + 1.0
    ensures x < 0.0 ==> Trunc(x) <= 0 && Trunc(x) as real >= x
  {}

  // ----- The reward pot ---------------------------------------------------------

  function TotalRewardPot(reserves: int, rho: real, tau: real, fees: int): RewardPot {
    var expansion := Trunc(reserves as real * rho);
    var total := expansion + fees;
    var cut := Trunc(total as real * tau);
    RewardPot(expansion, total, cut, total - cut)
  }

  lemma MulNonNegative(x: real, y: real)
    requires x >= 0.0 && y >= 0.0
    ensures x * y >= 0.0
  {}

  lemma MulAtMost(x: real, y: real)
    requires x >= 0.0 && y <= 1.0
    ensures x * y <= x
  {}

  lemma MulMono(x: real, y: real, f: real)
    requires x <= y && f >= 0.0
    ensures x * f <= y * f
  {}

  predicate IsFloor(n: int, x: real) {
    n as real <= x < n as real + 1.0
  }

  lemma TruncWithin(x: real, n: nat)
    requires 0.0 <= x <= n as real
    ensures 0 <= Trunc(x) <= n
  {}

  lemma FloorOfShare(amount: nat, rate: real)
    requires 0.0 <= rate <= 1.0
    ensures 0 <= Trunc(amount as real * rate) <= amount
    ensures IsFloor(Trunc(amount as real * rate), amount as real * rate)
  {
    var a := amount as real;
    var x := a * rate;
    MulNonNegative(a, rate);
    MulAtMost(a, rate);
    assert 0.0 <= x <= a;
    TruncWithin(x, amount);
    TruncBounds(x);
  }

  /** Both cuts are the floors of the exact rational amounts, and the pot is split
      without loss: no more is taken from the reserves than there is, and what the
      treasury does not get goes to the stakeholders. */
  lemma PotIsSplitWithoutLoss(reserves: int, rho: real, tau: real, fees: int)
    requires reserves >= 0 && 0.0 <= rho <= 1.0 && 0.0 <= tau <= 1.0 && fees >= 0
    ensures var pot := TotalRewardPot(reserves, rho, tau, fees);
            && 0 <= pot.monetaryExpansion <= reserves
            && IsFloor(pot.monetaryExpansion, reserves as real * rho)
            && 0 <= pot.treasuryCut <= pot.totalPot == pot.monetaryExpansion + fees
            && IsFloor(pot.treasuryCut, pot.totalPot as real * tau)
            && pot.rewardsPot >= 0 && pot.treasuryCut + pot.rewardsPot == pot.totalPot
  {
    FloorOfShare(reserves, rho);
    FloorOfShare(Trunc(reserves as real * rho) + fees, tau);
  }

  // ----- One pool's reward ---------------------------------------------------------

  /** No blocks were made, or none were expected. */
  predicate Idle(blocks: Option<(int, int)>) {
    blocks.Some? && (blocks.value.0 == 0 || blocks.value.1 == 0)
  }

  /** Share of its expected blocks that the pool made, at most one; one when
      the counts are not known. */
  function Performance(blocks: Option<(int, int)>): real
    requires !Idle(blocks)
  {
    if blocks.Some? then MinReal(blocks.value.0 as real / blocks.value.1 as real, 1.0) else 1.0
  }

  /** The pledge's part of the bracket, for capped relative stake and pledge. */
  function PledgePart(sigma': real, s': real, z: real, a0: real): real
    requires z != 0.0
  {
    var inner := (z - sigma') / z;
    var middle := sigma' - s' * inner;
    s' * a0 * middle / z
  }

  /** The bracket of the reward formula, for relative stake `sigma`, relative
      pledge `s` and saturation point `z`. */
  function Bracket(sigma: real, s: real, z: real, a0: real): real
    requires z != 0.0
  {
    var sigma', s' := MinReal(sigma, z), MinReal(s, z);
    sigma' + PledgePart(sigma', s', z, a0)
  }

  /** The reward at full performance, before truncation. */
  function FullReward(stake: int, pledge: int, totalStake: int, rewardsPot: int, nOpt: int, a0: real): real
    requires totalStake != 0 && nOpt != 0 && 1.0 + a0 != 0.0
  {
    var sigma, s := stake as real / totalStake as real, pledge as real / totalStake as real;
    var z := 1.0 / nOpt as real;
    if z == 0.0 then 0.0 else PotTimes(rewardsPot, a0, Bracket(sigma, s, z, a0))
  }

  function PotTimes(rewardsPot: int, a0: real, bracket: real): real
    requires 1.0 + a0 != 0.0
  {
    Times(rewardsPot as real / (1.0 + a0), bracket)
  }

  /** A product of two unknowns. */
  function Times(x: real, y: real): real {
    x * y
  }

  function Discount(full: real, performance: real): int {
    Trunc(Times(full, performance))
  }

  /** `blocks` is the pair of blocks made and expected, when given. */
  function PoolReward(pool: Pool, totalStake: int, rewardsPot: int, nOpt: int, a0: real,
                      blocks: Option<(int, int)>): int
    requires nOpt != 0 && 1.0 + a0 != 0.0
  {
    if totalStake == 0 || pool.stake == 0 then 0
    else if Idle(blocks) then 0
    else Discount(FullReward(pool.stake, pool.pledge, totalStake, rewardsPot, nOpt, a0), Performance(blocks))
  }

  lemma DivMul(x: real, y: real)
    requires y != 0.0
    ensures x / y * y == x
  {}

  lemma DivRange(x: real, z: real)
    requires 0.0 <= x <= z && z > 0.0
    ensures 0.0 <= x / z <= 1.0
  {}

  lemma DivPositive(x: real, y: real)
    requires x >= 0.0 && y > 0.0
    ensures x / y >= 0.0
  {}

  lemma Dampened(u: real, middle: real, sigma: real)
    requires 0.0 <= u <= 1.0 && middle <= sigma && sigma >= 0.0
    ensures u * middle <= sigma
  {
    if middle >= 0.0 {
      MulAtMost(middle, u);
      assert u * middle == middle * u;
    } else {
      Opposite(u, middle);
    }
  }

  lemma PledgeTerm(sigma: real, s: real, z: real, a0: real, middle: real)
    requires 0.0 <= sigma && 0.0 <= s <= z && z > 0.0 && a0 >= 0.0 && middle <= sigma
    ensures s * a0 * middle / z <= a0 * sigma
  {
    DivRange(s, z);
    Dampened(s / z, middle, sigma);
    MulMono(s / z * middle, sigma, a0);
    Regroup(s, a0, middle, z);
  }

  lemma AddUp(x: real, t: real, a0: real, sigma: real)
    requires t <= a0 * x && x <= sigma && a0 >= 0.0
    ensures x + t <= (1.0 + a0) * sigma
  {
    MulMono(x, sigma, 1.0 + a0);
    assert x * (1.0 + a0) == x + a0 * x;
    assert sigma * (1.0 + a0) == (1.0 + a0) * sigma;
  }

  lemma MiddleBelow(sigma: real, s: real, inner: real)
    requires s >= 0.0 && inner >= 0.0
    ensures sigma - s * inner <= sigma
  {
    MulNonNegative(s, inner);
  }

  lemma PledgePartBound(sigma: real, s: real, z: real, a0: real)
    requires 0.0 <= sigma <= z && 0.0 <= s <= z && z > 0.0 && a0 >= 0.0
    ensures PledgePart(sigma, s, z, a0) <= a0 * sigma
  {
    var inner := (z - sigma) / z;
    DivRange(z - sigma, z);
    MiddleBelow(sigma, s, inner);
    PledgeTerm(sigma, s, z, a0, sigma - s * inner);
  }

  /** With pledge and stake non-negative, the bracket is at most (1 + a0) times
      the relative stake. */
  lemma BracketBound(sigma: real, s: real, z: real, a0: real)
    requires sigma >= 0.0 && s >= 0.0 && z > 0.0 && a0 >= 0.0
    ensures Bracket(sigma, s, z, a0) <= (1.0 + a0) * sigma
  {
    hide PledgePart;
    var sigma', s' := MinReal(sigma, z), MinReal(s, z);
    PledgePartBound(sigma', s', z, a0);
    AddUp(sigma', PledgePart(sigma', s', z, a0), a0, sigma);
  }

  lemma Opposite(u: real, m: real)
    requires u >= 0.0 && m <= 0.0
    ensures u * m <= 0.0
  {}

  lemma Regroup(s: real, a: real, m: real, z: real)
    requires z != 0.0
    ensures s * a * m / z == a * (s / z * m)
  {
    DivMul(s, z);
    var u := s / z;
    assert s * a * m == a * (u * m) * z;
  }

  lemma FactorOut(r: real, a0: real, b: real, sigma: real)
    requires r >= 0.0 && a0 >= 0.0 && b <= (1.0 + a0) * sigma
    ensures r / (1.0 + a0) * b <= r * sigma
  {
    var q := r / (1.0 + a0);
    DivMul(r, 1.0 + a0);
    DivPositive(r, 1.0 + a0);
    MulMono(b, (1.0 + a0) * sigma, q);
    assert q * ((1.0 + a0) * sigma) == q * (1.0 + a0) * sigma;
  }

  lemma {:induction false} ProductAsReal(a: int, b: nat)
    ensures (a * b) as real == a as real * b as real
  {
    if b > 0 {
      ProductAsReal(a, b - 1);
      assert a * b == a * (b - 1) + a;
      assert a as real * b as real == a as real * (b - 1) as real + a as real;
    }
  }

  lemma NatMulNonNegative(a: nat, b: nat)
    ensures a * b >= 0
  {}

  /** From relative stakes back to whole numbers. */
  lemma Denormalize(paid: int, total: nat, r: nat, stake: nat)
    requires total > 0
    requires paid as real <= r as real * (stake as real / total as real)
    ensures paid * total <= r * stake
  {
    var sigma, t := stake as real / total as real, total as real;
    DivMul(stake as real, t);
    MulMono(paid as real, r as real * sigma, t);
    assert r as real * sigma * t == r as real * (sigma * t);
    ProductAsReal(paid, total);
    ProductAsReal(r, stake);
  }

  /** No pool is paid more than its share of the pot: its reward is at most
      R * stake / total stake, whatever its pledge, and however it performed. */
  lemma PoolRewardBound(pool: Pool, totalStake: int, rewardsPot: int, nOpt: int, a0: real, blocks: Option<(int, int)>)
    requires pool.pledge >= 0 && pool.stake >= 0 && totalStake >= 0 && rewardsPot >= 0 && nOpt >= 1 && a0 >= 0.0
    requires blocks.Some? ==> blocks.value.0 >= 0 && blocks.value.1 >= 0
    ensures PoolReward(pool, totalStake, rewardsPot, nOpt, a0, blocks) * totalStake <= rewardsPot * pool.stake
  {
    hide FullReward, Performance, Discount;
    var reward := PoolReward(pool, totalStake, rewardsPot, nOpt, a0, blocks);
    if totalStake == 0 || pool.stake == 0 || Idle(blocks) {
      NothingPaid(reward, totalStake, rewardsPot, pool.stake);
    } else {
      PerformanceRange(blocks);
      FullRewardBound(pool.stake, pool.pledge, totalStake, rewardsPot, nOpt, a0);
      Paid(reward, FullReward(pool.stake, pool.pledge, totalStake, rewardsPot, nOpt, a0), Performance(blocks),
           totalStake, rewardsPot, pool.stake);
    }
  }

  lemma PerformanceRange(blocks: Option<(int, int)>)
    requires !Idle(blocks) && (blocks.Some? ==> blocks.value.0 >= 0 && blocks.value.1 >= 0)
    ensures 0.0 <= Performance(blocks) <= 1.0
  {
    if blocks.Some? {
      DivPositive(blocks.value.0 as real, blocks.value.1 as real);
    }
  }

  lemma NothingPaid(paid: int, total: nat, pot: nat, stake: nat)
    requires paid == 0
    ensures paid * total <= pot * stake
  {}

  lemma Paid(paid: int, full: real, performance: real, total: nat, pot: nat, stake: nat)
    requires total > 0 && full <= pot as real * (stake as real / total as real) && 0.0 <= performance <= 1.0
    requires paid == Discount(full, performance)
    ensures paid * total <= pot * stake
  {
    DivPositive(stake as real, total as real);
    MulNonNegative(pot as real, stake as real / total as real);
    Discounted(full, performance, pot as real * (stake as real / total as real));
    Denormalize(paid, total, pot, stake);
  }

  lemma FullRewardBound(stake: nat, pledge: nat, total: nat, pot: nat, nOpt: nat, a0: real)
    requires total > 0 && nOpt >= 1 && a0 >= 0.0
    ensures FullReward(stake, pledge, total, pot, nOpt, a0) <= pot as real * (stake as real / total as real)
  {
    hide Bracket;
    var sigma, s, z := stake as real / total as real, pledge as real / total as real, 1.0 / nOpt as real;
    DivPositive(stake as real, total as real);
    DivPositive(pledge as real, total as real);
    DivMul(1.0, nOpt as real);
    DivPositive(1.0, nOpt as real);
    BracketBound(sigma, s, z, a0);
    FactorOut(pot as real, a0, Bracket(sigma, s, z, a0), sigma);
  }

  lemma Discounted(full: real, performance: real, cap: real)
    requires full <= cap && cap >= 0.0 && 0.0 <= performance <= 1.0
    ensures Discount(full, performance) as real <= cap
  {
    hide Times;
    TimesMono(full, 0.0, performance);
    TimesMono(full, performance, 1.0);
    TruncBounds(Times(full, performance));
  }

  /** Making more of the expected blocks earns no less when the full reward is not
      negative, and no more when it is; making them all earns what is earned
      without counts, and making none earns nothing. */
  lemma RewardFollowsPerformance(pool: Pool, totalStake: nat, rewardsPot: int, nOpt: int, a0: real,
                                 made: nat, more: nat, expected: nat)
    requires made <= more && pool.stake != 0 && totalStake > 0 && nOpt != 0 && 1.0 + a0 != 0.0 && expected > 0
    ensures var few := PoolReward(pool, totalStake, rewardsPot, nOpt, a0, Some((made, expected)));
            var many := PoolReward(pool, totalStake, rewardsPot, nOpt, a0, Some((more, expected)));
            var whole := PoolReward(pool, totalStake, rewardsPot, nOpt, a0, None);
            && (FullReward(pool.stake, pool.pledge, totalStake, rewardsPot, nOpt, a0) >= 0.0 ==> 0 <= few <= many <= whole)
            && (FullReward(pool.stake, pool.pledge, totalStake, rewardsPot, nOpt, a0) <= 0.0 ==> 0 >= few >= many >= whole)
            && (more >= expected ==> many == whole)
            && (made == 0 ==> few == 0)
  {
    hide FullReward, Discount, Performance;
    var full := FullReward(pool.stake, pool.pledge, totalStake, rewardsPot, nOpt, a0);
    PerformanceGrows(made, more, expected);
    var p: Option<(int, int)>, q: Option<(int, int)> := Some((more, expected)), None;
    Discounts(full, 0.0, Performance(q));
    if more > 0 {
      Discounts(full, Performance(p), Performance(q));
    }
    if made > 0 {
      Discounts(full, Performance(Some((made, expected))), Performance(p));
    }
  }

  lemma PerformanceGrows(made: nat, more: nat, expected: nat)
    requires made <= more && expected > 0
    ensures more > 0 ==> 0.0 <= Performance(Some((more, expected))) <= 1.0
    ensures made > 0 ==> 0.0 <= Performance(Some((made, expected))) <= Performance(Some((more, expected)))
    ensures more >= expected ==> Performance(Some((more, expected))) == 1.0
    ensures Performance(None) == 1.0
  {
    DivMono(made as real, more as real, expected as real);
    DivPositive(made as real, expected as real);
    if more >= expected {
      DivMono(expected as real, more as real, expected as real);
      assert expected as real / expected as real == 1.0;
    }
  }

  lemma TimesMono(f: real, x: real, y: real)
    requires x <= y
    ensures f >= 0.0 ==> Times(f, x) <= Times(f, y)
    ensures f <= 0.0 ==> Times(f, x) >= Times(f, y)
    ensures Times(f, 0.0) == 0.0 && Times(f, 1.0) == f
  {}

  lemma Discounts(full: real, p: real, q: real)
    requires 0.0 <= p <= q
    ensures full >= 0.0 ==> 0 <= Discount(full, p) <= Discount(full, q)
    ensures full <= 0.0 ==> 0 >= Discount(full, p) >= Discount(full, q)
  {
    hide Times;
    TimesMono(full, 0.0, p);
    TimesMono(full, p, q);
    if full >= 0.0 {
      TruncMono(Times(full, p), Times(full, q));
    } else {
      TruncMono(Times(full, q), Times(full, p));
    }
    TruncBounds(Times(full, p));
  }

  lemma TruncMono(x: real, y: real)
    requires x <= y
    ensures Trunc(x) <= Trunc(y)
  {}

  lemma DivMono(x: real, y: real, t: real)
    requires x <= y && t > 0.0
    ensures x / t <= y / t
  {}

  /** The two ends of the formula: without pledge only the capped stake counts, and
      a saturated pool with a saturating pledge gets the whole of its share back. */
  lemma BracketExtremes(sigma: real, s: real, z: real, a0: real)
    requires z > 0.0
    ensures s == 0.0 ==> Bracket(sigma, s, z, a0) == MinReal(sigma, z)
    ensures sigma >= z && s >= z ==> Bracket(sigma, s, z, a0) == (1.0 + a0) * z
  {
    hide Bracket, Cleared, Scaled;
    BracketCleared(sigma, s, z, a0);
    if s == 0.0 {
      ClearedWithoutPledge(MinReal(sigma, z), MinReal(s, z), z, a0);
      CancelSquare(Bracket(sigma, s, z, a0), MinReal(sigma, z), z);
    }
    if sigma >= z && s >= z {
      ClearedSaturated(MinReal(sigma, z), MinReal(s, z), z, a0);
      CancelSquare(Bracket(sigma, s, z, a0), (1.0 + a0) * z, z);
    }
  }

  lemma ClearedWithoutPledge(sigma: real, s: real, z: real, a0: real)
    requires s == 0.0
    ensures Cleared(sigma, s, z, a0) == Scaled(sigma, z)
  {
    var w := s * (z - sigma) - sigma * z;
    assert a0 * s * w == 0.0;
  }

  lemma ClearedSaturated(sigma: real, s: real, z: real, a0: real)
    requires sigma == z && s == z
    ensures Cleared(sigma, s, z, a0) == Scaled((1.0 + a0) * z, z)
  {
    var zz := z * z;
    assert s * (z - sigma) == 0.0;
    assert a0 * z * (0.0 - zz) == -(a0 * z * zz);
    assert (1.0 + a0) * z * z * z == z * z * z + a0 * z * zz;
  }

  lemma CancelSquare(x: real, y: real, z: real)
    requires z > 0.0 && Scaled(x, z) == Scaled(y, z)
    ensures x == y
  {
    SignOfScaled(x - y, z);
    SignOfScaled(y - x, z);
    assert (x - y) * z * z == x * z * z - y * z * z;
    assert (y - x) * z * z == y * z * z - x * z * z;
  }

  // ----- When a pool's reward can be negative ----------------------------------------

  /** The pledge is small enough, against the stake, for the pledge term not to
      outweigh the stake term. */
  predicate PledgeTolerable(sigma: real, s: real, z: real, a0: real) {
    var sigma', s' := MinReal(sigma, z), MinReal(s, z);
    a0 * s' * (s' * (z - sigma') - sigma' * z) <= sigma' * z * z
  }

  lemma ClearDivision(x: real, t: real, m: real, z: real)
    requires z != 0.0
    ensures (x + t * (x - m / z) / z) * z * z == x * z * z - t * (m - x * z)
  {
    DivMul(m, z);
    var q := m / z;
    DivMul(t * (x - q), z);
    var w := t * (x - q) / z;
    assert (x + w) * z * z == x * z * z + w * z * z;
    assert w * z * z == t * (x - q) * z;
    assert t * (x - q) * z == t * ((x - q) * z);
    assert (x - q) * z == x * z - m;
    assert t * (x * z - m) == -(t * (m - x * z));
  }

  lemma MulDiv(x: real, y: real, z: real)
    requires z != 0.0
    ensures x * (y / z) == x * y / z
  {}

  function Scaled(x: real, z: real): real {
    x * z * z
  }

  /** The bracket times z squared: a polynomial in the capped stake and pledge. */
  function Cleared(sigma': real, s': real, z: real, a0: real): real {
    sigma' * z * z - a0 * s' * (s' * (z - sigma') - sigma' * z)
  }

  lemma BracketCleared(sigma: real, s: real, z: real, a0: real)
    requires z != 0.0
    ensures Scaled(Bracket(sigma, s, z, a0), z) == Cleared(MinReal(sigma, z), MinReal(s, z), z, a0)
  {
    var sigma', s' := MinReal(sigma, z), MinReal(s, z);
    MulDiv(s', z - sigma', z);
    ClearDivision(sigma', s' * a0, s' * (z - sigma'), z);
  }

  lemma SignOfScaled(b: real, z: real)
    requires z > 0.0
    ensures Scaled(b, z) >= 0.0 <==> b >= 0.0
  {
    if b >= 0.0 {
      MulNonNegative(b, z);
      MulNonNegative(b * z, z);
    } else {
      NegativeProduct(b, z);
      NegativeProduct(b * z, z);
    }
  }

  lemma NegativeProduct(b: real, c: real)
    requires b < 0.0 && c > 0.0
    ensures b * c < 0.0
  {}

  lemma BracketSign(sigma: real, s: real, z: real, a0: real)
    requires z > 0.0
    ensures Bracket(sigma, s, z, a0) >= 0.0 <==> PledgeTolerable(sigma, s, z, a0)
  {
    hide Bracket;
    BracketCleared(sigma, s, z, a0);
    SignOfScaled(Bracket(sigma, s, z, a0), z);
  }

  lemma TimesLaws(x: real, y: real, z: real)
    ensures Times(x, y) == Times(y, x) && Times(Times(x, y), z) == Times(x, Times(y, z))
    ensures Times(x, -y) == -Times(x, y)
  {}

  lemma Quotient(x: real, y: real)
    requires y != 0.0
    ensures Times(y, x / y) == x
  {}

  lemma TimesAtLeast(c: real, w: real)
    requires c > 0.0 && Times(c, w) >= c
    ensures w >= 1.0
  {
    if w < 1.0 {
      NegativeProduct(w - 1.0, c);
    }
  }

  /** A pot that is large enough turns a negative bracket into a whole loss. */
  lemma LargePot(b: real, a0: real) returns (pot: nat)
    requires b < 0.0 && a0 >= 0.0
    ensures PotTimes(pot, a0, b) <= -1.0
  {
    hide Times;
    var c, nb := 1.0 + a0, -b;
    DivPositive(c, nb);
    pot := (c / nb).Floor + 1;
    var q := pot as real / c;
    Quotient(c, nb);
    TimesMono(nb, c / nb, pot as real);
    Quotient(pot as real, c);
    TimesLaws(nb, c, q);
    TimesLaws(c, nb, q);
    TimesLaws(nb, q, b);
    TimesAtLeast(c, Times(nb, q));
    TimesLaws(q, b, b);
  }

  lemma TruncNegative(x: real)
    ensures Trunc(x) < 0 <==> x <= -1.0
  {}

  lemma DiscountNegative(full: real, performance: real)
    ensures Discount(full, performance) < 0 <==> Times(full, performance) <= -1.0
  {
    TruncNegative(Times(full, performance));
  }

  lemma PotTimesSign(pot: nat, a0: real, b: real)
    requires a0 >= 0.0 && b >= 0.0
    ensures PotTimes(pot, a0, b) >= 0.0
  {
    DivPositive(pot as real, 1.0 + a0);
    MulNonNegative(pot as real / (1.0 + a0), b);
  }

  ghost predicate Counts(blocks: Option<(int, int)>) {
    blocks.Some? ==> blocks.value.0 >= 0 && blocks.value.1 >= 0
  }

  lemma TolerableRewards(pool: Pool, totalStake: nat, pot: nat, nOpt: int, a0: real, blocks: Option<(int, int)>)
    requires pool.stake > 0 && pool.pledge >= 0 && totalStake > 0 && nOpt >= 1 && a0 >= 0.0 && Counts(blocks)
    requires Tolerable(pool, totalStake, nOpt, a0)
    ensures PoolReward(pool, totalStake, pot, nOpt, a0, blocks) >= 0
  {
    hide Bracket, PledgeTolerable, PotTimes, Performance, Discount;
    var sigma, s, z := pool.stake as real / totalStake as real, pool.pledge as real / totalStake as real, 1.0 / nOpt as real;
    BracketSign(sigma, s, z, a0);
    PotTimesSign(pot, a0, Bracket(sigma, s, z, a0));
    if !Idle(blocks) {
      PerformanceRange(blocks);
      Discounts(PotTimes(pot, a0, Bracket(sigma, s, z, a0)), 0.0, Performance(blocks));
    }
  }

  /** The pledge condition, for a pool. */
  ghost predicate Tolerable(pool: Pool, totalStake: nat, nOpt: int, a0: real)
    requires totalStake > 0 && nOpt >= 1
    ensures 1.0 / nOpt as real > 0.0
  {
    DivMul(1.0, nOpt as real);
    DivPositive(1.0, nOpt as real);
    PledgeTolerable(pool.stake as real / totalStake as real, pool.pledge as real / totalStake as real, 1.0 / nOpt as real, a0)
  }

  /** A pool's reward is never negative, whatever the pot and whatever blocks it
      made, exactly when its pledge is tolerable; a pledge of at most the pool's
      stake always is. */
  lemma NeverNegativeExactly(pool: Pool, totalStake: nat, nOpt: int, a0: real)
    requires pool.stake > 0 && pool.pledge >= 0 && totalStake > 0 && nOpt >= 1 && a0 >= 0.0
    ensures (forall pot: nat, blocks :: Counts(blocks) ==> PoolReward(pool, totalStake, pot, nOpt, a0, blocks) >= 0)
            <==> Tolerable(pool, totalStake, nOpt, a0)
    ensures pool.pledge <= pool.stake ==> Tolerable(pool, totalStake, nOpt, a0)
  {
    hide Bracket, PledgeTolerable, PoolReward, PotTimes;
    var sigma, s, z := pool.stake as real / totalStake as real, pool.pledge as real / totalStake as real, 1.0 / nOpt as real;
    if Tolerable(pool, totalStake, nOpt, a0) {
      forall pot: nat, blocks | Counts(blocks) ensures PoolReward(pool, totalStake, pot, nOpt, a0, blocks) >= 0 {
        TolerableRewards(pool, totalStake, pot, nOpt, a0, blocks);
      }
    } else {
      BracketSign(sigma, s, z, a0);
      var pot := LargePot(Bracket(sigma, s, z, a0), a0);
      NegativeAtFullPerformance(pool, totalStake, pot, nOpt, a0);
      assert Counts(None) && PoolReward(pool, totalStake, pot, nOpt, a0, None) < 0;
    }
    if pool.pledge <= pool.stake {
      DivPositive(pool.pledge as real, totalStake as real);
      DivMono(pool.pledge as real, pool.stake as real, totalStake as real);
      SmallPledge(sigma, s, z, a0);
    }
  }

  lemma NegativeAtFullPerformance(pool: Pool, totalStake: nat, pot: nat, nOpt: int, a0: real)
    requires pool.stake > 0 && totalStake > 0 && nOpt >= 1 && a0 >= 0.0 && 1.0 / nOpt as real > 0.0
    requires var sigma, s := pool.stake as real / totalStake as real, pool.pledge as real / totalStake as real;
             PotTimes(pot, a0, Bracket(sigma, s, 1.0 / nOpt as real, a0)) <= -1.0
    ensures PoolReward(pool, totalStake, pot, nOpt, a0, None) < 0
  {
    hide Bracket, PotTimes, Discount, Times;
    DiscountNegative(FullReward(pool.stake, pool.pledge, totalStake, pot, nOpt, a0), 1.0);
    TimesMono(FullReward(pool.stake, pool.pledge, totalStake, pot, nOpt, a0), 0.0, 1.0);
  }

  /** One call: the reward is negative exactly when the discounted full reward is
      at most -1, and then the pledge is not tolerable. */
  lemma NegativeExactly(pool: Pool, totalStake: nat, pot: nat, nOpt: int, a0: real, blocks: Option<(int, int)>)
    requires pool.stake > 0 && pool.pledge >= 0 && totalStake > 0 && nOpt >= 1 && a0 >= 0.0 && Counts(blocks)
    ensures PoolReward(pool, totalStake, pot, nOpt, a0, blocks) < 0
            <==> !Idle(blocks) && Times(FullReward(pool.stake, pool.pledge, totalStake, pot, nOpt, a0), Performance(blocks)) <= -1.0
    ensures PoolReward(pool, totalStake, pot, nOpt, a0, blocks) < 0 ==> !Tolerable(pool, totalStake, nOpt, a0)
  {
    hide FullReward, Performance, Discount, Tolerable, Times;
    if !Idle(blocks) {
      DiscountNegative(FullReward(pool.stake, pool.pledge, totalStake, pot, nOpt, a0), Performance(blocks));
    }
    if Tolerable(pool, totalStake, nOpt, a0) {
      TolerableRewards(pool, totalStake, pot, nOpt, a0, blocks);
    }
  }

  // ----- The amount of a pool's reward -------------------------------------------------

  /** `f` is the share of its expected blocks that the pool made: 1 if they are not
      counted or all were made, 0 if none were made or expected. */
  ghost predicate IsFactor(blocks: Option<(int, int)>, f: real) {
    match blocks
    case None => f == 1.0
    case Some((made, expected)) =>
      if expected == 0 then f == 0.0
      else if made >= expected then f == 1.0
      else f * expected as real == made as real
  }

  /** `n` is `x / unit`, truncated toward zero. */
  ghost predicate IsWhole(n: int, x: real, unit: real) {
    if x >= 0.0 then Times(n as real, unit) <= x < Times(n as real + 1.0, unit)
    else Times((-n) as real, unit) <= -x < Times((-n) as real + 1.0, unit)
  }

  /** The relative stake, or the relative pledge, up to the saturation point. */
  function Capped(amount: int, total: nat, nOpt: nat): real
    requires total > 0 && nOpt > 0
  {
    if amount * nOpt <= total then amount as real / total as real else 1.0 / nOpt as real
  }

  lemma CrossMultiply(amount: int, total: nat, nOpt: nat)
    requires total > 0 && nOpt > 0
    ensures amount * nOpt <= total <==> amount as real / total as real <= 1.0 / nOpt as real
  {
    var x, t, n := amount as real / total as real, total as real, nOpt as real;
    DivMul(amount as real, t);
    DivMul(1.0, n);
    ProductAsReal(amount, nOpt);
    assert x * t * n == amount as real * n && 1.0 / n * n * t == t;
    if x <= 1.0 / n {
      MulMono(x, 1.0 / n, t);
      MulMono(x * t, 1.0 / n * t, n);
      assert 1.0 / n * t * n == 1.0 / n * n * t;
    } else {
      MulStrict(1.0 / n, x, t);
      MulStrict(1.0 / n * t, x * t, n);
      assert 1.0 / n * t * n == 1.0 / n * n * t;
    }
  }

  lemma MulStrict(x: real, y: real, f: real)
    requires x < y && f > 0.0
    ensures x * f < y * f
  {}

  lemma CappedIsMin(amount: int, total: nat, nOpt: nat)
    requires total > 0 && nOpt > 0
    ensures Capped(amount, total, nOpt) == MinReal(amount as real / total as real, 1.0 / nOpt as real)
  {
    CrossMultiply(amount, total, nOpt);
  }

  lemma TruncIsWhole(n: int, x: real, c: real)
    requires c > 0.0
    ensures Trunc(x) == n <==> IsWhole(n, Times(x, c), c)
  {
    if x >= 0.0 {
      TimesSign(x, c);
      FloorScaled(n, x, c);
    } else {
      TimesSign(x, c);
      FloorScaled(-n, -x, c);
      TimesOpposite(x, c);
    }
  }

  lemma TimesSign(x: real, c: real)
    requires c > 0.0
    ensures Times(x, c) >= 0.0 <==> x >= 0.0
  {
    if x >= 0.0 {
      MulNonNegative(x, c);
    } else {
      NegativeProduct(x, c);
    }
  }

  lemma TimesOpposite(x: real, c: real)
    ensures Times(-x, c) == -Times(x, c)
  {}

  lemma FloorScaled(n: int, x: real, c: real)
    requires c > 0.0
    ensures x.Floor == n <==> Times(n as real, c) <= Times(x, c) < Times(n as real + 1.0, c)
  {
    hide Times;
    CompareScaled(n as real, x, c);
    CompareScaled(n as real + 1.0, x, c);
  }

  lemma CompareScaled(x: real, y: real, c: real)
    requires c > 0.0
    ensures x <= y <==> Times(x, c) <= Times(y, c)
  {
    if x <= y {
      MulMono(x, y, c);
    } else {
      MulStrict(y, x, c);
    }
  }

  /** What is truncated, and what it becomes when the divisions are cleared. */
  ghost function Exact(r: real, a0: real, b: real, f: real): real
    requires 1.0 + a0 != 0.0
  {
    Times(Times(r / (1.0 + a0), b), f)
  }

  ghost function Unit(z: real, a0: real): real {
    (1.0 + a0) * z * z
  }

  ghost function ClearedAmount(r: real, f: real, sigma': real, s': real, z: real, a0: real): real {
    r * f * (sigma' * z * z + a0 * s' * (sigma' * z - s' * (z - sigma')))
  }

  lemma UnitPositive(z: real, a0: real)
    requires 1.0 + a0 > 0.0 && z > 0.0
    ensures Unit(z, a0) > 0.0
  {
    MulStrict(0.0, 1.0 + a0, z);
    MulStrict(0.0, (1.0 + a0) * z, z);
  }

  lemma ClearReward(r: real, a0: real, b: real, f: real, z: real)
    requires 1.0 + a0 > 0.0
    ensures Times(Exact(r, a0, b, f), Unit(z, a0)) == Times(Times(r, f), Scaled(b, z))
  {
    var c := 1.0 + a0;
    DivMul(r, c);
    Regroup4(r / c, b, f, c, z);
  }

  lemma Regroup4(q: real, b: real, f: real, c: real, z: real)
    ensures Times(Times(Times(q, b), f), c * z * z) == Times(Times(q * c, f), b * z * z)
  {
    Square(c, z);
    Square(b, z);
    Shuffle(q, b * f, c, z * z);
    Commute(b, f, z * z);
    assert q * b * f == q * (b * f);
    Associate(q * c, f, b * (z * z));
  }

  lemma Square(c: real, z: real)
    ensures c * (z * z) == c * z * z
  {}

  lemma Associate(x: real, y: real, z: real)
    ensures x * y * z == x * (y * z)
  {}

  lemma Commute(b: real, f: real, zz: real)
    ensures b * f * zz == f * (b * zz)
  {}

  lemma Shuffle(q: real, bf: real, c: real, zz: real)
    ensures q * bf * (c * zz) == q * c * (bf * zz)
  {}

  lemma FactorIsPerformance(blocks: Option<(int, int)>, f: real)
    requires Counts(blocks) && IsFactor(blocks, f)
    ensures Idle(blocks) ==> f == 0.0
    ensures !Idle(blocks) ==> f == Performance(blocks)
  {
    if blocks.Some? && blocks.value.1 != 0 {
      var (made, expected) := blocks.value;
      DivMul(made as real, expected as real);
      if made >= expected {
        DivMono(expected as real, made as real, expected as real);
        assert expected as real / expected as real == 1.0;
      } else {
        DivMono(made as real, expected as real, expected as real);
        assert expected as real / expected as real == 1.0;
        assert f == made as real / expected as real;
      }
    }
  }

  lemma AmountIs(r: real, f: real, sigma: real, s: real, z: real, a0: real)
    ensures ClearedAmount(r, f, sigma, s, z, a0) == Times(Times(r, f), Cleared(sigma, s, z, a0))
  {
    assert a0 * s * (s * (z - sigma) - sigma * z) == -(a0 * s * (sigma * z - s * (z - sigma)));
  }

  lemma RewardIsTruncated(pool: Pool, totalStake: nat, pot: int, nOpt: nat, a0: real, blocks: Option<(int, int)>, f: real)
    requires totalStake > 0 && pool.stake != 0 && nOpt >= 1 && 1.0 + a0 > 0.0 && Counts(blocks) && IsFactor(blocks, f)
    requires 1.0 / nOpt as real > 0.0
    ensures var b := Bracket(pool.stake as real / totalStake as real, pool.pledge as real / totalStake as real, 1.0 / nOpt as real, a0);
            PoolReward(pool, totalStake, pot, nOpt, a0, blocks) == Trunc(Exact(pot as real, a0, b, f))
  {
    FactorIsPerformance(blocks, f);
    hide Bracket, Performance, Times, Trunc, IsFactor;
    var b := Bracket(pool.stake as real / totalStake as real, pool.pledge as real / totalStake as real, 1.0 / nOpt as real, a0);
    if Idle(blocks) {
      NoReward(pot as real, a0, b);
    }
  }

  lemma BracketAmount(stake: int, pledge: int, total: nat, r: real, nOpt: nat, a0: real, f: real)
    requires total > 0 && nOpt >= 1 && 1.0 + a0 > 0.0 && 1.0 / nOpt as real > 0.0
    ensures var z := 1.0 / nOpt as real;
            var b := Bracket(stake as real / total as real, pledge as real / total as real, z, a0);
            Times(Exact(r, a0, b, f), Unit(z, a0)) == ClearedAmount(r, f, Capped(stake, total, nOpt), Capped(pledge, total, nOpt), z, a0)
  {
    hide Bracket, Cleared, Scaled, Exact, Unit, MinReal, Capped, ClearedAmount, Times;
    var z := 1.0 / nOpt as real;
    var sigma, s := stake as real / total as real, pledge as real / total as real;
    CappedIsMin(stake, total, nOpt);
    CappedIsMin(pledge, total, nOpt);
    BracketCleared(sigma, s, z, a0);
    ClearReward(r, a0, Bracket(sigma, s, z, a0), f, z);
    AmountIs(r, f, MinReal(sigma, z), MinReal(s, z), z, a0);
  }

  /** The reward of a pool, exactly: R f / (1 + a0) times the bracket of the formula,
      truncated toward zero. With all divisions cleared, it is
      R f (sigma z^2 + a0 s (sigma z - s (z - sigma))) over (1 + a0) z^2, for the
      capped relative stake sigma and pledge s and the saturation point z. */
  lemma PoolRewardIsExactly(pool: Pool, totalStake: nat, pot: int, nOpt: nat, a0: real, blocks: Option<(int, int)>,
                            f: real, n: int)
    requires totalStake > 0 && pool.stake != 0 && nOpt >= 1 && 1.0 + a0 > 0.0 && Counts(blocks) && IsFactor(blocks, f)
    ensures PoolReward(pool, totalStake, pot, nOpt, a0, blocks) == n <==>
            var z := 1.0 / nOpt as real;
            IsWhole(n, ClearedAmount(pot as real, f, Capped(pool.stake, totalStake, nOpt), Capped(pool.pledge, totalStake, nOpt), z, a0),
                    Unit(z, a0))
  {
    hide Bracket, Exact, Unit, ClearedAmount, Trunc, IsWhole, Capped, PoolReward, Times, IsFactor;
    var z := 1.0 / nOpt as real;
    PositivePoint(nOpt);
    UnitPositive(z, a0);
    RewardIsTruncated(pool, totalStake, pot, nOpt, a0, blocks, f);
    BracketAmount(pool.stake, pool.pledge, totalStake, pot as real, nOpt, a0, f);
    var b := Bracket(pool.stake as real / totalStake as real, pool.pledge as real / totalStake as real, z, a0);
    TruncIsWhole(n, Exact(pot as real, a0, b, f), Unit(z, a0));
  }

  lemma IsFactorRange(blocks: Option<(int, int)>, f: real)
    requires Counts(blocks) && IsFactor(blocks, f)
    ensures 0.0 <= f <= 1.0
  {
    FactorIsPerformance(blocks, f);
    if !Idle(blocks) {
      PerformanceRange(blocks);
    }
  }

  lemma FloorOfProduct(r: real, b: real, f: real)
    requires r >= 0.0 && b >= 0.0 && f >= 0.0
    ensures IsFloor(Trunc(Times(Times(r, b), f)), r * b * f)
  {
    MulNonNegative(r, b);
    MulNonNegative(r * b, f);
  }

  /** The ends of the range in plain amounts: without pledge a pool gets the floor of
      R f sigma / (1 + a0); saturated in stake and pledge, the floor of R f z. */
  lemma RewardExtremes(pool: Pool, totalStake: nat, pot: nat, nOpt: nat, a0: real, blocks: Option<(int, int)>, f: real)
    requires totalStake > 0 && pool.stake > 0 && nOpt >= 1 && a0 >= 0.0 && Counts(blocks) && IsFactor(blocks, f)
    ensures var reward := PoolReward(pool, totalStake, pot, nOpt, a0, blocks);
            && (pool.pledge == 0 ==> IsFloor(reward, pot as real / (1.0 + a0) * Capped(pool.stake, totalStake, nOpt) * f))
            && (pool.stake * nOpt >= totalStake && pool.pledge * nOpt >= totalStake ==>
                  IsFloor(reward, pot as real * (1.0 / nOpt as real) * f))
  {
    hide Bracket, Trunc, IsFactor, Capped, PoolReward, Times;
    var sigma, s, z := pool.stake as real / totalStake as real, pool.pledge as real / totalStake as real, 1.0 / nOpt as real;
    PositivePoint(nOpt);
    IsFactorRange(blocks, f);
    RewardIsTruncated(pool, totalStake, pot, nOpt, a0, blocks, f);
    BracketExtremes(sigma, s, z, a0);
    if pool.pledge == 0 {
      CappedIsMin(pool.stake, totalStake, nOpt);
      CappedNonNegative(pool.stake, totalStake, nOpt);
      DivPositive(pot as real, 1.0 + a0);
      FloorOfProduct(pot as real / (1.0 + a0), Capped(pool.stake, totalStake, nOpt), f);
    }
    if pool.stake * nOpt >= totalStake && pool.pledge * nOpt >= totalStake {
      Saturates(pool.stake, totalStake, nOpt);
      Saturates(pool.pledge, totalStake, nOpt);
      CancelRate(pot as real, a0, z);
      FloorOfProduct(pot as real, z, f);
    }
  }

  lemma CappedNonNegative(amount: nat, total: nat, nOpt: nat)
    requires total > 0 && nOpt >= 1
    ensures Capped(amount, total, nOpt) >= 0.0
  {
    PositivePoint(nOpt);
    DivPositive(amount as real, total as real);
  }

  lemma Saturates(amount: int, total: nat, nOpt: nat)
    requires total > 0 && nOpt >= 1 && amount * nOpt >= total
    ensures amount as real / total as real >= 1.0 / nOpt as real
  {
    CrossMultiply(amount, total, nOpt);
    if amount * nOpt == total {
      ProductAsReal(amount, nOpt);
      DivMul(1.0, nOpt as real);
      DivMul(amount as real, total as real);
      SameRatio(amount as real, nOpt as real, total as real);
    }
  }

  lemma SameRatio(x: real, n: real, t: real)
    requires x * n == t && t != 0.0 && n != 0.0
    ensures x / t == 1.0 / n
  {
    DivMul(x, t);
    DivMul(1.0, n);
    var v := 1.0 / n;
    assert v * t == x by {
      assert v * (x * n) == x * (v * n);
    }
    CancelFactor(x / t, v, t);
  }

  lemma CancelFactor(x: real, y: real, t: real)
    requires x * t == y * t && t != 0.0
    ensures x == y
  {}

  lemma CancelRate(r: real, a0: real, z: real)
    requires 1.0 + a0 > 0.0
    ensures Times(r / (1.0 + a0), (1.0 + a0) * z) == Times(r, z)
  {
    DivMul(r, 1.0 + a0);
    var q := r / (1.0 + a0);
    assert q * ((1.0 + a0) * z) == q * (1.0 + a0) * z;
  }

  lemma PositivePoint(nOpt: nat)
    requires nOpt >= 1
    ensures 1.0 / nOpt as real > 0.0
  {
    DivMul(1.0, nOpt as real);
    DivPositive(1.0, nOpt as real);
  }

  lemma NoReward(r: real, a0: real, b: real)
    requires 1.0 + a0 > 0.0
    ensures Trunc(Times(Times(r / (1.0 + a0), b), 0.0)) == 0
  {}

  lemma NoExcess(s: real, sigma: real, z: real)
    requires 0.0 <= s <= sigma <= z
    ensures s * (z - sigma) - sigma * z <= 0.0
  {
    var small, large, product, square := s * (z - sigma), sigma * (z - sigma), sigma * z, sigma * sigma;
    MulMono(s, sigma, z - sigma);
    MulNonNegative(sigma, sigma);
    assert large == product - square;
    assert small <= large;
  }

  lemma SmallPledge(sigma: real, s: real, z: real, a0: real)
    requires 0.0 <= s <= sigma && z > 0.0 && a0 >= 0.0
    ensures PledgeTolerable(sigma, s, z, a0)
  {
    var sigma', s' := MinReal(sigma, z), MinReal(s, z);
    NoExcess(s', sigma', z);
    MulNonNegative(a0, s');
    Opposite(a0 * s', s' * (z - sigma') - sigma' * z);
    MulNonNegative(sigma', z);
    MulNonNegative(sigma' * z, z);
  }

  /** A pool that pledged its operator's funds to a larger amount than is
      delegated to it can be given a negative reward. */
  lemma RewardsCanBeNegative()
    ensures PoolReward(Pool(10, 0, 0.0, 1), 10, 20, 1, 1.0, None) == -7
  {
    assert Bracket(0.1, 1.0, 1.0, 1.0) == -0.7;
  }

  // ----- The stake snapshot -------------------------------------------------------------

  function StakeOf(utxoStakes: map<Id, int>, cred: Id): int {
    if cred in utxoStakes then utxoStakes[cred] else 0
  }

  /** The positive stakes delegated to one pool. */
  function DelegatedTo(utxoStakes: map<Id, int>, delegations: map<Id, Id>, pool: Id): map<Id, int> {
    map cred <- delegations | delegations[cred] == pool && StakeOf(utxoStakes, cred) > 0 :: StakeOf(utxoStakes, cred)
  }

  /** The positive stakes delegated to any registered pool. */
  function Counted(utxoStakes: map<Id, int>, delegations: map<Id, Id>, pools: set<Id>): map<Id, int> {
    map cred <- delegations | delegations[cred] in pools && StakeOf(utxoStakes, cred) > 0 :: StakeOf(utxoStakes, cred)
  }

  lemma DelegatedToStep(utxoStakes: map<Id, int>, delegations: map<Id, Id>, cred: Id, pool: Id, target: Id)
    requires cred !in delegations
    ensures Sum(DelegatedTo(utxoStakes, delegations[cred := target], pool))
            == Sum(DelegatedTo(utxoStakes, delegations, pool))
               + (if pool == target && StakeOf(utxoStakes, cred) > 0 then StakeOf(utxoStakes, cred) else 0)
  {
    var before, after := DelegatedTo(utxoStakes, delegations, pool), DelegatedTo(utxoStakes, delegations[cred := target], pool);
    if pool == target && StakeOf(utxoStakes, cred) > 0 {
      assert after == before[cred := StakeOf(utxoStakes, cred)];
      SumPut(before, cred, StakeOf(utxoStakes, cred));
    } else {
      assert after == before;
    }
  }

  lemma CountedStep(utxoStakes: map<Id, int>, delegations: map<Id, Id>, pools: set<Id>, cred: Id, target: Id)
    requires cred !in delegations
    ensures Sum(Counted(utxoStakes, delegations[cred := target], pools))
            == Sum(Counted(utxoStakes, delegations, pools))
               + (if target in pools && StakeOf(utxoStakes, cred) > 0 then StakeOf(utxoStakes, cred) else 0)
  {
    var before, after := Counted(utxoStakes, delegations, pools), Counted(utxoStakes, delegations[cred := target], pools);
    if target in pools && StakeOf(utxoStakes, cred) > 0 {
      assert after == before[cred := StakeOf(utxoStakes, cred)];
      SumPut(before, cred, StakeOf(utxoStakes, cred));
    } else {
      assert after == before;
    }
  }

  /** `poolStakes` is what the delegations seen so far add up to. */
  ghost predicate Tallied(utxoStakes: map<Id, int>, seen: map<Id, Id>, pools: set<Id>, poolStakes: map<Id, int>) {
    && poolStakes.Keys == pools
    && (forall p <- pools :: poolStakes[p] == Sum(DelegatedTo(utxoStakes, seen, p)) && poolStakes[p] >= 0)
    && Sum(poolStakes) == Sum(Counted(utxoStakes, seen, pools))
  }

  /** The tally with one more delegation. */
  function Tally(utxoStakes: map<Id, int>, pools: set<Id>, poolStakes: map<Id, int>, cred: Id, pool: Id): map<Id, int> {
    if pool in pools && StakeOf(utxoStakes, cred) > 0
    then poolStakes[pool := StakeOf(poolStakes, pool) + StakeOf(utxoStakes, cred)]
    else poolStakes
  }

  lemma TallyStep(utxoStakes: map<Id, int>, seen: map<Id, Id>, pools: set<Id>, poolStakes: map<Id, int>, cred: Id, pool: Id)
    requires Tallied(utxoStakes, seen, pools, poolStakes) && cred !in seen
    ensures Tallied(utxoStakes, seen[cred := pool], pools, Tally(utxoStakes, pools, poolStakes, cred, pool))
  {
    hide DelegatedTo, Counted;
    var next := Tally(utxoStakes, pools, poolStakes, cred, pool);
    assert next.Keys == pools;
    forall p | p in pools
      ensures next[p] == Sum(DelegatedTo(utxoStakes, seen[cred := pool], p)) && next[p] >= 0
    {
      DelegatedToStep(utxoStakes, seen, cred, p, pool);
    }
    CountedStep(utxoStakes, seen, pools, cred, pool);
    if pool in pools {
      SumPut(poolStakes, pool, poolStakes[pool] + StakeOf(utxoStakes, cred));
    }
  }

  lemma SeenStep(delegations: map<Id, Id>, rest: set<Id>, cred: Id)
    requires cred in rest && rest <= delegations.Keys
    ensures cred !in delegations - rest
    ensures delegations - (rest - {cred}) == (delegations - rest)[cred := delegations[cred]]
  {}

  lemma TalliedMeans(utxoStakes: map<Id, int>, seen: map<Id, Id>, pools: set<Id>, poolStakes: map<Id, int>)
    requires Tallied(utxoStakes, seen, pools, poolStakes)
    ensures poolStakes.Keys == pools
    ensures forall p <- pools :: poolStakes[p] == Sum(DelegatedTo(utxoStakes, seen, p)) && poolStakes[p] >= 0
    ensures Sum(poolStakes) == Sum(Counted(utxoStakes, seen, pools))
  {}

  function NoStakes(pools: set<Id>): map<Id, int> {
    map p <- pools :: 0
  }

  lemma NothingTallied(utxoStakes: map<Id, int>, pools: set<Id>)
    ensures Tallied(utxoStakes, map[], pools, NoStakes(pools))
  {
    var zeros := NoStakes(pools);
    SumZeros(zeros);
    assert Counted(utxoStakes, map[], pools) == map[];
    forall p | p in pools ensures zeros[p] == Sum(DelegatedTo(utxoStakes, map[], p)) {
      assert DelegatedTo(utxoStakes, map[], p) == map[];
    }
    assert Sum(zeros) == Sum(Counted(utxoStakes, map[], pools));
  }

  /** Every registered pool gets exactly the positive stakes delegated to it, and
      the total is at once the sum over the pools and over the credentials
      counted: no stake is counted twice and none is lost. */
  method ComputeStakeDistribution(utxoStakes: map<Id, int>, delegations: map<Id, Id>, pools: set<Id>)
      returns (poolStakes: map<Id, int>, total: int)
    ensures poolStakes.Keys == pools
    ensures forall p <- pools :: poolStakes[p] == Sum(DelegatedTo(utxoStakes, delegations, p)) && poolStakes[p] >= 0
    ensures total == Sum(poolStakes) == Sum(Counted(utxoStakes, delegations, pools))
  {
    hide Tallied;
    poolStakes := NoStakes(pools);
    NothingTallied(utxoStakes, pools);
    assert delegations - delegations.Keys == map[];
    var rest := delegations.Keys;
    while rest != {}
      invariant rest <= delegations.Keys
      invariant Tallied(utxoStakes, delegations - rest, pools, poolStakes)
    {
      var cred :| cred in rest;
      var pool := delegations[cred];
      ghost var seen := delegations - rest;
      SeenStep(delegations, rest, cred);
      TallyStep(utxoStakes, seen, pools, poolStakes, cred, pool);
      if pool in pools {
        var stake := StakeOf(utxoStakes, cred);
        if stake > 0 {
          poolStakes := poolStakes[pool := StakeOf(poolStakes, pool) + stake];
        }
      }
      rest := rest - {cred};
    }
    assert delegations == delegations - rest;
    TalliedMeans(utxoStakes, delegations, pools, poolStakes);
    total := SumValues(poolStakes);
  }

  /** The stakes of the credentials that delegate to one of some pools. */
  ghost function Delegating(utxoStakes: map<Id, int>, delegations: map<Id, Id>, pools: set<Id>): map<Id, int> {
    map cred <- utxoStakes | cred in delegations && delegations[cred] in pools :: utxoStakes[cred]
  }

  /** With no stake negative, every pool has the whole stake delegated to it, and the
      total is all the stake that is delegated to any pool. */
  lemma NoStakeIsLost(utxoStakes: map<Id, int>, delegations: map<Id, Id>, pools: set<Id>)
    requires forall cred <- utxoStakes :: utxoStakes[cred] >= 0
    ensures forall p <- pools :: Sum(DelegatedTo(utxoStakes, delegations, p)) == Sum(Delegating(utxoStakes, delegations, {p}))
    ensures Sum(Counted(utxoStakes, delegations, pools)) == Sum(Delegating(utxoStakes, delegations, pools))
  {
    hide Sum;
    SumSame(Counted(utxoStakes, delegations, pools), Delegating(utxoStakes, delegations, pools), delegations.Keys);
    forall p <- pools ensures Sum(DelegatedTo(utxoStakes, delegations, p)) == Sum(Delegating(utxoStakes, delegations, {p})) {
      SumSame(DelegatedTo(utxoStakes, delegations, p), Delegating(utxoStakes, delegations, {p}), delegations.Keys);
    }
  }

  // ----- Splitting a pool's reward -----------------------------------------------------------

  /** What the operator takes first: the fixed cost, at most the whole reward,
      and the margin of the rest. */
  function Cost(pool: Pool, reward: int): real {
    MinReal(pool.cost as real, reward as real)
  }

  function MarginCut(pool: Pool, reward: int): real {
    (reward as real - Cost(pool, reward)) * pool.margin
  }

  /** What is left for the delegators. */
  function AfterMargin(pool: Pool, reward: int): real {
    reward as real - Cost(pool, reward) - MarginCut(pool, reward)
  }

  function Portion(amount: real, stake: int, poolStake: int): real
    requires poolStake != 0
  {
    amount * (stake as real / poolStake as real)
  }

  function Share(amount: real, stake: int, poolStake: int): int
    requires poolStake != 0
  {
    Trunc(Portion(amount, stake, poolStake))
  }

  /** The delegators' shares; a share that truncates to nothing is not listed. */
  function Shares(amount: real, poolStake: int, delegators: map<Id, int>): map<Id, int>
    requires poolStake != 0
  {
    map cred <- delegators |
      delegators[cred] > 0 && poolStake > 0 && Share(amount, delegators[cred], poolStake) > 0
      :: Share(amount, delegators[cred], poolStake)
  }

  function OperatorShare(pool: Pool, reward: int): int
    requires pool.stake != 0
  {
    var proportional :=
      if pool.stake > 0 then Portion(AfterMargin(pool, reward), pool.pledge, pool.stake) else 0.0;
    Trunc(Cost(pool, reward) + MarginCut(pool, reward) + proportional)
  }

  /** The final clamp: the operator gives up what exceeds the reward, and if even
      that is not enough nobody is paid. */
  function Clamp(reward: int, operator: int, members: map<Id, int>, total: int): Split {
    if operator + total <= reward then Split(operator, members)
    else if reward - total < 0 then Split(0, map[])
    else Split(reward - total, members)
  }

  ghost function SplitOf(pool: Pool, reward: int, delegators: map<Id, int>): Split {
    if reward == 0 || pool.stake == 0 then Split(0, map[])
    else
      var members := Shares(AfterMargin(pool, reward), pool.stake, delegators);
      Clamp(reward, OperatorShare(pool, reward), members, Sum(members))
  }

  ghost function Distributed(split: Split): int {
    split.operator + Sum(split.members)
  }

  lemma SharesStep(amount: real, poolStake: int, delegators: map<Id, int>, rest: set<Id>, cred: Id)
    requires poolStake != 0 && cred in rest && rest <= delegators.Keys
    ensures var stake := delegators[cred];
            var before := Shares(amount, poolStake, delegators - rest);
            Shares(amount, poolStake, delegators - (rest - {cred}))
            == if stake > 0 && poolStake > 0 && Share(amount, stake, poolStake) > 0
               then before[cred := Share(amount, stake, poolStake)] else before
  {
    hide Share;
  }

  method MemberRewards(pool: Pool, reward: int, delegators: map<Id, int>) returns (split: Split)
    ensures split == SplitOf(pool, reward, delegators)
  {
    hide Shares, OperatorShare, AfterMargin, Share;
    if reward == 0 || pool.stake == 0 {
      return Split(0, map[]);
    }
    var afterMargin := AfterMargin(pool, reward);
    var operator := OperatorShare(pool, reward);
    var members: map<Id, int> := map[];
    var rest := delegators.Keys;
    NoShares(afterMargin, pool.stake);
    assert delegators - rest == map[];
    while rest != {}
      invariant rest <= delegators.Keys
      invariant members == Shares(afterMargin, pool.stake, delegators - rest)
    {
      var cred :| cred in rest;
      var stake := delegators[cred];
      SharesStep(afterMargin, pool.stake, delegators, rest, cred);
      if stake > 0 && pool.stake > 0 {
        var share := Share(afterMargin, stake, pool.stake);
        if share > 0 {
          members := members[cred := share];
        }
      }
      rest := rest - {cred};
    }
    assert delegators - rest == delegators;
    var total := SumValues(members);
    if operator + total > reward {
      operator := reward - total;
      if operator < 0 {
        operator := 0;
        members := map[];
      }
    }
    split := Split(operator, members);
  }

  lemma NoShares(amount: real, poolStake: int)
    requires poolStake != 0
    ensures Shares(amount, poolStake, map[]) == map[]
  {}

  /** However the pool is configured and whoever delegates to it, no more is
      handed out than the pool's reward, and nothing at all of a negative one. */
  lemma SplitNeverExceeds(pool: Pool, reward: int, delegators: map<Id, int>)
    ensures Distributed(SplitOf(pool, reward, delegators)) <= if reward >= 0 then reward else 0
  {
    hide Shares, OperatorShare, AfterMargin;
  }

  /** The operator and the members get what they were allotted, the pledge-based
      share included, exactly when the allotments fit into the reward. */
  lemma SharesAreKeptExactly(pool: Pool, reward: int, delegators: map<Id, int>)
    requires reward != 0 && pool.stake != 0 && (reward > 0 || pool.cost >= 0)
    ensures var split, members := SplitOf(pool, reward, delegators), Shares(AfterMargin(pool, reward), pool.stake, delegators);
            split.operator == OperatorShare(pool, reward) && split.members == members
            <==> OperatorShare(pool, reward) + Sum(members) <= reward
  {
    if reward > 0 {
      hide Shares, OperatorShare, AfterMargin;
      assert Sum<Id>(map[]) == 0;
    } else {
      CostTakesAll(pool, reward, delegators);
    }
  }

  /** A negative reward all goes into the cost. */
  lemma CostTakesAll(pool: Pool, reward: int, delegators: map<Id, int>)
    requires reward < 0 && pool.stake != 0 && pool.cost >= 0
    ensures OperatorShare(pool, reward) == reward && Shares(AfterMargin(pool, reward), pool.stake, delegators) == map[]
  {
    assert Cost(pool, reward) == reward as real && MarginCut(pool, reward) == 0.0 && AfterMargin(pool, reward) == 0.0;
    forall stake: int ensures Share(0.0, stake, pool.stake) == 0 && Portion(0.0, stake, pool.stake) == 0.0 {}
  }

  /** A pool all of whose stake is its operator's pledge, counted by the snapshot:
      the operator's share is the whole reward, and the clamp takes it all back. */
  lemma PledgeShareCanBeLost()
    ensures var delegators := DelegatedTo(map[1 := 10], map[1 := 7], 7);
            var pool := Pool(10, 0, 0.0, 10);
            && Sum(delegators) == pool.stake && OperatorShare(pool, 10) == 10
            && SplitOf(pool, 10, delegators) == Split(0, map[1 := 10])
  {
    var delegators := DelegatedTo(map[1 := 10], map[1 := 7], 7);
    assert delegators == map[1 := 10];
    SumPut(map[], 1, 10);
    assert map[][1 := 10] == delegators && Sum<Id>(map[]) == 0;
    var pool := Pool(10, 0, 0.0, 10);
    assert AfterMargin(pool, 10) == 10.0 && Share(10.0, 10, 10) == 10;
    assert Shares(10.0, 10, delegators) == delegators;
  }

  function Positive(delegators: map<Id, int>): map<Id, int> {
    map cred <- delegators | delegators[cred] > 0 :: delegators[cred]
  }

  lemma PositiveRemove(delegators: map<Id, int>, cred: Id)
    requires cred in delegators
    ensures Sum(Positive(delegators))
            == Sum(Positive(delegators - {cred})) + (if delegators[cred] > 0 then delegators[cred] else 0)
  {
    if delegators[cred] > 0 {
      SumRemove(Positive(delegators), cred);
      assert Positive(delegators) - {cred} == Positive(delegators - {cred});
    } else {
      assert Positive(delegators) == Positive(delegators - {cred});
    }
  }

  lemma SharesRemove(amount: real, poolStake: int, delegators: map<Id, int>, cred: Id)
    requires poolStake > 0 && cred in delegators
    ensures var share := Share(amount, delegators[cred], poolStake);
            Sum(Shares(amount, poolStake, delegators))
            == Sum(Shares(amount, poolStake, delegators - {cred}))
               + (if delegators[cred] > 0 && share > 0 then share else 0)
  {
    hide Share;
    if delegators[cred] > 0 && Share(amount, delegators[cred], poolStake) > 0 {
      SumRemove(Shares(amount, poolStake, delegators), cred);
      assert Shares(amount, poolStake, delegators) - {cred} == Shares(amount, poolStake, delegators - {cred});
    } else {
      assert Shares(amount, poolStake, delegators) == Shares(amount, poolStake, delegators - {cred});
    }
  }

  lemma PortionAdds(amount: real, a: int, b: int, whole: int)
    requires whole > 0
    ensures Portion(amount, a + b, whole) == Portion(amount, a, whole) + Portion(amount, b, whole)
  {
    var w := whole as real;
    assert (a + b) as real / w == a as real / w + b as real / w;
  }

  lemma PortionNonNegative(amount: real, stake: int, whole: int)
    requires amount >= 0.0 && stake >= 0 && whole > 0
    ensures Portion(amount, stake, whole) >= 0.0
  {
    DivPositive(stake as real, whole as real);
    MulNonNegative(amount, stake as real / whole as real);
  }

  lemma PortionOfAll(amount: real, whole: int)
    requires whole > 0
    ensures Portion(amount, whole, whole) == amount && Portion(amount, 0, whole) == 0.0
  {
    assert whole as real / whole as real == 1.0;
  }

  /** Truncating every share loses less than one for each delegator. */
  lemma {:induction false} SharesSum(amount: real, poolStake: int, delegators: map<Id, int>)
    requires amount >= 0.0 && poolStake > 0
    ensures Portion(amount, Sum(Positive(delegators)), poolStake) - |delegators| as real
            <= Sum(Shares(amount, poolStake, delegators)) as real
            <= Portion(amount, Sum(Positive(delegators)), poolStake)
    decreases delegators
  {
    hide Portion, Share, Shares, Positive;
    if delegators == map[] {
      NothingShared(amount, poolStake);
    } else {
      var cred :| cred in delegators;
      var rest := delegators - {cred};
      assert delegators.Keys == rest.Keys + {cred} && |delegators| == |rest| + 1;
      SharesSum(amount, poolStake, rest);
      var stake := if delegators[cred] > 0 then delegators[cred] else 0;
      PositiveRemove(delegators, cred);
      SharesRemove(amount, poolStake, delegators, cred);
      PortionAdds(amount, Sum(Positive(rest)), stake, poolStake);
      ShareBounds(amount, stake, poolStake);
    }
  }

  lemma NothingShared(amount: real, poolStake: int)
    requires poolStake > 0
    ensures Sum(Positive(map[])) == 0 == Sum(Shares(amount, poolStake, map[]))
    ensures Portion(amount, 0, poolStake) == 0.0
  {
    assert Positive(map[]) == map[] && Shares(amount, poolStake, map[]) == map[];
    PortionOfAll(amount, poolStake);
  }

  lemma ShareBounds(amount: real, stake: int, poolStake: int)
    requires amount >= 0.0 && stake >= 0 && poolStake > 0
    ensures Portion(amount, stake, poolStake) - 1.0 < Share(amount, stake, poolStake) as real
            <= Portion(amount, stake, poolStake)
    ensures 0 <= Share(amount, stake, poolStake) && (stake == 0 ==> Share(amount, stake, poolStake) == 0)
  {
    hide Portion;
    PortionNonNegative(amount, stake, poolStake);
    PortionOfAll(amount, poolStake);
    TruncBounds(Portion(amount, stake, poolStake));
  }

  lemma CutsAddUp(pool: Pool, reward: int)
    requires reward > 0 && pool.cost >= 0 && 0.0 <= pool.margin <= 1.0
    ensures 0.0 <= Cost(pool, reward) + MarginCut(pool, reward)
    ensures AfterMargin(pool, reward) >= 0.0
    ensures Cost(pool, reward) + MarginCut(pool, reward) + AfterMargin(pool, reward) == reward as real
  {
    MulNonNegative(reward as real - Cost(pool, reward), pool.margin);
    MulAtMost(reward as real - Cost(pool, reward), pool.margin);
  }

  /** When the listed stakes make up the pool's stake, nobody is wiped out, all
      but a rounding error of less than one per delegator is handed out, and the
      operator ends up with the cost and margin cut - and no more than a rounding
      error above it: the clamp takes the pledge-based share back. */
  lemma SplitBounds(pool: Pool, reward: int, delegators: map<Id, int>)
    requires reward > 0 && pool.stake > 0 && pool.cost >= 0 && pool.pledge >= 0 && 0.0 <= pool.margin <= 1.0
    requires Sum(Positive(delegators)) == pool.stake
    ensures var split, cut := SplitOf(pool, reward, delegators), Cost(pool, reward) + MarginCut(pool, reward);
            && split.members == Shares(AfterMargin(pool, reward), pool.stake, delegators)
            && Trunc(cut) <= split.operator <= Trunc(cut) + |delegators|
            && reward - |delegators| <= Distributed(split) <= reward
  {
    hide Portion, Shares, Share, AfterMargin, Cost, MarginCut, Positive;
    var after, cut := AfterMargin(pool, reward), Cost(pool, reward) + MarginCut(pool, reward);
    CutsAddUp(pool, reward);
    SharesSum(after, pool.stake, delegators);
    PortionOfAll(after, pool.stake);
    PortionNonNegative(after, pool.pledge, pool.stake);
    Settle(reward, cut, after, Portion(after, pool.pledge, pool.stake),
           Shares(after, pool.stake, delegators), |delegators|);
  }

  lemma Settle(reward: int, cut: real, after: real, proportional: real, members: map<Id, int>, n: nat)
    requires cut >= 0.0 && after >= 0.0 && proportional >= 0.0 && cut + after == reward as real
    requires after - n as real <= Sum(members) as real <= after
    ensures var split := Clamp(reward, Trunc(cut + proportional), members, Sum(members));
            && split.members == members
            && Trunc(cut) <= split.operator <= Trunc(cut) + n
            && reward - n <= Distributed(split) <= reward
  {}

  // ----- The split in the pool's own terms ---------------------------------------------------

  /** A delegator's part of an amount. */
  ghost function Part(amount: real, stake: int, poolStake: int): real
    requires poolStake != 0
  {
    amount * (stake as real / poolStake as real)
  }

  /** The margin of what the cost leaves over, and the rest of it. */
  ghost function MarginOfRest(pool: Pool, reward: int): real {
    (reward - pool.cost) as real * pool.margin
  }

  ghost function RestOfRest(pool: Pool, reward: int): real {
    (reward - pool.cost) as real * (1.0 - pool.margin)
  }

  /** One delegator's line: listed if the part is at least one, with the floor of it. */
  ghost predicate IsShareOf(shares: map<Id, int>, cred: Id, stake: int, part: real) {
    && (cred in shares <==> stake > 0 && part >= 1.0)
    && (cred in shares ==> IsFloor(shares[cred], part))
  }

  ghost predicate AreShares(shares: map<Id, int>, delegators: map<Id, int>, amount: real, poolStake: int)
    requires poolStake != 0
  {
    && shares.Keys <= delegators.Keys
    && forall cred <- delegators :: IsShareOf(shares, cred, delegators[cred], Part(amount, delegators[cred], poolStake))
  }

  lemma FloorIsUnique(n: int, m: int, x: real)
    requires IsFloor(n, x) && IsFloor(m, x)
    ensures n == m
  {}

  lemma TruncIsFloor(x: real)
    requires x >= 0.0
    ensures IsFloor(Trunc(x), x) && (Trunc(x) > 0 <==> x >= 1.0)
  {}

  lemma ShareIsShare(amount: real, poolStake: int, delegators: map<Id, int>, cred: Id)
    requires amount >= 0.0 && poolStake > 0 && cred in delegators
    ensures IsShareOf(Shares(amount, poolStake, delegators), cred, delegators[cred], Part(amount, delegators[cred], poolStake))
  {
    var stake := delegators[cred];
    assert Part(amount, stake, poolStake) == Portion(amount, stake, poolStake);
    if stake > 0 {
      PortionNonNegative(amount, stake, poolStake);
      TruncIsFloor(Portion(amount, stake, poolStake));
    }
    hide Trunc, Portion, Part, IsFloor;
  }

  lemma SharesAreShares(amount: real, poolStake: int, delegators: map<Id, int>)
    requires amount >= 0.0 && poolStake > 0
    ensures AreShares(Shares(amount, poolStake, delegators), delegators, amount, poolStake)
  {
    hide IsShareOf, Part, Share;
    forall cred <- delegators
      ensures IsShareOf(Shares(amount, poolStake, delegators), cred, delegators[cred], Part(amount, delegators[cred], poolStake))
    {
      ShareIsShare(amount, poolStake, delegators, cred);
    }
  }

  lemma OneListOfShares(a: map<Id, int>, b: map<Id, int>, delegators: map<Id, int>, amount: real, poolStake: int)
    requires poolStake != 0 && AreShares(a, delegators, amount, poolStake) && AreShares(b, delegators, amount, poolStake)
    ensures a == b
  {
    hide Part, IsFloor;
    forall cred | cred in a ensures cred in b && a[cred] == b[cred] {
      FloorIsUnique(a[cred], b[cred], Part(amount, delegators[cred], poolStake));
    }
    forall cred | cred in b ensures cred in a {
      assert IsShareOf(a, cred, delegators[cred], Part(amount, delegators[cred], poolStake));
    }
  }

  /** The cost is covered. */
  lemma CutsOf(pool: Pool, reward: int)
    requires reward > pool.cost >= 0 && 0.0 <= pool.margin <= 1.0
    ensures Cost(pool, reward) == pool.cost as real
    ensures MarginCut(pool, reward) == MarginOfRest(pool, reward) >= 0.0
    ensures AfterMargin(pool, reward) == RestOfRest(pool, reward) >= 0.0
  {
    var rest := (reward - pool.cost) as real;
    MulNonNegative(rest, pool.margin);
    MulNonNegative(rest, 1.0 - pool.margin);
    assert rest * (1.0 - pool.margin) == rest - rest * pool.margin;
  }

  /** The cost takes the whole reward. */
  lemma CostTakesReward(pool: Pool, reward: int, delegators: map<Id, int>)
    requires reward <= pool.cost && pool.stake > 0
    ensures SplitOf(pool, reward, delegators) == Split(reward, map[])
  {
    assert Cost(pool, reward) == reward as real && MarginCut(pool, reward) == 0.0 && AfterMargin(pool, reward) == 0.0;
    forall stake: int ensures Share(0.0, stake, pool.stake) == 0 && Portion(0.0, stake, pool.stake) == 0.0 {}
    assert Shares(0.0, pool.stake, delegators) == map[];
    assert Sum<Id>(map[]) == 0;
  }

  /** What the operator is allotted before the clamp. */
  ghost function Allotment(pool: Pool, reward: int): real
    requires pool.stake != 0
  {
    pool.cost as real + MarginOfRest(pool, reward) + Part(RestOfRest(pool, reward), pool.pledge, pool.stake)
  }

  lemma OperatorIs(pool: Pool, reward: int, operator: int)
    requires reward > pool.cost >= 0 && 0.0 <= pool.margin <= 1.0 && pool.stake > 0 && pool.pledge >= 0
    requires IsFloor(operator, Allotment(pool, reward))
    ensures operator == OperatorShare(pool, reward)
  {
    CutsOf(pool, reward);
    PortionNonNegative(AfterMargin(pool, reward), pool.pledge, pool.stake);
    assert Part(AfterMargin(pool, reward), pool.pledge, pool.stake) == Portion(AfterMargin(pool, reward), pool.pledge, pool.stake);
    hide Cost, MarginCut, AfterMargin, MarginOfRest, RestOfRest, Portion, Part, Trunc, IsFloor;
    TruncIsFloor(Allotment(pool, reward));
    FloorIsUnique(operator, Trunc(Allotment(pool, reward)), Allotment(pool, reward));
  }

  /** The split of a reward, exactly, in the pool's parameters.  A cost of at least the
      reward, which may be negative, takes all of it.  Otherwise the operator is allotted the floor of the cost,
      the margin of the rest, and the pledge's part of what remains; the delegators the
      floors of their parts of what remains.  If that is too much, the operator gives
      way, and if that is not enough nobody is paid. */
  lemma SplitIsExactly(pool: Pool, reward: int, delegators: map<Id, int>, operator: int, shares: map<Id, int>)
    requires pool.stake > 0 && pool.cost >= 0 && pool.pledge >= 0 && 0.0 <= pool.margin <= 1.0
    requires reward > pool.cost ==>
               && IsFloor(operator, Allotment(pool, reward))
               && AreShares(shares, delegators, RestOfRest(pool, reward), pool.stake)
    ensures SplitOf(pool, reward, delegators) ==
            if reward <= pool.cost then Split(reward, map[])
            else if operator + Sum(shares) <= reward then Split(operator, shares)
            else if Sum(shares) <= reward then Split(reward - Sum(shares), shares)
            else Split(0, map[])
  {
    hide SplitOf, Shares, AreShares, Allotment, IsFloor, OperatorShare, AfterMargin, RestOfRest;
    if reward <= pool.cost {
      CostTakesReward(pool, reward, delegators);
    } else {
      OperatorIs(pool, reward, operator);
      CutsOf(pool, reward);
      SharesAreShares(RestOfRest(pool, reward), pool.stake, delegators);
      OneListOfShares(shares, Shares(RestOfRest(pool, reward), pool.stake, delegators), delegators, RestOfRest(pool, reward), pool.stake);
      SplitMeans(pool, reward, delegators);
    }
  }

  lemma SplitMeans(pool: Pool, reward: int, delegators: map<Id, int>)
    requires reward != 0 && pool.stake != 0
    ensures var members := Shares(AfterMargin(pool, reward), pool.stake, delegators);
            SplitOf(pool, reward, delegators) == Clamp(reward, OperatorShare(pool, reward), members, Sum(members))
  {}

  /** When the listed stakes make up the pool's: the operator of a pool whose cost is
      covered gets the floor of cost and margin, and at most one more for each
      delegator, who get the floors of their parts of the rest. */
  lemma SplitAmounts(pool: Pool, reward: int, delegators: map<Id, int>, cut: int)
    requires reward > pool.cost && pool.stake > 0 && pool.cost >= 0 && pool.pledge >= 0 && 0.0 <= pool.margin <= 1.0
    requires Sum(Positive(delegators)) == pool.stake && IsFloor(cut, pool.cost as real + MarginOfRest(pool, reward))
    ensures var split := SplitOf(pool, reward, delegators);
            && cut <= split.operator <= cut + |delegators|
            && AreShares(split.members, delegators, RestOfRest(pool, reward), pool.stake)
  {
    hide *;
    CutsOf(pool, reward);
    SplitBounds(pool, reward, delegators);
    SharesAreShares(AfterMargin(pool, reward), pool.stake, delegators);
    var x := pool.cost as real + MarginOfRest(pool, reward);
    TruncIsFloor(x);
    FloorIsUnique(cut, Trunc(x), x);
  }

  // ----- The epoch's rewards -------------------------------------------------------------------

  datatype Params = Params(pledge: int, cost: int, margin: real)

  datatype RewardSettings = RewardSettings(nOpt: int, a0: real) {
    /** The parameters divide by neither zero. */
    predicate Usable() { nOpt != 0 && 1.0 + a0 != 0.0 }
  }

  function PoolOf(params: Params, stake: int): Pool {
    Pool(params.pledge, params.cost, params.margin, stake)
  }

  function DelegatorsOf(delegators: map<Id, map<Id, int>>, pool: Id): map<Id, int> {
    if pool in delegators then delegators[pool] else map[]
  }

  ghost function PoolSplit(params: Params, stake: int, total: int, pot: int, settings: RewardSettings,
                           delegators: map<Id, int>): Split
    requires settings.Usable()
  {
    var pool := PoolOf(params, stake);
    SplitOf(pool, PoolReward(pool, total, pot, settings.nOpt, settings.a0, None), delegators)
  }

  /** The results of all pools with stake, by pool. */
  ghost function Results(poolStakes: map<Id, int>, total: int, registrations: map<Id, Params>, pot: int,
                         settings: RewardSettings, delegators: map<Id, map<Id, int>>): map<Id, Split>
    requires settings.Usable()
  {
    map p <- poolStakes | poolStakes[p] != 0 && p in registrations
      :: PoolSplit(registrations[p], poolStakes[p], total, pot, settings, DelegatorsOf(delegators, p))
  }

  ghost function Payouts(results: map<Id, Split>): map<Id, int> {
    map p <- results :: Distributed(results[p])
  }

  lemma ResultsStep(poolStakes: map<Id, int>, total: int, registrations: map<Id, Params>, pot: int,
                    settings: RewardSettings, delegators: map<Id, map<Id, int>>, rest: set<Id>, p: Id)
    requires settings.Usable() && p in rest && rest <= poolStakes.Keys
    ensures var before := Results(poolStakes - rest, total, registrations, pot, settings, delegators);
            p !in before
            && Results(poolStakes - (rest - {p}), total, registrations, pot, settings, delegators)
               == if poolStakes[p] != 0 && p in registrations
                  then before[p := PoolSplit(registrations[p], poolStakes[p], total, pot, settings, DelegatorsOf(delegators, p))]
                  else before
  {
    hide PoolSplit, DelegatorsOf;
  }

  lemma PayoutsPut(results: map<Id, Split>, p: Id, split: Split)
    requires p !in results
    ensures Sum(Payouts(results[p := split])) == Sum(Payouts(results)) + Distributed(split)
  {
    hide Distributed;
    SumPut(Payouts(results), p, Distributed(split));
    assert Payouts(results[p := split]) == Payouts(results)[p := Distributed(split)];
  }

  lemma NoResults(total: int, registrations: map<Id, Params>, pot: int, settings: RewardSettings,
                  delegators: map<Id, map<Id, int>>)
    requires settings.Usable()
    ensures Results(map[], total, registrations, pot, settings, delegators) == map[] && Sum(Payouts(map[])) == 0
  {
    assert Payouts(map[]) == map[];
  }

  method DistributeRewards(poolStakes: map<Id, int>, total: int, registrations: map<Id, Params>, pot: int,
                           settings: RewardSettings, delegators: map<Id, map<Id, int>>)
      returns (results: map<Id, Split>, distributed: int)
    requires settings.Usable()
    ensures results == Results(poolStakes, total, registrations, pot, settings, delegators)
    ensures distributed == Sum(Payouts(results))
  {
    hide Results, Payouts, SplitOf, PoolReward;
    results, distributed := map[], 0;
    NoResults(total, registrations, pot, settings, delegators);
    assert poolStakes - poolStakes.Keys == map[];
    var rest := poolStakes.Keys;
    while rest != {}
      invariant rest <= poolStakes.Keys
      invariant results == Results(poolStakes - rest, total, registrations, pot, settings, delegators)
      invariant distributed == Sum(Payouts(results))
    {
      var p :| p in rest;
      ResultsStep(poolStakes, total, registrations, pot, settings, delegators, rest, p);
      rest := rest - {p};
      if poolStakes[p] == 0 || p !in registrations {
        continue;
      }
      var pool := PoolOf(registrations[p], poolStakes[p]);
      var reward := PoolReward(pool, total, pot, settings.nOpt, settings.a0, None);
      var split := MemberRewards(pool, reward, DelegatorsOf(delegators, p));
      PayoutsPut(results, p, split);
      results := results[p := split];
      var members := SumValues(split.members);
      distributed := distributed + (split.operator + members);
    }
    assert poolStakes - rest == poolStakes;
  }

  lemma AddScaled(x: int, rest: int, y: int, more: int, total: int, pot: int)
    requires x * total <= pot * y && rest * total <= pot * more
    ensures (x + rest) * total <= pot * (y + more)
  {
    assert (x + rest) * total == x * total + rest * total;
    assert pot * (y + more) == pot * y + pot * more;
  }

  /** If every payout is at most its stake's share, so is the sum. */
  lemma {:induction false} SumScaled(payouts: map<Id, int>, stakes: map<Id, int>, total: int, pot: int)
    requires payouts.Keys <= stakes.Keys
    requires forall p <- stakes :: (if p in payouts then payouts[p] else 0) * total <= pot * stakes[p]
    ensures Sum(payouts) * total <= pot * Sum(stakes)
    decreases stakes
  {
    if stakes == map[] {
      assert payouts == map[];
    } else {
      var p :| p in stakes;
      var payout := if p in payouts then payouts[p] else 0;
      SumRemove(stakes, p);
      if p in payouts {
        SumRemove(payouts, p);
      } else {
        assert payouts - {p} == payouts;
      }
      SumScaled(payouts - {p}, stakes - {p}, total, pot);
      AddScaled(payout, Sum(payouts - {p}), stakes[p], Sum(stakes - {p}), total, pot);
    }
  }

  lemma MoreCostsMore(paid: int, total: nat, pot: int)
    requires paid > pot && total > 0
    ensures paid * total > pot * total
  {
    NatMulNonNegative(paid - pot - 1, total);
    assert (paid - pot - 1) * total == paid * total - pot * total - total;
  }

  lemma Bounded(paid: int, total: nat, pot: int)
    requires paid * total <= pot * total && total > 0
    ensures paid <= pot
  {
    if paid > pot {
      MoreCostsMore(paid, total, pot);
    }
  }

  lemma ScaledAtMost(paid: int, reward: int, total: nat, cap: int)
    requires paid <= (if reward >= 0 then reward else 0) && reward * total <= cap && cap >= 0
    ensures paid * total <= cap
  {
    if paid > 0 {
      assert paid * total <= reward * total;
    }
  }

  /** No pool's split costs the pot more than the pool's share of it. */
  lemma PoolPayout(params: Params, stake: nat, total: nat, pot: nat, settings: RewardSettings, delegators: map<Id, int>)
    requires params.pledge >= 0 && settings.nOpt >= 1 && settings.a0 >= 0.0
    ensures Distributed(PoolSplit(params, stake, total, pot, settings, delegators)) * total <= pot * stake
  {
    hide SplitOf, PoolReward, Distributed;
    var pool := PoolOf(params, stake);
    var reward := PoolReward(pool, total, pot, settings.nOpt, settings.a0, None);
    PoolRewardBound(pool, total, pot, settings.nOpt, settings.a0, None);
    SplitNeverExceeds(pool, reward, delegators);
    NatMulNonNegative(pot, stake);
    ScaledAtMost(Distributed(SplitOf(pool, reward, delegators)), reward, total, pot * stake);
  }

  lemma {:induction false} PositiveSum(m: map<Id, int>, p: Id)
    requires p in m && (forall q <- m :: m[q] >= 0) && m[p] != 0
    ensures Sum(m) > 0
  {
    SumRemove(m, p);
    SumNonNegative(m - {p});
  }

  /** All pools together are never paid more than the rewards pot. */
  lemma RewardsNeverExceedThePot(poolStakes: map<Id, int>, registrations: map<Id, Params>, pot: int,
                                 settings: RewardSettings, delegators: map<Id, map<Id, int>>)
    requires forall p <- poolStakes :: poolStakes[p] >= 0
    requires forall p <- registrations :: registrations[p].pledge >= 0
    requires pot >= 0 && settings.nOpt >= 1 && settings.a0 >= 0.0
    ensures Sum(Payouts(Results(poolStakes, Sum(poolStakes), registrations, pot, settings, delegators))) <= pot
  {
    hide PoolSplit, Distributed;
    var total := Sum(poolStakes);
    var results := Results(poolStakes, total, registrations, pot, settings, delegators);
    var payouts := Payouts(results);
    if total == 0 {
      forall p <- poolStakes ensures poolStakes[p] == 0 {
        if poolStakes[p] != 0 {
          PositiveSum(poolStakes, p);
        }
      }
      assert payouts == map[];
    } else {
      SumNonNegative(poolStakes);
      forall p <- poolStakes ensures (if p in payouts then payouts[p] else 0) * total <= pot * poolStakes[p] {
        NatMulNonNegative(pot, poolStakes[p]);
        if p in payouts {
          PoolPayout(registrations[p], poolStakes[p], total, pot, settings, DelegatorsOf(delegators, p));
        }
      }
      SumScaled(payouts, poolStakes, total, pot);
      Bounded(Sum(payouts), total, pot);
    }
  }

  /** A pool whose delegators are those that the snapshot counted pays out its
      whole reward, up to less than one for each of them. */
  lemma SnapshotPoolsPayOut(utxoStakes: map<Id, int>, delegations: map<Id, Id>, pool: Id, params: Params,
                            total: int, pot: int, settings: RewardSettings)
    requires settings.Usable() && params.cost >= 0 && params.pledge >= 0 && 0.0 <= params.margin <= 1.0
    ensures var delegators := DelegatedTo(utxoStakes, delegations, pool);
            var stake := Sum(delegators);
            var reward := PoolReward(PoolOf(params, stake), total, pot, settings.nOpt, settings.a0, None);
            reward > 0 ==>
              reward - |delegators| <= Distributed(PoolSplit(params, stake, total, pot, settings, delegators)) <= reward
  {
    var delegators := DelegatedTo(utxoStakes, delegations, pool);
    assert Positive(delegators) == delegators;
    SumNonNegative(delegators);
    hide DelegatedTo, FullReward, SplitOf, Distributed, Cost, MarginCut, Shares, Discount;
    var p := PoolOf(params, Sum(delegators));
    var reward := PoolReward(p, total, pot, settings.nOpt, settings.a0, None);
    if reward > 0 {
      SplitBounds(p, reward, delegators);
    }
  }

  lemma ResultsAre(poolStakes: map<Id, int>, total: int, registrations: map<Id, Params>, pot: int,
                   settings: RewardSettings, delegators: map<Id, map<Id, int>>)
    requires settings.Usable()
    ensures var results := Results(poolStakes, total, registrations, pot, settings, delegators);
            && (forall p :: p in results <==> p in poolStakes && p in registrations && poolStakes[p] != 0)
            && forall p <- results ::
                 var r := registrations[p];
                 var pool := Pool(r.pledge, r.cost, r.margin, poolStakes[p]);
                 results[p] == SplitOf(pool, PoolReward(pool, total, pot, settings.nOpt, settings.a0, None),
                                       if p in delegators then delegators[p] else map[])
  {
    hide SplitOf, PoolReward;
  }

  /** Snapshot, pot and distribution at an epoch boundary. What is distributed
      never exceeds the rewards pot, as the result type's documentation asks. */
  method ProcessEpochRewards(utxoStakes: map<Id, int>, delegations: map<Id, Id>, registrations: map<Id, Params>,
                             delegators: map<Id, map<Id, int>>, reserves: int, rho: real, tau: real, fees: int,
                             settings: RewardSettings)
      returns (poolStakes: map<Id, int>, pot: RewardPot, results: map<Id, Split>, distributed: int)
    requires settings.Usable()
    ensures poolStakes.Keys == registrations.Keys
    ensures forall p <- poolStakes :: poolStakes[p] == Sum(DelegatedTo(utxoStakes, delegations, p))
    ensures pot == TotalRewardPot(reserves, rho, tau, fees)
    ensures results == Results(poolStakes, Sum(poolStakes), registrations, pot.rewardsPot, settings, delegators)
    ensures distributed == Sum(Payouts(results))
    ensures forall p :: p in results <==> p in registrations && poolStakes[p] != 0
    ensures forall p <- results ::
              var r := registrations[p];
              var pool := Pool(r.pledge, r.cost, r.margin, poolStakes[p]);
              results[p] == SplitOf(pool, PoolReward(pool, Sum(poolStakes), pot.rewardsPot, settings.nOpt, settings.a0, None),
                                    if p in delegators then delegators[p] else map[])
    ensures reserves >= 0 && fees >= 0 && 0.0 <= rho <= 1.0 && 0.0 <= tau <= 1.0
            && settings.nOpt >= 1 && settings.a0 >= 0.0 && (forall p <- registrations :: registrations[p].pledge >= 0)
            ==> distributed <= pot.rewardsPot
  {
    hide Results, Payouts, TotalRewardPot, DelegatedTo, Counted;
    var total: int;
    poolStakes, total := ComputeStakeDistribution(utxoStakes, delegations, registrations.Keys);
    pot := TotalRewardPot(reserves, rho, tau, fees);
    results, distributed := DistributeRewards(poolStakes, total, registrations, pot.rewardsPot, settings, delegators);
    ResultsAre(poolStakes, total, registrations, pot.rewardsPot, settings, delegators);
    if reserves >= 0 && fees >= 0 && 0.0 <= rho <= 1.0 && 0.0 <= tau <= 1.0
       && settings.nOpt >= 1 && settings.a0 >= 0.0 && (forall p <- registrations :: registrations[p].pledge >= 0) {
      PotIsSplitWithoutLoss(reserves, rho, tau, fees);
      RewardsNeverExceedThePot(poolStakes, registrations, pot.rewardsPot, settings, delegators);
    }
  }
}
