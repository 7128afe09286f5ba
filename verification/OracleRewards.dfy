/** The reward estimates of an oracle voting: who gets which part of the contract's balance. */
module OracleRewards {
  import opened GoInts
  import opened Options

  // ---------------------------------------------------------------- decimal arithmetic

  /** decimal.DivisionPrecision is 16 digits. */
  const SCALE: real := 10_000_000_000_000_000.0

  function Ceil(x: real): int {
    -((-x).Floor)
  }

  function RoundHalfAway(y: real): int {
    if y >= 0.0 then (y + 0.5).Floor else -((-y + 0.5).Floor)
  }

  /** decimal.Div: the quotient to 16 digits, rounded half away from zero. */
  function Div(x: real, n: int): real
    requires n != 0
  {
    RoundHalfAway(x / (n as real) * SCALE) as real / SCALE
  }

  lemma FloorMonotone(x: real, y: real)
    requires x <= y
    ensures x.Floor <= y.Floor
  {
  }

  lemma RoundMonotone(x: real, y: real)
    requires x <= y
    ensures RoundHalfAway(x) <= RoundHalfAway(y)
  {
    if x >= 0.0 {
      FloorMonotone(x + 0.5, y + 0.5);
    } else if y < 0.0 {
      FloorMonotone(-y + 0.5, -x + 0.5);
    }
  }

  lemma RoundError(y: real)
    ensures -0.5 <= RoundHalfAway(y) as real - y <= 0.5
  {
  }

  /** Rounding keeps the order of quotients. */
  lemma DivMonotone(x: real, n: int, y: real, k: int)
    requires n != 0 && k != 0 && x / (n as real) <= y / (k as real)
    ensures Div(x, n) <= Div(y, k)
  {
    var p, q := x / (n as real), y / (k as real);
    assert p * SCALE <= q * SCALE;
    RoundMonotone(p * SCALE, q * SCALE);
  }

  function AtLeastZero(x: real): real {
    if x < 0.0 then 0.0 else x
  }

  function OrZero(x: Option<real>): real {
    if x.Some? then x.value else 0.0
  }

  // ---------------------------------------------------------------- the estimates

  /** decimal.NewFromInt(int64(n)) of an unsigned count. */
  function FromCount(n: nat): real {
    Int64(n) as real
  }

  function FeeShare(ownerFee: byte, ceil: bool): real {
    var share := ownerFee as real / 100.0;
    if ceil then Ceil(share) as real else share
  }

  function Part(amount: real, share: real): real {
    amount * share
  }

  function OwnerReward(balance: real, ownerDeposit: Option<real>, oracleRewardFund: Option<real>,
                       minPayment: real, committeeSize: nat, ownerFee: byte, ceil: bool): real
  {
    var userLocks := minPayment * FromCount(committeeSize);
    if ownerDeposit.Some? then
      if ownerFee > 0 then
        var replenished := balance - ownerDeposit.value - OrZero(oracleRewardFund) - userLocks;
        if replenished > 0.0 then ownerDeposit.value + Part(replenished, FeeShare(ownerFee, ceil))
        else ownerDeposit.value
      else ownerDeposit.value
    else if ownerFee > 0 then Part(balance - userLocks, FeeShare(ownerFee, ceil))
    else 0.0
  }

  /** The balance once n votes are in, when votesCnt of them already are. */
  function PotentialBalance(balance: real, minPayment: real, n: nat, votesCnt: nat): real {
    if n > votesCnt && minPayment > 0.0 then balance + minPayment * FromCount(n - votesCnt) else balance
  }

  function FinalCommittee(committeeSize: uint64, votesCnt: uint64): (n: nat)
    ensures n >= 1
  {
    var size := if committeeSize == 0 then 1 else committeeSize;
    if votesCnt > size then votesCnt else size
  }

  /** ceil(committeeSize * quorum / 100), but never below 1. */
  function QuorumSize(committeeSize: uint64, quorum: byte): (n: nat)
    ensures n >= 1
  {
    var size := committeeSize * quorum / 100;
    if committeeSize * quorum % 100 > 0 || size == 0 then size + 1 else size
  }

  function MinVotes(committeeSize: uint64, quorum: byte, votesCnt: uint64): (n: nat)
    ensures n >= 1
  {
    var quorumSize := QuorumSize(committeeSize, quorum);
    if quorumSize > votesCnt then quorumSize else votesCnt
  }

  /** ceil(minVotes * winnerThreshold / 100). */
  function Winners(minVotes: nat, winnerThreshold: byte): int {
    Ceil(Part(FromCount(minVotes), winnerThreshold as real / 100.0))
  }

  /** What is known about one voting contract. */
  datatype Contract = Contract(balance: real, minPayment: Option<real>, ownerFee: byte, committeeSize: uint64,
                               quorum: byte, winnerThreshold: byte, votesCnt: uint64,
                               ownerDeposit: Option<real>, oracleRewardFund: Option<real>)

  function EstimatedOracleReward(c: Contract): real {
    var minPayment := OrZero(c.minPayment);
    var n := FinalCommittee(c.committeeSize, c.votesCnt);
    var potential := PotentialBalance(c.balance, minPayment, n, c.votesCnt);
    var ownerReward := OwnerReward(potential, c.ownerDeposit, c.oracleRewardFund, minPayment, n, c.ownerFee, true);
    AtLeastZero(Div(potential - ownerReward, Int64(n)))
  }

  /** None is the division by zero that panics. */
  function EstimatedMaxOracleReward(c: Contract): Option<real> {
    var minPayment := OrZero(c.minPayment);
    var n := MinVotes(c.committeeSize, c.quorum, c.votesCnt);
    var potential := PotentialBalance(c.balance, minPayment, n, c.votesCnt);
    var ownerReward := OwnerReward(potential, c.ownerDeposit, c.oracleRewardFund, minPayment, n, c.ownerFee, false);
    var winners := Winners(n, c.winnerThreshold);
    if winners == 0 then None else Some(AtLeastZero(Div(potential - ownerReward, winners)))
  }

  function EstimatedTotalReward(c: Contract): real {
    var ownerReward := CurrentOwnerReward(c);
    AtLeastZero(c.balance - ownerReward)
  }

  function CurrentOwnerReward(c: Contract): real {
    OwnerReward(c.balance, c.ownerDeposit, c.oracleRewardFund, OrZero(c.minPayment), c.votesCnt, c.ownerFee, false)
  }

  // ---------------------------------------------------------------- what the pool is made of

  /** Amounts are not negative and counts fit an int64. */
  predicate Sensible(c: Contract) {
    && OrZero(c.minPayment) >= 0.0 && OrZero(c.ownerDeposit) >= 0.0 && OrZero(c.oracleRewardFund) >= 0.0
    && c.ownerFee <= 100 && c.quorum <= 100
    && c.committeeSize < TWO63 && c.votesCnt < TWO63
  }

  /** The balance without the voters' own locks. */
  function Unlocked(c: Contract): real {
    c.balance - OrZero(c.minPayment) * c.votesCnt as real
  }

  /** The owner's deposit and the voters' locks are covered by the balance. */
  predicate Covered(c: Contract) {
    OrZero(c.ownerDeposit) <= Unlocked(c)
  }

  /** The owner's reward in terms of the unlocked balance u. */
  function OwnerPart(u: real, ownerDeposit: Option<real>, fund: real, ownerFee: byte, share: real): real {
    if ownerDeposit.Some? then
      var replenished := u - ownerDeposit.value - fund;
      if ownerFee > 0 && replenished > 0.0 then ownerDeposit.value + Part(replenished, share) else ownerDeposit.value
    else if ownerFee > 0 then Part(u, share)
    else 0.0
  }

  lemma OwnerRewardIsOwnerPart(balance: real, ownerDeposit: Option<real>, oracleRewardFund: Option<real>,
                               minPayment: real, n: nat, ownerFee: byte, ceil: bool)
    ensures OwnerReward(balance, ownerDeposit, oracleRewardFund, minPayment, n, ownerFee, ceil)
         == OwnerPart(balance - minPayment * FromCount(n), ownerDeposit, OrZero(oracleRewardFund), ownerFee,
                      FeeShare(ownerFee, ceil))
  {
    hide FeeShare, FromCount, Part;
  }

  /** What the oracles share beyond the locks; it does not depend on how many votes there will be. */
  function Surplus(c: Contract, ceil: bool): real {
    Unlocked(c) - OwnerPart(Unlocked(c), c.ownerDeposit, OrZero(c.oracleRewardFund), c.ownerFee,
                            FeeShare(c.ownerFee, ceil))
  }

  function Pool(m: real, n: nat, surplus: real): real {
    m * n as real + surplus
  }

  lemma PotentialIsUnlockedPlusLocks(c: Contract, n: nat)
    requires OrZero(c.minPayment) >= 0.0 && c.votesCnt <= n < TWO63
    ensures PotentialBalance(c.balance, OrZero(c.minPayment), n, c.votesCnt)
         == Pool(OrZero(c.minPayment), n, Unlocked(c))
  {
    var m := OrZero(c.minPayment);
    assert FromCount(n - c.votesCnt) == (n - c.votesCnt) as real;
    assert m * (n - c.votesCnt) as real == m * n as real - m * c.votesCnt as real;
  }

  /** For any number n of votes not below the current one, the pool is n locks plus the surplus. */
  lemma PoolIsLocksPlusSurplus(c: Contract, n: nat, ceil: bool)
    requires OrZero(c.minPayment) >= 0.0 && c.votesCnt <= n < TWO63
    ensures var m := OrZero(c.minPayment);
            var potential := PotentialBalance(c.balance, m, n, c.votesCnt);
            potential - OwnerReward(potential, c.ownerDeposit, c.oracleRewardFund, m, n, c.ownerFee, ceil)
            == Pool(m, n, Surplus(c, ceil))
  {
    var m := OrZero(c.minPayment);
    var potential := PotentialBalance(c.balance, m, n, c.votesCnt);
    PotentialIsUnlockedPlusLocks(c, n);
    assert FromCount(n) == n as real;
    assert potential - m * FromCount(n) == Unlocked(c);
    OwnerRewardIsOwnerPart(potential, c.ownerDeposit, c.oracleRewardFund, m, n, c.ownerFee, ceil);
    assert Pool(m, n, Surplus(c, ceil)) == m * n as real + Surplus(c, ceil);
    hide FeeShare, PotentialBalance, Unlocked, FromCount, OwnerPart, OwnerReward, Pool;
  }

  /** The clamped and rounded share of one of `divisor` receivers of a pool. */
  function Payout(pool: real, divisor: int): real
    requires divisor != 0
  {
    AtLeastZero(Div(pool, divisor))
  }

  lemma EstimateIsPayout(c: Contract)
    requires OrZero(c.minPayment) >= 0.0 && FinalCommittee(c.committeeSize, c.votesCnt) < TWO63
    ensures var n := FinalCommittee(c.committeeSize, c.votesCnt);
            EstimatedOracleReward(c) == Payout(Pool(OrZero(c.minPayment), n, Surplus(c, true)), n)
  {
    var n := FinalCommittee(c.committeeSize, c.votesCnt);
    PoolIsLocksPlusSurplus(c, n, true);
    assert Int64(n) == n;
    hide Int64, FinalCommittee, Div, OwnerReward, PotentialBalance, Pool, Surplus, AtLeastZero;
  }

  lemma MaximumIsPayout(c: Contract)
    requires OrZero(c.minPayment) >= 0.0 && MinVotes(c.committeeSize, c.quorum, c.votesCnt) < TWO63
    ensures var q := MinVotes(c.committeeSize, c.quorum, c.votesCnt);
            var w := Winners(q, c.winnerThreshold);
            EstimatedMaxOracleReward(c) ==
            if w == 0 then None else Some(Payout(Pool(OrZero(c.minPayment), q, Surplus(c, false)), w))
  {
    PoolIsLocksPlusSurplus(c, MinVotes(c.committeeSize, c.quorum, c.votesCnt), false);
    hide Div, OwnerReward, PotentialBalance, Pool, Surplus, AtLeastZero, Winners;
  }

  lemma PayoutMonotone(x: real, n: int, y: real, k: int)
    requires n != 0 && k != 0 && x / (n as real) <= y / (k as real)
    ensures Payout(x, n) <= Payout(y, k)
  {
    DivMonotone(x, n, y, k);
  }

  lemma ShareBounds(ownerFee: byte)
    requires ownerFee <= 100
    ensures 0.0 <= FeeShare(ownerFee, false) <= FeeShare(ownerFee, true) <= 1.0
  {
    var share := ownerFee as real / 100.0;
    assert share <= 1.0;
    assert -1 <= (-share).Floor;
  }

  lemma Scaled(x: real, a: real, b: real)
    requires 0.0 <= x && 0.0 <= a <= b <= 1.0
    ensures 0.0 <= Part(x, a) <= Part(x, b) <= x
  {
  }

  lemma PositiveProduct(x: real, a: real)
    requires 0.0 < x && 0.0 < a <= 1.0
    ensures 0.0 < Part(x, a) <= x
  {
  }

  lemma OwnerPartGrows(u: real, ownerDeposit: Option<real>, fund: real, ownerFee: byte, a: real, b: real)
    requires OrZero(ownerDeposit) <= u && 0.0 <= fund && 0.0 <= OrZero(ownerDeposit) && 0.0 <= a <= b <= 1.0
    ensures OwnerPart(u, ownerDeposit, fund, ownerFee, a) <= OwnerPart(u, ownerDeposit, fund, ownerFee, b) <= u
  {
    hide Part;
    if ownerDeposit.None? {
      Scaled(u, a, b);
    } else if u - ownerDeposit.value - fund > 0.0 {
      Scaled(u - ownerDeposit.value - fund, a, b);
    }
  }

  lemma SurplusBounds(c: Contract)
    requires Sensible(c) && Covered(c)
    ensures 0.0 <= Surplus(c, true) <= Surplus(c, false)
  {
    ShareBounds(c.ownerFee);
    OwnerPartGrows(Unlocked(c), c.ownerDeposit, OrZero(c.oracleRewardFund), c.ownerFee,
                   FeeShare(c.ownerFee, false), FeeShare(c.ownerFee, true));
    hide OwnerPart, FeeShare, Unlocked;
  }

  lemma QuorumWithinCommittee(c: Contract)
    requires Sensible(c)
    ensures MinVotes(c.committeeSize, c.quorum, c.votesCnt) <= FinalCommittee(c.committeeSize, c.votesCnt) < TWO63
  {
    QuorumAtMost(c.committeeSize, c.quorum);
    hide QuorumSize;
  }

  lemma QuorumAtMost(committeeSize: uint64, quorum: byte)
    requires quorum <= 100
    ensures QuorumSize(committeeSize, quorum) <= if committeeSize == 0 then 1 else committeeSize
  {
    AtMostHundredfold(committeeSize, quorum);
    Hundredths(committeeSize * quorum, committeeSize);
  }

  lemma AtMostHundredfold(n: nat, percent: nat)
    requires percent <= 100
    ensures 0 <= n * percent <= n * 100
  {
  }

  lemma Hundredths(product: nat, n: nat)
    requires product <= n * 100
    ensures product / 100 <= n && (product % 100 > 0 ==> product / 100 < n)
  {
  }

  lemma WinnersBounds(n: nat, winnerThreshold: byte)
    requires 1 <= n < TWO63 && 1 <= winnerThreshold <= 100
    ensures 1 <= Winners(n, winnerThreshold) <= n
  {
    var part := winnerThreshold as real / 100.0;
    assert 0.0 < part <= 1.0;
    assert FromCount(n) == n as real;
    assert Winners(n, winnerThreshold) == Ceil(Part(n as real, part)) by { hide FromCount, Part, Ceil; }
    hide *;
    PositiveProduct(n as real, part);
    CeilBounds(Part(n as real, part), n);
  }

  lemma CeilBounds(x: real, n: nat)
    requires 0.0 < x <= n as real
    ensures 1 <= Ceil(x) <= n
  {
    FloorMonotone(-(n as real), -x);
  }

  /** The division by zero happens exactly when no share of the votes has to win. */
  lemma PanicsOnlyWithoutThreshold(c: Contract)
    requires Sensible(c) && c.winnerThreshold <= 100
    ensures EstimatedMaxOracleReward(c).None? <==> c.winnerThreshold == 0
  {
    var n := MinVotes(c.committeeSize, c.quorum, c.votesCnt);
    QuorumWithinCommittee(c);
    if c.winnerThreshold > 0 {
      WinnersBounds(n, c.winnerThreshold);
    }
  }

  // ---------------------------------------------------------------- theorems

  lemma PerVote(m: real, n: nat, s: real)
    requires n >= 1
    ensures Pool(m, n, s) / n as real == m + s / n as real
  {
  }

  lemma FewerShareMore(s: real, w: nat, n: nat)
    requires 1 <= w <= n && 0.0 <= s
    ensures s / n as real <= s / w as real
  {
    var q := s / w as real;
    assert q >= 0.0 && q * w as real == s;
    assert q * n as real >= s by { assert q * (n - w) as real >= 0.0; }
    assert s / n as real <= (q * n as real) / n as real;
  }

  /** More receivers of a smaller surplus get less each than fewer winners of a larger pool. */
  lemma SharesCompare(m: real, n: nat, s: real, q: nat, t: real, w: nat)
    requires 0.0 <= m && 0.0 <= s <= t && 1 <= w <= q <= n
    ensures Pool(m, n, s) / n as real <= Pool(m, q, t) / w as real
  {
    PerVote(m, n, s);
    PerVote(m, q, t);
    FewerShareMore(s, q, n);
    assert s / q as real <= t / q as real;
    assert m * q as real >= 0.0;
    FewerShareMore(Pool(m, q, t), w, q);
  }

  lemma PayoutsCompare(m: real, n: nat, s: real, q: nat, t: real, w: nat)
    requires 0.0 <= m && 0.0 <= s <= t && 1 <= w <= q <= n
    ensures Payout(Pool(m, n, s), n) <= Payout(Pool(m, q, t), w)
  {
    SharesCompare(m, n, s, q, t, w);
    PayoutMonotone(Pool(m, n, s), n, Pool(m, q, t), w);
  }

  /** The estimate never promises more than the maximal estimate, after rounding and clamping. */
  lemma EstimateWithinMaximum(c: Contract)
    requires Sensible(c) && Covered(c) && 1 <= c.winnerThreshold <= 100
    ensures EstimatedMaxOracleReward(c).Some?
    ensures EstimatedOracleReward(c) <= EstimatedMaxOracleReward(c).value
  {
    var n, q := FinalCommittee(c.committeeSize, c.votesCnt), MinVotes(c.committeeSize, c.quorum, c.votesCnt);
    QuorumWithinCommittee(c);
    WinnersBounds(q, c.winnerThreshold);
    SurplusBounds(c);
    EstimateIsPayout(c);
    MaximumIsPayout(c);
    PayoutsCompare(OrZero(c.minPayment), n, Surplus(c, true), q, Surplus(c, false), Winners(q, c.winnerThreshold));
    hide *;
  }

  lemma FewerLoseMore(s: real, w: nat, n: nat)
    requires 1 <= w <= n && s <= 0.0
    ensures s / w as real <= s / n as real
  {
    var q := s / n as real;
    assert q <= 0.0 && q * n as real == s;
    assert q * w as real >= s by { assert q * (n - w) as real <= 0.0; }
    assert s / w as real <= (q * w as real) / w as real;
  }

  lemma AllWin(n: nat)
    requires n < TWO63
    ensures Winners(n, 100) == n
  {
    assert 100 as real / 100.0 == 1.0;
    assert FromCount(n) == n as real;
    assert Part(n as real, 1.0) == n as real;
  }

  /** Coverage is what the bound rests on: without a fee and with everybody winning, it reverses once coverage fails. */
  lemma UncoveredReversesBound(c: Contract)
    requires Sensible(c) && !Covered(c) && c.ownerFee == 0 && c.winnerThreshold == 100
    ensures EstimatedMaxOracleReward(c).Some?
    ensures EstimatedMaxOracleReward(c).value <= EstimatedOracleReward(c)
  {
    var m, s := OrZero(c.minPayment), Unlocked(c) - OrZero(c.ownerDeposit);
    var n, q := FinalCommittee(c.committeeSize, c.votesCnt), MinVotes(c.committeeSize, c.quorum, c.votesCnt);
    assert Surplus(c, true) == s && Surplus(c, false) == s && s < 0.0;
    QuorumWithinCommittee(c);
    AllWin(q);
    EstimateIsPayout(c);
    MaximumIsPayout(c);
    PerVote(m, n, s);
    PerVote(m, q, s);
    FewerLoseMore(s, q, n);
    PayoutMonotone(Pool(m, q, s), q, Pool(m, n, s), n);
    hide *;
  }

  // ---------------------------------------------------------------- when the bound fails

  /** A boundary at which rounding to 16 digits moves up to `unit` lies above `low` and not above `high`. */
  predicate Separates(unit: int, low: real, high: real) {
    low < unit as real - 0.5 <= high
  }

  /** An amount in units of the 16th digit, rounded and clamped. */
  function Units(y: real): int {
    if RoundHalfAway(y) < 0 then 0 else RoundHalfAway(y)
  }

  lemma UnitsAtLeast(y: real, unit: int)
    requires unit >= 1
    ensures Units(y) >= unit <==> unit as real - 0.5 <= y
  {
  }

  /** Rounding and clamping keep two amounts apart exactly if a positive boundary separates them. */
  lemma UnitsApartIff(low: real, high: real)
    ensures Units(low) < Units(high) <==> exists unit: int :: unit >= 1 && Separates(unit, low, high)
  {
    hide RoundHalfAway;
    if Units(low) < Units(high) {
      var unit := Units(high);
      assert unit >= 1;
      hide Units;
      UnitsAtLeast(low, unit);
      UnitsAtLeast(high, unit);
      assert Separates(unit, low, high);
    }
    if unit: int :| unit >= 1 && Separates(unit, low, high) {
      hide Units;
      UnitsAtLeast(low, unit);
      UnitsAtLeast(high, unit);
    }
  }

  lemma PayoutInUnits(pool: real, n: int)
    requires n != 0
    ensures Payout(pool, n) == Units(pool / (n as real) * SCALE) as real / SCALE
  {
    hide RoundHalfAway;
  }

  lemma LessInUnits(a: int, b: int)
    ensures a as real / SCALE < b as real / SCALE <==> a < b
  {
  }

  /** One oracle's share of the pool before rounding, in units of the 16th digit. */
  function EstimateInUnits(c: Contract): real {
    var n := FinalCommittee(c.committeeSize, c.votesCnt);
    Pool(OrZero(c.minPayment), n, Surplus(c, true)) / n as real * SCALE
  }

  function MaximumInUnits(c: Contract): real
    requires Winners(MinVotes(c.committeeSize, c.quorum, c.votesCnt), c.winnerThreshold) != 0
  {
    var q := MinVotes(c.committeeSize, c.quorum, c.votesCnt);
    Pool(OrZero(c.minPayment), q, Surplus(c, false)) / Winners(q, c.winnerThreshold) as real * SCALE
  }

  /** What is missing in the balance to cover the owner's deposit and the voters' locks. */
  function Shortfall(c: Contract): real {
    OrZero(c.ownerDeposit) - Unlocked(c)
  }

  /**
   * In terms of the contract: with a deposit, or without a fee, both estimates bear the whole shortfall k, the one
   * spread over n oracles and the other over w winners of q votes; with a fee alone, the rounded-up fee takes all the
   * shortfall from the estimate, and the maximal estimate bears what the fee leaves of it.
   */
  predicate ShortfallReverses(c: Contract) {
    var n, q := FinalCommittee(c.committeeSize, c.votesCnt), MinVotes(c.committeeSize, c.quorum, c.votesCnt);
    var k, m, w := Shortfall(c), OrZero(c.minPayment), Winners(q, c.winnerThreshold);
    && k > 0.0
    && if c.ownerDeposit.Some? || c.ownerFee == 0
       then Part(k, (n - w) as real) > Part(Part(m, n as real), (q - w) as real)
       else Part(k, 1.0 - c.ownerFee as real / 100.0) > Part(m, (q - w) as real)
  }

  lemma FullFee(ownerFee: byte)
    requires 1 <= ownerFee <= 100
    ensures FeeShare(ownerFee, true) == 1.0 && FeeShare(ownerFee, false) == ownerFee as real / 100.0
  {
    var share := ownerFee as real / 100.0;
    assert 0.0 < share <= 1.0;
    assert (-share).Floor == -1;
  }

  lemma WholeShortfall(c: Contract, ceil: bool)
    requires Sensible(c) && Shortfall(c) > 0.0 && (c.ownerDeposit.Some? || c.ownerFee == 0)
    ensures Surplus(c, ceil) == -Shortfall(c)
  {
    hide FeeShare, Unlocked, Part;
  }

  lemma FeeShortfall(c: Contract)
    requires Sensible(c) && Shortfall(c) > 0.0 && c.ownerDeposit.None? && c.ownerFee > 0
    ensures Surplus(c, true) == 0.0
    ensures Surplus(c, false) == -Part(Shortfall(c), 1.0 - c.ownerFee as real / 100.0)
  {
    FullFee(c.ownerFee);
    var u, f := Unlocked(c), c.ownerFee as real / 100.0;
    assert Surplus(c, true) == u - Part(u, 1.0) by { hide FeeShare, Unlocked, Part; }
    assert Surplus(c, false) == u - Part(u, f) by { hide FeeShare, Unlocked, Part; }
    assert Shortfall(c) == -u;
    hide FeeShare, Unlocked, Surplus, Shortfall;
    assert u - Part(u, f) == -Part(-u, 1.0 - f);
  }

  lemma CrossMultiply(x: real, n: nat, y: real, w: nat)
    requires n >= 1 && w >= 1
    ensures y / w as real < x / n as real <==> y * n as real < x * w as real
  {
    var p, r := x / n as real, y / w as real;
    assert x == p * n as real && y == r * w as real;
    var nw := n as real * w as real;
    assert nw > 0.0;
    assert y * n as real == r * nw && x * w as real == p * nw;
    if r < p {
      assert (p - r) * nw > 0.0;
    } else {
      assert (r - p) * nw >= 0.0;
    }
  }

  lemma WholeCompared(m: real, k: real, n: real, q: real, w: real)
    ensures (m * q - k) * n < (m * n - k) * w <==> Part(Part(m, n), q - w) < Part(k, n - w)
  {
    assert (m * n - k) * w - (m * q - k) * n == k * (n - w) - m * n * (q - w);
  }

  lemma FeeCompared(m: real, k: real, n: real, q: real, w: real)
    requires n > 0.0
    ensures (m * q - k) * n < (m * n + 0.0) * w <==> Part(m, q - w) < k
  {
    var d := k - m * (q - w);
    assert (m * n) * w - (m * q - k) * n == d * n;
    assert d > 0.0 <==> d * n > 0.0;
  }

  lemma Scaling(x: real, y: real)
    ensures x < y <==> x * SCALE < y * SCALE
  {
  }

  lemma ReversedByWhole(m: real, n: nat, q: nat, w: nat, k: real)
    requires n >= 1 && w >= 1
    ensures Pool(m, q, -k) / w as real < Pool(m, n, -k) / n as real <==>
              Part(k, (n - w) as real) > Part(Part(m, n as real), (q - w) as real)
  {
    assert Pool(m, q, -k) == m * q as real - k && Pool(m, n, -k) == m * n as real - k;
    assert (n - w) as real == n as real - w as real && (q - w) as real == q as real - w as real;
    hide *;
    CrossMultiply(Pool(m, n, -k), n, Pool(m, q, -k), w);
    WholeCompared(m, k, n as real, q as real, w as real);
  }

  lemma ReversedByFee(m: real, n: nat, q: nat, w: nat, k: real)
    requires n >= 1 && w >= 1
    ensures Pool(m, q, -k) / w as real < Pool(m, n, 0.0) / n as real <==> k > Part(m, (q - w) as real)
  {
    assert Pool(m, q, -k) == m * q as real - k && Pool(m, n, 0.0) == m * n as real + 0.0;
    assert (q - w) as real == q as real - w as real;
    hide *;
    CrossMultiply(Pool(m, n, 0.0), n, Pool(m, q, -k), w);
    FeeCompared(m, k, n as real, q as real, w as real);
  }

  lemma InUnitsCompared(c: Contract)
    requires Winners(MinVotes(c.committeeSize, c.quorum, c.votesCnt), c.winnerThreshold) >= 1
    ensures var n, q := FinalCommittee(c.committeeSize, c.votesCnt), MinVotes(c.committeeSize, c.quorum, c.votesCnt);
      var m, w := OrZero(c.minPayment), Winners(q, c.winnerThreshold);
      MaximumInUnits(c) < EstimateInUnits(c) <==>
        Pool(m, q, Surplus(c, false)) / w as real < Pool(m, n, Surplus(c, true)) / n as real
  {
    var n, q := FinalCommittee(c.committeeSize, c.votesCnt), MinVotes(c.committeeSize, c.quorum, c.votesCnt);
    var m, w := OrZero(c.minPayment), Winners(q, c.winnerThreshold);
    hide FinalCommittee, MinVotes, OrZero, Winners, Pool, Surplus;
    Scaling(Pool(m, q, Surplus(c, false)) / w as real, Pool(m, n, Surplus(c, true)) / n as real);
  }

  lemma CoveredIsNoShortfall(c: Contract)
    ensures Covered(c) <==> Shortfall(c) <= 0.0
    ensures ShortfallReverses(c) ==> !Covered(c)
  {
    hide Unlocked, Part, Winners;
  }

  /** The exact shares are in the wrong order exactly if the shortfall is large enough for that. */
  lemma ReversedIff(c: Contract)
    requires Sensible(c) && 1 <= c.winnerThreshold <= 100
    ensures Winners(MinVotes(c.committeeSize, c.quorum, c.votesCnt), c.winnerThreshold) >= 1
    ensures MaximumInUnits(c) < EstimateInUnits(c) <==> ShortfallReverses(c)
  {
    var n, q := FinalCommittee(c.committeeSize, c.votesCnt), MinVotes(c.committeeSize, c.quorum, c.votesCnt);
    var m, w := OrZero(c.minPayment), Winners(q, c.winnerThreshold);
    assert m >= 0.0;
    hide FinalCommittee, MinVotes, OrZero, Winners, Pool, Surplus, Shortfall, Part, Sensible, Covered, MaximumInUnits,
         EstimateInUnits, SCALE;
    QuorumWithinCommittee(c);
    WinnersBounds(q, c.winnerThreshold);
    InUnitsCompared(c);
    CoveredIsNoShortfall(c);
    if Covered(c) {
      SurplusBounds(c);
      SharesCompare(m, n, Surplus(c, true), q, Surplus(c, false), w);
    } else if c.ownerDeposit.Some? || c.ownerFee == 0 {
      WholeShortfall(c, true);
      WholeShortfall(c, false);
      ReversedByWhole(m, n, q, w, Shortfall(c));
    } else {
      FeeShortfall(c);
      ReversedByFee(m, n, q, w, Part(Shortfall(c), 1.0 - c.ownerFee as real / 100.0));
    }
  }

  lemma FailsIfSeparated(c: Contract)
    requires Sensible(c) && 1 <= c.winnerThreshold <= 100
    ensures Winners(MinVotes(c.committeeSize, c.quorum, c.votesCnt), c.winnerThreshold) >= 1
    ensures EstimatedMaxOracleReward(c).Some?
    ensures EstimatedMaxOracleReward(c).value < EstimatedOracleReward(c) <==>
              exists unit: int :: unit >= 1 && Separates(unit, MaximumInUnits(c), EstimateInUnits(c))
  {
    var n, q := FinalCommittee(c.committeeSize, c.votesCnt), MinVotes(c.committeeSize, c.quorum, c.votesCnt);
    QuorumWithinCommittee(c);
    WinnersBounds(q, c.winnerThreshold);
    EstimateIsPayout(c);
    MaximumIsPayout(c);
    var m, w := OrZero(c.minPayment), Winners(q, c.winnerThreshold);
    var low, high := Pool(m, q, Surplus(c, false)), Pool(m, n, Surplus(c, true));
    assert MaximumInUnits(c) == low / w as real * SCALE && EstimateInUnits(c) == high / n as real * SCALE;
    hide *;
    PayoutInUnits(low, w);
    PayoutInUnits(high, n);
    UnitsApartIff(low / w as real * SCALE, high / n as real * SCALE);
    LessInUnits(Units(low / w as real * SCALE), Units(high / n as real * SCALE));
  }

  lemma SeparatedIsReversed(unit: int, low: real, high: real)
    requires Separates(unit, low, high)
    ensures low < high
  {
  }

  /**
   * For all terms, covered or not: the estimate exceeds the maximal one exactly if the shortfall reverses the exact
   * shares and rounding to 16 digits does not make up for that.
   */
  lemma BoundFailsIff(c: Contract)
    requires Sensible(c) && 1 <= c.winnerThreshold <= 100
    ensures Winners(MinVotes(c.committeeSize, c.quorum, c.votesCnt), c.winnerThreshold) >= 1
    ensures EstimatedMaxOracleReward(c).Some?
    ensures EstimatedMaxOracleReward(c).value < EstimatedOracleReward(c) <==>
              && ShortfallReverses(c)
              && exists unit: int :: unit >= 1 && Separates(unit, MaximumInUnits(c), EstimateInUnits(c))
    ensures EstimatedMaxOracleReward(c).value < EstimatedOracleReward(c) ==> !Covered(c)
  {
    hide *;
    ReversedIff(c);
    CoveredIsNoShortfall(c);
    FailsIfSeparated(c);
    if unit: int :| unit >= 1 && Separates(unit, MaximumInUnits(c), EstimateInUnits(c)) {
      SeparatedIsReversed(unit, MaximumInUnits(c), EstimateInUnits(c));
    }
  }

  lemma UnitApart(low: real, high: real)
    requires 0.5 <= high && low + 1.0 <= high
    ensures exists unit: int :: unit >= 1 && Separates(unit, low, high)
  {
    var unit := (high + 0.5).Floor;
    assert Separates(unit, low, high);
  }

  /** It does fail if the estimate is worth something and the exact shares are reversed by a unit of the last digit. */
  lemma BoundFailsAUnitApart(c: Contract)
    requires Sensible(c) && 1 <= c.winnerThreshold <= 100
    requires Winners(MinVotes(c.committeeSize, c.quorum, c.votesCnt), c.winnerThreshold) >= 1
    requires 0.5 <= EstimateInUnits(c) && MaximumInUnits(c) + 1.0 <= EstimateInUnits(c)
    ensures EstimatedMaxOracleReward(c).Some? && EstimatedMaxOracleReward(c).value < EstimatedOracleReward(c)
    ensures ShortfallReverses(c) && !Covered(c)
  {
    hide *;
    BoundFailsIff(c);
    FailsIfSeparated(c);
    CoveredIsNoShortfall(c);
    UnitApart(MaximumInUnits(c), EstimateInUnits(c));
  }

  /** A deposit of 150 in a balance of 100: each of 10 oracles is promised 5, and at most 0. */
  const UNCOVERED: Contract := Contract(100.0, Some(10.0), 0, 10, 50, 100, 0, Some(150.0), None)

  lemma DivExact(x: real, n: int, k: int)
    requires n != 0 && x == k as real * n as real && k >= 0
    ensures Payout(x, n) == k as real
  {
    assert x / n as real == k as real;
    var y := k as real * SCALE;
    assert y == (k * 10_000_000_000_000_000) as real;
    assert RoundHalfAway(y) as real == y;
  }

  lemma UncoveredSizes()
    ensures FinalCommittee(10, 0) == 10 && QuorumSize(10, 50) == 5 && MinVotes(10, 50, 0) == 5 && Winners(5, 100) == 5
  {
    AllWin(5);
    hide Winners;
  }

  lemma UncoveredSurplus(ceil: bool)
    ensures Surplus(UNCOVERED, ceil) == -50.0 && Unlocked(UNCOVERED) == 100.0
  {
    assert 10.0 * 0 as real == 0.0;
    hide FeeShare;
  }

  lemma UncoveredIsSensible()
    ensures Sensible(UNCOVERED) && !Covered(UNCOVERED)
  {
    UncoveredSurplus(true);
    hide Unlocked;
  }

  lemma UncoveredPools()
    ensures Payout(Pool(10.0, 10, -50.0), 10) == 5.0 && Payout(Pool(10.0, 5, -50.0), 5) == 0.0
  {
    assert Pool(10.0, 10, -50.0) == 50.0 && Pool(10.0, 5, -50.0) == 0.0;
    hide *;
    DivExact(50.0, 10, 5);
    DivExact(0.0, 5, 0);
  }

  lemma UncoveredBoundFails()
    ensures Sensible(UNCOVERED) && !Covered(UNCOVERED)
    ensures EstimatedOracleReward(UNCOVERED) == 5.0 && EstimatedMaxOracleReward(UNCOVERED) == Some(0.0)
  {
    var c := UNCOVERED;
    assert c.committeeSize == 10 && c.quorum == 50 && c.votesCnt == 0 && c.winnerThreshold == 100;
    assert OrZero(c.minPayment) == 10.0;
    hide *;
    UncoveredIsSensible();
    UncoveredSizes();
    UncoveredSurplus(true);
    UncoveredSurplus(false);
    UncoveredPools();
    EstimateIsPayout(c) by { assert 10 < TWO63; }
    MaximumIsPayout(c) by { assert 5 < TWO63; }
  }

  /** The contract after k more votes, each of which pays the minimal payment. */
  function AfterVotes(c: Contract, k: nat): Contract
    requires c.votesCnt + k < TWO64
  {
    c.(balance := c.balance + OrZero(c.minPayment) * k as real, votesCnt := c.votesCnt + k)
  }

  lemma VotesKeepSurplus(c: Contract, k: nat, ceil: bool)
    requires c.votesCnt + k < TWO64
    ensures Unlocked(AfterVotes(c, k)) == Unlocked(c)
    ensures Surplus(AfterVotes(c, k), ceil) == Surplus(c, ceil)
  {
    var m := OrZero(c.minPayment);
    assert m * (c.votesCnt + k) as real == m * c.votesCnt as real + m * k as real;
  }

  lemma WithinQuorum(committeeSize: uint64, quorum: byte, n: nat)
    ensures n <= QuorumSize(committeeSize, quorum) <==> n <= 1 || 100 * (n - 1) < committeeSize * quorum
  {
    QuorumIsCeiling(committeeSize, quorum);
    var product := ProductOf(committeeSize, quorum);
    assert committeeSize * quorum == product;
    hide QuorumSize, ProductOf;
  }

  /** Votes below the quorum, of which the one before the last does not reach it, do not move the maximal estimate. */
  lemma MaximumConstantUntilQuorum(c: Contract, k: nat)
    requires OrZero(c.minPayment) >= 0.0
    requires c.votesCnt + k <= 1 || 100 * (c.votesCnt + k - 1) < c.committeeSize * c.quorum
    requires QuorumSize(c.committeeSize, c.quorum) < TWO63
    ensures EstimatedMaxOracleReward(AfterVotes(c, k)) == EstimatedMaxOracleReward(c)
  {
    var d := AfterVotes(c, k);
    WithinQuorum(c.committeeSize, c.quorum, c.votesCnt + k);
    assert MinVotes(d.committeeSize, d.quorum, d.votesCnt) == MinVotes(c.committeeSize, c.quorum, c.votesCnt);
    VotesKeepSurplus(c, k, false);
    MaximumIsPayout(c);
    MaximumIsPayout(d);
    hide *;
  }

  /** Votes within the committee do not move the estimate. */
  lemma EstimateConstantUntilCommittee(c: Contract, k: nat)
    requires OrZero(c.minPayment) >= 0.0
    requires c.votesCnt + k <= FinalCommittee(c.committeeSize, 0) < TWO63
    ensures EstimatedOracleReward(AfterVotes(c, k)) == EstimatedOracleReward(c)
  {
    var d := AfterVotes(c, k);
    assert FinalCommittee(d.committeeSize, d.votesCnt) == FinalCommittee(c.committeeSize, c.votesCnt);
    VotesKeepSurplus(c, k, true);
    EstimateIsPayout(c);
    EstimateIsPayout(d);
    hide *;
  }

  /** Votes never raise the estimate, however many there are. */
  lemma EstimateNeverRises(c: Contract, k: nat)
    requires Sensible(c) && Covered(c) && c.votesCnt + k < TWO63
    ensures EstimatedOracleReward(AfterVotes(c, k)) <= EstimatedOracleReward(c)
  {
    var d := AfterVotes(c, k);
    var m, s := OrZero(c.minPayment), Surplus(c, true);
    var n, n' := FinalCommittee(c.committeeSize, c.votesCnt), FinalCommittee(d.committeeSize, d.votesCnt);
    VotesKeepSurplus(c, k, true);
    SurplusBounds(c);
    EstimateIsPayout(c);
    EstimateIsPayout(d);
    PayoutsCompare(m, n', s, n, s, n);
    hide *;
  }

  lemma NotPositiveScaled(x: real, a: real)
    requires x <= 0.0 && 0.0 <= a
    ensures Part(x, a) <= 0.0
  {
  }

  lemma OwnerPartAtMost(u: real, ownerDeposit: Option<real>, fund: real, ownerFee: byte, share: real, balance: real)
    requires u <= balance && 0.0 <= OrZero(ownerDeposit) <= balance && 0.0 <= fund && 0.0 <= share <= 1.0
    ensures OwnerPart(u, ownerDeposit, fund, ownerFee, share) <= balance
  {
    hide Part;
    if ownerDeposit.None? {
      if u > 0.0 {
        Scaled(u, share, 1.0);
      } else {
        NotPositiveScaled(u, share);
      }
    } else if u - ownerDeposit.value - fund > 0.0 {
      Scaled(u - ownerDeposit.value - fund, share, 1.0);
    }
  }

  lemma OwnerWithinBalance(c: Contract)
    requires Sensible(c) && OrZero(c.ownerDeposit) <= c.balance
    ensures CurrentOwnerReward(c) <= c.balance
  {
    ShareBounds(c.ownerFee);
    var m, share := OrZero(c.minPayment), FeeShare(c.ownerFee, false);
    assert m * FromCount(c.votesCnt) >= 0.0;
    OwnerRewardIsOwnerPart(c.balance, c.ownerDeposit, c.oracleRewardFund, m, c.votesCnt, c.ownerFee, false);
    OwnerPartAtMost(c.balance - m * FromCount(c.votesCnt), c.ownerDeposit, OrZero(c.oracleRewardFund), c.ownerFee,
                    share, c.balance);
    hide OwnerReward, OwnerPart, FeeShare, FromCount;
  }

  /** Owner and oracles together get the balance, no more and no less. */
  lemma NoCoinsCreated(c: Contract)
    requires Sensible(c) && OrZero(c.ownerDeposit) <= c.balance
    ensures CurrentOwnerReward(c) + EstimatedTotalReward(c) == c.balance
  {
    OwnerWithinBalance(c);
    hide CurrentOwnerReward;
  }

  lemma RoundingError(x: real, w: nat)
    requires w >= 1
    ensures w as real * Div(x, w) <= x + w as real * (0.5 / SCALE)
  {
    var y := x / w as real * SCALE;
    var e := RoundHalfAway(y) as real - y;
    RoundError(y);
    assert Div(x, w) == (y + e) / SCALE;
    assert y / SCALE == x / w as real;
    assert Div(x, w) == x / w as real + e / SCALE;
    assert e / SCALE <= 0.5 / SCALE;
    var d := e / SCALE;
    assert w as real * (x / w as real + d) == x + w as real * d;
    assert w as real * d <= w as real * (0.5 / SCALE);
  }

  lemma PayoutsFitPool(pool: real, w: nat)
    requires w >= 1
    ensures w as real * Payout(pool, w) <= AtLeastZero(pool) + w as real * (0.5 / SCALE)
  {
    RoundingError(pool, w);
    assert w as real * (0.5 / SCALE) >= 0.0;
  }

  /** The pool that the maximal estimate divides. */
  function MaximumPool(c: Contract): real {
    var m := OrZero(c.minPayment);
    var q := MinVotes(c.committeeSize, c.quorum, c.votesCnt);
    var potential := PotentialBalance(c.balance, m, q, c.votesCnt);
    potential - OwnerReward(potential, c.ownerDeposit, c.oracleRewardFund, m, q, c.ownerFee, false)
  }

  lemma MaximumPoolForm(c: Contract)
    requires OrZero(c.minPayment) >= 0.0 && MinVotes(c.committeeSize, c.quorum, c.votesCnt) < TWO63
    ensures MaximumPool(c)
         == Pool(OrZero(c.minPayment), MinVotes(c.committeeSize, c.quorum, c.votesCnt), Surplus(c, false))
  {
    PoolIsLocksPlusSurplus(c, MinVotes(c.committeeSize, c.quorum, c.votesCnt), false);
    hide OwnerReward, PotentialBalance, Pool, Surplus, MinVotes;
  }

  lemma SensiblePayment(c: Contract)
    requires Sensible(c)
    ensures OrZero(c.minPayment) >= 0.0
  {
  }

  /** Paying every winner the maximal estimate takes at most the pool, up to the rounding of the last digit. */
  lemma WinnersPaidFromPool(c: Contract)
    requires Sensible(c) && 1 <= c.winnerThreshold <= 100
    ensures var w := Winners(MinVotes(c.committeeSize, c.quorum, c.votesCnt), c.winnerThreshold);
            EstimatedMaxOracleReward(c).Some? && w >= 1
            && w as real * EstimatedMaxOracleReward(c).value <= AtLeastZero(MaximumPool(c)) + w as real * (0.5 / SCALE)
  {
    hide *;
    QuorumWithinCommittee(c);
    SensiblePayment(c);
    var q := MinVotes(c.committeeSize, c.quorum, c.votesCnt);
    var w := Winners(q, c.winnerThreshold);
    WinnersBounds(q, c.winnerThreshold);
    MaximumIsPayout(c);
    MaximumPoolForm(c);
    PayoutsFitPool(MaximumPool(c), w);
  }

  // ---------------------------------------------------------------- the estimates written out

  /** The quorum size is the exact ceiling of a percentage, and 1 if nothing is required. */
  lemma QuorumIsCeiling(committeeSize: uint64, quorum: byte)
    ensures committeeSize * quorum == 0 ==> QuorumSize(committeeSize, quorum) == 1
    ensures committeeSize * quorum > 0 ==>
              100 * (QuorumSize(committeeSize, quorum) - 1) < committeeSize * quorum
              <= 100 * QuorumSize(committeeSize, quorum)
  {
    var product: nat := ProductOf(committeeSize, quorum);
    CeilingOf(product);
    assert QuorumSize(committeeSize, quorum)
        == if product % 100 > 0 || product / 100 == 0 then product / 100 + 1 else product / 100;
  }

  function ProductOf(n: nat, k: nat): nat {
    n * k
  }

  lemma CeilingOf(product: nat)
    ensures var size := product / 100;
      var n := if product % 100 > 0 || size == 0 then size + 1 else size;
      (product == 0 ==> n == 1) && (product > 0 ==> 100 * (n - 1) < product <= 100 * n)
  {
  }

  /** q is the least number of votes, at least 1, that reaches the quorum and is not below the votes there are. */
  predicate LeastQuorum(c: Contract, q: nat) {
    && q >= 1 && q >= c.votesCnt && 100 * q >= c.committeeSize * c.quorum
    && (q == 1 || q == c.votesCnt || 100 * (q - 1) < c.committeeSize * c.quorum)
  }

  lemma LeastQuorumIsMinVotes(c: Contract, q: nat)
    requires LeastQuorum(c, q)
    ensures MinVotes(c.committeeSize, c.quorum, c.votesCnt) == q
  {
    QuorumIsCeiling(c.committeeSize, c.quorum);
    var product := ProductOf(c.committeeSize, c.quorum);
    assert c.committeeSize * c.quorum == product;
    hide QuorumSize, ProductOf;
  }

  /** w is the least number of winners among q votes. */
  predicate LeastWinners(q: nat, winnerThreshold: byte, w: nat) {
    100 * (w - 1) < q * winnerThreshold <= 100 * w
  }

  lemma WinnersAreLeast(q: nat, winnerThreshold: byte, w: nat)
    requires q < TWO63 && LeastWinners(q, winnerThreshold, w)
    ensures Winners(q, winnerThreshold) == w
  {
    var x := Part(FromCount(q), winnerThreshold as real / 100.0);
    var product := ProductOf(q, winnerThreshold);
    assert FromCount(q) == q as real;
    assert x * 100.0 == (q as real) * (winnerThreshold as real) by {
      Hundredth(q as real, winnerThreshold as real);
    }
    assert (q as real) * (winnerThreshold as real) == (q * winnerThreshold) as real;
    assert x * 100.0 == product as real;
    assert (w - 1) as real < x <= w as real;
    hide Part, FromCount;
  }

  lemma Hundredth(x: real, y: real)
    ensures Part(x, y / 100.0) * 100.0 == x * y
  {
  }

  /** n is the number of oracles once the committee is complete: all its members, all who voted, and at least one. */
  predicate FullCommittee(c: Contract, n: nat) {
    && n >= 1 && n >= c.committeeSize && n >= c.votesCnt
    && (n == 1 || n == c.committeeSize || n == c.votesCnt)
  }

  /** r is x to 16 digits, half a digit rounded up, and 0 if x is negative. */
  ghost predicate IsRounded(r: real, x: real) {
    exists k: nat :: RoundedTo(k, r, x)
  }

  predicate RoundedTo(k: nat, r: real, x: real) {
    && r == k as real / 10_000_000_000_000_000.0
    && x * 10_000_000_000_000_000.0 < k as real + 0.5
    && (k > 0 ==> k as real - 0.5 <= x * 10_000_000_000_000_000.0)
  }

  lemma PayoutIsRounded(pool: real, n: int)
    requires n != 0
    ensures IsRounded(Payout(pool, n), pool / n as real)
  {
    var x := pool / n as real;
    var y := x * SCALE;
    var k: nat := Units(y);
    PayoutInUnits(pool, n);
    assert y < k as real + 0.5 && (k > 0 ==> k as real - 0.5 <= y) by {
      UnitsAtLeast(y, k + 1);
      if k > 0 {
        UnitsAtLeast(y, k);
      }
    }
    assert RoundedTo(k, Payout(pool, n), x);
  }

  lemma ShareOfFee(ownerFee: byte, ceil: bool)
    requires ownerFee <= 100
    ensures FeeShare(ownerFee, ceil) == if !ceil then ownerFee as real / 100.0 else if ownerFee > 0 then 1.0 else 0.0
  {
    if ownerFee > 0 {
      FullFee(ownerFee);
    }
  }

  lemma PartIsProduct(x: real, f: real)
    ensures Part(x, f) == f * x
  {
  }

  lemma OwnerPartIs(c: Contract, f: real, u: real, o: real)
    requires c.ownerFee == 0 ==> f == 0.0
    requires c.ownerDeposit.None? ==> o == f * u
    requires c.ownerDeposit.Some? ==>
               var d := c.ownerDeposit.value;
               var rest := u - d - (if c.oracleRewardFund.Some? then c.oracleRewardFund.value else 0.0);
               o == if rest > 0.0 then d + f * rest else d
    ensures OwnerPart(u, c.ownerDeposit, OrZero(c.oracleRewardFund), c.ownerFee, f) == o
  {
    hide Part;
    if c.ownerDeposit.None? {
      PartIsProduct(u, f);
    } else {
      PartIsProduct(u - c.ownerDeposit.value - OrZero(c.oracleRewardFund), f);
    }
  }

  lemma SurplusIs(c: Contract, ceil: bool, m: real, u: real, f: real)
    requires Sensible(c)
    requires m == if c.minPayment.Some? then c.minPayment.value else 0.0
    requires u == c.balance - m * c.votesCnt as real
    requires f == if !ceil then c.ownerFee as real / 100.0 else if c.ownerFee > 0 then 1.0 else 0.0
    ensures OrZero(c.minPayment) == m && Unlocked(c) == u
    ensures Surplus(c, ceil) == u - OwnerPart(u, c.ownerDeposit, OrZero(c.oracleRewardFund), c.ownerFee, f)
  {
    ShareOfFee(c.ownerFee, ceil);
    assert u == Unlocked(c);
    hide FeeShare, Unlocked, OwnerPart;
  }

  /**
   * The maximal estimate without any function of this module, for minimal payment m, unlocked balance u, and owner's
   * part o: q locks and what the owner leaves of u, divided by w winners and rounded to 16 digits.
   */
  lemma MaximumWrittenOut(c: Contract, q: nat, w: nat, m: real, u: real, o: real)
    requires Sensible(c) && 1 <= c.winnerThreshold <= 100
    requires LeastQuorum(c, q) && LeastWinners(q, c.winnerThreshold, w)
    requires m == if c.minPayment.Some? then c.minPayment.value else 0.0
    requires u == c.balance - m * c.votesCnt as real
    requires c.ownerDeposit.None? ==> o == (c.ownerFee as real / 100.0) * u
    requires c.ownerDeposit.Some? ==>
               var d := c.ownerDeposit.value;
               var rest := u - d - (if c.oracleRewardFund.Some? then c.oracleRewardFund.value else 0.0);
               o == if rest > 0.0 then d + (c.ownerFee as real / 100.0) * rest else d
    ensures w >= 1 && EstimatedMaxOracleReward(c).Some?
    ensures IsRounded(EstimatedMaxOracleReward(c).value, (m * q as real + (u - o)) / w as real)
  {
    hide *;
    var f := c.ownerFee as real / 100.0;
    SurplusIs(c, false, m, u, f);
    OwnerPartIs(c, f, u, o);
    MaximumRounded(c, q, w, m, u - o);
  }

  /** The estimate likewise: n locks, and a fee that is rounded up to everything. */
  lemma EstimateWrittenOut(c: Contract, n: nat, m: real, u: real, o: real)
    requires Sensible(c) && FullCommittee(c, n)
    requires m == if c.minPayment.Some? then c.minPayment.value else 0.0
    requires u == c.balance - m * c.votesCnt as real
    requires c.ownerDeposit.None? ==> o == if c.ownerFee > 0 then u else 0.0
    requires c.ownerDeposit.Some? ==>
               var d := c.ownerDeposit.value;
               var rest := u - d - (if c.oracleRewardFund.Some? then c.oracleRewardFund.value else 0.0);
               o == if rest > 0.0 && c.ownerFee > 0 then d + rest else d
    ensures n >= 1
    ensures IsRounded(EstimatedOracleReward(c), (m * n as real + (u - o)) / n as real)
  {
    hide *;
    var f := if c.ownerFee > 0 then 1.0 else 0.0;
    SurplusIs(c, true, m, u, f);
    OwnerPartIs(c, f, u, o);
    EstimateRounded(c, n, m, u - o);
  }

  lemma PoolRounded(m: real, n: nat, s: real, divisor: int)
    requires divisor != 0
    ensures IsRounded(Payout(Pool(m, n, s), divisor), (m * n as real + s) / divisor as real)
  {
    assert Pool(m, n, s) == m * n as real + s;
    PayoutIsRounded(m * n as real + s, divisor);
    hide IsRounded, Payout, Pool;
  }

  lemma MaximumRounded(c: Contract, q: nat, w: nat, m: real, s: real)
    requires Sensible(c) && 1 <= c.winnerThreshold <= 100
    requires LeastQuorum(c, q) && LeastWinners(q, c.winnerThreshold, w)
    requires m == OrZero(c.minPayment) && s == Surplus(c, false)
    ensures w >= 1 && EstimatedMaxOracleReward(c).Some?
    ensures IsRounded(EstimatedMaxOracleReward(c).value, (m * q as real + s) / w as real)
  {
    hide *;
    SensiblePayment(c);
    LeastQuorumIsMinVotes(c, q);
    QuorumWithinCommittee(c);
    MinVotesFit(c);
    WinnersAreLeast(q, c.winnerThreshold, w);
    WinnersBounds(q, c.winnerThreshold);
    MaximumIsPayout(c);
    PoolRounded(m, q, s, w);
  }

  lemma MinVotesFit(c: Contract)
    requires Sensible(c)
    ensures MinVotes(c.committeeSize, c.quorum, c.votesCnt) < TWO63
    ensures FinalCommittee(c.committeeSize, c.votesCnt) < TWO63
  {
    QuorumWithinCommittee(c);
    hide MinVotes;
  }

  lemma FullCommitteeIsFinal(c: Contract, n: nat)
    requires FullCommittee(c, n)
    ensures n >= 1 && FinalCommittee(c.committeeSize, c.votesCnt) == n
  {
  }

  lemma EstimateRounded(c: Contract, n: nat, m: real, s: real)
    requires Sensible(c) && FullCommittee(c, n)
    requires m == OrZero(c.minPayment) && s == Surplus(c, true)
    ensures n >= 1
    ensures IsRounded(EstimatedOracleReward(c), (m * n as real + s) / n as real)
  {
    hide *;
    FullCommitteeIsFinal(c, n);
    SensiblePayment(c);
    MinVotesFit(c);
    EstimateIsPayout(c);
    PoolRounded(m, n, s, n);
  }

  /**
   * What the owner gets from the balance as it is: the deposit, and the fee on what exceeds deposit, fund and locks;
   * without a deposit the fee on what exceeds the locks. The oracles share the rest.
   */
  lemma OwnerRewardWrittenOut(c: Contract, m: real, u: real, o: real)
    requires Sensible(c) && OrZero(c.ownerDeposit) <= c.balance
    requires m == if c.minPayment.Some? then c.minPayment.value else 0.0
    requires u == c.balance - m * c.votesCnt as real
    requires c.ownerDeposit.None? ==> o == (c.ownerFee as real / 100.0) * u
    requires c.ownerDeposit.Some? ==>
               var d := c.ownerDeposit.value;
               var rest := u - d - (if c.oracleRewardFund.Some? then c.oracleRewardFund.value else 0.0);
               o == if rest > 0.0 then d + (c.ownerFee as real / 100.0) * rest else d
    ensures CurrentOwnerReward(c) == o && EstimatedTotalReward(c) == c.balance - o
  {
    hide *;
    var f := c.ownerFee as real / 100.0;
    SurplusIs(c, false, m, u, f);
    OwnerPartIs(c, f, u, o);
    CurrentIsSurplus(c);
    NoCoinsCreated(c);
  }

  lemma CurrentIsSurplus(c: Contract)
    requires Sensible(c)
    ensures CurrentOwnerReward(c) == Unlocked(c) - Surplus(c, false)
  {
    var m := OrZero(c.minPayment);
    assert FromCount(c.votesCnt) == c.votesCnt as real;
    OwnerRewardIsOwnerPart(c.balance, c.ownerDeposit, c.oracleRewardFund, m, c.votesCnt, c.ownerFee, false);
    hide OwnerReward, OwnerPart, FeeShare, FromCount;
  }

  // ---------------------------------------------------------------- terms with numbers

  /** Ten oracles, a quorum of 55 percent, and no fee: the quorum is 6 and not 5. */
  const UNEVEN: Contract := Contract(100.0, Some(10.0), 0, 10, 55, 100, 0, None, None)

  lemma UnevenTerms()
    ensures Sensible(UNEVEN) && LeastQuorum(UNEVEN, 6) && LeastWinners(6, 100, 6)
    ensures UNEVEN.winnerThreshold == 100 && UNEVEN.ownerFee == 0 && UNEVEN.votesCnt == 0 && UNEVEN.balance == 100.0
    ensures UNEVEN.minPayment == Some(10.0) && UNEVEN.ownerDeposit.None?
  {
  }

  lemma UnevenMaximum()
    ensures EstimatedMaxOracleReward(UNEVEN) == Some(26.6666666666666667)
  {
    hide *;
    UnevenTerms();
    MaximumWrittenOut(UNEVEN, 6, 6, 10.0, 100.0, 0.0);
    assert (10.0 * 6 as real + (100.0 - 0.0)) / 6 as real == 160.0 / 6.0;
    RoundedValue(EstimatedMaxOracleReward(UNEVEN).value, 160.0 / 6.0, 266_666_666_666_666_667);
  }

  lemma RoundedValue(r: real, x: real, k: nat)
    requires IsRounded(r, x)
    requires k as real - 0.5 <= x * 10_000_000_000_000_000.0 < k as real + 0.5
    ensures r == k as real / 10_000_000_000_000_000.0
  {
    var i: nat :| RoundedTo(i, r, x);
    assert i == k;
  }

  /** A deposit, a fund, a fee of 10 percent, 5 votes of 10, and half of the voters winning. */
  const TERMS: Contract := Contract(1000.0, Some(10.0), 10, 10, 20, 50, 5, Some(100.0), Some(200.0))

  lemma TermsTerms()
    ensures Sensible(TERMS) && LeastQuorum(TERMS, 5) && LeastWinners(5, 50, 3) && FullCommittee(TERMS, 10)
    ensures TERMS.winnerThreshold == 50 && TERMS.ownerFee == 10 && TERMS.votesCnt == 5 && TERMS.balance == 1000.0
    ensures TERMS.minPayment == Some(10.0) && TERMS.ownerDeposit == Some(100.0) && TERMS.oracleRewardFund == Some(200.0)
    ensures OrZero(TERMS.ownerDeposit) == 100.0
  {
  }

  /** The owner gets 100 back and 10 percent of 650; 3 winners share the rest, or 10 oracles what a full fee leaves. */
  lemma TermsEstimates()
    ensures CurrentOwnerReward(TERMS) == 165.0 && EstimatedTotalReward(TERMS) == 835.0
    ensures EstimatedMaxOracleReward(TERMS) == Some(278.3333333333333333)
    ensures EstimatedOracleReward(TERMS) == 30.0
  {
    hide *;
    TermsTerms();
    assert (10 as real / 100.0) * 650.0 == 65.0;
    OwnerRewardWrittenOut(TERMS, 10.0, 950.0, 165.0);
    MaximumWrittenOut(TERMS, 5, 3, 10.0, 950.0, 165.0);
    EstimateWrittenOut(TERMS, 10, 10.0, 950.0, 750.0);
    assert (10.0 * 5 as real + (950.0 - 165.0)) / 3 as real == 835.0 / 3.0;
    assert (10.0 * 10 as real + (950.0 - 750.0)) / 10 as real == 30.0;
    RoundedValue(EstimatedMaxOracleReward(TERMS).value, 835.0 / 3.0, 2_783_333_333_333_333_333);
    RoundedValue(EstimatedOracleReward(TERMS), 30.0, 300_000_000_000_000_000);
  }
}
