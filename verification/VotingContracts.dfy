/** Reading oracle voting contracts from joined rows: grouping, time estimates and reward estimates. */
module VotingContracts {
  import opened GoInts
  import opened Options
  import opened RowGroups
  import Rewards = OracleRewards

  datatype VotingState = Pending | Open | Voted | Counting | CanBeProlonged | Archive | Terminated | OtherState

  /** One joined row: a contract, and one of its options if there are votes for it. */
  datatype Row = Row(token: string, address: string, state: VotingState,
                     option: Option<int64>, optionVotes: int64, optionAllVotes: int64,
                     startTime: int64, headHeight: uint64, headTimestamp: int64,
                     countingBlock: Option<int64>, publicVotingDuration: uint64,
                     stake: real, terms: Rewards.Contract)

  datatype OptionVotes = OptionVotes(option: byte, count: uint64, allCount: uint64)

  datatype Estimates = Estimates(votingFinish: Option<int>, publicVotingFinish: Option<int>, termination: Option<int>,
                                 oracleReward: Option<real>, maxOracleReward: Option<real>, totalReward: Option<real>)

  datatype Item = Item(first: Row, votes: seq<OptionVotes>, estimates: Estimates)

  datatype Failure = NetworkSizeError | DivisionByZero

  datatype Outcome = Items(items: seq<Item>, lastToken: string) | Failed(failure: Failure)

  /** The rounded cube root of the stake's share of the network, in days; left abstract. */
  type TerminationDays = (real, uint64) -> uint64

  // ---------------------------------------------------------------- time estimates, in nanoseconds

  const SECOND: int := 1_000_000_000

  /** time.Second * 20 * blocks, before any wrap-around. */
  function BlockTime(blocks: int): int {
    blocks * 20_000_000_000
  }

  function BlocksIn(days: int): int {
    days * 4320
  }

  function Timestamp(seconds: int64): int {
    seconds * SECOND
  }

  function BlocksToFinish(row: Row): uint64
    requires row.countingBlock.Some?
  {
    Uint64(Uint64(row.countingBlock.value) - row.headHeight)
  }

  function BlocksToPublicFinish(row: Row): uint64
    requires row.countingBlock.Some?
  {
    Uint64(BlocksToFinish(row) + row.publicVotingDuration)
  }

  function BlocksToTermination(row: Row, days: uint64): uint64
    requires row.countingBlock.Some?
  {
    Uint64(BlocksToPublicFinish(row) + Uint64(BlocksIn(days)))
  }

  /** headBlockTime.Add(time.Second * 20 * time.Duration(blocks)). */
  function TimeAfter(row: Row, blocks: uint64): int {
    Timestamp(row.headTimestamp) + Int64(BlockTime(Int64(blocks)))
  }

  /** The exact time of a signed number of blocks after the head block. */
  function ExactTimeAfter(row: Row, blocks: int): int {
    Timestamp(row.headTimestamp) + BlockTime(blocks)
  }

  predicate FitsDuration(blocks: int) {
    -TWO63 <= BlockTime(blocks) < TWO63
  }

  /** The wrapping subtraction is undone by the signed conversion: the time is exact exactly when it fits. */
  lemma TimeIsExact(row: Row, blocks: int)
    ensures TimeAfter(row, Uint64(blocks)) == ExactTimeAfter(row, blocks) <==> FitsDuration(blocks)
  {
    WrappedProduct(blocks, 20_000_000_000);
    Int64Exact(BlockTime(blocks));
  }

  lemma BlocksAreSums(row: Row, days: uint64)
    requires row.countingBlock.Some?
    ensures var n := row.countingBlock.value - row.headHeight;
            && BlocksToFinish(row) == Uint64(n)
            && BlocksToPublicFinish(row) == Uint64(n + row.publicVotingDuration)
            && BlocksToTermination(row, days) == Uint64(n + row.publicVotingDuration + BlocksIn(days))
  {
    var n := row.countingBlock.value - row.headHeight;
    var d: int := BlocksIn(days);
    UintSum(row.countingBlock.value, n - row.countingBlock.value);
    UintSum(n, row.publicVotingDuration);
    UintSum(n + row.publicVotingDuration, d);
    UintSum(d, BlocksToPublicFinish(row));
  }

  lemma UintSum(a: int, b: int)
    ensures Uint64(Uint64(a) + b) == Uint64(a + b)
  {
    SameModulo(a + b, -(a / TWO64));
  }

  /** All three estimates as exact times, and their order, even when the head is beyond the counting block. */
  lemma EstimatesAreExactAndOrdered(row: Row, days: uint64)
    requires row.countingBlock.Some?
    requires var n := row.countingBlock.value - row.headHeight;
             FitsDuration(n) && FitsDuration(n + row.publicVotingDuration + BlocksIn(days))
    ensures var n := row.countingBlock.value - row.headHeight;
            var voting, public := TimeAfter(row, BlocksToFinish(row)), TimeAfter(row, BlocksToPublicFinish(row));
            var termination := TimeAfter(row, BlocksToTermination(row, days));
            && voting == ExactTimeAfter(row, n)
            && public == ExactTimeAfter(row, n + row.publicVotingDuration)
            && termination == ExactTimeAfter(row, n + row.publicVotingDuration + BlocksIn(days))
            && voting <= public <= termination
  {
    var n := row.countingBlock.value - row.headHeight;
    var p, d := n + row.publicVotingDuration, n + row.publicVotingDuration + BlocksIn(days);
    assert FitsDuration(p);
    BlocksAreSums(row, days);
    hide Uint64, Int64, TimeAfter, BlocksToFinish, BlocksToPublicFinish, BlocksToTermination;
    TimeIsExact(row, n);
    TimeIsExact(row, p);
    TimeIsExact(row, d);
  }

  // ---------------------------------------------------------------- the item of a group

  predicate NeedsNetworkSize(row: Row) {
    row.countingBlock.Some? &&
    (row.state.Open? || row.state.Voted? || row.state.Counting? || row.state.CanBeProlonged? || row.state.Archive?)
  }

  predicate HasRewards(row: Row) {
    row.state.Pending? || row.state.Open? || row.state.Voted? || row.state.Counting? || row.state.CanBeProlonged?
  }

  /** Why reading stops at the first row of a group, if it does. */
  function FailureAt(row: Row, networkSize: Option<uint64>): Option<Failure> {
    if NeedsNetworkSize(row) && networkSize.None? then Some(NetworkSizeError)
    else if HasRewards(row) && Rewards.EstimatedMaxOracleReward(row.terms).None? then Some(DivisionByZero)
    else None
  }

  function EstimatesOf(row: Row, networkSize: Option<uint64>, terminationDays: TerminationDays): Estimates
    requires FailureAt(row, networkSize).None?
  {
    var timed := NeedsNetworkSize(row);
    Estimates(
      if timed && (row.state.Open? || row.state.Voted?) then Some(TimeAfter(row, BlocksToFinish(row))) else None,
      if timed && !row.state.Archive? then Some(TimeAfter(row, BlocksToPublicFinish(row))) else None,
      if timed then Some(TimeAfter(row, BlocksToTermination(row, terminationDays(row.stake, networkSize.value))))
      else if row.state.Pending? then Some(Timestamp(row.startTime) + 30 * 24 * 3600 * SECOND)
      else None,
      if HasRewards(row) then Some(Rewards.EstimatedOracleReward(row.terms)) else None,
      if HasRewards(row) then Rewards.EstimatedMaxOracleReward(row.terms) else None,
      if HasRewards(row) then Some(Rewards.EstimatedTotalReward(row.terms)) else None)
  }

  lemma ExactTimeIs(row: Row, blocks: int)
    ensures ExactTimeAfter(row, blocks) == row.headTimestamp * 1_000_000_000 + blocks * 20_000_000_000
  {
  }

  /** Which estimates an item has, by its state and whether its counting block is known. */
  lemma WhichEstimates(row: Row, networkSize: Option<uint64>, terminationDays: TerminationDays)
    requires FailureAt(row, networkSize).None?
    ensures var e, state, counted := EstimatesOf(row, networkSize, terminationDays), row.state, row.countingBlock.Some?;
      && (e.votingFinish.Some? <==> counted && state in {Open, Voted})
      && (e.publicVotingFinish.Some? <==> counted && state in {Open, Voted, Counting, CanBeProlonged})
      && (e.termination.Some? <==>
            (counted && state in {Open, Voted, Counting, CanBeProlonged, Archive}) || state == Pending)
      && (state == Pending ==> e.termination == Some((row.startTime + 2_592_000) * 1_000_000_000))
      && (if state in {Pending, Open, Voted, Counting, CanBeProlonged}
          then e.oracleReward == Some(Rewards.EstimatedOracleReward(row.terms))
               && e.maxOracleReward == Rewards.EstimatedMaxOracleReward(row.terms)
               && e.totalReward == Some(Rewards.EstimatedTotalReward(row.terms))
          else e.oracleReward.None? && e.maxOracleReward.None? && e.totalReward.None?)
  {
    hide TimeAfter, BlocksToFinish, BlocksToPublicFinish, BlocksToTermination,
         Rewards.EstimatedOracleReward, Rewards.EstimatedMaxOracleReward, Rewards.EstimatedTotalReward;
  }

  /** Why a row cannot be estimated: the network size is needed and cannot be loaded, or nobody would win. */
  lemma WhichFailure(row: Row, networkSize: Option<uint64>)
    ensures FailureAt(row, networkSize) == Some(NetworkSizeError) <==>
              && row.countingBlock.Some? && row.state in {Open, Voted, Counting, CanBeProlonged, Archive}
              && networkSize.None?
    ensures FailureAt(row, networkSize) == Some(DivisionByZero) ==>
              && row.state in {Pending, Open, Voted, Counting, CanBeProlonged}
              && Rewards.EstimatedMaxOracleReward(row.terms).None?
    ensures FailureAt(row, networkSize).None? && row.state in {Pending, Open, Voted, Counting, CanBeProlonged} ==>
              Rewards.EstimatedMaxOracleReward(row.terms).Some?
  {
    hide Rewards.EstimatedMaxOracleReward;
  }

  /** Each finish an item promises comes with the later ones, is the exact time, and is not after them. */
  lemma FinishesInOrder(row: Row, networkSize: Option<uint64>, terminationDays: TerminationDays)
    requires FailureAt(row, networkSize).None?
    requires NeedsNetworkSize(row) ==>
               var n := row.countingBlock.value - row.headHeight;
               var days := terminationDays(row.stake, networkSize.value);
               && -TWO63 <= n * 20_000_000_000
               && (n + row.publicVotingDuration + days * 4320) * 20_000_000_000 < TWO63
    ensures var e := EstimatesOf(row, networkSize, terminationDays);
            && (e.votingFinish.Some? ==>
                  && e.publicVotingFinish.Some? && e.votingFinish.value <= e.publicVotingFinish.value
                  && e.votingFinish.value
                     == row.headTimestamp * 1_000_000_000 + (row.countingBlock.value - row.headHeight) * 20_000_000_000)
            && (e.publicVotingFinish.Some? ==>
                  && e.termination.Some? && e.publicVotingFinish.value <= e.termination.value
                  && e.publicVotingFinish.value
                     == row.headTimestamp * 1_000_000_000
                        + (row.countingBlock.value - row.headHeight + row.publicVotingDuration) * 20_000_000_000)
            && (NeedsNetworkSize(row) ==>
                  var blocks := row.countingBlock.value - row.headHeight + row.publicVotingDuration;
                  var days := terminationDays(row.stake, networkSize.value);
                  e.termination
                  == Some(row.headTimestamp * 1_000_000_000 + (blocks + days * 4320) * 20_000_000_000))
  {
    if NeedsNetworkSize(row) {
      EstimatesAreExactAndOrdered(row, terminationDays(row.stake, networkSize.value));
      var n := row.countingBlock.value - row.headHeight;
      ExactTimeIs(row, n);
      ExactTimeIs(row, n + row.publicVotingDuration);
      ExactTimeIs(row, n + row.publicVotingDuration + terminationDays(row.stake, networkSize.value) * 4320);
    }
    hide TimeAfter, ExactTimeAfter, BlocksToFinish, BlocksToPublicFinish, BlocksToTermination, FitsDuration, HasRewards,
         Rewards.EstimatedOracleReward, Rewards.EstimatedMaxOracleReward, Rewards.EstimatedTotalReward;
  }

  /** An item has all its reward estimates or none, and what they promise is covered by the balance. */
  lemma RewardsInOrder(row: Row, networkSize: Option<uint64>, terminationDays: TerminationDays)
    requires FailureAt(row, networkSize).None?
    requires Rewards.Sensible(row.terms) && Rewards.Covered(row.terms) && 1 <= row.terms.winnerThreshold <= 100
    requires Rewards.OrZero(row.terms.ownerDeposit) <= row.terms.balance
    ensures var e := EstimatesOf(row, networkSize, terminationDays);
            && (e.oracleReward.Some? <==> e.maxOracleReward.Some?) && (e.oracleReward.Some? <==> e.totalReward.Some?)
            && (e.oracleReward.Some? ==>
                  && e.oracleReward.value <= e.maxOracleReward.value
                  && e.totalReward.value == row.terms.balance - Rewards.CurrentOwnerReward(row.terms))
  {
    Rewards.EstimateWithinMaximum(row.terms);
    Rewards.NoCoinsCreated(row.terms);
    hide TimeAfter, BlocksToFinish, BlocksToPublicFinish, BlocksToTermination, NeedsNetworkSize, Rewards.Sensible,
         Rewards.Covered, Rewards.CurrentOwnerReward, Rewards.EstimatedOracleReward, Rewards.EstimatedMaxOracleReward,
         Rewards.EstimatedTotalReward;
  }

  function VotesOfRow(row: Row): seq<OptionVotes> {
    if row.option.Some?
    then [OptionVotes(row.option.value % 256, Uint64(row.optionVotes), Uint64(row.optionAllVotes))]
    else []
  }

  function VotesOf(rows: seq<Row>): seq<OptionVotes> {
    if rows == [] then [] else VotesOf(rows[..|rows| - 1]) + VotesOfRow(rows[|rows| - 1])
  }

  /** A row has the votes of its option as they are, as long as they fit their columns. */
  lemma VotesAsTheyAre(row: Row)
    ensures row.option.None? ==> VotesOfRow(row) == []
    ensures row.option.Some? && 0 <= row.option.value < 256 && row.optionVotes >= 0 && row.optionAllVotes >= 0 ==>
              VotesOfRow(row) == [OptionVotes(row.option.value, row.optionVotes, row.optionAllVotes)]
  {
  }

  /** The item of a group: everything but the votes comes from its first row. */
  ghost function ItemOf(g: seq<Row>, networkSize: Option<uint64>, terminationDays: TerminationDays): Item
    requires g != [] && FailureAt(g[0], networkSize).None?
  {
    Item(g[0], VotesOf(g), EstimatesOf(g[0], networkSize, terminationDays))
  }

  ghost function Address(): Row -> string {
    (row: Row) => row.address
  }

  ghost function FirstFailure(gs: seq<seq<Row>>, networkSize: Option<uint64>): Option<Failure>
    requires NonEmpty(gs)
  {
    if gs == [] then None
    else
      var earlier := FirstFailure(gs[..|gs| - 1], networkSize);
      if earlier.Some? then earlier else FailureAt(gs[|gs| - 1][0], networkSize)
  }

  ghost function ItemsOf(gs: seq<seq<Row>>, networkSize: Option<uint64>, terminationDays: TerminationDays)
    : (r: seq<Item>)
    requires NonEmpty(gs) && FirstFailure(gs, networkSize).None?
    ensures |r| == |gs|
  {
    if gs == [] then []
    else ItemsOf(gs[..|gs| - 1], networkSize, terminationDays)
         + [ItemOf(gs[|gs| - 1], networkSize, terminationDays)]
  }

  // ---------------------------------------------------------------- the loop

  /** What the loop has read so far. */
  ghost predicate ReadSoFar(rows: seq<Row>, res: seq<Item>, curItem: Option<Item>,
                            networkSize: Option<uint64>, terminationDays: TerminationDays)
  {
    var gs := Groups(rows, Address());
    && FirstFailure(gs, networkSize).None?
    && (curItem.None? <==> rows == [])
    && (curItem.None? ==> res == [])
    && (curItem.Some? ==> res + [curItem.value] == ItemsOf(gs, networkSize, terminationDays))
  }

  lemma GroupsStep(rows: seq<Row>, row: Row)
    ensures Groups(rows + [row], Address()) == AddRow(Groups(rows, Address()), row, Address())
  {
    assert (rows + [row])[..|rows|] == rows;
  }

  lemma AllRead(rows: seq<Row>, res: seq<Item>, curItem: Option<Item>,
                networkSize: Option<uint64>, terminationDays: TerminationDays)
    requires ReadSoFar(rows, res, curItem, networkSize, terminationDays)
    ensures IsReadingOf(Items(if curItem.Some? then res + [curItem.value] else res, LastToken(rows)), rows,
                        networkSize, terminationDays)
  {
  }

  /** Extending the last run changes the votes of the last item only. */
  lemma LongerRunItems(gs: seq<seq<Row>>, row: Row, networkSize: Option<uint64>, terminationDays: TerminationDays)
    requires gs != [] && NonEmpty(gs) && FirstFailure(gs, networkSize).None?
    ensures var n := |gs| - 1;
            var longer := gs[..n] + [gs[n] + [row]];
            var items := ItemsOf(gs, networkSize, terminationDays);
            && FirstFailure(longer, networkSize).None?
            && ItemsOf(longer, networkSize, terminationDays)
               == items[..n] + [items[n].(votes := items[n].votes + VotesOfRow(row))]
            && items[n].first == gs[n][0]
  {
    var n := |gs| - 1;
    var longer := gs[..n] + [gs[n] + [row]];
    hide FailureAt, EstimatesOf, VotesOfRow;
    assert longer[..n] == gs[..n] && longer[n] == gs[n] + [row] && longer[n][0] == gs[n][0];
    assert (gs[n] + [row])[..|gs[n]|] == gs[n];
    assert ItemsOf(gs, networkSize, terminationDays)[..n] == ItemsOf(gs[..n], networkSize, terminationDays);
  }

  /** A row of the current contract only adds its votes. */
  lemma SameContract(rows: seq<Row>, row: Row, res: seq<Item>, cur: Item,
                     networkSize: Option<uint64>, terminationDays: TerminationDays)
    requires ReadSoFar(rows, res, Some(cur), networkSize, terminationDays) && !Starts(row, Some(cur))
    ensures ReadSoFar(rows + [row], res, Some(cur.(votes := cur.votes + VotesOfRow(row))), networkSize, terminationDays)
  {
    var gs := Groups(rows, Address());
    var items := ItemsOf(gs, networkSize, terminationDays);
    GroupsStep(rows, row);
    LongerRunItems(gs, row, networkSize, terminationDays);
    hide Groups, ItemsOf, FirstFailure, VotesOfRow;
    assert items == res + [cur] && items[..|gs| - 1] == res && items[|gs| - 1] == cur;
  }

  /** A row of another contract flushes the current one. */
  lemma NextContract(rows: seq<Row>, row: Row, res: seq<Item>, curItem: Option<Item>,
                     networkSize: Option<uint64>, terminationDays: TerminationDays)
    requires ReadSoFar(rows, res, curItem, networkSize, terminationDays)
    requires Starts(row, curItem)
    ensures FirstFailure(Groups(rows + [row], Address()), networkSize) == FailureAt(row, networkSize)
    ensures FailureAt(row, networkSize).None? ==>
              ReadSoFar(rows + [row], if curItem.Some? then res + [curItem.value] else res,
                        Some(Item(row, VotesOfRow(row), EstimatesOf(row, networkSize, terminationDays))),
                        networkSize, terminationDays)
  {
    var gs := Groups(rows, Address());
    GroupsStep(rows, row);
    if curItem.Some? {
      var n := |gs| - 1;
      assert ItemsOf(gs, networkSize, terminationDays)[n] == ItemOf(gs[n], networkSize, terminationDays);
    }
    assert Groups(rows + [row], Address()) == gs + [[row]];
    assert (gs + [[row]])[..|gs|] == gs;
    assert [row][..0] == [] && VotesOf([row]) == VotesOfRow(row);
  }

  ghost predicate Starts(row: Row, curItem: Option<Item>) {
    curItem.None? || curItem.value.first.address != row.address
  }

  /** The first part of the loop body: flushes the current item when the contract changes, and appends the votes. */
  method TakeRow(row: Row, res: seq<Item>, curItem: Option<Item>)
    returns (res': seq<Item>, curItem': Option<Item>, isFirst: bool)
    ensures isFirst == Starts(row, curItem) && curItem'.Some?
    ensures isFirst ==> res' == (if curItem.Some? then res + [curItem.value] else res)
                        && curItem'.value.first == row && curItem'.value.votes == VotesOfRow(row)
    ensures !isFirst ==> res' == res && curItem.Some?
                         && curItem'.value == curItem.value.(votes := curItem.value.votes + VotesOfRow(row))
  {
    res', curItem', isFirst := res, curItem, false;
    if curItem'.None? || curItem'.value.first.address != row.address {
      if curItem'.Some? {
        res' := res' + [curItem'.value];
      }
      curItem' := Some(Item(row, [], Estimates(None, None, None, None, None, None)));
      isFirst := true;
    }
    if row.option.Some? {
      var votes := OptionVotes(row.option.value % 256, Uint64(row.optionVotes), Uint64(row.optionAllVotes));
      curItem' := Some(curItem'.value.(votes := curItem'.value.votes + [votes]));
    }
  }

  /** The part of the loop body that only a contract's first row reaches. */
  method Estimate(row: Row, networkSize: Option<uint64>, terminationDays: TerminationDays)
    returns (failure: Option<Failure>, estimates: Estimates)
    ensures failure == FailureAt(row, networkSize)
    ensures failure.None? ==> estimates == EstimatesOf(row, networkSize, terminationDays)
  {
    hide TimeAfter, Rewards.EstimatedOracleReward, Rewards.EstimatedMaxOracleReward, Rewards.EstimatedTotalReward;
    estimates := Estimates(None, None, None, None, None, None);
    if NeedsNetworkSize(row) {
      if networkSize.None? {
        return Some(NetworkSizeError), estimates;
      }
      var days := terminationDays(row.stake, networkSize.value);
      estimates := estimates.(termination := Some(TimeAfter(row, BlocksToTermination(row, days))));
      if !row.state.Archive? {
        estimates := estimates.(publicVotingFinish := Some(TimeAfter(row, BlocksToPublicFinish(row))));
        if row.state.Open? || row.state.Voted? {
          estimates := estimates.(votingFinish := Some(TimeAfter(row, BlocksToFinish(row))));
        }
      }
    }
    if row.state.Pending? && estimates.termination.None? {
      estimates := estimates.(termination := Some(Timestamp(row.startTime) + 24 * 30 * 3600 * SECOND));
    }
    if HasRewards(row) {
      var maxOracleReward := Rewards.EstimatedMaxOracleReward(row.terms);
      if maxOracleReward.None? {
        return Some(DivisionByZero), estimates;
      }
      estimates := estimates.(oracleReward := Some(Rewards.EstimatedOracleReward(row.terms)),
                              maxOracleReward := maxOracleReward,
                              totalReward := Some(Rewards.EstimatedTotalReward(row.terms)));
    }
    return None, estimates;
  }

  lemma SizeOnlyMattersIfNeeded(row: Row, networkSize: Option<uint64>, loaded: Option<uint64>,
                                terminationDays: TerminationDays)
    requires NeedsNetworkSize(row) ==> networkSize == loaded
    ensures FailureAt(row, networkSize) == FailureAt(row, loaded)
    ensures FailureAt(row, loaded).None? ==>
              EstimatesOf(row, networkSize, terminationDays) == EstimatesOf(row, loaded, terminationDays)
  {
  }

  ghost predicate IsReadingOf(outcome: Outcome, rows: seq<Row>, networkSize: Option<uint64>,
                              terminationDays: TerminationDays)
  {
    var gs := Groups(rows, Address());
    match FirstFailure(gs, networkSize)
    case Some(failure) => outcome == Failed(failure)
    case None => outcome == Items(ItemsOf(gs, networkSize, terminationDays), LastToken(rows))
  }

  function LastToken(rows: seq<Row>): string {
    if rows == [] then "" else rows[|rows| - 1].token
  }

  /**
   * One pass over the rows: one item for each maximal run of rows of one contract, unless the first row of some run
   * cannot be estimated, and then the earliest such row decides the failure.
   */
  method ReadOracleVotingContracts(rows: seq<Row>, loaded: Option<uint64>, terminationDays: TerminationDays)
    returns (outcome: Outcome, ghost loads: nat)
    ensures IsReadingOf(outcome, rows, loaded, terminationDays)
    ensures outcome.Items? && rows != [] ==> outcome.lastToken == rows[|rows| - 1].token
    ensures loads <= 1
  {
    var res: seq<Item> := [];
    var lastContinuationToken := "";
    var curItem: Option<Item> := None;
    var isFirst := false;
    var networkSize: Option<uint64> := None;
    loads := 0;
    assert ReadSoFar(rows[..0], res, curItem, loaded, terminationDays);
    assert LastToken(rows[..0]) == "";
    hide *;
    for i := 0 to |rows|
      invariant ReadSoFar(rows[..i], res, curItem, loaded, terminationDays)
      invariant lastContinuationToken == LastToken(rows[..i])
      invariant !isFirst
      invariant loads == (if networkSize.Some? then 1 else 0) && (networkSize.Some? ==> networkSize == loaded)
    {
      var row := rows[i];
      ghost var before, beforeItem := res, curItem;
      assert rows[..i + 1] == rows[..i] + [row];
      lastContinuationToken := row.token;
      assert LastToken(rows[..i] + [row]) == row.token;
      res, curItem, isFirst := TakeRow(row, res, curItem);
      if isFirst {
        NextContract(rows[..i], row, before, beforeItem, loaded, terminationDays);
      } else {
        SameContract(rows[..i], row, before, beforeItem.value, loaded, terminationDays);
      }
      if !isFirst {
        continue;
      }
      if networkSize.None? && NeedsNetworkSize(row) {
        loads := loads + 1;
        networkSize := loaded;
      }
      var failure, estimates := Estimate(row, networkSize, terminationDays);
      SizeOnlyMattersIfNeeded(row, networkSize, loaded, terminationDays);
      if failure.Some? {
        FailedAt(rows, i + 1, loaded, terminationDays);
        return Failed(failure.value), loads;
      }
      curItem := Some(curItem.value.(estimates := estimates));
      isFirst := false;
    }
    assert rows[..|rows|] == rows;
    AllRead(rows, res, curItem, loaded, terminationDays);
    if curItem.Some? {
      res := res + [curItem.value];
    }
    outcome := Items(res, lastContinuationToken);
    LastTokenIs(rows);
  }

  lemma LastTokenIs(rows: seq<Row>)
    ensures rows != [] ==> LastToken(rows) == rows[|rows| - 1].token
  {
  }

  /** The failure of a reading is that of the first group that cannot be estimated. */
  lemma {:induction false} FirstFailureIs(gs: seq<seq<Row>>, networkSize: Option<uint64>) returns (i: nat)
    requires NonEmpty(gs)
    ensures i <= |gs| && forall j :: 0 <= j < i ==> FailureAt(gs[j][0], networkSize).None?
    ensures FirstFailure(gs, networkSize) == if i < |gs| then FailureAt(gs[i][0], networkSize) else None
    ensures i < |gs| ==> FailureAt(gs[i][0], networkSize).Some?
  {
    hide FailureAt;
    if gs == [] {
      i := 0;
    } else {
      var n := |gs| - 1;
      i := FirstFailureIs(gs[..n], networkSize);
      assert forall j :: 0 <= j < n ==> gs[..n][j] == gs[j];
      if i == n && FailureAt(gs[n][0], networkSize).None? {
        i := |gs|;
      }
    }
  }

  lemma FailedAt(rows: seq<Row>, n: nat, networkSize: Option<uint64>, terminationDays: TerminationDays)
    requires n <= |rows| && FirstFailure(Groups(rows[..n], Address()), networkSize).Some?
    ensures IsReadingOf(Failed(FirstFailure(Groups(rows[..n], Address()), networkSize).value), rows,
                        networkSize, terminationDays)
  {
    EarliestFailure(rows, n, networkSize);
  }

  /** Later rows do not change the earliest failure. */
  lemma {:induction false} EarliestFailure(rows: seq<Row>, n: nat, networkSize: Option<uint64>)
    requires n <= |rows| && FirstFailure(Groups(rows[..n], Address()), networkSize).Some?
    ensures FirstFailure(Groups(rows, Address()), networkSize)
         == FirstFailure(Groups(rows[..n], Address()), networkSize)
    decreases |rows|
  {
    if n == |rows| {
      assert rows[..n] == rows;
    } else {
      var front, row := rows[..|rows| - 1], rows[|rows| - 1];
      assert front[..n] == rows[..n];
      EarliestFailure(front, n, networkSize);
      FailureStays(Groups(front, Address()), row, networkSize);
    }
  }

  lemma FailureStays(gs: seq<seq<Row>>, row: Row, networkSize: Option<uint64>)
    requires NonEmpty(gs) && FirstFailure(gs, networkSize).Some?
    ensures FirstFailure(AddRow(gs, row, Address()), networkSize) == FirstFailure(gs, networkSize)
  {
    var more := AddRow(gs, row, Address());
    if |more| > |gs| {
      assert more[..|gs|] == gs;
    } else {
      assert more[..|gs| - 1] == gs[..|gs| - 1] && more[|gs| - 1][0] == gs[|gs| - 1][0];
    }
  }

  // ---------------------------------------------------------------- what the items are

  ghost function AllVotes(items: seq<Item>): seq<OptionVotes> {
    if items == [] then [] else AllVotes(items[..|items| - 1]) + items[|items| - 1].votes
  }

  lemma {:induction false} VotesOfConcat(a: seq<Row>, b: seq<Row>)
    ensures VotesOf(a + b) == VotesOf(a) + VotesOf(b)
  {
    if b == [] {
      assert a + b == a;
    } else {
      assert (a + b)[..|a + b| - 1] == a + b[..|b| - 1];
      VotesOfConcat(a, b[..|b| - 1]);
    }
  }

  lemma {:induction false} VotesOfGroups(gs: seq<seq<Row>>, networkSize: Option<uint64>,
                                         terminationDays: TerminationDays)
    requires NonEmpty(gs) && FirstFailure(gs, networkSize).None?
    ensures AllVotes(ItemsOf(gs, networkSize, terminationDays)) == VotesOf(Flatten(gs))
  {
    if gs != [] {
      var front := gs[..|gs| - 1];
      VotesOfGroups(front, networkSize, terminationDays);
      VotesOfConcat(Flatten(front), gs[|gs| - 1]);
      var items := ItemsOf(gs, networkSize, terminationDays);
      assert items[..|gs| - 1] == ItemsOf(front, networkSize, terminationDays);
    }
  }

  lemma {:induction false} ItemAt(gs: seq<seq<Row>>, networkSize: Option<uint64>, terminationDays: TerminationDays,
                                  i: nat)
    requires NonEmpty(gs) && FirstFailure(gs, networkSize).None? && i < |gs|
    ensures FailureAt(gs[i][0], networkSize).None?
    ensures ItemsOf(gs, networkSize, terminationDays)[i] == ItemOf(gs[i], networkSize, terminationDays)
  {
    if i < |gs| - 1 {
      ItemAt(gs[..|gs| - 1], networkSize, terminationDays, i);
    }
  }

  /** No vote is lost or repeated, and neighbouring items are different contracts. */
  lemma ItemsReproduceRows(rows: seq<Row>, networkSize: Option<uint64>, terminationDays: TerminationDays)
    requires FirstFailure(Groups(rows, Address()), networkSize).None?
    ensures var items := ItemsOf(Groups(rows, Address()), networkSize, terminationDays);
            && AllVotes(items) == VotesOf(rows)
            && (forall i, j :: 0 <= i && j == i + 1 && j < |items| ==>
                  items[i].first.address != items[j].first.address)
  {
    var gs := Groups(rows, Address());
    var items := ItemsOf(gs, networkSize, terminationDays);
    GroupsAreAGrouping(rows, Address());
    VotesOfGroups(gs, networkSize, terminationDays);
    forall i, j | 0 <= i && j == i + 1 && j < |items|
      ensures items[i].first.address != items[j].first.address
    {
      ItemAt(gs, networkSize, terminationDays, i);
      ItemAt(gs, networkSize, terminationDays, j);
    }
  }
}
