/** Grouping joined reward rows into one item per identity, or one per epoch. */
module RewardRows {
  import opened GoInts
  import opened Options
  import opened RowGroups
  import opened Tokens

  datatype Row = Row(id: uint64, address: string, epoch: uint64, reward: Reward,
                     prevState: string, state: string, age: nat)

  datatype Reward = Reward(balance: real, stake: real, rewardType: string)

  datatype Rewards = Rewards(address: string, epoch: uint64, prevState: string, state: string, age: nat,
                             rewards: seq<Reward>)

  function ReplaceCandidatesAndStaking(rewardType: string): string {
    if rewardType == "Candidate" || rewardType == "Staking" then "Validation" else rewardType
  }

  function RewardOf(row: Row, replace: bool): Reward {
    if replace then row.reward.(rewardType := ReplaceCandidatesAndStaking(row.reward.rewardType)) else row.reward
  }

  function RewardsOf(rows: seq<Row>, replace: bool): seq<Reward> {
    if rows == [] then [] else RewardsOf(rows[..|rows| - 1], replace) + [RewardOf(rows[|rows| - 1], replace)]
  }

  ghost function Address(): Row -> string {
    (row: Row) => row.address
  }

  ghost function Epoch(): Row -> uint64 {
    (row: Row) => row.epoch
  }

  /** The items of groups: the header is that of the group's first row. */
  ghost function ItemsOf(gs: seq<seq<Row>>, byAddress: bool, replace: bool): (r: seq<Rewards>)
    requires NonEmpty(gs)
    ensures |r| == |gs|
  {
    if gs == [] then []
    else ItemsOf(gs[..|gs| - 1], byAddress, replace) + [ItemOf(gs[|gs| - 1], byAddress, replace)]
  }

  function Header(row: Row, byAddress: bool): Rewards {
    Rewards(if byAddress then row.address else "", if byAddress then 0 else row.epoch,
            row.prevState, row.state, row.age, [])
  }

  function ItemOf(g: seq<Row>, byAddress: bool, replace: bool): Rewards
    requires g != []
  {
    Header(g[0], byAddress).(rewards := RewardsOf(g, replace))
  }

  // ---------------------------------------------------------------- one row more

  lemma LongerRun(gs: seq<seq<Row>>, row: Row, byAddress: bool, replace: bool)
    requires gs != [] && NonEmpty(gs)
    ensures var n := |gs| - 1;
            var items := ItemsOf(gs, byAddress, replace);
            ItemsOf(gs[..n] + [gs[n] + [row]], byAddress, replace)
            == items[..n] + [items[n].(rewards := items[n].rewards + [RewardOf(row, replace)])]
  {
    var n := |gs| - 1;
    var longer := gs[..n] + [gs[n] + [row]];
    assert longer[..n] == gs[..n] && longer[n] == gs[n] + [row];
    assert (gs[n] + [row])[..|gs[n]|] == gs[n];
    assert ItemsOf(gs, byAddress, replace)[..n] == ItemsOf(gs[..n], byAddress, replace);
    hide RewardOf, Header;
  }

  lemma NewItem(gs: seq<seq<Row>>, row: Row, byAddress: bool, replace: bool)
    requires NonEmpty(gs)
    ensures ItemsOf(gs + [[row]], byAddress, replace)
         == ItemsOf(gs, byAddress, replace) + [Header(row, byAddress).(rewards := [RewardOf(row, replace)])]
  {
    var more := gs + [[row]];
    assert more[..|gs|] == gs && more[|gs|] == [row];
    assert [row][..0] == [] && RewardsOf([row], replace) == [RewardOf(row, replace)];
    hide RewardOf, Header;
  }

  lemma {:induction false} ItemAt(gs: seq<seq<Row>>, byAddress: bool, replace: bool, i: nat)
    requires NonEmpty(gs) && i < |gs|
    ensures ItemsOf(gs, byAddress, replace)[i] == ItemOf(gs[i], byAddress, replace)
  {
    if i < |gs| - 1 {
      ItemAt(gs[..|gs| - 1], byAddress, replace, i);
    }
  }

  /** A reward keeps its amounts, and its type unless candidates and staking are to be called validation. */
  lemma RewardIs(row: Row, replace: bool)
    ensures var r := RewardOf(row, replace);
      && r.balance == row.reward.balance && r.stake == row.reward.stake
      && r.rewardType == if replace && row.reward.rewardType in {"Candidate", "Staking"} then "Validation"
                         else row.reward.rewardType
  {
  }

  lemma {:induction false} RewardsAt(rows: seq<Row>, replace: bool, i: nat)
    requires i < |rows|
    ensures |RewardsOf(rows, replace)| == |rows| && RewardsOf(rows, replace)[i] == RewardOf(rows[i], replace)
  {
    hide RewardOf;
    if i < |rows| - 1 {
      RewardsAt(rows[..|rows| - 1], replace, i);
    } else if |rows| > 1 {
      RewardsAt(rows[..|rows| - 1], replace, 0);
    }
  }

  /** What an item says: its key, the states and the age of its first row, and one reward for each of its rows. */
  lemma ItemSays(gs: seq<seq<Row>>, byAddress: bool, replace: bool, i: nat)
    requires NonEmpty(gs) && i < |gs|
    ensures var item, first := ItemsOf(gs, byAddress, replace)[i], gs[i][0];
      && (byAddress ==> item.address == first.address)
      && (!byAddress ==> item.epoch == first.epoch)
      && item.prevState == first.prevState && item.state == first.state && item.age == first.age
      && |item.rewards| == |gs[i]|
      && forall j :: 0 <= j < |gs[i]| ==> item.rewards[j] == RewardOf(gs[i][j], replace)
  {
    ItemAt(gs, byAddress, replace, i);
    hide ItemsOf, RewardsOf, RewardOf;
    forall j: nat | j < |gs[i]|
      ensures |RewardsOf(gs[i], replace)| == |gs[i]| && RewardsOf(gs[i], replace)[j] == RewardOf(gs[i][j], replace)
    {
      RewardsAt(gs[i], replace, j);
    }
    RewardsAt(gs[i], replace, 0);
  }

  /** What a loop over `rows` holds: the flushed items, and the current one. */
  ghost predicate Folded<K>(rows: seq<Row>, key: Row -> K, res: seq<Rewards>, item: Option<Rewards>,
                            byAddress: bool, replace: bool)
  {
    if item.None? then rows == [] && res == []
    else rows != [] && res + [item.value] == ItemsOf(Groups(rows, key), byAddress, replace)
  }

  lemma SameKey<K>(rows: seq<Row>, row: Row, key: Row -> K, res: seq<Rewards>, item: Rewards,
                   byAddress: bool, replace: bool)
    requires Folded(rows, key, res, Some(item), byAddress, replace)
    requires var gs := Groups(rows, key); key(gs[|gs| - 1][0]) == key(row)
    ensures Folded(rows + [row], key, res, Some(item.(rewards := item.rewards + [RewardOf(row, replace)])),
                   byAddress, replace)
  {
    var gs := Groups(rows, key);
    var items := ItemsOf(gs, byAddress, replace);
    assert (rows + [row])[..|rows|] == rows;
    assert Groups(rows + [row], key) == AddRow(gs, row, key);
    LongerRun(gs, row, byAddress, replace);
    hide Groups, ItemsOf, RewardOf, Header;
    assert items[..|gs| - 1] == res && items[|gs| - 1] == item by { assert items == res + [item]; }
  }

  lemma OtherKey<K>(rows: seq<Row>, row: Row, key: Row -> K, res: seq<Rewards>, item: Option<Rewards>,
                    byAddress: bool, replace: bool)
    requires Folded(rows, key, res, item, byAddress, replace)
    requires item.Some? ==> var gs := Groups(rows, key); key(gs[|gs| - 1][0]) != key(row)
    ensures Folded(rows + [row], key, if item.Some? then res + [item.value] else res,
                   Some(Header(row, byAddress).(rewards := [RewardOf(row, replace)])), byAddress, replace)
  {
    var gs := Groups(rows, key);
    assert (rows + [row])[..|rows|] == rows;
    assert Groups(rows + [row], key) == AddRow(gs, row, key) == gs + [[row]];
    NewItem(gs, row, byAddress, replace);
    hide Groups, RewardOf, Header;
  }

  lemma CurrentHeader<K>(rows: seq<Row>, key: Row -> K, res: seq<Rewards>, item: Rewards,
                         byAddress: bool, replace: bool)
    requires Folded(rows, key, res, Some(item), byAddress, replace)
    ensures var gs := Groups(rows, key);
            item.(rewards := []) == Header(gs[|gs| - 1][0], byAddress)
  {
    var gs := Groups(rows, key);
    ItemAt(gs, byAddress, replace, |gs| - 1);
    assert (res + [item])[|gs| - 1] == item;
    hide Groups, ItemsOf, RewardOf;
  }

  lemma NothingFolded<K>(key: Row -> K, byAddress: bool, replace: bool)
    ensures Folded([], key, [], None, byAddress, replace)
  {
  }

  lemma AllFolded<K>(rows: seq<Row>, key: Row -> K, res: seq<Rewards>, item: Option<Rewards>,
                     byAddress: bool, replace: bool)
    requires Folded(rows, key, res, item, byAddress, replace)
    ensures (if item.Some? then res + [item.value] else res) == ItemsOf(Groups(rows, key), byAddress, replace)
  {
  }

  lemma StepByAddress(rows: seq<Row>, row: Row, res: seq<Rewards>, item: Option<Rewards>, replace: bool)
    requires Folded(rows, Address(), res, item, true, replace)
    ensures if item.None? || item.value.address != row.address
            then Folded(rows + [row], Address(), if item.Some? then res + [item.value] else res,
                        Some(Header(row, true).(rewards := [RewardOf(row, replace)])), true, replace)
            else Folded(rows + [row], Address(), res,
                        Some(item.value.(rewards := item.value.rewards + [RewardOf(row, replace)])), true, replace)
  {
    hide Folded, Groups, ItemsOf, RewardOf;
    if item.Some? {
      CurrentHeader(rows, Address(), res, item.value, true, replace);
    }
    if item.None? || item.value.address != row.address {
      OtherKey(rows, row, Address(), res, item, true, replace);
    } else {
      SameKey(rows, row, Address(), res, item.value, true, replace);
    }
  }

  lemma StepByEpoch(rows: seq<Row>, row: Row, res: seq<Rewards>, item: Option<Rewards>, replace: bool)
    requires Folded(rows, Epoch(), res, item, false, replace)
    ensures if item.None? || item.value.epoch != row.epoch
            then Folded(rows + [row], Epoch(), if item.Some? then res + [item.value] else res,
                        Some(Header(row, false).(rewards := [RewardOf(row, replace)])), false, replace)
            else Folded(rows + [row], Epoch(), res,
                        Some(item.value.(rewards := item.value.rewards + [RewardOf(row, replace)])), false, replace)
  {
    hide Folded, Groups, ItemsOf, RewardOf;
    if item.Some? {
      CurrentHeader(rows, Epoch(), res, item.value, false, replace);
    }
    if item.None? || item.value.epoch != row.epoch {
      OtherKey(rows, row, Epoch(), res, item, false, replace);
    } else {
      SameKey(rows, row, Epoch(), res, item.value, false, replace);
    }
  }

  // ---------------------------------------------------------------- the loops

  /** EpochIdentitiesRewards: rows come grouped by address. */
  method GroupByAddress(rows: seq<Row>, replace: bool) returns (res: seq<Rewards>)
    ensures res == ItemsOf(Groups(rows, Address()), true, replace)
  {
    hide *;
    res := [];
    var item: Option<Rewards> := None;
    NothingFolded(Address(), true, replace);
    for i := 0 to |rows|
      invariant Folded(rows[..i], Address(), res, item, true, replace)
    {
      var row := rows[i];
      assert rows[..i + 1] == rows[..i] + [row];
      StepByAddress(rows[..i], row, res, item, replace);
      var reward := RewardOf(row, replace);
      if item.None? || item.value.address != row.address {
        if item.Some? {
          res := res + [item.value];
        }
        item := Some(Header(row, true).(rewards := [reward]));
      } else {
        item := Some(item.value.(rewards := item.value.rewards + [reward]));
      }
    }
    assert rows[..|rows|] == rows;
    AllFolded(rows, Address(), res, item, true, replace);
    if item.Some? {
      res := res + [item.value];
    }
  }

  function LastId(rows: seq<Row>): uint64 {
    if rows == [] then 0 else rows[|rows| - 1].id
  }

  lemma LastIdOneMore(rows: seq<Row>, row: Row)
    ensures LastId(rows + [row]) == row.id
  {
  }

  /** IdentityEpochRewards: rows come grouped by epoch; the id of the last row is the next token. */
  method GroupByEpoch(rows: seq<Row>, replace: bool) returns (res: seq<Rewards>, id: uint64)
    ensures res == ItemsOf(Groups(rows, Epoch()), false, replace)
    ensures id == LastId(rows)
  {
    hide *;
    res, id := [], LastId([]);
    var item: Option<Rewards> := None;
    NothingFolded(Epoch(), false, replace);
    for i := 0 to |rows|
      invariant Folded(rows[..i], Epoch(), res, item, false, replace)
      invariant id == LastId(rows[..i])
    {
      var row := rows[i];
      assert rows[..i + 1] == rows[..i] + [row];
      StepByEpoch(rows[..i], row, res, item, replace);
      id := row.id;
      LastIdOneMore(rows[..i], row);
      var reward := RewardOf(row, replace);
      if item.None? || item.value.epoch != row.epoch {
        if item.Some? {
          res := res + [item.value];
        }
        item := Some(Header(row, false).(rewards := [reward]));
      } else {
        item := Some(item.value.(rewards := item.value.rewards + [reward]));
      }
    }
    assert rows[..|rows|] == rows;
    AllFolded(rows, Epoch(), res, item, false, replace);
    if item.Some? {
      res := res + [item.value];
    }
  }

  // ---------------------------------------------------------------- what the items are

  ghost function AllRewards(items: seq<Rewards>): seq<Reward> {
    if items == [] then [] else AllRewards(items[..|items| - 1]) + items[|items| - 1].rewards
  }

  lemma {:induction false} RewardsOfConcat(a: seq<Row>, b: seq<Row>, replace: bool)
    ensures RewardsOf(a + b, replace) == RewardsOf(a, replace) + RewardsOf(b, replace)
  {
    if b == [] {
      assert a + b == a;
    } else {
      assert (a + b)[..|a + b| - 1] == a + b[..|b| - 1];
      RewardsOfConcat(a, b[..|b| - 1], replace);
    }
  }

  /** Whatever the grouping, the items together hold every row's reward once and in order. */
  lemma {:induction false} ItemsReproduceRows(gs: seq<seq<Row>>, byAddress: bool, replace: bool)
    requires NonEmpty(gs)
    ensures AllRewards(ItemsOf(gs, byAddress, replace)) == RewardsOf(Flatten(gs), replace)
  {
    if gs != [] {
      var front := gs[..|gs| - 1];
      ItemsReproduceRows(front, byAddress, replace);
      RewardsOfConcat(Flatten(front), gs[|gs| - 1], replace);
      var items := ItemsOf(gs, byAddress, replace);
      assert items[..|gs| - 1] == ItemsOf(front, byAddress, replace);
    }
  }

  // ---------------------------------------------------------------- pages of identities

  /** The identities of an epoch by total reward, each with its joined rows, and no two neighbours alike. */
  ghost predicate Identities(all: seq<seq<Row>>) {
    IsGrouping(all, Flatten(all), Address())
  }

  /** Some consecutive identities, joined, fall apart into the same identities again. */
  lemma PartIsGrouping(all: seq<seq<Row>>, i: nat, j: nat)
    requires Identities(all) && i <= j <= |all|
    ensures NonEmpty(all[i..j]) && Groups(Flatten(all[i..j]), Address()) == all[i..j]
  {
    var part := all[i..j];
    forall k | 0 <= k < |part|
      ensures OneKey(part[k], Address())
    {
      assert part[k] == all[i + k] && OneKey(all[i + k], Address());
    }
    forall k, l | 0 <= k && l == k + 1 && l < |part|
      ensures Address()(part[k][0]) != Address()(part[l][0])
    {
      assert part[k] == all[i + k] && part[l] == all[i + l] && i + l == (i + k) + 1;
    }
    GroupingIsUnique(part, Flatten(part), Address());
  }

  datatype Page = Page(items: seq<Rewards>, next: Option<string>)

  /** LIMIT count + 1 OFFSET offset over the identities. */
  function Window(all: seq<seq<Row>>, offset: nat, limit: nat): seq<seq<Row>> {
    if offset >= |all| then []
    else if offset + limit >= |all| then all[offset..]
    else all[offset..offset + limit]
  }

  /** The rows of `limit` identities from `offset` on, read and grouped. */
  ghost function Fetch(all: seq<seq<Row>>, offset: nat, limit: nat, replace: bool): seq<Rewards> {
    ItemsOf(Groups(Flatten(Window(all, offset, limit)), Address()), true, replace)
  }

  /** EpochIdentitiesRewards; None is the error of an invalid token. */
  ghost function PageOf(all: seq<seq<Row>>, count: uint64, token: Option<string>, replace: bool): Option<Page> {
    var parsed := ParseUintContinuationToken(token);
    if parsed.InvalidToken? then None
    else
      var offset := if parsed.Token? then parsed.value else 0;
      var res := Fetch(all, offset, count + 1, replace);
      if |res| > 0 && |res| == count + 1
      then Some(Page(res[..count], Some(FormatNat(Uint64(offset + count)))))
      else Some(Page(res, None))
  }

  /** The pages from the one at `token` on. */
  ghost predicate IsWalk(pages: seq<Page>, all: seq<seq<Row>>, count: uint64, token: Option<string>, replace: bool) {
    && pages != []
    && PageOf(all, count, token, replace) == Some(pages[0])
    && if pages[0].next.None? then |pages| == 1 else IsWalk(pages[1..], all, count, pages[0].next, replace)
  }

  ghost function ItemsOfPages(pages: seq<Page>): seq<Rewards> {
    if pages == [] then [] else pages[0].items + ItemsOfPages(pages[1..])
  }

  lemma {:induction false} ItemsConcat(a: seq<seq<Row>>, b: seq<seq<Row>>, byAddress: bool, replace: bool)
    requires NonEmpty(a) && NonEmpty(b)
    ensures NonEmpty(a + b)
    ensures ItemsOf(a + b, byAddress, replace) == ItemsOf(a, byAddress, replace) + ItemsOf(b, byAddress, replace)
  {
    if b == [] {
      assert a + b == a;
    } else {
      var front := b[..|b| - 1];
      assert (a + b)[..|a + b| - 1] == a + front;
      ItemsConcat(a, front, byAddress, replace);
    }
  }

  /** The page for everything from the identity at `offset` on. */
  ghost function PageFor(all: seq<seq<Row>>, offset: nat, count: uint64, replace: bool): Page
    requires NonEmpty(all) && offset <= |all|
  {
    if offset + count < |all|
    then Page(ItemsOf(all[offset..offset + count], true, replace), Some(FormatNat(offset + count)))
    else Page(ItemsOf(all[offset..|all|], true, replace), None)
  }

  lemma IdentitiesHaveRows(all: seq<seq<Row>>)
    requires Identities(all)
    ensures NonEmpty(all)
  {
    PartIsGrouping(all, 0, |all|);
    assert all[0..|all|] == all;
    hide Identities;
  }

  function OffsetToken(offset: nat): Option<string> {
    if offset == 0 then None else Some(FormatNat(offset))
  }

  lemma OffsetParsed(offset: uint64)
    ensures var parsed := ParseUintContinuationToken(OffsetToken(offset));
            !parsed.InvalidToken? && offset == if parsed.Token? then parsed.value else 0
  {
    UintTokenRoundTrip(offset);
    hide ParseUintContinuationToken, FormatNat;
  }

  lemma FetchIsSlice(all: seq<seq<Row>>, offset: nat, limit: nat, replace: bool)
    requires Identities(all) && offset <= |all|
    ensures NonEmpty(all)
    ensures var end := if offset + limit <= |all| then offset + limit else |all|;
            Fetch(all, offset, limit, replace) == ItemsOf(all[offset..end], true, replace)
  {
    var end := if offset + limit <= |all| then offset + limit else |all|;
    assert Window(all, offset, limit) == all[offset..end];
    IdentitiesHaveRows(all);
    PartIsGrouping(all, offset, end);
    hide ItemsOf, Groups, Flatten, Identities, Window;
  }

  lemma PartHasRows(all: seq<seq<Row>>, i: nat, j: nat)
    requires NonEmpty(all) && i <= j <= |all|
    ensures NonEmpty(all[i..j])
  {
  }

  lemma TakeFirst<T>(a: seq<T>, b: seq<T>)
    ensures (a + b)[..|a|] == a
  {
  }

  lemma ShownAndLast(all: seq<seq<Row>>, offset: nat, count: nat, replace: bool)
    requires NonEmpty(all) && offset + count < |all|
    ensures NonEmpty(all[offset..offset + count + 1])
    ensures ItemsOf(all[offset..offset + count + 1], true, replace)[..count]
         == ItemsOf(all[offset..offset + count], true, replace)
  {
    var shown, last := all[offset..offset + count], all[offset + count..offset + count + 1];
    assert all[offset..offset + count + 1] == shown + last;
    PartHasRows(all, offset, offset + count);
    PartHasRows(all, offset + count, offset + count + 1);
    ItemsConcat(shown, last, true, replace);
    hide ItemsOf;
    TakeFirst(ItemsOf(shown, true, replace), ItemsOf(last, true, replace));
  }

  /** One identity more than asked for is fetched, and its item is dropped again. */
  lemma PageAt(all: seq<seq<Row>>, offset: nat, count: uint64, replace: bool)
    requires Identities(all) && offset <= |all| < TWO64
    ensures NonEmpty(all)
    ensures PageOf(all, count, OffsetToken(offset), replace) == Some(PageFor(all, offset, count, replace))
  {
    hide Identities, ItemsOf, FormatNat, Fetch, ParseUintContinuationToken, OffsetToken;
    OffsetParsed(offset);
    FetchIsSlice(all, offset, count + 1, replace);
    if offset + count < |all| {
      ShownAndLast(all, offset, count, replace);
      assert Uint64(offset + count) == offset + count;
    }
  }

  lemma RestItems(all: seq<seq<Row>>, offset: nat, count: nat, replace: bool)
    requires NonEmpty(all) && offset + count <= |all|
    ensures ItemsOf(all[offset..|all|], true, replace)
         == ItemsOf(all[offset..offset + count], true, replace) + ItemsOf(all[offset + count..|all|], true, replace)
  {
    ItemsConcat(all[offset..offset + count], all[offset + count..|all|], true, replace);
    assert all[offset..offset + count] + all[offset + count..|all|] == all[offset..|all|];
    hide ItemsOf;
  }

  /** Following the tokens of one epoch returns every identity once, in order. */
  lemma {:induction false} WalkReturnsIdentities(pages: seq<Page>, all: seq<seq<Row>>, count: uint64, offset: nat,
                                                 replace: bool)
    requires Identities(all) && count >= 1 && offset <= |all| < TWO64
    requires IsWalk(pages, all, count, OffsetToken(offset), replace)
    ensures NonEmpty(all[offset..|all|])
    ensures ItemsOfPages(pages) == ItemsOf(all[offset..|all|], true, replace)
    decreases |pages|
  {
    hide PageOf, Identities, ItemsOf, FormatNat;
    PageAt(all, offset, count, replace);
    if offset + count < |all| {
      WalkReturnsIdentities(pages[1..], all, count, offset + count, replace);
      RestItems(all, offset, count, replace);
    } else {
      assert ItemsOfPages(pages[1..]) == [];
    }
  }

  /** There is such a walk from any point: no request of it fails, and it ends. */
  lemma {:induction false} WalkExists(all: seq<seq<Row>>, count: uint64, offset: nat, replace: bool)
    returns (pages: seq<Page>)
    requires Identities(all) && count >= 1 && offset <= |all| < TWO64
    ensures IsWalk(pages, all, count, OffsetToken(offset), replace)
    decreases |all| - offset
  {
    hide PageOf, Identities, ItemsOf, FormatNat;
    PageAt(all, offset, count, replace);
    pages := [PageFor(all, offset, count, replace)];
    if offset + count < |all| {
      var more := WalkExists(all, count, offset + count, replace);
      pages := pages + more;
      assert pages[1..] == more;
    }
  }
}
