/**
 * The rewards of an identity by epoch: a page selects identity states, joins each with its reward rows, folds the rows
 * by epoch, and takes the id of the last row as the next token.
 */
module IdentityRewardPages {
  import opened GoInts
  import opened Options
  import opened RowGroups
  import opened Tokens
  import P = Pagination
  import R = RewardRows

  /** The reward rows joined to an identity state. */
  type Join = P.Row -> seq<R.Row>

  /** Each state has rows, all with its id and of one epoch. */
  ghost predicate JoinsOne(join: Join, state: P.Row) {
    && 0 <= state.id < TWO64
    && join(state) != []
    && forall i :: 0 <= i < |join(state)| ==>
         join(state)[i].id == state.id && join(state)[i].epoch == join(state)[0].epoch
  }

  /** And different states of the identity are of different epochs. */
  ghost predicate Joins(join: Join, states: seq<P.Row>) {
    && (forall i :: 0 <= i < |states| ==> JoinsOne(join, states[i]))
    && (forall i, j :: 0 <= i < j < |states| ==> join(states[i])[0].epoch != join(states[j])[0].epoch)
  }

  function Pieces(join: Join, states: seq<P.Row>): (gs: seq<seq<R.Row>>)
    ensures |gs| == |states|
  {
    seq(|states|, i requires 0 <= i < |states| => join(states[i]))
  }

  /** What the fold should make of the states. */
  function Items(join: Join, states: seq<P.Row>, replace: bool): (r: seq<R.Rewards>)
    requires forall i :: 0 <= i < |states| ==> join(states[i]) != []
    ensures |r| == |states|
  {
    seq(|states|, i requires 0 <= i < |states| => R.ItemOf(join(states[i]), false, replace))
  }

  /** IdentityEpochRewards over the states that a query can see; None is the error of an invalid token. */
  ghost function PageOf(join: Join, states: seq<P.Row>, count: nat, token: Option<string>, replace: bool)
    : Option<R.Page>
  {
    var parsed := P.ParseToken(P.UintIds, token);
    if parsed.InvalidToken? then None
    else
      var selected := P.Query(P.UintIds, states, count + 1, if parsed.Token? then Some(parsed.value) else None);
      var rows := Flatten(Pieces(join, selected));
      var res := R.ItemsOf(Groups(rows, R.Epoch()), false, replace);
      if |res| > 0 && |res| == count + 1 then Some(R.Page(res[..count], Some(FormatNat(R.LastId(rows)))))
      else Some(R.Page(res, None))
  }

  // ---------------------------------------------------------------- one page

  /** The joined rows of some states fall apart into those of each state. */
  lemma PiecesAreGroups(join: Join, states: seq<P.Row>)
    requires Joins(join, states)
    ensures NonEmpty(Pieces(join, states))
    ensures Groups(Flatten(Pieces(join, states)), R.Epoch()) == Pieces(join, states)
  {
    var gs := Pieces(join, states);
    forall i | 0 <= i < |gs|
      ensures OneKey(gs[i], R.Epoch())
    {
      assert JoinsOne(join, states[i]);
    }
    hide JoinsOne;
    GroupingIsUnique(gs, Flatten(gs), R.Epoch());
  }

  lemma ItemsOfPieces(join: Join, states: seq<P.Row>, replace: bool)
    requires Joins(join, states) && NonEmpty(Pieces(join, states))
    ensures forall i :: 0 <= i < |states| ==> join(states[i]) != []
    ensures R.ItemsOf(Pieces(join, states), false, replace) == Items(join, states, replace)
  {
    forall i | 0 <= i < |states|
      ensures join(states[i]) != []
    {
      assert JoinsOne(join, states[i]);
    }
    hide R.ItemsOf, R.ItemOf, JoinsOne;
    forall i | 0 <= i < |states|
      ensures R.ItemsOf(Pieces(join, states), false, replace)[i] == Items(join, states, replace)[i]
    {
      R.ItemAt(Pieces(join, states), false, replace, i);
    }
  }

  lemma LastIdOfPieces(join: Join, states: seq<P.Row>)
    requires Joins(join, states) && states != []
    ensures R.LastId(Flatten(Pieces(join, states))) == states[|states| - 1].id
  {
    var gs := Pieces(join, states);
    assert JoinsOne(join, states[|states| - 1]);
    assert Flatten(gs) == Flatten(gs[..|gs| - 1]) + gs[|gs| - 1];
  }

  lemma {:induction false} SelectedAreStates(join: Join, states: seq<P.Row>, key: P.Key)
    requires Joins(join, states)
    ensures Joins(join, P.Select(P.UintIds, states, key))
    ensures forall x :: x in P.Select(P.UintIds, states, key) ==> x in states
  {
    hide P.Matches;
    if states != [] {
      var rest := P.Select(P.UintIds, states[1..], key);
      assert forall i :: 0 <= i < |states[1..]| ==> states[1..][i] == states[i + 1];
      SelectedAreStates(join, states[1..], key);
      forall j | 0 <= j < |rest|
        ensures JoinsOne(join, rest[j]) && JoinsOne(join, states[0])
        ensures join(states[0])[0].epoch != join(rest[j])[0].epoch
      {
        assert rest[j] in states[1..];
        var i :| 0 <= i < |states[1..]| && states[1..][i] == rest[j];
        assert states[i + 1] == rest[j];
      }
    }
  }

  lemma TakenAreStates(join: Join, states: seq<P.Row>, limit: nat)
    requires Joins(join, states)
    ensures Joins(join, P.Take(states, limit))
  {
    hide JoinsOne;
  }

  /** What the page says about the selected states. */
  ghost function Shown(join: Join, page: P.Page, replace: bool): R.Page
    requires Joins(join, page.rows)
  {
    assert forall i :: 0 <= i < |page.rows| ==> JoinsOne(join, page.rows[i]);
    R.Page(Items(join, page.rows, replace), page.next)
  }

  lemma IdToken(state: P.Row)
    requires 0 <= state.id
    ensures P.TokenOf(P.UintIds, state) == FormatNat(state.id)
  {
  }

  /** Folding the rows of the selected states shows the same page, with the same token, as listing the states. */
  lemma FoldedPage(join: Join, selected: seq<P.Row>, count: nat, replace: bool)
    requires Joins(join, selected) && |selected| <= count + 1
    ensures var rows := Flatten(Pieces(join, selected));
            var res := R.ItemsOf(Groups(rows, R.Epoch()), false, replace);
            var page := P.GetResWithContinuationToken(P.LastToken(P.UintIds, selected), count, selected);
            Joins(join, page.rows)
            && (if |res| > 0 && |res| == count + 1 then R.Page(res[..count], Some(FormatNat(R.LastId(rows))))
                else R.Page(res, None))
               == Shown(join, page, replace)
  {
    hide *;
    PiecesAreGroups(join, selected);
    ItemsOfPieces(join, selected, replace);
    if |selected| == count + 1 {
      FullPage(join, selected, count, replace);
    } else {
      RestPage(join, selected, count, replace);
    }
  }

  lemma FullPage(join: Join, selected: seq<P.Row>, count: nat, replace: bool)
    requires Joins(join, selected) && |selected| == count + 1
    requires forall i :: 0 <= i < |selected| ==> join(selected[i]) != []
    ensures var page := P.GetResWithContinuationToken(P.LastToken(P.UintIds, selected), count, selected);
      Joins(join, page.rows) && Shown(join, page, replace)
      == R.Page(Items(join, selected, replace)[..count], Some(FormatNat(R.LastId(Flatten(Pieces(join, selected))))))
  {
    LastIdOfPieces(join, selected);
    assert JoinsOne(join, selected[count]);
    IdToken(selected[count]);
    var page := P.GetResWithContinuationToken(P.LastToken(P.UintIds, selected), count, selected);
    hide Pieces, Flatten, R.ItemOf, R.LastId, JoinsOne, FormatNat, P.TokenOf;
    assert page == P.Page(selected[..count], Some(FormatNat(selected[count].id)));
    assert Items(join, selected, replace)[..count] == Items(join, selected[..count], replace);
  }

  lemma RestPage(join: Join, selected: seq<P.Row>, count: nat, replace: bool)
    requires Joins(join, selected) && |selected| <= count
    requires forall i :: 0 <= i < |selected| ==> join(selected[i]) != []
    ensures var page := P.GetResWithContinuationToken(P.LastToken(P.UintIds, selected), count, selected);
      Joins(join, page.rows) && Shown(join, page, replace) == R.Page(Items(join, selected, replace), None)
  {
    hide R.ItemOf, JoinsOne, P.TokenOf;
  }

  /** A page of the identity's rewards is the page of its states, each with its item. */
  lemma PageShows(join: Join, states: seq<P.Row>, count: nat, token: Option<string>, replace: bool)
    requires Joins(join, states)
    ensures match P.PageOf(P.UintIds, states, count, token)
            case None => PageOf(join, states, count, token, replace).None?
            case Some(page) => Joins(join, page.rows)
                               && PageOf(join, states, count, token, replace) == Some(Shown(join, page, replace))
  {
    var parsed := P.ParseToken(P.UintIds, token);
    hide Groups, Pieces, Flatten, R.ItemsOf, R.LastId, Joins, FormatNat, P.ParseToken, P.Select, P.Take, P.LastToken,
         P.GetResWithContinuationToken, Shown;
    if !parsed.InvalidToken? {
      var key := if parsed.Token? then Some(parsed.value) else None;
      var selected := P.Query(P.UintIds, states, count + 1, key);
      if key.Some? {
        SelectedAreStates(join, states, key.value);
        TakenAreStates(join, P.Select(P.UintIds, states, key.value), count + 1);
      } else {
        TakenAreStates(join, states, count + 1);
      }
      AtMost(if key.Some? then P.Select(P.UintIds, states, key.value) else states, count + 1);
      FoldedPage(join, selected, count, replace);
    }
  }

  lemma AtMost(states: seq<P.Row>, limit: nat)
    ensures |P.Take(states, limit)| <= limit
  {
  }

  // ---------------------------------------------------------------- whole walks

  ghost predicate IsWalk(pages: seq<R.Page>, join: Join, tables: nat -> seq<P.Row>, count: nat, replace: bool,
                         n: nat, token: Option<string>)
  {
    && pages != []
    && PageOf(join, tables(n), count, token, replace) == Some(pages[0])
    && if pages[0].next.None? then |pages| == 1
       else IsWalk(pages[1..], join, tables, count, replace, n + 1, pages[0].next)
  }

  /** The rewards of a state do not change, and new epochs only come in front. */
  ghost predicate GrowingJoins(join: Join, tables: nat -> seq<P.Row>) {
    P.Growing(P.UintIds, tables) && forall k: nat :: Joins(join, tables(k))
  }

  ghost predicate AllShown(join: Join, pages: seq<R.Page>, states: seq<P.Page>, replace: bool) {
    && |pages| == |states|
    && forall i :: 0 <= i < |pages| ==> Joins(join, states[i].rows) && pages[i] == Shown(join, states[i], replace)
  }

  /** Every walk over the rewards is a walk over the states. */
  lemma {:induction false} WalkShows(pages: seq<R.Page>, join: Join, tables: nat -> seq<P.Row>, count: nat,
                                     replace: bool, n: nat, token: Option<string>) returns (states: seq<P.Page>)
    requires GrowingJoins(join, tables) && IsWalk(pages, join, tables, count, replace, n, token)
    ensures P.IsWalk(states, P.UintIds, tables, count, n, token) && AllShown(join, pages, states, replace)
    decreases |pages|
  {
    hide *;
    JoinsAt(join, tables, n);
    PageShows(join, tables(n), count, token, replace);
    FirstOfWalk(pages, join, tables, count, replace, n, token);
    var page := P.PageOf(P.UintIds, tables(n), count, token).value;
    ShownNext(join, page, replace);
    if page.next.Some? {
      var more := WalkShows(pages[1..], join, tables, count, replace, n + 1, page.next);
      states := [page] + more;
      PageMore(page, more, tables, count, n, token);
      ShownMore(join, pages, page, more, replace);
    } else {
      states := [page];
      LastPage(page, tables, count, n, token);
      OneShown(join, pages, page, replace);
    }
  }

  lemma JoinsAt(join: Join, tables: nat -> seq<P.Row>, n: nat)
    requires GrowingJoins(join, tables)
    ensures Joins(join, tables(n))
  {
    hide Joins;
  }

  lemma FirstOfWalk(pages: seq<R.Page>, join: Join, tables: nat -> seq<P.Row>, count: nat, replace: bool,
                    n: nat, token: Option<string>)
    requires IsWalk(pages, join, tables, count, replace, n, token)
    ensures pages != [] && PageOf(join, tables(n), count, token, replace) == Some(pages[0])
    ensures pages[0].next.None? ==> |pages| == 1
    ensures pages[0].next.Some? ==> IsWalk(pages[1..], join, tables, count, replace, n + 1, pages[0].next)
  {
    hide PageOf;
  }

  lemma ShownNext(join: Join, page: P.Page, replace: bool)
    requires Joins(join, page.rows)
    ensures Shown(join, page, replace).next == page.next
  {
  }

  lemma PageMore(page: P.Page, more: seq<P.Page>, tables: nat -> seq<P.Row>, count: nat, n: nat, token: Option<string>)
    requires P.PageOf(P.UintIds, tables(n), count, token) == Some(page) && page.next.Some?
    requires P.IsWalk(more, P.UintIds, tables, count, n + 1, page.next)
    ensures P.IsWalk([page] + more, P.UintIds, tables, count, n, token)
  {
    hide P.PageOf;
    assert ([page] + more)[1..] == more;
  }

  lemma LastPage(page: P.Page, tables: nat -> seq<P.Row>, count: nat, n: nat, token: Option<string>)
    requires P.PageOf(P.UintIds, tables(n), count, token) == Some(page) && page.next.None?
    ensures P.IsWalk([page], P.UintIds, tables, count, n, token)
  {
    hide P.PageOf;
  }

  lemma ShownMore(join: Join, pages: seq<R.Page>, page: P.Page, more: seq<P.Page>, replace: bool)
    requires pages != [] && Joins(join, page.rows) && pages[0] == Shown(join, page, replace)
    requires AllShown(join, pages[1..], more, replace)
    ensures AllShown(join, pages, [page] + more, replace)
  {
    hide Joins, Shown;
    var states := [page] + more;
    forall i | 0 <= i < |pages|
      ensures Joins(join, states[i].rows) && pages[i] == Shown(join, states[i], replace)
    {
      if i > 0 {
        assert pages[1..][i - 1] == pages[i] && more[i - 1] == states[i];
      }
    }
  }

  lemma OneShown(join: Join, pages: seq<R.Page>, page: P.Page, replace: bool)
    requires |pages| == 1 && Joins(join, page.rows) && pages[0] == Shown(join, page, replace)
    ensures AllShown(join, pages, [page], replace)
  {
    hide Joins, Shown;
  }

  lemma {:induction false} ShownItems(join: Join, pages: seq<R.Page>, states: seq<P.Page>, replace: bool)
    requires AllShown(join, pages, states, replace)
    ensures var rows := P.RowsOf(states);
      (forall i :: 0 <= i < |rows| ==> join(rows[i]) != []) && R.ItemsOfPages(pages) == Items(join, rows, replace)
  {
    if pages != [] {
      assert AllShown(join, pages[1..], states[1..], replace) by { hide Joins, Shown; }
      ShownItems(join, pages[1..], states[1..], replace);
      assert forall i :: 0 <= i < |states[0].rows| ==> JoinsOne(join, states[0].rows[i]);
      assert pages[0].items == Items(join, states[0].rows, replace);
      hide Joins, Shown, JoinsOne, AllShown, R.ItemOf;
      ItemsConcat(join, states[0].rows, P.RowsOf(states[1..]), replace);
    }
  }

  lemma ItemsConcat(join: Join, a: seq<P.Row>, b: seq<P.Row>, replace: bool)
    requires (forall i :: 0 <= i < |a| ==> join(a[i]) != []) && (forall i :: 0 <= i < |b| ==> join(b[i]) != [])
    ensures forall i :: 0 <= i < |a + b| ==> join((a + b)[i]) != []
    ensures Items(join, a + b, replace) == Items(join, a, replace) + Items(join, b, replace)
  {
    hide R.ItemOf;
  }

  /**
   * Following the tokens from nil returns each epoch that was there at first once, newest first, with all its rewards,
   * in as many pages as needed, although the query returns joined rows and the token is the id of the last of them.
   */
  lemma WalkReturnsEpochs(pages: seq<R.Page>, join: Join, tables: nat -> seq<P.Row>, count: nat, replace: bool)
    requires count >= 1 && GrowingJoins(join, tables)
    requires IsWalk(pages, join, tables, count, replace, 0, None)
    ensures var states := tables(0);
      && (forall i :: 0 <= i < |states| ==> join(states[i]) != [])
      && R.ItemsOfPages(pages) == Items(join, states, replace)
      && |pages| == P.PageCount(|states|, count)
  {
    hide IsWalk, Joins, Shown, Items, R.ItemsOfPages;
    var states := WalkShows(pages, join, tables, count, replace, 0, None);
    P.WalkReturnsFirstTable(states, P.UintIds, tables, count);
    ShownItems(join, pages, states, replace);
  }

  /** There is such a walk. */
  lemma {:induction false} WalkExists(join: Join, tables: nat -> seq<P.Row>, count: nat, replace: bool,
                                      n: nat, token: Option<string>, states: seq<P.Page>) returns (pages: seq<R.Page>)
    requires GrowingJoins(join, tables) && P.IsWalk(states, P.UintIds, tables, count, n, token)
    ensures IsWalk(pages, join, tables, count, replace, n, token)
    decreases |states|
  {
    hide *;
    JoinsAt(join, tables, n);
    FirstOfStates(states, tables, count, n, token);
    PageShows(join, tables(n), count, token, replace);
    var page := Shown(join, states[0], replace);
    ShownNext(join, states[0], replace);
    if page.next.Some? {
      var more := WalkExists(join, tables, count, replace, n + 1, page.next, states[1..]);
      pages := [page] + more;
      RewardsMore(page, more, join, tables, count, replace, n, token);
    } else {
      pages := [page];
      LastRewards(page, join, tables, count, replace, n, token);
    }
  }

  lemma FirstOfStates(states: seq<P.Page>, tables: nat -> seq<P.Row>, count: nat, n: nat, token: Option<string>)
    requires P.IsWalk(states, P.UintIds, tables, count, n, token)
    ensures states != [] && P.PageOf(P.UintIds, tables(n), count, token) == Some(states[0])
    ensures states[0].next.Some? ==> P.IsWalk(states[1..], P.UintIds, tables, count, n + 1, states[0].next)
  {
    hide P.PageOf;
  }

  lemma RewardsMore(page: R.Page, more: seq<R.Page>, join: Join, tables: nat -> seq<P.Row>, count: nat, replace: bool,
                    n: nat, token: Option<string>)
    requires PageOf(join, tables(n), count, token, replace) == Some(page) && page.next.Some?
    requires IsWalk(more, join, tables, count, replace, n + 1, page.next)
    ensures IsWalk([page] + more, join, tables, count, replace, n, token)
  {
    hide PageOf;
    assert ([page] + more)[1..] == more;
  }

  lemma LastRewards(page: R.Page, join: Join, tables: nat -> seq<P.Row>, count: nat, replace: bool,
                    n: nat, token: Option<string>)
    requires PageOf(join, tables(n), count, token, replace) == Some(page) && page.next.None?
    ensures IsWalk([page], join, tables, count, replace, n, token)
  {
    hide PageOf;
  }

  lemma WalkFromNil(join: Join, tables: nat -> seq<P.Row>, count: nat, replace: bool) returns (pages: seq<R.Page>)
    requires count >= 1 && GrowingJoins(join, tables)
    ensures IsWalk(pages, join, tables, count, replace, 0, None)
  {
    P.SomeWalkEnds(P.UintIds, tables, count);
    var states :| P.IsWalk(states, P.UintIds, tables, count, 0, None);
    pages := WalkExists(join, tables, count, replace, 0, None, states);
  }
}
