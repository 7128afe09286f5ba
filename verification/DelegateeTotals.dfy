/**
 * The delegatees of an epoch by total reward. The query's first page filters by epoch, but OR binds weaker than AND,
 * so with a token it selects rows of every epoch.
 */
module DelegateeTotals {
  import opened Options
  import opened Tokens
  import opened Pagination

  ghost predicate Sorted(all: seq<Row>) {
    && (forall i, j :: 0 <= i < j < |all| ==> !Before(Amounts, all[j], all[i]))
    && (forall i :: 0 <= i < |all| ==> IdFits(Amounts, all[i]))
  }

  /** The rows of all epochs as the query orders them; only rows of different epochs may be equal in order. */
  ghost predicate Totals(all: seq<Row>) {
    Sorted(all) && forall i, j :: 0 <= i < j < |all| && all[i].epoch == all[j].epoch ==> Before(Amounts, all[i], all[j])
  }

  function OfEpoch(all: seq<Row>, epoch: nat): seq<Row> {
    if all == [] then [] else (if all[0].epoch == epoch then [all[0]] else []) + OfEpoch(all[1..], epoch)
  }

  function TotalsPage(all: seq<Row>, epoch: nat, count: nat, token: Option<string>): Option<Page> {
    var parsed := ParseToken(Amounts, token);
    if parsed.InvalidToken? then None
    else
      var rows := Take(if parsed.Token? then Select(Amounts, all, parsed.value) else OfEpoch(all, epoch), count + 1);
      Some(GetResWithContinuationToken(LastToken(Amounts, rows), count, rows))
  }

  ghost predicate IsTotalsWalk(pages: seq<Page>, all: seq<Row>, epoch: nat, count: nat, token: Option<string>) {
    && pages != []
    && TotalsPage(all, epoch, count, token) == Some(pages[0])
    && if pages[0].next.None? then |pages| == 1 else IsTotalsWalk(pages[1..], all, epoch, count, pages[0].next)
  }

  // ---------------------------------------------------------------- single pages

  lemma TotalsPageAt(all: seq<Row>, epoch: nat, count: nat, r: Row)
    requires IdFits(Amounts, r)
    ensures TotalsPage(all, epoch, count, Some(TokenOf(Amounts, r)))
         == Some(PageFor(Amounts, Select(Amounts, all, KeyOf(Amounts, r)), count))
  {
    TokenKey(Amounts, r);
    hide IdFits, TokenOf, ParseToken, KeyOf, Select, Take, LastToken, GetResWithContinuationToken, PageFor;
    FullPage(Amounts, Select(Amounts, all, KeyOf(Amounts, r)), count);
  }

  lemma FirstTotalsPage(all: seq<Row>, epoch: nat, count: nat)
    ensures TotalsPage(all, epoch, count, None) == Some(PageFor(Amounts, OfEpoch(all, epoch), count))
  {
    assert ParseToken(Amounts, None) == NoToken;
    hide ParseToken, TokenOf, Select, OfEpoch, Take, LastToken, GetResWithContinuationToken, PageFor;
    FullPage(Amounts, OfEpoch(all, epoch), count);
  }

  // ---------------------------------------------------------------- filters

  lemma {:induction false} EpochRows(all: seq<Row>, epoch: nat)
    ensures forall x :: x in OfEpoch(all, epoch) <==> x in all && x.epoch == epoch
  {
    if all != [] {
      EpochRows(all[1..], epoch);
      assert all == [all[0]] + all[1..];
    }
  }

  lemma {:induction false} SelectedRows(all: seq<Row>, key: Key)
    ensures forall x :: x in Select(Amounts, all, key) <==> x in all && Matches(Amounts, x, key)
  {
    if all != [] {
      SelectedRows(all[1..], key);
      assert all == [all[0]] + all[1..];
      hide Matches;
    }
  }

  lemma {:induction false} EpochTable(all: seq<Row>, epoch: nat)
    requires Totals(all)
    ensures Table(Amounts, OfEpoch(all, epoch))
  {
    if all != [] {
      EpochTable(all[1..], epoch);
      EpochRows(all[1..], epoch);
      var rest := OfEpoch(all[1..], epoch);
      hide OfEpoch, Before, IdFits;
      if all[0].epoch == epoch {
        forall j | 0 <= j < |rest|
          ensures Before(Amounts, all[0], rest[j])
        {
          assert rest[j] in all[1..];
          var i :| 0 <= i < |all[1..]| && all[1..][i] == rest[j];
          assert all[i + 1] == rest[j];
        }
        assert OfEpoch(all, epoch) == [all[0]] + rest by { EpochStep(all, epoch); }
      } else {
        EpochStep(all, epoch);
      }
    }
  }

  lemma EpochStep(all: seq<Row>, epoch: nat)
    requires all != []
    ensures OfEpoch(all, epoch) == (if all[0].epoch == epoch then [all[0]] else []) + OfEpoch(all[1..], epoch)
  {
  }

  /** Rows that all belong to one epoch are selected alike with and without the epoch filter. */
  lemma {:induction false} SelectOfEpoch(all: seq<Row>, epoch: nat, key: Key)
    requires forall x :: x in all && Matches(Amounts, x, key) ==> x.epoch == epoch
    ensures Select(Amounts, all, key) == Select(Amounts, OfEpoch(all, epoch), key)
  {
    if all != [] {
      SelectOfEpoch(all[1..], epoch, key);
      assert all[0] in all;
      hide Matches;
      var rest := OfEpoch(all[1..], epoch);
      if all[0].epoch == epoch {
        assert ([all[0]] + rest)[1..] == rest;
      } else {
        assert [] + rest == rest;
      }
    }
  }

  lemma {:induction false} SelectSorted(all: seq<Row>, key: Key)
    requires Sorted(all)
    ensures Sorted(Select(Amounts, all, key))
  {
    if all != [] {
      SelectSorted(all[1..], key);
      SelectedRows(all[1..], key);
      var rest := Select(Amounts, all[1..], key);
      SelectStep(all, key);
      hide Select, Before, IdFits, Matches;
      forall j | 0 <= j < |rest|
        ensures !Before(Amounts, rest[j], all[0])
      {
        assert rest[j] in all[1..];
        var i :| 0 <= i < |all[1..]| && all[1..][i] == rest[j];
        assert all[i + 1] == rest[j];
      }
    }
  }

  lemma SelectStep(all: seq<Row>, key: Key)
    requires all != []
    ensures Select(Amounts, all, key)
         == (if Matches(Amounts, all[0], key) then [all[0]] else []) + Select(Amounts, all[1..], key)
  {
  }

  // ---------------------------------------------------------------- what later pages show

  lemma RowsOfFirst(pages: seq<Page>)
    requires pages != []
    ensures forall x :: x in RowsOf(pages) <==> x in pages[0].rows || x in RowsOf(pages[1..])
  {
  }

  lemma NotBeforeMatches(x: Row, r: Row)
    requires !Before(Amounts, x, r)
    ensures Matches(Amounts, x, KeyOf(Amounts, r))
  {
  }

  /** A walk from the token of a row shows every row, of any epoch, from that row's key on. */
  lemma {:induction false} WalkShowsAll(pages: seq<Page>, all: seq<Row>, epoch: nat, count: nat, r: Row, x: Row)
    requires Sorted(all) && IdFits(Amounts, r) && x in all && Matches(Amounts, x, KeyOf(Amounts, r))
    requires IsTotalsWalk(pages, all, epoch, count, Some(TokenOf(Amounts, r)))
    ensures x in RowsOf(pages)
    decreases |pages|
  {
    var rows := Select(Amounts, all, KeyOf(Amounts, r));
    SelectedRows(all, KeyOf(Amounts, r));
    SelectSorted(all, KeyOf(Amounts, r));
    TotalsPageAt(all, epoch, count, r);
    RowsOfFirst(pages);
    hide Before, Matches, KeyOf, TokenOf, IdFits, TotalsPage, RowsOf, Select;
    var j :| 0 <= j < |rows| && rows[j] == x;
    if |rows| > count && j >= count {
      assert pages[0].next == Some(TokenOf(Amounts, rows[count]));
      StillMatches(rows, count, j);
      WalkShowsAll(pages[1..], all, epoch, count, rows[count], x);
    } else if |rows| > count {
      assert pages[0].rows[j] == x;
    }
  }

  lemma StillMatches(rows: seq<Row>, i: nat, j: nat)
    requires Sorted(rows) && i <= j < |rows|
    ensures Matches(Amounts, rows[j], KeyOf(Amounts, rows[i])) && IdFits(Amounts, rows[i])
  {
    hide IdFits;
    if i < j {
      NotBeforeMatches(rows[j], rows[i]);
    }
  }

  // ---------------------------------------------------------------- when the walk is right

  /** From the epoch's i-th row on, no row of another epoch is left. */
  ghost predicate OnlyEpochFrom(all: seq<Row>, epoch: nat, r: Row) {
    forall x :: x in all && Matches(Amounts, x, KeyOf(Amounts, r)) ==> x.epoch == epoch
  }

  lemma LaterMatchesLess(r: Row, s: Row, x: Row)
    requires Before(Amounts, r, s) && Matches(Amounts, x, KeyOf(Amounts, s))
    ensures Matches(Amounts, x, KeyOf(Amounts, r))
  {
  }

  lemma OnlyEpochLater(all: seq<Row>, epoch: nat, rest: seq<Row>, i: nat)
    requires Table(Amounts, rest) && i < |rest| && OnlyEpochFrom(all, epoch, rest[0])
    ensures OnlyEpochFrom(all, epoch, rest[i])
  {
    hide Before, Matches, KeyOf, IdFits;
    if i > 0 {
      forall x | x in all && Matches(Amounts, x, KeyOf(Amounts, rest[i]))
        ensures x.epoch == epoch
      {
        LaterMatchesLess(rest[0], rest[i], x);
      }
    }
  }

  /** Then the page with a token is the page of the epoch's own table. */
  lemma SamePage(all: seq<Row>, epoch: nat, count: nat, rest: seq<Row>)
    requires Totals(all) && IsSuffix(rest, OfEpoch(all, epoch)) && rest != [] && OnlyEpochFrom(all, epoch, rest[0])
    ensures TotalsPage(all, epoch, count, Some(TokenOf(Amounts, rest[0]))) == Some(PageFor(Amounts, rest, count))
    ensures Table(Amounts, rest)
  {
    hide *;
    EpochTable(all, epoch);
    SuffixTable(OfEpoch(all, epoch), rest);
    TotalsPageAt(all, epoch, count, rest[0]);
    OnlyEpochSelected(all, epoch, rest[0]);
    SelectIsSuffix(Amounts, OfEpoch(all, epoch), |OfEpoch(all, epoch)| - |rest|);
  }

  lemma OnlyEpochSelected(all: seq<Row>, epoch: nat, r: Row)
    requires OnlyEpochFrom(all, epoch, r)
    ensures Select(Amounts, all, KeyOf(Amounts, r)) == Select(Amounts, OfEpoch(all, epoch), KeyOf(Amounts, r))
  {
    hide Select, OfEpoch, Matches, KeyOf;
    SelectOfEpoch(all, epoch, KeyOf(Amounts, r));
  }

  lemma SuffixTable(table: seq<Row>, rest: seq<Row>)
    requires Table(Amounts, table) && IsSuffix(rest, table) && rest != []
    ensures |rest| <= |table| && table[|table| - |rest|] == rest[0] && table[|table| - |rest|..] == rest
    ensures Table(Amounts, rest) && IdFits(Amounts, rest[0])
  {
    hide Before, IdFits;
    var i := |table| - |rest|;
    assert forall j :: 0 <= j < |rest| ==> rest[j] == table[i + j];
  }

  lemma FirstOfWalk(pages: seq<Page>, all: seq<Row>, epoch: nat, count: nat, token: Option<string>, page: Page)
    requires IsTotalsWalk(pages, all, epoch, count, token) && TotalsPage(all, epoch, count, token) == Some(page)
    ensures RowsOf(pages) == page.rows + RowsOf(pages[1..]) && |pages| >= 1
    ensures page.next.None? ==> RowsOf(pages[1..]) == []
    ensures page.next.Some? ==> IsTotalsWalk(pages[1..], all, epoch, count, page.next)
  {
    hide TotalsPage;
  }

  lemma PageForParts(rest: seq<Row>, count: nat)
    ensures var page := PageFor(Amounts, rest, count);
      if |rest| <= count then page.rows == rest && page.next.None?
      else page.rows == rest[..count] && page.next == Some(TokenOf(Amounts, rest[count]))
  {
    hide TokenOf;
  }

  lemma LaterSuffix(rest: seq<Row>, table: seq<Row>, count: nat)
    requires IsSuffix(rest, table) && count <= |rest|
    ensures IsSuffix(rest[count..], table) && rest[..count] + rest[count..] == rest && rest + [] == rest
  {
    assert table[|table| - |rest|..][count..] == table[|table| - |rest[count..]|..];
  }

  /** So the walk from there returns what is left of the epoch. */
  lemma {:induction false} WalkReturnsEpoch(pages: seq<Page>, all: seq<Row>, epoch: nat, count: nat, rest: seq<Row>)
    requires Totals(all) && IsSuffix(rest, OfEpoch(all, epoch)) && rest != [] && OnlyEpochFrom(all, epoch, rest[0])
    requires count >= 1 && IsTotalsWalk(pages, all, epoch, count, Some(TokenOf(Amounts, rest[0])))
    ensures RowsOf(pages) == rest
    decreases |pages|
  {
    hide *;
    SamePage(all, epoch, count, rest);
    PageForParts(rest, count);
    FirstOfWalk(pages, all, epoch, count, Some(TokenOf(Amounts, rest[0])), PageFor(Amounts, rest, count));
    if |rest| > count {
      OnlyEpochLater(all, epoch, rest, count);
      LaterSuffix(rest, OfEpoch(all, epoch), count);
      WalkReturnsEpoch(pages[1..], all, epoch, count, rest[count..]);
    } else {
      LaterSuffix(rest, OfEpoch(all, epoch), 0);
    }
  }

  lemma WholeIsSuffix(table: seq<Row>)
    ensures IsSuffix(table, table)
  {
  }

  lemma RightWalk(pages: seq<Page>, all: seq<Row>, epoch: nat, count: nat)
    requires Totals(all) && count >= 1 && IsTotalsWalk(pages, all, epoch, count, None)
    requires var rows := OfEpoch(all, epoch); |rows| > count ==> OnlyEpochFrom(all, epoch, rows[count])
    ensures RowsOf(pages) == OfEpoch(all, epoch)
  {
    hide *;
    var rows := OfEpoch(all, epoch);
    FirstTotalsPage(all, epoch, count);
    PageForParts(rows, count);
    FirstOfWalk(pages, all, epoch, count, None, PageFor(Amounts, rows, count));
    WholeIsSuffix(rows);
    LaterSuffix(rows, rows, if |rows| > count then count else 0);
    if |rows| > count {
      WalkReturnsEpoch(pages[1..], all, epoch, count, rows[count..]);
    }
  }

  /** A row of another epoch at or after the first row that does not fit is shown by some page. */
  lemma WrongWalk(pages: seq<Page>, all: seq<Row>, epoch: nat, count: nat, x: Row)
    requires Totals(all) && count >= 1 && IsTotalsWalk(pages, all, epoch, count, None)
    requires var rows := OfEpoch(all, epoch);
      |rows| > count && x in all && Matches(Amounts, x, KeyOf(Amounts, rows[count]))
    ensures x in RowsOf(pages)
  {
    TotalsSorted(all);
    EpochTable(all, epoch);
    var rows := OfEpoch(all, epoch);
    assert IdFits(Amounts, rows[count]);
    hide *;
    FirstTotalsPage(all, epoch, count);
    PageForParts(rows, count);
    FirstOfWalk(pages, all, epoch, count, None, PageFor(Amounts, rows, count));
    WalkShowsAll(pages[1..], all, epoch, count, rows[count], x);
  }

  /**
   * A walk that ends returns exactly the epoch's delegatees if and only if they fit the first page, or no row of
   * another epoch comes at or after the first one that does not fit; otherwise later pages show other epochs' rows.
   */
  lemma TotalsWalkIff(pages: seq<Page>, all: seq<Row>, epoch: nat, count: nat)
    requires Totals(all) && count >= 1 && IsTotalsWalk(pages, all, epoch, count, None)
    ensures var rows := OfEpoch(all, epoch);
      RowsOf(pages) == rows <==> |rows| <= count || OnlyEpochFrom(all, epoch, rows[count])
  {
    var rows := OfEpoch(all, epoch);
    hide OfEpoch, Totals, IsTotalsWalk, RowsOf, Matches, KeyOf;
    if |rows| <= count || OnlyEpochFrom(all, epoch, rows[count]) {
      RightWalk(pages, all, epoch, count);
    } else {
      var x :| x in all && Matches(Amounts, x, KeyOf(Amounts, rows[count])) && x.epoch != epoch;
      WrongWalk(pages, all, epoch, count, x);
      EpochRows(all, epoch);
    }
  }

  lemma TotalsSorted(all: seq<Row>)
    requires Totals(all)
    ensures Sorted(all)
  {
  }

  lemma LastPage(page: Page, all: seq<Row>, epoch: nat, count: nat, token: Option<string>)
    requires TotalsPage(all, epoch, count, token) == Some(page) && page.next.None?
    ensures IsTotalsWalk([page], all, epoch, count, token)
  {
    hide TotalsPage;
  }

  lemma PageMore(page: Page, pages: seq<Page>, all: seq<Row>, epoch: nat, count: nat, token: Option<string>)
    requires TotalsPage(all, epoch, count, token) == Some(page) && page.next.Some?
    requires IsTotalsWalk(pages, all, epoch, count, page.next)
    ensures IsTotalsWalk([page] + pages, all, epoch, count, token)
  {
    hide TotalsPage;
    assert ([page] + pages)[1..] == pages;
  }

  // ---------------------------------------------------------------- when a walk ends

  lemma {:induction false} RestWalkExists(all: seq<Row>, epoch: nat, count: nat, rest: seq<Row>)
    returns (pages: seq<Page>)
    requires Totals(all) && IsSuffix(rest, OfEpoch(all, epoch)) && rest != [] && OnlyEpochFrom(all, epoch, rest[0])
    requires count >= 1
    ensures IsTotalsWalk(pages, all, epoch, count, Some(TokenOf(Amounts, rest[0])))
    decreases |rest|
  {
    hide *;
    var page, token := PageFor(Amounts, rest, count), Some(TokenOf(Amounts, rest[0]));
    SamePage(all, epoch, count, rest);
    PageForParts(rest, count);
    if |rest| > count {
      OnlyEpochLater(all, epoch, rest, count);
      LaterSuffix(rest, OfEpoch(all, epoch), count);
      var more := RestWalkExists(all, epoch, count, rest[count..]);
      PageMore(page, more, all, epoch, count, token);
      pages := [page] + more;
    } else {
      LastPage(page, all, epoch, count, token);
      pages := [page];
    }
  }

  lemma RightWalkExists(all: seq<Row>, epoch: nat, count: nat) returns (pages: seq<Page>)
    requires Totals(all) && count >= 1
    requires var rows := OfEpoch(all, epoch); |rows| > count ==> OnlyEpochFrom(all, epoch, rows[count])
    ensures IsTotalsWalk(pages, all, epoch, count, None) && RowsOf(pages) == OfEpoch(all, epoch)
  {
    hide *;
    var rows := OfEpoch(all, epoch);
    var page := PageFor(Amounts, rows, count);
    FirstTotalsPage(all, epoch, count);
    PageForParts(rows, count);
    if |rows| > count {
      WholeIsSuffix(rows);
      LaterSuffix(rows, rows, count);
      var more := RestWalkExists(all, epoch, count, rows[count..]);
      PageMore(page, more, all, epoch, count, None);
      pages := [page] + more;
    } else {
      LastPage(page, all, epoch, count, None);
      pages := [page];
    }
    RightWalk(pages, all, epoch, count);
  }

  /** The listing of an epoch can be walked through correctly exactly under that condition: such a walk ends as well. */
  lemma RightWalkIff(all: seq<Row>, epoch: nat, count: nat)
    requires Totals(all) && count >= 1
    ensures var rows := OfEpoch(all, epoch);
      (exists pages :: IsTotalsWalk(pages, all, epoch, count, None) && RowsOf(pages) == rows)
      <==> |rows| <= count || OnlyEpochFrom(all, epoch, rows[count])
  {
    hide *;
    var rows := OfEpoch(all, epoch);
    if |rows| <= count || OnlyEpochFrom(all, epoch, rows[count]) {
      var pages := RightWalkExists(all, epoch, count);
    }
    if pages :| IsTotalsWalk(pages, all, epoch, count, None) && RowsOf(pages) == rows {
      TotalsWalkIff(pages, all, epoch, count);
    }
  }

  /** The rows, of any epoch, with this key. */
  function Sharing(all: seq<Row>, key: Key): seq<Row> {
    if all == [] then []
    else (if KeyOf(Amounts, all[0]) == key then [all[0]] else []) + Sharing(all[1..], key)
  }

  lemma {:induction false} NoneSharing(all: seq<Row>, key: Key)
    requires forall x :: x in all ==> KeyOf(Amounts, x) != key
    ensures Sharing(all, key) == []
  {
    if all != [] {
      assert all[0] in all;
      NoneSharing(all[1..], key);
    }
  }

  lemma LaterNotSharing(a: Row, x: Row, key: Key)
    requires !Before(Amounts, x, a) && Matches(Amounts, a, key) && KeyOf(Amounts, a) != key
    ensures KeyOf(Amounts, x) != key
  {
  }

  lemma SharingMatches(x: Row, key: Key)
    requires KeyOf(Amounts, x) == key
    ensures Matches(Amounts, x, key)
  {
  }

  lemma SharingStep(all: seq<Row>, key: Key)
    requires all != []
    ensures Sharing(all, key) == (if KeyOf(Amounts, all[0]) == key then [all[0]] else []) + Sharing(all[1..], key)
  {
  }

  lemma TailSorted(all: seq<Row>)
    requires Sorted(all) && all != []
    ensures Sorted(all[1..]) && forall x :: x in all[1..] ==> !Before(Amounts, x, all[0])
  {
    hide Before, IdFits;
    forall x | x in all[1..]
      ensures !Before(Amounts, x, all[0])
    {
      var i :| 0 <= i < |all[1..]| && all[1..][i] == x;
      assert all[i + 1] == x;
    }
  }

  /** What a key selects begins with the rows that share it. */
  ghost predicate BeginsWithSharing(all: seq<Row>, key: Key) {
    var rows, n := Select(Amounts, all, key), |Sharing(all, key)|;
    && n <= |rows|
    && (forall j :: 0 <= j < n ==> KeyOf(Amounts, rows[j]) == key)
    && (forall j :: n <= j < |rows| ==> KeyOf(Amounts, rows[j]) != key)
  }

  lemma {:induction false} SelectBegins(all: seq<Row>, key: Key)
    requires Sorted(all)
    ensures BeginsWithSharing(all, key)
  {
    if all == [] {
      assert Select(Amounts, all, key) == [] && Sharing(all, key) == [];
    } else {
      TailSorted(all);
      SelectBegins(all[1..], key);
      SelectStep(all, key);
      SharingStep(all, key);
      SelectedRows(all[1..], key);
      var a, rest := all[0], Select(Amounts, all[1..], key);
      hide Select, Sharing, KeyOf, Matches, Before, Sorted;
      if KeyOf(Amounts, a) == key {
        SharingMatches(a, key);
        assert Select(Amounts, all, key) == [a] + rest;
      } else if Matches(Amounts, a, key) {
        forall x | x in all[1..]
          ensures KeyOf(Amounts, x) != key
        {
          LaterNotSharing(a, x, key);
        }
        NoneSharing(all[1..], key);
        assert Select(Amounts, all, key) == [a] + rest;
      } else {
        assert Select(Amounts, all, key) == [] + rest == rest;
      }
    }
  }

  lemma {:induction false} SelectNoLonger(all: seq<Row>, key: Key, later: Key)
    requires forall x :: x in all && Matches(Amounts, x, later) ==> Matches(Amounts, x, key)
    ensures |Select(Amounts, all, later)| <= |Select(Amounts, all, key)|
  {
    if all != [] {
      assert all[0] in all;
      SelectNoLonger(all[1..], key, later);
      hide Matches;
    }
  }

  lemma {:induction false} SelectShorter(all: seq<Row>, key: Key, later: Key, r: Row)
    requires forall x :: x in all && Matches(Amounts, x, later) ==> Matches(Amounts, x, key)
    requires r in all && Matches(Amounts, r, key) && !Matches(Amounts, r, later)
    ensures |Select(Amounts, all, later)| < |Select(Amounts, all, key)|
  {
    assert all[0] in all;
    hide Matches;
    if r in all[1..] {
      SelectShorter(all[1..], key, later, r);
    } else {
      assert r == all[0];
      SelectNoLonger(all[1..], key, later);
    }
  }

  lemma StrictlyAfter(r: Row, s: Row)
    requires Matches(Amounts, s, KeyOf(Amounts, r)) && KeyOf(Amounts, s) != KeyOf(Amounts, r)
    ensures Before(Amounts, r, s)
    ensures Matches(Amounts, r, KeyOf(Amounts, r)) && !Matches(Amounts, r, KeyOf(Amounts, s))
  {
  }

  /** A token moves on if the page has room for all rows that share its key. */
  lemma MovesOn(all: seq<Row>, count: nat, r: Row)
    requires Sorted(all) && r in all
    requires var key := KeyOf(Amounts, r); |Sharing(all, key)| <= count < |Select(Amounts, all, key)|
    ensures var rows := Select(Amounts, all, KeyOf(Amounts, r));
      rows[count] in all && |Select(Amounts, all, KeyOf(Amounts, rows[count]))| < |rows|
  {
    var key := KeyOf(Amounts, r);
    var s := Select(Amounts, all, key)[count];
    SelectBegins(all, key);
    SelectedRows(all, key);
    assert s in Select(Amounts, all, key) && KeyOf(Amounts, s) != key;
    hide Select, Sharing, KeyOf, Matches, Before, Sorted;
    StrictlyAfter(r, s);
    forall x | x in all && Matches(Amounts, x, KeyOf(Amounts, s))
      ensures Matches(Amounts, x, key)
    {
      LaterMatchesLess(r, s, x);
    }
    SelectShorter(all, key, KeyOf(Amounts, s), r);
  }

  /** Following tokens from r's, some token is reached whose key more than `count` rows share. */
  ghost predicate ReachesTie(all: seq<Row>, count: nat, r: Row)
    requires Sorted(all) && r in all
    decreases |Select(Amounts, all, KeyOf(Amounts, r))|
  {
    var key := KeyOf(Amounts, r);
    var rows := Select(Amounts, all, key);
    |Sharing(all, key)| > count
    || (|rows| > count && (MovesOn(all, count, r); ReachesTie(all, count, rows[count])))
  }

  lemma SameToken(r: Row, s: Row)
    requires KeyOf(Amounts, r) == KeyOf(Amounts, s)
    ensures TokenOf(Amounts, r) == TokenOf(Amounts, s)
  {
    hide FormatDecimal, FormatInt;
  }

  lemma SortedFits(all: seq<Row>, r: Row)
    requires Sorted(all) && r in all
    ensures IdFits(Amounts, r)
  {
    hide IdFits, Before;
  }

  /** A tie hands out its own token again. */
  lemma TiePage(all: seq<Row>, epoch: nat, count: nat, r: Row)
    requires Sorted(all) && r in all && |Sharing(all, KeyOf(Amounts, r))| > count
    ensures TotalsPage(all, epoch, count, Some(TokenOf(Amounts, r))).Some?
    ensures TotalsPage(all, epoch, count, Some(TokenOf(Amounts, r))).value.next == Some(TokenOf(Amounts, r))
  {
    var key := KeyOf(Amounts, r);
    SelectBegins(all, key);
    SortedFits(all, r);
    var rows := Select(Amounts, all, key);
    assert KeyOf(Amounts, rows[count]) == key;
    hide Select, Sharing, KeyOf, Sorted, TotalsPage, TokenOf, PageFor;
    TotalsPageAt(all, epoch, count, r);
    PageForParts(rows, count);
    SameToken(rows[count], r);
  }

  /** From such a token no walk ends. */
  lemma {:induction false} TieNeverEnds(pages: seq<Page>, all: seq<Row>, epoch: nat, count: nat, r: Row)
    requires Sorted(all) && r in all && ReachesTie(all, count, r)
    ensures !IsTotalsWalk(pages, all, epoch, count, Some(TokenOf(Amounts, r)))
    decreases |pages|
  {
    if IsTotalsWalk(pages, all, epoch, count, Some(TokenOf(Amounts, r))) {
      var key := KeyOf(Amounts, r);
      var rows := Select(Amounts, all, key);
      if |Sharing(all, key)| > count {
        TiePage(all, epoch, count, r);
        TieNeverEnds(pages[1..], all, epoch, count, r);
      } else {
        MovesOn(all, count, r);
        SortedFits(all, r);
        TotalsPageAt(all, epoch, count, r);
        PageForParts(rows, count);
        TieNeverEnds(pages[1..], all, epoch, count, rows[count]);
      }
      hide TotalsPage, TokenOf, Select, Sharing, PageFor, Sorted, KeyOf;
    }
  }

  /** From every other token there is one that does. */
  lemma {:induction false} NoTieEnds(all: seq<Row>, epoch: nat, count: nat, r: Row) returns (pages: seq<Page>)
    requires Sorted(all) && r in all && !ReachesTie(all, count, r)
    ensures IsTotalsWalk(pages, all, epoch, count, Some(TokenOf(Amounts, r)))
    decreases |Select(Amounts, all, KeyOf(Amounts, r))|
  {
    var rows := Select(Amounts, all, KeyOf(Amounts, r));
    var page, token := PageFor(Amounts, rows, count), Some(TokenOf(Amounts, r));
    assert |Sharing(all, KeyOf(Amounts, r))| <= count;
    SortedFits(all, r);
    TotalsPageAt(all, epoch, count, r);
    PageForParts(rows, count);
    hide TotalsPage, TokenOf, Select, Sharing, PageFor, Sorted, KeyOf, IsTotalsWalk;
    if |rows| > count {
      MovesOn(all, count, r);
      var more := NoTieEnds(all, epoch, count, rows[count]);
      PageMore(page, more, all, epoch, count, token);
      pages := [page] + more;
    } else {
      LastPage(page, all, epoch, count, token);
      pages := [page];
    }
  }

  lemma EpochRowIn(all: seq<Row>, epoch: nat, count: nat)
    requires count < |OfEpoch(all, epoch)|
    ensures OfEpoch(all, epoch)[count] in all
  {
    EpochRows(all, epoch);
  }

  /** A walk over an epoch ends exactly if its rows fit the first page, or no reached token is shared too often. */
  lemma WalkEndsIff(all: seq<Row>, epoch: nat, count: nat)
    requires Totals(all) && count >= 1
    ensures Sorted(all)
    ensures var rows := OfEpoch(all, epoch);
      (exists pages :: IsTotalsWalk(pages, all, epoch, count, None))
      <==> |rows| <= count || (rows[count] in all && !ReachesTie(all, count, rows[count]))
  {
    hide *;
    TotalsSorted(all);
    var rows := OfEpoch(all, epoch);
    var page := PageFor(Amounts, rows, count);
    FirstTotalsPage(all, epoch, count);
    PageForParts(rows, count);
    if |rows| <= count {
      LastPage(page, all, epoch, count, None);
    } else {
      EpochRowIn(all, epoch, count);
      if ReachesTie(all, count, rows[count]) {
        forall pages
          ensures !IsTotalsWalk(pages, all, epoch, count, None)
        {
          if IsTotalsWalk(pages, all, epoch, count, None) {
            FirstOfWalk(pages, all, epoch, count, None, page);
            TieNeverEnds(pages[1..], all, epoch, count, rows[count]);
          }
        }
      } else {
        var more := NoTieEnds(all, epoch, count, rows[count]);
        PageMore(page, more, all, epoch, count, None);
      }
    }
  }

  // ---------------------------------------------------------------- a walk that is not

  const FIRST := Row(1, 10, 5, "")
  const SECOND := Row(2, 9, 5, "")
  const THIRD := Row(3, 8, 4, "")

  lemma Filtered()
    ensures Totals([FIRST, SECOND, THIRD]) && OfEpoch([FIRST, SECOND, THIRD], 5) == [FIRST, SECOND]
    ensures Select(Amounts, [FIRST, SECOND, THIRD], KeyOf(Amounts, SECOND)) == [SECOND, THIRD]
    ensures Select(Amounts, [FIRST, SECOND, THIRD], KeyOf(Amounts, THIRD)) == [THIRD]
    ensures IdFits(Amounts, SECOND) && IdFits(Amounts, THIRD)
  {
    var all := [FIRST, SECOND, THIRD];
    assert Table(Amounts, all);
    SelectIsSuffix(Amounts, all, 1);
    SelectIsSuffix(Amounts, all, 2);
    assert all[1..] == [SECOND, THIRD] && all[1..][1..] == [THIRD] && all[1..][1..][1..] == [] && all[2..] == [THIRD];
    EpochStep(all, 5);
    EpochStep([SECOND, THIRD], 5);
    EpochStep([THIRD], 5);
    assert OfEpoch([], 5) == [];
    hide OfEpoch, Select, Table;
    assert OfEpoch([SECOND, THIRD], 5) == [SECOND];
    assert OfEpoch(all, 5) == [FIRST] + [SECOND];
  }

  /** Two delegatees in epoch 5 and one in epoch 4: with pages of one row, the walk over epoch 5 ends in epoch 4. */
  lemma WalkLeavesEpoch()
    ensures Totals([FIRST, SECOND, THIRD]) && OfEpoch([FIRST, SECOND, THIRD], 5) == [FIRST, SECOND]
    ensures IsTotalsWalk([Page([FIRST], Some(TokenOf(Amounts, SECOND))),
                          Page([SECOND], Some(TokenOf(Amounts, THIRD))),
                          Page([THIRD], None)],
                         [FIRST, SECOND, THIRD], 5, 1, None)
  {
    var all := [FIRST, SECOND, THIRD];
    var a, c := Page([FIRST], Some(TokenOf(Amounts, SECOND))), Page([THIRD], None);
    var b := Page([SECOND], Some(TokenOf(Amounts, THIRD)));
    hide *;
    Filtered();
    FirstTotalsPage(all, 5, 1);
    TotalsPageAt(all, 5, 1, SECOND);
    TotalsPageAt(all, 5, 1, THIRD);
    PageForParts([FIRST, SECOND], 1);
    PageForParts([SECOND, THIRD], 1);
    PageForParts([THIRD], 1);
    assert [FIRST, SECOND][..1] == [FIRST] && [SECOND, THIRD][..1] == [SECOND];
    assert [FIRST, SECOND][1] == SECOND && [SECOND, THIRD][1] == THIRD;
    assert PageFor(Amounts, [FIRST, SECOND], 1).rows == [FIRST];
    assert PageFor(Amounts, [SECOND, THIRD], 1).rows == [SECOND];
    LastPage(c, all, 5, 1, Some(TokenOf(Amounts, THIRD)));
    PageMore(b, [c], all, 5, 1, Some(TokenOf(Amounts, SECOND)));
    PageMore(a, [b] + [c], all, 5, 1, None);
    assert [a] + ([b] + [c]) == [a, b, c];
  }

  // ---------------------------------------------------------------- a walk that never ends

  const TOP := Row(2, 11, 5, "")
  const TIED := Row(1, 10, 5, "")
  const TIED_EARLIER := Row(1, 10, 4, "")

  lemma TiedRows()
    ensures Totals([TOP, TIED, TIED_EARLIER]) && OfEpoch([TOP, TIED, TIED_EARLIER], 5) == [TOP, TIED]
    ensures |Sharing([TOP, TIED, TIED_EARLIER], KeyOf(Amounts, TIED))| == 2
  {
    var all := [TOP, TIED, TIED_EARLIER];
    assert all[1..] == [TIED, TIED_EARLIER] && all[1..][1..] == [TIED_EARLIER] && all[1..][1..][1..] == [];
    EpochStep(all, 5);
    EpochStep([TIED, TIED_EARLIER], 5);
    EpochStep([TIED_EARLIER], 5);
    assert OfEpoch([], 5) == [];
    var key := KeyOf(Amounts, TIED);
    SharingStep(all, key);
    SharingStep([TIED, TIED_EARLIER], key);
    SharingStep([TIED_EARLIER], key);
    assert Sharing([], key) == [];
    hide OfEpoch, Sharing;
    assert OfEpoch([TIED, TIED_EARLIER], 5) == [TIED];
    assert OfEpoch(all, 5) == [TOP] + [TIED];
  }

  /** The same delegatee with the same total in two epochs: with pages of one row, the walk repeats itself for ever. */
  lemma WalkNeverEnds(pages: seq<Page>)
    ensures Totals([TOP, TIED, TIED_EARLIER])
    ensures !IsTotalsWalk(pages, [TOP, TIED, TIED_EARLIER], 5, 1, None)
  {
    var all := [TOP, TIED, TIED_EARLIER];
    TiedRows();
    WalkEndsIff(all, 5, 1);
    hide IsTotalsWalk, Totals, Sorted, OfEpoch, Sharing, Select, KeyOf;
    assert ReachesTie(all, 1, TIED);
  }
}
