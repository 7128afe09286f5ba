/** Keyset pagination: fetch one row more than asked for, drop it, and hand out its key as the next token. */
module Pagination {
  import opened GoInts
  import opened Options
  import opened Tokens

  /** `size` is the size of a pool, or an amount in units of 10^-18; `epoch` only matters where epochs are filtered. */
  datatype Row = Row(id: int, size: nat, epoch: nat, data: string)

  /** page, page2, Pools and EpochDelegateeRewards differ in the key they put into the token. */
  datatype Listing = UintIds | IntIds | Pools | Amounts

  datatype Key = Key(id: int, size: real)

  predicate BySize(listing: Listing) {
    listing.Pools? || listing.Amounts?
  }

  /** ORDER BY id DESC, or ORDER BY size DESC, id. */
  predicate Before(listing: Listing, a: Row, b: Row) {
    if BySize(listing) then a.size > b.size || (a.size == b.size && a.id < b.id) else a.id > b.id
  }

  predicate IdFits(listing: Listing, r: Row) {
    match listing
    case UintIds => 0 <= r.id < TWO64
    case IntIds => -TWO63 <= r.id < TWO63
    case Pools => 0 <= r.id < TWO64 && r.size < TWO64
    case Amounts => 0 <= r.id < TWO64
  }

  /** The column has 18 digits after the point. */
  function Amount(size: nat): Decimal {
    Decimal(size, -18)
  }

  function TokenOf(listing: Listing, r: Row): string {
    match listing
    case Pools => FormatInt(r.id) + "-" + FormatNat(r.size)
    case Amounts => FormatInt(r.id) + "-" + FormatDecimal(Amount(r.size))
    case _ => FormatInt(r.id)
  }

  /** A decimal in units of 10^-18. */
  function InUnits(d: Decimal): real {
    if d.exp >= -18 then Shifted(d.coef, d.exp + 18) as real else d.coef as real / Pow10(-18 - d.exp) as real
  }

  function ParseToken(listing: Listing, token: Option<string>): Parsed<Key> {
    match listing
    case UintIds => (match ParseUintContinuationToken(token)
                     case NoToken => NoToken case InvalidToken => InvalidToken case Token(n) => Token(Key(n, 0.0)))
    case IntIds => (match ParseIntContinuationToken(token)
                    case NoToken => NoToken case InvalidToken => InvalidToken case Token(n) => Token(Key(n, 0.0)))
    case Pools => (match ParsePairToken(token)
                   case NoToken => NoToken case InvalidToken => InvalidToken
                   case Token(p) => Token(Key(p.0, p.1 as real)))
    case Amounts => (match ParseUintAndAmountToken(token)
                     case NoToken => NoToken case InvalidToken => InvalidToken
                     case Token(p) => Token(Key(p.0, InUnits(p.1))))
  }

  /** The WHERE clause. */
  predicate Matches(listing: Listing, r: Row, key: Key) {
    if BySize(listing) then (r.size as real == key.size && r.id >= key.id) || r.size as real < key.size
    else r.id <= key.id
  }

  function Select(listing: Listing, table: seq<Row>, key: Key): seq<Row> {
    if table == [] then []
    else (if Matches(listing, table[0], key) then [table[0]] else []) + Select(listing, table[1..], key)
  }

  function Take(rows: seq<Row>, limit: nat): seq<Row> {
    if |rows| <= limit then rows else rows[..limit]
  }

  function Query(listing: Listing, table: seq<Row>, limit: nat, key: Option<Key>): seq<Row> {
    Take(if key.None? then table else Select(listing, table, key.value), limit)
  }

  datatype Page = Page(rows: seq<Row>, next: Option<string>)

  function GetResWithContinuationToken(lastToken: string, count: nat, slice: seq<Row>): Page {
    if |slice| > 0 && |slice| == count + 1 then Page(slice[..|slice| - 1], Some(lastToken)) else Page(slice, None)
  }

  function LastToken(listing: Listing, rows: seq<Row>): string {
    if rows == [] then "" else TokenOf(listing, rows[|rows| - 1])
  }

  /** None is the error of an invalid token. */
  function PageOf(listing: Listing, table: seq<Row>, count: nat, token: Option<string>): Option<Page> {
    var parsed := ParseToken(listing, token);
    if parsed.InvalidToken? then None
    else
      var rows := Query(listing, table, count + 1, if parsed.Token? then Some(parsed.value) else None);
      Some(GetResWithContinuationToken(LastToken(listing, rows), count, rows))
  }

  // ---------------------------------------------------------------- tables and how they grow

  ghost predicate Table(listing: Listing, table: seq<Row>) {
    && (forall i, j :: 0 <= i < j < |table| ==> Before(listing, table[i], table[j]))
    && (forall i :: 0 <= i < |table| ==> IdFits(listing, table[i]))
  }

  ghost predicate IsSuffix(a: seq<Row>, b: seq<Row>) {
    |a| <= |b| && b[|b| - |a|..] == a
  }

  /** The table each request sees; between two requests, rows may only be added before all others. */
  ghost predicate Growing(listing: Listing, tables: nat -> seq<Row>) {
    && (forall k: nat :: Table(listing, tables(k)))
    && (forall k: nat :: IsSuffix(tables(k), tables(k + 1)))
  }

  lemma {:induction false} LaterTables(listing: Listing, tables: nat -> seq<Row>, k: nat, n: nat, rest: seq<Row>)
    requires Growing(listing, tables) && k <= n && IsSuffix(rest, tables(k))
    ensures IsSuffix(rest, tables(n))
    decreases n - k
  {
    if k < n {
      assert IsSuffix(tables(k), tables(k + 1));
      var a, b := tables(k), tables(k + 1);
      assert b[|b| - |a|..][|a| - |rest|..] == b[|b| - |rest|..];
      LaterTables(listing, tables, k + 1, n, rest);
    }
  }

  // ---------------------------------------------------------------- a token selects a suffix

  function KeyOf(listing: Listing, r: Row): Key {
    Key(r.id, if BySize(listing) then r.size as real else 0.0)
  }

  lemma SameInUnits(d: Decimal, size: nat)
    requires SameNumber(d, Amount(size))
    ensures InUnits(d) == size as real
  {
    if d.exp <= -18 {
      assert d.coef == Shifted(size, -18 - d.exp);
      var p := Pow10(-18 - d.exp) as real;
      assert d.coef as real == size as real * p;
      assert d.exp == -18 ==> Pow10(0) == 1;
    }
  }

  lemma TokenKey(listing: Listing, r: Row)
    requires IdFits(listing, r)
    ensures ParseToken(listing, Some(TokenOf(listing, r))) == Token(KeyOf(listing, r))
  {
    match listing
    case UintIds => UintTokenRoundTrip(r.id);
    case IntIds => IntTokenRoundTrip(r.id);
    case Pools => PairTokenRoundTrip(r.id, r.size);
    case Amounts =>
      AmountTokenRoundTrip(r.id, Amount(r.size));
      var parsed := ParseUintAndAmountToken(Some(AmountToken(r.id, Amount(r.size)))).value;
      hide ParseUintAndAmountToken, FormatDecimal, FormatNat, InUnits, SameNumber;
      SameInUnits(parsed.1, r.size);
  }

  lemma {:induction false} SelectAll(listing: Listing, table: seq<Row>, key: Key)
    requires forall i :: 0 <= i < |table| ==> Matches(listing, table[i], key)
    ensures Select(listing, table, key) == table
  {
    if table != [] {
      SelectAll(listing, table[1..], key);
      assert [table[0]] + table[1..] == table;
    }
  }

  /** The filter by a row's key keeps exactly that row and the rows after it. */
  lemma {:induction false} SelectIsSuffix(listing: Listing, table: seq<Row>, i: nat)
    requires Table(listing, table) && i < |table|
    ensures Select(listing, table, KeyOf(listing, table[i])) == table[i..]
  {
    var key := KeyOf(listing, table[i]);
    if i == 0 {
      assert forall j :: 0 < j < |table| ==> Before(listing, table[0], table[j]);
      SelectAll(listing, table, key);
    } else {
      assert Before(listing, table[0], table[i]);
      SelectIsSuffix(listing, table[1..], i - 1);
      assert table[1..][i - 1..] == table[i..];
    }
  }

  /** The page for the rows `rest` that are still to come. */
  function PageFor(listing: Listing, rest: seq<Row>, count: nat): Page {
    if |rest| <= count then Page(rest, None) else Page(rest[..count], Some(TokenOf(listing, rest[count])))
  }

  lemma FullPage(listing: Listing, rest: seq<Row>, count: nat)
    ensures var rows := Take(rest, count + 1);
            GetResWithContinuationToken(LastToken(listing, rows), count, rows) == PageFor(listing, rest, count)
  {
    hide TokenOf;
    var rows := Take(rest, count + 1);
    if |rest| > count {
      assert rows[..count] == rest[..count];
    }
  }

  lemma FirstPage(listing: Listing, table: seq<Row>, count: nat)
    ensures PageOf(listing, table, count, None) == Some(PageFor(listing, table, count))
  {
    assert ParseToken(listing, None) == NoToken;
    hide ParseToken, TokenOf, Select, Take, LastToken, GetResWithContinuationToken, PageFor;
    FullPage(listing, table, count);
  }

  lemma NextPage(listing: Listing, table: seq<Row>, count: nat, rest: seq<Row>)
    requires Table(listing, table) && IsSuffix(rest, table) && rest != []
    ensures PageOf(listing, table, count, Some(TokenOf(listing, rest[0]))) == Some(PageFor(listing, rest, count))
  {
    var i := |table| - |rest|;
    assert table[i] == rest[0] && table[i..] == rest && IdFits(listing, table[i]);
    hide Table, Before, IdFits, TokenOf, ParseToken, KeyOf, Select, Take, LastToken, GetResWithContinuationToken,
         PageFor;
    TokenKey(listing, table[i]);
    SelectIsSuffix(listing, table, i);
    FullPage(listing, rest, count);
  }

  // ---------------------------------------------------------------- whole walks

  /** pages answers the requests from the n-th on: each one carries the token of the page before it. */
  ghost predicate IsWalk(pages: seq<Page>, listing: Listing, tables: nat -> seq<Row>, count: nat,
                         n: nat, token: Option<string>)
  {
    && pages != []
    && PageOf(listing, tables(n), count, token) == Some(pages[0])
    && if pages[0].next.None? then |pages| == 1
       else IsWalk(pages[1..], listing, tables, count, n + 1, pages[0].next)
  }

  ghost function RowsOf(pages: seq<Page>): seq<Row> {
    if pages == [] then [] else pages[0].rows + RowsOf(pages[1..])
  }

  function PageCount(rows: nat, count: nat): nat
    requires count >= 1
  {
    if rows <= count then 1 else 1 + PageCount(rows - count, count)
  }

  lemma {:induction false} PageCountIsCeiling(rows: nat, count: nat)
    requires count >= 1
    ensures (PageCount(rows, count) - 1) * count < (if rows == 0 then 1 else rows) <= PageCount(rows, count) * count
  {
    if rows > count {
      PageCountIsCeiling(rows - count, count);
      var n := PageCount(rows - count, count);
      assert (n + 1) * count == n * count + count;
      assert n * count == (n - 1) * count + count;
    }
  }

  /** At request n, exactly the rows of `rest` are still to be returned. */
  ghost predicate RestAt(listing: Listing, tables: nat -> seq<Row>, n: nat, token: Option<string>, rest: seq<Row>) {
    && IsSuffix(rest, tables(n))
    && if token.None? then rest == tables(n) else rest != [] && token.value == TokenOf(listing, rest[0])
  }

  lemma PageAt(listing: Listing, tables: nat -> seq<Row>, count: nat, n: nat, token: Option<string>, rest: seq<Row>)
    requires Growing(listing, tables) && RestAt(listing, tables, n, token, rest)
    ensures PageOf(listing, tables(n), count, token) == Some(PageFor(listing, rest, count))
  {
    assert Table(listing, tables(n));
    if token.None? {
      FirstPage(listing, rest, count);
    } else {
      NextPage(listing, tables(n), count, rest);
    }
  }

  lemma RestAfter(listing: Listing, tables: nat -> seq<Row>, count: nat, n: nat, token: Option<string>, rest: seq<Row>)
    requires Growing(listing, tables) && RestAt(listing, tables, n, token, rest) && |rest| > count
    ensures RestAt(listing, tables, n + 1, PageFor(listing, rest, count).next, rest[count..])
  {
    hide Growing, TokenOf;
    var later, t := rest[count..], tables(n);
    assert t[|t| - |rest|..][count..] == t[|t| - |later|..];
    LaterTables(listing, tables, n, n + 1, later);
  }

  /** Every page but the last hands out the token of the first row of the next one. */
  ghost predicate Linked(pages: seq<Page>, listing: Listing) {
    |pages| <= 1
    || (pages[1].rows != [] && pages[0].next == Some(TokenOf(listing, pages[1].rows[0])) && Linked(pages[1..], listing))
  }

  /** Walking from any point returns exactly the rows that were left at that point. */
  lemma {:induction false} WalkReturnsRest(pages: seq<Page>, listing: Listing, tables: nat -> seq<Row>, count: nat,
                                           n: nat, token: Option<string>, rest: seq<Row>)
    requires count >= 1 && Growing(listing, tables) && RestAt(listing, tables, n, token, rest)
    requires IsWalk(pages, listing, tables, count, n, token)
    ensures RowsOf(pages) == rest
    ensures |pages| == PageCount(|rest|, count)
    ensures forall i :: 0 <= i < |pages| ==> |pages[i].rows| <= count
    ensures Linked(pages, listing) && pages[0] == PageFor(listing, rest, count)
    decreases |pages|
  {
    hide PageOf, Growing, TokenOf, RestAt;
    PageAt(listing, tables, count, n, token, rest);
    assert pages == [pages[0]] + pages[1..];
    if |rest| > count {
      RestAfter(listing, tables, count, n, token, rest);
      WalkReturnsRest(pages[1..], listing, tables, count, n + 1, pages[0].next, rest[count..]);
      OnePageMore(pages[0], pages[1..], listing, rest, count);
    } else {
      assert pages[1..] == [];
      assert rest + [] == rest;
    }
  }

  lemma OnePageMore(page: Page, more: seq<Page>, listing: Listing, rest: seq<Row>, count: nat)
    requires 1 <= count < |rest| && page == PageFor(listing, rest, count)
    requires RowsOf(more) == rest[count..] && |more| == PageCount(|rest| - count, count)
    requires forall i :: 0 <= i < |more| ==> |more[i].rows| <= count
    requires Linked(more, listing) && more[0] == PageFor(listing, rest[count..], count)
    ensures RowsOf([page] + more) == rest && |[page] + more| == PageCount(|rest|, count)
    ensures forall i :: 0 <= i < |[page] + more| ==> |([page] + more)[i].rows| <= count
    ensures Linked([page] + more, listing)
  {
    hide TokenOf;
    var pages := [page] + more;
    assert pages[1..] == more && pages[1] == more[0];
    assert more[0].rows[0] == rest[count];
    assert rest[..count] + rest[count..] == rest;
  }

  /** The keys of two tokens are strictly in the listing's order: ids, or sizes and then ids, have moved on. */
  ghost predicate TokenAfter(listing: Listing, later: Option<string>, earlier: Option<string>) {
    var a, b := ParseToken(listing, earlier), ParseToken(listing, later);
    a.Token? && b.Token?
    && if BySize(listing) then b.value.size < a.value.size || (b.value.size == a.value.size && b.value.id > a.value.id)
       else b.value.id < a.value.id
  }

  /** Each token is strictly after the one before it. */
  ghost predicate Descending(pages: seq<Page>, listing: Listing) {
    |pages| <= 2 || (TokenAfter(listing, pages[1].next, pages[0].next) && Descending(pages[1..], listing))
  }

  lemma KeysDescend(listing: Listing, a: Row, b: Row)
    requires Before(listing, a, b) && IdFits(listing, a) && IdFits(listing, b)
    ensures TokenAfter(listing, Some(TokenOf(listing, b)), Some(TokenOf(listing, a)))
  {
    TokenKey(listing, a);
    TokenKey(listing, b);
    hide ParseToken, TokenOf, IdFits;
  }

  lemma {:induction false} TokensDescend(pages: seq<Page>, listing: Listing, rest: seq<Row>)
    requires Table(listing, rest) && Linked(pages, listing) && RowsOf(pages) == rest
    ensures Descending(pages, listing)
    decreases |pages|
  {
    hide TokenAfter, TokenOf, Before, IdFits;
    if |pages| > 2 {
      var a, b := pages[0].rows, pages[1].rows;
      assert pages[1..][1..] == pages[2..] && pages[1..][0] == pages[1] && pages[1..][1] == pages[2];
      assert rest == a + (b + RowsOf(pages[2..]));
      assert RowsOf(pages[2..]) == pages[2].rows + RowsOf(pages[2..][1..]);
      assert RowsOf(pages[1..]) == rest[|a|..];
      var i, j := |a|, |a| + |b|;
      assert rest[i] == b[0] && rest[j] == pages[2].rows[0];
      KeysDescend(listing, rest[i], rest[j]);
      TokensDescend(pages[1..], listing, rest[|a|..]);
    }
  }

  /**
   * Following the tokens from nil returns the rows of the first request, in order, without gap or repetition,
   * whatever is added in front of them meanwhile. Each token names the next page's first row.
   */
  lemma WalkReturnsFirstTable(pages: seq<Page>, listing: Listing, tables: nat -> seq<Row>, count: nat)
    requires count >= 1 && Growing(listing, tables)
    requires IsWalk(pages, listing, tables, count, 0, None)
    ensures RowsOf(pages) == tables(0)
    ensures |pages| == PageCount(|tables(0)|, count)
    ensures forall i :: 0 <= i < |pages| ==> |pages[i].rows| <= count
    ensures Linked(pages, listing) && Descending(pages, listing)
  {
    WalkReturnsRest(pages, listing, tables, count, 0, None, tables(0));
    hide IsWalk, RowsOf, Linked, Descending, Table;
    TokensDescend(pages, listing, tables(0));
  }

  /** There is such a walk: no request of it fails, and it ends. */
  lemma {:induction false} WalkExists(listing: Listing, tables: nat -> seq<Row>, count: nat,
                                      n: nat, token: Option<string>, rest: seq<Row>) returns (pages: seq<Page>)
    requires count >= 1 && Growing(listing, tables) && RestAt(listing, tables, n, token, rest)
    ensures IsWalk(pages, listing, tables, count, n, token)
    decreases |rest|
  {
    hide PageOf, Growing, TokenOf, RestAt;
    var page := PageFor(listing, rest, count);
    PageAt(listing, tables, count, n, token, rest);
    if |rest| > count {
      RestAfter(listing, tables, count, n, token, rest);
      var more := WalkExists(listing, tables, count, n + 1, page.next, rest[count..]);
      pages := [page] + more;
      assert pages[1..] == more;
    } else {
      pages := [page];
    }
  }

  lemma {:induction false} ZeroLimitRepeats(pages: seq<Page>, listing: Listing, tables: nat -> seq<Row>,
                                            n: nat, token: Option<string>, rest: seq<Row>)
    requires Growing(listing, tables) && RestAt(listing, tables, n, token, rest) && rest != []
    ensures !IsWalk(pages, listing, tables, 0, n, token)
    decreases |pages|
  {
    hide PageOf, Growing, TokenOf, RestAt;
    PageAt(listing, tables, 0, n, token, rest);
    RestAfter(listing, tables, 0, n, token, rest);
    assert rest[0..] == rest;
    if pages != [] {
      ZeroLimitRepeats(pages[1..], listing, tables, n + 1, Some(TokenOf(listing, rest[0])), rest);
    }
  }

  lemma EmptyWalk(listing: Listing, tables: nat -> seq<Row>, count: nat) returns (pages: seq<Page>)
    requires tables(0) == []
    ensures IsWalk(pages, listing, tables, count, 0, None)
  {
    FirstPage(listing, [], count);
    pages := [Page([], None)];
  }

  /** A positive limit, or nothing to return, is enough for a walk from nil to end. */
  lemma SomeWalkEnds(listing: Listing, tables: nat -> seq<Row>, count: nat)
    requires Growing(listing, tables) && (count >= 1 || tables(0) == [])
    ensures exists pages :: IsWalk(pages, listing, tables, count, 0, None)
  {
    if count >= 1 {
      var pages := WalkExists(listing, tables, count, 0, None, tables(0));
    } else {
      var pages := EmptyWalk(listing, tables, count);
    }
  }

  /** And it is necessary: with a limit of 0 the same token comes back for ever. */
  lemma ZeroLimitNeverEnds(pages: seq<Page>, listing: Listing, tables: nat -> seq<Row>)
    requires Growing(listing, tables) && tables(0) != []
    ensures !IsWalk(pages, listing, tables, 0, 0, None)
  {
    ZeroLimitRepeats(pages, listing, tables, 0, None, tables(0));
  }
}
