/** The transactions of an address: pending ones from the memory pool, then pages from the database. */
module IdentityTxs {
  import opened GoInts
  import opened Options
  import opened Pagination

  /** int(count). */
  function AsInt(count: uint64): int {
    if count < TWO63 then count else count - TWO64
  }

  /** What the loop over the pool takes; a count that is 0, or negative as an int, never stops it. */
  function FromMemPool(count: uint64, memPool: seq<Row>): seq<Row> {
    if 1 <= AsInt(count) <= |memPool| then memPool[..count] else memPool
  }

  /** What is left of the count for the database. */
  function LeftFor(count: uint64, taken: nat): uint64 {
    if taken <= count then count - taken else Uint64(count - taken)
  }

  /** The answer to one request. */
  function Response(count: uint64, token: Option<string>, memPool: seq<Row>, table: seq<Row>): Option<Page> {
    var txs := if token.None? then FromMemPool(count, memPool) else [];
    var left := LeftFor(count, |txs|);
    if left == 0 then Some(Page(txs, None))
    else match PageOf(UintIds, table, left, token)
      case None => None
      case Some(page) => Some(Page(txs + page.rows, page.next))
  }

  /** The loop: the length of the result is compared with the count only after each append. */
  method TakeFromMemPool(count: uint64, memPool: seq<Row>) returns (res: seq<Row>)
    ensures res == FromMemPool(count, memPool)
  {
    res := [];
    for i := 0 to |memPool|
      invariant res == memPool[..i]
      invariant 1 <= AsInt(count) ==> i < AsInt(count) || i == 0
    {
      res := res + [memPool[i]];
      if |res| == AsInt(count) {
        break;
      }
    }
  }

  /** `underflow` reports that the unsigned subtraction wrapped around. */
  method GetIdentityTxs(count: uint64, token: Option<string>, memPool: seq<Row>, table: seq<Row>)
    returns (response: Option<Page>, underflow: bool)
    ensures response == Response(count, token, memPool, table)
    ensures underflow <==> token.None? && |memPool| > count && (count == 0 || count >= TWO63)
    ensures 1 <= count < TWO63 && response.Some? ==> |response.value.rows| <= count
  {
    hide PageOf, Uint64;
    var res: seq<Row> := [];
    var left := count;
    underflow := false;
    if token.None? {
      res := TakeFromMemPool(count, memPool);
      underflow := |res| > left;
      left := LeftFor(left, |res|);
    }
    if left > 0 {
      var page := PageOf(UintIds, table, left, token);
      if page.None? {
        return None, underflow;
      }
      PageFits(table, left, token);
      return Some(Page(res + page.value.rows, page.value.next)), underflow;
    }
    return Some(Page(res, None)), underflow;
  }

  lemma PageFits(table: seq<Row>, count: nat, token: Option<string>)
    requires PageOf(UintIds, table, count, token).Some?
    ensures |PageOf(UintIds, table, count, token).value.rows| <= count
  {
  }

  /** The first request shows the pool; the following ones carry a token and continue in the database. */
  ghost predicate IsTxWalk(pages: seq<Page>, memPool: seq<Row>, tables: nat -> seq<Row>, count: uint64) {
    && pages != []
    && Response(count, None, memPool, tables(0)) == Some(pages[0])
    && if pages[0].next.None? then |pages| == 1
       else IsWalk(pages[1..], UintIds, tables, count, 1, pages[0].next)
  }

  /** A request with a token sees the database only, whatever is in the pool by then. */
  lemma TokenSkipsPool(count: uint64, token: string, memPool: seq<Row>, table: seq<Row>)
    requires count >= 1
    ensures Response(count, Some(token), memPool, table) == PageOf(UintIds, table, count, Some(token))
  {
    hide PageOf;
    match PageOf(UintIds, table, count, Some(token))
    case None =>
    case Some(page) => assert [] + page.rows == page.rows;
  }

  lemma AllAtFirst(tables: nat -> seq<Row>)
    ensures RestAt(UintIds, tables, 0, None, tables(0))
  {
  }

  lemma FirstResponse(memPool: seq<Row>, tables: nat -> seq<Row>, count: uint64)
    requires 1 <= count < TWO63 && |memPool| < count && Growing(UintIds, tables)
    ensures var page := PageFor(UintIds, tables(0), count - |memPool|);
            Response(count, None, memPool, tables(0)) == Some(Page(memPool + page.rows, page.next))
  {
    hide Growing, RestAt, PageOf, Uint64, PageFor;
    AllAtFirst(tables);
    PageAt(UintIds, tables, count - |memPool|, 0, None, tables(0));
  }

  lemma RoomOnFirstPage(pages: seq<Page>, memPool: seq<Row>, tables: nat -> seq<Row>, count: uint64)
    requires 1 <= count < TWO63 && |memPool| < count && Growing(UintIds, tables)
    requires IsTxWalk(pages, memPool, tables, count)
    ensures RowsOf(pages) == memPool + tables(0)
  {
    hide Growing, RestAt, PageOf, Response, PageFor, IsWalk, RowsOf, PageCount, Linked;
    var rest, first := tables(0), count - |memPool|;
    AllAtFirst(tables);
    FirstResponse(memPool, tables, count);
    PageForParts(rest, first);
    if |rest| > first {
      RestAfter(UintIds, tables, first, 0, None, rest);
      WalkReturnsRest(pages[1..], UintIds, tables, count, 1, pages[0].next, rest[first..]);
      RowsOfTwo(pages);
      assert memPool + rest[..first] + rest[first..] == memPool + rest;
    } else {
      RowsOfOne(pages);
    }
  }

  lemma RowsOfTwo(pages: seq<Page>)
    requires pages != []
    ensures RowsOf(pages) == pages[0].rows + RowsOf(pages[1..])
  {
  }

  lemma RowsOfOne(pages: seq<Page>)
    requires |pages| == 1
    ensures RowsOf(pages) == pages[0].rows
  {
    assert RowsOf(pages[1..]) == [];
  }

  /**
   * The whole walk: the pool's transactions and then all of the database's, unless the pool fills the first page.
   * Then no token is handed out and the database's transactions are never reached.
   */
  lemma TxWalkReturns(pages: seq<Page>, memPool: seq<Row>, tables: nat -> seq<Row>, count: uint64)
    requires 1 <= count < TWO63 && Growing(UintIds, tables) && IsTxWalk(pages, memPool, tables, count)
    ensures RowsOf(pages) == if |memPool| < count then memPool + tables(0) else memPool[..count]
  {
    if |memPool| < count {
      RoomOnFirstPage(pages, memPool, tables, count);
    } else {
      hide PageOf, Growing, IsWalk, RowsOf;
      assert pages[0] == Page(memPool[..count], None);
      RowsOfOne(pages);
    }
  }

  lemma PageForParts(rest: seq<Row>, count: nat)
    ensures var page := PageFor(UintIds, rest, count);
            if |rest| <= count then page == Page(rest, None) else page.rows == rest[..count] && page.next.Some?
  {
  }

  /** There is such a walk, whatever the pool holds. */
  lemma TxWalkExists(memPool: seq<Row>, tables: nat -> seq<Row>, count: uint64) returns (pages: seq<Page>)
    requires 1 <= count < TWO63 && Growing(UintIds, tables)
    ensures IsTxWalk(pages, memPool, tables, count)
  {
    hide Growing, RestAt, PageOf, IsWalk;
    if |memPool| < count {
      hide Response;
      var rest, first := tables(0), count - |memPool|;
      var page := PageFor(UintIds, rest, first);
      AllAtFirst(tables);
      FirstResponse(memPool, tables, count);
      pages := [Page(memPool + page.rows, page.next)];
      if |rest| > first {
        RestAfter(UintIds, tables, first, 0, None, rest);
        var more := WalkExists(UintIds, tables, count, 1, page.next, rest[first..]);
        pages := pages + more;
        assert pages[1..] == more;
      }
    } else {
      pages := [Page(memPool[..count], None)];
    }
  }

  /**
   * So a walk loses nothing, of the pool or of the database, exactly when the pool leaves room on the first page, or
   * fills it exactly and the database has nothing.
   */
  lemma TxWalkIsCompleteIff(pages: seq<Page>, memPool: seq<Row>, tables: nat -> seq<Row>, count: uint64)
    requires 1 <= count < TWO63 && Growing(UintIds, tables) && IsTxWalk(pages, memPool, tables, count)
    ensures RowsOf(pages) == memPool + tables(0) <==>
              |memPool| < count || (|memPool| == count && tables(0) == [])
  {
    hide Growing, IsTxWalk, RowsOf;
    TxWalkReturns(pages, memPool, tables, count);
    assert |memPool + tables(0)| == |memPool| + |tables(0)|;
    assert |memPool| == count ==> memPool[..count] == memPool;
    assert memPool + [] == memPool;
  }
}
