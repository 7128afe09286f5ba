/** Maximal runs of joined rows with equal keys: what a one-pass group-by has to produce. */
module RowGroups {

  ghost predicate NonEmpty<R>(gs: seq<seq<R>>) {
    forall i :: 0 <= i < |gs| ==> gs[i] != []
  }

  /** One more row: it joins the last run, or starts a new one. */
  ghost function AddRow<R, K>(gs: seq<seq<R>>, row: R, key: R -> K): (r: seq<seq<R>>)
    requires NonEmpty(gs)
    ensures NonEmpty(r) && r != []
  {
    if gs != [] && key(gs[|gs| - 1][0]) == key(row) then gs[..|gs| - 1] + [gs[|gs| - 1] + [row]]
    else gs + [[row]]
  }

  ghost function Groups<R, K>(rows: seq<R>, key: R -> K): (gs: seq<seq<R>>)
    ensures NonEmpty(gs) && (gs == [] <==> rows == [])
  {
    if rows == [] then [] else AddRow(Groups(rows[..|rows| - 1], key), rows[|rows| - 1], key)
  }

  ghost function Flatten<R>(gs: seq<seq<R>>): seq<R> {
    if gs == [] then [] else Flatten(gs[..|gs| - 1]) + gs[|gs| - 1]
  }

  /** gs cuts rows into nonempty pieces of one key each, and neighbours have different keys. */
  ghost predicate IsGrouping<R, K>(gs: seq<seq<R>>, rows: seq<R>, key: R -> K) {
    && Flatten(gs) == rows
    && (forall i :: 0 <= i < |gs| ==> OneKey(gs[i], key))
    && (forall i, j :: 0 <= i && j == i + 1 && j < |gs| ==> key(gs[i][0]) != key(gs[j][0]))
  }

  ghost predicate OneKey<R, K>(g: seq<R>, key: R -> K) {
    g != [] && forall j :: 0 <= j < |g| ==> key(g[j]) == key(g[0])
  }

  lemma FlattenOneMore<R>(gs: seq<seq<R>>, g: seq<R>)
    ensures Flatten(gs + [g]) == Flatten(gs) + g
  {
    assert (gs + [g])[..|gs|] == gs;
  }

  lemma LongerLastRun<R, K>(gs: seq<seq<R>>, rows: seq<R>, row: R, key: R -> K)
    requires gs != [] && IsGrouping(gs, rows, key) && key(gs[|gs| - 1][0]) == key(row)
    ensures IsGrouping(gs[..|gs| - 1] + [gs[|gs| - 1] + [row]], rows + [row], key)
  {
    var n := |gs| - 1;
    var longer := gs[..n] + [gs[n] + [row]];
    FlattenOneMore(gs[..n], gs[n] + [row]);
    assert Flatten(gs[..n]) + (gs[n] + [row]) == (Flatten(gs[..n]) + gs[n]) + [row];
    assert OneKey(longer[n], key);
    assert forall i :: 0 <= i < n ==> longer[i] == gs[i] && OneKey(gs[i], key);
    assert longer[n][0] == gs[n][0];
  }

  lemma NewRun<R, K>(gs: seq<seq<R>>, rows: seq<R>, row: R, key: R -> K)
    requires IsGrouping(gs, rows, key) && (gs != [] ==> key(gs[|gs| - 1][0]) != key(row))
    ensures IsGrouping(gs + [[row]], rows + [row], key)
  {
    FlattenOneMore(gs, [row]);
    assert OneKey([row], key);
  }

  lemma {:induction false} GroupsAreAGrouping<R, K>(rows: seq<R>, key: R -> K)
    ensures IsGrouping(Groups(rows, key), rows, key)
  {
    if rows != [] {
      var front, row := rows[..|rows| - 1], rows[|rows| - 1];
      var gs := Groups(front, key);
      GroupsAreAGrouping(front, key);
      assert rows == front + [row];
      if gs != [] && key(gs[|gs| - 1][0]) == key(row) {
        LongerLastRun(gs, front, row, key);
      } else {
        NewRun(gs, front, row, key);
      }
    }
  }

  /** A grouping without its very last row. */
  ghost function DropLast<R>(gs: seq<seq<R>>): seq<seq<R>>
    requires gs != [] && gs[|gs| - 1] != []
  {
    var n := |gs| - 1;
    if |gs[n]| == 1 then gs[..n] else gs[..n] + [gs[n][..|gs[n]| - 1]]
  }

  lemma DropLastIsAGrouping<R, K>(gs: seq<seq<R>>, rows: seq<R>, key: R -> K)
    requires rows != [] && gs != [] && IsGrouping(gs, rows, key)
    ensures gs[|gs| - 1][|gs[|gs| - 1]| - 1] == rows[|rows| - 1]
    ensures IsGrouping(DropLast(gs), rows[..|rows| - 1], key)
  {
    var n := |gs| - 1;
    var g := gs[n];
    assert Flatten(gs) == Flatten(gs[..n]) + g;
    assert forall i :: 0 <= i <= n ==> OneKey(gs[i], key);
    if |g| == 1 {
      assert Flatten(gs[..n]) == rows[..|rows| - 1];
    } else {
      var front := g[..|g| - 1];
      FlattenOneMore(gs[..n], front);
      assert Flatten(DropLast(gs)) == rows[..|rows| - 1];
      assert front[0] == g[0] && OneKey(front, key);
      assert forall i :: 0 <= i < n ==> DropLast(gs)[i] == gs[i];
    }
  }

  lemma NoLongerThanAll<R>(gs: seq<seq<R>>)
    requires gs != []
    ensures |gs[|gs| - 1]| <= |Flatten(gs)|
  {
  }

  /** There is only one way to cut rows into maximal runs. */
  lemma {:induction false} GroupingIsUnique<R, K>(gs: seq<seq<R>>, rows: seq<R>, key: R -> K)
    requires IsGrouping(gs, rows, key)
    ensures gs == Groups(rows, key)
    decreases |rows|
  {
    if rows == [] {
      if gs != [] {
        NoLongerThanAll(gs);
      }
    } else {
      DropLastIsAGrouping(gs, rows, key);
      GroupingIsUnique(DropLast(gs), rows[..|rows| - 1], key);
      assert NonEmpty(gs) by { assert forall i :: 0 <= i < |gs| ==> OneKey(gs[i], key); }
      PutBack(gs, rows[|rows| - 1], key);
    }
  }

  lemma PutBack<R, K>(gs: seq<seq<R>>, row: R, key: R -> K)
    requires gs != [] && NonEmpty(gs) && (forall i :: 0 <= i < |gs| ==> OneKey(gs[i], key))
    requires |gs| > 1 ==> key(gs[|gs| - 2][0]) != key(gs[|gs| - 1][0])
    requires gs[|gs| - 1][|gs[|gs| - 1]| - 1] == row
    ensures NonEmpty(DropLast(gs)) && AddRow(DropLast(gs), row, key) == gs
  {
    var n := |gs| - 1;
    var g := gs[n];
    var less := DropLast(gs);
    assert OneKey(g, key);
    assert forall i :: 0 <= i < n ==> less[i] == gs[i] && gs[i] != [];
    if |g| == 1 {
      assert g == [row] && gs == gs[..n] + [[row]];
    } else {
      assert less[n] == g[..|g| - 1] && key(g[|g| - 1]) == key(g[0]);
      assert g == less[n] + [row];
      assert gs == less[..n] + [g];
    }
  }
}
