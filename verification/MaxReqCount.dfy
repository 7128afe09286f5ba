/** The sort-and-sweep that finds the peak number of simultaneous requests. */
module MaxReqCount {
  import opened GoInts
  import opened Options

  /** What one monitored request looks like at the moment it is read. */
  datatype Record = Record(id: uint32, name: string, details: string, start: int, finish: Option<int>)

  datatype Event = Event(time: int, isStart: bool)

  predicate WellTimed(r: Record) {
    r.finish.None? || r.start <= r.finish.value
  }

  /** The requests in progress at instant t. */
  function Active(recordsById: map<uint32, Record>, t: int): set<uint32> {
    set id | id in recordsById && recordsById[id].start <= t
             && (recordsById[id].finish.None? || t <= recordsById[id].finish.value)
  }

  // ---------------------------------------------------------------- events in order

  /** The comparator: by time, and starts come first among equal times. */
  predicate NotAfter(a: Event, b: Event) {
    a.time < b.time || (a.time == b.time && (a.isStart || !b.isStart))
  }

  ghost predicate Sorted(es: seq<Event>) {
    forall i, j :: 0 <= i < j < |es| ==> NotAfter(es[i], es[j])
  }

  /** Where e belongs among sorted events. */
  function Position(e: Event, es: seq<Event>): (k: nat)
    ensures k <= |es|
    ensures forall j :: 0 <= j < k ==> !NotAfter(e, es[j])
    ensures k < |es| ==> NotAfter(e, es[k])
  {
    if es == [] || NotAfter(e, es[0]) then 0 else 1 + Position(e, es[1..])
  }

  lemma InsertedStaysSorted(es: seq<Event>, k: nat, e: Event)
    requires Sorted(es) && k <= |es|
    requires forall j :: 0 <= j < k ==> !NotAfter(e, es[j])
    requires k < |es| ==> NotAfter(e, es[k])
    ensures Sorted(es[..k] + [e] + es[k..])
  {
    var r := es[..k] + [e] + es[k..];
    forall i, j | 0 <= i < j < |r|
      ensures NotAfter(r[i], r[j])
    {
      var x := if i < k then es[i] else if i == k then e else es[i - 1];
      var y := if j < k then es[j] else if j == k then e else es[j - 1];
      assert r[i] == x && r[j] == y;
      assert i != k && j != k ==> NotAfter(x, y);
      assert i == k ==> NotAfter(es[k], y);
    }
  }

  lemma InsertedElements(es: seq<Event>, k: nat, e: Event)
    requires k <= |es|
    ensures multiset(es[..k] + [e] + es[k..]) == multiset(es) + multiset{e}
  {
    assert es == es[..k] + es[k..];
  }

  lemma SplitFirst(es: seq<Event>)
    requires es != []
    ensures multiset(es) == multiset(es[1..]) + multiset{es[0]}
  {
    assert es == [es[0]] + es[1..];
  }

  /** Stands for sort.Slice; only its contract is used. */
  function SortEvents(es: seq<Event>): (r: seq<Event>)
    ensures Sorted(r) && multiset(r) == multiset(es)
  {
    if es == [] then []
    else
      var rest := SortEvents(es[1..]);
      var k := Position(es[0], rest);
      SplitFirst(es);
      InsertedElements(rest, k, es[0]);
      InsertedStaysSorted(rest, k, es[0]);
      rest[..k] + [es[0]] + rest[k..]
  }

  // ---------------------------------------------------------------- counting events up to a cut

  /**
   * A cut of the time line at instant t: before everything that happens at t (phase 0),
   * after the starts at t (phase 1), or after the finishes at t too (phase 2).
   */
  datatype Cut = Cut(t: int, phase: nat)

  predicate InCut(e: Event, c: Cut) {
    e.time < c.t || (e.time == c.t && (if e.isStart then c.phase >= 1 else c.phase >= 2))
  }

  function Sign(e: Event): int {
    if e.isStart then 1 else -1
  }

  function Share(e: Event, c: Cut): int {
    if InCut(e, c) then Sign(e) else 0
  }

  /** Starts minus finishes among the events inside the cut. */
  function Level(es: seq<Event>, c: Cut): int {
    if es == [] then 0 else Level(es[..|es| - 1], c) + Share(es[|es| - 1], c)
  }

  /** Starts minus finishes among all events: what the sweep's counter holds after es. */
  function Balance(es: seq<Event>): int {
    if es == [] then 0 else Balance(es[..|es| - 1]) + Sign(es[|es| - 1])
  }

  lemma {:induction false} LevelConcat(a: seq<Event>, b: seq<Event>, c: Cut)
    ensures Level(a + b, c) == Level(a, c) + Level(b, c)
  {
    if b == [] {
      assert a + b == a;
    } else {
      assert (a + b)[..|a + b| - 1] == a + b[..|b| - 1];
      LevelConcat(a, b[..|b| - 1], c);
    }
  }

  /** The order of the events does not matter to a level. */
  lemma {:induction false} LevelOfPermutation(a: seq<Event>, b: seq<Event>, c: Cut)
    requires multiset(a) == multiset(b)
    ensures Level(a, c) == Level(b, c)
  {
    if a == [] {
      assert |multiset(b)| == 0;
    } else {
      var e := a[|a| - 1];
      assert e in multiset(b);
      var k :| 0 <= k < |b| && b[k] == e;
      var rest := b[..k] + b[k + 1..];
      assert a == a[..|a| - 1] + [e];
      assert b == b[..k] + ([e] + b[k + 1..]);
      assert multiset(rest) == multiset(b) - multiset{e};
      assert multiset(a[..|a| - 1]) == multiset(a) - multiset{e};
      LevelOfPermutation(a[..|a| - 1], rest, c);
      LevelConcat(b[..k], b[k + 1..], c);
      LevelConcat(b[..k], [e] + b[k + 1..], c);
      LevelConcat([e], b[k + 1..], c);
      assert Level([e], c) == Share(e, c) by { assert [e][..0] == []; }
    }
  }

  /** A prefix that misses only starts of the cut and adds only finishes cannot exceed its level. */
  lemma {:induction false} PrefixAtMost(es: seq<Event>, i: nat, c: Cut)
    requires i <= |es|
    requires forall j :: 0 <= j < i ==> InCut(es[j], c) || !es[j].isStart
    requires forall j :: i <= j < |es| ==> !InCut(es[j], c) || es[j].isStart
    ensures Balance(es[..i]) <= Level(es, c)
    decreases |es|
  {
    if es != [] {
      var front := es[..|es| - 1];
      if i < |es| {
        assert es[..i] == front[..i];
        PrefixAtMost(front, i, c);
      } else {
        assert es[..i] == es && front[..i - 1] == front;
        PrefixAtMost(front, i - 1, c);
      }
    }
  }

  lemma {:induction false} PrefixAtLeast(es: seq<Event>, i: nat, c: Cut)
    requires i <= |es|
    requires forall j :: 0 <= j < i ==> InCut(es[j], c) || es[j].isStart
    requires forall j :: i <= j < |es| ==> !InCut(es[j], c) || !es[j].isStart
    ensures Balance(es[..i]) >= Level(es, c)
    decreases |es|
  {
    if es != [] {
      var front := es[..|es| - 1];
      if i < |es| {
        assert es[..i] == front[..i];
        PrefixAtLeast(front, i, c);
      } else {
        assert es[..i] == es && front[..i - 1] == front;
        PrefixAtLeast(front, i - 1, c);
      }
    }
  }

  /** Sorted events enter a cut before they leave it. */
  lemma CutIsPrefix(es: seq<Event>, c: Cut) returns (k: nat)
    requires Sorted(es)
    ensures k <= |es|
    ensures forall j :: 0 <= j < k ==> InCut(es[j], c)
    ensures forall j :: k <= j < |es| ==> !InCut(es[j], c)
  {
    k := 0;
    while k < |es| && InCut(es[k], c)
      invariant k <= |es|
      invariant forall j :: 0 <= j < k ==> InCut(es[j], c)
    {
      k := k + 1;
    }
  }

  // ---------------------------------------------------------------- events of records

  function StartEvent(r: Record): Event {
    Event(r.start, true)
  }

  /** Both events of a record, as they are appended. */
  function EventsOf(r: Record): seq<Event> {
    if r.finish.Some? then [StartEvent(r), Event(r.finish.value, false)] else [StartEvent(r)]
  }

  predicate OpenAt(r: Record, c: Cut) {
    InCut(StartEvent(r), c) && (r.finish.None? || !InCut(Event(r.finish.value, false), c))
  }

  ghost function Open(recordsById: map<uint32, Record>, ids: set<uint32>, c: Cut): set<uint32> {
    set id | id in ids && id in recordsById && OpenAt(recordsById[id], c)
  }

  lemma LevelOfRecord(r: Record, c: Cut)
    requires WellTimed(r)
    ensures Level(EventsOf(r), c) == if OpenAt(r, c) then 1 else 0
  {
    var es := EventsOf(r);
    assert Level([StartEvent(r)], c) == Share(StartEvent(r), c) by { assert [StartEvent(r)][..0] == []; }
    if r.finish.Some? {
      assert es[..1] == [StartEvent(r)];
    }
  }

  /** One more record raises the level of every cut by exactly its being open there. */
  lemma LevelOfOneMore(recordsById: map<uint32, Record>, ids: set<uint32>, id: uint32, es: seq<Event>, c: Cut)
    requires id in recordsById && id !in ids && WellTimed(recordsById[id])
    requires Level(es, c) == |Open(recordsById, ids, c)|
    ensures Level(es + EventsOf(recordsById[id]), c) == |Open(recordsById, ids + {id}, c)|
  {
    LevelConcat(es, EventsOf(recordsById[id]), c);
    LevelOfRecord(recordsById[id], c);
    var more := Open(recordsById, ids + {id}, c);
    if OpenAt(recordsById[id], c) {
      assert more == Open(recordsById, ids, c) + {id};
    } else {
      assert more == Open(recordsById, ids, c);
    }
  }

  ghost predicate EventsOfRecords(es: seq<Event>, recordsById: map<uint32, Record>) {
    && (forall c: Cut :: Level(es, c) == |Open(recordsById, recordsById.Keys, c)|)
    && (forall e :: e in es && e.isStart ==> exists id :: id in recordsById && StartEvent(recordsById[id]) == e)
  }

  lemma OpenIsActive(recordsById: map<uint32, Record>, t: int)
    ensures Open(recordsById, recordsById.Keys, Cut(t, 1)) == Active(recordsById, t)
  {
  }

  /** No prefix of the sorted events finishes more requests than it starts. */
  lemma BalanceNeverNegative(es: seq<Event>, recordsById: map<uint32, Record>, i: nat)
    requires Sorted(es) && EventsOfRecords(es, recordsById) && i <= |es|
    ensures Balance(es[..i]) >= 0
  {
    if i > 0 {
      var c := Cut(es[i - 1].time, if es[i - 1].isStart then 0 else 2);
      PrefixAtLeast(es, i, c);
      assert Level(es, c) == |Open(recordsById, recordsById.Keys, c)|;
    }
  }

  /** Right after a start, the counter does not exceed the number of requests active at that instant. */
  lemma BalanceAtStart(es: seq<Event>, recordsById: map<uint32, Record>, i: nat)
    requires Sorted(es) && EventsOfRecords(es, recordsById) && i < |es| && es[i].isStart
    ensures Balance(es[..i + 1]) <= |Active(recordsById, es[i].time)|
  {
    var c := Cut(es[i].time, 1);
    PrefixAtMost(es, i + 1, c);
    OpenIsActive(recordsById, es[i].time);
    assert Level(es, c) == |Open(recordsById, recordsById.Keys, c)|;
  }

  /** Every instant's number of active requests is reached by some prefix. */
  lemma SomePrefixReaches(es: seq<Event>, recordsById: map<uint32, Record>, t: int) returns (k: nat)
    requires Sorted(es) && EventsOfRecords(es, recordsById)
    ensures k <= |es| && Balance(es[..k]) >= |Active(recordsById, t)|
  {
    var c := Cut(t, 1);
    k := CutIsPrefix(es, c);
    PrefixAtLeast(es, k, c);
    OpenIsActive(recordsById, t);
    assert Level(es, c) == |Open(recordsById, recordsById.Keys, c)|;
  }

  // ---------------------------------------------------------------- the code

  /** The first loop: events in whatever order the map is walked. */
  method CollectEvents(recordsById: map<uint32, Record>) returns (events: seq<Event>)
    requires forall id :: id in recordsById ==> WellTimed(recordsById[id])
    ensures EventsOfRecords(events, recordsById)
    ensures events == [] <==> recordsById == map[]
  {
    events := [];
    var todo := recordsById.Keys;
    ghost var done: set<uint32> := {};
    while todo != {}
      invariant todo !! done && todo + done == recordsById.Keys
      invariant forall c: Cut :: Level(events, c) == |Open(recordsById, done, c)|
      invariant forall e :: e in events && e.isStart ==>
                              exists id :: id in recordsById && StartEvent(recordsById[id]) == e
      invariant events == [] <==> done == {}
    {
      var id :| id in todo;
      var record := recordsById[id];
      forall c: Cut
        ensures Level(events + EventsOf(record), c) == |Open(recordsById, done + {id}, c)|
      {
        LevelOfOneMore(recordsById, done, id, events, c);
      }
      ghost var before := events;
      events := events + [Event(record.start, true)];
      if record.finish.Some? {
        events := events + [Event(record.finish.value, false)];
      }
      assert events == before + EventsOf(record);
      todo := todo - {id};
      done := done + {id};
    }
    assert done == recordsById.Keys;
  }

  /**
   * The result is exactly the maximum, over every instant, of the number of requests in progress,
   * and it is reached at the start of one of them.
   */
  method DetermineMaxReqCount(recordsById: map<uint32, Record>) returns (res: nat)
    requires forall id :: id in recordsById ==> WellTimed(recordsById[id])
    ensures forall t: int :: |Active(recordsById, t)| <= res
    ensures recordsById == map[] ==> res == 0
    ensures recordsById != map[] ==>
              exists id :: id in recordsById && |Active(recordsById, recordsById[id].start)| == res
  {
    hide *;
    var unsorted := CollectEvents(recordsById);
    var events := SortEvents(unsorted);
    SortedEventsOfRecords(unsorted, recordsById);
    forall j | 0 <= j <= |events|
      ensures Balance(events[..j]) >= 0
    {
      BalanceNeverNegative(events, recordsById, j);
    }
    ghost var peak;
    res, peak := Sweep(events);
    forall t: int
      ensures |Active(recordsById, t)| <= res
    {
      var k := SomePrefixReaches(events, recordsById, t);
    }
    if recordsById != map[] {
      PeakReached(events, recordsById, peak, res);
    }
  }

  lemma SortedEventsOfRecords(unsorted: seq<Event>, recordsById: map<uint32, Record>)
    requires EventsOfRecords(unsorted, recordsById)
    ensures EventsOfRecords(SortEvents(unsorted), recordsById)
    ensures SortEvents(unsorted) == [] <==> unsorted == []
  {
    var events := SortEvents(unsorted);
    forall c: Cut
      ensures Level(events, c) == |Open(recordsById, recordsById.Keys, c)|
    {
      LevelOfPermutation(events, unsorted, c);
    }
    forall e | e in events
      ensures e in unsorted
    {
      assert e in multiset(events);
      assert e in multiset(unsorted);
    }
    assert |multiset(events)| == |multiset(unsorted)|;
  }

  lemma PeakReached(events: seq<Event>, recordsById: map<uint32, Record>, peak: nat, res: nat)
    requires Sorted(events) && EventsOfRecords(events, recordsById) && peak < |events| && events[peak].isStart
    requires res == Balance(events[..peak + 1])
    requires forall t: int :: |Active(recordsById, t)| <= res
    ensures exists id :: id in recordsById && |Active(recordsById, recordsById[id].start)| == res
  {
    BalanceAtStart(events, recordsById, peak);
    assert events[peak] in events;
    var id :| id in recordsById && StartEvent(recordsById[id]) == events[peak];
    hide Active, Balance, Sorted, EventsOfRecords;
    assert |Active(recordsById, recordsById[id].start)| == res;
  }

  lemma BalanceStep(es: seq<Event>, i: nat)
    requires i < |es|
    ensures Balance(es[..i + 1]) == Balance(es[..i]) + Sign(es[i])
  {
    assert es[..i + 1][..i] == es[..i];
  }

  /** The last loop: the running count stays a natural number, and its maximum is reached right after a start. */
  method Sweep(events: seq<Event>) returns (res: nat, ghost peak: nat)
    requires forall j :: 0 <= j <= |events| ==> Balance(events[..j]) >= 0
    ensures forall j :: 0 <= j <= |events| ==> Balance(events[..j]) <= res
    ensures events == [] ==> res == 0
    ensures events != [] ==> peak < |events| && events[peak].isStart && res == Balance(events[..peak + 1])
  {
    var cnt: nat := 0;
    res, peak := 0, 0;
    for i := 0 to |events|
      invariant cnt == Balance(events[..i])
      invariant forall j :: 0 <= j <= i ==> Balance(events[..j]) <= res
      invariant i == 0 ==> res == 0
      invariant i > 0 ==> 0 <= peak < i && events[peak].isStart && res == Balance(events[..peak + 1])
    {
      BalanceStep(events, i);
      assert Balance(events[..i + 1]) >= 0;
      if events[i].isStart {
        cnt := cnt + 1;
        if cnt > res {
          res := cnt;
          peak := i;
        }
      } else {
        cnt := cnt - 1;
      }
    }
  }
}
