/**
 * The life of monitored records over whole runs. A report is two steps, because the copied map shares
 * the record pointers: a Complete may fall between copying the map and reading the records.
 */
module MonitorRuns {
  import opened GoInts
  import opened Options

  /** One allocated record; it is identified by its index in the allocation order. */
  datatype Cell = Cell(id: uint32, finished: bool)

  datatype State = State(
    cells: seq<Cell>,
    live: map<uint32, nat>,
    counter: uint32,
    copied: Option<map<uint32, nat>>,
    reported: seq<set<nat>>,
    late: set<nat>,
    overwritten: set<nat>)

  datatype Step = Start | Complete(id: uint32) | Copy | Build

  const INITIAL := State([], map[], 0, None, [], {}, {})

  function NextId(counter: uint32): uint32 {
    (counter + 1) % TWO32
  }

  ghost predicate Pointers(s: State, m: map<uint32, nat>) {
    forall id :: id in m ==> m[id] < |s.cells| && s.cells[m[id]].id == id
  }

  ghost predicate WellFormed(s: State) {
    Pointers(s, s.live) && (s.copied.Some? ==> Pointers(s, s.copied.value))
  }

  ghost predicate InCopy(s: State, p: nat) {
    s.copied.Some? && p in s.copied.value.Values
  }

  /** `late` remembers completions that hit a record of the copied map; `overwritten`, ids reused while live. */
  ghost function Apply(s: State, step: Step): (r: State)
    requires WellFormed(s)
    ensures WellFormed(r)
  {
    match step
    case Start =>
      var id := NextId(s.counter);
      s.(cells := s.cells + [Cell(id, false)],
         live := s.live[id := |s.cells|],
         counter := id,
         overwritten := if id in s.live then s.overwritten + {s.live[id]} else s.overwritten)
    case Complete(id) =>
      if id !in s.live || s.cells[s.live[id]].finished then s
      else
        var p := s.live[id];
        s.(cells := s.cells[p := Cell(id, true)],
           late := if InCopy(s, p) then s.late + {p} else s.late)
    case Copy =>
      if s.copied.Some? then s
      else s.(copied := Some(s.live),
              live := map id | id in s.live && !s.cells[s.live[id]].finished :: s.live[id])
    case Build =>
      if s.copied.None? then s
      else s.(copied := None,
              reported := s.reported + [set p | p in s.copied.value.Values && s.cells[p].finished])
  }

  lemma BuildOnlyReports(s: State)
    requires WellFormed(s)
    ensures var r := Apply(s, Build); r.cells == s.cells && r.live == s.live && r.counter == s.counter
  {
  }

  lemma CopyOnlyCopies(s: State)
    requires WellFormed(s) && s.copied.None?
    ensures var r := Apply(s, Copy);
      && r.cells == s.cells && r.counter == s.counter && r.copied == Some(s.live)
      && (forall id :: id in r.live <==> id in s.live && !s.cells[s.live[id]].finished)
      && (forall id :: id in r.live ==> r.live[id] == s.live[id])
  {
  }

  ghost function Run(steps: seq<Step>): (s: State)
    ensures WellFormed(s)
  {
    if steps == [] then INITIAL else Apply(Run(steps[..|steps| - 1]), steps[|steps| - 1])
  }

  /** In how many reports record p was counted as finished. */
  function TimesIn(reported: seq<set<nat>>, p: nat): nat {
    if reported == [] then 0
    else TimesIn(reported[..|reported| - 1], p) + (if p in reported[|reported| - 1] then 1 else 0)
  }

  function One(b: bool): nat {
    if b then 1 else 0
  }

  lemma TimesInOneMore(reported: seq<set<nat>>, last: set<nat>, p: nat)
    ensures TimesIn(reported + [last], p) == TimesIn(reported, p) + One(p in last)
  {
    assert (reported + [last])[..|reported|] == reported;
  }

  ghost predicate Lost(s: State, p: nat) {
    p in s.overwritten
  }

  ghost predicate Live(s: State, p: nat) {
    p in s.live.Values
  }

  /** How many reports have counted a finished record so far, in terms of where it is now. */
  ghost function Expected(s: State, p: nat): nat {
    if Live(s, p) then One(p in s.late && !InCopy(s, p))
    else if InCopy(s, p) then One(p in s.late)
    else 1 + One(p in s.late)
  }

  ghost predicate CellInv(s: State, p: nat)
    requires p < |s.cells|
  {
    && (!s.cells[p].finished ==> Live(s, p) && TimesIn(s.reported, p) == 0 && p !in s.late)
    && (s.cells[p].finished ==> TimesIn(s.reported, p) == Expected(s, p))
    && (s.cells[p].finished && Live(s, p) && InCopy(s, p) ==> p in s.late)
  }

  ghost predicate Inv(s: State) {
    && WellFormed(s)
    && (forall p: nat :: p < |s.cells| && !Lost(s, p) ==> CellInv(s, p))
    && (forall k, p :: 0 <= k < |s.reported| && p in s.reported[k] ==> p < |s.cells|)
    && (forall p :: p in s.late ==> p < |s.cells|)
  }

  lemma NotYetAllocated(reported: seq<set<nat>>, p: nat)
    requires forall k :: 0 <= k < |reported| ==> p !in reported[k]
    ensures TimesIn(reported, p) == 0
  {
    if reported != [] {
      NotYetAllocated(reported[..|reported| - 1], p);
    }
  }

  lemma StartKeeps(s: State)
    requires Inv(s)
    ensures Inv(Apply(s, Start))
  {
    var r := Apply(s, Start);
    var id := NextId(s.counter);
    NotYetAllocated(s.reported, |s.cells|);
    forall p: nat | p < |r.cells| && !Lost(r, p)
      ensures CellInv(r, p)
    {
      if p < |s.cells| {
        assert CellInv(s, p);
        assert Live(s, p) <==> Live(r, p) by {
          if Live(s, p) {
            var i :| i in s.live && s.live[i] == p;
            assert i != id && r.live[i] == p;
          }
          if Live(r, p) {
            var i :| i in r.live && r.live[i] == p;
            assert s.live[i] == p;
          }
        }
      } else {
        assert r.live[id] == p;
      }
    }
  }

  lemma CompleteKeeps(s: State, id: uint32)
    requires Inv(s)
    ensures Inv(Apply(s, Complete(id)))
  {
    var r := Apply(s, Complete(id));
    if r != s {
      assert Live(s, s.live[id]);
      forall p: nat | p < |r.cells| && !Lost(r, p)
        ensures CellInv(r, p)
      {
        assert CellInv(s, p);
      }
    }
  }

  lemma CopyKeeps(s: State)
    requires Inv(s)
    ensures Inv(Apply(s, Copy))
  {
    var r := Apply(s, Copy);
    if r != s {
      forall p: nat | p < |r.cells| && !Lost(r, p)
        ensures CellInv(r, p)
      {
        assert CellInv(s, p);
        assert Live(r, p) <==> Live(s, p) && !s.cells[p].finished by {
          if Live(s, p) && !s.cells[p].finished {
            var i :| i in s.live && s.live[i] == p;
            assert r.live[i] == p;
          }
        }
      }
    }
  }

  lemma BuildKeeps(s: State)
    requires Inv(s)
    ensures Inv(Apply(s, Build))
  {
    var r := Apply(s, Build);
    if r != s {
      forall p: nat | p < |r.cells| && !Lost(r, p)
        ensures CellInv(r, p)
      {
        assert CellInv(s, p);
        TimesInOneMore(s.reported, r.reported[|s.reported|], p);
      }
    }
  }

  lemma {:induction false} RunKeepsInv(steps: seq<Step>)
    ensures Inv(Run(steps))
  {
    if steps != [] {
      var s := Run(steps[..|steps| - 1]);
      RunKeepsInv(steps[..|steps| - 1]);
      match steps[|steps| - 1]
      case Start => StartKeeps(s);
      case Complete(id) => CompleteKeeps(s, id);
      case Copy => CopyKeeps(s);
      case Build => BuildKeeps(s);
    }
  }

  // ---------------------------------------------------------------- ids and overwriting

  function Starts(steps: seq<Step>): nat {
    if steps == [] then 0 else Starts(steps[..|steps| - 1]) + One(steps[|steps| - 1].Start?)
  }

  ghost predicate FreshIds(s: State, starts: nat) {
    && s.overwritten == {}
    && s.counter == starts % TWO32
    && (forall id :: id in s.live ==> (id == 0 && starts >= TWO32) || 1 <= id <= starts)
  }

  lemma FreshIdsStep(s: State, step: Step, starts: nat)
    requires WellFormed(s) && FreshIds(s, starts) && starts + One(step.Start?) <= TWO32
    ensures FreshIds(Apply(s, step), starts + One(step.Start?))
  {
    if step.Start? {
      var id := NextId(s.counter);
      assert id == (starts + 1) % TWO32;
      assert id !in s.live;
    }
  }

  /** Up to 2^32 requests never share an id while one of them is live. */
  lemma {:induction false} NothingOverwritten(steps: seq<Step>)
    requires Starts(steps) <= TWO32
    ensures FreshIds(Run(steps), Starts(steps))
  {
    if steps != [] {
      NothingOverwritten(steps[..|steps| - 1]);
      FreshIdsStep(Run(steps[..|steps| - 1]), steps[|steps| - 1], Starts(steps[..|steps| - 1]));
    }
  }

  // ---------------------------------------------------------------- theorems over all runs

  /** No run drops an unfinished record, unless its id was reused while it was live. */
  lemma UnfinishedNeverDropped(steps: seq<Step>, p: nat)
    requires p < |Run(steps).cells| && !Run(steps).cells[p].finished && !Lost(Run(steps), p)
    ensures Live(Run(steps), p) && TimesIn(Run(steps).reported, p) == 0
  {
    RunKeepsInv(steps);
    assert CellInv(Run(steps), p);
  }

  /**
   * However calls interleave, once a later report is complete a finished record has been counted once,
   * and once more exactly when its Complete fell between a copy that held it and the reading of that copy.
   */
  lemma CountedOnceOrLate(steps: seq<Step>, p: nat)
    requires Run(steps).copied.None?
    requires p < |Run(steps).cells| && Run(steps).cells[p].finished && !Lost(Run(steps), p)
    ensures TimesIn(Run(steps + [Copy, Build]).reported, p) == 1 + One(p in Run(steps).late)
    ensures TimesIn(Run(steps).reported, p) <= 1 + One(p in Run(steps).late)
  {
    var s := Run(steps);
    RunKeepsInv(steps);
    RunKeepsInv(steps + [Copy]);
    RunKeepsInv(steps + [Copy, Build]);
    assert (steps + [Copy])[..|steps|] == steps;
    assert (steps + [Copy, Build])[..|steps| + 1] == steps + [Copy];
    var r := Run(steps + [Copy, Build]);
    assert CellInv(s, p) && CellInv(r, p);
    assert !Live(r, p);
  }

  /** Every report is read right after its map was copied. */
  ghost predicate ReportsAreAtomic(steps: seq<Step>) {
    forall i :: 0 <= i < |steps| ==> AtomicAt(steps, i)
  }

  predicate AtomicAt(steps: seq<Step>, i: nat)
    requires i < |steps|
  {
    steps[i].Copy? ==> i + 1 < |steps| && steps[i + 1].Build?
  }

  lemma {:induction false} AtomicPrefix(steps: seq<Step>, n: nat)
    requires ReportsAreAtomic(steps) && n <= |steps|
    ensures Run(steps[..n]).late == {}
    ensures Run(steps[..n]).copied.Some? ==> n > 0 && steps[n - 1].Copy?
  {
    if n > 0 {
      AtomicPrefix(steps, n - 1);
      assert steps[..n][..n - 1] == steps[..n - 1];
      assert n > 1 ==> AtomicAt(steps, n - 2);
    }
  }

  /** With atomic reports and fewer than 2^32 starts, every completed request is counted in exactly one report. */
  lemma AtomicReportsCountOnce(steps: seq<Step>, p: nat)
    requires ReportsAreAtomic(steps) && Starts(steps) <= TWO32
    requires p < |Run(steps).cells| && Run(steps).cells[p].finished
    ensures TimesIn(Run(steps).reported, p) <= 1
    ensures TimesIn(Run(steps + [Copy, Build]).reported, p) == 1
  {
    AtomicPrefix(steps, |steps|);
    assert steps[..|steps|] == steps;
    assert AtomicAt(steps, |steps| - 1);
    NothingOverwritten(steps);
    CountedOnceOrLate(steps, p);
  }

  lemma RunOneMore(steps: seq<Step>, step: Step)
    ensures Run(steps + [step]) == Apply(Run(steps), step)
  {
    assert (steps + [step])[..|steps|] == steps;
  }

  /** The shortest run in which one request is counted by two reports. */
  lemma CountedTwice()
    ensures TimesIn(Run([Start, Copy, Complete(1), Build] + [Copy, Build]).reported, 0) == 2
  {
    assert [] + [Start] == [Start];
    RunOneMore([], Start);
    var s1 := Run([Start]);
    assert s1.live == map[1 := 0] && s1.cells == [Cell(1, false)] && s1.overwritten == {};
    assert [Start] + [Copy] == [Start, Copy];
    RunOneMore([Start], Copy);
    var s2 := Run([Start, Copy]);
    assert s2.live[1] == 0 && s2.copied.value[1] == 0 && InCopy(s2, 0);
    assert [Start, Copy] + [Complete(1)] == [Start, Copy, Complete(1)];
    RunOneMore([Start, Copy], Complete(1));
    assert [Start, Copy, Complete(1)] + [Build] == [Start, Copy, Complete(1), Build];
    RunOneMore([Start, Copy, Complete(1)], Build);
    CountedOnceOrLate([Start, Copy, Complete(1), Build], 0);
  }
}
