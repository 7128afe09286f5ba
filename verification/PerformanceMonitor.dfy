/** The performance monitor itself: every method is one step of a monitored run. */
module PerformanceMonitor {
  import opened GoInts
  import opened Options
  import opened MaxReqCount
  import Runs = MonitorRuns

  class RequestRecord {
    const id: uint32
    const name: string
    const details: string
    const start: int
    var finish: Option<int>

    constructor (id: uint32, name: string, details: string, start: int)
      ensures Value() == Record(id, name, details, start, None)
    {
      this.id, this.name, this.details, this.start := id, name, details, start;
      finish := None;
    }

    function Value(): Record
      reads this
    {
      Record(id, name, details, start, finish)
    }
  }

  datatype Completion = Completed | NotFound | AlreadyCompleted

  /** A name's line of the report; the average and the top lists are not part of this model. */
  datatype NameReport = NameReport(name: string, count: nat)

  datatype Report = Report(maxReqCount: nat, nameReports: seq<NameReport>)

  // ---------------------------------------------------------------- grouping by name

  function Finished(recordsById: map<uint32, Record>): set<uint32> {
    set id | id in recordsById && recordsById[id].finish.Some?
  }

  function FinishedNamed(recordsById: map<uint32, Record>, ids: set<uint32>, name: string): set<uint32> {
    set id | id in ids && id in recordsById && recordsById[id].finish.Some? && recordsById[id].name == name
  }

  function FinishedUnder(recordsById: map<uint32, Record>, names: set<string>): set<uint32> {
    set id | id in recordsById && recordsById[id].finish.Some? && recordsById[id].name in names
  }

  ghost predicate OwnIds(recordsById: map<uint32, Record>) {
    forall id :: id in recordsById ==> recordsById[id].id == id
  }

  /** rs holds the records of ids, each of them once. */
  ghost predicate Lists(rs: seq<Record>, recordsById: map<uint32, Record>, ids: set<uint32>) {
    && |rs| == |ids|
    && (forall i :: 0 <= i < |rs| ==> rs[i].id in ids && rs[i].id in recordsById && recordsById[rs[i].id] == rs[i])
    && (forall i, j :: 0 <= i < j < |rs| ==> rs[i].id != rs[j].id)
  }

  ghost predicate GroupOf(res: map<string, seq<Record>>, recordsById: map<uint32, Record>, ids: set<uint32>,
                          name: string)
  {
    if name in res then res[name] != [] && Lists(res[name], recordsById, FinishedNamed(recordsById, ids, name))
    else FinishedNamed(recordsById, ids, name) == {}
  }

  ghost predicate Groups(res: map<string, seq<Record>>, recordsById: map<uint32, Record>, ids: set<uint32>) {
    forall name :: GroupOf(res, recordsById, ids, name)
  }

  /** The group map after one more record has been seen. */
  function Grouped(res: map<string, seq<Record>>, r: Record): map<string, seq<Record>> {
    if r.finish.None? then res
    else res[r.name := (if r.name in res then res[r.name] else []) + [r]]
  }

  lemma ListsOneMore(rs: seq<Record>, recordsById: map<uint32, Record>, ids: set<uint32>, r: Record)
    requires Lists(rs, recordsById, ids) && r.id !in ids && r.id in recordsById && recordsById[r.id] == r
    ensures Lists(rs + [r], recordsById, ids + {r.id})
  {
  }

  lemma GroupsOneMore(res: map<string, seq<Record>>, recordsById: map<uint32, Record>, ids: set<uint32>, id: uint32)
    requires OwnIds(recordsById) && Groups(res, recordsById, ids) && id in recordsById && id !in ids
    ensures Groups(Grouped(res, recordsById[id]), recordsById, ids + {id})
  {
    var r := recordsById[id];
    var more := Grouped(res, r);
    forall name
      ensures GroupOf(more, recordsById, ids + {id}, name)
    {
      assert GroupOf(res, recordsById, ids, name);
      var was := FinishedNamed(recordsById, ids, name);
      var now := FinishedNamed(recordsById, ids + {id}, name);
      if r.finish.Some? && r.name == name {
        assert now == was + {id};
        var rs := if name in res then res[name] else [];
        assert Lists(rs, recordsById, was);
        ListsOneMore(rs, recordsById, was, r);
        assert more[name] == rs + [r];
      } else {
        assert now == was;
        assert name in more <==> name in res;
        assert name in res ==> more[name] == res[name];
      }
    }
  }

  method GetCompletedRecordsByName(recordsById: map<uint32, Record>) returns (res: map<string, seq<Record>>)
    requires OwnIds(recordsById)
    ensures Groups(res, recordsById, recordsById.Keys)
  {
    res := map[];
    var todo := recordsById.Keys;
    ghost var done: set<uint32> := {};
    while todo != {}
      invariant todo !! done && todo + done == recordsById.Keys
      invariant Groups(res, recordsById, done)
    {
      var id :| id in todo;
      GroupsOneMore(res, recordsById, done, id);
      todo := todo - {id};
      done := done + {id};
      var rec := recordsById[id];
      if rec.finish.None? {
        continue;
      }
      res := res[rec.name := (if rec.name in res then res[rec.name] else []) + [rec]];
    }
    assert done == recordsById.Keys;
  }

  function SumCounts(reports: seq<NameReport>): nat {
    if reports == [] then 0 else SumCounts(reports[..|reports| - 1]) + reports[|reports| - 1].count
  }

  lemma UnderOneMore(recordsById: map<uint32, Record>, names: set<string>, name: string)
    requires name !in names
    ensures |FinishedUnder(recordsById, names + {name})|
         == |FinishedUnder(recordsById, names)| + |FinishedNamed(recordsById, recordsById.Keys, name)|
  {
    var named := FinishedNamed(recordsById, recordsById.Keys, name);
    assert FinishedUnder(recordsById, names + {name}) == FinishedUnder(recordsById, names) + named;
    assert FinishedUnder(recordsById, names) !! named;
  }

  /** Each line counts the finished requests of its own name. */
  ghost predicate CountsByName(reports: seq<NameReport>, recordsById: map<uint32, Record>) {
    && (forall i :: 0 <= i < |reports| ==> CountsName(reports[i], recordsById))
    && (forall i, j :: 0 <= i < j < |reports| ==> reports[i].name != reports[j].name)
  }

  ghost predicate CountsName(report: NameReport, recordsById: map<uint32, Record>) {
    report.count == |FinishedNamed(recordsById, recordsById.Keys, report.name)| > 0
  }

  ghost function NamesOf(reports: seq<NameReport>): set<string> {
    set i | 0 <= i < |reports| :: reports[i].name
  }

  lemma NamesOneMore(reports: seq<NameReport>, last: NameReport)
    ensures NamesOf(reports + [last]) == NamesOf(reports) + {last.name}
  {
    var more := reports + [last];
    assert more[|reports|] == last;
    forall name | name in NamesOf(reports)
      ensures name in NamesOf(more)
    {
      var i :| 0 <= i < |reports| && reports[i].name == name;
      assert more[i] == reports[i];
    }
  }

  /** Distinct lines add up to the finished requests of all their names. */
  lemma {:induction false} SumOfLines(reports: seq<NameReport>, recordsById: map<uint32, Record>)
    requires CountsByName(reports, recordsById)
    ensures SumCounts(reports) == |FinishedUnder(recordsById, NamesOf(reports))|
  {
    if reports == [] {
      assert FinishedUnder(recordsById, NamesOf(reports)) == {};
    } else {
      var front, last := reports[..|reports| - 1], reports[|reports| - 1];
      SumOfLines(front, recordsById);
      assert reports == front + [last];
      NamesOneMore(front, last);
      UnderOneMore(recordsById, NamesOf(front), last.name);
      assert CountsName(last, recordsById);
    }
  }

  /** One line for each group. */
  method GetNameReports(groups: map<string, seq<Record>>) returns (nameReports: seq<NameReport>)
    ensures NamesOf(nameReports) == groups.Keys
    ensures forall i :: 0 <= i < |nameReports| ==>
              nameReports[i].name in groups && nameReports[i].count == |groups[nameReports[i].name]|
    ensures forall i, j :: 0 <= i < j < |nameReports| ==> nameReports[i].name != nameReports[j].name
  {
    nameReports := [];
    var todo := groups.Keys;
    while todo != {}
      invariant todo <= groups.Keys
      invariant NamesOf(nameReports) == groups.Keys - todo
      invariant forall i :: 0 <= i < |nameReports| ==>
                  nameReports[i].name in groups && nameReports[i].count == |groups[nameReports[i].name]|
      invariant forall i, j :: 0 <= i < j < |nameReports| ==> nameReports[i].name != nameReports[j].name
    {
      var name :| name in todo;
      ghost var before := nameReports;
      assert forall i :: 0 <= i < |before| ==> before[i].name in NamesOf(before);
      nameReports := nameReports + [NameReport(name, |groups[name]|)];
      NamesOneMore(before, NameReport(name, |groups[name]|));
      todo := todo - {name};
    }
  }

  /** The report of a snapshot: its name lines count every finished record once, and nothing else. */
  method GetReport(recordsById: map<uint32, Record>) returns (report: Report)
    requires OwnIds(recordsById)
    requires forall id :: id in recordsById ==> WellTimed(recordsById[id])
    ensures SumCounts(report.nameReports) == |Finished(recordsById)|
    ensures CountsByName(report.nameReports, recordsById)
    ensures forall t: int :: |Active(recordsById, t)| <= report.maxReqCount
    ensures report.maxReqCount == 0 || exists t: int :: |Active(recordsById, t)| == report.maxReqCount
  {
    var completedRecordsByName := GetCompletedRecordsByName(recordsById);
    assert forall name :: name in completedRecordsByName ==>
        GroupOf(completedRecordsByName, recordsById, recordsById.Keys, name);
    var nameReports := GetNameReports(completedRecordsByName);
    forall i | 0 <= i < |nameReports|
      ensures CountsName(nameReports[i], recordsById)
    {
      assert nameReports[i].name in completedRecordsByName;
    }
    SumOfLines(nameReports, recordsById);
    assert FinishedUnder(recordsById, completedRecordsByName.Keys) == Finished(recordsById) by {
      forall id | id in Finished(recordsById)
        ensures recordsById[id].name in completedRecordsByName
      {
        assert id in FinishedNamed(recordsById, recordsById.Keys, recordsById[id].name);
        assert GroupOf(completedRecordsByName, recordsById, recordsById.Keys, recordsById[id].name);
      }
    }
    var maxReqCount := DetermineMaxReqCount(recordsById);
    report := Report(maxReqCount, nameReports);
  }

  // ---------------------------------------------------------------- the monitor

  ghost function FinishedCells(m: map<uint32, RequestRecord>): set<uint32>
    reads m.Values
  {
    set id | id in m && m[id].finish.Some?
  }

  ghost predicate KeepsUnfinished(m: map<uint32, RequestRecord>, kept: map<uint32, RequestRecord>)
    reads m.Values
  {
    && (forall id :: id in kept <==> id in m && m[id].finish.None?)
    && (forall id :: id in kept ==> kept[id] == m[id])
  }

  /** m holds the records that the indices in `index` stand for. */
  ghost predicate PointsTo(m: map<uint32, RequestRecord>, index: map<uint32, nat>, cells: seq<RequestRecord>) {
    m.Keys == index.Keys && forall id :: id in m ==> index[id] < |cells| && m[id] == cells[index[id]]
  }

  ghost predicate Distinct(cells: seq<RequestRecord>) {
    forall i, j :: 0 <= i < j < |cells| ==> cells[i] != cells[j]
  }

  /** The allocated records look like those of the run. */
  ghost predicate Mirrors(cells: seq<RequestRecord>, of: seq<Runs.Cell>)
    reads cells
  {
    |cells| == |of| && forall i :: 0 <= i < |cells| ==>
      && cells[i].id == of[i].id
      && cells[i].finish.Some? == of[i].finished
      && WellTimed(cells[i].Value())
  }

  /** One more record, unfinished and never seen before. */
  lemma StartMirrors(s: Runs.State, cells: seq<RequestRecord>, m: map<uint32, RequestRecord>, rec: RequestRecord)
    requires Runs.WellFormed(s) && Distinct(cells) && Mirrors(cells, s.cells) && PointsTo(m, s.live, cells)
    requires rec !in cells && rec.id == Runs.NextId(s.counter) && rec.finish.None?
    ensures var r := Runs.Apply(s, Runs.Start);
      && Distinct(cells + [rec]) && Mirrors(cells + [rec], r.cells)
      && PointsTo(m[rec.id := rec], r.live, cells + [rec]) && r.counter == rec.id
  {
  }

  /** What remains in the monitor after a copy. */
  lemma CopyMirrors(s: Runs.State, cells: seq<RequestRecord>, m: map<uint32, RequestRecord>,
                    kept: map<uint32, RequestRecord>)
    requires Runs.WellFormed(s) && s.copied.None? && Mirrors(cells, s.cells) && PointsTo(m, s.live, cells)
    requires KeepsUnfinished(m, kept)
    ensures PointsTo(kept, Runs.Apply(s, Runs.Copy).live, cells)
  {
    Runs.CopyOnlyCopies(s);
    hide Runs.Apply, Runs.WellFormed;
    assert forall id :: id in m ==> m[id].finish.Some? == s.cells[s.live[id]].finished;
  }

  class PerformanceMonitor {
    var recordsById: map<uint32, RequestRecord>
    var counter: uint32
    /** Every record ever allocated, and the run these calls have produced so far. */
    ghost var cells: seq<RequestRecord>
    ghost var run: Runs.State

    ghost predicate Valid()
      reads this, cells
    {
      && Runs.WellFormed(run)
      && Distinct(cells)
      && Mirrors(cells, run.cells)
      && counter == run.counter
      && PointsTo(recordsById, run.live, cells)
    }

    constructor ()
      ensures Valid() && run == Runs.INITIAL && cells == []
    {
      recordsById, counter := map[], 0;
      cells, run := [], Runs.INITIAL;
    }

    method Start(name: string, details: string, now: int) returns (id: uint32)
      requires Valid()
      modifies this
      ensures Valid()
      ensures run == Runs.Apply(old(run), Runs.Start)
      ensures id == counter == Runs.NextId(old(counter))
      ensures |cells| == |old(cells)| + 1 && cells[..|old(cells)|] == old(cells) && fresh(cells[|old(cells)|])
      ensures recordsById == old(recordsById)[id := cells[|old(cells)|]]
      ensures recordsById[id].Value() == Record(id, name, details, now, None)
    {
      hide Runs.Apply, Runs.WellFormed, Distinct, Mirrors, PointsTo, WellTimed;
      counter := (counter + 1) % TWO32;
      id := counter;
      var rec := new RequestRecord(id, name, details, now);
      recordsById := recordsById[id := rec];
      StartMirrors(run, cells, old(recordsById), rec);
      cells := cells + [rec];
      run := Runs.Apply(run, Runs.Start);
    }

    /** `finish` is read from a monotone clock by a caller that holds an id returned earlier. */
    method Complete(id: uint32, finish: int) returns (outcome: Completion)
      requires Valid()
      requires id in recordsById ==> recordsById[id].start <= finish
      modifies this`run, cells
      ensures Valid()
      ensures run == Runs.Apply(old(run), Runs.Complete(id))
      ensures outcome == if id !in recordsById then NotFound
                         else if old(recordsById[id].finish).Some? then AlreadyCompleted else Completed
      ensures outcome.Completed? ==> recordsById[id].finish == Some(finish)
      ensures forall c :: c in cells && (outcome.Completed? ==> c != recordsById[id]) ==> c.finish == old(c.finish)
    {
      ghost var before := run;
      run := Runs.Apply(run, Runs.Complete(id));
      if id !in recordsById {
        return NotFound;
      }
      var rec := recordsById[id];
      if rec.finish.Some? {
        return AlreadyCompleted;
      }
      rec.finish := Some(finish);
      assert rec == cells[before.live[id]];
      return Completed;
    }

    /** The loop over the map: everything is copied, finished records are deleted on the way. */
    method CopyAndDelete() returns (res: map<uint32, RequestRecord>)
      modifies this`recordsById
      ensures res == old(recordsById)
      ensures KeepsUnfinished(res, recordsById)
    {
      res := map[];
      var todo := recordsById.Keys;
      ghost var all := recordsById;
      while todo != {}
        invariant todo <= all.Keys && res.Keys == all.Keys - todo
        invariant forall id :: id in res ==> res[id] == all[id]
        invariant forall id :: id in recordsById <==> id in all && (id in todo || all[id].finish.None?)
        invariant forall id :: id in recordsById ==> recordsById[id] == all[id]
      {
        var id :| id in todo;
        var rec := recordsById[id];
        if rec.finish.Some? {
          recordsById := map i | i in recordsById && i != id :: recordsById[i];
        }
        res := res[id := rec];
        todo := todo - {id};
      }
      assert res == all;
    }

    /** Takes a copy that still holds every record, and keeps only the unfinished ones. */
    method CopyRecords() returns (res: map<uint32, RequestRecord>)
      requires Valid() && run.copied.None?
      modifies this`recordsById, this`run
      ensures Valid()
      ensures run == Runs.Apply(old(run), Runs.Copy)
      ensures res == old(recordsById) && PointsTo(res, run.copied.value, cells)
      ensures KeepsUnfinished(res, recordsById)
    {
      Runs.CopyOnlyCopies(run);
      hide Runs.Apply, Runs.WellFormed, Distinct, Mirrors, PointsTo, KeepsUnfinished;
      res := CopyAndDelete();
      CopyMirrors(run, cells, res, recordsById);
      run := Runs.Apply(run, Runs.Copy);
    }

    /** The finished records of the copy are exactly what this step of the run counts. */
    lemma CopiedFinished(copied: map<uint32, RequestRecord>)
      requires Valid() && run.copied.Some? && PointsTo(copied, run.copied.value, cells)
      ensures Runs.Apply(run, Runs.Build).reported
           == run.reported + [set p | p in run.copied.value.Values && run.cells[p].finished]
      ensures |FinishedCells(copied)| == |set p | p in run.copied.value.Values && run.cells[p].finished|
    {
      var index := run.copied.value;
      var ps := set p | p in index.Values && run.cells[p].finished;
      forall p | p in ps
        ensures exists id :: id in FinishedCells(copied) && index[id] == p
      {
        var id :| id in index && index[id] == p;
        assert id in FinishedCells(copied);
      }
      SameSize(FinishedCells(copied), index, ps);
    }

    /** Reads the copied records as they are now, whatever was completed since they were copied. */
    method ReadReport(copied: map<uint32, RequestRecord>) returns (report: Report)
      requires Valid() && run.copied.Some? && PointsTo(copied, run.copied.value, cells)
      ensures SumCounts(report.nameReports) == |FinishedCells(copied)|
    {
      var snapshot := map id | id in copied :: copied[id].Value();
      assert Finished(snapshot) == FinishedCells(copied);
      report := GetReport(snapshot);
    }

    /** The rest of a report, some time after its copy was taken. */
    method ReportOn(copied: map<uint32, RequestRecord>) returns (report: Report)
      requires Valid() && run.copied.Some? && PointsTo(copied, run.copied.value, cells)
      modifies this`run
      ensures Valid()
      ensures run == Runs.Apply(old(run), Runs.Build)
      ensures SumCounts(report.nameReports) == |run.reported[|old(run).reported|]|
      ensures SumCounts(report.nameReports) == |FinishedCells(copied)|
    {
      report := ReadReport(copied);
      CopiedFinished(copied);
      Runs.BuildOnlyReports(run);
      hide Runs.Apply, Runs.WellFormed, Distinct, Mirrors, PointsTo, FinishedCells, SumCounts;
      run := Runs.Apply(run, Runs.Build);
    }
  }

  /** Distinct ids of a well-formed copy stand for distinct records. */
  lemma SameSize(ids: set<uint32>, index: map<uint32, nat>, ps: set<nat>)
    requires ids <= index.Keys
    requires forall i, j :: i in ids && j in ids && i != j ==> index[i] != index[j]
    requires forall id :: id in ids ==> index[id] in ps
    requires forall p :: p in ps ==> exists id :: id in ids && index[id] == p
    ensures |ids| == |ps|
  {
    if ids != {} {
      var id :| id in ids;
      SameSize(ids - {id}, index, ps - {index[id]});
    }
  }
}
