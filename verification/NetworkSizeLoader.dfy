/** The network size, loaded under a mutex and cached: double-checked locking over an expiring entry. */
module NetworkSizeLoader {
  import opened Options
  import opened TtlCache

  const SUCCESS_EXPIRATION: nat := 60_000_000_000
  const ERROR_EXPIRATION: nat := 10_000_000_000

  /** The result of one load of the underlying loader. */
  datatype Wrapper = Wrapper(res: nat, failed: bool)

  function Lifetime(w: Wrapper): nat {
    if w.failed then ERROR_EXPIRATION else SUCCESS_EXPIRATION
  }

  // ---------------------------------------------------------------- one call at a time

  class CachedLoader {
    var entry: Option<Item<Wrapper>>

    constructor ()
      ensures entry == None
    {
      entry := None;
    }

    method Get(now: int) returns (w: Option<Wrapper>)
      ensures w == if entry.Some? && !Expired(entry.value, now) then Some(entry.value.value) else None
    {
      if entry.Some? && !Expired(entry.value, now) {
        return Some(entry.value.value);
      }
      return None;
    }

    /** `loaded` is what the underlying loader answers if it is asked, and `later` the time when it has answered. */
    method Load(now: int, loaded: Wrapper, later: int) returns (w: Wrapper, asked: bool)
      requires now <= later
      modifies this
      ensures asked <==>
                old(entry).None?
                || (old(entry).value.expiresAt.Some? && now > old(entry).value.expiresAt.value)
      ensures !asked ==> w == old(entry).value.value && entry == old(entry)
      ensures asked ==>
                && w == loaded && entry.Some? && entry.value.value == loaded
                && entry.value.expiresAt == Some(later + (if loaded.failed then 10_000_000_000 else 60_000_000_000))
    {
      var wrapper := Get(now);
      if wrapper.Some? {
        return wrapper.value, false;
      }
      wrapper := Get(now);
      if wrapper.Some? {
        // Only a concurrent call can have stored a value since; see AtGetAgain below.
        assert false;
      }
      var expiration := if loaded.failed then ERROR_EXPIRATION else SUCCESS_EXPIRATION;
      entry := Some(Item(loaded, Some(later + expiration)));
      return loaded, true;
    }
  }

  // ---------------------------------------------------------------- concurrent calls

  /** AtLoad and AtSet name the load in flight; Returned, the load it saw, how many were started by then, and when. */
  datatype Stage = AtGet | AtLock | AtGetAgain | AtLoad(load: nat) | AtSet(load: nat)
                 | Returned(load: nat, started: nat, at: int)

  /** A load of the underlying loader; what it returned is known once it is done, and storedAt once it is cached. */
  datatype LoadRecord = LoadRecord(startedAt: int, result: Option<Wrapper>, storedAt: Option<int>)

  datatype State = State(now: int, entry: Option<Item<nat>>, mutex: Option<nat>,
                         calls: seq<Stage>, loads: seq<LoadRecord>)

  datatype Step = Enter | Advance(c: nat) | LoadDone(c: nat, result: Wrapper) | Tick(d: nat) | Sweep

  const INITIAL := State(0, None, None, [], [])

  predicate Hit(s: State) {
    s.entry.Some? && !Expired(s.entry.value, s.now)
  }

  function At(s: State, c: nat, stage: Stage): State
    requires c < |s.calls|
  {
    s.(calls := s.calls[c := stage])
  }

  /** The next atomic step of call c; loading itself ends with LoadDone. */
  function Next(s: State, c: nat): State
    requires c < |s.calls|
  {
    match s.calls[c]
    case AtGet => if Hit(s) then At(s, c, Returned(s.entry.value.value, |s.loads|, s.now)) else At(s, c, AtLock)
    case AtLock => if s.mutex.Some? then s else At(s, c, AtGetAgain).(mutex := Some(c))
    case AtGetAgain =>
      if Hit(s) then At(s, c, Returned(s.entry.value.value, |s.loads|, s.now)).(mutex := None)
      else At(s, c, AtLoad(|s.loads|)).(loads := s.loads + [LoadRecord(s.now, None, None)])
    case AtSet(l) =>
      if l < |s.loads| && s.loads[l].result.Some? then
        At(s, c, Returned(l, |s.loads|, s.now)).(
          mutex := None,
          loads := s.loads[l := s.loads[l].(storedAt := Some(s.now))],
          entry := Some(Item(l, Some(s.now + Lifetime(s.loads[l].result.value)))))
      else s
    case _ => s
  }

  function Apply(s: State, step: Step): State {
    match step
    case Enter => s.(calls := s.calls + [AtGet])
    case Advance(c) => if c < |s.calls| then Next(s, c) else s
    case LoadDone(c, result) =>
      if c < |s.calls| && s.calls[c].AtLoad? && s.calls[c].load < |s.loads|
      then At(s, c, AtSet(s.calls[c].load)).(
             loads := s.loads[s.calls[c].load := s.loads[s.calls[c].load].(result := Some(result))])
      else s
    case Tick(d) => s.(now := s.now + d)
    case Sweep => if Hit(s) then s else s.(entry := None)
  }

  function Run(steps: seq<Step>): State {
    if steps == [] then INITIAL else Apply(Run(steps[..|steps| - 1]), steps[|steps| - 1])
  }

  // ---------------------------------------------------------------- the invariant

  predicate Holds(stage: Stage) {
    stage.AtGetAgain? || stage.AtLoad? || stage.AtSet?
  }

  predicate InFlight(stage: Stage) {
    stage.AtLoad? || stage.AtSet?
  }

  ghost predicate CallOk(s: State, c: nat)
    requires c < |s.calls|
  {
    var stage := s.calls[c];
    && (Holds(stage) ==> s.mutex == Some(c))
    && (InFlight(stage) ==> stage.load + 1 == |s.loads| && s.loads[stage.load].storedAt.None?)
    && (stage.AtSet? ==> s.loads[stage.load].result.Some?)
    && (stage.Returned? ==> stage.load + 1 == stage.started <= |s.loads|
                            && s.loads[stage.load].result.Some? && s.loads[stage.load].storedAt.Some?
                            && s.loads[stage.load].storedAt.value <= stage.at <= ExpiryOf(s.loads[stage.load]))
  }

  /** When the cached result of load l may last be served. */
  function ExpiryOf(load: LoadRecord): int
    requires load.result.Some? && load.storedAt.Some?
  {
    load.storedAt.value + Lifetime(load.result.value)
  }

  ghost predicate Stored(load: LoadRecord) {
    load.result.Some? && load.storedAt.Some?
  }

  /** The last load is being made by the holder of the mutex, or is cached, or has expired. */
  ghost predicate LastLoadOk(s: State) {
    s.loads != [] ==>
      var last := s.loads[|s.loads| - 1];
      if last.storedAt.None? then s.mutex.Some? && s.mutex.value < |s.calls| && InFlight(s.calls[s.mutex.value])
      else Stored(last) && last.storedAt.value <= s.now
           && (s.now > ExpiryOf(last) || s.entry == Some(Item(|s.loads| - 1, Some(ExpiryOf(last)))))
  }

  /** What is cached is the last stored result, or has expired. */
  ghost predicate EntryOk(s: State) {
    s.entry.Some? ==>
      && s.entry.value.expiresAt.Some? && s.entry.value.value < |s.loads| && Stored(s.loads[s.entry.value.value])
      && s.entry.value.expiresAt.value == ExpiryOf(s.loads[s.entry.value.value])
      && (s.entry.value.value + 1 == |s.loads| || s.now > s.entry.value.expiresAt.value)
  }

  /** Load i + 1 started after the result of load i had expired. */
  ghost predicate Spaced(s: State, i: nat)
    requires i + 1 < |s.loads|
  {
    Stored(s.loads[i]) && s.loads[i + 1].startedAt > ExpiryOf(s.loads[i])
  }

  ghost predicate Inv(s: State) {
    && (forall c: nat :: c < |s.calls| ==> CallOk(s, c))
    && LastLoadOk(s)
    && EntryOk(s)
    && (forall i: nat :: i + 1 < |s.loads| ==> Spaced(s, i))
  }

  lemma AdvanceKeepsCalls(s: State, c: nat, d: nat)
    requires Inv(s) && c < |s.calls| && d < |s.calls|
    ensures CallOk(Next(s, c), d)
  {
    assert CallOk(s, c) && CallOk(s, d);
    hide EntryOk, Spaced;
    if d == c {
      AdvancedCall(s, c);
    }
  }

  lemma AdvancedCall(s: State, c: nat)
    requires Inv(s) && c < |s.calls|
    ensures CallOk(Next(s, c), c)
  {
    assert CallOk(s, c);
    hide Spaced;
  }

  lemma AdvanceKeepsSpacing(s: State, c: nat, i: nat)
    requires Inv(s) && c < |s.calls| && i + 1 < |Next(s, c).loads|
    ensures Spaced(Next(s, c), i)
  {
    assert CallOk(s, c);
    assert i + 1 < |s.loads| ==> Spaced(s, i);
  }

  lemma AdvanceKeepsEntry(s: State, c: nat)
    requires Inv(s) && c < |s.calls|
    ensures LastLoadOk(Next(s, c)) && EntryOk(Next(s, c))
  {
    assert CallOk(s, c);
  }

  lemma AdvanceKeeps(s: State, c: nat)
    requires Inv(s) && c < |s.calls|
    ensures Inv(Next(s, c))
  {
    var t := Next(s, c);
    AdvanceKeepsEntry(s, c);
    forall d: nat | d < |t.calls|
      ensures CallOk(t, d)
    {
      AdvanceKeepsCalls(s, c, d);
    }
    forall i: nat | i + 1 < |t.loads|
      ensures Spaced(t, i)
    {
      AdvanceKeepsSpacing(s, c, i);
    }
  }

  lemma LoadDoneKeeps(s: State, c: nat, result: Wrapper)
    requires Inv(s)
    ensures Inv(Apply(s, LoadDone(c, result)))
  {
    var t := Apply(s, LoadDone(c, result));
    if c < |s.calls| && s.calls[c].AtLoad? {
      assert CallOk(s, c);
      forall d: nat | d < |t.calls|
        ensures CallOk(t, d)
      {
        assert CallOk(s, d);
      }
      forall i: nat | i + 1 < |t.loads|
        ensures Spaced(t, i)
      {
        assert Spaced(s, i);
      }
    }
  }

  lemma OtherStepsKeep(s: State, step: Step)
    requires Inv(s) && (step.Enter? || step.Tick? || step.Sweep?)
    ensures Inv(Apply(s, step))
  {
    var t := Apply(s, step);
    forall d: nat | d < |t.calls|
      ensures CallOk(t, d)
    {
      assert d < |s.calls| ==> CallOk(s, d);
    }
    forall i: nat | i + 1 < |t.loads|
      ensures Spaced(t, i)
    {
      assert Spaced(s, i);
    }
  }

  lemma {:induction false} RunKeepsInv(steps: seq<Step>)
    ensures Inv(Run(steps))
  {
    if steps != [] {
      var s, step := Run(steps[..|steps| - 1]), steps[|steps| - 1];
      RunKeepsInv(steps[..|steps| - 1]);
      match step
      case Advance(c) =>
        if c < |s.calls| {
          AdvanceKeeps(s, c);
        }
      case LoadDone(c, result) => LoadDoneKeeps(s, c, result);
      case _ => OtherStepsKeep(s, step);
    }
  }

  // ---------------------------------------------------------------- theorems over all runs

  /** At most one load of the underlying loader is in flight. */
  lemma SingleFlight(steps: seq<Step>, c: nat, d: nat)
    requires var s := Run(steps);
             c < |s.calls| && d < |s.calls| && InFlight(s.calls[c]) && InFlight(s.calls[d])
    ensures c == d
  {
    RunKeepsInv(steps);
    assert CallOk(Run(steps), c) && CallOk(Run(steps), d);
  }

  /** A new load starts only after a success has been stored for 60 seconds, or a failure for 10. */
  lemma LoadsAreSpaced(steps: seq<Step>, i: nat)
    requires i + 1 < |Run(steps).loads|
    ensures var load, next := Run(steps).loads[i], Run(steps).loads[i + 1];
            && load.result.Some? && load.storedAt.Some?
            && next.startedAt - load.storedAt.value > (if load.result.value.failed then 10 else 60) * 1_000_000_000
  {
    RunKeepsInv(steps);
    assert Spaced(Run(steps), i);
  }

  /** A call returns the result of the last load started when it returns, and that load is done. */
  lemma ReturnsLatest(steps: seq<Step>, c: nat)
    requires c < |Run(steps).calls| && Run(steps).calls[c].Returned?
    ensures var s := Run(steps);
            && s.calls[c].load + 1 == s.calls[c].started <= |s.loads|
            && s.loads[s.calls[c].load].result.Some?
  {
    RunKeepsInv(steps);
    assert CallOk(Run(steps), c);
  }

  /** No result is served for longer than 60 seconds after it was stored, or 10 if it is a failure. */
  lemma NothingStale(steps: seq<Step>, c: nat)
    requires c < |Run(steps).calls| && Run(steps).calls[c].Returned?
    ensures var call := Run(steps).calls[c];
      && call.load < |Run(steps).loads|
      && var load := Run(steps).loads[call.load];
      && load.result.Some? && load.storedAt.Some?
      && 0 <= call.at - load.storedAt.value <= (if load.result.value.failed then 10 else 60) * 1_000_000_000
  {
    RunKeepsInv(steps);
    assert CallOk(Run(steps), c);
  }

  /** So calls that return with no load started in between see the same result and error. */
  lemma SameBetweenLoads(steps: seq<Step>, c: nat, d: nat)
    requires var s := Run(steps);
             c < |s.calls| && d < |s.calls| && s.calls[c].Returned? && s.calls[d].Returned?
             && s.calls[c].started == s.calls[d].started
    ensures var s := Run(steps);
            s.calls[c].load < |s.loads| && s.calls[d].load < |s.loads|
            && s.loads[s.calls[c].load].result == s.loads[s.calls[d].load].result
  {
    ReturnsLatest(steps, c);
    ReturnsLatest(steps, d);
  }
}
