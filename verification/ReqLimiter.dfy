/**
 * The request limiter as a transition system: any number of requests, each performing its atomic steps in turn,
 * interleaved with the clock and with the eviction of expired counters.
 */
module ReqLimiter {
  import opened Options

  /** `life` numbers the lifetimes of counters: each successful Add starts a new one. */
  datatype Entry = Entry(count: nat, expiresAt: int, life: nat)

  datatype Config = Config(reqLimit: int, capacity: nat, lifetime: nat)

  /** Where a request stands; `until` is the expiry of the counter whose existence made Add fail. */
  datatype Stage = AtIncrement | AtLock | AtAdd | AtIncrementAgain(until: int)
                 | AtQueue | InService | Rejected | TimedOut | Finished

  datatype Request = Request(client: string, adjacent: bool, stage: Stage)

  /** A count handed out, to whom and when, and the lifetime it belongs to; None is the fallback without a counter. */
  datatype Grant = Grant(client: string, life: Option<nat>, count: nat, at: int)

  datatype State = State(now: int, entries: map<string, Entry>, lives: nat, mutex: Option<nat>,
                         requests: seq<Request>, queue: nat, adjacentQueue: nat, grants: seq<Grant>)

  datatype Step = Arrive(client: string, path: string) | Advance(r: nat) | TimeOut(r: nat) | Release(r: nat)
                | Tick(d: nat) | Evict(client: string)

  const ADJACENT_CAPACITY: nat := 1

  const INITIAL := State(0, map[], 0, None, [], 0, 0, [])

  // ---------------------------------------------------------------- the counter cache

  predicate Live(entries: map<string, Entry>, client: string, now: int) {
    client in entries && now <= entries[client].expiresAt
  }

  /** strings.Contains(path, "/adjacent"). */
  predicate IsAdjacent(path: string) {
    exists i :: 0 <= i <= |path| - 9 && AdjacentAt(path, i)
  }

  predicate AdjacentAt(path: string, i: nat)
    requires i <= |path| - 9
  {
    path[i..i + 9] == "/adjacent"
  }

  function QueueLength(s: State, adjacent: bool): nat {
    if adjacent then s.adjacentQueue else s.queue
  }

  function Capacity(cfg: Config, adjacent: bool): nat {
    if adjacent then ADJACENT_CAPACITY else cfg.capacity
  }

  function WithQueue(s: State, adjacent: bool, length: nat): State {
    if adjacent then s.(adjacentQueue := length) else s.(queue := length)
  }

  function At(s: State, r: nat, stage: Stage): State
    requires r < |s.requests|
  {
    s.(requests := s.requests[r := s.requests[r].(stage := stage)])
  }

  /** The count is returned and compared with the limit. */
  function Granted(cfg: Config, s: State, r: nat, life: Option<nat>, count: nat): State
    requires r < |s.requests|
  {
    var grant := Grant(s.requests[r].client, life, count, s.now);
    At(s, r, if count > cfg.reqLimit then Rejected else AtQueue).(grants := s.grants + [grant])
  }

  function Incremented(cfg: Config, s: State, r: nat): State
    requires r < |s.requests| && s.requests[r].client in s.entries
  {
    var c := s.requests[r].client;
    var e := s.entries[c];
    Granted(cfg, s.(entries := s.entries[c := e.(count := e.count + 1)]), r, Some(e.life), e.count + 1)
  }

  /** The next atomic step of request r; it stays where it is when it has to wait. */
  function Next(cfg: Config, s: State, r: nat): State
    requires r < |s.requests|
  {
    var req := s.requests[r];
    match req.stage
    case AtIncrement =>
      if Live(s.entries, req.client, s.now) then Incremented(cfg, s, r) else At(s, r, AtLock)
    case AtLock =>
      if s.mutex.Some? then s else At(s, r, AtAdd).(mutex := Some(r))
    case AtAdd =>
      if Live(s.entries, req.client, s.now) then At(s, r, AtIncrementAgain(s.entries[req.client].expiresAt))
      else Granted(cfg, s.(entries := s.entries[req.client := Entry(1, s.now + cfg.lifetime, s.lives)],
                           lives := s.lives + 1, mutex := None), r, Some(s.lives), 1)
    case AtIncrementAgain(until) =>
      if Live(s.entries, req.client, s.now) then Incremented(cfg, s.(mutex := None), r)
      else Granted(cfg, s.(mutex := None), r, None, 1)
    case AtQueue =>
      if QueueLength(s, req.adjacent) < Capacity(cfg, req.adjacent)
      then WithQueue(At(s, r, InService), req.adjacent, QueueLength(s, req.adjacent) + 1)
      else s
    case _ => s
  }

  function Apply(cfg: Config, s: State, step: Step): State {
    match step
    case Arrive(client, path) =>
      var stage := if cfg.reqLimit <= 0 then AtQueue else AtIncrement;
      s.(requests := s.requests + [Request(client, IsAdjacent(path), stage)])
    case Advance(r) => if r < |s.requests| then Next(cfg, s, r) else s
    case TimeOut(r) => if r < |s.requests| && s.requests[r].stage.AtQueue? then At(s, r, TimedOut) else s
    case Release(r) =>
      if r < |s.requests| && s.requests[r].stage.InService? && QueueLength(s, s.requests[r].adjacent) > 0
      then WithQueue(At(s, r, Finished), s.requests[r].adjacent, QueueLength(s, s.requests[r].adjacent) - 1)
      else s
    case Tick(d) => s.(now := s.now + d)
    case Evict(client) =>
      if Live(s.entries, client, s.now) then s else s.(entries := s.entries - {client})
  }

  function Run(cfg: Config, steps: seq<Step>): State {
    if steps == [] then INITIAL else Apply(cfg, Run(cfg, steps[..|steps| - 1]), steps[|steps| - 1])
  }

  // ---------------------------------------------------------------- counts of one lifetime

  /** The counts handed out by one lifetime of a counter, in order. */
  function Counts(grants: seq<Grant>, life: nat): seq<nat> {
    if grants == [] then []
    else
      var g := grants[|grants| - 1];
      Counts(grants[..|grants| - 1], life) + (if g.life == Some(life) then [g.count] else [])
  }

  function UpTo(n: nat): seq<nat> {
    seq(n, i requires 0 <= i < n => i + 1)
  }

  /** How many of the calls passed the limit. */
  function Passed(grants: seq<Grant>, limit: int): nat {
    if grants == [] then 0
    else Passed(grants[..|grants| - 1], limit) + (if grants[|grants| - 1].count <= limit then 1 else 0)
  }

  function PassedIn(counts: seq<nat>, limit: int): nat {
    if counts == [] then 0
    else PassedIn(counts[..|counts| - 1], limit) + (if counts[|counts| - 1] <= limit then 1 else 0)
  }

  function Fallbacks(grants: seq<Grant>): nat {
    if grants == [] then 0
    else Fallbacks(grants[..|grants| - 1]) + (if grants[|grants| - 1].life.None? then 1 else 0)
  }

  lemma CountsOneMore(grants: seq<Grant>, g: Grant, life: nat)
    ensures Counts(grants + [g], life) == Counts(grants, life) + (if g.life == Some(life) then [g.count] else [])
  {
    assert (grants + [g])[..|grants|] == grants;
  }

  ghost predicate CountInv(s: State) {
    && (forall c :: c in s.entries ==> s.entries[c].life < s.lives
                                       && Counts(s.grants, s.entries[c].life) == UpTo(s.entries[c].count))
    && (forall c, d :: c in s.entries && d in s.entries && c != d ==> s.entries[c].life != s.entries[d].life)
    && (forall life :: Counts(s.grants, life) == UpTo(|Counts(s.grants, life)|))
    && (forall life :: life >= s.lives ==> Counts(s.grants, life) == [])
    && (forall i :: 0 <= i < |s.grants| && s.grants[i].life.Some? ==> s.grants[i].life.value < s.lives)
  }

  lemma UpToOneMore(n: nat)
    ensures UpTo(n) + [n + 1] == UpTo(n + 1)
  {
  }

  lemma IncrementKeepsCounts(cfg: Config, s: State, r: nat)
    requires CountInv(s) && r < |s.requests| && s.requests[r].client in s.entries
    ensures CountInv(Incremented(cfg, s, r))
  {
    var t := Incremented(cfg, s, r);
    var e := s.entries[s.requests[r].client];
    UpToOneMore(e.count);
    forall life
      ensures Counts(t.grants, life) == Counts(s.grants, life) + (if life == e.life then [e.count + 1] else [])
    {
      CountsOneMore(s.grants, t.grants[|s.grants|], life);
    }
  }

  lemma AddKeepsCounts(cfg: Config, s: State, r: nat)
    requires CountInv(s) && r < |s.requests| && s.requests[r].stage.AtAdd?
    ensures CountInv(Next(cfg, s, r))
  {
    var t := Next(cfg, s, r);
    if !Live(s.entries, s.requests[r].client, s.now) {
      UpToOneMore(0);
      forall life
        ensures Counts(t.grants, life) == Counts(s.grants, life) + (if life == s.lives then [1] else [])
      {
        CountsOneMore(s.grants, t.grants[|s.grants|], life);
      }
    }
  }

  lemma FallbackKeepsCounts(cfg: Config, s: State, r: nat)
    requires CountInv(s) && r < |s.requests|
    ensures CountInv(Granted(cfg, s, r, None, 1))
  {
    var t := Granted(cfg, s, r, None, 1);
    forall life
      ensures Counts(t.grants, life) == Counts(s.grants, life)
    {
      CountsOneMore(s.grants, t.grants[|s.grants|], life);
    }
  }

  lemma StepKeepsCounts(cfg: Config, s: State, step: Step)
    requires CountInv(s)
    ensures CountInv(Apply(cfg, s, step))
  {
    hide Counts, UpTo, IsAdjacent;
    if step.Advance? && step.r < |s.requests| {
      var r := step.r;
      var req := s.requests[r];
      match req.stage
      case AtIncrement =>
        if Live(s.entries, req.client, s.now) {
          IncrementKeepsCounts(cfg, s, r);
        }
      case AtAdd => AddKeepsCounts(cfg, s, r);
      case AtIncrementAgain(_) =>
        if Live(s.entries, req.client, s.now) {
          IncrementKeepsCounts(cfg, s.(mutex := None), r);
        } else {
          FallbackKeepsCounts(cfg, s.(mutex := None), r);
        }
      case _ =>
    }
  }

  lemma {:induction false} RunKeepsCounts(cfg: Config, steps: seq<Step>)
    ensures CountInv(Run(cfg, steps))
  {
    if steps != [] {
      RunKeepsCounts(cfg, steps[..|steps| - 1]);
      StepKeepsCounts(cfg, Run(cfg, steps[..|steps| - 1]), steps[|steps| - 1]);
    }
  }

  lemma {:induction false} PassedUpTo(n: nat, limit: nat)
    ensures PassedIn(UpTo(n), limit) == if n <= limit then n else limit
  {
    if n > 0 {
      PassedUpTo(n - 1, limit);
      UpToOneMore(n - 1);
      assert UpTo(n)[..n - 1] == UpTo(n - 1);
    }
  }

  /**
   * Under every interleaving, the calls served by one lifetime of a counter get the counts 1, 2, ..., n,
   * each once, and exactly min(n, limit) of them pass.
   */
  lemma LifetimeCounts(cfg: Config, steps: seq<Step>, life: nat)
    requires cfg.reqLimit > 0
    ensures var counts := Counts(Run(cfg, steps).grants, life);
            && counts == UpTo(|counts|)
            && PassedIn(counts, cfg.reqLimit) == if |counts| <= cfg.reqLimit then |counts| else cfg.reqLimit
  {
    RunKeepsCounts(cfg, steps);
    PassedUpTo(|Counts(Run(cfg, steps).grants, life)|, cfg.reqLimit);
  }

  // ---------------------------------------------------------------- how long a lifetime lasts

  /** The counter was added a lifetime before it expires, and all its counts are its client's and not older. */
  ghost predicate EntryTimed(cfg: Config, s: State, c: string)
    requires c in s.entries
  {
    var e := s.entries[c];
    && e.count >= 1 && e.life < s.lives
    && (exists i :: 0 <= i < |s.grants| && s.grants[i] == Grant(c, Some(e.life), 1, e.expiresAt - cfg.lifetime))
    && (forall i :: 0 <= i < |s.grants| && s.grants[i].life == Some(e.life) ==>
          s.grants[i].client == c && e.expiresAt - cfg.lifetime <= s.grants[i].at)
  }

  /** A count came within the lifetime of all earlier ones, and a counter added not longer ago than that is there. */
  ghost predicate GrantTimed(cfg: Config, s: State, i: nat)
    requires i < |s.grants|
  {
    var g := s.grants[i];
    && g.at <= s.now
    && (g.life.Some? ==>
          && g.life.value < s.lives
          && (g.count == 1 && s.now <= g.at + cfg.lifetime ==>
                g.client in s.entries && s.entries[g.client].life == g.life.value
                && s.entries[g.client].expiresAt == g.at + cfg.lifetime)
          && (forall j: nat :: j < i && s.grants[j].life == g.life ==>
                s.grants[j].client == g.client && s.grants[j].at <= g.at <= s.grants[j].at + cfg.lifetime))
  }

  ghost predicate TimeInv(cfg: Config, s: State) {
    && (forall c :: c in s.entries ==> EntryTimed(cfg, s, c))
    && (forall i: nat :: i < |s.grants| ==> GrantTimed(cfg, s, i))
  }

  lemma LivesDiffer(cfg: Config, s: State, c: string, d: string)
    requires TimeInv(cfg, s) && c in s.entries && d in s.entries && c != d
    ensures s.entries[c].life != s.entries[d].life
  {
    assert EntryTimed(cfg, s, c) && EntryTimed(cfg, s, d);
    var i :| 0 <= i < |s.grants|
             && s.grants[i] == Grant(c, Some(s.entries[c].life), 1, s.entries[c].expiresAt - cfg.lifetime);
  }

  lemma EntryStays(cfg: Config, s: State, t: State, c: string, g: Grant)
    requires TimeInv(cfg, s) && c in s.entries && c in t.entries && s.lives <= t.lives
    requires t.entries[c].life == s.entries[c].life && t.entries[c].expiresAt == s.entries[c].expiresAt
    requires t.entries[c].count >= 1 && t.grants == s.grants + [g]
    requires g.life == Some(s.entries[c].life) ==> g.client == c && g.at >= s.entries[c].expiresAt - cfg.lifetime
    ensures EntryTimed(cfg, t, c)
  {
    assert EntryTimed(cfg, s, c);
    var i :| 0 <= i < |s.grants|
             && s.grants[i] == Grant(c, Some(s.entries[c].life), 1, s.entries[c].expiresAt - cfg.lifetime);
    assert t.grants[i] == s.grants[i];
  }

  lemma GrantStays(cfg: Config, s: State, t: State, i: nat)
    requires i < |s.grants| <= |t.grants| && GrantTimed(cfg, s, i) && t.grants[..|s.grants|] == s.grants
    requires s.now <= t.now && s.lives <= t.lives
    requires var c := s.grants[i].client;
      c in s.entries && t.now <= s.entries[c].expiresAt ==>
        c in t.entries && t.entries[c].life == s.entries[c].life && t.entries[c].expiresAt == s.entries[c].expiresAt
    ensures GrantTimed(cfg, t, i)
  {
    assert forall j :: 0 <= j <= i ==> t.grants[j] == s.grants[j];
  }

  lemma IncrementKeepsTimes(cfg: Config, s: State, r: nat)
    requires TimeInv(cfg, s) && r < |s.requests| && Live(s.entries, s.requests[r].client, s.now)
    ensures TimeInv(cfg, Incremented(cfg, s, r))
  {
    var t, c := Incremented(cfg, s, r), s.requests[r].client;
    var e, n := s.entries[c], |s.grants|;
    assert EntryTimed(cfg, s, c);
    var first :| 0 <= first < n && s.grants[first] == Grant(c, Some(e.life), 1, e.expiresAt - cfg.lifetime);
    assert GrantTimed(cfg, s, first);
    assert t.grants == s.grants + [Grant(c, Some(e.life), e.count + 1, s.now)];
    forall d | d in t.entries
      ensures EntryTimed(cfg, t, d)
    {
      if d != c {
        LivesDiffer(cfg, s, c, d);
        assert EntryTimed(cfg, s, d);
      }
      EntryStays(cfg, s, t, d, t.grants[n]);
    }
    forall i: nat | i < |t.grants|
      ensures GrantTimed(cfg, t, i)
    {
      if i < n {
        GrantStays(cfg, s, t, i);
      } else {
        forall j: nat | j < n && t.grants[j].life == Some(e.life)
          ensures t.grants[j].client == c && t.grants[j].at <= s.now <= t.grants[j].at + cfg.lifetime
        {
          assert t.grants[j] == s.grants[j] && GrantTimed(cfg, s, j);
        }
      }
    }
  }

  lemma AddKeepsTimes(cfg: Config, s: State, t: State, c: string)
    requires TimeInv(cfg, s) && !Live(s.entries, c, s.now)
    requires t.entries == s.entries[c := Entry(1, s.now + cfg.lifetime, s.lives)]
    requires t.grants == s.grants + [Grant(c, Some(s.lives), 1, s.now)] && t.lives == s.lives + 1 && t.now == s.now
    ensures TimeInv(cfg, t)
  {
    var n := |s.grants|;
    forall i: nat | i < n
      ensures GrantTimed(cfg, t, i) && t.grants[i] == s.grants[i] && t.grants[i].life != Some(s.lives)
    {
      assert GrantTimed(cfg, s, i);
      GrantStays(cfg, s, t, i);
    }
    forall d | d in t.entries
      ensures EntryTimed(cfg, t, d)
    {
      if d != c {
        assert EntryTimed(cfg, s, d);
        EntryStays(cfg, s, t, d, t.grants[n]);
      } else {
        assert t.grants[n] == Grant(c, Some(s.lives), 1, t.entries[c].expiresAt - cfg.lifetime);
      }
    }
  }

  lemma FallbackKeepsTimes(cfg: Config, s: State, t: State, c: string)
    requires TimeInv(cfg, s) && t.entries == s.entries && t.lives == s.lives && t.now == s.now
    requires t.grants == s.grants + [Grant(c, None, 1, s.now)]
    ensures TimeInv(cfg, t)
  {
    forall d | d in t.entries
      ensures EntryTimed(cfg, t, d)
    {
      assert EntryTimed(cfg, s, d);
      EntryStays(cfg, s, t, d, t.grants[|s.grants|]);
    }
    forall i: nat | i < |t.grants|
      ensures GrantTimed(cfg, t, i)
    {
      if i < |s.grants| {
        GrantStays(cfg, s, t, i);
      }
    }
  }

  /** Steps that hand out no count may let time pass, and may evict what has expired. */
  lemma OtherStepKeepsTimes(cfg: Config, s: State, t: State)
    requires TimeInv(cfg, s) && t.grants == s.grants && t.lives == s.lives && s.now <= t.now
    requires forall c :: c in t.entries ==> c in s.entries && t.entries[c] == s.entries[c]
    requires forall c :: c in s.entries && c !in t.entries ==> s.now > s.entries[c].expiresAt
    ensures TimeInv(cfg, t)
  {
    forall c | c in t.entries
      ensures EntryTimed(cfg, t, c)
    {
      assert EntryTimed(cfg, s, c);
    }
    forall i: nat | i < |t.grants|
      ensures GrantTimed(cfg, t, i)
    {
      GrantStays(cfg, s, t, i);
    }
  }

  lemma StepKeepsTimes(cfg: Config, s: State, step: Step)
    requires TimeInv(cfg, s)
    ensures TimeInv(cfg, Apply(cfg, s, step))
  {
    var t := Apply(cfg, s, step);
    hide TimeInv, IsAdjacent, QueueLength, Capacity;
    if step.Advance? && step.r < |s.requests| && t.grants != s.grants {
      var req, r := s.requests[step.r], step.r;
      if Live(s.entries, req.client, s.now) {
        SameTimes(cfg, s, s.(mutex := None));
        IncrementKeepsTimes(cfg, if req.stage.AtIncrement? then s else s.(mutex := None), r);
      } else if req.stage.AtAdd? {
        AddKeepsTimes(cfg, s, t, req.client);
      } else {
        FallbackKeepsTimes(cfg, s, t, req.client);
      }
    } else {
      OtherStepKeepsTimes(cfg, s, t);
    }
  }

  lemma SameTimes(cfg: Config, s: State, t: State)
    requires TimeInv(cfg, s) && t.entries == s.entries && t.grants == s.grants && t.lives == s.lives && t.now == s.now
    ensures TimeInv(cfg, t)
  {
    OtherStepKeepsTimes(cfg, s, t);
  }

  lemma {:induction false} RunKeepsTimes(cfg: Config, steps: seq<Step>)
    ensures TimeInv(cfg, Run(cfg, steps))
  {
    if steps != [] {
      RunKeepsTimes(cfg, steps[..|steps| - 1]);
      StepKeepsTimes(cfg, Run(cfg, steps[..|steps| - 1]), steps[|steps| - 1]);
      hide TimeInv, Apply;
    }
  }

  /** All counts of one lifetime go to one client, in time's order, and no later than a lifetime after the first. */
  lemma LifetimeLasts(cfg: Config, steps: seq<Step>, i: nat, j: nat)
    requires i < j < |Run(cfg, steps).grants|
    requires Run(cfg, steps).grants[i].life.Some? && Run(cfg, steps).grants[i].life == Run(cfg, steps).grants[j].life
    ensures var g, h := Run(cfg, steps).grants[i], Run(cfg, steps).grants[j];
      g.client == h.client && g.at <= h.at <= g.at + cfg.lifetime
  {
    RunKeepsTimes(cfg, steps);
    assert GrantTimed(cfg, Run(cfg, steps), j);
  }

  /** A counter was added for this client, as its first count says, and not longer ago than a lifetime. */
  ghost predicate AddedRecently(cfg: Config, grants: seq<Grant>, client: string, now: int) {
    exists i :: 0 <= i < |grants| && IsRecentAdd(cfg, grants[i], client, now)
  }

  predicate IsRecentAdd(cfg: Config, g: Grant, client: string, now: int) {
    g.client == client && g.life.Some? && g.count == 1 && now <= g.at + cfg.lifetime
  }

  lemma RecentIsLive(cfg: Config, s: State, c: string)
    requires TimeInv(cfg, s)
    ensures Live(s.entries, c, s.now) <==> AddedRecently(cfg, s.grants, c, s.now)
    ensures Live(s.entries, c, s.now) ==> s.entries[c].count >= 1
  {
    if i :| 0 <= i < |s.grants| && IsRecentAdd(cfg, s.grants[i], c, s.now) {
      assert GrantTimed(cfg, s, i);
    }
    if Live(s.entries, c, s.now) {
      assert EntryTimed(cfg, s, c);
      var i :| 0 <= i < |s.grants|
               && s.grants[i] == Grant(c, Some(s.entries[c].life), 1, s.entries[c].expiresAt - cfg.lifetime);
      assert IsRecentAdd(cfg, s.grants[i], c, s.now);
    }
  }

  /** Every count handed out starts afresh at 1 exactly if no counter was added for the client within the lifetime. */
  lemma StartsAfreshIff(cfg: Config, steps: seq<Step>, r: nat)
    requires r < |Run(cfg, steps).requests|
    requires var s := Run(cfg, steps); Next(cfg, s, r).grants != s.grants
    ensures var s := Run(cfg, steps);
      var t, c := Next(cfg, s, r), s.requests[r].client;
      && |t.grants| == |s.grants| + 1 && t.grants[|s.grants|].client == c && t.grants[|s.grants|].at == s.now
      && (t.grants[|s.grants|].count == 1 <==> !AddedRecently(cfg, s.grants, c, s.now))
  {
    RunKeepsTimes(cfg, steps);
    var s := Run(cfg, steps);
    hide Run, TimeInv, AddedRecently, QueueLength, Capacity;
    RecentIsLive(cfg, s, s.requests[r].client);
  }

  // ---------------------------------------------------------------- admissions over a whole run

  function SumPassed(grants: seq<Grant>, lives: nat, limit: int): nat {
    if lives == 0 then 0
    else SumPassed(grants, lives - 1, limit) + PassedIn(Counts(grants, lives - 1), limit)
  }

  lemma PassedInOneMore(counts: seq<nat>, n: nat, limit: int)
    ensures PassedIn(counts + [n], limit) == PassedIn(counts, limit) + (if n <= limit then 1 else 0)
  {
    assert (counts + [n])[..|counts|] == counts;
  }

  lemma {:induction false} SumPassedOneMore(grants: seq<Grant>, g: Grant, lives: nat, limit: int)
    ensures SumPassed(grants + [g], lives, limit)
         == SumPassed(grants, lives, limit)
            + (if g.life.Some? && g.life.value < lives && g.count <= limit then 1 else 0)
  {
    hide Counts, PassedIn;
    if lives > 0 {
      SumPassedOneMore(grants, g, lives - 1, limit);
      CountsOneMore(grants, g, lives - 1);
      PassedInOneMore(Counts(grants, lives - 1), g.count, limit);
      assert Counts(grants, lives - 1) + [] == Counts(grants, lives - 1);
    }
  }

  lemma {:induction false} SumPassedOfNothing(lives: nat, limit: int)
    ensures SumPassed([], lives, limit) == 0
  {
    if lives > 0 {
      SumPassedOfNothing(lives - 1, limit);
    }
  }

  lemma {:induction false} PassedByLives(grants: seq<Grant>, lives: nat, limit: int)
    requires forall i :: 0 <= i < |grants| && grants[i].life.Some? ==> grants[i].life.value < lives
    ensures Passed(grants, limit) <= SumPassed(grants, lives, limit) + Fallbacks(grants)
  {
    hide SumPassed;
    if grants == [] {
      SumPassedOfNothing(lives, limit);
    } else {
      var front, g := grants[..|grants| - 1], grants[|grants| - 1];
      PassedByLives(front, lives, limit);
      SumPassedOneMore(front, g, lives, limit);
      assert grants == front + [g];
    }
  }

  lemma {:induction false} SumPassedBounded(cfg: Config, steps: seq<Step>, lives: nat)
    requires cfg.reqLimit > 0
    ensures SumPassed(Run(cfg, steps).grants, lives, cfg.reqLimit) <= cfg.reqLimit * lives
  {
    hide Run, Counts, UpTo;
    if lives > 0 {
      SumPassedBounded(cfg, steps, lives - 1);
      LifetimeCounts(cfg, steps, lives - 1);
      assert cfg.reqLimit * lives == cfg.reqLimit * (lives - 1) + cfg.reqLimit;
    }
  }

  predicate PassedCheck(stage: Stage) {
    stage.AtQueue? || stage.InService? || stage.TimedOut? || stage.Finished?
  }

  /** The requests that checkReqLimit has let through. */
  function Admitted(requests: seq<Request>): nat {
    if requests == [] then 0
    else Admitted(requests[..|requests| - 1]) + (if PassedCheck(requests[|requests| - 1].stage) then 1 else 0)
  }

  lemma {:induction false} AdmittedUpdate(requests: seq<Request>, r: nat, req: Request)
    requires r < |requests|
    ensures Admitted(requests[r := req])
         == Admitted(requests)
            - (if PassedCheck(requests[r].stage) then 1 else 0) + (if PassedCheck(req.stage) then 1 else 0)
  {
    var n := |requests| - 1;
    if r == n {
      assert requests[r := req][..n] == requests[..n];
    } else {
      assert requests[r := req][..n] == requests[..n][r := req];
      AdmittedUpdate(requests[..n], r, req);
    }
  }

  lemma PassedOneMore(grants: seq<Grant>, g: Grant, limit: int)
    ensures Passed(grants + [g], limit) == Passed(grants, limit) + (if g.count <= limit then 1 else 0)
  {
    assert (grants + [g])[..|grants|] == grants;
  }

  lemma GrantedAdmits(cfg: Config, s: State, r: nat, life: Option<nat>, count: nat)
    requires r < |s.requests| && !PassedCheck(s.requests[r].stage)
    requires Admitted(s.requests) == Passed(s.grants, cfg.reqLimit)
    ensures var t := Granted(cfg, s, r, life, count); Admitted(t.requests) == Passed(t.grants, cfg.reqLimit)
  {
    PassedOneMore(s.grants, Grant(s.requests[r].client, life, count, s.now), cfg.reqLimit);
    AdmittedUpdate(s.requests, r, Granted(cfg, s, r, life, count).requests[r]);
  }

  lemma IncrementAdmits(cfg: Config, s: State, r: nat)
    requires r < |s.requests| && !PassedCheck(s.requests[r].stage) && s.requests[r].client in s.entries
    requires Admitted(s.requests) == Passed(s.grants, cfg.reqLimit)
    ensures var t := Incremented(cfg, s, r); Admitted(t.requests) == Passed(t.grants, cfg.reqLimit)
  {
    var c := s.requests[r].client;
    var e := s.entries[c];
    hide Passed, Admitted, Granted;
    GrantedAdmits(cfg, s.(entries := s.entries[c := e.(count := e.count + 1)]), r, Some(e.life), e.count + 1);
  }

  lemma AddAdmits(cfg: Config, s: State, r: nat)
    requires r < |s.requests| && s.requests[r].stage.AtAdd?
    requires Admitted(s.requests) == Passed(s.grants, cfg.reqLimit)
    ensures var t := Next(cfg, s, r); Admitted(t.requests) == Passed(t.grants, cfg.reqLimit)
  {
    var req := s.requests[r];
    hide Passed, Admitted, Granted;
    if Live(s.entries, req.client, s.now) {
      AdmittedUpdate(s.requests, r, req.(stage := AtIncrementAgain(s.entries[req.client].expiresAt)));
    } else {
      GrantedAdmits(cfg, s.(entries := s.entries[req.client := Entry(1, s.now + cfg.lifetime, s.lives)],
                            lives := s.lives + 1, mutex := None), r, Some(s.lives), 1);
    }
  }

  lemma AdvanceAdmits(cfg: Config, s: State, r: nat)
    requires cfg.reqLimit > 0 && r < |s.requests| && Admitted(s.requests) == Passed(s.grants, cfg.reqLimit)
    ensures var t := Next(cfg, s, r); Admitted(t.requests) == Passed(t.grants, cfg.reqLimit)
  {
    var req := s.requests[r];
    hide Passed, Admitted, QueueLength, Capacity, Granted, Incremented;
    match req.stage
    case AtIncrement =>
      if Live(s.entries, req.client, s.now) {
        IncrementAdmits(cfg, s, r);
      } else {
        AdmittedUpdate(s.requests, r, req.(stage := AtLock));
      }
    case AtAdd => AddAdmits(cfg, s, r);
    case AtIncrementAgain(_) =>
      if Live(s.entries, req.client, s.now) {
        IncrementAdmits(cfg, s.(mutex := None), r);
      } else {
        GrantedAdmits(cfg, s.(mutex := None), r, None, 1);
      }
    case _ => OtherStepAdmits(cfg, s, r);
  }

  lemma OtherStepAdmits(cfg: Config, s: State, r: nat)
    requires r < |s.requests| && Admitted(s.requests) == Passed(s.grants, cfg.reqLimit)
    requires var stage := s.requests[r].stage; !stage.AtIncrement? && !stage.AtAdd? && !stage.AtIncrementAgain?
    ensures var t := Next(cfg, s, r); Admitted(t.requests) == Passed(t.grants, cfg.reqLimit)
  {
    var t := Next(cfg, s, r);
    assert t.requests == s.requests[r := t.requests[r]];
    assert PassedCheck(t.requests[r].stage) == PassedCheck(s.requests[r].stage);
    assert t.grants == s.grants;
    hide *;
    AdmittedUpdate(s.requests, r, t.requests[r]);
  }

  lemma StepAdmits(cfg: Config, s: State, step: Step)
    requires cfg.reqLimit > 0 && Admitted(s.requests) == Passed(s.grants, cfg.reqLimit)
    ensures var t := Apply(cfg, s, step); Admitted(t.requests) == Passed(t.grants, cfg.reqLimit)
  {
    var t := Apply(cfg, s, step);
    hide Next, Passed, IsAdjacent, QueueLength, Live;
    match step
    case Arrive(client, path) =>
      assert t.requests[..|s.requests|] == s.requests;
    case Advance(r) =>
      if r < |s.requests| {
        AdvanceAdmits(cfg, s, r);
      }
    case TimeOut(r) =>
      if t != s {
        AdmittedUpdate(s.requests, r, t.requests[r]);
      }
    case Release(r) =>
      if t != s {
        AdmittedUpdate(s.requests, r, t.requests[r]);
      }
    case Tick(d) =>
    case Evict(client) =>
  }

  /** The requests let through are exactly the calls whose count did not exceed the limit. */
  lemma {:induction false} AdmittedIsPassed(cfg: Config, steps: seq<Step>)
    requires cfg.reqLimit > 0
    ensures Admitted(Run(cfg, steps).requests) == Passed(Run(cfg, steps).grants, cfg.reqLimit)
  {
    if steps != [] {
      AdmittedIsPassed(cfg, steps[..|steps| - 1]);
      StepAdmits(cfg, Run(cfg, steps[..|steps| - 1]), steps[|steps| - 1]);
    }
  }

  /** Over a whole run at most `limit` requests are let through for each lifetime, plus one for each fallback. */
  lemma AdmissionsBounded(cfg: Config, steps: seq<Step>)
    requires cfg.reqLimit > 0
    ensures var s := Run(cfg, steps);
            Admitted(s.requests) <= cfg.reqLimit * s.lives + Fallbacks(s.grants)
  {
    var s := Run(cfg, steps);
    RunKeepsCounts(cfg, steps);
    AdmittedIsPassed(cfg, steps);
    PassedByLives(s.grants, s.lives, cfg.reqLimit);
    SumPassedBounded(cfg, steps, s.lives);
  }

  // ---------------------------------------------------------------- the mutex and the fallback

  predicate Holds(stage: Stage) {
    stage.AtAdd? || stage.AtIncrementAgain?
  }

  /** What holding the mutex means for request r. */
  ghost predicate HolderOk(s: State, r: nat)
    requires r < |s.requests|
  {
    var req := s.requests[r];
    && (Holds(req.stage) ==> s.mutex == Some(r))
    && (req.stage.AtIncrementAgain? ==>
          s.now > req.stage.until
          || (req.client in s.entries && s.entries[req.client].expiresAt == req.stage.until))
  }

  ghost predicate MutexInv(s: State) {
    forall r: nat :: r < |s.requests| ==> HolderOk(s, r)
  }

  lemma IncrementKeepsMutex(cfg: Config, s: State, t: State, r: nat)
    requires MutexInv(s) && r < |s.requests| && s.requests[r].client in s.entries
    requires t == Incremented(cfg, s, r) || (s.mutex == Some(r) && t == Incremented(cfg, s.(mutex := None), r))
    ensures MutexInv(t)
  {
    forall q: nat | q < |t.requests|
      ensures HolderOk(t, q)
    {
      assert HolderOk(s, q);
    }
  }

  lemma StepKeepsMutex(cfg: Config, s: State, step: Step)
    requires MutexInv(s)
    ensures MutexInv(Apply(cfg, s, step))
  {
    if step.Advance? && step.r < |s.requests| {
      AdvanceKeepsMutex(cfg, s, step.r);
    } else {
      var t := Apply(cfg, s, step);
      hide Next, Live, IsAdjacent;
      forall q: nat | q < |t.requests|
        ensures HolderOk(t, q)
      {
        assert q < |s.requests| ==> HolderOk(s, q);
      }
    }
  }

  lemma AdvanceKeepsMutex(cfg: Config, s: State, r: nat)
    requires MutexInv(s) && r < |s.requests|
    ensures MutexInv(Next(cfg, s, r))
  {
    var t := Next(cfg, s, r);
    var req := s.requests[r];
    assert HolderOk(s, r);
    if (req.stage.AtIncrement? || req.stage.AtIncrementAgain?) && Live(s.entries, req.client, s.now) {
      IncrementKeepsMutex(cfg, s, t, r);
    } else {
      forall q: nat | q < |t.requests|
        ensures HolderOk(t, q)
      {
        assert HolderOk(s, q);
      }
    }
  }

  lemma {:induction false} RunKeepsMutex(cfg: Config, steps: seq<Step>)
    ensures MutexInv(Run(cfg, steps))
  {
    if steps != [] {
      RunKeepsMutex(cfg, steps[..|steps| - 1]);
      StepKeepsMutex(cfg, Run(cfg, steps[..|steps| - 1]), steps[|steps| - 1]);
    }
  }

  /** The mutex excludes: two requests are never between Lock and Unlock at once. */
  lemma OneHolder(cfg: Config, steps: seq<Step>, a: nat, b: nat)
    requires var s := Run(cfg, steps);
             a < |s.requests| && b < |s.requests| && Holds(s.requests[a].stage) && Holds(s.requests[b].stage)
    ensures a == b
  {
    RunKeepsMutex(cfg, steps);
    assert HolderOk(Run(cfg, steps), a) && HolderOk(Run(cfg, steps), b);
  }

  ghost predicate Held(s: State) {
    s.mutex.Some? ==> s.mutex.value < |s.requests| && Holds(s.requests[s.mutex.value].stage)
  }

  lemma StepKeepsHeld(cfg: Config, s: State, step: Step)
    requires Held(s) && MutexInv(s)
    ensures Held(Apply(cfg, s, step))
  {
    if step.Advance? && step.r < |s.requests| {
      assert HolderOk(s, step.r);
    }
    hide MutexInv, Live, IsAdjacent, QueueLength, Capacity;
  }

  lemma {:induction false} RunKeepsHeld(cfg: Config, steps: seq<Step>)
    ensures Held(Run(cfg, steps))
  {
    if steps != [] {
      RunKeepsHeld(cfg, steps[..|steps| - 1]);
      RunKeepsMutex(cfg, steps[..|steps| - 1]);
      StepKeepsHeld(cfg, Run(cfg, steps[..|steps| - 1]), steps[|steps| - 1]);
    }
  }

  predicate Counting(stage: Stage) {
    stage.AtIncrement? || stage.AtLock? || stage.AtAdd? || stage.AtIncrementAgain?
  }

  /**
   * No request is stuck before its count: its next step takes it on, unless it waits for the mutex, and then the
   * holder's next step takes the holder on.
   */
  lemma NobodyStuck(cfg: Config, steps: seq<Step>, r: nat)
    requires r < |Run(cfg, steps).requests| && Counting(Run(cfg, steps).requests[r].stage)
    ensures var s := Run(cfg, steps);
      || Next(cfg, s, r).requests[r].stage != s.requests[r].stage
      || (s.requests[r].stage.AtLock? && s.mutex.Some? && s.mutex.value < |s.requests|
          && var q := s.mutex.value; Next(cfg, s, q).requests[q].stage != s.requests[q].stage)
  {
    RunKeepsHeld(cfg, steps);
    hide Run, Live;
  }

  lemma FallbackStep(cfg: Config, s: State, r: nat)
    requires MutexInv(s) && r < |s.requests|
    ensures Fallbacks(Next(cfg, s, r).grants) != Fallbacks(s.grants) ==>
              s.requests[r].stage.AtIncrementAgain? && s.now > s.requests[r].stage.until
  {
    var req := s.requests[r];
    assert HolderOk(s, r);
    hide Fallbacks, MutexInv, QueueLength, Capacity;
    if Live(s.entries, req.client, s.now) && (req.stage.AtIncrement? || req.stage.AtIncrementAgain?) {
      var e := s.entries[req.client];
      FallbacksOneMore(s.grants, Grant(req.client, Some(e.life), e.count + 1, s.now));
    } else if req.stage.AtAdd? {
      FallbacksOneMore(s.grants, Grant(req.client, Some(s.lives), 1, s.now));
    }
  }

  lemma FallbacksOneMore(grants: seq<Grant>, g: Grant)
    ensures Fallbacks(grants + [g]) == Fallbacks(grants) + (if g.life.None? then 1 else 0)
  {
    assert (grants + [g])[..|grants|] == grants;
  }

  /** A fallback only happens when the counter that made Add fail has expired since. */
  lemma FallbackNeedsExpiry(cfg: Config, steps: seq<Step>, step: Step)
    requires Fallbacks(Apply(cfg, Run(cfg, steps), step).grants) > Fallbacks(Run(cfg, steps).grants)
    ensures var s := Run(cfg, steps);
            step.Advance? && step.r < |s.requests|
            && s.requests[step.r].stage.AtIncrementAgain? && s.now > s.requests[step.r].stage.until
  {
    RunKeepsMutex(cfg, steps);
    hide Run, Next, Fallbacks, MutexInv, IsAdjacent, Live;
    FallbackStep(cfg, Run(cfg, steps), step.r);
  }

  // ---------------------------------------------------------------- the queues

  /** The requests between a successful take and their release. */
  function Serving(requests: seq<Request>, adjacent: bool): nat {
    if requests == [] then 0
    else
      var last := requests[|requests| - 1];
      Serving(requests[..|requests| - 1], adjacent)
      + (if last.stage.InService? && last.adjacent == adjacent then 1 else 0)
  }

  lemma {:induction false} ServingUpdate(requests: seq<Request>, r: nat, req: Request, adjacent: bool)
    requires r < |requests|
    ensures Serving(requests[r := req], adjacent)
         == Serving(requests, adjacent)
            - (if requests[r].stage.InService? && requests[r].adjacent == adjacent then 1 else 0)
            + (if req.stage.InService? && req.adjacent == adjacent then 1 else 0)
  {
    var n := |requests| - 1;
    if r == n {
      assert requests[r := req][..n] == requests[..n];
    } else {
      assert requests[r := req][..n] == requests[..n][r := req];
      ServingUpdate(requests[..n], r, req, adjacent);
    }
  }

  ghost predicate QueueInv(cfg: Config, s: State) {
    forall adjacent: bool :: QueueLength(s, adjacent) == Serving(s.requests, adjacent) <= Capacity(cfg, adjacent)
  }

  /** Replacing one request keeps the queues right if they change by exactly what it takes or frees. */
  lemma ReplacedKeepsQueues(cfg: Config, s: State, t: State, r: nat)
    requires QueueInv(cfg, s) && r < |s.requests| && |t.requests| == |s.requests|
    requires t.requests == s.requests[r := t.requests[r]]
    requires forall adjacent: bool ::
               QueueLength(t, adjacent) <= Capacity(cfg, adjacent) &&
               QueueLength(t, adjacent) == QueueLength(s, adjacent)
                 - (if s.requests[r].stage.InService? && s.requests[r].adjacent == adjacent then 1 else 0)
                 + (if t.requests[r].stage.InService? && t.requests[r].adjacent == adjacent then 1 else 0)
    ensures QueueInv(cfg, t)
  {
    forall adjacent: bool
      ensures QueueLength(t, adjacent) == Serving(t.requests, adjacent) <= Capacity(cfg, adjacent)
    {
      assert QueueLength(s, adjacent) == Serving(s.requests, adjacent);
      ServingUpdate(s.requests, r, t.requests[r], adjacent);
    }
  }

  lemma ArriveKeepsQueues(cfg: Config, s: State, req: Request)
    requires QueueInv(cfg, s) && !req.stage.InService?
    ensures QueueInv(cfg, s.(requests := s.requests + [req]))
  {
    var t := s.(requests := s.requests + [req]);
    assert t.requests[..|s.requests|] == s.requests;
    forall adjacent: bool
      ensures QueueLength(t, adjacent) == Serving(t.requests, adjacent) <= Capacity(cfg, adjacent)
    {
      assert QueueLength(s, adjacent) == Serving(s.requests, adjacent);
    }
  }

  lemma LeaveKeepsQueues(cfg: Config, s: State, r: nat, step: Step)
    requires QueueInv(cfg, s) && r < |s.requests| && (step == TimeOut(r) || step == Release(r))
    ensures QueueInv(cfg, Apply(cfg, s, step))
  {
    var t := Apply(cfg, s, step);
    assert forall adjacent: bool :: QueueLength(s, adjacent) <= Capacity(cfg, adjacent);
    hide QueueInv, Serving;
    if t != s {
      ReplacedKeepsQueues(cfg, s, t, r);
    }
  }

  lemma StepKeepsQueues(cfg: Config, s: State, step: Step)
    requires QueueInv(cfg, s)
    ensures QueueInv(cfg, Apply(cfg, s, step))
  {
    hide Next, IsAdjacent, Live, Serving, At, WithQueue;
    match step
    case Arrive(client, path) =>
      ArriveKeepsQueues(cfg, s, Request(client, IsAdjacent(path), if cfg.reqLimit <= 0 then AtQueue else AtIncrement));
    case Advance(r) =>
      if r < |s.requests| {
        NextKeepsQueues(cfg, s, r);
      }
    case TimeOut(r) =>
      if r < |s.requests| {
        LeaveKeepsQueues(cfg, s, r, step);
      }
    case Release(r) =>
      if r < |s.requests| {
        LeaveKeepsQueues(cfg, s, r, step);
      }
    case Tick(d) =>
      assert forall adjacent: bool ::
          QueueLength(s, adjacent) == Serving(s.requests, adjacent) <= Capacity(cfg, adjacent);
    case Evict(client) =>
      assert forall adjacent: bool ::
          QueueLength(s, adjacent) == Serving(s.requests, adjacent) <= Capacity(cfg, adjacent);
  }

  /** Every step but the send leaves both queues and the set of served requests alone. */
  lemma OnlySendTouchesQueues(cfg: Config, s: State, r: nat)
    requires r < |s.requests| && !s.requests[r].stage.AtQueue?
    ensures var t := Next(cfg, s, r);
            && t.queue == s.queue && t.adjacentQueue == s.adjacentQueue
            && |t.requests| == |s.requests| && t.requests == s.requests[r := t.requests[r]]
            && t.requests[r].adjacent == s.requests[r].adjacent
            && (t.requests[r].stage.InService? <==> s.requests[r].stage.InService?)
  {
    hide Live;
  }

  lemma NextKeepsQueues(cfg: Config, s: State, r: nat)
    requires QueueInv(cfg, s) && r < |s.requests|
    ensures QueueInv(cfg, Next(cfg, s, r))
  {
    var t := Next(cfg, s, r);
    assert forall adjacent: bool :: QueueLength(s, adjacent) <= Capacity(cfg, adjacent);
    if s.requests[r].stage.AtQueue? {
      hide QueueInv, Serving, Live, Granted, Incremented;
      ReplacedKeepsQueues(cfg, s, t, r);
    } else {
      OnlySendTouchesQueues(cfg, s, r);
      hide QueueInv, Serving, Next, Capacity;
      ReplacedKeepsQueues(cfg, s, t, r);
    }
  }

  /** In every reachable state each queue holds exactly the requests being served, never more than its capacity. */
  lemma {:induction false} QueueLengthIsServing(cfg: Config, steps: seq<Step>)
    ensures QueueInv(cfg, Run(cfg, steps))
  {
    if steps == [] {
    } else {
      QueueLengthIsServing(cfg, steps[..|steps| - 1]);
      StepKeepsQueues(cfg, Run(cfg, steps[..|steps| - 1]), steps[|steps| - 1]);
    }
  }

  /** A request at its queue is served at its next step if the queue has a free place, and waits otherwise. */
  lemma FreePlaceServes(cfg: Config, steps: seq<Step>, r: nat)
    requires r < |Run(cfg, steps).requests| && Run(cfg, steps).requests[r].stage.AtQueue?
    ensures var s := Run(cfg, steps);
      var adjacent := s.requests[r].adjacent;
      var t := Apply(cfg, s, Advance(r));
      if Serving(s.requests, adjacent) < (if adjacent then 1 else cfg.capacity)
      then t.requests == s.requests[r := s.requests[r].(stage := InService)]
      else t == s
  {
    var s := Run(cfg, steps);
    QueueLengthIsServing(cfg, steps);
    assert QueueLength(s, s.requests[r].adjacent) == Serving(s.requests, s.requests[r].adjacent);
    hide Run, Serving, Live;
  }

  /** The class of a path: whether "/adjacent" occurs in it. */
  lemma AdjacentIff(path: string)
    ensures IsAdjacent(path) <==> exists before, after :: path == before + "/adjacent" + after
  {
    if IsAdjacent(path) {
      var i :| 0 <= i <= |path| - 9 && AdjacentAt(path, i);
      assert path == path[..i] + "/adjacent" + path[i + 9..];
    }
    if before, after :| path == before + "/adjacent" + after {
      assert path[|before|..|before| + 9] == "/adjacent";
      assert AdjacentAt(path, |before|);
    }
  }

  lemma ArrivesAs(cfg: Config, s: State, client: string, path: string)
    ensures var t := Apply(cfg, s, Arrive(client, path));
      |t.requests| == |s.requests| + 1 && t.requests[..|s.requests|] == s.requests
      && t.requests[|s.requests|].client == client
      && (t.requests[|s.requests|].adjacent <==> exists before, after :: path == before + "/adjacent" + after)
      && (t.requests[|s.requests|].stage.AtQueue? <==> cfg.reqLimit <= 0)
  {
    AdjacentIff(path);
    hide IsAdjacent;
  }

  ghost predicate Unlimited(s: State) {
    forall r :: 0 <= r < |s.requests| ==>
      var stage := s.requests[r].stage;
      stage.AtQueue? || stage.InService? || stage.TimedOut? || stage.Finished?
  }

  /** A limit that is not positive refuses nobody: every request waits for its queue at once. */
  lemma {:induction false} NoLimitNoRefusal(cfg: Config, steps: seq<Step>)
    requires cfg.reqLimit <= 0
    ensures Unlimited(Run(cfg, steps))
  {
    if steps != [] {
      var s := Run(cfg, steps[..|steps| - 1]);
      NoLimitNoRefusal(cfg, steps[..|steps| - 1]);
      assert Unlimited(Apply(cfg, s, steps[|steps| - 1])) by {
        hide Live, IsAdjacent, Granted, Incremented, Run;
      }
    }
  }

  lemma {:induction false} ServingSome(requests: seq<Request>, r: nat)
    requires r < |requests| && requests[r].stage.InService?
    ensures Serving(requests, requests[r].adjacent) >= 1
  {
    if r < |requests| - 1 {
      ServingSome(requests[..|requests| - 1], r);
    }
  }

  /** A served request can always release: its receive never blocks, and it frees exactly its own place. */
  lemma ReleaseNeverBlocks(cfg: Config, steps: seq<Step>, r: nat)
    requires r < |Run(cfg, steps).requests| && Run(cfg, steps).requests[r].stage.InService?
    ensures var s := Run(cfg, steps);
            var adjacent := s.requests[r].adjacent;
            var t := Apply(cfg, s, Release(r));
            && t.requests[r].stage.Finished?
            && QueueLength(t, adjacent) == QueueLength(s, adjacent) - 1
            && QueueLength(t, !adjacent) == QueueLength(s, !adjacent)
  {
    var s := Run(cfg, steps);
    QueueLengthIsServing(cfg, steps);
    ServingSome(s.requests, r);
    assert QueueLength(s, s.requests[r].adjacent) == Serving(s.requests, s.requests[r].adjacent);
  }

  predicate Refused(s: State, r: nat) {
    r < |s.requests| && (s.requests[r].stage.Rejected? || s.requests[r].stage.TimedOut?)
  }

  /** In service, or already released. */
  predicate Served(s: State, r: nat) {
    r < |s.requests| && (s.requests[r].stage.InService? || s.requests[r].stage.Finished?)
  }

  lemma RefusedStep(cfg: Config, s: State, step: Step, r: nat)
    requires Refused(s, r)
    ensures Refused(Apply(cfg, s, step), r)
    ensures step == Release(r) || step == Advance(r) || step == TimeOut(r) ==> Apply(cfg, s, step) == s
  {
    hide Live, IsAdjacent, QueueLength, Capacity;
  }

  lemma ServedStep(cfg: Config, s: State, step: Step, r: nat)
    requires Served(s, r)
    ensures Served(Apply(cfg, s, step), r)
  {
    hide Live, IsAdjacent, QueueLength, Capacity;
  }

  lemma RunPrefix(cfg: Config, steps: seq<Step>, n: nat)
    requires 1 <= n <= |steps|
    ensures Run(cfg, steps[..n]) == Apply(cfg, Run(cfg, steps[..n - 1]), steps[n - 1])
  {
    assert steps[..n][..n - 1] == steps[..n - 1];
  }

  /** Once refused, a request is refused for ever, and whatever it tries from then on changes nothing. */
  lemma {:induction false} RefusedForEver(cfg: Config, steps: seq<Step>, n: nat, k: nat, r: nat)
    requires n <= k <= |steps| && Refused(Run(cfg, steps[..n]), r)
    ensures Refused(Run(cfg, steps[..k]), r)
    ensures k < |steps| && (steps[k] == Release(r) || steps[k] == Advance(r) || steps[k] == TimeOut(r)) ==>
              Run(cfg, steps[..k + 1]) == Run(cfg, steps[..k])
    decreases k
  {
    hide *;
    if n < k {
      RefusedForEver(cfg, steps, n, k - 1, r);
      RunPrefix(cfg, steps, k);
      RefusedStep(cfg, Run(cfg, steps[..k - 1]), steps[k - 1], r);
    }
    if k < |steps| {
      RunPrefix(cfg, steps, k + 1);
      RefusedStep(cfg, Run(cfg, steps[..k]), steps[k], r);
    }
  }

  lemma {:induction false} ServedForEver(cfg: Config, steps: seq<Step>, n: nat, k: nat, r: nat)
    requires n <= k <= |steps| && Served(Run(cfg, steps[..n]), r)
    ensures Served(Run(cfg, steps[..k]), r)
    decreases k
  {
    hide *;
    if n < k {
      ServedForEver(cfg, steps, n, k - 1, r);
      RunPrefix(cfg, steps, k);
      ServedStep(cfg, Run(cfg, steps[..k - 1]), steps[k - 1], r);
    }
  }

  /** So a request that is refused at some point of a run is served at no point of it, before or after. */
  lemma RefusedNeverServed(cfg: Config, steps: seq<Step>, n: nat, k: nat, r: nat)
    requires n <= |steps| && k <= |steps| && Refused(Run(cfg, steps[..n]), r)
    ensures !Served(Run(cfg, steps[..k]), r)
  {
    if n <= k {
      RefusedForEver(cfg, steps, n, k, r);
    } else if Served(Run(cfg, steps[..k]), r) {
      ServedForEver(cfg, steps, k, n, r);
    }
    hide Run;
  }

  // ---------------------------------------------------------------- the limiter itself, one call at a time

  /** IncrementInt and Add of the cache, and the two channels, as the code calls them. */
  class Limiter {
    const cfg: Config
    var entries: map<string, Entry>
    var queue: nat
    var adjacentQueue: nat

    constructor (cfg: Config)
      ensures this.cfg == cfg && entries == map[] && queue == 0 && adjacentQueue == 0
    {
      this.cfg := cfg;
      entries, queue, adjacentQueue := map[], 0, 0;
    }

    /** The count, or None if there is no counter that has not expired. */
    method IncrementInt(client: string, now: int) returns (count: Option<nat>)
      modifies this`entries
      ensures if Live(old(entries), client, now)
              then var e := old(entries)[client];
                   count == Some(e.count + 1) && entries == old(entries)[client := e.(count := e.count + 1)]
              else count == None && entries == old(entries)
    {
      if !Live(entries, client, now) {
        return None;
      }
      var e := entries[client];
      entries := entries[client := e.(count := e.count + 1)];
      return Some(e.count + 1);
    }

    method Add(client: string, now: int) returns (ok: bool)
      modifies this`entries
      ensures ok == !Live(old(entries), client, now)
      ensures if ok then entries.Keys == old(entries).Keys + {client}
                         && entries[client].count == 1 && entries[client].expiresAt == now + cfg.lifetime
                         && (forall c :: c in old(entries) && c != client ==> entries[c] == old(entries)[c])
              else entries == old(entries)
    {
      if Live(entries, client, now) {
        return false;
      }
      var expiresAt := now + cfg.lifetime;
      entries := entries[client := Entry(1, expiresAt, 0)];
      return true;
    }

    /**
     * Called alone, it needs no fallback: a counter that has not expired is raised and keeps its expiry, any other is
     * replaced by a new one, and the request is refused exactly when its count exceeds a positive limit.
     */
    method CheckReqLimit(client: string, now: int) returns (exceeded: bool)
      modifies this`entries
      ensures cfg.reqLimit <= 0 ==> !exceeded && entries == old(entries)
      ensures cfg.reqLimit > 0 ==> client in entries && exceeded == (entries[client].count > cfg.reqLimit)
      ensures cfg.reqLimit > 0 && client in old(entries) && now <= old(entries)[client].expiresAt ==>
                && entries[client].count == old(entries)[client].count + 1
                && entries[client].expiresAt == old(entries)[client].expiresAt
      ensures cfg.reqLimit > 0 && (client in old(entries) ==> now > old(entries)[client].expiresAt) ==>
                entries[client].count == 1 && entries[client].expiresAt == now + cfg.lifetime
      ensures forall c :: c in old(entries) && c != client ==> c in entries && entries[c] == old(entries)[c]
    {
      if cfg.reqLimit <= 0 {
        return false;
      }
      var count := IncrementInt(client, now);
      var n := 1;
      if count.Some? {
        n := count.value;
      } else {
        var added := Add(client, now);
        if !added {
          // Only a concurrent call can make Add fail here; see AtIncrementAgain above.
          assert false;
        }
      }
      return n > cfg.reqLimit;
    }

    /** A free place is taken at once; with none, a caller that nobody releases runs into the timeout. */
    method TakeResource(client: string, path: string, now: int) returns (outcome: Stage)
      modifies this`entries, this`queue, this`adjacentQueue
      ensures outcome.Rejected? || outcome.InService? || outcome.TimedOut?
      ensures outcome.Rejected? <==>
                (cfg.reqLimit > 0 && client in old(entries) && now <= old(entries)[client].expiresAt
                 && old(entries)[client].count + 1 > cfg.reqLimit)
      ensures outcome.InService? ==>
                if IsAdjacent(path)
                then adjacentQueue == old(adjacentQueue) + 1 <= ADJACENT_CAPACITY && queue == old(queue)
                else queue == old(queue) + 1 <= cfg.capacity && adjacentQueue == old(adjacentQueue)
      ensures !outcome.InService? ==> queue == old(queue) && adjacentQueue == old(adjacentQueue)
      ensures outcome.TimedOut? ==>
                if IsAdjacent(path) then adjacentQueue >= ADJACENT_CAPACITY else queue >= cfg.capacity
    {
      var exceeded := CheckReqLimit(client, now);
      if exceeded {
        return Rejected;
      }
      if IsAdjacent(path) {
        if adjacentQueue >= ADJACENT_CAPACITY {
          return TimedOut;
        }
        adjacentQueue := adjacentQueue + 1;
      } else {
        if queue >= cfg.capacity {
          return TimedOut;
        }
        queue := queue + 1;
      }
      return InService;
    }

    /** Undoes the take on the same class of path. */
    method ReleaseResource(path: string)
      requires if IsAdjacent(path) then adjacentQueue > 0 else queue > 0
      modifies this`queue, this`adjacentQueue
      ensures if IsAdjacent(path) then adjacentQueue == old(adjacentQueue) - 1 && queue == old(queue)
              else queue == old(queue) - 1 && adjacentQueue == old(adjacentQueue)
    {
      if IsAdjacent(path) {
        adjacentQueue := adjacentQueue - 1;
      } else {
        queue := queue - 1;
      }
    }
  }
}
