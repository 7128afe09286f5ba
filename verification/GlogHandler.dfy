/** Log filtering with per-call-site overrides: a memo table that must agree with the current list of patterns. */
module GlogHandler {
  import opened GoInts
  import opened Options

  /** A compiled pattern; whether it matches a call site is left abstract. */
  datatype Pattern = Pattern(regex: string, level: nat)

  type Matcher = (Pattern, nat) -> bool

  /** The level of the first pattern that matches the site, and 0 if none does. */
  function FirstMatch(matches: Matcher, patterns: seq<Pattern>, site: nat): nat {
    if patterns == [] then 0
    else if matches(patterns[0], site) then patterns[0].level
    else FirstMatch(matches, patterns[1..], site)
  }

  /** The first match wins, whatever the patterns after it say. */
  lemma {:induction false} FirstMatchWins(matches: Matcher, patterns: seq<Pattern>, site: nat, i: nat)
    requires i < |patterns| && matches(patterns[i], site)
    requires forall j :: 0 <= j < i ==> !matches(patterns[j], site)
    ensures FirstMatch(matches, patterns, site) == patterns[i].level
  {
    if i > 0 {
      assert forall j :: 0 <= j < i - 1 ==> patterns[1..][j] == patterns[j + 1];
      FirstMatchWins(matches, patterns[1..], site, i - 1);
    }
  }

  lemma {:induction false} NoMatchIsZero(matches: Matcher, patterns: seq<Pattern>, site: nat)
    requires forall i :: 0 <= i < |patterns| ==> !matches(patterns[i], site)
    ensures FirstMatch(matches, patterns, site) == 0
  {
    if patterns != [] {
      assert forall j :: 0 <= j < |patterns[1..]| ==> patterns[1..][j] == patterns[j + 1];
      NoMatchIsZero(matches, patterns[1..], site);
    }
  }

  ghost predicate FirstAt(matches: Matcher, patterns: seq<Pattern>, site: nat, i: nat) {
    i < |patterns| && matches(patterns[i], site) && forall j :: 0 <= j < i ==> !matches(patterns[j], site)
  }

  lemma {:induction false} SomeFirst(matches: Matcher, patterns: seq<Pattern>, site: nat, n: nat) returns (i: nat)
    requires n < |patterns| && matches(patterns[n], site)
    ensures FirstAt(matches, patterns, site, i)
  {
    if j :| 0 <= j < n && matches(patterns[j], site) {
      i := SomeFirst(matches, patterns, site, j);
    } else {
      i := n;
    }
  }

  /** A level above 0 is reached exactly by the first matching pattern. */
  lemma FirstMatchReaches(matches: Matcher, patterns: seq<Pattern>, site: nat, lvl: nat)
    requires lvl > 0
    ensures FirstMatch(matches, patterns, site) >= lvl <==>
              exists i: nat :: FirstAt(matches, patterns, site, i) && patterns[i].level >= lvl
  {
    hide FirstMatch;
    if n: nat :| n < |patterns| && matches(patterns[n], site) {
      var i := SomeFirst(matches, patterns, site, n);
      FirstMatchWins(matches, patterns, site, i);
      forall k: nat | FirstAt(matches, patterns, site, k)
        ensures k == i
      {
      }
    } else {
      NoMatchIsZero(matches, patterns, site);
    }
  }

  // ---------------------------------------------------------------- the handler, one call at a time

  class Handler {
    const matches: Matcher
    var level: uint32
    var override: uint32
    var patterns: seq<Pattern>
    /** None is Go's nil map, which can be read but not written. */
    var siteCache: Option<map<nat, nat>>

    ghost predicate Valid()
      reads this
    {
      && |patterns| < TWO32 && override == |patterns|
      && (override > 0 ==> siteCache.Some?)
      && (siteCache.Some? ==>
            forall site :: site in siteCache.value ==> siteCache.value[site] == FirstMatch(matches, patterns, site))
    }

    /** What filtering without any cache would decide. */
    ghost predicate Direct(lvl: nat, site: nat)
      reads this
    {
      level >= lvl || FirstMatch(matches, patterns, site) >= lvl
    }

    constructor (matches: Matcher)
      ensures Valid() && this.matches == matches && level == 0 && patterns == []
    {
      this.matches := matches;
      level, override, patterns, siteCache := 0, 0, [], None;
    }

    method Verbosity(level: uint32)
      requires Valid()
      modifies this`level
      ensures Valid() && this.level == level
    {
      this.level := level;
    }

    /** The part of Vmodule under the lock: new patterns, an empty cache, and the flag. */
    method Vmodule(filter: seq<Pattern>)
      requires Valid() && |filter| < TWO32
      modifies this`patterns, this`siteCache, this`override
      ensures Valid() && patterns == filter && siteCache == Some(map[])
    {
      patterns := filter;
      siteCache := Some(map[]);
      override := |filter|;
    }

    /**
     * Emits the record exactly when the uncached rules would: if the verbosity allows it, or else if the level of the
     * first pattern that matches the site does.
     */
    method Log(lvl: nat, site: nat) returns (emit: bool)
      requires Valid()
      modifies this`siteCache
      ensures Valid()
      ensures emit == Direct(lvl, site)
      ensures level >= lvl ==> emit
      ensures level < lvl ==>
                (emit <==> exists i: nat :: FirstAt(matches, patterns, site, i) && patterns[i].level >= lvl)
      ensures siteCache == old(siteCache)
              || (old(siteCache).Some?
                  && siteCache == Some(old(siteCache).value[site := FirstMatch(matches, patterns, site)]))
    {
      if level >= lvl {
        return true;
      }
      FirstMatchReaches(matches, patterns, site, lvl);
      if override == 0 {
        return false;
      }
      var lvlFound, ok := 0, false;
      if site in siteCache.value {
        lvlFound, ok := siteCache.value[site], true;
      }
      if !ok {
        var i := 0;
        while i < |patterns|
          invariant 0 <= i <= |patterns| && !ok && lvlFound == 0 && siteCache == old(siteCache)
          invariant FirstMatch(matches, patterns, site) == FirstMatch(matches, patterns[i..], site)
        {
          assert patterns[i..][0] == patterns[i] && patterns[i..][1..] == patterns[i + 1..];
          if matches(patterns[i], site) {
            siteCache := Some(siteCache.value[site := patterns[i].level]);
            lvlFound, ok := patterns[i].level, true;
            break;
          }
          i := i + 1;
        }
        if !ok {
          assert patterns[|patterns|..] == [];
          siteCache := Some(siteCache.value[site := 0]);
        }
      }
      return lvlFound >= lvl;
    }
  }

  // ---------------------------------------------------------------- concurrent calls

  datatype Stage = AtLevel | AtOverride | AtCache | AtFill | Done(emit: bool)

  datatype Call = Call(lvl: nat, site: nat, stage: Stage)

  /** `swapping` is the moment inside Vmodule's lock when the flag is still the old one. */
  datatype State = State(level: uint32, override: uint32, patterns: seq<Pattern>, siteCache: Option<map<nat, nat>>,
                         swapping: bool, calls: seq<Call>, nilWrite: bool)

  datatype Step = Begin(lvl: nat, site: nat) | Advance(c: nat) | Verbosity(level: uint32)
                | Swap(filter: seq<Pattern>) | StoreOverride

  const INITIAL := State(0, 0, [], None, false, [], false)

  function At(s: State, c: nat, stage: Stage): State
    requires c < |s.calls|
  {
    s.(calls := s.calls[c := s.calls[c].(stage := stage)])
  }

  /** The next step of a call; the sections under the lock wait for a Vmodule that holds it. */
  function Next(matches: Matcher, s: State, c: nat): State
    requires c < |s.calls|
  {
    var call := s.calls[c];
    match call.stage
    case AtLevel => At(s, c, if s.level >= call.lvl then Done(true) else AtOverride)
    case AtOverride => At(s, c, if s.override == 0 then Done(false) else AtCache)
    case AtCache =>
      if s.swapping then s
      else if s.siteCache.Some? && call.site in s.siteCache.value
      then At(s, c, Done(s.siteCache.value[call.site] >= call.lvl))
      else At(s, c, AtFill)
    case AtFill =>
      if s.swapping then s
      else
        var lvl := FirstMatch(matches, s.patterns, call.site);
        if s.siteCache.None? then s.(nilWrite := true)
        else At(s, c, Done(lvl >= call.lvl)).(siteCache := Some(s.siteCache.value[call.site := lvl]))
    case _ => s
  }

  function Apply(matches: Matcher, s: State, step: Step): State {
    match step
    case Begin(lvl, site) => s.(calls := s.calls + [Call(lvl, site, AtLevel)])
    case Advance(c) => if c < |s.calls| then Next(matches, s, c) else s
    case Verbosity(level) => s.(level := level)
    case Swap(filter) =>
      if s.swapping || |filter| >= TWO32 then s
      else s.(patterns := filter, siteCache := Some(map[]), swapping := true)
    case StoreOverride =>
      if s.swapping && |s.patterns| < TWO32 then s.(override := |s.patterns|, swapping := false) else s
  }

  function Run(matches: Matcher, steps: seq<Step>): State {
    if steps == [] then INITIAL else Apply(matches, Run(matches, steps[..|steps| - 1]), steps[|steps| - 1])
  }

  /** The overrides in force: none while the flag says so. */
  function Rules(s: State): seq<Pattern> {
    if s.override == 0 then [] else s.patterns
  }

  predicate Direct(matches: Matcher, s: State, call: Call) {
    s.level >= call.lvl || FirstMatch(matches, Rules(s), call.site) >= call.lvl
  }

  /** Direct evaluation: the verbosity, or the level of the first pattern in force that matches. */
  lemma DirectMeans(matches: Matcher, s: State, call: Call)
    requires call.lvl > 0
    ensures Direct(matches, s, call) <==>
              || s.level >= call.lvl
              || (s.override > 0
                  && exists i: nat ::
                       FirstAt(matches, s.patterns, call.site, i) && s.patterns[i].level >= call.lvl)
  {
    FirstMatchReaches(matches, Rules(s), call.site, call.lvl);
    if s.override == 0 {
      assert Rules(s) == [];
    } else {
      assert Rules(s) == s.patterns;
    }
    hide FirstMatch, Rules;
  }

  ghost predicate CacheAgrees(matches: Matcher, s: State) {
    s.siteCache.Some? ==>
      forall site :: site in s.siteCache.value ==> s.siteCache.value[site] == FirstMatch(matches, s.patterns, site)
  }

  ghost predicate CallOk(s: State, c: nat)
    requires c < |s.calls|
  {
    var call := s.calls[c];
    && (call.stage.AtOverride? || call.stage.AtCache? || call.stage.AtFill? ==> call.lvl > 0)
    && (call.stage.AtCache? || call.stage.AtFill? ==> s.siteCache.Some?)
  }

  ghost predicate Inv(matches: Matcher, s: State) {
    && CacheAgrees(matches, s)
    && (s.override > 0 ==> s.siteCache.Some?)
    && (s.swapping ==> s.siteCache.Some?)
    && |s.patterns| < TWO32
    && (!s.swapping ==> s.override == |s.patterns|)
    && !s.nilWrite
    && (forall c: nat :: c < |s.calls| ==> CallOk(s, c))
  }

  lemma StepKeepsInv(matches: Matcher, s: State, step: Step)
    requires Inv(matches, s)
    ensures Inv(matches, Apply(matches, s, step))
  {
    var t := Apply(matches, s, step);
    if step.Advance? && step.c < |s.calls| {
      assert CallOk(s, step.c);
    }
    hide FirstMatch;
    forall c: nat | c < |t.calls|
      ensures CallOk(t, c)
    {
      assert c < |s.calls| ==> CallOk(s, c);
    }
  }

  lemma {:induction false} RunKeepsInv(matches: Matcher, steps: seq<Step>)
    ensures Inv(matches, Run(matches, steps))
  {
    if steps != [] {
      RunKeepsInv(matches, steps[..|steps| - 1]);
      StepKeepsInv(matches, Run(matches, steps[..|steps| - 1]), steps[|steps| - 1]);
    }
  }

  /** Whatever interleaves, every cache entry is the first match of the current patterns, and no nil map is written. */
  lemma CacheAlwaysAgrees(matches: Matcher, steps: seq<Step>, site: nat)
    ensures var s := Run(matches, steps);
            && !s.nilWrite
            && (s.siteCache.Some? && site in s.siteCache.value ==>
                  s.siteCache.value[site] == FirstMatch(matches, s.patterns, site))
  {
    RunKeepsInv(matches, steps);
  }

  /**
   * A call that decides to emit agrees with direct evaluation at that moment. One that decides to drop agrees
   * exactly when the verbosity, which it checked earlier, is still below the record's level.
   */
  lemma DecisionAgrees(matches: Matcher, steps: seq<Step>, c: nat)
    requires var s := Run(matches, steps);
             c < |s.calls| && !s.calls[c].stage.Done? && Next(matches, s, c).calls[c].stage.Done?
    ensures var s := Run(matches, steps);
            var emit := Next(matches, s, c).calls[c].stage.emit;
            emit == Direct(matches, s, s.calls[c]) <==> (emit || s.level < s.calls[c].lvl)
  {
    var s := Run(matches, steps);
    RunKeepsInv(matches, steps);
    assert CallOk(s, c);
    assert FirstMatch(matches, [], s.calls[c].site) == 0;
    hide FirstMatch, Run;
    assert !s.swapping && s.override == 0 ==> s.patterns == [];
  }

  ghost predicate NoVerbosity(steps: seq<Step>, n: nat) {
    forall i :: n <= i < |steps| ==> !steps[i].Verbosity?
  }

  lemma StepKeepsCall(matches: Matcher, s: State, step: Step, c: nat)
    requires c < |s.calls|
    ensures var t := Apply(matches, s, step);
            && c < |t.calls| && t.calls[c].lvl == s.calls[c].lvl
            && (s.calls[c].stage.Done? ==> t.calls[c].stage == s.calls[c].stage)
            && (!step.Verbosity? ==> t.level == s.level)
  {
    hide FirstMatch;
  }

  /** Calls keep their record and their place, and only Verbosity changes the level. */
  lemma {:induction false} SinceThen(matches: Matcher, steps: seq<Step>, n: nat, c: nat)
    requires n <= |steps| && NoVerbosity(steps, n) && c < |Run(matches, steps[..n]).calls|
    ensures Run(matches, steps).level == Run(matches, steps[..n]).level
    ensures c < |Run(matches, steps).calls|
    ensures Run(matches, steps).calls[c].lvl == Run(matches, steps[..n]).calls[c].lvl
    decreases |steps|
  {
    if n == |steps| {
      assert steps[..n] == steps;
    } else {
      var front := steps[..|steps| - 1];
      assert front[..n] == steps[..n];
      SinceThen(matches, front, n, c);
      StepKeepsCall(matches, Run(matches, front), steps[|steps| - 1], c);
      hide Apply;
    }
  }

  /**
   * If the verbosity is left alone from the moment the call checks it, every decision is right at the moment it is
   * made, however many Vmodule swaps and other calls come in between.
   */
  lemma SwapsAloneAreHarmless(matches: Matcher, steps: seq<Step>, n: nat, c: nat)
    requires n <= |steps| && NoVerbosity(steps, n)
    requires var s := Run(matches, steps[..n]); c < |s.calls| && s.calls[c].stage.AtLevel?
    requires var s := Run(matches, steps);
             c < |s.calls| && !s.calls[c].stage.Done? && Next(matches, s, c).calls[c].stage.Done?
    requires n < |steps| ==> steps[n] == Advance(c)
    ensures var s := Run(matches, steps);
            Next(matches, s, c).calls[c].stage.emit == Direct(matches, s, s.calls[c])
  {
    hide *;
    DecisionAgrees(matches, steps, c);
    SinceThen(matches, steps, n, c);
    LevelCheck(matches, Run(matches, steps[..n]), c);
    if n < |steps| {
      RunPrefix(matches, steps, n + 1);
      if Run(matches, steps[..n]).level >= Run(matches, steps[..n]).calls[c].lvl {
        DoneStays(matches, steps, n + 1, c);
      }
    } else {
      assert steps[..n] == steps;
    }
  }

  lemma LevelCheck(matches: Matcher, s: State, c: nat)
    requires c < |s.calls| && s.calls[c].stage.AtLevel?
    ensures var t := Next(matches, s, c);
      && t == Apply(matches, s, Advance(c)) && c < |t.calls|
      && t.calls[c].stage == if s.level >= s.calls[c].lvl then Done(true) else AtOverride
  {
    hide FirstMatch;
  }

  lemma {:induction false} DoneStays(matches: Matcher, steps: seq<Step>, n: nat, c: nat)
    requires n <= |steps| && c < |Run(matches, steps[..n]).calls| && Run(matches, steps[..n]).calls[c].stage.Done?
    ensures c < |Run(matches, steps).calls| && Run(matches, steps).calls[c].stage.Done?
    decreases |steps|
  {
    if n == |steps| {
      assert steps[..n] == steps;
    } else {
      var front := steps[..|steps| - 1];
      assert front[..n] == steps[..n];
      DoneStays(matches, front, n, c);
      StepKeepsCall(matches, Run(matches, front), steps[|steps| - 1], c);
      hide Apply;
    }
  }

  // ---------------------------------------------------------------- agreement at some moment of the call

  /** Call c begins with the n-th step and decides with the step after `steps`. */
  ghost predicate IsCall(matches: Matcher, steps: seq<Step>, n: nat, c: nat) {
    && 1 <= n <= |steps| && steps[n - 1].Begin? && |Run(matches, steps[..n - 1]).calls| == c
    && c < |Run(matches, steps).calls|
    && !Run(matches, steps).calls[c].stage.Done?
    && Next(matches, Run(matches, steps), c).calls[c].stage.Done?
  }

  ghost function Decision(matches: Matcher, steps: seq<Step>, c: nat): bool
    requires c < |Run(matches, steps).calls| && Next(matches, Run(matches, steps), c).calls[c].stage.Done?
  {
    Next(matches, Run(matches, steps), c).calls[c].stage.emit
  }

  /** What direct evaluation of the call's record decides after the first k steps. */
  ghost predicate DirectAt(matches: Matcher, steps: seq<Step>, k: nat, call: Call)
    requires k <= |steps|
  {
    Direct(matches, Run(matches, steps[..k]), call)
  }

  ghost predicate AgreesAtSomeMoment(matches: Matcher, steps: seq<Step>, n: nat, c: nat)
    requires IsCall(matches, steps, n, c)
  {
    exists k: nat :: n <= k <= |steps|
                     && DirectAt(matches, steps, k, Run(matches, steps).calls[c]) == Decision(matches, steps, c)
  }

  /** The step leaves a state in which direct evaluation drops the call's record, and may have brought that about. */
  predicate TurnsOff(matches: Matcher, s: State, step: Step, call: Call) {
    match step
    case Verbosity(level) => level < call.lvl && FirstMatch(matches, Rules(s), call.site) < call.lvl
    case Swap(filter) =>
      && s.level < call.lvl && s.override > 0 && !s.swapping && |filter| < TWO32
      && FirstMatch(matches, filter, call.site) < call.lvl
    case StoreOverride =>
      s.level < call.lvl && s.swapping && FirstMatch(matches, s.patterns, call.site) < call.lvl
    case _ => false
  }

  ghost predicate TurnedOff(matches: Matcher, steps: seq<Step>, i: nat, call: Call)
    requires i < |steps|
  {
    TurnsOff(matches, Run(matches, steps[..i]), steps[i], call)
  }

  lemma StepKeepsDirect(matches: Matcher, s: State, step: Step, call: Call)
    requires Inv(matches, s) && Direct(matches, s, call) && !TurnsOff(matches, s, step, call)
    ensures Direct(matches, Apply(matches, s, step), call)
  {
    assert FirstMatch(matches, [], call.site) == 0;
    hide FirstMatch;
  }

  lemma TurningOffDrops(matches: Matcher, s: State, step: Step, call: Call)
    requires Inv(matches, s) && call.lvl > 0 && TurnsOff(matches, s, step, call)
    ensures !Direct(matches, Apply(matches, s, step), call)
  {
    assert FirstMatch(matches, [], call.site) == 0;
    hide FirstMatch;
  }

  /** As long as nothing turns it off, direct evaluation goes on emitting. */
  lemma {:induction false} DirectLasts(matches: Matcher, steps: seq<Step>, n: nat, k: nat, call: Call)
    requires n <= k <= |steps| && DirectAt(matches, steps, n, call)
    requires forall i: nat :: n <= i < k ==> !TurnedOff(matches, steps, i, call)
    ensures DirectAt(matches, steps, k, call)
    decreases k
  {
    if n < k {
      DirectLasts(matches, steps, n, k - 1, call);
      RunKeepsInv(matches, steps[..k - 1]);
      RunPrefix(matches, steps, k);
      assert !TurnedOff(matches, steps, k - 1, call);
      hide Run, Apply, Direct, TurnsOff, Inv;
      StepKeepsDirect(matches, Run(matches, steps[..k - 1]), steps[k - 1], call);
    }
  }

  lemma DropIsRight(matches: Matcher, steps: seq<Step>, n: nat, c: nat)
    requires IsCall(matches, steps, n, c)
    ensures Decision(matches, steps, c) ==> DirectAt(matches, steps, |steps|, Run(matches, steps).calls[c])
    ensures !Decision(matches, steps, c) ==> Run(matches, steps).calls[c].lvl > 0
    ensures !Decision(matches, steps, c) ==>
              var s := Run(matches, steps);
              FirstMatch(matches, Rules(s), s.calls[c].site) < s.calls[c].lvl
  {
    RunKeepsInv(matches, steps);
    assert steps[..|steps|] == steps;
    DropIsRightIn(matches, Run(matches, steps), c);
    hide Run, Next, Direct, Inv, FirstMatch, Rules;
  }

  lemma DropIsRightIn(matches: Matcher, s: State, c: nat)
    requires Inv(matches, s) && c < |s.calls| && !s.calls[c].stage.Done? && Next(matches, s, c).calls[c].stage.Done?
    ensures var emit := Next(matches, s, c).calls[c].stage.emit;
      && (emit ==> Direct(matches, s, s.calls[c]))
      && (!emit ==> s.calls[c].lvl > 0 && FirstMatch(matches, Rules(s), s.calls[c].site) < s.calls[c].lvl)
  {
    assert CallOk(s, c);
    assert FirstMatch(matches, [], s.calls[c].site) == 0;
    hide FirstMatch;
    assert !s.swapping && s.override == 0 ==> s.patterns == [];
  }

  /**
   * An emitted record agrees with direct evaluation at some moment of its call. A dropped one does exactly if direct
   * evaluation drops it at the call's first moment, or some step during the call turns it off.
   */
  lemma AgreesIff(matches: Matcher, steps: seq<Step>, n: nat, c: nat)
    requires IsCall(matches, steps, n, c)
    ensures var call := Run(matches, steps).calls[c];
            AgreesAtSomeMoment(matches, steps, n, c) <==>
            (Decision(matches, steps, c)
             || !DirectAt(matches, steps, n, call)
             || exists i: nat :: n <= i < |steps| && TurnedOff(matches, steps, i, call))
  {
    var call := Run(matches, steps).calls[c];
    DropIsRight(matches, steps, n, c);
    hide DirectAt, TurnedOff, IsCall, Decision;
    if !Decision(matches, steps, c) {
      if i: nat :| n <= i < |steps| && TurnedOff(matches, steps, i, call) {
        TurnedOffDrops(matches, steps, i, call);
      } else if DirectAt(matches, steps, n, call) {
        forall k: nat | n <= k <= |steps|
          ensures DirectAt(matches, steps, k, call)
        {
          DirectLasts(matches, steps, n, k, call);
        }
      }
    }
  }

  lemma TurnedOffDrops(matches: Matcher, steps: seq<Step>, i: nat, call: Call)
    requires i < |steps| && call.lvl > 0 && TurnedOff(matches, steps, i, call)
    ensures !DirectAt(matches, steps, i + 1, call)
  {
    RunKeepsInv(matches, steps[..i]);
    RunPrefix(matches, steps, i + 1);
    hide Run, Apply, Direct, TurnsOff, Inv;
    TurningOffDrops(matches, Run(matches, steps[..i]), steps[i], call);
  }

  // ---------------------------------------------------------------- what it takes for a wrong drop

  ghost predicate ChangesRules(step: Step) {
    step.Swap? || step.StoreOverride?
  }

  ghost predicate RulesKept(steps: seq<Step>, i: nat, k: nat)
    requires k <= |steps|
  {
    forall j: nat :: i <= j < k ==> !ChangesRules(steps[j])
  }

  lemma StepKeepsRules(matches: Matcher, s: State, step: Step)
    ensures !ChangesRules(step) ==> Rules(Apply(matches, s, step)) == Rules(s)
    ensures !step.Verbosity? ==> Apply(matches, s, step).level == s.level
    ensures step.Verbosity? ==> Apply(matches, s, step).level == step.level
  {
    hide FirstMatch;
  }

  lemma KeptBefore(steps: seq<Step>, i: nat, k: nat)
    requires i < k <= |steps| && RulesKept(steps, i, k)
    ensures RulesKept(steps, i, k - 1) && !ChangesRules(steps[k - 1])
  {
    hide ChangesRules;
  }

  lemma {:induction false} RulesStay(matches: Matcher, steps: seq<Step>, i: nat, k: nat)
    requires i <= k <= |steps| && RulesKept(steps, i, k)
    ensures Rules(Run(matches, steps[..k])) == Rules(Run(matches, steps[..i]))
    decreases k
  {
    hide *;
    if i < k {
      KeptBefore(steps, i, k);
      RulesStay(matches, steps, i, k - 1);
      RunPrefix(matches, steps, k);
      StepKeepsRules(matches, Run(matches, steps[..k - 1]), steps[k - 1]);
    }
  }

  /** A level below lvl that is at least lvl later has been raised in between, at a moment when it was still below. */
  lemma {:induction false} RaisedBetween(matches: Matcher, steps: seq<Step>, m: nat, k: nat, lvl: nat) returns (i: nat)
    requires m <= k <= |steps|
    requires Run(matches, steps[..m]).level < lvl <= Run(matches, steps[..k]).level
    ensures m <= i < k && steps[i].Verbosity? && Run(matches, steps[..i]).level < lvl <= steps[i].level
    decreases k
  {
    RunPrefix(matches, steps, k) by { assert k > m; }
    var s := Run(matches, steps[..k - 1]);
    StepKeepsRules(matches, s, steps[k - 1]);
    hide Run, Apply;
    if s.level < lvl {
      i := k - 1;
    } else {
      i := RaisedBetween(matches, steps, m, k - 1, lvl);
    }
  }

  lemma LeavingLevel(matches: Matcher, s: State, step: Step, c: nat)
    requires c < |s.calls| && s.calls[c].stage.AtLevel?
    ensures var t := Apply(matches, s, step);
            c < |t.calls| && (t.calls[c].stage.AtLevel? || t.calls[c].stage.Done? || s.level < s.calls[c].lvl)
  {
    hide FirstMatch;
  }

  lemma {:induction false} CallStays(matches: Matcher, steps: seq<Step>, n: nat, k: nat, c: nat)
    requires n <= k <= |steps| && c < |Run(matches, steps[..n]).calls|
    ensures c < |Run(matches, steps[..k]).calls|
    decreases k
  {
    if n < k {
      CallStays(matches, steps, n, k - 1, c);
      RunPrefix(matches, steps, k);
      hide Run, Apply;
      StepKeepsCall(matches, Run(matches, steps[..k - 1]), steps[k - 1], c);
    }
  }

  predicate AtCheck(s: State, c: nat) {
    c < |s.calls| && s.calls[c].stage.AtLevel?
  }

  /** Past its level check, without having emitted there. */
  predicate PastCheck(s: State, c: nat, lvl: nat) {
    c < |s.calls| && s.calls[c].lvl == lvl && !s.calls[c].stage.AtLevel? && !s.calls[c].stage.Done?
  }

  lemma PastCheckBefore(matches: Matcher, s: State, step: Step, c: nat, lvl: nat)
    requires c < |s.calls| && PastCheck(Apply(matches, s, step), c, lvl)
    ensures PastCheck(s, c, lvl) || (AtCheck(s, c) && s.level < lvl)
  {
    StepKeepsCall(matches, s, step, c);
    if AtCheck(s, c) {
      LeavingLevel(matches, s, step, c);
    }
    hide Apply;
  }

  lemma NotPast(s: State, c: nat, lvl: nat)
    requires AtCheck(s, c)
    ensures c < |s.calls| && !PastCheck(s, c, lvl)
  {
  }

  /** Such a call found the level below its own. */
  lemma {:induction false} FoundLow(matches: Matcher, steps: seq<Step>, n: nat, k: nat, c: nat, lvl: nat)
    returns (m: nat)
    requires n <= k <= |steps|
    requires AtCheck(Run(matches, steps[..n]), c) && PastCheck(Run(matches, steps[..k]), c, lvl)
    ensures n <= m <= k && Run(matches, steps[..m]).level < lvl
    decreases k
  {
    hide *;
    NotPast(Run(matches, steps[..n]), c, lvl);
    CallStays(matches, steps, n, k - 1, c);
    RunPrefix(matches, steps, k);
    PastCheckBefore(matches, Run(matches, steps[..k - 1]), steps[k - 1], c, lvl);
    if PastCheck(Run(matches, steps[..k - 1]), c, lvl) {
      m := FoundLow(matches, steps, n, k - 1, c, lvl);
    } else {
      m := k - 1;
    }
  }

  lemma LowDuringCall(matches: Matcher, steps: seq<Step>, n: nat, c: nat) returns (m: nat)
    requires IsCall(matches, steps, n, c) && !Decision(matches, steps, c)
    ensures n <= m <= |steps| && Run(matches, steps[..m]).level < Run(matches, steps).calls[c].lvl
  {
    RunPrefix(matches, steps, n);
    assert steps[..|steps|] == steps;
    hide Run, FirstMatch;
    m := FoundLow(matches, steps, n, |steps|, c, Run(matches, steps).calls[c].lvl);
  }

  lemma OnlyByLevel(matches: Matcher, steps: seq<Step>, k: nat, call: Call)
    requires k <= |steps|
    ensures DirectAt(matches, steps, k, call) <==>
              (Run(matches, steps[..k]).level >= call.lvl
               || FirstMatch(matches, Rules(Run(matches, steps[..k])), call.site) >= call.lvl)
  {
  }

  /** For a drop that no moment of its call justifies the verbosity has to be raised, and then the rules changed. */
  lemma WrongDropNeedsBoth(matches: Matcher, steps: seq<Step>, n: nat, c: nat) returns (i: nat, j: nat)
    requires IsCall(matches, steps, n, c) && !AgreesAtSomeMoment(matches, steps, n, c)
    ensures n <= i < j < |steps|
    ensures steps[i].Verbosity? && steps[i].level >= Run(matches, steps).calls[c].lvl
    ensures ChangesRules(steps[j])
  {
    var call := Run(matches, steps).calls[c];
    DropIsRight(matches, steps, n, c);
    assert !Decision(matches, steps, c) && forall k: nat :: n <= k <= |steps| ==> DirectAt(matches, steps, k, call);
    assert steps[..|steps|] == steps;
    hide *;
    var m := LowDuringCall(matches, steps, n, c);
    OnlyByLevel(matches, steps, |steps|, call);
    i := RaisedBetween(matches, steps, m, |steps|, call.lvl);
    OnlyByLevel(matches, steps, i, call);
    j := ChangedAfter(matches, steps, i, call);
  }

  /** Rules that admit a record and later do not have been changed in between. */
  lemma ChangedAfter(matches: Matcher, steps: seq<Step>, i: nat, call: Call) returns (j: nat)
    requires i < |steps| && steps[i].Verbosity?
    requires FirstMatch(matches, Rules(Run(matches, steps[..i])), call.site) >= call.lvl
    requires FirstMatch(matches, Rules(Run(matches, steps)), call.site) < call.lvl
    ensures i < j < |steps| && ChangesRules(steps[j])
  {
    assert steps[..|steps|] == steps;
    hide Run, Rules, FirstMatch;
    if RulesKept(steps, i, |steps|) {
      RulesStay(matches, steps, i, |steps|);
      assert false;
    }
    j :| i <= j < |steps| && ChangesRules(steps[j]);
  }

  ghost predicate NoSwap(steps: seq<Step>, n: nat) {
    forall i :: n <= i < |steps| ==> !ChangesRules(steps[i])
  }

  /** So with the verbosity or the rules left alone during the call, every decision agrees at some moment. */
  lemma AgreesUnlessBoth(matches: Matcher, steps: seq<Step>, n: nat, c: nat)
    requires IsCall(matches, steps, n, c) && (NoVerbosity(steps, n) || NoSwap(steps, n))
    ensures AgreesAtSomeMoment(matches, steps, n, c)
  {
    hide IsCall, AgreesAtSomeMoment;
    if !AgreesAtSomeMoment(matches, steps, n, c) {
      var i, j := WrongDropNeedsBoth(matches, steps, n, c);
    }
  }

  // ---------------------------------------------------------------- a drop that no moment of the call justifies

  const RULE := Pattern("", 3)

  /** The rule applies, then the verbosity is raised, then the rule is removed; the call straddles all of it. */
  const STRADDLING: seq<Step> :=
    [Swap([RULE]), StoreOverride, Begin(3, 7), Advance(0), Verbosity(5), Swap([]), StoreOverride, Advance(0)]

  lemma RunPrefix(matches: Matcher, steps: seq<Step>, n: nat)
    requires 1 <= n <= |steps|
    ensures Run(matches, steps[..n]) == Apply(matches, Run(matches, steps[..n - 1]), steps[n - 1])
  {
    assert steps[..n][..n - 1] == steps[..n - 1];
  }

  /** The state after n steps of it, for the moments of the call. */
  function Straddled(n: nat): State
    requires 3 <= n <= 8
  {
    var calls := [Call(3, 7, if n == 3 then AtLevel else if n < 8 then AtOverride else Done(false))];
    var rules := if n < 6 then [RULE] else [];
    State(if n < 5 then 0 else 5, if n < 7 then 1 else 0, rules, Some(map[]), n == 6, calls, false)
  }

  lemma StraddledSteps(matches: Matcher, n: nat)
    requires 3 <= n < 8
    ensures Apply(matches, Straddled(n), STRADDLING[n]) == Straddled(n + 1)
  {
    hide FirstMatch;
  }

  lemma StraddledStart(matches: Matcher)
    ensures Run(matches, STRADDLING[..3]) == Straddled(3)
  {
    RunPrefix(matches, STRADDLING, 1);
    RunPrefix(matches, STRADDLING, 2);
    RunPrefix(matches, STRADDLING, 3);
    assert Run(matches, STRADDLING[..0]) == INITIAL;
    hide Run, FirstMatch;
  }

  lemma {:induction false} StraddledRun(matches: Matcher, n: nat)
    requires 3 <= n <= 8
    ensures Run(matches, STRADDLING[..n]) == Straddled(n)
  {
    hide Run, Apply, Straddled;
    if n == 3 {
      StraddledStart(matches);
    } else {
      StraddledRun(matches, n - 1);
      RunPrefix(matches, STRADDLING, n);
      StraddledSteps(matches, n - 1);
    }
  }

  /** At every moment of the call direct evaluation emits, and yet the record is dropped. */
  lemma DropAgainstEveryMoment(matches: Matcher)
    requires matches(RULE, 7)
    ensures forall n :: 3 <= n <= 7 ==>
              |Run(matches, STRADDLING[..n]).calls| == 1
              && Direct(matches, Run(matches, STRADDLING[..n]), Run(matches, STRADDLING[..n]).calls[0])
    ensures |Run(matches, STRADDLING).calls| == 1 && Run(matches, STRADDLING).calls[0].stage == Done(false)
  {
    assert FirstMatch(matches, [RULE], 7) == 3;
    hide Run, FirstMatch;
    forall n | 3 <= n <= 7
      ensures |Run(matches, STRADDLING[..n]).calls| == 1
              && Direct(matches, Run(matches, STRADDLING[..n]), Run(matches, STRADDLING[..n]).calls[0])
    {
      StraddledRun(matches, n);
    }
    StraddledRun(matches, 8);
    assert STRADDLING[..8] == STRADDLING;
  }

  lemma StraddlingCall(matches: Matcher)
    requires matches(RULE, 7)
    ensures IsCall(matches, STRADDLING[..7], 3, 0) && !AgreesAtSomeMoment(matches, STRADDLING[..7], 3, 0)
  {
    var steps := STRADDLING[..7];
    forall k: nat | k <= 7
      ensures steps[..k] == STRADDLING[..k]
    {
    }
    StraddledRun(matches, 7);
    StraddledCalls(matches);
    StraddledSteps(matches, 7);
    assert FirstMatch(matches, [RULE], 7) == 3;
    hide Run, FirstMatch;
    forall k: nat | 3 <= k <= 7
      ensures DirectAt(matches, steps, k, Straddled(7).calls[0])
    {
      StraddledRun(matches, k);
    }
  }

  lemma StraddledCalls(matches: Matcher)
    ensures |Run(matches, STRADDLING[..2]).calls| == 0
  {
    RunPrefix(matches, STRADDLING, 1);
    RunPrefix(matches, STRADDLING, 2);
    assert Run(matches, STRADDLING[..0]) == INITIAL;
    hide Run, FirstMatch;
  }

  /** What others may do while a call is under way. */
  ghost predicate Permitted(steps: seq<Step>, n: nat, verbosity: bool, swaps: bool) {
    forall i :: n <= i < |steps| ==> (steps[i].Verbosity? ==> verbosity) && (ChangesRules(steps[i]) ==> swaps)
  }

  ghost predicate AlwaysAgrees(matches: Matcher, verbosity: bool, swaps: bool) {
    forall steps: seq<Step>, n: nat, c: nat ::
      IsCall(matches, steps, n, c) && Permitted(steps, n, verbosity, swaps) ==> AgreesAtSomeMoment(matches, steps, n, c)
  }

  /** Every decision agrees at some moment, in all runs, exactly if not both may happen during a call. */
  lemma AlwaysAgreesIff(verbosity: bool, swaps: bool)
    ensures (forall matches: Matcher :: AlwaysAgrees(matches, verbosity, swaps)) <==> !(verbosity && swaps)
  {
    hide IsCall, AgreesAtSomeMoment;
    if verbosity && swaps {
      var matches: Matcher := (pattern, site) => true;
      StraddlingCall(matches);
      assert Permitted(STRADDLING[..7], 3, verbosity, swaps);
      assert !AlwaysAgrees(matches, verbosity, swaps);
    } else {
      forall matches: Matcher
        ensures AlwaysAgrees(matches, verbosity, swaps)
      {
        forall steps: seq<Step>, n: nat, c: nat | IsCall(matches, steps, n, c) && Permitted(steps, n, verbosity, swaps)
          ensures AgreesAtSomeMoment(matches, steps, n, c)
        {
          AgreesUnlessBoth(matches, steps, n, c);
        }
      }
    }
  }
}
