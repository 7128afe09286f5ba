/**
 * Concurrent getOrLoad calls on one method's cache: Get, load and Set are separate steps, interleaved with other
 * calls, the clock, the eviction of expired items and the clearing of the cache.
 */
module CacheRuns {
  import opened Options
  import opened CacheKeys
  import opened TtlCache

  /** What one load produces: result, continuation token and error together. */
  datatype Loaded = Loaded(res: int, token: Option<string>, err: bool)

  /** A cached value: which load produced it, and when it was stored. */
  datatype Slot = Slot(load: nat, setAt: int)

  /** Returned remembers the load whose triple is returned, and if it came from the cache, since when it was there. */
  datatype Stage = AtGet | AtLoad | AtSet(load: nat) | Returned(load: nat, setAt: Option<int>, at: int)

  datatype Call = Call(args: seq<Arg>, stage: Stage)

  datatype Load = Load(call: nat, value: Loaded)

  /** `keyed` are the arguments that a method passes on to the key; some methods leave arguments out. */
  datatype Config = Config(maxSize: int, lifetime: int, keyed: seq<Arg> -> seq<Arg>)

  datatype State = State(now: int, items: map<string, Item<Slot>>, calls: seq<Call>, loads: seq<Load>)

  datatype Step = Enter(args: seq<Arg>) | Get(c: nat) | LoadDone(c: nat, value: Loaded) | Set(c: nat)
                | Clear | Tick(d: nat) | Sweep

  const INITIAL := State(0, map[], [], [])

  function KeyFor(cfg: Config, args: seq<Arg>): string {
    Key(cfg.keyed(args))
  }

  function At(s: State, c: nat, stage: Stage): State
    requires c < |s.calls|
  {
    s.(calls := s.calls[c := s.calls[c].(stage := stage)])
  }

  function Lookup(cfg: Config, s: State, c: nat): State
    requires c < |s.calls|
  {
    var k := KeyFor(cfg, s.calls[c].args);
    if k in s.items && !Expired(s.items[k], s.now)
    then At(s, c, Returned(s.items[k].value.load, Some(s.items[k].value.setAt), s.now))
    else At(s, c, AtLoad)
  }

  function Store(cfg: Config, s: State, c: nat, load: nat): State
    requires c < |s.calls|
  {
    var item := Item(Slot(load, s.now), ExpiryAt(s.now, 0, cfg.lifetime));
    var items := Stored(s.items, cfg.maxSize, KeyFor(cfg, s.calls[c].args), item, s.now);
    At(s, c, Returned(load, None, s.now)).(items := items)
  }

  function Apply(cfg: Config, s: State, step: Step): State {
    match step
    case Enter(args) => s.(calls := s.calls + [Call(args, AtGet)])
    case Get(c) => if c < |s.calls| && s.calls[c].stage.AtGet? then Lookup(cfg, s, c) else s
    case LoadDone(c, value) =>
      if c < |s.calls| && s.calls[c].stage.AtLoad?
      then At(s, c, AtSet(|s.loads|)).(loads := s.loads + [Load(c, value)])
      else s
    case Set(c) => if c < |s.calls| && s.calls[c].stage.AtSet? then Store(cfg, s, c, s.calls[c].stage.load) else s
    case Clear => s.(items := map[])
    case Tick(d) => s.(now := s.now + d)
    case Sweep => s.(items := Unexpired(s.items, s.now))
  }

  function Run(cfg: Config, steps: seq<Step>): State {
    if steps == [] then INITIAL else Apply(cfg, Run(cfg, steps[..|steps| - 1]), steps[|steps| - 1])
  }

  // ---------------------------------------------------------------- the invariant

  /** Load l was made for arguments with this key. */
  ghost predicate LoadedFor(cfg: Config, s: State, l: nat, k: string) {
    l < |s.loads| && s.loads[l].call < |s.calls| && KeyFor(cfg, s.calls[s.loads[l].call].args) == k
  }

  ghost predicate ItemOk(cfg: Config, s: State, k: string)
    requires k in s.items
  {
    var slot := s.items[k].value;
    LoadedFor(cfg, s, slot.load, k) && s.items[k].expiresAt == ExpiryAt(slot.setAt, 0, cfg.lifetime)
  }

  ghost predicate CallOk(cfg: Config, s: State, c: nat)
    requires c < |s.calls|
  {
    var call := s.calls[c];
    match call.stage
    case AtSet(l) => l < |s.loads| && s.loads[l].call == c
    case Returned(l, setAt, at) =>
      && LoadedFor(cfg, s, l, KeyFor(cfg, call.args))
      && (setAt.None? ==> s.loads[l].call == c)
      && (setAt.Some? && cfg.lifetime > 0 ==> at <= setAt.value + cfg.lifetime)
    case _ => true
  }

  ghost predicate Inv(cfg: Config, s: State) {
    && Bounded(s.items, cfg.maxSize)
    && (forall k :: k in s.items ==> ItemOk(cfg, s, k))
    && (forall c: nat :: c < |s.calls| ==> CallOk(cfg, s, c))
    && (forall l: nat :: l < |s.loads| ==> s.loads[l].call < |s.calls|)
  }

  /** Calls keep their arguments, and loads are never changed. */
  ghost predicate Grows(s: State, t: State) {
    && |s.calls| <= |t.calls| && |s.loads| <= |t.loads|
    && (forall c: nat :: c < |s.calls| ==> t.calls[c].args == s.calls[c].args)
    && (forall l: nat :: l < |s.loads| ==> t.loads[l] == s.loads[l])
  }

  lemma LoadedForStays(cfg: Config, s: State, t: State, l: nat, k: string)
    requires Grows(s, t) && LoadedFor(cfg, s, l, k)
    ensures LoadedFor(cfg, t, l, k)
  {
  }

  lemma ItemsStay(cfg: Config, s: State, t: State)
    requires Inv(cfg, s) && Grows(s, t)
    requires forall k :: k in t.items ==> k in s.items && t.items[k] == s.items[k]
    ensures forall k :: k in t.items ==> ItemOk(cfg, t, k)
  {
    forall k | k in t.items
      ensures ItemOk(cfg, t, k)
    {
      assert ItemOk(cfg, s, k);
      LoadedForStays(cfg, s, t, s.items[k].value.load, k);
    }
  }

  lemma CallsStay(cfg: Config, s: State, t: State, c: nat)
    requires Inv(cfg, s) && Grows(s, t) && c < |s.calls| && t.calls[c] == s.calls[c]
    ensures CallOk(cfg, t, c)
  {
    assert CallOk(cfg, s, c);
    if s.calls[c].stage.Returned? {
      LoadedForStays(cfg, s, t, s.calls[c].stage.load, KeyFor(cfg, s.calls[c].args));
    }
  }

  lemma EnterKeeps(cfg: Config, s: State, args: seq<Arg>)
    requires Inv(cfg, s)
    ensures Inv(cfg, Apply(cfg, s, Enter(args)))
  {
    var t := Apply(cfg, s, Enter(args));
    ItemsStay(cfg, s, t);
    forall c: nat | c < |t.calls|
      ensures CallOk(cfg, t, c)
    {
      if c < |s.calls| {
        CallsStay(cfg, s, t, c);
      }
    }
  }

  /** A step of one call that leaves the items and the other calls alone. */
  lemma OneCallKeeps(cfg: Config, s: State, t: State, c: nat)
    requires Inv(cfg, s) && Grows(s, t) && t.items == s.items && |t.calls| == |s.calls|
    requires forall d: nat :: d < |s.calls| && d != c ==> t.calls[d] == s.calls[d]
    requires c < |t.calls| && CallOk(cfg, t, c)
    requires forall l: nat :: l < |t.loads| ==> t.loads[l].call < |t.calls|
    ensures Inv(cfg, t)
  {
    ItemsStay(cfg, s, t);
    hide ItemOk;
    forall d: nat | d < |t.calls|
      ensures CallOk(cfg, t, d)
    {
      if d != c {
        CallsStay(cfg, s, t, d);
      }
    }
  }

  lemma LookupOk(cfg: Config, s: State, c: nat)
    requires Inv(cfg, s) && c < |s.calls| && s.calls[c].stage.AtGet?
    ensures CallOk(cfg, Lookup(cfg, s, c), c)
  {
    var k := KeyFor(cfg, s.calls[c].args);
    assert k in s.items ==> ItemOk(cfg, s, k);
    hide KeyFor, Inv;
    if k in s.items && !Expired(s.items[k], s.now) {
      LoadedForStays(cfg, s, Lookup(cfg, s, c), s.items[k].value.load, k);
    }
  }

  lemma GetKeeps(cfg: Config, s: State, c: nat)
    requires Inv(cfg, s)
    ensures Inv(cfg, Apply(cfg, s, Get(c)))
  {
    var t := Apply(cfg, s, Get(c));
    if t != s {
      LookupOk(cfg, s, c);
      assert forall l: nat :: l < |s.loads| ==> s.loads[l].call < |s.calls|;
      hide KeyFor, Inv, CallOk, Expired;
      OneCallKeeps(cfg, s, t, c);
    }
  }

  lemma LoadKeeps(cfg: Config, s: State, c: nat, value: Loaded)
    requires Inv(cfg, s)
    ensures Inv(cfg, Apply(cfg, s, LoadDone(c, value)))
  {
    var t := Apply(cfg, s, LoadDone(c, value));
    if t != s {
      assert forall l: nat :: l < |s.loads| ==> s.loads[l].call < |s.calls|;
      assert CallOk(cfg, t, c);
      hide Inv, CallOk;
      OneCallKeeps(cfg, s, t, c);
    }
  }

  lemma SetKeeps(cfg: Config, s: State, c: nat)
    requires Inv(cfg, s)
    ensures Inv(cfg, Apply(cfg, s, Set(c)))
  {
    var t := Apply(cfg, s, Set(c));
    if c < |s.calls| && s.calls[c].stage.AtSet? {
      hide KeyFor, Stored, Bounded;
      var load := s.calls[c].stage.load;
      var key := KeyFor(cfg, s.calls[c].args);
      var item := Item(Slot(load, s.now), ExpiryAt(s.now, 0, cfg.lifetime));
      assert CallOk(cfg, s, c);
      StoredIsBounded(s.items, cfg.maxSize, key, item, s.now);
      forall k | k in t.items
        ensures ItemOk(cfg, t, k)
      {
        StoredFrom(s.items, cfg.maxSize, key, item, s.now, k);
        if t.items[k] != item || k != key {
          assert ItemOk(cfg, s, k);
          LoadedForStays(cfg, s, t, s.items[k].value.load, k);
        }
      }
      forall d: nat | d < |t.calls|
        ensures CallOk(cfg, t, d)
      {
        if d != c {
          CallsStay(cfg, s, t, d);
        }
      }
    }
  }

  lemma DropKeeps(cfg: Config, s: State, step: Step)
    requires Inv(cfg, s) && (step.Clear? || step.Tick? || step.Sweep?)
    ensures Inv(cfg, Apply(cfg, s, step))
  {
    var t := Apply(cfg, s, step);
    SubmapSize(t.items, s.items);
    ItemsStay(cfg, s, t);
    forall d: nat | d < |t.calls|
      ensures CallOk(cfg, t, d)
    {
      CallsStay(cfg, s, t, d);
    }
  }

  lemma {:induction false} RunKeepsInv(cfg: Config, steps: seq<Step>)
    ensures Inv(cfg, Run(cfg, steps))
  {
    if steps != [] {
      var s, step := Run(cfg, steps[..|steps| - 1]), steps[|steps| - 1];
      RunKeepsInv(cfg, steps[..|steps| - 1]);
      match step
      case Enter(args) => EnterKeeps(cfg, s, args);
      case Get(c) => GetKeeps(cfg, s, c);
      case LoadDone(c, value) => LoadKeeps(cfg, s, c, value);
      case Set(c) => SetKeeps(cfg, s, c);
      case Clear => DropKeeps(cfg, s, step);
      case Tick(_) => DropKeeps(cfg, s, step);
      case Sweep => DropKeeps(cfg, s, step);
    }
  }

  // ---------------------------------------------------------------- theorems over all runs

  /** In no run does the cache hold more than its maximal number of items. */
  lemma NeverTooMany(cfg: Config, steps: seq<Step>)
    ensures |Run(cfg, steps).items| <= if cfg.maxSize < 0 then 0 else cfg.maxSize
  {
    RunKeepsInv(cfg, steps);
  }

  /**
   * Every triple that a call returns was produced by one load for the same key: its own, or one that was stored
   * no longer ago than the cache's lifetime.
   */
  lemma ReturnedByOneLoad(cfg: Config, steps: seq<Step>, c: nat)
    requires c < |Run(cfg, steps).calls| && Run(cfg, steps).calls[c].stage.Returned?
    ensures var s := Run(cfg, steps);
            var stage := s.calls[c].stage;
            && stage.load < |s.loads| && s.loads[stage.load].call < |s.calls|
            && KeyFor(cfg, s.calls[s.loads[stage.load].call].args) == KeyFor(cfg, s.calls[c].args)
            && (s.loads[stage.load].call == c
                || (stage.setAt.Some? && (cfg.lifetime > 0 ==> stage.at - stage.setAt.value <= cfg.lifetime)))
  {
    RunKeepsInv(cfg, steps);
    assert CallOk(cfg, Run(cfg, steps), c);
  }

  /** The backing data does not change: every load returns f of its own call's arguments. */
  ghost predicate Unchanged(cfg: Config, steps: seq<Step>, f: seq<Arg> -> Loaded) {
    var s := Run(cfg, steps);
    forall l: nat :: l < |s.loads| ==>
      s.loads[l].call < |s.calls| && s.loads[l].value == f(s.calls[s.loads[l].call].args)
  }

  /** Every call that has returned got what the uncached accessor would have returned. */
  ghost predicate Transparent(cfg: Config, steps: seq<Step>, f: seq<Arg> -> Loaded) {
    var s := Run(cfg, steps);
    forall c: nat :: c < |s.calls| && s.calls[c].stage.Returned? ==>
      s.calls[c].stage.load < |s.loads| && s.loads[s.calls[c].stage.load].value == f(s.calls[c].args)
  }

  /** Every call's arguments have the shape that its method's parameters give them. */
  ghost predicate Shaped(steps: seq<Step>, shape: seq<Arg> -> bool) {
    forall i :: 0 <= i < |steps| && steps[i].Enter? ==> shape(steps[i].args)
  }

  ghost predicate KeyDetermines(cfg: Config, shape: seq<Arg> -> bool, f: seq<Arg> -> Loaded) {
    forall a, b :: shape(a) && shape(b) && KeyFor(cfg, a) == KeyFor(cfg, b) ==> f(a) == f(b)
  }

  lemma StepKeepsShape(cfg: Config, s: State, step: Step, shape: seq<Arg> -> bool)
    requires forall c: nat :: c < |s.calls| ==> shape(s.calls[c].args)
    requires step.Enter? ==> shape(step.args)
    ensures var t := Apply(cfg, s, step); forall c: nat :: c < |t.calls| ==> shape(t.calls[c].args)
  {
    hide KeyFor, Stored, Expired;
  }

  lemma {:induction false} CallsShaped(cfg: Config, steps: seq<Step>, shape: seq<Arg> -> bool)
    requires Shaped(steps, shape)
    ensures forall c: nat :: c < |Run(cfg, steps).calls| ==> shape(Run(cfg, steps).calls[c].args)
  {
    if steps != [] {
      CallsShaped(cfg, steps[..|steps| - 1], shape);
      StepKeepsShape(cfg, Run(cfg, steps[..|steps| - 1]), steps[|steps| - 1], shape);
      hide Apply;
    }
  }

  lemma TransparentIfKeyDetermines(cfg: Config, steps: seq<Step>, shape: seq<Arg> -> bool, f: seq<Arg> -> Loaded)
    requires KeyDetermines(cfg, shape, f) && Shaped(steps, shape) && Unchanged(cfg, steps, f)
    ensures Transparent(cfg, steps, f)
  {
    var s := Run(cfg, steps);
    CallsShaped(cfg, steps, shape);
    hide KeyFor, Run;
    forall c: nat | c < |s.calls| && s.calls[c].stage.Returned?
      ensures s.calls[c].stage.load < |s.loads| && s.loads[s.calls[c].stage.load].value == f(s.calls[c].args)
    {
      ReturnedByOneLoad(cfg, steps, c);
    }
  }

  /** The shortest run in which a call is served by another call's load. */
  function Collision(a: seq<Arg>, b: seq<Arg>, value: Loaded): seq<Step> {
    [Enter(a), Get(0), LoadDone(0, value), Set(0), Enter(b), Get(1)]
  }

  lemma RunPrefix(cfg: Config, steps: seq<Step>, n: nat)
    requires 1 <= n <= |steps|
    ensures Run(cfg, steps[..n]) == Apply(cfg, Run(cfg, steps[..n - 1]), steps[n - 1])
  {
    assert steps[..n][..n - 1] == steps[..n - 1];
  }

  lemma CollisionStates(cfg: Config, a: seq<Arg>, b: seq<Arg>, value: Loaded)
    requires cfg.maxSize >= 1 && KeyFor(cfg, a) == KeyFor(cfg, b)
    ensures var s := Apply(cfg, Apply(cfg, INITIAL, Enter(a)), Get(0));
            var t := Apply(cfg, Apply(cfg, s, LoadDone(0, value)), Set(0));
            var u := Apply(cfg, Apply(cfg, t, Enter(b)), Get(1));
            && u.loads == [Load(0, value)] && |u.calls| == 2 && u.calls[0].args == a && u.calls[1].args == b
            && u.calls[1].stage == Returned(0, Some(0), 0)
  {
    hide KeyFor;
    var s := Apply(cfg, Apply(cfg, INITIAL, Enter(a)), Get(0));
    assert s == State(0, map[], [Call(a, AtLoad)], []);
    var t := Apply(cfg, Apply(cfg, s, LoadDone(0, value)), Set(0));
    assert t.items == map[KeyFor(cfg, a) := Item(Slot(0, 0), ExpiryAt(0, 0, cfg.lifetime))];
    assert t.calls == [Call(a, Returned(0, None, 0))] && t.loads == [Load(0, value)] && t.now == 0;
  }

  lemma CollisionRun(cfg: Config, a: seq<Arg>, b: seq<Arg>, value: Loaded)
    requires cfg.maxSize >= 1 && KeyFor(cfg, a) == KeyFor(cfg, b)
    ensures var s := Run(cfg, Collision(a, b, value));
            && s.loads == [Load(0, value)] && |s.calls| == 2 && s.calls[0].args == a && s.calls[1].args == b
            && s.calls[1].stage == Returned(0, Some(0), 0)
  {
    CollisionStates(cfg, a, b, value);
    hide KeyFor, Apply;
    var steps := Collision(a, b, value);
    assert steps[..6] == steps;
    RunPrefix(cfg, steps, 6);
    RunPrefix(cfg, steps, 5);
    RunPrefix(cfg, steps, 4);
    RunPrefix(cfg, steps, 3);
    RunPrefix(cfg, steps, 2);
    RunPrefix(cfg, steps, 1);
    assert Run(cfg, steps[..0]) == INITIAL;
  }

  /** Over unchanged data, no run of the method can tell the cached accessor from the uncached one. */
  ghost predicate AlwaysTransparent(cfg: Config, shape: seq<Arg> -> bool, f: seq<Arg> -> Loaded) {
    forall steps :: Shaped(steps, shape) && Unchanged(cfg, steps, f) ==> Transparent(cfg, steps, f)
  }

  /** A method's cache is transparent exactly when arguments of its shape with the same key have the same answer. */
  lemma TransparentIffKeyDetermines(cfg: Config, shape: seq<Arg> -> bool, f: seq<Arg> -> Loaded)
    requires cfg.maxSize >= 1
    ensures AlwaysTransparent(cfg, shape, f) <==> KeyDetermines(cfg, shape, f)
  {
    hide Run, KeyFor;
    if KeyDetermines(cfg, shape, f) {
      forall steps | Shaped(steps, shape) && Unchanged(cfg, steps, f)
        ensures Transparent(cfg, steps, f)
      {
        TransparentIfKeyDetermines(cfg, steps, shape, f);
      }
    } else {
      var a, b :| shape(a) && shape(b) && KeyFor(cfg, a) == KeyFor(cfg, b) && f(a) != f(b);
      var steps := Collision(a, b, f(a));
      CollisionRun(cfg, a, b, f(a));
      assert Shaped(steps, shape) && Unchanged(cfg, steps, f) && !Transparent(cfg, steps, f);
    }
  }

  // ---------------------------------------------------------------- the methods of the accessor

  /** Methods that key all their arguments. */
  ghost predicate KeysAll(cfg: Config, shape: seq<Arg> -> bool) {
    forall args :: shape(args) ==> cfg.keyed(args) == args
  }

  /** `before` plain arguments, one text, `after` plain ones: (address), (epoch, address), (address, count, nil). */
  function OneText(before: nat, after: nat): seq<Arg> -> bool {
    (args: seq<Arg>) =>
      |args| == before + 1 + after && args[before].Text?
      && forall i :: 0 <= i < |args| && i != before ==> Plain(args[i])
  }

  /** `n` plain arguments: (epoch), (count, nil), (epoch, count, nil). */
  function NoText(n: nat): seq<Arg> -> bool {
    (args: seq<Arg>) => |args| == n && forall i :: 0 <= i < n ==> Plain(args[i])
  }

  lemma OneTextDetermined(cfg: Config, before: nat, after: nat, f: seq<Arg> -> Loaded)
    requires KeysAll(cfg, OneText(before, after))
    ensures KeyDetermines(cfg, OneText(before, after), f)
  {
    var shape := OneText(before, after);
    hide Key;
    forall a: seq<Arg>, b: seq<Arg> | shape(a) && shape(b) && KeyFor(cfg, a) == KeyFor(cfg, b)
      ensures f(a) == f(b)
    {
      assert a == a[..before] + [Text(a[before].s)] + a[before + 1..];
      assert b == b[..before] + [Text(b[before].s)] + b[before + 1..];
      KeyInjective(a[..before], a[before].s, a[before + 1..], b[..before], b[before].s, b[before + 1..]);
    }
  }

  lemma NoTextDetermined(cfg: Config, n: nat, f: seq<Arg> -> Loaded)
    requires KeysAll(cfg, NoText(n))
    ensures KeyDetermines(cfg, NoText(n), f)
  {
    var shape := NoText(n);
    hide Key;
    forall a: seq<Arg>, b: seq<Arg> | shape(a) && shape(b) && KeyFor(cfg, a) == KeyFor(cfg, b)
      ensures f(a) == f(b)
    {
      PlainKeyInjective(a, b);
    }
  }

  /** Texts without spaces where `texts` says so, and plain arguments elsewhere. */
  function SpaceFreeTexts(texts: seq<bool>): seq<Arg> -> bool {
    (args: seq<Arg>) =>
      |args| == |texts| && forall i :: 0 <= i < |texts| ==> SpaceFree(args[i]) && args[i].Text? == texts[i]
  }

  /** With texts that hold no spaces, however many, a method is transparently cached as well. */
  lemma SpaceFreeMethodsTransparent(cfg: Config, texts: seq<bool>, f: seq<Arg> -> Loaded)
    requires cfg.maxSize >= 1 && KeysAll(cfg, SpaceFreeTexts(texts))
    ensures AlwaysTransparent(cfg, SpaceFreeTexts(texts), f)
  {
    var shape := SpaceFreeTexts(texts);
    hide Key, AlwaysTransparent;
    forall a: seq<Arg>, b: seq<Arg> | shape(a) && shape(b) && KeyFor(cfg, a) == KeyFor(cfg, b)
      ensures f(a) == f(b)
    {
      SpaceFreeKeyInjective(a, b);
    }
    TransparentIffKeyDetermines(cfg, shape, f);
  }

  /** Whatever they load, methods with plain arguments and at most one text, of any kind, are transparently cached. */
  lemma ScalarMethodsTransparent(cfg: Config, before: nat, after: nat, f: seq<Arg> -> Loaded)
    requires cfg.maxSize >= 1
    ensures KeysAll(cfg, OneText(before, after)) ==> AlwaysTransparent(cfg, OneText(before, after), f)
    ensures KeysAll(cfg, NoText(before)) ==> AlwaysTransparent(cfg, NoText(before), f)
  {
    hide KeyDetermines, AlwaysTransparent, OneText, NoText;
    if KeysAll(cfg, OneText(before, after)) {
      OneTextDetermined(cfg, before, after, f);
    }
    if KeysAll(cfg, NoText(before)) {
      NoTextDetermined(cfg, before, f);
    }
    TransparentIffKeyDetermines(cfg, OneText(before, after), f);
    TransparentIffKeyDetermines(cfg, NoText(before), f);
  }

  /** A method that keys none of its arguments is transparently cached exactly when its answer ignores them. */
  lemma LeftOutArguments(cfg: Config, shape: seq<Arg> -> bool, f: seq<Arg> -> Loaded)
    requires cfg.maxSize >= 1 && (forall args :: shape(args) ==> cfg.keyed(args) == [])
    ensures AlwaysTransparent(cfg, shape, f) <==> (forall a, b :: shape(a) && shape(b) ==> f(a) == f(b))
  {
    TransparentIffKeyDetermines(cfg, shape, f);
    hide AlwaysTransparent, Key;
  }

  /** A page that is asked for by a token is transparently cached only if it does not depend on the token's text. */
  lemma TokensLeftOut(cfg: Config, shape: seq<Arg> -> bool, f: seq<Arg> -> Loaded,
                      pre: seq<Arg>, address: nat, content: string, other: string)
    requires cfg.maxSize >= 1 && KeysAll(cfg, shape) && AlwaysTransparent(cfg, shape, f)
    requires shape(pre + [Pointer(address, content)]) && shape(pre + [Pointer(address, other)])
    ensures f(pre + [Pointer(address, content)]) == f(pre + [Pointer(address, other)])
  {
    TransparentIffKeyDetermines(cfg, shape, f);
    hide AlwaysTransparent, Key;
    PointersCollide(pre, address, content, other);
  }

  // ---------------------------------------------------------------- what stays cached

  /** Short of clearing, an item that has not expired stays, unless its key is stored again. */
  lemma StepKeepsItem(cfg: Config, s: State, step: Step, key: string)
    requires key in s.items && !step.Clear?
    requires var t := Apply(cfg, s, step); s.items[key].expiresAt.None? || t.now <= s.items[key].expiresAt.value
    ensures var t := Apply(cfg, s, step);
      && key in t.items
      && (t.items[key] == s.items[key]
          || (Restores(cfg, s, step, key) && t.items[key].value == Slot(s.calls[step.c].stage.load, s.now)))
  {
    hide KeyFor;
    if step.Set? && step.c < |s.calls| && s.calls[step.c].stage.AtSet? {
      var item := Item(Slot(s.calls[step.c].stage.load, s.now), ExpiryAt(s.now, 0, cfg.lifetime));
      StoredExactly(s.items, cfg.maxSize, KeyFor(cfg, s.calls[step.c].args), item, s.now);
      StoredFrom(s.items, cfg.maxSize, KeyFor(cfg, s.calls[step.c].args), item, s.now, key);
      hide Stored;
    }
  }

  predicate Restores(cfg: Config, s: State, step: Step, key: string) {
    step.Set? && step.c < |s.calls| && s.calls[step.c].stage.AtSet? && KeyFor(cfg, s.calls[step.c].args) == key
  }

  lemma StepKeepsTime(cfg: Config, s: State, step: Step)
    ensures s.now <= Apply(cfg, s, step).now
  {
    hide KeyFor, Stored;
  }

  /** Nothing clears the cache, or stores this key again, from step n up to step k. */
  ghost predicate Undisturbed(cfg: Config, steps: seq<Step>, n: nat, k: nat, key: string)
    requires k <= |steps|
  {
    forall i: nat :: n <= i < k ==> QuietAt(cfg, steps, i, key)
  }

  ghost predicate QuietAt(cfg: Config, steps: seq<Step>, i: nat, key: string)
    requires i < |steps|
  {
    !steps[i].Clear? && !Restores(cfg, Run(cfg, steps[..i]), steps[i], key)
  }

  lemma {:induction false} StaysCached(cfg: Config, steps: seq<Step>, n: nat, k: nat, key: string, item: Item<Slot>)
    requires n <= k <= |steps| && Undisturbed(cfg, steps, n, k, key)
    requires key in Run(cfg, steps[..n]).items && Run(cfg, steps[..n]).items[key] == item
    requires item.expiresAt.None? || Run(cfg, steps[..k]).now <= item.expiresAt.value
    ensures key in Run(cfg, steps[..k]).items && Run(cfg, steps[..k]).items[key] == item
    decreases k
  {
    hide Run, Apply, Restores;
    if n < k {
      RunPrefix(cfg, steps, k);
      StepKeepsTime(cfg, Run(cfg, steps[..k - 1]), steps[k - 1]);
      StaysCached(cfg, steps, n, k - 1, key, item);
      assert QuietAt(cfg, steps, k - 1, key);
      StepKeepsItem(cfg, Run(cfg, steps[..k - 1]), steps[k - 1], key);
    }
  }

  /** The n-th step of a run stores load l, and there is room for it. */
  ghost predicate StoresAt(cfg: Config, steps: seq<Step>, n: nat, c: nat, l: nat)
    requires n < |steps|
  {
    var s := Run(cfg, steps[..n]);
    steps[n] == Set(c) && c < |s.calls| && s.calls[c].stage == AtSet(l) && HasRoom(s.items, cfg.maxSize, s.now)
  }

  lemma JustStored(cfg: Config, steps: seq<Step>, n: nat, c: nat, l: nat)
    requires n < |steps| && StoresAt(cfg, steps, n, c, l)
    ensures var s, t := Run(cfg, steps[..n]), Run(cfg, steps[..n + 1]);
      var key := KeyFor(cfg, s.calls[c].args);
      && key in t.items && t.items[key].value == Slot(l, s.now)
      && t.items[key].expiresAt == (if cfg.lifetime > 0 then Some(s.now + cfg.lifetime) else None)
  {
    var s := Run(cfg, steps[..n]);
    RunPrefix(cfg, steps, n + 1);
    var item := Item(Slot(l, s.now), ExpiryAt(s.now, 0, cfg.lifetime));
    StoredExactly(s.items, cfg.maxSize, KeyFor(cfg, s.calls[c].args), item, s.now);
    hide Run, KeyFor, Stored, HasRoom;
  }

  /**
   * A stored load is served: a call that asks for its key within the lifetime, with no clearing and no other load of
   * the key stored in between, returns it at once.
   */
  lemma ServedWhileFresh(cfg: Config, steps: seq<Step>, n: nat, c: nat, l: nat, d: nat)
    requires n < |steps| && StoresAt(cfg, steps, n, c, l)
    requires var s, t := Run(cfg, steps[..n]), Run(cfg, steps);
      && d < |t.calls| && t.calls[d].stage.AtGet? && KeyFor(cfg, t.calls[d].args) == KeyFor(cfg, s.calls[c].args)
      && (cfg.lifetime > 0 ==> t.now <= s.now + cfg.lifetime)
      && Undisturbed(cfg, steps, n + 1, |steps|, KeyFor(cfg, s.calls[c].args))
    ensures var u := Apply(cfg, Run(cfg, steps), Get(d));
      d < |u.calls| && u.calls[d].stage == Returned(l, Some(Run(cfg, steps[..n]).now), Run(cfg, steps).now)
  {
    var s := Run(cfg, steps[..n]);
    var key := KeyFor(cfg, s.calls[c].args);
    assert steps[..|steps|] == steps;
    JustStored(cfg, steps, n, c, l);
    hide Run, KeyFor, StoresAt, Undisturbed;
    StaysCached(cfg, steps, n + 1, |steps|, key, Run(cfg, steps[..n + 1]).items[key]);
  }

  // ---------------------------------------------------------------- clearing the cache

  /** A call has finished load l and not stored it yet. */
  ghost predicate Unstored(s: State, l: nat) {
    exists c: nat :: c < |s.calls| && s.calls[c].stage == AtSet(l)
  }

  /** Loads that may be served after the cache was cleared in state s: later ones, and those not stored yet. */
  ghost predicate MaySurvive(s: State, l: nat) {
    l >= |s.loads| || Unstored(s, l)
  }

  ghost predicate ItemSurvives(s: State, t: State, k: string)
    requires k in t.items
  {
    MaySurvive(s, t.items[k].value.load)
  }

  ghost predicate CallSurvives(s: State, t: State, c: nat)
    requires c < |t.calls|
  {
    match t.calls[c].stage
    case AtSet(l) => MaySurvive(s, l)
    case Returned(l, _, _) => c >= |s.calls| ==> MaySurvive(s, l)
    case _ => true
  }

  ghost predicate SinceClear(s: State, t: State) {
    && |s.loads| <= |t.loads| && |s.calls| <= |t.calls|
    && (forall k :: k in t.items ==> ItemSurvives(s, t, k))
    && (forall c: nat :: c < |t.calls| ==> CallSurvives(s, t, c))
  }

  lemma JustCleared(cfg: Config, s: State)
    ensures SinceClear(s, Apply(cfg, s, Clear))
  {
    var t := Apply(cfg, s, Clear);
    forall c: nat | c < |t.calls|
      ensures CallSurvives(s, t, c)
    {
      if t.calls[c].stage.AtSet? {
        assert s.calls[c].stage == AtSet(t.calls[c].stage.load);
      }
    }
  }

  lemma StepSinceClear(cfg: Config, s: State, t: State, step: Step)
    requires SinceClear(s, t)
    ensures SinceClear(s, Apply(cfg, t, step))
  {
    var u := Apply(cfg, t, step);
    hide KeyFor, Stored, MaySurvive;
    forall c: nat | c < |u.calls|
      ensures CallSurvives(s, u, c)
    {
      assert c < |t.calls| ==> CallSurvives(s, t, c);
      if step.Get? && step.c == c && c < |t.calls| {
        assert KeyFor(cfg, t.calls[c].args) in t.items ==> ItemSurvives(s, t, KeyFor(cfg, t.calls[c].args));
      }
      if step.LoadDone? && step.c == c {
        LaterSurvives(s, |t.loads|);
      }
    }
    forall k | k in u.items
      ensures ItemSurvives(s, u, k)
    {
      assert k in t.items ==> ItemSurvives(s, t, k);
      if step.Set? && step.c < |t.calls| && t.calls[step.c].stage.AtSet? {
        var l := t.calls[step.c].stage.load;
        assert CallSurvives(s, t, step.c);
        var item := Item(Slot(l, t.now), ExpiryAt(t.now, 0, cfg.lifetime));
        StoredFrom(t.items, cfg.maxSize, KeyFor(cfg, t.calls[step.c].args), item, t.now, k);
      }
    }
  }

  lemma LaterSurvives(s: State, l: nat)
    requires l >= |s.loads|
    ensures MaySurvive(s, l)
  {
  }

  lemma {:induction false} RunSinceClear(cfg: Config, steps: seq<Step>, more: seq<Step>)
    ensures SinceClear(Run(cfg, steps), Run(cfg, steps + [Clear] + more))
  {
    var all := steps + [Clear] + more;
    if more == [] {
      assert all == steps + [Clear] && all[..|all| - 1] == steps;
      JustCleared(cfg, Run(cfg, steps));
      hide SinceClear, Apply;
    } else {
      var front := more[..|more| - 1];
      RunSinceClear(cfg, steps, front);
      assert all[..|all| - 1] == steps + [Clear] + front;
      StepSinceClear(cfg, Run(cfg, steps), Run(cfg, steps + [Clear] + front), more[|more| - 1]);
      hide SinceClear, Apply;
    }
  }

  /** Calls that enter after the cache was cleared are only served loads that were finished after that. */
  ghost predicate ClearForgets(cfg: Config, steps: seq<Step>) {
    forall more: seq<Step>, c: nat :: ServedFrom(cfg, steps, more, c) ==> LoadedSince(cfg, steps, more, c)
  }

  ghost predicate ServedFrom(cfg: Config, steps: seq<Step>, more: seq<Step>, c: nat) {
    var t := Run(cfg, steps + [Clear] + more);
    |Run(cfg, steps).calls| <= c < |t.calls| && t.calls[c].stage.Returned?
  }

  ghost predicate LoadedSince(cfg: Config, steps: seq<Step>, more: seq<Step>, c: nat)
    requires ServedFrom(cfg, steps, more, c)
  {
    Run(cfg, steps + [Clear] + more).calls[c].stage.load >= |Run(cfg, steps).loads|
  }

  /** The shortest way to serve an old load: it is stored after the clearing, and asked for again. */
  function Revival(d: nat, args: seq<Arg>, c: nat): seq<Step> {
    [Set(d), Enter(args), Get(c)]
  }

  lemma RevivedStates(cfg: Config, s: State, d: nat)
    requires cfg.maxSize >= 1 && d < |s.calls| && s.calls[d].stage.AtSet?
    ensures var c, args := |s.calls|, s.calls[d].args;
      var t := Apply(cfg, Apply(cfg, s, Clear), Set(d));
      var u := Apply(cfg, Apply(cfg, t, Enter(args)), Get(c));
      c < |u.calls| && u.calls[c].stage == Returned(s.calls[d].stage.load, Some(s.now), s.now)
  {
    hide KeyFor;
    var l, key := s.calls[d].stage.load, KeyFor(cfg, s.calls[d].args);
    var t := Apply(cfg, Apply(cfg, s, Clear), Set(d));
    assert t.items == map[key := Item(Slot(l, s.now), ExpiryAt(s.now, 0, cfg.lifetime))];
    assert !Expired(t.items[key], t.now);
  }

  lemma RunRevival(cfg: Config, steps: seq<Step>, d: nat, args: seq<Arg>, c: nat)
    ensures Run(cfg, steps + [Clear] + Revival(d, args, c))
         == Apply(cfg, Apply(cfg, Apply(cfg, Apply(cfg, Run(cfg, steps), Clear), Set(d)), Enter(args)), Get(c))
  {
    var all, n := steps + [Clear] + Revival(d, args, c), |steps|;
    hide Apply;
    RunPrefix(cfg, all, n + 4);
    RunPrefix(cfg, all, n + 3);
    RunPrefix(cfg, all, n + 2);
    RunPrefix(cfg, all, n + 1);
    hide Run;
    assert all[..n] == steps && all[..n + 4] == all;
    assert all[n] == Clear && all[n + 1] == Set(d) && all[n + 2] == Enter(args) && all[n + 3] == Get(c);
  }

  /** Clearing forgets everything loaded before, for all later calls, exactly if no load is still to be stored. */
  lemma ClearForgetsIff(cfg: Config, steps: seq<Step>)
    requires cfg.maxSize >= 1
    ensures ClearForgets(cfg, steps) <==> forall l: nat :: !Unstored(Run(cfg, steps), l)
  {
    var s := Run(cfg, steps);
    if l: nat :| Unstored(s, l) {
      var d: nat :| d < |s.calls| && s.calls[d].stage == AtSet(l);
      var c, args := |s.calls|, s.calls[d].args;
      RunKeepsInv(cfg, steps);
      assert CallOk(cfg, s, d);
      hide Run, Apply, Inv;
      RevivedStates(cfg, s, d);
      RunRevival(cfg, steps, d, args, c);
      assert ServedFrom(cfg, steps, Revival(d, args, c), c) && !LoadedSince(cfg, steps, Revival(d, args, c), c);
    } else {
      hide Run, Unstored;
      forall more: seq<Step>, c: nat | ServedFrom(cfg, steps, more, c)
        ensures LoadedSince(cfg, steps, more, c)
      {
        RunSinceClear(cfg, steps, more);
        assert CallSurvives(s, Run(cfg, steps + [Clear] + more), c);
      }
    }
  }
}
