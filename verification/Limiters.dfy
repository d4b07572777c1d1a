/**
 Nested concurrency limits: a batch's own semaphore, then the provider's, then the principal's.

 A caller climbs its path of semaphores, runs, and gives them back in reverse; it may be cancelled or
 time out while it waits. Semaphores are counters; any waiter may get a free one.
 */
module Limiters {
  import opened Prelude

  // ---------------------------------------------------------------------
  // The paths
  // ---------------------------------------------------------------------

  /** One semaphore object. */
  datatype Semaphore = Batch(n: nat) | Provider(name: string) | PerPrincipal(n: nat)

  /** Limits by semaphore; every semaphore object has its limit for life. */
  type Limits = map<Semaphore, nat>

  function Rank(s: Semaphore): nat {
    match s {
      case Batch(_) => 0
      case Provider(_) => 1
      case PerPrincipal(_) => 2
    }
  }

  /** Paths climb: every semaphore ranks above the one before it. */
  predicate Climbs(path: seq<Semaphore>) {
    forall i, j | 0 <= i < j < |path| :: Rank(path[i]) < Rank(path[j])
  }

  /** The key under which a principal's semaphore is kept. */
  function PrincipalKey(owner: Principal): string {
    owner.tenant + "\0" + owner.id
  }

  const PROVIDERS: set<string> := {"modelark", "seed-speech", "vod-mediakit", "tos", "s3"}

  datatype LimitError = LimitsMustBePositive

  /** All semaphores of a server: one per provider, those made for principals so far, and those of its batches. */
  function Semaphores(made: nat, batches: seq<nat>): set<Semaphore> {
    (set p <- PROVIDERS :: Provider(p)) + (set n: nat | n < made :: PerPrincipal(n)) + (set n: nat | n < |batches| :: Batch(n))
  }

  function LimitOf(providerLimit: nat, principalLimit: nat, batches: seq<nat>, s: Semaphore): nat {
    match s {
      case Provider(_) => providerLimit
      case PerPrincipal(_) => principalLimit
      case Batch(n) => if n < |batches| then batches[n] else 0
    }
  }

  function Configured(providerLimit: nat, principalLimit: nat, made: nat, batches: seq<nat>): Limits {
    map s | s in Semaphores(made, batches) :: LimitOf(providerLimit, principalLimit, batches, s)
  }

  class ProviderLimiters {
    const providerLimit: nat
    const principalLimit: nat
    var principals: map<string, nat>   // live per-principal semaphores, by key
    var made: nat

    /** No two keys share a semaphore. */
    ghost predicate Valid()
      reads this
    {
      && providerLimit > 0 && principalLimit > 0
      && (forall k <- principals :: principals[k] < made)
      && (forall k <- principals, j <- principals :: principals[k] == principals[j] ==> k == j)
    }

    constructor (providerLimit: nat, principalLimit: nat)
      requires providerLimit > 0 && principalLimit > 0
      ensures Valid() && this.providerLimit == providerLimit && this.principalLimit == principalLimit
      ensures principals == map[]
    {
      this.providerLimit, this.principalLimit := providerLimit, principalLimit;
      principals, made := map[], 0;
    }

    /** Constructing with a limit that is not positive is refused. */
    static method Make(providerLimit: int, principalLimit: int) returns (result: Result<ProviderLimiters, LimitError>)
      ensures result.Err? <==> providerLimit <= 0 || principalLimit <= 0
      ensures result.Ok? ==> fresh(result.value) && result.value.Valid()
    {
      if providerLimit <= 0 || principalLimit <= 0 {
        return Err(LimitsMustBePositive);
      }
      var limiters := new ProviderLimiters(providerLimit, principalLimit);
      result := Ok(limiters);
    }

    /**
     The principal's live semaphore, made on first use - or anew, if it is among the keys that the
     cache has dropped by now because they expired or it is full.
     */
    method PrincipalSemaphore(owner: Principal, dropped: set<string>) returns (n: nat)
      requires Valid()
      modifies this
      ensures Valid() && made <= old(made) + 1
      ensures var key, kept := PrincipalKey(owner), old(principals) - dropped;
        && n == (if key in kept then kept[key] else old(made))
        && principals == kept[key := n]
      ensures n < made && old(made) <= made
    {
      var key := PrincipalKey(owner);
      principals := principals - dropped;
      if key !in principals {
        principals := principals[key := made];
        made := made + 1;
      }
      n := principals[key];
    }

    /** What `acquire` climbs: the provider, and for remote callers then the principal; always in that order. */
    method PathFor(batch: Option<nat>, provider: string, owner: Principal, dropped: set<string>) returns (path: seq<Semaphore>)
      requires Valid() && provider in PROVIDERS
      modifies this
      ensures Valid() && Climbs(path) && old(made) <= made
      ensures !owner.IsLocal() ==> PrincipalKey(owner) in principals
      ensures path == (if batch.Some? then [Batch(batch.value)] else []) + [Provider(provider)]
                      + if owner.IsLocal() then [] else [PerPrincipal(principals[PrincipalKey(owner)])]
      ensures owner.IsLocal() ==> principals == old(principals)
      ensures forall batches: seq<nat> | batch.Some? ==> batch.value < |batches| ::
                forall x <- path :: x in Configured(providerLimit, principalLimit, made, batches)
    {
      path := if batch.Some? then [Batch(batch.value)] else [];
      path := path + [Provider(provider)];
      if !owner.IsLocal() {
        var n := PrincipalSemaphore(owner, dropped);
        path := path + [PerPrincipal(n)];
      }
    }
  }

  lemma ConfiguredPositive(providerLimit: nat, principalLimit: nat, made: nat, batches: seq<nat>)
    requires providerLimit > 0 && principalLimit > 0 && forall n <- batches :: n > 0
    ensures var limits := Configured(providerLimit, principalLimit, made, batches);
            forall s <- limits :: limits[s] > 0
  {
    forall s | s in Semaphores(made, batches) ensures LimitOf(providerLimit, principalLimit, batches, s) > 0 {
      assert s.Batch? ==> batches[s.n] in batches;
    }
  }

  /** Tenant and id of `b` split the key of `a` at a later separator. */
  predicate Shadows(a: Principal, b: Principal) {
    && |a.tenant| < |b.tenant| && b.tenant[..|a.tenant| + 1] == a.tenant + "\0"
    && a.id == b.tenant[|a.tenant| + 1..] + "\0" + b.id
  }

  lemma SameKey(a: Principal, b: Principal)
    requires PrincipalKey(a) == PrincipalKey(b) && |a.tenant| <= |b.tenant|
    ensures a.Identity() == b.Identity() || Shadows(a, b)
  {
    var x, y, n := PrincipalKey(a), PrincipalKey(b), |a.tenant|;
    assert a.tenant == x[..n] == y[..n] == b.tenant[..n] && x[n] == '\0';
    assert a.id == x[n + 1..] == y[n + 1..];
    if n == |b.tenant| {
      assert b.tenant[..n] == b.tenant && b.id == y[n + 1..];
    } else {
      assert b.tenant[..n + 1] == y[..n + 1] == x[..n + 1];
      assert y[n + 1..] == b.tenant[n + 1..] + "\0" + b.id;
    }
  }

  lemma ShadowsShare(a: Principal, b: Principal)
    ensures Shadows(a, b) ==> PrincipalKey(a) == PrincipalKey(b)
  {
    if Shadows(a, b) {
      assert b.tenant == b.tenant[..|a.tenant| + 1] + b.tenant[|a.tenant| + 1..];
    }
  }

  /**
   Two principals share a key exactly if they are the same principal and tenant, or the separator
   occurs in one's tenant, where the rest of that tenant continues the other's id.
   */
  lemma KeysSeparatePrincipals(a: Principal, b: Principal)
    ensures PrincipalKey(a) == PrincipalKey(b) <==> a.Identity() == b.Identity() || Shadows(a, b) || Shadows(b, a)
  {
    if PrincipalKey(a) == PrincipalKey(b) {
      if |a.tenant| <= |b.tenant| {
        SameKey(a, b);
      } else {
        SameKey(b, a);
      }
    }
    ShadowsShare(a, b);
    ShadowsShare(b, a);
  }

  // ---------------------------------------------------------------------
  // Callers
  // ---------------------------------------------------------------------

  /** Holds the first `held` semaphores of its path. Climbing with all of them held is running. */
  datatype Caller = Climbing(path: seq<Semaphore>, held: nat) | Unwinding(path: seq<Semaphore>, held: nat)
  {
    predicate Holds(s: Semaphore) {
      held <= |path| && s in path[..held]
    }

    predicate Done() {
      Unwinding? && held == 0
    }

    /** Steps it can still take. */
    function Work(): nat {
      if Unwinding? then held else 2 * (if held <= |path| then |path| - held else 0) + held + 1
    }
  }

  datatype System = System(free: map<Semaphore, nat>, callers: seq<Caller>)

  datatype Step =
    | Start(path: seq<Semaphore>)
    | Acquire(c: nat)
    | Cancel(c: nat)     // cancelled or timed out, waiting or running
    | Finish(c: nat)     // the body ended
    | Release(c: nat)

  predicate Enabled(limits: Limits, s: System, step: Step) {
    if step.Start? then Climbs(step.path) && forall x <- step.path :: x in limits
    else
      step.c < |s.callers| &&
      var p := s.callers[step.c];
      match step {
        case Acquire(_) => p.Climbing? && p.held < |p.path| && p.path[p.held] in s.free && s.free[p.path[p.held]] > 0
        case Cancel(_) => p.Climbing?
        case Finish(_) => p.Climbing? && p.held == |p.path|
        case Release(_) => p.Unwinding? && 0 < p.held <= |p.path| && p.path[p.held - 1] in s.free
        case _ => false
      }
  }

  function Apply(limits: Limits, s: System, step: Step): System
    requires Enabled(limits, s, step)
  {
    match step {
      case Start(path) => s.(callers := s.callers + [Climbing(path, 0)])
      case Acquire(c) =>
        var p := s.callers[c];
        var x := p.path[p.held];
        System(s.free[x := s.free[x] - 1], s.callers[c := Climbing(p.path, p.held + 1)])
      case Cancel(c) => s.(callers := s.callers[c := Unwinding(s.callers[c].path, s.callers[c].held)])
      case Finish(c) => s.(callers := s.callers[c := Unwinding(s.callers[c].path, s.callers[c].held)])
      case Release(c) =>
        var p := s.callers[c];
        var x := p.path[p.held - 1];
        System(s.free[x := s.free[x] + 1], s.callers[c := Unwinding(p.path, p.held - 1)])
    }
  }

  ghost predicate Run(limits: Limits, s: System, steps: seq<Step>, t: System)
    decreases |steps|
  {
    if steps == [] then t == s
    else Enabled(limits, s, steps[0]) && Run(limits, Apply(limits, s, steps[0]), steps[1..], t)
  }

  function Init(limits: Limits): System {
    System(limits, [])
  }

  /** The callers that are inside a semaphore. */
  ghost function Holders(callers: seq<Caller>, s: Semaphore): set<nat> {
    set c: nat | c < |callers| && callers[c].Holds(s)
  }

  ghost predicate Inv(limits: Limits, s: System) {
    && s.free.Keys == limits.Keys
    && (forall x <- limits :: s.free[x] + |Holders(s.callers, x)| == limits[x])
    && (forall c | 0 <= c < |s.callers| ::
          && s.callers[c].held <= |s.callers[c].path| && Climbs(s.callers[c].path)
          && forall x <- s.callers[c].path :: x in limits)
  }

  /** Moving one caller changes the holders of the semaphores it took or gave back, and no other. */
  lemma HoldersAfterMove(callers: seq<Caller>, c: nat, q: Caller, x: Semaphore)
    requires c < |callers|
    ensures Holders(callers[c := q], x) == if q.Holds(x) then Holders(callers, x) + {c} else Holders(callers, x) - {c}
  {
  }

  lemma HoldersAfterStart(callers: seq<Caller>, path: seq<Semaphore>, x: Semaphore)
    ensures Holders(callers + [Climbing(path, 0)], x) == Holders(callers, x)
  {
  }

  /** On a climbing path, one more held is one more semaphore. */
  lemma OneMoreHeld(path: seq<Semaphore>, held: nat, x: Semaphore)
    requires Climbs(path) && held < |path|
    ensures x in path[..held + 1] <==> x in path[..held] || x == path[held]
    ensures path[held] !in path[..held]
  {
    assert path[..held + 1] == path[..held] + [path[held]];
  }

  lemma CountAfterMove(callers: seq<Caller>, c: nat, q: Caller, x: Semaphore)
    requires c < |callers|
    ensures |Holders(callers[c := q], x)| - |Holders(callers, x)| ==
            (if q.Holds(x) then 1 else 0) - (if callers[c].Holds(x) then 1 else 0)
  {
    HoldersAfterMove(callers, c, q, x);
    assert c in Holders(callers, x) <==> callers[c].Holds(x);
  }

  /** What a step takes from or gives back to a semaphore is what its caller gains or loses. */
  lemma StepIsBalanced(limits: Limits, s: System, step: Step, x: Semaphore)
    requires Inv(limits, s) && Enabled(limits, s, step) && !step.Start? && x in limits
    ensures var t := Apply(limits, s, step);
            && x in t.free && |t.callers| == |s.callers| && t.callers == s.callers[step.c := t.callers[step.c]]
            && t.free[x] as int - s.free[x] as int ==
               (if s.callers[step.c].Holds(x) then 1 else 0) - (if t.callers[step.c].Holds(x) then 1 else 0)
  {
    hide Holders;
    var p := s.callers[step.c];
    if step.Acquire? {
      OneMoreHeld(p.path, p.held, x);
    } else if step.Release? {
      OneMoreHeld(p.path, p.held - 1, x);
    }
  }

  lemma StepKeepsCounts(limits: Limits, s: System, step: Step, x: Semaphore)
    requires Inv(limits, s) && Enabled(limits, s, step) && x in limits
    ensures var t := Apply(limits, s, step);
            x in t.free && t.free[x] + |Holders(t.callers, x)| == limits[x]
  {
    hide Holders;
    if step.Start? {
      HoldersAfterStart(s.callers, step.path, x);
    } else {
      StepIsBalanced(limits, s, step, x);
      CountAfterMove(s.callers, step.c, Apply(limits, s, step).callers[step.c], x);
    }
  }

  lemma StepKeepsInv(limits: Limits, s: System, step: Step)
    requires Inv(limits, s) && Enabled(limits, s, step)
    ensures Inv(limits, Apply(limits, s, step))
  {
    forall x | x in limits
      ensures x in Apply(limits, s, step).free
      ensures Apply(limits, s, step).free[x] + |Holders(Apply(limits, s, step).callers, x)| == limits[x]
    {
      StepKeepsCounts(limits, s, step, x);
    }
  }

  lemma {:induction false} RunKeepsInv(limits: Limits, s: System, steps: seq<Step>, t: System)
    requires Inv(limits, s) && Run(limits, s, steps, t)
    ensures Inv(limits, t)
    decreases |steps|
  {
    hide Inv, Enabled, Apply;
    if steps == [] {
    } else {
      StepKeepsInv(limits, s, steps[0]);
      RunKeepsInv(limits, Apply(limits, s, steps[0]), steps[1..], t);
    }
  }

  lemma InitInv(limits: Limits)
    ensures Inv(limits, Init(limits))
  {
    forall x | x in limits ensures Holders([], x) == {} {}
  }

  /** In every run, no semaphore is held by more callers than its limit allows. */
  lemma LimitsHold(limits: Limits, steps: seq<Step>, t: System)
    requires Run(limits, Init(limits), steps, t)
    ensures forall x <- limits :: |Holders(t.callers, x)| <= limits[x]
  {
    InitInv(limits);
    RunKeepsInv(limits, Init(limits), steps, t);
  }

  /**
   So with the configured limits: per provider at most `providerLimit` callers are inside, per principal
   semaphore at most `principalLimit`, and per batch at most its own limit.
   */
  lemma ConfiguredLimitsHold(providerLimit: nat, principalLimit: nat, made: nat, batches: seq<nat>, steps: seq<Step>, t: System)
    requires Run(Configured(providerLimit, principalLimit, made, batches), Init(Configured(providerLimit, principalLimit, made, batches)), steps, t)
    ensures forall p <- PROVIDERS :: |Holders(t.callers, Provider(p))| <= providerLimit
    ensures forall n: nat | n < made :: |Holders(t.callers, PerPrincipal(n))| <= principalLimit
    ensures forall n: nat | n < |batches| :: |Holders(t.callers, Batch(n))| <= batches[n]
  {
    hide Holders, Run, Init;
    var limits := Configured(providerLimit, principalLimit, made, batches);
    LimitsHold(limits, steps, t);
    forall p <- PROVIDERS ensures |Holders(t.callers, Provider(p))| <= providerLimit {
      assert Provider(p) in limits && limits[Provider(p)] == providerLimit;
    }
    forall n: nat | n < made ensures |Holders(t.callers, PerPrincipal(n))| <= principalLimit {
      assert PerPrincipal(n) in limits && limits[PerPrincipal(n)] == principalLimit;
    }
    forall n: nat | n < |batches| ensures |Holders(t.callers, Batch(n))| <= batches[n] {
      assert Batch(n) in limits && limits[Batch(n)] == batches[n];
    }
  }

  /** A caller whose turn it is to climb gets in exactly while fewer than the limit are inside. */
  lemma EntersBelowLimit(limits: Limits, steps: seq<Step>, t: System, c: nat)
    requires Run(limits, Init(limits), steps, t) && c < |t.callers|
    requires t.callers[c].Climbing? && t.callers[c].held < |t.callers[c].path|
    ensures var x := t.callers[c].path[t.callers[c].held];
            x in limits && (Enabled(limits, t, Acquire(c)) <==> |Holders(t.callers, x)| < limits[x])
  {
    InitInv(limits);
    RunKeepsInv(limits, Init(limits), steps, t);
    var p := t.callers[c];
    assert p.path[p.held] in p.path;
  }

  /** With the configured limits that is: fewer than `providerLimit` at a provider, `principalLimit` at a principal. */
  lemma EntersBelowConfiguredLimit(providerLimit: nat, principalLimit: nat, made: nat, batches: seq<nat>,
                                   steps: seq<Step>, t: System, c: nat)
    requires var limits := Configured(providerLimit, principalLimit, made, batches); Run(limits, Init(limits), steps, t)
    requires c < |t.callers| && t.callers[c].Climbing? && t.callers[c].held < |t.callers[c].path|
    ensures var limits := Configured(providerLimit, principalLimit, made, batches);
            var x := t.callers[c].path[t.callers[c].held];
            && (x.Batch? ==> x.n < |batches|)
            && (Enabled(limits, t, Acquire(c)) <==>
                  |Holders(t.callers, x)| < match x {
                                              case Provider(_) => providerLimit
                                              case PerPrincipal(_) => principalLimit
                                              case Batch(n) => batches[n]
                                            })
  {
    hide Run, Init, Holders, Enabled;
    EntersBelowLimit(Configured(providerLimit, principalLimit, made, batches), steps, t, c);
  }

  // ---------------------------------------------------------------------
  // No deadlock
  // ---------------------------------------------------------------------

  /** What the caller would do next, cancellation aside. */
  function Next(p: Caller, c: nat): Step {
    if p.Unwinding? then Release(c) else if p.held == |p.path| then Finish(c) else Acquire(c)
  }

  /** Who holds a semaphore that has none free ranks above everyone waiting for it. */
  lemma BlockedByHigher(limits: Limits, s: System, c: nat) returns (d: nat)
    requires Inv(limits, s) && (forall x <- limits :: limits[x] > 0)
    requires c < |s.callers| && !s.callers[c].Done() && !Enabled(limits, s, Next(s.callers[c], c))
    ensures s.callers[c].Climbing? && s.callers[c].held < |s.callers[c].path|
    ensures d < |s.callers| && !s.callers[d].Done()
    ensures s.callers[d].Climbing? && s.callers[d].held < |s.callers[d].path| ==>
              Rank(s.callers[c].path[s.callers[c].held]) < Rank(s.callers[d].path[s.callers[d].held])
  {
    var p := s.callers[c];
    assert p.held < |p.path| ==> p.path[p.held] in p.path;
    assert 0 < p.held <= |p.path| ==> p.path[p.held - 1] in p.path;
    var x := p.path[p.held];
    assert |Holders(s.callers, x)| == limits[x] > 0;
    d :| d in Holders(s.callers, x);
    var i :| 0 <= i < s.callers[d].held && s.callers[d].path[..s.callers[d].held][i] == x;
  }

  lemma {:induction false} FindMover(limits: Limits, s: System, c: nat) returns (d: nat)
    requires Inv(limits, s) && (forall x <- limits :: limits[x] > 0)
    requires c < |s.callers| && !s.callers[c].Done()
    ensures d < |s.callers| && !s.callers[d].Done() && Enabled(limits, s, Next(s.callers[d], d))
    decreases
      var p := s.callers[c];
      if p.Climbing? && p.held < |p.path| then 3 - Rank(p.path[p.held]) else 0
  {
    hide Inv, Enabled;
    if Enabled(limits, s, Next(s.callers[c], c)) {
      d := c;
    } else {
      var e := BlockedByHigher(limits, s, c);
      d := FindMover(limits, s, e);
    }
  }

  function TotalWork(callers: seq<Caller>): nat {
    if callers == [] then 0 else TotalWork(callers[..|callers| - 1]) + callers[|callers| - 1].Work()
  }

  lemma {:induction false} WorkAfterMove(callers: seq<Caller>, c: nat, q: Caller)
    requires c < |callers|
    ensures TotalWork(callers[c := q]) == TotalWork(callers) - callers[c].Work() + q.Work()
    ensures TotalWork(callers) >= callers[c].Work()
  {
    var n := |callers| - 1;
    if c < n {
      WorkAfterMove(callers[..n], c, q);
      assert callers[c := q][..n] == callers[..n][c := q];
    } else {
      assert callers[c := q][..n] == callers[..n];
    }
  }

  lemma StepDoesWork(limits: Limits, s: System, step: Step)
    requires Inv(limits, s) && Enabled(limits, s, step) && !step.Start?
    ensures TotalWork(Apply(limits, s, step).callers) < TotalWork(s.callers)
  {
    var t := Apply(limits, s, step);
    WorkAfterMove(s.callers, step.c, t.callers[step.c]);
  }

  lemma {:induction false} WorkBoundsRun(limits: Limits, s: System, steps: seq<Step>, t: System)
    requires Inv(limits, s) && Run(limits, s, steps, t) && forall step <- steps :: !step.Start?
    ensures |steps| + TotalWork(t.callers) <= TotalWork(s.callers)
    decreases |steps|
  {
    hide Inv, Enabled, Apply;
    if steps == [] {
    } else {
      assert steps[0] in steps;
      StepKeepsInv(limits, s, steps[0]);
      StepDoesWork(limits, s, steps[0]);
      WorkBoundsRun(limits, Apply(limits, s, steps[0]), steps[1..], t);
    }
  }

  /**
   With positive limits no reachable state is stuck, and no schedule runs for ever: as long as a caller
   is not done, some caller can take its next step without anybody being cancelled; and once no new
   callers arrive, every schedule ends after boundedly many steps - so it ends with everyone done.
   */
  lemma NoDeadlock(limits: Limits, steps: seq<Step>, s: System, more: seq<Step>, t: System)
    requires (forall x <- limits :: limits[x] > 0) && Run(limits, Init(limits), steps, s)
    requires Run(limits, s, more, t) && forall step <- more :: !step.Start?
    ensures |more| <= TotalWork(s.callers)
    ensures (exists c: nat :: c < |t.callers| && !t.callers[c].Done()) ==>
              exists d: nat :: d < |t.callers| && !t.callers[d].Done() && Enabled(limits, t, Next(t.callers[d], d))
  {
    InitInv(limits);
    RunKeepsInv(limits, Init(limits), steps, s);
    WorkBoundsRun(limits, s, more, t);
    RunKeepsInv(limits, s, more, t);
    if c: nat :| c < |t.callers| && !t.callers[c].Done() {
      var d := FindMover(limits, t, c);
    }
  }

  /** In particular with the configured limits, which the constructor insists are positive. */
  lemma ConfiguredNoDeadlock(providerLimit: nat, principalLimit: nat, made: nat, batches: seq<nat>,
                             steps: seq<Step>, s: System, more: seq<Step>, t: System)
    requires providerLimit > 0 && principalLimit > 0 && forall n <- batches :: n > 0
    requires var limits := Configured(providerLimit, principalLimit, made, batches);
             Run(limits, Init(limits), steps, s) && Run(limits, s, more, t)
    requires forall step <- more :: !step.Start?
    ensures |more| <= TotalWork(s.callers)
    ensures (exists c: nat :: c < |t.callers| && !t.callers[c].Done()) ==>
              var limits := Configured(providerLimit, principalLimit, made, batches);
              exists d: nat :: d < |t.callers| && !t.callers[d].Done() && Enabled(limits, t, Next(t.callers[d], d))
  {
    hide Run, Init, Enabled, Configured, TotalWork;
    ConfiguredPositive(providerLimit, principalLimit, made, batches);
    NoDeadlock(Configured(providerLimit, principalLimit, made, batches), steps, s, more, t);
  }

  // ---------------------------------------------------------------------
  // Batches
  // ---------------------------------------------------------------------

  datatype Variation = Variation(index: nat, artifact: Option<string>, taskId: Option<string>, error: Option<string>)

  /** What gathering one coroutine produced. A cancelled one is not an `Exception`. */
  datatype Gathered = Produced(variation: Variation) | TimedOut | Raised | CancelledChild

  datatype Summary = Summary(total: nat, succeeded: nat, failed: nat, variations: seq<Variation>)

  datatype BatchError = NotAVariation

  /** The coroutines that produced an artifact or a provider task. */
  ghost function Successes(results: seq<Gathered>): set<nat> {
    set i | 0 <= i < |results| && results[i].Produced? && (results[i].variation.artifact.Some? || results[i].variation.taskId.Some?)
  }

  lemma SuccessesGrow(results: seq<Gathered>, i: nat)
    requires i < |results|
    ensures Successes(results[..i + 1]) == Successes(results[..i]) + if i in Successes(results) then {i} else {}
    ensures i !in Successes(results[..i])
  {
    assert forall k | 0 <= k < i + 1 :: results[..i + 1][k] == results[k];
    assert forall k | 0 <= k < i :: results[..i][k] == results[k];
  }

  /**
   One result per coroutine, in order: its variation, or a timeout or an error under its index. Exactly
   the coroutines that produced an artifact or a task count as succeeded, all others as failed. The
   summary cannot be built exactly when a coroutine was cancelled from outside.
   */
  method Summarize(results: seq<Gathered>) returns (summary: Result<Summary, BatchError>)
    ensures summary.Err? <==> CancelledChild in results
    ensures summary.Ok? ==> summary.value.total == |results| == |summary.value.variations|
    ensures summary.Ok? ==> forall i | 0 <= i < |results| ::
      summary.value.variations[i] ==
        if results[i].Produced? then results[i].variation
        else Variation(i, None, None, Some(if results[i].TimedOut? then "TIMEOUT" else "GATHER_ERROR"))
    ensures summary.Ok? ==>
      && summary.value.succeeded ==
         |set i | 0 <= i < |results| && results[i].Produced?
                  && (results[i].variation.artifact.Some? || results[i].variation.taskId.Some?)|
      && summary.value.succeeded + summary.value.failed == |results|
  {
    var variations: seq<Variation> := [];
    var broken, succeeded := false, 0;
    for i := 0 to |results|
      invariant |variations| == i
      invariant forall k | 0 <= k < i ::
        variations[k] ==
          if results[k].Produced? then results[k].variation
          else Variation(k, None, None, Some(if results[k].TimedOut? then "TIMEOUT" else "GATHER_ERROR"))
      invariant broken <==> CancelledChild in results[..i]
      invariant succeeded == |Successes(results[..i])| <= i
    {
      assert results[..i + 1] == results[..i] + [results[i]];
      SuccessesGrow(results, i);
      var variation := match results[i] {
        case Produced(v) => v
        case TimedOut => Variation(i, None, None, Some("TIMEOUT"))
        case _ => Variation(i, None, None, Some("GATHER_ERROR"))
      };
      broken := broken || results[i].CancelledChild?;
      succeeded := succeeded + if variation.artifact.Some? || variation.taskId.Some? then 1 else 0;
      variations := variations + [variation];
    }
    assert results[..|results|] == results;
    if broken {
      return Err(NotAVariation);
    }
    summary := Ok(Summary(|results|, succeeded, |results| - succeeded, variations));
  }

  const SEED_RANGE: int := 2147483648

  /** No seeds, the drawn ones, or consecutive ones. */
  function Seeds(base: Option<int>, count: nat, drawn: nat -> nat): (seeds: seq<Option<int>>)
    ensures |seeds| == count
  {
    match base {
      case None => seq(count, i => None)
      case Some(n) =>
        if n == -1 then seq(count, i requires i >= 0 => Some(drawn(i) as int)) else seq(count, i => Some((n + i) % SEED_RANGE))
    }
  }

  lemma NearbyResiduesDiffer(x: int, y: int)
    requires x < y < x + SEED_RANGE
    ensures x % SEED_RANGE != y % SEED_RANGE
  {
    var q, r := x / SEED_RANGE, y / SEED_RANGE;
    assert x == q * SEED_RANGE + x % SEED_RANGE && y == r * SEED_RANGE + y % SEED_RANGE;
  }

  lemma NextResidue(x: int)
    ensures (x + 1) % SEED_RANGE == if x % SEED_RANGE == SEED_RANGE - 1 then 0 else x % SEED_RANGE + 1
  {
  }

  lemma ResiduesRepeat(x: int)
    ensures (x + SEED_RANGE) % SEED_RANGE == x % SEED_RANGE
  {
    var q := x / SEED_RANGE;
    assert x == q * SEED_RANGE + x % SEED_RANGE && x + SEED_RANGE == (q + 1) * SEED_RANGE + x % SEED_RANGE;
  }

  /**
   Every seed that is given is in range. Consecutive ones are distinct exactly up to the size of the
   range - the promise of distinct seeds - drawn ones exactly if the draws are. They start with the base
   and go up by one, starting over at the end of the range.
   */
  lemma SeedsAreDistinct(base: Option<int>, count: nat, drawn: nat -> nat)
    requires forall i :: drawn(i) < SEED_RANGE
    ensures base.Some? ==> forall i | 0 <= i < count :: Seeds(base, count, drawn)[i].Some? && 0 <= Seeds(base, count, drawn)[i].value < SEED_RANGE
    ensures base.Some? ==>
      ((forall i, j | 0 <= i < j < count :: Seeds(base, count, drawn)[i] != Seeds(base, count, drawn)[j]) <==>
       if base.value == -1 then forall i, j | 0 <= i < j < count :: drawn(i) != drawn(j) else count <= SEED_RANGE)
    ensures base.None? ==> forall i | 0 <= i < count :: Seeds(base, count, drawn)[i] == None
    ensures base == Some(-1) ==> forall i | 0 <= i < count :: Seeds(base, count, drawn)[i] == Some(drawn(i) as int)
    ensures base.Some? && 0 <= base.value < SEED_RANGE && count > 0 ==> Seeds(base, count, drawn)[0] == base
    ensures base.Some? && base.value != -1 && count > 0 ==> Seeds(base, count, drawn)[0] == Some(base.value % SEED_RANGE)
    ensures base.Some? && base.value != -1 ==> forall i | 0 < i < count ::
              var seed := Seeds(base, count, drawn)[i - 1].value;
              Seeds(base, count, drawn)[i] == Some(if seed == SEED_RANGE - 1 then 0 else seed + 1)
  {
    var seeds := Seeds(base, count, drawn);
    if base.Some? && base.value != -1 {
      forall i | 0 < i < count
        ensures seeds[i] == Some(if seeds[i - 1].value == SEED_RANGE - 1 then 0 else seeds[i - 1].value + 1)
      {
        NextResidue(base.value + i - 1);
      }
      if count <= SEED_RANGE {
        forall i, j | 0 <= i < j < count ensures seeds[i] != seeds[j] {
          NearbyResiduesDiffer(base.value + i, base.value + j);
        }
      } else {
        ResiduesRepeat(base.value);
        assert seeds[0] == seeds[SEED_RANGE];
      }
    }
    if base == Some(-1) {
      assert forall i | 0 <= i < count :: seeds[i] == Some(drawn(i) as int);
    }
  }
}
