/**
 Single-flight persistence of one provider task's output.

 `Locks` is the reference-counted lock registry as a value: the registry maps a
 task to the identity of its live lock entry, and the heap maps identities to
 entry objects (entries that left the registry keep their last contents there).
 The class `TaskArtifactPersistenceLocks` implements the same operations on
 objects; `System` interleaves any number of callers over them.
 */
module SingleFlight {
  import opened Prelude

  /** (provider, task id) */
  type Key = (string, string)

  datatype ArtifactRef = ArtifactRef(id: string, uri: string, sha256: string)

  /** The shared slot of a lock entry: `dict[str, ArtifactRef | None] | None`. */
  type Artifacts = Option<map<string, Option<ArtifactRef>>>

  function VideoOf(artifacts: Artifacts): Option<ArtifactRef> {
    if artifacts.Some? && "video" in artifacts.value then artifacts.value["video"] else None
  }

  datatype Entry = Entry(users: nat, holder: Option<nat>, artifacts: Artifacts)

  datatype Locks = Locks(registry: map<Key, nat>, heap: map<nat, Entry>, next: nat)

  /** Identities are never reused, and two tasks never share an entry. */
  ghost predicate WellFormed(locks: Locks) {
    && (forall k <- locks.registry :: locks.registry[k] in locks.heap)
    && (forall k <- locks.registry, j <- locks.registry :: locks.registry[k] == locks.registry[j] ==> k == j)
    && (forall e <- locks.heap :: e < locks.next)
  }

  // ---------------------------------------------------------------------
  // The atomic sections, on values
  // ---------------------------------------------------------------------

  function Registered(locks: Locks, key: Key): (Locks, nat)
    requires WellFormed(locks)
  {
    if key in locks.registry then
      var e := locks.registry[key];
      (locks.(heap := locks.heap[e := locks.heap[e].(users := locks.heap[e].users + 1)]), e)
    else
      (Locks(locks.registry[key := locks.next], locks.heap[locks.next := Entry(1, None, None)], locks.next + 1),
       locks.next)
  }

  function Deregistered(locks: Locks, key: Key, e: nat): Locks
    requires e in locks.heap && locks.heap[e].users > 0
  {
    var users := locks.heap[e].users - 1;
    Locks(if users == 0 then locks.registry - {key} else locks.registry,
          locks.heap[e := locks.heap[e].(users := users)],
          locks.next)
  }

  // ---------------------------------------------------------------------
  // Callers
  // ---------------------------------------------------------------------

  /** Result of the cache lookup; `ReadError` is any exception it raised. */
  datatype CacheRead = Cached(artifacts: map<string, Option<ArtifactRef>>) | Missing | ReadError

  function CachedVideo(read: CacheRead): Option<ArtifactRef> {
    if read.Cached? then VideoOf(Some(read.artifacts)) else None
  }

  datatype Issue = Issue(code: string, retryable: bool)

  /** Result of copying the provider output: a classified error, or any other exception. */
  datatype CopyResult = Copied(ref: ArtifactRef) | Rejected(issue: Issue) | CopyCrashed

  datatype Outcome = Persisted(ref: ArtifactRef) | Failed(issue: Issue) | Aborted

  const STORAGE_FAILED := Issue("storage_failed", true)

  datatype Phase =
    | Waiting(key: Key, entry: nat)                     // registered, waiting for the entry's lock
    | Entered(key: Key, entry: nat)                     // lock held, shared slot not looked at yet
    | Reading(key: Key, entry: nat)                     // awaiting the cache lookup
    | Copying(key: Key, entry: nat)                     // awaiting the copy
    | Caching(key: Key, entry: nat, ref: ArtifactRef)   // copied; awaiting the cache write
    | Leaving(key: Key, entry: nat, outcome: Outcome)   // body over, lock still held
    | Released(key: Key, entry: nat, outcome: Outcome)  // lock given back, still counted
    | Done(key: Key, outcome: Outcome)
  {
    /** Between register and deregister. */
    predicate Inside() {
      !Done?
    }

    /** Between acquiring and releasing the entry's lock. */
    predicate Critical() {
      Entered? || Reading? || Copying? || Caching? || Leaving?
    }
  }

  /** What happened to an output: which entry lifetime it belongs to, and which artifact. */
  datatype Event = Event(caller: nat, entry: nat, key: Key, ref: ArtifactRef)

  datatype System = System(
    locks: Locks,
    callers: map<nat, Phase>,
    cache: map<Key, ArtifactRef>,   // what the cache was last successfully told
    copies: seq<Event>,             // history: successful copies
    reports: seq<Event>)            // history: callers that returned `persisted`

  const INIT := System(Locks(map[], map[], 0), map[], map[], [], [])

  datatype Step =
    | Register(caller: nat, key: Key)
    | Enter(caller: nat)
    | CancelWait(caller: nat)
    | Check(caller: nat)
    | ReadCache(caller: nat, read: CacheRead)
    | Copy(caller: nat, result: CopyResult)
    | WriteCache(caller: nat, ok: bool)
    | Abort(caller: nat)
    | Release(caller: nat)
    | Deregister(caller: nat)

  /** Whether a caller in phase `p`, looking at its own entry, can take `step`. */
  predicate Ready(p: Phase, entry: Entry, step: Step) {
    match step {
      case Register(_, _) => false
      case Enter(_) => p.Waiting? && entry.holder == None
      case CancelWait(_) => p.Waiting?
      case Check(_) => p.Entered?
      case ReadCache(_, _) => p.Reading?
      case Copy(_, _) => p.Copying?
      case WriteCache(_, _) => p.Caching?
      case Abort(_) => p.Critical() && !p.Leaving?
      case Release(_) => p.Leaving?
      case Deregister(_) => p.Released? && entry.users > 0
    }
  }

  /** One step of a registered caller: its next phase and its entry, branch by branch as in the source. */
  function Advance(p: Phase, entry: Entry, step: Step): (Phase, Entry)
    requires Ready(p, entry, step)
  {
    var key, e := p.key, if p.Inside() then p.entry else 0;
    match step {
      case Enter(c) => (Entered(key, e), entry.(holder := Some(c)))
      case CancelWait(_) => (Released(key, e, Aborted), entry)
      case Check(_) =>
        var shared := VideoOf(entry.artifacts);
        if shared.Some? then (Leaving(key, e, Persisted(shared.value)), entry) else (Reading(key, e), entry)
      case ReadCache(_, read) =>
        var video := CachedVideo(read);
        if video.Some? then
          (Leaving(key, e, Persisted(video.value)), entry.(artifacts := Some(map["video" := video])))
        else
          (Copying(key, e), entry)
      case Copy(_, Copied(ref)) => (Caching(key, e, ref), entry.(artifacts := Some(map["video" := Some(ref)])))
      case Copy(_, Rejected(issue)) => (Leaving(key, e, Failed(issue)), entry)
      case Copy(_, CopyCrashed) => (Leaving(key, e, Failed(STORAGE_FAILED)), entry)
      case WriteCache(_, _) => (Leaving(key, e, Persisted(p.ref)), entry)
      case Abort(_) => (Leaving(key, e, Aborted), entry)
      case Release(_) => (Released(key, e, p.outcome), entry.(holder := None))
      case Deregister(_) => (Done(key, p.outcome), entry.(users := entry.users - 1))
    }
  }

  predicate Enabled(s: System, step: Step) {
    var c := step.caller;
    if step.Register? then
      c !in s.callers
    else
      && c in s.callers && s.callers[c].Inside() && s.callers[c].entry in s.locks.heap
      && Ready(s.callers[c], s.locks.heap[s.callers[c].entry], step)
  }

  function Apply(s: System, step: Step): System
    requires WellFormed(s.locks) && Enabled(s, step)
  {
    var c := step.caller;
    if step.Register? then
      var (locks, e) := Registered(s.locks, step.key);
      s.(locks := locks, callers := s.callers[c := Waiting(step.key, e)])
    else
      var p := s.callers[c];
      var (q, entry) := Advance(p, s.locks.heap[p.entry], step);
      System(
        if step.Deregister? then Deregistered(s.locks, p.key, p.entry)
        else s.locks.(heap := s.locks.heap[p.entry := entry]),
        s.callers[c := q],
        if step.WriteCache? && step.ok then s.cache[p.key := p.ref] else s.cache,
        if step.Copy? && step.result.Copied? then s.copies + [Event(c, p.entry, p.key, step.result.ref)] else s.copies,
        if step.Deregister? && p.outcome.Persisted? then s.reports + [Event(c, p.entry, p.key, p.outcome.ref)]
        else s.reports)
  }

  /** `t` is reached from `s` by taking `steps` in order, each of them when it is enabled. */
  ghost predicate Run(s: System, steps: seq<Step>, t: System)
    decreases |steps|
  {
    if steps == [] then t == s
    else WellFormed(s.locks) && Enabled(s, steps[0]) && Run(Apply(s, steps[0]), steps[1..], t)
  }

  // ---------------------------------------------------------------------
  // The invariant
  // ---------------------------------------------------------------------

  /** The callers counted by entry `e`. */
  ghost function UsersOf(callers: map<nat, Phase>, e: nat): set<nat> {
    set c | c in callers && callers[c].Inside() && callers[c].entry == e
  }

  ghost predicate Counted(s: System)
    requires WellFormed(s.locks)
  {
    && (forall e <- s.locks.heap :: s.locks.heap[e].users == |UsersOf(s.callers, e)|)
    && (forall k <- s.locks.registry :: s.locks.heap[s.locks.registry[k]].users > 0)
  }

  ghost predicate Linked(s: System) {
    forall c <- s.callers :: s.callers[c].Inside() ==>
      s.callers[c].key in s.locks.registry && s.locks.registry[s.callers[c].key] == s.callers[c].entry
  }

  ghost predicate Exclusive(s: System) {
    && (forall c <- s.callers :: s.callers[c].Critical() && s.callers[c].entry in s.locks.heap ==>
          s.locks.heap[s.callers[c].entry].holder == Some(c))
    && (forall e <- s.locks.heap :: s.locks.heap[e].holder.Some? ==>
          var c := s.locks.heap[e].holder.value;
          c in s.callers && s.callers[c].Critical() && s.callers[c].entry == e)
  }

  /** The slot says what callers past each point of the body know about it. */
  ghost predicate SlotAgrees(video: Option<ArtifactRef>, p: Phase) {
    match p {
      case Reading(_, _) => video == None
      case Copying(_, _) => video == None
      case Caching(_, _, ref) => video == Some(ref)
      case Leaving(_, _, Persisted(ref)) => video == Some(ref)
      case Released(_, _, Persisted(ref)) => video == Some(ref)
      case _ => true
    }
  }

  ghost predicate SlotsAgree(s: System) {
    forall c <- s.callers :: s.callers[c].Inside() && s.callers[c].entry in s.locks.heap ==>
      SlotAgrees(VideoOf(s.locks.heap[s.callers[c].entry].artifacts), s.callers[c])
  }

  ghost predicate Recorded(locks: Locks, event: Event) {
    event.entry in locks.heap && VideoOf(locks.heap[event.entry].artifacts) == Some(event.ref)
  }

  ghost predicate HistoryAgrees(s: System) {
    && (forall i | 0 <= i < |s.copies| :: Recorded(s.locks, s.copies[i]))
    && (forall i | 0 <= i < |s.reports| :: Recorded(s.locks, s.reports[i]))
    && (forall i, j | 0 <= i < j < |s.copies| :: s.copies[i].entry != s.copies[j].entry)
  }

  ghost predicate Inv(s: System) {
    && WellFormed(s.locks) && Counted(s) && Linked(s) && Exclusive(s) && SlotsAgree(s) && HistoryAgrees(s)
  }

  /** Moving one caller changes the counted users of the entries it leaves and joins, and no other. */
  lemma UsersAfterMove(callers: map<nat, Phase>, c: nat, p: Phase, e: nat)
    ensures UsersOf(callers[c := p], e) ==
            if p.Inside() && p.entry == e then UsersOf(callers, e) + {c} else UsersOf(callers, e) - {c}
  {
  }

  /** What every step of registered caller `c` does to its own phase and entry. */
  ghost predicate LocalStep(c: nat, p: Phase, entry: Entry, q: Phase, after: Entry) {
    && p.Inside() && q.key == p.key
    && (q.Inside() ==> q.entry == p.entry && after.users == entry.users && SlotAgrees(VideoOf(after.artifacts), q))
    && (q.Done? ==> p.Released? && entry.users > 0 && after == entry.(users := entry.users - 1))
    && (p.Critical() ==> entry.holder == Some(c))
    && (q.Critical() ==> p.Critical() || entry.holder == None)
    && after.holder == (if q.Critical() then Some(c) else if p.Critical() then None else entry.holder)
    && (VideoOf(entry.artifacts).Some? ==> VideoOf(after.artifacts) == VideoOf(entry.artifacts))
    && (VideoOf(after.artifacts) != VideoOf(entry.artifacts) ==> p.Critical())
  }

  lemma AdvanceIsLocal(p: Phase, entry: Entry, step: Step)
    requires p.Inside() && Ready(p, entry, step) && SlotAgrees(VideoOf(entry.artifacts), p)
    requires p.Critical() ==> entry.holder == Some(step.caller)
    ensures var (q, after) := Advance(p, entry, step);
            && LocalStep(step.caller, p, entry, q, after)
            && (step.Deregister? <==> q.Done?)
            && (step.Copy? && step.result.Copied? ==>
                  VideoOf(entry.artifacts) == None && VideoOf(after.artifacts) == Some(step.result.ref))
            && (VideoOf(after.artifacts) != VideoOf(entry.artifacts) ==>
                  || (step.Copy? && step.result.Copied?)
                  || (step.ReadCache? && VideoOf(after.artifacts) == CachedVideo(step.read)))
  {
  }

  /** `t` is `s` after caller `c` moved to `q` and left its entry as `after`. */
  ghost predicate Moved(s: System, c: nat, q: Phase, after: Entry, t: System) {
    && c in s.callers && s.callers[c].Inside() && s.callers[c].entry in s.locks.heap
    && LocalStep(c, s.callers[c], s.locks.heap[s.callers[c].entry], q, after)
    && t.callers == s.callers[c := q]
    && t.locks.heap == s.locks.heap[s.callers[c].entry := after]
    && t.locks.next == s.locks.next
    && t.locks.registry == if q.Done? && after.users == 0 then s.locks.registry - {s.callers[c].key} else s.locks.registry
  }

  lemma MoveKeepsCounted(s: System, c: nat, q: Phase, after: Entry, t: System)
    requires Inv(s) && Moved(s, c, q, after, t)
    ensures WellFormed(t.locks) && Counted(t)
  {
    hide Exclusive, SlotsAgree, HistoryAgrees;
    var e := s.callers[c].entry;
    assert c in UsersOf(s.callers, e);
    forall d | d in t.locks.heap
      ensures t.locks.heap[d].users == |UsersOf(t.callers, d)|
    {
      UsersAfterMove(s.callers, c, q, d);
      if d != e {
        assert c !in UsersOf(s.callers, d);
      } else if q.Inside() {
        assert UsersOf(t.callers, d) == UsersOf(s.callers, d);
      } else {
        assert UsersOf(t.callers, d) == UsersOf(s.callers, d) - {c};
      }
    }
  }

  /** While another caller is counted by an entry, deregistering one leaves it in the registry. */
  lemma MoveKeepsLinked(s: System, c: nat, q: Phase, after: Entry, t: System)
    requires Inv(s) && Moved(s, c, q, after, t)
    ensures Linked(t)
  {
    var e := s.callers[c].entry;
    forall d | d in t.callers && t.callers[d].Inside()
      ensures t.callers[d].key in t.locks.registry && t.locks.registry[t.callers[d].key] == t.callers[d].entry
    {
      if q.Done? && s.callers[d].key == s.callers[c].key {
        assert {c, d} <= UsersOf(s.callers, e);
        assert |UsersOf(s.callers, e) - {c, d}| == |UsersOf(s.callers, e)| - 2;
      }
    }
  }

  lemma MoveKeepsExclusive(s: System, c: nat, q: Phase, after: Entry, t: System)
    requires Inv(s) && Moved(s, c, q, after, t)
    ensures Exclusive(t) && SlotsAgree(t)
  {
    forall d | d in t.callers && d != c && t.callers[d].Inside() && t.callers[d].entry in t.locks.heap
      ensures SlotAgrees(VideoOf(t.locks.heap[t.callers[d].entry].artifacts), t.callers[d])
    {
      assert SlotAgrees(VideoOf(s.locks.heap[s.callers[d].entry].artifacts), s.callers[d]);
    }
  }

  lemma MoveKeepsRecorded(s: System, c: nat, q: Phase, after: Entry, t: System, event: Event)
    requires Moved(s, c, q, after, t) && Recorded(s.locks, event)
    ensures Recorded(t.locks, event)
  {
  }

  lemma AdvanceKeepsHistory(s: System, step: Step, q: Phase, after: Entry)
    requires Inv(s) && Enabled(s, step) && !step.Register?
    requires (q, after) == Advance(s.callers[step.caller], s.locks.heap[s.callers[step.caller].entry], step)
    requires Moved(s, step.caller, q, after, Apply(s, step))
    requires step.Copy? && step.result.Copied? ==>
      && VideoOf(s.locks.heap[s.callers[step.caller].entry].artifacts) == None
      && VideoOf(after.artifacts) == Some(step.result.ref)
    ensures HistoryAgrees(Apply(s, step))
  {
    var t := Apply(s, step);
    forall event | Recorded(s.locks, event) ensures Recorded(t.locks, event) {
      MoveKeepsRecorded(s, step.caller, q, after, t, event);
    }
    assert forall i | 0 <= i < |s.copies| :: t.copies[i] == s.copies[i];
    assert forall i | 0 <= i < |s.reports| :: t.reports[i] == s.reports[i];
  }

  lemma NotCountedYet(callers: map<nat, Phase>, c: nat, e: nat)
    requires c !in callers
    ensures c !in UsersOf(callers, e) && UsersOf(callers, e) - {c} == UsersOf(callers, e)
  {
  }

  lemma NobodyCounted(s: System, e: nat)
    requires WellFormed(s.locks) && Linked(s) && e !in s.locks.heap
    ensures UsersOf(s.callers, e) == {}
  {
  }

  lemma RegisterCounts(s: System, step: Step, d: nat)
    requires Inv(s) && Enabled(s, step) && step.Register? && d in Apply(s, step).locks.heap
    ensures Apply(s, step).locks.heap[d].users == |UsersOf(Apply(s, step).callers, d)|
  {
    hide Exclusive, SlotsAgree, HistoryAgrees, UsersOf;
    var t, c := Apply(s, step), step.caller;
    UsersAfterMove(s.callers, c, t.callers[c], d);
    NotCountedYet(s.callers, c, d);
    if d !in s.locks.heap {
      NobodyCounted(s, d);
    }
  }

  lemma RegisterKeepsCounted(s: System, step: Step)
    requires Inv(s) && Enabled(s, step) && step.Register?
    ensures WellFormed(Apply(s, step).locks) && Counted(Apply(s, step))
  {
    hide UsersOf, Linked, Exclusive, SlotsAgree, HistoryAgrees;
    var t := Apply(s, step);
    forall d | d in t.locks.heap
      ensures t.locks.heap[d].users == |UsersOf(t.callers, d)|
    {
      RegisterCounts(s, step, d);
    }
  }

  lemma RegisterKeepsRest(s: System, step: Step)
    requires Inv(s) && Enabled(s, step) && step.Register?
    ensures Linked(Apply(s, step)) && Exclusive(Apply(s, step)) && SlotsAgree(Apply(s, step))
  {
    hide Counted, UsersOf, HistoryAgrees;
  }

  lemma RegisterKeepsHistory(s: System, step: Step)
    requires Inv(s) && Enabled(s, step) && step.Register?
    ensures HistoryAgrees(Apply(s, step))
  {
    hide Counted, UsersOf, Linked, Exclusive, SlotsAgree;
  }

  lemma StepKeepsInv(s: System, step: Step)
    requires Inv(s) && Enabled(s, step)
    ensures Inv(Apply(s, step))
  {
    if step.Register? {
      RegisterKeepsCounted(s, step);
      RegisterKeepsRest(s, step);
      RegisterKeepsHistory(s, step);
    } else {
      var p, c, t := s.callers[step.caller], step.caller, Apply(s, step);
      AdvanceIsLocal(p, s.locks.heap[p.entry], step);
      var (q, after) := Advance(p, s.locks.heap[p.entry], step);
      MoveKeepsCounted(s, c, q, after, t);
      MoveKeepsLinked(s, c, q, after, t);
      MoveKeepsExclusive(s, c, q, after, t);
      AdvanceKeepsHistory(s, step, q, after);
    }
  }

  lemma {:induction false} RunKeepsInv(s: System, steps: seq<Step>, t: System)
    requires Inv(s) && Run(s, steps, t)
    ensures Inv(t)
    decreases |steps|
  {
    if steps == [] {
    } else {
      StepKeepsInv(s, steps[0]);
      RunKeepsInv(Apply(s, steps[0]), steps[1..], t);
    }
  }

  // ---------------------------------------------------------------------
  // Main results, over every run
  // ---------------------------------------------------------------------

  /**
   Within one lifetime of a lock entry at most one copy succeeds, and every caller that
   returned `persisted` returned the same artifact - the copied one, if there was a copy.
   Cache reads and writes are arbitrary, and callers may be cancelled at every point.
   */
  lemma SingleFlightPerLifetime(steps: seq<Step>, t: System)
    requires Run(INIT, steps, t)
    ensures forall i, j | 0 <= i < |t.copies| && 0 <= j < |t.copies| ::
              t.copies[i].entry == t.copies[j].entry ==> i == j
    ensures forall i, j | 0 <= i < |t.reports| && 0 <= j < |t.reports| ::
              t.reports[i].entry == t.reports[j].entry ==> t.reports[i].ref == t.reports[j].ref
    ensures forall i, j | 0 <= i < |t.copies| && 0 <= j < |t.reports| ::
              t.copies[i].entry == t.reports[j].entry ==> t.copies[i].ref == t.reports[j].ref
  {
    RunKeepsInv(INIT, steps, t);
    assert forall i | 0 <= i < |t.reports| :: Recorded(t.locks, t.reports[i]);
  }

  ghost function InsideOf(s: System, key: Key): set<nat> {
    set c | c in s.callers && s.callers[c].Inside() && s.callers[c].key == key
  }

  lemma UsersAreInside(s: System, key: Key)
    requires Inv(s)
    ensures key in s.locks.registry <==> InsideOf(s, key) != {}
    ensures key in s.locks.registry ==> InsideOf(s, key) == UsersOf(s.callers, s.locks.registry[key])
  {
    if key in s.locks.registry {
      var e := s.locks.registry[key];
      assert InsideOf(s, key) == UsersOf(s.callers, e);
      assert s.locks.heap[e].users > 0;
    }
  }

  /** The registry holds an entry for exactly the tasks with callers inside, and counts them. */
  lemma RegistryIsExact(steps: seq<Step>, t: System)
    requires Run(INIT, steps, t)
    ensures WellFormed(t.locks)
    ensures forall key :: key in t.locks.registry <==> InsideOf(t, key) != {}
    ensures forall key <- t.locks.registry :: t.locks.heap[t.locks.registry[key]].users == |InsideOf(t, key)|
    ensures forall c <- t.callers :: t.callers[c].Inside() ==>
              t.callers[c].key in t.locks.registry && t.locks.registry[t.callers[c].key] == t.callers[c].entry
  {
    RunKeepsInv(INIT, steps, t);
    forall key
      ensures key in t.locks.registry <==> InsideOf(t, key) != {}
      ensures key in t.locks.registry ==> t.locks.heap[t.locks.registry[key]].users == |InsideOf(t, key)|
    {
      UsersAreInside(t, key);
    }
  }

  /** Nobody else is inside the critical section of the same task. */
  lemma AloneInTask(s: System, c: nat, d: nat)
    requires Inv(s) && c in s.callers && d in s.callers && s.callers[c].Critical() && s.callers[d].Critical()
    requires s.callers[c].key == s.callers[d].key
    ensures c == d
  {
  }

  ghost predicate TaskBusy(s: System, key: Key) {
    exists d <- s.callers :: s.callers[d].key == key && s.callers[d].Critical()
  }

  lemma HeldUpByHolder(s: System, c: nat)
    requires Inv(s) && c in s.callers && s.callers[c].Waiting?
    ensures Enabled(s, Enter(c)) <==> !TaskBusy(s, s.callers[c].key)
  {
    var e := s.callers[c].entry;
    if s.locks.heap[e].holder.Some? {
      var d := s.locks.heap[e].holder.value;
      assert s.callers[d].Critical() && s.callers[d].entry == e;
    }
  }

  /** Callers exclude each other per task, and a waiter is held up by nobody but its own task's holder. */
  lemma ExclusionIsPerTask(steps: seq<Step>, t: System)
    requires Run(INIT, steps, t)
    ensures forall c <- t.callers, d <- t.callers ::
              t.callers[c].key == t.callers[d].key && t.callers[c].Critical() && t.callers[d].Critical() ==> c == d
    ensures forall c <- t.callers | t.callers[c].Waiting? ::
              Enabled(t, Enter(c)) <==> !TaskBusy(t, t.callers[c].key)
  {
    RunKeepsInv(INIT, steps, t);
    forall c, d | c in t.callers && d in t.callers &&
      t.callers[c].key == t.callers[d].key && t.callers[c].Critical() && t.callers[d].Critical()
      ensures c == d
    {
      AloneInTask(t, c, d);
    }
    forall c | c in t.callers && t.callers[c].Waiting?
      ensures Enabled(t, Enter(c)) <==> !TaskBusy(t, t.callers[c].key)
    {
      HeldUpByHolder(t, c);
    }
  }

  /** The registry is empty exactly when nobody is between register and deregister. */
  lemma RegistryDrainsWithCallers(steps: seq<Step>, t: System)
    requires Run(INIT, steps, t)
    ensures t.locks.registry == map[] <==> forall c <- t.callers :: t.callers[c].Done?
  {
    RegistryIsExact(steps, t);
    if t.locks.registry == map[] {
      forall c | c in t.callers ensures t.callers[c].Done? {
        assert InsideOf(t, t.callers[c].key) == {};
        assert c !in InsideOf(t, t.callers[c].key);
      }
    } else {
      var key :| key in t.locks.registry;
      var c :| c in InsideOf(t, key);
    }
  }

  function Rank(p: Phase): nat {
    match p {
      case Waiting(_, _) => 7
      case Entered(_, _) => 6
      case Reading(_, _) => 5
      case Copying(_, _) => 4
      case Caching(_, _, _) => 3
      case Leaving(_, _, _) => 2
      case Released(_, _, _) => 1
      case Done(_, _) => 0
    }
  }

  /** A step that caller `c` can take unless it waits behind another caller. */
  function NextStep(c: nat, p: Phase): Step {
    match p {
      case Waiting(_, _) => Enter(c)
      case Entered(_, _) => Check(c)
      case Reading(_, _) => ReadCache(c, Missing)
      case Copying(_, _) => Copy(c, CopyCrashed)
      case Caching(_, _, _) => WriteCache(c, false)
      case Leaving(_, _, _) => Release(c)
      case _ => Deregister(c)
    }
  }

  lemma NextStepEnabled(s: System, c: nat)
    requires Inv(s) && c in s.callers && s.callers[c].Inside()
    requires s.callers[c].Waiting? ==> Enabled(s, Enter(c))
    ensures Enabled(s, NextStep(c, s.callers[c]))
  {
    if s.callers[c].Released? {
      assert c in UsersOf(s.callers, s.callers[c].entry);
    }
  }

  lemma NextStepMoves(s: System, c: nat)
    requires WellFormed(s.locks) && c in s.callers && s.callers[c].Inside() && Enabled(s, NextStep(c, s.callers[c]))
    ensures
      var t := Apply(s, NextStep(c, s.callers[c]));
      && c in t.callers && t.callers == s.callers[c := t.callers[c]]
      && Rank(t.callers[c]) < Rank(s.callers[c]) && !t.callers[c].Waiting?
  {
  }

  lemma DriveStep(s: System, c: nat) returns (step: Step, t: System)
    requires Inv(s) && c in s.callers && s.callers[c].Inside()
    requires s.callers[c].Waiting? ==> Enabled(s, Enter(c))
    ensures Run(s, [step], t) && Inv(t)
    ensures c in t.callers && t.callers == s.callers[c := t.callers[c]]
    ensures Rank(t.callers[c]) < Rank(s.callers[c]) && !t.callers[c].Waiting?
  {
    hide Apply, Enabled, Rank;
    step := NextStep(c, s.callers[c]);
    NextStepEnabled(s, c);
    NextStepMoves(s, c);
    t := Apply(s, step);
    StepKeepsInv(s, step);
    assert Run(t, [], t);
  }

  lemma {:induction false} RunAppends(s: System, first: seq<Step>, t: System, second: seq<Step>, u: System)
    requires Run(s, first, t) && Run(t, second, u)
    ensures Run(s, first + second, u)
    decreases |first|
  {
    hide Apply, Enabled, WellFormed;
    if first == [] {
      assert first + second == second;
    } else {
      RunAppends(Apply(s, first[0]), first[1..], t, second, u);
      assert (first + second)[1..] == first[1..] + second;
    }
  }

  /** A caller that is not behind another one can always be driven to its end. */
  lemma {:induction false} Drive(s: System, c: nat) returns (steps: seq<Step>, t: System)
    requires Inv(s) && c in s.callers && s.callers[c].Inside()
    requires s.callers[c].Waiting? ==> Enabled(s, Enter(c))
    ensures Run(s, steps, t) && Inv(t)
    ensures c in t.callers && t.callers[c].Done? && t.callers == s.callers[c := t.callers[c]]
    decreases Rank(s.callers[c])
  {
    hide Inv, Run, Enabled;
    var step, next := DriveStep(s, c);
    if next.callers[c].Done? {
      steps, t := [step], next;
    } else {
      var rest;
      rest, t := Drive(next, c);
      RunAppends(s, [step], next, rest, t);
      steps := [step] + rest;
    }
  }

  ghost function Unfinished(s: System): set<nat> {
    set c | c in s.callers && s.callers[c].Inside()
  }

  /** Among unfinished callers one is not behind another. */
  lemma SomebodyCanMove(s: System) returns (c: nat)
    requires Inv(s) && Unfinished(s) != {}
    ensures c in Unfinished(s) && c in s.callers && s.callers[c].Inside()
    ensures s.callers[c].Waiting? ==> Enabled(s, Enter(c))
  {
    c :| c in Unfinished(s);
    var holder := s.locks.heap[s.callers[c].entry].holder;
    if holder.Some? {
      c := holder.value;
    }
  }

  lemma OneLessUnfinished(s: System, c: nat, t: System)
    requires c in Unfinished(s) && c in t.callers && t.callers[c].Done? && t.callers == s.callers[c := t.callers[c]]
    ensures Unfinished(t) == Unfinished(s) - {c} && |Unfinished(t)| < |Unfinished(s)| && t.callers.Keys == s.callers.Keys
  {
    assert Unfinished(t) == Unfinished(s) - {c};
  }

  lemma NoStepsNoChange(s: System)
    ensures Run(s, [], s)
  {
  }

  lemma NoCallersNoEntries(s: System)
    requires Inv(s) && Unfinished(s) == {}
    ensures s.locks.registry == map[]
  {
    forall k ensures k !in s.locks.registry {
      assert InsideOf(s, k) <= Unfinished(s);
      UsersAreInside(s, k);
    }
  }

  /** No reachable state is stuck: from it some schedule finishes every caller and empties the registry. */
  lemma {:induction false} EveryStateDrains(s: System) returns (steps: seq<Step>, t: System)
    requires Inv(s)
    ensures Run(s, steps, t) && t.locks.registry == map[]
    ensures t.callers.Keys == s.callers.Keys && Unfinished(t) == {}
    decreases |Unfinished(s)|
  {
    hide Inv, Enabled, Apply, Run, Unfinished;
    if Unfinished(s) == {} {
      steps, t := [], s;
      NoStepsNoChange(s);
      NoCallersNoEntries(s);
    } else {
      var c := SomebodyCanMove(s);
      var first, mid := Drive(s, c);
      OneLessUnfinished(s, c, mid);
      var second;
      second, t := EveryStateDrains(mid);
      RunAppends(s, first, mid, second, t);
      steps := first + second;
    }
  }

  // ---------------------------------------------------------------------
  // Across lifetimes, when the cache keeps its word
  // ---------------------------------------------------------------------

  /** The cache answers with what it was told, keeps every write, and no caller is lost before writing. */
  predicate CacheHonest(s: System, step: Step)
    requires Enabled(s, step)
  {
    match step {
      case ReadCache(c, read) =>
        read == if s.callers[c].key in s.cache then Cached(map["video" := Some(s.cache[s.callers[c].key])]) else Missing
      case WriteCache(_, ok) => ok
      case Abort(c) => !s.callers[c].Caching?
      case _ => true
    }
  }

  ghost predicate HonestRun(s: System, steps: seq<Step>, t: System)
    decreases |steps|
  {
    if steps == [] then t == s
    else WellFormed(s.locks) && Enabled(s, steps[0]) && CacheHonest(s, steps[0]) && HonestRun(Apply(s, steps[0]), steps[1..], t)
  }

  ghost predicate CopiedAs(s: System, key: Key, ref: ArtifactRef) {
    exists i | 0 <= i < |s.copies| :: s.copies[i].key == key && s.copies[i].ref == ref
  }

  ghost predicate BeingCached(s: System, key: Key) {
    exists c <- s.callers :: s.callers[c].Caching? && s.callers[c].key == key
  }

  ghost predicate SlotCopied(s: System, key: Key, entry: Entry) {
    VideoOf(entry.artifacts).Some? ==> CopiedAs(s, key, VideoOf(entry.artifacts).value)
  }

  /** Whatever a live entry shares was copied for its task. */
  ghost predicate SlotsCopied(s: System) {
    forall c <- s.callers | s.callers[c].Inside() && s.callers[c].entry in s.locks.heap ::
      SlotCopied(s, s.callers[c].key, s.locks.heap[s.callers[c].entry])
  }

  ghost predicate InvHonest(s: System) {
    && Inv(s)
    && (forall i, j | 0 <= i < j < |s.copies| :: s.copies[i].key != s.copies[j].key)
    && SlotsCopied(s)
    && (forall k <- s.cache :: CopiedAs(s, k, s.cache[k]))
    && (forall i | 0 <= i < |s.copies| :: s.copies[i].key in s.cache || BeingCached(s, s.copies[i].key))
    && (forall i | 0 <= i < |s.reports| :: CopiedAs(s, s.reports[i].key, s.reports[i].ref))
    && (forall c <- s.callers :: s.callers[c].Copying? ==> s.callers[c].key !in s.cache)
  }

  lemma CopiedAsMonotone(s: System, t: System)
    requires |s.copies| <= |t.copies| && t.copies[..|s.copies|] == s.copies
    ensures forall key, ref :: CopiedAs(s, key, ref) ==> CopiedAs(t, key, ref)
  {
    assert forall i | 0 <= i < |s.copies| :: t.copies[i] == s.copies[i];
  }

  /** A caller that copies is the first one ever to copy for its task. */
  lemma CopiesOnce(s: System, c: nat)
    requires InvHonest(s) && c in s.callers && s.callers[c].Copying?
    ensures forall i | 0 <= i < |s.copies| :: s.copies[i].key != s.callers[c].key
  {
    forall i | 0 <= i < |s.copies| && s.copies[i].key == s.callers[c].key
      ensures false
    {
      var d :| d in s.callers && s.callers[d].Caching? && s.callers[d].key == s.callers[c].key;
      AloneInTask(s, c, d);
    }
  }

  lemma HonestStepKeepsCopies(s: System, step: Step)
    requires InvHonest(s) && Enabled(s, step) && CacheHonest(s, step)
    ensures
      var t := Apply(s, step);
      && (forall i, j | 0 <= i < j < |t.copies| :: t.copies[i].key != t.copies[j].key)
      && (forall k <- t.cache :: CopiedAs(t, k, t.cache[k]))
      && (forall i | 0 <= i < |t.reports| :: CopiedAs(t, t.reports[i].key, t.reports[i].ref))
  {
    var t := Apply(s, step);
    CopiedAsMonotone(s, t);
    if step.Copy? {
      CopiesOnce(s, step.caller);
    }
    if step.Deregister? {
      assert forall i | 0 <= i < |s.reports| :: t.reports[i] == s.reports[i];
      assert SlotAgrees(VideoOf(s.locks.heap[s.callers[step.caller].entry].artifacts), s.callers[step.caller]);
    }
  }

  lemma HonestMoveKeepsSlots(s: System, c: nat, q: Phase, after: Entry, t: System)
    requires InvHonest(s) && Moved(s, c, q, after, t)
    requires |s.copies| <= |t.copies| && t.copies[..|s.copies|] == s.copies
    requires SlotCopied(t, q.key, after)
    ensures SlotsCopied(t)
  {
    CopiedAsMonotone(s, t);
    forall d <- t.callers | t.callers[d].Inside() && t.callers[d].entry in t.locks.heap
      ensures SlotCopied(t, t.callers[d].key, t.locks.heap[t.callers[d].entry])
    {
      assert d in s.callers && s.callers[d].Inside();
      if t.callers[d].entry != s.callers[c].entry {
        assert SlotCopied(s, s.callers[d].key, s.locks.heap[s.callers[d].entry]);
      }
    }
  }

  lemma HonestStepFillsSlot(s: System, step: Step, q: Phase, after: Entry)
    requires InvHonest(s) && Enabled(s, step) && CacheHonest(s, step) && !step.Register?
    requires (q, after) == Advance(s.callers[step.caller], s.locks.heap[s.callers[step.caller].entry], step)
    ensures SlotCopied(Apply(s, step), q.key, after)
  {
    var t, c := Apply(s, step), step.caller;
    CopiedAsMonotone(s, t);
    AdvanceIsLocal(s.callers[c], s.locks.heap[s.callers[c].entry], step);
    assert SlotCopied(s, s.callers[c].key, s.locks.heap[s.callers[c].entry]);
    if step.Copy? && step.result.Copied? {
      assert t.copies[|s.copies|] == Event(c, s.callers[c].entry, s.callers[c].key, step.result.ref);
    }
  }

  lemma HonestStepKeepsSlots(s: System, step: Step)
    requires InvHonest(s) && Enabled(s, step) && CacheHonest(s, step) && !step.Register?
    ensures SlotsCopied(Apply(s, step))
  {
    var c := step.caller;
    var entry := s.locks.heap[s.callers[c].entry];
    var (q, after) := Advance(s.callers[c], entry, step);
    AdvanceIsLocal(s.callers[c], entry, step);
    HonestStepFillsSlot(s, step, q, after);
    HonestMoveKeepsSlots(s, c, q, after, Apply(s, step));
  }

  /** A caller that is writing to the cache goes on doing so until the cache has it. */
  lemma KeyStaysCached(s: System, step: Step, key: Key)
    requires WellFormed(s.locks) && Enabled(s, step) && CacheHonest(s, step) && !step.Register?
    requires key in s.cache || BeingCached(s, key)
    ensures key in Apply(s, step).cache || BeingCached(Apply(s, step), key)
  {
    var t, c := Apply(s, step), step.caller;
    if key !in s.cache {
      var d :| d in s.callers && s.callers[d].Caching? && s.callers[d].key == key;
      assert d != c ==> t.callers[d] == s.callers[d];
    }
  }

  lemma HonestStepKeepsCached(s: System, step: Step)
    requires InvHonest(s) && Enabled(s, step) && CacheHonest(s, step) && !step.Register?
    ensures var t := Apply(s, step);
            forall i | 0 <= i < |t.copies| :: t.copies[i].key in t.cache || BeingCached(t, t.copies[i].key)
  {
    var t, c := Apply(s, step), step.caller;
    forall i | 0 <= i < |t.copies|
      ensures t.copies[i].key in t.cache || BeingCached(t, t.copies[i].key)
    {
      if i < |s.copies| {
        assert t.copies[i] == s.copies[i];
        KeyStaysCached(s, step, s.copies[i].key);
      } else {
        assert t.callers[c].Caching? && t.callers[c].key == t.copies[i].key;
      }
    }
  }

  lemma HonestStepKeepsUncached(s: System, step: Step)
    requires InvHonest(s) && Enabled(s, step) && CacheHonest(s, step) && !step.Register?
    ensures var t := Apply(s, step);
            forall d <- t.callers :: t.callers[d].Copying? ==> t.callers[d].key !in t.cache
  {
    var t, c := Apply(s, step), step.caller;
    forall d | d in t.callers && t.callers[d].Copying?
      ensures t.callers[d].key !in t.cache
    {
      if d != c && step.WriteCache? && t.callers[d].key == s.callers[c].key {
        AloneInTask(s, c, d);
      }
    }
  }

  lemma HonestRegisterKeepsSlots(s: System, step: Step)
    requires InvHonest(s) && Enabled(s, step) && step.Register?
    ensures SlotsCopied(Apply(s, step))
  {
    var t := Apply(s, step);
    CopiedAsMonotone(s, t);
    forall c <- t.callers | t.callers[c].Inside() && t.callers[c].entry in t.locks.heap
      ensures SlotCopied(t, t.callers[c].key, t.locks.heap[t.callers[c].entry])
    {
      if c == step.caller && step.key in s.locks.registry {
        UsersAreInside(s, step.key);
        var d :| d in InsideOf(s, step.key);
        assert SlotCopied(s, s.callers[d].key, s.locks.heap[s.callers[d].entry]);
      } else if c != step.caller {
        assert SlotCopied(s, s.callers[c].key, s.locks.heap[s.callers[c].entry]);
      }
    }
  }

  lemma HonestRegisterKeepsCached(s: System, step: Step)
    requires InvHonest(s) && Enabled(s, step) && step.Register?
    ensures var t := Apply(s, step);
            && (forall i | 0 <= i < |t.copies| :: t.copies[i].key in t.cache || BeingCached(t, t.copies[i].key))
            && (forall c <- t.callers :: t.callers[c].Copying? ==> t.callers[c].key !in t.cache)
  {
    var t := Apply(s, step);
    forall key | BeingCached(s, key) ensures BeingCached(t, key) {
      var d :| d in s.callers && s.callers[d].Caching? && s.callers[d].key == key;
      assert t.callers[d] == s.callers[d];
    }
  }

  lemma HonestStepKeepsInv(s: System, step: Step)
    requires InvHonest(s) && Enabled(s, step) && CacheHonest(s, step)
    ensures InvHonest(Apply(s, step))
  {
    StepKeepsInv(s, step);
    HonestStepKeepsCopies(s, step);
    if step.Register? {
      HonestRegisterKeepsSlots(s, step);
      HonestRegisterKeepsCached(s, step);
    } else {
      HonestStepKeepsSlots(s, step);
      HonestStepKeepsCached(s, step);
      HonestStepKeepsUncached(s, step);
    }
  }

  lemma {:induction false} HonestRunKeepsInv(s: System, steps: seq<Step>, t: System)
    requires InvHonest(s) && HonestRun(s, steps, t)
    ensures InvHonest(t)
    decreases |steps|
  {
    if steps == [] {
    } else {
      HonestStepKeepsInv(s, steps[0]);
      HonestRunKeepsInv(Apply(s, steps[0]), steps[1..], t);
    }
  }

  /**
   With a cache that keeps what it is told, a task's output is copied at most once over the whole
   run - across lock entries and cancellations - and everybody who reports it reports that copy.
   */
  lemma OneCopyPerTask(steps: seq<Step>, t: System)
    requires HonestRun(INIT, steps, t)
    ensures forall i, j | 0 <= i < |t.copies| && 0 <= j < |t.copies| ::
              t.copies[i].key == t.copies[j].key ==> i == j
    ensures forall i, j | 0 <= i < |t.copies| && 0 <= j < |t.reports| ::
              t.copies[i].key == t.reports[j].key ==> t.copies[i].ref == t.reports[j].ref
    ensures forall j | 0 <= j < |t.reports| :: CopiedAs(t, t.reports[j].key, t.reports[j].ref)
  {
    HonestRunKeepsInv(INIT, steps, t);
    assert forall j | 0 <= j < |t.reports| :: CopiedAs(t, t.reports[j].key, t.reports[j].ref);
  }

  // ---------------------------------------------------------------------
  // One uninterrupted pass, and the output record built from it
  // ---------------------------------------------------------------------

  /** What the body of the persistence function returns, given what each await produced. */
  function BodyOutcome(shared: Option<ArtifactRef>, read: CacheRead, result: CopyResult): Outcome {
    if shared.Some? then Persisted(shared.value)
    else if CachedVideo(read).Some? then Persisted(CachedVideo(read).value)
    else match result {
      case Copied(ref) => Persisted(ref)
      case Rejected(issue) => Failed(issue)
      case CopyCrashed => Failed(STORAGE_FAILED)
    }
  }

  /** What the body leaves in the shared slot: whatever it persisted, and nothing new if it failed. */
  function BodySlot(shared: Artifacts, outcome: Outcome): Artifacts {
    if VideoOf(shared).Some? || !outcome.Persisted? then shared
    else Some(map["video" := Some(outcome.ref)])
  }

  function BodySteps(c: nat, shared: Option<ArtifactRef>, read: CacheRead, result: CopyResult, ok: bool): seq<Step> {
    [Enter(c), Check(c)]
    + (if shared.Some? then [] else [ReadCache(c, read)])
    + (if shared.Some? || CachedVideo(read).Some? then [] else [Copy(c, result)])
    + (if shared.Some? || CachedVideo(read).Some? || !result.Copied? then [] else [WriteCache(c, ok)])
    + [Release(c)]
  }

  /** Phase and entry after several steps of one caller. */
  ghost predicate Advances(p: Phase, entry: Entry, steps: seq<Step>, q: Phase, after: Entry)
    decreases |steps|
  {
    if steps == [] then q == p && after == entry
    else Ready(p, entry, steps[0]) &&
         var (p', entry') := Advance(p, entry, steps[0]);
         Advances(p', entry', steps[1..], q, after)
  }

  /** The interleaved steps of a caller, taken in one go, are the sequential body. */
  lemma BodyStepsAgree(c: nat, key: Key, e: nat, entry: Entry, read: CacheRead, result: CopyResult, ok: bool)
    requires entry.holder == None
    ensures
      var shared := VideoOf(entry.artifacts);
      var outcome := BodyOutcome(shared, read, result);
      Advances(Waiting(key, e), entry, BodySteps(c, shared, read, result, ok),
               Released(key, e, outcome), entry.(artifacts := BodySlot(entry.artifacts, outcome)))
  {
    var shared := VideoOf(entry.artifacts);
    var outcome := BodyOutcome(shared, read, result);
    var steps := BodySteps(c, shared, read, result, ok);
    var held := entry.(holder := Some(c));
    var full := held.(artifacts := BodySlot(entry.artifacts, outcome));
    var q, after := Released(key, e, outcome), full.(holder := None);
    assert Advances(q, after, [], q, after);
    assert Advances(Leaving(key, e, outcome), full, [Release(c)], q, after);
    if shared.Some? {
      assert steps[1..][1..] == [Release(c)];
    } else if CachedVideo(read).Some? {
      assert steps[1..][1..][1..] == [Release(c)];
    } else if result.Copied? {
      var tail := steps[1..][1..][1..][1..];
      assert tail[1..] == [Release(c)];
      assert Advances(Caching(key, e, result.ref), full, tail, q, after);
      assert Advances(Copying(key, e), held, steps[1..][1..][1..], q, after);
    } else {
      var tail := steps[1..][1..][1..];
      assert tail[1..] == [Release(c)];
      assert Advances(Copying(key, e), held, tail, q, after);
    }
    if shared.None? {
      assert Advances(Reading(key, e), held, steps[1..][1..], q, after);
    }
    assert Advances(Entered(key, e), held, steps[1..], q, after);
  }

  datatype Persistence = NotApplicable | NotRequested | PersistedStatus | FailedStatus

  /** The persistence fields of a succeeded task's output record. */
  datatype Output = Output(sourceUrl: Option<string>, video: Option<ArtifactRef>, persistence: Persistence, issue: Option<Issue>)

  /** The record validator, for a record whose status is `succeeded` and that carries no provider error. */
  predicate ValidOutput(o: Output) {
    && o.sourceUrl.Some?
    && o.persistence != NotApplicable
    && (o.persistence == PersistedStatus ==> o.video.Some? && o.issue.None?)
    && (o.persistence == FailedStatus ==> o.issue.Some?)
    && (o.persistence == NotRequested ==> o.video.None? && o.issue.None?)
  }

  /** The record built from what the persistence function returned; `None` when it was not asked to persist. */
  function OutputOf(url: Option<string>, outcome: Option<Outcome>): Output {
    match outcome {
      case None => Output(url, None, NotRequested, None)
      case Some(Persisted(ref)) => Output(url, Some(ref), PersistedStatus, None)
      case Some(Failed(issue)) => Output(url, None, FailedStatus, Some(issue))
      case Some(Aborted) => Output(url, None, NotApplicable, None)
    }
  }

  /**
   The validator accepts exactly the records that a persistence outcome leads to, if there is a source
   address - and failed ones that carry an artifact besides their issue, which no outcome leads to.
   */
  lemma ValidExactlyWhenBuilt(o: Output)
    ensures ValidOutput(o) <==>
            o.sourceUrl.Some? &&
            ((exists outcome: Option<Outcome> :: outcome != Some(Aborted) && o == OutputOf(o.sourceUrl, outcome))
             || (o.persistence == FailedStatus && o.video.Some? && o.issue.Some?))
  {
    if ValidOutput(o) {
      match o.persistence {
        case NotRequested => assert o == OutputOf(o.sourceUrl, None);
        case PersistedStatus => assert o == OutputOf(o.sourceUrl, Some(Persisted(o.video.value)));
        case FailedStatus => assert o.video.None? ==> o == OutputOf(o.sourceUrl, Some(Failed(o.issue.value)));
        case NotApplicable => assert false;
      }
    }
  }

  /**
   What a caller reports, case by case: what another caller shared; else what the cache had; else the copy,
   a rejected copy's own issue, or for any other exception a retryable `storage_failed`. The record carries
   exactly the artifact or exactly the issue, and the slot shares the artifact.
   */
  lemma RecordTellsWhatHappened(url: Option<string>, artifacts: Artifacts, read: CacheRead, result: CopyResult)
    ensures
      var outcome := BodyOutcome(VideoOf(artifacts), read, result);
      var record := OutputOf(url, Some(outcome));
      var shared := artifacts.Some? && "video" in artifacts.value && artifacts.value["video"].Some?;
      var cached := read.Cached? && "video" in read.artifacts && read.artifacts["video"].Some?;
      && (shared ==> record.video == artifacts.value["video"] && BodySlot(artifacts, outcome) == artifacts)
      && (!shared && cached ==> record.video == read.artifacts["video"])
      && (!shared && !cached ==>
            && (result.Copied? ==> record.video == Some(result.ref))
            && (result.Rejected? ==> record.issue == Some(result.issue))
            && (result.CopyCrashed? ==> record.issue == Some(Issue("storage_failed", true))))
      && record.sourceUrl == url && (record.video.Some? <==> record.issue.None?)
      && record.persistence == (if record.video.Some? then PersistedStatus else FailedStatus)
      && VideoOf(BodySlot(artifacts, outcome)) == record.video
    ensures OutputOf(url, None) == Output(url, None, NotRequested, None)
  {
  }

  /** A lock entry object. Its identity is only spoken of in specifications. */
  class LockEntry {
    ghost const id: nat
    var users: nat
    var holder: Option<nat>
    var artifacts: Artifacts

    constructor (ghost id: nat)
      ensures this.id == id && users == 0 && holder == None && artifacts == None
    {
      this.id := id;
      users, holder, artifacts := 0, None, None;
    }
  }

  /** What the live entry of a task shares, if there is one. */
  function SharedBy(locks: Locks, key: Key): Artifacts
    requires WellFormed(locks)
  {
    if key in locks.registry then locks.heap[locks.registry[key]].artifacts else None
  }

  function AfterPass(locks: Locks, key: Key, outcome: Outcome): Locks
    requires WellFormed(locks)
  {
    var (r, e) := Registered(locks, key);
    var slot := BodySlot(r.heap[e].artifacts, outcome);
    Deregistered(r.(heap := r.heap[e := r.heap[e].(artifacts := slot)]), key, e)
  }

  class TaskArtifactPersistenceLocks {
    var entries: map<Key, LockEntry>
    ghost var made: map<nat, LockEntry>   // every entry ever made
    ghost var next: nat

    ghost predicate Valid()
      reads this, made.Values
    {
      && (forall i <- made :: i < next && made[i].id == i)
      && (forall k <- entries :: entries[k].id in made && made[entries[k].id] == entries[k])
      && (forall k <- entries, j <- entries :: entries[k] == entries[j] ==> k == j)
    }

    /** The registry and its objects as a value. */
    ghost function View(): (locks: Locks)
      reads this, made.Values
      requires Valid()
      ensures WellFormed(locks)
    {
      Locks(map k | k in entries :: entries[k].id, map i | i in made :: ViewOf(made[i]), next)
    }

    static ghost function ViewOf(entry: LockEntry): Entry
      reads entry
    {
      Entry(entry.users, entry.holder, entry.artifacts)
    }

    ghost predicate Owns(entry: LockEntry)
      reads this
    {
      entry.id in made && made[entry.id] == entry
    }

    constructor ()
      ensures Valid() && View() == INIT.locks && fresh(made.Values)
    {
      entries, made, next := map[], map[], 0;
    }

    /** Changing one entry object changes the view at its identity only. */
    twostate lemma EntryChanged(entry: LockEntry)
      requires old(Valid()) && Valid() && Owns(entry) && made == old(made) && next == old(next)
      requires forall i <- made | i != entry.id :: ViewOf(made[i]) == old(ViewOf(made[i]))
      ensures View().heap == old(View()).heap[entry.id := ViewOf(entry)]
      ensures entries == old(entries) ==> View().registry == old(View()).registry
    {
      hide WellFormed;
    }

    /** A new entry object extends the view at a fresh identity. */
    twostate lemma EntryMade(key: Key, new entry: LockEntry)
      requires old(Valid()) && Valid()
      requires entry.id == old(next) && made == old(made)[entry.id := entry] && entries == old(entries)[key := entry]
      requires forall i <- old(made) :: ViewOf(made[i]) == old(ViewOf(made[i]))
      ensures View().heap == old(View()).heap[entry.id := ViewOf(entry)]
      ensures View().registry == old(View()).registry[key := entry.id]
    {
      hide WellFormed;
    }

    /** Unregistering a task leaves every entry object alone. */
    twostate lemma KeyDropped(key: Key)
      requires old(Valid()) && made == old(made) && next == old(next) && entries == old(entries) - {key}
      requires forall i <- made :: unchanged(made[i])
      ensures Valid() && View() == old(View()).(registry := old(View()).registry - {key})
    {
      assert View().heap == old(View()).heap;
      assert View().registry == old(View()).registry - {key};
    }

    /** A fresh entry for a task that has none, with its first user. */
    method MakeEntry(key: Key) returns (entry: LockEntry)
      requires Valid() && key !in entries
      modifies this
      ensures Valid() && made == old(made)[old(next) := entry] && fresh(entry) && entry.id == old(next) && entry.users == 1 && entry.holder == None
      ensures View() == Locks(old(View()).registry[key := old(next)], old(View()).heap[old(next) := Entry(1, None, None)], old(next) + 1)
    {
      hide WellFormed;
      entry := new LockEntry(next);
      entry.users := 1;
      entries := entries[key := entry];
      made := made[next := entry];
      next := next + 1;
      EntryMade(key, entry);
    }

    method Register(key: Key) returns (entry: LockEntry)
      requires Valid()
      modifies this, made.Values
      ensures Valid() && fresh(made.Values - old(made.Values))
      ensures Owns(entry) && (View(), entry.id) == Registered(old(View()), key)
      ensures entry.users > 0 && entry.holder == if key in old(entries) then old(entries[key].holder) else None
    {
      hide WellFormed;
      if key in entries {
        entry := entries[key];
        entry.users := entry.users + 1;
        EntryChanged(entry);
      } else {
        entry := MakeEntry(key);
      }
    }

    method Deregister(key: Key, entry: LockEntry)
      requires Valid() && Owns(entry) && entry.users > 0
      modifies `entries, entry`users
      ensures Valid() && View() == Deregistered(old(View()), key, entry.id)
    {
      entry.users := entry.users - 1;
      EntryChanged(entry);
      label counted:
      if entry.users == 0 {
        entries := entries - {key};
        KeyDropped@counted(key);
      }
    }

    /** The body under the entry's lock, with what its awaits produced as arguments. */
    method PersistUnderLock(entry: LockEntry, read: CacheRead, result: CopyResult) returns (outcome: Outcome)
      requires Valid() && Owns(entry)
      modifies entry`artifacts
      ensures outcome == BodyOutcome(VideoOf(old(entry.artifacts)), read, result)
      ensures entry.artifacts == BodySlot(old(entry.artifacts), outcome)
    {
      if VideoOf(entry.artifacts).Some? {
        return Persisted(VideoOf(entry.artifacts).value);
      }
      var cached := CachedVideo(read);
      if cached.Some? {
        entry.artifacts := Some(map["video" := cached]);
        return Persisted(cached.value);
      }
      match result {
        case Copied(ref) =>
          entry.artifacts := Some(map["video" := Some(ref)]);
          outcome := Persisted(ref);
        case Rejected(issue) =>
          outcome := Failed(issue);
        case CopyCrashed =>
          outcome := Failed(STORAGE_FAILED);
      }
    }

    /** The body, with the entry's lock acquired before and released after it: only the shared slot is different then. */
    method PersistLocked(caller: nat, entry: LockEntry, read: CacheRead, result: CopyResult) returns (outcome: Outcome)
      requires Valid() && Owns(entry) && entry.holder == None
      modifies entry`artifacts, entry`holder
      ensures Valid() && outcome == BodyOutcome(VideoOf(old(entry.artifacts)), read, result)
      ensures entry.holder == None && entry.artifacts == BodySlot(old(entry.artifacts), outcome)
      ensures View() == old(View()).(heap := old(View()).heap[entry.id := ViewOf(entry)])
    {
      hide BodyOutcome, BodySlot, WellFormed;
      entry.holder := Some(caller);
      outcome := PersistUnderLock(entry, read, result);
      entry.holder := None;
      EntryChanged(entry);
    }

    /** The whole persistence function, run without interruption. */
    method PersistOutput(caller: nat, key: Key, url: Option<string>, requested: bool, read: CacheRead, result: CopyResult)
      returns (outcome: Option<Outcome>)
      requires Valid()
      requires key in entries ==> entries[key].holder == None
      modifies this, made.Values
      ensures Valid()
      ensures url.None? || !requested ==> outcome == None && View() == old(View())
      ensures url.Some? && requested ==>
        outcome == Some(BodyOutcome(VideoOf(SharedBy(old(View()), key)), read, result)) &&
        View() == AfterPass(old(View()), key, outcome.value)
    {
      hide BodyOutcome, BodySlot;
      if url.None? || !requested {
        return None;
      }
      var entry := Register(key);
      var o := PersistLocked(caller, entry, read, result);
      Deregister(key, entry);
      outcome := Some(o);
    }
  }

  /**
   An uninterrupted pass leaves every task's entry registered as before, with the counts and holders it
   had; only its own task's live entry may share something new, and only if it shared nothing before.
   The record built from its result is valid exactly when the provider task has an output address.
   */
  lemma PassIsContained(locks: Locks, key: Key, read: CacheRead, result: CopyResult, url: Option<string>)
    requires WellFormed(locks) && forall k <- locks.registry :: locks.heap[locks.registry[k]].users > 0
    ensures
      var outcome := BodyOutcome(VideoOf(SharedBy(locks, key)), read, result);
      var after := AfterPass(locks, key, outcome);
      && WellFormed(after) && after.registry == locks.registry
      && (forall k <- locks.registry :: k != key ==> after.heap[locks.registry[k]] == locks.heap[locks.registry[k]])
      && (key in locks.registry ==>
            after.heap[locks.registry[key]] ==
            locks.heap[locks.registry[key]].(artifacts := BodySlot(SharedBy(locks, key), outcome)))
      && (outcome.Persisted? && key in locks.registry ==> VideoOf(SharedBy(after, key)) == Some(outcome.ref))
      && (ValidOutput(OutputOf(url, Some(outcome))) <==> url.Some?)
      && (ValidOutput(OutputOf(url, None)) <==> url.Some?)
  {
    var outcome := BodyOutcome(VideoOf(SharedBy(locks, key)), read, result);
    assert AfterPass(locks, key, outcome).registry == locks.registry;
  }
}
