/**
 Reclamation of cache regions (manager.cpp, deref_scope.ipp): mutator threads enter and
 leave dereference scopes while the collector marks the pointers of the picked regions,
 flips the expected status, waits for the scopes of the old status to drain, writes back
 and frees.  Every instruction that touches shared state is a step of its own; in
 particular entering a scope is a load of expected_status and, later, a counter
 increment, and the wait adds up the per-core counters one core at a time.
 */
module GcEpoch {
  import opened Basics

  type Tid = nat
  type Ptr = nat
  type Region = nat

  datatype Status = V0 | V1

  function Flip(s: Status): (r: Status)
    ensures r != s
  {
    if s == V0 then V1 else V0
  }

  /** A mutator: outside, between the load and the increment, or inside a scope with the
      regions it has raw addresses into. */
  datatype Thread = Out | Entering(snapshot: Status) | In(status: Status, holds: set<Region>)

  /** Where a far-memory pointer leads; marked is its evacuation bit. */
  datatype Place = Absent | Present(region: Region, marked: bool)

  datatype Use = Free | Active | Used | From

  datatype Phase =
    | Idle
    | Marking(todo: set<Ptr>)
    | Waiting(old_: Status, core: nat, sum: int)
    | WritingBack(todo: set<Ptr>)

  datatype Core = Core(v0: int, v1: int) {
    function Of(s: Status): int {
      if s == V0 then v0 else v1
    }

    function Add(s: Status, d: int): (r: Core)
      ensures r.Of(s) == Of(s) + d && r.Of(Flip(s)) == Of(Flip(s))
    {
      if s == V0 then Core(v0 + d, v1) else Core(v0, v1 + d)
    }
  }

  datatype State = State(
    threads: map<Tid, Thread>,
    inflight: map<Tid, Region>,  // allocated by a thread, not yet published; counts in the region's ref_cnt
    cores: seq<Core>,            // num_threads_on_status of each core
    expected: Status,
    ptrs: map<Ptr, Place>,
    regions: map<Region, Use>,
    phase: Phase)

  datatype Step =
    | EnterLoad(t: Tid)
    | EnterCount(t: Tid, core: nat)
    | Exit(t: Tid, core: nat)
    | Deref(t: Tid, p: Ptr)
    | Allocate(t: Tid, r: Region)
    | Publish(t: Tid, p: Ptr)
    | Evict(p: Ptr)
    | Refill(r: Region)
    | Retire(r: Region)
    | Pick(rs: set<Region>)
    | Mark(p: Ptr)
    | FlipStatus
    | Collect
    | CollectDone
    | WriteBack(p: Ptr, dest: Option<Region>)
    | Reclaim

  predicate InScope(s: State, t: Tid) {
    t in s.threads && s.threads[t].In?
  }

  predicate Leads(s: State, p: Ptr, use: Use) {
    p in s.ptrs && s.ptrs[p].Present? && Is(s, s.ptrs[p].region, use)
  }

  predicate Is(s: State, r: Region, use: Use) {
    r in s.regions && s.regions[r] == use
  }

  predicate Enabled(s: State, step: Step) {
    match step
    case EnterLoad(t) => t in s.threads && s.threads[t].Out?
    case EnterCount(t, core) => t in s.threads && s.threads[t].Entering? && core < |s.cores|
    case Exit(t, core) => InScope(s, t) && core < |s.cores|
    // An unmarked present pointer is used as it is; an absent one is swapped in first and a
    // marked one migrated first, which are Allocate and Publish.
    case Deref(t, p) => InScope(s, t) && p in s.ptrs && s.ptrs[p].Present? && !s.ptrs[p].marked
    case Allocate(t, r) => t in s.threads && t !in s.inflight && Is(s, r, Active)
    case Publish(t, p) => t in s.inflight
    case Evict(p) => p in s.ptrs
    case Refill(r) => Is(s, r, Free)
    case Retire(r) => Is(s, r, Active)
    // Only full regions with a zero ref_cnt are picked.
    case Pick(rs) => s.phase.Idle? && rs != {} && (forall r :: r in rs ==> Is(s, r, Used) && r !in s.inflight.Values)
    case Mark(p) => s.phase.Marking? && p in s.phase.todo
    case FlipStatus => s.phase == Marking({})
    case Collect => s.phase.Waiting? && s.phase.core < |s.cores|
    case CollectDone => s.phase.Waiting? && s.phase.core == |s.cores|
    case WriteBack(p, dest) =>
      s.phase.WritingBack? && p in s.phase.todo && (dest.Some? ==> Is(s, dest.value, Active))
    case Reclaim => s.phase == WritingBack({})
  }

  /** An increment that comes after the status it has loaded is no longer expected. */
  predicate Stale(s: State, step: Step)
    requires Enabled(s, step)
  {
    step.EnterCount? && s.threads[step.t].snapshot != s.expected
  }

  function InFrom(s: State): set<Ptr> {
    set p | p in s.ptrs && Leads(s, p, From)
  }

  function Apply(s: State, step: Step): State
    requires Enabled(s, step)
  {
    match step
    case EnterLoad(t) => s.(threads := s.threads[t := Entering(s.expected)])
    case EnterCount(t, core) =>
      var status := s.threads[t].snapshot;
      s.(threads := s.threads[t := In(status, {})], cores := s.cores[core := s.cores[core].Add(status, 1)])
    case Exit(t, core) =>
      var status := s.threads[t].status;
      s.(threads := s.threads[t := Out], cores := s.cores[core := s.cores[core].Add(status, -1)])
    case Deref(t, p) =>
      s.(threads := s.threads[t := s.threads[t].(holds := s.threads[t].holds + {s.ptrs[p].region})])
    case Allocate(t, r) => s.(inflight := s.inflight[t := r])
    case Publish(t, p) =>
      s.(ptrs := s.ptrs[p := Present(s.inflight[t], false)], inflight := s.inflight - {t})
    case Evict(p) => s.(ptrs := s.ptrs[p := Absent])
    case Refill(r) => s.(regions := s.regions[r := Active])
    case Retire(r) => s.(regions := s.regions[r := Used])
    case Pick(rs) =>
      var picked := s.(regions := map r | r in s.regions :: if r in rs then From else s.regions[r]);
      picked.(phase := Marking(InFrom(picked)))
    case Mark(p) =>
      var next := s.(phase := Marking(s.phase.todo - {p}));
      if Leads(s, p, From) then next.(ptrs := s.ptrs[p := s.ptrs[p].(marked := true)]) else next
    case FlipStatus => s.(phase := Waiting(s.expected, 0, 0), expected := Flip(s.expected))
    case Collect =>
      var w := s.phase;
      s.(phase := Waiting(w.old_, w.core + 1, w.sum + s.cores[w.core].Of(w.old_)))
    case CollectDone =>
      if s.phase.sum == 0 then s.(phase := WritingBack(InFrom(s))) else s.(phase := Waiting(s.phase.old_, 0, 0))
    case WriteBack(p, dest) =>
      var next := s.(phase := WritingBack(s.phase.todo - {p}));
      if !(Leads(s, p, From) && s.ptrs[p].marked) then next
      else next.(ptrs := s.ptrs[p := if dest.Some? then Present(dest.value, false) else Absent])
    case Reclaim =>
      s.(regions := map r | r in s.regions :: if s.regions[r] == From then Free else s.regions[r], phase := Idle)
  }

  /** No live scope holds a raw address into a free region. */
  ghost predicate Safe(s: State) {
    forall t, r :: InScope(s, t) && r in s.threads[t].holds ==> !Is(s, r, Free)
  }

  // ----- Counters ------------------------------------------------------------------

  function Sum(cores: seq<Core>, st: Status, n: nat): int
    requires n <= |cores|
  {
    if n == 0 then 0 else Sum(cores, st, n - 1) + cores[n - 1].Of(st)
  }

  function Inside(threads: map<Tid, Thread>, st: Status): set<Tid> {
    set t | t in threads && threads[t].In? && threads[t].status == st
  }

  lemma {:induction false} SumUpdate(cores: seq<Core>, st: Status, c: nat, core: Core, n: nat)
    requires c < |cores| && n <= |cores|
    ensures Sum(cores[c := core], st, n) == Sum(cores, st, n) + if c < n then core.Of(st) - cores[c].Of(st) else 0
  {
    if n > 0 {
      SumUpdate(cores, st, c, core, n - 1);
    }
  }

  lemma InsideLeave(threads: map<Tid, Thread>, t: Tid, st: Status, other: Thread)
    requires t in threads && threads[t].In? && !other.In?
    ensures |Inside(threads[t := other], st)| == |Inside(threads, st)| - if threads[t].status == st then 1 else 0
  {
    if threads[t].status == st {
      assert Inside(threads[t := other], st) == Inside(threads, st) - {t};
    } else {
      assert Inside(threads[t := other], st) == Inside(threads, st);
    }
  }

  lemma InsideSame(threads: map<Tid, Thread>, t: Tid, st: Status, th: Thread)
    requires t in threads && (threads[t].In? <==> th.In?) && (th.In? ==> th.status == threads[t].status)
    ensures Inside(threads[t := th], st) == Inside(threads, st)
  {}

  // ----- The invariant ---------------------------------------------------------------

  /** The counters of all cores together count the threads in scope, although a thread may
      count itself in on one core and out on another. */
  ghost predicate Counted(s: State) {
    forall st :: Sum(s.cores, st, |s.cores|) == |Inside(s.threads, st)|
  }

  /** Scopes carry the expected status, except old ones while the collector waits. */
  ghost predicate Current(s: State) {
    && (s.phase.Waiting? ==> s.phase.old_ == Flip(s.expected))
    && forall t :: InScope(s, t) ==> s.threads[t].status == s.expected || s.phase.Waiting?
  }

  predicate Usable(s: State, r: Region) {
    r in s.regions && s.regions[r] != Free
  }

  predicate Filling(s: State, r: Region) {
    Is(s, r, Active) || Is(s, r, Used)
  }

  ghost predicate Placed(s: State) {
    && (forall p :: p in s.ptrs && s.ptrs[p].Present? ==> Usable(s, s.ptrs[p].region))
    && (forall t :: t in s.inflight ==> Filling(s, s.inflight[t]))
  }

  /** Pointers into the picked regions are marked or about to be, and after the wait they
      are about to be redirected. */
  ghost predicate Evacuating(s: State) {
    && (s.phase.Idle? ==> forall r :: !Is(s, r, From))
    && forall p :: Leads(s, p, From) ==>
         && (s.ptrs[p].marked || (s.phase.Marking? && p in s.phase.todo))
         && (s.phase.WritingBack? ==> p in s.phase.todo)
  }

  /** Whoever still holds an address into a picked region is being waited for. */
  ghost predicate Held(s: State) {
    forall t, r :: InScope(s, t) && r in s.threads[t].holds ==>
      && r in s.regions && !Is(s, r, Free)
      && (Is(s, r, From) ==> s.phase.Marking? || (s.phase.Waiting? && s.threads[t].status == s.phase.old_))
  }

  /** The partial sum is never below what the cores read so far hold now: old counters
      only go down. */
  ghost predicate Collecting(s: State) {
    s.phase.Waiting? ==> s.phase.core <= |s.cores| && s.phase.sum >= Sum(s.cores, s.phase.old_, s.phase.core)
  }

  ghost predicate Inv(s: State) {
    Counted(s) && Current(s) && Placed(s) && Evacuating(s) && Held(s) && Collecting(s)
  }

  lemma KeepsCounted(s: State, step: Step)
    requires Counted(s) && Enabled(s, step)
    ensures Counted(Apply(s, step))
  {
    var s' := Apply(s, step);
    forall st ensures Sum(s'.cores, st, |s'.cores|) == |Inside(s'.threads, st)| {
      assert Sum(s.cores, st, |s.cores|) == |Inside(s.threads, st)|;
      match step
      case EnterLoad(t) =>
        hide Sum, Inside;
        InsideSame(s.threads, t, st, Entering(s.expected));
      case EnterCount(t, core) => CountedIn(s, t, core, st);
      case Exit(t, core) => CountedOut(s, t, core, st);
      case Deref(t, p) =>
        hide Sum, Inside;
        InsideSame(s.threads, t, st, s'.threads[t]);
      case _ => hide Sum, Inside;
    }
  }

  lemma CountedIn(s: State, t: nat, core: nat, st: Status)
    requires Enabled(s, EnterCount(t, core)) && Sum(s.cores, st, |s.cores|) == |Inside(s.threads, st)|
    ensures var s' := Apply(s, EnterCount(t, core)); Sum(s'.cores, st, |s'.cores|) == |Inside(s'.threads, st)|
  {
    hide Sum, Inside;
    var s', snapshot := Apply(s, EnterCount(t, core)), s.threads[t].snapshot;
    SumUpdate(s.cores, st, core, s.cores[core].Add(snapshot, 1), |s.cores|);
    InsideLeave(s'.threads, t, st, s.threads[t]);
    assert s'.threads[t := s.threads[t]] == s.threads;
  }

  lemma CountedOut(s: State, t: nat, core: nat, st: Status)
    requires Enabled(s, Exit(t, core)) && Sum(s.cores, st, |s.cores|) == |Inside(s.threads, st)|
    ensures var s' := Apply(s, Exit(t, core)); Sum(s'.cores, st, |s'.cores|) == |Inside(s'.threads, st)|
  {
    hide Sum, Inside;
    SumUpdate(s.cores, st, core, s.cores[core].Add(s.threads[t].status, -1), |s.cores|);
    InsideLeave(s.threads, t, st, Out);
  }

  lemma KeepsCurrent(s: State, step: Step)
    requires Inv(s) && Enabled(s, step) && !Stale(s, step)
    ensures Current(Apply(s, step))
  {
    hide Sum;
    if step.CollectDone? && s.phase.sum == 0 {
      Drained(s);
    }
  }

  /** A zero sum over all cores, read one after the other, means that nobody is left. */
  lemma Drained(s: State)
    requires Inv(s) && s.phase.Waiting? && s.phase.core == |s.cores| && s.phase.sum == 0
    ensures forall t :: InScope(s, t) ==> s.threads[t].status == s.expected
  {
    var old_ := s.phase.old_;
    assert |Inside(s.threads, old_)| == 0;
    forall t | InScope(s, t) ensures s.threads[t].status == s.expected {
      assert t !in Inside(s.threads, old_);
    }
  }

  lemma KeepsPlaced(s: State, step: Step)
    requires Inv(s) && Enabled(s, step)
    ensures Placed(Apply(s, step))
  {
    hide InFrom, Filling, Counted, Current, Held, Collecting;
    KeepsFilling(s, step);
    var s' := Apply(s, step);
    forall p | p in s'.ptrs && s'.ptrs[p].Present? ensures Usable(s', s'.ptrs[p].region) {
      assert step.Reclaim? ==> !Leads(s, p, From);
    }
  }

  lemma KeepsFilling(s: State, step: Step)
    requires Inv(s) && Enabled(s, step)
    ensures var s' := Apply(s, step); forall t :: t in s'.inflight ==> Filling(s', s'.inflight[t])
    ensures step.Publish? ==> Usable(s, s.inflight[step.t])
  {
    hide InFrom;
    var s' := Apply(s, step);
    forall t | t in s'.inflight ensures Filling(s', s'.inflight[t]) {
      assert step.Allocate? || s'.inflight[t] == s.inflight[t];
    }
  }

  lemma KeepsEvacuating(s: State, step: Step)
    requires Inv(s) && Enabled(s, step)
    ensures Evacuating(Apply(s, step))
  {
    hide Counted, Current, Held, Collecting;
    KeepsUnpicked(s, step);
    var s' := Apply(s, step);
    forall p | Leads(s', p, From)
      ensures s'.ptrs[p].marked || (s'.phase.Marking? && p in s'.phase.todo)
      ensures s'.phase.WritingBack? ==> p in s'.phase.todo
    {
      match step
      case Pick(rs) => assert p in InFrom(s'.(phase := s.phase));
      case CollectDone => assert p in InFrom(s);
      case Reclaim => assert false;
      case _ => assert Leads(s, p, From);
    }
  }

  lemma KeepsUnpicked(s: State, step: Step)
    requires Evacuating(s) && Enabled(s, step)
    ensures var s' := Apply(s, step); s'.phase.Idle? ==> forall r :: !Is(s', r, From)
  {
    hide InFrom, Leads;
    var s' := Apply(s, step);
    forall r | s'.phase.Idle? ensures !Is(s', r, From) {
      assert step.Reclaim? || !Is(s, r, From);
    }
  }

  lemma KeepsHeld(s: State, step: Step)
    requires Inv(s) && Enabled(s, step) && !Stale(s, step)
    ensures Held(Apply(s, step))
  {
    hide Counted, Collecting, InFrom;
    if step.CollectDone? && s.phase.sum == 0 {
      Drained(s);
    }
  }

  lemma KeepsCollecting(s: State, step: Step)
    requires Inv(s) && Enabled(s, step) && !Stale(s, step)
    ensures Collecting(Apply(s, step))
  {
    if s.phase.Waiting? {
      var old_, n := s.phase.old_, s.phase.core;
      match step
      case EnterCount(t, core) =>
        SumUpdate(s.cores, old_, core, s.cores[core].Add(s.threads[t].snapshot, 1), n);
      case Exit(t, core) =>
        SumUpdate(s.cores, old_, core, s.cores[core].Add(s.threads[t].status, -1), n);
      case _ =>
    }
  }

  lemma StepKeepsInv(s: State, step: Step)
    requires Inv(s) && Enabled(s, step) && !Stale(s, step)
    ensures Inv(Apply(s, step))
  {
    KeepsCounted(s, step);
    KeepsCurrent(s, step);
    KeepsPlaced(s, step);
    KeepsEvacuating(s, step);
    KeepsHeld(s, step);
    KeepsCollecting(s, step);
  }

  // ----- Runs ------------------------------------------------------------------------

  predicate Runs(s: State, run: seq<Step>)
    decreases |run|
  {
    run == [] || (Enabled(s, run[0]) && Runs(Apply(s, run[0]), run[1..]))
  }

  function Exec(s: State, run: seq<Step>): State
    requires Runs(s, run)
    decreases |run|
  {
    if run == [] then s else Exec(Apply(s, run[0]), run[1..])
  }

  /** A run in which every thread counts itself in before the status it loaded changes. */
  predicate Prompt(s: State, run: seq<Step>)
    requires Runs(s, run)
    decreases |run|
  {
    run == [] || (!Stale(s, run[0]) && Prompt(Apply(s, run[0]), run[1..]))
  }

  /** Nothing allocated, nobody in scope, no collection. */
  ghost predicate Init(s: State) {
    && s.phase.Idle? && s.inflight == map[] && s.ptrs == map[]
    && (forall t :: t in s.threads ==> s.threads[t].Out?)
    && (forall i :: 0 <= i < |s.cores| ==> s.cores[i] == Core(0, 0))
    && (forall r :: r in s.regions ==> s.regions[r] != From)
  }

  lemma {:induction false} ZeroSum(cores: seq<Core>, st: Status, n: nat)
    requires n <= |cores| && forall i :: 0 <= i < |cores| ==> cores[i] == Core(0, 0)
    ensures Sum(cores, st, n) == 0
  {
    if n > 0 {
      ZeroSum(cores, st, n - 1);
    }
  }

  lemma InitInv(s: State)
    requires Init(s)
    ensures Inv(s)
  {
    forall st ensures Sum(s.cores, st, |s.cores|) == |Inside(s.threads, st)| {
      ZeroSum(s.cores, st, |s.cores|);
      assert Inside(s.threads, st) == {};
    }
  }

  lemma {:induction false} RunKeepsInv(s: State, run: seq<Step>)
    requires Inv(s) && Runs(s, run) && Prompt(s, run)
    ensures Inv(Exec(s, run))
    decreases |run|
  {
    if run != [] {
      StepKeepsInv(s, run[0]);
      RunKeepsInv(Apply(s, run[0]), run[1..]);
    }
  }

  /** Every interleaving of scopes with collections is safe at every point, as long as
      no thread counts itself in under a status that has changed since it was loaded. */
  lemma PromptRunsAreSafe(s: State, run: seq<Step>)
    requires Init(s) && Runs(s, run) && Prompt(s, run)
    ensures Safe(Exec(s, run))
  {
    InitInv(s);
    RunKeepsInv(s, run);
  }

  /** When the picked regions go to the free list, no scope holds an address into them
      and no pointer leads there. */
  lemma NothingLeftAtReclaim(s: State, run: seq<Step>, t: Tid, r: Region, p: Ptr)
    requires Init(s) && Runs(s, run) && Prompt(s, run)
    requires Enabled(Exec(s, run), Reclaim) && Is(Exec(s, run), r, From)
    ensures var now := Exec(s, run);
            && (InScope(now, t) ==> r !in now.threads[t].holds)
            && (p in now.ptrs && now.ptrs[p].Present? ==> now.ptrs[p].region != r)
  {
    InitInv(s);
    RunKeepsInv(s, run);
    var now := Exec(s, run);
    assert !Leads(now, p, From);
  }

  // ----- What a stale entry does ------------------------------------------------------

  lemma {:induction false} RunsOneMore(s: State, run: seq<Step>, step: Step)
    requires Runs(s, run) && Enabled(Exec(s, run), step)
    ensures Runs(s, run + [step]) && Exec(s, run + [step]) == Apply(Exec(s, run), step)
    ensures Prompt(s, run) && !Stale(Exec(s, run), step) ==> Prompt(s, run + [step])
    decreases |run|
  {
    var more := run + [step];
    if run == [] {
      assert more[1..] == [];
    } else {
      assert more[1..] == run[1..] + [step];
      RunsOneMore(Apply(s, run[0]), run[1..], step);
    }
  }

  /** now can be reached from s by a run of which every step is prompt. */
  ghost predicate Reaches(s: State, now: State) {
    exists run :: Runs(s, run) && Prompt(s, run) && Exec(s, run) == now
  }

  lemma ReachesItself(s: State)
    ensures Reaches(s, s)
  {
    assert Runs(s, []) && Prompt(s, []) && Exec(s, []) == s;
  }

  lemma ReachesNext(s: State, now: State, step: Step)
    requires Reaches(s, now) && Enabled(now, step) && !Stale(now, step)
    ensures Reaches(s, Apply(now, step))
  {
    var run :| Runs(s, run) && Prompt(s, run) && Exec(s, run) == now;
    RunsOneMore(s, run, step);
  }

  /** Allocations in flight can be published. */
  lemma {:induction false} Settle(s: State, now: State) returns (next: State)
    requires Reaches(s, now)
    ensures Reaches(s, next) && next == now.(ptrs := next.ptrs, inflight := map[])
    decreases |now.inflight|
  {
    if t :| t in now.inflight {
      ReachesNext(s, now, Publish(t, 0));
      assert |now.inflight - {t}| < |now.inflight| by {
        assert (now.inflight - {t}).Keys == now.inflight.Keys - {t};
      }
      next := Settle(s, Apply(now, Publish(t, 0)));
    } else {
      assert now.inflight == map[];
      next := now;
    }
  }

  function Others(s: State, t: Tid): set<Tid> {
    set u | u in s.threads && s.threads[u].In? && u != t
  }

  /** Everybody but t can leave. */
  lemma {:induction false} LeaveBut(s: State, now: State, t: Tid) returns (next: State)
    requires Reaches(s, now) && Counted(now) && |now.cores| > 0 && InScope(now, t)
    ensures Reaches(s, next) && Counted(next) && |next.cores| == |now.cores| && Others(next, t) == {}
    ensures next == now.(threads := next.threads, cores := next.cores)
    ensures InScope(next, t) && next.threads[t] == now.threads[t]
    decreases |Others(now, t)|
  {
    if u :| u in Others(now, t) {
      var step := Exit(u, 0);
      ReachesNext(s, now, step);
      KeepsCounted(now, step);
      assert Others(Apply(now, step), t) == Others(now, t) - {u};
      next := LeaveBut(s, Apply(now, step), t);
    } else {
      next := now;
    }
  }

  lemma {:induction false} MarkAll(s: State, now: State) returns (next: State)
    requires Reaches(s, now) && now.phase.Marking?
    ensures Reaches(s, next) && next == now.(ptrs := next.ptrs, phase := Marking({}))
    decreases |now.phase.todo|
  {
    if p :| p in now.phase.todo {
      ReachesNext(s, now, Mark(p));
      next := MarkAll(s, Apply(now, Mark(p)));
    } else {
      assert now.phase.todo == {};
      next := now;
    }
  }

  lemma {:induction false} CollectAll(s: State, now: State) returns (next: State)
    requires Reaches(s, now) && now.phase.Waiting? && now.phase.core <= |now.cores|
    requires now.phase.sum == Sum(now.cores, now.phase.old_, now.phase.core)
    ensures Reaches(s, next)
    ensures next == now.(phase := Waiting(now.phase.old_, |now.cores|, Sum(now.cores, now.phase.old_, |now.cores|)))
    decreases |now.cores| - now.phase.core
  {
    if now.phase.core < |now.cores| {
      ReachesNext(s, now, Collect);
      next := CollectAll(s, Apply(now, Collect));
    } else {
      next := now;
    }
  }

  lemma {:induction false} WriteBackAll(s: State, now: State) returns (next: State)
    requires Reaches(s, now) && now.phase.WritingBack?
    ensures Reaches(s, next) && next == now.(ptrs := next.ptrs, phase := WritingBack({}))
    decreases |now.phase.todo|
  {
    if p :| p in now.phase.todo {
      ReachesNext(s, now, WriteBack(p, None));
      next := WriteBackAll(s, Apply(now, WriteBack(p, None)));
    } else {
      assert now.phase.todo == {};
      next := now;
    }
  }

  /** Between two collections: everything but the statuses of the scopes is in order, and
      there is a region to allocate from. */
  ghost predicate Quiescent(s: State) {
    && s.phase.Idle? && Counted(s) && Placed(s) && Evacuating(s) && Held(s) && |s.cores| > 0
    && exists r :: Is(s, r, Active)
  }

  /** A scope whose status is not the expected one will not be waited for: it can get hold
      of an address that a collection then frees under it. */
  lemma StaleScopeLoses(s: State, t: Tid) returns (bad: State)
    requires Quiescent(s) && InScope(s, t) && s.threads[t].status != s.expected
    ensures Reaches(s, bad) && !Safe(bad)
  {
    ReachesItself(s);
    var r :| Is(s, r, Active);
    var now := Settle(s, s);
    now := Acquire(s, now, t, r);
    now := LeaveBut(s, now, t);
    now := PickAndMark(s, now, r);
    assert Inside(now.threads, now.expected) <= Others(now, t);
    now := FlipAndDrain(s, now);
    now := WriteBackAll(s, now);
    ReachesNext(s, now, Reclaim);
    bad := Apply(now, Reclaim);
    assert InScope(bad, t) && r in bad.threads[t].holds && Is(bad, r, Free);
  }

  /** t allocates an object in r and dereferences it; r is full then. */
  lemma Acquire(s: State, now: State, t: Tid, r: Region) returns (next: State)
    requires Reaches(s, now) && Counted(now) && InScope(now, t) && now.inflight == map[] && Is(now, r, Active)
    ensures Reaches(s, next) && Counted(next) && InScope(next, t) && r in next.threads[t].holds
    ensures next.threads[t].status == now.threads[t].status && Is(next, r, Used)
    ensures next == now.(threads := next.threads, ptrs := next.ptrs, regions := next.regions)
  {
    ReachesNext(s, now, Allocate(t, r));
    KeepsCounted(now, Allocate(t, r));
    var a := Apply(now, Allocate(t, r));
    ReachesNext(s, a, Publish(t, 0));
    KeepsCounted(a, Publish(t, 0));
    var b := Apply(a, Publish(t, 0));
    assert b.inflight == map[];
    ReachesNext(s, b, Deref(t, 0));
    KeepsCounted(b, Deref(t, 0));
    var c := Apply(b, Deref(t, 0));
    ReachesNext(s, c, Retire(r));
    KeepsCounted(c, Retire(r));
    next := Apply(c, Retire(r));
  }

  lemma PickAndMark(s: State, now: State, r: Region) returns (next: State)
    requires Reaches(s, now) && now.phase.Idle? && now.inflight == map[] && Is(now, r, Used)
    ensures Reaches(s, next) && Is(next, r, From) && forall a :: Is(now, a, Active) ==> Is(next, a, Active)
    ensures next == now.(ptrs := next.ptrs, regions := next.regions, phase := Marking({}))
  {
    ReachesNext(s, now, Pick({r}));
    var picked := Apply(now, Pick({r}));
    assert Is(picked, r, From);
    next := MarkAll(s, picked);
  }

  lemma FlipAndDrain(s: State, now: State) returns (next: State)
    requires Reaches(s, now) && now.phase == Marking({}) && Counted(now) && Inside(now.threads, now.expected) == {}
    ensures Reaches(s, next) && next.phase.WritingBack?
    ensures next == now.(phase := next.phase, expected := Flip(now.expected))
  {
    ReachesNext(s, now, FlipStatus);
    var waiting := CollectAll(s, Apply(now, FlipStatus));
    ReachesNext(s, waiting, CollectDone);
    next := Apply(waiting, CollectDone);
  }

  /** Between collections, every prompt continuation is safe if and only if no scope is
      stale. */
  lemma SafeExactlyWithoutStaleScopes(s: State)
    requires Quiescent(s)
    ensures (forall now :: Reaches(s, now) ==> Safe(now)) <==>
            (forall t :: InScope(s, t) ==> s.threads[t].status == s.expected)
  {
    if forall t :: InScope(s, t) ==> s.threads[t].status == s.expected {
      forall now | Reaches(s, now) ensures Safe(now) {
        var run :| Runs(s, run) && Prompt(s, run) && Exec(s, run) == now;
        RunKeepsInv(s, run);
      }
    } else {
      var t :| InScope(s, t) && s.threads[t].status != s.expected;
      var bad := StaleScopeLoses(s, t);
    }
  }

  /** The one step a prompt run excludes leads to such a scope: a thread loads the status,
      a whole collection passes, and only then it counts itself in. */
  lemma StaleEntryHappens(s: State, t: Tid, r: Region) returns (now: State, late: State)
    requires Init(s) && t in s.threads && |s.cores| > 0 && Is(s, r, Used) && exists a :: Is(s, a, Active)
    ensures Reaches(s, now) && Enabled(now, EnterCount(t, 0)) && late == Apply(now, EnterCount(t, 0))
    ensures Quiescent(late) && InScope(late, t) && late.threads[t].status != late.expected
  {
    var a :| Is(s, a, Active);
    InitInv(s);
    ReachesItself(s);
    ReachesNext(s, s, EnterLoad(t));
    KeepsCounted(s, EnterLoad(t));
    now := PickAndMark(s, Apply(s, EnterLoad(t)), r);
    assert Is(now, a, Active);
    assert Inside(now.threads, now.expected) == {};
    now := FlipAndDrain(s, now);
    now := WriteBackAll(s, now);
    ReachesNext(s, now, Reclaim);
    now := Apply(now, Reclaim);
    assert Is(now, a, Active);
    late := Apply(now, EnterCount(t, 0));
    StaysQuiescent(s, now, t);
  }

  lemma StaysQuiescent(s: State, now: State, t: Tid)
    requires Inv(s) && Reaches(s, now) && now.phase.Idle? && Enabled(now, EnterCount(t, 0))
    requires exists a :: Is(now, a, Active)
    ensures Quiescent(Apply(now, EnterCount(t, 0)))
  {
    var run :| Runs(s, run) && Prompt(s, run) && Exec(s, run) == now;
    RunKeepsInv(s, run);
    var step := EnterCount(t, 0);
    KeepsCounted(now, step);
    KeepsPlaced(now, step);
    KeepsEvacuating(now, step);
    var a :| Is(now, a, Active);
    assert Is(Apply(now, step), a, Active);
  }

  lemma {:induction false} RunsThen(s: State, a: seq<Step>, b: seq<Step>)
    requires Runs(s, a) && Runs(Exec(s, a), b)
    ensures Runs(s, a + b) && Exec(s, a + b) == Exec(Exec(s, a), b)
    decreases |a|
  {
    if a == [] {
      assert a + b == b;
    } else {
      assert (a + b)[1..] == a[1..] + b;
      RunsThen(Apply(s, a[0]), a[1..], b);
    }
  }

  /** Without that restriction the protocol is not safe: one thread, one core and two
      regions suffice. */
  lemma UnsafeRun() returns (s: State, run: seq<Step>)
    ensures Init(s) && Runs(s, run) && !Safe(Exec(s, run))
  {
    s := State(map[0 := Out], map[], [Core(0, 0)], V0, map[], map[0 := Active, 1 := Used], Idle);
    assert Is(s, 0, Active);
    var now, late := StaleEntryHappens(s, 0, 1);
    var first :| Runs(s, first) && Prompt(s, first) && Exec(s, first) == now;
    RunsOneMore(s, first, EnterCount(0, 0));
    var bad := StaleScopeLoses(late, 0);
    var rest :| Runs(late, rest) && Prompt(late, rest) && Exec(late, rest) == bad;
    run := first + [EnterCount(0, 0)] + rest;
    RunsThen(s, first + [EnterCount(0, 0)], rest);
  }

  /** When a pointer that still leads into a picked region is written back, it is marked, and leads
      to the new copy if there is one and nowhere otherwise. */
  lemma WriteBackRedirects(s: State, p: Ptr, dest: Option<Region>)
    requires Inv(s) && Enabled(s, WriteBack(p, dest)) && Leads(s, p, From)
    ensures var s' := Apply(s, WriteBack(p, dest));
            && s'.ptrs == s.ptrs[p := if dest.Some? then Present(dest.value, false) else Absent]
            && s'.phase == WritingBack(s.phase.todo - {p})
  {
    hide Counted, Current, Held, Collecting, Placed;
  }

  // ----- Collections end ----------------------------------------------------------------

  function Scopes(s: State): set<Tid> {
    set u | u in s.threads && s.threads[u].In?
  }

  lemma {:induction false} AllLeave(s: State, now: State) returns (next: State)
    requires Reaches(s, now) && Counted(now) && |now.cores| > 0
    ensures Reaches(s, next) && Counted(next) && |next.cores| == |now.cores| && Scopes(next) == {}
    ensures next == now.(threads := next.threads, cores := next.cores)
    decreases |Scopes(now)|
  {
    if u :| u in Scopes(now) {
      var step := Exit(u, 0);
      ReachesNext(s, now, step);
      KeepsCounted(now, step);
      assert Scopes(Apply(now, step)) == Scopes(now) - {u};
      next := AllLeave(s, Apply(now, step));
    } else {
      next := now;
    }
  }

  lemma {:induction false} PassEnds(s: State, now: State) returns (next: State)
    requires Reaches(s, now) && now.phase.Waiting? && now.phase.core <= |now.cores|
    ensures Reaches(s, next) && next == now.(phase := next.phase)
    ensures next.phase.WritingBack? || next.phase == Waiting(now.phase.old_, 0, 0)
    decreases |now.cores| - now.phase.core
  {
    if now.phase.core < |now.cores| {
      ReachesNext(s, now, Collect);
      next := PassEnds(s, Apply(now, Collect));
    } else {
      ReachesNext(s, now, CollectDone);
      next := Apply(now, CollectDone);
    }
  }

  /** The wait is over after one more pass when all scopes have been left. */
  lemma WaitEnds(s: State, now: State) returns (next: State)
    requires Reaches(s, now) && now.phase.Waiting? && now.phase.core <= |now.cores| && Counted(now) && Scopes(now) == {}
    ensures Reaches(s, next) && next == now.(phase := next.phase) && next.phase.WritingBack?
  {
    next := PassEnds(s, now);
    if next.phase.Waiting? {
      var old_ := next.phase.old_;
      next := CollectAll(s, next);
      assert Inside(next.threads, old_) <= Scopes(next);
      ReachesNext(s, next, CollectDone);
      next := Apply(next, CollectDone);
    }
  }

  lemma CountedSame(a: State, b: State)
    requires Counted(a) && b.threads == a.threads && b.cores == a.cores
    ensures Counted(b)
  {}

  /** Wherever a collection is, it can be carried through by the collector's own steps once the
      scopes are left, and then exactly the picked regions have become free. */
  lemma CollectionEnds(s: State) returns (done: State)
    requires Inv(s) && |s.cores| > 0 && !s.phase.Idle?
    ensures Reaches(s, done) && done.phase.Idle? && done.regions.Keys == s.regions.Keys
    ensures forall r :: r in s.regions ==> done.regions[r] == if s.regions[r] == From then Free else s.regions[r]
  {
    hide Runs, Exec, Reaches, Counted, Placed, Evacuating, Held, Prompt;
    ReachesItself(s);
    var left := AllLeave(s, s);
    var now := left;
    if now.phase.Marking? {
      now := MarkAll(s, now);
      ReachesNext(s, now, FlipStatus);
      now := Apply(now, FlipStatus);
    }
    if now.phase.Waiting? {
      CountedSame(left, now);
      now := WaitEnds(s, now);
    }
    now := WriteBackAll(s, now);
    ReachesNext(s, now, Reclaim);
    done := Apply(now, Reclaim);
  }
}
