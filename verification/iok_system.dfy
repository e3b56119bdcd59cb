/**
 The scheduler, the simple policy and the admission of clients together (sched.c, simple.c,
 dp_clients.c, control.c): which process holds which core, and when a process below its
 guarantee can be left without one.
 */
module IokSystem {
  import opened Basics
  import opened IokMachine
  import opened IokSched
  import opened IokRuns
  import P = IokSimple

  // ----- What the scheduler's operations leave alone ---------------------------------------------

  ghost predicate ThreadEvolves(s: State, s': State, x: set<nat>, t: Tid)
    requires t in s.threads && t in s'.threads
  {
    var a, b := s.threads[t], s'.threads[t];
    && b.proc == a.proc && (b.core == a.core || b.core in x)
    && (b.active && !a.active ==> a.proc in s.procs && s.procs[a.proc].attached)
  }

  /** Threads stay with their processes, move only to cores in x, and become active only for
      attached processes; attachments stay, and so do releases. */
  ghost predicate Evolves(s: State, s': State, x: set<nat>) {
    && s'.threads.Keys == s.threads.Keys && s'.procs.Keys == s.procs.Keys && |s'.cores| == |s.cores|
    && s.released <= s'.released
    && (forall t :: t in s.threads ==> ThreadEvolves(s, s', x, t))
    && (forall p :: p in s.procs ==> s'.procs[p].attached == s.procs[p].attached)
  }

  lemma EvolvesTrans(a: State, b: State, c: State, x: set<nat>)
    requires Evolves(a, b, x) && Evolves(b, c, x)
    ensures Evolves(a, c, x)
  {
    forall t | t in a.threads ensures ThreadEvolves(a, c, x, t) {
      assert ThreadEvolves(a, b, x, t) && ThreadEvolves(b, c, x, t);
    }
  }

  lemma EvolvesMore(a: State, b: State, x: set<nat>, y: set<nat>)
    requires Evolves(a, b, x) && x <= y
    ensures Evolves(a, b, y)
  {
    forall t | t in a.threads ensures ThreadEvolves(a, b, y, t) {
      assert ThreadEvolves(a, b, x, t);
    }
  }

  lemma StaysSame(s: State)
    ensures Evolves(s, s, {})
  {}

  lemma CountEvolves(s: State, p: Pid)
    ensures Evolves(s, Get(s, p), {}) && Evolves(s, Put(s, p), {})
  {}

  lemma EnableEvolves(s: State, t: Tid, core: nat)
    requires t in s.threads && s.threads[t].proc in s.procs && s.procs[s.threads[t].proc].attached
    ensures Evolves(s, Enable(s, t, core), {core})
  {}

  lemma DisableEvolves(s: State, t: Tid)
    ensures Evolves(s, Disable(s, t), {})
  {}

  lemma PollEvolves(s: State, t: Tid)
    ensures Evolves(s, Poll(s, t), {})
  {}

  lemma UnpollEvolves(s: State, t: Tid)
    ensures Evolves(s, Unpoll(s, t), {})
  {
    if UnpollReady(s, t) {
      UnlistEvolves(s, t);
      var u := Unlisted(s, t);
      hide Evolves, Unlisted, UnpollReady;
      CountEvolves(u, s.threads[t].proc);
      EvolvesTrans(s, u, Put(u, s.threads[t].proc), {});
    }
  }

  lemma UnlistEvolves(s: State, t: Tid)
    requires UnpollReady(s, t)
    ensures Evolves(s, Unlisted(s, t), {}) && t in s.threads
  {}

  lemma StartEvolves(s: State, t: Tid, core: nat)
    requires t in s.threads && s.threads[t].proc in s.procs && s.procs[s.threads[t].proc].attached
    ensures Evolves(s, Start(s, t, core), {core}) && Start(s, t, core).released == s.released
  {
    var g := Get(s, s.threads[t].proc);
    CountEvolves(s, s.threads[t].proc);
    var e := Enable(g, t, core);
    EnableEvolves(g, t, core);
    PollEvolves(e, t);
    hide Evolves, Enable;
    EvolvesMore(s, g, {}, {core});
    EvolvesTrans(s, g, e, {core});
    EvolvesMore(e, Poll(e, t), {}, {core});
    EvolvesTrans(s, e, Poll(e, t), {core});
    EnableReleases(g, t, core);
  }

  lemma EnableReleases(s: State, t: Tid, core: nat)
    ensures Enable(s, t, core).released == s.released
  {}

  lemma DropEvolves(s: State, t: Tid, txEmpty: bool)
    ensures Evolves(s, Drop(s, t, txEmpty), {})
  {
    if t in s.threads {
      hide Evolves, Disable, Unpoll, Put;
      var d := Disable(s, t);
      var u := if txEmpty then Unpoll(d, t) else d;
      DisableEvolves(s, t);
      if txEmpty {
        UnpollEvolves(d, t);
        EvolvesTrans(s, d, u, {});
      }
      CountEvolves(u, s.threads[t].proc);
      EvolvesTrans(s, u, Put(u, s.threads[t].proc), {});
    } else {
      StaysSame(s);
    }
  }

  lemma SwitchEvolves(s: State, core: nat, x: Core, out: Option<Tid>, txEmpty: bool)
    requires core < |s.cores|
    ensures Evolves(s, Switch(s, core, x, out, txEmpty), {})
  {
    var s1 := SetCore(s, core, x);
    assert Evolves(s, s1, {});
    hide Evolves, Drop;
    if out.Some? {
      DropEvolves(s1, out.value, txEmpty);
      EvolvesTrans(s, s1, Drop(s1, out.value, txEmpty), {});
    }
  }

  lemma RunOnEvolves(m: Machine, s: State, p: Pid, core: nat, txEmpty: bool)
    requires Inv(s, {}, 0, 0) && p in s.procs && s.procs[p].attached
    ensures Evolves(s, RunOn(m, s, p, core, txEmpty), {core})
  {
    hide Inv, Switch, Start, Pick;
    if MayRun(m, s, p, core) {
      var t := Pick(m, s, p, core);
      PickIdle(m, s, p, core);
      IdleThread(s, p, t);
      StartEvolves(s, t, core);
      var b := Start(s, t, core);
      assert |b.cores| == |s.cores|;
      hide Evolves;
      SwitchEvolves(b, core, Given(b.cores[core], Some(t)), Evicted(b.cores[core]), txEmpty);
      EvolvesMore(b, RunOn(m, s, p, core, txEmpty), {}, {core});
      EvolvesTrans(s, b, RunOn(m, s, p, core, txEmpty), {core});
    } else {
      StaysSame(s);
      EvolvesMore(s, s, {}, {core});
    }
  }

  // ----- Released processes stay off the cores ------------------------------------------------------

  ghost predicate Gone(s: State) {
    forall p :: p in s.released ==> p in s.procs && !s.procs[p].attached && Quiet(s, p)
  }

  ghost predicate Quiet(s: State, p: Pid) {
    forall t :: t in s.threads && s.threads[t].proc == p ==> !s.threads[t].active
  }

  /** At most one process is released on the way, and it has no reference left. */
  ghost predicate OneRelease(s: State, s': State) {
    || s'.released == s.released
    || exists p :: s'.released == s.released + [p] && p in s'.procs && s'.procs[p].refs == 0
  }

  lemma GoneKept(s: State, s': State, loose: set<Tid>, credit: nat, who: Pid, x: set<nat>)
    requires Gone(s) && Evolves(s, s', x) && OneRelease(s, s') && Inv(s', loose, credit, who)
    ensures Gone(s')
  {
    forall p | p in s'.released ensures p in s'.procs && !s'.procs[p].attached && Quiet(s', p) {
      if p in s.released {
        assert Quiet(s, p);
        forall t | t in s'.threads && s'.threads[t].proc == p ensures !s'.threads[t].active {
          assert ThreadEvolves(s, s', x, t);
        }
      } else {
        Unused(s', loose, credit, who, p);
      }
    }
  }

  lemma Unused(s: State, loose: set<Tid>, credit: nat, who: Pid, p: Pid)
    requires Inv(s, loose, credit, who) && p in s.procs && s.procs[p].refs == 0
    ensures !s.procs[p].attached && Quiet(s, p)
  {
    assert RefOk(s, credit, p, who);
    forall t | t in s.threads && s.threads[t].proc == p ensures !s.threads[t].active {
      assert t !in ActiveOf(s, p);
    }
  }

  lemma PutReleases(s: State, p: Pid)
    ensures OneRelease(s, Put(s, p))
  {}

  lemma UnpollReleases(s: State, t: Tid)
    ensures OneRelease(s, Unpoll(s, t))
    ensures var s' := Unpoll(s, t);
            t in s.threads && s.threads[t].proc in s'.procs ==>
              s'.procs[s.threads[t].proc].refs == 0 || s'.released == s.released
  {}

  lemma DropReleases(s: State, t: Tid, txEmpty: bool)
    requires t in s.threads && s.threads[t].active && Inv(s, {t}, 0, s.threads[t].proc)
    ensures OneRelease(s, Drop(s, t, txEmpty))
  {
    hide Inv, Disable, Unpoll, DisableReady, OneRelease, Put;
    DisableInv(s, t);
    DisableFrame(s, t);
    DisableNoRelease(s, t);
    var d, q := Disable(s, t), s.threads[t].proc;
    var u := if txEmpty then Unpoll(d, t) else d;
    if txEmpty && d.threads[t].tsIdx.Some? {
      UnpollInv(d, {}, 1, t);
      UnpollFrame(d, t);
      Credited(u, {}, q);
      UnpollReleases(d, t);
    } else if txEmpty {
      NotPolled(d, t);
    }
    PutReleases(u, q);
    SameStart(s, u, Put(u, q));
  }

  lemma DisableNoRelease(s: State, t: Tid)
    ensures Disable(s, t).released == s.released
  {}

  lemma SameStart(s: State, u: State, s': State)
    requires u.released == s.released && OneRelease(u, s')
    ensures OneRelease(s, s')
  {}

  lemma SwitchReleases(s: State, core: nat, x: Core, out: Option<Tid>, txEmpty: bool)
    requires Displaces(s, core, x, out)
    ensures OneRelease(s, Switch(s, core, x, out, txEmpty))
  {
    hide Inv, Drop;
    var s1 := SetCore(s, core, x);
    if out.Some? {
      DropReleases(s1, out.value, txEmpty);
      hide OneRelease;
      SameStart(s, s1, Switch(s, core, x, out, txEmpty));
    }
  }

  lemma RunOnGone(m: Machine, s: State, p: Pid, core: nat, txEmpty: bool)
    requires Inv(s, {}, 0, 0) && Gone(s) && p in s.procs && s.procs[p].attached
    ensures Gone(RunOn(m, s, p, core, txEmpty)) && Inv(RunOn(m, s, p, core, txEmpty), {}, 0, 0)
    ensures Evolves(s, RunOn(m, s, p, core, txEmpty), {core})
  {
    hide Inv, Gone, Evolves, Switch, Start, Pick, Given, Boarding, Displaces, OneRelease, Gentle;
    AttachedCounts(s, p);
    RunOnKeeps(m, s, p, core, txEmpty);
    RunOnEvolves(m, s, p, core, txEmpty);
    if MayRun(m, s, p, core) {
      var t := Pick(m, s, p, core);
      PickIdle(m, s, p, core);
      IdleThread(s, p, t);
      var b := Start(s, t, core);
      StartKeeps(s, t, core);
      StartEvolves(s, t, core);
      GiveCore(b, core, Some(t));
      SwitchReleases(b, core, Given(b.cores[core], Some(t)), Evicted(b.cores[core]), txEmpty);
      SameStart(s, b, RunOn(m, s, p, core, txEmpty));
      GoneKept(s, RunOn(m, s, p, core, txEmpty), {}, 0, 0, {core});
    }
  }

  lemma FinishGone(s: State, core: nat, txEmpty: bool)
    requires Inv(s, {}, 0, 0) && Gone(s) && core < |s.cores| && s.cores[core].wait
    ensures Gone(Finish(s, core, txEmpty)) && Evolves(s, Finish(s, core, txEmpty), {})
  {
    hide Inv, Gone, Evolves, Switch, Displaces, OneRelease, Gentle;
    var c := s.cores[core];
    FinishKeeps(s, core, txEmpty);
    var out := if c.pending then c.cur else None;
    if c.pending {
      Promote(s, core);
    } else {
      StopWaiting(s, core);
    }
    SwitchReleases(s, core, RunDone(c), out, txEmpty);
    SwitchEvolves(s, core, RunDone(c), out, txEmpty);
    GoneKept(s, Finish(s, core, txEmpty), {}, 0, 0, {});
  }

  lemma ToIdleGone(s: State, core: nat, rewake: bool, txEmpty: bool)
    requires Inv(s, {}, 0, 0) && Gone(s) && core < |s.cores| && !s.cores[core].wait
    ensures Gone(ToIdle(s, core, rewake, txEmpty)) && Evolves(s, ToIdle(s, core, rewake, txEmpty), {})
  {
    hide Inv, Gone, Evolves, Switch, Displaces, OneRelease, Gentle;
    var c := s.cores[core];
    ToIdleKeeps(s, core, rewake, txEmpty);
    var out := if rewake then None else c.cur;
    if c.cur.Some? && rewake {
      Rewake(s, core);
    } else {
      Vacate(s, core);
    }
    SwitchReleases(s, core, Idled(c, rewake), out, txEmpty);
    SwitchEvolves(s, core, Idled(c, rewake), out, txEmpty);
    GoneKept(s, ToIdle(s, core, rewake, txEmpty), {}, 0, 0, {});
  }

  lemma PollOneGone(s: State, core: nat, runDone: bool, idle: bool, rewake: bool, txEmpty: bool)
    requires Inv(s, {}, 0, 0) && Gone(s)
    ensures var s' := PollOne(s, core, runDone, idle, rewake, txEmpty);
            Inv(s', {}, 0, 0) && Gone(s') && Evolves(s, s', {})
  {
    hide Inv, Gone, Evolves, Finish, ToIdle, Gentle;
    PollOneKeeps(s, core, runDone, idle, rewake, txEmpty);
    StaysSame(s);
    if core < |s.cores| {
      var s1 := if s.cores[core].wait && runDone then Finish(s, core, txEmpty) else s;
      if s.cores[core].wait && runDone {
        FinishKeeps(s, core, txEmpty);
        FinishGone(s, core, txEmpty);
      }
      if !s1.cores[core].wait && !s1.cores[core].idle && idle {
        ToIdleGone(s1, core, rewake, txEmpty);
        EvolvesTrans(s, s1, ToIdle(s1, core, rewake, txEmpty), {});
      }
    }
  }

  lemma HoldEvolves(s: State, p: Pid)
    ensures Evolves(s, Hold(s, p), {}) && Hold(s, p).released == s.released && Hold(s, p).cores == s.cores
  {}

  lemma DrainGone(s: State, x: Pull)
    requires Inv(s, {}, 0, 0) && Gone(s)
    ensures var s' := Drained(s, x); Inv(s', {}, 0, 0) && Gone(s') && Evolves(s, s', {}) && s'.cores == s.cores
  {
    hide Inv, Gone, Evolves, Unpoll, OneRelease, Gentle;
    DrainKeeps(s, x);
    StaysSame(s);
    if IsPolled(s, x.t) && x.emptied && !s.threads[x.t].active {
      UnpollEvolves(s, x.t);
      UnpollReleases(s, x.t);
      UnpollCores(s, x.t);
      GoneKept(s, Unpoll(s, x.t), {}, 0, 0, {});
    }
  }

  lemma UnpollCores(s: State, t: Tid)
    ensures Unpoll(s, t).cores == s.cores
  {}

  lemma {:induction false} DrainAllGone(s: State, batch: seq<Pull>)
    requires Inv(s, {}, 0, 0) && Gone(s)
    ensures var s' := DrainAll(s, batch); Inv(s', {}, 0, 0) && Gone(s') && Evolves(s, s', {}) && s'.cores == s.cores
    decreases |batch|
  {
    hide Inv, Gone, Evolves, Drained;
    if batch == [] {
      StaysSame(s);
    } else {
      DrainGone(s, batch[0]);
      DrainAllGone(Drained(s, batch[0]), batch[1..]);
      EvolvesTrans(s, Drained(s, batch[0]), DrainAll(s, batch), {});
    }
  }

  lemma {:induction false} HoldAllGone(s: State, ps: seq<Pid>)
    requires Inv(s, {}, 0, 0) && Gone(s)
    ensures var s' := HoldAll(s, ps); Inv(s', {}, 0, 0) && Gone(s') && Evolves(s, s', {}) && s'.cores == s.cores
    decreases |ps|
  {
    hide Inv, Gone, Evolves, Hold, Gentle;
    if ps == [] {
      StaysSame(s);
    } else {
      var h := Hold(s, ps[0]);
      HoldKeeps(s, ps[0]);
      HoldEvolves(s, ps[0]);
      GoneKept(s, h, {}, 0, 0, {});
      HoldAllGone(h, ps[1..]);
      EvolvesTrans(s, h, HoldAll(s, ps), {});
    }
  }

  lemma TransmitGone(s: State, batch: seq<Pull>)
    requires Inv(s, {}, 0, 0) && Gone(s)
    ensures var s' := Transmitted(s, batch); Inv(s', {}, 0, 0) && Gone(s') && Evolves(s, s', {}) && s'.cores == s.cores
  {
    hide Inv, Gone, Evolves, DrainAll, HoldAll, PacketsOf;
    var d := DrainAll(s, batch);
    DrainAllGone(s, batch);
    HoldAllGone(d, PacketsOf(s, batch));
    EvolvesTrans(s, d, Transmitted(s, batch), {});
  }

  lemma CompleteGone(s: State, p: Pid)
    requires Inv(s, {}, 0, 0) && Gone(s)
    ensures var s' := Completed(s, p); Inv(s', {}, 0, 0) && Gone(s') && Evolves(s, s', {}) && s'.cores == s.cores
  {
    StaysSame(s);
    if p in s.procs && s.procs[p].holds > 0 {
      var x := s.procs[p].(holds := s.procs[p].holds - 1);
      var mid := s.(procs := s.procs[p := x]);
      assert Evolves(s, mid, {});
      hide Inv, Gone, Evolves, OneRelease, Gentle, Put;
      ReturnKeeps(s, p, x);
      CountEvolves(mid, p);
      EvolvesTrans(s, mid, Put(mid, p), {});
      PutReleases(mid, p);
      PutFrame(mid, p);
      SameStart(s, mid, Put(mid, p));
      GoneKept(s, Put(mid, p), {}, 0, 0, {});
    }
  }

  // ----- Who holds a core -----------------------------------------------------------------------------

  /** The thread a core was last given to. */
  function Last(c: Core): Option<Tid> {
    if c.pending then c.next else c.cur
  }

  /** The process that has the core, attached or not. */
  function Holder(s: State, c: nat): Option<Pid> {
    if c < |s.cores| && Last(s.cores[c]).Some? && Last(s.cores[c]).value in s.threads
    then Some(s.threads[Last(s.cores[c]).value].proc) else None
  }

  predicate IsAttached(s: State, p: Pid) {
    p in s.procs && s.procs[p].attached
  }

  function AttachedHolder(s: State, c: nat): Option<Pid> {
    if Holder(s, c).Some? && IsAttached(s, Holder(s, c).value) then Holder(s, c) else None
  }

  /** The policy knows about the core: it has the holder as owner unless that has been detached,
      and the core is marked idle exactly if nobody holds it. */
  ghost predicate Agrees(m: Machine, s: State, q: P.Policy, c: nat) {
    && c < |q.owner| && q.owner[c] == AttachedHolder(s, c)
    && (c in q.idle <==> c in m.allowed && Holder(s, c).None?)
  }

  lemma HolderKept(s: State, s': State, x: set<nat>, c: nat)
    requires Evolves(s, s', x) && c < |s.cores| && Last(s'.cores[c]) == Last(s.cores[c])
    ensures Holder(s', c) == Holder(s, c) && AttachedHolder(s', c) == AttachedHolder(s, c)
  {
    hide Last;
    if Last(s.cores[c]).Some? && Last(s.cores[c]).value in s.threads {
      assert ThreadEvolves(s, s', x, Last(s.cores[c]).value);
    }
  }

  lemma HolderSeated(s: State, c: nat)
    requires Inv(s, {}, 0, 0) && Holder(s, c).Some?
    ensures var t := Last(s.cores[c]).value;
            && c < |s.cores| && t in s.threads && s.threads[t].active && s.threads[t].core == c
            && s.threads[t].proc == Holder(s, c).value && Holder(s, c).value in s.procs
  {
    assert CoreOk(s, c);
    assert ThreadOk(s, {}, Last(s.cores[c]).value);
  }

  /** A round of polling keeps a core's holder, or reports the core as idle. */
  predicate Reports(c: Core, runDone: bool, idle: bool, rewake: bool) {
    Polled(c, runDone, idle, rewake).idle && !c.idle
  }

  lemma PolledLast(s: State, core: nat, runDone: bool, idle: bool, rewake: bool)
    requires CoreOk(s, core)
    ensures var c := s.cores[core];
            Last(Polled(c, runDone, idle, rewake)) == if Reports(c, runDone, idle, rewake) then None else Last(c)
  {}

  lemma GivenLast(s: State, core: nat, t: Tid)
    requires CoreOk(s, core)
    ensures Last(Given(s.cores[core], Some(t))) == Some(t)
  {}

  // ----- The system -----------------------------------------------------------------------------------

  /** A process the control plane has admitted and not yet destroyed. */
  datatype Client = Client(p: Pid, guaranteed: nat)

  /** clients and nrGuaranteed are clients[] and nr_guaranteed of control.c. */
  datatype System = System(sched: State, policy: P.Policy, clients: seq<Client>, nrGuaranteed: nat)

  function Pids(cs: seq<Client>): (r: seq<Pid>)
    ensures |r| == |cs| && forall i :: 0 <= i < |cs| ==> r[i] == cs[i].p
  {
    seq(|cs|, i requires 0 <= i < |cs| => cs[i].p)
  }

  function Total(cs: seq<Client>): nat {
    if cs == [] then 0 else cs[0].guaranteed + Total(cs[1..])
  }

  /** Idle threads are listed, latest first, with the core they last had. */
  function RecentOf(s: State, p: Pid): (r: seq<nat>)
    ensures p !in s.procs ==> r == []
    ensures p in s.procs ==> |r| == |s.procs[p].idles|
    ensures p in s.procs ==> forall i :: 0 <= i < |r| && s.procs[p].idles[i] in s.threads ==>
              r[i] == s.threads[s.procs[p].idles[i]].core
  {
    if p !in s.procs then []
    else
      var idles := s.procs[p].idles;
      seq(|idles|, i requires 0 <= i < |idles| => if idles[i] in s.threads then s.threads[idles[i]].core else |s.cores|)
  }

  /** The processes with a thread to spare. */
  function Free(s: State): set<Pid> {
    set p | p in s.procs && s.procs[p].idles != []
  }

  ghost predicate Sized(m: Machine, sys: System) {
    && P.Bootable(m) && |sys.sched.cores| == |m.siblings| && |sys.policy.owner| == |m.siblings|
  }

  /** Threads have been on allowed cores only. */
  ghost predicate Homes(m: Machine, s: State) {
    forall t :: t in s.threads && s.threads[t].core < |s.cores| ==> s.threads[t].core in m.allowed
  }

  /** The policy has exactly the attached processes. */
  ghost predicate SameProcs(s: State, q: P.Policy) {
    forall p :: p in q.procs <==> IsAttached(s, p)
  }

  /** Reported cores wait for the policy with nobody on them, and it knows about the others. */
  ghost predicate CoreKnown(m: Machine, s: State, q: P.Policy, reported: set<nat>, c: nat) {
    if c in reported then c in m.allowed && Holder(s, c).None? else Agrees(m, s, q, c)
  }

  ghost predicate IsClient(cs: seq<Client>, p: Pid) {
    exists i :: 0 <= i < |cs| && cs[i].p == p
  }

  /** The guarantees of all clients are reserved and fit the allowed cores; attached processes are
      clients, and so are all that have not been released. */
  ghost predicate ClientsOk(m: Machine, sys: System) {
    && NoDups(Pids(sys.clients))
    && sys.nrGuaranteed == Total(sys.clients) <= P.InAllowed(m.allowed, |m.siblings|)
    && (forall p :: p in sys.policy.procs ==> Client(p, sys.policy.procs[p].guaranteed) in sys.clients)
    && (forall p :: p in sys.sched.procs && p !in sys.sched.released ==> IsClient(sys.clients, p))
  }

  ghost predicate SysInv(m: Machine, sys: System, reported: set<nat>) {
    && Sized(m, sys) && Inv(sys.sched, {}, 0, 0) && P.Inv(m, sys.policy) && Gone(sys.sched)
    && Homes(m, sys.sched) && SameProcs(sys.sched, sys.policy) && ClientsOk(m, sys)
    && (forall c :: 0 <= c < |m.siblings| ==> CoreKnown(m, sys.sched, sys.policy, reported, c))
  }

  /** The policy's processes and their guarantees stay. */
  ghost predicate SameGuarantees(q: P.Policy, q': P.Policy) {
    && q'.procs.Keys == q.procs.Keys
    && forall p :: p in q.procs ==> q'.procs[p].guaranteed == q.procs[p].guaranteed
  }

  ghost predicate CoreSame(sys: System, sys': System, c: nat) {
    && c < |sys.sched.cores| && c < |sys'.sched.cores| && c < |sys.policy.owner| && c < |sys'.policy.owner|
    && Last(sys'.sched.cores[c]) == Last(sys.sched.cores[c])
    && sys'.policy.owner[c] == sys.policy.owner[c] && (c in sys'.policy.idle <==> c in sys.policy.idle)
  }

  /** What no client joins or leaves in. */
  lemma Relink(m: Machine, sys: System, sys': System, x: set<nat>, reported: set<nat>, reported': set<nat>)
    requires SysInv(m, sys, reported) && Sized(m, sys') && x <= m.allowed
    requires Evolves(sys.sched, sys'.sched, x) && Inv(sys'.sched, {}, 0, 0) && Gone(sys'.sched)
    requires P.Inv(m, sys'.policy) && SameGuarantees(sys.policy, sys'.policy)
    requires sys'.clients == sys.clients && sys'.nrGuaranteed == sys.nrGuaranteed
    requires forall c :: 0 <= c < |m.siblings| ==>
               || CoreKnown(m, sys'.sched, sys'.policy, reported', c)
               || (CoreSame(sys, sys', c) && (c in reported <==> c in reported'))
    ensures SysInv(m, sys', reported')
  {
    hide Inv, P.Inv, Gone, Holder, AttachedHolder, Total, Pids, P.InAllowed;
    forall t | t in sys'.sched.threads && sys'.sched.threads[t].core < |sys'.sched.cores|
      ensures sys'.sched.threads[t].core in m.allowed
    {
      assert ThreadEvolves(sys.sched, sys'.sched, x, t);
    }
    forall p ensures p in sys'.policy.procs <==> IsAttached(sys'.sched, p) {
      assert p in sys.policy.procs <==> IsAttached(sys.sched, p);
    }
    forall c | 0 <= c < |m.siblings| ensures CoreKnown(m, sys'.sched, sys'.policy, reported', c) {
      if CoreSame(sys, sys', c) && (c in reported <==> c in reported') {
        HolderKept(sys.sched, sys'.sched, x, c);
        assert CoreKnown(m, sys.sched, sys.policy, reported, c);
      }
    }
  }

  // ----- Events ----------------------------------------------------------------------------------------

  /** The kernel module's answers for a core, and whether its thread has packets to send. */
  datatype Answer = Answer(runDone: bool, idle: bool, rewake: bool, txEmpty: bool)

  datatype Event =
    | Admit(p: Pid, guaranteed: nat)
    | Join(p: Pid, tids: seq<Tid>, max: nat)
    | Leave(p: Pid)
    | Destroy(p: Pid)
    | CoreNeeded(p: Pid, txEmpty: bool)
    | Congested(p: Pid)
    | Relieved(p: Pid)
    | PollRound(answers: seq<Answer>)
    | Send(batch: seq<Pull>)
    | Sent(p: Pid)

  /** The check of control_create_proc. */
  predicate Admissible(m: Machine, sys: System, p: Pid, guaranteed: nat) {
    && p !in sys.sched.procs && p !in Pids(sys.clients)
    && guaranteed + sys.nrGuaranteed <= P.InAllowed(m.allowed, |m.siblings|)
  }

  function Admitted(sys: System, p: Pid, guaranteed: nat): System {
    sys.(clients := sys.clients + [Client(p, guaranteed)], nrGuaranteed := sys.nrGuaranteed + guaranteed)
  }

  function IndexOf(cs: seq<Client>, p: Pid): (i: nat)
    ensures i <= |cs| && (i < |cs| ==> cs[i].p == p) && (i == |cs| ==> forall j :: 0 <= j < |cs| ==> cs[j].p != p)
  {
    if cs == [] || cs[0].p == p then 0 else 1 + IndexOf(cs[1..], p)
  }

  /** dp_clients_add_client, for an admitted process. */
  function Joined(sys: System, p: Pid, tids: seq<Tid>, max: nat): System {
    var i := IndexOf(sys.clients, p);
    if i == |sys.clients| || !CanAttach(sys.sched, p, tids) then sys
    else sys.(sched := Attached(sys.sched, p, tids),
              policy := P.Attached(sys.policy, p, sys.clients[i].guaranteed, max))
  }

  /** dp_clients_remove_client. */
  function Departed(sys: System, p: Pid): System {
    if !IsAttached(sys.sched, p) then sys
    else sys.(sched := Detached(sys.sched, p), policy := P.Detached(sys.policy, p))
  }

  /** control_remove_client, called for what proc_release has sent. */
  function Destroyed(sys: System, p: Pid): System {
    var i, n := IndexOf(sys.clients, p), |sys.clients| - 1;
    if p !in sys.sched.released || i > n || sys.clients[i].guaranteed > sys.nrGuaranteed then sys
    else sys.(clients := sys.clients[i := sys.clients[n]][..n],
              nrGuaranteed := sys.nrGuaranteed - sys.clients[i].guaranteed)
  }

  /** What simple_add_kthread decides for p. */
  function Offered(m: Machine, sys: System, p: Pid): Option<nat> {
    if |m.siblings| == |sys.policy.owner| && p in sys.policy.procs && p in sys.sched.procs
    then P.Taken(m, sys.policy, p, RecentOf(sys.sched, p), p in Free(sys.sched), true) else None
  }

  /** simple_add_kthread with sched_run_on_core. */
  function Served(m: Machine, sys: System, p: Pid, txEmpty: bool): System {
    match Offered(m, sys, p)
    case None => sys
    case Some(c) =>
      if c < |sys.policy.owner| == |sys.policy.hist|
      then sys.(sched := RunOn(m, sys.sched, p, c, txEmpty), policy := P.Given(sys.policy, p, c)) else sys
  }

  /** The fast pass of sched_poll over the first n cores, and the cores it reports. */
  function PollAll(m: Machine, s: State, answers: seq<Answer>, n: nat): State
    requires n <= |answers|
  {
    if n == 0 then s
    else
      var t, a := PollAll(m, s, answers, n - 1), answers[n - 1];
      if n - 1 in m.allowed then PollOne(t, n - 1, a.runDone, a.idle, a.rewake, a.txEmpty) else t
  }

  function Reported(m: Machine, s: State, answers: seq<Answer>, n: nat): set<nat>
    requires n <= |answers|
  {
    if n == 0 then {}
    else
      var t, a := PollAll(m, s, answers, n - 1), answers[n - 1];
      Reported(m, s, answers, n - 1) +
      if n - 1 in m.allowed && n - 1 < |t.cores| && Reports(t.cores[n - 1], a.runDone, a.idle, a.rewake)
      then {n - 1} else {}
  }

  /** One core in simple_sched_poll, with the scheduler's part. */
  function IdleSeen(m: Machine, sys: System, core: nat): System {
    var q := sys.policy;
    if core < |m.siblings| == |q.owner| == |q.hist| && m.siblings[core] < |q.owner| then
      var q' := P.WentIdle(m, q, core, Free(sys.sched), true);
      sys.(policy := q', sched := if core < |q'.owner| && q'.owner[core].Some?
                                  then RunOn(m, sys.sched, q'.owner[core].value, core, true) else sys.sched)
    else sys
  }

  function IdlePass(m: Machine, sys: System, reported: set<nat>, n: nat): System {
    if n == 0 then sys
    else
      var t := IdlePass(m, sys, reported, n - 1);
      if n - 1 in reported then IdleSeen(m, t, n - 1) else t
  }

  /** sched_poll: the fast pass over all cores, then the policy's pass over those reported. */
  function Polls(m: Machine, sys: System, answers: seq<Answer>): System {
    if |answers| != |m.siblings| then sys
    else
      IdlePass(m, sys.(sched := PollAll(m, sys.sched, answers, |answers|)),
               Reported(m, sys.sched, answers, |answers|), |answers|)
  }

  /** The system after an event; one that does not apply is skipped. */
  function Next(m: Machine, sys: System, e: Event): System {
    match e
    case Admit(p, guaranteed) => if Admissible(m, sys, p, guaranteed) then Admitted(sys, p, guaranteed) else sys
    case Join(p, tids, max) => Joined(sys, p, tids, max)
    case Leave(p) => Departed(sys, p)
    case Destroy(p) => Destroyed(sys, p)
    case CoreNeeded(p, txEmpty) => Served(m, sys, p, txEmpty)
    case Congested(p) => if p in sys.policy.procs then sys.(policy := P.MarkedCongested(sys.policy, p)) else sys
    case Relieved(p) => sys.(policy := P.UnmarkedCongested(sys.policy, p))
    case PollRound(answers) => Polls(m, sys, answers)
    case Send(batch) => sys.(sched := Transmitted(sys.sched, batch))
    case Sent(p) => sys.(sched := Completed(sys.sched, p))
  }

  function Exec(m: Machine, sys: System, events: seq<Event>): System
    decreases |events|
  {
    if events == [] then sys else Exec(m, Next(m, sys, events[0]), events[1..])
  }

  function Boot(m: Machine): System {
    System(Booted(|m.siblings|), P.Booted(m), [], 0)
  }

  // ----- Every event keeps the agreement ------------------------------------------------------------------

  lemma SchedOnly(m: Machine, sys: System, s': State)
    requires SysInv(m, sys, {}) && Evolves(sys.sched, s', {}) && s'.cores == sys.sched.cores
    requires Inv(s', {}, 0, 0) && Gone(s')
    ensures SysInv(m, sys.(sched := s'), {})
  {
    hide Inv, P.Inv, Gone, Evolves, Homes, SameProcs, ClientsOk, CoreKnown;
    Relink(m, sys, sys.(sched := s'), {}, {}, {});
  }

  lemma PolicyOnly(m: Machine, sys: System, q': P.Policy)
    requires SysInv(m, sys, {}) && q' == sys.policy.(congested := q'.congested) && P.Inv(m, q')
    ensures SysInv(m, sys.(policy := q'), {})
  {
    StaysSame(sys.sched);
    hide Inv, P.Inv, Gone, Evolves, Homes, SameProcs, ClientsOk, CoreKnown;
    Relink(m, sys, sys.(policy := q'), {}, {}, {});
  }

  lemma PollOneKnown(m: Machine, sys: System, reported: set<nat>, core: nat, a: Answer)
    requires SysInv(m, sys, reported) && core < |m.siblings| && core in m.allowed && core !in reported
    ensures var s' := PollOne(sys.sched, core, a.runDone, a.idle, a.rewake, a.txEmpty);
            var more := if Reports(sys.sched.cores[core], a.runDone, a.idle, a.rewake) then {core} else {};
            SysInv(m, sys.(sched := s'), reported + more)
  {
    var s := sys.sched;
    assert CoreOk(s, core);
    hide SysInv, Inv, P.Inv, Gone, Evolves, CoreOk, Polled, Agrees, PollOne, SameProcs, P.Bootable, Gentle;
    SysParts(m, sys, reported);
    PollOneGone(s, core, a.runDone, a.idle, a.rewake, a.txEmpty);
    PollOneKeeps(s, core, a.runDone, a.idle, a.rewake, a.txEmpty);
    PolledLast(s, core, a.runDone, a.idle, a.rewake);
    var sys' := sys.(sched := PollOne(s, core, a.runDone, a.idle, a.rewake, a.txEmpty));
    var reported' := reported + if Reports(s.cores[core], a.runDone, a.idle, a.rewake) then {core} else {};
    hide Last, Reports;
    forall c | 0 <= c < |m.siblings| && c != core ensures CoreSame(sys, sys', c) && (c in reported <==> c in reported') {}
    Relink(m, sys, sys', {}, reported, reported');
  }

  lemma {:induction false} PollAllKnown(m: Machine, sys: System, answers: seq<Answer>, n: nat)
    requires SysInv(m, sys, {}) && n <= |answers| == |m.siblings|
    ensures SysInv(m, sys.(sched := PollAll(m, sys.sched, answers, n)), Reported(m, sys.sched, answers, n))
    ensures forall c :: c in Reported(m, sys.sched, answers, n) ==> c < n
  {
    hide SysInv, PollOne, Reports;
    if n > 0 {
      PollAllKnown(m, sys, answers, n - 1);
      var t, r := PollAll(m, sys.sched, answers, n - 1), Reported(m, sys.sched, answers, n - 1);
      var sys1 := sys.(sched := t);
      CoresOf(m, sys1, r);
      if n - 1 in m.allowed {
        PollOneKnown(m, sys1, r, n - 1, answers[n - 1]);
        assert sys1.(sched := PollAll(m, sys.sched, answers, n)) == sys.(sched := PollAll(m, sys.sched, answers, n));
      } else {
        assert Reported(m, sys.sched, answers, n) == r;
      }
    }
  }

  lemma CoresOf(m: Machine, sys: System, reported: set<nat>)
    requires SysInv(m, sys, reported)
    ensures |sys.sched.cores| == |m.siblings| == |sys.policy.owner| == |sys.policy.hist|
    ensures forall c :: 0 <= c < |m.siblings| ==> m.siblings[c] < |m.siblings|
  {}

  /** One core changes hands, in the scheduler and in the policy. */
  ghost predicate SchedMoves(s: State, s': State, core: nat) {
    && Evolves(s, s', {core}) && Inv(s', {}, 0, 0) && Gone(s')
    && forall c :: 0 <= c < |s.cores| && c != core ==> s'.cores[c] == s.cores[c]
  }

  ghost predicate PolicyMoves(m: Machine, q: P.Policy, q': P.Policy, core: nat) {
    && P.Inv(m, q') && SameGuarantees(q, q') && |q'.owner| == |q.owner|
    && (forall c :: 0 <= c < |q.owner| && c != core ==> q'.owner[c] == q.owner[c])
    && (forall c :: c != core ==> (c in q'.idle <==> c in q.idle))
  }

  lemma MovesKnown(m: Machine, sys: System, sys': System, core: nat, reported: set<nat>)
    requires SysInv(m, sys, reported) && core in m.allowed
    requires SchedMoves(sys.sched, sys'.sched, core) && PolicyMoves(m, sys.policy, sys'.policy, core)
    requires sys'.clients == sys.clients && sys'.nrGuaranteed == sys.nrGuaranteed
    requires Agrees(m, sys'.sched, sys'.policy, core)
    ensures SysInv(m, sys', reported - {core})
  {
    hide SysInv, Inv, P.Inv, Gone, SameGuarantees, SameProcs, Last, P.Bootable, AttachedHolder, Holder;
    SysParts(m, sys, reported);
    assert |sys'.sched.cores| == |sys.sched.cores|;
    var reported' := reported - {core};
    assert CoreKnown(m, sys'.sched, sys'.policy, reported', core);
    hide Agrees, CoreKnown, Evolves;
    forall c | 0 <= c < |m.siblings| && c != core ensures CoreSame(sys, sys', c) && (c in reported <==> c in reported') {}
    hide CoreSame;
    Relink(m, sys, sys', {core}, reported, reported');
  }

  /** A core given to an attached process has it as its holder. */
  lemma RunOnMoves(m: Machine, s: State, p: Pid, core: nat, txEmpty: bool)
    requires Inv(s, {}, 0, 0) && Gone(s) && IsAttached(s, p) && MayRun(m, s, p, core)
    ensures var s' := RunOn(m, s, p, core, txEmpty);
            SchedMoves(s, s', core) && Holder(s', core) == Some(p) && AttachedHolder(s', core) == Some(p)
  {
    hide RunOn, Pick, Last, Given, Gentle, Gone;
    var s', t := RunOn(m, s, p, core, txEmpty), Pick(m, s, p, core);
    AttachedCounts(s, p);
    RunOnKeeps(m, s, p, core, txEmpty);
    RunOnGone(m, s, p, core, txEmpty);
    PickIdle(m, s, p, core);
    IdleThread(s, p, t);
    assert CoreOk(s, core);
    GivenLast(s, core, t);
    hide Inv, CoreOk;
    assert ThreadEvolves(s, s', {core}, t);
    assert IsAttached(s', p);
    hide Evolves, ThreadEvolves;
  }

  lemma StaysMoves(s: State, core: nat)
    requires Inv(s, {}, 0, 0) && Gone(s)
    ensures SchedMoves(s, s, core)
  {
    StaysSame(s);
    EvolvesMore(s, s, {}, {core});
  }

  lemma GivenMoves(m: Machine, q: P.Policy, p: Pid, core: nat)
    requires P.Inv(m, q) && p in q.procs && core < |q.owner| && core in m.allowed
    ensures |q.owner| == |q.hist|
    ensures var q' := P.Given(q, p, core);
            PolicyMoves(m, q, q', core) && core < |q'.owner| && q'.owner[core] == Some(p) && core !in q'.idle
  {
    P.SiblingIn(m, q, core);
    P.GivenInv(m, q, p, core);
    P.GivenMarks(q, p, core);
    hide P.Inv, P.Given, P.Owned, P.Unmarked;
  }

  lemma WentIdleMoves(m: Machine, q: P.Policy, core: nat, free: set<Pid>)
    requires P.Inv(m, q) && core < |q.owner| && core in m.allowed
    ensures |m.siblings| == |q.owner| == |q.hist| && m.siblings[core] < |q.owner|
    ensures var q' := P.WentIdle(m, q, core, free, true);
            && PolicyMoves(m, q, q', core)
            && (if q'.owner[core].Some? then core !in q'.idle && q'.owner[core].value in free else core in q'.idle)
            && (q'.owner[core].Some? ==> q'.owner[core].value in q.procs)
  {
    P.SiblingIn(m, q, core);
    P.WentIdleInv(m, q, core, free, true);
    P.WentIdleMarks(m, q, core, free);
    P.CongestedIn(m, q);
    hide P.Inv, P.WentIdle, P.Unmarked;
  }

  /** The policy's pass over a reported core. */
  lemma IdleSeenKnown(m: Machine, sys: System, reported: set<nat>, core: nat)
    requires SysInv(m, sys, reported) && core in reported && core < |m.siblings|
    ensures SysInv(m, IdleSeen(m, sys, core), reported - {core})
  {
    var s, q := sys.sched, sys.policy;
    assert CoreKnown(m, s, q, reported, core);
    hide SysInv, Inv, P.Inv, Gone, Agrees, RunOn, P.WentIdle, Holder, AttachedHolder, SchedMoves, PolicyMoves, P.Bootable;
    SysParts(m, sys, reported);
    WentIdleMoves(m, q, core, Free(s));
    var sys' := IdleSeen(m, sys, core);
    var p := P.WentIdle(m, q, core, Free(s), true).owner[core];
    if p.Some? {
      assert IsAttached(s, p.value);
      RunOnMoves(m, s, p.value, core, true);
      AgreesNow(m, sys'.sched, sys'.policy, core);
    } else {
      StaysMoves(s, core);
      AgreesFree(m, s, sys'.policy, core);
    }
    MovesKnown(m, sys, sys', core, reported);
  }

  lemma SysParts(m: Machine, sys: System, reported: set<nat>)
    requires SysInv(m, sys, reported)
    ensures Sized(m, sys) && Inv(sys.sched, {}, 0, 0) && P.Inv(m, sys.policy) && Gone(sys.sched)
    ensures SameProcs(sys.sched, sys.policy)
  {}

  lemma AgreesNow(m: Machine, s: State, q: P.Policy, core: nat)
    requires core < |q.owner| && q.owner[core] == AttachedHolder(s, core) == Holder(s, core)
    requires q.owner[core].Some? && core !in q.idle
    ensures Agrees(m, s, q, core)
  {}

  lemma AgreesFree(m: Machine, s: State, q: P.Policy, core: nat)
    requires core < |q.owner| && q.owner[core].None? && Holder(s, core).None? && core in q.idle && core in m.allowed
    ensures Agrees(m, s, q, core)
  {}

  lemma {:induction false} IdlePassKnown(m: Machine, sys: System, reported: set<nat>, n: nat)
    requires SysInv(m, sys, reported) && n <= |m.siblings|
    ensures SysInv(m, IdlePass(m, sys, reported, n), set c | c in reported && c >= n)
  {
    hide SysInv, IdleSeen;
    if n > 0 {
      IdlePassKnown(m, sys, reported, n - 1);
      var left := set c | c in reported && c >= n - 1;
      if n - 1 in reported {
        IdleSeenKnown(m, IdlePass(m, sys, reported, n - 1), left, n - 1);
        assert left - {n - 1} == set c | c in reported && c >= n;
      } else {
        assert left == set c | c in reported && c >= n;
      }
    } else {
      assert reported == set c | c in reported && c >= 0;
    }
  }

  lemma PollsKnown(m: Machine, sys: System, answers: seq<Answer>)
    requires SysInv(m, sys, {})
    ensures SysInv(m, Polls(m, sys, answers), {})
  {
    hide SysInv, PollAll, Reported, IdlePass;
    var n := |answers|;
    if n == |m.siblings| {
      PollAllKnown(m, sys, answers, n);
      var sys1, r := sys.(sched := PollAll(m, sys.sched, answers, n)), Reported(m, sys.sched, answers, n);
      IdlePassKnown(m, sys1, r, n);
      assert (set c | c in r && c >= n) == {};
    }
  }

  /** The cores a process has been on are allowed. */
  lemma RecentAllowed(m: Machine, s: State, p: Pid)
    requires Inv(s, {}, 0, 0) && Homes(m, s) && |s.cores| == |m.siblings|
    ensures P.RecentOk(m, RecentOf(s, p))
  {
    var r := RecentOf(s, p);
    forall i | 0 <= i < |r| && r[i] < |m.siblings| ensures r[i] in m.allowed {
      assert IdleAt(s, p, i);
    }
  }

  /** What is offered to a process: an allowed core, for which it has a thread. */
  lemma OfferedIs(m: Machine, sys: System, reported: set<nat>, p: Pid)
    requires SysInv(m, sys, reported)
    ensures P.RecentOk(m, RecentOf(sys.sched, p))
    ensures var c := Offered(m, sys, p);
            c.Some? ==> && p in sys.policy.procs && c.value in m.allowed && c.value < |sys.policy.owner|
                        && IsAttached(sys.sched, p) && MayRun(m, sys.sched, p, c.value)
  {
    var s, q := sys.sched, sys.policy;
    RecentAllowed(m, s, p);
    assert SameProcs(s, q);
    hide Inv, P.Inv, Gone, Homes, ClientsOk, CoreKnown, P.RecentOk, RecentOf, P.Choose;
    if p in q.procs {
      P.ChoiceIsFair(m, q, p, RecentOf(s, p));
    }
  }

  lemma ServedKnown(m: Machine, sys: System, p: Pid, txEmpty: bool)
    requires SysInv(m, sys, {})
    ensures SysInv(m, Served(m, sys, p, txEmpty), {})
  {
    var s, q, c := sys.sched, sys.policy, Offered(m, sys, p);
    hide SysInv, Offered, Inv, P.Inv, Gone, Agrees, RunOn, P.Given, Holder, AttachedHolder, P.RecentOk, MayRun, P.Bootable,
      SchedMoves, PolicyMoves, SameProcs, RecentOf;
    OfferedIs(m, sys, {}, p);
    SysParts(m, sys, {});
    if c.Some? {
      GivenMoves(m, q, p, c.value);
      RunOnMoves(m, s, p, c.value, txEmpty);
      var sys' := Served(m, sys, p, txEmpty);
      AgreesNow(m, sys'.sched, sys'.policy, c.value);
      MovesKnown(m, sys, sys', c.value, {});
      assert {} - {c.value} == {};
    }
  }

  // Clients come and go

  lemma {:induction false} TotalMore(cs: seq<Client>, x: Client)
    ensures Total(cs + [x]) == Total(cs) + x.guaranteed
  {
    if cs == [] {
      assert cs + [x] == [x];
    } else {
      assert (cs + [x])[1..] == cs[1..] + [x];
      TotalMore(cs[1..], x);
    }
  }

  lemma {:induction false} TotalUpdate(cs: seq<Client>, i: nat, x: Client)
    requires i < |cs|
    ensures Total(cs[i := x]) == Total(cs) - cs[i].guaranteed + x.guaranteed
  {
    if i > 0 {
      assert cs[i := x][1..] == cs[1..][i - 1 := x];
      TotalUpdate(cs[1..], i - 1, x);
    } else {
      assert cs[i := x][1..] == cs[1..];
    }
  }

  lemma AdmittedKnown(m: Machine, sys: System, p: Pid, guaranteed: nat)
    requires SysInv(m, sys, {}) && Admissible(m, sys, p, guaranteed)
    ensures SysInv(m, Admitted(sys, p, guaranteed), {})
  {
    hide Inv, P.Inv, Gone, Homes, SameProcs, CoreKnown, Total, P.InAllowed;
    var sys' := Admitted(sys, p, guaranteed);
    TotalMore(sys.clients, Client(p, guaranteed));
    assert Pids(sys'.clients) == Pids(sys.clients) + [p];
    forall r | r in sys'.sched.procs && r !in sys'.sched.released ensures IsClient(sys'.clients, r) {
      var i :| 0 <= i < |sys.clients| && sys.clients[i].p == r;
      assert sys'.clients[i].p == r;
    }
    assert ClientsOk(m, sys');
  }

  /** Removal by moving the last client into the gap keeps exactly the others. */
  lemma RemovedIs(cs: seq<Client>, i: nat)
    requires i < |cs| && NoDups(Pids(cs))
    ensures var cs' := cs[i := cs[|cs| - 1]][..|cs| - 1];
            && NoDups(Pids(cs')) && Total(cs') == Total(cs) - cs[i].guaranteed
            && (forall x :: x in cs && x.p != cs[i].p ==> x in cs')
            && forall p :: IsClient(cs, p) && p != cs[i].p ==> IsClient(cs', p)
  {
    var n := |cs| - 1;
    var moved := cs[i := cs[n]];
    var cs' := moved[..n];
    assert moved == cs' + [cs[n]];
    TotalMore(cs', cs[n]);
    TotalUpdate(cs, i, cs[n]);
    hide Total;
    var ps, ps' := Pids(cs), Pids(cs');
    forall a, b | 0 <= a < b < |ps'| ensures ps'[a] != ps'[b] {
      assert ps'[a] == ps[if a == i then n else a] && ps'[b] == ps[if b == i then n else b];
    }
    forall x | x in cs && x.p != cs[i].p ensures x in cs' {
      var a :| 0 <= a < |cs| && cs[a] == x;
      assert a != i && (if a == n then cs'[i] == x else cs'[a] == x);
    }
    forall p | IsClient(cs, p) && p != cs[i].p ensures IsClient(cs', p) {
      var a :| 0 <= a < |cs| && cs[a].p == p;
      assert a != i && (if a == n then cs'[i].p == p else cs'[a].p == p);
    }
  }

  lemma DestroyedKnown(m: Machine, sys: System, p: Pid)
    requires SysInv(m, sys, {})
    ensures SysInv(m, Destroyed(sys, p), {})
  {
    var sys' := Destroyed(sys, p);
    if sys' != sys {
      assert p in sys.sched.released;
      hide Inv, P.Inv, Homes, CoreKnown, ClientsOk, Quiet;
      assert !IsAttached(sys.sched, p);
      assert p !in sys.policy.procs;
      hide Gone, SameProcs, Destroyed;
      DestroyedClients(m, sys, p);
      DestroyedFrame(sys, p);
    }
  }

  lemma DestroyedFrame(sys: System, p: Pid)
    ensures Destroyed(sys, p).sched == sys.sched && Destroyed(sys, p).policy == sys.policy
  {}

  lemma DestroyedClients(m: Machine, sys: System, p: Pid)
    requires ClientsOk(m, sys) && p !in sys.policy.procs
    ensures ClientsOk(m, Destroyed(sys, p))
  {
    hide P.InAllowed, Total, NoDups, Pids, IsClient;
    var sys', i := Destroyed(sys, p), IndexOf(sys.clients, p);
    if sys' != sys {
      RemovedIs(sys.clients, i);
    }
  }

  lemma JoinedKnown(m: Machine, sys: System, p: Pid, tids: seq<Tid>, max: nat)
    requires SysInv(m, sys, {})
    ensures SysInv(m, Joined(sys, p, tids, max), {})
  {
    hide Inv, P.Inv, Gone, Homes, CoreKnown, ClientsOk, CanAttach;
    var i, s, q := IndexOf(sys.clients, p), sys.sched, sys.policy;
    var sys' := Joined(sys, p, tids, max);
    if i < |sys.clients| && CanAttach(s, p, tids) {
      JoinedSched(m, s, p, tids);
      assert p !in q.procs;
      P.AttachInv(m, q, p, sys.clients[i].guaranteed, max);
      forall c | 0 <= c < |m.siblings| ensures CoreKnown(m, sys'.sched, sys'.policy, {}, c) {
        JoinedCore(m, s, q, p, tids, sys.clients[i].guaranteed, max, c);
      }
      JoinedClients(m, sys, p, tids, max);
      hide Attached;
    }
  }

  lemma JoinedSched(m: Machine, s: State, p: Pid, tids: seq<Tid>)
    requires Inv(s, {}, 0, 0) && Gone(s) && Homes(m, s) && CanAttach(s, p, tids)
    ensures !IsAttached(s, p)
    ensures var s' := Attached(s, p, tids);
            && Inv(s', {}, 0, 0) && Gone(s') && Homes(m, s') && s'.cores == s.cores
            && forall r :: IsAttached(s', r) <==> IsAttached(s, r) || r == p
  {
    AttachInv(s, p, tids);
    JoinedGone(s, p, tids);
    JoinedHomes(m, s, p, tids);
    hide Inv, Gone, Homes;
  }

  lemma JoinedCore(m: Machine, s: State, q: P.Policy, p: Pid, tids: seq<Tid>, guaranteed: nat, max: nat, c: nat)
    requires Inv(s, {}, 0, 0) && CanAttach(s, p, tids) && c < |s.cores| && CoreKnown(m, s, q, {}, c)
    ensures CoreKnown(m, Attached(s, p, tids), P.Attached(q, p, guaranteed, max), {}, c)
  {
    JoinedHolder(s, p, tids, c);
    hide Inv, Attached, Holder, AttachedHolder;
  }

  lemma JoinedGone(s: State, p: Pid, tids: seq<Tid>)
    requires Inv(s, {}, 0, 0) && Gone(s) && CanAttach(s, p, tids)
    ensures Gone(Attached(s, p, tids))
  {
    hide Inv;
    var s' := Attached(s, p, tids);
    forall r | r in s'.released ensures r in s'.procs && !s'.procs[r].attached && Quiet(s', r) {
      assert r in s.procs && Quiet(s, r);
    }
  }

  lemma JoinedHolder(s: State, p: Pid, tids: seq<Tid>, c: nat)
    requires Inv(s, {}, 0, 0) && CanAttach(s, p, tids) && c < |s.cores|
    ensures Holder(Attached(s, p, tids), c) == Holder(s, c)
    ensures AttachedHolder(Attached(s, p, tids), c) == AttachedHolder(s, c)
  {
    assert CoreOk(s, c);
    if Holder(s, c).Some? {
      HolderSeated(s, c);
    }
  }

  lemma JoinedHomes(m: Machine, s: State, p: Pid, tids: seq<Tid>)
    requires Homes(m, s)
    ensures Homes(m, Attached(s, p, tids))
  {}

  lemma JoinedClients(m: Machine, sys: System, p: Pid, tids: seq<Tid>, max: nat)
    requires ClientsOk(m, sys)
    ensures ClientsOk(m, Joined(sys, p, tids, max))
  {
    hide Total, NoDups, Pids, P.InAllowed;
    var i := IndexOf(sys.clients, p);
    assert i < |sys.clients| ==> sys.clients[i] == Client(p, sys.clients[i].guaranteed);
  }

  lemma DepartedKnown(m: Machine, sys: System, p: Pid)
    requires SysInv(m, sys, {})
    ensures SysInv(m, Departed(sys, p), {})
  {
    hide Inv, P.Inv, Gone, CoreKnown, ClientsOk, Detached, P.Detached;
    var s, q, sys' := sys.sched, sys.policy, Departed(sys, p);
    if IsAttached(s, p) {
      assert p in q.procs;
      DepartedSched(s, p);
      DepartedPolicy(m, q, p);
      hide IsAttached;
      forall c | 0 <= c < |m.siblings| ensures CoreKnown(m, sys'.sched, sys'.policy, {}, c) {
        DepartedCore(m, s, q, p, c);
      }
      DepartedClients(m, sys, p);
    }
  }

  lemma DepartedPolicy(m: Machine, q: P.Policy, p: Pid)
    requires P.Inv(m, q) && p in q.procs
    ensures var q' := P.Detached(q, p); P.Inv(m, q') && |q'.owner| == |q.owner| && q'.procs == q.procs - {p}
  {
    P.DetachInv(m, q, p);
    hide P.Inv;
  }

  lemma DepartedCore(m: Machine, s: State, q: P.Policy, p: Pid, c: nat)
    requires IsAttached(s, p) && c < |s.cores| && CoreKnown(m, s, q, {}, c)
    ensures CoreKnown(m, Detached(s, p), P.Detached(q, p), {}, c)
  {
    DepartedHolder(s, p, c);
    hide Detached, Holder, AttachedHolder;
  }

  lemma DepartedSched(s: State, p: Pid)
    requires Inv(s, {}, 0, 0) && Gone(s) && IsAttached(s, p)
    ensures var s' := Detached(s, p);
            && Inv(s', {}, 0, 0) && Gone(s') && s'.threads == s.threads && s'.cores == s.cores
            && s'.procs.Keys == s.procs.Keys && s.released <= s'.released
            && forall r :: IsAttached(s', r) <==> IsAttached(s, r) && r != p
  {
    ReturnKeeps(s, p, s.procs[p].(attached := false));
    var s' := Detached(s, p);
    hide Inv, Gentle;
    forall r | r in s'.released ensures r in s'.procs && !s'.procs[r].attached && Quiet(s', r) {
      if r in s.released {
        assert Quiet(s, r);
      } else {
        Unused(s', {}, 0, 0, r);
      }
    }
  }

  lemma DepartedHolder(s: State, p: Pid, c: nat)
    requires IsAttached(s, p) && c < |s.cores|
    ensures var s' := Detached(s, p);
            && Holder(s', c) == Holder(s, c)
            && AttachedHolder(s', c) == if AttachedHolder(s, c) == Some(p) then None else AttachedHolder(s, c)
  {}

  lemma DepartedClients(m: Machine, sys: System, p: Pid)
    requires ClientsOk(m, sys)
    ensures ClientsOk(m, Departed(sys, p))
  {
    hide Total, NoDups, Pids, P.InAllowed;
  }

  // ----- Runs ---------------------------------------------------------------------------------------------

  lemma NextKnown(m: Machine, sys: System, e: Event)
    requires SysInv(m, sys, {})
    ensures SysInv(m, Next(m, sys, e), {})
  {
    hide SysInv, Inv, P.Inv, Gone, SameProcs, Sized, Evolves, Admissible, Admitted, Joined, Departed, Destroyed, Served,
      Polls, Transmitted, Completed;
    SysParts(m, sys, {});
    match e
    case Admit(p, guaranteed) =>
      if Admissible(m, sys, p, guaranteed) {
        AdmittedKnown(m, sys, p, guaranteed);
      }
    case Join(p, tids, max) => JoinedKnown(m, sys, p, tids, max);
    case Leave(p) => DepartedKnown(m, sys, p);
    case Destroy(p) => DestroyedKnown(m, sys, p);
    case CoreNeeded(p, txEmpty) => ServedKnown(m, sys, p, txEmpty);
    case Congested(p) =>
      if p in sys.policy.procs {
        P.CongestionInv(m, sys.policy, P.MarkedCongested(sys.policy, p));
        PolicyOnly(m, sys, P.MarkedCongested(sys.policy, p));
      }
    case Relieved(p) =>
      P.CongestionInv(m, sys.policy, P.UnmarkedCongested(sys.policy, p));
      PolicyOnly(m, sys, P.UnmarkedCongested(sys.policy, p));
    case PollRound(answers) => PollsKnown(m, sys, answers);
    case Send(batch) =>
      TransmitGone(sys.sched, batch);
      SchedOnly(m, sys, Transmitted(sys.sched, batch));
    case Sent(p) =>
      CompleteGone(sys.sched, p);
      SchedOnly(m, sys, Completed(sys.sched, p));
  }

  lemma BootKnown(m: Machine)
    requires P.Bootable(m)
    ensures SysInv(m, Boot(m), {})
  {
    BootedInv(|m.siblings|);
    P.BootedInv(m);
  }

  /** In every run the policy's owners are the attached holders, its idle marks are exactly on the
      allowed cores nobody holds, and the reservations are those of the clients. */
  lemma {:induction false} RunKnown(m: Machine, sys: System, events: seq<Event>)
    requires SysInv(m, sys, {})
    ensures SysInv(m, Exec(m, sys, events), {})
    decreases |events|
  {
    hide SysInv, Next;
    if events != [] {
      NextKnown(m, sys, events[0]);
      RunKnown(m, Next(m, sys, events[0]), events[1..]);
    }
  }

  // ----- The guarantee over runs ----------------------------------------------------------------------------

  function Holders(s: State): (r: seq<Option<Pid>>)
    ensures |r| == |s.cores| && forall c :: 0 <= c < |r| ==> r[c] == Holder(s, c)
  {
    seq(|s.cores|, c => if c >= 0 then Holder(s, c) else None)
  }

  /** How many cores p holds. */
  function Held(s: State, p: Pid): nat {
    P.Owned(Holders(s), p, |s.cores|)
  }

  /** The cores held by the clients that are not attached, and what these were guaranteed. */
  function HeldByLeft(sys: System, cs: seq<Client>): nat {
    if cs == [] then 0
    else (if cs[0].p in sys.policy.procs then 0 else Held(sys.sched, cs[0].p)) + HeldByLeft(sys, cs[1..])
  }

  function ReservedForLeft(sys: System, cs: seq<Client>): nat {
    if cs == [] then 0
    else (if cs[0].p in sys.policy.procs then 0 else cs[0].guaranteed) + ReservedForLeft(sys, cs[1..])
  }

  /** If attached clients hold no more than they are guaranteed, and one of them less. */
  lemma {:induction false} Balance(sys: System, cs: seq<Client>, p: Pid)
    requires forall i :: 0 <= i < |cs| && cs[i].p in sys.policy.procs ==> Held(sys.sched, cs[i].p) <= cs[i].guaranteed
    ensures var s := sys.sched;
            var slack := HeldByLeft(sys, cs) + Total(cs) - ReservedForLeft(sys, cs);
            && P.TotalOwned(Holders(s), Pids(cs), |s.cores|) <= slack
            && (p in sys.policy.procs && (exists i :: 0 <= i < |cs| && cs[i].p == p && Held(s, p) < cs[i].guaranteed) ==>
                  P.TotalOwned(Holders(s), Pids(cs), |s.cores|) < slack)
  {
    if cs != [] {
      assert Pids(cs)[1..] == Pids(cs[1..]);
      Balance(sys, cs[1..], p);
      if i :| 0 <= i < |cs| && cs[i].p == p && Held(sys.sched, p) < cs[i].guaranteed {
        assert i > 0 ==> cs[1..][i - 1] == cs[i];
      }
    }
  }

  lemma {:induction false} SomeoneLeftMore(sys: System, cs: seq<Client>) returns (i: nat)
    requires HeldByLeft(sys, cs) > ReservedForLeft(sys, cs)
    ensures i < |cs| && cs[i].p !in sys.policy.procs && Held(sys.sched, cs[i].p) > cs[i].guaranteed
  {
    if cs[0].p !in sys.policy.procs && Held(sys.sched, cs[0].p) > cs[0].guaranteed {
      return 0;
    }
    i := SomeoneLeftMore(sys, cs[1..]);
    i := i + 1;
  }

  /** For an attached process the policy's count is what it holds. */
  lemma HeldIsActive(m: Machine, sys: System, p: Pid)
    requires SysInv(m, sys, {}) && p in sys.policy.procs
    ensures Held(sys.sched, p) == sys.policy.procs[p].active
  {
    var hs, owner := Holders(sys.sched), sys.policy.owner;
    assert IsAttached(sys.sched, p);
    forall c | 0 <= c < |owner| ensures hs[c] == Some(p) <==> owner[c] == Some(p) {
      assert CoreKnown(m, sys.sched, sys.policy, {}, c);
    }
    P.OwnedKept(hs, owner, p, |owner|);
  }

  /** Every core that is not marked idle is held by a client. */
  lemma HeldByClient(m: Machine, sys: System, c: nat)
    requires SysInv(m, sys, {}) && c < |m.siblings| && c in m.allowed && c !in sys.policy.idle
    ensures Holder(sys.sched, c).Some? && Holder(sys.sched, c).value in Pids(sys.clients)
  {
    assert CoreKnown(m, sys.sched, sys.policy, {}, c);
    HolderSeated(sys.sched, c);
    var p, t := Holder(sys.sched, c).value, Last(sys.sched.cores[c]).value;
    hide Inv, P.Inv, CoreKnown, Last, Holder, Homes, SameProcs;
    ActiveNotGone(sys.sched, t);
    assert IsClient(sys.clients, p);
    var i :| 0 <= i < |sys.clients| && sys.clients[i].p == p;
    assert Pids(sys.clients)[i] == p;
  }

  lemma ActiveNotGone(s: State, t: Tid)
    requires Gone(s) && t in s.threads && s.threads[t].active
    ensures s.threads[t].proc !in s.released
  {}

  /** The cores the policy has lost sight of are exactly those held by processes that are no
      longer attached. */
  lemma UnmarkedAreLeft(m: Machine, sys: System, c: nat)
    requires SysInv(m, sys, {}) && c < |m.siblings|
    ensures c in P.Unmarked(m, sys.policy) <==> Holder(sys.sched, c).Some? && AttachedHolder(sys.sched, c).None?
  {
    assert CoreKnown(m, sys.sched, sys.policy, {}, c);
    if Holder(sys.sched, c).Some? {
      HolderSeated(sys.sched, c);
    }
  }

  /** A process below its guarantee is refused only if the clients no longer attached, or not yet,
      hold more cores than are reserved for them. */
  lemma RefusedMeans(m: Machine, sys: System, p: Pid)
    requires SysInv(m, sys, {}) && p in sys.policy.procs
    requires sys.policy.procs[p].active < sys.policy.procs[p].guaranteed
    requires sys.policy.idle == {} && P.NobodyAbove(m, sys.policy)
    ensures HeldByLeft(sys, sys.clients) > ReservedForLeft(sys, sys.clients)
  {
    var s, q, cs := sys.sched, sys.policy, sys.clients;
    var ps, n := Pids(cs), |m.siblings|;
    SysParts(m, sys, {});
    forall c | 0 <= c < n && c in m.allowed ensures Holders(s)[c].Some? && Holders(s)[c].value in ps {
      HeldByClient(m, sys, c);
    }
    forall i | 0 <= i < |cs| && cs[i].p in q.procs ensures Held(s, cs[i].p) <= cs[i].guaranteed {
      WithinReserved(m, sys, i);
    }
    HeldIsActive(m, sys, p);
    ClientOf(m, sys, p);
    hide SysInv, Inv, P.Inv, Gone, SameProcs, P.NobodyAbove, Held, Holders, Pids;
    P.AllOwned(Holders(s), ps, m.allowed, n);
    Balance(sys, cs, p);
  }

  lemma ClientOf(m: Machine, sys: System, p: Pid)
    requires SysInv(m, sys, {})
    ensures NoDups(Pids(sys.clients)) && Total(sys.clients) <= P.InAllowed(m.allowed, |m.siblings|)
    ensures p in sys.policy.procs ==>
              exists i :: 0 <= i < |sys.clients| && sys.clients[i] == Client(p, sys.policy.procs[p].guaranteed)
  {
    hide Inv, P.Inv, Gone, SameProcs, CoreKnown, Homes;
  }

  lemma WithinReserved(m: Machine, sys: System, i: nat)
    requires SysInv(m, sys, {}) && P.NobodyAbove(m, sys.policy) && i < |sys.clients| && sys.clients[i].p in sys.policy.procs
    ensures Held(sys.sched, sys.clients[i].p) <= sys.clients[i].guaranteed
  {
    var r := sys.clients[i].p;
    HeldIsActive(m, sys, r);
    P.WithinGuarantee(m, sys.policy, r, |sys.policy.owner|);
    ClientOf(m, sys, r);
    var j :| 0 <= j < |sys.clients| && sys.clients[j] == Client(r, sys.policy.procs[r].guaranteed);
    var ps := Pids(sys.clients);
    assert ps[i] == ps[j];
  }

  /** The guarantee.  After any run from boot, a process below its guarantee gets no core exactly if
      none is marked idle, nobody is above its guarantee and no core without owner is near; and then
      the clients that are not attached, all of them detached and not yet destroyed, hold more cores
      than are reserved for them, and one of them more than it was guaranteed. */
  lemma GuaranteeOverRuns(m: Machine, events: seq<Event>, p: Pid)
    requires P.Bootable(m)
    requires var q := Exec(m, Boot(m), events).policy; p in q.procs && q.procs[p].active < q.procs[p].guaranteed
    ensures var sys := Exec(m, Boot(m), events);
            var recent := RecentOf(sys.sched, p);
            && P.Inv(m, sys.policy) && P.RecentOk(m, recent)
            && (P.Choose(m, sys.policy, p, recent).None? <==>
                  && sys.policy.idle == {} && P.NobodyAbove(m, sys.policy) && P.NoneNearby(m, sys.policy, p, recent))
            && (P.Choose(m, sys.policy, p, recent).None? ==>
                  && HeldByLeft(sys, sys.clients) > ReservedForLeft(sys, sys.clients)
                  && exists x :: x in sys.clients && Overstays(sys.sched, x))
  {
    var sys := Exec(m, Boot(m), events);
    hide Exec, SysInv, Inv, P.Inv, Gone, P.RecentOk, RecentOf, P.NobodyAbove, P.NoneNearby, P.Choose, Overstays;
    BootKnown(m);
    RunKnown(m, Boot(m), events);
    OfferedIs(m, sys, {}, p);
    SysParts(m, sys, {});
    P.NoCoreExactly(m, sys.policy, p, RecentOf(sys.sched, p));
    if P.Choose(m, sys.policy, p, RecentOf(sys.sched, p)).None? {
      RefusedMeans(m, sys, p);
      var i := SomeoneLeftMore(sys, sys.clients);
      HoldsLeft(m, sys, i);
      assert sys.clients[i] in sys.clients;
    }
  }

  /** A process that was detached and still holds more cores than it was guaranteed. */
  ghost predicate Overstays(s: State, x: Client) {
    x.p in s.procs && !s.procs[x.p].attached && Held(s, x.p) > x.guaranteed
  }

  lemma HoldsLeft(m: Machine, sys: System, i: nat)
    requires SysInv(m, sys, {}) && i < |sys.clients| && sys.clients[i].p !in sys.policy.procs
    requires Held(sys.sched, sys.clients[i].p) > sys.clients[i].guaranteed
    ensures Overstays(sys.sched, sys.clients[i])
  {
    var s, p := sys.sched, sys.clients[i].p;
    if forall c :: 0 <= c < |Holders(s)| ==> Holders(s)[c] != Some(p) {
      P.OwnedNone(Holders(s), p, |s.cores|);
    } else {
      var c :| 0 <= c < |Holders(s)| && Holders(s)[c] == Some(p);
      HolderSeated(s, c);
    }
    SysParts(m, sys, {});
    hide SysInv, Inv, P.Inv, Gone, Holders;
  }

  // ----- It can happen --------------------------------------------------------------------------------------

  /** An admitted process is attached. */
  function Arrives(m: Machine, sys: System, p: Pid, guaranteed: nat, tids: seq<Tid>, max: nat): System {
    Next(m, Next(m, sys, Admit(p, guaranteed)), Join(p, tids, max))
  }

  lemma IndexOfLast(cs: seq<Client>, x: Client)
    requires x.p !in Pids(cs)
    ensures IndexOf(cs + [x], x.p) == |cs|
  {
    assert (cs + [x])[|cs|] == x;
    assert forall j :: 0 <= j < |cs| ==> Pids(cs)[j] != x.p && (cs + [x])[j] == cs[j];
  }

  lemma ArrivesIs(m: Machine, sys: System, p: Pid, guaranteed: nat, tids: seq<Tid>, max: nat)
    requires Admissible(m, sys, p, guaranteed) && CanAttach(sys.sched, p, tids)
    ensures var sys' := Arrives(m, sys, p, guaranteed, tids, max);
            && sys'.policy == P.Attached(sys.policy, p, guaranteed, max) && sys'.sched == Attached(sys.sched, p, tids)
            && sys'.clients == sys.clients + [Client(p, guaranteed)] && sys'.nrGuaranteed == sys.nrGuaranteed + guaranteed
  {
    IndexOfLast(sys.clients, Client(p, guaranteed));
  }

  lemma NewRecent(m: Machine, s: State, p: Pid, tids: seq<Tid>)
    requires CanAttach(s, p, tids) && |s.cores| == |m.siblings|
    ensures P.Near(m, RecentOf(Attached(s, p, tids), p)) == []
  {
    var s' := Attached(s, p, tids);
    if tids != [] {
      assert tids[0] in (set x | x in tids);
      assert s'.threads[tids[0]].core == |s.cores|;
    }
  }

  /** A process above its guarantee owns an allowed core. */
  lemma NobodyAboveMeans(m: Machine, q: P.Policy)
    requires P.Inv(m, q)
    ensures P.NobodyAbove(m, q) <==> forall r :: r in q.procs ==> q.procs[r].active <= q.procs[r].guaranteed
  {
    if P.NobodyAbove(m, q) {
      forall r | r in q.procs ensures q.procs[r].active <= q.procs[r].guaranteed {
        P.WithinGuarantee(m, q, r, |q.owner|);
      }
    }
  }

  /** Whoever is admitted with a guarantee gets no core on arrival exactly if none is marked idle
      and nobody has more than its guarantee. */
  lemma NewcomerExactly(m: Machine, sys: System, p: Pid, guaranteed: nat, tids: seq<Tid>, max: nat)
    requires SysInv(m, sys, {}) && Admissible(m, sys, p, guaranteed) && CanAttach(sys.sched, p, tids)
    requires 0 < guaranteed <= max
    ensures var sys' := Arrives(m, sys, p, guaranteed, tids, max);
            && SysInv(m, sys', {}) && p in sys'.policy.procs
            && sys'.policy.procs[p] == P.Usage(guaranteed, max, 0)
            && (Offered(m, sys', p).None? <==>
                  || tids == []
                  || (sys.policy.idle == {} && forall r :: r in sys.policy.procs ==>
                        sys.policy.procs[r].active <= sys.policy.procs[r].guaranteed))
  {
    var sys' := Arrives(m, sys, p, guaranteed, tids, max);
    ArrivesIs(m, sys, p, guaranteed, tids, max);
    NextKnown(m, sys, Admit(p, guaranteed));
    NextKnown(m, Next(m, sys, Admit(p, guaranteed)), Join(p, tids, max));
    hide SysInv, Next, Arrives, Admissible;
    SysParts(m, sys, {});
    NewRecent(m, sys.sched, p, tids);
    OfferedIs(m, sys', {}, p);
    assert p !in sys.policy.procs;
    hide P.Inv, Inv, Gone;
    P.NewcomerExactly(m, sys.policy, p, guaranteed, max, RecentOf(sys'.sched, p));
    NobodyAboveMeans(m, sys.policy);
    hide P.RecentOk, RecentOf, P.NobodyAbove, P.Choose, P.Near;
    SysParts(m, sys', {});
  }

  /** Detaching a process changes neither the marks nor who is admitted. */
  lemma LeaveIs(m: Machine, sys: System, p: Pid, q: Pid, guaranteed: nat, tids: seq<Tid>)
    requires SysInv(m, sys, {}) && IsAttached(sys.sched, p)
    requires Admissible(m, sys, q, guaranteed) && CanAttach(sys.sched, q, tids)
    ensures var gone := Next(m, sys, Leave(p));
            && SysInv(m, gone, {}) && Admissible(m, gone, q, guaranteed) && CanAttach(gone.sched, q, tids)
            && gone.policy.idle == sys.policy.idle && gone.policy.procs == sys.policy.procs - {p}
            && gone.clients == sys.clients && gone.nrGuaranteed == sys.nrGuaranteed
  {
    hide SysInv, Inv, Gone, P.Inv;
    NextKnown(m, sys, Leave(p));
    SysParts(m, sys, {});
    DepartedSched(sys.sched, p);
    hide Detached;
  }

  /** When p is detached, a newcomer that the control plane admits gets no core exactly if none is
      marked idle and none of the others is above its guarantee: the cores of p are lost to it. */
  lemma DetachStarves(m: Machine, sys: System, p: Pid, q: Pid, guaranteed: nat, tids: seq<Tid>, max: nat)
    requires SysInv(m, sys, {}) && IsAttached(sys.sched, p) && Admissible(m, sys, q, guaranteed)
    requires CanAttach(sys.sched, q, tids) && tids != [] && 0 < guaranteed <= max
    ensures var sys' := Arrives(m, Next(m, sys, Leave(p)), q, guaranteed, tids, max);
            && q in sys'.policy.procs && sys'.policy.procs[q] == P.Usage(guaranteed, max, 0)
            && (Offered(m, sys', q).None? <==>
                  sys.policy.idle == {} && forall r :: r in sys.policy.procs && r != p ==>
                    sys.policy.procs[r].active <= sys.policy.procs[r].guaranteed)
  {
    hide SysInv, Arrives, Admissible, CanAttach, Offered, IsAttached, Next;
    LeaveIs(m, sys, p, q, guaranteed, tids);
    var gone := Next(m, sys, Leave(p));
    NewcomerExactly(m, gone, q, guaranteed, tids, max);
    assert forall r :: r in gone.policy.procs <==> r in sys.policy.procs && r != p;
    assert forall r :: r in gone.policy.procs ==> gone.policy.procs[r] == sys.policy.procs[r];
  }

  lemma FirstArrival(m: Machine)
    requires m == Machine({0}, [0])
    ensures var sys := Arrives(m, Boot(m), 1, 0, [7], 1);
            && SysInv(m, sys, {}) && sys.clients == [Client(1, 0)] && sys.nrGuaranteed == 0
            && sys.policy == P.Attached(P.Booted(m), 1, 0, 1) && sys.sched == Attached(Booted(1), 1, [7])
  {
    BootKnown(m);
    NextKnown(m, Boot(m), Admit(1, 0));
    NextKnown(m, Next(m, Boot(m), Admit(1, 0)), Join(1, [7], 1));
    ArrivesIs(m, Boot(m), 1, 0, [7], 1);
    hide SysInv;
  }

  lemma OnlyCore(m: Machine, recent: seq<nat>)
    requires m == Machine({0}, [0]) && P.Near(m, recent) == []
    ensures P.Choose(m, P.Attached(P.Booted(m), 1, 0, 1), 1, recent) == Some(0)
  {
    var q := P.Attached(P.Booted(m), 1, 0, 1);
    assert P.IdleCores(q, 1) == [0];
    P.FirstOfBoth(q, 1, [0], P.BesideOwn(m, q, 1, 1) + P.OwnedCores(m, q, 1));
    assert P.Near(m, recent) + P.IdleCores(q, 1) + P.BesideOwn(m, q, 1, 1) + P.OwnedCores(m, q, 1) ==
           [0] + (P.BesideOwn(m, q, 1, 1) + P.OwnedCores(m, q, 1));
  }

  /** The first client takes the core. */
  lemma FirstServed(m: Machine)
    requires m == Machine({0}, [0])
    ensures var sys := Next(m, Arrives(m, Boot(m), 1, 0, [7], 1), CoreNeeded(1, true));
            && SysInv(m, sys, {}) && sys.clients == [Client(1, 0)] && sys.nrGuaranteed == 0
            && sys.policy.idle == {} && sys.policy.procs.Keys == {1}
            && sys.sched.procs.Keys == {1} && sys.sched.threads.Keys == {7}
  {
    hide SysInv, Arrives, Offered, P.Given, Inv, P.Inv, Gone, RunOn, Attached, P.Attached, Booted, P.Booted, IsAttached,
      P.Bootable;
    var sys := Arrives(m, Boot(m), 1, 0, [7], 1);
    FirstArrival(m);
    NextKnown(m, sys, CoreNeeded(1, true));
    SysParts(m, sys, {});
    FirstFacts(m, sys);
    GivenMoves(m, sys.policy, 1, 0);
    P.GivenMarks(sys.policy, 1, 0);
    RunOnGone(m, sys.sched, 1, 0, true);
    hide SameProcs, Served, ThreadEvolves;
    ServedIs(m, sys, 1, true);
  }

  lemma ServedIs(m: Machine, sys: System, p: Pid, txEmpty: bool)
    ensures Offered(m, sys, p).None? ==> Next(m, sys, CoreNeeded(p, txEmpty)) == sys
    ensures var c := Offered(m, sys, p);
            c.Some? && c.value < |sys.policy.owner| == |sys.policy.hist| ==>
              Next(m, sys, CoreNeeded(p, txEmpty)) ==
              sys.(sched := RunOn(m, sys.sched, p, c.value, txEmpty), policy := P.Given(sys.policy, p, c.value))
  {}

  lemma FirstFacts(m: Machine, sys: System)
    requires m == Machine({0}, [0])
    requires sys.policy == P.Attached(P.Booted(m), 1, 0, 1) && sys.sched == Attached(Booted(1), 1, [7])
    ensures sys.policy.procs.Keys == {1} && sys.policy.idle == {0} && |sys.policy.owner| == 1
    ensures sys.sched.procs.Keys == {1} && sys.sched.threads.Keys == {7} && sys.sched.procs[1].attached
    ensures Offered(m, sys, 1) == Some(0)
  {
    NewRecent(m, Booted(1), 1, [7]);
    OnlyCore(m, RecentOf(sys.sched, 1));
    assert (set x | x in [7]) == {7};
    hide P.Choose, RecentOf;
  }

  /** One core: a client without guarantee takes it and is detached.  Its core is still in use, its
      reservation is nothing, so a client with a guarantee of one is admitted, and gets none. */
  lemma StarvesFromBoot()
    ensures var m := Machine({0}, [0]);
            var events := [Admit(1, 0), Join(1, [7], 1), CoreNeeded(1, true), Leave(1), Admit(2, 1), Join(2, [8], 1)];
            var sys := Exec(m, Boot(m), events);
            && sys.clients == [Client(1, 0), Client(2, 1)] && sys.nrGuaranteed == 1 == P.InAllowed(m.allowed, 1)
            && 2 in sys.policy.procs && sys.policy.procs[2] == P.Usage(1, 1, 0)
            && Next(m, sys, CoreNeeded(2, true)) == sys
  {
    var m := Machine({0}, [0]);
    var events := [Admit(1, 0), Join(1, [7], 1), CoreNeeded(1, true), Leave(1), Admit(2, 1), Join(2, [8], 1)];
    assert P.InAllowed(m.allowed, 1) == 1;
    FirstServed(m);
    var s3 := Next(m, Arrives(m, Boot(m), 1, 0, [7], 1), CoreNeeded(1, true));
    SecondArrival(m, s3);
    SixSteps(m, Boot(m), events);
    hide Next, Exec, SysInv;
  }

  lemma SixSteps(m: Machine, sys: System, es: seq<Event>)
    requires |es| == 6
    ensures Exec(m, sys, es) ==
            Next(m, Next(m, Next(m, Next(m, Next(m, Next(m, sys, es[0]), es[1]), es[2]), es[3]), es[4]), es[5])
  {
    hide Next;
    assert es[1..][1..] == es[2..] && es[2..][1..] == es[3..] && es[3..][1..] == es[4..] && es[4..][1..] == es[5..];
    assert es[5..][1..] == [];
    var s2 := Next(m, Next(m, sys, es[0]), es[1]);
    var s4 := Next(m, Next(m, s2, es[2]), es[3]);
    assert Exec(m, sys, es) == Exec(m, s2, es[2..]);
    assert Exec(m, s2, es[2..]) == Exec(m, s4, es[4..]);
    assert Exec(m, s4, es[4..]) == Exec(m, Next(m, Next(m, s4, es[4]), es[5]), []);
  }

  lemma SecondArrival(m: Machine, sys: System)
    requires m == Machine({0}, [0]) && SysInv(m, sys, {}) && sys.clients == [Client(1, 0)] && sys.nrGuaranteed == 0
    requires sys.policy.idle == {} && sys.policy.procs.Keys == {1}
    requires sys.sched.procs.Keys == {1} && sys.sched.threads.Keys == {7}
    ensures var sys' := Arrives(m, Next(m, sys, Leave(1)), 2, 1, [8], 1);
            && sys'.clients == [Client(1, 0), Client(2, 1)] && sys'.nrGuaranteed == 1
            && 2 in sys'.policy.procs && sys'.policy.procs[2] == P.Usage(1, 1, 0)
            && Next(m, sys', CoreNeeded(2, true)) == sys'
  {
    hide SysInv, Inv, P.Inv, Gone, Offered, Arrives, Next, Attached, P.Attached, P.Bootable;
    SysParts(m, sys, {});
    assert IsAttached(sys.sched, 1);
    hide SameProcs;
    SecondFits(m, sys);
    hide Admissible, CanAttach, IsAttached;
    LeaveIs(m, sys, 1, 2, 1, [8]);
    DetachStarves(m, sys, 1, 2, 1, [8], 1);
    var gone := Next(m, sys, Leave(1));
    ArrivesIs(m, gone, 2, 1, [8], 1);
    ServedIs(m, Arrives(m, gone, 2, 1, [8], 1), 2, true);
    assert [Client(1, 0)] + [Client(2, 1)] == [Client(1, 0), Client(2, 1)];
  }

  lemma SecondFits(m: Machine, sys: System)
    requires m == Machine({0}, [0]) && sys.clients == [Client(1, 0)] && sys.nrGuaranteed == 0
    requires sys.sched.procs.Keys == {1} && sys.sched.threads.Keys == {7}
    ensures Admissible(m, sys, 2, 1) && CanAttach(sys.sched, 2, [8])
  {
    assert P.InAllowed(m.allowed, 1) == 1;
    assert Pids(sys.clients) == [1];
  }

  // ----- It ends ----------------------------------------------------------------------------------------

  /** The kernel module's answers make the fast pass report the core. */
  predicate ReportedBy(m: Machine, s: State, answers: seq<Answer>, c: nat) {
    && c < |s.cores| && c < |answers| && c in m.allowed
    && Reports(s.cores[c], answers[c].runDone, answers[c].idle, answers[c].rewake)
  }

  /** The fast pass looks at every core by itself. */
  lemma {:induction false} ReportedAre(m: Machine, s: State, answers: seq<Answer>, n: nat, c: nat)
    requires Inv(s, {}, 0, 0) && n <= |answers| == |s.cores| && c < |s.cores|
    ensures var s' := PollAll(m, s, answers, n);
            && Inv(s', {}, 0, 0) && |s'.cores| == |s.cores| && (c >= n ==> s'.cores[c] == s.cores[c])
            && (c in Reported(m, s, answers, n) <==> c < n && ReportedBy(m, s, answers, c))
  {
    hide Inv, PollOne, Polled, Gentle;
    if n > 0 {
      ReportedAre(m, s, answers, n - 1, c);
      ReportedAre(m, s, answers, n - 1, n - 1);
      var t, a := PollAll(m, s, answers, n - 1), answers[n - 1];
      if n - 1 in m.allowed {
        PollOneKeeps(t, n - 1, a.runDone, a.idle, a.rewake, a.txEmpty);
      }
    }
  }

  lemma IdleSeenIs(m: Machine, sys: System, reported: set<nat>, core: nat, c: nat)
    requires SysInv(m, sys, reported) && core in reported && core < |m.siblings| && c < |m.siblings|
    ensures var sys' := IdleSeen(m, sys, core);
            && |sys'.policy.owner| == |m.siblings| == |sys.policy.owner|
            && (c != core ==> sys'.policy.owner[c] == sys.policy.owner[c] && (c in sys'.policy.idle <==> c in sys.policy.idle))
            && (sys'.policy.owner[core].Some? || core in sys'.policy.idle)
  {
    assert CoreKnown(m, sys.sched, sys.policy, reported, core);
    hide SysInv, Inv, P.Inv, Gone, P.WentIdle, RunOn, P.Bootable, CoreKnown, SameGuarantees;
    SysParts(m, sys, reported);
    WentIdleMoves(m, sys.policy, core, Free(sys.sched));
  }

  lemma {:induction false} IdlePassIs(m: Machine, sys: System, reported: set<nat>, n: nat, c: nat)
    requires SysInv(m, sys, reported) && n <= |m.siblings| && c < |m.siblings|
    ensures var sys' := IdlePass(m, sys, reported, n);
            && |sys'.policy.owner| == |m.siblings| == |sys.policy.owner|
            && (if c in reported && c < n then sys'.policy.owner[c].Some? || c in sys'.policy.idle
                else sys'.policy.owner[c] == sys.policy.owner[c] && (c in sys'.policy.idle <==> c in sys.policy.idle))
  {
    hide SysInv, IdleSeen;
    if n > 0 {
      IdlePassIs(m, sys, reported, n - 1, c);
      IdlePassKnown(m, sys, reported, n - 1);
      var left := set x | x in reported && x >= n - 1;
      if n - 1 in reported {
        IdleSeenIs(m, IdlePass(m, sys, reported, n - 1), left, n - 1, c);
      }
    } else {
      CoresOf(m, sys, reported);
    }
  }

  /** A round of polling gives away or marks exactly the cores it reports; all others stay as they
      are with the policy. */
  lemma PollsExactly(m: Machine, sys: System, answers: seq<Answer>, c: nat)
    requires SysInv(m, sys, {}) && |answers| == |m.siblings| && c < |m.siblings|
    ensures var q, q' := sys.policy, Polls(m, sys, answers).policy;
            && |q'.owner| == |q.owner| == |m.siblings|
            && (if ReportedBy(m, sys.sched, answers, c) then q'.owner[c].Some? || c in q'.idle
                else q'.owner[c] == q.owner[c] && (c in q'.idle <==> c in q.idle))
  {
    hide SysInv, PollAll, Reported, IdlePass, Inv, P.Inv, Gone, ReportedBy;
    var n := |answers|;
    CoresOf(m, sys, {});
    SysParts(m, sys, {});
    ReportedAre(m, sys.sched, answers, n, c);
    PollAllKnown(m, sys, answers, n);
    var sys1, r := sys.(sched := PollAll(m, sys.sched, answers, n)), Reported(m, sys.sched, answers, n);
    IdlePassIs(m, sys1, r, n, c);
  }

  /** The cores held by processes that are no longer attached have all been seen idle in the round. */
  ghost predicate LeftSeen(m: Machine, sys: System, answers: seq<Answer>) {
    forall c :: 0 <= c < |sys.sched.cores| && Holder(sys.sched, c).Some? && AttachedHolder(sys.sched, c).None? ==>
      ReportedBy(m, sys.sched, answers, c)
  }

  lemma NoneUnmarked(m: Machine, sys: System, answers: seq<Answer>)
    requires SysInv(m, sys, {}) && |answers| == |m.siblings| && LeftSeen(m, sys, answers)
    ensures P.Unmarked(m, Polls(m, sys, answers).policy) == {}
  {
    hide SysInv, Polls, ReportedBy, Holder, AttachedHolder, Inv, P.Inv, Gone, SameProcs;
    SysParts(m, sys, {});
    var q' := Polls(m, sys, answers).policy;
    forall c | c in P.Unmarked(m, q') ensures false {
      PollsExactly(m, sys, answers, 0);
      PollsExactly(m, sys, answers, c);
      UnmarkedAreLeft(m, sys, c);
    }
  }

  lemma {:induction false} NothingHeldByLeft(m: Machine, sys: System, cs: seq<Client>)
    requires SysInv(m, sys, {}) && P.Unmarked(m, sys.policy) == {}
    ensures HeldByLeft(sys, cs) == 0
  {
    if cs != [] {
      hide HeldByLeft;
      NothingHeldByLeft(m, sys, cs[1..]);
      if cs[0].p !in sys.policy.procs {
        NotHolding(m, sys, cs[0].p);
      }
    }
  }

  lemma NotHolding(m: Machine, sys: System, p: Pid)
    requires SysInv(m, sys, {}) && P.Unmarked(m, sys.policy) == {} && p !in sys.policy.procs
    ensures Held(sys.sched, p) == 0
  {
    SysParts(m, sys, {});
    hide SysInv, Inv, P.Inv, Gone, P.Bootable, P.Unmarked;
    var s := sys.sched;
    forall c | 0 <= c < |Holders(s)| ensures Holders(s)[c] != Some(p) {
      UnmarkedAreLeft(m, sys, c);
    }
    P.OwnedNone(Holders(s), p, |s.cores|);
  }

  /** Starvation ends: once every core that removed clients have left has been seen idle in a round of
      polling, every process below its guarantee gets a core. */
  lemma StarvationEnds(m: Machine, sys: System, answers: seq<Answer>, p: Pid)
    requires SysInv(m, sys, {}) && |answers| == |m.siblings| && LeftSeen(m, sys, answers)
    requires var q := Polls(m, sys, answers).policy; p in q.procs && q.procs[p].active < q.procs[p].guaranteed
    ensures var sys' := Polls(m, sys, answers);
            && SysInv(m, sys', {}) && |m.siblings| == |sys'.policy.owner|
            && P.Choose(m, sys'.policy, p, RecentOf(sys'.sched, p)).Some?
  {
    hide SysInv, Polls, LeftSeen, Inv, P.Inv, Gone, P.Choose, P.NobodyAbove, P.NoneNearby, P.RecentOk, RecentOf, P.Bootable;
    PollsKnown(m, sys, answers);
    NoneUnmarked(m, sys, answers);
    var sys' := Polls(m, sys, answers);
    SysParts(m, sys', {});
    OfferedIs(m, sys', {}, p);
    NothingHeldByLeft(m, sys', sys'.clients);
    P.NoCoreExactly(m, sys'.policy, p, RecentOf(sys'.sched, p));
    if sys'.policy.idle == {} && P.NobodyAbove(m, sys'.policy) {
      RefusedMeans(m, sys', p);
    }
  }

  /** And once a removed client has been released and destroyed, its reservation can be given again. */
  lemma DestroyedFrees(m: Machine, sys: System, p: Pid, q: Pid)
    requires SysInv(m, sys, {}) && p in sys.sched.released && IsClient(sys.clients, p)
    requires q !in sys.sched.procs && !IsClient(sys.clients, q)
    ensures var i := IndexOf(sys.clients, p);
            i < |sys.clients| && Admissible(m, Destroyed(sys, p), q, sys.clients[i].guaranteed)
  {
    hide Inv, P.Inv, Gone, Homes, SameProcs, CoreKnown, P.InAllowed;
    var i, n := IndexOf(sys.clients, p), |sys.clients| - 1;
    RemovedIs(sys.clients, i);
    var left := sys.clients[i := sys.clients[n]][..n];
    hide Total;
    assert sys.nrGuaranteed >= sys.clients[i].guaranteed;
    forall j | 0 <= j < |left| ensures Pids(left)[j] != q {
      assert left[j] == sys.clients[if j == i then n else j];
    }
  }
}
