/**
 The scheduler's code, in place.  Every method is proved to do what the function of the state
 says that the runs are built from.
 */
module IokScheduler {
  import opened Basics
  import opened IokMachine
  import opened IokSched
  import opened IokRuns

  class Scheduler {
    const machine: Machine
    var threads: map<Tid, Thread>
    var procs: map<Pid, Proc>
    var cores: seq<Core>
    var ts: seq<Tid>
    var released: seq<Pid>
    var late: bool

    ghost function View(): State
      reads this
    {
      State(threads, procs, cores, ts, released, late)
    }

    ghost predicate Valid()
      reads this
    {
      Inv(View(), {}, 0, 0) && Logged(View())
    }

    constructor (machine: Machine, numCores: nat)
      ensures Valid() && View() == Booted(numCores) && this.machine == machine
    {
      this.machine := machine;
      threads, procs, ts, released, late := map[], map[], [], [], false;
      cores := seq(numCores, _ => Core(None, None, false, false, false));
      new;
      BootedInv(numCores);
    }

    // The primitives

    method ProcGet(p: Pid)
      requires p in procs
      modifies `procs, `late
      ensures View() == Get(old(View()), p)
    {
      late := late || procs[p].refs == 0;
      procs := procs[p := procs[p].(refs := procs[p].refs + 1)];
    }

    method ProcPut(p: Pid)
      requires p in procs && procs[p].refs > 0
      modifies `procs, `released
      ensures View() == Put(old(View()), p)
    {
      procs := procs[p := procs[p].(refs := procs[p].refs - 1)];
      if procs[p].refs == 0 {
        released := released + [p];
      }
    }

    method PollThread(t: Tid)
      requires t in threads && threads[t].proc in procs
      modifies this
      ensures View() == Poll(old(View()), t)
    {
      if threads[t].tsIdx.Some? {
        return;
      }
      ProcGet(threads[t].proc);
      threads := threads[t := threads[t].(tsIdx := Some(|ts|))];
      ts := ts + [t];
    }

    method UnpollThread(t: Tid)
      requires t in threads && (threads[t].tsIdx.Some? ==> UnpollReady(View(), t))
      modifies this
      ensures View() == Unpoll(old(View()), t)
    {
      if threads[t].tsIdx.None? {
        return;
      }
      var at, last := threads[t].tsIdx.value, ts[|ts| - 1];
      var p := threads[t].proc;
      ts := ts[at := last][..|ts| - 1];
      threads := threads[last := threads[last].(tsIdx := Some(at))];
      threads := threads[t := threads[t].(tsIdx := None)];
      ProcPut(p);
    }

    /** sched_enable_kthread. */
    method EnableKthread(t: Tid, core: nat)
      requires t in threads && threads[t].proc in procs
      modifies this
      ensures View() == Poll(Enable(old(View()), t, core), t)
    {
      var p := procs[threads[t].proc];
      procs := procs[threads[t].proc := p.(actives := p.actives + [t], idles := Without(p.idles, t))];
      threads := threads[t := threads[t].(active := true, core := core, atIdx := |p.actives|)];
      PollThread(t);
    }

    /** sched_disable_kthread. */
    method DisableKthread(t: Tid, txEmpty: bool)
      requires DropReady(View(), t, txEmpty)
      modifies this
      ensures var d := Disable(old(View()), t); View() == if txEmpty then Unpoll(d, t) else d
    {
      hide Unpoll, UnpollReady;
      Unlink(t);
      if txEmpty {
        UnpollThread(t);
      }
    }

    /** sched_disable_kthread up to its queues. */
    method Unlink(t: Tid)
      requires DisableReady(View(), t)
      modifies this
      ensures View() == Disable(old(View()), t)
    {
      var th := threads[t];
      var p := procs[th.proc];
      var n := |p.actives| - 1;
      var last := p.actives[n];
      threads := threads[t := th.(active := false)];
      threads := threads[last := threads[last].(atIdx := th.atIdx)];
      procs := procs[th.proc := p.(actives := p.actives[th.atIdx := last][..n], idles := [t] + p.idles)];
    }

    /** sched_disable_kthread and proc_put, for a thread that loses its core. */
    method DropKthread(t: Tid, txEmpty: bool)
      requires DropReady(View(), t, txEmpty)
      modifies this
      ensures View() == Drop(old(View()), t, txEmpty)
    {
      hide Disable, Unpoll, UnpollReady, DisableReady;
      DropInfo(View(), t, txEmpty);
      var p := threads[t].proc;
      DisableKthread(t, txEmpty);
      ProcPut(p);
    }

    // The scheduler's interface

    /** __sched_run: th gets the core, now or when the run under way has finished; whoever it
        displaces leaves. */
    method SchedRun(core: nat, th: Option<Tid>, txEmpty: bool)
      requires core < |cores| && Boarding(View(), core, th)
      modifies this
      ensures View() == Assign(old(View()), core, th, txEmpty)
      ensures cores == old(cores)[core := if old(cores[core].wait)
                                          then old(cores[core]).(next := th, pending := true)
                                          else old(cores[core]).(cur := th, wait := true, idle := false)]
      ensures Changed(old(View()), View(), if old(cores[core].wait) then old(cores[core].next) else old(cores[core].cur),
                      txEmpty)
    {
      hide Inv, Boarding, Drop, DropReady, Changed;
      GiveCore(View(), core, th);
      SwitchLeaves(View(), core, Given(cores[core], th), Evicted(cores[core]), txEmpty);
      if cores[core].wait {
        if cores[core].next.Some? {
          DropKthread(cores[core].next.value, txEmpty);
        }
        cores := cores[core := cores[core].(next := th, pending := true)];
        return;
      }
      if cores[core].cur.Some? {
        DropKthread(cores[core].cur.value, txEmpty);
      }
      cores := cores[core := cores[core].(cur := th, wait := true, idle := false)];
    }

    /** sched_run_on_core: false stands for the error returns. */
    method RunOnCore(p: Pid, core: nat, txEmpty: bool) returns (ok: bool)
      requires Valid() && p in procs && procs[p].refs > 0
      modifies this
      ensures Valid() && View() == RunOn(machine, old(View()), p, core, txEmpty)
      ensures ok == (old(procs[p].idles) != [] && core < |old(cores)| && core in machine.allowed)
      ensures !ok ==> View() == old(View())
    {
      hide Inv, Gentle, Logged, Switch, Given, Boarding, Displaces, Pick, Enable, Poll, Get;
      RunOnKeeps(machine, View(), p, core, txEmpty);
      GentleLogged(View(), RunOn(machine, View(), p, core, txEmpty));
      if procs[p].idles == [] || core >= |cores| || core !in machine.allowed {
        return false;
      }
      var t := PickKthread(p, core);
      PickIdle(machine, View(), p, core);
      IdleThread(View(), p, t);
      StartKeeps(View(), t, core);
      GetKeepsThreads(View(), p);
      ProcGet(p);
      EnableKthread(t, core);
      SchedRun(core, Some(t), txEmpty);
      return true;
    }

    /** sched_pick_kthread. */
    method PickKthread(p: Pid, core: nat) returns (t: Tid)
      requires p in procs && procs[p].idles != []
      ensures t == Pick(machine, View(), p, core)
    {
      var idles := procs[p].idles;
      var r := FindOn(idles, core);
      if r.Some? {
        return r.value;
      }
      r := FindOn(idles, Sibling(machine, core));
      if r.Some? {
        return r.value;
      }
      return idles[|idles| - 1];
    }

    method FindOn(idles: seq<Tid>, core: nat) returns (r: Option<Tid>)
      ensures r == FirstOn(View(), idles, core)
    {
      for i := 0 to |idles|
        invariant FirstOn(View(), idles, core) == FirstOn(View(), idles[i..], core)
      {
        assert idles[i..][0] == idles[i] && idles[i..][1..] == idles[i + 1..];
        if idles[i] in threads && threads[idles[i]].core == core {
          return Some(idles[i]);
        }
      }
      return None;
    }

    /** sched_idle_on_core. */
    method IdleOnCore(core: nat, txEmpty: bool) returns (ok: bool)
      requires Valid()
      modifies this
      ensures Valid() && View() == IdleOn(machine, old(View()), core, txEmpty)
      ensures ok == (core < |old(cores)| && core in machine.allowed)
    {
      hide Inv, Gentle, Logged, Switch, Given, Boarding, Displaces;
      IdleOnKeeps(machine, View(), core, txEmpty);
      GentleLogged(View(), IdleOn(machine, View(), core, txEmpty));
      if core >= |cores| || core !in machine.allowed {
        return false;
      }
      BoardNobody(View(), core);
      SchedRun(core, None, txEmpty);
      return true;
    }

    /** One core in the fast pass of sched_poll; wentIdle says that it is reported to the policy. */
    method PollCore(core: nat, runDone: bool, idle: bool, rewake: bool, txEmpty: bool) returns (wentIdle: bool)
      requires Valid() && core < |cores|
      modifies this
      ensures Valid() && View() == PollOne(old(View()), core, runDone, idle, rewake, txEmpty)
      ensures cores == old(cores)[core := Polled(old(cores[core]), runDone, idle, rewake)]
      ensures wentIdle <==> cores[core].idle && !old(cores[core].idle)
    {
      hide Inv, Gentle, Logged, Finish, ToIdle;
      PollOneKeeps(View(), core, runDone, idle, rewake, txEmpty);
      GentleLogged(View(), PollOne(View(), core, runDone, idle, rewake, txEmpty));
      if cores[core].wait && runDone {
        FinishKeeps(View(), core, txEmpty);
        FinishRun(core, txEmpty);
      }
      wentIdle := false;
      if !cores[core].wait && !cores[core].idle && idle {
        wentIdle := GoIdle(core, rewake, txEmpty);
      }
    }

    /** A run request has been carried out: the pending thread follows and the running one leaves,
        or nothing is awaited any more. */
    method FinishRun(core: nat, txEmpty: bool)
      requires Inv(View(), {}, 0, 0) && core < |cores|
      modifies this
      ensures View() == Finish(old(View()), core, txEmpty)
      ensures cores == old(cores)[core := if old(cores[core].pending)
                                          then old(cores[core]).(cur := old(cores[core].next), next := None, pending := false)
                                          else old(cores[core]).(wait := false)]
      ensures Changed(old(View()), View(), if old(cores[core].pending) then old(cores[core].cur) else None, txEmpty)
    {
      hide Inv, Drop, DropReady, Changed, Displaces;
      if cores[core].pending {
        Promote(View(), core);
        SwitchLeaves(View(), core, RunDone(cores[core]), cores[core].cur, txEmpty);
        var th := cores[core].next;
        ghost var before := View();
        cores := cores[core := cores[core].(next := None, pending := false)];
        if cores[core].cur.Some? {
          DropAgain(before, core, cores[core], RunDone(before.cores[core]), cores[core].cur.value, txEmpty);
          DropKthread(cores[core].cur.value, txEmpty);
        }
        cores := cores[core := cores[core].(cur := th)];
      } else {
        StopWaiting(View(), core);
        SwitchLeaves(View(), core, RunDone(cores[core]), None, txEmpty);
        cores := cores[core := cores[core].(wait := false)];
      }
    }

    /** The core has gone idle: its thread is woken again if it has work, or leaves, and then the
        core is idle. */
    method GoIdle(core: nat, rewake: bool, txEmpty: bool) returns (reported: bool)
      requires Inv(View(), {}, 0, 0) && core < |cores| && !cores[core].wait
      modifies this
      ensures View() == ToIdle(old(View()), core, rewake, txEmpty)
      ensures reported <==> !(old(cores[core].cur).Some? && rewake)
      ensures cores == old(cores)[core := if reported then old(cores[core]).(cur := None, idle := true)
                                          else old(cores[core]).(wait := true)]
      ensures Changed(old(View()), View(), if reported then old(cores[core].cur) else None, txEmpty)
    {
      hide Inv, Drop, DropReady, Changed, Displaces;
      if cores[core].cur.Some? {
        if rewake {
          Rewake(View(), core);
          SwitchLeaves(View(), core, Idled(cores[core], rewake), None, txEmpty);
          cores := cores[core := cores[core].(wait := true)];
          return false;
        }
        Vacate(View(), core);
        SwitchLeaves(View(), core, Idled(cores[core], rewake), cores[core].cur, txEmpty);
        DropKthread(cores[core].cur.value, txEmpty);
        cores := cores[core := cores[core].(cur := None)];
      } else {
        Vacate(View(), core);
        SwitchLeaves(View(), core, Idled(cores[core], rewake), None, txEmpty);
      }
      cores := cores[core := cores[core].(idle := true)];
      return true;
    }

    // Clients and packets

    /** sched_attach_proc of a process with the threads tids. */
    method AttachProc(p: Pid, tids: seq<Tid>)
      requires Valid() && CanAttach(View(), p, tids)
      modifies this
      ensures Valid() && View() == Attached(old(View()), p, tids)
      ensures procs == old(procs)[p := Proc([], tids, 1, true, 0)] && cores == old(cores)
    {
      hide Inv, Gentle, Logged;
      AttachKeepsAll(View(), p, tids);
      GentleLogged(View(), Attached(View(), p, tids));
      threads := NewThreads(threads, |cores|, p, tids);
      procs := procs[p := Proc([], tids, 1, true, 0)];
    }

    /** dp_clients_remove_client. */
    method DetachProc(p: Pid)
      requires Valid() && p in procs && procs[p].attached
      modifies this
      ensures Valid() && View() == Detached(old(View()), p)
    {
      hide Inv, Gentle, Logged, Put;
      AttachedCounts(View(), p);
      ReturnKeeps(View(), p, procs[p].(attached := false));
      GentleLogged(View(), Detached(View(), p));
      procs := procs[p := procs[p].(attached := false)];
      ProcPut(p);
    }

    /** tx_send_completion. */
    method CompletePacket(p: Pid)
      requires Valid() && p in procs && procs[p].holds > 0
      modifies this
      ensures Valid() && View() == Completed(old(View()), p)
    {
      hide Inv, Gentle, Logged, Put;
      HeldCounts(View(), p);
      ReturnKeeps(View(), p, procs[p].(holds := procs[p].holds - 1));
      GentleLogged(View(), Completed(View(), p));
      procs := procs[p := procs[p].(holds := procs[p].holds - 1)];
      ProcPut(p);
    }

    /** tx_burst, as far as threads and references go. */
    method TxBurst(batch: seq<Pull>)
      requires Valid()
      modifies this
      ensures Valid() && View() == Transmitted(old(View()), batch)
    {
      hide Inv, Gentle, Logged, Drained, Packets, Hold;
      TransmitKeeps(View(), batch);
      GentleLogged(View(), Transmitted(View(), batch));
      var packets: seq<Pid> := [];
      for i := 0 to |batch|
        invariant Inv(View(), {}, 0, 0) && DrainAll(View(), batch[i..]) == DrainAll(old(View()), batch)
        invariant packets + PacketsOf(View(), batch[i..]) == PacketsOf(old(View()), batch)
      {
        assert batch[i..][0] == batch[i] && batch[i..][1..] == batch[i + 1..];
        DrainKeeps(View(), batch[i]);
        var more := DrainQueue(batch[i]);
        assert packets + (more + PacketsOf(View(), batch[i + 1..])) == packets + more + PacketsOf(View(), batch[i + 1..]);
        packets := packets + more;
      }
      assert batch[|batch|..] == [];
      assert packets + [] == packets;
      for i := 0 to |packets|
        invariant HoldAll(View(), packets[i..]) == HoldAll(DrainAll(old(View()), batch), packets)
      {
        assert packets[i..][0] == packets[i] && packets[i..][1..] == packets[i + 1..];
        PreparePacket(packets[i]);
      }
      assert packets[|packets|..] == [];
    }

    /** tx_drain_queue: the processes of the packets taken. */
    method DrainQueue(x: Pull) returns (packets: seq<Pid>)
      requires Inv(View(), {}, 0, 0)
      modifies this
      ensures View() == Drained(old(View()), x) && packets == Packets(old(View()), x)
    {
      if x.t !in threads || threads[x.t].proc !in procs || threads[x.t].tsIdx.None? {
        return [];
      }
      var p := threads[x.t].proc;
      packets := seq(x.n, _ => p);
      if x.emptied && !threads[x.t].active {
        AnyWho(View(), {}, 0, p);
        CanUnpoll(View(), {}, 0, x.t);
        hide Inv, Unpoll, UnpollReady;
        UnpollThread(x.t);
      }
    }

    /** tx_prepare_tx_mbuf. */
    method PreparePacket(p: Pid)
      modifies this
      ensures View() == Hold(old(View()), p)
    {
      if p in procs {
        ProcGet(p);
        procs := procs[p := procs[p].(holds := procs[p].holds + 1)];
      }
    }

    // Runs

    /** Any sequence of events, with any answers of the kernel module: the code goes through the
        states of the run. */
    method Run(events: seq<Event>)
      requires Valid()
      modifies this
      ensures Valid() && View() == Exec(machine, old(View()), events)
    {
      hide Inv, Logged, Next;
      for i := 0 to |events|
        invariant Valid() && Exec(machine, View(), events[i..]) == Exec(machine, old(View()), events)
      {
        assert events[i..][0] == events[i] && events[i..][1..] == events[i + 1..];
        Handle(events[i]);
      }
    }

    method Handle(e: Event)
      requires Valid()
      modifies this
      ensures Valid() && View() == Next(machine, old(View()), e)
    {
      hide Inv, Logged, NoDups, Attached, Put, RunOn, IdleOn, PollOne, Transmitted;
      match e
      case Attach(p, tids) =>
        if p !in procs && NoDups(tids) && forall i | 0 <= i < |tids| :: tids[i] !in threads {
          AttachProc(p, tids);
        }
      case Detach(p) =>
        if p in procs && procs[p].attached {
          DetachProc(p);
        }
      case CoreWanted(p, core, txEmpty) =>
        if p in procs && procs[p].attached {
          AttachedCounts(View(), p);
          var ok := RunOnCore(p, core, txEmpty);
        }
      case IdleWanted(core, txEmpty) => var ok := IdleOnCore(core, txEmpty);
      case CorePolled(core, runDone, idle, rewake, txEmpty) =>
        if core < |cores| {
          var wentIdle := PollCore(core, runDone, idle, rewake, txEmpty);
        } else {
          NoSuchCore(View(), core, runDone, idle, rewake, txEmpty);
        }
      case Transmit(batch) => TxBurst(batch);
      case Complete(p) =>
        if p in procs && procs[p].holds > 0 {
          CompletePacket(p);
        }
    }
  }

  lemma NoSuchCore(s: State, core: nat, runDone: bool, idle: bool, rewake: bool, txEmpty: bool)
    requires core >= |s.cores|
    ensures PollOne(s, core, runDone, idle, rewake, txEmpty) == s
  {}

  lemma GentleLogged(s: State, s': State)
    requires Gentle(s, s') && Logged(s)
    ensures Logged(s')
  {}

  lemma HeldCounts(s: State, p: Pid)
    requires Inv(s, {}, 0, 0) && p in s.procs && s.procs[p].holds > 0
    ensures s.procs[p].refs > 0
  {
    assert RefOk(s, 0, p, 0);
  }

  lemma GetKeepsThreads(s: State, p: Pid)
    ensures Get(s, p).threads == s.threads && Get(s, p).procs.Keys == s.procs.Keys
  {}

  lemma DropInfo(s: State, t: Tid, txEmpty: bool)
    requires DropReady(s, t, txEmpty)
    ensures t in s.threads && s.threads[t].proc in s.procs
  {}

  /** The thread in out has left its core, and nothing else has changed but the cores; or nothing
      else at all. */
  ghost predicate Changed(s: State, s': State, out: Option<Tid>, txEmpty: bool) {
    if out.Some? then Departs(s, s', out.value, txEmpty) else s' == s.(cores := s'.cores)
  }

  /** A core's slots may be changed after the thread has been dropped. */
  lemma SwitchLeaves(s: State, core: nat, x: Core, out: Option<Tid>, txEmpty: bool)
    requires Displaces(s, core, x, out)
    ensures Changed(s, Switch(s, core, x, out, txEmpty), out, txEmpty)
    ensures out.Some? ==> DropReady(s, out.value, txEmpty) && Drop(s, out.value, txEmpty).cores == s.cores
    ensures out.Some? ==> Switch(s, core, x, out, txEmpty) == SetCore(Drop(s, out.value, txEmpty), core, x)
  {
    hide Inv, Drop, DropReady;
    if out.Some? {
      CanDrop(SetCore(s, core, x), out.value, txEmpty);
      DropAside(s, core, x, out.value, txEmpty);
      DropMeans(s, out.value, txEmpty);
      DepartsAside(s, Drop(s, out.value, txEmpty), core, x, out.value, txEmpty);
    }
  }

  lemma DepartsAside(s: State, s': State, core: nat, x: Core, t: Tid, txEmpty: bool)
    requires core < |s'.cores| && Departs(s, s', t, txEmpty)
    ensures Departs(s, SetCore(s', core, x), t, txEmpty)
  {}

  /** Nor does it matter that some of the slots have been changed before. */
  lemma DropAgain(s: State, core: nat, x: Core, y: Core, t: Tid, txEmpty: bool)
    requires core < |s.cores| && DropReady(s, t, txEmpty) && Drop(s, t, txEmpty).cores == s.cores
    ensures DropReady(SetCore(s, core, x), t, txEmpty)
    ensures Drop(SetCore(s, core, x), t, txEmpty).cores == s.cores[core := x]
    ensures SetCore(Drop(SetCore(s, core, x), t, txEmpty), core, y) == SetCore(Drop(s, t, txEmpty), core, y)
  {
    var v := SetCore(s, core, x);
    assert SetCore(v, core, s.cores[core]) == s;
    hide Drop, DropReady;
    DropAside(v, core, s.cores[core], t, txEmpty);
  }

  // ----- Flow steering ----------------------------------------------------------------------------

  /** How many of the first n flows are not the own flow of an active thread. */
  function Others(actives: seq<nat>, n: nat): nat {
    if n == 0 then 0 else Others(actives, n - 1) + if n - 1 in actives then 0 else 1
  }

  /** The thread that gets flow i: an active thread's own flow goes to itself, and the others go
      to the active threads in turn. */
  function FlowTo(actives: seq<nat>, i: nat): nat
    requires actives != []
  {
    if i in actives then i else InTurn(actives, Others(actives, i))
  }

  function InTurn(actives: seq<nat>, turn: nat): nat
    requires actives != []
  {
    actives[turn % |actives|]
  }

  /** How many of the first n flows that are nobody's own go to thread t. */
  function Steered(actives: seq<nat>, flows: seq<Option<nat>>, t: nat, n: nat): nat
    requires n <= |flows|
  {
    if n == 0 then 0
    else Steered(actives, flows, t, n - 1) + if n - 1 !in actives && flows[n - 1] == Some(t) then 1 else 0
  }

  /** After so many turns each active thread has had q of them, and the first r one more. */
  lemma {:induction false} SharesAre(actives: seq<nat>, flows: seq<Option<nat>>, n: nat) returns (q: nat, r: nat)
    requires actives != [] && NoDups(actives) && n <= |flows|
    requires forall i :: 0 <= i < n ==> flows[i] == Some(FlowTo(actives, i))
    ensures Others(actives, n) == q * |actives| + r && r < |actives|
    ensures forall j :: 0 <= j < |actives| ==> Steered(actives, flows, actives[j], n) == q + if j < r then 1 else 0
  {
    q, r := 0, 0;
    if n > 0 {
      q, r := SharesAre(actives, flows, n - 1);
      if n - 1 !in actives {
        TurnOf(q, r, |actives|);
        assert flows[n - 1] == Some(actives[r]);
        if r + 1 < |actives| {
          r := r + 1;
        } else {
          q, r := q + 1, 0;
        }
      }
    }
  }

  lemma TurnOf(q: nat, r: nat, m: nat)
    requires r < m
    ensures (q * m + r) % m == r && (q + 1) * m == q * m + m
  {
    if q > 0 {
      TurnOf(q - 1, r, m);
      assert q * m + r == (q - 1) * m + r + m;
      AddModulus((q - 1) * m + r, m);
    }
  }

  lemma AddModulus(a: nat, m: nat)
    requires m > 0
    ensures (a + m) % m == a % m
  {
    var q := a / m;
    assert a + m == m * (q + 1) + a % m;
    Remainder(a + m, m, q + 1, a % m);
  }

  lemma Remainder(a: nat, m: nat, q: nat, r: nat)
    requires m > 0 && r < m && a == m * q + r
    ensures a % m == r
  {
    var d := a / m - q;
    assert m * d == r - a % m;
    AtLeast(m, d);
  }

  lemma AtLeast(m: nat, d: int)
    ensures d >= 1 ==> m * d >= m
    ensures d <= -1 ==> m * d <= 0 - m
  {}

  lemma SpreadEvenly(actives: seq<nat>, flows: seq<Option<nat>>, n: nat)
    requires actives != [] && NoDups(actives) && n <= |flows|
    requires forall i :: 0 <= i < n ==> flows[i] == Some(FlowTo(actives, i))
    ensures forall t, u :: t in actives && u in actives ==>
              Steered(actives, flows, t, n) <= Steered(actives, flows, u, n) + 1
  {
    hide FlowTo, NoDups, Steered;
    var q, r := SharesAre(actives, flows, n);
  }

  /** sched_steer_flows: active threads get their own flows, and of the others as many as each other,
      up to one. */
  method SteerFlows(actives: seq<nat>, numThreads: nat) returns (flows: seq<Option<nat>>)
    requires actives != [] && forall i :: 0 <= i < |actives| ==> actives[i] < numThreads
    ensures |flows| == numThreads
    ensures forall i :: 0 <= i < numThreads ==> flows[i] == Some(FlowTo(actives, i))
    ensures forall j :: 0 <= j < |actives| ==> flows[actives[j]] == Some(actives[j])
    ensures NoDups(actives) ==> forall t, u :: t in actives && u in actives ==>
              Steered(actives, flows, t, numThreads) <= Steered(actives, flows, u, numThreads) + 1
  {
    flows := OwnFlows(actives, numThreads);
    var turn := 0;
    for i := 0 to numThreads
      invariant |flows| == numThreads && turn == Others(actives, i)
      invariant forall j :: 0 <= j < i ==> flows[j] == Some(FlowTo(actives, j))
      invariant forall j :: i <= j < numThreads ==> flows[j] == if j in actives then Some(j) else None
    {
      hide InTurn;
      assert FlowTo(actives, i) == if i in actives then i else InTurn(actives, turn);
      hide FlowTo;
      if flows[i].None? {
        flows := flows[i := Some(InTurn(actives, turn))];
        turn := turn + 1;
      }
    }
    hide FlowTo, NoDups, Steered;
    if NoDups(actives) {
      SpreadEvenly(actives, flows, numThreads);
    }
  }

  method OwnFlows(actives: seq<nat>, numThreads: nat) returns (flows: seq<Option<nat>>)
    requires forall i :: 0 <= i < |actives| ==> actives[i] < numThreads
    ensures |flows| == numThreads
    ensures forall j :: 0 <= j < numThreads ==> flows[j] == if j in actives then Some(j) else None
  {
    flows := seq(numThreads, _ => None);
    for i := 0 to |actives|
      invariant |flows| == numThreads
      invariant forall j :: 0 <= j < numThreads ==> flows[j] == if j in actives[..i] then Some(j) else None
    {
      flows := flows[actives[i] := Some(actives[i])];
      assert actives[..i + 1] == actives[..i] + [actives[i]];
    }
    assert actives[..|actives|] == actives;
  }
}
