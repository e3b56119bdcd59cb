/**
 The state of the IOKernel's core scheduler (sched.c, defs.h): which kthread is on which core,
 the active and idle lists of every process, the polling array and the reference counts.
 */
module IokSched {
  import opened Basics
  import opened IokMachine

  type Tid = nat

  datatype Thread = Thread(proc: Pid, active: bool, core: nat, atIdx: nat, tsIdx: Option<nat>)

  /** attached until the client is removed; holds counts its packets in transmission. */
  datatype Proc = Proc(actives: seq<Tid>, idles: seq<Tid>, refs: nat, attached: bool, holds: nat)

  datatype Core = Core(cur: Option<Tid>, next: Option<Tid>, pending: bool, wait: bool, idle: bool)

  /** Everything at one time.  released has the calls of proc_release in order, and late says
      that a process has been taken hold of after its release. */
  datatype State = State(
    threads: map<Tid, Thread>,
    procs: map<Pid, Proc>,
    cores: seq<Core>,
    ts: seq<Tid>,
    released: seq<Pid>,
    late: bool)

  // ----- The invariant ------------------------------------------------------------------

  /** t is the running or the next thread of the core it was given. */
  predicate Seated(s: State, t: Tid) {
    && t in s.threads && s.threads[t].core < |s.cores|
    && var c := s.cores[s.threads[t].core]; c.cur == Some(t) || c.next == Some(t)
  }

  predicate SeatOk(s: State, c: nat, x: Option<Tid>) {
    x.Some? ==> x.value in s.threads && s.threads[x.value].active && s.threads[x.value].core == c
  }

  /** A core's slots hold active threads assigned to it, never the same one twice. */
  predicate CoreOk(s: State, c: nat) {
    && c < |s.cores| && SeatOk(s, c, s.cores[c].cur) && SeatOk(s, c, s.cores[c].next)
    && (s.cores[c].cur.Some? ==> s.cores[c].cur != s.cores[c].next)
    && (s.cores[c].next.Some? ==> s.cores[c].pending) && (s.cores[c].pending ==> s.cores[c].wait)
  }

  predicate ActiveAt(s: State, p: Pid, i: nat) {
    && p in s.procs && i < |s.procs[p].actives|
    && var t := s.procs[p].actives[i];
       t in s.threads && s.threads[t].proc == p && s.threads[t].active && s.threads[t].atIdx == i
  }

  predicate IdleAt(s: State, p: Pid, i: nat) {
    && p in s.procs && i < |s.procs[p].idles|
    && var t := s.procs[p].idles[i]; t in s.threads && s.threads[t].proc == p && !s.threads[t].active
  }

  predicate PolledAt(s: State, i: nat) {
    i < |s.ts| && s.ts[i] in s.threads && s.threads[s.ts[i]].tsIdx == Some(i)
  }

  /** A thread is in exactly the lists its flags say; active ones sit on their core, except
      those being moved. */
  predicate ThreadOk(s: State, loose: set<Tid>, t: Tid) {
    && t in s.threads && s.threads[t].proc in s.procs
    && var th, p := s.threads[t], s.procs[s.threads[t].proc];
       && (if th.active then th.atIdx < |p.actives| && p.actives[th.atIdx] == t && (t in loose <==> !Seated(s, t))
           else t in p.idles && t !in loose)
       && (th.tsIdx.Some? ==> th.tsIdx.value < |s.ts| && s.ts[th.tsIdx.value] == t)
  }

  function ActiveOf(s: State, p: Pid): set<Tid> {
    set t | t in s.threads && s.threads[t].proc == p && s.threads[t].active
  }

  function PolledOf(s: State, p: Pid): set<Tid> {
    set t | t in s.threads && s.threads[t].proc == p && s.threads[t].tsIdx.Some?
  }

  /** References held outside the scheduler: the attachment and packets in transmission. */
  function Outside(p: Proc): nat {
    p.holds + if p.attached then 1 else 0
  }

  /** The reference count is what is held: from outside, by core slots, by the polling array,
      and by a pending proc_get or proc_put (credit). */
  predicate RefOk(s: State, credit: int, p: Pid, who: Pid) {
    && p in s.procs
    && s.procs[p].refs == Outside(s.procs[p]) + |ActiveOf(s, p)| + |PolledOf(s, p)| + if p == who then credit else 0
  }

  ghost predicate Inv(s: State, loose: set<Tid>, credit: int, who: Pid) {
    && (forall c :: 0 <= c < |s.cores| ==> CoreOk(s, c))
    && (forall p, i :: p in s.procs && 0 <= i < |s.procs[p].actives| ==> ActiveAt(s, p, i))
    && (forall p, i :: p in s.procs && 0 <= i < |s.procs[p].idles| ==> IdleAt(s, p, i))
    && (forall p :: p in s.procs ==> NoDups(s.procs[p].idles) && RefOk(s, credit, p, who))
    && (forall i :: 0 <= i < |s.ts| ==> PolledAt(s, i))
    && (forall t :: t in s.threads ==> ThreadOk(s, loose, t))
  }

  // ----- What the invariant says -----------------------------------------------------------

  function SlotsOf(c: Core): set<Tid> {
    (if c.cur.Some? then {c.cur.value} else {}) + (if c.next.Some? then {c.next.value} else {})
  }

  /** The active threads are exactly those in core slots; every slot holds a thread assigned to
      that core, and no thread sits in two slots. */
  lemma ActiveAreSeated(s: State, t: Tid, c: nat)
    requires Inv(s, {}, 0, 0) && t in s.threads && c < |s.cores|
    ensures s.threads[t].active <==> Seated(s, t)
    ensures t in SlotsOf(s.cores[c]) ==> s.threads[t].active && s.threads[t].core == c
    ensures t in SlotsOf(s.cores[c]) ==> (s.cores[c].cur == Some(t)) != (s.cores[c].next == Some(t))
  {
    assert ThreadOk(s, {}, t) && CoreOk(s, c);
    if Seated(s, t) {
      assert CoreOk(s, s.threads[t].core);
    }
  }

  /** Active and idle lists partition the threads of a process, each thread once. */
  lemma ListsPartition(s: State, t: Tid)
    requires Inv(s, {}, 0, 0) && t in s.threads
    ensures s.threads[t].proc in s.procs
    ensures var p := s.procs[s.threads[t].proc]; (t in p.actives) != (t in p.idles)
  {
    assert ThreadOk(s, {}, t);
    var q := s.threads[t].proc;
    if i :| 0 <= i < |s.procs[q].actives| && s.procs[q].actives[i] == t {
      assert ActiveAt(s, q, i);
    }
    if i :| 0 <= i < |s.procs[q].idles| && s.procs[q].idles[i] == t {
      assert IdleAt(s, q, i);
    }
  }

  /** A process whose count is zero is detached and has no packet in transmission, no thread on
      a core and none polled; and the other way round. */
  lemma ReleasedMeansUnused(s: State, p: Pid)
    requires Inv(s, {}, 0, 0) && p in s.procs
    ensures s.procs[p].refs == 0 <==>
            && !s.procs[p].attached && s.procs[p].holds == 0
            && forall t :: t in s.threads && s.threads[t].proc == p ==> !Seated(s, t) && s.threads[t].tsIdx.None?
  {
    assert RefOk(s, 0, p, 0);
    if s.procs[p].refs == 0 {
      forall t | t in s.threads && s.threads[t].proc == p ensures !Seated(s, t) && s.threads[t].tsIdx.None? {
        assert t !in ActiveOf(s, p) && t !in PolledOf(s, p);
        SeatedIsActive(s, {}, 0, 0, t);
      }
    } else if !s.procs[p].attached && s.procs[p].holds == 0 {
      assert ActiveOf(s, p) != {} || PolledOf(s, p) != {};
      var t :| t in ActiveOf(s, p) || t in PolledOf(s, p);
      assert ThreadOk(s, {}, t);
    }
  }

  lemma SeatedIsActive(s: State, loose: set<Tid>, credit: int, who: Pid, t: Tid)
    requires Inv(s, loose, credit, who)
    ensures Seated(s, t) ==> s.threads[t].active
  {
    if Seated(s, t) {
      assert CoreOk(s, s.threads[t].core);
    }
  }

  // ----- The operations on the lists, as functions of the state ---------------------------------

  /** list_del. */
  function Without(xs: seq<Tid>, t: Tid): (r: seq<Tid>)
    ensures forall x :: x in r ==> x in xs
  {
    if xs == [] then [] else if xs[0] == t then xs[1..] else [xs[0]] + Without(xs[1..], t)
  }

  lemma {:induction false} WithoutIs(xs: seq<Tid>, t: Tid)
    requires NoDups(xs)
    ensures NoDups(Without(xs, t)) && forall x :: x in Without(xs, t) <==> x in xs && x != t
  {
    if xs != [] {
      assert xs == [xs[0]] + xs[1..];
      assert xs[0] !in xs[1..];
      if xs[0] != t {
        WithoutIs(xs[1..], t);
        var rest := Without(xs[1..], t);
        assert xs[0] !in rest;
        var r := [xs[0]] + rest;
        forall i, j | 0 <= i < j < |r| ensures r[i] != r[j] {
          assert r[j] == rest[j - 1];
        }
      }
    }
  }

  /** proc_get. */
  function Get(s: State, p: Pid): State {
    if p !in s.procs then s
    else
      var x := s.procs[p];
      s.(procs := s.procs[p := x.(refs := x.refs + 1)], late := s.late || x.refs == 0)
  }

  /** proc_put: the last reference releases the process. */
  function Put(s: State, p: Pid): State {
    if p !in s.procs || s.procs[p].refs == 0 then s
    else
      var x := s.procs[p];
      s.(procs := s.procs[p := x.(refs := x.refs - 1)], released := if x.refs == 1 then s.released + [p] else s.released)
  }

  /** sched_enable_kthread, up to poll_thread. */
  function Enable(s: State, t: Tid, core: nat): State {
    if t !in s.threads || s.threads[t].proc !in s.procs then s
    else
      var th := s.threads[t];
      var p := s.procs[th.proc];
      s.(threads := s.threads[t := th.(active := true, core := core, atIdx := |p.actives|)],
         procs := s.procs[th.proc := p.(actives := p.actives + [t], idles := Without(p.idles, t))])
  }

  /** t is active where it says, and the last active thread knows its place. */
  predicate DisableReady(s: State, t: Tid) {
    && t in s.threads && s.threads[t].active && s.threads[t].proc in s.procs
    && var q, actives := s.threads[t].proc, s.procs[s.threads[t].proc].actives;
       && s.threads[t].atIdx < |actives| && actives[s.threads[t].atIdx] == t
       && ActiveAt(s, q, |actives| - 1)
  }

  /** sched_disable_kthread, up to unpoll_thread: the last active thread fills the gap. */
  function Disable(s: State, t: Tid): State {
    if !DisableReady(s, t) then s
    else
      var th := s.threads[t];
      var p := s.procs[th.proc];
      var n := |p.actives| - 1;
      var last := p.actives[n];
      var threads := s.threads[t := th.(active := false)];
      s.(threads := threads[last := threads[last].(atIdx := th.atIdx)],
         procs := s.procs[th.proc := p.(actives := p.actives[th.atIdx := last][..n], idles := [t] + p.idles)])
  }

  predicate IsPolled(s: State, t: Tid) {
    t in s.threads && s.threads[t].proc in s.procs && s.threads[t].tsIdx.Some?
  }

  /** poll_thread and unpoll_thread, with their proc_get and proc_put. */
  function Poll(s: State, t: Tid): State {
    if t !in s.threads || s.threads[t].tsIdx.Some? then s
    else
      var th := s.threads[t];
      Get(s, th.proc).(threads := s.threads[t := th.(tsIdx := Some(|s.ts|))], ts := s.ts + [t])
  }

  /** A polled thread: its place in the polling array is right, and it is counted. */
  predicate UnpollReady(s: State, t: Tid) {
    && IsPolled(s, t)
    && s.threads[t].tsIdx.value < |s.ts| && s.ts[s.threads[t].tsIdx.value] == t && PolledAt(s, |s.ts| - 1)
    && s.procs[s.threads[t].proc].refs > 0
  }

  /** The last polled thread takes the place of t. */
  function Unlisted(s: State, t: Tid): State
    requires UnpollReady(s, t)
  {
    var th := s.threads[t];
    var n := |s.ts| - 1;
    var last := s.ts[n];
    var threads := s.threads[last := s.threads[last].(tsIdx := th.tsIdx)];
    s.(threads := threads[t := threads[t].(tsIdx := None)], ts := s.ts[th.tsIdx.value := last][..n])
  }

  function Unpoll(s: State, t: Tid): State {
    if !UnpollReady(s, t) then s else Put(Unlisted(s, t), s.threads[t].proc)
  }

  function SetCore(s: State, c: nat, x: Core): State
    requires c < |s.cores|
  {
    s.(cores := s.cores[c := x])
  }

  // ----- Each keeps the invariant ---------------------------------------------------------------

  lemma EnableInv(s: State, t: Tid, core: nat)
    requires t in s.threads && Inv(s, {}, 1, s.threads[t].proc) && !s.threads[t].active && core < |s.cores|
    ensures s.threads[t].proc in s.procs && Inv(Enable(s, t, core), {t}, 0, s.threads[t].proc)
  {
    var q := s.threads[t].proc;
    assert ThreadOk(s, {}, t);
    WithoutIs(s.procs[q].idles, t);
    var s' := Enable(s, t, core);
    hide ThreadOk, CoreOk, ActiveAt, IdleAt, PolledAt, RefOk, NoDups;
    forall c | 0 <= c < |s'.cores| ensures CoreOk(s', c) {
      EnableCore(s, t, core, c);
    }
    forall p, i | p in s'.procs && 0 <= i < |s'.procs[p].actives| ensures ActiveAt(s', p, i) {
      EnableActive(s, t, core, p, i);
    }
    forall p, i | p in s'.procs && 0 <= i < |s'.procs[p].idles| ensures IdleAt(s', p, i) {
      EnableIdle(s, t, core, p, i);
    }
    forall p | p in s'.procs ensures NoDups(s'.procs[p].idles) && RefOk(s', 0, p, q) {
      EnableRef(s, t, core, p);
    }
    forall i | 0 <= i < |s'.ts| ensures PolledAt(s', i) {
      EnablePolled(s, t, core, i);
    }
    forall x | x in s'.threads ensures ThreadOk(s', {t}, x) {
      EnableThread(s, t, core, x);
    }
  }

  lemma EnableCore(s: State, t: Tid, core: nat, c: nat)
    requires t in s.threads && s.threads[t].proc in s.procs && !s.threads[t].active && CoreOk(s, c)
    ensures CoreOk(Enable(s, t, core), c)
  {}

  lemma EnableActive(s: State, t: Tid, core: nat, p: Pid, i: nat)
    requires t in s.threads && s.threads[t].proc in s.procs && !s.threads[t].active && p in s.procs
    requires i < |Enable(s, t, core).procs[p].actives| && (i < |s.procs[p].actives| ==> ActiveAt(s, p, i))
    ensures ActiveAt(Enable(s, t, core), p, i)
  {}

  lemma EnableIdle(s: State, t: Tid, core: nat, p: Pid, i: nat)
    requires t in s.threads && s.threads[t].proc in s.procs && p in s.procs && NoDups(s.procs[s.threads[t].proc].idles)
    requires i < |Enable(s, t, core).procs[p].idles|
    requires forall j :: 0 <= j < |s.procs[p].idles| ==> IdleAt(s, p, j)
    ensures IdleAt(Enable(s, t, core), p, i)
  {
    var q := s.threads[t].proc;
    WithoutIs(s.procs[q].idles, t);
    var x := Enable(s, t, core).procs[p].idles[i];
    assert x in s.procs[p].idles;
    var j :| 0 <= j < |s.procs[p].idles| && s.procs[p].idles[j] == x;
    assert IdleAt(s, p, j);
  }

  lemma EnableRef(s: State, t: Tid, core: nat, p: Pid)
    requires t in s.threads && s.threads[t].proc in s.procs && !s.threads[t].active
    requires p in s.procs && NoDups(s.procs[p].idles) && RefOk(s, 1, p, s.threads[t].proc)
    ensures NoDups(Enable(s, t, core).procs[p].idles) && RefOk(Enable(s, t, core), 0, p, s.threads[t].proc)
  {
    var q, s' := s.threads[t].proc, Enable(s, t, core);
    WithoutIs(s.procs[p].idles, t);
    assert PolledOf(s', p) == PolledOf(s, p);
    if p == q {
      assert ActiveOf(s', p) == ActiveOf(s, p) + {t};
    } else {
      assert ActiveOf(s', p) == ActiveOf(s, p);
    }
  }

  lemma EnablePolled(s: State, t: Tid, core: nat, i: nat)
    requires t in s.threads && s.threads[t].proc in s.procs && PolledAt(s, i)
    ensures PolledAt(Enable(s, t, core), i)
  {}

  lemma EnableThread(s: State, t: Tid, core: nat, x: Tid)
    requires t in s.threads && s.threads[t].proc in s.procs && !s.threads[t].active && core < |s.cores|
    requires ThreadOk(s, {}, x) && CoreOk(s, core) && NoDups(s.procs[s.threads[t].proc].idles)
    ensures ThreadOk(Enable(s, t, core), {t}, x)
  {
    WithoutIs(s.procs[s.threads[t].proc].idles, t);
    var s' := Enable(s, t, core);
    if x == t {
      assert !Seated(s', t);
    } else {
      assert Seated(s', x) <==> Seated(s, x);
    }
  }

  lemma DisableInv(s: State, t: Tid)
    requires t in s.threads && Inv(s, {t}, 0, s.threads[t].proc) && s.threads[t].active
    ensures DisableReady(s, t) && Inv(Disable(s, t), {}, 1, s.threads[t].proc)
  {
    hide ThreadOk, CoreOk, ActiveAt, IdleAt, PolledAt, RefOk, NoDups, DisableReady, Disable;
    var q := s.threads[t].proc;
    CanDisable(s, t);
    var s' := Disable(s, t);
    DisableSame(s, t);
    forall c | 0 <= c < |s'.cores| ensures CoreOk(s', c) {
      DisableCore(s, t, c);
    }
    forall p, i | p in s'.procs && 0 <= i < |s'.procs[p].actives| ensures ActiveAt(s', p, i) {
      DisableActive(s, t, p, i);
    }
    forall p, i | p in s'.procs && 0 <= i < |s'.procs[p].idles| ensures IdleAt(s', p, i) {
      DisableIdle(s, t, p, i);
    }
    forall p | p in s'.procs ensures NoDups(s'.procs[p].idles) && RefOk(s', 1, p, q) {
      DisableRef(s, t, p);
    }
    forall i | 0 <= i < |s'.ts| ensures PolledAt(s', i) {
      DisablePolled(s, t, i);
    }
    forall x | x in s'.threads ensures ThreadOk(s', {}, x) {
      DisableThread(s, t, x);
    }
  }

  lemma DisableSame(s: State, t: Tid)
    requires DisableReady(s, t)
    ensures var s' := Disable(s, t);
            && s'.cores == s.cores && s'.ts == s.ts
            && s'.threads.Keys == s.threads.Keys && s'.procs.Keys == s.procs.Keys
            && forall p :: p in s.procs ==> |s'.procs[p].actives| <= |s.procs[p].actives|
  {}

  lemma CanDisable(s: State, t: Tid)
    requires t in s.threads && Inv(s, {t}, 0, s.threads[t].proc) && s.threads[t].active
    ensures DisableReady(s, t) && !Seated(s, t)
  {
    assert ThreadOk(s, {t}, t);
    var q := s.threads[t].proc;
    assert ActiveAt(s, q, |s.procs[q].actives| - 1);
  }

  lemma DisableCore(s: State, t: Tid, c: nat)
    requires DisableReady(s, t) && !Seated(s, t) && CoreOk(s, c)
    ensures CoreOk(Disable(s, t), c)
  {
    assert s.cores[c].cur != Some(t) && s.cores[c].next != Some(t);
  }

  lemma DisableActive(s: State, t: Tid, p: Pid, i: nat)
    requires DisableReady(s, t) && p in s.procs && i < |Disable(s, t).procs[p].actives|
    requires ActiveAt(s, p, i)
    ensures ActiveAt(Disable(s, t), p, i)
  {
    var q := s.threads[t].proc;
    if p == q {
      var n, at := |s.procs[q].actives| - 1, s.threads[t].atIdx;
      var last := s.procs[q].actives[n];
      assert s.threads[last].atIdx == n;
      assert i != at ==> s.procs[q].actives[i] != t && s.procs[q].actives[i] != last;
      assert i == at ==> last != t;
    }
  }

  lemma DisableIdle(s: State, t: Tid, p: Pid, i: nat)
    requires DisableReady(s, t) && p in s.procs && i < |Disable(s, t).procs[p].idles|
    requires forall j :: 0 <= j < |s.procs[p].idles| ==> IdleAt(s, p, j)
    ensures IdleAt(Disable(s, t), p, i)
  {
    var j := if p == s.threads[t].proc then i - 1 else i;
    if j >= 0 {
      assert IdleAt(s, p, j);
    }
  }

  lemma DisableRef(s: State, t: Tid, p: Pid)
    requires DisableReady(s, t) && p in s.procs && NoDups(s.procs[p].idles)
    requires RefOk(s, 0, p, s.threads[t].proc)
    requires forall j :: 0 <= j < |s.procs[p].idles| ==> IdleAt(s, p, j)
    ensures NoDups(Disable(s, t).procs[p].idles) && RefOk(Disable(s, t), 1, p, s.threads[t].proc)
  {
    var q, s' := s.threads[t].proc, Disable(s, t);
    assert PolledOf(s', p) == PolledOf(s, p);
    if p == q {
      assert ActiveOf(s', p) == ActiveOf(s, p) - {t};
      forall j | 0 <= j < |s.procs[p].idles| ensures s.procs[p].idles[j] != t {
        assert IdleAt(s, p, j);
      }
    } else {
      assert ActiveOf(s', p) == ActiveOf(s, p);
    }
  }

  lemma DisablePolled(s: State, t: Tid, i: nat)
    requires DisableReady(s, t) && PolledAt(s, i)
    ensures PolledAt(Disable(s, t), i)
  {}

  lemma DisableThread(s: State, t: Tid, x: Tid)
    requires DisableReady(s, t) && ThreadOk(s, {t}, x)
    ensures ThreadOk(Disable(s, t), {}, x)
  {
    var s' := Disable(s, t);
    assert Seated(s', x) <==> Seated(s, x);
  }

  // poll_thread and unpoll_thread

  lemma PollInv(s: State, loose: set<Tid>, t: Tid)
    requires t in s.threads && Inv(s, loose, 0, s.threads[t].proc)
    ensures s.threads[t].proc in s.procs && Inv(Poll(s, t), loose, 0, s.threads[t].proc)
  {
    HasProc(s, loose, 0, s.threads[t].proc, t);
    if s.threads[t].tsIdx.None? {
      PollNewInv(s, loose, t);
    }
    hide Inv;
  }

  predicate PollReady(s: State, t: Tid) {
    t in s.threads && s.threads[t].proc in s.procs && s.threads[t].tsIdx.None?
  }

  lemma PollNewInv(s: State, loose: set<Tid>, t: Tid)
    requires t in s.threads && PollReady(s, t) && Inv(s, loose, 0, s.threads[t].proc)
    ensures Inv(Poll(s, t), loose, 0, s.threads[t].proc)
  {
    hide ThreadOk, CoreOk, ActiveAt, IdleAt, PolledAt, RefOk, NoDups, Poll, PollReady;
    PollLists(s, loose, t);
    PollCounts(s, loose, t);
    PollThreads(s, loose, t);
  }

  lemma PollCounts(s: State, loose: set<Tid>, t: Tid)
    requires PollReady(s, t) && Inv(s, loose, 0, s.threads[t].proc)
    ensures var s' := Poll(s, t);
            forall p :: p in s'.procs ==> NoDups(s'.procs[p].idles) && RefOk(s', 0, p, s.threads[t].proc)
  {
    hide ThreadOk, CoreOk, ActiveAt, IdleAt, PolledAt, RefOk, NoDups, Poll;
    var s' := Poll(s, t);
    PollSame(s, t);
    forall p | p in s'.procs ensures NoDups(s'.procs[p].idles) && RefOk(s', 0, p, s.threads[t].proc) {
      PollRef(s, t, p);
    }
  }

  lemma PollThreads(s: State, loose: set<Tid>, t: Tid)
    requires PollReady(s, t) && Inv(s, loose, 0, s.threads[t].proc)
    ensures var s' := Poll(s, t);
            && (forall i :: 0 <= i < |s'.ts| ==> PolledAt(s', i))
            && (forall x :: x in s'.threads ==> ThreadOk(s', loose, x))
  {
    hide ThreadOk, CoreOk, ActiveAt, IdleAt, PolledAt, RefOk, NoDups, Poll, PollReady;
    var s' := Poll(s, t);
    PollSame(s, t);
    forall i | 0 <= i < |s'.ts| ensures PolledAt(s', i) {
      PollPolled(s, t, i);
    }
    forall x | x in s'.threads ensures ThreadOk(s', loose, x) {
      PollThreadOk(s, t, x, loose);
    }
  }

  lemma PollLists(s: State, loose: set<Tid>, t: Tid)
    requires PollReady(s, t) && Inv(s, loose, 0, s.threads[t].proc)
    ensures var s' := Poll(s, t);
            && (forall c :: 0 <= c < |s'.cores| ==> CoreOk(s', c))
            && (forall p, i :: p in s'.procs && 0 <= i < |s'.procs[p].actives| ==> ActiveAt(s', p, i))
            && (forall p, i :: p in s'.procs && 0 <= i < |s'.procs[p].idles| ==> IdleAt(s', p, i))
  {
    hide ThreadOk, CoreOk, ActiveAt, IdleAt, PolledAt, RefOk, NoDups, Poll;
    var s' := Poll(s, t);
    PollSame(s, t);
    hide PollReady;
    forall c | 0 <= c < |s'.cores| ensures CoreOk(s', c) {
      PollCore(s, t, c);
    }
    forall p, i | p in s'.procs && 0 <= i < |s'.procs[p].actives| ensures ActiveAt(s', p, i) {
      PollActive(s, t, p, i);
    }
    forall p, i | p in s'.procs && 0 <= i < |s'.procs[p].idles| ensures IdleAt(s', p, i) {
      PollIdle(s, t, p, i);
    }
  }

  lemma PollSame(s: State, t: Tid)
    requires PollReady(s, t)
    ensures var s' := Poll(s, t);
            && s'.cores == s.cores && |s'.ts| == |s.ts| + 1 && s'.threads.Keys == s.threads.Keys
            && s'.procs.Keys == s.procs.Keys
            && forall p :: p in s.procs ==> s'.procs[p].(refs := 0) == s.procs[p].(refs := 0)
  {}

  lemma PollCore(s: State, t: Tid, c: nat)
    requires PollReady(s, t) && CoreOk(s, c)
    ensures CoreOk(Poll(s, t), c)
  {}

  lemma PollActive(s: State, t: Tid, p: Pid, i: nat)
    requires PollReady(s, t) && ActiveAt(s, p, i)
    ensures ActiveAt(Poll(s, t), p, i)
  {}

  lemma PollIdle(s: State, t: Tid, p: Pid, i: nat)
    requires PollReady(s, t) && IdleAt(s, p, i)
    ensures IdleAt(Poll(s, t), p, i)
  {}

  lemma PollThreadOk(s: State, t: Tid, x: Tid, loose: set<Tid>)
    requires PollReady(s, t) && ThreadOk(s, loose, x)
    ensures ThreadOk(Poll(s, t), loose, x)
  {
    assert Seated(Poll(s, t), x) <==> Seated(s, x);
  }

  lemma PollRef(s: State, t: Tid, p: Pid)
    requires PollReady(s, t)
    requires p in s.procs && NoDups(s.procs[p].idles) && RefOk(s, 0, p, s.threads[t].proc)
    ensures NoDups(Poll(s, t).procs[p].idles) && RefOk(Poll(s, t), 0, p, s.threads[t].proc)
  {
    PollSets(s, t, p);
    hide NoDups, ActiveOf, PolledOf;
  }

  lemma PollSets(s: State, t: Tid, p: Pid)
    requires t in s.threads && s.threads[t].tsIdx.None?
    ensures ActiveOf(Poll(s, t), p) == ActiveOf(s, p)
    ensures |PolledOf(Poll(s, t), p)| == |PolledOf(s, p)| + if p == s.threads[t].proc then 1 else 0
  {
    var s' := Poll(s, t);
    if p == s.threads[t].proc {
      assert PolledOf(s', p) == PolledOf(s, p) + {t};
    } else {
      assert PolledOf(s', p) == PolledOf(s, p);
    }
  }

  lemma PollPolled(s: State, t: Tid, i: nat)
    requires PollReady(s, t)
    requires i <= |s.ts| && (i < |s.ts| ==> PolledAt(s, i))
    ensures PolledAt(Poll(s, t), i)
  {}

  lemma UnpollSame(s: State, t: Tid)
    requires UnpollReady(s, t)
    ensures var s' := Unpoll(s, t);
            && s'.cores == s.cores && |s'.ts| == |s.ts| - 1 && s'.threads.Keys == s.threads.Keys
            && s'.procs.Keys == s.procs.Keys
            && forall p :: p in s.procs ==> s'.procs[p].(refs := 0) == s.procs[p].(refs := 0)
  {}

  lemma UnpollSteps(s: State, t: Tid)
    requires UnpollReady(s, t)
    ensures var s' := Unpoll(s, t);
            && s'.threads.Keys == s.threads.Keys && s'.procs.Keys == s.procs.Keys
            && (forall u :: u in s.threads ==>
                  && s'.threads[u].proc == s.threads[u].proc && s'.threads[u].active == s.threads[u].active
                  && (s'.threads[u].tsIdx.Some? <==> s.threads[u].tsIdx.Some? && u != t))
            && (forall p :: p in s.procs ==>
                  s'.procs[p].refs == s.procs[p].refs - if p == s.threads[t].proc then 1 else 0)
  {}

  lemma CanUnpoll(s: State, loose: set<Tid>, credit: nat, t: Tid)
    requires t in s.threads && Inv(s, loose, credit, s.threads[t].proc) && s.threads[t].tsIdx.Some?
    ensures UnpollReady(s, t)
  {
    assert ThreadOk(s, loose, t);
    var q := s.threads[t].proc;
    assert PolledAt(s, |s.ts| - 1);
    assert RefOk(s, credit, q, q) && t in PolledOf(s, q);
  }

  lemma UnpollInv(s: State, loose: set<Tid>, credit: nat, t: Tid)
    requires t in s.threads && Inv(s, loose, credit, s.threads[t].proc) && s.threads[t].tsIdx.Some?
    ensures UnpollReady(s, t) && Inv(Unpoll(s, t), loose, credit, s.threads[t].proc)
  {
    hide ThreadOk, CoreOk, ActiveAt, IdleAt, PolledAt, RefOk, NoDups, UnpollReady, Unpoll;
    var q := s.threads[t].proc;
    CanUnpoll(s, loose, credit, t);
    var s' := Unpoll(s, t);
    UnpollSame(s, t);
    forall c | 0 <= c < |s'.cores| ensures CoreOk(s', c) {
      UnpollKeeps(s, t, c, q, 0, t, loose);
    }
    forall p, i | p in s'.procs && 0 <= i < |s'.procs[p].actives| ensures ActiveAt(s', p, i) {
      UnpollKeeps(s, t, 0, p, i, t, loose);
    }
    forall p, i | p in s'.procs && 0 <= i < |s'.procs[p].idles| ensures IdleAt(s', p, i) {
      UnpollKeeps(s, t, 0, p, i, t, loose);
    }
    forall p | p in s'.procs ensures NoDups(s'.procs[p].idles) && RefOk(s', credit, p, q) {
      UnpollRef(s, t, p, credit);
    }
    forall i | 0 <= i < |s'.ts| ensures PolledAt(s', i) {
      UnpollPolled(s, t, i);
    }
    forall x | x in s'.threads ensures ThreadOk(s', loose, x) {
      UnpollKeeps(s, t, 0, q, 0, x, loose);
    }
  }

  lemma UnpollKeeps(s: State, t: Tid, c: nat, p: Pid, i: nat, x: Tid, loose: set<Tid>)
    requires UnpollReady(s, t)
    ensures CoreOk(s, c) ==> CoreOk(Unpoll(s, t), c)
    ensures ActiveAt(s, p, i) ==> ActiveAt(Unpoll(s, t), p, i)
    ensures IdleAt(s, p, i) ==> IdleAt(Unpoll(s, t), p, i)
    ensures ThreadOk(s, loose, x) ==> ThreadOk(Unpoll(s, t), loose, x)
  {
    UnpollThread(s, t, x, loose);
    UnpollSame(s, t);
    UnpollPlaces(s, t);
    hide Unpoll, UnpollReady, ThreadOk;
  }

  /** Polling is all that changes for a thread. */
  lemma UnpollPlaces(s: State, t: Tid)
    requires UnpollReady(s, t)
    ensures forall u :: u in s.threads && u in Unpoll(s, t).threads ==>
              Unpoll(s, t).threads[u].(tsIdx := None) == s.threads[u].(tsIdx := None)
  {}

  lemma UnpollThread(s: State, t: Tid, x: Tid, loose: set<Tid>)
    requires UnpollReady(s, t)
    ensures ThreadOk(s, loose, x) ==> ThreadOk(Unpoll(s, t), loose, x)
  {
    assert Seated(Unpoll(s, t), x) <==> Seated(s, x);
  }

  lemma UnpollRef(s: State, t: Tid, p: Pid, credit: nat)
    requires UnpollReady(s, t) && p in s.procs && NoDups(s.procs[p].idles) && RefOk(s, credit, p, s.threads[t].proc)
    ensures NoDups(Unpoll(s, t).procs[p].idles) && RefOk(Unpoll(s, t), credit, p, s.threads[t].proc)
  {
    UnpollSets(s, t, p);
    UnpollSame(s, t);
    UnpollCount(s, t, p);
    hide NoDups, ActiveOf, PolledOf, Unpoll, UnpollReady;
  }

  lemma UnpollCount(s: State, t: Tid, p: Pid)
    requires UnpollReady(s, t) && p in s.procs
    ensures var s' := Unpoll(s, t);
            p in s'.procs && s'.procs[p] == s.procs[p].(refs := s.procs[p].refs - if p == s.threads[t].proc then 1 else 0)
  {}

  lemma PolledNow(s: State, t: Tid)
    requires UnpollReady(s, t)
    ensures t in s.threads && s.threads[t].tsIdx.Some?
  {}

  lemma UnpollSets(s: State, t: Tid, p: Pid)
    requires UnpollReady(s, t)
    ensures ActiveOf(Unpoll(s, t), p) == ActiveOf(s, p)
    ensures |PolledOf(Unpoll(s, t), p)| == |PolledOf(s, p)| - if p == s.threads[t].proc then 1 else 0
  {
    UnpollSteps(s, t);
    hide Unpoll, UnpollReady;
    var s' := Unpoll(s, t);
    assert ActiveOf(s', p) == ActiveOf(s, p);
    assert PolledOf(s', p) == PolledOf(s, p) - (if p == s.threads[t].proc then {t} else {});
    assert p == s.threads[t].proc ==> t in PolledOf(s, p) by {
      PolledNow(s, t);
    }
  }

  lemma UnpollPolled(s: State, t: Tid, i: nat)
    requires UnpollReady(s, t) && i < |s.ts| - 1 && PolledAt(s, i)
    ensures PolledAt(Unpoll(s, t), i)
  {}

  // reference counts and core slots

  /** A new record for p with the same lists, which may come with a release or a late hold. */
  ghost predicate Adjusts(s: State, s': State, p: Pid) {
    && p in s.procs && p in s'.procs
    && s' == s.(procs := s.procs[p := s'.procs[p]], released := s'.released, late := s'.late)
    && s'.procs[p].actives == s.procs[p].actives && s'.procs[p].idles == s.procs[p].idles
  }

  /** How far the count of p exceeds what is held from outside. */
  function Inside(x: Proc): int {
    x.refs - Outside(x)
  }

  lemma AdjustInv(s: State, s': State, loose: set<Tid>, credit: int, p: Pid)
    requires Inv(s, loose, credit, p) && Adjusts(s, s', p)
    ensures Inv(s', loose, credit + Inside(s'.procs[p]) - Inside(s.procs[p]), p)
  {
    hide CoreOk, ActiveAt, IdleAt, PolledAt, NoDups, ThreadOk;
    var credit' := credit + Inside(s'.procs[p]) - Inside(s.procs[p]);
    forall c | 0 <= c < |s'.cores| ensures CoreOk(s', c) {
      AdjustKeeps(s, s', p, c, p, 0, 0, loose);
    }
    forall q, i | q in s'.procs && 0 <= i < |s'.procs[q].actives| ensures ActiveAt(s', q, i) {
      AdjustKeeps(s, s', p, 0, q, i, 0, loose);
    }
    forall q, i | q in s'.procs && 0 <= i < |s'.procs[q].idles| ensures IdleAt(s', q, i) {
      AdjustKeeps(s, s', p, 0, q, i, 0, loose);
    }
    forall q | q in s'.procs ensures NoDups(s'.procs[q].idles) && RefOk(s', credit', q, p) {
      assert RefOk(s, credit, q, p) && ActiveOf(s', q) == ActiveOf(s, q) && PolledOf(s', q) == PolledOf(s, q);
    }
    forall i | 0 <= i < |s'.ts| ensures PolledAt(s', i) {
      AdjustKeeps(s, s', p, 0, p, i, 0, loose);
    }
    forall x | x in s'.threads ensures ThreadOk(s', loose, x) {
      AdjustKeeps(s, s', p, 0, p, 0, x, loose);
    }
  }

  lemma AdjustKeeps(s: State, s': State, p: Pid, c: nat, q: Pid, i: nat, x: Tid, loose: set<Tid>)
    requires Adjusts(s, s', p)
    ensures CoreOk(s, c) ==> CoreOk(s', c)
    ensures ActiveAt(s, q, i) ==> ActiveAt(s', q, i)
    ensures IdleAt(s, q, i) ==> IdleAt(s', q, i)
    ensures PolledAt(s, i) ==> PolledAt(s', i)
    ensures ThreadOk(s, loose, x) ==> ThreadOk(s', loose, x)
  {
    assert Seated(s', x) <==> Seated(s, x);
  }

  lemma GetInv(s: State, loose: set<Tid>, credit: int, p: Pid)
    requires Inv(s, loose, credit, p) && p in s.procs
    ensures Inv(Get(s, p), loose, credit + 1, p)
  {
    hide Inv;
    AdjustInv(s, Get(s, p), loose, credit, p);
  }

  lemma PutInv(s: State, loose: set<Tid>, credit: int, p: Pid)
    requires Inv(s, loose, credit, p) && p in s.procs && s.procs[p].refs > 0
    ensures Inv(Put(s, p), loose, credit - 1, p)
  {
    hide Inv;
    AdjustInv(s, Put(s, p), loose, credit, p);
  }

  lemma SetCoreInv(s: State, loose: set<Tid>, credit: int, who: Pid, c: nat, x: Core)
    requires Inv(s, loose, credit, who) && c < |s.cores| && CoreOk(SetCore(s, c, x), c)
    requires SlotsOf(x) <= loose + SlotsOf(s.cores[c])
    ensures Inv(SetCore(s, c, x), loose + SlotsOf(s.cores[c]) - SlotsOf(x), credit, who)
  {
    var s', loose' := SetCore(s, c, x), loose + SlotsOf(s.cores[c]) - SlotsOf(x);
    hide ActiveAt, IdleAt, PolledAt, NoDups, RefOk, ThreadOk, SlotsOf;
    forall d | 0 <= d < |s'.cores| ensures CoreOk(s', d) {
      if d != c {
        assert CoreOk(s, d);
      }
    }
    hide CoreOk;
    forall q, i | q in s'.procs && 0 <= i < |s'.procs[q].actives| ensures ActiveAt(s', q, i) {
      SetCoreKeeps(s, c, x, q, i);
    }
    forall q, i | q in s'.procs && 0 <= i < |s'.procs[q].idles| ensures IdleAt(s', q, i) {
      SetCoreKeeps(s, c, x, q, i);
    }
    forall q | q in s'.procs ensures RefOk(s', credit, q, who) {
      SetCoreRef(s, c, x, q, credit, who);
    }
    forall i | 0 <= i < |s'.ts| ensures PolledAt(s', i) {
      SetCoreKeeps(s, c, x, 0, i);
    }
    forall t | t in s'.threads ensures ThreadOk(s', loose', t) {
      SetCoreThread(s, loose, c, x, t);
    }
  }

  lemma SetCoreKeeps(s: State, c: nat, x: Core, q: Pid, i: nat)
    requires c < |s.cores|
    ensures ActiveAt(s, q, i) ==> ActiveAt(SetCore(s, c, x), q, i)
    ensures IdleAt(s, q, i) ==> IdleAt(SetCore(s, c, x), q, i)
    ensures PolledAt(s, i) ==> PolledAt(SetCore(s, c, x), i)
  {}

  lemma SetCoreRef(s: State, c: nat, x: Core, q: Pid, credit: int, who: Pid)
    requires c < |s.cores| && RefOk(s, credit, q, who)
    ensures RefOk(SetCore(s, c, x), credit, q, who)
  {
    assert ActiveOf(SetCore(s, c, x), q) == ActiveOf(s, q) && PolledOf(SetCore(s, c, x), q) == PolledOf(s, q);
  }

  lemma SetCoreThread(s: State, loose: set<Tid>, c: nat, x: Core, t: Tid)
    requires c < |s.cores| && ThreadOk(s, loose, t) && CoreOk(s, c) && CoreOk(SetCore(s, c, x), c)
    requires SlotsOf(x) <= loose + SlotsOf(s.cores[c])
    ensures ThreadOk(SetCore(s, c, x), loose + SlotsOf(s.cores[c]) - SlotsOf(x), t)
  {
    var s' := SetCore(s, c, x);
    if s.threads[t].core == c {
      assert Seated(s, t) <==> t in SlotsOf(s.cores[c]);
      assert Seated(s', t) <==> t in SlotsOf(x);
    } else {
      assert Seated(s', t) <==> Seated(s, t);
    }
  }

  /** Without credit it does not matter whose it would be. */
  lemma AnyWho(s: State, loose: set<Tid>, w: Pid, w': Pid)
    requires Inv(s, loose, 0, w)
    ensures Inv(s, loose, 0, w')
  {
    hide CoreOk, ActiveAt, IdleAt, PolledAt, NoDups, ThreadOk;
    forall p | p in s.procs ensures RefOk(s, 0, p, w') {
      assert RefOk(s, 0, p, w);
    }
  }

  // ----- What happens to a core's slots -------------------------------------------------------------

  /** A core after the kernel module has carried out its run request: the pending one follows. */
  function RunDone(c: Core): Core {
    if c.pending then c.(cur := c.next, next := None, pending := false) else c.(wait := false)
  }

  /** A core that has gone idle: its thread is woken again if it has work, or taken off. */
  function Idled(c: Core, rewake: bool): Core {
    if c.cur.Some? && rewake then c.(wait := true) else c.(cur := None, idle := true)
  }

  /** A core after one round of polling. */
  function Polled(c: Core, runDone: bool, idle: bool, rewake: bool): Core {
    var d := if c.wait && runDone then RunDone(c) else c;
    if !d.wait && !d.idle && idle then Idled(d, rewake) else d
  }

  /** A core after a run request for th. */
  function Given(c: Core, th: Option<Tid>): Core {
    if c.wait then c.(next := th, pending := true) else c.(cur := th, wait := true, idle := false)
  }

  /** th is enabled for the core and waits to be put on it. */
  ghost predicate Boarding(s: State, core: nat, th: Option<Tid>) {
    match th
    case None => Inv(s, {}, 0, 0)
    case Some(t) =>
      t in s.threads && s.threads[t].active && s.threads[t].core == core && Inv(s, {t}, 0, s.threads[t].proc)
  }

  /** The state with core c changed leaves exactly the thread in out without a core. */
  ghost predicate Displaces(s: State, core: nat, x: Core, out: Option<Tid>) {
    && core < |s.cores|
    && match out
       case None => Inv(SetCore(s, core, x), {}, 0, 0)
       case Some(t) => t in s.threads && s.threads[t].active && Inv(SetCore(s, core, x), {t}, 0, s.threads[t].proc)
  }

  lemma Board(s: State, core: nat, t: Tid)
    requires t in s.threads && s.threads[t].active && s.threads[t].core == core && Inv(s, {t}, 0, s.threads[t].proc)
    ensures Boarding(s, core, Some(t))
  {}

  lemma BoardNobody(s: State, core: nat)
    requires Inv(s, {}, 0, 0)
    ensures Boarding(s, core, None)
  {}

  lemma IdleThread(s: State, p: Pid, t: Tid)
    requires Inv(s, {}, 0, 0) && p in s.procs && t in s.procs[p].idles
    ensures t in s.threads && !s.threads[t].active && s.threads[t].proc == p
  {
    var i :| 0 <= i < |s.procs[p].idles| && s.procs[p].idles[i] == t;
    assert IdleAt(s, p, i);
  }

  /** Changing a core's slots from threads it has or is about to get. */
  lemma Reseat(s: State, loose: set<Tid>, who: Pid, core: nat, x: Core, out: Option<Tid>)
    requires Inv(s, loose, 0, who) && core < |s.cores| && CoreOk(SetCore(s, core, x), core)
    requires SlotsOf(x) <= loose + SlotsOf(s.cores[core])
    requires loose + SlotsOf(s.cores[core]) - SlotsOf(x) == if out.Some? then {out.value} else {}
    requires out.Some? ==> out.value in s.threads && s.threads[out.value].active
    ensures Displaces(s, core, x, out)
  {
    hide Inv, CoreOk, SlotsOf;
    SetCoreInv(s, loose, 0, who, core, x);
    if out.Some? {
      AnyWho(SetCore(s, core, x), {out.value}, who, s.threads[out.value].proc);
    } else {
      AnyWho(SetCore(s, core, x), {}, who, 0);
    }
  }

  lemma GiveCore(s: State, core: nat, th: Option<Tid>)
    requires core < |s.cores| && Boarding(s, core, th)
    ensures var c := s.cores[core]; Displaces(s, core, Given(c, th), if c.wait then c.next else c.cur)
  {
    var c := s.cores[core];
    var loose := if th.Some? then {th.value} else {};
    var who := if th.Some? then s.threads[th.value].proc else 0;
    assert CoreOk(s, core);
    if th.Some? {
      assert ThreadOk(s, loose, th.value);
    }
    hide Inv;
    Reseat(s, loose, who, core, Given(c, th), if c.wait then c.next else c.cur);
  }

  lemma Promote(s: State, core: nat)
    requires Inv(s, {}, 0, 0) && core < |s.cores|
    ensures var c := s.cores[core]; Displaces(s, core, c.(cur := c.next, next := None, pending := false), c.cur)
  {
    var c := s.cores[core];
    assert CoreOk(s, core);
    hide Inv;
    Reseat(s, {}, 0, core, c.(cur := c.next, next := None, pending := false), c.cur);
  }

  lemma StopWaiting(s: State, core: nat)
    requires Inv(s, {}, 0, 0) && core < |s.cores| && !s.cores[core].pending
    ensures Displaces(s, core, s.cores[core].(wait := false), None)
  {
    var c := s.cores[core];
    assert CoreOk(s, core);
    hide Inv;
    Reseat(s, {}, 0, core, c.(wait := false), None);
  }

  lemma Rewake(s: State, core: nat)
    requires Inv(s, {}, 0, 0) && core < |s.cores|
    ensures Displaces(s, core, s.cores[core].(wait := true), None)
  {
    var c := s.cores[core];
    assert CoreOk(s, core);
    hide Inv;
    Reseat(s, {}, 0, core, c.(wait := true), None);
  }

  lemma Vacate(s: State, core: nat)
    requires Inv(s, {}, 0, 0) && core < |s.cores| && !s.cores[core].wait
    ensures Displaces(s, core, s.cores[core].(cur := None, idle := true), s.cores[core].cur)
  {
    var c := s.cores[core];
    assert CoreOk(s, core);
    hide Inv;
    Reseat(s, {}, 0, core, c.(cur := None, idle := true), c.cur);
  }

  /** The threads of a new process are inactive and have run on no core. */
  function NewThreads(threads: map<Tid, Thread>, numCores: nat, p: Pid, tids: seq<Tid>): map<Tid, Thread> {
    map t | t in threads.Keys + (set x | x in tids) ::
      if t in threads then threads[t] else Thread(p, false, numCores, 0, None)
  }

  function Attached(s: State, p: Pid, tids: seq<Tid>): State {
    s.(threads := NewThreads(s.threads, |s.cores|, p, tids), procs := s.procs[p := Proc([], tids, 1, true, 0)])
  }

  lemma AttachInv(s: State, p: Pid, tids: seq<Tid>)
    requires Inv(s, {}, 0, 0) && p !in s.procs && NoDups(tids) && forall i :: 0 <= i < |tids| ==> tids[i] !in s.threads
    ensures Inv(Attached(s, p, tids), {}, 0, 0)
  {
    var s' := Attached(s, p, tids);
    hide ThreadOk, CoreOk, ActiveAt, IdleAt, PolledAt, RefOk, NoDups;
    forall c | 0 <= c < |s'.cores| ensures CoreOk(s', c) {
      AttachKeeps(s, p, tids, c, 0, 0);
    }
    forall q, i | q in s'.procs && 0 <= i < |s'.procs[q].actives| ensures ActiveAt(s', q, i) {
      AttachKeeps(s, p, tids, 0, q, i);
    }
    forall q, i | q in s'.procs && 0 <= i < |s'.procs[q].idles| ensures IdleAt(s', q, i) {
      AttachKeeps(s, p, tids, 0, q, i);
      AttachIdle(s, p, tids, i);
    }
    forall q | q in s'.procs ensures NoDups(s'.procs[q].idles) && RefOk(s', 0, q, 0) {
      AttachRef(s, p, tids, q);
    }
    forall i | 0 <= i < |s'.ts| ensures PolledAt(s', i) {
      AttachKeeps(s, p, tids, 0, 0, i);
    }
    forall t | t in s'.threads ensures ThreadOk(s', {}, t) {
      AttachThread(s, p, tids, t);
    }
  }

  lemma AttachKeeps(s: State, p: Pid, tids: seq<Tid>, c: nat, q: Pid, i: nat)
    requires p !in s.procs
    ensures CoreOk(s, c) ==> CoreOk(Attached(s, p, tids), c)
    ensures ActiveAt(s, q, i) ==> ActiveAt(Attached(s, p, tids), q, i)
    ensures IdleAt(s, q, i) ==> IdleAt(Attached(s, p, tids), q, i)
    ensures PolledAt(s, i) ==> PolledAt(Attached(s, p, tids), i)
  {}

  lemma AttachIdle(s: State, p: Pid, tids: seq<Tid>, i: nat)
    requires p !in s.procs && forall j :: 0 <= j < |tids| ==> tids[j] !in s.threads
    ensures i < |tids| ==> IdleAt(Attached(s, p, tids), p, i)
  {
    if i < |tids| {
      assert tids[i] in (set x | x in tids);
    }
  }

  lemma AttachRef(s: State, p: Pid, tids: seq<Tid>, q: Pid)
    requires p !in s.procs && NoDups(tids) && forall j :: 0 <= j < |tids| ==> tids[j] !in s.threads
    requires q in s.procs ==> NoDups(s.procs[q].idles) && RefOk(s, 0, q, 0)
    requires q in s.procs || q == p
    requires forall t :: t in s.threads ==> ThreadOk(s, {}, t)
    ensures NoDups(Attached(s, p, tids).procs[q].idles) && RefOk(Attached(s, p, tids), 0, q, 0)
  {
    var s' := Attached(s, p, tids);
    if q == p {
      assert forall t :: t in s.threads ==> ThreadOk(s, {}, t) && s.threads[t].proc != p;
      assert ActiveOf(s', q) == {} && PolledOf(s', q) == {};
    } else {
      assert ActiveOf(s', q) == ActiveOf(s, q) && PolledOf(s', q) == PolledOf(s, q);
    }
  }

  lemma AttachThread(s: State, p: Pid, tids: seq<Tid>, t: Tid)
    requires p !in s.procs && t in Attached(s, p, tids).threads && (t in s.threads ==> ThreadOk(s, {}, t))
    ensures ThreadOk(Attached(s, p, tids), {}, t)
  {
    var s' := Attached(s, p, tids);
    assert t in s.threads ==> (Seated(s', t) <==> Seated(s, t));
  }

  lemma HasProc(s: State, loose: set<Tid>, credit: int, who: Pid, t: Tid)
    requires Inv(s, loose, credit, who) && t in s.threads
    ensures s.threads[t].proc in s.procs
  {
    assert ThreadOk(s, loose, t);
  }

  lemma Credited(s: State, loose: set<Tid>, q: Pid)
    requires Inv(s, loose, 1, q) && q in s.procs
    ensures s.procs[q].refs > 0
  {
    assert RefOk(s, 1, q, q);
  }
}
