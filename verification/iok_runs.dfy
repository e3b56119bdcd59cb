/**
 The scheduler's operations and their runs (sched.c, tx.c, dp_clients.c): when a process is
 released, and that it is left alone from then on.
 */
module IokRuns {
  import opened Basics
  import opened IokMachine
  import opened IokSched

  // ----- What happens to released processes ---------------------------------------------------------

  /** The log has every process without references, once. */
  ghost predicate Logged(s: State) {
    !s.late ==> NoDups(s.released) && forall p :: p in s.released <==> p in s.procs && s.procs[p].refs == 0
  }

  /** The record of p and its threads are the same in s and s'. */
  ghost predicate SameProc(s: State, s': State, p: Pid) {
    && p in s.procs && p in s'.procs && s'.procs[p] == s.procs[p]
    && (forall t :: t in s.threads && s.threads[t].proc == p ==> t in s'.threads && s'.threads[t] == s.threads[t])
    && (forall t :: t in s'.threads && s'.threads[t].proc == p ==> t in s.threads && s.threads[t].proc == p)
  }

  /** From s to s' no released process changes, or s' tells that one was taken hold of. */
  ghost predicate Gentle(s: State, s': State) {
    && (s.late ==> s'.late) && s.released <= s'.released && (!s'.late && Logged(s) ==> Logged(s'))
    && (!s'.late ==> forall p :: p in s.procs && s.procs[p].refs == 0 ==> SameProc(s, s', p))
  }

  lemma GentleTrans(a: State, b: State, c: State)
    requires Gentle(a, b) && Gentle(b, c)
    ensures Gentle(a, c)
  {
    hide Logged;
    if !c.late {
      forall p | p in a.procs && a.procs[p].refs == 0 ensures SameProc(a, c, p) {
        assert SameProc(a, b, p) && SameProc(b, c, p);
      }
    }
  }

  /** Changing the threads and lists of processes that have references. */
  lemma LiveGentle(s: State, s': State)
    requires s'.released == s.released && s'.late == s.late && s'.procs.Keys == s.procs.Keys
    requires s'.threads.Keys == s.threads.Keys
    requires forall p :: p in s.procs ==> s'.procs[p] == s.procs[p] || (s.procs[p].refs > 0 && s'.procs[p].refs > 0)
    requires forall t :: t in s.threads ==> s'.threads[t].proc == s.threads[t].proc
    requires forall t :: t in s.threads ==>
               s'.threads[t] == s.threads[t] || (s.threads[t].proc in s.procs && s.procs[s.threads[t].proc].refs > 0)
    ensures Gentle(s, s')
  {}

  lemma GetGentle(s: State, p: Pid)
    ensures Gentle(s, Get(s, p))
  {}

  lemma PutGentle(s: State, p: Pid)
    ensures Gentle(s, Put(s, p))
  {
    var s' := Put(s, p);
    if Logged(s) && !s.late && s' != s {
      assert p !in s.released;
      var x := s'.released;
      forall i, j | 0 <= i < j < |x| ensures x[i] != x[j] {
        assert x[i] in s.released;
      }
    }
  }

  lemma EnableGentle(s: State, t: Tid, core: nat)
    requires t in s.threads && s.threads[t].proc in s.procs && s.procs[s.threads[t].proc].refs > 0
    ensures Gentle(s, Enable(s, t, core))
  {
    hide Gentle;
    LiveGentle(s, Enable(s, t, core));
  }

  lemma DisableGentle(s: State, t: Tid)
    requires DisableReady(s, t) && s.procs[s.threads[t].proc].refs > 0
    ensures Gentle(s, Disable(s, t))
  {
    hide Gentle;
    LiveGentle(s, Disable(s, t));
  }

  lemma PollGentle(s: State, t: Tid)
    requires t in s.threads && s.threads[t].proc in s.procs
    ensures Gentle(s, Poll(s, t))
  {
    hide Gentle;
    if s.threads[t].tsIdx.None? {
      var g := Get(s, s.threads[t].proc);
      GetGentle(s, s.threads[t].proc);
      LiveGentle(g, Poll(s, t));
      GentleTrans(s, g, Poll(s, t));
    } else {
      LiveGentle(s, s);
    }
  }

  lemma PolledCounts(s: State, loose: set<Tid>, credit: nat, who: Pid, t: Tid)
    requires Inv(s, loose, credit, who) && t in s.threads && (s.threads[t].tsIdx.Some? || s.threads[t].active)
    ensures s.threads[t].proc in s.procs && s.procs[s.threads[t].proc].refs > 0
  {
    assert ThreadOk(s, loose, t);
    var q := s.threads[t].proc;
    assert RefOk(s, credit, q, who);
    assert t in PolledOf(s, q) || t in ActiveOf(s, q);
  }

  lemma UnpollGentle(s: State, loose: set<Tid>, credit: nat, t: Tid)
    requires t in s.threads && Inv(s, loose, credit, s.threads[t].proc) && s.threads[t].tsIdx.Some?
    ensures Gentle(s, Unpoll(s, t))
  {
    hide Gentle, Inv, Put;
    CanUnpoll(s, loose, credit, t);
    PolledCounts(s, loose, credit, s.threads[t].proc, s.ts[|s.ts| - 1]);
    UnlistGentle(s, t);
    PutGentle(Unlisted(s, t), s.threads[t].proc);
    GentleTrans(s, Unlisted(s, t), Unpoll(s, t));
  }

  lemma UnlistGentle(s: State, t: Tid)
    requires UnpollReady(s, t)
    requires var q := s.threads[s.ts[|s.ts| - 1]].proc; q in s.procs && s.procs[q].refs > 0
    ensures Gentle(s, Unlisted(s, t))
  {
    hide Gentle;
    LiveGentle(s, Unlisted(s, t));
  }

  // ----- The operations, composed --------------------------------------------------------------------

  /** proc_get and sched_enable_kthread. */
  function Start(s: State, t: Tid, core: nat): State {
    if t !in s.threads then s else Poll(Enable(Get(s, s.threads[t].proc), t, core), t)
  }

  lemma StartKeeps(s: State, t: Tid, core: nat)
    requires Inv(s, {}, 0, 0) && t in s.threads && !s.threads[t].active && core < |s.cores|
    requires s.threads[t].proc in s.procs && s.procs[s.threads[t].proc].refs > 0
    ensures var s' := Start(s, t, core);
            Boarding(s', core, Some(t)) && Gentle(s, s') && s'.late == s.late && s'.cores == s.cores
  {
    hide Inv, Gentle;
    var q := s.threads[t].proc;
    AnyWho(s, {}, 0, q);
    var g := Get(s, q);
    GetInv(s, {}, 0, q);
    GetGentle(s, q);
    var e := Enable(g, t, core);
    EnableInv(g, t, core);
    EnableGentle(g, t, core);
    GentleTrans(s, g, e);
    PollInv(e, {t}, t);
    PollGentle(e, t);
    GentleTrans(s, e, Poll(e, t));
    Board(Poll(e, t), core, t);
  }

  /** sched_disable_kthread and proc_put, for a thread that has lost its core.  txEmpty says
      whether its outgoing packet queue is empty. */
  function Drop(s: State, t: Tid, txEmpty: bool): State {
    if t !in s.threads then s
    else
      var d := Disable(s, t);
      Put(if txEmpty then Unpoll(d, t) else d, s.threads[t].proc)
  }

  lemma DropKeeps(s: State, t: Tid, txEmpty: bool)
    requires t in s.threads && s.threads[t].active && Inv(s, {t}, 0, s.threads[t].proc)
    ensures var s' := Drop(s, t, txEmpty);
            Inv(s', {}, 0, 0) && Gentle(s, s') && s'.late == s.late && s'.cores == s.cores
  {
    hide Inv, Gentle, Disable, Unpoll, DisableReady;
    var q := s.threads[t].proc;
    DisableInv(s, t);
    PolledCounts(s, {t}, 0, q, t);
    DisableGentle(s, t);
    var d := Disable(s, t);
    DisableFrame(s, t);
    var u := if txEmpty then Unpoll(d, t) else d;
    if txEmpty && d.threads[t].tsIdx.Some? {
      UnpollInv(d, {}, 1, t);
      UnpollGentle(d, {}, 1, t);
      UnpollFrame(d, t);
      GentleTrans(s, d, u);
    } else if txEmpty {
      NotPolled(d, t);
    }
    Credited(u, {}, q);
    PutInv(u, {}, 1, q);
    PutGentle(u, q);
    GentleTrans(s, u, Put(u, q));
    AnyWho(Put(u, q), {}, q, 0);
  }

  lemma DisableFrame(s: State, t: Tid)
    requires DisableReady(s, t)
    ensures var s' := Disable(s, t);
            && s'.cores == s.cores && s'.late == s.late && t in s'.threads && s'.threads[t].proc == s.threads[t].proc
            && s.threads[t].proc in s'.procs
  {}

  lemma UnpollFrame(s: State, t: Tid)
    requires UnpollReady(s, t)
    ensures var s' := Unpoll(s, t); s'.cores == s.cores && s'.late == s.late && s.threads[t].proc in s'.procs
  {}

  lemma NotPolled(s: State, t: Tid)
    requires t in s.threads && s.threads[t].tsIdx.None?
    ensures Unpoll(s, t) == s
  {}

  /** t is active and counted, so that it can be dropped. */
  predicate DropReady(s: State, t: Tid, txEmpty: bool) {
    && DisableReady(s, t)
    && var d, p := Disable(s, t), s.threads[t].proc;
       && t in d.threads && (txEmpty && d.threads[t].tsIdx.Some? ==> UnpollReady(d, t))
       && var u := if txEmpty then Unpoll(d, t) else d; p in u.procs && u.procs[p].refs > 0
  }

  lemma CanDrop(s: State, t: Tid, txEmpty: bool)
    requires t in s.threads && s.threads[t].active && Inv(s, {t}, 0, s.threads[t].proc)
    ensures DropReady(s, t, txEmpty)
  {
    hide Inv, Disable, Unpoll, UnpollReady, DisableReady;
    DisableInv(s, t);
    DisableFrame(s, t);
    var d := Disable(s, t);
    if txEmpty && d.threads[t].tsIdx.Some? {
      UnpollInv(d, {}, 1, t);
      UnpollFrame(d, t);
    } else if txEmpty {
      NotPolled(d, t);
    }
    Credited(if txEmpty then Unpoll(d, t) else d, {}, s.threads[t].proc);
  }

  /** Dropping a thread does not look at the cores. */
  lemma DropAside(s: State, core: nat, x: Core, t: Tid, txEmpty: bool)
    requires core < |s.cores| && DropReady(SetCore(s, core, x), t, txEmpty)
    ensures DropReady(s, t, txEmpty) && Drop(s, t, txEmpty).cores == s.cores
    ensures Drop(SetCore(s, core, x), t, txEmpty) == SetCore(Drop(s, t, txEmpty), core, x)
  {
    var v := SetCore(s, core, x);
    var d := Disable(s, t);
    DisableAside(s, core, x, t);
    UnpollAside(d, core, x, t);
    hide Disable, Unpoll, UnpollReady, DisableReady;
  }

  lemma DisableAside(s: State, core: nat, x: Core, t: Tid)
    requires core < |s.cores|
    ensures DisableReady(s, t) <==> DisableReady(SetCore(s, core, x), t)
    ensures Disable(s, t).cores == s.cores && Disable(SetCore(s, core, x), t) == SetCore(Disable(s, t), core, x)
  {}

  lemma UnpollAside(s: State, core: nat, x: Core, t: Tid)
    requires core < |s.cores|
    ensures UnpollReady(s, t) <==> UnpollReady(SetCore(s, core, x), t)
    ensures Unpoll(s, t).cores == s.cores && Unpoll(SetCore(s, core, x), t) == SetCore(Unpoll(s, t), core, x)
  {}

  /** t has left its core: it is inactive and first in line to run again, its process has lost one
      reference, and one more if t is no longer polled, and is released if that was the last. */
  ghost predicate Departs(s: State, s': State, t: Tid, txEmpty: bool) {
    && t in s.threads && t in s'.threads && s.threads[t].active
    && s'.threads.Keys == s.threads.Keys && s'.procs.Keys == s.procs.Keys && s'.late == s.late
    && var p, unpolled := s.threads[t].proc, txEmpty && s.threads[t].tsIdx.Some?;
       && p in s.procs
       && s'.threads[t].proc == p && !s'.threads[t].active
       && s'.threads[t].tsIdx.Some? == (s.threads[t].tsIdx.Some? && !txEmpty)
       && s'.procs[p].idles == [t] + s.procs[p].idles
       && multiset(s'.procs[p].actives) == multiset(s.procs[p].actives) - multiset{t}
       && s'.procs[p].refs == s.procs[p].refs - 1 - (if unpolled then 1 else 0)
       && s'.released == (if s'.procs[p].refs == 0 then s.released + [p] else s.released)
       && s'.procs[p].attached == s.procs[p].attached && s'.procs[p].holds == s.procs[p].holds
       && multiset(s'.ts) == multiset(s.ts) - (if unpolled then multiset{t} else multiset{})
       && (forall q :: q in s.procs && q != p ==> s'.procs[q] == s.procs[q])
       && (forall u :: u in s.threads && u != t ==>
             && s'.threads[u] == s.threads[u].(atIdx := s'.threads[u].atIdx, tsIdx := s'.threads[u].tsIdx)
             && (s'.threads[u].tsIdx.Some? <==> s.threads[u].tsIdx.Some?))
  }

  /** The last element fills the gap of another. */
  lemma GapFilled(xs: seq<Tid>, i: nat)
    requires i < |xs|
    ensures multiset(xs[i := xs[|xs| - 1]][..|xs| - 1]) == multiset(xs) - multiset{xs[i]}
  {
    var n := |xs| - 1;
    var ys := xs[i := xs[n]];
    assert ys == ys[..n] + [xs[n]];
    assert multiset(ys) == multiset(xs) - multiset{xs[i]} + multiset{xs[n]};
    var a, b, one := multiset(ys[..n]), multiset(xs) - multiset{xs[i]}, multiset{xs[n]};
    assert a + one == b + one;
    forall x ensures a[x] == b[x] {
      assert (a + one)[x] == (b + one)[x];
    }
  }

  /** t is no longer in the list of active threads, and nothing else of its process has changed. */
  ghost predicate Unlinks(s: State, d: State, t: Tid) {
    && t in s.threads && s.threads[t].active && s.threads[t].proc in s.procs
    && d.procs.Keys == s.procs.Keys && d.threads.Keys == s.threads.Keys
    && var p := s.threads[t].proc;
       && d == s.(threads := d.threads, procs := s.procs[p := d.procs[p]])
       && d.threads[t].proc == p && !d.threads[t].active && d.threads[t].tsIdx == s.threads[t].tsIdx
       && (forall u :: u in s.threads && u != t ==> d.threads[u] == s.threads[u].(atIdx := d.threads[u].atIdx))
       && d.procs[p].idles == [t] + s.procs[p].idles
       && multiset(d.procs[p].actives) == multiset(s.procs[p].actives) - multiset{t}
       && d.procs[p] == s.procs[p].(actives := d.procs[p].actives, idles := d.procs[p].idles)
  }

  lemma DisableMeans(s: State, t: Tid)
    requires DisableReady(s, t)
    ensures Unlinks(s, Disable(s, t), t)
  {
    DisableThreads(s, t);
    DisableLists(s, t);
    DisableFrame(s, t);
    hide Disable, DisableReady;
  }

  lemma DisableThreads(s: State, t: Tid)
    requires DisableReady(s, t)
    ensures t in s.threads && s.threads[t].active
    ensures var d := Disable(s, t);
            && d.threads.Keys == s.threads.Keys && !d.threads[t].active && d.threads[t].tsIdx == s.threads[t].tsIdx
            && d.threads[t].proc == s.threads[t].proc
            && forall u :: u in s.threads && u != t ==> d.threads[u] == s.threads[u].(atIdx := d.threads[u].atIdx)
  {}

  lemma DisableLists(s: State, t: Tid)
    requires DisableReady(s, t)
    ensures t in s.threads && s.threads[t].proc in s.procs
    ensures var d, p := Disable(s, t), s.threads[t].proc;
            && d.procs.Keys == s.procs.Keys && d == s.(threads := d.threads, procs := s.procs[p := d.procs[p]])
            && d.procs[p].idles == [t] + s.procs[p].idles
            && multiset(d.procs[p].actives) == multiset(s.procs[p].actives) - multiset{t}
            && d.procs[p] == s.procs[p].(actives := d.procs[p].actives, idles := d.procs[p].idles)
  {
    GapFilled(s.procs[s.threads[t].proc].actives, s.threads[t].atIdx);
  }

  lemma UnlistMeans(s: State, t: Tid)
    requires UnpollReady(s, t)
    ensures var s' := Unlisted(s, t);
            && t in s.threads && s' == s.(threads := s'.threads, ts := s'.ts)
            && multiset(s'.ts) == multiset(s.ts) - multiset{t}
            && s'.threads.Keys == s.threads.Keys && s'.threads[t] == s.threads[t].(tsIdx := None)
            && forall u :: u in s.threads && u != t ==>
                 && s'.threads[u] == s.threads[u].(tsIdx := s'.threads[u].tsIdx)
                 && (s'.threads[u].tsIdx.Some? <==> s.threads[u].tsIdx.Some?)
  {
    GapFilled(s.ts, s.threads[t].tsIdx.value);
  }

  lemma UnpollMeans(s: State, t: Tid)
    requires UnpollReady(s, t)
    ensures var s', p := Unpoll(s, t), s.threads[t].proc;
            && t in s.threads && p in s.procs && s.procs[p].refs > 0
            && s' == Unlisted(s, t).(procs := s.procs[p := s.procs[p].(refs := s.procs[p].refs - 1)],
                                     released := s'.released)
            && s'.released == (if s.procs[p].refs == 1 then s.released + [p] else s.released)
  {}

  lemma DropMeans(s: State, t: Tid, txEmpty: bool)
    requires DropReady(s, t, txEmpty)
    ensures Departs(s, Drop(s, t, txEmpty), t, txEmpty)
  {
    hide Disable, Unpoll, UnpollReady, DisableReady, Put, Departs;
    DisableMeans(s, t);
    var d := Disable(s, t);
    if txEmpty && d.threads[t].tsIdx.Some? {
      DepartsUnpolled(s, d, t);
    } else {
      if txEmpty {
        NotPolled(d, t);
      }
      DepartsAsIs(s, d, t, txEmpty);
    }
  }

  lemma DepartsAsIs(s: State, d: State, t: Tid, txEmpty: bool)
    requires Unlinks(s, d, t) && (txEmpty ==> d.threads[t].tsIdx.None?) && d.procs[s.threads[t].proc].refs > 0
    ensures Departs(s, Put(d, s.threads[t].proc), t, txEmpty)
  {}

  lemma DepartsUnpolled(s: State, d: State, t: Tid)
    requires Unlinks(s, d, t) && UnpollReady(d, t)
    requires var u, p := Unpoll(d, t), s.threads[t].proc; p in u.procs && u.procs[p].refs > 0
    ensures Departs(s, Put(Unpoll(d, t), s.threads[t].proc), t, true)
  {
    PolledNow(d, t);
    hide Unpoll, UnpollReady, Unlisted, Departs;
    UnpollMeans(d, t);
    UnlistMeans(d, t);
    var v, p := Unlisted(d, t), s.threads[t].proc;
    UnlistedToo(s, d, v, t);
    var s' := Put(Unpoll(d, t), p);
    assert s' == v.(procs := d.procs[p := d.procs[p].(refs := d.procs[p].refs - 2)], released := s'.released);
    assert s'.released == if d.procs[p].refs == 2 then s.released + [p] else s.released;
    hide Put;
    DepartsFrom(s, d, v, s', t);
  }

  lemma DepartsFrom(s: State, d: State, v: State, s': State, t: Tid)
    requires Unlinks(s, d, t) && d.threads[t].tsIdx.Some? && d.procs[s.threads[t].proc].refs >= 2
    requires v == d.(threads := v.threads, ts := v.ts) && v.threads.Keys == d.threads.Keys
    requires v.threads[t] == d.threads[t].(tsIdx := None) && multiset(v.ts) == multiset(d.ts) - multiset{t}
    requires forall u :: u in s.threads && u != t ==>
               && v.threads[u] == s.threads[u].(atIdx := v.threads[u].atIdx, tsIdx := v.threads[u].tsIdx)
               && (v.threads[u].tsIdx.Some? <==> s.threads[u].tsIdx.Some?)
    requires var p := s.threads[t].proc;
             && s' == v.(procs := d.procs[p := d.procs[p].(refs := d.procs[p].refs - 2)], released := s'.released)
             && s'.released == if d.procs[p].refs == 2 then s.released + [p] else s.released
    ensures Departs(s, s', t, true)
  {}

  lemma UnlistedToo(s: State, d: State, v: State, t: Tid)
    requires Unlinks(s, d, t) && v == d.(threads := v.threads, ts := v.ts) && v.threads.Keys == d.threads.Keys
    requires v.threads[t] == d.threads[t].(tsIdx := None)
    requires forall u :: u in d.threads && u != t ==>
               && v.threads[u] == d.threads[u].(tsIdx := v.threads[u].tsIdx)
               && (v.threads[u].tsIdx.Some? <==> d.threads[u].tsIdx.Some?)
    ensures forall u :: u in s.threads && u != t ==>
               && v.threads[u] == s.threads[u].(atIdx := v.threads[u].atIdx, tsIdx := v.threads[u].tsIdx)
               && (v.threads[u].tsIdx.Some? <==> s.threads[u].tsIdx.Some?)
  {}

  /** Whoever has to make room on the core. */
  function Evicted(c: Core): Option<Tid> {
    if c.wait then c.next else c.cur
  }

  /** A core's slots are changed and the thread that leaves them is dropped. */
  function Switch(s: State, core: nat, x: Core, out: Option<Tid>, txEmpty: bool): State
    requires core < |s.cores|
  {
    if out.Some? then Drop(SetCore(s, core, x), out.value, txEmpty) else SetCore(s, core, x)
  }

  lemma SwitchKeeps(s: State, core: nat, x: Core, out: Option<Tid>, txEmpty: bool)
    requires Displaces(s, core, x, out)
    ensures var s' := Switch(s, core, x, out, txEmpty);
            Inv(s', {}, 0, 0) && Gentle(s, s') && s'.late == s.late && s'.cores == s.cores[core := x]
  {
    hide Inv, Gentle, Drop;
    var s1 := SetCore(s, core, x);
    LiveGentle(s, s1);
    if out.Some? {
      DropKeeps(s1, out.value, txEmpty);
      GentleTrans(s, s1, Drop(s1, out.value, txEmpty));
    }
  }

  /** __sched_run. */
  function Assign(s: State, core: nat, th: Option<Tid>, txEmpty: bool): State
    requires core < |s.cores|
  {
    Switch(s, core, Given(s.cores[core], th), Evicted(s.cores[core]), txEmpty)
  }

  /** The first of the threads ts that last ran on the core. */
  function FirstOn(s: State, ts: seq<Tid>, core: nat): Option<Tid> {
    if ts == [] then None
    else if ts[0] in s.threads && s.threads[ts[0]].core == core then Some(ts[0])
    else FirstOn(s, ts[1..], core)
  }

  lemma {:induction false} FirstOnIs(s: State, ts: seq<Tid>, core: nat)
    ensures var r := FirstOn(s, ts, core);
            && (r.None? ==> forall t :: t in ts && t in s.threads ==> s.threads[t].core != core)
            && (r.Some? ==> r.value in ts && r.value in s.threads && s.threads[r.value].core == core)
  {
    if ts != [] {
      FirstOnIs(s, ts[1..], core);
      assert ts == [ts[0]] + ts[1..];
    }
  }

  /** sched_pick_kthread: one that last ran on this core, else one that last ran on its sibling,
      else the least recently used. */
  function Pick(m: Machine, s: State, p: Pid, core: nat): (t: Tid)
    requires p in s.procs && s.procs[p].idles != []
  {
    var idles := s.procs[p].idles;
    match FirstOn(s, idles, core)
    case Some(t) => t
    case None =>
      match FirstOn(s, idles, Sibling(m, core))
      case Some(t) => t
      case None => idles[|idles| - 1]
  }

  /** The chosen thread is idle, and no idle one would have been nearer. */
  lemma PickIsNearest(m: Machine, s: State, p: Pid, core: nat, u: Tid)
    requires p in s.procs && s.procs[p].idles != [] && u in s.procs[p].idles && u in s.threads
    ensures var t := Pick(m, s, p, core);
            && t in s.procs[p].idles
            && (s.threads[u].core == core ==> t in s.threads && s.threads[t].core == core)
            && (s.threads[u].core == Sibling(m, core) ==>
                  t in s.threads && s.threads[t].core in {core, Sibling(m, core)})
  {
    FirstOnIs(s, s.procs[p].idles, core);
    FirstOnIs(s, s.procs[p].idles, Sibling(m, core));
  }

  predicate MayRun(m: Machine, s: State, p: Pid, core: nat) {
    p in s.procs && s.procs[p].idles != [] && core < |s.cores| && core in m.allowed
  }

  /** sched_run_on_core. */
  function RunOn(m: Machine, s: State, p: Pid, core: nat, txEmpty: bool): State {
    if !MayRun(m, s, p, core) then s
    else
      var t := Pick(m, s, p, core);
      var b := Start(s, t, core);
      if core < |b.cores| then Assign(b, core, Some(t), txEmpty) else s
  }

  lemma RunOnKeeps(m: Machine, s: State, p: Pid, core: nat, txEmpty: bool)
    requires Inv(s, {}, 0, 0) && p in s.procs && s.procs[p].refs > 0
    ensures var s' := RunOn(m, s, p, core, txEmpty);
            && Inv(s', {}, 0, 0) && Gentle(s, s') && s'.late == s.late
            && s'.cores == if MayRun(m, s, p, core)
                           then s.cores[core := Given(s.cores[core], Some(Pick(m, s, p, core)))] else s.cores
  {
    hide Inv, Gentle, Switch, Start, Pick, Given, Boarding, Displaces;
    if MayRun(m, s, p, core) {
      var t := Pick(m, s, p, core);
      PickIdle(m, s, p, core);
      IdleThread(s, p, t);
      var b := Start(s, t, core);
      StartKeeps(s, t, core);
      GiveCore(b, core, Some(t));
      SwitchKeeps(b, core, Given(b.cores[core], Some(t)), Evicted(b.cores[core]), txEmpty);
      GentleTrans(s, b, RunOn(m, s, p, core, txEmpty));
    } else {
      LiveGentle(s, s);
    }
  }

  lemma PickIdle(m: Machine, s: State, p: Pid, core: nat)
    requires p in s.procs && s.procs[p].idles != []
    ensures Pick(m, s, p, core) in s.procs[p].idles
  {
    FirstOnIs(s, s.procs[p].idles, core);
    FirstOnIs(s, s.procs[p].idles, Sibling(m, core));
  }

  /** sched_idle_on_core. */
  function IdleOn(m: Machine, s: State, core: nat, txEmpty: bool): State {
    if core < |s.cores| && core in m.allowed then Assign(s, core, None, txEmpty) else s
  }

  lemma IdleOnKeeps(m: Machine, s: State, core: nat, txEmpty: bool)
    requires Inv(s, {}, 0, 0)
    ensures var s' := IdleOn(m, s, core, txEmpty);
            && Inv(s', {}, 0, 0) && Gentle(s, s') && s'.late == s.late
            && s'.cores == if core < |s.cores| && core in m.allowed
                           then s.cores[core := Given(s.cores[core], None)] else s.cores
  {
    hide Inv, Gentle, Switch, Given, Boarding, Displaces;
    if core < |s.cores| && core in m.allowed {
      BoardNobody(s, core);
      GiveCore(s, core, None);
      SwitchKeeps(s, core, Given(s.cores[core], None), Evicted(s.cores[core]), txEmpty);
    } else {
      LiveGentle(s, s);
    }
  }

  /** A run request has been carried out: start the pending one, or stop waiting. */
  function Finish(s: State, core: nat, txEmpty: bool): State
    requires core < |s.cores|
  {
    var c := s.cores[core];
    Switch(s, core, RunDone(c), if c.pending then c.cur else None, txEmpty)
  }

  lemma FinishKeeps(s: State, core: nat, txEmpty: bool)
    requires Inv(s, {}, 0, 0) && core < |s.cores| && s.cores[core].wait
    ensures var s' := Finish(s, core, txEmpty);
            && Inv(s', {}, 0, 0) && Gentle(s, s') && s'.late == s.late
            && s'.cores == s.cores[core := RunDone(s.cores[core])]
  {
    hide Inv, Gentle, Switch, Displaces;
    var c := s.cores[core];
    if c.pending {
      Promote(s, core);
      SwitchKeeps(s, core, RunDone(c), c.cur, txEmpty);
    } else {
      StopWaiting(s, core);
      SwitchKeeps(s, core, RunDone(c), None, txEmpty);
    }
  }

  /** The core has gone idle: sched_try_fast_rewake, or take the thread off it. */
  function ToIdle(s: State, core: nat, rewake: bool, txEmpty: bool): State
    requires core < |s.cores|
  {
    var c := s.cores[core];
    Switch(s, core, Idled(c, rewake), if rewake then None else c.cur, txEmpty)
  }

  lemma ToIdleKeeps(s: State, core: nat, rewake: bool, txEmpty: bool)
    requires Inv(s, {}, 0, 0) && core < |s.cores| && !s.cores[core].wait
    ensures var s' := ToIdle(s, core, rewake, txEmpty);
            && Inv(s', {}, 0, 0) && Gentle(s, s') && s'.late == s.late
            && s'.cores == s.cores[core := Idled(s.cores[core], rewake)]
  {
    hide Inv, Gentle, Switch, Displaces;
    var c := s.cores[core];
    if c.cur.Some? && rewake {
      Rewake(s, core);
      SwitchKeeps(s, core, Idled(c, rewake), None, txEmpty);
    } else {
      Vacate(s, core);
      SwitchKeeps(s, core, Idled(c, rewake), c.cur, txEmpty);
    }
  }

  /** One core in the fast pass of sched_poll.  runDone and idle are the kernel module's
      answers, rewake says that the thread has work waiting. */
  function PollOne(s: State, core: nat, runDone: bool, idle: bool, rewake: bool, txEmpty: bool): State {
    if core >= |s.cores| then s
    else
      var s1 := if s.cores[core].wait && runDone then Finish(s, core, txEmpty) else s;
      if core < |s1.cores| && !s1.cores[core].wait && !s1.cores[core].idle && idle
      then ToIdle(s1, core, rewake, txEmpty) else s1
  }

  lemma PollOneKeeps(s: State, core: nat, runDone: bool, idle: bool, rewake: bool, txEmpty: bool)
    requires Inv(s, {}, 0, 0)
    ensures var s' := PollOne(s, core, runDone, idle, rewake, txEmpty);
            && Inv(s', {}, 0, 0) && Gentle(s, s') && s'.late == s.late
            && (core < |s.cores| ==> s'.cores == s.cores[core := Polled(s.cores[core], runDone, idle, rewake)])
  {
    hide Inv, Gentle, Finish, ToIdle;
    LiveGentle(s, s);
    if core < |s.cores| {
      var s1 := if s.cores[core].wait && runDone then Finish(s, core, txEmpty) else s;
      if s.cores[core].wait && runDone {
        FinishKeeps(s, core, txEmpty);
      }
      if !s1.cores[core].wait && !s1.cores[core].idle && idle {
        ToIdleKeeps(s1, core, rewake, txEmpty);
        GentleTrans(s, s1, ToIdle(s1, core, rewake, txEmpty));
      }
    }
  }

  // ----- References from outside -----------------------------------------------------------------------

  lemma AttachKeepsAll(s: State, p: Pid, tids: seq<Tid>)
    requires Inv(s, {}, 0, 0) && p !in s.procs && NoDups(tids) && forall i :: 0 <= i < |tids| ==> tids[i] !in s.threads
    ensures Inv(Attached(s, p, tids), {}, 0, 0) && Gentle(s, Attached(s, p, tids))
  {
    hide Gentle;
    AttachInv(s, p, tids);
    forall t | t in s.threads ensures s.threads[t].proc != p {
      assert ThreadOk(s, {}, t);
    }
    hide Inv;
    AttachGentle(s, p, tids);
  }

  lemma AttachGentle(s: State, p: Pid, tids: seq<Tid>)
    requires p !in s.procs && forall t :: t in s.threads ==> s.threads[t].proc != p
    ensures Gentle(s, Attached(s, p, tids))
  {}

  /** dp_clients_remove_client: the attachment ends and its reference goes. */
  function Detached(s: State, p: Pid): State {
    if p !in s.procs || !s.procs[p].attached then s
    else Put(s.(procs := s.procs[p := s.procs[p].(attached := false)]), p)
  }

  /** tx_prepare_tx_mbuf takes a reference for a packet, tx_send_completion gives it back. */
  function Hold(s: State, p: Pid): State {
    if p !in s.procs then s
    else
      var g := Get(s, p);
      g.(procs := g.procs[p := g.procs[p].(holds := g.procs[p].holds + 1)])
  }

  function Completed(s: State, p: Pid): State {
    if p !in s.procs || s.procs[p].holds == 0 then s
    else Put(s.(procs := s.procs[p := s.procs[p].(holds := s.procs[p].holds - 1)]), p)
  }

  lemma RefsCover(s: State, p: Pid)
    requires Inv(s, {}, 0, 0) && p in s.procs
    ensures s.procs[p].refs >= Outside(s.procs[p])
  {
    assert RefOk(s, 0, p, 0);
  }

  lemma PutFrame(s: State, p: Pid)
    ensures Put(s, p).late == s.late && Put(s, p).cores == s.cores
  {}

  /** Giving back a reference from outside. */
  lemma ReturnKeeps(s: State, p: Pid, x: Proc)
    requires Inv(s, {}, 0, 0) && p in s.procs && Outside(x) == Outside(s.procs[p]) - 1
    requires x == s.procs[p].(attached := x.attached, holds := x.holds)
    ensures var s' := Put(s.(procs := s.procs[p := x]), p); Inv(s', {}, 0, 0) && Gentle(s, s') && s'.late == s.late
  {
    hide Inv, Gentle, Put;
    var mid := s.(procs := s.procs[p := x]);
    RefsCover(s, p);
    AnyWho(s, {}, 0, p);
    AdjustInv(s, mid, {}, 0, p);
    LiveGentle(s, mid);
    PutInv(mid, {}, 1, p);
    PutGentle(mid, p);
    PutFrame(mid, p);
    GentleTrans(s, mid, Put(mid, p));
    AnyWho(Put(mid, p), {}, p, 0);
  }

  lemma HoldKeeps(s: State, p: Pid)
    requires Inv(s, {}, 0, 0)
    ensures Inv(Hold(s, p), {}, 0, 0) && Gentle(s, Hold(s, p))
  {
    hide Inv, Gentle;
    LiveGentle(s, s);
    if p in s.procs {
      AnyWho(s, {}, 0, p);
      var g := Get(s, p);
      GetGentle(s, p);
      AdjustInv(s, Hold(s, p), {}, 0, p);
      LiveGentle(g, Hold(s, p));
      GentleTrans(s, g, Hold(s, p));
      AnyWho(Hold(s, p), {}, p, 0);
    }
  }

  // ----- The transmit path --------------------------------------------------------------------------------

  /** One thread visited by tx_burst: n packets were taken from its queue, which then was found
      empty or not. */
  datatype Pull = Pull(t: Tid, n: nat, emptied: bool)

  /** tx_drain_queue: a thread that is inactive and drained is no longer polled. */
  function Drained(s: State, x: Pull): State {
    if IsPolled(s, x.t) && x.emptied && !s.threads[x.t].active then Unpoll(s, x.t) else s
  }

  /** The processes of the packets taken. */
  function Packets(s: State, x: Pull): seq<Pid> {
    if IsPolled(s, x.t) then seq(x.n, _ => s.threads[x.t].proc) else []
  }

  function DrainAll(s: State, batch: seq<Pull>): State
    decreases |batch|
  {
    if batch == [] then s else DrainAll(Drained(s, batch[0]), batch[1..])
  }

  function PacketsOf(s: State, batch: seq<Pull>): seq<Pid>
    decreases |batch|
  {
    if batch == [] then [] else Packets(s, batch[0]) + PacketsOf(Drained(s, batch[0]), batch[1..])
  }

  function HoldAll(s: State, ps: seq<Pid>): State
    decreases |ps|
  {
    if ps == [] then s else HoldAll(Hold(s, ps[0]), ps[1..])
  }

  /** tx_burst: all queues are drained first, and then every packet takes its reference. */
  function Transmitted(s: State, batch: seq<Pull>): State {
    HoldAll(DrainAll(s, batch), PacketsOf(s, batch))
  }

  lemma DrainKeeps(s: State, x: Pull)
    requires Inv(s, {}, 0, 0)
    ensures var s' := Drained(s, x); Inv(s', {}, 0, 0) && Gentle(s, s') && s'.late == s.late
  {
    hide Inv, Gentle, Unpoll;
    LiveGentle(s, s);
    if IsPolled(s, x.t) && x.emptied && !s.threads[x.t].active {
      var q := s.threads[x.t].proc;
      AnyWho(s, {}, 0, q);
      UnpollInv(s, {}, 0, x.t);
      UnpollGentle(s, {}, 0, x.t);
      UnpollFrame(s, x.t);
      AnyWho(Unpoll(s, x.t), {}, q, 0);
    }
  }

  lemma {:induction false} DrainAllKeeps(s: State, batch: seq<Pull>)
    requires Inv(s, {}, 0, 0)
    ensures var s' := DrainAll(s, batch); Inv(s', {}, 0, 0) && Gentle(s, s') && s'.late == s.late
    decreases |batch|
  {
    hide Inv, Gentle, Drained;
    if batch == [] {
      LiveGentle(s, s);
    } else {
      var s1 := Drained(s, batch[0]);
      DrainKeeps(s, batch[0]);
      DrainAllKeeps(s1, batch[1..]);
      GentleTrans(s, s1, DrainAll(s, batch));
    }
  }

  lemma {:induction false} HoldAllKeeps(s: State, ps: seq<Pid>)
    requires Inv(s, {}, 0, 0)
    ensures var s' := HoldAll(s, ps); Inv(s', {}, 0, 0) && Gentle(s, s')
    decreases |ps|
  {
    hide Inv, Gentle, Hold;
    if ps == [] {
      LiveGentle(s, s);
    } else {
      HoldKeeps(s, ps[0]);
      HoldAllKeeps(Hold(s, ps[0]), ps[1..]);
      GentleTrans(s, Hold(s, ps[0]), HoldAll(s, ps));
    }
  }

  lemma TransmitKeeps(s: State, batch: seq<Pull>)
    requires Inv(s, {}, 0, 0)
    ensures Inv(Transmitted(s, batch), {}, 0, 0) && Gentle(s, Transmitted(s, batch))
  {
    hide Inv, Gentle, DrainAll, HoldAll, PacketsOf;
    var d := DrainAll(s, batch);
    DrainAllKeeps(s, batch);
    HoldAllKeeps(d, PacketsOf(s, batch));
    GentleTrans(s, d, Transmitted(s, batch));
  }

  function Times(ps: seq<Pid>, p: Pid): nat {
    if ps == [] then 0 else Times(ps[1..], p) + if ps[0] == p then 1 else 0
  }

  lemma {:induction false} DrainAllHolds(s: State, batch: seq<Pull>, p: Pid)
    requires p in s.procs
    ensures p in DrainAll(s, batch).procs && DrainAll(s, batch).procs[p].holds == s.procs[p].holds
    decreases |batch|
  {
    if batch != [] {
      DrainHolds(s, batch[0], p);
      hide Drained;
      DrainAllHolds(Drained(s, batch[0]), batch[1..], p);
    }
  }

  lemma DrainHolds(s: State, x: Pull, p: Pid)
    requires p in s.procs
    ensures p in Drained(s, x).procs && Drained(s, x).procs[p].holds == s.procs[p].holds
  {}

  lemma {:induction false} HoldAllHolds(s: State, ps: seq<Pid>, p: Pid)
    requires p in s.procs
    ensures p in HoldAll(s, ps).procs && HoldAll(s, ps).procs[p].holds == s.procs[p].holds + Times(ps, p)
    decreases |ps|
  {
    if ps != [] {
      HoldAllHolds(Hold(s, ps[0]), ps[1..], p);
    }
  }

  /** Every packet of a batch holds its process once. */
  lemma TransmitHolds(s: State, batch: seq<Pull>, p: Pid)
    requires p in s.procs
    ensures var s' := Transmitted(s, batch);
            p in s'.procs && s'.procs[p].holds == s.procs[p].holds + Times(PacketsOf(s, batch), p)
  {
    hide DrainAll, HoldAll, PacketsOf, Times;
    DrainAllHolds(s, batch, p);
    HoldAllHolds(DrainAll(s, batch), PacketsOf(s, batch), p);
  }

  /** The threads of p that the batch stops polling. */
  ghost function Emptied(s: State, batch: seq<Pull>, p: Pid): set<Tid> {
    set t | t in s.threads && s.threads[t].proc == p && IsPolled(s, t) && !s.threads[t].active && Empties(batch, t)
  }

  predicate Empties(batch: seq<Pull>, t: Tid) {
    exists i | 0 <= i < |batch| :: batch[i].t == t && batch[i].emptied
  }

  /** Every process with a packet in the batch has a reference besides those of the threads the
      batch stops polling. */
  ghost predicate Careful(s: State, batch: seq<Pull>) {
    forall p :: p in PacketsOf(s, batch) ==> p in s.procs && |Emptied(s, batch, p)| < s.procs[p].refs
  }

  lemma DrainRefs(s: State, x: Pull, batch: seq<Pull>, p: Pid)
    requires Inv(s, {}, 0, 0) && p in s.procs
    ensures var s', more := Drained(s, x), Emptied(s, [x] + batch, p);
            && p in s'.procs && s'.procs.Keys == s.procs.Keys
            && s'.procs[p].refs == s.procs[p].refs - (|more| - |Emptied(s', batch, p)|)
  {
    hide Inv, Empties, Unpoll, UnpollReady;
    EmptiesMore(x, batch);
    if IsPolled(s, x.t) && x.emptied && !s.threads[x.t].active {
      AnyWho(s, {}, 0, s.threads[x.t].proc);
      CanUnpoll(s, {}, 0, x.t);
      UnpollSteps(s, x.t);
      var s', more := Unpoll(s, x.t), Emptied(s, [x] + batch, p);
      if s.threads[x.t].proc == p {
        assert Emptied(s', batch, p) == more - {x.t};
      } else {
        assert Emptied(s', batch, p) == more;
      }
    } else {
      assert Emptied(s, batch, p) == Emptied(s, [x] + batch, p);
    }
  }

  lemma EmptiesMore(x: Pull, batch: seq<Pull>)
    ensures forall t :: Empties([x] + batch, t) <==> (x.t == t && x.emptied) || Empties(batch, t)
  {
    var more := [x] + batch;
    forall t ensures Empties(more, t) <==> (x.t == t && x.emptied) || Empties(batch, t) {
      if i :| 0 <= i < |batch| && batch[i].t == t && batch[i].emptied {
        assert more[i + 1] == batch[i];
      }
      if x.t == t && x.emptied {
        assert more[0] == x;
      }
      if i :| 0 <= i < |more| && more[i].t == t && more[i].emptied {
        assert i == 0 || more[i] == batch[i - 1];
      }
    }
  }

  lemma EmptiedNone(s: State, p: Pid)
    ensures Emptied(s, [], p) == {}
  {}

  lemma {:induction false} DrainAllRefs(s: State, batch: seq<Pull>, p: Pid)
    requires Inv(s, {}, 0, 0) && p in s.procs
    ensures p in DrainAll(s, batch).procs
    ensures DrainAll(s, batch).procs[p].refs == s.procs[p].refs - |Emptied(s, batch, p)|
    decreases |batch|
  {
    hide Inv, Drained, Emptied;
    if batch == [] {
      EmptiedNone(s, p);
    } else {
      assert batch == [batch[0]] + batch[1..];
      DrainRefs(s, batch[0], batch[1..], p);
      DrainKeeps(s, batch[0]);
      DrainAllRefs(Drained(s, batch[0]), batch[1..], p);
    }
  }

  lemma {:induction false} PacketsInProcs(s: State, batch: seq<Pull>, p: Pid)
    requires Inv(s, {}, 0, 0) && p in PacketsOf(s, batch)
    ensures p in s.procs
    decreases |batch|
  {
    hide Inv, Emptied;
    if p !in Packets(s, batch[0]) {
      DrainKeeps(s, batch[0]);
      PacketsInProcs(Drained(s, batch[0]), batch[1..], p);
    }
  }

  lemma {:induction false} HoldAllLate(s: State, ps: seq<Pid>)
    ensures HoldAll(s, ps).late <==> s.late || exists p :: p in ps && p in s.procs && s.procs[p].refs == 0
    decreases |ps|
  {
    if ps != [] {
      var s1 := Hold(s, ps[0]);
      HoldAllLate(s1, ps[1..]);
      assert ps == [ps[0]] + ps[1..];
    }
  }

  /** A batch takes hold of a released process exactly if it is not careful. */
  lemma TransmitLate(s: State, batch: seq<Pull>)
    requires Inv(s, {}, 0, 0)
    ensures Transmitted(s, batch).late <==> s.late || !Careful(s, batch)
  {
    hide Inv, DrainAll, HoldAll, PacketsOf, Emptied;
    var d, ps := DrainAll(s, batch), PacketsOf(s, batch);
    DrainAllKeeps(s, batch);
    HoldAllLate(d, ps);
    forall p | p in ps
      ensures p in s.procs && p in d.procs && (d.procs[p].refs == 0 <==> |Emptied(s, batch, p)| >= s.procs[p].refs)
    {
      PacketsInProcs(s, batch, p);
      DrainAllRefs(s, batch, p);
    }
  }

  // ----- Runs -------------------------------------------------------------------------------------------

  datatype Event =
    | Attach(p: Pid, tids: seq<Tid>)
    | Detach(p: Pid)
    | CoreWanted(p: Pid, core: nat, txEmpty: bool)
    | IdleWanted(core: nat, txEmpty: bool)
    | CorePolled(core: nat, runDone: bool, idle: bool, rewake: bool, txEmpty: bool)
    | Transmit(batch: seq<Pull>)
    | Complete(p: Pid)

  predicate CanAttach(s: State, p: Pid, tids: seq<Tid>) {
    p !in s.procs && NoDups(tids) && forall i | 0 <= i < |tids| :: tids[i] !in s.threads
  }

  /** The state after an event.  One that does not apply is skipped; the policy asks for cores
      only for attached processes. */
  function Next(m: Machine, s: State, e: Event): State {
    match e
    case Attach(p, tids) => if CanAttach(s, p, tids) then Attached(s, p, tids) else s
    case Detach(p) => Detached(s, p)
    case CoreWanted(p, core, txEmpty) =>
      if p in s.procs && s.procs[p].attached then RunOn(m, s, p, core, txEmpty) else s
    case IdleWanted(core, txEmpty) => IdleOn(m, s, core, txEmpty)
    case CorePolled(core, runDone, idle, rewake, txEmpty) => PollOne(s, core, runDone, idle, rewake, txEmpty)
    case Transmit(batch) => Transmitted(s, batch)
    case Complete(p) => Completed(s, p)
  }

  function Exec(m: Machine, s: State, events: seq<Event>): State
    decreases |events|
  {
    if events == [] then s else Exec(m, Next(m, s, events[0]), events[1..])
  }

  lemma NextKeeps(m: Machine, s: State, e: Event)
    requires Inv(s, {}, 0, 0)
    ensures var s' := Next(m, s, e);
            && Inv(s', {}, 0, 0) && Gentle(s, s')
            && (s'.late <==> s.late || (e.Transmit? && !Careful(s, e.batch)))
  {
    hide Inv, Gentle, Attached, RunOn, IdleOn, PollOne, Transmitted, Careful, Put, NoDups;
    LiveGentle(s, s);
    match e
    case Attach(p, tids) =>
      if CanAttach(s, p, tids) {
        AttachKeepsAll(s, p, tids);
        AttachLate(s, p, tids);
      }
    case Detach(p) =>
      if p in s.procs && s.procs[p].attached {
        ReturnKeeps(s, p, s.procs[p].(attached := false));
      }
    case CoreWanted(p, core, txEmpty) =>
      if p in s.procs && s.procs[p].attached {
        AttachedCounts(s, p);
        RunOnKeeps(m, s, p, core, txEmpty);
      }
    case IdleWanted(core, txEmpty) => IdleOnKeeps(m, s, core, txEmpty);
    case CorePolled(core, runDone, idle, rewake, txEmpty) => PollOneKeeps(s, core, runDone, idle, rewake, txEmpty);
    case Transmit(batch) =>
      TransmitKeeps(s, batch);
      TransmitLate(s, batch);
    case Complete(p) =>
      if p in s.procs && s.procs[p].holds > 0 {
        ReturnKeeps(s, p, s.procs[p].(holds := s.procs[p].holds - 1));
      }
  }

  lemma AttachLate(s: State, p: Pid, tids: seq<Tid>)
    ensures Attached(s, p, tids).late == s.late
  {}

  lemma AttachedCounts(s: State, p: Pid)
    requires Inv(s, {}, 0, 0) && p in s.procs && s.procs[p].attached
    ensures s.procs[p].refs > 0
  {
    assert RefOk(s, 0, p, 0);
  }

  /** No batch of the run takes the last reference from a process whose packets it carries. */
  ghost predicate CarefulRun(m: Machine, s: State, events: seq<Event>)
    decreases |events|
  {
    events == [] ||
    ((events[0].Transmit? ==> Careful(s, events[0].batch)) && CarefulRun(m, Next(m, s, events[0]), events[1..]))
  }

  /** Every run, with any answers of the kernel module, keeps the slots, lists and counts in
      order; and it takes hold of a released process exactly if one of its batches is careless. */
  lemma {:induction false} RunKeeps(m: Machine, s: State, events: seq<Event>)
    requires Inv(s, {}, 0, 0)
    ensures var s' := Exec(m, s, events);
            && Inv(s', {}, 0, 0) && Gentle(s, s') && (s'.late <==> s.late || !CarefulRun(m, s, events))
    decreases |events|
  {
    hide Inv, Gentle, Next, Careful;
    if events == [] {
      LiveGentle(s, s);
    } else {
      NextKeeps(m, s, events[0]);
      RunKeeps(m, Next(m, s, events[0]), events[1..]);
      GentleTrans(s, Next(m, s, events[0]), Exec(m, s, events));
    }
  }

  function Booted(numCores: nat): State {
    State(map[], map[], seq(numCores, _ => Core(None, None, false, false, false)), [], [], false)
  }

  lemma BootedInv(numCores: nat)
    ensures Inv(Booted(numCores), {}, 0, 0) && Logged(Booted(numCores))
  {}

  /** From boot on, as long as every batch is careful, a process is released at most once, and
      exactly when it is detached with no packet in transmission, no thread on a core and none
      polled. */
  lemma ReleasedOnce(m: Machine, numCores: nat, events: seq<Event>, p: Pid)
    requires CarefulRun(m, Booted(numCores), events)
    ensures var s := Exec(m, Booted(numCores), events);
            && NoDups(s.released)
            && (p in s.released <==>
                  && p in s.procs && !s.procs[p].attached && s.procs[p].holds == 0
                  && forall t :: t in s.threads && s.threads[t].proc == p ==>
                       !Seated(s, t) && s.threads[t].tsIdx.None?)
  {
    var s := Exec(m, Booted(numCores), events);
    BootedInv(numCores);
    RunKeeps(m, Booted(numCores), events);
    if p in s.procs {
      ReleasedMeansUnused(s, p);
    }
  }

  /** And no later event touches it: what the run does after any of its prefixes leaves the
      processes released by then as they were. */
  lemma ReleasedUntouched(m: Machine, numCores: nat, before: seq<Event>, after: seq<Event>, p: Pid)
    requires CarefulRun(m, Booted(numCores), before + after) && p in Exec(m, Booted(numCores), before).released
    ensures SameProc(Exec(m, Booted(numCores), before), Exec(m, Booted(numCores), before + after), p)
  {
    var s := Exec(m, Booted(numCores), before);
    BootedInv(numCores);
    ExecSplit(m, Booted(numCores), before, after);
    RunKeeps(m, Booted(numCores), before);
    RunKeeps(m, s, after);
  }

  lemma {:induction false} ExecSplit(m: Machine, s: State, xs: seq<Event>, ys: seq<Event>)
    ensures Exec(m, s, xs + ys) == Exec(m, Exec(m, s, xs), ys)
    ensures CarefulRun(m, s, xs + ys) <==> CarefulRun(m, s, xs) && CarefulRun(m, Exec(m, s, xs), ys)
    decreases |xs|
  {
    hide Next, Careful;
    if xs == [] {
      assert xs + ys == ys;
    } else {
      assert (xs + ys)[0] == xs[0] && (xs + ys)[1..] == xs[1..] + ys;
      ExecSplit(m, Next(m, s, xs[0]), xs[1..], ys);
    }
  }

  // ----- Who has been idle longest --------------------------------------------------------------------

  function IdleOf(s: State, p: Pid): seq<Tid> {
    if p in s.procs then s.procs[p].idles else []
  }

  /** x is in the list in front of y. */
  ghost predicate Ahead(xs: seq<Tid>, x: Tid, y: Tid) {
    exists i, j :: 0 <= i < j < |xs| && xs[i] == x && xs[j] == y
  }

  /** Whoever is in front of another in an idle list of s' was in front of it in s, or has become idle
      since. */
  ghost predicate Younger(s: State, s': State) {
    forall p, x, y :: Ahead(IdleOf(s', p), x, y) && x in IdleOf(s, p) ==> Ahead(IdleOf(s, p), x, y)
  }

  ghost predicate SameIdles(s: State, s': State) {
    forall p :: IdleOf(s', p) == IdleOf(s, p)
  }

  /** The same idle lists, but for u in front of some. */
  ghost predicate JoinedBy(s: State, s': State, u: Tid) {
    forall p :: IdleOf(s', p) == IdleOf(s, p) || IdleOf(s', p) == [u] + IdleOf(s, p)
  }

  lemma {:induction false} AheadWithout(xs: seq<Tid>, t: Tid, x: Tid, y: Tid)
    requires Ahead(Without(xs, t), x, y)
    ensures Ahead(xs, x, y)
  {
    var i, j :| 0 <= i < j < |Without(xs, t)| && Without(xs, t)[i] == x && Without(xs, t)[j] == y;
    if xs[0] == t {
      assert xs[i + 1] == x && xs[j + 1] == y;
    } else {
      var rest := Without(xs[1..], t);
      assert y == rest[j - 1] && rest[j - 1] in xs[1..];
      if i == 0 {
        var k :| 0 <= k < |xs[1..]| && xs[1..][k] == y;
        assert xs[0] == x && xs[k + 1] == y;
      } else {
        assert rest[i - 1] == x;
        AheadWithout(xs[1..], t, x, y);
        var a, b :| 0 <= a < b < |xs[1..]| && xs[1..][a] == x && xs[1..][b] == y;
        assert xs[a + 1] == x && xs[b + 1] == y;
      }
    }
  }

  /** A thread that was not idle joins at the front. */
  lemma FrontYounger(s: State, s1: State, s2: State, u: Tid)
    requires Younger(s, s1) && JoinedBy(s1, s2, u) && forall p :: u !in IdleOf(s, p)
    ensures Younger(s, s2)
  {
    hide IdleOf;
    forall p, x, y | Ahead(IdleOf(s2, p), x, y) && x in IdleOf(s, p) ensures Ahead(IdleOf(s, p), x, y) {
      if IdleOf(s2, p) != IdleOf(s1, p) {
        var xs := [u] + IdleOf(s1, p);
        var i, j :| 0 <= i < j < |xs| && xs[i] == x && xs[j] == y;
        assert IdleOf(s1, p)[i - 1] == x && IdleOf(s1, p)[j - 1] == y;
      }
    }
  }

  lemma SameYounger(s: State, s1: State, s2: State)
    requires Younger(s, s1) && SameIdles(s1, s2)
    ensures Younger(s, s2)
  {
    hide IdleOf, Ahead;
  }

  lemma YoungerSelf(s: State)
    ensures Younger(s, s) && SameIdles(s, s)
  {}

  lemma SeatedNotIdle(s: State, u: Tid)
    requires Inv(s, {}, 0, 0) && u in s.threads && s.threads[u].active
    ensures forall p :: u !in IdleOf(s, p)
  {
    forall p | u in IdleOf(s, p) ensures false {
      IdleThread(s, p, u);
    }
  }

  lemma SlotActive(s: State, core: nat)
    requires Inv(s, {}, 0, 0) && core < |s.cores|
    ensures var c := s.cores[core];
            && (c.cur.Some? ==> c.cur.value in s.threads && s.threads[c.cur.value].active)
            && (c.next.Some? ==> c.next.value in s.threads && s.threads[c.next.value].active)
  {
    assert CoreOk(s, core);
  }

  lemma SwitchIdles(s: State, core: nat, x: Core, out: Option<Tid>, txEmpty: bool)
    requires Displaces(s, core, x, out)
    ensures var s' := Switch(s, core, x, out, txEmpty);
            if out.Some? then JoinedBy(s, s', out.value) else SameIdles(s, s')
  {
    hide Inv, Drop, DropReady;
    if out.Some? {
      var v := SetCore(s, core, x);
      CanDrop(v, out.value, txEmpty);
      DropMeans(v, out.value, txEmpty);
    }
  }

  lemma StartYounger(s: State, t: Tid, core: nat)
    ensures Younger(s, Start(s, t, core)) && Start(s, t, core).cores == s.cores
  {
    if t in s.threads {
      var g := Get(s, s.threads[t].proc);
      var e := Enable(g, t, core);
      assert SameIdles(s, g);
      assert SameIdles(e, Poll(e, t));
      forall p ensures IdleOf(e, p) == IdleOf(g, p) || IdleOf(e, p) == Without(IdleOf(g, p), t) {}
      hide Get, Enable, Poll, IdleOf;
      forall p, x, y | Ahead(IdleOf(e, p), x, y) ensures Ahead(IdleOf(s, p), x, y) {
        if IdleOf(e, p) != IdleOf(g, p) {
          AheadWithout(IdleOf(g, p), t, x, y);
        }
      }
      hide Ahead;
      SameYounger(s, e, Poll(e, t));
    } else {
      YoungerSelf(s);
    }
  }

  lemma AssignYounger(s: State, b: State, core: nat, th: Option<Tid>, txEmpty: bool)
    requires Inv(s, {}, 0, 0) && core < |s.cores| && b.cores == s.cores && Younger(s, b) && Boarding(b, core, th)
    ensures Younger(s, Assign(b, core, th, txEmpty))
  {
    hide Inv, Boarding, Younger, Switch, IdleOf, Displaces;
    GiveCore(b, core, th);
    var out := Evicted(b.cores[core]);
    SwitchIdles(b, core, Given(b.cores[core], th), out, txEmpty);
    if out.Some? {
      SlotActive(s, core);
      SeatedNotIdle(s, out.value);
      FrontYounger(s, b, Assign(b, core, th, txEmpty), out.value);
    } else {
      SameYounger(s, b, Assign(b, core, th, txEmpty));
    }
  }

  lemma RunOnYounger(m: Machine, s: State, p: Pid, core: nat, txEmpty: bool)
    requires Inv(s, {}, 0, 0) && p in s.procs && s.procs[p].refs > 0
    ensures Younger(s, RunOn(m, s, p, core, txEmpty))
  {
    hide Inv, Younger, Assign, Start, Boarding, Pick, Gentle;
    if MayRun(m, s, p, core) {
      var t := Pick(m, s, p, core);
      PickIdle(m, s, p, core);
      IdleThread(s, p, t);
      StartKeeps(s, t, core);
      StartYounger(s, t, core);
      AssignYounger(s, Start(s, t, core), core, Some(t), txEmpty);
    } else {
      YoungerSelf(s);
    }
  }

  lemma PollOneYounger(s: State, core: nat, runDone: bool, idle: bool, rewake: bool, txEmpty: bool)
    requires Inv(s, {}, 0, 0)
    ensures Younger(s, PollOne(s, core, runDone, idle, rewake, txEmpty))
  {
    hide Inv, Younger, Finish, ToIdle, Gentle;
    YoungerSelf(s);
    if core < |s.cores| {
      var c := s.cores[core];
      var s1 := if c.wait && runDone then Finish(s, core, txEmpty) else s;
      if c.wait && runDone {
        FinishKeeps(s, core, txEmpty);
        FinishYounger(s, core, txEmpty);
      }
      if !s1.cores[core].wait && !s1.cores[core].idle && idle {
        SlotActive(s, core);
        ToIdleYounger(s, s1, core, rewake, txEmpty);
      }
    }
  }

  lemma FinishYounger(s: State, core: nat, txEmpty: bool)
    requires Inv(s, {}, 0, 0) && core < |s.cores| && s.cores[core].wait
    ensures Younger(s, Finish(s, core, txEmpty))
  {
    hide Inv, Younger, Switch, Displaces, IdleOf;
    YoungerSelf(s);
    var c := s.cores[core];
    var out := if c.pending then c.cur else None;
    if c.pending {
      Promote(s, core);
    } else {
      StopWaiting(s, core);
    }
    SwitchIdles(s, core, RunDone(c), out, txEmpty);
    if out.Some? {
      SlotActive(s, core);
      SeatedNotIdle(s, out.value);
      FrontYounger(s, s, Finish(s, core, txEmpty), out.value);
    } else {
      SameYounger(s, s, Finish(s, core, txEmpty));
    }
  }

  lemma ToIdleYounger(s: State, s1: State, core: nat, rewake: bool, txEmpty: bool)
    requires Inv(s, {}, 0, 0) && Inv(s1, {}, 0, 0) && Younger(s, s1) && core < |s1.cores| && !s1.cores[core].wait
    requires s1.cores[core].cur.Some? ==> var u := s1.cores[core].cur.value; u in s.threads && s.threads[u].active
    ensures Younger(s, ToIdle(s1, core, rewake, txEmpty))
  {
    hide Inv, Younger, Switch, Displaces, IdleOf;
    var c := s1.cores[core];
    var out := if rewake then None else c.cur;
    if c.cur.Some? && rewake {
      Rewake(s1, core);
    } else {
      Vacate(s1, core);
    }
    SwitchIdles(s1, core, Idled(c, rewake), out, txEmpty);
    if out.Some? {
      SeatedNotIdle(s, out.value);
      FrontYounger(s, s1, ToIdle(s1, core, rewake, txEmpty), out.value);
    } else {
      SameYounger(s, s1, ToIdle(s1, core, rewake, txEmpty));
    }
  }

  lemma {:induction false} DrainAllIdles(s: State, batch: seq<Pull>)
    ensures SameIdles(s, DrainAll(s, batch))
    decreases |batch|
  {
    if batch == [] {
      YoungerSelf(s);
    } else {
      DrainIdles(s, batch[0]);
      hide Drained, IdleOf;
      DrainAllIdles(Drained(s, batch[0]), batch[1..]);
    }
  }

  lemma DrainIdles(s: State, x: Pull)
    ensures SameIdles(s, Drained(s, x))
  {}

  lemma {:induction false} HoldAllIdles(s: State, ps: seq<Pid>)
    ensures SameIdles(s, HoldAll(s, ps))
    decreases |ps|
  {
    if ps != [] {
      assert SameIdles(s, Hold(s, ps[0]));
      hide Hold, IdleOf;
      HoldAllIdles(Hold(s, ps[0]), ps[1..]);
    }
  }

  lemma NextYounger(m: Machine, s: State, e: Event)
    requires Inv(s, {}, 0, 0)
    ensures Younger(s, Next(m, s, e))
  {
    hide Inv, RunOn, IdleOn, PollOne, Transmitted, Completed, Detached, Attached, Younger, NoDups;
    YoungerSelf(s);
    match e
    case Attach(p, tids) =>
      if CanAttach(s, p, tids) {
        AttachYounger(s, p, tids);
      }
    case Detach(p) =>
      PutIdles(s, p);
      SameYounger(s, s, Detached(s, p));
    case CoreWanted(p, core, txEmpty) =>
      if p in s.procs && s.procs[p].attached {
        AttachedCounts(s, p);
        RunOnYounger(m, s, p, core, txEmpty);
      }
    case IdleWanted(core, txEmpty) => IdleOnYounger(m, s, core, txEmpty);
    case CorePolled(core, runDone, idle, rewake, txEmpty) => PollOneYounger(s, core, runDone, idle, rewake, txEmpty);
    case Transmit(batch) => TransmitYounger(s, batch);
    case Complete(p) =>
      PutIdles(s, p);
      SameYounger(s, s, Completed(s, p));
  }

  lemma AttachYounger(s: State, p: Pid, tids: seq<Tid>)
    requires p !in s.procs
    ensures Younger(s, Attached(s, p, tids))
  {}

  lemma PutIdles(s: State, p: Pid)
    ensures SameIdles(s, Detached(s, p)) && SameIdles(s, Completed(s, p))
  {}

  lemma IdleOnYounger(m: Machine, s: State, core: nat, txEmpty: bool)
    requires Inv(s, {}, 0, 0)
    ensures Younger(s, IdleOn(m, s, core, txEmpty))
  {
    hide Inv, Younger, Assign, Boarding;
    YoungerSelf(s);
    if core < |s.cores| && core in m.allowed {
      BoardNobody(s, core);
      AssignYounger(s, s, core, None, txEmpty);
    }
  }

  lemma TransmitYounger(s: State, batch: seq<Pull>)
    ensures Younger(s, Transmitted(s, batch))
  {
    hide DrainAll, HoldAll, PacketsOf, IdleOf, Ahead;
    DrainAllIdles(s, batch);
    HoldAllIdles(DrainAll(s, batch), PacketsOf(s, batch));
    YoungerSelf(s);
    SameYounger(s, s, Transmitted(s, batch));
  }

  /** t is an idle thread of p after each of the prefixes from the i-th on. */
  ghost predicate IdleSince(m: Machine, s: State, events: seq<Event>, p: Pid, t: Tid, i: nat) {
    forall j :: i <= j <= |events| ==> t in IdleOf(Exec(m, s, events[..j]), p)
  }

  /** In every run, a thread further back in the idle list has been idle for at least as long. */
  lemma {:induction false} BackIsOlder(m: Machine, s: State, events: seq<Event>, p: Pid, x: Tid, y: Tid, i: nat)
    requires Inv(s, {}, 0, 0) && i <= |events|
    requires IdleSince(m, s, events, p, x, i) && Ahead(IdleOf(Exec(m, s, events), p), x, y)
    ensures IdleSince(m, s, events, p, y, i)
    decreases |events|
  {
    hide Inv, Next, IdleOf;
    assert events[..|events|] == events;
    var n := |events|;
    if i < n {
      var front := events[..n - 1];
      ExecSplit(m, s, front, [events[n - 1]]);
      assert front + [events[n - 1]] == events && [events[n - 1]][1..] == [];
      var before := Exec(m, s, front);
      assert Exec(m, before, [events[n - 1]]) == Next(m, before, events[n - 1]);
      RunKeeps(m, s, front);
      NextYounger(m, before, events[n - 1]);
      assert x in IdleOf(before, p);
      forall j | i <= j <= n - 1 ensures x in IdleOf(Exec(m, s, front[..j]), p) {
        assert front[..j] == events[..j];
      }
      BackIsOlder(m, s, front, p, x, y, i);
      AheadIn(IdleOf(Exec(m, s, events), p), x, y);
      forall j | i <= j <= n ensures y in IdleOf(Exec(m, s, events[..j]), p) {
        if j < n {
          assert front[..j] == events[..j];
        }
      }
    } else {
      AheadIn(IdleOf(Exec(m, s, events), p), x, y);
    }
  }

  lemma AheadIn(xs: seq<Tid>, x: Tid, y: Tid)
    requires Ahead(xs, x, y)
    ensures y in xs
  {}

  /** So the thread picked when no idle one was on this core or its sibling has been idle for at least
      as long as any other. */
  lemma PickIsOldest(m: Machine, s: State, events: seq<Event>, p: Pid, core: nat, u: Tid, i: nat)
    requires Inv(s, {}, 0, 0) && i <= |events|
    requires var now := Exec(m, s, events);
             && p in now.procs && now.procs[p].idles != [] && IdleSince(m, s, events, p, u, i)
             && forall t :: t in now.procs[p].idles && t in now.threads ==>
                  now.threads[t].core != core && now.threads[t].core != Sibling(m, core)
    ensures IdleSince(m, s, events, p, Pick(m, Exec(m, s, events), p, core), i)
  {
    hide Inv, Exec;
    var now := Exec(m, s, events);
    var idles := now.procs[p].idles;
    assert events[..|events|] == events;
    FirstOnIs(now, idles, core);
    FirstOnIs(now, idles, Sibling(m, core));
    var last := idles[|idles| - 1];
    assert u in idles;
    if u != last {
      var a :| 0 <= a < |idles| && idles[a] == u;
      assert Ahead(idles, u, last);
      BackIsOlder(m, s, events, p, u, last, i);
    }
  }

  // ----- The careless batch ----------------------------------------------------------------------------

  /** The carelessness is real: a batch drains the last reference of a detached process before its
      packet takes one, and the completion of the packet releases the process a second time. */
  lemma ReleasedTwice(m: Machine, s: State, p: Pid, t: Tid)
    requires Inv(s, {}, 0, 0) && p in s.procs && s.procs[p].refs == 1 && s.procs[p].holds == 0
    requires t in s.threads && s.threads[t].proc == p && IsPolled(s, t) && !s.threads[t].active
    ensures var s' := Exec(m, s, [Transmit([Pull(t, 1, true)]), Complete(p)]);
            s'.late && s'.released == s.released + [p, p]
  {
    hide Inv, Unpoll;
    var x := Pull(t, 1, true);
    AnyWho(s, {}, 0, p);
    CanUnpoll(s, {}, 0, t);
    LastPut(s, t);
    var d := Unpoll(s, t);
    assert [x][1..] == [] && DrainAll(s, [x]) == d;
    assert PacketsOf(s, [x]) == [p];
    assert [p][1..] == [];
    var h := Transmitted(s, [x]);
    assert HoldAll(d, [p]) == HoldAll(Hold(d, p), []) == Hold(d, p);
    var events := [Transmit([x]), Complete(p)];
    assert events[1..] == [Complete(p)] && events[1..][1..] == [];
    assert Exec(m, h, [Complete(p)]) == Exec(m, Completed(h, p), []) == Completed(h, p);
  }

  lemma LastPut(s: State, t: Tid)
    requires UnpollReady(s, t) && s.procs[s.threads[t].proc].refs == 1
    ensures var s', p := Unpoll(s, t), s.threads[t].proc;
            && p in s'.procs && s'.procs[p] == s.procs[p].(refs := 0)
            && s'.released == s.released + [p] && s'.late == s.late
  {}

  /** Such a state is reached: a process is detached while its thread runs, and the thread goes
      idle with a packet in its queue. */
  lemma ReleasedTwiceFromBoot(m: Machine)
    requires 0 in m.allowed
    ensures var events := [Attach(1, [7]), CoreWanted(1, 0, true), CorePolled(0, true, false, false, true), Detach(1),
                           CorePolled(0, false, true, false, false), Transmit([Pull(7, 1, true)]), Complete(1)];
            var s := Exec(m, Booted(1), events);
            s.late && s.released == [1, 1]
  {
    var before := [Attach(1, [7]), CoreWanted(1, 0, true), CorePolled(0, true, false, false, true), Detach(1),
                   CorePolled(0, false, true, false, false)];
    var after := [Transmit([Pull(7, 1, true)]), Complete(1)];
    BootedInv(1);
    RunKeeps(m, Booted(1), before);
    hide Inv;
    OneThreadRun(m, before);
    ReleasedTwice(m, Exec(m, Booted(1), before), 1, 7);
    ExecSplit(m, Booted(1), before, after);
    assert before + after == [Attach(1, [7]), CoreWanted(1, 0, true), CorePolled(0, true, false, false, true), Detach(1),
                   CorePolled(0, false, true, false, false), Transmit([Pull(7, 1, true)]), Complete(1)];
    assert [] + [1, 1] == [1, 1];
  }

  /** One thread on one core. */
  function OneThread(th: Thread, x: Proc, c: Core, ts: seq<Tid>): State {
    State(map[7 := th], map[1 := x], [c], ts, [], false)
  }

  lemma OneThreadRun(m: Machine, before: seq<Event>)
    requires 0 in m.allowed
    requires before == [Attach(1, [7]), CoreWanted(1, 0, true), CorePolled(0, true, false, false, true), Detach(1),
                        CorePolled(0, false, true, false, false)]
    ensures Exec(m, Booted(1), before) ==
            OneThread(Thread(1, false, 0, 0, Some(0)), Proc([], [7], 1, false, 0), Core(None, None, false, false, true), [7])
  {
    hide Next;
    var s0 := Booted(1);
    var off, on := Core(None, None, false, false, false), Core(Some(7), None, false, true, false);
    var th := Thread(1, true, 0, 0, Some(0));
    var s1 := OneThread(Thread(1, false, 1, 0, None), Proc([], [7], 1, true, 0), off, []);
    var s2 := OneThread(th, Proc([7], [], 3, true, 0), on, [7]);
    var s3 := OneThread(th, Proc([7], [], 3, true, 0), on.(wait := false), [7]);
    var s4 := OneThread(th, Proc([7], [], 2, false, 0), on.(wait := false), [7]);
    var s5 := OneThread(th.(active := false), Proc([], [7], 1, false, 0), off.(idle := true), [7]);
    OneAttached(m);
    OneRuns(m);
    OneDone(m);
    OneDetached(m);
    OneIdles(m);
    assert before[1..][1..][1..][1..][1..] == [];
    assert before[1..][1..][1..][1..] == [before[4]] && before[1..][1..][1..] == [before[3], before[4]];
    assert before[1..][1..] == [before[2], before[3], before[4]];
    assert before[1..] == [before[1], before[2], before[3], before[4]];
    assert Exec(m, s4, [before[4]]) == s5;
    assert Exec(m, s3, before[1..][1..][1..]) == s5;
    assert Exec(m, s2, before[1..][1..]) == s5;
    assert Exec(m, s1, before[1..]) == s5;
  }

  lemma OneAttached(m: Machine)
    ensures Next(m, Booted(1), Attach(1, [7])) ==
            OneThread(Thread(1, false, 1, 0, None), Proc([], [7], 1, true, 0), Core(None, None, false, false, false), [])
  {
    var s := Attached(Booted(1), 1, [7]);
    assert (set x | x in [7]) == {7};
    assert s.threads == map[7 := Thread(1, false, 1, 0, None)];
    assert s.procs == map[1 := Proc([], [7], 1, true, 0)];
  }

  lemma OneRuns(m: Machine)
    requires 0 in m.allowed
    ensures var off, on := Core(None, None, false, false, false), Core(Some(7), None, false, true, false);
            var s := OneThread(Thread(1, false, 1, 0, None), Proc([], [7], 1, true, 0), off, []);
            Next(m, s, CoreWanted(1, 0, true)) ==
            OneThread(Thread(1, true, 0, 0, Some(0)), Proc([7], [], 3, true, 0), on, [7])
  {
    var off := Core(None, None, false, false, false);
    var s := OneThread(Thread(1, false, 1, 0, None), Proc([], [7], 1, true, 0), off, []);
    PickIdle(m, s, 1, 0);
    OneStarts();
    hide Pick, Start;
  }

  lemma OneStarts()
    ensures var off := Core(None, None, false, false, false);
            Start(OneThread(Thread(1, false, 1, 0, None), Proc([], [7], 1, true, 0), off, []), 7, 0) ==
            OneThread(Thread(1, true, 0, 0, Some(0)), Proc([7], [], 3, true, 0), off, [7])
  {
    var off := Core(None, None, false, false, false);
    var s := OneThread(Thread(1, false, 1, 0, None), Proc([], [7], 1, true, 0), off, []);
    var g := Get(s, 1);
    assert g == s.(procs := map[1 := Proc([], [7], 2, true, 0)]);
    var e := Enable(g, 7, 0);
    assert Without([7], 7) == [] && [] + [7] == [7];
    assert e == OneThread(Thread(1, true, 0, 0, None), Proc([7], [], 2, true, 0), off, []);
    assert Poll(e, 7) == OneThread(Thread(1, true, 0, 0, Some(0)), Proc([7], [], 3, true, 0), off, [7]);
    hide Get, Enable, Poll;
  }

  lemma OneDone(m: Machine)
    ensures var on := Core(Some(7), None, false, true, false);
            var s := OneThread(Thread(1, true, 0, 0, Some(0)), Proc([7], [], 3, true, 0), on, [7]);
            Next(m, s, CorePolled(0, true, false, false, true)) == s.(cores := [Core(Some(7), None, false, false, false)])
  {}

  lemma OneDetached(m: Machine)
    ensures var on := Core(Some(7), None, false, false, false);
            var s := OneThread(Thread(1, true, 0, 0, Some(0)), Proc([7], [], 3, true, 0), on, [7]);
            Next(m, s, Detach(1)) == s.(procs := map[1 := Proc([7], [], 2, false, 0)])
  {}

  lemma OneIdles(m: Machine)
    ensures var on := Core(Some(7), None, false, false, false);
            var s := OneThread(Thread(1, true, 0, 0, Some(0)), Proc([7], [], 2, false, 0), on, [7]);
            Next(m, s, CorePolled(0, false, true, false, false)) ==
            OneThread(Thread(1, false, 0, 0, Some(0)), Proc([], [7], 1, false, 0), Core(None, None, false, false, true), [7])
  {
    var on, off := Core(Some(7), None, false, false, false), Core(None, None, false, false, true);
    var s := OneThread(Thread(1, true, 0, 0, Some(0)), Proc([7], [], 2, false, 0), on, [7]);
    var v := SetCore(s, 0, off);
    assert v.cores == [off];
    assert ActiveAt(v, 1, 0) && DisableReady(v, 7);
    assert [7][0 := 7][..0] == [] && [7] + [] == [7];
    assert Disable(v, 7) == OneThread(Thread(1, false, 0, 0, Some(0)), Proc([], [7], 2, false, 0), off, [7]);
  }
}
