/**
 The simple policy's code, in place.  Every method is proved to do what the function of the
 state says that the guarantee is proved about.
 */
module IokPolicy {
  import opened Basics
  import opened IokMachine
  import opened IokSimple

  class SimplePolicy {
    const machine: Machine
    var owner: seq<Option<Pid>>
    var idle: set<nat>
    var procs: map<Pid, Usage>
    var hist: seq<seq<Option<Pid>>>
    var congested: seq<Pid>

    ghost function View(): Policy
      reads this
    {
      Policy(owner, idle, procs, hist, congested)
    }

    ghost predicate Valid()
      reads this
    {
      Inv(machine, View())
    }

    constructor (machine: Machine)
      requires Bootable(machine)
      ensures Valid() && View() == Booted(machine) && this.machine == machine
    {
      this.machine, idle, procs, congested := machine, machine.allowed, map[], [];
      owner := seq(|machine.siblings|, _ => None);
      hist := seq(|machine.siblings|, _ => seq(NHIST, _ => None));
      new;
      BootedInv(machine);
    }

    method Attach(p: Pid, guaranteed: nat, max: nat)
      requires Valid() && p !in procs
      modifies `procs
      ensures Valid() && View() == Attached(old(View()), p, guaranteed, max)
    {
      AttachInv(machine, View(), p, guaranteed, max);
      procs := procs[p := Usage(guaranteed, max, 0)];
    }

    /** simple_cleanup_core. */
    method CleanupCore(core: nat)
      requires Valid() && core < |owner|
      modifies this
      ensures Valid() && View() == Cleaned(old(View()), core)
      ensures owner == old(owner)[core := None] && idle == old(idle) && congested == old(congested)
      ensures var p := old(owner[core]);
              if p.None? then hist == old(hist)
              else && hist == old(hist)[core := hist[core]] && hist[core][0] == p
                   && forall j :: 0 < j < NHIST ==> hist[core][j] == old(hist[core])[j - 1]
    {
      hide Owned;
      CleanInv(machine, View(), core);
      if owner[core].None? {
        return;
      }
      var p := owner[core];
      procs := procs[p.value := Fewer(procs[p.value])];
      owner := owner[core := None];
      var h := Shifted(hist[core]);
      h := h[0 := p];
      assert h == Remember(hist[core], p);
      hist := hist[core := h];
    }

    /** Every entry of a history moves down by one. */
    method Shifted(was: seq<Option<Pid>>) returns (h: seq<Option<Pid>>)
      requires |was| == NHIST
      ensures |h| == NHIST && h[0] == was[0] && forall j :: 0 < j < NHIST ==> h[j] == was[j - 1]
    {
      h := was;
      var i := NHIST - 1;
      while i > 0
        invariant 0 <= i < NHIST == |h|
        invariant forall j :: 0 <= j <= i ==> h[j] == was[j]
        invariant forall j :: i < j < NHIST ==> h[j] == was[j - 1]
      {
        h := h[i := h[i - 1]];
        i := i - 1;
      }
    }

    /** simple_run_kthread_on_core.  ran is the answer of sched_run_on_core, which is not asked
        when the process has no thread available. */
    method RunKthreadOnCore(p: Pid, core: nat, available: bool, ran: bool) returns (ok: bool)
      requires Valid() && p in procs && core < |owner| && core in machine.allowed
      modifies this
      ensures Valid() && ok == (available && ran)
      ensures View() == if ok then Given(old(View()), p, core) else old(View())
    {
      hide Owned;
      if !available || !ran {
        return false;
      }
      GivenInv(machine, View(), p, core);
      hide Inv, Cleaned;
      CleanFrame(machine, View(), core);
      CleanupCore(core);
      owner := owner[core := Some(p)];
      idle := idle - {core};
      procs := procs[p := procs[p].(active := procs[p].active + 1)];
      return true;
    }

    /** simple_choose_core. */
    method ChooseCore(p: Pid, recent: seq<nat>) returns (r: Option<nat>)
      requires Valid() && p in procs
      ensures r == Choose(machine, View(), p, recent)
    {
      hide Available, Owned, Near, IdleCores, BesideOwn, OwnedCores, FirstAvailable;
      var n := |owner|;
      ghost var s := View();
      ghost var near, idles, beside := Near(machine, recent), IdleCores(s, n), BesideOwn(machine, s, p, n);
      FirstOfBoth(s, p, near + idles + beside, OwnedCores(machine, s, n));
      FirstOfBoth(s, p, near + idles, beside);
      FirstOfBoth(s, p, near, idles);
      r := RecentCore(p, recent);
      if r.None? {
        r := FirstIdle(p);
      }
      if r.None? {
        r := OwnSibling(p);
      }
      if r.None? {
        r := PreemptibleCore(p);
      }
    }

    /** A core that p used before, or its hyperthread. */
    method RecentCore(p: Pid, recent: seq<nat>) returns (r: Option<nat>)
      requires Valid() && p in procs
      ensures r == FirstAvailable(View(), p, Near(machine, recent))
    {
      hide Available, Owned, Inv;
      ghost var s := View();
      SameSize(machine, s);
      for i := 0 to |recent|
        invariant FirstAvailable(s, p, Near(machine, recent)) == FirstAvailable(s, p, Near(machine, recent[i..]))
      {
        assert recent[i..][0] == recent[i] && recent[i..][1..] == recent[i + 1..];
        var core := recent[i];
        if core >= |owner| {
          return None;
        }
        SiblingIn(machine, s, core);
        var sib := machine.siblings[core];
        ghost var rest := Near(machine, recent[i + 1..]);
        FirstOfBoth(s, p, [core], Allowed(machine, sib) + rest);
        FirstOfBoth(s, p, Allowed(machine, sib), rest);
        assert [core] + (Allowed(machine, sib) + rest) == [core] + Allowed(machine, sib) + rest;
        assert [core][1..] == [] && [sib][1..] == [];
        var ok := CanTake(p, core);
        if ok {
          return Some(core);
        }
        ok := CanTake(p, sib);
        if ok && sib in machine.allowed {
          return Some(sib);
        }
      }
      return None;
    }

    method CanTake(p: Pid, c: nat) returns (ok: bool)
      requires Valid() && p in procs && c < |owner|
      ensures ok == Available(View(), p, c)
    {
      hide Owned;
      ok := owner[c] != Some(p) && (owner[c].None? || Preemptible(procs[owner[c].value], procs[p]));
    }

    method FirstIdle(p: Pid) returns (r: Option<nat>)
      requires Valid() && p in procs
      ensures r == FirstAvailable(View(), p, IdleCores(View(), |owner|))
    {
      hide Owned;
      ghost var s := View();
      for c := 0 to |owner|
        invariant IdleCores(s, c) == []
      {
        if c in idle {
          IdleFirst(s, p, c, |owner|);
          return Some(c);
        }
      }
      return None;
    }

    /** The free or preemptible hyperthread of a core p runs on. */
    method OwnSibling(p: Pid) returns (r: Option<nat>)
      requires Valid() && p in procs
      ensures r == FirstAvailable(View(), p, BesideOwn(machine, View(), p, |owner|))
    {
      hide Owned, Available, Inv, FirstAvailable, BesideOwn;
      ghost var s, n := View(), |owner|;
      SameSize(machine, s);
      BesideNone(machine, s, p);
      for c := 0 to |owner|
        invariant FirstAvailable(s, p, BesideOwn(machine, s, p, c)) == None
      {
        BesideStep(machine, s, p, c);
        if c in machine.allowed && owner[c] == Some(p) {
          SiblingIn(machine, s, c);
          var sib := machine.siblings[c];
          var ok := CanTake(p, sib);
          if ok && sib in machine.allowed {
            BesideMore(machine, s, p, c + 1, n);
            return Some(sib);
          }
        }
      }
      return None;
    }

    method PreemptibleCore(p: Pid) returns (r: Option<nat>)
      requires Valid() && p in procs
      ensures r == FirstAvailable(View(), p, OwnedCores(machine, View(), |owner|))
    {
      hide Owned, Available;
      ghost var s, n := View(), |owner|;
      for c := 0 to |owner|
        invariant FirstAvailable(s, p, OwnedCores(machine, s, c)) == None
      {
        if c in machine.allowed && owner[c].Some? {
          FirstOfBoth(s, p, OwnedCores(machine, s, c), [c]);
          assert [c][1..] == [];
          var ok := CanTake(p, c);
          if ok {
            OwnedMore(machine, s, p, c + 1, n);
            return Some(c);
          }
        } else {
          assert OwnedCores(machine, s, c) + [] == OwnedCores(machine, s, c);
        }
      }
      return None;
    }

    /** simple_add_kthread. */
    method AddKthread(p: Pid, recent: seq<nat>, available: bool, ran: bool) returns (ok: bool)
      requires Valid() && p in procs && RecentOk(machine, recent)
      modifies this
      ensures Valid() && View() == Added(machine, old(View()), p, recent, available, ran)
      ensures ok == Taken(machine, old(View()), p, recent, available, ran).Some?
    {
      hide Owned, Given, Choose;
      AddedIsFair(machine, View(), p, recent, available, ran);
      ChoiceIsFair(machine, View(), p, recent);
      if procs[p].active >= procs[p].max {
        return false;
      }
      var core := ChooseCore(p, recent);
      if core.None? {
        return false;
      }
      ok := RunKthreadOnCore(p, core.value, available, ran);
    }

    method MarkCongested(p: Pid)
      requires Valid() && p in procs
      modifies `congested
      ensures Valid() && View() == MarkedCongested(old(View()), p)
      ensures forall q :: q in congested <==> q in old(congested) || q == p
    {
      CongestionInv(machine, View(), MarkedCongested(View(), p));
      if p !in congested {
        congested := [p] + congested;
      }
    }

    method UnmarkCongested(p: Pid)
      requires Valid()
      modifies `congested
      ensures Valid() && View() == UnmarkedCongested(old(View()), p)
      ensures forall q :: q in congested <==> q in old(congested) && q != p
    {
      CongestionInv(machine, View(), UnmarkedCongested(View(), p));
      congested := Filter(congested, p);
    }

    /** simple_choose_kthread. */
    method ChooseKthread(core: nat, available: set<Pid>) returns (r: Option<Pid>)
      requires Valid() && core < |owner|
      ensures r == FirstWanting(View(), Wanting(machine, View(), core), available)
    {
      hide Owned;
      ghost var s := View();
      var sib := machine.siblings[core];
      ghost var mine, turns := [owner[sib]], InTurn(hist[core], hist[sib]);
      ghost var rest := Somes(congested);
      FirstWantingOfBoth(s, mine + turns, rest, available);
      FirstWantingOfBoth(s, mine, turns, available);
      assert mine[1..] == [];
      var sd := owner[sib];
      if sd.Some? && sd.value in congested && sd.value in available {
        return sd;
      }
      for i := 0 to NHIST
        invariant FirstWanting(s, turns, available) == FirstWanting(s, InTurn(hist[core][i..], hist[sib][i..]), available)
      {
        ghost var a, b := hist[core][i..], hist[sib][i..];
        assert a[1..] == hist[core][i + 1..] && b[1..] == hist[sib][i + 1..];
        ghost var two, one := [a[0], b[0]], [b[0]];
        FirstWantingOfBoth(s, two, InTurn(a[1..], b[1..]), available);
        assert two[1..] == one && one[1..] == [];
        sd := hist[core][i];
        if sd.Some? && sd.value in congested && sd.value in available {
          return sd;
        }
        sd := hist[sib][i];
        if sd.Some? && sd.value in congested && sd.value in available {
          return sd;
        }
      }
      for i := 0 to |congested|
        invariant FirstWanting(s, rest, available) == FirstWanting(s, rest[i..], available)
      {
        assert rest[i..][0] == Some(congested[i]) && rest[i..][1..] == rest[i + 1..];
        if congested[i] in available {
          return Some(congested[i]);
        }
      }
      return None;
    }

    /** One core in simple_sched_poll. */
    method CoreWentIdle(core: nat, free: set<Pid>, ran: bool)
      requires Valid() && core < |owner| && core in machine.allowed
      modifies this
      ensures Valid() && View() == WentIdle(machine, old(View()), core, free, ran)
    {
      WentIdleInv(machine, View(), core, free, ran);
      hide Owned, Given, Cleaned, Wanting, FirstWanting;
      CleanFrame(machine, View(), core);
      if owner[core].Some? {
        UnmarkCongested(owner[core].value);
      }
      CleanFrame(machine, View(), core);
      CleanupCore(core);
      WantingIsFound(machine, View(), core, free);
      var sd := ChooseKthread(core, free);
      if sd.None? {
        idle := idle + {core};
        return;
      }
      var ok := RunKthreadOnCore(sd.value, core, true, ran);
      if !ok {
        idle := idle + {core};
        MarkCongested(sd.value);
      }
    }

    /** simple_detach. */
    method Detach(p: Pid)
      requires Valid() && p in procs
      modifies this
      ensures Valid() && View() == Detached(old(View()), p)
    {
      DetachInv(machine, View(), p);
      hide Owned;
      UnmarkCongested(p);
      var oldHist := hist;
      owner := Forget(owner, p);
      hist := seq(|oldHist|, c requires 0 <= c < |oldHist| => Forget(oldHist[c], p));
      procs := procs - {p};
    }

    method Handle(e: Event)
      requires Valid()
      modifies this
      ensures Valid() && View() == Next(machine, old(View()), e)
    {
      hide Owned, Attached, Detached, Added, WentIdle;
      match e
      case Attach(p, guaranteed, max) =>
        if p !in procs {
          Attach(p, guaranteed, max);
        }
      case Detach(p) =>
        if p in procs {
          Detach(p);
        }
      case CoreNeeded(p, recent, available, ran) =>
        if p in procs && RecentOk(machine, recent) {
          var ok := AddKthread(p, recent, available, ran);
        }
      case CoreIdle(core, free, ran) =>
        if core < |owner| && core in machine.allowed {
          CoreWentIdle(core, free, ran);
        }
      case Congested(p) =>
        if p in procs {
          MarkCongested(p);
        }
      case Relieved(p) => UnmarkCongested(p);
    }

    /** Any sequence of events: the code goes through the states of the run. */
    method Run(events: seq<Event>)
      requires Valid()
      modifies this
      ensures Valid() && View() == Exec(machine, old(View()), events)
    {
      hide Inv, Next;
      for i := 0 to |events|
        invariant Valid() && Exec(machine, View(), events[i..]) == Exec(machine, old(View()), events)
      {
        assert events[i..][0] == events[i] && events[i..][1..] == events[i + 1..];
        Handle(events[i]);
      }
    }
  }

  lemma SameSize(m: Machine, s: Policy)
    requires Inv(m, s)
    ensures |m.siblings| == |s.owner| == |s.hist|
  {}

  lemma {:induction false} IdleFirst(s: Policy, p: Pid, c: nat, n: nat)
    requires c in s.idle && c < n && IdleCores(s, c) == [] && Available(s, p, c)
    ensures FirstAvailable(s, p, IdleCores(s, n)) == Some(c)
  {
    if c < n - 1 {
      IdleFirst(s, p, c, n - 1);
      FirstOfBoth(s, p, IdleCores(s, n - 1), if n - 1 in s.idle then [n - 1] else []);
    } else {
      assert IdleCores(s, n) == [] + [c] == [c];
    }
  }

  lemma BesideNone(m: Machine, s: Policy, p: Pid)
    requires |m.siblings| == |s.owner|
    ensures FirstAvailable(s, p, BesideOwn(m, s, p, 0)) == None
  {}

  /** One more core looked at. */
  lemma BesideStep(m: Machine, s: Policy, p: Pid, c: nat)
    requires c < |s.owner| == |m.siblings| && FirstAvailable(s, p, BesideOwn(m, s, p, c)) == None
    ensures FirstAvailable(s, p, BesideOwn(m, s, p, c + 1)) ==
            if c in m.allowed && s.owner[c] == Some(p) && m.siblings[c] in m.allowed && Available(s, p, m.siblings[c])
            then Some(m.siblings[c]) else None
  {
    hide Available;
    var sib := m.siblings[c];
    var last := if c in m.allowed && s.owner[c] == Some(p) then Allowed(m, sib) else [];
    FirstOfBoth(s, p, BesideOwn(m, s, p, c), last);
    assert [sib][1..] == [];
  }

  lemma {:induction false} BesideMore(m: Machine, s: Policy, p: Pid, c: nat, n: nat)
    requires c <= n <= |s.owner| && n <= |m.siblings| && FirstAvailable(s, p, BesideOwn(m, s, p, c)).Some?
    ensures FirstAvailable(s, p, BesideOwn(m, s, p, n)) == FirstAvailable(s, p, BesideOwn(m, s, p, c))
  {
    if c < n {
      BesideMore(m, s, p, c, n - 1);
      FirstOfBoth(s, p, BesideOwn(m, s, p, n - 1),
        if n - 1 in m.allowed && s.owner[n - 1] == Some(p) then Allowed(m, m.siblings[n - 1]) else []);
    }
  }

  lemma {:induction false} OwnedMore(m: Machine, s: Policy, p: Pid, c: nat, n: nat)
    requires c <= n <= |s.owner| && FirstAvailable(s, p, OwnedCores(m, s, c)).Some?
    ensures FirstAvailable(s, p, OwnedCores(m, s, n)) == FirstAvailable(s, p, OwnedCores(m, s, c))
  {
    if c < n {
      OwnedMore(m, s, p, c, n - 1);
      FirstOfBoth(s, p, OwnedCores(m, s, n - 1), if n - 1 in m.allowed && s.owner[n - 1].Some? then [n - 1] else []);
    }
  }
}
