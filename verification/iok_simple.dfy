/**
 The IOKernel's simple policy (simple.c) on the state it keeps: which process owns which core,
 how a process below its guarantee gets one, and when it does not.
 */
module IokSimple {
  import opened Basics
  import opened IokMachine

  /** A process as the policy sees it. */
  datatype Usage = Usage(guaranteed: nat, max: nat, active: nat)

  const NHIST: nat := 4

  /** owner is cores[], idle is simple_idle_cores, hist has the last processes of each core,
      latest first, and congested is congested_procs. */
  datatype Policy = Policy(
    owner: seq<Option<Pid>>,
    idle: set<nat>,
    procs: map<Pid, Usage>,
    hist: seq<seq<Option<Pid>>>,
    congested: seq<Pid>)

  /** How many of the first n cores p owns. */
  function Owned(owner: seq<Option<Pid>>, p: Pid, n: nat): nat
    requires n <= |owner|
  {
    if n == 0 then 0 else Owned(owner, p, n - 1) + if owner[n - 1] == Some(p) then 1 else 0
  }

  /** A process is counted active once for every core it owns; owners are attached and own only
      allowed cores; a core marked idle is an allowed one without owner. */
  ghost predicate Inv(m: Machine, s: Policy) {
    && |m.siblings| == |s.owner| && (forall c :: 0 <= c < |m.siblings| ==> m.siblings[c] < |s.owner|)
    && (forall p :: p in s.procs ==> s.procs[p].active == Owned(s.owner, p, |s.owner|))
    && (forall c :: 0 <= c < |s.owner| && s.owner[c].Some? ==> s.owner[c].value in s.procs && c in m.allowed)
    && (forall c :: c in s.idle ==> c < |s.owner| && c in m.allowed && s.owner[c].None?)
    && |s.hist| == |s.owner| && (forall c :: 0 <= c < |s.hist| ==> |s.hist[c]| == NHIST)
    && (forall q :: q in s.congested ==> q in s.procs)
  }

  /** The allowed cores without owner that are not marked idle. */
  function Unmarked(m: Machine, s: Policy): set<nat> {
    set c | 0 <= c < |s.owner| && c in m.allowed && s.owner[c].None? && c !in s.idle
  }

  // ----- Counting ------------------------------------------------------------------------------

  lemma {:induction false} OwnedUpdate(owner: seq<Option<Pid>>, p: Pid, c: nat, x: Option<Pid>, n: nat)
    requires c < |owner| && n <= |owner|
    ensures Owned(owner[c := x], p, n) ==
            Owned(owner, p, n) +
            if c < n then (if x == Some(p) then 1 else 0) - (if owner[c] == Some(p) then 1 else 0) else 0
  {
    if n > 0 {
      OwnedUpdate(owner, p, c, x, n - 1);
    }
  }

  lemma {:induction false} OwnedSome(owner: seq<Option<Pid>>, p: Pid, c: nat, n: nat)
    requires c < n <= |owner| && owner[c] == Some(p)
    ensures Owned(owner, p, n) > 0
  {
    if c < n - 1 {
      OwnedSome(owner, p, c, n - 1);
    }
  }

  lemma {:induction false} OwnedNone(owner: seq<Option<Pid>>, p: Pid, n: nat)
    requires n <= |owner| && forall c :: 0 <= c < |owner| ==> owner[c] != Some(p)
    ensures Owned(owner, p, n) == 0
  {
    if n > 0 {
      OwnedNone(owner, p, n - 1);
    }
  }

  lemma {:induction false} OwnedKept(a: seq<Option<Pid>>, b: seq<Option<Pid>>, q: Pid, n: nat)
    requires n <= |a| == |b| && forall c :: 0 <= c < n ==> (a[c] == Some(q) <==> b[c] == Some(q))
    ensures Owned(a, q, n) == Owned(b, q, n)
  {
    if n > 0 {
      OwnedKept(a, b, q, n - 1);
    }
  }

  /** The cores owned by the processes ps, and what they are guaranteed. */
  function TotalOwned(owner: seq<Option<Pid>>, ps: seq<Pid>, n: nat): nat
    requires n <= |owner|
  {
    if ps == [] then 0 else Owned(owner, ps[0], n) + TotalOwned(owner, ps[1..], n)
  }

  function TotalGuaranteed(procs: map<Pid, Usage>, ps: seq<Pid>): nat {
    if ps == [] then 0 else (if ps[0] in procs then procs[ps[0]].guaranteed else 0) + TotalGuaranteed(procs, ps[1..])
  }

  function InAllowed(allowed: set<nat>, n: nat): nat {
    if n == 0 then 0 else InAllowed(allowed, n - 1) + if n - 1 in allowed then 1 else 0
  }

  /** The guarantees of the attached processes ps, and a reserve for those that are not attached,
      together do not exceed the allowed cores. */
  ghost predicate Fit(m: Machine, s: Policy, ps: seq<Pid>, reserve: nat) {
    && NoDups(ps) && (forall q :: q in s.procs <==> q in ps)
    && TotalGuaranteed(s.procs, ps) + reserve <= InAllowed(m.allowed, |s.owner|)
  }

  /** One more core owned by a listed process is counted once. */
  lemma {:induction false} TotalOwnedNext(owner: seq<Option<Pid>>, ps: seq<Pid>, n: nat)
    requires n < |owner| && NoDups(ps)
    ensures TotalOwned(owner, ps, n + 1) ==
            TotalOwned(owner, ps, n) + if owner[n].Some? && owner[n].value in ps then 1 else 0
  {
    if ps != [] {
      assert ps == [ps[0]] + ps[1..];
      assert ps[0] !in ps[1..];
      TotalOwnedNext(owner, ps[1..], n);
    }
  }

  /** If every allowed core is owned by a listed process, the listed processes own at least as
      many cores as are allowed. */
  lemma {:induction false} AllOwned(owner: seq<Option<Pid>>, ps: seq<Pid>, allowed: set<nat>, n: nat)
    requires n <= |owner| && NoDups(ps)
    requires forall c :: 0 <= c < n && c in allowed ==> owner[c].Some? && owner[c].value in ps
    ensures TotalOwned(owner, ps, n) >= InAllowed(allowed, n)
  {
    if n > 0 {
      AllOwned(owner, ps, allowed, n - 1);
      TotalOwnedNext(owner, ps, n - 1);
    } else {
      NothingOwned(owner, ps);
    }
  }

  lemma {:induction false} NothingOwned(owner: seq<Option<Pid>>, ps: seq<Pid>)
    ensures TotalOwned(owner, ps, 0) == 0
  {
    if ps != [] {
      NothingOwned(owner, ps[1..]);
    }
  }

  /** If nobody owns more than its guarantee and one owns less, together they own less than all
      guarantees. */
  lemma {:induction false} BelowGuarantees(owner: seq<Option<Pid>>, procs: map<Pid, Usage>, ps: seq<Pid>, p: Pid)
    requires forall i :: 0 <= i < |ps| ==> ps[i] in procs && Owned(owner, ps[i], |owner|) <= procs[ps[i]].guaranteed
    ensures TotalOwned(owner, ps, |owner|) <= TotalGuaranteed(procs, ps)
    ensures p in ps && Owned(owner, p, |owner|) < procs[p].guaranteed ==>
              TotalOwned(owner, ps, |owner|) < TotalGuaranteed(procs, ps)
  {
    if ps != [] {
      assert ps == [ps[0]] + ps[1..];
      BelowGuarantees(owner, procs, ps[1..], p);
    }
  }

  // ----- Choosing a core --------------------------------------------------------------------------

  /** simple_proc_is_preemptible. */
  predicate Preemptible(cur: Usage, next: Usage) {
    cur.active > cur.guaranteed && next.active < next.guaranteed
  }

  /** A core p may take: not its own, and free or with a preemptible owner. */
  predicate Available(s: Policy, p: Pid, c: nat) {
    && p in s.procs && c < |s.owner| && s.owner[c] != Some(p)
    && (s.owner[c].None? || (s.owner[c].value in s.procs && Preemptible(s.procs[s.owner[c].value], s.procs[p])))
  }

  /** The cores p's idle threads ran on and their hyperthreads, up to the first thread that has
      not run yet. */
  function Near(m: Machine, recent: seq<nat>): seq<nat> {
    if recent == [] || recent[0] >= |m.siblings| then []
    else [recent[0]] + Allowed(m, m.siblings[recent[0]]) + Near(m, recent[1..])
  }

  function Allowed(m: Machine, c: nat): seq<nat> {
    if c in m.allowed then [c] else []
  }

  /** The first n cores: those marked idle, the hyperthreads of p's own, and those with an owner. */
  function IdleCores(s: Policy, n: nat): seq<nat> {
    if n == 0 then [] else IdleCores(s, n - 1) + if n - 1 in s.idle then [n - 1] else []
  }

  function BesideOwn(m: Machine, s: Policy, p: Pid, n: nat): seq<nat>
    requires n <= |s.owner| && n <= |m.siblings|
  {
    if n == 0 then []
    else BesideOwn(m, s, p, n - 1) +
         if n - 1 in m.allowed && s.owner[n - 1] == Some(p) then Allowed(m, m.siblings[n - 1]) else []
  }

  function OwnedCores(m: Machine, s: Policy, n: nat): seq<nat>
    requires n <= |s.owner|
  {
    if n == 0 then []
    else OwnedCores(m, s, n - 1) + if n - 1 in m.allowed && s.owner[n - 1].Some? then [n - 1] else []
  }

  function FirstAvailable(s: Policy, p: Pid, cs: seq<nat>): Option<nat> {
    if cs == [] then None else if Available(s, p, cs[0]) then Some(cs[0]) else FirstAvailable(s, p, cs[1..])
  }

  /** simple_choose_core: the first available one of the cores used before, the idle cores, those
      beside p's own, and all that have an owner.  None stands for NCPU; recent has the last
      cores of p's idle threads. */
  function Choose(m: Machine, s: Policy, p: Pid, recent: seq<nat>): Option<nat>
    requires |m.siblings| == |s.owner|
  {
    var n := |s.owner|;
    FirstAvailable(s, p, Near(m, recent) + IdleCores(s, n) + BesideOwn(m, s, p, n) + OwnedCores(m, s, n))
  }

  /** The threads of a process have run on allowed cores only. */
  predicate RecentOk(m: Machine, recent: seq<nat>) {
    forall i | 0 <= i < |recent| :: recent[i] < |m.siblings| ==> recent[i] in m.allowed
  }

  lemma {:induction false} FirstAvailableIs(s: Policy, p: Pid, cs: seq<nat>)
    ensures var r := FirstAvailable(s, p, cs);
            && (r.Some? ==> r.value in cs && Available(s, p, r.value))
            && (r.None? ==> forall c :: c in cs ==> !Available(s, p, c))
  {
    if cs != [] {
      FirstAvailableIs(s, p, cs[1..]);
    }
  }

  lemma {:induction false} FirstOfBoth(s: Policy, p: Pid, a: seq<nat>, b: seq<nat>)
    ensures FirstAvailable(s, p, a + b) ==
            if FirstAvailable(s, p, a).Some? then FirstAvailable(s, p, a) else FirstAvailable(s, p, b)
  {
    if a == [] {
      assert a + b == b;
    } else {
      assert (a + b)[1..] == a[1..] + b;
      FirstOfBoth(s, p, a[1..], b);
    }
  }

  /** c is the core, or the allowed hyperthread beside it, that the i-th idle thread ran on; this
      and all threads in front of it have run. */
  ghost predicate UsedBy(m: Machine, recent: seq<nat>, i: nat, c: nat) {
    && i < |recent| && (forall j :: 0 <= j <= i ==> recent[j] < |m.siblings|)
    && (c == recent[i] || (c == m.siblings[recent[i]] && c in m.allowed))
  }

  ghost predicate Used(m: Machine, recent: seq<nat>, c: nat) {
    exists i: nat :: UsedBy(m, recent, i, c)
  }

  lemma {:induction false} NearMeans(m: Machine, recent: seq<nat>, c: nat)
    ensures c in Near(m, recent) <==> Used(m, recent, c)
  {
    if recent != [] && recent[0] < |m.siblings| {
      var first := [recent[0]] + Allowed(m, m.siblings[recent[0]]);
      assert c in first <==> UsedBy(m, recent, 0, c);
      NearMeans(m, recent[1..], c);
      if i: nat :| UsedBy(m, recent[1..], i, c) {
        UsedLater(m, recent, i, c);
      }
      if i: nat :| UsedBy(m, recent, i, c) {
        if i > 0 {
          UsedLater(m, recent, i - 1, c);
        }
      }
    } else {
      assert forall i: nat :: UsedBy(m, recent, i, c) ==> recent[0] < |m.siblings|;
    }
  }

  lemma UsedLater(m: Machine, recent: seq<nat>, i: nat, c: nat)
    requires recent != [] && recent[0] < |m.siblings|
    ensures UsedBy(m, recent[1..], i, c) <==> UsedBy(m, recent, i + 1, c)
  {
    var rest := recent[1..];
    if UsedBy(m, rest, i, c) {
      forall j | 0 <= j <= i + 1 ensures recent[j] < |m.siblings| {
        assert j > 0 ==> recent[j] == rest[j - 1];
      }
    }
  }

  lemma {:induction false} IdleCoresIs(s: Policy, n: nat, c: nat)
    ensures c in IdleCores(s, n) <==> c in s.idle && c < n
  {
    if n > 0 {
      IdleCoresIs(s, n - 1, c);
    }
  }

  /** c is the allowed hyperthread beside one of the first n cores, which p owns. */
  ghost predicate BesideOne(m: Machine, s: Policy, p: Pid, n: nat, c: nat)
    requires n <= |s.owner| && n <= |m.siblings|
  {
    c in m.allowed && exists d :: 0 <= d < n && d in m.allowed && s.owner[d] == Some(p) && m.siblings[d] == c
  }

  lemma {:induction false} BesideOwnIs(m: Machine, s: Policy, p: Pid, n: nat, c: nat)
    requires n <= |s.owner| && n <= |m.siblings|
    ensures c in BesideOwn(m, s, p, n) <==> BesideOne(m, s, p, n, c)
  {
    if n > 0 {
      BesideOwnIs(m, s, p, n - 1, c);
      if d :| 0 <= d < n && d in m.allowed && s.owner[d] == Some(p) && m.siblings[d] == c {
        assert d < n - 1 || d == n - 1;
      }
    }
  }

  lemma {:induction false} OwnedCoresIs(m: Machine, s: Policy, n: nat, c: nat)
    requires n <= |s.owner|
    ensures c in OwnedCores(m, s, n) <==> c < n && c in m.allowed && s.owner[c].Some?
  {
    if n > 0 {
      OwnedCoresIs(m, s, n - 1, c);
    }
  }

  // ----- The guarantee -------------------------------------------------------------------------------

  /** No allowed core belongs to a process with more than its guarantee. */
  ghost predicate NobodyAbove(m: Machine, s: Policy) {
    forall c :: 0 <= c < |s.owner| && c in m.allowed && s.owner[c].Some? && s.owner[c].value in s.procs ==>
      s.procs[s.owner[c].value].active <= s.procs[s.owner[c].value].guaranteed
  }

  /** p has used the core before, or has one beside it. */
  ghost predicate Nearby(m: Machine, s: Policy, p: Pid, recent: seq<nat>, c: nat)
    requires |m.siblings| == |s.owner|
  {
    Used(m, recent, c) || BesideOne(m, s, p, |s.owner|, c)
  }

  /** No core without owner is near. */
  ghost predicate NoneNearby(m: Machine, s: Policy, p: Pid, recent: seq<nat>)
    requires |m.siblings| == |s.owner|
  {
    forall c :: 0 <= c < |s.owner| && Nearby(m, s, p, recent, c) ==> s.owner[c].Some?
  }

  /** p may have the core: it has no owner, or one above its guarantee while p is below its own. */
  ghost predicate Entitled(s: Policy, p: Pid, c: nat) {
    && p in s.procs && c < |s.owner|
    && (s.owner[c].Some? ==>
          var q := s.owner[c].value;
          && q != p && q in s.procs
          && s.procs[q].active > s.procs[q].guaranteed && s.procs[p].active < s.procs[p].guaranteed)
  }

  lemma AvailableMeans(s: Policy, p: Pid, c: nat)
    ensures Available(s, p, c) <==> Entitled(s, p, c)
  {}

  /** The cores that come into question. */
  ghost predicate Considered(m: Machine, s: Policy, p: Pid, recent: seq<nat>, c: nat)
    requires |m.siblings| == |s.owner|
  {
    Nearby(m, s, p, recent, c) || c in s.idle || (c < |s.owner| && c in m.allowed && s.owner[c].Some?)
  }

  lemma ConsideredIs(m: Machine, s: Policy, p: Pid, recent: seq<nat>, c: nat)
    requires Inv(m, s)
    ensures var n := |s.owner|;
            c in Near(m, recent) + IdleCores(s, n) + BesideOwn(m, s, p, n) + OwnedCores(m, s, n) <==>
            Considered(m, s, p, recent, c)
  {
    NearMeans(m, recent, c);
    IdleCoresIs(s, |s.owner|, c);
    BesideOwnIs(m, s, p, |s.owner|, c);
    OwnedCoresIs(m, s, |s.owner|, c);
  }

  /** A core is chosen exactly if p may have one that comes into question, and then it is such a
      core. */
  lemma ChosenExactly(m: Machine, s: Policy, p: Pid, recent: seq<nat>)
    requires Inv(m, s) && p in s.procs
    ensures var r := Choose(m, s, p, recent);
            && (r.Some? ==> Considered(m, s, p, recent, r.value) && Entitled(s, p, r.value))
            && (r.None? ==> forall c :: Considered(m, s, p, recent, c) ==> !Entitled(s, p, c))
  {
    hide Inv, Near, IdleCores, BesideOwn, OwnedCores, Considered, Available, Entitled, Owned;
    SameSizes(m, s);
    var n, r := |s.owner|, Choose(m, s, p, recent);
    FirstAvailableIs(s, p, Near(m, recent) + IdleCores(s, n) + BesideOwn(m, s, p, n) + OwnedCores(m, s, n));
    hide FirstAvailable;
    forall c ensures Available(s, p, c) <==> Entitled(s, p, c) {
      AvailableMeans(s, p, c);
    }
    forall c | Considered(m, s, p, recent, c)
      ensures c in Near(m, recent) + IdleCores(s, n) + BesideOwn(m, s, p, n) + OwnedCores(m, s, n)
    {
      ConsideredIs(m, s, p, recent, c);
    }
    if r.Some? {
      ConsideredIs(m, s, p, recent, r.value);
    }
  }

  lemma SameSizes(m: Machine, s: Policy)
    requires Inv(m, s)
    ensures |m.siblings| == |s.owner| == |s.hist|
  {}

  lemma UsedAllowed(m: Machine, recent: seq<nat>, c: nat)
    requires RecentOk(m, recent) && Used(m, recent, c)
    ensures c in m.allowed
  {}

  /** What is chosen is an allowed core without owner, or one of another process above its
      guarantee while p is below its own. */
  lemma ChoiceIsFair(m: Machine, s: Policy, p: Pid, recent: seq<nat>)
    requires Inv(m, s) && p in s.procs && RecentOk(m, recent)
    ensures var r := Choose(m, s, p, recent);
            r.Some? ==>
              && r.value < |s.owner| && r.value in m.allowed
              && (s.owner[r.value].Some? ==>
                    var q := s.owner[r.value].value;
                    && q != p && q in s.procs && s.procs[q].active > s.procs[q].guaranteed
                    && s.procs[p].active < s.procs[p].guaranteed)
  {
    hide Choose;
    ChosenExactly(m, s, p, recent);
    var r := Choose(m, s, p, recent);
    if r.Some? && Used(m, recent, r.value) {
      UsedAllowed(m, recent, r.value);
    }
  }

  /** Exactly when a process below its guarantee gets no core: no core is marked idle, nobody has
      more than its guarantee, and no core without owner is near. */
  lemma NoCoreExactly(m: Machine, s: Policy, p: Pid, recent: seq<nat>)
    requires Inv(m, s) && p in s.procs && s.procs[p].active < s.procs[p].guaranteed && RecentOk(m, recent)
    ensures Choose(m, s, p, recent).None? <==> s.idle == {} && NobodyAbove(m, s) && NoneNearby(m, s, p, recent)
  {
    hide Choose, Owned, Nearby;
    ChosenExactly(m, s, p, recent);
    ChoiceIsFair(m, s, p, recent);
    forall c | c in s.idle ensures Considered(m, s, p, recent, c) && Entitled(s, p, c) {}
    if Choose(m, s, p, recent).None? {
      forall c | 0 <= c < |s.owner| && c in m.allowed && s.owner[c].Some? && s.owner[c].value in s.procs
        ensures s.procs[s.owner[c].value].active <= s.procs[s.owner[c].value].guaranteed
      {
        assert Considered(m, s, p, recent, c);
      }
      forall c | 0 <= c < |s.owner| && Nearby(m, s, p, recent, c) ensures s.owner[c].Some? {
        assert Considered(m, s, p, recent, c);
      }
    }
  }

  /** Exactly when a process at or above its guarantee gets one: some core is marked idle, or one
      without owner is near. */
  lemma SurplusExactly(m: Machine, s: Policy, p: Pid, recent: seq<nat>)
    requires Inv(m, s) && p in s.procs && s.procs[p].active >= s.procs[p].guaranteed
    ensures Choose(m, s, p, recent).Some? <==> s.idle != {} || !NoneNearby(m, s, p, recent)
  {
    hide Choose, Owned, Nearby;
    ChosenExactly(m, s, p, recent);
    if c :| c in s.idle {
      assert Considered(m, s, p, recent, c) && Entitled(s, p, c);
    }
    if c :| 0 <= c < |s.owner| && Nearby(m, s, p, recent, c) && s.owner[c].None? {
      assert Considered(m, s, p, recent, c) && Entitled(s, p, c);
    }
  }

  // The order of preference

  ghost predicate Rising(cs: seq<nat>) {
    forall i, j :: 0 <= i < j < |cs| ==> cs[i] < cs[j]
  }

  lemma {:induction false} FirstIsLowest(s: Policy, p: Pid, cs: seq<nat>)
    requires Rising(cs)
    ensures var r := FirstAvailable(s, p, cs); r.Some? ==> forall c :: c in cs && Available(s, p, c) ==> r.value <= c
  {
    hide Available;
    if cs != [] {
      FirstIsLowest(s, p, cs[1..]);
      assert cs == [cs[0]] + cs[1..];
    }
  }

  lemma {:induction false} ScansRise(m: Machine, s: Policy, n: nat)
    requires n <= |s.owner|
    ensures Rising(IdleCores(s, n)) && forall c :: c in IdleCores(s, n) ==> c < n
    ensures Rising(OwnedCores(m, s, n)) && forall c :: c in OwnedCores(m, s, n) ==> c < n
  {
    if n > 0 {
      ScansRise(m, s, n - 1);
      RisesMore(IdleCores(s, n - 1), n - 1);
      RisesMore(OwnedCores(m, s, n - 1), n - 1);
      assert IdleCores(s, n - 1) + [] == IdleCores(s, n - 1);
      assert OwnedCores(m, s, n - 1) + [] == OwnedCores(m, s, n - 1);
    }
  }

  lemma RisesMore(cs: seq<nat>, x: nat)
    requires Rising(cs) && forall c :: c in cs ==> c < x
    ensures Rising(cs + [x])
  {
    forall i | 0 <= i < |cs| ensures cs[i] < x {
      assert cs[i] in cs;
    }
  }

  /** A thread nearer the front of the idle list decides first. */
  lemma {:induction false} FrontFirst(m: Machine, s: Policy, p: Pid, recent: seq<nat>, i: nat, c: nat)
    requires UsedBy(m, recent, i, c) && Available(s, p, c)
    ensures var r := FirstAvailable(s, p, Near(m, recent));
            r.Some? && exists j: nat :: j <= i && UsedBy(m, recent, j, r.value)
  {
    hide Available;
    var sib := Allowed(m, m.siblings[recent[0]]);
    FirstOfBoth(s, p, [recent[0]] + sib, Near(m, recent[1..]));
    FirstOfBoth(s, p, [recent[0]], sib);
    FirstAvailableIs(s, p, [recent[0]] + sib);
    var first := FirstAvailable(s, p, [recent[0]] + sib);
    if first.Some? {
      assert UsedBy(m, recent, 0, first.value);
    } else {
      assert i > 0;
      UsedLater(m, recent, i - 1, c);
      FrontFirst(m, s, p, recent[1..], i - 1, c);
      var r := FirstAvailable(s, p, Near(m, recent[1..])).value;
      var j: nat :| j <= i - 1 && UsedBy(m, recent[1..], j, r);
      UsedLater(m, recent, j, r);
    }
  }

  /** Where the choice comes from: from the foremost thread that has a core to offer; else it is the
      lowest core marked idle; else one beside p's own; else the lowest of all that p may have. */
  lemma ChoiceOrder(m: Machine, s: Policy, p: Pid, recent: seq<nat>, c: nat, x: nat)
    requires Inv(m, s) && p in s.procs && Choose(m, s, p, recent) == Some(c)
    requires Considered(m, s, p, recent, x) && Entitled(s, p, x)
    ensures forall i: nat :: UsedBy(m, recent, i, x) ==> exists j: nat :: j <= i && UsedBy(m, recent, j, c)
    ensures x in s.idle ==> Used(m, recent, c) || (c in s.idle && c <= x)
    ensures BesideOne(m, s, p, |s.owner|, x) ==> Nearby(m, s, p, recent, c) || c in s.idle
    ensures s.owner[x].Some? ==> Nearby(m, s, p, recent, c) || c in s.idle || c <= x
  {
    hide Owned, Available, Entitled;
    SameSizes(m, s);
    var n := |s.owner|;
    var near, idles, beside, owned := Near(m, recent), IdleCores(s, n), BesideOwn(m, s, p, n), OwnedCores(m, s, n);
    AvailableMeans(s, p, x);
    IsIn(m, s, p, recent, x);
    IsIn(m, s, p, recent, c);
    ScansRise(m, s, n);
    hide Inv, Near, IdleCores, BesideOwn, OwnedCores, UsedBy, Used, BesideOne;
    forall i: nat | UsedBy(m, recent, i, x) ensures exists j: nat :: j <= i && UsedBy(m, recent, j, c) {
      FrontFirst(m, s, p, recent, i, x);
      FirstOfBoth(s, p, near + idles + beside, owned);
      FirstOfBoth(s, p, near + idles, beside);
      FirstOfBoth(s, p, near, idles);
    }
    FirstOf(s, p, near, idles, beside, owned);
    hide FirstAvailable;
  }

  lemma IsIn(m: Machine, s: Policy, p: Pid, recent: seq<nat>, c: nat)
    requires Inv(m, s)
    ensures c in Near(m, recent) <==> Used(m, recent, c)
    ensures c in IdleCores(s, |s.owner|) <==> c in s.idle
    ensures c in BesideOwn(m, s, p, |s.owner|) <==> BesideOne(m, s, p, |s.owner|, c)
    ensures c in OwnedCores(m, s, |s.owner|) <==> c < |s.owner| && c in m.allowed && s.owner[c].Some?
  {
    NearMeans(m, recent, c);
    IdleCoresIs(s, |s.owner|, c);
    BesideOwnIs(m, s, p, |s.owner|, c);
    OwnedCoresIs(m, s, |s.owner|, c);
  }

  /** The first available one of four lists, of which the second and the fourth rise. */
  lemma FirstOf(s: Policy, p: Pid, near: seq<nat>, idles: seq<nat>, beside: seq<nat>, owned: seq<nat>)
    requires Rising(idles) && Rising(owned)
    ensures var r := FirstAvailable(s, p, near + idles + beside + owned);
            r.Some? ==>
              && (r.value in near || r.value in idles || r.value in beside || r.value in owned)
              && forall x :: Available(s, p, x) ==>
                   && (x in near ==> r.value in near)
                   && (x in idles ==> r.value in near || (r.value in idles && r.value <= x))
                   && (x in beside ==> r.value in near || r.value in idles || r.value in beside)
                   && (x in owned ==> r.value in near || r.value in idles || r.value in beside || r.value <= x)
  {
    hide Available, FirstAvailable;
    FirstOfBoth(s, p, near + idles + beside, owned);
    FirstOfBoth(s, p, near + idles, beside);
    FirstOfBoth(s, p, near, idles);
    FirstAvailableIs(s, p, near);
    FirstAvailableIs(s, p, idles);
    FirstAvailableIs(s, p, beside);
    FirstAvailableIs(s, p, owned);
    FirstIsLowest(s, p, idles);
    FirstIsLowest(s, p, owned);
  }

  /** If then the guarantees fit the allowed cores with a reserve, more allowed cores than the
      reserve have neither owner nor mark. */
  lemma UnmarkedIfNoCore(m: Machine, s: Policy, p: Pid, ps: seq<Pid>, reserve: nat)
    requires Inv(m, s) && p in s.procs && s.procs[p].active < s.procs[p].guaranteed && Fit(m, s, ps, reserve)
    requires s.idle == {} && NobodyAbove(m, s)
    ensures |Unmarked(m, s)| > reserve
  {
    OwnedOrUnmarked(m, s, ps, |s.owner|);
    assert UnmarkedBelow(m, s, |s.owner|) == Unmarked(m, s);
    forall i | 0 <= i < |ps| ensures Owned(s.owner, ps[i], |s.owner|) <= s.procs[ps[i]].guaranteed {
      WithinGuarantee(m, s, ps[i], |s.owner|);
    }
    BelowGuarantees(s.owner, s.procs, ps, p);
  }

  function UnmarkedBelow(m: Machine, s: Policy, n: nat): set<nat> {
    set c | c in Unmarked(m, s) && c < n
  }

  /** Every allowed core is marked, unmarked or owned. */
  lemma {:induction false} OwnedOrUnmarked(m: Machine, s: Policy, ps: seq<Pid>, n: nat)
    requires Inv(m, s) && s.idle == {} && n <= |s.owner| && NoDups(ps) && forall q :: q in s.procs ==> q in ps
    ensures InAllowed(m.allowed, n) <= TotalOwned(s.owner, ps, n) + |UnmarkedBelow(m, s, n)|
  {
    if n > 0 {
      OwnedOrUnmarked(m, s, ps, n - 1);
      TotalOwnedNext(s.owner, ps, n - 1);
      var less := UnmarkedBelow(m, s, n - 1);
      assert UnmarkedBelow(m, s, n) == less + (if n - 1 in Unmarked(m, s) then {n - 1} else {});
    } else {
      NothingOwned(s.owner, ps);
    }
  }

  lemma {:induction false} WithinGuarantee(m: Machine, s: Policy, q: Pid, n: nat)
    requires Inv(m, s) && q in s.procs && n <= |s.owner| && NobodyAbove(m, s)
    ensures Owned(s.owner, q, n) > 0 ==> s.procs[q].active <= s.procs[q].guaranteed
  {
    if n > 0 && s.owner[n - 1] != Some(q) {
      WithinGuarantee(m, s, q, n - 1);
    }
  }

  /** The guarantee: with guarantees that fit and all ownerless cores marked, a process below its
      guarantee gets a core, and never one of a process at or below its own. */
  lemma GuaranteedCore(m: Machine, s: Policy, p: Pid, recent: seq<nat>, ps: seq<Pid>)
    requires Inv(m, s) && p in s.procs && s.procs[p].active < s.procs[p].guaranteed && RecentOk(m, recent)
    requires Fit(m, s, ps, 0) && Unmarked(m, s) == {}
    ensures var r := Choose(m, s, p, recent);
            && r.Some? && r.value < |s.owner| && r.value in m.allowed && s.owner[r.value] != Some(p)
            && (s.owner[r.value].Some? ==>
                  var q := s.owner[r.value].value; q in s.procs && s.procs[q].active > s.procs[q].guaranteed)
  {
    NoCoreExactly(m, s, p, recent);
    ChoiceIsFair(m, s, p, recent);
    if Choose(m, s, p, recent).None? {
      UnmarkedIfNoCore(m, s, p, ps, 0);
    }
  }

  /** A process that has just been attached, with a guarantee, gets no core exactly if none is
      marked idle and nobody has more than its guarantee: two facts about idle and owner alone. */
  lemma NewcomerExactly(m: Machine, s: Policy, p: Pid, guaranteed: nat, max: nat, recent: seq<nat>)
    requires Inv(m, s) && p !in s.procs && guaranteed > 0 && RecentOk(m, recent) && Near(m, recent) == []
    ensures Inv(m, Attached(s, p, guaranteed, max))
    ensures Choose(m, Attached(s, p, guaranteed, max), p, recent).None? <==> s.idle == {} && NobodyAbove(m, s)
  {
    var s' := Attached(s, p, guaranteed, max);
    AttachInv(m, s, p, guaranteed, max);
    NoCoreExactly(m, s', p, recent);
    forall c | c in BesideOwn(m, s', p, |s.owner|) ensures false {
      BesideOwnIs(m, s', p, |s.owner|, c);
    }
  }

  // ----- The operations ------------------------------------------------------------------------------

  function Attached(s: Policy, p: Pid, guaranteed: nat, max: nat): Policy {
    s.(procs := s.procs[p := Usage(guaranteed, max, 0)])
  }

  lemma AttachInv(m: Machine, s: Policy, p: Pid, guaranteed: nat, max: nat)
    requires Inv(m, s) && p !in s.procs
    ensures Inv(m, Attached(s, p, guaranteed, max))
  {
    OwnedNone(s.owner, p, |s.owner|);
  }

  function Fewer(u: Usage): Usage {
    if u.active == 0 then u else u.(active := u.active - 1)
  }

  /** A history with one more entry in front; the last one falls out. */
  function Remember(h: seq<Option<Pid>>, x: Option<Pid>): seq<Option<Pid>> {
    if h == [] then [] else [x] + h[..|h| - 1]
  }

  /** simple_cleanup_core: the owner loses the core and goes into the core's history. */
  function Cleaned(s: Policy, core: nat): Policy
    requires core < |s.owner| == |s.hist|
  {
    if s.owner[core].None? then s
    else
      var p := s.owner[core].value;
      s.(owner := s.owner[core := None],
         procs := if p in s.procs then s.procs[p := Fewer(s.procs[p])] else s.procs,
         hist := s.hist[core := Remember(s.hist[core], s.owner[core])])
  }

  lemma CleanInv(m: Machine, s: Policy, core: nat)
    requires Inv(m, s) && core < |s.owner|
    ensures Inv(m, Cleaned(s, core))
  {
    if s.owner[core].Some? {
      var p := s.owner[core].value;
      OwnedSome(s.owner, p, core, |s.owner|);
      forall q ensures Owned(s.owner[core := None], q, |s.owner|) == Owned(s.owner, q, |s.owner|) - if q == p then 1 else 0 {
        OwnedUpdate(s.owner, q, core, None, |s.owner|);
      }
    }
  }

  /** simple_run_kthread_on_core, when the scheduler has agreed. */
  function Given(s: Policy, p: Pid, core: nat): Policy
    requires core < |s.owner| == |s.hist|
  {
    var t := Cleaned(s, core);
    t.(owner := t.owner[core := Some(p)], idle := t.idle - {core},
       procs := if p in t.procs then t.procs[p := t.procs[p].(active := t.procs[p].active + 1)] else t.procs)
  }

  /** Ownership moves, every process is counted once per core it owns, and the mark goes. */
  lemma GivenInv(m: Machine, s: Policy, p: Pid, core: nat)
    requires Inv(m, s) && p in s.procs && core < |s.owner| && core in m.allowed
    ensures var s' := Given(s, p, core);
            && Inv(m, s') && s'.owner == s.owner[core := Some(p)] && s'.procs.Keys == s.procs.Keys
            && s'.congested == s.congested && Unmarked(m, s') == Unmarked(m, s) - {core}
            && forall q :: q in s.procs ==> s'.procs[q] == s.procs[q].(active := Owned(s'.owner, q, |s'.owner|))
  {
    CleanInv(m, s, core);
    CleanFrame(m, s, core);
    var t := Cleaned(s, core);
    forall q
      ensures Owned(t.owner[core := Some(p)], q, |t.owner|) == Owned(t.owner, q, |t.owner|) + if q == p then 1 else 0
    {
      OwnedUpdate(t.owner, q, core, Some(p), |t.owner|);
    }
    CleanProcs(m, s, core);
    hide Owned, Cleaned;
    GivenUnmarked(m, t, p, core);
  }

  /** Cleaning changes only the counts. */
  lemma CleanProcs(m: Machine, s: Policy, core: nat)
    requires Inv(m, s) && core < |s.owner|
    ensures forall q :: q in s.procs && q in Cleaned(s, core).procs ==>
              Cleaned(s, core).procs[q] == s.procs[q].(active := Cleaned(s, core).procs[q].active)
  {
    hide Owned;
  }

  lemma GivenUnmarked(m: Machine, t: Policy, p: Pid, core: nat)
    requires core < |t.owner|
    ensures Unmarked(m, t.(owner := t.owner[core := Some(p)], idle := t.idle - {core})) == Unmarked(m, t) - {core}
  {}

  /** The core simple_add_kthread gives to p.  available and ran are the scheduler's answers. */
  function Taken(m: Machine, s: Policy, p: Pid, recent: seq<nat>, available: bool, ran: bool): Option<nat>
    requires |m.siblings| == |s.owner| && p in s.procs
  {
    if s.procs[p].active >= s.procs[p].max || !available || !ran then None else Choose(m, s, p, recent)
  }

  /** simple_add_kthread. */
  function Added(m: Machine, s: Policy, p: Pid, recent: seq<nat>, available: bool, ran: bool): Policy
    requires |m.siblings| == |s.owner| == |s.hist| && p in s.procs
  {
    match Taken(m, s, p, recent, available, ran)
    case Some(c) => if c < |s.owner| then Given(s, p, c) else s
    case None => s
  }

  /** p has one more core or nothing has changed, and nobody is pushed below its guarantee. */
  lemma AddedIsFair(m: Machine, s: Policy, p: Pid, recent: seq<nat>, available: bool, ran: bool)
    requires Inv(m, s) && p in s.procs && RecentOk(m, recent)
    ensures var s', c := Added(m, s, p, recent, available, ran), Taken(m, s, p, recent, available, ran);
            && (c.Some? <==> s.procs[p].active < s.procs[p].max && available && ran && Choose(m, s, p, recent).Some?)
            && Inv(m, s') && s'.procs.Keys == s.procs.Keys
            && (c.None? ==> s' == s)
            && (c.Some? ==> c.value < |s.owner| && s'.procs[p] == s.procs[p].(active := s.procs[p].active + 1))
            && Unmarked(m, s') == Unmarked(m, s) - (if c.Some? then {c.value} else {})
            && forall q :: q in s.procs && q != p ==>
                 s'.procs[q].active >= s.procs[q].active || s'.procs[q].active >= s'.procs[q].guaranteed
  {
    var c := Taken(m, s, p, recent, available, ran);
    ChoiceIsFair(m, s, p, recent);
    if c.Some? {
      GivenInv(m, s, p, c.value);
      forall q ensures Owned(s.owner[c.value := Some(p)], q, |s.owner|) ==
                       Owned(s.owner, q, |s.owner|) + (if q == p then 1 else 0) -
                       (if s.owner[c.value] == Some(q) then 1 else 0)
      {
        OwnedUpdate(s.owner, q, c.value, Some(p), |s.owner|);
      }
    }
  }

  function MarkedCongested(s: Policy, p: Pid): Policy {
    if p in s.congested then s else s.(congested := [p] + s.congested)
  }

  function UnmarkedCongested(s: Policy, p: Pid): Policy {
    s.(congested := Filter(s.congested, p))
  }

  function Filter(xs: seq<Pid>, p: Pid): (r: seq<Pid>)
    ensures forall x :: x in r <==> x in xs && x != p
  {
    if xs == [] then []
    else if xs[0] == p then Filter(xs[1..], p)
    else [xs[0]] + Filter(xs[1..], p)
  }

  /** The processes simple_choose_kthread looks at for a core, in its order: the sibling's, those
      of the two histories in turn, then all congested ones. */
  function Wanting(m: Machine, s: Policy, core: nat): seq<Option<Pid>>
    requires core < |m.siblings| == |s.owner| == |s.hist| && m.siblings[core] < |s.owner|
  {
    [s.owner[m.siblings[core]]] + InTurn(s.hist[core], s.hist[m.siblings[core]]) + Somes(s.congested)
  }

  function Somes(xs: seq<Pid>): (r: seq<Option<Pid>>)
    ensures |r| == |xs| && forall i :: 0 <= i < |xs| ==> r[i] == Some(xs[i])
  {
    seq(|xs|, i requires 0 <= i < |xs| => Some(xs[i]))
  }

  function InTurn(a: seq<Option<Pid>>, b: seq<Option<Pid>>): seq<Option<Pid>> {
    if a == [] || b == [] then [] else [a[0], b[0]] + InTurn(a[1..], b[1..])
  }

  function FirstWanting(s: Policy, xs: seq<Option<Pid>>, available: set<Pid>): Option<Pid> {
    if xs == [] then None
    else if xs[0].Some? && xs[0].value in s.congested && xs[0].value in available then xs[0]
    else FirstWanting(s, xs[1..], available)
  }

  lemma {:induction false} FirstWantingIs(s: Policy, xs: seq<Option<Pid>>, available: set<Pid>)
    ensures var r := FirstWanting(s, xs, available);
            && (r.Some? ==> r.value in s.congested && r.value in available)
            && (r.None? ==> forall q :: Some(q) in xs ==> q !in s.congested || q !in available)
  {
    if xs != [] {
      FirstWantingIs(s, xs[1..], available);
    }
  }

  lemma {:induction false} FirstWantingOfBoth(s: Policy, a: seq<Option<Pid>>, b: seq<Option<Pid>>, available: set<Pid>)
    ensures FirstWanting(s, a + b, available) ==
            if FirstWanting(s, a, available).Some? then FirstWanting(s, a, available) else FirstWanting(s, b, available)
  {
    if a == [] {
      assert a + b == b;
    } else {
      assert (a + b)[1..] == a[1..] + b;
      FirstWantingOfBoth(s, a[1..], b, available);
    }
  }

  /** The first entry that is a congested process with a thread available. */
  ghost predicate FirstSuch(s: Policy, xs: seq<Option<Pid>>, available: set<Pid>, i: nat) {
    && i < |xs| && xs[i].Some? && xs[i].value in s.congested && xs[i].value in available
    && forall j :: 0 <= j < i && xs[j].Some? ==> xs[j].value !in s.congested || xs[j].value !in available
  }

  lemma {:induction false} FirstWantingAt(s: Policy, xs: seq<Option<Pid>>, available: set<Pid>) returns (i: nat)
    requires FirstWanting(s, xs, available).Some?
    ensures FirstSuch(s, xs, available, i) && FirstWanting(s, xs, available) == xs[i]
  {
    if xs[0].Some? && xs[0].value in s.congested && xs[0].value in available {
      return 0;
    }
    i := FirstWantingAt(s, xs[1..], available);
    i := i + 1;
    forall j | 0 <= j < i && xs[j].Some? ensures xs[j].value !in s.congested || xs[j].value !in available {
      assert j > 0 ==> xs[j] == xs[1..][j - 1];
    }
  }

  lemma {:induction false} InTurnAt(a: seq<Option<Pid>>, b: seq<Option<Pid>>, i: nat)
    requires i < |a| == |b|
    ensures |InTurn(a, b)| == 2 * |a| && InTurn(a, b)[2 * i] == a[i] && InTurn(a, b)[2 * i + 1] == b[i]
  {
    if |a| > 1 {
      InTurnAt(a[1..], b[1..], if i == 0 then 0 else i - 1);
    }
  }

  /** The order of preference: the process on the sibling, then those of the two histories by age,
      the core's own first, then the congested ones from the front of their list. */
  lemma WantingOrder(m: Machine, s: Policy, core: nat, i: nat)
    requires Inv(m, s) && core < |s.owner|
    ensures |m.siblings| == |s.owner| == |s.hist| && m.siblings[core] < |s.owner|
    ensures var xs := Wanting(m, s, core);
            && |xs| == 1 + 2 * NHIST + |s.congested| && xs[0] == s.owner[m.siblings[core]]
            && (i < NHIST ==> xs[1 + 2 * i] == s.hist[core][i] && xs[2 + 2 * i] == s.hist[m.siblings[core]][i])
            && (i < |s.congested| ==> xs[1 + 2 * NHIST + i] == Some(s.congested[i]))
  {
    hide Owned;
    InTurnAt(s.hist[core], s.hist[m.siblings[core]], if i < NHIST then i else 0);
  }

  /** simple_choose_kthread finds a congested process with a thread available whenever there is one. */
  lemma WantingIsFound(m: Machine, s: Policy, core: nat, available: set<Pid>)
    requires core < |m.siblings| == |s.owner| == |s.hist| && m.siblings[core] < |s.owner|
    ensures var r := FirstWanting(s, Wanting(m, s, core), available);
            && (r.Some? <==> exists q :: q in s.congested && q in available)
            && (r.Some? ==> r.value in s.congested && r.value in available)
  {
    var xs := Wanting(m, s, core);
    FirstWantingIs(s, xs, available);
    var tail := Somes(s.congested);
    forall q | q in s.congested ensures Some(q) in xs {
      var i :| 0 <= i < |s.congested| && s.congested[i] == q;
      assert tail[i] == Some(q);
    }
  }

  /** One core in simple_sched_poll: it has gone idle and is given to a congested process or
      marked. */
  function WentIdle(m: Machine, s: Policy, core: nat, available: set<Pid>, ran: bool): Policy
    requires core < |m.siblings| == |s.owner| == |s.hist| && m.siblings[core] < |s.owner|
  {
    var u := if s.owner[core].Some? then UnmarkedCongested(s, s.owner[core].value) else s;
    var t := Cleaned(u, core);
    var sd := FirstWanting(t, Wanting(m, t, core), available);
    if sd.None? then t.(idle := t.idle + {core})
    else if ran then Given(t, sd.value, core)
    else MarkedCongested(t.(idle := t.idle + {core}), sd.value)
  }

  /** The core goes to a congested process other than its last owner with a thread available, if
      there is one and the scheduler agrees, and is marked otherwise; other cores keep theirs. */
  lemma WentIdleInv(m: Machine, s: Policy, core: nat, available: set<Pid>, ran: bool)
    requires Inv(m, s) && core < |s.owner| && core in m.allowed
    ensures var s' := WentIdle(m, s, core, available, ran);
            && Inv(m, s') && Unmarked(m, s') == Unmarked(m, s) - {core} && s'.procs.Keys == s.procs.Keys
            && (s'.owner[core].None? ==> core in s'.idle)
            && (s'.owner[core].Some? <==>
                  ran && exists q :: q in s.congested && Some(q) != s.owner[core] && q in available)
            && (s'.owner[core].Some? ==> s'.owner[core].value in s.congested && s'.owner[core].value in available)
            && s'.owner == s.owner[core := s'.owner[core]]
  {
    hide Owned, Inv, Unmarked, Given, Wanting, FirstWanting, Cleaned;
    var u := if s.owner[core].Some? then UnmarkedCongested(s, s.owner[core].value) else s;
    CongestionInv(m, s, u);
    SiblingIn(m, s, core);
    CleanInv(m, u, core);
    CleanFrame(m, u, core);
    var t := Cleaned(u, core);
    WantingIsFound(m, t, core, available);
    CongestedIn(m, t);
    var sd := FirstWanting(t, Wanting(m, t, core), available);
    if sd.Some? && ran {
      GivenInv(m, t, sd.value, core);
      GivenOwner(t, sd.value, core);
    } else {
      var marked := t.(idle := t.idle + {core});
      MarkInv(m, t, core);
      if sd.Some? {
        CongestionInv(m, marked, MarkedCongested(marked, sd.value));
      }
    }
  }

  /** The core is marked exactly if it has no owner afterwards; guarantees and other marks stay. */
  lemma WentIdleMarks(m: Machine, s: Policy, core: nat, available: set<Pid>)
    requires Inv(m, s) && core < |s.owner| && core in m.allowed
    ensures var s' := WentIdle(m, s, core, available, true);
            && |s'.owner| == |s.owner| && s'.procs.Keys == s.procs.Keys
            && s'.idle == (if s'.owner[core].Some? then s.idle - {core} else s.idle + {core})
            && forall q :: q in s.procs ==> s'.procs[q].guaranteed == s.procs[q].guaranteed
  {
    hide Owned, Inv, Wanting, FirstWanting, Cleaned;
    var u := if s.owner[core].Some? then UnmarkedCongested(s, s.owner[core].value) else s;
    CongestionInv(m, s, u);
    SiblingIn(m, s, core);
    CleanFrame(m, u, core);
    CleanProcs(m, u, core);
    var t := Cleaned(u, core);
    var sd := FirstWanting(t, Wanting(m, t, core), available);
    if sd.Some? {
      assert Cleaned(t, core) == t by {
        NothingToClean(t, core);
      }
    }
  }

  lemma NothingToClean(s: Policy, core: nat)
    requires core < |s.owner| == |s.hist| && s.owner[core].None?
    ensures Cleaned(s, core) == s
  {}

  lemma SiblingIn(m: Machine, s: Policy, core: nat)
    requires Inv(m, s) && core < |s.owner|
    ensures |m.siblings| == |s.owner| == |s.hist| && m.siblings[core] < |s.owner|
  {}

  lemma CongestedIn(m: Machine, s: Policy)
    requires Inv(m, s)
    ensures forall q :: q in s.congested ==> q in s.procs
  {}

  lemma GivenOwner(s: Policy, p: Pid, core: nat)
    requires core < |s.owner| == |s.hist|
    ensures |Given(s, p, core).owner| == |s.owner| && Given(s, p, core).owner[core] == Some(p)
  {}

  lemma GivenMarks(s: Policy, p: Pid, core: nat)
    requires core < |s.owner| == |s.hist|
    ensures Given(s, p, core).idle == s.idle - {core}
  {}

  /** What cleaning a core leaves alone. */
  lemma CleanFrame(m: Machine, s: Policy, core: nat)
    requires Inv(m, s) && core < |s.owner|
    ensures var s' := Cleaned(s, core);
            && s'.procs.Keys == s.procs.Keys && |s'.owner| == |s.owner| == |s'.hist| && s'.owner[core].None?
            && s'.owner == s.owner[core := None] && s'.idle == s.idle && s'.congested == s.congested
            && Unmarked(m, s') - {core} == Unmarked(m, s) - {core}
  {
    hide Owned;
    assert s.owner[core].None? ==> s.owner == s.owner[core := None];
  }

  /** A core without owner is marked. */
  lemma MarkInv(m: Machine, s: Policy, core: nat)
    requires Inv(m, s) && core < |s.owner| && core in m.allowed && s.owner[core].None?
    ensures var s' := s.(idle := s.idle + {core}); Inv(m, s') && Unmarked(m, s') == Unmarked(m, s) - {core}
  {
    hide Owned;
  }

  function Forget(xs: seq<Option<Pid>>, p: Pid): (r: seq<Option<Pid>>)
    ensures |r| == |xs| && forall i :: 0 <= i < |xs| ==> r[i] == if xs[i] == Some(p) then None else xs[i]
  {
    seq(|xs|, i requires 0 <= i < |xs| => if xs[i] == Some(p) then None else xs[i])
  }

  function CoresOf(s: Policy, p: Pid): set<nat> {
    set c | 0 <= c < |s.owner| && s.owner[c] == Some(p)
  }

  /** simple_detach: the process disappears from cores, histories and the congested list.  The
      idle marks stay as they are. */
  function Detached(s: Policy, p: Pid): Policy {
    UnmarkedCongested(s, p).(
      owner := Forget(s.owner, p),
      hist := seq(|s.hist|, c requires 0 <= c < |s.hist| => Forget(s.hist[c], p)),
      procs := s.procs - {p})
  }

  /** So its cores are neither owned nor marked. */
  lemma DetachInv(m: Machine, s: Policy, p: Pid)
    requires Inv(m, s) && p in s.procs
    ensures var s' := Detached(s, p);
            && Inv(m, s') && Unmarked(m, s') == Unmarked(m, s) + CoresOf(s, p) && s'.idle == s.idle
            && (forall c, i :: 0 <= c < |s'.hist| && 0 <= i < |s'.hist[c]| ==> s'.hist[c][i] != Some(p))
            && (forall q :: q in s'.procs ==> s'.procs[q] == s.procs[q])
  {
    var s' := Detached(s, p);
    forall q | q in s'.procs ensures s'.procs[q].active == Owned(s'.owner, q, |s'.owner|) {
      OwnedKept(s.owner, s'.owner, q, |s.owner|);
    }
    hide Owned;
    assert Unmarked(m, s') == Unmarked(m, s) + CoresOf(s, p);
  }

  // ----- Runs -----------------------------------------------------------------------------------------

  datatype Event =
    | Attach(p: Pid, guaranteed: nat, max: nat)
    | Detach(p: Pid)
    | CoreNeeded(p: Pid, recent: seq<nat>, available: bool, ran: bool)
    | CoreIdle(core: nat, free: set<Pid>, ran: bool)
    | Congested(p: Pid)
    | Relieved(p: Pid)

  /** The state after an event; one that does not apply is skipped. */
  ghost function Next(m: Machine, s: Policy, e: Event): Policy
    requires Inv(m, s)
  {
    match e
    case Attach(p, guaranteed, max) => if p in s.procs then s else Attached(s, p, guaranteed, max)
    case Detach(p) => if p in s.procs then Detached(s, p) else s
    case CoreNeeded(p, recent, available, ran) =>
      if p in s.procs && RecentOk(m, recent) then Added(m, s, p, recent, available, ran) else s
    case CoreIdle(core, free, ran) =>
      if core < |s.owner| && core in m.allowed then WentIdle(m, s, core, free, ran) else s
    case Congested(p) => if p in s.procs then MarkedCongested(s, p) else s
    case Relieved(p) => UnmarkedCongested(s, p)
  }

  /** The cores left behind by detached processes that have been neither seen idle nor given away
      since, when before were so. */
  ghost function StillOrphaned(m: Machine, s: Policy, before: set<nat>, e: Event): set<nat>
    requires Inv(m, s)
  {
    match e
    case Detach(p) => if p in s.procs then before + CoresOf(s, p) else before
    case CoreNeeded(p, recent, available, ran) =>
      if p in s.procs && RecentOk(m, recent) && Taken(m, s, p, recent, available, ran).Some?
      then before - {Taken(m, s, p, recent, available, ran).value} else before
    case CoreIdle(core, _, _) => if core < |s.owner| && core in m.allowed then before - {core} else before
    case _ => before
  }

  lemma NextKeeps(m: Machine, s: Policy, e: Event)
    requires Inv(m, s)
    ensures Inv(m, Next(m, s, e)) && Unmarked(m, Next(m, s, e)) == StillOrphaned(m, s, Unmarked(m, s), e)
  {
    hide Inv, Unmarked, Added, Taken, WentIdle, Detached, RecentOk;
    match e
    case Attach(p, guaranteed, max) =>
      if p !in s.procs {
        AttachInv(m, s, p, guaranteed, max);
        SameUnmarked(m, s, Attached(s, p, guaranteed, max));
      }
    case Detach(p) =>
      if p in s.procs {
        DetachInv(m, s, p);
      }
    case CoreNeeded(p, recent, available, ran) =>
      if p in s.procs && RecentOk(m, recent) {
        AddedIsFair(m, s, p, recent, available, ran);
      }
    case CoreIdle(core, free, ran) =>
      if core < |s.owner| && core in m.allowed {
        WentIdleInv(m, s, core, free, ran);
      }
    case Congested(p) =>
      if p in s.procs {
        CongestionInv(m, s, MarkedCongested(s, p));
      }
    case Relieved(p) => CongestionInv(m, s, UnmarkedCongested(s, p));
  }

  lemma SameUnmarked(m: Machine, s: Policy, s': Policy)
    requires s'.owner == s.owner && s'.idle == s.idle
    ensures Unmarked(m, s') == Unmarked(m, s)
  {}

  lemma CongestionInv(m: Machine, s: Policy, s': Policy)
    requires Inv(m, s) && s' == s.(congested := s'.congested)
    requires forall q :: q in s'.congested ==> q in s.congested || q in s.procs
    ensures Inv(m, s') && Unmarked(m, s') == Unmarked(m, s)
  {}

  ghost function Exec(m: Machine, s: Policy, events: seq<Event>): (r: Policy)
    requires Inv(m, s)
    ensures Inv(m, r)
    decreases |events|
  {
    if events == [] then s
    else
      NextKeeps(m, s, events[0]);
      Exec(m, Next(m, s, events[0]), events[1..])
  }

  ghost function Orphans(m: Machine, s: Policy, before: set<nat>, events: seq<Event>): set<nat>
    requires Inv(m, s)
    decreases |events|
  {
    if events == [] then before
    else
      NextKeeps(m, s, events[0]);
      Orphans(m, Next(m, s, events[0]), StillOrphaned(m, s, before, events[0]), events[1..])
  }

  /** In every run, the allowed cores without owner and mark are exactly those that detached
      processes left behind and nobody has seen idle or taken since. */
  lemma {:induction false} OrphansAreUnmarked(m: Machine, s: Policy, events: seq<Event>)
    requires Inv(m, s)
    ensures Unmarked(m, Exec(m, s, events)) == Orphans(m, s, Unmarked(m, s), events)
    decreases |events|
  {
    hide Inv, Next, StillOrphaned, Unmarked;
    if events != [] {
      NextKeeps(m, s, events[0]);
      OrphansAreUnmarked(m, Next(m, s, events[0]), events[1..]);
    }
  }

  /** simple_init: all allowed cores are marked idle. */
  ghost predicate Bootable(m: Machine) {
    && (forall c :: 0 <= c < |m.siblings| ==> m.siblings[c] < |m.siblings|)
    && (forall c :: c in m.allowed ==> c < |m.siblings|)
  }

  function Booted(m: Machine): Policy {
    var n := |m.siblings|;
    Policy(seq(n, _ => None), m.allowed, map[], seq(n, _ => seq(NHIST, _ => None)), [])
  }

  lemma BootedInv(m: Machine)
    requires Bootable(m)
    ensures Inv(m, Booted(m)) && Unmarked(m, Booted(m)) == {}
  {}
}
