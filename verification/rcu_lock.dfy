/**
 RCULock (rcu_lock.cpp): readers count themselves in and out on whatever core they run,
 and writer_sync collects all counters twice.  Every load and every update of a
 counter is a step of its own.
 */
module RcuLock {
  type Reader = nat

  /** A core's counter and version, read and written as one word. */
  datatype Cnt = Cnt(c: int, ver: nat)

  datatype Writer =
    | Away
    | Collecting(seen: seq<Cnt>)                   // first pass, cores 0 .. |seen| - 1
    | Checking(seen: seq<Cnt>, next: nat)          // second pass, versions only
    | Returned

  datatype State = State(cores: seq<Cnt>, readers: set<Reader>, writer: Writer)

  datatype Step =
    | Lock(r: Reader, core: nat)
    | Unlock(r: Reader, core: nat)
    | Enter
    | Collect
    | Retry
    | StartCheck
    | Check
    | Return

  function Total(cs: seq<Cnt>): int {
    if cs == [] then 0 else Total(cs[..|cs| - 1]) + cs[|cs| - 1].c
  }

  predicate Enabled(s: State, step: Step) {
    match step
    case Lock(r, core) => r !in s.readers && core < |s.cores|
    // The core may be another than the one of the Lock.
    case Unlock(r, core) => r in s.readers && core < |s.cores|
    case Enter => s.writer.Away? || s.writer.Returned?
    case Collect => s.writer.Collecting? && |s.writer.seen| < |s.cores|
    case Retry => s.writer.Collecting? && |s.writer.seen| == |s.cores| && Total(s.writer.seen) != 0
    case StartCheck => s.writer.Collecting? && |s.writer.seen| == |s.cores| && Total(s.writer.seen) == 0
    case Check => s.writer.Checking? && s.writer.next < |s.cores| && s.writer.next < |s.writer.seen|
    case Return => s.writer.Checking? && s.writer.next == |s.cores|
  }

  function Apply(s: State, step: Step): State
    requires Enabled(s, step)
  {
    match step
    case Lock(r, core) => s.(cores := s.cores[core := Bump(s.cores[core], 1)], readers := s.readers + {r})
    case Unlock(r, core) => s.(cores := s.cores[core := Bump(s.cores[core], -1)], readers := s.readers - {r})
    case Enter => s.(writer := Collecting([]))
    case Collect => s.(writer := Collecting(s.writer.seen + [s.cores[|s.writer.seen|]]))
    case Retry => s.(writer := Collecting([]))
    case StartCheck => s.(writer := Checking(s.writer.seen, 0))
    case Check =>
      var w := s.writer;
      if s.cores[w.next].ver != w.seen[w.next].ver then s.(writer := Collecting([]))
      else s.(writer := Checking(w.seen, w.next + 1))
    case Return => s.(writer := Returned)
  }

  function Bump(x: Cnt, d: int): Cnt {
    Cnt(x.c + d, x.ver + 1)
  }

  predicate Runs(s: State, run: seq<Step>)
    decreases |run|, 0
  {
    run == [] || (Runs(s, run[..|run| - 1]) && Enabled(Exec(s, run[..|run| - 1]), run[|run| - 1]))
  }

  function Exec(s: State, run: seq<Step>): State
    requires Runs(s, run)
    decreases |run|, 1
  {
    if run == [] then s else Apply(Exec(s, run[..|run| - 1]), run[|run| - 1])
  }

  ghost predicate Init(s: State) {
    s.readers == {} && s.writer.Away? && forall i :: 0 <= i < |s.cores| ==> s.cores[i] == Cnt(0, 0)
  }

  // ----- The counters count the readers ------------------------------------------------

  lemma {:induction false} TotalUpdate(cs: seq<Cnt>, i: nat, x: Cnt)
    requires i < |cs|
    ensures Total(cs[i := x]) == Total(cs) + x.c - cs[i].c
    decreases |cs|
  {
    var front := cs[..|cs| - 1];
    if i < |front| {
      assert cs[i := x][..|cs| - 1] == front[i := x];
      TotalUpdate(front, i, x);
    } else {
      assert cs[i := x][..|cs| - 1] == front;
    }
  }

  lemma {:induction false} TotalZero(cs: seq<Cnt>)
    requires forall i :: 0 <= i < |cs| ==> cs[i].c == 0
    ensures Total(cs) == 0
  {
    if cs != [] {
      TotalZero(cs[..|cs| - 1]);
    }
  }

  lemma {:induction false} TotalSame(a: seq<Cnt>, b: seq<Cnt>)
    requires |a| == |b| && forall i :: 0 <= i < |a| ==> a[i].c == b[i].c
    ensures Total(a) == Total(b)
  {
    if a != [] {
      TotalSame(a[..|a| - 1], b[..|b| - 1]);
    }
  }

  /** Versions tell whether a counter has changed since it was seen. */
  ghost predicate Since(old_: Cnt, now: Cnt) {
    old_.ver <= now.ver && (old_.ver == now.ver ==> old_.c == now.c)
  }

  ghost predicate AllSince(old_: seq<Cnt>, now: seq<Cnt>) {
    |old_| <= |now| && forall i :: 0 <= i < |old_| ==> Since(old_[i], now[i])
  }

  /** mid is what the cores held at some instant between the two passes. */
  ghost predicate Between(s: State, mid: seq<Cnt>) {
    && s.writer.Checking? && |mid| == |s.cores| == |s.writer.seen| && s.writer.next <= |mid|
    && AllSince(s.writer.seen, mid) && AllSince(mid, s.cores)
    && forall i :: 0 <= i < s.writer.next ==> mid[i].ver == s.writer.seen[i].ver
  }

  ghost predicate Inv(s: State) {
    && Total(s.cores) == |s.readers|
    && (s.writer.Collecting? ==> AllSince(s.writer.seen, s.cores))
    && (s.writer.Checking? ==> |s.writer.seen| == |s.cores| && Total(s.writer.seen) == 0)
  }

  lemma StepKeepsInv(s: State, step: Step)
    requires Inv(s) && Enabled(s, step)
    ensures Inv(Apply(s, step)) && AllSince(s.cores, Apply(s, step).cores)
  {
    match step
    case Lock(r, core) => TotalUpdate(s.cores, core, Bump(s.cores[core], 1));
    case Unlock(r, core) => TotalUpdate(s.cores, core, Bump(s.cores[core], -1));
    case _ =>
  }

  /** Every step of the second pass, and every reader's step during it, keeps the instant:
      a version that still agrees has agreed all the time. */
  lemma BetweenKept(s: State, step: Step, mid: seq<Cnt>)
    requires Inv(s) && Enabled(s, step) && Between(s, mid) && Apply(s, step).writer.Checking?
    ensures Between(Apply(s, step), mid)
  {
    hide Total;
    var s' := Apply(s, step);
    forall i | 0 <= i < |mid| ensures Since(mid[i], s'.cores[i]) {
      assert Since(mid[i], s.cores[i]);
    }
    forall i | 0 <= i < s'.writer.next ensures mid[i].ver == s'.writer.seen[i].ver {
      if i == s.writer.next {
        assert Since(s.writer.seen[i], mid[i]) && Since(mid[i], s.cores[i]);
      }
    }
  }

  lemma BetweenStarts(s: State, step: Step)
    requires Inv(s) && Enabled(s, step) && !s.writer.Checking? && Apply(s, step).writer.Checking?
    ensures Between(Apply(s, step), s.cores) && Apply(s, step).cores == s.cores && step != Enter
  {
    hide Total;
  }

  // ----- The instant ---------------------------------------------------------------------

  /** Inside the call that run is in the middle of, or has just ended: there was an instant,
      after k steps, at which the cores held mid and the readers were as many. */
  ghost predicate Instant(s: State, run: seq<Step>, k: nat)
  {
    && k <= |run| && Runs(s, run[..k])
    && (forall i :: k <= i < |run| ==> run[i] != Enter)
    && Exec(s, run[..k]).writer.Checking?
  }

  lemma {:induction false} RunInv(s: State, run: seq<Step>)
    requires Init(s) && Runs(s, run)
    ensures Inv(Exec(s, run))
    decreases |run|
  {
    if run == [] {
      TotalZero(s.cores);
    } else {
      var front := run[..|run| - 1];
      RunInv(s, front);
      StepKeepsInv(Exec(s, front), run[|run| - 1]);
    }
  }

  /** While the second pass is on, it began at such an instant. */
  lemma {:induction false} CheckingSince(s: State, run: seq<Step>) returns (k: nat)
    requires Init(s) && Runs(s, run) && Exec(s, run).writer.Checking?
    ensures k <= |run| && Runs(s, run[..k]) && Instant(s, run, k) && Between(Exec(s, run), Exec(s, run[..k]).cores)
    decreases |run|
  {
    hide Runs, Exec, Inv, Between, Instant;
    if run == [] {
      Start(s);
    } else {
      LastStep(s, run);
      var front, last := run[..|run| - 1], run[|run| - 1];
      var before := Exec(s, front);
      RunInv(s, front);
      if before.writer.Checking? {
        k := CheckingSince(s, front);
        InstantKept(s, run, k);
        BetweenKept(before, last, Exec(s, run[..k]).cores);
      } else {
        k := |run|;
        BetweenStarts(before, last);
        InstantNow(s, run);
      }
    }
  }

  lemma LastStep(s: State, run: seq<Step>)
    requires Runs(s, run) && run != []
    ensures var front := run[..|run| - 1];
            && Runs(s, front) && Enabled(Exec(s, front), run[|run| - 1])
            && Exec(s, run) == Apply(Exec(s, front), run[|run| - 1])
  {}

  lemma Start(s: State)
    requires Init(s)
    ensures Runs(s, []) && Exec(s, []) == s && !s.writer.Checking?
  {}

  lemma InstantNow(s: State, run: seq<Step>)
    requires Runs(s, run) && Exec(s, run).writer.Checking?
    ensures Instant(s, run, |run|) && run[..|run|] == run
  {
    assert run[..|run|] == run;
  }

  lemma InstantKept(s: State, run: seq<Step>, k: nat)
    requires Runs(s, run) && run != [] && run[|run| - 1] != Enter
    requires Runs(s, run[..|run| - 1]) && Instant(s, run[..|run| - 1], k)
    ensures k <= |run| && Instant(s, run, k) && run[..k] == run[..|run| - 1][..k]
  {
    hide Runs, Exec;
    assert run[..k] == run[..|run| - 1][..k];
  }

  /** When writer_sync returns, there was an instant during the call at which no reader held
      the lock, although readers may lock on one core and unlock on another, and although
      the counters are read one after the other. */
  lemma SyncSawNoReader(s: State, run: seq<Step>) returns (k: nat)
    requires Init(s) && Runs(s, run) && run != [] && run[|run| - 1] == Return
    ensures k <= |run| && Runs(s, run[..k]) && Instant(s, run, k) && Exec(s, run[..k]).readers == {}
  {
    hide Runs, Exec, Total, Inv, Between, Instant;
    LastStep(s, run);
    var front := run[..|run| - 1];
    k := CheckingSince(s, front);
    InstantKept(s, run, k);
    var mid := Exec(s, run[..k]);
    RunInv(s, run[..k]);
    RunInv(s, front);
    NobodyThen(Exec(s, front), mid);
  }

  lemma NobodyThen(done: State, mid: State)
    requires Inv(done) && Inv(mid) && Between(done, mid.cores) && Enabled(done, Return)
    ensures mid.readers == {}
  {
    hide Total;
    assert forall i :: 0 <= i < |mid.cores| ==> Since(done.writer.seen[i], mid.cores[i]);
    TotalSame(done.writer.seen, mid.cores);
  }

  // ----- Progress ------------------------------------------------------------------------

  lemma OneMore(s: State, run: seq<Step>, step: Step)
    requires Runs(s, run) && Enabled(Exec(s, run), step)
    ensures Runs(s, run + [step]) && Exec(s, run + [step]) == Apply(Exec(s, run), step)
  {
    assert (run + [step])[..|run|] == run;
  }

  lemma {:induction false} CollectsAll(s: State, n: nat)
    requires s.writer == Collecting([]) && n <= |s.cores|
    ensures Runs(s, seq(n, _ => Collect)) && Exec(s, seq(n, _ => Collect)) == s.(writer := Collecting(s.cores[..n]))
  {
    if n > 0 {
      CollectsAll(s, n - 1);
      hide Runs, Exec;
      OneMore(s, seq(n - 1, _ => Collect), Collect);
      assert seq(n - 1, _ => Collect) + [Collect] == seq(n, _ => Collect);
      assert s.cores[..n - 1] + [s.cores[n - 1]] == s.cores[..n];
    }
  }

  lemma {:induction false} ChecksAll(s: State, run: seq<Step>, n: nat)
    requires Runs(s, run) && n <= |s.cores| && Exec(s, run) == s.(writer := Checking(s.cores, 0))
    ensures var more := run + seq(n, _ => Check);
            Runs(s, more) && Exec(s, more) == s.(writer := Checking(s.cores, n))
  {
    if n > 0 {
      ChecksAll(s, run, n - 1);
      hide Runs, Exec;
      var less := run + seq(n - 1, _ => Check);
      OneMore(s, less, Check);
      assert less + [Check] == run + seq(n, _ => Check);
    } else {
      assert run + seq(0, _ => Check) == run;
    }
  }

  /** The two passes over n cores. */
  function TwoPasses(n: nat): seq<Step> {
    seq(n, _ => Collect) + [StartCheck] + seq(n, _ => Check) + [Return]
  }

  /** When nobody holds the lock and nobody comes, two passes end writer_sync, whatever the single
      counters are. */
  lemma SyncEnds(s: State)
    requires Inv(s) && s.readers == {} && s.writer == Collecting([])
    ensures Runs(s, TwoPasses(|s.cores|)) && Exec(s, TwoPasses(|s.cores|)) == s.(writer := Returned)
  {
    var n := |s.cores|;
    CollectsAll(s, n);
    hide Runs, Exec, Total;
    assert s.cores[..n] == s.cores;
    var first := seq(n, _ => Collect);
    OneMore(s, first, StartCheck);
    ChecksAll(s, first + [StartCheck], n);
    OneMore(s, first + [StartCheck] + seq(n, _ => Check), Return);
  }

  /** As long as somebody holds it and the counters do not change, no number of the writer's own steps
      does. */
  lemma {:induction false} SyncWaits(s: State, run: seq<Step>)
    requires Inv(s) && s.readers != {} && s.writer == Collecting([]) && Runs(s, run)
    requires forall i :: 0 <= i < |run| ==> !run[i].Lock? && !run[i].Unlock? && run[i] != Enter
    ensures var s' := Exec(s, run);
            s' == s.(writer := s'.writer) && s'.writer.Collecting? && s'.writer.seen <= s.cores
    decreases |run|
  {
    if run != [] {
      LastStep(s, run);
      var front := run[..|run| - 1];
      SyncWaits(s, front);
      hide Runs, Exec;
      assert |Exec(s, front).writer.seen| == |s.cores| ==> Exec(s, front).writer.seen == s.cores;
    }
  }
}
