/**
 Deferred callbacks of the runtime's RCU (rcu.c).  A kthread's generation is odd while a
 uthread runs and even in the scheduler; read sections disable preemption, so a
 generation cannot change inside one.  Any number of workers may be in _rcu_worker at
 the same time (the reclaim thread and callers of synchronize_rcu_blocking).
 */
module RcuWorker {
  type Callback = nat

  /** section numbers the read sections a kthread has begun. */
  datatype KThread = KThread(gen: nat, reading: bool, section: nat)

  datatype Worker =
    | Resting
    | Sampling(batch: seq<Callback>, last: seq<nat>)
    | Checking(batch: seq<Callback>, last: seq<nat>, next: nat)
    | Running(batch: seq<Callback>)

  /** ks has the nrks kthreads started so far.  held is history: for each callback, the read
      sections that were open when it was handed to rcu_free. */
  datatype State = State(
    ks: seq<KThread>,
    maxks: nat,
    pending: seq<Callback>,
    workers: seq<Worker>,
    ran: seq<Callback>,
    held: map<Callback, map<nat, nat>>)

  datatype Step =
    | Join
    | EnterRead(k: nat)
    | ExitRead(k: nat)
    | Advance(k: nat, d: nat)
    | RcuFree(c: Callback)
    | Take(w: nat)
    | Sample(w: nat)
    | SampleDone(w: nat)
    | Check(w: nat, junk: nat)
    | CheckDone(w: nat)
    | Invoke(w: nat)
    | Finish(w: nat)

  predicate Enabled(s: State, step: Step) {
    match step
    case Join => true
    case EnterRead(k) => k < |s.ks| && s.ks[k].gen % 2 == 1 && !s.ks[k].reading
    case ExitRead(k) => k < |s.ks| && s.ks[k].reading
    // Into the scheduler, out of it, or to another uthread directly.
    case Advance(k, d) => k < |s.ks| && !s.ks[k].reading && d > 0
    case RcuFree(c) => c !in s.held
    case Take(w) => w < |s.workers| && s.workers[w].Resting? && s.pending != []
    case Sample(w) => w < |s.workers| && s.workers[w].Sampling? && |s.workers[w].last| < |s.ks|
    case SampleDone(w) => w < |s.workers| && s.workers[w].Sampling? && |s.workers[w].last| == |s.ks|
    case Check(w, _) => w < |s.workers| && s.workers[w].Checking? && s.workers[w].next < |s.ks|
    case CheckDone(w) => w < |s.workers| && s.workers[w].Checking? && s.workers[w].next == |s.ks|
    case Invoke(w) => w < |s.workers| && s.workers[w].Running? && s.workers[w].batch != []
    case Finish(w) => w < |s.workers| && s.workers[w] == Running([])
  }

  function Open(ks: seq<KThread>): map<nat, nat> {
    map k: nat | k < |ks| && ks[k].reading :: ks[k].section
  }

  function Apply(s: State, step: Step): State
    requires Enabled(s, step)
  {
    match step
    case Join => s.(ks := s.ks + [KThread(1, false, 0)])
    case EnterRead(k) => s.(ks := s.ks[k := s.ks[k].(reading := true, section := s.ks[k].section + 1)])
    case ExitRead(k) => s.(ks := s.ks[k := s.ks[k].(reading := false)])
    case Advance(k, d) => s.(ks := s.ks[k := s.ks[k].(gen := s.ks[k].gen + d)])
    case RcuFree(c) => s.(pending := [c] + s.pending, held := s.held[c := Open(s.ks)])
    case Take(w) => s.(workers := s.workers[w := Sampling(s.pending, [])], pending := [])
    case Sample(w) => s.(workers := s.workers[w := NextSample(s.workers[w], s.ks)])
    case SampleDone(w) => s.(workers := s.workers[w := Checking(s.workers[w].batch, s.workers[w].last, 0)])
    case Check(w, junk) => s.(workers := s.workers[w := NextCheck(s.workers[w], s.ks, junk)])
    case CheckDone(w) =>
      var x := s.workers[w];
      s.(workers := s.workers[w := if |s.ks| == s.maxks then Running(x.batch) else Checking(x.batch, x.last, 0)])
    case Invoke(w) =>
      var x := s.workers[w];
      s.(workers := s.workers[w := Running(x.batch[1..])], ran := s.ran + [x.batch[0]])
    case Finish(w) => s.(workers := s.workers[w := Resting])
  }

  function NextSample(x: Worker, ks: seq<KThread>): Worker
    requires x.Sampling? && |x.last| < |ks|
  {
    Sampling(x.batch, x.last + [ks[|x.last|].gen])
  }

  /** One round of the second loop.  A kthread that came after the sampling is compared with
      whatever the array holds. */
  function NextCheck(x: Worker, ks: seq<KThread>, junk: nat): Worker
    requires x.Checking? && x.next < |ks|
  {
    var gen := ks[x.next].gen;
    var before := if x.next < |x.last| then x.last[x.next] else junk;
    if gen % 2 == 1 && gen == before then Checking(x.batch, x.last, 0)
    else Checking(x.batch, x.last, x.next + 1)
  }

  /** The read section that c has to wait for on kthread k is still open. */
  predicate StillOpen(s: State, c: Callback, k: nat) {
    && c in s.held && k in s.held[c] && k < |s.ks|
    && s.ks[k].reading && s.ks[k].section == s.held[c][k]
  }

  // ----- Grace period ------------------------------------------------------------------

  ghost predicate Odd(s: State) {
    && (forall k :: 0 <= k < |s.ks| && s.ks[k].reading ==> s.ks[k].gen % 2 == 1)
    && (forall c, k :: c in s.held && k in s.held[c] ==> Begun(s, c, k))
  }

  predicate Begun(s: State, c: Callback, k: nat)
    requires c in s.held && k in s.held[c]
  {
    k < |s.ks| && s.held[c][k] <= s.ks[k].section
  }

  /** What a worker knows about kthread k and a callback of its batch. */
  ghost predicate Waits(s: State, x: Worker, c: Callback, k: nat) {
    StillOpen(s, c, k) ==>
      match x
      case Resting => true
      case Sampling(_, last) => k < |last| ==> s.ks[k].gen == last[k]
      case Checking(_, last, next) => next <= k < |last| && s.ks[k].gen == last[k]
      case Running(_) => false
  }

  function Batch(x: Worker): seq<Callback> {
    if x.Resting? then [] else x.batch
  }

  ghost predicate Patient(s: State) {
    forall w, c, k :: 0 <= w < |s.workers| && c in Batch(s.workers[w]) && 0 <= k ==> Waits(s, s.workers[w], c, k)
  }

  ghost predicate Quiet(s: State) {
    forall c, k :: c in s.ran && 0 <= k ==> !StillOpen(s, c, k)
  }

  ghost predicate Known(s: State) {
    && (forall w, c :: 0 <= w < |s.workers| && c in Batch(s.workers[w]) ==> c in s.held)
    && (forall c :: c in s.pending || c in s.ran ==> c in s.held)
  }

  /** No worker has looked at more kthreads than there are. */
  ghost predicate Bounded(s: State) {
    forall w :: 0 <= w < |s.workers| ==>
      && (s.workers[w].Sampling? ==> |s.workers[w].last| <= |s.ks|)
      && (s.workers[w].Checking? ==> s.workers[w].next <= |s.ks|)
  }

  ghost predicate Inv(s: State) {
    Odd(s) && Known(s) && Patient(s) && Quiet(s) && Bounded(s)
  }

  /** A section that is open after a step was open before it, unless it has just been
      noted, and the generation has not moved. */
  lemma OpenBefore(s: State, step: Step, c: Callback, k: nat)
    requires Odd(s) && Enabled(s, step) && StillOpen(Apply(s, step), c, k) && c in s.held
    ensures StillOpen(s, c, k) && Apply(s, step).ks[k].gen == s.ks[k].gen && s.ks[k].gen % 2 == 1
  {}

  lemma KeepsPatient(s: State, step: Step)
    requires Inv(s) && Enabled(s, step)
    ensures Patient(Apply(s, step))
  {
    var s' := Apply(s, step);
    forall w, c, k | 0 <= w < |s'.workers| && c in Batch(s'.workers[w]) && 0 <= k
      ensures Waits(s', s'.workers[w], c, k)
    {
      if StillOpen(s', c, k) {
        WorkerWaits(s, step, w, c, k);
      }
    }
  }

  lemma WorkerWaits(s: State, step: Step, w: nat, c: Callback, k: nat)
    requires Inv(s) && Enabled(s, step) && w < |s.workers|
    requires c in Batch(Apply(s, step).workers[w]) && StillOpen(Apply(s, step), c, k)
    ensures Waits(Apply(s, step), Apply(s, step).workers[w], c, k)
  {
    var s' := Apply(s, step);
    var x, x' := s.workers[w], s'.workers[w];
    assert c in s.held;
    OpenBefore(s, step, c, k);
    if step.Take? && step.w == w {
    } else {
      assert c in Batch(x);
      assert Waits(s, x, c, k);
    }
  }

  lemma KeepsOdd(s: State, step: Step)
    requires Odd(s) && Enabled(s, step)
    ensures Odd(Apply(s, step))
  {
    var s' := Apply(s, step);
    forall c, k | c in s'.held && k in s'.held[c] ensures Begun(s', c, k) {
      if c in s.held {
        assert Begun(s, c, k);
      } else {
        assert k in Open(s.ks);
      }
    }
  }

  lemma KeepsRest(s: State, step: Step)
    requires Inv(s) && Enabled(s, step)
    ensures Odd(Apply(s, step)) && Known(Apply(s, step)) && Quiet(Apply(s, step))
  {
    var s' := Apply(s, step);
    KeepsOdd(s, step);
    forall c, k | c in s'.ran && 0 <= k ensures !StillOpen(s', c, k) {
      if c !in s.ran {
        ClosedAtInvoke(s, step.w, k);
      }
      if StillOpen(s', c, k) {
        OpenBefore(s, step, c, k);
      }
    }
  }

  lemma KeepsBounded(s: State, step: Step)
    requires Bounded(s) && Enabled(s, step)
    ensures Bounded(Apply(s, step))
  {}

  lemma ClosedAtInvoke(s: State, w: nat, k: nat)
    requires Inv(s) && Enabled(s, Invoke(w))
    ensures var c := s.workers[w].batch[0]; c in s.held && !StillOpen(s, c, k)
  {
    var c := s.workers[w].batch[0];
    assert c in Batch(s.workers[w]);
    assert Waits(s, s.workers[w], c, k);
  }

  // ----- Exactly once ---------------------------------------------------------------------

  function Occurs(cs: seq<Callback>, c: Callback): nat {
    multiset(cs)[c]
  }

  /** How often the workers have c in hand. */
  function InHand(workers: seq<Worker>, c: Callback): nat {
    if workers == [] then 0 else InHand(workers[..|workers| - 1], c) + Occurs(Batch(workers[|workers| - 1]), c)
  }

  function Count(s: State, c: Callback): nat {
    Occurs(s.pending, c) + InHand(s.workers, c) + Occurs(s.ran, c)
  }

  /** Every callback ever handed in is pending, in one worker's hands, or has run: once. */
  ghost predicate Conserved(s: State) {
    forall c :: Count(s, c) == if c in s.held then 1 else 0
  }

  lemma {:induction false} InHandUpdate(workers: seq<Worker>, w: nat, x: Worker, c: Callback)
    requires w < |workers|
    ensures InHand(workers[w := x], c) == InHand(workers, c) + Occurs(Batch(x), c) - Occurs(Batch(workers[w]), c)
    decreases |workers|
  {
    hide Occurs;
    var front := workers[..|workers| - 1];
    if w < |front| {
      assert workers[w := x][..|workers| - 1] == front[w := x];
      InHandUpdate(front, w, x, c);
    } else {
      assert workers[w := x][..|workers| - 1] == front;
    }
  }

  lemma OccursConcat(a: seq<Callback>, b: seq<Callback>, c: Callback)
    ensures Occurs(a + b, c) == Occurs(a, c) + Occurs(b, c)
  {}

  /** Only rcu_free changes a count, and only the one of its callback. */
  lemma CountKept(s: State, step: Step, c: Callback)
    requires Enabled(s, step)
    ensures Count(Apply(s, step), c) == Count(s, c) + if step == RcuFree(c) then 1 else 0
  {
    hide InHand, Occurs;
    var s' := Apply(s, step);
    match step
    case RcuFree(d) =>
      OccursConcat([d], s.pending, c);
      OccursOne(d, c);
    case Take(w) =>
      InHandUpdate(s.workers, w, Sampling(s.pending, []), c);
      OccursNone(c);
    case Invoke(w) => InvokeKept(s, w, c);
    case _ => BatchesKept(s, step, c);
  }

  lemma InvokeKept(s: State, w: nat, c: Callback)
    requires Enabled(s, Invoke(w))
    ensures Count(Apply(s, Invoke(w)), c) == Count(s, c)
  {
    hide InHand, Occurs;
    var batch := s.workers[w].batch;
    InHandUpdate(s.workers, w, Running(batch[1..]), c);
    OccursConcat([batch[0]], batch[1..], c);
    assert [batch[0]] + batch[1..] == batch;
    OccursConcat(s.ran, [batch[0]], c);
  }

  /** The other steps leave every batch as it is. */
  lemma BatchesKept(s: State, step: Step, c: Callback)
    requires Enabled(s, step) && !step.RcuFree? && !step.Take? && !step.Invoke?
    ensures Count(Apply(s, step), c) == Count(s, c)
  {
    hide InHand, Occurs;
    if !(step.Join? || step.EnterRead? || step.ExitRead? || step.Advance?) {
      InHandUpdate(s.workers, step.w, Apply(s, step).workers[step.w], c);
      OccursNone(c);
    }
  }

  lemma OccursOne(d: Callback, c: Callback)
    ensures Occurs([d], c) == if d == c then 1 else 0
  {}

  lemma OccursNone(c: Callback)
    ensures Occurs([], c) == 0
  {}

  lemma KeepsConserved(s: State, step: Step)
    requires Conserved(s) && Enabled(s, step)
    ensures Conserved(Apply(s, step))
  {
    hide Count;
    forall c ensures Count(Apply(s, step), c) == if c in Apply(s, step).held then 1 else 0 {
      CountKept(s, step, c);
    }
  }

  // ----- Runs -------------------------------------------------------------------------------

  predicate Runs(s: State, run: seq<Step>)
    decreases |run|
  {
    run == [] || (Enabled(s, run[0]) && Runs(Apply(s, run[0]), run[1..]))
  }

  function Exec(s: State, run: seq<Step>): State
    requires Runs(s, run)
    decreases |run|
  {
    if run == [] then s else Exec(Apply(s, run[0]), run[1..])
  }

  ghost predicate Init(s: State) {
    && (forall k :: 0 <= k < |s.ks| ==> !s.ks[k].reading)
    && s.pending == s.ran == [] && s.held == map[]
    && (forall w :: 0 <= w < |s.workers| ==> s.workers[w].Resting?)
  }

  lemma {:induction false} NothingInHand(workers: seq<Worker>, c: Callback)
    requires forall w :: 0 <= w < |workers| ==> workers[w].Resting?
    ensures InHand(workers, c) == 0
  {
    if workers != [] {
      NothingInHand(workers[..|workers| - 1], c);
    }
  }

  lemma {:induction false} RunKeeps(s: State, run: seq<Step>)
    requires Inv(s) && Conserved(s) && Runs(s, run)
    ensures Inv(Exec(s, run)) && Conserved(Exec(s, run))
    decreases |run|
  {
    hide Inv, Conserved, Apply;
    if run != [] {
      Keeps(s, run[0]);
      RunKeeps(Apply(s, run[0]), run[1..]);
    }
  }

  lemma Keeps(s: State, step: Step)
    requires Inv(s) && Conserved(s) && Enabled(s, step)
    ensures Inv(Apply(s, step)) && Conserved(Apply(s, step))
  {
    KeepsRest(s, step);
    KeepsPatient(s, step);
    KeepsBounded(s, step);
    KeepsConserved(s, step);
  }

  lemma FromStart(s: State, run: seq<Step>)
    requires Init(s) && Runs(s, run)
    ensures Inv(Exec(s, run)) && Conserved(Exec(s, run))
  {
    forall c ensures Count(s, c) == 0 {
      NothingInHand(s.workers, c);
    }
    RunKeeps(s, run);
  }

  /** A callback runs only when every read section that was open when it was handed in has
      been left, whatever kthreads were started in the meantime. */
  lemma GracePeriod(s: State, run: seq<Step>, w: nat, k: nat)
    requires Init(s) && Runs(s, run) && Enabled(Exec(s, run), Invoke(w))
    ensures !StillOpen(Exec(s, run), Exec(s, run).workers[w].batch[0], k)
  {
    FromStart(s, run);
    var now := Exec(s, run);
    var c := now.workers[w].batch[0];
    assert c in Batch(now.workers[w]);
    assert Waits(now, now.workers[w], c, k);
  }

  /** Every callback is run at most once, and until then it is in exactly one place. */
  lemma ExactlyOnce(s: State, run: seq<Step>, c: Callback)
    requires Init(s) && Runs(s, run)
    ensures var now := Exec(s, run);
            Occurs(now.pending, c) + InHand(now.workers, c) + Occurs(now.ran, c) == if c in now.held then 1 else 0
  {
    FromStart(s, run);
    assert Count(Exec(s, run), c) == if c in Exec(s, run).held then 1 else 0;
  }

  // ----- Progress ---------------------------------------------------------------------------

  lemma {:induction false} RunsConcat(s: State, a: seq<Step>, b: seq<Step>)
    requires Runs(s, a) && Runs(Exec(s, a), b)
    ensures Runs(s, a + b) && Exec(s, a + b) == Exec(Exec(s, a), b)
    decreases |a|
  {
    hide Apply, Enabled;
    if a == [] {
      assert a + b == b;
    } else {
      assert (a + b)[0] == a[0] && (a + b)[1..] == a[1..] + b;
      RunsConcat(Apply(s, a[0]), a[1..], b);
    }
  }

  lemma OneStep(s: State, step: Step)
    requires Enabled(s, step)
    ensures Runs(s, [step]) && Exec(s, [step]) == Apply(s, step)
  {
    assert [step][1..] == [];
    assert Exec(Apply(s, step), []) == Apply(s, step);
  }

  function WithWorker(s: State, w: nat, x: Worker): State
    requires w < |s.workers|
  {
    s.(workers := s.workers[w := x])
  }

  /** The kthread is in the scheduler, or has been there since it was sampled. */
  predicate Passed(ks: seq<KThread>, last: seq<nat>, k: nat)
    requires k < |ks|
  {
    ks[k].gen % 2 == 0 || (k < |last| && ks[k].gen != last[k])
  }

  lemma {:induction false} ChecksPass(s: State, w: nat, junk: nat) returns (run: seq<Step>)
    requires w < |s.workers| && s.workers[w].Checking? && s.workers[w].next <= |s.ks|
    requires forall k :: s.workers[w].next <= k < |s.ks| ==> Passed(s.ks, s.workers[w].last, k)
    ensures var x := s.workers[w];
            && run == seq(|s.ks| - x.next, _ => Check(w, junk)) && Runs(s, run)
            && Exec(s, run) == WithWorker(s, w, Checking(x.batch, x.last, |s.ks|))
    decreases |s.ks| - s.workers[w].next
  {
    var x := s.workers[w];
    run := [];
    if x.next < |s.ks| {
      assert Passed(s.ks, x.last, x.next);
      var s' := Apply(s, Check(w, junk));
      assert s' == WithWorker(s, w, Checking(x.batch, x.last, x.next + 1));
      var rest := ChecksPass(s', w, junk);
      run := [Check(w, junk)] + rest;
      assert run[1..] == rest;
      assert s'.workers[w := Checking(x.batch, x.last, |s.ks|)] == s.workers[w := Checking(x.batch, x.last, |s.ks|)];
    } else {
      assert s.workers[w := x] == s.workers;
    }
  }

  /** With all kthreads started and each parked or rescheduled since it was sampled, one pass over
      them and the closing test release the batch, whatever the rest of the array holds. */
  lemma GraceEnds(s: State, w: nat, junk: nat)
    requires w < |s.workers| && s.workers[w].Checking? && s.workers[w].next == 0 && |s.ks| == s.maxks
    requires forall k :: 0 <= k < |s.ks| ==> Passed(s.ks, s.workers[w].last, k)
    ensures var run := seq(|s.ks|, _ => Check(w, junk)) + [CheckDone(w)];
            Runs(s, run) && Exec(s, run) == WithWorker(s, w, Running(s.workers[w].batch))
  {
    var x := s.workers[w];
    var run := ChecksPass(s, w, junk);
    assert run == seq(|s.ks|, _ => Check(w, junk));
    var s' := Exec(s, run);
    OneStep(s', CheckDone(w));
    RunsConcat(s, run, [CheckDone(w)]);
    assert s'.workers[w := Running(x.batch)] == s.workers[w := Running(x.batch)];
  }

  /** A kthread that is odd and has not moved holds the worker back for ever: no steps of its own,
      however many, get it past that kthread. */
  lemma {:induction false} GraceWaits(s: State, w: nat, k: nat, run: seq<Step>)
    requires w < |s.workers| && s.workers[w].Checking? && s.workers[w].next <= k < |s.workers[w].last|
    requires k < |s.ks| && s.ks[k].gen % 2 == 1 && s.ks[k].gen == s.workers[w].last[k]
    requires Runs(s, run) && forall i :: 0 <= i < |run| ==> run[i] == CheckDone(w) || (run[i].Check? && run[i].w == w)
    ensures var s' := Exec(s, run);
            && w < |s'.workers| && s'.workers[w].Checking? && s'.workers[w].next <= k
            && s' == WithWorker(s, w, s'.workers[w])
    decreases |run|
  {
    if run != [] {
      var s' := Apply(s, run[0]);
      assert s' == WithWorker(s, w, s'.workers[w]);
      GraceWaits(s', w, k, run[1..]);
      var x := Exec(s, run).workers[w];
      assert s'.workers[w := x] == s.workers[w := x];
    } else {
      assert s.workers[w := s.workers[w]] == s.workers;
    }
  }

  // A continuation for every callback

  /** Steps that neither begin a read section nor hand in a callback; sections end only if some are
      open to begin with. */
  predicate Settles(step: Step, reading: bool) {
    !step.EnterRead? && !step.RcuFree? && (step.ExitRead? ==> reading)
  }

  predicate AllSettle(run: seq<Step>, reading: bool) {
    forall i | 0 <= i < |run| :: Settles(run[i], reading)
  }

  lemma SettleConcat(a: seq<Step>, b: seq<Step>, reading: bool)
    requires AllSettle(a, reading) && AllSettle(b, reading)
    ensures AllSettle(a + b, reading)
  {}

  ghost predicate Reading(s: State) {
    exists k :: 0 <= k < |s.ks| && s.ks[k].reading
  }

  predicate Parked(x: KThread) {
    x.gen % 2 == 0 && !x.reading
  }

  /** The remaining kthreads start. */
  lemma {:induction false} AllJoin(s: State) returns (run: seq<Step>)
    requires |s.ks| <= s.maxks
    ensures Runs(s, run) && AllSettle(run, Reading(s))
    ensures var s' := Exec(s, run);
            && |s'.ks| == s.maxks && s' == s.(ks := s'.ks)
            && (forall k :: |s.ks| <= k < |s'.ks| ==> !s'.ks[k].reading)
            && (forall k :: 0 <= k < |s.ks| ==> s'.ks[k] == s.ks[k])
    decreases s.maxks - |s.ks|
  {
    run := [];
    if |s.ks| < s.maxks {
      var s' := Apply(s, Join);
      assert Reading(s') ==> Reading(s);
      var rest := AllJoin(s');
      run := [Join] + rest;
      assert run[1..] == rest;
      SettleConcat([Join], rest, Reading(s));
    }
  }

  /** The first n kthreads leave their read sections and go to the scheduler. */
  lemma {:induction false} AllPark(s: State, n: nat, reading: bool) returns (run: seq<Step>)
    requires n <= |s.ks| && (Reading(s) ==> reading)
    ensures Runs(s, run) && AllSettle(run, reading)
    ensures var s' := Exec(s, run);
            && |s'.ks| == |s.ks| && s' == s.(ks := s'.ks)
            && (forall k :: 0 <= k < n ==> Parked(s'.ks[k]))
            && (forall k :: n <= k < |s.ks| ==> s'.ks[k] == s.ks[k])
    decreases n
  {
    hide Apply, Runs, Exec;
    run := Nothing(s);
    if n > 0 {
      var before := AllPark(s, n - 1, reading);
      var s1 := Exec(s, before);
      var k := n - 1;
      assert s1.ks[k].reading ==> Reading(s);
      var last := Park(s1, k, reading);
      RunsConcat(s, before, last);
      SettleConcat(before, last, reading);
      run := before + last;
    }
  }

  lemma Nothing(s: State) returns (run: seq<Step>)
    ensures run == [] && Runs(s, run) && Exec(s, run) == s
  {
    run := [];
  }

  lemma Park(s: State, k: nat, reading: bool) returns (run: seq<Step>)
    requires k < |s.ks| && (s.ks[k].reading ==> reading)
    ensures Runs(s, run) && AllSettle(run, reading)
    ensures var s' := Exec(s, run); |s'.ks| == |s.ks| && s' == s.(ks := s.ks[k := s'.ks[k]]) && Parked(s'.ks[k])
  {
    run := [];
    var s1 := s;
    if s.ks[k].reading {
      OneStep(s, ExitRead(k));
      run, s1 := [ExitRead(k)], Apply(s, ExitRead(k));
    }
    if s1.ks[k].gen % 2 == 1 {
      OneStep(s1, Advance(k, 1));
      RunsConcat(s, run, [Advance(k, 1)]);
      run := run + [Advance(k, 1)];
    }
  }

  /** All kthreads have started and are in the scheduler. */
  ghost predicate Idle(s: State) {
    |s.ks| == s.maxks && forall k :: 0 <= k < |s.ks| ==> Parked(s.ks[k])
  }

  lemma {:induction false} Samples(s: State, w: nat) returns (run: seq<Step>, last: seq<nat>)
    requires w < |s.workers| && s.workers[w].Sampling? && |s.workers[w].last| <= |s.ks|
    ensures Runs(s, run) && AllSettle(run, false)
    ensures Exec(s, run) == WithWorker(s, w, Checking(s.workers[w].batch, last, 0))
    decreases |s.ks| - |s.workers[w].last|
  {
    var x := s.workers[w];
    if |x.last| < |s.ks| {
      var s' := Apply(s, Sample(w));
      var rest;
      rest, last := Samples(s', w);
      run := [Sample(w)] + rest;
      assert run[1..] == rest;
      SettleConcat([Sample(w)], rest, false);
      assert s'.workers[w := Checking(x.batch, last, 0)] == s.workers[w := Checking(x.batch, last, 0)];
    } else {
      last := x.last;
      OneStep(s, SampleDone(w));
      run := [SampleDone(w)];
    }
  }

  lemma {:induction false} Invokes(s: State, w: nat) returns (run: seq<Step>)
    requires w < |s.workers| && s.workers[w].Running?
    ensures Runs(s, run) && AllSettle(run, false)
    ensures Exec(s, run) == WithWorker(s, w, Resting).(ran := s.ran + s.workers[w].batch)
    decreases |s.workers[w].batch|
  {
    var batch := s.workers[w].batch;
    if batch != [] {
      var s' := Apply(s, Invoke(w));
      var rest := Invokes(s', w);
      run := [Invoke(w)] + rest;
      assert run[1..] == rest;
      SettleConcat([Invoke(w)], rest, false);
      assert s.ran + [batch[0]] + batch[1..] == s.ran + batch;
      assert s'.workers[w := Resting] == s.workers[w := Resting];
    } else {
      OneStep(s, Finish(w));
      run := [Finish(w)];
      assert s.ran + [] == s.ran;
    }
  }

  /** From the second loop on. */
  lemma Releases(s: State, w: nat) returns (run: seq<Step>)
    requires Idle(s) && w < |s.workers| && s.workers[w].Checking? && s.workers[w].next <= |s.ks|
    ensures Runs(s, run) && AllSettle(run, false)
    ensures Exec(s, run) == WithWorker(s, w, Running(s.workers[w].batch))
  {
    var x := s.workers[w];
    var checks := ChecksPass(s, w, 0);
    hide Runs, Exec;
    var s' := Exec(s, checks);
    OneStep(s', CheckDone(w));
    RunsConcat(s, checks, [CheckDone(w)]);
    SettleConcat(checks, [CheckDone(w)], false);
    run := checks + [CheckDone(w)];
    assert s'.workers[w := Running(x.batch)] == s.workers[w := Running(x.batch)];
  }

  /** A worker finishes its batch. */
  lemma {:induction false} Serves(s: State, w: nat) returns (run: seq<Step>)
    requires Idle(s) && Bounded(s) && w < |s.workers|
    ensures Runs(s, run) && AllSettle(run, false)
    ensures Exec(s, run) == WithWorker(s, w, Resting).(ran := s.ran + Batch(s.workers[w]))
    decreases match s.workers[w] case Resting => 0 case Running(_) => 1 case Checking(_, _, _) => 2 case Sampling(_, _) => 3
  {
    hide Runs, Exec;
    var x := s.workers[w];
    if x.Resting? {
      run := Nothing(s);
      assert s.workers[w := Resting] == s.workers && s.ran + [] == s.ran;
    } else if x.Running? {
      run := Invokes(s, w);
    } else {
      var first: seq<Step>;
      if x.Checking? {
        first := Releases(s, w);
      } else {
        var last;
        first, last := Samples(s, w);
      }
      var s' := Exec(s, first);
      var rest := Serves(s', w);
      RunsConcat(s, first, rest);
      SettleConcat(first, rest, false);
      run := first + rest;
      assert s'.workers[w := Resting] == s.workers[w := Resting];
    }
  }

  lemma {:induction false} SomeoneHas(workers: seq<Worker>, c: Callback) returns (w: nat)
    requires InHand(workers, c) > 0
    ensures w < |workers| && c in Batch(workers[w])
    decreases |workers|
  {
    w := |workers| - 1;
    if c !in Batch(workers[w]) {
      w := SomeoneHas(workers[..w], c);
    }
  }

  /** Once all kthreads are in the scheduler, whatever has been handed in and not run is run by the
      steps of a worker. */
  lemma IdleRuns(s: State, c: Callback) returns (run: seq<Step>)
    requires Idle(s) && Bounded(s) && s.workers != [] && Count(s, c) > 0
    ensures Runs(s, run) && AllSettle(run, false) && c in Exec(s, run).ran
  {
    hide Runs, Exec, InHand;
    if c in s.ran {
      run := Nothing(s);
    } else if c in s.pending {
      run := Serves(s, 0);
      var s1 := Exec(s, run);
      OneStep(s1, Take(0));
      RunsConcat(s, run, [Take(0)]);
      SettleConcat(run, [Take(0)], false);
      var s2 := Apply(s1, Take(0));
      var rest := Serves(s2, 0);
      RunsConcat(s, run + [Take(0)], rest);
      SettleConcat(run + [Take(0)], rest, false);
      run := run + [Take(0)] + rest;
    } else {
      var w := SomeoneHas(s.workers, c);
      run := Serves(s, w);
    }
  }

  lemma Settled(s: State) returns (run: seq<Step>)
    requires |s.ks| <= s.maxks && Bounded(s)
    ensures Runs(s, run) && AllSettle(run, Reading(s))
    ensures var s' := Exec(s, run); Idle(s') && Bounded(s') && s' == s.(ks := s'.ks)
  {
    hide Runs, Exec;
    var join := AllJoin(s);
    var s1 := Exec(s, join);
    assert Reading(s1) ==> Reading(s);
    var park := AllPark(s1, |s1.ks|, Reading(s));
    RunsConcat(s, join, park);
    SettleConcat(join, park, Reading(s));
    run := join + park;
  }

  /** Progress.  At any time, every callback that has been handed in has been run, or there is a
      continuation in which it is: kthreads leave the sections they are in, if any, and pass through
      the scheduler, and a worker goes through its loops.  No section needs to begin for it, and if
      none is open none needs to end. */
  lemma CallbackRuns(s: State, before: seq<Step>, c: Callback) returns (run: seq<Step>)
    requires Init(s) && s.workers != [] && Runs(s, before)
    requires c in Exec(s, before).held && |Exec(s, before).ks| <= Exec(s, before).maxks
    ensures var now := Exec(s, before);
            && Runs(now, run) && AllSettle(run, Reading(now))
            && c in Exec(now, run).ran && Occurs(Exec(now, run).ran, c) == 1
  {
    FromStart(s, before);
    WorkersStay(s, before);
    var now := Exec(s, before);
    assert Count(now, c) == 1;
    hide Runs, Exec, Init;
    var settle := Settled(now);
    var idle := Exec(now, settle);
    var serve := IdleRuns(idle, c);
    SettleMore(serve, Reading(now));
    RunsConcat(now, settle, serve);
    SettleConcat(settle, serve, Reading(now));
    run := settle + serve;
    RunKeeps(now, run);
    var end := Exec(now, run);
    assert Count(end, c) <= 1;
  }

  lemma SettleMore(run: seq<Step>, reading: bool)
    requires AllSettle(run, false)
    ensures AllSettle(run, reading)
  {}

  lemma {:induction false} WorkersStay(s: State, run: seq<Step>)
    requires Runs(s, run)
    ensures |Exec(s, run).workers| == |s.workers|
    decreases |run|
  {
    if run != [] {
      WorkersStay(Apply(s, run[0]), run[1..]);
    }
  }
}
