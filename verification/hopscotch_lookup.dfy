/**
 The unlocked lookup of the hopscotch table (local_concurrent_hopscotch.cpp) against
 concurrent writers.  Every write of a displacement is a step of its own, in the order of
 the code; a lookup reads the bucket's timestamp, its bitmap and then one slot after the
 other.  Buckets are locked by the writer that changes them.
 */
module HopscotchLookup {
  import Hopscotch

  type Key = nat

  /** Raw is a pointer to a new block for the key, whose header and key are still to be
      written.  Neither it nor kBusyPtr matches any key. */
  datatype Slot = Empty | Busy | Raw(key: Key) | Item(key: Key)

  /** A displacement of the item key from slot from to slot to; done counts its five
      writes: slot to, bit of to, timestamp, slot from, bit of from. */
  datatype Move = Move(key: Key, from: nat, to: nat, done: nat)

  datatype Lookup =
    | Start
    | Stamped(stamp: nat)
    | Scanning(stamp: nat, rest: set<nat>)
    | LockedScan(rest: set<nat>)
    | Found
    | Missing

  /** moves has the displacements under way by their bucket, whose lock they hold. */
  datatype State = State(
    bitmaps: seq<set<nat>>,
    slots: seq<Slot>,
    stamps: seq<nat>,
    moves: map<nat, Move>,
    lookup: Lookup)

  /** The lookup is for the key k, at home in bucket b. */
  datatype Task = Task(k: Key, b: nat, home: Key -> nat)

  datatype Step =
    | Reserve(i: nat)
    | MoveStart(a: nat, from: nat, to: nat)
    | MoveNext(a: nat)
    | Insert(key: Key, i: nat)
    | Remove(key: Key, i: nat)
    | OverwriteStart(i: nat)
    | OverwriteEnd(i: nat)
    | ReadStamp
    | ReadBitmap
    | Probe(o: nat)
    | Decide(again: bool)

  /** Nobody holds the lock of bucket a: no displacement, no locked lookup and no overwrite. */
  predicate Unlocked(s: State, task: Task, a: nat) {
    && a !in s.moves && !(s.lookup.LockedScan? && a == task.b)
    && forall i | 0 <= i < |s.slots| :: s.slots[i].Raw? ==> task.home(s.slots[i].key) != a
  }

  predicate Enabled(s: State, task: Task, step: Step) {
    match step
    case Reserve(i) => i < |s.slots| && s.slots[i] == Empty
    case MoveStart(a, from, to) =>
      && Unlocked(s, task, a) && a < |s.bitmaps| && a <= from < to < |s.slots| && to - a < Hopscotch.NEIGHBORHOOD
      && from - a in s.bitmaps[a] && s.slots[from].Item? && task.home(s.slots[from].key) == a && s.slots[to] == Busy
    case MoveNext(a) => a in s.moves && InTable(s, a, s.moves[a])
    case Insert(key, i) =>
      && var a := task.home(key);
         && Unlocked(s, task, a) && a < |s.bitmaps| && a <= i < |s.slots| && i - a < Hopscotch.NEIGHBORHOOD
         && s.slots[i] == Busy && key != task.k
    case Remove(key, i) =>
      && var a := task.home(key);
         Unlocked(s, task, a) && a < |s.bitmaps| && a <= i < |s.slots| && s.slots[i] == Item(key)
    case OverwriteStart(i) => i < |s.slots| && s.slots[i].Item? && Unlocked(s, task, task.home(s.slots[i].key))
    case OverwriteEnd(i) => i < |s.slots| && s.slots[i].Raw?
    case ReadStamp => s.lookup.Start? && task.b < |s.stamps|
    case ReadBitmap => s.lookup.Stamped? && task.b < |s.bitmaps|
    case Probe(o) =>
      && (s.lookup.Scanning? || s.lookup.LockedScan?) && o in s.lookup.rest && task.b + o < |s.slots|
    case Decide(again) =>
      && (s.lookup.Scanning? || s.lookup.LockedScan?) && s.lookup.rest == {}
      && task.b < |s.stamps| && task.b < |s.bitmaps|
      // The slow path has to get the lock first.
      && (s.lookup.Scanning? && s.stamps[task.b] != s.lookup.stamp && !again ==> Unlocked(s, task, task.b))
  }

  predicate InTable(s: State, a: nat, m: Move) {
    a < |s.bitmaps| && a < |s.stamps| && a <= m.to && a <= m.from < |s.slots|
  }

  function Apply(s: State, task: Task, step: Step): State
    requires Enabled(s, task, step)
  {
    match step
    case Reserve(i) => s.(slots := s.slots[i := Busy])
    case MoveStart(a, from, to) =>
      s.(slots := s.slots[to := s.slots[from]], moves := s.moves[a := Move(s.slots[from].key, from, to, 1)])
    case MoveNext(a) => Continue(s, a, s.moves[a])
    case Insert(key, i) =>
      var a := task.home(key);
      s.(slots := s.slots[i := Item(key)], bitmaps := s.bitmaps[a := s.bitmaps[a] + {i - a}])
    case Remove(key, i) =>
      var a := task.home(key);
      s.(slots := s.slots[i := Empty], bitmaps := s.bitmaps[a := s.bitmaps[a] - {i - a}])
    case OverwriteStart(i) => s.(slots := s.slots[i := Raw(s.slots[i].key)])
    case OverwriteEnd(i) => s.(slots := s.slots[i := Item(s.slots[i].key)])
    case ReadStamp => s.(lookup := Stamped(s.stamps[task.b]))
    case ReadBitmap => s.(lookup := Scanning(s.lookup.stamp, s.bitmaps[task.b]))
    case Probe(o) =>
      if s.slots[task.b + o] == Item(task.k) then s.(lookup := Found)
      else s.(lookup := s.lookup.(rest := s.lookup.rest - {o}))
    case Decide(again) =>
      if s.lookup.LockedScan? || s.stamps[task.b] == s.lookup.stamp then s.(lookup := Missing)
      else if again then s.(lookup := Start)
      else s.(lookup := LockedScan(s.bitmaps[task.b]))
  }

  /** The next write of the displacement anchored at a. */
  function Continue(s: State, a: nat, m: Move): State
    requires InTable(s, a, m)
  {
    var on := s.(moves := s.moves[a := m.(done := m.done + 1)]);
    if m.done == 1 then on.(bitmaps := s.bitmaps[a := s.bitmaps[a] + {m.to - a}])
    else if m.done == 2 then on.(stamps := s.stamps[a := s.stamps[a] + 1])
    else if m.done == 3 then on.(slots := s.slots[m.from := Busy])
    else s.(bitmaps := s.bitmaps[a := s.bitmaps[a] - {m.from - a}], moves := s.moves - {a})
  }

  // ----- Where the key can be found --------------------------------------------------------

  /** The slot in which the key is and stays until the timestamp of its bucket changes: the
      old one until a displacement has announced itself, the new one from then on.  While it is
      being overwritten, the bucket is locked. */
  predicate Stable(s: State, task: Task, at: nat) {
    && task.b < |s.bitmaps| && task.b <= at < |s.slots| && at - task.b < Hopscotch.NEIGHBORHOOD
    && (s.slots[at] == Item(task.k) || s.slots[at] == Raw(task.k)) && at - task.b in s.bitmaps[task.b]
    && (s.slots[at].Raw? ==> task.b !in s.moves && !s.lookup.LockedScan?)
    && (task.b in s.moves && s.moves[task.b].key == task.k ==>
          at == if s.moves[task.b].done <= 2 then s.moves[task.b].from else s.moves[task.b].to)
  }

  ghost predicate Shape(s: State, task: Task) {
    |s.bitmaps| == |s.slots| == |s.stamps| && task.b < |s.bitmaps| && task.home(task.k) == task.b
  }

  /** A displacement under way: its item is where its writes so far have put it. */
  ghost predicate MoveOk(s: State, task: Task, a: nat)
    requires a in s.moves
  {
    var m := s.moves[a];
    && a < |s.bitmaps| && 1 <= m.done <= 4 && a <= m.from < m.to < |s.slots| && m.to - a < Hopscotch.NEIGHBORHOOD
    && task.home(m.key) == a && s.slots[m.to] == Item(m.key) && (m.done <= 3 ==> s.slots[m.from] == Item(m.key))
    && (m.done >= 2 ==> m.to - a in s.bitmaps[a])
    && (m.done == 4 && a == task.b ==> s.slots[m.from] != Item(task.k))
  }

  /** The key is nowhere else, except twice during its own displacement. */
  ghost predicate Alone(s: State, task: Task, at: nat, i: nat) {
    && (i < |s.slots| && s.slots[i] == Raw(task.k) ==> i == at)
    && (i < |s.slots| && s.slots[i] == Item(task.k) ==>
          i == at || (task.b in s.moves && (i == s.moves[task.b].from || i == s.moves[task.b].to)))
  }

  ghost predicate Inv(s: State, task: Task, at: nat) {
    && Shape(s, task) && Stable(s, task, at)
    && (forall a :: a in s.moves ==> MoveOk(s, task, a))
    && (forall i :: 0 <= i < |s.slots| ==> Alone(s, task, at, i))
  }

  /** The lookup has the key's slot ahead of it, or will notice that the timestamp has changed. */
  ghost predicate Hopeful(s: State, task: Task, at: nat)
    requires Shape(s, task)
  {
    match s.lookup
    case Start => true
    case Stamped(stamp) => stamp <= s.stamps[task.b]
    case Scanning(stamp, rest) => stamp <= s.stamps[task.b] && (stamp == s.stamps[task.b] ==> at - task.b in rest)
    case LockedScan(rest) => task.b !in s.moves && at - task.b in rest
    case Found => true
    case Missing => false
  }

  /** The key stays, and the lookup does not read the slot of its new block before the key is
      in it. */
  predicate Harmless(s: State, task: Task, step: Step)
    requires Enabled(s, task, step)
  {
    (step.Remove? ==> step.key != task.k) && (step.Probe? ==> s.slots[task.b + step.o] != Raw(task.k))
  }

  /** Where the key stays after the step. */
  function NextAt(s: State, task: Task, at: nat, step: Step): nat {
    if step == MoveNext(task.b) && task.b in s.moves && s.moves[task.b].key == task.k && s.moves[task.b].done == 2
    then s.moves[task.b].to else at
  }

  lemma KeepsStable(s: State, task: Task, at: nat, step: Step)
    requires Inv(s, task, at) && Enabled(s, task, step) && Harmless(s, task, step)
    ensures Shape(Apply(s, task, step), task) && Stable(Apply(s, task, step), task, NextAt(s, task, at, step))
  {
    match step
    case MoveStart(a, from, to) =>
      assert Alone(s, task, at, from);
    case MoveNext(a) =>
      assert MoveOk(s, task, a);
      MoveNextStable(s, task, at, a);
    case _ =>
  }

  lemma MoveNextStable(s: State, task: Task, at: nat, a: nat)
    requires Shape(s, task) && Stable(s, task, at) && a in s.moves && MoveOk(s, task, a)
    ensures var s' := Continue(s, a, s.moves[a]); Shape(s', task) && Stable(s', task, NextAt(s, task, at, MoveNext(a)))
  {}

  lemma KeepsMoves(s: State, task: Task, at: nat, step: Step, a: nat)
    requires Inv(s, task, at) && Enabled(s, task, step) && Harmless(s, task, step) && a in Apply(s, task, step).moves
    ensures MoveOk(Apply(s, task, step), task, a)
  {
    hide Alone;
    if a in s.moves {
      assert MoveOk(s, task, a);
    }
    if step.OverwriteEnd? {
      if s.slots[step.i] == Raw(task.k) {
        OnlyRaw(s, task, at, step.i);
      }
      hide Inv;
      OverwriteKeepsMoves(s, task, step, a);
    } else if step.OverwriteStart? {
      hide Inv;
      OverwriteKeepsMoves(s, task, step, a);
    } else if step.MoveNext? {
      MoveNextKeeps(s, task, step.a, a);
    } else if step.Probe? || step.Decide? || step.ReadStamp? || step.ReadBitmap? {
      hide Inv;
      LookupKeepsMoves(s, task, step, a);
    } else {
      WriteKeepsMoves(s, task, step, a);
    }
  }

  lemma OverwriteKeepsMoves(s: State, task: Task, step: Step, a: nat)
    requires (step.OverwriteStart? || step.OverwriteEnd?) && Enabled(s, task, step) && a in s.moves && MoveOk(s, task, a)
    requires step.OverwriteEnd? && s.slots[step.i] == Raw(task.k) ==> task.b !in s.moves
    ensures a in Apply(s, task, step).moves && MoveOk(Apply(s, task, step), task, a)
  {}

  lemma LookupKeepsMoves(s: State, task: Task, step: Step, a: nat)
    requires step.Probe? || step.Decide? || step.ReadStamp? || step.ReadBitmap?
    requires Enabled(s, task, step) && a in s.moves && MoveOk(s, task, a)
    ensures a in Apply(s, task, step).moves && MoveOk(Apply(s, task, step), task, a)
  {}

  lemma WriteKeepsMoves(s: State, task: Task, step: Step, a: nat)
    requires Enabled(s, task, step) && Harmless(s, task, step) && Shape(s, task)
    requires step.Reserve? || step.MoveStart? || step.Insert? || step.Remove?
    requires a in s.moves ==> MoveOk(s, task, a)
    requires a in Apply(s, task, step).moves
    ensures MoveOk(Apply(s, task, step), task, a)
  {}

  lemma OnlyRaw(s: State, task: Task, at: nat, i: nat)
    requires Inv(s, task, at) && i < |s.slots| && s.slots[i] == Raw(task.k)
    ensures i == at
  {
    assert Alone(s, task, at, i);
  }

  /** A write of one displacement leaves the others as they are: their items have other homes. */
  lemma MoveNextKeeps(s: State, task: Task, x: nat, a: nat)
    requires Shape(s, task) && x in s.moves && MoveOk(s, task, x)
    requires a in s.moves && MoveOk(s, task, a) && a in Continue(s, x, s.moves[x]).moves
    ensures MoveOk(Continue(s, x, s.moves[x]), task, a)
  {}

  lemma KeepsAlone(s: State, task: Task, at: nat, step: Step, i: nat)
    requires Inv(s, task, at) && Enabled(s, task, step) && Harmless(s, task, step) && i < |s.slots|
    ensures Alone(Apply(s, task, step), task, NextAt(s, task, at, step), i)
  {
    assert Alone(s, task, at, i);
    match step
    case MoveStart(a, from, to) => assert Alone(s, task, at, from);
    case MoveNext(a) =>
      assert MoveOk(s, task, a);
      hide Inv;
      MoveNextAlone(s, task, at, a, i);
    case _ =>
  }

  lemma MoveNextAlone(s: State, task: Task, at: nat, a: nat, i: nat)
    requires Shape(s, task) && Stable(s, task, at) && a in s.moves && MoveOk(s, task, a) && InTable(s, a, s.moves[a])
    requires Alone(s, task, at, i)
    ensures Alone(Continue(s, a, s.moves[a]), task, NextAt(s, task, at, MoveNext(a)), i)
  {}

  lemma KeepsHope(s: State, task: Task, at: nat, step: Step)
    requires Inv(s, task, at) && Hopeful(s, task, at) && Enabled(s, task, step) && Harmless(s, task, step)
    requires Shape(Apply(s, task, step), task)
    ensures Hopeful(Apply(s, task, step), task, NextAt(s, task, at, step))
  {
    match step
    case MoveNext(a) => assert MoveOk(s, task, a);
    case _ =>
  }

  lemma StepKeeps(s: State, task: Task, at: nat, step: Step)
    requires Inv(s, task, at) && Hopeful(s, task, at) && Enabled(s, task, step) && Harmless(s, task, step)
    ensures var s', at' := Apply(s, task, step), NextAt(s, task, at, step); Inv(s', task, at') && Hopeful(s', task, at')
  {
    KeepsStable(s, task, at, step);
    KeepsHope(s, task, at, step);
    var s', at' := Apply(s, task, step), NextAt(s, task, at, step);
    hide Stable, MoveOk, Alone, NextAt, Hopeful;
    forall a | a in s'.moves ensures MoveOk(s', task, a) {
      KeepsMoves(s, task, at, step, a);
    }
    forall i | 0 <= i < |s'.slots| ensures Alone(s', task, at', i) {
      KeepsAlone(s, task, at, step, i);
    }
  }

  // ----- Runs -------------------------------------------------------------------------------

  predicate Runs(s: State, task: Task, run: seq<Step>)
    decreases |run|
  {
    run == [] || (Enabled(s, task, run[0]) && Runs(Apply(s, task, run[0]), task, run[1..]))
  }

  function Exec(s: State, task: Task, run: seq<Step>): State
    requires Runs(s, task, run)
    decreases |run|
  {
    if run == [] then s else Exec(Apply(s, task, run[0]), task, run[1..])
  }

  /** The key stays all along, and no probe meets its new block too early. */
  predicate Undisturbed(s: State, task: Task, run: seq<Step>)
    requires Runs(s, task, run)
    decreases |run|
  {
    run == [] || (Harmless(s, task, run[0]) && Undisturbed(Apply(s, task, run[0]), task, run[1..]))
  }

  /** A table in which no displacement is under way and the bucket is not locked, the key sits in
      slot at, the bits of the bucket are in range, and a lookup begins. */
  ghost predicate Init(s: State, task: Task, at: nat) {
    && Shape(s, task) && s.moves == map[] && s.lookup == Start && Unlocked(s, task, task.b)
    && task.b <= at < |s.slots| && at - task.b < Hopscotch.NEIGHBORHOOD && at - task.b in s.bitmaps[task.b]
    && (forall i :: 0 <= i < |s.slots| ==> (s.slots[i] == Item(task.k) <==> i == at))
    && (forall o :: o in s.bitmaps[task.b] ==> task.b + o < |s.slots|)
  }

  lemma {:induction false} RunKeeps(s: State, task: Task, at: nat, run: seq<Step>) returns (at': nat)
    requires Inv(s, task, at) && Hopeful(s, task, at) && Runs(s, task, run) && Undisturbed(s, task, run)
    ensures Inv(Exec(s, task, run), task, at') && Hopeful(Exec(s, task, run), task, at')
    decreases |run|
  {
    hide Stable, MoveOk, Alone, NextAt, Hopeful, Apply, Enabled, Harmless;
    if run == [] {
      at' := at;
    } else {
      StepKeeps(s, task, at, run[0]);
      at' := RunKeeps(Apply(s, task, run[0]), task, NextAt(s, task, at, run[0]), run[1..]);
    }
  }

  /** Whatever displacements, insertions, removals of other keys and overwrites are under way or
      happen meanwhile, a lookup never reports a key missing that is present throughout, unless one of its probes
      meets the key's new block before the key is in it. */
  lemma NeverMissed(s: State, task: Task, at: nat, run: seq<Step>)
    requires Inv(s, task, at) && s.lookup == Start && Runs(s, task, run) && Undisturbed(s, task, run)
    ensures !Exec(s, task, run).lookup.Missing?
  {
    var at' := RunKeeps(s, task, at, run);
  }

  lemma InitInv(s: State, task: Task, at: nat)
    requires Init(s, task, at)
    ensures Inv(s, task, at) && NoRaw(s, task.k)
  {}

  // ----- Overwrites -----------------------------------------------------------------------------

  /** The key is not removed in the run. */
  predicate Kept(run: seq<Step>, k: Key) {
    forall i | 0 <= i < |run| :: run[i].Remove? ==> run[i].key != k
  }

  /** No overwrite of the key with a value of another length begins in the run. */
  predicate NotOverwritten(s: State, task: Task, run: seq<Step>)
    requires Runs(s, task, run)
    decreases |run|
  {
    run == [] ||
    ((run[0].OverwriteStart? ==> s.slots[run[0].i] != Item(task.k)) &&
     NotOverwritten(Apply(s, task, run[0]), task, run[1..]))
  }

  predicate NoRaw(s: State, k: Key) {
    forall i | 0 <= i < |s.slots| :: s.slots[i] != Raw(k)
  }

  lemma StaysWhole(s: State, task: Task, step: Step)
    requires Enabled(s, task, step) && NoRaw(s, task.k)
    requires step.OverwriteStart? ==> s.slots[step.i] != Item(task.k)
    ensures NoRaw(Apply(s, task, step), task.k)
  {}

  /** Without such an overwrite, no probe can meet a new block of the key. */
  lemma {:induction false} WholeIsUndisturbed(s: State, task: Task, run: seq<Step>)
    requires Runs(s, task, run) && Kept(run, task.k) && NotOverwritten(s, task, run) && NoRaw(s, task.k)
    ensures Undisturbed(s, task, run)
    decreases |run|
  {
    hide Apply, Enabled;
    if run != [] {
      StaysWhole(s, task, run[0]);
      ProbesWhole(s, task, run[0]);
      WholeIsUndisturbed(Apply(s, task, run[0]), task, run[1..]);
    }
  }

  lemma ProbesWhole(s: State, task: Task, step: Step)
    requires Enabled(s, task, step) && NoRaw(s, task.k) && (step.Remove? ==> step.key != task.k)
    ensures Harmless(s, task, step)
  {}

  /** From the middle of a scan that meets the key nowhere, the lookup can go on to its end. */
  lemma {:induction false} ScanToEnd(s: State, task: Task, rest: set<nat>) returns (run: seq<Step>)
    requires Shape(s, task) && s.lookup == Scanning(s.stamps[task.b], rest)
    requires forall o :: o in rest ==> task.b + o < |s.slots| && s.slots[task.b + o] != Item(task.k)
    ensures Runs(s, task, run) && Exec(s, task, run).lookup == Missing && Kept(run, task.k)
    decreases rest
  {
    if rest == {} {
      run := [Decide(false)];
      OneStep(s, task, Decide(false), []);
    } else {
      var o :| o in rest;
      var s' := Apply(s, task, Probe(o));
      var more := ScanToEnd(s', task, rest - {o});
      OneStep(s, task, Probe(o), more);
      run := [Probe(o)] + more;
    }
  }

  /** Every such table has a run in which an overwrite hides the key from a lookup: the bucket's
      timestamp stands still meanwhile. */
  lemma OverwriteHides(s: State, task: Task, at: nat) returns (run: seq<Step>)
    requires Init(s, task, at)
    ensures Runs(s, task, run) && Kept(run, task.k) && Exec(s, task, run).lookup == Missing
  {
    var s1 := Apply(s, task, OverwriteStart(at));
    var s2 := Apply(s1, task, ReadStamp);
    var s3 := Apply(s2, task, ReadBitmap);
    var more := ScanToEnd(s3, task, s.bitmaps[task.b]);
    OneStep(s2, task, ReadBitmap, more);
    OneStep(s1, task, ReadStamp, [ReadBitmap] + more);
    OneStep(s, task, OverwriteStart(at), [ReadStamp] + ([ReadBitmap] + more));
    run := [OverwriteStart(at)] + ([ReadStamp] + ([ReadBitmap] + more));
  }

  /** So for every table, lookups of a key that is not removed always find it if and only if
      overwrites of the key with values of other lengths are excluded. */
  lemma MissedExactly(s: State, task: Task, at: nat, overwrites: bool)
    requires Init(s, task, at)
    ensures (forall run :: Runs(s, task, run) && Kept(run, task.k) && (overwrites || NotOverwritten(s, task, run)) ==>
               !Exec(s, task, run).lookup.Missing?) <==> !overwrites
  {
    if overwrites {
      var run := OverwriteHides(s, task, at);
    } else {
      forall run | Runs(s, task, run) && Kept(run, task.k) && NotOverwritten(s, task, run)
        ensures !Exec(s, task, run).lookup.Missing?
      {
        InitInv(s, task, at);
        WholeIsUndisturbed(s, task, run);
        NeverMissed(s, task, at, run);
      }
    }
  }

  // ----- Lookups end ------------------------------------------------------------------------------

  predicate OwnStep(step: Step) {
    step.ReadStamp? || step.ReadBitmap? || step.Probe? || step.Decide?
  }

  predicate OwnSteps(run: seq<Step>) {
    forall i | 0 <= i < |run| :: OwnStep(run[i])
  }

  /** The offsets still to be looked at are in the table. */
  ghost predicate RestInTable(s: State, task: Task)
    requires task.b < |s.bitmaps|
  {
    && (forall o :: o in s.bitmaps[task.b] ==> task.b + o < |s.slots|)
    && (s.lookup.Scanning? || s.lookup.LockedScan? ==> forall o :: o in s.lookup.rest ==> task.b + o < |s.slots|)
  }

  /** Looking at the key's slot finds it. */
  lemma ProbeFinds(s: State, task: Task, at: nat) returns (run: seq<Step>)
    requires Inv(s, task, at) && s.slots[at] == Item(task.k)
    requires (s.lookup.Scanning? || s.lookup.LockedScan?) && at - task.b in s.lookup.rest
    ensures Runs(s, task, run) && OwnSteps(run) && Exec(s, task, run).lookup == Found
  {
    OneStep(s, task, Probe(at - task.b), []);
    run := [Probe(at - task.b)];
  }

  lemma Prepended(s: State, task: Task, step: Step, run: seq<Step>) returns (all: seq<Step>)
    requires Enabled(s, task, step) && OwnStep(step) && OwnSteps(run)
    requires Runs(Apply(s, task, step), task, run) && Exec(Apply(s, task, step), task, run).lookup == Found
    ensures Runs(s, task, all) && OwnSteps(all) && Exec(s, task, all).lookup == Found
  {
    OneStep(s, task, step, run);
    all := [step] + run;
  }

  /** The lookup is where it is, and nothing else changes. */
  lemma OwnStepKeeps(s: State, task: Task, at: nat, step: Step)
    requires Inv(s, task, at) && s.slots[at] == Item(task.k) && Unlocked(s, task, task.b)
    requires OwnStep(step) && Enabled(s, task, step)
    ensures var s' := Apply(s, task, step);
            && s' == s.(lookup := s'.lookup) && Inv(s', task, at)
            && (!s'.lookup.LockedScan? ==> Unlocked(s', task, task.b))
  {
    var s' := Apply(s, task, step);
    forall a | a in s'.moves ensures MoveOk(s', task, a) {
      assert MoveOk(s, task, a);
    }
    forall i | 0 <= i < |s'.slots| ensures Alone(s', task, at, i) {
      assert Alone(s, task, at, i);
    }
  }

  /** When no writer is at work in the bucket, a lookup that has got anywhere finds the key by its own
      steps: at the latest on the slow path, under the lock. */
  lemma {:induction false} LookupEnds(s: State, task: Task, at: nat) returns (run: seq<Step>)
    requires Inv(s, task, at) && s.slots[at] == Item(task.k) && Hopeful(s, task, at) && RestInTable(s, task)
    requires !s.lookup.LockedScan? ==> Unlocked(s, task, task.b)
    ensures Runs(s, task, run) && OwnSteps(run) && Exec(s, task, run).lookup == Found
    decreases match s.lookup case Start => 3 case Stamped(_) => 2 case Scanning(_, _) => 1 case _ => 0,
              if s.lookup.Scanning? then s.lookup.rest else {}
  {
    hide MoveOk, Alone;
    match s.lookup
    case Found => run := [];
    case LockedScan(rest) => run := ProbeFinds(s, task, at);
    case Start =>
      OwnStepKeeps(s, task, at, ReadStamp);
      var more := LookupEnds(Apply(s, task, ReadStamp), task, at);
      run := Prepended(s, task, ReadStamp, more);
    case Stamped(_) =>
      OwnStepKeeps(s, task, at, ReadBitmap);
      var more := LookupEnds(Apply(s, task, ReadBitmap), task, at);
      run := Prepended(s, task, ReadBitmap, more);
    case Scanning(stamp, rest) =>
      if at - task.b in rest {
        run := ProbeFinds(s, task, at);
      } else if o :| o in rest {
        OwnStepKeeps(s, task, at, Probe(o));
        var more := LookupEnds(Apply(s, task, Probe(o)), task, at);
        run := Prepended(s, task, Probe(o), more);
      } else {
        OwnStepKeeps(s, task, at, Decide(false));
        var more := LookupEnds(Apply(s, task, Decide(false)), task, at);
        run := Prepended(s, task, Decide(false), more);
      }
  }

  lemma OneStep(s: State, task: Task, step: Step, run: seq<Step>)
    requires Enabled(s, task, step) && Runs(Apply(s, task, step), task, run)
    ensures Runs(s, task, [step] + run) && Exec(s, task, [step] + run) == Exec(Apply(s, task, step), task, run)
  {
    assert ([step] + run)[1..] == run;
  }
}
