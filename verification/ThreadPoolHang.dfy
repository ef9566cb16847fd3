/** Whether the joins of `shutdown_threads` finish: every run ends after the flag is cleared, and
    the states from which it can end with a worker asleep are known exactly. */
module ThreadPoolHang {
  import opened ThreadPool
  import opened ThreadPoolInvariant
  import opened ThreadPoolTheorems
  import opened ThreadPoolShutdown

  /** The joins are never over, and no thread faults either. */
  ghost predicate Stuck(s: State) {
    forall t :: Follows(s, t) ==> !t.main.Joined? && !t.crashed
  }

  /** If the flag is cleared in state `s`, a state can follow from which the joins never finish. */
  ghost predicate CanHang(s: State)
    requires CanStep(s, Shutdown)
  {
    exists t :: Follows(Apply(false, s, Shutdown), t) && Stuck(t)
  }

  /** The main thread is joining and a worker sleeps. */
  ghost predicate Hung(s: State) {
    !s.crashed && s.main.Join? && exists w :: 0 <= w < |s.workers| && s.workers[w].pc.Asleep?
  }

  /** Nothing can happen any more, spurious wakeups apart. */
  ghost predicate AtEnd(s: State) {
    forall a :: CanStep(s, a) ==> a.SpuriousWake?
  }

  // ----- Who can still fall asleep -----

  /** Past lines 51 to 54: with the flag down such a worker never sleeps again. */
  predicate NoSleep(pc: Pc) {
    !pc.LockMutex? && !pc.TestList? && !pc.Asleep?
  }

  function NoSleeper(me: Worker): int {
    if NoSleep(me.pc) then 1 else 0
  }

  /** The signals of lines 111-112 sent so far. */
  function Sent(s: State): int {
    match s.main
    case SignalShutdown(k) => k
    case Join(_) => |s.workers|
    case Joined => |s.workers|
    case _ => 0
  }

  /** Worker `w` will not be asleep when the joins start: while it still sleeps, every signal sent
      has reached another worker, which will not sleep again. */
  ghost predicate Leaving(s: State, w: nat)
    requires w < |s.workers|
  {
    var pc := s.workers[w].pc;
    NoSleep(pc) || (pc.Asleep? && Sent(s) <= Sum(s.workers, NoSleeper))
  }

  lemma NoSleepIsKept(s: State, w: nat)
    requires !s.enabled && CanStep(s, Step(w)) && NoSleep(s.workers[w].pc)
    ensures NoSleep(WorkerStep(false, s, w).workers[w].pc)
  {
  }

  lemma SentStep(s: State, a: Action)
    requires CanStep(s, a) && !s.enabled && MainOk(s)
    ensures var t := Apply(false, s, a);
            !t.enabled && Sent(t) == Sent(s) + if a.Signal? then 1 else 0
  {
    if a.Step? {
      StepFrame(false, s, a.w);
    }
  }

  lemma LeavingStep(s: State, a: Action, w: nat)
    requires CanStep(s, a) && !a.SpuriousWake? && !s.enabled && MainOk(s)
    requires w < |s.workers| && Leaving(s, w)
    ensures Leaving(Apply(false, s, a), w)
  {
    var t := Apply(false, s, a);
    SentStep(s, a);
    match a
    case Step(v) =>
      WorkersMoved(false, s, v);
      SumUpdate(s.workers, v, t.workers[v], NoSleeper);
      if NoSleep(s.workers[v].pc) {
        NoSleepIsKept(s, v);
      }
    case Signal(Some(v)) =>
      SumUpdate(s.workers, v, t.workers[v], NoSleeper);
    case _ =>
  }

  lemma {:induction false} SumAtMost(ws: seq<Worker>)
    ensures Sum(ws, NoSleeper) <= |ws|
    ensures (exists w :: 0 <= w < |ws| && !NoSleep(ws[w].pc)) ==> Sum(ws, NoSleeper) < |ws|
  {
    if ws != [] {
      SumAtMost(ws[..|ws| - 1]);
    }
  }

  lemma NotAsleepInJoin(s: State, w: nat)
    requires w < |s.workers| && Leaving(s, w) && s.main.Join?
    ensures !s.workers[w].pc.Asleep?
  {
    SumAtMost(s.workers);
  }

  // ----- What is left in the list -----

  /** The items that nobody is about to take. */
  ghost function Unclaimed(s: State): int {
    |s.queue| - Claims(s)
  }

  lemma UnclaimedStep(s: State, a: Action)
    requires CanStep(s, a) && !s.enabled && MutexOk(s) && MainOk(s)
    ensures Unclaimed(Apply(false, s, a)) == Unclaimed(s)
  {
    var t := Apply(false, s, a);
    match a
    case Step(w) =>
      StepFrame(false, s, w);
      UnclaimedWorkerStep(s, w);
    case SpuriousWake(w) => ClaimsFrame(s, t, w);
    case Signal(Some(w)) => ClaimsFrame(s, t, w);
    case _ => SameClaims(s, t);
  }

  lemma SameClaims(s: State, t: State)
    requires t.workers == s.workers
    ensures Claims(t) == Claims(s)
  {
  }

  lemma ClaimsFrame(s: State, t: State, w: nat)
    requires w < |s.workers| == |t.workers|
    requires forall v :: 0 <= v < |s.workers| && v != w ==> t.workers[v].pc == s.workers[v].pc
    requires t.workers[w].pc.TakeHead? <==> s.workers[w].pc.TakeHead?
    ensures Claims(t) == Claims(s)
  {
    assert forall v :: 0 <= v < |s.workers| ==> (t.workers[v].pc.TakeHead? <==> s.workers[v].pc.TakeHead?);
  }

  lemma UnclaimedWorkerStep(s: State, w: nat)
    requires CanStep(s, Step(w)) && !s.enabled && MutexOk(s)
    ensures Unclaimed(WorkerStep(false, s, w)) == Unclaimed(s)
  {
    StepFrame(false, s, w);
    var t := WorkerStep(false, s, w);
    if s.workers[w].pc.TakeHead? && s.queue != [] {
      assert forall v :: 0 <= v < |s.workers| && v != w ==> !t.workers[v].pc.TakeHead?;
      assert !t.workers[w].pc.TakeHead?;
    } else {
      assert t.queue == s.queue;
      ClaimsFrame(s, t, w);
    }
  }

  /** A worker that slept only after the flag was cleared found the list empty and unclaimed. */
  ghost predicate SleptOnNothing(s: State, w: nat)
    requires w < |s.workers|
  {
    s.workers[w].pc.Asleep? ==> Unclaimed(s) == 0
  }

  lemma SleptStep(s: State, a: Action, w: nat)
    requires CanStep(s, a) && !s.enabled && MutexOk(s) && MainOk(s)
    requires w < |s.workers| && SleptOnNothing(s, w)
    ensures SleptOnNothing(Apply(false, s, a), w)
  {
    UnclaimedStep(s, a);
    if a.Step? {
      StepFrame(false, s, a.w);
      if a.w == w && s.workers[w].pc.TestList? {
        assert s.queue == [] ==> Unclaimed(s) == 0;
      }
    }
  }

  // ----- A hang needs ... -----

  /** What every state after the flag is cleared keeps. */
  ghost predicate Down(s: State) {
    !s.enabled && Inv(false, s) && (s.main.SignalShutdown? ==> s.main.k < |s.workers|)
  }

  lemma DownStep(s: State, a: Action)
    requires Down(s) && CanStep(s, a)
    ensures Down(Apply(false, s, a))
  {
    InvStep(false, s, a);
    if a.Step? {
      StepFrame(false, s, a.w);
    }
  }

  /** Along a quiet path with the flag down. */
  lemma {:induction false} Along(path: seq<State>, acts: seq<Action>, k: nat)
    requires IsQuietPath(path, acts) && k <= |acts| && Down(path[0])
    ensures Down(path[k]) && |path[k].workers| == |path[0].workers|
    ensures Unclaimed(path[k]) == Unclaimed(path[0])
    decreases k
  {
    if k > 0 {
      Along(path, acts, k - 1);
      DownStep(path[k - 1], acts[k - 1]);
      UnclaimedStep(path[k - 1], acts[k - 1]);
    }
  }

  lemma {:induction false} AlongWorker(path: seq<State>, acts: seq<Action>, k: nat, w: nat)
    requires IsQuietPath(path, acts) && k <= |acts| && Down(path[0]) && w < |path[0].workers| == |path[k].workers|
    ensures Leaving(path[0], w) ==> Leaving(path[k], w)
    ensures SleptOnNothing(path[0], w) ==> SleptOnNothing(path[k], w)
    decreases k
  {
    if k > 0 {
      var s, a := path[k - 1], acts[k - 1];
      Along(path, acts, k - 1);
      AlongWorker(path, acts, k - 1, w);
      if Leaving(s, w) {
        LeavingStep(s, a, w);
      }
      if SleptOnNothing(s, w) {
        SleptStep(s, a, w);
      }
    }
  }

  /** Worker `w` has passed line 51 and not yet line 53. */
  predicate Between(s: State, w: nat)
    requires w < |s.workers|
  {
    s.workers[w].pc.LockMutex? || s.workers[w].pc.TestList?
  }

  /** A worker that sleeps in the joins was between lines 51 and 53, and found nothing to take. */
  lemma SleeperNeeds(down: State, path: seq<State>, acts: seq<Action>, w: nat)
    requires Down(down) && down.main != Joined && Sent(down) == 0
    requires IsQuietPath(path, acts) && path[0] == down && path[|acts|].main.Join?
    requires w < |path[|acts|].workers| && path[|acts|].workers[w].pc.Asleep?
    ensures w < |down.workers| && Between(down, w) && Unclaimed(down) == 0
  {
    Along(path, acts, |acts|);
    AlongWorker(path, acts, |acts|, w);
    if Leaving(down, w) {
      NotAsleepInJoin(path[|acts|], w);
    }
    SumIsNatural(down.workers);
    assert Between(down, w);
  }

  lemma {:induction false} SumIsNatural(ws: seq<Worker>)
    ensures 0 <= Sum(ws, NoSleeper)
  {
    if ws != [] {
      SumIsNatural(ws[..|ws| - 1]);
    }
  }

  lemma FlagDown(s: State)
    requires Inv(false, s) && CanStep(s, Shutdown)
    ensures var t := Apply(false, s, Shutdown);
            && Down(t) && t.workers == s.workers && t.mutex == s.mutex && t.queue == s.queue && !t.crashed
            && Unclaimed(t) == Unclaimed(s)
            && t.main == if |s.workers| > 0 then SignalShutdown(0) else Join(0)
  {
    InvStep(false, s, Shutdown);
  }

  lemma HangNeeds(s: State, t: State)
    requires Inv(false, s) && CanStep(s, Shutdown)
    requires Follows(Apply(false, s, Shutdown), t) && Hung(t)
    ensures Unclaimed(s) == 0 && exists w :: 0 <= w < |s.workers| && Between(s, w)
  {
    var down := Apply(false, s, Shutdown);
    FlagDown(s);
    var path: seq<State>, acts: seq<Action> :|
      IsQuietPath(path, acts) && path[0] == down && path[|acts|] == t;
    var w :| 0 <= w < |t.workers| && t.workers[w].pc.Asleep?;
    Along(path, acts, |acts|);
    SleeperNeeds(down, path, acts, w);
    assert Between(s, w);
  }

  // ----- ... and what suffices for one -----

  /** The flag is down, worker `w` is between lines 51 and 53, and the list is claimed. */
  ghost predicate Ready(s: State, w: nat) {
    Down(s) && !s.crashed && w < |s.workers| && Between(s, w) && Unclaimed(s) == 0
  }

  lemma StaysReady(s: State, a: Action, w: nat)
    requires Ready(s, w) && CanStep(s, a) && a != Step(w) && !Apply(false, s, a).crashed
    ensures Ready(Apply(false, s, a), w)
  {
    DownStep(s, a);
    UnclaimedStep(s, a);
    if a.Step? {
      StepFrame(false, s, a.w);
    }
  }

  /** The signals reach whoever sleeps. */
  lemma {:induction false} AllSignals(down: State, s: State, w: nat) returns (t: State)
    requires Follows(down, s) && Ready(s, w) && s.main.SignalShutdown? && s.main.k < |s.workers|
    ensures Follows(down, t) && Ready(t, w) && t.main == Join(0)
    decreases |s.workers| - s.main.k
  {
    var woken := if v: nat :| v < |s.workers| && s.workers[v].pc.Asleep? then Some(v) else None;
    StaysReady(s, Signal(woken), w);
    t := Onward(down, s, Signal(woken));
    if t.main.SignalShutdown? {
      t := AllSignals(down, t, w);
    }
  }

  /** How far the owner of the mutex is from releasing it. */
  function Steps(s: State): nat {
    if s.mutex.Thread? && s.mutex.w < |s.workers| then
      match s.workers[s.mutex.w].pc
      case TestEnabled => 2
      case TakeHead => 2
      case _ => 1
    else 0
  }

  /** The owner does not fault: at line 60 it finds the item that it has a claim to; and at line
      53 it finds the list empty. */
  lemma OwnerStep(s: State, w: nat)
    requires Ready(s, w) && s.mutex.Thread? && s.mutex.w != w
    ensures CanStep(s, Step(s.mutex.w))
    ensures var t := Apply(false, s, Step(s.mutex.w));
            !t.crashed && Steps(t) < Steps(s) && t.main == s.main
  {
    var v := s.mutex.w;
    StepFrame(false, s, v);
    if s.workers[v].pc.TestList? {
      EmptyForTester(s, v);
    }
  }

  /** Where a worker tests an unclaimed list, the list is empty. */
  lemma EmptyForTester(s: State, v: nat)
    requires MutexOk(s) && v < |s.workers| && s.workers[v].pc.TestList? && Unclaimed(s) == 0
    ensures s.queue == []
  {
    assert s.mutex == Thread(v);
    assert forall u :: 0 <= u < |s.workers| ==> !s.workers[u].pc.TakeHead?;
  }

  lemma {:induction false} MutexReleased(down: State, s: State, w: nat) returns (t: State)
    requires Follows(down, s) && Ready(s, w) && s.main == Join(0) && s.workers[w].pc.LockMutex?
    ensures Follows(down, t) && Ready(t, w) && t.main == Join(0) && t.mutex == Nobody && t.workers[w].pc.LockMutex?
    decreases Steps(s)
  {
    t := s;
    if s.mutex.Thread? {
      OwnerStep(s, w);
      StaysReady(s, Step(s.mutex.w), w);
      StepFrame(false, s, s.mutex.w);
      t := Onward(down, s, Step(s.mutex.w));
      t := MutexReleased(down, t, w);
    }
  }

  lemma LockTaken(down: State, s: State, w: nat) returns (t: State)
    requires Follows(down, s) && Ready(s, w) && s.main == Join(0)
    ensures Follows(down, t) && Ready(t, w) && t.main == Join(0) && t.workers[w].pc.TestList?
  {
    t := s;
    if s.workers[w].pc.LockMutex? {
      t := MutexReleased(down, s, w);
      DownStep(t, Step(w));
      UnclaimedStep(t, Step(w));
      t := Onward(down, t, Step(w));
    }
  }

  lemma SleepsInJoin(down: State, s: State, w: nat) returns (t: State)
    requires Follows(down, s) && Ready(s, w) && s.main == Join(0)
    ensures Follows(down, t) && Hung(t) && Down(t) && Unclaimed(t) == 0
  {
    t := LockTaken(down, s, w);
    EmptyForTester(t, w);
    DownStep(t, Step(w));
    UnclaimedStep(t, Step(w));
    t := Onward(down, t, Step(w));
    assert t.workers[w].pc.Asleep?;
  }

  lemma HangFollows(s: State, w: nat)
    requires Inv(false, s) && CanStep(s, Shutdown) && w < |s.workers| && Between(s, w) && Unclaimed(s) == 0
    ensures CanHang(s)
  {
    var down := Apply(false, s, Shutdown);
    FlagDown(s);
    NoStepYet(down);
    var t := AllSignals(down, down, w);
    t := SleepsInJoin(down, t, w);
    HungIsStuck(t);
  }

  // ----- Every run ends -----

  /** A bound on the steps of a worker once the flag is down. */
  function StepsLeft(me: Worker): int {
    match me.pc
    case TestFlag => 1
    case LockMutex => 6
    case TestList => 5
    case Asleep => 4
    case Awake => 3
    case TestEnabled => 2
    case Leave => 1
    case TakeHead => 1
    case Unlock(b) => 2 * b.blocks + 4
    case Outer(b, i) => if i <= b.blocks then 2 * (b.blocks - i) + 3 else 3
    case Inner(b, i, _) => if i < b.blocks then 2 * (b.blocks - i) + 2 else 4
    case Check(_, _, _) => 1
    case Release(_) => 2
    case _ => 0
  }

  /** What taking the items of the list would add. */
  function Weight(queue: seq<Block>): nat {
    if queue == [] then 0 else 2 * queue[0].blocks + 5 + Weight(queue[1..])
  }

  function MainStepsLeft(s: State): nat {
    var n := |s.workers|;
    match s.main
    case SignalShutdown(k) => if k < n then n - k + n + 2 else n + 2
    case Join(k) => if k < n then n - k + 1 else 1
    case _ => 0
  }

  /** A bound on the steps of all threads once the flag is down. */
  function AllStepsLeft(s: State): int {
    Sum(s.workers, StepsLeft) + Weight(s.queue) + MainStepsLeft(s) + if s.crashed then 0 else 1
  }

  lemma MoverStepsLeft(s: State, w: nat)
    requires CanStep(s, Step(w)) && !s.enabled && PcOk(s.workers[w].pc) && !s.workers[w].pc.TakeHead?
    ensures var t := WorkerStep(false, s, w);
            t.queue == s.queue && t.crashed == s.crashed && StepsLeft(t.workers[w]) < StepsLeft(s.workers[w])
  {
    if s.workers[w].pc.Outer? || s.workers[w].pc.Inner? {
      assert WorkerStep(false, s, w).queue == s.queue;
    }
  }

  lemma TakerStepsLeft(s: State, w: nat)
    requires CanStep(s, Step(w)) && s.workers[w].pc.TakeHead?
    ensures var t := WorkerStep(false, s, w);
            if s.queue == [] then t == s.(crashed := true)
            else t.queue == s.queue[1..] && t.crashed == s.crashed && t.workers[w].pc == Unlock(s.queue[0])
  {
  }

  lemma WorkerStepsLeft(s: State, w: nat)
    requires CanStep(s, Step(w)) && !s.enabled && PcOk(s.workers[w].pc)
    ensures AllStepsLeft(WorkerStep(false, s, w)) < AllStepsLeft(s)
  {
    var t := WorkerStep(false, s, w);
    StepFrame(false, s, w);
    WorkersMoved(false, s, w);
    SumUpdate(s.workers, w, t.workers[w], StepsLeft);
    if s.workers[w].pc.TakeHead? {
      TakerStepsLeft(s, w);
    } else {
      MoverStepsLeft(s, w);
    }
  }

  /** Every step, a spurious wakeup included, brings the end nearer. */
  lemma StepsLeftStep(s: State, a: Action)
    requires Down(s) && CanStep(s, a)
    ensures AllStepsLeft(Apply(false, s, a)) < AllStepsLeft(s)
  {
    var t := Apply(false, s, a);
    match a
    case Step(w) =>
      assert WorkerOk(s, w);
      WorkerStepsLeft(s, w);
    case SpuriousWake(w) => SumUpdate(s.workers, w, t.workers[w], StepsLeft);
    case Signal(Some(w)) => SumUpdate(s.workers, w, t.workers[w], StepsLeft);
    case _ =>
  }

  lemma {:induction false} StepsLeftNatural(ws: seq<Worker>)
    ensures 0 <= Sum(ws, StepsLeft)
  {
    if ws != [] {
      StepsLeftNatural(ws[..|ws| - 1]);
    }
  }

  lemma {:induction false} BoundedAlong(path: seq<State>, acts: seq<Action>, k: nat)
    requires IsPath(false, path, acts) && k <= |acts| && Down(path[0])
    ensures Down(path[k]) && k + AllStepsLeft(path[k]) <= AllStepsLeft(path[0])
    ensures k <= AllStepsLeft(path[0])
    decreases k
  {
    StepsLeftNatural(path[k].workers);
    if k > 0 {
      BoundedAlong(path, acts, k - 1);
      DownStep(path[k - 1], acts[k - 1]);
      StepsLeftStep(path[k - 1], acts[k - 1]);
    }
  }

  /** It ends in one of three ways. */
  lemma EndIs(s: State)
    requires Down(s) && AtEnd(s)
    ensures s.crashed || s.main.Joined? || Hung(s)
  {
    if !s.crashed && !s.main.Joined? && !Hung(s) {
      var a := SomeStep(s);
      assert false;
    }
  }

  /** No other deadlock: while nobody sleeps in the joins, somebody can move. */
  lemma SomeStep(s: State) returns (a: Action)
    requires Down(s) && !s.crashed && !s.main.Joined? && !Hung(s)
    ensures CanStep(s, a) && !a.SpuriousWake?
  {
    if s.main.SignalShutdown? {
      a := Signal(if v: nat :| v < |s.workers| && s.workers[v].pc.Asleep? then Some(v) else None);
    } else if s.main.k < |s.workers| && !Final(s.workers[s.main.k].pc) {
      a := Step(if s.mutex.Thread? then s.mutex.w else s.main.k);
    } else {
      a := MainStep;
    }
  }

  lemma {:induction false} RunOn(from: State, mid: State, s: State) returns (t: State)
    requires Follows(from, s) && Follows(mid, s) && Down(s)
    ensures Follows(from, t) && Follows(mid, t) && Down(t) && AtEnd(t)
    decreases AllStepsLeft(s)
  {
    t := s;
    StepsLeftNatural(s.workers);
    if a :| CanStep(s, a) && !a.SpuriousWake? {
      DownStep(s, a);
      StepsLeftStep(s, a);
      t := Onward(from, s, a);
      var u := Onward(mid, s, a);
      t := RunOn(from, mid, t);
    }
  }

  /** After the flag is cleared no run goes on for ever, spurious wakeups or not: its length is
      bounded by the state.  Where nothing is left to do but to wake up spuriously, the pool has
      faulted, has been joined, or hangs. */
  lemma ShutdownEnds(n: nat, s: State, path: seq<State>, acts: seq<Action>)
    requires Reachable(false, n, s) && CanStep(s, Shutdown)
    requires IsPath(false, path, acts) && path[0] == Apply(false, s, Shutdown)
    ensures |acts| <= AllStepsLeft(path[0])
    ensures AtEnd(path[|acts|]) ==> path[|acts|].crashed || path[|acts|].main.Joined? || Hung(path[|acts|])
  {
    ReachableInv(false, n, s);
    FlagDown(s);
    BoundedAlong(path, acts, |acts|);
    if AtEnd(path[|acts|]) {
      EndIs(path[|acts|]);
    }
  }

  // ----- Hangs, exactly -----

  /** A worker asleep in the joins, with the list claimed, is never woken, and nothing faults. */
  lemma {:induction false} AsleepAlong(path: seq<State>, acts: seq<Action>, k: nat, w: nat)
    requires IsQuietPath(path, acts) && k <= |acts| && Down(path[0]) && Unclaimed(path[0]) == 0 && !path[0].crashed
    requires path[0].main.Join? && w < |path[0].workers| && path[0].workers[w].pc.Asleep?
    ensures path[k].main.Join? && w < |path[k].workers| && path[k].workers[w].pc.Asleep? && !path[k].crashed
    decreases k
  {
    if k > 0 {
      var s, a := path[k - 1], acts[k - 1];
      AsleepAlong(path, acts, k - 1, w);
      Along(path, acts, k - 1);
      NoFault(s, a);
      if a.Step? {
        StepFrame(false, s, a.w);
      }
    }
  }

  lemma NoFault(s: State, a: Action)
    requires CanStep(s, a) && 0 <= Unclaimed(s)
    ensures !Apply(false, s, a).crashed
  {
    if a.Step? && s.workers[a.w].pc.TakeHead? {
      assert Claims(s) == 1;
    }
  }

  lemma HungIsStuck(s: State)
    requires Down(s) && Hung(s) && Unclaimed(s) == 0
    ensures Stuck(s)
  {
    var w :| 0 <= w < |s.workers| && s.workers[w].pc.Asleep?;
    forall t | Follows(s, t)
      ensures !t.main.Joined? && !t.crashed
    {
      var path: seq<State>, acts: seq<Action> :| IsQuietPath(path, acts) && path[0] == s && path[|acts|] == t;
      AsleepAlong(path, acts, |acts|, w);
    }
  }

  lemma HangReached(s: State, t: State)
    requires Inv(false, s) && CanStep(s, Shutdown)
    requires Follows(Apply(false, s, Shutdown), t) && Stuck(t)
    ensures Unclaimed(s) == 0 && exists w :: 0 <= w < |s.workers| && Between(s, w)
  {
    var down := Apply(false, s, Shutdown);
    FlagDown(s);
    StaysDown(down, t);
    NoStepYet(t);
    var u := RunOn(down, t, t);
    EndIs(u);
    HangNeeds(s, u);
  }

  lemma StaysDown(s: State, t: State)
    requires Down(s) && Follows(s, t)
    ensures Down(t)
  {
    var path: seq<State>, acts: seq<Action> :| IsQuietPath(path, acts) && path[0] == s && path[|acts|] == t;
    Along(path, acts, |acts|);
  }

  /** Clearing the flag can lead to a hang exactly when some worker has passed line 51 and not yet
      line 53, and nothing is in the list but what a worker at line 60 is about to take. */
  lemma HangsExactly(n: nat, s: State)
    requires Reachable(false, n, s) && CanStep(s, Shutdown)
    ensures CanHang(s) <==> (exists w :: 0 <= w < |s.workers| && Between(s, w)) && |s.queue| == Claims(s)
  {
    ReachableInv(false, n, s);
    if CanHang(s) {
      var t :| Follows(Apply(false, s, Shutdown), t) && Stuck(t);
      HangReached(s, t);
    }
    if w: nat :| w < |s.workers| && Between(s, w) && Unclaimed(s) == 0 {
      HangFollows(s, w);
    }
  }

  // ----- When shutdown succeeds -----

  lemma {:induction false} NoFaultAlong(path: seq<State>, acts: seq<Action>, k: nat)
    requires IsQuietPath(path, acts) && k <= |acts| && Down(path[0]) && 0 <= Unclaimed(path[0]) && !path[0].crashed
    ensures !path[k].crashed
    decreases k
  {
    if k > 0 {
      NoFaultAlong(path, acts, k - 1);
      Along(path, acts, k - 1);
      NoFault(path[k - 1], acts[k - 1]);
    }
  }

  /** The state in which the flag is cleared rules out a fault and a hang. */
  ghost predicate GoodMoment(s: State) {
    && Claims(s) <= |s.queue|
    && !(|s.queue| == Claims(s) && exists w :: 0 <= w < |s.workers| && Between(s, w))
  }

  lemma GoodMomentSucceeds(s: State, t: State)
    requires Inv(false, s) && CanStep(s, Shutdown) && GoodMoment(s)
    requires Follows(Apply(false, s, Shutdown), t) && AtEnd(t)
    ensures t.main.Joined? && !t.crashed
  {
    var down := Apply(false, s, Shutdown);
    FlagDown(s);
    StaysDown(down, t);
    var path: seq<State>, acts: seq<Action> :| IsQuietPath(path, acts) && path[0] == down && path[|acts|] == t;
    NoFaultAlong(path, acts, |acts|);
    EndIs(t);
    if Hung(t) {
      HangNeeds(s, t);
    }
  }

  /** With the list empty, a worker at line 60 faults. */
  lemma FaultFollows(s: State) returns (t: State)
    requires Inv(false, s) && CanStep(s, Shutdown) && |s.queue| < Claims(s)
    ensures Follows(Apply(false, s, Shutdown), t) && AtEnd(t) && t.crashed
  {
    var down := Apply(false, s, Shutdown);
    FlagDown(s);
    NoStepYet(down);
    var w: nat :| w < |s.workers| && s.workers[w].pc.TakeHead?;
    t := Onward(down, down, Step(w));
  }

  lemma BadMomentCanFail(s: State) returns (t: State)
    requires Inv(false, s) && CanStep(s, Shutdown) && !GoodMoment(s)
    ensures Follows(Apply(false, s, Shutdown), t) && AtEnd(t) && (t.crashed || !t.main.Joined?)
  {
    if |s.queue| < Claims(s) {
      t := FaultFollows(s);
    } else {
      var w: nat :| w < |s.workers| && Between(s, w);
      HangFollows(s, w);
      var down := Apply(false, s, Shutdown);
      FlagDown(s);
      var u :| Follows(down, u) && Stuck(u);
      StaysDown(down, u);
      NoStepYet(u);
      t := RunOn(down, u, u);
    }
  }

  /** Without spurious wakeups, every way of running on ends with all workers joined exactly when
      the flag is cleared at a good moment. */
  lemma ShutdownSucceedsExactly(n: nat, s: State)
    requires Reachable(false, n, s) && CanStep(s, Shutdown)
    ensures (forall t :: Follows(Apply(false, s, Shutdown), t) && AtEnd(t) ==> t.main.Joined? && !t.crashed)
            <==> GoodMoment(s)
  {
    ReachableInv(false, n, s);
    if GoodMoment(s) {
      forall t | Follows(Apply(false, s, Shutdown), t) && AtEnd(t)
        ensures t.main.Joined? && !t.crashed
      {
        GoodMomentSucceeds(s, t);
      }
    } else {
      var t := BadMomentCanFail(s);
    }
  }

  // ----- The variant with `while` -----

  /** A worker that waits for an item. */
  predicate Waiting(pc: Pc) {
    pc.LockMutex? || pc.TestList? || pc.Asleep? || pc.Awake?
  }

  ghost predicate WaitsInVain(s: State, w: nat) {
    w < |s.workers| && !s.enabled && s.queue == [] && Waiting(s.workers[w].pc)
  }

  /** With `while (data_list == 0)` at line 53 and the flag down, a worker that waits on an empty
      list waits for ever, whatever wakes it, and the joins never finish.  `enabled` has to be part
      of the condition. */
  lemma {:induction false} RetestWaitsForEver(n: nat, run: seq<State>, acts: seq<Action>, i: nat, j: nat, w: nat)
    requires IsRun(true, n, run, acts) && i <= j <= |acts| && WaitsInVain(run[i], w)
    ensures WaitsInVain(run[j], w) && !run[j].main.Joined?
    decreases j
  {
    MainIsOk(n, run, acts, j);
    if i < j {
      RetestWaitsForEver(n, run, acts, i, j - 1, w);
      MainIsOk(n, run, acts, j - 1);
      WaitingStep(run[j - 1], acts[j - 1], w);
    }
  }

  lemma MainIsOk(n: nat, run: seq<State>, acts: seq<Action>, k: nat)
    requires IsRun(true, n, run, acts) && k <= |acts|
    ensures MainOk(run[k])
  {
    InvAlways(true, n, run, acts, k);
  }

  lemma WaitingStep(s: State, a: Action, w: nat)
    requires CanStep(s, a) && MainOk(s) && WaitsInVain(s, w)
    ensures WaitsInVain(Apply(true, s, a), w)
  {
    if a.Step? {
      StepFrame(true, s, a.w);
    }
  }
}
