/** What can still happen after `enabled` is cleared, and where the code as written fails. */
module ThreadPoolShutdown {
  import opened ThreadPool
  import opened ThreadPoolInvariant
  import opened ThreadPoolTheorems

  // ----- After the flag is cleared -----

  /** The workers that are about to take an item; there is at most one. */
  ghost function Claims(s: State): nat {
    if exists w :: 0 <= w < |s.workers| && s.workers[w].pc.TakeHead? then 1 else 0
  }

  /** Dequeues done, plus the one that a worker past line 56 is still entitled to. */
  ghost function Grants(s: State): nat {
    |s.taken| + Claims(s)
  }

  lemma GrantsStep(retest: bool, s: State, a: Action)
    requires Inv(retest, s) && !s.enabled && CanStep(s, a)
    ensures var t := Apply(retest, s, a); !t.enabled && Grants(t) <= Grants(s) && t.appended == s.appended
  {
    var t := Apply(retest, s, a);
    if a.Step? {
      StepFrame(retest, s, a.w);
      LogFrame(retest, s, a.w);
      if s.workers[a.w].pc.TakeHead? && s.queue != [] {
        assert forall v :: 0 <= v < |s.workers| && v != a.w ==> !t.workers[v].pc.TakeHead?;
      }
    }
  }

  /** At most one further item is dequeued after the flag is cleared, and none is appended. */
  lemma {:induction false} AtMostOneMoreDequeue(
      retest: bool, n: nat, run: seq<State>, acts: seq<Action>, i: nat, j: nat)
    requires IsRun(retest, n, run, acts) && i <= j <= |acts| && !run[i].enabled
    ensures !run[j].enabled && Grants(run[j]) <= Grants(run[i])
    ensures |run[j].taken| <= |run[i].taken| + 1
    ensures run[j].appended == run[i].appended
    decreases j
  {
    if i < j {
      AtMostOneMoreDequeue(retest, n, run, acts, i, j - 1);
      InvAlways(retest, n, run, acts, j - 1);
      GrantsStep(retest, run[j - 1], acts[j - 1]);
    }
  }

  /** Characters that a worker about to test line 64 draws once the flag is down: one if there
      is a character to draw, since line 68 follows it; blocks of length zero have no such test. */
  function DueFrom(b: Block, i: nat): nat {
    if b.blocks <= i then 0 else if b.blockLength == 0 then b.blocks - i else 1
  }

  /** Characters that worker `w` can still draw once the flag is down. */
  function Due(s: State, w: nat): nat
    requires w < |s.workers|
  {
    match s.workers[w].pc
    case TakeHead => if s.queue == [] then 0 else DueFrom(s.queue[0], 0)
    case Unlock(b) => DueFrom(b, 0)
    case Outer(b, i) => DueFrom(b, i)
    case Inner(b, i, j) => if j < b.blockLength then 1 else 1 + DueFrom(b, i + 1)
    case _ => 0
  }

  /** The item that worker `w` holds, or is entitled to take. */
  function NextItem(s: State, w: nat): seq<Block>
    requires w < |s.workers|
  {
    if s.workers[w].pc.TakeHead? && s.queue != [] then [s.queue[0]] else Held(s.workers[w].pc)
  }

  lemma DueOfMover(retest: bool, s: State, w: nat)
    requires Inv(retest, s) && !s.enabled && CanStep(s, Step(w))
    ensures var t := WorkerStep(retest, s, w);
            t.workers[w].p + Due(t, w) <= s.workers[w].p + Due(s, w)
  {
    assert WorkerOk(s, w);
    if s.workers[w].pc.Inner? {
      DueOfDrawer(retest, s, w);
    } else {
      assert WorkerStep(retest, s, w).workers[w].p == s.workers[w].p;
    }
  }

  lemma DueOfDrawer(retest: bool, s: State, w: nat)
    requires CanStep(s, Step(w)) && s.workers[w].pc.Inner?
    ensures var t := WorkerStep(retest, s, w);
            t.workers[w].p + Due(t, w) <= s.workers[w].p + Due(s, w)
  {
  }

  lemma DueOfOthers(retest: bool, s: State, a: Action, v: nat)
    requires Inv(retest, s) && !s.enabled && CanStep(s, a) && v < |s.workers|
    requires a.Step? ==> a.w != v
    ensures var t := Apply(retest, s, a);
            t.workers[v].p + Due(t, v) <= s.workers[v].p + Due(s, v)
  {
    if a.Step? {
      StepFrame(retest, s, a.w);
      if s.workers[v].pc.TakeHead? {
        assert s.mutex == Thread(v);
        assert Apply(retest, s, a).queue == s.queue;
      }
    }
  }

  /** After the flag is cleared, a worker draws at most the characters due, and at most two if
      the item it holds (or is entitled to take) has blocks of positive length. */
  lemma {:induction false} AtMostTwoMoreCharacters(
      retest: bool, n: nat, run: seq<State>, acts: seq<Action>, i: nat, j: nat, w: nat)
    requires IsRun(retest, n, run, acts) && i <= j <= |acts| && !run[i].enabled && w < n
    ensures w < |run[i].workers| && w < |run[j].workers|
    ensures run[j].workers[w].p + Due(run[j], w) <= run[i].workers[w].p + Due(run[i], w)
    ensures (forall b :: b in NextItem(run[i], w) ==> 1 <= b.blockLength) ==>
              run[j].workers[w].p <= run[i].workers[w].p + 2
    decreases j
  {
    InvAlways(retest, n, run, acts, i);
    DueAtMostTwo(run[i], w);
    if i < j {
      AtMostTwoMoreCharacters(retest, n, run, acts, i, j - 1, w);
      AtMostOneMoreDequeue(retest, n, run, acts, i, j - 1);
      InvAlways(retest, n, run, acts, j - 1);
      if acts[j - 1] == Step(w) {
        DueOfMover(retest, run[j - 1], w);
      } else {
        DueOfOthers(retest, run[j - 1], acts[j - 1], w);
      }
    }
  }

  lemma DueAtMostTwo(s: State, w: nat)
    requires w < |s.workers|
    ensures (forall b :: b in NextItem(s, w) ==> 1 <= b.blockLength) ==> Due(s, w) <= 2
  {
    if NextItem(s, w) != [] {
      assert NextItem(s, w)[0] in NextItem(s, w);
    }
  }

  /** When the main thread has joined all workers, every one of them has returned and the
      mutex that it goes on to destroy is free. */
  lemma JoinedMeansQuiet(retest: bool, n: nat, s: State)
    requires Reachable(retest, n, s) && s.main.Joined?
    ensures !s.enabled && s.mutex == Nobody
    ensures forall w :: 0 <= w < |s.workers| ==> Final(s.workers[w].pc)
  {
    ReachableInv(retest, n, s);
  }

  // ----- The empty list at line 60 -----

  /** The step that faults, exactly: line 60 on an empty list, which happens in the code as
      written only to a worker that has come back from `pthread_cond_wait`. */
  lemma CrashesExactlyWhenWokenForNothing(retest: bool, n: nat, s: State, a: Action)
    requires Reachable(retest, n, s) && CanStep(s, a)
    ensures Apply(retest, s, a).crashed <==>
              (!retest && a.Step? && s.workers[a.w].pc.TakeHead? && s.workers[a.w].waited && s.queue == [])
  {
    ReachableInv(retest, n, s);
    if a.Step? && s.workers[a.w].pc.TakeHead? && s.queue == [] {
      assert !retest && s.workers[a.w].waited;
    }
  }

  /** With `while` instead of `if` at line 53 - a change to the code - no run faults.  (But see
      `RetestWaitsForEver`.) */
  lemma {:induction false} RetestNeverCrashes(n: nat, run: seq<State>, acts: seq<Action>, k: nat)
    requires IsRun(true, n, run, acts) && k <= |acts|
    ensures !run[k].crashed
    decreases k
  {
    if k > 0 {
      RetestNeverCrashes(n, run, acts, k - 1);
      InvAlways(true, n, run, acts, k - 1);
      assert IsRun(true, n, run[..k], acts[..k - 1]);
      assert Reachable(true, n, run[k - 1]) by {
        assert run[..k][|acts[..k - 1]|] == run[k - 1];
      }
      CrashesExactlyWhenWokenForNothing(true, n, run[k - 1], acts[k - 1]);
    }
  }

  /** Reachable in the code as written without any spurious wakeup. */
  ghost predicate QuietlyReachable(n: nat, s: State) {
    Follows(Init(n), s)
  }

  lemma Go(n: nat, s: State, a: Action) returns (t: State)
    requires QuietlyReachable(n, s) && CanStep(s, a) && !a.SpuriousWake?
    ensures t == Apply(false, s, a) && QuietlyReachable(n, t)
  {
    t := Onward(Init(n), s, a);
  }

  lemma Start(n: nat) returns (s: State)
    ensures s == Init(n) && QuietlyReachable(n, s)
  {
    s := Init(n);
    NoStepYet(s);
  }

  /** Worker 0 falls asleep on the empty list. */
  lemma FallAsleep(n: nat) returns (s: State)
    requires 1 <= n
    ensures QuietlyReachable(n, s) && !s.crashed
    ensures s == Init(n).(workers := Init(n).workers[0 := Worker(Asleep, 0, [], false)])
  {
    s := Start(n);
    s := Go(n, s, Step(0));
    s := Go(n, s, Step(0));
    s := Go(n, s, Step(0));
  }

  /** The main thread appends one item and signals worker 0. */
  lemma AppendAndWake(n: nat, s0: State, b: Block) returns (s: State)
    requires QuietlyReachable(n, s0) && CanStep(s0, Read(b.c, b.blockLength, b.blocks))
    requires 1 <= |s0.workers| && s0.workers[0].pc.Asleep? && s0.mutex == Nobody && b.id == |s0.appended|
    ensures QuietlyReachable(n, s)
    ensures s == s0.(queue := s0.queue + [b], appended := s0.appended + [b],
                     workers := s0.workers[0 := s0.workers[0].(pc := Awake)])
  {
    s := Go(n, s0, Read(b.c, b.blockLength, b.blocks));
    s := Go(n, s, MainStep);
    s := Go(n, s, MainStep);
    s := Go(n, s, MainStep);
    s := Go(n, s, Signal(Some(0)));
  }

  /** Worker 1 starts late and gets as far as line 60. */
  lemma ReachHead(n: nat, s0: State) returns (s: State)
    requires QuietlyReachable(n, s0) && !s0.crashed && s0.enabled && s0.mutex == Nobody
    requires |s0.workers| == 2 && s0.workers[1] == Worker(TestFlag, 0, [], false) && s0.queue != []
    ensures QuietlyReachable(n, s)
    ensures s == s0.(mutex := Thread(1), workers := s0.workers[1 := Worker(TakeHead, 0, [], false)])
  {
    s := Go(n, s0, Step(1));
    s := Go(n, s, Step(1));
    s := Go(n, s, Step(1));
    s := Go(n, s, Step(1));
  }

  /** It takes the only item. */
  lemma TakeFirst(n: nat, s0: State) returns (s: State)
    requires QuietlyReachable(n, s0) && !s0.crashed && s0.enabled && |s0.queue| == 1
    requires |s0.workers| == 2 && s0.workers[1].pc.TakeHead?
    ensures QuietlyReachable(n, s) && !s.crashed && s.enabled && s.mutex == Nobody && s.queue == []
    ensures |s.workers| == 2 && s.workers[0] == s0.workers[0]
  {
    s := Go(n, s0, Step(1));
    s := Go(n, s, Step(1));
  }

  /** Worker 0, woken, reads the head of the empty list. */
  lemma ReadEmptyHead(n: nat, s0: State) returns (s: State)
    requires QuietlyReachable(n, s0) && !s0.crashed && s0.enabled && s0.mutex == Nobody && s0.queue == []
    requires |s0.workers| == 2 && s0.workers[0].pc.Awake?
    ensures QuietlyReachable(n, s) && s.crashed
  {
    s := Go(n, s0, Step(0));
    s := Go(n, s, Step(0));
    s := Go(n, s, Step(0));
  }

  /** The fault is real, and needs no spurious wakeup: worker 1 takes the item for which worker
      0 was woken, and worker 0 then reads the head of an empty list. */
  lemma StolenWakeupCrashes() returns (s: State)
    ensures QuietlyReachable(2, s) && s.crashed
  {
    var b := Block(0, 'x', 1, 1);
    s := FallAsleep(2);
    s := AppendAndWake(2, s, b);
    s := ReachHead(2, s);
    s := TakeFirst(2, s);
    s := ReadEmptyHead(2, s);
  }

  /** Worker 0 is at `pc` with the mutex owned by `owner`; the others have not run, and the main
      thread has appended one item and not yet signalled. */
  ghost predicate BeforeSignal(n: nat, s: State, me: Worker, owner: Owner, queue: seq<Block>) {
    && QuietlyReachable(n, s) && !s.crashed && s.enabled && s.main.SignalAppend?
    && |s.workers| == n && 1 <= n && s.workers[0] == me && s.mutex == owner && s.queue == queue
  }

  lemma Step0(n: nat, s0: State, me: Worker, owner: Owner, queue: seq<Block>) returns (s: State)
    requires BeforeSignal(n, s0, me, owner, queue) && CanStep(s0, Step(0))
    ensures s == WorkerStep(false, s0, 0) && QuietlyReachable(n, s)
    ensures s.main == s0.main && s.enabled && |s.workers| == n
  {
    s := Go(n, s0, Step(0));
    StepFrame(false, s0, 0);
  }

  lemma AppendWithoutSignal(n: nat, b: Block) returns (s: State)
    requires 1 <= n && b.id == 0
    ensures BeforeSignal(n, s, Worker(TestFlag, 0, [], false), Nobody, [b])
  {
    s := Start(n);
    s := Go(n, s, Read(b.c, b.blockLength, b.blocks));
    s := Go(n, s, MainStep);
    s := Go(n, s, MainStep);
    s := Go(n, s, MainStep);
  }

  lemma TakeBeforeSignal(n: nat, b: Block) returns (s: State)
    requires 1 <= n && b.id == 0
    ensures BeforeSignal(n, s, Worker(TakeHead, 0, [], false), Thread(0), [b])
  {
    s := AppendWithoutSignal(n, b);
    s := Step0(n, s, Worker(TestFlag, 0, [], false), Nobody, [b]);
    s := Step0(n, s, Worker(LockMutex, 0, [], false), Nobody, [b]);
    s := Step0(n, s, Worker(TestList, 0, [], false), Thread(0), [b]);
    s := Step0(n, s, Worker(TestEnabled, 0, [], false), Thread(0), [b]);
  }

  lemma OuterBeforeSignal(n: nat, b: Block) returns (s: State)
    requires 1 <= n && b.id == 0
    ensures BeforeSignal(n, s, Worker(Outer(b, 0), 0, [], false), Nobody, [])
  {
    s := TakeBeforeSignal(n, b);
    s := Step0(n, s, Worker(TakeHead, 0, [], false), Thread(0), [b]);
    s := Step0(n, s, Worker(Unlock(b), 0, [], false), Thread(0), []);
  }

  /** The item has one block of one character. */
  lemma DrawnBeforeSignal(n: nat, b: Block) returns (s: State)
    requires 1 <= n && b == Block(0, 'x', 1, 1)
    ensures BeforeSignal(n, s, Worker(Inner(b, 0, 1), 1, [], false), Nobody, [])
  {
    s := OuterBeforeSignal(n, b);
    s := Step0(n, s, Worker(Outer(b, 0), 0, [], false), Nobody, []);
    s := Step0(n, s, Worker(Inner(b, 0, 0), 0, [], false), Nobody, []);
    s := Step0(n, s, Worker(Check(b, 0, 1), 1, [], false), Nobody, []);
  }

  lemma FinishedBeforeSignal(n: nat, b: Block) returns (s: State)
    requires 1 <= n && b == Block(0, 'x', 1, 1)
    ensures BeforeSignal(n, s, Worker(TestFlag, 2, [b], false), Nobody, [])
  {
    s := DrawnBeforeSignal(n, b);
    s := Step0(n, s, Worker(Inner(b, 0, 1), 1, [], false), Nobody, []);
    s := Step0(n, s, Worker(Outer(b, 1), 2, [], false), Nobody, []);
    s := Step0(n, s, Worker(Release(b), 2, [], false), Nobody, []);
  }

  lemma AsleepBeforeSignal(n: nat, b: Block) returns (s: State)
    requires 1 <= n && b == Block(0, 'x', 1, 1)
    ensures BeforeSignal(n, s, Worker(Asleep, 2, [b], false), Nobody, [])
  {
    s := FinishedBeforeSignal(n, b);
    s := Step0(n, s, Worker(TestFlag, 2, [b], false), Nobody, []);
    s := Step0(n, s, Worker(LockMutex, 2, [b], false), Nobody, []);
    s := Step0(n, s, Worker(TestList, 2, [b], false), Thread(0), []);
  }

  /** One worker is enough: it finishes the item and sleeps again before line 133 sends the signal
      for it, and that signal wakes it for nothing. */
  lemma LateSignalCrashes(n: nat) returns (s: State)
    requires 1 <= n
    ensures QuietlyReachable(n, s) && s.crashed
  {
    s := AsleepBeforeSignal(n, Block(0, 'x', 1, 1));
    s := Go(n, s, Signal(Some(0)));
    s := Go(n, s, Step(0));
    s := Go(n, s, Step(0));
    s := Go(n, s, Step(0));
  }

  /** Without spurious wakeups the fault can be reached exactly if there is a worker at all. */
  lemma CanCrashExactly(n: nat)
    ensures (exists s :: QuietlyReachable(n, s) && s.crashed) <==> 0 < n
  {
    if 0 < n {
      var s := LateSignalCrashes(n);
    } else {
      forall s | QuietlyReachable(0, s)
        ensures !s.crashed
      {
        var path: seq<State>, acts: seq<Action> :|
          IsQuietPath(path, acts) && path[0] == Init(0) && path[|acts|] == s;
        NobodyCrashes(path, acts, |acts|);
      }
    }
  }

  lemma {:induction false} NobodyCrashes(path: seq<State>, acts: seq<Action>, k: nat)
    requires IsQuietPath(path, acts) && path[0] == Init(0) && k <= |acts|
    ensures path[k].workers == [] && !path[k].crashed
    decreases k
  {
    if k > 0 {
      NobodyCrashes(path, acts, k - 1);
    }
  }

  /** The only worker has passed line 51 when the flag is cleared and the signal is sent. */
  lemma SignalTooEarly() returns (s: State)
    ensures QuietlyReachable(1, s)
    ensures s == Init(1).(enabled := false, main := Join(0), workers := [Worker(LockMutex, 0, [], false)])
  {
    s := Start(1);
    s := Go(1, s, Step(0));
    s := Go(1, s, Shutdown);
    s := Go(1, s, Signal(None));
    assert s.workers == [Worker(LockMutex, 0, [], false)];
  }

  /** Joining need not finish: a worker that tests the flag before it is cleared and sleeps after
      the last signal leaves only a spurious wakeup to go on with.  (When exactly this can happen
      is `HangsExactly`.) */
  lemma ShutdownCanHang() returns (s: State)
    ensures QuietlyReachable(1, s) && !s.crashed && s.main == Join(0)
    ensures |s.workers| == 1 && s.workers[0].pc.Asleep?
    ensures forall a :: CanStep(s, a) ==> a.SpuriousWake?
  {
    s := SignalTooEarly();
    s := Go(1, s, Step(0));
    assert s.workers == [Worker(TestList, 0, [], false)];
    s := Go(1, s, Step(0));
    assert s.workers == [Worker(Asleep, 0, [], false)];
  }

  // ----- The bounds after the flag is cleared are reached -----

  /** Some run of the code as written passes through `s` and then through `t`. */
  ghost predicate Leads(n: nat, s: State, t: State) {
    QuietlyReachable(n, s) && Follows(s, t)
  }

  /** One item `b` is in the list before the only worker has run. */
  lemma AppendFirst(b: Block) returns (s: State)
    requires b.id == 0
    ensures QuietlyReachable(1, s)
    ensures s == Init(1).(queue := [b], appended := [b])
  {
    s := Start(1);
    s := Go(1, s, Read(b.c, b.blockLength, b.blocks));
    s := Go(1, s, MainStep);
    s := Go(1, s, MainStep);
    s := Go(1, s, MainStep);
    s := Go(1, s, Signal(None));
  }

  /** The only worker stands in front of line 60. */
  lemma ToHead(b: Block) returns (s: State)
    requires b.id == 0
    ensures QuietlyReachable(1, s)
    ensures s == Init(1).(queue := [b], appended := [b], mutex := Thread(0), workers := [Worker(TakeHead, 0, [], false)])
  {
    s := AppendFirst(b);
    s := Go(1, s, Step(0));
    s := Go(1, s, Step(0));
    s := Go(1, s, Step(0));
    s := Go(1, s, Step(0));
    assert s.workers == [Worker(TakeHead, 0, [], false)];
  }

  /** It has taken the item and released the mutex. */
  lemma ToOuter(b: Block) returns (s: State)
    requires b.id == 0
    ensures QuietlyReachable(1, s) && !s.crashed && s.enabled && s.main.Idle?
    ensures s.workers == [Worker(Outer(b, 0), 0, [], false)]
  {
    s := ToHead(b);
    s := Go(1, s, Step(0));
    s := Go(1, s, Step(0));
    assert s.workers == [Worker(Outer(b, 0), 0, [], false)];
  }

  /** It has drawn the first character of two blocks of one, and passed line 68. */
  lemma ToSecondColumn(b: Block) returns (s: State)
    requires b == Block(0, 'x', 1, 2)
    ensures QuietlyReachable(1, s) && !s.crashed && s.enabled && s.main.Idle?
    ensures s.workers == [Worker(Inner(b, 0, 1), 1, [], false)]
  {
    s := ToOuter(b);
    s := Go(1, s, Step(0));
    assert s.workers == [Worker(Inner(b, 0, 0), 0, [], false)];
    s := Go(1, s, Step(0));
    assert s.workers == [Worker(Check(b, 0, 1), 1, [], false)];
    s := Go(1, s, Step(0));
    assert s.workers == [Worker(Inner(b, 0, 1), 1, [], false)];
  }

  /** One further item is dequeued after the flag is cleared. */
  lemma OneMoreDequeueHappens() returns (s: State, t: State)
    ensures Leads(1, s, t) && !s.enabled && |t.taken| == |s.taken| + 1
  {
    s := ToHead(Block(0, 'x', 1, 2));
    s := Go(1, s, Shutdown);
    NoStepYet(s);
    t := Onward(s, s, Step(0));
  }

  /** Two further characters are drawn after the flag is cleared. */
  lemma TwoMoreCharactersHappen() returns (s: State, t: State)
    ensures Leads(1, s, t) && !s.enabled && |s.workers| == |t.workers| == 1
    ensures t.workers[0].p == s.workers[0].p + 2 && t.workers[0].pc.Abandoned?
  {
    var b := Block(0, 'x', 1, 2);
    s := ToSecondColumn(b);
    s := Go(1, s, Shutdown);
    NoStepYet(s);
    t := DrawSpace(s, b);
    t := DrawAndLeave(s, t, b);
  }

  lemma DrawSpace(s: State, b: Block) returns (t: State)
    requires Leads(1, s, s) && b == Block(0, 'x', 1, 2) && !s.crashed && !s.enabled
    requires s.workers == [Worker(Inner(b, 0, 1), 1, [], false)]
    ensures Leads(1, s, t) && !t.crashed && !t.enabled
    ensures t.workers == [Worker(Inner(b, 1, 0), 2, [], false)]
  {
    t := Onward(s, s, Step(0));
    assert t.workers == [Worker(Outer(b, 1), 2, [], false)];
    t := Onward(s, t, Step(0));
    assert t.workers == [Worker(Inner(b, 1, 0), 2, [], false)];
  }

  lemma DrawAndLeave(s: State, t: State, b: Block) returns (u: State)
    requires Leads(1, s, t) && b == Block(0, 'x', 1, 2) && !t.crashed && !t.enabled
    requires t.workers == [Worker(Inner(b, 1, 0), 2, [], false)]
    ensures Leads(1, s, u) && u.workers == [Worker(Abandoned(b, 1, 1), 3, [], false)]
  {
    u := Onward(s, t, Step(0));
    assert u.workers == [Worker(Check(b, 1, 1), 3, [], false)];
    u := Onward(s, u, Step(0));
    assert u.workers == [Worker(Abandoned(b, 1, 1), 3, [], false)];
  }
}
