/** The inductive invariant of the pool, and its preservation by every step. */
module ThreadPoolInvariant {
  import opened ThreadPool

  predicate HoldsMutex(pc: Pc) {
    pc.TestList? || pc.TestEnabled? || pc.Leave? || pc.TakeHead? || pc.Unlock?
  }

  predicate MainHoldsMutex(pc: MainPc) {
    pc.Append? || pc.UnlockAppend?
  }

  /** Mutual exclusion: the threads inside a critical section are the owner of the mutex. */
  ghost predicate MutexOk(s: State) {
    && (MainHoldsMutex(s.main) <==> s.mutex == Main)
    && (s.mutex.Thread? ==> s.mutex.w < |s.workers|)
    && (forall w :: 0 <= w < |s.workers| ==> (HoldsMutex(s.workers[w].pc) <==> s.mutex == Thread(w)))
  }

  /** The list is first-in first-out: what was dequeued, then what is queued, is what was appended. */
  ghost predicate FifoOk(s: State) {
    && Blocks(s.taken) + s.queue == s.appended
    && (forall k :: 0 <= k < |s.appended| ==> s.appended[k].id == k)
    && (s.main.LockForAppend? || s.main.Append? ==> s.main.b.id == |s.appended|)
    && (forall k :: 0 <= k < |s.taken| ==> s.taken[k].w < |s.workers|)
  }

  /** Row `row` of the screen shows `text` from column 0 on, and nothing else. */
  ghost predicate RowIs(screen: map<(nat, nat), char>, row: nat, text: string) {
    && (forall k: nat :: (row, k) in screen <==> k < |text|)
    && (forall k: nat :: k < |text| ==> screen[(row, k)] == text[k])
  }

  predicate PcOk(pc: Pc) {
    match pc
    case Outer(b, i) => i <= b.blocks
    case Inner(b, i, j) => i < b.blocks && j <= b.blockLength
    case Check(b, i, j) => i < b.blocks && 1 <= j <= b.blockLength
    case Abandoned(b, i, j) => i < b.blocks && 1 <= j <= b.blockLength
    case _ => true
  }

  ghost predicate WorkerOk(s: State, w: nat)
    requires w < |s.workers|
  {
    var me := s.workers[w];
    && PcOk(me.pc)
    && ByWorker(s.taken, w) == me.done + Held(me.pc)
    && me.p == |Text(me)|
    && RowIs(s.screen, w, Text(me))
  }

  /** A worker about to take an item without having slept finds one; with the re-test this
      holds of every worker. */
  ghost predicate ListOk(retest: bool, s: State) {
    forall w :: 0 <= w < |s.workers| ==>
      var me := s.workers[w];
      (me.pc.TestEnabled? || me.pc.TakeHead?) && (retest || !me.waited) ==> s.queue != []
  }

  /** Shutdown comes after every append, and joined threads have returned. */
  ghost predicate MainOk(s: State) {
    && (s.enabled <==> !(s.main.SignalShutdown? || s.main.Join? || s.main.Joined?))
    && (s.main.Join? ==> forall w :: 0 <= w < |s.workers| && w < s.main.k ==> Final(s.workers[w].pc))
    && (s.main.Joined? ==> forall w :: 0 <= w < |s.workers| ==> Final(s.workers[w].pc))
  }

  ghost predicate Inv(retest: bool, s: State) {
    && MutexOk(s)
    && FifoOk(s)
    && (forall w :: 0 <= w < |s.workers| ==> WorkerOk(s, w))
    && (forall row: nat :: |s.workers| <= row ==> RowIs(s.screen, row, []))
    && ListOk(retest, s)
    && MainOk(s)
  }

  lemma InitInv(retest: bool, n: nat)
    ensures Inv(retest, Init(n))
  {
    assert Blocks([]) == [];
  }

  // ----- Preservation, one conjunct at a time -----

  /** Any move of one worker that changes hands correctly keeps mutual exclusion. */
  lemma MutexMove(s: State, t: State, w: nat)
    requires MutexOk(s) && w < |s.workers| && t.main == s.main && |t.workers| == |s.workers|
    requires forall v :: 0 <= v < |s.workers| && v != w ==> t.workers[v].pc == s.workers[v].pc
    requires
      || (t.mutex == s.mutex && (HoldsMutex(s.workers[w].pc) <==> HoldsMutex(t.workers[w].pc)))
      || (s.mutex == Nobody && t.mutex == Thread(w) && HoldsMutex(t.workers[w].pc))
      || (HoldsMutex(s.workers[w].pc) && t.mutex == Nobody && !HoldsMutex(t.workers[w].pc))
    ensures MutexOk(t)
  {
  }

  lemma MutexWorkerStep(retest: bool, s: State, w: nat)
    requires MutexOk(s) && CanStep(s, Step(w))
    ensures MutexOk(WorkerStep(retest, s, w))
  {
    StepFrame(retest, s, w);
    var t := WorkerStep(retest, s, w);
    MutexMove(s, t, w);
  }

  /** A worker's step moves no other thread. */
  lemma StepFrame(retest: bool, s: State, w: nat)
    requires CanStep(s, Step(w))
    ensures var t := WorkerStep(retest, s, w);
            && |t.workers| == |s.workers|
            && t.main == s.main && t.enabled == s.enabled && t.appended == s.appended
            && forall v :: 0 <= v < |s.workers| && v != w ==> t.workers[v] == s.workers[v]
  {
  }

  lemma MutexStep(retest: bool, s: State, a: Action)
    requires MutexOk(s) && CanStep(s, a)
    ensures MutexOk(Apply(retest, s, a))
  {
    var t := Apply(retest, s, a);
    match a
    case Step(w) => MutexWorkerStep(retest, s, w);
    case SpuriousWake(w) => MutexMove(s, t, w);
    case Signal(woken) =>
      if woken.Some? {
        MutexMove(s, Wake(s, woken.value), woken.value);
      }
    case _ =>
  }

  lemma FifoStep(retest: bool, s: State, a: Action)
    requires FifoOk(s) && CanStep(s, a)
    ensures FifoOk(Apply(retest, s, a))
  {
    var t := Apply(retest, s, a);
    if a.Step? && s.workers[a.w].pc.TakeHead? && s.queue != [] {
      FifoTaken(s, t, Dequeue(a.w, s.queue[0]));
    } else if a.MainStep? && s.main.Append? {
      assert t.taken == s.taken && t.queue == s.queue + [s.main.b];
      assert Blocks(t.taken) + t.queue == (Blocks(s.taken) + s.queue) + [s.main.b];
    } else {
      QueueUntouched(retest, s, a);
    }
  }

  lemma FifoTaken(s: State, t: State, d: Dequeue)
    requires FifoOk(s) && s.queue != [] && d.b == s.queue[0] && d.w < |s.workers| == |t.workers|
    requires t.taken == s.taken + [d] && t.queue == s.queue[1..] && t.appended == s.appended && t.main == s.main
    ensures FifoOk(t)
  {
    assert Blocks(t.taken) == Blocks(s.taken) + [d.b];
    assert Blocks(t.taken) + t.queue == Blocks(s.taken) + s.queue;
  }

  lemma QueueUntouched(retest: bool, s: State, a: Action)
    requires CanStep(s, a)
    requires !(a.Step? && s.workers[a.w].pc.TakeHead? && s.queue != []) && !(a.MainStep? && s.main.Append?)
    ensures var t := Apply(retest, s, a);
            && t.queue == s.queue && t.taken == s.taken && t.appended == s.appended
            && |t.workers| == |s.workers|
  {
    if a.Step? {
      StepFrame(retest, s, a.w);
      if !s.workers[a.w].pc.TakeHead? {
        assert WorkerStep(retest, s, a.w).queue == s.queue;
      }
    }
  }

  lemma ListStep(retest: bool, s: State, a: Action)
    requires MutexOk(s) && ListOk(retest, s) && CanStep(s, a)
    ensures ListOk(retest, Apply(retest, s, a))
  {
    match a
    case Step(w) => ListWorkerStep(retest, s, w);
    case _ =>
  }

  /** Only the owner of the mutex shortens the list, and nobody else is then about to take. */
  lemma ListWorkerStep(retest: bool, s: State, w: nat)
    requires MutexOk(s) && ListOk(retest, s) && CanStep(s, Step(w))
    ensures ListOk(retest, WorkerStep(retest, s, w))
  {
    StepFrame(retest, s, w);
    if s.workers[w].pc.TakeHead? {
      assert s.mutex == Thread(w);
    } else {
      assert WorkerStep(retest, s, w).queue == s.queue;
    }
  }

  lemma MainOkStep(retest: bool, s: State, a: Action)
    requires MainOk(s) && CanStep(s, a)
    ensures MainOk(Apply(retest, s, a))
  {
    if a.Step? {
      StepFrame(retest, s, a.w);
    }
  }

  lemma RenderAllAppend(bs: seq<Block>, b: Block)
    ensures RenderAll(bs + [b]) == RenderAll(bs) + Rendering(b)
  {
    assert (bs + [b])[..|bs|] == bs;
  }

  lemma ByWorkerAppend(taken: seq<Dequeue>, d: Dequeue, w: nat)
    ensures ByWorker(taken + [d], w) == ByWorker(taken, w) + if d.w == w then [d.b] else []
  {
    assert (taken + [d])[..|taken|] == taken;
  }

  /** `put_char` appends one character to the text of the worker that calls it. */
  lemma PutCharText(s: State, w: nat, c: char, pc: Pc)
    requires w < |s.workers| && WorkerOk(s, w)
    requires PcOk(pc) && Held(pc) == Held(s.workers[w].pc)
    requires DrawnAt(pc) == DrawnAt(s.workers[w].pc) + [c]
    ensures WorkerOk(PutChar(s, w, c, pc), w)
  {
    var me := s.workers[w];
    var t := PutChar(s, w, c, pc);
    assert Text(t.workers[w]) == Text(me) + [c];
  }

  lemma DrawnAfter(b: Block, i: nat, j: nat)
    ensures Drawn(b, i, j + 1) == Drawn(b, i, j) + [b.c]
    ensures j == b.blockLength ==> Times(b, i + 1) == Drawn(b, i, j) + [' ']
  {
    if j == b.blockLength {
      assert Times(b, i + 1) == Times(b, i) + (seq(j, _ => b.c) + [' ']);
    }
  }

  lemma CharacterDrawn(s: State, w: nat, b: Block, i: nat, j: nat)
    requires w < |s.workers| && WorkerOk(s, w) && s.workers[w].pc == Inner(b, i, j) && j < b.blockLength
    ensures WorkerOk(PutChar(s, w, b.c, Check(b, i, j + 1)), w)
  {
    DrawnAfter(b, i, j);
    PutCharText(s, w, b.c, Check(b, i, j + 1));
  }

  lemma SpaceDrawn(s: State, w: nat, b: Block, i: nat, j: nat)
    requires w < |s.workers| && WorkerOk(s, w) && s.workers[w].pc == Inner(b, i, j) && j >= b.blockLength
    ensures WorkerOk(PutChar(s, w, ' ', Outer(b, i + 1)), w)
  {
    DrawnAfter(b, i, j);
    PutCharText(s, w, ' ', Outer(b, i + 1));
  }

  lemma DrawingStep(retest: bool, s: State, w: nat)
    requires CanStep(s, Step(w)) && WorkerOk(s, w) && s.workers[w].pc.Inner?
    ensures WorkerOk(WorkerStep(retest, s, w), w)
  {
    var Inner(b, i, j) := s.workers[w].pc;
    if j < b.blockLength {
      assert WorkerStep(retest, s, w) == PutChar(s, w, b.c, Check(b, i, j + 1));
      CharacterDrawn(s, w, b, i, j);
    } else {
      assert WorkerStep(retest, s, w) == PutChar(s, w, ' ', Outer(b, i + 1));
      SpaceDrawn(s, w, b, i, j);
    }
  }

  /** A step that leaves the worker's text, its column and its dequeues alone. */
  lemma QuietStep(s: State, t: State, w: nat)
    requires w < |s.workers| && w < |t.workers| && WorkerOk(s, w)
    requires t.screen == s.screen && t.workers[w].p == s.workers[w].p
    requires Text(t.workers[w]) == Text(s.workers[w]) && PcOk(t.workers[w].pc)
    requires ByWorker(t.taken, w) == t.workers[w].done + Held(t.workers[w].pc)
    ensures WorkerOk(t, w)
  {
  }

  /** The worker that moves keeps its own conjunct. */
  lemma OwnStep(retest: bool, s: State, w: nat)
    requires CanStep(s, Step(w)) && WorkerOk(s, w)
    ensures WorkerOk(WorkerStep(retest, s, w), w)
  {
    var me := s.workers[w];
    match me.pc
    case Inner(_, _, _) => DrawingStep(retest, s, w);
    case Release(b) => ReleaseStep(retest, s, w);
    case TakeHead => TakingStep(retest, s, w);
    case Unlock(_) => CarryingStep(retest, s, w);
    case Outer(_, _) => CarryingStep(retest, s, w);
    case Check(_, _, _) => CarryingStep(retest, s, w);
    case _ => EmptyHandedStep(retest, s, w);
  }

  /** A step that changes neither the logs nor the screen, and between positions with the same text. */
  lemma CarryingStep(retest: bool, s: State, w: nat)
    requires CanStep(s, Step(w)) && WorkerOk(s, w)
    requires s.workers[w].pc.Unlock? || s.workers[w].pc.Outer? || s.workers[w].pc.Check?
    ensures WorkerOk(WorkerStep(retest, s, w), w)
  {
    var pc := s.workers[w].pc;
    var t := WorkerStep(retest, s, w);
    if pc.Outer? {
      assert Drawn(pc.b, pc.i, 0) == Times(pc.b, pc.i);
    }
    QuietStep(s, t, w);
  }

  lemma EmptyHandedStep(retest: bool, s: State, w: nat)
    requires CanStep(s, Step(w)) && WorkerOk(s, w)
    requires Held(s.workers[w].pc) == [] && !s.workers[w].pc.TakeHead?
    ensures WorkerOk(WorkerStep(retest, s, w), w)
  {
    var t := WorkerStep(retest, s, w);
    assert Held(t.workers[w].pc) == [] && t.workers[w].done == s.workers[w].done;
    QuietStep(s, t, w);
  }

  lemma ReleaseStep(retest: bool, s: State, w: nat)
    requires CanStep(s, Step(w)) && WorkerOk(s, w) && s.workers[w].pc.Release?
    ensures WorkerOk(WorkerStep(retest, s, w), w)
  {
    var me := s.workers[w];
    var t := WorkerStep(retest, s, w);
    RenderAllAppend(me.done, me.pc.b);
    assert Text(t.workers[w]) == Text(me);
    QuietStep(s, t, w);
  }

  lemma TakingStep(retest: bool, s: State, w: nat)
    requires CanStep(s, Step(w)) && WorkerOk(s, w) && s.workers[w].pc.TakeHead?
    ensures WorkerOk(WorkerStep(retest, s, w), w)
  {
    if s.queue != [] {
      ByWorkerAppend(s.taken, Dequeue(w, s.queue[0]), w);
    }
    QuietStep(s, WorkerStep(retest, s, w), w);
  }

  lemma PutCharOthers(s: State, w: nat, c: char, pc: Pc, v: nat)
    requires w < |s.workers| && v < |s.workers| && v != w && WorkerOk(s, v)
    ensures WorkerOk(PutChar(s, w, c, pc), v)
  {
  }

  /** A step of worker `w` keeps the conjunct of every other worker, whose row it does not touch. */
  lemma OthersStep(retest: bool, s: State, w: nat, v: nat)
    requires CanStep(s, Step(w)) && v < |s.workers| && v != w && WorkerOk(s, v)
    ensures WorkerOk(WorkerStep(retest, s, w), v)
  {
    var pc := s.workers[w].pc;
    if pc.Inner? {
      if pc.j < pc.b.blockLength {
        PutCharOthers(s, w, pc.b.c, Check(pc.b, pc.i, pc.j + 1), v);
      } else {
        PutCharOthers(s, w, ' ', Outer(pc.b, pc.i + 1), v);
      }
    } else {
      OthersQuietStep(s, WorkerStep(retest, s, w), w, v) by {
        StepFrame(retest, s, w);
        LogFrame(retest, s, w);
      }
    }
  }

  lemma OthersQuietStep(s: State, t: State, w: nat, v: nat)
    requires v < |s.workers| == |t.workers| && v != w && WorkerOk(s, v)
    requires t.workers[v] == s.workers[v] && t.screen == s.screen
    requires t.taken == s.taken || exists b :: t.taken == s.taken + [Dequeue(w, b)]
    ensures WorkerOk(t, v)
  {
    if t.taken != s.taken {
      var b :| t.taken == s.taken + [Dequeue(w, b)];
      ByWorkerAppend(s.taken, Dequeue(w, b), v);
    }
    QuietStep(s, t, v);
  }

  /** Only `put_char` touches the screen, and only line 61 dequeues. */
  lemma LogFrame(retest: bool, s: State, w: nat)
    requires CanStep(s, Step(w))
    ensures var t := WorkerStep(retest, s, w);
            && (t.screen == s.screen || s.workers[w].pc.Inner?)
            && t.taken == s.taken + if s.workers[w].pc.TakeHead? && s.queue != []
                                    then [Dequeue(w, s.queue[0])] else []
  {
  }

  lemma WokenStep(s: State, w: nat, v: nat)
    requires w < |s.workers| && v < |s.workers| && s.workers[w].pc.Asleep? && WorkerOk(s, v)
    ensures WorkerOk(Wake(s, w), v)
  {
  }

  lemma WorkersStep(retest: bool, s: State, a: Action, v: nat)
    requires CanStep(s, a) && v < |s.workers| && WorkerOk(s, v)
    ensures WorkerOk(Apply(retest, s, a), v)
  {
    match a
    case Step(w) =>
      if v == w {
        OwnStep(retest, s, w);
      } else {
        OthersStep(retest, s, w, v);
      }
    case SpuriousWake(w) => WokenStep(s, w, v);
    case Signal(woken) =>
      if woken.Some? {
        WokenStep(s, woken.value, v);
      }
    case _ =>
  }

  /** Rows below the workers' rows stay empty. */
  lemma OtherRowsStep(retest: bool, s: State, a: Action, row: nat)
    requires CanStep(s, a) && |s.workers| <= row && RowIs(s.screen, row, [])
    ensures RowIs(Apply(retest, s, a).screen, row, [])
  {
  }

  lemma InvStep(retest: bool, s: State, a: Action)
    requires Inv(retest, s) && CanStep(s, a)
    ensures Inv(retest, Apply(retest, s, a))
  {
    var t := Apply(retest, s, a);
    MutexStep(retest, s, a);
    FifoStep(retest, s, a);
    ListStep(retest, s, a);
    MainOkStep(retest, s, a);
    forall v | 0 <= v < |t.workers|
      ensures WorkerOk(t, v)
    {
      WorkersStep(retest, s, a, v);
    }
    forall row: nat | |t.workers| <= row
      ensures RowIs(t.screen, row, [])
    {
      OtherRowsStep(retest, s, a, row);
    }
  }

  /** The invariant holds in every state of every run. */
  lemma {:induction false} InvAlways(retest: bool, n: nat, run: seq<State>, acts: seq<Action>, k: nat)
    requires IsRun(retest, n, run, acts) && k <= |acts|
    ensures Inv(retest, run[k]) && |run[k].workers| == n
    decreases k
  {
    if k == 0 {
      InitInv(retest, n);
    } else {
      InvAlways(retest, n, run, acts, k - 1);
      InvStep(retest, run[k - 1], acts[k - 1]);
    }
  }
}
