/** The worker pool of exercise16/part01/threadpool.c as a transition system.

    One program counter per worker, one for the main thread, and the shared data: the
    flag `enabled`, the mutex, the list of blocks and the screen.  A step is one critical
    access of one thread, so a run is an arbitrary interleaving.  `put_char` is one step:
    it is a critical section of `print_lock`, and nothing else uses that lock.

    `appended`, `taken` and the field `done` of a worker are logs: no step reads them. */
module ThreadPool {

  /** A `struct block_data`; `id` stands for its address. */
  datatype Block = Block(id: nat, c: char, blockLength: nat, blocks: nat)

  datatype Pc =
    | TestFlag                          // line 51
    | LockMutex                         // line 52
    | TestList                          // line 53, mutex held
    | Asleep                            // line 54, in pthread_cond_wait, mutex released
    | Awake                             // line 54, woken, the mutex still to be acquired
    | TestEnabled                       // line 56, mutex held
    | Leave                             // line 57, mutex held
    | TakeHead                          // lines 60-61, mutex held
    | Unlock(b: Block)                  // line 62, mutex held
    | Outer(b: Block, i: nat)           // line 64
    | Inner(b: Block, i: nat, j: nat)   // lines 65, 66 and 72
    | Check(b: Block, i: nat, j: nat)   // line 68, the j-th character is drawn
    | Release(b: Block)                 // line 75
    | Returned                          // lines 58 and 77
    | Abandoned(b: Block, i: nat, j: nat)  // line 69: returned without freeing

  /** A `struct thread_info`, the thread's position, the blocks it has freed, and whether it
      has been through `pthread_cond_wait` since it last took the mutex at line 52. */
  datatype Worker = Worker(pc: Pc, p: nat, done: seq<Block>, waited: bool)

  datatype MainPc =
    | Idle                     // line 148
    | LockForAppend(b: Block)  // line 130
    | Append(b: Block)         // line 131, mutex held
    | UnlockAppend             // line 132, mutex held
    | SignalAppend             // line 133
    | SignalShutdown(k: nat)   // lines 111-112
    | Join(k: nat)             // lines 114-115
    | Joined                   // line 118

  datatype Owner = Nobody | Main | Thread(w: nat)

  datatype Dequeue = Dequeue(w: nat, b: Block)

  datatype State = State(
    enabled: bool,
    mutex: Owner,
    queue: seq<Block>,
    workers: seq<Worker>,
    main: MainPc,
    screen: map<(nat, nat), char>,
    appended: seq<Block>,
    taken: seq<Dequeue>,
    crashed: bool)

  /** `init_threads`: the threads exist but none has run yet. */
  function Init(n: nat): State {
    State(true, Nobody, [], seq(n, _ => Worker(TestFlag, 0, [], false)), Idle, map[], [], [], false)
  }

  datatype Option<T> = None | Some(value: T)

  datatype Action =
    | Step(w: nat)              // the next step of worker w
    | SpuriousWake(w: nat)      // pthread_cond_wait returns although nobody signalled
    | Read(c: char, l: nat, n: nat)  // a line is read and append_data is called
    | MainStep                  // the next step of the main thread
    | Signal(woken: Option<nat>)     // pthread_cond_signal, with the sleeper it wakes
    | Shutdown                  // line 109

  predicate Final(pc: Pc) {
    pc.Returned? || pc.Abandoned?
  }

  predicate CanStep(s: State, a: Action)
  {
    !s.crashed &&
    match a
    case Step(w) =>
      && w < |s.workers| && !Final(s.workers[w].pc) && !s.workers[w].pc.Asleep?
      && (s.workers[w].pc.LockMutex? || s.workers[w].pc.Awake? ==> s.mutex == Nobody)
    case SpuriousWake(w) => w < |s.workers| && s.workers[w].pc.Asleep?
    case Read(_, _, _) => s.main.Idle?
    case MainStep =>
      && (s.main.LockForAppend? || s.main.Append? || s.main.UnlockAppend? || s.main.Join?)
      && (s.main.LockForAppend? ==> s.mutex == Nobody)
      && (s.main.Join? && s.main.k < |s.workers| ==> Final(s.workers[s.main.k].pc))
    case Signal(woken) =>
      && (s.main.SignalAppend? || (s.main.SignalShutdown? && s.main.k < |s.workers|))
      && (match woken
          case Some(w) => w < |s.workers| && s.workers[w].pc.Asleep?
          case None => forall w :: 0 <= w < |s.workers| ==> !s.workers[w].pc.Asleep?)
    case Shutdown => s.main.Idle?
  }

  function SetPc(s: State, w: nat, pc: Pc): State
    requires w < |s.workers|
  {
    s.(workers := s.workers[w := s.workers[w].(pc := pc)])
  }

  /** `put_char` (lines 35-45) by worker `w`, which continues at `pc`. */
  function PutChar(s: State, w: nat, c: char, pc: Pc): State
    requires w < |s.workers|
  {
    var me := s.workers[w];
    s.(screen := s.screen[(w, me.p) := c],
       workers := s.workers[w := me.(pc := pc, p := me.p + 1)])
  }

  /** One step of `runner`.  `retest` is false for the code as written; with `retest` a woken
      worker goes back to line 53, as if `if` were `while` there, which is a change to the code. */
  function WorkerStep(retest: bool, s: State, w: nat): (t: State)
    requires CanStep(s, Step(w))
    ensures |t.workers| == |s.workers|
  {
    var me := s.workers[w];
    match me.pc
    case TestFlag => SetPc(s, w, if s.enabled then LockMutex else Returned)
    case LockMutex =>
      s.(mutex := Thread(w), workers := s.workers[w := me.(pc := TestList, waited := false)])
    case TestList =>
      if s.queue == [] then SetPc(s, w, Asleep).(mutex := Nobody) else SetPc(s, w, TestEnabled)
    case Awake =>
      s.(mutex := Thread(w),
         workers := s.workers[w := me.(pc := if retest then TestList else TestEnabled, waited := true)])
    case TestEnabled => SetPc(s, w, if s.enabled then TakeHead else Leave)
    case Leave => SetPc(s, w, Returned).(mutex := Nobody)
    case TakeHead =>
      if s.queue == [] then
        s.(crashed := true)  // data_list->data with data_list null
      else
        SetPc(s, w, Unlock(s.queue[0]))
          .(queue := s.queue[1..], taken := s.taken + [Dequeue(w, s.queue[0])])
    case Unlock(b) => SetPc(s, w, Outer(b, 0)).(mutex := Nobody)
    case Outer(b, i) => SetPc(s, w, if i < b.blocks then Inner(b, i, 0) else Release(b))
    case Inner(b, i, j) =>
      if j < b.blockLength then PutChar(s, w, b.c, Check(b, i, j + 1))
      else PutChar(s, w, ' ', Outer(b, i + 1))
    case Check(b, i, j) => SetPc(s, w, if s.enabled then Inner(b, i, j) else Abandoned(b, i, j))
    case Release(b) => s.(workers := s.workers[w := me.(pc := TestFlag, done := me.done + [b])])
  }

  function Wake(s: State, w: nat): State
    requires w < |s.workers|
  {
    SetPc(s, w, Awake)
  }

  /** One step of `append_data` after line 126, or of the joins of `shutdown_threads`. */
  function MainThreadStep(s: State): (t: State)
    requires CanStep(s, MainStep)
    ensures t.workers == s.workers
  {
    match s.main
    case LockForAppend(b) => s.(mutex := Main, main := Append(b))
    case Append(b) => s.(queue := s.queue + [b], appended := s.appended + [b], main := UnlockAppend)
    case UnlockAppend => s.(mutex := Nobody, main := SignalAppend)
    case Join(k) => s.(main := if k < |s.workers| then Join(k + 1) else Joined)
  }

  /** Where the main thread continues after `pthread_cond_signal`. */
  function AfterSignal(s: State): MainPc
    requires s.main.SignalAppend? || s.main.SignalShutdown?
  {
    match s.main
    case SignalAppend => Idle
    case SignalShutdown(k) => if k + 1 < |s.workers| then SignalShutdown(k + 1) else Join(0)
  }

  function Apply(retest: bool, s: State, a: Action): (t: State)
    requires CanStep(s, a)
    ensures |t.workers| == |s.workers|
  {
    match a
    case Step(w) => WorkerStep(retest, s, w)
    case SpuriousWake(w) => Wake(s, w)
    case Read(c, l, n) => s.(main := LockForAppend(Block(|s.appended|, c, l, n)))
    case MainStep => MainThreadStep(s)
    case Signal(None) => s.(main := AfterSignal(s))
    case Signal(Some(w)) => Wake(s, w).(main := AfterSignal(s))
    case Shutdown =>
      s.(enabled := false, main := if |s.workers| > 0 then SignalShutdown(0) else Join(0))
  }

  /** A stretch of a run: the states passed through and the actions between them. */
  ghost predicate IsPath(retest: bool, path: seq<State>, acts: seq<Action>) {
    && |path| == |acts| + 1
    && forall k :: 0 <= k < |acts| ==> CanStep(path[k], acts[k]) && path[k + 1] == Apply(retest, path[k], acts[k])
  }

  /** A run of the pool with `n` workers. */
  ghost predicate IsRun(retest: bool, n: nat, run: seq<State>, acts: seq<Action>)
  {
    IsPath(retest, run, acts) && run[0] == Init(n)
  }

  ghost predicate Reachable(retest: bool, n: nat, s: State)
  {
    exists run: seq<State>, acts: seq<Action> :: IsRun(retest, n, run, acts) && run[|acts|] == s
  }

  /** The code as written can get from `s` to `t` without a spurious wakeup. */
  ghost predicate Follows(s: State, t: State) {
    exists path: seq<State>, acts: seq<Action> :: IsQuietPath(path, acts) && path[0] == s && path[|acts|] == t
  }

  ghost predicate IsQuietPath(path: seq<State>, acts: seq<Action>) {
    IsPath(false, path, acts) && forall k :: 0 <= k < |acts| ==> !acts[k].SpuriousWake?
  }

  lemma NoStepYet(s: State)
    ensures Follows(s, s)
  {
    var acts: seq<Action> := [];
    assert IsQuietPath([s], acts) && [s][0] == s && [s][|acts|] == s;
  }

  lemma OneMoreStep(path: seq<State>, acts: seq<Action>, a: Action)
    requires IsQuietPath(path, acts) && CanStep(path[|acts|], a) && !a.SpuriousWake?
    ensures IsQuietPath(path + [Apply(false, path[|acts|], a)], acts + [a])
  {
  }

  lemma Onward(s: State, t: State, a: Action) returns (u: State)
    requires Follows(s, t) && CanStep(t, a) && !a.SpuriousWake?
    ensures u == Apply(false, t, a) && Follows(s, u)
  {
    u := Apply(false, t, a);
    var path: seq<State>, acts: seq<Action> :| IsQuietPath(path, acts) && path[0] == s && path[|acts|] == t;
    OneMoreStep(path, acts, a);
    assert (path + [u])[0] == s && (path + [u])[|acts + [a]|] == u;
  }

  // ----- What is drawn -----

  /** One block of an item: its character `blockLength` times, then a space. */
  function BlockText(b: Block): string {
    seq(b.blockLength, _ => b.c) + [' ']
  }

  function Times(b: Block, i: nat): string {
    if i == 0 then [] else Times(b, i - 1) + BlockText(b)
  }

  /** Everything that a worker draws for one item. */
  function Rendering(b: Block): string {
    Times(b, b.blocks)
  }

  function RenderAll(bs: seq<Block>): string {
    if bs == [] then [] else RenderAll(bs[..|bs| - 1]) + Rendering(bs[|bs| - 1])
  }

  /** What is drawn of an item after `i` whole blocks and `j` characters. */
  function Drawn(b: Block, i: nat, j: nat): string {
    Times(b, i) + seq(j, _ => b.c)
  }

  /** The item in a worker's hands, as a list of at most one item. */
  function Held(pc: Pc): seq<Block> {
    match pc
    case Unlock(b) => [b]
    case Outer(b, _) => [b]
    case Inner(b, _, _) => [b]
    case Check(b, _, _) => [b]
    case Release(b) => [b]
    case Abandoned(b, _, _) => [b]
    case _ => []
  }

  /** The part of the item in hand that is on the screen. */
  function DrawnAt(pc: Pc): string {
    match pc
    case Outer(b, i) => Times(b, i)
    case Inner(b, i, j) => Drawn(b, i, j)
    case Check(b, i, j) => Drawn(b, i, j)
    case Release(b) => Rendering(b)
    case Abandoned(b, i, j) => Drawn(b, i, j)
    case _ => []
  }

  function Text(me: Worker): string {
    RenderAll(me.done) + DrawnAt(me.pc)
  }

  // ----- Projections of the log -----

  function Blocks(taken: seq<Dequeue>): seq<Block> {
    seq(|taken|, k requires 0 <= k < |taken| => taken[k].b)
  }

  /** What worker `w` dequeued, in order. */
  function ByWorker(taken: seq<Dequeue>, w: nat): seq<Block> {
    if taken == [] then []
    else
      var last := taken[|taken| - 1];
      ByWorker(taken[..|taken| - 1], w) + if last.w == w then [last.b] else []
  }
}
