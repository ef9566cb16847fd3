/** What the pool guarantees in every reachable state: rows, ownership and conservation of work. */
module ThreadPoolTheorems {
  import opened ThreadPool
  import opened ThreadPoolInvariant

  lemma ReachableInv(retest: bool, n: nat, s: State)
    requires Reachable(retest, n, s)
    ensures Inv(retest, s) && |s.workers| == n
  {
    var run: seq<State>, acts: seq<Action> :| IsRun(retest, n, run, acts) && run[|acts|] == s;
    InvAlways(retest, n, run, acts, |acts|);
  }

  // ----- Rows -----

  lemma {:induction false} TimesIsPrefix(b: Block, i: nat, k: nat)
    requires i <= k
    ensures Times(b, i) <= Times(b, k)
    decreases k
  {
    if i < k {
      TimesIsPrefix(b, i, k - 1);
    }
  }

  lemma PartialBlockIsPrefix(b: Block, i: nat, j: nat)
    requires i < b.blocks && j <= b.blockLength
    ensures Drawn(b, i, j) <= Rendering(b)
  {
    assert Times(b, i + 1)[..|Times(b, i)| + j] == Drawn(b, i, j);
    TimesIsPrefix(b, i + 1, b.blocks);
  }

  /** What is drawn of the item in hand is a prefix of its rendering. */
  lemma DrawnIsPrefix(pc: Pc)
    requires PcOk(pc) && Held(pc) != []
    ensures DrawnAt(pc) <= Rendering(Held(pc)[0])
  {
    match pc
    case Outer(b, i) => TimesIsPrefix(b, i, b.blocks);
    case Inner(b, i, j) => PartialBlockIsPrefix(b, i, j);
    case Check(b, i, j) => PartialBlockIsPrefix(b, i, j);
    case Abandoned(b, i, j) => PartialBlockIsPrefix(b, i, j);
    case _ =>
  }

  /** In every reachable state of every interleaving, a worker's row shows the full renderings
      of the items it has finished, in the order in which it dequeued them, then a prefix of
      the rendering of the item it holds or abandoned, and nothing else; `p` is the length. */
  lemma RowShowsFinishedThenCurrent(retest: bool, n: nat, s: State, w: nat)
    requires Reachable(retest, n, s) && w < |s.workers|
    ensures var me := s.workers[w];
            && RowIs(s.screen, w, RenderAll(me.done) + DrawnAt(me.pc))
            && me.p == |RenderAll(me.done) + DrawnAt(me.pc)|
            && ByWorker(s.taken, w) == me.done + Held(me.pc)
            && DrawnAt(me.pc) <= (if Held(me.pc) == [] then [] else Rendering(Held(me.pc)[0]))
  {
    ReachableInv(retest, n, s);
    assert WorkerOk(s, w);
    if Held(s.workers[w].pc) != [] {
      DrawnIsPrefix(s.workers[w].pc);
    }
  }

  /** No cell is ever written twice: a step keeps every written cell, and a step that draws
      writes exactly one cell, the free one at the worker's column. */
  lemma CellsAreWrittenOnce(retest: bool, n: nat, s: State, a: Action)
    requires Reachable(retest, n, s) && CanStep(s, a)
    ensures var t := Apply(retest, s, a);
            if a.Step? && s.workers[a.w].pc.Inner? then
              && (a.w, s.workers[a.w].p) !in s.screen
              && t.screen.Keys == s.screen.Keys + {(a.w, s.workers[a.w].p)}
              && forall cell :: cell in s.screen ==> t.screen[cell] == s.screen[cell]
            else
              t.screen == s.screen
  {
    ReachableInv(retest, n, s);
    if a.Step? {
      assert WorkerOk(s, a.w);
      LogFrame(retest, s, a.w);
    }
  }

  // ----- Ownership -----

  /** In terms of the log: worker `w` got the entries marked `w`, in log order. */
  lemma {:induction false} ByWorkerIds(taken: seq<Dequeue>, w: nat)
    requires forall k :: 0 <= k < |taken| ==> taken[k].b.id == k
    ensures var bs := ByWorker(taken, w);
            && (forall i :: 0 <= i < |bs| ==> bs[i].id < |taken| && taken[bs[i].id] == Dequeue(w, bs[i]))
            && (forall i, j :: 0 <= i < j < |bs| ==> bs[i].id < bs[j].id)
            && (forall k :: 0 <= k < |taken| && taken[k].w == w ==> taken[k].b in bs)
    decreases |taken|
  {
    if taken != [] {
      ByWorkerIds(taken[..|taken| - 1], w);
    }
  }

  /** The blocks dequeued so far, followed by the list, are the blocks appended; each dequeued
      block is with exactly one worker, at one place of what that worker finished (and freed)
      or still holds or abandoned; nobody has a block that is still in the list. */
  lemma BlocksHaveOneOwner(retest: bool, n: nat, s: State)
    requires Reachable(retest, n, s)
    ensures Blocks(s.taken) + s.queue == s.appended
    ensures forall k :: 0 <= k < |s.taken| ==>
              s.taken[k].w < n && s.taken[k].b in ByWorker(s.taken, s.taken[k].w)
    ensures forall w: nat, i :: w < n && 0 <= i < |ByWorker(s.taken, w)| ==>
              var b := ByWorker(s.taken, w)[i]; b.id < |s.taken| && s.appended[b.id] == b
    ensures forall w: nat, v: nat, i, j ::
              (&& w < n && v < n
               && 0 <= i < |ByWorker(s.taken, w)| && 0 <= j < |ByWorker(s.taken, v)|
               && ByWorker(s.taken, w)[i].id == ByWorker(s.taken, v)[j].id) ==> w == v && i == j
    ensures |s.workers| == n && forall w: nat :: w < n ==>
              ByWorker(s.taken, w) == s.workers[w].done + Held(s.workers[w].pc)
  {
    ReachableInv(retest, n, s);
    forall k | 0 <= k < |s.taken|
      ensures s.taken[k].b == s.appended[k] && s.taken[k].b.id == k
    {
      assert s.taken[k].b == (Blocks(s.taken) + s.queue)[k];
    }
    forall w: nat | w < n
      ensures var bs := ByWorker(s.taken, w);
              && (forall i :: 0 <= i < |bs| ==> bs[i].id < |s.taken| && s.taken[bs[i].id] == Dequeue(w, bs[i]))
              && (forall i, j :: 0 <= i < j < |bs| ==> bs[i].id < bs[j].id)
              && (forall k :: 0 <= k < |s.taken| && s.taken[k].w == w ==> s.taken[k].b in bs)
              && bs == s.workers[w].done + Held(s.workers[w].pc)
    {
      ByWorkerIds(s.taken, w);
      assert WorkerOk(s, w);
    }
  }

  // ----- Conservation of work -----

  /** The number of `put_char` calls that an item asks for. */
  function Work(b: Block): nat {
    b.blocks * (b.blockLength + 1)
  }

  function WorkOf(bs: seq<Block>): nat {
    if bs == [] then 0 else WorkOf(bs[..|bs| - 1]) + Work(bs[|bs| - 1])
  }

  function Sum(ws: seq<Worker>, f: Worker -> int): int {
    if ws == [] then 0 else Sum(ws[..|ws| - 1], f) + f(ws[|ws| - 1])
  }

  function Column(me: Worker): int {
    me.p
  }

  /** Characters still missing from the item at hand. */
  function Missing(pc: Pc): int {
    if Held(pc) == [] then 0 else Work(Held(pc)[0]) - |DrawnAt(pc)|
  }

  function InHand(me: Worker): int {
    if me.pc.Abandoned? then 0 else Missing(me.pc)
  }

  function Lost(me: Worker): int {
    if me.pc.Abandoned? then Missing(me.pc) else 0
  }

  /** Characters that the queue and the workers' hands still promise. */
  function Outstanding(s: State): int {
    WorkOf(s.queue) + Sum(s.workers, InHand)
  }

  lemma {:induction false} TimesLength(b: Block, i: nat)
    ensures |Times(b, i)| == i * (b.blockLength + 1)
  {
    if i > 0 {
      TimesLength(b, i - 1);
    }
  }

  lemma {:induction false} RenderAllLength(bs: seq<Block>)
    ensures |RenderAll(bs)| == WorkOf(bs)
    decreases |bs|
  {
    if bs != [] {
      RenderAllLength(bs[..|bs| - 1]);
      TimesLength(bs[|bs| - 1], bs[|bs| - 1].blocks);
    }
  }

  lemma {:induction false} WorkOfConcat(bs: seq<Block>, cs: seq<Block>)
    ensures WorkOf(bs + cs) == WorkOf(bs) + WorkOf(cs)
    decreases |cs|
  {
    if cs == [] {
      assert bs + cs == bs;
    } else {
      WorkOfConcat(bs, cs[..|cs| - 1]);
      assert (bs + cs)[..|bs + cs| - 1] == bs + cs[..|cs| - 1];
    }
  }

  /** The work dequeued by workers 0 .. m-1. */
  function WorkTaken(taken: seq<Dequeue>, m: nat): nat {
    if m == 0 then 0 else WorkTaken(taken, m - 1) + WorkOf(ByWorker(taken, m - 1))
  }

  lemma {:induction false} WorkTakenAppend(taken: seq<Dequeue>, d: Dequeue, m: nat)
    ensures WorkTaken(taken + [d], m) == WorkTaken(taken, m) + if d.w < m then Work(d.b) else 0
  {
    if m > 0 {
      WorkTakenAppend(taken, d, m - 1);
      ByWorkerAppend(taken, d, m - 1);
      if d.w == m - 1 {
        WorkOfConcat(ByWorker(taken, m - 1), [d.b]);
        assert WorkOf([d.b]) == Work(d.b);
      } else {
        assert ByWorker(taken, m - 1) + [] == ByWorker(taken, m - 1);
      }
    }
  }

  lemma {:induction false} NothingTaken(m: nat)
    ensures WorkTaken([], m) == 0
  {
    if m > 0 {
      NothingTaken(m - 1);
    }
  }

  /** The workers' shares add up to the work dequeued. */
  lemma {:induction false} SharesAddUp(taken: seq<Dequeue>, m: nat)
    requires forall k :: 0 <= k < |taken| ==> taken[k].w < m
    ensures WorkTaken(taken, m) == WorkOf(Blocks(taken))
    decreases |taken|
  {
    if taken == [] {
      NothingTaken(m);
    } else {
      var rest, d := taken[..|taken| - 1], taken[|taken| - 1];
      SharesAddUp(rest, m);
      assert rest + [d] == taken;
      WorkTakenAppend(rest, d, m);
      assert Blocks(taken) == Blocks(rest) + [d.b];
      assert Blocks(taken)[..|rest|] == Blocks(rest);
    }
  }

  /** A worker's share is what is on its row plus what is missing from the item at hand. */
  lemma ShareIsDrawnOrMissing(s: State, w: nat)
    requires w < |s.workers| && WorkerOk(s, w)
    ensures var me := s.workers[w];
            WorkOf(ByWorker(s.taken, w)) == Column(me) + InHand(me) + Lost(me)
  {
    var me := s.workers[w];
    RenderAllLength(me.done);
    if Held(me.pc) == [] {
      assert me.done + Held(me.pc) == me.done;
    } else {
      WorkOfConcat(me.done, Held(me.pc));
      assert WorkOf(Held(me.pc)) == Work(Held(me.pc)[0]);
    }
  }

  lemma {:induction false} SharesUpTo(s: State, m: nat)
    requires m <= |s.workers| && forall w :: 0 <= w < |s.workers| ==> WorkerOk(s, w)
    ensures WorkTaken(s.taken, m)
         == Sum(s.workers[..m], Column) + Sum(s.workers[..m], InHand) + Sum(s.workers[..m], Lost)
  {
    if m > 0 {
      SharesUpTo(s, m - 1);
      assert s.workers[..m][..m - 1] == s.workers[..m - 1];
      ShareIsDrawnOrMissing(s, m - 1);
    }
  }

  lemma Conservation(retest: bool, s: State)
    requires Inv(retest, s)
    ensures WorkOf(s.appended) == Sum(s.workers, Column) + Outstanding(s) + Sum(s.workers, Lost)
  {
    SharesUpTo(s, |s.workers|);
    assert s.workers[..|s.workers|] == s.workers;
    SharesAddUp(s.taken, |s.workers|);
    WorkOfConcat(Blocks(s.taken), s.queue);
  }

  /** Work is conserved: in every reachable state the characters asked for by all appended
      items are those on the rows, those outstanding and those lost to abandoned items. */
  lemma WorkIsConserved(retest: bool, n: nat, s: State)
    requires Reachable(retest, n, s)
    ensures WorkOf(s.appended) == Sum(s.workers, Column) + Outstanding(s) + Sum(s.workers, Lost)
  {
    ReachableInv(retest, n, s);
    Conservation(retest, s);
  }

  lemma {:induction false} SumUpdate(ws: seq<Worker>, w: nat, me: Worker, f: Worker -> int)
    requires w < |ws|
    ensures Sum(ws[w := me], f) == Sum(ws, f) - f(ws[w]) + f(me)
    decreases |ws|
  {
    var us := ws[w := me];
    if w == |ws| - 1 {
      assert us[..|us| - 1] == ws[..|ws| - 1];
    } else {
      SumUpdate(ws[..|ws| - 1], w, me, f);
      assert us[..|us| - 1] == ws[..|ws| - 1][w := me];
    }
  }

  function Appends(s: State, a: Action): int {
    if a.MainStep? && s.main.Append? then Work(s.main.b) else 0
  }

  function Draws(s: State, a: Action): int
    requires CanStep(s, a)
  {
    if a.Step? && s.workers[a.w].pc.Inner? then 1 else 0
  }

  function Abandons(s: State, a: Action): int
    requires CanStep(s, a)
  {
    if a.Step? && s.workers[a.w].pc.Check? && !s.enabled then Missing(s.workers[a.w].pc) else 0
  }

  lemma MoverColumnAndLoss(retest: bool, s: State, w: nat)
    requires CanStep(s, Step(w))
    ensures var t := WorkerStep(retest, s, w);
            && t.workers[w].p == s.workers[w].p + Draws(s, Step(w))
            && Lost(t.workers[w]) == Lost(s.workers[w]) + Abandons(s, Step(w))
  {
    var t := WorkerStep(retest, s, w);
    if !s.workers[w].pc.Check? {
      assert !t.workers[w].pc.Abandoned?;
    }
  }

  lemma OneWorkerMoves(s: State, w: nat, t: State)
    requires w < |s.workers| == |t.workers|
    requires t.workers == s.workers[w := t.workers[w]]
    ensures Sum(t.workers, Column) == Sum(s.workers, Column) - s.workers[w].p + t.workers[w].p
    ensures Sum(t.workers, Lost) == Sum(s.workers, Lost) - Lost(s.workers[w]) + Lost(t.workers[w])
  {
    SumUpdate(s.workers, w, t.workers[w], Column);
    SumUpdate(s.workers, w, t.workers[w], Lost);
  }

  lemma WorkersMoved(retest: bool, s: State, w: nat)
    requires CanStep(s, Step(w))
    ensures var t := WorkerStep(retest, s, w);
            t.workers == s.workers[w := t.workers[w]]
  {
    StepFrame(retest, s, w);
  }

  lemma ColumnsAndLosses(retest: bool, s: State, a: Action)
    requires CanStep(s, a)
    ensures var t := Apply(retest, s, a);
            && Sum(t.workers, Column) == Sum(s.workers, Column) + Draws(s, a)
            && Sum(t.workers, Lost) == Sum(s.workers, Lost) + Abandons(s, a)
  {
    var t := Apply(retest, s, a);
    match a
    case Step(w) =>
      WorkersMoved(retest, s, w);
      MoverColumnAndLoss(retest, s, w);
      OneWorkerMoves(s, w, t);
    case SpuriousWake(w) => OneWorkerMoves(s, w, t);
    case Signal(Some(w)) => OneWorkerMoves(s, w, t);
    case _ =>
      assert t.workers == s.workers;
  }

  /** The outstanding work falls by exactly one with every `put_char`, grows only by what is
      appended, and otherwise falls only by what is abandoned: without appends it is a measure
      that every drawing step strictly decreases. */
  lemma OutstandingWorkStep(retest: bool, n: nat, s: State, a: Action)
    requires Reachable(retest, n, s) && CanStep(s, a)
    ensures Outstanding(Apply(retest, s, a))
         == Outstanding(s) + Appends(s, a) - Draws(s, a) - Abandons(s, a)
  {
    ReachableInv(retest, n, s);
    var t := Apply(retest, s, a);
    InvStep(retest, s, a);
    Conservation(retest, s);
    Conservation(retest, t);
    ColumnsAndLosses(retest, s, a);
    AppendedStep(retest, s, a);
  }

  lemma AppendedStep(retest: bool, s: State, a: Action)
    requires CanStep(s, a)
    ensures WorkOf(Apply(retest, s, a).appended) == WorkOf(s.appended) + Appends(s, a)
  {
    if a.MainStep? && s.main.Append? {
      WorkOfConcat(s.appended, [s.main.b]);
      assert WorkOf([s.main.b]) == Work(s.main.b);
    } else if a.Step? {
      StepFrame(retest, s, a.w);
    }
  }

  /** Nothing is over-drawn: what is missing from an item is never negative. */
  lemma MissingIsNatural(pc: Pc)
    requires PcOk(pc)
    ensures 0 <= Missing(pc)
  {
    if Held(pc) != [] {
      DrawnIsPrefix(pc);
      TimesLength(Held(pc)[0], Held(pc)[0].blocks);
    }
  }

  lemma {:induction false} OutstandingIsNatural(s: State, m: nat)
    requires m <= |s.workers| && forall w :: 0 <= w < |s.workers| ==> WorkerOk(s, w)
    ensures 0 <= Sum(s.workers[..m], InHand)
  {
    if m > 0 {
      OutstandingIsNatural(s, m - 1);
      assert s.workers[..m][..m - 1] == s.workers[..m - 1];
      assert WorkerOk(s, m - 1);
      MissingIsNatural(s.workers[m - 1].pc);
    }
  }

  /** From state i to state j of a run, the characters drawn are at most the work outstanding
      at i plus the work appended in between. */
  lemma {:induction false} DrawsAreBounded(retest: bool, n: nat, run: seq<State>, acts: seq<Action>, i: nat, j: nat)
    requires IsRun(retest, n, run, acts) && i <= j <= |acts|
    ensures 0 <= Outstanding(run[j])
    ensures Sum(run[j].workers, Column) + Outstanding(run[j])
         <= Sum(run[i].workers, Column) + Outstanding(run[i]) + WorkOf(run[j].appended) - WorkOf(run[i].appended)
    decreases j
  {
    InvAlways(retest, n, run, acts, j);
    assert run[j].workers[..n] == run[j].workers;
    OutstandingIsNatural(run[j], n);
    if i < j {
      var s, a := run[j - 1], acts[j - 1];
      DrawsAreBounded(retest, n, run, acts, i, j - 1);
      InvAlways(retest, n, run, acts, j - 1);
      Conservation(retest, s);
      Conservation(retest, run[j]);
      ColumnsAndLosses(retest, s, a);
      if a.Step? && s.workers[a.w].pc.Check? {
        assert WorkerOk(s, a.w);
        MissingIsNatural(s.workers[a.w].pc);
      }
    }
  }

  // ----- Wakeups -----

  /** If all workers sleep, the list is empty or the main thread is about to signal. */
  ghost predicate NoLostWakeup(s: State) {
    (forall w :: 0 <= w < |s.workers| ==> s.workers[w].pc.Asleep?) ==>
      s.queue == [] || s.main.UnlockAppend? || s.main.SignalAppend?
  }

  lemma WakeupStep(retest: bool, s: State, a: Action)
    requires CanStep(s, a) && NoLostWakeup(s) && s.workers != []
    ensures NoLostWakeup(Apply(retest, s, a))
  {
    var t := Apply(retest, s, a);
    match a
    case Step(w) =>
      StepFrame(retest, s, w);
      if t.workers[w].pc.Asleep? {
        assert t.queue == [];
      }
    case SpuriousWake(w) => assert !t.workers[w].pc.Asleep?;
    case Signal(Some(w)) => assert !t.workers[w].pc.Asleep?;
    case Signal(None) => assert !t.workers[0].pc.Asleep?;
    case _ =>
  }

  /** No appended item is slept through: in every reachable state, of the code as written and of
      the variant, some worker is awake while the list is not empty, unless a signal is on its way. */
  lemma {:induction false} ItemsAreNotSleptThrough(retest: bool, n: nat, run: seq<State>, acts: seq<Action>, k: nat)
    requires IsRun(retest, n, run, acts) && k <= |acts| && 0 < n
    ensures NoLostWakeup(run[k])
    decreases k
  {
    if k > 0 {
      ItemsAreNotSleptThrough(retest, n, run, acts, k - 1);
      InvAlways(retest, n, run, acts, k - 1);
      WakeupStep(retest, run[k - 1], acts[k - 1]);
    }
  }
}
