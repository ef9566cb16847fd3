/** From the lines read to the rows drawn: what is appended is what was read, and what a worker draws
    for it is given by the three values of the line. */
module ThreadPoolReads {
  import opened ThreadPool
  import opened ThreadPoolInvariant
  import opened ThreadPoolTheorems
  import opened ThreadPoolShutdown

  // ----- What is appended is what was read -----

  /** The character, the block length and the number of blocks of a line. */
  datatype Input = Input(c: char, l: nat, n: nat)

  /** The lines that are read in a run, in order. */
  function Reads(acts: seq<Action>): seq<Input> {
    if acts == [] then []
    else
      var last := acts[|acts| - 1];
      Reads(acts[..|acts| - 1]) + if last.Read? then [Input(last.c, last.l, last.n)] else []
  }

  function InputOf(b: Block): Input {
    Input(b.c, b.blockLength, b.blocks)
  }

  function Inputs(bs: seq<Block>): seq<Input> {
    seq(|bs|, k requires 0 <= k < |bs| => InputOf(bs[k]))
  }

  /** The item that has been read and is not yet in the list. */
  function Coming(main: MainPc): seq<Block> {
    match main
    case LockForAppend(b) => [b]
    case Append(b) => [b]
    case _ => []
  }

  lemma ReadStep(retest: bool, s: State, a: Action)
    requires CanStep(s, a)
    ensures var t := Apply(retest, s, a);
            Inputs(t.appended + Coming(t.main))
            == Inputs(s.appended + Coming(s.main)) + if a.Read? then [Input(a.c, a.l, a.n)] else []
  {
    var t := Apply(retest, s, a);
    if a.Step? {
      StepFrame(retest, s, a.w);
    } else if a.MainStep? && s.main.Append? {
      assert t.appended + [] == s.appended + [s.main.b];
    }
  }

  /** In every run the lines read, in order, are the appended items followed by the item that is on
      its way into the list. */
  lemma {:induction false} AppendedIsRead(retest: bool, n: nat, run: seq<State>, acts: seq<Action>, k: nat)
    requires IsRun(retest, n, run, acts) && k <= |acts|
    ensures Reads(acts[..k]) == Inputs(run[k].appended + Coming(run[k].main))
    decreases k
  {
    if k > 0 {
      AppendedIsRead(retest, n, run, acts, k - 1);
      assert acts[..k][..k - 1] == acts[..k - 1];
      ReadStep(retest, run[k - 1], acts[k - 1]);
    }
  }

  // ----- What is drawn for a line -----

  /** `n` times: the character `l` times, and a space. */
  function Picture(x: Input): string
    decreases x.n
  {
    if x.n == 0 then "" else seq(x.l, _ => x.c) + " " + Picture(x.(n := x.n - 1))
  }

  lemma {:induction false} PictureLast(x: Input)
    requires x.n > 0
    ensures Picture(x) == Picture(x.(n := x.n - 1)) + (seq(x.l, _ => x.c) + " ")
    decreases x.n
  {
    var y := x.(n := x.n - 1);
    if y.n > 0 {
      PictureLast(y);
      assert Picture(x) == (seq(x.l, _ => x.c) + " ") + Picture(y);
    }
  }

  lemma {:induction false} TimesIsPicture(b: Block, i: nat)
    ensures Times(b, i) == Picture(Input(b.c, b.blockLength, i))
  {
    if i > 0 {
      TimesIsPicture(b, i - 1);
      PictureLast(Input(b.c, b.blockLength, i));
    }
  }

  /** Column `j` of block `i`, counted from the start of the item. */
  lemma {:induction false} PictureAt(x: Input, i: nat, j: nat)
    requires i < x.n && j <= x.l
    ensures |Picture(x)| == x.n * (x.l + 1)
    ensures i * (x.l + 1) + j < |Picture(x)|
    ensures Picture(x)[i * (x.l + 1) + j] == if j < x.l then x.c else ' '
    decreases i
  {
    PictureLength(x);
    Below(i, x.n, x.l + 1);
    if i > 0 {
      PictureAt(x.(n := x.n - 1), i - 1, j);
      assert (i - 1) * (x.l + 1) + j + (x.l + 1) == i * (x.l + 1) + j;
    }
  }

  lemma {:induction false} PictureLength(x: Input)
    ensures |Picture(x)| == x.n * (x.l + 1)
    decreases x.n
  {
    if x.n > 0 {
      PictureLength(x.(n := x.n - 1));
      assert (x.n - 1) * (x.l + 1) + (x.l + 1) == x.n * (x.l + 1);
    }
  }

  lemma Below(i: nat, n: nat, d: nat)
    requires i < n
    ensures i * d + d <= n * d
  {
    assert n * d == i * d + (n - i) * d;
    assert (n - i) * d == d + (n - i - 1) * d;
  }

  /** The line "a 2 3". */
  lemma PictureOfALine()
    ensures Picture(Input('a', 2, 3)) == "aa aa aa "
  {
    assert Picture(Input('a', 2, 0)) == "";
    assert Picture(Input('a', 2, 1)) == "aa ";
    assert Picture(Input('a', 2, 2)) == "aa aa ";
  }

  /** The lines number `ids[0]`, `ids[1]`, ... one behind the other. */
  function Pictures(lines: seq<Input>, ids: seq<nat>): string
    requires forall i :: 0 <= i < |ids| ==> ids[i] < |lines|
  {
    if ids == [] then "" else Pictures(lines, ids[..|ids| - 1]) + Picture(lines[ids[|ids| - 1]])
  }

  function Ids(bs: seq<Block>): seq<nat> {
    seq(|bs|, k requires 0 <= k < |bs| => bs[k].id)
  }

  /** Every item is the line that was read at the place of its number. */
  predicate WereRead(bs: seq<Block>, lines: seq<Input>) {
    forall i :: 0 <= i < |bs| ==> bs[i].id < |lines| && lines[bs[i].id] == InputOf(bs[i])
  }

  predicate Ascending(bs: seq<Block>) {
    forall i, j :: 0 <= i < j < |bs| ==> bs[i].id < bs[j].id
  }

  lemma {:induction false} RenderedIsPictures(bs: seq<Block>, lines: seq<Input>)
    requires WereRead(bs, lines)
    ensures RenderAll(bs) == Pictures(lines, Ids(bs))
    decreases |bs|
  {
    if bs != [] {
      var init, last := bs[..|bs| - 1], bs[|bs| - 1];
      RenderedIsPictures(init, lines);
      IdsInit(bs);
      assert RenderAll(bs) == RenderAll(init) + Rendering(last);
      TimesIsPicture(last, last.blocks);
    }
  }

  lemma IdsInit(bs: seq<Block>)
    requires bs != []
    ensures Ids(bs)[..|bs| - 1] == Ids(bs[..|bs| - 1]) && |Ids(bs)| == |bs|
  {
  }

  /** The item dequeued as number `i` is the line read as number `i`. */
  lemma LoggedWereRead(retest: bool, n: nat, run: seq<State>, acts: seq<Action>, k: nat)
    requires IsRun(retest, n, run, acts) && k <= |acts|
    ensures var taken, lines := run[k].taken, Reads(acts[..k]);
            |taken| <= |lines| && forall i :: 0 <= i < |taken| ==> taken[i].b.id == i && lines[i] == InputOf(taken[i].b)
  {
    var s := run[k];
    InvAlways(retest, n, run, acts, k);
    AppendedIsRead(retest, n, run, acts, k);
    var all := s.appended + Coming(s.main);
    forall i | 0 <= i < |s.taken|
      ensures s.taken[i].b.id == i && s.taken[i].b == all[i]
    {
      assert s.taken[i].b == (Blocks(s.taken) + s.queue)[i];
    }
  }

  lemma ShareWasRead(taken: seq<Dequeue>, lines: seq<Input>, w: nat)
    requires |taken| <= |lines|
    requires forall i :: 0 <= i < |taken| ==> taken[i].b.id == i && lines[i] == InputOf(taken[i].b)
    ensures WereRead(ByWorker(taken, w), lines) && Ascending(ByWorker(taken, w))
  {
    var bs := ByWorker(taken, w);
    assert forall i :: 0 <= i < |bs| ==> bs[i].id < |taken| && taken[bs[i].id] == Dequeue(w, bs[i]) by {
      ByWorkerIds(taken, w);
    }
    assert Ascending(bs) by {
      ByWorkerIds(taken, w);
    }
    forall i | 0 <= i < |bs|
      ensures bs[i].id < |lines| && lines[bs[i].id] == InputOf(bs[i])
    {
      assert taken[bs[i].id].b == bs[i];
    }
  }

  /** What worker `w` has taken are lines that were read, each at its place. */
  lemma TakenWereRead(retest: bool, n: nat, run: seq<State>, acts: seq<Action>, k: nat, w: nat)
    requires IsRun(retest, n, run, acts) && k <= |acts| && w < n
    ensures w < |run[k].workers|
    ensures var bs := run[k].workers[w].done + Held(run[k].workers[w].pc);
            WereRead(bs, Reads(acts[..k])) && Ascending(bs)
  {
    LoggedWereRead(retest, n, run, acts, k);
    ShareWasRead(run[k].taken, Reads(acts[..k]), w);
    InvAlways(retest, n, run, acts, k);
    assert WorkerOk(run[k], w);
  }

  /** In every state of every run the row of a worker shows the pictures of the lines that it has
      finished, in the order in which they were read, and then a part from the beginning of the
      picture of the one that it holds or has abandoned. */
  lemma RowShowsLinesRead(retest: bool, n: nat, run: seq<State>, acts: seq<Action>, k: nat, w: nat)
      returns (ids: seq<nat>, part: string)
    requires IsRun(retest, n, run, acts) && k <= |acts| && w < n
    ensures w < |run[k].workers| && ids == Ids(run[k].workers[w].done)
    ensures forall i :: 0 <= i < |ids| ==> ids[i] < |Reads(acts[..k])|
    ensures forall i, j :: 0 <= i < j < |ids| ==> ids[i] < ids[j]
    ensures RowIs(run[k].screen, w, Pictures(Reads(acts[..k]), ids) + part)
    ensures var held := Held(run[k].workers[w].pc);
            if held == [] then part == ""
            else held[0].id < |Reads(acts[..k])| && part <= Picture(Reads(acts[..k])[held[0].id])
  {
    TakenWereRead(retest, n, run, acts, k, w);
    InvAlways(retest, n, run, acts, k);
    assert WorkerOk(run[k], w);
    var me := run[k].workers[w];
    ids, part := Ids(me.done), DrawnAt(me.pc);
    DoneWereRead(me.done, Held(me.pc), Reads(acts[..k]));
    RenderedIsPictures(me.done, Reads(acts[..k]));
    if Held(me.pc) != [] {
      PartOfPicture(me.pc);
    }
  }

  lemma DoneWereRead(bs: seq<Block>, cs: seq<Block>, lines: seq<Input>)
    requires WereRead(bs + cs, lines) && Ascending(bs + cs)
    ensures WereRead(bs, lines) && Ascending(bs) && WereRead(cs, lines)
  {
    assert forall i :: 0 <= i < |bs| ==> (bs + cs)[i] == bs[i];
    assert forall i :: 0 <= i < |cs| ==> (bs + cs)[|bs| + i] == cs[i];
  }

  lemma PartOfPicture(pc: Pc)
    requires PcOk(pc) && Held(pc) != []
    ensures DrawnAt(pc) <= Picture(InputOf(Held(pc)[0]))
  {
    DrawnIsPrefix(pc);
    TimesIsPicture(Held(pc)[0], Held(pc)[0].blocks);
  }

  // ----- Every line can be read, and drawn -----

  /** No worker has run, and the lines are in the list. */
  ghost predicate Queued(n: nat, s: State, lines: seq<Input>) {
    && QuietlyReachable(n, s) && !s.crashed && s.enabled && s.main.Idle? && s.mutex == Nobody
    && s.workers == Init(n).workers && s.queue == s.appended && Inputs(s.queue) == lines
  }

  /** Any lines can be read one after the other, whatever they say. */
  lemma {:induction false} AnyLinesAreRead(n: nat, lines: seq<Input>) returns (s: State)
    ensures Queued(n, s, lines)
    decreases |lines|
  {
    if lines == [] {
      s := Start(n);
    } else {
      var x := lines[|lines| - 1];
      s := AnyLinesAreRead(n, lines[..|lines| - 1]);
      s := OneLineRead(n, s, lines[..|lines| - 1], x);
      assert lines[..|lines| - 1] + [x] == lines;
    }
  }

  lemma OneLineRead(n: nat, s0: State, lines: seq<Input>, x: Input) returns (s: State)
    requires Queued(n, s0, lines)
    ensures Queued(n, s, lines + [x])
  {
    var b := Block(|s0.appended|, x.c, x.l, x.n);
    s := Appending(n, s0, b);
    assert forall w :: 0 <= w < |s.workers| ==> !s.workers[w].pc.Asleep?;
    s := Go(n, s, Signal(None));
    assert Inputs(s0.queue + [b]) == Inputs(s0.queue) + [x];
  }

  lemma Appending(n: nat, s0: State, b: Block) returns (s: State)
    requires QuietlyReachable(n, s0) && !s0.crashed && s0.main.Idle? && s0.mutex == Nobody && b.id == |s0.appended|
    ensures QuietlyReachable(n, s)
    ensures s == s0.(main := SignalAppend, queue := s0.queue + [b], appended := s0.appended + [b])
  {
    s := Go(n, s0, Read(b.c, b.blockLength, b.blocks));
    s := Go(n, s, MainStep);
    s := Go(n, s, MainStep);
    s := Go(n, s, MainStep);
  }

  /** The only worker is at `pc` with an item in hand and has finished none. */
  ghost predicate Drawing(s: State, pc: Pc) {
    && QuietlyReachable(1, s) && !s.crashed && s.enabled && |s.workers| == 1
    && s.workers[0].pc == pc && s.workers[0].done == []
  }

  lemma DrawStep(s0: State, pc: Pc, next: Pc) returns (s: State)
    requires Drawing(s0, pc) && PcOk(pc)
    requires match pc
             case Outer(b, i) => next == if i < b.blocks then Inner(b, i, 0) else Release(b)
             case Inner(b, i, j) => next == if j < b.blockLength then Check(b, i, j + 1) else Outer(b, i + 1)
             case Check(b, i, j) => next == Inner(b, i, j)
             case _ => false
    ensures Drawing(s, next)
  {
    s := Go(1, s0, Step(0));
  }

  lemma {:induction false} BlockDrawn(s0: State, b: Block, i: nat, j: nat) returns (s: State)
    requires Drawing(s0, Inner(b, i, j)) && i < b.blocks && j <= b.blockLength
    ensures Drawing(s, Outer(b, i + 1))
    decreases b.blockLength - j
  {
    if j < b.blockLength {
      s := DrawStep(s0, Inner(b, i, j), Check(b, i, j + 1));
      s := DrawStep(s, Check(b, i, j + 1), Inner(b, i, j + 1));
      s := BlockDrawn(s, b, i, j + 1);
    } else {
      s := DrawStep(s0, Inner(b, i, j), Outer(b, i + 1));
    }
  }

  lemma {:induction false} ItemDrawn(s0: State, b: Block, i: nat) returns (s: State)
    requires Drawing(s0, Outer(b, i)) && i <= b.blocks
    ensures Drawing(s, Release(b))
    decreases b.blocks - i
  {
    if i < b.blocks {
      s := DrawStep(s0, Outer(b, i), Inner(b, i, 0));
      s := BlockDrawn(s, b, i, 0);
      s := ItemDrawn(s, b, i + 1);
    } else {
      s := DrawStep(s0, Outer(b, i), Release(b));
    }
  }

  /** Every line can be drawn: a pool of one worker comes to show its picture in row 0 and nothing
      behind it. */
  lemma EveryLineIsDrawn(x: Input) returns (s: State)
    ensures QuietlyReachable(1, s) && s.enabled && !s.crashed
    ensures RowIs(s.screen, 0, Picture(x))
  {
    var b := Block(0, x.c, x.l, x.n);
    s := ToOuter(b);
    s := ItemDrawn(s, b, 0);
    QuietInv(1, s);
    assert WorkerOk(s, 0);
    TimesIsPicture(b, b.blocks);
    assert RenderAll([]) + Rendering(b) == Rendering(b);
  }

  lemma QuietInv(n: nat, s: State)
    requires QuietlyReachable(n, s)
    ensures Inv(false, s)
  {
    var path: seq<State>, acts: seq<Action> :| IsQuietPath(path, acts) && path[0] == Init(n) && path[|acts|] == s;
    InvAlways(false, n, path, acts, |acts|);
  }

  /** The work of an item is the length of its picture. */
  lemma WorkIsLength(b: Block)
    ensures Work(b) == |Picture(InputOf(b))|
  {
    PictureLength(InputOf(b));
  }
}
