/** The reminder queue of task08/reminder.c: a circular doubly linked list through `next`
    with a head sentinel, kept sorted by trigger time, filled by `recorder_store` and emptied
    from the front by a periodic timer callback.

    A store and a callback are atomic with respect to each other (the code takes no lock).
    Times are unbounded integers. */
module Reminder {
  import opened StableSort

  const NS := 1000000000

  /** What happens to the module: a line is written to it, or the timer expires. */
  datatype Event = Arrive(seconds: int, user: string, message: string) | Tick

  /** The users and messages written to the module, in order. */
  function Lines(events: seq<Event>): seq<(string, string)> {
    if events == [] then []
    else
      var last := events[|events| - 1];
      Lines(events[..|events| - 1]) + if last.Arrive? then [(last.user, last.message)] else []
  }

  /** The users and messages of reminders. */
  function Says(es: seq<Entry>): seq<(string, string)> {
    seq(|es|, i requires 0 <= i < |es| => (es[i].user, es[i].message))
  }

  lemma OneMoreEvent(events: seq<Event>, k: nat)
    requires k < |events|
    ensures Lines(events[..k + 1])
         == Lines(events[..k]) + if events[k].Arrive? then [(events[k].user, events[k].message)] else []
    ensures forall e :: e in events[..k + 1] <==> e in events[..k] || e == events[k]
  {
    assert events[..k + 1][..k] == events[..k];
    assert events[..k + 1] == events[..k] + [events[k]];
  }

  /** A `struct reminder` with its `list_head`.  After `list_del` both links are poisoned, and a
      poisoned link is null here, so that a traversal that followed one would not verify. */
  class Node {
    const entry: Entry
    var next: Node?
    var prev: Node?

    constructor (entry: Entry)
      ensures this.entry == entry
    {
      this.entry := entry;
    }
  }

  /** The monotonic clock: it may advance by any amount between two readings. */
  class Clock {
    var now: int

    constructor ()
    {
      now := 0;
    }

    method KtimeGet() returns (t: int)
      modifies this
      ensures old(now) <= now == t
    {
      var elapsed: int :| 0 <= elapsed;
      now := now + elapsed;
      t := now;
    }
  }

  /** The history of the queue: what fired, what is in the list, what arrived; whether no store
      so far was earlier than something already fired; whether none had a negative delay, and whether
      none had since the last callback; and when that callback (or the module) started. */
  datatype Log = Log(
    fired: seq<Entry>,
    pending: seq<Entry>,
    arrived: seq<Entry>,
    inTime: bool,
    forward: bool,
    recent: bool,
    lastScan: int)

  /** The invariant of the queue at time `now`: the list is sorted; what was fired, followed by
      the list, is a rearrangement of the arrivals that keeps equal times in order, and is sorted
      exactly when every store came in time; nothing has fired early; and unless a negative delay has
      come since the last callback, nothing that was due before that callback is left. */
  ghost predicate Orderly(log: Log, now: int) {
    && Sorted(log.pending)
    && SameUpToTime(log.fired + log.pending, log.arrived)
    && (log.inTime <==> Sorted(log.fired + log.pending))
    && (forall e :: e in log.fired ==> e.triggerTime <= now)
    && log.lastScan <= now
    && (log.forward ==> log.inTime && log.recent)
    && (log.recent ==> forall e :: e in log.pending ==> log.lastScan <= e.triggerTime)
  }

  /** A store of `r`, `seconds` after `now`. */
  ghost function AfterStore(log: Log, r: Entry, seconds: int): Log {
    log.(pending := Insert(log.pending, r),
         arrived := log.arrived + [r],
         inTime := log.inTime && forall e :: e in log.fired ==> e.triggerTime <= r.triggerTime,
         forward := log.forward && 0 <= seconds,
         recent := log.recent && 0 <= seconds)
  }

  lemma StoreStep(log: Log, was: int, now: int, r: Entry, seconds: int, after: Log)
    requires Orderly(log, was) && was <= now && r.triggerTime == now + seconds * NS
    requires after == AfterStore(log, r, seconds)
    ensures Orderly(after, now)
  {
    ArrivalStep(log.fired, log.pending, log.arrived, r);
    InsertMembers(log.pending, r);
  }

  /** A scan whose last reading of the clock is `cut`, as two filters: every entry due at `cut`
      has fired, in order, and the others are left. */
  ghost function AfterScan(log: Log, cut: int): Log {
    log.(fired := log.fired + Due(log.pending, cut), pending := Later(log.pending, cut))
  }

  /** Part way through a scan of `log`: entries have moved from the front of the list to the log,
      and the last of them was due by `now`. */
  ghost predicate Scanned(log: Log, after: Log, now: int) {
    && after == log.(fired := after.fired, pending := after.pending)
    && after.fired + after.pending == log.fired + log.pending
    && |log.fired| <= |after.fired|
    && (|log.fired| < |after.fired| ==> after.fired[|after.fired| - 1].triggerTime <= now)
  }

  /** One round of a scan. */
  ghost function FireFirst(log: Log): Log
    requires log.pending != []
  {
    log.(fired := log.fired + [log.pending[0]], pending := log.pending[1..])
  }

  lemma ScanRound(log: Log, before: Log, was: int, now: int)
    requires Scanned(log, before, was) && was <= now
    ensures Scanned(log, before, now)
    ensures before.pending != [] && before.pending[0].triggerTime <= now ==> Scanned(log, FireFirst(before), now)
  {
    if before.pending != [] && before.pending[0].triggerTime <= now {
      var e := before.pending[0];
      assert before.fired + [e] + before.pending[1..] == before.fired + before.pending;
    }
  }

  /** A scan that stops at an entry that is not due has done what the full filter does. */
  lemma ScanIsFilter(log: Log, cut: int, after: Log)
    requires Sorted(log.pending) && Scanned(log, after, cut)
    requires after.pending != [] ==> after.pending[0].triggerTime > cut
    ensures after == AfterScan(log, cut)
  {
    var k := MovedPrefix(log.fired, log.pending, after.fired, after.pending);
    assert k > 0 ==> after.fired[|after.fired| - 1] == log.pending[k - 1];
    DueIsPrefix(log.pending, cut, k);
  }

  /** A callback that started at `start` and read the clock last at `cut`. */
  ghost function AfterCallback(log: Log, start: int, cut: int): Log {
    AfterScan(log, cut).(lastScan := start, recent := true)
  }

  /** A callback keeps the invariant, fires everything due when it started, and nothing early. */
  lemma CallbackStep(log: Log, start: int, cut: int, after: Log)
    requires Orderly(log, start) && start <= cut
    requires after == AfterCallback(log, start, cut)
    ensures Orderly(after, cut) && after.fired + after.pending == log.fired + log.pending
    ensures forall e :: e in after.pending ==> start < e.triggerTime
    ensures forall e :: e in log.pending && e.triggerTime <= start ==> e in after.fired
  {
    DueAndLater(log.pending, cut);
    var due, rest := Due(log.pending, cut), Later(log.pending, cut);
    assert log.fired + due + rest == log.fired + log.pending;
    SortedConcat(due, rest);
  }

  /** The queue is an online stable sort exactly as long as every store comes in time: no
      reminder may be stored for an earlier time than one that has already fired. */
  lemma OnlineStableSort(log: Log, now: int)
    requires Orderly(log, now)
    ensures log.inTime <==> log.fired + log.pending == Sort(log.arrived)
    ensures log.forward ==> log.fired + log.pending == Sort(log.arrived)
  {
    StableSortExactlyWhenSorted(log.fired + log.pending, log.arrived);
  }

  /** What happens to the queue: a reminder is stored `seconds` after time `now`, or a callback
      starts and later reads the clock for the last time. */
  datatype Happening =
    | Stored(now: int, seconds: int, user: string, message: string)
    | Called(start: int, cut: int)

  ghost function AfterHappening(log: Log, h: Happening): Log {
    match h
    case Stored(now, seconds, user, message) => AfterStore(log, Entry(now + seconds * NS, user, message), seconds)
    case Called(start, cut) => AfterCallback(log, start, cut)
  }

  /** What these make of a log. */
  ghost function Follow(log: Log, hs: seq<Happening>): Log {
    if hs == [] then log else AfterHappening(Follow(log, hs[..|hs| - 1]), hs[|hs| - 1])
  }

  /** The log of a queue that has just been loaded. */
  function Unused(loaded: int): Log {
    Log([], [], [], true, true, true, loaded)
  }

  /** The history that these leave behind, from loading the module at time `loaded` on. */
  ghost function History(loaded: int, hs: seq<Happening>): Log {
    Follow(Unused(loaded), hs)
  }

  function Begin(h: Happening): int {
    if h.Stored? then h.now else h.start
  }

  function End(h: Happening): int {
    if h.Stored? then h.now else h.cut
  }

  /** The time of the last reading of the clock. */
  function Now(loaded: int, hs: seq<Happening>): int {
    if hs == [] then loaded else End(hs[|hs| - 1])
  }

  /** One after the other on a monotonic clock. */
  predicate Consecutive(loaded: int, hs: seq<Happening>) {
    hs != [] ==>
      var (init, h) := (hs[..|hs| - 1], hs[|hs| - 1]);
      Consecutive(loaded, init) && Now(loaded, init) <= Begin(h) <= End(h)
  }

  lemma {:induction false} FollowIsOrderly(log: Log, loaded: int, hs: seq<Happening>)
    requires Orderly(log, loaded) && Consecutive(loaded, hs)
    ensures Orderly(Follow(log, hs), Now(loaded, hs))
    decreases |hs|
  {
    if hs != [] {
      var init, h := hs[..|hs| - 1], hs[|hs| - 1];
      FollowIsOrderly(log, loaded, init);
      HappeningStep(Follow(log, init), Now(loaded, init), h);
    }
  }

  lemma HistoryIsOrderly(loaded: int, hs: seq<Happening>)
    requires Consecutive(loaded, hs)
    ensures Orderly(History(loaded, hs), Now(loaded, hs))
  {
    UnusedIsOrderly(loaded);
    FollowIsOrderly(Unused(loaded), loaded, hs);
  }

  lemma UnusedIsOrderly(loaded: int)
    ensures Orderly(Unused(loaded), loaded)
  {
    assert Unused(loaded).fired + Unused(loaded).pending == [];
  }

  lemma LaterOn(log: Log, was: int, now: int)
    requires Orderly(log, was) && was <= now
    ensures Orderly(log, now)
  {
  }

  lemma HappeningStep(log: Log, was: int, h: Happening)
    requires Orderly(log, was) && was <= Begin(h) <= End(h)
    ensures Orderly(AfterHappening(log, h), End(h))
  {
    var after := AfterHappening(log, h);
    match h
    case Stored(now, seconds, user, message) =>
      StoreStep(log, was, now, Entry(now + seconds * NS, user, message), seconds, after);
    case Called(start, cut) =>
      LaterOn(log, was, start);
      CallbackStep(log, start, cut, after);
  }

  lemma OneMoreHappening(log: Log, loaded: int, hs: seq<Happening>, h: Happening)
    ensures Follow(log, hs + [h]) == AfterHappening(Follow(log, hs), h)
    ensures Consecutive(loaded, hs) && Now(loaded, hs) <= Begin(h) <= End(h) ==>
              Consecutive(loaded, hs + [h]) && Now(loaded, hs + [h]) == End(h)
  {
    assert (hs + [h])[..|hs|] == hs;
  }

  /** What happened is what the event asks for. */
  predicate IsEvent(h: Happening, event: Event) {
    match event
    case Arrive(seconds, user, message) => h.Stored? && h.seconds == seconds && h.user == user && h.message == message
    case Tick => h.Called?
  }

  /** `hs` is how the first `k` events went, from time `loaded` to time `now`, and `after` is what
      they made of `log`. */
  ghost predicate Recorded(log: Log, loaded: int, events: seq<Event>, k: nat, hs: seq<Happening>, now: int, after: Log) {
    && |hs| == k <= |events| && (forall i :: 0 <= i < k ==> IsEvent(hs[i], events[i]))
    && Consecutive(loaded, hs) && Now(loaded, hs) == now
    && after == Follow(log, hs)
  }

  lemma RecordedStep(log: Log, loaded: int, events: seq<Event>, k: nat, hs: seq<Happening>, now: int, after: Log,
                     h: Happening, later: int, next: Log)
    requires Recorded(log, loaded, events, k, hs, now, after) && k < |events| && IsEvent(h, events[k])
    requires now <= Begin(h) <= End(h) == later && next == AfterHappening(after, h)
    ensures Recorded(log, loaded, events, k + 1, hs + [h], later, next)
  {
    OneMoreHappening(log, loaded, hs, h);
  }

  /** The record has the lines written and the signs of the delays. */
  lemma {:induction false} RecordedLines(log: Log, loaded: int, events: seq<Event>, k: nat, hs: seq<Happening>, now: int, after: Log)
    requires Recorded(log, loaded, events, k, hs, now, after)
    ensures Says(after.arrived) == Says(log.arrived) + Lines(events[..k])
    ensures after.forward <==> log.forward && forall e :: e in events[..k] && e.Arrive? ==> 0 <= e.seconds
    decreases k
  {
    if k > 0 {
      var init, h := hs[..k - 1], hs[k - 1];
      RecordedLines(log, loaded, events, k - 1, init, Now(loaded, init), Follow(log, init));
      OneMoreEvent(events, k - 1);
      SaysStep(Follow(log, init), h, events[k - 1], Lines(events[..k - 1]), log);
    }
  }

  lemma SaysStep(log: Log, h: Happening, event: Event, lines: seq<(string, string)>, first: Log)
    requires IsEvent(h, event) && Says(log.arrived) == Says(first.arrived) + lines
    ensures Says(AfterHappening(log, h).arrived)
         == Says(first.arrived) + (lines + if event.Arrive? then [(event.user, event.message)] else [])
    ensures AfterHappening(log, h).forward <==> log.forward && (event.Arrive? ==> 0 <= event.seconds)
  {
    if event.Arrive? {
      assert Says(AfterHappening(log, h).arrived) == Says(log.arrived) + [(event.user, event.message)];
    } else {
      assert lines + [] == lines;
    }
  }

  /** Over every history, what fired followed by the list is the stable sort of what was stored
      exactly if no store was for an earlier time than something that had fired. */
  lemma HistorySortsExactly(loaded: int, hs: seq<Happening>)
    requires Consecutive(loaded, hs)
    ensures var log := History(loaded, hs);
            (log.fired + log.pending == Sort(log.arrived) <==> log.inTime) && (log.forward ==> log.inTime)
  {
    HistoryIsOrderly(loaded, hs);
    OnlineStableSort(History(loaded, hs), Now(loaded, hs));
  }

  /** A reminder for 10 seconds is stored, fires, and is followed by one with a negative delay, for 5
      seconds. */
  function BackwardRun(): seq<Happening> {
    [Stored(0, 10, "a", "first"), Called(10 * NS, 10 * NS), Stored(20 * NS, -15, "a", "second")]
  }

  /** A negative delay - the code accepts one - can break the order. */
  lemma NegativeDelayBreaksTheOrder()
    ensures Consecutive(0, BackwardRun())
    ensures var log := History(0, BackwardRun());
            && log.fired == [Entry(10000000000, "a", "first")] && log.pending == [Entry(5000000000, "a", "second")]
            && log.fired + log.pending != Sort(log.arrived)
  {
    var hs := BackwardRun();
    var e, r := Entry(10 * NS, "a", "first"), Entry(5 * NS, "a", "second");
    FirstFires(hs[..2], e);
    assert hs[..2] == [Stored(0, 10, "a", "first"), Called(10 * NS, 10 * NS)];
    assert History(0, hs) == AfterStore(History(0, hs[..2]), r, -15);
    assert !(forall f :: f in [e] ==> f.triggerTime <= r.triggerTime) by {
      assert e in [e];
    }
    HistorySortsExactly(0, hs);
  }

  lemma FirstFires(hs: seq<Happening>, e: Entry)
    requires hs == [Stored(0, 10, "a", "first"), Called(10 * NS, 10 * NS)] && e == Entry(10 * NS, "a", "first")
    ensures Consecutive(0, hs) && Now(0, hs) == 10 * NS
    ensures History(0, hs) == Log([e], [], [e], true, true, true, 10 * NS)
  {
    var h1, h2 := hs[0], hs[1];
    assert hs == [h1] + [h2] && [] + [h1] == [h1];
    OneMoreHappening(Unused(0), 0, [], h1);
    OneMoreHappening(Unused(0), 0, [h1], h2);
    assert Follow(Unused(0), [h1]) == Log([], [e], [e], true, true, true, 0);
    DueOfOne(e, 10 * NS);
  }

  lemma DueOfOne(e: Entry, now: int)
    requires e.triggerTime <= now
    ensures Due([e], now) == [e] && Later([e], now) == []
  {
    assert [e][1..] == [];
  }

  /** The timer's interval is a second.  If a callback starts at most that long after the one before it, and no negative delay has
      come in between, every entry of the list is then at most one interval past its time, and the
      callback fires it exactly when its time has come by the last reading of the clock. */
  lemma NothingIsLate(log: Log, start: int, cut: int, e: Entry)
    requires Orderly(log, start) && log.recent && start <= log.lastScan + 1000000000 && start <= cut
    requires e in log.pending
    ensures start <= e.triggerTime + 1000000000
    ensures e in Due(log.pending, cut) <==> e.triggerTime <= cut
    ensures e in Later(log.pending, cut) <==> cut < e.triggerTime
  {
    DueAndLater(log.pending, cut);
    assert e in Due(log.pending, cut) + Later(log.pending, cut);
  }

  ghost function Members(nodes: seq<Node>): set<Node> {
    set x | x in nodes
  }

  lemma Inserted(nodes: seq<Node>, r: Node, k: nat)
    requires k <= |nodes|
    ensures var after := nodes[..k] + [r] + nodes[k..];
            && Entries(after) == Entries(nodes)[..k] + [r.entry] + Entries(nodes)[k..]
            && Members(after) == Members(nodes) + {r}
  {
    var after := nodes[..k] + [r] + nodes[k..];
    forall x | x in nodes
      ensures x in after
    {
      assert nodes == nodes[..k] + nodes[k..];
    }
    assert r in after;
  }

  ghost function Entries(nodes: seq<Node>): seq<Entry> {
    seq(|nodes|, i requires 0 <= i < |nodes| => nodes[i].entry)
  }

  /** The allocator: the reminders given to `kfree`; freeing one twice is an error. */
  class Slab {
    ghost var freed: set<Node>

    constructor ()
      ensures freed == {}
    {
      freed := {};
    }

    method Kfree(n: Node)
      requires n !in freed
      modifies this
      ensures freed == old(freed) + {n}
    {
      freed := freed + {n};
    }
  }

  /** The list module state: the ring, the clock, and ghost logs of what arrived and what fired. */
  class Reminders {
    const head: Node   // LIST_HEAD(reminders); its entry is never read
    const clock: Clock
    const slab: Slab
    ghost var nodes: seq<Node>      // the members of the ring, from head.next on
    ghost var arrived: seq<Entry>   // what was stored, in arrival order
    ghost var fired: seq<Entry>     // what was printed, in firing order
    ghost var inTime: bool          // no store so far was earlier than something already fired
    ghost var forward: bool         // no store so far had a negative delay
    ghost var recent: bool          // ... and none since the last callback
    ghost var lastScan: int         // when the last callback (or the module) started

    /** The ring: following `next` from the head visits the members and comes back, and `prev`
        is its inverse. */
    ghost predicate Ring()
      reads this`nodes, head, nodes
    {
      var n := |nodes|;
      && head !in nodes
      && (forall i, j :: 0 <= i < j < n ==> nodes[i] != nodes[j])
      && (if n == 0 then head.next == head && head.prev == head
          else head.next == nodes[0] && nodes[0].prev == head && nodes[n - 1].next == head && head.prev == nodes[n - 1])
      && (forall i {:trigger nodes[i].next} :: 0 <= i < n - 1 ==> nodes[i].next == nodes[i + 1])
      && (forall i {:trigger nodes[i].prev} :: 1 <= i < n ==> nodes[i].prev == nodes[i - 1])
    }

    /** No member of the ring has been freed. */
    ghost predicate Live()
      reads this`nodes, slab
    {
      Members(nodes) !! slab.freed
    }

    /** The sequence that the ring stands for. */
    ghost function Pending(): seq<Entry>
      reads this`nodes
    {
      Entries(nodes)
    }

    ghost function Logged(): Log
      reads this
    {
      Log(fired, Pending(), arrived, inTime, forward, recent, lastScan)
    }

    ghost predicate Valid()
      reads this, head, nodes, clock, slab
    {
      Ring() && Live() && Orderly(Logged(), clock.now)
    }

    constructor (clock: Clock, slab: Slab)
      ensures Valid() && this.clock == clock && this.slab == slab && fresh(head)
      ensures nodes == [] && arrived == [] && fired == [] && Logged() == Unused(clock.now)
      ensures inTime && forward && recent && lastScan == clock.now
    {
      var h := new Node(Entry(0, "", ""));
      h.next, h.prev := h, h;
      this.head, this.clock, this.slab := h, clock, slab;
      nodes, arrived, fired := [], [], [];
      inTime, forward, recent, lastScan := true, true, true, clock.now;
    }

    /** `list_add_tail(&n->next, pos)`: `n` goes in front of `pos`. */
    method ListAddTail(n: Node, pos: Node, ghost k: nat)
      requires Ring() && n !in nodes && n != head
      requires k <= |nodes| && pos == if k < |nodes| then nodes[k] else head
      modifies this`nodes, head, nodes, n
      ensures Ring() && nodes == old(nodes[..k] + [n] + nodes[k..])
    {
      var prev := pos.prev;
      pos.prev := n;
      n.next := pos;
      n.prev := prev;
      prev.next := n;
      nodes := nodes[..k] + [n] + nodes[k..];
    }

    /** `list_del(&e->next)`. */
    method ListDel(e: Node, ghost k: nat)
      requires Ring() && k < |nodes| && nodes[k] == e
      modifies this`nodes, head, nodes
      ensures Ring() && nodes == old(nodes[..k] + nodes[k + 1..])
      ensures e.next == null && e.prev == null && e !in nodes
    {
      ghost var was := nodes;
      var prev, next := e.prev, e.next;
      next.prev := prev;
      prev.next := next;
      e.next, e.prev := null, null;
      nodes := nodes[..k] + nodes[k + 1..];
      assert forall i :: 0 <= i < k ==> nodes[i] == was[i];
      assert forall i :: k <= i < |nodes| ==> nodes[i] == was[i + 1];
    }

    /** `add_message`: the scan stops at the first later entry, or comes back to the head. */
    method AddMessage(r: Node) returns (ghost k: nat)
      requires Ring() && Sorted(Pending()) && r !in nodes && r != head
      modifies this`nodes, head, nodes, r
      ensures Ring() && Pending() == Insert(old(Pending()), r.entry)
      ensures k <= |old(nodes)| && nodes == old(nodes[..k] + [r] + nodes[k..])
      ensures Members(nodes) == old(Members(nodes)) + {r}
    {
      k := 0;
      var it := head.next;
      while it != head
        invariant k <= |nodes| && it == if k < |nodes| then nodes[k] else head
        invariant k > 0 ==> nodes[k - 1].entry.triggerTime <= r.entry.triggerTime
        decreases |nodes| - k
      {
        if it.entry.triggerTime > r.entry.triggerTime {
          break;
        }
        it := it.next;
        k := k + 1;
      }
      InsertPosition(Pending(), r.entry, k);
      Inserted(nodes, r, k);
      ListAddTail(r, it, k);
    }

    /** The same, for a reminder that has not been freed. */
    method AddLive(r: Node)
      requires Ring() && Live() && Sorted(Pending()) && r !in nodes && r != head && r !in slab.freed
      modifies this`nodes, head, nodes, r
      ensures Ring() && Live() && Pending() == Insert(old(Pending()), r.entry)
      ensures Members(nodes) == old(Members(nodes)) + {r}
    {
      ghost var k := AddMessage(r);
    }

    method NewReminder(seconds: int, user: string, message: string) returns (r: Node)
      modifies clock
      ensures fresh(r) && old(clock.now) <= clock.now
      ensures r.entry == Entry(clock.now + seconds * NS, user, message)
    {
      var now := clock.KtimeGet();
      r := new Node(Entry(now + seconds * NS, user, message));
    }

    /** The tail of `recorder_store`: a reminder `seconds` from now. */
    method Store(seconds: int, user: string, message: string)
      requires Valid()
      modifies this`nodes, this`arrived, this`inTime, this`forward, this`recent, head, nodes, clock
      ensures Valid() && old(clock.now) <= clock.now
      ensures Logged() == AfterStore(old(Logged()), Entry(clock.now + seconds * NS, user, message), seconds)
      ensures arrived == old(arrived) + [Entry(clock.now + 1000000000 * seconds, user, message)]
      ensures fresh(Members(nodes) - old(Members(nodes)))
    {
      ghost var log, was := Logged(), clock.now;
      var r := NewReminder(seconds, user, message);
      AddLive(r);
      RecordArrival(log, was, r.entry, seconds);
    }

    /** The ghost logs of a store, after the list has been updated. */
    ghost method RecordArrival(log: Log, was: int, r: Entry, seconds: int)
      requires Ring() && Live() && Logged() == log.(pending := Insert(log.pending, r))
      requires Orderly(log, was) && was <= clock.now && r.triggerTime == clock.now + seconds * NS
      modifies this`arrived, this`inTime, this`forward, this`recent
      ensures Valid() && Logged() == AfterStore(log, r, seconds)
    {
      var after := AfterStore(log, r, seconds);
      StoreStep(log, was, clock.now, r, seconds, after);
      arrived, inTime, forward, recent := after.arrived, after.inTime, after.forward, after.recent;
      assert Logged() == after;
      assert Ring();
    }

    /** `list_del` and `kfree` of the first member. */
    method Discard(i: Node)
      requires Ring() && Live() && nodes != [] && i == nodes[0]
      modifies this`nodes, slab, head, nodes
      ensures Ring() && Live() && nodes == old(nodes)[1..]
      ensures slab.freed == old(slab.freed) + {i}
      ensures slab.freed + Members(nodes) == old(slab.freed + Members(nodes))
    {
      ListDel(i, 0);
      slab.Kfree(i);
    }

    /** One round of the scan: the first member goes if it is due by a new reading of the clock. */
    method FireIfDue(i: Node, ghost log: Log) returns (due: bool)
      requires Ring() && Live() && nodes != [] && i == nodes[0]
      requires Scanned(log, Logged(), clock.now)
      modifies this`nodes, this`fired, slab, head, nodes, clock
      ensures Ring() && Live() && old(clock.now) <= clock.now
      ensures Scanned(log, Logged(), clock.now)
      ensures due <==> i.entry.triggerTime <= clock.now
      ensures nodes == if due then old(nodes)[1..] else old(nodes)
      ensures slab.freed + Members(nodes) == old(slab.freed + Members(nodes))
    {
      ghost var before, was := Logged(), clock.now;
      var reading := clock.KtimeGet();
      ScanRound(log, before, was, reading);
      due := i.entry.triggerTime <= reading;
      if due {
        fired := fired + [i.entry];
        Discard(i);
        assert Logged() == FireFirst(before);
      }
    }

    /** `trigger_messages`: prints and frees from the front until an entry is not yet due.  The
        clock is read anew for every entry.  The early break makes no difference: exactly the
        entries due at the last reading go. */
    method TriggerMessages()
      requires Ring() && Live() && Sorted(Pending())
      modifies this`nodes, this`fired, slab, head, nodes, clock
      ensures Ring() && Live() && old(clock.now) <= clock.now
      ensures Logged() == AfterScan(old(Logged()), clock.now)
      ensures slab.freed + Members(nodes) == old(slab.freed + Members(nodes))
      ensures Members(nodes) <= old(Members(nodes))
    {
      ghost var log, was, k := Logged(), nodes, 0;
      var i := head.next;
      var safe := i.next;
      while i != head
        invariant Ring() && Live() && k <= |was| && nodes == was[k..]
        invariant i == (if nodes != [] then nodes[0] else head) && safe == i.next
        invariant old(clock.now) <= clock.now && Scanned(log, Logged(), clock.now)
        invariant slab.freed + Members(nodes) == old(slab.freed + Members(nodes))
        decreases |nodes|
      {
        var due := FireIfDue(i, log);
        if !due {
          break;
        }
        k := k + 1;
        i := safe;
        safe := i.next;
      }
      ScanIsFilter(log, clock.now, Logged());
    }

    /** `timer_callback`; the timer restarts itself. */
    method TimerCallback()
      requires Valid()
      modifies this`nodes, this`fired, slab, this`recent, this`lastScan, head, nodes, clock
      ensures Valid() && old(clock.now) <= clock.now
      ensures Logged() == AfterCallback(old(Logged()), old(clock.now), clock.now)
      ensures Members(nodes) <= old(Members(nodes))
    {
      ghost var log, start := Logged(), clock.now;
      TriggerMessages();
      lastScan, recent := start, true;
      assert Logged() == AfterCallback(log, start, clock.now);
      CallbackStep(log, start, clock.now, Logged());
    }

    /** The drain loop of `reminder_exit`: every entry is unlinked and freed once. */
    method Drain()
      requires Ring() && Live()
      modifies this`nodes, slab, head, nodes
      ensures Ring() && Live() && nodes == [] && head.next == head && head.prev == head
      ensures slab.freed == old(slab.freed + Members(nodes))
    {
      ghost var k := 0;
      var i := head.next;
      var safe := i.next;
      while i != head
        invariant Ring() && Live() && k <= |old(nodes)| && nodes == old(nodes)[k..]
        invariant i == (if nodes != [] then nodes[0] else head) && safe == i.next
        invariant slab.freed + Members(nodes) == old(slab.freed + Members(nodes))
        decreases |nodes|
      {
        Discard(i);
        k := k + 1;
        i := safe;
        safe := i.next;
      }
    }

    /** One event; `h` is what happened, and when. */
    method Handle(event: Event) returns (ghost h: Happening)
      requires Valid()
      modifies this`nodes, this`arrived, this`fired, this`inTime, this`forward, this`recent, this`lastScan
      modifies slab, head, nodes, clock
      ensures Valid() && fresh(Members(nodes) - old(Members(nodes)))
      ensures IsEvent(h, event) && old(clock.now) <= Begin(h) <= End(h) == clock.now
      ensures Logged() == AfterHappening(old(Logged()), h)
      ensures Says(arrived) == Says(old(arrived)) + if event.Arrive? then [(event.user, event.message)] else []
      ensures forward <==> old(forward) && (event.Arrive? ==> 0 <= event.seconds)
    {
      ghost var start := clock.now;
      match event {
        case Arrive(seconds, user, message) =>
          Store(seconds, user, message);
          h := Stored(clock.now, seconds, user, message);
        case Tick =>
          TimerCallback();
          h := Called(start, clock.now);
      }
    }

    /** Any run of stores and callbacks, and the history `hs` that it is: each event happens, in order,
        at some time of the clock.  If no delay is negative, what fired, followed by what is still in
        the list, is the stable sort of everything stored. */
    method Run(events: seq<Event>) returns (ghost hs: seq<Happening>)
      requires Valid()
      modifies this`nodes, this`arrived, this`fired, this`inTime, this`forward, this`recent, this`lastScan
      modifies slab, head, nodes, clock
      ensures Valid()
      ensures |hs| == |events| && forall k :: 0 <= k < |hs| ==> IsEvent(hs[k], events[k])
      ensures Consecutive(old(clock.now), hs) && Now(old(clock.now), hs) == clock.now
      ensures Logged() == Follow(old(Logged()), hs)
      ensures inTime <==> fired + Pending() == Sort(arrived)
      ensures Says(arrived) == Says(old(arrived)) + Lines(events)
      ensures forward <==> old(forward) && forall e :: e in events && e.Arrive? ==> 0 <= e.seconds
      ensures forward ==> fired + Pending() == Sort(arrived)
    {
      ghost var log, loaded, mine := Logged(), clock.now, Members(nodes);
      hs := [];
      for k := 0 to |events|
        invariant Valid() && fresh(Members(nodes) - mine)
        invariant Recorded(log, loaded, events, k, hs, clock.now, Logged())
      {
        ghost var now, before := clock.now, Logged();
        ghost var h := Handle(events[k]);
        RecordedStep(log, loaded, events, k, hs, now, before, h, clock.now, Logged());
        hs := hs + [h];
      }
      RecordedLines(log, loaded, events, |events|, hs, clock.now, Logged());
      assert events[..|events|] == events;
      OnlineStableSort(Logged(), clock.now);
    }
  }

  /** From loading the module on: the state of the ring is the history of what happened. */
  method RunFromStart(clock: Clock, slab: Slab, events: seq<Event>) returns (r: Reminders, ghost hs: seq<Happening>)
    modifies clock, slab
    ensures r.Valid() && fresh(r) && r.clock == clock
    ensures |hs| == |events| && forall k :: 0 <= k < |hs| ==> IsEvent(hs[k], events[k])
    ensures Consecutive(old(clock.now), hs) && r.Logged() == History(old(clock.now), hs)
  {
    r := new Reminders(clock, slab);
    hs := r.Run(events);
  }
}
