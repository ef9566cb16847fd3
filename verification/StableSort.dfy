/** Stable sorting by trigger time, as the reminder queue of task08/reminder.c does it online. */
module StableSort {

  /** The payload of a `struct reminder`. */
  datatype Entry = Entry(triggerTime: int, user: string, message: string)

  ghost predicate Sorted(es: seq<Entry>) {
    forall i, j :: 0 <= i < j < |es| ==> es[i].triggerTime <= es[j].triggerTime
  }

  /** `r` placed before the first entry that is later than it. */
  function Insert(es: seq<Entry>, r: Entry): seq<Entry> {
    if es == [] || es[0].triggerTime > r.triggerTime then [r] + es
    else [es[0]] + Insert(es[1..], r)
  }

  /** Insertion sort in arrival order. */
  function Sort(es: seq<Entry>): seq<Entry> {
    if es == [] then [] else Insert(Sort(es[..|es| - 1]), es[|es| - 1])
  }

  /** The entries for time `t`, in order. */
  function At(es: seq<Entry>, t: int): seq<Entry> {
    if es == [] then []
    else (if es[0].triggerTime == t then [es[0]] else []) + At(es[1..], t)
  }

  /** Same entries, and entries of equal time in the same order. */
  ghost predicate SameUpToTime(es: seq<Entry>, fs: seq<Entry>) {
    forall t :: At(es, t) == At(fs, t)
  }

  lemma {:induction false} AtConcat(es: seq<Entry>, fs: seq<Entry>, t: int)
    ensures At(es + fs, t) == At(es, t) + At(fs, t)
    decreases |es|
  {
    if es == [] {
      assert es + fs == fs;
    } else {
      AtConcat(es[1..], fs, t);
      var first := if es[0].triggerTime == t then [es[0]] else [];
      assert (es + fs)[0] == es[0] && (es + fs)[1..] == es[1..] + fs;
      assert first + (At(es[1..], t) + At(fs, t)) == (first + At(es[1..], t)) + At(fs, t);
    }
  }

  lemma {:induction false} AtLater(es: seq<Entry>, t: int)
    requires forall i :: 0 <= i < |es| ==> es[i].triggerTime > t
    ensures At(es, t) == []
    decreases |es|
  {
    if es != [] {
      AtLater(es[1..], t);
    }
  }

  lemma {:induction false} InsertAt(es: seq<Entry>, r: Entry, t: int)
    requires Sorted(es)
    ensures At(Insert(es, r), t) == At(es, t) + if r.triggerTime == t then [r] else []
    decreases |es|
  {
    if es == [] || es[0].triggerTime > r.triggerTime {
      assert ([r] + es)[1..] == es;
      if r.triggerTime == t {
        AtLater(es, t);
      }
    } else {
      InsertAt(es[1..], r, t);
      assert ([es[0]] + Insert(es[1..], r))[1..] == Insert(es[1..], r);
    }
  }

  lemma {:induction false} InsertAfter(es: seq<Entry>, r: Entry, k: nat)
    requires k <= |es|
    requires forall i :: 0 <= i < k ==> es[i].triggerTime <= r.triggerTime
    requires k < |es| ==> es[k].triggerTime > r.triggerTime
    ensures Insert(es, r) == es[..k] + [r] + es[k..]
    decreases k
  {
    if k > 0 {
      InsertAfter(es[1..], r, k - 1);
      assert es[1..][..k - 1] == es[1..k] && es[1..][k - 1..] == es[k..];
    }
  }

  /** Where `Insert` puts the new entry. */
  lemma InsertPosition(es: seq<Entry>, r: Entry, k: nat)
    requires Sorted(es) && k <= |es|
    requires k > 0 ==> es[k - 1].triggerTime <= r.triggerTime
    requires k < |es| ==> es[k].triggerTime > r.triggerTime
    ensures Insert(es, r) == es[..k] + [r] + es[k..]
  {
    InsertAfter(es, r, k);
  }

  lemma {:induction false} InsertMembers(es: seq<Entry>, r: Entry)
    ensures |Insert(es, r)| == |es| + 1
    ensures forall i :: 0 <= i < |es| + 1 ==> Insert(es, r)[i] == r || Insert(es, r)[i] in es
    decreases |es|
  {
    if es != [] && es[0].triggerTime <= r.triggerTime {
      InsertMembers(es[1..], r);
    }
  }

  lemma {:induction false} InsertKeepsSorted(es: seq<Entry>, r: Entry)
    requires Sorted(es)
    ensures Sorted(Insert(es, r))
    decreases |es|
  {
    if es != [] && es[0].triggerTime <= r.triggerTime {
      InsertKeepsSorted(es[1..], r);
      InsertMembers(es[1..], r);
    }
  }

  lemma AtAppend(es: seq<Entry>, r: Entry, t: int)
    ensures At(es + [r], t) == At(es, t) + if r.triggerTime == t then [r] else []
  {
    AtConcat(es, [r], t);
    assert [r][1..] == [];
  }

  /** Insertion sort is a stable sort. */
  lemma {:induction false} SortIsStable(es: seq<Entry>)
    ensures Sorted(Sort(es)) && SameUpToTime(Sort(es), es)
    decreases |es|
  {
    if es != [] {
      var init, r := es[..|es| - 1], es[|es| - 1];
      SortIsStable(init);
      InsertKeepsSorted(Sort(init), r);
      assert init + [r] == es;
      forall t
        ensures At(Sort(es), t) == At(es, t)
      {
        InsertAt(Sort(init), r, t);
        AtAppend(init, r, t);
      }
    }
  }

  lemma {:induction false} AtMembers(es: seq<Entry>, t: int)
    ensures forall i :: 0 <= i < |At(es, t)| ==> At(es, t)[i].triggerTime == t && At(es, t)[i] in es
    decreases |es|
  {
    if es != [] {
      AtMembers(es[1..], t);
    }
  }

  /** A sorted list begins with the first entry of the earliest time. */
  lemma SameHead(es: seq<Entry>, fs: seq<Entry>)
    requires Sorted(es) && Sorted(fs) && SameUpToTime(es, fs) && es != []
    ensures fs != [] && es[0] == fs[0] && SameUpToTime(es[1..], fs[1..])
  {
    var t := es[0].triggerTime;
    assert At(es, t) == [es[0]] + At(es[1..], t);
    AtMembers(fs, t);
    assert At(fs, t)[0] in fs;
    var u := fs[0].triggerTime;
    assert At(fs, u) == [fs[0]] + At(fs[1..], u);
    AtMembers(es, u);
    assert At(es, u)[0] in es;
    assert t == u;
    forall v
      ensures At(es[1..], v) == At(fs[1..], v)
    {
      if v == t {
        assert At(es, v)[1..] == At(es[1..], v) && At(fs, v)[1..] == At(fs[1..], v);
      } else {
        assert At(es, v) == At(es[1..], v) && At(fs, v) == At(fs[1..], v);
      }
    }
  }

  lemma NothingAt(es: seq<Entry>)
    requires forall t :: At(es, t) == []
    ensures es == []
  {
    assert es != [] ==> At(es, es[0].triggerTime) != [];
  }

  /** Two sorted lists with the same entries, equal times in the same order, are equal. */
  lemma {:induction false} SortedIsUnique(es: seq<Entry>, fs: seq<Entry>)
    requires Sorted(es) && Sorted(fs) && SameUpToTime(es, fs)
    ensures es == fs
    decreases |es|
  {
    if es == [] {
      NothingAt(fs);
    } else {
      SameHead(es, fs);
      SortedIsUnique(es[1..], fs[1..]);
      assert es == [es[0]] + es[1..] && fs == [fs[0]] + fs[1..];
    }
  }

  /** A rearrangement that keeps equal times in order is the stable sort exactly when it is sorted. */
  lemma StableSortExactlyWhenSorted(es: seq<Entry>, arrived: seq<Entry>)
    requires SameUpToTime(es, arrived)
    ensures Sorted(es) <==> es == Sort(arrived)
  {
    SortIsStable(arrived);
    if Sorted(es) {
      SortedIsUnique(es, Sort(arrived));
    }
  }

  /** One arrival: what was fired, then the list, stays a rearrangement of the arrivals that keeps
      equal times in order; it stays sorted exactly when no later entry was fired before. */
  lemma ArrivalStep(fired: seq<Entry>, pending: seq<Entry>, arrived: seq<Entry>, r: Entry)
    requires Sorted(pending) && SameUpToTime(fired + pending, arrived)
    ensures SameUpToTime(fired + Insert(pending, r), arrived + [r])
    ensures Sorted(Insert(pending, r))
    ensures Sorted(fired + Insert(pending, r)) <==>
              (Sorted(fired + pending) && forall e :: e in fired ==> e.triggerTime <= r.triggerTime)
  {
    var after := Insert(pending, r);
    forall t
      ensures At(fired + after, t) == At(arrived + [r], t)
    {
      AtConcat(fired, after, t);
      AtConcat(fired, pending, t);
      InsertAt(pending, r, t);
      AtAppend(arrived, r, t);
      assert At(fired + pending, t) == At(arrived, t);
    }
    InsertKeepsSorted(pending, r);
    InsertMembers(pending, r);
    InsertKeepsMembers(pending, r);
    SortedConcat(fired, pending);
    SortedConcat(fired, after);
  }

  lemma {:induction false} InsertKeepsMembers(es: seq<Entry>, r: Entry)
    ensures r in Insert(es, r) && forall e :: e in es ==> e in Insert(es, r)
    decreases |es|
  {
    if es != [] && es[0].triggerTime <= r.triggerTime {
      InsertKeepsMembers(es[1..], r);
    }
  }

  lemma SortedConcat(es: seq<Entry>, fs: seq<Entry>)
    ensures Sorted(es + fs) <==>
              (&& Sorted(es) && Sorted(fs)
               && forall e, f :: e in es && f in fs ==> e.triggerTime <= f.triggerTime)
  {
    var gs := es + fs;
    if Sorted(gs) {
      forall i, j | 0 <= i < j < |es|
        ensures es[i].triggerTime <= es[j].triggerTime
      {
        assert gs[i] == es[i] && gs[j] == es[j];
      }
      forall i, j | 0 <= i < j < |fs|
        ensures fs[i].triggerTime <= fs[j].triggerTime
      {
        assert gs[|es| + i] == fs[i] && gs[|es| + j] == fs[j];
      }
      forall e, f | e in es && f in fs
        ensures e.triggerTime <= f.triggerTime
      {
        var i :| 0 <= i < |es| && es[i] == e;
        var j :| 0 <= j < |fs| && fs[j] == f;
        assert gs[i] == e && gs[|es| + j] == f;
      }
    }
  }

  /** The entries due at time `now`, in order: a full filter, without the early break. */
  function Due(es: seq<Entry>, now: int): seq<Entry> {
    if es == [] then []
    else (if es[0].triggerTime <= now then [es[0]] else []) + Due(es[1..], now)
  }

  /** The other entries, in order. */
  function Later(es: seq<Entry>, now: int): seq<Entry> {
    if es == [] then []
    else (if es[0].triggerTime <= now then [] else [es[0]]) + Later(es[1..], now)
  }

  /** On a sorted list the due entries are a prefix, so the scan may stop at the first other one. */
  lemma {:induction false} DueIsPrefix(es: seq<Entry>, now: int, k: nat)
    requires Sorted(es) && k <= |es|
    requires k > 0 ==> es[k - 1].triggerTime <= now
    requires k < |es| ==> es[k].triggerTime > now
    ensures Due(es, now) == es[..k] && Later(es, now) == es[k..]
    decreases |es|
  {
    if es != [] {
      if k == 0 {
        DueIsPrefix(es[1..], now, 0);
      } else {
        DueIsPrefix(es[1..], now, k - 1);
        assert es[..k] == [es[0]] + es[1..][..k - 1];
      }
    }
  }

  lemma {:induction false} DueAndLater(es: seq<Entry>, now: int)
    requires Sorted(es)
    ensures Due(es, now) + Later(es, now) == es
    ensures forall e :: e in Due(es, now) ==> e.triggerTime <= now
    ensures forall e :: e in Later(es, now) ==> now < e.triggerTime
    decreases |es|
  {
    if es != [] {
      if es[0].triggerTime <= now {
        DueAndLater(es[1..], now);
        assert Due(es, now) + Later(es, now) == [es[0]] + (Due(es[1..], now) + Later(es[1..], now));
      } else {
        DueIsPrefix(es, now, 0);
      }
    }
  }

  /** Two ways to cut the same sequence. */
  lemma MovedPrefix(fs: seq<Entry>, es: seq<Entry>, fs': seq<Entry>, es': seq<Entry>) returns (k: nat)
    requires fs' + es' == fs + es && |fs| <= |fs'|
    ensures k <= |es| && fs' == fs + es[..k] && es' == es[k..]
  {
    k := |fs'| - |fs|;
    assert fs' == (fs' + es')[..|fs'|] == fs + es[..k];
    assert es' == (fs' + es')[|fs'|..] == es[k..];
  }
}
