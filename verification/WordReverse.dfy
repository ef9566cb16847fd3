/** The procfs device of exercise10/part02/rw.c: a text written to it is upper-cased and the
    order of its words reversed, all in place, and can then be read back in pieces.

    Pointers into the buffer are indices; -1 stands for a null pointer.  The code does not check
    that they stay inside the buffer: the methods that may leave it stop at the first such access
    and return false, and what happens behind it is not modelled. */
module WordReverse {
  import opened Words

  const BUFFER_SIZE := 256

  /** The part `lo`..`hi` of `s` reversed. */
  function Reversed(s: string, lo: nat, hi: nat, makeUpper: bool): string
    requires lo <= hi < |s|
  {
    var part := s[lo..hi + 1];
    s[..lo] + Rev(if makeUpper then UpperAll(part) else part) + s[hi + 1..]
  }

  /** C division by two, which truncates toward zero. */
  function Half(d: int): int {
    if d < 0 then -(-d / 2) else d / 2
  }

  const TWO63 := 0x8000_0000_0000_0000
  const TWO64 := 0x1_0000_0000_0000_0000

  /** Conversion of a pointer difference to `size_t`. */
  function Unsigned(d: int): nat {
    d % TWO64
  }

  /** An interval of which `reverse_interval` stays inside a buffer of `n` characters; it may be
      empty, but then it must end right in front of where it begins. */
  predicate IntervalInside(a: int, b: int, n: int) {
    0 <= a < n && 0 <= b < n && a - 1 <= b
  }

  method SwapChars(buf: array<char>, a: nat, b: nat)
    requires a < buf.Length && b < buf.Length
    modifies buf
    ensures buf[..] == old(buf[..])[a := old(buf[b])][b := old(buf[a])]
  {
    var t := buf[a];
    buf[a] := buf[b];
    buf[b] := t;
  }

  /** The characters at `p` and `q` exchanged, and upper-cased if asked. */
  function PairSwapped(s: string, p: nat, q: nat, makeUpper: bool): string
    requires p < |s| && q < |s|
  {
    if makeUpper then s[p := Upper(s[q])][q := Upper(s[p])] else s[p := s[q]][q := s[p]]
  }

  /** One round of the loop of `reverse_interval`, unless it leaves the buffer. */
  method SwapPair(buf: array<char>, p: int, q: int, makeUpper: bool) returns (ok: bool)
    modifies buf
    ensures ok <==> 0 <= p < buf.Length && 0 <= q < buf.Length
    ensures ok ==> buf[..] == PairSwapped(old(buf[..]), p, q, makeUpper)
  {
    if !(0 <= p < buf.Length && 0 <= q < buf.Length) {
      return false;
    }
    SwapChars(buf, p, q);
    if makeUpper {
      buf[p] := Upper(buf[p]);
      buf[q] := Upper(buf[q]);
    }
    return true;
  }

  /** What the loop of `reverse_interval` has done to position `k` after `i` rounds. */
  function After(s: string, lo: nat, hi: nat, makeUpper: bool, i: nat, k: nat): char
    requires lo <= hi < |s| && k < |s|
  {
    if lo <= k <= hi && (k - lo < i || hi - k < i) then
      if makeUpper then Upper(s[lo + hi - k]) else s[lo + hi - k]
    else s[k]
  }

  /** `s` after `reverse_interval`.  With `b == a - 1`, an empty interval, it still swaps once, which
      is to reverse the two characters around it. */
  function IntervalReversed(s: string, a: int, b: int, makeUpper: bool): string
    requires IntervalInside(a, b, |s|)
  {
    if a <= b then Reversed(s, a, b, makeUpper) else Reversed(s, b, a, makeUpper)
  }

  lemma ReversedAt(s: string, lo: nat, hi: nat, makeUpper: bool, k: nat)
    requires lo <= hi < |s| && k < |s|
    ensures |Reversed(s, lo, hi, makeUpper)| == |s|
    ensures Reversed(s, lo, hi, makeUpper)[k] == After(s, lo, hi, makeUpper, |s|, k)
  {
    assert |Rev(s[lo..hi + 1])| == hi + 1 - lo;
    if lo <= k <= hi {
      assert s[lo..hi + 1][hi - k] == s[lo + hi - k];
    }
  }

  /** What `i` rounds of the loop have made of `s`. */
  ghost predicate Rounds(s: string, a: int, b: int, makeUpper: bool, i: nat, t: string)
    requires IntervalInside(a, b, |s|)
  {
    && |t| == |s|
    && forall k :: 0 <= k < |s| ==>
         t[k] == if a <= b then After(s, a, b, makeUpper, i, k) else After(s, b, a, makeUpper, i, k)
  }

  lemma NextRound(s: string, a: nat, b: nat, makeUpper: bool, i: nat, t: string)
    requires IntervalInside(a, b, |s|) && 2 * i <= (if a <= b then b - a else 0)
    requires Rounds(s, a, b, makeUpper, i, t)
    ensures Rounds(s, a, b, makeUpper, i + 1, PairSwapped(t, a + i, b - i, makeUpper))
  {
  }

  lemma AllRounds(s: string, a: nat, b: nat, makeUpper: bool, i: nat, t: string)
    requires IntervalInside(a, b, |s|) && (if a <= b then b - a else 1) < 2 * i
    requires Rounds(s, a, b, makeUpper, i, t)
    ensures t == IntervalReversed(s, a, b, makeUpper)
  {
    var lo, hi := if a <= b then a else b, if a <= b then b else a;
    assert IntervalReversed(s, a, b, makeUpper) == Reversed(s, lo, hi, makeUpper);
    ReversedAt(s, lo, hi, makeUpper, 0);
    forall k | 0 <= k < |s|
      ensures t[k] == Reversed(s, lo, hi, makeUpper)[k]
    {
      ReversedAt(s, lo, hi, makeUpper, k);
      assert lo <= k <= hi ==> k - lo < i || hi - k < i;
    }
  }

  /** The bound `l` of the loop: half the way, or, for a difference below -1, more than the buffer
      has characters. */
  method Bound(a: int, b: int, ghost n: nat) returns (l: nat)
    requires n < TWO63
    ensures a - 1 <= b && b - a < n ==> 2 * l <= (if a <= b then b - a else 0) < 2 * l + 2
    ensures b < a - 1 && 0 <= b && a < n ==> n <= l
  {
    l := Unsigned(Half(b - a));
    if 0 <= b < a - 1 && a < n {
      assert l == TWO64 - (a - b) / 2;
    }
  }

  /** `reverse_interval`, stopped by the first access outside the buffer. */
  method ReverseInterval(buf: array<char>, a: int, b: int, makeUpper: bool) returns (ok: bool)
    requires buf.Length < TWO63
    modifies buf
    ensures ok <==> IntervalInside(a, b, buf.Length)
    ensures ok ==> buf[..] == IntervalReversed(old(buf[..]), a, b, makeUpper)
  {
    ghost var s, inside := buf[..], IntervalInside(a, b, buf.Length);
    var l := Bound(a, b, buf.Length);
    var i, p, q: int := 0, a, b;
    while i <= l
      invariant 0 <= i && p == a + i && q == b - i && (inside ==> i <= l + 1)
      invariant i > 0 ==> 0 <= a <= a + i - 1 < buf.Length && 0 <= b - (i - 1) <= b < buf.Length
      invariant inside ==> Rounds(s, a, b, makeUpper, i, buf[..])
    {
      ghost var t := buf[..];
      ok := SwapPair(buf, p, q, makeUpper);
      if !ok {
        return;
      }
      if inside {
        NextRound(s, a, b, makeUpper, i, t);
      }
      i, p, q := i + 1, p + 1, q - 1;
    }
    assert inside;
    AllRounds(s, a, b, makeUpper, i, buf[..]);
    return true;
  }

  /** `strlen`, or the length of the buffer if it would read past it. */
  method StrLen(buf: array<char>) returns (n: nat)
    ensures n == Find(buf[..], '\0')
  {
    n := 0;
    while n < buf.Length && buf[n] != '\0'
      invariant n <= buf.Length && '\0' !in buf[..n]
    {
      n := n + 1;
    }
    assert buf[..buf.Length] == buf[..];
    if n < buf.Length {
      FindIs(buf[..], '\0', n);
    }
  }

  lemma FindIs(s: string, c: char, k: nat)
    requires k < |s| && s[k] == c && c !in s[..k]
    ensures Find(s, c) == k
  {
    forall i | 0 <= i < k
      ensures s[i] != c
    {
      assert s[i] == s[..k][i];
    }
  }

  /** `strchr` from position `p` in a string that ends at `n`; -1 when there is no `c`. */
  method StrChr(buf: array<char>, p: nat, c: char, ghost n: nat) returns (k: int)
    requires p <= n < buf.Length && buf[n] == '\0' && '\0' !in buf[p..n] && c != '\0'
    ensures k == if c in buf[p..n] then p + Find(buf[p..n], c) else -1
  {
    var i := p;
    while buf[i] != '\0' && buf[i] != c
      invariant p <= i <= n && c !in buf[p..i]
      decreases n - i
    {
      assert i < n;
      i := i + 1;
    }
    if i < n {
      assert buf[i] in buf[p..n];
    }
    assert forall j :: p <= j < n ==> buf[j] == buf[p..n][j - p];
    if buf[i] == c {
      assert buf[p..n][..i - p] == buf[p..i];
      FindIs(buf[p..n], c, i - p);
      return i;
    }
    assert i == n;
    return -1;
  }

  // ----- reverse_string -----

  /** The texts on which `reverse_string` stays inside the buffer: a terminated string of at
      least two characters whose last two characters are not spaces.  (With a shorter string or a
      space in front of the last character it swaps with the character before the buffer; with a
      space as the last character it runs on past the end.) */
  predicate Safe(s: string) {
    && '\0' in s
    && 2 <= Find(s, '\0')
    && s[Find(s, '\0') - 1] != ' '
    && s[Find(s, '\0') - 2] != ' '
  }

  /** The text without its last character (a newline), which is not part of any word. */
  function Body(s: string): string
    requires Safe(s)
  {
    s[..Find(s, '\0') - 1]
  }

  /** The last character of the text, its terminator and the rest of the buffer. */
  function Tail(s: string): (t: string)
    requires Safe(s)
    ensures s == Body(s) + t && 2 <= |t|
  {
    s[Find(s, '\0') - 1..]
  }

  /** The second pass over the reversed text `r`, with the last character of the text in front of
      `t`.  A space at the end of `r` puts an empty word behind it, and reversing that exchanges
      the space with the last character. */
  function SecondPass(r: string, t: string): string
    requires r != [] && t != []
  {
    if r[|r| - 1] == ' ' then EachReversed(r)[..|r| - 1] + [t[0], ' '] + t[1..] else EachReversed(r) + t
  }

  /** What `reverse_string` leaves in the buffer. */
  function Transformed(s: string): string
    requires Safe(s)
  {
    var r, t := Rev(UpperAll(Body(s))), Tail(s);
    if ' ' !in Body(s) then r + t else SecondPass(r, t)
  }

  /** The first pass of `reverse_string`. */
  lemma FirstPass(s: string)
    requires Safe(s)
    ensures Reversed(s, 0, |Body(s)| - 1, true) == Rev(UpperAll(Body(s))) + Tail(s)
  {
    assert s[0..|Body(s)|] == Body(s);
  }

  /** Part way through the second pass over `r`: the words in `done` are reversed, those in `u` are
      to come, and `t` is the last character with what follows. */
  ghost predicate Pass(r: string, t: string, done: string, u: string) {
    && |r| == |done| + |u| && r[|done|..] == u && 2 <= |t|
    && done + EachReversed(u) == EachReversed(r)
    && (if done == [] then u != [] && u[0] != ' ' else done[|done| - 1] == ' ' == r[|done| - 1])
    && '\0' !in done && '\0' !in u
    && t[0] != ' ' && t[0] != '\0' && t[1] == '\0'
  }

  lemma PieceReversed(done: string, w: string, rest: string)
    requires w != []
    ensures Reversed(done + w + rest, |done|, |done| + |w| - 1, false) == done + Rev(w) + rest
  {
    var s := done + w + rest;
    assert s[|done|..|done| + |w|] == w && s[..|done|] == done && s[|done| + |w|..] == rest;
  }

  lemma EachReversedCons(w: string, rest: string)
    requires ' ' !in w
    ensures EachReversed(w + [' '] + rest) == Rev(w) + [' '] + EachReversed(rest)
  {
    var s := w + [' '] + rest;
    assert s[|w|] == ' ';
    FirstSpace(s, w, rest);
  }

  lemma EachReversedAfter(done: string, w: string, rest: string)
    requires ' ' !in w
    ensures (done + Rev(w) + [' ']) + EachReversed(rest) == done + EachReversed(w + [' '] + rest)
  {
    EachReversedCons(w, rest);
  }

  lemma SameCharacters(done: string, w: string, rest: string)
    requires '\0' !in done && '\0' !in w + [' '] + rest
    ensures '\0' !in done + Rev(w) + [' '] && '\0' !in rest
  {
    var u := w + [' '] + rest;
    assert w == u[..|w|] && rest == u[|w| + 1..];
    NotInRev(w);
  }

  lemma PassAdvances(r: string, t: string, done: string, w: string, rest: string)
    requires ' ' !in w && Pass(r, t, done, w + [' '] + rest)
    ensures Pass(r, t, done + Rev(w) + [' '], rest)
  {
    var u, done' := w + [' '] + rest, done + Rev(w) + [' '];
    EachReversedAfter(done, w, rest);
    SameCharacters(done, w, rest);
    assert r[|done'| - 1] == u[|w|] == ' ';
    assert r[|done'|..] == u[|w| + 1..] == rest;
  }

  lemma NextWordReversed(t: string, done: string, w: string, rest: string)
    requires w != []
    ensures Reversed(done + (w + [' '] + rest) + t, |done|, |done| + |w| - 1, false)
         == (done + Rev(w) + [' ']) + rest + t
  {
    var more := [' '] + rest + t;
    assert done + (w + [' '] + rest) + t == done + w + more;
    PieceReversed(done, w, more);
    assert done + Rev(w) + more == (done + Rev(w) + [' ']) + rest + t;
  }

  /** An empty word between two spaces: the extra swap exchanges the spaces. */
  lemma SpacesExchanged(t: string, done: string, rest: string)
    requires done != [] && done[|done| - 1] == ' '
    ensures Reversed(done + ([' '] + rest) + t, |done| - 1, |done|, false) == (done + [' ']) + rest + t
  {
    var s := done + ([' '] + rest) + t;
    assert s == (done + [' ']) + rest + t;
    assert s[|done| - 1..|done| + 1] == [' ', ' '];
  }

  /** The last round, which finds no space: the last word is reversed. */
  lemma LastWordReversed(r: string, t: string, done: string, u: string)
    requires Pass(r, t, done, u) && ' ' !in u && u != []
    ensures r != [] && r[|r| - 1] != ' '
    ensures Reversed(done + u + t, |done|, |r| - 1, false) == EachReversed(r) + t
  {
    assert r[|r| - 1] == u[|u| - 1];
    PieceReversed(done, u, t);
  }

  lemma EndsExchanged(d: string, t: string)
    requires t != []
    ensures Reversed(d + [' '] + t, |d|, |d| + 1, false) == d + [t[0], ' '] + t[1..]
  {
    var s := d + [' '] + t;
    assert s[|d|..|d| + 2] == [' ', t[0]] && s[..|d|] == d && s[|d| + 2..] == t[1..];
  }

  /** The last round when `r` ends in a space: the space and the last character are exchanged. */
  lemma LastWordEmpty(e: string, t: string)
    requires e != [] && e[|e| - 1] == ' ' && t != []
    ensures Reversed(e + t, |e| - 1, |e|, false) == e[..|e| - 1] + [t[0], ' '] + t[1..]
  {
    var d := e[..|e| - 1];
    assert e == d + [' '];
    EndsExchanged(d, t);
  }

  lemma NothingLeft(r: string, t: string, done: string)
    requires Pass(r, t, done, [])
    ensures done == EachReversed(r) && done != [] && done[|done| - 1] == ' ' == r[|r| - 1]
    ensures done + [] + t == done + t
  {
    assert done + EachReversed([]) == done;
  }

  /** The string part of the buffer during the second pass. */
  lemma PassText(r: string, t: string, done: string, u: string, s: string)
    requires Pass(r, t, done, u) && s == done + u + t
    ensures s[|r| + 1] == '\0' && '\0' !in s[..|r| + 1]
    ensures s[|done|..|r| + 1] == u + [t[0]]
    ensures ' ' in u + [t[0]] <==> ' ' in u
    ensures ' ' in u ==> Find(u + [t[0]], ' ') == Find(u, ' ')
  {
    assert s[..|r| + 1] == done + u + [t[0]];
    if ' ' in u {
      var k := Find(u, ' ');
      assert (u + [t[0]])[..k] == u[..k];
      FindIs(u + [t[0]], ' ', k);
    }
  }

  lemma PassStarts(s: string)
    requires Safe(s) && ' ' in Body(s)
    ensures var r := Rev(UpperAll(Body(s))); Pass(r, Tail(s), [], r)
  {
    SeparatorsKept(Body(s));
    TextOf(s);
    BodyEnds(s);
  }

  lemma LastRound(r: string, t: string, done: string, u: string, b: string)
    requires Pass(r, t, done, u) && ' ' !in u && r != []
    requires if u != [] then b == Reversed(done + u + t, |done|, |r| - 1, false)
             else b == Reversed(done + u + t, |r| - 1, |r|, false)
    ensures b == SecondPass(r, t)
  {
    if u != [] {
      LastWordReversed(r, t, done, u);
    } else {
      NothingLeft(r, t, done);
      LastWordEmpty(done, t);
    }
  }

  /** A round of the second pass that finds the space behind the next word `w`. */
  lemma NextWordRound(x: string, t: string, done: string, w: string, rest: string)
    requires x == done + (w + [' '] + rest) + t
    requires w == [] ==> done != [] && done[|done| - 1] == ' '
    ensures IntervalInside(|done|, |done| + |w| - 1, |x|)
    ensures IntervalReversed(x, |done|, |done| + |w| - 1, false) == (done + Rev(w) + [' ']) + rest + t
  {
    if w != [] {
      NextWordReversed(t, done, w, rest);
    } else {
      assert w + [' '] + rest == [' '] + rest && done + Rev(w) + [' '] == done + [' '];
      SpacesExchanged(t, done, rest);
    }
  }

  // ----- Where the second pass leaves the buffer -----

  /** The second pass over the string of length `n`, from `ws` on, is bound to leave the buffer: it
      begins with a space, or its last character is one. */
  predicate Doomed(x: string, ws: int, n: int) {
    && 2 <= n < |x| && x[n] == '\0' && '\0' !in x[..n] && 0 <= ws <= n
    && (if ws == 0 then x[0] == ' ' || x[n - 1] == ' ' else x[ws - 1] == ' ' == x[n - 1])
  }

  /** The first space of the string from `ws` on, or -1. */
  function FirstSpaceFrom(x: string, ws: nat, n: nat): int
    requires ws <= n <= |x|
  {
    if ' ' in x[ws..n] then ws + Find(x[ws..n], ' ') else -1
  }

  /** Where a round of the second pass ends its interval; the string ends at `n`. */
  function RoundEnd(we: int, n: int): int {
    if we != -1 then we - 1 else n - 2
  }

  lemma DoomedRound(x: string, ws: nat, n: nat, we: int, b: int, y: string)
    requires Doomed(x, ws, n) && we == FirstSpaceFrom(x, ws, n)
    requires b == RoundEnd(we, n) && IntervalInside(ws, b, |x|) && y == IntervalReversed(x, ws, b, false)
    ensures we != -1 && Doomed(y, we + 1, n)
  {
    if we == -1 {
      DoomedLastRound(x, ws, n);
      assert false;
    }
    SpaceFound(x, ws, n);
    DoomedStill(x, ws, we, n, y);
  }

  /** A space is found unless the string is used up. */
  lemma DoomedLastRound(x: string, ws: nat, n: nat)
    requires Doomed(x, ws, n) && FirstSpaceFrom(x, ws, n) == -1
    ensures ws == n
  {
    assert forall k :: ws <= k < n ==> x[ws..n][k - ws] == x[k];
  }

  lemma SpaceFound(x: string, ws: nat, n: nat)
    requires ws <= n <= |x| && FirstSpaceFrom(x, ws, n) != -1
    ensures var we := FirstSpaceFrom(x, ws, n); ws <= we < n && x[we] == ' '
    ensures ws < n && x[ws] == ' ' ==> FirstSpaceFrom(x, ws, n) == ws
  {
    var k := Find(x[ws..n], ' ');
    assert x[ws..n][k] == x[ws + k];
    if ws < n && x[ws] == ' ' {
      assert x[ws..n][0] == ' ';
    }
  }

  /** Reversing an interval in front of the terminator keeps the length of the string. */
  lemma StringKept(s: string, lo: nat, hi: nat, makeUpper: bool, n: nat, x: string)
    requires lo <= hi < n < |s| && s[n] == '\0' && '\0' !in s[..n] && x == Reversed(s, lo, hi, makeUpper)
    ensures |x| == |s| && x[n] == '\0' && '\0' !in x[..n]
  {
    ReversedAt(s, lo, hi, makeUpper, n);
    forall k | 0 <= k < n
      ensures x[k] != '\0'
    {
      ReversedAt(s, lo, hi, makeUpper, k);
      assert s[..n][k] == s[k];
      assert lo <= k <= hi ==> s[..n][lo + hi - k] == s[lo + hi - k];
    }
  }

  lemma DoomedStill(x: string, ws: nat, we: nat, n: nat, y: string)
    requires Doomed(x, ws, n) && ws <= we < n && x[we] == ' ' && (x[ws] == ' ' ==> we == ws)
    requires IntervalInside(ws, we - 1, |x|) && y == IntervalReversed(x, ws, we - 1, false)
    ensures Doomed(y, we + 1, n)
  {
    var lo, hi := if ws < we then ws else we - 1, if ws < we then we - 1 else we;
    StringKept(x, lo, hi, false, n, y);
    ReversedAt(x, lo, hi, false, we);
    ReversedAt(x, lo, hi, false, n - 1);
  }

  // ----- The two passes -----

  /** In front of a round of the second pass at `ws`, over a string of length `n`. */
  ghost predicate Ahead(safe: bool, x: string, ws: int, n: int, r: string, t: string, done: string, u: string) {
    if safe then r != [] && Pass(r, t, done, u) && ws == |done| && n == |r| + 1 && x == done + u + t
    else Doomed(x, ws, n)
  }

  lemma AheadString(safe: bool, x: string, ws: nat, n: nat, r: string, t: string, done: string, u: string)
    requires Ahead(safe, x, ws, n, r, t, done, u)
    ensures ws <= n < |x| && x[n] == '\0' && '\0' !in x[ws..n]
    ensures safe ==> FirstSpaceFrom(x, ws, n) == if ' ' in u then |done| + Find(u, ' ') else -1
  {
    if safe {
      PassText(r, t, done, u, x);
    }
    assert forall k :: ws <= k < n ==> x[..n][k] == x[k];
  }

  /** The state behind a round that has put its interval, up to the space at `we`, in place. */
  ghost predicate Behind(safe: bool, y: string, we: int, n: int, r: string, t: string, done: string, u: string) {
    if we == -1 then safe && r != [] && t != [] && y == SecondPass(r, t) else Ahead(safe, y, we + 1, n, r, t, done, u)
  }

  lemma SafeRoundInside(x: string, n: nat, r: string, t: string, done: string, u: string)
    requires Ahead(true, x, |done|, n, r, t, done, u)
    ensures |done| <= n <= |x| && IntervalInside(|done|, RoundEnd(FirstSpaceFrom(x, |done|, n), n), |x|)
  {
    AheadString(true, x, |done|, n, r, t, done, u);
    if ' ' in u {
      var w, rest := CutAtSpace(u);
      NextWordRound(x, t, done, w, rest);
    }
  }

  lemma SafeRoundWithSpace(x: string, n: nat, r: string, t: string, done: string, u: string, b: int, y: string)
    returns (done': string, u': string)
    requires Ahead(true, x, |done|, n, r, t, done, u) && ' ' in u
    requires IntervalInside(|done|, b, |x|) && b == |done| + Find(u, ' ') - 1
    requires y == IntervalReversed(x, |done|, b, false)
    ensures Ahead(true, y, b + 2, n, r, t, done', u')
  {
    var w, rest := CutAtSpace(u);
    done', u' := done + Rev(w) + [' '], rest;
    NextWordDone(x, t, done, w, rest, b, y);
    PassAdvances(r, t, done, w, rest);
  }

  lemma NextWordDone(x: string, t: string, done: string, w: string, rest: string, b: int, y: string)
    requires x == done + (w + [' '] + rest) + t && b == |done| + |w| - 1
    requires w == [] ==> done != [] && done[|done| - 1] == ' '
    requires IntervalInside(|done|, b, |x|) && y == IntervalReversed(x, |done|, b, false)
    ensures y == (done + Rev(w) + [' ']) + rest + t
  {
    NextWordRound(x, t, done, w, rest);
  }

  lemma SafeRound(x: string, n: nat, r: string, t: string, done: string, u: string, we: int, b: int, y: string)
    returns (done': string, u': string)
    requires Ahead(true, x, |done|, n, r, t, done, u)
    requires b == RoundEnd(we, n) && IntervalInside(|done|, b, |x|) && y == IntervalReversed(x, |done|, b, false)
    requires we == if ' ' in u then |done| + Find(u, ' ') else -1
    ensures Behind(true, y, we, n, r, t, done', u')
  {
    if ' ' in u {
      done', u' := SafeRoundWithSpace(x, n, r, t, done, u, b, y);
    } else {
      done', u' := done, u;
      LastRound(r, t, done, u, y);
    }
  }

  /** What a round inside the buffer does: a safe text gets on; another is as bad as before. */
  lemma RoundDoes(safe: bool, x: string, ws: nat, n: nat, r: string, t: string, done: string, u: string,
                  we: int, b: int, y: string) returns (done': string, u': string)
    requires Ahead(safe, x, ws, n, r, t, done, u) && ws <= n <= |x| && we == FirstSpaceFrom(x, ws, n)
    requires b == RoundEnd(we, n) && IntervalInside(ws, b, |x|) && y == IntervalReversed(x, ws, b, false)
    ensures Behind(safe, y, we, n, r, t, done', u')
  {
    done', u' := done, u;
    if safe {
      AheadString(safe, x, ws, n, r, t, done, u);
      done', u' := SafeRound(x, n, r, t, done, u, we, b, y);
    } else {
      DoomedRound(x, ws, n, we, b, y);
    }
  }

  /** One round of the loop of `reverse_string`. */
  method Round(buf: array<char>, ws: nat, se: int, ghost safe: bool, ghost n: nat,
               ghost r: string, ghost t: string, ghost done: string, ghost u: string)
    returns (ok: bool, we: int, ghost done': string, ghost u': string)
    requires buf.Length < TWO63 && se == n - 1 && Ahead(safe, buf[..], ws, n, r, t, done, u)
    modifies buf
    ensures safe ==> ok
    ensures ok && we == -1 ==> safe && buf[..] == SecondPass(r, t)
    ensures ok && we != -1 ==> ws < we && Ahead(safe, buf[..], we, n, r, t, done', u')
  {
    ghost var x := buf[..];
    AheadString(safe, x, ws, n, r, t, done, u);
    assert buf[ws..n] == x[ws..n];
    we := StrChr(buf, ws, ' ', n);
    if safe {
      SafeRoundInside(x, n, r, t, done, u);
    }
    var b := if we != -1 then we - 1 else se - 1;
    ok := ReverseInterval(buf, ws, b, false);
    done', u' := done, u;
    if ok {
      done', u' := RoundDoes(safe, x, ws, n, r, t, done, u, we, b, buf[..]);
    }
    if we != -1 {
      we := we + 1;
    }
  }

  /** The loop of `reverse_string`: the second pass, word by word; `first` is the first space. */
  method ReverseWords(buf: array<char>, first: nat, se: int, ghost safe: bool, ghost n: nat, ghost r: string, ghost t: string)
    returns (ok: bool)
    requires buf.Length < TWO63 && se == n - 1 && Ahead(safe, buf[..], 0, n, r, t, "", r)
    modifies buf
    ensures ok <==> safe
    ensures ok ==> buf[..] == SecondPass(r, t)
  {
    ghost var done, u := "", r;
    var ws, we: int := 0, first;
    while we != -1
      invariant we != -1 ==> 0 <= ws && Ahead(safe, buf[..], ws, n, r, t, done, u)
      invariant we == -1 ==> safe && buf[..] == SecondPass(r, t)
      decreases if we == -1 then -1 else n - ws
    {
      assert ws <= n by {
        AheadString(safe, buf[..], ws, n, r, t, done, u);
      }
      ok, we, done, u := Round(buf, ws, se, safe, n, r, t, done, u);
      if !ok {
        return;
      }
      ws := we;
    }
    return true;
  }

  /** `reverse_string`, stopped by the first access outside the buffer: it stays inside exactly on
      the safe texts. */
  method ReverseString(buf: array<char>) returns (ok: bool)
    requires buf.Length < TWO63
    modifies buf
    ensures ok <==> Safe(old(buf[..]))
    ensures ok ==> buf[..] == Transformed(old(buf[..]))
  {
    ghost var s := buf[..];
    var n: int := StrLen(buf);
    if n == buf.Length {
      return false;
    }
    var se := n - 1;
    ok := ReverseInterval(buf, 0, se - 1, true);
    if !ok {
      return;
    }
    AfterFirstPass(s, buf[..]);
    assert buf[0..n] == buf[..][..n];
    var we := StrChr(buf, 0, ' ', n);
    if we == -1 {
      return true;
    }
    ghost var (r, t) := TextAndTail(s);
    ok := ReverseWords(buf, we, se, Safe(s), n, r, t);
  }

  ghost function TextAndTail(s: string): (string, string) {
    if Safe(s) then (Rev(UpperAll(Body(s))), Tail(s)) else ("", "")
  }

  /** The first pass leaves a string of the same length.  If the text is safe, it is the upper-cased
      body in reverse, with a space exactly if the body had one; if not, the second pass begins, and
      is bound to leave the buffer. */
  lemma AfterFirstPass(s: string, x: string)
    requires '\0' in s && 2 <= Find(s, '\0') && x == Reversed(s, 0, Find(s, '\0') - 2, true)
    ensures var n := Find(s, '\0'); |x| == |s| && x[n] == '\0' && '\0' !in x[..n]
    ensures Safe(s) ==>
              var r, t := Rev(UpperAll(Body(s))), Tail(s);
              x == r + t && (' ' in x[..Find(s, '\0')] <==> ' ' in Body(s))
              && (' ' in Body(s) ==> Ahead(true, x, 0, Find(s, '\0'), r, t, "", r))
    ensures !Safe(s) ==> ' ' in x[..Find(s, '\0')] && Doomed(x, 0, Find(s, '\0'))
  {
    var n := Find(s, '\0');
    if Safe(s) {
      FirstPass(s);
      NoSpaceYet(s, x);
      BodyEnds(s);
      if ' ' in Body(s) {
        PassStarts(s);
        assert "" + Rev(UpperAll(Body(s))) + Tail(s) == x;
      }
    } else {
      FirstPassUnsafe(s, x, n);
    }
  }

  lemma FirstPassUnsafe(s: string, x: string, n: nat)
    requires 2 <= n < |s| && s[n] == '\0' && '\0' !in s[..n] && (s[n - 1] == ' ' || s[n - 2] == ' ')
    requires x == Reversed(s, 0, n - 2, true)
    ensures |x| == |s| && ' ' in x[..n] && Doomed(x, 0, n)
  {
    StringKept(s, 0, n - 2, true, n, x);
    ReversedAt(s, 0, n - 2, true, 0);
    ReversedAt(s, 0, n - 2, true, n - 1);
    HasSpace(x, n);
  }

  lemma HasSpace(x: string, n: nat)
    requires 0 < n <= |x| && (x[0] == ' ' || x[n - 1] == ' ')
    ensures ' ' in x[..n]
  {
    assert x[..n][0] == x[0] && x[..n][n - 1] == x[n - 1];
  }

  lemma SeparatorsKept(b: string)
    ensures ' ' in Rev(UpperAll(b)) <==> ' ' in b
    ensures '\0' in Rev(UpperAll(b)) <==> '\0' in b
  {
    UpperKeepsSeparators(b);
    NotInRev(UpperAll(b));
  }

  /** Before the second pass, the string has a space exactly when the body had one. */
  lemma NoSpaceYet(s: string, b: string)
    requires Safe(s) && b == Rev(UpperAll(Body(s))) + Tail(s)
    ensures var n := Find(s, '\0');
            b[n] == '\0' && '\0' !in b[..n] && (' ' in b[..n] <==> ' ' in Body(s))
  {
    var n, last := Find(s, '\0'), Tail(s)[0];
    SeparatorsKept(Body(s));
    TextOf(s);
    assert b[..n] == Rev(UpperAll(Body(s))) + [last];
  }

  lemma TextOf(s: string)
    requires Safe(s)
    ensures '\0' !in Body(s) && Tail(s)[0] != ' ' && Tail(s)[0] != '\0' && Tail(s)[1] == '\0'
  {
    var n := Find(s, '\0');
    assert Body(s) <= s[..n] && s[..n][n - 1] == Tail(s)[0];
  }

  // ----- What reverse_string is for -----

  /** The words of `s`, upper-cased, in reverse order. */
  function InReverseOrder(s: string): string {
    Join(Rev(Split(UpperAll(s))))
  }

  lemma BodyEnds(s: string)
    requires Safe(s)
    ensures var b, r := Body(s), Rev(UpperAll(Body(s)));
            && b != [] && b[|b| - 1] != ' ' && r[0] != ' '
            && (r[|r| - 1] == ' ' <==> b[0] == ' ')
  {
    assert Body(s)[|Body(s)| - 1] == s[Find(s, '\0') - 2];
    assert Rev(UpperAll(Body(s)))[|Body(s)| - 1] == Upper(Body(s)[0]);
    assert Rev(UpperAll(Body(s)))[0] == Upper(Body(s)[|Body(s)| - 1]);
  }

  /** For every safe text: the result is the words in reverse order, with the last character (the
      newline) and everything behind it in place, exactly when the body does not start with a space
      and is not a single word - unless that word reads the same backwards, since a single word comes
      out with its letters reversed.  Words may be empty inside the body. */
  lemma WordsReversedExactly(s: string)
    requires Safe(s)
    ensures Transformed(s) == InReverseOrder(Body(s)) + Tail(s)
            <==> Body(s)[0] != ' ' && (' ' in Body(s) || Rev(UpperAll(Body(s))) == UpperAll(Body(s)))
  {
    BodyEnds(s);
    if ' ' in Body(s) {
      SeveralWordsReversed(s);
    } else {
      OneWordInReverseOrder(Body(s));
      SameTail(Rev(UpperAll(Body(s))), UpperAll(Body(s)), Tail(s));
    }
  }

  lemma SameTail(a: string, b: string, t: string)
    requires |a| == |b|
    ensures a + t == b + t <==> a == b
  {
    assert (a + t)[..|a|] == a && (b + t)[..|a|] == b;
  }

  lemma OneWordInReverseOrder(s: string)
    requires ' ' !in s
    ensures InReverseOrder(s) == UpperAll(s)
  {
    UpperKeepsSeparators(s);
    assert Rev([UpperAll(s)]) == [UpperAll(s)];
  }

  /** For a body with a space, the exception is the leading space alone. */
  lemma SeveralWordsReversed(s: string)
    requires Safe(s) && ' ' in Body(s)
    ensures Transformed(s) == InReverseOrder(Body(s)) + Tail(s) <==> Body(s)[0] != ' '
  {
    WordOrderReversed(UpperAll(Body(s)));
    BodyEnds(s);
    TextOf(s);
    SecondPassExactly(Rev(UpperAll(Body(s))), Tail(s));
  }

  /** Texts that make `reverse_string` leave the buffer: a lone newline and the empty string, whose
      first pass begins in front of it; a space in front of the last character, where the second
      pass begins there; a space as the last character, where the last round has an interval of
      length -1; and a text without a NUL, where `strlen` reads on. */
  lemma UnsafeTexts()
    ensures !Safe("ab\n") && !Safe("\0") && !Safe("\n\0") && !Safe("ab \n\0") && !Safe("ab \0")
  {
    FindIs("\0", '\0', 0);
    FindIs("\n\0", '\0', 1);
    FindIs("ab \n\0", '\0', 4);
    FindIs("ab \0", '\0', 3);
  }

  lemma UpperConcat(a: string, b: string)
    ensures UpperAll(a + [' '] + b) == UpperAll(a) + [' '] + UpperAll(b)
  {
  }

  /** The words behind a space come first. */
  lemma InReverseOrderConcat(a: string, b: string)
    ensures InReverseOrder(a + [' '] + b) == InReverseOrder(b) + [' '] + InReverseOrder(a)
  {
    var p, q := Split(UpperAll(a)), Split(UpperAll(b));
    UpperConcat(a, b);
    SplitConcat(UpperAll(a), UpperAll(b));
    RevConcat(p, q);
    JoinConcat(Rev(q), Rev(p));
  }

  lemma SecondPassExactly(r: string, t: string)
    requires r != [] && t != [] && t[0] != ' '
    ensures SecondPass(r, t) == EachReversed(r) + t <==> r[|r| - 1] != ' '
  {
    if r[|r| - 1] == ' ' {
      assert SecondPass(r, t)[|r|] == ' ';
      assert (EachReversed(r) + t)[|r|] == t[0];
    }
  }

  /** In both cases, and unless it starts with a space, the new body has the characters of the
      upper-cased one, is as long, and neither starts nor ends with a space. */
  ghost predicate NewBody(s: string, b: string)
    requires Safe(s)
  {
    && Transformed(s) == b + Tail(s)
    && |b| == |Body(s)| && b[0] != ' ' && b[|b| - 1] != ' '
    && (' ' in b <==> ' ' in Body(s))
    && forall c :: c in b ==> c in UpperAll(Body(s))
  }

  lemma NewBodyIs(s: string) returns (b: string)
    requires Safe(s) && Body(s)[0] != ' '
    ensures NewBody(s, b)
    ensures b == if ' ' in Body(s) then InReverseOrder(Body(s)) else Rev(UpperAll(Body(s)))
  {
    var u := UpperAll(Body(s));
    var r := Rev(u);
    BodyEnds(s);
    SeparatorsKept(Body(s));
    NotInRev(u);
    if ' ' in Body(s) {
      b := EachReversed(r);
      WordOrderReversed(u);
      EachReversedMembers(r);
      EachReversedEnds(r);
      assert b[0] != ' ' && b[|r| - 1] != ' ';
    } else {
      b := r;
    }
  }

  /** What the string becomes has no small letter, its last character perhaps excepted, which is not
      upper-cased. */
  lemma NoSmallLetterLeft(s: string)
    requires Safe(s)
    ensures forall k :: 0 <= k <= |Body(s)| && 'a' <= Transformed(s)[k] <= 'z' ==> Transformed(s)[k] == Tail(s)[0]
  {
    var r, t := Rev(UpperAll(Body(s))), Tail(s);
    NoSmallLetters(Body(s));
    NotInRev(UpperAll(Body(s)));
    EachReversedMembers(r);
    forall k | 0 <= k <= |r| && 'a' <= Transformed(s)[k] <= 'z'
      ensures Transformed(s)[k] == t[0]
    {
      if k < |r| {
        assert r[k] in r && EachReversed(r)[k] in EachReversed(r);
      }
    }
  }

  /** "hello world" and a newline. */
  lemma HelloWorld(s: string)
    requires s == "hello world\n\0"
    ensures Safe(s) && Transformed(s) == "WORLD HELLO\n\0"
  {
    FindIs(s, '\0', 12);
    assert Body(s) == "hello world" && Tail(s) == "\n\0";
    TwoWordsReversed(Body(s), "hello", "world");
    WordsReversedExactly(s);
    HelloUpper("hello", "world");
  }

  lemma HelloUpper(a: string, b: string)
    requires a == "hello" && b == "world"
    ensures UpperAll(b) + [' '] + UpperAll(a) == "WORLD HELLO"
  {
  }

  lemma TwoWordsReversed(s: string, a: string, b: string)
    requires s == a + [' '] + b && ' ' !in a && ' ' !in b
    ensures InReverseOrder(s) == UpperAll(b) + [' '] + UpperAll(a) && ' ' in s
  {
    InReverseOrderConcat(a, b);
    OneWordInReverseOrder(a);
    OneWordInReverseOrder(b);
    assert s[|a|] == ' ';
  }

  lemma ReadBack(s: string, b: string)
    requires Safe(s) && NewBody(s, b)
    ensures Safe(Transformed(s)) && Body(Transformed(s)) == b && Tail(Transformed(s)) == Tail(s)
    ensures UpperAll(b) == b
  {
    var n, x, t := Find(s, '\0'), Transformed(s), Tail(s);
    TextOf(s);
    AlreadyUpper(Body(s), b);
    UpperKeepsSeparators(Body(s));
    assert x[..n] == b + [t[0]];
    assert x[n] == t[1] == '\0';
    FindIs(x, '\0', n);
    assert x[n - 2] == b[n - 2] && x[n - 1] == t[0];
  }

  /** The transformation keeps its domain, and applied twice gives the upper-cased text. */
  lemma TwiceIsUpperCase(s: string)
    requires Safe(s) && Body(s)[0] != ' '
    ensures Safe(Transformed(s)) && Body(Transformed(s))[0] != ' '
    ensures ' ' in Body(Transformed(s)) <==> ' ' in Body(s)
    ensures Transformed(Transformed(s)) == UpperAll(Body(s)) + Tail(s)
  {
    var u := UpperAll(Body(s));
    var b := NewBodyIs(s);
    ReadBack(s, b);
    var c := NewBodyIs(Transformed(s));
    if ' ' in Body(s) {
      WordOrderTwice(u);
    } else {
      RevRev(u);
    }
  }
}
