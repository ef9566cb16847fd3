/** Texts as sequences of characters: reversal, upper case, and words separated by single spaces. */
module Words {
  import opened Basics

  function Rev<T>(s: seq<T>): (r: seq<T>)
    ensures |r| == |s|
  {
    seq(|s|, i requires 0 <= i < |s| => s[|s| - 1 - i])
  }

  /** `toupper` on ASCII. */
  function Upper(c: char): char {
    if 'a' <= c <= 'z' then (c as int - 32) as char else c
  }

  function UpperAll(s: string): (r: string)
    ensures |r| == |s|
  {
    seq(|s|, i requires 0 <= i < |s| => Upper(s[i]))
  }

  /** The index of the first `c`, or the length. */
  function Find(s: string, c: char): (k: nat)
    ensures k <= |s| && c !in s[..k]
    ensures forall i :: 0 <= i < k ==> s[i] != c
    ensures k < |s| ==> s[k] == c
    ensures k < |s| <==> c in s
  {
    if s == [] then 0
    else if s[0] == c then 0
    else
      var k := Find(s[1..], c);
      assert s[..k + 1] == [s[0]] + s[1..][..k];
      k + 1
  }

  /** The words of `s`: the maximal stretches without a space, empty ones included. */
  function Split(s: string): (ws: seq<string>)
    ensures ws != [] && forall w :: w in ws ==> ' ' !in w
    decreases |s|
  {
    if ' ' !in s then [s] else [s[..Find(s, ' ')]] + Split(s[Find(s, ' ') + 1..])
  }

  function Join(ws: seq<string>): string {
    if ws == [] then [] else if |ws| == 1 then ws[0] else ws[0] + [' '] + Join(ws[1..])
  }

  /** Every word reversed in its place. */
  function EachReversed(s: string): (r: string)
    ensures |r| == |s|
    decreases |s|
  {
    if ' ' !in s then Rev(s)
    else Rev(s[..Find(s, ' ')]) + [' '] + EachReversed(s[Find(s, ' ') + 1..])
  }

  // ----- Reversal -----

  lemma RevRev<T>(s: seq<T>)
    ensures Rev(Rev(s)) == s
  {
  }

  lemma RevConcat<T>(s: seq<T>, t: seq<T>)
    ensures Rev(s + t) == Rev(t) + Rev(s)
  {
  }

  function MapRev(ws: seq<string>): (r: seq<string>)
    ensures |r| == |ws|
  {
    seq(|ws|, i requires 0 <= i < |ws| => Rev(ws[i]))
  }

  lemma MapRevMapRev(ws: seq<string>)
    ensures MapRev(MapRev(ws)) == ws
  {
    forall i | 0 <= i < |ws|
      ensures MapRev(MapRev(ws))[i] == ws[i]
    {
      RevRev(ws[i]);
    }
  }

  // ----- Splitting and joining -----

  lemma FirstSpace(s: string, a: string, b: string)
    requires s == a + [' '] + b && ' ' !in a
    ensures Find(s, ' ') == |a| && s[..|a|] == a && s[|a| + 1..] == b
  {
    assert s[|a|] == ' ';
    forall i | 0 <= i < |a|
      ensures s[i] != ' '
    {
      assert s[i] == a[i];
    }
  }

  /** A text with a space, cut at the first one. */
  lemma CutAtSpace(s: string) returns (w: string, rest: string)
    requires ' ' in s
    ensures s == w + [' '] + rest && ' ' !in w && |w| == Find(s, ' ')
    ensures Split(s) == [w] + Split(rest)
    ensures EachReversed(s) == Rev(w) + [' '] + EachReversed(rest)
  {
    w, rest := s[..Find(s, ' ')], s[Find(s, ' ') + 1..];
  }

  lemma SplitCons(w: string, rest: string)
    requires ' ' !in w
    ensures Split(w + [' '] + rest) == [w] + Split(rest)
  {
    var s := w + [' '] + rest;
    assert s[|w|] == ' ';
    FirstSpace(s, w, rest);
  }

  lemma {:induction false} SplitConcat(a: string, b: string)
    ensures Split(a + [' '] + b) == Split(a) + Split(b)
    decreases |a|
  {
    if ' ' !in a {
      SplitCons(a, b);
    } else {
      var w, rest := CutAtSpace(a);
      SplitConcat(rest, b);
      SplitCons(w, rest + [' '] + b);
      Associates(w + [' '] + rest, [' '], b);
      Associates(w + [' '], rest, [' '] + b);
      Associates(rest, [' '], b);
      Associates([w], Split(rest), Split(b));
    }
  }

  lemma JoinCons(w: string, ws: seq<string>)
    requires ws != []
    ensures Join([w] + ws) == w + [' '] + Join(ws)
  {
    assert ([w] + ws)[1..] == ws;
  }

  lemma {:induction false} JoinConcat(vs: seq<string>, ws: seq<string>)
    requires vs != [] && ws != []
    ensures Join(vs + ws) == Join(vs) + [' '] + Join(ws)
    decreases |vs|
  {
    var v, rest := vs[0], vs[1..];
    assert vs == [v] + rest;
    if rest == [] {
      JoinCons(v, ws);
    } else {
      JoinConcat(rest, ws);
      JoinCons(v, rest);
      JoinCons(v, rest + ws);
      Associates([v], rest, ws);
      Associates(v + [' '] + Join(rest), [' '], Join(ws));
      Associates(v + [' '], Join(rest), [' '] + Join(ws));
      Associates(Join(rest), [' '], Join(ws));
    }
  }

  lemma {:induction false} JoinSplit(s: string)
    ensures Join(Split(s)) == s
    decreases |s|
  {
    if ' ' in s {
      var w, rest := CutAtSpace(s);
      JoinSplit(rest);
      JoinCons(w, Split(rest));
    }
  }

  lemma {:induction false} SplitJoin(ws: seq<string>)
    requires ws != [] && forall w :: w in ws ==> ' ' !in w
    ensures Split(Join(ws)) == ws
    decreases |ws|
  {
    assert ws[0] in ws;
    if |ws| > 1 {
      var w, rest := ws[0], ws[1..];
      assert ws == [w] + rest;
      SplitJoin(rest);
      JoinCons(w, rest);
      SplitCons(w, Join(rest));
    }
  }

  lemma RevAroundSpace(w: string, rest: string)
    ensures Rev(w + [' '] + rest) == Rev(rest) + [' '] + Rev(w)
  {
  }

  lemma MapRevCons(w: string, ws: seq<string>)
    ensures MapRev(Rev([w] + ws)) == MapRev(Rev(ws)) + [Rev(w)]
  {
  }

  lemma MapRevFirst(w: string, ws: seq<string>)
    ensures MapRev([w] + ws) == [Rev(w)] + MapRev(ws)
  {
  }

  lemma SplitLast(s: string, w: string)
    requires ' ' !in w
    ensures Split(s + [' '] + Rev(w)) == Split(s) + [Rev(w)]
  {
    SplitConcat(s, Rev(w));
    NotInRev(w);
  }

  /** The words of the reversed text are the reversed words in reverse order. */
  lemma {:induction false} SplitRev(s: string)
    ensures Split(Rev(s)) == MapRev(Rev(Split(s)))
    decreases |s|
  {
    if ' ' !in s {
      NotInRev(s);
    } else {
      var w, rest := CutAtSpace(s);
      RevAroundSpace(w, rest);
      SplitLast(Rev(rest), w);
      SplitRev(rest);
      MapRevCons(w, Split(rest));
    }
  }

  lemma NotInRev(s: string)
    ensures forall c :: c in Rev(s) <==> c in s
  {
    forall c | c in s
      ensures c in Rev(s)
    {
      var i :| 0 <= i < |s| && s[i] == c;
      assert Rev(s)[|s| - 1 - i] == c;
    }
  }

  lemma {:induction false} EachReversedIsJoin(s: string)
    ensures EachReversed(s) == Join(MapRev(Split(s)))
    decreases |s|
  {
    if ' ' in s {
      var w, rest := CutAtSpace(s);
      EachReversedIsJoin(rest);
      MapRevFirst(w, Split(rest));
      JoinCons(Rev(w), MapRev(Split(rest)));
    }
  }

  /** Reversing the text and then every word in place reverses the order of the words. */
  lemma WordOrderReversed(s: string)
    ensures EachReversed(Rev(s)) == Join(Rev(Split(s)))
  {
    EachReversedIsJoin(Rev(s));
    SplitRev(s);
    MapRevMapRev(Rev(Split(s)));
  }

  /** Reversing the order of the words twice gives the text back. */
  lemma WordOrderTwice(s: string)
    ensures var r := Join(Rev(Split(s))); Join(Rev(Split(r))) == s
  {
    var ws := Rev(Split(s));
    forall w | w in ws
      ensures ' ' !in w
    {
      var i :| 0 <= i < |ws| && ws[i] == w;
      assert w == Split(s)[|ws| - 1 - i];
    }
    SplitJoin(ws);
    RevRev(Split(s));
    JoinSplit(s);
  }

  /** Reversing words in place moves characters only ... */
  lemma {:induction false} EachReversedMembers(s: string)
    ensures forall c :: c in EachReversed(s) <==> c in s
    decreases |s|
  {
    if ' ' !in s {
      NotInRev(s);
    } else {
      var w, rest := CutAtSpace(s);
      EachReversedMembers(rest);
      NotInRev(w);
    }
  }

  /** ... and keeps the kind of both ends. */
  lemma {:induction false} EachReversedEnds(s: string)
    requires s != []
    ensures EachReversed(s)[0] == ' ' <==> s[0] == ' '
    ensures EachReversed(s)[|s| - 1] == ' ' <==> s[|s| - 1] == ' '
    decreases |s|
  {
    if ' ' !in s {
      NotInRev(s);
      assert Rev(s)[0] in Rev(s) && Rev(s)[|s| - 1] in Rev(s);
    } else {
      var w, rest := CutAtSpace(s);
      EndsOf(w, rest, s);
      EndsOf(Rev(w), EachReversed(rest), EachReversed(s));
      if w != [] {
        NotInRev(w);
        assert w[0] in w && Rev(w)[0] in Rev(w);
      }
      if rest != [] {
        EachReversedEnds(rest);
      }
    }
  }

  lemma EndsOf(p: string, q: string, s: string)
    requires s == p + [' '] + q
    ensures s[0] == if p != [] then p[0] else ' '
    ensures s[|s| - 1] == if q != [] then q[|q| - 1] else ' '
  {
  }

  // ----- Upper case -----

  /** The 26 letters, and nothing else, change. */
  lemma UpperIs()
    ensures UpperAll("abcdefghijklmnopqrstuvwxyz") == "ABCDEFGHIJKLMNOPQRSTUVWXYZ"
    ensures forall c :: !('a' <= c <= 'z') ==> Upper(c) == c
    ensures forall c :: !('a' <= Upper(c) <= 'z')
  {
    var s, t := "abcdefghijklmnopqrstuvwxyz", "ABCDEFGHIJKLMNOPQRSTUVWXYZ";
    assert forall i :: 0 <= i < 26 ==> s[i] as int == 97 + i && t[i] as int == 65 + i;
  }

  lemma NoSmallLetters(s: string)
    ensures forall c :: c in UpperAll(s) ==> !('a' <= c <= 'z')
  {
    UpperIs();
  }

  lemma UpperKeepsSeparators(s: string)
    ensures ' ' in UpperAll(s) <==> ' ' in s
    ensures '\0' in UpperAll(s) <==> '\0' in s
  {
    if ' ' in s {
      var i :| 0 <= i < |s| && s[i] == ' ';
      assert UpperAll(s)[i] == ' ';
    }
    if '\0' in s {
      var i :| 0 <= i < |s| && s[i] == '\0';
      assert UpperAll(s)[i] == '\0';
    }
  }

  /** A text made of the characters of an upper-cased text is upper case. */
  lemma AlreadyUpper(s: string, t: string)
    requires forall c :: c in t ==> c in UpperAll(s)
    ensures UpperAll(t) == t
  {
    forall i | 0 <= i < |t|
      ensures Upper(t[i]) == t[i]
    {
      assert t[i] in t;
    }
  }
}
