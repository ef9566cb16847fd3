/** When a line that is written to the device of exercise10/part02/rw.c comes back with its words in
    reverse order.  The line is copied without a terminator, so that what an older, longer text left
    behind it in the buffer is taken for a part of it. */
module LineDelivery {
  import opened Words
  import opened WordReverse
  import opened TextDevice

  /** The reader gets the line with its words in reverse order. */
  ghost predicate Delivered(memory: string, body: string)
    requires |memory| == BUFFER_SIZE
  {
    var s := Copied(memory, body + ['\n'], "");
    Safe(s) && InReverseOrder(body) + ['\n'] <= Transformed(s)
  }

  // ----- What stays behind the line -----

  /** Behind a line of `n` characters and its newline there is a text that ends with a NUL. */
  predicate HasOlder(memory: string, n: nat) {
    n + 1 < |memory| && memory[n + 1] != '\0' && '\0' in memory[n + 1..]
  }

  /** That text without its last character. */
  function Leftover(memory: string, n: nat): string
    requires HasOlder(memory, n)
  {
    memory[n + 1..][..Find(memory[n + 1..], '\0') - 1]
  }

  lemma FindBehind(line: string, rest: string)
    requires '\0' !in line && '\0' in rest
    ensures Find(line + rest, '\0') == |line| + Find(rest, '\0')
  {
    var k := Find(rest, '\0');
    assert (line + rest)[..|line| + k] == line + rest[..k];
    FindIs(line + rest, '\0', |line| + k);
  }

  /** The string in the buffer is the line, its newline, and what is left of the older text.  Whether
      it is safe does not depend on the line. */
  lemma OlderBody(memory: string, body: string, s: string)
    requires |memory| == BUFFER_SIZE && HasOlder(memory, |body|) && '\0' !in body
    requires s == Copied(memory, body + ['\n'], "")
    ensures var rest, k := memory[|body| + 1..], Find(memory[|body| + 1..], '\0');
            Safe(s) <==> rest[k - 1] != ' ' && (k > 1 ==> rest[k - 2] != ' ')
    ensures Safe(s) ==> Body(s) == body + ['\n'] + Leftover(memory, |body|)
  {
    var line, rest := body + ['\n'], memory[|body| + 1..];
    SafeBehind(line, rest, Find(rest, '\0'), s);
  }

  lemma SafeBehind(line: string, rest: string, k: nat, s: string)
    requires |line| >= 1 && line[|line| - 1] == '\n' && '\0' !in line && '\0' in rest && k == Find(rest, '\0') > 0
    requires s == line + rest
    ensures Safe(s) <==> rest[k - 1] != ' ' && (k > 1 ==> rest[k - 2] != ' ')
    ensures Safe(s) ==> Body(s) == line + rest[..k - 1]
  {
    var n := |line| + k;
    FindBehind(line, rest);
    SafeIs(s, n);
    PrefixBehind(line, rest, k - 1, s);
    assert n - 1 == |line| + (k - 1);
  }

  lemma SafeIs(s: string, n: nat)
    requires 2 <= n < |s| && Find(s, '\0') == n
    ensures Safe(s) <==> s[n - 1] != ' ' && s[n - 2] != ' '
    ensures Safe(s) ==> Body(s) == s[..n - 1]
  {
  }

  lemma PrefixBehind(line: string, rest: string, m: nat, s: string)
    requires m < |rest| && line != [] && s == line + rest
    ensures s[..|line| + m] == line + rest[..m] && s[|line| + m] == rest[m]
    ensures s[|line| + m - 1] == if m > 0 then rest[m - 1] else line[|line| - 1]
  {
  }

  lemma NoOlder(memory: string, body: string, s: string)
    requires |memory| == BUFFER_SIZE && '\0' !in body && s == Copied(memory, body + ['\n'], "")
    requires |body| + 1 < BUFFER_SIZE ==> memory[|body| + 1] != '\0' && '\0' !in memory[|body| + 1..]
    ensures !Safe(s)
  {
    var line := body + ['\n'];
    if |line| <= BUFFER_SIZE {
      assert s == line + memory[|line|..];
    } else {
      assert s == line[..BUFFER_SIZE];
    }
  }

  // ----- What comes out first -----

  lemma InReverseOrderLength(s: string)
    ensures |InReverseOrder(s)| == |s|
  {
    WordOrderReversed(UpperAll(s));
  }

  /** What stands behind a space comes first. */
  lemma BehindSpaceFirst(s: string, a: string, b: string)
    requires Safe(s) && Body(s) == a + [' '] + b && Body(s)[0] != ' '
    ensures Transformed(s) == InReverseOrder(b) + [' '] + InReverseOrder(a) + Tail(s)
    ensures |InReverseOrder(b)| == |b|
  {
    assert Body(s)[|a|] == ' ';
    WordsReversedExactly(s);
    InReverseOrderConcat(a, b);
    InReverseOrderLength(b);
  }

  /** A line in front of the rest of an older text: if there is a space in the rest, the words behind
      it come first, and the line is not reached at all if they are longer than it. */
  lemma OlderWordsComeFirst(memory: string, body: string, s: string, left: string, more: string)
    requires |memory| == BUFFER_SIZE && HasOlder(memory, |body|) && '\0' !in body
    requires body != [] && body[0] != ' '
    requires s == Copied(memory, body + ['\n'], "") && Safe(s)
    requires Leftover(memory, |body|) == left + [' '] + more
    ensures Transformed(s) == InReverseOrder(more) + [' '] + InReverseOrder(body + ['\n'] + left) + Tail(s)
    ensures |body| < |more| ==> Transformed(s)[..|body| + 1] <= InReverseOrder(more)
  {
    OlderBody(memory, body, s);
    assert body + ['\n'] + (left + [' '] + more) == (body + ['\n'] + left) + [' '] + more;
    assert Body(s)[0] == body[0];
    BehindSpaceFirst(s, body + ['\n'] + left, more);
    StartOf(InReverseOrder(more), [' '], InReverseOrder(body + ['\n'] + left), Tail(s), |body| + 1);
  }

  /** If there is none, the rest is stuck to the last word of the line, behind the newline, and comes
      first with it. */
  lemma LastWordStuck(memory: string, body: string, s: string, start: string, last: string)
    requires |memory| == BUFFER_SIZE && HasOlder(memory, |body|) && '\0' !in body
    requires body == start + [' '] + last && ' ' !in last && body[0] != ' '
    requires s == Copied(memory, body + ['\n'], "") && Safe(s)
    requires ' ' !in Leftover(memory, |body|)
    ensures Transformed(s)
         == UpperAll(last + ['\n'] + Leftover(memory, |body|)) + [' '] + InReverseOrder(start) + Tail(s)
  {
    var rest := Leftover(memory, |body|);
    OlderBody(memory, body, s);
    StuckBody(start, last, rest);
    assert Body(s)[0] == body[0];
    BehindSpaceFirst(s, start, last + ['\n'] + rest);
    OneWordInReverseOrder(last + ['\n'] + rest);
  }

  lemma StuckBody(start: string, last: string, rest: string)
    ensures (start + [' '] + last) + ['\n'] + rest == start + [' '] + (last + ['\n'] + rest)
  {
  }

  lemma StartOf(a: string, b: string, c: string, d: string, n: nat)
    ensures n <= |a| ==> (a + b + c + d)[..n] <= a
  {
  }

  // ----- When every line is delivered -----

  /** A line of `n` characters: a long word, and a word of one letter. */
  function Probe(n: nat, c: char): string
    requires 3 <= n
  {
    seq(n - 2, _ => 'a') + [' '] + [c]
  }

  lemma ProbeIsLine(n: nat, c: char)
    requires 3 <= n && c != ' ' && c != '\0'
    ensures Line(Probe(n, c)) && |Probe(n, c)| == n
    ensures InReverseOrder(Probe(n, c)) + ['\n'] == [Upper(c), ' '] + InReverseOrder(seq(n - 2, _ => 'a')) + ['\n']
  {
    var long := seq(n - 2, _ => 'a');
    assert Probe(n, c)[n - 2] == ' ';
    InReverseOrderConcat(long, [c]);
    OneWordInReverseOrder([c]);
    assert UpperAll([c]) + [' '] == [Upper(c), ' '];
  }

  /** If a probe is delivered, its short word comes first, and a space behind it. */
  lemma DeliveredStarts(memory: string, n: nat, c: char)
    requires |memory| == BUFFER_SIZE && 3 <= n && c != ' ' && c != '\0' && Delivered(memory, Probe(n, c))
    ensures var x := Transformed(Copied(memory, Probe(n, c) + ['\n'], ""));
            2 <= |x| && x[0] == Upper(c) && x[1] == ' '
  {
    ProbeIsLine(n, c);
    var x := Transformed(Copied(memory, Probe(n, c) + ['\n'], ""));
    var y := InReverseOrder(Probe(n, c)) + ['\n'];
    assert y[0] == Upper(c) && y[1] == ' ' && y <= x;
  }

  /** With a rest that has a space, what comes first does not depend on the line. */
  lemma SameStart(memory: string, n: nat, c: char, left: string, more: string)
    requires |memory| == BUFFER_SIZE && 3 <= n && c != ' ' && c != '\0' && HasOlder(memory, n)
    requires Leftover(memory, n) == left + [' '] + more && more != []
    requires Delivered(memory, Probe(n, c))
    ensures InReverseOrder(more) != [] && InReverseOrder(more)[0] == Upper(c)
  {
    var s := Copied(memory, Probe(n, c) + ['\n'], "");
    ProbeIsLine(n, c);
    OlderWordsComeFirst(memory, Probe(n, c), s, left, more);
    InReverseOrderLength(more);
    DeliveredStarts(memory, n, c);
    assert Transformed(s)[0] == InReverseOrder(more)[0];
  }

  /** With a rest that has none, there is a newline behind the short word. */
  lemma NewlineInside(memory: string, n: nat, c: char)
    requires |memory| == BUFFER_SIZE && 3 <= n && c != ' ' && c != '\0' && HasOlder(memory, n)
    requires ' ' !in Leftover(memory, n)
    ensures !Delivered(memory, Probe(n, c))
  {
    var s, y := Copied(memory, Probe(n, c) + ['\n'], ""), InReverseOrder(Probe(n, c)) + ['\n'];
    ProbeIsLine(n, c);
    assert 2 <= |y| && y[1] == ' ';
    if Safe(s) {
      LastWordStuck(memory, Probe(n, c), s, seq(n - 2, _ => 'a'), [c]);
      SecondIs(c, Leftover(memory, n), [' '], InReverseOrder(seq(n - 2, _ => 'a')), Tail(s));
    }
  }

  lemma SecondIs(c: char, rest: string, p: string, q: string, r: string)
    ensures (UpperAll([c] + ['\n'] + rest) + p + q + r)[1] == '\n'
  {
    assert UpperAll([c] + ['\n'] + rest)[1] == '\n';
  }

  /** One of two probes is not delivered, whatever stayed behind. */
  lemma SomeProbeFails(memory: string, n: nat) returns (body: string)
    requires |memory| == BUFFER_SIZE && 3 <= n && (n + 1 < BUFFER_SIZE ==> memory[n + 1] != '\0')
    ensures |body| == n && Line(body) && !Delivered(memory, body)
  {
    ProbeIsLine(n, 'b');
    ProbeIsLine(n, 'c');
    body := Probe(n, 'b');
    if !HasOlder(memory, n) {
      NoOlder(memory, body, Copied(memory, body + ['\n'], ""));
    } else if ' ' !in Leftover(memory, n) {
      NewlineInside(memory, n, 'b');
    } else if Delivered(memory, body) {
      var left, more := CutLeftover(memory, body);
      SameStart(memory, n, 'b', left, more);
      body := Probe(n, 'c');
      if Delivered(memory, body) {
        SameStart(memory, n, 'c', left, more);
        assert false;
      }
    }
  }

  lemma CutLeftover(memory: string, body: string) returns (left: string, more: string)
    requires |memory| == BUFFER_SIZE && HasOlder(memory, |body|) && '\0' !in body
    requires Safe(Copied(memory, body + ['\n'], "")) && ' ' in Leftover(memory, |body|)
    ensures Leftover(memory, |body|) == left + [' '] + more && more != []
  {
    left, more := CutAtSpace(Leftover(memory, |body|));
    EndOfLeftover(memory, body);
  }

  lemma EndOfLeftover(memory: string, body: string)
    requires |memory| == BUFFER_SIZE && HasOlder(memory, |body|) && '\0' !in body
    requires Safe(Copied(memory, body + ['\n'], "")) && Leftover(memory, |body|) != []
    ensures var rest := Leftover(memory, |body|); rest[|rest| - 1] != ' '
  {
    OlderBody(memory, body, Copied(memory, body + ['\n'], ""));
  }

  /** Every line of `n` characters that begins and ends with a word and has several comes back with
      its words in reverse order, exactly if there is a NUL where the copied line ends.  Too short a
      line has no two words. */
  lemma AllLinesDeliveredExactly(memory: string, n: nat)
    requires |memory| == BUFFER_SIZE
    ensures (forall body :: |body| == n && Line(body) ==> Delivered(memory, body))
            <==> n < 3 || (n + 1 < BUFFER_SIZE && memory[n + 1] == '\0')
  {
    if 3 <= n && !(n + 1 < BUFFER_SIZE && memory[n + 1] == '\0') {
      var body := SomeProbeFails(memory, n);
    } else {
      forall body | |body| == n && Line(body)
        ensures Delivered(memory, body)
      {
        LongEnough(body);
        LineTransformed(memory, body);
      }
    }
  }

  lemma LongEnough(body: string)
    requires Line(body)
    ensures 3 <= |body|
  {
    var k :| 0 <= k < |body| && body[k] == ' ';
  }

  // ----- A session that fails -----

  function Zeros(): (s: string)
    ensures |s| == BUFFER_SIZE
  {
    seq(BUFFER_SIZE, _ => '\0')
  }

  predicate IsWord(w: string) {
    w != [] && ' ' !in w && '\0' !in w
  }

  lemma TwoWords(s: string, a: string, b: string)
    requires s == a + [' '] + b && IsWord(a) && IsWord(b)
    ensures Line(s) && InReverseOrder(s) == UpperAll(b) + [' '] + UpperAll(a)
  {
    TwoWordsReversed(s, a, b);
  }

  /** A line of two words, written to a buffer of zeros. */
  lemma FirstLineWritten(a: string, b: string, body: string, s: string)
    requires IsWord(a) && IsWord(b) && body == a + [' '] + b && |body| < 200
    requires s == Copied(Zeros(), body + ['\n'], "")
    ensures Safe(s) && |Transformed(s)| == BUFFER_SIZE
    ensures Transformed(s)[..|body| + 1] == UpperAll(b) + [' '] + UpperAll(a) + ['\n'] && Transformed(s)[|body| + 1] == '\0'
  {
    TwoWords(body, a, b);
    LineIsSafe(Zeros(), body, s);
    LineTransformed(Zeros(), body);
    WordsReversedExactly(s);
    TextOf(s);
    InReverseOrderLength(body);
  }

  lemma LeftoverIs(m: string, n: nat, rest: string)
    requires '\0' !in rest && n + |rest| + 3 <= |m|
    requires m[n + 1..n + |rest| + 2] == rest + ['\n'] && m[n + |rest| + 2] == '\0'
    ensures HasOlder(m, n) && Leftover(m, n) == rest
  {
    var t := m[n + 1..];
    assert t[..|rest| + 1] == rest + ['\n'];
    assert t[0] == (rest + ['\n'])[0];
    FindIs(t, '\0', |rest| + 1);
    assert t[..|rest|] == t[..|rest| + 1][..|rest|];
  }

  /** A line of two words, written over a longer one that leaves one word behind it. */
  lemma SecondLineWritten(m: string, c: string, d: string, body: string, rest: string, s: string)
    requires |m| == BUFFER_SIZE && IsWord(c) && IsWord(d) && IsWord(rest) && body == c + [' '] + d
    requires |body| + |rest| + 3 <= |m|
    requires m[|body| + 1..|body| + |rest| + 2] == rest + ['\n'] && m[|body| + |rest| + 2] == '\0'
    requires s == Copied(m, body + ['\n'], "")
    ensures Safe(s) && |Transformed(s)| == BUFFER_SIZE
    ensures Transformed(s) == UpperAll(d + ['\n'] + rest) + [' '] + UpperAll(c) + Tail(s)
  {
    LeftoverIs(m, |body|, rest);
    TwoWords(body, c, d);
    SafeOver(m, body, rest, s);
    LineTransformed(m, body);
    LastWordStuck(m, body, s, c, d);
    OneWordInReverseOrder(c);
  }

  lemma SafeOver(m: string, body: string, rest: string, s: string)
    requires |m| == BUFFER_SIZE && IsWord(rest) && '\0' !in body && |body| + |rest| + 3 <= |m|
    requires m[|body| + 1..|body| + |rest| + 2] == rest + ['\n'] && m[|body| + |rest| + 2] == '\0'
    requires s == Copied(m, body + ['\n'], "")
    ensures Safe(s)
  {
    var t := m[|body| + 1..];
    LeftoverIs(m, |body|, rest);
    assert t[..|rest| + 1] == rest + ['\n'];
    FindIs(t, '\0', |rest| + 1);
    assert t[|rest|] == t[..|rest| + 1][|rest|] && t[|rest| - 1] == t[..|rest| + 1][|rest| - 1];
    OlderBody(m, body, s);
  }

  /** The two lines, and what is left of the first behind the second. */
  lemma TheLines(first: string, second: string)
    requires first == "ab cd" && second == "a b"
    ensures first == "ab" + [' '] + "cd" && second == "a" + [' '] + "b"
    ensures first + ['\n'] == "ab cd\n" && second + ['\n'] == "a b\n"
    ensures IsWord("ab") && IsWord("cd") && IsWord("a") && IsWord("b") && IsWord("B")
  {
  }

  lemma UpperWords()
    ensures UpperAll("cd") + [' '] + UpperAll("ab") + ['\n'] == "CD AB\n"
    ensures UpperAll("b" + ['\n'] + "B") + [' '] == "B\nB "
    ensures UpperAll("b") + [' '] + UpperAll("a") + ['\n'] == "B A\n"
  {
  }

  lemma WhatIsLeft(m: string)
    requires |m| == BUFFER_SIZE && m[..6] == "CD AB\n"
    ensures m[4..6] == "B" + ['\n']
  {
    assert m[4..6] == m[..6][4..6];
  }

  /** What the reader of the second line is to get, and what it gets. */
  lemma SecondLineWrong(s: string, m: string)
    requires |m| == BUFFER_SIZE && m[..6] == "CD AB\n" && m[6] == '\0' && s == Copied(m, "a b\n", "")
    ensures Safe(s) && |Transformed(s)| == BUFFER_SIZE && Transformed(s)[..4] == "B\nB "
  {
    var first, second, c, d, rest := "ab cd", "a b", "a", "b", "B";
    TheLines(first, second);
    WhatIsLeft(m);
    SecondLineWritten(m, c, d, second, rest, s);
    UpperWords();
    StartOf("B\nB ", UpperAll(c), Tail(s), [], 4);
  }

  /** What the writes of `first` and then of `second` make of the buffer, both in full. */
  predicate WrittenTwice(memory: string, first: string, second: string, after: string)
    requires |memory| == BUFFER_SIZE
  {
    var s := Copied(memory, first, "");
    && Safe(s) && |Transformed(s)| == BUFFER_SIZE
    && var t := Copied(Transformed(s), second, "");
       Safe(t) && after == Transformed(t)
  }

  lemma BothWritten(s: string, m: string)
    requires s == Copied(Zeros(), "ab cd\n", "") && (Safe(s) ==> m == Transformed(s))
    ensures Safe(s) && |m| == BUFFER_SIZE && m[..6] == "CD AB\n" && m[6] == '\0'
  {
    var first, second := "ab cd", "a b";
    TheLines(first, second);
    FirstLineWritten("ab", "cd", first, s);
    UpperWords();
  }

  /** The two writes stay inside the buffer, and the second line comes out wrong. */
  lemma SecondLineWrongTwice(first: string, second: string)
    requires first == "ab cd\n" && second == "a b\n"
    ensures var s := Copied(Zeros(), first, "");
            && Safe(s) && |Transformed(s)| == BUFFER_SIZE
            && var t := Copied(Transformed(s), second, "");
               Safe(t) && |Transformed(t)| == BUFFER_SIZE && Transformed(t)[..4] == "B\nB "
    ensures InReverseOrder("a b") + ['\n'] == "B A\n"
  {
    var s := Copied(Zeros(), first, "");
    BothWritten(s, if Safe(s) then Transformed(s) else s);
    SecondLineWrong(Copied(Transformed(s), second, ""), Transformed(s));
    TheLines("ab cd", "a b");
    TwoWords("a b", "a", "b");
    UpperWords();
  }

  /** Two texts written in full to a buffer of zeros, the second not yet read. */
  method WriteTwo(first: string, second: string) returns (d: Device)
    requires |first| <= BUFFER_SIZE && |second| <= BUFFER_SIZE
    requires var s := Copied(Zeros(), first, "");
             Safe(s) && |Transformed(s)| == BUFFER_SIZE && Safe(Copied(Transformed(s), second, ""))
    ensures fresh(d) && d.Valid() && d.readPos == 0 && d.msgLength == |second|
    ensures WrittenTwice(Zeros(), first, second, d.buffer[..])
  {
    var memory := new char[BUFFER_SIZE](_ => '\0');
    assert memory[..] == Zeros();
    d := new Device(memory);
    var ok, ret := d.Write(first, "");
    ok, ret := d.Write(second, "");
  }

  /** A line of five characters and then one of three are written to a buffer of zeros.  The second
      should come back as "B A", but there is a "B" of the first behind it. */
  method ShortOverLong() returns (d: Device)
    ensures fresh(d) && d.Valid() && d.readPos == 0 && d.msgLength == 4
    ensures WrittenTwice(Zeros(), "ab cd\n", "a b\n", d.buffer[..])
    ensures d.buffer[..4] == "B\nB " && InReverseOrder("a b") + ['\n'] == "B A\n"
  {
    var first, second := "ab cd\n", "a b\n";
    SecondLineWrongTwice(first, second);
    d := WriteTwo(first, second);
    assert d.buffer[..4] == d.buffer[..][..4];
  }
}
