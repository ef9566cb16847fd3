/** The chat device of task06/dyndev.c: an append-only text buffer, read back through a filter on
    the author.  `index` is the minor number of the device file that is used.

    The code checks no bounds and no pointers: the methods that may leave the buffer or follow a
    null pointer stop there and return false, and what happens behind that is not modelled. */
module Chat {
  import opened Basics
  import opened ChatLog

  const MAX_USERS := 16
  const MAX_USER_NAME := 32
  const DEFAULT_BUFFER_SIZE := 1024

  class Device {
    var buffer: array<char>   // chat_buffer, of chat_buffer_size
    var users: seq<string>    // users[0 .. user_count - 1]
    var bytesRead: nat        // bytes_read, shared by all readers
    ghost var text: string    // the string in the buffer
    ghost var log: seq<Said>  // what was written since the last reset

    /** The buffer holds the text, and nothing but NULs behind it. */
    ghost predicate Valid()
      reads this`buffer, this`users, this`text, buffer
    {
      && 1 <= |users| <= MAX_USERS
      && (forall i :: 0 <= i < |users| ==> |users[i]| < MAX_USER_NAME && '\0' !in users[i])
      && Holds(buffer[..], text)
    }

    /** The names are different and have no colon or newline, and every message so far was one line. */
    ghost predicate Tidy()
      reads this`users, this`text, this`log
    {
      GoodUsers(users) && GoodLog(users, log) && text == Text(users, log, 0)
    }

    /** `text` is the string in `memory`, and everything behind it is NUL. */
    static ghost predicate Holds(memory: string, text: string) {
      && |text| < |memory| && text == memory[..|text|]
      && '\0' !in text
      && forall i :: |text| <= i < |memory| ==> memory[i] == '\0'
    }

    /** `dev_init`. */
    constructor ()
      ensures Valid() && Tidy() && fresh(buffer) && buffer.Length == 1024
      ensures users == ["all"] && bytesRead == 0 && text == "" && log == []
    {
      buffer := new char[DEFAULT_BUFFER_SIZE](_ => '\0');
      users := ["all"];
      bytesRead := 0;
      text, log := "", [];
    }

    /** `strlen(chat_buffer)`. */
    method Used(ghost t: string) returns (n: nat)
      requires Holds(buffer[..], t)
      ensures n == |t|
    {
      n := 0;
      assert forall i :: 0 <= i < |t| ==> buffer[i] == t[i] != '\0';
      while buffer[n] != '\0'
        invariant n <= |t|
        decreases |t| - n
      {
        n := n + 1;
      }
    }

    /** Copies `s` to the end of the string in the buffer: `strcat`, or a copy that leaves the
        terminator to the zeroed memory.  `inside` is false if there is no room for it and a
        terminator. */
    method Append(s: string, ghost t: string) returns (inside: bool)
      requires Holds(buffer[..], t) && '\0' !in s
      modifies buffer
      ensures inside <==> |t| + |s| < buffer.Length
      ensures inside ==> Holds(buffer[..], t + s)
    {
      var n := Used(t);
      for i := 0 to |s|
        invariant Holds(buffer[..], t + s[..i])
      {
        if n + i + 1 == buffer.Length {
          return false;
        }
        buffer[n + i] := s[i];
        assert s[..i + 1] == s[..i] + [s[i]];
        assert buffer[..n + i + 1] == (t + s[..i]) + [s[i]];
      }
      assert s[..|s|] == s;
      return true;
    }

    /** `dev_write`; the last `left` bytes of `message` cannot be copied in, and `copy_from_user` puts
        zeros in their place.  User 0 writes nothing.  `inside` is false if the buffer has no room for
        the line, these zeros and a terminator. */
    method Write(index: nat, message: string, left: nat) returns (inside: bool, ret: nat)
      requires Valid() && index < |users| && left <= |message| && '\0' !in message[..|message| - left]
      modifies this`text, this`log, buffer
      ensures ret == if index == 0 then 0 else |message| - left
      ensures inside <==> index == 0 || |old(text)| + |users[index]| + 2 + Max(ret + 1, |message|) <= buffer.Length
      ensures inside ==> Valid()
      ensures inside ==> text == if index == 0 then old(text) else old(text) + users[index] + ": " + message[..ret]
      ensures inside ==> log == old(log) + if index == 0 then [] else [Said(index, message[..ret])]
      ensures inside && old(Tidy()) && (index > 0 ==> GoodText(message[..ret])) ==> Tidy()
    {
      if index == 0 {
        return true, 0;
      }
      var copied := message[..|message| - left];
      ret := |copied|;
      inside := Append(users[index], text);
      if !inside {
        return;
      }
      inside := Append(": ", text + users[index]);
      if !inside {
        return;
      }
      inside := Append(copied, text + users[index] + ": ");
      if !inside {
        return;
      }
      assert text + users[index] + ": " + copied == text + Line(users[index], copied);
      inside := FillZeros(left, text + Line(users[index], copied));
      if !inside {
        return;
      }
      if Tidy() && GoodText(copied) {
        TextAppend(users, log, Said(index, copied), 0);
      }
      text, log := text + Line(users[index], copied), log + [Said(index, copied)];
    }

    /** The zeros that `copy_from_user` puts behind what it has copied. */
    method FillZeros(n: nat, ghost t: string) returns (inside: bool)
      requires Holds(buffer[..], t)
      modifies buffer
      ensures inside <==> |t| + n <= buffer.Length
      ensures inside ==> Holds(buffer[..], t)
    {
      var p := Used(t);
      for i := 0 to n
        invariant p + i <= buffer.Length && Holds(buffer[..], t)
      {
        if p + i == buffer.Length {
          return false;
        }
        buffer[p + i] := '\0';
        assert buffer[..|t|] == t;
      }
      return true;
    }

    /** `line` stands at `p`, with a newline at its end or the end of the text behind it. */
    ghost predicate LineAt(p: nat, line: string)
      reads this`buffer, buffer
    {
      && p + |line| < buffer.Length && buffer[p..p + |line|] == line
      && line != [] && '\n' !in line[..|line| - 1] && '\0' !in line
      && (line[|line| - 1] == '\n' || buffer[p + |line|] == '\0')
    }

    /** The test of line 91: `memcmp`, taken to stop at the first difference, and the colon. */
    method IsBy(p: nat, name: string) returns (b: bool)
      requires Holds(buffer[..], text) && p < |text| && '\0' !in name
      ensures b <==> Begins(text[p..], name)
    {
      ghost var t := text[p..];
      assert forall i :: 0 <= i < |t| ==> buffer[p + i] == t[i];
      var i := 0;
      while i < |name| && buffer[p + i] == name[i]
        invariant i <= |name| && i <= |t| && t[..i] == name[..i]
      {
        assert i < |t| && t[i] == name[i];
        i := i + 1;
      }
      b := i == |name| && buffer[p + i] == ':';
      if i < |name| && |name| < |t| {
        assert (name + [':'])[i] == name[i] != t[i];
      }
      if b {
        assert i < |t|;
        assert t[..i + 1] == name + [':'];
      }
      assert Begins(t, name) ==> t[|name|] == (name + [':'])[|name|];
    }

    /** The first line of the text from `p` on. */
    lemma LineInBuffer(p: nat, line: string)
      requires Holds(buffer[..], text) && p < |text| && line == FirstLine(text[p..])
      ensures LineAt(p, line) && p + |line| <= |text|
      ensures line[|line| - 1] != '\n' ==> p + |line| == |text|
    {
      assert buffer[p..p + |line|] == text[p..][..|line|];
      assert forall i :: 0 <= i < |line| ==> line[i] == text[p + i];
    }

    /** `strchr` for a newline from `p` on; -1 when there is none. */
    method NextLine(p: nat, ghost line: string) returns (next: int)
      requires LineAt(p, line)
      ensures next == if line[|line| - 1] == '\n' then p + |line| - 1 else -1
    {
      next := p;
      while buffer[next] != '\n'
        invariant p <= next < p + |line| && '\n' !in line[..next - p]
        decreases p + |line| - next
      {
        assert buffer[next] == line[next - p];
        next := next + 1;
        assert next < p + |line| ==> buffer[next] == line[next - p];
        if buffer[next] == '\0' {
          return -1;
        }
      }
      assert line[next - p] == '\n';
      assert forall i :: 0 <= i < |line| - 1 ==> line[i] == line[..|line| - 1][i] != '\n';
    }

    /** `dev_read`: a reader gets the lines that begin with its name, in order, and reader 0 the
        whole buffer - unless the last read, by whomever, handed out something; then this one only
        resets the counter.  `ok` is false when the text does not end with a newline: the loop then
        follows the null pointer that `strchr` returned. */
    method Read(index: nat) returns (ok: bool, data: string)
      requires Valid() && index < |users|
      modifies this`bytesRead
      ensures Valid()
      ensures ok <==> old(bytesRead) != 0 || NewlineEnded(text)
      ensures ok ==> data == if old(bytesRead) == 0 then Selected(text, index, users[index]) else ""
      ensures ok ==> bytesRead == |data|
      ensures Tidy() ==> ok && data == if old(bytesRead) == 0 then Text(users, log, index) else ""
    {
      if Tidy() {
        SelectedIsText(users, log, index);
      }
      if bytesRead != 0 {
        bytesRead := 0;
        return true, "";
      }
      ok, data := LinesFor(index);
      if ok {
        bytesRead := |data|;
      }
    }

    /** Lines 86-97: the buffer, line by line, without the lines of others. */
    method LinesFor(index: nat) returns (ok: bool, data: string)
      requires Valid() && index < |users|
      ensures ok <==> NewlineEnded(text)
      ensures ok ==> data == Selected(text, index, users[index])
    {
      data := "";
      var p := 0;
      NothingRead(text, index, users[index]);
      while buffer[p] != '\0'
        invariant Halfway(text, p, data, index, users[index])
        decreases |text| - p
      {
        ghost var line := FirstLine(text[p..]);
        var piece, next;
        ok, piece, next := ReadLine(index, p, line);
        if !ok {
          LastLineOpen(text, p, line);
          return;
        }
        ghost var before := data;
        data := data + piece;
        OneLineMore(text, p, line, index, users[index], before, piece, next, data);
        p := next;
      }
      AllRead(text, p, data, index, users[index]);
      return true, data;
    }

    /** The loop of `dev_read` has come to `p` and has handed out `data`. */
    static ghost predicate Halfway(text: string, p: nat, data: string, reader: nat, name: string) {
      p <= |text| && NewlineEnded(text[..p]) && data + Selected(text[p..], reader, name) == Selected(text, reader, name)
    }

    static lemma NothingRead(text: string, reader: nat, name: string)
      ensures Halfway(text, 0, "", reader, name)
    {
      assert text[0..] == text;
    }

    static lemma AllRead(text: string, p: nat, data: string, reader: nat, name: string)
      requires p == |text| && Halfway(text, p, data, reader, name)
      ensures NewlineEnded(text) && data == Selected(text, reader, name)
    {
      assert text[..p] == text && text[p..] == [] && data + [] == data;
    }

    /** One round of the loop of `dev_read`: the line at `p`, or nothing if it is not for the reader. */
    method ReadLine(index: nat, p: nat, ghost line: string) returns (ok: bool, piece: string, next: nat)
      requires Valid() && index < |users| && p < |text| && line == FirstLine(text[p..])
      ensures ok <==> line[|line| - 1] == '\n'
      ensures ok ==> next == p + |line| && piece == if index == 0 || Begins(text[p..], users[index]) then line else []
    {
      LineInBuffer(p, line);
      var newline := NextLine(p, line);
      var mine := true;
      if index != 0 {
        mine := IsBy(p, users[index]);
      }
      if newline == -1 {
        return false, "", p;
      }
      return true, if mine then buffer[p..newline + 1] else [], newline + 1;
    }

    static lemma OneLineMore(text: string, p: nat, line: string, reader: nat, name: string,
                             before: string, piece: string, next: nat, data: string)
      requires p < |text| && line == FirstLine(text[p..]) && Halfway(text, p, before, reader, name)
      requires line[|line| - 1] == '\n' && next == p + |line| && data == before + piece
      requires piece == if reader == 0 || Begins(text[p..], name) then line else []
      ensures Halfway(text, next, data, reader, name)
    {
      assert text[p..][|line| - 1] == text[next - 1];
      assert text[next..] == text[p..][|line|..];
      Associates(before, piece, Selected(text[next..], reader, name));
    }

    static lemma LastLineOpen(text: string, p: nat, line: string)
      requires p < |text| && line == FirstLine(text[p..]) && line[|line| - 1] != '\n'
      ensures !NewlineEnded(text)
    {
      assert text[p..][|line| - 1] == text[p + |line| - 1];
    }

    /** `proc_write_add`; the last `left` bytes of `input` cannot be copied in, and are NUL.  `inside`
        is false if the text is empty, the table is full, or the name does not fit its place. */
    method AddUser(input: string, left: nat) returns (inside: bool, ret: int)
      requires Valid() && left <= |input|
      modifies this`users
      ensures ret == |input| - left
      ensures inside <==> input != [] && |old(users)| < 16 && |NameIn(input, left)| < 32
      ensures inside ==> Valid() && users == old(users) + [NameIn(input, left)]
      ensures inside && old(Tidy()) && GoodName(NameIn(input, left)) && NameIn(input, left) !in old(users) ==> Tidy()
    {
      var name := NameIn(input, left);
      ret := |input| - left;
      inside := input != [] && |users| < MAX_USERS && |name| < MAX_USER_NAME;
      if inside {
        if Tidy() {
          TextOfMoreUsers(users, name, log, 0);
        }
        users := users + [name];
      }
    }

    /** `proc_write_reset` with the number it reads, or none if the text is not a number: a positive
        number of kilobytes replaces the buffer by a new, zeroed one.  The counter stays. */
    method Reset(length: nat, kilobytes: int) returns (ret: nat)
      requires Valid()
      modifies this`buffer, this`text, this`log
      ensures Valid()
      ensures ret == if kilobytes < 0 then 0 else length
      ensures kilobytes > 0 ==> fresh(buffer) && buffer.Length == 1024 * kilobytes && text == "" && log == []
      ensures kilobytes <= 0 ==> buffer == old(buffer) && text == old(text) && log == old(log)
      ensures (kilobytes > 0 && GoodUsers(users)) || old(Tidy()) ==> Tidy()
    {
      if kilobytes < 0 {
        return 0;
      }
      if kilobytes != 0 {
        buffer := new char[kilobytes * 1024](_ => '\0');
        text, log := "", [];
      }
      return length;
    }
  }

  /** The string in front of the first NUL. */
  function UpToNul(s: string): (t: string)
    ensures t <= s && '\0' !in t && (t == s || s[|t|] == '\0')
  {
    if s == [] || s[0] == '\0' then [] else [s[0]] + UpToNul(s[1..])
  }

  /** The string in a zeroed copy of `input` whose last character, the newline, is replaced by NUL. */
  function NameIn(input: string, left: nat): string
    requires left <= |input|
  {
    if input == [] then [] else UpToNul(input[..|input| - Max(1, left)])
  }

  /** Without a NUL in it, the name is the input without its last character, whatever that is, or
      without what could not be copied in. */
  lemma NameIs(input: string, left: nat)
    requires input != [] && '\0' !in input && left <= |input|
    ensures NameIn(input, left) == input[..|input| - if left == 0 then 1 else left]
    ensures NameIn(input, 0) == input[..|input| - 1]
  {
  }

  lemma NameOfLine(name: string)
    requires '\0' !in name
    ensures NameIn(name + ['\n'], 0) == name
  {
    NameIs(name + ['\n'], 0);
    assert (name + ['\n'])[..|name|] == name;
  }

  /** Names for two new users. */
  predicate TwoNames(ann: string, bob: string) {
    && GoodName(ann) && GoodName(bob) && ann != bob && "all" != ann && "all" != bob
    && |ann| < MAX_USER_NAME && |bob| < MAX_USER_NAME
  }

  /** A chat with two users. */
  method Meet(ann: string, bob: string) returns (d: Device)
    requires TwoNames(ann, bob)
    ensures fresh(d) && fresh(d.buffer) && d.Valid() && d.Tidy() && d.bytesRead == 0
    ensures d.buffer.Length == DEFAULT_BUFFER_SIZE && d.users == ["all", ann, bob] && d.text == "" && d.log == []
  {
    d := new Device();
    NameOfLine(ann);
    NameOfLine(bob);
    var inside, ret := d.AddUser(ann + ['\n'], 0);
    inside, ret := d.AddUser(bob + ['\n'], 0);
  }

  lemma TextOfTwo(users: seq<string>, s: Said, t: Said, reader: nat)
    requires s.user < |users| && t.user < |users| && GoodLog(users, [s, t]) && reader != 0
    ensures Text(users, [s, t], reader)
         == (if s.user == reader then Line(users[s.user], s.text) else [])
            + (if t.user == reader then Line(users[t.user], t.text) else [])
  {
    assert [s, t][0] == s && [s, t][1] == t;
    TextAppend(users, [], s, reader);
    TextAppend(users, [s], t, reader);
    assert [] + [s] == [s] && [s] + [t] == [s, t];
  }

  /** A line is written in full. */
  method Say(d: Device, index: nat, message: string)
    requires d.Valid() && d.Tidy() && 0 < index < |d.users| && GoodText(message)
    requires |d.text| + |d.users[index]| + 2 + |message| < d.buffer.Length
    modifies d`text, d`log, d.buffer
    ensures d.Valid() && d.Tidy() && d.log == old(d.log) + [Said(index, message)]
    ensures d.text == old(d.text) + d.users[index] + ": " + message
    ensures |d.text| == old(|d.text|) + |d.users[index]| + 2 + |message|
  {
    assert message[..|message|] == message;
    var inside, ret := d.Write(index, message, 0);
  }

  /** Each of them has written a line. */
  method TwoWriters(ann: string, bob: string, hi: string, yo: string) returns (d: Device)
    requires TwoNames(ann, bob) && GoodText(hi) && GoodText(yo) && |hi| + |yo| < 900
    ensures fresh(d) && d.Valid() && d.Tidy() && d.bytesRead == 0
    ensures d.users == ["all", ann, bob] && d.log == [Said(1, hi), Said(2, yo)]
  {
    d := Meet(ann, bob);
    Say(d, 1, hi);
    Say(d, 2, yo);
  }

  /** Reader 1 has read its line, and nothing was written or read since: the next read, by reader 2,
      resets the counter and gets nothing, although there is a line by user 2. */
  method SecondReaderGetsNothing(ann: string, bob: string, hi: string, yo: string) returns (d: Device)
    requires TwoNames(ann, bob) && GoodText(hi) && GoodText(yo) && |hi| + |yo| < 900
    ensures fresh(d) && d.Valid() && d.Tidy() && d.users == ["all", ann, bob]
    ensures d.log == [Said(1, hi), Said(2, yo)] && Text(d.users, d.log, 2) == Line(bob, yo)
    ensures d.bytesRead == |Line(ann, hi)| > 0
  {
    d := TwoWriters(ann, bob, hi, yo);
    TextOfTwo(d.users, Said(1, hi), Said(2, yo), 1);
    TextOfTwo(d.users, Said(1, hi), Said(2, yo), 2);
    var ok, first := d.Read(1);
  }

  /** User 1, called a, has written "hi" and a newline, and nothing was read since: the next read gets
      "a: hi" and the newline if it is by reader 1 or by reader 0, and nothing if it is by reader 2. */
  method HiWritten(a: string, b: string, hi: string, line: string) returns (d: Device)
    requires a == "a" && b == "b" && hi == "hi\n" && line == "a: hi\n"
    ensures fresh(d) && d.Valid() && d.Tidy() && d.users == ["all", a, b] && d.bytesRead == 0
    ensures d.text == line && Selected(d.text, 0, "all") == line
    ensures Selected(d.text, 1, a) == line && Selected(d.text, 2, b) == ""
  {
    HiIs(a, b, hi, line);
    d := Meet(a, b);
    Say(d, 1, hi);
    OneLineRead(line, 0, "all");
    OneLineRead(line, 1, a);
    OneLineRead(line, 2, b);
  }

  lemma HiIs(a: string, b: string, hi: string, line: string)
    requires a == "a" && b == "b" && hi == "hi\n" && line == "a: hi\n"
    ensures TwoNames(a, b) && GoodText(hi) && "" + a + ": " + hi == line && |a| == 1 && |hi| == 3
    ensures line[|line| - 1] == '\n' && '\n' !in line[..|line| - 1] && Matches(line, a) && !Matches(line, b)
    ensures '\n' !in "all"
  {
  }

  lemma OneLineRead(line: string, reader: nat, name: string)
    requires line != [] && line[|line| - 1] == '\n' && '\n' !in line[..|line| - 1] && '\n' !in name
    ensures Selected(line, reader, name) == if reader == 0 || Matches(line, name) then line else []
  {
    SelectedCons(line, [], reader, name);
    assert line + [] == line && line + Selected([], reader, name) == line;
  }

  lemma StaysUnfinished(name: string, message: string)
    requires message != [] && message[|message| - 1] != '\n'
    ensures !NewlineEnded(Line(name, message))
    ensures message[..|message|] == message && "" + Line(name, message) == Line(name, message)
  {
  }

  /** User 1 has written a message without a newline at the end, and nothing was read since: the next
      read, by whomever, follows a null pointer. */
  method UnfinishedLine(ann: string, bob: string, message: string) returns (d: Device)
    requires TwoNames(ann, bob) && '\0' !in message && |message| < 900
    requires message != [] && message[|message| - 1] != '\n'
    ensures fresh(d) && d.Valid() && d.users == ["all", ann, bob]
    ensures d.text == Line(ann, message) && d.log == [Said(1, message)] && d.bytesRead == 0
    ensures !NewlineEnded(d.text)
  {
    d := Meet(ann, bob);
    StaysUnfinished(ann, message);
    var inside, ret := d.Write(1, message, 0);
  }
}
