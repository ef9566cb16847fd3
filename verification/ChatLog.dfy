/** The chat of task06/dyndev.c as a list of lines, and how the text of the whole chat is taken
    apart again by author. */
module ChatLog {
  import opened Basics

  /** User number `user` wrote `text`, which ends with its only newline. */
  datatype Said = Said(user: nat, text: string)

  predicate GoodName(name: string) {
    ':' !in name && '\n' !in name && '\0' !in name
  }

  predicate GoodText(text: string) {
    && text != [] && text[|text| - 1] == '\n'
    && '\n' !in text[..|text| - 1] && '\0' !in text
  }

  ghost predicate GoodUsers(users: seq<string>) {
    && (forall i :: 0 <= i < |users| ==> GoodName(users[i]))
    && (forall i, j :: 0 <= i < j < |users| ==> users[i] != users[j])
  }

  ghost predicate GoodLog(users: seq<string>, log: seq<Said>) {
    forall k :: 0 <= k < |log| ==> 0 < log[k].user < |users| && GoodText(log[k].text)
  }

  /** A line of the buffer. */
  function Line(name: string, text: string): string {
    name + [':', ' '] + text
  }

  /** The lines of `log` by `user`, or all of them for user 0, in order. */
  function Lines(users: seq<string>, log: seq<Said>, user: nat): seq<string>
    requires forall k :: 0 <= k < |log| ==> log[k].user < |users|
  {
    if log == [] then []
    else
      var last := log[|log| - 1];
      Lines(users, log[..|log| - 1], user)
      + if user == 0 || last.user == user then [Line(users[last.user], last.text)] else []
  }

  /** What reader number `user` is to get. */
  function Text(users: seq<string>, log: seq<Said>, user: nat): string
    requires forall k :: 0 <= k < |log| ==> log[k].user < |users|
  {
    Concat(Lines(users, log, user))
  }

  /** One more line. */
  lemma TextAppend(users: seq<string>, log: seq<Said>, said: Said, user: nat)
    requires GoodLog(users, log) && said.user < |users|
    ensures Text(users, log + [said], user)
         == Text(users, log, user) + if user == 0 || said.user == user then Line(users[said.user], said.text) else []
  {
    assert (log + [said])[..|log|] == log;
    if user == 0 || said.user == user {
      ConcatAppend(Lines(users, log, user), Line(users[said.user], said.text));
    } else {
      assert Lines(users, log, user) + [] == Lines(users, log, user);
    }
  }

  /** A new user changes nothing that was said before. */
  lemma {:induction false} TextOfMoreUsers(users: seq<string>, name: string, log: seq<Said>, user: nat)
    requires GoodLog(users, log)
    ensures Text(users + [name], log, user) == Text(users, log, user)
    decreases |log|
  {
    if log != [] {
      var init, last := log[..|log| - 1], log[|log| - 1];
      assert log == init + [last];
      TextOfMoreUsers(users, name, init, user);
      TextAppend(users, init, last, user);
      TextAppend(users + [name], init, last, user);
    }
  }

  // ----- Telling the lines apart -----

  /** The only newline of a line is its last character, and it has no NUL. */
  lemma LineEnd(name: string, text: string)
    requires GoodName(name) && GoodText(text)
    ensures var line := Line(name, text);
            && 3 <= |line| && line[|line| - 1] == '\n' && '\n' !in line[..|line| - 1] && '\0' !in line
  {
    var line := Line(name, text);
    assert line[..|line| - 1] == name + [':', ' '] + text[..|text| - 1];
  }

  /** A line starts with the name and a colon. */
  predicate Matches(line: string, name: string) {
    |name| < |line| && line[..|name|] == name && line[|name|] == ':'
  }

  /** It finds the author, although one name may be the beginning of another. */
  lemma MatchesExactlyTheAuthor(author: string, text: string, name: string)
    requires GoodName(author) && GoodName(name)
    ensures Matches(Line(author, text), name) <==> name == author
  {
    var line := Line(author, text);
    assert line[|author|] == ':' && line[..|author|] == author;
    assert forall i :: 0 <= i < |author| ==> line[i] == author[i] != ':';
    if |name| < |line| && line[..|name|] == name {
      assert forall i :: 0 <= i < |name| ==> line[i] == name[i] != ':';
    }
  }

  lemma AuthorIsUnique(users: seq<string>, i: nat, j: nat)
    requires GoodUsers(users) && i < |users| && j < |users|
    ensures users[i] == users[j] <==> i == j
  {
    if i < j {
      assert users[i] != users[j];
    } else if j < i {
      assert users[j] != users[i];
    }
  }

  // ----- Taking a text apart into lines -----

  /** Up to and with the first newline, or everything. */
  function FirstLine(t: string): (line: string)
    requires t != []
    ensures line != [] && line <= t && '\n' !in line[..|line| - 1]
    ensures line[|line| - 1] == '\n' || line == t
  {
    if t[0] == '\n' || |t| == 1 then [t[0]] else [t[0]] + FirstLine(t[1..])
  }

  /** The test that `dev_read` makes at the beginning of a line: the name and a colon. */
  predicate Begins(t: string, name: string) {
    name + [':'] <= t
  }

  /** The lines of `t` where that test succeeds, or all of them for reader 0. */
  function Selected(t: string, reader: nat, name: string): string {
    if t == [] then []
    else
      (if reader == 0 || Begins(t, name) then FirstLine(t) else []) + Selected(t[|FirstLine(t)|..], reader, name)
  }

  /** What reader number `reader`, called `name`, gets of a line. */
  function Share(line: string, reader: nat, name: string): string {
    if reader == 0 || Matches(line, name) then line else []
  }

  /** A name without a newline is compared with the line alone. */
  lemma BeginsLine(t: string, name: string)
    requires t != [] && '\n' !in name
    ensures Begins(t, name) <==> Matches(FirstLine(t), name)
  {
    var line := FirstLine(t);
    if Begins(t, name) {
      assert t[..|name| + 1] == name + [':'];
      assert forall i :: 0 <= i <= |name| ==> t[i] == (name + [':'])[i];
      assert line[|line| - 1] == t[|line| - 1];
      assert line[..|name|] == t[..|name|] == name;
    }
    if Matches(line, name) {
      assert t[..|name| + 1] == line[..|name|] + [line[|name|]];
    }
  }

  predicate NewlineEnded(t: string) {
    t == [] || t[|t| - 1] == '\n'
  }

  lemma {:induction false} FirstLineIs(line: string, rest: string)
    requires line != [] && line[|line| - 1] == '\n' && '\n' !in line[..|line| - 1]
    ensures FirstLine(line + rest) == line && (line + rest)[|line|..] == rest
    decreases |line|
  {
    assert (line + rest)[1..] == line[1..] + rest;
    if |line| > 1 {
      assert line[0] in line[..|line| - 1];
      assert line[1..][..|line| - 2] == line[..|line| - 1][1..];
      FirstLineIs(line[1..], rest);
    }
  }

  lemma SelectedCons(line: string, rest: string, reader: nat, name: string)
    requires '\n' !in name
    requires line != [] && line[|line| - 1] == '\n' && '\n' !in line[..|line| - 1]
    ensures Selected(line + rest, reader, name) == Share(line, reader, name) + Selected(rest, reader, name)
  {
    FirstLineIs(line, rest);
    BeginsLine(line + rest, name);
  }

  /** A text that ends with a newline is its first line and another such text. */
  lemma CutFirstLine(t: string) returns (line: string, rest: string)
    requires t != [] && NewlineEnded(t)
    ensures t == line + rest && NewlineEnded(rest) && |rest| < |t|
    ensures line != [] && line[|line| - 1] == '\n' && '\n' !in line[..|line| - 1]
  {
    line := FirstLine(t);
    rest := t[|line|..];
  }

  /** Behind a newline, the lines of both parts are selected one after the other. */
  lemma {:induction false} SelectedConcat(t: string, u: string, reader: nat, name: string)
    requires NewlineEnded(t) && '\n' !in name
    ensures Selected(t + u, reader, name) == Selected(t, reader, name) + Selected(u, reader, name)
    decreases |t|
  {
    if t == [] {
      assert t + u == u;
    } else {
      var line, rest := CutFirstLine(t);
      SelectedCons(line, rest, reader, name);
      SelectedConcat(rest, u, reader, name);
      SelectedCons(line, rest + u, reader, name);
      Associates(line, rest, u);
      Associates(Share(line, reader, name), Selected(rest, reader, name), Selected(u, reader, name));
    }
  }

  /** A message of one or more lines: its first line goes to its author, and every further line to
      whomever it names in front of a colon. */
  lemma MessageSelected(t: string, author: string, first: string, more: string, reader: nat, name: string)
    requires NewlineEnded(t) && GoodName(author) && GoodName(name) && GoodText(first)
    ensures Selected(t + Line(author, first + more), reader, name)
         == Selected(t, reader, name)
            + ((if reader == 0 || name == author then Line(author, first) else []) + Selected(more, reader, name))
  {
    var line := Line(author, first);
    LineEnd(author, first);
    assert Line(author, first + more) == line + more;
    SelectedConcat(t, line + more, reader, name);
    SelectedCons(line, more, reader, name);
    MatchesExactlyTheAuthor(author, first, name);
  }

  /** A message of one line. */
  lemma LineSelected(t: string, author: string, text: string, reader: nat, name: string)
    requires NewlineEnded(t) && GoodName(author) && GoodName(name) && GoodText(text)
    ensures NewlineEnded(t + Line(author, text))
    ensures Selected(t + Line(author, text), reader, name)
         == Selected(t, reader, name) + if reader == 0 || name == author then Line(author, text) else []
  {
    LineEnd(author, text);
    assert text + [] == text && Selected([], reader, name) == [];
    MessageSelected(t, author, text, [], reader, name);
  }

  /** What is in the buffer after user 1, called a, has written "hi" and user 2, called b, "yo", each
      with a newline; and what readers 1, 2 and 0 get of it. */
  lemma TwoLinesRead(t: string, first: string, second: string, a: string, b: string)
    requires first == "a: hi\n" && second == "b: yo\n" && t == first + second && a == "a" && b == "b"
    ensures Selected(t, 1, a) == first && Selected(t, 2, b) == second && Selected(t, 0, "all") == t
  {
    LinesApart(first, second, a, b);
    TwoLinesApart(t, first, second, a, b, "all");
  }

  lemma TwoLinesApart(t: string, first: string, second: string, a: string, b: string, all: string)
    requires first != [] && first[|first| - 1] == '\n' && '\n' !in first[..|first| - 1]
    requires second != [] && second[|second| - 1] == '\n' && '\n' !in second[..|second| - 1]
    requires Matches(first, a) && !Matches(first, b) && Matches(second, b) && !Matches(second, a)
    requires '\n' !in a && '\n' !in b && '\n' !in all && t == first + second
    ensures Selected(t, 1, a) == first && Selected(t, 2, b) == second && Selected(t, 0, all) == t
  {
    ReadOf(t, first, second, 1, a);
    ReadOf(t, first, second, 2, b);
    ReadOf(t, first, second, 0, all);
  }

  lemma LinesApart(first: string, second: string, a: string, b: string)
    requires first == "a: hi\n" && second == "b: yo\n" && a == "a" && b == "b"
    ensures first[|first| - 1] == '\n' && '\n' !in first[..|first| - 1]
    ensures second[|second| - 1] == '\n' && '\n' !in second[..|second| - 1]
    ensures Matches(first, a) && !Matches(first, b) && Matches(second, b) && !Matches(second, a)
    ensures '\n' !in a && '\n' !in b && '\n' !in "all"
  {
  }

  /** Two lines one behind the other. */
  lemma ReadOf(t: string, first: string, second: string, reader: nat, name: string)
    requires first != [] && first[|first| - 1] == '\n' && '\n' !in first[..|first| - 1]
    requires second != [] && second[|second| - 1] == '\n' && '\n' !in second[..|second| - 1]
    requires '\n' !in name && t == first + second
    ensures reader == 0 ==> Selected(t, reader, name) == t
    ensures reader != 0 && Matches(first, name) && !Matches(second, name) ==> Selected(t, reader, name) == first
    ensures reader != 0 && !Matches(first, name) && Matches(second, name) ==> Selected(t, reader, name) == second
  {
    SelectedCons(first, second, reader, name);
    SelectedCons(second, [], reader, name);
    assert second + [] == second && first + [] == first && [] + second == second;
  }

  /** In a chat of one-line messages every reader gets the lines of its user. */
  lemma {:induction false} SelectedIsText(users: seq<string>, log: seq<Said>, reader: nat)
    requires GoodUsers(users) && GoodLog(users, log) && reader < |users|
    ensures NewlineEnded(Text(users, log, 0))
    ensures Selected(Text(users, log, 0), reader, users[reader]) == Text(users, log, reader)
    decreases |log|
  {
    if log != [] {
      var init, last := log[..|log| - 1], log[|log| - 1];
      assert log == init + [last];
      SelectedIsText(users, init, reader);
      TextAppend(users, init, last, 0);
      TextAppend(users, init, last, reader);
      LineSelected(Text(users, init, 0), users[last.user], last.text, reader, users[reader]);
      AuthorIsUnique(users, reader, last.user);
    }
  }

  // ----- The whole chat is an interleaving of what its users wrote -----

  /** `whole` can be taken from the ends of `parts`, one line at a time, until nothing is left. */
  ghost predicate Interleaves(whole: seq<string>, parts: seq<seq<string>>)
    decreases |whole|
  {
    if whole == [] then forall i :: 0 <= i < |parts| ==> parts[i] == []
    else
      var n := |whole| - 1;
      exists i :: 0 <= i < |parts| && parts[i] != [] && parts[i][|parts[i]| - 1] == whole[n]
                  && Interleaves(whole[..n], parts[i := parts[i][..|parts[i]| - 1]])
  }

  /** What the users 1, 2, ... wrote; nobody writes as user 0. */
  function Parts(users: seq<string>, log: seq<Said>): (parts: seq<seq<string>>)
    requires forall k :: 0 <= k < |log| ==> log[k].user < |users|
    ensures |parts| == |users|
  {
    seq(|users|, i requires 0 <= i < |users| => if i == 0 then [] else Lines(users, log, i))
  }

  lemma {:induction false} WholeChatInterleavesUsers(users: seq<string>, log: seq<Said>)
    requires GoodLog(users, log)
    ensures Interleaves(Lines(users, log, 0), Parts(users, log))
    decreases |log|
  {
    if log != [] {
      var init, last := log[..|log| - 1], log[|log| - 1];
      WholeChatInterleavesUsers(users, init);
      var whole, parts, i := Lines(users, log, 0), Parts(users, log), last.user;
      assert whole[..|whole| - 1] == Lines(users, init, 0);
      assert parts[i] == Lines(users, init, i) + [whole[|whole| - 1]];
      assert parts[i][..|parts[i]| - 1] == Lines(users, init, i);
      assert forall j :: 0 < j < |users| && j != i ==> Lines(users, log, j) == Lines(users, init, j);
      assert parts[i := parts[i][..|parts[i]| - 1]] == Parts(users, init);
    }
  }
}
