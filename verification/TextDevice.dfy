/** The read and write operations around `reverse_string` in exercise10/part02/rw.c, and the
    protocol of the two cursors. */
module TextDevice {
  import opened Basics
  import opened Words
  import opened WordReverse

  /** The buffer when `copy_from_user` has copied all but the last `|residue|` of at most
      `BUFFER_SIZE` bytes of `text`, and has left `residue` in place of those. */
  function Copied(memory: string, text: string, residue: string): string
    requires |residue| <= Min(|text|, BUFFER_SIZE) && |memory| == BUFFER_SIZE
  {
    text[..Min(|text|, BUFFER_SIZE) - |residue|] + residue + memory[Min(|text|, BUFFER_SIZE)..]
  }

  /** Byte by byte: what has been copied comes first, then the residue, then what was there. */
  lemma CopiedAt(memory: string, text: string, residue: string, k: nat)
    requires |residue| <= Min(|text|, 256) && |memory| == BUFFER_SIZE && k < 256
    ensures var n := Min(|text|, 256); var s := Copied(memory, text, residue);
            && |s| == 256
            && s[k] == if k < n - |residue| then text[k] else if k < n then residue[k - (n - |residue|)] else memory[k]
  {
  }

  class Device {
    const buffer: array<char>   // proc_buffer
    var msgLength: nat          // proc_msg_length
    var readPos: nat            // proc_msg_read_pos
    ghost var delivered: string // the bytes handed out since the last write

    /** The cursors stay ordered, so the subtractions of unsigned numbers never wrap, and what
        has been handed out is the part of the message in front of the read cursor. */
    ghost predicate Valid()
      reads this, buffer
    {
      && buffer.Length == BUFFER_SIZE
      && readPos <= msgLength <= BUFFER_SIZE
      && delivered == buffer[..readPos]
    }

    /** `create_buffer`; the memory is not initialised. */
    constructor (memory: array<char>)
      requires memory.Length == BUFFER_SIZE
      ensures Valid() && buffer == memory && msgLength == 0 && readPos == 0
    {
      buffer := memory;
      msgLength, readPos, delivered := 0, 0, "";
    }

    method CopyFromUser(text: string, length: nat, residue: string)
      requires buffer.Length == BUFFER_SIZE && length == Min(|text|, BUFFER_SIZE) && |residue| <= length
      modifies buffer
      ensures buffer[..] == Copied(old(buffer[..]), text, residue)
    {
      var n := length - |residue|;
      forall i | 0 <= i < length {
        buffer[i] := if i < n then text[i] else residue[i - n];
      }
    }

    /** `example_write`.  What precedes the first NUL in the buffer is transformed, whether or not
        it is the text just copied; `ok` is false if that leaves the buffer. */
    method Write(text: string, residue: string) returns (ok: bool, ret: nat)
      requires Valid() && |residue| <= Min(|text|, BUFFER_SIZE)
      modifies this, buffer
      ensures Valid() && ret == |text|
      ensures msgLength == (if |text| <= 256 then |text| else 256) - |residue| && readPos == 0
      ensures ok <==> Safe(Copied(old(buffer[..]), text, residue))
      ensures ok ==> buffer[..] == Transformed(Copied(old(buffer[..]), text, residue))
    {
      var length := if |text| > BUFFER_SIZE then BUFFER_SIZE else |text|;
      var left := |residue|;
      CopyFromUser(text, length, residue);
      msgLength := length - left;
      readPos := 0;
      delivered := "";
      ok := ReverseString(buffer);
      ret := |text|;
    }

    /** `example_read`; the last `left` of the bytes asked for cannot be copied out. */
    method Read(length: nat, left: nat) returns (data: string)
      requires Valid() && left <= Min(length, msgLength - readPos)
      modifies this`readPos, this`delivered
      ensures Valid()
      ensures |data| == Min(length, msgLength - old(readPos)) - left
      ensures readPos == old(readPos) + |data| && data == buffer[old(readPos)..readPos]
      ensures delivered == old(delivered) + data
    {
      var n := length;
      if n > msgLength - readPos {
        n := msgLength - readPos;
      }
      data := buffer[readPos..readPos + (n - left)];
      readPos := readPos + (n - left);
      delivered := delivered + data;
      assert buffer[..readPos] == buffer[..old(readPos)] + data;
    }

    /** Any sequence of reads, of any lengths and with any partial copies, hands out the message
        in order and without gaps; a read that asks for something and copies everything it can
        returns nothing only when the message is used up. */
    method ReadAll(requests: seq<(nat, nat)>) returns (data: string)
      requires Valid()
      modifies this`readPos, this`delivered
      ensures Valid() && delivered == old(delivered) + data
      ensures data == buffer[old(readPos)..readPos]
      ensures (exists r :: r in requests && r.0 > 0 && r.1 == 0) ==> data != "" || old(readPos) == msgLength
    {
      data := "";
      for k := 0 to |requests|
        invariant Valid() && delivered == old(delivered) + data
        invariant old(readPos) <= readPos && data == buffer[old(readPos)..readPos]
        invariant (exists r :: r in requests[..k] && r.0 > 0 && r.1 == 0) ==>
                    data != "" || old(readPos) == msgLength
      {
        var (length, fail) := requests[k];
        var piece := Read(length, Min(fail, Min(length, msgLength - readPos)));
        data := data + piece;
      }
      assert requests[..|requests|] == requests;
    }

    /** A whole session: a text that fits the buffer is written in one piece and then read in any
        pieces.  The reader gets the beginning of the transformed buffer, in order, as long as the
        text; in front of a NUL that is the line with its words in reverse order and upper case. */
    method Session(body: string, requests: seq<(nat, nat)>) returns (ok: bool, data: string)
      requires Valid() && |body| + 1 <= BUFFER_SIZE
      modifies this, buffer
      ensures Valid()
      ensures ok <==> Safe(Copied(old(buffer[..]), body + ['\n'], ""))
      ensures ok ==> Receives(Transformed(Copied(old(buffer[..]), body + ['\n'], ""))[..|body| + 1], data)
      ensures FreshLine(old(buffer[..]), body) ==> ok && Receives(InReverseOrder(body) + ['\n'], data)
    {
      ghost var s := Copied(buffer[..], body + ['\n'], "");
      LineTransformed(buffer[..], body);
      var ret;
      ok, ret := Write(body + ['\n'], "");
      data := ReadAll(requests);
      Received(buffer[..], |body| + 1, readPos, data);
    }

    /** The reader has got a part of `message` from its beginning, and all of it exactly when the
        message is used up. */
    ghost predicate Receives(message: string, data: string)
      reads this`readPos, this`msgLength
    {
      data <= message && (readPos == msgLength <==> data == message)
    }
  }

  lemma Received(memory: string, n: nat, k: nat, data: string)
    requires k <= n <= |memory| && data == memory[0..k]
    ensures data <= memory[..n] && (k == n <==> data == memory[..n])
  {
  }

  predicate Line(body: string) {
    ' ' in body && body[0] != ' ' && body[|body| - 1] != ' ' && '\0' !in body
  }

  /** A line that is to be copied in front of a NUL. */
  predicate FreshLine(memory: string, body: string) {
    Line(body) && |body| + 1 < BUFFER_SIZE == |memory| && memory[|body| + 1] == '\0'
  }

  /** A line copied in front of a NUL is the string that `reverse_string` works on. */
  lemma LineIsSafe(memory: string, body: string, s: string)
    requires FreshLine(memory, body) && s == Copied(memory, body + ['\n'], "")
    ensures Safe(s) && Body(s) == body && Tail(s)[0] == '\n'
  {
    var n := |body| + 1;
    assert s[..n] == body + ['\n'];
    assert s[n] == '\0' && '\0' !in body + ['\n'];
    FindIs(s, '\0', n);
    assert s[n - 2] == body[|body| - 1] && s[n - 1] == '\n';
  }

  lemma LineTransformed(memory: string, body: string)
    requires |memory| == BUFFER_SIZE && |body| + 1 <= BUFFER_SIZE
    ensures var s := Copied(memory, body + ['\n'], "");
            && |s| == BUFFER_SIZE && (Safe(s) ==> |Transformed(s)| == BUFFER_SIZE)
            && (FreshLine(memory, body) ==> Safe(s) && Transformed(s)[..|body| + 1] == InReverseOrder(body) + ['\n'])
  {
    var s := Copied(memory, body + ['\n'], "");
    if FreshLine(memory, body) {
      LineIsSafe(memory, body, s);
      WordsReversedExactly(s);
      FirstPart(InReverseOrder(body), Tail(s), Transformed(s));
    }
    if Safe(s) {
      assert |Body(s)| + |Tail(s)| == |s|;
    }
  }

  lemma FirstPart(b: string, t: string, x: string)
    requires x == b + t && t != []
    ensures |b| + 1 <= |x| && x[..|b| + 1] == b + [t[0]] && |x| == |b| + |t|
  {
  }
}
